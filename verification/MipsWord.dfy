/** Bit fields of a 32-bit MIPS instruction word, as the Python tools extract them. */
module MipsWord {
  type U8 = x: int | 0 <= x < 0x100
  type U32 = x: int | 0 <= x < 0x1_0000_0000

  type U16 = x: int | 0 <= x < 0x1_0000
  type Field5 = x: int | 0 <= x < 32
  type Field6 = x: int | 0 <= x < 64

  function Op(w: U32): Field6 { w / 0x400_0000 }
  function Rs(w: U32): Field5 { w / 0x20_0000 % 32 }
  function Rt(w: U32): Field5 { w / 0x1_0000 % 32 }
  function Rd(w: U32): Field5 { w / 0x800 % 32 }
  function Shamt(w: U32): Field5 { w / 0x40 % 32 }
  function Funct(w: U32): Field6 { w % 0x40 }
  function Imm(w: U32): U16 { w % 0x1_0000 }
  function Target26(w: U32): int { w % 0x400_0000 }

  /** The immediate field read as a signed 16-bit number. */
  function SImm(w: U32): int {
    if Imm(w) >= 0x8000 then Imm(w) - 0x1_0000 else Imm(w)
  }

  /** (pc + 4) & 0xF0000000 | target26 << 2, on unbounded integers. */
  function JumpTarget(pc: int, w: U32): int {
    (pc + 4) / 0x1000_0000 % 16 * 0x1000_0000 + Target26(w) * 4
  }

  function BranchTarget(pc: int, w: U32): int {
    pc + 4 + SImm(w) * 4
  }
}
