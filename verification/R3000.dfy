/**
 Reference semantics of the R3000A integer core and COP0, with its branch delay slot: a machine
 with the addresses of the current and of the next instruction.
 */
module R3000 {
  import opened Wrappers
  import opened MipsWord

  datatype Addr = Addr(a: bv32)

  function Nought(a: Addr): bv8 { 0 }

  /** Byte-addressed memory, defined at every address. */
  type Mem = m: imap<Addr, bv8> | forall a :: a in m ghost witness imap a :: Nought(a)

  ghost function At(m: Mem, a: bv32): bv8 { m[Addr(a)] }

  ghost function Put(m: Mem, a: bv32, b: bv8): Mem { m[Addr(a) := b] }

  datatype RawCpu = Cpu(gpr: seq<bv32>, hi: bv32, lo: bv32, cop0: seq<bv32>, mem: Mem)

  /** $zero reads as zero. */
  type Cpu = c: RawCpu | |c.gpr| == 32 && |c.cop0| == 32 && c.gpr[0] == 0
    ghost witness Cpu(seq(32, i => 0), 0, 0, seq(32, i => 0), imap a :: Nought(a))

  type Reg = r: int | 0 <= r < 32

  // ---- Values --------------------------------------------------------------------------------

  function Signed(x: bv32): int {
    if x >= 0x8000_0000 then (x as int) - 0x1_0000_0000 else x as int
  }

  function Word(i: int): bv32 { (i % 0x1_0000_0000) as bv32 }

  function Flag(b: bool): bv32 { if b then 1 else 0 }

  function ShiftRightArithmetic(x: bv32, n: bv32): bv32 {
    if x >= 0x8000_0000 then !(!x >> (n & 31)) else x >> (n & 31)
  }

  predicate FitsSigned(i: int) { -0x8000_0000 <= i < 0x8000_0000 }

  // ---- Instructions ---------------------------------------------------------------------------

  datatype AluOp = Addu | Subu | And | Or | Xor | Nor | Slt | Sltu | Sll | Srl | Sra

  datatype Operand = R(r: Reg) | I(v: bv32)

  datatype Width = Byte | ByteU | Half | HalfU | Whole

  datatype Cond = Beq | Bne | Blez | Bgtz | Bltz | Bgez

  datatype Instr =
    | Alu(op: AluOp, rd: Reg, a: Operand, b: Operand)
    | AddTrap(rd: Reg, a: Operand, b: Operand)
    | SubTrap(rd: Reg, a: Operand, b: Operand)
    | Mfhi(rd: Reg) | Mflo(rd: Reg) | Mthi(rs: Reg) | Mtlo(rs: Reg)
    | Mult(rs: Reg, rt: Reg) | Multu(rs: Reg, rt: Reg) | Div(rs: Reg, rt: Reg) | Divu(rs: Reg, rt: Reg)
    | Load(w: Width, rt: Reg, rs: Reg, off: bv32)
    | Store(w: Width, rt: Reg, rs: Reg, off: bv32)
    | LoadLeft(rt: Reg, rs: Reg, off: bv32) | LoadRight(rt: Reg, rs: Reg, off: bv32)
    | StoreLeft(rt: Reg, rs: Reg, off: bv32) | StoreRight(rt: Reg, rs: Reg, off: bv32)
    | Mfc0(rt: Reg, rd: Reg) | Mtc0(rt: Reg, rd: Reg) | Rfe
    | Cop2(raw: U32)
    | Syscall | Break(code: int)
    | CondBranch(cond: Cond, rs: Reg, rt: Reg, target: int)
    | CondBranchLink(cond: Cond, rs: Reg, target: int)
    | Jump(target: int) | JumpLink(target: int) | JumpReg(rs: Reg) | JumpLinkReg(rd: Reg, rs: Reg)
    | Reserved

  function SignExtended(w: U32): bv32 {
    (if Imm(w) >= 0x8000 then 0xFFFF_0000 + Imm(w) else Imm(w)) as bv32
  }

  function ZeroExtended(w: U32): bv32 { Imm(w) as bv32 }

  /** Addresses wrap at 32 bits. */
  function Wrap(a: int): int { a % 0x1_0000_0000 }

  function DecodeSpecial(w: U32): Instr {
    var rs, rt, rd := Rs(w), Rt(w), Rd(w);
    var sh := I(Shamt(w) as bv32);
    var fn := Funct(w);
    if fn == 0x00 then Alu(Sll, rd, R(rt), sh)
    else if fn == 0x02 then Alu(Srl, rd, R(rt), sh)
    else if fn == 0x03 then Alu(Sra, rd, R(rt), sh)
    else if fn == 0x04 then Alu(Sll, rd, R(rt), R(rs))
    else if fn == 0x06 then Alu(Srl, rd, R(rt), R(rs))
    else if fn == 0x07 then Alu(Sra, rd, R(rt), R(rs))
    else if fn == 0x08 then JumpReg(rs)
    else if fn == 0x09 then JumpLinkReg(rd, rs)
    else if fn == 0x0C then Syscall
    else if fn == 0x0D then Break(w / 0x40 % 0x10_0000)
    else if fn == 0x10 then Mfhi(rd)
    else if fn == 0x11 then Mthi(rs)
    else if fn == 0x12 then Mflo(rd)
    else if fn == 0x13 then Mtlo(rs)
    else if fn == 0x18 then Mult(rs, rt)
    else if fn == 0x19 then Multu(rs, rt)
    else if fn == 0x1A then Div(rs, rt)
    else if fn == 0x1B then Divu(rs, rt)
    else if fn == 0x20 then AddTrap(rd, R(rs), R(rt))
    else if fn == 0x21 then Alu(Addu, rd, R(rs), R(rt))
    else if fn == 0x22 then SubTrap(rd, R(rs), R(rt))
    else if fn == 0x23 then Alu(Subu, rd, R(rs), R(rt))
    else if fn == 0x24 then Alu(And, rd, R(rs), R(rt))
    else if fn == 0x25 then Alu(Or, rd, R(rs), R(rt))
    else if fn == 0x26 then Alu(Xor, rd, R(rs), R(rt))
    else if fn == 0x27 then Alu(Nor, rd, R(rs), R(rt))
    else if fn == 0x2A then Alu(Slt, rd, R(rs), R(rt))
    else if fn == 0x2B then Alu(Sltu, rd, R(rs), R(rt))
    else Reserved
  }

  function Decode(pc: int, w: U32): Instr {
    var op, rs, rt, rd := Op(w), Rs(w), Rt(w), Rd(w);
    var s, z := SignExtended(w), ZeroExtended(w);
    var target := Wrap(MipsWord.BranchTarget(pc, w));
    if op == 0x00 then DecodeSpecial(w)
    else if op == 0x01 then
      if rt == 0x00 then CondBranch(Bltz, rs, 0, target)
      else if rt == 0x01 then CondBranch(Bgez, rs, 0, target)
      else if rt == 0x10 then CondBranchLink(Bltz, rs, target)
      else if rt == 0x11 then CondBranchLink(Bgez, rs, target)
      else Reserved
    else if op == 0x02 then Jump(MipsWord.JumpTarget(pc, w))
    else if op == 0x03 then JumpLink(MipsWord.JumpTarget(pc, w))
    else if op == 0x04 then CondBranch(Beq, rs, rt, target)
    else if op == 0x05 then CondBranch(Bne, rs, rt, target)
    else if op == 0x06 then CondBranch(Blez, rs, 0, target)
    else if op == 0x07 then CondBranch(Bgtz, rs, 0, target)
    else if op == 0x08 then AddTrap(rt, R(rs), I(s))
    else if op == 0x09 then Alu(Addu, rt, R(rs), I(s))
    else if op == 0x0A then Alu(Slt, rt, R(rs), I(s))
    else if op == 0x0B then Alu(Sltu, rt, R(rs), I(s))
    else if op == 0x0C then Alu(And, rt, R(rs), I(z))
    else if op == 0x0D then Alu(Or, rt, R(rs), I(z))
    else if op == 0x0E then Alu(Xor, rt, R(rs), I(z))
    else if op == 0x0F then Alu(Sll, rt, I(z), I(16))
    else if op == 0x10 then
      if w == 0x4200_0010 then Rfe
      else if rs == 0x00 then Mfc0(rt, rd)
      else if rs == 0x04 then Mtc0(rt, rd)
      else Reserved
    else if op == 0x12 then Cop2(w)
    else if op == 0x20 then Load(Byte, rt, rs, s)
    else if op == 0x21 then Load(Half, rt, rs, s)
    else if op == 0x22 then LoadLeft(rt, rs, s)
    else if op == 0x23 then Load(Whole, rt, rs, s)
    else if op == 0x24 then Load(ByteU, rt, rs, s)
    else if op == 0x25 then Load(HalfU, rt, rs, s)
    else if op == 0x26 then LoadRight(rt, rs, s)
    else if op == 0x28 then Store(Byte, rt, rs, s)
    else if op == 0x29 then Store(Half, rt, rs, s)
    else if op == 0x2A then StoreLeft(rt, rs, s)
    else if op == 0x2B then Store(Whole, rt, rs, s)
    else if op == 0x2E then StoreRight(rt, rs, s)
    else if op == 0x32 || op == 0x3A then Cop2(w)
    else Reserved
  }

  // ---- Memory, by bytes ------------------------------------------------------------------------

  function ByteOf(x: bv32, lane: bv32): bv8
    requires lane <= 3
  {
    ((x >> (8 * lane)) & 0xFF) as bv8
  }

  function FromBytes(b0: bv8, b1: bv8, b2: bv8, b3: bv8): bv32 {
    (b0 as bv32) | ((b1 as bv32) << 8) | ((b2 as bv32) << 16) | ((b3 as bv32) << 24)
  }

  ghost function ReadHalf(m: Mem, a: bv32): bv32 {
    (At(m, a) as bv32) | ((At(m, a + 1) as bv32) << 8)
  }

  ghost function WriteByte(m: Mem, a: bv32, b: bv8): Mem { Put(m, a, b) }

  ghost function WriteHalf(m: Mem, a: bv32, x: bv32): Mem {
    Put(Put(m, a, ByteOf(x, 0)), a + 1, ByteOf(x, 1))
  }

  // ---- Unaligned words: which byte goes where, for each position in the aligned word -------------

  function Aligned(a: bv32): bv32 { a & !3 }

  datatype Bytes = Bytes(b0: bv8, b1: bv8, b2: bv8, b3: bv8)

  ghost function BytesAt(m: Mem, a: bv32): Bytes { Bytes(At(m, a), At(m, a + 1), At(m, a + 2), At(m, a + 3)) }

  function Split(x: bv32): Bytes { Bytes(ByteOf(x, 0), ByteOf(x, 1), ByteOf(x, 2), ByteOf(x, 3)) }

  function Join(b: Bytes): bv32 { FromBytes(b.b0, b.b1, b.b2, b.b3) }

  /** LWL: the bytes of word w up to position k fill register p from the top. */
  function LeftLoaded(w: Bytes, k: bv32, p: Bytes): Bytes {
    if k == 0 then Bytes(p.b0, p.b1, p.b2, w.b0)
    else if k == 1 then Bytes(p.b0, p.b1, w.b0, w.b1)
    else if k == 2 then Bytes(p.b0, w.b0, w.b1, w.b2)
    else w
  }

  /** LWR: the bytes of word w from position k on fill register p from the bottom. */
  function RightLoaded(w: Bytes, k: bv32, p: Bytes): Bytes {
    if k == 0 then w
    else if k == 1 then Bytes(w.b1, w.b2, w.b3, p.b3)
    else if k == 2 then Bytes(w.b2, w.b3, p.b2, p.b3)
    else Bytes(w.b3, p.b1, p.b2, p.b3)
  }

  /** SWL: the bytes of word w up to position k are replaced from the top of register x. */
  function LeftStored(w: Bytes, k: bv32, x: Bytes): Bytes {
    if k == 0 then Bytes(x.b3, w.b1, w.b2, w.b3)
    else if k == 1 then Bytes(x.b2, x.b3, w.b2, w.b3)
    else if k == 2 then Bytes(x.b1, x.b2, x.b3, w.b3)
    else x
  }

  /** SWR: the bytes of word w from position k on are replaced from the bottom of register x. */
  function RightStored(w: Bytes, k: bv32, x: Bytes): Bytes {
    if k == 0 then x
    else if k == 1 then Bytes(w.b0, x.b0, x.b1, x.b2)
    else if k == 2 then Bytes(w.b0, w.b1, x.b0, x.b1)
    else Bytes(w.b0, w.b1, w.b2, x.b0)
  }

  ghost function LoadLeftValue(m: Mem, a: bv32, p: bv32): bv32 {
    Join(LeftLoaded(BytesAt(m, Aligned(a)), a & 3, Split(p)))
  }

  ghost function LoadRightValue(m: Mem, a: bv32, p: bv32): bv32 {
    Join(RightLoaded(BytesAt(m, Aligned(a)), a & 3, Split(p)))
  }

  ghost function StoreLeftMem(m: Mem, a: bv32, x: bv32): Mem {
    WriteBytes(m, Aligned(a), LeftStored(BytesAt(m, Aligned(a)), a & 3, Split(x)))
  }

  ghost function StoreRightMem(m: Mem, a: bv32, x: bv32): Mem {
    WriteBytes(m, Aligned(a), RightStored(BytesAt(m, Aligned(a)), a & 3, Split(x)))
  }

  ghost function ReadWord(m: Mem, a: bv32): bv32 { Join(BytesAt(m, a)) }

  ghost function WriteBytes(m: Mem, a: bv32, b: Bytes): Mem {
    Put(Put(Put(Put(m, a, b.b0), a + 1, b.b1), a + 2, b.b2), a + 3, b.b3)
  }

  ghost function WriteWord(m: Mem, a: bv32, x: bv32): Mem { WriteBytes(m, a, Split(x)) }

  // ---- Execution -------------------------------------------------------------------------------

  datatype TrapKind = Overflow | AddressError(addr: bv32) | SyscallTrap | BreakTrap(code: int)

  datatype Effect = Next(cpu: Cpu) | Trapped(kind: TrapKind, cpu: Cpu)

  function Get(c: Cpu, r: Reg): bv32 { c.gpr[r] }

  /** Writes to $zero are discarded. */
  function Set(c: Cpu, r: Reg, v: bv32): Cpu {
    if r == 0 then c else c.(gpr := c.gpr[r := v])
  }

  function Value(c: Cpu, x: Operand): bv32 {
    match x case R(r) => Get(c, r) case I(v) => v
  }

  function Displaced(base: bv32, off: bv32): bv32 { base + off }

  /** The address of a memory access. */
  function Effective(c: Cpu, base: Reg, off: bv32): bv32 { Displaced(c.gpr[base], off) }

  function AluResult(op: AluOp, x: bv32, y: bv32): bv32 {
    match op
    case Addu => x + y
    case Subu => x - y
    case And => x & y
    case Or => x | y
    case Xor => x ^ y
    case Nor => !(x | y)
    case Slt => Flag(Signed(x) < Signed(y))
    case Sltu => Flag(x < y)
    case Sll => x << (y & 31)
    case Srl => x >> (y & 31)
    case Sra => ShiftRightArithmetic(x, y)
  }

  function Abs(i: int): nat { if i < 0 then -i else i }

  /** Signed division rounds toward zero, the remainder has the sign of the dividend, and the
      results for a zero divisor are the documented ones. */
  function DivResult(n: int, d: int): (int, int) {
    if d == 0 then (if n >= 0 then -1 else 1, n)
    else
      var q, r := Abs(n) / Abs(d), Abs(n) % Abs(d);
      (if (n < 0) == (d < 0) then q else -q, if n < 0 then -r else r)
  }

  ghost function LoadValue(w: Width, m: Mem, a: bv32): bv32 {
    match w
    case Byte => Word(var b := At(m, a) as int; if b >= 0x80 then b - 0x100 else b)
    case ByteU => At(m, a) as bv32
    case Half => Word(var h := ReadHalf(m, a) as int; if h >= 0x8000 then h - 0x1_0000 else h)
    case HalfU => ReadHalf(m, a)
    case Whole => ReadWord(m, a)
  }

  ghost function StoreMem(w: Width, m: Mem, a: bv32, x: bv32): Mem {
    match w
    case Byte => WriteByte(m, a, ByteOf(x, 0))
    case ByteU => WriteByte(m, a, ByteOf(x, 0))
    case Half => WriteHalf(m, a, x)
    case HalfU => WriteHalf(m, a, x)
    case Whole => WriteWord(m, a, x)
  }

  predicate Misaligned(w: Width, a: bv32) {
    match w
    case Byte => false
    case ByteU => false
    case Half => a & 1 != 0
    case HalfU => a & 1 != 0
    case Whole => a & 3 != 0
  }

  /** RFE pops the mode stack of the status register; its bottom entry, bits 4 and 5, stays. */
  function PopStatus(sr: bv32): bv32 { (sr & 0xFFFF_FFF0) | ((sr >> 2) & 0x0F) }

  /** The effect of COP2 (GTE) words is a parameter of the semantics. */
  type Gte = (U32, Cpu) -> Cpu

  /** The effect of an instruction that does not transfer control. */
  ghost function Exec(gte: Gte, ins: Instr, c: Cpu): Effect {
    match ins
    case Alu(op, rd, a, b) => Next(Set(c, rd, AluResult(op, Value(c, a), Value(c, b))))
    case AddTrap(rd, a, b) =>
      var sum := Signed(Value(c, a)) + Signed(Value(c, b));
      if FitsSigned(sum) then Next(Set(c, rd, Word(sum))) else Trapped(Overflow, c)
    case SubTrap(rd, a, b) =>
      var diff := Signed(Value(c, a)) - Signed(Value(c, b));
      if FitsSigned(diff) then Next(Set(c, rd, AluResult(Subu, Value(c, a), Value(c, b)))) else Trapped(Overflow, c)
    case Mfhi(rd) => Next(Set(c, rd, c.hi))
    case Mflo(rd) => Next(Set(c, rd, c.lo))
    case Mthi(rs) => Next(c.(hi := Get(c, rs)))
    case Mtlo(rs) => Next(c.(lo := Get(c, rs)))
    case Mult(rs, rt) =>
      var p := Signed(Get(c, rs)) * Signed(Get(c, rt));
      Next(c.(lo := Word(p), hi := Word(p / 0x1_0000_0000)))
    case Multu(rs, rt) =>
      var p := (Get(c, rs) as int) * (Get(c, rt) as int);
      Next(c.(lo := Word(p), hi := Word(p / 0x1_0000_0000)))
    case Div(rs, rt) =>
      var qr := DivResult(Signed(Get(c, rs)), Signed(Get(c, rt)));
      Next(c.(lo := Word(qr.0), hi := Word(qr.1)))
    case Divu(rs, rt) =>
      var n, d := Get(c, rs) as int, Get(c, rt) as int;
      Next(if d == 0 then c.(lo := 0xFFFF_FFFF, hi := Word(n)) else c.(lo := Word(n / d), hi := Word(n % d)))
    case Load(w, rt, rs, off) =>
      var a := Effective(c, rs, off);
      if Misaligned(w, a) then Trapped(AddressError(a), c) else Next(Set(c, rt, LoadValue(w, c.mem, a)))
    case Store(w, rt, rs, off) =>
      var a := Effective(c, rs, off);
      if Misaligned(w, a) then Trapped(AddressError(a), c) else Next(c.(mem := StoreMem(w, c.mem, a, Get(c, rt))))
    case LoadLeft(rt, rs, off) => Next(Set(c, rt, LoadLeftValue(c.mem, Effective(c, rs, off), Get(c, rt))))
    case LoadRight(rt, rs, off) => Next(Set(c, rt, LoadRightValue(c.mem, Effective(c, rs, off), Get(c, rt))))
    case StoreLeft(rt, rs, off) => Next(c.(mem := StoreLeftMem(c.mem, Effective(c, rs, off), Get(c, rt))))
    case StoreRight(rt, rs, off) => Next(c.(mem := StoreRightMem(c.mem, Effective(c, rs, off), Get(c, rt))))
    case Mfc0(rt, rd) => Next(Set(c, rt, c.cop0[rd]))
    case Mtc0(rt, rd) => Next(c.(cop0 := c.cop0[rd := Get(c, rt)]))
    case Rfe => Next(c.(cop0 := c.cop0[12 := PopStatus(c.cop0[12])]))
    case Cop2(raw) => Next(gte(raw, c))
    case Syscall => Trapped(SyscallTrap, c)
    case Break(code) => Trapped(BreakTrap(code), c)
    case _ => Next(c)
  }

  function Taken(cond: Cond, x: bv32, y: bv32): bool {
    match cond
    case Beq => x == y
    case Bne => x != y
    case Blez => Signed(x) <= 0
    case Bgtz => Signed(x) > 0
    case Bltz => Signed(x) < 0
    case Bgez => Signed(x) >= 0
  }

  predicate IsControl(ins: Instr) {
    ins.CondBranch? || ins.CondBranchLink? || ins.Jump? || ins.JumpLink? || ins.JumpReg? || ins.JumpLinkReg?
  }

  /** Where a control transfer goes once its delay slot has run. */
  function Destination(ins: Instr, pc: int, c: Cpu): int
    requires IsControl(ins)
  {
    match ins
    case CondBranch(cond, rs, rt, target) => if Taken(cond, Get(c, rs), Get(c, rt)) then target else Wrap(pc + 8)
    case CondBranchLink(cond, rs, target) => if Taken(cond, Get(c, rs), 0) then target else Wrap(pc + 8)
    case Jump(target) => target
    case JumpLink(target) => target
    case JumpReg(rs) => Get(c, rs) as int
    case JumpLinkReg(_, rs) => Get(c, rs) as int
  }

  /** The return address is written by the transfer itself, before the delay slot runs. */
  function Linked(ins: Instr, pc: int, c: Cpu): Cpu
    requires IsControl(ins)
  {
    match ins
    case CondBranchLink(_, _, _) => Set(c, 31, Word(pc + 8))
    case JumpLink(_) => Set(c, 31, Word(pc + 8))
    case JumpLinkReg(rd, _) => Set(c, rd, Word(pc + 8))
    case _ => c
  }

  /** A running machine holds the addresses of this and of the next instruction. */
  datatype Machine = Running(cpu: Cpu, pc: int, npc: int) | Stopped(kind: TrapKind, cpu: Cpu)

  /** One instruction; code is read from an image the program does not write. */
  ghost function Step(gte: Gte, code: int -> U32, m: Machine): Machine {
    if m.Stopped? then m
    else
      var ins := Decode(m.pc, code(m.pc));
      if IsControl(ins) then Running(Linked(ins, m.pc, m.cpu), m.npc, Destination(ins, m.pc, m.cpu))
      else match Exec(gte, ins, m.cpu)
        case Next(c) => Running(c, m.npc, Wrap(m.npc + 4))
        case Trapped(kind, c) => Stopped(kind, c)
  }

  ghost function Run(gte: Gte, code: int -> U32, m: Machine, steps: nat): Machine
    decreases steps
  {
    hide Step;
    if steps == 0 then m else Run(gte, code, Step(gte, code, m), steps - 1)
  }
}
