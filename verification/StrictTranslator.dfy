/**
 The strict MIPS-to-C translator (psxrecomp/recompiler/src/strict_translator.cpp) and the meaning
 of the C statements it emits.
 */
module StrictTranslator {
  import opened Wrappers
  import opened MipsWord
  import opened R3000

  // ---- The emitted C ---------------------------------------------------------------------------

  datatype BinOp =
    | Plus | Minus | BitAnd | BitOr | BitXor
    | ShiftL | ShiftR | ShiftRSigned
    | LessSigned | LessUnsigned

  datatype CExpr =
    | Gpr(r: Reg) | Const(v: bv32) | Hi | Lo | Cop0(r: Reg)
    | Bin(op: BinOp, a: CExpr, b: CExpr)
    | BitNot(e: CExpr)

  /** psx_brA_<addr>, psx_brB_<addr> and psx_jt_<addr>: function-scope locals of a slice. */
  datatype Local = BrA(addr: int) | BrB(addr: int) | Jt(addr: int)

  datatype CStmt =
    | Comment
    | SetGpr(r: Reg, e: CExpr)
    | SetHi(e: CExpr) | SetLo(e: CExpr) | SetCop0(r: Reg, e: CExpr)
    | AddChecked(rd: Reg, a: CExpr, b: CExpr)
    | MultuBlock(rs: Reg, rt: Reg) | DivBlock(rs: Reg, rt: Reg) | DivuBlock(rs: Reg, rt: Reg)
    | LoadBlock(w: Width, rt: Reg, rs: Reg, off: bv32)
    | StoreBlock(w: Width, rt: Reg, rs: Reg, off: bv32)
    | LwlBlock(rt: Reg, rs: Reg, off: bv32) | LwrBlock(rt: Reg, rs: Reg, off: bv32)
    | SwlBlock(rt: Reg, rs: Reg, off: bv32) | SwrBlock(rt: Reg, rs: Reg, off: bv32)
    | GteBlock(raw: U32)
    | SyscallBlock | BreakBlock(code: int)
    | Latch(name: Local, r: Reg)
    | GotoIf(cond: Cond, left: Local, right: Local, target: int, otherwise: int)
    | Goto(target: int)
    | GotoLocal(name: Local)
    | RfeBlock

  /** The state of a running slice function. */
  datatype Frame = Frame(cpu: Cpu, pc: int, locals: map<Local, bv32>)

  /** A statement falls through, returns from the slice function, calls a fail-loud trap, or has
      overwritten the register that must stay zero. */
  datatype COut = Fall(f: Frame) | Returned(f: Frame) | Aborted(kind: TrapKind, cpu: Cpu) | Broken

  function EvalBin(op: BinOp, x: bv32, y: bv32): bv32 {
    match op
    case Plus => x + y
    case Minus => x - y
    case BitAnd => x & y
    case BitOr => x | y
    case BitXor => x ^ y
    // A shift by 32 or more is undefined in C; the value here only stands for "not the right one".
    case ShiftL => if y < 32 then x << y else 0
    case ShiftR => if y < 32 then x >> y else 0
    case ShiftRSigned => if y < 32 then ShiftRightArithmetic(x, y) else 0
    case LessSigned => Flag(Signed(x) < Signed(y))
    case LessUnsigned => Flag(x < y)
  }

  function Eval(e: CExpr, c: Cpu): bv32 {
    match e
    case Gpr(r) => c.gpr[r]
    case Const(v) => v
    case Hi => c.hi
    case Lo => c.lo
    case Cop0(r) => c.cop0[r]
    case Bin(op, a, b) => EvalBin(op, Eval(a, c), Eval(b, c))
    case BitNot(x) => !Eval(x, c)
  }

  function Read(f: Frame, l: Local): bv32 {
    if l in f.locals then f.locals[l] else 0
  }

  /** The guarded form of the blocks that must run even when their destination is $zero. */
  function Assign(c: Cpu, r: Reg, v: bv32): Cpu {
    if r == 0 then c else c.(gpr := c.gpr[r := v])
  }

  /** C's `/` on int32_t, rounding toward zero, from Euclidean division. */
  function CDiv(n: int, d: int): int
    requires d != 0
  {
    if n >= 0 || n % d == 0 then n / d else if d > 0 then n / d + 1 else n / d - 1
  }

  function RunDiv(c: Cpu, n: int, d: int): Cpu {
    if d == 0 then c.(lo := if n >= 0 then 0xFFFF_FFFF else 1, hi := Word(n))
    else if n == -0x8000_0000 && d == -1 then c.(lo := 0x8000_0000, hi := 0)
    else
      var q := CDiv(n, d);
      var r := n - q * d;
      c.(lo := Word(q), hi := Word(r))
  }

  function RunDivu(c: Cpu, n: int, d: int): Cpu {
    if d == 0 then c.(lo := 0xFFFF_FFFF, hi := Word(n))
    else c.(lo := Word(n / d), hi := Word(n - (n / d) * d))
  }

  /** The merge formulas of the unaligned blocks; k is the byte offset psx_addr & 3. */
  function LwlMerge(word: bv32, k: bv32, prior: bv32): bv32
    requires k <= 3
  {
    (prior & ((1 << ((3 - k) * 8)) - 1)) | (word << ((3 - k) * 8))
  }

  function LwrMerge(word: bv32, k: bv32, prior: bv32): bv32
    requires k <= 3
  {
    (prior & !((0xFFFF_FFFF as bv32) >> (k * 8))) | (word >> (k * 8))
  }

  function SwlMerge(mem: bv32, k: bv32, x: bv32): bv32
    requires k <= 3
  {
    (mem & ((0x00FF_FFFF as bv32) >> (k * 8))) | (x >> ((3 - k) * 8))
  }

  function SwrMerge(mem: bv32, k: bv32, x: bv32): bv32
    requires k <= 3
  {
    (mem & ((0xFFFF_FF00 as bv32) << ((3 - k) * 8))) | (x << (k * 8))
  }

  /** psx_addr & 3u */
  function ByteOffset(addr: bv32): (k: bv32)
    ensures k <= 3
  {
    addr & 3
  }

  ghost function LwlValue(m: Mem, addr: bv32, prior: bv32): bv32 {
    LwlMerge(ReadWord(m, addr & !3), ByteOffset(addr), prior)
  }

  ghost function LwrValue(m: Mem, addr: bv32, prior: bv32): bv32 {
    LwrMerge(ReadWord(m, addr & !3), ByteOffset(addr), prior)
  }

  ghost function SwlMem(m: Mem, addr: bv32, x: bv32): Mem {
    WriteWord(m, addr & !3, SwlMerge(ReadWord(m, addr & !3), ByteOffset(addr), x))
  }

  ghost function SwrMem(m: Mem, addr: bv32, x: bv32): Mem {
    WriteWord(m, addr & !3, SwrMerge(ReadWord(m, addr & !3), ByteOffset(addr), x))
  }

  /** The status register as the RFE block leaves it. */
  function RfeStatus(sr: bv32): bv32 { (sr & 0xFFFF_FFC0) | ((sr >> 2) & 0x0F) }

  ghost function RunStmt(gte: Gte, s: CStmt, f: Frame): COut {
    var c := f.cpu;
    match s
    case Comment => Fall(f)
    case SetGpr(r, e) => if r == 0 then Broken else Fall(f.(cpu := c.(gpr := c.gpr[r := Eval(e, c)])))
    case SetHi(e) => Fall(f.(cpu := c.(hi := Eval(e, c))))
    case SetLo(e) => Fall(f.(cpu := c.(lo := Eval(e, c))))
    case SetCop0(r, e) => Fall(f.(cpu := c.(cop0 := c.cop0[r := Eval(e, c)])))
    case AddChecked(rd, a, b) =>
      var sum := Signed(Eval(a, c)) + Signed(Eval(b, c));
      if sum < -0x8000_0000 || sum > 0x7FFF_FFFF then Aborted(Overflow, c) else Fall(f.(cpu := Assign(c, rd, Word(sum))))
    case MultuBlock(rs, rt) =>
      var p := (c.gpr[rs] as int) * (c.gpr[rt] as int);
      Fall(f.(cpu := c.(lo := Word(p), hi := Word(p / 0x1_0000_0000))))
    case DivBlock(rs, rt) => Fall(f.(cpu := RunDiv(c, Signed(c.gpr[rs]), Signed(c.gpr[rt]))))
    case DivuBlock(rs, rt) =>
      Fall(f.(cpu := RunDivu(c, c.gpr[rs] as int, c.gpr[rt] as int)))
    case LoadBlock(w, rt, rs, off) =>
      var a := Effective(c, rs, off);
      if Misaligned(w, a) then Aborted(AddressError(a), c) else Fall(f.(cpu := Assign(c, rt, LoadValue(w, c.mem, a))))
    case StoreBlock(w, rt, rs, off) =>
      var a := Effective(c, rs, off);
      if Misaligned(w, a) then Aborted(AddressError(a), c) else Fall(f.(cpu := c.(mem := StoreMem(w, c.mem, a, c.gpr[rt]))))
    case LwlBlock(rt, rs, off) => Fall(f.(cpu := Assign(c, rt, LwlValue(c.mem, Effective(c, rs, off), c.gpr[rt]))))
    case LwrBlock(rt, rs, off) => Fall(f.(cpu := Assign(c, rt, LwrValue(c.mem, Effective(c, rs, off), c.gpr[rt]))))
    case SwlBlock(rt, rs, off) => Fall(f.(cpu := c.(mem := SwlMem(c.mem, Effective(c, rs, off), c.gpr[rt]))))
    case SwrBlock(rt, rs, off) => Fall(f.(cpu := c.(mem := SwrMem(c.mem, Effective(c, rs, off), c.gpr[rt]))))
    case GteBlock(raw) => Fall(f.(cpu := gte(raw, c)))
    case SyscallBlock => Aborted(SyscallTrap, c)
    case BreakBlock(code) => Aborted(BreakTrap(code), c)
    case Latch(name, r) => Fall(f.(locals := f.locals[name := c.gpr[r]]))
    case GotoIf(cond, left, right, target, otherwise) =>
      Returned(f.(pc := if Taken(cond, Read(f, left), Read(f, right)) then target else otherwise))
    case Goto(target) => Returned(f.(pc := target))
    case GotoLocal(name) => Returned(f.(pc := Read(f, name) as int))
    case RfeBlock =>
      Returned(f.(cpu := c.(cop0 := c.cop0[12 := RfeStatus(c.cop0[12])])))
  }

  ghost function RunCode(gte: Gte, code: seq<CStmt>, f: Frame): COut
    decreases |code|
  {
    hide RunStmt;
    if code == [] then Fall(f)
    else match RunStmt(gte, code[0], f)
      case Fall(g) => RunCode(gte, code[1..], g)
      case Returned(g) => Returned(g)
      case Aborted(kind, c) => Aborted(kind, c)
      case Broken => Broken
  }

  // ---- Translation -----------------------------------------------------------------------------

  datatype Kind = KindJ | KindJal | KindJr | KindJalr | KindRfe | KindBranch(cond: Cond)

  datatype TranslateResult =
    | Unsupported
    | Plain(stmt: CStmt)
    | Terminator(kind: Kind, pre: seq<CStmt>, code: seq<CStmt>, target: int)

  /** emit_gpr_write: a write to $zero is emitted as a comment. */
  function Write(r: Reg, e: CExpr): (t: TranslateResult)
    ensures t.Plain?
  {
    Plain(if r == 0 then Comment else SetGpr(r, e))
  }

  function Low5(r: Reg): CExpr { Bin(BitAnd, Gpr(r), Const(0x1F)) }

  function TranslateSpecial(w: U32, addr: int): TranslateResult {
    var rs, rt, rd := Rs(w), Rt(w), Rd(w);
    var shamt := Const(Shamt(w) as bv32);
    var fn := Funct(w);
    if fn == 0x00 then Write(rd, Bin(ShiftL, Gpr(rt), shamt))
    else if fn == 0x02 then Write(rd, Bin(ShiftR, Gpr(rt), shamt))
    else if fn == 0x03 then Write(rd, Bin(ShiftRSigned, Gpr(rt), shamt))
    else if fn == 0x04 then Write(rd, Bin(ShiftL, Gpr(rt), Low5(rs)))
    else if fn == 0x06 then Write(rd, Bin(ShiftR, Gpr(rt), Low5(rs)))
    else if fn == 0x07 then Write(rd, Bin(ShiftRSigned, Gpr(rt), Low5(rs)))
    else if fn == 0x0C then Plain(SyscallBlock)
    else if fn == 0x0D then Plain(BreakBlock(w / 0x40 % 0x10_0000))
    else if fn == 0x10 then Write(rd, Hi)
    else if fn == 0x11 then Plain(SetHi(Gpr(rs)))
    else if fn == 0x12 then Write(rd, Lo)
    else if fn == 0x13 then Plain(SetLo(Gpr(rs)))
    else if fn == 0x19 then Plain(MultuBlock(rs, rt))
    else if fn == 0x1A then Plain(DivBlock(rs, rt))
    else if fn == 0x1B then Plain(DivuBlock(rs, rt))
    else if fn == 0x20 then Plain(AddChecked(rd, Gpr(rs), Gpr(rt)))
    else if fn == 0x21 then Write(rd, Bin(Plus, Gpr(rs), Gpr(rt)))
    else if fn == 0x22 || fn == 0x23 then Write(rd, Bin(Minus, Gpr(rs), Gpr(rt)))
    else if fn == 0x24 then Write(rd, Bin(BitAnd, Gpr(rs), Gpr(rt)))
    else if fn == 0x25 then Write(rd, Bin(BitOr, Gpr(rs), Gpr(rt)))
    else if fn == 0x26 then Write(rd, Bin(BitXor, Gpr(rs), Gpr(rt)))
    else if fn == 0x27 then Write(rd, BitNot(Bin(BitOr, Gpr(rs), Gpr(rt))))
    else if fn == 0x2A then Write(rd, Bin(LessSigned, Gpr(rs), Gpr(rt)))
    else if fn == 0x2B then Write(rd, Bin(LessUnsigned, Gpr(rs), Gpr(rt)))
    else if fn == 0x08 then Terminator(KindJr, [Latch(Jt(addr), rs)], [GotoLocal(Jt(addr))], 0)
    else if fn == 0x09 then
      Terminator(KindJalr,
                 [Latch(Jt(addr), rs)] + (if rd != 0 then [SetGpr(rd, Const(Word(addr + 8)))] else []),
                 [GotoLocal(Jt(addr))], 0)
    else Unsupported
  }

  function TranslateBranch(cond: Cond, w: U32, addr: int): TranslateResult {
    var target := Wrap(MipsWord.BranchTarget(addr, w));
    var two := cond.Beq? || cond.Bne?;
    Terminator(KindBranch(cond),
               [Latch(BrA(addr), Rs(w))] + (if two then [Latch(BrB(addr), Rt(w))] else []),
               [GotoIf(cond, BrA(addr), if two then BrB(addr) else BrA(addr), target, Wrap(addr + 8))],
               target)
  }

  function TranslateImmediate(w: U32): TranslateResult {
    var op, rs, rt := Op(w), Rs(w), Rt(w);
    var s, z := Const(SignExtended(w)), Const(ZeroExtended(w));
    if op == 0x08 then Plain(AddChecked(rt, Gpr(rs), s))
    else if op == 0x09 then Write(rt, Bin(Plus, Gpr(rs), s))
    else if op == 0x0A then Write(rt, Bin(LessSigned, Gpr(rs), s))
    else if op == 0x0B then Write(rt, Bin(LessUnsigned, Gpr(rs), s))
    else if op == 0x0C then Write(rt, Bin(BitAnd, Gpr(rs), z))
    else if op == 0x0D then Write(rt, Bin(BitOr, Gpr(rs), z))
    else if op == 0x0E then Write(rt, Bin(BitXor, Gpr(rs), z))
    else if op == 0x0F then Write(rt, Const(ZeroExtended(w) << 16))
    else Unsupported
  }

  function TranslateMemory(w: U32): TranslateResult {
    var op, rs, rt, off := Op(w), Rs(w), Rt(w), SignExtended(w);
    if op == 0x20 then Plain(LoadBlock(Byte, rt, rs, off))
    else if op == 0x22 then Plain(LwlBlock(rt, rs, off))
    else if op == 0x26 then Plain(LwrBlock(rt, rs, off))
    else if op == 0x21 then Plain(LoadBlock(Half, rt, rs, off))
    else if op == 0x23 then Plain(LoadBlock(Whole, rt, rs, off))
    else if op == 0x24 then Plain(LoadBlock(ByteU, rt, rs, off))
    else if op == 0x25 then Plain(LoadBlock(HalfU, rt, rs, off))
    else if op == 0x28 then Plain(StoreBlock(Byte, rt, rs, off))
    else if op == 0x29 then Plain(StoreBlock(Half, rt, rs, off))
    else if op == 0x2A then Plain(SwlBlock(rt, rs, off))
    else if op == 0x2B then Plain(StoreBlock(Whole, rt, rs, off))
    else if op == 0x2E then Plain(SwrBlock(rt, rs, off))
    else Unsupported
  }

  function TranslateCop0(w: U32): TranslateResult {
    if w == 0x4200_0010 then Terminator(KindRfe, [], [RfeBlock], 0)
    else if Rs(w) == 0x00 then Write(Rt(w), Cop0(Rd(w)))
    else if Rs(w) == 0x04 then Plain(SetCop0(Rd(w), Gpr(Rt(w))))
    else Unsupported
  }

  /** COP2 sub-operations 0, 2, 4, 6 and every word with the command bit. */
  predicate GteSupported(w: U32) {
    Rs(w) in {0x00, 0x02, 0x04, 0x06} || Rs(w) >= 0x10
  }

  function Translate(w: U32, addr: int): TranslateResult {
    var op := Op(w);
    if w == 0 then Plain(Comment)
    else if op == 0x00 then TranslateSpecial(w, addr)
    else if op == 0x04 then TranslateBranch(Beq, w, addr)
    else if op == 0x05 then TranslateBranch(Bne, w, addr)
    else if op == 0x06 then TranslateBranch(Blez, w, addr)
    else if op == 0x07 then TranslateBranch(Bgtz, w, addr)
    else if op == 0x01 then
      if Rt(w) == 0x00 then TranslateBranch(Bltz, w, addr)
      else if Rt(w) == 0x01 then TranslateBranch(Bgez, w, addr)
      else Unsupported
    else if op == 0x02 then
      var target := MipsWord.JumpTarget(addr, w);
      Terminator(KindJ, [], [Goto(target)], target)
    else if op == 0x03 then
      var target := MipsWord.JumpTarget(addr, w);
      Terminator(KindJal, [], [SetGpr(31, Const(Word(addr + 8))), Goto(target)], target)
    else if 0x08 <= op <= 0x0F then TranslateImmediate(w)
    else if 0x20 <= op <= 0x2E then TranslateMemory(w)
    else if op == 0x10 then TranslateCop0(w)
    else if op == 0x12 then (if GteSupported(w) then Plain(GteBlock(w)) else Unsupported)
    else if op == 0x32 || op == 0x3A then Plain(GteBlock(w))
    else Unsupported
  }
}
