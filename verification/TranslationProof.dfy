/**
 Each translated instruction means what the R3000A does.
 */
module TranslationProof {
  import opened Wrappers
  import opened MipsWord
  import opened R3000
  import opened StrictTranslator
  import opened ByteLanes

  // ---- Division --------------------------------------------------------------------------------

  lemma MulBound(k: int, d: int)
    requires d > 0
    ensures k >= 1 ==> k * d >= d
    ensures k <= -1 ==> k * d <= -d
  {
    if k >= 1 {
      assert (k - 1) * d >= 0;
    }
    if k <= -1 {
      assert (-k - 1) * d >= 0;
    }
  }

  lemma QuotientUnique(d: int, q: int, r: int, q': int, r': int)
    requires d != 0 && q * d + r == q' * d + r'
    requires 0 <= r < Abs(d) && 0 <= r' < Abs(d)
    ensures q == q' && r == r'
  {
    var k := if d > 0 then q - q' else q' - q;
    assert k * Abs(d) == r' - r;
    MulBound(k, Abs(d));
    assert k == 0;
  }

  lemma Euclid(n: int, d: int, q: int, r: int)
    requires d != 0 && n == q * d + r && 0 <= r < Abs(d)
    ensures n / d == q && n % d == r
  {
    QuotientUnique(d, q, r, n / d, n % d);
  }

  lemma SignsMove(q: int, d: int)
    ensures (-q) * (-d) == q * d && q * (-d) == -(q * d) == (-q) * d
    ensures (q + 1) * d == q * d + d && (-q - 1) * d == -(q * d) - d
  {
  }

  /** C's quotient of n by d is the quotient of the absolute values with the sign of both. */
  lemma TruncatedQuotient(n: int, d: int, q: int, r: int)
    requires d != 0 && Abs(n) == q * Abs(d) + r && 0 <= r < Abs(d)
    ensures CDiv(n, d) == if (n < 0) == (d < 0) then q else -q
    ensures CDiv(n, d) * d == if n < 0 then -(q * Abs(d)) else q * Abs(d)
  {
    SignsMove(q, d);
    if n >= 0 {
      Euclid(n, d, if d > 0 then q else -q, r);
    } else if r == 0 {
      Euclid(n, d, if d > 0 then -q else q, 0);
    } else {
      Euclid(n, d, if d > 0 then -q - 1 else q + 1, Abs(d) - r);
    }
  }

  lemma QuotientIsSmall(n: nat, d: nat, q: int, r: int)
    requires d > 0 && n == q * d + r && 0 <= r < d
    ensures 0 <= q <= n && q * d <= n && (d >= 2 ==> 2 * q <= n)
  {
    if q < 0 {
      MulBound(q, d);
    }
    assert q * (d - 1) >= 0;
    if d >= 2 {
      assert q * (d - 2) >= 0;
    }
  }

  /** The emitted division computes the architectural quotient and remainder, and none of its
      int32_t intermediate results overflows once INT32_MIN / -1 is out of the way. */
  lemma DivisionIsExact(n: int, d: int)
    requires d != 0
    ensures DivResult(n, d) == (CDiv(n, d), n - CDiv(n, d) * d)
    ensures FitsSigned(n) && FitsSigned(d) && !(n == -0x8000_0000 && d == -1) ==>
      FitsSigned(CDiv(n, d)) && FitsSigned(CDiv(n, d) * d) && FitsSigned(n - CDiv(n, d) * d)
  {
    var q, r := Abs(n) / Abs(d), Abs(n) % Abs(d);
    assert Abs(n) == q * Abs(d) + r;
    TruncatedQuotient(n, d, q, r);
    QuotientIsSmall(Abs(n), Abs(d), q, r);
    hide CDiv;
  }

  // ---- Straight-line instructions ---------------------------------------------------------------

  /** The R3000A effect as an outcome of emitted code. */
  function Lift(e: Effect, f: Frame): COut {
    match e
    case Next(c) => Fall(f.(cpu := c))
    case Trapped(kind, c) => Aborted(kind, c)
  }

  /** Where the translation deviates: SUB never traps, and SWL and SWR keep the wrong bytes unless
      they store a whole word. */
  predicate Agrees(ins: Instr, c: Cpu) {
    match ins
    case SubTrap(_, a, b) => FitsSigned(Signed(Value(c, a)) - Signed(Value(c, b)))
    case StoreLeft(_, rs, off) => Effective(c, rs, off) & 3 == 3
    case StoreRight(_, rs, off) => Effective(c, rs, off) & 3 == 0
    case _ => true
  }

  /** What it means for emitted code to do what an instruction does. */
  ghost predicate Refines(gte: Gte, stmt: CStmt, ins: Instr, f: Frame) {
    !IsControl(ins) && RunStmt(gte, stmt, f) == Lift(Exec(gte, ins, f.cpu), f)
  }

  lemma SmallShift(i: int)
    requires 0 <= i < 32
    ensures (i as bv32) < 32
  {
  }

  lemma Low5IsSmall(x: bv32)
    ensures x & 0x1F < 32
  {
  }

  lemma MaskSmall(x: bv32)
    requires x < 32
    ensures x & 31 == x
  {
  }

  lemma MaskArithmetic(x: bv32, y: bv32)
    ensures ShiftRightArithmetic(x, y & 31) == ShiftRightArithmetic(x, y)
  {
    MaskSmall(y & 31);
    Low5IsSmall(y);
  }

  /** A guarded assignment of the right value refines any register-writing ALU instruction. */
  lemma WriteRefines(gte: Gte, e: CExpr, op: AluOp, rd: Reg, a: Operand, b: Operand, f: Frame)
    requires Eval(e, f.cpu) == AluResult(op, Value(f.cpu, a), Value(f.cpu, b))
    ensures Refines(gte, Write(rd, e).stmt, Alu(op, rd, a, b), f)
  {
    hide AluResult, Eval;
  }

  /** The C shift for an R3000A shift. */
  function ShiftOf(op: AluOp): BinOp
    requires op.Sll? || op.Srl? || op.Sra?
  {
    match op case Sll => ShiftL case Srl => ShiftR case Sra => ShiftRSigned
  }

  lemma ShlSmall(x: bv32, n: bv32)
    requires n < 32
    ensures x << (n & 31) == x << n
  {
    MaskSmall(n);
  }

  lemma ShrSmall(x: bv32, n: bv32)
    requires n < 32
    ensures x >> (n & 31) == x >> n
  {
    MaskSmall(n);
  }

  /** A C shift by less than 32 is the R3000A shift. */
  lemma ShiftValue(op: AluOp, x: bv32, n: bv32)
    requires op.Sll? || op.Srl? || op.Sra?
    requires n < 32
    ensures EvalBin(ShiftOf(op), x, n) == AluResult(op, x, n)
  {
    hide Signed, ShiftRightArithmetic;
    match op
    case Sll => ShlSmall(x, n);
    case Srl => ShrSmall(x, n);
    case Sra =>
  }

  /** Masking the amount changes nothing for the R3000A. */
  lemma ShiftMasked(op: AluOp, x: bv32, y: bv32)
    requires op.Sll? || op.Srl? || op.Sra?
    ensures AluResult(op, x, y & 0x1F) == AluResult(op, x, y)
  {
    MaskArithmetic(x, y);
    Low5IsSmall(y);
    MaskSmall(y & 31);
  }

  lemma ConstantShiftRefines(gte: Gte, op: AluOp, rd: Reg, rt: Reg, n: bv32, f: Frame)
    requires op.Sll? || op.Srl? || op.Sra?
    requires n < 32
    ensures Refines(gte, Write(rd, Bin(ShiftOf(op), Gpr(rt), Const(n))).stmt, Alu(op, rd, R(rt), I(n)), f)
  {
    hide Refines, EvalBin, AluResult;
    ShiftValue(op, f.cpu.gpr[rt], n);
    WriteRefines(gte, Bin(ShiftOf(op), Gpr(rt), Const(n)), op, rd, R(rt), I(n), f);
  }

  lemma EvalLow5(rs: Reg, c: Cpu)
    ensures Eval(Low5(rs), c) == c.gpr[rs] & 0x1F
  {
  }

  lemma VariableShiftRefines(gte: Gte, op: AluOp, rd: Reg, rt: Reg, rs: Reg, f: Frame)
    requires op.Sll? || op.Srl? || op.Sra?
    ensures Refines(gte, Write(rd, Bin(ShiftOf(op), Gpr(rt), Low5(rs))).stmt, Alu(op, rd, R(rt), R(rs)), f)
  {
    var x, y := f.cpu.gpr[rt], f.cpu.gpr[rs];
    Low5IsSmall(y);
    ShiftValue(op, x, y & 0x1F);
    ShiftMasked(op, x, y);
    EvalLow5(rs, f.cpu);
    hide Refines, EvalBin, AluResult, Low5;
    WriteRefines(gte, Bin(ShiftOf(op), Gpr(rt), Low5(rs)), op, rd, R(rt), R(rs), f);
  }

  function BinOf(op: AluOp): BinOp
    requires op in {Addu, Subu, And, Or, Xor, Slt, Sltu}
  {
    match op
    case Addu => Plus case Subu => Minus case And => BitAnd case Or => BitOr case Xor => BitXor
    case Slt => LessSigned case Sltu => LessUnsigned
  }

  function ExprOf(x: Operand): CExpr { match x case R(r) => Gpr(r) case I(v) => Const(v) }

  lemma BinaryRefines(gte: Gte, op: AluOp, rd: Reg, a: Operand, b: Operand, f: Frame)
    requires op in {Addu, Subu, And, Or, Xor, Slt, Sltu}
    ensures Refines(gte, Write(rd, Bin(BinOf(op), ExprOf(a), ExprOf(b))).stmt, Alu(op, rd, a, b), f)
  {
    hide Refines, Signed;
    assert Eval(ExprOf(a), f.cpu) == Value(f.cpu, a) && Eval(ExprOf(b), f.cpu) == Value(f.cpu, b);
    WriteRefines(gte, Bin(BinOf(op), ExprOf(a), ExprOf(b)), op, rd, a, b, f);
  }

  lemma EvalNor(rs: Reg, rt: Reg, c: Cpu)
    ensures Eval(BitNot(Bin(BitOr, Gpr(rs), Gpr(rt))), c) == AluResult(Nor, c.gpr[rs], c.gpr[rt])
  {
    hide Signed, ShiftRightArithmetic;
    assert Eval(Bin(BitOr, Gpr(rs), Gpr(rt)), c) == EvalBin(BitOr, c.gpr[rs], c.gpr[rt]);
  }

  lemma NorRefines(gte: Gte, rd: Reg, rs: Reg, rt: Reg, f: Frame)
    ensures Refines(gte, Write(rd, BitNot(Bin(BitOr, Gpr(rs), Gpr(rt)))).stmt, Alu(Nor, rd, R(rs), R(rt)), f)
  {
    EvalNor(rs, rt, f.cpu);
    hide Refines, Eval, AluResult;
    WriteRefines(gte, BitNot(Bin(BitOr, Gpr(rs), Gpr(rt))), Nor, rd, R(rs), R(rt), f);
  }

  lemma LuiRefines(gte: Gte, rt: Reg, z: bv32, f: Frame)
    ensures Refines(gte, Write(rt, Const(z << 16)).stmt, Alu(Sll, rt, I(z), I(16)), f)
  {
    hide Refines;
    WriteRefines(gte, Const(z << 16), Sll, rt, I(z), I(16), f);
  }

  lemma AddRefines(gte: Gte, rd: Reg, a: Operand, b: Operand, f: Frame)
    ensures Refines(gte, AddChecked(rd, ExprOf(a), ExprOf(b)), AddTrap(rd, a, b), f)
  {
    hide Signed, Word;
  }

  lemma SubRefines(gte: Gte, rd: Reg, a: Operand, b: Operand, f: Frame)
    requires Agrees(SubTrap(rd, a, b), f.cpu)
    ensures Refines(gte, Write(rd, Bin(Minus, ExprOf(a), ExprOf(b))).stmt, SubTrap(rd, a, b), f)
  {
    hide Signed, AluResult;
    BinaryRefines(gte, Subu, rd, a, b, f);
  }

  /** SUB is translated as SUBU: right exactly when the difference does not overflow. */
  lemma SubMatchesIff(gte: Gte, rd: Reg, a: Operand, b: Operand, f: Frame)
    ensures Refines(gte, Write(rd, Bin(Minus, ExprOf(a), ExprOf(b))).stmt, SubTrap(rd, a, b), f)
            <==> FitsSigned(Signed(Value(f.cpu, a)) - Signed(Value(f.cpu, b)))
  {
    hide Signed, AluResult, FitsSigned;
    var fits := FitsSigned(Signed(Value(f.cpu, a)) - Signed(Value(f.cpu, b)));
    if fits {
      SubRefines(gte, rd, a, b, f);
    } else {
      assert Exec(gte, SubTrap(rd, a, b), f.cpu) == Trapped(Overflow, f.cpu);
    }
  }

  lemma StatusMatchesIff(sr: bv32)
    ensures RfeStatus(sr) == PopStatus(sr) <==> sr & 0x30 == 0
  {
  }

  /** RFE as emitted clears the bottom entry of the mode stack: right exactly when that is zero.
      It returns from the slice without setting the program counter. */
  lemma RfeMatchesIff(gte: Gte, f: Frame)
    ensures RunStmt(gte, RfeBlock, f).Returned? && RunStmt(gte, RfeBlock, f).f.pc == f.pc
    ensures RunStmt(gte, RfeBlock, f).f.cpu == Exec(gte, Rfe, f.cpu).cpu <==> f.cpu.cop0[12] & 0x30 == 0
  {
    var sr := f.cpu.cop0[12];
    StatusMatchesIff(sr);
    hide PopStatus, RfeStatus;
    assert f.cpu.cop0[12 := RfeStatus(sr)][12] == RfeStatus(sr);
    assert f.cpu.cop0[12 := PopStatus(sr)][12] == PopStatus(sr);
  }

  lemma WordsOfDivision()
    ensures Word(-1) == 0xFFFF_FFFF
    ensures Word(1) == 1
    ensures Word(0) == 0
    ensures Word(0x8000_0000) == 0x8000_0000
  {
    assert -1 % 0x1_0000_0000 == 0xFFFF_FFFF;
  }

  lemma DivRefines(gte: Gte, rs: Reg, rt: Reg, f: Frame)
    ensures Refines(gte, DivBlock(rs, rt), Div(rs, rt), f)
  {
    hide Word, Signed, CDiv;
    WordsOfDivision();
    var n, d := Signed(f.cpu.gpr[rs]), Signed(f.cpu.gpr[rt]);
    if d != 0 {
      DivisionIsExact(n, d);
    }
  }

  lemma DivuRefines(gte: Gte, rs: Reg, rt: Reg, f: Frame)
    ensures Refines(gte, DivuBlock(rs, rt), Divu(rs, rt), f)
  {
    hide Word;
    var n, d := f.cpu.gpr[rs] as int, f.cpu.gpr[rt] as int;
    if d != 0 {
      RemainderBySubtraction(n, d);
    }
  }

  lemma RemainderBySubtraction(n: int, d: int)
    requires d != 0
    ensures n - (n / d) * d == n % d
  {
  }

  // Blocks whose C text is the instruction's own effect, up to the $zero guard.

  lemma MfhiRefines(gte: Gte, rd: Reg, f: Frame)
    ensures Refines(gte, Write(rd, Hi).stmt, Mfhi(rd), f)
  {
    hide Word, Signed, LoadValue, StoreMem, Misaligned, AluResult, Effective;
  }

  lemma MfloRefines(gte: Gte, rd: Reg, f: Frame)
    ensures Refines(gte, Write(rd, Lo).stmt, Mflo(rd), f)
  {
    hide Word, Signed, LoadValue, StoreMem, Misaligned, AluResult, Effective;
  }

  lemma MthiRefines(gte: Gte, rs: Reg, f: Frame)
    ensures Refines(gte, SetHi(Gpr(rs)), Mthi(rs), f)
  {
    hide Word, Signed, LoadValue, StoreMem, Misaligned, AluResult, Effective;
  }

  lemma MtloRefines(gte: Gte, rs: Reg, f: Frame)
    ensures Refines(gte, SetLo(Gpr(rs)), Mtlo(rs), f)
  {
    hide Word, Signed, LoadValue, StoreMem, Misaligned, AluResult, Effective;
  }

  lemma MultuRefines(gte: Gte, rs: Reg, rt: Reg, f: Frame)
    ensures Refines(gte, MultuBlock(rs, rt), Multu(rs, rt), f)
  {
    hide Word, Signed, LoadValue, StoreMem, Misaligned, AluResult, Effective;
  }

  lemma LoadRefines(gte: Gte, w: Width, rt: Reg, rs: Reg, off: bv32, f: Frame)
    ensures Refines(gte, LoadBlock(w, rt, rs, off), Load(w, rt, rs, off), f)
  {
    hide Word, Signed, LoadValue, StoreMem, Misaligned, AluResult, Effective;
  }

  lemma StoreRefines(gte: Gte, w: Width, rt: Reg, rs: Reg, off: bv32, f: Frame)
    ensures Refines(gte, StoreBlock(w, rt, rs, off), Store(w, rt, rs, off), f)
  {
    hide Word, Signed, LoadValue, StoreMem, Misaligned, AluResult, Effective;
  }

  lemma Mfc0Refines(gte: Gte, rt: Reg, rd: Reg, f: Frame)
    ensures Refines(gte, Write(rt, Cop0(rd)).stmt, Mfc0(rt, rd), f)
  {
    hide Word, Signed, LoadValue, StoreMem, Misaligned, AluResult, Effective;
  }

  lemma Mtc0Refines(gte: Gte, rt: Reg, rd: Reg, f: Frame)
    ensures Refines(gte, SetCop0(rd, Gpr(rt)), Mtc0(rt, rd), f)
  {
    hide Word, Signed, LoadValue, StoreMem, Misaligned, AluResult, Effective;
  }

  lemma GteRefines(gte: Gte, raw: U32, f: Frame)
    ensures Refines(gte, GteBlock(raw), Instr.Cop2(raw), f)
  {
    hide Word, Signed, LoadValue, StoreMem, Misaligned, AluResult, Effective;
  }

  lemma SyscallRefines(gte: Gte, f: Frame)
    ensures Refines(gte, SyscallBlock, Syscall, f)
  {
    hide Word, Signed, LoadValue, StoreMem, Misaligned, AluResult, Effective;
  }

  lemma BreakRefines(gte: Gte, code: int, f: Frame)
    ensures Refines(gte, BreakBlock(code), Break(code), f)
  {
    hide Word, Signed, LoadValue, StoreMem, Misaligned, AluResult, Effective;
  }

  lemma LwlRefines(gte: Gte, rt: Reg, rs: Reg, off: bv32, f: Frame)
    ensures Refines(gte, LwlBlock(rt, rs, off), LoadLeft(rt, rs, off), f)
  {
    hide LwlValue, LoadLeftValue, Effective;
    LwlMatches(f.cpu.mem, Effective(f.cpu, rs, off), f.cpu.gpr[rt]);
  }

  lemma LwrRefines(gte: Gte, rt: Reg, rs: Reg, off: bv32, f: Frame)
    ensures Refines(gte, LwrBlock(rt, rs, off), LoadRight(rt, rs, off), f)
  {
    hide LwrValue, LoadRightValue, Effective;
    LwrMatches(f.cpu.mem, Effective(f.cpu, rs, off), f.cpu.gpr[rt]);
  }

  lemma SwlRefines(gte: Gte, rt: Reg, rs: Reg, off: bv32, f: Frame)
    requires Agrees(StoreLeft(rt, rs, off), f.cpu)
    ensures Refines(gte, SwlBlock(rt, rs, off), StoreLeft(rt, rs, off), f)
  {
    hide SwlMem, StoreLeftMem, Effective;
    SwlMatches(f.cpu.mem, Effective(f.cpu, rs, off), f.cpu.gpr[rt]);
  }

  lemma SwrRefines(gte: Gte, rt: Reg, rs: Reg, off: bv32, f: Frame)
    requires Agrees(StoreRight(rt, rs, off), f.cpu)
    ensures Refines(gte, SwrBlock(rt, rs, off), StoreRight(rt, rs, off), f)
  {
    hide SwrMem, StoreRightMem, Effective;
    SwrMatches(f.cpu.mem, Effective(f.cpu, rs, off), f.cpu.gpr[rt]);
  }

  // ---- The whole switch -------------------------------------------------------------------------

  lemma SpecialRefines(gte: Gte, w: U32, addr: int, f: Frame)
    requires TranslateSpecial(w, addr).Plain? && Agrees(DecodeSpecial(w), f.cpu)
    ensures Refines(gte, TranslateSpecial(w, addr).stmt, DecodeSpecial(w), f)
  {
    hide Refines, Low5, Write, Rs, Rt, Rd, Shamt, Funct;
    var rs, rt, rd, fn := Rs(w), Rt(w), Rd(w), Funct(w);
    SmallShift(Shamt(w));
    var sh := Shamt(w) as bv32;
    if fn == 0x00 { ConstantShiftRefines(gte, Sll, rd, rt, sh, f); }
    else if fn == 0x02 { ConstantShiftRefines(gte, Srl, rd, rt, sh, f); }
    else if fn == 0x03 { ConstantShiftRefines(gte, Sra, rd, rt, sh, f); }
    else if fn == 0x04 { VariableShiftRefines(gte, Sll, rd, rt, rs, f); }
    else if fn == 0x06 { VariableShiftRefines(gte, Srl, rd, rt, rs, f); }
    else if fn == 0x07 { VariableShiftRefines(gte, Sra, rd, rt, rs, f); }
    else if fn == 0x0C { SyscallRefines(gte, f); }
    else if fn == 0x0D { BreakRefines(gte, w / 0x40 % 0x10_0000, f); }
    else if fn == 0x10 { MfhiRefines(gte, rd, f); }
    else if fn == 0x11 { MthiRefines(gte, rs, f); }
    else if fn == 0x12 { MfloRefines(gte, rd, f); }
    else if fn == 0x13 { MtloRefines(gte, rs, f); }
    else if fn == 0x19 { MultuRefines(gte, rs, rt, f); }
    else if fn == 0x1A { DivRefines(gte, rs, rt, f); }
    else if fn == 0x1B { DivuRefines(gte, rs, rt, f); }
    else { ArithmeticRefines(gte, w, addr, f); }
  }

  lemma ArithmeticRefines(gte: Gte, w: U32, addr: int, f: Frame)
    requires Funct(w) >= 0x20
    requires TranslateSpecial(w, addr).Plain? && Agrees(DecodeSpecial(w), f.cpu)
    ensures Refines(gte, TranslateSpecial(w, addr).stmt, DecodeSpecial(w), f)
  {
    hide Refines, Write, Rs, Rt, Rd, Shamt, Funct;
    var rs, rt, rd, fn := Rs(w), Rt(w), Rd(w), Funct(w);
    if fn == 0x20 { AddRefines(gte, rd, R(rs), R(rt), f); }
    else if fn == 0x22 { SubRefines(gte, rd, R(rs), R(rt), f); }
    else if fn == 0x27 { NorRefines(gte, rd, rs, rt, f); }
    else {
      var op := if fn == 0x21 then Addu else if fn == 0x23 then Subu else if fn == 0x24 then And else if fn == 0x25 then Or
                else if fn == 0x26 then Xor else if fn == 0x2A then Slt else Sltu;
      BinaryRefines(gte, op, rd, R(rs), R(rt), f);
    }
  }

  lemma ImmediateRefines(gte: Gte, w: U32, addr: int, f: Frame)
    requires 0x08 <= Op(w) <= 0x0F
    ensures TranslateImmediate(w).Plain? && Refines(gte, TranslateImmediate(w).stmt, Decode(addr, w), f)
  {
    hide Refines, Write, Rs, Rt, Rd, Op, SignExtended, ZeroExtended, MipsWord.BranchTarget, MipsWord.JumpTarget, DecodeSpecial;
    var rs, rt, op := Rs(w), Rt(w), Op(w);
    var s, z := SignExtended(w), ZeroExtended(w);
    if op == 0x08 { AddRefines(gte, rt, R(rs), I(s), f); }
    else if op == 0x0F {
      LuiRefines(gte, rt, z, f);
    }
    else {
      var alu := if op == 0x09 then Addu else if op == 0x0A then Slt else if op == 0x0B then Sltu
                 else if op == 0x0C then And else if op == 0x0D then Or else Xor;
      BinaryRefines(gte, alu, rt, R(rs), I(if op >= 0x0C then z else s), f);
    }
  }

  lemma MemoryRefines(gte: Gte, w: U32, addr: int, f: Frame)
    requires 0x20 <= Op(w) <= 0x2E && TranslateMemory(w).Plain? && Agrees(Decode(addr, w), f.cpu)
    ensures Refines(gte, TranslateMemory(w).stmt, Decode(addr, w), f)
  {
    hide Refines, Rs, Rt, Rd, Op, SignExtended, ZeroExtended, MipsWord.BranchTarget, MipsWord.JumpTarget, DecodeSpecial;
    var rs, rt, op, off := Rs(w), Rt(w), Op(w), SignExtended(w);
    if op == 0x22 { LwlRefines(gte, rt, rs, off, f); }
    else if op == 0x26 { LwrRefines(gte, rt, rs, off, f); }
    else if op == 0x2A { SwlRefines(gte, rt, rs, off, f); }
    else if op == 0x2E { SwrRefines(gte, rt, rs, off, f); }
    else if op < 0x28 {
      LoadRefines(gte, if op == 0x20 then Byte else if op == 0x21 then Half else if op == 0x23 then Whole
                       else if op == 0x24 then ByteU else HalfU, rt, rs, off, f);
    } else {
      StoreRefines(gte, if op == 0x28 then Byte else if op == 0x29 then Half else Whole, rt, rs, off, f);
    }
  }

  lemma Cop0Refines(gte: Gte, w: U32, addr: int, f: Frame)
    requires Op(w) == 0x10 && TranslateCop0(w).Plain?
    ensures Refines(gte, TranslateCop0(w).stmt, Decode(addr, w), f)
  {
    hide Refines, Write, Rs, Rt, Rd, Op, SignExtended, ZeroExtended, MipsWord.BranchTarget, MipsWord.JumpTarget, DecodeSpecial;
    if Rs(w) == 0 {
      Mfc0Refines(gte, Rt(w), Rd(w), f);
    } else {
      Mtc0Refines(gte, Rt(w), Rd(w), f);
    }
  }

  lemma NopRefines(gte: Gte, addr: int, f: Frame)
    ensures Refines(gte, Comment, Decode(addr, 0), f)
  {
    hide AluResult;
    assert Decode(addr, 0) == Alu(Sll, 0, R(0), I(0 as bv32));
  }

  /** Every word the translator turns into straight-line code gets code that does what the R3000A
      does, wherever the two agree on the word. */
  lemma PlainRefines(gte: Gte, w: U32, addr: int, f: Frame)
    requires Translate(w, addr).Plain? && Agrees(Decode(addr, w), f.cpu)
    ensures Refines(gte, Translate(w, addr).stmt, Decode(addr, w), f)
  {
    hide Refines, Rs, Rt, Op, SignExtended, ZeroExtended, MipsWord.BranchTarget, MipsWord.JumpTarget, DecodeSpecial, Agrees;
    hide TranslateSpecial, TranslateImmediate, TranslateMemory, TranslateCop0;
    var op := Op(w);
    if w == 0 { NopRefines(gte, addr, f); }
    else if op == 0x00 { SpecialRefines(gte, w, addr, f); }
    else if 0x08 <= op <= 0x0F { ImmediateRefines(gte, w, addr, f); }
    else if 0x20 <= op <= 0x2E { MemoryRefines(gte, w, addr, f); }
    else if op == 0x10 { Cop0Refines(gte, w, addr, f); }
    else { GteRefines(gte, w, f); }
  }
}
