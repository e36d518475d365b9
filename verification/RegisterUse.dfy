/**
 Which general registers an instruction reads and writes, and what that is good for: a register it
 does neither to can be written before or after it.
 */
module RegisterUse {
  import opened R3000

  function OperandRegs(x: Operand): set<int> {
    match x case R(r) => {r} case I(_) => {}
  }

  predicate IsRegister(r: int) { 0 <= r < 32 }

  function EveryRegister(): set<int> { set r | 0 <= r < 32 && IsRegister(r) }

  /** COP2 words may use any register. */
  function Reads(ins: Instr): set<int> {
    match ins
    case Alu(_, _, a, b) => OperandRegs(a) + OperandRegs(b)
    case AddTrap(_, a, b) => OperandRegs(a) + OperandRegs(b)
    case SubTrap(_, a, b) => OperandRegs(a) + OperandRegs(b)
    case Mthi(rs) => {rs}
    case Mtlo(rs) => {rs}
    case Mult(rs, rt) => {rs, rt}
    case Multu(rs, rt) => {rs, rt}
    case Div(rs, rt) => {rs, rt}
    case Divu(rs, rt) => {rs, rt}
    case Load(_, _, rs, _) => {rs}
    case Store(_, rt, rs, _) => {rs, rt}
    case LoadLeft(rt, rs, _) => {rs, rt}
    case LoadRight(rt, rs, _) => {rs, rt}
    case StoreLeft(rt, rs, _) => {rs, rt}
    case StoreRight(rt, rs, _) => {rs, rt}
    case Mtc0(rt, _) => {rt}
    case Cop2(_) => EveryRegister()
    case _ => {}
  }

  function Written(ins: Instr): set<int> {
    match ins
    case Alu(_, rd, _, _) => {rd}
    case AddTrap(rd, _, _) => {rd}
    case SubTrap(rd, _, _) => {rd}
    case Mfhi(rd) => {rd}
    case Mflo(rd) => {rd}
    case Load(_, rt, _, _) => {rt}
    case LoadLeft(rt, _, _) => {rt}
    case LoadRight(rt, _, _) => {rt}
    case Mfc0(rt, _) => {rt}
    case Cop2(_) => EveryRegister()
    case _ => {}
  }

  /** The same effect with register r set to v afterwards. */
  function ThenSet(e: Effect, r: Reg, v: bv32): Effect {
    match e
    case Next(c) => Next(Set(c, r, v))
    case Trapped(kind, c) => Trapped(kind, Set(c, r, v))
  }

  lemma SetCommutes(c: Cpu, a: Reg, x: bv32, b: Reg, y: bv32)
    requires a != b
    ensures Set(Set(c, a, x), b, y) == Set(Set(c, b, y), a, x)
  {
    if a != 0 && b != 0 {
      assert c.gpr[a := x][b := y] == c.gpr[b := y][a := x];
    }
  }

  lemma SetOverwrites(c: Cpu, a: Reg, x: bv32, y: bv32)
    ensures Set(Set(c, a, x), a, y) == Set(c, a, y)
  {
    assert a != 0 ==> c.gpr[a := x][a := y] == c.gpr[a := y];
  }

  lemma SetSame(c: Cpu, a: Reg)
    ensures Set(c, a, c.gpr[a]) == c
  {
    assert c.gpr[a := c.gpr[a]] == c.gpr;
  }

  lemma OperandKept(c: Cpu, x: Operand, r: Reg, v: bv32)
    requires r !in OperandRegs(x)
    ensures Value(Set(c, r, v), x) == Value(c, x)
  {
  }

  /** Writing a register before an instruction that neither reads nor writes it, or after it, is
      the same. */
  lemma UnusedRegisterCommutes(gte: Gte, ins: Instr, c: Cpu, r: Reg, v: bv32)
    requires r !in Reads(ins) && r !in Written(ins)
    ensures Exec(gte, ins, Set(c, r, v)) == ThenSet(Exec(gte, ins, c), r, v)
  {
    hide AluResult, LoadValue, StoreMem, Misaligned, LoadLeftValue, LoadRightValue, StoreLeftMem, StoreRightMem, DivResult, Signed, Word, FitsSigned, Value, Displaced, PopStatus;
    if Computes(ins) {
      ComputeEffect(gte, ins, c);
      ComputeEffect(gte, ins, Set(c, r, v));
      ComputeReads(ins, c, r, v);
      SetCommutes(c, r, v, ins.rd, Computed(ins, c));
    } else if MovesToRegister(ins) {
      MoveEffect(gte, ins, c);
      MoveEffect(gte, ins, Set(c, r, v));
      MoveReads(ins, c, r, v);
      SetCommutes(c, r, v, ResultRegister(ins), ResultValue(ins, c));
    } else {
      LeavesUnused(gte, ins, c, r, v);
    }
    hide Exec, Set, Reads, Written;
  }

  /** The ALU instructions, the trapping ones included. */
  predicate Computes(ins: Instr) { ins.Alu? || ins.AddTrap? || ins.SubTrap? }

  function Computed(ins: Instr, c: Cpu): bv32
    requires Computes(ins)
  {
    match ins
    case Alu(op, _, a, b) => AluResult(op, Value(c, a), Value(c, b))
    case AddTrap(_, a, b) => Word(Signed(Value(c, a)) + Signed(Value(c, b)))
    case SubTrap(_, a, b) => AluResult(Subu, Value(c, a), Value(c, b))
  }

  predicate Overflows(ins: Instr, c: Cpu)
    requires Computes(ins)
  {
    match ins
    case Alu(_, _, _, _) => false
    case AddTrap(_, a, b) => !FitsSigned(Signed(Value(c, a)) + Signed(Value(c, b)))
    case SubTrap(_, a, b) => !FitsSigned(Signed(Value(c, a)) - Signed(Value(c, b)))
  }

  lemma ComputeEffect(gte: Gte, ins: Instr, c: Cpu)
    requires Computes(ins)
    ensures Exec(gte, ins, c) == if Overflows(ins, c) then Trapped(Overflow, c) else Next(Set(c, ins.rd, Computed(ins, c)))
    ensures Written(ins) == {ins.rd}
  {
    hide AluResult, LoadValue, StoreMem, Misaligned, LoadLeftValue, LoadRightValue, StoreLeftMem, StoreRightMem, DivResult, Signed, Word, FitsSigned, Value, Displaced, PopStatus;
    hide Set;
  }

  lemma ComputeReads(ins: Instr, c: Cpu, r: Reg, v: bv32)
    requires Computes(ins) && r !in Reads(ins)
    ensures Computed(ins, Set(c, r, v)) == Computed(ins, c)
    ensures Overflows(ins, Set(c, r, v)) == Overflows(ins, c)
  {
    hide AluResult, LoadValue, StoreMem, Misaligned, LoadLeftValue, LoadRightValue, StoreLeftMem, StoreRightMem, DivResult, Signed, Word, FitsSigned, Value, Displaced, PopStatus;
    OperandKept(c, ins.a, r, v);
    OperandKept(c, ins.b, r, v);
    hide Set;
  }

  /** Instructions with one register result: where it comes from does not matter. */
  predicate MovesToRegister(ins: Instr) {
    ins.Mfhi? || ins.Mflo? || ins.Load? || ins.LoadLeft? || ins.LoadRight? || ins.Mfc0?
  }

  function ResultRegister(ins: Instr): Reg
    requires MovesToRegister(ins)
  {
    match ins
    case Mfhi(rd) => rd
    case Mflo(rd) => rd
    case Load(_, rt, _, _) => rt
    case LoadLeft(rt, _, _) => rt
    case LoadRight(rt, _, _) => rt
    case Mfc0(rt, _) => rt
  }

  ghost function ResultValue(ins: Instr, c: Cpu): bv32
    requires MovesToRegister(ins)
  {
    match ins
    case Mfhi(_) => c.hi
    case Mflo(_) => c.lo
    case Load(w, _, rs, off) => LoadValue(w, c.mem, Effective(c, rs, off))
    case LoadLeft(rt, rs, off) => LoadLeftValue(c.mem, Effective(c, rs, off), Get(c, rt))
    case LoadRight(rt, rs, off) => LoadRightValue(c.mem, Effective(c, rs, off), Get(c, rt))
    case Mfc0(_, rd) => c.cop0[rd]
  }

  function Faults(ins: Instr, c: Cpu): bool
    requires MovesToRegister(ins)
  {
    match ins
    case Load(w, _, rs, off) => Misaligned(w, Effective(c, rs, off))
    case _ => false
  }

  lemma MoveEffect(gte: Gte, ins: Instr, c: Cpu)
    requires MovesToRegister(ins)
    ensures Faults(ins, c) ==> ins.Load? && Exec(gte, ins, c) == Trapped(AddressError(Effective(c, ins.rs, ins.off)), c)
    ensures !Faults(ins, c) ==> Exec(gte, ins, c) == Next(Set(c, ResultRegister(ins), ResultValue(ins, c)))
    ensures Written(ins) == {ResultRegister(ins)}
  {
    hide AluResult, LoadValue, StoreMem, Misaligned, LoadLeftValue, LoadRightValue, StoreLeftMem, StoreRightMem, DivResult, Signed, Word, FitsSigned, Value, Displaced, PopStatus;
    hide Set, Effective, Get;
    if ins.Load? {
      hide ResultRegister, ResultValue;
      LoadEffect(gte, ins, c);
    }
  }

  lemma LoadEffect(gte: Gte, ins: Instr, c: Cpu)
    requires ins.Load?
    ensures Faults(ins, c) ==> Exec(gte, ins, c) == Trapped(AddressError(Effective(c, ins.rs, ins.off)), c)
    ensures !Faults(ins, c) ==> Exec(gte, ins, c) == Next(Set(c, ResultRegister(ins), ResultValue(ins, c)))
    ensures Written(ins) == {ResultRegister(ins)}
  {
    hide AluResult, LoadValue, StoreMem, Misaligned, LoadLeftValue, LoadRightValue, StoreLeftMem, StoreRightMem, DivResult, Signed, Word, FitsSigned, Value, Displaced, PopStatus;
    hide Set, Effective, Get;
  }

  lemma MoveReads(ins: Instr, c: Cpu, r: Reg, v: bv32)
    requires MovesToRegister(ins) && r !in Reads(ins)
    ensures ResultValue(ins, Set(c, r, v)) == ResultValue(ins, c)
    ensures Faults(ins, Set(c, r, v)) == Faults(ins, c)
    ensures ins.Load? ==> Effective(Set(c, r, v), ins.rs, ins.off) == Effective(c, ins.rs, ins.off)
  {
    hide AluResult, LoadValue, StoreMem, Misaligned, LoadLeftValue, LoadRightValue, StoreLeftMem, StoreRightMem, DivResult, Signed, Word, FitsSigned, Value, Displaced, PopStatus;
  }

  /** Instructions that change HI, LO, COP0 or memory, or nothing. */
  predicate LeavesRegisters(ins: Instr) {
    !ins.Alu? && !ins.AddTrap? && !ins.SubTrap? && !ins.Cop2? && !MovesToRegister(ins)
  }

  lemma LeavesUnused(gte: Gte, ins: Instr, c: Cpu, r: Reg, v: bv32)
    requires LeavesRegisters(ins) && r !in Reads(ins)
    ensures Exec(gte, ins, Set(c, r, v)) == ThenSet(Exec(gte, ins, c), r, v)
  {
    hide Exec, Set, ThenSet;
    if ins.Store? || ins.StoreLeft? || ins.StoreRight? {
      StoreUnused(gte, ins, c, r, v);
    } else if ins.Mtc0? || ins.Rfe? {
      SystemUnused(gte, ins, c, r, v);
    } else if ins.Mult? || ins.Multu? {
      ProductUnused(gte, ins, c, r, v);
    } else {
      ArithmeticUnused(gte, ins, c, r, v);
    }
  }

  lemma StoreUnused(gte: Gte, ins: Instr, c: Cpu, r: Reg, v: bv32)
    requires (ins.Store? || ins.StoreLeft? || ins.StoreRight?) && r !in Reads(ins)
    ensures Exec(gte, ins, Set(c, r, v)) == ThenSet(Exec(gte, ins, c), r, v)
  {
    hide AluResult, LoadValue, StoreMem, Misaligned, LoadLeftValue, LoadRightValue, StoreLeftMem, StoreRightMem, DivResult, Signed, Word, FitsSigned, Value, Displaced, PopStatus;
    hide Get, Set, Effective;
    SetKeeps(c, r, v);
    GetKept(c, r, v, ins.rt);
    EffectiveKept(c, r, v, ins.rs, ins.off);
    StoreEffect(gte, ins, c);
    StoreEffect(gte, ins, Set(c, r, v));
    MemoryMoves(c, r, v, StoredBy(ins, c));
    hide Exec, Reads;
  }

  /** Memory after a store that does not trap. */
  ghost function StoredBy(ins: Instr, c: Cpu): Mem
    requires ins.Store? || ins.StoreLeft? || ins.StoreRight?
  {
    var a, x := Effective(c, ins.rs, ins.off), Get(c, ins.rt);
    if ins.Store? then StoreMem(ins.w, c.mem, a, x)
    else if ins.StoreLeft? then StoreLeftMem(c.mem, a, x) else StoreRightMem(c.mem, a, x)
  }

  lemma StoreEffect(gte: Gte, ins: Instr, c: Cpu)
    requires ins.Store? || ins.StoreLeft? || ins.StoreRight?
    ensures Exec(gte, ins, c) ==
      if ins.Store? && Misaligned(ins.w, Effective(c, ins.rs, ins.off)) then Trapped(AddressError(Effective(c, ins.rs, ins.off)), c)
      else Next(c.(mem := StoredBy(ins, c)))
  {
    hide AluResult, LoadValue, StoreMem, Misaligned, LoadLeftValue, LoadRightValue, StoreLeftMem, StoreRightMem, DivResult, Signed, Word, FitsSigned, Value, Displaced, PopStatus;
    hide Get, Effective;
  }

  lemma SystemUnused(gte: Gte, ins: Instr, c: Cpu, r: Reg, v: bv32)
    requires (ins.Mtc0? || ins.Rfe?) && r !in Reads(ins)
    ensures Exec(gte, ins, Set(c, r, v)) == ThenSet(Exec(gte, ins, c), r, v)
  {
    hide AluResult, LoadValue, StoreMem, Misaligned, LoadLeftValue, LoadRightValue, StoreLeftMem, StoreRightMem, DivResult, Signed, Word, FitsSigned, Value, Displaced, PopStatus;
    hide Get, Set, Effective;
    SetKeeps(c, r, v);
    match ins
    case Mtc0(rt, rd) =>
      GetKept(c, r, v, rt);
      CopMoves(c, r, v, c.cop0[rd := Get(c, rt)]);
    case Rfe =>
      CopMoves(c, r, v, c.cop0[12 := PopStatus(c.cop0[12])]);
  }

  lemma ArithmeticUnused(gte: Gte, ins: Instr, c: Cpu, r: Reg, v: bv32)
    requires LeavesRegisters(ins) && r !in Reads(ins)
    requires !ins.Store? && !ins.StoreLeft? && !ins.StoreRight? && !ins.Mtc0? && !ins.Rfe? && !ins.Mult? && !ins.Multu?
    ensures Exec(gte, ins, Set(c, r, v)) == ThenSet(Exec(gte, ins, c), r, v)
  {
    if ins.Div? {
      DivUnused(gte, ins, c, r, v);
    } else if ins.Divu? {
      DivuUnused(gte, ins, c, r, v);
    } else {
      hide AluResult, LoadValue, StoreMem, Misaligned, LoadLeftValue, LoadRightValue, StoreLeftMem, StoreRightMem, DivResult, Signed, Word, FitsSigned, Value, Displaced, PopStatus;
      hide Get, Set;
      SetKeeps(c, r, v);
      match ins
      case Mthi(rs) =>
        GetKept(c, r, v, rs);
        HiLoMoves(c, r, v, Get(c, rs), c.lo);
      case Mtlo(rs) =>
        GetKept(c, r, v, rs);
        HiLoMoves(c, r, v, c.hi, Get(c, rs));
      case _ =>
    }
    hide Exec, Set, Reads;
  }

  lemma DivUnused(gte: Gte, ins: Instr, c: Cpu, r: Reg, v: bv32)
    requires ins.Div? && r !in Reads(ins)
    ensures Exec(gte, ins, Set(c, r, v)) == ThenSet(Exec(gte, ins, c), r, v)
  {
    hide AluResult, LoadValue, StoreMem, Misaligned, LoadLeftValue, LoadRightValue, StoreLeftMem, StoreRightMem, DivResult, Signed, Word, FitsSigned, Value, Displaced, PopStatus;
    hide Get, Set;
    SetKeeps(c, r, v);
    GetKept(c, r, v, ins.rs);
    GetKept(c, r, v, ins.rt);
    var qr := DivResult(Signed(Get(c, ins.rs)), Signed(Get(c, ins.rt)));
    HiLoMoves(c, r, v, Word(qr.1), Word(qr.0));
  }

  lemma DivuUnused(gte: Gte, ins: Instr, c: Cpu, r: Reg, v: bv32)
    requires ins.Divu? && r !in Reads(ins)
    ensures Exec(gte, ins, Set(c, r, v)) == ThenSet(Exec(gte, ins, c), r, v)
  {
    hide AluResult, LoadValue, StoreMem, Misaligned, LoadLeftValue, LoadRightValue, StoreLeftMem, StoreRightMem, DivResult, Signed, Word, FitsSigned, Value, Displaced, PopStatus;
    hide Get, Set;
    SetKeeps(c, r, v);
    GetKept(c, r, v, ins.rs);
    GetKept(c, r, v, ins.rt);
    var n, d := Get(c, ins.rs) as int, Get(c, ins.rt) as int;
    if d == 0 {
      HiLoMoves(c, r, v, Word(n), 0xFFFF_FFFF);
    } else {
      HiLoMoves(c, r, v, Word(n % d), Word(n / d));
    }
  }

  lemma ProductUnused(gte: Gte, ins: Instr, c: Cpu, r: Reg, v: bv32)
    requires (ins.Mult? || ins.Multu?) && r !in Reads(ins)
    ensures Exec(gte, ins, Set(c, r, v)) == ThenSet(Exec(gte, ins, c), r, v)
  {
    hide AluResult, LoadValue, StoreMem, Misaligned, LoadLeftValue, LoadRightValue, StoreLeftMem, StoreRightMem, DivResult, Signed, Word, FitsSigned, Value, Displaced, PopStatus;
    hide Get, Set;
    SetKeeps(c, r, v);
    match ins
    case Mult(rs, rt) =>
      GetKept(c, r, v, rs);
      GetKept(c, r, v, rt);
      var p := Signed(Get(c, rs)) * Signed(Get(c, rt));
      HiLoMoves(c, r, v, Word(p / 0x1_0000_0000), Word(p));
    case Multu(rs, rt) =>
      GetKept(c, r, v, rs);
      GetKept(c, r, v, rt);
      var p := (Get(c, rs) as int) * (Get(c, rt) as int);
      HiLoMoves(c, r, v, Word(p / 0x1_0000_0000), Word(p));
  }

  lemma GetKept(c: Cpu, r: Reg, v: bv32, q: Reg)
    requires q != r
    ensures Get(Set(c, r, v), q) == Get(c, q)
  {
  }

  lemma EffectiveKept(c: Cpu, r: Reg, v: bv32, q: Reg, off: bv32)
    requires q != r
    ensures Effective(Set(c, r, v), q, off) == Effective(c, q, off)
  {
    hide Displaced;
    GetKept(c, r, v, q);
    hide Set;
  }

  lemma SetKeeps(c: Cpu, r: Reg, v: bv32)
    ensures var d := Set(c, r, v); d.hi == c.hi && d.lo == c.lo && d.cop0 == c.cop0 && d.mem == c.mem
  {
  }

  lemma MemoryMoves(c: Cpu, r: Reg, v: bv32, m: Mem)
    ensures Set(c, r, v).(mem := m) == Set(c.(mem := m), r, v)
  {
  }

  lemma CopMoves(c: Cpu, r: Reg, v: bv32, cop0: seq<bv32>)
    requires |cop0| == 32
    ensures Set(c, r, v).(cop0 := cop0) == Set(c.(cop0 := cop0), r, v)
  {
  }

  lemma HiLoMoves(c: Cpu, r: Reg, v: bv32, hi: bv32, lo: bv32)
    ensures Set(c, r, v).(hi := hi, lo := lo) == Set(c.(hi := hi, lo := lo), r, v)
  {
  }

  /** An instruction that reads nothing of register r does not see a write to it, except that the
      register keeps the value when the instruction does not write it itself. */
  lemma UnreadRegister(gte: Gte, ins: Instr, c: Cpu, r: Reg, v: bv32)
    requires r !in Reads(ins) && r in Written(ins)
    ensures Exec(gte, ins, c).Next? ==> Exec(gte, ins, Set(c, r, v)) == Exec(gte, ins, c)
    ensures Exec(gte, ins, c).Trapped? ==> Exec(gte, ins, Set(c, r, v)) == ThenSet(Exec(gte, ins, c), r, v)
  {
    hide AluResult, LoadValue, StoreMem, Misaligned, LoadLeftValue, LoadRightValue, StoreLeftMem, StoreRightMem, DivResult, Signed, Word, FitsSigned, Value, Displaced, PopStatus;
    if Computes(ins) {
      ComputeEffect(gte, ins, c);
      ComputeEffect(gte, ins, Set(c, r, v));
      ComputeReads(ins, c, r, v);
      SetOverwrites(c, r, v, Computed(ins, c));
    } else {
      MoveEffect(gte, ins, c);
      MoveEffect(gte, ins, Set(c, r, v));
      MoveReads(ins, c, r, v);
      SetOverwrites(c, r, v, ResultValue(ins, c));
    }
    hide Exec, Set, Reads;
  }

  /** No register outside the written ones changes. */
  lemma OnlyWrittenChange(gte: Gte, ins: Instr, c: Cpu, r: Reg)
    requires r !in Written(ins)
    ensures Exec(gte, ins, c).cpu.gpr[r] == c.gpr[r]
  {
    hide AluResult, LoadValue, StoreMem, Misaligned, LoadLeftValue, LoadRightValue, StoreLeftMem, StoreRightMem, DivResult, Signed, Word, FitsSigned, Value, Displaced, PopStatus;
    if MovesToRegister(ins) {
      MoveEffect(gte, ins, c);
    }
  }
}
