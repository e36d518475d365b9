/**
 The branch-delay hazard scan (psxrecomp/tools/scan_branch_delay_hazards.py): which conditional
 branches have a delay slot that writes one of their own operands.
 */
module HazardScan {
  import opened Wrappers
  import opened MipsWord
  import opened OverlayImage
  import opened SortedSets
  import opened FlowGraph
  import opened StackWalk
  import R = R3000
  import Use = RegisterUse

  // ---- What a word writes ------------------------------------------------------------------------

  /** The reported registers, or the scanner's refusal to guess. */
  datatype WriteSet = Writes(regs: set<int>) | UnknownOpcode(op: int)

  function SpecialWrites(w: U32): set<int> {
    var fn := Funct(w);
    if fn in {0x00, 0x02, 0x03, 0x04, 0x06, 0x07, 0x20, 0x21, 0x22, 0x23, 0x24, 0x25, 0x26, 0x27, 0x2A, 0x2B} then {Rd(w)}
    else if fn in {0x10, 0x12} then {Rd(w)}
    else if fn == 0x09 then {Rd(w)}
    else {}
  }

  function InstrWritesToGpr(w: U32): WriteSet {
    var op := Op(w);
    if w == 0 then Writes({})
    else if op == 0x00 then Writes(SpecialWrites(w))
    else if op == 0x01 then Writes(if Rt(w) in {0x10, 0x11} then {31} else {})
    else if op == 0x02 then Writes({})
    else if op == 0x03 then Writes({31})
    else if 0x04 <= op <= 0x07 then Writes({})
    else if 0x08 <= op <= 0x0F then Writes({Rt(w)})
    else if op == 0x10 then Writes(if Rs(w) == 0 then {Rt(w)} else {})
    else if op == 0x11 || op == 0x12 then Writes({})
    else if 0x20 <= op <= 0x26 then Writes({Rt(w)})
    else if op in {0x28, 0x29, 0x2A, 0x2B, 0x2E} then Writes({})
    else if op in {0x30, 0x31, 0x32, 0x33, 0x38, 0x39, 0x3A, 0x3B} then Writes({})
    else UnknownOpcode(op)
  }

  /** Coprocessor 1 and 2 words: their register effect is not part of the machine model. */
  predicate IsCoprocessor(w: U32) { Op(w) in {0x11, 0x12, 0x32, 0x3A} }

  /** The state after a word has run, links included. */
  ghost function After(gte: R.Gte, pc: int, w: U32, c: R.Cpu): R.Cpu {
    var ins := R.Decode(pc, w);
    if R.IsControl(ins) then R.Linked(ins, pc, c) else R.Exec(gte, ins, c).cpu
  }

  /** The link register of a transfer. */
  function LinkRegs(ins: R.Instr): set<int> {
    match ins
    case CondBranchLink(_, _, _) => {31}
    case JumpLink(_) => {31}
    case JumpLinkReg(rd, _) => {rd}
    case _ => {}
  }

  function ArchitecturalWrites(ins: R.Instr): set<int> {
    LinkRegs(ins) + Use.Written(ins)
  }

  /** Apart from $zero, the scanner reports exactly the destination registers of the R3000A. */
  lemma WriteSetIsExact(pc: int, w: U32)
    requires InstrWritesToGpr(w).Writes? && !IsCoprocessor(w)
    ensures InstrWritesToGpr(w).regs - {0} == ArchitecturalWrites(R.Decode(pc, w)) - {0}
  {
    hide InstrWritesToGpr, ArchitecturalWrites, R.Decode;
    if Op(w) == 0 {
      SpecialIsDecoded(pc, w);
      SpecialWriteSet(w);
    } else if Op(w) < 0x10 {
      ImmediateWriteSet(pc, w);
    } else {
      OtherWriteSet(pc, w);
    }
  }

  lemma SpecialIsDecoded(pc: int, w: U32)
    requires Op(w) == 0
    ensures R.Decode(pc, w) == R.DecodeSpecial(w)
  {
    hide R.DecodeSpecial;
  }

  lemma ImmediateWriteSet(pc: int, w: U32)
    requires 0 < Op(w) < 0x10
    ensures InstrWritesToGpr(w).Writes?
    ensures InstrWritesToGpr(w).regs - {0} == ArchitecturalWrites(R.Decode(pc, w)) - {0}
  {
    hide Rs, Rt, Rd, MipsWord.JumpTarget, MipsWord.BranchTarget, R.SignExtended, R.ZeroExtended, SpecialWrites, R.DecodeSpecial, Funct;
  }

  lemma OtherWriteSet(pc: int, w: U32)
    requires Op(w) >= 0x10 && InstrWritesToGpr(w).Writes? && !IsCoprocessor(w)
    ensures InstrWritesToGpr(w).regs - {0} == ArchitecturalWrites(R.Decode(pc, w)) - {0}
  {
    hide InstrWritesToGpr, ArchitecturalWrites, R.Decode;
    if Op(w) == 0x10 {
      Cop0WriteSet(pc, w);
    } else {
      MemoryWriteSet(pc, w);
    }
  }

  lemma MemoryWriteSet(pc: int, w: U32)
    requires Op(w) > 0x10 && InstrWritesToGpr(w).Writes? && !IsCoprocessor(w)
    ensures InstrWritesToGpr(w).regs - {0} == ArchitecturalWrites(R.Decode(pc, w)) - {0}
  {
    hide Rs, Rt, Rd, MipsWord.JumpTarget, MipsWord.BranchTarget, R.SignExtended, R.ZeroExtended, SpecialWrites, R.DecodeSpecial, Funct;
  }

  lemma Cop0WriteSet(pc: int, w: U32)
    requires Op(w) == 0x10
    ensures InstrWritesToGpr(w).Writes?
    ensures InstrWritesToGpr(w).regs - {0} == ArchitecturalWrites(R.Decode(pc, w)) - {0}
  {
    assert Rs(0x4200_0010) == 0x10;
    hide Rs, Rt, Rd, MipsWord.JumpTarget, MipsWord.BranchTarget, R.SignExtended, R.ZeroExtended, SpecialWrites, R.DecodeSpecial, Funct;
  }

  lemma SpecialWriteSet(w: U32)
    requires Op(w) == 0
    ensures InstrWritesToGpr(w).Writes?
    ensures InstrWritesToGpr(w).regs - {0} == ArchitecturalWrites(R.DecodeSpecial(w)) - {0}
  {
    if w == 0 {
      assert R.DecodeSpecial(0).Alu? && R.DecodeSpecial(0).rd == 0;
    } else if Funct(w) < 0x20 {
      LowFunctWrites(w);
    } else {
      HighFunctWrites(w);
    }
    hide Rs, Rt, Rd, Shamt, R.DecodeSpecial, SpecialWrites, ArchitecturalWrites;
  }

  lemma LowFunctWrites(w: U32)
    requires Funct(w) < 0x20
    ensures SpecialWrites(w) == ArchitecturalWrites(R.DecodeSpecial(w))
  {
    hide Rs, Rt, Rd, Shamt;
  }

  lemma HighFunctWrites(w: U32)
    requires Funct(w) >= 0x20
    ensures SpecialWrites(w) == ArchitecturalWrites(R.DecodeSpecial(w))
  {
    hide Rs, Rt, Rd, Shamt;
  }

  lemma LinkKeeps(pc: int, ins: R.Instr, c: R.Cpu, r: R.Reg)
    requires R.IsControl(ins) && r !in LinkRegs(ins) - {0}
    ensures R.Get(R.Linked(ins, pc, c), r) == R.Get(c, r)
  {
    hide R.Word;
  }

  /** No register outside the reported ones changes, in any state. */
  lemma WriteSetIsSound(gte: R.Gte, pc: int, w: U32, c: R.Cpu, r: R.Reg)
    requires InstrWritesToGpr(w).Writes? && !IsCoprocessor(w) && r !in InstrWritesToGpr(w).regs - {0}
    ensures R.Get(After(gte, pc, w, c), r) == R.Get(c, r)
  {
    WriteSetIsExact(pc, w);
    var ins := R.Decode(pc, w);
    if R.IsControl(ins) {
      LinkKeeps(pc, ins, c, r);
    } else if r == 0 {
    } else {
      Use.OnlyWrittenChange(gte, ins, c, r);
    }
    hide R.Decode, R.Exec, R.Linked, InstrWritesToGpr, Use.Written;
  }

  // ---- Branches ----------------------------------------------------------------------------------

  /** Operand registers of a conditional branch; the second is absent for the compare-with-zero
      forms. */
  datatype BranchUse = Operands(rs: int, rt: Option<int>)

  function CondBranchOf(w: U32): Option<BranchUse> {
    var op := Op(w);
    if op == 0x04 || op == 0x05 then Some(Operands(Rs(w), Some(Rt(w))))
    else if op == 0x06 || op == 0x07 then Some(Operands(Rs(w), None))
    else if op == 0x01 && Rt(w) == 0x00 then Some(Operands(Rs(w), None))
    else if op == 0x01 && Rt(w) == 0x01 then Some(Operands(Rs(w), None))
    else None
  }

  predicate FlagsRs(b: BranchUse, written: set<int>) { b.rs in written && b.rs != 0 }

  predicate FlagsRt(b: BranchUse, written: set<int>) {
    b.rt.Some? && b.rt.value in written && b.rt.value != 0
  }

  lemma BranchOperands(pc: int, w: U32)
    requires CondBranchOf(w).Some?
    ensures R.Decode(pc, w).CondBranch?
    ensures R.Decode(pc, w).rs == CondBranchOf(w).value.rs
    ensures R.Decode(pc, w).rt == if CondBranchOf(w).value.rt.Some? then CondBranchOf(w).value.rt.value else 0
  {
    hide Rs, Rt, MipsWord.JumpTarget, MipsWord.BranchTarget, R.SignExtended, R.ZeroExtended, R.DecodeSpecial;
  }

  /** A branch the scan does not flag goes the same way whether its condition is read before its
      delay slot or after it, in every state. */
  lemma UnflaggedBranchUnaffected(gte: R.Gte, pc: int, w: U32, d: U32, c: R.Cpu)
    requires CondBranchOf(w).Some? && InstrWritesToGpr(d).Writes? && !IsCoprocessor(d)
    requires !FlagsRs(CondBranchOf(w).value, InstrWritesToGpr(d).regs)
    requires !FlagsRt(CondBranchOf(w).value, InstrWritesToGpr(d).regs)
    ensures R.Decode(pc, w).CondBranch?
    ensures R.Destination(R.Decode(pc, w), pc, After(gte, pc + 4, d, c)) == R.Destination(R.Decode(pc, w), pc, c)
  {
    BranchOperands(pc, w);
    var ins := R.Decode(pc, w);
    WriteSetIsSound(gte, pc + 4, d, c, ins.rs);
    WriteSetIsSound(gte, pc + 4, d, c, ins.rt);
    hide R.Decode, After, InstrWritesToGpr, CondBranchOf, R.Taken, R.Get;
  }

  /** Slots whose result owes nothing to the general registers. */
  predicate MovesIn(ins: R.Instr) { ins.Mfhi? || ins.Mflo? || ins.Mfc0? }

  /** What such a slot leaves in its register. */
  function MovedIn(ins: R.Instr, c: R.Cpu): bv32
    requires MovesIn(ins)
  {
    match ins
    case Mfhi(_) => c.hi
    case Mflo(_) => c.lo
    case Mfc0(_, rd) => c.cop0[rd]
  }

  /** The branch goes another way when its condition is read behind its slot. */
  ghost predicate Turns(gte: R.Gte, ins: R.Instr, pc: int, d: U32, c: R.Cpu)
    requires ins.CondBranch?
  {
    var after := After(gte, pc + 4, d, c);
    R.Taken(ins.cond, R.Get(after, ins.rs), R.Get(after, ins.rt)) != R.Taken(ins.cond, R.Get(c, ins.rs), R.Get(c, ins.rt))
  }

  /** The flag is not idle: over a move from HI, LO or COP0 a flagged branch goes another way from
      some state, unless it compares a register with itself. */
  lemma FlaggedBranchCanTurn(gte: R.Gte, pc: int, w: U32, d: U32)
    requires CondBranchOf(w).Some? && MovesIn(R.Decode(pc + 4, d)) && InstrWritesToGpr(d).Writes? && !IsCoprocessor(d)
    requires || FlagsRs(CondBranchOf(w).value, InstrWritesToGpr(d).regs)
             || FlagsRt(CondBranchOf(w).value, InstrWritesToGpr(d).regs)
    ensures R.Decode(pc, w).CondBranch?
    ensures (exists c: R.Cpu :: Turns(gte, R.Decode(pc, w), pc, d, c)) <==> R.Decode(pc, w).rs != R.Decode(pc, w).rt
  {
    hide R.Decode, CondBranchOf, InstrWritesToGpr, After, R.Taken;
    BranchOperands(pc, w);
    var ins, slot := R.Decode(pc, w), R.Decode(pc + 4, d);
    var f := Use.ResultRegister(slot);
    var r := if FlagsRs(CondBranchOf(w).value, InstrWritesToGpr(d).regs) then ins.rs else ins.rt;
    ReportedIsResult(pc + 4, d, r);
    if ins.rt != 0 {
      ComparesTwo(pc, w);
    }
    if ins.rs == ins.rt {
      forall c: R.Cpu
        ensures !Turns(gte, ins, pc, d, c)
      {
        MovesInEffect(gte, pc + 4, d, c);
        SelfCompare(ins.cond, R.Get(After(gte, pc + 4, d, c), ins.rs), R.Get(c, ins.rs));
      }
    } else {
      var v := Turning(ins.cond);
      var c := Poised(v);
      MovesInEffect(gte, pc + 4, d, c);
      TurningTurns(ins.cond);
      assert Turns(gte, ins, pc, d, c);
    }
  }

  lemma MovesInEffect(gte: R.Gte, pc: int, d: U32, c: R.Cpu)
    requires MovesIn(R.Decode(pc, d))
    ensures After(gte, pc, d, c) == R.Set(c, Use.ResultRegister(R.Decode(pc, d)), MovedIn(R.Decode(pc, d), c))
  {
    hide R.Decode, R.Set;
  }

  lemma ReportedIsResult(pc: int, d: U32, r: int)
    requires MovesIn(R.Decode(pc, d)) && InstrWritesToGpr(d).Writes? && !IsCoprocessor(d)
    requires r in InstrWritesToGpr(d).regs && r != 0
    ensures r == Use.ResultRegister(R.Decode(pc, d))
  {
    hide R.Decode, InstrWritesToGpr;
    WriteSetIsExact(pc, d);
    assert r in InstrWritesToGpr(d).regs - {0};
    assert r in ArchitecturalWrites(R.Decode(pc, d)) - {0};
  }

  /** Only BEQ and BNE have a second register. */
  lemma ComparesTwo(pc: int, w: U32)
    requires CondBranchOf(w).Some? && R.Decode(pc, w).CondBranch? && R.Decode(pc, w).rt != 0
    ensures R.Decode(pc, w).cond in {R.Beq, R.Bne}
  {
    hide Rs, Rt, MipsWord.JumpTarget, MipsWord.BranchTarget, R.SignExtended, R.ZeroExtended, R.DecodeSpecial;
  }

  lemma SelfCompare(cond: R.Cond, x: bv32, y: bv32)
    ensures cond in {R.Beq, R.Bne} ==> R.Taken(cond, x, x) == R.Taken(cond, y, y)
  {
  }

  /** A value that decides a comparison with zero otherwise than zero does. */
  function Turning(cond: R.Cond): bv32 { if cond.Bltz? || cond.Bgez? then 0x8000_0000 else 1 }

  lemma TurningTurns(cond: R.Cond)
    ensures R.Taken(cond, Turning(cond), 0) != R.Taken(cond, 0, 0)
    ensures cond in {R.Beq, R.Bne} ==> R.Taken(cond, 0, Turning(cond)) != R.Taken(cond, 0, 0)
  {
  }

  /** All general registers zero, v everywhere else. */
  ghost function Poised(v: bv32): R.Cpu {
    R.Cpu(seq(32, i => 0), v, v, seq(32, i => v), imap a :: R.Nought(a))
  }

  // ---- The scan ----------------------------------------------------------------------------------

  datatype Hazard = Hazard(branch: int, raw: U32, slot: int, slotRaw: U32, rs: bool, rt: bool)

  datatype Report = Scanned(hazards: seq<Hazard>, safe: nat, branches: nat, slotless: nat) | Bailed(slot: int)

  datatype Verdict = NoBranch | NoSlot | SlotUnknown | Safe | Hazardous(h: Hazard)

  function SlotWord(words: map<int, U32>, img: Image, a: int): Option<U32> {
    if a + 4 in words then Some(words[a + 4]) else WordAt(img, a + 4)
  }

  /** What the scan finds at one walked address. */
  function Judge(words: map<int, U32>, img: Image, a: int): Verdict
    requires a in words
  {
    var b, d := CondBranchOf(words[a]), SlotWord(words, img, a);
    if b.None? then NoBranch
    else if d.None? then NoSlot
    else if InstrWritesToGpr(d.value).UnknownOpcode? then SlotUnknown
    else
      var written := InstrWritesToGpr(d.value).regs;
      var rs, rt := FlagsRs(b.value, written), FlagsRt(b.value, written);
      if rs || rt then Hazardous(Hazard(a, words[a], a + 4, d.value, rs, rt)) else Safe
  }

  ghost function JudgedAs(words: map<int, U32>, img: Image, v: Verdict, seen: seq<int>): set<int>
    requires forall a :: a in seen ==> a in words
  {
    set a | a in seen && Judge(words, img, a) == v
  }

  lemma JudgedGrows(words: map<int, U32>, img: Image, v: Verdict, seen: seq<int>, a: int)
    requires a in words && a !in seen && forall b :: b in seen ==> b in words
    ensures JudgedAs(words, img, v, seen + [a]) == JudgedAs(words, img, v, seen) + if Judge(words, img, a) == v then {a} else {}
    ensures a !in JudgedAs(words, img, v, seen)
  {
    hide Judge;
  }

  lemma AllJudged(words: map<int, U32>, img: Image, v: Verdict, order: seq<int>)
    requires forall a :: a in order <==> a in words
    ensures JudgedAs(words, img, v, order) == set a | a in words && Judge(words, img, a) == v
  {
    hide Judge;
  }

  ghost predicate HazardsFound(words: map<int, U32>, img: Image, hazards: seq<Hazard>, seen: seq<int>)
    requires forall a :: a in seen ==> a in words
  {
    && (forall i :: 0 <= i < |hazards| ==> hazards[i].branch in seen && Judge(words, img, hazards[i].branch) == Hazardous(hazards[i]))
    && (forall a :: a in seen && Judge(words, img, a).Hazardous? ==> Judge(words, img, a).h in hazards)
    && (forall i, j :: 0 <= i < j < |hazards| ==> hazards[i].branch < hazards[j].branch)
    && (forall a :: a in seen ==> Judge(words, img, a) != SlotUnknown)
  }

  lemma HazardsGrow(words: map<int, U32>, img: Image, hazards: seq<Hazard>, seen: seq<int>, a: int)
    requires a in words && (forall b :: b in seen ==> b in words && b < a)
    requires HazardsFound(words, img, hazards, seen)
    ensures var v := Judge(words, img, a);
            v != SlotUnknown ==> HazardsFound(words, img, if v.Hazardous? then hazards + [v.h] else hazards, seen + [a])
  {
    var v := Judge(words, img, a);
    assert v.Hazardous? ==> v.h.branch == a;
    hide Judge;
  }

  method JudgeBranch(words: map<int, U32>, img: Image, addr: int) returns (v: Verdict)
    requires addr in words
    ensures v == Judge(words, img, addr)
  {
    hide InstrWritesToGpr, CondBranchOf;
    var branch := CondBranchOf(words[addr]);
    if branch.None? { return NoBranch; }
    var slot := SlotWord(words, img, addr);
    if slot.None? { return NoSlot; }
    var written := InstrWritesToGpr(slot.value);
    if written.UnknownOpcode? { return SlotUnknown; }
    var rs, rt := FlagsRs(branch.value, written.regs), FlagsRt(branch.value, written.regs);
    v := if rs || rt then Hazardous(Hazard(addr, words[addr], addr + 4, slot.value, rs, rt)) else Safe;
  }

  lemma PrefixBelow(order: seq<int>, n: nat)
    requires Ascending(order) && n < |order|
    ensures order[..n + 1] == order[..n] + [order[n]]
    ensures forall a :: a in order[..n] ==> a < order[n]
    ensures forall a :: a in order && a < order[n] ==> a in order[..n]
  {
    forall a | a in order && a < order[n]
      ensures a in order[..n]
    {
      var i :| 0 <= i < |order| && order[i] == a;
      assert i < n;
    }
  }

  /** The counters after the first n addresses of order. */
  ghost predicate Tallied(words: map<int, U32>, img: Image, hazards: seq<Hazard>, safe: nat, branches: nat, slotless: nat, order: seq<int>, n: nat)
    requires n <= |order| && forall a :: a in order ==> a in words
  {
    && HazardsFound(words, img, hazards, order[..n])
    && safe == |JudgedAs(words, img, Safe, order[..n])|
    && slotless == |JudgedAs(words, img, NoSlot, order[..n])|
    && branches == |hazards| + safe + slotless
  }

  lemma TallyGrows(words: map<int, U32>, img: Image, hazards: seq<Hazard>, safe: nat, branches: nat, slotless: nat, order: seq<int>, n: nat)
    requires SortedCopy(order, words.Keys) && n < |order| && order[n] in words
    requires Tallied(words, img, hazards, safe, branches, slotless, order, n)
    ensures match Judge(words, img, order[n])
            case NoBranch => Tallied(words, img, hazards, safe, branches, slotless, order, n + 1)
            case NoSlot => Tallied(words, img, hazards, safe, branches + 1, slotless + 1, order, n + 1)
            case SlotUnknown => true
            case Hazardous(h) => Tallied(words, img, hazards + [h], safe, branches + 1, slotless, order, n + 1)
            case Safe => Tallied(words, img, hazards, safe + 1, branches + 1, slotless, order, n + 1)
  {
    hide Judge;
    PrefixBelow(order, n);
    HazardsGrow(words, img, hazards, order[..n], order[n]);
    JudgedGrows(words, img, Safe, order[..n], order[n]);
    JudgedGrows(words, img, NoSlot, order[..n], order[n]);
    hide HazardsFound, JudgedAs;
  }

  /** One entry per hazardous branch, in address order, and the other branches counted. */
  ghost predicate IsComplete(words: map<int, U32>, img: Image, r: Report)
    requires r.Scanned?
  {
    && (forall i :: 0 <= i < |r.hazards| ==> r.hazards[i].branch in words && Judge(words, img, r.hazards[i].branch) == Hazardous(r.hazards[i]))
    && (forall a :: a in words && Judge(words, img, a).Hazardous? ==> Judge(words, img, a).h in r.hazards)
    && (forall i, j :: 0 <= i < j < |r.hazards| ==> r.hazards[i].branch < r.hazards[j].branch)
    && (forall a :: a in words ==> Judge(words, img, a) != SlotUnknown)
    && r.safe == |set a | a in words && Judge(words, img, a) == Safe|
    && r.slotless == |set a | a in words && Judge(words, img, a) == NoSlot|
    && r.branches == |r.hazards| + r.safe + r.slotless
  }

  lemma TallyIsComplete(words: map<int, U32>, img: Image, hazards: seq<Hazard>, safe: nat, branches: nat, slotless: nat, order: seq<int>)
    requires SortedCopy(order, words.Keys) && forall a :: a in order ==> a in words
    requires Tallied(words, img, hazards, safe, branches, slotless, order, |order|)
    ensures IsComplete(words, img, Scanned(hazards, safe, branches, slotless))
  {
    hide Judge;
    assert order[..|order|] == order;
    forall a | a in words
      ensures a in order
    {
      assert a in words.Keys;
    }
    AllJudged(words, img, Safe, order);
    AllJudged(words, img, NoSlot, order);
    hide JudgedAs;
  }

  /** A complete report, or the first branch whose slot the scanner refuses to read. */
  method ScanBranches(words: map<int, U32>, img: Image) returns (r: Report)
    ensures r.Scanned? ==> IsComplete(words, img, r)
    ensures r.Bailed? ==>
      && r.slot - 4 in words && Judge(words, img, r.slot - 4) == SlotUnknown
      && (forall a :: a in words && a < r.slot - 4 ==> Judge(words, img, a) != SlotUnknown)
  {
    hide Judge, IsComplete;
    var order := Sorted(words.Keys);
    var hazards: seq<Hazard> := [];
    var safe, branches, slotless := 0, 0, 0;
    forall a | a in order
      ensures a in words
    {
      assert a in words.Keys;
    }
    for n := 0 to |order|
      invariant Tallied(words, img, hazards, safe, branches, slotless, order, n)
    {
      var addr := order[n];
      assert addr in order;
      TallyGrows(words, img, hazards, safe, branches, slotless, order, n);
      var v := JudgeBranch(words, img, addr);
      match v {
        case NoBranch =>
        case NoSlot => branches, slotless := branches + 1, slotless + 1;
        case SlotUnknown =>
          BailsFirst(words, img, hazards, order, n);
          return Bailed(addr + 4);
        case Hazardous(h) => branches, hazards := branches + 1, hazards + [h];
        case Safe => branches, safe := branches + 1, safe + 1;
      }
      hide Tallied;
    }
    TallyIsComplete(words, img, hazards, safe, branches, slotless, order);
    r := Scanned(hazards, safe, branches, slotless);
  }

  lemma BailsFirst(words: map<int, U32>, img: Image, hazards: seq<Hazard>, order: seq<int>, n: nat)
    requires SortedCopy(order, words.Keys) && n < |order|
    requires HazardsFound(words, img, hazards, order[..n])
    ensures forall a :: a in words && a < order[n] ==> Judge(words, img, a) != SlotUnknown
  {
    hide Judge;
    PrefixBelow(order, n);
    assert forall a :: a in words ==> a in words.Keys;
  }

  // ---- The whole image ---------------------------------------------------------------------------

  const BIOS_BASE := 0xBFC0_0000

  /** Where the walks start and end: the two BIOS vectors, then every function start up to the next
      one. */
  function Seeds(img: Image, starts: seq<int>): seq<(int, int)> {
    (if img.load == BIOS_BASE then [(0xBFC0_0000, 0xBFC0_0420), (0xBFC0_0180, 0xBFC0_0420)] else [])
    + seq(|starts|, i requires 0 <= i < |starts| => (starts[i], if i + 1 < |starts| then starts[i + 1] else img.Hi()))
  }

  /** A finished walk of the seed is among the collected words. */
  ghost predicate WalkedInto(img: Image, seed: (int, int), words: map<int, U32>) {
    exists expanded, visited :: IsWalkOf(img, seed, expanded, visited) && visited <= words.Keys
  }

  ghost predicate IsWalkOf(img: Image, seed: (int, int), expanded: set<int>, visited: set<int>) {
    Explored(StackFlow(img, seed.0, seed.1), expanded, visited, {})
  }

  lemma WalkedIntoMore(img: Image, seed: (int, int), words: map<int, U32>, more: map<int, U32>)
    requires WalkedInto(img, seed, words) && words.Keys <= more.Keys
    ensures WalkedInto(img, seed, more)
  {
    hide IsWalkOf;
  }

  method CollectWords(img: Image, starts: seq<int>) returns (words: map<int, U32>)
    ensures HoldsWords(img, words)
    ensures forall i :: 0 <= i < |Seeds(img, starts)| ==> WalkedInto(img, Seeds(img, starts)[i], words)
  {
    var seeds := Seeds(img, starts);
    hide Seeds;
    words := map[];
    for n := 0 to |seeds|
      invariant HoldsWords(img, words)
      invariant forall i :: 0 <= i < n ==> WalkedInto(img, seeds[i], words)
    {
      ghost var before := words;
      var visited, expanded := WalkFunction(img, seeds[n].0, seeds[n].1);
      assert IsWalkOf(img, seeds[n], expanded, visited.Keys);
      words := words + visited;
      forall i | 0 <= i < n
        ensures WalkedInto(img, seeds[i], words)
      {
        WalkedIntoMore(img, seeds[i], before, words);
      }
    }
  }

  method ScanImage(img: Image, starts: seq<int>) returns (words: map<int, U32>, r: Report)
    ensures HoldsWords(img, words)
    ensures forall i :: 0 <= i < |Seeds(img, starts)| ==> WalkedInto(img, Seeds(img, starts)[i], words)
    ensures r.Scanned? ==> IsComplete(words, img, r)
  {
    hide Seeds, WalkedInto, IsComplete, HoldsWords;
    words := CollectWords(img, starts);
    r := ScanBranches(words, img);
  }

  /** What a scan is for.  Every conditional branch that can be reached from a seed is either listed
      as a hazard, or decides the same before and after its delay slot, in every state. */
  lemma ListedOrUnaffected(gte: R.Gte, img: Image, seed: (int, int), words: map<int, U32>, r: Report, a: int, c: R.Cpu)
    requires HoldsWords(img, words) && WalkedInto(img, seed, words)
    requires r.Scanned? && IsComplete(words, img, r)
    requires Clean(StackFlow(img, seed.0, seed.1)) && Reachable(StackFlow(img, seed.0, seed.1), a)
    requires WordAt(img, a).Some? && CondBranchOf(WordAt(img, a).value).Some?
    requires WordAt(img, a + 4).Some? && !IsCoprocessor(WordAt(img, a + 4).value)
    ensures || (exists i :: 0 <= i < |r.hazards| && r.hazards[i].branch == a)
            || (var ins := R.Decode(a, WordAt(img, a).value);
                && ins.CondBranch?
                && R.Destination(ins, a, After(gte, a + 4, WordAt(img, a + 4).value, c)) == R.Destination(ins, a, c))
  {
    var w, d := WordAt(img, a).value, WordAt(img, a + 4).value;
    ReachableIsWalked(img, seed, words, a);
    assert words[a] == w;
    assert SlotWord(words, img, a) == Some(d);
    var v := Judge(words, img, a);
    if v.Hazardous? {
      var i :| 0 <= i < |r.hazards| && r.hazards[i] == v.h;
      assert v.h.branch == a;
    } else {
      UnflaggedBranchUnaffected(gte, a, w, d, c);
    }
    hide R.Decode, R.Destination, After, WordAt, InstrWritesToGpr, CondBranchOf, StackFlow, FlagsRs, FlagsRt, IsCoprocessor;
  }

  lemma ReachableIsWalked(img: Image, seed: (int, int), words: map<int, U32>, a: int)
    requires WalkedInto(img, seed, words)
    requires Clean(StackFlow(img, seed.0, seed.1)) && Reachable(StackFlow(img, seed.0, seed.1), a)
    ensures a in words
  {
    hide IsWalkOf;
    var expanded, visited :| IsWalkOf(img, seed, expanded, visited) && visited <= words.Keys;
    WalkOfIsExact(img, seed, expanded, visited, a);
  }

  lemma WalkOfIsExact(img: Image, seed: (int, int), expanded: set<int>, visited: set<int>, a: int)
    requires IsWalkOf(img, seed, expanded, visited)
    requires Clean(StackFlow(img, seed.0, seed.1)) && Reachable(StackFlow(img, seed.0, seed.1), a)
    ensures a in visited
  {
    WalkIsExact(StackFlow(img, seed.0, seed.1), expanded, visited, {});
    hide Reachable, ReachableSlot, Clean, StackFlow;
  }
}
