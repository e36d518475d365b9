/**
 JAL: the translator writes the return address after the delay slot, the R3000A before it
 (psxrecomp/recompiler/src/strict_translator.cpp, psxrecomp/runtime/src/psx_interpreter.c).
 */
module LinkOrder {
  import opened Wrappers
  import opened MipsWord
  import opened OverlayImage
  import opened R3000
  import opened RegisterUse
  import opened StrictTranslator
  import opened ByteLanes
  import opened TranslationProof
  import opened SliceWalker
  import opened DelaySlot

  const RA: Reg := 31

  /** A JAL at t with state c: the slot's effect when it runs before the link is written. */
  ghost function SlotFirst(gte: Gte, slot: Instr, c: Cpu): Effect { Exec(gte, slot, c) }

  /** ...and when it runs after. */
  ghost function LinkFirst(gte: Gte, slot: Instr, c: Cpu, link: bv32): Effect { Exec(gte, slot, Set(c, RA, link)) }

  /** When the order does not show: a slot that completes must not have left another value in $ra
      itself, and a slot that traps must have found the return address already there. */
  ghost predicate OrderHidden(gte: Gte, slot: Instr, c: Cpu, link: bv32) {
    var e := SlotFirst(gte, slot, c);
    if e.Next? then RA in Written(slot) ==> Get(e.cpu, RA) == link else Get(c, RA) == link
  }

  /** Both orders end in the same effect. */
  ghost predicate SameEffect(gte: Gte, slot: Instr, c: Cpu, link: bv32) {
    var e := SlotFirst(gte, slot, c);
    LinkFirst(gte, slot, c, link) == if e.Next? then Next(Set(e.cpu, RA, link)) else e
  }

  lemma SetShows(c: Cpu, v: bv32)
    ensures Set(c, RA, v) == c <==> Get(c, RA) == v
  {
    SetSame(c, RA);
  }

  /** For slots that do not read $ra, and for all slots when it already holds the return address,
      the order of link and slot is hidden exactly under OrderHidden. */
  lemma OrderHiddenIff(gte: Gte, slot: Instr, c: Cpu, link: bv32)
    requires RA !in Reads(slot) || Get(c, RA) == link
    ensures SameEffect(gte, slot, c, link) <==> OrderHidden(gte, slot, c, link)
  {
    hide Exec, Set, Written, Reads, Get;
    if Get(c, RA) == link {
      HiddenByValue(gte, slot, c, link);
    } else if RA in Written(slot) {
      HiddenByWrite(gte, slot, c, link);
    } else {
      HiddenByDisuse(gte, slot, c, link);
    }
  }

  lemma HiddenByValue(gte: Gte, slot: Instr, c: Cpu, link: bv32)
    requires Get(c, RA) == link
    ensures SameEffect(gte, slot, c, link) <==> OrderHidden(gte, slot, c, link)
  {
    SetShows(c, link);
    SetShows(SlotFirst(gte, slot, c).cpu, link);
    if RA !in Written(slot) {
      OnlyWrittenChange(gte, slot, c, RA);
    }
    hide Exec, Set, Written, Reads;
  }

  lemma HiddenByWrite(gte: Gte, slot: Instr, c: Cpu, link: bv32)
    requires RA !in Reads(slot) && RA in Written(slot)
    ensures SameEffect(gte, slot, c, link) <==> OrderHidden(gte, slot, c, link)
  {
    hide Exec, Set, Written, Reads, Get;
    SetShows(c, link);
    SetShows(SlotFirst(gte, slot, c).cpu, link);
    UnreadRegister(gte, slot, c, RA, link);
    TrapsUnchanged(gte, slot, c);
  }

  lemma HiddenByDisuse(gte: Gte, slot: Instr, c: Cpu, link: bv32)
    requires RA !in Reads(slot) && RA !in Written(slot)
    ensures SameEffect(gte, slot, c, link) <==> OrderHidden(gte, slot, c, link)
  {
    hide Exec, Set, Written, Reads, Get;
    SetShows(c, link);
    UnusedRegisterCommutes(gte, slot, c, RA, link);
    TrapsUnchanged(gte, slot, c);
  }

  lemma TrapsUnchanged(gte: Gte, ins: Instr, c: Cpu)
    ensures Exec(gte, ins, c).Trapped? ==> Exec(gte, ins, c).cpu == c
  {
    hide AluResult, LoadValue, StoreMem, Misaligned, LoadLeftValue, LoadRightValue, StoreLeftMem, StoreRightMem, DivResult, Signed, Word, FitsSigned, Value, Displaced, PopStatus, Set;
  }

  lemma JalTranslates(w: U32, t: int)
    requires Translate(w, t).Terminator? && Translate(w, t).kind.KindJal?
    ensures Op(w) == 0x03
    ensures Translate(w, t).pre == [] && Translate(w, t).target == MipsWord.JumpTarget(t, w)
    ensures Translate(w, t).code == [SetGpr(RA, Const(Word(t + 8)))] + [Goto(MipsWord.JumpTarget(t, w))]
    ensures Decode(t, w) == JumpLink(MipsWord.JumpTarget(t, w))
  {
    hide MipsWord.JumpTarget, MipsWord.BranchTarget, SignExtended, ZeroExtended, Rs, Rd, Rt;
  }

  lemma LinkAndGoto(gte: Gte, link: bv32, target: int, f: Frame)
    ensures RunCode(gte, [SetGpr(RA, Const(link))] + [Goto(target)], f) == Returned(f.(cpu := Set(f.cpu, RA, link), pc := target))
  {
    hide RunStmt, RunCode;
    LinkRuns(gte, RA, link, f);
    var g := f.(cpu := Set(f.cpu, RA, link));
    RunFirst(gte, SetGpr(RA, Const(link)), [Goto(target)], f);
    RunOne(gte, Goto(target), g);
    GotoRuns(gte, target, g);
    hide Set;
  }

  /** The emitted ending of a JAL slice: slot, then link and jump. */
  lemma JalEmitted(gte: Gte, img: Image, t: int, tail: seq<EmittedInstr>, target: int, c: Cpu, f: Frame)
    requires IsEnding(img, t, tail, KindJal, target) && f.cpu == c
    requires Agrees(InstrAt(img, t + 4), c)
    ensures var e := SlotFirst(gte, InstrAt(img, t + 4), c);
            RunEntries(gte, tail, f) ==
            if e.Next? then Returned(f.(cpu := Set(e.cpu, RA, Word(t + 8)), pc := target)) else Aborted(e.kind, e.cpu)
  {
    hide Step, Exec, Translate, Decode, RunCode, WordAt, RunStmt, Agrees, Set, Word;
    var w, d := WordAt(img, t).value, WordAt(img, t + 4).value;
    var tr, slot := Translate(w, t), Translate(d, t + 4).stmt;
    JalTranslates(w, t);
    var es := EmittedInstr(t + 4, d, [slot]);
    PlainStep(gte, img, es, c, 0, f);
    EmptyCode(gte, f);
    SnapshotRuns(gte, t, w, d, slot, tr, f, f);
    var e := SlotFirst(gte, InstrAt(img, t + 4), c);
    var last := EmittedInstr(t, w, tr.code);
    if e.Next? {
      var g := f.(cpu := e.cpu);
      LinkAndGoto(gte, Word(t + 8), target, g);
      RunFirstEntry(gte, last, [], g);
      assert [last] + [] == [last];
    }
    hide IsEnding;
  }

  /** The machine: link, then slot, then at the target. */
  lemma JalExecuted(gte: Gte, img: Image, t: int, tail: seq<EmittedInstr>, target: int, c: Cpu)
    requires IsEnding(img, t, tail, KindJal, target)
    ensures Run(gte, Code(img), Running(c, t, t + 4), 2)
            == Advance(LinkFirst(gte, InstrAt(img, t + 4), c, Word(t + 8)), target)
  {
    hide Step, Exec, Run, Translate, Decode, WordAt, Set, Word, Linked, Destination, IsControl;
    EndingParts(img, t, tail, target);
    StepControl(gte, img, c, t, t + 4);
    JalLinks(target, t, c);
    PlainIsNoControl(gte, img, t + 4);
    StepPlain(gte, img, Set(c, RA, Word(t + 8)), t + 4, target);
    TwoSteps(gte, Code(img), Running(c, t, t + 4));
    hide IsEnding;
  }

  lemma EndingParts(img: Image, t: int, tail: seq<EmittedInstr>, target: int)
    requires IsEnding(img, t, tail, KindJal, target)
    ensures InstrAt(img, t) == JumpLink(target) && IsControl(InstrAt(img, t))
    ensures WordAt(img, t + 4).Some? && Translate(WordAt(img, t + 4).value, t + 4).Plain?
  {
    hide Translate, Decode, WordAt;
    JalTranslates(WordAt(img, t).value, t);
  }

  lemma JalLinks(target: int, t: int, c: Cpu)
    ensures Linked(JumpLink(target), t, c) == Set(c, RA, Word(t + 8)) && Destination(JumpLink(target), t, c) == target
  {
    hide Set, Word;
  }

  lemma PlainIsNoControl(gte: Gte, img: Image, a: int)
    requires WordAt(img, a).Some? && Translate(WordAt(img, a).value, a).Plain?
    ensures !IsControl(InstrAt(img, a))
  {
    hide MipsWord.JumpTarget, MipsWord.BranchTarget, SignExtended, ZeroExtended, Rs, Rd, Rt;
  }

  /** A slice ending in JAL does what the R3000A does exactly when both orders have the same effect. */
  lemma JalEndingIff(gte: Gte, img: Image, t: int, tail: seq<EmittedInstr>, target: int, c: Cpu, f: Frame)
    requires IsEnding(img, t, tail, KindJal, target) && f.cpu == c
    requires Agrees(InstrAt(img, t + 4), c)
    ensures SameState(RunEntries(gte, tail, f), Run(gte, Code(img), Running(c, t, t + 4), 2))
            <==> SameEffect(gte, InstrAt(img, t + 4), c, Word(t + 8))
  {
    JalEmitted(gte, img, t, tail, target, c, f);
    JalExecuted(gte, img, t, tail, target, c);
    hide IsEnding, Agrees, InstrAt, SlotFirst, LinkFirst, Set, Word, RunEntries;
  }

  /** A slice ending in JAL does what the R3000A does exactly when its slot hides the order: for
      every slot that does not read $ra, and for every slot if $ra already holds the return
      address. */
  lemma JalEndingRuns(gte: Gte, img: Image, t: int, tail: seq<EmittedInstr>, target: int, c: Cpu, f: Frame)
    requires IsEnding(img, t, tail, KindJal, target) && f.cpu == c
    requires Agrees(InstrAt(img, t + 4), c)
    requires RA !in Reads(InstrAt(img, t + 4)) || Get(c, RA) == Word(t + 8)
    ensures SameState(RunEntries(gte, tail, f), Run(gte, Code(img), Running(c, t, t + 4), 2))
            <==> OrderHidden(gte, InstrAt(img, t + 4), c, Word(t + 8))
  {
    JalEndingIff(gte, img, t, tail, target, c, f);
    OrderHiddenIff(gte, InstrAt(img, t + 4), c, Word(t + 8));
    hide IsEnding, Agrees, InstrAt, SameEffect, Reads, OrderHidden, Word, RunEntries;
  }

  /** The slice theorem for JAL. */
  lemma JalSliceRuns(gte: Gte, img: Image, start: int, r: WalkResult, body: seq<EmittedInstr>, stop: int, c: Cpu, f: Frame)
    requires IsRom(img) && Reports(img, start, r, body, stop) && 0 <= start
    requires r.ok && r.termination == Ended(KindJal)
    requires f.cpu == c && AgreesAlong(gte, img, Running(c, start, start + 4), |body|)
    ensures var m := Running(c, start, start + 4);
            var mid := Run(gte, Code(img), m, |body|);
            var same := SameState(RunEntries(gte, r.emitted, f), Run(gte, Code(img), m, |body| + 2));
            var slot := InstrAt(img, stop + 4);
            if mid.Stopped? then same
            else Agrees(slot, mid.cpu) && (RA !in Reads(slot) || Get(mid.cpu, RA) == Word(stop + 8)) ==>
                   (same <==> OrderHidden(gte, slot, mid.cpu, Word(stop + 8)))
  {
    hide Step, Agrees, Decode, RunCode, Translate, AllAccounted, FailureIsReal, IsPlainEntry, Word, OrderHidden, Reads, InstrAt, Get;
    var m, tail := Running(c, start, start + 4), r.emitted[|body|..];
    EndingInRom(img, stop, tail, KindJal, r.target);
    RunSplits(gte, Code(img), m, |body|, 2);
    BodyRuns(gte, img, body, tail, start, c, f);
    assert body + tail == r.emitted;
    var mid := Run(gte, Code(img), m, |body|);
    var slot := InstrAt(img, stop + 4);
    if mid.Stopped? {
      StoppedStays(gte, Code(img), mid, 2);
    } else if Agrees(slot, mid.cpu) && (RA !in Reads(slot) || Get(mid.cpu, RA) == Word(stop + 8)) {
      JalEndingRuns(gte, img, stop, tail, r.target, mid.cpu, f.(cpu := mid.cpu));
    }
    hide SameState, RunEntries;
  }

  // ---- Slots that read $ra -------------------------------------------------------------------------

  lemma SetTwice(c: Cpu, r: Reg, x: bv32, y: bv32)
    ensures Set(c, r, x) == Set(c, r, y) <==> r == 0 || x == y
  {
    assert r != 0 ==> c.gpr[r := x][r] == x && c.gpr[r := y][r] == y;
  }

  /** Writing x to rd before the link, or y behind it. */
  predicate SameResult(rd: Reg, x: bv32, y: bv32, link: bv32) {
    rd == 0 || y == if rd == RA then link else x
  }

  lemma ResultOrder(c: Cpu, rd: Reg, x: bv32, y: bv32, link: bv32)
    ensures Set(Set(c, RA, link), rd, y) == Set(Set(c, rd, x), RA, link) <==> SameResult(rd, x, y, link)
  {
    if rd == RA {
      SetOverwrites(c, RA, link, y);
      SetOverwrites(c, RA, x, link);
      SetTwice(c, RA, y, link);
    } else {
      SetCommutes(c, rd, x, RA, link);
      SetTwice(Set(c, RA, link), rd, y, x);
    }
    hide Set;
  }

  /** Computations, those that can overflow included. */
  predicate ComputationHides(slot: Instr, c: Cpu, link: bv32)
    requires Computes(slot)
  {
    var d := Set(c, RA, link);
    if Overflows(slot, c) then Get(c, RA) == link
    else !Overflows(slot, d) && SameResult(slot.rd, Computed(slot, c), Computed(slot, d), link)
  }

  lemma ComputationDecided(gte: Gte, slot: Instr, c: Cpu, link: bv32)
    requires Computes(slot)
    ensures SameEffect(gte, slot, c, link) <==> ComputationHides(slot, c, link)
  {
    hide Exec, Set, Overflows, Computed, SameResult, Written, Get;
    ComputeEffect(gte, slot, c);
    ComputeEffect(gte, slot, Set(c, RA, link));
    ResultOrder(c, slot.rd, Computed(slot, c), Computed(slot, Set(c, RA, link)), link);
    SetShows(c, link);
  }

  /** Loads, those from addresses based on $ra included, and moves to a register. */
  ghost predicate MoveHides(slot: Instr, c: Cpu, link: bv32)
    requires MovesToRegister(slot)
  {
    var d := Set(c, RA, link);
    if Faults(slot, c) then Get(c, RA) == link
    else !Faults(slot, d) && SameResult(ResultRegister(slot), ResultValue(slot, c), ResultValue(slot, d), link)
  }

  lemma MoveDecided(gte: Gte, slot: Instr, c: Cpu, link: bv32)
    requires MovesToRegister(slot)
    ensures SameEffect(gte, slot, c, link) <==> MoveHides(slot, c, link)
  {
    hide Exec, Set, Faults, ResultValue, ResultRegister, SameResult, Written, Get, Effective, MovesToRegister;
    MoveEffect(gte, slot, c);
    MoveEffect(gte, slot, Set(c, RA, link));
    ResultOrder(c, ResultRegister(slot), ResultValue(slot, c), ResultValue(slot, Set(c, RA, link)), link);
    SetShows(c, link);
  }

  /** Moves of $ra to HI, LO or COP0. */
  predicate MovesRaAway(slot: Instr) {
    (slot.Mthi? && slot.rs == RA) || (slot.Mtlo? && slot.rs == RA) || (slot.Mtc0? && slot.rt == RA)
  }

  /** What such a move leaves when $ra holds v. */
  function MovedAway(slot: Instr, c: Cpu, v: bv32): Cpu
    requires MovesRaAway(slot)
  {
    if slot.Mthi? then c.(hi := v) else if slot.Mtlo? then c.(lo := v) else c.(cop0 := c.cop0[slot.rd := v])
  }

  lemma MovedAwayShows(slot: Instr, c: Cpu, x: bv32, y: bv32)
    requires MovesRaAway(slot)
    ensures MovedAway(slot, c, x) == MovedAway(slot, c, y) <==> x == y
  {
    if slot.Mtc0? {
      assert c.cop0[slot.rd := x][slot.rd] == x && c.cop0[slot.rd := y][slot.rd] == y;
    }
  }

  lemma MovedAwayCommutes(slot: Instr, c: Cpu, x: bv32, link: bv32)
    requires MovesRaAway(slot)
    ensures Set(MovedAway(slot, c, x), RA, link) == MovedAway(slot, Set(c, RA, link), x)
  {
  }

  lemma MoveAwayEffect(gte: Gte, slot: Instr, c: Cpu)
    requires MovesRaAway(slot)
    ensures Exec(gte, slot, c) == Next(MovedAway(slot, c, Get(c, RA)))
  {
    hide Get;
  }

  lemma MoveAwayDecided(gte: Gte, slot: Instr, c: Cpu, link: bv32)
    requires MovesRaAway(slot)
    ensures SameEffect(gte, slot, c, link) <==> Get(c, RA) == link
  {
    hide Exec, Set, Get, MovedAway, MovesRaAway;
    GetOwn(c, link);
    MoveAwayEffect(gte, slot, c);
    MoveAwayEffect(gte, slot, Set(c, RA, link));
    MovedAwayCommutes(slot, c, Get(c, RA), link);
    MovedAwayShows(slot, Set(c, RA, link), Get(c, RA), link);
  }

  function LowByte(x: bv32): bv32 { x & 0xFF }

  function LowHalf(x: bv32): bv32 { x & 0xFFFF }

  /** The part of a register a store writes. */
  function StoredPart(w: Width, x: bv32): bv32 {
    match w
    case Byte => LowByte(x)
    case ByteU => LowByte(x)
    case Half => LowHalf(x)
    case HalfU => LowHalf(x)
    case Whole => x
  }

  predicate StoresRa(slot: Instr) { slot.Store? && slot.rt == RA != slot.rs }

  predicate StoreHides(slot: Instr, c: Cpu, link: bv32)
    requires StoresRa(slot)
  {
    if Misaligned(slot.w, Effective(c, slot.rs, slot.off)) then Get(c, RA) == link
    else StoredPart(slot.w, Get(c, RA)) == StoredPart(slot.w, link)
  }

  lemma StoreDecided(gte: Gte, slot: Instr, c: Cpu, link: bv32)
    requires StoresRa(slot)
    ensures SameEffect(gte, slot, c, link) <==> StoreHides(slot, c, link)
  {
    hide StoreMem, Misaligned, Set, Get, Effective, StoredPart, Exec;
    var a := Effective(c, slot.rs, slot.off);
    var d := Set(c, RA, link);
    GetOwn(c, link);
    SetKeeps(c, RA, link);
    EffectiveKept(c, RA, link, slot.rs, slot.off);
    StoreEffect(gte, slot, c);
    StoreEffect(gte, slot, d);
    SetShows(c, link);
    StoredPartShows(slot.w, c.mem, a, Get(c, RA), link);
    MemoryMoves(c, RA, link, StoreMem(slot.w, c.mem, a, Get(c, RA)));
    SameMemory(d, StoreMem(slot.w, c.mem, a, Get(c, RA)), StoreMem(slot.w, c.mem, a, link));
  }

  lemma SameMemory(c: Cpu, m: Mem, n: Mem)
    ensures c.(mem := m) == c.(mem := n) <==> m == n
  {
  }

  /** Two stores at one address leave the same memory exactly when the stored parts are equal. */
  lemma StoredPartShows(w: Width, m: Mem, a: bv32, x: bv32, y: bv32)
    ensures StoreMem(w, m, a, x) == StoreMem(w, m, a, y) <==> StoredPart(w, x) == StoredPart(w, y)
  {
    hide ByteOf, WriteWord, LowByte, LowHalf, WriteByte, WriteHalf, ReadWord;
    match w
    case Byte => ByteShows(m, a, x, y);
    case ByteU => ByteShows(m, a, x, y);
    case Half => HalfShows(m, a, x, y);
    case HalfU => HalfShows(m, a, x, y);
    case Whole =>
      StoredWord(m, a, x);
      StoredWord(m, a, y);
  }

  lemma ByteShows(m: Mem, a: bv32, x: bv32, y: bv32)
    ensures WriteByte(m, a, ByteOf(x, 0)) == WriteByte(m, a, ByteOf(y, 0)) <==> LowByte(x) == LowByte(y)
  {
    LowByteShows(x, y);
    hide ByteOf, Put, LowByte;
    PutShows(m, a, ByteOf(x, 0), ByteOf(y, 0));
  }

  lemma PutShows(m: Mem, a: bv32, x: bv8, y: bv8)
    ensures Put(m, a, x) == Put(m, a, y) <==> x == y
  {
    assert At(Put(m, a, x), a) == x && At(Put(m, a, y), a) == y;
  }

  lemma HalfShows(m: Mem, a: bv32, x: bv32, y: bv32)
    ensures WriteHalf(m, a, x) == WriteHalf(m, a, y) <==> LowHalf(x) == LowHalf(y)
  {
    LowHalfShows(x, y);
    hide ByteOf, LowHalf;
    HalfBytes(m, a, x);
    HalfBytes(m, a, y);
    hide At, Put;
  }

  lemma HalfBytes(m: Mem, a: bv32, x: bv32)
    ensures At(WriteHalf(m, a, x), a) == ByteOf(x, 0) && At(WriteHalf(m, a, x), a + 1) == ByteOf(x, 1)
    ensures WriteHalf(m, a, x) == Put(Put(m, a, ByteOf(x, 0)), a + 1, ByteOf(x, 1))
  {
    hide ByteOf;
    Distinct(a);
  }

  lemma LowByteShows(x: bv32, y: bv32)
    ensures ByteOf(x, 0) == ByteOf(y, 0) <==> LowByte(x) == LowByte(y)
  {
  }

  function HalfOf(b0: bv8, b1: bv8): bv32 { (b0 as bv32) | ((b1 as bv32) << 8) }

  lemma LowHalfIs(x: bv32)
    ensures LowHalf(x) == HalfOf(ByteOf(x, 0), ByteOf(x, 1))
  {
  }

  lemma LowHalfHolds(x: bv32)
    ensures ByteOf(LowHalf(x), 0) == ByteOf(x, 0) && ByteOf(LowHalf(x), 1) == ByteOf(x, 1)
  {
  }

  lemma LowHalfShows(x: bv32, y: bv32)
    ensures ByteOf(x, 0) == ByteOf(y, 0) && ByteOf(x, 1) == ByteOf(y, 1) <==> LowHalf(x) == LowHalf(y)
  {
    hide ByteOf, HalfOf, LowHalf;
    LowHalfIs(x);
    LowHalfIs(y);
    LowHalfHolds(x);
    LowHalfHolds(y);
  }

  /** The slots decided by what they do with $ra. */
  predicate IsDecided(slot: Instr) {
    Computes(slot) || MovesToRegister(slot) || MovesRaAway(slot) || StoresRa(slot)
  }

  ghost predicate Hides(slot: Instr, c: Cpu, link: bv32)
    requires IsDecided(slot)
  {
    if Computes(slot) then ComputationHides(slot, c, link)
    else if MovesToRegister(slot) then MoveHides(slot, c, link)
    else if MovesRaAway(slot) then Get(c, RA) == link
    else StoreHides(slot, c, link)
  }

  /** Whether or not the slot reads $ra: for every computation, load, move and store of $ra, the
      emitted ending is right exactly when the slot hides the order. */
  lemma JalSlotDecided(gte: Gte, img: Image, t: int, tail: seq<EmittedInstr>, target: int, c: Cpu, f: Frame)
    requires IsEnding(img, t, tail, KindJal, target) && f.cpu == c
    requires Agrees(InstrAt(img, t + 4), c) && IsDecided(InstrAt(img, t + 4))
    ensures SameState(RunEntries(gte, tail, f), Run(gte, Code(img), Running(c, t, t + 4), 2))
            <==> Hides(InstrAt(img, t + 4), c, Word(t + 8))
  {
    hide Agrees, IsEnding, InstrAt, SameEffect, Word, RunEntries, ComputationHides, MoveHides, StoreHides, Run, SameState, MovesToRegister, MovesRaAway, StoresRa, Get;
    JalEndingIff(gte, img, t, tail, target, c, f);
    var slot, link := InstrAt(img, t + 4), Word(t + 8);
    if Computes(slot) {
      ComputationDecided(gte, slot, c, link);
    } else if MovesToRegister(slot) {
      MoveDecided(gte, slot, c, link);
    } else if MovesRaAway(slot) {
      MoveAwayDecided(gte, slot, c, link);
    } else {
      StoreDecided(gte, slot, c, link);
    }
  }

  /** A store of $ra, of any width, in the slot of a JAL: the emitted code stores the caller's return
      address, the machine the new one. */
  lemma StoredLinkDiffers(gte: Gte, img: Image, t: int, tail: seq<EmittedInstr>, target: int, c: Cpu, f: Frame)
    requires IsEnding(img, t, tail, KindJal, target) && f.cpu == c && StoresRa(InstrAt(img, t + 4))
    requires !Misaligned(InstrAt(img, t + 4).w, Effective(c, InstrAt(img, t + 4).rs, InstrAt(img, t + 4).off))
    ensures SameState(RunEntries(gte, tail, f), Run(gte, Code(img), Running(c, t, t + 4), 2))
            <==> StoredPart(InstrAt(img, t + 4).w, Get(c, RA)) == StoredPart(InstrAt(img, t + 4).w, Word(t + 8))
  {
    hide IsEnding, InstrAt, Word, RunEntries, Run, SameState, Misaligned, Effective, StoredPart, Get;
    var slot := InstrAt(img, t + 4);
    HarmlessAgrees(slot, c);
    hide Agrees;
    JalSlotDecided(gte, img, t, tail, target, c, f);
  }

  // ---- Slots a caller can check --------------------------------------------------------------------

  /** Whatever the state, the instruction completes. */
  predicate NeverTraps(ins: Instr) {
    && !ins.AddTrap? && !ins.SubTrap? && !ins.Syscall? && !ins.Break?
    && (ins.Load? || ins.Store? ==> ins.w in {Byte, ByteU})
  }

  lemma Completes(gte: Gte, ins: Instr, c: Cpu)
    requires NeverTraps(ins)
    ensures Exec(gte, ins, c).Next?
  {
    hide AluResult, LoadValue, StoreMem, LoadLeftValue, LoadRightValue, StoreLeftMem, StoreRightMem, DivResult, Signed, Word, FitsSigned, Value, Displaced, PopStatus, Set;
  }

  /** Read off the slot word alone: it uses $ra in no way and cannot trap. */
  predicate IsNeutral(slot: Instr) {
    RA !in Reads(slot) && RA !in Written(slot) && NeverTraps(slot) && !slot.StoreLeft? && !slot.StoreRight?
  }

  lemma NeutralHides(gte: Gte, slot: Instr, c: Cpu, link: bv32)
    requires IsNeutral(slot)
    ensures OrderHidden(gte, slot, c, link) && Agrees(slot, c)
  {
    hide Exec, Reads, Written, Get;
    Completes(gte, slot, c);
    HarmlessAgrees(slot, c);
  }

  /** A slice that ends in JAL with such a slot runs like the machine from every state. */
  lemma NeutralSlotRuns(gte: Gte, img: Image, start: int, r: WalkResult, body: seq<EmittedInstr>, stop: int, c: Cpu, f: Frame)
    requires IsRom(img) && Reports(img, start, r, body, stop) && 0 <= start
    requires r.ok && r.termination == Ended(KindJal) && IsNeutral(InstrAt(img, stop + 4))
    requires f.cpu == c && AgreesAlong(gte, img, Running(c, start, start + 4), |body|)
    ensures SameState(RunEntries(gte, r.emitted, f), Run(gte, Code(img), Running(c, start, start + 4), |body| + 2))
  {
    hide Agrees, OrderHidden, InstrAt, Word, Reports, Run, RunEntries, SameState, AgreesAlong, Get, Written, NeverTraps, Reads;
    JalSliceRuns(gte, img, start, r, body, stop, c, f);
    var mid := Run(gte, Code(img), Running(c, start, start + 4), |body|);
    if mid.Running? {
      NeutralHides(gte, InstrAt(img, stop + 4), mid.cpu, Word(stop + 8));
    }
  }

  lemma GetOwn(c: Cpu, v: bv32)
    ensures Get(Set(c, RA, v), RA) == v
  {
  }

  lemma StoredWord(m: Mem, a: bv32, x: bv32)
    ensures ReadWord(WriteWord(m, a, x), a) == x
  {
    WrittenBytes(m, a, Split(x));
    SplitJoins(x);
    hide Join, Split, BytesAt, WriteBytes;
  }

  lemma SplitJoins(x: bv32)
    ensures Join(Split(x)) == x
  {
  }
}
