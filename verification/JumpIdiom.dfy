/**
 The bounded jump-table idiom, as a program fragment: what the processor jumps to and what the
 backward scan recovers.  Register values are integers modulo 2^32, as in the Python tool.
 */
module JumpIdiom {
  import opened Wrappers
  import opened MipsWord
  import opened OverlayImage
  import opened JumpTable
  import HazardScan

  // ---- Running straight into the jump --------------------------------------------------------------

  function Mod32(i: int): U32 { i % 0x1_0000_0000 }

  predicate IsSlt(w: U32) { Op(w) == 0x0B }
  predicate IsShift2(w: U32) { Op(w) == 0 && Funct(w) == 0 && Shamt(w) == 2 }
  predicate IsLui(w: U32) { Op(w) == 0x0F }
  predicate IsAddiu(w: U32) { Op(w) == 0x09 }
  predicate IsAddu(w: U32) { Op(w) == 0 && Funct(w) == 0x21 }
  predicate IsLw(w: U32) { Op(w) == 0x23 }

  type Regs = r: seq<U32> | |r| == 32 witness seq(32, i => 0)

  /** Every register a word may write; coprocessor words may write any. */
  predicate MayWrite(w: U32, r: int) {
    HazardScan.IsCoprocessor(w) || HazardScan.InstrWritesToGpr(w).UnknownOpcode?
    || r in HazardScan.InstrWritesToGpr(w).regs
  }

  /** One instruction.  The words of the idiom do what they do; of any other word only its
      destination registers are known. */
  predicate Executes(w: U32, before: Regs, after: Regs, mem: int -> U32) {
    && (forall r :: 0 <= r < 32 && !MayWrite(w, r) ==> after[r] == before[r])
    && (IsShift2(w) && Rd(w) != 0 ==> after[Rd(w)] == Mod32((before[Rt(w)] as int) * 4))
    && (IsLui(w) && Rt(w) != 0 ==> after[Rt(w)] == Imm(w) * 0x1_0000)
    && (IsAddiu(w) && Rt(w) != 0 ==> after[Rt(w)] == Mod32((before[Rs(w)] as int) + SImm(w)))
    && (IsAddu(w) && Rd(w) != 0 ==> after[Rd(w)] == Mod32((before[Rs(w)] as int) + before[Rt(w)]))
    && (IsLw(w) && Rt(w) != 0 ==> after[Rt(w)] == mem(Mod32((before[Rs(w)] as int) + SImm(w))))
  }

  function Back(img: Image, jrPc: int, p: int): Option<U32> { WordAt(img, jrPc - 4 * p) }

  /** trace[p] holds the registers before the word p words in front of the jump; the guard of the
      bound is not taken, so control falls straight through to the jump. */
  predicate RunsInto(img: Image, jrPc: int, mem: int -> U32, trace: seq<Regs>) {
    forall p :: 0 < p < |trace| ==> Back(img, jrPc, p).Some? && Executes(Back(img, jrPc, p).value, trace[p], trace[p - 1], mem)
  }

  // ---- The idiom -----------------------------------------------------------------------------------

  /** Where its words stand, counted back from the jump, and its registers: the one of the table
      base, the one of the scaled index, and the one of the index. */
  datatype Parts = Parts(lw: nat, addu: nat, addiu: Option<nat>, lui: nat, shift: nat, slt: nat,
                         base: int, scaled: int, index: int)

  predicate Keeps(img: Image, jrPc: int, p: int, r: int) {
    Back(img, jrPc, p).Some? && !MayWrite(Back(img, jrPc, p).value, r)
  }

  predicate Positions(q: Parts) {
    && 0 < q.lw < q.addu < q.lui < q.slt <= SCAN_LIMIT
    && q.addu < q.shift < q.slt && q.shift != q.lui
    && (q.addiu.Some? ==> q.addu < q.addiu.value < q.lui && q.addiu.value != q.shift)
    && 0 < q.base < 32 && 0 < q.scaled < 32 && q.base != q.scaled && 0 <= q.index < 32
  }

  function Word(img: Image, jrPc: int, p: int): U32 {
    var w := Back(img, jrPc, p);
    if w.Some? then w.value else 0
  }

  /** The words of the idiom itself. */
  predicate HasWords(img: Image, jrPc: int, jrRs: int, q: Parts) {
    && IsLw(Word(img, jrPc, q.lw)) && Rt(Word(img, jrPc, q.lw)) == jrRs != 0
    && IsAddu(Word(img, jrPc, q.addu)) && Rd(Word(img, jrPc, q.addu)) == Rs(Word(img, jrPc, q.lw)) != 0
    && (|| (Rs(Word(img, jrPc, q.addu)) == q.base && Rt(Word(img, jrPc, q.addu)) == q.scaled)
        || (Rs(Word(img, jrPc, q.addu)) == q.scaled && Rt(Word(img, jrPc, q.addu)) == q.base))
    && (q.addiu.Some? ==> var w := Word(img, jrPc, q.addiu.value); IsAddiu(w) && Rs(w) == Rt(w) == q.base)
    && IsLui(Word(img, jrPc, q.lui)) && Rt(Word(img, jrPc, q.lui)) == q.base
    && IsShift2(Word(img, jrPc, q.shift)) && Rd(Word(img, jrPc, q.shift)) == q.scaled && Rt(Word(img, jrPc, q.shift)) == q.index
    && IsSlt(Word(img, jrPc, q.slt)) && Rs(Word(img, jrPc, q.slt)) == q.index && Imm(Word(img, jrPc, q.slt)) > 0
  }

  /** What other words may stand between them. */
  predicate Undisturbed(img: Image, jrPc: int, jrRs: int, q: Parts) {
    && (forall p :: 0 < p <= q.slt ==> Back(img, jrPc, p).Some?)
    && (forall p :: 0 < p < q.slt ==> !IsSlt(Word(img, jrPc, p)))
    && (forall p :: 0 < p < q.lw ==> Keeps(img, jrPc, p, jrRs))
    && (forall p :: q.lw < p < q.addu ==> Keeps(img, jrPc, p, Rs(Word(img, jrPc, q.lw))))
    && (forall p :: q.addu < p < q.lui && q.addiu != Some(p) ==> Keeps(img, jrPc, p, q.base))
    && (forall p :: q.addu < p < q.lui && p != q.shift ==> Keeps(img, jrPc, p, q.scaled))
    && (forall p :: q.addu < p < q.shift ==> Keeps(img, jrPc, p, q.scaled))
    && (forall p :: q.shift < p <= q.slt ==> Keeps(img, jrPc, p, q.index))
  }

  predicate IsIdiom(img: Image, entry: int, jrPc: int, jrRs: int, q: Parts) {
    && Positions(q) && jrPc - 4 * q.slt >= entry
    && HasWords(img, jrPc, jrRs, q) && Undisturbed(img, jrPc, jrRs, q)
  }

  function Bound(img: Image, jrPc: int, q: Parts): nat { Imm(Word(img, jrPc, q.slt)) }

  function Folded(img: Image, jrPc: int, q: Parts): int {
    if q.addiu.Some? then SImm(Word(img, jrPc, q.addiu.value)) else 0
  }

  /** The address of the table the program reads. */
  function TableAddress(img: Image, jrPc: int, q: Parts): int {
    Imm(Word(img, jrPc, q.lui)) * 0x1_0000 + Folded(img, jrPc, q) + SImm(Word(img, jrPc, q.lw))
  }

  // ---- What the processor does ---------------------------------------------------------------------

  lemma {:induction false} KeptBetween(img: Image, jrPc: int, mem: int -> U32, trace: seq<Regs>, from: nat, to: nat, r: int)
    requires RunsInto(img, jrPc, mem, trace) && to <= from < |trace| && 0 <= r < 32
    requires forall p :: to < p <= from ==> Keeps(img, jrPc, p, r)
    ensures trace[to][r] == trace[from][r]
    decreases from - to
  {
    hide MayWrite;
    if to < from {
      KeptBetween(img, jrPc, mem, trace, from - 1, to, r);
      assert Keeps(img, jrPc, from, r);
    }
  }

  lemma Executed(img: Image, jrPc: int, mem: int -> U32, trace: seq<Regs>, p: nat)
    requires RunsInto(img, jrPc, mem, trace) && 0 < p < |trace|
    ensures Executes(Word(img, jrPc, p), trace[p], trace[p - 1], mem)
  {
    hide Executes;
  }

  lemma ScaledIndex(img: Image, entry: int, jrPc: int, jrRs: int, q: Parts, mem: int -> U32, trace: seq<Regs>)
    requires IsIdiom(img, entry, jrPc, jrRs, q) && RunsInto(img, jrPc, mem, trace) && |trace| == q.slt + 1
    ensures trace[q.addu][q.scaled] == Mod32(4 * (trace[q.slt][q.index] as int))
  {
    hide MayWrite, Back, Word, Executes, Mod32;
    KeptBetween(img, jrPc, mem, trace, q.slt, q.shift, q.index);
    Executed(img, jrPc, mem, trace, q.shift);
    ShiftedBy2(Word(img, jrPc, q.shift), trace[q.shift], trace[q.shift - 1], mem);
    KeptBetween(img, jrPc, mem, trace, q.shift - 1, q.addu, q.scaled);
    hide IsIdiom, RunsInto;
  }

  lemma ShiftedBy2(w: U32, before: Regs, after: Regs, mem: int -> U32)
    requires Executes(w, before, after, mem) && IsShift2(w) && Rd(w) != 0
    ensures after[Rd(w)] == Mod32(4 * (before[Rt(w)] as int))
  {
    hide MayWrite, Rd, Rt, Op, Funct, Shamt, Mod32;
    assert (before[Rt(w)] as int) * 4 == 4 * (before[Rt(w)] as int);
  }

  lemma UpperHalf(img: Image, entry: int, jrPc: int, jrRs: int, q: Parts, mem: int -> U32, trace: seq<Regs>)
    requires IsIdiom(img, entry, jrPc, jrRs, q) && RunsInto(img, jrPc, mem, trace) && |trace| == q.slt + 1
    ensures trace[q.lui - 1][q.base] == Imm(Word(img, jrPc, q.lui)) * 0x1_0000 < 0x1_0000_0000
  {
    hide RunsInto, MayWrite, Word, Executes, Undisturbed, Back;
    Executed(img, jrPc, mem, trace, q.lui);
    UpperLoaded(Word(img, jrPc, q.lui), trace[q.lui], trace[q.lui - 1], mem);
    hide SImm, Imm, Rs, Rt, Op, Funct, Shamt, Rd;
  }

  lemma TableBaseRegister(img: Image, entry: int, jrPc: int, jrRs: int, q: Parts, mem: int -> U32, trace: seq<Regs>)
    requires IsIdiom(img, entry, jrPc, jrRs, q) && RunsInto(img, jrPc, mem, trace) && |trace| == q.slt + 1
    ensures trace[q.addu][q.base] == Mod32(Imm(Word(img, jrPc, q.lui)) * 0x1_0000 + Folded(img, jrPc, q))
  {
    hide RunsInto, MayWrite, Word, Executes, HasWords, Undisturbed, Keeps, Back, Imm, SImm;
    IdiomKeepsBase(img, entry, jrPc, jrRs, q);
    UpperHalf(img, entry, jrPc, jrRs, q, mem, trace);
    if q.addiu.Some? {
      LowHalfAdded(img, entry, jrPc, jrRs, q, mem, trace);
    } else {
      KeptBetween(img, jrPc, mem, trace, q.lui - 1, q.addu, q.base);
    }
  }

  lemma LowHalfAdded(img: Image, entry: int, jrPc: int, jrRs: int, q: Parts, mem: int -> U32, trace: seq<Regs>)
    requires IsIdiom(img, entry, jrPc, jrRs, q) && RunsInto(img, jrPc, mem, trace) && |trace| == q.slt + 1 && q.addiu.Some?
    ensures trace[q.addu][q.base] == Mod32((trace[q.lui - 1][q.base] as int) + SImm(Word(img, jrPc, q.addiu.value)))
  {
    hide RunsInto, MayWrite, Word, Executes, Undisturbed, Mod32;
    IdiomKeepsBase(img, entry, jrPc, jrRs, q);
    hide Keeps, Back;
    var a := q.addiu.value;
    KeptBetween(img, jrPc, mem, trace, q.lui - 1, a, q.base);
    Executed(img, jrPc, mem, trace, a);
    LowerAdded(Word(img, jrPc, a), trace[a], trace[a - 1], mem);
    KeptBetween(img, jrPc, mem, trace, a - 1, q.addu, q.base);
    hide SImm, Imm, Rs, Rt, Op, Funct, Shamt, Rd;
  }

  lemma IdiomKeepsBase(img: Image, entry: int, jrPc: int, jrRs: int, q: Parts)
    requires IsIdiom(img, entry, jrPc, jrRs, q)
    ensures forall p :: q.addu < p < q.lui && q.addiu != Some(p) ==> Keeps(img, jrPc, p, q.base)
  {
    hide Keeps, Back, HasWords;
  }

  lemma UpperLoaded(w: U32, before: Regs, after: Regs, mem: int -> U32)
    requires Executes(w, before, after, mem) && IsLui(w) && Rt(w) != 0
    ensures after[Rt(w)] == Imm(w) * 0x1_0000 < 0x1_0000_0000
  {
    hide MayWrite, Rd, Rt, Rs, Op, Funct, Shamt;
  }

  lemma LowerAdded(w: U32, before: Regs, after: Regs, mem: int -> U32)
    requires Executes(w, before, after, mem) && IsAddiu(w) && Rt(w) != 0
    ensures after[Rt(w)] == Mod32((before[Rs(w)] as int) + SImm(w))
  {
    hide MayWrite, Rd, Rt, Rs, Op, Funct, Shamt, SImm;
  }

  lemma Added(w: U32, before: Regs, after: Regs, mem: int -> U32)
    requires Executes(w, before, after, mem) && IsAddu(w) && Rd(w) != 0
    ensures after[Rd(w)] == Mod32((before[Rs(w)] as int) + before[Rt(w)])
  {
    hide MayWrite, Rd, Rt, Rs, Op, Funct, Shamt, SImm;
  }

  lemma Loaded(w: U32, before: Regs, after: Regs, mem: int -> U32)
    requires Executes(w, before, after, mem) && IsLw(w) && Rt(w) != 0
    ensures after[Rt(w)] == mem(Mod32((before[Rs(w)] as int) + SImm(w)))
  {
    hide MayWrite, Rd, Rt, Rs, Op, Funct, Shamt, SImm;
  }

  lemma ModSums(a: int, b: int, c: int)
    ensures Mod32(Mod32(Mod32(a) + Mod32(b)) + c) == Mod32(a + b + c)
  {
  }

  lemma IdiomKeepsSum(img: Image, entry: int, jrPc: int, jrRs: int, q: Parts)
    requires IsIdiom(img, entry, jrPc, jrRs, q)
    ensures forall p :: q.lw < p < q.addu ==> Keeps(img, jrPc, p, Rs(Word(img, jrPc, q.lw)))
    ensures forall p :: 0 < p < q.lw ==> Keeps(img, jrPc, p, jrRs)
  {
    hide Keeps, Back, HasWords, Word;
  }

  /** The address register of the load: table base plus scaled index. */
  lemma AddressRegister(img: Image, entry: int, jrPc: int, jrRs: int, q: Parts, mem: int -> U32, trace: seq<Regs>)
    requires IsIdiom(img, entry, jrPc, jrRs, q) && RunsInto(img, jrPc, mem, trace) && |trace| == q.slt + 1
    ensures trace[q.lw][Rs(Word(img, jrPc, q.lw))] == Mod32((trace[q.addu][q.base] as int) + trace[q.addu][q.scaled])
  {
    hide RunsInto, MayWrite, Word, Executes, Undisturbed, Mod32;
    IdiomKeepsSum(img, entry, jrPc, jrRs, q);
    hide Keeps, Back;
    Executed(img, jrPc, mem, trace, q.addu);
    Added(Word(img, jrPc, q.addu), trace[q.addu], trace[q.addu - 1], mem);
    KeptBetween(img, jrPc, mem, trace, q.addu - 1, q.lw, Rs(Word(img, jrPc, q.lw)));
    hide SImm, Imm, Rs, Rt, Op, Funct, Shamt, Rd;
  }

  /** The register the program jumps through holds the table word of the index, whatever the index. */
  lemma JumpsToTableWord(img: Image, entry: int, jrPc: int, jrRs: int, q: Parts, mem: int -> U32, trace: seq<Regs>)
    requires IsIdiom(img, entry, jrPc, jrRs, q) && RunsInto(img, jrPc, mem, trace) && |trace| == q.slt + 1
    requires 0 <= jrRs < 32
    ensures trace[0][jrRs] == mem(Mod32(TableAddress(img, jrPc, q) + 4 * (trace[q.slt][q.index] as int)))
  {
    hide RunsInto, MayWrite, Word, Executes, Undisturbed, Mod32, Folded;
    IdiomKeepsSum(img, entry, jrPc, jrRs, q);
    hide Keeps, Back;
    ScaledIndex(img, entry, jrPc, jrRs, q, mem, trace);
    TableBaseRegister(img, entry, jrPc, jrRs, q, mem, trace);
    AddressRegister(img, entry, jrPc, jrRs, q, mem, trace);
    Executed(img, jrPc, mem, trace, q.lw);
    Loaded(Word(img, jrPc, q.lw), trace[q.lw], trace[q.lw - 1], mem);
    KeptBetween(img, jrPc, mem, trace, q.lw - 1, 0, jrRs);
    hide SImm, Imm, Rs, Rt, Op, Funct, Shamt, Rd;
    ModSums(Imm(Word(img, jrPc, q.lui)) * 0x1_0000 + Folded(img, jrPc, q), 4 * (trace[q.slt][q.index] as int), SImm(Word(img, jrPc, q.lw)));
  }

  // ---- What the scan finds -------------------------------------------------------------------------

  /** The word p words back is there and tells the scan nothing. */
  predicate Quiet(img: Image, entry: int, jrPc: int, jrRs: int, st: Scan, p: int) {
    Back(img, jrPc, p).Some? && jrPc - 4 * p >= entry && Absorb(st, jrRs, Back(img, jrPc, p).value) == Some(st)
  }

  lemma {:induction false} ScanSkips(img: Image, entry: int, jrPc: int, jrRs: int, from: nat, to: nat, st: Scan)
    requires from <= to <= SCAN_LIMIT + 1
    requires forall p :: from <= p < to ==> Quiet(img, entry, jrPc, jrRs, st, p)
    ensures ScanBack(img, entry, jrPc, jrRs, from, st) == ScanBack(img, entry, jrPc, jrRs, to, st)
    decreases SCAN_LIMIT + 1 - from
  {
    hide Absorb;
    if from < to {
      assert Quiet(img, entry, jrPc, jrRs, st, from);
      ScanSkips(img, entry, jrPc, jrRs, from + 1, to, st);
    }
  }

  lemma ScanTakes(img: Image, entry: int, jrPc: int, jrRs: int, p: nat, st: Scan, next: Scan)
    requires p <= SCAN_LIMIT && Back(img, jrPc, p).Some? && jrPc - 4 * p >= entry
    requires Absorb(st, jrRs, Word(img, jrPc, p)) == Some(next)
    ensures ScanBack(img, entry, jrPc, jrRs, p, st) == ScanBack(img, entry, jrPc, jrRs, p + 1, next)
  {
    hide Absorb;
  }

  lemma LwWrites(w: U32)
    requires IsLw(w)
    ensures MayWrite(w, Rt(w))
  {
  }

  lemma AdduWrites(w: U32)
    requires IsAddu(w)
    ensures MayWrite(w, Rd(w))
  {
  }

  lemma ImmediateWrites(w: U32)
    requires IsAddiu(w) || IsLui(w)
    ensures MayWrite(w, Rt(w))
  {
  }

  /** The scan states behind the load, the addition, and the two halves of the base. */
  function AfterLw(img: Image, jrPc: int, q: Parts): Scan {
    var w := Word(img, jrPc, q.lw);
    NOTHING.(lwBase := Some(Rs(w)), lwOffset := SImm(w))
  }

  function AfterAddu(img: Image, jrPc: int, q: Parts): Scan {
    var w := Word(img, jrPc, q.addu);
    AfterLw(img, jrPc, q).(addends := Some((Rs(w), Rt(w))))
  }

  function FoldedAs(img: Image, jrPc: int, q: Parts): Option<int> {
    if q.addiu.Some? then Some(SImm(Word(img, jrPc, q.addiu.value))) else None
  }

  function AfterLow(img: Image, jrPc: int, q: Parts): Scan {
    var st := AfterAddu(img, jrPc, q);
    if Rs(Word(img, jrPc, q.addu)) == q.base then st.(addiu0 := FoldedAs(img, jrPc, q))
    else st.(addiu1 := FoldedAs(img, jrPc, q))
  }

  function AfterLui(img: Image, jrPc: int, q: Parts): Scan {
    AfterLow(img, jrPc, q).(lui := Some(Imm(Word(img, jrPc, q.lui)) * 0x1_0000), addiu0 := FoldedAs(img, jrPc, q))
  }

  lemma QuietBeforeLw(img: Image, entry: int, jrPc: int, jrRs: int, q: Parts, p: nat)
    requires IsIdiom(img, entry, jrPc, jrRs, q) && 0 < p < q.lw
    ensures Quiet(img, entry, jrPc, jrRs, NOTHING, p)
  {
    hide MayWrite, Back, HasWords, Op, Rt, Rs, Rd, Funct;
    var w := Word(img, jrPc, p);
    assert Back(img, jrPc, p) == Some(w) && Keeps(img, jrPc, p, jrRs);
    if IsLw(w) { LwWrites(w); }
    hide Undisturbed;
  }

  lemma ScanFindsLw(img: Image, entry: int, jrPc: int, jrRs: int, q: Parts)
    requires IsIdiom(img, entry, jrPc, jrRs, q)
    ensures ScanBack(img, entry, jrPc, jrRs, 1, NOTHING) == ScanBack(img, entry, jrPc, jrRs, q.lw + 1, AfterLw(img, jrPc, q))
  {
    hide Back, Quiet, ScanBack, Op, Rt, Rs, Rd, Funct, SImm, Imm, Shamt;
    forall p | 1 <= p < q.lw
      ensures Quiet(img, entry, jrPc, jrRs, NOTHING, p)
    {
      QuietBeforeLw(img, entry, jrPc, jrRs, q, p);
    }
    Present(img, jrPc, jrRs, q, q.lw);
    hide Undisturbed;
    ScanSkips(img, entry, jrPc, jrRs, 1, q.lw, NOTHING);
    ScanTakes(img, entry, jrPc, jrRs, q.lw, NOTHING, AfterLw(img, jrPc, q));
  }

  lemma QuietBeforeAddu(img: Image, entry: int, jrPc: int, jrRs: int, q: Parts, p: nat)
    requires IsIdiom(img, entry, jrPc, jrRs, q) && q.lw < p < q.addu
    ensures Quiet(img, entry, jrPc, jrRs, AfterLw(img, jrPc, q), p)
  {
    hide MayWrite, Back, HasWords, Op, Rt, Rs, Rd, Funct, SImm, Imm;
    var w := Word(img, jrPc, p);
    assert Back(img, jrPc, p) == Some(w) && Keeps(img, jrPc, p, Rs(Word(img, jrPc, q.lw)));
    if IsAddu(w) { AdduWrites(w); }
    assert !IsSlt(w);
    hide Undisturbed;
  }

  lemma ScanFindsAddu(img: Image, entry: int, jrPc: int, jrRs: int, q: Parts)
    requires IsIdiom(img, entry, jrPc, jrRs, q)
    ensures ScanBack(img, entry, jrPc, jrRs, q.lw + 1, AfterLw(img, jrPc, q))
         == ScanBack(img, entry, jrPc, jrRs, q.addu + 1, AfterAddu(img, jrPc, q))
  {
    hide Back, Quiet, ScanBack, Op, Rt, Rs, Rd, Funct, SImm, Imm, Shamt;
    var st := AfterLw(img, jrPc, q);
    forall p | q.lw < p < q.addu
      ensures Quiet(img, entry, jrPc, jrRs, st, p)
    {
      QuietBeforeAddu(img, entry, jrPc, jrRs, q, p);
    }
    Present(img, jrPc, jrRs, q, q.addu);
    hide Undisturbed;
    ScanSkips(img, entry, jrPc, jrRs, q.lw + 1, q.addu, st);
    ScanTakes(img, entry, jrPc, jrRs, q.addu, st, AfterAddu(img, jrPc, q));
  }

  lemma QuietBeforeLui(img: Image, entry: int, jrPc: int, jrRs: int, q: Parts, st: Scan, p: nat)
    requires IsIdiom(img, entry, jrPc, jrRs, q) && q.addu < p < q.lui && q.addiu != Some(p)
    requires st in {AfterAddu(img, jrPc, q), AfterLow(img, jrPc, q)}
    ensures Quiet(img, entry, jrPc, jrRs, st, p)
  {
    hide MayWrite, Back;
    var w := Word(img, jrPc, p);
    assert Back(img, jrPc, p) == Some(w) && Keeps(img, jrPc, p, q.base);
    assert p == q.shift || Keeps(img, jrPc, p, q.scaled);
    if IsAddiu(w) || IsLui(w) { ImmediateWrites(w); }
    hide Op, Rt, Rs, Rd, Funct, SImm, Imm, Shamt;
  }

  lemma ScanFindsLow(img: Image, entry: int, jrPc: int, jrRs: int, q: Parts)
    requires IsIdiom(img, entry, jrPc, jrRs, q)
    ensures ScanBack(img, entry, jrPc, jrRs, q.addu + 1, AfterAddu(img, jrPc, q))
         == ScanBack(img, entry, jrPc, jrRs, q.lui, AfterLow(img, jrPc, q))
  {
    hide Quiet, ScanBack, AfterAddu, AfterLow, Absorb, HasWords, Undisturbed, Word, Back;
    var st, low := AfterAddu(img, jrPc, q), AfterLow(img, jrPc, q);
    forall p | q.addu < p < q.lui && q.addiu != Some(p)
      ensures Quiet(img, entry, jrPc, jrRs, st, p) && Quiet(img, entry, jrPc, jrRs, low, p)
    {
      QuietBeforeLui(img, entry, jrPc, jrRs, q, st, p);
      QuietBeforeLui(img, entry, jrPc, jrRs, q, low, p);
    }
    if q.addiu.Some? {
      var a := q.addiu.value;
      LowAbsorbed(img, entry, jrPc, jrRs, q);
      ScanSkips(img, entry, jrPc, jrRs, q.addu + 1, a, st);
      ScanTakes(img, entry, jrPc, jrRs, a, st, low);
      ScanSkips(img, entry, jrPc, jrRs, a + 1, q.lui, low);
    } else {
      NoLow(img, jrPc, q);
      ScanSkips(img, entry, jrPc, jrRs, q.addu + 1, q.lui, st);
    }
  }

  lemma NoLow(img: Image, jrPc: int, q: Parts)
    requires q.addiu.None?
    ensures AfterLow(img, jrPc, q) == AfterAddu(img, jrPc, q)
  {
    hide Word, SImm, Rs, Rt;
  }

  lemma LowAbsorbed(img: Image, entry: int, jrPc: int, jrRs: int, q: Parts)
    requires IsIdiom(img, entry, jrPc, jrRs, q) && q.addiu.Some?
    ensures Absorb(AfterAddu(img, jrPc, q), jrRs, Word(img, jrPc, q.addiu.value)) == Some(AfterLow(img, jrPc, q))
    ensures Back(img, jrPc, q.addiu.value).Some? && jrPc - 4 * q.addiu.value >= entry
  {
    hide Op, Rt, Rs, Rd, Funct, SImm, Imm, Shamt, Undisturbed;
    assert Back(img, jrPc, q.addiu.value).Some? by { Present(img, jrPc, jrRs, q, q.addiu.value); }
    hide Back;
  }

  lemma Present(img: Image, jrPc: int, jrRs: int, q: Parts, p: nat)
    requires Undisturbed(img, jrPc, jrRs, q) && 0 < p <= q.slt
    ensures Back(img, jrPc, p).Some?
  {
  }

  lemma ScanFindsLui(img: Image, entry: int, jrPc: int, jrRs: int, q: Parts)
    requires IsIdiom(img, entry, jrPc, jrRs, q)
    ensures ScanBack(img, entry, jrPc, jrRs, q.lui, AfterLow(img, jrPc, q))
         == ScanBack(img, entry, jrPc, jrRs, q.lui + 1, AfterLui(img, jrPc, q))
  {
    hide Op, Rt, Rs, Rd, Funct, SImm, Imm, Shamt, ScanBack;
    Present(img, jrPc, jrRs, q, q.lui);
    hide Undisturbed, Back;
    ScanTakes(img, entry, jrPc, jrRs, q.lui, AfterLow(img, jrPc, q), AfterLui(img, jrPc, q));
  }

  // ---- The stretch behind the lui ------------------------------------------------------------------

  /** The first `addiu r, r, imm` of the stretch the scan still reads, going back from position p:
      everything up to the bound, and behind it a run of addiu words. */
  function FirstStray(img: Image, entry: int, jrPc: int, slt: nat, r: int, p: nat): Option<int>
    decreases SCAN_LIMIT + 1 - p
  {
    if p > SCAN_LIMIT || jrPc - 4 * p < entry || Back(img, jrPc, p).None? then None
    else
      var w := Word(img, jrPc, p);
      if IsAddiu(w) && Rs(w) == Rt(w) == r then Some(SImm(w))
      else if p > slt && !IsAddiu(w) then None
      else FirstStray(img, entry, jrPc, slt, r, p + 1)
  }

  /** The scan behind the lui: only addiu0 and addiu1 can still change, and the bound. */
  lemma {:induction false} ScanRest(img: Image, entry: int, jrPc: int, jrRs: int, q: Parts, st: Scan, p: nat)
    requires IsIdiom(img, entry, jrPc, jrRs, q) && q.lui < p <= SCAN_LIMIT + 1
    requires st.lwBase.Some? && st.addends.Some? && st.lui.Some?
    requires st.count == if p <= q.slt then 0 else Bound(img, jrPc, q)
    ensures var last := ScanBack(img, entry, jrPc, jrRs, p, st);
            && last.lui == st.lui && last.lwOffset == st.lwOffset && last.count == Bound(img, jrPc, q)
            && last.addiu0 == if st.addiu0.Some? then st.addiu0 else FirstStray(img, entry, jrPc, q.slt, st.addends.value.0, p)
    decreases SCAN_LIMIT + 1 - p
  {
    hide Op, Rt, Rs, Rd, Funct, SImm, Imm, Shamt, IsIdiom, Bound, Absorb;
    SltHere(img, entry, jrPc, jrRs, q);
    if p <= q.slt {
      BeforeSlt(img, entry, jrPc, jrRs, q, p);
    }
    if p <= SCAN_LIMIT && jrPc - 4 * p >= entry && Back(img, jrPc, p).Some? {
      AbsorbedRest(st, jrRs, Word(img, jrPc, p));
      var next := Absorb(st, jrRs, Word(img, jrPc, p));
      if next.Some? {
        ScanRest(img, entry, jrPc, jrRs, q, next.value, p + 1);
      }
    }
  }

  /** What one more word does behind the lui. */
  lemma AbsorbedRest(st: Scan, jrRs: int, w: U32)
    requires st.lwBase.Some? && st.addends.Some? && st.lui.Some?
    ensures IsAddiu(w) ==> Absorb(st, jrRs, w).Some?
    ensures !IsAddiu(w) && IsSlt(w) && st.count == 0 ==> Absorb(st, jrRs, w) == Some(st.(count := Imm(w)))
    ensures !IsAddiu(w) && !(IsSlt(w) && st.count == 0) ==> Absorb(st, jrRs, w) == if st.count != 0 then None else Some(st)
    ensures Absorb(st, jrRs, w).Some? ==>
      var n := Absorb(st, jrRs, w).value;
      && n.lwBase.Some? && n.addends == st.addends && n.lui == st.lui && n.lwOffset == st.lwOffset
      && (IsAddiu(w) ==> n.count == st.count)
      && n.addiu0 == if st.addiu0.None? && IsAddiu(w) && Rs(w) == Rt(w) == st.addends.value.0 then Some(SImm(w)) else st.addiu0
  {
    hide Rt, Rs, Rd, Funct, SImm, Imm, Shamt;
  }

  lemma BeforeSlt(img: Image, entry: int, jrPc: int, jrRs: int, q: Parts, p: nat)
    requires IsIdiom(img, entry, jrPc, jrRs, q) && 0 < p <= q.slt
    ensures Back(img, jrPc, p).Some? && jrPc - 4 * p >= entry
    ensures p < q.slt ==> !IsSlt(Word(img, jrPc, p))
  {
    hide Op, Back, HasWords;
  }

  lemma SltHere(img: Image, entry: int, jrPc: int, jrRs: int, q: Parts)
    requires IsIdiom(img, entry, jrPc, jrRs, q)
    ensures IsSlt(Word(img, jrPc, q.slt)) && Bound(img, jrPc, q) == Imm(Word(img, jrPc, q.slt)) > 0
    ensures q.slt <= SCAN_LIMIT && jrPc - 4 * q.slt >= entry && q.lui < q.slt
  {
  }

  /** What the scan ends with. */
  lemma ScanOfIdiom(img: Image, entry: int, jrPc: int, jrRs: int, q: Parts)
    requires IsIdiom(img, entry, jrPc, jrRs, q)
    ensures var st := ScanBack(img, entry, jrPc, jrRs, 1, NOTHING);
            && st.lui == Some(Imm(Word(img, jrPc, q.lui)) * 0x1_0000)
            && st.lwOffset == SImm(Word(img, jrPc, q.lw))
            && st.count == Bound(img, jrPc, q)
            && st.addiu0 == if q.addiu.Some? then FoldedAs(img, jrPc, q)
                            else FirstStray(img, entry, jrPc, q.slt, Rs(Word(img, jrPc, q.addu)), q.lui + 1)
  {
    hide IsIdiom, ScanBack, FirstStray, Bound;
    ScanFindsLw(img, entry, jrPc, jrRs, q);
    ScanFindsAddu(img, entry, jrPc, jrRs, q);
    ScanFindsLow(img, entry, jrPc, jrRs, q);
    ScanFindsLui(img, entry, jrPc, jrRs, q);
    OrderOfParts(img, entry, jrPc, jrRs, q);
    hide Imm, SImm, Rs, Rt, Word;
    ScanRest(img, entry, jrPc, jrRs, q, AfterLui(img, jrPc, q), q.lui + 1);
  }

  lemma OrderOfParts(img: Image, entry: int, jrPc: int, jrRs: int, q: Parts)
    requires IsIdiom(img, entry, jrPc, jrRs, q)
    ensures q.lui + 1 <= q.slt <= SCAN_LIMIT
  {
  }

  /** The scan takes the table for the one the program uses exactly when the idiom has its low half,
      or no `addiu` onto the first addend stands where the scan still looks for one. */
  lemma TableFoundIff(img: Image, entry: int, jrPc: int, jrRs: int, q: Parts)
    requires IsIdiom(img, entry, jrPc, jrRs, q)
    ensures var st := ScanBack(img, entry, jrPc, jrRs, 1, NOTHING);
            && st.lui.Some?
            && (TableBase(st) == TableAddress(img, jrPc, q)
                <==> q.addiu.Some? || FirstStray(img, entry, jrPc, q.slt, Rs(Word(img, jrPc, q.addu)), q.lui + 1) in {None, Some(0)})
  {
    hide IsIdiom, ScanBack, FirstStray, Imm, SImm, Rs, Word, Bound;
    ScanOfIdiom(img, entry, jrPc, jrRs, q);
  }

  // ---- Together ------------------------------------------------------------------------------------

  /** Code and tables in memory are those of the capture. */
  ghost predicate HoldsImage(img: Image, mem: int -> U32) {
    forall a :: WordAt(img, a).Some? ==> mem(a) == WordAt(img, a).value
  }

  /** Some entry of the table holds t, at an address reached without wrapping around. */
  predicate TableHolds(img: Image, jrPc: int, q: Parts, t: int) {
    exists i :: 0 <= i < Bound(img, jrPc, q) && EntryHolds(img, TableAddress(img, jrPc, q), i, t)
  }

  predicate EntryHolds(img: Image, base: int, i: int, t: int) { WordAt(img, base + 4 * i) == Some(t) }

  /** For every instance of the idiom that meets the condition of TableFoundIff, and every index below
      its bound: the address the program jumps to is recovered exactly when the bound is below 512,
      the address is an aligned one of the function, and the table holds it without wrapping around
      -- which it does when the entry of the index is captured and its own address does not wrap. */
  lemma JumpIsRecovered(img: Image, entry: int, hardCap: int, jrPc: int, jrRs: int, q: Parts, mem: int -> U32, trace: seq<Regs>)
    requires IsIdiom(img, entry, jrPc, jrRs, q) && 0 <= jrRs < 32
    requires q.addiu.Some? || FirstStray(img, entry, jrPc, q.slt, Rs(Word(img, jrPc, q.addu)), q.lui + 1) in {None, Some(0)}
    requires RunsInto(img, jrPc, mem, trace) && |trace| == q.slt + 1 && trace[q.slt][q.index] < Bound(img, jrPc, q)
    requires HoldsImage(img, mem)
    ensures trace[0][jrRs] in JumpTableTargets(img, entry, hardCap, jrPc, jrRs) <==>
            && Bound(img, jrPc, q) < MAX_ENTRIES
            && InWindow(img, entry, hardCap, trace[0][jrRs])
            && TableHolds(img, jrPc, q, trace[0][jrRs])
    ensures var a := TableAddress(img, jrPc, q) + 4 * (trace[q.slt][q.index] as int);
            0 <= a < 0x1_0000_0000 && WordAt(img, a).Some? ==> TableHolds(img, jrPc, q, trace[0][jrRs])
  {
    hide IsIdiom, ScanBack, FirstStray, RunsInto, TableAddress, Bound, InWindow, Word, Mod32;
    BoundIsPositive(img, entry, jrPc, jrRs, q);
    var i: int, t := trace[q.slt][q.index], trace[0][jrRs];
    JumpsToTableWord(img, entry, jrPc, jrRs, q, mem, trace);
    TargetsAreHeld(img, entry, hardCap, jrPc, jrRs, q, t);
    var a := TableAddress(img, jrPc, q) + 4 * i;
    if 0 <= a < 0x1_0000_0000 && WordAt(img, a).Some? {
      NoWrap(a);
      assert EntryHolds(img, TableAddress(img, jrPc, q), i, t);
    }
    hide WordAt;
  }

  /** The recovered set of an instance whose table is found. */
  lemma TargetsAreHeld(img: Image, entry: int, hardCap: int, jrPc: int, jrRs: int, q: Parts, t: int)
    requires IsIdiom(img, entry, jrPc, jrRs, q)
    requires q.addiu.Some? || FirstStray(img, entry, jrPc, q.slt, Rs(Word(img, jrPc, q.addu)), q.lui + 1) in {None, Some(0)}
    ensures t in JumpTableTargets(img, entry, hardCap, jrPc, jrRs) <==>
            Bound(img, jrPc, q) < MAX_ENTRIES && InWindow(img, entry, hardCap, t) && TableHolds(img, jrPc, q, t)
  {
    hide IsIdiom, ScanBack, FirstStray, TableAddress, Bound, InWindow, EntryHolds, TableTargets;
    BoundIsPositive(img, entry, jrPc, jrRs, q);
    TableFoundIff(img, entry, jrPc, jrRs, q);
    ScanOfIdiom(img, entry, jrPc, jrRs, q);
    hide Word, TableBase, Imm, SImm;
    Recovered(img, entry, hardCap, TableAddress(img, jrPc, q), Bound(img, jrPc, q), t);
  }

  /** A table of 512 entries or more is lost whole, wherever the scan thinks it is. */
  lemma LargeTablesAreLost(img: Image, entry: int, hardCap: int, jrPc: int, jrRs: int, q: Parts)
    requires IsIdiom(img, entry, jrPc, jrRs, q) && Bound(img, jrPc, q) >= MAX_ENTRIES
    ensures JumpTableTargets(img, entry, hardCap, jrPc, jrRs) == {}
  {
    hide IsIdiom, ScanBack, Bound, Word, Imm, SImm, FirstStray;
    ScanOfIdiom(img, entry, jrPc, jrRs, q);
  }

  lemma BoundIsPositive(img: Image, entry: int, jrPc: int, jrRs: int, q: Parts)
    requires IsIdiom(img, entry, jrPc, jrRs, q)
    ensures Bound(img, jrPc, q) > 0 && 0 <= q.index < 32
  {
  }

  lemma NoWrap(a: int)
    requires 0 <= a < 0x1_0000_0000
    ensures Mod32(a) == a
  {
  }

  lemma Recovered(img: Image, entry: int, hardCap: int, base: int, count: int, t: int)
    ensures t in TableTargets(img, entry, hardCap, base, count) <==>
            InWindow(img, entry, hardCap, t) && exists i :: 0 <= i < count && EntryHolds(img, base, i, t)
  {
    hide WordAt, InWindow;
    forall i
      ensures TableEntry(img, entry, hardCap, base, i) == Some(t) <==> InWindow(img, entry, hardCap, t) && EntryHolds(img, base, i, t)
    {
      assert base + i * 4 == base + 4 * i;
    }
    hide TableEntry, EntryHolds;
  }
}
