/**
 What the blocks of an executable promise: they tile the code, and the program moves along their
 edges.
 */
module BlockGraph {
  import opened Wrappers
  import opened MipsWord
  import opened OverlayImage
  import opened SortedSets
  import opened MipsDecoder
  import opened BasicBlocks
  import R = R3000
  import Slots = DelaySlot

  /** Code and entry point start on words, and the code ends on one. */
  predicate WordAligned(exe: Exe) {
    exe.image.load % 4 == 0 && exe.image.size % 4 == 0 && exe.entryPoint % 4 == 0
  }

  /** The scan of the block: from word s to word e, and on to its delay slot if it has one. */
  ghost predicate Spans(exe: Exe, b: Block, s: nat, e: nat, next: int) {
    && s < WordCount(exe) && b.startAddr == AddressOf(exe, s)
    && IsLeader(exe, b.startAddr) && IsNextLeader(exe, b.startAddr, next)
    && IsBlock(exe, b, s, next)
    && e == BlockEnd(DecodeAll(exe), s, next)
  }

  lemma SpanOf(exe: Exe, b: Block) returns (s: nat, e: nat, next: int)
    requires IsBuilt(exe, b)
    ensures Spans(exe, b, s, e, next)
  {
    hide IsLeader, IsNextLeader, IsBlock, DecodeAll;
    s := IndexOf(exe, b.startAddr).value;
    next :| IsNextLeader(exe, b.startAddr, next) && IsBlock(exe, b, s, next);
    e := BlockEnd(DecodeAll(exe), s, next);
  }

  /** Before its last instruction a block has no transfer and no leader. */
  lemma {:induction false} ScanRuns(d: seq<Decoded>, s: nat, next: int, m: nat)
    requires s < |d| && s <= m <= BlockEnd(d, s, next)
    ensures m < BlockEnd(d, s, next) ==> !d[m].UsesSlot()
    ensures m > s ==> d[m].address < next
    ensures var e := BlockEnd(d, s, next); d[e].UsesSlot() || e + 1 == |d| || d[e + 1].address >= next
    decreases |d| - s
  {
    if BlockEnd(d, s, next) > s {
      ScanRuns(d, s + 1, next, if m > s then m else s + 1);
    }
  }

  lemma BlockFields(exe: Exe, b: Block, s: nat, e: nat, next: int)
    requires Spans(exe, b, s, e, next)
    ensures s <= e < WordCount(exe)
    ensures var d := DecodeAll(exe); var l := LastWord(d, e);
            && b.endAddr == AddressOf(exe, l) && b.instrCount == l - s + 1
            && b.hasDelaySlot == d[e].UsesSlot()
            && b.delaySlotAddr == if HasSlot(d, e) then AddressOf(exe, l) else 0
  {
    hide IsLeader, IsNextLeader, SuccessorSet;
    IndexOfWord(exe, LastWord(DecodeAll(exe), e));
    assert WithoutEdges(b) == Shape(DecodeAll(exe), s, next);
  }

  // ---- Alignment -----------------------------------------------------------------------------------

  lemma BranchAligned(w: U32, address: int)
    requires address % 4 == 0
    ensures R.Wrap(MipsWord.BranchTarget(address, w)) % 4 == 0
  {
    assert MipsWord.BranchTarget(address, w) == address + 4 + SImm(w) * 4;
    hide MipsWord.BranchTarget, SImm;
  }

  lemma JumpAligned(w: U32, address: int)
    ensures MipsWord.JumpTarget(address, w) % 4 == 0
  {
    hide Target26;
  }

  lemma TargetsAligned(w: U32, address: int)
    requires address % 4 == 0
    ensures DecodeAt(w, address).branchTarget % 4 == 0 && DecodeAt(w, address).jumpTarget % 4 == 0
  {
    BranchAligned(w, address);
    JumpAligned(w, address);
    hide R.Wrap, MipsWord.BranchTarget, MipsWord.JumpTarget, Op, BranchFormat, JumpFormat;
  }

  lemma LeadersAligned(exe: Exe, a: int)
    requires WordAligned(exe) && IsLeader(exe, a)
    ensures a % 4 == 0
  {
    if a != exe.entryPoint {
      hide LeadersOf, DecodeAt;
      var i :| 0 <= i < WordCount(exe) && a in LeadersOf(exe, DecodeAll(exe)[i]);
      LeadersOfAligned(exe, i, a);
    }
  }

  lemma DecodedAligned(exe: Exe, i: nat)
    requires WordAligned(exe) && i < WordCount(exe)
    ensures var x := DecodeAll(exe)[i]; x.address % 4 == 0 && x.branchTarget % 4 == 0 && x.jumpTarget % 4 == 0
  {
    var a := AddressOf(exe, i);
    assert DecodeAll(exe)[i] == DecodeAt(WordAt(exe.image, a).value, a);
    TargetsAligned(WordAt(exe.image, a).value, a);
    assert DecodeAt(WordAt(exe.image, a).value, a).address == a;
    hide DecodeAt, WordAt;
  }

  lemma LeadersOfAligned(exe: Exe, i: nat, a: int)
    requires WordAligned(exe) && i < WordCount(exe) && a in LeadersOf(exe, DecodeAll(exe)[i])
    ensures a % 4 == 0
  {
    DecodedAligned(exe, i);
    hide DecodeAll, WordAligned, LeadersOf;
    WordLeadersAligned(exe, DecodeAll(exe)[i], a);
  }

  lemma WordLeadersAligned(exe: Exe, x: Decoded, a: int)
    requires x.address % 4 == 0 && x.branchTarget % 4 == 0 && x.jumpTarget % 4 == 0
    requires a in LeadersOf(exe, x)
    ensures a % 4 == 0
  {
  }

  lemma WordsOfImage(exe: Exe, a: int)
    requires IsValidExe(exe) && WordAligned(exe) && a % 4 == 0
    ensures InExe(exe, a) <==> IndexOf(exe, a).Some?
  {
  }

  // ---- Coverage ------------------------------------------------------------------------------------

  /** The last block that starts at or below a. */
  lemma {:induction false} LastStart(blocks: seq<Block>, a: int, n: nat) returns (i: nat)
    requires DistinctStarts(blocks) && 0 < n <= |blocks| && blocks[0].startAddr <= a
    ensures i < n && blocks[i].startAddr <= a
    ensures forall j :: 0 <= j < n && blocks[j].startAddr <= a ==> blocks[j].startAddr <= blocks[i].startAddr
    decreases n
  {
    if blocks[n - 1].startAddr <= a {
      i := n - 1;
    } else {
      i := LastStart(blocks, a, n - 1);
    }
  }

  /** A leader opens the words behind the end of every block. */
  lemma LeaderBehind(exe: Exe, b: Block, s: nat, e: nat, next: int)
    requires IsValidExe(exe) && WordAligned(exe) && Spans(exe, b, s, e, next)
    ensures b.endAddr + 4 < exe.image.Hi() ==>
      exists a :: IsLeader(exe, a) && b.startAddr < a <= b.endAddr + 4
  {
    BlockFields(exe, b, s, e, next);
    ScanRuns(DecodeAll(exe), s, next, e);
    IndexOfWord(exe, e);
    if b.endAddr + 4 < exe.image.Hi() {
      if DecodeAll(exe)[e].UsesSlot() {
        LastHasNext(exe, e);
        BehindSlot(exe, e);
      } else {
        LastHasNext(exe, e);
        IndexOfWord(exe, e + 1);
        assert next <= b.endAddr + 4;
        assert IsLeader(exe, next);
      }
    }
    hide IsBlock, DecodedWord, LeadersOf;
  }

  lemma LastHasNext(exe: Exe, e: nat)
    requires IsValidExe(exe) && WordAligned(exe) && e < WordCount(exe)
    ensures AddressOf(exe, e) + 4 < exe.image.Hi() <==> e + 1 < WordCount(exe)
  {
  }

  lemma BehindSlot(exe: Exe, e: nat)
    requires e < WordCount(exe) && DecodeAll(exe)[e].UsesSlot() && AddressOf(exe, e) + 8 < exe.image.Hi()
    ensures IsLeader(exe, AddressOf(exe, e) + 8)
  {
    IndexOfWord(exe, e);
    hide DecodedWord;
    assert AddressOf(exe, e) + 8 in LeadersOf(exe, DecodeAll(exe)[e]);
  }

  lemma GapHasLeader(exe: Exe, b: Block, a: int) returns (x: int)
    requires IsValidExe(exe) && WordAligned(exe) && IsBuilt(exe, b)
    requires b.endAddr < a < exe.image.Hi() && a % 4 == 0
    ensures IsLeader(exe, x) && IndexOf(exe, x).Some? && b.startAddr < x <= a
  {
    hide IsLeader, IsBuilt, Spans, IndexOf, IsValidExe, WordAligned;
    var s, e, next := SpanOf(exe, b);
    LeaderBehind(exe, b, s, e, next);
    EndAligned(exe, b, s, e, next);
    x :| IsLeader(exe, x) && b.startAddr < x <= b.endAddr + 4;
    LeadersAligned(exe, x);
    WordsOfImage(exe, x);
  }

  lemma EndAligned(exe: Exe, b: Block, s: nat, e: nat, next: int)
    requires IsValidExe(exe) && WordAligned(exe) && Spans(exe, b, s, e, next)
    ensures b.endAddr % 4 == 0 && exe.image.load <= b.startAddr <= b.endAddr < exe.image.Hi()
  {
    hide IsLeader, IsNextLeader, IsBlock, DecodedWord, BlockEnd;
    BlockFields(exe, b, s, e, next);
  }

  lemma WordAddress(exe: Exe, k: nat)
    requires IsValidExe(exe) && WordAligned(exe) && k < WordCount(exe)
    ensures exe.image.load <= AddressOf(exe, k) < exe.image.Hi() && AddressOf(exe, k) % 4 == 0
  {
  }

  /** Every word behind the start of the first block is in a block. */
  lemma WordsAreCovered(exe: Exe, blocks: seq<Block>, k: nat)
    requires IsValidExe(exe) && WordAligned(exe) && AreBlocks(exe, blocks)
    requires k < WordCount(exe) && blocks != [] && blocks[0].startAddr <= AddressOf(exe, k)
    ensures exists i :: 0 <= i < |blocks| && blocks[i].Contains(AddressOf(exe, k))
  {
    hide IsLeader, IsBuilt, IndexOf, AddressOf, IsValidExe, WordAligned, DistinctStarts;
    var a := AddressOf(exe, k);
    WordAddress(exe, k);
    var i := LastStart(blocks, a, |blocks|);
    assert IsBuilt(exe, blocks[i]);
    if a > blocks[i].endAddr {
      var x := GapHasLeader(exe, blocks[i], a);
      LeaderHasBlock(exe, blocks, x);
    } else {
      assert blocks[i].Contains(a);
    }
    hide AreBlocks;
  }

  lemma LeaderHasBlock(exe: Exe, blocks: seq<Block>, a: int)
    requires AreBlocks(exe, blocks) && IsLeader(exe, a) && IndexOf(exe, a).Some?
    ensures exists j :: 0 <= j < |blocks| && blocks[j].startAddr == a
  {
    hide IsBuilt, IsLeader, IndexOf;
  }

  /** Two blocks share no word, but for a delay slot that is also a leader: the last word of one and
      the first of the next. */
  lemma OverlapIsSlot(exe: Exe, blocks: seq<Block>, i: nat, j: nat, k: nat)
    requires IsValidExe(exe) && WordAligned(exe) && AreBlocks(exe, blocks)
    requires i < j < |blocks| && k < WordCount(exe)
    requires blocks[i].Contains(AddressOf(exe, k)) && blocks[j].Contains(AddressOf(exe, k))
    ensures j == i + 1 && blocks[i].hasDelaySlot
    ensures AddressOf(exe, k) == blocks[i].endAddr == blocks[i].delaySlotAddr == blocks[j].startAddr
  {
    hide IsLeader, IsBlock, IsBuilt, DecodedWord;
    var b := blocks[i];
    assert IsBuilt(exe, blocks[i]) && IsBuilt(exe, blocks[i + 1]);
    var s, e, next := SpanOf(exe, b);
    var s1, e1, next1 := SpanOf(exe, blocks[i + 1]);
    BlockFields(exe, b, s, e, next);
    ScanRuns(DecodeAll(exe), s, next, e);
    IndexOfWord(exe, e);
    assert blocks[i].startAddr < blocks[i + 1].startAddr <= blocks[j].startAddr;
    assert next <= blocks[i + 1].startAddr;
    hide IsNextLeader, AreBlocks;
    assert AddressOf(exe, e) < next;
    assert AddressOf(exe, k) >= next;
    assert k == e + 1;
  }

  /** Inside a block only the instruction before the delay slot transfers control, unless the slot
      does so too. */
  lemma OneTransfer(exe: Exe, b: Block, k: nat)
    requires IsValidExe(exe) && IsBuilt(exe, b) && k < WordCount(exe) && b.Contains(AddressOf(exe, k))
    requires DecodeAll(exe)[k].UsesSlot()
    ensures b.hasDelaySlot
    ensures b.delaySlotAddr != 0 ==> AddressOf(exe, k) in {b.delaySlotAddr - 4, b.delaySlotAddr} && b.delaySlotAddr == b.endAddr
    ensures b.delaySlotAddr == 0 ==> AddressOf(exe, k) == b.endAddr && k == WordCount(exe) - 1
  {
    hide IsLeader, IsNextLeader, IsBlock, IsBuilt, DecodedWord;
    var s, e, next := SpanOf(exe, b);
    BlockFields(exe, b, s, e, next);
    if k < e {
      ScanRuns(DecodeAll(exe), s, next, k);
    }
  }

  // ---- Edges ---------------------------------------------------------------------------------------

  /** The instruction at an address of the image. */
  function InstrAt(exe: Exe, a: int): R.Instr { R.Decode(a, Slots.CodeOf(exe.image, a)) }

  /** A block whose transfer has its delay slot inside the image, if it has a transfer. */
  predicate IsWhole(b: Block) { b.hasDelaySlot ==> b.delaySlotAddr != 0 }

  /** Where control can go from the block before the program runs. */
  function BlockExits(exe: Exe, b: Block): set<int> {
    if b.hasDelaySlot then StaticExits(InstrAt(exe, b.delaySlotAddr - 4), b.delaySlotAddr - 4)
    else {b.endAddr + 4}
  }

  lemma CodeIsDecoded(exe: Exe, i: nat)
    requires i < WordCount(exe)
    ensures DecodeAll(exe)[i] == DecodeAt(Slots.CodeOf(exe.image, AddressOf(exe, i)), AddressOf(exe, i))
  {
    hide DecodeAt;
  }

  lemma ExitsAreStatic(exe: Exe, w: U32, a: int, x: int)
    requires IsValidExe(exe) && InExe(exe, a) && DecodeAt(w, a).UsesSlot()
    ensures x in Exits(exe, DecodeAt(w, a), a + 8) <==> InExe(exe, x) && x in StaticExits(R.Decode(a, w), a)
  {
    DecoderAgrees(w, a);
    DecoderTargets(w, a);
    assert R.Wrap(a + 8) == a + 8;
    hide DecodeAt, R.Decode;
  }

  /** A whole block lists exactly the exits that lie inside the image. */
  lemma SuccessorsAreExits(exe: Exe, b: Block, x: int)
    requires IsValidExe(exe) && IsBuilt(exe, b) && IsWhole(b)
    ensures x in b.successors <==> InExe(exe, x) && x in BlockExits(exe, b)
  {
    hide IsLeader, IsNextLeader, IsBuilt, R.Decode, StaticExits, DecodeAt;
    var s, e, next := SpanOf(exe, b);
    BlockFields(exe, b, s, e, next);
    IndexOfWord(exe, e);
    CodeIsDecoded(exe, e);
    if b.hasDelaySlot {
      assert HasSlot(DecodeAll(exe), e);
      assert b.delaySlotAddr - 4 == AddressOf(exe, e);
      ExitsAreStatic(exe, Slots.CodeOf(exe.image, AddressOf(exe, e)), AddressOf(exe, e), x);
    }
    hide Exits, Shape, DecodedWord;
  }

  /** A branch or call that ends the image without its delay slot, alone in its block, is given the
      fall-through address 4; no other block has a successor outside the image. */
  lemma StraySuccessorIff(exe: Exe, b: Block)
    requires IsValidExe(exe) && IsBuilt(exe, b)
    ensures var last := DecodeAll(exe)[IndexOf(exe, b.startAddr).value];
            (exists x :: x in b.successors && !InExe(exe, x))
            <==> b.instrCount == 1 && !IsWhole(b) && (last.isBranch || last.IsJal())
  {
    hide IsLeader, IsNextLeader, IsBuilt;
    var s, e, next := SpanOf(exe, b);
    BlockFields(exe, b, s, e, next);
    IndexOfWord(exe, e);
    IndexOfWord(exe, s);
    if b.instrCount == 1 && !IsWhole(b) && (DecodeAll(exe)[s].isBranch || DecodeAll(exe)[s].IsJal()) {
      assert 4 in b.successors && !InExe(exe, 4);
    }
    hide DecodedWord, BlockEnd, Shape;
  }

  lemma ExitLeads(exe: Exe, e: nat, x: int)
    requires IsValidExe(exe) && e < WordCount(exe) && DecodeAll(exe)[e].UsesSlot()
    requires x in Exits(exe, DecodeAll(exe)[e], AddressOf(exe, e) + 8)
    ensures IsLeader(exe, x)
  {
    IndexOfWord(exe, e);
    hide DecodedWord;
    assert x in LeadersOf(exe, DecodeAll(exe)[e]);
  }

  /** The start of every block edge of a whole block is the start of a block. */
  lemma SuccessorsAreBlocks(exe: Exe, blocks: seq<Block>, i: nat, x: int)
    requires IsValidExe(exe) && WordAligned(exe) && AreBlocks(exe, blocks)
    requires i < |blocks| && IsWhole(blocks[i]) && x in blocks[i].successors
    ensures exists j :: 0 <= j < |blocks| && blocks[j].startAddr == x
  {
    var b := blocks[i];
    assert IsBuilt(exe, b);
    SuccessorLeads(exe, b, x);
    LeadersAligned(exe, x);
    WordsOfImage(exe, x);
    SuccessorsAreExits(exe, b, x);
    hide IsBuilt, IsLeader, InExe, IndexOf, BlockExits;
  }

  lemma SuccessorLeads(exe: Exe, b: Block, x: int)
    requires IsValidExe(exe) && WordAligned(exe) && IsBuilt(exe, b) && IsWhole(b) && x in b.successors
    ensures IsLeader(exe, x)
  {
    hide IsLeader, IsBuilt, IsNextLeader, IsBlock;
    var s, e, next := SpanOf(exe, b);
    BlockFields(exe, b, s, e, next);
    ListedExit(exe, b, s, e, next, x);
    if b.hasDelaySlot {
      ExitLeads(exe, e, x);
    } else {
      NextLeads(exe, b, s, e, next);
    }
    hide Exits, DecodedWord;
  }

  lemma ListedExit(exe: Exe, b: Block, s: nat, e: nat, next: int, x: int)
    requires IsValidExe(exe) && Spans(exe, b, s, e, next) && IsWhole(b) && x in b.successors
    ensures e < WordCount(exe)
    ensures if b.hasDelaySlot then DecodeAll(exe)[e].UsesSlot() && x in Exits(exe, DecodeAll(exe)[e], AddressOf(exe, e) + 8)
            else !DecodeAll(exe)[e].UsesSlot() && x == AddressOf(exe, e) + 4 < exe.image.Hi()
  {
    hide IsLeader, IsNextLeader, DecodedWord, Exits, Shape;
    BlockFields(exe, b, s, e, next);
    IndexOfWord(exe, e);
  }

  lemma NextLeads(exe: Exe, b: Block, s: nat, e: nat, next: int)
    requires IsValidExe(exe) && WordAligned(exe) && Spans(exe, b, s, e, next)
    requires e < WordCount(exe) && !DecodeAll(exe)[e].UsesSlot() && AddressOf(exe, e) + 4 < exe.image.Hi()
    ensures IsLeader(exe, AddressOf(exe, e) + 4)
  {
    hide IsLeader, IsNextLeader, IsBlock, DecodedWord;
    ScanRuns(DecodeAll(exe), s, next, e);
    LastHasNext(exe, e);
    IndexOfWord(exe, e + 1);
    StartsBefore(exe, b, s, e, next);
    LeadersAligned(exe, next);
    hide BlockEnd, IndexOf;
  }

  lemma StartsBefore(exe: Exe, b: Block, s: nat, e: nat, next: int)
    requires IsValidExe(exe) && WordAligned(exe) && Spans(exe, b, s, e, next)
    requires e + 1 < WordCount(exe) && AddressOf(exe, e + 1) >= next
    ensures IsLeader(exe, next) && AddressOf(exe, e) < next
  {
    hide IsLeader, IsBlock, DecodedWord;
    ScanRuns(DecodeAll(exe), s, next, e);
    IndexOfWord(exe, e);
    assert AddressOf(exe, e + 1) < exe.image.Hi();
  }

  lemma {:induction false} HitsAre(successors: seq<int>, k: nat, addr: int, start: int)
    requires k <= |successors| && Ascending(successors)
    ensures Hits(successors, k, addr, start) == if addr in successors[..k] then [start] else []
  {
    if k > 0 {
      HitsAre(successors, k - 1, addr, start);
      assert successors[..k] == successors[..k - 1] + [successors[k - 1]];
    }
  }

  ghost predicate IsSource(blocks: seq<Block>, addr: int, n: nat, p: int)
    requires n <= |blocks|
  {
    exists i :: 0 <= i < n && blocks[i].startAddr == p && addr in blocks[i].successors
  }

  lemma SourceOfLast(blocks: seq<Block>, addr: int, n: nat, p: int)
    requires 0 < n <= |blocks| && DistinctStarts(blocks)
    ensures var b := blocks[n - 1];
            && (IsSource(blocks, addr, n, p) <==> IsSource(blocks, addr, n - 1, p) || (addr in b.successors && p == b.startAddr))
            && (IsSource(blocks, addr, n - 1, p) ==> p < b.startAddr)
  {
  }

  lemma {:induction false} SourcesAre(blocks: seq<Block>, addr: int, n: nat)
    requires n <= |blocks| && DistinctStarts(blocks) && forall i :: 0 <= i < |blocks| ==> Ascending(blocks[i].successors)
    ensures Ascending(Sources(blocks, addr, n))
    ensures forall p :: p in Sources(blocks, addr, n) <==> IsSource(blocks, addr, n, p)
  {
    if n > 0 {
      var b := blocks[n - 1];
      SourcesAre(blocks, addr, n - 1);
      HitsAre(b.successors, |b.successors|, addr, b.startAddr);
      assert b.successors[..|b.successors|] == b.successors;
      forall p
        ensures IsSource(blocks, addr, n, p) <==> IsSource(blocks, addr, n - 1, p) || (addr in b.successors && p == b.startAddr)
        ensures IsSource(blocks, addr, n - 1, p) ==> p < b.startAddr
      {
        SourceOfLast(blocks, addr, n, p);
      }
      hide IsSource, Hits;
      var before := Sources(blocks, addr, n - 1);
      assert forall i :: 0 <= i < |before| ==> before[i] in before;
    }
  }

  lemma SuccessorsSorted(exe: Exe, b: Block)
    requires IsBuilt(exe, b)
    ensures Ascending(b.successors)
  {
    hide IsLeader, IsNextLeader, Shape, SuccessorSet;
  }

  /** Predecessor lists are the exact inverse of successor lists, without repetition. */
  lemma PredecessorsAreInverse(exe: Exe, blocks: seq<Block>, i: nat, j: nat)
    requires IsAnalysis(exe, blocks) && i < |blocks| && j < |blocks|
    ensures blocks[i].startAddr in blocks[j].predecessors <==> blocks[j].startAddr in blocks[i].successors
    ensures Ascending(blocks[j].predecessors)
    ensures forall p :: p in blocks[j].predecessors ==> exists k :: 0 <= k < |blocks| && blocks[k].startAddr == p
  {
    hide IsBuilt, IsLeader, Sources, IndexOf;
    forall k | 0 <= k < |blocks|
      ensures Ascending(blocks[k].successors)
    {
      SuccessorsSorted(exe, blocks[k]);
    }
    SourcesAre(blocks, blocks[j].startAddr, |blocks|);
  }

  lemma {:induction false} AscendingOnce(s: seq<int>, p: int)
    requires Ascending(s)
    ensures multiset(s)[p] == if p in s then 1 else 0
    decreases |s|
  {
    if s != [] {
      var n := |s| - 1;
      AscendingOnce(s[..n], p);
      assert s == s[..n] + [s[n]];
    }
  }

  /** Building predecessors once more, as the header asks callers to, lists each of them twice: the
      lists stay as they are promised exactly where there is no predecessor. */
  lemma SecondCallDoubles(exe: Exe, blocks: seq<Block>, again: seq<Block>, j: nat)
    requires IsAnalysis(exe, blocks) && EdgesAppended(blocks, again) && j < |blocks|
    ensures |again| == |blocks| && again[j].predecessors == blocks[j].predecessors + blocks[j].predecessors
    ensures forall p :: p in blocks[j].predecessors ==> multiset(again[j].predecessors)[p] == 2
    ensures Ascending(again[j].predecessors) <==> blocks[j].predecessors == []
  {
    PredecessorsAreInverse(exe, blocks, j, j);
    hide AreBlocks, Sources;
    var once, twice := blocks[j].predecessors, again[j].predecessors;
    forall p | p in once
      ensures multiset(twice)[p] == 2
    {
      AscendingOnce(once, p);
    }
    if once != [] {
      assert twice[0] == twice[|once|] == once[0];
    }
  }
}
