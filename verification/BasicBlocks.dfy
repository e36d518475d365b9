/**
 Basic blocks of an executable (psxrecomp/recompiler/src/basic_block.cpp).
 */
module BasicBlocks {
  import opened Wrappers
  import opened MipsWord
  import opened OverlayImage
  import opened SortedSets
  import opened MipsDecoder
  import R = R3000

  datatype Block = Block(
    startAddr: int, endAddr: int,
    instrCount: nat,
    hasDelaySlot: bool, delaySlotAddr: int,
    successors: seq<int>, predecessors: seq<int>)
  {
    predicate Contains(addr: int) { startAddr <= addr <= endAddr }
  }

  predicate InExe(exe: Exe, a: int) { exe.image.load <= a < exe.image.Hi() }

  // ---- Leaders -------------------------------------------------------------------------------------

  /** The leaders an instruction gives rise to. */
  function LeadersOf(exe: Exe, x: Decoded): set<int> {
    if x.UsesSlot() then
      (if x.address + 8 < exe.image.Hi() then {x.address + 8} else {})
      + (if x.isBranch && x.branchTarget != 0 && InExe(exe, x.branchTarget) then {x.branchTarget} else {})
      + (if x.isJump && x.jumpTarget != 0 && InExe(exe, x.jumpTarget) then {x.jumpTarget} else {})
    else {}
  }

  ghost predicate LeaderBefore(exe: Exe, n: nat, a: int)
    requires n <= WordCount(exe)
  {
    a == exe.entryPoint || exists i :: 0 <= i < n && a in LeadersOf(exe, DecodeAll(exe)[i])
  }

  ghost predicate IsLeader(exe: Exe, a: int) { LeaderBefore(exe, WordCount(exe), a) }

  /** The first leader behind a, or the end of the image when there is none. */
  ghost predicate IsNextLeader(exe: Exe, a: int, next: int) {
    && (forall b :: IsLeader(exe, b) && b > a ==> next <= b)
    && (if exists b :: IsLeader(exe, b) && b > a then IsLeader(exe, next) && next > a else next == exe.image.Hi())
  }

  // ---- Blocks --------------------------------------------------------------------------------------

  /** Where the scan of a block stops, delay slot aside: at a transfer, at the end of the image, or
      before the next leader. */
  function BlockEnd(d: seq<Decoded>, i: nat, nextLeader: int): (e: nat)
    requires i < |d|
    ensures i <= e < |d|
    decreases |d| - i
  {
    if d[i].UsesSlot() || i + 1 == |d| || d[i + 1].address >= nextLeader then i
    else BlockEnd(d, i + 1, nextLeader)
  }

  predicate HasSlot(d: seq<Decoded>, e: nat)
    requires e < |d|
  {
    d[e].UsesSlot() && e + 1 < |d|
  }

  /** The last word of a block whose scan stops at e. */
  function LastWord(d: seq<Decoded>, e: nat): (l: nat)
    requires e < |d|
    ensures e <= l < |d|
  {
    if HasSlot(d, e) then e + 1 else e
  }

  /** The block from word s, before its edges are known. */
  function Shape(d: seq<Decoded>, s: nat, nextLeader: int): Block
    requires s < |d|
  {
    var e := BlockEnd(d, s, nextLeader);
    var l := LastWord(d, e);
    Block(d[s].address, d[l].address, l - s + 1, d[e].UsesSlot(), if HasSlot(d, e) then d[l].address else 0, [], [])
  }

  /** Where a transfer goes inside the image. */
  function Exits(exe: Exe, x: Decoded, after: int): set<int> {
    var behind := if after < exe.image.Hi() then {after} else {};
    if x.isBranch then behind + (if InExe(exe, x.branchTarget) then {x.branchTarget} else {})
    else if x.isJrRa then {}
    else if x.IsJal() then behind
    else if InExe(exe, x.jumpTarget) then {x.jumpTarget} else {}
  }

  /** A transfer without its delay slot at the end of the image: as the only word of a block its
      exits are computed from a delay slot at address 0; in a longer block it has none. */
  function SuccessorSet(exe: Exe, s: nat, nextLeader: int): set<int>
    requires s < WordCount(exe)
  {
    var d := DecodeAll(exe);
    var e := BlockEnd(d, s, nextLeader);
    if HasSlot(d, e) then Exits(exe, d[e], d[e].address + 8)
    else if d[e].UsesSlot() && e == s then Exits(exe, d[e], 4)
    else if d[e].address + 4 < exe.image.Hi() then {d[e].address + 4} else {}
  }

  function WithoutEdges(b: Block): Block { b.(successors := [], predecessors := []) }

  ghost predicate IsBlock(exe: Exe, b: Block, s: nat, nextLeader: int)
    requires s < WordCount(exe)
  {
    && WithoutEdges(b) == Shape(DecodeAll(exe), s, nextLeader)
    && SortedCopy(b.successors, SuccessorSet(exe, s, nextLeader))
  }

  /** The word index of an address, if a decoded word starts there. */
  function IndexOf(exe: Exe, a: int): (i: Option<nat>)
    ensures i.Some? ==> i.value < WordCount(exe) && AddressOf(exe, i.value) == a
  {
    var off := a - exe.image.load;
    if off % 4 == 0 && 0 <= off / 4 < WordCount(exe) then Some(off / 4) else None
  }

  ghost predicate IsIndex(exe: Exe, m: map<int, nat>) {
    forall a :: (a in m <==> IndexOf(exe, a).Some?) && (a in m ==> m[a] == IndexOf(exe, a).value)
  }

  ghost predicate IsBuilt(exe: Exe, b: Block) {
    && IsLeader(exe, b.startAddr) && IndexOf(exe, b.startAddr).Some?
    && exists next :: IsNextLeader(exe, b.startAddr, next) && IsBlock(exe, b, IndexOf(exe, b.startAddr).value, next)
  }

  /** One block per leader that starts a word, in address order. */
  ghost predicate AreBlocks(exe: Exe, blocks: seq<Block>) {
    && (forall i :: 0 <= i < |blocks| ==> IsBuilt(exe, blocks[i]))
    && DistinctStarts(blocks)
    && (forall a :: IsLeader(exe, a) && IndexOf(exe, a).Some? ==> exists i :: 0 <= i < |blocks| && blocks[i].startAddr == a)
  }

  // ---- Edges ---------------------------------------------------------------------------------------

  /** start, once for each of the first k successors that is addr. */
  function Hits(successors: seq<int>, k: nat, addr: int, start: int): seq<int>
    requires k <= |successors|
  {
    if k == 0 then []
    else Hits(successors, k - 1, addr, start) + if successors[k - 1] == addr then [start] else []
  }

  /** The starts of those of the first n blocks that list addr as a successor. */
  function Sources(blocks: seq<Block>, addr: int, n: nat): seq<int>
    requires n <= |blocks|
  {
    if n == 0 then []
    else
      var b := blocks[n - 1];
      Sources(blocks, addr, n - 1) + Hits(b.successors, |b.successors|, addr, b.startAddr)
  }

  /** The block list with predecessors appended. */
  ghost predicate EdgesAppended(before: seq<Block>, after: seq<Block>) {
    && |after| == |before|
    && forall j :: 0 <= j < |before| ==>
         after[j] == before[j].(predecessors := before[j].predecessors + Sources(before, before[j].startAddr, |before|))
  }

  ghost predicate DistinctStarts(blocks: seq<Block>) {
    forall i, j :: 0 <= i < j < |blocks| ==> blocks[i].startAddr < blocks[j].startAddr
  }

  class BasicBlockAnalyzer {
    const exe: Exe
    var decoded: seq<Decoded>
    var addrToIdx: map<int, nat>
    var blocks: seq<Block>
    var addrToBlock: map<int, nat>

    constructor (exe: Exe)
      ensures this.exe == exe && decoded == [] && blocks == [] && addrToIdx == map[] && addrToBlock == map[]
    {
      this.exe := exe;
      decoded, blocks, addrToIdx, addrToBlock := [], [], map[], map[];
    }

    ghost predicate HasDecoded()
      reads this
    {
      IsValidExe(exe) && decoded == DecodeAll(exe) && IsIndex(exe, addrToIdx)
    }

    method Decode()
      requires IsValidExe(exe)
      modifies this
      ensures HasDecoded() && blocks == old(blocks) && addrToBlock == old(addrToBlock)
    {
      decoded := DecodeExecutable(exe);
      addrToIdx := map[];
      for i := 0 to |decoded|
        invariant decoded == DecodeAll(exe) && blocks == old(blocks) && addrToBlock == old(addrToBlock)
        invariant forall a :: a in addrToIdx <==> IndexOf(exe, a).Some? && IndexOf(exe, a).value < i
        invariant forall a :: a in addrToIdx ==> addrToIdx[a] == IndexOf(exe, a).value
      {
        assert decoded[i].address == AddressOf(exe, i);
        assert IndexOf(exe, AddressOf(exe, i)) == Some(i);
        addrToIdx := addrToIdx[decoded[i].address := i];
      }
    }

    method FindLeaders() returns (leaders: seq<int>)
      requires HasDecoded()
      ensures Ascending(leaders)
      ensures forall a :: a in leaders <==> IsLeader(exe, a)
    {
      hide DecodedWord;
      var found := [exe.entryPoint];
      for i := 0 to |decoded|
        invariant forall a :: a in found <==> LeaderBefore(exe, i, a)
      {
        var x := decoded[i];
        ghost var known := found;
        if x.isBranch || x.isJump {
          var fallThrough := x.address + 8;
          if fallThrough < exe.image.Hi() {
            found := found + [fallThrough];
          }
          if x.isBranch && x.branchTarget != 0 && InExe(exe, x.branchTarget) {
            found := found + [x.branchTarget];
          }
          if x.isJump && x.jumpTarget != 0 && InExe(exe, x.jumpTarget) {
            found := found + [x.jumpTarget];
          }
        }
        assert forall a :: a in found <==> a in known || a in LeadersOf(exe, x);
        LeadersGrow(exe, i);
        hide LeadersOf, LeaderBefore;
      }
      leaders := Sorted(set a | a in found);
    }

    method ScanBlock(start: nat, nextLeader: int) returns (b: Block)
      requires HasDecoded() && start < |decoded| && nextLeader > decoded[start].address
      ensures b == Shape(decoded, start, nextLeader)
    {
      hide DecodedWord, DecodeAll, IsIndex;
      var d := decoded;
      b := Block(d[start].address, d[start].address, 0, false, 0, [], []);
      var inDelaySlot, blockEnded := false, false;
      var i := start;
      while i < |d| && !blockEnded
        invariant start <= i <= |d|
        invariant !blockEnded ==> b.instrCount == i - start
        invariant b.startAddr == d[start].address && b.successors == [] && b.predecessors == []
        invariant !inDelaySlot && !blockEnded ==>
          i < |d| && BlockEnd(d, i, nextLeader) == BlockEnd(d, start, nextLeader) && d[i].address < nextLeader
          && !b.hasDelaySlot && b.delaySlotAddr == 0
        invariant inDelaySlot && !blockEnded ==>
          i > start && BlockEnd(d, start, nextLeader) == i - 1 && d[i - 1].UsesSlot()
          && b.endAddr == d[i - 1].address && b.hasDelaySlot && b.delaySlotAddr == 0
        invariant blockEnded ==> b == Shape(d, start, nextLeader)
      {
        var x := d[i];
        if !inDelaySlot && x.address >= nextLeader && x.address != b.startAddr {
          break;
        }
        b := b.(endAddr := x.address, instrCount := b.instrCount + 1);
        if inDelaySlot {
          b := b.(delaySlotAddr := x.address);
          blockEnded := true;
          break;
        }
        if x.UsesSlot() {
          b := b.(hasDelaySlot := true);
          inDelaySlot := true;
          i := i + 1;
          continue;
        }
        if i + 1 < |d| {
          if d[i + 1].address >= nextLeader {
            blockEnded := true;
          }
        } else {
          blockEnded := true;
        }
        i := i + 1;
      }
    }

    /** The transfer that ends the block, where the analyzer looks for it. */
    method FindBranch(b: Block, ghost start: nat, ghost nextLeader: int) returns (branch: Option<Decoded>)
      requires HasDecoded() && start < |decoded| && b == Shape(decoded, start, nextLeader)
      ensures var e := BlockEnd(decoded, start, nextLeader);
              branch == if HasSlot(decoded, e) || (decoded[e].UsesSlot() && e == start) then Some(decoded[e]) else None
    {
      ghost var e := BlockEnd(decoded, start, nextLeader);
      IndexOfWord(exe, e);
      IndexOfWord(exe, LastWord(decoded, e));
      NoIndex(exe);
      SlotOwner(exe, e);
      hide DecodedWord, DecodeAll, BlockEnd, R.Wrap, IndexOf, AddressOf;
      branch := None;
      if b.hasDelaySlot && b.instrCount >= 2 {
        var branchAddr := R.Wrap(b.delaySlotAddr - 4);
        if branchAddr in addrToIdx {
          branch := Some(decoded[addrToIdx[branchAddr]]);
        }
      } else if b.endAddr in addrToIdx {
        var last := decoded[addrToIdx[b.endAddr]];
        if last.isBranch || last.isJump {
          branch := Some(last);
        }
      }
    }

    method FindSuccessors(b: Block, ghost start: nat, ghost nextLeader: int) returns (successors: seq<int>)
      requires HasDecoded() && start < |decoded| && b == Shape(decoded, start, nextLeader)
      ensures SortedCopy(successors, SuccessorSet(exe, start, nextLeader))
    {
      ghost var e := BlockEnd(decoded, start, nextLeader);
      IndexOfWord(exe, e);
      IndexOfWord(exe, LastWord(decoded, e));
      var branch := FindBranch(b, start, nextLeader);
      hide DecodedWord, DecodeAll, BlockEnd, IsIndex;
      var exits: seq<int> := [];
      if branch.Some? {
        var afterBranch := if b.hasDelaySlot then b.delaySlotAddr + 4 else b.endAddr + 4;
        exits := ListExits(branch.value, afterBranch);
      } else {
        var fallThrough := b.endAddr + 4;
        if fallThrough < exe.image.Hi() { exits := exits + [fallThrough]; }
      }
      hide Exits;
      successors := Sorted(set a | a in exits);
    }

    method ListExits(branch: Decoded, afterBranch: int) returns (exits: seq<int>)
      ensures forall a :: a in exits <==> a in Exits(exe, branch, afterBranch)
    {
      exits := [];
      if branch.isBranch {
        if afterBranch < exe.image.Hi() { exits := exits + [afterBranch]; }
        if InExe(exe, branch.branchTarget) { exits := exits + [branch.branchTarget]; }
      } else if branch.isJrRa {
      } else if branch.IsJal() {
        if afterBranch < exe.image.Hi() { exits := exits + [afterBranch]; }
      } else if InExe(exe, branch.jumpTarget) {
        exits := exits + [branch.jumpTarget];
      }
    }

    /** Reverses the edges; predecessors already present are kept. */
    method BuildPredecessors()
      requires DistinctStarts(blocks)
      modifies this`blocks
      ensures EdgesAppended(old(blocks), blocks)
    {
      hide DistinctStarts, MapsStarts, LinkedUpTo, Sources;
      var addrMap := IndexStarts();
      ghost var before := blocks;
      NothingLinked(before);
      for i := 0 to |blocks|
        invariant AllLinked(before, blocks, i, 0)
      {
        AddEdges(addrMap, i, before);
        AllLinkedNext(before, blocks, i);
      }
      AllEdgesAppended(before, blocks);
    }

    method IndexStarts() returns (addrMap: map<int, nat>)
      requires DistinctStarts(blocks)
      ensures MapsStarts(blocks, addrMap, |blocks|)
    {
      addrMap := map[];
      for i := 0 to |blocks|
        invariant MapsStarts(blocks, addrMap, i)
      {
        addrMap := addrMap[blocks[i].startAddr := i];
      }
    }

    /** Makes block i a predecessor of its successors. */
    method AddEdges(addrMap: map<int, nat>, i: nat, ghost before: seq<Block>)
      requires i < |blocks| && AllLinked(before, blocks, i, 0)
      requires DistinctStarts(before) && MapsStarts(before, addrMap, |before|)
      modifies this`blocks
      ensures |blocks| == |before| && AllLinked(before, blocks, i, |before[i].successors|)
    {
      LinkedKeeps(before, blocks, i, 0);
      var successors := blocks[i].successors;
      hide AllLinked, MapsStarts, DistinctStarts;
      for k := 0 to |successors|
        invariant |blocks| == |before| && successors == before[i].successors
        invariant AllLinked(before, blocks, i, k)
      {
        LinkedKeeps(before, blocks, i, k);
        if successors[k] in addrMap {
          var t := addrMap[successors[k]];
          MappedStart(before, addrMap, successors[k]);
          EdgeAdded(before, blocks, i, k, t);
          blocks := blocks[t := blocks[t].(predecessors := blocks[t].predecessors + [blocks[i].startAddr])];
        } else {
          UnmappedStart(before, addrMap, successors[k]);
          EdgeSkipped(before, blocks, i, k);
        }
      }
    }

    /** The state after an analysis. */
    ghost predicate Analyzed()
      reads this
    {
      HasDecoded() && IsAnalysis(exe, blocks) && MapsStarts(blocks, addrToBlock, |blocks|)
    }

    /** The block from word idx up to the next leader, with its successors. */
    method BuildBlock(idx: nat, nextLeader: int) returns (block: Block)
      requires HasDecoded() && idx < |decoded| && nextLeader > AddressOf(exe, idx)
      requires IsLeader(exe, AddressOf(exe, idx)) && IsNextLeader(exe, AddressOf(exe, idx), nextLeader)
      ensures IsBuilt(exe, block) && block.startAddr == AddressOf(exe, idx) && block.predecessors == []
    {
      hide IsLeader, IsNextLeader, IsBuilt, SuccessorSet;
      IndexOfWord(exe, idx);
      block := ScanBlock(idx, nextLeader);
      var successors := FindSuccessors(block, idx, nextLeader);
      block := block.(successors := successors);
      BlockIsBuilt(exe, block, idx, nextLeader);
    }

    method Analyze() returns (result: seq<Block>)
      requires IsValidExe(exe)
      modifies this
      ensures Analyzed() && result == blocks
    {
      hide IsBuilt, IsNextLeader, IsLeader, AreBlocks;
      blocks, addrToBlock := [], map[];
      Decode();
      var leaders := FindLeaders();
      for li := 0 to |leaders|
        invariant HasDecoded()
        invariant BlocksSoFar(exe, blocks, leaders, li)
        invariant MapsStarts(blocks, addrToBlock, |blocks|)
      {
        var start := leaders[li];
        var nextLeader := if li + 1 < |leaders| then leaders[li + 1] else exe.image.Hi();
        NextInOrder(exe, leaders, li);
        if start !in addrToIdx {
          LeaderSkipped(exe, blocks, leaders, li);
          continue;
        }
        var block := BuildBlock(addrToIdx[start], nextLeader);
        BlockBuilt(exe, blocks, leaders, li, block);
        StartMapped(blocks, addrToBlock, block);
        addrToBlock := addrToBlock[block.startAddr := |blocks|];
        blocks := blocks + [block];
        hide BlocksSoFar, MapsStarts;
      }
      ghost var raw, known := blocks, addrToBlock;
      AllBuilt(exe, blocks, leaders);
      BuildPredecessors();
      EdgesReversed(exe, raw, blocks, known);
      hide IsAnalysis, MapsStarts;
      result := blocks;
    }

    /** A block that contains the address, if there is one; the one that starts there, if there is
        one. */
    method FindBlock(addr: int) returns (b: Option<Block>)
      requires Analyzed()
      ensures b.None? <==> forall i :: 0 <= i < |blocks| ==> !blocks[i].Contains(addr)
      ensures b.Some? ==> b.value in blocks && b.value.Contains(addr)
      ensures forall i :: 0 <= i < |blocks| && blocks[i].startAddr == addr ==> b == Some(blocks[i])
    {
      hide AreBlocks, Sources;
      if addr in addrToBlock {
        StartsItself(exe, blocks, addrToBlock[addr]);
        return Some(blocks[addrToBlock[addr]]);
      }
      for i := 0 to |blocks|
        invariant forall j :: 0 <= j < i ==> !blocks[j].Contains(addr)
      {
        if blocks[i].Contains(addr) {
          return Some(blocks[i]);
        }
      }
      b := None;
    }
  }

  ghost predicate IsAnalysis(exe: Exe, blocks: seq<Block>) {
    && AreBlocks(exe, blocks)
    && forall j :: 0 <= j < |blocks| ==> blocks[j].predecessors == Sources(blocks, blocks[j].startAddr, |blocks|)
  }

  /** The blocks of the first n leaders. */
  ghost predicate BlocksSoFar(exe: Exe, blocks: seq<Block>, leaders: seq<int>, n: nat)
    requires n <= |leaders|
  {
    && (forall i :: 0 <= i < |blocks| ==> IsBuilt(exe, blocks[i]) && blocks[i].startAddr in leaders[..n] && blocks[i].predecessors == [])
    && DistinctStarts(blocks)
    && (forall a :: a in leaders[..n] && IndexOf(exe, a).Some? ==> exists i :: 0 <= i < |blocks| && blocks[i].startAddr == a)
  }

  lemma NextInOrder(exe: Exe, leaders: seq<int>, li: nat)
    requires IsValidExe(exe) && Ascending(leaders) && (forall a :: a in leaders <==> IsLeader(exe, a)) && li < |leaders|
    ensures var next := if li + 1 < |leaders| then leaders[li + 1] else exe.image.Hi();
            && IsLeader(exe, leaders[li])
            && IsNextLeader(exe, leaders[li], next)
            && (IndexOf(exe, leaders[li]).Some? ==> next > leaders[li])
    ensures leaders[..li + 1] == leaders[..li] + [leaders[li]]
    ensures forall a :: a in leaders[..li] ==> a < leaders[li]
  {
    hide IsLeader;
    assert leaders[li] in leaders;
    forall b | IsLeader(exe, b) && b > leaders[li]
      ensures li + 1 < |leaders| && leaders[li + 1] <= b
    {
      assert b in leaders;
      var j :| 0 <= j < |leaders| && leaders[j] == b;
      assert j > li;
    }
    if li + 1 < |leaders| {
      assert leaders[li + 1] in leaders;
      assert IsLeader(exe, leaders[li + 1]) && leaders[li + 1] > leaders[li];
    }
  }

  lemma LeaderSkipped(exe: Exe, blocks: seq<Block>, leaders: seq<int>, li: nat)
    requires li < |leaders| && BlocksSoFar(exe, blocks, leaders, li) && IndexOf(exe, leaders[li]).None?
    ensures BlocksSoFar(exe, blocks, leaders, li + 1)
  {
    hide IsBuilt;
    assert leaders[..li + 1] == leaders[..li] + [leaders[li]];
  }

  lemma BlockIsBuilt(exe: Exe, b: Block, s: nat, next: int)
    requires s < WordCount(exe) && IsLeader(exe, AddressOf(exe, s)) && IsNextLeader(exe, AddressOf(exe, s), next)
    requires IsBlock(exe, b, s, next)
    ensures IsBuilt(exe, b) && b.startAddr == AddressOf(exe, s)
  {
    IndexOfWord(exe, s);
    hide IsLeader, IsNextLeader, DecodeAll, SuccessorSet, AddressOf, IndexOf;
    ShapeStarts(exe, s, next);
    assert b.startAddr == WithoutEdges(b).startAddr;
    hide Shape;
  }

  lemma ShapeStarts(exe: Exe, s: nat, next: int)
    requires s < WordCount(exe)
    ensures Shape(DecodeAll(exe), s, next).startAddr == AddressOf(exe, s)
  {
    IndexOfWord(exe, s);
  }

  lemma BlockBuilt(exe: Exe, blocks: seq<Block>, leaders: seq<int>, li: nat, b: Block)
    requires li < |leaders| && BlocksSoFar(exe, blocks, leaders, li)
    requires forall a :: a in leaders[..li] ==> a < leaders[li]
    requires IsBuilt(exe, b) && b.startAddr == leaders[li] && b.predecessors == []
    ensures BlocksSoFar(exe, blocks + [b], leaders, li + 1)
    ensures forall i :: 0 <= i < |blocks| ==> blocks[i].startAddr < b.startAddr
  {
    hide IsBuilt, IndexOf;
    assert leaders[..li + 1] == leaders[..li] + [leaders[li]];
    forall a | a in leaders[..li + 1] && IndexOf(exe, a).Some?
      ensures exists i :: 0 <= i < |blocks + [b]| && (blocks + [b])[i].startAddr == a
    {
      if a in leaders[..li] {
        var i :| 0 <= i < |blocks| && blocks[i].startAddr == a;
        assert (blocks + [b])[i].startAddr == a;
      } else {
        assert (blocks + [b])[|blocks|].startAddr == a;
      }
    }
  }

  lemma StartMapped(blocks: seq<Block>, m: map<int, nat>, b: Block)
    requires MapsStarts(blocks, m, |blocks|)
    requires forall i :: 0 <= i < |blocks| ==> blocks[i].startAddr < b.startAddr
    ensures MapsStarts(blocks + [b], m[b.startAddr := |blocks|], |blocks| + 1)
  {
  }

  lemma AllBuilt(exe: Exe, blocks: seq<Block>, leaders: seq<int>)
    requires BlocksSoFar(exe, blocks, leaders, |leaders|)
    requires forall a :: a in leaders <==> IsLeader(exe, a)
    ensures AreBlocks(exe, blocks) && DistinctStarts(blocks)
    ensures forall i :: 0 <= i < |blocks| ==> blocks[i].predecessors == []
  {
    hide IsBuilt, IsLeader, IndexOf;
    assert leaders[..|leaders|] == leaders;
  }

  lemma {:induction false} SourcesIgnorePredecessors(a: seq<Block>, b: seq<Block>, addr: int, n: nat)
    requires |a| == |b| && n <= |a|
    requires forall j :: 0 <= j < |a| ==> a[j].successors == b[j].successors && a[j].startAddr == b[j].startAddr
    ensures Sources(a, addr, n) == Sources(b, addr, n)
  {
    if n > 0 {
      SourcesIgnorePredecessors(a, b, addr, n - 1);
    }
  }

  lemma EdgesReversed(exe: Exe, raw: seq<Block>, blocks: seq<Block>, m: map<int, nat>)
    requires AreBlocks(exe, raw) && EdgesAppended(raw, blocks) && MapsStarts(raw, m, |raw|)
    requires forall i :: 0 <= i < |raw| ==> raw[i].predecessors == []
    ensures IsAnalysis(exe, blocks) && MapsStarts(blocks, m, |blocks|)
  {
    hide IsLeader, IndexOf, Sources;
    forall j | 0 <= j < |blocks|
      ensures blocks[j].predecessors == Sources(blocks, blocks[j].startAddr, |blocks|)
      ensures IsBuilt(exe, blocks[j]) && blocks[j].startAddr == raw[j].startAddr
    {
      SourcesIgnorePredecessors(raw, blocks, raw[j].startAddr, |raw|);
      BuiltIgnoresPredecessors(exe, raw[j], blocks[j].predecessors);
      assert [] + Sources(raw, raw[j].startAddr, |raw|) == Sources(raw, raw[j].startAddr, |raw|);
      hide IsBuilt;
    }
    hide IsBuilt;
    forall a | IsLeader(exe, a) && IndexOf(exe, a).Some?
      ensures exists i :: 0 <= i < |blocks| && blocks[i].startAddr == a
    {
      var i :| 0 <= i < |raw| && raw[i].startAddr == a;
      assert blocks[i].startAddr == a;
    }
  }

  lemma BuiltIgnoresPredecessors(exe: Exe, b: Block, p: seq<int>)
    requires IsBuilt(exe, b)
    ensures IsBuilt(exe, b.(predecessors := p))
  {
    hide IsLeader, IndexOf, IsNextLeader, Shape, DecodeAll, SuccessorSet;
    var s := IndexOf(exe, b.startAddr).value;
    var next :| IsNextLeader(exe, b.startAddr, next) && IsBlock(exe, b, s, next);
    assert IsBlock(exe, b.(predecessors := p), s, next);
  }

  lemma StartsItself(exe: Exe, blocks: seq<Block>, i: nat)
    requires IsAnalysis(exe, blocks) && i < |blocks|
    ensures blocks[i].Contains(blocks[i].startAddr)
    ensures forall j :: 0 <= j < |blocks| && blocks[j].startAddr == blocks[i].startAddr ==> j == i
  {
    hide IsLeader, IsNextLeader, SuccessorSet, Sources;
    var b := blocks[i];
    var s := IndexOf(exe, b.startAddr).value;
    var next :| IsNextLeader(exe, b.startAddr, next) && IsBlock(exe, b, s, next);
    var l := LastWord(DecodeAll(exe), BlockEnd(DecodeAll(exe), s, next));
    IndexOfWord(exe, s);
    IndexOfWord(exe, l);
    assert WithoutEdges(b).endAddr == AddressOf(exe, l) && WithoutEdges(b).startAddr == AddressOf(exe, s);
  }

  /** What block i looked like before the edges of others were added to it. */
  lemma LinkedKeeps(before: seq<Block>, blocks: seq<Block>, i: nat, k: nat)
    requires AllLinked(before, blocks, i, k) && i < |before|
    ensures |blocks| == |before|
    ensures blocks[i].successors == before[i].successors && blocks[i].startAddr == before[i].startAddr
  {
    assert LinkedUpTo(before, blocks[i], i, i, k);
  }

  lemma UnmappedStart(blocks: seq<Block>, m: map<int, nat>, a: int)
    requires MapsStarts(blocks, m, |blocks|) && a !in m
    ensures forall j :: 0 <= j < |blocks| ==> blocks[j].startAddr != a
  {
  }

  lemma SlotOwner(exe: Exe, e: nat)
    requires IsValidExe(exe) && e < WordCount(exe)
    ensures e + 1 < WordCount(exe) ==> IndexOf(exe, R.Wrap(AddressOf(exe, e + 1) - 4)) == Some(e)
  {
  }

  lemma NoIndex(exe: Exe)
    requires IsValidExe(exe)
    ensures IndexOf(exe, R.Wrap(0 - 4)).None?
  {
  }

  ghost predicate MapsStarts(blocks: seq<Block>, m: map<int, nat>, n: nat)
    requires n <= |blocks|
  {
    && (forall j :: 0 <= j < n ==> blocks[j].startAddr in m)
    && (forall a :: a in m ==> m[a] < n && blocks[m[a]].startAddr == a)
  }

  lemma MappedStart(blocks: seq<Block>, m: map<int, nat>, a: int)
    requires MapsStarts(blocks, m, |blocks|) && a in m
    ensures m[a] < |blocks| && blocks[m[a]].startAddr == a
  {
  }

  ghost predicate AllLinked(before: seq<Block>, blocks: seq<Block>, i: nat, k: nat)
  {
    && |blocks| == |before| && i <= |before|
    && (k == 0 || (i < |before| && k <= |before[i].successors|))
    && forall j :: 0 <= j < |before| ==> LinkedUpTo(before, blocks[j], j, i, k)
  }

  lemma NothingLinked(before: seq<Block>)
    ensures AllLinked(before, before, 0, 0)
  {
  }

  lemma AllEdgesAppended(before: seq<Block>, blocks: seq<Block>)
    requires AllLinked(before, blocks, |before|, 0)
    ensures EdgesAppended(before, blocks)
  {
    hide Sources;
    forall j | 0 <= j < |before|
      ensures blocks[j] == before[j].(predecessors := before[j].predecessors + Sources(before, before[j].startAddr, |before|))
    {
      assert LinkedUpTo(before, blocks[j], j, |before|, 0);
      var s := Sources(before, before[j].startAddr, |before|);
      assert before[j].predecessors + s + [] == before[j].predecessors + s;
    }
  }

  lemma AllLinkedNext(before: seq<Block>, blocks: seq<Block>, i: nat)
    requires i < |before| && AllLinked(before, blocks, i, |before[i].successors|)
    ensures AllLinked(before, blocks, i + 1, 0)
  {
    forall j | 0 <= j < |before|
      ensures LinkedUpTo(before, blocks[j], j, i + 1, 0)
    {
      assert LinkedUpTo(before, blocks[j], j, i, |before[i].successors|);
      LinkedNext(before, blocks[j], j, i);
    }
  }

  lemma LinkedNext(before: seq<Block>, b: Block, j: nat, i: nat)
    requires i < |before| && j < |before| && LinkedUpTo(before, b, j, i, |before[i].successors|)
    ensures LinkedUpTo(before, b, j, i + 1, 0)
  {
    var addr := before[j].startAddr;
    var s := Sources(before, addr, i);
    var h := Hits(before[i].successors, |before[i].successors|, addr, before[i].startAddr);
    assert before[j].predecessors + s + h == before[j].predecessors + (s + h);
    assert before[j].predecessors + (s + h) + [] == before[j].predecessors + (s + h);
  }

  lemma EdgeAdded(before: seq<Block>, blocks: seq<Block>, i: nat, k: nat, t: nat)
    requires AllLinked(before, blocks, i, k) && DistinctStarts(before)
    requires i < |before| && k < |before[i].successors| && t < |before| && before[t].startAddr == before[i].successors[k]
    ensures AllLinked(before, blocks[t := blocks[t].(predecessors := blocks[t].predecessors + [blocks[i].startAddr])], i, k + 1)
  {
    var after := blocks[t := blocks[t].(predecessors := blocks[t].predecessors + [blocks[i].startAddr])];
    assert LinkedUpTo(before, blocks[i], i, i, k);
    forall j | 0 <= j < |before|
      ensures LinkedUpTo(before, after[j], j, i, k + 1)
    {
      assert LinkedUpTo(before, blocks[j], j, i, k);
      var h := Hits(before[i].successors, k, before[j].startAddr, before[i].startAddr);
      assert before[j].startAddr == before[t].startAddr <==> j == t;
      if j == t {
        assert blocks[j].predecessors + [before[i].startAddr]
            == before[j].predecessors + Sources(before, before[j].startAddr, i) + (h + [before[i].startAddr]);
      } else {
        assert h + [] == h;
      }
    }
  }

  lemma EdgeSkipped(before: seq<Block>, blocks: seq<Block>, i: nat, k: nat)
    requires AllLinked(before, blocks, i, k)
    requires i < |before| && k < |before[i].successors|
    requires forall j :: 0 <= j < |before| ==> before[j].startAddr != before[i].successors[k]
    ensures AllLinked(before, blocks, i, k + 1)
  {
    forall j | 0 <= j < |before|
      ensures LinkedUpTo(before, blocks[j], j, i, k + 1)
    {
      assert LinkedUpTo(before, blocks[j], j, i, k);
      var h := Hits(before[i].successors, k, before[j].startAddr, before[i].startAddr);
      assert h + [] == h;
    }
  }

  lemma LeadersGrow(exe: Exe, i: nat)
    requires i < WordCount(exe)
    ensures forall a :: LeaderBefore(exe, i + 1, a) <==> LeaderBefore(exe, i, a) || a in LeadersOf(exe, DecodeAll(exe)[i])
  {
    hide LeadersOf, DecodedWord;
  }

  lemma IndexOfWord(exe: Exe, i: nat)
    requires i < WordCount(exe)
    ensures IndexOf(exe, AddressOf(exe, i)) == Some(i)
    ensures DecodeAll(exe)[i].address == AddressOf(exe, i)
  {
  }

  /** Block j after the first i blocks, and the first k successors of block i, are linked. */
  ghost predicate LinkedUpTo(before: seq<Block>, b: Block, j: nat, i: nat, k: nat)
    requires j < |before| && i <= |before|
    requires k == 0 || (i < |before| && k <= |before[i].successors|)
  {
    b == before[j].(predecessors := before[j].predecessors + Sources(before, before[j].startAddr, i)
           + if k == 0 then [] else Hits(before[i].successors, k, before[j].startAddr, before[i].startAddr))
  }
}
