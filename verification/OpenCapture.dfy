/**
 Without the clean-slot condition the roots need not be closed under calls.  A root is walked while its
 cap is high; the walk marks an instruction as a delay slot and misses the call behind it.  A call it
 finds lowers the cap, the owner of the slot drops out of the function, and the final walk comes upon
 the other call, whose target nobody made a root.
 */
module OpenCapture {
  import opened Wrappers
  import opened MipsWord
  import opened OverlayImage
  import opened FlowGraph
  import opened OverlayWalk
  import opened Classifier

  /**  0: beq $0,$0,52    4: nop    8: jal 48   12: nop   16: j 28   20: nop
      24: j 40           28: nop   32: jal 60   36: nop   40: jr $ra   44: nop
      48: addiu $29,$29,-8   52: j 24   56: nop   60: addiu $29,$29,-8   64: jr $ra   68: nop */
  function BytesOf(a: int): (U8, U8, U8, U8) {
    if a == 0 then (0x0C, 0x00, 0x00, 0x10)
    else if a == 8 then (0x0C, 0x00, 0x00, 0x0C)
    else if a == 16 then (0x07, 0x00, 0x00, 0x08)
    else if a == 24 then (0x0A, 0x00, 0x00, 0x08)
    else if a == 32 then (0x0F, 0x00, 0x00, 0x0C)
    else if a == 40 then (0x08, 0x00, 0xE0, 0x03)
    else if a == 48 then (0xF8, 0xFF, 0xBD, 0x27)
    else if a == 52 then (0x06, 0x00, 0x00, 0x08)
    else if a == 60 then (0xF8, 0xFF, 0xBD, 0x27)
    else if a == 64 then (0x08, 0x00, 0xE0, 0x03)
    else (0, 0, 0, 0)
  }

  function ExampleWord(a: int): U32 {
    if a == 0 then 0x1000_000C else if a == 8 then 0x0C00_000C else if a == 16 then 0x0800_0007
    else if a == 24 then 0x0800_000A else if a == 32 then 0x0C00_000F else if a == 40 then 0x03E0_0008
    else if a == 48 then 0x27BD_FFF8 else if a == 52 then 0x0800_0006 else if a == 60 then 0x27BD_FFF8
    else if a == 64 then 0x03E0_0008 else 0
  }

  lemma WordOfBytes(a: int)
    ensures var b := BytesOf(a); LittleEndian(b.0, b.1, b.2, b.3) == ExampleWord(a)
  {
  }

  function ByteAt(i: nat): U8 {
    var b := BytesOf(i - i % 4);
    if i % 4 == 0 then b.0 else if i % 4 == 1 then b.1 else if i % 4 == 2 then b.2 else b.3
  }

  const IMAGE := Image(seq(72, i requires 0 <= i => ByteAt(i)), 0, 72)

  predicate IsWordOf(a: int) { 0 <= a < 72 && a % 4 == 0 }

  lemma WordIs(img: Image, a: int)
    requires img == IMAGE && IsWordOf(a)
    ensures WordAt(img, a) == Some(ExampleWord(a))
  {
    hide BytesOf, ByteAt, ExampleWord;
    BytesAt(a);
    WordOfBytes(a);
  }

  lemma BytesAt(a: nat)
    requires a % 4 == 0
    ensures (ByteAt(a), ByteAt(a + 1), ByteAt(a + 2), ByteAt(a + 3)) == BytesOf(a)
  {
    hide BytesOf;
  }

  function ExampleKind(a: int): Cf {
    if a == 0 then Branch(52) else if a == 8 then Call(48) else if a == 16 then Jump(28)
    else if a == 24 then Jump(40) else if a == 32 then Call(60) else if a == 52 then Jump(24)
    else if a == 40 || a == 64 then Return else Normal
  }

  lemma KindIs(img: Image, a: int)
    requires img == IMAGE && IsWordOf(a)
    ensures Kind(img, a) == ExampleKind(a) && WordAt(img, a).Some?
  {
    hide WordAt, ExampleKind, ExampleWord, ClassifyCf;
    WordIs(img, a);
    KindOfWord(a);
  }

  lemma KindOfWord(a: int)
    requires IsWordOf(a)
    ensures ClassifyCf(a, ExampleWord(a)) == ExampleKind(a)
  {
  }

  lemma CallsAre(img: Image, a: int)
    requires img == IMAGE && IsWordOf(a)
    ensures CallTargets(img, a) == if a == 8 then {48} else if a == 32 then {60} else {}
  {
    hide Kind, WordAt, ExampleWord, CallableSeed;
    KindIs(img, a);
    CalleesAreCallable(img);
  }

  lemma CalleesAreCallable(img: Image)
    requires img == IMAGE
    ensures CallableSeed(img, 0) && CallableSeed(img, 48) && CallableSeed(img, 60)
  {
    hide WordAt, IsValidMipsWord, IsJrRa, IsAddiuSpNegative, IsControlFlow;
    WordIs(img, 0);
    WordIs(img, 48);
    WordIs(img, 40);
    WordIs(img, 60);
    WordIs(img, 56);
    CalleeWords();
  }

  lemma CalleeWords()
    ensures IsValidMipsWord(Some(0x1000_000C)) && IsValidMipsWord(Some(0x27BD_FFF8))
    ensures IsJrRa(Some(0x03E0_0008)) && IsAddiuSpNegative(Some(0x27BD_FFF8)) && !IsControlFlow(Some(0))
  {
  }

  lemma JumpsAreDirect(img: Image)
    requires img == IMAGE
    ensures NoRegisterJumps(img)
  {
    hide Kind, WordAt, ExampleWord;
    forall a | InRegion(img, a)
      ensures !Kind(img, a).JumpRegister?
    {
      KindIs(img, a);
    }
  }

  // ---- The three walks -----------------------------------------------------------------------------

  /** One word off the queue. */
  lemma Takes(img: Image, entry: int, hardCap: int, pc: int, rest: seq<int>, visited: set<int>, calls: set<int>,
              work: seq<int>, more: set<int>, found: set<int>)
    requires img == IMAGE && IsWordOf(pc) && 0 <= entry <= pc < hardCap <= 72 && pc !in visited
    requires work == rest + ExampleQueue(entry, hardCap, pc)
    requires more == visited + {pc} + (if ExampleKind(pc).Normal? || pc + 4 >= hardCap then {} else {pc + 4})
    requires found == calls + if pc == 8 then {48} else if pc == 32 then {60} else {}
    ensures QueueWalk(img, entry, hardCap, [pc] + rest, visited, calls) == QueueWalk(img, entry, hardCap, work, more, found)
  {
    hide Kind, WordAt, ExampleWord, CallTargets, QueueWalk;
    KindIs(img, pc);
    CallsAre(img, pc);
    QueueIs(img, entry, hardCap, pc);
    QueueTakes(img, entry, hardCap, pc, rest, visited, calls, work, more, found);
  }

  function Inside(entry: int, hardCap: int, a: int): seq<int> { if entry <= a < hardCap then [a] else [] }

  function ExampleQueue(entry: int, hardCap: int, pc: int): seq<int> {
    match ExampleKind(pc)
    case Normal => Inside(entry, hardCap, pc + 4)
    case Branch(t) => Inside(entry, hardCap, pc + 8) + Inside(entry, hardCap, t)
    case Jump(t) => Inside(entry, hardCap, t)
    case Call(_) => Inside(entry, hardCap, pc + 8)
    case _ => []
  }

  lemma QueueIs(img: Image, entry: int, hardCap: int, pc: int)
    requires img == IMAGE && IsWordOf(pc) && 0 <= entry && hardCap <= 72
    ensures QueuedBy(img, entry, hardCap, pc) == ExampleQueue(entry, hardCap, pc)
  {
    hide Kind, WordAt, ExampleWord;
    KindIs(img, pc);
  }

  const FIRST_MARKS := {0, 4, 8, 12, 16, 20, 24, 28, 40, 44, 52, 56}
  const FINAL_MARKS := {0, 4, 8, 12, 16, 20, 28, 32, 36, 40, 44}
  const CALLEE_MARKS := {48, 52, 56}

  lemma FirstHalf(img: Image)
    requires img == IMAGE
    ensures QueueWalk(img, 0, 72, [0], {}, {}) == QueueWalk(img, 0, 72, [16, 24], {0, 4, 8, 12, 52, 56}, {48})
  {
    hide QueueWalk;
    Takes(img, 0, 72, 0, [], {}, {}, [8, 52], {0, 4}, {});
    assert [0] + [] == [0] && [8] + [52] == [8, 52];
    Takes(img, 0, 72, 8, [52], {0, 4}, {}, [52, 16], {0, 4, 8, 12}, {48});
    assert [52] + [16] == [52, 16];
    Takes(img, 0, 72, 52, [16], {0, 4, 8, 12}, {48}, [16, 24], {0, 4, 8, 12, 52, 56}, {48});
  }

  lemma SecondHalf(img: Image)
    requires img == IMAGE
    ensures QueueWalk(img, 0, 72, [16, 24], {0, 4, 8, 12, 52, 56}, {48}) == (FIRST_MARKS, {48})
  {
    hide QueueWalk;
    assert [16] + [24] == [16, 24];
    Takes(img, 0, 72, 16, [24], {0, 4, 8, 12, 52, 56}, {48}, [24, 28], {0, 4, 8, 12, 16, 20, 52, 56}, {48});
    assert [24] + [28] == [24, 28];
    Takes(img, 0, 72, 24, [28], {0, 4, 8, 12, 16, 20, 52, 56}, {48}, [28, 40], {0, 4, 8, 12, 16, 20, 24, 28, 52, 56}, {48});
    assert [28] + [40] == [28, 40];
    QueueDrops(img, 0, 72, 28, [40], {0, 4, 8, 12, 16, 20, 24, 28, 52, 56}, {48});
    Takes(img, 0, 72, 40, [], {0, 4, 8, 12, 16, 20, 24, 28, 52, 56}, {48}, [], FIRST_MARKS, {48});
    assert [40] + [] == [40];
    QueueEnds(img, 0, 72, FIRST_MARKS, {48});
  }

  /** Up to the end of the region: 28 is marked as the slot of 24 and never expanded. */
  lemma FirstWalk(img: Image)
    requires img == IMAGE
    ensures QueueWalk(img, 0, 72, [0], {}, {}) == (FIRST_MARKS, {48})
  {
    hide QueueWalk;
    FirstHalf(img);
    SecondHalf(img);
  }

  lemma QueueEnds(img: Image, entry: int, hardCap: int, visited: set<int>, calls: set<int>)
    ensures QueueWalk(img, entry, hardCap, [], visited, calls) == (visited, calls)
  {
  }

  lemma FinalHalf(img: Image)
    requires img == IMAGE
    ensures QueueWalk(img, 0, 48, [0], {}, {}) == QueueWalk(img, 0, 48, [28], {0, 4, 8, 12, 16, 20}, {48})
  {
    hide QueueWalk;
    Takes(img, 0, 48, 0, [], {}, {}, [8], {0, 4}, {});
    assert [0] + [] == [0] && [8] + [] == [8];
    Takes(img, 0, 48, 8, [], {0, 4}, {}, [16], {0, 4, 8, 12}, {48});
    assert [16] + [] == [16];
    Takes(img, 0, 48, 16, [], {0, 4, 8, 12}, {48}, [28], {0, 4, 8, 12, 16, 20}, {48});
  }

  /** Up to the root at 48: 52 and therefore 24 are out of reach, and 28 leads to the call at 32. */
  lemma FinalWalk(img: Image)
    requires img == IMAGE
    ensures QueueWalk(img, 0, 48, [0], {}, {}) == (FINAL_MARKS, {48, 60})
  {
    hide QueueWalk;
    FinalHalf(img);
    assert [28] + [] == [28];
    Takes(img, 0, 48, 28, [], {0, 4, 8, 12, 16, 20}, {48}, [32], {0, 4, 8, 12, 16, 20, 28}, {48});
    assert [32] + [] == [32];
    Takes(img, 0, 48, 32, [], {0, 4, 8, 12, 16, 20, 28}, {48}, [40], {0, 4, 8, 12, 16, 20, 28, 32, 36}, {48, 60});
    assert [40] + [] == [40];
    Takes(img, 0, 48, 40, [], {0, 4, 8, 12, 16, 20, 28, 32, 36}, {48, 60}, [], FINAL_MARKS, {48, 60});
    QueueEnds(img, 0, 48, FINAL_MARKS, {48, 60});
  }

  lemma CalleeWalk(img: Image)
    requires img == IMAGE
    ensures QueueWalk(img, 48, 72, [48], {}, {}) == (CALLEE_MARKS, {})
  {
    hide QueueWalk;
    Takes(img, 48, 72, 48, [], {}, {}, [52], {48}, {});
    assert [48] + [] == [48] && [52] + [] == [52];
    Takes(img, 48, 72, 52, [], {48}, {}, [], CALLEE_MARKS, {});
    QueueEnds(img, 48, 72, CALLEE_MARKS, {});
  }

  // ---- The capture ---------------------------------------------------------------------------------

  /** The one declared entry is the start of the region. */
  const CAPTURE := Capture({}, {}, {}, {0}, {}, true)

  const CONTEXT := Context(IMAGE, CAPTURE, {}, 0, 0)

  const INCLUDED: map<int, Reason> := map[0 := TomlDeclaredEntry, 48 := DirectJalTarget]

  const ROOTS := {0, 48}

  lemma IncludedIsConsistent(c: Context)
    requires c == CONTEXT
    ensures Consistent(c, INCLUDED, ROOTS)
  {
    hide CallableSeed, Kind, WordAt;
    CalleesAreCallable(c.img);
  }

  lemma NoLabels(img: Image, first: WalkResult)
    requires img == IMAGE && IsWalk(img, 0, 72, first) && first.tableTargets == {}
    ensures AreTableLabels(img, CAPTURE, {})
  {
    hide IsWalk, WordAt, CallableSeed;
    assert PreRoots(img, CAPTURE) == {0};
    var walks := map[0 := first];
    assert IsCap(img, {0}, 0, 72);
    assert IsRootWalk(img, {0}, 0, first);
    assert AreRootWalks(img, {0}, walks);
    assert TableLabels(walks) == {};
  }

  lemma CallsOfFirstWalks(img: Image, first: WalkResult, callee: WalkResult)
    requires img == IMAGE && IsWalk(img, 0, 72, first) && IsWalk(img, 48, 72, callee)
    requires first.directCalls == {48} && callee.directCalls == {}
    ensures CallsAreRoots(img, ROOTS, ROOTS)
  {
    hide IsWalk;
    assert CapCovers(img, ROOTS, 0, 72) && CapCovers(img, ROOTS, 48, 72);
    assert first.directCalls <= ROOTS && callee.directCalls <= ROOTS;
  }

  lemma FinalRootWalks(img: Image, final: WalkResult, callee: WalkResult)
    requires img == IMAGE && IsWalk(img, 0, 48, final) && IsWalk(img, 48, 72, callee)
    ensures AreRootWalks(img, ROOTS, map[0 := final, 48 := callee])
  {
    hide IsWalk;
    assert IsCap(img, ROOTS, 0, 48) && IsCap(img, ROOTS, 48, 72);
    assert IsRootWalk(img, ROOTS, 0, final) && IsRootWalk(img, ROOTS, 48, callee);
  }

  /** A classified state of this capture, all its walks in queue order, in which the final walk of the
      root at 0 finds a callable call target that is no root. */
  lemma RootsCanBeOpen() returns (first: WalkResult, walks: map<int, WalkResult>)
    ensures walks.Keys == ROOTS && Classified(CONTEXT, INCLUDED, map[], ROOTS, walks)
    ensures AreTableLabels(IMAGE, CAPTURE, {}) && NoRegisterJumps(IMAGE)
    ensures IsWalk(IMAGE, 0, 72, first) && first.directCalls == {48}
    ensures (first.visited, first.directCalls) == QueueWalk(IMAGE, 0, 72, [0], {}, {})
    ensures (walks[0].visited, walks[0].directCalls) == QueueWalk(IMAGE, 0, 48, [0], {}, {})
    ensures (walks[48].visited, walks[48].directCalls) == QueueWalk(IMAGE, 48, 72, [48], {}, {})
    ensures 60 in walks[0].directCalls && 60 !in ROOTS && InRegion(IMAGE, 60) && CallableSeed(IMAGE, 60)
  {
    var img := IMAGE;
    hide IsWalk, QueueWalk, Consistent, CallsAreRoots, AreRootWalks, AreTableLabels, CallableSeed, OwnedByOne, NoRegisterJumps, ExclusionReason;
    JumpsAreDirect(img);
    FirstWalk(img);
    FinalWalk(img);
    CalleeWalk(img);
    CalleesAreCallable(img);
    first := QueueWalkIsWalk(img, 0, 72);
    var final := QueueWalkIsWalk(img, 0, 48);
    var callee := QueueWalkIsWalk(img, 48, 72);
    walks := map[0 := final, 48 := callee];
    IncludedIsConsistent(CONTEXT);
    NoLabels(img, first);
    CallsOfFirstWalks(img, first, callee);
    FinalRootWalks(img, final, callee);
    assert Candidates(img, CAPTURE) == {0};
    assert 60 in {48, 60};
  }
}
