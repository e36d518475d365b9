/**
 Without the clean-slot condition a walk depends on its order: a branch target that is also the
 delay slot of a jump is swallowed when the jump is expanded first.
 */
module SwallowedTarget {
  import opened Wrappers
  import opened MipsWord
  import opened OverlayImage
  import opened FlowGraph
  import opened OverlayWalk

  /** 0: beq $0,$0,12   4: nop   8: j 20   12: nop   16: nop   20: jr $ra   24: nop */
  function ByteAt(i: int): U8 {
    if i == 0 then 0x02 else if i == 3 then 0x10
    else if i == 8 then 0x05 else if i == 11 then 0x08
    else if i == 20 then 0x08 else if i == 22 then 0xE0 else if i == 23 then 0x03
    else 0
  }

  const IMAGE := Image(seq(28, i => ByteAt(i)), 0, 28)

  /** img holds the seven words above. */
  predicate IsExample(img: Image) {
    && img.load == 0 && img.size == 28 && |img.data| == 28
    && WordAt(img, 0) == Some(0x1000_0002)
    && WordAt(img, 8) == Some(0x0800_0005)
    && WordAt(img, 12) == Some(0)
    && WordAt(img, 16) == Some(0)
    && WordAt(img, 20) == Some(0x03E0_0008)
  }

  /** What the queue order expands: 12 is marked as the slot of 8 before it is dequeued. */
  const QUEUE_ORDER := {0, 8, 20}

  const QUEUE_MARKS := {0, 4, 8, 12, 20, 24}

  /** What is expanded when 12 comes before 8, as in stack order. */
  const STACK_ORDER := {0, 8, 12, 16, 20}

  lemma WordOf(img: Image, a: int, b0: U8, b1: U8, b2: U8, b3: U8)
    requires img.load == 0 && 0 <= a && a + 4 <= |img.data|
    requires img.data[a] == b0 && img.data[a + 1] == b1 && img.data[a + 2] == b2 && img.data[a + 3] == b3
    ensures WordAt(img, a) == Some(LittleEndian(b0, b1, b2, b3))
  {
  }

  function ExampleWord(a: int): U32 {
    if a == 0 then 0x1000_0002 else if a == 8 then 0x0800_0005 else if a == 20 then 0x03E0_0008 else 0
  }

  lemma WordOfImage(img: Image, a: int)
    requires img == IMAGE && a in {0, 4, 8, 12, 16, 20, 24}
    ensures WordAt(img, a) == Some(ExampleWord(a))
  {
    WordOf(img, a, ByteAt(a), ByteAt(a + 1), ByteAt(a + 2), ByteAt(a + 3));
  }

  lemma ImageIsExample(img: Image)
    requires img == IMAGE
    ensures IsExample(img)
  {
    hide WordAt;
    WordOfImage(img, 0);
    WordOfImage(img, 8);
    WordOfImage(img, 12);
    WordOfImage(img, 16);
    WordOfImage(img, 20);
  }

  lemma Nodes(img: Image, a: int)
    requires img.load == 0 && img.size == 28 && |img.data| == 28
    ensures a in {0, 4, 8, 12, 16, 20, 24} <==> Expandable(img, 0, 28, a)
  {
    if 0 <= a < 28 && a % 4 == 0 {
      assert a == 4 * (a / 4);
    }
  }

  lemma Step(img: Image, a: int, w: U32, k: Cf)
    requires img.load == 0 && img.size == 28 && a in {0, 8, 12, 16, 20}
    requires WordAt(img, a) == Some(w) && ClassifyCf(a, w) == k
    requires k in {Normal, Branch(a + 12), Jump(a + 12), Return}
    ensures var g := OverlayFlow(img, 0, 28);
            && Emits(g, a) == {}
            && Slots(g, a) == (if k.Normal? then {} else {a + 4})
            && Succ(g, a) == match k { case Normal => {a + 4} case Branch(t) => {a + 8, t} case Jump(t) => {t} case _ => {} }
  {
    hide WordAt, ClassifyCf;
  }

  lemma Classified()
    ensures ClassifyCf(0, 0x1000_0002) == Branch(12)
    ensures ClassifyCf(8, 0x0800_0005) == Jump(20)
    ensures ClassifyCf(20, 0x03E0_0008) == Return
    ensures forall a :: ClassifyCf(a, 0) == Normal
  {
  }

  /** The graph of the example, as facts about an abstract graph. */
  ghost predicate IsExampleFlow(g: Flow) {
    && g.entry == 0
    && (forall a :: Node(g, a) <==> a in {0, 4, 8, 12, 16, 20, 24})
    && Succ(g, 0) == {8, 12} && Slots(g, 0) == {4}
    && Succ(g, 8) == {20} && Slots(g, 8) == {12}
    && Succ(g, 12) == {16} && Slots(g, 12) == {}
    && Succ(g, 16) == {20} && Slots(g, 16) == {}
    && Succ(g, 20) == {} && Slots(g, 20) == {24}
    && (forall a :: a in STACK_ORDER ==> Emits(g, a) == {})
  }

  lemma FlowOfExample(img: Image)
    requires IsExample(img)
    ensures IsExampleFlow(OverlayFlow(img, 0, 28))
  {
    hide WordAt, ClassifyCf;
    forall a
      ensures Node(OverlayFlow(img, 0, 28), a) <==> a in {0, 4, 8, 12, 16, 20, 24}
    {
      assert img.size == 28;
      Nodes(img, a);
      OverlayFlowNode(img, 0, 28, a);
    }
    Classified();
    Step(img, 0, 0x1000_0002, Branch(12));
    Step(img, 8, 0x0800_0005, Jump(20));
    Step(img, 12, 0, Normal);
    Step(img, 16, 0, Normal);
    Step(img, 20, 0x03E0_0008, Return);
    assert forall a :: a in STACK_ORDER ==> a == 0 || a == 8 || a == 12 || a == 16 || a == 20;
  }

  lemma BothOrders(g: Flow)
    requires IsExampleFlow(g)
    ensures Explored(g, QUEUE_ORDER, QUEUE_MARKS, {})
    ensures Explored(g, STACK_ORDER, {0, 4, 8, 12, 16, 20, 24}, {})
    ensures Reachable(g, 16) && !Clean(g)
  {
    EntryReachable(g);
    StepReachable(g, 0, 8);
    StepReachable(g, 0, 12);
    StepReachable(g, 12, 16);
    StepReachable(g, 8, 20);
    assert forall e :: e in QUEUE_ORDER ==> e == 0 || e == 8 || e == 20;
    assert forall e :: e in STACK_ORDER ==> e == 0 || e == 8 || e == 12 || e == 16 || e == 20;
    assert Marks(g, QUEUE_ORDER, QUEUE_MARKS);
    assert Marks(g, STACK_ORDER, {0, 4, 8, 12, 16, 20, 24});
    assert !Covers(g, 8, 12);
  }

  /** One word off the queue. */
  lemma Takes(img: Image, pc: int, w: U32, k: Cf, rest: seq<int>, visited: set<int>, next: seq<int>)
    requires img.load == 0 && img.size == 28 && |img.data| == 28 && pc in {0, 8, 20} && pc !in visited
    requires WordAt(img, pc) == Some(w) && ClassifyCf(pc, w) == k && k in {Branch(pc + 12), Jump(pc + 12), Return}
    requires pc == 20 <==> k.Return?
    requires next == match k { case Branch(t) => [pc + 8, t] case Jump(t) => [t] case _ => [] }
    ensures QueueWalk(img, 0, 28, [pc] + rest, visited, {}) == QueueWalk(img, 0, 28, rest + next, visited + {pc, pc + 4}, {})
  {
    hide WordAt, ClassifyCf, QueueWalk;
    assert visited + {pc} + {pc + 4} == visited + {pc, pc + 4};
    QueueTakes(img, 0, 28, pc, rest, visited, {}, rest + next, visited + {pc, pc + 4}, {});
  }

  lemma QueueTakesSlotFirst(img: Image)
    requires IsExample(img)
    ensures QueueWalk(img, 0, 28, [0], {}, {}) == (QUEUE_MARKS, {})
  {
    hide WordAt, ClassifyCf, QueueWalk;
    Classified();
    Takes(img, 0, 0x1000_0002, Branch(12), [], {}, [8, 12]);
    assert [0] + [] == [0] && [] + [8, 12] == [8, 12] && [8] + [12] == [8, 12];
    Takes(img, 8, 0x0800_0005, Jump(20), [12], {0, 4}, [20]);
    var unmarked: set<int> := {};
    assert unmarked + {0, 4} == {0, 4} && [12] + [20] == [12, 20];
    var marks := {0, 4} + {8, 12};
    QueueDrops(img, 0, 28, 12, [20], marks, {});
    Takes(img, 20, 0x03E0_0008, Return, [], marks, []);
    var none: seq<int> := [];
    assert [20] + none == [20] && none + none == none;
    assert marks + {20, 24} == QUEUE_MARKS;
    Drained(img, QUEUE_MARKS);
  }

  lemma Drained(img: Image, visited: set<int>)
    ensures QueueWalk(img, 0, 28, [], visited, {}) == (visited, {})
  {
  }

  lemma JumpsAreDirect(img: Image)
    requires img == IMAGE
    ensures NoRegisterJumps(img)
  {
    hide WordAt, ClassifyCf;
    forall a | InRegion(img, a)
      ensures !Kind(img, a).JumpRegister?
    {
      assert a == 4 * (a / 4);
      WordOfImage(img, a);
      Classified();
    }
  }

  /** Both are complete walks of the same function, they differ, and the queue order, which is the
      walker's own, misses the reachable instruction at 16. */
  lemma OrderMatters()
    ensures var g := OverlayFlow(IMAGE, 0, IMAGE.Hi());
            && Explored(g, QUEUE_ORDER, QUEUE_MARKS, {})
            && Explored(g, STACK_ORDER, {0, 4, 8, 12, 16, 20, 24}, {})
            && Reachable(g, 16) && !Clean(g)
    ensures NoRegisterJumps(IMAGE) && QueueWalk(IMAGE, 0, IMAGE.Hi(), [0], {}, {}) == (QUEUE_MARKS, {})
  {
    hide NoRegisterJumps, QueueWalk, Explored, Clean, Reachable, IsExample, OverlayFlow;
    ImageIsExample(IMAGE);
    JumpsAreDirect(IMAGE);
    FlowOfExample(IMAGE);
    BothOrders(OverlayFlow(IMAGE, 0, 28));
    QueueTakesSlotFirst(IMAGE);
  }
}
