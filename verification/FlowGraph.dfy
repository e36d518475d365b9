/**
 Exploration of a control-flow graph in which expanding an instruction also marks its delay slot.

 Three worklist walkers of the repository share this shape: the queue-order overlay walker and
 the two stack-order BIOS walkers.  They all mark a delay slot visited without expanding it, so
 a slot that is also a branch target is never expanded on its own.
 */
module FlowGraph {

  /** What a walker sees: where it may expand, where control goes next, which delay slots it
      marks along with an instruction, and what it records about it. */
  datatype Flow = Flow(
    entry: int,
    node: int -> bool,
    succ: int -> set<int>,
    slots: int -> set<int>,
    emits: int -> set<int>)

  ghost predicate Node(g: Flow, a: int) {
    g.node(a)
  }

  ghost function Succ(g: Flow, a: int): set<int> {
    g.succ(a)
  }

  ghost function Slots(g: Flow, a: int): set<int> {
    g.slots(a)
  }

  ghost function Emits(g: Flow, a: int): set<int> {
    g.emits(a)
  }

  /** A path of expandable addresses from the entry. */
  ghost predicate IsPath(g: Flow, p: seq<int>) {
    && |p| > 0
    && p[0] == g.entry
    && (forall i :: 0 <= i < |p| ==> Node(g, p[i]))
    && (forall i :: 0 < i < |p| ==> p[i] in Succ(g, p[i - 1]))
  }

  ghost predicate Reachable(g: Flow, a: int) {
    exists p :: IsPath(g, p) && p[|p| - 1] == a
  }

  /** a is the delay slot of a reachable instruction. */
  ghost predicate ReachableSlot(g: Flow, a: int) {
    exists e :: Reachable(g, e) && a in Slots(g, e)
  }

  ghost predicate ReachableEmit(g: Flow, f: int) {
    exists e :: Reachable(g, e) && f in Emits(g, e)
  }

  /** Every address of found was recorded by some address of expanded, and conversely. */
  ghost predicate Records(g: Flow, expanded: set<int>, found: set<int>) {
    && (forall e, f :: e in expanded && f in Emits(g, e) ==> f in found)
    && (forall f :: f in found ==> exists e :: e in expanded && f in Emits(g, e))
  }

  /** The visited set is made of the expanded addresses and of their delay slots. */
  ghost predicate Marks(g: Flow, expanded: set<int>, visited: set<int>) {
    && expanded <= visited
    && (forall e, s :: e in expanded && s in Slots(g, e) ==> s in visited)
    && (forall v :: v in visited && v !in expanded ==> exists e :: e in expanded && v in Slots(g, e))
  }

  /** What holds at every step of a worklist walk, in any order. */
  ghost predicate Exploring(g: Flow, work: seq<int>, expanded: set<int>, visited: set<int>, found: set<int>) {
    && (forall e :: e in expanded ==> Reachable(g, e))
    && Marks(g, expanded, visited)
    && Records(g, expanded, found)
    && (forall a :: a in work && Node(g, a) ==> Reachable(g, a))
    && (Node(g, g.entry) ==> g.entry in visited || g.entry in work)
    && (forall e, b :: e in expanded && b in Succ(g, e) && Node(g, b) ==> b in visited || b in work)
  }

  /** What a finished walk has computed, whatever its order was. */
  ghost predicate Explored(g: Flow, expanded: set<int>, visited: set<int>, found: set<int>) {
    Exploring(g, [], expanded, visited, found)
  }

  /** The clean-slot condition: a delay slot that is reached as an instruction in its own right
      leads nowhere its owner does not lead, and has nothing of its own to mark or record. */
  ghost predicate Clean(g: Flow) {
    forall e, s :: Reachable(g, e) && s in Slots(g, e) && Reachable(g, s) ==>
      Slots(g, s) == {} && Emits(g, s) == {} && Covers(g, e, s)
  }

  ghost predicate Covers(g: Flow, e: int, s: int) {
    forall b :: b in Succ(g, s) && Node(g, b) ==> b in Succ(g, e)
  }

  /** g is the part of h that lies inside g's own nodes. */
  ghost predicate Restricts(g: Flow, h: Flow) {
    && g.entry == h.entry
    && (forall a :: Node(g, a) ==> Node(h, a))
    && (forall a, b :: Node(g, b) ==> (b in Succ(g, a) <==> b in Succ(h, a)))
    && (forall a :: Slots(g, a) <= Slots(h, a))
    && (forall a :: Emits(g, a) <= Emits(h, a))
  }

  lemma EntryReachable(g: Flow)
    requires Node(g, g.entry)
    ensures Reachable(g, g.entry)
  {
    assert IsPath(g, [g.entry]);
  }

  lemma StepReachable(g: Flow, a: int, b: int)
    requires Reachable(g, a) && b in Succ(g, a) && Node(g, b)
    ensures Reachable(g, b)
  {
    var p :| IsPath(g, p) && p[|p| - 1] == a;
    var q := p + [b];
    forall i | 0 < i < |q|
      ensures q[i] in Succ(g, q[i - 1])
    {
      if i < |p| {
        assert p[i] in Succ(g, p[i - 1]);
      }
    }
    assert IsPath(g, q);
  }

  /** Soundness holds of every walk, clean or not: nothing outside the reachable instructions and
      their delay slots is ever visited, and nothing is recorded that they do not record. */
  lemma WalkIsSound(g: Flow, expanded: set<int>, visited: set<int>, found: set<int>)
    requires Explored(g, expanded, visited, found)
    ensures forall v :: v in visited ==> Reachable(g, v) || ReachableSlot(g, v)
    ensures forall f :: f in found ==> ReachableEmit(g, f)
  {
  }

  /** Along a path, every instruction is visited; if it was not expanded, it is the slot of an
      expanded one. */
  lemma {:induction false} PathIsVisited(
      g: Flow, expanded: set<int>, visited: set<int>, found: set<int>, p: seq<int>, i: nat)
    requires Explored(g, expanded, visited, found) && Clean(g)
    requires IsPath(g, p) && i < |p|
    ensures p[i] in visited && Reachable(g, p[i])
  {
    if i == 0 {
      EntryReachable(g);
    } else {
      var a, b := p[i - 1], p[i];
      PathIsVisited(g, expanded, visited, found, p, i - 1);
      StepReachable(g, a, b);
      if a !in expanded {
        var e :| e in expanded && a in Slots(g, e);
        assert Covers(g, e, a);
      }
    }
  }

  /** Under the clean-slot condition the result does not depend on the order of the walk: it
      visits exactly the reachable instructions and their slots and records exactly their facts. */
  lemma WalkIsExact(g: Flow, expanded: set<int>, visited: set<int>, found: set<int>)
    requires Explored(g, expanded, visited, found) && Clean(g)
    ensures forall v :: v in visited <==> Reachable(g, v) || ReachableSlot(g, v)
    ensures forall f :: f in found <==> ReachableEmit(g, f)
  {
    forall a | Reachable(g, a)
      ensures a in visited
      ensures forall s :: s in Slots(g, a) ==> s in visited
      ensures forall f :: f in Emits(g, a) ==> f in found
    {
      var p :| IsPath(g, p) && p[|p| - 1] == a;
      PathIsVisited(g, expanded, visited, found, p, |p| - 1);
      if a !in expanded {
        var e :| e in expanded && a in Slots(g, e);
        assert Reachable(g, e);
      }
    }
  }

  /** Any two walks of the same clean graph compute the same sets. */
  lemma WalkOrderIrrelevant(g: Flow, x1: set<int>, v1: set<int>, f1: set<int>, x2: set<int>, v2: set<int>, f2: set<int>)
    requires Explored(g, x1, v1, f1) && Explored(g, x2, v2, f2) && Clean(g)
    ensures v1 == v2 && f1 == f2
  {
    WalkIsExact(g, x1, v1, f1);
    WalkIsExact(g, x2, v2, f2);
    assert forall v :: v in v1 <==> v in v2;
    assert forall f :: f in f1 <==> f in f2;
  }

  lemma RestrictionIsMonotone(g: Flow, h: Flow, a: int)
    requires Restricts(g, h) && Reachable(g, a)
    ensures Reachable(h, a)
  {
    var p :| IsPath(g, p) && p[|p| - 1] == a;
    forall i | 0 <= i < |p|
      ensures Node(h, p[i])
      ensures 0 < i ==> p[i] in Succ(h, p[i - 1])
    {
      assert Node(g, p[i]);
    }
    assert IsPath(h, p);
  }

  /** The walk is monotone: what any walk of the smaller graph records, every walk of the larger
      clean graph has recorded too. */
  lemma RecordsAreMonotone(g: Flow, h: Flow, xg: set<int>, vg: set<int>, fg: set<int>, xh: set<int>, vh: set<int>, fh: set<int>)
    requires Restricts(g, h) && Clean(h)
    requires Explored(g, xg, vg, fg) && Explored(h, xh, vh, fh)
    ensures fg <= fh && vg <= vh
  {
    WalkIsSound(g, xg, vg, fg);
    WalkIsExact(h, xh, vh, fh);
    forall f | f in fg
      ensures f in fh
    {
      var e :| Reachable(g, e) && f in Emits(g, e);
      RestrictionIsMonotone(g, h, e);
      assert Emits(g, e) <= Emits(h, e);
      assert ReachableEmit(h, f);
    }
    forall v | v in vg
      ensures v in vh
    {
      if Reachable(g, v) {
        RestrictionIsMonotone(g, h, v);
      } else {
        var e :| Reachable(g, e) && v in Slots(g, e);
        RestrictionIsMonotone(g, h, e);
        assert Slots(g, e) <= Slots(h, e);
      }
    }
  }

  // ---- Steps of a walk, used by the walkers -------------------------------------------------

  lemma ExploringStarts(g: Flow)
    ensures Exploring(g, [g.entry], {}, {}, {})
  {
    if Node(g, g.entry) {
      EntryReachable(g);
    }
  }

  /** Dropping an address that was visited before or cannot be expanded. */
  lemma ExploringSkips(g: Flow, work: seq<int>, rest: seq<int>, a: int, expanded: set<int>, visited: set<int>, found: set<int>)
    requires Exploring(g, work, expanded, visited, found)
    requires a in visited || !Node(g, a)
    requires forall b :: b in work <==> b == a || b in rest
    ensures Exploring(g, rest, expanded, visited, found)
  {
  }

  /** Expanding an address: push at least its expandable successors and nothing that is not a
      successor, mark it and its slots, record its facts. */
  lemma ExploringExpands(
      g: Flow, work: seq<int>, rest: seq<int>, a: int, next: seq<int>,
      expanded: set<int>, visited: set<int>, found: set<int>)
    requires Exploring(g, work, expanded, visited, found)
    requires a in work && Node(g, a)
    requires forall b :: b in work ==> b == a || b in rest
    requires forall b :: b in rest ==> b in work
    requires forall b :: b in next ==> b in Succ(g, a)
    requires forall b :: b in Succ(g, a) && Node(g, b) ==> b in next
    ensures Exploring(g, rest + next, expanded + {a}, visited + {a} + Slots(g, a), found + Emits(g, a))
  {
    forall b | b in next && Node(g, b)
      ensures Reachable(g, b)
    {
      StepReachable(g, a, b);
    }
  }
}
