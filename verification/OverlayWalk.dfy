/**
 The queue-order walker of one overlay function (psxrecomp/tools/compile_overlays.py,
 _walk_overlay_function) as an exploration of a flow graph.
 */
module OverlayWalk {
  import opened Wrappers
  import opened MipsWord
  import opened OverlayImage
  import opened JumpTable
  import opened FlowGraph

  predicate InFunction(img: Image, entry: int, hardCap: int, a: int) {
    InRegion(img, a) && entry <= a < hardCap
  }

  function Kind(img: Image, a: int): Cf {
    var w := WordAt(img, a);
    if w.Some? then ClassifyCf(a, w.value) else Normal
  }

  predicate Expandable(img: Image, entry: int, hardCap: int, a: int) {
    InFunction(img, entry, hardCap, a) && WordAt(img, a).Some?
  }

  /** Jump-table targets, when a holds a `jr` through a register other than $ra. */
  function TableTargetsAt(img: Image, entry: int, hardCap: int, a: int): set<int> {
    var w := WordAt(img, a);
    if w.Some? && Kind(img, a).JumpRegister? then JumpTableTargets(img, entry, hardCap, a, Rs(w.value)) else {}
  }

  /** The addresses control can go to, other than by falling through one word. */
  function Transfers(img: Image, entry: int, hardCap: int, a: int): set<int> {
    match Kind(img, a)
    case Normal => {}
    case Branch(target) => {a + 8, target}
    case Jump(target) => {target}
    case Call(_) => {a + 8}
    case CallRegister => {a + 8}
    case JumpRegister => TableTargetsAt(img, entry, hardCap, a)
    case Return => {}
  }

  function Successors(img: Image, entry: int, hardCap: int, a: int): set<int> {
    if Kind(img, a).Normal? then {a + 4} else Transfers(img, entry, hardCap, a)
  }

  function DelaySlots(img: Image, entry: int, hardCap: int, a: int): set<int> {
    if !Kind(img, a).Normal? && InFunction(img, entry, hardCap, a + 4) then {a + 4} else {}
  }

  /** The direct call targets with independent boundary evidence. */
  function CallTargets(img: Image, a: int): set<int> {
    match Kind(img, a)
    case Call(target) => if InRegion(img, target) && CallableSeed(img, target) then {target} else {}
    case _ => {}
  }

  function OverlayFlow(img: Image, entry: int, hardCap: int): Flow {
    Flow(entry,
         a => Expandable(img, entry, hardCap, a),
         a => Successors(img, entry, hardCap, a),
         a => DelaySlots(img, entry, hardCap, a),
         a => CallTargets(img, a))
  }

  /** The in-function branch targets recorded by the expanded addresses. */
  ghost predicate RecordsTransfers(img: Image, entry: int, hardCap: int, expanded: set<int>, found: set<int>) {
    && (forall e, t :: e in expanded && t in Transfers(img, entry, hardCap, e) && InFunction(img, entry, hardCap, t)
          ==> t in found)
    && (forall t :: t in found ==> InFunction(img, entry, hardCap, t))
    && (forall t :: t in found ==> exists e :: e in expanded && t in Transfers(img, entry, hardCap, e))
  }

  ghost predicate RecordsTables(img: Image, entry: int, hardCap: int, expanded: set<int>, found: set<int>) {
    && (forall e, t :: e in expanded && t in TableTargetsAt(img, entry, hardCap, e) ==> t in found)
    && (forall t :: t in found ==> exists e :: e in expanded && t in TableTargetsAt(img, entry, hardCap, e))
  }

  datatype WalkResult = WalkResult(
    visited: set<int>,
    directCalls: set<int>,
    branchTargets: set<int>,
    tableTargets: set<int>)

  /** r is a possible result of walking from entry up to hardCap; its set of expanded addresses
      is some set, not part of what the walker returns. */
  ghost predicate IsWalk(img: Image, entry: int, hardCap: int, r: WalkResult) {
    exists expanded: set<int> ::
      && Explored(OverlayFlow(img, entry, hardCap), expanded, r.visited, r.directCalls)
      && RecordsTransfers(img, entry, hardCap, expanded, r.branchTargets)
      && RecordsTables(img, entry, hardCap, expanded, r.tableTargets)
  }

  ghost function RegionWords(img: Image): set<int> {
    set a | img.load <= a < img.Hi() && InRegion(img, a)
  }

  // ---- Queue order ---------------------------------------------------------------------------

  function Kept(img: Image, entry: int, hardCap: int, a: int): seq<int> {
    if InFunction(img, entry, hardCap, a) then [a] else []
  }

  /** What a word appends to the queue, in order; the targets of a jump table come in no fixed order. */
  function QueuedBy(img: Image, entry: int, hardCap: int, pc: int): seq<int> {
    match Kind(img, pc)
    case Normal => Kept(img, entry, hardCap, pc + 4)
    case Branch(target) => Kept(img, entry, hardCap, pc + 8) + Kept(img, entry, hardCap, target)
    case Jump(target) => Kept(img, entry, hardCap, target)
    case Call(_) => Kept(img, entry, hardCap, pc + 8)
    case CallRegister => Kept(img, entry, hardCap, pc + 8)
    case JumpRegister => []
    case Return => []
  }

  ghost predicate NoRegisterJumps(img: Image) {
    forall a :: InRegion(img, a) ==> !Kind(img, a).JumpRegister?
  }

  lemma QueuedAreSuccessors(img: Image, entry: int, hardCap: int, pc: int)
    requires !Kind(img, pc).JumpRegister?
    ensures forall b :: b in QueuedBy(img, entry, hardCap, pc) <==>
              b in Successors(img, entry, hardCap, pc) && InFunction(img, entry, hardCap, b)
  {
    hide InFunction;
  }

  /** The marks and the calls of the walk that takes its queue from the front. */
  ghost function QueueWalk(img: Image, entry: int, hardCap: int, work: seq<int>, visited: set<int>, calls: set<int>): (set<int>, set<int>)
    decreases RegionWords(img) - visited, |work|
  {
    if work == [] then (visited, calls)
    else if work[0] in visited || !Expandable(img, entry, hardCap, work[0]) then
      QueueWalk(img, entry, hardCap, work[1..], visited, calls)
    else
      MeasureShrinks(img, visited, work[0], DelaySlots(img, entry, hardCap, work[0]));
      QueueWalk(img, entry, hardCap, work[1..] + QueuedBy(img, entry, hardCap, work[0]),
                visited + {work[0]} + DelaySlots(img, entry, hardCap, work[0]), calls + CallTargets(img, work[0]))
  }

  lemma QueueTakes(img: Image, entry: int, hardCap: int, pc: int, rest: seq<int>, visited: set<int>, calls: set<int>,
                   work: seq<int>, more: set<int>, found: set<int>)
    requires Expandable(img, entry, hardCap, pc) && pc !in visited
    requires work == rest + QueuedBy(img, entry, hardCap, pc)
    requires more == visited + {pc} + DelaySlots(img, entry, hardCap, pc) && found == calls + CallTargets(img, pc)
    ensures QueueWalk(img, entry, hardCap, [pc] + rest, visited, calls) == QueueWalk(img, entry, hardCap, work, more, found)
  {
    hide Expandable, QueuedBy, DelaySlots, CallTargets;
    assert ([pc] + rest)[1..] == rest;
  }

  lemma QueueDrops(img: Image, entry: int, hardCap: int, pc: int, rest: seq<int>, visited: set<int>, calls: set<int>)
    requires pc in visited
    ensures QueueWalk(img, entry, hardCap, [pc] + rest, visited, calls) == QueueWalk(img, entry, hardCap, rest, visited, calls)
  {
    hide Expandable, QueuedBy, DelaySlots, CallTargets;
    assert ([pc] + rest)[1..] == rest;
  }

  lemma {:induction false} QueueRun(img: Image, entry: int, hardCap: int, work: seq<int>, expanded: set<int>, visited: set<int>,
                                    calls: set<int>, branches: set<int>)
    returns (r: WalkResult)
    requires NoRegisterJumps(img)
    requires Exploring(OverlayFlow(img, entry, hardCap), work, expanded, visited, calls)
    requires RecordsTransfers(img, entry, hardCap, expanded, branches) && RecordsTables(img, entry, hardCap, expanded, {})
    ensures IsWalk(img, entry, hardCap, r) && r.tableTargets == {}
    ensures (r.visited, r.directCalls) == QueueWalk(img, entry, hardCap, work, visited, calls)
    decreases RegionWords(img) - visited, |work|
  {
    hide Exploring, RecordsTransfers, RecordsTables, QueuedBy, NoRegisterJumps, Kind, Transfers;
    var g := OverlayFlow(img, entry, hardCap);
    if work == [] {
      r := WalkResult(visited, calls, branches, {});
      return;
    }
    var pc, rest := work[0], work[1..];
    Popped(work);
    OverlayFlowNode(img, entry, hardCap, pc);
    if pc in visited || !Expandable(img, entry, hardCap, pc) {
      ExploringSkips(g, work, rest, pc, expanded, visited, calls);
      r := QueueRun(img, entry, hardCap, rest, expanded, visited, calls, branches);
      return;
    }
    NoTableAt(img, entry, hardCap, pc);
    QueuedAreSuccessors(img, entry, hardCap, pc);
    var next := QueuedBy(img, entry, hardCap, pc);
    NextIsEnough(img, entry, hardCap, pc, next);
    ExploringExpands(g, work, rest, pc, next, expanded, visited, calls);
    var transfers := set b | b in Transfers(img, entry, hardCap, pc) && InFunction(img, entry, hardCap, b);
    TransfersGrow(img, entry, hardCap, pc, transfers, expanded, branches);
    TablesGrow(img, entry, hardCap, pc, {}, expanded, {});
    MeasureShrinks(img, visited, pc, DelaySlots(img, entry, hardCap, pc));
    var none: set<int> := {};
    assert none + none == none;
    r := QueueRun(img, entry, hardCap, rest + next, expanded + {pc}, visited + {pc} + DelaySlots(img, entry, hardCap, pc),
                  calls + CallTargets(img, pc), branches + transfers);
    hide OverlayFlow, InFunction, DelaySlots, CallTargets, IsWalk;
  }

  lemma NoTableAt(img: Image, entry: int, hardCap: int, pc: int)
    requires NoRegisterJumps(img) && InRegion(img, pc)
    ensures !Kind(img, pc).JumpRegister? && TableTargetsAt(img, entry, hardCap, pc) == {}
  {
    hide Kind;
  }

  /** On a region without jumps through registers other than $ra the queue order is a walk. */
  lemma QueueWalkIsWalk(img: Image, entry: int, hardCap: int) returns (r: WalkResult)
    requires NoRegisterJumps(img)
    ensures IsWalk(img, entry, hardCap, r) && r.tableTargets == {}
    ensures (r.visited, r.directCalls) == QueueWalk(img, entry, hardCap, [entry], {}, {})
  {
    hide Exploring, IsWalk, QueueWalk;
    ExploringStarts(OverlayFlow(img, entry, hardCap));
    NothingRecorded(img, entry, hardCap);
    r := QueueRun(img, entry, hardCap, [entry], {}, {}, {}, {});
  }

  lemma NothingRecorded(img: Image, entry: int, hardCap: int)
    ensures RecordsTransfers(img, entry, hardCap, {}, {}) && RecordsTables(img, entry, hardCap, {}, {})
  {
  }

  // ---- The walker ----------------------------------------------------------------------------

  method WalkOverlayFunction(img: Image, entry: int, hardCap: int) returns (r: WalkResult)
    ensures IsWalk(img, entry, hardCap, r)
    ensures NoRegisterJumps(img) ==>
      (r.visited, r.directCalls) == QueueWalk(img, entry, hardCap, [entry], {}, {}) && r.tableTargets == {}
    ensures forall a :: a in r.visited ==> InFunction(img, entry, hardCap, a)
  {
    ghost var g := OverlayFlow(img, entry, hardCap);
    ghost var expanded: set<int> := {};
    var work := [entry];
    var visited, directCalls, branchTargets, tableTargets: set<int> := {}, {}, {}, {};
    ExploringStarts(g);
    while work != []
      invariant Exploring(g, work, expanded, visited, directCalls)
      invariant RecordsTransfers(img, entry, hardCap, expanded, branchTargets)
      invariant RecordsTables(img, entry, hardCap, expanded, tableTargets)
      invariant forall a :: a in visited ==> InFunction(img, entry, hardCap, a)
      invariant NoRegisterJumps(img) ==>
        QueueWalk(img, entry, hardCap, work, visited, directCalls) == QueueWalk(img, entry, hardCap, [entry], {}, {})
      invariant NoRegisterJumps(img) ==> tableTargets == {}
      decreases RegionWords(img) - visited, |work|
    {
      var pc, rest := work[0], work[1..];
      ghost var before := work;
      Popped(before);
      work := rest;
      if pc in visited || !InFunction(img, entry, hardCap, pc) || WordAt(img, pc).None? {
        ExploringSkips(g, before, rest, pc, expanded, visited, directCalls);
        continue;
      }
      var next, transfers, tables := Expand(img, entry, hardCap, pc);
      if NoRegisterJumps(img) {
        NoTableAt(img, entry, hardCap, pc);
      }
      OverlayFlowNode(img, entry, hardCap, pc);
      NextIsEnough(img, entry, hardCap, pc, next);
      ExploringExpands(g, before, rest, pc, next, expanded, visited, directCalls);
      TransfersGrow(img, entry, hardCap, pc, transfers, expanded, branchTargets);
      TablesGrow(img, entry, hardCap, pc, tables, expanded, tableTargets);
      MeasureShrinks(img, visited, pc, DelaySlots(img, entry, hardCap, pc));
      visited := visited + {pc} + DelaySlots(img, entry, hardCap, pc);
      directCalls := directCalls + CallTargets(img, pc);
      branchTargets := branchTargets + transfers;
      tableTargets := tableTargets + tables;
      work := work + next;
      expanded := expanded + {pc};
    }
    r := WalkResult(visited, directCalls, branchTargets, tableTargets);
  }

  lemma Popped(work: seq<int>)
    requires work != []
    ensures forall b :: b in work <==> b == work[0] || b in work[1..]
  {
  }

  lemma NextIsEnough(img: Image, entry: int, hardCap: int, pc: int, next: seq<int>)
    requires forall b :: b in next <==> b in Successors(img, entry, hardCap, pc) && InFunction(img, entry, hardCap, b)
    ensures var g := OverlayFlow(img, entry, hardCap);
            && (forall b :: b in next ==> b in Succ(g, pc))
            && (forall b :: b in Succ(g, pc) && Node(g, b) ==> b in next)
  {
  }

  lemma TransfersGrow(img: Image, entry: int, hardCap: int, pc: int, transfers: set<int>, expanded: set<int>, found: set<int>)
    requires RecordsTransfers(img, entry, hardCap, expanded, found)
    requires forall b :: b in transfers <==> b in Transfers(img, entry, hardCap, pc) && InFunction(img, entry, hardCap, b)
    ensures RecordsTransfers(img, entry, hardCap, expanded + {pc}, found + transfers)
  {
  }

  lemma TablesGrow(img: Image, entry: int, hardCap: int, pc: int, tables: set<int>, expanded: set<int>, found: set<int>)
    requires RecordsTables(img, entry, hardCap, expanded, found)
    requires tables == TableTargetsAt(img, entry, hardCap, pc)
    ensures RecordsTables(img, entry, hardCap, expanded + {pc}, found + tables)
  {
  }

  lemma MeasureShrinks(img: Image, visited: set<int>, pc: int, slots: set<int>)
    requires InRegion(img, pc) && pc !in visited
    ensures RegionWords(img) - (visited + {pc} + slots) < RegionWords(img) - visited
  {
    assert pc in RegionWords(img) - visited;
  }

  /** What one expanded word adds to the queue and to the recorded targets. */
  method Expand(img: Image, entry: int, hardCap: int, pc: int)
    returns (next: seq<int>, transfers: set<int>, tables: set<int>)
    requires Expandable(img, entry, hardCap, pc)
    ensures forall b :: b in next <==> b in Successors(img, entry, hardCap, pc) && InFunction(img, entry, hardCap, b)
    ensures forall b :: b in transfers <==> b in Transfers(img, entry, hardCap, pc) && InFunction(img, entry, hardCap, b)
    ensures tables == TableTargetsAt(img, entry, hardCap, pc)
    ensures !Kind(img, pc).JumpRegister? ==> next == QueuedBy(img, entry, hardCap, pc)
  {
    var w := WordAt(img, pc).value;
    next, transfers, tables := [], {}, {};
    match ClassifyCf(pc, w)
    case Normal =>
      if InFunction(img, entry, hardCap, pc + 4) {
        next := [pc + 4];
      }
    case Branch(target) =>
      if InFunction(img, entry, hardCap, pc + 8) {
        next, transfers := [pc + 8], {pc + 8};
      }
      if InFunction(img, entry, hardCap, target) {
        next, transfers := next + [target], transfers + {target};
      }
    case Jump(target) =>
      if InFunction(img, entry, hardCap, target) {
        next, transfers := [target], {target};
      }
    case Call(_) =>
      if InFunction(img, entry, hardCap, pc + 8) {
        next, transfers := [pc + 8], {pc + 8};
      }
    case CallRegister =>
      if InFunction(img, entry, hardCap, pc + 8) {
        next, transfers := [pc + 8], {pc + 8};
      }
    case JumpRegister =>
      tables := FindJumpTableTargets(img, entry, hardCap, pc, Rs(w));
      transfers := tables;
      next := Enumerate(tables);
    case Return =>
  }

  lemma OverlayFlowNode(img: Image, entry: int, hardCap: int, a: int)
    ensures Node(OverlayFlow(img, entry, hardCap), a) == Expandable(img, entry, hardCap, a)
    ensures Succ(OverlayFlow(img, entry, hardCap), a) == Successors(img, entry, hardCap, a)
    ensures Slots(OverlayFlow(img, entry, hardCap), a) == DelaySlots(img, entry, hardCap, a)
    ensures Emits(OverlayFlow(img, entry, hardCap), a) == CallTargets(img, a)
  {
  }

  /** Lowering the cap restricts the graph to the addresses below it, jump tables included. */
  lemma LowerCapRestricts(img: Image, entry: int, cap1: int, cap2: int)
    requires cap1 <= cap2
    ensures Restricts(OverlayFlow(img, entry, cap1), OverlayFlow(img, entry, cap2))
  {
    var g, h := OverlayFlow(img, entry, cap1), OverlayFlow(img, entry, cap2);
    forall a, b | Node(g, b)
      ensures b in Succ(g, a) <==> b in Succ(h, a)
    {
      var w := WordAt(img, a);
      if w.Some? && Kind(img, a).JumpRegister? {
        TargetsFollowCap(img, entry, cap1, cap2, a, Rs(w.value), b);
      }
    }
  }

  // ---- What the walk means ------------------------------------------------------------------

  predicate NeverFallsThrough(k: Cf) {
    k.Jump? || k.JumpRegister? || k.Return?
  }

  /** The clean-slot condition on an image: no delay slot of the function holds a control
      transfer, and control never arrives at the slot of an instruction that does not fall through. */
  ghost predicate CleanSlots(img: Image, entry: int, hardCap: int) {
    forall e :: Reachable(OverlayFlow(img, entry, hardCap), e) && DelaySlots(img, entry, hardCap, e) != {} ==>
      && Kind(img, e + 4).Normal?
      && (NeverFallsThrough(Kind(img, e))
          ==> !Reachable(OverlayFlow(img, entry, hardCap), e + 4))
  }

  lemma CleanSlotsAreClean(img: Image, entry: int, hardCap: int)
    requires CleanSlots(img, entry, hardCap)
    ensures Clean(OverlayFlow(img, entry, hardCap))
  {
    hide Kind, InFunction, Expandable, TableTargetsAt, CallableSeed, InRegion, Reachable;
    var g := OverlayFlow(img, entry, hardCap);
    forall e, s | Reachable(g, e) && s in Slots(g, e) && Reachable(g, s)
      ensures Slots(g, s) == {} && Emits(g, s) == {} && Covers(g, e, s)
    {
      SlotIsClean(img, entry, hardCap, e, s);
    }
    hide OverlayFlow;
  }

  lemma SlotIsClean(img: Image, entry: int, hardCap: int, e: int, s: int)
    requires CleanSlots(img, entry, hardCap)
    requires var g := OverlayFlow(img, entry, hardCap); Reachable(g, e) && s in Slots(g, e) && Reachable(g, s)
    ensures var g := OverlayFlow(img, entry, hardCap); Slots(g, s) == {} && Emits(g, s) == {} && Covers(g, e, s)
  {
    hide InFunction, Expandable, TableTargetsAt, CallableSeed, InRegion, Reachable;
    assert s == e + 4 && Kind(img, s).Normal?;
    hide CleanSlots, Kind;
  }

  /** An address the walk up to hardCap should mark: a reachable instruction or its delay slot. */
  ghost predicate Covered(img: Image, entry: int, hardCap: int, a: int) {
    Reachable(OverlayFlow(img, entry, hardCap), a) || ReachableSlot(OverlayFlow(img, entry, hardCap), a)
  }

  lemma OverlayWalkSound(img: Image, entry: int, hardCap: int, r: WalkResult)
    requires IsWalk(img, entry, hardCap, r)
    ensures forall a :: a in r.visited ==> Covered(img, entry, hardCap, a)
    ensures forall t :: t in r.directCalls ==> InRegion(img, t) && CallableSeed(img, t)
  {
  }

  /** Under the clean-slot condition the walk finds exactly the reachable instructions, their
      slots, and the callable targets of their direct calls. */
  lemma OverlayWalkExact(img: Image, entry: int, hardCap: int, r: WalkResult)
    requires IsWalk(img, entry, hardCap, r) && CleanSlots(img, entry, hardCap)
    ensures forall a :: a in r.visited <==> Covered(img, entry, hardCap, a)
    ensures forall t :: t in r.directCalls <==> ReachableEmit(OverlayFlow(img, entry, hardCap), t)
  {
    CleanSlotsAreClean(img, entry, hardCap);
    var x :| Explored(OverlayFlow(img, entry, hardCap), x, r.visited, r.directCalls);
    WalkIsExact(OverlayFlow(img, entry, hardCap), x, r.visited, r.directCalls);
  }

  /** A walk with a lower cap never records a call that a walk of the same root with a higher cap
      has missed. */
  lemma CallsShrinkWithCap(img: Image, entry: int, low: int, high: int, rLow: WalkResult, rHigh: WalkResult)
    requires low <= high && CleanSlots(img, entry, high)
    requires IsWalk(img, entry, low, rLow) && IsWalk(img, entry, high, rHigh)
    ensures rLow.directCalls <= rHigh.directCalls
    ensures rLow.visited <= rHigh.visited
  {
    var g, h := OverlayFlow(img, entry, low), OverlayFlow(img, entry, high);
    LowerCapRestricts(img, entry, low, high);
    CleanSlotsAreClean(img, entry, high);
    var xg :| Explored(g, xg, rLow.visited, rLow.directCalls);
    var xh :| Explored(h, xh, rHigh.visited, rHigh.directCalls);
    RecordsAreMonotone(g, h, xg, rLow.visited, rLow.directCalls, xh, rHigh.visited, rHigh.directCalls);
  }
}
