/**
 The stack-order walkers of the BIOS tools (build_instruction_inventory.py walk_function and its
 copy in scan_branch_delay_hazards.py), and their agreement with the overlay walker.
 */
module StackWalk {
  import opened Wrappers
  import opened MipsWord
  import opened OverlayImage
  import opened FlowGraph
  import Overlay = OverlayWalk

  datatype BiosKind =
    | CondBranch(target: int)
    | JumpTo(target: int)
    | JumpIndirect
    | CallThrough
    | Trap
    | Ordinary

  /** branch_target: the kind of a word, with the target where the walker follows it. */
  function BiosClassify(addr: int, w: U32): BiosKind {
    if Op(w) in {0x04, 0x05, 0x06, 0x07} then CondBranch(MipsWord.BranchTarget(addr, w))
    else if Op(w) == 0x01 then CondBranch(MipsWord.BranchTarget(addr, w))
    else if Op(w) == 0x02 then JumpTo(MipsWord.JumpTarget(addr, w))
    else if Op(w) == 0x03 then CallThrough
    else if Op(w) == 0 && Funct(w) == 0x08 then JumpIndirect
    else if Op(w) == 0 && Funct(w) == 0x09 then CallThrough
    else if Op(w) == 0 && Funct(w) in {0x0C, 0x0D} then Trap
    else if Op(w) in {0x11, 0x12} && Rs(w) == 0x08 then CondBranch(MipsWord.BranchTarget(addr, w))
    else Ordinary
  }

  /** Where a word sends the walk next, and whether it has a delay slot. */
  datatype Route = Route(next: set<int>, hasSlot: bool)

  function BiosRoute(addr: int, w: U32): Route {
    match BiosClassify(addr, w)
    case CondBranch(target) => Route({addr + 8, target}, true)
    case JumpTo(target) => Route({target}, true)
    case JumpIndirect => Route({}, true)
    case CallThrough => Route({addr + 8}, true)
    case Trap => Route({addr + 4}, false)
    case Ordinary => Route({addr + 4}, false)
  }

  /** The same for the overlay walker's classification, jump tables aside. */
  function OverlayRoute(addr: int, w: U32): Route {
    match ClassifyCf(addr, w)
    case Normal => Route({addr + 4}, false)
    case Branch(target) => Route({addr + 8, target}, true)
    case Jump(target) => Route({target}, true)
    case Call(_) => Route({addr + 8}, true)
    case CallRegister => Route({addr + 8}, true)
    case JumpRegister => Route({}, true)
    case Return => Route({}, true)
  }

  /** The words only one of the tools takes for a branch: the MIPS-II likely branches, which the
      overlay walker follows, and the coprocessor branches, which the BIOS walkers follow. */
  predicate Disputed(w: U32) {
    Op(w) in {0x14, 0x15, 0x16, 0x17} || (Op(w) in {0x11, 0x12} && Rs(w) == 0x08)
  }

  /** The two classifications route a word alike exactly when it is not disputed. */
  lemma ClassifiersAgree(addr: int, w: U32)
    ensures OverlayRoute(addr, w) == BiosRoute(addr, w) <==> !Disputed(w)
  {
    var op, fn := Op(w), Funct(w);
    assert 0 <= op < 64;
    if op in {0x14, 0x15, 0x16, 0x17} {
      assert OverlayRoute(addr, w).hasSlot && !BiosRoute(addr, w).hasSlot;
    } else if op in {0x11, 0x12} && Rs(w) == 0x08 {
      assert !OverlayRoute(addr, w).hasSlot && BiosRoute(addr, w).hasSlot;
    }
  }

  predicate InRange(img: Image, entry: int, hardCap: int, a: int) {
    entry <= a < hardCap && a <= img.Hi() - 1 && WordAt(img, a).Some?
  }

  function RouteAt(img: Image, a: int): Route {
    var w := WordAt(img, a);
    if w.Some? then BiosRoute(a, w.value) else Route({}, false)
  }

  function StackSlots(img: Image, entry: int, hardCap: int, a: int): set<int> {
    if RouteAt(img, a).hasSlot && InRange(img, entry, hardCap, a + 4) then {a + 4} else {}
  }

  function StackFlow(img: Image, entry: int, hardCap: int): Flow {
    Flow(entry,
         a => InRange(img, entry, hardCap, a),
         a => RouteAt(img, a).next,
         a => StackSlots(img, entry, hardCap, a),
         a => {})
  }

  lemma StackFlowNode(img: Image, entry: int, hardCap: int, a: int)
    ensures Node(StackFlow(img, entry, hardCap), a) == InRange(img, entry, hardCap, a)
    ensures Succ(StackFlow(img, entry, hardCap), a) == RouteAt(img, a).next
    ensures Slots(StackFlow(img, entry, hardCap), a) == StackSlots(img, entry, hardCap, a)
    ensures Emits(StackFlow(img, entry, hardCap), a) == {}
  {
  }

  /** The addresses a word pushes, in the walker's order; the last one is popped first. */
  method Push(entry: int, hardCap: int, addr: int, w: U32) returns (next: seq<int>)
    requires entry <= addr
    ensures forall b :: b in next ==> b in BiosRoute(addr, w).next
    ensures forall b :: b in BiosRoute(addr, w).next && entry <= b < hardCap ==> b in next
  {
    match BiosClassify(addr, w)
    case JumpIndirect => next := [];
    case JumpTo(target) =>
      next := if entry <= target < hardCap then [target] else [];
    case CondBranch(target) =>
      next := [addr + 8];
      if entry <= target < hardCap {
        next := next + [target];
      }
    case CallThrough => next := [addr + 8];
    case Trap => next := [addr + 4];
    case Ordinary => next := [addr + 4];
  }

  ghost predicate HoldsWords(img: Image, visited: map<int, U32>) {
    forall a :: a in visited ==> WordAt(img, a) == Some(visited[a])
  }

  /** Marks an instruction and, without expanding it, its delay slot. */
  method Visit(img: Image, entry: int, hardCap: int, addr: int, w: U32, visited: map<int, U32>)
    returns (more: map<int, U32>)
    requires InRange(img, entry, hardCap, addr) && WordAt(img, addr) == Some(w)
    requires HoldsWords(img, visited)
    ensures HoldsWords(img, more)
    ensures more.Keys == visited.Keys + {addr} + StackSlots(img, entry, hardCap, addr)
  {
    more := visited[addr := w];
    if BiosRoute(addr, w).hasSlot && addr + 4 !in more && InRange(img, entry, hardCap, addr + 4) {
      more := more[addr + 4 := WordAt(img, addr + 4).value];
    }
  }

  method WalkFunction(img: Image, entry: int, hardCap: int)
    returns (visited: map<int, U32>, ghost expanded: set<int>)
    ensures Explored(StackFlow(img, entry, hardCap), expanded, visited.Keys, {})
    ensures HoldsWords(img, visited)
  {
    ghost var g := StackFlow(img, entry, hardCap);
    visited, expanded := map[], {};
    var work := [entry];
    ExploringStarts(g);
    while work != []
      invariant Exploring(g, work, expanded, visited.Keys, {})
      invariant HoldsWords(img, visited)
      decreases AddressRange(entry, hardCap) - visited.Keys, |work|
    {
      var addr, rest := work[|work| - 1], work[..|work| - 1];
      ghost var before, known := work, visited.Keys;
      PoppedLast(before);
      work := rest;
      if addr in visited || !InRange(img, entry, hardCap, addr) {
        StackFlowNode(img, entry, hardCap, addr);
        ExploringSkips(g, before, rest, addr, expanded, known, {});
        continue;
      }
      var w := WordAt(img, addr).value;
      var next := Push(entry, hardCap, addr, w);
      visited := Visit(img, entry, hardCap, addr, w, visited);
      StackFlowNode(img, entry, hardCap, addr);
      NextIsEnough(img, entry, hardCap, addr, next);
      ExploringExpands(g, before, rest, addr, next, expanded, known, {});
      MeasureShrinks(entry, hardCap, known, addr, StackSlots(img, entry, hardCap, addr));
      work, expanded := rest + next, expanded + {addr};
    }
  }

  predicate Between(lo: int, hi: int, a: int) {
    lo <= a < hi
  }

  ghost function AddressRange(lo: int, hi: int): set<int> {
    set a | lo <= a < hi && Between(lo, hi, a)
  }

  lemma PoppedLast(work: seq<int>)
    requires work != []
    ensures forall b :: b in work <==> b == work[|work| - 1] || b in work[..|work| - 1]
  {
  }

  lemma NextIsEnough(img: Image, entry: int, hardCap: int, addr: int, next: seq<int>)
    requires InRange(img, entry, hardCap, addr)
    requires forall b :: b in next ==> b in BiosRoute(addr, WordAt(img, addr).value).next
    requires forall b :: b in BiosRoute(addr, WordAt(img, addr).value).next && entry <= b < hardCap ==> b in next
    ensures var g := StackFlow(img, entry, hardCap);
            && (forall b :: b in next ==> b in Succ(g, addr))
            && (forall b :: b in Succ(g, addr) && Node(g, b) ==> b in next)
  {
  }

  lemma MeasureShrinks(lo: int, hi: int, visited: set<int>, addr: int, slots: set<int>)
    requires lo <= addr < hi && addr !in visited
    ensures AddressRange(lo, hi) - (visited + {addr} + slots) < AddressRange(lo, hi) - visited
  {
    assert addr in AddressRange(lo, hi) - visited;
  }

  // ---- Agreement with the queue-order walker ------------------------------------------------

  /** Every word of the image is whole and the function starts on a word. */
  predicate WordAligned(img: Image, entry: int) {
    && img.size == |img.data|
    && img.load % 4 == 0 && img.size % 4 == 0
    && img.load <= entry && entry % 4 == 0
  }

  /** No reachable word is disputed between the classifications or feeds a jump table. */
  ghost predicate Undisputed(img: Image, entry: int, hardCap: int) {
    forall a :: Reachable(Overlay.OverlayFlow(img, entry, hardCap), a) ==>
      && (WordAt(img, a).Some? ==> !Disputed(WordAt(img, a).value))
      && Overlay.TableTargetsAt(img, entry, hardCap, a) == {}
  }

  lemma TargetsAreAligned(pc: int, w: U32)
    ensures MipsWord.JumpTarget(pc, w) % 4 == 0
    ensures pc % 4 == 0 ==> MipsWord.BranchTarget(pc, w) % 4 == 0
  {
    hide SImm, Target26;
    var bank := (pc + 4) / 0x1000_0000 % 16;
    assert MipsWord.JumpTarget(pc, w) == 4 * (bank * 0x400_0000 + Target26(w));
  }

  lemma RoutesAreAligned(img: Image, a: int, b: int)
    requires a % 4 == 0 && b in RouteAt(img, a).next
    ensures b % 4 == 0
  {
    hide WordAt, MipsWord.JumpTarget, MipsWord.BranchTarget, Op, Funct, Rs;
    var w := WordAt(img, a);
    if w.Some? {
      TargetsAreAligned(a, w.value);
    }
  }

  lemma SameRange(img: Image, entry: int, hardCap: int, a: int)
    requires WordAligned(img, entry) && a % 4 == 0
    ensures InRange(img, entry, hardCap, a) == Overlay.Expandable(img, entry, hardCap, a)
    ensures Overlay.InFunction(img, entry, hardCap, a) == Overlay.Expandable(img, entry, hardCap, a)
  {
  }

  /** At a reachable address both graphs go to the same places and mark the same slot. */
  lemma SameStep(img: Image, entry: int, hardCap: int, a: int)
    requires WordAligned(img, entry) && Undisputed(img, entry, hardCap)
    requires Reachable(Overlay.OverlayFlow(img, entry, hardCap), a) && a % 4 == 0 && WordAt(img, a).Some?
    ensures Overlay.Successors(img, entry, hardCap, a) == RouteAt(img, a).next
    ensures Overlay.DelaySlots(img, entry, hardCap, a) == StackSlots(img, entry, hardCap, a)
  {
    hide WordAt, ClassifyCf, BiosRoute, Disputed, Overlay.OverlayFlow, Overlay.JumpTable.JumpTableTargets;
    hide WordAligned, InRange, Overlay.InFunction;
    ClassifiersAgree(a, WordAt(img, a).value);
    SameRange(img, entry, hardCap, a + 4);
  }

  lemma {:induction false} StackReachesNoMore(img: Image, entry: int, hardCap: int, p: seq<int>, i: nat)
    requires WordAligned(img, entry) && Undisputed(img, entry, hardCap)
    requires IsPath(StackFlow(img, entry, hardCap), p) && i < |p|
    ensures Reachable(Overlay.OverlayFlow(img, entry, hardCap), p[i]) && p[i] % 4 == 0
  {
    var g, h := Overlay.OverlayFlow(img, entry, hardCap), StackFlow(img, entry, hardCap);
    StackFlowNode(img, entry, hardCap, p[i]);
    if i == 0 {
      SameRange(img, entry, hardCap, entry);
      EntryReachable(g);
    } else {
      var a, b := p[i - 1], p[i];
      StackReachesNoMore(img, entry, hardCap, p, i - 1);
      assert b in Succ(h, a) && Node(h, a);
      StackFlowNode(img, entry, hardCap, a);
      RoutesAreAligned(img, a, b);
      SameStep(img, entry, hardCap, a);
      SameRange(img, entry, hardCap, b);
      Overlay.OverlayFlowNode(img, entry, hardCap, a);
      Overlay.OverlayFlowNode(img, entry, hardCap, b);
      StepReachable(g, a, b);
    }
  }

  lemma {:induction false} OverlayReachesNoMore(img: Image, entry: int, hardCap: int, p: seq<int>, i: nat)
    requires WordAligned(img, entry) && Undisputed(img, entry, hardCap)
    requires IsPath(Overlay.OverlayFlow(img, entry, hardCap), p) && i < |p|
    ensures Reachable(StackFlow(img, entry, hardCap), p[i])
  {
    var g, h := Overlay.OverlayFlow(img, entry, hardCap), StackFlow(img, entry, hardCap);
    Overlay.OverlayFlowNode(img, entry, hardCap, p[i]);
    StackFlowNode(img, entry, hardCap, p[i]);
    SameRange(img, entry, hardCap, p[i]);
    if i == 0 {
      EntryReachable(h);
    } else {
      var a, b := p[i - 1], p[i];
      OverlayReachesNoMore(img, entry, hardCap, p, i - 1);
      PrefixReachable(g, p, i - 1);
      Overlay.OverlayFlowNode(img, entry, hardCap, a);
      assert Node(g, a) && b in Succ(g, a);
      StackFlowNode(img, entry, hardCap, a);
      SameStep(img, entry, hardCap, a);
      StepReachable(h, a, b);
    }
  }

  lemma PrefixReachable(g: Flow, p: seq<int>, i: nat)
    requires IsPath(g, p) && i < |p|
    ensures Reachable(g, p[i])
  {
    var q := p[..i + 1];
    forall k | 0 < k < |q|
      ensures q[k] in Succ(g, q[k - 1])
    {
      assert p[k] in Succ(g, p[k - 1]);
    }
    assert IsPath(g, q);
  }

  /** The two graphs reach the same addresses. */
  lemma SameReach(img: Image, entry: int, hardCap: int, a: int)
    requires WordAligned(img, entry) && Undisputed(img, entry, hardCap)
    ensures Reachable(Overlay.OverlayFlow(img, entry, hardCap), a) <==> Reachable(StackFlow(img, entry, hardCap), a)
    ensures Reachable(StackFlow(img, entry, hardCap), a) ==> a % 4 == 0 && WordAt(img, a).Some?
  {
    var g, h := Overlay.OverlayFlow(img, entry, hardCap), StackFlow(img, entry, hardCap);
    if Reachable(g, a) {
      var p :| IsPath(g, p) && p[|p| - 1] == a;
      OverlayReachesNoMore(img, entry, hardCap, p, |p| - 1);
    }
    if Reachable(h, a) {
      var p :| IsPath(h, p) && p[|p| - 1] == a;
      StackReachesNoMore(img, entry, hardCap, p, |p| - 1);
      StackFlowNode(img, entry, hardCap, a);
    }
  }

  lemma SameSlots(img: Image, entry: int, hardCap: int, a: int)
    requires WordAligned(img, entry) && Undisputed(img, entry, hardCap)
    ensures ReachableSlot(Overlay.OverlayFlow(img, entry, hardCap), a) <==> ReachableSlot(StackFlow(img, entry, hardCap), a)
  {
    forall e | Reachable(Overlay.OverlayFlow(img, entry, hardCap), e)
      ensures Slots(Overlay.OverlayFlow(img, entry, hardCap), e) == Slots(StackFlow(img, entry, hardCap), e)
    {
      SameReach(img, entry, hardCap, e);
      SameStep(img, entry, hardCap, e);
      Overlay.OverlayFlowNode(img, entry, hardCap, e);
      StackFlowNode(img, entry, hardCap, e);
    }
    forall e
      ensures Reachable(Overlay.OverlayFlow(img, entry, hardCap), e) <==> Reachable(StackFlow(img, entry, hardCap), e)
    {
      SameReach(img, entry, hardCap, e);
    }
  }

  lemma StackFlowIsClean(img: Image, entry: int, hardCap: int)
    requires WordAligned(img, entry) && Undisputed(img, entry, hardCap)
    requires Overlay.CleanSlots(img, entry, hardCap)
    ensures Clean(StackFlow(img, entry, hardCap))
  {
    hide Overlay.OverlayFlow, Overlay.CleanSlots, StackFlow, Undisputed, WordAligned;
    hide RouteAt, StackSlots, Overlay.Successors, Overlay.DelaySlots, InRange, Overlay.Expandable;
    var g, h := Overlay.OverlayFlow(img, entry, hardCap), StackFlow(img, entry, hardCap);
    Overlay.CleanSlotsAreClean(img, entry, hardCap);
    forall e, s | Reachable(h, e) && s in Slots(h, e) && Reachable(h, s)
      ensures Slots(h, s) == {} && Emits(h, s) == {} && Covers(h, e, s)
    {
      SameReach(img, entry, hardCap, e);
      SameReach(img, entry, hardCap, s);
      SameStep(img, entry, hardCap, e);
      SameStep(img, entry, hardCap, s);
      Overlay.OverlayFlowNode(img, entry, hardCap, e);
      Overlay.OverlayFlowNode(img, entry, hardCap, s);
      StackFlowNode(img, entry, hardCap, e);
      StackFlowNode(img, entry, hardCap, s);
      assert Covers(g, e, s);
      forall b | b in Succ(h, s) && Node(h, b)
        ensures b in Succ(h, e)
      {
        StepReachable(h, s, b);
        SameReach(img, entry, hardCap, b);
        SameRange(img, entry, hardCap, b);
        Overlay.OverlayFlowNode(img, entry, hardCap, b);
        StackFlowNode(img, entry, hardCap, b);
      }
    }
  }

  /** Queue order and stack order visit the same addresses, whichever way either walk went. */
  lemma WalkersAgree(img: Image, entry: int, hardCap: int, r: Overlay.WalkResult, expanded: set<int>, visited: set<int>)
    requires WordAligned(img, entry) && Undisputed(img, entry, hardCap)
    requires Overlay.CleanSlots(img, entry, hardCap)
    requires Overlay.IsWalk(img, entry, hardCap, r)
    requires Explored(StackFlow(img, entry, hardCap), expanded, visited, {})
    ensures r.visited == visited
  {
    Overlay.OverlayWalkExact(img, entry, hardCap, r);
    StackFlowIsClean(img, entry, hardCap);
    WalkIsExact(StackFlow(img, entry, hardCap), expanded, visited, {});
    forall a
      ensures a in r.visited <==> a in visited
    {
      SameReach(img, entry, hardCap, a);
      SameSlots(img, entry, hardCap, a);
    }
  }
}
