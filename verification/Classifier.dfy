/**
 Classification of captured program counters into function entries
 (psxrecomp/tools/compile_overlays.py, classify_overlay_seeds).
 */
module Classifier {
  import opened Wrappers
  import opened MipsWord
  import opened OverlayImage
  import opened FlowGraph
  import opened OverlayWalk
  import opened SortedSets

  datatype Reason =
    | DispatchEntry
    | DirectJalTarget
    | FunctionPointerTarget
    | TomlDeclaredEntry
    | DispatchInterior
    | DispatchRoot
    | BranchTargetOnly
    | ObservedPcOnly
    | Unknown

  predicate Fatal(r: Reason) {
    r.BranchTargetOnly? || r.ObservedPcOnly? || r.Unknown?
  }

  /** The evidence a capture brings, after parsing. */
  datatype Capture = Capture(
    executed: set<int>,
    dispatch: set<int>,
    functionEntries: set<int>,
    tomlEntries: set<int>,
    legacySeeds: set<int>,
    hasSchema: bool)

  /** What every decision about an address depends on. */
  datatype Context = Context(img: Image, cap: Capture, tables: set<int>, gameLo: int, gameHi: int)

  function Physical(addr: int): int { addr % 0x2000_0000 }

  predicate KernelWindow(img: Image) { Physical(img.load) < 0x1_0000 }

  /** _classify_target answers UNKNOWN_BAD. */
  predicate UnknownBad(c: Context, addr: int) {
    var phys := Physical(addr);
    var lo := Physical(c.img.load);
    && !(lo <= phys < lo + c.img.size)
    && !(c.gameLo < c.gameHi && c.gameLo <= phys < c.gameHi)
    && !(0x1FC0_0000 <= phys < 0x1FC8_0000 || 0xBFC0_0000 <= addr < 0xBFC8_0000)
  }

  predicate ImpossibleEntryStart(c: Context, addr: int) {
    var w := WordAt(c.img, addr);
    if !IsValidMipsWord(w) then true
    else match ClassifyCf(addr, w.value)
      case Jump(target) => UnknownBad(c, target)
      case Call(target) => InRegion(c.img, target) && !CallableSeed(c.img, target)
      case _ => false
  }

  /** The reason under which an address offered for a reason ends up; a fatal one excludes it. */
  function Gate(c: Context, addr: int, reason: Reason): Reason {
    if !InRegion(c.img, addr) then Unknown
    else if reason.DispatchEntry? then
      if ImpossibleEntryStart(c, addr) then Unknown
      else if addr in c.tables || !CallableSeed(c.img, addr) then DispatchInterior
      else DispatchEntry
    else if !reason.TomlDeclaredEntry? && addr in c.tables && !CallableSeed(c.img, addr) then BranchTargetOnly
    else reason
  }

  /** Weak reasons give way to a later one; an interior never displaces anything. */
  function Record(included: map<int, Reason>, addr: int, reason: Reason): map<int, Reason> {
    if addr !in included then included[addr := reason]
    else if reason.DispatchInterior? then included
    else if included[addr].FunctionPointerTarget? || included[addr].DispatchInterior? then included[addr := reason]
    else included
  }

  /** The reasons addresses are offered for. */
  predicate Offered(r: Reason) {
    r.DispatchEntry? || r.DirectJalTarget? || r.FunctionPointerTarget? || r.TomlDeclaredEntry?
  }

  /** The evidence an address is offered with. */
  predicate HasEvidence(c: Context, addr: int, reason: Reason)
    requires Offered(reason)
  {
    match reason
    case DispatchEntry => addr in c.cap.dispatch
    case DirectJalTarget => CallableSeed(c.img, addr)
    case FunctionPointerTarget => addr in c.cap.functionEntries || (addr in c.cap.legacySeeds && CallableSeed(c.img, addr))
    case TomlDeclaredEntry => addr in c.cap.tomlEntries
  }

  // ---- Offering an address -------------------------------------------------------------------

  /** The evidence that stands behind an included address. */
  predicate Justified(c: Context, a: int, r: Reason) {
    && InRegion(c.img, a)
    && match r
       case DispatchEntry => a in c.cap.dispatch && CallableSeed(c.img, a) && a !in c.tables
       case DirectJalTarget => CallableSeed(c.img, a)
       case FunctionPointerTarget => a in c.cap.functionEntries || (a in c.cap.legacySeeds && CallableSeed(c.img, a))
       case TomlDeclaredEntry => a in c.cap.tomlEntries
       case DispatchInterior => a in c.cap.dispatch && !ImpossibleEntryStart(c, a)
       case DispatchRoot => a in c.cap.dispatch && !ImpossibleEntryStart(c, a) && KernelWindow(c.img)
       case BranchTargetOnly => false
       case ObservedPcOnly => false
       case Unknown => false
  }

  ghost predicate WellIncluded(c: Context, included: map<int, Reason>) {
    forall a :: a in included ==> Justified(c, a, included[a])
  }

  /** Offering an address under its own evidence keeps every inclusion justified. */
  lemma RecordKeepsJustified(c: Context, included: map<int, Reason>, addr: int, reason: Reason)
    requires WellIncluded(c, included) && Offered(reason) && !Fatal(Gate(c, addr, reason))
    requires HasEvidence(c, addr, reason)
    ensures WellIncluded(c, Record(included, addr, Gate(c, addr, reason)))
  {
  }

  method Include(c: Context, addr: int, reason: Reason, included: map<int, Reason>, excluded: map<int, Reason>)
    returns (included': map<int, Reason>, excluded': map<int, Reason>)
    requires Offered(reason)
    ensures var gate := Gate(c, addr, reason);
            if Fatal(gate) then included' == included && excluded' == excluded[addr := gate]
            else included' == Record(included, addr, gate) && excluded' == excluded
    ensures WellIncluded(c, included) && HasEvidence(c, addr, reason) ==> WellIncluded(c, included')
  {
    if WellIncluded(c, included) && HasEvidence(c, addr, reason) && !Fatal(Gate(c, addr, reason)) {
      RecordKeepsJustified(c, included, addr, reason);
    }
    hide WellIncluded, HasEvidence;
    included', excluded' := included, excluded;
    if !InRegion(c.img, addr) {
      excluded' := excluded[addr := Unknown];
      return;
    }
    if reason.DispatchEntry? {
      if ImpossibleEntryStart(c, addr) {
        excluded' := excluded[addr := Unknown];
        return;
      }
      if addr in c.tables || !CallableSeed(c.img, addr) {
        if addr !in included {
          included' := included[addr := DispatchInterior];
        }
        return;
      }
    } else if !reason.TomlDeclaredEntry? && addr in c.tables && !CallableSeed(c.img, addr) {
      excluded' := excluded[addr := BranchTargetOnly];
      return;
    }
    if addr !in included || included[addr].FunctionPointerTarget? || included[addr].DispatchInterior? {
      included' := included[addr := reason];
    }
  }

  /** Offers every address of q for one reason. */
  method IncludeAll(c: Context, q: seq<int>, reason: Reason, included: map<int, Reason>, excluded: map<int, Reason>)
    returns (included': map<int, Reason>, excluded': map<int, Reason>)
    requires Offered(reason) && WellIncluded(c, included)
    requires forall a :: a in q ==> HasEvidence(c, a, reason)
    ensures WellIncluded(c, included')
    ensures included.Keys <= included'.Keys && excluded.Keys <= excluded'.Keys
    ensures forall a :: a in q ==> a in included' || a in excluded'
    ensures forall a :: a in q && !Fatal(Gate(c, a, reason)) ==> a in included'
  {
    included', excluded' := included, excluded;
    for i := 0 to |q|
      invariant WellIncluded(c, included')
      invariant included.Keys <= included'.Keys && excluded.Keys <= excluded'.Keys
      invariant forall k :: 0 <= k < i ==> q[k] in included' || q[k] in excluded'
      invariant forall k :: 0 <= k < i && !Fatal(Gate(c, q[k], reason)) ==> q[k] in included'
    {
      included', excluded' := Include(c, q[i], reason, included', excluded');
    }
  }

  // ---- Invariants of the classification ------------------------------------------------------

  /** The walk roots are exactly the included addresses that are not interiors. */
  ghost predicate RootsMatch(included: map<int, Reason>, roots: set<int>) {
    forall a :: a in roots <==> a in included && !included[a].DispatchInterior?
  }

  /** The hard cap of a root: the next root above it, or the end of the region. */
  ghost predicate IsCap(img: Image, roots: set<int>, entry: int, cap: int) {
    && cap <= img.Hi()
    && (cap == img.Hi() || (cap in roots && entry < cap))
    && forall x :: x in roots && entry < x ==> cap <= x
  }

  ghost predicate InRegionAll(img: Image, roots: set<int>) {
    forall a :: a in roots ==> InRegion(img, a)
  }

  /** Every processed root was walked once, up to what was then its cap, and the calls found by
      that walk are roots by now. */
  ghost predicate CallsAreRoots(img: Image, roots: set<int>, processed: set<int>) {
    forall e :: e in processed ==> exists cap, w ::
      IsWalk(img, e, cap, w) && CapCovers(img, roots, e, cap) && w.directCalls <= roots
  }

  /** cap was the cap of entry for these roots or for some of them. */
  ghost predicate CapCovers(img: Image, roots: set<int>, entry: int, cap: int) {
    cap <= img.Hi() && (cap == img.Hi() || (cap in roots && entry < cap))
  }

  method NextRoot(img: Image, roots: set<int>, entry: int) returns (cap: int)
    requires InRegionAll(img, roots)
    ensures IsCap(img, roots, entry, cap)
  {
    var q := Sorted(roots);
    for i := 0 to |q|
      invariant forall k :: 0 <= k < i ==> q[k] <= entry
    {
      if entry < q[i] {
        assert q[i] in roots;
        return q[i];
      }
    }
    cap := img.Hi();
  }

  // ---- The walk loop -------------------------------------------------------------------------

  ghost predicate Consistent(c: Context, included: map<int, Reason>, roots: set<int>) {
    WellIncluded(c, included) && RootsMatch(included, roots)
  }

  lemma RootsAreInRegion(c: Context, included: map<int, Reason>, roots: set<int>)
    requires Consistent(c, included, roots)
    ensures InRegionAll(c.img, roots)
    ensures roots <= RegionWords(c.img)
  {
  }

  /** A callable direct-call target passes every gate: the jump-table rejection cannot fire. */
  lemma CallPassesGate(c: Context, t: int)
    requires InRegion(c.img, t) && CallableSeed(c.img, t)
    ensures Gate(c, t, DirectJalTarget) == DirectJalTarget
  {
  }

  lemma CallBecomesRoot(c: Context, included: map<int, Reason>, roots: set<int>, t: int)
    requires Consistent(c, included, roots) && t !in roots
    requires InRegion(c.img, t) && CallableSeed(c.img, t)
    ensures Consistent(c, Record(included, t, DirectJalTarget), roots + {t})
    ensures Record(included, t, DirectJalTarget) == included[t := DirectJalTarget]
  {
  }

  lemma CallsStayRoots(img: Image, roots: set<int>, more: set<int>, processed: set<int>)
    requires CallsAreRoots(img, roots, processed) && roots <= more
    ensures CallsAreRoots(img, more, processed)
  {
    forall e | e in processed
      ensures exists cap, w :: IsWalk(img, e, cap, w) && CapCovers(img, more, e, cap) && w.directCalls <= more
    {
      var cap, w :| IsWalk(img, e, cap, w) && CapCovers(img, roots, e, cap) && w.directCalls <= roots;
    }
  }

  /** Makes roots of the call targets of one walk. */
  method AdoptCalls(c: Context, calls: set<int>, included0: map<int, Reason>, excluded0: map<int, Reason>, roots0: set<int>, pending0: seq<int>)
    returns (included: map<int, Reason>, excluded: map<int, Reason>, roots: set<int>, pending: seq<int>)
    requires Consistent(c, included0, roots0)
    requires forall t :: t in calls ==> InRegion(c.img, t) && CallableSeed(c.img, t)
    ensures Consistent(c, included, roots)
    ensures roots0 <= roots && calls <= roots && included0.Keys <= included.Keys && excluded == excluded0
    ensures forall a :: a in pending <==> a in pending0 || a in roots - roots0
    ensures roots == roots0 ==> pending == pending0
  {
    hide Consistent, Gate, Record, CallableSeed, InRegion;
    included, excluded, roots, pending := included0, excluded0, roots0, pending0;
    var targets := Sorted(calls);
    for i := 0 to |targets|
      invariant Consistent(c, included, roots)
      invariant excluded == excluded0
      invariant roots0 <= roots && included0.Keys <= included.Keys
      invariant forall k :: 0 <= k < i ==> targets[k] in roots
      invariant forall a :: a in pending <==> a in pending0 || a in roots - roots0
      invariant roots == roots0 ==> pending == pending0
    {
      var t := targets[i];
      assert t in calls;
      if t !in roots {
        CallPassesGate(c, t);
        CallBecomesRoot(c, included, roots, t);
        included, excluded := Include(c, t, DirectJalTarget, included, excluded);
        if t in included {
          roots, pending := roots + {t}, pending + [t];
        }
      }
    }
    assert forall t :: t in calls ==> t in targets;
  }

  lemma ProcessedGrows(img: Image, roots: set<int>, more: set<int>, processed: set<int>, entry: int, cap: int, w: WalkResult)
    requires CallsAreRoots(img, roots, processed) && roots <= more
    requires IsCap(img, roots, entry, cap) && IsWalk(img, entry, cap, w) && w.directCalls <= more
    ensures CallsAreRoots(img, more, processed + {entry})
  {
    CallsStayRoots(img, roots, more, processed);
    assert CapCovers(img, more, entry, cap);
  }

  lemma MoreRoots(c: Context, included: map<int, Reason>, roots: set<int>, before: set<int>)
    requires Consistent(c, included, roots) && before <= roots
    ensures roots == before || RegionWords(c.img) - roots < RegionWords(c.img) - before
  {
    RootsAreInRegion(c, included, roots);
    var all := RegionWords(c.img);
    if all - roots == all - before {
      forall a
        ensures a in roots <==> a in before
      {
        assert a in all - roots <==> a in all - before;
      }
      assert roots == before;
    }
  }

  lemma WalkFindsCallables(img: Image, entry: int, cap: int, w: WalkResult)
    requires IsWalk(img, entry, cap, w)
    ensures forall t :: t in w.directCalls ==> InRegion(img, t) && CallableSeed(img, t)
  {
    OverlayWalkSound(img, entry, cap, w);
  }

  method WalkPending(c: Context, included0: map<int, Reason>, excluded0: map<int, Reason>, roots0: set<int>, pending0: seq<int>, processed0: set<int>)
    returns (included: map<int, Reason>, excluded: map<int, Reason>, roots: set<int>, processed: set<int>)
    requires Consistent(c, included0, roots0)
    requires processed0 <= roots0 && CallsAreRoots(c.img, roots0, processed0)
    requires forall a :: a in pending0 ==> a in roots0
    requires forall a :: a in roots0 ==> a in processed0 || a in pending0
    ensures Consistent(c, included, roots)
    ensures roots0 <= roots && included0.Keys <= included.Keys && excluded == excluded0
    ensures processed == roots && CallsAreRoots(c.img, roots, roots)
  {
    included, excluded, roots, processed := included0, excluded0, roots0, processed0;
    var pending := pending0;
    hide Consistent, IsWalk, IsCap, CallsAreRoots;
    while pending != []
      invariant Consistent(c, included, roots)
      invariant roots0 <= roots && included0.Keys <= included.Keys && excluded == excluded0
      invariant processed <= roots && CallsAreRoots(c.img, roots, processed)
      invariant forall a :: a in pending ==> a in roots
      invariant forall a :: a in roots ==> a in processed || a in pending
      decreases RegionWords(c.img) - roots, |pending|
    {
      var entry, rest := pending[0], pending[1..];
      assert forall a :: a in pending <==> a == entry || a in rest;
      if entry in processed {
        pending := rest;
        continue;
      }
      RootsAreInRegion(c, included, roots);
      var cap := NextRoot(c.img, roots, entry);
      var w := WalkOverlayFunction(c.img, entry, cap);
      WalkFindsCallables(c.img, entry, cap, w);
      ghost var before := roots;
      included, excluded, roots, pending := AdoptCalls(c, w.directCalls, included, excluded, roots, rest);
      ProcessedGrows(c.img, before, roots, processed, entry, cap, w);
      MoreRoots(c, included, roots, before);
      processed := processed + {entry};
    }
    assert forall a :: a in roots <==> a in processed;
  }

  // ---- Coverage of the final roots -----------------------------------------------------------

  /** w is a walk of a root up to its cap among these roots. */
  ghost predicate IsRootWalk(img: Image, roots: set<int>, entry: int, w: WalkResult) {
    exists cap :: IsCap(img, roots, entry, cap) && IsWalk(img, entry, cap, w)
  }

  ghost predicate AreRootWalks(img: Image, roots: set<int>, walks: map<int, WalkResult>) {
    walks.Keys == roots && forall e :: e in roots ==> IsRootWalk(img, roots, e, walks[e])
  }

  /** The walks of all roots, each up to the next root. */
  method WalkRoots(img: Image, roots: set<int>) returns (walks: map<int, WalkResult>)
    requires InRegionAll(img, roots)
    ensures AreRootWalks(img, roots, walks)
  {
    var q := Sorted(roots);
    walks := map[];
    for i := 0 to |q|
      invariant forall a :: a in walks <==> a in q[..i]
      invariant forall a :: a in walks ==> IsRootWalk(img, roots, a, walks[a])
    {
      var cap := NextRoot(img, roots, q[i]);
      var w := WalkOverlayFunction(img, q[i], cap);
      assert IsRootWalk(img, roots, q[i], w);
      walks := walks[q[i] := w];
    }
    assert q[..|q|] == q;
    assert forall a :: a in walks.Keys <==> a in roots;
  }

  /** a lies in the walk of exactly one root. */
  ghost predicate OwnedByOne(walks: map<int, WalkResult>, a: int) {
    exists e :: e in walks && a in walks[e].visited && forall f :: f in walks && a in walks[f].visited ==> f == e
  }

  lemma WalkStaysInside(img: Image, entry: int, cap: int, w: WalkResult, a: int)
    requires IsWalk(img, entry, cap, w) && a in w.visited
    ensures InFunction(img, entry, cap, a)
  {
    OverlayWalkSound(img, entry, cap, w);
    var g := OverlayFlow(img, entry, cap);
    if Reachable(g, a) {
      OverlayFlowNode(img, entry, cap, a);
    } else {
      var e :| Reachable(g, e) && a in Slots(g, e);
      OverlayFlowNode(img, entry, cap, e);
    }
  }

  /** The walks of different roots never meet, since each stops at the next root. */
  lemma RootWalksAreDisjoint(img: Image, roots: set<int>, walks: map<int, WalkResult>, a: int, e: int, f: int)
    requires AreRootWalks(img, roots, walks)
    requires e in walks && a in walks[e].visited && f in walks && a in walks[f].visited
    ensures e == f
  {
    var ce :| IsCap(img, roots, e, ce) && IsWalk(img, e, ce, walks[e]);
    var cf :| IsCap(img, roots, f, cf) && IsWalk(img, f, cf, walks[f]);
    WalkStaysInside(img, e, ce, walks[e], a);
    WalkStaysInside(img, f, cf, walks[f], a);
  }

  function CoveredBy(walks: map<int, WalkResult>): set<int> {
    set e, a | e in walks && a in walks[e].visited :: a
  }

  /** The interiors no root walk covers. */
  method Orphans(c: Context, included: map<int, Reason>, covered: set<int>) returns (orphans: set<int>)
    requires WellIncluded(c, included)
    ensures forall a :: a in orphans <==> a in included && included[a].DispatchInterior? && a !in covered
  {
    orphans := set a | a in included && included[a].DispatchInterior? && a !in covered && IsValidMipsWord(WordAt(c.img, a));
  }

  // ---- Termination of the promotion loop ------------------------------------------------------

  lemma PromotionShrinks(c: Context, included: map<int, Reason>, roots: set<int>, a: int)
    requires Consistent(c, included, roots) && a in included && included[a].DispatchInterior? && KernelWindow(c.img)
    ensures Consistent(c, included[a := DispatchRoot], roots + {a})
    ensures RegionWords(c.img) - (roots + {a}) < RegionWords(c.img) - roots
  {
    assert a in RegionWords(c.img) - roots;
  }

  /** The walk loop with orphan promotion: ends with every root walked and, in a kernel window,
      every interior inside the walk of exactly one root. */
  method GrowRoots(c: Context, included0: map<int, Reason>, excluded: map<int, Reason>)
    returns (included: map<int, Reason>, roots: set<int>, walks: map<int, WalkResult>)
    requires WellIncluded(c, included0)
    ensures Consistent(c, included, roots) && included0.Keys <= included.Keys
    ensures CallsAreRoots(c.img, roots, roots)
    ensures AreRootWalks(c.img, roots, walks)
    ensures KernelWindow(c.img) ==>
      forall a :: a in included && included[a].DispatchInterior? ==> OwnedByOne(walks, a)
  {
    hide Consistent, IsWalk, IsCap, IsRootWalk, Justified, KernelWindow;
    roots := RootsOf(c, included0);
    included := included0;
    var pending := Sorted(roots);
    var processed := {};
    var excluded' := excluded;
    while true
      invariant Consistent(c, included, roots) && included0.Keys <= included.Keys
      invariant processed <= roots && CallsAreRoots(c.img, roots, processed)
      invariant forall a :: a in pending ==> a in roots
      invariant forall a :: a in roots ==> a in processed || a in pending
      decreases RegionWords(c.img) - roots
    {
      ghost var before := roots;
      included, excluded', roots, processed := WalkPending(c, included, excluded', roots, pending, processed);
      MoreRoots(c, included, roots, before);
      RootsAreInRegion(c, included, roots);
      ConsistentIsWell(c, included, roots);
      if !KernelWindow(c.img) {
        walks := WalkRoots(c.img, roots);
        return;
      }
      walks := WalkRoots(c.img, roots);
      var covered := CoveredBy(walks);
      var orphans := Orphans(c, included, covered);
      if orphans == {} {
        InteriorsAreOwned(c, included, roots, walks, covered, orphans);
        return;
      }
      var q := Sorted(orphans);
      NotEmpty(orphans, q);
      var a := q[0];
      assert a in orphans;
      PromotionShrinks(c, included, roots, a);
      CallsStayRoots(c.img, roots, roots + {a}, processed);
      included, roots, pending := included[a := DispatchRoot], roots + {a}, [a];
    }
  }

  lemma NotEmpty(s: set<int>, q: seq<int>)
    requires s != {} && SortedCopy(q, s)
    ensures q != []
  {
    if q == [] {
      assert forall a :: a !in s;
    }
  }

  lemma ConsistentIsWell(c: Context, included: map<int, Reason>, roots: set<int>)
    requires Consistent(c, included, roots)
    ensures WellIncluded(c, included)
  {
  }

  method RootsOf(c: Context, included: map<int, Reason>) returns (roots: set<int>)
    requires WellIncluded(c, included)
    ensures Consistent(c, included, roots)
  {
    roots := set a | a in included && !included[a].DispatchInterior?;
  }

  lemma InteriorsAreOwned(c: Context, included: map<int, Reason>, roots: set<int>, walks: map<int, WalkResult>, covered: set<int>, orphans: set<int>)
    requires AreRootWalks(c.img, roots, walks)
    requires covered == CoveredBy(walks)
    requires forall a :: a in orphans <==> a in included && included[a].DispatchInterior? && a !in covered
    requires orphans == {}
    ensures forall a :: a in included && included[a].DispatchInterior? ==> OwnedByOne(walks, a)
  {
    forall a | a in included && included[a].DispatchInterior?
      ensures OwnedByOne(walks, a)
    {
      assert a !in orphans;
      var e :| e in walks && a in walks[e].visited;
      forall f | f in walks && a in walks[f].visited
        ensures f == e
      {
        RootWalksAreDisjoint(c.img, roots, walks, a, e, f);
      }
    }
  }

  // ---- The whole classification ---------------------------------------------------------------

  function LegacyCallable(img: Image, cap: Capture): set<int> {
    set a | a in cap.legacySeeds && InRegion(img, a) && CallableSeed(img, a)
  }

  /** Entries that are certain enough to look for jump tables behind them. */
  function PreRoots(img: Image, cap: Capture): set<int> {
    set a | a in LegacyCallable(img, cap) + cap.functionEntries + cap.tomlEntries
                 + (set d | d in cap.dispatch && CallableSeed(img, d)) && InRegion(img, a)
  }

  function TableLabels(walks: map<int, WalkResult>): set<int> {
    set e, t | e in walks && t in walks[e].tableTargets :: t
  }

  /** tables are the jump-table case labels behind the pre-roots. */
  ghost predicate AreTableLabels(img: Image, cap: Capture, tables: set<int>) {
    exists walks :: AreRootWalks(img, PreRoots(img, cap), walks) && tables == TableLabels(walks)
  }

  /** Includes the capture's own evidence, in the source's order. */
  method IncludeEvidence(c: Context) returns (included: map<int, Reason>, excluded: map<int, Reason>)
    ensures WellIncluded(c, included)
    ensures forall a :: a in c.cap.dispatch + c.cap.functionEntries + c.cap.tomlEntries ==> a in included || a in excluded
    ensures forall a :: a in c.cap.tomlEntries && InRegion(c.img, a) ==> a in included
    ensures forall a :: a in c.cap.dispatch && !Fatal(Gate(c, a, DispatchEntry)) ==> a in included
    ensures forall a :: a in c.cap.functionEntries && !Fatal(Gate(c, a, FunctionPointerTarget)) ==> a in included
  {
    var dispatch := Enumerate(c.cap.dispatch);
    var functions := Enumerate(c.cap.functionEntries);
    var toml := Enumerate(c.cap.tomlEntries);
    included, excluded := IncludeAll(c, dispatch, DispatchEntry, map[], map[]);
    included, excluded := IncludeAll(c, functions, FunctionPointerTarget, included, excluded);
    included, excluded := IncludeAll(c, toml, TomlDeclaredEntry, included, excluded);
    if c.cap.legacySeeds != {} && !c.cap.hasSchema {
      var legacy := Enumerate(LegacyCallable(c.img, c.cap));
      included, excluded := IncludeAll(c, legacy, FunctionPointerTarget, included, excluded);
    }
  }

  /** Every address the capture mentions inside the region. */
  function Candidates(img: Image, cap: Capture): set<int> {
    set a | a in cap.executed + cap.dispatch + cap.functionEntries + cap.legacySeeds + cap.tomlEntries && InRegion(img, a)
  }

  function BranchTargets(walks: map<int, WalkResult>): set<int> {
    set e, t | e in walks && t in walks[e].branchTargets + walks[e].tableTargets :: t
  }

  function ExclusionReason(c: Context, branchTargets: set<int>, a: int): Reason {
    if a in branchTargets || a in c.tables then BranchTargetOnly
    else if a in c.cap.executed || a in c.cap.legacySeeds then ObservedPcOnly
    else Unknown
  }

  /** What the classification promises about a capture. */
  ghost predicate Classified(c: Context, included: map<int, Reason>, excluded: map<int, Reason>, roots: set<int>, walks: map<int, WalkResult>) {
    && Consistent(c, included, roots)
    && CallsAreRoots(c.img, roots, roots)
    && AreRootWalks(c.img, roots, walks)
    && (KernelWindow(c.img) ==> forall a :: a in included && included[a].DispatchInterior? ==> OwnedByOne(walks, a))
    && (forall a :: a in Candidates(c.img, c.cap) && a !in included ==>
          a in excluded && excluded[a] == ExclusionReason(c, BranchTargets(walks), a))
  }

  method ClassifySeeds(img: Image, cap: Capture, gameLo: int, gameHi: int)
    returns (c: Context, included: map<int, Reason>, excluded: map<int, Reason>, roots: set<int>, walks: map<int, WalkResult>)
    ensures c == Context(img, cap, c.tables, gameLo, gameHi) && AreTableLabels(img, cap, c.tables)
    ensures Classified(c, included, excluded, roots, walks)
    ensures forall a :: a in cap.tomlEntries && InRegion(img, a) ==> a in included
    ensures forall a :: a in cap.dispatch && !Fatal(Gate(c, a, DispatchEntry)) ==> a in included
    ensures forall a :: a in cap.functionEntries && !Fatal(Gate(c, a, FunctionPointerTarget)) ==> a in included
  {
    hide Consistent, CallsAreRoots, AreRootWalks, OwnedByOne, KernelWindow, Gate, WellIncluded, InRegion;
    assert InRegionAll(img, PreRoots(img, cap));
    var labelWalks := WalkRoots(img, PreRoots(img, cap));
    var tables := TableLabels(labelWalks);
    c := Context(img, cap, tables, gameLo, gameHi);
    included, excluded := IncludeEvidence(c);
    included, roots, walks := GrowRoots(c, included, excluded);
    excluded := ExcludeRest(c, included, excluded, walks);
  }

  /** Gives every candidate that is not included its reason. */
  method ExcludeRest(c: Context, included: map<int, Reason>, excluded0: map<int, Reason>, walks: map<int, WalkResult>)
    returns (excluded: map<int, Reason>)
    ensures forall a :: a in Candidates(c.img, c.cap) && a !in included ==>
      a in excluded && excluded[a] == ExclusionReason(c, BranchTargets(walks), a)
  {
    hide Candidates, ExclusionReason, BranchTargets;
    excluded := excluded0;
    var rest := Sorted(Candidates(c.img, c.cap) - included.Keys);
    for i := 0 to |rest|
      invariant forall k :: 0 <= k < i ==> rest[k] in excluded && excluded[rest[k]] == ExclusionReason(c, BranchTargets(walks), rest[k])
    {
      excluded := excluded[rest[i] := ExclusionReason(c, BranchTargets(walks), rest[i])];
    }
    forall a | a in Candidates(c.img, c.cap) && a !in included
      ensures a in excluded && excluded[a] == ExclusionReason(c, BranchTargets(walks), a)
    {
      assert a in rest;
    }
  }

  // ---- What the classification means ----------------------------------------------------------

  lemma CleanSlotsShrink(img: Image, entry: int, low: int, high: int)
    requires low <= high && CleanSlots(img, entry, high)
    ensures CleanSlots(img, entry, low)
  {
    var g, h := OverlayFlow(img, entry, low), OverlayFlow(img, entry, high);
    LowerCapRestricts(img, entry, low, high);
    forall e | Reachable(g, e) && DelaySlots(img, entry, low, e) != {}
      ensures Kind(img, e + 4).Normal?
      ensures NeverFallsThrough(Kind(img, e)) ==> !Reachable(g, e + 4)
    {
      RestrictionIsMonotone(g, h, e);
      assert DelaySlots(img, entry, high, e) == {e + 4};
      if Reachable(g, e + 4) {
        RestrictionIsMonotone(g, h, e + 4);
      }
    }
  }

  /** Closure: although each root was walked once, with the roots known at that time, every
      callable direct-call target of any walk of any root up to its final cap is a root. */
  lemma FinalWalksAreClosed(img: Image, roots: set<int>, entry: int, w: WalkResult)
    requires CallsAreRoots(img, roots, roots) && entry in roots
    requires IsRootWalk(img, roots, entry, w)
    requires CleanSlots(img, entry, img.Hi())
    ensures w.directCalls <= roots
  {
    var low :| IsCap(img, roots, entry, low) && IsWalk(img, entry, low, w);
    var high, first :| IsWalk(img, entry, high, first) && CapCovers(img, roots, entry, high) && first.directCalls <= roots;
    CleanSlotsShrink(img, entry, high, img.Hi());
    CallsShrinkWithCap(img, entry, low, high, w, first);
  }

  /** The same without mentioning walks: the roots are closed under reachable direct calls. */
  lemma RootsAreClosedUnderCalls(
      c: Context, included: map<int, Reason>, excluded: map<int, Reason>, roots: set<int>, walks: map<int, WalkResult>,
      entry: int, cap: int, a: int, target: int)
    requires Classified(c, included, excluded, roots, walks)
    requires entry in roots && IsCap(c.img, roots, entry, cap) && CleanSlots(c.img, entry, c.img.Hi())
    requires Reachable(OverlayFlow(c.img, entry, cap), a) && Kind(c.img, a) == Call(target)
    requires InRegion(c.img, target) && CallableSeed(c.img, target)
    ensures target in roots && target in included && !included[target].DispatchInterior?
  {
    hide WordAt, ClassifyCf, CallableSeed, InRegion, WellIncluded, CleanSlots, IsWalk, Successors, DelaySlots, Expandable;
    hide CallsAreRoots, OwnedByOne, Candidates, ExclusionReason, KernelWindow;
    CleanSlotsShrink(c.img, entry, cap, c.img.Hi());
    assert IsRootWalk(c.img, roots, entry, walks[entry]);
    var cap' :| IsCap(c.img, roots, entry, cap') && IsWalk(c.img, entry, cap', walks[entry]);
    assert cap' == cap;
    OverlayWalkExact(c.img, entry, cap, walks[entry]);
    OverlayFlowNode(c.img, entry, cap, a);
    assert ReachableEmit(OverlayFlow(c.img, entry, cap), target);
    FinalWalksAreClosed(c.img, roots, entry, walks[entry]);
  }

  /** Roots, inclusions and reasons: no fatal reason is ever included, every inclusion is a word
      of the region, and promotion happens in kernel windows only. */
  lemma InclusionsAreSound(c: Context, included: map<int, Reason>, excluded: map<int, Reason>, roots: set<int>, walks: map<int, WalkResult>, a: int)
    requires Classified(c, included, excluded, roots, walks) && a in included
    ensures InRegion(c.img, a) && !Fatal(included[a])
    ensures a in roots <==> !included[a].DispatchInterior?
    ensures included[a].DispatchRoot? ==> KernelWindow(c.img) && a in c.cap.dispatch
    ensures included[a].DispatchInterior? ==> a in c.cap.dispatch
    ensures included[a].DirectJalTarget? ==> CallableSeed(c.img, a)
  {
  }

  /** In a kernel window each remaining interior is an instruction, or a delay slot, that exactly
      one root reaches before the next root begins. */
  lemma KernelInteriorsHaveOneHost(c: Context, included: map<int, Reason>, excluded: map<int, Reason>, roots: set<int>, walks: map<int, WalkResult>, a: int)
    returns (host: int, cap: int)
    requires Classified(c, included, excluded, roots, walks) && KernelWindow(c.img)
    requires a in included && included[a].DispatchInterior?
    ensures host in roots && IsCap(c.img, roots, host, cap) && Covered(c.img, host, cap, a)
    ensures forall other, cap' :: other in roots && IsCap(c.img, roots, other, cap') && Covered(c.img, other, cap', a) ==> other == host
  {
    hide Classified, IsRootWalk, IsWalk, Covered, InFunction, IsCap;
    host := HostOf(c, included, excluded, roots, walks, a);
    cap := CapOfWalk(c.img, roots, host, walks[host]);
    OverlayWalkSound(c.img, host, cap, walks[host]);
    WalkStaysInside(c.img, host, cap, walks[host], a);
    forall other, cap' | other in roots && IsCap(c.img, roots, other, cap') && Covered(c.img, other, cap', a)
      ensures other == host
    {
      CoveredIsInside(c.img, other, cap', a);
      CapsAreDisjoint(c.img, roots, host, cap, other, cap', a);
    }
  }

  lemma HostOf(c: Context, included: map<int, Reason>, excluded: map<int, Reason>, roots: set<int>, walks: map<int, WalkResult>, a: int)
    returns (host: int)
    requires Classified(c, included, excluded, roots, walks) && KernelWindow(c.img)
    requires a in included && included[a].DispatchInterior?
    ensures host in roots && host in walks && a in walks[host].visited && IsRootWalk(c.img, roots, host, walks[host])
  {
    hide Consistent, CallsAreRoots, IsRootWalk, Candidates, KernelWindow;
    assert OwnedByOne(walks, a);
    host :| host in walks && a in walks[host].visited;
    assert host in walks.Keys;
  }

  lemma CapOfWalk(img: Image, roots: set<int>, entry: int, w: WalkResult) returns (cap: int)
    requires IsRootWalk(img, roots, entry, w)
    ensures IsCap(img, roots, entry, cap) && IsWalk(img, entry, cap, w)
  {
    hide IsCap, IsWalk;
    cap :| IsCap(img, roots, entry, cap) && IsWalk(img, entry, cap, w);
  }

  /** Every address belongs to at most one root's stretch. */
  lemma CapsAreDisjoint(img: Image, roots: set<int>, e1: int, c1: int, e2: int, c2: int, a: int)
    requires e1 in roots && e2 in roots && IsCap(img, roots, e1, c1) && IsCap(img, roots, e2, c2)
    requires InFunction(img, e1, c1, a) && InFunction(img, e2, c2, a)
    ensures e1 == e2
  {
  }

  lemma CoveredIsInside(img: Image, entry: int, cap: int, a: int)
    requires Covered(img, entry, cap, a)
    ensures InFunction(img, entry, cap, a)
  {
    var g := OverlayFlow(img, entry, cap);
    OverlayFlowNode(img, entry, cap, a);
    if !Reachable(g, a) {
      var e :| Reachable(g, e) && a in Slots(g, e);
      OverlayFlowNode(img, entry, cap, e);
    }
  }
}
