/**
 The parallel build driver of the content-validated overlay cache
 (psxrecomp/tools/compile_overlays.py, _do_capture and _cap_worker): workers that share the cache
 directory, the warm coverage sets and two kinds of locks, as interleaved steps.
 */
module CacheProtocol {
  import opened Wrappers

  /** A function identity: its entry and the CRC of its code bytes. */
  type Id = (int, int)

  /** The file-name key of a build: region start and CRC of the whole image. */
  type Key = (int, int)

  /** One capture: where it belongs, the identities its code would provide, whether it survives
      classification, recompilation and the generated-code audit, and whether it compiles. */
  datatype Capture = Capture(key: Key, ids: set<Id>, prepared: bool, compiles: bool)

  datatype Outcome = DllExists | Rejected | Covered | Failed | Built

  /** Where a worker is in its capture. */
  datatype Pc =
    | Waiting
    | Entered
    | Ready
    | Loading(unread: set<Key>, seen: set<Id>)
    | Compiling
    | Opening
    | Writing(written: set<Id>)
    | Updating
    | Finishing(outcome: Outcome)
    | Done(outcome: Outcome)

  datatype State = State(
    dlls: set<Key>,
    ranges: map<Key, set<Id>>,
    coverage: map<int, set<Id>>,
    keyLocks: map<Key, nat>,
    coverageLock: Option<nat>,
    pcs: seq<Pc>)

  /** The identities all manifests of a region list. */
  function DiskIds(ranges: map<Key, set<Id>>, region: int): set<Id> {
    set k, id | k in ranges && k.0 == region && id in ranges[k] :: id
  }

  function RegionFiles(ranges: map<Key, set<Id>>, region: int): set<Key> {
    set k | k in ranges && k.0 == region
  }

  /** After loading: record the warm set and decide whether the capture adds anything. */
  function AfterCheck(c: Capture, covered: set<Id>): Pc {
    if c.ids != {} && c.ids <= covered then Finishing(Covered) else Compiling
  }

  /** One step of worker i on capture c.  The window between the coverage check and the coverage
      update holds no lock but the worker's own key lock. */
  ghost predicate Step(c: Capture, i: nat, s: State, t: State)
    requires i < |s.pcs|
  {
    var region := c.key.0;
    match s.pcs[i]
    case Waiting =>
      c.key !in s.keyLocks && t == s.(keyLocks := s.keyLocks[c.key := i], pcs := s.pcs[i := Entered])
    case Entered =>
      t == s.(pcs := s.pcs[i := if !c.prepared then Finishing(Rejected) else if c.key in s.dlls then Finishing(DllExists) else Ready])
    case Ready =>
      && s.coverageLock.None?
      && if region in s.coverage
         then t == s.(pcs := s.pcs[i := AfterCheck(c, s.coverage[region])])
         else t == s.(coverageLock := Some(i), pcs := s.pcs[i := Loading(RegionFiles(s.ranges, region), {})])
    case Loading(unread, seen) =>
      if unread == {} then
        t == s.(coverage := s.coverage[region := seen], coverageLock := None, pcs := s.pcs[i := AfterCheck(c, seen)])
      else
        exists k :: k in unread && k in s.ranges && t == s.(pcs := s.pcs[i := Loading(unread - {k}, seen + s.ranges[k])])
    case Compiling =>
      if !c.compiles then t == s.(pcs := s.pcs[i := Finishing(Failed)])
      else t == s.(dlls := s.dlls + {c.key}, pcs := s.pcs[i := if c.ids == {} then Finishing(Built) else Opening])
    case Opening =>
      t == s.(ranges := s.ranges[c.key := {}], pcs := s.pcs[i := Writing({})])
    case Writing(written) =>
      if written == c.ids then t == s.(pcs := s.pcs[i := Updating])
      else exists more :: written < more <= c.ids && t == s.(ranges := s.ranges[c.key := more], pcs := s.pcs[i := Writing(more)])
    case Updating =>
      && s.coverageLock.None?
      && region in s.coverage
      && t == s.(coverage := s.coverage[region := s.coverage[region] + c.ids], pcs := s.pcs[i := Finishing(Built)])
    case Finishing(outcome) =>
      t == s.(keyLocks := s.keyLocks - {c.key}, pcs := s.pcs[i := Done(outcome)])
    case Done(_) => false
  }

  ghost predicate Initial(caps: seq<Capture>, s: State) {
    && |s.pcs| == |caps|
    && (forall i :: 0 <= i < |caps| ==> s.pcs[i] == Waiting)
    && s.coverage == map[] && s.keyLocks == map[] && s.coverageLock == None
    && s.ranges.Keys <= s.dlls
  }

  ghost predicate Next(caps: seq<Capture>, s: State, t: State) {
    |s.pcs| == |caps| && exists i :: 0 <= i < |caps| && Step(caps[i], i, s, t)
  }

  ghost predicate IsRun(caps: seq<Capture>, run: seq<State>) {
    && |run| > 0
    && Initial(caps, run[0])
    && forall n :: 0 < n < |run| ==> Next(caps, run[n - 1], run[n])
  }

  // ---- The invariant ---------------------------------------------------------------------------

  predicate HoldsKey(pc: Pc) { !pc.Waiting? && !pc.Done? }

  /** The worker has seen that its library is missing and has not built it yet. */
  predicate BeforeBuild(pc: Pc) { pc.Ready? || pc.Loading? || pc.Compiling? }

  /** The worker found coverage of its region warm, or warmed it. */
  predicate SawCoverage(pc: Pc) { pc.Compiling? || pc.Opening? || pc.Writing? || pc.Updating? }

  /** A worker whose build or skip is decided in favour of its identities being on disk. */
  predicate Provided(pc: Pc) {
    (pc.Finishing? || pc.Done?) && (pc.outcome.Covered? || pc.outcome.Built?)
  }

  /** A capture whose library is missing at the start and which reaches the dedup check. */
  predicate Eligible(c: Capture, dlls0: set<Key>) { c.prepared && c.key !in dlls0 }

  /** What a worker's position says about the shared state. */
  ghost predicate WorkerOk(c: Capture, i: nat, s: State, dlls0: set<Key>)
    requires i < |s.pcs|
  {
    var pc := s.pcs[i];
    && (HoldsKey(pc) ==> c.key in s.keyLocks && s.keyLocks[c.key] == i)
    && (BeforeBuild(pc) || pc.Opening? || pc.Writing? || pc.Updating? ==> Eligible(c, dlls0))
    && (BeforeBuild(pc) ==> c.key !in s.dlls)
    && (SawCoverage(pc) ==> c.key.0 in s.coverage)
    && (pc.Opening? || pc.Writing? || pc.Updating? ==> c.key in s.dlls && c.ids != {} && c.compiles)
    && (pc.Opening? ==> c.key !in s.ranges)
    && (pc.Writing? ==> c.key in s.ranges && s.ranges[c.key] == pc.written && pc.written <= c.ids)
    && (pc.Updating? ==> c.ids <= DiskIds(s.ranges, c.key.0))
    && (pc.Loading? ==> s.coverageLock == Some(i) && c.key.0 !in s.coverage
                        && pc.unread <= RegionFiles(s.ranges, c.key.0) && pc.seen <= DiskIds(s.ranges, c.key.0))
    && (Provided(pc) ==> c.ids <= DiskIds(s.ranges, c.key.0))
  }

  ghost predicate CoverageOnDisk(s: State) {
    forall r :: r in s.coverage ==> s.coverage[r] <= DiskIds(s.ranges, r)
  }

  ghost predicate Inv(caps: seq<Capture>, s: State, dlls0: set<Key>) {
    && |s.pcs| == |caps|
    && dlls0 <= s.dlls
    && s.ranges.Keys <= s.dlls
    && CoverageOnDisk(s)
    && (forall i :: 0 <= i < |caps| ==> WorkerOk(caps[i], i, s, dlls0))
  }

  /** No step takes an identity off the disk. */
  ghost predicate DiskGrows(s: State, t: State) {
    forall r :: DiskIds(s.ranges, r) <= DiskIds(t.ranges, r)
  }

  lemma RangesGrow(a: map<Key, set<Id>>, b: map<Key, set<Id>>, region: int)
    requires forall k :: k in a ==> k in b && a[k] <= b[k]
    ensures DiskIds(a, region) <= DiskIds(b, region) && RegionFiles(a, region) <= RegionFiles(b, region)
  {
    forall id | id in DiskIds(a, region)
      ensures id in DiskIds(b, region)
    {
      var k :| k in a && k.0 == region && id in a[k];
      assert k in b && id in b[k];
    }
  }

  lemma FileIsOnDisk(ranges: map<Key, set<Id>>, k: Key)
    requires k in ranges
    ensures ranges[k] <= DiskIds(ranges, k.0)
  {
  }

  /** What worker i may change: its own position, its own key's lock and files, its region's warm
      set, and the coverage lock while it is free or its own. */
  ghost predicate Touches(c: Capture, i: nat, s: State, t: State)
    requires i < |s.pcs|
  {
    && |t.pcs| == |s.pcs| && (forall j :: 0 <= j < |s.pcs| && j != i ==> t.pcs[j] == s.pcs[j])
    && s.dlls <= t.dlls <= s.dlls + {c.key}
    && (t.dlls != s.dlls ==> HoldsKey(s.pcs[i]))
    && (forall k :: k in s.ranges ==> k in t.ranges && s.ranges[k] <= t.ranges[k])
    && (forall k :: k in t.ranges && k != c.key ==> k in s.ranges && t.ranges[k] == s.ranges[k])
    && (t.ranges != s.ranges ==> HoldsKey(s.pcs[i]))
    && (forall k :: k != c.key ==> (k in t.keyLocks <==> k in s.keyLocks))
    && (forall k :: k != c.key && k in s.keyLocks ==> t.keyLocks[k] == s.keyLocks[k])
    && (t.keyLocks != s.keyLocks ==> HoldsKey(s.pcs[i]) || c.key !in s.keyLocks)
    && (t.coverageLock != s.coverageLock ==> s.coverageLock.None? || s.coverageLock == Some(i))
    && s.coverage.Keys <= t.coverage.Keys
    && (t.coverage.Keys != s.coverage.Keys ==> s.coverageLock == Some(i))
  }

  lemma StepTouches(c: Capture, i: nat, s: State, t: State, dlls0: set<Key>)
    requires i < |s.pcs| && Step(c, i, s, t) && WorkerOk(c, i, s, dlls0)
    ensures Touches(c, i, s, t)
  {
  }

  /** The positions of the other workers stay consistent with the shared state. */
  lemma OthersUnharmed(ci: Capture, i: nat, cj: Capture, j: nat, s: State, t: State, dlls0: set<Key>)
    requires i < |s.pcs| && j < |s.pcs| && i != j
    requires Touches(ci, i, s, t)
    requires WorkerOk(ci, i, s, dlls0) && WorkerOk(cj, j, s, dlls0)
    ensures WorkerOk(cj, j, t, dlls0)
  {
    RangesGrow(s.ranges, t.ranges, cj.key.0);
    if HoldsKey(s.pcs[j]) {
      assert cj.key == ci.key ==> !HoldsKey(s.pcs[i]);
    }
  }

  /** Up to the build decision the worker only reads; whatever it read is on disk. */
  lemma CheckAdvances(c: Capture, i: nat, s: State, t: State, dlls0: set<Key>)
    requires i < |s.pcs| && Step(c, i, s, t) && WorkerOk(c, i, s, dlls0)
    requires s.pcs[i].Waiting? || s.pcs[i].Entered? || s.pcs[i].Ready? || s.pcs[i].Loading?
    requires dlls0 <= s.dlls && CoverageOnDisk(s)
    ensures WorkerOk(c, i, t, dlls0)
  {
    hide DiskIds, RegionFiles;
    if s.pcs[i].Loading? && s.pcs[i].unread != {} {
      var unread, seen := s.pcs[i].unread, s.pcs[i].seen;
      var k :| k in unread && k in s.ranges && t == s.(pcs := s.pcs[i := Loading(unread - {k}, seen + s.ranges[k])]);
      RegionFileKey(s.ranges, c.key.0, k);
      FileIsOnDisk(s.ranges, k);
    } else if s.pcs[i].Ready? {
      NothingSeen(s.ranges, c.key.0);
    }
  }

  lemma RegionFileKey(ranges: map<Key, set<Id>>, region: int, k: Key)
    requires k in RegionFiles(ranges, region)
    ensures k in ranges && k.0 == region
  {
  }

  lemma NothingSeen(ranges: map<Key, set<Id>>, region: int)
    ensures {} <= DiskIds(ranges, region)
  {
  }

  /** The build writes the capture's own manifest before anyone is told about it. */
  lemma BuildAdvances(c: Capture, i: nat, s: State, t: State, dlls0: set<Key>)
    requires i < |s.pcs| && Step(c, i, s, t) && WorkerOk(c, i, s, dlls0)
    requires !(s.pcs[i].Waiting? || s.pcs[i].Entered? || s.pcs[i].Ready? || s.pcs[i].Loading?)
    requires s.ranges.Keys <= s.dlls
    ensures WorkerOk(c, i, t, dlls0)
  {
    hide RegionFiles;
    StepTouches(c, i, s, t, dlls0);
    RangesGrow(s.ranges, t.ranges, c.key.0);
    hide DiskIds;
    if s.pcs[i].Writing? && s.pcs[i].written == c.ids {
      FileIsOnDisk(s.ranges, c.key);
    } else if s.pcs[i].Compiling? {
      NothingSeen(s.ranges, c.key.0);
    }
  }

  lemma CoverageStaysOnDisk(c: Capture, i: nat, s: State, t: State, dlls0: set<Key>)
    requires i < |s.pcs| && Step(c, i, s, t) && WorkerOk(c, i, s, dlls0) && CoverageOnDisk(s)
    ensures CoverageOnDisk(t)
  {
    StepTouches(c, i, s, t, dlls0);
    forall r | r in t.coverage
      ensures t.coverage[r] <= DiskIds(t.ranges, r)
    {
      RangesGrow(s.ranges, t.ranges, r);
    }
  }

  /** Every step keeps the invariant and takes nothing off the disk. */
  lemma StepKeepsInvariant(caps: seq<Capture>, s: State, t: State, dlls0: set<Key>)
    requires Inv(caps, s, dlls0) && Next(caps, s, t)
    ensures Inv(caps, t, dlls0) && DiskGrows(s, t) && s.dlls <= t.dlls
  {
    var i :| 0 <= i < |caps| && Step(caps[i], i, s, t);
    StepTouches(caps[i], i, s, t, dlls0);
    if s.pcs[i].Waiting? || s.pcs[i].Entered? || s.pcs[i].Ready? || s.pcs[i].Loading? {
      CheckAdvances(caps[i], i, s, t, dlls0);
    } else {
      BuildAdvances(caps[i], i, s, t, dlls0);
    }
    CoverageStaysOnDisk(caps[i], i, s, t, dlls0);
    forall j | 0 <= j < |caps|
      ensures WorkerOk(caps[j], j, t, dlls0)
    {
      if j != i {
        OthersUnharmed(caps[i], i, caps[j], j, s, t, dlls0);
      }
    }
    forall r
      ensures DiskIds(s.ranges, r) <= DiskIds(t.ranges, r)
    {
      RangesGrow(s.ranges, t.ranges, r);
    }
    assert t.ranges.Keys <= t.dlls by {
      assert forall k :: k in t.ranges && k !in s.ranges ==> k == caps[i].key;
    }
  }

  // ---- Safety over whole runs -------------------------------------------------------------------

  lemma {:induction false} RunKeepsInvariant(caps: seq<Capture>, run: seq<State>, n: nat)
    requires IsRun(caps, run) && n < |run|
    ensures Inv(caps, run[n], run[0].dlls)
  {
    if n > 0 {
      RunKeepsInvariant(caps, run, n - 1);
      StepKeepsInvariant(caps, run[n - 1], run[n], run[0].dlls);
    }
  }

  lemma {:induction false} RunOnlyAdds(caps: seq<Capture>, run: seq<State>, m: nat, n: nat)
    requires IsRun(caps, run) && m <= n < |run|
    ensures DiskGrows(run[m], run[n])
    decreases n
  {
    if m < n {
      RunKeepsInvariant(caps, run, n - 1);
      StepKeepsInvariant(caps, run[n - 1], run[n], run[0].dlls);
      RunOnlyAdds(caps, run, m, n - 1);
    }
  }

  /** In every interleaving, at every moment, the warm set of a region lists only identities that
      are on disk. */
  lemma WarmSetsAreOnDisk(caps: seq<Capture>, run: seq<State>, n: nat, region: int)
    requires IsRun(caps, run) && n < |run| && region in run[n].coverage
    ensures run[n].coverage[region] <= DiskIds(run[n].ranges, region)
  {
    RunKeepsInvariant(caps, run, n);
  }

  /** A dedup skip never loses an identity: once a capture is skipped as covered, or built, all
      its identities are on disk, and stay there. */
  lemma SkipLosesNothing(caps: seq<Capture>, run: seq<State>, i: nat, m: nat, n: nat)
    requires IsRun(caps, run) && i < |caps| && m <= n < |run|
    requires |run[m].pcs| == |caps| && Provided(run[m].pcs[i])
    ensures caps[i].ids <= DiskIds(run[n].ranges, caps[i].key.0)
  {
    RunKeepsInvariant(caps, run, m);
    RunOnlyAdds(caps, run, m, n);
    assert WorkerOk(caps[i], i, run[m], run[0].dlls);
  }

  // ---- Every schedule ends with the same identities --------------------------------------------

  /** The identities the missing, compilable captures of a region would add. */
  function Offered(caps: seq<Capture>, dlls0: set<Key>, region: int): set<Id> {
    set i, id | 0 <= i < |caps| && caps[i].key.0 == region && Eligible(caps[i], dlls0) && caps[i].compiles && id in caps[i].ids :: id
  }

  /** What the disk of a region lists when all captures are done. */
  function Expected(caps: seq<Capture>, s0: State, region: int): set<Id> {
    DiskIds(s0.ranges, region) + Offered(caps, s0.dlls, region)
  }

  ghost predicate UniqueKeys(caps: seq<Capture>) {
    forall i, j :: 0 <= i < j < |caps| ==> caps[i].key != caps[j].key
  }

  predicate PastCompile(pc: Pc) {
    pc.Opening? || pc.Writing? || pc.Updating? || ((pc.Finishing? || pc.Done?) && pc.outcome.Built?)
  }

  /** Why a capture ended without building. */
  predicate OutcomeOk(c: Capture, pc: Pc, dlls0: set<Key>) {
    (pc.Finishing? || pc.Done?) ==>
      match pc.outcome
      case DllExists => c.key in dlls0
      case Rejected => !c.prepared
      case Failed => !c.compiles
      case _ => true
  }

  /** Nothing on disk but what was there or was offered, and no new library without its build. */
  ghost predicate Accounted(caps: seq<Capture>, s: State, s0: State) {
    && |s.pcs| == |caps|
    && (forall r :: DiskIds(s.ranges, r) <= Expected(caps, s0, r))
    && (forall k :: k in s.dlls && k !in s0.dlls ==> exists i :: 0 <= i < |caps| && caps[i].key == k && PastCompile(s.pcs[i]))
    && (forall i :: 0 <= i < |caps| ==> OutcomeOk(caps[i], s.pcs[i], s0.dlls))
  }

  lemma WriterIsOffered(caps: seq<Capture>, i: nat, dlls0: set<Key>)
    requires i < |caps| && Eligible(caps[i], dlls0) && caps[i].compiles
    ensures caps[i].ids <= Offered(caps, dlls0, caps[i].key.0)
  {
  }

  lemma StepStaysExpected(caps: seq<Capture>, i: nat, s: State, t: State, s0: State, r: int)
    requires i < |caps| && |s.pcs| == |caps| && Step(caps[i], i, s, t) && WorkerOk(caps[i], i, s, s0.dlls)
    requires DiskIds(s.ranges, r) <= Expected(caps, s0, r)
    ensures DiskIds(t.ranges, r) <= Expected(caps, s0, r)
  {
    StepTouches(caps[i], i, s, t, s0.dlls);
    forall id | id in DiskIds(t.ranges, r)
      ensures id in Expected(caps, s0, r)
    {
      var k :| k in t.ranges && k.0 == r && id in t.ranges[k];
      if k in s.ranges && id in s.ranges[k] {
        assert id in DiskIds(s.ranges, r);
      } else {
        assert s.pcs[i].Writing? && id in caps[i].ids;
        WriterIsOffered(caps, i, s0.dlls);
      }
    }
  }

  /** Under unique keys a library found at the check was there from the start. */
  lemma OutcomeIsDeserved(caps: seq<Capture>, i: nat, s: State, t: State, s0: State)
    requires UniqueKeys(caps) && i < |caps| && Accounted(caps, s, s0) && |t.pcs| == |s.pcs|
    requires Step(caps[i], i, s, t) && WorkerOk(caps[i], i, s, s0.dlls)
    ensures OutcomeOk(caps[i], t.pcs[i], s0.dlls)
  {
    hide DiskIds, Expected, RegionFiles;
  }

  lemma StepKeepsAccount(caps: seq<Capture>, s: State, t: State, s0: State)
    requires UniqueKeys(caps) && Inv(caps, s, s0.dlls) && Accounted(caps, s, s0) && Next(caps, s, t)
    ensures Accounted(caps, t, s0)
  {
    var i :| 0 <= i < |caps| && Step(caps[i], i, s, t);
    assert WorkerOk(caps[i], i, s, s0.dlls);
    hide DiskIds, Expected, Inv, WorkerOk, Step, UniqueKeys, OutcomeOk;
    StepTouches(caps[i], i, s, t, s0.dlls);
    OutcomeIsDeserved(caps, i, s, t, s0);
    NewLibrariesHaveBuilders(caps, i, s, t, s0);
    forall r
      ensures DiskIds(t.ranges, r) <= Expected(caps, s0, r)
    {
      StepStaysExpected(caps, i, s, t, s0, r);
    }
    forall j | 0 <= j < |caps|
      ensures OutcomeOk(caps[j], t.pcs[j], s0.dlls)
    {
      assert OutcomeOk(caps[j], s.pcs[j], s0.dlls);
    }
  }

  lemma InitialIsAccounted(caps: seq<Capture>, s0: State)
    requires Initial(caps, s0)
    ensures Accounted(caps, s0, s0)
  {
  }

  lemma NewLibrariesHaveBuilders(caps: seq<Capture>, i: nat, s: State, t: State, s0: State)
    requires i < |caps| && Accounted(caps, s, s0) && Step(caps[i], i, s, t) && Touches(caps[i], i, s, t)
    requires WorkerOk(caps[i], i, s, s0.dlls)
    ensures forall k :: k in t.dlls && k !in s0.dlls ==> exists j :: 0 <= j < |caps| && caps[j].key == k && PastCompile(t.pcs[j])
  {
    hide DiskIds, Offered, Expected, RegionFiles;
    forall k | k in t.dlls && k !in s0.dlls
      ensures exists j :: 0 <= j < |caps| && caps[j].key == k && PastCompile(t.pcs[j])
    {
      if k in s.dlls {
        var j :| 0 <= j < |caps| && caps[j].key == k && PastCompile(s.pcs[j]);
        assert PastCompile(t.pcs[j]);
      } else {
        assert caps[i].key == k && PastCompile(t.pcs[i]);
      }
    }
  }

  lemma {:induction false} RunKeepsAccount(caps: seq<Capture>, run: seq<State>, n: nat)
    requires UniqueKeys(caps) && IsRun(caps, run) && n < |run|
    ensures Accounted(caps, run[n], run[0])
  {
    hide Initial, Accounted, Inv, Next, UniqueKeys;
    if n == 0 {
      InitialIsAccounted(caps, run[0]);
    } else {
      RunKeepsAccount(caps, run, n - 1);
      RunKeepsInvariant(caps, run, n - 1);
      StepKeepsAccount(caps, run[n - 1], run[n], run[0]);
    }
  }

  ghost predicate AllDone(s: State) {
    forall i :: 0 <= i < |s.pcs| ==> s.pcs[i].Done?
  }

  /** With one capture per key, every complete schedule leaves the same identities on disk. */
  lemma ScheduleIrrelevant(caps: seq<Capture>, run: seq<State>, region: int)
    requires UniqueKeys(caps) && IsRun(caps, run) && AllDone(run[|run| - 1])
    ensures DiskIds(run[|run| - 1].ranges, region) == Expected(caps, run[0], region)
  {
    var n := |run| - 1;
    RunKeepsAccount(caps, run, n);
    RunKeepsInvariant(caps, run, n);
    RunOnlyAdds(caps, run, 0, n);
    forall id | id in Offered(caps, run[0].dlls, region)
      ensures id in DiskIds(run[n].ranges, region)
    {
      var i :| 0 <= i < |caps| && caps[i].key.0 == region && Eligible(caps[i], run[0].dlls) && caps[i].compiles && id in caps[i].ids;
      assert OutcomeOk(caps[i], run[n].pcs[i], run[0].dlls);
      assert WorkerOk(caps[i], i, run[n], run[0].dlls);
    }
  }

  // ---- Progress: no deadlock, and every schedule is finite --------------------------------------

  /** Locks are held by workers that will give them up. */
  ghost predicate LocksOk(caps: seq<Capture>, s: State) {
    && |s.pcs| == |caps|
    && (forall k :: k in s.keyLocks ==>
          s.keyLocks[k] < |caps| && caps[s.keyLocks[k]].key == k && HoldsKey(s.pcs[s.keyLocks[k]]))
    && (s.coverageLock.Some? ==> s.coverageLock.value < |caps| && s.pcs[s.coverageLock.value].Loading?)
  }

  /** What one step does to the locks. */
  ghost predicate LockStep(c: Capture, i: nat, s: State, t: State)
    requires i < |s.pcs| == |t.pcs|
  {
    && (|| (t.keyLocks == s.keyLocks && HoldsKey(s.pcs[i]) && HoldsKey(t.pcs[i]))
        || (t.keyLocks == s.keyLocks[c.key := i] && HoldsKey(t.pcs[i]))
        || t.keyLocks == s.keyLocks - {c.key})
    && t.coverageLock == if t.pcs[i].Loading? then Some(i) else if s.pcs[i].Loading? then None else s.coverageLock
  }

  lemma StepMovesLocks(c: Capture, i: nat, s: State, t: State, dlls0: set<Key>)
    requires i < |s.pcs| == |t.pcs| && Step(c, i, s, t) && WorkerOk(c, i, s, dlls0)
    ensures LockStep(c, i, s, t)
  {
    hide DiskIds, RegionFiles;
  }

  lemma StepKeepsLocks(caps: seq<Capture>, s: State, t: State, dlls0: set<Key>)
    requires Inv(caps, s, dlls0) && LocksOk(caps, s) && Next(caps, s, t)
    ensures LocksOk(caps, t)
  {
    var i :| 0 <= i < |caps| && Step(caps[i], i, s, t);
    assert WorkerOk(caps[i], i, s, dlls0);
    hide Step, WorkerOk, Inv;
    StepTouches(caps[i], i, s, t, dlls0);
    StepMovesLocks(caps[i], i, s, t, dlls0);
    hide Touches;
    SamePositions(caps[i], i, s, t);
  }

  lemma SamePositions(c: Capture, i: nat, s: State, t: State)
    requires i < |s.pcs| && Touches(c, i, s, t)
    ensures |t.pcs| == |s.pcs| && forall j :: 0 <= j < |s.pcs| && j != i ==> t.pcs[j] == s.pcs[j]
  {
  }

  lemma {:induction false} RunKeepsLocks(caps: seq<Capture>, run: seq<State>, n: nat)
    requires IsRun(caps, run) && n < |run|
    ensures LocksOk(caps, run[n])
  {
    if n > 0 {
      RunKeepsLocks(caps, run, n - 1);
      RunKeepsInvariant(caps, run, n - 1);
      StepKeepsLocks(caps, run[n - 1], run[n], run[0].dlls);
    }
  }

  /** A worker inside its capture can move, unless it waits for the coverage lock. */
  lemma CanStep(c: Capture, i: nat, s: State, dlls0: set<Key>) returns (t: State)
    requires i < |s.pcs| && WorkerOk(c, i, s, dlls0) && HoldsKey(s.pcs[i])
    requires s.coverageLock.None? || s.pcs[i].Loading?
    ensures Step(c, i, s, t)
  {
    hide DiskIds;
    var region := c.key.0;
    match s.pcs[i]
    case Entered =>
      t := s.(pcs := s.pcs[i := if !c.prepared then Finishing(Rejected) else if c.key in s.dlls then Finishing(DllExists) else Ready]);
    case Ready =>
      t := if region in s.coverage then s.(pcs := s.pcs[i := AfterCheck(c, s.coverage[region])])
           else s.(coverageLock := Some(i), pcs := s.pcs[i := Loading(RegionFiles(s.ranges, region), {})]);
    case Loading(unread, seen) =>
      if unread == {} {
        t := s.(coverage := s.coverage[region := seen], coverageLock := None, pcs := s.pcs[i := AfterCheck(c, seen)]);
      } else {
        var k :| k in unread;
        t := s.(pcs := s.pcs[i := Loading(unread - {k}, seen + s.ranges[k])]);
      }
    case Compiling =>
      t := if !c.compiles then s.(pcs := s.pcs[i := Finishing(Failed)])
           else s.(dlls := s.dlls + {c.key}, pcs := s.pcs[i := if c.ids == {} then Finishing(Built) else Opening]);
    case Opening =>
      t := s.(ranges := s.ranges[c.key := {}], pcs := s.pcs[i := Writing({})]);
    case Writing(written) =>
      t := if written == c.ids then s.(pcs := s.pcs[i := Updating])
           else s.(ranges := s.ranges[c.key := c.ids], pcs := s.pcs[i := Writing(c.ids)]);
    case Updating =>
      t := s.(coverage := s.coverage[region := s.coverage[region] + c.ids], pcs := s.pcs[i := Finishing(Built)]);
    case Finishing(outcome) =>
      t := s.(keyLocks := s.keyLocks - {c.key}, pcs := s.pcs[i := Done(outcome)]);
  }

  /** No deadlock: as long as a worker is not done, some worker can move. */
  lemma SomeoneCanStep(caps: seq<Capture>, run: seq<State>, n: nat)
    requires IsRun(caps, run) && n < |run| && !AllDone(run[n])
    ensures exists t :: Next(caps, run[n], t)
  {
    var s := run[n];
    RunKeepsInvariant(caps, run, n);
    RunKeepsLocks(caps, run, n);
    hide DiskIds, RegionFiles, Step, CoverageOnDisk;
    if s.coverageLock.Some? {
      var i := s.coverageLock.value;
      var t := CanStep(caps[i], i, s, run[0].dlls);
      assert Next(caps, s, t);
    } else {
      var i :| 0 <= i < |s.pcs| && !s.pcs[i].Done?;
      if s.pcs[i].Waiting? && caps[i].key in s.keyLocks {
        i := s.keyLocks[caps[i].key];
      }
      if s.pcs[i].Waiting? {
        var t := s.(keyLocks := s.keyLocks[caps[i].key := i], pcs := s.pcs[i := Entered]);
        Acquires(caps[i], i, s, t);
        assert Next(caps, s, t);
      } else {
        var t := CanStep(caps[i], i, s, run[0].dlls);
        assert Next(caps, s, t);
      }
    }
  }

  lemma Acquires(c: Capture, i: nat, s: State, t: State)
    requires i < |s.pcs| && s.pcs[i].Waiting? && c.key !in s.keyLocks
    requires t == s.(keyLocks := s.keyLocks[c.key := i], pcs := s.pcs[i := Entered])
    ensures Step(c, i, s, t)
  {
  }

  /** An upper bound on the steps a worker has left, when no region lists more than b manifests. */
  function StepsLeft(c: Capture, pc: Pc, b: nat): nat {
    match pc
    case Waiting => 9 + |c.ids| + b
    case Entered => 8 + |c.ids| + b
    case Ready => 7 + |c.ids| + b
    case Loading(unread, _) => 6 + |c.ids| + |unread|
    case Compiling => 5 + |c.ids|
    case Opening => 4 + |c.ids|
    case Writing(written) => 3 + |c.ids - written|
    case Updating => 2
    case Finishing(_) => 1
    case Done(_) => 0
  }

  function AllStepsLeft(caps: seq<Capture>, pcs: seq<Pc>, b: nat): nat
    requires |caps| == |pcs|
  {
    if caps == [] then 0 else StepsLeft(caps[0], pcs[0], b) + AllStepsLeft(caps[1..], pcs[1..], b)
  }

  lemma {:induction false} OneFewer(caps: seq<Capture>, pcs: seq<Pc>, pcs': seq<Pc>, i: nat, b: nat)
    requires |caps| == |pcs| == |pcs'| && i < |caps|
    requires forall j :: 0 <= j < |caps| && j != i ==> pcs'[j] == pcs[j]
    requires StepsLeft(caps[i], pcs'[i], b) < StepsLeft(caps[i], pcs[i], b)
    ensures AllStepsLeft(caps, pcs', b) < AllStepsLeft(caps, pcs, b)
  {
    if i == 0 {
      assert pcs'[1..] == pcs[1..];
    } else {
      OneFewer(caps[1..], pcs[1..], pcs'[1..], i - 1, b);
    }
  }

  lemma SubsetSize<T>(a: set<T>, b: set<T>)
    requires a <= b
    ensures |a| <= |b| && (a != b ==> |a| < |b|)
  {
    assert |b| == |a| + |b - a| by {
      assert a + (b - a) == b;
    }
    if a != b {
      assert b - a != {};
    }
  }

  lemma StepCounts(c: Capture, i: nat, s: State, t: State, dlls0: set<Key>, b: nat)
    requires i < |s.pcs| && Step(c, i, s, t) && WorkerOk(c, i, s, dlls0)
    requires |RegionFiles(s.ranges, c.key.0)| <= b
    ensures StepsLeft(c, t.pcs[i], b) < StepsLeft(c, s.pcs[i], b)
  {
    hide DiskIds, RegionFiles;
    match s.pcs[i]
    case Loading(unread, seen) =>
      if unread != {} {
        var k :| k in unread && k in s.ranges && t.pcs[i] == Loading(unread - {k}, seen + s.ranges[k]);
        SubsetSize(unread - {k}, unread);
      }
    case Writing(written) =>
      if written != c.ids {
        var more :| written < more <= c.ids && t.pcs[i] == Writing(more);
        SubsetSize(c.ids - more, c.ids - written);
      }
    case _ =>
  }

  /** The manifests that can ever exist. */
  function Manifests(caps: seq<Capture>, s0: State): set<Key> {
    s0.ranges.Keys + set i | 0 <= i < |caps| :: caps[i].key
  }

  lemma {:induction false} RunAddsOwnManifests(caps: seq<Capture>, run: seq<State>, n: nat)
    requires IsRun(caps, run) && n < |run|
    ensures run[n].ranges.Keys <= Manifests(caps, run[0])
  {
    if n > 0 {
      RunAddsOwnManifests(caps, run, n - 1);
      RunKeepsInvariant(caps, run, n - 1);
      var i :| 0 <= i < |caps| && Step(caps[i], i, run[n - 1], run[n]);
      StepTouches(caps[i], i, run[n - 1], run[n], run[0].dlls);
      assert caps[i].key in Manifests(caps, run[0]);
    }
  }

  /** Every schedule ends: a run is never longer than the initial step count. */
  lemma {:induction false} RunsAreFinite(caps: seq<Capture>, run: seq<State>, n: nat)
    requires IsRun(caps, run) && n < |run|
    ensures |run[n].pcs| == |run[0].pcs| == |caps|
    ensures n + AllStepsLeft(caps, run[n].pcs, |Manifests(caps, run[0])|)
            <= AllStepsLeft(caps, run[0].pcs, |Manifests(caps, run[0])|)
  {
    hide Inv, Next, Manifests, StepsLeft, AllStepsLeft, DiskIds;
    if n > 0 {
      var s, t := run[n - 1], run[n];
      RunsAreFinite(caps, run, n - 1);
      RunKeepsInvariant(caps, run, n - 1);
      RunAddsOwnManifests(caps, run, n - 1);
      assert Next(caps, s, t);
      NextCounts(caps, s, t, run[0]);
    }
  }

  lemma NextCounts(caps: seq<Capture>, s: State, t: State, s0: State)
    requires Inv(caps, s, s0.dlls) && Next(caps, s, t) && s.ranges.Keys <= Manifests(caps, s0)
    ensures |t.pcs| == |s.pcs| == |caps|
    ensures AllStepsLeft(caps, t.pcs, |Manifests(caps, s0)|) < AllStepsLeft(caps, s.pcs, |Manifests(caps, s0)|)
  {
    var i :| 0 <= i < |caps| && Step(caps[i], i, s, t);
    assert WorkerOk(caps[i], i, s, s0.dlls);
    hide Step, WorkerOk, Inv, Manifests, DiskIds;
    StepTouches(caps[i], i, s, t, s0.dlls);
    SubsetSize(RegionFiles(s.ranges, caps[i].key.0), Manifests(caps, s0));
    StepCounts(caps[i], i, s, t, s0.dlls, |Manifests(caps, s0)|);
    OneFewer(caps, s.pcs, t.pcs, i, |Manifests(caps, s0)|);
  }

  // ---- The sequential loop ----------------------------------------------------------------------

  ghost predicate WarmOnDisk(coverage: map<int, set<Id>>, ranges: map<Key, set<Id>>) {
    forall r :: r in coverage ==> coverage[r] <= DiskIds(ranges, r)
  }

  /** What a capture is due to leave on the disk of a region. */
  function Due(c: Capture, dlls: set<Key>, region: int): set<Id> {
    if c.key.0 == region && Eligible(c, dlls) && c.compiles then c.ids else {}
  }

  lemma WriteAdds(ranges: map<Key, set<Id>>, key: Key, ids: set<Id>, region: int)
    requires key !in ranges
    ensures DiskIds(ranges[key := ids], region) == DiskIds(ranges, region) + (if key.0 == region then ids else {})
  {
    var after := ranges[key := ids];
    forall id
      ensures id in DiskIds(after, region) <==> id in DiskIds(ranges, region) || (key.0 == region && id in ids)
    {
      if id in DiskIds(after, region) {
        var k :| k in after && k.0 == region && id in after[k];
      }
      if id in DiskIds(ranges, region) {
        var k :| k in ranges && k.0 == region && id in ranges[k];
        assert k in after && id in after[k];
      }
      if key.0 == region && id in ids {
        assert key in after && id in after[key];
      }
    }
  }

  /** One capture from start to end.  Whether it is built or skipped as covered, the disk lists
      exactly its identities in addition. */
  method DoCapture(c: Capture, dlls: set<Key>, ranges: map<Key, set<Id>>, coverage: map<int, set<Id>>)
    returns (dlls': set<Key>, ranges': map<Key, set<Id>>, coverage': map<int, set<Id>>)
    requires ranges.Keys <= dlls && WarmOnDisk(coverage, ranges)
    ensures ranges'.Keys <= dlls' && WarmOnDisk(coverage', ranges')
    ensures dlls <= dlls' <= dlls + {c.key}
    ensures forall r :: DiskIds(ranges', r) == DiskIds(ranges, r) + Due(c, dlls, r)
  {
    dlls', ranges', coverage' := dlls, ranges, coverage;
    if !c.prepared || c.key in dlls {
      return;
    }
    var region := c.key.0;
    if region !in coverage' {
      coverage' := coverage'[region := DiskIds(ranges, region)];
    }
    if c.ids != {} && c.ids <= coverage'[region] {
      return;
    }
    if !c.compiles {
      return;
    }
    dlls' := dlls + {c.key};
    if c.ids != {} {
      ranges' := ranges[c.key := c.ids];
      coverage' := coverage'[region := coverage'[region] + c.ids];
      forall r
        ensures DiskIds(ranges', r) == DiskIds(ranges, r) + Due(c, dlls, r)
      {
        WriteAdds(ranges, c.key, c.ids, r);
      }
    }
  }

  lemma OfferedGrows(caps: seq<Capture>, i: nat, dlls0: set<Key>, region: int)
    requires i < |caps|
    ensures Offered(caps[..i + 1], dlls0, region) == Offered(caps[..i], dlls0, region) + Due(caps[i], dlls0, region)
  {
    var a, b := caps[..i], caps[..i + 1];
    forall id
      ensures id in Offered(b, dlls0, region) <==> id in Offered(a, dlls0, region) || id in Due(caps[i], dlls0, region)
    {
      if id in Offered(b, dlls0, region) {
        var j :| 0 <= j < |b| && b[j].key.0 == region && Eligible(b[j], dlls0) && b[j].compiles && id in b[j].ids;
        if j < i {
          assert a[j] == b[j];
        }
      }
      if id in Offered(a, dlls0, region) {
        var j :| 0 <= j < |a| && a[j].key.0 == region && Eligible(a[j], dlls0) && a[j].compiles && id in a[j].ids;
        assert a[j] == b[j];
      }
      if id in Due(caps[i], dlls0, region) {
        assert b[i] == caps[i];
      }
    }
  }

  /** The sequential loop leaves on disk what every complete parallel schedule leaves there. */
  method SequentialDriver(caps: seq<Capture>, s0: State) returns (dlls: set<Key>, ranges: map<Key, set<Id>>)
    requires s0.ranges.Keys <= s0.dlls && UniqueKeys(caps)
    ensures forall r :: DiskIds(ranges, r) == Expected(caps, s0, r)
  {
    hide DiskIds, Offered;
    dlls, ranges := s0.dlls, s0.ranges;
    var coverage: map<int, set<Id>> := map[];
    forall r ensures Offered(caps[..0], s0.dlls, r) == {} { NothingOffered(caps[..0], s0.dlls, r); }
    for i := 0 to |caps|
      invariant ranges.Keys <= dlls && WarmOnDisk(coverage, ranges)
      invariant s0.dlls <= dlls
      invariant forall k :: k in dlls && k !in s0.dlls ==> exists j :: 0 <= j < i && caps[j].key == k
      invariant forall r :: DiskIds(ranges, r) == DiskIds(s0.ranges, r) + Offered(caps[..i], s0.dlls, r)
    {
      ghost var before := ranges;
      assert caps[i].key in dlls <==> caps[i].key in s0.dlls;
      ghost var dllsBefore := dlls;
      dlls, ranges, coverage := DoCapture(caps[i], dlls, ranges, coverage);
      forall r
        ensures DiskIds(ranges, r) == DiskIds(s0.ranges, r) + Offered(caps[..i + 1], s0.dlls, r)
      {
        assert Due(caps[i], dllsBefore, r) == Due(caps[i], s0.dlls, r);
        OfferedGrows(caps, i, s0.dlls, r);
      }
    }
    assert caps[..|caps|] == caps;
  }

  lemma NothingOffered(caps: seq<Capture>, dlls0: set<Key>, region: int)
    requires caps == []
    ensures Offered(caps, dlls0, region) == {}
  {
  }
}
