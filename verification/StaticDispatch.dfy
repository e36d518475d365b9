/**
 The generated dispatcher and its content check at run time (psxrecomp/tools/compile_overlays.py,
 generate_overlay_dispatch; psxrecomp/runtime/src/overlay_loader.c, psx_overlay_static_code_matches;
 psxrecomp/runtime/src/memory.c, overlay_watch_*).
 */
module StaticDispatch {
  import opened Wrappers
  import opened Manifest
  import opened Crc32
  import Polynomials
  import opened FunctionIds
  import opened StaticVariants

  const RAM_SIZE: nat := 0x20_0000
  const PAGE: nat := 0x1000
  const PAGES: nat := 0x200
  const MAX_RANGES: nat := 4096
  const CACHE_CAP: nat := 4096

  // ---- Does the code in RAM match? -----------------------------------------------------------------

  predicate RangeOk(r: Range) {
    r.len != 0 && Physical(r.lo) < RAM_SIZE && r.len <= RAM_SIZE - Physical(r.lo)
  }

  predicate RangesOk(ranges: seq<Range>) {
    0 < |ranges| <= MAX_RANGES && forall i :: 0 <= i < |ranges| ==> RangeOk(ranges[i])
  }

  lemma OkIsInside(ram: seq<bv8>, ranges: seq<Range>)
    requires |ram| == RAM_SIZE && RangesOk(ranges)
    ensures AllInside(ram, 0, ranges)
  {
    hide Physical;
    forall i | 0 <= i < |ranges|
      ensures Inside(ram, 0, ranges[i])
    {
      assert RangeOk(ranges[i]);
    }
  }

  /** The live bytes of the ranges are the ones the variant was compiled from. */
  predicate Matches(ram: seq<bv8>, v: Variant) {
    RangesOk(v.ranges) && AllInside(ram, 0, v.ranges) && Crc(CodeBytes(ram, 0, v.ranges)) == v.crc
  }

  // ---- Page generations ----------------------------------------------------------------------------

  function FirstPage(r: Range): nat { Physical(r.lo) / PAGE }

  function LastPage(r: Range): int { (Physical(r.lo) + r.len - 1) / PAGE }

  function SumOver(gen: seq<nat>, first: nat, n: nat): nat
    requires first + n <= |gen|
  {
    if n == 0 then 0 else SumOver(gen, first, n - 1) + gen[first + n - 1]
  }

  /** overlay_watch_pagegen_sum */
  function RangeSum(gen: seq<nat>, r: Range): nat
    requires |gen| == PAGES && RangeOk(r)
  {
    PageBounds(r);
    SumOver(gen, FirstPage(r), LastPage(r) - FirstPage(r) + 1)
  }

  lemma PageBounds(r: Range)
    requires RangeOk(r)
    ensures 0 <= FirstPage(r) <= LastPage(r) < PAGES
  {
    hide Physical;
  }

  function GenSum(gen: seq<nat>, ranges: seq<Range>): nat
    requires |gen| == PAGES && forall i :: 0 <= i < |ranges| ==> RangeOk(ranges[i])
  {
    if ranges == [] then 0
    else GenSum(gen, ranges[..|ranges| - 1]) + RangeSum(gen, ranges[|ranges| - 1])
  }

  predicate InPages(r: Range, p: int) { FirstPage(r) <= p <= LastPage(r) }

  /** Page p holds code of the ranges. */
  predicate Uses(ranges: seq<Range>, p: int) {
    exists i :: 0 <= i < |ranges| && InPages(ranges[i], p)
  }

  ghost predicate AtLeast(gen: seq<nat>, old_: seq<nat>) {
    |gen| == |old_| && forall p :: 0 <= p < |gen| ==> old_[p] <= gen[p]
  }

  lemma {:induction false} SumGrows(a: seq<nat>, b: seq<nat>, first: nat, n: nat)
    requires AtLeast(b, a) && first + n <= |a|
    ensures SumOver(a, first, n) <= SumOver(b, first, n)
    ensures SumOver(a, first, n) == SumOver(b, first, n) ==> forall p :: first <= p < first + n ==> a[p] == b[p]
    decreases n
  {
    if n > 0 {
      SumGrows(a, b, first, n - 1);
    }
  }

  lemma RangeSumGrows(a: seq<nat>, b: seq<nat>, r: Range)
    requires AtLeast(b, a) && |a| == PAGES && RangeOk(r)
    ensures RangeSum(a, r) <= RangeSum(b, r)
    ensures RangeSum(a, r) == RangeSum(b, r) ==> forall p :: InPages(r, p) ==> 0 <= p < PAGES && a[p] == b[p]
  {
    PageBounds(r);
    hide FirstPage, LastPage;
    SumGrows(a, b, FirstPage(r), LastPage(r) - FirstPage(r) + 1);
  }

  /** Generations only grow, so an unchanged sum means unchanged generations. */
  lemma {:induction false} GenSumGrows(a: seq<nat>, b: seq<nat>, ranges: seq<Range>)
    requires AtLeast(b, a) && |a| == PAGES && forall i :: 0 <= i < |ranges| ==> RangeOk(ranges[i])
    ensures GenSum(a, ranges) <= GenSum(b, ranges)
    ensures GenSum(a, ranges) == GenSum(b, ranges) ==>
      forall p :: Uses(ranges, p) ==> 0 <= p < PAGES && a[p] == b[p]
    decreases |ranges|
  {
    hide RangeOk, InPages, RangeSum, AtLeast;
    if ranges != [] {
      var n := |ranges| - 1;
      var rest := ranges[..n];
      GenSumGrows(a, b, rest);
      RangeSumGrows(a, b, ranges[n]);
      forall p | Uses(ranges, p)
        ensures Uses(rest, p) || InPages(ranges[n], p)
      {
        var i :| 0 <= i < |ranges| && InPages(ranges[i], p);
        assert i < n ==> rest[i] == ranges[i];
      }
      hide Uses;
    }
  }

  // ---- The validation cache ------------------------------------------------------------------------

  datatype CacheEntry = CacheEntry(genSum: nat, matches: bool)

  /** RAM, generations and watched pages when an entry was made. */
  datatype Snapshot = Snapshot(ram: seq<bv8>, gen: seq<nat>, watched: set<int>)

  predicate PageSame(a: seq<bv8>, b: seq<bv8>, p: int) {
    |a| == |b| && forall k :: 0 <= k < |a| && k / PAGE == p ==> a[k] == b[k]
  }

  /** A watched page whose generation has not moved still holds the bytes of the snapshot. */
  ghost predicate Follows(s: Snapshot, ram: seq<bv8>, gen: seq<nat>) {
    && |s.ram| == |ram| == RAM_SIZE && |s.gen| == |gen| == PAGES && AtLeast(gen, s.gen)
    && forall p :: p in s.watched && 0 <= p < PAGES && gen[p] == s.gen[p] ==> PageSame(s.ram, ram, p)
  }

  ghost predicate EntryOk(e: CacheEntry, s: Snapshot, v: Variant) {
    && RangesOk(v.ranges) && |s.gen| == PAGES && |s.ram| == RAM_SIZE
    && e.genSum == GenSum(s.gen, v.ranges) && e.matches == Matches(s.ram, v)
  }

  /** All pages of the variant's code are watched. */
  ghost predicate Covers(watched: set<int>, ranges: seq<Range>) {
    forall p :: Uses(ranges, p) ==> p in watched
  }

  lemma ByteInPages(r: Range, k: int)
    requires RangeOk(r) && Physical(r.lo) <= k < Physical(r.lo) + r.len
    ensures InPages(r, k / PAGE) && 0 <= k / PAGE < PAGES
  {
    hide Physical;
  }

  lemma SliceSame(a: seq<bv8>, b: seq<bv8>, ranges: seq<Range>, i: nat)
    requires |a| == |b| == RAM_SIZE && RangesOk(ranges) && i < |ranges|
    requires forall p :: Uses(ranges, p) ==> PageSame(a, b, p)
    ensures Inside(a, 0, ranges[i]) && Inside(b, 0, ranges[i]) && Slice(a, 0, ranges[i]) == Slice(b, 0, ranges[i])
  {
    hide Physical, PageSame, InPages;
    var r := ranges[i];
    assert RangeOk(r);
    forall k | Physical(r.lo) <= k < Physical(r.lo) + r.len
      ensures a[k] == b[k]
    {
      ByteInPages(r, k);
      assert Uses(ranges, k / PAGE);
      SameByte(a, b, k);
    }
    hide Uses;
  }

  lemma SameByte(a: seq<bv8>, b: seq<bv8>, k: nat)
    requires k < |a| && PageSame(a, b, k / PAGE)
    ensures a[k] == b[k]
  {
  }

  lemma MatchesByPages(a: seq<bv8>, b: seq<bv8>, v: Variant)
    requires |a| == |b| == RAM_SIZE && RangesOk(v.ranges)
    requires forall p :: Uses(v.ranges, p) ==> PageSame(a, b, p)
    ensures Matches(a, v) == Matches(b, v)
  {
    hide Crc, Flatten, RangesOk, Uses, PageSame;
    OkIsInside(a, v.ranges);
    OkIsInside(b, v.ranges);
    forall i | 0 <= i < |v.ranges|
      ensures Chunks(a, 0, v.ranges)[i] == Chunks(b, 0, v.ranges)[i]
    {
      SliceSame(a, b, v.ranges, i);
    }
    assert Chunks(a, 0, v.ranges) == Chunks(b, 0, v.ranges);
    hide AllInside, Chunks;
  }

  /** What the runtime answers: the cached verdict while the sum stands, a fresh one otherwise. */
  function Answer(e: Option<CacheEntry>, ram: seq<bv8>, gen: seq<nat>, v: Variant): bool
    requires |gen| == PAGES
  {
    if !RangesOk(v.ranges) then false
    else if e.Some? && e.value.genSum == GenSum(gen, v.ranges) then e.value.matches
    else Matches(ram, v)
  }

  /** A verdict made while all pages of the code were watched is right as long as it is used. */
  lemma CachedVerdictIsRight(e: CacheEntry, s: Snapshot, ram: seq<bv8>, gen: seq<nat>, v: Variant)
    requires EntryOk(e, s, v) && Follows(s, ram, gen) && Covers(s.watched, v.ranges)
    ensures Answer(Some(e), ram, gen, v) == Matches(ram, v)
  {
    hide Matches, RangeOk, Uses, PageSame, GenSum;
    if e.genSum == GenSum(gen, v.ranges) {
      SumsAgree(s.gen, gen, v);
      forall p | Uses(v.ranges, p)
        ensures PageSame(s.ram, ram, p)
      {
        assert p in s.watched;
      }
      MatchesByPages(s.ram, ram, v);
    }
    hide AtLeast;
  }

  lemma SumsAgree(a: seq<nat>, b: seq<nat>, v: Variant)
    requires RangesOk(v.ranges) && AtLeast(b, a) && |a| == PAGES && GenSum(a, v.ranges) == GenSum(b, v.ranges)
    ensures forall p :: Uses(v.ranges, p) ==> 0 <= p < PAGES && a[p] == b[p]
  {
    hide Uses;
    GenSumGrows(a, b, v.ranges);
  }

  // ---- Stores --------------------------------------------------------------------------------------

  /** An aligned store of one, two or four bytes. */
  predicate IsStore(phys: nat, data: seq<bv8>) {
    |data| in {1, 2, 4} && phys % |data| == 0 && phys + |data| <= RAM_SIZE
  }

  function Stored(ram: seq<bv8>, phys: nat, data: seq<bv8>): (r: seq<bv8>)
    requires phys + |data| <= |ram|
    ensures |r| == |ram|
    ensures forall k :: 0 <= k < |r| ==> r[k] == if phys <= k < phys + |data| then data[k - phys] else ram[k]
  {
    ram[..phys] + data + ram[phys + |data|..]
  }

  /** overlay_watch_note_write */
  function Noted(gen: seq<nat>, watched: set<int>, phys: nat): (g: seq<nat>)
    requires |gen| == PAGES && phys < RAM_SIZE
    ensures |g| == PAGES
  {
    if phys / PAGE in watched then gen[phys / PAGE := gen[phys / PAGE] + 1] else gen
  }

  lemma StoreStaysInPage(phys: nat, data: seq<bv8>, k: int)
    requires IsStore(phys, data) && phys <= k < phys + |data|
    ensures k / PAGE == phys / PAGE
  {
    assert |data| == 1 || |data| == 2 || |data| == 4;
  }

  lemma FollowsStore(s: Snapshot, ram: seq<bv8>, gen: seq<nat>, watched: set<int>, phys: nat, data: seq<bv8>)
    requires Follows(s, ram, gen) && IsStore(phys, data) && s.watched <= watched
    ensures Follows(s, Stored(ram, phys, data), Noted(gen, watched, phys))
  {
    var ram1, gen1 := Stored(ram, phys, data), Noted(gen, watched, phys);
    forall p | p in s.watched && 0 <= p < PAGES && gen1[p] == s.gen[p]
      ensures PageSame(s.ram, ram1, p)
    {
      assert p != phys / PAGE;
      assert PageSame(s.ram, ram, p);
      OtherPageSame(s.ram, ram, phys, data, p);
    }
    hide PageSame, Stored;
  }

  lemma OtherPageSame(a: seq<bv8>, ram: seq<bv8>, phys: nat, data: seq<bv8>, p: int)
    requires |ram| == RAM_SIZE && IsStore(phys, data) && p != phys / PAGE && PageSame(a, ram, p)
    ensures PageSame(a, Stored(ram, phys, data), p)
  {
    forall k | 0 <= k < |a| && k / PAGE == p
      ensures a[k] == Stored(ram, phys, data)[k]
    {
      if phys <= k < phys + |data| {
        StoreStaysInPage(phys, data, k);
      }
    }
  }

  /** A store over the code of a variant whose verdict is cached and positive is noticed exactly when
      its page is watched. */
  lemma StoreIsNoticedIff(e: CacheEntry, ram: seq<bv8>, gen: seq<nat>, watched: set<int>, v: Variant, k: nat, phys: nat, data: seq<bv8>)
    requires |ram| == RAM_SIZE && |gen| == PAGES && IsStore(phys, data)
    requires Matches(ram, v) && e == CacheEntry(GenSum(gen, v.ranges), true)
    requires k < |v.ranges| && PatchInRange(0, v.ranges, k, phys, |data|) && ram[phys..phys + |data|] != data
    ensures Answer(Some(e), Stored(ram, phys, data), Noted(gen, watched, phys), v) == Matches(Stored(ram, phys, data), v)
            <==> phys / PAGE in watched
  {
    hide Crc, CodeBytes, GenSum, PatchInRange, Physical, RangesOk;
    var ram1 := Stored(ram, phys, data);
    assert ram1[..phys] == ram[..phys] && ram1[phys + |data|..] == ram[phys + |data|..];
    assert ram1[phys..phys + |data|] == data;
    PatchChangesHash(ram, ram1, 0, v.ranges, k, phys, |data|);
    assert !Matches(ram1, v);
    if phys / PAGE in watched {
      NotedChangesSum(gen, watched, v.ranges, k, phys, data);
    }
    hide AllInside;
  }

  lemma NotedChangesSum(gen: seq<nat>, watched: set<int>, ranges: seq<Range>, k: nat, phys: nat, data: seq<bv8>)
    requires |gen| == PAGES && RangesOk(ranges) && k < |ranges| && IsStore(phys, data)
    requires PatchInRange(0, ranges, k, phys, |data|) && phys / PAGE in watched
    ensures GenSum(Noted(gen, watched, phys), ranges) != GenSum(gen, ranges)
  {
    hide Physical;
    var gen1, p := Noted(gen, watched, phys), phys / PAGE;
    assert RangeOk(ranges[k]);
    PatchBounds(0, ranges, k, phys, |data|);
    ByteInPages(ranges[k], phys);
    assert Uses(ranges, p);
    GenSumGrows(gen, gen1, ranges);
    hide GenSum, PatchInRange, Uses;
  }

  // ---- The dispatcher ------------------------------------------------------------------------------

  /** The variant entered for a key when verdicts are right. */
  function FirstMatch(table: seq<Variant>, ram: seq<bv8>, key: nat): Option<Variant> {
    if table == [] then None
    else if table[0].addr == key && Matches(ram, table[0]) then Some(table[0])
    else FirstMatch(table[1..], ram, key)
  }

  lemma {:induction false} FirstMatchIs(table: seq<Variant>, ram: seq<bv8>, key: nat)
    ensures var m := FirstMatch(table, ram, key);
            && (m.Some? ==> m.value in table && m.value.addr == key && Matches(ram, m.value))
            && (m.None? ==> forall v :: v in table && v.addr == key ==> !Matches(ram, v))
    decreases |table|
  {
    hide Matches;
    if table != [] {
      FirstMatchIs(table[1..], ram, key);
      assert table == [table[0]] + table[1..];
    }
  }

  /** Every cached verdict was right when it was made, and what has happened to memory since shows in
      the generations of the pages watched then. */
  ghost predicate EntriesOk(table: seq<Variant>, cache: map<nat, CacheEntry>, made: map<nat, Snapshot>,
                            ram: seq<bv8>, gen: seq<nat>, watched: set<int>) {
    forall i :: i in cache ==>
      i < |table| && i in made
      && EntryOk(cache[i], made[i], table[i]) && Follows(made[i], ram, gen) && made[i].watched <= watched
  }

  lemma EntryRemembered(table: seq<Variant>, cache: map<nat, CacheEntry>, made: map<nat, Snapshot>,
                        ram: seq<bv8>, gen: seq<nat>, watched: set<int>, i: nat, e: CacheEntry)
    requires EntriesOk(table, cache, made, ram, gen, watched) && i < |table|
    requires EntryOk(e, Snapshot(ram, gen, watched), table[i]) && Follows(Snapshot(ram, gen, watched), ram, gen)
    ensures EntriesOk(table, cache[i := e], made[i := Snapshot(ram, gen, watched)], ram, gen, watched)
    ensures OthersKept(cache, cache[i := e], i)
  {
    hide EntryOk, Follows;
  }

  class Dispatcher {
    const table: seq<Variant>
    var ram: seq<bv8>
    var gen: seq<nat>
    var watched: set<int>
    var cache: map<nat, CacheEntry>
    var checks: nat
    var hits: nat
    var variantMisses: nat
    var addressMisses: nat
    ghost var made: map<nat, Snapshot>

    ghost predicate Valid()
      reads this`ram, this`gen, this`watched, this`cache, this`made
    {
      && |ram| == RAM_SIZE && |gen| == PAGES
      && cache.Keys == made.Keys && |cache| <= CACHE_CAP
      && EntriesOk(table, cache, made, ram, gen, watched)
    }

    /** All static code is watched, and was when its verdicts were made. */
    ghost predicate Trusted()
      reads this`watched, this`cache, this`made
    {
      && (forall i :: 0 <= i < |table| && RangesOk(table[i].ranges) ==> Covers(watched, table[i].ranges))
      && (forall i :: i in cache && i in made && i < |table| ==> Covers(made[i].watched, table[i].ranges))
    }

    /** Every check is a hit or a miss. */
    ghost predicate Counted()
      reads this
    {
      checks == hits + variantMisses
    }

    constructor (table: seq<Variant>, ram: seq<bv8>)
      requires |ram| == RAM_SIZE
      ensures Valid() && Counted() && this.table == table && this.ram == ram
      ensures watched == {} && cache == map[] && checks == hits == variantMisses == addressMisses == 0
    {
      this.table, this.ram := table, ram;
      gen, watched := seq(PAGES, i => 0), {};
      cache, made := map[], map[];
      checks, hits, variantMisses, addressMisses := 0, 0, 0, 0;
    }

    /** overlay_watch_set_range, for all ranges of one variant. */
    method WatchVariant(i: nat)
      requires Valid() && i < |table| && RangesOk(table[i].ranges)
      modifies this`watched
      ensures Valid() && old(watched) <= watched && Covers(watched, table[i].ranges)
      ensures forall p :: p in watched ==> p in old(watched) || Uses(table[i].ranges, p)
    {
      hide EntryOk, Follows, InPages, RangeOk;
      ghost var before := watched;
      var ranges := table[i].ranges;
      for k := 0 to |ranges|
        invariant before <= watched && Valid()
        invariant Covers(watched, ranges[..k])
        invariant forall p :: p in watched ==> p in before || Uses(ranges, p)
      {
        var pages := PagesOf(ranges[k]);
        CoversMore(watched, ranges, k, pages);
        forall p | p in pages
          ensures Uses(ranges, p)
        {
          assert InPages(ranges[k], p);
        }
        watched := watched + pages;
        hide Covers;
      }
      assert ranges[..|ranges|] == ranges;
    }

    /** Watches the code of the whole table; before the first check that is all it takes for every
        later verdict to be right. */
    method WatchAll()
      requires Valid()
      modifies this`watched
      ensures Valid() && old(watched) <= watched
      ensures forall p :: p in watched ==> p in old(watched) || PageOfTable(table, p)
      ensures cache == map[] ==> Trusted()
    {
      hide EntryOk, Follows, Uses, RangesOk, Covers;
      for i := 0 to |table|
        invariant Valid() && old(watched) <= watched
        invariant forall p :: p in watched ==> p in old(watched) || PageOfTable(table, p)
        invariant forall j :: 0 <= j < i && RangesOk(table[j].ranges) ==> Covers(watched, table[j].ranges)
      {
        if RangesOk(table[i].ranges) {
          ghost var before := watched;
          WatchVariant(i);
          StillCovered(before, watched);
        }
      }
    }

    /** A CPU store. */
    method Store(phys: nat, data: seq<bv8>)
      requires Valid() && IsStore(phys, data)
      modifies this`ram, this`gen
      ensures Valid() && ram == Stored(old(ram), phys, data) && gen == Noted(old(gen), watched, phys)
      ensures old(Trusted()) ==> Trusted()
    {
      hide EntryOk, Follows;
      forall i | i in cache
        ensures Follows(made[i], Stored(ram, phys, data), Noted(gen, watched, phys))
      {
        FollowsStore(made[i], ram, gen, watched, phys, data);
      }
      ram, gen := Stored(ram, phys, data), Noted(gen, watched, phys);
    }

    /** psx_overlay_static_code_matches */
    method CodeMatches(i: nat) returns (b: bool)
      requires Valid() && i < |table|
      modifies this`cache, this`made
      ensures Valid()
      ensures b == Answer(EntryAt(old(cache), i), ram, gen, table[i])
      ensures OthersKept(old(cache), cache, i)
      ensures old(Trusted()) ==> Trusted() && b == Matches(ram, table[i])
    {
      hide EntryOk, Follows, RangeOk, RangesOk, GenSum, Matches, Trusted;
      if Trusted() {
        TrustedVerdict(this, i);
      }
      var sum := CheckedSum(table[i].ranges);
      if sum.None? {
        NeverMatches(ram, table[i]);
        return false;
      }
      if i in cache && cache[i].genSum == sum.value {
        return cache[i].matches;
      }
      b := Hashes(i);
      Remember(i, sum.value, b);
    }

    /** Caches a verdict while there is room. */
    method Remember(i: nat, genSum: nat, b: bool)
      requires Valid() && i < |table| && RangesOk(table[i].ranges)
      requires genSum == GenSum(gen, table[i].ranges) && b == Matches(ram, table[i])
      modifies this`cache, this`made
      ensures Valid()
      ensures OthersKept(old(cache), cache, i)
      ensures old(Trusted()) ==> Trusted()
    {
      hide EntryOk, Follows, Covers, RangesOk, GenSum, Matches, EntriesOk, OthersKept;
      NoneTouched(cache, i);
      if i in cache || |cache| < CACHE_CAP {
        FreshEntry(ram, gen, watched, table[i], b);
        CacheRoom(cache, i, CacheEntry(genSum, b));
        EntryRemembered(table, cache, made, ram, gen, watched, i, CacheEntry(genSum, b));
        cache := cache[i := CacheEntry(genSum, b)];
        made := made[i := Snapshot(ram, gen, watched)];
      }
    }

    /** The sum of the generations of all code pages, or None when the ranges are no code ranges. */
    method CheckedSum(ranges: seq<Range>) returns (sum: Option<nat>)
      requires |gen| == PAGES
      ensures sum.Some? <==> RangesOk(ranges)
      ensures sum.Some? ==> sum.value == GenSum(gen, ranges)
    {
      hide RangeOk, GenSum;
      if ranges == [] || |ranges| > MAX_RANGES {
        return None;
      }
      var genSum := 0;
      assert ranges[..0] == [];
      NoRanges(gen);
      for k := 0 to |ranges|
        invariant forall j :: 0 <= j < k ==> RangeOk(ranges[j])
        invariant genSum == GenSum(gen, ranges[..k])
      {
        if !RangeOk(ranges[k]) {
          return None;
        }
        assert ranges[..k + 1][..k] == ranges[..k];
        OneMoreRange(gen, ranges, k);
        genSum := genSum + RangeSum(gen, ranges[k]);
      }
      assert ranges[..|ranges|] == ranges;
      sum := Some(genSum);
    }

    /** The hash over all ranges, folded range by range. */
    method Hashes(i: nat) returns (b: bool)
      requires |ram| == RAM_SIZE && i < |table| && RangesOk(table[i].ranges)
      ensures b == Matches(ram, table[i])
    {
      var ranges := table[i].ranges;
      OkIsInside(ram, ranges);
      hide Crc, Flatten, Bitwise, Slice;
      var crc := ONES;
      ghost var chunks := Chunks(ram, 0, ranges);
      assert chunks[0..] == chunks;
      for k := 0 to |ranges|
        invariant FoldedFrom(chunks[k..], crc) == FoldedFrom(chunks, ONES)
      {
        assert Inside(ram, 0, ranges[k]);
        assert chunks[k..][0] == Slice(ram, 0, ranges[k]);
        assert chunks[k..][1..] == chunks[k + 1..];
        crc := Bitwise(crc, Slice(ram, 0, ranges[k]));
      }
      HashesAgree(chunks);
      assert FoldedFrom(chunks[|ranges|..], crc) == crc;
      b := Polynomials.Xor(crc, ONES) == table[i].crc;
      hide AllInside, Chunks, RangesOk, FoldedFrom, Chained;
    }

    /** While code is watched the runtime's answers are the truth about live memory. */
    lemma TrustedAnswers(key: nat)
      requires Valid() && Trusted()
      ensures FirstOf(table, Answers(table, cache, ram, gen), key) == FirstMatch(table, ram, key)
    {
      hide Matches, Answer, Trusted, EntryOk, Follows;
      forall i | 0 <= i < |table|
        ensures Answers(table, cache, ram, gen)[i] == Matches(ram, table[i])
      {
        TrustedVerdict(this, i);
      }
      SameAnswers(table, Answers(table, cache, ram, gen), ram, key);
    }

    /** psx_overlay_dispatch */
    method Dispatch(addr: nat) returns (entered: Option<Variant>)
      requires Valid() && Counted()
      modifies this
      ensures Valid() && Counted() && ram == old(ram) && gen == old(gen) && watched == old(watched)
      ensures entered == FirstOf(table, Answers(table, old(cache), ram, gen), Kseg0(addr))
      ensures hits == old(hits) + if entered.Some? then 1 else 0
      ensures entered.None? ==> variantMisses == old(variantMisses) + Candidates(table, Kseg0(addr))
      ensures addressMisses == old(addressMisses) + if Candidates(table, Kseg0(addr)) == 0 then 1 else 0
      ensures old(Trusted()) ==> Trusted() && entered == FirstMatch(table, ram, Kseg0(addr))
    {
      hide Matches, Trusted, Kseg0, Answer, FirstMatch, EntryOk, Follows, FirstOf, Candidates, Answers;
      var key := Kseg0(addr);
      NothingYet(key);
      if Trusted() {
        TrustedAnswers(key);
      }
      ghost var first := cache;
      ghost var answers := Answers(table, cache, ram, gen);
      var known := false;
      assert table[..0] == [] && answers[..0] == [];
      hide Valid, Counted, EntryAt;
      for i := 0 to |table|
        invariant Valid() && Counted() && ram == old(ram) && gen == old(gen) && watched == old(watched)
        invariant hits == old(hits) && addressMisses == old(addressMisses)
        invariant variantMisses == old(variantMisses) + Candidates(table[..i], key)
        invariant known <==> Candidates(table[..i], key) > 0
        invariant old(Trusted()) ==> Trusted()
        invariant FirstOf(table[..i], answers[..i], key) == None
        invariant forall j :: i <= j < |table| ==> EntryAt(cache, j) == EntryAt(first, j)
      {
        OneMore(table, answers, i, key);
        if table[i].addr == key {
          known := true;
          var matched := TryVariant(i);
          if matched {
            return Some(table[i]);
          }
        }
      }
      assert table[..|table|] == table && answers[..|table|] == answers;
      if !known {
        MissAddress();
      }
      entered := None;
    }

    /** One event of a run on watched code. */
    method Handle(e: Event) returns (entered: Option<Variant>)
      requires Valid() && Trusted() && Counted() && (e.StoreAt? ==> IsStore(e.phys, e.data))
      modifies this
      ensures Valid() && Trusted() && Counted()
      ensures ram == if e.StoreAt? then Stored(old(ram), e.phys, e.data) else old(ram)
      ensures entered == if e.StoreAt? then None else FirstMatch(table, ram, Kseg0(e.addr))
      ensures hits == old(hits) + if entered.Some? then 1 else 0
    {
      hide FirstMatch, Kseg0, Stored, FirstOf, Answers, Candidates, Trusted, EntriesOk;
      match e
      case StoreAt(phys, data) =>
        Store(phys, data);
        entered := None;
      case DispatchAt(addr) =>
        entered := Dispatch(addr);
    }

    method MissAddress()
      requires Valid() && Counted()
      modifies this`addressMisses
      ensures Valid() && Counted() && addressMisses == old(addressMisses) + 1
      ensures old(Trusted()) ==> Trusted()
    {
      hide EntryOk, Follows, Covers;
      addressMisses := addressMisses + 1;
    }

    /** One case of the switch: count, check, count the result. */
    method TryVariant(i: nat) returns (matched: bool)
      requires Valid() && Counted() && i < |table|
      modifies this`cache, this`made, this`checks, this`hits, this`variantMisses
      ensures Valid() && Counted()
      ensures |gen| == PAGES && matched == Answer(EntryAt(old(cache), i), ram, gen, table[i])
      ensures hits == old(hits) + if matched then 1 else 0
      ensures variantMisses == old(variantMisses) + if matched then 0 else 1
      ensures OthersKept(old(cache), cache, i)
      ensures old(Trusted()) ==> Trusted()
    {
      hide EntryOk, Follows, Answer, Trusted, Matches;
      checks := checks + 1;
      matched := CodeMatches(i);
      if matched {
        hits := hits + 1;
      } else {
        variantMisses := variantMisses + 1;
      }
    }
  }

  function EntryAt(cache: map<nat, CacheEntry>, i: nat): Option<CacheEntry> {
    if i in cache then Some(cache[i]) else None
  }

  /** Only the verdict of variant i may have changed. */
  ghost predicate OthersKept(before: map<nat, CacheEntry>, after: map<nat, CacheEntry>, i: nat) {
    forall j: nat :: j != i ==> EntryAt(after, j) == EntryAt(before, j)
  }

  /** What the runtime would answer for each variant. */
  function Answers(table: seq<Variant>, cache: map<nat, CacheEntry>, ram: seq<bv8>, gen: seq<nat>): (a: seq<bool>)
    requires |gen| == PAGES
    ensures |a| == |table| && forall i :: 0 <= i < |a| ==> a[i] == Answer(EntryAt(cache, i), ram, gen, table[i])
  {
    seq(|table|, i requires 0 <= i < |table| => Answer(EntryAt(cache, i), ram, gen, table[i]))
  }

  /** The first variant of a key that is answered yes. */
  function FirstOf(table: seq<Variant>, answers: seq<bool>, key: nat): Option<Variant>
    requires |answers| == |table|
  {
    if table == [] then None
    else if table[0].addr == key && answers[0] then Some(table[0])
    else FirstOf(table[1..], answers[1..], key)
  }

  /** The number of variants of a key. */
  function Candidates(table: seq<Variant>, key: nat): nat {
    if table == [] then 0
    else Candidates(table[..|table| - 1], key) + if table[|table| - 1].addr == key then 1 else 0
  }

  lemma NoneTouched(cache: map<nat, CacheEntry>, i: nat)
    ensures OthersKept(cache, cache, i)
  {
  }

  lemma NothingYet(key: nat)
    ensures FirstOf([], [], key) == None && Candidates([], key) == 0
  {
  }

  lemma {:induction false} FirstOfPrefix(table: seq<Variant>, answers: seq<bool>, n: nat, key: nat)
    requires n <= |table| == |answers|
    ensures FirstOf(table, answers, key)
            == if FirstOf(table[..n], answers[..n], key).Some? then FirstOf(table[..n], answers[..n], key)
               else FirstOf(table[n..], answers[n..], key)
    decreases n
  {
    if n == 0 {
      assert table[0..] == table && answers[0..] == answers;
    } else {
      assert table[..n][1..] == table[1..][..n - 1] && answers[..n][1..] == answers[1..][..n - 1];
      assert table[1..][n - 1..] == table[n..] && answers[1..][n - 1..] == answers[n..];
      FirstOfPrefix(table[1..], answers[1..], n - 1, key);
    }
  }

  /** What one more variant adds, and that it decides when it is the first to be answered yes. */
  lemma OneMore(table: seq<Variant>, answers: seq<bool>, i: nat, key: nat)
    requires i < |table| == |answers| && FirstOf(table[..i], answers[..i], key).None?
    ensures Candidates(table[..i + 1], key) == Candidates(table[..i], key) + if table[i].addr == key then 1 else 0
    ensures if table[i].addr == key && answers[i] then FirstOf(table, answers, key) == Some(table[i])
            else FirstOf(table[..i + 1], answers[..i + 1], key).None?
    ensures Candidates(table[..i + 1], key) <= Candidates(table, key)
  {
    assert table[..i + 1][..i] == table[..i] && answers[..i + 1][..i] == answers[..i];
    FirstOfPrefix(table[..i + 1], answers[..i + 1], i, key);
    assert table[..i + 1][i..] == [table[i]] && answers[..i + 1][i..] == [answers[i]];
    assert [table[i]][1..] == [] && [answers[i]][1..] == [];
    FirstOfPrefix(table, answers, i, key);
    CandidatesGrow(table, i + 1, key);
  }

  lemma {:induction false} CandidatesGrow(table: seq<Variant>, n: nat, key: nat)
    requires n <= |table|
    ensures Candidates(table[..n], key) <= Candidates(table, key)
    decreases |table|
  {
    if n < |table| {
      assert table[..|table| - 1][..n] == table[..n];
      CandidatesGrow(table[..|table| - 1], n, key);
    } else {
      assert table[..n] == table;
    }
  }

  lemma {:induction false} SameAnswers(table: seq<Variant>, answers: seq<bool>, ram: seq<bv8>, key: nat)
    requires |answers| == |table| && forall i :: 0 <= i < |table| ==> answers[i] == Matches(ram, table[i])
    ensures FirstOf(table, answers, key) == FirstMatch(table, ram, key)
    decreases |table|
  {
    hide Matches;
    if table != [] {
      SameAnswers(table[1..], answers[1..], ram, key);
    }
  }

  lemma TrustedVerdict(d: Dispatcher, i: nat)
    requires d.Valid() && d.Trusted() && i < |d.table|
    ensures Answer(EntryAt(d.cache, i), d.ram, d.gen, d.table[i]) == Matches(d.ram, d.table[i])
  {
    hide EntryOk, Follows, Covers, RangesOk, GenSum, Matches;
    if i in d.cache {
      assert i in d.made;
      CachedVerdictIsRight(d.cache[i], d.made[i], d.ram, d.gen, d.table[i]);
    } else if !RangesOk(d.table[i].ranges) {
      NeverMatches(d.ram, d.table[i]);
    }
  }

  lemma NeverMatches(ram: seq<bv8>, v: Variant)
    requires !RangesOk(v.ranges)
    ensures !Matches(ram, v)
  {
    hide RangesOk;
  }

  lemma NoRanges(gen: seq<nat>)
    requires |gen| == PAGES
    ensures GenSum(gen, []) == 0
  {
  }

  lemma OneMoreRange(gen: seq<nat>, ranges: seq<Range>, k: nat)
    requires |gen| == PAGES && k < |ranges| && forall j :: 0 <= j <= k ==> RangeOk(ranges[j])
    ensures GenSum(gen, ranges[..k + 1]) == GenSum(gen, ranges[..k]) + RangeSum(gen, ranges[k])
  {
    hide RangeOk, RangeSum;
    assert ranges[..k + 1][..k] == ranges[..k];
  }

  lemma FreshEntry(ram: seq<bv8>, gen: seq<nat>, watched: set<int>, v: Variant, b: bool)
    requires |ram| == RAM_SIZE && |gen| == PAGES && RangesOk(v.ranges) && b == Matches(ram, v)
    ensures EntryOk(CacheEntry(GenSum(gen, v.ranges), b), Snapshot(ram, gen, watched), v)
    ensures Follows(Snapshot(ram, gen, watched), ram, gen)
  {
    hide Matches, RangesOk, GenSum;
  }

  lemma CacheRoom(cache: map<nat, CacheEntry>, i: nat, e: CacheEntry)
    requires |cache| <= CACHE_CAP && (i in cache || |cache| < CACHE_CAP)
    ensures |cache[i := e]| <= CACHE_CAP
  {
    var more := cache[i := e];
    assert more.Keys == cache.Keys + {i};
    assert |more| == |more.Keys| && |cache| == |cache.Keys|;
    if i in cache {
      assert more.Keys == cache.Keys;
    }
  }

  method PagesOf(r: Range) returns (pages: set<int>)
    requires RangeOk(r)
    ensures forall p :: p in pages <==> InPages(r, p)
  {
    pages := {};
    PageBounds(r);
    hide FirstPage, LastPage;
    var pg := FirstPage(r);
    while pg <= LastPage(r)
      invariant FirstPage(r) <= pg <= LastPage(r) + 1
      invariant forall p :: p in pages <==> FirstPage(r) <= p < pg
      decreases LastPage(r) + 1 - pg
    {
      pages := pages + {pg};
      pg := pg + 1;
    }
  }

  /** Page p holds code of some variant. */
  ghost predicate PageOfTable(table: seq<Variant>, p: int) {
    exists i :: 0 <= i < |table| && RangesOk(table[i].ranges) && Uses(table[i].ranges, p)
  }

  lemma StillCovered(watched: set<int>, more: set<int>)
    requires watched <= more
    ensures forall ranges :: Covers(watched, ranges) ==> Covers(more, ranges)
  {
    hide Uses;
  }

  lemma CoversMore(watched: set<int>, ranges: seq<Range>, k: nat, pages: set<int>)
    requires k < |ranges| && Covers(watched, ranges[..k]) && forall p :: p in pages <==> InPages(ranges[k], p)
    ensures Covers(watched + pages, ranges[..k + 1])
  {
    hide InPages;
    forall p | Uses(ranges[..k + 1], p)
      ensures p in watched + pages
    {
      var j :| 0 <= j < |ranges[..k + 1]| && InPages(ranges[..k + 1][j], p);
      if j < k {
        assert ranges[..k][j] == ranges[j];
        assert Uses(ranges[..k], p);
      }
    }
  }

  // ---- Whole runs ----------------------------------------------------------------------------------

  /** What a running program does to the dispatcher: it stores, and it calls overlay code. */
  datatype Event = StoreAt(phys: nat, data: seq<bv8>) | DispatchAt(addr: nat)

  predicate AreEvents(events: seq<Event>) {
    forall k :: 0 <= k < |events| && events[k].StoreAt? ==> IsStore(events[k].phys, events[k].data)
  }

  /** Memory after the stores among the first n events. */
  function RamAfter(ram: seq<bv8>, events: seq<Event>, n: nat): (r: seq<bv8>)
    requires |ram| == RAM_SIZE && AreEvents(events) && n <= |events|
    ensures |r| == RAM_SIZE
  {
    if n == 0 then ram
    else
      var before, e := RamAfter(ram, events, n - 1), events[n - 1];
      if e.StoreAt? then Stored(before, e.phys, e.data) else before
  }

  /** The number of calls that found native code. */
  function Entries(entered: seq<Option<Variant>>): nat {
    if entered == [] then 0
    else Entries(entered[..|entered| - 1]) + if entered[|entered| - 1].Some? then 1 else 0
  }

  lemma OneMoreEntry(entered: seq<Option<Variant>>, v: Option<Variant>)
    ensures Entries(entered + [v]) == Entries(entered) + if v.Some? then 1 else 0
  {
    assert (entered + [v])[..|entered|] == entered;
  }

  /** Every run that watches its code before the first check: however stores and calls follow each
      other, each call enters the first variant of its address that matches the memory of that moment,
      and the counters add up. */
  method RunWatched(table: seq<Variant>, ram: seq<bv8>, events: seq<Event>)
    returns (entered: seq<Option<Variant>>, checks: nat, hits: nat, misses: nat)
    requires |ram| == RAM_SIZE && AreEvents(events)
    ensures |entered| == |events|
    ensures forall k :: 0 <= k < |events| ==>
      entered[k] == if events[k].StoreAt? then None
                    else FirstMatch(table, RamAfter(ram, events, k), Kseg0(events[k].addr))
    ensures checks == hits + misses && hits == Entries(entered)
  {
    hide FirstMatch, Kseg0, Stored, IsStore, FirstOf, Answers, Candidates, EntriesOk, RangesOk, Covers;
    var d := new Dispatcher(table, ram);
    d.WatchAll();
    hide d.Valid, d.Trusted;
    entered := [];
    for k := 0 to |events|
      invariant d.Valid() && d.Trusted() && d.Counted() && d.table == table
      invariant d.ram == RamAfter(ram, events, k)
      invariant |entered| == k && d.hits == Entries(entered)
      invariant forall j :: 0 <= j < k ==>
        entered[j] == if events[j].StoreAt? then None
                      else FirstMatch(table, RamAfter(ram, events, j), Kseg0(events[j].addr))
    {
      var found := d.Handle(events[k]);
      OneMoreEntry(entered, found);
      entered := entered + [found];
    }
    checks, hits, misses := d.checks, d.hits, d.variantMisses;
  }

  // ---- Offline and at run time ---------------------------------------------------------------------

  /** Cached, uncached and physical addresses reach the same case. */
  lemma MirrorsAgree(a: nat)
    requires a < 0x2000_0000
    ensures Kseg0(a) == Kseg0(0x8000_0000 + a) == Kseg0(0xA000_0000 + a)
  {
  }

  lemma NormalizedMatches(ram: seq<bv8>, v: Variant)
    ensures Matches(ram, Normalized(v)) == Matches(ram, v)
  {
    PhysicalInside(ram, v.ranges);
    hide Crc, AllInside, RangesOk, CodeBytes, PhysicalRanges;
  }

  lemma PhysicalInside(ram: seq<bv8>, ranges: seq<Range>)
    ensures RangesOk(PhysicalRanges(ranges)) == RangesOk(ranges)
    ensures AllInside(ram, 0, PhysicalRanges(ranges)) == AllInside(ram, 0, ranges)
    ensures AllInside(ram, 0, ranges) ==> CodeBytes(ram, 0, PhysicalRanges(ranges)) == CodeBytes(ram, 0, ranges)
  {
    hide Flatten;
    var p := PhysicalRanges(ranges);
    forall i | 0 <= i < |ranges|
      ensures RangeOk(p[i]) == RangeOk(ranges[i]) && Inside(ram, 0, p[i]) == Inside(ram, 0, ranges[i])
      ensures Inside(ram, 0, ranges[i]) ==> Slice(ram, 0, p[i]) == Slice(ram, 0, ranges[i])
    {
      PhysicalOnce(ranges[i].lo);
    }
    if AllInside(ram, 0, ranges) {
      assert Chunks(ram, 0, p) == Chunks(ram, 0, ranges);
    }
    hide RangeOk, Inside, Slice;
  }

  lemma PhysicalOnce(a: nat)
    ensures Physical(Physical(a)) == Physical(a)
  {
  }

  /** Removing duplicates loses no chance to run native code: for any variants, some entry of the
      table matches at an address exactly when some variant does. */
  lemma DuplicatesAddNothing(variants: seq<Variant>, unique: seq<Variant>, ram: seq<bv8>, key: nat)
    requires Deduplicated(variants, unique)
    ensures FirstMatch(unique, ram, key).Some? <==> exists v :: v in variants && v.addr == key && Matches(ram, v)
  {
    hide Matches, FirstMatch, Normalized, KeyOf;
    FirstMatchIs(unique, ram, key);
    if FirstMatch(unique, ram, key).Some? {
      var u := FirstMatch(unique, ram, key).value;
      assert ComesFrom(u, variants);
      var v :| v in variants && u == Normalized(v);
      NormalizedMatches(ram, v);
      NormalizedAddr(v);
    }
    if v :| v in variants && v.addr == key && Matches(ram, v) {
      assert Represented(v, unique);
      var u :| u in unique && KeyOf(u) == KeyOf(v);
      SameKeyMatches(ram, u, v);
    }
  }

  lemma NormalizedAddr(v: Variant)
    ensures Normalized(v).addr == v.addr && Normalized(v).symbol == v.symbol && Normalized(v).crc == v.crc
    ensures Normalized(v).ranges == PhysicalRanges(v.ranges)
  {
  }

  lemma SameKeyMatches(ram: seq<bv8>, u: Variant, v: Variant)
    requires KeyOf(u) == KeyOf(v)
    ensures u.addr == v.addr && Matches(ram, u) == Matches(ram, v)
  {
    NormalizedMatches(ram, u);
    NormalizedMatches(ram, v);
    hide PhysicalRanges, RangesOk, AllInside, CodeBytes, Crc;
  }

  /** Whatever the dispatcher of a build enters, the live bytes over the code ranges of the compiled
      function whose body runs -- the host, for a resume wrapper -- have the hash that function was
      given when it was compiled. */
  lemma EnteredCodeIsCurrent(ids: seq<FuncId>, variants: seq<Variant>, unique: seq<Variant>, ram: seq<bv8>, key: nat)
    requires AllOwned(ids, variants) && Deduplicated(variants, unique) && FirstMatch(unique, ram, key).Some?
    ensures var v := FirstMatch(unique, ram, key).value;
            exists id :: id in ids && id.ev == v.symbol.Body() && id.crc == v.crc
                         && AllInside(ram, 0, id.ranges) && Crc(CodeBytes(ram, 0, id.ranges)) == id.crc
  {
    hide FirstMatch, Normalized, Crc, CodeBytes, AllInside;
    FirstMatchIs(unique, ram, key);
    var u := FirstMatch(unique, ram, key).value;
    assert ComesFrom(u, variants);
    var v :| v in variants && u == Normalized(v);
    NormalizedMatches(ram, v);
    NormalizedAddr(v);
    assert Owned(ids, v);
    var id :| id in ids && id.ev == v.symbol.Body() && id.crc == v.crc && id.ranges == v.ranges;
    hide KeyOf, RangesOk;
  }
}
