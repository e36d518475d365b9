/**
 The variants of a static build: compiled functions and synthesized resume wrappers, each tied to
 the code it may run over (psxrecomp/tools/compile_overlays.py).
 */
module StaticVariants {
  import opened Wrappers
  import opened Manifest
  import opened SortedSets

  /** A C function of the build: a compiled one, or a wrapper that resumes its host at an inner
      block. */
  datatype Symbol = Function(namespace: string, addr: nat) | Resume(namespace: string, entry: nat, host: nat)
  {
    /** The compiled function whose body runs. */
    function Body(): nat { if Function? then addr else host }
  }

  datatype Variant = Variant(addr: nat, symbol: Symbol, crc: bv32, ranges: seq<Range>)

  /** The listed identities of one entry, in order. */
  function IdsAt(ids: seq<FuncId>, ev: nat): seq<FuncId> {
    if ids == [] then []
    else
      var n := |ids| - 1;
      IdsAt(ids[..n], ev) + if ids[n].ev == ev then [ids[n]] else []
  }

  lemma {:induction false} IdsAtAre(ids: seq<FuncId>, ev: nat, id: FuncId)
    ensures id in IdsAt(ids, ev) <==> id in ids && id.ev == ev
  {
    if ids != [] {
      var n := |ids| - 1;
      IdsAtAre(ids[..n], ev, id);
      assert ids == ids[..n] + [ids[n]];
    }
  }

  /** v runs only code whose bytes it is checked against. */
  ghost predicate Owned(ids: seq<FuncId>, v: Variant) {
    exists id :: id in ids && id.ev == v.symbol.Body() && id.crc == v.crc && id.ranges == v.ranges
  }

  ghost predicate AllOwned(ids: seq<FuncId>, variants: seq<Variant>) {
    forall v :: v in variants ==> Owned(ids, v)
  }

  /** Some variant enters symbol at addr, checked against this identity. */
  ghost predicate Offers(variants: seq<Variant>, addr: nat, symbol: Symbol, id: FuncId) {
    Variant(addr, symbol, id.crc, id.ranges) in variants
  }

  /** Appends a variant for every identity of host. */
  method AddVariants(variants: seq<Variant>, ids: seq<FuncId>, host: nat, addr: nat, symbol: Symbol) returns (more: seq<Variant>)
    requires AllOwned(ids, variants) && symbol.Body() == host
    ensures AllOwned(ids, more) && variants <= more
    ensures forall id :: id in ids && id.ev == host ==> Offers(more, addr, symbol, id)
    ensures forall v :: v in more && v !in variants ==> v.addr == addr && v.symbol == symbol
  {
    var found := IdsAt(ids, host);
    forall id
      ensures id in found <==> id in ids && id.ev == host
    {
      IdsAtAre(ids, host, id);
    }
    more := variants;
    for i := 0 to |found|
      invariant AllOwned(ids, more) && variants <= more
      invariant forall id :: id in found[..i] ==> Offers(more, addr, symbol, id)
      invariant forall v :: v in more && v !in variants ==> v.addr == addr && v.symbol == symbol
    {
      assert found[..i + 1] == found[..i] + [found[i]];
      assert found[i] in found;
      more := more + [Variant(addr, symbol, found[i].crc, found[i].ranges)];
    }
    assert found[..|found|] == found;
  }

  /** One variant per dispatchable function and identity. */
  method FunctionVariants(namespace: string, funcAddrs: set<int>, ids: seq<FuncId>) returns (variants: seq<Variant>)
    requires forall a :: a in funcAddrs ==> a >= 0
    ensures AllOwned(ids, variants)
    ensures forall id :: id in ids && (id.ev as int) in funcAddrs ==> Offers(variants, id.ev, Function(namespace, id.ev), id)
    ensures forall v :: v in variants ==> v.symbol == Function(namespace, v.addr) && (v.addr as int) in funcAddrs
  {
    var order := Sorted(funcAddrs);
    variants := [];
    for i := 0 to |order|
      invariant AllOwned(ids, variants)
      invariant forall id :: id in ids && (id.ev as int) in order[..i] ==> Offers(variants, id.ev, Function(namespace, id.ev), id)
      invariant forall v :: v in variants ==> v.symbol == Function(namespace, v.addr) && (v.addr as int) in funcAddrs
    {
      assert order[..i + 1] == order[..i] + [order[i]];
      assert order[i] in order;
      var ev: nat := order[i];
      ghost var before := variants;
      variants := AddVariants(variants, ids, ev, ev, Function(namespace, ev));
      forall id | id in ids && (id.ev as int) in order[..i]
        ensures Offers(variants, id.ev, Function(namespace, id.ev), id)
      {
        assert Offers(before, id.ev, Function(namespace, id.ev), id);
      }
      hide AllOwned;
    }
    assert order[..|order|] == order;
  }

  /** A block leader that gets a wrapper: not a function itself, and inside a function with exact
      ranges whose generated C takes the extra entry. */
  ghost predicate Resumable(funcAddrs: set<int>, ids: seq<FuncId>, owners: map<int, nat>, takes: (int, nat) -> bool, entry: int) {
    && entry in owners && entry !in funcAddrs && takes(entry, owners[entry])
    && exists id :: id in ids && id.ev == owners[entry]
  }

  method SynthesizeResumeWrappers(namespace: string, funcAddrs: set<int>, ids: seq<FuncId>, owners: map<int, nat>,
                                  takes: (int, nat) -> bool, variants: seq<Variant>) returns (more: seq<Variant>)
    requires AllOwned(ids, variants) && forall e :: e in owners ==> e >= 0
    ensures AllOwned(ids, more) && variants <= more
    ensures forall e: nat, id :: Resumable(funcAddrs, ids, owners, takes, e) && id in ids && id.ev == owners[e as int] ==>
      Offers(more, e, Resume(namespace, e, owners[e as int]), id)
    ensures forall v :: v in more && v !in variants ==>
      (v.addr as int) in owners && v.symbol == Resume(namespace, v.addr, owners[v.addr as int])
  {
    hide AllOwned;
    var order := Sorted(owners.Keys);
    more := variants;
    for i := 0 to |order|
      invariant AllOwned(ids, more) && variants <= more
      invariant forall e: nat, id :: e in order[..i] && Resumable(funcAddrs, ids, owners, takes, e) && id in ids && id.ev == owners[e as int] ==>
        Offers(more, e, Resume(namespace, e, owners[e as int]), id)
      invariant forall v :: v in more && v !in variants ==>
        (v.addr as int) in owners && v.symbol == Resume(namespace, v.addr, owners[v.addr as int])
    {
      assert order[..i + 1] == order[..i] + [order[i]];
      assert order[i] in order && order[i] in owners.Keys;
      var entry: nat := order[i];
      var host := owners[entry as int];
      if (entry as int) in funcAddrs { continue; }
      var found := IdsAt(ids, host);
      if found == [] {
        forall id | id in ids
          ensures id.ev != host
        {
          IdsAtAre(ids, host, id);
        }
        continue;
      }
      if !takes(entry, host) { continue; }
      ghost var before := more;
      more := AddVariants(more, ids, host, entry, Resume(namespace, entry, host));
      assert forall v :: v in before ==> v in more;
    }
    forall e | e in owners
      ensures e in order
    {
      assert e in owners.Keys;
    }
    assert order[..|order|] == order;
  }

  // ---- Removing duplicates -------------------------------------------------------------------------

  function PhysicalRange(r: Range): Range { Range(Physical(r.lo), r.len) }

  function PhysicalRanges(ranges: seq<Range>): (p: seq<Range>)
    ensures |p| == |ranges| && forall i :: 0 <= i < |p| ==> p[i] == PhysicalRange(ranges[i])
  {
    seq(|ranges|, i requires 0 <= i < |ranges| => PhysicalRange(ranges[i]))
  }

  function Normalized(v: Variant): Variant { v.(ranges := PhysicalRanges(v.ranges)) }

  datatype Key = Key(addr: nat, crc: bv32, ranges: seq<Range>)

  /** What the generator compares: address, hash and physical ranges, not the symbol. */
  function KeyOf(v: Variant): Key { Key(v.addr, v.crc, PhysicalRanges(v.ranges)) }

  ghost predicate ComesFrom(u: Variant, variants: seq<Variant>) {
    exists v :: v in variants && u == Normalized(v)
  }

  ghost predicate Represented(v: Variant, unique: seq<Variant>) {
    exists u :: u in unique && KeyOf(u) == KeyOf(v)
  }

  /** unique holds one variant of every key, with physical ranges. */
  ghost predicate Deduplicated(variants: seq<Variant>, unique: seq<Variant>) {
    && (forall u :: u in unique ==> ComesFrom(u, variants))
    && (forall v :: v in variants ==> Represented(v, unique))
    && (forall i, j :: 0 <= i < j < |unique| ==> KeyOf(unique[i]) != KeyOf(unique[j]))
  }

  lemma PhysicalTwice(ranges: seq<Range>)
    ensures PhysicalRanges(PhysicalRanges(ranges)) == PhysicalRanges(ranges)
  {
  }

  lemma NormalizedKey(v: Variant)
    ensures KeyOf(Normalized(v)) == KeyOf(v)
  {
    PhysicalTwice(v.ranges);
    hide PhysicalRanges;
  }

  ghost predicate SeenAre(seen: set<Key>, unique: seq<Variant>) {
    && (forall u :: u in unique ==> KeyOf(u) in seen)
    && (forall v :: KeyOf(v) in seen ==> Represented(v, unique))
  }

  method Deduplicate(variants: seq<Variant>) returns (unique: seq<Variant>)
    ensures Deduplicated(variants, unique)
  {
    hide KeyOf, Normalized, Deduplicated, SeenAre;
    unique := [];
    var seen: set<Key> := {};
    NoneSeen();
    assert variants[..0] == [];
    for i := 0 to |variants|
      invariant Deduplicated(variants[..i], unique) && SeenAre(seen, unique)
    {
      var v := variants[i];
      assert variants[..i + 1] == variants[..i] + [v];
      if KeyOf(v) in seen {
        SeenBefore(variants[..i], unique, seen, v);
        continue;
      }
      NewKey(variants[..i], unique, seen, v);
      seen := seen + {KeyOf(v)};
      unique := unique + [Normalized(v)];
    }
    assert variants[..|variants|] == variants;
  }

  lemma NoneSeen()
    ensures Deduplicated([], []) && SeenAre({}, [])
  {
  }

  lemma ComesFromMore(u: Variant, vs: seq<Variant>, v: Variant)
    ensures ComesFrom(u, vs) ==> ComesFrom(u, vs + [v])
    ensures ComesFrom(Normalized(v), vs + [v])
  {
    hide Normalized;
    assert v in vs + [v];
    if ComesFrom(u, vs) {
      var w :| w in vs && u == Normalized(w);
      assert w in vs + [v];
    }
  }

  lemma RepresentedMore(w: Variant, unique: seq<Variant>, n: Variant)
    ensures Represented(w, unique) ==> Represented(w, unique + [n])
    ensures KeyOf(n) == KeyOf(w) ==> Represented(w, unique + [n])
  {
    hide KeyOf;
    assert n in unique + [n];
    if Represented(w, unique) {
      var u :| u in unique && KeyOf(u) == KeyOf(w);
      assert u in unique + [n];
    }
  }

  lemma SeenBefore(vs: seq<Variant>, unique: seq<Variant>, seen: set<Key>, v: Variant)
    requires Deduplicated(vs, unique) && SeenAre(seen, unique) && KeyOf(v) in seen
    ensures Deduplicated(vs + [v], unique)
  {
    hide KeyOf, Normalized, ComesFrom, Represented;
    forall u | u in unique
      ensures ComesFrom(u, vs + [v])
    {
      ComesFromMore(u, vs, v);
    }
    assert Represented(v, unique);
  }

  lemma NewKey(vs: seq<Variant>, unique: seq<Variant>, seen: set<Key>, v: Variant)
    requires Deduplicated(vs, unique) && SeenAre(seen, unique) && KeyOf(v) !in seen
    ensures Deduplicated(vs + [v], unique + [Normalized(v)]) && SeenAre(seen + {KeyOf(v)}, unique + [Normalized(v)])
  {
    hide KeyOf, Normalized, ComesFrom, Represented;
    var n := Normalized(v);
    NormalizedKey(v);
    var more := unique + [n];
    forall u | u in more
      ensures ComesFrom(u, vs + [v])
    {
      ComesFromMore(u, vs, v);
    }
    forall w
      ensures Represented(w, unique) ==> Represented(w, more)
      ensures KeyOf(w) == KeyOf(v) ==> Represented(w, more)
    {
      RepresentedMore(w, unique, n);
    }
    forall i | 0 <= i < |unique|
      ensures KeyOf(unique[i]) != KeyOf(n)
    {
      assert unique[i] in unique;
    }
  }
}
