/**
 Function identities: the recompiler's range listing, hashed against the captured bytes
 (psxrecomp/tools/compile_overlays.py, parse_overlay_func_ids).
 */
module FunctionIds {
  import opened Wrappers
  import opened PythonText
  import opened Manifest
  import opened Crc32

  datatype Func = Func(addr: nat, ranges: seq<Range>)

  predicate InOverlay(ovLo: nat, size: nat, a: nat) { ovLo <= Physical(a) < ovLo + size }

  /** The functions listed so far, and whether range lines still go to the last of them. */
  datatype Listing = Listing(funcs: seq<Func>, open: bool)

  function HexAt(p: seq<string>, i: nat): Option<nat> {
    if i < |p| then ParseHex(p[i]) else None
  }

  function AddRange(st: Listing, r: Range): Listing
    requires st.open && st.funcs != []
  {
    var n := |st.funcs| - 1;
    st.(funcs := st.funcs[..n] + [st.funcs[n].(ranges := st.funcs[n].ranges + [r])])
  }

  function ReadLine(ovLo: nat, size: nat, st: Listing, line: string): (next: Listing)
    requires st.open ==> st.funcs != []
    ensures next.open ==> next.funcs != []
  {
    var p := Tokens(line);
    if p == [] then st
    else if p[0] == "F" then
      var a := HexAt(p, 1);
      if a.Some? && InOverlay(ovLo, size, a.value) then Listing(st.funcs + [Func(a.value, [])], true) else st.(open := false)
    else if p[0] == "R" && st.open && HexAt(p, 1).Some? && HexAt(p, 2).Some? then
      AddRange(st, Range(HexAt(p, 1).value, HexAt(p, 2).value))
    else st
  }

  function ReadLines(ovLo: nat, size: nat, lines: seq<string>): (st: Listing)
    ensures st.open ==> st.funcs != []
    ensures forall i :: 0 <= i < |st.funcs| ==> InOverlay(ovLo, size, st.funcs[i].addr)
  {
    if lines == [] then Listing([], false)
    else ReadLine(ovLo, size, ReadLines(ovLo, size, lines[..|lines| - 1]), lines[|lines| - 1])
  }

  // ---- Code bytes ----------------------------------------------------------------------------------

  predicate Inside(data: seq<bv8>, ovLo: nat, r: Range) {
    ovLo <= Physical(r.lo) && Physical(r.lo) - ovLo + r.len <= |data|
  }

  predicate AllInside(data: seq<bv8>, ovLo: nat, ranges: seq<Range>) {
    forall i :: 0 <= i < |ranges| ==> Inside(data, ovLo, ranges[i])
  }

  function Slice(data: seq<bv8>, ovLo: nat, r: Range): seq<bv8>
    requires Inside(data, ovLo, r)
  {
    data[Physical(r.lo) - ovLo..Physical(r.lo) - ovLo + r.len]
  }

  function Chunks(data: seq<bv8>, ovLo: nat, ranges: seq<Range>): (c: seq<seq<bv8>>)
    requires AllInside(data, ovLo, ranges)
    ensures |c| == |ranges|
  {
    seq(|ranges|, i requires 0 <= i < |ranges| => Slice(data, ovLo, ranges[i]))
  }

  function CodeBytes(data: seq<bv8>, ovLo: nat, ranges: seq<Range>): seq<bv8>
    requires AllInside(data, ovLo, ranges)
  {
    Flatten(Chunks(data, ovLo, ranges))
  }

  /** A listed function gets an identity when it has ranges and all of them were captured. */
  predicate Hashable(data: seq<bv8>, ovLo: nat, f: Func) {
    f.ranges != [] && AllInside(data, ovLo, f.ranges)
  }

  /** The identity of a function is the hash of the code it was compiled from. */
  function Identity(data: seq<bv8>, ovLo: nat, f: Func): FuncId
    requires Hashable(data, ovLo, f)
  {
    FuncId(Kseg0(f.addr), Crc(CodeBytes(data, ovLo, f.ranges)), f.ranges)
  }

  function Identities(data: seq<bv8>, ovLo: nat, funcs: seq<Func>): seq<FuncId> {
    if funcs == [] then []
    else
      var n := |funcs| - 1;
      Identities(data, ovLo, funcs[..n]) + if Hashable(data, ovLo, funcs[n]) then [Identity(data, ovLo, funcs[n])] else []
  }

  method ReadListing(text: string, ovLo: nat, size: nat) returns (funcs: seq<Func>)
    ensures funcs == ReadLines(ovLo, size, Lines(text)).funcs
  {
    hide InOverlay, Tokens, ParseHex;
    var lines := Lines(text);
    funcs := [];
    var open := false;
    for i := 0 to |lines|
      invariant Listing(funcs, open) == ReadLines(ovLo, size, lines[..i])
    {
      assert lines[..i + 1][..i] == lines[..i];
      var p := Tokens(lines[i]);
      if p == [] { continue; }
      if p[0] == "F" {
        var addr := HexAt(p, 1);
        if addr.None? {
          open := false;
          continue;
        }
        if InOverlay(ovLo, size, addr.value) {
          open := true;
          funcs := funcs + [Func(addr.value, [])];
        } else {
          open := false;
        }
      } else if p[0] == "R" && open {
        var lo, length := HexAt(p, 1), HexAt(p, 2);
        if lo.None? || length.None? { continue; }
        var n := |funcs| - 1;
        funcs := funcs[..n] + [funcs[n].(ranges := funcs[n].ranges + [Range(lo.value, length.value)])];
      }
    }
    assert lines[..|lines|] == lines;
  }

  /** The chained hash of a function's ranges, or None when one was not captured. */
  method HashRanges(data: seq<bv8>, ovLo: nat, ranges: seq<Range>) returns (crc: Option<bv32>)
    ensures crc == if AllInside(data, ovLo, ranges) then Some(Crc(CodeBytes(data, ovLo, ranges))) else None
  {
    hide Continued, Crc, Flatten, Physical;
    var c: bv32 := 0;
    assert ranges[..0] == [];
    ghost var done: seq<seq<bv8>> := [];
    ChainStarts();
    for k := 0 to |ranges|
      invariant AllInside(data, ovLo, ranges[..k])
      invariant done == Chunks(data, ovLo, ranges[..k]) && c == Chained(done)
    {
      var r := ranges[k];
      assert ranges[..k + 1] == ranges[..k] + [r];
      if !Inside(data, ovLo, r) {
        assert !AllInside(data, ovLo, ranges);
        return None;
      }
      var chunk := Slice(data, ovLo, r);
      ChainGrows(done, chunk);
      c := Continued(chunk, c);
      done := done + [chunk];
      assert done == Chunks(data, ovLo, ranges[..k + 1]);
      hide Chained, Slice;
    }
    assert ranges[..|ranges|] == ranges;
    HashesAgree(done);
    crc := Some(c);
  }

  lemma ChainStarts()
    ensures Chained([]) == 0
  {
  }

  lemma {:induction false} ChainedFromGrows(done: seq<seq<bv8>>, chunk: seq<bv8>, crc: bv32)
    ensures ChainedFrom(done + [chunk], crc) == Continued(chunk, ChainedFrom(done, crc))
    decreases |done|
  {
    hide Continued;
    if done == [] {
      assert done + [chunk] == [chunk];
      assert [chunk][1..] == [];
    } else {
      assert (done + [chunk])[1..] == done[1..] + [chunk];
      ChainedFromGrows(done[1..], chunk, Continued(done[0], crc));
    }
  }

  lemma ChainGrows(done: seq<seq<bv8>>, chunk: seq<bv8>)
    ensures Chained(done + [chunk]) == Continued(chunk, Chained(done))
  {
    ChainedFromGrows(done, chunk, 0);
    hide ChainedFrom, Continued;
  }

  method ParseOverlayFuncIds(text: string, data: seq<bv8>, loadAddr: nat, size: nat) returns (out: seq<FuncId>)
    ensures out == Identities(data, Physical(loadAddr), ReadLines(Physical(loadAddr), size, Lines(text)).funcs)
  {
    hide ReadLines, Lines, Physical, Crc, CodeBytes, AllInside;
    var ovLo := Physical(loadAddr);
    var funcs := ReadListing(text, ovLo, size);
    out := [];
    for i := 0 to |funcs|
      invariant out == Identities(data, ovLo, funcs[..i])
    {
      assert funcs[..i + 1][..i] == funcs[..i];
      if funcs[i].ranges == [] { continue; }
      var crc := HashRanges(data, ovLo, funcs[i].ranges);
      if crc.None? { continue; }
      out := out + [FuncId(Kseg0(funcs[i].addr), crc.value, funcs[i].ranges)];
    }
    assert funcs[..|funcs|] == funcs;
  }

  /** Every identity is the content hash of a listed function's captured code, and every listed
      function with captured code has one. */
  lemma {:induction false} IdentitiesAreHashes(data: seq<bv8>, ovLo: nat, funcs: seq<Func>, id: FuncId)
    ensures id in Identities(data, ovLo, funcs)
            <==> exists i :: 0 <= i < |funcs| && Hashable(data, ovLo, funcs[i]) && id == Identity(data, ovLo, funcs[i])
    decreases |funcs|
  {
    hide Hashable, Identity;
    if funcs != [] {
      var n := |funcs| - 1;
      IdentitiesAreHashes(data, ovLo, funcs[..n], id);
      if i :| 0 <= i < |funcs| && Hashable(data, ovLo, funcs[i]) && id == Identity(data, ovLo, funcs[i]) {
        assert i < n ==> funcs[..n][i] == funcs[i];
      }
    }
  }

  // ---- Changed code --------------------------------------------------------------------------------

  lemma {:induction false} FlattenSplits(a: seq<seq<bv8>>, b: seq<seq<bv8>>)
    ensures Flatten(a + b) == Flatten(a) + Flatten(b)
    decreases |a|
  {
    if a == [] {
      assert a + b == b;
    } else {
      assert (a + b)[1..] == a[1..] + b;
      FlattenSplits(a[1..], b);
      assert Flatten(a + b) == a[0] + (Flatten(a[1..]) + Flatten(b));
    }
  }

  lemma AroundChunk(c: seq<seq<bv8>>, k: nat)
    requires k < |c|
    ensures Flatten(c) == Flatten(c[..k]) + c[k] + Flatten(c[k + 1..])
  {
    hide Flatten;
    assert c == c[..k] + ([c[k]] + c[k + 1..]);
    FlattenSplits(c[..k], [c[k]] + c[k + 1..]);
    FlattenSplits([c[k]], c[k + 1..]);
    FlattenOne(c[k]);
  }

  lemma FlattenOne(c: seq<bv8>)
    ensures Flatten([c]) == c
  {
    assert [c][1..] == [];
    assert c + [] == c;
  }

  /** Where a range lies in the captured data. */
  function Offset(ovLo: nat, r: Range): int { Physical(r.lo) - ovLo }

  /** The patch at p lies in range k and touches no other. */
  predicate PatchInRange(ovLo: nat, ranges: seq<Range>, k: nat, p: nat, n: nat)
    requires k < |ranges|
  {
    && Offset(ovLo, ranges[k]) <= p && p + n <= Offset(ovLo, ranges[k]) + ranges[k].len
    && forall j :: 0 <= j < |ranges| && j != k ==>
         p + n <= Offset(ovLo, ranges[j]) || Offset(ovLo, ranges[j]) + ranges[j].len <= p
  }

  predicate SameOutside(a: seq<bv8>, b: seq<bv8>, p: nat, n: nat) {
    |a| == |b| && p + n <= |a| && a[..p] == b[..p] && a[p + n..] == b[p + n..]
  }

  lemma SliceOutside(a: seq<bv8>, b: seq<bv8>, p: nat, n: nat, lo: nat, hi: nat)
    requires SameOutside(a, b, p, n) && lo <= hi <= |a| && (p + n <= lo || hi <= p)
    ensures a[lo..hi] == b[lo..hi]
  {
    forall i | lo <= i < hi
      ensures a[i] == b[i]
    {
      if i < p {
        assert a[i] == a[..p][i] && b[i] == b[..p][i];
      } else {
        assert a[i] == a[p + n..][i - p - n] && b[i] == b[p + n..][i - p - n];
      }
    }
  }

  lemma OtherChunks(a: seq<bv8>, b: seq<bv8>, ovLo: nat, ranges: seq<Range>, k: nat, p: nat, n: nat)
    requires AllInside(a, ovLo, ranges) && k < |ranges| && SameOutside(a, b, p, n) && PatchInRange(ovLo, ranges, k, p, n)
    ensures AllInside(b, ovLo, ranges)
    ensures Chunks(a, ovLo, ranges)[..k] == Chunks(b, ovLo, ranges)[..k]
    ensures Chunks(a, ovLo, ranges)[k + 1..] == Chunks(b, ovLo, ranges)[k + 1..]
  {
    hide Physical;
    forall i | 0 <= i < |ranges|
      ensures Inside(b, ovLo, ranges[i])
    {
      assert Inside(a, ovLo, ranges[i]);
    }
    forall j | 0 <= j < |ranges| && j != k
      ensures Chunks(a, ovLo, ranges)[j] == Chunks(b, ovLo, ranges)[j]
    {
      assert Inside(a, ovLo, ranges[j]);
      SliceOutside(a, b, p, n, Offset(ovLo, ranges[j]), Offset(ovLo, ranges[j]) + ranges[j].len);
    }
    hide SameOutside, PatchInRange;
  }

  lemma PatchedChunk(a: seq<bv8>, ovLo: nat, ranges: seq<Range>, k: nat, p: nat, n: nat)
    requires AllInside(a, ovLo, ranges) && k < |ranges| && PatchInRange(ovLo, ranges, k, p, n)
    ensures 0 <= Offset(ovLo, ranges[k]) && Offset(ovLo, ranges[k]) + ranges[k].len <= |a|
    ensures Chunks(a, ovLo, ranges)[k]
            == a[Offset(ovLo, ranges[k])..p] + a[p..p + n] + a[p + n..Offset(ovLo, ranges[k]) + ranges[k].len]
  {
    hide Physical;
    assert Inside(a, ovLo, ranges[k]);
  }

  /** Two captures that differ in one stretch of at most four bytes -- an instruction word, say --
      inside a code range of a function never give it the same hash. */
  lemma PatchChangesHash(a: seq<bv8>, b: seq<bv8>, ovLo: nat, ranges: seq<Range>, k: nat, p: nat, n: nat)
    requires AllInside(a, ovLo, ranges) && k < |ranges| && n <= 4
    requires SameOutside(a, b, p, n) && a[p..p + n] != b[p..p + n]
    requires PatchInRange(ovLo, ranges, k, p, n)
    ensures AllInside(b, ovLo, ranges)
    ensures Crc(CodeBytes(a, ovLo, ranges)) != Crc(CodeBytes(b, ovLo, ranges))
  {
    hide Crc, Flatten, Physical, AllInside, Chunks, Offset, PatchInRange;
    OtherChunks(a, b, ovLo, ranges, k, p, n);
    PatchedChunk(a, ovLo, ranges, k, p, n);
    PatchedChunk(b, ovLo, ranges, k, p, n);
    var ca, cb := Chunks(a, ovLo, ranges), Chunks(b, ovLo, ranges);
    AroundChunk(ca, k);
    AroundChunk(cb, k);
    PatchBounds(ovLo, ranges, k, p, n);
    var lo, hi := Offset(ovLo, ranges[k]), Offset(ovLo, ranges[k]) + ranges[k].len;
    SliceOutside(a, b, p, n, lo, p);
    SliceOutside(a, b, p, n, p + n, hi);
    var before, after := Flatten(ca[..k]) + a[lo..p], a[p + n..hi] + Flatten(ca[k + 1..]);
    assert CodeBytes(a, ovLo, ranges) == before + a[p..p + n] + after;
    assert CodeBytes(b, ovLo, ranges) == before + b[p..p + n] + after;
    BurstIsDetected(before, a[p..p + n], b[p..p + n], after);
  }

  lemma PatchBounds(ovLo: nat, ranges: seq<Range>, k: nat, p: nat, n: nat)
    requires k < |ranges| && PatchInRange(ovLo, ranges, k, p, n)
    ensures Offset(ovLo, ranges[k]) <= p && p + n <= Offset(ovLo, ranges[k]) + ranges[k].len
  {
    hide Offset;
  }
}
