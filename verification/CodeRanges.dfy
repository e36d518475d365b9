/**
 The recompiler's listing of code ranges (psxrecomp/recompiler/src/code_generator.cpp,
 generate_ranges_manifest), and its way into the offline tool.
 */
module CodeRanges {
  import opened Wrappers
  import opened PythonText
  import opened Manifest
  import opened FunctionIds

  // ---- Coalescing ----------------------------------------------------------------------------------

  /** Addresses from lo up to, but not including, hi. */
  datatype Interval = Interval(lo: nat, hi: nat)

  predicate Holds(r: Interval, a: int) { r.lo <= a < r.hi }

  ghost predicate SomeHolds(iv: seq<Interval>, a: int) { exists i :: 0 <= i < |iv| && Holds(iv[i], a) }

  ghost predicate StartsAscend(iv: seq<Interval>) { forall i, j :: 0 <= i < j < |iv| ==> iv[i].lo <= iv[j].lo }

  /** Between any two intervals there is a gap. */
  ghost predicate Separated(iv: seq<Interval>) {
    && (forall i :: 0 <= i < |iv| ==> iv[i].lo < iv[i].hi)
    && (forall i, j :: 0 <= i < j < |iv| ==> iv[i].hi < iv[j].lo)
  }

  lemma ConsAscends(x: Interval, rest: seq<Interval>)
    requires StartsAscend(rest) && forall y :: y in rest ==> x.lo <= y.lo
    ensures StartsAscend([x] + rest)
  {
  }

  lemma HeadIsLeast(q: seq<Interval>, y: Interval)
    requires StartsAscend(q) && y in q
    ensures q[0].lo <= y.lo
  {
  }

  predicate Precedes(x: Interval, y: Interval) { x.lo < y.lo || (x.lo == y.lo && x.hi <= y.hi) }

  /** x placed into a sorted sequence. */
  function InsertInterval(q: seq<Interval>, x: Interval): seq<Interval> {
    if q == [] then [x]
    else if Precedes(x, q[0]) then [x] + q
    else [q[0]] + InsertInterval(q[1..], x)
  }

  lemma {:induction false} InsertSorts(q: seq<Interval>, x: Interval)
    requires StartsAscend(q)
    ensures StartsAscend(InsertInterval(q, x))
    ensures forall y :: y in InsertInterval(q, x) <==> y == x || y in q
    decreases |q|
  {
    if q != [] {
      assert q == [q[0]] + q[1..];
      forall y | y in q
        ensures q[0].lo <= y.lo
      {
        HeadIsLeast(q, y);
      }
      if Precedes(x, q[0]) {
        ConsAscends(x, q);
      } else {
        InsertSorts(q[1..], x);
        ConsAscends(q[0], InsertInterval(q[1..], x));
      }
      hide StartsAscend;
    }
  }

  method SortIntervals(iv: seq<Interval>) returns (q: seq<Interval>)
    ensures StartsAscend(q)
    ensures forall y :: y in q <==> y in iv
  {
    q := [];
    for i := 0 to |iv|
      invariant StartsAscend(q)
      invariant forall y :: y in q <==> y in iv[..i]
    {
      InsertSorts(q, iv[i]);
      q := InsertInterval(q, iv[i]);
      hide StartsAscend, InsertInterval;
    }
  }

  lemma HoldsByMember(iv: seq<Interval>, a: int)
    ensures SomeHolds(iv, a) <==> exists y :: y in iv && Holds(y, a)
  {
    if y :| y in iv && Holds(y, a) {
      var i :| 0 <= i < |iv| && iv[i] == y;
      assert Holds(iv[i], a);
    }
    if i :| 0 <= i < |iv| && Holds(iv[i], a) {
      assert iv[i] in iv;
    }
  }

  /** Merging overlapping and adjacent intervals covers the same addresses, each exactly once. */
  method Coalesce(blocks: seq<Interval>) returns (merged: seq<Interval>)
    requires forall b :: b in blocks ==> b.lo < b.hi
    ensures Separated(merged)
    ensures forall a :: SomeHolds(merged, a) <==> SomeHolds(blocks, a)
  {
    var iv := SortIntervals(blocks);
    forall a
      ensures SomeHolds(iv, a) <==> SomeHolds(blocks, a)
    {
      HoldsByMember(iv, a);
      HoldsByMember(blocks, a);
    }
    merged := [];
    for i := 0 to |iv|
      invariant Separated(merged)
      invariant forall a :: SomeHolds(merged, a) <==> SomeHolds(iv[..i], a)
      invariant merged != [] && i < |iv| ==> merged[|merged| - 1].lo <= iv[i].lo
    {
      var r := iv[i];
      assert r in iv;
      ghost var before := merged;
      if merged != [] && r.lo <= merged[|merged| - 1].hi {
        var n := |merged| - 1;
        if r.hi > merged[n].hi {
          merged := merged[n := merged[n].(hi := r.hi)];
        }
      } else {
        merged := merged + [r];
      }
      forall a
        ensures SomeHolds(merged, a) <==> SomeHolds(iv[..i + 1], a)
      {
        Extended(iv, i, a);
        Merged(before, merged, r, a);
      }
      hide SomeHolds;
    }
    assert iv[..|iv|] == iv;
  }

  lemma Extended(iv: seq<Interval>, i: nat, a: int)
    requires i < |iv|
    ensures SomeHolds(iv[..i + 1], a) <==> SomeHolds(iv[..i], a) || Holds(iv[i], a)
  {
    assert iv[..i + 1][i] == iv[i];
    if SomeHolds(iv[..i], a) {
      var k :| 0 <= k < i && Holds(iv[..i][k], a);
      assert Holds(iv[..i + 1][k], a);
    }
    if SomeHolds(iv[..i + 1], a) {
      var k :| 0 <= k < i + 1 && Holds(iv[..i + 1][k], a);
      assert k < i ==> Holds(iv[..i][k], a);
    }
  }

  /** What absorbing r into the last interval, or appending it, does to the addresses held. */
  lemma Merged(before: seq<Interval>, after: seq<Interval>, r: Interval, a: int)
    requires before != [] ==> before[|before| - 1].lo <= r.lo
    requires if before != [] && r.lo <= before[|before| - 1].hi
             then after == before[|before| - 1 := Interval(before[|before| - 1].lo, if r.hi > before[|before| - 1].hi then r.hi else before[|before| - 1].hi)]
             else after == before + [r]
    ensures SomeHolds(after, a) <==> SomeHolds(before, a) || Holds(r, a)
  {
    var n := |after| - 1;
    assert forall k :: 0 <= k < n ==> after[k] == before[k];
    if SomeHolds(before, a) {
      var k :| 0 <= k < |before| && Holds(before[k], a);
      assert Holds(after[k], a);
    }
    if Holds(r, a) {
      assert Holds(after[n], a);
    }
    if SomeHolds(after, a) {
      var k :| 0 <= k < |after| && Holds(after[k], a);
      if k < |before| && !Holds(r, a) {
        assert Holds(before[k], a);
      }
    }
  }

  // ---- The listing ---------------------------------------------------------------------------------

  function ListedFunc(f: Func): string { "F" + ([' '] + Hex8(f.addr)) }

  function ListedRange(r: Range): string { "R" + ([' '] + (Hex8(r.lo) + ([' '] + HexDigits(r.len)))) }

  function Comment(title: string): string { "#" + ([' '] + title) }

  function RangeLines(ranges: seq<Range>): seq<string> {
    if ranges == [] then [] else [ListedRange(ranges[0])] + RangeLines(ranges[1..])
  }

  function FuncLines(funcs: seq<Func>): seq<string> {
    if funcs == [] then [] else [ListedFunc(funcs[0])] + (RangeLines(funcs[0].ranges) + FuncLines(funcs[1..]))
  }

  function CommentLines(titles: seq<string>): seq<string> {
    if titles == [] then [] else [Comment(titles[0])] + CommentLines(titles[1..])
  }

  /** Lines, each ended by a newline. */
  function Joined(lines: seq<string>): string {
    if lines == [] then "" else lines[0] + ("\n" + Joined(lines[1..]))
  }

  function ListingText(titles: seq<string>, funcs: seq<Func>): string {
    Joined(CommentLines(titles) + FuncLines(funcs))
  }

  lemma {:induction false} LinesOfJoined(lines: seq<string>)
    requires forall i :: 0 <= i < |lines| ==> OneLine(lines[i])
    ensures Lines(Joined(lines)) == lines
    decreases |lines|
  {
    hide Lines;
    if lines == [] {
      NoLines();
    } else {
      assert OneLine(lines[0]);
      forall i | 0 <= i < |lines[1..]|
        ensures OneLine(lines[1..][i])
      {
        assert OneLine(lines[i + 1]);
      }
      LinesOfJoined(lines[1..]);
      FirstLine(lines[0], Joined(lines[1..]));
    }
  }

  // ---- Reading it back -----------------------------------------------------------------------------

  /** Reading on from a given state. */
  function Feed(ovLo: nat, size: nat, st: Listing, lines: seq<string>): Listing
    requires st.open ==> st.funcs != []
    decreases |lines|
  {
    if lines == [] then st else Feed(ovLo, size, ReadLine(ovLo, size, st, lines[0]), lines[1..])
  }

  lemma {:induction false} FeedSplits(ovLo: nat, size: nat, st: Listing, a: seq<string>, b: seq<string>)
    requires st.open ==> st.funcs != []
    ensures var mid := Feed(ovLo, size, st, a);
            (mid.open ==> mid.funcs != []) && Feed(ovLo, size, st, a + b) == Feed(ovLo, size, mid, b)
    decreases |a|
  {
    hide ReadLine;
    if a == [] {
      assert a + b == b;
    } else {
      assert (a + b)[1..] == a[1..] + b;
      FeedSplits(ovLo, size, ReadLine(ovLo, size, st, a[0]), a[1..], b);
    }
  }

  lemma {:induction false} FeedIsRead(ovLo: nat, size: nat, lines: seq<string>)
    ensures Feed(ovLo, size, Listing([], false), lines) == ReadLines(ovLo, size, lines)
    decreases |lines|
  {
    hide ReadLine, InOverlay;
    if lines != [] {
      var n := |lines| - 1;
      FeedIsRead(ovLo, size, lines[..n]);
      assert lines == lines[..n] + [lines[n]];
      FeedSplits(ovLo, size, Listing([], false), lines[..n], [lines[n]]);
      assert [lines[n]][1..] == [];
    }
  }

  lemma TwoTokens(a: string, b: string)
    requires IsWord(a) && IsWord(b)
    ensures Tokens(a + ([' '] + b)) == [a, b]
  {
    FirstToken(a, ' ', b);
    LastToken(b);
  }

  lemma FuncIsRead(ovLo: nat, size: nat, st: Listing, f: Func)
    requires st.open ==> st.funcs != []
    ensures OneLine(ListedFunc(f))
    ensures ReadLine(ovLo, size, st, ListedFunc(f))
            == if InOverlay(ovLo, size, f.addr) then Listing(st.funcs + [Func(f.addr, [])], true) else st.(open := false)
  {
    hide ParseHex, Hex8, Tokens, InOverlay;
    HexRoundTrip(f.addr);
    assert IsWord("F");
    TwoTokens("F", Hex8(f.addr));
    assert forall i :: 0 <= i < |Hex8(f.addr)| ==> !IsSpace(Hex8(f.addr)[i]);
  }

  lemma RangeIsRead(ovLo: nat, size: nat, st: Listing, r: Range)
    requires st.open ==> st.funcs != []
    ensures OneLine(ListedRange(r))
    ensures ReadLine(ovLo, size, st, ListedRange(r)) == if st.open then AddRange(st, r) else st
  {
    hide ParseHex, Hex8, HexDigits, Tokens, AddRange, InOverlay, OneLine;
    HexRoundTrip(r.lo);
    HexRoundTrip(r.len);
    assert IsWord("R");
    hide IsWord;
    ThreeTokens("R", Hex8(r.lo), HexDigits(r.len));
    WordsStayOnLine("R", Hex8(r.lo), HexDigits(r.len));
  }

  lemma CommentIsRead(ovLo: nat, size: nat, st: Listing, title: string)
    requires (st.open ==> st.funcs != []) && OneLine(title)
    ensures OneLine(Comment(title)) && ReadLine(ovLo, size, st, Comment(title)) == st
  {
    hide WordLength, ParseHex, InOverlay;
    assert IsWord("#");
    FirstToken("#", ' ', title);
    hide Tokens;
  }

  lemma {:induction false} RangesAreRead(ovLo: nat, size: nat, funcs: seq<Func>, f: Func, ranges: seq<Range>)
    ensures Feed(ovLo, size, Listing(funcs + [f], true), RangeLines(ranges))
            == Listing(funcs + [f.(ranges := f.ranges + ranges)], true)
    decreases |ranges|
  {
    hide ReadLine, ListedRange;
    if ranges == [] {
      assert f.ranges + ranges == f.ranges;
    } else {
      var st, r := Listing(funcs + [f], true), ranges[0];
      RangeIsRead(ovLo, size, st, r);
      var next := f.(ranges := f.ranges + [r]);
      assert AddRange(st, r) == Listing(funcs + [next], true);
      RangesAreRead(ovLo, size, funcs, next, ranges[1..]);
      assert f.ranges + [r] + ranges[1..] == f.ranges + ranges;
    }
  }

  lemma {:induction false} RangesAreSkipped(ovLo: nat, size: nat, funcs: seq<Func>, ranges: seq<Range>)
    ensures Feed(ovLo, size, Listing(funcs, false), RangeLines(ranges)) == Listing(funcs, false)
    decreases |ranges|
  {
    hide ReadLine, ListedRange;
    if ranges != [] {
      RangeIsRead(ovLo, size, Listing(funcs, false), ranges[0]);
      RangesAreSkipped(ovLo, size, funcs, ranges[1..]);
    }
  }

  /** The functions of a listing that lie in the overlay. */
  function Selected(ovLo: nat, size: nat, funcs: seq<Func>): seq<Func> {
    if funcs == [] then []
    else (if InOverlay(ovLo, size, funcs[0].addr) then [funcs[0]] else []) + Selected(ovLo, size, funcs[1..])
  }

  lemma OneFuncIsRead(ovLo: nat, size: nat, st: Listing, f: Func)
    requires st.open ==> st.funcs != []
    ensures Feed(ovLo, size, st, [ListedFunc(f)] + RangeLines(f.ranges)).funcs
            == st.funcs + if InOverlay(ovLo, size, f.addr) then [f] else []
  {
    hide ReadLine, ListedFunc, InOverlay, RangeLines;
    FuncIsRead(ovLo, size, st, f);
    var lines := [ListedFunc(f)] + RangeLines(f.ranges);
    assert lines[1..] == RangeLines(f.ranges);
    if InOverlay(ovLo, size, f.addr) {
      RangesAreRead(ovLo, size, st.funcs, Func(f.addr, []), f.ranges);
      assert [] + f.ranges == f.ranges;
    } else {
      RangesAreSkipped(ovLo, size, st.funcs, f.ranges);
      assert st.funcs + [] == st.funcs;
    }
  }

  lemma {:induction false} FuncsAreRead(ovLo: nat, size: nat, st: Listing, funcs: seq<Func>)
    requires st.open ==> st.funcs != []
    ensures Feed(ovLo, size, st, FuncLines(funcs)).funcs == st.funcs + Selected(ovLo, size, funcs)
    decreases |funcs|
  {
    hide ReadLine, ListedFunc, InOverlay, RangeLines, Feed;
    if funcs == [] {
      NothingRead(ovLo, size, st);
      assert st.funcs + [] == st.funcs;
    } else {
      var first, rest := [ListedFunc(funcs[0])] + RangeLines(funcs[0].ranges), FuncLines(funcs[1..]);
      OneFuncIsRead(ovLo, size, st, funcs[0]);
      FeedSplits(ovLo, size, st, first, rest);
      FuncsAreRead(ovLo, size, Feed(ovLo, size, st, first), funcs[1..]);
      assert FuncLines(funcs) == first + rest;
      hide FuncLines;
      var here := if InOverlay(ovLo, size, funcs[0].addr) then [funcs[0]] else [];
      assert st.funcs + here + Selected(ovLo, size, funcs[1..]) == st.funcs + (here + Selected(ovLo, size, funcs[1..]));
    }
  }

  lemma NothingRead(ovLo: nat, size: nat, st: Listing)
    requires st.open ==> st.funcs != []
    ensures Feed(ovLo, size, st, []) == st
  {
  }

  lemma {:induction false} CommentsAreRead(ovLo: nat, size: nat, titles: seq<string>)
    requires forall i :: 0 <= i < |titles| ==> OneLine(titles[i])
    ensures Feed(ovLo, size, Listing([], false), CommentLines(titles)) == Listing([], false)
    ensures forall i :: 0 <= i < |CommentLines(titles)| ==> OneLine(CommentLines(titles)[i])
    decreases |titles|
  {
    hide ReadLine, Comment, OneLine;
    if titles != [] {
      CommentIsRead(ovLo, size, Listing([], false), titles[0]);
      CommentsAreRead(ovLo, size, titles[1..]);
    }
  }

  lemma {:induction false} RangeLinesAreLines(ranges: seq<Range>)
    ensures forall i :: 0 <= i < |RangeLines(ranges)| ==> OneLine(RangeLines(ranges)[i])
    decreases |ranges|
  {
    hide OneLine, ListedRange, ReadLine;
    if ranges != [] {
      RangeIsRead(0, 0, Listing([], false), ranges[0]);
      RangeLinesAreLines(ranges[1..]);
    }
  }

  lemma {:induction false} FuncLinesAreLines(funcs: seq<Func>)
    ensures forall i :: 0 <= i < |FuncLines(funcs)| ==> OneLine(FuncLines(funcs)[i])
    decreases |funcs|
  {
    hide OneLine, ListedFunc, RangeLines, ReadLine;
    if funcs != [] {
      FuncIsRead(0, 0, Listing([], false), funcs[0]);
      RangeLinesAreLines(funcs[0].ranges);
      FuncLinesAreLines(funcs[1..]);
    }
  }

  /** Reading the recompiler's listing gives back exactly its functions that lie in the overlay, with
      their ranges, in order. */
  lemma ListingRoundTrip(ovLo: nat, size: nat, titles: seq<string>, funcs: seq<Func>)
    requires forall i :: 0 <= i < |titles| ==> OneLine(titles[i])
    ensures ReadLines(ovLo, size, Lines(ListingText(titles, funcs))).funcs == Selected(ovLo, size, funcs)
  {
    hide ReadLine, OneLine, Feed, CommentLines, FuncLines, ReadLines, Lines, Joined, Selected;
    var head, body := CommentLines(titles), FuncLines(funcs);
    CommentsAreRead(ovLo, size, titles);
    FuncLinesAreLines(funcs);
    LinesOfJoined(head + body);
    FeedIsRead(ovLo, size, head + body);
    FeedSplits(ovLo, size, Listing([], false), head, body);
    FuncsAreRead(ovLo, size, Listing([], false), funcs);
    assert [] + Selected(ovLo, size, funcs) == Selected(ovLo, size, funcs);
  }

  // ---- One patch, one range ------------------------------------------------------------------------

  function RangeOf(r: Interval): Range
    requires r.lo <= r.hi
  {
    Range(r.lo, r.hi - r.lo)
  }

  /** All intervals lie in one 512 MB segment. */
  ghost predicate InSegment(iv: seq<Interval>, base: nat) {
    base % 0x2000_0000 == 0 && forall i :: 0 <= i < |iv| ==> base <= iv[i].lo && iv[i].hi <= base + 0x2000_0000
  }

  /** Coalesced ranges are disjoint in physical memory, so a patch inside one touches no other: every
      function the recompiler lists is covered by PatchChangesHash. */
  lemma PatchTouchesOneRange(ovLo: nat, iv: seq<Interval>, base: nat, ranges: seq<Range>, k: nat, p: nat, n: nat)
    requires Separated(iv) && InSegment(iv, base) && |ranges| == |iv|
    requires forall i :: 0 <= i < |iv| ==> iv[i].lo <= iv[i].hi && ranges[i] == RangeOf(iv[i])
    requires k < |iv| && Offset(ovLo, ranges[k]) <= p && p + n <= Offset(ovLo, ranges[k]) + ranges[k].len
    ensures PatchInRange(ovLo, ranges, k, p, n)
  {
    forall j | 0 <= j < |ranges|
      ensures Offset(ovLo, ranges[j]) == iv[j].lo - base - ovLo
    {
      PhysicalInSegment(iv[j].lo, base);
    }
    hide Offset;
  }

  lemma PhysicalInSegment(a: nat, base: nat)
    requires base % 0x2000_0000 == 0 && base <= a < base + 0x2000_0000
    ensures Physical(a) == a - base
  {
  }
}
