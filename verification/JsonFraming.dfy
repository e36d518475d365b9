/**
 Framing of one JSON response on a byte stream (psxrecomp/tools/debug_client.py, send_cmd).
 */
module JsonFraming {
  import opened MipsWord

  const QUOTE: U8 := 0x22
  const BACKSLASH: U8 := 0x5C
  const OPEN_BRACE: U8 := 0x7B
  const CLOSE_BRACE: U8 := 0x7D

  // ---- The per-byte automaton ----------------------------------------------------------------------

  datatype Scan = Scan(depth: int, inStr: bool, esc: bool, started: bool)

  const START := Scan(0, false, false, false)

  function Step(st: Scan, b: U8): Scan {
    if st.inStr then
      if st.esc then st.(esc := false)
      else if b == QUOTE then st.(inStr := false)
      else if b == BACKSLASH then st.(esc := true)
      else st
    else if b == QUOTE then st.(inStr := true)
    else if b == OPEN_BRACE then st.(depth := st.depth + 1, started := true)
    else if b == CLOSE_BRACE then st.(depth := st.depth - 1)
    else st
  }

  /** The byte that ends the first object. */
  predicate Closes(st: Scan, b: U8) {
    !st.inStr && b == CLOSE_BRACE && st.started && st.depth == 1
  }

  datatype Progress = Open(st: Scan) | Closed

  /** The automaton over a stretch of bytes; Closed when the object ends inside it. */
  function Run(st: Scan, s: seq<U8>): Progress
    decreases |s|
  {
    if s == [] then Open(st)
    else if Closes(st, s[0]) then Closed
    else Run(Step(st, s[0]), s[1..])
  }

  lemma {:induction false} RunSplits(st: Scan, a: seq<U8>, b: seq<U8>)
    ensures Run(st, a + b) == if Run(st, a).Open? then Run(Run(st, a).st, b) else Closed
    decreases |a|
  {
    if a == [] {
      assert a + b == b;
    } else {
      assert (a + b)[1..] == a[1..] + b;
      RunSplits(Step(st, a[0]), a[1..], b);
    }
  }

  lemma RunNext(st: Scan, s: seq<U8>, k: nat)
    requires k < |s| && Run(st, s[..k]).Open?
    ensures Run(st, s[..k + 1]) == if Closes(Run(st, s[..k]).st, s[k]) then Closed else Open(Step(Run(st, s[..k]).st, s[k]))
  {
    assert s[..k + 1] == s[..k] + [s[k]];
    RunSplits(st, s[..k], [s[k]]);
    assert [s[k]][1..] == [];
  }

  // ---- The reply -----------------------------------------------------------------------------------

  /** The bytes handed to the JSON parser: up to the end of the first object, or all there was. */
  datatype Reply = Framed(bytes: seq<U8>) | Drained(bytes: seq<U8>)

  predicate IsReply(received: seq<U8>, r: Reply) {
    match r
    case Framed(bytes) => IsFrame(bytes) && bytes <= received
    case Drained(bytes) => bytes == received && Run(START, received).Open?
  }

  /** What arrives: an empty chunk is the end of the stream. */
  function Received(chunks: seq<seq<U8>>): seq<U8> {
    if chunks == [] || chunks[0] == [] then [] else chunks[0] + Received(chunks[1..])
  }

  /** bytearray.find */
  method Find(buf: seq<U8>, b: U8, pos: nat) returns (q: int)
    requires pos <= |buf|
    ensures q == -1 ==> forall i :: pos <= i < |buf| ==> buf[i] != b
    ensures q != -1 ==> pos <= q < |buf| && buf[q] == b && forall i :: pos <= i < q ==> buf[i] != b
  {
    q := pos;
    while q < |buf|
      invariant pos <= q <= |buf|
      invariant forall i :: pos <= i < q ==> buf[i] != b
    {
      if buf[q] == b { return; }
      q := q + 1;
    }
    q := -1;
  }

  /** Bytes inside a string that neither end it nor escape anything can be skipped. */
  lemma {:induction false} SkipInString(st: Scan, buf: seq<U8>, pos: nat, q: nat)
    requires pos <= q <= |buf| && st.inStr && !st.esc
    requires Run(START, buf[..pos]) == Open(st)
    requires forall i :: pos <= i < q ==> buf[i] != QUOTE && buf[i] != BACKSLASH
    ensures Run(START, buf[..q]) == Open(st)
    decreases q - pos
  {
    if pos < q {
      RunNext(START, buf, pos);
      SkipInString(st, buf, pos + 1, q);
    }
  }

  /** The scanner's variables, as an automaton state. */
  ghost predicate AtState(buf: seq<U8>, pos: nat, depth: int, inStr: bool, esc: bool, started: bool) {
    pos <= |buf| && Run(START, buf[..pos]) == Open(Scan(depth, inStr, esc, started))
  }

  lemma Advances(buf: seq<U8>, pos: nat, depth: int, inStr: bool, esc: bool, started: bool)
    requires pos < |buf| && AtState(buf, pos, depth, inStr, esc, started)
    ensures var st := Scan(depth, inStr, esc, started);
            && (!Closes(st, buf[pos]) ==>
                  var t := Step(st, buf[pos]); AtState(buf, pos + 1, t.depth, t.inStr, t.esc, t.started))
            && (Closes(st, buf[pos]) ==> IsFrame(buf[..pos + 1]))
  {
    RunNext(START, buf, pos);
    assert buf[..pos + 1][..pos] == buf[..pos];
    hide Run;
  }

  lemma Skips(buf: seq<U8>, pos: nat, q: nat, depth: int, started: bool)
    requires pos <= q <= |buf| && AtState(buf, pos, depth, true, false, started)
    requires forall i :: pos <= i < q ==> buf[i] != QUOTE && buf[i] != BACKSLASH
    ensures AtState(buf, q, depth, true, false, started)
  {
    SkipInString(Scan(depth, true, false, started), buf, pos, q);
  }

  predicate IsFrame(bytes: seq<U8>) {
    && bytes != []
    && Run(START, bytes[..|bytes| - 1]).Open?
    && Closes(Run(START, bytes[..|bytes| - 1]).st, bytes[|bytes| - 1])
  }

  /** One chunk's worth of scanning. */
  method ScanBuffer(buf: seq<U8>, pos0: nat, depth0: int, inStr0: bool, esc0: bool, started0: bool)
    returns (done: bool, pos: nat, depth: int, inStr: bool, esc: bool, started: bool)
    requires AtState(buf, pos0, depth0, inStr0, esc0, started0)
    ensures pos <= |buf|
    ensures if done then pos < |buf| && IsFrame(buf[..pos + 1]) else pos == |buf| && AtState(buf, pos, depth, inStr, esc, started)
  {
    hide Run, AtState, IsFrame;
    done, pos, depth, inStr, esc, started := false, pos0, depth0, inStr0, esc0, started0;
    var n := |buf|;
    StaysInside(buf, pos, depth, inStr, esc, started);
    while pos < n
      invariant pos <= n && AtState(buf, pos, depth, inStr, esc, started)
      decreases n - pos
    {
      Advances(buf, pos, depth, inStr, esc, started);
      if inStr {
        if esc {
          esc := false;
          pos := pos + 1;
          continue;
        }
        var q := Find(buf, QUOTE, pos);
        var bs := Find(buf, BACKSLASH, pos);
        if q == -1 && bs == -1 {
          Skips(buf, pos, n, depth, started);
          pos := n;
          break;
        }
        if bs != -1 && (q == -1 || bs < q) {
          Skips(buf, pos, bs, depth, started);
          Advances(buf, bs, depth, true, false, started);
          esc := true;
          pos := bs + 1;
          continue;
        }
        Skips(buf, pos, q, depth, started);
        Advances(buf, q, depth, true, false, started);
        inStr := false;
        pos := q + 1;
        continue;
      }
      var c := buf[pos];
      if c == QUOTE {
        inStr := true;
      } else if c == OPEN_BRACE {
        depth := depth + 1;
        started := true;
      } else if c == CLOSE_BRACE {
        depth := depth - 1;
        if started && depth == 0 {
          done := true;
          return;
        }
      }
      pos := pos + 1;
    }
  }

  lemma StaysInside(buf: seq<U8>, pos: nat, depth: int, inStr: bool, esc: bool, started: bool)
    requires AtState(buf, pos, depth, inStr, esc, started)
    ensures pos <= |buf|
  {
  }

  method SendCmd(chunks: seq<seq<U8>>) returns (r: Reply)
    ensures IsReply(Received(chunks), r)
  {
    hide Run;
    var buf: seq<U8> := [];
    var pos, depth := 0, 0;
    var inStr, esc, started := false, false, false;
    var next := 0;
    assert chunks[0..] == chunks;
    assert AtState([], 0, 0, false, false, false) by { NothingScanned(); }
    while next < |chunks| && chunks[next] != []
      invariant next <= |chunks| && pos == |buf|
      invariant Received(chunks) == buf + Received(chunks[next..])
      invariant AtState(buf, pos, depth, inStr, esc, started)
    {
      ghost var known := buf;
      buf := buf + chunks[next];
      next := next + 1;
      assert Received(chunks) == buf + Received(chunks[next..]);
      assert buf[..pos] == known[..pos];
      var done;
      done, pos, depth, inStr, esc, started := ScanBuffer(buf, pos, depth, inStr, esc, started);
      if done {
        r := Framed(buf[..pos + 1]);
        assert buf[..pos + 1] <= Received(chunks);
        return;
      }
      hide AtState, IsFrame;
    }
    assert Received(chunks[next..]) == [];
    assert buf + [] == buf && buf[..|buf|] == buf;
    r := Drained(buf);
  }

  lemma NothingScanned()
    ensures AtState([], 0, 0, false, false, false)
  {
  }

  lemma FrameOnce(received: seq<U8>, a: seq<U8>, b: seq<U8>)
    requires IsReply(received, Framed(a)) && Run(START, b).Open? && b <= received
    ensures |b| < |a|
  {
    if |a| <= |b| {
      var k := |a| - 1;
      assert received[..k] == a[..k] && b[..k] == a[..k] && b[k] == a[k];
      RunNext(START, b, k);
      assert b == b[..k + 1] + b[k + 1..];
      RunSplits(START, b[..k + 1], b[k + 1..]);
    }
  }

  /** The reply depends on the bytes alone, not on how they were split into chunks. */
  lemma ReplyIsUnique(received: seq<U8>, r1: Reply, r2: Reply)
    requires IsReply(received, r1) && IsReply(received, r2)
    ensures r1 == r2
  {
    if r1.Framed? {
      Prefixes(received, r1, r2);
    } else if r2.Framed? {
      Prefixes(received, r2, r1);
    }
  }

  lemma Prefixes(received: seq<U8>, r1: Reply, r2: Reply)
    requires IsReply(received, r1) && IsReply(received, r2) && r1.Framed?
    ensures r1 == r2
  {
    if r2.Framed? {
      var a, b := r1.bytes, r2.bytes;
      FrameOnce(received, a, b[..|b| - 1]);
      FrameOnce(received, b, a[..|a| - 1]);
      assert a == received[..|a|] && b == received[..|b|];
    } else {
      FrameOnce(received, r1.bytes, received);
    }
  }

  // ---- JSON texts (sections 2 to 7 of RFC 8259) ----------------------------------------------------

  /** A string is a sequence of plain bytes and of escapes; the hexadecimal digits of \u are plain. */
  datatype Unit = Plain(b: U8) | Escape(b: U8)

  /** Values as written, with the white space around them. */
  datatype Value =
    | Scalar(bytes: seq<U8>)
    | Str(units: seq<Unit>)
    | EmptyArray(pad: seq<U8>)
    | Array(elems: Elems)
    | EmptyObject(pad: seq<U8>)
    | Object(members: Members)

  datatype Elems =
    | LastElem(pre: seq<U8>, v: Value, post: seq<U8>)
    | MoreElems(pre: seq<U8>, v: Value, post: seq<U8>, rest: Elems)

  datatype Members =
    | LastMember(pre: seq<U8>, key: seq<Unit>, mid: seq<U8>, sep: seq<U8>, v: Value, post: seq<U8>)
    | MoreMembers(pre: seq<U8>, key: seq<Unit>, mid: seq<U8>, sep: seq<U8>, v: Value, post: seq<U8>, rest: Members)

  predicate IsSpace(s: seq<U8>) { forall i :: 0 <= i < |s| ==> s[i] in {0x20, 0x09, 0x0A, 0x0D} }

  /** Numbers and literal names contain no structural byte. */
  predicate IsScalar(s: seq<U8>) {
    s != [] && forall i :: 0 <= i < |s| ==> s[i] !in {QUOTE, BACKSLASH, OPEN_BRACE, CLOSE_BRACE, 0x5B, 0x5D, 0x2C, 0x3A}
  }

  predicate AreUnits(u: seq<Unit>) {
    forall i :: 0 <= i < |u| ==> u[i].Plain? ==> u[i].b != QUOTE && u[i].b != BACKSLASH
  }

  predicate IsJson(v: Value) {
    match v
    case Scalar(bytes) => IsScalar(bytes)
    case Str(units) => AreUnits(units)
    case EmptyArray(pad) => IsSpace(pad)
    case Array(elems) => AreElems(elems)
    case EmptyObject(pad) => IsSpace(pad)
    case Object(members) => AreMembers(members)
  }

  predicate AreElems(e: Elems) {
    IsSpace(e.pre) && IsJson(e.v) && IsSpace(e.post) && (e.MoreElems? ==> AreElems(e.rest))
  }

  predicate AreMembers(m: Members) {
    && IsSpace(m.pre) && AreUnits(m.key) && IsSpace(m.mid) && IsSpace(m.sep) && IsJson(m.v) && IsSpace(m.post)
    && (m.MoreMembers? ==> AreMembers(m.rest))
  }

  function UnitsText(u: seq<Unit>): seq<U8> {
    if u == [] then []
    else (if u[0].Plain? then [u[0].b] else [BACKSLASH, u[0].b]) + UnitsText(u[1..])
  }

  function StringText(u: seq<Unit>): seq<U8> { [QUOTE] + (UnitsText(u) + [QUOTE]) }

  function Text(v: Value): seq<U8> {
    match v
    case Scalar(bytes) => bytes
    case Str(units) => StringText(units)
    case EmptyArray(pad) => [0x5B] + (pad + [0x5D])
    case Array(elems) => [0x5B] + (ElemsText(elems) + [0x5D])
    case EmptyObject(pad) => [OPEN_BRACE] + (pad + [CLOSE_BRACE])
    case Object(members) => [OPEN_BRACE] + (MembersText(members) + [CLOSE_BRACE])
  }

  function ElemsText(e: Elems): seq<U8> {
    e.pre + (Text(e.v) + (e.post + if e.MoreElems? then [0x2C] + ElemsText(e.rest) else []))
  }

  function MembersText(m: Members): seq<U8> {
    m.pre + (StringText(m.key) + (m.mid + ([0x3A] + (m.sep + (Text(m.v)
    + (m.post + if m.MoreMembers? then [0x2C] + MembersText(m.rest) else []))))))
  }

  /** Inside an object of depth d, outside strings. */
  function Inside(d: int): Scan { Scan(d, false, false, true) }

  /** Text that leaves the automaton as it was, and closes nothing. */
  predicate Neutral(s: seq<U8>, d: int) { Run(Inside(d), s) == Open(Inside(d)) }

  lemma NeutralJoins(a: seq<U8>, b: seq<U8>, d: int)
    requires Neutral(a, d) && Neutral(b, d)
    ensures Neutral(a + b, d)
  {
    RunSplits(Inside(d), a, b);
  }

  lemma {:induction false} NoStructure(s: seq<U8>, st: Scan)
    requires !st.inStr && forall i :: 0 <= i < |s| ==> s[i] !in {QUOTE, OPEN_BRACE, CLOSE_BRACE}
    ensures Run(st, s) == Open(st)
    decreases |s|
  {
    if s != [] {
      NoStructure(s[1..], st);
    }
  }

  lemma {:induction false} UnitsRun(u: seq<Unit>, st: Scan)
    requires AreUnits(u) && st.inStr && !st.esc
    ensures Run(st, UnitsText(u)) == Open(st)
    decreases |u|
  {
    if u != [] {
      UnitsRun(u[1..], st);
      if u[0].Plain? {
        assert UnitsText(u)[1..] == UnitsText(u[1..]);
      } else {
        EscapeRuns(u[0].b, st);
        RunSplits(st, [BACKSLASH, u[0].b], UnitsText(u[1..]));
      }
    }
  }

  lemma EscapeRuns(b: U8, st: Scan)
    requires st.inStr && !st.esc
    ensures Run(st, [BACKSLASH, b]) == Open(st)
  {
    assert [BACKSLASH, b][1..] == [b];
    assert [b][1..] == [];
    assert Run(st.(esc := true), [b]) == Open(st);
  }

  lemma StringIsNeutral(u: seq<Unit>, d: int)
    requires AreUnits(u)
    ensures Neutral(StringText(u), d)
  {
    var st := Inside(d).(inStr := true);
    UnitsRun(u, st);
    RunSplits(st, UnitsText(u), [QUOTE]);
    assert [QUOTE][1..] == [];
    assert Run(st, [QUOTE]) == Open(Inside(d));
    assert StringText(u)[1..] == UnitsText(u) + [QUOTE];
    assert Step(Inside(d), QUOTE) == st;
  }

  lemma SpaceIsNeutral(s: seq<U8>, d: int)
    requires IsSpace(s)
    ensures Neutral(s, d)
  {
    NoStructure(s, Inside(d));
  }

  lemma ByteIsNeutral(b: U8, d: int)
    requires b !in {QUOTE, OPEN_BRACE, CLOSE_BRACE}
    ensures Neutral([b], d)
  {
    NoStructure([b], Inside(d));
  }

  lemma BracketsAreNeutral(s: seq<U8>, d: int)
    requires Neutral(s, d)
    ensures Neutral([0x5B] + (s + [0x5D]), d)
  {
    ByteIsNeutral(0x5B, d);
    ByteIsNeutral(0x5D, d);
    NeutralJoins(s, [0x5D], d);
    NeutralJoins([0x5B], s + [0x5D], d);
  }

  lemma BracesAreNeutral(s: seq<U8>, d: int)
    requires d >= 1 && Neutral(s, d + 1)
    ensures Neutral([OPEN_BRACE] + (s + [CLOSE_BRACE]), d)
  {
    RunSplits(Inside(d + 1), s, [CLOSE_BRACE]);
    assert [CLOSE_BRACE][1..] == [];
    assert ([OPEN_BRACE] + (s + [CLOSE_BRACE]))[1..] == s + [CLOSE_BRACE];
  }

  lemma {:induction false} ValueIsNeutral(v: Value, d: int)
    requires IsJson(v) && d >= 1
    ensures Neutral(Text(v), d)
  {
    hide Neutral;
    match v
    case Scalar(bytes) => ScalarIsNeutral(bytes, d);
    case Str(units) => StringIsNeutral(units, d);
    case EmptyArray(pad) =>
      SpaceIsNeutral(pad, d);
      BracketsAreNeutral(pad, d);
    case Array(elems) =>
      ElemsAreNeutral(elems, d);
      BracketsAreNeutral(ElemsText(elems), d);
    case EmptyObject(pad) =>
      SpaceIsNeutral(pad, d + 1);
      BracesAreNeutral(pad, d);
    case Object(members) =>
      MembersAreNeutral(members, d + 1);
      BracesAreNeutral(MembersText(members), d);
  }

  lemma ScalarIsNeutral(s: seq<U8>, d: int)
    requires IsScalar(s)
    ensures Neutral(s, d)
  {
    NoStructure(s, Inside(d));
  }

  lemma NothingIsNeutral(d: int)
    ensures Neutral([], d)
  {
  }

  lemma {:induction false} ElemsAreNeutral(e: Elems, d: int)
    requires AreElems(e) && d >= 1
    ensures Neutral(ElemsText(e), d)
  {
    hide Neutral, IsSpace, Text;
    var tail := if e.MoreElems? then [0x2C] + ElemsText(e.rest) else [];
    if e.MoreElems? {
      ByteIsNeutral(0x2C, d);
      ElemsAreNeutral(e.rest, d);
      NeutralJoins([0x2C], ElemsText(e.rest), d);
    } else {
      NothingIsNeutral(d);
    }
    SpaceIsNeutral(e.pre, d);
    SpaceIsNeutral(e.post, d);
    ValueIsNeutral(e.v, d);
    NeutralJoins(e.post, tail, d);
    NeutralJoins(Text(e.v), e.post + tail, d);
    NeutralJoins(e.pre, Text(e.v) + (e.post + tail), d);
  }

  lemma {:induction false} MembersAreNeutral(m: Members, d: int)
    requires AreMembers(m) && d >= 1
    ensures Neutral(MembersText(m), d)
  {
    hide Neutral, IsSpace, Text, StringText;
    var tail := if m.MoreMembers? then [0x2C] + MembersText(m.rest) else [];
    if m.MoreMembers? {
      ByteIsNeutral(0x2C, d);
      MembersAreNeutral(m.rest, d);
      NeutralJoins([0x2C], MembersText(m.rest), d);
    } else {
      NothingIsNeutral(d);
    }
    SpaceIsNeutral(m.pre, d);
    SpaceIsNeutral(m.mid, d);
    SpaceIsNeutral(m.sep, d);
    SpaceIsNeutral(m.post, d);
    StringIsNeutral(m.key, d);
    ByteIsNeutral(0x3A, d);
    ValueIsNeutral(m.v, d);
    NeutralJoins(m.post, tail, d);
    NeutralJoins(Text(m.v), m.post + tail, d);
    NeutralJoins(m.sep, Text(m.v) + (m.post + tail), d);
    NeutralJoins([0x3A], m.sep + (Text(m.v) + (m.post + tail)), d);
    NeutralJoins(m.mid, [0x3A] + (m.sep + (Text(m.v) + (m.post + tail))), d);
    NeutralJoins(StringText(m.key), m.mid + ([0x3A] + (m.sep + (Text(m.v) + (m.post + tail)))), d);
    NeutralJoins(m.pre, StringText(m.key) + (m.mid + ([0x3A] + (m.sep + (Text(m.v) + (m.post + tail))))), d);
  }

  /** White space, an opening brace, neutral text and a closing brace end the frame there. */
  lemma BracesFrame(pad: seq<U8>, s: seq<U8>)
    requires IsSpace(pad) && Neutral(s, 1)
    ensures Run(START, pad + ([OPEN_BRACE] + s)) == Open(Inside(1))
  {
    NoStructure(pad, START);
    assert ([OPEN_BRACE] + s)[1..] == s;
    RunSplits(START, pad, [OPEN_BRACE] + s);
  }

  /** A JSON object, after any white space and before any other bytes, is what the client parses:
      not a byte more or less, however the stream was cut into chunks. */
  lemma ObjectIsFramed(pad: seq<U8>, v: Value, trailing: seq<U8>, r: Reply)
    requires IsSpace(pad) && IsJson(v) && (v.Object? || v.EmptyObject?)
    requires IsReply(pad + Text(v) + trailing, r)
    ensures r == Framed(pad + Text(v))
  {
    var inner := if v.Object? then MembersText(v.members) else v.pad;
    if v.Object? {
      MembersAreNeutral(v.members, 1);
    } else {
      SpaceIsNeutral(v.pad, 1);
    }
    BracesFrame(pad, inner);
    hide Neutral, IsSpace, MembersText, AreMembers;
    var whole := pad + Text(v);
    assert whole == pad + ([OPEN_BRACE] + inner) + [CLOSE_BRACE];
    assert whole[..|whole| - 1] == pad + ([OPEN_BRACE] + inner);
    ReplyIsUnique(whole + trailing, r, Framed(whole));
  }
}
