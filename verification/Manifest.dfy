/**
 The .ranges manifests beside the compiled overlays (psxrecomp/tools/compile_overlays.py,
 write_overlay_ranges_from, load_region_coverage, load_region_entry_set).
 */
module Manifest {
  import opened Wrappers
  import opened PythonText

  datatype Range = Range(lo: nat, len: nat)

  /** A compiled function: virtual entry, hash of its code bytes, code ranges. */
  datatype FuncId = FuncId(ev: nat, crc: bv32, ranges: seq<Range>)

  function Physical(a: nat): nat { a % 0x2000_0000 }

  /** (a & 0x1FFFFFFF) | 0x80000000 */
  function Kseg0(a: nat): nat { 0x8000_0000 + Physical(a) }

  // ---- Writing -------------------------------------------------------------------------------------

  const TITLE := "psxrecomp overlay " + ("code-range manifest " + "v2 (entry+code_crc)")

  const HEADER := "#" + ([' '] + TITLE)

  function FuncLine(id: FuncId): string {
    "F" + ([' '] + (Hex8(id.ev) + ([' '] + Hex8(id.crc as int))))
  }

  function RangeLine(r: Range): string {
    "R" + ([' '] + (Hex8(Kseg0(r.lo)) + ([' '] + HexDigits(r.len))))
  }

  function RangesText(ranges: seq<Range>): string {
    if ranges == [] then "" else RangeLine(ranges[0]) + ("\n" + RangesText(ranges[1..]))
  }

  function IdsText(ids: seq<FuncId>): string {
    if ids == [] then "" else FuncLine(ids[0]) + ("\n" + (RangesText(ids[0].ranges) + IdsText(ids[1..])))
  }

  function ManifestText(ids: seq<FuncId>): string { HEADER + ("\n" + IdsText(ids)) }

  lemma {:induction false} RangesTextGrows(ranges: seq<Range>, k: nat)
    requires k < |ranges|
    ensures RangesText(ranges[..k + 1]) == RangesText(ranges[..k]) + RangeLine(ranges[k]) + "\n"
    decreases k
  {
    hide RangeLine;
    if k == 0 {
      assert ranges[..1] == [ranges[0]] && ranges[..0] == [];
      assert [ranges[0]][1..] == [];
    } else {
      RangesTextGrows(ranges[1..], k - 1);
      assert ranges[..k + 1][1..] == ranges[1..][..k];
      assert ranges[..k][1..] == ranges[1..][..k - 1];
    }
  }

  lemma {:induction false} IdsTextGrows(ids: seq<FuncId>, k: nat)
    requires k < |ids|
    ensures IdsText(ids[..k + 1]) == IdsText(ids[..k]) + FuncLine(ids[k]) + "\n" + RangesText(ids[k].ranges)
    decreases k
  {
    hide FuncLine, RangesText;
    if k == 0 {
      assert ids[..1] == [ids[0]] && ids[..0] == [];
      assert [ids[0]][1..] == [];
    } else {
      IdsTextGrows(ids[1..], k - 1);
      assert ids[..k + 1][1..] == ids[1..][..k];
      assert ids[..k][1..] == ids[1..][..k - 1];
    }
  }

  method WriteOverlayRangesFrom(ids: seq<FuncId>) returns (text: string, count: nat)
    ensures text == ManifestText(ids) && count == |ids|
  {
    hide FuncLine, RangeLine, RangesText, IdsText;
    text := HEADER + "\n";
    NoText();
    assert ids[..0] == [];
    for i := 0 to |ids|
      invariant text == HEADER + "\n" + IdsText(ids[..i])
    {
      ghost var before := text;
      var ranges := ids[i].ranges;
      text := text + (FuncLine(ids[i]) + "\n");
      assert ranges[..0] == [];
      for k := 0 to |ranges|
        invariant text == before + (FuncLine(ids[i]) + "\n") + RangesText(ranges[..k])
      {
        RangesTextGrows(ranges, k);
        text := text + (RangeLine(ranges[k]) + "\n");
      }
      assert ranges[..|ranges|] == ranges;
      IdsTextGrows(ids, i);
    }
    assert ids[..|ids|] == ids;
    count := |ids|;
  }

  lemma NoText()
    ensures IdsText([]) == "" && RangesText([]) == ""
  {
  }

  // ---- Reading -------------------------------------------------------------------------------------

  /** What a line says about function identities... */
  function IdentityOf(line: string): Option<(nat, nat)> {
    var p := Tokens(line);
    if |p| >= 3 && p[0] == "F" && ParseHex(p[1]).Some? && ParseHex(p[2]).Some?
    then Some((ParseHex(p[1]).value, ParseHex(p[2]).value)) else None
  }

  /** ...and about entry points. */
  function EntryOf(line: string): Option<nat> {
    var p := Tokens(line);
    if |p| >= 2 && p[0] == "F" && ParseHex(p[1]).Some? then Some(Physical(ParseHex(p[1]).value)) else None
  }

  ghost predicate Lists(text: string, x: (nat, nat)) { exists l :: l in Lines(text) && IdentityOf(l) == Some(x) }

  ghost predicate Enters(text: string, a: nat) { exists l :: l in Lines(text) && EntryOf(l) == Some(a) }

  datatype File = File(name: string, text: string)

  predicate StartsWith(s: string, p: string) { |p| <= |s| && s[..|p|] == p }

  predicate EndsWith(s: string, p: string) { |p| <= |s| && s[|s| - |p|..] == p }

  /** A manifest of the region. */
  predicate IsManifestOf(f: File, phys: nat) {
    StartsWith(f.name, Hex8(phys) + "_") && EndsWith(f.name, ".ranges")
  }

  method ReadIdentities(text: string) returns (found: set<(nat, nat)>)
    ensures forall x :: x in found <==> Lists(text, x)
  {
    hide IdentityOf;
    var lines := Lines(text);
    found := {};
    for i := 0 to |lines|
      invariant forall x :: x in found <==> exists l :: l in lines[..i] && IdentityOf(l) == Some(x)
    {
      assert lines[..i + 1] == lines[..i] + [lines[i]];
      var id := IdentityOf(lines[i]);
      if id.Some? {
        found := found + {id.value};
      }
    }
    assert lines[..|lines|] == lines;
  }

  method LoadRegionCoverage(dir: seq<File>, phys: nat) returns (covered: set<(nat, nat)>)
    ensures forall x :: x in covered <==> exists f :: f in dir && IsManifestOf(f, phys) && Lists(f.text, x)
  {
    hide Lists, IsManifestOf;
    covered := {};
    for i := 0 to |dir|
      invariant forall x :: x in covered <==> exists f :: f in dir[..i] && IsManifestOf(f, phys) && Lists(f.text, x)
    {
      assert dir[..i + 1] == dir[..i] + [dir[i]];
      if IsManifestOf(dir[i], phys) {
        var found := ReadIdentities(dir[i].text);
        covered := covered + found;
      }
    }
    assert dir[..|dir|] == dir;
  }

  method ReadEntries(text: string) returns (found: set<nat>)
    ensures forall a :: a in found <==> Enters(text, a)
  {
    hide EntryOf;
    var lines := Lines(text);
    found := {};
    for i := 0 to |lines|
      invariant forall a :: a in found <==> exists l :: l in lines[..i] && EntryOf(l) == Some(a)
    {
      assert lines[..i + 1] == lines[..i] + [lines[i]];
      var a := EntryOf(lines[i]);
      if a.Some? {
        found := found + {a.value};
      }
    }
    assert lines[..|lines|] == lines;
  }

  method LoadRegionEntrySet(dir: seq<File>, phys: nat) returns (entries: set<nat>)
    ensures forall a :: a in entries <==> exists f :: f in dir && IsManifestOf(f, phys) && Enters(f.text, a)
  {
    hide Enters, IsManifestOf;
    entries := {};
    for i := 0 to |dir|
      invariant forall a :: a in entries <==> exists f :: f in dir[..i] && IsManifestOf(f, phys) && Enters(f.text, a)
    {
      assert dir[..i + 1] == dir[..i] + [dir[i]];
      if IsManifestOf(dir[i], phys) {
        var found := ReadEntries(dir[i].text);
        entries := entries + found;
      }
    }
    assert dir[..|dir|] == dir;
  }

  // ---- Round trip ----------------------------------------------------------------------------------

  predicate OneLine(s: string) { forall i :: 0 <= i < |s| ==> s[i] != '\n' }

  lemma WordsStayOnLine(a: string, b: string, c: string)
    requires IsWord(a) && IsWord(b) && IsWord(c)
    ensures OneLine(a + ([' '] + (b + ([' '] + c))))
  {
    assert forall i :: 0 <= i < |a| ==> !IsSpace(a[i]);
    assert forall i :: 0 <= i < |b| ==> !IsSpace(b[i]);
    assert forall i :: 0 <= i < |c| ==> !IsSpace(c[i]);
  }

  lemma FuncLineReads(id: FuncId)
    ensures OneLine(FuncLine(id))
    ensures IdentityOf(FuncLine(id)) == Some((id.ev, id.crc as int))
    ensures EntryOf(FuncLine(id)) == Some(Physical(id.ev))
  {
    hide ParseHex, Hex8, Tokens, OneLine, Physical;
    HexRoundTrip(id.ev);
    HexRoundTrip(id.crc as int);
    assert IsWord("F");
    hide IsWord;
    ThreeTokens("F", Hex8(id.ev), Hex8(id.crc as int));
    WordsStayOnLine("F", Hex8(id.ev), Hex8(id.crc as int));
  }

  lemma RangeLineReads(r: Range)
    ensures OneLine(RangeLine(r)) && IdentityOf(RangeLine(r)).None? && EntryOf(RangeLine(r)).None?
  {
    hide ParseHex, Hex8, HexDigits, Tokens, OneLine, Physical;
    HexRoundTrip(Kseg0(r.lo));
    HexRoundTrip(r.len);
    assert IsWord("R");
    hide IsWord;
    ThreeTokens("R", Hex8(Kseg0(r.lo)), HexDigits(r.len));
    WordsStayOnLine("R", Hex8(Kseg0(r.lo)), HexDigits(r.len));
  }

  lemma CommentReads(title: string)
    requires OneLine(title)
    ensures var l := "#" + ([' '] + title); OneLine(l) && IdentityOf(l).None? && EntryOf(l).None?
  {
    assert IsWord("#");
    hide WordLength;
    FirstToken("#", ' ', title);
    hide Tokens, ParseHex;
  }

  lemma TitleIsOneLine()
    ensures OneLine(TITLE)
  {
    assert '\n' !in "psxrecomp overlay ";
    assert '\n' !in "code-range manifest ";
    assert '\n' !in "v2 (entry+code_crc)";
    assert '\n' !in "code-range manifest " + "v2 (entry+code_crc)";
    forall i | 0 <= i < |TITLE|
      ensures TITLE[i] != '\n'
    {
      assert TITLE[i] in TITLE;
    }
  }

  lemma HeaderReads()
    ensures OneLine(HEADER) && IdentityOf(HEADER).None? && EntryOf(HEADER).None?
  {
    hide OneLine, IdentityOf, EntryOf;
    TitleIsOneLine();
    CommentReads(TITLE);
  }

  /** The lines of the text of some ranges are range lines, followed by what follows. */
  lemma {:induction false} RangesLines(ranges: seq<Range>, rest: string, l: string)
    ensures l in Lines(RangesText(ranges) + rest) <==> l in Lines(rest) || exists r :: r in ranges && l == RangeLine(r)
    decreases |ranges|
  {
    hide RangeLine, Lines;
    if ranges == [] {
      assert RangesText(ranges) + rest == rest;
    } else {
      RangeLineReads(ranges[0]);
      RangesLines(ranges[1..], rest, l);
      FirstLine(RangeLine(ranges[0]), RangesText(ranges[1..]) + rest);
      assert RangesText(ranges) + rest == RangeLine(ranges[0]) + ("\n" + (RangesText(ranges[1..]) + rest));
      assert ranges == [ranges[0]] + ranges[1..];
    }
    hide RangesText;
  }

  ghost predicate IsFuncLine(ids: seq<FuncId>, l: string) { exists id :: id in ids && l == FuncLine(id) }

  ghost predicate IsRangeLine(l: string) { exists r :: l == RangeLine(r) }

  lemma {:induction false} IdsLines(ids: seq<FuncId>, l: string)
    ensures l in Lines(IdsText(ids)) ==> IsFuncLine(ids, l) || IsRangeLine(l)
    ensures IsFuncLine(ids, l) ==> l in Lines(IdsText(ids))
    decreases |ids|
  {
    hide FuncLine, RangeLine, Lines;
    if ids == [] {
      NoLines();
    } else {
      FuncLineReads(ids[0]);
      IdsLines(ids[1..], l);
      RangesLines(ids[0].ranges, IdsText(ids[1..]), l);
      FirstLine(FuncLine(ids[0]), RangesText(ids[0].ranges) + IdsText(ids[1..]));
      assert ids == [ids[0]] + ids[1..];
    }
    hide RangesText;
  }

  lemma NoLines()
    ensures Lines("") == []
  {
  }

  lemma ManifestLines(ids: seq<FuncId>, l: string)
    ensures l in Lines(ManifestText(ids)) ==> l == HEADER || IsFuncLine(ids, l) || IsRangeLine(l)
    ensures IsFuncLine(ids, l) ==> l in Lines(ManifestText(ids))
  {
    hide Lines, IdsText, IsFuncLine, IsRangeLine;
    HeaderReads();
    FirstLine(HEADER, IdsText(ids));
    IdsLines(ids, l);
  }

  /** Reading a written manifest gives back exactly the (entry, hash) pairs it was written from. */
  lemma IdentitiesRoundTrip(ids: seq<FuncId>, x: (nat, nat))
    ensures Lists(ManifestText(ids), x) <==> exists id :: id in ids && x == (id.ev, id.crc as int)
  {
    hide Lines, ManifestText, IdentityOf, FuncLine, RangeLine;
    if Lists(ManifestText(ids), x) {
      var l :| l in Lines(ManifestText(ids)) && IdentityOf(l) == Some(x);
      ManifestLines(ids, l);
      HeaderReads();
      if IsFuncLine(ids, l) {
        var id :| id in ids && l == FuncLine(id);
        FuncLineReads(id);
      } else if IsRangeLine(l) {
        var r :| l == RangeLine(r);
        RangeLineReads(r);
      }
    }
    if id :| id in ids && x == (id.ev, id.crc as int) {
      FuncLineReads(id);
      ManifestLines(ids, FuncLine(id));
    }
  }

  /** The entry reader gives exactly their physical addresses. */
  lemma EntriesRoundTrip(ids: seq<FuncId>, a: nat)
    ensures Enters(ManifestText(ids), a) <==> exists id :: id in ids && a == Physical(id.ev)
  {
    hide Lines, ManifestText, EntryOf, FuncLine, RangeLine, Physical;
    if Enters(ManifestText(ids), a) {
      var l :| l in Lines(ManifestText(ids)) && EntryOf(l) == Some(a);
      ManifestLines(ids, l);
      HeaderReads();
      if IsFuncLine(ids, l) {
        var id :| id in ids && l == FuncLine(id);
        FuncLineReads(id);
      } else if IsRangeLine(l) {
        var r :| l == RangeLine(r);
        RangeLineReads(r);
      }
    }
    if id :| id in ids && a == Physical(id.ev) {
      FuncLineReads(id);
      ManifestLines(ids, FuncLine(id));
    }
  }
}
