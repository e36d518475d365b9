/**
 The text the cache tools read and write: lines, white-space separated tokens and hexadecimal
 numbers, as Python's file iteration, str.split, int(s, 16) and the X format treat them.
 */
module PythonText {
  import opened Wrappers

  predicate IsSpace(c: char) { c in {' ', '\t', '\n', '\r'} }

  // ---- Lines ---------------------------------------------------------------------------------------

  /** Length of the first line, its newline not counted. */
  function LineLength(s: string): (n: nat)
    ensures n <= |s|
    ensures n < |s| ==> s[n] == '\n'
    ensures forall i :: 0 <= i < n ==> s[i] != '\n'
  {
    if s == "" || s[0] == '\n' then 0 else 1 + LineLength(s[1..])
  }

  function Lines(s: string): seq<string>
    decreases |s|
  {
    if s == "" then []
    else
      var n := LineLength(s);
      [s[..n]] + if n < |s| then Lines(s[n + 1..]) else []
  }

  lemma {:induction false} LineLengthIs(l: string, rest: string)
    requires forall i :: 0 <= i < |l| ==> l[i] != '\n'
    ensures LineLength(l + ("\n" + rest)) == |l|
  {
    if l != "" {
      LineLengthIs(l[1..], rest);
      assert (l + ("\n" + rest))[1..] == l[1..] + ("\n" + rest);
    }
  }

  lemma FirstLine(l: string, rest: string)
    requires forall i :: 0 <= i < |l| ==> l[i] != '\n'
    ensures Lines(l + ("\n" + rest)) == [l] + Lines(rest)
  {
    LineLengthIs(l, rest);
    hide LineLength;
    var s := l + ("\n" + rest);
    assert s[..|l|] == l && s[|l| + 1..] == rest;
  }

  // ---- Tokens --------------------------------------------------------------------------------------

  predicate IsWord(w: string) { w != "" && forall i :: 0 <= i < |w| ==> !IsSpace(w[i]) }

  /** Length of the leading run of characters that are not white space. */
  function WordLength(s: string): (n: nat)
    ensures n <= |s|
    ensures n < |s| ==> IsSpace(s[n])
    ensures forall i :: 0 <= i < n ==> !IsSpace(s[i])
  {
    if s == "" || IsSpace(s[0]) then 0 else 1 + WordLength(s[1..])
  }

  function Tokens(s: string): seq<string>
    decreases |s|
  {
    if s == "" then []
    else if IsSpace(s[0]) then Tokens(s[1..])
    else var n := WordLength(s); [s[..n]] + Tokens(s[n..])
  }

  lemma {:induction false} WordLengthIs(w: string, rest: string)
    requires forall i :: 0 <= i < |w| ==> !IsSpace(w[i])
    requires rest == "" || IsSpace(rest[0])
    ensures WordLength(w + rest) == |w|
  {
    if w == "" {
      assert w + rest == rest;
    } else {
      WordLengthIs(w[1..], rest);
      assert (w + rest)[1..] == w[1..] + rest;
    }
  }

  lemma FirstToken(w: string, c: char, rest: string)
    requires IsWord(w) && IsSpace(c)
    ensures Tokens(w + ([c] + rest)) == [w] + Tokens(rest)
  {
    WordLengthIs(w, [c] + rest);
    hide WordLength;
    var s := w + ([c] + rest);
    assert s[0] == w[0];
    assert s[..|w|] == w && s[|w|..] == [c] + rest;
    assert ([c] + rest)[1..] == rest;
  }

  lemma LastToken(w: string)
    requires IsWord(w)
    ensures Tokens(w) == [w]
  {
    WordLengthIs(w, "");
    assert w + "" == w && w[..|w|] == w && w[|w|..] == "";
    hide WordLength;
  }

  lemma ThreeTokens(a: string, b: string, c: string)
    requires IsWord(a) && IsWord(b) && IsWord(c)
    ensures Tokens(a + ([' '] + (b + ([' '] + c)))) == [a, b, c]
  {
    FirstToken(a, ' ', b + ([' '] + c));
    FirstToken(b, ' ', c);
    LastToken(c);
  }

  // ---- Hexadecimal ---------------------------------------------------------------------------------

  function DigitChar(d: nat): char
    requires d < 16
  {
    "0123456789ABCDEF"[d]
  }

  function DigitValue(c: char): Option<nat> {
    if '0' <= c <= '9' then Some((c as int) - ('0' as int))
    else if 'A' <= c <= 'F' then Some((c as int) - ('A' as int) + 10)
    else if 'a' <= c <= 'f' then Some((c as int) - ('a' as int) + 10)
    else None
  }

  /** The digits of n, without leading zeros. */
  function HexDigits(n: nat): (s: string)
    ensures s != ""
  {
    if n < 16 then [DigitChar(n)] else HexDigits(n / 16) + [DigitChar(n % 16)]
  }

  function Zeros(n: nat): string { if n == 0 then "" else ['0'] + Zeros(n - 1) }

  /** f'{n:08X}' */
  function Hex8(n: nat): string {
    var s := HexDigits(n);
    if |s| < 8 then Zeros(8 - |s|) + s else s
  }

  function DigitsValue(s: string): Option<nat> {
    if s == "" then Some(0)
    else
      var high, low := DigitsValue(s[..|s| - 1]), DigitValue(s[|s| - 1]);
      if high.Some? && low.Some? then Some(16 * high.value + low.value) else None
  }

  /** int(s, 16) on plain digits. */
  function ParseHex(s: string): Option<nat> {
    if s == "" then None else DigitsValue(s)
  }

  lemma DigitRoundTrip(d: nat)
    requires d < 16
    ensures DigitValue(DigitChar(d)) == Some(d) && !IsSpace(DigitChar(d))
  {
  }

  lemma {:induction false} DigitsRoundTrip(n: nat)
    ensures DigitsValue(HexDigits(n)) == Some(n) && IsWord(HexDigits(n))
  {
    hide DigitValue, DigitChar, IsSpace;
    DigitRoundTrip(n % 16);
    if n < 16 {
      assert [DigitChar(n)][..0] == "";
    } else {
      DigitsRoundTrip(n / 16);
      assert HexDigits(n)[..|HexDigits(n)| - 1] == HexDigits(n / 16);
    }
  }

  lemma {:induction false} ZerosAreWord(n: nat)
    ensures forall i :: 0 <= i < |Zeros(n)| ==> Zeros(n)[i] == '0'
  {
    if n > 0 {
      ZerosAreWord(n - 1);
    }
  }

  lemma {:induction false} ZerosVanish(z: string, s: string)
    requires forall i :: 0 <= i < |z| ==> z[i] == '0'
    ensures DigitsValue(z + s) == DigitsValue(s)
    decreases |z| + |s|
  {
    if s != "" {
      assert (z + s)[..|z + s| - 1] == z + s[..|s| - 1];
      ZerosVanish(z, s[..|s| - 1]);
    } else {
      assert z + s == z;
      if z != "" {
        ZerosVanish(z[..|z| - 1], "");
        assert z[..|z| - 1] + "" == z[..|z| - 1];
      }
    }
  }

  /** Printed numbers read back. */
  lemma HexRoundTrip(n: nat)
    ensures ParseHex(Hex8(n)) == Some(n) == ParseHex(HexDigits(n))
    ensures IsWord(Hex8(n)) && IsWord(HexDigits(n))
  {
    hide DigitsValue, HexDigits;
    DigitsRoundTrip(n);
    var s := HexDigits(n);
    if |s| < 8 {
      ZerosAreWord(8 - |s|);
      ZerosVanish(Zeros(8 - |s|), s);
    }
  }
}
