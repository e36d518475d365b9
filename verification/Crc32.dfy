/**
 The content hash of compiled code: the table-driven CRC-32 of the runtime
 (psxrecomp/runtime/src/crc32.c), and the chained one of the offline tool
 (psxrecomp/tools/compile_overlays.py), against the bitwise definition of section 8 of RFC 1952.
 */
module Crc32 {
  import opened Polynomials

  const POLYNOMIAL: bv32 := 0xEDB8_8320
  const ONES: bv32 := 0xFFFF_FFFF

  // ---- One bit and one byte ------------------------------------------------------------------------

  function BitStep(c: bv32): bv32 {
    if IsOdd(c) then Xor(POLYNOMIAL, Half(c)) else Half(c)
  }

  function BitSteps(c: bv32, n: nat): bv32
    decreases n
  {
    if n == 0 then c else BitSteps(BitStep(c), n - 1)
  }

  /** The definition: the byte is added to the low end of the register, then eight bits go out. */
  function BitwiseByte(crc: bv32, b: bv8): bv32 { BitSteps(Xor(crc, b as bv32), 8) }

  function Bitwise(crc: bv32, data: seq<bv8>): bv32
    decreases |data|
  {
    if data == [] then crc else Bitwise(BitwiseByte(crc, data[0]), data[1..])
  }

  /** CRC-32 of a byte string. */
  function Crc(data: seq<bv8>): bv32 { Xor(Bitwise(ONES, data), ONES) }

  lemma StepIsLinear(x: bv32, y: bv32)
    ensures BitStep(Xor(x, y)) == Xor(BitStep(x), BitStep(y))
  {
    hide Xor, Half, IsOdd;
    XorHalf(x, y);
    XorOdd(x, y);
    XorShared(POLYNOMIAL, Half(x), Half(y));
    XorAssoc(POLYNOMIAL, Half(x), Half(y));
  }

  lemma {:induction false} StepsAreLinear(x: bv32, y: bv32, n: nat)
    ensures BitSteps(Xor(x, y), n) == Xor(BitSteps(x, n), BitSteps(y, n))
    decreases n
  {
    hide BitStep, Xor;
    if n > 0 {
      StepIsLinear(x, y);
      StepsAreLinear(BitStep(x), BitStep(y), n - 1);
    }
  }

  lemma StepIsInjective(x: bv32, y: bv32)
    requires BitStep(x) == BitStep(y)
    ensures x == y
  {
  }

  lemma {:induction false} StepsAreInjective(x: bv32, y: bv32, n: nat)
    requires BitSteps(x, n) == BitSteps(y, n)
    ensures x == y
    decreases n
  {
    if n > 0 {
      hide BitStep;
      StepsAreInjective(BitStep(x), BitStep(y), n - 1);
      StepIsInjective(x, y);
    }
  }

  lemma {:induction false} StepsAdd(c: bv32, m: nat, n: nat)
    ensures BitSteps(c, m + n) == BitSteps(BitSteps(c, m), n)
    decreases m
  {
    hide BitStep;
    if m > 0 {
      StepsAdd(BitStep(c), m - 1, n);
    }
  }

  lemma EightSteps(c: bv32)
    ensures BitSteps(c, 8) == BitStep(BitStep(BitStep(BitStep(BitStep(BitStep(BitStep(BitStep(c))))))))
  {
    hide BitStep;
    var c2 := BitStep(BitStep(c));
    var c4 := BitStep(BitStep(c2));
    var c6 := BitStep(BitStep(c4));
    assert BitSteps(c, 8) == BitSteps(c2, 6);
    assert BitSteps(c2, 6) == BitSteps(c4, 4);
    assert BitSteps(c4, 4) == BitSteps(c6, 2);
    assert BitSteps(c6, 2) == BitSteps(BitStep(c6), 1);
    assert BitSteps(BitStep(c6), 1) == BitStep(BitStep(c6));
  }

  /** Eight steps over a register with a clear low byte only shift. */
  lemma StepsShift(c: bv32)
    requires LowIsZero(c)
    ensures BitSteps(c, 8) == Down8(c)
  {
    hide Half, IsOdd, BitSteps, LowIsZero, Xor, Down8;
    HalvesOfClear(c);
    HalvesShift(c);
    EightSteps(c);
  }

  // ---- The runtime's table -------------------------------------------------------------------------

  function TableWord(i: bv8): bv32 { BitSteps(i as bv32, 8) }

  function WordFor(i: int): bv32
    requires 0 <= i < 256
  {
    TableWord(i as bv8)
  }

  function TableByte(crc: bv32, b: bv8): bv32 {
    Xor(TableWord(LowByte(Xor(crc, b as bv32))), Down8(crc))
  }

  /** One table lookup does what eight bit steps do. */
  lemma TableIsBitwise(crc: bv32, b: bv8)
    ensures TableByte(crc, b) == BitwiseByte(crc, b)
  {
    hide BitSteps, Xor, LowByte, WithoutLow, LowIsZero, Down8;
    var x := Xor(crc, b as bv32);
    SplitByte(x);
    HighPart(x);
    HighBytesKept(crc, b);
    StepsAreLinear(LowByte(x) as bv32, WithoutLow(x), 8);
    StepsShift(WithoutLow(x));
  }

  lemma {:induction false} BitwiseSplits(crc: bv32, a: seq<bv8>, b: seq<bv8>)
    ensures Bitwise(crc, a + b) == Bitwise(Bitwise(crc, a), b)
    decreases |a|
  {
    hide BitwiseByte;
    if a == [] {
      assert a + b == b;
    } else {
      assert (a + b)[1..] == a[1..] + b;
      BitwiseSplits(BitwiseByte(crc, a[0]), a[1..], b);
    }
  }

  lemma BitwiseLast(crc: bv32, a: seq<bv8>, b: bv8)
    ensures Bitwise(crc, a + [b]) == BitwiseByte(Bitwise(crc, a), b)
  {
    hide BitwiseByte;
    BitwiseSplits(crc, a, [b]);
    assert [b][1..] == [];
  }

  lemma BitStepsLast(c: bv32, n: nat)
    ensures BitSteps(c, n + 1) == BitStep(BitSteps(c, n))
  {
    hide BitStep;
    StepsAdd(c, n, 1);
    assert BitSteps(BitSteps(c, n), 1) == BitStep(BitSteps(c, n));
  }

  /** The file-scope table and its flag. */
  class Tables {
    const words: array<bv32>
    var ready: bool

    ghost predicate Valid()
      reads this, words
    {
      words.Length == 256 && (ready ==> forall i :: 0 <= i < 256 ==> words[i] == WordFor(i))
    }

    constructor ()
      ensures Valid() && fresh(words) && !ready
    {
      words := new bv32[256];
      ready := false;
    }

    method InitTable()
      requires words.Length == 256
      modifies this, words
      ensures Valid() && ready
    {
      hide WordFor;
      for i := 0 to 256
        invariant forall k :: 0 <= k < i ==> words[k] == WordFor(k)
      {
        words[i] := EntryFor(i);
      }
      ready := true;
    }

    static method EntryFor(i: nat) returns (c: bv32)
      requires i < 256
      ensures c == WordFor(i)
    {
      hide Xor, Half, IsOdd, BitSteps;
      c := (i as bv8) as bv32;
      ghost var first := c;
      NoSteps(c);
      for j := 0 to 8
        invariant c == BitSteps(first, j)
      {
        BitStepsLast(first, j);
        c := if IsOdd(c) then Xor(POLYNOMIAL, Half(c)) else Half(c);
      }
    }

    /** crc32_update: what the bitwise definition gives, whether or not the table was there. */
    method Update(crc: bv32, data: seq<bv8>) returns (r: bv32)
      requires Valid()
      modifies this, words
      ensures Valid() && ready
      ensures r == Bitwise(crc, data)
    {
      if !ready {
        InitTable();
      }
      r := crc;
      for i := 0 to |data|
        invariant Valid() && ready
        invariant r == Bitwise(crc, data[..i])
      {
        TableIsBitwise(r, data[i]);
        BitwiseLast(crc, data[..i], data[i]);
        assert data[..i + 1] == data[..i] + [data[i]];
        r := Lookup(r, data[i]);
        hide BitwiseByte, TableByte, Bitwise;
      }
      assert data[..|data|] == data;
    }

    method Lookup(crc: bv32, b: bv8) returns (r: bv32)
      requires Valid() && ready
      ensures r == TableByte(crc, b)
    {
      hide BitSteps, TableWord, Xor, LowByte, Down8;
      var i := LowByte(Xor(crc, b as bv32));
      ByteIndex(i);
      r := Xor(words[i as int], Down8(crc));
    }

    /** crc32_compute */
    method Compute(data: seq<bv8>) returns (r: bv32)
      requires Valid()
      modifies this, words
      ensures Valid() && r == Crc(data)
    {
      r := Update(ONES, data);
      r := Xor(r, ONES);
    }
  }

  lemma ByteIndex(i: bv8)
    ensures 0 <= i as int < 256 && WordFor(i as int) == TableWord(i)
  {
  }

  // ---- Several ranges ------------------------------------------------------------------------------

  function Flatten(chunks: seq<seq<bv8>>): seq<bv8> {
    if chunks == [] then [] else chunks[0] + Flatten(chunks[1..])
  }

  /** binascii.crc32(data, crc): undoes the final inversion, goes on, inverts again. */
  function Continued(data: seq<bv8>, crc: bv32): bv32 { Xor(Bitwise(Xor(crc, ONES), data), ONES) }

  function ChainedFrom(chunks: seq<seq<bv8>>, crc: bv32): bv32
    decreases |chunks|
  {
    if chunks == [] then crc else ChainedFrom(chunks[1..], Continued(chunks[0], crc))
  }

  /** The offline hash of a function's ranges. */
  function Chained(chunks: seq<seq<bv8>>): bv32 { ChainedFrom(chunks, 0) }

  function FoldedFrom(chunks: seq<seq<bv8>>, crc: bv32): bv32
    decreases |chunks|
  {
    if chunks == [] then crc else FoldedFrom(chunks[1..], Bitwise(crc, chunks[0]))
  }

  /** The runtime's hash of a function's ranges. */
  function Folded(chunks: seq<seq<bv8>>): bv32 { Xor(FoldedFrom(chunks, ONES), ONES) }

  lemma {:induction false} FoldIsFlat(chunks: seq<seq<bv8>>, crc: bv32)
    ensures FoldedFrom(chunks, crc) == Bitwise(crc, Flatten(chunks))
    decreases |chunks|
  {
    hide BitwiseByte;
    if chunks != [] {
      FoldIsFlat(chunks[1..], Bitwise(crc, chunks[0]));
      BitwiseSplits(crc, chunks[0], Flatten(chunks[1..]));
    }
  }

  lemma {:induction false} ChainIsFold(chunks: seq<seq<bv8>>, crc: bv32)
    ensures ChainedFrom(chunks, crc) == Xor(FoldedFrom(chunks, Xor(crc, ONES)), ONES)
    decreases |chunks|
  {
    hide Bitwise, Xor;
    if chunks == [] {
      XorTwice(crc, ONES);
    } else {
      var next := Continued(chunks[0], crc);
      XorTwice(Bitwise(Xor(crc, ONES), chunks[0]), ONES);
      ChainIsFold(chunks[1..], next);
    }
  }

  /** For any number and size of ranges, the chained hash of the tool, the folded one of the runtime
      and the hash of all the bytes together are the same. */
  lemma HashesAgree(chunks: seq<seq<bv8>>)
    ensures Chained(chunks) == Folded(chunks) == Crc(Flatten(chunks))
  {
    hide Bitwise, FoldedFrom, ChainedFrom;
    assert Xor(0, ONES) == ONES;
    ChainIsFold(chunks, 0);
    FoldIsFlat(chunks, ONES);
  }

  // ---- Changes the hash cannot miss ----------------------------------------------------------------

  lemma {:induction false} BitwiseIsInjective(x: bv32, y: bv32, data: seq<bv8>)
    requires Bitwise(x, data) == Bitwise(y, data)
    ensures x == y
    decreases |data|
  {
    hide BitSteps, Xor;
    if data != [] {
      BitwiseIsInjective(BitwiseByte(x, data[0]), BitwiseByte(y, data[0]), data[1..]);
      StepsAreInjective(Xor(x, data[0] as bv32), Xor(y, data[0] as bv32), 8);
      XorInjective(x, y, data[0] as bv32);
    }
  }

  /** Up to four bytes as a little-endian word. */
  function Pack(s: seq<bv8>): bv32
    requires |s| <= 4
  {
    if s == [] then 0 else Xor(s[0] as bv32, Up8(Pack(s[1..])))
  }

  predicate FitsBytes(x: bv32, n: nat) {
    if n == 0 then x == 0 else if n == 1 then x <= 0xFF else if n == 2 then x <= 0xFFFF
    else if n == 3 then x <= 0xFF_FFFF else true
  }

  lemma ShiftFits(x: bv32, b: bv8, n: nat)
    requires n <= 3 && FitsBytes(x, n)
    ensures FitsBytes(Xor(b as bv32, Up8(x)), n + 1)
  {
  }

  lemma {:induction false} PackFits(s: seq<bv8>)
    requires |s| <= 4
    ensures FitsBytes(Pack(s), |s|)
    decreases |s|
  {
    if s != [] {
      PackFits(s[1..]);
      ShiftFits(Pack(s[1..]), s[0], |s| - 1);
    }
  }

  lemma PackedByte(x: bv32, b: bv8)
    requires x <= 0xFF_FFFF
    ensures LowByte(Xor(b as bv32, Up8(x))) == b
    ensures Down8(Xor(b as bv32, Up8(x))) == x
  {
  }

  lemma SmallFits(x: bv32, n: nat)
    requires n <= 3 && FitsBytes(x, n)
    ensures x <= 0xFF_FFFF
  {
  }

  lemma PackStep(s: seq<bv8>)
    requires 0 < |s| <= 4
    ensures Pack(s) == Xor(s[0] as bv32, Up8(Pack(s[1..]))) && FitsBytes(Pack(s[1..]), |s| - 1)
  {
    hide FitsBytes, Xor, Up8;
    PackFits(s[1..]);
  }

  lemma UnpackFirst(s: seq<bv8>)
    requires 0 < |s| <= 4
    ensures LowByte(Pack(s)) == s[0] && Down8(Pack(s)) == Pack(s[1..])
  {
    hide FitsBytes, Xor, Up8, LowByte, Down8, Pack;
    PackStep(s);
    SmallFits(Pack(s[1..]), |s| - 1);
    PackedByte(Pack(s[1..]), s[0]);
  }

  lemma {:induction false} PackIsInjective(a: seq<bv8>, b: seq<bv8>)
    requires |a| == |b| <= 4 && Pack(a) == Pack(b)
    ensures a == b
    decreases |a|
  {
    hide Pack, LowByte, Down8;
    if a != [] {
      UnpackFirst(a);
      UnpackFirst(b);
      PackIsInjective(a[1..], b[1..]);
      assert a == [a[0]] + a[1..] && b == [b[0]] + b[1..];
    }
  }

  /** Up to four bytes enter the register as one word. */
  lemma {:induction false} WordEnters(crc: bv32, s: seq<bv8>)
    requires |s| <= 4
    ensures Bitwise(crc, s) == BitSteps(Xor(crc, Pack(s)), 8 * |s|)
    decreases |s|
  {
    hide BitSteps, Xor, Pack, Up8;
    if s == [] {
      NothingEnters(crc);
    } else {
      var first, rest := s[0] as bv32, Pack(s[1..]);
      PackedFirst(s);
      WordEnters(BitwiseByte(crc, s[0]), s[1..]);
      XorAssoc(crc, first, Up8(rest));
      StepsAreLinear(Xor(crc, first), Up8(rest), 8);
      StepsAdd(Xor(Xor(crc, first), Up8(rest)), 8, 8 * (|s| - 1));
    }
  }

  lemma NothingEnters(c: bv32)
    ensures BitSteps(Xor(c, Pack([])), 0) == c
  {
    XorUnit(c);
  }

  lemma NoSteps(c: bv32)
    ensures BitSteps(c, 0) == c
  {
  }

  lemma PackedFirst(s: seq<bv8>)
    requires 0 < |s| <= 4
    ensures Pack(s) == Xor(s[0] as bv32, Up8(Pack(s[1..])))
    ensures BitSteps(Up8(Pack(s[1..])), 8) == Pack(s[1..])
  {
    var rest := Pack(s[1..]);
    PackFits(s[1..]);
    SmallFits(rest, |s| - 1);
    ShiftedUp(rest);
    hide FitsBytes, BitSteps, Xor, Up8, LowIsZero, Down8;
    StepsShift(Up8(rest));
  }

  /** Two byte strings that differ, but only within four consecutive bytes, have different hashes. */
  lemma BurstIsDetected(before: seq<bv8>, a: seq<bv8>, b: seq<bv8>, after: seq<bv8>)
    requires |a| == |b| <= 4 && a != b
    ensures Crc(before + a + after) != Crc(before + b + after)
  {
    hide BitSteps, BitwiseByte, Bitwise, Pack, Xor;
    var mid := Bitwise(ONES, before);
    BitwiseSplits(ONES, before + a, after);
    BitwiseSplits(ONES, before, a);
    BitwiseSplits(ONES, before + b, after);
    BitwiseSplits(ONES, before, b);
    if Crc(before + a + after) == Crc(before + b + after) {
      XorInjective(Bitwise(ONES, before + a + after), Bitwise(ONES, before + b + after), ONES);
      BitwiseIsInjective(Bitwise(mid, a), Bitwise(mid, b), after);
      WordEnters(mid, a);
      WordEnters(mid, b);
      StepsAreInjective(Xor(mid, Pack(a)), Xor(mid, Pack(b)), 8 * |a|);
      XorCancels(mid, Pack(a), Pack(b));
      PackIsInjective(a, b);
    }
  }
}
