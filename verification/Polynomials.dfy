/** 32-bit registers as polynomials over the two-element field. */
module Polynomials {
  /** Addition of polynomials. */
  function Xor(x: bv32, y: bv32): bv32 { x ^ y }

  function Half(x: bv32): bv32 { x >> 1 }

  predicate IsOdd(x: bv32) { x & 1 != 0 }

  function Down8(x: bv32): bv32 { x >> 8 }

  function Up8(x: bv32): bv32 { x << 8 }

  function LowByte(x: bv32): bv8 { (x & 0xFF) as bv8 }

  function WithoutLow(x: bv32): bv32 { x & 0xFFFF_FF00 }

  predicate LowIsZero(x: bv32) { x & 0xFF == 0 }

  lemma XorAssoc(x: bv32, y: bv32, z: bv32)
    ensures Xor(Xor(x, y), z) == Xor(x, Xor(y, z))
  {
  }

  lemma XorComm(x: bv32, y: bv32)
    ensures Xor(x, y) == Xor(y, x)
  {
  }

  lemma XorUnit(x: bv32)
    ensures Xor(0, x) == x && Xor(x, 0) == x
  {
  }

  lemma XorSelf(x: bv32)
    ensures Xor(x, x) == 0
  {
  }

  lemma XorTwice(x: bv32, y: bv32)
    ensures Xor(Xor(x, y), y) == x
  {
    XorAssoc(x, y, y);
    XorSelf(y);
    XorUnit(x);
    hide Xor;
  }

  lemma XorInjective(x: bv32, y: bv32, b: bv32)
    requires Xor(x, b) == Xor(y, b)
    ensures x == y
  {
    XorTwice(x, b);
    XorTwice(y, b);
    hide Xor;
  }

  lemma XorCancels(x: bv32, y: bv32, z: bv32)
    requires Xor(x, y) == Xor(x, z)
    ensures y == z
  {
    XorComm(x, y);
    XorComm(x, z);
    hide Xor;
    XorInjective(y, z, x);
  }

  lemma XorShared(p: bv32, x: bv32, y: bv32)
    ensures Xor(Xor(p, x), Xor(p, y)) == Xor(x, y)
    ensures Xor(x, Xor(p, y)) == Xor(p, Xor(x, y))
  {
    XorComm(p, x);
    XorAssoc(x, p, Xor(p, y));
    XorAssoc(p, p, y);
    XorSelf(p);
    XorUnit(y);
    XorAssoc(x, p, y);
    XorAssoc(p, x, y);
    hide Xor;
  }

  lemma XorHalf(x: bv32, y: bv32)
    ensures Half(Xor(x, y)) == Xor(Half(x), Half(y))
  {
  }

  lemma XorOdd(x: bv32, y: bv32)
    ensures IsOdd(Xor(x, y)) <==> IsOdd(x) != IsOdd(y)
  {
  }

  lemma SplitByte(x: bv32)
    ensures Xor(LowByte(x) as bv32, WithoutLow(x)) == x
  {
  }

  lemma HighPart(x: bv32)
    ensures LowIsZero(WithoutLow(x)) && Down8(WithoutLow(x)) == Down8(x)
  {
  }

  lemma HighBytesKept(x: bv32, b: bv8)
    ensures Down8(Xor(x, b as bv32)) == Down8(x)
  {
  }

  /** The even numbers a register with a clear low byte goes through on its way down. */
  lemma HalvesOfClear(c: bv32)
    requires LowIsZero(c)
    ensures !IsOdd(c) && !IsOdd(c >> 1) && !IsOdd(c >> 2) && !IsOdd(c >> 3)
    ensures !IsOdd(c >> 4) && !IsOdd(c >> 5) && !IsOdd(c >> 6) && !IsOdd(c >> 7)
  {
  }

  lemma HalvesShift(c: bv32)
    ensures Half(c) == c >> 1 && Half(c >> 1) == c >> 2 && Half(c >> 2) == c >> 3 && Half(c >> 3) == c >> 4
    ensures Half(c >> 4) == c >> 5 && Half(c >> 5) == c >> 6 && Half(c >> 6) == c >> 7 && Half(c >> 7) == Down8(c)
  {
  }

  lemma ShiftedUp(x: bv32)
    requires x <= 0xFF_FFFF
    ensures LowIsZero(Up8(x)) && Down8(Up8(x)) == x
  {
  }
}
