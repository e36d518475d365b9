/**
 The mask-and-shift formulas emitted for the unaligned word instructions against the byte lanes the
 R3000A moves: the loads are right everywhere, the stores only when they store the whole word.
 */
module ByteLanes {
  import opened R3000
  import opened StrictTranslator

  // ---- The loads, one bit-vector identity per byte offset ----------------------------------------

  lemma LwlBits0(w: Bytes, p: bv32)
    ensures LwlMerge(Join(w), 0, p) == Join(LeftLoaded(w, 0, Split(p)))
  {
  }

  lemma LwlBits1(w: Bytes, p: bv32)
    ensures LwlMerge(Join(w), 1, p) == Join(LeftLoaded(w, 1, Split(p)))
  {
  }

  lemma LwlBits2(w: Bytes, p: bv32)
    ensures LwlMerge(Join(w), 2, p) == Join(LeftLoaded(w, 2, Split(p)))
  {
  }

  lemma LwlBits3(w: Bytes, p: bv32)
    ensures LwlMerge(Join(w), 3, p) == Join(LeftLoaded(w, 3, Split(p)))
  {
  }

  lemma LwlMerges(w: Bytes, k: bv32, p: bv32)
    requires k <= 3
    ensures LwlMerge(Join(w), k, p) == Join(LeftLoaded(w, k, Split(p)))
  {
    hide LwlMerge, LeftLoaded, Join, Split;
    FourOffsets(k);
    if k == 0 {
      LwlBits0(w, p);
    } else if k == 1 {
      LwlBits1(w, p);
    } else if k == 2 {
      LwlBits2(w, p);
    } else {
      LwlBits3(w, p);
    }
  }

  lemma LwrBits0(w: Bytes, p: bv32)
    ensures LwrMerge(Join(w), 0, p) == Join(RightLoaded(w, 0, Split(p)))
  {
  }

  lemma LwrBits1(w: Bytes, p: bv32)
    ensures LwrMerge(Join(w), 1, p) == Join(RightLoaded(w, 1, Split(p)))
  {
  }

  lemma LwrBits2(w: Bytes, p: bv32)
    ensures LwrMerge(Join(w), 2, p) == Join(RightLoaded(w, 2, Split(p)))
  {
  }

  lemma LwrBits3(w: Bytes, p: bv32)
    ensures LwrMerge(Join(w), 3, p) == Join(RightLoaded(w, 3, Split(p)))
  {
  }

  lemma LwrMerges(w: Bytes, k: bv32, p: bv32)
    requires k <= 3
    ensures LwrMerge(Join(w), k, p) == Join(RightLoaded(w, k, Split(p)))
  {
    hide LwrMerge, RightLoaded, Join, Split;
    FourOffsets(k);
    if k == 0 {
      LwrBits0(w, p);
    } else if k == 1 {
      LwrBits1(w, p);
    } else if k == 2 {
      LwrBits2(w, p);
    } else {
      LwrBits3(w, p);
    }
  }

  lemma FourOffsets(k: bv32)
    requires k <= 3
    ensures k == 0 || k == 1 || k == 2 || k == 3
  {
  }

  /** LWL as emitted loads what the R3000A loads, at every address. */
  lemma LwlMatches(m: Mem, a: bv32, p: bv32)
    ensures LwlValue(m, a, p) == LoadLeftValue(m, a, p)
  {
    hide LwlMerge, LeftLoaded, Join, Split, BytesAt;
    LwlMerges(BytesAt(m, a & !3), ByteOffset(a), p);
  }

  /** LWR as emitted loads what the R3000A loads, at every address. */
  lemma LwrMatches(m: Mem, a: bv32, p: bv32)
    ensures LwrValue(m, a, p) == LoadRightValue(m, a, p)
  {
    hide LwrMerge, RightLoaded, Join, Split, BytesAt;
    LwrMerges(BytesAt(m, a & !3), ByteOffset(a), p);
  }

  // ---- The stores: the emitted masks keep the wrong bytes ----------------------------------------

  lemma SwlWhole(mem: bv32, x: bv32)
    ensures SwlMerge(mem, 3, x) == x
  {
  }

  lemma SwrWhole(mem: bv32, x: bv32)
    ensures SwrMerge(mem, 0, x) == x
  {
  }

  /** Below the last byte of a word the emitted SWL clears the top byte, which must stay. */
  lemma SwlClearsTop(mem: bv32, k: bv32)
    requires k <= 2
    ensures ByteOf(SwlMerge(mem, k, 0), 3) == 0
  {
  }

  /** Above the first byte of a word the emitted SWR clears the bottom byte, which must stay. */
  lemma SwrClearsBottom(mem: bv32, k: bv32)
    requires 1 <= k <= 3
    ensures ByteOf(SwrMerge(mem, k, 0), 0) == 0
  {
  }

  lemma WrittenBytes(m: Mem, a: bv32, b: Bytes)
    ensures At(WriteBytes(m, a, b), a + 3) == b.b3
    ensures At(WriteBytes(m, a, b), a) == b.b0
    ensures BytesAt(WriteBytes(m, a, b), a) == b
  {
    Distinct(a);
  }

  lemma Distinct(a: bv32)
    ensures a != a + 1 && a != a + 2 && a != a + 3 && a + 1 != a + 2 && a + 1 != a + 3 && a + 2 != a + 3
  {
  }

  /** Memory full of ones. */
  ghost function Ones(): Mem { imap a :: AllOnes(a) }

  function AllOnes(a: Addr): bv8 { 0xFF }

  /** SWL as emitted does what the R3000A does, for every memory and register, exactly when it
      stores the whole word: when the address is the last byte of a word. */
  lemma SwlMatchesIff(a: bv32)
    ensures (forall m: Mem, x: bv32 :: SwlMem(m, a, x) == StoreLeftMem(m, a, x)) <==> a & 3 == 3
  {
    if a & 3 == 3 {
      forall m: Mem, x: bv32
        ensures SwlMem(m, a, x) == StoreLeftMem(m, a, x)
      {
        SwlMatches(m, a, x);
      }
    } else {
      SwlDiffers(a);
    }
  }

  lemma SwlMatches(m: Mem, a: bv32, x: bv32)
    requires a & 3 == 3
    ensures SwlMem(m, a, x) == StoreLeftMem(m, a, x)
  {
    hide SwlMerge, Split, WriteBytes, ReadWord;
    SwlWhole(ReadWord(m, a & !3), x);
  }

  lemma SwlDiffers(a: bv32)
    requires a & 3 != 3
    ensures SwlMem(Ones(), a, 0) != StoreLeftMem(Ones(), a, 0)
  {
    hide SwlMerge, WriteBytes, ReadWord, ByteOf;
    var m, al, k := Ones(), a & !3, ByteOffset(a);
    BelowThree(k);
    SwlClearsTop(ReadWord(m, al), k);
    WrittenBytes(m, al, Split(SwlMerge(ReadWord(m, al), k, 0)));
    WrittenBytes(m, al, LeftStored(BytesAt(m, al), k, Split(0)));
  }

  lemma BelowThree(k: bv32)
    requires k <= 3 && k != 3
    ensures k <= 2
  {
  }

  lemma AboveZero(k: bv32)
    requires k <= 3 && k != 0
    ensures 1 <= k <= 3
  {
  }

  /** SWR likewise, exactly when the address is the first byte of a word. */
  lemma SwrMatchesIff(a: bv32)
    ensures (forall m: Mem, x: bv32 :: SwrMem(m, a, x) == StoreRightMem(m, a, x)) <==> a & 3 == 0
  {
    if a & 3 == 0 {
      forall m: Mem, x: bv32
        ensures SwrMem(m, a, x) == StoreRightMem(m, a, x)
      {
        SwrMatches(m, a, x);
      }
    } else {
      SwrDiffers(a);
    }
  }

  lemma SwrMatches(m: Mem, a: bv32, x: bv32)
    requires a & 3 == 0
    ensures SwrMem(m, a, x) == StoreRightMem(m, a, x)
  {
    hide SwrMerge, Split, WriteBytes, ReadWord;
    SwrWhole(ReadWord(m, a & !3), x);
  }

  lemma SwrDiffers(a: bv32)
    requires a & 3 != 0
    ensures SwrMem(Ones(), a, 0) != StoreRightMem(Ones(), a, 0)
  {
    hide SwrMerge, WriteBytes, ReadWord, ByteOf;
    var m, al, k := Ones(), a & !3, ByteOffset(a);
    AboveZero(k);
    SwrClearsBottom(ReadWord(m, al), k);
    WrittenBytes(m, al, Split(SwrMerge(ReadWord(m, al), k, 0)));
    WrittenBytes(m, al, RightStored(BytesAt(m, al), k, Split(0)));
  }
}
