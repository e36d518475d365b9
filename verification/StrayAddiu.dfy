/**
 An instance of the jump-table idiom whose table the scan misplaces: the index is rebased in place
 before the bounds check, and the table address has no low half of its own.
 */
module StrayAddiu {
  import opened Wrappers
  import opened MipsWord
  import opened OverlayImage
  import opened JumpTable
  import opened JumpIdiom

  /** 0: addiu $2,$2,-3   4: sltiu $3,$2,5   8: sll $2,$2,2   12: lui $1,0x8001
      16: addu $2,$2,$1   20: lw $2,32($2)   24: jr $2   28: nop
      32: the table, five times the address of 52   52: jr $ra   56: nop */
  function BytesOf(off: int): (U8, U8, U8, U8) {
    if off == 0 then (0xFD, 0xFF, 0x42, 0x24)
    else if off == 4 then (0x05, 0x00, 0x43, 0x2C)
    else if off == 8 then (0x80, 0x10, 0x02, 0x00)
    else if off == 12 then (0x01, 0x80, 0x01, 0x3C)
    else if off == 16 then (0x21, 0x10, 0x41, 0x00)
    else if off == 20 then (0x20, 0x00, 0x42, 0x8C)
    else if off == 24 then (0x08, 0x00, 0x40, 0x00)
    else if 32 <= off < 52 then (0x34, 0x00, 0x01, 0x80)
    else if off == 52 then (0x08, 0x00, 0xE0, 0x03)
    else (0, 0, 0, 0)
  }

  function ByteAt(i: nat): U8 {
    var b := BytesOf(i - i % 4);
    if i % 4 == 0 then b.0 else if i % 4 == 1 then b.1 else if i % 4 == 2 then b.2 else b.3
  }

  const LOAD := 0x8001_0000

  const IMAGE := Image(seq(60, i requires 0 <= i => ByteAt(i)), LOAD, 60)

  const JR := LOAD + 24

  /** Where the scan thinks the table is. */
  const SCANNED := LOAD + 29

  /** Where every entry of the table leads. */
  const CASE := LOAD + 52

  const PARTS := Parts(1, 2, None, 3, 4, 5, 1, 2, 2)

  function ExampleWord(p: int): U32 {
    if p == 1 then 0x8C42_0020 else if p == 2 then 0x0041_1021 else if p == 3 then 0x3C01_8001
    else if p == 4 then 0x0002_1080 else if p == 5 then 0x2C43_0005 else 0x2442_FFFD
  }

  lemma WordIs(img: Image, off: int)
    requires img == IMAGE && 0 <= off < 60 && off % 4 == 0
    ensures var b := BytesOf(off); WordAt(img, LOAD + off) == Some(LittleEndian(b.0, b.1, b.2, b.3))
  {
    hide BytesOf;
  }

  lemma ExampleBytes(p: int)
    requires 1 <= p <= 6
    ensures BytesOf(24 - 4 * p) == BytesBack(p)
  {
  }

  function BytesBack(p: int): (U8, U8, U8, U8) {
    if p == 1 then (0x20, 0x00, 0x42, 0x8C) else if p == 2 then (0x21, 0x10, 0x41, 0x00)
    else if p == 3 then (0x01, 0x80, 0x01, 0x3C) else if p == 4 then (0x80, 0x10, 0x02, 0x00)
    else if p == 5 then (0x05, 0x00, 0x43, 0x2C) else (0xFD, 0xFF, 0x42, 0x24)
  }

  lemma BytesJoin(p: int)
    ensures var b := BytesBack(p); LittleEndian(b.0, b.1, b.2, b.3) == ExampleWord(p)
  {
  }

  lemma WordsOfExample(img: Image, p: int)
    requires img == IMAGE && 1 <= p <= 6
    ensures Back(img, JR, p) == Some(ExampleWord(p)) && Word(img, JR, p) == ExampleWord(p)
  {
    hide BytesOf, BytesBack, ExampleWord, WordAt, ByteAt;
    WordIs(img, 24 - 4 * p);
    ExampleBytes(p);
    BytesJoin(p);
    assert JR - 4 * p == LOAD + (24 - 4 * p);
  }

  lemma WritesOfExample(p: int)
    requires 1 <= p <= 5
    ensures forall r :: MayWrite(ExampleWord(p), r) <==> r == if p == 3 then 1 else if p == 5 then 3 else 2
  {
  }

  lemma FieldsOfExample()
    ensures IsLw(ExampleWord(1)) && Rt(ExampleWord(1)) == 2 && Rs(ExampleWord(1)) == 2 && SImm(ExampleWord(1)) == 32
    ensures IsAddu(ExampleWord(2)) && Rd(ExampleWord(2)) == 2 && Rs(ExampleWord(2)) == 2 && Rt(ExampleWord(2)) == 1
    ensures IsLui(ExampleWord(3)) && Rt(ExampleWord(3)) == 1
    ensures IsShift2(ExampleWord(4)) && Rd(ExampleWord(4)) == 2 && Rt(ExampleWord(4)) == 2
    ensures IsSlt(ExampleWord(5)) && Rs(ExampleWord(5)) == 2 && Imm(ExampleWord(5)) == 5
    ensures IsAddiu(ExampleWord(6)) && Rs(ExampleWord(6)) == 2 && Rt(ExampleWord(6)) == 2 && SImm(ExampleWord(6)) == -3
    ensures forall p :: 1 <= p <= 4 ==> !IsSlt(ExampleWord(p)) && !IsAddiu(ExampleWord(p))
    ensures !IsAddiu(ExampleWord(5))
  {
  }

  lemma ExampleHasWords(img: Image)
    requires img == IMAGE
    ensures HasWords(img, JR, 2, PARTS)
  {
    hide Back, Word, ExampleWord, Rs, Rt, Rd, Imm, SImm, IsLw, IsAddu, IsLui, IsShift2, IsSlt, IsAddiu;
    FieldsOfExample();
    WordsOfExample(img, 1);
    WordsOfExample(img, 2);
    WordsOfExample(img, 3);
    WordsOfExample(img, 4);
    WordsOfExample(img, 5);
  }

  lemma ExampleIsUndisturbed(img: Image)
    requires img == IMAGE
    ensures Undisturbed(img, JR, 2, PARTS)
  {
    hide Back, Word, ExampleWord, MayWrite, Rs, IsSlt, IsAddiu, Rt, Rd, Imm, SImm, IsLw, IsAddu, IsLui, IsShift2;
    FieldsOfExample();
    forall p | 1 <= p <= 5
      ensures Back(img, JR, p).Some?
      ensures p < 5 ==> !IsSlt(Word(img, JR, p))
    {
      WordsOfExample(img, p);
    }
    WordsOfExample(img, 3);
    WordsOfExample(img, 5);
    WritesOfExample(3);
    WritesOfExample(5);
    assert Keeps(img, JR, 3, 2) && Keeps(img, JR, 5, 2);
    hide Keeps;
  }

  lemma IsInstance(img: Image)
    requires img == IMAGE
    ensures IsIdiom(img, LOAD, JR, 2, PARTS)
  {
    hide HasWords, Undisturbed;
    ExampleHasWords(img);
    ExampleIsUndisturbed(img);
  }

  /** The scan reads on past the bound and takes the `addiu` of the index for the low half. */
  lemma TableIsMisplaced(img: Image)
    requires img == IMAGE
    ensures IsIdiom(img, LOAD, JR, 2, PARTS)
    ensures ScanBack(img, LOAD, JR, 2, 1, NOTHING).lui.Some?
    ensures TableBase(ScanBack(img, LOAD, JR, 2, 1, NOTHING)) != TableAddress(img, JR, PARTS)
  {
    hide IsIdiom, Back, Word, ExampleWord, Rs, Rt, Rd, Imm, SImm, IsLw, IsAddu, IsLui, IsShift2, IsSlt, IsAddiu, ScanBack, TableAddress, FirstStray;
    IsInstance(img);
    StrayIsFound(img);
    TableFoundIff(img, LOAD, JR, 2, PARTS);
    FieldsOfExample();
    WordsOfExample(img, 2);
  }

  lemma StrayIsFound(img: Image)
    requires img == IMAGE
    ensures FirstStray(img, LOAD, JR, 5, 2, 4) == Some(-3)
  {
    hide Back, Word, ExampleWord, Rs, Rt, Rd, Imm, SImm, IsLw, IsAddu, IsLui, IsShift2, IsSlt, IsAddiu;
    FieldsOfExample();
    WordsOfExample(img, 4);
    WordsOfExample(img, 5);
    WordsOfExample(img, 6);
    assert FirstStray(img, LOAD, JR, 5, 2, 6) == Some(-3);
    assert FirstStray(img, LOAD, JR, 5, 2, 5) == Some(-3);
  }

  /** The words of the table, where the program reads them... */
  lemma TableWords(img: Image, i: int)
    requires img == IMAGE && 0 <= i < 5
    ensures WordAt(img, LOAD + 32 + 4 * i) == Some(CASE)
  {
    hide WordAt, ByteAt;
    WordIs(img, 32 + 4 * i);
  }

  /** ...and what the scan reads in their place. */
  lemma ScannedWords(img: Image, i: int)
    requires img == IMAGE && 0 <= i < 5
    ensures WordAt(img, SCANNED + i * 4).Some? && WordAt(img, SCANNED + i * 4).value < LOAD
  {
    LastByte(i);
    hide ByteAt;
  }

  lemma LastByte(i: int)
    requires 0 <= i < 5
    ensures ByteAt(32 + i * 4) == 0x34
  {
  }

  /** Whatever the index, the program jumps to an aligned address of the function, and the scan
      recovers nothing. */
  lemma TargetIsMissed(img: Image, mem: int -> U32, trace: seq<Regs>)
    requires img == IMAGE && HoldsImage(img, mem)
    requires RunsInto(img, JR, mem, trace) && |trace| == 6 && trace[5][2] < 5
    ensures trace[0][2] == CASE && InWindow(img, LOAD, img.Hi(), CASE)
    ensures JumpTableTargets(img, LOAD, img.Hi(), JR, 2) == {}
  {
    hide IsIdiom, Back, Word, ExampleWord, Rs, Rt, Rd, Imm, SImm, IsLw, IsAddu, IsLui, IsShift2, IsSlt, IsAddiu, ScanBack, FirstStray, RunsInto, WordAt;
    IsInstance(img);
    JumpsToTableWord(img, LOAD, JR, 2, PARTS, mem, trace);
    FieldsOfExample();
    WordsOfExample(img, 1);
    WordsOfExample(img, 2);
    WordsOfExample(img, 3);
    WordsOfExample(img, 5);
    UpperHalfOfExample();
    TableWords(img, trace[5][2]);
    StrayIsFound(img);
    ScanOfIdiom(img, LOAD, JR, 2, PARTS);
    NothingRecovered(img);
  }

  lemma UpperHalfOfExample()
    ensures Imm(ExampleWord(3)) == 0x8001
  {
  }

  lemma NothingRecovered(img: Image)
    requires img == IMAGE
    ensures TableTargets(img, LOAD, img.Hi(), SCANNED, 5) == {}
  {
    hide WordAt;
    forall i: int | 0 <= i < 5
      ensures TableEntry(img, LOAD, img.Hi(), SCANNED, i) == None
    {
      ScannedWords(img, i);
    }
  }

  // ---- Such a run exists ---------------------------------------------------------------------------

  /** The registers p words in front of the jump, for index 0. */
  function ExampleRegs(p: nat): Regs {
    var start := seq(32, i => 0)[3 := 1];
    if p >= 3 then start
    else if p == 2 then start[1 := LOAD]
    else if p == 1 then start[1 := LOAD][2 := LOAD]
    else start[1 := LOAD][2 := CASE]
  }

  lemma ExampleRuns(img: Image) returns (mem: int -> U32, trace: seq<Regs>)
    requires img == IMAGE
    ensures HoldsImage(img, mem) && RunsInto(img, JR, mem, trace) && |trace| == 6 && trace[5][2] < 5
  {
    mem := a => if WordAt(img, a).Some? then WordAt(img, a).value else 0;
    trace := seq(6, p requires 0 <= p => ExampleRegs(p));
    TableWords(img, 0);
    hide Executes, ExampleWord, WordAt, Back, ExampleRegs;
    forall p | 0 < p < 6
      ensures Back(img, JR, p).Some? && Executes(Back(img, JR, p).value, trace[p], trace[p - 1], mem)
    {
      WordsOfExample(img, p);
      ExampleExecutes(p, mem);
    }
  }

  lemma ExampleExecutes(p: nat, mem: int -> U32)
    requires 0 < p < 6 && mem(LOAD + 32) == CASE
    ensures Executes(ExampleWord(p), ExampleRegs(p), ExampleRegs(p - 1), mem)
  {
    hide ExampleWord, MayWrite, Rs, Rt, Rd, Imm, SImm, IsLw, IsAddu, IsLui, IsShift2, IsSlt, IsAddiu;
    FieldsOfExample();
    UpperHalfOfExample();
    WritesOfExample(p);
    OneKind(p);
  }

  lemma OneKind(p: int)
    requires 1 <= p <= 5
    ensures IsLw(ExampleWord(p)) <==> p == 1
    ensures IsAddu(ExampleWord(p)) <==> p == 2
    ensures IsLui(ExampleWord(p)) <==> p == 3
    ensures IsShift2(ExampleWord(p)) <==> p == 4
    ensures !IsAddiu(ExampleWord(p))
  {
  }
}
