/**
 Captured overlay images and the classification of their words
 (psxrecomp/tools/compile_overlays.py).
 */
module OverlayImage {
  import opened Wrappers
  import opened MipsWord

  /** The captured bytes, where they were loaded, and the size the capture declares. */
  datatype Image = Image(data: seq<U8>, load: int, size: int) {
    function Hi(): int { load + size }
  }

  function LittleEndian(b0: int, b1: int, b2: int, b3: int): (w: U32)
    requires 0 <= b0 < 0x100 && 0 <= b1 < 0x100 && 0 <= b2 < 0x100 && 0 <= b3 < 0x100
  {
    b0 + 0x100 * b1 + 0x1_0000 * b2 + 0x100_0000 * b3
  }

  function WordAt(img: Image, addr: int): Option<U32> {
    var off := addr - img.load;
    if off < 0 || off + 4 > |img.data| then None
    else
      Some(LittleEndian(img.data[off], img.data[off + 1], img.data[off + 2], img.data[off + 3]))
  }

  predicate InRegion(img: Image, a: int) {
    img.load <= a < img.Hi() && a % 4 == 0
  }

  /** How an instruction word transfers control. */
  datatype Cf =
    | Normal
    | Branch(target: int)
    | Jump(target: int)
    | Call(target: int)
    | CallRegister
    | JumpRegister
    | Return

  function ClassifyCf(pc: int, w: U32): Cf {
    if Op(w) == 0 && Funct(w) == 0x08 then (if Rs(w) == 31 then Return else JumpRegister)
    else if Op(w) == 0 && Funct(w) == 0x09 then CallRegister
    else if Op(w) == 0x02 then Jump(MipsWord.JumpTarget(pc, w))
    else if Op(w) == 0x03 then Call(MipsWord.JumpTarget(pc, w))
    else if Op(w) in {0x01, 0x04, 0x05, 0x06, 0x07, 0x14, 0x15, 0x16, 0x17} then Branch(MipsWord.BranchTarget(pc, w))
    else Normal
  }

  predicate IsJrRa(w: Option<U32>) { w == Some(0x03E00008) }

  predicate IsAddiuSpNegative(w: Option<U32>) {
    w.Some? && Op(w.value) == 0x09 && Rs(w.value) == 29 && Rt(w.value) == 29 && Imm(w.value) >= 0x8000
  }

  predicate IsControlFlow(w: Option<U32>) {
    && w.Some?
    && (|| Op(w.value) in {0x01, 0x02, 0x03, 0x04, 0x05, 0x06, 0x07, 0x14, 0x15, 0x16, 0x17}
        || (Op(w.value) == 0 && Funct(w.value) in {0x08, 0x09}))
  }

  predicate IsValidMipsWord(w: Option<U32>) {
    if w.None? || w.value in {0xFFFFFFFF, 0xFFFFFFFD} then false
    else if Op(w.value) == 0 then
      Funct(w.value) in {0x00, 0x02, 0x03, 0x04, 0x06, 0x07, 0x08, 0x09, 0x0C, 0x0D,
                         0x10, 0x11, 0x12, 0x13, 0x18, 0x19, 0x1A, 0x1B,
                         0x20, 0x21, 0x22, 0x23, 0x24, 0x25, 0x26, 0x27, 0x2A, 0x2B}
    else if Op(w.value) == 1 then Rt(w.value) in {0x00, 0x01, 0x10, 0x11}
    else
      Op(w.value) in {0x02, 0x03, 0x04, 0x05, 0x06, 0x07,
                      0x08, 0x09, 0x0A, 0x0B, 0x0C, 0x0D, 0x0E, 0x0F, 0x10, 0x12,
                      0x20, 0x21, 0x22, 0x23, 0x24, 0x25, 0x26,
                      0x28, 0x29, 0x2A, 0x2B, 0x2E, 0x30, 0x32, 0x38, 0x3A}
  }

  /** Boundary evidence: the image starts here, a `jr $ra` and its slot end just before, or a
      stack frame is opened outside a delay slot. */
  predicate CallableSeed(img: Image, addr: int) {
    && IsValidMipsWord(WordAt(img, addr))
    && (|| addr == img.load
        || IsJrRa(WordAt(img, addr - 8))
        || (IsAddiuSpNegative(WordAt(img, addr)) && !IsControlFlow(WordAt(img, addr - 4))))
  }
}
