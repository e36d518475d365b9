/**
 The instruction decoder of the recompiler (psxrecomp/recompiler/src/mips_decoder.cpp), as far as
 control flow needs it, and the PS1 executables it reads.
 */
module MipsDecoder {
  import opened Wrappers
  import opened MipsWord
  import opened OverlayImage
  import R = R3000

  /** An executable whose header the parser accepted (ps1_exe_parser.cpp). */
  datatype Exe = Exe(image: Image, entryPoint: int)

  predicate IsValidExe(exe: Exe) {
    && exe.image.size == |exe.image.data| && exe.image.size > 0
    && 0x8000_0000 <= exe.image.load < exe.image.Hi() <= 0x8020_0000
    && 0x8000_0000 <= exe.entryPoint < 0xA000_0000
  }

  datatype Decoded = Decoded(
    address: int, raw: U32,
    isBranch: bool, isJump: bool, isJrRa: bool,
    branchTarget: int, jumpTarget: int)
  {
    /** is_delay_slot_user */
    predicate UsesSlot() { isBranch || isJump }

    predicate IsJal() { Op(raw) == 0x03 }
  }

  predicate BranchFormat(w: U32) {
    0x04 <= Op(w) <= 0x07 || (Op(w) == 0x01 && Rt(w) in {0x00, 0x01, 0x10, 0x11})
  }

  predicate JumpFormat(w: U32) {
    Op(w) == 0x02 || Op(w) == 0x03 || (Op(w) == 0x00 && Funct(w) in {0x08, 0x09})
  }

  function DecodeAt(w: U32, address: int): Decoded {
    Decoded(address, w, BranchFormat(w), JumpFormat(w),
            Op(w) == 0 && Funct(w) == 0x08 && Rs(w) == 31,
            if Op(w) == 0x01 || 0x04 <= Op(w) <= 0x07 then R.Wrap(MipsWord.BranchTarget(address, w)) else 0,
            if Op(w) == 0x02 || Op(w) == 0x03 then MipsWord.JumpTarget(address, w) else 0)
  }

  // ---- The whole executable ------------------------------------------------------------------------

  function WordCount(exe: Exe): nat { |exe.image.data| / 4 }

  function AddressOf(exe: Exe, i: int): int { exe.image.load + 4 * i }

  function DecodedWord(exe: Exe, i: nat): Decoded
    requires i < WordCount(exe)
  {
    DecodeAt(WordAt(exe.image, AddressOf(exe, i)).value, AddressOf(exe, i))
  }

  function DecodeAll(exe: Exe): (d: seq<Decoded>)
    ensures |d| == WordCount(exe)
    ensures forall i :: 0 <= i < |d| ==> d[i] == DecodedWord(exe, i)
  {
    seq(WordCount(exe), i requires 0 <= i < WordCount(exe) => DecodedWord(exe, i))
  }

  method DecodeExecutable(exe: Exe) returns (result: seq<Decoded>)
    requires IsValidExe(exe)
    ensures result == DecodeAll(exe)
  {
    hide DecodeAt;
    result := [];
    var addr := exe.image.load;
    while addr < exe.image.Hi()
      invariant |result| <= WordCount(exe) && addr == AddressOf(exe, |result|)
      invariant forall i :: 0 <= i < |result| ==> result[i] == DecodedWord(exe, i)
    {
      var word := WordAt(exe.image, addr);
      if word.None? { break; }
      result := result + [DecodeAt(word.value, addr)];
      addr := addr + 4;
    }
  }

  // ---- Against the R3000A --------------------------------------------------------------------------

  /** The addresses a transfer can go to that are known before the program runs; a call is taken to
      come back behind its delay slot. */
  function StaticExits(ins: R.Instr, pc: int): set<int> {
    match ins
    case CondBranch(_, _, _, target) => {target, R.Wrap(pc + 8)}
    case CondBranchLink(_, _, target) => {target, R.Wrap(pc + 8)}
    case Jump(target) => {target}
    case JumpLink(_) => {R.Wrap(pc + 8)}
    case _ => {}
  }

  lemma DecoderAgrees(w: U32, address: int)
    ensures DecodeAt(w, address).UsesSlot() <==> R.IsControl(R.Decode(address, w))
    ensures DecodeAt(w, address).isBranch <==> R.Decode(address, w).CondBranch? || R.Decode(address, w).CondBranchLink?
    ensures DecodeAt(w, address).isJrRa <==> R.Decode(address, w) == R.JumpReg(31)
    ensures DecodeAt(w, address).IsJal() <==> R.Decode(address, w).JumpLink?
  {
    hide Rt, Rd, MipsWord.JumpTarget, MipsWord.BranchTarget, R.SignExtended, R.ZeroExtended;
  }

  lemma DecoderTargets(w: U32, address: int)
    ensures R.Decode(address, w).CondBranch? ==> R.Decode(address, w).target == DecodeAt(w, address).branchTarget
    ensures R.Decode(address, w).CondBranchLink? ==> R.Decode(address, w).target == DecodeAt(w, address).branchTarget
    ensures R.Decode(address, w).Jump? ==> R.Decode(address, w).target == DecodeAt(w, address).jumpTarget
    ensures R.Decode(address, w).JumpLink? ==> R.Decode(address, w).target == DecodeAt(w, address).jumpTarget
    ensures R.Decode(address, w).JumpReg? || R.Decode(address, w).JumpLinkReg? ==> DecodeAt(w, address).jumpTarget == 0
  {
    hide Rs, Rt, Rd, MipsWord.JumpTarget, MipsWord.BranchTarget, R.SignExtended, R.ZeroExtended;
  }
}
