/**
 A running program moves from block to block along the edges of the block graph.
 */
module BlockRuns {
  import opened Wrappers
  import opened MipsWord
  import opened OverlayImage
  import opened MipsDecoder
  import opened BasicBlocks
  import opened BlockGraph
  import opened R3000
  import Slots = DelaySlot

  /** The machine is about to execute the block. */
  predicate AtBlock(m: Machine, b: Block) {
    m.Running? && m.pc == b.startAddr && m.npc == b.startAddr + 4
  }

  ghost function RunBlock(gte: Gte, exe: Exe, b: Block, m: Machine): Machine {
    Run(gte, Slots.Code(exe.image), m, b.instrCount)
  }

  /** The transfer of a block that has one. */
  function TransferOf(exe: Exe, b: Block): Instr { BlockGraph.InstrAt(exe, b.delaySlotAddr - 4) }

  predicate CallsTo(exe: Exe, b: Block, x: int) {
    b.hasDelaySlot && TransferOf(exe, b).JumpLink? && TransferOf(exe, b).target == x
  }

  /** A jump through a register, to an address no analysis of the code knows. */
  predicate JumpsThroughRegister(exe: Exe, b: Block) {
    b.hasDelaySlot && (TransferOf(exe, b).JumpReg? || TransferOf(exe, b).JumpLinkReg?)
  }

  /** The delay slot transfers control itself. */
  predicate SlotTransfers(exe: Exe, b: Block) {
    b.hasDelaySlot && IsControl(BlockGraph.InstrAt(exe, b.delaySlotAddr))
  }

  lemma {:induction false} StraightRun(gte: Gte, exe: Exe, c: Cpu, s: nat, k: nat)
    requires IsValidExe(exe) && s + k <= WordCount(exe)
    requires forall i :: s <= i < s + k ==> !IsControl(BlockGraph.InstrAt(exe, AddressOf(exe, i)))
    ensures var m := Run(gte, Slots.Code(exe.image), Running(c, AddressOf(exe, s), AddressOf(exe, s) + 4), k);
            m.Running? ==> m.pc == AddressOf(exe, s + k) && m.npc == AddressOf(exe, s + k) + 4
    decreases k
  {
    hide Step, Decode, Exec, Slots.CodeOf;
    if k > 0 {
      var a := AddressOf(exe, s);
      var m := Running(c, a, a + 4);
      var next := Step(gte, Slots.Code(exe.image), m);
      assert !IsControl(BlockGraph.InstrAt(exe, AddressOf(exe, s)));
      Slots.StepPlain(gte, exe.image, c, a, a + 4);
      if next.Running? {
        assert Wrap(a + 8) == a + 8;
        StraightRun(gte, exe, next.cpu, s + 1, k - 1);
      } else {
        Slots.StoppedStays(gte, Slots.Code(exe.image), next, k - 1);
      }
    }
  }

  lemma TransferGoes(ins: Instr, pc: int, c: Cpu)
    requires IsControl(ins)
    ensures || Destination(ins, pc, c) in StaticExits(ins, pc)
            || (ins.JumpLink? && Destination(ins, pc, c) == ins.target)
            || ins.JumpReg? || ins.JumpLinkReg?
  {
    hide Taken, Get;
  }

  /** Transfer and slot: two steps, to the transfer's destination. */
  lemma TransferRun(gte: Gte, exe: Exe, c: Cpu, t: int)
    requires IsControl(BlockGraph.InstrAt(exe, t)) && !IsControl(BlockGraph.InstrAt(exe, t + 4))
    ensures var m := Run(gte, Slots.Code(exe.image), Running(c, t, t + 4), 2);
            m.Running? ==> m.pc == Destination(BlockGraph.InstrAt(exe, t), t, c) && m.npc == Wrap(m.pc + 4)
  {
    hide Step, Decode, Exec, Slots.CodeOf, Destination, Linked, IsControl;
    var ins := BlockGraph.InstrAt(exe, t);
    Slots.StepControl(gte, exe.image, c, t, t + 4);
    Slots.TwoSteps(gte, Slots.Code(exe.image), Running(c, t, t + 4));
    Slots.StepPlain(gte, exe.image, Linked(ins, t, c), t + 4, Destination(ins, t, c));
  }

  /** The words before the last instruction of a block are plain, and so is the last one of a block
      without a delay slot. */
  lemma PlainWords(exe: Exe, b: Block, s: nat, e: nat, next: int)
    requires IsValidExe(exe) && Spans(exe, b, s, e, next)
    ensures forall i :: s <= i < e ==> !IsControl(BlockGraph.InstrAt(exe, AddressOf(exe, i)))
    ensures e < WordCount(exe) && (IsControl(BlockGraph.InstrAt(exe, AddressOf(exe, e))) <==> b.hasDelaySlot)
  {
    hide IsLeader, IsNextLeader, IsBlock, Decode, DecodeAt, Slots.CodeOf, IsControl, DecodedWord;
    BlockFields(exe, b, s, e, next);
    forall i | s <= i <= e
      ensures IsControl(BlockGraph.InstrAt(exe, AddressOf(exe, i))) <==> DecodeAll(exe)[i].UsesSlot()
      ensures i < e ==> !DecodeAll(exe)[i].UsesSlot()
    {
      ScanRuns(DecodeAll(exe), s, next, i);
      CodeIsDecoded(exe, i);
      DecoderAgrees(Slots.CodeOf(exe.image, AddressOf(exe, i)), AddressOf(exe, i));
      hide BlockEnd;
    }
  }

  /** A block run from its start goes to one of its exits, unless it traps on the way, jumps through
      a register or has a transfer in its delay slot. */
  lemma BlockExitsTaken(gte: Gte, exe: Exe, b: Block, m: Machine)
    requires IsValidExe(exe) && IsBuilt(exe, b) && IsWhole(b) && AtBlock(m, b) && !SlotTransfers(exe, b)
    ensures var after := RunBlock(gte, exe, b, m);
            after.Running? ==>
              && after.npc == Wrap(after.pc + 4)
              && (after.pc in BlockExits(exe, b) || CallsTo(exe, b, after.pc) || JumpsThroughRegister(exe, b))
  {
    hide IsBuilt, Spans, SlotTransfers, BlockExits, CallsTo, JumpsThroughRegister, IsWhole, IsValidExe, AtBlock, RunBlock;
    var s, e, next := SpanOf(exe, b);
    if b.hasDelaySlot {
      TransferBlock(gte, exe, b, s, e, next, m);
    } else {
      StraightBlock(gte, exe, b, s, e, next, m);
    }
  }

  lemma StraightBlock(gte: Gte, exe: Exe, b: Block, s: nat, e: nat, next: int, m: Machine)
    requires IsValidExe(exe) && Spans(exe, b, s, e, next) && IsWhole(b) && AtBlock(m, b) && !b.hasDelaySlot
    ensures var after := RunBlock(gte, exe, b, m);
            after.Running? ==> after.npc == Wrap(after.pc + 4) && after.pc in BlockExits(exe, b)
  {
    hide IsBuilt, Spans, BlockGraph.InstrAt, IsControl, IsValidExe, Run;
    PlainWords(exe, b, s, e, next);
    SpanAddresses(exe, b, s, e, next);
    StraightRun(gte, exe, m.cpu, s, e - s + 1);
  }

  lemma TransferBlock(gte: Gte, exe: Exe, b: Block, s: nat, e: nat, next: int, m: Machine)
    requires IsValidExe(exe) && Spans(exe, b, s, e, next) && IsWhole(b) && AtBlock(m, b) && b.hasDelaySlot
    requires !SlotTransfers(exe, b)
    ensures var after := RunBlock(gte, exe, b, m);
            after.Running? ==>
              && after.npc == Wrap(after.pc + 4)
              && (after.pc in BlockExits(exe, b) || CallsTo(exe, b, after.pc) || JumpsThroughRegister(exe, b))
  {
    hide IsBuilt, Spans, BlockGraph.InstrAt, IsControl, IsValidExe, Run, StaticExits, Destination;
    PlainWords(exe, b, s, e, next);
    SpanAddresses(exe, b, s, e, next);
    var code := Slots.Code(exe.image);
    var t := b.delaySlotAddr - 4;
    StraightRun(gte, exe, m.cpu, s, e - s);
    Slots.RunSplits(gte, code, m, e - s, 2);
    var mid := Run(gte, code, m, e - s);
    if mid.Running? {
      assert mid == Running(mid.cpu, t, t + 4);
      TransferRun(gte, exe, mid.cpu, t);
      TransferGoes(TransferOf(exe, b), t, mid.cpu);
    } else {
      Slots.StoppedStays(gte, code, mid, 2);
    }
  }

  lemma SpanAddresses(exe: Exe, b: Block, s: nat, e: nat, next: int)
    requires IsValidExe(exe) && Spans(exe, b, s, e, next) && IsWhole(b)
    ensures s <= e < WordCount(exe) && b.startAddr == AddressOf(exe, s)
    ensures if b.hasDelaySlot then b.delaySlotAddr == AddressOf(exe, e) + 4 && b.instrCount == e - s + 2
            else b.endAddr == AddressOf(exe, e) && b.instrCount == e - s + 1
    ensures Wrap(AddressOf(exe, e) + 8) == AddressOf(exe, e) + 8
  {
    hide IsLeader, IsNextLeader, IsBlock, DecodedWord, BlockEnd;
    BlockFields(exe, b, s, e, next);
  }

  // ---- Calls and returns ---------------------------------------------------------------------------

  /** The transfer leaves a return address. */
  predicate Calls(exe: Exe, b: Block) {
    b.hasDelaySlot
    && (TransferOf(exe, b).JumpLink? || TransferOf(exe, b).JumpLinkReg? || TransferOf(exe, b).CondBranchLink?)
  }

  function ReturnAddress(b: Block): int { b.delaySlotAddr + 4 }

  /** The register that receives it. */
  function LinkRegister(ins: Instr): Reg {
    if ins.JumpLinkReg? then ins.rd else 31
  }

  /** The address a call links is the one behind the slot of its block. */
  lemma LinkIsReturn(exe: Exe, b: Block, c: Cpu)
    requires Calls(exe, b) && LinkRegister(TransferOf(exe, b)) != 0
    ensures var ins := TransferOf(exe, b);
            IsControl(ins) && Get(Linked(ins, b.delaySlotAddr - 4, c), LinkRegister(ins)) == R3000.Word(ReturnAddress(b))
  {
    hide BlockGraph.InstrAt;
  }

  lemma ReturnLeads(exe: Exe, b: Block)
    requires IsValidExe(exe) && IsBuilt(exe, b) && IsWhole(b) && b.hasDelaySlot && InExe(exe, ReturnAddress(b))
    ensures IsLeader(exe, ReturnAddress(b))
  {
    hide IsBuilt, IsLeader, IsNextLeader, IsBlock, DecodedWord;
    var s, e, next := SpanOf(exe, b);
    BlockFields(exe, b, s, e, next);
    BehindSlot(exe, e);
  }

  /** Where a call comes back a block starts; the calling block lists it, unless it calls through a
      register. */
  lemma ReturnIsBlock(exe: Exe, blocks: seq<Block>, i: nat)
    requires IsValidExe(exe) && WordAligned(exe) && AreBlocks(exe, blocks) && i < |blocks|
    requires IsWhole(blocks[i]) && Calls(exe, blocks[i]) && InExe(exe, ReturnAddress(blocks[i]))
    ensures exists j :: 0 <= j < |blocks| && blocks[j].startAddr == ReturnAddress(blocks[i])
    ensures ReturnAddress(blocks[i]) in blocks[i].successors <==> !TransferOf(exe, blocks[i]).JumpLinkReg?
  {
    hide AreBlocks, IsValidExe, WordAligned, IsWhole, InExe, IsLeader, IndexOf, ReturnAddress, BlockExits, Calls;
    EachIsBuilt(exe, blocks, i);
    CallHasSlot(exe, blocks[i]);
    ReturnLeads(exe, blocks[i]);
    LeaderStartsBlock(exe, blocks, ReturnAddress(blocks[i]));
    SuccessorsAreExits(exe, blocks[i], ReturnAddress(blocks[i]));
    ReturnIsExit(exe, blocks[i]);
  }

  lemma CallHasSlot(exe: Exe, b: Block)
    requires Calls(exe, b)
    ensures b.hasDelaySlot
  {
  }

  lemma ReturnIsExit(exe: Exe, b: Block)
    requires IsValidExe(exe) && Calls(exe, b) && InExe(exe, ReturnAddress(b))
    ensures ReturnAddress(b) in BlockExits(exe, b) <==> !TransferOf(exe, b).JumpLinkReg?
  {
    hide BlockGraph.InstrAt;
    assert Wrap(ReturnAddress(b)) == ReturnAddress(b);
  }

  lemma LeaderStartsBlock(exe: Exe, blocks: seq<Block>, a: int)
    requires IsValidExe(exe) && WordAligned(exe) && AreBlocks(exe, blocks) && IsLeader(exe, a) && InExe(exe, a)
    ensures exists j :: 0 <= j < |blocks| && blocks[j].startAddr == a
  {
    hide AreBlocks, IsValidExe, WordAligned, InExe, IsLeader, IndexOf;
    LeadersAligned(exe, a);
    WordsOfImage(exe, a);
    LeaderHasBlock(exe, blocks, a);
  }

  // ---- Runs ----------------------------------------------------------------------------------------

  /** The analysis says nothing about where control goes: the block left the image or trapped, or
      jumped through a register to an address that is no leader. */
  ghost predicate Leaves(exe: Exe, b: Block, after: Machine) {
    after.Stopped? || !InExe(exe, after.pc) || (JumpsThroughRegister(exe, b) && !IsLeader(exe, after.pc))
  }

  /** An edge of the graph, a call to the block of the callee, or a jump through a register to a leader. */
  ghost predicate IsEdge(exe: Exe, b: Block, to: Block) {
    || to.startAddr in b.successors || CallsTo(exe, b, to.startAddr)
    || (JumpsThroughRegister(exe, b) && IsLeader(exe, to.startAddr))
  }

  /** The return addresses of the calls made so far, with that of one more block. */
  function Returns(exe: Exe, b: Block, earlier: set<int>): set<int> {
    if Calls(exe, b) then earlier + {ReturnAddress(b)} else earlier
  }

  /** Going back behind an earlier call never leaves the blocks. */
  ghost predicate ComesBack(exe: Exe, b: Block, after: Machine, links: set<int>) {
    after.Running? && after.pc in links && InExe(exe, after.pc) ==> !Leaves(exe, b, after)
  }

  /** The first n blocks the machine runs through, from block i on, follow the graph; links holds
      the return addresses of the calls made before. */
  ghost predicate FollowsEdges(gte: Gte, exe: Exe, blocks: seq<Block>, m: Machine, i: nat, n: nat, links: set<int>)
    requires i < |blocks|
    decreases n
  {
    n == 0 || !IsWhole(blocks[i]) || SlotTransfers(exe, blocks[i])
    || (&& ComesBack(exe, blocks[i], RunBlock(gte, exe, blocks[i], m), links)
        && (|| Leaves(exe, blocks[i], RunBlock(gte, exe, blocks[i], m))
            || exists j :: 0 <= j < |blocks| && AtBlock(RunBlock(gte, exe, blocks[i], m), blocks[j])
                           && IsEdge(exe, blocks[i], blocks[j])
                           && FollowsEdges(gte, exe, blocks, RunBlock(gte, exe, blocks[i], m), j, n - 1,
                                           Returns(exe, blocks[i], links))))
  }

  ghost predicate ReturnsLead(exe: Exe, links: set<int>) {
    forall r :: r in links && InExe(exe, r) ==> IsLeader(exe, r)
  }

  lemma MoreReturns(exe: Exe, b: Block, links: set<int>)
    requires IsValidExe(exe) && IsBuilt(exe, b) && IsWhole(b) && ReturnsLead(exe, links)
    ensures ReturnsLead(exe, Returns(exe, b, links))
  {
    hide IsValidExe, IsBuilt, IsWhole, IsLeader, InExe, ReturnAddress;
    if Calls(exe, b) && InExe(exe, ReturnAddress(b)) {
      ReturnLeads(exe, b);
    }
  }

  lemma CalleeLeads(exe: Exe, b: Block, x: int)
    requires IsValidExe(exe) && IsBuilt(exe, b) && IsWhole(b) && CallsTo(exe, b, x) && InExe(exe, x)
    ensures IsLeader(exe, x)
  {
    hide IsBuilt, IsLeader, IsNextLeader, IsBlock, Decode, Slots.CodeOf, DecodeAt;
    var s, e, next := SpanOf(exe, b);
    SpanAddresses(exe, b, s, e, next);
    var w := Slots.CodeOf(exe.image, AddressOf(exe, e));
    CodeIsDecoded(exe, e);
    DecoderTargets(w, AddressOf(exe, e));
    JumpLinkIsJump(w, AddressOf(exe, e));
    JumpTargetLeads(exe, e, x);
    hide Spans, IsWhole;
  }

  lemma JumpLinkIsJump(w: U32, a: int)
    requires Decode(a, w).JumpLink?
    ensures DecodeAt(w, a).isJump
  {
    hide Rs, Rt, Rd, MipsWord.JumpTarget, MipsWord.BranchTarget, SignExtended, ZeroExtended, DecodeSpecial;
    SpecialIsNoLink(w);
  }

  lemma SpecialIsNoLink(w: U32)
    ensures !DecodeSpecial(w).JumpLink?
  {
  }

  lemma JumpTargetLeads(exe: Exe, e: nat, x: int)
    requires IsValidExe(exe) && e < WordCount(exe) && DecodeAll(exe)[e].isJump && DecodeAll(exe)[e].jumpTarget == x && InExe(exe, x)
    ensures IsLeader(exe, x)
  {
    hide DecodedWord;
    assert x in LeadersOf(exe, DecodeAll(exe)[e]);
  }

  /** One step of the theorem below. */
  lemma NextBlock(gte: Gte, exe: Exe, blocks: seq<Block>, m: Machine, i: nat) returns (j: nat)
    requires IsValidExe(exe) && WordAligned(exe) && AreBlocks(exe, blocks) && i < |blocks| && AtBlock(m, blocks[i])
    requires IsWhole(blocks[i]) && !SlotTransfers(exe, blocks[i])
    requires !Leaves(exe, blocks[i], RunBlock(gte, exe, blocks[i], m))
    ensures j < |blocks| && AtBlock(RunBlock(gte, exe, blocks[i], m), blocks[j]) && IsEdge(exe, blocks[i], blocks[j])
  {
    hide AreBlocks, IsValidExe, WordAligned, BlockExits, CallsTo, RunBlock, JumpsThroughRegister, SlotTransfers, IsWhole, InExe, IsLeader;
    var b := blocks[i];
    EachIsBuilt(exe, blocks, i);
    BlockExitsTaken(gte, exe, b, m);
    var after := RunBlock(gte, exe, b, m);
    PcStays(exe, after.pc);
    if after.pc in BlockExits(exe, b) {
      SuccessorsAreExits(exe, b, after.pc);
      SuccessorsAreBlocks(exe, blocks, i, after.pc);
      j :| 0 <= j < |blocks| && blocks[j].startAddr == after.pc;
    } else if CallsTo(exe, b, after.pc) {
      CalleeHasBlock(exe, blocks, i, after.pc);
      j :| 0 <= j < |blocks| && blocks[j].startAddr == after.pc;
    } else {
      LeaderStartsBlock(exe, blocks, after.pc);
      j :| 0 <= j < |blocks| && blocks[j].startAddr == after.pc;
    }
  }

  lemma EachIsBuilt(exe: Exe, blocks: seq<Block>, i: nat)
    requires AreBlocks(exe, blocks) && i < |blocks|
    ensures IsBuilt(exe, blocks[i])
  {
    hide IsBuilt, IsLeader, IndexOf;
  }

  lemma CalleeHasBlock(exe: Exe, blocks: seq<Block>, i: nat, x: int)
    requires IsValidExe(exe) && WordAligned(exe) && AreBlocks(exe, blocks) && i < |blocks|
    requires IsWhole(blocks[i]) && CallsTo(exe, blocks[i], x) && InExe(exe, x)
    ensures exists j :: 0 <= j < |blocks| && blocks[j].startAddr == x
  {
    hide AreBlocks, IsValidExe, WordAligned, IsWhole, CallsTo, InExe, IsLeader, IndexOf;
    EachIsBuilt(exe, blocks, i);
    CalleeLeads(exe, blocks[i], x);
    LeaderStartsBlock(exe, blocks, x);
  }

  lemma PcStays(exe: Exe, a: int)
    requires IsValidExe(exe) && InExe(exe, a)
    ensures Wrap(a + 4) == a + 4
  {
  }

  lemma {:induction false} RunsOn(gte: Gte, exe: Exe, blocks: seq<Block>, m: Machine, i: nat, n: nat, links: set<int>)
    requires IsValidExe(exe) && WordAligned(exe) && AreBlocks(exe, blocks)
    requires i < |blocks| && AtBlock(m, blocks[i]) && ReturnsLead(exe, links)
    ensures FollowsEdges(gte, exe, blocks, m, i, n, links)
    decreases n
  {
    hide AreBlocks, IsValidExe, WordAligned, IsWhole, SlotTransfers, AtBlock, IsEdge, Returns, IsLeader, InExe;
    if n > 0 && IsWhole(blocks[i]) && !SlotTransfers(exe, blocks[i]) && !Leaves(exe, blocks[i], RunBlock(gte, exe, blocks[i], m)) {
      var j := NextBlock(gte, exe, blocks, m, i);
      EachIsBuilt(exe, blocks, i);
      MoreReturns(exe, blocks[i], links);
      RunsOn(gte, exe, blocks, RunBlock(gte, exe, blocks[i], m), j, n - 1, Returns(exe, blocks[i], links));
    }
    hide RunBlock, JumpsThroughRegister;
  }

  /** Every run of the program from the start of a block, for any number of blocks, goes from block
      start to block start: along the edges of the graph, into callees, back behind the calls made
      before, and through registers to other leaders.  It ends where the machine traps, control leaves
      the image or jumps through a register to no leader, or a block is not whole or has a transfer in
      its slot. */
  lemma RunsFollowEdges(gte: Gte, exe: Exe, blocks: seq<Block>, m: Machine, i: nat, n: nat)
    requires IsValidExe(exe) && WordAligned(exe) && AreBlocks(exe, blocks)
    requires i < |blocks| && AtBlock(m, blocks[i])
    ensures FollowsEdges(gte, exe, blocks, m, i, n, {})
  {
    hide AreBlocks, IsValidExe, WordAligned, AtBlock, FollowsEdges;
    RunsOn(gte, exe, blocks, m, i, n, {});
  }
}
