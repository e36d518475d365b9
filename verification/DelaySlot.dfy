/**
 A slice that walks without failure runs like the R3000A, branch delay slot included.
 */
module DelaySlot {
  import opened Wrappers
  import opened MipsWord
  import opened OverlayImage
  import opened R3000
  import opened StrictTranslator
  import opened TranslationProof
  import opened SliceWalker

  /** The emitted entries, one after the other. */
  ghost function RunEntries(gte: Gte, es: seq<EmittedInstr>, f: Frame): COut
    decreases |es|
  {
    if es == [] then Fall(f)
    else match RunCode(gte, es[0].code, f)
      case Fall(g) => RunEntries(gte, es[1..], g)
      case Returned(g) => Returned(g)
      case Aborted(kind, c) => Aborted(kind, c)
      case Broken => Broken
  }

  /** The program the machine executes. */
  function CodeOf(img: Image, a: int): U32 {
    var w := WordAt(img, a);
    if w.Some? then w.value else 0
  }

  function Code(img: Image): int -> U32 { a => CodeOf(img, a) }

  /** The translation agrees with the R3000A on every instruction of the next `steps` ones. */
  ghost predicate AgreesAlong(gte: Gte, img: Image, m: Machine, steps: nat)
    decreases steps
  {
    steps == 0 ||
    ((m.Running? ==> Agrees(Decode(m.pc, CodeOf(img, m.pc)), m.cpu))
     && AgreesAlong(gte, img, Step(gte, Code(img), m), steps - 1))
  }

  /** The outcome of the slice function and the state of the machine say the same. */
  predicate SameState(out: COut, m: Machine) {
    match m
    case Running(c, pc, _) => out.Returned? && out.f.cpu == c && out.f.pc == pc
    case Stopped(kind, c) => out == Aborted(kind, c)
  }

  lemma RunOne(gte: Gte, s: CStmt, f: Frame)
    ensures RunCode(gte, [s], f) == RunStmt(gte, s, f)
  {
    hide RunStmt;
    assert [s][1..] == [];
  }

  /** The rest of a code sequence after one statement. */
  ghost function ThenCode(gte: Gte, out: COut, rest: seq<CStmt>): COut {
    match out
    case Fall(g) => RunCode(gte, rest, g)
    case Returned(g) => Returned(g)
    case Aborted(kind, c) => Aborted(kind, c)
    case Broken => Broken
  }

  ghost function ThenEntries(gte: Gte, out: COut, rest: seq<EmittedInstr>): COut {
    match out
    case Fall(g) => RunEntries(gte, rest, g)
    case Returned(g) => Returned(g)
    case Aborted(kind, c) => Aborted(kind, c)
    case Broken => Broken
  }

  lemma RunFirst(gte: Gte, s: CStmt, rest: seq<CStmt>, f: Frame)
    ensures RunCode(gte, [s] + rest, f) == ThenCode(gte, RunStmt(gte, s, f), rest)
  {
    hide RunStmt;
    assert ([s] + rest)[1..] == rest;
  }

  lemma RunFirstEntry(gte: Gte, e: EmittedInstr, rest: seq<EmittedInstr>, f: Frame)
    ensures RunEntries(gte, [e] + rest, f) == ThenEntries(gte, RunCode(gte, e.code, f), rest)
  {
    hide RunCode;
    assert ([e] + rest)[1..] == rest;
  }

  lemma {:induction false} StoppedStays(gte: Gte, code: int -> U32, m: Machine, steps: nat)
    requires m.Stopped?
    ensures Run(gte, code, m, steps) == m
    decreases steps
  {
    if steps > 0 {
      StoppedStays(gte, code, m, steps - 1);
    }
  }

  /** The machine after a plain instruction. */
  function Advance(e: Effect, npc: int): Machine {
    match e
    case Next(c) => Running(c, npc, Wrap(npc + 4))
    case Trapped(kind, c) => Stopped(kind, c)
  }

  lemma StepPlain(gte: Gte, img: Image, c: Cpu, pc: int, npc: int)
    requires !IsControl(Decode(pc, CodeOf(img, pc)))
    ensures Step(gte, Code(img), Running(c, pc, npc)) == Advance(Exec(gte, Decode(pc, CodeOf(img, pc)), c), npc)
  {
    hide Exec, Decode, CodeOf;
  }

  /** One plain entry and one machine step. */
  lemma PlainStep(gte: Gte, img: Image, e: EmittedInstr, c: Cpu, npc: int, f: Frame)
    requires IsPlainEntry(img, e) && f.cpu == c
    requires Agrees(Decode(e.address, CodeOf(img, e.address)), c)
    ensures var effect := Exec(gte, Decode(e.address, CodeOf(img, e.address)), c);
            && RunCode(gte, e.code, f) == Lift(effect, f)
            && Step(gte, Code(img), Running(c, e.address, npc)) == Advance(effect, npc)
  {
    hide Step, Exec, Decode, Translate, RunStmt, Agrees, WordAt;
    var stmt := Translate(e.raw, e.address).stmt;
    assert CodeOf(img, e.address) == e.raw;
    PlainRefines(gte, e.raw, e.address, f);
    RunOne(gte, stmt, f);
    StepPlain(gte, img, c, e.address, npc);
  }

  /** The emitted code before `rest` has brought frame f to where the machine is. */
  ghost predicate InStep(gte: Gte, out: COut, rest: seq<EmittedInstr>, f: Frame, m: Machine, pc: int) {
    match m
    case Running(c, p, n) => p == pc && n == pc + 4 && out == RunEntries(gte, rest, f.(cpu := c))
    case Stopped(kind, c) => out == Aborted(kind, c)
  }

  /** The body of a slice runs in step with the machine. */
  lemma {:induction false} BodyRuns(gte: Gte, img: Image, body: seq<EmittedInstr>, rest: seq<EmittedInstr>, start: int, c: Cpu, f: Frame)
    requires forall i :: 0 <= i < |body| ==> IsPlainEntry(img, body[i]) && body[i].address == start + 4 * i
    requires 0 <= start && start + 4 * |body| + 4 < 0x1_0000_0000
    requires f.cpu == c && AgreesAlong(gte, img, Running(c, start, start + 4), |body|)
    ensures InStep(gte, RunEntries(gte, body + rest, f), rest, f, Run(gte, Code(img), Running(c, start, start + 4), |body|), start + 4 * |body|)
    decreases |body|
  {
    hide Step, RunCode, IsPlainEntry, Agrees, Decode, Exec;
    var m := Running(c, start, start + 4);
    if body == [] {
      assert body + rest == rest;
    } else {
      assert Agrees(Decode(start, CodeOf(img, start)), c);
      PlainStep(gte, img, body[0], c, start + 4, f);
      assert body + rest == [body[0]] + (body[1..] + rest);
      RunFirstEntry(gte, body[0], body[1..] + rest, f);
      var next := Step(gte, Code(img), m);
      if next.Running? {
        assert Wrap(start + 4 + 4) == start + 8;
        BodyRuns(gte, img, body[1..], rest, start + 4, next.cpu, f.(cpu := next.cpu));
      } else {
        StoppedStays(gte, Code(img), next, |body| - 1);
      }
    }
  }

  // ---- Terminators -------------------------------------------------------------------------------

  /** The snapshot code of a terminator leaves this frame... */
  ghost predicate Prepares(gte: Gte, w: U32, t: int, f: Frame, g: Frame) {
    && Translate(w, t).Terminator? && IsControl(Decode(t, w))
    && RunCode(gte, Translate(w, t).pre, f) == Fall(g)
    && g.cpu == Linked(Decode(t, w), t, f.cpu)
  }

  /** ...from which the transfer code goes to the destination decided before the delay slot,
      whatever the slot did to the registers. */
  ghost predicate Transfers(gte: Gte, w: U32, t: int, f: Frame, g: Frame, c: Cpu) {
    && Translate(w, t).Terminator? && IsControl(Decode(t, w))
    && RunCode(gte, Translate(w, t).code, g.(cpu := c)) == Returned(g.(cpu := c, pc := Destination(Decode(t, w), t, f.cpu)))
  }

  function Latched(f: Frame, l: Local, r: Reg): Frame {
    f.(locals := f.locals[l := f.cpu.gpr[r]])
  }

  lemma LatchRuns(gte: Gte, l: Local, r: Reg, f: Frame)
    ensures RunStmt(gte, Latch(l, r), f) == Fall(Latched(f, l, r))
  {
  }

  lemma GotoIfRuns(gte: Gte, cond: Cond, a: Local, b: Local, target: int, otherwise: int, f: Frame)
    ensures RunCode(gte, [GotoIf(cond, a, b, target, otherwise)], f)
            == Returned(f.(pc := if Taken(cond, Read(f, a), Read(f, b)) then target else otherwise))
  {
    hide Taken, Read;
    RunOne(gte, GotoIf(cond, a, b, target, otherwise), f);
  }

  lemma TwoLatches(gte: Gte, a: Local, r: Reg, b: Local, q: Reg, f: Frame)
    ensures RunCode(gte, [Latch(a, r)] + [Latch(b, q)], f) == Fall(Latched(Latched(f, a, r), b, q))
  {
    hide RunStmt;
    LatchRuns(gte, a, r, f);
    LatchRuns(gte, b, q, Latched(f, a, r));
    RunFirst(gte, Latch(a, r), [Latch(b, q)], f);
    RunOne(gte, Latch(b, q), Latched(f, a, r));
  }

  lemma OneLatch(gte: Gte, a: Local, r: Reg, f: Frame)
    ensures RunCode(gte, [Latch(a, r)] + [], f) == Fall(Latched(f, a, r))
  {
    hide RunStmt;
    LatchRuns(gte, a, r, f);
    assert [Latch(a, r)] + [] == [Latch(a, r)];
    RunOne(gte, Latch(a, r), f);
  }

  /** The condition a translated branch tests after the slot is the one the R3000A tests before it. */
  lemma BranchTransfers(gte: Gte, cond: Cond, w: U32, t: int, f: Frame, c: Cpu) returns (g: Frame)
    requires Translate(w, t) == TranslateBranch(cond, w, t)
    requires Decode(t, w) == CondBranch(cond, Rs(w), if cond.Beq? || cond.Bne? then Rt(w) else 0, Wrap(MipsWord.BranchTarget(t, w)))
    ensures Prepares(gte, w, t, f, g) && Transfers(gte, w, t, f, g, c)
  {
    hide Translate, Decode, RunCode, RunStmt, MipsWord.BranchTarget;
    var target := Wrap(MipsWord.BranchTarget(t, w));
    if cond.Beq? || cond.Bne? {
      g := Latched(Latched(f, BrA(t), Rs(w)), BrB(t), Rt(w));
      TwoLatches(gte, BrA(t), Rs(w), BrB(t), Rt(w), f);
      GotoIfRuns(gte, cond, BrA(t), BrB(t), target, Wrap(t + 8), g.(cpu := c));
    } else {
      g := Latched(f, BrA(t), Rs(w));
      OneLatch(gte, BrA(t), Rs(w), f);
      GotoIfRuns(gte, cond, BrA(t), BrA(t), target, Wrap(t + 8), g.(cpu := c));
    }
  }

  lemma JumpTransfers(gte: Gte, w: U32, t: int, f: Frame, c: Cpu) returns (g: Frame)
    requires Op(w) == 0x02
    ensures Prepares(gte, w, t, f, g) && Transfers(gte, w, t, f, g, c)
  {
    hide MipsWord.JumpTarget, MipsWord.BranchTarget, RunStmt;
    g := f;
    var target := MipsWord.JumpTarget(t, w);
    RunOne(gte, Goto(target), g.(cpu := c));
    GotoRuns(gte, target, g.(cpu := c));
  }

  lemma GotoRuns(gte: Gte, target: int, f: Frame)
    ensures RunStmt(gte, Goto(target), f) == Returned(f.(pc := target))
  {
  }

  lemma GotoLocalRuns(gte: Gte, l: Local, f: Frame)
    ensures RunCode(gte, [GotoLocal(l)], f) == Returned(f.(pc := Read(f, l) as int))
  {
    RunOne(gte, GotoLocal(l), f);
  }

  lemma LinkRuns(gte: Gte, rd: Reg, v: bv32, f: Frame)
    requires rd != 0
    ensures RunStmt(gte, SetGpr(rd, Const(v)), f) == Fall(f.(cpu := Set(f.cpu, rd, v)))
  {
  }

  lemma LatchThenLink(gte: Gte, l: Local, r: Reg, rd: Reg, v: bv32, f: Frame)
    requires rd != 0
    ensures RunCode(gte, [Latch(l, r)] + [SetGpr(rd, Const(v))], f) == Fall(Latched(f, l, r).(cpu := Set(f.cpu, rd, v)))
  {
    hide RunStmt, RunCode;
    LatchRuns(gte, l, r, f);
    LinkRuns(gte, rd, v, Latched(f, l, r));
    RunFirst(gte, Latch(l, r), [SetGpr(rd, Const(v))], f);
    RunOne(gte, SetGpr(rd, Const(v)), Latched(f, l, r));
    hide Set;
  }

  lemma LinkOf(c: Cpu, rd: Reg, rs: Reg, t: int)
    ensures Linked(JumpReg(rs), t, c) == c
    ensures Linked(JumpLinkReg(rd, rs), t, c) == Set(c, rd, Word(t + 8))
    ensures Set(c, 0, Word(t + 8)) == c
  {
  }

  /** The latched target, and the link when it is written before the delay slot. */
  lemma RegisterJumpPrepares(gte: Gte, w: U32, t: int, f: Frame) returns (g: Frame)
    requires Op(w) == 0 && (Funct(w) == 0x08 || Funct(w) == 0x09)
    ensures Prepares(gte, w, t, f, g) && g.locals == Latched(f, Jt(t), Rs(w)).locals
  {
    var rs, rd := Rs(w), Rd(w);
    if Funct(w) == 0x08 {
      g := Latched(f, Jt(t), rs);
      JrPrepares(gte, w, t, f);
    } else {
      g := Latched(f, Jt(t), rs).(cpu := Set(f.cpu, rd, Word(t + 8)));
      JalrPrepares(gte, w, t, f);
    }
  }

  lemma JrPrepares(gte: Gte, w: U32, t: int, f: Frame)
    requires Op(w) == 0 && Funct(w) == 0x08
    ensures Prepares(gte, w, t, f, Latched(f, Jt(t), Rs(w)))
  {
    hide Translate, Decode, RunCode, RunStmt, Rs, Rd, Linked, Op, Funct, Word, Set;
    RegisterJumpDecodes(w, t);
    LinkOf(f.cpu, 0, Rs(w), t);
    RunOne(gte, Latch(Jt(t), Rs(w)), f);
    LatchRuns(gte, Jt(t), Rs(w), f);
  }

  lemma JalrPrepares(gte: Gte, w: U32, t: int, f: Frame)
    requires Op(w) == 0 && Funct(w) == 0x09
    ensures Prepares(gte, w, t, f, Latched(f, Jt(t), Rs(w)).(cpu := Set(f.cpu, Rd(w), Word(t + 8))))
  {
    hide Translate, Decode, RunCode, RunStmt, Rs, Rd, Linked, Word, Set, Op, Funct;
    RegisterJumpDecodes(w, t);
    LinkOf(f.cpu, Rd(w), Rs(w), t);
    if Rd(w) == 0 {
      OneLatch(gte, Jt(t), Rs(w), f);
    } else {
      LatchThenLink(gte, Jt(t), Rs(w), Rd(w), Word(t + 8), f);
    }
  }

  lemma RegisterJumpTransfers(gte: Gte, w: U32, t: int, f: Frame, c: Cpu) returns (g: Frame)
    requires Op(w) == 0 && (Funct(w) == 0x08 || Funct(w) == 0x09)
    ensures Prepares(gte, w, t, f, g) && Transfers(gte, w, t, f, g, c)
  {
    hide Translate, Decode, RunCode, RunStmt, Word, Op, Rs, Rd, Funct, Set, Linked;
    g := RegisterJumpPrepares(gte, w, t, f);
    RegisterJumpDecodes(w, t);
    GotoLocalRuns(gte, Jt(t), g.(cpu := c));
  }

  lemma RegisterJumpDecodes(w: U32, t: int)
    requires Op(w) == 0 && (Funct(w) == 0x08 || Funct(w) == 0x09)
    ensures Translate(w, t) == TranslateSpecial(w, t)
    ensures Decode(t, w) == if Funct(w) == 0x08 then JumpReg(Rs(w)) else JumpLinkReg(Rd(w), Rs(w))
    ensures Translate(w, t).code == [GotoLocal(Jt(t))]
    ensures Translate(w, t).pre == if Funct(w) == 0x08 then [Latch(Jt(t), Rs(w))]
                                   else [Latch(Jt(t), Rs(w))] + (if Rd(w) != 0 then [SetGpr(Rd(w), Const(Word(t + 8)))] else [])
  {
    hide MipsWord.JumpTarget, MipsWord.BranchTarget, SignExtended, ZeroExtended, Rs, Rt, Rd;
  }

  function BranchCond(w: U32): Cond
    requires IsBranchWord(w)
  {
    if Op(w) == 0x04 then Beq else if Op(w) == 0x05 then Bne else if Op(w) == 0x06 then Blez
    else if Op(w) == 0x07 then Bgtz else if Rt(w) == 0x00 then Bltz else Bgez
  }

  /** The six conditional branches. */
  predicate IsBranchWord(w: U32) {
    0x04 <= Op(w) <= 0x07 || (Op(w) == 0x01 && Rt(w) in {0x00, 0x01})
  }

  lemma BranchDecodes(w: U32, t: int)
    requires IsBranchWord(w)
    ensures Translate(w, t) == TranslateBranch(BranchCond(w), w, t)
    ensures var cond := BranchCond(w);
            Decode(t, w) == CondBranch(cond, Rs(w), if cond.Beq? || cond.Bne? then Rt(w) else 0, Wrap(MipsWord.BranchTarget(t, w)))
  {
    hide MipsWord.JumpTarget, MipsWord.BranchTarget, SignExtended, ZeroExtended, TranslateBranch, Rs, Rt;
  }

  /** The words on which the emitted order is exact: conditional branches, J, JR and JALR. */
  predicate LatchedKind(k: Kind) { !k.KindJal? && !k.KindRfe? }

  lemma TerminatorWords(w: U32, t: int)
    requires Translate(w, t).Terminator? && LatchedKind(Translate(w, t).kind)
    ensures IsBranchWord(w) || Op(w) == 0x02 || (Op(w) == 0 && (Funct(w) == 0x08 || Funct(w) == 0x09))
  {
    hide MipsWord.JumpTarget, MipsWord.BranchTarget, SignExtended, ZeroExtended, Rs, Rd, Rt;
  }

  lemma TerminatorTransfers(gte: Gte, w: U32, t: int, f: Frame, c: Cpu) returns (g: Frame)
    requires Translate(w, t).Terminator? && LatchedKind(Translate(w, t).kind)
    ensures Prepares(gte, w, t, f, g) && Transfers(gte, w, t, f, g, c)
  {
    hide Prepares, Transfers;
    TerminatorWords(w, t);
    if IsBranchWord(w) {
      BranchDecodes(w, t);
      g := BranchTransfers(gte, BranchCond(w), w, t, f, c);
    } else if Op(w) == 0x02 {
      g := JumpTransfers(gte, w, t, f, c);
    } else {
      g := RegisterJumpTransfers(gte, w, t, f, c);
    }
  }

  lemma StepControl(gte: Gte, img: Image, c: Cpu, pc: int, npc: int)
    requires IsControl(Decode(pc, CodeOf(img, pc)))
    ensures var ins := Decode(pc, CodeOf(img, pc));
            Step(gte, Code(img), Running(c, pc, npc)) == Running(Linked(ins, pc, c), npc, Destination(ins, pc, c))
  {
    hide Exec, Decode, CodeOf, Linked, Destination;
  }

  lemma TwoSteps(gte: Gte, code: int -> U32, m: Machine)
    ensures Run(gte, code, m, 2) == Step(gte, code, Step(gte, code, m))
  {
    hide Step;
    assert Run(gte, code, Step(gte, code, m), 1) == Run(gte, code, Step(gte, code, Step(gte, code, m)), 0);
  }

  /** Snapshot, delay slot, transfer, in this order, do what the branch and its slot do. */
  lemma EndingRuns(gte: Gte, img: Image, t: int, tail: seq<EmittedInstr>, kind: Kind, target: int, c: Cpu, f: Frame)
    requires IsEnding(img, t, tail, kind, target) && LatchedKind(kind) && f.cpu == c
    requires AgreesAlong(gte, img, Running(c, t, t + 4), 2)
    ensures SameState(RunEntries(gte, tail, f), Run(gte, Code(img), Running(c, t, t + 4), 2))
  {
    var w, d := WordAt(img, t).value, WordAt(img, t + 4).value;
    var tr, slot := Translate(w, t), Translate(d, t + 4).stmt;
    assert CodeOf(img, t) == w && CodeOf(img, t + 4) == d;
    var ins := Decode(t, w);
    var g := TerminatorTransfers(gte, w, t, f, c);
    assert IsControl(ins) && g.cpu == Linked(ins, t, c);
    StepControl(gte, img, c, t, t + 4);
    var c1, dest := Linked(ins, t, c), Destination(ins, t, c);
    assert AgreesAlong(gte, img, Running(c1, t + 4, dest), 1);
    var es := EmittedInstr(t + 4, d, [slot]);
    PlainStep(gte, img, es, c1, dest, g);
    TwoSteps(gte, Code(img), Running(c, t, t + 4));
    var effect := Exec(gte, Decode(t + 4, d), c1);
    SnapshotRuns(gte, t, w, d, slot, tr, f, g);
    if effect.Next? {
      var h := TerminatorTransfers(gte, w, t, f, effect.cpu);
      assert h == g;
    }
  }

  /** The ending's entries, unrolled. */
  lemma SnapshotRuns(gte: Gte, t: int, w: U32, d: U32, slot: CStmt, tr: TranslateResult, f: Frame, g: Frame)
    requires tr.Terminator? && RunCode(gte, tr.pre, f) == Fall(g)
    ensures RunEntries(gte, EndingOf(t, w, tr.pre, d, slot, tr.code), f)
            == ThenEntries(gte, RunCode(gte, [slot], g), [EmittedInstr(t, w, tr.code)])
  {
    hide RunCode;
    var last := [EmittedInstr(t, w, tr.code)];
    var es := EmittedInstr(t + 4, d, [slot]);
    RunFirstEntry(gte, es, last, g);
    assert [es] + last == [es, EmittedInstr(t, w, tr.code)];
    if tr.pre == [] {
      EmptyCode(gte, f);
      assert EndingOf(t, w, tr.pre, d, slot, tr.code) == [es] + last;
    } else {
      var ep := EmittedInstr(t, w, tr.pre);
      RunFirstEntry(gte, ep, [es] + last, f);
      assert EndingOf(t, w, tr.pre, d, slot, tr.code) == [ep] + ([es] + last);
    }
  }

  lemma EmptyCode(gte: Gte, f: Frame)
    ensures RunCode(gte, [], f) == Fall(f)
  {
  }

  // ---- Whole slices ------------------------------------------------------------------------------

  lemma {:induction false} RunSplits(gte: Gte, code: int -> U32, m: Machine, a: nat, b: nat)
    ensures Run(gte, code, m, a + b) == Run(gte, code, Run(gte, code, m, a), b)
    decreases a
  {
    hide Step;
    if a > 0 {
      RunSplits(gte, code, Step(gte, code, m), a - 1, b);
    }
  }

  lemma {:induction false} AgreesSplits(gte: Gte, img: Image, m: Machine, a: nat, b: nat)
    requires AgreesAlong(gte, img, m, a + b)
    ensures AgreesAlong(gte, img, m, a) && AgreesAlong(gte, img, Run(gte, Code(img), m, a), b)
    decreases a
  {
    hide Step, Agrees, Decode;
    if a > 0 {
      AgreesSplits(gte, img, Step(gte, Code(img), m), a - 1, b);
    }
  }

  /** The slice theorem: a slice that walked without failure up to a conditional branch, J, JR or
      JALR leaves the registers, memory and program counter the R3000A has after the delay slot,
      from any state, whatever the slot writes, as long as no instruction on the way is one whose
      translation deviates. */
  lemma SliceRunsLikeMachine(gte: Gte, img: Image, start: int, r: WalkResult, body: seq<EmittedInstr>, stop: int, c: Cpu, f: Frame)
    requires IsRom(img) && Reports(img, start, r, body, stop) && 0 <= start
    requires r.ok && r.termination.Ended? && LatchedKind(r.termination.kind)
    requires f.cpu == c && AgreesAlong(gte, img, Running(c, start, start + 4), |body| + 2)
    ensures SameState(RunEntries(gte, r.emitted, f), Run(gte, Code(img), Running(c, start, start + 4), |body| + 2))
  {
    hide Step, Agrees, Decode, RunCode, Translate, AllAccounted, FailureIsReal, IsPlainEntry;
    var m, tail := Running(c, start, start + 4), r.emitted[|body|..];
    EndingInRom(img, stop, tail, r.termination.kind, r.target);
    AgreesSplits(gte, img, m, |body|, 2);
    RunSplits(gte, Code(img), m, |body|, 2);
    BodyRuns(gte, img, body, tail, start, c, f);
    assert body + tail == r.emitted;
    var mid := Run(gte, Code(img), m, |body|);
    if mid.Running? {
      EndingRuns(gte, img, stop, tail, r.termination.kind, r.target, mid.cpu, f.(cpu := mid.cpu));
    } else {
      StoppedStays(gte, Code(img), mid, 2);
    }
  }

  lemma EndingInRom(img: Image, t: int, tail: seq<EmittedInstr>, kind: Kind, target: int)
    requires IsRom(img) && IsEnding(img, t, tail, kind, target)
    ensures t + 8 <= img.Hi() < 0x1_0000_0000
  {
    hide Translate;
  }

  /** A slice cut off by the size limit runs its words and falls through where the machine is. */
  lemma CutOffSliceRuns(gte: Gte, img: Image, start: int, r: WalkResult, body: seq<EmittedInstr>, stop: int, c: Cpu, f: Frame)
    requires IsRom(img) && Reports(img, start, r, body, stop) && 0 <= start && stop + 4 < 0x1_0000_0000
    requires r.ok && r.termination.SizeLimit?
    requires f.cpu == c && AgreesAlong(gte, img, Running(c, start, start + 4), |body|)
    ensures InStep(gte, RunEntries(gte, r.emitted, f), [], f, Run(gte, Code(img), Running(c, start, start + 4), |body|), stop)
  {
    hide Step, Agrees, Decode, RunCode, Translate, AllAccounted, FailureIsReal, IsPlainEntry;
    BodyRuns(gte, img, body, [], start, c, f);
    assert body + [] == r.emitted;
  }

  /** SUB, SWL and SWR: the only instructions whose translation can deviate. */
  predicate CanDeviate(ins: Instr) {
    ins.SubTrap? || ins.StoreLeft? || ins.StoreRight?
  }

  function InstrAt(img: Image, a: int): Instr { Decode(a, CodeOf(img, a)) }

  /** A stretch of n words without them agrees from every state. */
  lemma {:induction false} HarmlessWordsAgree(gte: Gte, img: Image, c: Cpu, start: int, n: nat)
    requires forall i :: 0 <= i < n ==> !CanDeviate(InstrAt(img, start + 4 * i))
    requires forall i :: 0 <= i < n - 2 ==> !IsControl(InstrAt(img, start + 4 * i))
    requires 0 <= start && start + 4 * n < 0x1_0000_0000
    ensures AgreesAlong(gte, img, Running(c, start, start + 4), n)
    decreases n
  {
    hide Decode, Exec, CodeOf, CanDeviate, Agrees, Step;
    if n > 0 {
      var next := Step(gte, Code(img), Running(c, start, start + 4));
      assert !CanDeviate(InstrAt(img, start + 4 * 0));
      HarmlessAgrees(InstrAt(img, start), c);
      if next.Stopped? {
        StoppedAgrees(gte, img, next, n - 1);
      } else if n <= 2 {
        StepMovesOn(gte, img, c, start, start + 4);
        if n == 2 {
          assert !CanDeviate(InstrAt(img, start + 4 * 1));
          HarmlessAgrees(InstrAt(img, start + 4), next.cpu);
          assert AgreesAlong(gte, img, Step(gte, Code(img), next), 0);
        }
      } else {
        assert !IsControl(InstrAt(img, start + 4 * 0));
        StepPlain(gte, img, c, start, start + 4);
        assert forall i :: 0 <= i < n - 1 ==> start + 4 + 4 * i == start + 4 * (i + 1);
        forall i | 0 <= i < n - 1
          ensures !CanDeviate(InstrAt(img, start + 4 + 4 * i))
          ensures i < n - 3 ==> !IsControl(InstrAt(img, start + 4 + 4 * i))
        {
          assert !CanDeviate(InstrAt(img, start + 4 * (i + 1)));
          assert i < n - 3 ==> !IsControl(InstrAt(img, start + 4 * (i + 1)));
        }
        HarmlessWordsAgree(gte, img, next.cpu, start + 4, n - 1);
      }
    }
  }

  lemma HarmlessAgrees(ins: Instr, c: Cpu)
    requires !CanDeviate(ins)
    ensures Agrees(ins, c)
  {
  }

  lemma StepMovesOn(gte: Gte, img: Image, c: Cpu, pc: int, npc: int)
    ensures var next := Step(gte, Code(img), Running(c, pc, npc)); next.Running? ==> next.pc == npc
  {
    hide Exec, Decode, CodeOf, Destination, Linked;
  }

  lemma {:induction false} StoppedAgrees(gte: Gte, img: Image, m: Machine, n: nat)
    requires m.Stopped?
    ensures AgreesAlong(gte, img, m, n)
    decreases n
  {
    if n > 0 {
      StoppedAgrees(gte, img, m, n - 1);
    }
  }
}
