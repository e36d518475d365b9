/**
 The bounded linear walk of a BIOS slice (psxrecomp/recompiler/src/bios_slice_walker.cpp): emits
 straight-line code up to the first terminator, whose delay slot is emitted before it.
 */
module SliceWalker {
  import opened Wrappers
  import opened MipsWord
  import opened OverlayImage
  import opened R3000
  import opened StrictTranslator

  datatype EmittedInstr = EmittedInstr(address: int, raw: U32, code: seq<CStmt>)

  datatype Why = Untranslatable | SlotUntranslatable(owner: int) | SlotIsTerminator(owner: int)

  datatype UnsupportedEntry = UnsupportedEntry(address: int, raw: U32, why: Why)

  datatype Termination = SizeLimit | Ended(kind: Kind)

  datatype WalkResult = WalkResult(
    ok: bool,
    emitted: seq<EmittedInstr>,
    unsupported: seq<UnsupportedEntry>,
    startAddr: int, endAddr: int,
    instructionCount: int,
    termination: Termination,
    target: int)

  /** A finished walk, or one of the walker's exceptions. */
  datatype Outcome = Walked(r: WalkResult) | Thrown

  /** The ROM as an image; it ends below the top of the 32-bit address space. */
  predicate IsRom(img: Image) {
    img.size == |img.data| && 0 <= img.load && img.Hi() < 0x1_0000_0000
  }

  ghost predicate IsPlainEntry(img: Image, e: EmittedInstr) {
    && WordAt(img, e.address) == Some(e.raw)
    && Translate(e.raw, e.address).Plain?
    && e.code == [Translate(e.raw, e.address).stmt]
  }

  /** The entries of a terminator at t: snapshot if there is one, delay slot, transfer. */
  ghost predicate IsEnding(img: Image, t: int, tail: seq<EmittedInstr>, kind: Kind, target: int) {
    && WordAt(img, t).Some? && WordAt(img, t + 4).Some?
    && var w, d := WordAt(img, t).value, WordAt(img, t + 4).value;
    && Translate(w, t).Terminator? && Translate(d, t + 4).Plain?
    && kind == Translate(w, t).kind && target == Translate(w, t).target
    && tail == EndingOf(t, w, Translate(w, t).pre, d, Translate(d, t + 4).stmt, Translate(w, t).code)
  }

  function EndingOf(t: int, w: U32, pre: seq<CStmt>, d: U32, slot: CStmt, code: seq<CStmt>): seq<EmittedInstr> {
    (if pre == [] then [] else [EmittedInstr(t, w, pre)])
    + [EmittedInstr(t + 4, d, [slot]), EmittedInstr(t, w, code)]
  }

  /** Plain entries in walking order, inside the walked range. */
  ghost predicate IsBody(img: Image, body: seq<EmittedInstr>, start: int, stop: int) {
    && (forall i :: 0 <= i < |body| ==> IsPlainEntry(img, body[i]) && start <= body[i].address < stop)
    && (forall i, j :: 0 <= i < j < |body| ==> body[i].address < body[j].address)
  }

  /** Why a word before the end of the walk is not missing. */
  ghost predicate WordAccounted(body: seq<EmittedInstr>, unsupported: seq<UnsupportedEntry>, a: int) {
    || (exists i :: 0 <= i < |body| && body[i].address == a)
    || (exists i :: 0 <= i < |unsupported| && unsupported[i].address == a)
    || (exists i :: 0 <= i < |unsupported| && unsupported[i].address == a + 4
                    && unsupported[i].why in {SlotUntranslatable(a), SlotIsTerminator(a)})
  }

  ghost predicate AllAccounted(body: seq<EmittedInstr>, unsupported: seq<UnsupportedEntry>, start: int, stop: int) {
    forall a :: start <= a < stop && (a - start) % 4 == 0 ==> WordAccounted(body, unsupported, a)
  }

  /** Every recorded failure is one: the word does not translate, or it is the slot of a
      terminator and does not translate or is itself a terminator. */
  ghost predicate FailureIsReal(img: Image, u: UnsupportedEntry) {
    && WordAt(img, u.address) == Some(u.raw)
    && match u.why
       case Untranslatable => Translate(u.raw, u.address).Unsupported?
       case SlotUntranslatable(t) => t == u.address - 4 && Translate(u.raw, u.address).Unsupported?
       case SlotIsTerminator(t) => t == u.address - 4 && Translate(u.raw, u.address).Terminator?
  }

  /** The failures of a walk, in walking order, inside the walked range. */
  ghost predicate AreFailures(img: Image, unsupported: seq<UnsupportedEntry>, start: int, stop: int) {
    && (forall i :: 0 <= i < |unsupported| ==> FailureIsReal(img, unsupported[i]) && start <= unsupported[i].address < stop)
    && (forall i, j :: 0 <= i < j < |unsupported| ==> unsupported[i].address < unsupported[j].address)
  }

  lemma FailuresGrow(img: Image, unsupported: seq<UnsupportedEntry>, start: int, stop: int, u: UnsupportedEntry, next: int)
    requires AreFailures(img, unsupported, start, stop) && FailureIsReal(img, u)
    requires start <= stop <= u.address < next
    ensures AreFailures(img, unsupported + [u], start, next)
  {
    hide FailureIsReal;
  }

  lemma FailuresWiden(img: Image, unsupported: seq<UnsupportedEntry>, start: int, stop: int, next: int)
    requires AreFailures(img, unsupported, start, stop) && stop <= next
    ensures AreFailures(img, unsupported, start, next)
  {
    hide FailureIsReal;
  }

  /** Without failures the body is the unbroken run of words from the start. */
  ghost predicate Unbroken(body: seq<EmittedInstr>, start: int, stop: int) {
    stop == start + 4 * |body| && forall i :: 0 <= i < |body| ==> body[i].address == start + 4 * i
  }

  lemma BodyGrows(img: Image, body: seq<EmittedInstr>, start: int, stop: int, e: EmittedInstr)
    requires IsBody(img, body, start, stop) && IsPlainEntry(img, e) && start <= stop && e.address == stop
    ensures IsBody(img, body + [e], start, stop + 4)
  {
  }

  lemma BodyWidens(img: Image, body: seq<EmittedInstr>, start: int, stop: int, next: int)
    requires IsBody(img, body, start, stop) && stop <= next
    ensures IsBody(img, body, start, next)
  {
    hide IsPlainEntry;
  }

  lemma AccountGrows(body: seq<EmittedInstr>, unsupported: seq<UnsupportedEntry>, more: seq<EmittedInstr>, failed: seq<UnsupportedEntry>, start: int, stop: int, next: int)
    requires AllAccounted(body, unsupported, start, stop)
    requires start <= stop <= next && (stop - start) % 4 == 0
    requires forall a :: stop <= a < next && (a - start) % 4 == 0 ==> WordAccounted(body + more, unsupported + failed, a)
    ensures AllAccounted(body + more, unsupported + failed, start, next)
  {
    forall a | start <= a < next && (a - start) % 4 == 0
      ensures WordAccounted(body + more, unsupported + failed, a)
    {
      if a < stop {
        assert WordAccounted(body, unsupported, a);
        AccountKept(body, unsupported, more, failed, a);
      }
    }
  }

  lemma AccountKept(body: seq<EmittedInstr>, unsupported: seq<UnsupportedEntry>, more: seq<EmittedInstr>, failed: seq<UnsupportedEntry>, a: int)
    requires WordAccounted(body, unsupported, a)
    ensures WordAccounted(body + more, unsupported + failed, a)
  {
    if i :| 0 <= i < |body| && body[i].address == a {
      assert (body + more)[i].address == a;
    } else if i :| 0 <= i < |unsupported| && unsupported[i].address == a {
      assert (unsupported + failed)[i].address == a;
    } else {
      var i :| 0 <= i < |unsupported| && unsupported[i].address == a + 4
               && unsupported[i].why in {SlotUntranslatable(a), SlotIsTerminator(a)};
      assert (unsupported + failed)[i] == unsupported[i];
    }
  }

  /** What a finished walk reports.  body and stop are not part of the result: the entries before
      the ending, and the address where the walk ended. */
  ghost predicate Reports(img: Image, start: int, r: WalkResult, body: seq<EmittedInstr>, stop: int) {
    && r.startAddr == start && start <= stop
    && (r.ok <==> r.unsupported == [])
    && AreFailures(img, r.unsupported, start, stop)
    && IsBody(img, body, start, stop)
    && AllAccounted(body, r.unsupported, start, stop)
    && (r.ok ==> Unbroken(body, start, stop))
    && r.instructionCount == |r.emitted|
    && match r.termination
       case SizeLimit =>
         r.emitted == body && r.target == 0
         && r.endAddr == if body == [] then Wrap(stop - 4) else body[|body| - 1].address
       case Ended(kind) =>
         body <= r.emitted && IsEnding(img, stop, r.emitted[|body|..], kind, r.target) && r.endAddr == stop + 4
  }

  /** The loop's own invariant. */
  ghost predicate Walking(img: Image, start: int, pc: int, body: seq<EmittedInstr>, unsupported: seq<UnsupportedEntry>) {
    && start <= pc <= img.Hi() && (pc - start) % 4 == 0
    && IsBody(img, body, start, pc)
    && AllAccounted(body, unsupported, start, pc)
    && AreFailures(img, unsupported, start, pc)
    && (unsupported == [] ==> Unbroken(body, start, pc))
  }

  lemma EmittedAccounted(body: seq<EmittedInstr>, unsupported: seq<UnsupportedEntry>, e: EmittedInstr, start: int, pc: int)
    requires AllAccounted(body, unsupported, start, pc) && start <= pc == e.address && (pc - start) % 4 == 0
    ensures AllAccounted(body + [e], unsupported, start, pc + 4)
  {
    forall a | pc <= a < pc + 4 && (a - start) % 4 == 0
      ensures WordAccounted(body + [e], unsupported + [], a)
    {
      assert (body + [e])[|body|].address == a;
    }
    hide WordAccounted;
    AccountGrows(body, unsupported, [e], [], start, pc, pc + 4);
    assert unsupported + [] == unsupported;
  }

  lemma Emits(img: Image, start: int, pc: int, body: seq<EmittedInstr>, unsupported: seq<UnsupportedEntry>, e: EmittedInstr)
    requires Walking(img, start, pc, body, unsupported) && pc + 4 <= img.Hi()
    requires IsPlainEntry(img, e) && e.address == pc
    ensures Walking(img, start, pc + 4, body + [e], unsupported)
  {
    hide Translate, WordAt, IsPlainEntry, AreFailures, AllAccounted, IsBody;
    BodyGrows(img, body, start, pc, e);
    FailuresWiden(img, unsupported, start, pc, pc + 4);
    EmittedAccounted(body, unsupported, e, start, pc);
  }

  lemma Fails(img: Image, start: int, pc: int, next: int, body: seq<EmittedInstr>, unsupported: seq<UnsupportedEntry>, u: UnsupportedEntry)
    requires Walking(img, start, pc, body, unsupported) && next <= img.Hi() && FailureIsReal(img, u)
    requires || (next == pc + 4 && u.address == pc)
             || (next == pc + 8 && u.address == pc + 4 && u.why in {SlotUntranslatable(pc), SlotIsTerminator(pc)})
    ensures Walking(img, start, next, body, unsupported + [u])
  {
    hide FailureIsReal;
    BodyWidens(img, body, start, pc, next);
    FailuresGrow(img, unsupported, start, pc, u, next);
    hide IsBody, AreFailures;
    forall a | pc <= a < next && (a - start) % 4 == 0
      ensures WordAccounted(body + [], unsupported + [u], a)
    {
      assert (unsupported + [u])[|unsupported|] == u;
      assert a == pc || a == pc + 4;
    }
    hide WordAccounted;
    AccountGrows(body, unsupported, [], [u], start, pc, next);
    assert body + [] == body;
  }

  /** Where a walk ends: at its size limit, at a terminator with a translatable slot, or past the end
      of the ROM, which it refuses. */
  datatype Stop = AtLimit(pc: int) | AtEnding(pc: int) | RanOff

  function StopOf(img: Image, walkEnd: int, pc: int): Stop
    decreases img.Hi() - pc
  {
    if pc >= walkEnd then AtLimit(pc)
    else if pc + 4 > img.Hi() || WordAt(img, pc).None? then RanOff
    else
      var tr := Translate(WordAt(img, pc).value, pc);
      if !tr.Terminator? then StopOf(img, walkEnd, pc + 4)
      else if pc + 8 > img.Hi() || WordAt(img, pc + 4).None? then RanOff
      else if Translate(WordAt(img, pc + 4).value, pc + 4).Plain? then AtEnding(pc)
      else StopOf(img, walkEnd, pc + 8)
  }

  /** The outcome that fits the end of the walk. */
  predicate EndsAs(end: Stop, out: Outcome, stop: int) {
    match end
    case RanOff => out.Thrown?
    case AtLimit(pc) => out.Walked? && out.r.termination.SizeLimit? && stop == pc
    case AtEnding(pc) => out.Walked? && out.r.termination.Ended? && stop == pc
  }

  method Walk(img: Image, start: U32, maxBytes: U32) returns (out: Outcome, ghost body: seq<EmittedInstr>, ghost stop: int)
    requires IsRom(img)
    ensures start < img.load || start >= img.Hi() ==> out.Thrown?
    ensures img.load <= start < img.Hi() ==> EndsAs(StopOf(img, Wrap(start + maxBytes), start), out, stop)
    ensures out.Walked? ==> img.load <= start < img.Hi() && Reports(img, start, out.r, body, stop)
  {
    hide Translate, WordAt, AllAccounted, IsBody, FailureIsReal, AreFailures;
    body, stop := [], start;
    var emitted: seq<EmittedInstr>, unsupported: seq<UnsupportedEntry> := [], [];
    if start < img.load || start >= img.Hi() {
      return Thrown, body, stop;
    }
    var walkEnd := Wrap(start + maxBytes);
    var pc := start;
    StartsEmpty(img, start);
    while pc < walkEnd
      invariant Walking(img, start, pc, emitted, unsupported)
      invariant StopOf(img, walkEnd, pc) == StopOf(img, walkEnd, start)
      decreases img.Hi() - pc
    {
      var raw := WordAt(img, pc);
      if pc + 4 > img.Hi() || raw.None? {
        return Thrown, body, stop;
      }
      var tr := Translate(raw.value, pc);
      if tr.Unsupported? {
        var u := UnsupportedEntry(pc, raw.value, Untranslatable);
        RealFailure(img, u);
        Fails(img, start, pc, pc + 4, emitted, unsupported, u);
        unsupported, pc := unsupported + [u], pc + 4;
        continue;
      }
      if tr.Terminator? {
        var delayPc := pc + 4;
        var delayRaw := WordAt(img, delayPc);
        if delayPc + 4 > img.Hi() || delayRaw.None? {
          return Thrown, body, stop;
        }
        var delayTr := Translate(delayRaw.value, delayPc);
        if !delayTr.Plain? {
          var u := UnsupportedEntry(delayPc, delayRaw.value, if delayTr.Unsupported? then SlotUntranslatable(pc) else SlotIsTerminator(pc));
          RealFailure(img, u);
          Fails(img, start, pc, pc + 8, emitted, unsupported, u);
          unsupported, pc := unsupported + [u], pc + 8;
          continue;
        }
        body, stop := emitted, pc;
        if tr.pre != [] {
          emitted := emitted + [EmittedInstr(pc, raw.value, tr.pre)];
        }
        emitted := emitted + [EmittedInstr(delayPc, delayRaw.value, [delayTr.stmt])];
        emitted := emitted + [EmittedInstr(pc, raw.value, tr.code)];
        assert emitted[|body|..] == EndingOf(pc, raw.value, tr.pre, delayRaw.value, delayTr.stmt, tr.code);
        out := Walked(WalkResult(unsupported == [], emitted, unsupported, start, delayPc, |emitted|, Ended(tr.kind), tr.target));
        return;
      }
      var e := EmittedInstr(pc, raw.value, [tr.stmt]);
      Emits(img, start, pc, emitted, unsupported, e);
      emitted, pc := emitted + [e], pc + 4;
    }
    body, stop := emitted, pc;
    var endAddr := if emitted == [] then Wrap(pc - 4) else emitted[|emitted| - 1].address;
    out := Walked(WalkResult(unsupported == [], emitted, unsupported, start, endAddr, |emitted|, SizeLimit, 0));
  }

  lemma StartsEmpty(img: Image, start: int)
    requires img.load <= start < img.Hi()
    ensures Walking(img, start, start, [], [])
  {
  }

  lemma {:induction false} StopsBehind(img: Image, walkEnd: int, pc: int)
    ensures match StopOf(img, walkEnd, pc)
            case AtLimit(p) => p >= pc && p >= walkEnd
            case AtEnding(p) => pc <= p < walkEnd
            case RanOff => pc < walkEnd
    decreases img.Hi() - pc
  {
    hide Translate;
    if pc < walkEnd && pc + 4 <= img.Hi() && WordAt(img, pc).Some? {
      var tr := Translate(WordAt(img, pc).value, pc);
      if !tr.Terminator? {
        StopsBehind(img, walkEnd, pc + 4);
      } else if pc + 8 <= img.Hi() && WordAt(img, pc + 4).Some? {
        StopsBehind(img, walkEnd, pc + 8);
      }
    }
    hide WordAt;
  }

  /** A walk emits nothing and is ok exactly when it has no bytes: its size is zero, or its end wraps
      past the top of the address space. */
  lemma EmptyWalkIsOk(img: Image, start: U32, maxBytes: U32, out: Outcome, body: seq<EmittedInstr>, stop: int)
    requires IsRom(img) && img.load <= start < img.Hi()
    requires EndsAs(StopOf(img, Wrap(start + maxBytes), start), out, stop)
    requires out.Walked? ==> Reports(img, start, out.r, body, stop)
    ensures out.Walked? && out.r.ok && out.r.emitted == [] <==> maxBytes == 0 || start + maxBytes >= 0x1_0000_0000
  {
    hide StopOf, AllAccounted, IsPlainEntry, Translate, WordAt, FailureIsReal;
    var walkEnd := Wrap(start + maxBytes);
    EndsBefore(start, maxBytes);
    StopsBehind(img, walkEnd, start);
    if walkEnd <= start {
      NoBytes(img, walkEnd, start);
      NothingInside(img, start, out.r.unsupported, body);
    }
    hide Wrap;
  }

  lemma NoBytes(img: Image, walkEnd: int, start: int)
    requires walkEnd <= start
    ensures StopOf(img, walkEnd, start) == AtLimit(start)
  {
    hide Translate, WordAt;
  }

  lemma NothingInside(img: Image, start: int, unsupported: seq<UnsupportedEntry>, body: seq<EmittedInstr>)
    requires AreFailures(img, unsupported, start, start) && IsBody(img, body, start, start)
    ensures unsupported == [] && body == []
  {
    hide AreFailures, IsBody;
    if unsupported != [] {
      FailureInside(img, unsupported, start, start);
    } else if body != [] {
      EntryInside(img, body, start, start);
    }
  }

  lemma FailureInside(img: Image, unsupported: seq<UnsupportedEntry>, start: int, stop: int)
    requires AreFailures(img, unsupported, start, stop) && unsupported != []
    ensures start < stop
  {
    hide FailureIsReal;
    assert start <= unsupported[0].address < stop;
  }

  lemma EntryInside(img: Image, body: seq<EmittedInstr>, start: int, stop: int)
    requires IsBody(img, body, start, stop) && body != []
    ensures start < stop
  {
    hide IsPlainEntry;
    assert start <= body[0].address < stop;
  }

  lemma EndsBefore(start: U32, maxBytes: U32)
    ensures Wrap(start + maxBytes) <= start <==> maxBytes == 0 || start + maxBytes >= 0x1_0000_0000
  {
  }

  lemma RealFailure(img: Image, u: UnsupportedEntry)
    requires WordAt(img, u.address) == Some(u.raw)
    requires u.why.Untranslatable? ==> Translate(u.raw, u.address).Unsupported?
    requires u.why.SlotUntranslatable? ==> u.why.owner == u.address - 4 && Translate(u.raw, u.address).Unsupported?
    requires u.why.SlotIsTerminator? ==> u.why.owner == u.address - 4 && Translate(u.raw, u.address).Terminator?
    ensures FailureIsReal(img, u)
  {
    hide Translate, WordAt;
  }

  /** No address is emitted twice, but for a terminator with a snapshot, which is emitted first as
      its snapshot and again as its transfer, around its delay slot. */
  lemma EmittedOnce(img: Image, start: int, r: WalkResult, body: seq<EmittedInstr>, stop: int, i: nat, j: nat)
    requires Reports(img, start, r, body, stop) && i < j < |r.emitted|
    requires r.emitted[i].address == r.emitted[j].address
    ensures r.termination.Ended? && i == |body| && j == i + 2 && |r.emitted| == j + 1
    ensures r.emitted[i].address == stop && Translate(r.emitted[i].raw, stop).Terminator?
    ensures r.emitted[i].code == Translate(r.emitted[i].raw, stop).pre != []
  {
    hide Translate, WordAt, AllAccounted, FailureIsReal;
    assert forall k :: 0 <= k < |body| ==> r.emitted[k] == body[k];
    var tail := r.emitted[|body|..];
    assert forall k :: |body| <= k < |r.emitted| ==> r.emitted[k] == tail[k - |body|];
  }
}
