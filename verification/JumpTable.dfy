/**
 The backward scan that recognises the compiler's bounded jump-table idiom in front of a
 `jr reg` (psxrecomp/tools/compile_overlays.py, _find_jump_table_targets).
 */
module JumpTable {
  import opened Wrappers
  import opened MipsWord
  import opened OverlayImage

  const SCAN_LIMIT := 40
  const MAX_ENTRIES := 512

  /** What has been recognised so far, walking backwards from the `jr`. */
  datatype Scan = Scan(
    lwBase: Option<int>, lwOffset: int,
    addends: Option<(int, int)>,
    lui: Option<int>,
    addiu0: Option<int>, addiu1: Option<int>,
    count: int)

  const NOTHING := Scan(None, 0, None, None, None, None, 0)

  /** The scan state after one more word, or None when the scan stops there. */
  function Absorb(st: Scan, jrRs: int, w: U32): Option<Scan> {
    if Op(w) == 0x23 && Rt(w) == jrRs && st.lwBase.None? then
      Some(st.(lwBase := Some(Rs(w)), lwOffset := SImm(w)))
    else if Op(w) == 0 && Funct(w) == 0x21 && st.lwBase == Some(Rd(w)) && st.addends.None? then
      Some(st.(addends := Some((Rs(w), Rt(w)))))
    else if Op(w) == 0x09 && st.addends.Some? then
      if st.addiu0.None? && Rs(w) == Rt(w) == st.addends.value.0 then Some(st.(addiu0 := Some(SImm(w))))
      else if st.addiu1.None? && Rs(w) == Rt(w) == st.addends.value.1 then Some(st.(addiu1 := Some(SImm(w))))
      else Some(st)
    else if Op(w) == 0x0F && st.addends.Some? && st.lui.None? then
      if Rt(w) == st.addends.value.0 then Some(st.(lui := Some(Imm(w) * 0x1_0000)))
      else if Rt(w) == st.addends.value.1 then Some(st.(lui := Some(Imm(w) * 0x1_0000), addiu0 := st.addiu1))
      else Some(st)
    else if Op(w) == 0x0B && st.count == 0 then
      Some(st.(count := Imm(w)))
    else if st.lui.Some? && st.count != 0 then None
    else Some(st)
  }

  /** The state of the scan that resumes `back` words before the `jr`. */
  function ScanBack(img: Image, entry: int, jrPc: int, jrRs: int, back: nat, st: Scan): Scan
    decreases SCAN_LIMIT + 1 - back
  {
    var addr := jrPc - back * 4;
    if back > SCAN_LIMIT || addr < entry then st
    else match WordAt(img, addr)
      case None => st
      case Some(w) =>
        match Absorb(st, jrRs, w)
        case None => st
        case Some(next) => ScanBack(img, entry, jrPc, jrRs, back + 1, next)
  }

  function TableBase(st: Scan): int
    requires st.lui.Some?
  {
    st.lui.value + (if st.addiu0.Some? then st.addiu0.value else 0) + st.lwOffset
  }

  predicate HasTable(st: Scan) {
    st.lui.Some? && 0 < st.count < MAX_ENTRIES
  }

  predicate InWindow(img: Image, entry: int, hardCap: int, t: int) {
    img.load <= t < img.Hi() && entry <= t < hardCap && t % 4 == 0
  }

  /** The i-th table word, when it is an aligned address inside the function. */
  function TableEntry(img: Image, entry: int, hardCap: int, base: int, i: int): Option<int> {
    var w := WordAt(img, base + i * 4);
    if w.Some? && InWindow(img, entry, hardCap, w.value) then Some(w.value) else None
  }

  function TableTargets(img: Image, entry: int, hardCap: int, base: int, count: int): set<int> {
    set i | 0 <= i < count && TableEntry(img, entry, hardCap, base, i).Some?
      :: TableEntry(img, entry, hardCap, base, i).value
  }

  function TargetsOf(img: Image, entry: int, hardCap: int, st: Scan): set<int> {
    if HasTable(st) then TableTargets(img, entry, hardCap, TableBase(st), st.count) else {}
  }

  function JumpTableTargets(img: Image, entry: int, hardCap: int, jrPc: int, jrRs: int): set<int> {
    TargetsOf(img, entry, hardCap, ScanBack(img, entry, jrPc, jrRs, 1, NOTHING))
  }

  method ScanIdiom(img: Image, entry: int, jrPc: int, jrRs: int) returns (st: Scan)
    ensures st == ScanBack(img, entry, jrPc, jrRs, 1, NOTHING)
  {
    st := NOTHING;
    var back := 1;
    while back <= SCAN_LIMIT
      invariant 1 <= back <= SCAN_LIMIT + 1
      invariant ScanBack(img, entry, jrPc, jrRs, back, st) == ScanBack(img, entry, jrPc, jrRs, 1, NOTHING)
    {
      var addr := jrPc - back * 4;
      if addr < entry { break; }
      var w := WordAt(img, addr);
      if w.None? { break; }
      var next := Absorb(st, jrRs, w.value);
      if next.None? { break; }
      st := next.value;
      back := back + 1;
    }
  }

  method CollectTargets(img: Image, entry: int, hardCap: int, base: int, count: nat) returns (targets: set<int>)
    ensures targets == TableTargets(img, entry, hardCap, base, count)
  {
    targets := {};
    for i := 0 to count
      invariant targets == TableTargets(img, entry, hardCap, base, i)
    {
      var t := TableEntry(img, entry, hardCap, base, i);
      if t.Some? {
        targets := targets + {t.value};
      }
    }
  }

  method FindJumpTableTargets(img: Image, entry: int, hardCap: int, jrPc: int, jrRs: int) returns (targets: set<int>)
    ensures targets == JumpTableTargets(img, entry, hardCap, jrPc, jrRs)
  {
    var st := ScanIdiom(img, entry, jrPc, jrRs);
    if !HasTable(st) {
      return {};
    }
    targets := CollectTargets(img, entry, hardCap, TableBase(st), st.count);
  }

  lemma TableFollowsCap(img: Image, entry: int, cap1: int, cap2: int, base: int, count: int, t: int)
    requires cap1 <= cap2
    ensures t in TableTargets(img, entry, cap1, base, count) <==>
            t in TableTargets(img, entry, cap2, base, count) && t < cap1
  {
    if t in TableTargets(img, entry, cap2, base, count) && t < cap1 {
      var i :| 0 <= i < count && TableEntry(img, entry, cap2, base, i) == Some(t);
      assert TableEntry(img, entry, cap1, base, i) == Some(t);
    }
    if t in TableTargets(img, entry, cap1, base, count) {
      var i :| 0 <= i < count && TableEntry(img, entry, cap1, base, i) == Some(t);
      assert TableEntry(img, entry, cap2, base, i) == Some(t);
    }
  }

  /** Raising the cap only lets more targets through. */
  lemma TargetsFollowCap(img: Image, entry: int, cap1: int, cap2: int, jrPc: int, jrRs: int, t: int)
    requires cap1 <= cap2
    ensures t in JumpTableTargets(img, entry, cap1, jrPc, jrRs) <==>
            t in JumpTableTargets(img, entry, cap2, jrPc, jrRs) && t < cap1
  {
    var st := ScanBack(img, entry, jrPc, jrRs, 1, NOTHING);
    if HasTable(st) {
      TableFollowsCap(img, entry, cap1, cap2, TableBase(st), st.count, t);
    }
  }
}
