/** Tuples, commit log statuses, snapshots and the eight visibility rules. */
module Mvcc {

  type Xid = nat

  const INVALID: Xid := 0
  const FROZEN: Xid := 2
  const FIRST_NORMAL: Xid := 3
  const FREEZE_THRESHOLD: nat := 2000000
  const EMERGENCY_STOP: nat := 2146483648

  datatype Status = InProgress | Committed | Aborted | SubCommitted

  type CLog = map<Xid, Status>

  function StatusOf(clog: CLog, x: Xid): Status {
    if x in clog then clog[x] else InProgress
  }

  datatype Value = Null | Int(i: int) | Float(bits: nat) | Bool(b: bool) | Str(s: string)

  type Row = map<string, Value>

  /** The MVCC part of a tuple header; xmin, xmax and cid are unsigned 32-bit words. */
  datatype Header = Header(xmin: Xid, xmax: Xid, cid: nat)

  datatype Tuple = Tuple(hdr: Header, cols: Row)

  datatype Snapshot = Snapshot(xmin: Xid, xmax: Xid, xip: seq<Xid>, curcid: int)

  /** static_cast<int32_t> of an unsigned 32-bit word. */
  function ToInt32(v: nat): int {
    var w := v % 0x1_0000_0000;
    if w < 0x8000_0000 then w else w - 0x1_0000_0000
  }

  /** The signed number with the same 32 bits: itself below 2^31, else less by 2^32. */
  lemma ToInt32Exactly(v: nat)
    ensures -0x8000_0000 <= ToInt32(v) < 0x8000_0000 && (ToInt32(v) - v) % 0x1_0000_0000 == 0
    ensures v < 0x8000_0000 ==> ToInt32(v) == v
    ensures 0x8000_0000 <= v < 0x1_0000_0000 ==> ToInt32(v) == v - 0x1_0000_0000
  {
    var q := v / 0x1_0000_0000;
    assert v == q * 0x1_0000_0000 + v % 0x1_0000_0000;
  }

  /** The eight rules, branch by branch. */
  function Visible(h: Header, me: Xid, snap: Snapshot, curCid: int, clog: CLog): bool {
    if h.xmin == INVALID then true
    else if h.xmin == FROZEN then
      if h.xmax == INVALID then true
      else if h.xmax == me && me != INVALID then false
      else StatusOf(clog, h.xmax) != Committed
    else if h.xmin == me && me != INVALID then
      if ToInt32(h.cid) > curCid then false
      else h.xmax != me
    else if StatusOf(clog, h.xmin) == Aborted then false
    else if StatusOf(clog, h.xmin) == InProgress then false
    else if snap.xmin <= h.xmin < snap.xmax && h.xmin in snap.xip then false
    else if h.xmax == INVALID then true
    else if h.xmax == me && me != INVALID then false
    else StatusOf(clog, h.xmax) != Committed
  }

  /**
   * The rules for any snapshot, old ones included, said at once: nobody's row; the observer's own within its command id
   * and not deleted by itself; or one whose inserter is frozen, or finished and not listed as running by the snapshot,
   * and whose deleter is absent or neither the observer nor committed.
   */
  lemma VisibleExactly(h: Header, me: Xid, snap: Snapshot, curCid: int, clog: CLog)
    ensures Visible(h, me, snap, curCid, clog) <==>
            || h.xmin == 0
            || (h.xmin == me && h.xmin != 2 && ToInt32(h.cid) <= curCid && h.xmax != me)
            || ((h.xmin != me || h.xmin == 2)
                && (h.xmin == 2 || (h.xmin in clog && clog[h.xmin] in {Committed, SubCommitted}
                                    && !(snap.xmin <= h.xmin < snap.xmax && h.xmin in snap.xip)))
                && (h.xmax == 0 || (h.xmax != me && !(h.xmax in clog && clog[h.xmax] == Committed))))
  {
  }

  /** The deleter, if any, is neither the observer nor committed. */
  predicate NotDeleted(h: Header, me: Xid, clog: CLog) {
    h.xmax == INVALID || (h.xmax != me && StatusOf(clog, h.xmax) != Committed)
  }

  predicate InserterFinished(h: Header, clog: CLog) {
    h.xmin == FROZEN || (StatusOf(clog, h.xmin) != Aborted && StatusOf(clog, h.xmin) != InProgress)
  }

  /** What the rules amount to for an observer with a fresh snapshot. */
  predicate SimplyVisible(h: Header, me: Xid, curCid: int, clog: CLog) {
    || h.xmin == INVALID
    || (if h.xmin == me then ToInt32(h.cid) <= curCid && h.xmax != me
        else InserterFinished(h, clog) && NotDeleted(h, me, clog))
  }

  ghost predicate FreshSnapshot(snap: Snapshot, next: Xid, active: set<Xid>) {
    && snap.xmax == next
    && (forall x :: x in snap.xip <==> x in active)
    && (if active == {} then snap.xmin == next
        else snap.xmin in active && forall x | x in active :: snap.xmin <= x)
  }

  /** Active transactions are recorded as running. */
  ghost predicate ActiveRunning(active: set<Xid>, clog: CLog) {
    forall x | x in active :: StatusOf(clog, x) == InProgress
  }

  /** With a fresh snapshot the eight rules are the simple test. */
  lemma VisibleIsSimple(h: Header, me: Xid, snap: Snapshot, curCid: int, clog: CLog, next: Xid, active: set<Xid>)
    requires FreshSnapshot(snap, next, active) && ActiveRunning(active, clog)
    requires me == INVALID || (me in active && me >= FIRST_NORMAL)
    ensures Visible(h, me, snap, curCid, clog) <==> SimplyVisible(h, me, curCid, clog)
  {
    assert h.xmin in snap.xip <==> h.xmin in active;
  }

  /** Turning running or unknown transactions into aborted ones, other than the observer's own. */
  ghost predicate OnlyAborts(clog: CLog, clog': CLog) {
    forall x :: StatusOf(clog', x) != StatusOf(clog, x) ==>
      StatusOf(clog, x) == InProgress && StatusOf(clog', x) == Aborted
  }

  lemma AbortsAreInvisible(h: Header, me: Xid, curCid: int, clog: CLog, clog': CLog)
    requires OnlyAborts(clog, clog')
    ensures SimplyVisible(h, me, curCid, clog') <==> SimplyVisible(h, me, curCid, clog)
  {
  }

  /** Tombstoning hides a tuple from its deleter exactly when it has an inserting transaction. */
  lemma TombstoneHides(h: Header, me: Xid, cid: nat, snap: Snapshot, curCid: int, clog: CLog)
    requires me != INVALID
    ensures !Visible(h.(xmax := me, cid := cid), me, snap, curCid, clog) <==> h.xmin != INVALID
  {
  }
}
