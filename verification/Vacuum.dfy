/** What vacuum and a restart do to the rows of a table, and why no fresh snapshot can tell. */
module Vacuuming {
  import opened Mvcc
  import opened Tables
  import opened Transactions

  /** Not touched by a transaction at or above the oldest active one. */
  predicate Settled(h: Header, oldest: Xid) {
    (h.xmin < oldest || h.xmin == FROZEN) && (h.xmax == INVALID || h.xmax < oldest)
  }

  predicate Dead(h: Header, oldest: Xid, clog: CLog) {
    && Settled(h, oldest)
    && (|| StatusOf(clog, h.xmin) == Aborted
        || (StatusOf(clog, h.xmin) == Committed && h.xmax != INVALID && StatusOf(clog, h.xmax) == Committed))
  }

  predicate Freezable(h: Header, oldest: Xid, clog: CLog) {
    Settled(h, oldest) && !Dead(h, oldest, clog) && StatusOf(clog, h.xmin) == Committed && h.xmin != FROZEN
  }

  function FrozenTuple(t: Tuple): Tuple { t.(hdr := t.hdr.(xmin := FROZEN)) }

  function Vacuumed(rows: Rows, oldest: Xid, clog: CLog): Rows {
    map r | r in rows && !Dead(rows[r].hdr, oldest, clog) ::
      if Freezable(rows[r].hdr, oldest, clog) then FrozenTuple(rows[r]) else rows[r]
  }

  /** The same rows in the same order, up to xmin having become Frozen. */
  ghost predicate SameShown(a: seq<Found>, b: seq<Found>) {
    && |a| == |b|
    && forall i | 0 <= i < |a| :: b[i].rid == a[i].rid && (b[i].tup == a[i].tup || b[i].tup == FrozenTuple(a[i].tup))
  }

  /** An observer with a freshly taken snapshot and an xid that is active or absent. */
  ghost predicate Fresh(o: Observer, next: Xid, active: set<Xid>) {
    && FreshSnapshot(o.snap, next, active)
    && (o.me == INVALID || (o.me in active && o.me >= FIRST_NORMAL))
  }

  /** What a scan shows, said of the words in the header: see ScanExactly. */
  lemma SeesExactly(o: Observer, t: Tuple, next: Xid, active: set<Xid>)
    requires Fresh(o, next, active) && ActiveRunning(active, o.clog)
    ensures Sees(o, t) <==>
            || t.hdr.xmin == 0
            || (t.hdr.xmin == o.me && ToInt32(t.hdr.cid) <= o.cid && t.hdr.xmax != o.me)
            || (t.hdr.xmin != o.me
                && (t.hdr.xmin == 2 || (t.hdr.xmin in o.clog && o.clog[t.hdr.xmin] in {Committed, SubCommitted}))
                && (t.hdr.xmax == 0 || (t.hdr.xmax != o.me && !(t.hdr.xmax in o.clog && o.clog[t.hdr.xmax] == Committed))))
  {
    VisibleIsSimple(t.hdr, o.me, o.snap, o.cid, o.clog, next, active);
  }

  /**
   * With a fresh snapshot a scan yields, with strictly ascending row ids, exactly the stored rows that no transaction
   * inserted, or the observer's own within its command id and not deleted by itself, or whose inserter is frozen or
   * finished without abort and whose deleter is absent or neither the observer nor committed.
   */
  lemma ScanExactly(rows: Rows, n: nat, o: Observer, next: Xid, active: set<Xid>)
    requires Fresh(o, next, active) && ActiveRunning(active, o.clog)
    ensures forall i, j | 0 <= i < j < |VisibleRows(rows, n, o)| :: VisibleRows(rows, n, o)[i].rid < VisibleRows(rows, n, o)[j].rid
    ensures forall r, t :: Found(r, t) in VisibleRows(rows, n, o) <==>
              && r in rows && rows[r] == t && 1 <= r <= n
              && (|| t.hdr.xmin == 0
                  || (t.hdr.xmin == o.me && ToInt32(t.hdr.cid) <= o.cid && t.hdr.xmax != o.me)
                  || (t.hdr.xmin != o.me
                      && (t.hdr.xmin == 2 || (t.hdr.xmin in o.clog && o.clog[t.hdr.xmin] in {Committed, SubCommitted}))
                      && (t.hdr.xmax == 0 || (t.hdr.xmax != o.me && !(t.hdr.xmax in o.clog && o.clog[t.hdr.xmax] == Committed)))))
  {
    VisibleAscends(rows, n, o);
    forall r, t
      ensures Found(r, t) in VisibleRows(rows, n, o) <==> r in rows && rows[r] == t && 1 <= r <= n && Sees(o, t)
    {
      VisibleKnows(rows, n, o, r, t);
    }
    forall t ensures Sees(o, t) <==>
              (|| t.hdr.xmin == 0
                  || (t.hdr.xmin == o.me && ToInt32(t.hdr.cid) <= o.cid && t.hdr.xmax != o.me)
                  || (t.hdr.xmin != o.me
                      && (t.hdr.xmin == 2 || (t.hdr.xmin in o.clog && o.clog[t.hdr.xmin] in {Committed, SubCommitted}))
                      && (t.hdr.xmax == 0 || (t.hdr.xmax != o.me && !(t.hdr.xmax in o.clog && o.clog[t.hdr.xmax] == Committed)))))
    {
      SeesExactly(o, t, next, active);
    }
  }

  lemma {:induction false} VisibleKnows(rows: Rows, n: nat, o: Observer, r: int, t: Tuple)
    ensures Found(r, t) in VisibleRows(rows, n, o) <==> r in rows && rows[r] == t && 1 <= r <= n && Sees(o, t)
  {
    if n > 0 { VisibleKnows(rows, n - 1, o, r, t); }
  }

  lemma {:induction false} VisibleAscends(rows: Rows, n: nat, o: Observer)
    ensures forall i | 0 <= i < |VisibleRows(rows, n, o)| :: VisibleRows(rows, n, o)[i].rid <= n
    ensures forall i, j | 0 <= i < j < |VisibleRows(rows, n, o)| :: VisibleRows(rows, n, o)[i].rid < VisibleRows(rows, n, o)[j].rid
  {
    if n > 0 { VisibleAscends(rows, n - 1, o); }
  }

  ghost predicate LogSound(clog: CLog, active: set<Xid>) {
    ActiveRunning(active, clog) && forall x | x in clog :: FIRST_NORMAL <= x
  }

  /**
   * What vacuum does to row r, said of its header: it goes when both ids are settled, that is below the horizon, or
   * frozen, or absent, and its inserter is aborted or it has a deleter and both are committed; it gets the frozen id as
   * its inserter when both are settled, the inserter is committed and it does not go; else it stays as it was.
   */
  lemma VacuumedExactly(rows: Rows, oldest: Xid, clog: CLog, r: int)
    requires forall x | x in clog :: 3 <= x
    ensures var after := Vacuumed(rows, oldest, clog);
            r !in rows ==> r !in after
    ensures r in rows ==>
            var after, h := Vacuumed(rows, oldest, clog), rows[r].hdr;
            var settled := (h.xmin < oldest || h.xmin == 2) && (h.xmax == 0 || h.xmax < oldest);
            var aborted, committed := h.xmin in clog && clog[h.xmin] == Aborted, h.xmin in clog && clog[h.xmin] == Committed;
            var deleted := h.xmax != 0 && h.xmax in clog && clog[h.xmax] == Committed;
            && (r !in after <==> settled && (aborted || (committed && deleted)))
            && (r in after && settled && committed ==> after[r] == rows[r].(hdr := h.(xmin := 2)))
            && (r in after && !(settled && committed) ==> after[r] == rows[r])
  {
  }

  lemma DeadIsInvisible(t: Tuple, o: Observer, next: Xid, active: set<Xid>, oldest: Xid)
    requires Fresh(o, next, active) && LogSound(o.clog, active) && Dead(t.hdr, oldest, o.clog)
    ensures !Sees(o, t)
  {
    VisibleIsSimple(t.hdr, o.me, o.snap, o.cid, o.clog, next, active);
  }

  lemma FreezingIsInvisible(t: Tuple, o: Observer, next: Xid, active: set<Xid>, oldest: Xid)
    requires Fresh(o, next, active) && LogSound(o.clog, active) && Freezable(t.hdr, oldest, o.clog)
    ensures Sees(o, FrozenTuple(t)) <==> Sees(o, t)
  {
    VisibleIsSimple(t.hdr, o.me, o.snap, o.cid, o.clog, next, active);
  }

  lemma AbortingIsInvisible(t: Tuple, o: Observer, next: Xid, active: set<Xid>, clog': CLog)
    requires Fresh(o, next, active) && LogSound(o.clog, active) && LogSound(clog', active) && OnlyAborts(o.clog, clog')
    ensures Sees(o.(clog := clog'), t) <==> Sees(o, t)
  {
    VisibleIsSimple(t.hdr, o.me, o.snap, o.cid, o.clog, next, active);
    VisibleIsSimple(t.hdr, o.me, o.snap, o.cid, clog', next, active);
    AbortsAreInvisible(t.hdr, o.me, o.cid, o.clog, clog');
  }

  /** Vacuum, with or without the closing pass that aborts zombies, shows every fresh snapshot the same rows. */
  lemma {:induction false} VacuumInvisible(rows: Rows, n: nat, o: Observer, clog': CLog, next: Xid, active: set<Xid>, oldest: Xid)
    requires Fresh(o, next, active) && LogSound(o.clog, active) && LogSound(clog', active) && OnlyAborts(o.clog, clog')
    ensures SameShown(VisibleRows(rows, n, o), VisibleRows(Vacuumed(rows, oldest, o.clog), n, o.(clog := clog')))
  {
    if n > 0 {
      VacuumInvisible(rows, n - 1, o, clog', next, active, oldest);
      if n in rows {
        var t := rows[n];
        AbortingIsInvisible(t, o, next, active, clog');
        if Dead(t.hdr, oldest, o.clog) {
          DeadIsInvisible(t, o, next, active, oldest);
        } else if Freezable(t.hdr, oldest, o.clog) {
          FreezingIsInvisible(t, o, next, active, oldest);
          AbortingIsInvisible(FrozenTuple(t), o, next, active, clog');
        }
      }
    }
  }

  /** If the closing pass does not fire, a second vacuum cleans and freezes nothing. */
  lemma VacuumSettles(rows: Rows, oldest: Xid, clog: CLog)
    requires forall x | x in clog :: FIRST_NORMAL <= x
    ensures Vacuumed(Vacuumed(rows, oldest, clog), oldest, clog) == Vacuumed(rows, oldest, clog)
  {
    var once := Vacuumed(rows, oldest, clog);
    forall r | r in once
      ensures !Dead(once[r].hdr, oldest, clog) && !Freezable(once[r].hdr, oldest, clog)
    {
      assert r in rows;
    }
  }

  /** If it does fire, the second vacuum cleans exactly the settled rows that zombies had inserted. */
  lemma SecondVacuumCleansZombies(rows: Rows, oldest: Xid, clog: CLog, r: int)
    requires r in Vacuumed(rows, oldest, clog) && forall x | x in clog :: FIRST_NORMAL <= x
    ensures Dead(Vacuumed(rows, oldest, clog)[r].hdr, oldest, Freeze(clog, oldest)) <==>
            Settled(rows[r].hdr, oldest) && rows[r].hdr.xmin in clog && clog[rows[r].hdr.xmin] == InProgress
  {
  }

  /** Freezing keeps every cell but _xmin, so only erasures concern the indexes. */
  lemma VacuumKeepsCells(rows: Rows, oldest: Xid, clog: CLog, r: int, column: string)
    requires r in Vacuumed(rows, oldest, clog) && column != "_xmin"
    ensures Cell(r, Vacuumed(rows, oldest, clog)[r], column) == Cell(r, rows[r], column)
  {
  }

  // ---------- restart ----------

  /** A transaction still running when the checkpoint was taken counts as aborted afterwards. */
  function Recovered(clog: CLog): CLog {
    map x | x in clog :: if clog[x] == InProgress then Aborted else clog[x]
  }

  /** Before the restart and after it, an observer without a transaction sees the same rows. */
  lemma {:induction false} ReloadShowsTheSame(rows: Rows, n: nat, before: Snapshot, after: Snapshot, cid: int, cid': int,
                                              clog: CLog, next: Xid, active: set<Xid>)
    requires LogSound(clog, active) && FreshSnapshot(before, next, active) && FreshSnapshot(after, next, {})
    ensures VisibleRows(rows, n, Observer(INVALID, after, cid', Recovered(clog)))
         == VisibleRows(rows, n, Observer(INVALID, before, cid, clog))
  {
    if n > 0 {
      ReloadShowsTheSame(rows, n - 1, before, after, cid, cid', clog, next, active);
      if n in rows {
        ReloadShowsRow(rows[n].hdr, before, after, cid, cid', clog, next, active);
      }
    }
  }

  lemma ReloadShowsRow(h: Header, before: Snapshot, after: Snapshot, cid: int, cid': int, clog: CLog, next: Xid, active: set<Xid>)
    requires LogSound(clog, active) && FreshSnapshot(before, next, active) && FreshSnapshot(after, next, {})
    ensures Visible(h, INVALID, after, cid', Recovered(clog)) <==> Visible(h, INVALID, before, cid, clog)
  {
    VisibleIsSimple(h, INVALID, before, cid, clog, next, active);
    VisibleIsSimple(h, INVALID, after, cid', Recovered(clog), next, {});
    assert OnlyAborts(clog, Recovered(clog));
    AbortsAreInvisible(h, INVALID, cid, clog, Recovered(clog));
  }

  /** The rows of a transaction that was running stay invisible after the restart, its deletions void. */
  lemma RunningBecomesAborted(t: Tuple, x: Xid, after: Snapshot, cid: int, clog: CLog, next: Xid)
    requires LogSound(clog, {}) && x in clog && clog[x] == InProgress && FreshSnapshot(after, next, {})
    ensures Recovered(clog)[x] == Aborted
    ensures t.hdr.xmin == x ==> !Visible(t.hdr, INVALID, after, cid, Recovered(clog))
    ensures t.hdr.xmax == x && Visible(t.hdr.(xmax := INVALID), INVALID, after, cid, Recovered(clog)) ==>
              Visible(t.hdr, INVALID, after, cid, Recovered(clog))
  {
  }

  // ---------- what vacuum leaves behind ----------

  /** No fresh snapshot of an active or absent transaction shows the tuple. */
  ghost predicate Unseen(t: Tuple, clog: CLog, next: Xid, active: set<Xid>) {
    forall o: Observer | o.clog == clog && Fresh(o, next, active) :: !Sees(o, t)
  }

  /** The oldest active transaction, or the next one when none is active. */
  ghost predicate IsHorizon(oldest: Xid, next: Xid, active: set<Xid>) {
    if active == {} then oldest == next else oldest in active && forall x | x in active :: oldest <= x
  }

  lemma SomeSnapshot(oldest: Xid, next: Xid, active: set<Xid>) returns (snap: Snapshot)
    requires IsHorizon(oldest, next, active)
    ensures FreshSnapshot(snap, next, active)
  {
    var xip := Listed(active);
    snap := Snapshot(oldest, next, xip, 0);
  }

  lemma {:induction false} Listed(xs: set<Xid>) returns (s: seq<Xid>)
    ensures forall x :: x in s <==> x in xs
  {
    if exists x: Xid :: x in xs {
      var x: Xid :| x in xs;
      s := Listed(xs - {x});
      s := s + [x];
    } else {
      s := [];
    }
  }

  /**
   * Vacuum keeps a tuple that nobody can see any more exactly when a transaction at or above the horizon touched it or
   * its inserter is recorded neither as aborted nor as committed: a zombie, a subtransaction, or the frozen id, which
   * has no record at all.
   */
  lemma UnseenButKeptExactly(t: Tuple, clog: CLog, next: Xid, active: set<Xid>, oldest: Xid)
    requires LogSound(clog, active) && IsHorizon(oldest, next, active) && Unseen(t, clog, next, active)
    ensures !Dead(t.hdr, oldest, clog) <==> !Settled(t.hdr, oldest) || StatusOf(clog, t.hdr.xmin) in {InProgress, SubCommitted}
  {
    var snap := SomeSnapshot(oldest, next, active);
    var o := Observer(INVALID, snap, 0, clog);
    assert Fresh(o, next, active) && !Sees(o, t);
    VisibleIsSimple(t.hdr, INVALID, snap, 0, clog, next, active);
  }

  /** A row that was frozen and then deleted by a transaction that committed: unseen, settled, and kept for ever. */
  lemma FrozenRowsStay(rows: Rows, r: int, clog: CLog, next: Xid, active: set<Xid>, oldest: Xid)
    requires LogSound(clog, active) && IsHorizon(oldest, next, active)
    requires r in rows && rows[r].hdr.xmin == FROZEN && StatusOf(clog, rows[r].hdr.xmax) == Committed && rows[r].hdr.xmax < oldest
    ensures Unseen(rows[r], clog, next, active) && Settled(rows[r].hdr, oldest)
    ensures r in Vacuumed(rows, oldest, clog) && Vacuumed(rows, oldest, clog)[r] == rows[r]
  {
    forall o: Observer | o.clog == clog && Fresh(o, next, active) ensures !Sees(o, rows[r]) {
      VisibleIsSimple(rows[r].hdr, o.me, o.snap, o.cid, o.clog, next, active);
    }
  }

  /** Such a row: frozen, deleted by transaction 5, which has committed; the next id is 6 and nobody is active. */
  lemma FrozenRowStaysHere(cols: Row)
    ensures var row, clog := Tuple(Header(FROZEN, 5, 0), cols), map[5 := Committed];
            Unseen(row, clog, 6, {}) && Settled(row.hdr, 6) && Vacuumed(map[1 := row], 6, clog) == map[1 := row]
  {
    var row, clog: CLog := Tuple(Header(FROZEN, 5, 0), cols), map[5 := Committed];
    FrozenRowsStay(map[1 := row], 1, clog, 6, {}, 6);
  }

  // ---------- counting rows over tables ----------

  ghost function Tagged(name: string, ids: set<int>): set<(string, int)> { set r | r in ids :: (name, r) }

  lemma {:induction false} TaggedSize(name: string, ids: set<int>)
    ensures |Tagged(name, ids)| == |ids|
  {
    if exists r: int :: r in ids {
      var r: int :| r in ids;
      TaggedSize(name, ids - {r});
      assert Tagged(name, ids) == Tagged(name, ids - {r}) + {(name, r)};
    } else {
      assert ids == {};
    }
  }
}
