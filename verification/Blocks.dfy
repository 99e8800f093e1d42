/** What the statements and rollbacks of one transaction block can have made of the rows, and who sees it. */
module Blocks {
  import opened Mvcc
  import opened Wrappers
  import opened Tables
  import opened Transactions
  import opened UndoLog
  import opened Vacuuming
  import opened Statements
  import opened Indexing
  import opened Engines

  /** A block: the rows and the next id when it began, and its id, command id and log now. */
  datatype Block = Block(base: Db, first: Xid, xid: Xid, cid: nat, clog: CLog)

  predicate HasXid(b: Block) { b.xid != INVALID }

  predicate Own(b: Block, h: Header) { HasXid(b) && h.xmin == b.xid }

  /** Every row names transactions below next only. */
  ghost predicate Past(db: Db, next: Xid) {
    forall k: RowKey | At(db, k).Some? :: At(db, k).value.hdr.xmin < next && At(db, k).value.hdr.xmax < next
  }

  ghost predicate Begun(b: Block) {
    Past(b.base, b.first) && FIRST_NORMAL <= b.first && (HasXid(b) ==> b.first <= b.xid)
  }

  /** The row is a version of the block's own, or the one the block began with, perhaps deleted by the block. */
  ghost predicate Fits(b: Block, k: RowKey, row: Option<Tuple>) {
    if row.None? then At(b.base, k).None?
    else if Own(b, row.value.hdr) then row.value.hdr.xmax in {INVALID, b.xid} && row.value.hdr.cid <= b.cid
    else At(b.base, k).Some? && Descends(b, At(b.base, k).value, row.value)
  }

  ghost predicate Descends(b: Block, was: Tuple, now: Tuple) {
    && now.cols == was.cols && now.hdr.xmin == was.hdr.xmin
    && (|| now.hdr.xmax == was.hdr.xmax
        || (HasXid(b) && now.hdr.xmax == b.xid
            && (now.hdr.xmin == INVALID || was.hdr.xmax == INVALID || StatusOf(b.clog, was.hdr.xmax) != Committed)))
  }

  /** All rows fit, and so does whatever undoing a record would put back. */
  ghost predicate Kept(b: Block, undo: seq<UndoRecord>, db: Db) {
    (forall k: RowKey :: Fits(b, k, At(db, k))) && forall rec | rec in undo :: Fits(b, KeyOf(rec), Restored(rec))
  }

  lemma KeptAtStart(db: Db, first: Xid, cid: nat, clog: CLog)
    ensures Kept(Block(db, first, INVALID, cid, clog), [], db)
  {
  }

  /** The block goes on: it may have got its id, and the log may have aborted others. */
  ghost predicate GoesOn(b: Block, b': Block) {
    && b'.base == b.base && b'.first == b.first && b.cid <= b'.cid && OnlyAborts(b.clog, b'.clog)
    && (b'.xid == b.xid || b.xid == INVALID)
  }

  lemma KeptGoesOn(b: Block, b': Block, undo: seq<UndoRecord>, db: Db)
    requires Begun(b) && Begun(b') && GoesOn(b, b') && Kept(b, undo, db)
    ensures Kept(b', undo, db)
  {
    forall k: RowKey ensures Fits(b', k, At(db, k)) { FitsGoesOn(b, b', k, At(db, k)); }
    forall rec | rec in undo ensures Fits(b', KeyOf(rec), Restored(rec)) { FitsGoesOn(b, b', KeyOf(rec), Restored(rec)); }
  }

  lemma FitsGoesOn(b: Block, b': Block, k: RowKey, row: Option<Tuple>)
    requires Begun(b) && Begun(b') && GoesOn(b, b') && Fits(b, k, row)
    ensures Fits(b', k, row)
  {
  }

  /** A new row of the block's own, under the next row id. */
  lemma KeptInsert(b: Block, was: Db, name: string, row: Tuple, log: seq<UndoRecord>, now: Db, undo: seq<UndoRecord>)
    requires Kept(b, log, was) && HasXid(b) && row.hdr == Header(b.xid, INVALID, b.cid)
    requires name in was && name in now && IdsInRange(was[name].rows, was[name].lastRowId)
    requires var t, id := was[name], was[name].lastRowId + 1;
             && now == was[name := t.(rows := t.rows[id := row], lastRowId := id, indexes := now[name].indexes)]
             && undo == log + [UndoRecord(InsertOp, name, id, row)]
    ensures Kept(b, undo, now)
  {
    var rec := UndoRecord(InsertOp, name, was[name].lastRowId + 1, row);
    assert Fits(b, KeyOf(rec), At(was, KeyOf(rec)));
    forall k: RowKey ensures Fits(b, k, At(now, k)) {
      assert At(now, k) == if k == KeyOf(rec) then Some(row) else At(was, k);
    }
  }

  lemma KeptAdvanced(b: Block, undo: seq<UndoRecord>, was: Db, name: string, now: Db)
    requires Kept(b, undo, was) && (now == was || (name in was && now == was[name := Advanced(was[name])]))
    ensures Kept(b, undo, now)
  {
    forall k: RowKey ensures Fits(b, k, At(now, k)) { assert At(now, k) == At(was, k); }
  }

  /** A row that the block sees, rewritten or deleted by it. */
  lemma FitsRewritten(b: Block, k: RowKey, t: Tuple, edit: Edit, o: Observer, next: Xid, active: set<Xid>)
    requires HasXid(b) && Begun(b) && Fits(b, k, Some(t)) && Sees(o, t)
    requires o.me == b.xid && o.cid == b.cid && o.clog == b.clog && Fresh(o, next, active) && ActiveRunning(active, o.clog)
    ensures Fits(b, k, Some(NewVersion(t, edit, o.me, o.cid)))
  {
    SeesExactly(o, t, next, active);
  }

  lemma {:induction false} LoggedAsFound(name: string, rows: Rows, n: nat, o: Observer, m: Match, edit: Edit)
    ensures forall rec | rec in EditLog(name, rows, n, o, m, edit) ::
              rec.table == name && rec.op != InsertOp && rec.rowId in rows && rec.before == rows[rec.rowId]
  {
    if n > 0 { LoggedAsFound(name, rows, n - 1, o, m, edit); }
  }

  lemma KeptEdit(b: Block, was: Db, name: string, m: Match, edit: Edit, o: Observer, log: seq<UndoRecord>, now: Db,
                 undo: seq<UndoRecord>, upto: nat, next: Xid, active: set<Xid>)
    requires HasXid(b) && Begun(b) && Kept(b, log, was)
    requires name in was && o.cid >= 0 && EditResult(was, name, m, edit, o, log, now, undo, upto)
    requires o.me == b.xid && o.cid == b.cid && o.clog == b.clog && Fresh(o, next, active) && ActiveRunning(active, o.clog)
    ensures Kept(b, undo, now)
  {
    var rows := was[name].rows;
    forall k: RowKey ensures Fits(b, k, At(now, k)) {
      assert Fits(b, k, At(was, k));
      if k.0 == name && k.1 in rows && k.1 <= upto && Hit(rows, k.1, o, m) {
        FitsRewritten(b, k, rows[k.1], edit, o, next, active);
        assert At(now, k) == Some(NewVersion(rows[k.1], edit, o.me, o.cid));
      } else {
        assert At(now, k) == At(was, k);
      }
    }
    LoggedAsFound(name, rows, upto, o, m, edit);
    var more := EditLog(name, rows, upto, o, m, edit);
    forall rec | rec in undo ensures Fits(b, KeyOf(rec), Restored(rec)) {
      if rec in more {
        assert At(was, KeyOf(rec)) == Restored(rec);
      } else {
        assert rec in log;
      }
    }
  }

  lemma {:induction false} FitsBefore(b: Block, undo: seq<UndoRecord>, p: nat, k: RowKey, cur: Option<Tuple>)
    requires p <= |undo| && Fits(b, k, cur) && forall rec | rec in undo :: Fits(b, KeyOf(rec), Restored(rec))
    ensures Fits(b, k, Before(undo, p, k, cur))
    decreases |undo| - p
  {
    if p < |undo| && KeyOf(undo[p]) != k { FitsBefore(b, undo, p + 1, k, cur); }
  }

  lemma KeptUndone(b: Block, undo: seq<UndoRecord>, p: nat, db: Db, db': Db)
    requires Kept(b, undo, db) && p <= |undo| && Undone(undo, p, db, db')
    ensures Kept(b, undo, db')
  {
    forall k: RowKey ensures Fits(b, k, At(db', k)) { FitsBefore(b, undo, p, k, At(db, k)); }
  }

  // ---------- one statement ----------

  /** The tables of a, with row counters that may have run on. */
  ghost predicate SameTables(a: Db, b: Db) {
    a.Keys == b.Keys && forall name | name in a :: a[name].lastRowId <= b[name].lastRowId
  }

  /** The block so far: its rows, its log, its tables. */
  ghost predicate Along(b: Block, undo: seq<UndoRecord>, db: Db) {
    Begun(b) && Kept(b, undo, db) && SameTables(b.base, db)
  }

  /** A statement under way: the block has its id, the one it had or the next one. */
  ghost predicate Numbered(b: Block, next: Xid, b': Block, started: bool) {
    && b.first <= next && b'.base == b.base && b'.first == b.first && b'.cid == b.cid && OnlyAborts(b.clog, b'.clog)
    && b'.xid == if started && b.xid == INVALID then next else b.xid
  }

  lemma AlongInsert(b: Block, next: Xid, log: seq<UndoRecord>, was: Db, b': Block, name: string, row: Tuple,
                    now: Db, undo: seq<UndoRecord>)
    requires Along(b, log, was) && Numbered(b, next, b', true) && row.hdr == Header(b'.xid, INVALID, b.cid)
    requires name in was && name in now && IdsInRange(was[name].rows, was[name].lastRowId)
    requires var t, id := was[name], was[name].lastRowId + 1;
             && now == was[name := t.(rows := t.rows[id := row], lastRowId := id, indexes := now[name].indexes)]
             && undo == log + [UndoRecord(InsertOp, name, id, row)]
    ensures Along(b', undo, now)
  {
    KeptGoesOn(b, b', log, was);
    KeptInsert(b', was, name, row, log, now, undo);
  }

  lemma AlongAdvanced(b: Block, next: Xid, log: seq<UndoRecord>, was: Db, b': Block, name: string, now: Db, started: bool)
    requires Along(b, log, was) && Numbered(b, next, b', started)
    requires now == was || (name in was && now == was[name := Advanced(was[name])])
    ensures Along(b', log, now)
  {
    KeptGoesOn(b, b', log, was);
    KeptAdvanced(b', log, was, name, now);
  }

  lemma AlongEdit(b: Block, next: Xid, log: seq<UndoRecord>, was: Db, b': Block, name: string, m: Match, edit: Edit, o: Observer,
                  now: Db, undo: seq<UndoRecord>, upto: nat, next': Xid, active: set<Xid>)
    requires Along(b, log, was) && Numbered(b, next, b', true)
    requires name in was && o.cid >= 0 && EditResult(was, name, m, edit, o, log, now, undo, upto)
    requires o.me == b'.xid && o.cid == b'.cid && o.clog == b'.clog && Fresh(o, next', active) && ActiveRunning(active, o.clog)
    ensures Along(b', undo, now)
  {
    KeptGoesOn(b, b', log, was);
    KeptEdit(b', was, name, m, edit, o, log, now, undo, upto, next', active);
  }

  lemma AlongUndone(b: Block, undo: seq<UndoRecord>, p: nat, was: Db, now: Db)
    requires Along(b, undo, was) && p <= |undo| && Undone(undo, p, was, now) && SameTables(was, now)
    ensures Along(b, undo, now)
  {
    KeptUndone(b, undo, p, was, now);
  }

  lemma AlongNext(b: Block, undo: seq<UndoRecord>, db: Db, b': Block)
    requires Along(b, undo, db) && b' == b.(cid := b'.cid) && b.cid <= b'.cid
    ensures Along(b', undo, db)
  {
    KeptGoesOn(b, b', undo, db);
  }

  // ---------- a statement by itself ----------

  /** Of the rows present when a statement began, it sees those of a finished inserter and no committed deleter. */
  lemma StatementSees(t: Tuple, x: Xid, clog0: CLog, o: Observer, next: Xid, active: set<Xid>)
    requires t.hdr.xmin < x && t.hdr.xmax < x && o.me == x && Fresh(o, next, active) && ActiveRunning(active, o.clog)
    requires OnlyAborts(clog0, o.clog)
    ensures Sees(o, t) <==>
            || t.hdr.xmin == 0
            || ((t.hdr.xmin == 2 || (t.hdr.xmin in clog0 && clog0[t.hdr.xmin] in {Committed, SubCommitted}))
                && (t.hdr.xmax == 0 || !(t.hdr.xmax in clog0 && clog0[t.hdr.xmax] == Committed)))
  {
    SeesExactly(o, t, next, active);
  }

  /** What an UPDATE by itself makes of a row: the new cells under transaction x if it is seen and matched. */
  lemma UpdatedAlone(rows: Rows, n: nat, id: int, m: Match, updates: Row, now: Rows, x: Xid, clog0: CLog, o: Observer,
                     next: Xid, active: set<Xid>)
    requires id in rows && IdsInRange(rows, n) && now == Edited(rows, n, o, m, Assign(updates), 0)
    requires rows[id].hdr.xmin < x && rows[id].hdr.xmax < x && o.me == x && Fresh(o, next, active) && ActiveRunning(active, o.clog)
    requires OnlyAborts(clog0, o.clog)
    ensures id in now
    ensures var h := rows[id].hdr;
            var seen := || h.xmin == 0
                        || ((h.xmin == 2 || (h.xmin in clog0 && clog0[h.xmin] in {Committed, SubCommitted}))
                            && (h.xmax == 0 || !(h.xmax in clog0 && clog0[h.xmax] == Committed)));
            && (!(seen && m(id, rows[id])) ==> now[id] == rows[id])
            && (seen && m(id, rows[id]) ==>
                  && now[id].hdr == Header(x, 0, 0)
                  && (forall c :: c in now[id].cols <==> c in rows[id].cols || (c in updates && c !in {"_rowid", "_xmin", "_xmax", "_cid"}))
                  && (forall c | c in now[id].cols :: now[id].cols[c] ==
                        if c in updates && c !in {"_rowid", "_xmin", "_xmax", "_cid"} then updates[c] else rows[id].cols[c]))
  {
    StatementSees(rows[id], x, clog0, o, next, active);
  }

  /** What a DELETE by itself makes of a row: a tombstone of transaction x if it is seen and matched. */
  lemma DeletedAlone(rows: Rows, n: nat, id: int, m: Match, now: Rows, x: Xid, clog0: CLog, o: Observer,
                     next: Xid, active: set<Xid>)
    requires id in rows && IdsInRange(rows, n) && now == Edited(rows, n, o, m, Delete, 0)
    requires rows[id].hdr.xmin < x && rows[id].hdr.xmax < x && o.me == x && Fresh(o, next, active) && ActiveRunning(active, o.clog)
    requires OnlyAborts(clog0, o.clog)
    ensures id in now
    ensures var h := rows[id].hdr;
            var seen := || h.xmin == 0
                        || ((h.xmin == 2 || (h.xmin in clog0 && clog0[h.xmin] in {Committed, SubCommitted}))
                            && (h.xmax == 0 || !(h.xmax in clog0 && clog0[h.xmax] == Committed)));
            now[id] == if seen && m(id, rows[id]) then Tuple(Header(h.xmin, x, 0), rows[id].cols) else rows[id]
  {
    StatementSees(rows[id], x, clog0, o, next, active);
  }

  lemma AllUpdatedAlone(was: Db, name: string, n: nat, m: Match, updates: Row, now: Rows, x: Xid, clog0: CLog, o: Observer,
                       next: Xid, active: set<Xid>)
    requires name in was && IdsInRange(was[name].rows, n) && now == Edited(was[name].rows, n, o, m, Assign(updates), 0)
    requires Past(was, x)
    requires o.me == x && Fresh(o, next, active) && ActiveRunning(active, o.clog) && OnlyAborts(clog0, o.clog)
    ensures now.Keys == was[name].rows.Keys
    ensures forall id | id in now ::
              var t0, t := was[name].rows[id], now[id];
              var h := t0.hdr;
              var seen := || h.xmin == 0
                          || ((h.xmin == 2 || (h.xmin in clog0 && clog0[h.xmin] in {Committed, SubCommitted}))
                              && (h.xmax == 0 || !(h.xmax in clog0 && clog0[h.xmax] == Committed)));
              && (!(seen && m(id, t0)) ==> t == t0)
              && (seen && m(id, t0) ==>
                    && t.hdr == Header(x, 0, 0)
                    && (forall c :: c in t.cols <==> c in t0.cols || (c in updates && c !in {"_rowid", "_xmin", "_xmax", "_cid"}))
                    && (forall c | c in t.cols :: t.cols[c] ==
                          if c in updates && c !in {"_rowid", "_xmin", "_xmax", "_cid"} then updates[c] else t0.cols[c]))
  {
    PastTable(was, x, name);
    forall id | id in now
      ensures var t0, t := was[name].rows[id], now[id];
              var h := t0.hdr;
              var seen := || h.xmin == 0
                          || ((h.xmin == 2 || (h.xmin in clog0 && clog0[h.xmin] in {Committed, SubCommitted}))
                              && (h.xmax == 0 || !(h.xmax in clog0 && clog0[h.xmax] == Committed)));
              && (!(seen && m(id, t0)) ==> t == t0)
              && (seen && m(id, t0) ==>
                    && t.hdr == Header(x, 0, 0)
                    && (forall c :: c in t.cols <==> c in t0.cols || (c in updates && c !in {"_rowid", "_xmin", "_xmax", "_cid"}))
                    && (forall c | c in t.cols :: t.cols[c] ==
                          if c in updates && c !in {"_rowid", "_xmin", "_xmax", "_cid"} then updates[c] else t0.cols[c]))
    {
      UpdatedAlone(was[name].rows, n, id, m, updates, now, x, clog0, o, next, active);
    }
  }

  lemma AllDeletedAlone(was: Db, name: string, n: nat, m: Match, now: Rows, x: Xid, clog0: CLog, o: Observer,
                       next: Xid, active: set<Xid>)
    requires name in was && IdsInRange(was[name].rows, n) && now == Edited(was[name].rows, n, o, m, Delete, 0)
    requires Past(was, x)
    requires o.me == x && Fresh(o, next, active) && ActiveRunning(active, o.clog) && OnlyAborts(clog0, o.clog)
    ensures now.Keys == was[name].rows.Keys
    ensures forall id | id in now ::
              var t0, t := was[name].rows[id], now[id];
              var h := t0.hdr;
              var seen := || h.xmin == 0
                          || ((h.xmin == 2 || (h.xmin in clog0 && clog0[h.xmin] in {Committed, SubCommitted}))
                              && (h.xmax == 0 || !(h.xmax in clog0 && clog0[h.xmax] == Committed)));
              t == if seen && m(id, t0) then Tuple(Header(h.xmin, x, 0), t0.cols) else t0
  {
    PastTable(was, x, name);
    forall id | id in now
      ensures var t0, t := was[name].rows[id], now[id];
              var h := t0.hdr;
              var seen := || h.xmin == 0
                          || ((h.xmin == 2 || (h.xmin in clog0 && clog0[h.xmin] in {Committed, SubCommitted}))
                              && (h.xmax == 0 || !(h.xmax in clog0 && clog0[h.xmax] == Committed)));
              t == if seen && m(id, t0) then Tuple(Header(h.xmin, x, 0), t0.cols) else t0
    {
      DeletedAlone(was[name].rows, n, id, m, now, x, clog0, o, next, active);
    }
  }

  /** A row of a committed transaction that nobody has deleted is in everybody's scan. */
  lemma ShownToAll(t: Table, id: int, clog: CLog, next: Xid, active: set<Xid>)
    requires id in t.rows && 1 <= id <= t.lastRowId && ActiveRunning(active, clog)
    requires t.rows[id].hdr.xmax == 0 && t.rows[id].hdr.xmin in clog && clog[t.rows[id].hdr.xmin] == Committed
    ensures forall o: Observer | o.clog == clog && Fresh(o, next, active) ::
              Found(id, t.rows[id]) in VisibleRows(t.rows, t.lastRowId, o)
  {
    forall o: Observer | o.clog == clog && Fresh(o, next, active)
      ensures Found(id, t.rows[id]) in VisibleRows(t.rows, t.lastRowId, o)
    {
      SeesExactly(o, t.rows[id], next, active);
      VisibleKnows(t.rows, t.lastRowId, o, id, t.rows[id]);
    }
  }

  /** How many rows a statement by itself finds. */
  lemma CountedAlone(name: string, rows: Rows, n: nat, m: Match, edit: Edit, x: Xid, clog0: CLog, o: Observer, next: Xid, active: set<Xid>)
    requires IdsInRange(rows, n) && o.me == x && Fresh(o, next, active) && ActiveRunning(active, o.clog) && OnlyAborts(clog0, o.clog)
    requires forall r | r in rows :: rows[r].hdr.xmin < x && rows[r].hdr.xmax < x
    ensures |EditLog(name, rows, n, o, m, edit)|
         == |set id | id in rows && m(id, rows[id])
                      && (|| rows[id].hdr.xmin == 0
                          || ((rows[id].hdr.xmin == 2
                               || (rows[id].hdr.xmin in clog0 && clog0[rows[id].hdr.xmin] in {Committed, SubCommitted}))
                              && (rows[id].hdr.xmax == 0
                                  || !(rows[id].hdr.xmax in clog0 && clog0[rows[id].hdr.xmax] == Committed))))|
  {
    EditLogCounts(name, rows, n, o, m, edit);
    forall r | r in rows
      ensures Sees(o, rows[r]) <==>
              || rows[r].hdr.xmin == 0
              || ((rows[r].hdr.xmin == 2 || (rows[r].hdr.xmin in clog0 && clog0[rows[r].hdr.xmin] in {Committed, SubCommitted}))
                  && (rows[r].hdr.xmax == 0 || !(rows[r].hdr.xmax in clog0 && clog0[rows[r].hdr.xmax] == Committed)))
    {
      StatementSees(rows[r], x, clog0, o, next, active);
    }
    assert Hits(rows, n, o, m)
        == set id | id in rows && m(id, rows[id])
                    && (|| rows[id].hdr.xmin == 0
                        || ((rows[id].hdr.xmin == 2
                             || (rows[id].hdr.xmin in clog0 && clog0[rows[id].hdr.xmin] in {Committed, SubCommitted}))
                            && (rows[id].hdr.xmax == 0
                                || !(rows[id].hdr.xmax in clog0 && clog0[rows[id].hdr.xmax] == Committed))));
  }

  lemma PastTable(db: Db, next: Xid, name: string)
    requires Past(db, next) && name in db
    ensures forall r | r in db[name].rows :: db[name].rows[r].hdr.xmin < next && db[name].rows[r].hdr.xmax < next
  {
    forall r | r in db[name].rows ensures db[name].rows[r].hdr.xmin < next && db[name].rows[r].hdr.xmax < next {
      assert At(db, (name, r)) == Some(db[name].rows[r]);
    }
  }

  // ---------- who sees what ----------

  /** Once committed, everybody sees what the block itself saw. */
  lemma CommitPublishes(b: Block, k: RowKey, t: Tuple, own: Observer, next: Xid, active: set<Xid>,
                        o: Observer, next': Xid, active': set<Xid>)
    requires Begun(b) && Fits(b, k, Some(t))
    requires own.me == b.xid && own.cid == b.cid && own.clog == b.clog && Fresh(own, next, active) && ActiveRunning(active, own.clog)
    requires o.me == INVALID && o.clog == (if HasXid(b) then b.clog[b.xid := Committed] else b.clog)
    requires Fresh(o, next', active') && ActiveRunning(active', o.clog)
    ensures Sees(o, t) <==> Sees(own, t)
  {
    SeesExactly(own, t, next, active);
    SeesExactly(o, t, next', active');
  }

  /** While the block runs, an outsider sees what it would have seen when the block began, but no row the block rewrote. */
  lemma OutsiderSees(b: Block, k: RowKey, t: Tuple, o: Observer, next: Xid, active: set<Xid>,
                     o0: Observer, next0: Xid, active0: set<Xid>)
    requires Begun(b) && Fits(b, k, Some(t)) && (HasXid(b) ==> StatusOf(b.clog, b.xid) == InProgress)
    requires o.me == INVALID && o.clog == b.clog && Fresh(o, next, active) && ActiveRunning(active, o.clog)
    requires o0.me == INVALID && OnlyAborts(o0.clog, b.clog) && Fresh(o0, next0, active0) && ActiveRunning(active0, o0.clog)
    ensures Sees(o, t) <==> !Own(b, t.hdr) && At(b.base, k).Some? && Sees(o0, At(b.base, k).value)
    ensures Sees(o, t) ==> At(b.base, k).Some? && t.cols == At(b.base, k).value.cols
  {
    SeesExactly(o, t, next, active);
    if !Own(b, t.hdr) { SeesExactly(o0, At(b.base, k).value, next0, active0); }
  }

  /** Aborting others changes nothing for an outsider. */
  lemma OutsiderUnmoved(t: Tuple, o0: Observer, next0: Xid, active0: set<Xid>, o: Observer, next: Xid, active: set<Xid>)
    requires o0.me == INVALID && Fresh(o0, next0, active0) && ActiveRunning(active0, o0.clog)
    requires o.me == INVALID && Fresh(o, next, active) && ActiveRunning(active, o.clog) && OnlyAborts(o0.clog, o.clog)
    ensures Sees(o, t) <==> Sees(o0, t)
  {
    SeesExactly(o0, t, next0, active0);
    SeesExactly(o, t, next, active);
  }

  lemma SeenAlike(rows: Rows, n: nat, n': nat, o: Observer, o': Observer)
    requires n <= n' && (forall r | r in rows :: 1 <= r <= n) && forall r | r in rows :: Sees(o, rows[r]) <==> Sees(o', rows[r])
    ensures VisibleRows(rows, n, o) == VisibleRows(rows, n', o')
  {
    SeenAlikeUpTo(rows, n, o, o');
    SeenNoMore(rows, n, n', o');
  }

  /** After a rollback: the same rows, under a counter that may have run on, and other transactions perhaps aborted. */
  lemma RolledBackScan(t: Table, t': Table, o0: Observer, next0: Xid, active0: set<Xid>, o: Observer, next: Xid, active: set<Xid>)
    requires t'.rows == t.rows && t.lastRowId <= t'.lastRowId && IdsInRange(t.rows, t.lastRowId)
    requires o0.me == INVALID && Fresh(o0, next0, active0) && ActiveRunning(active0, o0.clog)
    requires o.me == INVALID && Fresh(o, next, active) && ActiveRunning(active, o.clog) && OnlyAborts(o0.clog, o.clog)
    ensures VisibleRows(t'.rows, t'.lastRowId, o) == VisibleRows(t.rows, t.lastRowId, o0)
  {
    forall r | r in t.rows ensures Sees(o0, t.rows[r]) <==> Sees(o, t.rows[r]) {
      OutsiderUnmoved(t.rows[r], o0, next0, active0, o, next, active);
    }
    SeenAlike(t.rows, t.lastRowId, t'.lastRowId, o0, o);
  }

  /** After a commit: the rows of one table, for an outsider, are what the block saw. */
  lemma CommittedScan(b: Block, undo: seq<UndoRecord>, db: Db, name: string, own: Observer, next: Xid, active: set<Xid>,
                      o: Observer, next': Xid, active': set<Xid>)
    requires Along(b, undo, db) && name in db && IdsInRange(db[name].rows, db[name].lastRowId)
    requires own.me == b.xid && own.cid == b.cid && own.clog == b.clog && Fresh(own, next, active) && ActiveRunning(active, own.clog)
    requires o.me == INVALID && o.clog == (if HasXid(b) then b.clog[b.xid := Committed] else b.clog)
    requires Fresh(o, next', active') && ActiveRunning(active', o.clog)
    ensures VisibleRows(db[name].rows, db[name].lastRowId, o) == VisibleRows(db[name].rows, db[name].lastRowId, own)
  {
    var t := db[name];
    forall r | r in t.rows ensures Sees(own, t.rows[r]) <==> Sees(o, t.rows[r]) {
      assert Fits(b, (name, r), At(db, (name, r)));
      CommitPublishes(b, (name, r), t.rows[r], own, next, active, o, next', active');
    }
    SeenAlike(t.rows, t.lastRowId, t.lastRowId, own, o);
  }

  /** During the block, row id of a table for an outsider. */
  lemma OutsiderScan(b: Block, undo: seq<UndoRecord>, db: Db, name: string, id: int, o: Observer, next: Xid, active: set<Xid>,
                     o0: Observer, next0: Xid, active0: set<Xid>)
    requires Along(b, undo, db) && name in db && id in db[name].rows && IdsInRange(db[name].rows, db[name].lastRowId)
    requires IdsInRange(b.base[name].rows, b.base[name].lastRowId) && (HasXid(b) ==> StatusOf(b.clog, b.xid) == InProgress)
    requires o.me == INVALID && o.clog == b.clog && Fresh(o, next, active) && ActiveRunning(active, o.clog)
    requires o0.me == INVALID && OnlyAborts(o0.clog, b.clog) && Fresh(o0, next0, active0) && ActiveRunning(active0, o0.clog)
    ensures var t, t0 := db[name], b.base[name];
            && (Found(id, t.rows[id]) in VisibleRows(t.rows, t.lastRowId, o) <==>
                  && !Own(b, t.rows[id].hdr) && id in t0.rows && Found(id, t0.rows[id]) in VisibleRows(t0.rows, t0.lastRowId, o0))
            && (Found(id, t.rows[id]) in VisibleRows(t.rows, t.lastRowId, o) ==>
                  id in t0.rows && t.rows[id].cols == t0.rows[id].cols)
  {
    var t, t0 := db[name], b.base[name];
    assert Fits(b, (name, id), At(db, (name, id)));
    OutsiderSees(b, (name, id), t.rows[id], o, next, active, o0, next0, active0);
    VisibleKnows(t.rows, t.lastRowId, o, id, t.rows[id]);
    if id in t0.rows { VisibleKnows(t0.rows, t0.lastRowId, o0, id, t0.rows[id]); }
  }

  /** The end of a run: all tables, all sessions without a transaction. */
  lemma RolledBackScans(was: Db, clog: CLog, next: Xid, active: set<Xid>, now: Db, clog': CLog, next': Xid, active': set<Xid>)
    requires SameTables(was, now) && SameRows(was, now) && RowsInRange(was)
    requires ActiveRunning(active, clog) && ActiveRunning(active', clog') && OnlyAborts(clog, clog')
    ensures forall name, o0: Observer, o: Observer | name in now && o0.me == 0 && o0.clog == clog && Fresh(o0, next, active)
                                                     && o.me == 0 && o.clog == clog' && Fresh(o, next', active') ::
              var t0, t := was[name], now[name];
              VisibleRows(t.rows, t.lastRowId, o) == VisibleRows(t0.rows, t0.lastRowId, o0)
  {
    forall name, o0: Observer, o: Observer | name in now && o0.me == 0 && o0.clog == clog && Fresh(o0, next, active)
                                   && o.me == 0 && o.clog == clog' && Fresh(o, next', active')
      ensures VisibleRows(now[name].rows, now[name].lastRowId, o) == VisibleRows(was[name].rows, was[name].lastRowId, o0)
    {
      RowsBack(was, now, name);
      RolledBackScan(was[name], now[name], o0, next, active, o, next', active');
    }
  }

  lemma RowsBack(was: Db, now: Db, name: string)
    requires SameRows(was, now) && name in was && name in now
    ensures was[name].rows == now[name].rows
  {
    forall r: int ensures r in was[name].rows <==> r in now[name].rows {
      assert At(was, (name, r)) == At(now, (name, r));
    }
    forall r: int | r in was[name].rows ensures was[name].rows[r] == now[name].rows[r] {
      assert At(was, (name, r)) == At(now, (name, r));
    }
  }

  lemma PastBack(was: Db, next: Xid, now: Db, next': Xid)
    requires SameRows(was, now) && Past(was, next) && next <= next'
    ensures Past(now, next')
  {
    forall k: RowKey | At(now, k).Some? ensures At(now, k).value.hdr.xmin < next' && At(now, k).value.hdr.xmax < next' {
      assert At(was, k) == At(now, k);
    }
  }

  lemma AllRowsBack(was: Db, now: Db)
    requires SameRows(was, now) && was.Keys == now.Keys
    ensures forall name | name in now :: now[name].rows == was[name].rows
  {
    forall name | name in now ensures now[name].rows == was[name].rows { RowsBack(was, now, name); }
  }

  lemma CommittedScans(b: Block, undo: seq<UndoRecord>, db: Db, name: string, own: Observer, next: Xid, active: set<Xid>,
                       clog': CLog, next': Xid, active': set<Xid>)
    requires Along(b, undo, db) && name in db && IdsInRange(db[name].rows, db[name].lastRowId)
    requires own.me == b.xid && own.cid == b.cid && own.clog == b.clog && Fresh(own, next, active) && ActiveRunning(active, own.clog)
    requires clog' == (if HasXid(b) then b.clog[b.xid := Committed] else b.clog) && ActiveRunning(active', clog')
    ensures forall o: Observer | o.me == 0 && o.clog == clog' && Fresh(o, next', active') ::
              VisibleRows(db[name].rows, db[name].lastRowId, o) == VisibleRows(db[name].rows, db[name].lastRowId, own)
  {
    forall o: Observer | o.me == 0 && o.clog == clog' && Fresh(o, next', active')
      ensures VisibleRows(db[name].rows, db[name].lastRowId, o) == VisibleRows(db[name].rows, db[name].lastRowId, own)
    {
      CommittedScan(b, undo, db, name, own, next, active, o, next', active');
    }
  }

  lemma OutsiderScans(b: Block, undo: seq<UndoRecord>, db: Db, name: string, o: Observer, next: Xid, active: set<Xid>,
                      clog0: CLog, next0: Xid, active0: set<Xid>)
    requires Along(b, undo, db) && name in db && IdsInRange(db[name].rows, db[name].lastRowId)
    requires IdsInRange(b.base[name].rows, b.base[name].lastRowId) && (HasXid(b) ==> StatusOf(b.clog, b.xid) == InProgress)
    requires o.me == INVALID && o.clog == b.clog && Fresh(o, next, active) && ActiveRunning(active, o.clog)
    requires OnlyAborts(clog0, b.clog) && ActiveRunning(active0, clog0)
    ensures forall id, o0: Observer | id in db[name].rows && o0.me == 0 && o0.clog == clog0 && Fresh(o0, next0, active0) ::
              var t, t0 := db[name], b.base[name];
              && (Found(id, t.rows[id]) in VisibleRows(t.rows, t.lastRowId, o) <==>
                    && !(b.xid != 0 && t.rows[id].hdr.xmin == b.xid)
                    && id in t0.rows && Found(id, t0.rows[id]) in VisibleRows(t0.rows, t0.lastRowId, o0))
              && (Found(id, t.rows[id]) in VisibleRows(t.rows, t.lastRowId, o) ==>
                    id in t0.rows && t.rows[id].cols == t0.rows[id].cols)
  {
    forall id, o0: Observer | id in db[name].rows && o0.me == 0 && o0.clog == clog0 && Fresh(o0, next0, active0)
      ensures var t, t0 := db[name], b.base[name];
              && (Found(id, t.rows[id]) in VisibleRows(t.rows, t.lastRowId, o) <==>
                    && !(b.xid != 0 && t.rows[id].hdr.xmin == b.xid)
                    && id in t0.rows && Found(id, t0.rows[id]) in VisibleRows(t0.rows, t0.lastRowId, o0))
              && (Found(id, t.rows[id]) in VisibleRows(t.rows, t.lastRowId, o) ==>
                    id in t0.rows && t.rows[id].cols == t0.rows[id].cols)
    {
      OutsiderScan(b, undo, db, name, id, o, next, active, o0, next0, active0);
    }
  }

  lemma {:induction false} SeenAlikeUpTo(rows: Rows, n: nat, o: Observer, o': Observer)
    requires forall r | r in rows :: Sees(o, rows[r]) <==> Sees(o', rows[r])
    ensures VisibleRows(rows, n, o) == VisibleRows(rows, n, o')
  {
    if n > 0 { SeenAlikeUpTo(rows, n - 1, o, o'); }
  }

  lemma {:induction false} SeenNoMore(rows: Rows, n: nat, n': nat, o: Observer)
    requires n <= n' && forall r | r in rows :: 1 <= r <= n
    ensures VisibleRows(rows, n', o) == VisibleRows(rows, n, o)
  {
    if n < n' { SeenNoMore(rows, n, n' - 1, o); }
  }

  /** The block's rows, too, name past transactions only. */
  lemma KeptIsPast(b: Block, undo: seq<UndoRecord>, db: Db, next: Xid)
    requires Begun(b) && Kept(b, undo, db) && b.first <= next && b.xid < next
    ensures Past(db, next)
  {
    forall k: RowKey | At(db, k).Some? ensures At(db, k).value.hdr.xmin < next && At(db, k).value.hdr.xmax < next {
      assert Fits(b, k, At(db, k));
    }
  }
}
