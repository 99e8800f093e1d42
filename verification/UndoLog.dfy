/** Undo records over the rows of all tables: what undoing a suffix of the log restores. */
module UndoLog {
  import opened Mvcc
  import opened Wrappers
  import opened Tables
  import opened Transactions

  type Db = map<string, Table>

  function At(db: Db, k: RowKey): Option<Tuple> {
    if k.0 in db && k.1 in db[k.0].rows then Some(db[k.0].rows[k.1]) else None
  }

  function KeyOf(rec: UndoRecord): RowKey { (rec.table, rec.rowId) }

  /** What undoing one record leaves at its row. */
  function Restored(rec: UndoRecord): Option<Tuple> {
    if rec.op == InsertOp then None else Some(rec.before)
  }

  /** Row k, now holding cur, once the records from p on have been undone, last one first:
      the earliest record that touches the row decides. */
  function Before(undo: seq<UndoRecord>, p: nat, k: RowKey, cur: Option<Tuple>): Option<Tuple>
    requires p <= |undo|
    decreases |undo| - p
  {
    if p == |undo| then cur
    else if KeyOf(undo[p]) == k then Restored(undo[p])
    else Before(undo, p + 1, k, cur)
  }

  ghost predicate SameRows(a: Db, b: Db) {
    forall k: RowKey :: At(a, k) == At(b, k)
  }

  /** b's rows are those of a after undoing the records from p on. */
  ghost predicate Undone(undo: seq<UndoRecord>, p: nat, a: Db, b: Db)
    requires p <= |undo|
  {
    forall k: RowKey :: At(b, k) == Before(undo, p, k, At(a, k))
  }

  /** Undoing a suffix first, or again, does not change what undoing from p gives. */
  lemma {:induction false} BeforeAbsorbs(undo: seq<UndoRecord>, p: nat, q: nat, k: RowKey, cur: Option<Tuple>)
    requires p <= q <= |undo|
    ensures Before(undo, p, k, Before(undo, q, k, cur)) == Before(undo, p, k, cur)
    decreases |undo| - p
  {
    if p < q {
      BeforeAbsorbs(undo, p + 1, q, k, cur);
    } else if q < |undo| {
      BeforeTwice(undo, p, k, cur);
    }
  }

  lemma {:induction false} BeforeTwice(undo: seq<UndoRecord>, p: nat, k: RowKey, cur: Option<Tuple>)
    requires p <= |undo|
    ensures Before(undo, p, k, Before(undo, p, k, cur)) == Before(undo, p, k, cur)
    decreases |undo| - p
  {
    if p < |undo| {
      if KeyOf(undo[p]) != k {
        BeforeTwice(undo, p + 1, k, cur);
        assert Before(undo, p, k, Before(undo, p + 1, k, cur)) == Before(undo, p + 1, k, Before(undo, p + 1, k, cur));
      }
    }
  }

  /** A recorded change is invisible to undoing. */
  lemma {:induction false} BeforeAppend(undo: seq<UndoRecord>, rec: UndoRecord, p: nat, k: RowKey, was: Option<Tuple>, now: Option<Tuple>)
    requires p <= |undo|
    requires if KeyOf(rec) == k then Restored(rec) == was else now == was
    ensures Before(undo + [rec], p, k, now) == Before(undo, p, k, was)
    decreases |undo| - p
  {
    if p < |undo| { BeforeAppend(undo, rec, p + 1, k, was, now); }
  }

  // ---------- the invariant of a transaction with savepoints ----------

  /** base: the rows before the transaction; saved[i]: the rows when savepoint i was made. */
  ghost predicate Consistent(undo: seq<UndoRecord>, sps: seq<Savepoint>, db: Db, base: Db, saved: seq<Db>) {
    && |saved| == |sps|
    && (forall i | 0 <= i < |sps| :: sps[i].undoPosition <= |undo|)
    && (forall i, j | 0 <= i < j < |sps| :: sps[i].undoPosition <= sps[j].undoPosition)
    && Undone(undo, 0, db, base)
    && (forall i | 0 <= i < |sps| :: Undone(undo, sps[i].undoPosition, db, saved[i]))
  }

  lemma UndoneAppend(undo: seq<UndoRecord>, rec: UndoRecord, p: nat, db: Db, db': Db, target: Db)
    requires p <= |undo| && Undone(undo, p, db, target)
    requires At(db, KeyOf(rec)) == Restored(rec)
    requires forall k: RowKey | k != KeyOf(rec) :: At(db', k) == At(db, k)
    ensures Undone(undo + [rec], p, db', target)
  {
    forall k: RowKey
      ensures At(target, k) == Before(undo + [rec], p, k, At(db', k))
    {
      BeforeAppend(undo, rec, p, k, At(db, k), At(db', k));
    }
  }

  lemma ConsistentAppend(undo: seq<UndoRecord>, rec: UndoRecord, sps: seq<Savepoint>, db: Db, db': Db, base: Db, saved: seq<Db>)
    requires Consistent(undo, sps, db, base, saved)
    requires At(db, KeyOf(rec)) == Restored(rec)
    requires forall k: RowKey | k != KeyOf(rec) :: At(db', k) == At(db, k)
    ensures Consistent(undo + [rec], sps, db', base, saved)
  {
    UndoneAppend(undo, rec, 0, db, db', base);
    forall i | 0 <= i < |sps|
      ensures Undone(undo + [rec], sps[i].undoPosition, db', saved[i])
    {
      UndoneAppend(undo, rec, sps[i].undoPosition, db, db', saved[i]);
    }
  }

  lemma ConsistentSavepoint(undo: seq<UndoRecord>, sps: seq<Savepoint>, db: Db, base: Db, saved: seq<Db>, name: string)
    requires Consistent(undo, sps, db, base, saved)
    ensures Consistent(undo, sps + [Savepoint(name, |undo|)], db, base, saved + [db])
  {
  }

  lemma UndoneAbsorbs(undo: seq<UndoRecord>, p: nat, q: nat, db: Db, db': Db, target: Db)
    requires p <= q <= |undo| && Undone(undo, p, db, target) && Undone(undo, q, db, db')
    ensures Undone(undo, p, db', target)
  {
    forall k: RowKey
      ensures At(target, k) == Before(undo, p, k, At(db', k))
    {
      BeforeAbsorbs(undo, p, q, k, At(db, k));
    }
  }

  /** Undoing from position q, with the log kept, leaves the earlier savepoints and the base restorable. */
  lemma ConsistentUndone(undo: seq<UndoRecord>, sps: seq<Savepoint>, n: nat, q: nat, db: Db, db': Db, base: Db, saved: seq<Db>)
    requires Consistent(undo, sps, db, base, saved) && n <= |sps| && q <= |undo|
    requires forall i | 0 <= i < n :: sps[i].undoPosition <= q
    requires Undone(undo, q, db, db')
    ensures Consistent(undo, sps[..n], db', base, saved[..n])
  {
    UndoneAbsorbs(undo, 0, q, db, db', base);
    forall i | 0 <= i < n
      ensures Undone(undo, sps[i].undoPosition, db', saved[i])
    {
      UndoneAbsorbs(undo, sps[i].undoPosition, q, db, db', saved[i]);
    }
  }

  /** Rolling back to savepoint i gives the very rows it was made with; the log is not cut. */
  lemma RollbackRestores(undo: seq<UndoRecord>, sps: seq<Savepoint>, i: nat, db: Db, db': Db, base: Db, saved: seq<Db>)
    requires Consistent(undo, sps, db, base, saved) && i < |sps|
    requires Undone(undo, sps[i].undoPosition, db, db')
    ensures SameRows(db', saved[i]) && Consistent(undo, sps[..i], db', base, saved[..i])
  {
    ConsistentUndone(undo, sps, i, sps[i].undoPosition, db, db', base, saved);
  }

  // ---------- whole runs, over values ----------

  /** One thing a transaction can do to rows, log and savepoints; the named savepoint goes with a rollback. */
  datatype Action =
    | Change(rec: UndoRecord, db: Db)
    | Mark(name: string)
    | RollTo(i: nat, db: Db)
    | Release(i: nat)

  datatype Txn = Txn(undo: seq<UndoRecord>, sps: seq<Savepoint>, db: Db)

  ghost predicate Acts(t: Txn, a: Action, t': Txn) {
    match a
    case Change(rec, db) =>
      && At(t.db, KeyOf(rec)) == Restored(rec)
      && (forall k: RowKey | k != KeyOf(rec) :: At(db, k) == At(t.db, k))
      && t' == Txn(t.undo + [rec], t.sps, db)
    case Mark(name) => t' == t.(sps := t.sps + [Savepoint(name, |t.undo|)])
    case RollTo(i, db) =>
      && i < |t.sps| && t.sps[i].undoPosition <= |t.undo|
      && Undone(t.undo, t.sps[i].undoPosition, t.db, db)
      && t' == Txn(t.undo, t.sps[..i], db)
    case Release(i) => i < |t.sps| && t' == t.(sps := t.sps[..i])
  }

  ghost predicate IsHistory(acts: seq<Action>, st: seq<Txn>, base: Db) {
    && |st| == |acts| + 1
    && st[0] == Txn([], [], base)
    && forall i, j | 0 <= i < |acts| && j == i + 1 :: Acts(st[i], acts[i], st[j])
  }

  /** The rows each savepoint alive after n actions was made with. */
  ghost function SavedRows(acts: seq<Action>, st: seq<Txn>, base: Db, n: nat): seq<Db>
    requires IsHistory(acts, st, base) && n <= |acts|
    decreases n
  {
    if n == 0 then []
    else
      var before := SavedRows(acts, st, base, n - 1);
      match acts[n - 1]
      case Change(_, _) => before
      case Mark(_) => before + [st[n - 1].db]
      case RollTo(i, _) => if i <= |before| then before[..i] else before
      case Release(i) => if i <= |before| then before[..i] else before
  }

  lemma {:induction false} HistoryConsistent(acts: seq<Action>, st: seq<Txn>, base: Db, n: nat)
    requires IsHistory(acts, st, base) && n <= |acts|
    ensures Consistent(st[n].undo, st[n].sps, st[n].db, base, SavedRows(acts, st, base, n))
    decreases n
  {
    if n > 0 {
      HistoryConsistent(acts, st, base, n - 1);
      var t, t' := st[n - 1], st[n];
      var saved := SavedRows(acts, st, base, n - 1);
      assert Acts(t, acts[n - 1], t');
      match acts[n - 1]
      case Change(rec, db) => ConsistentAppend(t.undo, rec, t.sps, t.db, db, base, saved);
      case Mark(name) => ConsistentSavepoint(t.undo, t.sps, t.db, base, saved, name);
      case RollTo(i, db) => RollbackRestores(t.undo, t.sps, i, t.db, db, base, saved);
      case Release(i) =>
    }
  }

  /** For any nesting and any earlier partial rollbacks: rolling back to a savepoint restores its rows,
      and undoing everything restores the rows before the transaction. */
  lemma EveryRollbackRestores(acts: seq<Action>, st: seq<Txn>, base: Db, n: nat, db: Db)
    requires IsHistory(acts, st, base) && n <= |acts|
    ensures Undone(st[n].undo, 0, st[n].db, db) ==> SameRows(db, base)
    ensures |SavedRows(acts, st, base, n)| == |st[n].sps|
    ensures forall i | 0 <= i < |st[n].sps| ::
              && st[n].sps[i].undoPosition <= |st[n].undo|
              && (Undone(st[n].undo, st[n].sps[i].undoPosition, st[n].db, db) ==> SameRows(db, SavedRows(acts, st, base, n)[i]))
  {
    HistoryConsistent(acts, st, base, n);
  }
}
