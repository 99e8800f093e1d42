/** The storage engine: transactional inserts, updates and deletes over tables, undo, scans and index lookups. */
module Engines {
  import opened Mvcc
  import opened Wrappers
  import opened Tables
  import opened Transactions
  import opened UndoLog
  import opened Vacuuming
  import opened Statements
  import opened Indexing

  method FindDuplicate(t: Table, column: string, v: Value, except: int, o: Observer) returns (dup: bool)
    requires IdsInRange(t.rows, t.lastRowId)
    ensures dup <==> Duplicate(t.rows, column, v, except, o)
  {
    for r := 1 to t.lastRowId + 1
      invariant forall e | e in t.rows && e < r :: !Duplicates(t.rows, e, column, v, except, o)
    {
      if r in t.rows && Duplicates(t.rows, r, column, v, except, o) { return true; }
    }
    return false;
  }

  ghost predicate Logged(undo: seq<UndoRecord>, db: Db) {
    forall i | 0 <= i < |undo| :: undo[i].table in db && 1 <= undo[i].rowId <= db[undo[i].table].lastRowId
  }

  ghost predicate RowsInRange(db: Db) {
    forall name | name in db :: IdsInRange(db[name].rows, db[name].lastRowId)
  }

  ghost predicate Touches(undo: seq<UndoRecord>, from: nat, name: string) {
    exists i | from <= i < |undo| :: undo[i].table == name
  }

  /** b is a with other rows, and perhaps other index contents, in the same tables. */
  ghost predicate SameShape(a: Db, b: Db) {
    && a.Keys == b.Keys
    && forall name | name in a ::
         && b[name].primaryKey == a[name].primaryKey && b[name].lastRowId == a[name].lastRowId
         && SameColumns(a[name].indexes, b[name].indexes)
  }

  class StorageEngine {
    const txn: TransactionManager
    const render: Value -> string
    var tables: Db
    ghost var base: Db           // the rows before the current transaction
    ghost var saved: seq<Db>     // the rows each savepoint was made with
    ghost var grounds: map<string, Grounds> // the rows that each index of each table lists

    /** Rows, log and savepoints fit together. */
    ghost predicate Sound()
      reads this`tables, this`base, this`saved, txn
    {
      && txn.Valid()
      && (txn.xid == INVALID ==> txn.undo == [])
      && RowsInRange(tables)
      && Logged(txn.undo, tables)
      && Consistent(txn.undo, txn.savepoints, tables, base, saved)
    }

    ghost predicate Indexed()
      reads this`tables, this`grounds
    {
      GroundedDb(tables, grounds, render)
    }

    /** The tables with an index on a lasting column that does not list every row under its present key. */
    ghost function Spoiled(): set<string>
      reads this`tables, this`grounds
    {
      Unsteady(tables, grounds, render)
    }

    ghost predicate Valid()
      reads this, txn
    {
      Sound() && Indexed()
    }

    constructor (render: Value -> string)
      ensures Valid() && Spoiled() == {} && tables == map[] && fresh(txn) && this.render == render
    {
      txn := new TransactionManager();
      this.render := render;
      tables, base, saved, grounds := map[], map[], [], map[];
    }

    // ---------- reading ----------

    method ScanWithSnapshot(name: string, o: Observer) returns (r: Outcome<seq<Found>>)
      requires Valid()
      ensures r == if name in tables then Ok(VisibleRows(tables[name].rows, tables[name].lastRowId, o)) else Fail(NoSuchTable)
      ensures name in tables && o.clog == txn.clog && Fresh(o, txn.nextXid, txn.active) ==>
                && r.Ok? && (forall i, j | 0 <= i < j < |r.value| :: r.value[i].rid < r.value[j].rid)
                && forall id, t :: Found(id, t) in r.value <==>
                     && id in tables[name].rows && tables[name].rows[id] == t && 1 <= id <= tables[name].lastRowId
                     && (|| t.hdr.xmin == 0
                         || (t.hdr.xmin == o.me && ToInt32(t.hdr.cid) <= o.cid && t.hdr.xmax != o.me)
                         || (t.hdr.xmin != o.me
                             && (t.hdr.xmin == 2 || (t.hdr.xmin in o.clog && o.clog[t.hdr.xmin] in {Committed, SubCommitted}))
                             && (t.hdr.xmax == 0
                                 || (t.hdr.xmax != o.me && !(t.hdr.xmax in o.clog && o.clog[t.hdr.xmax] == Committed)))))
    {
      if name !in tables { return Fail(NoSuchTable); }
      var t := tables[name];
      var visible := [];
      for rid := 1 to t.lastRowId + 1
        invariant visible == VisibleRows(t.rows, rid - 1, o)
      {
        if rid in t.rows && Sees(o, t.rows[rid]) {
          visible := visible + [Found(rid, t.rows[rid])];
        }
      }
      if o.clog == txn.clog && Fresh(o, txn.nextXid, txn.active) {
        ScanExactly(t.rows, t.lastRowId, o, txn.nextXid, txn.active);
      }
      return Ok(visible);
    }

    /**
     * What the first index on the column lists under the rendered value. That is the scan filtered by the value, in
     * the same order, exactly when the index has noticed every visible row's change to or from the value.
     */
    method IndexLookupWithSnapshot(name: string, column: string, value: Value, o: Observer) returns (r: seq<Found>)
      requires Valid()
      ensures name !in tables || FirstOn(tables[name].indexes, column) == |tables[name].indexes| ==> r == []
      ensures name in tables && FirstOn(tables[name].indexes, column) < |tables[name].indexes| ==>
                var t, key := tables[name], render(value);
                var ground := grounds[name][FirstOn(t.indexes, column)];
                && r == Fetch(t.rows, Select(ground, t.lastRowId, column, key, render), o)
                && (r == Matching(VisibleRows(t.rows, t.lastRowId, o), column, key, render) <==>
                      forall id | 1 <= id <= t.lastRowId :: NoticedAt(t.rows, ground, id, o, column, key, render))
      ensures name in tables && FirstOn(tables[name].indexes, column) < |tables[name].indexes|
              && name !in Spoiled() && Lasting(column) ==>
                r == Matching(VisibleRows(tables[name].rows, tables[name].lastRowId, o), column, render(value), render)
    {
      if name !in tables { return []; }
      var i := FindIndex(tables[name].indexes, column);
      if i == |tables[name].indexes| { return []; }
      r := LookupAt(tables[name], grounds[name], i, render(value), o, render);
    }

    static method FindIndex(indexes: seq<Index>, column: string) returns (i: nat)
      ensures i == FirstOn(indexes, column)
    {
      i := 0;
      while i < |indexes| && indexes[i].column != column
        invariant i <= |indexes| && forall j | 0 <= j < i :: indexes[j].column != column
      {
        i := i + 1;
      }
    }

    static method LookupAt(t: Table, ghost g: Grounds, i: nat, key: string, o: Observer, render: Value -> string) returns (r: seq<Found>)
      requires Grounded(t, g, render) && IdsInRange(t.rows, t.lastRowId) && i < |t.indexes|
      ensures var c := t.indexes[i].column;
              var scan := Matching(VisibleRows(t.rows, t.lastRowId, o), c, key, render);
              && r == Fetch(t.rows, Select(g[i], t.lastRowId, c, key, render), o)
              && (r == scan <==> forall id | 1 <= id <= t.lastRowId :: NoticedAt(t.rows, g[i], id, o, c, key, render))
              && (SteadyTable(t, g, render) && Lasting(c) ==> r == scan)
    {
      var entries := t.indexes[i].entries;
      var ids := if key in entries then entries[key] else [];
      r := Probe(t.rows, ids, o);
      LookupThrough(t, g, i, o, key, render);
    }

    static method Probe(rows: Rows, ids: seq<int>, o: Observer) returns (r: seq<Found>)
      ensures r == Fetch(rows, ids, o)
    {
      r := [];
      for i := 0 to |ids|
        invariant r == Fetch(rows, ids[..i], o)
      {
        FetchAppend(rows, ids[..i], ids[i], o);
        assert ids[..i + 1] == ids[..i] + [ids[i]];
        if ids[i] in rows && Sees(o, rows[ids[i]]) {
          r := r + [Found(ids[i], rows[ids[i]])];
        }
      }
      assert ids[..|ids|] == ids;
    }

    // ---------- index maintenance ----------

    static method BuildEntries(rows: Rows, n: nat, column: string, render: Value -> string) returns (entries: map<string, seq<int>>)
      ensures forall key :: EntriesAt(entries, key) == Select(rows, n, column, key, render)
    {
      entries := map[];
      for rid := 1 to n + 1
        invariant forall key :: EntriesAt(entries, key) == Select(rows, rid - 1, column, key, render)
      {
        ghost var was := entries;
        if rid in rows {
          var cell := Cell(rid, rows[rid], column);
          if cell.Some? {
            var k := render(cell.value);
            entries := entries[k := EntriesAt(entries, k) + [rid]];
          }
        }
        forall key
          ensures EntriesAt(entries, key) == Select(rows, rid, column, key, render)
        {
          assert EntriesAt(was, key) == Select(rows, rid - 1, column, key, render);
        }
      }
    }

    method RebuildIndexes(name: string)
      requires name in tables
      modifies this`tables, this`grounds
      ensures tables.Keys == old(tables.Keys) && Grounded(tables[name], Afresh(tables[name]), render)
      ensures grounds == old(grounds)[name := Afresh(tables[name])]
      ensures Spoiled() <= old(Spoiled()) - {name}
      ensures tables == old(tables)[name := old(tables[name]).(indexes := tables[name].indexes)]
      ensures SameColumns(old(tables[name].indexes), tables[name].indexes)
      ensures SameRows(old(tables), tables)
    {
      ghost var was, before := tables, grounds;
      var t := tables[name];
      var indexes: seq<Index> := [];
      for i := 0 to |t.indexes|
        modifies {}
        invariant |indexes| == i
        invariant forall j | 0 <= j < i :: indexes[j].column == t.indexes[j].column
        invariant forall j | 0 <= j < i :: Agrees(indexes[j], t.rows, t.lastRowId, render)
      {
        var entries := BuildEntries(t.rows, t.lastRowId, t.indexes[i].column, render);
        indexes := indexes + [Index(t.indexes[i].column, entries)];
      }
      tables := tables[name := t.(indexes := indexes)];
      grounds := grounds[name := Afresh(tables[name])];
      BuiltGrounded(tables[name], render);
      RebuiltUnsteady(was, before, tables, grounds, name, render);
    }

    static method RegisterRow(indexes: seq<Index>, rid: int, t: Tuple, render: Value -> string) returns (out: seq<Index>)
      ensures SameColumns(indexes, out)
      ensures forall i, key | 0 <= i < |indexes| ::
                EntriesAt(out[i].entries, key) == Registered(indexes[i], rid, t, key, render)
    {
      out := [];
      for i := 0 to |indexes|
        invariant |out| == i
        invariant forall j | 0 <= j < i :: out[j].column == indexes[j].column
        invariant forall j, key | 0 <= j < i :: EntriesAt(out[j].entries, key) == Registered(indexes[j], rid, t, key, render)
      {
        var idx := indexes[i];
        var cell := Cell(rid, t, idx.column);
        if cell.Some? {
          var k := render(cell.value);
          var list := EntriesAt(idx.entries, k);
          idx := idx.(entries := idx.entries[k := if rid in list then list else list + [rid]]);
        }
        out := out + [idx];
      }
    }

    // ---------- transactional statements ----------

    /**
     * A statement that got as far as its rows runs under the transaction's id: the one it has, or the next one, now
     * active and running. Any other statement leaves the ids alone.
     */
    ghost predicate OwnXid(xid0: Xid, next0: Xid, active0: set<Xid>, started: bool)
      reads txn`xid, txn`nextXid, txn`active, txn`clog
    {
      if started then
        && txn.xid == (if xid0 != INVALID then xid0 else next0) && txn.xid != INVALID
        && txn.nextXid == next0 + (if xid0 != INVALID then 0 else 1)
        && txn.active == active0 + {txn.xid} && txn.xid in txn.clog && txn.clog[txn.xid] == InProgress
      else txn.xid == xid0 && txn.nextXid == next0 && txn.active == active0
    }

    method Number() returns (ok: bool)
      requires Valid()
      modifies txn`nextXid, txn`clog, txn`active, txn`xid
      ensures Valid() && OnlyAborts(old(txn.clog), txn.clog) && (ok ==> txn.xid != INVALID)
      ensures OwnXid(old(txn.xid), old(txn.nextXid), old(txn.active), ok)
      ensures ok <==> old(txn.xid) != INVALID || old(txn.nextXid) < EMERGENCY_STOP
    {
      ok := txn.AssignXid();
    }

    /** An observer with a snapshot taken now, inside the current transaction. */
    method Observe() returns (o: Observer)
      requires txn.Valid()
      ensures o.me == txn.xid && o.cid == txn.commandId && o.clog == txn.clog
      ensures FreshSnapshot(o.snap, txn.nextXid, txn.active)
    {
      var snap := txn.GetSnapshot();
      return Observer(txn.xid, snap, txn.commandId, txn.clog);
    }

    static method PrimaryKeyTaken(t: Table, id: int, row: Tuple, o: Observer) returns (taken: bool)
      requires IdsInRange(t.rows, t.lastRowId)
      ensures taken <==> TakenKey(t, id, row, o)
    {
      for i := 0 to |t.primaryKey|
        invariant forall j | 0 <= j < i :: !TakenKeyAt(t, j, id, row, o)
      {
        var cell := Cell(id, row, t.primaryKey[i]);
        if cell.Some? {
          var dup := FindDuplicate(t, t.primaryKey[i], cell.value, 0, o);
          if dup {
            assert TakenKeyAt(t, i, id, row, o);
            return true;
          }
        }
      }
      return false;
    }

    /** validated is the row with defaults and types applied, None when validation throws. */
    method InsertWithTxn(name: string, validated: Option<Row>) returns (r: Outcome<int>, ghost o: Observer)
      requires Valid()
      modifies this`tables, this`grounds, txn`nextXid, txn`clog, txn`active, txn`xid, txn`undo
      ensures OwnXid(old(txn.xid), old(txn.nextXid), old(txn.active), r.Ok? || r.why == DuplicateKey)
      ensures Valid() && OnlyAborts(old(txn.clog), txn.clog)
      ensures if r.Ok? then name in old(tables) && validated.Some? && InsertNoted(old(grounds), name, r.value, Strip(validated.value), txn, grounds)
              else grounds == old(grounds)
      ensures Spoiled() <= old(Spoiled())
      ensures if name !in old(tables) then r == Fail(NoSuchTable)
              else if validated.None? then r == Fail(InvalidRow)
              else r.Ok? || r.why == XidsExhausted || r.why == DuplicateKey
      ensures name !in old(tables) || validated.None? ==>
                tables == old(tables) && txn.undo == old(txn.undo) && txn.xid == old(txn.xid)
      ensures r == Fail(XidsExhausted) ==>
                tables == old(tables)[name := Advanced(old(tables[name]))] && txn.undo == old(txn.undo)
      ensures name in old(tables) && validated.Some? && r != Fail(XidsExhausted) ==>
                InsertResult(old(tables), name, Strip(validated.value), o, txn, old(txn.undo), tables, r)
    {
      o := NoObserver();
      if name !in tables { return Fail(NoSuchTable), o; }
      if validated.None? { return Fail(InvalidRow), o; }
      r, o := InsertNumbered(name, Strip(validated.value));
    }

    /** The row counter, then the transaction id. */
    method InsertNumbered(name: string, cols: Row) returns (r: Outcome<int>, ghost o: Observer)
      requires Valid() && name in tables
      modifies this`tables, this`grounds, txn`nextXid, txn`clog, txn`active, txn`xid, txn`undo
      ensures OwnXid(old(txn.xid), old(txn.nextXid), old(txn.active), r.Ok? || r.why == DuplicateKey)
      ensures Valid() && OnlyAborts(old(txn.clog), txn.clog) && Spoiled() <= old(Spoiled())
      ensures r.Ok? || r.why == XidsExhausted || r.why == DuplicateKey
      ensures if r.Ok? then InsertNoted(old(grounds), name, r.value, cols, txn, grounds) else grounds == old(grounds)
      ensures if r == Fail(XidsExhausted) then tables == old(tables)[name := Advanced(old(tables[name]))] && txn.undo == old(txn.undo)
              else InsertResult(old(tables), name, cols, o, txn, old(txn.undo), tables, r)
    {
      o := NoObserver();
      ghost var was := tables;
      Advance(name);
      var ok := Number();
      if !ok { return Fail(XidsExhausted), o; }
      r, o := InsertChecked(name, cols, was);
    }

    method InsertChecked(name: string, cols: Row, ghost was: Db) returns (r: Outcome<int>, ghost o: Observer)
      requires Valid() && txn.xid != INVALID && RowsInRange(was)
      requires name in was && tables == was[name := Advanced(was[name])]
      modifies this`tables, this`grounds, txn`undo
      ensures Valid() && (r.Ok? || r.why == DuplicateKey)
      ensures if r.Ok? then InsertNoted(old(grounds), name, r.value, cols, txn, grounds) else grounds == old(grounds)
      ensures Spoiled() <= old(Spoiled())
      ensures InsertResult(was, name, cols, o, txn, old(txn.undo), tables, r)
    {
      var id := tables[name].lastRowId;
      var row := Tuple(Header(txn.xid, INVALID, txn.commandId), cols);
      var obs := Observe();
      o := obs;
      var taken := PrimaryKeyTaken(tables[name], id, row, obs);
      TakenEither(was[name], tables[name], id, row, o);
      r := PutUnless(taken, name, row);
    }

    method PutUnless(taken: bool, name: string, row: Tuple) returns (r: Outcome<int>)
      requires Valid() && txn.xid != INVALID
      requires name in tables && tables[name].lastRowId > 0 && tables[name].lastRowId !in tables[name].rows
      modifies this`tables, this`grounds, txn`undo
      ensures Valid() && Spoiled() <= old(Spoiled())
      ensures r == if taken then Fail(DuplicateKey) else Ok(old(tables[name].lastRowId))
      ensures taken ==> tables == old(tables) && grounds == old(grounds) && txn.undo == old(txn.undo)
      ensures !taken ==>
                && name in old(grounds) && grounds == old(grounds)[name := Noted(old(grounds[name]), old(tables[name].lastRowId), row)]
                && name in tables
                && var t := old(tables[name]);
                   && tables == old(tables)[name := t.(rows := t.rows[t.lastRowId := row], indexes := tables[name].indexes)]
                   && txn.undo == old(txn.undo) + [UndoRecord(InsertOp, name, t.lastRowId, row)]
    {
      if taken { return Fail(DuplicateKey); }
      r := Ok(tables[name].lastRowId);
      PutNew(name, row);
    }

    /** ++row_ids_[name]. */
    method Advance(name: string)
      requires Valid() && name in tables
      modifies this`tables
      ensures Valid() && Spoiled() <= old(Spoiled())
      ensures tables == old(tables)[name := Advanced(old(tables[name]))]
    {
      ghost var was := tables;
      var t := tables[name];
      tables := tables[name := Advanced(t)];
      ConsistentSameRows(txn.undo, txn.savepoints, was, tables, base, saved);
      GroundedLonger(t, grounds[name], render);
      CountedUnsteady(was, grounds, name, render);
    }

    /** Undo record, put and index registration of a new row with the id just drawn. */
    method PutNew(name: string, row: Tuple)
      requires Valid() && txn.xid != INVALID
      requires name in tables && tables[name].lastRowId > 0
      requires tables[name].lastRowId !in tables[name].rows
      modifies this`tables, this`grounds, txn`undo
      ensures Valid() && Spoiled() <= old(Spoiled())
      ensures name in old(grounds) && grounds == old(grounds)[name := Noted(old(grounds[name]), old(tables[name].lastRowId), row)]
      ensures name in tables && var t := old(tables[name]);
              && tables == old(tables)[name := t.(rows := t.rows[t.lastRowId := row], indexes := tables[name].indexes)]
              && SameColumns(t.indexes, tables[name].indexes)
              && txn.undo == old(txn.undo) + [UndoRecord(InsertOp, name, t.lastRowId, row)]
    {
      ghost var was := tables;
      var t := tables[name];
      var id := t.lastRowId;
      var rec := UndoRecord(InsertOp, name, id, row);
      var indexes := RegisterRow(t.indexes, id, row, render);
      ConsistentAppend(txn.undo, rec, txn.savepoints, tables, tables[name := t.(rows := t.rows[id := row], indexes := indexes)], base, saved);
      RegisteredGrounded(t, grounds[name], row, indexes, render);
      txn.undo := txn.undo + [rec];
      tables := tables[name := t.(rows := t.rows[id := row], indexes := indexes)];
      ghost var before := grounds;
      grounds := grounds[name := Noted(grounds[name], id, row)];
      NotedUnsteady(was, before, tables, grounds, name, id, row, render);
    }

    /** Undo record, erase and put of one row; the indexes are left for later. */
    method Rewrite(name: string, rid: int, edit: Edit, o: Observer)
      requires name in tables && rid in tables[name].rows && o.cid >= 0
      modifies this`tables, txn`undo
      ensures var t := old(tables[name]);
              && tables == old(tables)[name := t.(rows := t.rows[rid := NewVersion(t.rows[rid], edit, o.me, o.cid)])]
              && txn.undo == old(txn.undo) + [RecordOf(name, t.rows, rid, edit)]
    {
      var t := tables[name];
      var oldRow := t.rows[rid];
      txn.undo := txn.undo + [UndoRecord(if edit.Assign? then UpdateOp else DeleteOp, name, rid, oldRow)];
      tables := tables[name := t.(rows := t.rows - {rid})];
      tables := tables[name := t.(rows := (t.rows - {rid})[rid := NewVersion(oldRow, edit, o.me, o.cid)])];
      assert (t.rows - {rid})[rid := NewVersion(oldRow, edit, o.me, o.cid)] == t.rows[rid := NewVersion(oldRow, edit, o.me, o.cid)];
    }

    static method KeyClash(t: Table, rid: int, o: Observer, updates: Row) returns (clash: bool)
      requires IdsInRange(t.rows, t.lastRowId)
      ensures clash <==> Clashes(t, rid, o, updates)
    {
      for i := 0 to |t.primaryKey|
        invariant forall j | 0 <= j < i :: !ClashesAt(t, j, rid, o, updates)
      {
        var column := t.primaryKey[i];
        if column in updates {
          var dup := FindDuplicate(t, column, updates[column], rid, o);
          if dup {
            assert ClashesAt(t, i, rid, o, updates);
            return true;
          }
        }
      }
      return false;
    }

    /** The rows of ids up to upto have been treated when the loop ends or throws. */
    method UpdateRows(name: string, m: Match, updates: Row, o: Observer) returns (r: Outcome<nat>, ghost upto: nat)
      requires name in tables && IdsInRange(tables[name].rows, tables[name].lastRowId) && o.cid >= 0
      modifies this`tables, txn`undo
      ensures EditResult(old(tables), name, m, Assign(updates), o, old(txn.undo), tables, txn.undo, upto)
      ensures tables[name].indexes == old(tables[name].indexes)
      ensures UpdateOutcome(old(tables[name]), name, m, updates, o, r, upto)
    {
      ghost var was, log := tables, txn.undo;
      var t := tables[name];
      EditedNone(t.rows, o, m);
      var count := 0;
      var edit := Assign(updates);
      for rid := 1 to t.lastRowId + 1
        invariant EditResult(was, name, m, edit, o, log, tables, txn.undo, rid - 1)
        invariant tables[name].indexes == t.indexes
        invariant count == |EditLog(name, t.rows, rid - 1, o, m, edit)|
        invariant NoClash(t, m, updates, o, rid - 1)
      {
        EditResultStep(was, name, m, edit, o, log, tables, txn.undo, rid - 1);
        if Hit(t.rows, rid, o, m) {
          var clash := KeyClash(t, rid, o, updates);
          if clash { return Fail(DuplicateKey), rid - 1; }
          Rewrite(name, rid, edit, o);
          count := count + 1;
        }
      }
      return Ok(count), t.lastRowId;
    }

    method DeleteRows(name: string, m: Match, o: Observer) returns (count: nat)
      requires name in tables && IdsInRange(tables[name].rows, tables[name].lastRowId) && o.cid >= 0
      modifies this`tables, txn`undo
      ensures EditResult(old(tables), name, m, Delete, o, old(txn.undo), tables, txn.undo, old(tables[name].lastRowId))
      ensures tables[name].indexes == old(tables[name].indexes)
      ensures count == |EditLog(name, old(tables[name].rows), old(tables[name].lastRowId), o, m, Delete)|
    {
      ghost var was, log := tables, txn.undo;
      var t := tables[name];
      EditedNone(t.rows, o, m);
      count := 0;
      for rid := 1 to t.lastRowId + 1
        invariant EditResult(was, name, m, Delete, o, log, tables, txn.undo, rid - 1)
        invariant tables[name].indexes == t.indexes
        invariant count == |EditLog(name, t.rows, rid - 1, o, m, Delete)|
      {
        EditResultStep(was, name, m, Delete, o, log, tables, txn.undo, rid - 1);
        if Hit(t.rows, rid, o, m) {
          Rewrite(name, rid, Delete, o);
          count := count + 1;
        }
      }
    }

    /**
     * Ok(n): n rows were updated, and indexes rebuilt if one is on an assigned column. On a key clash at most one row
     * has been rewritten, and the indexes have not noticed.
     */
    method UpdateWithTxn(name: string, m: Match, updates: Row) returns (r: Outcome<nat>, ghost o: Observer, ghost upto: nat)
      requires Valid()
      modifies this`tables, this`grounds, txn`nextXid, txn`clog, txn`active, txn`xid, txn`undo
      ensures OwnXid(old(txn.xid), old(txn.nextXid), old(txn.active), r.Ok? || r.why == DuplicateKey)
      ensures Valid() && OnlyAborts(old(txn.clog), txn.clog)
      ensures r.Fail? && r.why != DuplicateKey <==> name !in old(tables) || r == Fail(XidsExhausted)
      ensures r.Fail? && r.why != DuplicateKey ==> tables == old(tables) && txn.undo == old(txn.undo) && grounds == old(grounds)
      ensures r.Ok? || r.why == DuplicateKey ==>
                && name in old(tables) && Observes(o, txn)
                && EditResult(old(tables), name, m, Assign(updates), o, old(txn.undo), tables, txn.undo, upto)
                && UpdateOutcome(old(tables[name]), name, m, updates, o, r, upto)
                && SameColumns(old(tables[name].indexes), tables[name].indexes)
                && (if r.Ok? && AffectsIndex(old(tables[name]), updates)
                    then grounds == old(grounds)[name := Afresh(tables[name])]
                    else grounds == old(grounds) && tables[name].indexes == old(tables[name].indexes))
      ensures r == Fail(DuplicateKey) ==> |txn.undo| <= |old(txn.undo)| + 1
      ensures r == Fail(DuplicateKey) ==>
                && (RewrittenKeep(old(tables[name]), upto, o, m, Assign(updates), o.cid, render) ==> Spoiled() <= old(Spoiled()))
                && (name !in old(Spoiled()) ==>
                      (name in Spoiled() <==> !RewrittenKeep(old(tables[name]), upto, o, m, Assign(updates), o.cid, render)))
      ensures r != Fail(DuplicateKey) ==> Spoiled() <= old(Spoiled())
    {
      o, upto := NoObserver(), 0;
      if name !in tables { return Fail(NoSuchTable), o, upto; }
      var ok := Number();
      if !ok { return Fail(XidsExhausted), o, upto; }
      r, o, upto := UpdateChecked(name, m, updates);
      if r.Fail? { ClashLogsOne(name, old(tables[name]), m, updates, o, upto); }
    }

    method UpdateChecked(name: string, m: Match, updates: Row) returns (r: Outcome<nat>, ghost o: Observer, ghost upto: nat)
      requires Valid() && txn.xid != INVALID && name in tables
      modifies this`tables, this`grounds, txn`undo
      ensures Valid() && Observes(o, txn)
      ensures r.Ok? || r.why == DuplicateKey
      ensures EditResult(old(tables), name, m, Assign(updates), o, old(txn.undo), tables, txn.undo, upto)
      ensures UpdateOutcome(old(tables[name]), name, m, updates, o, r, upto)
      ensures SameColumns(old(tables[name].indexes), tables[name].indexes)
      ensures if r.Ok? && AffectsIndex(old(tables[name]), updates)
              then grounds == old(grounds)[name := Afresh(tables[name])]
              else grounds == old(grounds) && tables[name].indexes == old(tables[name].indexes)
      ensures r.Ok? || RewrittenKeep(old(tables[name]), upto, o, m, Assign(updates), o.cid, render) ==> Spoiled() <= old(Spoiled())
      ensures r.Fail? && name !in old(Spoiled()) ==>
                (name in Spoiled() <==> !RewrittenKeep(old(tables[name]), upto, o, m, Assign(updates), o.cid, render))
    {
      var obs := Observe();
      o := obs;
      var indexAffected := AffectsIndex(tables[name], updates);
      ghost var was, log := tables, txn.undo;
      r, upto := UpdateUnindexed(name, m, updates, obs);
      if !indexAffected { UnaffectedKeeps(was[name], upto, o, m, Assign(updates), o.cid, render); }
      ghost var edited := tables;
      RebuildIf(name, indexAffected && r.Ok?);
      EditReindexed(was, name, m, Assign(updates), o, log, edited, tables, txn.undo, upto);
    }

    /** The loop over the rows; the indexes have not noticed it. */
    method UpdateUnindexed(name: string, m: Match, updates: Row, o: Observer) returns (r: Outcome<nat>, ghost upto: nat)
      requires Valid() && txn.xid != INVALID && name in tables && Observes(o, txn)
      modifies this`tables, txn`undo
      ensures Valid() && Observes(o, txn)
      ensures EditResult(old(tables), name, m, Assign(updates), o, old(txn.undo), tables, txn.undo, upto)
      ensures tables[name].indexes == old(tables[name].indexes)
      ensures UpdateOutcome(old(tables[name]), name, m, updates, o, r, upto)
      ensures RewrittenKeep(old(tables[name]), upto, o, m, Assign(updates), o.cid, render) ==> Spoiled() <= old(Spoiled())
      ensures name !in old(Spoiled()) ==>
                (name in Spoiled() <==> !RewrittenKeep(old(tables[name]), upto, o, m, Assign(updates), o.cid, render))
      ensures Spoiled() - {name} <= old(Spoiled())
    {
      ghost var was, log := tables, txn.undo;
      r, upto := UpdateRows(name, m, updates, o);
      EditSound(was, name, m, Assign(updates), o, log, tables, txn.undo, upto, txn.savepoints, base, saved);
      EditedUnsteady(was, grounds, tables, name, upto, o, m, Assign(updates), render);
    }

    method RebuildIf(name: string, due: bool)
      requires Valid() && name in tables
      modifies this`tables, this`grounds
      ensures Valid() && name in tables
      ensures if due then Spoiled() <= old(Spoiled()) - {name} else Spoiled() == old(Spoiled())
      ensures if due then grounds == old(grounds)[name := Afresh(tables[name])]
              else grounds == old(grounds) && tables[name].indexes == old(tables[name].indexes)
      ensures tables == old(tables)[name := old(tables[name]).(indexes := tables[name].indexes)]
      ensures SameColumns(old(tables[name].indexes), tables[name].indexes)
    {
      if due { RebuildTable(name); }
    }

    /** A rebuild makes the indexes of one table right again and touches nothing else. */
    method RebuildTable(name: string)
      requires Valid() && name in tables
      modifies this`tables, this`grounds
      ensures Valid() && name in tables && grounds == old(grounds)[name := Afresh(tables[name])]
      ensures Spoiled() <= old(Spoiled()) - {name}
      ensures tables == old(tables)[name := old(tables[name]).(indexes := tables[name].indexes)]
      ensures SameColumns(old(tables[name].indexes), tables[name].indexes)
    {
      ghost var now := tables;
      RebuildIndexes(name);
      ConsistentSameRows(txn.undo, txn.savepoints, now, tables, base, saved);
    }

    /** Ok(n): n rows got a tombstone; no index notices. */
    method RemoveWithTxn(name: string, m: Match) returns (r: Outcome<nat>, ghost o: Observer)
      requires Valid()
      modifies this`tables, txn`nextXid, txn`clog, txn`active, txn`xid, txn`undo
      ensures OwnXid(old(txn.xid), old(txn.nextXid), old(txn.active), r.Ok?)
      ensures Valid() && OnlyAborts(old(txn.clog), txn.clog) && Spoiled() <= old(Spoiled())
      ensures r.Fail? <==> name !in old(tables) || r == Fail(XidsExhausted)
      ensures r.Fail? ==> tables == old(tables) && txn.undo == old(txn.undo)
      ensures r.Ok? ==>
                && name in old(tables) && Observes(o, txn)
                && EditResult(old(tables), name, m, Delete, o, old(txn.undo), tables, txn.undo, old(tables[name]).lastRowId)
                && r.value == |EditLog(name, old(tables[name]).rows, old(tables[name]).lastRowId, o, m, Delete)|
                && tables[name].indexes == old(tables[name].indexes)
    {
      o := NoObserver();
      if name !in tables { return Fail(NoSuchTable), o; }
      var ok := Number();
      if !ok { return Fail(XidsExhausted), o; }
      r, o := RemoveChecked(name, m);
    }

    method RemoveChecked(name: string, m: Match) returns (r: Outcome<nat>, ghost o: Observer)
      requires Valid() && txn.xid != INVALID && name in tables
      modifies this`tables, txn`undo
      ensures Valid() && Observes(o, txn) && Spoiled() <= old(Spoiled())
      ensures EditResult(old(tables), name, m, Delete, o, old(txn.undo), tables, txn.undo, old(tables[name]).lastRowId)
      ensures r == Ok(|EditLog(name, old(tables[name]).rows, old(tables[name]).lastRowId, o, m, Delete)|)
      ensures tables[name].indexes == old(tables[name].indexes)
    {
      var obs := Observe();
      o := obs;
      ghost var was, log := tables, txn.undo;
      var count := DeleteRows(name, m, obs);
      EditSound(was, name, m, Delete, o, log, tables, txn.undo, was[name].lastRowId, txn.savepoints, base, saved);
      EditedUnsteady(was, grounds, tables, name, was[name].lastRowId, o, m, Delete, render);
      return Ok(count), o;
    }

    // ---------- undo ----------

    /** Erase, then put back the old row unless the operation was an insert. */
    method ApplyUndoRecord(rec: UndoRecord)
      modifies this`tables
      ensures tables == UndoOne(old(tables), rec)
    {
      if rec.table !in tables { return; }
      var t := tables[rec.table];
      tables := tables[rec.table := t.(rows := t.rows - {rec.rowId})];
      if rec.op == InsertOp { return; }
      var erased := tables[rec.table];
      tables := tables[rec.table := erased.(rows := erased.rows[rec.rowId := rec.before])];
      assert erased.rows[rec.rowId := rec.before] == t.rows[rec.rowId := rec.before];
    }

    /** The records from start on, last one first. */
    method UndoRows(start: nat)
      requires start <= |txn.undo| && Logged(txn.undo, tables) && RowsInRange(tables)
      modifies this`tables
      ensures Undone(txn.undo, start, old(tables), tables)
      ensures SameShape(old(tables), tables) && RowsInRange(tables)
      ensures UntouchedSame(txn.undo, start, old(tables), tables)
    {
      ghost var was := tables;
      var i := |txn.undo|;
      while i > start
        invariant start <= i <= |txn.undo|
        invariant Undone(txn.undo, i, was, tables)
        invariant SameShape(was, tables) && RowsInRange(tables)
        invariant UntouchedSame(txn.undo, start, was, tables)
      {
        LoggedAt(txn.undo, i - 1, was, tables);
        UndoneStep(txn.undo, i - 1, was, tables);
        UndoOneShape(was, tables, txn.undo[i - 1]);
        UndoOneUntouched(txn.undo, start, i - 1, was, tables);
        ApplyUndoRecord(txn.undo[i - 1]);
        i := i - 1;
      }
    }

    /** Every table named in a record from start on gets its indexes rebuilt. */
    method RebuildTouched(start: nat)
      requires start <= |txn.undo| && Logged(txn.undo, tables) && grounds.Keys == tables.Keys
      modifies this`tables, this`grounds
      ensures SameShape(old(tables), tables) && SameRows(old(tables), tables) && grounds.Keys == tables.Keys
      ensures forall name | name in tables && Touches(txn.undo, start, name) ::
                grounds[name] == Afresh(tables[name]) && Grounded(tables[name], grounds[name], render)
      ensures forall name | name in tables && !Touches(txn.undo, start, name) ::
                tables[name] == old(tables)[name] && grounds[name] == old(grounds)[name]
    {
      ghost var was, before := tables, grounds;
      var i := |txn.undo|;
      while i > start
        invariant start <= i <= |txn.undo|
        invariant RebuiltSoFar(txn.undo, start, i, was, before, tables, grounds, render)
      {
        ghost var was', before' := tables, grounds;
        RebuildIndexes(txn.undo[i - 1].table);
        RebuiltStep(txn.undo, start, i, was, before, was', before', tables, grounds, render);
        i := i - 1;
      }
    }

    /** The last count records undone and the tables they name re-indexed; the log itself stays. */
    method ApplyUndoTo(count: nat)
      requires Logged(txn.undo, tables) && RowsInRange(tables) && Indexed()
      modifies this`tables, this`grounds
      ensures var start := if count > |txn.undo| then 0 else |txn.undo| - count;
              && Undone(txn.undo, start, old(tables), tables)
              && grounds == Regrounded(old(grounds), tables, txn.undo, start)
              && (forall name | Touches(txn.undo, start, name) :: name !in Spoiled())
      ensures SameShape(old(tables), tables) && RowsInRange(tables) && Indexed() && Spoiled() <= old(Spoiled())
    {
      ghost var was, before := tables, grounds;
      var start := if count > |txn.undo| then 0 else |txn.undo| - count;
      UndoRows(start);
      ghost var undone := tables;
      RebuildTouched(start);
      UndoneSameRows(txn.undo, start, was, undone, tables);
      RangeSameRows(undone, tables);
      forall name | name in tables && !Touches(txn.undo, start, name)
        ensures tables[name] == was[name] && grounds[name] == before[name]
      {
        assert undone[name] == was[name];
      }
      RegroundedIs(was, before, tables, grounds, txn.undo, start, render);
    }

    method ApplyUndo()
      requires Logged(txn.undo, tables) && RowsInRange(tables) && Indexed()
      modifies this`tables, this`grounds
      ensures Undone(txn.undo, 0, old(tables), tables)
      ensures grounds == Regrounded(old(grounds), tables, txn.undo, 0)
      ensures forall name | Touches(txn.undo, 0, name) :: name !in Spoiled()
      ensures SameShape(old(tables), tables) && RowsInRange(tables) && Indexed() && Spoiled() <= old(Spoiled())
    {
      ApplyUndoTo(|txn.undo|);
    }

    // ---------- transaction control, as the server drives it ----------

    // From the default state, records of statements that ran outside any command are forgotten: the present rows become
    // the base. Savepoints into such a log would dangle, so with any of them left nothing can be restored.

    method BeginTransaction() returns (ok: bool)
      requires Valid()
      modifies this`base, this`saved, txn`xid, txn`commandId, txn`undo, txn`blockState
      ensures old(Keepable()) ==> Valid()
      ensures ok <==> old(txn.blockState) in {DefaultState, Started}
      ensures txn.blockState == if ok then Begin else old(txn.blockState)
      ensures if old(txn.blockState) == DefaultState then txn.xid == INVALID && txn.commandId == 0 && txn.undo == []
              else txn.xid == old(txn.xid) && txn.commandId == old(txn.commandId) && txn.undo == old(txn.undo)
      ensures if old(txn.blockState == DefaultState && txn.undo != []) then base == tables && saved == []
              else base == old(base) && saved == old(saved)
      ensures txn.undo == [] ==> SameRows(tables, base)
    {
      Forget();
      ok := txn.BeginTransactionBlock();
    }

    method StartStatement()
      requires Valid()
      modifies this`base, this`saved, txn`xid, txn`commandId, txn`undo, txn`blockState
      ensures old(Keepable()) ==> Valid()
      ensures txn.blockState == if old(txn.blockState) == DefaultState then Started else old(txn.blockState)
      ensures if old(txn.blockState) == DefaultState then txn.xid == INVALID && txn.commandId == 0 && txn.undo == []
              else txn.xid == old(txn.xid) && txn.commandId == old(txn.commandId) && txn.undo == old(txn.undo)
      ensures if old(txn.blockState == DefaultState && txn.undo != []) then base == tables && saved == []
              else base == old(base) && saved == old(saved)
      ensures txn.undo == [] ==> SameRows(tables, base)
    {
      Forget();
      txn.StartTransactionCommand();
    }

    /** Leaving the default state with records in the log is only survived without savepoints. */
    ghost predicate Keepable()
      reads txn
    {
      txn.blockState == DefaultState && txn.undo != [] ==> txn.savepoints == []
    }

    ghost method Forget()
      requires Valid()
      modifies this`base, this`saved
      ensures if txn.blockState == DefaultState && txn.undo != [] then base == tables && saved == [] else base == old(base) && saved == old(saved)
      ensures txn.undo == [] ==> SameRows(tables, base)
      ensures Keepable() && txn.blockState == DefaultState ==> Consistent([], txn.savepoints, tables, base, saved)
    {
      if txn.blockState == DefaultState && txn.undo != [] {
        base, saved := tables, [];
      }
    }

    method SetSavepoint(name: string)
      requires Valid()
      modifies this`saved, txn`savepoints
      ensures Valid() && saved == old(saved) + [tables]
      ensures txn.savepoints == old(txn.savepoints) + [Savepoint(name, |txn.undo|)]
    {
      ConsistentSavepoint(txn.undo, txn.savepoints, tables, base, saved, name);
      txn.SetSavepoint(name);
      saved := saved + [tables];
    }

    /** Every row is again what it was when the latest savepoint of that name was made. */
    method RollbackTo(name: string) returns (ok: bool, ghost k: int)
      requires Valid()
      modifies this`tables, this`saved, this`grounds, txn`savepoints
      ensures Valid() && old(IsLatest(txn.savepoints, name, k)) && (ok <==> k >= 0)
      ensures !ok ==> tables == old(tables) && txn.savepoints == old(txn.savepoints) && saved == old(saved)
      ensures Spoiled() <= old(Spoiled())
      ensures ok ==> k < |old(saved)| && SameRows(tables, old(saved)[k]) && SameShape(old(tables), tables)
      ensures ok ==> txn.savepoints == old(txn.savepoints)[..k] && saved == old(saved)[..k]
    {
      ghost var sps := txn.savepoints;
      var count;
      count, k := txn.RollbackToSavepoint(name);
      if count.None? { return false, k; }
      UndoToSavepoint(count.value, sps, k);
      return true, k;
    }

    method UndoToSavepoint(count: nat, ghost sps: seq<Savepoint>, ghost k: nat)
      requires txn.Valid() && (txn.xid == INVALID ==> txn.undo == []) && RowsInRange(tables) && Logged(txn.undo, tables) && Indexed()
      requires Consistent(txn.undo, sps, tables, base, saved) && k < |sps| && txn.savepoints == sps[..k]
      requires sps[k].undoPosition <= |txn.undo| ==> count == |txn.undo| - sps[k].undoPosition
      modifies this`tables, this`saved, this`grounds
      ensures Valid() && k < |old(saved)| && SameRows(tables, old(saved)[k]) && SameShape(old(tables), tables)
      ensures saved == old(saved)[..k] && Spoiled() <= old(Spoiled())
    {
      UndoRowsTo(count, sps, k);
      saved := saved[..k];
    }

    method UndoRowsTo(count: nat, ghost sps: seq<Savepoint>, ghost k: nat)
      requires RowsInRange(tables) && Logged(txn.undo, tables) && Indexed()
      requires Consistent(txn.undo, sps, tables, base, saved) && k < |sps|
      requires sps[k].undoPosition <= |txn.undo| ==> count == |txn.undo| - sps[k].undoPosition
      modifies this`tables, this`grounds
      ensures RowsInRange(tables) && Logged(txn.undo, tables) && Indexed() && Spoiled() <= old(Spoiled())
      ensures Consistent(txn.undo, sps[..k], tables, base, saved[..k])
      ensures SameRows(tables, saved[k]) && SameShape(old(tables), tables)
    {
      ghost var was := tables;
      ApplyUndoTo(count);
      RollbackRestores(txn.undo, sps, k, was, tables, base, saved);
    }

    method ReleaseSavepoint(name: string) returns (ok: bool, ghost k: int)
      requires Valid()
      modifies this`saved, txn`savepoints
      ensures Valid() && old(IsLatest(txn.savepoints, name, k)) && (ok <==> k >= 0)
      ensures txn.savepoints == if ok then old(txn.savepoints)[..k] else old(txn.savepoints)
      ensures k < |old(saved)| && saved == if ok then old(saved)[..k] else old(saved)
    {
      ok, k := txn.ReleaseSavepoint(name);
      if ok { saved := saved[..k]; }
    }

    /** ROLLBACK: every row is again what it was before the transaction. */
    method Rollback()
      requires Valid()
      modifies this`tables, this`base, this`saved, this`grounds, txn
      ensures Valid() && SameRows(tables, old(base)) && SameShape(old(tables), tables)
      ensures grounds == Regrounded(old(grounds), tables, old(txn.undo), 0) && Spoiled() <= old(Spoiled())
      ensures forall name | Touches(old(txn.undo), 0, name) :: name !in Spoiled()
      ensures txn.undo == [] && txn.savepoints == [] && txn.xid == INVALID && txn.blockState == DefaultState
      ensures txn.active == old(txn.active) - {old(txn.xid)} && txn.nextXid == old(txn.nextXid) && txn.isolation == old(txn.isolation)
      ensures txn.clog == if old(txn.xid) == INVALID then old(txn.clog) else old(txn.clog)[old(txn.xid) := Aborted]
      ensures old(txn.xid) != INVALID ==>
                && txn.sireads == DropReader(old(txn.sireads), old(txn.xid)) && txn.inConflict == DropEdges(old(txn.inConflict), old(txn.xid))
    {
      ApplyUndo();
      txn.AbortTransaction();
      txn.ResetContext();
      base, saved := tables, [];
    }

    /** COMMIT; false is the serialization failure, which leaves the transaction open for a rollback. */
    method Commit() returns (ok: bool)
      requires Valid()
      modifies this`base, this`saved, txn
      ensures Valid() && txn.nextXid == old(txn.nextXid) && txn.isolation == old(txn.isolation)
      ensures !ok ==>
                && txn.undo == old(txn.undo) && txn.xid == old(txn.xid) && txn.clog == old(txn.clog) && txn.active == old(txn.active)
                && txn.savepoints == old(txn.savepoints) && txn.blockState == old(txn.blockState) && base == old(base) && saved == old(saved)
      ensures ok ==> txn.active == old(txn.active) - {old(txn.xid)} && saved == []
      ensures ok && old(txn.xid) != INVALID ==>
                && txn.sireads == DropReader(old(txn.sireads), old(txn.xid)) && txn.inConflict == DropEdges(old(txn.inConflict), old(txn.xid))
      ensures ok ==> txn.undo == [] && txn.savepoints == [] && txn.xid == INVALID && txn.blockState == DefaultState && base == tables
      ensures ok ==> txn.clog == if old(txn.xid) == INVALID then old(txn.clog) else old(txn.clog)[old(txn.xid) := Committed]
      ensures ok <==> !(old(txn.xid) != INVALID && old(txn.isolation) == Serializable && Pivot(old(txn.inConflict), old(txn.xid)))
    {
      ok := txn.CommitTransaction();
      if !ok { return; }
      txn.ResetContext();
      base, saved := tables, [];
    }

    /**
     * The end of a statement: an implicit transaction commits, unless it is refused as a serialization failure; a block
     * goes on, from its second statement on with the next command id.
     */
    method EndStatement() returns (ok: bool)
      requires Valid()
      modifies this`base, this`saved, txn
      ensures Valid() && txn.nextXid == old(txn.nextXid) && txn.isolation == old(txn.isolation)
      ensures ok <==> !(old(txn.blockState) in {Started, End} && old(txn.xid) != INVALID && old(txn.isolation) == Serializable
                        && Pivot(old(txn.inConflict), old(txn.xid)))
      ensures !ok ==>
                && txn.blockState == old(txn.blockState) && txn.xid == old(txn.xid) && txn.undo == old(txn.undo)
                && txn.savepoints == old(txn.savepoints) && txn.commandId == old(txn.commandId)
                && txn.clog == old(txn.clog) && txn.active == old(txn.active) && base == old(base) && saved == old(saved)
      ensures ok && old(txn.blockState) in {Started, End, AbortPending} ==>
                && txn.blockState == DefaultState && txn.undo == [] && txn.xid == INVALID && SameRows(base, tables)
                && txn.active == old(txn.active) - {old(txn.xid)}
                && txn.clog == (if old(txn.xid) == INVALID then old(txn.clog)
                                else old(txn.clog)[old(txn.xid) := if old(txn.blockState) == AbortPending then Aborted else Committed])
      ensures old(txn.blockState) in {Begin, InBlock, DefaultState} ==>
                && txn.xid == old(txn.xid) && txn.undo == old(txn.undo) && txn.savepoints == old(txn.savepoints)
                && txn.clog == old(txn.clog) && txn.active == old(txn.active) && base == old(base) && saved == old(saved)
                && txn.blockState == (if old(txn.blockState) == DefaultState then DefaultState else InBlock)
                && txn.commandId == old(txn.commandId) + if old(txn.blockState) == InBlock then 1 else 0
      ensures var over := ok && old(txn.blockState) in {Started, End, AbortPending} && old(txn.xid) != INVALID;
              && txn.sireads == (if over then DropReader(old(txn.sireads), old(txn.xid)) else old(txn.sireads))
              && txn.inConflict == if over then DropEdges(old(txn.inConflict), old(txn.xid)) else old(txn.inConflict)
    {
      ok := txn.CommitTransactionCommand();
      if ok && (old(txn.blockState) == AbortPending || (old(txn.blockState) in {Started, End} && old(txn.xid) != INVALID)) {
        base, saved := tables, [];
      }
    }

    // ---------- tables and indexes ----------

    method CreateIndex(name: string, column: string) returns (ok: bool)
      requires Valid()
      modifies this`tables, this`grounds
      ensures Valid() && Spoiled() <= old(Spoiled())
      ensures ok <==> name in old(tables) && !HasIndex(old(tables[name]), column)
      ensures !ok ==> grounds == old(grounds)
      ensures !ok ==> tables == old(tables)
      ensures ok ==> name in tables && |tables[name].indexes| > 0 && tables[name].indexes[|tables[name].indexes| - 1].column == column
      ensures ok ==> (var t := old(tables[name]);
                      var idx := tables[name].indexes[|tables[name].indexes| - 1];
                      && tables == old(tables)[name := t.(indexes := t.indexes + [idx])]
                      && Agrees(idx, t.rows, t.lastRowId, render)
                      && name in old(grounds) && grounds == old(grounds)[name := old(grounds)[name] + [t.rows]])
    {
      if name !in tables { return false; }
      var t := tables[name];
      if HasIndex(t, column) { return false; }
      InstallIndex(name, column);
      return true;
    }

    method InstallIndex(name: string, column: string)
      requires Valid() && name in tables
      modifies this`tables, this`grounds
      ensures Valid() && name in tables && |tables[name].indexes| > 0 && Spoiled() <= old(Spoiled())
      ensures var t := old(tables[name]);
              var idx := tables[name].indexes[|tables[name].indexes| - 1];
              && idx.column == column && Agrees(idx, t.rows, t.lastRowId, render)
              && tables == old(tables)[name := t.(indexes := t.indexes + [idx])]
              && name in old(grounds) && grounds == old(grounds)[name := old(grounds)[name] + [t.rows]]
    {
      var t := tables[name];
      var entries := BuildEntries(t.rows, t.lastRowId, column, render);
      ghost var was := tables;
      AddedGrounded(t, grounds[name], Index(column, entries), render);
      AddedUnsteady(was, grounds, name, Index(column, entries), render);
      tables := tables[name := t.(indexes := t.indexes + [Index(column, entries)])];
      grounds := grounds[name := grounds[name] + [t.rows]];
      ConsistentSameRows(txn.undo, txn.savepoints, was, tables, base, saved);
    }

    method AddEmptyTable(name: string, primaryKey: seq<string>)
      requires Valid() && name !in tables
      modifies this`tables, this`grounds
      ensures Valid() && tables == old(tables)[name := Table(primaryKey, map[], 0, [])] && Spoiled() <= old(Spoiled())
    {
      NewUnsteady(tables, grounds, name, Table(primaryKey, map[], 0, []), render);
      ghost var was := tables;
      tables := tables[name := Table(primaryKey, map[], 0, [])];
      grounds := grounds[name := []];
      ConsistentSameRows(txn.undo, txn.savepoints, was, tables, base, saved);
    }

    /** False: the table exists. A primary-key column gets an index. */
    method CreateTable(name: string, primaryKey: seq<string>) returns (ok: bool)
      requires Valid()
      modifies this`tables, this`grounds
      ensures Valid() && (ok <==> name !in old(tables)) && Spoiled() <= old(Spoiled())
      ensures !ok ==> tables == old(tables)
      ensures ok ==> name in tables && tables == old(tables)[name := Table(primaryKey, map[], 0, tables[name].indexes)]
                     && forall i | 0 <= i < |primaryKey| :: HasIndex(tables[name], primaryKey[i])
    {
      if name in tables { return false; }
      ghost var was := tables;
      AddEmptyTable(name, primaryKey);
      for i := 0 to |primaryKey|
        invariant Valid() && Spoiled() <= old(Spoiled()) && KeyedSoFar(was, tables, name, primaryKey, i)
      {
        ghost var before := tables;
        var made := CreateIndex(name, primaryKey[i]);
        KeyedStep(was, before, tables, name, primaryKey, i, made);
      }
      return true;
    }

    // ---------- vacuum ----------

    static method Classify(rows: Rows, n: nat, oldest: Xid, clog: CLog) returns (toErase: seq<int>, toFreeze: seq<int>)
      requires IdsInRange(rows, n)
      ensures forall r :: r in toErase <==> r in rows && Dead(rows[r].hdr, oldest, clog)
      ensures forall r :: r in toFreeze <==> r in rows && Freezable(rows[r].hdr, oldest, clog)
      ensures Ascending(toErase)
    {
      toErase, toFreeze := [], [];
      for rid := 1 to n + 1
        invariant forall r :: r in toErase <==> r in rows && r < rid && Dead(rows[r].hdr, oldest, clog)
        invariant forall r :: r in toFreeze <==> r in rows && r < rid && Freezable(rows[r].hdr, oldest, clog)
        invariant Ascending(toErase) && forall k | 0 <= k < |toErase| :: toErase[k] < rid
      {
        if rid in rows {
          var h := rows[rid].hdr;
          if (h.xmin >= oldest && h.xmin != FROZEN) || (h.xmax != INVALID && h.xmax >= oldest) {
          } else {
            var inserter := StatusOf(clog, h.xmin);
            var deleter := if h.xmax == INVALID then Committed else StatusOf(clog, h.xmax);
            if inserter == Aborted {
              toErase := toErase + [rid];
            } else if inserter == Committed && h.xmax != INVALID && deleter == Committed {
              toErase := toErase + [rid];
            } else if inserter == Committed && h.xmin != FROZEN {
              toFreeze := toFreeze + [rid];
            }
          }
        }
      }
    }

    static method Erase(rows: Rows, ids: seq<int>) returns (left: Rows)
      requires Ascending(ids) && forall r | r in ids :: r in rows
      ensures left == map r | r in rows && r !in ids :: rows[r]
      ensures |left| == |rows| - |ids|
    {
      left := rows;
      for i := 0 to |ids|
        invariant left == map r | r in rows && r !in ids[..i] :: rows[r]
        invariant |left| == |rows| - i
      {
        assert ids[..i + 1] == ids[..i] + [ids[i]];
        assert ids[i] !in ids[..i] && ids[i] in ids;
        assert ids[i] in left && left.Keys - {ids[i]} == (left - {ids[i]}).Keys;
        left := left - {ids[i]};
      }
      assert ids[..|ids|] == ids;
    }

    static method FreezeRows(rows: Rows, ids: seq<int>) returns (after: Rows)
      ensures after == map r | r in rows :: if r in ids then FrozenTuple(rows[r]) else rows[r]
    {
      after := rows;
      for i := 0 to |ids|
        invariant after == map r | r in rows :: if r in ids[..i] then FrozenTuple(rows[r]) else rows[r]
      {
        assert ids[..i + 1] == ids[..i] + [ids[i]];
        if ids[i] in after {
          after := after[ids[i] := FrozenTuple(after[ids[i]])];
        }
      }
      assert ids[..|ids|] == ids;
    }

    method VacuumTable(name: string, oldest: Xid, clog: CLog) returns (cleaned: nat)
      requires name in tables && IdsInRange(tables[name].rows, tables[name].lastRowId) && Indexed()
      modifies this`tables, this`grounds
      ensures name in tables && tables == old(tables)[name := tables[name]]
      ensures name in grounds && grounds == old(grounds)[name := grounds[name]]
      ensures TableVacuumed(old(tables[name]), old(grounds[name]), tables[name], grounds[name], oldest, clog)
      ensures cleaned == |old(tables[name].rows)| - |tables[name].rows|
      ensures Indexed()
    {
      var t := tables[name];
      var before := |t.rows|;
      var toErase, toFreeze := Classify(t.rows, t.lastRowId, oldest, clog);
      var left := Erase(t.rows, toErase);
      var after := FreezeRows(left, toFreeze);
      PhasesVacuum(t.rows, oldest, clog, toErase, toFreeze, left, after);
      assert after.Keys == left.Keys && |after| == |left|;
      cleaned := |toErase|;
      ReplaceRows(name, after, before != |after|);
    }

    /** Vacuum's last step for one table: the indexes are rebuilt only if rows have gone. */
    method ReplaceRows(name: string, after: Rows, gone: bool)
      requires name in tables && Indexed() && (gone <==> after.Keys != tables[name].rows.Keys)
      modifies this`tables, this`grounds
      ensures name in tables && tables == old(tables)[name := old(tables[name]).(rows := after, indexes := tables[name].indexes)]
      ensures name in grounds && grounds == old(grounds)[name := if gone then Afresh(tables[name]) else old(grounds[name])]
      ensures SameColumns(old(tables[name].indexes), tables[name].indexes)
      ensures Indexed()
    {
      GroundedUnlessGone(tables[name], after, grounds[name], render);
      tables := tables[name := tables[name].(rows := after)];
      if gone { RebuildIndexes(name); }
    }

    /** One more table; the done ones were vacuumed before. */
    method VacuumNext(name: string, oldest: Xid, clog: CLog, ghost was: Db, ghost before: map<string, Grounds>,
                      ghost done: set<string>, ghost sum: nat) returns (cleaned: nat)
      requires Indexed() && RowsInRange(was) && VacuumedSoFar(was, before, tables, grounds, done, oldest, clog, sum)
      requires name in tables && name !in done
      modifies this`tables, this`grounds
      ensures Indexed() && VacuumedSoFar(was, before, tables, grounds, done + {name}, oldest, clog, sum + cleaned)
    {
      ghost var was', before' := tables, grounds;
      cleaned := VacuumTable(name, oldest, clog);
      SoFarStep(was, before, was', before', tables, grounds, done, name, oldest, clog, sum, cleaned);
    }

    method VacuumTables(oldest: Xid, clog: CLog) returns (cleaned: nat)
      requires RowsInRange(tables) && Indexed()
      modifies this`tables, this`grounds
      ensures tables.Keys == old(tables.Keys) && Indexed()
      ensures forall name | name in tables ::
                TableVacuumed(old(tables)[name], old(grounds)[name], tables[name], grounds[name], oldest, clog)
      ensures cleaned == |RowIds(old(tables), tables.Keys)| - |RowIds(tables, tables.Keys)|
    {
      ghost var was, before := tables, grounds;
      cleaned := 0;
      var rest := tables.Keys;
      while rest != {}
        invariant rest <= was.Keys && Indexed()
        invariant VacuumedSoFar(was, before, tables, grounds, was.Keys - rest, oldest, clog, cleaned)
        decreases rest
      {
        var name :| name in rest;
        var n := VacuumNext(name, oldest, clog, was, before, was.Keys - rest, cleaned);
        assert was.Keys - rest + {name} == was.Keys - (rest - {name});
        cleaned := cleaned + n;
        rest := rest - {name};
      }
      assert was.Keys - rest == tables.Keys;
    }

    /**
     * Erases the dead rows and freezes the settled ones. Inside a transaction with changes of its own everything but
     * their undoing still holds.
     */
    method Vacuum() returns (cleaned: nat, ghost oldest: Xid)
      requires Valid()
      modifies this`tables, this`grounds, this`base, this`saved, txn`clog
      ensures txn.Valid() && RowsInRange(tables) && Indexed() && Spoiled() <= old(Spoiled())
      ensures txn.undo == [] ==> Valid()
      ensures SameShape(old(tables), tables) && txn.IsOldest(oldest)
      ensures forall name | name in tables ::
                TableVacuumed(old(tables)[name], old(grounds)[name], tables[name], grounds[name], oldest, old(txn.clog))
      ensures forall name | name in tables :: tables[name].rows == Vacuumed(old(tables)[name].rows, oldest, old(txn.clog))
      ensures cleaned == |RowIds(old(tables), tables.Keys)| - |RowIds(tables, tables.Keys)|
      ensures txn.clog == if txn.WraparoundDue() then Freeze(old(txn.clog), oldest) else old(txn.clog)
      ensures Unnoticed(old(tables), tables, old(txn.clog), txn.clog, txn.nextXid, txn.active)
    {
      ghost var was, before, log := tables, grounds, txn.clog;
      var floor := txn.GetOldestActiveXid();
      oldest := floor;
      cleaned := VacuumTables(floor, txn.clog);
      VacuumedShape(was, before, tables, grounds, oldest, log);
      VacuumedUnsteady(was, before, tables, grounds, oldest, log, render);
      if txn.undo == [] {
        saved := Rebase(txn.savepoints, tables, was, base, saved);
        base := tables;
      }
      RunAntiWraparound(was, oldest);
    }

    method RunAntiWraparound(ghost was: Db, ghost oldest: Xid)
      requires txn.Valid() && txn.IsOldest(oldest) && SameShape(was, tables)
      requires forall name | name in tables :: tables[name].rows == Vacuumed(was[name].rows, oldest, txn.clog)
      modifies txn`clog
      ensures txn.Valid() && Unnoticed(was, tables, old(txn.clog), txn.clog, txn.nextXid, txn.active)
      ensures txn.clog == if txn.WraparoundDue() then Freeze(old(txn.clog), oldest) else old(txn.clog)
    {
      ghost var log := txn.clog;
      var fired, _ := txn.MaybeAntiWraparound();
      FreezeOnlyAborts(log, oldest);
      VacuumUnnoticed(was, tables, log, txn.clog, txn.nextXid, txn.active, oldest);
    }

    // ---------- checkpoint and load ----------

    static method DumpRows(rows: Rows, n: nat) returns (dump: seq<Found>)
      requires IdsInRange(rows, n)
      ensures Dumps(dump, rows)
    {
      dump := [];
      for rid := 1 to n + 1
        invariant forall f :: f in dump <==> f.rid in rows && f.rid < rid && rows[f.rid] == f.tup
      {
        if rid in rows {
          dump := dump + [Found(rid, rows[rid])];
        }
      }
    }

    static method PutAll(dump: seq<Found>, ghost rows: Rows) returns (loaded: Rows)
      requires Dumps(dump, rows)
      ensures loaded == rows
    {
      loaded := map[];
      for i := 0 to |dump|
        invariant forall r | r in loaded :: r in rows && loaded[r] == rows[r]
        invariant forall j | 0 <= j < i :: dump[j].rid in loaded
      {
        assert dump[i] in dump;
        loaded := loaded[dump[i].rid := dump[i].tup];
      }
      forall r | r in rows ensures r in loaded {
        var j :| 0 <= j < |dump| && dump[j] == Found(r, rows[r]);
        assert dump[j].rid in loaded;
      }
      assert forall r :: r in loaded <==> r in rows;
      assert forall r | r in rows :: loaded[r] == rows[r];
    }

    method TakeCheckpoint() returns (c: Checkpoint)
      requires RowsInRange(tables)
      ensures Describes(c, tables) && c.nextXid == txn.nextXid && c.clog == txn.clog
    {
      c := Dump(tables, txn.nextXid, txn.clog);
    }

    static method Dump(db: Db, nextXid: Xid, clog: CLog) returns (c: Checkpoint)
      requires RowsInRange(db)
      ensures Describes(c, db) && c.nextXid == nextXid && c.clog == clog
    {
      var entries: map<string, SavedTable> := map[];
      var rest := db.Keys;
      while rest != {}
        invariant rest <= db.Keys && entries.Keys == db.Keys - rest
        invariant forall name | name in entries :: Saves(entries[name], db[name])
        decreases rest
      {
        var name :| name in rest;
        var t := db[name];
        var dump := DumpRows(t.rows, t.lastRowId);
        entries := entries[name := SavedTable(t.primaryKey, dump, t.lastRowId, t.indexes)];
        rest := rest - {name};
      }
      return Checkpoint(entries, nextXid, clog);
    }

    static method RestoreTables(c: Checkpoint, ghost db: Db) returns (restored: Db)
      requires Describes(c, db)
      ensures restored == db
    {
      restored := map[];
      var rest := c.tables.Keys;
      while rest != {}
        invariant rest <= c.tables.Keys && restored.Keys == c.tables.Keys - rest
        invariant forall name | name in restored :: restored[name] == db[name]
        decreases rest
      {
        var name :| name in rest;
        var s := c.tables[name];
        var rows := PutAll(s.rows, db[name].rows);
        restored := restored[name := Table(s.primaryKey, rows, s.lastRowId, s.indexes)];
        rest := rest - {name};
      }
    }

    /** db and ground describe what was saved: its tables, and what their indexes list. */
    constructor Load(render: Value -> string, c: Checkpoint, ghost db: Db, ghost ground: map<string, Grounds>)
      requires Describes(c, db) && RowsInRange(db) && GroundedDb(db, ground, render)
      requires FIRST_NORMAL <= c.nextXid <= EMERGENCY_STOP && forall x | x in c.clog :: FIRST_NORMAL <= x < c.nextXid
      ensures Valid() && this.render == render && fresh(txn) && tables == db && grounds == ground
      ensures txn.clog == Recovered(c.clog) && txn.nextXid == c.nextXid && txn.active == {} && txn.xid == INVALID
    {
      txn := new TransactionManager();
      this.render := render;
      tables, base, saved, grounds := map[], map[], [], ground;
      new;
      tables := RestoreTables(c, db);
      base := tables;
      txn.Restore(c.nextXid, c.clog);
    }

    /** Saving and loading into a fresh engine: same tables, counters and index contents, running transactions aborted,
        and the same rows for every observer without a transaction. */
    method Reopen() returns (e: StorageEngine)
      requires Valid()
      ensures fresh(e) && e.Valid() && e.tables == tables && e.grounds == grounds && e.Spoiled() == Spoiled()
      ensures e.txn.nextXid == txn.nextXid && e.txn.active == {} && e.txn.clog == Recovered(txn.clog)
      ensures SameForOutsiders(tables, txn.clog, e.txn.clog, txn.nextXid, txn.active)
    {
      var c := TakeCheckpoint();
      e := new StorageEngine.Load(render, c, tables, grounds);
      ReloadUnnoticed(tables, txn.clog, txn.nextXid, txn.active);
    }
  }

  datatype SavedTable = SavedTable(primaryKey: seq<string>, rows: seq<Found>, lastRowId: nat, indexes: seq<Index>)

  datatype Checkpoint = Checkpoint(tables: map<string, SavedTable>, nextXid: Xid, clog: CLog)

  ghost predicate Dumps(dump: seq<Found>, rows: Rows) {
    forall f :: f in dump <==> f.rid in rows && rows[f.rid] == f.tup
  }

  ghost predicate Saves(s: SavedTable, t: Table) {
    s.primaryKey == t.primaryKey && s.lastRowId == t.lastRowId && s.indexes == t.indexes && Dumps(s.rows, t.rows)
  }

  ghost predicate Describes(c: Checkpoint, db: Db) {
    c.tables.Keys == db.Keys && forall name | name in db :: Saves(c.tables[name], db[name])
  }

  /** Fresh snapshots taken before and after a restart show a session without a transaction the same rows. */
  ghost predicate SameForOutsiders(db: Db, clog: CLog, clog': CLog, next: Xid, active: set<Xid>) {
    forall name, before: Snapshot, after: Snapshot, cid, cid' |
      name in db && FreshSnapshot(before, next, active) && FreshSnapshot(after, next, {}) ::
      VisibleRows(db[name].rows, db[name].lastRowId, Observer(INVALID, after, cid', clog'))
      == VisibleRows(db[name].rows, db[name].lastRowId, Observer(INVALID, before, cid, clog))
  }

  lemma ReloadUnnoticed(db: Db, clog: CLog, next: Xid, active: set<Xid>)
    requires LogSound(clog, active)
    ensures SameForOutsiders(db, clog, Recovered(clog), next, active)
  {
    forall name, before: Snapshot, after: Snapshot, cid, cid' |
      name in db && FreshSnapshot(before, next, active) && FreshSnapshot(after, next, {})
      ensures VisibleRows(db[name].rows, db[name].lastRowId, Observer(INVALID, after, cid', Recovered(clog)))
           == VisibleRows(db[name].rows, db[name].lastRowId, Observer(INVALID, before, cid, clog))
    {
      ReloadShowsTheSame(db[name].rows, db[name].lastRowId, before, after, cid, cid', clog, next, active);
    }
  }

  /** With an empty log every savepoint may take the present rows as its own. */
  lemma Rebase(sps: seq<Savepoint>, db: Db, was: Db, base: Db, saved: seq<Db>) returns (saved': seq<Db>)
    requires Consistent([], sps, was, base, saved)
    ensures Consistent([], sps, db, db, saved')
  {
    saved' := seq(|saved|, _ => db);
  }

  lemma VacuumedShape(was: Db, before: map<string, Grounds>, now: Db, after: map<string, Grounds>, oldest: Xid, clog: CLog)
    requires now.Keys == was.Keys == before.Keys == after.Keys && RowsInRange(was)
    requires forall name | name in now :: TableVacuumed(was[name], before[name], now[name], after[name], oldest, clog)
    ensures SameShape(was, now) && RowsInRange(now)
    ensures forall name | name in now :: now[name].rows == Vacuumed(was[name].rows, oldest, clog)
  {
  }

  lemma GroundedUnlessGone(t: Table, after: Rows, g: Grounds, render: Value -> string)
    requires Grounded(t, g, render)
    ensures after.Keys == t.rows.Keys ==> Grounded(t.(rows := after), g, render)
  {
    if after.Keys == t.rows.Keys { GroundedRewritten(t, after, g, render); }
  }

  /** Erasing the dead rows and then freezing is the vacuumed table. */
  lemma PhasesVacuum(rows: Rows, oldest: Xid, clog: CLog, toErase: seq<int>, toFreeze: seq<int>, left: Rows, after: Rows)
    requires forall r :: r in toErase <==> r in rows && Dead(rows[r].hdr, oldest, clog)
    requires forall r :: r in toFreeze <==> r in rows && Freezable(rows[r].hdr, oldest, clog)
    requires left == map r | r in rows && r !in toErase :: rows[r]
    requires after == map r | r in left :: if r in toFreeze then FrozenTuple(left[r]) else left[r]
    ensures after == Vacuumed(rows, oldest, clog)
  {
    var v := Vacuumed(rows, oldest, clog);
    forall r
      ensures r in after <==> r in v
      ensures r in after ==> after[r] == v[r]
    {
      if r in rows {
        assert r in toErase <==> Dead(rows[r].hdr, oldest, clog);
        assert r in toFreeze <==> Freezable(rows[r].hdr, oldest, clog);
      }
    }
  }

  /** The new table has an index on each of its first i key columns. */
  ghost predicate KeyedSoFar(was: Db, now: Db, name: string, primaryKey: seq<string>, i: nat) {
    && name in now && now == was[name := Table(primaryKey, map[], 0, now[name].indexes)]
    && forall j | 0 <= j < i && j < |primaryKey| :: HasIndex(now[name], primaryKey[j])
  }

  lemma KeyedStep(was: Db, before: Db, now: Db, name: string, primaryKey: seq<string>, i: nat, made: bool)
    requires KeyedSoFar(was, before, name, primaryKey, i) && i < |primaryKey| && (made <==> !HasIndex(before[name], primaryKey[i]))
    requires !made ==> now == before
    requires made ==>
               && name in now && |now[name].indexes| > 0 && now[name].indexes[|now[name].indexes| - 1].column == primaryKey[i]
               && now == before[name := before[name].(indexes := before[name].indexes + [now[name].indexes[|now[name].indexes| - 1]])]
    ensures KeyedSoFar(was, now, name, primaryKey, i + 1)
  {
    HasIndexKept(before[name], now[name]);
  }

  predicate HasIndex(t: Table, column: string) {
    exists i | 0 <= i < |t.indexes| :: t.indexes[i].column == column
  }

  lemma HasIndexKept(t: Table, t': Table)
    requires |t'.indexes| >= |t.indexes| && t'.indexes[..|t.indexes|] == t.indexes
    ensures forall column | HasIndex(t, column) :: HasIndex(t', column)
  {
    forall column | HasIndex(t, column)
      ensures HasIndex(t', column)
    {
      var i :| 0 <= i < |t.indexes| && t.indexes[i].column == column;
      assert t'.indexes[i] == t'.indexes[..|t.indexes|][i];
    }
  }

  ghost predicate Ascending(s: seq<int>) {
    forall i, j | 0 <= i < j < |s| :: s[i] < s[j]
  }

  /** No fresh snapshot of an active or absent transaction shows a different table. */
  ghost predicate Unnoticed(was: Db, now: Db, clog: CLog, clog': CLog, next: Xid, active: set<Xid>) {
    forall name, o: Observer | name in was && o.clog == clog && Fresh(o, next, active) ::
      name in now &&
      SameShown(VisibleRows(was[name].rows, was[name].lastRowId, o), VisibleRows(now[name].rows, now[name].lastRowId, o.(clog := clog')))
  }

  lemma VacuumUnnoticed(was: Db, now: Db, clog: CLog, clog': CLog, next: Xid, active: set<Xid>, oldest: Xid)
    requires SameShape(was, now) && forall name | name in now :: now[name].rows == Vacuumed(was[name].rows, oldest, clog)
    requires LogSound(clog, active) && LogSound(clog', active) && OnlyAborts(clog, clog')
    ensures Unnoticed(was, now, clog, clog', next, active)
  {
    forall name, o: Observer | name in was && o.clog == clog && Fresh(o, next, active)
      ensures SameShown(VisibleRows(was[name].rows, was[name].lastRowId, o), VisibleRows(now[name].rows, now[name].lastRowId, o.(clog := clog')))
    {
      VacuumInvisible(was[name].rows, was[name].lastRowId, o, clog', next, active, oldest);
    }
  }

  /** Every stored row of the named tables, by table and row id. */
  ghost function RowIds(db: Db, names: set<string>): set<(string, int)>
    requires names <= db.Keys
  {
    set name, r | name in names && r in db[name].rows :: (name, r)
  }

  lemma RowIdsMore(db: Db, names: set<string>, name: string)
    requires names <= db.Keys && name in db && name !in names
    ensures |RowIds(db, names + {name})| == |RowIds(db, names)| + |db[name].rows|
  {
    var ids := db[name].rows.Keys;
    TaggedSize(name, ids);
    assert RowIds(db, names + {name}) == RowIds(db, names) + Tagged(name, ids);
    assert RowIds(db, names) !! Tagged(name, ids);
  }

  /** The done tables are vacuumed, the others untouched, and cleaned rows are gone. */
  ghost predicate VacuumedSoFar(was: Db, before: map<string, Grounds>, now: Db, after: map<string, Grounds>, done: set<string>,
                                oldest: Xid, clog: CLog, cleaned: nat) {
    && now.Keys == was.Keys == before.Keys == after.Keys && done <= was.Keys
    && (forall name | name in was && name !in done :: now[name] == was[name] && after[name] == before[name])
    && (forall name | name in done :: TableVacuumed(was[name], before[name], now[name], after[name], oldest, clog))
    && cleaned == |RowIds(was, done)| - |RowIds(now, done)|
  }

  lemma SoFarStep(was: Db, before: map<string, Grounds>, was': Db, before': map<string, Grounds>, now: Db, after: map<string, Grounds>,
                  done: set<string>, name: string, oldest: Xid, clog: CLog, sum: nat, cleaned: nat)
    requires VacuumedSoFar(was, before, was', before', done, oldest, clog, sum) && name in was && name !in done
    requires name in now && name in after && now == was'[name := now[name]] && after == before'[name := after[name]]
    requires TableVacuumed(was'[name], before'[name], now[name], after[name], oldest, clog)
    requires cleaned == |was'[name].rows| - |now[name].rows|
    ensures VacuumedSoFar(was, before, now, after, done + {name}, oldest, clog, sum + cleaned)
  {
    TallyStep(was, was', now, done, name);
    forall n | n in done + {name} ensures TableVacuumed(was[n], before[n], now[n], after[n], oldest, clog) {}
  }

  /** What the next table adds to the difference. */
  lemma TallyStep(was: Db, before: Db, now: Db, done: set<string>, name: string)
    requires done <= was.Keys && done <= before.Keys && name in was && name in now && name !in done
    requires now == before[name := now[name]]
    ensures |RowIds(was, done + {name})| - |RowIds(now, done + {name})|
         == |RowIds(was, done)| - |RowIds(before, done)| + |was[name].rows| - |now[name].rows|
  {
    RowIdsSame(before, now, done);
    RowIdsMore(was, done, name);
    RowIdsMore(now, done, name);
  }

  lemma RowIdsSame(db: Db, db': Db, names: set<string>)
    requires names <= db.Keys && names <= db'.Keys && forall name | name in names :: db[name] == db'[name]
    ensures RowIds(db, names) == RowIds(db', names)
  {
  }

  /** The tables named from i on are re-indexed, those not named from start on untouched. */
  ghost predicate RebuiltSoFar(undo: seq<UndoRecord>, start: nat, i: nat, was: Db, before: map<string, Grounds>,
                               now: Db, after: map<string, Grounds>, render: Value -> string) {
    && SameShape(was, now) && SameRows(was, now) && after.Keys == now.Keys == before.Keys
    && (forall name | name in now && Touches(undo, i, name) :: after[name] == Afresh(now[name]) && Grounded(now[name], after[name], render))
    && (forall name | name in now && !Touches(undo, start, name) :: now[name] == was[name] && after[name] == before[name])
  }

  lemma ReindexedSame(was: Db, was': Db, now: Db, name: string)
    requires SameShape(was, was') && SameRows(was, was') && name in was' && name in now
    requires now == was'[name := was'[name].(indexes := now[name].indexes)] && SameColumns(was'[name].indexes, now[name].indexes)
    ensures SameShape(was, now) && SameRows(was, now)
  {
    forall k: RowKey ensures At(was, k) == At(now, k) { assert At(was', k) == At(now, k); }
  }

  lemma RebuiltStep(undo: seq<UndoRecord>, start: nat, i: nat, was: Db, before: map<string, Grounds>, was': Db, before': map<string, Grounds>,
                    now: Db, after: map<string, Grounds>, render: Value -> string)
    requires start < i <= |undo| && RebuiltSoFar(undo, start, i, was, before, was', before', render)
    requires undo[i - 1].table in was' && undo[i - 1].table in now
    requires var name := undo[i - 1].table;
             && now == was'[name := was'[name].(indexes := now[name].indexes)] && after == before'[name := Afresh(now[name])]
             && SameColumns(was'[name].indexes, now[name].indexes) && Grounded(now[name], Afresh(now[name]), render)
    ensures RebuiltSoFar(undo, start, i - 1, was, before, now, after, render)
  {
    var name := undo[i - 1].table;
    assert Touches(undo, start, name);
    ReindexedSame(was, was', now, name);
    forall n | n in now && Touches(undo, i - 1, n) ensures after[n] == Afresh(now[n]) && Grounded(now[n], after[n], render) {
      if n != name { assert Touches(undo, i, n); }
    }
  }

  /** The tables that a record from start on names have fresh indexes. */
  ghost function Regrounded(g: map<string, Grounds>, now: Db, undo: seq<UndoRecord>, start: nat): map<string, Grounds>
  {
    map name | name in g :: if name in now && Touches(undo, start, name) then Afresh(now[name]) else g[name]
  }

  lemma RegroundedIs(was: Db, before: map<string, Grounds>, now: Db, after: map<string, Grounds>, undo: seq<UndoRecord>, start: nat,
                     render: Value -> string)
    requires now.Keys == was.Keys == before.Keys == after.Keys
    requires forall name | name in now && Touches(undo, start, name) :: after[name] == Afresh(now[name])
    requires forall name | name in now && !Touches(undo, start, name) :: now[name] == was[name] && after[name] == before[name]
    ensures after == Regrounded(before, now, undo, start)
    ensures Unsteady(now, after, render) <= Unsteady(was, before, render)
    ensures forall name | Touches(undo, start, name) :: name !in Unsteady(now, after, render)
  {
    forall name | name in now && Touches(undo, start, name) ensures SteadyTable(now[name], after[name], render) {
      SteadyAfresh(now[name], render);
    }
  }

  lemma UndoneSameRows(undo: seq<UndoRecord>, p: nat, a: Db, b: Db, c: Db)
    requires p <= |undo| && Undone(undo, p, a, b) && SameRows(b, c)
    ensures Undone(undo, p, a, c)
  {
  }

  lemma RangeSameRows(was: Db, now: Db)
    requires RowsInRange(was) && SameRows(was, now) && SameShape(was, now)
    ensures RowsInRange(now)
  {
    forall name, r | name in now && r in now[name].rows
      ensures 1 <= r <= now[name].lastRowId
    {
      assert At(now, (name, r)) == At(was, (name, r));
    }
  }

  function UndoOne(db: Db, rec: UndoRecord): Db {
    if rec.table !in db then db
    else
      var t := db[rec.table];
      db[rec.table := t.(rows := if rec.op == InsertOp then t.rows - {rec.rowId} else t.rows[rec.rowId := rec.before])]
  }

  ghost predicate UntouchedSame(undo: seq<UndoRecord>, start: nat, was: Db, now: Db) {
    now.Keys == was.Keys && forall name | name in now && !Touches(undo, start, name) :: now[name] == was[name]
  }

  lemma LoggedAt(undo: seq<UndoRecord>, i: nat, was: Db, now: Db)
    requires i < |undo| && Logged(undo, was) && SameShape(was, now)
    ensures undo[i].table in now && 1 <= undo[i].rowId <= now[undo[i].table].lastRowId
  {
  }

  lemma UndoOneUntouched(undo: seq<UndoRecord>, start: nat, i: nat, was: Db, now: Db)
    requires start <= i < |undo| && undo[i].table in now && UntouchedSame(undo, start, was, now)
    ensures UntouchedSame(undo, start, was, UndoOne(now, undo[i]))
  {
    assert Touches(undo, start, undo[i].table);
  }

  lemma UndoneStep(undo: seq<UndoRecord>, i: nat, was: Db, now: Db)
    requires i < |undo| && undo[i].table in now && Undone(undo, i + 1, was, now)
    ensures Undone(undo, i, was, UndoOne(now, undo[i]))
  {
    var after := UndoOne(now, undo[i]);
    forall k: RowKey
      ensures At(after, k) == Before(undo, i, k, At(was, k))
    {
      assert At(after, k) == if KeyOf(undo[i]) == k then Restored(undo[i]) else At(now, k);
    }
  }

  lemma UndoOneShape(was: Db, now: Db, rec: UndoRecord)
    requires SameShape(was, now) && RowsInRange(now)
    requires rec.table in now && 1 <= rec.rowId <= now[rec.table].lastRowId
    ensures SameShape(was, UndoOne(now, rec)) && RowsInRange(UndoOne(now, rec))
  {
  }

  /** The observer of the current statement: own transaction, fresh snapshot. */
  ghost predicate Observes(o: Observer, txn: TransactionManager)
    reads txn
  {
    o.me == txn.xid && o.cid == txn.commandId && o.clog == txn.clog && FreshSnapshot(o.snap, txn.nextXid, txn.active)
  }

  lemma EditSound(was: Db, name: string, m: Match, edit: Edit, o: Observer, log: seq<UndoRecord>,
                  now: Db, undo: seq<UndoRecord>, upto: nat, sps: seq<Savepoint>, base: Db, saved: seq<Db>)
    requires name in was && o.cid >= 0 && EditResult(was, name, m, edit, o, log, now, undo, upto)
    requires upto <= was[name].lastRowId
    requires Consistent(log, sps, was, base, saved) && RowsInRange(was) && Logged(log, was)
    ensures Consistent(undo, sps, now, base, saved) && RowsInRange(now) && Logged(undo, now)
  {
    var rows := was[name].rows;
    EditConsistent(was, name, m, edit, o, log, upto, sps, base, saved);
    ConsistentSameRows(undo, sps, was[name := was[name].(rows := Edited(rows, upto, o, m, edit, o.cid))], now, base, saved);
    EditLogged(name, rows, upto, o, m, edit);
    var more := EditLog(name, rows, upto, o, m, edit);
    forall i | 0 <= i < |undo|
      ensures undo[i].table in now && 1 <= undo[i].rowId <= now[undo[i].table].lastRowId
    {
      assert i < |log| || undo[i] in more by {
        if i >= |log| { assert undo[i] == more[i - |log|]; }
      }
    }
  }

  /** The hits up to upto are rewritten and logged, nothing else. */
  ghost predicate EditResult(was: Db, name: string, m: Match, edit: Edit, o: Observer, log: seq<UndoRecord>,
                             now: Db, undo: seq<UndoRecord>, upto: int)
    requires name in was && o.cid >= 0
  {
    var t := was[name];
    && 0 <= upto && name in now
    && now == was[name := t.(rows := Edited(t.rows, upto, o, m, edit, o.cid), indexes := now[name].indexes)]
    && undo == log + EditLog(name, t.rows, upto, o, m, edit)
  }

  lemma EditReindexed(was: Db, name: string, m: Match, edit: Edit, o: Observer, log: seq<UndoRecord>,
                      edited: Db, now: Db, undo: seq<UndoRecord>, upto: int)
    requires name in was && o.cid >= 0 && EditResult(was, name, m, edit, o, log, edited, undo, upto)
    requires name in now && now == edited[name := edited[name].(indexes := now[name].indexes)]
    ensures EditResult(was, name, m, edit, o, log, now, undo, upto)
  {
  }

  /** One more row: left alone, or rewritten and logged. */
  lemma EditResultStep(was: Db, name: string, m: Match, edit: Edit, o: Observer, log: seq<UndoRecord>,
                       now: Db, undo: seq<UndoRecord>, k: nat)
    requires name in was && o.cid >= 0 && EditResult(was, name, m, edit, o, log, now, undo, k)
    ensures !Hit(was[name].rows, k + 1, o, m) ==> EditResult(was, name, m, edit, o, log, now, undo, k + 1)
    ensures Hit(was[name].rows, k + 1, o, m) ==>
              var t := now[name];
              && k + 1 in t.rows && t.rows[k + 1] == was[name].rows[k + 1]
              && EditResult(was, name, m, edit, o, log,
                            now[name := t.(rows := t.rows[k + 1 := NewVersion(t.rows[k + 1], edit, o.me, o.cid)])],
                            undo + [RecordOf(name, t.rows, k + 1, edit)], k + 1)
  {
    EditedStep(name, was[name].rows, k, o, m, edit, o.cid);
    if !Hit(was[name].rows, k + 1, o, m) {
      assert EditLog(name, was[name].rows, k + 1, o, m, edit) == EditLog(name, was[name].rows, k, o, m, edit);
    } else {
      assert undo + [RecordOf(name, was[name].rows, k + 1, edit)]
          == log + EditLog(name, was[name].rows, k + 1, o, m, edit);
    }
  }

  /** The log of an edit undoes the edit: whatever could be restored before it can be restored after it. */
  lemma {:induction false} EditConsistent(was: Db, name: string, m: Match, edit: Edit, o: Observer, log: seq<UndoRecord>, k: nat,
                                          sps: seq<Savepoint>, base: Db, saved: seq<Db>)
    requires name in was && o.cid >= 0 && Consistent(log, sps, was, base, saved)
    requires forall r | r in was[name].rows :: 1 <= r
    ensures var now := was[name := was[name].(rows := Edited(was[name].rows, k, o, m, edit, o.cid))];
            Consistent(log + EditLog(name, was[name].rows, k, o, m, edit), sps, now, base, saved)
  {
    var rows := was[name].rows;
    var done := EditLog(name, rows, k, o, m, edit);
    if k == 0 {
      EditedNone(rows, o, m);
      assert log + done == log;
      assert was[name := was[name].(rows := rows)] == was;
    } else {
      EditConsistent(was, name, m, edit, o, log, k - 1, sps, base, saved);
      EditedStep(name, rows, k - 1, o, m, edit, o.cid);
      var before := was[name := was[name].(rows := Edited(rows, k - 1, o, m, edit, o.cid))];
      var now := was[name := was[name].(rows := Edited(rows, k, o, m, edit, o.cid))];
      var earlier := log + EditLog(name, rows, k - 1, o, m, edit);
      if Hit(rows, k, o, m) {
        var rec := RecordOf(name, rows, k, edit);
        assert log + done == earlier + [rec];
        assert At(before, KeyOf(rec)) == Some(rows[k]);
        ConsistentAppend(earlier, rec, sps, before, now, base, saved);
      } else {
        assert log + done == earlier && now == before;
      }
    }
  }

  ghost function NoObserver(): Observer { Observer(INVALID, Snapshot(INVALID, INVALID, [], 0), 0, map[]) }

  /** A row either goes in under the next id, unless its primary key is taken, or leaves only the counter advanced. */
  ghost predicate InsertResult(was: Db, name: string, cols: Row, o: Observer, txn: TransactionManager, log: seq<UndoRecord>,
                               now: Db, r: Outcome<int>)
    requires name in was
    reads txn
  {
    var t := was[name];
    var id := t.lastRowId + 1;
    var row := Tuple(Header(txn.xid, INVALID, txn.commandId), cols);
    && name in now
    && o.me == txn.xid && o.cid == txn.commandId && o.clog == txn.clog && FreshSnapshot(o.snap, txn.nextXid, txn.active)
    && (r.Ok? <==> !TakenKey(t, id, row, o))
    && if r.Ok? then
         && r.value == id
         && now == was[name := t.(rows := t.rows[id := row], lastRowId := id, indexes := now[name].indexes)]
         && txn.undo == log + [UndoRecord(InsertOp, name, id, row)]
       else
         now == was[name := Advanced(t)] && txn.undo == log
  }

  /** Every index of the table lists the new row, and no other table's index changes. */
  ghost predicate InsertNoted(before: map<string, Grounds>, name: string, id: int, cols: Row, txn: TransactionManager, after: map<string, Grounds>)
    reads txn
  {
    name in before && after == before[name := Noted(before[name], id, Tuple(Header(txn.xid, INVALID, txn.commandId), cols))]
  }

  /** Some primary-key cell of the new row is already there for the observer. */
  ghost predicate TakenKey(t: Table, id: int, row: Tuple, o: Observer) {
    exists i | 0 <= i < |t.primaryKey| :: TakenKeyAt(t, i, id, row, o)
  }

  ghost predicate TakenKeyAt(t: Table, i: nat, id: int, row: Tuple, o: Observer)
    requires i < |t.primaryKey|
  {
    var cell := Cell(id, row, t.primaryKey[i]);
    cell.Some? && Duplicate(t.rows, t.primaryKey[i], cell.value, 0, o)
  }

  /** A key of the new row is taken exactly when a row that the observer sees has the same value in that key column. */
  lemma TakenKeyExactly(t: Table, id: int, row: Tuple, o: Observer)
    requires IdsInRange(t.rows, t.lastRowId)
    ensures TakenKey(t, id, row, o) <==>
            exists column, e :: column in t.primaryKey && e in t.rows && Sees(o, t.rows[e])
                                && Cell(id, row, column).Some? && Cell(e, t.rows[e], column).Some?
                                && SameValue(Cell(e, t.rows[e], column).value, Cell(id, row, column).value)
  {
    if TakenKey(t, id, row, o) {
      var i :| 0 <= i < |t.primaryKey| && TakenKeyAt(t, i, id, row, o);
      var column := t.primaryKey[i];
      var e :| e in t.rows && Duplicates(t.rows, e, column, Cell(id, row, column).value, 0, o);
      assert column in t.primaryKey;
    }
    forall column, e | column in t.primaryKey && e in t.rows && Sees(o, t.rows[e])
                       && Cell(id, row, column).Some? && Cell(e, t.rows[e], column).Some?
                       && SameValue(Cell(e, t.rows[e], column).value, Cell(id, row, column).value)
      ensures TakenKey(t, id, row, o)
    {
      var i :| 0 <= i < |t.primaryKey| && t.primaryKey[i] == column;
      assert Duplicates(t.rows, e, column, Cell(id, row, column).value, 0, o);
      assert TakenKeyAt(t, i, id, row, o);
    }
  }

  /** An update clashes at row r exactly when a row other than r that the observer sees has an assigned key value. */
  lemma ClashesExactly(t: Table, r: int, o: Observer, updates: Row)
    ensures Clashes(t, r, o, updates) <==>
            exists column, e :: column in t.primaryKey && column in updates && e in t.rows && e != r && Sees(o, t.rows[e])
                                && Cell(e, t.rows[e], column).Some?
                                && SameValue(Cell(e, t.rows[e], column).value, updates[column])
  {
    if Clashes(t, r, o, updates) {
      var i :| 0 <= i < |t.primaryKey| && ClashesAt(t, i, r, o, updates);
      var column := t.primaryKey[i];
      var e :| e in t.rows && Duplicates(t.rows, e, column, updates[column], r, o);
      assert column in t.primaryKey;
    }
    forall column, e | column in t.primaryKey && column in updates && e in t.rows && e != r && Sees(o, t.rows[e])
                       && Cell(e, t.rows[e], column).Some? && SameValue(Cell(e, t.rows[e], column).value, updates[column])
      ensures Clashes(t, r, o, updates)
    {
      var i :| 0 <= i < |t.primaryKey| && t.primaryKey[i] == column;
      assert Duplicates(t.rows, e, column, updates[column], r, o);
      assert ClashesAt(t, i, r, o, updates);
    }
  }

  lemma TakenEither(t: Table, t': Table, id: int, row: Tuple, o: Observer)
    requires t'.primaryKey == t.primaryKey && t'.rows == t.rows
    ensures TakenKey(t, id, row, o) <==> TakenKey(t', id, row, o)
  {
    assert forall i | 0 <= i < |t.primaryKey| :: TakenKeyAt(t, i, id, row, o) <==> TakenKeyAt(t', i, id, row, o);
  }

  lemma ConsistentSameRows(undo: seq<UndoRecord>, sps: seq<Savepoint>, db: Db, db': Db, base: Db, saved: seq<Db>)
    requires Consistent(undo, sps, db, base, saved) && SameRows(db, db')
    ensures Consistent(undo, sps, db', base, saved)
  {
  }
}
