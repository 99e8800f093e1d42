/** Sessions as the server drives them: statements by themselves, and statements inside a transaction block. */
module Sessions {
  import opened Mvcc
  import opened Wrappers
  import opened Tables
  import opened Transactions
  import opened UndoLog
  import opened Vacuuming
  import opened Statements
  import opened Engines
  import opened Blocks

  /** What a session can do inside a block. A row is None when its validation throws. */
  datatype Command =
    | Insert(table: string, row: Option<Row>) | Update(table: string, m: Match, updates: Row) | Remove(table: string, m: Match)
    | Mark(savepoint: string) | Back(savepoint: string) | Forget(savepoint: string)

  predicate IsStatement(c: Command) { c.Insert? || c.Update? || c.Remove? }

  ghost function Now(e: StorageEngine, base: Db, first: Xid): Block
    reads e.txn
  {
    Block(base, first, e.txn.xid, e.txn.commandId, e.txn.clog)
  }

  /** The block that began with the rows of base when first was the next id has come this far. */
  ghost predicate Inside(e: StorageEngine, base: Db, first: Xid)
    reads e, e.txn
  {
    first <= e.txn.nextXid && Along(Now(e, base, first), e.txn.undo, e.tables)
  }

  // ---------- the commands of a block ----------

  method DoInsert(e: StorageEngine, table: string, row: Option<Row>, ghost base: Db, ghost first: Xid)
    requires e.Valid()
    modifies e`tables, e`grounds, e.txn`nextXid, e.txn`clog, e.txn`active, e.txn`xid, e.txn`undo
    ensures e.Valid() && e.tables.Keys == old(e.tables.Keys) && OnlyAborts(old(e.txn.clog), e.txn.clog)
    ensures old(Inside(e, base, first)) ==> Inside(e, base, first)
  {
    ghost var was, log, b, next := e.tables, e.txn.undo, Now(e, base, first), e.txn.nextXid;
    ghost var inside := Inside(e, base, first);
    var r, o := e.InsertWithTxn(table, row);
    if inside && r.Ok? {
      AlongInsert(b, next, log, was, Now(e, base, first), table, e.tables[table].rows[r.value], e.tables, e.txn.undo);
    } else if inside {
      AlongAdvanced(b, next, log, was, Now(e, base, first), table, e.tables, r.why == DuplicateKey);
    }
  }

  method DoUpdate(e: StorageEngine, table: string, m: Match, updates: Row, ghost base: Db, ghost first: Xid)
    requires e.Valid()
    modifies e`tables, e`grounds, e.txn`nextXid, e.txn`clog, e.txn`active, e.txn`xid, e.txn`undo
    ensures e.Valid() && e.tables.Keys == old(e.tables.Keys) && OnlyAborts(old(e.txn.clog), e.txn.clog)
    ensures old(Inside(e, base, first)) ==> Inside(e, base, first)
  {
    ghost var was, log, b, next := e.tables, e.txn.undo, Now(e, base, first), e.txn.nextXid;
    ghost var inside := Inside(e, base, first);
    var r, o, upto := e.UpdateWithTxn(table, m, updates);
    if inside && (r.Ok? || r.why == DuplicateKey) {
      AlongEdit(b, next, log, was, Now(e, base, first), table, m, Assign(updates), o, e.tables, e.txn.undo, upto,
                e.txn.nextXid, e.txn.active);
    } else if inside {
      AlongAdvanced(b, next, log, was, Now(e, base, first), table, e.tables, false);
    }
  }

  method DoRemove(e: StorageEngine, table: string, m: Match, ghost base: Db, ghost first: Xid)
    requires e.Valid()
    modifies e`tables, e`grounds, e.txn`nextXid, e.txn`clog, e.txn`active, e.txn`xid, e.txn`undo
    ensures e.Valid() && e.tables.Keys == old(e.tables.Keys) && OnlyAborts(old(e.txn.clog), e.txn.clog)
    ensures old(Inside(e, base, first)) ==> Inside(e, base, first)
  {
    ghost var was, log, b, next := e.tables, e.txn.undo, Now(e, base, first), e.txn.nextXid;
    ghost var inside := Inside(e, base, first);
    var r, o := e.RemoveWithTxn(table, m);
    if inside && r.Ok? {
      AlongEdit(b, next, log, was, Now(e, base, first), table, m, Delete, o, e.tables, e.txn.undo, was[table].lastRowId,
                e.txn.nextXid, e.txn.active);
    } else if inside {
      AlongAdvanced(b, next, log, was, Now(e, base, first), table, e.tables, false);
    }
  }

  method Execute(e: StorageEngine, c: Command, ghost base: Db, ghost first: Xid)
    requires e.Valid() && IsStatement(c)
    modifies e`tables, e`grounds, e.txn`nextXid, e.txn`clog, e.txn`active, e.txn`xid, e.txn`undo
    ensures e.Valid() && e.tables.Keys == old(e.tables.Keys) && OnlyAborts(old(e.txn.clog), e.txn.clog)
    ensures old(Inside(e, base, first)) ==> Inside(e, base, first)
  {
    match c {
      case Insert(table, row) => DoInsert(e, table, row, base, first);
      case Update(table, m, updates) => DoUpdate(e, table, m, updates, base, first);
      case Remove(table, m) => DoRemove(e, table, m, base, first);
    }
  }

  method DoBack(e: StorageEngine, savepoint: string, ghost base: Db, ghost first: Xid)
    requires e.Valid()
    modifies e`tables, e`saved, e`grounds, e.txn`savepoints
    ensures e.Valid() && e.tables.Keys == old(e.tables.Keys)
    ensures old(Inside(e, base, first)) ==> Inside(e, base, first)
  {
    ghost var was, saved, sps := e.tables, e.saved, e.txn.savepoints;
    ghost var inside := Inside(e, base, first);
    var ok, k := e.RollbackTo(savepoint);
    if inside && ok {
      UndoneSameRows(e.txn.undo, sps[k].undoPosition, was, saved[k], e.tables);
      AlongUndone(Now(e, base, first), e.txn.undo, sps[k].undoPosition, was, e.tables);
    }
  }

  method DoSavepoint(e: StorageEngine, c: Command, ghost base: Db, ghost first: Xid)
    requires e.Valid() && !IsStatement(c)
    modifies e`tables, e`saved, e`grounds, e.txn`savepoints
    ensures e.Valid() && e.tables.Keys == old(e.tables.Keys)
    ensures old(Inside(e, base, first)) ==> Inside(e, base, first)
  {
    match c {
      case Mark(name) => e.SetSavepoint(name);
      case Back(name) => DoBack(e, name, base, first);
      case Forget(name) => var ok, k := e.ReleaseSavepoint(name);
    }
  }

  /** A statement runs between the two transaction commands, whether it succeeds or throws. */
  method Do(e: StorageEngine, c: Command, ghost base: Db, ghost first: Xid)
    requires e.Valid() && e.txn.blockState in {Begin, InBlock}
    modifies e, e.txn
    ensures e.Valid() && e.txn.blockState in {Begin, InBlock} && e.base == old(e.base)
    ensures e.tables.Keys == old(e.tables.Keys) && OnlyAborts(old(e.txn.clog), e.txn.clog)
    ensures old(Inside(e, base, first)) ==> Inside(e, base, first)
  {
    if IsStatement(c) {
      e.StartStatement();
      Execute(e, c, base, first);
      ghost var b, inside := Now(e, base, first), Inside(e, base, first);
      var ok := e.EndStatement();
      if inside { AlongNext(b, e.txn.undo, e.tables, Now(e, base, first)); }
    } else {
      DoSavepoint(e, c, base, first);
    }
  }

  method BeginBlock(e: StorageEngine)
    requires e.Valid() && e.txn.blockState == DefaultState && (e.txn.undo != [] ==> e.txn.savepoints == [])
    modifies e, e.txn
    ensures e.Valid() && e.txn.blockState == Begin && SameRows(old(e.tables), e.base) && e.tables == old(e.tables)
    ensures e.txn.clog == old(e.txn.clog)
    ensures Past(old(e.tables), old(e.txn.nextXid)) ==> Inside(e, old(e.tables), old(e.txn.nextXid))
  {
    var ok := e.BeginTransaction();
    KeptAtStart(e.tables, e.txn.nextXid, e.txn.commandId, e.txn.clog);
  }

  /** BEGIN and any commands. */
  method RunBlock(e: StorageEngine, cmds: seq<Command>)
    requires e.Valid() && e.txn.blockState == DefaultState && (e.txn.undo != [] ==> e.txn.savepoints == [])
    modifies e, e.txn
    ensures e.Valid() && e.txn.blockState in {Begin, InBlock} && e.tables.Keys == old(e.tables.Keys)
    ensures SameRows(old(e.tables), e.base) && OnlyAborts(old(e.txn.clog), e.txn.clog)
    ensures Past(old(e.tables), old(e.txn.nextXid)) ==> Inside(e, old(e.tables), old(e.txn.nextXid))
  {
    ghost var was, first := e.tables, e.txn.nextXid;
    BeginBlock(e);
    for i := 0 to |cmds|
      invariant e.Valid() && e.txn.blockState in {Begin, InBlock} && e.tables.Keys == was.Keys
      invariant SameRows(was, e.base) && OnlyAborts(old(e.txn.clog), e.txn.clog)
      invariant Past(was, first) ==> Inside(e, was, first)
    {
      Do(e, cmds[i], was, first);
    }
  }

  // ---------- how a block ends ----------

  /** BEGIN, any commands, ROLLBACK: every table holds again, row by row, what it held when BEGIN was called. */
  method BlockThenRollback(e: StorageEngine, cmds: seq<Command>)
    requires e.Valid() && e.txn.blockState == DefaultState && (e.txn.undo != [] ==> e.txn.savepoints == [])
    modifies e, e.txn
    ensures e.Valid() && e.txn.blockState == DefaultState && e.txn.xid == 0 && e.txn.undo == [] && e.txn.savepoints == []
    ensures e.tables.Keys == old(e.tables.Keys)
    ensures forall name | name in e.tables :: e.tables[name].rows == old(e.tables)[name].rows
  {
    ghost var was := e.tables;
    RunBlock(e, cmds);
    e.Rollback();
    AllRowsBack(was, e.tables);
  }

  /** The same for what is scanned: sessions without a transaction see what they would have seen at BEGIN. */
  method RollbackUnnoticed(e: StorageEngine, cmds: seq<Command>)
    requires e.Valid() && e.txn.blockState == DefaultState && (e.txn.undo != [] ==> e.txn.savepoints == [])
    requires Past(e.tables, e.txn.nextXid)
    modifies e, e.txn
    ensures e.Valid() && e.tables.Keys == old(e.tables.Keys) && Past(e.tables, e.txn.nextXid)
    ensures forall name, o0: Observer, o: Observer |
              && name in e.tables && o0.me == 0 && o0.clog == old(e.txn.clog) && Fresh(o0, old(e.txn.nextXid), old(e.txn.active))
              && o.me == 0 && o.clog == e.txn.clog && Fresh(o, e.txn.nextXid, e.txn.active) ::
                var t0, t := old(e.tables)[name], e.tables[name];
                VisibleRows(t.rows, t.lastRowId, o) == VisibleRows(t0.rows, t0.lastRowId, o0)
  {
    ghost var was, clog, next, active := e.tables, e.txn.clog, e.txn.nextXid, e.txn.active;
    RunBlock(e, cmds);
    e.Rollback();
    RolledBackScans(was, clog, next, active, e.tables, e.txn.clog, e.txn.nextXid, e.txn.active);
    PastBack(was, next, e.tables, e.txn.nextXid);
  }

  /**
   * BEGIN, any commands, a scan, COMMIT: unless the commit is refused, every session without a transaction then scans
   * exactly the rows that the block itself scanned.
   */
  method BlockThenCommit(e: StorageEngine, cmds: seq<Command>, name: string) returns (mine: Outcome<seq<Found>>, ok: bool)
    requires e.Valid() && e.txn.blockState == DefaultState && (e.txn.undo != [] ==> e.txn.savepoints == [])
    requires Past(e.tables, e.txn.nextXid)
    modifies e, e.txn
    ensures e.Valid() && e.tables.Keys == old(e.tables.Keys) && (mine.Ok? <==> name in e.tables)
    ensures Past(e.tables, e.txn.nextXid)
    ensures ok && name in e.tables ==>
              forall o: Observer | o.me == 0 && o.clog == e.txn.clog && Fresh(o, e.txn.nextXid, e.txn.active) ::
                VisibleRows(e.tables[name].rows, e.tables[name].lastRowId, o) == mine.value
  {
    ghost var was, first := e.tables, e.txn.nextXid;
    RunBlock(e, cmds);
    var own := e.Observe();
    mine := e.ScanWithSnapshot(name, own);
    ok := CommitShown(e, name, own, was, first);
  }

  method CommitShown(e: StorageEngine, name: string, ghost own: Observer, ghost was: Db, ghost first: Xid) returns (ok: bool)
    requires e.Valid() && Inside(e, was, first) && Observes(own, e.txn)
    modifies e, e.txn
    ensures e.Valid() && e.tables == old(e.tables) && Past(e.tables, e.txn.nextXid)
    ensures ok && name in e.tables ==>
              forall o: Observer | o.me == 0 && o.clog == e.txn.clog && Fresh(o, e.txn.nextXid, e.txn.active) ::
                var t := e.tables[name];
                VisibleRows(t.rows, t.lastRowId, o) == VisibleRows(t.rows, t.lastRowId, own)
  {
    ghost var b, undo, next, active := Now(e, was, first), e.txn.undo, e.txn.nextXid, e.txn.active;
    KeptIsPast(b, undo, e.tables, next);
    ok := e.Commit();
    if ok && name in e.tables {
      CommittedScans(b, undo, e.tables, name, own, next, active, e.txn.clog, e.txn.nextXid, e.txn.active);
    }
  }

  /**
   * BEGIN, any commands, and a scan by a session without a transaction: it shows no value that the block has written,
   * and of the rows a scan at BEGIN would have shown it lacks exactly those that the block has rewritten.
   */
  method BlockFromOutside(e: StorageEngine, cmds: seq<Command>, name: string) returns (theirs: Outcome<seq<Found>>)
    requires e.Valid() && e.txn.blockState == DefaultState && (e.txn.undo != [] ==> e.txn.savepoints == [])
    requires Past(e.tables, e.txn.nextXid) && name in e.tables
    modifies e, e.txn
    ensures e.Valid() && theirs.Ok? && name in e.tables
    ensures forall id, o0: Observer | id in e.tables[name].rows
              && o0.me == 0 && o0.clog == old(e.txn.clog) && Fresh(o0, old(e.txn.nextXid), old(e.txn.active)) ::
                var t, t0 := e.tables[name], old(e.tables)[name];
                && (Found(id, t.rows[id]) in theirs.value <==>
                      && !(e.txn.xid != 0 && t.rows[id].hdr.xmin == e.txn.xid)
                      && id in t0.rows && Found(id, t0.rows[id]) in VisibleRows(t0.rows, t0.lastRowId, o0))
                && (Found(id, t.rows[id]) in theirs.value ==> id in t0.rows && t.rows[id].cols == t0.rows[id].cols)
  {
    ghost var was, clog, first, active := e.tables, e.txn.clog, e.txn.nextXid, e.txn.active;
    RunBlock(e, cmds);
    var o;
    o, theirs := ScanFromOutside(e, name);
    OutsiderScans(Now(e, was, first), e.txn.undo, e.tables, name, o, e.txn.nextXid, e.txn.active, clog, first, active);
  }

  method ScanFromOutside(e: StorageEngine, name: string) returns (o: Observer, theirs: Outcome<seq<Found>>)
    requires e.Valid() && name in e.tables
    ensures o.me == INVALID && o.clog == e.txn.clog && Fresh(o, e.txn.nextXid, e.txn.active)
    ensures theirs == Ok(VisibleRows(e.tables[name].rows, e.tables[name].lastRowId, o))
  {
    var snap := e.txn.GetSnapshot();
    o := Observer(INVALID, snap, e.txn.commandId, e.txn.clog);
    theirs := e.ScanWithSnapshot(name, o);
  }

  // ---------- savepoints ----------

  /** The command leaves the savepoints with these names alone. */
  predicate Spares(c: Command, names: set<string>) {
    match c
    case Mark(name) => name !in names
    case Back(name) => name !in names
    case Forget(name) => name !in names
    case _ => true
  }

  /** The first savepoints are these, and no later one has their names. */
  ghost predicate Standing(now: seq<Savepoint>, first: seq<Savepoint>, names: set<string>) {
    && |first| <= |now|
    && (forall i | 0 <= i < |first| :: now[i] == first[i] && first[i].name in names)
    && forall i | |first| <= i < |now| :: now[i].name !in names
  }

  lemma StandingCut(was: seq<Savepoint>, now: seq<Savepoint>, first: seq<Savepoint>, names: set<string>, name: string, k: int)
    requires Standing(was, first, names) && name !in names && IsLatest(was, name, k) && now == if k >= 0 then was[..k] else was
    ensures Standing(now, first, names) && (k >= 0 ==> |first| <= k)
  {
  }

  method DoSavepointSparing(e: StorageEngine, c: Command, ghost first: seq<Savepoint>, ghost kept: seq<Db>, ghost names: set<string>)
    requires e.Valid() && !IsStatement(c) && Spares(c, names)
    requires Standing(e.txn.savepoints, first, names) && |kept| == |first| && kept <= e.saved
    modifies e`tables, e`saved, e`grounds, e.txn`savepoints
    ensures e.Valid() && e.tables.Keys == old(e.tables.Keys)
    ensures Standing(e.txn.savepoints, first, names) && kept <= e.saved
  {
    ghost var was := e.txn.savepoints;
    match c {
      case Mark(name) => e.SetSavepoint(name);
      case Back(name) =>
        var ok, k := e.RollbackTo(name);
        StandingCut(was, e.txn.savepoints, first, names, name, k);
      case Forget(name) =>
        var ok, k := e.ReleaseSavepoint(name);
        StandingCut(was, e.txn.savepoints, first, names, name, k);
    }
  }

  /** One command that leaves the savepoints standing so far alone. */
  method DoSparing(e: StorageEngine, c: Command, ghost first: seq<Savepoint>, ghost kept: seq<Db>, ghost names: set<string>)
    requires e.Valid() && e.txn.blockState in {Begin, InBlock} && Spares(c, names)
    requires Standing(e.txn.savepoints, first, names) && |kept| == |first| && kept <= e.saved
    modifies e, e.txn
    ensures e.Valid() && e.txn.blockState in {Begin, InBlock} && e.tables.Keys == old(e.tables.Keys)
    ensures Standing(e.txn.savepoints, first, names) && kept <= e.saved
  {
    if IsStatement(c) {
      e.StartStatement();
      Execute(e, c, map[], 0);
      var ok := e.EndStatement();
    } else {
      DoSavepointSparing(e, c, first, kept, names);
    }
  }

  /**
   * SAVEPOINT, any commands that name neither it nor an earlier savepoint, then the rollback to it: every table holds
   * again, row by row, what it held when the savepoint was made, and the earlier savepoints are still there.
   */
  method SavepointThenRollback(e: StorageEngine, name: string, cmds: seq<Command>) returns (ok: bool)
    requires e.Valid() && e.txn.blockState in {Begin, InBlock}
    requires forall c | c in cmds :: Spares(c, {name} + set s | s in e.txn.savepoints :: s.name)
    modifies e, e.txn
    ensures e.Valid() && ok && e.txn.savepoints == old(e.txn.savepoints) && e.tables.Keys == old(e.tables.Keys)
    ensures forall table | table in e.tables :: e.tables[table].rows == old(e.tables)[table].rows
  {
    ghost var was := e.tables;
    ghost var names := {name} + set s | s in e.txn.savepoints :: s.name;
    e.SetSavepoint(name);
    ghost var first, kept := e.txn.savepoints, e.saved;
    for i := 0 to |cmds|
      invariant e.Valid() && e.txn.blockState in {Begin, InBlock} && e.tables.Keys == was.Keys
      invariant Standing(e.txn.savepoints, first, names) && kept <= e.saved
    {
      assert cmds[i] in cmds;
      DoSparing(e, cmds[i], first, kept, names);
    }
    ghost var later := e.txn.savepoints;
    ghost var k;
    ok, k := e.RollbackTo(name);
    LastStanding(later, first, names, name, k);
    AllRowsBack(was, e.tables);
  }

  lemma LastStanding(now: seq<Savepoint>, first: seq<Savepoint>, names: set<string>, name: string, k: int)
    requires Standing(now, first, names) && first != [] && first[|first| - 1].name == name && IsLatest(now, name, k)
    ensures k == |first| - 1 && now[..k] == first[..k]
  {
  }

  // ---------- statements outside a block ----------

  /** The end of a statement outside a block; false when the commit is refused. */
  method EndAlone(e: StorageEngine) returns (ok: bool)
    requires e.Valid() && e.txn.blockState == Started
    modifies e`base, e`saved, e.txn
    ensures e.Valid() && (old(e.txn.isolation) != Serializable ==> ok && e.txn.blockState == DefaultState)
    ensures e.txn.nextXid == old(e.txn.nextXid)
    ensures ok && old(e.txn.xid) != 0 ==>
              && old(e.txn.xid) in e.txn.clog && e.txn.clog[old(e.txn.xid)] == Committed
              && old(e.txn.xid) !in e.txn.active && e.txn.xid == 0
  {
    ok := e.EndStatement();
  }

  method StartAlone(e: StorageEngine)
    requires e.Valid() && e.txn.blockState == DefaultState && (e.txn.undo != [] ==> e.txn.savepoints == [])
    modifies e`base, e`saved, e.txn`xid, e.txn`commandId, e.txn`undo, e.txn`blockState
    ensures e.Valid() && e.txn.blockState == Started && e.txn.xid == 0 && e.txn.commandId == 0 && e.txn.undo == []
  {
    e.StartStatement();
  }

  /** Any statement by itself leaves only rows whose headers name transactions that have been started. */
  method StatementAlone(e: StorageEngine, c: Command) returns (ok: bool)
    requires e.Valid() && e.txn.blockState == DefaultState && (e.txn.undo != [] ==> e.txn.savepoints == [])
    requires Past(e.tables, e.txn.nextXid) && IsStatement(c)
    modifies e, e.txn
    ensures e.Valid() && e.tables.Keys == old(e.tables.Keys) && Past(e.tables, e.txn.nextXid)
    ensures old(e.txn.isolation) != Serializable ==> ok && e.txn.blockState == DefaultState
  {
    ghost var was, first := e.tables, e.txn.nextXid;
    StartAlone(e);
    KeptAtStart(e.tables, first, e.txn.commandId, e.txn.clog);
    Execute(e, c, was, first);
    KeptIsPast(Now(e, was, first), e.txn.undo, e.tables, e.txn.nextXid);
    ok := EndAlone(e);
  }

  method InsertStatement(e: StorageEngine, name: string, row: Option<Row>) returns (r: Outcome<int>)
    requires e.Valid() && e.txn.xid == 0 && e.txn.commandId == 0
    modifies e`tables, e`grounds, e.txn`nextXid, e.txn`clog, e.txn`active, e.txn`xid, e.txn`undo
    ensures e.Valid()
    ensures r.Ok? ==>
              && row.Some? && name in e.tables && r.value in e.tables[name].rows && 1 <= r.value <= e.tables[name].lastRowId
              && e.txn.xid == old(e.txn.nextXid)
              && var x, t := old(e.txn.nextXid), e.tables[name].rows[r.value];
                 && t.hdr == Header(x, 0, 0)
                 && (forall c :: c in t.cols <==> c in row.value && c !in {"_rowid", "_xmin", "_xmax", "_cid"})
                 && (forall c | c in t.cols :: t.cols[c] == row.value[c])
  {
    ghost var o;
    r, o := e.InsertWithTxn(name, row);
  }

  /** An INSERT by itself: if it succeeds, and its commit is not refused, every later fresh scan shows the row. */
  method InsertAlone(e: StorageEngine, name: string, row: Option<Row>) returns (r: Outcome<int>, ok: bool)
    requires e.Valid() && e.txn.blockState == DefaultState && (e.txn.undo != [] ==> e.txn.savepoints == [])
    modifies e, e.txn
    ensures e.Valid() && (old(e.txn.isolation) != Serializable ==> ok && e.txn.blockState == DefaultState)
    ensures r.Ok? ==> row.Some? && name in e.tables && r.value in e.tables[name].rows
    ensures r.Ok? && ok ==>
              var x, t := old(e.txn.nextXid), e.tables[name].rows[r.value];
              && x in e.txn.clog && e.txn.clog[x] == Committed && x !in e.txn.active && e.txn.xid == 0
              && t.hdr == Header(x, 0, 0)
              && (forall c :: c in t.cols <==> c in row.value && c !in {"_rowid", "_xmin", "_xmax", "_cid"})
              && (forall c | c in t.cols :: t.cols[c] == row.value[c])
              && forall o: Observer | o.clog == e.txn.clog && Fresh(o, e.txn.nextXid, e.txn.active) ::
                   Found(r.value, t) in VisibleRows(e.tables[name].rows, e.tables[name].lastRowId, o)
  {
    StartAlone(e);
    r := InsertStatement(e, name, row);
    ok := EndAlone(e);
    if r.Ok? && ok {
      ShownToAll(e.tables[name], r.value, e.txn.clog, e.txn.nextXid, e.txn.active);
    }
  }

  method UpdateStatement(e: StorageEngine, name: string, m: Match, updates: Row)
    returns (r: Outcome<nat>, ghost o: Observer, ghost upto: nat)
    requires e.Valid() && e.txn.xid == 0 && e.txn.commandId == 0
    modifies e`tables, e`grounds, e.txn`nextXid, e.txn`clog, e.txn`active, e.txn`xid, e.txn`undo
    ensures e.Valid()
    ensures r.Ok? ==>
              && name in old(e.tables) && name in e.tables && e.tables == old(e.tables)[name := e.tables[name]]
              && IdsInRange(old(e.tables)[name].rows, upto)
              && e.tables[name].rows == Edited(old(e.tables)[name].rows, upto, o, m, Assign(updates), 0)
              && e.txn.xid == old(e.txn.nextXid) && o.me == e.txn.xid && o.clog == e.txn.clog
              && Fresh(o, e.txn.nextXid, e.txn.active) && OnlyAborts(old(e.txn.clog), o.clog)
  {
    r, o, upto := e.UpdateWithTxn(name, m, updates);
  }

  method StartedUpdate(e: StorageEngine, name: string, m: Match, updates: Row)
    returns (r: Outcome<nat>, ghost o: Observer, ghost upto: nat)
    requires e.Valid() && e.txn.blockState == DefaultState && (e.txn.undo != [] ==> e.txn.savepoints == [])
    modifies e, e.txn
    ensures e.Valid() && e.txn.blockState == Started && e.txn.isolation == old(e.txn.isolation)
    ensures r.Ok? ==>
              && name in old(e.tables) && name in e.tables && e.tables == old(e.tables)[name := e.tables[name]]
              && IdsInRange(old(e.tables)[name].rows, upto)
              && e.tables[name].rows == Edited(old(e.tables)[name].rows, upto, o, m, Assign(updates), 0)
              && e.txn.xid == old(e.txn.nextXid) && o.me == e.txn.xid && o.clog == e.txn.clog
              && Fresh(o, e.txn.nextXid, e.txn.active) && OnlyAborts(old(e.txn.clog), o.clog)
  {
    StartAlone(e);
    r, o, upto := UpdateStatement(e, name, m, updates);
  }

  /**
   * An UPDATE by itself, of the rows that were finished and not deleted when it began and that it matches: if it
   * succeeds and its commit is not refused, they hold the new cells, under its own committed id; the rest stays.
   */
  method UpdateAlone(e: StorageEngine, name: string, m: Match, updates: Row) returns (r: Outcome<nat>, ok: bool)
    requires e.Valid() && e.txn.blockState == DefaultState && (e.txn.undo != [] ==> e.txn.savepoints == [])
    requires Past(e.tables, e.txn.nextXid)
    modifies e, e.txn
    ensures e.Valid() && (old(e.txn.isolation) != Serializable ==> ok && e.txn.blockState == DefaultState)
    ensures r.Ok? && ok ==> old(e.txn.nextXid) in e.txn.clog && e.txn.clog[old(e.txn.nextXid)] == Committed
    ensures r.Ok? ==> name in e.tables && name in old(e.tables) && e.tables == old(e.tables)[name := e.tables[name]]
                      && e.tables[name].rows.Keys == old(e.tables)[name].rows.Keys
    ensures r.Ok? ==>
              forall id | id in e.tables[name].rows ::
                var t0, t, x, clog0 := old(e.tables)[name].rows[id], e.tables[name].rows[id], old(e.txn.nextXid), old(e.txn.clog);
                var h := t0.hdr;
                var seen := || h.xmin == 0
                            || ((h.xmin == 2 || (h.xmin in clog0 && clog0[h.xmin] in {Committed, SubCommitted}))
                                && (h.xmax == 0 || !(h.xmax in clog0 && clog0[h.xmax] == Committed)));
                && (!(seen && m(id, t0)) ==> t == t0)
                && (seen && m(id, t0) ==>
                      && t.hdr == Header(x, 0, 0)
                      && (forall c :: c in t.cols <==> c in t0.cols || (c in updates && c !in {"_rowid", "_xmin", "_xmax", "_cid"}))
                      && (forall c | c in t.cols :: t.cols[c] ==
                            if c in updates && c !in {"_rowid", "_xmin", "_xmax", "_cid"} then updates[c] else t0.cols[c]))
  {
    ghost var was, x, clog0 := e.tables, e.txn.nextXid, e.txn.clog;
    ghost var o, upto;
    r, o, upto := StartedUpdate(e, name, m, updates);
    if r.Ok? {
      AllUpdatedAlone(was, name, upto, m, updates, e.tables[name].rows, x, clog0, o, e.txn.nextXid, e.txn.active);
    }
    ok := EndAlone(e);
  }

  method RemoveStatement(e: StorageEngine, name: string, m: Match)
    returns (r: Outcome<nat>, ghost o: Observer)
    requires e.Valid() && e.txn.xid == 0 && e.txn.commandId == 0
    modifies e`tables, e.txn`nextXid, e.txn`clog, e.txn`active, e.txn`xid, e.txn`undo
    ensures e.Valid()
    ensures r.Ok? ==>
              && name in old(e.tables) && name in e.tables && e.tables == old(e.tables)[name := e.tables[name]]
              && IdsInRange(old(e.tables)[name].rows, old(e.tables)[name].lastRowId)
              && e.tables[name].rows == Edited(old(e.tables)[name].rows, old(e.tables)[name].lastRowId, o, m, Delete, 0)
              && e.txn.xid == old(e.txn.nextXid) && o.me == e.txn.xid && o.clog == e.txn.clog
              && Fresh(o, e.txn.nextXid, e.txn.active) && OnlyAborts(old(e.txn.clog), o.clog)
  {
    r, o := e.RemoveWithTxn(name, m);
  }

  method StartedRemove(e: StorageEngine, name: string, m: Match)
    returns (r: Outcome<nat>, ghost o: Observer)
    requires e.Valid() && e.txn.blockState == DefaultState && (e.txn.undo != [] ==> e.txn.savepoints == [])
    modifies e, e.txn
    ensures e.Valid() && e.txn.blockState == Started && e.txn.isolation == old(e.txn.isolation)
    ensures r.Ok? ==>
              && name in old(e.tables) && name in e.tables && e.tables == old(e.tables)[name := e.tables[name]]
              && IdsInRange(old(e.tables)[name].rows, old(e.tables)[name].lastRowId)
              && e.tables[name].rows == Edited(old(e.tables)[name].rows, old(e.tables)[name].lastRowId, o, m, Delete, 0)
              && e.txn.xid == old(e.txn.nextXid) && o.me == e.txn.xid && o.clog == e.txn.clog
              && Fresh(o, e.txn.nextXid, e.txn.active) && OnlyAborts(old(e.txn.clog), o.clog)
  {
    StartAlone(e);
    r, o := RemoveStatement(e, name, m);
  }

  /** A DELETE by itself: the rows it finds get its tombstone, the rest stays. */
  method RemoveAlone(e: StorageEngine, name: string, m: Match) returns (r: Outcome<nat>, ok: bool)
    requires e.Valid() && e.txn.blockState == DefaultState && (e.txn.undo != [] ==> e.txn.savepoints == [])
    requires Past(e.tables, e.txn.nextXid)
    modifies e, e.txn
    ensures e.Valid() && (old(e.txn.isolation) != Serializable ==> ok && e.txn.blockState == DefaultState)
    ensures r.Ok? && ok ==> old(e.txn.nextXid) in e.txn.clog && e.txn.clog[old(e.txn.nextXid)] == Committed
    ensures r.Ok? ==> name in e.tables && name in old(e.tables) && e.tables == old(e.tables)[name := e.tables[name]]
                      && e.tables[name].rows.Keys == old(e.tables)[name].rows.Keys
    ensures r.Ok? ==>
              forall id | id in e.tables[name].rows ::
                var t0, t, x, clog0 := old(e.tables)[name].rows[id], e.tables[name].rows[id], old(e.txn.nextXid), old(e.txn.clog);
                var h := t0.hdr;
                var seen := || h.xmin == 0
                            || ((h.xmin == 2 || (h.xmin in clog0 && clog0[h.xmin] in {Committed, SubCommitted}))
                                && (h.xmax == 0 || !(h.xmax in clog0 && clog0[h.xmax] == Committed)));
                t == if seen && m(id, t0) then Tuple(Header(h.xmin, x, 0), t0.cols) else t0
  {
    ghost var was, x, clog0 := e.tables, e.txn.nextXid, e.txn.clog;
    ghost var o;
    r, o := StartedRemove(e, name, m);
    if r.Ok? {
      AllDeletedAlone(was, name, was[name].lastRowId, m, e.tables[name].rows, x, clog0, o, e.txn.nextXid, e.txn.active);
    }
    ok := EndAlone(e);
  }
}
