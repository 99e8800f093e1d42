/** Index upkeep: what each index of a table lists, and which indexes are right, statement by statement. */
module Indexing {
  import opened Mvcc
  import opened Wrappers
  import opened Tables
  import opened Transactions
  import opened UndoLog
  import opened Vacuuming
  import opened Statements

  // ---------- right indexes ----------

  /** An index on a lasting column lists every row under its present key. */
  ghost predicate SteadyAt(t: Table, ground: Rows, i: nat, render: Value -> string)
    requires i < |t.indexes|
  {
    Lasting(t.indexes[i].column) ==> SameKeys(ground, t.rows, t.indexes[i].column, render)
  }

  ghost predicate SteadyTable(t: Table, g: Grounds, render: Value -> string) {
    forall i | 0 <= i < |g| && i < |t.indexes| :: SteadyAt(t, g[i], i, render)
  }

  /** The tables with a wrong index on a lasting column. */
  ghost function Unsteady(db: Db, grounds: map<string, Grounds>, render: Value -> string): set<string> {
    set name | name in db && name in grounds && !SteadyTable(db[name], grounds[name], render)
  }

  /** Changing one table concerns that table only. */
  lemma UnsteadyOne(was: Db, before: map<string, Grounds>, now: Db, after: map<string, Grounds>, name: string, render: Value -> string)
    requires forall n | n in now && n in after && n != name :: n in was && n in before && now[n] == was[n] && after[n] == before[n]
    requires name in now && name in after
    ensures SteadyTable(now[name], after[name], render) ==> Unsteady(now, after, render) <= Unsteady(was, before, render) - {name}
    ensures name in was && name in before && (SteadyTable(was[name], before[name], render) ==> SteadyTable(now[name], after[name], render)) ==>
              Unsteady(now, after, render) <= Unsteady(was, before, render)
  {
  }

  lemma SteadyAfresh(t: Table, render: Value -> string)
    ensures SteadyTable(t, Afresh(t), render)
  {
  }

  // ---------- lookups ----------

  lemma LookupThrough(t: Table, g: Grounds, i: nat, o: Observer, key: string, render: Value -> string)
    requires Grounded(t, g, render) && IdsInRange(t.rows, t.lastRowId) && i < |t.indexes|
    ensures var c := t.indexes[i].column;
            var scan := Matching(VisibleRows(t.rows, t.lastRowId, o), c, key, render);
            var got := Fetch(t.rows, EntriesAt(t.indexes[i].entries, key), o);
            && got == Fetch(t.rows, Select(g[i], t.lastRowId, c, key, render), o)
            && (got == scan <==> forall id | 1 <= id <= t.lastRowId :: NoticedAt(t.rows, g[i], id, o, c, key, render))
            && (SteadyTable(t, g, render) && Lasting(c) ==> got == scan)
  {
    assert GroundedAt(t, g[i], i, render);
    LookupExactly(t.rows, g[i], t.lastRowId, o, t.indexes[i].column, key, render);
    if SteadyTable(t, g, render) && Lasting(t.indexes[i].column) { assert SteadyAt(t, g[i], i, render); }
  }

  /** An index is right exactly when every row has the key under which the index last took notice of it. */
  lemma RightExactly(t: Table, g: Grounds, i: nat, render: Value -> string)
    requires Grounded(t, g, render) && IdsInRange(t.rows, t.lastRowId) && i < |t.indexes|
    ensures Agrees(t.indexes[i], t.rows, t.lastRowId, render) <==> SameKeys(g[i], t.rows, t.indexes[i].column, render)
  {
    assert GroundedAt(t, g[i], i, render);
    AgreesExactly(t.indexes[i], g[i], t.rows, t.lastRowId, render);
  }

  // ---------- new rows ----------

  function Advanced(t: Table): Table { t.(lastRowId := t.lastRowId + 1) }

  lemma GroundedLonger(t: Table, g: Grounds, render: Value -> string)
    requires Grounded(t, g, render) && IdsInRange(t.rows, t.lastRowId)
    ensures Grounded(Advanced(t), g, render)
  {
    forall i | 0 <= i < |g| ensures GroundedAt(Advanced(t), g[i], i, render) {
      assert GroundedAt(t, g[i], i, render);
      AgreesLonger(t.indexes[i], g[i], t.lastRowId, render);
    }
  }

  /** Every index of the table has taken notice of the row. */
  function Noted(g: Grounds, r: int, t: Tuple): (g': Grounds)
    ensures |g'| == |g| && forall i | 0 <= i < |g| :: g'[i] == g[i][r := t]
  {
    seq(|g|, i requires 0 <= i < |g| => g[i][r := t])
  }

  function Registered(idx: Index, rid: int, t: Tuple, key: string, render: Value -> string): seq<int> {
    var list := EntriesAt(idx.entries, key);
    if HasKey(rid, t, idx.column, key, render) && rid !in list then list + [rid] else list
  }

  ghost predicate SameColumns(a: seq<Index>, b: seq<Index>) {
    |a| == |b| && forall i | 0 <= i < |a| :: a[i].column == b[i].column
  }

  lemma RegisteredGrounded(t: Table, g: Grounds, row: Tuple, indexes: seq<Index>, render: Value -> string)
    requires Grounded(t, g, render) && IdsInRange(t.rows, t.lastRowId) && t.lastRowId > 0 && t.lastRowId !in t.rows
    requires SameColumns(t.indexes, indexes)
    requires forall i, key | 0 <= i < |t.indexes| ::
               EntriesAt(indexes[i].entries, key) == Registered(t.indexes[i], t.lastRowId, row, key, render)
    ensures Grounded(t.(rows := t.rows[t.lastRowId := row], indexes := indexes), Noted(g, t.lastRowId, row), render)
  {
    var t' := t.(rows := t.rows[t.lastRowId := row], indexes := indexes);
    forall i | 0 <= i < |g| ensures GroundedAt(t', g[i][t.lastRowId := row], i, render) {
      assert GroundedAt(t, g[i], i, render);
      RegisteredAgrees(t.indexes[i], indexes[i], g[i], t.lastRowId, row, render);
    }
  }

  lemma RegisteredAgrees(idx: Index, idx': Index, rows: Rows, n: nat, row: Tuple, render: Value -> string)
    requires Agrees(idx, rows, n, render) && IdsInRange(rows, n) && n > 0 && n !in rows && idx'.column == idx.column
    requires forall key :: EntriesAt(idx'.entries, key) == Registered(idx, n, row, key, render)
    ensures Agrees(idx', rows[n := row], n, render)
  {
    forall key ensures EntriesAt(idx'.entries, key) == Select(rows[n := row], n, idx.column, key, render) {
      assert EntriesAt(idx.entries, key) == Select(rows, n, idx.column, key, render);
      assert Select(rows, n, idx.column, key, render) == Select(rows, n - 1, idx.column, key, render);
      SelectBound(rows, n - 1, idx.column, key, render);
      SelectSame(rows, rows[n := row], n - 1, idx.column, key, render);
    }
  }

  lemma SteadyNoted(t: Table, g: Grounds, r: int, row: Tuple, indexes: seq<Index>, render: Value -> string)
    requires SameColumns(t.indexes, indexes) && SteadyTable(t, g, render)
    ensures SteadyTable(t.(rows := t.rows[r := row], indexes := indexes), Noted(g, r, row), render)
  {
    forall i | 0 <= i < |g| && i < |t.indexes| ensures SteadyAt(t.(rows := t.rows[r := row], indexes := indexes), g[i][r := row], i, render) {
      assert SteadyAt(t, g[i], i, render);
    }
  }

  // ---------- rewritten rows ----------

  lemma GroundedRewritten(t: Table, rows: Rows, g: Grounds, render: Value -> string)
    requires Grounded(t, g, render) && rows.Keys == t.rows.Keys
    ensures Grounded(t.(rows := rows), g, render)
  {
    forall i | 0 <= i < |g| ensures GroundedAt(t.(rows := rows), g[i], i, render) { assert GroundedAt(t, g[i], i, render); }
  }

  /** An edit without a rebuild keeps right exactly the keys that its rewritten rows keep. */
  lemma SteadyKept(t: Table, g: Grounds, upto: int, o: Observer, m: Match, edit: Edit, cid: nat, render: Value -> string)
    requires SteadyTable(t, g, render) && RewrittenKeep(t, upto, o, m, edit, cid, render)
    ensures SteadyTable(t.(rows := Edited(t.rows, upto, o, m, edit, cid)), g, render)
  {
    var after := Edited(t.rows, upto, o, m, edit, cid);
    forall i | 0 <= i < |g| && i < |t.indexes| ensures SteadyAt(t.(rows := after), g[i], i, render) {
      assert SteadyAt(t, g[i], i, render);
      var c := t.indexes[i].column;
      if Lasting(c) {
        forall r | r in g[i] && r in after ensures Rendered(r, g[i][r], c, render) == Rendered(r, after[r], c, render) {
          KeepsKeyMeans(r, t.rows[r], edit, o.me, cid, c, render);
        }
      }
    }
  }

  /** And only those: a steady table stays steady exactly when every rewritten row keeps its keys. */
  lemma SteadyKeptExactly(t: Table, g: Grounds, upto: int, o: Observer, m: Match, edit: Edit, cid: nat, render: Value -> string)
    requires SteadyTable(t, g, render) && Grounded(t, g, render)
    ensures SteadyTable(t.(rows := Edited(t.rows, upto, o, m, edit, cid)), g, render) <==>
            RewrittenKeep(t, upto, o, m, edit, cid, render)
  {
    var t' := t.(rows := Edited(t.rows, upto, o, m, edit, cid));
    if RewrittenKeep(t, upto, o, m, edit, cid, render) { SteadyKept(t, g, upto, o, m, edit, cid, render); }
    if SteadyTable(t', g, render) {
      forall r, i | r in t.rows && r <= upto && Hit(t.rows, r, o, m) && 0 <= i < |t.indexes| && Lasting(t.indexes[i].column)
        ensures KeepsKey(t.rows[r], edit, o.me, cid, t.indexes[i].column, render)
      {
        assert GroundedAt(t, g[i], i, render) && SteadyAt(t, g[i], i, render) && SteadyAt(t', g[i], i, render);
        assert r in g[i] && t'.rows[r] == NewVersion(t.rows[r], edit, o.me, cid);
        KeepsKeyMeans(r, t.rows[r], edit, o.me, cid, t.indexes[i].column, render);
      }
    }
  }

  /** Every rewritten row keeps its key in every index on a lasting column. */
  ghost predicate RewrittenKeep(t: Table, upto: int, o: Observer, m: Match, edit: Edit, cid: nat, render: Value -> string) {
    forall r, i | r in t.rows && r <= upto && Hit(t.rows, r, o, m) && 0 <= i < |t.indexes| && Lasting(t.indexes[i].column) ::
      KeepsKey(t.rows[r], edit, o.me, cid, t.indexes[i].column, render)
  }

  /** The engine's guard: the edit assigns no indexed column. */
  predicate Unaffected(t: Table, edit: Edit) { edit.Assign? ==> !AffectsIndex(t, edit.updates) }

  /** Under the guard no rebuild is needed. */
  lemma UnaffectedKeeps(t: Table, upto: int, o: Observer, m: Match, edit: Edit, cid: nat, render: Value -> string)
    requires Unaffected(t, edit)
    ensures RewrittenKeep(t, upto, o, m, edit, cid, render)
  {
    forall r, i | r in t.rows && r <= upto && Hit(t.rows, r, o, m) && 0 <= i < |t.indexes| && Lasting(t.indexes[i].column)
      ensures KeepsKey(t.rows[r], edit, o.me, cid, t.indexes[i].column, render)
    {
      LastingKeepsKey(t.rows[r], edit, o.me, cid, t.indexes[i].column, render);
    }
  }

  ghost predicate GroundedDb(db: Db, grounds: map<string, Grounds>, render: Value -> string) {
    grounds.Keys == db.Keys && forall name | name in db :: Grounded(db[name], grounds[name], render)
  }

  // ---------- indexes built ----------

  lemma BuiltGrounded(t: Table, render: Value -> string)
    requires Built(t, render)
    ensures Grounded(t, Afresh(t), render)
  {
  }

  lemma AddedGrounded(t: Table, g: Grounds, idx: Index, render: Value -> string)
    requires Grounded(t, g, render) && Agrees(idx, t.rows, t.lastRowId, render)
    ensures Grounded(t.(indexes := t.indexes + [idx]), g + [t.rows], render)
  {
    var t', g' := t.(indexes := t.indexes + [idx]), g + [t.rows];
    forall i | 0 <= i < |g'| ensures GroundedAt(t', g'[i], i, render) {
      if i < |g| { assert GroundedAt(t, g[i], i, render); }
    }
  }

  lemma SteadyAdded(t: Table, g: Grounds, idx: Index, render: Value -> string)
    requires SteadyTable(t, g, render) && |g| == |t.indexes|
    ensures SteadyTable(t.(indexes := t.indexes + [idx]), g + [t.rows], render)
  {
    var t', g' := t.(indexes := t.indexes + [idx]), g + [t.rows];
    forall i | 0 <= i < |g'| && i < |t'.indexes| ensures SteadyAt(t', g'[i], i, render) {
      if i < |g| { assert SteadyAt(t, g[i], i, render); }
    }
  }

  // ---------- vacuum ----------

  /** The dead rows are gone and the settled ones frozen; the indexes were rebuilt if rows have gone, else they stay. */
  ghost predicate TableVacuumed(t: Table, g: Grounds, t': Table, g': Grounds, oldest: Xid, clog: CLog) {
    && t' == t.(rows := Vacuumed(t.rows, oldest, clog), indexes := t'.indexes)
    && SameColumns(t.indexes, t'.indexes)
    && g' == if t'.rows.Keys == t.rows.Keys then g else Afresh(t')
  }

  /** A frozen row keeps its keys but the one for _xmin, so indexes on lasting columns stay right. */
  lemma SteadyVacuumed(t: Table, g: Grounds, t': Table, g': Grounds, oldest: Xid, clog: CLog, render: Value -> string)
    requires SteadyTable(t, g, render) && TableVacuumed(t, g, t', g', oldest, clog)
    ensures SteadyTable(t', g', render)
  {
    SteadyAfresh(t', render);
    if t'.rows.Keys == t.rows.Keys {
      forall i | 0 <= i < |g| && i < |t.indexes| ensures SteadyAt(t', g[i], i, render) {
        assert SteadyAt(t, g[i], i, render);
        var c := t.indexes[i].column;
        if Lasting(c) {
          forall r | r in g[i] && r in t'.rows ensures Rendered(r, g[i][r], c, render) == Rendered(r, t'.rows[r], c, render) {
            VacuumKeepsCells(t.rows, oldest, clog, r, c);
          }
        }
      }
    }
  }

  /** Freezing without erasing leaves an index right unless it is on _xmin and some frozen row's inserter renders unlike 2. */
  lemma FreezeAgreesExactly(idx: Index, rows: Rows, n: nat, oldest: Xid, clog: CLog, render: Value -> string)
    requires Agrees(idx, rows, n, render) && IdsInRange(rows, n) && forall r | r in rows :: !Dead(rows[r].hdr, oldest, clog)
    ensures Agrees(idx, Vacuumed(rows, oldest, clog), n, render) <==>
            (idx.column == "_xmin" ==>
              forall r | r in rows && Freezable(rows[r].hdr, oldest, clog) :: render(Int(FROZEN)) == render(Int(rows[r].hdr.xmin)))
  {
    var after := Vacuumed(rows, oldest, clog);
    assert after.Keys == rows.Keys by {
      forall r | r in rows ensures r in after { assert !Dead(rows[r].hdr, oldest, clog); }
    }
    AgreesExactly(idx, rows, after, n, render);
    if idx.column != "_xmin" {
      forall r | r in rows ensures Rendered(r, rows[r], idx.column, render) == Rendered(r, after[r], idx.column, render) {
        VacuumKeepsCells(rows, oldest, clog, r, idx.column);
      }
    } else if SameKeys(rows, after, "_xmin", render) {
      forall r | r in rows && Freezable(rows[r].hdr, oldest, clog) ensures render(Int(FROZEN)) == render(Int(rows[r].hdr.xmin)) {
        assert r in after && Rendered(r, rows[r], "_xmin", render) == Rendered(r, after[r], "_xmin", render);
      }
    }
  }

  // ---------- the statements on all tables ----------

  lemma NotedUnsteady(was: Db, before: map<string, Grounds>, now: Db, after: map<string, Grounds>, name: string, r: int, row: Tuple, render: Value -> string)
    requires name in was && name in before && name in now && SameColumns(was[name].indexes, now[name].indexes)
    requires now == was[name := was[name].(rows := was[name].rows[r := row], indexes := now[name].indexes)]
    requires after == before[name := Noted(before[name], r, row)]
    ensures Unsteady(now, after, render) <= Unsteady(was, before, render)
  {
    if SteadyTable(was[name], before[name], render) { SteadyNoted(was[name], before[name], r, row, now[name].indexes, render); }
    UnsteadyOne(was, before, now, after, name, render);
  }

  lemma CountedUnsteady(was: Db, grounds: map<string, Grounds>, name: string, render: Value -> string)
    requires name in was && name in grounds
    ensures Unsteady(was[name := Advanced(was[name])], grounds, render) <= Unsteady(was, grounds, render)
  {
    if SteadyTable(was[name], grounds[name], render) { SteadyCounted(was[name], grounds[name], render); }
    UnsteadyOne(was, grounds, was[name := Advanced(was[name])], grounds, name, render);
  }

  /** An edit touches no index; what it spoils is what its rewritten rows do not keep. */
  lemma EditedUnsteady(was: Db, grounds: map<string, Grounds>, now: Db, name: string, upto: int, o: Observer, m: Match, edit: Edit, render: Value -> string)
    requires GroundedDb(was, grounds, render) && name in was && o.cid >= 0
    requires now == was[name := was[name].(rows := Edited(was[name].rows, upto, o, m, edit, o.cid))]
    ensures GroundedDb(now, grounds, render)
    ensures name !in Unsteady(was, grounds, render) ==>
              (name in Unsteady(now, grounds, render) <==> !RewrittenKeep(was[name], upto, o, m, edit, o.cid, render))
    ensures Unaffected(was[name], edit) ==> RewrittenKeep(was[name], upto, o, m, edit, o.cid, render)
    ensures RewrittenKeep(was[name], upto, o, m, edit, o.cid, render) ==> Unsteady(now, grounds, render) <= Unsteady(was, grounds, render)
  {
    GroundedRewritten(was[name], now[name].rows, grounds[name], render);
    if Unaffected(was[name], edit) { UnaffectedKeeps(was[name], upto, o, m, edit, o.cid, render); }
    if SteadyTable(was[name], grounds[name], render) { SteadyKeptExactly(was[name], grounds[name], upto, o, m, edit, o.cid, render); }
    if RewrittenKeep(was[name], upto, o, m, edit, o.cid, render) {
      if SteadyTable(was[name], grounds[name], render) { SteadyKept(was[name], grounds[name], upto, o, m, edit, o.cid, render); }
      UnsteadyOne(was, grounds, now, grounds, name, render);
    }
  }

  /** A rebuild cures the table. */
  lemma RebuiltUnsteady(was: Db, before: map<string, Grounds>, now: Db, after: map<string, Grounds>, name: string, render: Value -> string)
    requires name in now && now == was[name := now[name]] && after == before[name := Afresh(now[name])]
    ensures Unsteady(now, after, render) <= Unsteady(was, before, render) - {name}
  {
    SteadyAfresh(now[name], render);
    UnsteadyOne(was, before, now, after, name, render);
  }

  lemma AddedUnsteady(was: Db, before: map<string, Grounds>, name: string, idx: Index, render: Value -> string)
    requires name in was && name in before && |before[name]| == |was[name].indexes|
    ensures Unsteady(was[name := was[name].(indexes := was[name].indexes + [idx])], before[name := before[name] + [was[name].rows]], render)
         <= Unsteady(was, before, render)
  {
    var now := was[name := was[name].(indexes := was[name].indexes + [idx])];
    var after := before[name := before[name] + [was[name].rows]];
    if SteadyTable(was[name], before[name], render) { SteadyAdded(was[name], before[name], idx, render); }
    UnsteadyOne(was, before, now, after, name, render);
  }

  lemma NewUnsteady(was: Db, before: map<string, Grounds>, name: string, t: Table, render: Value -> string)
    ensures Unsteady(was[name := t], before[name := []], render) <= Unsteady(was, before, render)
  {
    UnsteadyOne(was, before, was[name := t], before[name := []], name, render);
  }

  lemma VacuumedUnsteady(was: Db, before: map<string, Grounds>, now: Db, after: map<string, Grounds>, oldest: Xid, clog: CLog, render: Value -> string)
    requires now.Keys == was.Keys == before.Keys == after.Keys
    requires forall name | name in now :: TableVacuumed(was[name], before[name], now[name], after[name], oldest, clog)
    ensures Unsteady(now, after, render) <= Unsteady(was, before, render)
  {
    forall name | name in now && SteadyTable(was[name], before[name], render) ensures SteadyTable(now[name], after[name], render) {
      SteadyVacuumed(was[name], before[name], now[name], after[name], oldest, clog, render);
    }
  }

  // ---------- whole histories of one table ----------

  /** What a statement does to a table and to what its indexes list. */
  datatype Event =
    | Insertion(row: Tuple, indexes: seq<Index>)
    | Editing(o: Observer, m: Match, edit: Edit, upto: int)
    | Reindexing(rows: Rows, indexes: seq<Index>)
    | Cleaning(oldest: Xid, clog: CLog, indexes: seq<Index>, g: Grounds)
    | IndexCreation(idx: Index)
    | Counting

  /**
   * Insertions and edits as the engine makes them; Reindexing is an undo, or an update that assigns an indexed column
   * and ends with the rebuild. An edit without a rebuild has assigned no indexed column, or has stopped at a key clash
   * and the row it had rewritten, if any, keeps its keys.
   */
  ghost predicate Happens(t: Table, g: Grounds, e: Event, t': Table, g': Grounds, render: Value -> string) {
    match e
    case Insertion(row, indexes) =>
      && t.lastRowId > 0 && t.lastRowId !in t.rows && SameColumns(t.indexes, indexes)
      && (forall i, key | 0 <= i < |t.indexes| ::
            EntriesAt(indexes[i].entries, key) == Registered(t.indexes[i], t.lastRowId, row, key, render))
      && t' == t.(rows := t.rows[t.lastRowId := row], indexes := indexes) && g' == Noted(g, t.lastRowId, row)
    case Editing(o, m, edit, upto) =>
      && o.cid >= 0 && t' == t.(rows := Edited(t.rows, upto, o, m, edit, o.cid)) && g' == g
      && (Unaffected(t, edit) || (StoppedByClash(t, m, edit, o, upto) && RewrittenKeep(t, upto, o, m, edit, o.cid, render)))
    case Reindexing(rows, indexes) =>
      IdsInRange(rows, t.lastRowId) && t' == t.(rows := rows, indexes := indexes) && Built(t', render) && g' == Afresh(t')
    case Cleaning(oldest, clog, indexes, after) =>
      && t' == t.(rows := Vacuumed(t.rows, oldest, clog), indexes := indexes) && g' == after && TableVacuumed(t, g, t', g', oldest, clog)
      && if t'.rows.Keys == t.rows.Keys then indexes == t.indexes else Built(t', render)
    case IndexCreation(idx) =>
      Agrees(idx, t.rows, t.lastRowId, render) && t' == t.(indexes := t.indexes + [idx]) && g' == g + [t.rows]
    case Counting => t' == Advanced(t) && g' == g
  }

  ghost predicate StoppedByClash(t: Table, m: Match, edit: Edit, o: Observer, upto: int) {
    edit.Assign? && upto >= 0 && NoClash(t, m, edit.updates, o, upto) && Hit(t.rows, upto + 1, o, m) && Clashes(t, upto + 1, o, edit.updates)
  }

  /** Every index lists the present rows. */
  ghost predicate Built(t: Table, render: Value -> string) {
    forall i | 0 <= i < |t.indexes| :: Agrees(t.indexes[i], t.rows, t.lastRowId, render)
  }

  lemma HappensGrounded(t: Table, g: Grounds, e: Event, t': Table, g': Grounds, render: Value -> string)
    requires Grounded(t, g, render) && IdsInRange(t.rows, t.lastRowId) && Happens(t, g, e, t', g', render)
    ensures Grounded(t', g', render) && IdsInRange(t'.rows, t'.lastRowId)
  {
    match e
    case Insertion(row, indexes) => RegisteredGrounded(t, g, row, indexes, render);
    case Editing(o, m, edit, upto) => GroundedRewritten(t, t'.rows, g, render);
    case Reindexing(_, _) => BuiltGrounded(t', render);
    case Cleaning(oldest, clog, _, _) =>
      if t'.rows.Keys == t.rows.Keys { GroundedRewritten(t, t'.rows, g, render); } else { BuiltGrounded(t', render); }
    case IndexCreation(idx) => AddedGrounded(t, g, idx, render);
    case Counting => GroundedLonger(t, g, render);
  }

  lemma HappensSteadily(t: Table, g: Grounds, e: Event, t': Table, g': Grounds, render: Value -> string)
    requires SteadyTable(t, g, render) && |g| == |t.indexes| && Happens(t, g, e, t', g', render)
    ensures SteadyTable(t', g', render) && |g'| == |t'.indexes|
  {
    match e
    case Insertion(row, indexes) => SteadyNoted(t, g, t.lastRowId, row, indexes, render);
    case Editing(o, m, edit, upto) =>
      if Unaffected(t, edit) { UnaffectedKeeps(t, upto, o, m, edit, o.cid, render); }
      SteadyKept(t, g, upto, o, m, edit, o.cid, render);
    case Reindexing(_, _) => SteadyAfresh(t', render);
    case Cleaning(oldest, clog, _, _) => SteadyVacuumed(t, g, t', g', oldest, clog, render);
    case IndexCreation(idx) => SteadyAdded(t, g, idx, render);
    case Counting => SteadyCounted(t, g, render);
  }

  lemma SteadyCounted(t: Table, g: Grounds, render: Value -> string)
    requires SteadyTable(t, g, render)
    ensures SteadyTable(Advanced(t), g, render)
  {
    forall i | 0 <= i < |g| && i < |t.indexes| ensures SteadyAt(Advanced(t), g[i], i, render) { assert SteadyAt(t, g[i], i, render); }
  }

  ghost predicate IsHistory(t: seq<Table>, g: seq<Grounds>, ev: seq<Event>, render: Value -> string) {
    && |t| == |g| == |ev| + 1 && t[0].rows == map[] && t[0].indexes == [] && g[0] == []
    && forall i, j | 0 <= i < |ev| && j == i + 1 :: Happens(t[i], g[i], ev[i], t[j], g[j], render)
  }

  /** After any such history of a new table every index on a lasting column lists every row under its present key. */
  lemma {:induction false} HistorySteady(t: seq<Table>, g: seq<Grounds>, ev: seq<Event>, n: nat, render: Value -> string)
    requires IsHistory(t, g, ev, render) && n <= |ev|
    ensures Grounded(t[n], g[n], render) && IdsInRange(t[n].rows, t[n].lastRowId) && SteadyTable(t[n], g[n], render)
  {
    if n > 0 {
      HistorySteady(t, g, ev, n - 1, render);
      HappensGrounded(t[n - 1], g[n - 1], ev[n - 1], t[n], g[n], render);
      HappensSteadily(t[n - 1], g[n - 1], ev[n - 1], t[n], g[n], render);
    }
  }

  /** So a lookup through it is the scan filtered by the rendered value, as a sequence. */
  lemma HistoryLooksUpRight(t: seq<Table>, g: seq<Grounds>, ev: seq<Event>, n: nat, i: nat, o: Observer, key: string, render: Value -> string)
    requires IsHistory(t, g, ev, render) && n <= |ev| && i < |t[n].indexes| && Lasting(t[n].indexes[i].column)
    ensures Fetch(t[n].rows, EntriesAt(t[n].indexes[i].entries, key), o)
         == Matching(VisibleRows(t[n].rows, t[n].lastRowId, o), t[n].indexes[i].column, key, render)
  {
    HistorySteady(t, g, ev, n, render);
    LookupThrough(t[n], g[n], i, o, key, render);
  }
}
