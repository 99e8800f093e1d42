/** From the engine's tables to checkpoint bytes and back. */
module Persistence {
  import opened Keys
  import opened Binary
  import opened Wrappers
  import opened Formats
  import opened OrderedMaps
  import Mvcc
  import Tables
  import UndoLog
  import P = Payloads
  import C = Checkpoints
  import ClogCodec
  import Catalogs
  import Vacuuming
  import Engines

  // ---------- texts and values ----------

  predicate Bytely(s: string) { forall i | 0 <= i < |s| :: s[i] as int < 256 }

  function ToBytes(s: string): Bytes { seq(|s|, i requires 0 <= i < |s| => (s[i] as int) % 256) }

  function FromBytes(b: Bytes): string { seq(|b|, i requires 0 <= i < |b| => b[i] as char) }

  lemma TextBack(s: string)
    requires Bytely(s)
    ensures FromBytes(ToBytes(s)) == s
  {
  }

  lemma BytesBack(b: Bytes)
    ensures ToBytes(FromBytes(b)) == b && Bytely(FromBytes(b))
  {
  }

  function Bounded(i: int): Signed { if IsI64(i) then i else 0 }

  /** The stored form of a value; numbers that do not fit their words are none of the engine's. */
  function SaveValue(v: Mvcc.Value): P.Value {
    match v
    case Null => P.Null
    case Int(i) => P.Int64(Bounded(i))
    case Float(bits) => P.Float64(if bits < 0x1_0000_0000_0000_0000 then bits else 0)
    case Bool(b) => P.Bool(b)
    case Str(s) => P.String(ToBytes(s))
  }

  function LoadValue(v: P.Value): Mvcc.Value {
    match v
    case Null => Mvcc.Null
    case Int64(n) => Mvcc.Int(n)
    case Float64(bits) => Mvcc.Float(bits)
    case Bool(b) => Mvcc.Bool(b)
    case String(s) => Mvcc.Str(FromBytes(s))
  }

  predicate ValueFits(v: Mvcc.Value) {
    match v
    case Int(i) => IsI64(i)
    case Float(bits) => bits < 0x1_0000_0000_0000_0000
    case Str(s) => Bytely(s)
    case _ => true
  }

  lemma ValueBack(v: Mvcc.Value)
    requires ValueFits(v)
    ensures LoadValue(SaveValue(v)) == v
  {
    if v.Str? { TextBack(v.s); }
  }

  function SaveIds(ids: seq<int>): seq<Signed> { seq(|ids|, i requires 0 <= i < |ids| => Bounded(ids[i])) }

  function LoadIds(ids: seq<Signed>): seq<int> { seq(|ids|, i requires 0 <= i < |ids| => ids[i]) }

  predicate IdsFit(ids: seq<int>) { forall i | 0 <= i < |ids| :: IsI64(ids[i]) }

  lemma IdsBack(ids: seq<int>)
    requires IdsFit(ids)
    ensures LoadIds(SaveIds(ids)) == ids
  {
  }

  // ---------- maps ----------

  /** The map as the ordered map it is written as. */
  ghost function DictOf<W, V>(m: map<string, W>, save: W -> V): Dict<V> {
    if m == map[] then []
    else
      var k :| k in m;
      Enter(DictOf(m - {k}, save), ToBytes(k), save(m[k]), Newer)
  }

  function MapOf<V, W>(d: Dict<V>, load: V -> W): map<string, W> {
    if d == [] then map[] else MapOf(d[1..], load)[FromBytes(d[0].0) := load(d[0].1)]
  }

  ghost predicate BytelyKeys<W>(m: map<string, W>) { forall k | k in m :: Bytely(k) }

  lemma {:induction false} DictOfFinds<W, V>(m: map<string, W>, save: W -> V, q: Bytes)
    requires BytelyKeys(m)
    ensures Ascending(DictOf(m, save))
    ensures Find(DictOf(m, save), q) == if FromBytes(q) in m then Some(save(m[FromBytes(q)])) else None
  {
    BytesBack(q);
    if m == map[] {
    } else {
      var k :| k in m && DictOf(m, save) == Enter(DictOf(m - {k}, save), ToBytes(k), save(m[k]), Newer);
      var rest := m - {k};
      DictOfFinds(rest, save, q);
      EnterAscends(DictOf(rest, save), ToBytes(k), save(m[k]), Newer);
      EnterFinds(DictOf(rest, save), ToBytes(k), save(m[k]), Newer, q);
      TextBack(k);
      assert q == ToBytes(k) <==> FromBytes(q) == k;
    }
  }

  lemma {:induction false} MapOfFinds<V, W>(d: Dict<V>, load: V -> W, k: string)
    requires Ascending(d)
    ensures k in MapOf(d, load) <==> Bytely(k) && Find(d, ToBytes(k)).Some?
    ensures k in MapOf(d, load) ==> MapOf(d, load)[k] == load(Find(d, ToBytes(k)).value)
  {
    if d != [] {
      MapOfFinds(d[1..], load, k);
      BytesBack(d[0].0);
      if Bytely(k) { TextBack(k); }
      assert FromBytes(d[0].0) == k <==> Bytely(k) && d[0].0 == ToBytes(k);
    }
  }

  ghost predicate BackAt<W, V>(save: W -> V, load: V -> W, w: W) { load(save(w)) == w }

  /** Loading what was saved gives the map back. */
  lemma MapBack<W, V>(m: map<string, W>, save: W -> V, load: V -> W)
    requires BytelyKeys(m) && forall k | k in m :: BackAt(save, load, m[k])
    ensures MapOf(DictOf(m, save), load) == m
  {
    var d := DictOf(m, save);
    DictOfFinds(m, save, []);
    forall k ensures k in MapOf(d, load) <==> k in m
      ensures k in m ==> k in MapOf(d, load) && MapOf(d, load)[k] == m[k]
    {
      MapOfFinds(d, load, k);
      if Bytely(k) {
        TextBack(k);
        DictOfFinds(m, save, ToBytes(k));
      }
      if k in m { assert BackAt(save, load, m[k]); }
    }
  }

  // ---------- rows ----------

  /** A stored row with its system columns, as the checkpoint holds it. */
  function Cells(rid: int, t: Mvcc.Tuple): Mvcc.Row {
    t.cols[ROWID := Mvcc.Int(rid)][XMIN := Mvcc.Int(t.hdr.xmin)][XMAX := Mvcc.Int(t.hdr.xmax)][CID := Mvcc.Int(t.hdr.cid)]
  }

  const ROWID := "_rowid"
  const XMIN := "_xmin"
  const XMAX := "_xmax"
  const CID := "_cid"

  /** The header word under the name, 0 when there is no integer there; the cast keeps 32 bits. */
  function Word(row: Mvcc.Row, name: string): nat {
    if name in row && row[name].Int? then row[name].i % 0x1_0000_0000 else 0
  }

  function TupleOf(row: Mvcc.Row): Mvcc.Tuple {
    Mvcc.Tuple(Mvcc.Header(Word(row, XMIN), Word(row, XMAX), Word(row, CID)), Tables.Strip(row))
  }

  predicate TupleFits(t: Mvcc.Tuple) {
    && t.hdr.xmin < 0x1_0000_0000 && t.hdr.xmax < 0x1_0000_0000 && t.hdr.cid < 0x1_0000_0000
    && forall c | c in t.cols :: Bytely(c) && !Tables.IsSystem(c) && ValueFits(t.cols[c])
  }

  ghost function SaveTuple(rid: int, t: Mvcc.Tuple): C.StoredRow { (Bounded(rid), DictOf(Cells(rid, t), SaveValue)) }

  lemma TupleBack(rid: int, t: Mvcc.Tuple)
    requires TupleFits(t) && IsI64(rid)
    ensures TupleOf(MapOf(SaveTuple(rid, t).1, LoadValue)) == t
  {
    var cells := Cells(rid, t);
    CellsFit(rid, t);
    forall k | k in cells ensures BackAt(SaveValue, LoadValue, cells[k]) { ValueBack(cells[k]); }
    MapBack(cells, SaveValue, LoadValue);
    CellsBack(rid, t);
  }

  lemma CellsFit(rid: int, t: Mvcc.Tuple)
    requires TupleFits(t) && IsI64(rid)
    ensures forall k | k in Cells(rid, t) :: Bytely(k) && ValueFits(Cells(rid, t)[k])
  {
    assert Bytely(ROWID) && Bytely(XMIN) && Bytely(XMAX) && Bytely(CID);
    forall k | k in Cells(rid, t) ensures Bytely(k) && ValueFits(Cells(rid, t)[k]) {
      assert k == ROWID || k == XMIN || k == XMAX || k == CID || k in t.cols;
    }
  }

  lemma CellsBack(rid: int, t: Mvcc.Tuple)
    requires TupleFits(t)
    ensures TupleOf(Cells(rid, t)) == t
  {
    var cells := Cells(rid, t);
    assert |ROWID| == 6 && |XMIN| == 5 && |XMAX| == 5 && |CID| == 4 && XMIN[2] == 'm' && XMAX[2] == 'm' && XMIN[3] == 'i' && XMAX[3] == 'a';
    assert cells[XMIN] == Mvcc.Int(t.hdr.xmin) && cells[XMAX] == Mvcc.Int(t.hdr.xmax) && cells[CID] == Mvcc.Int(t.hdr.cid);
    forall c ensures c in Tables.Strip(cells) <==> c in t.cols { assert c in t.cols ==> !Tables.IsSystem(c); }
    assert Tables.Strip(cells) == t.cols;
  }

  ghost function SaveRows(rows: Tables.Rows, n: nat): seq<C.StoredRow> {
    if n == 0 then [] else SaveRows(rows, n - 1) + if n in rows then [SaveTuple(n, rows[n])] else []
  }

  function LoadRows(stored: seq<C.StoredRow>): Tables.Rows {
    if stored == [] then map[]
    else
      var last := stored[|stored| - 1];
      LoadRows(stored[..|stored| - 1])[last.0 := TupleOf(MapOf(last.1, LoadValue))]
  }

  function Upto(rows: Tables.Rows, n: nat): Tables.Rows { map r | r in rows && 1 <= r <= n :: rows[r] }

  lemma UptoNext(rows: Tables.Rows, n: nat)
    requires n > 0
    ensures Upto(rows, n) == if n in rows then Upto(rows, n - 1)[n := rows[n]] else Upto(rows, n - 1)
  {
  }

  lemma {:induction false} RowsBack(rows: Tables.Rows, n: nat)
    requires IsI64(n) && forall r | r in rows :: TupleFits(rows[r])
    ensures LoadRows(SaveRows(rows, n)) == Upto(rows, n)
  {
    if n > 0 {
      RowsBack(rows, n - 1);
      UptoNext(rows, n);
      if n in rows {
        LoadRowsNext(SaveRows(rows, n - 1), SaveTuple(n, rows[n]));
        TupleBack(n, rows[n]);
      } else {
        assert SaveRows(rows, n) == SaveRows(rows, n - 1);
      }
    }
  }

  lemma LoadRowsNext(stored: seq<C.StoredRow>, last: C.StoredRow)
    ensures LoadRows(stored + [last]) == LoadRows(stored)[last.0 := TupleOf(MapOf(last.1, LoadValue))]
  {
    assert (stored + [last])[..|stored|] == stored;
  }

  // ---------- indexes ----------

  ghost function SaveIndex(idx: Tables.Index): C.Index { C.Index(ToBytes(idx.column), DictOf(idx.entries, SaveIds)) }

  function LoadIndex(idx: C.Index): Tables.Index { Tables.Index(FromBytes(idx.column), MapOf(idx.entries, LoadIds)) }

  predicate IndexFits(idx: Tables.Index) {
    Bytely(idx.column) && forall k | k in idx.entries :: Bytely(k) && IdsFit(idx.entries[k])
  }

  lemma IndexBack(idx: Tables.Index)
    requires IndexFits(idx)
    ensures LoadIndex(SaveIndex(idx)) == idx
  {
    TextBack(idx.column);
    forall k | k in idx.entries ensures BackAt(SaveIds, LoadIds, idx.entries[k]) { IdsBack(idx.entries[k]); }
    MapBack(idx.entries, SaveIds, LoadIds);
  }

  ghost function SaveIndexes(s: seq<Tables.Index>): seq<C.Index> { seq(|s|, i requires 0 <= i < |s| => SaveIndex(s[i])) }

  function LoadIndexes(s: seq<C.Index>): seq<Tables.Index> { seq(|s|, i requires 0 <= i < |s| => LoadIndex(s[i])) }

  lemma IndexesBack(s: seq<Tables.Index>)
    requires forall i | 0 <= i < |s| :: IndexFits(s[i])
    ensures LoadIndexes(SaveIndexes(s)) == s
  {
    forall i | 0 <= i < |s| ensures LoadIndex(SaveIndexes(s)[i]) == s[i] { IndexBack(s[i]); }
  }

  // ---------- tables ----------

  function KeyColumns(columns: seq<P.Column>): seq<string> {
    if columns == [] then []
    else (if columns[0].primaryKey then [FromBytes(columns[0].name)] else []) + KeyColumns(columns[1..])
  }

  ghost function SaveTableRows(t: Tables.Table): seq<C.StoredRow> { SaveRows(t.rows, t.lastRowId) }

  function SaveCounter(t: Tables.Table): Signed { Bounded(t.lastRowId) }

  ghost function SaveTableIndexes(t: Tables.Table): seq<C.Index> { SaveIndexes(t.indexes) }

  /** The engine's table and its schema's columns fit the format and each other. */
  ghost predicate TableFits(name: string, t: Tables.Table, columns: seq<P.Column>) {
    && Bytely(name) && t.primaryKey == KeyColumns(columns) && IsI64(t.lastRowId) && Tables.IdsInRange(t.rows, t.lastRowId)
    && (forall r | r in t.rows :: TupleFits(t.rows[r]))
    && forall i | 0 <= i < |t.indexes| :: IndexFits(t.indexes[i])
  }

  /** The tables are listed in some order. */
  ghost predicate Savable(db: UndoLog.Db, schemas: map<string, seq<P.Column>>, names: seq<string>) {
    && (forall name :: name in names <==> name in db)
    && forall name | name in db :: name in schemas && TableFits(name, db[name], schemas[name])
  }

  function SaveSchema(name: string, schemas: map<string, seq<P.Column>>, rowCount: int): C.Table {
    C.Table(ToBytes(name), if name in schemas then schemas[name] else [], Bounded(rowCount))
  }

  ghost function SaveSchemas(db: UndoLog.Db, schemas: map<string, seq<P.Column>>, names: seq<string>): seq<C.Table> {
    seq(|names|, i requires 0 <= i < |names| => SaveSchema(names[i], schemas, if names[i] in db then |db[names[i]].rows| else 0))
  }

  ghost function SaveDb(db: UndoLog.Db, schemas: map<string, seq<P.Column>>, names: seq<string>): C.Segments {
    C.Segments(SaveSchemas(db, schemas, names), DictOf(db, SaveTableRows), DictOf(db, SaveCounter), DictOf(db, SaveTableIndexes))
  }

  /** A table is rebuilt from its schema and whatever rows, counter and indexes stand under its name. */
  function LoadTable(s: C.Segments, t: C.Table): Tables.Table {
    var rows, counter, indexes := Find(s.tableRows, t.name), Find(s.counters, t.name), Find(s.indexes, t.name);
    Tables.Table(KeyColumns(t.columns), if rows.Some? then LoadRows(rows.value) else map[],
                 if counter.Some? && counter.value >= 0 then counter.value else 0,
                 if indexes.Some? then LoadIndexes(indexes.value) else [])
  }

  function LoadTables(s: C.Segments, tables: seq<C.Table>): UndoLog.Db {
    if tables == [] then map[]
    else
      var last := tables[|tables| - 1];
      LoadTables(s, tables[..|tables| - 1])[FromBytes(last.name) := LoadTable(s, last)]
  }

  function LoadDb(s: C.Segments): UndoLog.Db { LoadTables(s, s.tables) }

  lemma TableBack(db: UndoLog.Db, schemas: map<string, seq<P.Column>>, names: seq<string>, name: string, rowCount: int)
    requires Savable(db, schemas, names) && name in db
    ensures LoadTable(SaveDb(db, schemas, names), SaveSchema(name, schemas, rowCount)) == db[name]
  {
    var t := db[name];
    assert TableFits(name, t, schemas[name]);
    TextBack(name);
    assert BytelyKeys(db) by {
      forall k | k in db ensures Bytely(k) { assert TableFits(k, db[k], schemas[k]); }
    }
    DictOfFinds(db, SaveTableRows, ToBytes(name));
    DictOfFinds(db, SaveCounter, ToBytes(name));
    DictOfFinds(db, SaveTableIndexes, ToBytes(name));
    RowsBack(t.rows, t.lastRowId);
    assert Upto(t.rows, t.lastRowId) == t.rows;
    IndexesBack(t.indexes);
  }

  ghost predicate LoadsAs(s: C.Segments, t: C.Table, name: string, db: UndoLog.Db) {
    FromBytes(t.name) == name && name in db && LoadTable(s, t) == db[name]
  }

  lemma {:induction false} TablesBack(s: C.Segments, tables: seq<C.Table>, names: seq<string>, db: UndoLog.Db, name: string)
    requires |tables| == |names| && forall i | 0 <= i < |names| :: LoadsAs(s, tables[i], names[i], db)
    ensures name in LoadTables(s, tables) <==> name in names
    ensures name in names ==> name in db && LoadTables(s, tables)[name] == db[name]
  {
    if names != [] {
      var n := |names| - 1;
      TablesBack(s, tables[..n], names[..n], db, name);
      assert tables == tables[..n] + [tables[n]] && names == names[..n] + [names[n]];
      LoadTablesNext(s, tables[..n], tables[n]);
      assert LoadsAs(s, tables[n], names[n], db);
    }
  }

  lemma LoadTablesNext(s: C.Segments, tables: seq<C.Table>, last: C.Table)
    ensures LoadTables(s, tables + [last]) == LoadTables(s, tables)[FromBytes(last.name) := LoadTable(s, last)]
  {
    assert (tables + [last])[..|tables|] == tables;
  }

  /** Loading the saved tables gives the very same tables: rows, headers, counters, keys and index contents. */
  lemma DbBack(db: UndoLog.Db, schemas: map<string, seq<P.Column>>, names: seq<string>)
    requires Savable(db, schemas, names)
    ensures LoadDb(SaveDb(db, schemas, names)) == db
  {
    var s, all := SaveDb(db, schemas, names), SaveSchemas(db, schemas, names);
    forall i | 0 <= i < |names| ensures LoadsAs(s, all[i], names[i], db) {
      assert names[i] in names && TableFits(names[i], db[names[i]], schemas[names[i]]);
      TextBack(names[i]);
      TableBack(db, schemas, names, names[i], |db[names[i]].rows|);
    }
    forall name ensures name in LoadTables(s, all) <==> name in db
      ensures name in LoadTables(s, all) ==> name in db && LoadTables(s, all)[name] == db[name]
    {
      TablesBack(s, all, names, db, name);
    }
  }

  // ---------- through the bytes ----------

  /** What the engine writes: head, tables, commit log and catalog. */
  ghost function SaveState(head: C.Head, db: UndoLog.Db, schemas: map<string, seq<P.Column>>, names: seq<string>,
                           log: Mvcc.CLog, xids: seq<Mvcc.Xid>, catalog: Catalogs.State): C.Checkpoint {
    C.Checkpoint(head, SaveDb(db, schemas, names), C.Embedded(ClogCodec.Encoded(xids, log)), C.Embedded(Catalogs.Encoded(catalog)))
  }

  /** Decoding the checkpoint's bytes and loading gives the same tables, head, commit log and catalog. */
  lemma StateThroughBytes(head: C.Head, db: UndoLog.Db, schemas: map<string, seq<P.Column>>, names: seq<string>,
                          log: Mvcc.CLog, xids: seq<Mvcc.Xid>, catalog: Catalogs.State) returns (c: C.Checkpoint)
    requires Savable(db, schemas, names) && C.CheckpointFormat().fits(SaveState(head, db, schemas, names, log, xids, catalog))
    requires ClogCodec.Lists(xids, log) && ClogCodec.Fits(xids)
    requires Catalogs.Kept(catalog) && Catalogs.Fits(catalog) && catalog.current != []
    ensures DecodeAll(C.CheckpointFormat(), C.CheckpointFormat().enc(SaveState(head, db, schemas, names, log, xids, catalog))) == Some(c)
    ensures c.head == head && LoadDb(c.segments) == db
    ensures ClogCodec.Decoded(C.BlobBytes(c.clog), map[]) == Some(log)
    ensures Catalogs.Decoded(C.BlobBytes(c.catalog), Catalogs.Fresh()) == Catalogs.Read(catalog)
  {
    c := SaveState(head, db, schemas, names, log, xids, catalog);
    C.SavedStateReadsBack(c, log, xids, catalog);
    DbBack(db, schemas, names);
  }

  /** The bytes are the checkpoint of the engine's state, with a catalog, and everything fits. */
  ghost predicate IsCheckpointOf(bytes: Bytes, engine: Engines.StorageEngine, head: C.Head, schemas: map<string, seq<P.Column>>,
                                 names: seq<string>, xids: seq<Mvcc.Xid>, catalog: Catalogs.State)
    reads engine, engine.txn
  {
    && head.nextXid == engine.txn.nextXid && Savable(engine.tables, schemas, names)
    && C.CheckpointFormat().fits(SaveState(head, engine.tables, schemas, names, engine.txn.clog, xids, catalog))
    && bytes == C.CheckpointFormat().enc(SaveState(head, engine.tables, schemas, names, engine.txn.clog, xids, catalog))
    && ClogCodec.Lists(xids, engine.txn.clog) && ClogCodec.Fits(xids)
    && Catalogs.Kept(catalog) && Catalogs.Fits(catalog) && catalog.current != []
  }

  lemma CheckpointDecodes(bytes: Bytes, engine: Engines.StorageEngine, head: C.Head, schemas: map<string, seq<P.Column>>,
                          names: seq<string>, xids: seq<Mvcc.Xid>, catalog: Catalogs.State) returns (c: C.Checkpoint)
    requires IsCheckpointOf(bytes, engine, head, schemas, names, xids, catalog)
    ensures DecodeAll(C.CheckpointFormat(), bytes) == Some(c) && c.head.nextXid == engine.txn.nextXid
    ensures LoadDb(c.segments) == engine.tables
    ensures ClogCodec.Decoded(C.BlobBytes(c.clog), map[]) == Some(engine.txn.clog)
    ensures Catalogs.Decoded(C.BlobBytes(c.catalog), Catalogs.Fresh()) == Catalogs.Read(catalog)
  {
    c := StateThroughBytes(head, engine.tables, schemas, names, engine.txn.clog, xids, catalog);
  }

  /**
   * Engine to bytes to engine: decoding the checkpoint and loading it gives an engine with the same tables, counters
   * and index contents, with every running transaction aborted, that shows every observer without a transaction the
   * rows it saw before; the catalog comes back as well.
   */
  method RestartThroughBytes(engine: Engines.StorageEngine, bytes: Bytes, ghost head: C.Head, ghost schemas: map<string, seq<P.Column>>,
                             ghost names: seq<string>, ghost xids: seq<Mvcc.Xid>, ghost catalog: Catalogs.State)
    returns (e: Engines.StorageEngine, cat: Catalogs.Catalog)
    requires engine.Valid() && IsCheckpointOf(bytes, engine, head, schemas, names, xids, catalog)
    ensures fresh(e) && e.Valid() && e.tables == engine.tables && e.grounds == engine.grounds
    ensures e.txn.nextXid == engine.txn.nextXid && e.txn.active == {} && e.txn.clog == Vacuuming.Recovered(engine.txn.clog)
    ensures Engines.SameForOutsiders(engine.tables, engine.txn.clog, e.txn.clog, engine.txn.nextXid, engine.txn.active)
    ensures fresh(cat) && cat.Contents() == catalog
  {
    ghost var expected := CheckpointDecodes(bytes, engine, head, schemas, names, xids, catalog);
    var decoded := C.DecodeCheckpoint(bytes);
    var c := decoded.value;
    cat := RestartCatalog(c, catalog);
    var _, log := ClogCodec.Decode(C.BlobBytes(c.clog), map[]);
    var db := LoadDb(c.segments);
    var dump := Engines.StorageEngine.Dump(db, c.head.nextXid, log);
    e := new Engines.StorageEngine.Load(engine.render, dump, db, engine.grounds);
    Engines.ReloadUnnoticed(db, log, engine.txn.nextXid, engine.txn.active);
  }

  method RestartCatalog(c: C.Checkpoint, ghost catalog: Catalogs.State) returns (cat: Catalogs.Catalog)
    requires Catalogs.Decoded(C.BlobBytes(c.catalog), Catalogs.Fresh()) == Catalogs.Read(catalog)
    ensures fresh(cat) && cat.Contents() == catalog
  {
    cat := new Catalogs.Catalog();
    Catalogs.FreshIsKept();
    var _ := cat.Decode(C.BlobBytes(c.catalog));
  }
}
