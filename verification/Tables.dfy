/** One table: a version per row id, scans in row-id order, and secondary indexes from rendered values to row ids. */
module Tables {
  import opened Mvcc
  import opened Wrappers

  type Rows = map<int, Tuple>

  datatype Index = Index(column: string, entries: map<string, seq<int>>)

  datatype Table = Table(primaryKey: seq<string>, rows: Rows, lastRowId: nat, indexes: seq<Index>)

  datatype Found = Found(rid: int, tup: Tuple)

  datatype Observer = Observer(me: Xid, snap: Snapshot, cid: int, clog: CLog)

  /** Columns that are projected from the tuple header; the payload never holds them. */
  predicate IsSystem(column: string) {
    column == "_rowid" || column == "_xmin" || column == "_xmax" || column == "_cid"
  }

  function Strip(row: Row): Row {
    map c | c in row && !IsSystem(c) :: row[c]
  }

  /** A cell of the row as scans project it, system columns included. */
  function Cell(rid: int, t: Tuple, column: string): Option<Value> {
    if column == "_rowid" then Some(Int(rid))
    else if column == "_xmin" then Some(Int(t.hdr.xmin))
    else if column == "_xmax" then Some(Int(t.hdr.xmax))
    else if column == "_cid" then Some(Int(t.hdr.cid))
    else if column in t.cols then Some(t.cols[column])
    else None
  }

  predicate Sees(o: Observer, t: Tuple) {
    Visible(t.hdr, o.me, o.snap, o.cid, o.clog)
  }

  /** The key under which an index on the column lists the row, if it has the column. */
  function Rendered(rid: int, t: Tuple, column: string, render: Value -> string): Option<string> {
    var cell := Cell(rid, t, column);
    if cell.None? then None else Some(render(cell.value))
  }

  predicate HasKey(rid: int, t: Tuple, column: string, key: string, render: Value -> string) {
    Rendered(rid, t, column, render) == Some(key)
  }

  /** The rows of ids up to n that the observer sees, in scan order. */
  function VisibleRows(rows: Rows, n: nat, o: Observer): seq<Found> {
    if n == 0 then [] else VisibleRows(rows, n - 1, o) + if n in rows && Sees(o, rows[n]) then [Found(n, rows[n])] else []
  }

  /** The row ids up to n whose cell renders to key. */
  function Select(rows: Rows, n: nat, column: string, key: string, render: Value -> string): seq<int> {
    if n == 0 then []
    else Select(rows, n - 1, column, key, render) + if n in rows && HasKey(n, rows[n], column, key, render) then [n] else []
  }

  function EntriesAt(entries: map<string, seq<int>>, key: string): seq<int> {
    if key in entries then entries[key] else []
  }

  /** The index lists, for every key, exactly the matching row ids in scan order. */
  ghost predicate Agrees(idx: Index, rows: Rows, n: nat, render: Value -> string) {
    forall key :: EntriesAt(idx.entries, key) == Select(rows, n, idx.column, key, render)
  }

  /** The rows of both, by id, have the same key in the column. */
  ghost predicate SameKeys(a: Rows, b: Rows, column: string, render: Value -> string) {
    forall r | r in a && r in b :: Rendered(r, a[r], column, render) == Rendered(r, b[r], column, render)
  }

  /** What each index of a table lists: the rows as they were when the index last took notice of them. */
  type Grounds = seq<Rows>

  ghost predicate Grounded(t: Table, g: Grounds, render: Value -> string) {
    |g| == |t.indexes| && forall i | 0 <= i < |g| :: GroundedAt(t, g[i], i, render)
  }

  ghost predicate GroundedAt(t: Table, ground: Rows, i: nat, render: Value -> string)
    requires i < |t.indexes|
  {
    ground.Keys == t.rows.Keys && Agrees(t.indexes[i], ground, t.lastRowId, render)
  }

  /** The grounds of a table whose indexes have just been built. */
  function Afresh(t: Table): (g: Grounds)
    ensures |g| == |t.indexes|
  {
    seq(|t.indexes|, i => t.rows)
  }

  /** Position of the first index on the column; the number of indexes when there is none. */
  function FirstOn(indexes: seq<Index>, column: string): (i: nat)
    ensures i <= |indexes|
    ensures i < |indexes| ==> indexes[i].column == column
    ensures forall j | 0 <= j < i :: indexes[j].column != column
  {
    if indexes == [] || indexes[0].column == column then 0 else 1 + FirstOn(indexes[1..], column)
  }

  ghost predicate IdsInRange(rows: Rows, n: nat) {
    forall r | r in rows :: 1 <= r <= n
  }

  // ---------- lookups through an index ----------

  function Fetch(rows: Rows, ids: seq<int>, o: Observer): seq<Found> {
    if ids == [] then []
    else
      var r := ids[|ids| - 1];
      Fetch(rows, ids[..|ids| - 1], o) + if r in rows && Sees(o, rows[r]) then [Found(r, rows[r])] else []
  }

  function Matching(found: seq<Found>, column: string, key: string, render: Value -> string): seq<Found> {
    if found == [] then []
    else
      var f := found[|found| - 1];
      Matching(found[..|found| - 1], column, key, render) + if HasKey(f.rid, f.tup, column, key, render) then [f] else []
  }

  lemma FetchAppend(rows: Rows, ids: seq<int>, r: int, o: Observer)
    ensures Fetch(rows, ids + [r], o) == Fetch(rows, ids, o) + if r in rows && Sees(o, rows[r]) then [Found(r, rows[r])] else []
  {
    assert (ids + [r])[..|ids|] == ids;
  }

  lemma MatchingAppend(found: seq<Found>, f: Found, column: string, key: string, render: Value -> string)
    ensures Matching(found + [f], column, key, render) ==
            Matching(found, column, key, render) + if HasKey(f.rid, f.tup, column, key, render) then [f] else []
  {
    assert (found + [f])[..|found|] == found;
  }

  /** Filtering keeps, in their order, exactly the rows whose cell in the column renders to the key. */
  lemma {:induction false} MatchingExactly(found: seq<Found>, column: string, key: string, render: Value -> string)
    requires forall i, j | 0 <= i < j < |found| :: found[i].rid < found[j].rid
    ensures forall i, j | 0 <= i < j < |Matching(found, column, key, render)| ::
              Matching(found, column, key, render)[i].rid < Matching(found, column, key, render)[j].rid
    ensures forall id, t :: Found(id, t) in Matching(found, column, key, render) <==>
              && Found(id, t) in found
              && match column
                 case "_rowid" => render(Int(id)) == key
                 case "_xmin" => render(Int(t.hdr.xmin)) == key
                 case "_xmax" => render(Int(t.hdr.xmax)) == key
                 case "_cid" => render(Int(t.hdr.cid)) == key
                 case _ => column in t.cols && render(t.cols[column]) == key
  {
    if found != [] {
      var n := |found| - 1;
      MatchingExactly(found[..n], column, key, render);
      assert found == found[..n] + [found[n]];
      MatchingWithin(found[..n], column, key, render);
    }
  }

  lemma {:induction false} MatchingWithin(found: seq<Found>, column: string, key: string, render: Value -> string)
    ensures forall f | f in Matching(found, column, key, render) :: f in found
  {
    if found != [] { MatchingWithin(found[..|found| - 1], column, key, render); }
  }

  /** The rows up to n that the observer sees and that have the key in keyed. */
  function Picked(rows: Rows, keyed: Rows, n: nat, o: Observer, column: string, key: string, render: Value -> string): seq<Found>
    requires keyed.Keys == rows.Keys
  {
    if n == 0 then []
    else
      Picked(rows, keyed, n - 1, o, column, key, render)
      + if n in rows && Sees(o, rows[n]) && HasKey(n, keyed[n], column, key, render) then [Found(n, rows[n])] else []
  }

  lemma {:induction false} FetchPicks(rows: Rows, ground: Rows, n: nat, o: Observer, column: string, key: string, render: Value -> string)
    requires ground.Keys == rows.Keys
    ensures Fetch(rows, Select(ground, n, column, key, render), o) == Picked(rows, ground, n, o, column, key, render)
  {
    if n > 0 {
      FetchPicks(rows, ground, n - 1, o, column, key, render);
      var ids := Select(ground, n - 1, column, key, render);
      FetchAppend(rows, ids, n, o);
      assert ids + [] == ids;
    }
  }

  lemma {:induction false} ScanPicks(rows: Rows, n: nat, o: Observer, column: string, key: string, render: Value -> string)
    ensures Matching(VisibleRows(rows, n, o), column, key, render) == Picked(rows, rows, n, o, column, key, render)
  {
    if n > 0 {
      ScanPicks(rows, n - 1, o, column, key, render);
      var seen := VisibleRows(rows, n - 1, o);
      if n in rows { MatchingAppend(seen, Found(n, rows[n]), column, key, render); }
      assert seen + [] == seen;
    }
  }

  /** Fetching what a right index lists is the scan, filtered by the rendered value. */
  lemma FetchIsFilteredScan(rows: Rows, n: nat, o: Observer, column: string, key: string, render: Value -> string)
    ensures Fetch(rows, Select(rows, n, column, key, render), o) == Matching(VisibleRows(rows, n, o), column, key, render)
  {
    FetchPicks(rows, rows, n, o, column, key, render);
    ScanPicks(rows, n, o, column, key, render);
  }

  // ---------- how selections change ----------

  lemma {:induction false} SelectBound(rows: Rows, n: nat, column: string, key: string, render: Value -> string)
    ensures forall r | r in Select(rows, n, column, key, render) :: 1 <= r <= n
  {
    if n > 0 { SelectBound(rows, n - 1, column, key, render); }
  }

  lemma {:induction false} SelectKnows(rows: Rows, n: nat, column: string, key: string, render: Value -> string, r: int)
    ensures r in Select(rows, n, column, key, render) <==> 1 <= r <= n && r in rows && HasKey(r, rows[r], column, key, render)
  {
    if n > 0 { SelectKnows(rows, n - 1, column, key, render, r); }
  }

  lemma {:induction false} SelectSame(rows: Rows, rows': Rows, n: nat, column: string, key: string, render: Value -> string)
    requires forall r | 1 <= r <= n :: r in rows <==> r in rows'
    requires forall r | 1 <= r <= n && r in rows :: HasKey(r, rows'[r], column, key, render) <==> HasKey(r, rows[r], column, key, render)
    ensures Select(rows', n, column, key, render) == Select(rows, n, column, key, render)
  {
    if n > 0 { SelectSame(rows, rows', n - 1, column, key, render); }
  }

  /** After rows were rewritten a right index is still right exactly when every row kept its key in the column. */
  lemma AgreesExactly(idx: Index, rows: Rows, rows': Rows, n: nat, render: Value -> string)
    requires Agrees(idx, rows, n, render) && rows'.Keys == rows.Keys && IdsInRange(rows, n)
    ensures Agrees(idx, rows', n, render) <==> SameKeys(rows, rows', idx.column, render)
  {
    var c := idx.column;
    if SameKeys(rows, rows', c, render) {
      forall key ensures EntriesAt(idx.entries, key) == Select(rows', n, c, key, render) {
        SelectSame(rows, rows', n, c, key, render);
      }
    }
    if Agrees(idx, rows', n, render) {
      forall r | r in rows ensures Rendered(r, rows[r], c, render) == Rendered(r, rows'[r], c, render) {
        var a, b := Rendered(r, rows[r], c, render), Rendered(r, rows'[r], c, render);
        if a.Some? { ListedKey(idx, rows, rows', n, render, r, a.value); }
        if b.Some? { ListedKey(idx, rows, rows', n, render, r, b.value); }
      }
    }
  }

  lemma ListedKey(idx: Index, rows: Rows, rows': Rows, n: nat, render: Value -> string, r: int, key: string)
    requires Agrees(idx, rows, n, render) && Agrees(idx, rows', n, render)
    requires 1 <= r <= n && r in rows && r in rows'
    ensures HasKey(r, rows[r], idx.column, key, render) <==> HasKey(r, rows'[r], idx.column, key, render)
  {
    assert EntriesAt(idx.entries, key) == Select(rows, n, idx.column, key, render) == Select(rows', n, idx.column, key, render);
    SelectKnows(rows, n, idx.column, key, render, r);
    SelectKnows(rows', n, idx.column, key, render, r);
  }

  /**
   * A lookup through an index gives the scan filtered by the key exactly when no row that the observer sees has the
   * key now without having had it, or had it without having it now, when the index last took notice of the row.
   */
  lemma LookupExactly(rows: Rows, ground: Rows, n: nat, o: Observer, column: string, key: string, render: Value -> string)
    requires ground.Keys == rows.Keys
    ensures Fetch(rows, Select(ground, n, column, key, render), o) == Matching(VisibleRows(rows, n, o), column, key, render)
       <==> forall r | 1 <= r <= n :: NoticedAt(rows, ground, r, o, column, key, render)
  {
    FetchPicks(rows, ground, n, o, column, key, render);
    ScanPicks(rows, n, o, column, key, render);
    PickedNoticed(rows, ground, n, o, column, key, render);
    NoticedEach(rows, ground, n, o, column, key, render);
  }

  lemma {:induction false} PickedNoticed(rows: Rows, ground: Rows, n: nat, o: Observer, column: string, key: string, render: Value -> string)
    requires ground.Keys == rows.Keys
    ensures Picked(rows, ground, n, o, column, key, render) == Picked(rows, rows, n, o, column, key, render)
       <==> Noticed(rows, ground, n, o, column, key, render)
  {
    if n > 0 {
      PickedNoticed(rows, ground, n - 1, o, column, key, render);
      var a, b := Picked(rows, ground, n - 1, o, column, key, render), Picked(rows, rows, n - 1, o, column, key, render);
      if n in rows && Sees(o, rows[n]) {
        PickedBound(rows, ground, n - 1, o, column, key, render);
        PickedBound(rows, rows, n - 1, o, column, key, render);
        LastDecides(a, b, Found(n, rows[n]), HasKey(n, ground[n], column, key, render), HasKey(n, rows[n], column, key, render));
      } else {
        assert a + [] == a && b + [] == b;
      }
    }
  }

  lemma {:induction false} PickedBound(rows: Rows, keyed: Rows, n: nat, o: Observer, column: string, key: string, render: Value -> string)
    requires keyed.Keys == rows.Keys
    ensures forall f | f in Picked(rows, keyed, n, o, column, key, render) :: f.rid <= n
  {
    if n > 0 { PickedBound(rows, keyed, n - 1, o, column, key, render); }
  }

  ghost predicate Noticed(rows: Rows, ground: Rows, n: nat, o: Observer, column: string, key: string, render: Value -> string) {
    n > 0 ==> Noticed(rows, ground, n - 1, o, column, key, render) && NoticedAt(rows, ground, n, o, column, key, render)
  }

  lemma {:induction false} NoticedEach(rows: Rows, ground: Rows, n: nat, o: Observer, column: string, key: string, render: Value -> string)
    ensures Noticed(rows, ground, n, o, column, key, render)
       <==> forall r | 1 <= r <= n :: NoticedAt(rows, ground, r, o, column, key, render)
  {
    if n > 0 { NoticedEach(rows, ground, n - 1, o, column, key, render); }
  }

  /** If the observer sees the row, it has the key now exactly if it had it in the ground. */
  predicate NoticedAt(rows: Rows, ground: Rows, r: int, o: Observer, column: string, key: string, render: Value -> string) {
    r in rows && r in ground && Sees(o, rows[r]) ==>
      (HasKey(r, ground[r], column, key, render) <==> HasKey(r, rows[r], column, key, render))
  }

  lemma LastDecides(a: seq<Found>, b: seq<Found>, f: Found, p: bool, q: bool)
    requires f !in a && f !in b
    ensures a + (if p then [f] else []) == b + (if q then [f] else []) <==> a == b && p == q
  {
    var x, y := a + (if p then [f] else []), b + (if q then [f] else []);
    assert (f in x <==> p) && (f in y <==> q);
    if x == y && p { assert a == x[..|x| - 1] && b == y[..|y| - 1]; }
    if x == y && !p { assert a == x && b == y; }
  }

  /** A row counter that ran ahead of the rows changes nothing. */
  lemma AgreesLonger(idx: Index, rows: Rows, n: nat, render: Value -> string)
    requires Agrees(idx, rows, n, render) && IdsInRange(rows, n)
    ensures Agrees(idx, rows, n + 1, render)
  {
  }

  /** Registering a new, highest row id keeps the index right. */
  lemma AgreesInserted(idx: Index, entries: map<string, seq<int>>, rows: Rows, n: nat, t: Tuple, render: Value -> string)
    requires Agrees(idx, rows, n, render) && IdsInRange(rows, n)
    requires forall key :: EntriesAt(entries, key) ==
               EntriesAt(idx.entries, key) + if HasKey(n + 1, t, idx.column, key, render) then [n + 1] else []
    ensures Agrees(idx.(entries := entries), rows[n + 1 := t], n + 1, render)
  {
    forall key ensures EntriesAt(entries, key) == Select(rows[n + 1 := t], n + 1, idx.column, key, render) {
      SelectSame(rows, rows[n + 1 := t], n, idx.column, key, render);
    }
  }
}
