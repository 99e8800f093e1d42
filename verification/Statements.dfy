/** Updates and deletes as functions of a table's rows: what they rewrite, where they stop, which indexes they spoil. */
module Statements {
  import opened Mvcc
  import opened Wrappers
  import opened Tables
  import opened Transactions

  datatype Failure = NoSuchTable | InvalidRow | DuplicateKey | XidsExhausted

  datatype Outcome<+T> = Ok(value: T) | Fail(why: Failure)

  /** Equality of values as the variant compares them: doubles by value, so NaN differs from itself. */
  predicate SameValue(v: Value, w: Value) {
    if v.Float? && w.Float? then
      var magnitude := 0x8000_0000_0000_0000;
      var infinity := 0x7FF0_0000_0000_0000;
      v.bits % magnitude <= infinity && w.bits % magnitude <= infinity &&
      (v.bits == w.bits || (v.bits % magnitude == 0 && w.bits % magnitude == 0))
    else v == w
  }

  /** Apart from doubles two values are the same exactly when they are equal; only a NaN differs from itself. */
  lemma SameValueExactly(v: Value, w: Value)
    ensures !v.Float? || !w.Float? ==> (SameValue(v, w) <==> v == w)
    ensures SameValue(v, v) <==> !(v.Float? && v.bits % 0x8000_0000_0000_0000 > 0x7FF0_0000_0000_0000)
    ensures SameValue(v, w) <==> SameValue(w, v)
    ensures SameValue(Float(0), Float(0x8000_0000_0000_0000))
  {
  }

  /** Some row other than except that the observer sees already has the value. */
  ghost predicate Duplicate(rows: Rows, column: string, v: Value, except: int, o: Observer) {
    exists e | e in rows :: Duplicates(rows, e, column, v, except, o)
  }

  predicate Duplicates(rows: Rows, e: int, column: string, v: Value, except: int, o: Observer)
    requires e in rows
  {
    e != except && Sees(o, rows[e]) && Cell(e, rows[e], column).Some? && SameValue(Cell(e, rows[e], column).value, v)
  }

  /** What an UPDATE or DELETE does to the rows it hits. */
  datatype Edit = Assign(updates: Row) | Delete

  function NewVersion(t: Tuple, edit: Edit, xid: Xid, cid: nat): Tuple {
    match edit
    case Assign(updates) => Tuple(Header(xid, INVALID, cid), t.cols + Strip(updates))
    case Delete => t.(hdr := Header(t.hdr.xmin, xid, cid))
  }

  type Match = (int, Tuple) -> bool

  predicate Hit(rows: Rows, r: int, o: Observer, m: Match) {
    r in rows && Sees(o, rows[r]) && m(r, rows[r])
  }

  /** The hits with ids up to n rewritten. */
  function Edited(rows: Rows, n: int, o: Observer, m: Match, edit: Edit, cid: nat): Rows {
    map r | r in rows :: if r <= n && Hit(rows, r, o, m) then NewVersion(rows[r], edit, o.me, cid) else rows[r]
  }

  function RecordOf(name: string, rows: Rows, r: int, edit: Edit): UndoRecord
    requires r in rows
  {
    UndoRecord(if edit.Assign? then UpdateOp else DeleteOp, name, r, rows[r])
  }

  /** Their undo records, in scan order. */
  function EditLog(name: string, rows: Rows, n: nat, o: Observer, m: Match, edit: Edit): seq<UndoRecord> {
    if n == 0 then []
    else EditLog(name, rows, n - 1, o, m, edit) + if Hit(rows, n, o, m) then [RecordOf(name, rows, n, edit)] else []
  }

  /** The update would give row r a primary key that another row visible before the statement has. */
  ghost predicate Clashes(t: Table, r: int, o: Observer, updates: Row) {
    exists i | 0 <= i < |t.primaryKey| :: ClashesAt(t, i, r, o, updates)
  }

  ghost predicate ClashesAt(t: Table, i: nat, r: int, o: Observer, updates: Row)
    requires i < |t.primaryKey|
  {
    t.primaryKey[i] in updates && Duplicate(t.rows, t.primaryKey[i], updates[t.primaryKey[i]], r, o)
  }

  predicate AffectsIndex(t: Table, updates: Row) {
    exists i | 0 <= i < |t.indexes| :: t.indexes[i].column in updates
  }

  lemma EditedStep(name: string, rows: Rows, n: nat, o: Observer, m: Match, edit: Edit, cid: nat)
    ensures Edited(rows, n + 1, o, m, edit, cid) ==
            if Hit(rows, n + 1, o, m)
            then Edited(rows, n, o, m, edit, cid)[n + 1 := NewVersion(rows[n + 1], edit, o.me, cid)]
            else Edited(rows, n, o, m, edit, cid)
  {
  }

  /** No hit with an id up to upto clashes. */
  ghost predicate NoClash(t: Table, m: Match, updates: Row, o: Observer, upto: nat) {
    upto > 0 ==> NoClash(t, m, updates, o, upto - 1) && (Hit(t.rows, upto, o, m) ==> !Clashes(t, upto, o, updates))
  }

  lemma {:induction false} NoClashAnywhere(t: Table, m: Match, updates: Row, o: Observer, upto: nat, r: nat)
    requires NoClash(t, m, updates, o, upto) && 1 <= r <= upto && Hit(t.rows, r, o, m)
    ensures !Clashes(t, r, o, updates)
  {
    if r < upto { NoClashAnywhere(t, m, updates, o, upto - 1, r); }
  }

  /** An update stops at the first hit whose new primary key clashes, or treats and counts all hits. */
  ghost predicate UpdateOutcome(t: Table, name: string, m: Match, updates: Row, o: Observer, r: Outcome<nat>, upto: nat) {
    && NoClash(t, m, updates, o, upto)
    && match r
       case Ok(count) => upto == t.lastRowId && count == |EditLog(name, t.rows, upto, o, m, Assign(updates))|
       case Fail(why) => why == DuplicateKey && Hit(t.rows, upto + 1, o, m) && Clashes(t, upto + 1, o, updates)
  }

  /** An update that succeeds has met no clash among its hits and counts them; one that fails stops at the first clash. */
  lemma UpdateOutcomeExactly(t: Table, name: string, m: Match, updates: Row, o: Observer, r: Outcome<nat>, upto: nat)
    ensures UpdateOutcome(t, name, m, updates, o, r, upto) <==>
              && (forall q | 1 <= q <= upto && q in t.rows && Sees(o, t.rows[q]) && m(q, t.rows[q]) :: !Clashes(t, q, o, updates))
              && if r.Ok? then upto == t.lastRowId && r.value == |EditLog(name, t.rows, t.lastRowId, o, m, Assign(updates))|
                 else r.why == DuplicateKey && upto + 1 in t.rows && Sees(o, t.rows[upto + 1]) && m(upto + 1, t.rows[upto + 1])
                      && Clashes(t, upto + 1, o, updates)
  {
    NoClashEach(t, m, updates, o, upto);
  }

  lemma {:induction false} NoClashEach(t: Table, m: Match, updates: Row, o: Observer, upto: nat)
    ensures NoClash(t, m, updates, o, upto) <==>
            forall q | 1 <= q <= upto && q in t.rows && Sees(o, t.rows[q]) && m(q, t.rows[q]) :: !Clashes(t, q, o, updates)
  {
    if upto > 0 { NoClashEach(t, m, updates, o, upto - 1); }
  }

  lemma EditedNone(rows: Rows, o: Observer, m: Match)
    requires forall r | r in rows :: 1 <= r
    ensures forall edit, cid :: Edited(rows, 0, o, m, edit, cid) == rows
  {
  }

  lemma {:induction false} EditLogged(name: string, rows: Rows, k: nat, o: Observer, m: Match, edit: Edit)
    ensures forall rec | rec in EditLog(name, rows, k, o, m, edit) :: rec.table == name && 1 <= rec.rowId <= k
  {
    if k > 0 { EditLogged(name, rows, k - 1, o, m, edit); }
  }

  ghost function Hits(rows: Rows, n: nat, o: Observer, m: Match): set<int> {
    set r | r in rows && 1 <= r <= n && Hit(rows, r, o, m)
  }

  lemma {:induction false} EditLogCounts(name: string, rows: Rows, n: nat, o: Observer, m: Match, edit: Edit)
    ensures |EditLog(name, rows, n, o, m, edit)| == |Hits(rows, n, o, m)|
  {
    if n > 0 {
      EditLogCounts(name, rows, n - 1, o, m, edit);
      HitsStep(rows, n, o, m);
    }
  }

  lemma HitsStep(rows: Rows, n: nat, o: Observer, m: Match)
    requires n > 0
    ensures |Hits(rows, n, o, m)| == |Hits(rows, n - 1, o, m)| + if Hit(rows, n, o, m) then 1 else 0
  {
    var before := Hits(rows, n - 1, o, m);
    assert Hits(rows, n, o, m) == if Hit(rows, n, o, m) then before + {n} else before;
  }

  // ---------- which indexes an edit leaves right ----------

  /** Rewriting the row leaves its key in the column as it is. */
  predicate KeepsKey(t: Tuple, edit: Edit, me: Xid, cid: nat, column: string, render: Value -> string) {
    if column == "_rowid" then true
    else if column == "_xmin" then edit.Delete? || render(Int(me)) == render(Int(t.hdr.xmin))
    else if column == "_xmax" then render(Int(if edit.Delete? then me else INVALID)) == render(Int(t.hdr.xmax))
    else if column == "_cid" then render(Int(cid)) == render(Int(t.hdr.cid))
    else edit.Assign? && column in edit.updates ==>
           column in t.cols && render(edit.updates[column]) == render(t.cols[column])
  }

  lemma KeepsKeyMeans(r: int, t: Tuple, edit: Edit, me: Xid, cid: nat, column: string, render: Value -> string)
    ensures KeepsKey(t, edit, me, cid, column, render) <==>
            Rendered(r, NewVersion(t, edit, me, cid), column, render) == Rendered(r, t, column, render)
  {
  }

  /**
   * A right index is right after an edit, without a rebuild, exactly when every rewritten row keeps its key: for
   * _xmin when its inserter renders like the editing transaction, for _xmax when its deleter renders like the
   * deleting one (like 0 for an update), for _cid when its command id renders like the present one, for an assigned
   * column when the value renders alike, and always for every other column.
   */
  lemma EditAgreesExactly(idx: Index, rows: Rows, n: nat, upto: int, o: Observer, m: Match, edit: Edit, cid: nat, render: Value -> string)
    requires Agrees(idx, rows, n, render) && IdsInRange(rows, n)
    ensures Agrees(idx, Edited(rows, upto, o, m, edit, cid), n, render) <==>
            forall r | r in rows && r <= upto && Hit(rows, r, o, m) :: KeepsKey(rows[r], edit, o.me, cid, idx.column, render)
  {
    var after := Edited(rows, upto, o, m, edit, cid);
    AgreesExactly(idx, rows, after, n, render);
    forall r | r in rows && r <= upto && Hit(rows, r, o, m)
      ensures KeepsKey(rows[r], edit, o.me, cid, idx.column, render) <==>
              Rendered(r, rows[r], idx.column, render) == Rendered(r, after[r], idx.column, render)
    {
      KeepsKeyMeans(r, rows[r], edit, o.me, cid, idx.column, render);
    }
  }

  /** Columns that no statement changes behind the back of an index: those that the tuple header does not hold. */
  predicate Lasting(column: string) { column != "_xmin" && column != "_xmax" && column != "_cid" }

  /** An index on such a column, unless it is assigned, is never spoiled. */
  lemma LastingKeepsKey(t: Tuple, edit: Edit, me: Xid, cid: nat, column: string, render: Value -> string)
    requires Lasting(column) && (edit.Assign? ==> column !in edit.updates)
    ensures KeepsKey(t, edit, me, cid, column, render)
  {
  }

  /** Deleting a row spoils an index on _xmax, and a session without a transaction is answered wrongly. */
  lemma DeleteSpoilsXmaxIndex(cols: Row, render: Value -> string, snap: Snapshot, clog: CLog)
    requires cols != map[] && cols == Strip(cols)
    requires render(Int(0)) != render(Int(3)) && StatusOf(clog, 3) == InProgress
    ensures var rows: Rows := map[1 := Tuple(Header(FROZEN, INVALID, 0), cols)];
            var me, other := Observer(3, snap, 0, clog), Observer(INVALID, snap, 0, clog);
            var after := Edited(rows, 1, me, (r, t) => true, Delete, 0);
            && Sees(me, rows[1]) && after == map[1 := Tuple(Header(FROZEN, 3, 0), cols)]
            && Fetch(after, Select(rows, 1, "_xmax", render(Int(0)), render), other) == [Found(1, after[1])]
            && Matching(VisibleRows(after, 1, other), "_xmax", render(Int(0)), render) == []
  {
    var rows: Rows := map[1 := Tuple(Header(FROZEN, INVALID, 0), cols)];
    var me, other := Observer(3, snap, 0, clog), Observer(INVALID, snap, 0, clog);
    var after := Edited(rows, 1, me, (r, t) => true, Delete, 0);
    assert after == map[1 := Tuple(Header(FROZEN, 3, 0), cols)];
    assert Sees(other, after[1]);
    FetchPicks(after, rows, 1, other, "_xmax", render(Int(0)), render);
    ScanPicks(after, 1, other, "_xmax", render(Int(0)), render);
    assert Picked(after, rows, 0, other, "_xmax", render(Int(0)), render) == [];
    assert Picked(after, after, 0, other, "_xmax", render(Int(0)), render) == [];
  }

  // ---------- an update stopped by a key clash ----------

  /** At most one row was rewritten before the clash: the very row that holds the clashing key. */
  lemma ClashRewritesOne(t: Table, m: Match, updates: Row, o: Observer, upto: nat, p: int) returns (i: nat)
    requires NoClash(t, m, updates, o, upto) && Clashes(t, upto + 1, o, updates)
    requires 1 <= p <= upto && Hit(t.rows, p, o, m)
    ensures forall q | 1 <= q <= upto && Hit(t.rows, q, o, m) :: q == p
    ensures i < |t.primaryKey| && t.primaryKey[i] in updates && Cell(p, t.rows[p], t.primaryKey[i]).Some?
    ensures SameValue(Cell(p, t.rows[p], t.primaryKey[i]).value, updates[t.primaryKey[i]])
  {
    i :| 0 <= i < |t.primaryKey| && ClashesAt(t, i, upto + 1, o, updates);
    var v := updates[t.primaryKey[i]];
    var e :| e in t.rows && Duplicates(t.rows, e, t.primaryKey[i], v, upto + 1, o);
    forall q | 1 <= q <= upto && Hit(t.rows, q, o, m) ensures q == e {
      NoClashAnywhere(t, m, updates, o, upto, q);
      assert !ClashesAt(t, i, q, o, updates);
      assert !Duplicates(t.rows, e, t.primaryKey[i], v, q, o);
    }
  }

  lemma {:induction false} FewHits(name: string, rows: Rows, n: nat, o: Observer, m: Match, edit: Edit)
    requires forall p, q | 1 <= p <= n && 1 <= q <= n && Hit(rows, p, o, m) && Hit(rows, q, o, m) :: p == q
    ensures |EditLog(name, rows, n, o, m, edit)| <= 1
    ensures (forall p | 1 <= p <= n :: !Hit(rows, p, o, m)) ==> EditLog(name, rows, n, o, m, edit) == []
  {
    if n > 0 { FewHits(name, rows, n - 1, o, m, edit); }
  }

  lemma ClashLogsOne(name: string, t: Table, m: Match, updates: Row, o: Observer, upto: nat)
    requires NoClash(t, m, updates, o, upto) && Clashes(t, upto + 1, o, updates)
    ensures |EditLog(name, t.rows, upto, o, m, Assign(updates))| <= 1
  {
    forall p, q | 1 <= p <= upto && 1 <= q <= upto && Hit(t.rows, p, o, m) && Hit(t.rows, q, o, m) ensures p == q {
      var _ := ClashRewritesOne(t, m, updates, o, upto, p);
    }
    FewHits(name, t.rows, upto, o, m, Assign(updates));
  }

  /** After the failed update a right index is still right exactly when the one rewritten row p, if any, keeps its key. */
  lemma ClashAgreesExactly(idx: Index, t: Table, m: Match, updates: Row, o: Observer, upto: nat, cid: nat, render: Value -> string)
    returns (p: Option<int>)
    requires Agrees(idx, t.rows, t.lastRowId, render) && IdsInRange(t.rows, t.lastRowId)
    requires NoClash(t, m, updates, o, upto) && Clashes(t, upto + 1, o, updates)
    ensures p.Some? ==> 1 <= p.value <= upto && Hit(t.rows, p.value, o, m)
    ensures forall q | 1 <= q <= upto && Hit(t.rows, q, o, m) :: p == Some(q)
    ensures Agrees(idx, Edited(t.rows, upto, o, m, Assign(updates), cid), t.lastRowId, render) <==>
            p.Some? ==> KeepsKey(t.rows[p.value], Assign(updates), o.me, cid, idx.column, render)
  {
    EditAgreesExactly(idx, t.rows, t.lastRowId, upto, o, m, Assign(updates), cid, render);
    if q: int :| 1 <= q <= upto && Hit(t.rows, q, o, m) {
      p := Some(q);
      var _ := ClashRewritesOne(t, m, updates, o, upto, q);
    } else {
      p := None;
    }
  }

  function TwoCells(a: int, b: int): Row { map["a" := Int(a), "b" := Int(b)] }

  /** Keys a and b, rows (2, 7) and (1, 8): setting a = 2, b = 9 everywhere. */
  function TwoKeyed(): Table {
    Table(["a", "b"], map[1 := Tuple(Header(FROZEN, INVALID, 0), TwoCells(2, 7)), 2 := Tuple(Header(FROZEN, INVALID, 0), TwoCells(1, 8))], 2, [])
  }

  /** The first row is rewritten, the second clashes; committed, a lookup of b = 9 misses the row that the scan has. */
  lemma ClashSpoilsOtherKey(name: string, render: Value -> string, o: Observer, later: Observer)
    requires o.me == 5 && later.me == INVALID && StatusOf(o.clog, 5) == InProgress && StatusOf(later.clog, 5) == Committed
    requires 5 !in later.snap.xip && render(Int(9)) != render(Int(7)) && render(Int(9)) != render(Int(8))
    ensures var t, key := TwoKeyed(), render(Int(9));
            var after := Edited(t.rows, 1, o, (r, u) => true, Assign(TwoCells(2, 9)), 0);
            && UpdateOutcome(t, name, (r, u) => true, TwoCells(2, 9), o, Fail(DuplicateKey), 1)
            && Fetch(after, Select(t.rows, 2, "b", key, render), later) == []
            && 1 in after && Matching(VisibleRows(after, 2, later), "b", key, render) == [Found(1, after[1])]
  {
    SecondRowClashes(name, o);
    var t, key := TwoKeyed(), render(Int(9));
    var after := Edited(t.rows, 1, o, (r, u) => true, Assign(TwoCells(2, 9)), 0);
    FirstRowRewritten(o);
    LookupMisses(after, t.rows, later, "b", key, render);
  }

  lemma FirstRowRewritten(o: Observer)
    requires o.me == 5
    ensures Edited(TwoKeyed().rows, 1, o, (r, u) => true, Assign(TwoCells(2, 9)), 0)
         == map[1 := Tuple(Header(5, INVALID, 0), TwoCells(2, 9)), 2 := Tuple(Header(FROZEN, INVALID, 0), TwoCells(1, 8))]
  {
    assert Strip(TwoCells(2, 9)) == TwoCells(2, 9);
    assert TwoCells(2, 7) + TwoCells(2, 9) == TwoCells(2, 9);
  }

  /** Row 1 has the key now, and no row had it when the index last took notice. */
  lemma LookupMisses(rows: Rows, ground: Rows, o: Observer, column: string, key: string, render: Value -> string)
    requires rows.Keys == ground.Keys == {1, 2} && Sees(o, rows[1])
    requires HasKey(1, rows[1], column, key, render) && !HasKey(2, rows[2], column, key, render)
    requires !HasKey(1, ground[1], column, key, render) && !HasKey(2, ground[2], column, key, render)
    ensures Fetch(rows, Select(ground, 2, column, key, render), o) == []
    ensures Matching(VisibleRows(rows, 2, o), column, key, render) == [Found(1, rows[1])]
  {
    FetchPicks(rows, ground, 2, o, column, key, render);
    ScanPicks(rows, 2, o, column, key, render);
    assert Picked(rows, ground, 0, o, column, key, render) == [] && Picked(rows, rows, 0, o, column, key, render) == [];
    assert Picked(rows, ground, 1, o, column, key, render) == [];
    assert Picked(rows, rows, 1, o, column, key, render) == [Found(1, rows[1])];
  }

  lemma SecondRowClashes(name: string, o: Observer)
    requires o.me == 5 && StatusOf(o.clog, 5) == InProgress
    ensures UpdateOutcome(TwoKeyed(), name, (r, u) => true, TwoCells(2, 9), o, Fail(DuplicateKey), 1)
  {
    var t, updates := TwoKeyed(), TwoCells(2, 9);
    assert Duplicates(t.rows, 1, "a", Int(2), 2, o);
    assert ClashesAt(t, 0, 2, o, updates) by { assert t.primaryKey[0] == "a"; }
    assert !ClashesAt(t, 0, 1, o, updates) && !ClashesAt(t, 1, 1, o, updates);
  }

  /** With a single key column that is no double, a failed update never spoils the index on that column. */
  lemma SingleKeyIndexSurvives(idx: Index, t: Table, m: Match, updates: Row, o: Observer, upto: nat, cid: nat, render: Value -> string)
    requires Agrees(idx, t.rows, t.lastRowId, render) && IdsInRange(t.rows, t.lastRowId)
    requires NoClash(t, m, updates, o, upto) && Clashes(t, upto + 1, o, updates)
    requires t.primaryKey == [idx.column] && !IsSystem(idx.column) && !updates[idx.column].Float?
    ensures Agrees(idx, Edited(t.rows, upto, o, m, Assign(updates), cid), t.lastRowId, render)
  {
    EditAgreesExactly(idx, t.rows, t.lastRowId, upto, o, m, Assign(updates), cid, render);
    forall p | p in t.rows && p <= upto && Hit(t.rows, p, o, m)
      ensures KeepsKey(t.rows[p], Assign(updates), o.me, cid, idx.column, render)
    {
      var i := ClashRewritesOne(t, m, updates, o, upto, p);
    }
  }
}
