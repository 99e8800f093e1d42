/** The payload of a stored tuple: the business columns of a row, without the columns its header holds. */
module RowCodec {
  import opened Keys
  import opened Binary
  import opened Wrappers
  import opened Formats
  import opened OrderedMaps
  import opened Payloads

  const ROWID: Bytes := [0x5f, 0x72, 0x6f, 0x77, 0x69, 0x64]
  const XMIN: Bytes := [0x5f, 0x78, 0x6d, 0x69, 0x6e]
  const XMAX: Bytes := [0x5f, 0x78, 0x6d, 0x61, 0x78]
  const CID: Bytes := [0x5f, 0x63, 0x69, 0x64]

  predicate IsSystem(name: Bytes) { name == ROWID || name == XMIN || name == XMAX || name == CID }

  function Business(row: Row): Row {
    if row == [] then []
    else if IsSystem(row[0].0) then Business(row[1..])
    else [row[0]] + Business(row[1..])
  }

  /** The names and strings the encoder does not refuse. */
  predicate Encodable(row: Row) {
    forall i | 0 <= i < |row| :: Short(row[i])
  }

  predicate Short(e: (Bytes, Value)) { |e.0| < 0x1_0000 && (e.1.String? ==> |e.1.s| < 0x1_0000_0000) }

  /** The encoded columns; a count that does not fit two bytes wraps. */
  function TupleBytes(f: Format<(Bytes, Value)>, row: Row): Bytes { Put16(|row|) + Written(f, row) }

  /** None where the decoder throws. */
  function DecodeTuple(f: Format<(Bytes, Value)>, b: Bytes): Option<Row> {
    if |b| < 2 then Some([])
    else if |b| < 4 then None
    else match Many(f, At16(b, 0), b[2..])
      case None => None
      case Some(got) => Some(Gather(got.0, Newer))
  }

  // ---------- what decoding an encoding gives ----------

  lemma {:induction false} BusinessKeeps(row: Row)
    ensures forall e :: e in Business(row) <==> e in row && !IsSystem(e.0)
    ensures |Business(row)| <= |row|
  {
    if row != [] {
      BusinessKeeps(row[1..]);
      assert row == [row[0]] + row[1..];
    }
  }

  lemma {:induction false} BusinessAscends(row: Row)
    requires Ascending(row)
    ensures Ascending(Business(row))
  {
    if row != [] {
      BusinessAscends(row[1..]);
      BusinessKeeps(row[1..]);
      var rest := Business(row[1..]);
      forall j | 0 <= j < |rest| ensures LexLess(row[0].0, rest[j].0) {
        assert rest[j] in row[1..];
        var k :| 1 <= k < |row| && row[k] == rest[j];
      }
    }
  }

  lemma {:induction false} BusinessFinds(row: Row, q: Bytes)
    ensures Find(Business(row), q) == if IsSystem(q) then None else Find(row, q)
  {
    if row != [] { BusinessFinds(row[1..], q); }
  }

  lemma EntriesFit(row: Row)
    requires Encodable(row)
    ensures forall i | 0 <= i < |row| :: Entry().fits(row[i])
  {
    forall i | 0 <= i < |row| ensures Entry().fits(row[i]) { ValueFits(row[i].1); }
  }

  lemma EntrySound()
    ensures Sound(Entry())
  {
    Text16Sound();
    ValueSound();
    PairSound(Text16(), ValueFormat());
  }

  predicate TwoBytes(f: Format<(Bytes, Value)>, e: (Bytes, Value)) { |f.enc(e)| >= 2 }

  predicate Fitting(f: Format<(Bytes, Value)>, row: Row) {
    |row| < 0x1_0000 && forall i | 0 <= i < |row| :: f.fits(row[i]) && TwoBytes(f, row[i])
  }

  lemma EntriesFitting(row: Row)
    requires Encodable(row) && |row| < 0x1_0000
    ensures Fitting(Entry(), row)
  {
    EntriesFit(row);
    forall i | 0 <= i < |row| ensures TwoBytes(Entry(), row[i]) {
      PairBytes(Text16(), ValueFormat(), row[i].0, row[i].1);
    }
  }

  lemma Opening(f: Format<(Bytes, Value)>, row: Row, rest: Bytes)
    requires |row| < 0x1_0000
    ensures var b := TupleBytes(f, row) + rest; |b| >= 2 && At16(b, 0) == |row| && b[2..] == Written(f, row) + rest
  {
    var b := TupleBytes(f, row) + rest;
    Regroup(Put16(|row|), Written(f, row), rest);
    HeadHere(Put16(|row|), Written(f, row) + rest);
    Read16(b, 0, |row|);
  }

  lemma RoundTripOf(f: Format<(Bytes, Value)>, row: Row, rest: Bytes)
    requires Sound(f) && Ascending(row) && Fitting(f, row)
    ensures DecodeTuple(f, TupleBytes(f, row) + rest) == if row != [] || |rest| >= 2 then Some(row) else None
  {
    Opening(f, row, rest);
    ManyReturn(f, row, rest);
    GatherAscending(row, Newer);
    if row != [] { assert TwoBytes(f, row[0]); }
  }

  lemma TornOf(f: Format<(Bytes, Value)>, row: Row, b: Bytes)
    requires Sound(f) && Fitting(f, row) && b < TupleBytes(f, row)
    ensures DecodeTuple(f, b) == if |b| < 2 then Some([]) else None
  {
    if |b| >= 2 {
      var whole := TupleBytes(f, row);
      var more := whole[|b|..];
      assert b + more == whole && whole + [] == whole && b[2..] + more == whole[2..];
      Opening(f, row, []);
      assert Written(f, row) + [] == Written(f, row);
      assert At16(b, 0) == At16(whole, 0);
      ManyReturn(f, row, []);
      var got := Many(f, |row|, b[2..]);
      assert forall left: Bytes :: |left + more| > 0;
      if got.Some? { ManySettled(f, |row|, b[2..], more); }
      assert got == None;
    }
  }

  /**
   * A stored row gives its business columns back, whatever follows it, exactly when it has one or at least two
   * more bytes follow: a row without business columns is written as a bare zero count, which the decoder refuses.
   */
  lemma StoredRowReadsBackExactly(row: Row, rest: Bytes)
    requires Ascending(row) && Encodable(Business(row)) && |Business(row)| < 0x1_0000
    ensures DecodeTuple(Entry(), TupleBytes(Entry(), Business(row)) + rest) ==
            if Business(row) != [] || |rest| >= 2 then Some(Business(row)) else None
  {
    EntrySound();
    BusinessAscends(row);
    EntriesFitting(Business(row));
    RoundTripOf(Entry(), Business(row), rest);
  }

  /** A torn stored row is refused, except that nothing or a single byte is taken for the empty row. */
  lemma TornRowRefusedExactly(row: Row, b: Bytes)
    requires Encodable(Business(row)) && |Business(row)| < 0x1_0000 && b < TupleBytes(Entry(), Business(row))
    ensures DecodeTuple(Entry(), b) == if |b| < 2 then Some([]) else None
  {
    EntrySound();
    EntriesFitting(Business(row));
    TornOf(Entry(), Business(row), b);
  }

  // ---------- projecting the header's columns ----------

  datatype Header = Header(rowId: Signed, xmin: nat, xmax: nat, cid: nat)

  predicate Words(h: Header) { h.xmin < 0x1_0000_0000 && h.xmax < 0x1_0000_0000 && h.cid < 0x1_0000_0000 }

  function HeaderCell(h: Header, name: Bytes): Value
    requires Words(h)
  {
    if name == ROWID then Int64(h.rowId)
    else if name == XMIN then Int64(h.xmin)
    else if name == XMAX then Int64(h.xmax)
    else Int64(h.cid)
  }

  function WithHeader(row: Row, h: Header): Row
    requires Words(h)
  {
    var r1 := Enter(row, ROWID, Int64(h.rowId), Newer);
    var r2 := Enter(r1, XMIN, Int64(h.xmin), Newer);
    var r3 := Enter(r2, XMAX, Int64(h.xmax), Newer);
    Enter(r3, CID, Int64(h.cid), Newer)
  }

  function TupleToRow(h: Header, payload: Bytes): Option<Row>
    requires Words(h)
  {
    var row := DecodeTuple(Entry(), payload);
    if row.None? then None else Some(WithHeader(row.value, h))
  }

  lemma HeaderWins(row: Row, h: Header, q: Bytes)
    requires Ascending(row) && Words(h)
    ensures Ascending(WithHeader(row, h))
    ensures Find(WithHeader(row, h), q) == if IsSystem(q) then Some(HeaderCell(h, q)) else Find(row, q)
  {
    var r1 := Enter(row, ROWID, Int64(h.rowId), Newer);
    var r2 := Enter(r1, XMIN, Int64(h.xmin), Newer);
    var r3 := Enter(r2, XMAX, Int64(h.xmax), Newer);
    EnterAscends(row, ROWID, Int64(h.rowId), Newer);
    EnterAscends(r1, XMIN, Int64(h.xmin), Newer);
    EnterAscends(r2, XMAX, Int64(h.xmax), Newer);
    EnterAscends(r3, CID, Int64(h.cid), Newer);
    EnterFinds(row, ROWID, Int64(h.rowId), Newer, q);
    EnterFinds(r1, XMIN, Int64(h.xmin), Newer, q);
    EnterFinds(r2, XMAX, Int64(h.xmax), Newer, q);
    EnterFinds(r3, CID, Int64(h.cid), Newer, q);
  }

  /** Storing a row and projecting it again keeps every business column and takes the rest from the header. */
  lemma ProjectionReadsBack(row: Row, h: Header, q: Bytes)
    requires Ascending(row) && Encodable(Business(row)) && 0 < |Business(row)| < 0x1_0000 && Words(h)
    ensures var r := TupleToRow(h, TupleBytes(Entry(), Business(row)));
            r.Some? && Find(r.value, q) == if IsSystem(q) then Some(HeaderCell(h, q)) else Find(row, q)
  {
    var b := TupleBytes(Entry(), Business(row));
    StoredRowReadsBackExactly(row, []);
    assert b + [] == b;
    BusinessAscends(row);
    BusinessFinds(row, q);
    HeaderWins(Business(row), h, q);
  }

  // ---------- the codec ----------

  /** None where the encoder throws; columns are counted in sixteen bits. */
  method EncodeTuple(row: Row, ghost f: Format<(Bytes, Value)>) returns (out: Option<Bytes>)
    requires WritesAs(f, Entry())
    ensures out == if Encodable(Business(row)) then Some(TupleBytes(f, Business(row))) else None
  {
    var ncols := CountBusiness(row);
    var b := Put16(ncols);
    Put16Wraps(|Business(row)|);
    out := AppendBusiness(b, row, f);
  }

  lemma Put16Wraps(n: nat)
    ensures Put16(n % 0x1_0000) == Put16(n)
  {
    assert n % 0x1_0000 == n - n / 0x1_0000 * 0x1_0000;
    assert n % 0x1_0000 / 256 == n / 256 - n / 0x1_0000 * 256;
  }

  method CountBusiness(row: Row) returns (ncols: nat)
    ensures ncols == |Business(row)| % 0x1_0000
  {
    ncols := 0;
    for i := 0 to |row|
      invariant ncols == |Business(row[..i])| % 0x1_0000
    {
      BusinessLast(row[..i], row[i]);
      assert row[..i] + [row[i]] == row[..i + 1];
      if !IsSystem(row[i].0) { ncols := (ncols + 1) % 0x1_0000; }
    }
    assert row[..|row|] == row;
  }

  lemma {:induction false} BusinessLast(row: Row, e: (Bytes, Value))
    ensures Business(row + [e]) == Business(row) + if IsSystem(e.0) then [] else [e]
  {
    if row != [] {
      assert (row + [e])[1..] == row[1..] + [e];
      BusinessLast(row[1..], e);
    }
  }

  method AppendBusiness(head: Bytes, row: Row, ghost f: Format<(Bytes, Value)>) returns (out: Option<Bytes>)
    requires WritesAs(f, Entry())
    ensures out == if Encodable(Business(row)) then Some(head + Written(f, Business(row))) else None
  {
    var b := head;
    ghost var done := [];
    for i := 0 to |row|
      invariant done == Business(row[..i]) && Encodable(done) && b == head + Written(f, done)
    {
      BusinessNext(row, i);
      if !IsSystem(row[i].0) {
        if |row[i].0| > 0xFFFF || (row[i].1.String? && |row[i].1.s| > 0xFFFF_FFFF) {
          Refused(row, i);
          return None;
        }
        b := AppendColumn(head, b, done, row[i], f);
        done := done + [row[i]];
      }
    }
    assert row[..|row|] == row;
    out := Some(b);
  }

  lemma BusinessNext(row: Row, i: nat)
    requires i < |row|
    ensures Business(row[..i + 1]) == if IsSystem(row[i].0) then Business(row[..i]) else Business(row[..i]) + [row[i]]
    ensures Encodable(Business(row[..i])) && Short(row[i]) ==> Encodable(Business(row[..i + 1]))
  {
    BusinessLast(row[..i], row[i]);
    assert row[..i] + [row[i]] == row[..i + 1];
    assert Business(row[..i]) + [] == Business(row[..i]);
  }

  method AppendColumn(ghost head: Bytes, buf: Bytes, ghost done: Row, e: (Bytes, Value), ghost f: Format<(Bytes, Value)>) returns (b: Bytes)
    requires WritesAs(f, Entry()) && buf == head + Written(f, done)
    ensures b == head + Written(f, done + [e])
  {
    b := EncodeEntry(buf, e, f);
    WrittenLast(f, done, e);
    Regroup(head, Written(f, done), f.enc(e));
  }

  lemma Refused(row: Row, i: nat)
    requires i < |row| && !IsSystem(row[i].0) && !Short(row[i])
    ensures !Encodable(Business(row))
  {
    BusinessKeeps(row);
    var k :| 0 <= k < |Business(row)| && Business(row)[k] == row[i];
  }

  method Decode(data: Bytes, ghost f: Format<(Bytes, Value)>) returns (out: Option<Row>)
    requires ReadsAs(f, Entry())
    ensures out == DecodeTuple(f, data)
  {
    if |data| < 2 { return Some([]); }
    var r := new PayloadReader(data);
    var _, ncols := r.ReadU16();
    if r.pos + 2 > |data| { return None; }
    out := DecodeNewest(r, ncols, f);
  }

  /** Here the last value read for a name stays. */
  method DecodeNewest(r: PayloadReader, count: nat, ghost f: Format<(Bytes, Value)>) returns (out: Option<Row>)
    requires r.Valid() && ReadsAs(f, Entry())
    modifies r`pos
    ensures out == match Many(f, count, old(r.Left())) case None => None case Some(got) => Some(Gather(got.0, Newer))
  {
    var row := [];
    ghost var start, seen := r.Left(), [];
    for i := 0 to count
      invariant r.Valid() && Through(f, start, seen, r.Left()) && |seen| == i
      invariant row == Gather(seen, Newer)
    {
      ghost var was := r.Left();
      var ok, entry := DecodeEntry(r, f);
      ThroughTook(f, count, start, seen, was, ok, entry, r.Left());
      if !ok { return None; }
      row := Enter(row, entry.0, entry.1, Newer);
      seen := seen + [entry];
    }
    ThroughAll(f, start, seen, r.Left());
    out := Some(row);
  }
}
