/** The checkpoint file: nested lists and maps of everything that is saved, with the commit log and catalog inside. */
module Checkpoints {
  import opened Keys
  import opened Binary
  import opened Wrappers
  import opened Formats
  import opened OrderedMaps
  import opened Payloads
  import ClogCodec
  import Catalogs
  import Mvcc

  const VERSION_2: nat := 2
  const VERSION_3: nat := 3

  datatype Table = Table(name: Bytes, columns: seq<Column>, rowCount: Signed)

  type StoredRow = (Signed, Row)

  datatype Index = Index(column: Bytes, entries: Dict<seq<Signed>>)

  /** An embedded part: nothing, its binary form, or the text of an older JSON form. */
  datatype Blob = Absent | Embedded(bytes: Bytes) | Json(text: Bytes)

  datatype Segments = Segments(tables: seq<Table>, tableRows: Dict<seq<StoredRow>>, counters: Dict<Signed>, indexes: Dict<seq<Index>>)

  datatype Head = Head(version: Signed, lastSeq: Signed, timestamp: Signed, nextXid: nat)

  datatype Checkpoint = Checkpoint(head: Head, segments: Segments, clog: Blob, catalog: Blob)

  // ---------- the formats, from the inside out ----------

  function ToTable(t: (Bytes, (seq<Column>, Signed))): Option<Table> { Some(Table(t.0, t.1.0, t.1.1)) }
  function OfTable(t: Table): (Bytes, (seq<Column>, Signed)) { (t.name, (t.columns, t.rowCount)) }
  predicate AnyTable(t: Table) { true }

  function TableFormat(): Format<Table> {
    Via(Pair(Text16(), Pair(Counted(ColumnFormat()), Signed64())), ToTable, OfTable, AnyTable)
  }

  function StoredRowFormat(): Format<StoredRow> { Pair(Signed64(), RowFormat()) }

  function RowsFormat(): Format<seq<StoredRow>> { Counted(StoredRowFormat()) }

  /** Rows read for a table twice are appended. */
  function TableRowsFormat(): Format<Dict<seq<StoredRow>>> { DictFormat(RowsFormat(), Appended) }

  function CountersFormat(): Format<Dict<Signed>> { DictFormat(Signed64(), Newer) }

  function PositionsFormat(): Format<seq<Signed>> { Counted(Signed64()) }

  function PostingsFormat(): Format<Dict<seq<Signed>>> { DictFormat(PositionsFormat(), Newer) }

  function ToIndex(i: (Bytes, Dict<seq<Signed>>)): Option<Index> { Some(Index(i.0, i.1)) }
  function OfIndex(i: Index): (Bytes, Dict<seq<Signed>>) { (i.column, i.entries) }
  predicate AnyIndex(i: Index) { true }

  function IndexFormat(): Format<Index> { Via(Pair(Text16(), PostingsFormat()), ToIndex, OfIndex, AnyIndex) }

  function IndexListFormat(): Format<seq<Index>> { Counted(IndexFormat()) }

  function IndexesFormat(): Format<Dict<seq<Index>>> { DictFormat(IndexListFormat(), Appended) }

  type RawSegments = (seq<Table>, (Dict<seq<StoredRow>>, (Dict<Signed>, Dict<seq<Index>>)))

  function RawSegmentsFormat(): Format<RawSegments> {
    Pair(Counted(TableFormat()), Pair(TableRowsFormat(), Pair(CountersFormat(), IndexesFormat())))
  }

  function ToSegments(s: RawSegments): Option<Segments> { Some(Segments(s.0, s.1.0, s.1.1.0, s.1.1.1)) }
  function OfSegments(s: Segments): RawSegments { (s.tables, (s.tableRows, (s.counters, s.indexes))) }
  predicate AnySegments(s: Segments) { true }

  function SegmentsFormat(): Format<Segments> { Via(RawSegmentsFormat(), ToSegments, OfSegments, AnySegments) }

  type RawHead = (Signed, (Signed, (Signed, nat)))

  function RawHeadFormat(): Format<RawHead> { Pair(Signed64(), Pair(Signed64(), Pair(Signed64(), Word32()))) }

  function ToHead(h: RawHead): Option<Head> { Some(Head(h.0, h.1.0, h.1.1.0, h.1.1.1)) }
  function OfHead(h: Head): RawHead { (h.version, (h.lastSeq, (h.timestamp, h.nextXid))) }
  predicate AnyHead(h: Head) { true }

  function HeadFormat(): Format<Head> { Via(RawHeadFormat(), ToHead, OfHead, AnyHead) }

  function BlobsFormat(): Format<(Bytes, Bytes)> { Pair(Text32(), Text32()) }

  type RawBody = (Head, (Segments, (Bytes, Bytes)))

  function BodyFormat(): Format<RawBody> { Pair(HeadFormat(), Pair(SegmentsFormat(), BlobsFormat())) }

  /** A commit log is binary when it starts with the magic of one. */
  function Sniffed(s: Bytes): Blob {
    if ClogCodec.MAGIC <= s then Embedded(s) else JsonOrAbsent(s)
  }

  function JsonOrAbsent(s: Bytes): Blob { if s == [] then Absent else Json(s) }

  function BlobBytes(b: Blob): Bytes {
    match b
    case Absent => []
    case Embedded(bytes) => bytes
    case Json(text) => text
  }

  function Interpreted(version: nat, body: RawBody): Option<Checkpoint> {
    if version == VERSION_3 then Some(Checkpoint(body.0, body.1.0, Sniffed(body.1.1.0), Embedded(body.1.1.1)))
    else if version == VERSION_2 then Some(Checkpoint(body.0, body.1.0, JsonOrAbsent(body.1.1.0), JsonOrAbsent(body.1.1.1)))
    else None
  }

  function ToCheckpoint(c: (nat, RawBody)): Option<Checkpoint> { Interpreted(c.0, c.1) }

  /** Only the current version is written. */
  function OfCheckpoint(c: Checkpoint): (nat, RawBody) {
    (VERSION_3, (c.head, (c.segments, (BlobBytes(c.clog), BlobBytes(c.catalog)))))
  }

  predicate Current(c: Checkpoint) { Sniffed(BlobBytes(c.clog)) == c.clog && c.catalog.Embedded? }

  function CheckpointFormat(): Format<Checkpoint> { Via(Pair(Word32(), BodyFormat()), ToCheckpoint, OfCheckpoint, Current) }

  // ---------- all of them are sound ----------

  lemma TableSound()
    ensures Sound(TableFormat())
  {
    var columns := Counted(ColumnFormat());
    Text16Sound();
    ColumnSound();
    CountedSound(ColumnFormat());
    Signed64Sound();
    PairSound(columns, Signed64());
    PairSound(Text16(), Pair(columns, Signed64()));
    assert forall t: Table :: BackAndForth(ToTable, OfTable, t);
    ViaSound(Pair(Text16(), Pair(columns, Signed64())), ToTable, OfTable, AnyTable);
  }

  lemma TableRowsSound()
    ensures Sound(TableRowsFormat())
  {
    Signed64Sound();
    RowSound();
    PairSound(Signed64(), RowFormat());
    CountedSound(StoredRowFormat());
    DictSound(RowsFormat(), Appended);
  }

  lemma IndexSound()
    ensures Sound(IndexFormat())
  {
    Signed64Sound();
    CountedSound(Signed64());
    DictSound(PositionsFormat(), Newer);
    Text16Sound();
    PairSound(Text16(), PostingsFormat());
    assert forall i: Index :: BackAndForth(ToIndex, OfIndex, i);
    ViaSound(Pair(Text16(), PostingsFormat()), ToIndex, OfIndex, AnyIndex);
  }

  lemma SegmentsSound()
    ensures Sound(SegmentsFormat())
  {
    TableSound();
    CountedSound(TableFormat());
    TableRowsSound();
    Signed64Sound();
    DictSound(Signed64(), Newer);
    IndexSound();
    CountedSound(IndexFormat());
    DictSound(IndexListFormat(), Appended);
    PairSound(CountersFormat(), IndexesFormat());
    PairSound(TableRowsFormat(), Pair(CountersFormat(), IndexesFormat()));
    PairSound(Counted(TableFormat()), Pair(TableRowsFormat(), Pair(CountersFormat(), IndexesFormat())));
    assert forall s: Segments :: BackAndForth(ToSegments, OfSegments, s);
    ViaSound(RawSegmentsFormat(), ToSegments, OfSegments, AnySegments);
  }

  lemma HeadSound()
    ensures Sound(HeadFormat())
  {
    Signed64Sound();
    Word32Sound();
    PairSound(Signed64(), Word32());
    PairSound(Signed64(), Pair(Signed64(), Word32()));
    PairSound(Signed64(), Pair(Signed64(), Pair(Signed64(), Word32())));
    assert forall h: Head :: BackAndForth(ToHead, OfHead, h);
    ViaSound(RawHeadFormat(), ToHead, OfHead, AnyHead);
  }

  lemma BodySound()
    ensures Sound(BodyFormat())
  {
    HeadSound();
    SegmentsSound();
    Text32Sound();
    PairSound(Text32(), Text32());
    PairSound(SegmentsFormat(), BlobsFormat());
    PairSound(HeadFormat(), Pair(SegmentsFormat(), BlobsFormat()));
  }

  lemma CheckpointSound()
    ensures Sound(CheckpointFormat())
  {
    BodySound();
    Word32Sound();
    PairSound(Word32(), BodyFormat());
    assert forall c: Checkpoint :: Current(c) ==> BackAndForth(ToCheckpoint, OfCheckpoint, c);
    ViaSound(Pair(Word32(), BodyFormat()), ToCheckpoint, OfCheckpoint, Current);
  }

  /** Decoding an encoded checkpoint gives it back and decoding any strict prefix of it fails. */
  lemma CheckpointReadsBack()
    ensures ReadsBack(CheckpointFormat())
  {
    CheckpointSound();
    SoundReadsBack(CheckpointFormat());
  }

  /** The whole nest: a checkpoint that carries an encoded commit log and catalog gives both of them back. */
  lemma SavedStateReadsBack(c: Checkpoint, log: Mvcc.CLog, xids: seq<Mvcc.Xid>, state: Catalogs.State)
    requires c.clog == Embedded(ClogCodec.Encoded(xids, log)) && c.catalog == Embedded(Catalogs.Encoded(state))
    requires CheckpointFormat().fits(c) && ClogCodec.Lists(xids, log) && ClogCodec.Fits(xids)
    requires Catalogs.Kept(state) && Catalogs.Fits(state) && state.current != []
    ensures DecodeAll(CheckpointFormat(), CheckpointFormat().enc(c)) == Some(c)
    ensures ClogCodec.Decoded(BlobBytes(c.clog), map[]) == Some(log)
    ensures Catalogs.Decoded(BlobBytes(c.catalog), Catalogs.Fresh()) == Catalogs.Read(state)
  {
    Returned(c);
    ClogCodec.LogReadsBack(log, xids, map[]);
    Catalogs.CatalogReadsBackExactly(state);
  }

  lemma Returned(c: Checkpoint)
    requires CheckpointFormat().fits(c)
    ensures DecodeAll(CheckpointFormat(), CheckpointFormat().enc(c)) == Some(c)
  {
    CheckpointSound();
    WholeRoundTrip(CheckpointFormat(), c);
  }

  /** A binary commit log is always told from an older JSON one. */
  lemma BinaryLogIsSniffed(log: Mvcc.CLog, xids: seq<Mvcc.Xid>)
    ensures Sniffed(ClogCodec.Encoded(xids, log)) == Embedded(ClogCodec.Encoded(xids, log))
  {
    ClogCodec.HeadBytes(ClogCodec.EntriesOf(xids, log));
    StartsWith(ClogCodec.MAGIC, Put32(ClogCodec.VERSION), Put32(|ClogCodec.EntriesOf(xids, log)|),
               Written(ClogCodec.EntryFormat(), ClogCodec.EntriesOf(xids, log)));
  }

  lemma StartsWith(a: Bytes, b: Bytes, c: Bytes, d: Bytes)
    ensures a <= a + b + c + d
  {
  }

  // ---------- decoding ----------

  method DecodeSigned(r: PayloadReader, ghost f: Format<Signed>) returns (ok: bool, n: Signed)
    requires r.Valid() && ReadsAs(f, Signed64())
    modifies r`pos
    ensures r.Valid() && Took(f, old(r.Left()), ok, n, r.Left())
  {
    ghost var was := r.Left();
    ok, n := r.ReadI64();
    TookAlike(f, Signed64(), was, ok, n, r.Left());
  }

  method DecodeTable(r: PayloadReader, ghost f: Format<Table>) returns (ok: bool, t: Table)
    requires r.Valid() && ReadsAs(f, TableFormat())
    modifies r`pos
    ensures r.Valid() && Took(f, old(r.Left()), ok, t, r.Left())
  {
    ghost var was := r.Left();
    var name, columns, rowCount := [], [], 0;
    ok, name := r.ReadString16();
    ghost var mid, first := r.Left(), ok;
    if ok { ok, columns := DecodeColumns(r, ColumnFormat()); }
    ghost var late, second := r.Left(), ok;
    if ok { ok, rowCount := r.ReadI64(); }
    t := Table(name, columns, rowCount);
    if first { TookPair(Counted(ColumnFormat()), Signed64(), mid, second, columns, late, ok, rowCount, r.Left()); }
    ghost var rest := Pair(Counted(ColumnFormat()), Signed64());
    TookPair(Text16(), rest, was, first, name, mid, ok, (columns, rowCount), r.Left());
    TookVia(Pair(Text16(), rest), ToTable, OfTable, AnyTable, was, ok, (name, (columns, rowCount)), t, r.Left());
    TookAlike(f, TableFormat(), was, ok, t, r.Left());
  }

  method DecodeTables(r: PayloadReader, ghost f: Format<Table>) returns (ok: bool, xs: seq<Table>)
    requires r.Valid() && ReadsAs(f, TableFormat())
    modifies r`pos
    ensures r.Valid() && Took(Counted(f), old(r.Left()), ok, xs, r.Left())
  {
    ghost var was := r.Left();
    xs := [];
    var count;
    ok, count := r.ReadU32();
    ghost var start, first := r.Left(), ok;
    if ok { ok, xs := DecodeTablesOf(r, count, f); }
    TookList(Word32(), f, was, first, count, start, ok, xs, r.Left());
  }

  method DecodeTablesOf(r: PayloadReader, count: nat, ghost f: Format<Table>) returns (ok: bool, xs: seq<Table>)
    requires r.Valid() && ReadsAs(f, TableFormat())
    modifies r`pos
    ensures r.Valid() && Many(f, count, old(r.Left())) == if ok then Some((xs, r.Left())) else None
  {
    ok, xs := true, [];
    ghost var start := r.Left();
    for i := 0 to count
      invariant r.Valid() && ok && Through(f, start, xs, r.Left()) && |xs| == i
    {
      ghost var was := r.Left();
      var x;
      ok, x := DecodeTable(r, f);
      ThroughTook(f, count, start, xs, was, ok, x, r.Left());
      if !ok { return; }
      xs := xs + [x];
    }
    ThroughAll(f, start, xs, r.Left());
  }

  method DecodeStoredRow(r: PayloadReader, ghost f: Format<StoredRow>) returns (ok: bool, x: StoredRow)
    requires r.Valid() && ReadsAs(f, StoredRowFormat())
    modifies r`pos
    ensures r.Valid() && Took(f, old(r.Left()), ok, x, r.Left())
  {
    ghost var was := r.Left();
    var rowid, row;
    ok, rowid, row := DecodeRowIdAndRow(r);
    x := (rowid, row);
    TookAlike(f, StoredRowFormat(), was, ok, x, r.Left());
  }

  method DecodeStoredRows(r: PayloadReader, ghost f: Format<StoredRow>) returns (ok: bool, xs: seq<StoredRow>)
    requires r.Valid() && ReadsAs(f, StoredRowFormat())
    modifies r`pos
    ensures r.Valid() && Took(Counted(f), old(r.Left()), ok, xs, r.Left())
  {
    ghost var was := r.Left();
    xs := [];
    var count;
    ok, count := r.ReadU32();
    ghost var start, first := r.Left(), ok;
    if ok { ok, xs := DecodeStoredRowsOf(r, count, f); }
    TookList(Word32(), f, was, first, count, start, ok, xs, r.Left());
  }

  method DecodeStoredRowsOf(r: PayloadReader, count: nat, ghost f: Format<StoredRow>) returns (ok: bool, xs: seq<StoredRow>)
    requires r.Valid() && ReadsAs(f, StoredRowFormat())
    modifies r`pos
    ensures r.Valid() && Many(f, count, old(r.Left())) == if ok then Some((xs, r.Left())) else None
  {
    ok, xs := true, [];
    ghost var start := r.Left();
    for i := 0 to count
      invariant r.Valid() && ok && Through(f, start, xs, r.Left()) && |xs| == i
    {
      ghost var was := r.Left();
      var x;
      ok, x := DecodeStoredRow(r, f);
      ThroughTook(f, count, start, xs, was, ok, x, r.Left());
      if !ok { return; }
      xs := xs + [x];
    }
    ThroughAll(f, start, xs, r.Left());
  }

  method DecodeRows(r: PayloadReader, ghost v: Format<seq<StoredRow>>) returns (ok: bool, xs: seq<StoredRow>)
    requires r.Valid() && ReadsAs(v, RowsFormat())
    modifies r`pos
    ensures r.Valid() && Took(v, old(r.Left()), ok, xs, r.Left())
  {
    ghost var was := r.Left();
    ok, xs := DecodeStoredRows(r, StoredRowFormat());
    TookAlike(v, RowsFormat(), was, ok, xs, r.Left());
  }

  method DecodeTableRows(r: PayloadReader, ghost v: Format<seq<StoredRow>>) returns (ok: bool, m: Dict<seq<StoredRow>>)
    requires r.Valid() && ReadsAs(v, RowsFormat())
    modifies r`pos
    ensures r.Valid() && Took(DictFormat(v, Appended), old(r.Left()), ok, m, r.Left())
  {
    ghost var was := r.Left();
    ghost var seen: seq<(Bytes, seq<StoredRow>)> := [];
    m := [];
    var count;
    ok, count := r.ReadU32();
    ghost var start, first := r.Left(), ok;
    if ok { ok, m, seen := DecodeTableRowsOf(r, count, Keyed(v), v); }
    TookDict(v, Appended, was, first, count, start, ok, seen, m, r.Left());
  }

  method DecodeTableRowsOf(r: PayloadReader, count: nat, ghost f: Format<(Bytes, seq<StoredRow>)>, ghost v: Format<seq<StoredRow>>)
    returns (ok: bool, m: Dict<seq<StoredRow>>, ghost seen: seq<(Bytes, seq<StoredRow>)>)
    requires r.Valid() && ReadsAs(f, Keyed(v)) && ReadsAs(v, RowsFormat())
    modifies r`pos
    ensures r.Valid() && m == Gather(seen, Appended)
    ensures Many(f, count, old(r.Left())) == if ok then Some((seen, r.Left())) else None
  {
    ok, m, seen := true, [], [];
    ghost var start := r.Left();
    for i := 0 to count
      invariant r.Valid() && ok && Through(f, start, seen, r.Left()) && |seen| == i
      invariant m == Gather(seen, Appended)
    {
      ghost var was := r.Left();
      var key, x;
      ok, key, x := DecodeTableRowsEntry(r, f, v);
      ThroughTook(f, count, start, seen, was, ok, (key, x), r.Left());
      if !ok { return; }
      m := Enter(m, key, x, Appended);
      GatherNext(seen, key, x, Appended);
      seen := seen + [(key, x)];
    }
    ThroughAll(f, start, seen, r.Left());
  }

  method DecodeTableRowsEntry(r: PayloadReader, ghost f: Format<(Bytes, seq<StoredRow>)>, ghost v: Format<seq<StoredRow>>) returns (ok: bool, key: Bytes, x: seq<StoredRow>)
    requires r.Valid() && ReadsAs(f, Keyed(v)) && ReadsAs(v, RowsFormat())
    modifies r`pos
    ensures r.Valid() && Took(f, old(r.Left()), ok, (key, x), r.Left())
  {
    ghost var was := r.Left();
    x := [];
    ok, key := r.ReadString16();
    ghost var mid, first := r.Left(), ok;
    if ok { ok, x := DecodeRows(r, v); }
    TookPair(Text16(), v, was, first, key, mid, ok, x, r.Left());
    TookAlike(f, Keyed(v), was, ok, (key, x), r.Left());
  }

  method DecodeCounters(r: PayloadReader, ghost v: Format<Signed>) returns (ok: bool, m: Dict<Signed>)
    requires r.Valid() && ReadsAs(v, Signed64())
    modifies r`pos
    ensures r.Valid() && Took(DictFormat(v, Newer), old(r.Left()), ok, m, r.Left())
  {
    ghost var was := r.Left();
    ghost var seen: seq<(Bytes, Signed)> := [];
    m := [];
    var count;
    ok, count := r.ReadU32();
    ghost var start, first := r.Left(), ok;
    if ok { ok, m, seen := DecodeCountersOf(r, count, Keyed(v), v); }
    TookDict(v, Newer, was, first, count, start, ok, seen, m, r.Left());
  }

  method DecodeCountersOf(r: PayloadReader, count: nat, ghost f: Format<(Bytes, Signed)>, ghost v: Format<Signed>)
    returns (ok: bool, m: Dict<Signed>, ghost seen: seq<(Bytes, Signed)>)
    requires r.Valid() && ReadsAs(f, Keyed(v)) && ReadsAs(v, Signed64())
    modifies r`pos
    ensures r.Valid() && m == Gather(seen, Newer)
    ensures Many(f, count, old(r.Left())) == if ok then Some((seen, r.Left())) else None
  {
    ok, m, seen := true, [], [];
    ghost var start := r.Left();
    for i := 0 to count
      invariant r.Valid() && ok && Through(f, start, seen, r.Left()) && |seen| == i
      invariant m == Gather(seen, Newer)
    {
      ghost var was := r.Left();
      var key, x;
      ok, key, x := DecodeCountersEntry(r, f, v);
      ThroughTook(f, count, start, seen, was, ok, (key, x), r.Left());
      if !ok { return; }
      m := Enter(m, key, x, Newer);
      GatherNext(seen, key, x, Newer);
      seen := seen + [(key, x)];
    }
    ThroughAll(f, start, seen, r.Left());
  }

  method DecodeCountersEntry(r: PayloadReader, ghost f: Format<(Bytes, Signed)>, ghost v: Format<Signed>) returns (ok: bool, key: Bytes, x: Signed)
    requires r.Valid() && ReadsAs(f, Keyed(v)) && ReadsAs(v, Signed64())
    modifies r`pos
    ensures r.Valid() && Took(f, old(r.Left()), ok, (key, x), r.Left())
  {
    ghost var was := r.Left();
    x := 0;
    ok, key := r.ReadString16();
    ghost var mid, first := r.Left(), ok;
    if ok { ok, x := DecodeSigned(r, v); }
    TookPair(Text16(), v, was, first, key, mid, ok, x, r.Left());
    TookAlike(f, Keyed(v), was, ok, (key, x), r.Left());
  }

  method DecodeSigneds(r: PayloadReader, ghost f: Format<Signed>) returns (ok: bool, xs: seq<Signed>)
    requires r.Valid() && ReadsAs(f, Signed64())
    modifies r`pos
    ensures r.Valid() && Took(Counted(f), old(r.Left()), ok, xs, r.Left())
  {
    ghost var was := r.Left();
    xs := [];
    var count;
    ok, count := r.ReadU32();
    ghost var start, first := r.Left(), ok;
    if ok { ok, xs := DecodeSignedsOf(r, count, f); }
    TookList(Word32(), f, was, first, count, start, ok, xs, r.Left());
  }

  method DecodeSignedsOf(r: PayloadReader, count: nat, ghost f: Format<Signed>) returns (ok: bool, xs: seq<Signed>)
    requires r.Valid() && ReadsAs(f, Signed64())
    modifies r`pos
    ensures r.Valid() && Many(f, count, old(r.Left())) == if ok then Some((xs, r.Left())) else None
  {
    ok, xs := true, [];
    ghost var start := r.Left();
    for i := 0 to count
      invariant r.Valid() && ok && Through(f, start, xs, r.Left()) && |xs| == i
    {
      ghost var was := r.Left();
      var x;
      ok, x := DecodeSigned(r, f);
      ThroughTook(f, count, start, xs, was, ok, x, r.Left());
      if !ok { return; }
      xs := xs + [x];
    }
    ThroughAll(f, start, xs, r.Left());
  }

  method DecodePositions(r: PayloadReader, ghost v: Format<seq<Signed>>) returns (ok: bool, xs: seq<Signed>)
    requires r.Valid() && ReadsAs(v, PositionsFormat())
    modifies r`pos
    ensures r.Valid() && Took(v, old(r.Left()), ok, xs, r.Left())
  {
    ghost var was := r.Left();
    ok, xs := DecodeSigneds(r, Signed64());
    TookAlike(v, PositionsFormat(), was, ok, xs, r.Left());
  }

  method DecodePostings(r: PayloadReader, ghost v: Format<seq<Signed>>) returns (ok: bool, m: Dict<seq<Signed>>)
    requires r.Valid() && ReadsAs(v, PositionsFormat())
    modifies r`pos
    ensures r.Valid() && Took(DictFormat(v, Newer), old(r.Left()), ok, m, r.Left())
  {
    ghost var was := r.Left();
    ghost var seen: seq<(Bytes, seq<Signed>)> := [];
    m := [];
    var count;
    ok, count := r.ReadU32();
    ghost var start, first := r.Left(), ok;
    if ok { ok, m, seen := DecodePostingsOf(r, count, Keyed(v), v); }
    TookDict(v, Newer, was, first, count, start, ok, seen, m, r.Left());
  }

  method DecodePostingsOf(r: PayloadReader, count: nat, ghost f: Format<(Bytes, seq<Signed>)>, ghost v: Format<seq<Signed>>)
    returns (ok: bool, m: Dict<seq<Signed>>, ghost seen: seq<(Bytes, seq<Signed>)>)
    requires r.Valid() && ReadsAs(f, Keyed(v)) && ReadsAs(v, PositionsFormat())
    modifies r`pos
    ensures r.Valid() && m == Gather(seen, Newer)
    ensures Many(f, count, old(r.Left())) == if ok then Some((seen, r.Left())) else None
  {
    ok, m, seen := true, [], [];
    ghost var start := r.Left();
    for i := 0 to count
      invariant r.Valid() && ok && Through(f, start, seen, r.Left()) && |seen| == i
      invariant m == Gather(seen, Newer)
    {
      ghost var was := r.Left();
      var key, x;
      ok, key, x := DecodePostingsEntry(r, f, v);
      ThroughTook(f, count, start, seen, was, ok, (key, x), r.Left());
      if !ok { return; }
      m := Enter(m, key, x, Newer);
      GatherNext(seen, key, x, Newer);
      seen := seen + [(key, x)];
    }
    ThroughAll(f, start, seen, r.Left());
  }

  method DecodePostingsEntry(r: PayloadReader, ghost f: Format<(Bytes, seq<Signed>)>, ghost v: Format<seq<Signed>>) returns (ok: bool, key: Bytes, x: seq<Signed>)
    requires r.Valid() && ReadsAs(f, Keyed(v)) && ReadsAs(v, PositionsFormat())
    modifies r`pos
    ensures r.Valid() && Took(f, old(r.Left()), ok, (key, x), r.Left())
  {
    ghost var was := r.Left();
    x := [];
    ok, key := r.ReadString16();
    ghost var mid, first := r.Left(), ok;
    if ok { ok, x := DecodePositions(r, v); }
    TookPair(Text16(), v, was, first, key, mid, ok, x, r.Left());
    TookAlike(f, Keyed(v), was, ok, (key, x), r.Left());
  }

  method DecodeIndex(r: PayloadReader, ghost f: Format<Index>) returns (ok: bool, x: Index)
    requires r.Valid() && ReadsAs(f, IndexFormat())
    modifies r`pos
    ensures r.Valid() && Took(f, old(r.Left()), ok, x, r.Left())
  {
    ghost var was := r.Left();
    var column, entries := [], [];
    ok, column := r.ReadString16();
    ghost var mid, first := r.Left(), ok;
    if ok { ok, entries := DecodePostings(r, PositionsFormat()); }
    x := Index(column, entries);
    TookPair(Text16(), PostingsFormat(), was, first, column, mid, ok, entries, r.Left());
    TookVia(Pair(Text16(), PostingsFormat()), ToIndex, OfIndex, AnyIndex, was, ok, (column, entries), x, r.Left());
    TookAlike(f, IndexFormat(), was, ok, x, r.Left());
  }

  method DecodeIndexes(r: PayloadReader, ghost f: Format<Index>) returns (ok: bool, xs: seq<Index>)
    requires r.Valid() && ReadsAs(f, IndexFormat())
    modifies r`pos
    ensures r.Valid() && Took(Counted(f), old(r.Left()), ok, xs, r.Left())
  {
    ghost var was := r.Left();
    xs := [];
    var count;
    ok, count := r.ReadU32();
    ghost var start, first := r.Left(), ok;
    if ok { ok, xs := DecodeIndexesOf(r, count, f); }
    TookList(Word32(), f, was, first, count, start, ok, xs, r.Left());
  }

  method DecodeIndexesOf(r: PayloadReader, count: nat, ghost f: Format<Index>) returns (ok: bool, xs: seq<Index>)
    requires r.Valid() && ReadsAs(f, IndexFormat())
    modifies r`pos
    ensures r.Valid() && Many(f, count, old(r.Left())) == if ok then Some((xs, r.Left())) else None
  {
    ok, xs := true, [];
    ghost var start := r.Left();
    for i := 0 to count
      invariant r.Valid() && ok && Through(f, start, xs, r.Left()) && |xs| == i
    {
      ghost var was := r.Left();
      var x;
      ok, x := DecodeIndex(r, f);
      ThroughTook(f, count, start, xs, was, ok, x, r.Left());
      if !ok { return; }
      xs := xs + [x];
    }
    ThroughAll(f, start, xs, r.Left());
  }

  method DecodeIndexList(r: PayloadReader, ghost v: Format<seq<Index>>) returns (ok: bool, xs: seq<Index>)
    requires r.Valid() && ReadsAs(v, IndexListFormat())
    modifies r`pos
    ensures r.Valid() && Took(v, old(r.Left()), ok, xs, r.Left())
  {
    ghost var was := r.Left();
    ok, xs := DecodeIndexes(r, IndexFormat());
    TookAlike(v, IndexListFormat(), was, ok, xs, r.Left());
  }

  method DecodeTableIndexes(r: PayloadReader, ghost v: Format<seq<Index>>) returns (ok: bool, m: Dict<seq<Index>>)
    requires r.Valid() && ReadsAs(v, IndexListFormat())
    modifies r`pos
    ensures r.Valid() && Took(DictFormat(v, Appended), old(r.Left()), ok, m, r.Left())
  {
    ghost var was := r.Left();
    ghost var seen: seq<(Bytes, seq<Index>)> := [];
    m := [];
    var count;
    ok, count := r.ReadU32();
    ghost var start, first := r.Left(), ok;
    if ok { ok, m, seen := DecodeTableIndexesOf(r, count, Keyed(v), v); }
    TookDict(v, Appended, was, first, count, start, ok, seen, m, r.Left());
  }

  method DecodeTableIndexesOf(r: PayloadReader, count: nat, ghost f: Format<(Bytes, seq<Index>)>, ghost v: Format<seq<Index>>)
    returns (ok: bool, m: Dict<seq<Index>>, ghost seen: seq<(Bytes, seq<Index>)>)
    requires r.Valid() && ReadsAs(f, Keyed(v)) && ReadsAs(v, IndexListFormat())
    modifies r`pos
    ensures r.Valid() && m == Gather(seen, Appended)
    ensures Many(f, count, old(r.Left())) == if ok then Some((seen, r.Left())) else None
  {
    ok, m, seen := true, [], [];
    ghost var start := r.Left();
    for i := 0 to count
      invariant r.Valid() && ok && Through(f, start, seen, r.Left()) && |seen| == i
      invariant m == Gather(seen, Appended)
    {
      ghost var was := r.Left();
      var key, x;
      ok, key, x := DecodeTableIndexesEntry(r, f, v);
      ThroughTook(f, count, start, seen, was, ok, (key, x), r.Left());
      if !ok { return; }
      m := Enter(m, key, x, Appended);
      GatherNext(seen, key, x, Appended);
      seen := seen + [(key, x)];
    }
    ThroughAll(f, start, seen, r.Left());
  }

  method DecodeTableIndexesEntry(r: PayloadReader, ghost f: Format<(Bytes, seq<Index>)>, ghost v: Format<seq<Index>>) returns (ok: bool, key: Bytes, x: seq<Index>)
    requires r.Valid() && ReadsAs(f, Keyed(v)) && ReadsAs(v, IndexListFormat())
    modifies r`pos
    ensures r.Valid() && Took(f, old(r.Left()), ok, (key, x), r.Left())
  {
    ghost var was := r.Left();
    x := [];
    ok, key := r.ReadString16();
    ghost var mid, first := r.Left(), ok;
    if ok { ok, x := DecodeIndexList(r, v); }
    TookPair(Text16(), v, was, first, key, mid, ok, x, r.Left());
    TookAlike(f, Keyed(v), was, ok, (key, x), r.Left());
  }

  method DecodeCommonSegments(r: PayloadReader) returns (ok: bool, s: Segments)
    requires r.Valid()
    modifies r`pos
    ensures r.Valid() && Took(SegmentsFormat(), old(r.Left()), ok, s, r.Left())
  {
    ghost var was := r.Left();
    var tables, rows, counters, indexes := [], [], [], [];
    ok, tables := DecodeTables(r, TableFormat());
    ghost var mid, first := r.Left(), ok;
    if ok { ok, rows, counters, indexes := DecodeTableData(r); }
    s := Segments(tables, rows, counters, indexes);
    ghost var rest := Pair(TableRowsFormat(), Pair(CountersFormat(), IndexesFormat()));
    TookPair(Counted(TableFormat()), rest, was, first, tables, mid, ok, (rows, (counters, indexes)), r.Left());
    TookVia(RawSegmentsFormat(), ToSegments, OfSegments, AnySegments, was, ok, (tables, (rows, (counters, indexes))), s, r.Left());
  }

  method DecodeTableData(r: PayloadReader)
    returns (ok: bool, rows: Dict<seq<StoredRow>>, counters: Dict<Signed>, indexes: Dict<seq<Index>>)
    requires r.Valid()
    modifies r`pos
    ensures r.Valid()
    ensures Took(Pair(TableRowsFormat(), Pair(CountersFormat(), IndexesFormat())), old(r.Left()), ok, (rows, (counters, indexes)), r.Left())
  {
    ghost var was := r.Left();
    counters, indexes := [], [];
    ok, rows := DecodeTableRows(r, RowsFormat());
    ghost var mid, first := r.Left(), ok;
    if ok { ok, counters := DecodeCounters(r, Signed64()); }
    ghost var late, second := r.Left(), ok;
    if ok { ok, indexes := DecodeTableIndexes(r, IndexListFormat()); }
    if first { TookPair(CountersFormat(), IndexesFormat(), mid, second, counters, late, ok, indexes, r.Left()); }
    TookPair(TableRowsFormat(), Pair(CountersFormat(), IndexesFormat()), was, first, rows, mid, ok, (counters, indexes), r.Left());
  }

  method DecodeHead(r: PayloadReader) returns (ok: bool, h: Head)
    requires r.Valid()
    modifies r`pos
    ensures r.Valid() && Took(HeadFormat(), old(r.Left()), ok, h, r.Left())
  {
    ghost var was := r.Left();
    var version, lastSeq, timestamp, nextXid := 0, 0, 0, 0;
    ok, version := r.ReadI64();
    ghost var mid, first := r.Left(), ok;
    if ok { ok, lastSeq := r.ReadI64(); }
    ghost var late, second := r.Left(), ok;
    if ok { ok, timestamp := r.ReadI64(); }
    ghost var last, third := r.Left(), ok;
    if ok { ok, nextXid := r.ReadU32(); }
    h := Head(version, lastSeq, timestamp, nextXid);
    if second { TookPair(Signed64(), Word32(), late, third, timestamp, last, ok, nextXid, r.Left()); }
    ghost var tail := Pair(Signed64(), Word32());
    if first { TookPair(Signed64(), tail, mid, second, lastSeq, late, ok, (timestamp, nextXid), r.Left()); }
    TookPair(Signed64(), Pair(Signed64(), tail), was, first, version, mid, ok, (lastSeq, (timestamp, nextXid)), r.Left());
    TookVia(RawHeadFormat(), ToHead, OfHead, AnyHead, was, ok, (version, (lastSeq, (timestamp, nextXid))), h, r.Left());
  }

  method DecodeBlobs(r: PayloadReader) returns (ok: bool, clog: Bytes, catalog: Bytes)
    requires r.Valid()
    modifies r`pos
    ensures r.Valid() && Took(BlobsFormat(), old(r.Left()), ok, (clog, catalog), r.Left())
  {
    ghost var was := r.Left();
    catalog := [];
    ok, clog := r.ReadString32();
    ghost var mid, first := r.Left(), ok;
    if ok { ok, catalog := r.ReadString32(); }
    TookPair(Text32(), Text32(), was, first, clog, mid, ok, catalog, r.Left());
  }

  method DecodeBody(r: PayloadReader) returns (ok: bool, body: RawBody)
    requires r.Valid()
    modifies r`pos
    ensures r.Valid() && Took(BodyFormat(), old(r.Left()), ok, body, r.Left())
  {
    ghost var was := r.Left();
    var head, segments, clog, catalog := Head(0, 0, 0, 0), Segments([], [], [], []), [], [];
    ok, head := DecodeHead(r);
    ghost var mid, first := r.Left(), ok;
    if ok { ok, segments := DecodeCommonSegments(r); }
    ghost var late, second := r.Left(), ok;
    if ok { ok, clog, catalog := DecodeBlobs(r); }
    body := (head, (segments, (clog, catalog)));
    if first { TookPair(SegmentsFormat(), BlobsFormat(), mid, second, segments, late, ok, (clog, catalog), r.Left()); }
    TookPair(HeadFormat(), Pair(SegmentsFormat(), BlobsFormat()), was, first, head, mid, ok, (segments, (clog, catalog)), r.Left());
  }

  method DecodeCheckpoint(bytes: Bytes) returns (out: Option<Checkpoint>)
    ensures out == DecodeAll(CheckpointFormat(), bytes)
  {
    var r := new PayloadReader(bytes);
    var ok, version := r.ReadU32();
    ghost var mid := r.Left();
    if !ok || (version != VERSION_2 && version != VERSION_3) {
      UnknownVersion(bytes, ok, version, mid);
      return None;
    }
    var body;
    ok, body := DecodeBody(r);
    WholeCheckpoint(bytes, version, mid, ok, body, r.Left());
    var end := r.AtEnd();
    out := if ok && end then Interpreted(version, body) else None;
  }

  lemma UnknownVersion(bytes: Bytes, ok: bool, version: nat, mid: Bytes)
    requires Took(Word32(), bytes, ok, version, mid) && (ok ==> version != VERSION_2 && version != VERSION_3)
    ensures DecodeAll(CheckpointFormat(), bytes) == None
  {
    PairHead(Word32(), BodyFormat(), bytes);
    ViaNone(Pair(Word32(), BodyFormat()), ToCheckpoint, OfCheckpoint, Current, bytes);
  }

  lemma WholeCheckpoint(bytes: Bytes, version: nat, mid: Bytes, ok: bool, body: RawBody, left: Bytes)
    requires Took(Word32(), bytes, true, version, mid) && Took(BodyFormat(), mid, ok, body, left)
    requires version == VERSION_2 || version == VERSION_3
    ensures DecodeAll(CheckpointFormat(), bytes) == if ok && left == [] then Interpreted(version, body) else None
  {
    var c := Interpreted(version, body).value;
    TookPair(Word32(), BodyFormat(), bytes, true, version, mid, ok, body, left);
    TookVia(Pair(Word32(), BodyFormat()), ToCheckpoint, OfCheckpoint, Current, bytes, ok, (version, body), c, left);
    TookAll(CheckpointFormat(), bytes, ok, c, left);
  }

  // ---------- encoding ----------

  lemma {:induction false} WrittenAlike<T(!new)>(f: Format<T>, g: Format<T>, xs: seq<T>)
    requires WritesAs(f, g)
    ensures Written(f, xs) == Written(g, xs)
  {
    if xs != [] {
      assert EncAlike(f, g, xs[0]);
      WrittenAlike(f, g, xs[1..]);
    }
  }

  lemma DictBytesAs<V(!new)>(f: Format<(Bytes, V)>, v: Format<V>, merge: (V, V) -> V, m: Dict<V>)
    requires WritesAs(f, Keyed(v))
    ensures DictFormat(v, merge).enc(m) == Put32(|m|) + Written(f, m)
  {
    DictBytes(v, merge, m);
    WrittenAlike(f, Keyed(v), m);
  }

  method EncodeSigned(buf: Bytes, n: Signed, ghost f: Format<Signed>) returns (b: Bytes)
    requires WritesAs(f, Signed64())
    ensures b == buf + f.enc(n)
  {
    b := PutI64(buf, n);
    assert EncAlike(f, Signed64(), n);
  }

  method EncodeTable(buf: Bytes, t: Table, ghost f: Format<Table>) returns (b: Bytes)
    requires WritesAs(f, TableFormat())
    ensures b == buf + f.enc(t)
  {
    b := PutString16(buf, t.name);
    b := EncodeColumns(b, t.columns, ColumnFormat());
    b := PutI64(b, t.rowCount);
    TableBytes(t);
    Parts3(buf, Text16().enc(t.name), Counted(ColumnFormat()).enc(t.columns), Signed64().enc(t.rowCount));
    assert EncAlike(f, TableFormat(), t);
  }

  lemma TableBytes(t: Table)
    ensures TableFormat().enc(t) == Text16().enc(t.name) + (Counted(ColumnFormat()).enc(t.columns) + Signed64().enc(t.rowCount))
  {
    var rest := Pair(Counted(ColumnFormat()), Signed64());
    ViaBytes(Pair(Text16(), rest), ToTable, OfTable, AnyTable, t);
    PairBytes(Text16(), rest, t.name, (t.columns, t.rowCount));
    PairBytes(Counted(ColumnFormat()), Signed64(), t.columns, t.rowCount);
  }

  lemma Parts3(buf: Bytes, x: Bytes, y: Bytes, z: Bytes)
    ensures ((buf + x) + y) + z == buf + (x + (y + z))
  {
  }

  lemma Parts4(buf: Bytes, x: Bytes, y: Bytes, z: Bytes, w: Bytes)
    ensures (((buf + x) + y) + z) + w == buf + (x + (y + (z + w)))
  {
  }

  method EncodeTables(buf: Bytes, xs: seq<Table>, ghost f: Format<Table>) returns (b: Bytes)
    requires WritesAs(f, TableFormat())
    ensures b == buf + Counted(f).enc(xs)
  {
    b := buf + Put32(|xs|);
    ghost var head := b;
    for i := 0 to |xs|
      invariant b == head + Written(f, xs[..i])
    {
      WrittenLast(f, xs[..i], xs[i]);
      assert xs[..i] + [xs[i]] == xs[..i + 1];
      Regroup(head, Written(f, xs[..i]), f.enc(xs[i]));
      b := EncodeTable(b, xs[i], f);
    }
    assert xs[..|xs|] == xs;
    Regroup(buf, Put32(|xs|), Written(f, xs));
    ListBytes(Word32(), f, xs);
  }

  method EncodeStoredRow(buf: Bytes, x: StoredRow, ghost f: Format<StoredRow>) returns (b: Bytes)
    requires WritesAs(f, StoredRowFormat())
    ensures b == buf + f.enc(x)
  {
    b := PutI64(buf, x.0);
    b := EncodeRowInto(b, x.1);
    Regroup(buf, Signed64().enc(x.0), RowFormat().enc(x.1));
    PairBytes(Signed64(), RowFormat(), x.0, x.1);
    assert EncAlike(f, StoredRowFormat(), x) && x == (x.0, x.1);
  }

  method EncodeStoredRows(buf: Bytes, xs: seq<StoredRow>, ghost f: Format<StoredRow>) returns (b: Bytes)
    requires WritesAs(f, StoredRowFormat())
    ensures b == buf + Counted(f).enc(xs)
  {
    b := buf + Put32(|xs|);
    ghost var head := b;
    for i := 0 to |xs|
      invariant b == head + Written(f, xs[..i])
    {
      WrittenLast(f, xs[..i], xs[i]);
      assert xs[..i] + [xs[i]] == xs[..i + 1];
      Regroup(head, Written(f, xs[..i]), f.enc(xs[i]));
      b := EncodeStoredRow(b, xs[i], f);
    }
    assert xs[..|xs|] == xs;
    Regroup(buf, Put32(|xs|), Written(f, xs));
    ListBytes(Word32(), f, xs);
  }

  method EncodeRows(buf: Bytes, xs: seq<StoredRow>, ghost v: Format<seq<StoredRow>>) returns (b: Bytes)
    requires WritesAs(v, RowsFormat())
    ensures b == buf + v.enc(xs)
  {
    b := EncodeStoredRows(buf, xs, StoredRowFormat());
    assert EncAlike(v, RowsFormat(), xs);
  }

  method EncodeTableRows(buf: Bytes, m: Dict<seq<StoredRow>>, ghost f: Format<(Bytes, seq<StoredRow>)>, ghost v: Format<seq<StoredRow>>) returns (b: Bytes)
    requires WritesAs(f, Keyed(v)) && WritesAs(v, RowsFormat())
    ensures b == buf + DictFormat(v, Appended).enc(m)
  {
    b := buf + Put32(|m|);
    ghost var head := b;
    for i := 0 to |m|
      invariant b == head + Written(f, m[..i])
    {
      WrittenLast(f, m[..i], m[i]);
      assert m[..i] + [m[i]] == m[..i + 1];
      Regroup(head, Written(f, m[..i]), f.enc(m[i]));
      b := EncodeTableRowsEntry(b, m[i], f, v);
    }
    assert m[..|m|] == m;
    Regroup(buf, Put32(|m|), Written(f, m));
    DictBytesAs(f, v, Appended, m);
  }

  method EncodeTableRowsEntry(buf: Bytes, e: (Bytes, seq<StoredRow>), ghost f: Format<(Bytes, seq<StoredRow>)>, ghost v: Format<seq<StoredRow>>) returns (b: Bytes)
    requires WritesAs(f, Keyed(v)) && WritesAs(v, RowsFormat())
    ensures b == buf + f.enc(e)
  {
    b := PutString16(buf, e.0);
    b := EncodeRows(b, e.1, v);
    Regroup(buf, Text16().enc(e.0), v.enc(e.1));
    PairBytes(Text16(), v, e.0, e.1);
    assert EncAlike(f, Keyed(v), e) && e == (e.0, e.1);
  }

  method EncodeCounters(buf: Bytes, m: Dict<Signed>, ghost f: Format<(Bytes, Signed)>, ghost v: Format<Signed>) returns (b: Bytes)
    requires WritesAs(f, Keyed(v)) && WritesAs(v, Signed64())
    ensures b == buf + DictFormat(v, Newer).enc(m)
  {
    b := buf + Put32(|m|);
    ghost var head := b;
    for i := 0 to |m|
      invariant b == head + Written(f, m[..i])
    {
      WrittenLast(f, m[..i], m[i]);
      assert m[..i] + [m[i]] == m[..i + 1];
      Regroup(head, Written(f, m[..i]), f.enc(m[i]));
      b := EncodeCountersEntry(b, m[i], f, v);
    }
    assert m[..|m|] == m;
    Regroup(buf, Put32(|m|), Written(f, m));
    DictBytesAs(f, v, Newer, m);
  }

  method EncodeCountersEntry(buf: Bytes, e: (Bytes, Signed), ghost f: Format<(Bytes, Signed)>, ghost v: Format<Signed>) returns (b: Bytes)
    requires WritesAs(f, Keyed(v)) && WritesAs(v, Signed64())
    ensures b == buf + f.enc(e)
  {
    b := PutString16(buf, e.0);
    b := EncodeSigned(b, e.1, v);
    Regroup(buf, Text16().enc(e.0), v.enc(e.1));
    PairBytes(Text16(), v, e.0, e.1);
    assert EncAlike(f, Keyed(v), e) && e == (e.0, e.1);
  }

  method EncodeSigneds(buf: Bytes, xs: seq<Signed>, ghost f: Format<Signed>) returns (b: Bytes)
    requires WritesAs(f, Signed64())
    ensures b == buf + Counted(f).enc(xs)
  {
    b := buf + Put32(|xs|);
    ghost var head := b;
    for i := 0 to |xs|
      invariant b == head + Written(f, xs[..i])
    {
      WrittenLast(f, xs[..i], xs[i]);
      assert xs[..i] + [xs[i]] == xs[..i + 1];
      Regroup(head, Written(f, xs[..i]), f.enc(xs[i]));
      b := EncodeSigned(b, xs[i], f);
    }
    assert xs[..|xs|] == xs;
    Regroup(buf, Put32(|xs|), Written(f, xs));
    ListBytes(Word32(), f, xs);
  }

  method EncodePositions(buf: Bytes, xs: seq<Signed>, ghost v: Format<seq<Signed>>) returns (b: Bytes)
    requires WritesAs(v, PositionsFormat())
    ensures b == buf + v.enc(xs)
  {
    b := EncodeSigneds(buf, xs, Signed64());
    assert EncAlike(v, PositionsFormat(), xs);
  }

  method EncodePostings(buf: Bytes, m: Dict<seq<Signed>>, ghost f: Format<(Bytes, seq<Signed>)>, ghost v: Format<seq<Signed>>) returns (b: Bytes)
    requires WritesAs(f, Keyed(v)) && WritesAs(v, PositionsFormat())
    ensures b == buf + DictFormat(v, Newer).enc(m)
  {
    b := buf + Put32(|m|);
    ghost var head := b;
    for i := 0 to |m|
      invariant b == head + Written(f, m[..i])
    {
      WrittenLast(f, m[..i], m[i]);
      assert m[..i] + [m[i]] == m[..i + 1];
      Regroup(head, Written(f, m[..i]), f.enc(m[i]));
      b := EncodePostingsEntry(b, m[i], f, v);
    }
    assert m[..|m|] == m;
    Regroup(buf, Put32(|m|), Written(f, m));
    DictBytesAs(f, v, Newer, m);
  }

  method EncodePostingsEntry(buf: Bytes, e: (Bytes, seq<Signed>), ghost f: Format<(Bytes, seq<Signed>)>, ghost v: Format<seq<Signed>>) returns (b: Bytes)
    requires WritesAs(f, Keyed(v)) && WritesAs(v, PositionsFormat())
    ensures b == buf + f.enc(e)
  {
    b := PutString16(buf, e.0);
    b := EncodePositions(b, e.1, v);
    Regroup(buf, Text16().enc(e.0), v.enc(e.1));
    PairBytes(Text16(), v, e.0, e.1);
    assert EncAlike(f, Keyed(v), e) && e == (e.0, e.1);
  }

  method EncodeIndex(buf: Bytes, x: Index, ghost f: Format<Index>) returns (b: Bytes)
    requires WritesAs(f, IndexFormat())
    ensures b == buf + f.enc(x)
  {
    b := PutString16(buf, x.column);
    b := EncodePostings(b, x.entries, Keyed(PositionsFormat()), PositionsFormat());
    Regroup(buf, Text16().enc(x.column), PostingsFormat().enc(x.entries));
    ViaBytes(Pair(Text16(), PostingsFormat()), ToIndex, OfIndex, AnyIndex, x);
    PairBytes(Text16(), PostingsFormat(), x.column, x.entries);
    assert EncAlike(f, IndexFormat(), x);
  }

  method EncodeIndexes(buf: Bytes, xs: seq<Index>, ghost f: Format<Index>) returns (b: Bytes)
    requires WritesAs(f, IndexFormat())
    ensures b == buf + Counted(f).enc(xs)
  {
    b := buf + Put32(|xs|);
    ghost var head := b;
    for i := 0 to |xs|
      invariant b == head + Written(f, xs[..i])
    {
      WrittenLast(f, xs[..i], xs[i]);
      assert xs[..i] + [xs[i]] == xs[..i + 1];
      Regroup(head, Written(f, xs[..i]), f.enc(xs[i]));
      b := EncodeIndex(b, xs[i], f);
    }
    assert xs[..|xs|] == xs;
    Regroup(buf, Put32(|xs|), Written(f, xs));
    ListBytes(Word32(), f, xs);
  }

  method EncodeIndexList(buf: Bytes, xs: seq<Index>, ghost v: Format<seq<Index>>) returns (b: Bytes)
    requires WritesAs(v, IndexListFormat())
    ensures b == buf + v.enc(xs)
  {
    b := EncodeIndexes(buf, xs, IndexFormat());
    assert EncAlike(v, IndexListFormat(), xs);
  }

  method EncodeTableIndexes(buf: Bytes, m: Dict<seq<Index>>, ghost f: Format<(Bytes, seq<Index>)>, ghost v: Format<seq<Index>>) returns (b: Bytes)
    requires WritesAs(f, Keyed(v)) && WritesAs(v, IndexListFormat())
    ensures b == buf + DictFormat(v, Appended).enc(m)
  {
    b := buf + Put32(|m|);
    ghost var head := b;
    for i := 0 to |m|
      invariant b == head + Written(f, m[..i])
    {
      WrittenLast(f, m[..i], m[i]);
      assert m[..i] + [m[i]] == m[..i + 1];
      Regroup(head, Written(f, m[..i]), f.enc(m[i]));
      b := EncodeTableIndexesEntry(b, m[i], f, v);
    }
    assert m[..|m|] == m;
    Regroup(buf, Put32(|m|), Written(f, m));
    DictBytesAs(f, v, Appended, m);
  }

  method EncodeTableIndexesEntry(buf: Bytes, e: (Bytes, seq<Index>), ghost f: Format<(Bytes, seq<Index>)>, ghost v: Format<seq<Index>>) returns (b: Bytes)
    requires WritesAs(f, Keyed(v)) && WritesAs(v, IndexListFormat())
    ensures b == buf + f.enc(e)
  {
    b := PutString16(buf, e.0);
    b := EncodeIndexList(b, e.1, v);
    Regroup(buf, Text16().enc(e.0), v.enc(e.1));
    PairBytes(Text16(), v, e.0, e.1);
    assert EncAlike(f, Keyed(v), e) && e == (e.0, e.1);
  }

  method EncodeHead(buf: Bytes, h: Head) returns (b: Bytes)
    ensures b == buf + HeadFormat().enc(h)
  {
    b := PutI64(buf, h.version);
    b := PutI64(b, h.lastSeq);
    b := PutI64(b, h.timestamp);
    b := b + Put32(h.nextXid);
    HeadBytes(h);
    Parts4(buf, Signed64().enc(h.version), Signed64().enc(h.lastSeq), Signed64().enc(h.timestamp), Put32(h.nextXid));
  }

  lemma HeadBytes(h: Head)
    ensures HeadFormat().enc(h) ==
            Signed64().enc(h.version) + (Signed64().enc(h.lastSeq) + (Signed64().enc(h.timestamp) + Put32(h.nextXid)))
  {
    ViaBytes(RawHeadFormat(), ToHead, OfHead, AnyHead, h);
    PairBytes(Signed64(), Pair(Signed64(), Pair(Signed64(), Word32())), h.version, (h.lastSeq, (h.timestamp, h.nextXid)));
    PairBytes(Signed64(), Pair(Signed64(), Word32()), h.lastSeq, (h.timestamp, h.nextXid));
    PairBytes(Signed64(), Word32(), h.timestamp, h.nextXid);
  }

  method EncodeSegments(buf: Bytes, s: Segments) returns (b: Bytes)
    ensures b == buf + SegmentsFormat().enc(s)
  {
    b := EncodeTables(buf, s.tables, TableFormat());
    b := EncodeTableRows(b, s.tableRows, Keyed(RowsFormat()), RowsFormat());
    b := EncodeCounters(b, s.counters, Keyed(Signed64()), Signed64());
    b := EncodeTableIndexes(b, s.indexes, Keyed(IndexListFormat()), IndexListFormat());
    SegmentsBytes(s);
    Parts4(buf, Counted(TableFormat()).enc(s.tables), TableRowsFormat().enc(s.tableRows), CountersFormat().enc(s.counters),
           IndexesFormat().enc(s.indexes));
  }

  lemma SegmentsBytes(s: Segments)
    ensures SegmentsFormat().enc(s) ==
            Counted(TableFormat()).enc(s.tables) +
            (TableRowsFormat().enc(s.tableRows) + (CountersFormat().enc(s.counters) + IndexesFormat().enc(s.indexes)))
  {
    ViaBytes(RawSegmentsFormat(), ToSegments, OfSegments, AnySegments, s);
    PairBytes(Counted(TableFormat()), Pair(TableRowsFormat(), Pair(CountersFormat(), IndexesFormat())), s.tables,
              (s.tableRows, (s.counters, s.indexes)));
    PairBytes(TableRowsFormat(), Pair(CountersFormat(), IndexesFormat()), s.tableRows, (s.counters, s.indexes));
    PairBytes(CountersFormat(), IndexesFormat(), s.counters, s.indexes);
  }

  method PutString32(buf: Bytes, s: Bytes) returns (b: Bytes)
    ensures b == buf + Text32().enc(s)
  {
    b := buf + Put32(|s|);
    b := b + s;
    Regroup(buf, Put32(|s|), s);
  }

  method EncodeCheckpoint(c: Checkpoint) returns (b: Bytes)
    ensures b == CheckpointFormat().enc(c)
  {
    b := Put32(VERSION_3);
    b := EncodeHead(b, c.head);
    b := EncodeSegments(b, c.segments);
    b := PutString32(b, BlobBytes(c.clog));
    b := PutString32(b, BlobBytes(c.catalog));
    CheckpointBytes(c);
    Parts4(Put32(VERSION_3), HeadFormat().enc(c.head), SegmentsFormat().enc(c.segments), Text32().enc(BlobBytes(c.clog)),
           Text32().enc(BlobBytes(c.catalog)));
  }

  lemma CheckpointBytes(c: Checkpoint)
    ensures CheckpointFormat().enc(c) ==
            Put32(VERSION_3) + (HeadFormat().enc(c.head) +
            (SegmentsFormat().enc(c.segments) + (Text32().enc(BlobBytes(c.clog)) + Text32().enc(BlobBytes(c.catalog)))))
  {
    var blobs := (BlobBytes(c.clog), BlobBytes(c.catalog));
    ViaBytes(Pair(Word32(), BodyFormat()), ToCheckpoint, OfCheckpoint, Current, c);
    PairBytes(Word32(), BodyFormat(), VERSION_3, (c.head, (c.segments, blobs)));
    PairBytes(HeadFormat(), Pair(SegmentsFormat(), BlobsFormat()), c.head, (c.segments, blobs));
    PairBytes(SegmentsFormat(), BlobsFormat(), c.segments, blobs);
    PairBytes(Text32(), Text32(), blobs.0, blobs.1);
  }
}
