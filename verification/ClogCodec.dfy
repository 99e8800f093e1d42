/** The commit log as bytes: a magic, a version and one status per transaction. */
module ClogCodec {
  import opened Keys
  import opened Mvcc
  import opened Binary
  import opened Wrappers
  import opened Formats
  import Payloads

  const MAGIC: Bytes := [0x43, 0x4C, 0x47, 0x42] // "CLGB"
  const VERSION: nat := 1

  type Entries = seq<(nat, Status)>

  function StatusByte(s: Status): Byte {
    match s
    case InProgress => 0
    case Committed => 1
    case Aborted => 2
    case SubCommitted => 3
  }

  /** A status byte above 3 is damage. */
  function ByteStatus(b: Byte): Option<Status> {
    if b == 0 then Some(InProgress)
    else if b == 1 then Some(Committed)
    else if b == 2 then Some(Aborted)
    else if b == 3 then Some(SubCommitted)
    else None
  }

  predicate AnyStatus(s: Status) { true }

  function StatusFormat(): Format<Status> { Via(Word8(), ByteStatus, StatusByte, AnyStatus) }

  function EntryFormat(): Format<(nat, Status)> { Pair(Word32(), StatusFormat()) }

  function LogFormat(): Format<((), ((), Entries))> {
    Pair(Literal(MAGIC), Pair(Exactly(VERSION), Counted(EntryFormat())))
  }

  /** The statuses set one after the other over what the log holds already. */
  function Overlaid(log: CLog, entries: Entries): CLog {
    if entries == [] then log
    else
      var last := entries[|entries| - 1];
      Overlaid(log, entries[..|entries| - 1])[last.0 := last.1]
  }

  function Decoded(bytes: Bytes, log: CLog): Option<CLog> {
    match DecodeAll(LogFormat(), bytes)
    case None => None
    case Some(got) => Some(Overlaid(log, got.1.1))
  }

  /** The transactions of the log in ascending order. */
  predicate Lists(xids: seq<Xid>, log: CLog) {
    && (forall i, j | 0 <= i < j < |xids| :: xids[i] < xids[j])
    && (forall x | x in log :: x in xids)
    && (forall i | 0 <= i < |xids| :: xids[i] in log)
  }

  function EntriesOf(xids: seq<Xid>, log: CLog): Entries {
    seq(|xids|, i requires 0 <= i < |xids| => (xids[i], StatusOf(log, xids[i])))
  }

  function Encoded(xids: seq<Xid>, log: CLog): Bytes { LogFormat().enc(((), ((), EntriesOf(xids, log)))) }

  // ---------- encoding and decoding undo each other ----------

  lemma StatusSound()
    ensures Sound(StatusFormat())
  {
    Word8Sound();
    assert forall s: Status :: BackAndForth(ByteStatus, StatusByte, s);
    ViaSound(Word8(), ByteStatus, StatusByte, AnyStatus);
  }

  lemma LogSound()
    ensures Sound(LogFormat())
  {
    StatusSound();
    Word32Sound();
    PairSound(Word32(), StatusFormat());
    CountedSound(EntryFormat());
    ExactlySound(VERSION);
    LiteralSound(MAGIC);
    PairSound(Exactly(VERSION), Counted(EntryFormat()));
    PairSound(Literal(MAGIC), Pair(Exactly(VERSION), Counted(EntryFormat())));
  }

  function Picked(xids: seq<Xid>, log: CLog): CLog { map x | x in xids :: StatusOf(log, x) }

  lemma {:induction false} OverlaidPicked(log: CLog, xids: seq<Xid>, base: CLog)
    ensures Overlaid(base, EntriesOf(xids, log)) == base + Picked(xids, log)
  {
    if xids == [] {
      assert Picked(xids, log) == map[];
    } else {
      var n := |xids| - 1;
      OverlaidPicked(log, xids[..n], base);
      assert xids == xids[..n] + [xids[n]];
      PickedStep(log, xids[..n], xids[n], base);
    }
  }

  lemma PickedStep(log: CLog, most: seq<Xid>, last: Xid, base: CLog)
    requires Overlaid(base, EntriesOf(most, log)) == base + Picked(most, log)
    ensures Overlaid(base, EntriesOf(most + [last], log)) == base + Picked(most + [last], log)
  {
    OverlaidLast(log, most, last, base);
    PickedLast(log, most, last);
    UpdateOfSum(base, Picked(most, log), last, StatusOf(log, last));
  }

  lemma UpdateOfSum(a: CLog, b: CLog, x: Xid, s: Status)
    ensures (a + b)[x := s] == a + b[x := s]
  {
  }

  lemma PickedLast(log: CLog, most: seq<Xid>, last: Xid)
    ensures Picked(most + [last], log) == Picked(most, log)[last := StatusOf(log, last)]
  {
  }

  lemma OverlaidLast(log: CLog, most: seq<Xid>, last: Xid, base: CLog)
    ensures Overlaid(base, EntriesOf(most + [last], log)) == Overlaid(base, EntriesOf(most, log))[last := StatusOf(log, last)]
  {
    assert (most + [last])[..|most|] == most;
    assert EntriesOf(most + [last], log)[..|most|] == EntriesOf(most, log);
  }

  lemma OverlaidIsUnion(log: CLog, xids: seq<Xid>, base: CLog)
    requires Lists(xids, log)
    ensures Overlaid(base, EntriesOf(xids, log)) == base + log
  {
    OverlaidPicked(log, xids, base);
    assert Picked(xids, log) == log;
  }

  predicate Fits(xids: seq<Xid>) {
    |xids| < 0x1_0000_0000 && forall i | 0 <= i < |xids| :: xids[i] < 0x1_0000_0000
  }

  lemma EntriesFit(xids: seq<Xid>, log: CLog)
    requires Fits(xids)
    ensures LogFormat().fits(((), ((), EntriesOf(xids, log))))
  {
    var e := EntriesOf(xids, log);
    forall i | 0 <= i < |e| ensures EntryFormat().fits(e[i]) {
      ViaFits(Word8(), ByteStatus, StatusByte, AnyStatus, e[i].1);
    }
    assert Exactly(VERSION).fits(()) by { ViaFits(Word32(), Being(VERSION), Held(VERSION), AnyUnit, ()); }
  }

  /** Decoding an encoded log sets exactly its statuses; into an empty log it gives the log back. */
  lemma LogReadsBack(log: CLog, xids: seq<Xid>, base: CLog)
    requires Lists(xids, log) && Fits(xids)
    ensures Decoded(Encoded(xids, log), base) == Some(base + log)
    ensures base == map[] ==> Decoded(Encoded(xids, log), base) == Some(log)
  {
    LogSound();
    EntriesFit(xids, log);
    WholeRoundTrip(LogFormat(), ((), ((), EntriesOf(xids, log))));
    DecodedFrom(Encoded(xids, log), base, EntriesOf(xids, log));
    OverlaidIsUnion(log, xids, base);
    OnEmpty(log);
  }

  lemma DecodedFrom(bytes: Bytes, base: CLog, e: Entries)
    requires DecodeAll(LogFormat(), bytes) == Some(((), ((), e)))
    ensures Decoded(bytes, base) == Some(Overlaid(base, e))
  {
  }

  lemma OnEmpty(log: CLog)
    ensures map[] + log == log
  {
  }

  lemma TornLogRejected(log: CLog, xids: seq<Xid>, base: CLog, b: Bytes)
    requires Lists(xids, log) && Fits(xids) && b < Encoded(xids, log)
    ensures Decoded(b, base) == None
  {
    LogSound();
    EntriesFit(xids, log);
    TornRejected(LogFormat(), ((), ((), EntriesOf(xids, log))), b);
  }

  // ---------- the codec ----------

  function Insert(xids: seq<Xid>, x: Xid): seq<Xid> {
    if xids == [] || x < xids[0] then [x] + xids
    else if x == xids[0] then xids
    else [xids[0]] + Insert(xids[1..], x)
  }

  lemma {:induction false} InsertKnows(xids: seq<Xid>, x: Xid)
    requires forall i, j | 0 <= i < j < |xids| :: xids[i] < xids[j]
    ensures forall i, j | 0 <= i < j < |Insert(xids, x)| :: Insert(xids, x)[i] < Insert(xids, x)[j]
    ensures forall y :: y in Insert(xids, x) <==> y == x || y in xids
  {
    if xids != [] && x > xids[0] {
      InsertKnows(xids[1..], x);
      assert xids == [xids[0]] + xids[1..];
      forall j | 0 <= j < |Insert(xids[1..], x)| ensures xids[0] < Insert(xids[1..], x)[j] {
        assert Insert(xids[1..], x)[j] in Insert(xids[1..], x);
      }
    }
  }

  method AllXids(log: CLog) returns (xids: seq<Xid>)
    ensures Lists(xids, log)
  {
    xids := [];
    var left := log.Keys;
    while left != {}
      invariant left <= log.Keys && forall i, j | 0 <= i < j < |xids| :: xids[i] < xids[j]
      invariant forall x :: x in xids <==> x in log && x !in left
      decreases left
    {
      var x :| x in left;
      InsertKnows(xids, x);
      xids := Insert(xids, x);
      left := left - {x};
    }
    forall i | 0 <= i < |xids| ensures xids[i] in log { assert xids[i] in xids; }
  }

  method Encode(log: CLog) returns (b: Bytes, xids: seq<Xid>)
    ensures Lists(xids, log) && b == Encoded(xids, log)
  {
    xids := AllXids(log);
    ghost var f := EntryFormat();
    b := MAGIC + Put32(VERSION);
    b := b + Put32(|xids|);
    b := AppendEntries(b, xids, log, f);
    HeadBytes(EntriesOf(xids, log));
  }

  /** The id and one status byte. */
  lemma EntryBytes(x: nat, s: Status)
    ensures EntryFormat().enc((x, s)) ==
            Put32(x) + [match s case InProgress => 0 case Committed => 1 case Aborted => 2 case SubCommitted => 3]
  {
    PairBytes(Word32(), StatusFormat(), x, s);
    ViaBytes(Word8(), ByteStatus, StatusByte, AnyStatus, s);
  }

  /** "CLGB", version 1, the number of entries, the entries. */
  lemma HeadBytes(e: Entries)
    ensures LogFormat().enc(((), ((), e))) == [0x43, 0x4C, 0x47, 0x42] + Put32(1) + Put32(|e|) + Written(EntryFormat(), e)
  {
    var entries := Counted(EntryFormat());
    PairBytes(Literal(MAGIC), Pair(Exactly(VERSION), entries), (), ((), e));
    PairBytes(Exactly(VERSION), entries, (), e);
    ViaBytes(Word32(), Being(VERSION), Held(VERSION), AnyUnit, ());
    ListBytes(Word32(), EntryFormat(), e);
    Regroup(MAGIC, Put32(VERSION), Put32(|e|) + Written(EntryFormat(), e));
    Regroup(MAGIC + Put32(VERSION), Put32(|e|), Written(EntryFormat(), e));
  }

  method AppendEntries(head: Bytes, xids: seq<Xid>, log: CLog, ghost f: Format<(nat, Status)>) returns (b: Bytes)
    requires WritesAs(f, EntryFormat())
    ensures b == head + Written(f, EntriesOf(xids, log))
  {
    b := head;
    for i := 0 to |xids|
      invariant b == head + Written(f, EntriesOf(xids[..i], log))
    {
      ghost var done := EntriesOf(xids[..i], log);
      EntriesNext(xids, i, log);
      var e := (xids[i], StatusOf(log, xids[i]));
      WrittenLast(f, done, e);
      Regroup(head, Written(f, done), f.enc(e));
      b := AppendEntry(b, e, f);
    }
    assert xids[..|xids|] == xids;
  }

  lemma EntriesNext(xids: seq<Xid>, i: nat, log: CLog)
    requires i < |xids|
    ensures EntriesOf(xids[..i + 1], log) == EntriesOf(xids[..i], log) + [(xids[i], StatusOf(log, xids[i]))]
  {
  }

  method AppendEntry(buf: Bytes, e: (nat, Status), ghost f: Format<(nat, Status)>) returns (b: Bytes)
    requires WritesAs(f, EntryFormat())
    ensures b == buf + f.enc(e)
  {
    b := buf + Put32(e.0);
    b := b + [StatusByte(e.1)];
    Regroup(buf, Put32(e.0), [StatusByte(e.1)]);
    PairBytes(Word32(), StatusFormat(), e.0, e.1);
    ViaBytes(Word8(), ByteStatus, StatusByte, AnyStatus, e.1);
    assert EncAlike(f, EntryFormat(), e) && e == (e.0, e.1);
  }

  /** Sets the statuses it reads as it goes; a failure leaves those already set. */
  method Decode(bytes: Bytes, base: CLog) returns (ok: bool, log: CLog)
    ensures Decoded(bytes, base) == if ok then Some(log) else None
  {
    log := base;
    if |bytes| < 4 + 4 + 4 || bytes[..4] != MAGIC {
      ShortFails(bytes);
      return false, log;
    }
    var r := new Payloads.PayloadReader(bytes);
    r.pos := 4;
    ghost var start, seen := r.Left(), [];
    ok, log, seen := DecodeRest(r, base);
    AfterMagic(bytes, base, start, ok, seen, r.Left(), log);
    ok := ok && r.pos == |bytes|;
  }

  lemma AfterMagic(bytes: Bytes, base: CLog, start: Bytes, ok: bool, seen: Entries, left: Bytes, log: CLog)
    requires |bytes| >= 4 && bytes[..4] == MAGIC && start == bytes[4..] && (ok ==> log == Overlaid(base, seen))
    requires Took(Pair(Exactly(VERSION), Counted(EntryFormat())), start, ok, ((), seen), left)
    ensures Decoded(bytes, base) == if ok && left == [] then Some(log) else None
  {
    assert Took(Literal(MAGIC), bytes, true, (), start);
    TookPair(Literal(MAGIC), Pair(Exactly(VERSION), Counted(EntryFormat())), bytes, true, (), start, ok, ((), seen), left);
    TookAll(LogFormat(), bytes, ok, ((), ((), seen)), left);
    if ok && left == [] { DecodedFrom(bytes, base, seen); }
  }

  /** From the version on. */
  method DecodeRest(r: Payloads.PayloadReader, base: CLog) returns (ok: bool, log: CLog, ghost seen: Entries)
    requires r.Valid()
    modifies r`pos
    ensures r.Valid() && Took(Pair(Exactly(VERSION), Counted(EntryFormat())), old(r.Left()), ok, ((), seen), r.Left())
    ensures ok ==> log == Overlaid(base, seen)
  {
    ghost var start := r.Left();
    log, seen := base, [];
    ok := DecodeVersion(r);
    ghost var mid, first := r.Left(), ok;
    if ok { ok, log, seen := DecodeEntries(r, base); }
    TookPair(Exactly(VERSION), Counted(EntryFormat()), start, first, (), mid, ok, seen, r.Left());
  }

  lemma ShortFails(bytes: Bytes)
    requires |bytes| < 12 || bytes[..4] != MAGIC
    ensures LogFormat().dec(bytes) == None
  {
    var entries := Counted(EntryFormat());
    var tail := Pair(Exactly(VERSION), entries);
    if MAGIC <= bytes {
      assert bytes[..4] == MAGIC;
      var rest := bytes[4..];
      assert Literal(MAGIC).dec(bytes) == Some(((), rest));
      var v := Exactly(VERSION).dec(rest);
      assert v.Some? ==> entries.dec(v.value.1) == None;
      assert tail.dec(rest) == None;
    } else {
      assert Literal(MAGIC).dec(bytes) == None;
    }
  }

  method DecodeVersion(r: Payloads.PayloadReader) returns (ok: bool)
    requires r.Valid()
    modifies r`pos
    ensures r.Valid() && Took(Exactly(VERSION), old(r.Left()), ok, (), r.Left())
  {
    ghost var was := r.Left();
    var version;
    ok, version := r.ReadU32();
    ok := ok && version == VERSION;
  }

  method DecodeEntries(r: Payloads.PayloadReader, base: CLog) returns (ok: bool, log: CLog, ghost seen: Entries)
    requires r.Valid()
    modifies r`pos
    ensures r.Valid() && Took(Counted(EntryFormat()), old(r.Left()), ok, seen, r.Left())
    ensures ok ==> log == Overlaid(base, seen)
  {
    ghost var was := r.Left();
    log, seen := base, [];
    var count;
    ok, count := r.ReadU32();
    ghost var start, first := r.Left(), ok;
    if ok { ok, log, seen := DecodeEach(r, count, base, EntryFormat()); }
    TookList(Word32(), EntryFormat(), was, first, count, start, ok, seen, r.Left());
  }

  method DecodeEach(r: Payloads.PayloadReader, count: nat, base: CLog, ghost f: Format<(nat, Status)>)
    returns (ok: bool, log: CLog, ghost seen: Entries)
    requires r.Valid() && ReadsAs(f, EntryFormat())
    modifies r`pos
    ensures r.Valid() && log == Overlaid(base, seen)
    ensures Many(f, count, old(r.Left())) == if ok then Some((seen, r.Left())) else None
  {
    ok, log, seen := true, base, [];
    ghost var start := r.Left();
    for i := 0 to count
      invariant r.Valid() && ok && Through(f, start, seen, r.Left()) && |seen| == i
      invariant log == Overlaid(base, seen)
    {
      ghost var was := r.Left();
      var entry;
      ok, entry := DecodeEntry(r, f);
      ThroughTook(f, count, start, seen, was, ok, entry, r.Left());
      if !ok { return; }
      log := log[entry.0 := entry.1];
      seen := seen + [entry];
    }
    ThroughAll(f, start, seen, r.Left());
  }

  method DecodeEntry(r: Payloads.PayloadReader, ghost f: Format<(nat, Status)>) returns (ok: bool, entry: (nat, Status))
    requires r.Valid() && ReadsAs(f, EntryFormat())
    modifies r`pos
    ensures r.Valid() && Took(f, old(r.Left()), ok, entry, r.Left())
  {
    ghost var was := r.Left();
    var xid, status := 0, InProgress;
    ok, xid := r.ReadU32();
    ghost var mid, first := r.Left(), ok;
    if ok { ok, status := DecodeStatus(r); }
    entry := (xid, status);
    TookPair(Word32(), StatusFormat(), was, first, xid, mid, ok, status, r.Left());
    TookAlike(f, EntryFormat(), was, ok, entry, r.Left());
  }

  method DecodeStatus(r: Payloads.PayloadReader) returns (ok: bool, status: Status)
    requires r.Valid()
    modifies r`pos
    ensures r.Valid() && Took(StatusFormat(), old(r.Left()), ok, status, r.Left())
  {
    status := InProgress;
    var b;
    ok, b := r.ReadU8();
    if !ok { return; }
    if b > 3 { return false, status; }
    status := ByteStatus(b).value;
  }
}
