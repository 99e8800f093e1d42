/** The write-ahead log: checksummed records, and replay over torn or damaged files. */
module Wal {
  import opened Keys
  import opened Binary
  import Crc

  const MAGIC: nat := 0x42444D4A // "JMDB"
  const VERSION: nat := 3

  type I64 = v: int | IsI64(v)

  datatype Record = Record(seqNo: I64, timestamp: I64, op: nat, table: Bytes, xid: nat, data: Bytes)

  /** The checksum; the file format does not depend on which one it is. */
  type Sum = Bytes -> nat

  ghost predicate CrcAt(sum: Sum, b: Bytes) { sum(b) == Crc.CrcNumber(b) }

  ghost predicate IsCrc(sum: Sum) { forall b :: CrcAt(sum, b) }

  ghost predicate Fits(sum: Sum) { forall b :: sum(b) < U32 }

  datatype Decoded = Incomplete | Bad | Got(rec: Record, consumed: nat)

  /** A record whose fields fit their places in the format. */
  predicate WellFormed(r: Record) {
    && r.op < 0x1_0000 && r.xid < 0x1_0000_0000
    && |r.table| < 0x1_0000 && |r.data| < 0x1_0000_0000
  }

  function Header(r: Record): (h: Bytes)
    ensures |h| == 26
  {
    Put32(MAGIC) + Put16(VERSION) + Put16(r.op) + Put64(ToU64(r.seqNo)) + Put64(ToU64(r.timestamp)) + Put16(|r.table|)
  }

  function Body(r: Record): (b: Bytes)
    ensures |b| == 34 + |r.table| + |r.data|
  {
    Header(r) + r.table + Put32(r.xid) + Put32(|r.data|) + r.data
  }

  function Encoded(sum: Sum, r: Record): (e: Bytes)
    ensures |e| == 38 + |r.table| + |r.data|
  {
    Body(r) + Put32(sum(Body(r)))
  }

  /** Parsing what starts at the beginning of buf; the layout is walked by offsets. */
  function Decode(sum: Sum, buf: Bytes): Decoded {
    if |buf| < 26 then Incomplete
    else if At32(buf, 0) != MAGIC || At16(buf, 4) != VERSION then Bad
    else DecodeTable(sum, buf, At16(buf, 24))
  }

  function DecodeTable(sum: Sum, buf: Bytes, tlen: nat): Decoded {
    if |buf| < 26 + tlen + 8 then Incomplete else DecodeData(sum, buf, tlen, At32(buf, 30 + tlen))
  }

  function DecodeData(sum: Sum, buf: Bytes, tlen: nat, dlen: nat): Decoded {
    var end := 34 + tlen + dlen;
    if |buf| < end + 4 then Incomplete else Checked(sum, buf[..end], At32(buf, end), RecordAt(buf, tlen, dlen), end + 4)
  }

  /** The record, if the checksum of the covered bytes is the stored one. */
  function Checked(sum: Sum, covered: Bytes, stored: nat, r: Record, consumed: nat): Decoded {
    if sum(covered) != stored then Bad else Got(r, consumed)
  }

  function RecordAt(buf: Bytes, tlen: nat, dlen: nat): Record
    requires 34 + tlen + dlen <= |buf|
  {
    Record(ToI64(At64(buf, 8)), ToI64(At64(buf, 16)), At16(buf, 6), buf[26..26 + tlen],
           At32(buf, 26 + tlen), buf[34 + tlen..34 + tlen + dlen])
  }

  /** The format of a record, field by field: "JMDB" and version 3 first, the checksum of all before it last. */
  lemma RecordBytes(sum: Sum, r: Record)
    ensures var covered := [0x4A, 0x4D, 0x44, 0x42] + [3, 0] + Put16(r.op) + Put64(ToU64(r.seqNo)) + Put64(ToU64(r.timestamp))
                           + Put16(|r.table|) + r.table + Put32(r.xid) + Put32(|r.data|) + r.data;
            Encoded(sum, r) == covered + Put32(sum(covered))
  {
    assert Put32(MAGIC) == [0x4A, 0x4D, 0x44, 0x42] && Put16(VERSION) == [3, 0];
  }

  // ---------- the methods ----------

  method EncodeRecord(ghost sum: Sum, r: Record, crcTable: array<Crc.Word32>) returns (buf: Bytes)
    requires IsCrc(sum) && Crc.IsTable(Crc.Step8(), crcTable[..])
    ensures buf == Encoded(sum, r)
  {
    buf := Put32(MAGIC);
    buf := buf + Put16(VERSION);
    buf := buf + Put16(r.op);
    buf := buf + Put64(ToU64(r.seqNo));
    buf := buf + Put64(ToU64(r.timestamp));
    buf := buf + Put16(|r.table|);
    buf := buf + r.table;
    buf := buf + Put32(r.xid);
    buf := buf + Put32(|r.data|);
    buf := buf + r.data;
    var crc := Checksum(sum, buf, crcTable);
    buf := buf + Put32(crc);
  }

  method DecodeRecord(ghost sum: Sum, buf: Bytes, crcTable: array<Crc.Word32>) returns (d: Decoded)
    requires IsCrc(sum) && Crc.IsTable(Crc.Step8(), crcTable[..])
    ensures d == Decode(sum, buf)
  {
    if |buf| < 26 { return Incomplete; }
    var pos := 0;
    var magic := At32(buf, pos);
    pos := pos + 4;
    if magic != MAGIC { return Bad; }
    var version := At16(buf, pos);
    pos := pos + 2;
    if version != VERSION { return Bad; }
    var op := At16(buf, pos);
    pos := pos + 2;
    var seqNo := ToI64(At64(buf, pos));
    pos := pos + 8;
    var timestamp := ToI64(At64(buf, pos));
    pos := pos + 8;
    var tlen := At16(buf, pos);
    pos := pos + 2;
    d := DecodeRest(sum, buf, pos, tlen, op, seqNo, timestamp, crcTable);
  }

  /** From the table name on. */
  method DecodeRest(ghost sum: Sum, buf: Bytes, start: nat, tlen: nat, op: nat, seqNo: I64, timestamp: I64, crcTable: array<Crc.Word32>)
    returns (d: Decoded)
    requires IsCrc(sum) && Crc.IsTable(Crc.Step8(), crcTable[..]) && start == 26 <= |buf|
    requires op == At16(buf, 6) && seqNo == ToI64(At64(buf, 8)) && timestamp == ToI64(At64(buf, 16))
    ensures d == DecodeTable(sum, buf, tlen)
  {
    var pos := start;
    if |buf| < pos + tlen + 4 + 4 { return Incomplete; }
    var table := buf[pos..pos + tlen];
    pos := pos + tlen;
    var xid := At32(buf, pos);
    pos := pos + 4;
    var dlen := At32(buf, pos);
    pos := pos + 4;
    d := DecodeTail(sum, buf, pos, tlen, dlen, Record(seqNo, timestamp, op, table, xid, []), crcTable);
  }

  /** From the data on; head is the record without its data. */
  method DecodeTail(ghost sum: Sum, buf: Bytes, start: nat, ghost tlen: nat, dlen: nat, head: Record, crcTable: array<Crc.Word32>)
    returns (d: Decoded)
    requires IsCrc(sum) && Crc.IsTable(Crc.Step8(), crcTable[..]) && start == 34 + tlen <= |buf|
    requires head == RecordAt(buf, tlen, 0)
    ensures d == DecodeData(sum, buf, tlen, dlen)
  {
    var pos := start;
    if |buf| < pos + dlen + 4 { return Incomplete; }
    var data := buf[pos..pos + dlen];
    pos := pos + dlen;
    var stored := At32(buf, pos);
    pos := pos + 4;
    WholeTail(sum, buf, tlen, dlen);
    d := CheckRecord(sum, buf[..pos - 4], stored, head.(data := data), pos, crcTable);
  }

  lemma WholeTail(sum: Sum, buf: Bytes, tlen: nat, dlen: nat)
    requires |buf| >= 38 + tlen + dlen
    ensures DecodeData(sum, buf, tlen, dlen)
         == Checked(sum, buf[..34 + tlen + dlen], At32(buf, 34 + tlen + dlen),
                    RecordAt(buf, tlen, 0).(data := buf[34 + tlen..34 + tlen + dlen]), 38 + tlen + dlen)
  {
  }

  method CheckRecord(ghost sum: Sum, covered: Bytes, stored: nat, r: Record, consumed: nat, crcTable: array<Crc.Word32>)
    returns (d: Decoded)
    requires IsCrc(sum) && Crc.IsTable(Crc.Step8(), crcTable[..])
    ensures d == Checked(sum, covered, stored, r, consumed)
  {
    var computed := Checksum(sum, covered, crcTable);
    if computed != stored { return Bad; }
    return Got(r, consumed);
  }

  method Checksum(ghost sum: Sum, data: Bytes, crcTable: array<Crc.Word32>) returns (n: nat)
    requires IsCrc(sum) && Crc.IsTable(Crc.Step8(), crcTable[..])
    ensures n == sum(data)
  {
    var crc := Crc.Compute(crcTable, data);
    assert CrcAt(sum, data);
    n := Crc.NumberOf(crc);
  }

  // ---------- encoding and decoding undo each other ----------

  lemma HerePrefix(buf: Bytes, e: Bytes, pos: nat, b: Bytes)
    requires buf <= e && Here(e, pos, b) && pos + |b| <= |buf|
    ensures Here(buf, pos, b)
  {
    assert buf[pos..pos + |b|] == e[pos..pos + |b|];
  }

  lemma HeaderLayout(r: Record, buf: Bytes)
    requires Header(r) <= buf
    ensures Here(buf, 0, Put32(MAGIC)) && Here(buf, 4, Put16(VERSION)) && Here(buf, 6, Put16(r.op))
    ensures Here(buf, 8, Put64(ToU64(r.seqNo))) && Here(buf, 16, Put64(ToU64(r.timestamp))) && Here(buf, 24, Put16(|r.table|))
  {
    SixParts(Put32(MAGIC), Put16(VERSION), Put16(r.op), Put64(ToU64(r.seqNo)), Put64(ToU64(r.timestamp)), Put16(|r.table|), buf);
  }

  lemma SixParts(a: Bytes, b: Bytes, c: Bytes, d: Bytes, e: Bytes, f: Bytes, buf: Bytes)
    requires |a| == 4 && |b| == 2 && |c| == 2 && |d| == 8 && |e| == 8 && |f| == 2
    requires a + b + c + d + e + f <= buf
    ensures Here(buf, 0, a) && Here(buf, 4, b) && Here(buf, 6, c) && Here(buf, 8, d) && Here(buf, 16, e) && Here(buf, 24, f)
  {
    var h := a + b + c + d + e + f;
    assert h[0..4] == a && h[4..6] == b && h[6..8] == c && h[8..16] == d && h[16..24] == e && h[24..26] == f;
    HerePrefix2(h, buf, 0, a);
    HerePrefix2(h, buf, 4, b);
    HerePrefix2(h, buf, 6, c);
    HerePrefix2(h, buf, 8, d);
    HerePrefix2(h, buf, 16, e);
    HerePrefix2(h, buf, 24, f);
  }

  lemma HerePrefix2(h: Bytes, buf: Bytes, pos: nat, b: Bytes)
    requires h <= buf && Here(h, pos, b)
    ensures Here(buf, pos, b)
  {
    assert buf[pos..pos + |b|] == h[pos..pos + |b|];
  }

  lemma BodyLayout(sum: Sum, r: Record, buf: Bytes)
    requires Encoded(sum, r) <= buf
    ensures var t, d := |r.table|, |r.data|;
            && Here(buf, 26, r.table) && Here(buf, 26 + t, Put32(r.xid)) && Here(buf, 30 + t, Put32(d)) && Here(buf, 34 + t, r.data)
            && Here(buf, 34 + t + d, Put32(sum(Body(r)))) && buf[..34 + t + d] == Body(r) && Header(r) <= buf
  {
    FiveParts(Header(r), r.table, Put32(r.xid), Put32(|r.data|), r.data, Put32(sum(Body(r))), buf);
  }

  lemma FiveParts(h: Bytes, a: Bytes, b: Bytes, c: Bytes, d: Bytes, e: Bytes, buf: Bytes)
    requires |h| == 26 && |b| == 4 && |c| == 4 && |e| == 4 && (h + a + b + c + d) + e <= buf
    ensures Here(buf, 26, a) && Here(buf, 26 + |a|, b) && Here(buf, 30 + |a|, c) && Here(buf, 34 + |a|, d)
    ensures Here(buf, 34 + |a| + |d|, e) && buf[..34 + |a| + |d|] == h + a + b + c + d && h <= buf
  {
    var f := (h + a + b + c + d) + e;
    assert f[26..26 + |a|] == a && f[26 + |a|..30 + |a|] == b && f[30 + |a|..34 + |a|] == c;
    assert f[34 + |a|..34 + |a| + |d|] == d && f[34 + |a| + |d|..38 + |a| + |d|] == e;
    HerePrefix2(f, buf, 26, a);
    HerePrefix2(f, buf, 26 + |a|, b);
    HerePrefix2(f, buf, 30 + |a|, c);
    HerePrefix2(f, buf, 34 + |a|, d);
    HerePrefix2(f, buf, 34 + |a| + |d|, e);
    assert buf[..|f|] == f;
    assert buf[..34 + |a| + |d|] == f[..34 + |a| + |d|];
  }

  /** Decoding an encoded record, whatever follows it, gives the record back and consumes exactly its bytes. */
  lemma RoundTrip(sum: Sum, r: Record, rest: Bytes)
    requires Fits(sum) && WellFormed(r)
    ensures Decode(sum, Encoded(sum, r) + rest) == Got(r, |Encoded(sum, r)|)
  {
    var buf := Encoded(sum, r) + rest;
    var t, d := |r.table|, |r.data|;
    BodyLayout(sum, r, buf);
    HeaderReads(r, buf);
    Read32(buf, 30 + t, d);
    assert Decode(sum, buf) == DecodeData(sum, buf, t, d);
    DataReads(sum, r, buf);
  }

  lemma DataReads(sum: Sum, r: Record, buf: Bytes)
    requires Fits(sum) && WellFormed(r) && Encoded(sum, r) <= buf
    ensures DecodeData(sum, buf, |r.table|, |r.data|) == Got(r, |Encoded(sum, r)|)
  {
    var t, d := |r.table|, |r.data|;
    ChecksumReads(sum, r, buf);
    RecordReads(sum, r, buf);
    BodyLayout(sum, r, buf);
  }

  lemma ChecksumReads(sum: Sum, r: Record, buf: Bytes)
    requires Fits(sum) && WellFormed(r) && Encoded(sum, r) <= buf
    ensures At32(buf, 34 + |r.table| + |r.data|) == sum(Body(r))
  {
    BodyLayout(sum, r, buf);
    Read32(buf, 34 + |r.table| + |r.data|, sum(Body(r)));
  }

  lemma RecordReads(sum: Sum, r: Record, buf: Bytes)
    requires Fits(sum) && WellFormed(r) && Encoded(sum, r) <= buf
    ensures RecordAt(buf, |r.table|, |r.data|) == r
  {
    BodyLayout(sum, r, buf);
    HeaderReads(r, buf);
    Read32(buf, 26 + |r.table|, r.xid);
    SignedRoundTrip(r.seqNo);
    SignedRoundTrip(r.timestamp);
  }

  lemma HeaderReads(r: Record, buf: Bytes)
    requires WellFormed(r) && Header(r) <= buf
    ensures At32(buf, 0) == MAGIC && At16(buf, 4) == VERSION && At16(buf, 6) == r.op
    ensures At64(buf, 8) == ToU64(r.seqNo) && At64(buf, 16) == ToU64(r.timestamp) && At16(buf, 24) == |r.table|
  {
    HeaderLayout(r, buf);
    Read32(buf, 0, MAGIC);
    Read16(buf, 4, VERSION);
    Read16(buf, 6, r.op);
    Read64(buf, 8, ToU64(r.seqNo));
    Read64(buf, 16, ToU64(r.timestamp));
    Read16(buf, 24, |r.table|);
  }

  /** A record torn anywhere is recognised as incomplete. */
  lemma TornIsIncomplete(sum: Sum, r: Record, buf: Bytes)
    requires Fits(sum) && WellFormed(r) && buf < Encoded(sum, r)
    ensures Decode(sum, buf) == Incomplete
  {
    var e, t := Encoded(sum, r), |r.table|;
    if |buf| >= 26 {
      BodyLayout(sum, r, e);
      assert buf[..26] == e[..26] == Header(r);
      HeaderReads(r, buf);
      if |buf| >= 34 + t {
        HerePrefix(buf, e, 30 + t, Put32(|r.data|));
        Read32(buf, 30 + t, |r.data|);
      }
    }
  }

  /** Only encodings decode: the consumed bytes are the encoding of a well-formed record. */
  lemma DecodeIsCanonical(sum: Sum, buf: Bytes)
    requires Decode(sum, buf).Got?
    ensures WellFormed(Decode(sum, buf).rec) && Decode(sum, buf).consumed <= |buf|
    ensures buf[..Decode(sum, buf).consumed] == Encoded(sum, Decode(sum, buf).rec)
  {
    var tlen, dlen, end := DecodedParts(sum, buf);
    BodyRewrites(buf, tlen, dlen);
    Rewrite32(buf, end);
    assert buf[..end + 4] == buf[..end] + buf[end..end + 4];
  }

  lemma DecodedParts(sum: Sum, buf: Bytes) returns (tlen: nat, dlen: nat, end: nat)
    requires Decode(sum, buf).Got?
    ensures end == 34 + tlen + dlen && |buf| >= end + 4 && At32(buf, 0) == MAGIC && At16(buf, 4) == VERSION
    ensures tlen == At16(buf, 24) && dlen == At32(buf, 30 + tlen) && sum(buf[..end]) == At32(buf, end)
    ensures Decode(sum, buf) == Got(RecordAt(buf, tlen, dlen), end + 4)
  {
    tlen := At16(buf, 24);
    dlen := At32(buf, 30 + tlen);
    end := 34 + tlen + dlen;
  }

  lemma BodyRewrites(buf: Bytes, tlen: nat, dlen: nat)
    requires |buf| >= 34 + tlen + dlen && At32(buf, 0) == MAGIC && At16(buf, 4) == VERSION
    requires tlen == At16(buf, 24) && dlen == At32(buf, 30 + tlen)
    ensures buf[..34 + tlen + dlen] == Body(RecordAt(buf, tlen, dlen))
  {
    HeaderRewrites(buf, RecordAt(buf, tlen, dlen));
    Rewrite32(buf, 26 + tlen);
    Rewrite32(buf, 30 + tlen);
    JoinBody(buf, tlen, dlen);
  }

  lemma HeaderRewrites(buf: Bytes, r: Record)
    requires |buf| >= 26 && At32(buf, 0) == MAGIC && At16(buf, 4) == VERSION && At16(buf, 6) == r.op
    requires ToI64(At64(buf, 8)) == r.seqNo && ToI64(At64(buf, 16)) == r.timestamp && At16(buf, 24) == |r.table|
    ensures buf[..26] == Header(r)
  {
    PatternRoundTrip(At64(buf, 8));
    PatternRoundTrip(At64(buf, 16));
    Rewrite32(buf, 0);
    Rewrite16(buf, 4);
    Rewrite16(buf, 6);
    Rewrite64(buf, 8);
    Rewrite64(buf, 16);
    Rewrite16(buf, 24);
    JoinHeader(buf);
  }

  lemma JoinHeader(buf: Bytes)
    requires |buf| >= 26
    ensures buf[..26] == buf[0..4] + buf[4..6] + buf[6..8] + buf[8..16] + buf[16..24] + buf[24..26]
  {
  }

  lemma JoinBody(buf: Bytes, t: nat, d: nat)
    requires |buf| >= 34 + t + d
    ensures buf[..34 + t + d] == buf[..26] + buf[26..26 + t] + buf[26 + t..30 + t] + buf[30 + t..34 + t] + buf[34 + t..34 + t + d]
  {
  }
}
