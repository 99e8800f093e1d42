/** Replaying a log file, and what it survives: torn tails, damaged records, truncation. */
module Replaying {
  import opened Keys
  import opened Binary
  import opened Wal
  import Crc

  /** Below every sequence number. */
  const BEFORE_ALL: int := -0x8000_0000_0000_0001

  predicate MagicAt(buf: Bytes, i: nat) {
    i + 4 <= |buf| && buf[i] == 0x4A && buf[i + 1] == 0x4D && buf[i + 2] == 0x44 && buf[i + 3] == 0x42
  }

  /** The first magic at or after i; past the last place for one when there is none. */
  function NextMagic(buf: Bytes, i: nat): (k: nat)
    ensures i <= k && (k + 4 <= |buf| ==> MagicAt(buf, k))
    ensures forall j | i <= j < k :: !MagicAt(buf, j)
    decreases |buf| - i
  {
    if i + 4 > |buf| || MagicAt(buf, i) then i else NextMagic(buf, i + 1)
  }

  /** What replay does at the head of the remaining bytes: give up, skip k bytes, or take a record of k bytes. */
  datatype Move = Stop | Skip(k: nat) | Take(rec: Record, k: nat)

  type Mover = Bytes -> Move

  function NextMove(sum: Sum, rest: Bytes): Move {
    match Decode(sum, rest)
    case Incomplete => Stop
    case Bad => if NextMagic(rest, 1) + 4 > |rest| then Stop else Skip(NextMagic(rest, 1))
    case Got(rec, consumed) => Take(rec, consumed)
  }

  function Moves(sum: Sum): Mover { rest => NextMove(sum, rest) }

  function Keep(r: Record, from: int): seq<Record> { if r.seqNo > from then [r] else [] }

  /** The records after from in what is left of the file. */
  function Run(move: Mover, rest: Bytes, from: int): seq<Record>
    decreases |rest|
  {
    if rest == [] then []
    else match move(rest)
      case Stop => []
      case Skip(k) => if 0 < k <= |rest| then Run(move, rest[k..], from) else []
      case Take(rec, k) => if 0 < k <= |rest| then Keep(rec, from) + Run(move, rest[k..], from) else []
  }

  function ReplayLog(sum: Sum, file: Bytes, from: int): seq<Record> {
    if MagicAt(file, 0) then Run(Moves(sum), file, from) else []
  }

  function Later(recs: seq<Record>, from: int): seq<Record> {
    if recs == [] then [] else Keep(recs[0], from) + Later(recs[1..], from)
  }

  /** The records with a sequence number above from, in their order. */
  lemma {:induction false} LaterExactly(recs: seq<Record>, r: Record, from: int)
    ensures Later([], from) == []
    ensures Later(recs + [r], from) == Later(recs, from) + if r.seqNo > from then [r] else []
  {
    if recs != [] {
      LaterExactly(recs[1..], r, from);
      assert (recs + [r])[1..] == recs[1..] + [r];
    }
  }

  type Encoder = Record -> Bytes

  function Encodes(sum: Sum): Encoder { r => Encoded(sum, r) }

  function Concat(enc: Encoder, recs: seq<Record>): Bytes {
    if recs == [] then [] else enc(recs[0]) + Concat(enc, recs[1..])
  }

  predicate AllWellFormed(recs: seq<Record>) {
    forall i | 0 <= i < |recs| :: WellFormed(recs[i])
  }

  /** How many of the records fit wholly into the first n bytes. */
  function Whole(enc: Encoder, recs: seq<Record>, n: nat): (k: nat)
    ensures k <= |recs|
  {
    if recs == [] || n < |enc(recs[0])| then 0 else 1 + Whole(enc, recs[1..], n - |enc(recs[0])|)
  }

  /** The first k records fit into n bytes, and no more of them do. */
  lemma {:induction false} WholeExactly(enc: Encoder, recs: seq<Record>, n: nat)
    ensures var k := Whole(enc, recs, n);
            && |Concat(enc, recs[..k])| <= n
            && (k < |recs| ==> n < |Concat(enc, recs[..k + 1])|)
  {
    var k := Whole(enc, recs, n);
    if recs != [] && |enc(recs[0])| <= n {
      WholeExactly(enc, recs[1..], n - |enc(recs[0])|);
      assert recs[..k][1..] == recs[1..][..k - 1];
      if k < |recs| { assert recs[..k + 1][1..] == recs[1..][..k]; }
    } else if recs != [] {
      assert recs[..1][1..] == [];
    }
  }

  // ---------- one step of replay ----------

  lemma MagicBytes()
    ensures Put32(MAGIC) == [0x4A, 0x4D, 0x44, 0x42]
  {
  }

  lemma StartsWithMagic(sum: Sum, r: Record, rest: Bytes)
    ensures MagicAt(Encoded(sum, r) + rest, 0)
  {
    var buf := Encoded(sum, r) + rest;
    BodyLayout(sum, r, buf);
    HeaderLayout(r, buf);
    FirstFour(buf, Put32(MAGIC));
    MagicBytes();
  }

  lemma FirstFour(buf: Bytes, b: Bytes)
    requires |b| == 4 && Here(buf, 0, b)
    ensures |buf| >= 4 && buf[0] == b[0] && buf[1] == b[1] && buf[2] == b[2] && buf[3] == b[3]
  {
    assert b == buf[0..4];
  }

  // The next laws hold for any framing: an encoder and a mover that take each other's records whole and stop at torn ones.

  ghost predicate WholeAt(enc: Encoder, move: Mover, r: Record, rest: Bytes) {
    enc(r) != [] && move(enc(r) + rest) == Take(r, |enc(r)|) && MagicAt(enc(r) + rest, 0)
  }

  ghost predicate TornAt(enc: Encoder, move: Mover, r: Record, rest: Bytes) {
    rest != [] && rest < enc(r) ==> move(rest) == Stop
  }

  ghost predicate Framed(enc: Encoder, move: Mover) {
    && (forall r, rest | WellFormed(r) :: WholeAt(enc, move, r, rest))
    && (forall r, rest | WellFormed(r) :: TornAt(enc, move, r, rest))
  }

  lemma RecordsAreFramed(sum: Sum)
    requires Fits(sum)
    ensures Framed(Encodes(sum), Moves(sum))
  {
    forall r, rest | WellFormed(r) ensures WholeAt(Encodes(sum), Moves(sum), r, rest) {
      RoundTrip(sum, r, rest);
      StartsWithMagic(sum, r, rest);
    }
    forall r, rest | WellFormed(r) ensures TornAt(Encodes(sum), Moves(sum), r, rest) {
      if rest < Encoded(sum, r) { TornIsIncomplete(sum, r, rest); }
    }
  }

  lemma RunRecord(enc: Encoder, move: Mover, r: Record, rest: Bytes, from: int)
    requires Framed(enc, move) && WellFormed(r)
    ensures Run(move, enc(r) + rest, from) == Keep(r, from) + Run(move, rest, from)
  {
    assert WholeAt(enc, move, r, rest);
    assert (enc(r) + rest)[|enc(r)|..] == rest;
  }

  lemma {:induction false} RunRecords(enc: Encoder, move: Mover, recs: seq<Record>, rest: Bytes, from: int)
    requires Framed(enc, move) && AllWellFormed(recs)
    ensures Run(move, Concat(enc, recs) + rest, from) == Later(recs, from) + Run(move, rest, from)
    decreases |recs|
  {
    if recs == [] {
      assert Concat(enc, recs) + rest == rest;
    } else {
      var r, tail := recs[0], recs[1..];
      RunRecords(enc, move, tail, rest, from);
      RunRecord(enc, move, r, Concat(enc, tail) + rest, from);
      Regroup(enc(r), Concat(enc, tail), rest);
      Regroup(Keep(r, from), Later(tail, from), Run(move, rest, from));
    }
  }

  lemma Regroup<T>(a: seq<T>, b: seq<T>, c: seq<T>)
    ensures (a + b) + c == a + (b + c)
  {
  }

  // ---------- torn tails ----------

  lemma PrefixOfSum(a: Bytes, b: Bytes, n: nat)
    requires n <= |a| + |b|
    ensures n < |a| ==> (a + b)[..n] == a[..n]
    ensures n >= |a| ==> (a + b)[..n] == a + b[..n - |a|]
  {
  }

  lemma LaterFirst(recs: seq<Record>, k: nat, from: int)
    requires 0 < k <= |recs|
    ensures Later(recs[..k], from) == Keep(recs[0], from) + Later(recs[1..][..k - 1], from)
  {
    assert recs[..k][1..] == recs[1..][..k - 1];
  }

  lemma {:induction false} RunPrefix(enc: Encoder, move: Mover, recs: seq<Record>, n: nat, from: int)
    requires Framed(enc, move) && AllWellFormed(recs) && n <= |Concat(enc, recs)|
    ensures Run(move, Concat(enc, recs)[..n], from) == Later(recs[..Whole(enc, recs, n)], from)
    decreases |recs|
  {
    if recs != [] {
      var e, more := enc(recs[0]), Concat(enc, recs[1..]);
      PrefixOfSum(e, more, n);
      if n < |e| {
        assert TornAt(enc, move, recs[0], e[..n]);
      } else {
        RunRecord(enc, move, recs[0], more[..n - |e|], from);
        RunPrefix(enc, move, recs[1..], n - |e|, from);
        LaterFirst(recs, Whole(enc, recs, n), from);
      }
    }
  }

  lemma FileStart(enc: Encoder, move: Mover, recs: seq<Record>, rest: Bytes)
    requires Framed(enc, move) && AllWellFormed(recs) && (recs == [] ==> MagicAt(rest, 0))
    ensures MagicAt(Concat(enc, recs) + rest, 0)
  {
    if recs == [] {
      assert Concat(enc, recs) + rest == rest;
    } else {
      var more := Concat(enc, recs[1..]) + rest;
      assert Concat(enc, recs) + rest == enc(recs[0]) + more;
      assert WholeAt(enc, move, recs[0], more);
    }
  }

  /** Any byte prefix of a log replays to exactly the later records that it holds wholly. */
  lemma PrefixReplays(sum: Sum, recs: seq<Record>, n: nat, from: int)
    requires Fits(sum) && AllWellFormed(recs) && n <= |Concat(Encodes(sum), recs)|
    ensures ReplayLog(sum, Concat(Encodes(sum), recs)[..n], from) == Later(recs[..Whole(Encodes(sum), recs, n)], from)
  {
    RecordsAreFramed(sum);
    PrefixRuns(Encodes(sum), Moves(sum), recs, n, from);
  }

  lemma PrefixRuns(enc: Encoder, move: Mover, recs: seq<Record>, n: nat, from: int)
    requires Framed(enc, move) && AllWellFormed(recs) && n <= |Concat(enc, recs)|
    ensures (if MagicAt(Concat(enc, recs)[..n], 0) then Run(move, Concat(enc, recs)[..n], from) else [])
         == Later(recs[..Whole(enc, recs, n)], from)
  {
    RunPrefix(enc, move, recs, n, from);
    var file := Concat(enc, recs);
    if recs != [] {
      FileStart(enc, move, recs, []);
      assert file + [] == file;
      if n < 4 { ShortPrefix(enc, move, recs, n); }
    }
  }

  /** Four bytes hold no record. */
  lemma ShortPrefix(enc: Encoder, move: Mover, recs: seq<Record>, n: nat)
    requires Framed(enc, move) && AllWellFormed(recs) && recs != [] && n < 4
    ensures Whole(enc, recs, n) == 0
  {
    assert WholeAt(enc, move, recs[0], []);
    assert enc(recs[0]) + [] == enc(recs[0]);
  }

  lemma {:induction false} WholeAll(enc: Encoder, recs: seq<Record>)
    ensures Whole(enc, recs, |Concat(enc, recs)|) == |recs|
  {
    if recs != [] { WholeAll(enc, recs[1..]); }
  }

  /** A whole log replays to its later records. */
  lemma LogReplays(sum: Sum, recs: seq<Record>, from: int)
    requires Fits(sum) && AllWellFormed(recs)
    ensures ReplayLog(sum, Concat(Encodes(sum), recs), from) == Later(recs, from)
  {
    var file := Concat(Encodes(sum), recs);
    PrefixReplays(sum, recs, |file|, from);
    WholeAll(Encodes(sum), recs);
    assert file[..|file|] == file && recs[..|recs|] == recs;
  }

  // ---------- a damaged record ----------

  /** bad stands before the encodings of after, fails its check there, and holds no magic but perhaps its first. */
  ghost predicate Damaged(sum: Sum, bad: Bytes, after: seq<Record>) {
    var rest := bad + Concat(Encodes(sum), after);
    && bad != [] && Decode(sum, rest) == Bad
    && forall j | 1 <= j < |bad| :: !MagicAt(rest, j)
  }

  /** One record that fails its check and holds no inner magic costs exactly itself. */
  lemma DamagedRecordSkipped(sum: Sum, before: seq<Record>, bad: Bytes, after: seq<Record>, from: int)
    requires Fits(sum) && AllWellFormed(before) && AllWellFormed(after) && Damaged(sum, bad, after)
    requires before == [] ==> MagicAt(bad + Concat(Encodes(sum), after), 0)
    ensures var file := Concat(Encodes(sum), before) + (bad + Concat(Encodes(sum), after));
            ReplayLog(sum, file, from) == Later(before, from) + Later(after, from)
  {
    var enc, move := Encodes(sum), Moves(sum);
    RecordsAreFramed(sum);
    DamagedMove(sum, bad, after);
    RunDamaged(enc, move, bad, after, from);
    RunRecords(enc, move, before, bad + Concat(enc, after), from);
    FileStart(enc, move, before, bad + Concat(enc, after));
  }

  lemma DamagedMove(sum: Sum, bad: Bytes, after: seq<Record>)
    requires Fits(sum) && AllWellFormed(after) && Damaged(sum, bad, after)
    ensures var rest := bad + Concat(Encodes(sum), after);
            Moves(sum)(rest) == if after == [] then Stop else Skip(|bad|)
  {
    var tail := Concat(Encodes(sum), after);
    var rest := bad + tail;
    var k := NextMagic(rest, 1);
    if after == [] {
      assert k >= |bad| || !MagicAt(rest, k);
    } else {
      RecordsAreFramed(sum);
      FileStart(Encodes(sum), Moves(sum), after, []);
      assert tail + [] == tail;
      assert MagicAt(rest, |bad|);
    }
  }

  lemma RunDamaged(enc: Encoder, move: Mover, bad: Bytes, after: seq<Record>, from: int)
    requires Framed(enc, move) && AllWellFormed(after) && bad != []
    requires move(bad + Concat(enc, after)) == if after == [] then Stop else Skip(|bad|)
    ensures Run(move, bad + Concat(enc, after), from) == Later(after, from)
  {
    var tail := Concat(enc, after);
    if after != [] {
      assert (bad + tail)[|bad|..] == tail;
      RunRecords(enc, move, after, [], from);
      assert tail + [] == tail;
    }
  }

  // ---------- truncation ----------

  ghost predicate TakesWellFormed(move: Mover) {
    forall rest | rest != [] && move(rest).Take? :: WellFormed(move(rest).rec)
  }

  lemma MovesWellFormed(sum: Sum)
    requires Fits(sum)
    ensures TakesWellFormed(Moves(sum))
  {
    forall rest | rest != [] && Moves(sum)(rest).Take?
      ensures WellFormed(Moves(sum)(rest).rec)
    {
      DecodeIsCanonical(sum, rest);
    }
  }

  lemma {:induction false} RunWellFormed(move: Mover, rest: Bytes, from: int)
    requires TakesWellFormed(move)
    ensures AllWellFormed(Run(move, rest, from))
    decreases |rest|
  {
    if rest != [] {
      match move(rest)
      case Stop =>
      case Skip(k) => if 0 < k <= |rest| { RunWellFormed(move, rest[k..], from); }
      case Take(rec, k) => if 0 < k <= |rest| { RunWellFormed(move, rest[k..], from); }
    }
  }

  function Max(a: int, b: int): int { if a > b then a else b }

  lemma LaterKeep(r: Record, recs: seq<Record>, c: int, f: int)
    ensures Later(Keep(r, c) + recs, f) == Keep(r, Max(c, f)) + Later(recs, f)
  {
    if r.seqNo > c {
      assert (Keep(r, c) + recs)[1..] == recs;
    } else {
      assert Keep(r, c) + recs == recs;
    }
  }

  lemma {:induction false} RunLater(move: Mover, rest: Bytes, c: int, f: int)
    ensures Later(Run(move, rest, c), f) == Run(move, rest, Max(c, f))
    decreases |rest|
  {
    if rest != [] {
      match move(rest)
      case Stop =>
      case Skip(k) => if 0 < k <= |rest| { RunLater(move, rest[k..], c, f); }
      case Take(rec, k) =>
        if 0 < k <= |rest| {
          RunLater(move, rest[k..], c, f);
          LaterKeep(rec, Run(move, rest[k..], c), c, f);
        }
    }
  }

  /** Rewriting any file with its records after c and then replaying from f gives those after both. */
  lemma TruncateThenReplay(sum: Sum, file: Bytes, c: int, f: int)
    requires Fits(sum)
    ensures ReplayLog(sum, Concat(Encodes(sum), ReplayLog(sum, file, c)), f) == ReplayLog(sum, file, Max(c, f))
  {
    var kept := ReplayLog(sum, file, c);
    MovesWellFormed(sum);
    RunWellFormed(Moves(sum), file, c);
    LogReplays(sum, kept, f);
    RunLater(Moves(sum), file, c, f);
  }

  // ---------- altered bytes ----------

  lemma CrcFitsAlways(sum: Sum)
    requires IsCrc(sum)
    ensures Fits(sum)
  {
    forall b ensures sum(b) < U32 {
      assert CrcAt(sum, b);
      Crc.CrcFits(b);
    }
  }

  /** The bytes of the two length fields and of the stored checksum. */
  predicate IsFixed(r: Record, j: int) {
    24 <= j < 26 || 30 + |r.table| <= j < 34 + |r.table| || j >= 34 + |r.table| + |r.data|
  }

  /** buf is e with changes only within four bytes from i on, none of them in a fixed field. */
  ghost predicate Altered(r: Record, e: Bytes, buf: Bytes, i: nat) {
    && |buf| == |e| && buf != e
    && forall j | 0 <= j < |e| && (IsFixed(r, j) || !(i <= j < i + 4)) :: buf[j] == e[j]
  }

  /** Changing one to four consecutive bytes of a record, outside its two lengths and the stored checksum, is noticed. */
  lemma AlterationDetected(sum: Sum, r: Record, buf: Bytes, i: nat, rest: Bytes)
    requires IsCrc(sum) && WellFormed(r) && Altered(r, Encoded(sum, r), buf, i)
    ensures Decode(sum, buf + rest) == Bad
  {
    CrcFitsAlways(sum);
    var e, t, d := Encoded(sum, r), |r.table|, |r.data|;
    var end := 34 + t + d;
    BodyLayout(sum, r, e);
    HeaderReads(r, e);
    Read32(e, 30 + t, d);
    Read32(e, end, sum(Body(r)));
    SumsDiffer(sum, r, e, buf, i);
    AlteredDecodes(sum, r, e, buf, i, rest);
  }

  lemma AlteredDecodes(sum: Sum, r: Record, e: Bytes, buf: Bytes, i: nat, rest: Bytes)
    requires |e| == 38 + |r.table| + |r.data| && Altered(r, e, buf, i)
    requires At16(e, 24) == |r.table| && At32(e, 30 + |r.table|) == |r.data|
    requires var end := 34 + |r.table| + |r.data|;
             At32(e, end) == sum(e[..end]) && sum(buf[..end]) != sum(e[..end])
    ensures Decode(sum, buf + rest) == Bad
  {
    var t, d := |r.table|, |r.data|;
    var end := 34 + t + d;
    var file := buf + rest;
    assert file[24] == e[24] && file[25] == e[25];
    assert file[30 + t] == e[30 + t] && file[31 + t] == e[31 + t] && file[32 + t] == e[32 + t] && file[33 + t] == e[33 + t];
    assert file[end] == e[end] && file[end + 1] == e[end + 1] && file[end + 2] == e[end + 2] && file[end + 3] == e[end + 3];
    SameFields(e, file, 24, 30 + t, end);
    assert file[..end] == buf[..end];
    assert sum(file[..end]) != At32(file, end);
  }

  lemma SameFields(e: Bytes, file: Bytes, p: nat, q: nat, end: nat)
    requires p + 2 <= |e| && q + 4 <= |e| && end + 4 <= |e| <= |file|
    requires file[p] == e[p] && file[p + 1] == e[p + 1]
    requires file[q] == e[q] && file[q + 1] == e[q + 1] && file[q + 2] == e[q + 2] && file[q + 3] == e[q + 3]
    requires file[end] == e[end] && file[end + 1] == e[end + 1] && file[end + 2] == e[end + 2] && file[end + 3] == e[end + 3]
    ensures At16(file, p) == At16(e, p) && At32(file, q) == At32(e, q) && At32(file, end) == At32(e, end)
  {
  }

  lemma SumsDiffer(sum: Sum, r: Record, e: Bytes, buf: Bytes, i: nat)
    requires IsCrc(sum) && |e| == 38 + |r.table| + |r.data| && Altered(r, e, buf, i)
    ensures var end := 34 + |r.table| + |r.data|; sum(buf[..end]) != sum(e[..end])
  {
    var a, b, start := AlteredBefore(r, e, buf, i, 34 + |r.table| + |r.data|);
    BurstSums(sum, a, b, start);
  }

  lemma BurstSums(sum: Sum, a: Bytes, b: Bytes, i: nat)
    requires IsCrc(sum) && |a| == |b| && i + 4 <= |a| && a != b
    requires forall j | 0 <= j < |a| && !(i <= j < i + 4) :: a[j] == b[j]
    ensures sum(a) != sum(b)
  {
    Crc.BurstDetected(a, b, i);
    assert CrcAt(sum, a) && CrcAt(sum, b);
  }

  /** The change lies in the covered bytes. */
  lemma AlteredBefore(r: Record, e: Bytes, buf: Bytes, i: nat, end: nat) returns (a: Bytes, b: Bytes, start: nat)
    requires end == 34 + |r.table| + |r.data| && |e| == end + 4 && Altered(r, e, buf, i)
    ensures a == buf[..end] && b == e[..end] && |a| == |b| && a != b && start + 4 <= |a|
    ensures forall j | 0 <= j < |a| && !(start <= j < start + 4) :: a[j] == b[j]
  {
    a, b := buf[..end], e[..end];
    start := if i + 4 <= end then i else end - 4;
    var j :| 0 <= j < |e| && buf[j] != e[j];
    assert a[j] == buf[j] && b[j] == e[j];
  }

  // ---------- the log object ----------

  function MaxSeq(cur: I64, recs: seq<Record>): I64 {
    if recs == [] then cur
    else
      var r := recs[|recs| - 1];
      var m := MaxSeq(cur, recs[..|recs| - 1]);
      if r.seqNo > m then r.seqNo else m
  }

  class WriteAheadLog {
    ghost const sum: Sum
    const crcTable: array<Crc.Word32>
    var file: Bytes
    var seqNo: I64

    ghost predicate Valid()
      reads crcTable
    {
      IsCrc(sum) && Crc.IsTable(Crc.Step8(), crcTable[..])
    }

    constructor (file: Bytes)
      ensures Valid() && this.file == file && seqNo == 0 && fresh(crcTable)
    {
      var t := Crc.MakeTable();
      crcTable := t;
      sum := Crc.CrcNumber;
      this.file, seqNo := file, 0;
      new;
      forall b ensures CrcAt(sum, b) {}
    }

    method Append(r: Record)
      requires Valid()
      modifies this
      ensures Valid() && file == old(file) + Encoded(sum, r) && seqNo == r.seqNo
    {
      seqNo := r.seqNo;
      var bytes := EncodeRecord(sum, r, crcTable);
      file := file + bytes;
    }

    /** The position of the next magic at or after i, or a place past the last possible one. */
    static method FindMagic(buf: Bytes, i: nat) returns (k: nat)
      ensures k == NextMagic(buf, i)
    {
      k := i;
      while k + 4 <= |buf|
        invariant i <= k && NextMagic(buf, k) == NextMagic(buf, i)
      {
        if buf[k] == 0x4A && buf[k + 1] == 0x4D && buf[k + 2] == 0x44 && buf[k + 3] == 0x42 { break; }
        k := k + 1;
      }
    }

    /** One look at the remaining bytes. */
    method Look(ghost move: Mover, rest: Bytes) returns (m: Move)
      requires Valid() && IsMover(move, sum)
      ensures m == move(rest)
      ensures m.Skip? ==> 0 < m.k <= |rest|
      ensures m.Take? ==> 0 < m.k <= |rest|
    {
      assert MovesAt(move, sum, rest);
      var d := DecodeRecord(sum, rest, crcTable);
      match d
      case Incomplete => return Stop;
      case Bad =>
        var k := FindMagic(rest, 1);
        if k + 4 > |rest| { return Stop; }
        return Skip(k);
      case Got(rec, consumed) => return Take(rec, consumed);
    }

    method Replay(from: int) returns (out: seq<Record>)
      requires Valid()
      modifies this`seqNo
      ensures out == ReplayLog(sum, file, from)
      ensures seqNo == MaxSeq(old(seqNo), ReplayLog(sum, file, BEFORE_ALL))
    {
      if !(|file| >= 4 && file[0] == 0x4A && file[1] == 0x4D && file[2] == 0x44 && file[3] == 0x42) { return []; }
      assert forall rest :: MovesAt(Moves(sum), sum, rest);
      out := ReplayV3(Moves(sum), from);
    }

    method ReplayV3(ghost move: Mover, from: int) returns (out: seq<Record>)
      requires Valid() && IsMover(move, sum)
      modifies this`seqNo
      ensures out == Run(move, file, from)
      ensures seqNo == MaxSeq(old(seqNo), Run(move, file, BEFORE_ALL))
    {
      out := [];
      var pos: nat, stop := 0, false;
      ghost var all: seq<Record> := [];
      while pos < |file| && !stop
        invariant pos <= |file|
        invariant Halfway(move, file, pos, out, all, from, old(seqNo), seqNo)
        invariant stop ==> pos < |file| && move(file[pos..]) == Stop
        decreases !stop, |file| - pos
      {
        stop, pos, out, all := Step(move, pos, out, all, from, old(seqNo));
      }
      ProgressEnd(move, file, pos, out, from);
      ProgressEnd(move, file, pos, all, BEFORE_ALL);
    }

    /** One turn of the replay loop. */
    method Step(ghost move: Mover, pos: nat, out: seq<Record>, ghost all: seq<Record>, from: int, ghost seq0: I64)
      returns (stop: bool, pos': nat, out': seq<Record>, ghost all': seq<Record>)
      requires Valid() && IsMover(move, sum) && pos < |file| && Halfway(move, file, pos, out, all, from, seq0, seqNo)
      modifies this`seqNo
      ensures pos' <= |file| && Halfway(move, file, pos', out', all', from, seq0, seqNo)
      ensures if stop then pos' == pos && move(file[pos..]) == Stop else pos' > pos
    {
      stop, pos', out', all' := false, pos, out, all;
      var m := Look(move, file[pos..]);
      HalfwayStep(move, file, pos, out, all, from, seq0, seqNo);
      match m
      case Stop => stop := true;
      case Skip(k) => pos' := pos + k;
      case Take(rec, k) =>
        all' := all + [rec];
        seqNo := if rec.seqNo > seqNo then rec.seqNo else seqNo;
        if rec.seqNo > from { out' := out + [rec]; }
        pos' := pos + k;
    }

    /** Keeps the records after the cutoff; the sequence number is that of the last one kept, if any. */
    method Truncate(cutoff: int)
      requires Valid()
      modifies this
      ensures Valid() && file == Concat(Encodes(sum), ReplayLog(sum, old(file), cutoff))
      ensures var kept := ReplayLog(sum, old(file), cutoff);
              seqNo == if kept == [] then old(seqNo) else kept[|kept| - 1].seqNo
    {
      var kept := ReplayKeepingSeq(cutoff);
      Rewrite(kept);
    }

    /** Replaying without moving the sequence number. */
    method ReplayKeepingSeq(from: int) returns (kept: seq<Record>)
      requires Valid()
      modifies this`seqNo
      ensures kept == ReplayLog(sum, file, from) && seqNo == old(seqNo)
    {
      var savedSeq := seqNo;
      seqNo := 0;
      kept := Replay(from);
      seqNo := savedSeq;
    }

    /** Replaces the file by the encoded records. */
    method Rewrite(kept: seq<Record>)
      requires Valid()
      modifies this
      ensures Valid() && file == Concat(Encodes(sum), kept)
      ensures seqNo == if kept == [] then old(seqNo) else kept[|kept| - 1].seqNo
    {
      forall r ensures EncodesAt(Encodes(sum), sum, r) {}
      file := WriteAll(Encodes(sum), kept);
      if kept != [] { seqNo := kept[|kept| - 1].seqNo; }
    }

    method WriteAll(ghost enc: Encoder, recs: seq<Record>) returns (out: Bytes)
      requires Valid() && forall r :: EncodesAt(enc, sum, r)
      ensures out == Concat(enc, recs)
    {
      out := [];
      for i := 0 to |recs|
        invariant out == Concat(enc, recs[..i])
      {
        out := WriteOne(enc, recs[..i], out, recs[i]);
        assert recs[..i + 1] == recs[..i] + [recs[i]];
      }
      assert recs[..|recs|] == recs;
    }

    method WriteOne(ghost enc: Encoder, ghost done: seq<Record>, buf: Bytes, r: Record) returns (out: Bytes)
      requires Valid() && buf == Concat(enc, done) && forall x :: EncodesAt(enc, sum, x)
      ensures out == Concat(enc, done + [r])
    {
      var bytes := EncodeRecord(sum, r, crcTable);
      assert EncodesAt(enc, sum, r);
      ConcatAppend(enc, done, r);
      out := buf + bytes;
    }
  }

  ghost predicate MovesAt(move: Mover, sum: Sum, rest: Bytes) { move(rest) == NextMove(sum, rest) }

  ghost predicate IsMover(move: Mover, sum: Sum) { forall rest :: MovesAt(move, sum, rest) }

  ghost predicate EncodesAt(enc: Encoder, sum: Sum, r: Record) { enc(r) == Encoded(sum, r) }

  /** done and what the rest still gives make up the whole replay. */
  ghost predicate Progress(move: Mover, file: Bytes, pos: nat, done: seq<Record>, from: int)
    requires pos <= |file|
  {
    done + Run(move, file[pos..], from) == Run(move, file, from)
  }

  lemma ProgressStep(move: Mover, file: Bytes, pos: nat, done: seq<Record>, from: int)
    requires pos < |file| && Progress(move, file, pos, done, from)
    ensures var m := move(file[pos..]);
            && (m.Stop? ==> done == Run(move, file, from))
            && (m.Skip? && 0 < m.k <= |file| - pos ==> Progress(move, file, pos + m.k, done, from))
            && (m.Take? && 0 < m.k <= |file| - pos ==> Progress(move, file, pos + m.k, done + Keep(m.rec, from), from))
  {
    var m := move(file[pos..]);
    if !m.Stop? && 0 < m.k <= |file| - pos {
      assert file[pos..][m.k..] == file[pos + m.k..];
    }
  }

  /** The state of the replay loop: out so far, all records so far, and the highest sequence number. */
  ghost predicate Halfway(move: Mover, file: Bytes, pos: nat, out: seq<Record>, all: seq<Record>, from: int, seq0: I64, seqNo: I64)
    requires pos <= |file|
  {
    && Progress(move, file, pos, out, from)
    && Progress(move, file, pos, all, BEFORE_ALL)
    && seqNo == MaxSeq(seq0, all)
  }

  lemma HalfwayStep(move: Mover, file: Bytes, pos: nat, out: seq<Record>, all: seq<Record>, from: int, seq0: I64, seqNo: I64)
    requires pos < |file| && Halfway(move, file, pos, out, all, from, seq0, seqNo)
    ensures var m := move(file[pos..]);
            && (m.Skip? && 0 < m.k <= |file| - pos ==> Halfway(move, file, pos + m.k, out, all, from, seq0, seqNo))
            && (m.Take? && 0 < m.k <= |file| - pos ==>
                  Halfway(move, file, pos + m.k, if m.rec.seqNo > from then out + [m.rec] else out, all + [m.rec], from,
                          seq0, if m.rec.seqNo > seqNo then m.rec.seqNo else seqNo))
  {
    ProgressStep(move, file, pos, out, from);
    ProgressStep(move, file, pos, all, BEFORE_ALL);
    var m := move(file[pos..]);
    if m.Take? {
      MaxSeqAppend(seq0, all, m.rec);
      assert out + [] == out;
    }
  }

  lemma ProgressEnd(move: Mover, file: Bytes, pos: nat, done: seq<Record>, from: int)
    requires pos <= |file| && Progress(move, file, pos, done, from)
    requires pos == |file| || move(file[pos..]) == Stop
    ensures done == Run(move, file, from)
  {
  }

  lemma MaxSeqAppend(cur: I64, recs: seq<Record>, r: Record)
    ensures MaxSeq(cur, recs + [r]) == if r.seqNo > MaxSeq(cur, recs) then r.seqNo else MaxSeq(cur, recs)
  {
    assert (recs + [r])[..|recs|] == recs;
  }

  lemma {:induction false} ConcatAppend(enc: Encoder, recs: seq<Record>, r: Record)
    ensures Concat(enc, recs + [r]) == Concat(enc, recs) + enc(r)
  {
    if recs != [] {
      assert (recs + [r])[1..] == recs[1..] + [r];
      ConcatAppend(enc, recs[1..], r);
    } else {
      assert [r][1..] == [];
    }
  }
}
