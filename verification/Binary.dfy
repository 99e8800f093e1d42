/** Little-endian fixed-width integers over bytes. */
module Binary {
  import opened Keys

  type Bytes = seq<Byte>

  const U16: nat := 0x1_0000
  const U32: nat := 0x1_0000_0000

  // Writing keeps the low bytes only, as a narrowing cast does.

  function Put16(v: nat): (b: Bytes)
    ensures |b| == 2
  {
    [v % 256, v / 256 % 256]
  }

  function Put32(v: nat): (b: Bytes)
    ensures |b| == 4
  {
    [v % 256, v / 0x100 % 256, v / 0x1_0000 % 256, v / 0x100_0000 % 256]
  }

  function Put64(v: nat): (b: Bytes)
    ensures |b| == 8
  {
    Put32(Low(v)) + Put32(High(v))
  }

  function Low(v: nat): nat { v % 0x1_0000_0000 }

  function High(v: nat): nat { v / 0x1_0000_0000 % 0x1_0000_0000 }

  function Join(b0: int, b1: int, b2: int, b3: int): int {
    b0 + 0x100 * b1 + 0x1_0000 * b2 + 0x100_0000 * b3
  }

  function At16(buf: Bytes, pos: nat): (v: nat)
    requires pos + 2 <= |buf|
    ensures v < U16
  {
    Join(buf[pos], buf[pos + 1], 0, 0)
  }

  function At32(buf: Bytes, pos: nat): (v: nat)
    requires pos + 4 <= |buf|
    ensures v < U32
  {
    Join(buf[pos], buf[pos + 1], buf[pos + 2], buf[pos + 3])
  }

  function At64(buf: Bytes, pos: nat): (v: nat)
    requires pos + 8 <= |buf|
    ensures v < U64
  {
    At32(buf, pos) + 0x1_0000_0000 * At32(buf, pos + 4)
  }

  /** The bytes b stand at pos. */
  predicate Here(buf: Bytes, pos: nat, b: Bytes) {
    pos + |b| <= |buf| && buf[pos..pos + |b|] == b
  }

  /** Least significant byte first. */
  lemma LittleEndian()
    ensures Put16(0x1234) == [0x34, 0x12] && Put32(0x12345678) == [0x78, 0x56, 0x34, 0x12]
    ensures Put64(0x0102030405060708) == [8, 7, 6, 5, 4, 3, 2, 1]
  {
    assert Low(0x0102030405060708) == 0x05060708 && High(0x0102030405060708) == 0x01020304;
    assert Put32(0x05060708) == [8, 7, 6, 5];
    assert Put32(0x01020304) == [4, 3, 2, 1];
  }

  // ---------- reading what was written ----------

  lemma Digits32(v: nat)
    requires v < U32
    ensures v == Join(v % 256, v / 0x100 % 256, v / 0x1_0000 % 256, v / 0x100_0000 % 256)
  {
    var q1 := v / 0x100;
    var q2 := q1 / 0x100;
    var q3 := q2 / 0x100;
    assert v == v % 256 + 0x100 * q1 && q1 == q1 % 256 + 0x100 * q2 && q2 == q2 % 256 + 0x100 * q3;
    assert v / 0x1_0000 == q2 && v / 0x100_0000 == q3;
  }

  lemma Read16(buf: Bytes, pos: nat, v: nat)
    requires v < U16 && Here(buf, pos, Put16(v))
    ensures At16(buf, pos) == v
  {
    var b := buf[pos..pos + 2];
    assert b[0] == buf[pos] && b[1] == buf[pos + 1];
  }

  lemma Read32(buf: Bytes, pos: nat, v: nat)
    requires v < U32 && Here(buf, pos, Put32(v))
    ensures At32(buf, pos) == v
  {
    Digits32(v);
    var b := buf[pos..pos + 4];
    assert b[0] == buf[pos] && b[1] == buf[pos + 1] && b[2] == buf[pos + 2] && b[3] == buf[pos + 3];
  }

  lemma Read64(buf: Bytes, pos: nat, v: nat)
    requires v < U64 && Here(buf, pos, Put64(v))
    ensures At64(buf, pos) == v
  {
    var low, high := Low(v), High(v);
    Halves(v);
    assert Put64(v) == Put32(low) + Put32(high);
    ReadHalves(buf, pos, low, high);
  }

  lemma ReadHalves(buf: Bytes, pos: nat, low: nat, high: nat)
    requires low < U32 && high < U32 && Here(buf, pos, Put32(low) + Put32(high))
    ensures At64(buf, pos) == low + 0x1_0000_0000 * high
  {
    var b := buf[pos..pos + 8];
    assert b[..4] == Put32(low) && b[4..] == Put32(high);
    assert buf[pos..pos + 4] == b[..4] && buf[pos + 4..pos + 8] == b[4..];
    Read32(buf, pos, low);
    Read32(buf, pos + 4, high);
  }

  lemma Halves(v: nat)
    requires v < U64
    ensures v == Low(v) + 0x1_0000_0000 * High(v) && Low(v) < U32 && High(v) < U32
  {
  }

  lemma HalvesOf(low: nat, high: nat)
    requires low < U32 && high < U32
    ensures Low(low + 0x1_0000_0000 * high) == low && High(low + 0x1_0000_0000 * high) == high
  {
  }

  // ---------- writing what was read ----------

  lemma Rewrite16(buf: Bytes, pos: nat)
    requires pos + 2 <= |buf|
    ensures Put16(At16(buf, pos)) == buf[pos..pos + 2]
  {
  }

  lemma Rewrite32(buf: Bytes, pos: nat)
    requires pos + 4 <= |buf|
    ensures Put32(At32(buf, pos)) == buf[pos..pos + 4]
  {
    SplitJoin(buf[pos], buf[pos + 1], buf[pos + 2], buf[pos + 3]);
  }

  lemma SplitJoin(b0: Byte, b1: Byte, b2: Byte, b3: Byte)
    ensures var v := Join(b0, b1, b2, b3);
            0 <= v && v % 256 == b0 && v / 0x100 % 256 == b1 && v / 0x1_0000 % 256 == b2 && v / 0x100_0000 % 256 == b3
  {
    var v := Join(b0, b1, b2, b3);
    var v1 := Join(b1, b2, b3, 0);
    var v2 := Join(b2, b3, 0, 0);
    assert v == b0 + 0x100 * v1 && v1 == b1 + 0x100 * v2 && v2 == b2 + 0x100 * b3;
    assert v / 0x100 == v1 && v1 / 0x100 == v2 && v2 / 0x100 == b3;
    assert v / 0x1_0000 == v2 && v / 0x100_0000 == b3;
  }

  lemma PutHalves(v: nat, low: nat, high: nat)
    requires low < U32 && high < U32 && v == low + 0x1_0000_0000 * high
    ensures Put64(v) == Put32(low) + Put32(high)
  {
    HalvesOf(low, high);
  }

  lemma JoinSlices(buf: Bytes, pos: nat)
    requires pos + 8 <= |buf|
    ensures buf[pos..pos + 8] == buf[pos..pos + 4] + buf[pos + 4..pos + 8]
  {
  }

  lemma Rewrite64(buf: Bytes, pos: nat)
    requires pos + 8 <= |buf|
    ensures Put64(At64(buf, pos)) == buf[pos..pos + 8]
  {
    Rewrite32(buf, pos);
    Rewrite32(buf, pos + 4);
    PutHalves(At64(buf, pos), At32(buf, pos), At32(buf, pos + 4));
    JoinSlices(buf, pos);
  }

  // ---------- signed 64-bit integers as patterns ----------

  const I64_END: int := 0x8000_0000_0000_0000

  predicate IsI64(v: int) { -I64_END <= v < I64_END }

  function ToU64(v: int): (p: nat)
    requires IsI64(v)
    ensures p < U64
  {
    if v < 0 then v + U64 else v
  }

  function ToI64(p: nat): (v: int)
    requires p < U64
    ensures IsI64(v)
  {
    if p < I64_END then p else p - U64
  }

  lemma SignedRoundTrip(v: int)
    requires IsI64(v)
    ensures ToI64(ToU64(v)) == v
  {
  }

  lemma PatternRoundTrip(p: nat)
    requires p < U64
    ensures ToU64(ToI64(p)) == p
  {
  }
}
