/** Sort keys of the in-memory table: byte strings, big-endian row ids and internal keys. */
module Keys {

  type Byte = b: int | 0 <= b < 256

  const U64: int := 0x1_0000_0000_0000_0000
  const MAX_SEQ: nat := 0xFFFF_FFFF_FFFF_FFFF
  const SEPARATOR: Byte := 0x1f

  /** Unsigned lexicographic order, as memcmp followed by a length comparison decides it. */
  predicate LexLess(a: seq<Byte>, b: seq<Byte>) {
    if b == [] then false
    else if a == [] then true
    else if a[0] != b[0] then a[0] < b[0]
    else LexLess(a[1..], b[1..])
  }

  lemma {:induction false} LexIrreflexive(a: seq<Byte>)
    ensures !LexLess(a, a)
  {
    if a != [] { LexIrreflexive(a[1..]); }
  }

  lemma {:induction false} LexTransitive(a: seq<Byte>, b: seq<Byte>, c: seq<Byte>)
    requires LexLess(a, b) && LexLess(b, c)
    ensures LexLess(a, c)
  {
    if a != [] && a[0] == b[0] && b[0] == c[0] { LexTransitive(a[1..], b[1..], c[1..]); }
  }

  lemma {:induction false} LexTotal(a: seq<Byte>, b: seq<Byte>)
    ensures LexLess(a, b) || a == b || LexLess(b, a)
  {
    if a != [] && b != [] && a[0] == b[0] {
      LexTotal(a[1..], b[1..]);
      assert a == [a[0]] + a[1..] && b == [b[0]] + b[1..];
    }
  }

  lemma {:induction false} LexCommonPrefix(p: seq<Byte>, a: seq<Byte>, b: seq<Byte>)
    ensures LexLess(p + a, p + b) <==> LexLess(a, b)
  {
    if p == [] {
      assert p + a == a && p + b == b;
    } else {
      assert (p + a)[1..] == p[1..] + a && (p + b)[1..] == p[1..] + b;
      LexCommonPrefix(p[1..], a, b);
    }
  }

  lemma {:induction false} LexLastByte(a: seq<Byte>, b: seq<Byte>, x: Byte, y: Byte)
    requires |a| == |b|
    ensures LexLess(a + [x], b + [y]) <==> (LexLess(a, b) || (a == b && x < y))
  {
    if a == [] {
      assert a + [x] == [x] && b + [y] == [y];
    } else {
      assert (a + [x])[1..] == a[1..] + [x] && (b + [y])[1..] == b[1..] + [y];
      LexLastByte(a[1..], b[1..], x, y);
      assert a == [a[0]] + a[1..] && b == [b[0]] + b[1..];
    }
  }

  /** The n low bytes of v, most significant first. */
  function BigEndian(v: nat, n: nat): (bytes: seq<Byte>)
    ensures |bytes| == n
  {
    if n == 0 then [] else BigEndian(v / 256, n - 1) + [v % 256]
  }

  function Pow256(n: nat): nat {
    if n == 0 then 1 else 256 * Pow256(n - 1)
  }

  lemma {:induction false} BigEndianOrder(a: nat, b: nat, n: nat)
    requires a < Pow256(n) && b < Pow256(n)
    ensures LexLess(BigEndian(a, n), BigEndian(b, n)) <==> a < b
    ensures BigEndian(a, n) == BigEndian(b, n) <==> a == b
  {
    if n > 0 {
      BigEndianOrder(a / 256, b / 256, n - 1);
      LexLastByte(BigEndian(a / 256, n - 1), BigEndian(b / 256, n - 1), a % 256, b % 256);
      var p, q := BigEndian(a / 256, n - 1), BigEndian(b / 256, n - 1);
      assert (p + [a % 256])[..n - 1] == p && (q + [b % 256])[..n - 1] == q;
      assert (p + [a % 256])[n - 1] == a % 256 && (q + [b % 256])[n - 1] == b % 256;
    }
  }

  /** "<table>\x1f<row id, eight bytes, big-endian>". The cast to an unsigned word is two's complement. */
  function MakeUserKey(table: seq<Byte>, rowId: int): seq<Byte> {
    table + [SEPARATOR] + BigEndian(rowId % U64, 8)
  }

  lemma Pow256Split(n: nat, m: nat)
    ensures Pow256(n + m) == Pow256(n) * Pow256(m)
  {
    if n > 0 { Pow256Split(n - 1, m); }
  }

  lemma EightBytes()
    ensures Pow256(8) == U64
  {
    assert Pow256(2) == 0x1_0000;
    Pow256Split(2, 2);
    Pow256Split(4, 4);
  }

  lemma {:induction false} SameTail<T>(p: seq<T>, a: seq<T>, b: seq<T>)
    requires p + a == p + b
    ensures a == b
  {
    assert a == (p + a)[|p|..] && b == (p + b)[|p|..];
  }

  lemma PrefixedOrder(p: seq<Byte>, a: nat, b: nat, n: nat)
    requires a < Pow256(n) && b < Pow256(n)
    ensures LexLess(p + BigEndian(a, n), p + BigEndian(b, n)) <==> a < b
    ensures p + BigEndian(a, n) == p + BigEndian(b, n) <==> a == b
  {
    BigEndianOrder(a, b, n);
    var x, y := BigEndian(a, n), BigEndian(b, n);
    LexCommonPrefix(p, x, y);
    if p + x == p + y { SameTail(p, x, y); }
  }

  /** The unsigned word a row id is cast to. */
  function Word(rowId: int): (w: nat)
    ensures w < U64
  {
    rowId % U64
  }

  /** User keys of one table compare as their row ids' unsigned words: non-negative ids first, in order. */
  lemma UserKeyOrder(table: seq<Byte>, a: int, b: int)
    ensures LexLess(MakeUserKey(table, a), MakeUserKey(table, b)) <==> Word(a) < Word(b)
    ensures MakeUserKey(table, a) == MakeUserKey(table, b) <==> Word(a) == Word(b)
  {
    var n := 8;
    assert Pow256(n) == U64 by { EightBytes(); }
    PrefixedOrder(table + [SEPARATOR], Word(a), Word(b), n);
  }

  predicate IsRowId(rowId: int) { -0x8000_0000_0000_0000 <= rowId < 0x8000_0000_0000_0000 }

  lemma WordsDiffer(a: int, b: int)
    requires IsRowId(a) && IsRowId(b)
    ensures Word(a) == Word(b) <==> a == b
    ensures 0 <= a && 0 <= b ==> Word(a) == a && Word(b) == b
  {
    assert a >= 0 ==> Word(a) == a;
    assert a < 0 ==> Word(a) == a + U64;
    assert b >= 0 ==> Word(b) == b;
    assert b < 0 ==> Word(b) == b + U64;
  }

  /** user_key ascending; within one user_key the larger sequence number comes first. */
  datatype InternalKey = InternalKey(userKey: seq<Byte>, seqNo: nat)

  predicate Less(a: InternalKey, b: InternalKey) {
    if a.userKey != b.userKey then LexLess(a.userKey, b.userKey) else a.seqNo > b.seqNo
  }

  lemma LessTransitive(a: InternalKey, b: InternalKey, c: InternalKey)
    requires Less(a, b) && Less(b, c)
    ensures Less(a, c)
  {
    if a.userKey != b.userKey && b.userKey != c.userKey {
      LexTransitive(a.userKey, b.userKey, c.userKey);
      LexIrreflexive(a.userKey);
    }
  }

  lemma LessTotal(a: InternalKey, b: InternalKey)
    ensures Less(a, b) || a == b || Less(b, a)
  {
    LexTotal(a.userKey, b.userKey);
  }

  /** The order laws in quantified form, for proofs about sorted sequences of keys. */
  lemma LessIsStrictTotalOrder()
    ensures forall a :: !Less(a, a)
    ensures forall a, b, c {:trigger Less(a, b), Less(b, c)} :: Less(a, b) && Less(b, c) ==> Less(a, c)
    ensures forall a, b {:trigger Less(a, b)} :: Less(a, b) || a == b || Less(b, a)
  {
    forall a, b, c | Less(a, b) && Less(b, c) ensures Less(a, c) { LessTransitive(a, b, c); }
    forall a, b ensures Less(a, b) || a == b || Less(b, a) { LessTotal(a, b); }
  }

  function VersionKey(table: seq<Byte>, rowId: int, seqNo: nat): InternalKey {
    InternalKey(MakeUserKey(table, rowId), seqNo)
  }

  /** The closed range [(uk, MAX_SEQ), (uk, 0)] holds every version of one row id and nothing else. */
  lemma VersionRange(table: seq<Byte>, rowId: int, other: int, seqNo: nat)
    requires IsRowId(rowId) && IsRowId(other) && seqNo <= MAX_SEQ
    ensures (!Less(VersionKey(table, other, seqNo), VersionKey(table, rowId, MAX_SEQ)) &&
             !Less(VersionKey(table, rowId, 0), VersionKey(table, other, seqNo)))
            <==> other == rowId
  {
    UserKeyOrder(table, other, rowId);
    UserKeyOrder(table, rowId, other);
    WordsDiffer(rowId, other);
  }
}
