/** Streaming SHA-256: bytes arrive in pieces; the digest is that of the padded message, block by block. */
module Sha256 {
  import opened Keys

  type Bytes = seq<Byte>

  /** The word operations of section 4.1.2 of FIPS 180-4, kept as values: streaming does not depend on what they are. */
  datatype Ops<!W> = Ops(
    add: (W, W) -> W, ch: (W, W, W) -> W, maj: (W, W, W) -> W,
    ep0: W -> W, ep1: W -> W, sig0: W -> W, sig1: W -> W,
    k: seq<W>, iv: seq<W>,
    join: (Byte, Byte, Byte, Byte) -> W, split: W -> (Byte, Byte, Byte, Byte))

  predicate Sized<W>(o: Ops<W>) { |o.k| == 64 && |o.iv| == 8 }

  datatype Vars<W> = Vars(a: W, b: W, c: W, d: W, e: W, f: W, g: W, h: W)

  // ---------- section 6.2: the hash of a padded message ----------

  /** The message schedule. */
  function Schedule<W>(o: Ops<W>, block: Bytes, t: nat): W
    requires |block| == 64
  {
    if t < 16 then o.join(block[4 * t], block[4 * t + 1], block[4 * t + 2], block[4 * t + 3])
    else o.add(o.add(o.add(o.sig1(Schedule(o, block, t - 2)), Schedule(o, block, t - 7)), o.sig0(Schedule(o, block, t - 15))),
               Schedule(o, block, t - 16))
  }

  function Round<W>(o: Ops<W>, v: Vars<W>, kt: W, wt: W): Vars<W> {
    var t1 := o.add(o.add(o.add(o.add(v.h, o.ep1(v.e)), o.ch(v.e, v.f, v.g)), kt), wt);
    var t2 := o.add(o.ep0(v.a), o.maj(v.a, v.b, v.c));
    Vars(o.add(t1, t2), v.a, v.b, v.c, o.add(v.d, t1), v.e, v.f, v.g)
  }

  function Rounds<W>(o: Ops<W>, block: Bytes, v: Vars<W>, t: nat): Vars<W>
    requires |block| == 64 && Sized(o) && t <= 64
  {
    if t == 0 then v else Round(o, Rounds(o, block, v, t - 1), o.k[t - 1], Schedule(o, block, t - 1))
  }

  function VarsOf<W>(s: seq<W>): Vars<W>
    requires |s| == 8
  {
    Vars(s[0], s[1], s[2], s[3], s[4], s[5], s[6], s[7])
  }

  function Compress<W>(o: Ops<W>, s: seq<W>, block: Bytes): (r: seq<W>)
    requires |s| == 8 && |block| == 64 && Sized(o)
    ensures |r| == 8
  {
    var v := Rounds(o, block, VarsOf(s), 64);
    [o.add(s[0], v.a), o.add(s[1], v.b), o.add(s[2], v.c), o.add(s[3], v.d),
     o.add(s[4], v.e), o.add(s[5], v.f), o.add(s[6], v.g), o.add(s[7], v.h)]
  }

  function Block(m: Bytes, i: nat): (b: Bytes)
    requires 64 * i + 64 <= |m|
    ensures |b| == 64
  {
    m[64 * i..64 * i + 64]
  }

  type Hasher<!S> = (S, Bytes) -> S

  function Compression<W>(o: Ops<W>): Hasher<seq<W>>
    requires Sized(o)
  {
    (s: seq<W>, block: Bytes) => if |s| == 8 && |block| == 64 then Compress(o, s, block) else s
  }

  /** The state after the first n blocks of a message, for any compression f. */
  function AfterBlocks<S>(f: Hasher<S>, iv: S, m: Bytes, n: nat): S
    requires 64 * n <= |m|
  {
    if n == 0 then iv else f(AfterBlocks(f, iv, m, n - 1), Block(m, n - 1))
  }

  /** Section 5.1.1: a one bit, zeros up to 56 modulo 64, and the length in bits as 64 bits. */
  function Pad(m: Bytes): Bytes {
    PadWith(m, BitLength(Wrap(8 * |m|)))
  }

  function PadWith(m: Bytes, length: Bytes): Bytes {
    m + [0x80] + Zeros(ZeroCount(|m|)) + length
  }

  /** Arithmetic of an unsigned 64-bit counter. */
  function Wrap(v: nat): nat { v % 0x1_0000_0000_0000_0000 }

  function BlockBits(n: nat): nat { Wrap(512 * n) }

  function Zeros(n: nat): (z: Bytes)
    ensures |z| == n && forall i | 0 <= i < n :: z[i] == 0
  {
    if n == 0 then [] else Zeros(n - 1) + [0]
  }

  function ByteAt(v: nat, unit: nat): Byte
    requires unit > 0
  {
    v / unit % 256
  }

  /** Most significant byte first. */
  function BitLength(v: nat): (b: Bytes)
    ensures |b| == 8
  {
    [ByteAt(v, 0x100_0000_0000_0000), ByteAt(v, 0x1_0000_0000_0000), ByteAt(v, 0x100_0000_0000), ByteAt(v, 0x1_0000_0000),
     ByteAt(v, 0x100_0000), ByteAt(v, 0x1_0000), ByteAt(v, 0x100), ByteAt(v, 1)]
  }

  /** Section 5.1.1: the message, a one bit, the fewest zeros that fill whole blocks, and the length in bits. */
  lemma PadExactly(m: Bytes)
    ensures |Pad(m)| % 64 == 0 && |m| + 9 <= |Pad(m)| < |m| + 73
    ensures Pad(m)[..|m|] == m && Pad(m)[|m|] == 0x80
    ensures forall i | |m| < i < |Pad(m)| - 8 :: Pad(m)[i] == 0
    ensures BigEndian(Pad(m)[|Pad(m)| - 8..]) == 8 * |m| % 0x1_0000_0000_0000_0000
  {
    var v := Wrap(8 * |m|);
    PadParts(m, [0x80], Zeros(ZeroCount(|m|)), BitLength(v));
    LengthFills(|m|);
    LengthIsBigEndian(v);
  }

  lemma PadParts(m: Bytes, one: Bytes, zeros: Bytes, length: Bytes)
    requires |one| == 1 && |length| == 8 && forall i | 0 <= i < |zeros| :: zeros[i] == 0
    ensures var all := m + one + zeros + length;
            && |all| == |m| + |zeros| + 9 && all[..|m|] == m && all[|m|] == one[0] && all[|all| - 8..] == length
            && forall i | |m| < i < |all| - 8 :: all[i] == 0
  {
  }

  lemma LengthFills(size: nat)
    ensures (size + ZeroCount(size) + 9) % 64 == 0 && ZeroCount(size) < 64
  {
  }

  /** The number that the bytes stand for, most significant first. */
  function BigEndian(b: Bytes): nat {
    if b == [] then 0 else 256 * BigEndian(b[..|b| - 1]) + b[|b| - 1]
  }

  lemma LengthIsBigEndian(v: nat)
    requires v < 0x1_0000_0000_0000_0000
    ensures BigEndian(BitLength(v)) == v
  {
    var w := v / 0x1_0000_0000;
    HighBytes(v);
    assert BigEndian([]) == 0;
    FourMore([], 0, w);
    var high := [] + [ByteAt(w, 0x100_0000), ByteAt(w, 0x1_0000), ByteAt(w, 0x100), ByteAt(w, 1)];
    FourMore(high, w, v);
    assert BitLength(v) == high + [ByteAt(v, 0x100_0000), ByteAt(v, 0x1_0000), ByteAt(v, 0x100), ByteAt(v, 1)];
  }

  lemma HighBytes(v: nat)
    ensures var w := v / 0x1_0000_0000;
            && ByteAt(v, 0x100_0000_0000_0000) == ByteAt(w, 0x100_0000) && ByteAt(v, 0x1_0000_0000_0000) == ByteAt(w, 0x1_0000)
            && ByteAt(v, 0x100_0000_0000) == ByteAt(w, 0x100) && ByteAt(v, 0x1_0000_0000) == ByteAt(w, 1)
  {
  }

  /** The next lower four bytes of a number. */
  lemma FourMore(high: Bytes, q: nat, v: nat)
    requires BigEndian(high) == q && q == v / 0x1_0000_0000
    ensures BigEndian(high + [ByteAt(v, 0x100_0000), ByteAt(v, 0x1_0000), ByteAt(v, 0x100), ByteAt(v, 1)]) == v
  {
    var q1 := v / 0x100;
    var q2 := q1 / 0x100;
    var q3 := q2 / 0x100;
    assert q2 == v / 0x1_0000 && q3 == v / 0x100_0000 && q3 / 0x100 == q;
    OneMore(high, q3 % 256, q3);
    OneMore(high + [q3 % 256], q2 % 256, q2);
    OneMore(high + [q3 % 256] + [q2 % 256], q1 % 256, q1);
    OneMore(high + [q3 % 256] + [q2 % 256] + [q1 % 256], v % 256, v);
    assert high + [q3 % 256] + [q2 % 256] + [q1 % 256] + [v % 256] == high + [q3 % 256, q2 % 256, q1 % 256, v % 256];
  }

  lemma OneMore(high: Bytes, low: Byte, v: nat)
    requires BigEndian(high) == v / 256 && low == v % 256
    ensures BigEndian(high + [low]) == v
  {
    assert (high + [low])[..|high|] == high;
  }

  function SplitAll<W>(o: Ops<W>, s: seq<W>): Bytes {
    if s == [] then []
    else
      var w := o.split(s[|s| - 1]);
      SplitAll(o, s[..|s| - 1]) + [w.0, w.1, w.2, w.3]
  }

  function Digest<W>(o: Ops<W>, m: Bytes): Bytes
    requires Sized(o)
  {
    SplitAll(o, AfterBlocks(Compression(o), o.iv, Pad(m), |Pad(m)| / 64))
  }

  // ---------- blocks of growing messages ----------

  lemma BlockPrefix(m: Bytes, more: Bytes, i: nat)
    requires 64 * i + 64 <= |m| && m <= more
    ensures Block(more, i) == Block(m, i)
  {
  }

  lemma {:induction false} AfterBlocksPrefix<S>(f: Hasher<S>, iv: S, m: Bytes, more: Bytes, n: nat)
    requires 64 * n <= |m| && m <= more
    ensures AfterBlocks(f, iv, more, n) == AfterBlocks(f, iv, m, n)
  {
    if n > 0 {
      AfterBlocksPrefix(f, iv, m, more, n - 1);
      BlockPrefix(m, more, n - 1);
    }
  }

  /** One more whole block. */
  lemma AfterOneMore<S>(f: Hasher<S>, iv: S, m: Bytes, block: Bytes, n: nat)
    requires |m| == 64 * n && |block| == 64
    ensures AfterBlocks(f, iv, m + block, n + 1) == f(AfterBlocks(f, iv, m, n), block)
  {
    AfterBlocksPrefix(f, iv, m, m + block, n);
    assert Block(m + block, n) == block;
  }

  function ZeroCount(size: nat): nat {
    var r := size % 64;
    if r < 56 then 55 - r else 119 - r
  }

  lemma TailLength(size: nat, tail: nat, n: nat)
    requires size == 64 * n + tail && tail < 64
    ensures ZeroCount(size) == if tail < 56 then 56 - tail - 1 else 64 - tail - 1 + 56
  {
    assert size % 64 == tail;
  }

  lemma PadWithCount(m: Bytes, length: Bytes, z: nat)
    requires ZeroCount(|m|) == z
    ensures PadWith(m, length) == m + [0x80] + Zeros(z) + length
  {
  }

  lemma JoinShort(whole: Bytes, tail: Bytes, one: Bytes, zeros: Bytes, length: Bytes)
    ensures (whole + tail) + one + zeros + length == whole + (tail + one + zeros) + length
  {
  }

  lemma JoinLong(whole: Bytes, tail: Bytes, one: Bytes, z1: Bytes, z2: Bytes, length: Bytes)
    ensures (whole + tail) + one + (z1 + z2) + length == (whole + (tail + one + z1)) + z2 + length
  {
  }

  /** The padded message, when the length still fits into the block of the tail. */
  lemma PadShort(whole: Bytes, tail: Bytes, n: nat, front: Bytes, length: Bytes)
    requires |whole| == 64 * n && |tail| < 56 && front == tail + [0x80] + Zeros(56 - |tail| - 1)
    ensures PadWith(whole + tail, length) == whole + front + length
  {
    TailLength(|whole + tail|, |tail|, n);
    PadWithCount(whole + tail, length, 56 - |tail| - 1);
    JoinShort(whole, tail, [0x80], Zeros(56 - |tail| - 1), length);
  }

  /** The padded message, when the length needs one more block. */
  lemma PadLong(whole: Bytes, tail: Bytes, n: nat, block: Bytes, front: Bytes, length: Bytes)
    requires |whole| == 64 * n && 56 <= |tail| < 64 && block == tail + [0x80] + Zeros(64 - |tail| - 1) && front == Zeros(56)
    ensures PadWith(whole + tail, length) == (whole + block) + front + length
  {
    TailLength(|whole + tail|, |tail|, n);
    PadWithCount(whole + tail, length, 64 - |tail| - 1 + |front|);
    ZerosJoin(64 - |tail| - 1, |front|);
    JoinLong(whole, tail, [0x80], Zeros(64 - |tail| - 1), front, length);
  }

  lemma Regroup(a: Bytes, b: Bytes, c: Bytes)
    ensures a + b + c == a + (b + c)
  {
  }

  lemma {:induction false} ZerosJoin(a: nat, b: nat)
    ensures Zeros(a) + Zeros(b) == Zeros(a + b)
  {
    if b > 0 {
      ZerosJoin(a, b - 1);
      assert Zeros(a) + Zeros(b) == (Zeros(a) + Zeros(b - 1)) + [0];
    }
  }

  // ---------- the context ----------

  class Context<W(!new)> {
    const o: Ops<W>
    const data: array<Byte>
    var datalen: nat
    var bitlen: nat
    var state: seq<W>
    ghost const f: Hasher<seq<W>>
    ghost var whole: Bytes // the blocks already hashed
    ghost var blocks: nat

    ghost predicate Ready() { Sized(o) && data.Length == 64 && forall s, block :: CompressAt(f, o, s, block) }

    ghost predicate Hashed()
      reads this
    {
      |state| == 8 && |whole| == 64 * blocks && state == AfterBlocks(f, o.iv, whole, blocks)
    }

    ghost predicate Valid()
      reads this, data
    {
      && Ready() && Hashed() && datalen < 64
      && bitlen == BlockBits(blocks)
    }

    /** All bytes so far. */
    ghost function Seen(): Bytes
      reads this, data
      requires datalen <= data.Length
    {
      whole + data[..datalen]
    }

    constructor (o: Ops<W>)
      requires Sized(o)
      ensures Valid() && Seen() == [] && this.o == o && fresh(data)
    {
      this.o := o;
      data := new Byte[64](_ => 0);
      f := Compression(o);
      datalen, bitlen, state, whole, blocks := 0, 0, o.iv, [], 0;
    }

    method Transform(block: Bytes)
      requires Sized(o) && |state| == 8 && |block| == 64
      modifies this`state
      ensures state == Compress(o, old(state), block)
    {
      var m: seq<W> := [];
      for i := 0 to 16
        modifies {}
        invariant |m| == i && forall t | 0 <= t < i :: m[t] == Schedule(o, block, t)
      {
        m := m + [o.join(block[4 * i], block[4 * i + 1], block[4 * i + 2], block[4 * i + 3])];
      }
      for i := 16 to 64
        modifies {}
        invariant |m| == i && forall t | 0 <= t < i :: m[t] == Schedule(o, block, t)
      {
        var next := o.add(o.add(o.add(o.sig1(m[i - 2]), m[i - 7]), o.sig0(m[i - 15])), m[i - 16]);
        assert next == Schedule(o, block, i);
        m := m + [next];
      }
      var v := RunRounds(block, m);
      state := [o.add(state[0], v.a), o.add(state[1], v.b), o.add(state[2], v.c), o.add(state[3], v.d),
                o.add(state[4], v.e), o.add(state[5], v.f), o.add(state[6], v.g), o.add(state[7], v.h)];
    }

    method RunRounds(ghost block: Bytes, m: seq<W>) returns (v: Vars<W>)
      requires Sized(o) && |state| == 8 && |block| == 64 && |m| == 64
      requires forall t | 0 <= t < 64 :: m[t] == Schedule(o, block, t)
      ensures v == Rounds(o, block, VarsOf(state), 64)
    {
      var a, b, c, d := state[0], state[1], state[2], state[3];
      var e, f, g, h := state[4], state[5], state[6], state[7];
      for i := 0 to 64
        invariant Vars(a, b, c, d, e, f, g, h) == Rounds(o, block, VarsOf(state), i)
      {
        var t1 := o.add(o.add(o.add(o.add(h, o.ep1(e)), o.ch(e, f, g)), o.k[i]), m[i]);
        var t2 := o.add(o.ep0(a), o.maj(a, b, c));
        h := g;
        g := f;
        f := e;
        e := o.add(d, t1);
        d := c;
        c := b;
        b := a;
        a := o.add(t1, t2);
      }
      return Vars(a, b, c, d, e, f, g, h);
    }

    method UpdateByte(x: Byte)
      requires Valid()
      modifies this, data
      ensures Valid() && Seen() == old(Seen()) + [x]
    {
      data[datalen] := x;
      datalen := datalen + 1;
      assert data[..datalen] == old(data[..datalen]) + [x];
      if datalen == 64 {
        assert data[..] == data[..64];
        HashBlock();
        BitsOfNext(blocks - 1);
        bitlen := Wrap(bitlen + 512);
        datalen := 0;
      }
    }

    /** Hashes the full buffer; the counters are the caller's business. */
    method HashBlock()
      requires Ready() && Hashed()
      modifies this`state, this`whole, this`blocks
      ensures Hashed() && blocks == old(blocks) + 1 && whole == old(whole) + data[..]
    {
      AfterOneMore(f, o.iv, whole, data[..], blocks);
      assert CompressAt(f, o, state, data[..]);
      Transform(data[..]);
      whole, blocks := whole + data[..], blocks + 1;
    }

    method Update(bytes: Bytes)
      requires Valid()
      modifies this, data
      ensures Valid() && Seen() == old(Seen()) + bytes
    {
      for i := 0 to |bytes|
        invariant Valid() && Seen() == old(Seen()) + bytes[..i]
      {
        UpdateByte(bytes[i]);
        assert bytes[..i + 1] == bytes[..i] + [bytes[i]];
      }
      assert bytes[..|bytes|] == bytes;
    }

    /** Fills the buffer with a one bit and zeros from datalen up to end. */
    method PadBuffer(end: nat)
      requires data.Length == 64 && datalen < end <= 64
      modifies data
      ensures data[..end] == old(data[..datalen]) + [0x80] + Zeros(end - datalen - 1)
    {
      var i := datalen;
      data[i] := 0x80;
      i := i + 1;
      assert data[..i] == old(data[..datalen]) + [0x80] + Zeros(0);
      while i < end
        invariant datalen < i <= end
        invariant data[..i] == old(data[..datalen]) + [0x80] + Zeros(i - datalen - 1)
      {
        data[i] := 0;
        i := i + 1;
        assert data[..i] == data[..i - 1] + [0];
      }
    }

    method PutLength(v: nat)
      requires data.Length == 64
      modifies data
      ensures data[..] == old(data[..56]) + BitLength(v)
    {
      data[63] := ByteAt(v, 1);
      data[62] := ByteAt(v, 0x100);
      data[61] := ByteAt(v, 0x1_0000);
      data[60] := ByteAt(v, 0x100_0000);
      data[59] := ByteAt(v, 0x1_0000_0000);
      data[58] := ByteAt(v, 0x100_0000_0000);
      data[57] := ByteAt(v, 0x1_0000_0000_0000);
      data[56] := ByteAt(v, 0x100_0000_0000_0000);
    }

    method ClearFront()
      requires data.Length == 64
      modifies data
      ensures data[..56] == Zeros(56)
    {
      for i := 0 to 56
        invariant data[..i] == Zeros(i)
      {
        data[i] := 0;
        assert data[..i + 1] == data[..i] + [0];
      }
    }

    /** Everything of the padding but the length. */
    method PadTail(ghost length: Bytes)
      requires Valid()
      modifies this`state, this`whole, this`blocks, data
      ensures Hashed() && whole + data[..56] + length == PadWith(old(Seen()), length)
    {
      ghost var w, tail, n := whole, data[..datalen], blocks;
      if datalen < 56 {
        PadBuffer(56);
        PadShort(w, tail, n, data[..56], length);
      } else {
        PadBuffer(64);
        ghost var block := data[..];
        assert block == data[..64];
        HashBlock();
        ClearFront();
        PadLong(w, tail, n, block, data[..56], length);
      }
    }

    method Close()
      requires Valid()
      modifies this`state, this`whole, this`blocks, this`bitlen, data
      ensures Hashed() && whole == Pad(old(Seen()))
    {
      LengthWraps(blocks, datalen);
      ghost var length := BitLength(Wrap(8 * |Seen()|));
      PadTail(length);
      bitlen := Wrap(bitlen + datalen * 8);
      Regroup(whole, data[..56], length);
      PutLength(bitlen);
      HashBlock();
    }

    /** The digest; the context is used up. */
    method Final() returns (hash: Bytes)
      requires Valid()
      modifies this, data
      ensures hash == Digest(o, old(Seen()))
    {
      Close();
      DigestOf(o, f, old(Seen()), whole, blocks);
      hash := [];
      for j := 0 to 8
        invariant hash == SplitAll(o, state[..j])
      {
        assert state[..j + 1][..j] == state[..j];
        var w := o.split(state[j]);
        hash := hash + [w.0, w.1, w.2, w.3];
      }
      assert state[..8] == state;
    }
  }

  lemma LengthWraps(n: nat, tail: nat)
    requires tail < 64
    ensures Wrap(BlockBits(n) + tail * 8) == Wrap(8 * (64 * n + tail))
  {
  }

  lemma BitsOfNext(n: nat)
    ensures Wrap(BlockBits(n) + 512) == BlockBits(n + 1)
  {
  }

  /** f is the compression, at one state and block. */
  ghost predicate CompressAt<W>(f: Hasher<seq<W>>, o: Ops<W>, s: seq<W>, block: Bytes)
    requires Sized(o)
  {
    |s| == 8 && |block| == 64 ==> f(s, block) == Compress(o, s, block)
  }

  lemma {:induction false} SameAfterBlocks<W(!new)>(o: Ops<W>, f: Hasher<seq<W>>, m: Bytes, n: nat)
    requires Sized(o) && 64 * n <= |m| && forall s, block :: CompressAt(f, o, s, block)
    ensures AfterBlocks(f, o.iv, m, n) == AfterBlocks(Compression(o), o.iv, m, n) && |AfterBlocks(f, o.iv, m, n)| == 8
  {
    if n > 0 {
      SameAfterBlocks(o, f, m, n - 1);
      assert CompressAt(f, o, AfterBlocks(f, o.iv, m, n - 1), Block(m, n - 1));
    }
  }

  lemma DigestOf<W(!new)>(o: Ops<W>, f: Hasher<seq<W>>, m: Bytes, padded: Bytes, n: nat)
    requires Sized(o) && padded == Pad(m) && |padded| == 64 * n && forall s, block :: CompressAt(f, o, s, block)
    ensures Digest(o, m) == SplitAll(o, AfterBlocks(f, o.iv, padded, n))
  {
    assert |padded| / 64 == n;
    SameAfterBlocks(o, f, padded, n);
  }

  function Joined(pieces: seq<Bytes>): Bytes {
    if pieces == [] then [] else Joined(pieces[..|pieces| - 1]) + pieces[|pieces| - 1]
  }

  /** However the message is cut into pieces, the digest is that of the whole message. */
  method HashPieces<W(!new)>(o: Ops<W>, pieces: seq<Bytes>) returns (hash: Bytes)
    requires Sized(o)
    ensures hash == Digest(o, Joined(pieces))
  {
    var ctx := new Context(o);
    for i := 0 to |pieces|
      invariant ctx.Valid() && fresh(ctx) && fresh(ctx.data) && ctx.o == o
      invariant ctx.Seen() == Joined(pieces[..i])
    {
      assert pieces[..i + 1][..i] == pieces[..i];
      ctx.Update(pieces[i]);
    }
    assert pieces[..|pieces|] == pieces;
    hash := ctx.Final();
  }

  // ---------- the words of FIPS 180-4 ----------

  function RotateRight(x: bv32, n: nat): bv32
    requires 0 < n < 32
  {
    (x >> n) | (x << (32 - n))
  }

  function Add32(x: bv32, y: bv32): bv32 { x + y }
  function Ch(x: bv32, y: bv32, z: bv32): bv32 { (x & y) ^ (!x & z) }
  function Maj(x: bv32, y: bv32, z: bv32): bv32 { (x & y) ^ (x & z) ^ (y & z) }
  function Ep0(x: bv32): bv32 { RotateRight(x, 2) ^ RotateRight(x, 13) ^ RotateRight(x, 22) }
  function Ep1(x: bv32): bv32 { RotateRight(x, 6) ^ RotateRight(x, 11) ^ RotateRight(x, 25) }
  function Sig0(x: bv32): bv32 { RotateRight(x, 7) ^ RotateRight(x, 18) ^ (x >> 3) }
  function Sig1(x: bv32): bv32 { RotateRight(x, 17) ^ RotateRight(x, 19) ^ (x >> 10) }

  function Wide(b: Byte): bv32 { (b as bv8) as bv32 }

  function JoinBytes(b0: Byte, b1: Byte, b2: Byte, b3: Byte): bv32 {
    (Wide(b0) << 24) | (Wide(b1) << 16) | (Wide(b2) << 8) | Wide(b3)
  }

  function LowByte(x: bv32): Byte { ((x & 0xFF) as bv8) as int }

  function SplitWord(x: bv32): (Byte, Byte, Byte, Byte) {
    (LowByte(x >> 24), LowByte(x >> 16), LowByte(x >> 8), LowByte(x))
  }

  const K0: seq<bv32> := [0x428a2f98, 0x71374491, 0xb5c0fbcf, 0xe9b5dba5, 0x3956c25b, 0x59f111f1, 0x923f82a4, 0xab1c5ed5]
  const K1: seq<bv32> := [0xd807aa98, 0x12835b01, 0x243185be, 0x550c7dc3, 0x72be5d74, 0x80deb1fe, 0x9bdc06a7, 0xc19bf174]
  const K2: seq<bv32> := [0xe49b69c1, 0xefbe4786, 0x0fc19dc6, 0x240ca1cc, 0x2de92c6f, 0x4a7484aa, 0x5cb0a9dc, 0x76f988da]
  const K3: seq<bv32> := [0x983e5152, 0xa831c66d, 0xb00327c8, 0xbf597fc7, 0xc6e00bf3, 0xd5a79147, 0x06ca6351, 0x14292967]
  const K4: seq<bv32> := [0x27b70a85, 0x2e1b2138, 0x4d2c6dfc, 0x53380d13, 0x650a7354, 0x766a0abb, 0x81c2c92e, 0x92722c85]
  const K5: seq<bv32> := [0xa2bfe8a1, 0xa81a664b, 0xc24b8b70, 0xc76c51a3, 0xd192e819, 0xd6990624, 0xf40e3585, 0x106aa070]
  const K6: seq<bv32> := [0x19a4c116, 0x1e376c08, 0x2748774c, 0x34b0bcb5, 0x391c0cb3, 0x4ed8aa4a, 0x5b9cca4f, 0x682e6ff3]
  const K7: seq<bv32> := [0x748f82ee, 0x78a5636f, 0x84c87814, 0x8cc70208, 0x90befffa, 0xa4506ceb, 0xbef9a3f7, 0xc67178f2]

  const K: seq<bv32> := K0 + K1 + K2 + K3 + K4 + K5 + K6 + K7

  const IV: seq<bv32> := [0x6a09e667, 0xbb67ae85, 0x3c6ef372, 0xa54ff53a, 0x510e527f, 0x9b05688c, 0x1f83d9ab, 0x5be0cd19]

  function Fips(): Ops<bv32> { Ops(Add32, Ch, Maj, Ep0, Ep1, Sig0, Sig1, K, IV, JoinBytes, SplitWord) }

  // ---------- where the constants come from: sections 4.2.2 and 5.3.3 ----------

  const PRIMES0: seq<nat> := [2, 3, 5, 7, 11, 13, 17, 19]
  const PRIMES1: seq<nat> := [23, 29, 31, 37, 41, 43, 47, 53]
  const PRIMES2: seq<nat> := [59, 61, 67, 71, 73, 79, 83, 89]
  const PRIMES3: seq<nat> := [97, 101, 103, 107, 109, 113, 127, 131]
  const PRIMES4: seq<nat> := [137, 139, 149, 151, 157, 163, 167, 173]
  const PRIMES5: seq<nat> := [179, 181, 191, 193, 197, 199, 211, 223]
  const PRIMES6: seq<nat> := [227, 229, 233, 239, 241, 251, 257, 263]
  const PRIMES7: seq<nat> := [269, 271, 277, 281, 283, 293, 307, 311]

  /** root is p's cube root times 2^32, rounded down, and bits its last 32 bits: the first ones behind the point. */
  predicate CubeRootBits(p: nat, bits: bv32, root: nat) {
    && root * root * root <= p * 0x1_0000_0000_0000_0000_0000_0000 < (root + 1) * (root + 1) * (root + 1)
    && root % 0x1_0000_0000 == bits as nat
  }

  predicate SquareRootBits(p: nat, bits: bv32, root: nat) {
    && root * root <= p * 0x1_0000_0000_0000_0000 < (root + 1) * (root + 1)
    && root % 0x1_0000_0000 == bits as nat
  }

  /** The initial state: the square roots of the first eight primes. */
  lemma InitialFromRoots()
    ensures forall i | 0 <= i < 8 :: exists root :: SquareRootBits(PRIMES0[i], IV[i], root)
  {
    assert SquareRootBits(PRIMES0[0], IV[0], 0x16a09e667);
    assert SquareRootBits(PRIMES0[1], IV[1], 0x1bb67ae85);
    assert SquareRootBits(PRIMES0[2], IV[2], 0x23c6ef372);
    assert SquareRootBits(PRIMES0[3], IV[3], 0x2a54ff53a);
    assert SquareRootBits(PRIMES0[4], IV[4], 0x3510e527f);
    assert SquareRootBits(PRIMES0[5], IV[5], 0x39b05688c);
    assert SquareRootBits(PRIMES0[6], IV[6], 0x41f83d9ab);
    assert SquareRootBits(PRIMES0[7], IV[7], 0x45be0cd19);
  }

  ghost predicate FromCubeRoot(p: nat, bits: bv32) { exists root :: CubeRootBits(p, bits, root) }

  ghost predicate FromCubeRoots(primes: seq<nat>, bits: seq<bv32>) {
    |primes| == |bits| && forall i | 0 <= i < |bits| :: FromCubeRoot(primes[i], bits[i])
  }

  lemma FromMoreCubeRoots(primes: seq<nat>, bits: seq<bv32>, more: seq<nat>, moreBits: seq<bv32>)
    requires FromCubeRoots(primes, bits) && FromCubeRoots(more, moreBits)
    ensures FromCubeRoots(primes + more, bits + moreBits)
  {
    var n := |bits|;
    forall i | 0 <= i < n + |moreBits| ensures FromCubeRoot((primes + more)[i], (bits + moreBits)[i]) {
      if i < n {
        assert FromCubeRoot(primes[i], bits[i]);
      } else {
        assert FromCubeRoot(more[i - n], moreBits[i - n]);
      }
    }
  }

  /** The round constants: the cube roots of the first sixty-four primes. */
  lemma ConstantsFromRoots()
    ensures |K| == 64
    ensures FromCubeRoots(PRIMES0 + PRIMES1 + PRIMES2 + PRIMES3 + PRIMES4 + PRIMES5 + PRIMES6 + PRIMES7, K)
  {
    var primes, bits := PRIMES0, K0;
    RootsOfRow0();
    RootsOfRow1();
    FromMoreCubeRoots(primes, bits, PRIMES1, K1);
    primes, bits := primes + PRIMES1, bits + K1;
    RootsOfRow2();
    FromMoreCubeRoots(primes, bits, PRIMES2, K2);
    primes, bits := primes + PRIMES2, bits + K2;
    RootsOfRow3();
    FromMoreCubeRoots(primes, bits, PRIMES3, K3);
    primes, bits := primes + PRIMES3, bits + K3;
    RootsOfRow4();
    FromMoreCubeRoots(primes, bits, PRIMES4, K4);
    primes, bits := primes + PRIMES4, bits + K4;
    RootsOfRow5();
    FromMoreCubeRoots(primes, bits, PRIMES5, K5);
    primes, bits := primes + PRIMES5, bits + K5;
    RootsOfRow6();
    FromMoreCubeRoots(primes, bits, PRIMES6, K6);
    primes, bits := primes + PRIMES6, bits + K6;
    RootsOfRow7();
    FromMoreCubeRoots(primes, bits, PRIMES7, K7);
    primes, bits := primes + PRIMES7, bits + K7;
  }

  lemma RootsOfRow0()
    ensures FromCubeRoots(PRIMES0, K0)
  {
    assert CubeRootBits(PRIMES0[0], K0[0], 0x1428a2f98);
    assert CubeRootBits(PRIMES0[1], K0[1], 0x171374491);
    assert CubeRootBits(PRIMES0[2], K0[2], 0x1b5c0fbcf);
    assert CubeRootBits(PRIMES0[3], K0[3], 0x1e9b5dba5);
    assert CubeRootBits(PRIMES0[4], K0[4], 0x23956c25b);
    assert CubeRootBits(PRIMES0[5], K0[5], 0x259f111f1);
    assert CubeRootBits(PRIMES0[6], K0[6], 0x2923f82a4);
    assert CubeRootBits(PRIMES0[7], K0[7], 0x2ab1c5ed5);
  }

  lemma RootsOfRow1()
    ensures FromCubeRoots(PRIMES1, K1)
  {
    assert CubeRootBits(PRIMES1[0], K1[0], 0x2d807aa98);
    assert CubeRootBits(PRIMES1[1], K1[1], 0x312835b01);
    assert CubeRootBits(PRIMES1[2], K1[2], 0x3243185be);
    assert CubeRootBits(PRIMES1[3], K1[3], 0x3550c7dc3);
    assert CubeRootBits(PRIMES1[4], K1[4], 0x372be5d74);
    assert CubeRootBits(PRIMES1[5], K1[5], 0x380deb1fe);
    assert CubeRootBits(PRIMES1[6], K1[6], 0x39bdc06a7);
    assert CubeRootBits(PRIMES1[7], K1[7], 0x3c19bf174);
  }

  lemma RootsOfRow2()
    ensures FromCubeRoots(PRIMES2, K2)
  {
    assert CubeRootBits(PRIMES2[0], K2[0], 0x3e49b69c1);
    assert CubeRootBits(PRIMES2[1], K2[1], 0x3efbe4786);
    assert CubeRootBits(PRIMES2[2], K2[2], 0x40fc19dc6);
    assert CubeRootBits(PRIMES2[3], K2[3], 0x4240ca1cc);
    assert CubeRootBits(PRIMES2[4], K2[4], 0x42de92c6f);
    assert CubeRootBits(PRIMES2[5], K2[5], 0x44a7484aa);
    assert CubeRootBits(PRIMES2[6], K2[6], 0x45cb0a9dc);
    assert CubeRootBits(PRIMES2[7], K2[7], 0x476f988da);
  }

  lemma RootsOfRow3()
    ensures FromCubeRoots(PRIMES3, K3)
  {
    assert CubeRootBits(PRIMES3[0], K3[0], 0x4983e5152);
    assert CubeRootBits(PRIMES3[1], K3[1], 0x4a831c66d);
    assert CubeRootBits(PRIMES3[2], K3[2], 0x4b00327c8);
    assert CubeRootBits(PRIMES3[3], K3[3], 0x4bf597fc7);
    assert CubeRootBits(PRIMES3[4], K3[4], 0x4c6e00bf3);
    assert CubeRootBits(PRIMES3[5], K3[5], 0x4d5a79147);
    assert CubeRootBits(PRIMES3[6], K3[6], 0x506ca6351);
    assert CubeRootBits(PRIMES3[7], K3[7], 0x514292967);
  }

  lemma RootsOfRow4()
    ensures FromCubeRoots(PRIMES4, K4)
  {
    assert CubeRootBits(PRIMES4[0], K4[0], 0x527b70a85);
    assert CubeRootBits(PRIMES4[1], K4[1], 0x52e1b2138);
    assert CubeRootBits(PRIMES4[2], K4[2], 0x54d2c6dfc);
    assert CubeRootBits(PRIMES4[3], K4[3], 0x553380d13);
    assert CubeRootBits(PRIMES4[4], K4[4], 0x5650a7354);
    assert CubeRootBits(PRIMES4[5], K4[5], 0x5766a0abb);
    assert CubeRootBits(PRIMES4[6], K4[6], 0x581c2c92e);
    assert CubeRootBits(PRIMES4[7], K4[7], 0x592722c85);
  }

  lemma RootsOfRow5()
    ensures FromCubeRoots(PRIMES5, K5)
  {
    assert CubeRootBits(PRIMES5[0], K5[0], 0x5a2bfe8a1);
    assert CubeRootBits(PRIMES5[1], K5[1], 0x5a81a664b);
    assert CubeRootBits(PRIMES5[2], K5[2], 0x5c24b8b70);
    assert CubeRootBits(PRIMES5[3], K5[3], 0x5c76c51a3);
    assert CubeRootBits(PRIMES5[4], K5[4], 0x5d192e819);
    assert CubeRootBits(PRIMES5[5], K5[5], 0x5d6990624);
    assert CubeRootBits(PRIMES5[6], K5[6], 0x5f40e3585);
    assert CubeRootBits(PRIMES5[7], K5[7], 0x6106aa070);
  }

  lemma RootsOfRow6()
    ensures FromCubeRoots(PRIMES6, K6)
  {
    assert CubeRootBits(PRIMES6[0], K6[0], 0x619a4c116);
    assert CubeRootBits(PRIMES6[1], K6[1], 0x61e376c08);
    assert CubeRootBits(PRIMES6[2], K6[2], 0x62748774c);
    assert CubeRootBits(PRIMES6[3], K6[3], 0x634b0bcb5);
    assert CubeRootBits(PRIMES6[4], K6[4], 0x6391c0cb3);
    assert CubeRootBits(PRIMES6[5], K6[5], 0x64ed8aa4a);
    assert CubeRootBits(PRIMES6[6], K6[6], 0x65b9cca4f);
    assert CubeRootBits(PRIMES6[7], K6[7], 0x6682e6ff3);
  }

  lemma RootsOfRow7()
    ensures FromCubeRoots(PRIMES7, K7)
  {
    assert CubeRootBits(PRIMES7[0], K7[0], 0x6748f82ee);
    assert CubeRootBits(PRIMES7[1], K7[1], 0x678a5636f);
    assert CubeRootBits(PRIMES7[2], K7[2], 0x684c87814);
    assert CubeRootBits(PRIMES7[3], K7[3], 0x68cc70208);
    assert CubeRootBits(PRIMES7[4], K7[4], 0x690befffa);
    assert CubeRootBits(PRIMES7[5], K7[5], 0x6a4506ceb);
    assert CubeRootBits(PRIMES7[6], K7[6], 0x6bef9a3f7);
    assert CubeRootBits(PRIMES7[7], K7[7], 0x6c67178f2);
  }

  /** Where the lowest and the highest bit go: section 4.1.2. */
  lemma LowestBitGoes()
    ensures Ep0(1) == 0x40080400 && Ep1(1) == 0x04200080 && Sig0(1) == 0x02004000 && Sig1(1) == 0x0000A000
  {
  }

  lemma HighestBitGoes()
    ensures Ep0(0x80000000) == 0x20040200 && Ep1(0x80000000) == 0x02100040
    ensures Sig0(0x80000000) == 0x11002000 && Sig1(0x80000000) == 0x00205000
  {
  }

  /** Ch takes its bits from y where x is one, from z where x is zero. */
  lemma Chooses(x: bv32, y: bv32, z: bv32)
    ensures Ch(x, y, z) & x == y & x && Ch(x, y, z) & !x == z & !x
  {
  }

  /** Two arguments alike outvote the third. */
  lemma Outvotes(x: bv32, y: bv32)
    ensures Maj(x, x, y) == x && Maj(x, y, x) == x && Maj(y, x, x) == x
  {
  }

  lemma JoinedAndSplit()
    ensures JoinBytes(0x61, 0x62, 0x63, 0x80) == 0x61626380 && SplitWord(0x61626380) == (0x61, 0x62, 0x63, 0x80)
  {
  }

  /** The digest of a message that arrives in pieces. */
  method HashMessage(pieces: seq<Bytes>) returns (hash: Bytes)
    ensures hash == Digest(Fips(), Joined(pieces))
  {
    hash := HashPieces(Fips(), pieces);
  }
}
