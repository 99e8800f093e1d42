/** Composable binary formats: how a value is written, how it is read back, and when the two undo each other. */
module Formats {
  import opened Keys
  import opened Binary
  import opened Wrappers

  /** Reading from the head of what is left: the value and the bytes after it. */
  type Reading<T> = Option<(T, Bytes)>

  /** fits holds of the values whose lengths and numbers fit their places. */
  datatype Format<!T> = Format(enc: T -> Bytes, dec: Bytes -> Reading<T>, fits: T -> bool)

  // ---------- when a format is sound ----------

  ghost predicate Returns<T>(f: Format<T>, x: T, rest: Bytes) {
    f.dec(f.enc(x) + rest) == Some((x, rest))
  }

  /** What follows the bytes that were read does not matter. */
  ghost predicate Settled<T>(f: Format<T>, b: Bytes, more: Bytes) {
    match f.dec(b)
    case None => true
    case Some(got) => f.dec(b + more) == Some((got.0, got.1 + more))
  }

  ghost predicate Sound<T(!new)>(f: Format<T>) {
    && (forall x: T, rest: Bytes :: f.fits(x) ==> Returns(f, x, rest))
    && (forall b: Bytes, more: Bytes :: Settled(f, b, more))
  }

  /** The top-level decoders accept only what they read to the last byte. */
  function DecodeAll<T>(f: Format<T>, b: Bytes): Option<T> {
    match f.dec(b)
    case None => None
    case Some(got) => if got.1 == [] then Some(got.0) else None
  }

  lemma WholeRoundTrip<T(!new)>(f: Format<T>, x: T)
    requires Sound(f) && f.fits(x)
    ensures DecodeAll(f, f.enc(x)) == Some(x)
  {
    assert f.enc(x) + [] == f.enc(x);
    assert Returns(f, x, []);
  }

  /** Every strict prefix of an encoding is rejected. */
  lemma TornRejected<T(!new)>(f: Format<T>, x: T, b: Bytes)
    requires Sound(f) && f.fits(x) && b < f.enc(x)
    ensures f.dec(b) == None && DecodeAll(f, b) == None
  {
    var e := f.enc(x);
    var more := e[|b|..];
    assert b + more == e && e + [] == e;
    assert Returns(f, x, []) && Settled(f, b, more);
    assert f.dec(e) == Some((x, []));
    assert forall left: Bytes :: |left + more| > 0;
  }

  ghost predicate ReturnsWhole<T>(f: Format<T>, x: T) { DecodeAll(f, f.enc(x)) == Some(x) }

  ghost predicate RejectsTorn<T>(f: Format<T>, x: T, b: Bytes) { b < f.enc(x) ==> DecodeAll(f, b) == None }

  /** Decoding what was encoded gives the value back, and decoding any strict prefix of it fails. */
  ghost predicate ReadsBack<T(!new)>(f: Format<T>) {
    && (forall x: T :: f.fits(x) ==> ReturnsWhole(f, x))
    && (forall x: T, b: Bytes :: f.fits(x) ==> RejectsTorn(f, x, b))
  }

  lemma SoundReadsBack<T(!new)>(f: Format<T>)
    requires Sound(f)
    ensures ReadsBack(f)
  {
    forall x: T | f.fits(x) ensures ReturnsWhole(f, x) { WholeRoundTrip(f, x); }
    forall x: T, b: Bytes | f.fits(x) ensures RejectsTorn(f, x, b) {
      if b < f.enc(x) { TornRejected(f, x, b); }
    }
  }

  /** No encoding continues another one, so a sequence of them can be told apart. */
  lemma Unambiguous<T(!new)>(f: Format<T>, x: T, y: T, more: Bytes)
    requires Sound(f) && f.fits(x) && f.fits(y) && f.enc(x) + more == f.enc(y)
    ensures x == y && more == []
  {
    assert f.enc(y) + [] == f.enc(y);
    assert Returns(f, x, more) && Returns(f, y, []);
  }

  // ---------- the primitives ----------

  function Word8(): Format<Byte> {
    Format(v => [v], b => if |b| < 1 then None else Some((b[0], b[1..])), v => true)
  }

  function Word16(): Format<nat> {
    Format(v => Put16(v), b => if |b| < 2 then None else Some((At16(b, 0), b[2..])), v => v < 0x1_0000)
  }

  function Word32(): Format<nat> {
    Format(v => Put32(v), b => if |b| < 4 then None else Some((At32(b, 0), b[4..])), v => v < 0x1_0000_0000)
  }

  type Pattern64 = v: nat | v < 0x1_0000_0000_0000_0000

  function Word64(): Format<Pattern64> {
    Format(v => Put64(v), b => if |b| < 8 then None else Some((At64(b, 0), b[8..])), AnyPattern)
  }

  predicate AnyPattern(v: Pattern64) { true }

  type Signed = v: int | IsI64(v)

  function Signed64(): Format<Signed> {
    Via(Word64(), FromPattern, ToPattern, AnySigned)
  }

  function FromPattern(p: Pattern64): Option<Signed> { Some(ToI64(p)) }

  function ToPattern(v: Signed): Pattern64 { ToU64(v) }

  predicate AnySigned(v: Signed) { true }

  /** A yes or no: any byte but 0 is read as yes. */
  function Flag(): Format<bool> { Via(Word8(), IsSet, FlagByte, AnyFlag) }

  function IsSet(b: Byte): Option<bool> { Some(b != 0) }

  function FlagByte(v: bool): Byte { if v then 1 else 0 }

  predicate AnyFlag(v: bool) { true }

  /** The next n bytes. */
  function Take(n: nat, b: Bytes): Reading<Bytes> {
    if |b| < n then None else Some((b[..n], b[n..]))
  }

  /** A string behind its length. */
  function Text(len: Format<nat>): Format<Bytes> {
    Format(s => len.enc(|s|) + s,
           b => match len.dec(b) case None => None case Some(got) => Take(got.0, got.1),
           s => len.fits(|s|))
  }

  function Text16(): Format<Bytes> { Text(Word16()) }

  function Text32(): Format<Bytes> { Text(Word32()) }

  // ---------- the combinators ----------

  function Pair<A, B>(f: Format<A>, g: Format<B>): Format<(A, B)> {
    Format((x: (A, B)) => f.enc(x.0) + g.enc(x.1), b => Second(f.dec(b), g), (x: (A, B)) => f.fits(x.0) && g.fits(x.1))
  }

  function Second<A, B>(first: Reading<A>, g: Format<B>): Reading<(A, B)> {
    match first
    case None => None
    case Some(got) =>
      match g.dec(got.1)
      case None => None
      case Some(next) => Some(((got.0, next.0), next.1))
  }

  function Written<T>(f: Format<T>, xs: seq<T>): Bytes {
    if xs == [] then [] else f.enc(xs[0]) + Written(f, xs[1..])
  }

  /** n values one after the other. */
  function Many<T>(f: Format<T>, n: nat, b: Bytes): Reading<seq<T>> {
    if n == 0 then Some(([], b))
    else match f.dec(b)
      case None => None
      case Some(got) => Before([got.0], Many(f, n - 1, got.1))
  }

  function Before<T>(xs: seq<T>, later: Reading<seq<T>>): Reading<seq<T>> {
    match later
    case None => None
    case Some(got) => Some((xs + got.0, got.1))
  }

  /** A list behind its length. */
  function Listed<T>(len: Format<nat>, f: Format<T>): Format<seq<T>> {
    Format(xs => len.enc(|xs|) + Written(f, xs),
           b => match len.dec(b) case None => None case Some(got) => Many(f, got.0, got.1),
           xs => len.fits(|xs|) && forall i | 0 <= i < |xs| :: f.fits(xs[i]))
  }

  function Counted<T>(f: Format<T>): Format<seq<T>> { Listed(Word32(), f) }

  /** The same bytes for another type; to rejects what no value is written as. */
  function Via<A, B>(f: Format<A>, to: A -> Option<B>, from: B -> A, ok: B -> bool): Format<B> {
    Format(y => f.enc(from(y)), b => Converted(f.dec(b), to), y => ok(y) && f.fits(from(y)))
  }

  function Converted<A, B>(got: Reading<A>, to: A -> Option<B>): Reading<B> {
    match got
    case None => None
    case Some(g) => if to(g.0).None? then None else Some((to(g.0).value, g.1))
  }

  /** A tag byte that selects how the rest is written. */
  function Tagged<T>(tagOf: T -> Byte, arm: Byte -> Option<Format<T>>): Format<T> {
    Format(x => [tagOf(x)] + (if arm(tagOf(x)).None? then [] else arm(tagOf(x)).value.enc(x)),
           b => if |b| < 1 then None else Arm(arm(b[0]), b[1..]),
           x => arm(tagOf(x)).Some? && arm(tagOf(x)).value.fits(x))
  }

  function Arm<T>(f: Option<Format<T>>, b: Bytes): Reading<T> {
    if f.None? then None else f.value.dec(b)
  }

  /** Nothing is written: the value is known. */
  function Nothing<T(==)>(x: T): Format<T> {
    Format(y => [], b => Some((x, b)), y => y == x)
  }

  /** Bytes that must stand there. */
  function Literal(m: Bytes): Format<()> {
    Format(x => m, b => if m <= b then Some(((), b[|m|..])) else None, AnyUnit)
  }

  /** A number that must stand there. */
  function Exactly(v: nat): Format<()> { Via(Word32(), Being(v), Held(v), AnyUnit) }

  function Held(v: nat): (()) -> nat { x => v }

  function Being(v: nat): nat -> Option<()> { n => if n == v then Some(()) else None }

  predicate AnyUnit(x: ()) { true }

  // ---------- the primitives are sound ----------

  lemma Word8Sound()
    ensures Sound(Word8())
  {
    forall x: Byte, rest: Bytes ensures Returns(Word8(), x, rest) {
      assert ([x] + rest)[1..] == rest;
    }
    forall b: Bytes, more: Bytes ensures Settled(Word8(), b, more) {
      if |b| >= 1 { assert (b + more)[1..] == b[1..] + more; }
    }
  }

  lemma HeadHere(w: Bytes, rest: Bytes)
    ensures Here(w + rest, 0, w) && (w + rest)[|w|..] == rest
  {
  }

  lemma TailMoves(b: Bytes, more: Bytes, n: nat)
    requires n <= |b|
    ensures (b + more)[n..] == b[n..] + more
  {
  }

  lemma Word16Sound()
    ensures Sound(Word16())
  {
    forall x: nat, rest: Bytes | Word16().fits(x) ensures Returns(Word16(), x, rest) {
      HeadHere(Put16(x), rest);
      Read16(Put16(x) + rest, 0, x);
    }
    forall b: Bytes, more: Bytes ensures Settled(Word16(), b, more) {
      if |b| >= 2 { TailMoves(b, more, 2); }
    }
  }

  lemma Word32Sound()
    ensures Sound(Word32())
  {
    forall x: nat, rest: Bytes | Word32().fits(x) ensures Returns(Word32(), x, rest) {
      HeadHere(Put32(x), rest);
      Read32(Put32(x) + rest, 0, x);
    }
    forall b: Bytes, more: Bytes ensures Settled(Word32(), b, more) {
      if |b| >= 4 { TailMoves(b, more, 4); }
    }
  }

  lemma Word64Sound()
    ensures Sound(Word64())
  {
    forall x: Pattern64, rest: Bytes ensures Returns(Word64(), x, rest) {
      HeadHere(Put64(x), rest);
      Read64(Put64(x) + rest, 0, x);
    }
    forall b: Bytes, more: Bytes ensures Settled(Word64(), b, more) {
      if |b| >= 8 { TailMoves(b, more, 8); }
    }
  }

  lemma Signed64Sound()
    ensures Sound(Signed64())
  {
    Word64Sound();
    forall v: Signed ensures BackAndForth(FromPattern, ToPattern, v) { SignedRoundTrip(v); }
    ViaSound(Word64(), FromPattern, ToPattern, AnySigned);
  }

  lemma FlagSound()
    ensures Sound(Flag())
  {
    Word8Sound();
    assert forall v: bool :: BackAndForth(IsSet, FlagByte, v);
    ViaSound(Word8(), IsSet, FlagByte, AnyFlag);
  }

  lemma LiteralSound(m: Bytes)
    ensures Sound(Literal(m))
  {
    forall x: (), rest: Bytes ensures Returns(Literal(m), x, rest) {
      HeadHere(m, rest);
      assert x == ();
    }
    forall b: Bytes, more: Bytes ensures Settled(Literal(m), b, more) {
      if m <= b {
        TailMoves(b, more, |m|);
        assert m <= b + more;
      }
    }
  }

  lemma ExactlySound(v: nat)
    ensures Sound(Exactly(v))
  {
    Word32Sound();
    forall x: () ensures BackAndForth(Being(v), Held(v), x) { assert x == (); }
    ViaSound(Word32(), Being(v), Held(v), AnyUnit);
  }

  lemma TextSound(len: Format<nat>)
    requires Sound(len)
    ensures Sound(Text(len))
  {
    var t := Text(len);
    forall x: Bytes, rest: Bytes | t.fits(x) ensures Returns(t, x, rest) {
      assert len.enc(|x|) + x + rest == len.enc(|x|) + (x + rest);
      assert Returns(len, |x|, x + rest);
      HeadHere(x, rest);
    }
    forall b: Bytes, more: Bytes ensures Settled(t, b, more) {
      assert Settled(len, b, more);
      if len.dec(b).Some? {
        var (n, rest) := len.dec(b).value;
        if |rest| >= n {
          TailMoves(rest, more, n);
          assert (rest + more)[..n] == rest[..n];
        }
      }
    }
  }

  lemma Text16Sound()
    ensures Sound(Text16())
  {
    Word16Sound();
    TextSound(Word16());
  }

  lemma Text32Sound()
    ensures Sound(Text32())
  {
    Word32Sound();
    TextSound(Word32());
  }

  // ---------- the combinators keep soundness ----------

  lemma PairSound<A(!new), B(!new)>(f: Format<A>, g: Format<B>)
    requires Sound(f) && Sound(g)
    ensures Sound(Pair(f, g))
  {
    var p := Pair(f, g);
    forall x: (A, B), rest: Bytes | p.fits(x) ensures Returns(p, x, rest) {
      assert f.enc(x.0) + g.enc(x.1) + rest == f.enc(x.0) + (g.enc(x.1) + rest);
      assert Returns(f, x.0, g.enc(x.1) + rest) && Returns(g, x.1, rest);
    }
    forall b: Bytes, more: Bytes ensures Settled(p, b, more) {
      assert Settled(f, b, more);
      if f.dec(b).Some? { assert Settled(g, f.dec(b).value.1, more); }
    }
  }

  lemma {:induction false} ManyReturn<T(!new)>(f: Format<T>, xs: seq<T>, rest: Bytes)
    requires Sound(f) && forall i | 0 <= i < |xs| :: f.fits(xs[i])
    ensures Many(f, |xs|, Written(f, xs) + rest) == Some((xs, rest))
  {
    if xs == [] {
      assert Written(f, xs) + rest == rest;
    } else {
      var tail := Written(f, xs[1..]) + rest;
      assert Written(f, xs) + rest == f.enc(xs[0]) + tail;
      assert Returns(f, xs[0], tail);
      ManyReturn(f, xs[1..], rest);
      assert [xs[0]] + xs[1..] == xs;
    }
  }

  lemma {:induction false} ManySettled<T(!new)>(f: Format<T>, n: nat, b: Bytes, more: Bytes)
    requires Sound(f) && Many(f, n, b).Some?
    ensures Many(f, n, b + more) == Some((Many(f, n, b).value.0, Many(f, n, b).value.1 + more))
  {
    if n > 0 {
      assert Settled(f, b, more);
      ManySettled(f, n - 1, f.dec(b).value.1, more);
    }
  }

  lemma ListedSound<T(!new)>(len: Format<nat>, f: Format<T>)
    requires Sound(len) && Sound(f)
    ensures Sound(Listed(len, f))
  {
    var c := Listed(len, f);
    forall xs: seq<T>, rest: Bytes | c.fits(xs) ensures Returns(c, xs, rest) {
      assert len.enc(|xs|) + Written(f, xs) + rest == len.enc(|xs|) + (Written(f, xs) + rest);
      assert Returns(len, |xs|, Written(f, xs) + rest);
      ManyReturn(f, xs, rest);
    }
    forall b: Bytes, more: Bytes ensures Settled(c, b, more) {
      assert Settled(len, b, more);
      if c.dec(b).Some? {
        var (n, left) := len.dec(b).value;
        ManySettled(f, n, left, more);
      }
    }
  }

  lemma CountedSound<T(!new)>(f: Format<T>)
    requires Sound(f)
    ensures Sound(Counted(f))
  {
    Word32Sound();
    ListedSound(Word32(), f);
  }

  ghost predicate BackAndForth<A, B>(to: A -> Option<B>, from: B -> A, y: B) { to(from(y)) == Some(y) }

  lemma ViaSound<A(!new), B(!new)>(f: Format<A>, to: A -> Option<B>, from: B -> A, ok: B -> bool)
    requires Sound(f) && forall y: B :: ok(y) ==> BackAndForth(to, from, y)
    ensures Sound(Via(f, to, from, ok))
  {
    var v := Via(f, to, from, ok);
    forall y: B, rest: Bytes | v.fits(y) ensures Returns(v, y, rest) {
      assert BackAndForth(to, from, y) && Returns(f, from(y), rest);
    }
    forall b: Bytes, more: Bytes ensures Settled(v, b, more) {
      assert Settled(f, b, more);
    }
  }

  ghost predicate ArmSound<T(!new)>(arm: Byte -> Option<Format<T>>, tag: Byte) {
    arm(tag).Some? ==> Sound(arm(tag).value)
  }

  lemma TaggedSound<T(!new)>(tagOf: T -> Byte, arm: Byte -> Option<Format<T>>)
    requires forall tag: Byte :: ArmSound(arm, tag)
    ensures Sound(Tagged(tagOf, arm))
  {
    var t := Tagged(tagOf, arm);
    forall x: T, rest: Bytes | t.fits(x) ensures Returns(t, x, rest) {
      var f := arm(tagOf(x)).value;
      assert ArmSound(arm, tagOf(x)) && Returns(f, x, rest);
      assert t.enc(x) + rest == [tagOf(x)] + (f.enc(x) + rest);
    }
    forall b: Bytes, more: Bytes ensures Settled(t, b, more) {
      if |b| >= 1 && arm(b[0]).Some? {
        assert ArmSound(arm, b[0]) && Settled(arm(b[0]).value, b[1..], more);
        assert (b + more)[1..] == b[1..] + more;
      }
    }
  }

  lemma NothingSound<T(!new)>(x: T)
    ensures Sound(Nothing(x))
  {
    forall y: T, rest: Bytes | Nothing(x).fits(y) ensures Returns(Nothing(x), y, rest) {
      assert [] + rest == rest;
    }
  }

  // ---------- reading and writing in loops ----------

  /** What a reader that stood at was did: read v and moved to left, or failed where the format does. */
  ghost predicate Took<T>(f: Format<T>, was: Bytes, ok: bool, v: T, left: Bytes) {
    match f.dec(was)
    case None => !ok
    case Some(got) => ok && v == got.0 && left == got.1
  }

  // A loop need not know how its elements are written: it is given a format that agrees with theirs.

  ghost predicate DecAlike<T>(f: Format<T>, g: Format<T>, b: Bytes) { f.dec(b) == g.dec(b) }

  ghost predicate EncAlike<T>(f: Format<T>, g: Format<T>, x: T) { f.enc(x) == g.enc(x) }

  ghost predicate ReadsAs<T>(f: Format<T>, g: Format<T>) { forall b: Bytes :: DecAlike(f, g, b) }

  ghost predicate WritesAs<T(!new)>(f: Format<T>, g: Format<T>) { forall x: T :: EncAlike(f, g, x) }

  lemma TookAlike<T>(f: Format<T>, g: Format<T>, was: Bytes, ok: bool, v: T, left: Bytes)
    requires ReadsAs(f, g) && Took(g, was, ok, v, left)
    ensures Took(f, was, ok, v, left)
  {
    assert DecAlike(f, g, was);
  }

  lemma ListBytes<T>(len: Format<nat>, f: Format<T>, xs: seq<T>)
    ensures Listed(len, f).enc(xs) == len.enc(|xs|) + Written(f, xs)
  {
  }

  lemma ViaBytes<A, B>(f: Format<A>, to: A -> Option<B>, from: B -> A, ok: B -> bool, y: B)
    ensures Via(f, to, from, ok).enc(y) == f.enc(from(y))
  {
  }

  lemma ViaFits<A, B>(f: Format<A>, to: A -> Option<B>, from: B -> A, ok: B -> bool, y: B)
    ensures Via(f, to, from, ok).fits(y) <==> ok(y) && f.fits(from(y))
  {
  }

  lemma TaggedFits<T>(tagOf: T -> Byte, arm: Byte -> Option<Format<T>>, x: T)
    ensures Tagged(tagOf, arm).fits(x) <==> arm(tagOf(x)).Some? && arm(tagOf(x)).value.fits(x)
  {
  }

  lemma TaggedBytes<T>(tagOf: T -> Byte, arm: Byte -> Option<Format<T>>, x: T)
    requires arm(tagOf(x)).Some?
    ensures Tagged(tagOf, arm).enc(x) == [tagOf(x)] + arm(tagOf(x)).value.enc(x)
  {
  }

  lemma PairHead<A, B>(f: Format<A>, g: Format<B>, b: Bytes)
    ensures Pair(f, g).dec(b).Some? ==> f.dec(b).Some? && Pair(f, g).dec(b).value.0.0 == f.dec(b).value.0
  {
  }

  lemma ViaNone<A, B>(f: Format<A>, to: A -> Option<B>, from: B -> A, ok: B -> bool, b: Bytes)
    requires f.dec(b).Some? ==> to(f.dec(b).value.0).None?
    ensures Via(f, to, from, ok).dec(b) == None
  {
  }

  lemma PairBytes<A, B>(f: Format<A>, g: Format<B>, x: A, y: B)
    ensures Pair(f, g).enc((x, y)) == f.enc(x) + g.enc(y)
  {
  }

  /** Reading one thing and, if that went well, another. */
  lemma TookPair<A, B>(f: Format<A>, g: Format<B>, was: Bytes, first: bool, x: A, mid: Bytes, ok: bool, y: B, left: Bytes)
    requires Took(f, was, first, x, mid) && if first then Took(g, mid, ok, y, left) else !ok
    ensures Took(Pair(f, g), was, ok, (x, y), left)
  {
  }

  lemma TookVia<A, B>(f: Format<A>, to: A -> Option<B>, from: B -> A, can: B -> bool, was: Bytes, ok: bool, x: A, y: B, left: Bytes)
    requires Took(f, was, ok, x, left) && (ok ==> to(x) == Some(y))
    ensures Took(Via(f, to, from, can), was, ok, y, left)
  {
  }

  lemma TookArm<T>(tagOf: T -> Byte, arm: Byte -> Option<Format<T>>, was: Bytes, tag: Byte, mid: Bytes, ok: bool, v: T, left: Bytes)
    requires Took(Word8(), was, true, tag, mid) && (if arm(tag).None? then !ok else Took(arm(tag).value, mid, ok, v, left))
    ensures Took(Tagged(tagOf, arm), was, ok, v, left)
  {
  }

  lemma TookList<T>(len: Format<nat>, f: Format<T>, was: Bytes, first: bool, n: nat, start: Bytes, ok: bool, xs: seq<T>, left: Bytes)
    requires Took(len, was, first, n, start)
    requires if first then Many(f, n, start) == (if ok then Some((xs, left)) else None) else !ok
    ensures Took(Listed(len, f), was, ok, xs, left)
  {
  }

  lemma TookAll<T>(f: Format<T>, b: Bytes, ok: bool, v: T, left: Bytes)
    requires Took(f, b, ok, v, left)
    ensures DecodeAll(f, b) == if ok && left == [] then Some(v) else None
  {
  }

  lemma TookText(len: Format<nat>, was: Bytes, n: nat, left: Bytes)
    requires Took(len, was, true, n, left) && n <= |left|
    ensures Took(Text(len), was, true, left[..n], left[n..])
  {
  }

  lemma TookTextNot(len: Format<nat>, was: Bytes, ok: bool, n: nat, left: Bytes, s: Bytes, end: Bytes)
    requires Took(len, was, ok, n, left) && (ok ==> n > |left|)
    ensures Took(Text(len), was, false, s, end)
  {
  }

  lemma Ahead(data: Bytes, pos: nat, n: nat)
    requires pos + n <= |data|
    ensures data[pos..][..n] == data[pos..pos + n] && data[pos..][n..] == data[pos + n..]
  {
  }

  /** Reading seen one after the other from start on gets to left. */
  ghost predicate Through<T>(f: Format<T>, start: Bytes, seen: seq<T>, left: Bytes)
    decreases |seen|
  {
    if seen == [] then left == start
    else
      && f.dec(start).Some? && f.dec(start).value.0 == seen[0]
      && Through(f, f.dec(start).value.1, seen[1..], left)
  }

  /** One more value, or none: then n values cannot be read from start. */
  lemma {:induction false} ThroughTook<T>(f: Format<T>, n: nat, start: Bytes, seen: seq<T>, was: Bytes, ok: bool, x: T, left: Bytes)
    requires |seen| < n && Through(f, start, seen, was) && Took(f, was, ok, x, left)
    ensures if ok then Through(f, start, seen + [x], left) else Many(f, n, start).None?
    decreases |seen|
  {
    if seen == [] {
      assert [x][1..] == [];
    } else {
      ThroughTook(f, n - 1, f.dec(start).value.1, seen[1..], was, ok, x, left);
      assert (seen + [x])[1..] == seen[1..] + [x];
    }
  }

  lemma {:induction false} ThroughAll<T>(f: Format<T>, start: Bytes, seen: seq<T>, left: Bytes)
    requires Through(f, start, seen, left)
    ensures Many(f, |seen|, start) == Some((seen, left))
    decreases |seen|
  {
    if seen != [] {
      ThroughAll(f, f.dec(start).value.1, seen[1..], left);
      assert [seen[0]] + seen[1..] == seen;
    }
  }

  lemma Regroup(a: Bytes, b: Bytes, c: Bytes)
    ensures (a + b) + c == a + (b + c)
  {
  }

  lemma {:induction false} WrittenLast<T>(f: Format<T>, xs: seq<T>, x: T)
    ensures Written(f, xs + [x]) == Written(f, xs) + f.enc(x)
  {
    if xs == [] {
      assert [x][1..] == [] && f.enc(x) + [] == [] + f.enc(x);
    } else {
      assert (xs + [x])[1..] == xs[1..] + [x];
      WrittenLast(f, xs[1..], x);
    }
  }
}
