/** Linear shift registers over any words with an exclusive-or, away from bit vectors: each law is a predicate
    named at given words, so that a proof uses it only where it says so. */
module Registers {

  /** up moves a word up by one byte; fits: the top byte is clear; small: only the lowest byte may be set. */
  datatype Words<!W> = Words(xor: (W, W) -> W, zero: W, up: W -> W, fits: W -> bool, small: W -> bool)

  function Twice<W>(s: W -> W): W -> W { c => s(s(c)) }

  function Power<W>(s: W -> W, c: W, n: nat): W {
    if n == 0 then c else s(Power(s, c, n - 1))
  }

  /** Each word is added to the register, which then does its steps. */
  function Run<W>(g: Words<W>, s: W -> W, c: W, data: seq<W>): W {
    if data == [] then c else s(g.xor(Run(g, s, c, data[..|data| - 1]), data[|data| - 1]))
  }

  function Pack<W>(g: Words<W>, e0: W, e1: W, e2: W, e3: W): W {
    g.xor(e0, g.up(g.xor(e1, g.up(g.xor(e2, g.up(e3))))))
  }

  // ---------- laws of exclusive or ----------

  ghost predicate AssocAt<W>(g: Words<W>, a: W, b: W, c: W) { g.xor(a, g.xor(b, c)) == g.xor(g.xor(a, b), c) }

  ghost predicate CommAt<W>(g: Words<W>, a: W, b: W) { g.xor(a, b) == g.xor(b, a) }

  ghost predicate ZeroAt<W>(g: Words<W>, a: W) { g.xor(g.zero, a) == a }

  ghost predicate SameAt<W>(g: Words<W>, a: W, b: W) { g.xor(a, b) == g.zero <==> a == b }

  ghost predicate PackAt<W>(g: Words<W>, e0: W, e1: W, e2: W, e3: W) {
    g.small(e0) && g.small(e1) && g.small(e2) && g.small(e3) ==>
      && (Pack(g, e0, e1, e2, e3) == g.zero <==> e0 == g.zero && e1 == g.zero && e2 == g.zero && e3 == g.zero)
      && g.fits(e3) && g.fits(g.xor(e2, g.up(e3))) && g.fits(g.xor(e1, g.up(g.xor(e2, g.up(e3)))))
  }

  ghost predicate SmallAt<W>(g: Words<W>, a: W, b: W) { g.small(a) && g.small(b) ==> g.small(g.xor(a, b)) }

  ghost predicate WordLaws<W(!new)>(g: Words<W>) {
    && (forall a, b, c :: AssocAt(g, a, b, c))
    && (forall a, b :: CommAt(g, a, b))
    && (forall a :: ZeroAt(g, a))
    && (forall a, b :: SameAt(g, a, b))
    && (forall a, b, c, d :: PackAt(g, a, b, c, d))
    && (forall a, b :: SmallAt(g, a, b))
  }

  // ---------- laws of a register ----------

  ghost predicate LinearAt<W>(g: Words<W>, s: W -> W, a: W, b: W) { s(g.xor(a, b)) == g.xor(s(a), s(b)) }

  ghost predicate LosslessAt<W>(g: Words<W>, s: W -> W, a: W) { s(a) == g.zero <==> a == g.zero }

  ghost predicate ByteDownAt<W>(g: Words<W>, s: W -> W, y: W) { g.fits(y) ==> s(g.up(y)) == y }

  ghost predicate Linear<W(!new)>(g: Words<W>, s: W -> W) { forall a, b :: LinearAt(g, s, a, b) }

  ghost predicate Lossless<W(!new)>(g: Words<W>, s: W -> W) { forall a :: LosslessAt(g, s, a) }

  /** Linear, losing nothing, and moving whatever stands above the low byte down unchanged. */
  ghost predicate Divides<W(!new)>(g: Words<W>, s: W -> W) {
    Linear(g, s) && Lossless(g, s) && forall y :: ByteDownAt(g, s, y)
  }

  lemma TwiceLinear<W(!new)>(g: Words<W>, s: W -> W)
    requires Linear(g, s)
    ensures Linear(g, Twice(s))
  {
    forall a, b ensures LinearAt(g, Twice(s), a, b) {
      assert LinearAt(g, s, a, b) && LinearAt(g, s, s(a), s(b));
    }
  }

  lemma TwiceLossless<W(!new)>(g: Words<W>, s: W -> W)
    requires Lossless(g, s)
    ensures Lossless(g, Twice(s))
  {
    forall a ensures LosslessAt(g, Twice(s), a) {
      assert LosslessAt(g, s, a) && LosslessAt(g, s, s(a));
    }
  }

  lemma PowerEight<W>(s: W -> W, c: W)
    ensures Power(s, c, 8) == Twice(Twice(Twice(s)))(c)
  {
    var c1 := s(c);
    var c2 := s(c1);
    var c3 := s(c2);
    var c4 := s(c3);
    assert Power(s, c, 1) == c1 && Power(s, c, 2) == c2 && Power(s, c, 3) == c3 && Power(s, c, 4) == c4;
    assert Power(s, c, 5) == s(c4) && Power(s, c, 6) == s(s(c4)) && Power(s, c, 7) == s(s(s(c4)));
    assert Twice(Twice(s))(c) == c4;
  }

  lemma {:induction false} PowerFirst<W>(s: W -> W, c: W, n: nat)
    requires n > 0
    ensures Power(s, c, n) == Power(s, s(c), n - 1)
  {
    if n > 1 { PowerFirst(s, c, n - 1); }
  }

  lemma LowThenHigh<W(!new)>(g: Words<W>, s: W -> W, x: W, y: W)
    requires Divides(g, s) && g.fits(y)
    ensures s(g.xor(x, g.up(y))) == g.xor(s(x), y)
  {
    assert LinearAt(g, s, x, g.up(y)) && ByteDownAt(g, s, y);
  }

  // ---------- two runs compared ----------

  function Delta<W>(g: Words<W>, m: seq<W>, m': seq<W>, j: nat): W
    requires j < |m| == |m'|
  {
    g.xor(m[j], m'[j])
  }

  /** How the registers differ after k words of two messages. */
  function Diff<W>(g: Words<W>, s: W -> W, c: W, m: seq<W>, m': seq<W>, k: nat): W
    requires k <= |m| == |m'|
  {
    g.xor(Run(g, s, c, m[..k]), Run(g, s, c, m'[..k]))
  }

  lemma XorSwap<W(!new)>(g: Words<W>, a: W, b: W, x: W, y: W)
    requires WordLaws(g)
    ensures g.xor(g.xor(a, x), g.xor(b, y)) == g.xor(g.xor(a, b), g.xor(x, y))
  {
    assert AssocAt(g, a, x, g.xor(b, y)) && AssocAt(g, x, b, y) && CommAt(g, x, b);
    assert AssocAt(g, b, x, y) && AssocAt(g, a, b, g.xor(x, y));
  }

  lemma DiffStep<W(!new)>(g: Words<W>, s: W -> W, c: W, m: seq<W>, m': seq<W>, k: nat)
    requires WordLaws(g) && k < |m| == |m'| && Linear(g, s)
    ensures Diff(g, s, c, m, m', k + 1) == s(g.xor(Diff(g, s, c, m, m', k), Delta(g, m, m', k)))
  {
    assert m[..k + 1][..k] == m[..k] && m'[..k + 1][..k] == m'[..k];
    var r, r' := Run(g, s, c, m[..k]), Run(g, s, c, m'[..k]);
    XorSwap(g, r, r', m[k], m'[k]);
    assert LinearAt(g, s, g.xor(r, m[k]), g.xor(r', m'[k]));
  }

  /** Feeding four differences one after the other is dividing the packed word by four bytes' worth of steps. */
  lemma WindowDiff<W(!new)>(g: Words<W>, s: W -> W, e0: W, e1: W, e2: W, e3: W)
    requires WordLaws(g) && Divides(g, s)
    requires g.small(e0) && g.small(e1) && g.small(e2) && g.small(e3)
    ensures s(g.xor(s(g.xor(s(g.xor(s(e0), e1)), e2)), e3)) == s(s(s(s(Pack(g, e0, e1, e2, e3)))))
  {
    assert PackAt(g, e0, e1, e2, e3);
    var r2 := g.xor(e2, g.up(e3));
    var r1 := g.xor(e1, g.up(r2));
    var d1 := s(e0);
    var d2 := s(g.xor(d1, e1));
    var d3 := s(g.xor(d2, e2));
    LowThenHigh(g, s, e0, r1);
    assert AssocAt(g, d1, e1, g.up(r2));
    LowThenHigh(g, s, g.xor(d1, e1), r2);
    assert AssocAt(g, d2, e2, g.up(e3));
    LowThenHigh(g, s, g.xor(d2, e2), e3);
  }

  lemma DiffFour<W(!new)>(g: Words<W>, s: W -> W, c: W, m: seq<W>, m': seq<W>, i: nat, e0: W, e1: W, e2: W, e3: W)
    requires WordLaws(g) && Divides(g, s) && i + 4 <= |m| == |m'| && Diff(g, s, c, m, m', i) == g.zero
    requires e0 == Delta(g, m, m', i) && e1 == Delta(g, m, m', i + 1) && e2 == Delta(g, m, m', i + 2) && e3 == Delta(g, m, m', i + 3)
    ensures Diff(g, s, c, m, m', i + 4) == s(g.xor(s(g.xor(s(g.xor(s(e0), e1)), e2)), e3))
  {
    assert ZeroAt(g, e0);
    DiffStep(g, s, c, m, m', i);
    DiffStep(g, s, c, m, m', i + 1);
    DiffStep(g, s, c, m, m', i + 2);
    DiffStep(g, s, c, m, m', i + 3);
  }

  lemma DiffWindow<W(!new)>(g: Words<W>, s: W -> W, c: W, m: seq<W>, m': seq<W>, i: nat)
    requires WordLaws(g) && Divides(g, s) && i + 4 <= |m| == |m'| && Diff(g, s, c, m, m', i) == g.zero
    requires forall j | i <= j < i + 4 :: g.small(m[j]) && g.small(m'[j])
    requires exists j :: i <= j < i + 4 && m[j] != m'[j]
    ensures Diff(g, s, c, m, m', i + 4) != g.zero
  {
    forall j | i <= j < i + 4
      ensures g.small(Delta(g, m, m', j)) && (Delta(g, m, m', j) == g.zero <==> m[j] == m'[j])
    {
      assert SmallAt(g, m[j], m'[j]) && SameAt(g, m[j], m'[j]);
    }
    var e0, e1, e2, e3 := Delta(g, m, m', i), Delta(g, m, m', i + 1), Delta(g, m, m', i + 2), Delta(g, m, m', i + 3);
    assert PackAt(g, e0, e1, e2, e3);
    WindowDiff(g, s, e0, e1, e2, e3);
    DiffFour(g, s, c, m, m', i, e0, e1, e2, e3);
    var w := Pack(g, e0, e1, e2, e3);
    assert LosslessAt(g, s, w) && LosslessAt(g, s, s(w)) && LosslessAt(g, s, s(s(w))) && LosslessAt(g, s, s(s(s(w))));
  }

  lemma {:induction false} DiffAfter<W(!new)>(g: Words<W>, s: W -> W, c: W, m: seq<W>, m': seq<W>, k: nat, n: nat)
    requires WordLaws(g) && Divides(g, s) && k <= n <= |m| == |m'| && Diff(g, s, c, m, m', k) != g.zero
    requires forall j | k <= j < n :: m[j] == m'[j]
    ensures Diff(g, s, c, m, m', n) != g.zero
    decreases n
  {
    if k < n {
      DiffAfter(g, s, c, m, m', k, n - 1);
      DiffStep(g, s, c, m, m', n - 1);
      var d := Diff(g, s, c, m, m', n - 1);
      assert SameAt(g, m[n - 1], m'[n - 1]) && ZeroAt(g, d) && CommAt(g, d, g.zero);
      assert LosslessAt(g, s, d);
    }
  }

  /** Two messages that differ only within four consecutive small words leave different registers. */
  lemma RunsDiffer<W(!new)>(g: Words<W>, s: W -> W, c: W, m: seq<W>, m': seq<W>, i: nat)
    requires WordLaws(g) && Divides(g, s) && |m| == |m'| && i + 4 <= |m|
    requires forall j | 0 <= j < |m| :: g.small(m[j]) && g.small(m'[j])
    requires forall j | 0 <= j < |m| && !(i <= j < i + 4) :: m[j] == m'[j]
    requires exists j :: 0 <= j < |m| && m[j] != m'[j]
    ensures Run(g, s, c, m) != Run(g, s, c, m')
  {
    assert m[..i] == m'[..i];
    var r := Run(g, s, c, m[..i]);
    assert SameAt(g, r, r);
    DiffWindow(g, s, c, m, m', i);
    DiffAfter(g, s, c, m, m', i + 4, |m|);
    assert m[..|m|] == m && m'[..|m'|] == m';
    var q, q' := Run(g, s, c, m), Run(g, s, c, m');
    assert SameAt(g, q, q');
  }
}

/** The checksum of log records: the reflected polynomial 0xEDB88320 of section 8 of RFC 1952,
    bit by bit, byte by byte, and through a 256-entry table. A 32-bit word is its bits, lowest first. */
module Crc {
  import opened Keys
  import opened Registers

  type Word32 = w: seq<bool> | |w| == 32 witness seq(32, _ => false)

  function Fill(b: bool): Word32 { seq(32, _ => b) }

  const ZERO: Word32 := Fill(false)
  const ONES: Word32 := Fill(true)

  const POLY: nat := 0xEDB88320

  function Xor(a: Word32, b: Word32): Word32 { seq(32, i requires 0 <= i < 32 => a[i] != b[i]) }

  function ShiftRight(a: Word32, n: nat): Word32 { seq(32, i requires 0 <= i < 32 => i + n < 32 && a[i + n]) }

  function ShiftLeft(a: Word32, n: nat): Word32 { seq(32, i requires 0 <= i < 32 => i >= n && a[i - n]) }

  function LowByte(a: Word32): Word32 { seq(32, i requires 0 <= i < 32 => i < 8 && a[i]) }

  function BitsOf(n: nat, k: nat): (bits: seq<bool>)
    ensures |bits| == k
  {
    if k == 0 then [] else [n % 2 == 1] + BitsOf(n / 2, k - 1)
  }

  function NumberOf(bits: seq<bool>): nat {
    if bits == [] then 0 else (if bits[0] then 1 else 0) + 2 * NumberOf(bits[1..])
  }

  function Poly(): Word32 {
    var width := 32;
    BitsOf(POLY, width)
  }

  function Pad(bits: seq<bool>): Word32
    requires |bits| <= 32
  {
    bits + seq(32 - |bits|, _ => false)
  }

  function Word(b: Byte): Word32 { Pad(BitsOf(b, 8)) }

  function WordsOf(data: seq<Byte>): (words: seq<Word32>)
    ensures |words| == |data| && forall i | 0 <= i < |data| :: words[i] == Word(data[i])
  {
    if data == [] then [] else WordsOf(data[..|data| - 1]) + [Word(data[|data| - 1])]
  }

  /** One bit of division by a reflected polynomial. */
  function Divide(p: Word32, c: Word32): Word32 {
    if c[0] then Xor(p, ShiftRight(c, 1)) else ShiftRight(c, 1)
  }

  function Step(c: Word32): Word32 { Divide(Poly(), c) }

  /** One byte's worth of steps. */
  function Step8(): Word32 -> Word32 { Twice<Word32>(Twice<Word32>(Twice<Word32>(Step))) }

  function Up(y: Word32): Word32 { ShiftLeft(y, 8) }

  predicate TopClear(y: Word32) { forall i | 24 <= i < 32 :: !y[i] }

  predicate LowOnly(y: Word32) { forall i | 8 <= i < 32 :: !y[i] }

  function Bits32(): Words<Word32> { Words(Xor, ZERO, Up, TopClear, LowOnly) }

  function Crc32(data: seq<Byte>): Word32 { Xor(Run<Word32>(Bits32(), Step8(), ONES, WordsOf(data)), ONES) }

  // ---------- bits and numbers ----------

  function Pow2(k: nat): nat { if k == 0 then 1 else 2 * Pow2(k - 1) }

  lemma {:induction false} NumberOfBits(n: nat, k: nat, bound: nat)
    requires n < bound == Pow2(k)
    ensures NumberOf(BitsOf(n, k)) == n
  {
    if k > 0 { NumberOfBits(n / 2, k - 1, Pow2(k - 1)); }
  }

  lemma {:induction false} BitsOfNumber(bits: seq<bool>)
    ensures BitsOf(NumberOf(bits), |bits|) == bits && NumberOf(bits) < Pow2(|bits|)
  {
    if bits != [] { BitsOfNumber(bits[1..]); }
  }

  lemma {:induction false} TopBit(n: nat, k: nat)
    requires k > 0 && n < Pow2(k)
    ensures BitsOf(n, k)[k - 1] <==> n >= Pow2(k - 1)
  {
    if k > 1 { TopBit(n / 2, k - 1); }
  }

  lemma PowersUp()
    ensures Pow2(31) == 0x8000_0000 && Pow2(32) == 0x1_0000_0000
  {
    assert Pow2(8) == 0x100 && Pow2(16) == 0x1_0000 && Pow2(24) == 0x100_0000;
  }

  lemma PolyHasTopBit()
    ensures Poly()[31] && NumberOf(Poly()) == 0xEDB88320
  {
    PowersUp();
    var width := 32;
    TopBit(POLY, width);
    NumberOfBits(POLY, width, Pow2(width));
  }

  lemma WordInjective(b: Byte, c: Byte)
    ensures Word(b) == Word(c) <==> b == c
    ensures LowOnly(Word(b))
  {
    assert Word(b)[..8] == BitsOf(b, 8) && Word(c)[..8] == BitsOf(c, 8);
    EightBits();
    NumberOfBits(b, 8, 256);
    NumberOfBits(c, 8, 256);
  }

  lemma EightBits()
    ensures Pow2(8) == 256
  {
  }

  // ---------- the laws ----------

  lemma BitsPack(a: Word32, b: Word32, c: Word32, d: Word32)
    ensures PackAt(Bits32(), a, b, c, d)
  {
    if LowOnly(a) && LowOnly(b) && LowOnly(c) && LowOnly(d) {
      var w := Pack(Bits32(), a, b, c, d);
      PackDigits(a, b, c, d, w);
      if w == ZERO {
        forall i | 0 <= i < 8 ensures !a[i] && !b[i] && !c[i] && !d[i] {
          assert !w[i] && !w[i + 8] && !w[i + 16] && !w[i + 24];
        }
        assert a == ZERO && b == ZERO;
        assert c == ZERO && d == ZERO;
      }
    }
  }

  lemma PackDigits(a: Word32, b: Word32, c: Word32, d: Word32, w: Word32)
    requires LowOnly(a) && LowOnly(b) && LowOnly(c) && LowOnly(d)
    requires w == Xor(a, Up(Xor(b, Up(Xor(c, Up(d))))))
    ensures forall i | 0 <= i < 8 :: w[i] == a[i] && w[i + 8] == b[i] && w[i + 16] == c[i] && w[i + 24] == d[i]
  {
  }

  lemma BitsSame(a: Word32, b: Word32)
    ensures SameAt(Bits32(), a, b)
  {
    if Xor(a, b) == ZERO {
      forall i | 0 <= i < 32 ensures a[i] == b[i] { assert !Xor(a, b)[i]; }
      assert a == b;
    }
    if a == b {
      assert Xor(a, b) == ZERO;
    }
  }

  lemma BitsAreWords()
    ensures WordLaws(Bits32())
  {
    var g := Bits32();
    forall a: Word32, b: Word32, c: Word32 ensures AssocAt(g, a, b, c) {
      assert Xor(a, Xor(b, c)) == Xor(Xor(a, b), c);
    }
    forall a: Word32, b: Word32 ensures CommAt(g, a, b) { assert Xor(a, b) == Xor(b, a); }
    forall a: Word32 ensures ZeroAt(g, a) { assert Xor(ZERO, a) == a; }
    forall a: Word32, b: Word32 ensures SameAt(g, a, b) { BitsSame(a, b); }
    forall a: Word32, b: Word32, c: Word32, d: Word32 ensures PackAt(g, a, b, c, d) { BitsPack(a, b, c, d); }
    forall a: Word32, b: Word32 ensures SmallAt(g, a, b) {}
  }

  lemma DivideLinear(p: Word32, a: Word32, b: Word32)
    ensures Divide(p, Xor(a, b)) == Xor(Divide(p, a), Divide(p, b))
  {
  }

  lemma StepLinear(a: Word32, b: Word32)
    ensures Step(Xor(a, b)) == Xor(Step(a), Step(b))
  {
    DivideLinear(Poly(), a, b);
  }

  lemma DivideLossless(p: Word32, a: Word32)
    requires p[31]
    ensures Divide(p, a) == ZERO <==> a == ZERO
  {
    if Divide(p, a) == ZERO {
      assert !Divide(p, a)[31];
      forall i | 0 < i < 32 ensures !a[i] { assert !Divide(p, a)[i - 1]; }
      assert a == ZERO;
    }
    if a == ZERO {
      assert Divide(p, a) == ZERO;
    }
  }

  lemma StepLossless(a: Word32)
    ensures Step(a) == ZERO <==> a == ZERO
  {
    PolyHasTopBit();
    DivideLossless(Poly(), a);
  }

  lemma DivideDown(p: Word32, y: Word32, k: nat)
    requires k < 8 && TopClear(y)
    ensures Divide(p, ShiftLeft(y, k + 1)) == ShiftLeft(y, k)
  {
  }

  lemma StepDown(y: Word32, k: nat)
    requires k < 8 && TopClear(y)
    ensures Step(ShiftLeft(y, k + 1)) == ShiftLeft(y, k)
  {
    DivideDown(Poly(), y, k);
  }

  ghost predicate DownAt(s: Word32 -> Word32, y: Word32, k: nat) { s(ShiftLeft(y, k + 1)) == ShiftLeft(y, k) }

  lemma EightDown(s: Word32 -> Word32, y: Word32)
    requires forall k: nat | k < 8 :: DownAt(s, y, k)
    ensures Twice(Twice(Twice(s)))(Up(y)) == y
  {
    assert ShiftLeft(y, 0) == y;
    assert DownAt(s, y, 0) && DownAt(s, y, 1) && DownAt(s, y, 2) && DownAt(s, y, 3);
    assert DownAt(s, y, 4) && DownAt(s, y, 5) && DownAt(s, y, 6) && DownAt(s, y, 7);
    EightChain(s, ShiftLeft(y, 8), ShiftLeft(y, 7), ShiftLeft(y, 6), ShiftLeft(y, 5), ShiftLeft(y, 4),
               ShiftLeft(y, 3), ShiftLeft(y, 2), ShiftLeft(y, 1), y);
  }

  lemma Step8Down(y: Word32)
    requires TopClear(y)
    ensures Step8()(Up(y)) == y
  {
    forall k: nat | k < 8 ensures DownAt(Step, y, k) { StepDown(y, k); }
    EightDown(Step, y);
  }

  /** Eight chained values make a byte's worth of steps. */
  lemma EightChain<W>(s: W -> W, y8: W, y7: W, y6: W, y5: W, y4: W, y3: W, y2: W, y1: W, y: W)
    requires s(y8) == y7 && s(y7) == y6 && s(y6) == y5 && s(y5) == y4 && s(y4) == y3 && s(y3) == y2 && s(y2) == y1 && s(y1) == y
    ensures Twice(Twice(Twice(s)))(y8) == y
  {
    assert Twice(s)(y8) == y6 && Twice(s)(y6) == y4 && Twice(s)(y4) == y2 && Twice(s)(y2) == y;
    assert Twice(Twice(s))(y8) == y4 && Twice(Twice(s))(y4) == y;
  }

  lemma Step8Divides()
    ensures Divides(Bits32(), Step8())
  {
    var g := Bits32();
    forall a: Word32, b: Word32 ensures LinearAt(g, Step, a, b) { StepLinear(a, b); }
    forall a: Word32 ensures LosslessAt(g, Step, a) { StepLossless(a); }
    TwiceLinear(g, Step);
    TwiceLinear(g, Twice(Step));
    TwiceLinear(g, Twice(Twice(Step)));
    TwiceLossless(g, Step);
    TwiceLossless(g, Twice(Step));
    TwiceLossless(g, Twice(Twice(Step)));
    forall y: Word32 ensures ByteDownAt(g, Step8(), y) {
      if TopClear(y) { Step8Down(y); }
    }
  }

  // ---------- where the register starts and ends ----------

  function LowOnes(n: nat): Word32 { seq(32, i requires 0 <= i < 32 => i < n) }

  lemma AllOnesByte()
    ensures Word(0xFF) == LowOnes(8)
  {
    var b, k := 0xFF, 8;
    assert BitsOf(b, k) == seq(8, _ => true);
  }

  lemma EightOnesLess(n: nat)
    requires n <= 24
    ensures Step8()(Xor(LowOnes(n + 8), LowOnes(8))) == LowOnes(n)
  {
    assert Xor(LowOnes(n + 8), LowOnes(8)) == Up(LowOnes(n));
    Step8Down(LowOnes(n));
  }

  lemma {:induction false} RunOn<W>(g: Words<W>, s: W -> W, c: W, a: seq<W>, b: seq<W>)
    ensures Run(g, s, c, a + b) == Run(g, s, Run(g, s, c, a), b)
  {
    if b == [] {
      assert a + b == a;
    } else {
      RunOn(g, s, c, a, b[..|b| - 1]);
      assert (a + b)[..|a + b| - 1] == a + b[..|b| - 1];
    }
  }

  /**
   * The register starts with ones and is complemented at the end: nothing gives 0, and behind four bytes 0xFF, which
   * cancel the ones, the register runs as if it had started with zeros.
   */
  lemma ComplementsExactly(data: seq<Byte>)
    ensures Crc32([]) == seq(32, _ => false)
    ensures Crc32([0xFF, 0xFF, 0xFF, 0xFF] + data)
         == seq(32, i requires 0 <= i < 32 => !Run<Word32>(Bits32(), Step8(), seq(32, _ => false), WordsOf(data))[i])
  {
    var zero := seq(32, _ => false);
    FourOnes();
    FourWords(data);
    RunOn(Bits32(), Step8(), ONES, FourFulls(), WordsOf(data));
    Complemented(Run<Word32>(Bits32(), Step8(), zero, WordsOf(data)));
    Complemented(ONES);
    assert zero == ZERO && WordsOf([]) == [];
  }

  lemma Complemented(r: Word32)
    ensures Xor(r, ONES) == seq(32, i requires 0 <= i < 32 => !r[i])
  {
  }

  function FourFulls(): seq<Word32> { [Word(0xFF), Word(0xFF), Word(0xFF), Word(0xFF)] }

  lemma FourOnes()
    ensures Run<Word32>(Bits32(), Step8(), ONES, FourFulls()) == ZERO
  {
    AllOnesByte();
    EightOnesLess(24);
    EightOnesLess(16);
    EightOnesLess(8);
    EightOnesLess(0);
    assert ONES == LowOnes(32) && ZERO == LowOnes(0);
    FourBytes(Bits32(), Step8(), ONES, Word(0xFF), LowOnes(24), LowOnes(16), LowOnes(8), LowOnes(0));
  }

  lemma FourWords(data: seq<Byte>)
    ensures WordsOf([0xFF, 0xFF, 0xFF, 0xFF] + data) == FourFulls() + WordsOf(data)
  {
  }

  lemma FourBytes<W>(g: Words<W>, s: W -> W, c: W, w: W, r1: W, r2: W, r3: W, r4: W)
    requires s(g.xor(c, w)) == r1 && s(g.xor(r1, w)) == r2 && s(g.xor(r2, w)) == r3 && s(g.xor(r3, w)) == r4
    ensures Run(g, s, c, [w, w, w, w]) == r4
  {
    assert [w, w, w, w][..3] == [w, w, w] && [w, w, w][..2] == [w, w] && [w, w][..1] == [w];
    assert Run(g, s, c, [w]) == r1;
    assert Run(g, s, c, [w, w]) == r2;
    assert Run(g, s, c, [w, w, w]) == r3;
  }

  // ---------- the table form ----------

  /** Looking up the low byte and shifting the rest is one byte's worth of division. */
  lemma TableStep(s: Word32 -> Word32, c: Word32, b: Byte)
    requires Divides(Bits32(), s)
    ensures s(Xor(c, Word(b))) == Xor(s(LowByte(Xor(c, Word(b)))), ShiftRight(c, 8))
  {
    var x := Xor(c, Word(b));
    assert x == Xor(LowByte(x), Up(ShiftRight(x, 8)));
    WordInjective(b, b);
    assert ShiftRight(x, 8) == ShiftRight(c, 8);
    LowThenHigh(Bits32(), s, LowByte(x), ShiftRight(x, 8));
  }

  ghost predicate IsTable(s: Word32 -> Word32, t: seq<Word32>) {
    |t| == 256 && forall i: Byte :: t[i] == s(Word(i))
  }

  method MakeTable() returns (t: array<Word32>)
    ensures fresh(t) && IsTable(Step8(), t[..])
  {
    t := new Word32[256](_ => ZERO);
    for i := 0 to 256
      invariant forall j: Byte | j < i :: IsEntry(t[j], j)
    {
      t[i] := MakeEntry(i);
    }
  }

  predicate IsEntry(c: Word32, i: Byte) { c == Step8()(Word(i)) }


  method MakeEntry(i: Byte) returns (c: Word32)
    ensures IsEntry(c, i)
  {
    c := Word(i);
    for k := 0 to 8
      invariant c == Power(Step, Word(i), k)
    {
      c := if c[0] then Xor(Poly(), ShiftRight(c, 1)) else ShiftRight(c, 1);
    }
    PowerEight(Step, Word(i));
  }

  lemma LookupIndex(x: Word32)
    ensures NumberOf(x[..8]) < 256 && Word(NumberOf(x[..8])) == LowByte(x)
  {
    EightBits();
    BitsOfNumber(x[..8]);
  }

  /** The table form computes the remainder of every byte string. */
  method Compute(table: array<Word32>, data: seq<Byte>) returns (crc: Word32)
    requires IsTable(Step8(), table[..])
    ensures crc == Crc32(data)
  {
    Step8Divides();
    crc := RunTable(Step8(), table, data);
    crc := Xor(crc, ONES);
  }

  method RunTable(ghost s: Word32 -> Word32, table: array<Word32>, data: seq<Byte>) returns (crc: Word32)
    requires Divides(Bits32(), s) && IsTable(s, table[..])
    ensures crc == Run(Bits32(), s, ONES, WordsOf(data))
  {
    crc := ONES;
    for i := 0 to |data|
      invariant crc == Run(Bits32(), s, ONES, WordsOf(data[..i]))
    {
      assert data[..i + 1][..i] == data[..i];
      assert WordsOf(data[..i + 1])[..i] == WordsOf(data[..i]);
      TableStep(s, crc, data[i]);
      var x := Xor(crc, Word(data[i]));
      LookupIndex(x);
      var k: Byte := NumberOf(x[..8]);
      assert table[..][k] == s(Word(k));
      crc := Xor(table[k], ShiftRight(crc, 8));
    }
    assert data[..|data|] == data;
  }

  // ---------- one bit at a time ----------

  /** Bits fed in one by one, each followed by one division step. */
  function FeedBits(c: Word32, bits: seq<bool>): Word32
    decreases |bits|
  {
    if bits == [] then c else FeedBits(Step(Xor(c, Pad(bits[..1]))), bits[1..])
  }

  lemma {:induction false} FeedIsPower(c: Word32, bits: seq<bool>)
    requires |bits| < 32
    ensures Power(Step, Xor(c, Pad(bits)), |bits|) == FeedBits(c, bits)
    decreases |bits|
  {
    if bits == [] {
      assert Xor(c, Pad(bits)) == c;
    } else {
      var first, rest := Xor(c, Pad(bits[..1])), Pad(bits[1..]);
      assert Xor(c, Pad(bits)) == Xor(first, ShiftLeft(rest, 1));
      StepLinear(first, ShiftLeft(rest, 1));
      assert Step(ShiftLeft(rest, 1)) == rest;
      PowerFirst(Step, Xor(c, Pad(bits)), |bits|);
      FeedIsPower(Step(first), bits[1..]);
    }
  }

  /** A byte at once is its eight bits, lowest first, one at a time. */
  lemma ByteIsBitSerial(c: Word32, b: Byte)
    ensures Step8()(Xor(c, Word(b))) == FeedBits(c, BitsOf(b, 8))
  {
    var bits := BitsOf(b, 8);
    FeedIsPower(c, bits);
    PowerEight(Step, Xor(c, Word(b)));
  }

  // ---------- the stored number ----------

  function CrcNumber(data: seq<Byte>): nat { NumberOf(Crc32(data)) }

  lemma CrcFits(data: seq<Byte>)
    ensures CrcNumber(data) < 0x1_0000_0000
  {
    BitsOfNumber(Crc32(data));
    PowersUp();
  }

  /** Changing bytes within any four consecutive ones changes the checksum. */
  lemma BurstDetected(m: seq<Byte>, m': seq<Byte>, i: nat)
    requires |m| == |m'| && i + 4 <= |m| && m != m'
    requires forall j | 0 <= j < |m| && !(i <= j < i + 4) :: m[j] == m'[j]
    ensures CrcNumber(m) != CrcNumber(m')
  {
    var w, w' := WordsOf(m), WordsOf(m');
    BitsAreWords();
    Step8Divides();
    forall j | 0 <= j < |m| ensures LowOnly(w[j]) && LowOnly(w'[j]) && (w[j] == w'[j] <==> m[j] == m'[j]) {
      WordInjective(m[j], m'[j]);
      WordInjective(m'[j], m[j]);
    }
    RunsDiffer(Bits32(), Step8(), ONES, w, w', i);
    XorOnes(Run(Bits32(), Step8(), ONES, w), Run(Bits32(), Step8(), ONES, w'));
    BitsOfNumber(Crc32(m));
    BitsOfNumber(Crc32(m'));
  }

  lemma XorOnes(a: Word32, b: Word32)
    ensures Xor(a, ONES) == Xor(b, ONES) <==> a == b
  {
    assert Xor(Xor(a, ONES), ONES) == a && Xor(Xor(b, ONES), ONES) == b;
  }
}
