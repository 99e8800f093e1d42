/** The expression part of the SQL parser: recursive descent with one procedure per precedence level. */
module Parsing {
  import opened Mvcc

  const I64_END: nat := 0x8000_0000_0000_0000

  datatype BinOp = Or | And | Eq | Neq | Lt | Gt | Le | Ge | Add | Sub | Times | Over

  datatype Expr = Lit(value: Value) | Col(name: string) | Bin(op: BinOp, left: Expr, right: Expr) | Not(inner: Expr)

  /** The tokens an expression can hold; every other kind of token is a Stop. */
  datatype Token =
    | IntTok(n: nat) | FloatTok(bits: nat) | StrTok(s: string) | TrueTok | FalseTok | NullTok | IdentTok(id: string)
    | LParen | RParen | NotTok | OrTok | AndTok | EqTok | NeqTok | LtTok | GtTok | LeTok | GeTok
    | Plus | Minus | Mul | Star | Div | End | Stop(text: string)

  datatype Parsed = Fail | Ok(e: Expr, rest: seq<Token>)

  datatype MaybeOp = NoOp | AnOp(op: BinOp)

  // Levels: 0 OR, 1 AND, 2 comparison, 3 additive, 4 multiplicative, 5 unary, 6 primary.

  /** The binary operator of level k that the token stands for. */
  function OpAt(k: nat, t: Token): MaybeOp {
    match k
    case 0 => if t.OrTok? then AnOp(Or) else NoOp
    case 1 => if t.AndTok? then AnOp(And) else NoOp
    case 2 => (match t
               case EqTok => AnOp(Eq) case NeqTok => AnOp(Neq) case LtTok => AnOp(Lt)
               case GtTok => AnOp(Gt) case LeTok => AnOp(Le) case GeTok => AnOp(Ge) case _ => NoOp)
    case 3 => if t.Plus? then AnOp(Add) else if t.Minus? then AnOp(Sub) else NoOp
    case 4 => if t.Mul? || t.Star? then AnOp(Times) else if t.Div? then AnOp(Over) else NoOp
    case _ => NoOp
  }

  function Head(k: nat, toks: seq<Token>): MaybeOp {
    if toks == [] then NoOp else OpAt(k, toks[0])
  }

  /** What the procedure of level k makes of the tokens. */
  function Parse(k: nat, toks: seq<Token>): (p: Parsed)
    requires k <= 6
    ensures p.Ok? ==> |p.rest| < |toks|
    decreases |toks|, 7 - k
  {
    if k == 6 then Primary(toks)
    else if k == 5 then
      if toks != [] && toks[0].NotTok? then
        var p := Parse(5, toks[1..]);
        if p.Ok? then Ok(Not(p.e), p.rest) else Fail
      else if toks != [] && toks[0].Minus? then
        var p := Parse(5, toks[1..]);
        if p.Ok? then Ok(Bin(Sub, Lit(Int(0)), p.e), p.rest) else Fail
      else Parse(6, toks)
    else
      var p := Parse(k + 1, toks);
      if p.Fail? then Fail else if k == 2 then Comparison(p.e, p.rest) else Tail(k, p.e, p.rest)
  }

  /** The loop of a left-associative level, with the tree built so far. */
  function Tail(k: nat, left: Expr, toks: seq<Token>): (p: Parsed)
    requires k <= 4
    ensures p.Ok? ==> |p.rest| <= |toks|
    decreases |toks|, 0
  {
    if Head(k, toks).NoOp? then Ok(left, toks)
    else
      var p := Parse(k + 1, toks[1..]);
      if p.Fail? then Fail else Tail(k, Bin(Head(k, toks).op, left, p.e), p.rest)
  }

  /** At most one comparison. */
  function Comparison(left: Expr, toks: seq<Token>): (p: Parsed)
    ensures p.Ok? ==> |p.rest| <= |toks|
    decreases |toks|, 0
  {
    if Head(2, toks).NoOp? then Ok(left, toks)
    else
      var p := Parse(3, toks[1..]);
      if p.Fail? then Fail else Ok(Bin(Head(2, toks).op, left, p.e), p.rest)
  }

  function Primary(toks: seq<Token>): (p: Parsed)
    ensures p.Ok? ==> |p.rest| < |toks|
    decreases |toks|, 0
  {
    if toks == [] then Fail
    else match toks[0]
      case IntTok(n) => if n < I64_END then Ok(Lit(Int(n)), toks[1..]) else Fail
      case FloatTok(bits) => Ok(Lit(Float(bits)), toks[1..])
      case StrTok(s) => Ok(Lit(Str(s)), toks[1..])
      case TrueTok => Ok(Lit(Bool(true)), toks[1..])
      case FalseTok => Ok(Lit(Bool(false)), toks[1..])
      case NullTok => Ok(Lit(Null), toks[1..])
      case IdentTok(id) => Ok(Col(id), toks[1..])
      case LParen =>
        var p := Parse(0, toks[1..]);
        if p.Ok? && p.rest != [] && p.rest[0].RParen? then Ok(p.e, p.rest[1..]) else Fail
      case _ => Fail
  }

  // ---------- ways to write an expression ----------

  /**
   * A way to write an expression: a product may be spelled with MUL or STAR, a difference from zero with a sign, and
   * anything may stand in parentheses that it does not need.
   */
  datatype Source =
    | Leaf(value: Value) | Name(name: string) | Binary(op: BinOp, mul: bool, left: Source, right: Source)
    | Negated(inner: Source) | Signed(inner: Source) | Group(inner: Source)

  function Meaning(s: Source): Expr {
    match s
    case Leaf(v) => Lit(v)
    case Name(name) => Col(name)
    case Binary(op, _, l, r) => Bin(op, Meaning(l), Meaning(r))
    case Negated(inner) => Not(Meaning(inner))
    case Signed(inner) => Bin(Sub, Lit(Int(0)), Meaning(inner))
    case Group(inner) => Meaning(inner)
  }

  function OpLevel(op: BinOp): nat {
    match op
    case Or => 0 case And => 1
    case Eq => 2 case Neq => 2 case Lt => 2 case Gt => 2 case Le => 2 case Ge => 2
    case Add => 3 case Sub => 3 case Times => 4 case Over => 4
  }

  function Level(s: Source): nat {
    match s
    case Binary(op, _, _, _) => OpLevel(op)
    case Negated(_) => 5
    case Signed(_) => 5
    case _ => 6
  }

  function OpToken(op: BinOp, mul: bool): Token {
    match op
    case Or => OrTok case And => AndTok
    case Eq => EqTok case Neq => NeqTok case Lt => LtTok case Gt => GtTok case Le => LeTok case Ge => GeTok
    case Add => Plus case Sub => Minus case Times => if mul then Mul else Star case Over => Div
  }

  function LitToken(v: Value): Token {
    match v
    case Null => NullTok
    case Int(i) => IntTok(if i >= 0 then i else 0)
    case Float(bits) => FloatTok(bits)
    case Bool(b) => if b then TrueTok else FalseTok
    case Str(s) => StrTok(s)
  }

  /** The tokens for a place of level k: besides the written parentheses only those that the level asks for. */
  function Print(s: Source, k: nat): seq<Token>
    decreases s, 1
  {
    if Level(s) < k then [LParen] + Body(s) + [RParen] else Body(s)
  }

  function Body(s: Source): seq<Token>
    decreases s, 0
  {
    match s
    case Leaf(v) => [LitToken(v)]
    case Name(name) => [IdentTok(name)]
    case Negated(inner) => [NotTok] + Print(inner, 5)
    case Signed(inner) => [Minus] + Print(inner, 5)
    case Group(inner) => [LParen] + Print(inner, 0) + [RParen]
    case Binary(op, mul, l, r) =>
      var k := OpLevel(op);
      Print(l, if k == 2 then 3 else k) + [OpToken(op, mul)] + Print(r, k + 1)
  }

  /** Integer literals are what a literal token can hold. */
  predicate Printable(s: Source) {
    match s
    case Leaf(v) => v.Int? ==> 0 <= v.i < I64_END
    case Name(_) => true
    case Negated(inner) => Printable(inner)
    case Signed(inner) => Printable(inner)
    case Group(inner) => Printable(inner)
    case Binary(_, _, l, r) => Printable(l) && Printable(r)
  }

  /** The next token is no binary operator of level k or higher. */
  predicate Clear(k: nat, rest: seq<Token>) {
    forall j | k <= j <= 4 :: Head(j, rest).NoOp?
  }

  /** What follows when level k has parsed e: the loop goes on, except at comparisons and below. */
  function After(k: nat, e: Expr, rest: seq<Token>): Parsed {
    if k == 2 || k > 4 then Ok(e, rest) else Tail(k, e, rest)
  }

  predicate May(k: nat, rest: seq<Token>) {
    Clear(if k == 2 then 2 else k + 1, rest)
  }

  lemma OpTokenLevel(op: BinOp, mul: bool, k: nat, rest: seq<Token>)
    requires k <= 6
    ensures Head(k, [OpToken(op, mul)] + rest) == if k == OpLevel(op) then AnOp(op) else NoOp
  {
  }

  /** A literal, a name or anything in parentheses starts neither with a sign nor with NOT. */
  lemma FirstToken(s: Source, k: nat)
    requires Level(s) == 6 || Level(s) < k
    ensures Print(s, k) != [] && !Print(s, k)[0].Minus? && !Print(s, k)[0].NotTok?
  {
  }

  /** From one level to the next looser one, for a tree that does not belong to the looser level. */
  lemma Loosen(k: nat, e: Expr, toks: seq<Token>, rest: seq<Token>)
    requires k <= 4 && Parse(k + 1, toks) == After(k + 1, e, rest) && May(k, rest)
    ensures Parse(k, toks) == After(k, e, rest)
  {
    assert k + 1 <= 4 ==> Head(k + 1, rest).NoOp?;
  }

  /** Parsing at level k what was written for level k comes to the point where level k holds exactly that tree. */
  lemma {:induction false} ParsePrint(s: Source, k: nat, rest: seq<Token>)
    requires Printable(s) && k <= 6 && May(k, rest)
    ensures Parse(k, Print(s, k) + rest) == After(k, Meaning(s), rest)
    decreases s, if Level(s) < k then 1 else 0, 7 - k, 1
  {
    if Level(s) < k {
      ParseParen(s, k, rest);
    } else if Level(s) > k {
      assert Print(s, k) == Print(s, k + 1);
      if k == 5 {
        FirstToken(s, 5);
        ParsePrint(s, 6, rest);
        assert (Print(s, 5) + rest)[0] == Print(s, 5)[0];
      } else {
        ParsePrint(s, k + 1, rest);
        Loosen(k, Meaning(s), Print(s, k) + rest, rest);
      }
    } else {
      match s
      case Leaf(_) => ParseLeaf(s, rest);
      case Name(_) => ParseLeaf(s, rest);
      case Negated(inner) =>
        ParsePrint(inner, 5, rest);
        ParsePrefix(s, inner, NotTok, rest);
      case Signed(inner) =>
        ParsePrint(inner, 5, rest);
        ParsePrefix(s, inner, Minus, rest);
      case Group(inner) =>
        ParsePrint(inner, 0, [RParen] + rest);
        assert Print(s, 6) == [LParen] + Print(inner, 0) + [RParen];
        InParens(Print(s, 6) + rest, Print(inner, 0), Meaning(inner), rest);
      case Binary(op, mul, l, r) => ParseBin(op, mul, l, r, rest);
    }
  }

  lemma ParseLeaf(s: Source, rest: seq<Token>)
    requires Printable(s) && (s.Leaf? || s.Name?)
    ensures Parse(6, Print(s, 6) + rest) == Ok(Meaning(s), rest)
  {
    assert Print(s, 6) == Body(s) && |Body(s)| == 1;
    assert (Body(s) + rest)[1..] == rest;
  }

  lemma ParsePrefix(s: Source, inner: Source, sign: Token, rest: seq<Token>)
    requires s == (if sign == NotTok then Negated(inner) else Signed(inner)) && sign in {NotTok, Minus}
    requires Parse(5, Print(inner, 5) + rest) == Ok(Meaning(inner), rest)
    ensures Parse(5, Print(s, 5) + rest) == Ok(Meaning(s), rest)
  {
    var toks := [sign] + Print(inner, 5);
    assert Print(s, 5) == toks;
    assert (toks + rest)[1..] == Print(inner, 5) + rest;
  }

  lemma {:induction false} ParseParen(s: Source, k: nat, rest: seq<Token>)
    requires Printable(s) && k <= 6 && May(k, rest) && Level(s) < k
    ensures Parse(k, Print(s, k) + rest) == After(k, Meaning(s), rest)
    decreases s, 1, 7 - k, 0
  {
    if k == 6 {
      ParsePrint(s, 0, [RParen] + rest);
      assert Print(s, 6) == [LParen] + Print(s, 0) + [RParen];
      InParens(Print(s, 6) + rest, Print(s, 0), Meaning(s), rest);
    } else {
      assert Print(s, k) == Print(s, k + 1);
      ParseParen(s, k + 1, rest);
      if k < 5 {
        Loosen(k, Meaning(s), Print(s, k) + rest, rest);
      } else {
        FirstToken(s, 5);
        assert (Print(s, 5) + rest)[0] == Print(s, 5)[0];
      }
    }
  }

  lemma InParens(toks: seq<Token>, x: seq<Token>, e: Expr, rest: seq<Token>)
    requires toks == [LParen] + x + [RParen] + rest && Parse(0, x + ([RParen] + rest)) == After(0, e, [RParen] + rest)
    ensures Parse(6, toks) == Ok(e, rest)
  {
    assert Head(0, [RParen] + rest).NoOp?;
    assert toks[1..] == x + ([RParen] + rest);
    assert ([RParen] + rest)[1..] == rest;
  }

  lemma {:induction false} ParseBin(op: BinOp, mul: bool, l: Source, r: Source, rest: seq<Token>)
    requires Printable(l) && Printable(r) && May(OpLevel(op), rest)
    ensures Parse(OpLevel(op), Body(Binary(op, mul, l, r)) + rest) == After(OpLevel(op), Bin(op, Meaning(l), Meaning(r)), rest)
    decreases Binary(op, mul, l, r), 0, 7 - OpLevel(op), 0
  {
    var k := OpLevel(op);
    var right := Print(r, k + 1) + rest;
    var more := [OpToken(op, mul)] + right;
    var j := if k == 2 then 3 else k;
    BinLayout(op, mul, l, r, rest);
    ClearAbove(op, mul, right);
    ParsePrint(l, j, more);
    ParsePrint(r, k + 1, rest);
    AfterIsOk(k + 1, Meaning(r), rest);
    OneOp(k, op, Meaning(l), Meaning(r), more, right, rest);
  }

  lemma BinLayout(op: BinOp, mul: bool, l: Source, r: Source, rest: seq<Token>)
    ensures Body(Binary(op, mul, l, r)) + rest
         == Print(l, if OpLevel(op) == 2 then 3 else OpLevel(op)) + ([OpToken(op, mul)] + (Print(r, OpLevel(op) + 1) + rest))
  {
  }

  lemma AfterIsOk(k: nat, e: Expr, rest: seq<Token>)
    requires Clear(k, rest)
    ensures After(k, e, rest) == Ok(e, rest)
  {
    assert k <= 4 ==> Head(k, rest).NoOp?;
  }

  lemma ClearAbove(op: BinOp, mul: bool, right: seq<Token>)
    ensures var more := [OpToken(op, mul)] + right;
            && Head(OpLevel(op), more) == AnOp(op) && Clear(OpLevel(op) + 1, more)
            && May(if OpLevel(op) == 2 then 3 else OpLevel(op), more) && (OpLevel(op) == 2 ==> Head(3, more).NoOp?)
  {
    var more := [OpToken(op, mul)] + right;
    OpTokenLevel(op, mul, OpLevel(op), right);
    forall i | OpLevel(op) < i <= 4 ensures Head(i, more).NoOp? { OpTokenLevel(op, mul, i, right); }
  }

  /** One round of the loop, or the one comparison. */
  lemma OneOp(k: nat, op: BinOp, l: Expr, r: Expr, more: seq<Token>, right: seq<Token>, rest: seq<Token>)
    requires k <= 4 && more != [] && more[1..] == right && Head(k, more) == AnOp(op) && Parse(k + 1, right) == Ok(r, rest)
    ensures if k == 2 then Comparison(l, more) == Ok(Bin(op, l, r), rest) else Tail(k, l, more) == Tail(k, Bin(op, l, r), rest)
  {
  }

  /** However an expression is written, parsing gives the expression back and stops at the first token after it. */
  lemma RoundTrip(s: Source, rest: seq<Token>)
    requires Printable(s) && Clear(0, rest)
    ensures Parse(0, Print(s, 0) + rest) == Ok(Meaning(s), rest)
  {
    ParsePrint(s, 0, rest);
    assert Head(0, rest).NoOp?;
  }

  /** A sign before an operand, at any level that can hold one, is a difference from zero. */
  lemma SignedOperand(s: Source, k: nat, rest: seq<Token>)
    requires Printable(s) && k <= 5 && May(k, rest)
    ensures Parse(k, [Minus] + Print(s, 5) + rest) == After(k, Bin(Sub, Lit(Int(0)), Meaning(s)), rest)
  {
    ParsePrint(Signed(s), k, rest);
    assert Print(Signed(s), k) == [Minus] + Print(s, 5);
  }

  // ---------- only what is written parses ----------

  /** Whatever level k accepts is a way to write, at that level, the tree it gives. */
  lemma {:induction false} ParsedIsWritten(k: nat, toks: seq<Token>) returns (s: Source)
    requires k <= 6 && Parse(k, toks).Ok?
    ensures Printable(s) && Level(s) >= k && Meaning(s) == Parse(k, toks).e
    ensures toks == Print(s, k) + Parse(k, toks).rest
    decreases |toks|, 7 - k
  {
    if k == 6 {
      s := PrimaryIsWritten(toks);
    } else if k == 5 && toks != [] && (toks[0].NotTok? || toks[0].Minus?) {
      var inner := ParsedIsWritten(5, toks[1..]);
      s := if toks[0].NotTok? then Negated(inner) else Signed(inner);
      assert toks == [toks[0]] + toks[1..];
    } else if k == 5 {
      s := ParsedIsWritten(6, toks);
    } else {
      var left := ParsedIsWritten(k + 1, toks);
      var more := Parse(k + 1, toks).rest;
      if k == 2 {
        s := ComparisonIsWritten(left, more);
      } else {
        s := TailIsWritten(k, left, more);
      }
    }
  }

  lemma {:induction false} PrimaryIsWritten(toks: seq<Token>) returns (s: Source)
    requires Primary(toks).Ok?
    ensures Printable(s) && Level(s) == 6 && Meaning(s) == Primary(toks).e
    ensures toks == Print(s, 6) + Primary(toks).rest
    decreases |toks|, 0
  {
    assert toks == [toks[0]] + toks[1..];
    var e := Primary(toks).e;
    if toks[0].LParen? {
      var inner := ParsedIsWritten(0, toks[1..]);
      s := Group(inner);
      var closing := Parse(0, toks[1..]).rest;
      assert closing == [RParen] + closing[1..];
    } else if e.Lit? {
      s := Leaf(e.value);
    } else {
      s := Name(toks[0].id);
    }
  }

  lemma {:induction false} TailIsWritten(k: nat, left: Source, toks: seq<Token>) returns (s: Source)
    requires k <= 4 && k != 2 && Printable(left) && Level(left) >= k && Tail(k, Meaning(left), toks).Ok?
    ensures Printable(s) && Level(s) >= k && Meaning(s) == Tail(k, Meaning(left), toks).e
    ensures Print(left, k) + toks == Print(s, k) + Tail(k, Meaning(left), toks).rest
    decreases |toks|, 0
  {
    if Head(k, toks).NoOp? {
      s := left;
    } else {
      var right := ParsedIsWritten(k + 1, toks[1..]);
      var both := Binary(Head(k, toks).op, toks[0].Mul?, left, right);
      s := TailIsWritten(k, both, Parse(k + 1, toks[1..]).rest);
      OneOpWritten(k, both, toks);
    }
  }

  lemma {:induction false} ComparisonIsWritten(left: Source, toks: seq<Token>) returns (s: Source)
    requires Printable(left) && Level(left) >= 3 && Comparison(Meaning(left), toks).Ok?
    ensures Printable(s) && Level(s) >= 2 && Meaning(s) == Comparison(Meaning(left), toks).e
    ensures Print(left, 3) + toks == Print(s, 2) + Comparison(Meaning(left), toks).rest
    decreases |toks|, 0
  {
    if Head(2, toks).NoOp? {
      s := left;
    } else {
      var right := ParsedIsWritten(3, toks[1..]);
      s := Binary(Head(2, toks).op, false, left, right);
      OneOpWritten(2, s, toks);
    }
  }

  /** The token before the right operand is the operator's. */
  lemma OneOpWritten(k: nat, both: Source, toks: seq<Token>)
    requires k <= 4 && both.Binary? && Head(k, toks) == AnOp(both.op) && both.mul == toks[0].Mul?
    requires Parse(k + 1, toks[1..]).Ok? && toks[1..] == Print(both.right, k + 1) + Parse(k + 1, toks[1..]).rest
    ensures OpLevel(both.op) == k && Print(both.left, if k == 2 then 3 else k) + toks == Print(both, k) + Parse(k + 1, toks[1..]).rest
  {
    OperatorToken(k, toks[0]);
    Spliced(Print(both.left, if k == 2 then 3 else k), toks, Print(both.right, k + 1), Parse(k + 1, toks[1..]).rest);
  }

  lemma OperatorToken(k: nat, t: Token)
    requires k <= 4 && OpAt(k, t).AnOp?
    ensures t == OpToken(OpAt(k, t).op, t.Mul?) && OpLevel(OpAt(k, t).op) == k
  {
  }

  lemma Spliced(left: seq<Token>, toks: seq<Token>, right: seq<Token>, rest: seq<Token>)
    requires toks != [] && toks[1..] == right + rest
    ensures left + toks == left + [toks[0]] + right + rest
  {
    assert toks == [toks[0]] + toks[1..];
  }

  // ---------- the grammar in examples ----------

  /** Names and literals; an integer literal that does not fit 64 signed bits is no expression. */
  lemma EachAtom(id: string, n: nat, bits: nat, text: string, rest: seq<Token>)
    requires Clear(0, rest)
    ensures Parse(0, [IdentTok(id)] + rest) == Ok(Col(id), rest)
    ensures Parse(0, [IntTok(n)] + rest) == if n < 0x8000_0000_0000_0000 then Ok(Lit(Int(n)), rest) else Fail
    ensures Parse(0, [FloatTok(bits)] + rest) == Ok(Lit(Float(bits)), rest)
    ensures Parse(0, [StrTok(text)] + rest) == Ok(Lit(Str(text)), rest)
    ensures Parse(0, [TrueTok] + rest) == Ok(Lit(Bool(true)), rest)
    ensures Parse(0, [FalseTok] + rest) == Ok(Lit(Bool(false)), rest)
    ensures Parse(0, [NullTok] + rest) == Ok(Lit(Null), rest)
  {
    RoundTripOf(Name(id), [IdentTok(id)], Col(id), rest);
    if n < I64_END {
      RoundTripOf(Leaf(Int(n)), [IntTok(n)], Lit(Int(n)), rest);
    } else {
      TooWide(n, [IntTok(n)] + rest);
    }
    RoundTripOf(Leaf(Float(bits)), [FloatTok(bits)], Lit(Float(bits)), rest);
    RoundTripOf(Leaf(Str(text)), [StrTok(text)], Lit(Str(text)), rest);
    RoundTripOf(Leaf(Bool(true)), [TrueTok], Lit(Bool(true)), rest);
    RoundTripOf(Leaf(Bool(false)), [FalseTok], Lit(Bool(false)), rest);
    RoundTripOf(Leaf(Null), [NullTok], Lit(Null), rest);
  }

  lemma TooWide(n: nat, toks: seq<Token>)
    requires toks != [] && toks[0] == IntTok(n) && n >= I64_END
    ensures Parse(0, toks) == Fail
  {
    assert Parse(6, toks) == Fail;
    assert Parse(5, toks) == Fail;
    assert Parse(4, toks) == Fail;
    assert Parse(3, toks) == Fail;
    assert Parse(2, toks) == Fail;
    assert Parse(1, toks) == Fail;
  }

  /** The six comparisons, between two names. */
  lemma EachComparison(a: string, b: string, rest: seq<Token>)
    requires Clear(0, rest)
    ensures Parse(0, [IdentTok(a), EqTok, IdentTok(b)] + rest) == Ok(Bin(Eq, Col(a), Col(b)), rest)
    ensures Parse(0, [IdentTok(a), NeqTok, IdentTok(b)] + rest) == Ok(Bin(Neq, Col(a), Col(b)), rest)
    ensures Parse(0, [IdentTok(a), LtTok, IdentTok(b)] + rest) == Ok(Bin(Lt, Col(a), Col(b)), rest)
    ensures Parse(0, [IdentTok(a), GtTok, IdentTok(b)] + rest) == Ok(Bin(Gt, Col(a), Col(b)), rest)
    ensures Parse(0, [IdentTok(a), LeTok, IdentTok(b)] + rest) == Ok(Bin(Le, Col(a), Col(b)), rest)
    ensures Parse(0, [IdentTok(a), GeTok, IdentTok(b)] + rest) == Ok(Bin(Ge, Col(a), Col(b)), rest)
  {
    OperatorBetween(Eq, false, a, b, rest);
    OperatorBetween(Neq, false, a, b, rest);
    OperatorBetween(Lt, false, a, b, rest);
    OperatorBetween(Gt, false, a, b, rest);
    OperatorBetween(Le, false, a, b, rest);
    OperatorBetween(Ge, false, a, b, rest);
  }

  /** The seven other operator tokens, between two names. */
  lemma EachOperator(a: string, b: string, rest: seq<Token>)
    requires Clear(0, rest)
    ensures Parse(0, [IdentTok(a), OrTok, IdentTok(b)] + rest) == Ok(Bin(Or, Col(a), Col(b)), rest)
    ensures Parse(0, [IdentTok(a), AndTok, IdentTok(b)] + rest) == Ok(Bin(And, Col(a), Col(b)), rest)
    ensures Parse(0, [IdentTok(a), Plus, IdentTok(b)] + rest) == Ok(Bin(Add, Col(a), Col(b)), rest)
    ensures Parse(0, [IdentTok(a), Minus, IdentTok(b)] + rest) == Ok(Bin(Sub, Col(a), Col(b)), rest)
    ensures Parse(0, [IdentTok(a), Star, IdentTok(b)] + rest) == Ok(Bin(Times, Col(a), Col(b)), rest)
    ensures Parse(0, [IdentTok(a), Mul, IdentTok(b)] + rest) == Ok(Bin(Times, Col(a), Col(b)), rest)
    ensures Parse(0, [IdentTok(a), Div, IdentTok(b)] + rest) == Ok(Bin(Over, Col(a), Col(b)), rest)
  {
    OperatorBetween(Or, false, a, b, rest);
    OperatorBetween(And, false, a, b, rest);
    OperatorBetween(Add, false, a, b, rest);
    OperatorBetween(Sub, false, a, b, rest);
    OperatorBetween(Times, false, a, b, rest);
    OperatorBetween(Times, true, a, b, rest);
    OperatorBetween(Over, false, a, b, rest);
  }

  lemma OperatorBetween(op: BinOp, mul: bool, a: string, b: string, rest: seq<Token>)
    requires Clear(0, rest)
    ensures Parse(0, [IdentTok(a), OpToken(op, mul), IdentTok(b)] + rest) == Ok(Bin(op, Col(a), Col(b)), rest)
  {
    var s := Binary(op, mul, Name(a), Name(b));
    Written(op, mul, Name(a), Name(b), 0, [IdentTok(a)], [IdentTok(b)]);
    assert Meaning(Name(a)) == Col(a) && Meaning(Name(b)) == Col(b);
    RoundTripOf(s, [IdentTok(a), OpToken(op, mul), IdentTok(b)], Bin(op, Col(a), Col(b)), rest);
  }

  lemma Written(op: BinOp, mul: bool, l: Source, r: Source, k: nat, left: seq<Token>, right: seq<Token>)
    requires k <= OpLevel(op) && Body(l) == left && Level(l) >= OpLevel(op) + (if OpLevel(op) == 2 then 1 else 0)
    requires Body(r) == right && Level(r) > OpLevel(op)
    ensures Body(Binary(op, mul, l, r)) == left + [OpToken(op, mul)] + right == Print(Binary(op, mul, l, r), k)
    ensures Meaning(Binary(op, mul, l, r)) == Bin(op, Meaning(l), Meaning(r))
  {
  }

  /** A name before an operand of a tighter level. */
  lemma NameBefore(op: BinOp, a: string, s: Source, right: seq<Token>, e: Expr) returns (t: Source)
    requires Printable(s) && Body(s) == right && Meaning(s) == e && Level(s) > OpLevel(op)
    ensures Printable(t) && Body(t) == [IdentTok(a), OpToken(op, false)] + right && Meaning(t) == Bin(op, Col(a), e)
    ensures Level(t) == OpLevel(op)
  {
    t := Binary(op, false, Name(a), s);
    Written(op, false, Name(a), s, 0, [IdentTok(a)], right);
    assert Meaning(Name(a)) == Col(a);
  }

  /** a OR b AND c <= d - e * -NOT f, each operator binding tighter than the one before it. */
  lemma Precedence(rest: seq<Token>)
    requires Clear(0, rest)
    ensures Parse(0, [IdentTok("a"), OrTok, IdentTok("b"), AndTok, IdentTok("c"), LeTok, IdentTok("d"), Minus, IdentTok("e"), Star,
                      Minus, NotTok, IdentTok("f")] + rest)
         == Ok(Bin(Or, Col("a"), Bin(And, Col("b"), Bin(Le, Col("c"), Bin(Sub, Col("d"),
                 Bin(Times, Col("e"), Bin(Sub, Lit(Int(0)), Not(Col("f")))))))), rest)
  {
    var s := LoosePart();
    RoundTripOf(s, Body(s), Meaning(s), rest);
  }

  lemma RoundTripOf(s: Source, toks: seq<Token>, e: Expr, rest: seq<Token>)
    requires Printable(s) && Body(s) == toks && Meaning(s) == e && Clear(0, rest)
    ensures Parse(0, toks + rest) == Ok(e, rest)
  {
    RoundTrip(s, rest);
  }

  lemma LoosePart() returns (s: Source)
    ensures Printable(s)
    ensures Body(s) == [IdentTok("a"), OrTok, IdentTok("b"), AndTok, IdentTok("c"), LeTok, IdentTok("d"), Minus, IdentTok("e"), Star,
                        Minus, NotTok, IdentTok("f")]
    ensures Meaning(s) == Bin(Or, Col("a"), Bin(And, Col("b"), Bin(Le, Col("c"), Bin(Sub, Col("d"),
                            Bin(Times, Col("e"), Bin(Sub, Lit(Int(0)), Not(Col("f"))))))))
  {
    s := MiddlePart();
    s := NameBefore(And, "b", s, Body(s), Meaning(s));
    s := NameBefore(Or, "a", s, Body(s), Meaning(s));
  }

  lemma MiddlePart() returns (s: Source)
    ensures Printable(s) && Level(s) == 2
    ensures Body(s) == [IdentTok("c"), LeTok, IdentTok("d"), Minus, IdentTok("e"), Star, Minus, NotTok, IdentTok("f")]
    ensures Meaning(s) == Bin(Le, Col("c"), Bin(Sub, Col("d"), Bin(Times, Col("e"), Bin(Sub, Lit(Int(0)), Not(Col("f"))))))
  {
    s := TightPart();
    s := NameBefore(Le, "c", s, Body(s), Meaning(s));
  }

  lemma TightPart() returns (s: Source)
    ensures Printable(s) && Level(s) == 3
    ensures Body(s) == [IdentTok("d"), Minus, IdentTok("e"), Star, Minus, NotTok, IdentTok("f")]
    ensures Meaning(s) == Bin(Sub, Col("d"), Bin(Times, Col("e"), Bin(Sub, Lit(Int(0)), Not(Col("f")))))
  {
    s := UnaryPart();
    s := NameBefore(Times, "e", s, Body(s), Meaning(s));
    s := NameBefore(Sub, "d", s, Body(s), Meaning(s));
  }

  lemma UnaryPart() returns (s: Source)
    ensures Printable(s) && Level(s) == 5
    ensures Body(s) == [Minus, NotTok, IdentTok("f")] && Meaning(s) == Bin(Sub, Lit(Int(0)), Not(Col("f")))
  {
    s := Signed(Negated(Name("f")));
    assert Print(Name("f"), 5) == [IdentTok("f")] && Meaning(Name("f")) == Col("f") && Printable(Name("f"));
    assert Print(Negated(Name("f")), 5) == [NotTok, IdentTok("f")] && Meaning(Negated(Name("f"))) == Not(Col("f"));
    assert Printable(Negated(Name("f")));
  }

  /** a - b - c is (a - b) - c. */
  lemma LeftToRight(a: string, b: string, c: string, rest: seq<Token>)
    requires Clear(0, rest)
    ensures Parse(0, [IdentTok(a), Minus, IdentTok(b), Minus, IdentTok(c)] + rest)
         == Ok(Bin(Sub, Bin(Sub, Col(a), Col(b)), Col(c)), rest)
  {
    var ab := Binary(Sub, false, Name(a), Name(b));
    var abc := Binary(Sub, false, ab, Name(c));
    Written(Sub, false, Name(a), Name(b), 0, [IdentTok(a)], [IdentTok(b)]);
    Written(Sub, false, ab, Name(c), 0, [IdentTok(a), Minus, IdentTok(b)], [IdentTok(c)]);
    assert Meaning(Name(a)) == Col(a) && Meaning(Name(b)) == Col(b) && Meaning(Name(c)) == Col(c);
    RoundTripOf(abc, [IdentTok(a), Minus, IdentTok(b), Minus, IdentTok(c)], Bin(Sub, Bin(Sub, Col(a), Col(b)), Col(c)), rest);
  }

  /** a < b < c stops before the second comparison. */
  lemma ComparisonsDoNotChain(a: string, b: string, more: seq<Token>)
    requires more != [] && more[0] in {EqTok, NeqTok, LtTok, GtTok, LeTok, GeTok}
    ensures Parse(0, [IdentTok(a), LtTok, IdentTok(b)] + more) == Ok(Bin(Lt, Col(a), Col(b)), more)
  {
    var less := Binary(Lt, false, Name(a), Name(b));
    Written(Lt, false, Name(a), Name(b), 2, [IdentTok(a)], [IdentTok(b)]);
    assert Print(less, 2) == [IdentTok(a), LtTok, IdentTok(b)];
    assert Meaning(Name(a)) == Col(a) && Meaning(Name(b)) == Col(b);
    SecondComparison(less, more);
  }

  /** A second comparison operator ends the expression. */
  lemma SecondComparison(s: Source, more: seq<Token>)
    requires Printable(s) && s.Binary? && OpLevel(s.op) == 2 && Head(2, more).AnOp?
    ensures Parse(0, Print(s, 2) + more) == Ok(Meaning(s), more)
  {
    var right := Print(s.right, 3) + more;
    var first := [OpToken(s.op, s.mul)] + right;
    assert forall j | j != 2 :: Head(j, more).NoOp?;
    BinLayout(s.op, s.mul, s.left, s.right, more);
    ClearAbove(s.op, s.mul, right);
    ParsePrint(s.left, 3, first);
    ParsePrint(s.right, 3, more);
    AfterIsOk(3, Meaning(s.right), more);
    OneOp(2, s.op, Meaning(s.left), Meaning(s.right), first, right, more);
    var toks := Print(s, 2) + more;
    assert Parse(2, toks) == Ok(Meaning(s), more);
    assert Parse(1, toks) == Ok(Meaning(s), more);
  }

  // ---------- the recursive descent itself ----------

  class Parser {
    const tokens: seq<Token>
    var pos: nat

    /** The lexer ends every stream with END, and the cursor never moves past it. */
    predicate Valid()
      reads this
    {
      pos < |tokens| && tokens[|tokens| - 1].End?
    }

    function Rest(): seq<Token>
      requires Valid()
      reads this
    {
      tokens[pos..]
    }

    constructor (tokens: seq<Token>)
      requires tokens != [] && tokens[|tokens| - 1].End?
      ensures Valid() && Rest() == tokens && this.tokens == tokens
    {
      this.tokens, pos := tokens, 0;
    }

    method Advance()
      requires Valid() && !tokens[pos].End?
      modifies this
      ensures Valid() && pos == old(pos) + 1 && Rest() == old(Rest())[1..]
    {
      assert pos < |tokens| - 1;
      pos := pos + 1;
    }

    /** Takes the token if it is a binary operator of level k. */
    method MatchOp(k: nat) returns (m: MaybeOp)
      requires Valid()
      modifies this
      ensures Valid() && m == Head(k, old(Rest()))
      ensures if m.NoOp? then pos == old(pos) else pos == old(pos) + 1 && Rest() == old(Rest())[1..]
    {
      m := OpAt(k, tokens[pos]);
      if m.AnOp? { Advance(); }
    }

    method ParseExpression() returns (p: Parsed)
      requires Valid()
      modifies this
      ensures p == Parse(0, old(Rest())) && Valid() && (p.Ok? ==> p.rest == Rest() && pos > old(pos))
      decreases |tokens| - pos, 9
    {
      p := ParseOr();
    }

    method ParseOr() returns (p: Parsed)
      requires Valid()
      modifies this
      ensures p == Parse(0, old(Rest())) && Valid() && (p.Ok? ==> p.rest == Rest() && pos > old(pos))
      decreases |tokens| - pos, 8
    {
      p := ParseAnd();
      if p.Fail? { return; }
      var op := MatchOp(0);
      while op.AnOp?
        invariant Valid() && p.Ok? && pos > old(pos)
        invariant LoopAt(0, p.e, op, Rest(), Parse(0, old(Rest())))
        decreases |tokens| - pos
      {
        var right := ParseAnd();
        if right.Fail? { return Fail; }
        p := Ok(Bin(Or, p.e, right.e), Rest());
        op := MatchOp(0);
      }
      p := Ok(p.e, Rest());
    }

    method ParseAnd() returns (p: Parsed)
      requires Valid()
      modifies this
      ensures p == Parse(1, old(Rest())) && Valid() && (p.Ok? ==> p.rest == Rest() && pos > old(pos))
      decreases |tokens| - pos, 7
    {
      p := ParseComparison();
      if p.Fail? { return; }
      var op := MatchOp(1);
      while op.AnOp?
        invariant Valid() && p.Ok? && pos > old(pos)
        invariant LoopAt(1, p.e, op, Rest(), Parse(1, old(Rest())))
        decreases |tokens| - pos
      {
        var right := ParseComparison();
        if right.Fail? { return Fail; }
        p := Ok(Bin(And, p.e, right.e), Rest());
        op := MatchOp(1);
      }
      p := Ok(p.e, Rest());
    }

    method ParseComparison() returns (p: Parsed)
      requires Valid()
      modifies this
      ensures p == Parse(2, old(Rest())) && Valid() && (p.Ok? ==> p.rest == Rest() && pos > old(pos))
      decreases |tokens| - pos, 6
    {
      p := ParseAddition();
      if p.Fail? { return; }
      var op := MatchOp(2);
      if op.NoOp? { return; }
      var right := ParseAddition();
      if right.Fail? { return Fail; }
      return Ok(Bin(op.op, p.e, right.e), right.rest);
    }

    method ParseAddition() returns (p: Parsed)
      requires Valid()
      modifies this
      ensures p == Parse(3, old(Rest())) && Valid() && (p.Ok? ==> p.rest == Rest() && pos > old(pos))
      decreases |tokens| - pos, 5
    {
      p := ParseMultiplication();
      if p.Fail? { return; }
      var op := MatchOp(3);
      while op.AnOp?
        invariant Valid() && p.Ok? && pos > old(pos)
        invariant LoopAt(3, p.e, op, Rest(), Parse(3, old(Rest())))
        decreases |tokens| - pos
      {
        var right := ParseMultiplication();
        if right.Fail? { return Fail; }
        p := Ok(Bin(op.op, p.e, right.e), Rest());
        op := MatchOp(3);
      }
      p := Ok(p.e, Rest());
    }

    method ParseMultiplication() returns (p: Parsed)
      requires Valid()
      modifies this
      ensures p == Parse(4, old(Rest())) && Valid() && (p.Ok? ==> p.rest == Rest() && pos > old(pos))
      decreases |tokens| - pos, 4
    {
      p := ParseUnary();
      if p.Fail? { return; }
      var op := MatchOp(4);
      while op.AnOp?
        invariant Valid() && p.Ok? && pos > old(pos)
        invariant LoopAt(4, p.e, op, Rest(), Parse(4, old(Rest())))
        decreases |tokens| - pos
      {
        var right := ParseUnary();
        if right.Fail? { return Fail; }
        p := Ok(Bin(op.op, p.e, right.e), Rest());
        op := MatchOp(4);
      }
      p := Ok(p.e, Rest());
    }

    method ParseUnary() returns (p: Parsed)
      requires Valid()
      modifies this
      ensures p == Parse(5, old(Rest())) && Valid() && (p.Ok? ==> p.rest == Rest() && pos > old(pos))
      decreases |tokens| - pos, 3
    {
      if tokens[pos].NotTok? {
        Advance();
        p := ParseUnary();
        return if p.Ok? then Ok(Not(p.e), p.rest) else Fail;
      }
      if tokens[pos].Minus? {
        Advance();
        p := ParseUnary();
        return if p.Ok? then Ok(Bin(Sub, Lit(Int(0)), p.e), p.rest) else Fail;
      }
      p := ParsePrimary();
    }

    method ParsePrimary() returns (p: Parsed)
      requires Valid()
      modifies this
      ensures p == Parse(6, old(Rest())) && Valid() && (p.Ok? ==> p.rest == Rest() && pos > old(pos))
      decreases |tokens| - pos, 2
    {
      var t := tokens[pos];
      if t.LParen? {
        Advance();
        p := ParseParenthesized();
      } else {
        p := ParseAtom();
      }
    }

    /** After an opening parenthesis. */
    method ParseParenthesized() returns (p: Parsed)
      requires Valid()
      modifies this
      ensures Valid() && p == (var q := Parse(0, old(Rest()));
                               if q.Ok? && q.rest != [] && q.rest[0].RParen? then Ok(q.e, q.rest[1..]) else Fail)
      ensures p.Ok? ==> p.rest == Rest() && pos > old(pos)
      decreases |tokens| - pos, 10
    {
      p := ParseExpression();
      if p.Fail? || !tokens[pos].RParen? { return Fail; }
      Advance();
      p := Ok(p.e, Rest());
    }

    /** Literals and column names. */
    method ParseAtom() returns (p: Parsed)
      requires Valid() && !tokens[pos].LParen?
      modifies this
      ensures p == Primary(old(Rest())) && Valid() && (p.Ok? ==> p.rest == Rest() && pos > old(pos))
    {
      var t := tokens[pos];
      var e;
      match t {
        case IntTok(n) =>
          if n >= I64_END { return Fail; }
          e := Lit(Int(n));
        case FloatTok(bits) => e := Lit(Float(bits));
        case StrTok(s) => e := Lit(Str(s));
        case TrueTok => e := Lit(Bool(true));
        case FalseTok => e := Lit(Bool(false));
        case NullTok => e := Lit(Null);
        case IdentTok(id) => e := Col(id);
        case _ => return Fail;
      }
      Advance();
      return Ok(e, Rest());
    }
  }

  /** Inside a loop of level k: with the operator already taken, the rest of the work still gives the whole result. */
  predicate LoopAt(k: nat, left: Expr, op: MaybeOp, rest: seq<Token>, whole: Parsed)
    requires k <= 4
  {
    if op.NoOp? then whole == Ok(left, rest)
    else
      (k <= 1 ==> op.op == if k == 0 then Or else And) &&
      var p := Parse(k + 1, rest);
      whole == if p.Fail? then Fail else Tail(k, Bin(op.op, left, p.e), p.rest)
  }
}
