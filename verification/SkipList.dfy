/** The multi-level skip list: heap nodes refining a sorted sequence of (key, value) pairs. */
module SkipLists {

  const MAX_LEVEL: nat := 20

  import opened Wrappers

  /** The order laws for given keys; naming them keeps the quantified order from being unfolded everywhere. */
  ghost predicate Transitive<K>(lt: (K, K) -> bool, a: K, b: K, c: K) {
    lt(a, b) && lt(b, c) ==> lt(a, c)
  }

  ghost predicate Trichotomy<K>(lt: (K, K) -> bool, a: K, b: K) {
    !lt(a, a) && (lt(a, b) || a == b || lt(b, a))
  }

  ghost predicate StrictTotalOrder<K(!new)>(lt: (K, K) -> bool) {
    && (forall a, b :: Trichotomy(lt, a, b))
    && (forall a, b, c :: Transitive(lt, a, b, c))
  }

  // ---------- the abstract view: a strictly sorted sequence of entries ----------

  type Entries<K, V> = seq<(K, V)>

  ghost predicate Sorted<K, V>(lt: (K, K) -> bool, es: Entries<K, V>) {
    forall i, j | 0 <= i < j < |es| :: lt(es[i].0, es[j].0)
  }

  /** Number of leading entries whose key is below k. */
  function Rank<K, V>(lt: (K, K) -> bool, es: Entries<K, V>, k: K): (r: nat)
    ensures r <= |es|
    ensures forall j | 0 <= j < r :: lt(es[j].0, k)
    ensures r < |es| ==> !lt(es[r].0, k)
  {
    if es == [] || !lt(es[0].0, k) then 0 else 1 + Rank(lt, es[1..], k)
  }

  /** Number of leading entries whose key is at most k. */
  function RankAfter<K, V>(lt: (K, K) -> bool, es: Entries<K, V>, k: K): (r: nat)
    ensures r <= |es|
    ensures forall j | 0 <= j < r :: !lt(k, es[j].0)
    ensures r < |es| ==> lt(k, es[r].0)
  {
    if es == [] || lt(k, es[0].0) then 0 else 1 + RankAfter(lt, es[1..], k)
  }

  function Upsert<K(==), V>(lt: (K, K) -> bool, es: Entries<K, V>, k: K, v: V): Entries<K, V> {
    var r := Rank(lt, es, k);
    if r < |es| && es[r].0 == k then es[r := (k, v)] else es[..r] + [(k, v)] + es[r..]
  }

  function EraseBetween<K, V>(lt: (K, K) -> bool, es: Entries<K, V>, lo: K, hi: K): Entries<K, V> {
    var p, r := Rank(lt, es, lo), RankAfter(lt, es, hi);
    if p < r then es[..p] + es[r..] else es
  }

  function Between<K, V>(lt: (K, K) -> bool, es: Entries<K, V>, lo: K, hi: K): Entries<K, V> {
    var p, r := Rank(lt, es, lo), RankAfter(lt, es, hi);
    if p < r then es[p..r] else []
  }

  ghost predicate HasKey<K, V>(es: Entries<K, V>, k: K) {
    exists i :: 0 <= i < |es| && es[i].0 == k
  }

  /** The map m and the entries hold the same keys with the same values. */
  ghost predicate Represents<K, V>(m: map<K, V>, es: Entries<K, V>) {
    && (forall i | 0 <= i < |es| :: es[i].0 in m && m[es[i].0] == es[i].1)
    && (forall k | k in m :: HasKey(es, k))
  }

  lemma SortedCut<K, V>(lt: (K, K) -> bool, es: Entries<K, V>, p: nat, r: nat)
    requires Sorted(lt, es) && p <= r <= |es|
    ensures Sorted(lt, es[..p] + es[r..]) && Sorted(lt, es[p..r])
  {
    var out := es[..p] + es[r..];
    assert forall i | 0 <= i < |out| :: out[i] == es[if i < p then i else i + (r - p)];
  }

  lemma RankSplits<K(!new), V>(lt: (K, K) -> bool, es: Entries<K, V>, k: K)
    requires StrictTotalOrder(lt) && Sorted(lt, es)
    ensures forall j | Rank(lt, es, k) <= j < |es| :: !lt(es[j].0, k)
    ensures forall j | RankAfter(lt, es, k) <= j < |es| :: lt(k, es[j].0)
  {
    var r, t := Rank(lt, es, k), RankAfter(lt, es, k);
    assert forall j | r < j < |es| :: Transitive(lt, es[r].0, es[j].0, k);
    assert forall j | t < j < |es| :: Transitive(lt, k, es[t].0, es[j].0);
  }

  lemma RepresentsUpsert<K, V>(es: Entries<K, V>, out: Entries<K, V>, m: map<K, V>, r: nat, hit: bool, k: K, v: V)
    requires Represents(m, es) && r <= |es| && (hit ==> r < |es|)
    requires out == if hit then es[r := (k, v)] else es[..r] + [(k, v)] + es[r..]
    requires forall i | 0 <= i < |es| :: es[i].0 == k <==> hit && i == r
    ensures Represents(m[k := v], out)
  {
    assert out[r] == (k, v);
    forall i | 0 <= i < |out| && i != r ensures out[i].0 in m && m[out[i].0] == out[i].1 && out[i].0 != k {
      assert out[i] == es[if hit || i < r then i else i - 1];
    }
    forall x | x in m[k := v] ensures HasKey(out, x) {
      if x != k {
        assert HasKey(es, x);
        var i :| 0 <= i < |es| && es[i].0 == x;
        assert out[if hit || i < r then i else i + 1] == es[i];
      }
    }
  }

  /** put is an update of exactly one key of the map, and keeps the order. */
  lemma UpsertIsMapUpdate<K(!new), V>(lt: (K, K) -> bool, es: Entries<K, V>, m: map<K, V>, k: K, v: V)
    requires StrictTotalOrder(lt) && Sorted(lt, es) && Represents(m, es)
    ensures Sorted(lt, Upsert(lt, es, k, v)) && Represents(m[k := v], Upsert(lt, es, k, v))
  {
    UpsertSorted(lt, es, k, v);
    var r := Rank(lt, es, k);
    var hit := r < |es| && es[r].0 == k;
    KeyOnlyAtRank(lt, es, k);
    RepresentsUpsert(es, Upsert(lt, es, k, v), m, r, hit, k, v);
  }

  lemma KeyOnlyAtRank<K(!new), V>(lt: (K, K) -> bool, es: Entries<K, V>, k: K)
    requires StrictTotalOrder(lt) && Sorted(lt, es)
    ensures forall i | 0 <= i < |es| && es[i].0 == k :: i == Rank(lt, es, k)
  {
    RankSplits(lt, es, k);
    assert Trichotomy(lt, k, k);
  }

  lemma UpsertSorted<K(!new), V>(lt: (K, K) -> bool, es: Entries<K, V>, k: K, v: V)
    requires StrictTotalOrder(lt) && Sorted(lt, es)
    ensures Sorted(lt, Upsert(lt, es, k, v))
  {
    RankSplits(lt, es, k);
    var r, es' := Rank(lt, es, k), Upsert(lt, es, k, v);
    if !(r < |es| && es[r].0 == k) {
      if r < |es| { assert Trichotomy(lt, es[r].0, k); }
      assert forall j | r < j < |es| :: Transitive(lt, k, es[r].0, es[j].0);
      assert forall i | 0 <= i < r :: es'[i] == es[i];
      assert forall i | r < i < |es'| :: es'[i] == es[i - 1];
    }
  }

  /** The positions that erase_range works with, also when the interval is empty or reversed. */
  lemma DoomedPositions<K(!new), V>(lt: (K, K) -> bool, es: Entries<K, V>, lo: K, hi: K) returns (p: nat, r: nat)
    requires StrictTotalOrder(lt) && Sorted(lt, es)
    ensures p <= r <= |es|
    ensures forall j | 0 <= j < p :: lt(es[j].0, lo)
    ensures forall j | p <= j < |es| :: !lt(es[j].0, lo)
    ensures forall j | p <= j < r :: !lt(hi, es[j].0)
    ensures forall j | r <= j < |es| :: lt(hi, es[j].0)
    ensures EraseBetween(lt, es, lo, hi) == es[..p] + es[r..] && Between(lt, es, lo, hi) == es[p..r]
    ensures Sorted(lt, es[..p] + es[r..])
  {
    RankSplits(lt, es, lo);
    RankSplits(lt, es, hi);
    p, r := Rank(lt, es, lo), RankAfter(lt, es, hi);
    if r <= p {
      r := p;
      assert es[..p] + es[p..] == es;
    }
    SortedCut(lt, es, p, r);
  }

  predicate Inside<K>(lt: (K, K) -> bool, lo: K, hi: K, k: K) {
    !lt(k, lo) && !lt(hi, k)
  }

  /** The entries of m inside the closed interval, and those outside it. */
  ghost function Within<K, V>(lt: (K, K) -> bool, m: map<K, V>, lo: K, hi: K): map<K, V> {
    map k | k in m && Inside(lt, lo, hi, k) :: m[k]
  }

  ghost function Without<K, V>(lt: (K, K) -> bool, m: map<K, V>, lo: K, hi: K): map<K, V> {
    map k | k in m && !Inside(lt, lo, hi, k) :: m[k]
  }

  /** erase_range removes exactly the keys of the closed interval; range selects exactly them. */
  lemma IntervalIsMapSplit<K(!new), V>(lt: (K, K) -> bool, es: Entries<K, V>, m: map<K, V>, lo: K, hi: K)
    requires StrictTotalOrder(lt) && Sorted(lt, es) && Represents(m, es) && !lt(hi, lo)
    ensures Sorted(lt, EraseBetween(lt, es, lo, hi)) && Sorted(lt, Between(lt, es, lo, hi))
    ensures Represents(Without(lt, m, lo, hi), EraseBetween(lt, es, lo, hi))
    ensures Represents(Within(lt, m, lo, hi), Between(lt, es, lo, hi))
    ensures |EraseBetween(lt, es, lo, hi)| + |Between(lt, es, lo, hi)| == |es|
  {
    IntervalPosition(lt, es, lo, hi);
    CutAt(lt, es, lo, hi, Rank(lt, es, lo), RankAfter(lt, es, hi));
    SortedCut(lt, es, Rank(lt, es, lo), RankAfter(lt, es, hi));
    RepresentsKept(lt, es, m, Rank(lt, es, lo), RankAfter(lt, es, hi), lo, hi);
    RepresentsCut(lt, es, m, Rank(lt, es, lo), RankAfter(lt, es, hi), lo, hi);
  }

  lemma CutAt<K, V>(lt: (K, K) -> bool, es: Entries<K, V>, lo: K, hi: K, p: nat, r: nat)
    requires p == Rank(lt, es, lo) <= r == RankAfter(lt, es, hi)
    ensures EraseBetween(lt, es, lo, hi) == es[..p] + es[r..] && Between(lt, es, lo, hi) == es[p..r]
  {
    if p == r { assert es[..p] + es[r..] == es && es[p..r] == []; }
  }

  lemma RepresentsKept<K, V>(lt: (K, K) -> bool, es: Entries<K, V>, m: map<K, V>, p: nat, r: nat, lo: K, hi: K)
    requires Represents(m, es) && p <= r <= |es|
    requires forall i | 0 <= i < |es| :: Inside(lt, lo, hi, es[i].0) <==> p <= i < r
    ensures Represents(Without(lt, m, lo, hi), es[..p] + es[r..])
  {
    var kept := es[..p] + es[r..];
    assert forall i | 0 <= i < |kept| :: kept[i] == es[if i < p then i else i + (r - p)];
    forall k | k in m && !Inside(lt, lo, hi, k) ensures HasKey(kept, k) {
      assert HasKey(es, k);
      var i :| 0 <= i < |es| && es[i].0 == k;
      assert kept[if i < p then i else i - (r - p)].0 == k;
    }
  }

  lemma RepresentsCut<K, V>(lt: (K, K) -> bool, es: Entries<K, V>, m: map<K, V>, p: nat, r: nat, lo: K, hi: K)
    requires Represents(m, es) && p <= r <= |es|
    requires forall i | 0 <= i < |es| :: Inside(lt, lo, hi, es[i].0) <==> p <= i < r
    ensures Represents(Within(lt, m, lo, hi), es[p..r])
  {
    var cut := es[p..r];
    assert forall i | 0 <= i < |cut| :: cut[i] == es[i + p];
    forall k | k in m && Inside(lt, lo, hi, k) ensures HasKey(cut, k) {
      assert HasKey(es, k);
      var i :| 0 <= i < |es| && es[i].0 == k;
      assert cut[i - p].0 == k;
    }
  }

  lemma IntervalPosition<K(!new), V>(lt: (K, K) -> bool, es: Entries<K, V>, lo: K, hi: K)
    requires StrictTotalOrder(lt) && Sorted(lt, es) && !lt(hi, lo)
    ensures Rank(lt, es, lo) <= RankAfter(lt, es, hi)
    ensures forall i | 0 <= i < |es| ::
              Inside(lt, lo, hi, es[i].0) <==> Rank(lt, es, lo) <= i < RankAfter(lt, es, hi)
  {
    RankSplits(lt, es, lo);
    RankSplits(lt, es, hi);
    var r := RankAfter(lt, es, hi);
    if r < |es| { assert Transitive(lt, hi, es[r].0, lo); }
  }

  // ---------- the linked structure ----------

  class Node<K, V> {
    const key: K
    const topLevel: nat
    var value: V
    var next: seq<Node?<K, V>>  // next[0..topLevel]

    constructor (key: K, value: V, topLevel: nat)
      ensures this.key == key && this.value == value && this.topLevel == topLevel
      ensures next == seq(topLevel + 1, _ => null)
    {
      this.key, this.value, this.topLevel := key, value, topLevel;
      this.next := seq(topLevel + 1, _ => null);
    }
  }

  /** The first node at position p or later that reaches level i. */
  ghost function NextAt<K, V>(ns: seq<Node<K, V>>, p: nat, i: nat): Node?<K, V>
    requires p <= |ns|
    decreases |ns| - p
  {
    if p == |ns| then null else if ns[p].topLevel >= i then ns[p] else NextAt(ns, p + 1, i)
  }

  ghost predicate NoneReach<K, V>(ns: seq<Node<K, V>>, from: nat, to: nat, i: nat)
    requires from <= to <= |ns|
  {
    forall j | from <= j < to :: ns[j].topLevel < i
  }

  /** Position of the node that NextAt finds. */
  ghost function NextPos<K, V>(ns: seq<Node<K, V>>, p: nat, i: nat): (q: nat)
    requires p <= |ns|
    ensures p <= q <= |ns| && NoneReach(ns, p, q, i)
    ensures q < |ns| ==> ns[q].topLevel >= i
    ensures NextAt(ns, p, i) == if q == |ns| then null else ns[q]
    decreases |ns| - p
  {
    if p == |ns| || ns[p].topLevel >= i then p else NextPos(ns, p + 1, i)
  }

  lemma EveryNodeReachesLevelZero<K, V>(ns: seq<Node<K, V>>, from: nat, to: nat)
    requires from <= to <= |ns| && NoneReach(ns, from, to, 0)
    ensures from == to
  {
    var top := if from < |ns| then ns[from].topLevel else 0;
  }

  lemma NextAtSkip<K, V>(ns: seq<Node<K, V>>, p: nat, q: nat, i: nat)
    requires p <= q <= |ns| && NoneReach(ns, p, q, i)
    ensures NextAt(ns, p, i) == NextAt(ns, q, i)
    decreases q - p
  {
    if p < q { NextAtSkip(ns, p + 1, q, i); }
  }

  lemma NextAtTail<K, V>(a: seq<Node<K, V>>, b: seq<Node<K, V>>, q: nat, i: nat)
    requires q <= |b|
    ensures NextAt(a + b, |a| + q, i) == NextAt(b, q, i)
    decreases |b| - q
  {
    if q < |b| { NextAtTail(a, b, q + 1, i); }
  }

  /** A node inside a that reaches level i decides the answer, whatever follows a. */
  lemma NextAtHead<K, V>(a: seq<Node<K, V>>, b: seq<Node<K, V>>, q: nat, i: nat)
    requires q <= |a|
    ensures NextAt(a + b, q, i) == if NoneReach(a, q, |a|, i) then NextAt(b, 0, i) else NextAt(a, q, i)
    decreases |a| - q
  {
    if q == |a| {
      NextAtTail(a, b, 0, i);
    } else {
      NextAtHead(a, b, q + 1, i);
    }
  }

  ghost function Before<K, V>(h: Node<K, V>, ns: seq<Node<K, V>>, q: nat): Node<K, V>
    requires q <= |ns|
  {
    if q == 0 then h else ns[q - 1]
  }

  /** At level i every node that reaches it points to the next node that does. */
  ghost predicate LinkedLevel<K, V>(h: Node<K, V>, ns: seq<Node<K, V>>, i: nat)
    reads h`next, ns`next
  {
    forall q | 0 <= q <= |ns| && i <= Before(h, ns, q).topLevel ::
      i < |Before(h, ns, q).next| && Before(h, ns, q).next[i] == NextAt(ns, q, i)
  }

  ghost predicate Mirrors<K, V>(ns: seq<Node<K, V>>, es: Entries<K, V>)
    reads ns`value
  {
    |es| == |ns| && forall i | 0 <= i < |ns| :: es[i] == (ns[i].key, ns[i].value)
  }

  lemma MirrorsInsert<K, V>(ns: seq<Node<K, V>>, es: Entries<K, V>, p: nat, m: Node<K, V>)
    requires Mirrors(ns, es) && p <= |ns|
    ensures Mirrors(ns[..p] + [m] + ns[p..], es[..p] + [(m.key, m.value)] + es[p..])
  {
  }

  lemma MirrorsCut<K, V>(ns: seq<Node<K, V>>, es: Entries<K, V>, p: nat, r: nat)
    requires Mirrors(ns, es) && p <= r <= |ns|
    ensures Mirrors(ns[..p] + ns[r..], es[..p] + es[r..])
  {
    var ns', es' := ns[..p] + ns[r..], es[..p] + es[r..];
    forall i | 0 <= i < |ns'| ensures es'[i] == (ns'[i].key, ns'[i].value) {
      var j := if i < p then i else i + (r - p);
      assert ns'[i] == ns[j] && es'[i] == es[j];
    }
  }

  ghost predicate Distinct<K, V>(h: Node<K, V>, ns: seq<Node<K, V>>) {
    h !in ns && forall p, q | 0 <= p < q < |ns| :: ns[p] != ns[q]
  }

  /** Before the relinked position the answers stay; at it the answer is what follows a. */
  lemma HeadKept<K, V>(h: Node<K, V>, a: seq<Node<K, V>>, mid: seq<Node<K, V>>, mid': seq<Node<K, V>>,
                       c: seq<Node<K, V>>, u: nat, q: nat, i: nat)
    requires u <= |a| && q <= |a|
    requires i <= Before(h, a, u).topLevel && NoneReach(a, u, |a|, i) && i <= Before(h, a, q).topLevel
    ensures q <= u
    ensures q < u ==> NextAt(a + mid' + c, q, i) == NextAt(a + mid + c, q, i)
    ensures q == u ==> NextAt(a + mid' + c, q, i) == NextAt(mid' + c, 0, i)
  {
    assert a + mid + c == a + (mid + c) && a + mid' + c == a + (mid' + c);
    NextAtHead(a, mid + c, q, i);
    NextAtHead(a, mid' + c, q, i);
  }

  lemma MiddleNext<K, V>(a: seq<Node<K, V>>, mid: seq<Node<K, V>>, c: seq<Node<K, V>>, q: nat, i: nat)
    requires q <= |mid|
    ensures NextAt(a + mid + c, |a| + q, i) == NextAt(mid + c, q, i)
  {
    assert a + mid + c == a + (mid + c);
    NextAtTail(a, mid + c, q, i);
  }

  lemma TailKept<K, V>(h: Node<K, V>, a: seq<Node<K, V>>, mid: seq<Node<K, V>>, c: seq<Node<K, V>>, t: nat, i: nat)
    requires 0 < t <= |c|
    ensures NextAt(a + mid + c, |a| + |mid| + t, i) == NextAt(c, t, i)
    ensures Before(h, a + mid + c, |a| + |mid| + t) == c[t - 1]
  {
    assert a + mid + c == (a + mid) + c;
    NextAtTail(a + mid, c, t, i);
  }

  lemma Successor<K, V>(a: seq<Node<K, V>>, c: seq<Node<K, V>>, m: Node<K, V>, u: nat, i: nat)
    requires u <= |a| && NoneReach(a, u, |a|, i)
    ensures NextAt(a + [] + c, u, i) == NextAt([m] + c, 1, i)
  {
    assert a + [] + c == a + c;
    NextAtHead(a, c, u, i);
    NextAtTail([m], c, 0, i);
  }

  lemma DistinctInsert<K, V>(h: Node<K, V>, a: seq<Node<K, V>>, m: Node<K, V>, c: seq<Node<K, V>>)
    ensures Distinct(h, a + [m] + c) <==> Distinct(h, a + c) && m !in a + c && m != h
  {
    var ns, ns' := a + c, a + [m] + c;
    assert forall p | 0 <= p < |ns| :: ns[p] == ns'[if p < |a| then p else p + 1];
    assert forall p | 0 <= p < |ns'| && p != |a| :: ns'[p] == ns[if p < |a| then p else p - 1];
    assert ns'[|a|] == m;
  }

  /** A node below level i is invisible to that level. */
  lemma TooLowToMatter<K, V>(h: Node<K, V>, a: seq<Node<K, V>>, m: Node<K, V>, c: seq<Node<K, V>>, i: nat)
    requires m.topLevel < i && LinkedLevel(h, a + [] + c, i)
    ensures LinkedLevel(h, a + [m] + c, i)
  {
    var ns, ns' := a + [] + c, a + [m] + c;
    forall q | 0 <= q <= |ns'| && i <= Before(h, ns', q).topLevel
      ensures i < |Before(h, ns', q).next| && Before(h, ns', q).next[i] == NextAt(ns', q, i)
    {
      if q <= |a| {
        assert ns == a + c && ns' == a + ([m] + c);
        NextAtHead(a, c, q, i);
        NextAtHead(a, [m] + c, q, i);
        NextAtHead([m], c, 0, i);
        assert Before(h, ns', q) == Before(h, ns, q);
      } else if q > |a| + 1 {
        TailKept(h, a, [], c, q - |a| - 1, i);
        TailKept(h, a, [m], c, q - |a| - 1, i);
        assert Before(h, ns', q) == Before(h, ns, q - 1);
      }
    }
  }

  lemma HigherLevels<K, V>(h: Node<K, V>, a: seq<Node<K, V>>, m: Node<K, V>, c: seq<Node<K, V>>)
    requires forall j: nat | m.topLevel < j <= MAX_LEVEL :: LinkedLevel(h, a + [] + c, j)
    ensures forall j: nat | m.topLevel < j <= MAX_LEVEL :: LinkedLevel(h, a + [m] + c, j)
  {
    forall j: nat | m.topLevel < j <= MAX_LEVEL ensures LinkedLevel(h, a + [m] + c, j) {
      TooLowToMatter(h, a, m, c, j);
    }
  }

  lemma DistinctCut<K, V>(h: Node<K, V>, a: seq<Node<K, V>>, mid: seq<Node<K, V>>, c: seq<Node<K, V>>)
    requires Distinct(h, a + mid + c)
    ensures Distinct(h, a + [] + c)
  {
    var ns, ns' := a + mid + c, a + [] + c;
    assert forall p | 0 <= p < |ns'| :: ns'[p] == ns[if p < |a| then p else p + |mid|];
  }

  lemma NothingAt<K, V>(ns: seq<Node<K, V>>, p: nat, i: nat)
    requires p <= |ns| && forall q | 0 <= q < |ns| :: ns[q].topLevel < i
    ensures NextAt(ns, p, i) == null
    decreases |ns| - p
  {
    if p < |ns| { NothingAt(ns, p + 1, i); }
  }

  lemma EmptyLevels<K, V>(h: Node<K, V>, ns: seq<Node<K, V>>, ns': seq<Node<K, V>>, top: nat)
    requires forall n | n in ns + ns' :: n.topLevel <= top
    requires forall j: nat | top < j <= MAX_LEVEL :: LinkedLevel(h, ns, j)
    ensures forall j: nat | top < j <= MAX_LEVEL :: LinkedLevel(h, ns', j)
  {
    forall j: nat | top < j <= MAX_LEVEL ensures LinkedLevel(h, ns', j) {
      assert LinkedLevel(h, ns, j);
      NothingAt(ns, 0, j);
      NothingAt(ns', 0, j);
      assert Before(h, ns, 0) == Before(h, ns', 0) == h;
      assert forall q | 0 < q <= |ns'| :: Before(h, ns', q) in ns + ns';
    }
  }

  /** A single pointer store; levels other than i of any two lists x and y stay linked. */
  method SetNext<K, V>(n: Node<K, V>, i: nat, target: Node?<K, V>,
                       ghost h: Node<K, V>, ghost x: seq<Node<K, V>>, ghost y: seq<Node<K, V>>)
    requires i < |n.next|
    modifies n`next
    ensures n.next == old(n.next)[i := target]
    ensures forall j: nat | j != i && old(LinkedLevel(h, x, j)) :: LinkedLevel(h, x, j)
    ensures forall j: nat | j != i && old(LinkedLevel(h, y, j)) :: LinkedLevel(h, y, j)
  {
    n.next := n.next[i := target];
  }

  /** One pointer store at level i of the predecessor of the cut: the level-i chain of a + mid + c becomes
      that of a + mid' + c, and every other level of either list stays as it was. */
  method StoreNext<K, V>(ghost h: Node<K, V>, pred: Node<K, V>, i: nat, target: Node?<K, V>,
                         ghost a: seq<Node<K, V>>, ghost mid: seq<Node<K, V>>, ghost mid': seq<Node<K, V>>,
                         ghost c: seq<Node<K, V>>, ghost u: nat)
    requires Distinct(h, a + mid' + c) && Distinct(h, a + mid + c)
    requires u <= |a| && pred == Before(h, a, u) && i <= pred.topLevel && NoneReach(a, u, |a|, i)
    requires LinkedLevel(h, a + mid + c, i)
    requires target == NextAt(mid' + c, 0, i)
    requires forall q | 0 <= q < |mid'| && i <= mid'[q].topLevel ::
               i < |mid'[q].next| && mid'[q].next[i] == NextAt(mid' + c, q + 1, i)
    modifies pred`next
    ensures LinkedLevel(h, a + mid' + c, i)
    ensures forall j: nat | j != i && old(LinkedLevel(h, a + mid + c, j)) :: LinkedLevel(h, a + mid + c, j)
    ensures forall j: nat | j != i && old(LinkedLevel(h, a + mid' + c, j)) :: LinkedLevel(h, a + mid' + c, j)
    ensures |pred.next| == old(|pred.next|)
  {
    ghost var ns, ns' := a + mid + c, a + mid' + c;
    assert pred == Before(h, ns, u) == Before(h, ns', u);
    SetNext(pred, i, target, h, ns, ns');
    forall q | 0 <= q <= |ns'| && i <= Before(h, ns', q).topLevel
      ensures i < |Before(h, ns', q).next| && Before(h, ns', q).next[i] == NextAt(ns', q, i)
    {
      ghost var n := Before(h, ns', q);
      if q <= |a| {
        HeadKept(h, a, mid, mid', c, u, q, i);
        assert n == Before(h, a, q) == Before(h, ns, q);
        assert q != u ==> n != pred;
      } else if q <= |a| + |mid'| {
        MiddleNext(a, mid', c, q - |a|, i);
        assert n == mid'[q - 1 - |a|] && n != pred;
      } else {
        ghost var t := q - |a| - |mid'|;
        TailKept(h, a, mid, c, t, i);
        TailKept(h, a, mid', c, t, i);
        assert n == c[t - 1] == Before(h, ns, |a| + |mid| + t) && n != pred;
      }
    }
  }

  lemma NextAtLevelZero<K, V>(ns: seq<Node<K, V>>, p: nat)
    requires p <= |ns|
    ensures NextAt(ns, p, 0) == if p == |ns| then null else ns[p]
  {
  }

  function Values<K, V>(es: Entries<K, V>): seq<V> {
    seq(|es|, i requires 0 <= i < |es| => es[i].1)
  }

  /** A path to position p only concerns the nodes in front of p. */
  lemma PathInFront<K, V>(h: Node<K, V>, ns: seq<Node<K, V>>, p: nat, update: seq<Node<K, V>>, pos: seq<nat>)
    requires p <= |ns| && |update| == |pos|
    requires forall i | 0 <= i < |update| ::
               pos[i] <= p && update[i] == Before(h, ns, pos[i]) && i <= update[i].topLevel && NoneReach(ns, pos[i], p, i)
    ensures ns == ns[..p] + [] + ns[p..] == ns[..p] + ns[p..]
    ensures forall i | 0 <= i < |update| ::
              && pos[i] <= |ns[..p]| && update[i] == Before(h, ns[..p], pos[i])
              && i <= update[i].topLevel && NoneReach(ns[..p], pos[i], p, i) && update[i] in [h] + ns
  {
    forall i | 0 <= i < |update| ensures update[i] == Before(h, ns[..p], pos[i]) && update[i] in [h] + ns {
      if pos[i] == 0 { assert ([h] + ns)[0] == h; } else { assert ([h] + ns)[pos[i]] == ns[pos[i] - 1]; }
    }
  }

  // ---------- the levels as lists ----------

  /** The nodes from position p on that reach level i. */
  ghost function LevelChain<K, V>(ns: seq<Node<K, V>>, p: nat, i: nat): seq<Node<K, V>>
    requires p <= |ns|
    decreases |ns| - p
  {
    if p == |ns| then [] else (if ns[p].topLevel >= i then [ns[p]] else []) + LevelChain(ns, p + 1, i)
  }

  ghost function Reaching<K, V>(ns: seq<Node<K, V>>, i: nat): seq<Node<K, V>> {
    if ns == [] then [] else (if ns[0].topLevel >= i then [ns[0]] else []) + Reaching(ns[1..], i)
  }

  /** Following the level-i pointers from start meets exactly the nodes of the chain, then null. */
  ghost predicate Follows<K, V>(start: Node?<K, V>, chain: seq<Node<K, V>>, i: nat)
    reads chain`next
  {
    if chain == [] then start == null
    else start == chain[0] && i < |chain[0].next| && Follows(chain[0].next[i], chain[1..], i)
  }

  ghost predicate SortedByKey<K, V>(lt: (K, K) -> bool, ns: seq<Node<K, V>>) {
    forall i, j | 0 <= i < j < |ns| :: lt(ns[i].key, ns[j].key)
  }

  lemma {:induction false} PointersFollow<K, V>(h: Node<K, V>, ns: seq<Node<K, V>>, p: nat, i: nat)
    requires p <= |ns| && LinkedLevel(h, ns, i)
    ensures Follows(NextAt(ns, p, i), LevelChain(ns, p, i), i)
    decreases |ns| - p
  {
    if p < |ns| {
      PointersFollow(h, ns, p + 1, i);
      if ns[p].topLevel >= i {
        assert Before(h, ns, p + 1) == ns[p];
        assert LevelChain(ns, p, i)[1..] == LevelChain(ns, p + 1, i);
      } else {
        assert LevelChain(ns, p, i) == LevelChain(ns, p + 1, i);
      }
    }
  }

  lemma {:induction false} ChainMembers<K, V>(ns: seq<Node<K, V>>, p: nat, i: nat, n: Node<K, V>)
    requires p <= |ns| && n in LevelChain(ns, p, i)
    ensures exists j :: p <= j < |ns| && ns[j] == n
    decreases |ns| - p
  {
    if ns[p] != n { ChainMembers(ns, p + 1, i, n); }
  }

  lemma {:induction false} ChainSorted<K, V>(lt: (K, K) -> bool, ns: seq<Node<K, V>>, p: nat, i: nat)
    requires p <= |ns| && SortedByKey(lt, ns)
    ensures SortedByKey(lt, LevelChain(ns, p, i))
    decreases |ns| - p
  {
    if p < |ns| {
      ChainSorted(lt, ns, p + 1, i);
      var rest := LevelChain(ns, p + 1, i);
      forall j | 0 <= j < |rest| ensures lt(ns[p].key, rest[j].key) { ChainMembers(ns, p + 1, i, rest[j]); }
      SortedByKeyCons(lt, ns[p], rest);
      assert ns[p].topLevel < i ==> LevelChain(ns, p, i) == rest;
    }
  }

  lemma SortedByKeyCons<K, V>(lt: (K, K) -> bool, n: Node<K, V>, rest: seq<Node<K, V>>)
    requires SortedByKey(lt, rest) && forall j | 0 <= j < |rest| :: lt(n.key, rest[j].key)
    ensures SortedByKey(lt, [n] + rest)
  {
  }

  lemma {:induction false} ChainOfChain<K, V>(ns: seq<Node<K, V>>, p: nat, i: nat)
    requires p <= |ns| && i > 0
    ensures LevelChain(ns, p, i) == Reaching(LevelChain(ns, p, i - 1), i)
    decreases |ns| - p
  {
    if p < |ns| {
      ChainOfChain(ns, p + 1, i);
      if ns[p].topLevel >= i - 1 {
        assert LevelChain(ns, p, i - 1)[1..] == LevelChain(ns, p + 1, i - 1);
      } else {
        assert LevelChain(ns, p, i - 1) == LevelChain(ns, p + 1, i - 1);
      }
    }
  }

  lemma {:induction false} ChainAtZero<K, V>(ns: seq<Node<K, V>>, p: nat)
    requires p <= |ns|
    ensures LevelChain(ns, p, 0) == ns[p..]
    decreases |ns| - p
  {
    if p < |ns| { ChainAtZero(ns, p + 1); }
  }

  class SkipList<K(==,!new), V> {
    const lt: (K, K) -> bool
    const header: Node<K, V>
    var level: nat
    var size: nat
    ghost var nodes: seq<Node<K, V>>  // the data nodes in level-0 order

    ghost var contents: Entries<K, V>  // what a traversal of level 0 reads

    ghost predicate Shape()
      reads this`level, this`nodes, header`next, nodes`next
    {
      && header.topLevel == MAX_LEVEL
      && level < MAX_LEVEL
      && Distinct(header, nodes)
      && (forall p | 0 <= p < |nodes| :: nodes[p].topLevel <= level)
      && (forall i: nat | i <= MAX_LEVEL :: LinkedLevel(header, nodes, i))
    }

    ghost predicate Valid()
      reads this, header, nodes
    {
      Shape() && size == |nodes| && Mirrors(nodes, contents) && Sorted(lt, contents)
    }

    constructor (lt: (K, K) -> bool, noKey: K, noValue: V)
      ensures Valid() && contents == [] && this.lt == lt
      ensures fresh(header)
    {
      this.lt := lt;
      header := new Node(noKey, noValue, MAX_LEVEL);
      level, size, nodes, contents := 0, 0, [], [];
    }

    /** update[i] is the last node before position p that reaches level i. */
    ghost predicate PathTo(update: seq<Node<K, V>>, p: nat, pos: seq<nat>)
      reads this`nodes
      requires p <= |nodes|
    {
      |update| == |pos| &&
      forall i | 0 <= i < |update| ::
        && pos[i] <= p && update[i] == Before(header, nodes, pos[i])
        && i <= update[i].topLevel && NoneReach(nodes, pos[i], p, i)
    }

    /** The descent of put and erase_range: update[i] is the last node below the key that reaches level i.
        The ghost arguments give the position p of the first key that is not below it. */
    method FindPredecessors(key: K, ghost p: nat) returns (update: seq<Node<K, V>>, ghost pos: seq<nat>)
      requires Shape()
      requires p <= |nodes|
      requires forall j | 0 <= j < p :: lt(nodes[j].key, key)
      requires forall j | p <= j < |nodes| :: !lt(nodes[j].key, key)
      ensures PathTo(update, p, pos) && |update| == level + 1 && pos[0] == p
    {
      var cur := header;
      ghost var c: nat := 0;
      update := seq(level + 1, _ => header);
      pos := seq(level + 1, _ => 0);
      var i: int := level;
      while i >= 0
        invariant -1 <= i <= level
        invariant |update| == |pos| == level + 1
        invariant c <= p && cur == Before(header, nodes, c) && i <= cur.topLevel
        invariant forall j | i < j <= level ::
                    && pos[j] <= p && update[j] == Before(header, nodes, pos[j])
                    && j <= update[j].topLevel && NoneReach(nodes, pos[j], p, j)
      {
        assert LinkedLevel(header, nodes, i);
        var next := cur.next[i];
        ghost var q := NextPos(nodes, c, i);
        while next != null && lt(next.key, key)
          invariant c <= p && cur == Before(header, nodes, c) && i <= cur.topLevel
          invariant q == NextPos(nodes, c, i) && next == NextAt(nodes, c, i)
          decreases |nodes| - c
        {
          cur := next;
          c := q + 1;
          assert LinkedLevel(header, nodes, i) && cur == Before(header, nodes, c);
          next := cur.next[i];
          q := NextPos(nodes, c, i);
        }
        update, pos := update[i := cur], pos[i := c];
        i := i - 1;
      }
      EveryNodeReachesLevelZero(nodes, pos[0], p);
    }

    method Put(key: K, value: V)
      requires Valid() && StrictTotalOrder(lt)
      modifies this, header, nodes
      ensures Valid() && contents == Upsert(lt, old(contents), key, value)
      ensures forall n | n in nodes && n !in old(nodes) :: fresh(n)
    {
      ghost var es := contents;
      RankSplits(lt, es, key);
      UpsertSorted(lt, es, key, value);
      assert forall j | 0 <= j < |nodes| :: nodes[j].key == es[j].0;
      PutAt(key, value, Rank(lt, es, key));
    }

    /** The body of put; p is the rank of the key. */
    method PutAt(key: K, value: V, ghost p: nat)
      requires Shape() && size == |nodes| && Mirrors(nodes, contents) && p <= |nodes|
      requires forall j | 0 <= j < p :: lt(nodes[j].key, key)
      requires forall j | p <= j < |nodes| :: !lt(nodes[j].key, key)
      modifies this, header`next, nodes`next, nodes`value
      ensures Shape() && size == |nodes| && Mirrors(nodes, contents)
      ensures contents == if p < old(|contents|) && old(contents[p].0) == key then old(contents)[p := (key, value)]
                          else old(contents[..p] + [(key, value)] + contents[p..])
      ensures forall n | n in nodes && n !in old(nodes) :: fresh(n)
    {
      ghost var pos;
      var update;
      update, pos := FindPredecessors(key, p);
      assert LinkedLevel(header, nodes, 0);
      ghost var hit := NextPos(nodes, p, 0);
      EveryNodeReachesLevelZero(nodes, p, hit);
      var found := update[0].next[0];
      if found != null && found.key == key {
        found.value := value;
        contents := contents[p := (key, value)];
        return;
      }
      InsertNew(key, value, update, p, pos);
    }

    /** The part of put for an absent key: draw a level, allocate the node, install it bottom-up. */
    method InsertNew(key: K, value: V, update: seq<Node<K, V>>, ghost p: nat, ghost pos: seq<nat>)
      requires Shape() && size == |nodes| && Mirrors(nodes, contents) && p <= |nodes|
      requires PathTo(update, p, pos) && |update| == level + 1
      modifies this, header`next, nodes`next
      ensures Shape() && size == |nodes| && Mirrors(nodes, contents)
      ensures contents == old(contents[..p] + [(key, value)] + contents[p..])
      ensures forall n | n in nodes && n !in old(nodes) :: fresh(n)
    {
      var newLevel := RandomLevel();
      ghost var at;
      var path;
      path, at := RaiseTo(newLevel, update, p, pos);
      var newNode := new Node(key, value, newLevel);
      ghost var ns, es := nodes[..p] + [newNode] + nodes[p..], contents[..p] + [(key, value)] + contents[p..];
      assert Mirrors(ns, es) by { MirrorsInsert(nodes, contents, p, newNode); }
      Install(newNode, path, p, at);
      assert Mirrors(ns, es) && nodes == ns;
      size := size + 1;
      contents := es;
    }

    /** Levels above the current one start at the header. */
    method RaiseTo(newLevel: nat, update: seq<Node<K, V>>, ghost p: nat, ghost pos: seq<nat>)
      returns (path: seq<Node<K, V>>, ghost at: seq<nat>)
      requires Shape() && p <= |nodes| && newLevel < MAX_LEVEL
      requires PathTo(update, p, pos) && |update| == level + 1
      modifies this`level
      ensures Shape() && newLevel <= level
      ensures PathTo(path, p, at) && |path| > newLevel
    {
      path, at := update, pos;
      if newLevel > level {
        path := path + seq(newLevel - level, _ => header);
        at := at + seq(newLevel - level, _ => 0);
        level := newLevel;
      }
    }

    /** One round of the loop: first the new node's successor, then the predecessor's pointer. */
    method InstallAt(newNode: Node<K, V>, pred: Node<K, V>, i: nat,
                     ghost a: seq<Node<K, V>>, ghost c: seq<Node<K, V>>, ghost u: nat)
      requires i <= newNode.topLevel < MAX_LEVEL && |newNode.next| == newNode.topLevel + 1
      requires Distinct(header, a + [newNode] + c)
      requires u <= |a| && pred == Before(header, a, u) && i <= pred.topLevel && NoneReach(a, u, |a|, i)
      requires forall j: nat | j < i :: LinkedLevel(header, a + [newNode] + c, j)
      requires forall j: nat | i <= j <= MAX_LEVEL :: LinkedLevel(header, a + [] + c, j)
      modifies newNode`next, pred`next
      ensures |newNode.next| == newNode.topLevel + 1
      ensures forall j: nat | j < i + 1 :: LinkedLevel(header, a + [newNode] + c, j)
      ensures forall j: nat | i + 1 <= j <= MAX_LEVEL :: LinkedLevel(header, a + [] + c, j)
    {
      assert a + [] + c == a + c;
      assert LinkedLevel(header, a + [] + c, i) && pred == Before(header, a + [] + c, u);
      DistinctInsert(header, a, newNode, c);
      var expected := pred.next[i];
      assert expected == NextAt([newNode] + c, 1, i) by { Successor(a, c, newNode, u, i); }
      SetNext(newNode, i, expected, header, a + [newNode] + c, a + [] + c);
      NextAtHead([newNode], c, 0, i);
      StoreNext(header, pred, i, newNode, a, [], [newNode], c, u);
    }

    /** The store loop of put, bottom level first; other levels keep the old chain until their turn. */
    method InstallLevels(newNode: Node<K, V>, update: seq<Node<K, V>>,
                         ghost a: seq<Node<K, V>>, ghost c: seq<Node<K, V>>, ghost pos: seq<nat>)
      requires newNode.topLevel < MAX_LEVEL && |newNode.next| == newNode.topLevel + 1
      requires |update| == |pos| > newNode.topLevel && Distinct(header, a + [newNode] + c)
      requires forall i | 0 <= i <= newNode.topLevel ::
                 && pos[i] <= |a| && update[i] == Before(header, a, pos[i])
                 && i <= update[i].topLevel && NoneReach(a, pos[i], |a|, i)
      requires forall j: nat | j <= MAX_LEVEL :: LinkedLevel(header, a + [] + c, j)
      modifies newNode`next, update`next
      ensures forall j: nat | j <= MAX_LEVEL :: LinkedLevel(header, a + [newNode] + c, j)
    {
      for i := 0 to newNode.topLevel + 1
        invariant |newNode.next| == newNode.topLevel + 1
        invariant forall j: nat | j < i :: LinkedLevel(header, a + [newNode] + c, j)
        invariant forall j: nat | i <= j <= MAX_LEVEL :: LinkedLevel(header, a + [] + c, j)
      {
        InstallAt(newNode, update[i], i, a, c, pos[i]);
      }
      HigherLevels(header, a, newNode, c);
    }

    method Install(newNode: Node<K, V>, update: seq<Node<K, V>>, ghost p: nat, ghost pos: seq<nat>)
      requires Shape() && p <= |nodes|
      requires newNode !in nodes && newNode != header && newNode.topLevel <= level
      requires |newNode.next| == newNode.topLevel + 1
      requires PathTo(update, p, pos) && |update| > newNode.topLevel
      modifies this`nodes, newNode`next, header`next, nodes`next
      ensures nodes == old(nodes[..p] + [newNode] + nodes[p..])
      ensures Shape()
    {
      ghost var a, c := nodes[..p], nodes[p..];
      PathInFront(header, nodes, p, update, pos);
      DistinctInsert(header, a, newNode, c);
      InstallLevels(newNode, update, a, c, pos);
      nodes := a + [newNode] + c;
    }

    /** Physically unlinks every key of [lo, hi] and returns how many there were. */
    method EraseRange(lo: K, hi: K) returns (erased: nat)
      requires Valid() && StrictTotalOrder(lt)
      modifies this, header`next, nodes`next
      ensures Valid() && contents == EraseBetween(lt, old(contents), lo, hi)
      ensures erased == |Between(lt, old(contents), lo, hi)|
      ensures forall n | n in nodes :: n in old(nodes)
    {
      ghost var p, r := DoomedPositions(lt, contents, lo, hi);
      erased := EraseAt(lo, hi, p, r);
    }

    /** The body of erase_range; the doomed nodes are those at positions p to r. */
    method EraseAt(lo: K, hi: K, ghost p: nat, ghost r: nat) returns (erased: nat)
      requires Shape() && size == |nodes| && Mirrors(nodes, contents) && p <= r <= |nodes|
      requires forall j | 0 <= j < p :: lt(contents[j].0, lo)
      requires forall j | p <= j < |contents| :: !lt(contents[j].0, lo)
      requires forall j | p <= j < r :: !lt(hi, contents[j].0)
      requires forall j | r <= j < |contents| :: lt(hi, contents[j].0)
      modifies this, header`next, nodes`next
      ensures Shape() && size == |nodes| && Mirrors(nodes, contents)
      ensures erased == r - p && nodes == old(nodes[..p] + nodes[r..])
      ensures contents == old(contents[..p] + contents[r..])
    {
      assert forall j | 0 <= j < |nodes| :: nodes[j].key == contents[j].0;
      ghost var pos;
      var update;
      update, pos := FindPredecessors(lo, p);
      erased := CountDoomed(update[0], hi, p, r);
      ghost var ns, es := nodes[..p] + nodes[r..], contents[..p] + contents[r..];
      MirrorsCut(nodes, contents, p, r);
      Unlink(update, hi, p, r, pos);
      assert Mirrors(ns, es) && nodes == ns;
      size := size - erased;
      contents := es;
    }

    method Unlink(update: seq<Node<K, V>>, hi: K, ghost p: nat, ghost r: nat, ghost pos: seq<nat>)
      requires Shape() && p <= r <= |nodes|
      requires |update| == level + 1 && PathTo(update, p, pos)
      requires forall j | p <= j < r :: !lt(hi, nodes[j].key)
      requires forall j | r <= j < |nodes| :: lt(hi, nodes[j].key)
      modifies this`nodes, header`next, nodes`next
      ensures Shape() && nodes == old(nodes[..p] + nodes[r..])
    {
      ghost var a, mid, c := nodes[..p], nodes[p..r], nodes[r..];
      assert nodes == a + mid + c && a + [] + c == nodes[..p] + nodes[r..];
      BypassLevels(update, hi, a, mid, c, pos);
      nodes := a + [] + c;
    }

    /** Walks level 0 over the doomed nodes. */
    method CountDoomed(pred: Node<K, V>, hi: K, ghost p: nat, ghost r: nat) returns (erased: nat)
      requires Shape() && p <= r <= |nodes| && pred == Before(header, nodes, p)
      requires forall j | p <= j < r :: !lt(hi, nodes[j].key)
      requires forall j | r <= j < |nodes| :: lt(hi, nodes[j].key)
      ensures erased == r - p
    {
      erased := 0;
      assert LinkedLevel(header, nodes, 0);
      EveryNodeReachesLevelZero(nodes, p, NextPos(nodes, p, 0));
      var node := pred.next[0];
      while node != null && !lt(hi, node.key)
        invariant erased <= r - p
        invariant node == if p + erased == |nodes| then null else nodes[p + erased]
        decreases r - p - erased
      {
        erased := erased + 1;
        EveryNodeReachesLevelZero(nodes, p + erased, NextPos(nodes, p + erased, 0));
        assert node == Before(header, nodes, p + erased);
        node := node.next[0];
      }
    }

    /** One round of the loop of erase_range: point the predecessor past the doomed nodes. */
    method BypassAt(pred: Node<K, V>, i: nat, hi: K, ghost a: seq<Node<K, V>>, ghost mid: seq<Node<K, V>>,
                    ghost c: seq<Node<K, V>>, ghost u: nat)
      requires Distinct(header, a + mid + c) && Distinct(header, a + [] + c)
      requires u <= |a| && pred == Before(header, a, u) && i <= pred.topLevel && NoneReach(a, u, |a|, i)
      requires forall j | 0 <= j < |mid| :: !lt(hi, mid[j].key)
      requires forall j | 0 <= j < |c| :: lt(hi, c[j].key)
      requires forall j: nat | j < i :: LinkedLevel(header, a + [] + c, j)
      requires forall j: nat | i <= j <= level :: LinkedLevel(header, a + mid + c, j)
      requires i <= level
      modifies pred`next
      ensures forall j: nat | j <= i :: LinkedLevel(header, a + [] + c, j)
      ensures forall j: nat | i < j <= level :: LinkedLevel(header, a + mid + c, j)
      ensures forall j: nat | level < j && old(LinkedLevel(header, a + mid + c, j)) :: LinkedLevel(header, a + mid + c, j)
    {
      ghost var ns := a + mid + c;
      assert LinkedLevel(header, ns, i) && pred == Before(header, ns, u);
      var nxt := pred.next[i];
      ghost var q: nat := 0;  // position in mid + c from which nxt is the next node of level i
      assert nxt == NextAt(mid + c, 0, i) by {
        assert ns == a + (mid + c);
        NextAtHead(a, mid + c, u, i);
      }
      while nxt != null && !lt(hi, nxt.key)
        modifies {}
        invariant q <= |mid| && nxt == NextAt(mid + c, q, i)
        decreases |mid| - q
      {
        ghost var t := NextPos(mid + c, q, i);
        assert t < |mid|;
        MiddleNext(a, mid, c, t + 1, i);
        assert nxt == mid[t] == Before(header, ns, |a| + t + 1);
        nxt := nxt.next[i];
        q := t + 1;
      }
      assert nxt == NextAt(c, 0, i) by {
        ghost var t := NextPos(mid + c, q, i);
        assert t < |mid| + |c| ==> (mid + c)[t] == nxt;
        assert t >= |mid|;
        NextAtSkip(mid + c, q, |mid|, i);
        NextAtTail(mid, c, 0, i);
      }
      assert [] + c == c;
      StoreNext(header, pred, i, nxt, a, mid, [], c, u);
    }

    method BypassLevels(update: seq<Node<K, V>>, hi: K, ghost a: seq<Node<K, V>>, ghost mid: seq<Node<K, V>>,
                        ghost c: seq<Node<K, V>>, ghost pos: seq<nat>)
      requires Shape() && nodes == a + mid + c && |update| == level + 1 && PathTo(update, |a|, pos)
      requires forall j | 0 <= j < |mid| :: !lt(hi, mid[j].key)
      requires forall j | 0 <= j < |c| :: lt(hi, c[j].key)
      modifies header`next, nodes`next
      ensures forall j: nat | j <= MAX_LEVEL :: LinkedLevel(header, a + [] + c, j)
      ensures Distinct(header, a + [] + c)
    {
      DistinctCut(header, a, mid, c);
      for i := 0 to level + 1
        invariant forall j: nat | j < i :: LinkedLevel(header, a + [] + c, j)
        invariant forall j: nat | i <= j <= level :: LinkedLevel(header, a + mid + c, j)
        invariant forall j: nat | level < j <= MAX_LEVEL :: LinkedLevel(header, a + mid + c, j)
      {
        assert update[i] == Before(header, a, pos[i]);
        assert forall j | pos[i] <= j < |a| :: a[j] == nodes[j];
        BypassAt(update[i], i, hi, a, mid, c, pos[i]);
      }
      assert forall n | n in (a + mid + c) + (a + [] + c) :: n in nodes;
      EmptyLevels(header, a + mid + c, a + [] + c, level);
    }

    /** Level-0 search, as a lock-free reader does it. */
    method GetExact(key: K) returns (value: Option<V>)
      requires Valid() && StrictTotalOrder(lt)
      ensures value.Some? ==> (key, value.value) in contents
      ensures value.None? <==> !HasKey(contents, key)
    {
      ghost var p := Rank(lt, contents, key);
      KeyOnlyAtRank(lt, contents, key);
      var cur := WalkBelow(key, p);
      if cur != null && cur.key == key {
        assert contents[p] == (key, cur.value);
        return Some(cur.value);
      }
      return None;
    }

    method WalkBelow(key: K, ghost p: nat) returns (cur: Node?<K, V>)
      requires Valid() && p <= |contents|
      requires forall j | 0 <= j < p :: lt(contents[j].0, key)
      requires p < |contents| ==> !lt(contents[p].0, key)
      ensures cur == if p == |nodes| then null else nodes[p]
    {
      assert LinkedLevel(header, nodes, 0) && Before(header, nodes, 0) == header;
      NextAtLevelZero(nodes, 0);
      cur := header.next[0];
      ghost var q: nat := 0;
      while cur != null && lt(cur.key, key)
        invariant q <= p && cur == if q == |nodes| then null else nodes[q]
        invariant cur != null ==> contents[q].0 == cur.key
        decreases |nodes| - q
      {
        assert contents[q].0 == cur.key && cur == Before(header, nodes, q + 1);
        NextAtLevelZero(nodes, q + 1);
        cur := cur.next[0];
        q := q + 1;
      }
    }

    method Range(lo: K, hi: K) returns (out: seq<V>)
      requires Valid() && StrictTotalOrder(lt)
      ensures out == Values(Between(lt, contents, lo, hi))
    {
      ghost var p, r := DoomedPositions(lt, contents, lo, hi);
      var cur := WalkBelow(lo, p);
      out := CollectUpTo(cur, hi, p, r);
    }

    method CollectUpTo(start: Node?<K, V>, hi: K, ghost p: nat, ghost r: nat) returns (out: seq<V>)
      requires Valid() && p <= r <= |contents|
      requires start == if p == |nodes| then null else nodes[p]
      requires forall j | p <= j < r :: !lt(hi, contents[j].0)
      requires forall j | r <= j < |contents| :: lt(hi, contents[j].0)
      ensures out == Values(contents[p..r])
    {
      out := [];
      var cur := start;
      ghost var q := p;
      assert LinkedLevel(header, nodes, 0);
      while cur != null && !lt(hi, cur.key)
        invariant p <= q <= r && cur == if q == |nodes| then null else nodes[q]
        invariant cur != null ==> contents[q].0 == cur.key
        invariant out == Values(contents[p..q])
        decreases r - q
      {
        assert contents[q] == (cur.key, cur.value) && cur == Before(header, nodes, q + 1);
        assert contents[p..q + 1] == contents[p..q] + [contents[q]];
        out := out + [cur.value];
        NextAtLevelZero(nodes, q + 1);
        cur := cur.next[0];
        q := q + 1;
      }
    }

    method All() returns (out: seq<V>)
      requires Valid()
      ensures out == Values(contents)
    {
      out := [];
      assert LinkedLevel(header, nodes, 0) && Before(header, nodes, 0) == header;
      NextAtLevelZero(nodes, 0);
      var cur := header.next[0];
      ghost var q: nat := 0;
      while cur != null
        invariant q <= |nodes| && cur == if q == |nodes| then null else nodes[q]
        invariant out == Values(contents[..q])
        decreases |nodes| - q
      {
        assert contents[q] == (cur.key, cur.value) && cur == Before(header, nodes, q + 1);
        assert contents[..q + 1] == contents[..q] + [contents[q]];
        out := out + [cur.value];
        NextAtLevelZero(nodes, q + 1);
        cur := cur.next[0];
        q := q + 1;
      }
      assert contents[..q] == contents;
    }

    /** Every level, read through its pointers, is a strictly sorted sublist of the level below. */
    lemma LevelsNest(i: nat)
      requires Valid() && i <= MAX_LEVEL
      ensures i < |header.next| && Follows(header.next[i], LevelChain(nodes, 0, i), i)
      ensures SortedByKey(lt, LevelChain(nodes, 0, i))
      ensures i > 0 ==> LevelChain(nodes, 0, i) == Reaching(LevelChain(nodes, 0, i - 1), i)
      ensures LevelChain(nodes, 0, 0) == nodes
    {
      assert LinkedLevel(header, nodes, i) && Before(header, nodes, 0) == header;
      PointersFollow(header, nodes, 0, i);
      assert forall j | 0 <= j < |nodes| :: nodes[j].key == contents[j].0;
      ChainSorted(lt, nodes, 0, i);
      if i > 0 { ChainOfChain(nodes, 0, i); }
      assert nodes[0..] == nodes;
      ChainAtZero(nodes, 0);
    }

    /** Nondeterministic in place of the geometric random number. */
    static method RandomLevel() returns (lvl: nat)
      ensures lvl < MAX_LEVEL
    {
      lvl := 0;
      var coin: bool := *;
      while lvl < MAX_LEVEL - 1 && coin
        invariant lvl < MAX_LEVEL
      {
        lvl := lvl + 1;
        coin := *;
      }
    }
  }
}
