/** Maps with byte-string keys, kept in ascending key order: the order in which they are iterated and written. */
module OrderedMaps {
  import opened Keys
  import opened Binary
  import opened Wrappers
  import opened Formats

  type Dict<V> = seq<(Bytes, V)>

  predicate Ascending<V>(m: Dict<V>) {
    forall i, j | 0 <= i < j < |m| :: LexLess(m[i].0, m[j].0)
  }

  function Find<V>(m: Dict<V>, k: Bytes): Option<V> {
    if m == [] then None else if m[0].0 == k then Some(m[0].1) else Find(m[1..], k)
  }

  /** Entering v under k; what to do with a value already there is up to merge. */
  function Enter<V>(m: Dict<V>, k: Bytes, v: V, merge: (V, V) -> V): Dict<V> {
    if m == [] || LexLess(k, m[0].0) then [(k, v)] + m
    else if m[0].0 == k then [(k, merge(m[0].1, v))] + m[1..]
    else [m[0]] + Enter(m[1..], k, v, merge)
  }

  function Remove<V>(m: Dict<V>, k: Bytes): Dict<V> {
    if m == [] then [] else if m[0].0 == k then m[1..] else [m[0]] + Remove(m[1..], k)
  }

  /** Entering the entries one after the other, the last one last. */
  function Gather<V>(entries: seq<(Bytes, V)>, merge: (V, V) -> V): Dict<V> {
    if entries == [] then []
    else
      var last := entries[|entries| - 1];
      Enter(Gather(entries[..|entries| - 1], merge), last.0, last.1, merge)
  }

  lemma GatherNext<V>(seen: seq<(Bytes, V)>, k: Bytes, v: V, merge: (V, V) -> V)
    ensures Gather(seen + [(k, v)], merge) == Enter(Gather(seen, merge), k, v, merge)
  {
    assert (seen + [(k, v)])[..|seen|] == seen;
  }

  // What emplace, assignment through operator[] and appending do with a key that is present.

  function Older<V>(there: V, added: V): V { there }

  function Newer<V>(there: V, added: V): V { added }

  function Appended<T>(there: seq<T>, added: seq<T>): seq<T> { there + added }

  /** A map is written as its entries in key order; entries may repeat keys when they are read. */
  function DictFormat<V>(f: Format<V>, merge: (V, V) -> V): Format<Dict<V>> {
    Via(Counted(Keyed(f)), Gathered(merge), InOrder, IsDict)
  }

  function Keyed<V>(f: Format<V>): Format<(Bytes, V)> { Pair(Text16(), f) }

  function Gathered<V>(merge: (V, V) -> V): seq<(Bytes, V)> -> Option<Dict<V>> { entries => Some(Gather(entries, merge)) }

  function InOrder<V>(m: Dict<V>): seq<(Bytes, V)> { m }

  predicate IsDict<V>(m: Dict<V>) { Ascending(m) }

  lemma DictSound<V(!new)>(f: Format<V>, merge: (V, V) -> V)
    requires Sound(f)
    ensures Sound(DictFormat(f, merge))
  {
    Text16Sound();
    PairSound(Text16(), f);
    CountedSound(Keyed(f));
    forall m: Dict<V> | IsDict(m) ensures BackAndForth(Gathered(merge), InOrder, m) { GatherAscending(m, merge); }
    ViaSound(Counted(Keyed(f)), Gathered(merge), InOrder, IsDict);
  }

  lemma DictFits<V>(f: Format<V>, merge: (V, V) -> V, m: Dict<V>)
    ensures DictFormat(f, merge).fits(m) <==>
            && Ascending(m) && |m| < 0x1_0000_0000
            && forall i | 0 <= i < |m| :: |m[i].0| < 0x1_0000 && f.fits(m[i].1)
  {
    ViaFits(Counted(Keyed(f)), Gathered(merge), InOrder, IsDict, m);
    forall i | 0 <= i < |m| ensures Keyed(f).fits(m[i]) <==> |m[i].0| < 0x1_0000 && f.fits(m[i].1) {
    }
  }

  lemma DictBytes<V>(f: Format<V>, merge: (V, V) -> V, m: Dict<V>)
    ensures DictFormat(f, merge).enc(m) == Put32(|m|) + Written(Keyed(f), m)
  {
    ViaBytes(Counted(Keyed(f)), Gathered(merge), InOrder, IsDict, m);
    ListBytes(Word32(), Keyed(f), m);
  }

  /** Reading a count and then as many entries, gathering them on the way. */
  lemma TookDict<V>(f: Format<V>, merge: (V, V) -> V, was: Bytes, first: bool, n: nat, start: Bytes,
                    ok: bool, seen: seq<(Bytes, V)>, m: Dict<V>, left: Bytes)
    requires Took(Word32(), was, first, n, start)
    requires if first then Many(Keyed(f), n, start) == (if ok then Some((seen, left)) else None) else !ok
    requires ok ==> m == Gather(seen, merge)
    ensures Took(DictFormat(f, merge), was, ok, m, left)
  {
    TookList(Word32(), Keyed(f), was, first, n, start, ok, seen, left);
    TookVia(Counted(Keyed(f)), Gathered(merge), InOrder, IsDict, was, ok, seen, m, left);
  }

  lemma {:induction false} EnterLast<V>(m: Dict<V>, k: Bytes, v: V, merge: (V, V) -> V)
    requires forall i | 0 <= i < |m| :: LexLess(m[i].0, k)
    ensures Enter(m, k, v, merge) == m + [(k, v)]
  {
    if m != [] {
      if LexLess(k, m[0].0) { LexTransitive(k, m[0].0, k); }
      LexIrreflexive(k);
      EnterLast(m[1..], k, v, merge);
    }
  }

  /** Entering what a map holds, in its order, builds the same map again. */
  lemma {:induction false} GatherAscending<V>(m: Dict<V>, merge: (V, V) -> V)
    requires Ascending(m)
    ensures Gather(m, merge) == m
  {
    if m != [] {
      var last := m[|m| - 1];
      GatherAscending(m[..|m| - 1], merge);
      EnterLast(m[..|m| - 1], last.0, last.1, merge);
    }
  }

  lemma {:induction false} EnterAscends<V>(m: Dict<V>, k: Bytes, v: V, merge: (V, V) -> V)
    requires Ascending(m)
    ensures Ascending(Enter(m, k, v, merge))
    ensures forall i | 0 <= i < |Enter(m, k, v, merge)| ::
              Enter(m, k, v, merge)[i].0 == k || exists j :: 0 <= j < |m| && m[j].0 == Enter(m, k, v, merge)[i].0
  {
    var e := Enter(m, k, v, merge);
    if m != [] && LexLess(k, m[0].0) {
      forall j | 0 < j < |m| ensures LexLess(k, m[j].0) { LexTransitive(k, m[0].0, m[j].0); }
    } else if m != [] && m[0].0 != k {
      LexTotal(k, m[0].0);
      EnterAscends(m[1..], k, v, merge);
      assert e == [m[0]] + Enter(m[1..], k, v, merge);
    }
  }

  lemma {:induction false} GatherAscends<V>(entries: seq<(Bytes, V)>, merge: (V, V) -> V)
    ensures Ascending(Gather(entries, merge))
  {
    if entries != [] {
      var n := |entries| - 1;
      GatherAscends(entries[..n], merge);
      EnterAscends(Gather(entries[..n], merge), entries[n].0, entries[n].1, merge);
    }
  }

  lemma {:induction false} FindAbsent<V>(m: Dict<V>, k: Bytes)
    requires forall i | 0 <= i < |m| :: m[i].0 != k
    ensures Find(m, k) == None
  {
    if m != [] { FindAbsent(m[1..], k); }
  }

  lemma FindBelow<V>(m: Dict<V>, k: Bytes)
    requires Ascending(m) && (m == [] || LexLess(k, m[0].0))
    ensures Find(m, k) == None
  {
    forall i | 0 <= i < |m| ensures m[i].0 != k {
      if i > 0 { LexTransitive(k, m[0].0, m[i].0); }
      LexIrreflexive(k);
    }
    FindAbsent(m, k);
  }

  lemma {:induction false} EnterFinds<V>(m: Dict<V>, k: Bytes, v: V, merge: (V, V) -> V, q: Bytes)
    requires Ascending(m)
    ensures Find(Enter(m, k, v, merge), q) ==
            if q != k then Find(m, q) else if Find(m, k).None? then Some(v) else Some(merge(Find(m, k).value, v))
  {
    if m == [] || LexLess(k, m[0].0) {
      FindBelow(m, k);
    } else if m[0].0 != k {
      EnterFinds(m[1..], k, v, merge, q);
    }
  }

  lemma {:induction false} RemoveFinds<V>(m: Dict<V>, k: Bytes, q: Bytes)
    requires Ascending(m)
    ensures Ascending(Remove(m, k))
    ensures forall i | 0 <= i < |Remove(m, k)| :: Remove(m, k)[i] in m
    ensures Find(Remove(m, k), q) == if q == k then None else Find(m, q)
  {
    if m == [] {
    } else if m[0].0 == k {
      if |m| > 1 { FindBelow(m[1..], k); }
    } else {
      RemoveFinds(m[1..], k, q);
      assert Remove(m, k) == [m[0]] + Remove(m[1..], k);
    }
  }

  lemma {:induction false} FindKnows<V>(m: Dict<V>, i: nat)
    requires Ascending(m) && i < |m|
    ensures Find(m, m[i].0) == Some(m[i].1)
  {
    if i > 0 {
      LexIrreflexive(m[i].0);
      FindKnows(m[1..], i - 1);
    }
  }

  ghost predicate SameAt<V>(a: Dict<V>, b: Dict<V>, k: Bytes) { Find(a, k) == Find(b, k) }

  /** Maps that answer every lookup alike are equal. */
  lemma {:induction false} SameLookups<V>(a: Dict<V>, b: Dict<V>)
    requires Ascending(a) && Ascending(b) && forall k :: SameAt(a, b, k)
    ensures a == b
  {
    var first := if a != [] then a[0].0 else if b != [] then b[0].0 else [];
    assert SameAt(a, b, first);
    if a != [] {
      assert SameAt(a, b, b[0].0);
      SameHeads(a, b);
      forall k ensures SameAt(a[1..], b[1..], k) {
        assert SameAt(a, b, k);
        if k == a[0].0 { FindBelow(a[1..], k); FindBelow(b[1..], k); }
      }
      SameLookups(a[1..], b[1..]);
      assert a == [a[0]] + a[1..] && b == [b[0]] + b[1..];
    }
  }

  lemma SameHeads<V>(a: Dict<V>, b: Dict<V>)
    requires Ascending(a) && Ascending(b) && a != [] && b != []
    requires SameAt(a, b, a[0].0) && SameAt(a, b, b[0].0)
    ensures a[0] == b[0]
  {
    LexTotal(a[0].0, b[0].0);
    if LexLess(a[0].0, b[0].0) { FindBelow(b, a[0].0); }
    if LexLess(b[0].0, a[0].0) { FindBelow(a, b[0].0); }
  }
}
