/** Write skew: runs of several serializable transactions over the SSI maps, one atomic call at a time. */
module WriteSkew {
  import opened Mvcc
  import opened Transactions

  datatype Event =
    | Start
    | Read(x: Xid, key: RowKey)
    | Write(x: Xid, key: RowKey)
    | Commit(x: Xid)
    | Abort(x: Xid)

  datatype Ssi = Ssi(next: Xid, active: set<Xid>, sireads: map<RowKey, set<Xid>>, conflicts: map<Xid, set<Xid>>)

  function Initial(): Ssi { Ssi(FIRST_NORMAL, {}, map[], map[]) }

  function Ended(s: Ssi, x: Xid): Ssi {
    s.(active := s.active - {x}, sireads := DropReader(s.sireads, x), conflicts := DropEdges(s.conflicts, x))
  }

  /** A refused commit is not an event: it changes nothing and the session goes on to abort. */
  ghost predicate Step(s: Ssi, e: Event, s': Ssi) {
    match e
    case Start => s' == s.(next := s.next + 1, active := s.active + {s.next})
    case Read(x, key) => x in s.active && s' == s.(sireads := Siread(s.sireads, x, key))
    case Write(x, key) => x in s.active && s' == s.(conflicts := WriteEdges(s.conflicts, s.sireads, x, key))
    case Commit(x) => x in s.active && !Pivot(s.conflicts, x) && s' == Ended(s, x)
    case Abort(x) => x in s.active && s' == Ended(s, x)
  }

  ghost predicate IsRun(ev: seq<Event>, st: seq<Ssi>) {
    && |st| == |ev| + 1
    && st[0] == Initial()
    && forall i | 0 <= i < |ev| :: Step(st[i], ev[i], st[i + 1])
  }

  /** Only active transactions occur in the maps, and a read key has readers. */
  ghost predicate Tidy(s: Ssi) {
    && FIRST_NORMAL <= s.next
    && (forall x | x in s.active :: FIRST_NORMAL <= x < s.next)
    && (forall k | k in s.sireads :: s.sireads[k] != {} && s.sireads[k] <= s.active)
    && (forall x | x in s.conflicts :: x in s.active && s.conflicts[x] <= s.active)
  }

  lemma StepTidy(s: Ssi, e: Event, s': Ssi)
    requires Tidy(s) && Step(s, e, s')
    ensures Tidy(s')
  {
  }

  /** After a transaction has ended its id occurs nowhere in the SSI maps. */
  lemma {:induction false} EndedNowhere(ev: seq<Event>, st: seq<Ssi>, n: nat, x: Xid)
    requires IsRun(ev, st) && n <= |ev|
    ensures Tidy(st[n])
    ensures x !in st[n].active ==> (forall k | k in st[n].sireads :: x !in st[n].sireads[k])
                                   && x !in st[n].conflicts && forall y :: !Edge(st[n].conflicts, y, x)
  {
    if n > 0 {
      EndedNowhere(ev, st, n - 1, x);
      StepOf(ev, st, n - 1, n);
      StepTidy(st[n - 1], ev[n - 1], st[n]);
    }
  }

  lemma StepOf(ev: seq<Event>, st: seq<Ssi>, i: nat, j: nat)
    requires IsRun(ev, st) && i < |ev| && j == i + 1
    ensures Step(st[i], ev[i], st[j])
  {
  }

  predicate Mentions(e: Event, x: Xid) { !e.Start? && e.x == x }

  ghost predicate HasRead(ev: seq<Event>, n: nat, x: Xid, key: RowKey)
    requires n <= |ev|
  {
    exists i | 0 <= i < n :: ev[i] == Read(x, key)
  }

  /** x read some row and y wrote that row later. */
  ghost predicate ReadThenWrite(ev: seq<Event>, n: nat, x: Xid, y: Xid)
    requires n <= |ev|
  {
    exists j | 0 <= j < n :: ev[j].Write? && ev[j].x == y && HasRead(ev, j, x, ev[j].key)
  }

  /** Ids are never reused. */
  lemma {:induction false} MentionedIsOld(ev: seq<Event>, st: seq<Ssi>, n: nat, i: nat)
    requires IsRun(ev, st) && i < n <= |ev| && !ev[i].Start?
    ensures ev[i].x < st[n].next
    decreases n
  {
    StepOf(ev, st, n - 1, n);
    EndedNowhere(ev, st, n - 1, 0);
    if i < n - 1 { MentionedIsOld(ev, st, n - 1, i); }
  }

  lemma {:induction false} ReadsExact(ev: seq<Event>, st: seq<Ssi>, n: nat, x: Xid, key: RowKey)
    requires IsRun(ev, st) && n <= |ev|
    ensures key in st[n].sireads && x in st[n].sireads[key] <==> x in st[n].active && HasRead(ev, n, x, key)
    decreases n
  {
    if n > 0 {
      var m := n - 1;
      ReadsExact(ev, st, m, x, key);
      StepOf(ev, st, m, n);
      EndedNowhere(ev, st, m, x);
      assert HasRead(ev, n, x, key) <==> HasRead(ev, m, x, key) || ev[m] == Read(x, key);
      if ev[m].Start? && HasRead(ev, m, x, key) {
        var i :| 0 <= i < m && ev[i] == Read(x, key);
        MentionedIsOld(ev, st, m, i);
      }
    }
  }

  /** The rw edges are exactly the read-then-write pairs between transactions that are both still running. */
  lemma {:induction false} EdgesExact(ev: seq<Event>, st: seq<Ssi>, n: nat, x: Xid, y: Xid)
    requires IsRun(ev, st) && n <= |ev| && x != y
    ensures Edge(st[n].conflicts, x, y) <==> x in st[n].active && y in st[n].active && ReadThenWrite(ev, n, x, y)
    decreases n
  {
    if n > 0 {
      var m := n - 1;
      EdgesExact(ev, st, m, x, y);
      StepOf(ev, st, m, n);
      EndedNowhere(ev, st, m, x);
      EndedNowhere(ev, st, m, y);
      assert ReadThenWrite(ev, n, x, y) <==>
        ReadThenWrite(ev, m, x, y) || (ev[m].Write? && ev[m].x == y && HasRead(ev, m, x, ev[m].key));
      match ev[m] {
        case Write(w, key) => ReadsExact(ev, st, m, x, key);
        case Start =>
          if ReadThenWrite(ev, m, x, y) { PairIsOld(ev, st, m, x, y); }
        case Read(_, _) =>
        case Commit(_) =>
        case Abort(_) =>
      }
    }
  }

  lemma PairIsOld(ev: seq<Event>, st: seq<Ssi>, m: nat, x: Xid, y: Xid)
    requires IsRun(ev, st) && m <= |ev| && ReadThenWrite(ev, m, x, y)
    ensures x < st[m].next && y < st[m].next
  {
    var j :| 0 <= j < m && ev[j].Write? && ev[j].x == y && HasRead(ev, j, x, ev[j].key);
    var i :| 0 <= i < j && ev[i] == Read(x, ev[j].key);
    MentionedIsOld(ev, st, m, j);
    MentionedIsOld(ev, st, m, i);
  }

  /** A commit is refused exactly when some other running transaction forms a write skew with this one. */
  lemma CommitRefusedExactly(ev: seq<Event>, st: seq<Ssi>, n: nat, x: Xid)
    requires IsRun(ev, st) && n <= |ev| && x in st[n].active
    ensures Pivot(st[n].conflicts, x) <==>
      exists y :: y != x && y in st[n].active && ReadThenWrite(ev, n, x, y) && ReadThenWrite(ev, n, y, x)
  {
    forall y | y != x
      ensures Edge(st[n].conflicts, x, y) && Edge(st[n].conflicts, y, x) <==>
        y in st[n].active && ReadThenWrite(ev, n, x, y) && ReadThenWrite(ev, n, y, x)
    {
      EdgesExact(ev, st, n, x, y);
      EdgesExact(ev, st, n, y, x);
    }
  }

  /** A transaction acts only while active, and once gone it stays gone. */
  lemma {:induction false} ActiveUntilEnd(ev: seq<Event>, st: seq<Ssi>, i: nat, n: nat, x: Xid)
    requires IsRun(ev, st) && i <= n <= |ev| && x in st[n].active && x < st[i].next
    ensures x in st[i].active
    decreases n
  {
    if i < n {
      StepOf(ev, st, n - 1, n);
      NextGrows(ev, st, i, n - 1);
      ActiveUntilEnd(ev, st, i, n - 1, x);
    }
  }

  lemma {:induction false} NextGrows(ev: seq<Event>, st: seq<Ssi>, i: nat, n: nat)
    requires IsRun(ev, st) && i <= n <= |ev|
    ensures st[i].next <= st[n].next
    decreases n
  {
    if i < n {
      StepOf(ev, st, n - 1, n);
      NextGrows(ev, st, i, n - 1);
    }
  }

  lemma ActsBeforeEnd(ev: seq<Event>, st: seq<Ssi>, w: nat, c: nat, x: Xid)
    requires IsRun(ev, st) && w < |ev| && c < |ev| && Mentions(ev[w], x) && ev[c] == Commit(x)
    ensures w <= c
  {
    if c < w {
      StepOf(ev, st, c, c + 1);
      StepOf(ev, st, w, w + 1);
      MentionedIsOld(ev, st, c + 1, c);
      ActiveUntilEnd(ev, st, c + 1, w, x);
    }
  }

  lemma FirstCommitPrecedesWrite(ev: seq<Event>, st: seq<Ssi>, a: Xid, b: Xid, ca: nat, cb: nat, wa: nat, wb: nat)
    requires IsRun(ev, st) && a != b && ca < cb < |ev| && wa < |ev| && wb < |ev|
    requires ev[ca] == Commit(a) && ev[cb] == Commit(b)
    requires ev[wb].Write? && ev[wb].x == b && HasRead(ev, wb, a, ev[wb].key)
    requires ev[wa].Write? && ev[wa].x == a && HasRead(ev, wa, b, ev[wa].key)
    ensures ca < wb
  {
    ActsBeforeEnd(ev, st, wa, ca, a);
    if wb < ca {
      StepOf(ev, st, ca, ca + 1);
      StepOf(ev, st, cb, cb + 1);
      MentionedIsOld(ev, st, ca, wb);
      ActiveUntilEnd(ev, st, ca, cb, b);
      assert ReadThenWrite(ev, ca, a, b) && ReadThenWrite(ev, ca, b, a);
      CommitRefusedExactly(ev, st, ca, a);
    }
  }

  /** When each of two transactions reads a row before the other writes it, at most one of them commits,
      unless the first to commit does so before the other's write. */
  lemma AtMostOneCommits(ev: seq<Event>, st: seq<Ssi>, a: Xid, b: Xid, ra: nat, wb: nat, rb: nat, wa: nat, ca: nat, cb: nat)
    requires IsRun(ev, st) && a != b
    requires ra < wb < |ev| && rb < wa < |ev| && ca < |ev| && cb < |ev|
    requires ev[wb].Write? && ev[wb].x == b && ev[ra] == Read(a, ev[wb].key)
    requires ev[wa].Write? && ev[wa].x == a && ev[rb] == Read(b, ev[wa].key)
    requires ev[ca] == Commit(a) && ev[cb] == Commit(b)
    ensures ca < wb || cb < wa
  {
    assert HasRead(ev, wb, a, ev[wb].key) && HasRead(ev, wa, b, ev[wa].key);
    if ca < cb {
      FirstCommitPrecedesWrite(ev, st, a, b, ca, cb, wa, wb);
    } else {
      FirstCommitPrecedesWrite(ev, st, b, a, cb, ca, wb, wa);
    }
  }

  predicate SkewScript(ev: seq<Event>, k: RowKey, m: RowKey) {
    ev == [Start, Start, Read(3, k), Read(4, m), Write(3, m), Commit(3), Write(4, k), Commit(4)]
  }

  /** The guarantee stops there: in this run each reads before the other writes, and both commit. */
  lemma SkewSlipsThrough(k: RowKey, m: RowKey) returns (ev: seq<Event>, st: seq<Ssi>)
    requires k != m
    ensures SkewScript(ev, k, m) && IsRun(ev, st)
  {
    ev := [Start, Start, Read(3, k), Read(4, m), Write(3, m), Commit(3), Write(4, k), Commit(4)];
    var s1, s2 := Ssi(4, {3}, map[], map[]), Ssi(5, {3, 4}, map[], map[]);
    var s3, s4 := s2.(sireads := map[k := {3}]), s2.(sireads := map[k := {3}, m := {4}]);
    var s5 := s4.(conflicts := map[4 := {3}]);
    var s6 := Ssi(5, {4}, map[m := {4}], map[4 := {}]);
    var s8 := Ssi(5, {}, map[], map[]);
    st := [Initial(), s1, s2, s3, s4, s5, s6, s6, s8];
    assert Step(s2, Read(3, k), s3) && Step(s3, Read(4, m), s4) by {
      assert {} + {3} == {3} && {} + {4} == {4};
    }
    assert Step(s4, Write(3, m), s5) by {
      assert s4.sireads[m] - {3} == {4} && {} + {3} == {3};
    }
    assert Step(s5, Commit(3), s6) by {
      assert {3} - {3} == {} && {4} - {3} == {4};
      assert s5.active - {3} == {4};
    }
    assert Step(s6, Write(4, k), s6);
    assert Step(s6, Commit(4), s8) by {
      assert {4} - {4} == {};
    }
  }

  // ---------- the manager's calls are the steps ----------

  function SsiOf(t: TransactionManager): Ssi
    reads t
  {
    Ssi(t.nextXid, t.active, t.sireads, t.inConflict)
  }

  /** The first write of a serializable session starts its transaction. */
  method StartIsStep(t: TransactionManager) returns (ok: bool)
    requires t.Valid() && t.xid == INVALID
    modifies t
    ensures t.Valid() && (ok <==> old(t.nextXid) < 2146483648)
    ensures ok ==> Step(old(SsiOf(t)), Start, SsiOf(t)) && t.xid == old(t.nextXid)
    ensures !ok ==> SsiOf(t) == old(SsiOf(t))
  {
    ok := t.AssignXid();
  }

  method ReadIsStep(t: TransactionManager, key: RowKey)
    requires t.Valid() && t.xid != INVALID && t.isolation == Serializable
    modifies t
    ensures t.Valid() && Step(old(SsiOf(t)), Read(t.xid, key), SsiOf(t)) && t.xid == old(t.xid)
  {
    t.RegisterSiread(key);
  }

  method WriteIsStep(t: TransactionManager, key: RowKey)
    requires t.Valid() && t.xid != INVALID && t.isolation == Serializable
    modifies t
    ensures t.Valid() && Step(old(SsiOf(t)), Write(t.xid, key), SsiOf(t)) && t.xid == old(t.xid)
  {
    t.RegisterWrite(key);
  }

  /** A commit that is not refused is a step, and a refused one changes nothing. */
  method CommitIsStep(t: TransactionManager) returns (ok: bool)
    requires t.Valid() && t.xid != INVALID && t.isolation == Serializable
    modifies t
    ensures t.Valid() && (ok <==> !Pivot(old(t.inConflict), old(t.xid)))
    ensures ok ==> Step(old(SsiOf(t)), Commit(old(t.xid)), SsiOf(t)) && t.clog == old(t.clog)[old(t.xid) := Committed]
    ensures !ok ==> SsiOf(t) == old(SsiOf(t)) && t.clog == old(t.clog)
  {
    ok := t.CommitTransaction();
  }

  method AbortIsStep(t: TransactionManager)
    requires t.Valid() && t.xid != INVALID
    modifies t
    ensures t.Valid() && Step(old(SsiOf(t)), Abort(old(t.xid)), SsiOf(t)) && t.clog == old(t.clog)[old(t.xid) := Aborted]
  {
    t.AbortTransaction();
  }

  // ---------- the bookkeeping, entry by entry ----------

  lemma SireadExactly(sireads: map<RowKey, set<Xid>>, x: Xid, key: RowKey, k: RowKey, y: Xid)
    ensures k in Siread(sireads, x, key) && y in Siread(sireads, x, key)[k] <==>
            (k in sireads && y in sireads[k]) || (k == key && y == x)
  {
  }

  /** After y writes the row, exactly the other readers of the row have gained an edge to it. */
  lemma WriteEdgesExactly(conflicts: map<Xid, set<Xid>>, sireads: map<RowKey, set<Xid>>, w: Xid, key: RowKey, x: Xid, y: Xid)
    ensures x in WriteEdges(conflicts, sireads, w, key) && y in WriteEdges(conflicts, sireads, w, key)[x] <==>
            (x in conflicts && y in conflicts[x]) || (y == w && x != w && key in sireads && x in sireads[key])
  {
  }

  lemma DropExactly(conflicts: map<Xid, set<Xid>>, sireads: map<RowKey, set<Xid>>, z: Xid, x: Xid, y: Xid, key: RowKey)
    ensures x in DropEdges(conflicts, z) && y in DropEdges(conflicts, z)[x] <==> x in conflicts && y in conflicts[x] && x != z && y != z
    ensures key in DropReader(sireads, z) && y in DropReader(sireads, z)[key] <==> key in sireads && y in sireads[key] && y != z
  {
    if key in sireads && y in sireads[key] && y != z { assert y in sireads[key] - {z}; }
  }
}
