/** A table in memory: every version of every row, in one skip list keyed by row id and sequence number. */
module MemTables {
  import opened Keys
  import opened Mvcc
  import opened SkipLists
  import opened Wrappers

  type Versions = Entries<InternalKey, Tuple>

  ghost predicate IsVersionOf(table: seq<Byte>, k: InternalKey, rowId: int, seqNo: nat) {
    IsRowId(rowId) && seqNo <= MAX_SEQ && k == VersionKey(table, rowId, seqNo)
  }

  ghost predicate IsVersion(table: seq<Byte>, k: InternalKey) {
    exists rowId: int, seqNo: nat :: IsVersionOf(table, k, rowId, seqNo)
  }

  ghost predicate AllVersions(table: seq<Byte>, es: Versions) {
    forall i | 0 <= i < |es| :: IsVersion(table, es[i].0)
  }

  /** The entries with the given user key, in order. */
  function OfKey(es: Versions, userKey: seq<Byte>): Versions {
    if es == [] then []
    else (if es[0].0.userKey == userKey then [es[0]] else []) + OfKey(es[1..], userKey)
  }

  function NotOfKey(es: Versions, userKey: seq<Byte>): Versions {
    if es == [] then []
    else (if es[0].0.userKey == userKey then [] else [es[0]]) + NotOfKey(es[1..], userKey)
  }

  // ---------- the order of versions ----------

  lemma LessIsOrder()
    ensures StrictTotalOrder(Less)
  {
    forall a, b ensures Trichotomy(Less, a, b) { LessTotal(a, b); }
    forall a, b, c ensures Transitive(Less, a, b, c) {
      if Less(a, b) && Less(b, c) { LessTransitive(a, b, c); }
    }
  }

  /** A scan meets row ids in ascending order, the negative ones last, and the versions of one row newest first. */
  lemma ScanOrder(table: seq<Byte>, es: Versions, i: nat, j: nat, r: int, s: nat, r': int, s': nat)
    requires Sorted(Less, es) && i < j < |es|
    requires IsVersionOf(table, es[i].0, r, s) && IsVersionOf(table, es[j].0, r', s')
    ensures Word(r) < Word(r') || (r == r' && s > s')
    ensures 0 <= r && 0 <= r' ==> r < r' || (r == r' && s > s')
  {
    UserKeyOrder(table, r, r');
    WordsDiffer(r, r');
    assert Less(es[i].0, es[j].0);
  }

  lemma {:induction false} OfKeyKnows(es: Versions, userKey: seq<Byte>, e: (InternalKey, Tuple))
    ensures e in OfKey(es, userKey) <==> e in es && e.0.userKey == userKey
    ensures e in NotOfKey(es, userKey) <==> e in es && e.0.userKey != userKey
  {
    if es != [] {
      OfKeyKnows(es[1..], userKey, e);
      assert es == [es[0]] + es[1..];
    }
  }

  lemma {:induction false} NoneOfKey(es: Versions, userKey: seq<Byte>)
    requires forall i | 0 <= i < |es| :: es[i].0.userKey != userKey
    ensures OfKey(es, userKey) == [] && NotOfKey(es, userKey) == es
  {
    if es != [] {
      NoneOfKey(es[1..], userKey);
      assert es == [es[0]] + es[1..];
    }
  }

  /** Filtering by a key that occupies exactly the positions p to r cuts there. */
  lemma {:induction false} CutByKey(es: Versions, p: nat, r: nat, userKey: seq<Byte>)
    requires p <= r <= |es| && forall i | 0 <= i < |es| :: es[i].0.userKey == userKey <==> p <= i < r
    ensures OfKey(es, userKey) == es[p..r] && NotOfKey(es, userKey) == es[..p] + es[r..]
  {
    if r == 0 {
      NoneOfKey(es, userKey);
    } else {
      var q := if p > 0 then p - 1 else 0;
      CutByKey(es[1..], q, r - 1, userKey);
      Uncut(es, p, r);
    }
  }

  lemma Uncut(es: Versions, p: nat, r: nat)
    requires p <= r <= |es| && 0 < r
    ensures es[1..][r - 1..] == es[r..]
    ensures p > 0 ==> es[1..][p - 1..r - 1] == es[p..r] && [es[0]] + es[1..][..p - 1] == es[..p]
    ensures p == 0 ==> [es[0]] + es[1..][0..r - 1] == es[0..r]
  {
  }

  /** The interval from the newest possible version of a row to its oldest holds exactly that row's versions. */
  lemma IntervalIsOneRow(table: seq<Byte>, es: Versions, rowId: int)
    requires Sorted(Less, es) && AllVersions(table, es) && IsRowId(rowId)
    ensures var lo, hi, uk := VersionKey(table, rowId, MAX_SEQ), VersionKey(table, rowId, 0), MakeUserKey(table, rowId);
            Between(Less, es, lo, hi) == OfKey(es, uk) && EraseBetween(Less, es, lo, hi) == NotOfKey(es, uk)
  {
    var lo, hi, uk := VersionKey(table, rowId, MAX_SEQ), VersionKey(table, rowId, 0), MakeUserKey(table, rowId);
    LessIsOrder();
    var p, r := DoomedPositions(Less, es, lo, hi);
    forall i | 0 <= i < |es| ensures es[i].0.userKey == uk <==> p <= i < r {
      assert IsVersion(table, es[i].0);
      InsideIsSameRow(table, es[i].0, rowId);
    }
    CutByKey(es, p, r, uk);
  }

  lemma InsideIsSameRow(table: seq<Byte>, k: InternalKey, rowId: int)
    requires IsVersion(table, k) && IsRowId(rowId)
    ensures k.userKey == MakeUserKey(table, rowId) <==>
            !Less(k, VersionKey(table, rowId, MAX_SEQ)) && !Less(VersionKey(table, rowId, 0), k)
  {
    var other: int, s: nat :| IsVersionOf(table, k, other, s);
    VersionRange(table, rowId, other, s);
    UserKeyOrder(table, other, rowId);
    WordsDiffer(other, rowId);
  }

  lemma UpsertKeeps(table: seq<Byte>, es: Versions, rowId: int, seqNo: nat, t: Tuple)
    requires AllVersions(table, es) && IsRowId(rowId) && seqNo <= MAX_SEQ
    ensures AllVersions(table, Upsert(Less, es, VersionKey(table, rowId, seqNo), t))
  {
    var k := VersionKey(table, rowId, seqNo);
    var out := Upsert(Less, es, k, t);
    assert IsVersionOf(table, k, rowId, seqNo);
    forall i | 0 <= i < |out| ensures IsVersion(table, out[i].0) {
      assert out[i].0 == k || out[i] in es;
    }
  }

  /** The newest version of a row, if it has any. */
  function Latest(es: Versions, userKey: seq<Byte>): Option<Tuple> {
    var versions := OfKey(es, userKey);
    if versions == [] then None else Some(versions[0].1)
  }

  lemma {:induction false} OfKeySorted(es: Versions, userKey: seq<Byte>)
    requires Sorted(Less, es)
    ensures Sorted(Less, OfKey(es, userKey))
  {
    if es != [] {
      OfKeySorted(es[1..], userKey);
      var rest := OfKey(es[1..], userKey);
      forall j | 0 <= j < |rest| ensures Less(es[0].0, rest[j].0) {
        OfKeyKnows(es[1..], userKey, rest[j]);
        var k :| 0 <= k < |es[1..]| && es[1..][k] == rest[j];
        assert es[k + 1] == rest[j];
      }
    }
  }

  /** No version of the row has a larger sequence number than the one that counts as the latest. */
  lemma LatestIsNewest(es: Versions, userKey: seq<Byte>, e: (InternalKey, Tuple))
    requires Sorted(Less, es) && e in es && e.0.userKey == userKey
    ensures OfKey(es, userKey) != [] && OfKey(es, userKey)[0] in es
    ensures OfKey(es, userKey)[0].0.userKey == userKey && OfKey(es, userKey)[0].0.seqNo >= e.0.seqNo
  {
    var versions := OfKey(es, userKey);
    OfKeyKnows(es, userKey, e);
    OfKeySorted(es, userKey);
    var j :| 0 <= j < |versions| && versions[j] == e;
    OfKeyKnows(es, userKey, versions[0]);
    if j > 0 { assert Less(versions[0].0, versions[j].0); }
  }

  /** Putting a version newer than all others of its row makes it the row's latest; other rows keep theirs. */
  lemma PutBecomesLatest(table: seq<Byte>, es: Versions, rowId: int, seqNo: nat, t: Tuple, other: int)
    requires Sorted(Less, es) && AllVersions(table, es) && seqNo <= MAX_SEQ
    requires IsRowId(rowId) && IsRowId(other)
    requires forall e | e in es && e.0.userKey == MakeUserKey(table, rowId) :: e.0.seqNo < seqNo
    ensures Latest(Upsert(Less, es, VersionKey(table, rowId, seqNo), t), MakeUserKey(table, other)) ==
            if other == rowId then Some(t) else Latest(es, MakeUserKey(table, other))
  {
    var e := (VersionKey(table, rowId, seqNo), t);
    var r := NewestRank(es, e);
    UserKeyOrder(table, other, rowId);
    WordsDiffer(other, rowId);
    if other == rowId {
      InsertFirst(es, r, e);
    } else {
      InsertElsewhere(es, r, e, MakeUserKey(table, other));
    }
  }

  /** A version newer than all others of its row goes in before all of them. */
  lemma NewestRank(es: Versions, e: (InternalKey, Tuple)) returns (r: nat)
    requires Sorted(Less, es) && forall x | x in es && x.0.userKey == e.0.userKey :: x.0.seqNo < e.0.seqNo
    ensures r <= |es| && Upsert(Less, es, e.0, e.1) == es[..r] + [e] + es[r..]
    ensures forall i | 0 <= i < r :: es[i].0.userKey != e.0.userKey
  {
    r := Rank(Less, es, e.0);
    assert r < |es| ==> es[r] in es;
    forall i | 0 <= i < r ensures es[i].0.userKey != e.0.userKey { assert es[i] in es && Less(es[i].0, e.0); }
  }

  lemma {:induction false} InsertFirst(es: Versions, r: nat, e: (InternalKey, Tuple))
    requires r <= |es| && forall i | 0 <= i < r :: es[i].0.userKey != e.0.userKey
    ensures OfKey(es[..r] + [e] + es[r..], e.0.userKey) == [e] + OfKey(es, e.0.userKey)
  {
    var out := es[..r] + [e] + es[r..];
    if r == 0 {
      assert out[1..] == es;
    } else {
      assert out[1..] == es[1..][..r - 1] + [e] + es[1..][r - 1..];
      InsertFirst(es[1..], r - 1, e);
    }
  }

  lemma {:induction false} InsertElsewhere(es: Versions, r: nat, e: (InternalKey, Tuple), userKey: seq<Byte>)
    requires r <= |es| && e.0.userKey != userKey
    ensures OfKey(es[..r] + [e] + es[r..], userKey) == OfKey(es, userKey)
  {
    var out := es[..r] + [e] + es[r..];
    if r == 0 {
      assert out[1..] == es;
    } else {
      assert out[1..] == es[1..][..r - 1] + [e] + es[1..][r - 1..];
      InsertElsewhere(es[1..], r - 1, e, userKey);
    }
  }

  /** Erasing a row's versions leaves no latest version of it and touches no other row. */
  lemma EraseForgetsOneRow(table: seq<Byte>, es: Versions, rowId: int, other: int)
    requires IsRowId(rowId) && IsRowId(other)
    ensures OfKey(NotOfKey(es, MakeUserKey(table, rowId)), MakeUserKey(table, other)) ==
            if other == rowId then [] else OfKey(es, MakeUserKey(table, other))
  {
    UserKeyOrder(table, other, rowId);
    WordsDiffer(other, rowId);
    DisjointKeys(es, MakeUserKey(table, rowId), MakeUserKey(table, other));
  }

  lemma {:induction false} DisjointKeys(es: Versions, uk: seq<Byte>, qk: seq<Byte>)
    ensures OfKey(NotOfKey(es, uk), qk) == if uk == qk then [] else OfKey(es, qk)
  {
    if es != [] {
      DisjointKeys(es[1..], uk, qk);
      if es[0].0.userKey == uk {
        assert NotOfKey(es, uk) == NotOfKey(es[1..], uk);
      } else {
        assert NotOfKey(es, uk)[1..] == NotOfKey(es[1..], uk);
      }
    }
  }

  // ---------- the table ----------

  predicate Purgeable(t: Tuple, log: CLog, oldest: Xid) {
    t.hdr.xmax != 0 && StatusOf(log, t.hdr.xmax) == Committed && t.hdr.xmax < oldest
  }

  function CountPurgeable(ts: seq<Tuple>, log: CLog, oldest: Xid): nat {
    if ts == [] then 0
    else CountPurgeable(ts[..|ts| - 1], log, oldest) + if Purgeable(ts[|ts| - 1], log, oldest) then 1 else 0
  }

  /** The versions counted: a deleter that is present, committed and below the oldest active transaction. */
  lemma {:induction false} CountExactly(ts: seq<Tuple>, log: CLog, oldest: Xid)
    ensures CountPurgeable(ts, log, oldest)
         == |set i | 0 <= i < |ts| && 0 != ts[i].hdr.xmax < oldest && ts[i].hdr.xmax in log && log[ts[i].hdr.xmax] == Committed|
  {
    var counted := set i | 0 <= i < |ts| && 0 != ts[i].hdr.xmax < oldest && ts[i].hdr.xmax in log && log[ts[i].hdr.xmax] == Committed;
    if ts == [] {
      assert counted == {};
    } else {
      var n := |ts| - 1;
      CountExactly(ts[..n], log, oldest);
      var most := ts[..n];
      var before := set i | 0 <= i < |most| && 0 != most[i].hdr.xmax < oldest && most[i].hdr.xmax in log && log[most[i].hdr.xmax] == Committed;
      assert counted == if Purgeable(ts[n], log, oldest) then before + {n} else before;
    }
  }

  /** What vacuum's header comment promises to leave. */
  function WithoutPurgeable(es: Versions, log: CLog, oldest: Xid): Versions {
    if es == [] then []
    else
      var last := es[|es| - 1];
      WithoutPurgeable(es[..|es| - 1], log, oldest) + if Purgeable(last.1, log, oldest) then [] else [last]
  }

  /** Since nothing is removed, the promise is kept exactly when the count is 0. */
  lemma PromiseKeptExactly(es: Versions, log: CLog, oldest: Xid)
    ensures WithoutPurgeable(es, log, oldest) == es <==> CountPurgeable(Values(es), log, oldest) == 0
  {
    PurgedLength(es, log, oldest);
  }

  lemma {:induction false} PurgedLength(es: Versions, log: CLog, oldest: Xid)
    ensures |WithoutPurgeable(es, log, oldest)| == |es| - CountPurgeable(Values(es), log, oldest)
    ensures CountPurgeable(Values(es), log, oldest) == 0 ==> WithoutPurgeable(es, log, oldest) == es
  {
    if es != [] {
      var most := es[..|es| - 1];
      PurgedLength(most, log, oldest);
      assert Values(es)[..|es| - 1] == Values(most);
      assert es == most + [es[|es| - 1]];
    }
  }

  class MemTable {
    const name: seq<Byte>
    const list: SkipList<InternalKey, Tuple>
    var maxRowId: int

    ghost predicate Valid()
      reads this, list, list.header, list.nodes
    {
      list.Valid() && list.lt == Less && AllVersions(name, list.contents)
    }

    constructor (name: seq<Byte>)
      ensures Valid() && this.name == name && list.contents == [] && maxRowId == 0
    {
      this.name := name;
      maxRowId := 0;
      list := new SkipList(Less, InternalKey([], 0), Tuple(Header(0, 0, 0), map[]));
    }

    method Put(rowId: int, t: Tuple, seqNo: nat)
      requires Valid() && IsRowId(rowId) && seqNo <= MAX_SEQ
      modifies this`maxRowId, list, list.header, list.nodes
      ensures Valid() && list.contents == Upsert(Less, old(list.contents), VersionKey(name, rowId, seqNo), t)
      ensures maxRowId == if rowId > old(maxRowId) then rowId else old(maxRowId)
    {
      LessIsOrder();
      UpsertKeeps(name, list.contents, rowId, seqNo, t);
      list.Put(VersionKey(name, rowId, seqNo), t);
      if rowId > maxRowId { maxRowId := rowId; }
    }

    method Tombstone(rowId: int, xmax: Xid, seqNo: nat)
      requires Valid() && IsRowId(rowId) && seqNo <= MAX_SEQ && xmax < 0x1_0000_0000
      modifies this`maxRowId, list, list.header, list.nodes
      ensures Valid()
      ensures list.contents ==
              Upsert(Less, old(list.contents), VersionKey(name, rowId, seqNo), Tuple(Header(INVALID, xmax, 0), map[]))
    {
      Put(rowId, Tuple(Header(INVALID, xmax, 0), map[]), seqNo);
    }

    method GetVersions(rowId: int) returns (out: seq<Tuple>)
      requires Valid() && IsRowId(rowId)
      ensures out == Values(OfKey(list.contents, MakeUserKey(name, rowId)))
    {
      LessIsOrder();
      IntervalIsOneRow(name, list.contents, rowId);
      out := list.Range(VersionKey(name, rowId, MAX_SEQ), VersionKey(name, rowId, 0));
    }

    method GetLatest(rowId: int) returns (out: Option<Tuple>)
      requires Valid() && IsRowId(rowId)
      ensures out == Latest(list.contents, MakeUserKey(name, rowId))
    {
      var versions := GetVersions(rowId);
      if versions == [] { return None; }
      out := Some(versions[0]);
    }

    method ScanAll() returns (out: seq<Tuple>)
      requires Valid()
      ensures out == Values(list.contents)
    {
      out := list.All();
    }

    method EraseAllFor(rowId: int) returns (erased: nat)
      requires Valid() && IsRowId(rowId)
      modifies list, list.header`next, list.nodes`next
      ensures Valid() && list.contents == NotOfKey(old(list.contents), MakeUserKey(name, rowId))
      ensures erased == |OfKey(old(list.contents), MakeUserKey(name, rowId))|
    {
      LessIsOrder();
      IntervalIsOneRow(name, list.contents, rowId);
      NotOfKeyKeeps(name, list.contents, MakeUserKey(name, rowId));
      erased := list.EraseRange(VersionKey(name, rowId, MAX_SEQ), VersionKey(name, rowId, 0));
    }

    /** Counts what could go; despite its name it removes nothing. */
    method Vacuum(log: CLog, oldest: Xid) returns (canPurge: nat)
      requires Valid()
      ensures canPurge == CountPurgeable(Values(list.contents), log, oldest)
    {
      var all := list.All();
      canPurge := 0;
      for i := 0 to |all|
        invariant canPurge == CountPurgeable(all[..i], log, oldest)
      {
        assert all[..i + 1][..i] == all[..i];
        var t := all[i];
        if t.hdr.xmax == 0 { continue; }
        if StatusOf(log, t.hdr.xmax) != Committed { continue; }
        if t.hdr.xmax >= oldest { continue; }
        canPurge := canPurge + 1;
      }
      assert all[..|all|] == all;
    }
  }

  lemma NotOfKeyKeeps(table: seq<Byte>, es: Versions, userKey: seq<Byte>)
    requires AllVersions(table, es)
    ensures AllVersions(table, NotOfKey(es, userKey))
  {
    var out := NotOfKey(es, userKey);
    forall i | 0 <= i < |out| ensures IsVersion(table, out[i].0) {
      OfKeyKnows(es, userKey, out[i]);
      var k :| 0 <= k < |es| && es[k] == out[i];
    }
  }
}
