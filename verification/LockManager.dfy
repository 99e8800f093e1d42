/** Table and key locks of transactions: one mutex, one condition variable, shared and exclusive modes. */
module LockManagers {
  import opened Mvcc

  datatype Mode = Shared | Exclusive

  datatype TargetKind = TableTarget | KeyTarget | CLogTarget

  datatype Target = Target(kind: TargetKind, name: string)

  datatype KeyLock = KeyLock(shared: int, hasExcl: bool, exclusiveXid: Xid) {
    predicate IsFree() { !(shared > 0) && !hasExcl }
  }

  datatype LockSet = LockSet(held: map<Target, Mode>, waiting: map<Target, Mode>) {
    predicate IsEmpty() { held == map[] && waiting == map[] }
  }

  /** The two maps the mutex protects. */
  datatype Locks = Locks(keys: map<Target, KeyLock>, txns: map<Xid, LockSet>)

  function Lookup(l: Locks, x: Xid): LockSet {
    if x in l.txns then l.txns[x] else LockSet(map[], map[])
  }

  function HeldBy(l: Locks, x: Xid): map<Target, Mode> { Lookup(l, x).held }

  predicate Holds(l: Locks, x: Xid, t: Target, m: Mode) {
    x in l.txns && t in l.txns[x].held && l.txns[x].held[t] == m
  }

  ghost function Holders(l: Locks, t: Target, m: Mode): set<Xid> {
    set x | x in l.txns && Holds(l, x, t, m)
  }

  function Entry(l: Locks, t: Target): KeyLock {
    if t in l.keys then l.keys[t] else KeyLock(0, false, INVALID)
  }

  ghost predicate Counts(k: KeyLock, shared: set<Xid>, exclusive: set<Xid>) {
    && k.shared == |shared|
    && exclusive == (if k.hasExcl then {k.exclusiveXid} else {})
    && (k.hasExcl ==> k.shared == 0)
    && (!k.hasExcl ==> k.exclusiveXid == INVALID)
  }

  /** The entry of key_states agrees with who holds what, and exists only for a held target. */
  ghost predicate Agrees(l: Locks, t: Target) {
    && (t in l.keys ==> !l.keys[t].IsFree())
    && Counts(Entry(l, t), Holders(l, t, Shared), Holders(l, t, Exclusive))
  }

  ghost predicate Sound(l: Locks) {
    && (forall t :: Agrees(l, t))
    && (forall x | x in l.txns :: !l.txns[x].IsEmpty() && l.txns[x].held.Keys !! l.txns[x].waiting.Keys)
  }

  // ---------- the state changes as functions ----------

  predicate CanGrant(l: Locks, t: Target, m: Mode) {
    t !in l.keys || (if m == Shared then !l.keys[t].hasExcl else l.keys[t].IsFree())
  }

  function Granted(l: Locks, x: Xid, t: Target, m: Mode): Locks {
    var k := if t in l.keys then l.keys[t] else KeyLock(0, false, INVALID);
    var s := Lookup(l, x);
    Locks(l.keys[t := if m == Shared then k.(shared := k.shared + 1) else k.(hasExcl := true, exclusiveXid := x)],
          l.txns[x := LockSet(s.held[t := m], s.waiting - {t})])
  }

  function Enqueued(l: Locks, x: Xid, t: Target, m: Mode): Locks {
    var s := Lookup(l, x);
    l.(txns := l.txns[x := s.(waiting := s.waiting[t := m])])
  }

  function Store(txns: map<Xid, LockSet>, x: Xid, s: LockSet): map<Xid, LockSet> {
    if s.IsEmpty() then txns - {x} else txns[x := s]
  }

  function GivenUp(l: Locks, x: Xid, t: Target): Locks {
    var s := Lookup(l, x);
    l.(txns := Store(l.txns, x, s.(waiting := s.waiting - {t})))
  }

  function Without(k: KeyLock, m: Mode): KeyLock {
    if m == Shared then k.(shared := k.shared - 1) else k.(hasExcl := false, exclusiveXid := INVALID)
  }

  /** The locks of x on the targets in gone released. */
  ghost function Released(l: Locks, x: Xid, gone: set<Target>): Locks {
    var s := Lookup(l, x);
    Locks(map t | t in l.keys && !(t in gone && t in s.held && Without(l.keys[t], s.held[t]).IsFree()) ::
            if t in gone && t in s.held then Without(l.keys[t], s.held[t]) else l.keys[t],
          if x in l.txns then Store(l.txns, x, s.(held := s.held - gone)) else l.txns)
  }

  // ---------- each change keeps the invariant ----------

  lemma GrantedHolders(l: Locks, x: Xid, t: Target, m: Mode, u: Target, n: Mode)
    requires t !in HeldBy(l, x)
    ensures Holders(Granted(l, x, t, m), u, n) == Holders(l, u, n) + (if u == t && n == m then {x} else {})
    ensures x !in Holders(l, t, n)
  {
  }

  lemma GrantedAgrees(l: Locks, x: Xid, t: Target, m: Mode, u: Target)
    requires Agrees(l, u) && CanGrant(l, t, m) && t !in HeldBy(l, x)
    ensures Agrees(Granted(l, x, t, m), u)
  {
    GrantedHolders(l, x, t, m, u, Shared);
    GrantedHolders(l, x, t, m, u, Exclusive);
    if u == t {
      var S, X := Holders(l, t, Shared), Holders(l, t, Exclusive);
      if m == Shared {
        assert Counts(Entry(l, t).(shared := Entry(l, t).shared + 1), S + {x}, X + {});
      } else {
        assert Counts(KeyLock(0, true, x), S + {}, X + {x});
      }
    }
  }

  /** A reader is let in exactly when nobody holds the target exclusively, a writer exactly when nobody holds it at all. */
  lemma CanGrantExactly(l: Locks, t: Target)
    requires Sound(l)
    ensures CanGrant(l, t, Shared) <==> forall x | x in l.txns && t in l.txns[x].held :: l.txns[x].held[t] == Shared
    ensures CanGrant(l, t, Exclusive) <==> forall x | x in l.txns :: t !in l.txns[x].held
  {
    var S, X := Holders(l, t, Shared), Holders(l, t, Exclusive);
    assert Agrees(l, t);
    assert forall x | x in l.txns && t in l.txns[x].held :: x in S || x in X;
    if exists x :: x in S {
      var x :| x in S;
      assert Holds(l, x, t, Shared) && S != {};
    } else {
      assert S == {};
    }
    if exists x :: x in X {
      var x :| x in X;
      assert Holds(l, x, t, Exclusive) && X != {};
    } else {
      assert X == {};
    }
  }

  /** A grant adds the lock to what its transaction holds, ends its waiting for it, and concerns nobody else. */
  lemma GrantedExactly(l: Locks, x: Xid, t: Target, m: Mode, y: Xid)
    ensures HeldBy(Granted(l, x, t, m), y) == if y == x then HeldBy(l, x)[t := m] else HeldBy(l, y)
    ensures Lookup(Granted(l, x, t, m), y).waiting == if y == x then Lookup(l, x).waiting - {t} else Lookup(l, y).waiting
  {
  }

  /** Granting keeps the invariant exactly when the transaction does not hold the target yet;
      the wait loop does not look again after its first check. */
  lemma GrantSoundExactly(l: Locks, x: Xid, t: Target, m: Mode)
    requires Sound(l) && CanGrant(l, t, m)
    ensures Sound(Granted(l, x, t, m)) <==> t !in HeldBy(l, x)
  {
    var l' := Granted(l, x, t, m);
    if t !in HeldBy(l, x) {
      forall u ensures Agrees(l', u) { GrantedAgrees(l, x, t, m, u); }
    } else {
      assert Agrees(l, t);
      assert x in Holders(l, t, HeldBy(l, x)[t]);
      assert Holders(l', t, Shared) == Holders(l, t, Shared);
      assert !Agrees(l', t);
    }
  }

  lemma EnqueuedSound(l: Locks, x: Xid, t: Target, m: Mode)
    requires Sound(l) && t !in HeldBy(l, x)
    ensures Sound(Enqueued(l, x, t, m))
  {
    var l' := Enqueued(l, x, t, m);
    forall u ensures Agrees(l', u) {
      assert Agrees(l, u);
      assert Holders(l', u, Shared) == Holders(l, u, Shared) && Holders(l', u, Exclusive) == Holders(l, u, Exclusive);
    }
    assert t in l'.txns[x].waiting;
  }

  lemma GivenUpSound(l: Locks, x: Xid, t: Target)
    requires Sound(l)
    ensures Sound(GivenUp(l, x, t))
  {
    var l' := GivenUp(l, x, t);
    forall u ensures Agrees(l', u) {
      assert Agrees(l, u);
      assert Holders(l', u, Shared) == Holders(l, u, Shared) && Holders(l', u, Exclusive) == Holders(l, u, Exclusive);
    }
  }

  lemma ReleasedHolds(l: Locks, x: Xid, gone: set<Target>, y: Xid, t: Target, m: Mode)
    ensures Holds(Released(l, x, gone), y, t, m) <==> Holds(l, y, t, m) && !(y == x && t in gone)
  {
    if x in l.txns && t in l.txns[x].held && t !in gone {
      assert t in l.txns[x].held - gone;
    }
  }

  lemma ReleasedHolders(l: Locks, x: Xid, gone: set<Target>, u: Target, m: Mode)
    ensures Holders(Released(l, x, gone), u, m) == Holders(l, u, m) - (if u in gone then {x} else {})
  {
    forall y ensures y in Holders(Released(l, x, gone), u, m) <==> y in Holders(l, u, m) && !(y == x && u in gone) {
      ReleasedHolds(l, x, gone, y, u, m);
    }
  }

  lemma ReleasedEntry(l: Locks, x: Xid, gone: set<Target>, u: Target)
    ensures Entry(Released(l, x, gone), u) ==
      if u in l.keys && u in gone && u in HeldBy(l, x)
      then (var k := Without(l.keys[u], HeldBy(l, x)[u]); if k.IsFree() then KeyLock(0, false, INVALID) else k)
      else Entry(l, u)
  {
  }

  lemma ReleasedCountsTaken(l: Locks, x: Xid, gone: set<Target>, u: Target)
    requires Agrees(l, u) && u in gone && u in HeldBy(l, x)
    ensures Counts(Entry(Released(l, x, gone), u), Holders(l, u, Shared) - {x}, Holders(l, u, Exclusive) - {x})
  {
    var m := HeldBy(l, x)[u];
    ReleasedEntry(l, x, gone, u);
    assert x in Holders(l, u, m);
    WithoutCounts(Entry(l, u), m, x, Holders(l, u, Shared), Holders(l, u, Exclusive));
  }

  lemma ReleasedCountsKept(l: Locks, x: Xid, gone: set<Target>, u: Target)
    requires Agrees(l, u) && !(u in gone && u in HeldBy(l, x))
    ensures Counts(Entry(Released(l, x, gone), u), Holders(l, u, Shared), Holders(l, u, Exclusive))
  {
    ReleasedEntry(l, x, gone, u);
  }

  lemma ReleasedAgrees(l: Locks, x: Xid, gone: set<Target>, u: Target)
    requires Agrees(l, u)
    ensures Agrees(Released(l, x, gone), u)
  {
    ReleasedNotFree(l, x, gone, u);
    if u in gone && u in HeldBy(l, x) {
      ReleasedCountsTaken(l, x, gone, u);
      ReleasedHolders(l, x, gone, u, Shared);
      ReleasedHolders(l, x, gone, u, Exclusive);
    } else {
      ReleasedCountsKept(l, x, gone, u);
      ReleasedHoldersKept(l, x, gone, u, Shared);
      ReleasedHoldersKept(l, x, gone, u, Exclusive);
    }
  }

  lemma ReleasedHoldersKept(l: Locks, x: Xid, gone: set<Target>, u: Target, m: Mode)
    requires !(u in gone && u in HeldBy(l, x))
    ensures Holders(Released(l, x, gone), u, m) == Holders(l, u, m)
  {
    ReleasedHolders(l, x, gone, u, m);
    assert u in gone ==> x !in Holders(l, u, m);
  }

  lemma ReleasedNotFree(l: Locks, x: Xid, gone: set<Target>, u: Target)
    requires u in l.keys ==> !l.keys[u].IsFree()
    ensures u in Released(l, x, gone).keys ==> !Released(l, x, gone).keys[u].IsFree()
  {
  }

  lemma WithoutCounts(k: KeyLock, m: Mode, x: Xid, shared: set<Xid>, exclusive: set<Xid>)
    requires Counts(k, shared, exclusive) && x in (if m == Shared then shared else exclusive)
    ensures var k' := Without(k, m);
            Counts(if k'.IsFree() then KeyLock(0, false, INVALID) else k', shared - {x}, exclusive - {x})
  {
    if m == Shared {
      assert exclusive == {} && exclusive - {x} == {};
    } else {
      assert shared == {} && shared - {x} == {};
    }
  }

  /** Releasing keeps the invariant, takes every named lock of x, and touches no lock of anybody else. */
  lemma ReleasedSound(l: Locks, x: Xid, gone: set<Target>)
    requires Sound(l)
    ensures Sound(Released(l, x, gone))
    ensures forall y, t, m :: Holds(Released(l, x, gone), y, t, m) <==> Holds(l, y, t, m) && !(y == x && t in gone)
    ensures forall y :: Lookup(Released(l, x, gone), y).waiting == Lookup(l, y).waiting
  {
    forall u ensures Agrees(Released(l, x, gone), u) { ReleasedAgrees(l, x, gone, u); }
    forall y, t, m
      ensures Holds(Released(l, x, gone), y, t, m) <==> Holds(l, y, t, m) && !(y == x && t in gone)
    {
      ReleasedHolds(l, x, gone, y, t, m);
    }
  }

  lemma ReleasedNothing(l: Locks, x: Xid)
    requires Sound(l)
    ensures Released(l, x, {}) == l
  {
    assert Lookup(l, x).held - {} == Lookup(l, x).held;
  }

  // ---------- the object ----------

  datatype Outcome = Acquired | UpgradeRefused | Asleep | TimedOut

  class LockManager {
    var keys: map<Target, KeyLock>
    var txns: map<Xid, LockSet>

    function Value(): Locks
      reads this
    {
      Locks(keys, txns)
    }

    constructor ()
      ensures Value() == Locks(map[], map[]) && Sound(Value())
    {
      keys, txns := map[], map[];
      new;
      assert forall t :: Holders(Value(), t, Shared) == {} && Holders(Value(), t, Exclusive) == {};
    }

    /** One lap of the wait loop, under the mutex. */
    method Lap(x: Xid, t: Target, m: Mode, expired: bool) returns (o: Outcome)
      requires Sound(Value()) && t !in HeldBy(Value(), x)
      modifies this
      ensures Sound(Value())
      ensures o == if old(CanGrant(Value(), t, m)) then Acquired else if expired then TimedOut else Asleep
      ensures o == Acquired ==> Value() == Granted(old(Value()), x, t, m)
      ensures o == Asleep ==> Value() == Enqueued(old(Value()), x, t, m)
      ensures o == TimedOut ==> Value() == GivenUp(Enqueued(old(Value()), x, t, m), x, t)
    {
      ghost var was := Value();
      var present := t in keys;
      var canGrant := if m == Shared then !present || !keys[t].hasExcl else !present || keys[t].IsFree();
      if canGrant {
        var k := if present then keys[t] else KeyLock(0, false, INVALID);
        if m == Shared {
          k := k.(shared := k.shared + 1);
        } else {
          k := k.(hasExcl := true, exclusiveXid := x);
        }
        var s := if x in txns then txns[x] else LockSet(map[], map[]);
        keys := keys[t := k];
        txns := txns[x := LockSet(s.held[t := m], s.waiting - {t})];
        GrantSoundExactly(was, x, t, m);
        return Acquired;
      }
      var s := if x in txns then txns[x] else LockSet(map[], map[]);
      s := s.(waiting := s.waiting[t := m]);
      txns := txns[x := s];
      EnqueuedSound(was, x, t, m);
      if !expired { return Asleep; }
      GivenUpSound(Value(), x, t);
      s := s.(waiting := s.waiting - {t});
      txns := if s.held == map[] && s.waiting == map[] then txns - {x} else txns[x := s];
      return TimedOut;
    }

    /** The first mutex section of acquire: the re-entry check, then one lap. */
    method Enter(x: Xid, t: Target, m: Mode) returns (o: Outcome)
      requires Sound(Value())
      modifies this
      ensures Sound(Value())
      ensures o == UpgradeRefused <==> old(Holds(Value(), x, t, Shared)) && m == Exclusive
      ensures t in HeldBy(old(Value()), x) ==> Value() == old(Value()) && (o == UpgradeRefused || o == Acquired)
      ensures t !in HeldBy(old(Value()), x) ==>
                if old(CanGrant(Value(), t, m)) then o == Acquired && Value() == Granted(old(Value()), x, t, m)
                else o == Asleep && Value() == Enqueued(old(Value()), x, t, m)
    {
      if x in txns && t in txns[x].held {
        if txns[x].held[t] == Shared && m == Exclusive { return UpgradeRefused; }
        return Acquired;
      }
      o := Lap(x, t, m, false);
    }

    method ReleaseLocked(x: Xid, t: Target, m: Mode)
      requires Agrees(Value(), t)
      modifies this
      ensures Value() == if Holds(old(Value()), x, t, m) then Released(old(Value()), x, {t}) else old(Value())
    {
      if t !in keys || x !in txns || t !in txns[x].held || txns[x].held[t] != m {
        assert Holds(Value(), x, t, m) ==> x in Holders(Value(), t, m);
        return;
      }
      var k := if m == Shared then keys[t].(shared := keys[t].shared - 1)
               else keys[t].(hasExcl := false, exclusiveXid := INVALID);
      var s := txns[x].(held := txns[x].held - {t});
      txns := if s.held == map[] && s.waiting == map[] then txns - {x} else txns[x := s];
      keys := if k.IsFree() then keys - {t} else keys[t := k];
    }

    method ReleaseAll(x: Xid)
      requires Sound(Value())
      modifies this
      ensures Sound(Value())
      ensures Value() == Released(old(Value()), x, HeldBy(old(Value()), x).Keys)
    {
      if x !in txns {
        return;
      }
      ghost var was := Value();
      var held := txns[x].held;
      var rest := held.Keys;
      ReleasedNothing(was, x);
      assert held.Keys - rest == {};
      while rest != {}
        invariant rest <= held.Keys && Sound(Value()) && held == HeldBy(was, x)
        invariant Value() == Released(was, x, held.Keys - rest)
        decreases rest
      {
        var t :| t in rest;
        ReleasedSound(was, x, held.Keys - rest);
        ReleasedTwice(was, x, held.Keys - rest, {t});
        ReleasedSound(Value(), x, {t});
        assert held.Keys - rest + {t} == held.Keys - (rest - {t});
        assert Holds(was, x, t, held[t]) && Holds(Value(), x, t, held[t]);
        assert Agrees(Value(), t);
        ReleaseLocked(x, t, held[t]);
        rest := rest - {t};
      }
      assert held.Keys - rest == held.Keys;
    }
  }

  lemma ReleasedTwice(l: Locks, x: Xid, a: set<Target>, b: set<Target>)
    requires Sound(l) && a !! b
    ensures Released(Released(l, x, a), x, b) == Released(l, x, a + b)
  {
    var s := Lookup(l, x);
    assert s.held - a - b == s.held - (a + b);
    assert Lookup(Released(l, x, a), x).held == s.held - a;
  }
}

/** Runs of many transactions taking, awaiting and releasing locks; a transaction awaits at most one at a time. */
module LockRuns {
  import opened Mvcc
  import opened LockManagers

  /** asleep: transactions waiting on the condition variable; notifies: releases that have yet to notify. */
  datatype State = State(locks: Locks, asleep: set<Xid>, notifies: nat)

  datatype Event =
    | Enter(x: Xid, t: Target, m: Mode)
    | Wake(x: Xid)
    | Retry(x: Xid, t: Target, expired: bool)
    | Release(x: Xid)
    | Notify

  predicate Waits(l: Locks, x: Xid, t: Target) {
    t in Lookup(l, x).waiting
  }

  ghost predicate Step(s: State, e: Event, s': State) {
    match e
    case Enter(x, t, m) =>
      && Lookup(s.locks, x).waiting == map[]
      && if t in HeldBy(s.locks, x) then s' == s
         else if CanGrant(s.locks, t, m) then s' == s.(locks := Granted(s.locks, x, t, m))
         else s' == s.(locks := Enqueued(s.locks, x, t, m), asleep := s.asleep + {x})
    case Wake(x) => s' == s.(asleep := s.asleep - {x})
    case Retry(x, t, expired) =>
      && Waits(s.locks, x, t) && x !in s.asleep
      && var m := Lookup(s.locks, x).waiting[t];
         if CanGrant(s.locks, t, m) then s' == s.(locks := Granted(s.locks, x, t, m))
         else if expired then s' == s.(locks := GivenUp(Enqueued(s.locks, x, t, m), x, t))
         else s' == s.(locks := Enqueued(s.locks, x, t, m), asleep := s.asleep + {x})
    case Release(x) =>
      // a transaction without an entry returns before it would notify
      s' == State(Released(s.locks, x, HeldBy(s.locks, x).Keys), s.asleep, s.notifies + if x in s.locks.txns then 1 else 0)
    case Notify => s.notifies > 0 && s' == State(s.locks, {}, s.notifies - 1)
  }

  /** A sleeper's request is blocked, unless a notification is still to come. */
  ghost predicate SleepersBlocked(s: State) {
    s.notifies == 0 ==> forall x, t | x in s.asleep && Waits(s.locks, x, t) ::
      !CanGrant(s.locks, t, Lookup(s.locks, x).waiting[t])
  }

  ghost predicate OneWait(s: State) {
    forall x, t, u | Waits(s.locks, x, t) && Waits(s.locks, x, u) :: t == u
  }

  lemma StepSound(s: State, e: Event, s': State)
    requires Sound(s.locks) && Step(s, e, s')
    ensures Sound(s'.locks)
  {
    match e
    case Enter(x, t, m) =>
      if t !in HeldBy(s.locks, x) {
        if CanGrant(s.locks, t, m) { GrantSoundExactly(s.locks, x, t, m); } else { EnqueuedSound(s.locks, x, t, m); }
      }
    case Retry(x, t, _) =>
      var m := Lookup(s.locks, x).waiting[t];
      assert t !in HeldBy(s.locks, x);
      if CanGrant(s.locks, t, m) {
        GrantSoundExactly(s.locks, x, t, m);
      } else {
        EnqueuedSound(s.locks, x, t, m);
        GivenUpSound(Enqueued(s.locks, x, t, m), x, t);
      }
    case Release(x) => ReleasedSound(s.locks, x, HeldBy(s.locks, x).Keys);
    case Wake(_) =>
    case Notify =>
  }

  /** What each event does to the outstanding requests. */
  lemma StepWaits(s: State, e: Event, s': State, y: Xid, u: Target)
    requires Sound(s.locks) && Step(s, e, s')
    ensures Waits(s'.locks, y, u) <==>
      match e
      case Enter(x, t, m) => Waits(s.locks, y, u) || (y == x && u == t && t !in HeldBy(s.locks, x) && !CanGrant(s.locks, t, m))
      case Retry(x, t, expired) =>
        Waits(s.locks, y, u) && !(y == x && u == t && (expired || CanGrant(s.locks, t, Lookup(s.locks, x).waiting[t])))
      case _ => Waits(s.locks, y, u)
    ensures Waits(s.locks, y, u) && Waits(s'.locks, y, u) ==> Lookup(s'.locks, y).waiting[u] == Lookup(s.locks, y).waiting[u]
  {
    match e
    case Release(x) => ReleasedSound(s.locks, x, HeldBy(s.locks, x).Keys);
    case Enter(_, _, _) =>
    case Retry(_, _, _) =>
    case Wake(_) =>
    case Notify =>
  }

  lemma StepOneWait(s: State, e: Event, s': State)
    requires Sound(s.locks) && OneWait(s) && Step(s, e, s')
    ensures OneWait(s')
  {
    forall x, t, u | Waits(s'.locks, x, t) && Waits(s'.locks, x, u)
      ensures t == u
    {
      StepWaits(s, e, s', x, t);
      StepWaits(s, e, s', x, u);
    }
  }

  /** Nothing but a release by a transaction with an entry can unblock a request. */
  lemma StaysBlocked(s: State, e: Event, s': State, t: Target, m: Mode)
    requires Sound(s.locks) && Step(s, e, s') && (e.Release? ==> e.x !in s.locks.txns) && !CanGrant(s.locks, t, m)
    ensures !CanGrant(s'.locks, t, m)
  {
    assert Agrees(s.locks, t);
    if e.Release? { ReleasedNothing(s.locks, e.x); }
  }

  lemma StepBlocked(s: State, e: Event, s': State)
    requires Sound(s.locks) && OneWait(s) && SleepersBlocked(s) && Step(s, e, s')
    ensures SleepersBlocked(s')
  {
    if s'.notifies == 0 && !e.Notify? {
      forall x, t | x in s'.asleep && Waits(s'.locks, x, t)
        ensures !CanGrant(s'.locks, t, Lookup(s'.locks, x).waiting[t])
      {
        StepWaits(s, e, s', x, t);
        SleeperStaysBlocked(s, e, s', x, t);
      }
    }
  }

  lemma SleeperStaysBlocked(s: State, e: Event, s': State, x: Xid, t: Target)
    requires Sound(s.locks) && OneWait(s) && SleepersBlocked(s) && Step(s, e, s') && s'.notifies == 0 && !e.Notify?
    requires x in s'.asleep && Waits(s'.locks, x, t)
    requires Waits(s.locks, x, t) ==> Lookup(s'.locks, x).waiting[t] == Lookup(s.locks, x).waiting[t]
    ensures !CanGrant(s'.locks, t, Lookup(s'.locks, x).waiting[t])
  {
    var m := Lookup(s'.locks, x).waiting[t];
    if x in s.asleep && Waits(s.locks, x, t) {
      StaysBlocked(s, e, s', t, m);
    } else if e.Retry? && Waits(s.locks, x, t) {
      assert Waits(s.locks, x, e.t);
    }
  }

  ghost predicate IsRun(ev: seq<Event>, st: seq<State>) {
    && |st| == |ev| + 1
    && st[0] == State(Locks(map[], map[]), {}, 0)
    && forall i, j | 0 <= i < |ev| && j == i + 1 :: Step(st[i], ev[i], st[j])
  }

  /** Safety over every run: the counts are right, shared and exclusive never coexist, no empty entry stays,
      and no sleeper has been overlooked. */
  lemma {:induction false} RunIsSafe(ev: seq<Event>, st: seq<State>, n: nat)
    requires IsRun(ev, st) && n <= |ev|
    ensures Sound(st[n].locks) && OneWait(st[n]) && SleepersBlocked(st[n])
  {
    if n == 0 {
      assert forall t :: Holders(st[0].locks, t, Shared) == {} && Holders(st[0].locks, t, Exclusive) == {};
    } else {
      RunIsSafe(ev, st, n - 1);
      StepSound(st[n - 1], ev[n - 1], st[n]);
      StepOneWait(st[n - 1], ev[n - 1], st[n]);
      StepBlocked(st[n - 1], ev[n - 1], st[n]);
    }
  }

  /** Whoever holds a target exclusively is its only holder. */
  lemma ExclusiveIsAlone(ev: seq<Event>, st: seq<State>, n: nat, x: Xid, y: Xid, t: Target, m: Mode)
    requires IsRun(ev, st) && n <= |ev|
    requires Holds(st[n].locks, x, t, Exclusive) && Holds(st[n].locks, y, t, m)
    ensures x == y
  {
    RunIsSafe(ev, st, n);
    var l := st[n].locks;
    assert Agrees(l, t) && x in Holders(l, t, Exclusive) && y in Holders(l, t, m);
  }

  /** Ending a transaction's handle changes no other transaction's locks. */
  lemma ReleaseIsLocal(ev: seq<Event>, st: seq<State>, n: nat, y: Xid, t: Target, m: Mode)
    requires IsRun(ev, st) && n < |ev| && ev[n].Release?
    ensures Holds(st[n + 1].locks, y, t, m) <==> y != ev[n].x && Holds(st[n].locks, y, t, m)
  {
    RunIsSafe(ev, st, n);
    var j := n + 1;
    assert Step(st[n], ev[n], st[j]);
    ReleasedSound(st[n].locks, ev[n].x, HeldBy(st[n].locks, ev[n].x).Keys);
  }
}
