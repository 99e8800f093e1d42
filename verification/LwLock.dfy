/** The lightweight lock as a step system: mutex, two condition variables, and two atomics.
    The reader's decrement happens outside the mutex, so checking and falling asleep are separate steps. */
module LwLock {

  /** Where a thread stands; the ones marked (m) hold the mutex. */
  datatype Pc =
    | Idle
    | WantS | CheckS /*m*/ | ToSleepS /*m*/ | SleepS
    | TryS | WantTryS | CheckTryS /*m*/
    | AddS /*m*/ | HoldS | LastReaderGone
    | WantX(woken: bool) | CheckX(woken: bool) /*m*/ | ToSleepX /*m*/ | SleepX
    | WantTryX | CheckTryX /*m*/
    | StoreX(woken: bool) /*m*/ | HoldX | WakeReaders | WakeWriter

  datatype State = State(pc: seq<Pc>, mutex: int, sharedCount: int, exclusive: bool)

  const FREE: int := -1

  predicate HoldsMutex(p: Pc) {
    p.CheckS? || p.ToSleepS? || p.CheckTryS? || p.AddS? || p.CheckX? || p.ToSleepX? || p.CheckTryX? || p.StoreX?
  }

  function Move(s: State, t: nat, p: Pc): State
    requires t < |s.pc|
  {
    s.(pc := s.pc[t := p])
  }

  /** Taking the mutex, which must be free. */
  predicate Lock(s: State, t: nat, p: Pc, s': State)
    requires t < |s.pc|
  {
    s.mutex == FREE && s' == Move(s, t, p).(mutex := t)
  }

  function Unlock(s: State, t: nat, p: Pc): State
    requires t < |s.pc|
  {
    Move(s, t, p).(mutex := FREE)
  }

  function WakeAll(pc: seq<Pc>): (r: seq<Pc>)
    ensures |r| == |pc| && forall i | 0 <= i < |pc| :: r[i] == if pc[i] == SleepS then WantS else pc[i]
  {
    if pc == [] then [] else WakeAll(pc[..|pc| - 1]) + [if pc[|pc| - 1] == SleepS then WantS else pc[|pc| - 1]]
  }

  /** notify_one on the writers' condition variable: w is the sleeper chosen, if there is one. */
  predicate WakeOne(pc: seq<Pc>, w: nat, pc': seq<Pc>) {
    if SleepX in pc then w < |pc| && pc[w] == SleepX && pc' == pc[w := WantX(true)] else pc' == pc
  }

  /** One step of thread t. */
  predicate Step(s: State, t: nat, w: nat, s': State) {
    t < |s.pc| &&
    match s.pc[t]
    case Idle => s' == Move(s, t, WantS) || s' == Move(s, t, TryS) || s' == Move(s, t, WantX(false)) || s' == Move(s, t, WantTryX)
    // lock_shared
    case WantS => Lock(s, t, CheckS, s')
    case CheckS => s' == Move(s, t, if s.exclusive then ToSleepS else AddS)
    case ToSleepS => s' == Unlock(s, t, SleepS)
    case SleepS => s' == Move(s, t, WantS)
    case AddS => s' == Unlock(s, t, HoldS).(sharedCount := s.sharedCount + 1)
    // try_lock_shared
    case TryS => s' == Move(s, t, if s.exclusive then Idle else WantTryS)
    case WantTryS => Lock(s, t, CheckTryS, s')
    case CheckTryS => s' == if s.exclusive then Unlock(s, t, Idle) else Move(s, t, AddS)
    // unlock_shared
    case HoldS => s' == Move(s, t, if s.sharedCount == 1 then LastReaderGone else Idle).(sharedCount := s.sharedCount - 1)
    case LastReaderGone => s.mutex == FREE && WakeOne(s.pc[t := Idle], w, s'.pc) && s' == s.(pc := s'.pc)
    // lock_exclusive
    case WantX(k) => Lock(s, t, CheckX(k), s')
    case CheckX(k) => s' == Move(s, t, if s.sharedCount == 0 && !s.exclusive then StoreX(k) else ToSleepX)
    case ToSleepX => s' == Unlock(s, t, SleepX)
    case SleepX => s' == Move(s, t, WantX(true))
    case StoreX(_) => s' == Unlock(s, t, HoldX).(exclusive := true)
    // try_lock_exclusive
    case WantTryX => Lock(s, t, CheckTryX, s')
    case CheckTryX => s' == if s.sharedCount > 0 || s.exclusive then Unlock(s, t, Idle) else Move(s, t, StoreX(false))
    // unlock_exclusive
    case HoldX => s.mutex == FREE && s' == Move(s, t, WakeReaders).(exclusive := false)
    case WakeReaders => s' == s.(pc := WakeAll(s.pc)[t := WakeWriter])
    case WakeWriter => WakeOne(s.pc[t := Idle], w, s'.pc) && s' == s.(pc := s'.pc)
  }

  // ---------- invariants ----------

  ghost predicate MutexInv(s: State) {
    && (s.mutex == FREE || 0 <= s.mutex < |s.pc|)
    && forall t | 0 <= t < |s.pc| :: HoldsMutex(s.pc[t]) <==> s.mutex == t
  }

  function Readers(pc: seq<Pc>): set<nat> {
    set t | 0 <= t < |pc| && pc[t] == HoldS
  }

  function Writers(pc: seq<Pc>): set<nat> {
    set t | 0 <= t < |pc| && pc[t] == HoldX
  }

  /** The counter is the number of holders, and a writer excludes everybody else. */
  ghost predicate ExclusionInv(s: State) {
    && s.sharedCount == |Readers(s.pc)|
    && |Writers(s.pc)| == (if s.exclusive then 1 else 0)
    && (s.exclusive ==> s.sharedCount == 0)
  }

  /** What a thread inside the mutex has found out stays true until it acts on it. */
  ghost predicate DecidedInv(s: State) {
    forall t | 0 <= t < |s.pc| ::
      && (s.pc[t] == AddS ==> !s.exclusive)
      && (s.pc[t].StoreX? ==> !s.exclusive && s.sharedCount == 0)
  }

  /** A writer has been woken to take the lock, or somebody is about to wake one. */
  predicate Promises(p: Pc) {
    p == LastReaderGone || p == WakeReaders || p == WakeWriter || p == WantX(true) || p == CheckX(true) || p == StoreX(true)
  }

  ghost predicate Promised(s: State) {
    exists t :: 0 <= t < |s.pc| && Promises(s.pc[t])
  }

  ghost predicate WriterWakeInv(s: State) {
    && (s.sharedCount == 0 && !s.exclusive && SleepX in s.pc ==> Promised(s))
    // a writer that found the lock taken has not gone to sleep yet: the last reader's wakeup is still to come
    && (s.sharedCount == 0 && !s.exclusive && ToSleepX in s.pc ==> LastReaderGone in s.pc)
  }

  ghost predicate ReaderWakeInv(s: State) {
    && (ToSleepS in s.pc ==> s.exclusive)
    && (SleepS in s.pc && !s.exclusive ==> WakeReaders in s.pc)
  }

  ghost predicate Inv(s: State) {
    MutexInv(s) && ExclusionInv(s) && DecidedInv(s) && WriterWakeInv(s) && ReaderWakeInv(s)
  }

  /** A step leaves every other thread where it is, or wakes it. */
  ghost predicate OthersStay(s: State, t: nat, s': State) {
    && |s'.pc| == |s.pc|
    && forall u | 0 <= u < |s.pc| && u != t ::
         s'.pc[u] == s.pc[u] || (s.pc[u] == SleepS && s'.pc[u] == WantS) || (s.pc[u] == SleepX && s'.pc[u] == WantX(true))
  }

  lemma StepOthers(s: State, t: nat, w: nat, s': State)
    requires Step(s, t, w, s')
    ensures OthersStay(s, t, s')
  {
  }

  lemma StepMutex(s: State, t: nat, w: nat, s': State)
    requires Step(s, t, w, s') && (HoldsMutex(s.pc[t]) <==> s.mutex == t)
    requires |s'.pc| == |s.pc|
    ensures HoldsMutex(s'.pc[t]) <==> s'.mutex == t
    ensures s'.mutex == s.mutex || (s.mutex == FREE && s'.mutex == t) || (s.mutex == t && s'.mutex == FREE)
  {
  }

  lemma MutexFromShape(s: State, t: nat, s': State)
    requires MutexInv(s) && t < |s.pc| && OthersStay(s, t, s')
    requires HoldsMutex(s'.pc[t]) <==> s'.mutex == t
    requires s'.mutex == s.mutex || (s.mutex == FREE && s'.mutex == t) || (s.mutex == t && s'.mutex == FREE)
    ensures MutexInv(s')
  {
  }

  lemma MutexKept(s: State, t: nat, w: nat, s': State)
    requires MutexInv(s) && Step(s, t, w, s')
    ensures MutexInv(s') && |s'.pc| == |s.pc|
  {
    StepOthers(s, t, w, s');
    StepMutex(s, t, w, s');
    MutexFromShape(s, t, s');
  }

  /** Only HoldS and AddS steps change the set of readers. */
  lemma ReadersStep(s: State, t: nat, w: nat, s': State)
    requires Step(s, t, w, s')
    ensures Readers(s'.pc) == if s.pc[t] == AddS then Readers(s.pc) + {t}
                              else if s.pc[t] == HoldS then Readers(s.pc) - {t} else Readers(s.pc)
    ensures s.pc[t] == HoldS <==> t in Readers(s.pc)
  {
  }

  /** Only HoldX and StoreX steps change the set of writers. */
  lemma WritersStep(s: State, t: nat, w: nat, s': State)
    requires Step(s, t, w, s')
    ensures Writers(s'.pc) == if s.pc[t].StoreX? then Writers(s.pc) + {t}
                              else if s.pc[t] == HoldX then Writers(s.pc) - {t} else Writers(s.pc)
    ensures s.pc[t] == HoldX <==> t in Writers(s.pc)
  {
  }

  lemma StepCounts(s: State, t: nat, w: nat, s': State)
    requires Step(s, t, w, s')
    ensures s'.sharedCount == s.sharedCount + (if s.pc[t] == AddS then 1 else if s.pc[t] == HoldS then -1 else 0)
    ensures s'.exclusive == (s.pc[t].StoreX? || (s.exclusive && s.pc[t] != HoldX))
  {
  }

  lemma ExclusionKept(s: State, t: nat, w: nat, s': State)
    requires ExclusionInv(s) && DecidedInv(s) && Step(s, t, w, s')
    ensures ExclusionInv(s')
  {
    ReadersStep(s, t, w, s');
    WritersStep(s, t, w, s');
    StepCounts(s, t, w, s');
    ExclusionFromCounts(s, t, s');
  }

  lemma ExclusionFromCounts(s: State, t: nat, s': State)
    requires ExclusionInv(s) && DecidedInv(s) && t < |s.pc|
    requires Readers(s'.pc) == if s.pc[t] == AddS then Readers(s.pc) + {t}
                               else if s.pc[t] == HoldS then Readers(s.pc) - {t} else Readers(s.pc)
    requires Writers(s'.pc) == if s.pc[t].StoreX? then Writers(s.pc) + {t}
                               else if s.pc[t] == HoldX then Writers(s.pc) - {t} else Writers(s.pc)
    requires s'.sharedCount == s.sharedCount + (if s.pc[t] == AddS then 1 else if s.pc[t] == HoldS then -1 else 0)
    requires s'.exclusive == (s.pc[t].StoreX? || (s.exclusive && s.pc[t] != HoldX))
    ensures ExclusionInv(s')
  {
    assert s.pc[t] == HoldS <==> t in Readers(s.pc);
    assert s.pc[t] == HoldX <==> t in Writers(s.pc);
  }

  lemma DecidedKept(s: State, t: nat, w: nat, s': State)
    requires MutexInv(s) && ExclusionInv(s) && DecidedInv(s) && Step(s, t, w, s')
    ensures DecidedInv(s')
  {
    ReadersStep(s, t, w, s');
    if s.pc[t] == HoldS {
      assert s.sharedCount > 0;
    }
  }

  lemma WriterWakeKept(s: State, t: nat, w: nat, s': State)
    requires Inv(s) && Step(s, t, w, s')
    ensures WriterWakeInv(s')
  {
    ReadersStep(s, t, w, s');
    SleepyWriterKept(s, t, w, s');
    if s'.sharedCount == 0 && !s'.exclusive && SleepX in s'.pc {
      if s.pc[t] == HoldS || s.pc[t] == HoldX {
        assert Promises(s'.pc[t]);
      } else if s.pc[t] == LastReaderGone || s.pc[t] == WakeWriter {
        assert Promises(s'.pc[w]);
      } else if s.pc[t] == ToSleepX {
        var x: nat :| x < |s.pc| && s.pc[x] == LastReaderGone;
        assert Promises(s'.pc[x]);
      } else {
        var x: nat :| x < |s.pc| && Promises(s.pc[x]);
        PromiseStays(s, t, w, s', x);
      }
    }
  }

  lemma SleepyWriterKept(s: State, t: nat, w: nat, s': State)
    requires Inv(s) && Step(s, t, w, s')
    requires s.pc[t] == AddS || s.pc[t] == HoldS || s'.sharedCount == s.sharedCount
    ensures s'.sharedCount == 0 && !s'.exclusive && ToSleepX in s'.pc ==> LastReaderGone in s'.pc
  {
    if s'.sharedCount == 0 && !s'.exclusive && ToSleepX in s'.pc {
      var y: nat :| y < |s'.pc| && s'.pc[y] == ToSleepX;
      if s.pc[t] == HoldS {
        assert s'.pc[t] == LastReaderGone;
      } else {
        assert s.pc[y] == ToSleepX && s.mutex == y;
        var x: nat :| x < |s.pc| && s.pc[x] == LastReaderGone;
        assert s'.pc[x] == LastReaderGone;
      }
    }
  }

  lemma PromiseStays(s: State, t: nat, w: nat, s': State, x: nat)
    requires Step(s, t, w, s') && x < |s.pc| && Promises(s.pc[x])
    requires s.pc[t] != LastReaderGone && s.pc[t] != WakeWriter
    requires s.sharedCount == 0 && !s.exclusive && !s'.exclusive
    ensures Promised(s')
  {
    assert |s'.pc| == |s.pc| && Promises(s'.pc[x]);
  }

  lemma ReaderWakeKept(s: State, t: nat, w: nat, s': State)
    requires Inv(s) && Step(s, t, w, s')
    ensures ReaderWakeInv(s')
  {
    if SleepS in s'.pc && !s'.exclusive {
      match s.pc[t] {
        case HoldX => assert s'.pc[t] == WakeReaders;
        case WakeReaders =>
        case _ => ReaderPromiseStays(s, t, w, s');
      }
    }
  }

  lemma ReaderPromiseStays(s: State, t: nat, w: nat, s': State)
    requires Inv(s) && Step(s, t, w, s') && s.pc[t] != HoldX && s.pc[t] != WakeReaders
    requires SleepS in s'.pc && !s'.exclusive
    ensures WakeReaders in s'.pc
  {
    assert SleepS in s.pc;
    var x: nat :| x < |s.pc| && s.pc[x] == WakeReaders;
    assert s'.pc[x] == WakeReaders;
  }

  function Start(threads: nat): State {
    State(seq(threads, i => Idle), FREE, 0, false)
  }

  ghost predicate Next(s: State, s': State) {
    exists t, w :: Step(s, t, w, s')
  }

  ghost predicate IsRun(threads: nat, st: seq<State>) {
    && |st| > 0 && st[0] == Start(threads)
    && forall i, j | 0 <= i && j == i + 1 && j < |st| :: Next(st[i], st[j])
  }

  lemma {:induction false} RunKeepsInv(threads: nat, st: seq<State>, n: nat)
    requires IsRun(threads, st) && n < |st|
    ensures Inv(st[n]) && |st[n].pc| == threads
  {
    if n == 0 {
      assert Readers(st[0].pc) == {} && Writers(st[0].pc) == {};
    } else {
      RunKeepsInv(threads, st, n - 1);
      assert Next(st[n - 1], st[n]);
      var t, w :| Step(st[n - 1], t, w, st[n]);
      MutexKept(st[n - 1], t, w, st[n]);
      ExclusionKept(st[n - 1], t, w, st[n]);
      DecidedKept(st[n - 1], t, w, st[n]);
      WriterWakeKept(st[n - 1], t, w, st[n]);
      ReaderWakeKept(st[n - 1], t, w, st[n]);
    }
  }

  // ---------- what the lock promises ----------

  /**
   * A reader that looks goes in exactly when nobody holds the lock exclusively, a writer exactly when nobody holds it at
   * all, waiting or trying alike; once it has decided to, its next step makes it a holder.
   */
  lemma EntersExactly(s: State, t: nat, w: nat, s': State)
    requires Inv(s) && Step(s, t, w, s')
    ensures s.pc[t] == CheckS || s.pc[t] == CheckTryS ==> (s'.pc[t] == AddS <==> forall u | 0 <= u < |s.pc| :: s.pc[u] != HoldX)
    ensures s.pc[t].CheckX? || s.pc[t] == CheckTryX ==>
              (s'.pc[t].StoreX? <==> forall u | 0 <= u < |s.pc| :: s.pc[u] != HoldX && s.pc[u] != HoldS)
    ensures s.pc[t] == AddS ==> s'.pc[t] == HoldS
    ensures s.pc[t].StoreX? ==> s'.pc[t] == HoldX
    ensures s.pc[t] == HoldS || s.pc[t] == HoldX ==> s'.pc[t] != s.pc[t]
  {
    NoneInside(Readers(s.pc), s.pc, HoldS);
    NoneInside(Writers(s.pc), s.pc, HoldX);
  }

  lemma NoneInside(inside: set<nat>, pc: seq<Pc>, p: Pc)
    requires forall u: nat :: u in inside <==> u < |pc| && pc[u] == p
    ensures |inside| == 0 <==> forall u | 0 <= u < |pc| :: pc[u] != p
  {
    if inside != {} {
      var u: nat :| u in inside;
      assert pc[u] == p;
    }
    if |inside| > 0 { assert inside != {}; }
  }

  /** In every run: a writer is alone, and the counter counts the readers. */
  lemma MutualExclusion(threads: nat, st: seq<State>, n: nat, t: nat, u: nat)
    requires IsRun(threads, st) && n < |st|
    requires t < threads && u < threads && t != u
    ensures |st[n].pc| == threads && st[n].sharedCount == |Readers(st[n].pc)|
    ensures st[n].pc[t] == HoldX ==> st[n].pc[u] != HoldX && st[n].pc[u] != HoldS
  {
    RunKeepsInv(threads, st, n);
    assert u in Readers(st[n].pc) <==> st[n].pc[u] == HoldS;
    var ws := Writers(st[n].pc);
    if t in ws {
      assert |ws - {t}| == 0;
      assert u !in ws - {t};
    }
  }

  /** In every run: while the lock is free and a writer sleeps, a thread that is to take the lock or to wake
      a sleeper can move, or the one inside the mutex can. */
  lemma NoLostWriterWakeup(threads: nat, st: seq<State>, n: nat) returns (t: nat, w: nat, s': State)
    requires IsRun(threads, st) && n < |st|
    requires st[n].sharedCount == 0 && !st[n].exclusive && SleepX in st[n].pc
    ensures Step(st[n], t, w, s') && (Promises(st[n].pc[t]) || HoldsMutex(st[n].pc[t]))
    ensures Promised(st[n])
  {
    RunKeepsInv(threads, st, n);
    var s := st[n];
    var x: nat :| x < |s.pc| && Promises(s.pc[x]);
    t := if s.mutex == FREE then x else s.mutex;
    w, s' := Move1(s, t);
  }

  /** Nobody but a thread waiting for a held mutex is ever blocked for good. */
  lemma Move1(s: State, t: nat) returns (w: nat, s': State)
    requires t < |s.pc| && (s.mutex == FREE || HoldsMutex(s.pc[t]))
    ensures Step(s, t, w, s')
  {
    w := 0;
    match s.pc[t]
    case LastReaderGone | WakeWriter =>
      var pc := s.pc[t := Idle];
      if SleepX in pc {
        w :| w < |pc| && pc[w] == SleepX;
        s' := s.(pc := pc[w := WantX(true)]);
      } else {
        s' := s.(pc := pc);
      }
    case Idle => s' := Move(s, t, WantS);
    case WantS => s' := Move(s, t, CheckS).(mutex := t);
    case CheckS => s' := Move(s, t, if s.exclusive then ToSleepS else AddS);
    case ToSleepS => s' := Unlock(s, t, SleepS);
    case SleepS => s' := Move(s, t, WantS);
    case AddS => s' := Unlock(s, t, HoldS).(sharedCount := s.sharedCount + 1);
    case TryS => s' := Move(s, t, if s.exclusive then Idle else WantTryS);
    case WantTryS => s' := Move(s, t, CheckTryS).(mutex := t);
    case CheckTryS => s' := if s.exclusive then Unlock(s, t, Idle) else Move(s, t, AddS);
    case HoldS => s' := Move(s, t, if s.sharedCount == 1 then LastReaderGone else Idle).(sharedCount := s.sharedCount - 1);
    case WantX(k) => s' := Move(s, t, CheckX(k)).(mutex := t);
    case CheckX(k) => s' := Move(s, t, if s.sharedCount == 0 && !s.exclusive then StoreX(k) else ToSleepX);
    case ToSleepX => s' := Unlock(s, t, SleepX);
    case SleepX => s' := Move(s, t, WantX(true));
    case StoreX(_) => s' := Unlock(s, t, HoldX).(exclusive := true);
    case WantTryX => s' := Move(s, t, CheckTryX).(mutex := t);
    case CheckTryX => s' := if s.sharedCount > 0 || s.exclusive then Unlock(s, t, Idle) else Move(s, t, StoreX(false));
    case HoldX => s' := Move(s, t, WakeReaders).(exclusive := false);
    case WakeReaders => s' := s.(pc := WakeAll(s.pc)[t := WakeWriter]);
  }

  /** In every run: a reader sleeps only while a writer holds the lock or is about to wake all readers. */
  lemma NoLostReaderWakeup(threads: nat, st: seq<State>, n: nat)
    requires IsRun(threads, st) && n < |st| && SleepS in st[n].pc
    ensures HoldX in st[n].pc || WakeReaders in st[n].pc
  {
    RunKeepsInv(threads, st, n);
  }
}
