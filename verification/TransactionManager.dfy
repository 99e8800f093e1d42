/** Transaction ids, the commit log, the transaction context, savepoints and the SSI bookkeeping. */
module Transactions {
  import opened Mvcc
  import opened Wrappers

  datatype UndoOp = InsertOp | UpdateOp | DeleteOp

  /** What to do to one row when rolling back; before is the row as the operation found it. */
  datatype UndoRecord = UndoRecord(op: UndoOp, table: string, rowId: int, before: Tuple)

  datatype Savepoint = Savepoint(name: string, undoPosition: nat)

  datatype BlockState = DefaultState | Started | Begin | InBlock | End | AbortPending

  datatype Isolation = ReadCommitted | RepeatableRead | Serializable

  type RowKey = (string, int)

  ghost predicate FinishedKept(clog: CLog, clog': CLog) {
    forall x | StatusOf(clog, x) != InProgress :: StatusOf(clog', x) == StatusOf(clog, x)
  }

  function BelowOldest(clog: CLog, oldest: Xid): set<Xid> {
    set x | x in clog && FIRST_NORMAL <= x < oldest
  }

  /** What the anti-wraparound pass does to the log: running transactions below the oldest active one are zombies. */
  function Freeze(clog: CLog, oldest: Xid): CLog {
    map x | x in clog :: if FIRST_NORMAL <= x < oldest && clog[x] == InProgress then Aborted else clog[x]
  }

  ghost predicate NoZombies(clog: CLog, active: set<Xid>) {
    forall x | x in clog && clog[x] == InProgress :: x in active
  }

  lemma FreezeOnlyAborts(clog: CLog, oldest: Xid)
    ensures OnlyAborts(clog, Freeze(clog, oldest)) && FinishedKept(clog, Freeze(clog, oldest))
  {
    var after := Freeze(clog, oldest);
    forall x | StatusOf(after, x) != StatusOf(clog, x)
      ensures StatusOf(clog, x) == InProgress && StatusOf(after, x) == Aborted
    {
      assert x in clog;
    }
  }

  /** Exactly the transactions from 3 up to the horizon that are recorded as running become aborted. */
  lemma FreezeExactly(clog: CLog, oldest: Xid, x: Xid)
    ensures x in Freeze(clog, oldest) <==> x in clog
    ensures x in clog ==> Freeze(clog, oldest)[x] == if 3 <= x < oldest && clog[x] == InProgress then Aborted else clog[x]
  {
  }

  /** Without zombies the pass changes nothing. */
  lemma FreezeWithoutZombies(clog: CLog, active: set<Xid>, oldest: Xid)
    requires NoZombies(clog, active) && forall x | x in active :: oldest <= x
    ensures Freeze(clog, oldest) == clog
  {
  }

  class TransactionManager {
    var nextXid: Xid
    var clog: CLog
    var active: set<Xid>
    // the context of the current transaction
    var xid: Xid
    var blockState: BlockState
    var commandId: nat
    var isolation: Isolation
    var undo: seq<UndoRecord>
    var savepoints: seq<Savepoint>
    // serializable snapshot isolation
    var sireads: map<RowKey, set<Xid>>
    var inConflict: map<Xid, set<Xid>>

    /** The run invariant: xids come from the counter, and active ones are recorded as running. */
    ghost predicate Valid()
      reads this`nextXid, this`clog, this`active, this`xid
    {
      && FIRST_NORMAL <= nextXid <= EMERGENCY_STOP
      && (forall x | x in clog :: FIRST_NORMAL <= x < nextXid)
      && (forall x | x in active :: x in clog && clog[x] == InProgress)
      && (xid == INVALID || xid in active)
    }

    constructor ()
      ensures Valid() && nextXid == FIRST_NORMAL && clog == map[] && active == {} && xid == INVALID
      ensures undo == [] && savepoints == [] && commandId == 0 && blockState == DefaultState
      ensures isolation == ReadCommitted && sireads == map[] && inConflict == map[]
    {
      nextXid, clog, active := FIRST_NORMAL, map[], {};
      xid, blockState, commandId, isolation := INVALID, DefaultState, 0, ReadCommitted;
      undo, savepoints := [], [];
      sireads, inConflict := map[], map[];
    }

    method GetOldestActiveXid() returns (oldest: Xid)
      requires Valid()
      ensures IsOldest(oldest) && oldest <= nextXid
    {
      if active == {} { return nextXid; }
      oldest := Least(active);
    }

    /** begin() of an ordered set. */
    static method Least(s: set<Xid>) returns (m: Xid)
      requires s != {}
      ensures m in s && forall x | x in s :: m <= x
    {
      m :| m in s;
      var rest := s - {m};
      while rest != {}
        invariant rest <= s && m in s
        invariant forall x | x in s && x !in rest :: m <= x
        decreases rest
      {
        var x :| x in rest;
        if x < m { m := x; }
        rest := rest - {x};
      }
    }

    ghost predicate IsOldest(oldest: Xid)
      reads this`nextXid, this`active
    {
      (forall x | x in active :: oldest <= x) && if active == {} then oldest == nextXid else oldest in active
    }

    /** Aborts the zombies and counts every entry below the oldest active transaction. */
    method FreezeOldXids() returns (frozen: nat, ghost oldest: Xid)
      requires Valid()
      modifies this`clog
      ensures Valid() && IsOldest(oldest)
      ensures clog == Freeze(old(clog), oldest) && frozen == |BelowOldest(old(clog), oldest)|
    {
      frozen := 0;
      var floor := GetOldestActiveXid();
      oldest := floor;
      var all := clog.Keys;
      ghost var was, counted := clog, {};
      while all != {}
        invariant all <= was.Keys == clog.Keys && oldest == floor
        invariant forall x :: x in counted <==> x in was && x !in all && FIRST_NORMAL <= x < oldest
        invariant frozen == |counted|
        invariant forall x | x in was :: clog[x] == if x in all then was[x] else Freeze(was, oldest)[x]
        decreases all
      {
        var x :| x in all;
        all := all - {x};
        if FIRST_NORMAL <= x && x < floor {
          if StatusOf(clog, x) == InProgress {
            clog := clog[x := Aborted];
          }
          frozen, counted := frozen + 1, counted + {x};
        }
      }
      assert clog == Freeze(was, oldest);
      assert counted == BelowOldest(was, oldest);
    }

    predicate WraparoundDue()
      reads this`nextXid
    {
      nextXid - FROZEN > FREEZE_THRESHOLD
    }

    method MaybeAntiWraparound() returns (fired: bool, ghost oldest: Xid)
      requires Valid()
      modifies this`clog
      ensures Valid() && fired == WraparoundDue() && (fired <==> nextXid > 2000002) && IsOldest(oldest)
      ensures clog == if fired then Freeze(old(clog), oldest) else old(clog)
    {
      oldest := GetOldestActiveXid();
      fired := false;
      if nextXid <= FREEZE_THRESHOLD { return; }
      if nextXid - FROZEN > FREEZE_THRESHOLD {
        var n;
        n, oldest := FreezeOldXids();
        fired := true;
      }
    }

    /** The strictly increasing counter; false is the emergency stop. */
    method AssignXid() returns (ok: bool)
      requires Valid()
      modifies this`nextXid, this`clog, this`active, this`xid
      ensures Valid() && FinishedKept(old(clog), clog)
      ensures ok <==> old(xid) != INVALID || old(nextXid) < EMERGENCY_STOP
      ensures old(NoZombies(clog, active)) ==> NoZombies(clog, active)
      ensures old(xid) != INVALID || !ok ==> nextXid == old(nextXid) && active == old(active) && xid == old(xid)
      ensures old(xid) != INVALID ==> clog == old(clog)
      ensures old(xid) == INVALID && ok ==>
                && xid == old(nextXid) && nextXid == old(nextXid) + 1 && xid !in old(clog)
                && clog.Keys == old(clog.Keys) + {xid} && active == old(active) + {xid}
                && (old(NoZombies(clog, active)) ==> clog == old(clog)[xid := InProgress])
      ensures OnlyAborts(old(clog), clog)
    {
      if xid == INVALID {
        ghost var was := clog;
        var fired, oldest := MaybeAntiWraparound();
        FreezeOnlyAborts(was, oldest);
        if NoZombies(was, active) { FreezeWithoutZombies(was, active, oldest); }
        if nextXid >= EMERGENCY_STOP { return false; }
        xid := nextXid;
        nextXid := nextXid + 1;
        active := active + {xid};
        clog := clog[xid := InProgress];
      }
      return true;
    }

    method GetSnapshot() returns (snap: Snapshot)
      requires Valid()
      ensures FreshSnapshot(snap, nextXid, active) && snap.curcid == commandId
    {
      var xmin := nextXid;
      if active != {} { xmin := Least(active); }
      var xip, rest := [], active;
      while rest != {}
        invariant rest <= active && forall x :: x in xip <==> x in active && x !in rest
        decreases rest
      {
        var x := Least(rest);
        xip, rest := xip + [x], rest - {x};
      }
      return Snapshot(xmin, nextXid, xip, commandId);
    }

    method SetIsolation(level: Isolation)
      modifies this`isolation
      ensures isolation == level
    {
      isolation := level;
    }

    // ---------- serializable snapshot isolation ----------

    method RegisterSiread(key: RowKey)
      modifies this`sireads
      ensures sireads == if isolation == Serializable && xid != INVALID then Siread(old(sireads), xid, key) else old(sireads)
    {
      if isolation != Serializable || xid == INVALID { return; }
      sireads := sireads[key := (if key in sireads then sireads[key] else {}) + {xid}];
    }

    method RegisterWrite(key: RowKey)
      modifies this`inConflict
      ensures inConflict == if isolation == Serializable && xid != INVALID
                            then WriteEdges(old(inConflict), sireads, xid, key) else old(inConflict)
    {
      if isolation != Serializable || xid == INVALID { return; }
      if key !in sireads { return; }
      var readers := sireads[key] - {xid};
      var rest := readers;
      assert readers - rest == {} && AddEdges(inConflict, {}, xid) == inConflict;
      while rest != {}
        invariant rest <= readers
        invariant inConflict == AddEdges(old(inConflict), readers - rest, xid)
        decreases rest
      {
        var reader :| reader in rest;
        assert readers - (rest - {reader}) == readers - rest + {reader};
        inConflict := inConflict[reader := (if reader in inConflict then inConflict[reader] else {}) + {xid}];
        rest := rest - {reader};
      }
      assert readers - rest == readers;
    }

    method SsiIsPivot(x: Xid) returns (pivot: bool)
      ensures pivot <==> Pivot(inConflict, x)
    {
      if x !in inConflict { return false; }
      var rest := inConflict[x];
      while rest != {}
        invariant rest <= inConflict[x]
        invariant forall o | o in inConflict[x] && o !in rest :: o == x || !Edge(inConflict, o, x)
        decreases rest
      {
        var other :| other in rest;
        rest := rest - {other};
        if other != x && other in inConflict && x in inConflict[other] {
          assert Edge(inConflict, x, other) && Edge(inConflict, other, x);
          return true;
        }
      }
      return false;
    }

    method CleanupTransactionState(x: Xid)
      modifies this`sireads, this`inConflict
      ensures sireads == DropReader(old(sireads), x) && inConflict == DropEdges(old(inConflict), x)
    {
      sireads := map k | k in sireads && sireads[k] - {x} != {} :: sireads[k] - {x};
      inConflict := map y | y in inConflict && y != x :: inConflict[y] - {x};
    }

    // ---------- end of a transaction ----------

    /** False is the serialization failure; the caller then rolls back. */
    method CommitTransaction() returns (committed: bool)
      requires Valid()
      modifies this
      ensures Valid() && FinishedKept(old(clog), clog) && nextXid == old(nextXid)
      ensures blockState == old(blockState) && isolation == old(isolation)
      ensures committed <==> !(old(xid) != INVALID && old(isolation) == Serializable && Pivot(old(inConflict), old(xid)))
      ensures !committed ==> clog == old(clog) && active == old(active) && xid == old(xid) && undo == old(undo)
                             && savepoints == old(savepoints) && commandId == old(commandId)
                             && sireads == old(sireads) && inConflict == old(inConflict)
      ensures committed && old(xid) != INVALID ==>
                && clog == old(clog)[old(xid) := Committed] && active == old(active) - {old(xid)}
                && xid == INVALID && undo == [] && savepoints == [] && commandId == 0
                && sireads == DropReader(old(sireads), old(xid)) && inConflict == DropEdges(old(inConflict), old(xid))
      ensures committed && old(xid) == INVALID ==>
                && clog == old(clog) && active == old(active) && xid == INVALID && undo == [] && savepoints == old(savepoints)
                && commandId == old(commandId) && sireads == old(sireads) && inConflict == old(inConflict)
    {
      if xid == INVALID {
        active := active - {xid};
        undo := [];
        return true;
      }
      if isolation == Serializable {
        var pivot := SsiIsPivot(xid);
        if pivot { return false; }
      }
      clog := clog[xid := Committed];
      active := active - {xid};
      CleanupTransactionState(xid);
      undo, savepoints := [], [];
      xid, commandId := INVALID, 0;
      return true;
    }

    method AbortTransaction()
      requires Valid()
      modifies this
      ensures Valid() && FinishedKept(old(clog), clog) && nextXid == old(nextXid)
      ensures blockState == old(blockState) && isolation == old(isolation)
      ensures sireads == (if old(xid) == INVALID then old(sireads) else DropReader(old(sireads), old(xid)))
      ensures inConflict == (if old(xid) == INVALID then old(inConflict) else DropEdges(old(inConflict), old(xid)))
      ensures active == old(active) - {old(xid)} && undo == [] && savepoints == [] && xid == INVALID && commandId == 0
      ensures clog == if old(xid) == INVALID then old(clog) else old(clog)[old(xid) := Aborted]
    {
      if xid != INVALID {
        clog := clog[xid := Aborted];
        active := active - {xid};
        CleanupTransactionState(xid);
      }
      undo, savepoints := [], [];
      xid, commandId := INVALID, 0;
    }

    // ---------- savepoints ----------

    method SetSavepoint(name: string)
      modifies this`savepoints
      ensures savepoints == old(savepoints) + [Savepoint(name, |undo|)]
    {
      savepoints := savepoints + [Savepoint(name, |undo|)];
    }

    /** Position of the latest savepoint of that name; -1 when there is none. */
    method FindSavepoint(name: string) returns (k: int)
      ensures IsLatest(savepoints, name, k)
    {
      k := |savepoints| - 1;
      while k >= 0 && savepoints[k].name != name
        invariant -1 <= k < |savepoints|
        invariant forall i | k < i < |savepoints| :: savepoints[i].name != name
      {
        k := k - 1;
      }
    }

    /** Some(n): the last n undo records are to be applied. The named savepoint goes as well. */
    method RollbackToSavepoint(name: string) returns (count: Option<nat>, ghost k: int)
      modifies this`savepoints
      ensures old(IsLatest(savepoints, name, k)) && (count.None? <==> k == -1)
      ensures count.None? ==> savepoints == old(savepoints)
      ensures count.Some? ==> savepoints == old(savepoints)[..k]
      ensures count.Some? ==> old(savepoints)[k].undoPosition <= |undo| ==>
                count.value == |undo| - old(savepoints)[k].undoPosition
    {
      var at := FindSavepoint(name);
      k := at;
      if at < 0 { return None, k; }
      var current, target := |undo|, savepoints[at].undoPosition;
      savepoints := savepoints[..at];
      if current < target { return Some(0), k; }
      return Some(current - target), k;
    }

    /** Forgets the named savepoint and all later ones; nothing is undone. */
    method ReleaseSavepoint(name: string) returns (ok: bool, ghost k: int)
      modifies this`savepoints
      ensures old(IsLatest(savepoints, name, k)) && (ok <==> k != -1)
      ensures savepoints == if ok then old(savepoints)[..k] else old(savepoints)
    {
      var at := FindSavepoint(name);
      k := at;
      if at < 0 { return false, k; }
      savepoints := savepoints[..at];
      return true, k;
    }

    // ---------- the block state machine ----------

    method StartTransactionCommand()
      requires Valid()
      modifies this`xid, this`commandId, this`undo, this`blockState
      ensures Valid()
      ensures if old(blockState) == DefaultState
              then xid == INVALID && commandId == 0 && undo == [] && blockState == Started
              else xid == old(xid) && commandId == old(commandId) && undo == old(undo) && blockState == old(blockState)
    {
      if blockState == DefaultState {
        xid, commandId, undo, blockState := INVALID, 0, [], Started;
      }
    }

    /** False: BEGIN inside a transaction block. */
    method BeginTransactionBlock() returns (ok: bool)
      requires Valid()
      modifies this`xid, this`commandId, this`undo, this`blockState
      ensures Valid() && (ok <==> old(blockState) in {DefaultState, Started})
      ensures blockState == if ok then Begin else old(blockState)
      ensures if old(blockState) == DefaultState then xid == INVALID && commandId == 0 && undo == []
              else xid == old(xid) && commandId == old(commandId) && undo == old(undo)
    {
      if blockState != DefaultState && blockState != Started { return false; }
      if blockState == DefaultState {
        xid, commandId, undo := INVALID, 0, [];
      }
      blockState := Begin;
      return true;
    }

    /** After every statement. False: the implicit commit was refused as a serialization failure, and everything stays. */
    method CommitTransactionCommand() returns (ok: bool)
      requires Valid()
      modifies this
      ensures Valid() && FinishedKept(old(clog), clog) && nextXid == old(nextXid) && isolation == old(isolation)
      ensures ok <==> !(old(blockState) in {Started, End} && old(xid) != INVALID && old(isolation) == Serializable
                        && Pivot(old(inConflict), old(xid)))
      ensures !ok ==>
                && blockState == old(blockState) && xid == old(xid) && undo == old(undo) && savepoints == old(savepoints)
                && commandId == old(commandId) && clog == old(clog) && active == old(active)
      ensures ok && old(blockState) in {Started, End, AbortPending} ==>
                && blockState == DefaultState && undo == [] && xid == INVALID && active == old(active) - {old(xid)}
                && clog == (if old(xid) == INVALID then old(clog)
                            else old(clog)[old(xid) := if old(blockState) == AbortPending then Aborted else Committed])
                && savepoints == if old(xid) == INVALID && old(blockState) != AbortPending then old(savepoints) else []
      ensures old(blockState) in {Begin, InBlock, DefaultState} ==>
                && clog == old(clog) && active == old(active) && xid == old(xid) && undo == old(undo)
                && savepoints == old(savepoints)
                && commandId == old(commandId) + (if old(blockState) == InBlock then 1 else 0)
                && blockState == if old(blockState) == DefaultState then DefaultState else InBlock
      ensures var over := ok && old(blockState) in {Started, End, AbortPending} && old(xid) != INVALID;
              && sireads == (if over then DropReader(old(sireads), old(xid)) else old(sireads))
              && inConflict == if over then DropEdges(old(inConflict), old(xid)) else old(inConflict)
    {
      ok := true;
      match blockState {
        case Started | End =>
          ok := CommitTransaction();
          if ok { blockState := DefaultState; }
        case Begin => blockState := InBlock;
        case InBlock => commandId := commandId + 1;
        case AbortPending =>
          AbortTransaction();
          blockState := DefaultState;
        case DefaultState =>
      }
    }

    method ResetContext()
      requires Valid()
      modifies this`xid, this`blockState, this`commandId, this`undo, this`savepoints
      ensures Valid() && xid == INVALID && undo == [] && savepoints == [] && commandId == 0 && blockState == DefaultState
    {
      xid, blockState, commandId := INVALID, DefaultState, 0;
      undo, savepoints := [], [];
    }

    /** After a restart every transaction still recorded as running counts as aborted. */
    method RebuildActiveFromClog()
      requires FIRST_NORMAL <= nextXid <= EMERGENCY_STOP && forall x | x in clog :: FIRST_NORMAL <= x < nextXid
      requires xid == INVALID
      modifies this`active, this`clog
      ensures Valid() && active == {} && clog.Keys == old(clog.Keys)
      ensures forall x | x in clog :: clog[x] == if old(clog[x]) == InProgress then Aborted else old(clog[x])
    {
      active := {};
      var running := set x | x in clog && clog[x] == InProgress;
      ghost var was := clog;
      while running != {}
        invariant clog.Keys == was.Keys && active == {}
        invariant forall x | x in clog :: clog[x] == if was[x] == InProgress && x !in running then Aborted else was[x]
        invariant running <= clog.Keys
        decreases running
      {
        var x :| x in running;
        clog := clog[x := Aborted];
        running := running - {x};
      }
    }

    /** set_next_xid, the decoded log, then rebuilding the active set. */
    method Restore(next: Xid, log: CLog)
      requires Valid() && xid == INVALID && undo == [] && savepoints == []
      requires FIRST_NORMAL <= next <= EMERGENCY_STOP && forall x | x in log :: FIRST_NORMAL <= x < next
      modifies this
      ensures Valid() && nextXid == next && active == {} && xid == INVALID && undo == [] && savepoints == []
      ensures clog.Keys == log.Keys && blockState == DefaultState
      ensures forall x | x in clog :: clog[x] == if log[x] == InProgress then Aborted else log[x]
    {
      nextXid, clog := next, log;
      RebuildActiveFromClog();
      ResetContext();
    }
  }

  // ---------- the SSI bookkeeping as functions of the maps ----------

  ghost predicate IsLatest(savepoints: seq<Savepoint>, name: string, k: int) {
    && -1 <= k < |savepoints|
    && (k >= 0 ==> savepoints[k].name == name)
    && forall i | k < i < |savepoints| :: savepoints[i].name != name
  }

  function Siread(sireads: map<RowKey, set<Xid>>, x: Xid, key: RowKey): map<RowKey, set<Xid>> {
    sireads[key := (if key in sireads then sireads[key] else {}) + {x}]
  }

  /** y wrote a row after x read it. */
  predicate Edge(conflicts: map<Xid, set<Xid>>, x: Xid, y: Xid) {
    x in conflicts && y in conflicts[x]
  }

  ghost function AddEdges(conflicts: map<Xid, set<Xid>>, readers: set<Xid>, writer: Xid): map<Xid, set<Xid>> {
    map x | x in conflicts.Keys + readers ::
      if x in readers then (if x in conflicts then conflicts[x] else {}) + {writer} else conflicts[x]
  }

  ghost function WriteEdges(conflicts: map<Xid, set<Xid>>, sireads: map<RowKey, set<Xid>>, x: Xid, key: RowKey)
    : map<Xid, set<Xid>>
  {
    if key in sireads then AddEdges(conflicts, sireads[key] - {x}, x) else conflicts
  }

  function DropReader(sireads: map<RowKey, set<Xid>>, x: Xid): map<RowKey, set<Xid>> {
    map k | k in sireads && sireads[k] - {x} != {} :: sireads[k] - {x}
  }

  function DropEdges(conflicts: map<Xid, set<Xid>>, x: Xid): map<Xid, set<Xid>> {
    map y | y in conflicts && y != x :: conflicts[y] - {x}
  }

  /** A two-cycle of edges through x. */
  ghost predicate Pivot(conflicts: map<Xid, set<Xid>>, x: Xid) {
    exists y :: y != x && Edge(conflicts, x, y) && Edge(conflicts, y, x)
  }
}
