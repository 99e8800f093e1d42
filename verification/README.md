# JiaMiaoDB storage kernel: a verified model

This project models the storage kernel of JiaMiaoDB in Dafny and proves what its parts promise each other.
`dafny verify dfyconfig.toml` checks all of it. Each module follows one part of the program:

- **SkipLists, SkipListReaders, MemTables, Keys**: the ordered in-memory index, once as linked nodes in the heap that
  refine a sorted map, and once as a step system in which one writer's single pointer stores interleave with any number
  of lock-free traversals; above it the versioned table and its key encoding.
- **Mvcc, Transactions, UndoLog, Tables, Statements, Indexing, Vacuuming, Engines**: visibility, transaction ids,
  snapshots, savepoints over an undo log that is never cut, transactional insert, update and delete, indexes kept by
  increments, vacuum, checkpoint and reload.
- **Blocks, Sessions**: whole transactions as the server drives them: statements by themselves, and blocks of statements,
  savepoints and partial rollbacks between BEGIN and COMMIT or ROLLBACK, with what other sessions see meanwhile.
- **WriteSkew**: the serialization-failure bookkeeping over all interleavings of read, write, commit and abort.
- **LwLock, LockManagers, LockRuns**: the reader-writer lock and the lock table as protocols over all interleavings.
- **Registers, Crc, Binary, Wal, Replaying**: the checksum, log records, and replay over torn and damaged files.
- **Formats, OrderedMaps, Payloads, RowCodec, ClogCodec, Catalogs, Checkpoints, Persistence**: the nested binary
  encodings, their readers and writers, the catalog operations whose invariant one of them needs, and the engine's
  tables through the checkpoint bytes and back.
- **Parsing**: the expression parser against every way to write an expression. **Arenas**: the bump allocator. **Sha256**: the streaming hash.

Objects that the program updates in place are classes whose methods are proved against functions on their contents; the
laws are lemmas about those functions. Pointer stores, mutex sections and lock steps are atomic, and memory is
sequentially consistent. Random levels, block addresses, wakeup order and timeouts are nondeterministic.

## What the proofs found

- A row without business columns is stored as a bare zero count that its own decoder refuses
  (`RowCodec.StoredRowReadsBackExactly`), and a stored row torn to at most one byte reads as an empty row
  (`RowCodec.TornRowRefusedExactly`).
- A catalog whose current database has the empty name comes back with the default database current
  (`Catalogs.EmptyNameIsForgotten`).
- Write skew is stopped only while both transactions run: if the first commits before the other's write, both commit
  (`WriteSkew.SkewSlipsThrough`; `WriteSkew.CommitRefusedExactly` gives the exact condition).
- Deletes and non-rebuilding updates rewrite header words behind the indexes. An index on `_xmin`, `_xmax` or `_cid` stays
  right exactly when every rewritten row renders as before (`Statements.EditAgreesExactly`);
  `Statements.DeleteSpoilsXmaxIndex` is an input where it does not.
- An update that stops at a key clash has rewritten at most one row, the one that holds the clashing key, and has skipped
  the index rebuild. The table's indexes are still right exactly when that row renders as before
  (`Statements.ClashAgreesExactly`), as with a single integer key (`Statements.SingleKeyIndexSurvives`); with two key
  columns they may not be (`Statements.ClashSpoilsOtherKey`). A rollback repairs them. No other statement spoils an index
  outside the header columns (`Spoiled` in the contracts of `Engines.StorageEngine`).
- Vacuum keeps a settled row that nobody can see any more exactly when its inserter is recorded neither as committed nor
  as aborted (`Vacuuming.UnseenButKeptExactly`). That includes the frozen id, which has no record: a deleted row that had
  been frozen is never erased (`Vacuuming.FrozenRowsStay`, `Vacuuming.FrozenRowStaysHere`). After a vacuum whose closing
  pass aborted zombies, a second vacuum erases their rows (`Vacuuming.SecondVacuumCleansZombies`).
- A block's update takes the row away from every other session until the block ends, for there is one version per row;
  its inserts stay unseen and its deletes without effect for them (`Sessions.BlockFromOutside`).
- Negative row ids sort after all others (`Keys.UserKeyOrder`).
- `MemTable::vacuum` counts versions and removes none, although its header comment says it deletes them; the promise is
  met exactly when the count is 0 (`MemTables.PromiseKeptExactly`).
- The lock table's counters are right only because a transaction never has two grants of one target:
  `LockManagers.GrantSoundExactly` gives the exact condition, and the run theorems assume one outstanding request each.

## Model

| member | source | states |
|---|---|---|
| `SkipLists.SkipList.Put` | src/storage/skiplist.h:78-127 | the linked structure stays well formed and its contents are exactly the old ones with one key inserted or overwritten |
| `SkipLists.SkipList.InsertNew` | src/storage/skiplist.h:105-126 | an absent key is installed at a nondeterministic level; the contents gain exactly that entry at its rank |
| `SkipLists.SkipList.InstallLevels` | src/storage/skiplist.h:120-125 | after the bottom-up stores every level links the list that holds the new node |
| `SkipLists.SkipList.FindPredecessors` | src/storage/skiplist.h:81-93 | the update vector holds, per level, the last node before the key that reaches the level |
| `SkipLists.SkipList.EraseRange` | src/storage/skiplist.h:137-172 | exactly the keys of the closed interval are gone and their number is returned, also when the interval is empty or reversed |
| `SkipLists.SkipList.BypassLevels` | src/storage/skiplist.h:161-168 | relinking the levels one by one leaves every level linked around the removed nodes |
| `SkipLists.SkipList.GetExact` | src/storage/skiplist.h:175-183 | answers with the stored value, and with nothing exactly when the key is absent |
| `SkipLists.SkipList.Range` | src/storage/skiplist.h:186-199 | returns the values of exactly the keys of the closed interval, in order |
| `SkipLists.SkipList.All` | src/storage/skiplist.h:201-210 | returns every value in key order |
| `SkipLists.SkipList.LevelsNest` | src/storage/skiplist.h:78-172 | each level, read through its pointers, is a strictly sorted sublist of the level below, and level 0 holds every node |
| `SkipLists.UpsertIsMapUpdate` | src/storage/skiplist.h:78-127 | put refines the update of one key of a map and keeps the order |
| `SkipLists.IntervalIsMapSplit` | src/storage/skiplist.h:137-199 | erase_range and range split a map at the closed interval; the two parts add up to the whole |
| `SkipListReaders.TraversalCorrect` | src/storage/skiplist.h:120-199 | in every interleaving of single pointer stores with level-0 traversals, the keys seen strictly increase, each was linked at some moment of the traversal, and nothing linked throughout is missed |
| `SkipListReaders.TraversalTerminates` | src/storage/skiplist.h:186-199 | a reader can always move on, and every move uses up a bounded distance, also from a node already unlinked |
| `SkipListReaders.RunKeepsInv` | src/storage/skiplist.h:120-168 | the invariant that ties writer, readers and the linked list together holds in every reachable state |
| `SkipListReaders.StepTracks` | src/storage/skiplist.h:175-210 | the recorded sets really are what was linked at some time and at all times of the traversal |
| `Keys.BigEndianOrder` | src/storage/tuple.h:68-80 | fixed-width big-endian encodings compare byte by byte as the numbers do, and are equal only for equal numbers |
| `Keys.UserKeyOrder` | src/storage/tuple.h:68-80 | user keys of one table are ordered as their row ids' unsigned words, so negative row ids come last |
| `Keys.LessIsStrictTotalOrder` | src/storage/tuple.h:55-66 | internal keys form a strict total order |
| `Keys.VersionRange` | src/storage/memtable.cpp:55-62 | the interval from (row, largest sequence number) to (row, 0) holds every version of the row and no other |
| `MemTables.MemTable.Put` | src/storage/memtable.cpp:29-40 | the table holds one more version under (row id, sequence number); the largest row id is kept |
| `MemTables.MemTable.Tombstone` | src/storage/memtable.cpp:43-51 | a tombstone is a version without an inserter that names its deleter |
| `MemTables.MemTable.GetVersions` | src/storage/memtable.cpp:55-62 | the versions of exactly that row, in scan order |
| `MemTables.MemTable.GetLatest` | src/storage/memtable.cpp:65-69 | the first of them, if any |
| `MemTables.LatestIsNewest` | src/storage/memtable.cpp:65-69 | no version of the row has a larger sequence number than the one called latest |
| `MemTables.PutBecomesLatest` | src/storage/memtable.cpp:29-69 | a version put with a larger sequence number than all others of its row becomes the latest one, and no other row's latest version changes |
| `MemTables.ScanOrder` | src/storage/memtable.cpp:72-74 | a scan meets row ids in ascending order, negative ones last, and the versions of one row newest first |
| `MemTables.MemTable.ScanAll` | src/storage/memtable.cpp:72-74 | every version, in key order |
| `MemTables.IntervalIsOneRow` | src/storage/memtable.cpp:55-62 | the key interval that lookups and erasures use cuts out exactly one row |
| `MemTables.MemTable.EraseAllFor` | src/storage/memtable.cpp:93-98 | removes exactly the versions of the row and returns their number |
| `MemTables.EraseForgetsOneRow` | src/storage/memtable.cpp:93-98 | afterwards the row has no version and every other row has the versions it had |
| `MemTables.PromiseKeptExactly` | src/storage/memtable.cpp:76-89 | the removal that the header file promises has happened exactly when the count is 0 |
| `MemTables.MemTable.Vacuum` | src/storage/memtable.cpp:79-89 | counts the versions with a committed deleter below the horizon and removes nothing, although the header file promises removal |
| `MemTables.CountExactly` | src/storage/memtable.cpp:79-89 | the count is the number of versions whose deleter is present, committed and below the horizon |
| `Mvcc.VisibleIsSimple` | src/storage/transaction.cpp:14-84 | with a fresh snapshot the eight rules equal: xmin 0, or own within the command id and not self-deleted, or inserter committed or frozen and deleter absent or neither self nor committed |
| `Mvcc.VisibleExactly` | src/storage/transaction.cpp:14-84 | the eight rules for any snapshot, said at once of the header words, the snapshot and the log |
| `Mvcc.AbortsAreInvisible` | src/storage/transaction.cpp:14-84 | turning running or unknown transactions into aborted ones changes no visibility |
| `Mvcc.TombstoneHides` | src/storage/transaction.cpp:14-84 | marking a tuple deleted hides it from its deleter exactly when it has an inserter |
| `Mvcc.ToInt32Exactly` | src/storage/transaction.cpp:48-51 | the signed number with the same 32 bits: the command id itself below 2^31 |
| `Transactions.TransactionManager.AssignXid` | src/storage/transaction.cpp:158-181 | ids strictly increase, are recorded running and active once, and are refused from the emergency stop on |
| `Transactions.TransactionManager.GetOldestActiveXid` | src/storage/transaction.cpp:184-188 | the least active id, or the next id when none is active |
| `Transactions.TransactionManager.FreezeOldXids` | src/storage/transaction.cpp:190-214 | aborts exactly the recorded-running ids below the horizon and counts every entry below it |
| `Transactions.FreezeOnlyAborts` | src/storage/transaction.cpp:190-214 | the pass changes no finished status |
| `Transactions.FreezeExactly` | src/storage/transaction.cpp:190-214 | entry by entry: recorded running, from 3 up to the horizon, becomes aborted; every other entry stays |
| `Transactions.FreezeWithoutZombies` | src/storage/transaction.cpp:190-214 | without zombies the pass changes nothing |
| `Transactions.TransactionManager.MaybeAntiWraparound` | src/storage/transaction.cpp:216-227 | the pass runs exactly when the next id is above 2000002, with the oldest active id as its horizon |
| `Transactions.TransactionManager.GetSnapshot` | src/storage/transaction.cpp:231-243 | the snapshot is fresh: its bounds and running set are those of the manager |
| `Transactions.TransactionManager.SetIsolation` | src/storage/transaction.h:215 | the isolation level of the context |
| `Transactions.TransactionManager.RegisterSiread` | src/storage/transaction.cpp:262-269 | records the reader under the row at Serializable inside a transaction, else nothing |
| `Transactions.TransactionManager.RegisterWrite` | src/storage/transaction.cpp:271-285 | adds an edge from every other recorded reader of the row to the writer |
| `Transactions.TransactionManager.SsiIsPivot` | src/storage/transaction.cpp:306-320 | holds exactly when some transaction has edges in both directions with this one |
| `Transactions.TransactionManager.CleanupTransactionState` | src/storage/transaction.cpp:287-304 | removes the transaction from both maps, as reader and as writer, and touches nobody else |
| `Transactions.TransactionManager.CommitTransaction` | src/storage/transaction.cpp:448-488 | refuses exactly the pivot at Serializable and changes nothing; otherwise the id is committed and inactive, the context clear, and the id gone from both SSI maps |
| `Transactions.TransactionManager.AbortTransaction` | src/storage/transaction.cpp:490-519 | the id becomes aborted and inactive and leaves both SSI maps; the context is clear and no other status changes |
| `Transactions.TransactionManager.SetSavepoint` | src/storage/transaction.cpp:330-335 | a savepoint at the present end of the undo log |
| `Transactions.TransactionManager.FindSavepoint` | src/storage/transaction.cpp:337-345 | the latest savepoint of the name |
| `Transactions.TransactionManager.RollbackToSavepoint` | src/storage/transaction.cpp:337-353 | forgets the named savepoint and all later ones, and says how many undo records to apply |
| `Transactions.TransactionManager.ReleaseSavepoint` | src/storage/transaction.cpp:355-364 | forgets the named savepoint and all later ones and undoes nothing |
| `Transactions.TransactionManager.StartTransactionCommand` | src/storage/transaction.cpp:375-394 | the block-state step before a statement |
| `Transactions.TransactionManager.BeginTransactionBlock` | src/storage/transaction.cpp:433-446 | BEGIN opens a block, and is refused inside one |
| `Transactions.TransactionManager.CommitTransactionCommand` | src/storage/transaction.cpp:396-429 | false exactly for the pivot of an implicit transaction, and then nothing changes; otherwise an implicit transaction is committed, an aborted one aborted, BEGIN turns into a block and a block counts its commands |
| `Transactions.TransactionManager.ResetContext` | src/storage/transaction.cpp:553-560 | undo log, savepoints and id are cleared; statuses are not |
| `Transactions.TransactionManager.RebuildActiveFromClog` | src/storage/transaction.cpp:542-551 | after a restart every recorded-running id counts as aborted and nothing is active |
| `Transactions.TransactionManager.Restore` | src/storage/engine.cpp:170-189 | the restored counter and log, with running turned into aborted |
| `WriteSkew.EndedNowhere` | src/storage/transaction.cpp:287-304 | after a transaction has ended its id occurs nowhere in the SSI maps, in every run |
| `WriteSkew.ReadsExact` | src/storage/transaction.cpp:262-269 | the read map holds exactly the reads of the transactions still running |
| `WriteSkew.EdgesExact` | src/storage/transaction.cpp:271-285 | the edges are exactly the read-then-write pairs between running transactions |
| `WriteSkew.CommitRefusedExactly` | src/storage/transaction.cpp:448-478 | a commit is refused exactly when another running transaction forms a write skew with this one |
| `WriteSkew.AtMostOneCommits` | src/storage/transaction.cpp:262-320 | of two transactions in a write skew both can commit only if one committed before the other's write |
| `WriteSkew.SkewSlipsThrough` | src/storage/transaction.cpp:262-320 | that case exists: a run in which each reads before the other writes and both commit |
| `WriteSkew.SireadExactly` | src/storage/transaction.cpp:262-269 | reader by reader: the row's set gains the transaction, every other set stays |
| `WriteSkew.WriteEdgesExactly` | src/storage/transaction.cpp:271-285 | edge by edge: new ones lead from every other reader of the row to the writer |
| `WriteSkew.DropExactly` | src/storage/transaction.cpp:287-304 | reader by reader and edge by edge: what names the transaction goes, and nothing else |
| `WriteSkew.StartIsStep` | src/storage/transaction.cpp:158-181 | drawing an id is the start step of the runs above |
| `WriteSkew.ReadIsStep` | src/storage/transaction.cpp:262-269 | registering a read is their read step |
| `WriteSkew.WriteIsStep` | src/storage/transaction.cpp:271-285 | registering a write is their write step |
| `WriteSkew.CommitIsStep` | src/storage/transaction.cpp:448-488 | a commit that is not refused is their commit step; a refused one changes no map |
| `WriteSkew.AbortIsStep` | src/storage/transaction.cpp:490-519 | an abort is their abort step |
| `LwLock.RunKeepsInv` | src/storage/lock_manager.cpp:34-80 | the invariant of counter, flags, mutex and waiting threads holds in every run of atomic steps |
| `LwLock.MutualExclusion` | src/storage/lock_manager.cpp:34-80 | a writer is alone, and the counter is the number of readers |
| `LwLock.EntersExactly` | src/storage/lock_manager.cpp:34-80 | a reader that looks goes in exactly when nobody holds exclusively, a writer exactly when nobody holds at all, waiting or trying; what was decided inside the mutex becomes a hold |
| `LwLock.NoLostWriterWakeup` | src/storage/lock_manager.cpp:34-80 | while the lock is free and a writer sleeps, some wakeup is delivered or about to be, and some thread that can bring it about has a next step |
| `LwLock.NoLostReaderWakeup` | src/storage/lock_manager.cpp:34-80 | a reader sleeps only while a writer holds the lock or is about to wake everybody |
| `LockManagers.GrantSoundExactly` | src/storage/lock_manager.cpp:197-210 | granting a compatible request keeps the counters right exactly when the transaction does not hold the target already |
| `LockManagers.CanGrantExactly` | src/storage/lock_manager.cpp:188-197 | shared is granted exactly when no transaction holds the target exclusively, exclusive exactly when none holds it |
| `LockManagers.GrantedExactly` | src/storage/lock_manager.cpp:199-209 | a grant adds the lock to what its transaction holds, ends its waiting for it, and changes nobody else |
| `LockManagers.EnqueuedSound` | src/storage/lock_manager.cpp:212-214 | queueing a request keeps the invariant |
| `LockManagers.GivenUpSound` | src/storage/lock_manager.cpp:223-230 | withdrawing a request after a timeout keeps the invariant and leaves no empty entry |
| `LockManagers.ReleasedSound` | src/storage/lock_manager.cpp:133-160 | releasing keeps the invariant, takes the named locks, and touches no lock of anybody else |
| `LockManagers.ReleasedTwice` | src/storage/lock_manager.cpp:133-160 | releasing again changes nothing |
| `LockManagers.LockManager.Enter` | src/storage/lock_manager.cpp:162-214 | the first mutex section of acquire: re-entry, grant or queue |
| `LockManagers.LockManager.Lap` | src/storage/lock_manager.cpp:183-233 | one lap of the wait loop: grant, give up or sleep on |
| `LockManagers.LockManager.ReleaseLocked` | src/storage/lock_manager.cpp:133-160 | the new maps are those of the released state |
| `LockManagers.LockManager.ReleaseAll` | src/storage/lock_manager.cpp:236-248 | every lock and request of the transaction goes, nothing else |
| `LockRuns.RunIsSafe` | src/storage/lock_manager.cpp:133-248 | in every run: shared_count is the number of shared holders, has_excl holds exactly when one transaction holds exclusively and is the one named, the modes never coexist, and no empty entry remains |
| `LockRuns.ExclusiveIsAlone` | src/storage/lock_manager.cpp:133-248 | whoever holds a target exclusively is its only holder |
| `LockRuns.ReleaseIsLocal` | src/storage/lock_manager.cpp:236-248 | ending one transaction's handle changes no other transaction's locks |
| `LockRuns.SleeperStaysBlocked` | src/storage/lock_manager.cpp:183-233 | a request sleeps on only while it cannot be granted, unless a wakeup is under way |
| `Tables.FetchIsFilteredScan` | src/storage/engine.cpp:1001-1042 | fetching what a right index lists is the scan filtered by the rendered value, in the same order |
| `Tables.AgreesExactly` | src/storage/engine.cpp:1333-1377 | after rows were rewritten a right index is still right exactly when every row kept its rendered value in the column |
| `Tables.LookupExactly` | src/storage/engine.cpp:1001-1042 | a lookup is the filtered scan exactly when the index has noticed every visible row's change to or from the value |
| `Tables.AgreesInserted` | src/storage/engine.cpp:1362-1377 | registering a new highest row id keeps the index right |
| `Tables.MatchingExactly` | src/storage/engine.cpp:1001-1042 | the filter keeps, in row-id order, exactly the rows whose cell renders to the key: row id, header word or stored column |
| `Statements.EditAgreesExactly` | src/storage/engine.cpp:633-793 | an edit without a rebuild leaves a right index right exactly when each rewritten row renders as before: spelled out for _xmin, _xmax, _cid, assigned and other columns |
| `Statements.LastingKeepsKey` | src/storage/engine.cpp:1333-1340 | outside the three header columns only an assigned column can go wrong |
| `Statements.DeleteSpoilsXmaxIndex` | src/storage/engine.cpp:730-793 | an input: a row with any business columns, deleted by transaction 3, an index on _xmax, and a lookup of 0 that returns the row while the scan returns nothing |
| `Statements.ClashRewritesOne` | src/storage/engine.cpp:675-697 | before a key clash at most one row was rewritten, and it holds the clashing key |
| `Statements.ClashAgreesExactly` | src/storage/engine.cpp:675-724 | after the failed update a right index is still right exactly when that row, if any, renders as before |
| `Statements.ClashSpoilsOtherKey` | src/storage/engine.cpp:675-724 | an input: keys (2, 7) and (1, 8), a = 2 and b = 9 set everywhere; committed, a lookup of b = 9 misses the row the scan has |
| `Statements.SingleKeyIndexSurvives` | src/storage/engine.cpp:675-724 | with a single key column that is no double its index survives every failed update |
| `Statements.SameValueExactly` | src/storage/engine.cpp:691-694 | key values other than doubles are the same exactly when equal; a double is the same as itself unless it is a NaN |
| `Statements.UpdateOutcomeExactly` | src/storage/engine.cpp:675-728 | an update that succeeds met no clash among its visible matches and counts them; one that fails stopped at the first clash |
| `Indexing.RightExactly` | src/storage/engine.cpp:1342-1377 | at any time an index is right exactly when every row renders as when the index last took notice of it |
| `Indexing.FreezeAgreesExactly` | src/storage/engine.cpp:930-957 | freezing spoils only an index on _xmin, and exactly when some frozen row's inserter renders unlike 2 |
| `Indexing.UnaffectedKeeps` | src/storage/engine.cpp:1333-1340 | the engine's guard: when no indexed column is assigned, every rewritten row keeps its rendered value in every index outside the header columns |
| `Indexing.SteadyKeptExactly` | src/storage/engine.cpp:633-793 | an edit without a rebuild keeps all those indexes right exactly when its rewritten rows keep their rendered values |
| `Indexing.SteadyVacuumed` | src/storage/engine.cpp:930-966 | vacuum keeps right every index outside the header columns |
| `Indexing.HistorySteady` | src/storage/engine.cpp:1333-1377 | so after any history of a new table made of inserts, edits under the engine's guard, undos, rebuilds, vacuums and index creations every index outside the header columns is right; a stop at a clash counts if the rewritten row keeps its rendered values |
| `Indexing.HistoryLooksUpRight` | src/storage/engine.cpp:1001-1042 | and lookups through such an index are the scan filtered by the rendered value, as sequences |
| `UndoLog.BeforeAbsorbs` | src/storage/engine.cpp:828-857 | undoing a suffix of the log first, or again, does not change what undoing from an earlier position gives |
| `UndoLog.ConsistentAppend` | src/storage/transaction.cpp:324-326 | a recorded change keeps every savepoint and the pre-transaction rows restorable |
| `UndoLog.ConsistentUndone` | src/storage/engine.cpp:843-857 | a partial rollback that keeps the log leaves all earlier savepoints restorable |
| `UndoLog.RollbackRestores` | src/storage/transaction.cpp:330-353 | rolling back to a savepoint gives the very rows it was made with |
| `UndoLog.HistoryConsistent` | src/storage/transaction.cpp:330-364 | for any nesting and any history of changes, savepoints, releases and partial rollbacks, everything stays restorable |
| `UndoLog.EveryRollbackRestores` | src/storage/engine.cpp:828-857 | at any point of any history: full undo gives the rows before the transaction, undo to a savepoint gives that savepoint's rows |
| `Engines.StorageEngine.ScanWithSnapshot` | src/storage/engine.cpp:433-460 | a missing-table error, or rows with strictly ascending ids; for an observer with a fresh snapshot exactly the stored ones up to the counter that nobody inserted, that are its own within the command id and not deleted by itself, or whose inserter is finished and whose deleter is absent or neither it nor committed |
| `Engines.StorageEngine.IndexLookupWithSnapshot` | src/storage/engine.cpp:1001-1042 | what the first index on the column lists; equal to the filtered scan exactly when the index has noticed every visible row's change to or from the value, and always outside the header columns in a table that is not spoiled |
| `Engines.StorageEngine.RebuildIndexes` | src/storage/engine.cpp:1342-1360 | the indexes of the table list exactly the stored rows per rendered value |
| `Engines.StorageEngine.InsertWithTxn` | src/storage/engine.cpp:564-631 | errors leave rows and log alone; success stores one tuple stamped with the transaction and command id, registers it and logs it; no table gets spoiled |
| `Engines.StorageEngine.UpdateWithTxn` | src/storage/engine.cpp:633-728 | rewrites exactly the visible matching rows and rebuilds the indexes if one is on an assigned column; on a key clash at most one row has been rewritten and logged and no index has noticed; the table is spoiled then exactly when that row does not keep its rendered values, and in no other case |
| `Engines.StorageEngine.RemoveWithTxn` | src/storage/engine.cpp:730-793 | marks exactly the visible matching rows as deleted, logs each, and counts them; no index notices and no table gets spoiled |
| `Engines.StorageEngine.ApplyUndoTo` | src/storage/engine.cpp:843-857 | the last records are undone, newest first, and the tables they name re-indexed and no longer spoiled; the log stays |
| `Engines.StorageEngine.ApplyUndo` | src/storage/engine.cpp:828-841 | every record is undone and the touched tables re-indexed |
| `Engines.StorageEngine.ApplyUndoRecord` | src/storage/engine.cpp:801-826 | one row goes back to its recorded version, or goes |
| `Engines.StorageEngine.RollbackTo` | src/storage/transaction.cpp:337-353 | every row is again what it was when the latest savepoint of the name was made |
| `Engines.StorageEngine.Rollback` | src/server/server.cpp:340-346 | every row is again what it was before the transaction; its id is aborted and the context clear |
| `Engines.StorageEngine.Commit` | src/server/server.cpp:329-333 | refused exactly for a pivot at Serializable, and then nothing changes; otherwise the id is committed and inactive, the context clear, and the rows are the new base |
| `Engines.StorageEngine.SetSavepoint` | src/storage/transaction.cpp:330-335 | the present rows are what a later rollback restores |
| `Engines.StorageEngine.ReleaseSavepoint` | src/storage/transaction.cpp:355-364 | no row changes |
| `Engines.StorageEngine.BeginTransaction` | src/storage/transaction.cpp:433-446 | opens a block from the default state or before a statement, and is refused inside one; id, command id and log stay unless it starts from the default state; with an empty log the present rows are what a full rollback restores |
| `Engines.StorageEngine.StartStatement` | src/storage/transaction.cpp:375-394 | from the default state a transaction without id starts; otherwise block state, id, command id and log stay |
| `Engines.StorageEngine.EndStatement` | src/storage/transaction.cpp:396-429 | false exactly when the commit of an implicit transaction is refused; otherwise its id is committed, an aborted block's id aborted, and an open block goes on with the next command id; no row changes |
| `Engines.StorageEngine.CreateIndex` | src/storage/engine.cpp:1054-1081 | adds one index that agrees with the stored rows; refused for a missing table or a second index on the column |
| `Engines.StorageEngine.CreateTable` | src/storage/engine.cpp:311-341 | an empty table with an index per primary-key column; refused when it exists |
| `Engines.StorageEngine.Vacuum` | src/storage/engine.cpp:873-970 | every table becomes its vacuumed form, the number of rows gone is returned, indexes stay right, and no fresh observer notices, also when the closing pass aborts zombies |
| `Engines.StorageEngine.TakeCheckpoint` | src/storage/engine.cpp:1270-1312 | the checkpoint describes the tables, the counters, the indexes and the log |
| `Engines.StorageEngine.Load` | src/storage/engine.cpp:118-189 | the loaded engine has the saved tables, counters and indexes, nothing active, and every running id aborted |
| `Engines.StorageEngine.Reopen` | src/storage/engine.cpp:118-189 | saving and loading shows every observer without a transaction the same rows |
| `Engines.EditConsistent` | src/storage/engine.cpp:633-793 | the log of an update or delete undoes it: whatever could be restored before can be restored after |
| `Engines.PhasesVacuum` | src/storage/engine.cpp:930-957 | erasing the dead rows and then freezing is the vacuumed table |
| `Engines.VacuumUnnoticed` | src/storage/engine.cpp:873-970 | on all tables and for every fresh observer the scans before and after vacuum agree |
| `Engines.ReloadUnnoticed` | src/storage/engine.cpp:118-189 | for every outside observer the scans before and after a restart agree |
| `Engines.TakenKeyExactly` | src/storage/engine.cpp:584-608 | an insert is refused exactly when a visible row has the same value in one of the key columns |
| `Engines.ClashesExactly` | src/storage/engine.cpp:682-697 | an update clashes at a row exactly when another visible row has the value assigned to a key column |
| `Vacuuming.SeesExactly` | src/storage/transaction.cpp:14-84 | what a scan shows of a tuple, said of its header words |
| `Vacuuming.ScanExactly` | src/storage/engine.cpp:433-460 | which rows a scan shows, said of their header words, and that row ids ascend |
| `Vacuuming.VacuumedExactly` | src/storage/engine.cpp:902-957 | row r goes exactly when both its ids are below the horizon, frozen or absent and its inserter is aborted or it and a present deleter are committed; a kept row gets the frozen id exactly when both are and its inserter is committed; every other row stays |
| `Vacuuming.VacuumInvisible` | src/storage/engine.cpp:873-970 | one table, any commit log without surprises: the same rows for every fresh snapshot |
| `Vacuuming.VacuumSettles` | src/storage/engine.cpp:886-935 | if the closing pass does not fire, a second vacuum erases and freezes nothing |
| `Vacuuming.SecondVacuumCleansZombies` | src/storage/transaction.cpp:190-227 | if it fires, the second vacuum erases exactly the settled rows that zombies had inserted |
| `Vacuuming.UnseenButKeptExactly` | src/storage/engine.cpp:902-935 | vacuum keeps a tuple that no fresh snapshot shows exactly when it is not settled or its inserter is recorded neither as committed nor as aborted |
| `Vacuuming.FrozenRowsStay` | src/storage/engine.cpp:902-935 | a frozen row deleted by a committed transaction below the horizon is unseen, settled and kept by every vacuum |
| `Vacuuming.FrozenRowStaysHere` | src/storage/engine.cpp:902-935 | such a row |
| `Vacuuming.ReloadShowsTheSame` | src/storage/transaction.cpp:542-551 | rows visible without a transaction are the same before and after recovery |
| `Vacuuming.RunningBecomesAborted` | src/storage/transaction.cpp:542-551 | rows of a transaction that was running stay invisible and its deletions are void |
| `Blocks.KeptEdit` | src/storage/engine.cpp:633-793 | whatever an update or delete of a block leaves, and whatever its log would put back, is a version of the block's own or the row the block began with, perhaps deleted by the block |
| `Blocks.KeptUndone` | src/storage/engine.cpp:843-857 | so is whatever a partial rollback leaves |
| `Blocks.CommitPublishes` | src/storage/transaction.cpp:448-488 | once committed, such a row is seen by sessions without a transaction exactly when the block itself saw it |
| `Blocks.OutsiderSees` | src/storage/transaction.cpp:14-84 | until then they see it exactly when they saw the row the block began with and the block has not rewritten it |
| `Blocks.UpdatedAlone` | src/storage/engine.cpp:633-728 | a row after an update, cell by cell: rewritten exactly when its inserter was finished, its deleter absent or not committed, and it matched |
| `Blocks.DeletedAlone` | src/storage/engine.cpp:730-793 | a row after a delete: a tombstone of the statement under the same condition, else as before |
| `Blocks.CountedAlone` | src/storage/engine.cpp:633-793 | the number of log records of a statement is the number of those rows |
| `Sessions.InsertAlone` | src/server/server.cpp:448-454 | StartStatement, insert, EndStatement: unless refused, the id is committed and every later fresh scan shows the row with the given columns |
| `Sessions.UpdateAlone` | src/server/server.cpp:448-454 | the same for an update: which rows hold which new cells, and that the others stay |
| `Sessions.RemoveAlone` | src/server/server.cpp:448-454 | the same for a delete |
| `Sessions.StatementAlone` | src/server/server.cpp:448-454 | any statement by itself leaves only rows whose headers name transactions that have been started |
| `Sessions.BlockThenRollback` | src/server/server.cpp:321-346 | BEGIN, any statements, savepoints and partial rollbacks, ROLLBACK: every table holds the very rows it held at BEGIN |
| `Sessions.RollbackUnnoticed` | src/server/server.cpp:321-346 | and sessions without a transaction scan the same rows as at BEGIN |
| `Sessions.BlockThenCommit` | src/server/server.cpp:321-338 | BEGIN, any statements, a scan, COMMIT: unless refused, every session without a transaction then scans exactly what the block itself scanned |
| `Sessions.BlockFromOutside` | src/storage/engine.cpp:433-460 | during a block such a session scans no value that the block has written, and lacks exactly the rows that the block has rewritten |
| `Sessions.SavepointThenRollback` | src/storage/transaction.cpp:330-353 | a savepoint, any statements and other savepoints, the rollback to it: every table holds the very rows it held when the savepoint was made, and the earlier savepoints stand |
| `Crc.MakeTable` | src/storage/wal_v3.cpp:74-91 | every entry is eight steps of division of its index |
| `Crc.Compute` | src/storage/wal_v3.cpp:93-100 | the table form is the bitwise remainder, for every byte string |
| `Crc.TableStep` | src/storage/wal_v3.cpp:93-100 | one table lookup is eight steps of bitwise division |
| `Crc.ByteIsBitSerial` | src/storage/wal_v3.cpp:93-100 | a byte at once is its eight bits one at a time, lowest first |
| `Crc.BurstDetected` | src/storage/wal_v3.cpp:93-100 | changing bytes within any four consecutive ones changes the checksum |
| `Crc.ComplementsExactly` | src/storage/wal_v3.cpp:93-100 | the register starts with ones and ends complemented: nothing gives 0, and behind four bytes 0xFF it runs as if it had started with zeros |
| `Wal.EncodeRecord` | src/storage/wal_v3.cpp:145-166 | the bytes are those of the record format |
| `Wal.DecodeRecord` | src/storage/wal_v3.cpp:168-209 | incomplete, bad or the record, as the format says |
| `Wal.RecordBytes` | src/storage/wal_v3.cpp:145-166 | the bytes of a record field by field, with the literal magic and version and the checksum of all before it |
| `Wal.RoundTrip` | src/storage/wal_v3.cpp:145-209 | decoding an encoding, whatever follows, gives the record and consumes exactly its bytes |
| `Wal.TornIsIncomplete` | src/storage/wal_v3.cpp:168-190 | a record torn anywhere is recognised as incomplete |
| `Binary.LittleEndian` | src/storage/wal_payload.cpp:22-36 | integers are written least significant byte first |
| `Wal.DecodeIsCanonical` | src/storage/wal_v3.cpp:168-209 | only encodings decode |
| `Replaying.WriteAheadLog.Append` | src/storage/wal_v3.cpp:238-260 | the file gains exactly the encoding |
| `Replaying.WriteAheadLog.Replay` | src/storage/wal_v3.cpp:300-354 | returns the replay of the file, ends always, and leaves the largest sequence number met |
| `Replaying.WriteAheadLog.Truncate` | src/storage/wal_v3.cpp:357-414 | the file becomes the encodings of the later records; the counter follows the last one kept |
| `Replaying.PrefixReplays` | src/storage/wal_v3.cpp:300-354 | any byte prefix of a log replays to exactly the later records that it holds wholly |
| `Replaying.LogReplays` | src/storage/wal_v3.cpp:300-354 | a whole log replays to its later records |
| `Replaying.DamagedRecordSkipped` | src/storage/wal_v3.cpp:323-341 | one record that fails its check and holds no inner magic costs exactly itself |
| `Replaying.TruncateThenReplay` | src/storage/wal_v3.cpp:357-414 | truncating at c and replaying from f keeps exactly what is after both, for any file |
| `Replaying.AlterationDetected` | src/storage/wal_v3.cpp:168-209 | altering one to four consecutive bytes outside the lengths and the stored checksum is noticed |
| `Replaying.LaterExactly` | src/storage/wal_v3.cpp:300-354 | the later records: those with a sequence number above the given one, in order |
| `Replaying.WholeExactly` | src/storage/wal_v3.cpp:300-354 | the number of records that fit wholly into a prefix: these do, and one more does not |
| `Formats.TornRejected` | src/storage/wal_payload.cpp:61-102 | a format that returns what it wrote, whatever follows, and that ignores what follows, rejects every strict prefix of an encoding |
| `Formats.Unambiguous` | src/storage/wal_payload.cpp:61-102 | no encoding is continued by another one |
| `Formats.PairSound` | src/storage/wal_payload.cpp:221-246 | one part after another is sound when both are |
| `Formats.ListedSound` | src/storage/wal_payload.cpp:165-186 | a counted list of sound parts is sound |
| `Formats.TaggedSound` | src/storage/wal_payload.cpp:129-163 | a tagged choice between sound parts is sound |
| `Payloads.ValueSound` | src/storage/wal_payload.cpp:108-163 | values of all five kinds read back, whatever follows |
| `Payloads.RowSound` | src/storage/wal_payload.cpp:165-186 | rows read back, whatever follows |
| `Payloads.RowFits` | src/storage/wal_payload.cpp:165-171 | which rows the format can hold |
| `Payloads.DeleteFits` | src/storage/wal_payload.cpp:251-258 | a delete payload without xmax carries none |
| `Payloads.PayloadsReadBack` | src/storage/wal_payload.cpp:193-325 | rows and the five payloads: decoding an encoding gives it back, and every strict prefix is rejected |
| `Payloads.ValueBytes` | src/storage/wal_payload.cpp:108-127 | the bytes of a value: its tag 0 to 4, then nothing, eight bytes, one byte, or a length and the string |
| `Payloads.PayloadReader.ReadU32` | src/storage/wal_payload.cpp:71-77 | reads four bytes or fails, moving past exactly what it read |
| `Payloads.PayloadReader.ReadString16` | src/storage/wal_payload.cpp:93-97 | reads a length and that many bytes, or fails |
| `Payloads.PayloadReader.ReadString32` | src/storage/wal_payload.cpp:98-102 | reads a length and that many bytes, or fails |
| `Payloads.DecodeValue` | src/storage/wal_payload.cpp:129-163 | reads a value or fails, unknown tags included, as the format says |
| `Payloads.DecodeRowFrom` | src/storage/wal_payload.cpp:173-186 | reads a row or fails; the first value of a repeated name stays |
| `Payloads.EncodeValue` | src/storage/wal_payload.cpp:108-127 | appends the format of the value |
| `Payloads.EncodeRowInto` | src/storage/wal_payload.cpp:165-171 | appends the format of the row |
| `Payloads.EncodeInsert` | src/storage/wal_payload.cpp:213-219 | the bytes are those of the payload format |
| `Payloads.DecodeInsert` | src/storage/wal_payload.cpp:221-226 | accepts exactly what the payload format reads to the last byte |
| `Payloads.EncodeUpdate` | src/storage/wal_payload.cpp:231-238 | the bytes are those of the payload format |
| `Payloads.DecodeUpdate` | src/storage/wal_payload.cpp:240-246 | accepts exactly what the payload format reads to the last byte |
| `Payloads.EncodeDelete` | src/storage/wal_payload.cpp:251-258 | the bytes are those of the payload format |
| `Payloads.DecodeDelete` | src/storage/wal_payload.cpp:260-272 | accepts exactly what the payload format reads to the last byte |
| `Payloads.EncodeCreateTable` | src/storage/wal_payload.cpp:277-288 | the bytes are those of the payload format |
| `Payloads.DecodeCreateTable` | src/storage/wal_payload.cpp:290-309 | accepts exactly what the payload format reads to the last byte |
| `Payloads.EncodeCreateSchema` | src/storage/wal_payload.cpp:314-319 | the bytes are those of the payload format |
| `Payloads.DecodeCreateSchema` | src/storage/wal_payload.cpp:321-325 | accepts exactly what the payload format reads to the last byte |
| `RowCodec.EncodeTuple` | src/storage/tuple.cpp:58-105 | writes the business columns, or throws exactly when a name or string is too long |
| `RowCodec.Decode` | src/storage/tuple.cpp:108-164 | the decoded columns, the last value of a repeated name, or a throw |
| `RowCodec.StoredRowReadsBackExactly` | src/storage/tuple.cpp:58-164 | the business columns come back exactly when there is one or two more bytes follow; a row without any is refused |
| `RowCodec.TornRowRefusedExactly` | src/storage/tuple.cpp:108-164 | a torn row is refused, except that no byte or one byte is taken for the empty row |
| `RowCodec.ProjectionReadsBack` | src/storage/tuple.cpp:167-182 | storing and projecting keeps every business column and takes the system columns from the header |
| `ClogCodec.Encode` | src/storage/clog_codec.cpp:38-53 | the bytes of the log, ids ascending |
| `ClogCodec.Decode` | src/storage/clog_codec.cpp:55-83 | sets the statuses read over what was there, or fails where the format does |
| `ClogCodec.LogReadsBack` | src/storage/clog_codec.cpp:38-83 | decoding an encoded log sets exactly its statuses; into an empty log it gives it back |
| `ClogCodec.TornLogRejected` | src/storage/clog_codec.cpp:55-83 | every strict prefix is rejected |
| `ClogCodec.HeadBytes` | src/storage/clog_codec.cpp:38-47 | the bytes of a log: "CLGB", version 1, the number of entries, the entries |
| `ClogCodec.EntryBytes` | src/storage/clog_codec.cpp:49-52 | the bytes of an entry: four of the id, one of the status |
| `ClogCodec.AllXids` | src/storage/transaction.cpp:127-134 | all recorded ids, strictly ascending |
| `Catalogs.ApplyKeeps` | src/storage/catalog.cpp:169-291 | every operation that does not throw keeps the default database, every public schema and the current database |
| `Catalogs.RunKeeps` | src/storage/catalog.cpp:155-291 | so does every run from a fresh catalog |
| `Catalogs.CreateDatabaseExactly` | src/storage/catalog.cpp:169-179 | which databases and schemas exist afterwards, and exactly when it throws |
| `Catalogs.DropDatabaseExactly` | src/storage/catalog.cpp:181-192 | which databases and schemas are left and which one is current, and exactly when it throws |
| `Catalogs.CreateSchemaExactly` | src/storage/catalog.cpp:206-217 | which schemas exist afterwards, and exactly when it throws |
| `Catalogs.DropSchemaExactly` | src/storage/catalog.cpp:219-231 | which schemas are left, and exactly when it throws |
| `Catalogs.UserAndSessionOpsExactly` | src/storage/catalog.cpp:250-291 | which users exist afterwards and which database is current, and exactly when these throw |
| `Catalogs.CatalogReadsBackExactly` | src/storage/catalog_codec.cpp:58-140 | decoding into a fresh catalog gives the encoded one exactly when those exist and the current name is not empty |
| `Catalogs.RunsReadBack` | src/storage/catalog_codec.cpp:58-140 | after any run the catalog reads back, but for an empty current name, which is forgotten |
| `Catalogs.EmptyNameIsForgotten` | src/storage/catalog_codec.cpp:136-138 | such a run exists |
| `Catalogs.TornCatalogRefused` | src/storage/catalog_codec.cpp:91-140 | every strict prefix of an encoding is refused |
| `Catalogs.AddDatabasesKnows` | src/storage/catalog_codec.cpp:105-122 | reading a list adds what it mentions, and public to each database, and nothing else |
| `Catalogs.Catalog.CreateDatabase` | src/storage/catalog.cpp:169-179 | a new database with public, or a throw that changes nothing |
| `Catalogs.Catalog.DropDatabase` | src/storage/catalog.cpp:181-192 | never the default one; dropping the current one makes the default current |
| `Catalogs.Catalog.CreateSchema` | src/storage/catalog.cpp:206-217 | one more schema, or a throw that changes nothing |
| `Catalogs.Catalog.DropSchema` | src/storage/catalog.cpp:219-231 | never public; or a throw that changes nothing |
| `Catalogs.Catalog.SetCurrentDatabase` | src/storage/catalog.cpp:286-291 | only to a database that exists |
| `Catalogs.Catalog.CreateUser` | src/storage/catalog.cpp:250-259 | one more user, or a throw that changes nothing |
| `Catalogs.Catalog.DropUser` | src/storage/catalog.cpp:261-266 | one user less, or a throw that changes nothing |
| `Catalogs.Catalog.InternalSetUser` | src/storage/catalog.cpp:405-413 | the user has this hash and salt, whether it existed or not |
| `Catalogs.Catalog.Decode` | src/storage/catalog_codec.cpp:91-140 | read, refused or thrown as the format and the databases say |
| `Catalogs.EncodeCatalog` | src/storage/catalog_codec.cpp:58-86 | the bytes of the catalog's listing |
| `Checkpoints.CheckpointReadsBack` | src/storage/checkpoint_codec.cpp:98-322 | a checkpoint decodes to itself and every strict prefix is rejected |
| `Checkpoints.SavedStateReadsBack` | src/storage/checkpoint_codec.cpp:98-322 | the whole nest: the embedded commit log and catalog come back as well |
| `Checkpoints.BinaryLogIsSniffed` | src/storage/checkpoint_codec.cpp:295-305 | a binary commit log is always told from an older text form |
| `Checkpoints.EncodeCheckpoint` | src/storage/checkpoint_codec.cpp:98-167 | the bytes of the current format |
| `Checkpoints.DecodeCheckpoint` | src/storage/checkpoint_codec.cpp:247-322 | accepts versions 2 and 3 and exactly what the format reads to the last byte |
| `Checkpoints.DecodeCommonSegments` | src/storage/checkpoint_codec.cpp:175-240 | tables, rows, counters and indexes, with repeated names appended or overwritten as the maps do |
| `Persistence.MapBack` | src/storage/engine.cpp:1270-1312 | a map saved in key order loads as the same map |
| `Persistence.TupleBack` | src/storage/engine.cpp:32-76 | a stored row saved with its system columns loads with the same header words and columns |
| `Persistence.DbBack` | src/storage/engine.cpp:118-168 | loading the saved tables gives the very same tables: rows, headers, counters, keys and index contents |
| `Persistence.StateThroughBytes` | src/storage/engine.cpp:1270-1312 | through the encoded bytes: the same tables, transaction counter, commit log and catalog |
| `Persistence.RestartThroughBytes` | src/storage/engine.cpp:118-189 | decoding the engine's checkpoint bytes and loading them gives an engine with the same tables, counters and indexes, running transactions aborted, the same rows for every observer without a transaction, and the catalog |
| `Parsing.RoundTrip` | src/sql/parser.cpp:476-602 | however an expression is written - signs for differences from zero, either token for a product, parentheses needed or not - parsing gives the expression and stops at the first token after it |
| `Parsing.ParsePrint` | src/sql/parser.cpp:480-602 | the same at every level of the layering |
| `Parsing.SignedOperand` | src/sql/parser.cpp:557-569 | a sign before an operand, at any level that can hold one, is a difference from zero |
| `Parsing.ParsedIsWritten` | src/sql/parser.cpp:476-602 | and nothing else parses: whatever a level accepts is a way to write, at that level, the tree it gives |
| `Parsing.EachAtom` | src/sql/parser.cpp:571-602 | names and literals between known tokens; an integer literal beyond 64 signed bits fails |
| `Parsing.EachComparison` | src/sql/parser.cpp:498-527 | the six comparison tokens |
| `Parsing.EachOperator` | src/sql/parser.cpp:480-555 | the seven other operator tokens |
| `Parsing.Precedence` | src/sql/parser.cpp:476-569 | an expression with an operator of every level |
| `Parsing.LeftToRight` | src/sql/parser.cpp:529-541 | a - b - c is (a - b) - c |
| `Parsing.ComparisonsDoNotChain` | src/sql/parser.cpp:498-527 | a second comparison operator is left to the caller |
| `Parsing.Parser.ParseExpression` | src/sql/parser.cpp:476-478 | the cursor form agrees with the grammar function, errors included, and ends |
| `Parsing.Parser.ParseOr` | src/sql/parser.cpp:480-487 | the cursor form agrees with the grammar function, errors included, and ends |
| `Parsing.Parser.ParseAnd` | src/sql/parser.cpp:489-496 | the cursor form agrees with the grammar function, errors included, and ends |
| `Parsing.Parser.ParseComparison` | src/sql/parser.cpp:498-527 | the cursor form agrees with the grammar function, errors included, and ends |
| `Parsing.Parser.ParseAddition` | src/sql/parser.cpp:529-541 | the cursor form agrees with the grammar function, errors included, and ends |
| `Parsing.Parser.ParseMultiplication` | src/sql/parser.cpp:543-555 | the cursor form agrees with the grammar function, errors included, and ends |
| `Parsing.Parser.ParseUnary` | src/sql/parser.cpp:557-569 | the cursor form agrees with the grammar function, errors included, and ends |
| `Parsing.Parser.ParsePrimary` | src/sql/parser.cpp:571-602 | the cursor form agrees with the grammar function, errors included, and ends |
| `Arenas.Arena.AllocateAligned` | src/storage/arena.cpp:55-101 | every range handed out lies aligned inside its block, apart from all others, and the byte count is the sum of the sizes; nothing is handed out for no bytes |
| `Arenas.Arena.AllocInBlock` | src/storage/arena.cpp:31-49 | fails exactly when the aligned bytes do not fit |
| `Arenas.RangesAreApart` | src/storage/arena.cpp:55-101 | two ranges handed out never share a byte |
| `Arenas.RoundUpIsFirst` | src/storage/arena.cpp:31-40 | rounding up reaches the first aligned address |
| `Arenas.BumpLaidOut` | src/storage/arena.cpp:31-49 | taking aligned bytes past those taken keeps the layout |
| `Arenas.NewBlockLaidOut` | src/storage/arena.cpp:15-29 | a new block keeps the layout |
| `Sha256.HashPieces` | src/storage/catalog.cpp:93-139 | for every split into updates the digest is that of the whole message padded as section 5.1.1 of FIPS 180-4 says |
| `Sha256.HashMessage` | src/storage/catalog.cpp:80-139 | the same with the constants and functions of section 6.2 of FIPS 180-4 |
| `Sha256.PadExactly` | src/storage/catalog.cpp:105-130 | the padded message: whole blocks, a one bit, the fewest zeros, the bit length modulo 2^64 most significant byte first |
| `Sha256.Context.Update` | src/storage/catalog.cpp:93-103 | the context stands for the message so far with the piece appended |
| `Sha256.Context.Final` | src/storage/catalog.cpp:105-139 | the digest of the message so far |
| `Sha256.Context.Transform` | src/storage/catalog.cpp:40-78 | one block compressed into the chaining value |
| `Sha256.ConstantsFromRoots` | src/storage/catalog.cpp:29-38 | the round constants are the first 32 bits behind the point of the cube roots of the first 64 primes |
| `Sha256.InitialFromRoots` | src/storage/catalog.cpp:80-91 | the initial state is those of the square roots of the first eight primes |
| `Sha256.LowestBitGoes` | src/storage/catalog.cpp:21-27 | where the four shuffling functions send the lowest bit |
| `Sha256.HighestBitGoes` | src/storage/catalog.cpp:21-27 | and the highest one |
| `Sha256.Chooses` | src/storage/catalog.cpp:22 | CH takes its bits from its second or third argument as the first one says |
| `Sha256.Outvotes` | src/storage/catalog.cpp:23 | MAJ: two arguments alike outvote the third |
| `Sha256.JoinedAndSplit` | src/storage/catalog.cpp:43-44 | four bytes as a word, most significant first, and back |

## Left out

- WAL crash recovery end to end (`replay_record`, `wal_seq_`, `maybe_checkpoint`): the reload theorems have no log tail.
- Non-transactional insert, update and remove, drop_table, and DDL inside a transaction that is rolled back.
- `validate` and `coerce`: the validated row is a parameter, and `value_to_string` is a function parameter `render`.
- Repeatable read across old snapshots (`get_transaction_snapshot`): visibility theorems use snapshots taken now.
- Registration of reads and writes from engine scans and edits; the SSI theorems are about the manager's own calls.
- Primary-key uniqueness under updates of several rows, which the pre-statement scan does not give.
- Narrowing of the command id to 32 signed bits in the counter itself; the comparison in visibility does narrow.
- `FNV-1a` table hashes, `payload_len`, `flags` and the header checksum of tuples; `RowKey` hashing.
- The engine's tables are maps from row id to one version; `MemTables` shows separately how versions are stored.
- JSON fallbacks of commit log, catalog and checkpoint: their text is handed on unparsed, so its parse errors are not modelled.
- `default_value` of columns, which the program does not serialise.
- `hash_password`, salts and hex output; a user is a pair of hash and salt.
- Partial results: a decoder that fails has already changed its target in the program; the model says so for the catalog and the commit log and drops the partly filled checkpoint.
- Names of 65536 bytes or more, strings and counts of 2^32 or more: the encoders of payloads and checkpoints wrap their lengths and nothing is promised for them.
- The mutexes of manager, catalog and log, file descriptors, fsync and write errors.
- The lock manager's clock: a timeout may happen at any lap.
- Arena reset, destruction and the system allocator: the address of a new block is a parameter, apart from all others.
- Lexing, statements other than expressions, the planner, the server, memory contexts and all network code.
- Checksum registers are sequences of 32 bits and hash words are abstract in the streaming proof, so word arithmetic is stated once.
- SkipListReaders.TraversalCorrect: follows the keys that a traversal meets, not the values it reads: the program overwrites a value in place without an atomic store, so what a concurrent read of it returns is not defined.
- MemTables.MemTable.Put: does not set the payload length in the stored header, which this model of a tuple does not have.
- MemTables.MemTable.Tombstone: leaves out the header's flag bit and row id word.
- Engines.StorageEngine.ScanWithSnapshot: leaves out the registration of the rows read.
- Engines.StorageEngine.IndexLookupWithSnapshot: leaves out the registration of the rows read.
- Engines.StorageEngine.InsertWithTxn: leaves out the log record and the registration of existing key rows as read.
- Engines.StorageEngine.UpdateWithTxn: leaves out the log records and the registration of the rows as written.
- Engines.StorageEngine.RemoveWithTxn: leaves out the log records and the registration of the rows as written.
- Engines.StorageEngine.Commit: leaves out the commit record that the server writes to the log first.
- Engines.StorageEngine.Rollback: leaves out the abort record that the server writes to the log first.
- Engines.StorageEngine.CreateTable: leaves out column types, the schema's row count and the log record.
- Engines.StorageEngine.TakeCheckpoint: builds the checkpoint in memory; its bytes, with catalog and head, are the subject of Persistence.
- Engines.StorageEngine.Load: starts from the checkpoint in memory, without a log tail; the bytes are the subject of Persistence.
- Checkpoints.DecodeCheckpoint: hands on the text of older blobs unparsed and drops a partly filled result.
- Parsing.Parser.ParsePrimary: leaves out that converting a float literal out of range throws.
