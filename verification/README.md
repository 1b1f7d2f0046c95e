# LRDB verification

A Dafny model of LRDB, an embedded key-value store in three layers: multi-version chains in memory, an LSM tree
below them, and a write-ahead log. The project proves what a reader, a transaction and a recovering engine can rely on.
`dafny verify dfyconfig.toml` checks all of it.

## What is modelled

- **The engine** (`Engine`, `EngineInvariant`, `EngineTheorems`, `Stability`, `Drain`, `Durability`, `Reopen`,
  `Validation`, `ColumnFamily`, `Witness`):
  a state machine over chains, LSM tree, lock table, the two number generators, open transactions and one background
  flush, with a ghost history of every version ever committed. The theorems hold in every reachable state or over every
  run. `TxManager`, `VersionChain`, `LockManager` and `WaitForGraph` hold the imperative classes, proved to take exactly
  these steps.
- **Ordered structures** (`SkipList`, `MemTable`, `MergeScan`, `TxnScan`, `Compaction`, and the sorted tables: `SsTable`,
  `SsFields`, `SsWriter`, `SsIterator`, `SsOpen`, `SsReader`, `SsRoundTrip`, `Bloom`, `TieBreak`): linked nodes and
  loops as in the code, each proved against a sequence or a versioned map.
- **Logs and codecs** (`WalCodec`, `WalReplay`, `Rle`, `Coding`): encoders, decoders, framing, replay with
  per-transaction buffers.

The LSM tree of the engine is a map from (key, sequence) to what lies there. A value and a tombstone at one place are two
records there; every read takes a `Tie` that says which of the two is found, and the theorems hold for both.

## What the proofs need

- Begin is one step, and so are marking a commit, leaving the active set and releasing the locks (`Publish`). A commit in
  flight between PrepareCommit and OnCommitted is modelled, and where it matters the condition is stated.
- A transaction handle is used by one thread and not after it is finished; one flush runs at a time.
- `RunOnce` (no second write of a key by one transaction) is a hypothesis of the corollaries that name it; the theorems
  above them hold for any writes and say exactly when reads are right.
- Sorted tables compare raw internal keys and user keys by one comparator; user-key order is a hypothesis where it is
  needed (`UsersOrdered`), because prefix keys break it.
- Checksums and hashes are arbitrary functions. Outcomes of I/O (a failing log or tree write, a failing sync) are
  parameters.

## What the proofs found

- Two writes of one key by one transaction share a sequence. The flush writes newest first, so the first value put comes
  back from the tree; and of a value and a tombstone a MemTable finds the value, a sorted table the tombstone
  (`History.FaithfulMeans`, `TieBreak.TableAnswersWithTombstones`, `Witnesses.DeleteThenPutIsMisread`).
- A commit in flight when a repeatable-read transaction begins is hidden from it in the chain by identifier, and shown by
  sequence once it is flushed (`Witnesses.StraddlingReadChanges`). A snapshot has the same gap
  (`Stability.InflightCommitShows`).
- A snapshot of sequence 0, taken before the first commit, means "latest" to the tree (`EngineTheorems.SnapshotReadsHistory`).
- After a crash and a recovery, a second crash before any commit resets the sequence generator
  (`Reopening.SecondCrashForgets`): the log is deleted once replayed and the last sequence is written only at shutdown.
- Replaying a deletion over a tree that already holds the value of the same commit brings the value back
  (`Witnesses.ReplayOverFlushedMisreads`).
- `WouldCreateCycle` searches the graph without the edge it was asked about. Edges are drawn only when a request is queued:
  once a lock passes to a waiter, those behind it have no edge to the new owner, and a deadlock over it goes unnoticed until
  a timeout (`Locks.MissedDeadlock`). A transaction that shares a key with others and asks for it exclusively has itself
  among the owners, and is always refused.
- With read-set validation on, a repeatable-read transaction that read anything from the tree, or changed what it read,
  cannot commit (`ReadValidation`).
- A log record above 100 MiB can be written but not read.
- Compaction with an oldest snapshot above 0 drops the newest version of a key when it is old.
- A sorted-table lookup reads one block: a key whose versions straddle two can read as an older one. A table with no
  records, or whose first user key alone is empty, cannot be opened. A filter without bits makes its reader divide by zero.
  The metadata block is encoded before the entry count is filled in, so it always says 0.
- Where the comments in transaction.h say that commits may share a sequence, the code gives each its own; the model
  follows the code.

## Model

| member | source | states |
|---|---|---|
| WaitGraph.WaitForGraph.Dfs | src/concurrency/lock_manager.cc:30-52 | the depth-first search terminates on every graph; from a start with nothing explored it returns true exactly if a cycle is reachable, and what it explored without finding one holds none |
| WaitGraph.WaitForGraph.DetectCycle | src/concurrency/lock_manager.cc:54-73 | a victim is reported exactly if the graph has a cycle, and the victim reaches one |
| WaitGraph.WaitForGraph.WouldCreateCycle | src/concurrency/lock_manager.cc:19-28 | the answer is whether a cycle is reachable from the waiter in the graph as it is: the search runs on the member, so the hypothetical edge added to the copy is ignored |
| WaitGraph.PrecheckIsRightWhen | src/concurrency/lock_manager.cc:19-28 | that answer equals the one for the graph with the edge exactly if the waiter reaches a cycle anyway, or the holder is another transaction that reaches neither the waiter nor a cycle |
| WaitGraph.SearchFromWaiterSuffices | src/concurrency/lock_manager.cc:133-151 | if the waiter whose edges were added to an acyclic graph reaches no cycle, the whole graph is still acyclic: one search from it decides |
| Locks.LockManager.Acquire | src/concurrency/lock_manager.cc:102-160 | in every valid lock state: granted exactly if every other owner and the request are shared and nobody is queued; else refused exactly if some owner is the caller or waits, over others, for it; else queued last, behind edges to all owners, and parked (StartResult) |
| Locks.LockManager.ResumeAcquire | src/concurrency/lock_manager.cc:152-179 | a parked caller that wakes is granted exactly at the head of the queue with nobody in the way, else times out or parks on; who returns has left the queue, the others in order, and the graph (WakeResult) |
| Locks.LockManager.Try | src/concurrency/lock_manager.cc:195-211 | granted exactly if every other owner and the request are shared and nobody is queued, else refused at once with owners and queue as they were (TryResult) |
| Locks.EveryRequest | src/concurrency/lock_manager.cc:102-211 | in every reachable state each Acquire, wake-up and TryAcquire has these outcomes and effects |
| Locks.RefusalIsDeadlock | src/concurrency/lock_manager.cc:136-150 | in every run that releases all locks of a transaction at once, a refused request would have closed a circle of transactions each parked on a key the next one owns |
| Locks.MissedDeadlock | src/concurrency/lock_manager.cc:136-179 | not conversely: a reachable state in which two transactions wait for each other while the graph is acyclic, so neither the pre-check nor any later detection finds it |
| Locks.ReleaseTakesOneKey | src/concurrency/lock_manager.cc:213-219 | Release takes the transaction's locks on that key and nothing else |
| Locks.LockManager.ReleaseEvery | src/concurrency/lock_manager.cc:221-243 | every lock of the transaction and its graph edges are gone, nothing else is |
| Locks.EndReleasesItsOwn | src/concurrency/lock_manager.cc:221-243 | ReleaseAll takes all locks of the transaction and its edges both ways, and leaves the locks, queues and edges of the others |
| Locks.LockManager.DetectAndResolveDeadlocks | src/concurrency/lock_manager.cc:293-327 | with a cycle, takes its locks and queue places from a victim that reaches one; without, changes nothing |
| Locks.VictimLosesAll | src/concurrency/lock_manager.cc:292-327 | a victim is marked and has no lock, queue place or edge left; the others keep theirs |
| Locks.RemoveWaiter | src/concurrency/lock_manager.cc:181-188 | erases the first queue entry of a transaction and no other |
| Locks.GraphStaysAcyclic | src/concurrency/lock_manager.cc:133-151 | after every run from the empty table the wait-for graph is acyclic, so deadlock resolution leaves the state as it is |
| Locks.ExclusiveIsExclusive | src/concurrency/lock_manager.cc:77-89 | after every run an exclusive holder of a key is its only holder |
| Locks.NoOvertaking | src/concurrency/lock_manager.cc:83-179 | in every run a lock granted by a step goes to the head of the queue, or to a caller that never queued while nobody is queued |
| Locks.ReturnedAcquireLeavesNoEntry | src/concurrency/lock_manager.cc:133-188 | after every run a transaction that is not parked has no entry of its own in any queue |
| VersionChain.VersionChainManager.MarkTransactionCommitted | src/concurrency/version_chain_manager.cc:32-44 | exactly the active records of the transaction become committed with the given number, on every key |
| VersionChain.VersionChainManager.MarkTransactionAborted | src/concurrency/version_chain_manager.cc:46-57 | exactly the active records of the transaction become aborted |
| VersionChain.VersionChainManager.GetVisible | src/concurrency/version_chain_manager.cc:59-95 | the payload of the newest record the view sees, or none |
| VersionChain.VersionChainManager.GetVisibleBySnapshot | src/concurrency/version_chain_manager.cc:97-132 | the payload of the newest record committed at or before the sequence, or none |
| VersionChain.VersionChainManager.PickCommittedNotFlushed | src/concurrency/version_chain_manager.cc:134-155 | for some keys visited without repetition, all their unflushed committed records newest first; enough of them or all there are |
| VersionChain.VersionChainManager.MarkFlushed | src/concurrency/version_chain_manager.cc:157-170 | every mark sets the flushed flag of the committed records with its key and number, one after another |
| VersionChain.VersionChainManager.GarbageCollect | src/concurrency/version_chain_manager.cc:172-204 | each chain keeps its active records, its unflushed committed ones and its newest committed one, in order |
| ChainLemmas.CollectionLeavesTheNeeded | src/concurrency/version_chain_manager.cc:172-204 | for every chain the collector leaves exactly the active versions, the committed ones not yet in the tree, and the newest committed one, in order |
| VersionChain.VersionChainManager.CollectVisible | src/concurrency/version_chain_manager.cc:206-224 | maps exactly the keys with a record the view sees to the newest such record |
| VersionChain.VersionChainManager.GetLatestActiveForTxn | src/concurrency/version_chain_manager.cc:226-242 | the newest active record of the transaction on the key, or none |
| Transactions.TxManager.Begin | src/concurrency/tx_manager.cc:7-31 | takes the Begin step of the engine and hands out a transaction whose view has the isolation level asked for |
| Transactions.TxManager.FlushCommittedToLSM | src/concurrency/tx_manager.cc:89-110 | succeeds exactly if every write of a picked version does; then the engine has gone through pick, writes and marking, else through the writes before the failing one with nothing marked |
| Transactions.TxManager.RunGC | src/concurrency/tx_manager.cc:112-116 | takes the collection step of the engine |
| Transactions.TxManager.GetAt | src/db/column_family.cc:319-345 | chain first, then LSM tree, at a snapshot sequence |
| Transactions.Transaction.PutOrDelete | src/concurrency/transaction.cc:46-62 | takes the key exclusively and appends one active record, or parks, or is refused with the chains untouched |
| Transactions.Transaction.Get | src/concurrency/transaction.cc:64-95 | the transaction read of the engine: newest record its view sees, else the LSM tree at its read sequence |
| Transactions.Transaction.WriteLog | src/concurrency/transaction.cc:125-160 | succeeds exactly if the write of every key with a pending version does; then the log has, for each, exactly its latest one, once, with the commit number |
| Transactions.Transaction.Commit | src/concurrency/transaction.cc:104-162 | with validation on and failing, changes nothing; else commits exactly if every log write and the sync succeed, and aborts with a number spent if not; each a run of engine steps (CommitIsARun) |
| Transactions.Transaction.ValidateReads | src/concurrency/transaction.cc:104-121 | true exactly if the chains alone now answer every remembered read with the value remembered |
| ReadValidation.TreeReadNeverValidates | src/concurrency/transaction.cc:83-121 | a repeatable-read transaction that has read a value from the tree fails validation after every run, though nothing it read has changed |
| ReadValidation.OverwrittenReadNeverValidates | src/concurrency/transaction.cc:104-121 | so does one that has overwritten a key it read with another value |
| Transactions.Transaction.Rollback | src/concurrency/transaction.cc:164-181 | takes the Abandon step of the engine |
| Transactions.WholeFlushIsARun | src/concurrency/tx_manager.cc:89-110 | an uninterrupted flush is a run of single engine steps, so everything proved of runs holds of it |
| EngineInvariant.StepKeepsInv | src/concurrency/tx_manager.cc:21-116 | lock steps, begin, write, prepare, publish, abandon, each flush step and collection all keep the engine invariant |
| EngineTheorems.SnapshotReadsHistory | src/db/column_family.cc:319-345 | in every reachable state, for every key and sequence including 0: chain-then-tree reads equal the commit history, however value/tombstone ties in the tree are resolved, exactly where Sound holds |
| History.FaithfulMeans | src/concurrency/version_chain_manager.cc:145-150 | one commit is read back right from the tree exactly if all its writes of the key are deletions, or all are puts and the first equals the last |
| EngineTheorems.EngineRefinesHistory | src/db/column_family.cc:319-345 | when no transaction writes a key twice, every reachable state reads the history at every sequence from 1 on, and at 0 exactly while the tree has nothing of the key |
| EngineTheorems.TransactionsReadHistory | src/concurrency/transaction.cc:64-95 | a transaction reads its own latest write, else the history at its read sequence |
| Stability.ReadCommittedReadsNewest | src/concurrency/transaction.cc:37-95 | after every run from Begin(ReadCommitted) the transaction reads its own latest write, else the newest committed version at the time of the read, exactly where chain and tree answer the current sequence right |
| Stability.RepeatableReadReadsBegin | src/concurrency/tx_manager.cc:7-31 | after every run from Begin(RepeatableRead) the transaction reads its own latest write, else what was newest when it began; hypotheses only on the state at Begin: no commit in flight wrote the key, and the answering commit is one the tree reads back right |
| Stability.LevelsDecideTheMoment | src/concurrency/tx_manager.cc:7-31 | from the opening on, with every key written once by a transaction, the two levels differ only in whether the newest version is that of the read or that of Begin |
| Stability.WriteIsReadBack | src/concurrency/transaction.cc:46-64 | in every reachable state a write is what its transaction reads next |
| Stability.WriteIsUnseen | include/lrdb/concurrency/snapshot.h:71-96 | and it changes no answer of any other transaction and none for any other key |
| Stability.EndLeavesNothing | src/concurrency/transaction.cc:155-183 | a committed or abandoned transaction has no pending write, lock or number left |
| EngineTheorems.NothingIsLost | src/concurrency/version_chain_manager.cc:134-204 | in every reachable state every committed version is in its chain, or its commit has its final record in the tree |
| EngineTheorems.ChainsAreOrdered | src/concurrency/transaction.cc:46-62 | in every reachable state a chain without its aborted records is its committed versions by non-falling number, flushed ones first, then active records of one transaction |
| EngineTheorems.OnceRunIsStrict | src/concurrency/transaction.cc:46-62 | when no transaction writes a key twice, every reachable state has strictly rising numbers on every key and at most one active record behind them |
| EngineTheorems.VisibilityOrdersAgree | include/lrdb/concurrency/snapshot.h:71-96 | for every repeatable-read transaction in every run a version is visible by identifier and active set exactly if its number is at or below the frozen sequence and its commit was not in flight at Begin |
| Stability.RepeatableReads | src/concurrency/transaction.cc:37-95 | across any run without own writes of the key, two reads of it by a repeatable-read transaction agree; hypotheses only on the first state: no commit in flight at Begin wrote the key, and the answering commit is one the tree reads back right |
| Stability.RepeatableReadsOnce | src/concurrency/transaction.cc:37-95 | the same from the opening of the engine on, when no transaction writes a key twice |
| Stability.SnapshotIsStable | include/lrdb/concurrency/tx_manager.h:77-79 | a snapshot gives one answer for a key in every later state, if no in-flight commit at or below it has written the key |
| Stability.StableExactlyIfSettled | include/lrdb/concurrency/tx_manager.h:77-79 | one version answers at the snapshot in all later states exactly under that condition |
| Stability.InflightCommitShows | src/concurrency/tx_manager.cc:41-57 | an in-flight commit that has written the key becomes the answer of such a snapshot when it is published |
| Stability.BackgroundIsInvisible | src/concurrency/tx_manager.cc:89-116 | no flush step and no collection changes a snapshot answer, given only that the answering commit is one the tree reads back right |
| Stability.BackgroundIsInvisibleToTxn | src/concurrency/tx_manager.cc:89-116 | nor the answer of an open transaction |
| Witnesses.DeleteThenPutIsMisread | src/concurrency/version_chain_manager.cc:145-150 | two reachable states in which a key deleted then put, or put twice, by one transaction is misread at a snapshot |
| Witnesses.StraddlingReadChanges | src/concurrency/tx_manager.cc:7-31 | a reachable state in which a commit in flight at Begin makes a repeatable read change when a flush runs |
| TieBreak.TableAnswersWithTombstones | src/storage/sstable.cc:1759-1789 | a MemTable written out in byte order is looked up as before, except that where a value and a tombstone share the newest sequence the table answers with the tombstone |
| Drain.SyncChains | src/db/db_impl.cc:1218-1233 | with batch size m and U versions waiting, after n successful rounds at most U - n*m remain or none; it ends drained unless that takes more than 10000 rounds, never runs a round more than needed, and fails only if a write does |
| Drain.LsmAloneAnswers | src/db/db_impl.cc:1218-1233 | with drained chains the tree alone reads the history exactly where the answering commit is one it reads back right, and there equals chain plus tree |
| Drain.DrainedStaysAnswered | src/db/db_impl.cc:1218-1233 | from a drained state with no commit in flight, the tree alone keeps answering every sequence handed out so far the same in every run |
| Durability.DurableHistory | src/wal/wal.cc:966-1020 | the log of all completed commits, replayed in any order and any number of times over whatever a crash left of the tree, reads the history of the session at every key and sequence, exactly where the tree held no record of the other kind for the answering commit |
| Durability.DurableHistoryOnce | src/wal/wal.cc:966-1020 | unconditionally, when no transaction writes a key twice |
| Durability.DurableOverCrashTree | src/wal/wal.cc:966-1020 | in particular over the tree as it was in memory, flushed as far as it was |
| Durability.CrashTreeRemains | src/storage/lsm_tree.cc:1791-1857 | the tree as flushed so far is such a rest: all the session started from is still in it |
| Durability.FlushedIsCleanIfOneKind | src/concurrency/transaction.cc:125-160 | for a flushed commit the condition means that its writes of the key are all puts or all deletions |
| Witnesses.ReplayOverFlushedMisreads | src/concurrency/transaction.cc:125-160 | a reachable state in which a key put then deleted by one transaction comes back when its log is replayed over the flushed tree |
| Reopening.ReopenedExactly | src/db/column_family.cc:100-119 | a reopened engine starts as every session must exactly if its tree is unambiguous and the larger of replayed and persisted sequence reaches the top of the tree |
| Reopening.ReplayedBelowNext | include/lrdb/concurrency/tx_manager.h:60-63 | every replayed sequence is below the next one the recovered generator gives out |
| Reopening.NextSession | src/db/column_family.cc:100-119 | after a crash the reopened history is that of the crashed session, and the session may start exactly if the recovered sequence reaches the top of what was left |
| Reopening.SecondCrashForgets | src/wal/wal.cc:1023-1029 | recovery, then a second crash before any commit: the generator restarts at 1 under a tree reaching higher, and reads at its numbers miss committed data |
| WalReplay.AppliedIff | src/wal/wal.cc:1353-1393 | a record at a position is applied exactly if it carries transaction 0, or is of no kind from 4 to 6 and a commit (5) of its transaction follows with no commit or abort (6) of it between |
| WalReplay.AppliedInOrder | src/wal/wal.cc:1353-1393 | every applied position comes once, in the order of the moments of application, ties in log order |
| WalReplay.EffectsAreApplied | src/wal/wal.cc:1353-1393 | the effects of a log are the records at its applied positions |
| WalReplay.Replayer.ApplyRecovered | src/wal/wal.cc:1353-1393 | one record keeps tree and buffers those of the log so far and raises the largest sequence to its own if that is larger; fails exactly if something to be applied is unsupported |
| WalReplay.Replayer.RecoverFromWAL | src/wal/wal.cc:955-1016 | replaying files one by one equals applying the effects of their concatenation, fails exactly if that holds an unsupported record, and reports the largest sequence of all records, applied or not, 0 if there is none |
| WalReplay.Replayer.ApplyRecord | src/wal/wal.cc:1396-1523 | kind 1 puts, kind 2 deletes, kinds 4 to 11 do nothing, and all others, merge (3) among them, fail |
| WalReplay.EngineLogReplays | src/wal/wal.cc:632-662 | the records commits write are all applied in place, replaying them is the recovery the durability theorems speak of, and the sequence reported is the one reopening starts behind |
| ColumnFamilies.Open | src/db/column_family.cc:84-125 | replays, then starts the manager with numbers above every record and what was persisted; over the log of an engine the result is the state Reopening speaks of; there is none exactly if replay fails |
| WalCodec.DecodeInverts | src/wal/wal.cc:21-100 | a byte string decodes to a record exactly if it is the encoding of that record |
| WalCodec.HeaderValues | src/wal/wal.cc:21-43 | the header read at fixed offsets: kind at byte 0, sequence at 1, family at 9, transaction at 13, key and value length at 21 and 25 |
| WalCodec.FrameIsReadWhen | src/wal/wal.cc:462-501 | a framed record is read back, whatever follows, exactly if its encoding, 33 bytes beside key and value, is at most 104857600 |
| WalCodec.PrefixReadsComplete | src/wal/wal.cc:297-347 | of any byte prefix of a log of readable records, exactly the complete ones are read before the first failing status |
| WalCodec.WalReader.ReadToEnd | src/wal/wal.cc:395-406 | reading until a status fails returns the records that reading the file yields |
| Rle.RoundTrip | src/wal/wal.cc:2068-2144 | for every byte string, decompressing the compressed string gives it back |
| Rle.SizeBound | src/wal/wal.cc:2068-2115 | compression adds at most one byte per started 128 |
| Rle.BoundIsTight | src/wal/wal.cc:2068-2115 | strings without three equal bytes in a row reach that bound |
| Rle.RunsAreShort | src/wal/wal.cc:2068-2115 | a byte repeated n times takes two bytes per 130 and for the rest two, or its length and one if shorter than three |
| Rle.RLECompress | src/wal/wal.cc:2068-2115 | the loop computes the coder the three results above speak of |
| Rle.RLEDecompress | src/wal/wal.cc:2117-2144 | the loop computes the decoder, failing on the same inputs |
| SkipLists.SkipList.FindGreaterOrEqual | include/lrdb/util/skiplist.h:228-258 | returns the first node with a key at or after the given one, and on every level its exact predecessor |
| SkipLists.SkipList.FindLessThan | include/lrdb/util/skiplist.h:260-295 | returns the last node with a smaller key, or the head |
| SkipLists.SkipList.FindLast | include/lrdb/util/skiplist.h:297-315 | returns the last node, or the head of an empty list |
| SkipLists.SkipList.Insert | include/lrdb/util/skiplist.h:317-352 | for every tower height the contents become the old ones with the entry put, links, levels and count right |
| SkipLists.SkipList.Merge | include/lrdb/util/skiplist.h:354-395 | does to the contents what Insert does |
| SkipLists.SkipList.Delete | include/lrdb/util/skiplist.h:397-444 | removes exactly the entry of the key, if any, and lowers height and count |
| SkipLists.SkipList.Clear | include/lrdb/util/skiplist.h:488-504 | leaves the empty list |
| SkipLists.SkipList.Get | include/lrdb/util/skiplist.h:459-480 | looks the key up in the contents |
| SkipLists.SkipList.RangeQuery | include/lrdb/util/skiplist.h:506-529 | visits the range of the contents between the bounds |
| SkipLists.PutIsMapUpdate | include/lrdb/util/skiplist.h:317-352 | putting changes the lookup of that key and of no other, and keeps the order |
| SkipLists.RemoveIsMapRemoval | include/lrdb/util/skiplist.h:397-444 | removing ends the lookup of that key and of no other |
| SkipLists.RangeIsExact | include/lrdb/util/skiplist.h:506-529 | an entry is visited exactly if it is in the list and between the bounds, both included |
| SkipLists.LevelIsSublist | include/lrdb/util/skiplist.h:317-352 | each level is a sublist of the one below |
| MemTables.MemTable.Put | src/storage/memtable.cc:241-271 | the versions held become the old ones with the value written at the low 56 bits of the sequence; an immutable table refuses |
| MemTables.MemTable.Delete | src/storage/memtable.cc:273-293 | the same for a tombstone |
| MemTables.MemTable.Get | src/storage/memtable.cc:318-396 | the version with the greatest sequence at or below the snapshot (any for 0), tombstones told from misses, a value before a tombstone of its sequence |
| MemTables.ScanIsRead | src/storage/memtable.cc:318-396 | searching from the seek key in internal-key order answers like the versioned map |
| Coding.InternalOrderIsTotal | include/lrdb/storage/memtable.h:148-191 | on encodings of at least eight bytes the comparator is a total order under which only equal encodings compare equal |
| Coding.InternalOrderIsTheComparator | include/lrdb/storage/memtable.h:148-191 | that order is what the comparator computes on the encoded bytes |
| Coding.BytewiseIsTotalOrder | src/util/comparator.cc:12-24 | the default user comparator is a total order that tells keys apart, as the results about tables and scans need it |
| Coding.ShortKeysBreakTheOrder | include/lrdb/storage/memtable.h:148-191 | with shorter strings it is not: they close a cycle |
| Coding.InternalKeyRoundTrip | src/core/coding.cc:181-197 | parsing an encoded internal key gives it back, with the sequence modulo 2^56 |
| Coding.InternalKeyIsOnto | src/core/coding.cc:181-197 | every string of at least eight bytes is the encoding of what it parses to |
| Coding.FixedIsOnto | src/core/coding.cc:13-52 | fixed-width encodings of n bytes and strings of n bytes correspond one to one |
| Coding.VarintRoundTrip | src/core/coding.cc:57-160 | a varint followed by anything is read back with its length, within its byte limit |
| Coding.EncodeVarint64 | src/core/coding.cc:84-93 | the shifting loop emits the recursive encoding, at most ten bytes |
| Coding.DecodeVarint64 | src/core/coding.cc:130-160 | the shifting loop computes the recursive decoder |
| Coding.SliceRoundTrip | src/core/coding.cc:164-178 | a length-prefixed string below 4 GiB followed by anything is read back |
| MergeScan.MergeIterator.PickChild | src/storage/lsm_tree.cc:1513-1548 | a child whose next user key is least, or -1 if nothing is ahead |
| MergeScan.MergeIterator.FindSmallest | src/storage/lsm_tree.cc:1550-1682 | consumes least keys until one whose newest visible version is not a tombstone; stops on it or at the end, skipping only silent keys |
| MergeScan.MergeIterator.ScanAll | src/storage/lsm_tree.cc:1345-1415 | from SeekToFirst by Next: strictly ascending, each listed pair is the newest visible version of its key and no tombstone, and every key not listed is silent (IsScan) |
| MergeScan.ScanIsExact | src/storage/lsm_tree.cc:1487-1670 | any IsScan output, as ScanAll ensures it, lists under each key what a versioned map with the same records reads |
| TxnScan.TxnIterator.Advance | src/concurrency/transaction.cc:261-326 | moves to the next pair of the overlay of chain view and LSM scan, tombstones skipped |
| TxnScan.TxnIterator.Seek | src/concurrency/transaction.cc:219-223 | stands at the first pair at or after the target |
| TxnScan.TxnIterator.ScanAll | src/concurrency/transaction.cc:210-232 | repeated Next from SeekToFirst returns the whole overlay |
| TxnScan.ScanAgreesWithGet | src/concurrency/transaction.cc:184-326 | the overlay is strictly ascending and lists under each key exactly what Get of the transaction returns |
| TxnScan.SeekIsSuffix | src/concurrency/transaction.cc:219-223 | what follows a Seek is the part of the full scan from the target on |
| Compaction.MergeInputFiles | src/storage/sstable.cc:2134-2202 | if it finishes, the output is strictly ascending and holds each kept record once and nothing else; it stops only on an unparsable key or two records with one key |
| Compaction.MergeHolds | src/storage/sstable.cc:2134-2235 | a record is in the output exactly if it is in an input and not older than the oldest snapshot |
| Compaction.CompactionKeepsReads | src/storage/sstable.cc:2211-2235 | a record is the newest version at or before s in the merged output exactly if it is in the inputs and not older than the oldest snapshot; with that at 0 every read is kept |
| Compaction.OldReadIsLost | src/storage/sstable.cc:2211-2235 | a read whose newest version is older finds nothing afterwards |
| Compaction.DoneMeansNoDuplicate | src/storage/sstable.cc:2134-2202 | a finished merge met no key twice among the records it kept |
| SsWriters.SSTableWriter.Add | src/storage/sstable.cc:1310-1370 | accepts exactly keys behind the last one (an empty last key is not compared); the record goes into the block being filled if that is below the block size, else the block is closed and the record opens the next |
| SsWriters.SSTableWriter.Finish | src/storage/sstable.cc:1372-1450 | the file is data blocks, index, filter, metadata and footer of exactly the records accepted, the filter built over their user keys; every block but the last has reached the block size, and none had before its last record |
| SsTables.OneWayToCut | src/storage/sstable.cc:1483-1485 | records and block size determine the blocks |
| SsTables.OneBlockWhen | src/storage/sstable.cc:1327-1333 | a table is one block exactly if its encoding without the last record is below the block size |
| SsWriters.AcceptedIsSorted | src/storage/sstable.cc:1319-1327 | accepted keys, none of them empty, are strictly ascending |
| SsWriters.SummaryRange | src/storage/sstable.cc:1629-1680 | the largest key is the last user key, the smallest the first that is not empty |
| SsTables.BlocksAreContiguous | src/storage/sstable.cc:1487-1525 | index entries tile the data: each block ends where the next begins, if sizes fit 32 bits |
| SsIterators.BlockReadsBack | src/storage/sstable.cc:1176-1208 | a block reads back by its index entry exactly if its size is below 2^32 |
| SsIterators.SSTableIterator.SeekToFirst | src/storage/sstable.cc:260-275 | stands at the first record of the table, or is invalid for an empty one |
| SsIterators.SSTableIterator.Next | src/storage/sstable.cc:316-336 | moves to the next record of the table, or becomes invalid after the last; on a damaged table it still moves on |
| SsIterators.ReadAll | src/storage/sstable.cc:260-336 | a scan returns the table, record for record |
| SsFields.FooterParsesBack | src/storage/sstable.cc:887-951 | a footer parses back exactly if its fields take at most 48 bytes: a longer one loses the end of its magic number |
| SsFields.SmallOffsetsFit | src/storage/sstable.cc:1402-1418 | with offsets below 2^63 it always does |
| SsFields.FooterBoundIsTight | src/storage/sstable.cc:1402-1418 | with one offset at 2^63 beside large others it is corrupt |
| SsFields.MetaRoundTrip | src/storage/sstable.cc:64-124 | metadata decodes to what was encoded |
| SsFields.EntryFieldsRoundTrip | src/storage/sstable.cc:210-241 | so does an index entry |
| SsOpening.ImageOpens | src/storage/sstable.cc:577-616 | a written file opens, with index and filter as written, exactly if it has an entry and its first block begins with the smallest key of its metadata |
| SsOpening.OpensUnlessFirstKeyIsEmpty | src/storage/sstable.cc:1097-1125 | in user-key order that means: the first user key is not empty, or all are |
| SsReaders.FindIndexEntry | src/storage/sstable.cc:1218-1248 | binary search finds the last block whose first user key is not after the key |
| SsReaders.BestIsNewest | src/storage/sstable.cc:645-697 | the answer of a linear scan is the visible version of the greatest sequence, the later of equal ones |
| SsReaders.SSTableReader.Get | src/storage/sstable.cc:617-714 | the newest visible version in that block, deleted told from missing; range check and filter never hide a key that is there; a filter without bits traps |
| SsReaders.BlockDecides | src/storage/sstable.cc:617-714 | that is the answer of the whole table exactly if no earlier block holds a newer visible version of the key |
| SsReaders.StraddlingKeyReadsOld | src/storage/sstable.cc:617-714 | two blocks sharing a key, which the writer makes at every block size the first record reaches, and for which the lookup returns the older version |
| SsRoundTrip.SmallTableIsOneBlock | src/storage/sstable.cc:1327-1333 | in a table below the block size every key is in one block |
| BloomFilters.StandardBloomFilter.Add | src/util/bloom_filter.cc:48-61 | exactly the bits of all added keys are set |
| BloomFilters.StandardBloomFilter.MayContain | src/util/bloom_filter.cc:63-78 | says maybe exactly if every bit of the key is set, or there are no bits |
| BloomFilters.WrittenFilterAnswers | src/util/bloom_filter.cc:342-464 | a filter written and read again never denies an added key, and divides by zero exactly if it has no bits but hashes |
| SsRoundTrip.TableOpens | src/storage/sstable.cc:577-616 | a finished table of ordered records opens exactly if it has a record and its first user key is not empty or all are; then reader and iterator see the records added |
| SsRoundTrip.WriteOpenRead | src/storage/sstable.cc:260-336 | finish, open, scan, look up: the scan returns the records added, a lookup answers as a scan of them does for a key whose versions are in one block, and for every key if the table is below the block size |

## Left out

- Range locks: `AcquireRange` locks a mutex it already holds, so no run goes on from there.
- Fairness and liveness of lock waiting: granted and timed-out waiters wake nobody.
- Which node of a cycle is the victim: the search reports the whole path; proved is that the victim reaches a cycle.
- `GetForUpdate` (an exclusive Acquire, then Get) and read-only transactions with an LSM snapshot.
- `LSMTree::Get` over its layers as written: after a MemTable hit it goes on to the tables and can overwrite the value.
  The engine uses "newest version at or before s", with ties either way.
- Writes of one (key, sequence) that differ in value across two layers of the tree: the model keeps the last one put.
- Reverse iteration and seeking in sorted tables and in the merge iterator.
- Merge operations: replay and recovery fail on them, as the code does.
- Files, directories, syncing, manifest, block cache, column-family metadata, options, error callbacks, threads and timers;
  replay of at most 1000 files is unbounded here.
- Crash atomicity inside one commit, torn payloads and resynchronisation of a damaged log.
- Wrap-around of 64-bit sequence numbers and file offsets; hash counts from 2^31 on.
- Sorted tables with keys below eight bytes in the merge iterator; the MemTable and point lookups have them.
- What a short read leaves in the block buffer of a table iterator.
- Random tower heights: every height is allowed.
- EngineTheorems.EngineRefinesHistory: at sequence 0 the condition is on the tree, and double writes are excluded; SnapshotReadsHistory has neither restriction.
- Reopening.NextSession: for sessions in which no transaction writes a key twice; ReopenedExactly holds for every tree and log.
