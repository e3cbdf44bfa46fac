# A verified model of ccdb

ccdb is a small disk-based SQL database. This project models the parts of it whose correctness spans many
functions: storage and crash recovery, the B+Tree, transactions with row locks and vacuum, and the compilation of
expressions. Code that changes state step by step is modelled by classes and loops in the same form and proved
against specification functions; protocols that interleave are state machines, and their properties are proved for
every run.

| files | what they model |
|---|---|
| `Clog`, `Transactions`, `Sessions` | the packed commit log, the transaction manager with its memo, snapshots, visibility, the vacuum horizon, and a connection's transaction object |
| `VisibilityMap` | the all-visible bit of a page: vacuum's judging and marking as two steps among inserts, xmax writes and transactions |
| `Locks`, `LostUpdate` | the row lock table and its class, and UPDATE and DELETE as interleaved lock, recheck, write, unlock and status steps |
| `HeapLog`, `CrashRecovery`, `Recovery` | heap pages as the effect of their log records, the system from start through checkpoints, crashes and recoveries, and the recovery driver |
| `Checkpoints` | when CHECKPOINT's flush of the statuses is harmless, and the runs in which it is not |
| `Bytes`, `WalCodec`, `Wal` | little-endian integers, the ten kinds of log record as bytes, the log file and its manager |
| `PageBytes`, `SlottedPage`, `TupleCodec`, `KeyCodec`, `CodecLaws` | the 4096 bytes of a slotted page edited in place, rows with their MVCC header, index keys, index entries and a leaf as a page; UTF-8, null bits and stored numbers in arithmetic |
| `HeapPages` | byte pages of rows as the heap pages of `HeapLog`, and the redo of insert and xmax records on them |
| `BufferPool`, `Composition` | the pinned write-back cache with Clock eviction, on top of the log manager, over byte pages, and its runs as runs of `CrashRecovery` |
| `BTreeShape`, `BTree`, `BTreeReads`, `BTreeBulk`, `BTreeIndex` | the index: mutable pages with a ghost tree, insert, delete, lookup, range scan and bulk build |
| `Ast`, `Values`, `Aggregation`, `AggregateMeaning`, `HashAggregate`, `Select` | name resolution, expression evaluation, aggregate extraction, the hash aggregate, WHERE, HAVING and SELECT DISTINCT |
| `EvaluatorLaws`, `AggregateLaws`, `NameResolution` | what operators, aggregates and column names come to, in numbers, text, sets of rows and places in FROM |
| `Lexing`, `Parsing`, `Printing` | the lexer, the precedence parser and the printer of expressions |
| `Spelling`, `Grammar`, `Rewriting` | how tokens are spelled and expressions are written, independently of lexer and parser, and what the rewritten IN and BETWEEN mean |

`dafny verify dfyconfig.toml` checks everything.

How the groups fit together. `CrashRecovery` lets a page reach disk only when the log covers its LSN and lets a crash
keep any image written since the last sync. `BufferPool` proves that its evictions and flushes obey that rule while
everyone keeps seeing the last written contents; `Composition.TrailIsRun` says that every run of the pool on its own, of
any length, is a run of the engine's `WriteBack` action, with the pool's byte pages standing for the engine's pages by
way of `HeapPages`, so that the engine's invariant holds all along. `Wal` proves that the reader gets back a prefix of
what was appended. `HeapLog` treats a page as slots of rows; `HeapPages.RedoInsert` and `RedoSetXmax` do on
the bytes of a page exactly what its redo steps do on those slots, and fail when they do. `BTreeIndex` treats a page as
a node; `KeyCodec` shows that a leaf within the tree's limit fits a byte page and reads back, and that comparing encoded
keys is comparing numbers.

What the proofs found out about the code, with the exact condition under which each promise holds:

- Vacuum judges a page under its read latch and sets the all-visible bit later under the write latch without a second
  look. The live rows still pass the test at the mark if and only if no insert and no xmax write hit one of them in
  between (`VisibilityMap.StillPassesExactly`; without tombstones in between, if and only if no such write happened at
  all, `QuietExactly`), and such a mark is sound (`FreshMarkSound`). Any mark is sound for every transaction that can
  read the page if and only if each live row's creator has committed, its deleter, if any, has aborted, and no open
  reader's snapshot was taken while the creator was running or before it began (`MarkSoundExactly`). `StaleMark` gives
  the interleaving that ends with an uncommitted row on a marked page.
- The vacuum horizon is the smallest active id, so it protects the snapshots taken after it is read. A snapshot already
  open misses every row judged dead if and only if none of the transactions below the horizon that it treats as active
  has committed by then (`Transactions.OpenSnapshotMissesDead`), and sees every row judged visible to all on the same
  condition (`OpenSnapshotSeesMarked`). The condition can fail (`HorizonMissesOpenSnapshots`).
- A Shared request by the Exclusive holder replaces its lock by a Shared one (`Locks.ReRequestDowngrades`). An Exclusive
  holder keeps its lock across any event if and only if the event is neither its own Shared request nor its unlock
  (`Locks.ExclusiveStays`, `ExclusiveLasts`).
- A Shared holder that asks for an upgrade beside other holders is told that it succeeded. A holder's request gives it
  what it asked for if and only if it was granted at once (`Locks.HolderGetsWhatItAsked`), and the queue stays free of
  holders and of duplicates if and only if requests are either first ones or granted at once
  (`Locks.RequestKeepsExactly`). Mutual exclusion holds whatever is asked (`Locks.MutualExclusion`).
- An unlock never leaves a first waiter who could go on (`Locks.UnlockServes`). A timeout at the front of the queue and
  a downgrade can: neither looks at the queue, so a compatible reader waits until the next unlock (`LostWakeups`). No
  other event can (`FrontStaysBlocked`).
- `read_records` drops a torn length prefix but fails on a torn body (`WriteAheadLog.TornTail`): a log cut anywhere can
  be read, and recovery starts, if and only if fewer than four bytes of a record are left over
  (`WriteAheadLog.CutReads`).
- CHECKPOINT flushes the statuses before it writes down the next id. The flush is harmless, whatever crashes and
  recoveries follow, if and only if every id with a status is at most the largest id in the durable log or the next id
  of the checkpoint before (`Checkpoints.CheckpointSafeExactly`); otherwise some recovery hands out an id whose fate is
  on disk already. `RolledBackRowAppears` is such a run: the id of an idle connection comes back as committed, and a row
  rolled back under it is seen by everybody. Writing down the next id first would always be harmless (`NextIdFirst`).
- A transaction counts as committed after a crash if and only if its Commit record survived or its status had been
  flushed (`CrashRecovery.CrashSafety`). One that logged its Begin and was reported committed always does. An automatic
  transaction without brackets in the log, such as CREATE TABLE outside BEGIN and COMMIT, has neither until the next
  checkpoint (`Checkpoints.UnbracketedRowLost`).
- `SELECT DISTINCT e` is accepted if and only if `e` is a column or mentions none, because every column an item mentions
  must be an item of its own (`SelectQuery.SingleDistinctAccepted`, `DistinctAccepted`).
- The branch of `redo_insert` that fills a gap before the slot always fails: the empty tuple that it inserts reads as a
  tombstone, which cannot be deleted (`HeapPages.RedoInsert`).
- NULL beside a value that decides AND or OR still gives NULL (`EvaluatorLaws.NullsPass`). So `x IN (...)` is NULL as
  soon as one item is, also when another item is equal (`Rewriting.InMeans`), and BETWEEN is NULL as soon as one bound
  is, also when the other excludes the value (`BetweenMeans`).
- A bare column name that two relations have is refused, also when one of them is in an inner scope; a qualified name
  refers to the nearest relation of that name or to nothing (`NameResolution.BareExactly`, `QualifiedExactly`).
- A terminal status is permanent if and only if its id was allocated (`Transactions.TerminalAnswersArePermanent`).
- The comment on `compare_keys` says that null keys sort last. A null key has no bytes, which decode as the empty text
  in a text column and as an error in any other (`KeyCodec.NullSortsFirst`).
- A text with a quote in it, a negative literal or a name that is a keyword cannot come from the parser and does not
  survive printing and parsing (`Printing.RoundTripsExactly`).
- Text of four gigabytes and more loses the high part of its length (`TupleCodec.RowRoundTrip`), and so does an index
  key of 64 kilobytes and more (`KeyCodec.LeafEntryRound`).

## Model

| member | source | states |
|---|---|---|
| CommitLog.PutGetBits | src/clog.rs:90-118 | storing a 2-bit status at one of the four positions of a byte reads back there and leaves the other three positions alone |
| CommitLog.QuarterOf | src/clog.rs:165-169 | page, byte and shift determine the transaction id, so two ids never share a position |
| CommitLog.Clog.Open | src/clog.rs:73-88 | a log opened on a file answers for every id what the file holds, and in progress for ids beyond it |
| CommitLog.FileLayout | src/clog.rs:150-169 | in arithmetic: id t has the two bits with number t % 4, from the low end, of byte t / 4 of the file; 1 says committed, 2 aborted, anything else in progress |
| CommitLog.BeyondInProgress | src/clog.rs:150-162 | every id past the end of the file is in progress |
| CommitLog.Clog.EnsureLoaded | src/clog.rs:150-162 | loading a page lazily changes no answer |
| CommitLog.Clog.Get | src/clog.rs:90-102 | the packed pages act as a map from id to status; a lookup changes no status |
| CommitLog.Clog.Set | src/clog.rs:104-118 | only the one id's status changes |
| CommitLog.Clog.Flush | src/clog.rs:121-146 | afterwards no page is dirty and a log reopened on the file answers as this one for every id |
| Transactions.RunKeeps | src/transaction_manager.rs:66-98 | along every run an id that left the active table never changes its status, and the first terminal decision wins |
| Transactions.SnapshotStable | src/visibility.rs:12-71 | a snapshot gives the same answer for every (xmin, xmax) in every later state of every run |
| Transactions.SeesExactly | src/visibility.rs:12-71 | along every run a running transaction's snapshot shows a row if and only if its creator is that transaction or had committed when the snapshot was taken, and it has no deleter that is that transaction or had committed by then |
| Transactions.DeadExactly | src/executor.rs:2198-2214 | against the current horizon a row is dead if and only if its creator aborted, or its deleter committed and everybody active began after the deleter |
| Transactions.AllVisibleExactly | src/executor.rs:2013-2032 | and visible to all if and only if it has no deleter, its creator committed and everybody active began after the creator |
| Transactions.IdleVacuumComplete | src/executor.rs:2198-2214 | with nobody active vacuum is complete as well: a row is dead if and only if no snapshot of any continuation sees it |
| Transactions.HorizonSound | src/executor.rs:2198-2214 | one row header: found dead, or visible to all, against a horizon read earlier, it is invisible, or visible, to every snapshot a still running transaction took after the horizon was read, in every continuation; the page's bit is in `VisibilityMap` |
| Transactions.HorizonMissesOpenSnapshots | src/transaction_manager.rs:177-183 | the condition of the two rows below can fail: a concrete run in which a row found dead is still visible to an open snapshot |
| Transactions.OpenSnapshotMissesDead | src/executor.rs:2198-2214 | a snapshot taken before the horizon was read misses every row judged dead if and only if no transaction below the horizon that it treats as active has committed by the judgement; the same for the rows of any one creator that had committed before the snapshot |
| Transactions.OpenSnapshotSeesMarked | src/executor.rs:2013-2032 | such a snapshot sees every row judged visible to all if and only if the same condition holds |
| Transactions.TerminalAnswersArePermanent | src/transaction_manager.rs:131-165 | a non-running status holds in every continuation if and only if the id is below the next id: what memoising it needs |
| Transactions.TransactionManager.constructor | src/transaction_manager.rs:50-56 | a manager over an opened log starts with no active ids and an empty memo |
| Transactions.TransactionManager.Begin | src/transaction_manager.rs:66-70 | the id is the old counter, and it alone becomes active |
| Transactions.TransactionManager.Finish | src/transaction_manager.rs:78-98 | commit and abort take the id out of the active table and decide it unless it was decided before |
| Transactions.TransactionManager.GetStatus | src/transaction_manager.rs:131-151 | for every id, allocated or not, the memoised status equals the one computed without the memo; the memo stays coherent if and only if the id is allocated |
| Transactions.TransactionManager.OpenSnapshot | src/transaction_manager.rs:110-119 | the snapshot holds the next id and exactly the active ids |
| Transactions.TransactionManager.IsVisible | src/visibility.rs:12-71 | the test with its short cuts answers as the snapshot's specification over the uncached statuses, which `SeesExactly` puts in terms of who had committed |
| Transactions.TransactionManager.OldestActiveXmin | src/transaction_manager.rs:177-183 | the minimum over the active ids, or the next id when there are none |
| Transactions.TransactionManager.IsTupleDead | src/executor.rs:2198-2214 | the test used by vacuum is the predicate that `DeadExactly` and `HorizonSound` are about |
| VisibilityMap.PassedIsSeen | src/executor.rs:2024-2027 | a row that passed the test is seen, in every later state, by every snapshot taken since the horizon was read |
| VisibilityMap.StillPassesExactly | src/executor.rs:2013-2042 | with judging and marking as two steps of a run, in any state after the mark the live rows pass the test if and only if no insert and no xmax write hit one of them since the judgement |
| VisibilityMap.QuietExactly | src/executor.rs:2013-2042 | with no tombstone in between, that is if and only if no insert and no xmax write happened at all |
| VisibilityMap.MarkSoundExactly | src/executor.rs:2033-2042 | setting the bit is sound, for every transaction with a snapshot taken since the horizon was read and still active when it reads, in every continuation, if and only if at the mark each live row's creator has committed, its deleter if any has aborted, and no reader still active took its snapshot before the creator began or while it ran |
| VisibilityMap.FreshMarkSound | src/executor.rs:2017-2042 | a mark with no live row hit since the judgement is sound in that sense |
| VisibilityMap.BitKept | src/page.rs:175-242 | in every run the bit is set if and only if some vacuum marked the page and no insert and no xmax write came after |
| VisibilityMap.MarkedIsVisible | src/executor.rs:119-126 | when the bit has been set since a mark and no row live at that mark was hit since its judgement, every live row is seen by every snapshot taken since that vacuum's horizon was read: what scans rely on when they skip the visibility test |
| VisibilityMap.StaleMark | src/executor.rs:2017-2036 | a run in which an insert between judging and marking leaves a running transaction's row on a marked page |
| Sessions.Transaction.constructor | src/transaction.rs:59-72 | a new connection holds a fresh active id, is not in an explicit transaction, and its snapshot is of this moment |
| Sessions.Transaction.Begin | src/transaction.rs:112-122 | closes the id in hand as committed unless decided, begins a new one and takes its snapshot |
| Sessions.Transaction.RefreshAutocommit | src/transaction.rs:134-144 | the same boundary outside an explicit transaction, and nothing at all inside one |
| Sessions.Transaction.Commit | src/transaction.rs:124-130 | decides the id as committed unless decided, keeps the id and drops the snapshot |
| Sessions.Transaction.SetInactive | src/transaction.rs:159-164 | decides the id as aborted unless decided |
| Sessions.Transaction.Drop | src/transaction.rs:171-177 | a lost connection aborts its id unless it was decided |
| Sessions.StepKeeps | src/transaction.rs:59-177 | every event keeps: ids are not shared, a running statement has a running id, every active id belongs to an open connection, every begun id is active or decided |
| Sessions.Outcome | src/executor.rs:3825-3844 | for good, in every run: COMMIT commits, ROLLBACK and a lost connection abort, and a statement on its own commits if and only if it succeeds; until then the id is in progress |
| Sessions.BoundaryCommits | src/transaction.rs:112-144 | BEGIN, and a statement outside an explicit transaction, leave the connection's previous id committed unless it was decided before, for good |
| Sessions.NothingLeaks | src/transaction.rs:171-177 | when no connection is open the active table is empty and every begun id is decided |
| Locks.GrantPrefixIsLongest | src/lock_manager.rs:282-312 | an unlock grants a prefix of the queue, all compatible with the holders before it, and stops only at an incompatible waiter |
| Locks.GrantWaiting | src/lock_manager.rs:282-312 | the loop with index removal computes, on any state, the walk that skips blocked readers, stops at a blocked writer and grants the upgrade of a sole holder; in an orderly queue it grants exactly the longest compatible prefix |
| Locks.GrantedExactly | src/lock_manager.rs:93-112 | in an orderly state a request is granted at once if and only if no lock of another transaction conflicts and the requester holds the row or nobody waits |
| Locks.UnlockServes | src/lock_manager.rs:204-235 | an unlock leaves no first waiter who could go on, and the last holder's unlock lets the first waiter go on |
| Locks.FrontStaysBlocked | src/lock_manager.rs:169-235 | that no first waiter could go on is kept by every event other than a timeout and a downgrade |
| Locks.LostWakeups | src/lock_manager.rs:186-199 | those two can leave a compatible first waiter waiting: concrete states |
| Locks.StepKeeps | src/lock_manager.rs:169-235 | an event whose request is a first one or granted at once keeps the lock invariant (an Exclusive holder is alone, waiters imply a holder, nobody waits twice or for what it holds) and the order of the queue |
| Locks.RunSafe | src/lock_manager.rs:93-112 | that invariant in every state of every run of such events |
| Locks.WalkIsPrefix | src/lock_manager.rs:282-312 | in an orderly queue the walk and the longest compatible prefix are the same |
| Locks.ExclusionStays | src/lock_manager.rs:169-235 | every event at all, also an upgrade beside other holders or a request of a waiter, keeps an Exclusive holder alone and a row with waiters held |
| Locks.MutualExclusion | src/lock_manager.rs:93-112 | so in every run of arbitrary events an Exclusive holder is alone |
| Locks.RequestKeepsExactly | src/lock_manager.rs:169-200 | a request keeps the queue free of holders and of duplicates if and only if the transaction does not wait already and, when it holds the row, is granted at once |
| Locks.HolderGetsWhatItAsked | src/lock_manager.rs:182-199 | a holder's request returns with the lock it asked for if and only if it was granted, not when its upgrade was only queued |
| Locks.ExclusiveStays | src/lock_manager.rs:93-112 | an Exclusive holder still is one after an event if and only if the event is neither its own Shared request nor its unlock |
| Locks.ExclusiveLasts | src/lock_manager.rs:169-235 | the same along runs: it holds the lock without a break as long as neither happens, and no longer |
| Locks.FirstComeFirstServed | src/lock_manager.rs:169-235 | in every run, a request queued later holds the lock only after the earlier one was granted or timed out |
| Locks.ReRequestDowngrades | src/lock_manager.rs:93-112 | after Exclusive then Shared by one holder, another reader is let in |
| Locks.LockManager.Lock | src/lock_manager.rs:169-200 | for any request the row's state becomes the specified one, the caller is told whether it holds the lock, exclusion is kept, and the order of the queue is kept if and only if the request was allowed |
| Locks.LockManager.WaitTimedOut | src/lock_manager.rs:189-199 | the waiter leaves the queue and nothing else changes |
| Locks.LockManager.UnlockAll | src/lock_manager.rs:204-235 | every row in the set is released and regranted, every other row keeps its state; exclusion holds afterwards, and order when nobody who unlocks waits |
| LostUpdate.StepKeeps | src/executor.rs:3520-3604 | each lock, wake-up, timeout, recheck, xmax write, unlock and status step keeps the invariant that a cleared writer holds the row and may overwrite its xmax |
| LostUpdate.RecheckExactly | src/executor.rs:3536-3559 | in every reachable state the recheck under the lock goes on to the write if and only if everybody else who ever wrote the version's xmax aborted; otherwise the statement starts over |
| LostUpdate.WritableExactly | src/executor.rs:3520-3604 | in every run, a transaction at work that can have the lock can lock, recheck and write a version if and only if all its other writers aborted, so a rolled back delete never blocks a row |
| LostUpdate.LocksGone | src/executor.rs:3825-3844 | in every run a transaction that released its locks or ended holds none |
| LostUpdate.NoLostUpdate | src/executor.rs:3282-3328 | in every interleaving two different committed transactions never both wrote one row version's xmax |
| LostUpdate.CommittedDeleteStays | src/executor.rs:3531-3559 | in every interleaving a committed xmax is never written again, even though locks are released before the status is set |
| HeapLog.RedoPageStep | src/recovery.rs:329-373 | one record on an image of any prefix gives an image at least up to that record, never fails, and is skipped on a page that is up to date |
| HeapLog.RedoConverges | src/recovery.rs:155-196 | from any mix of images, each the effect of a prefix of its own records, redo over the log yields the effect of applying every record once |
| HeapLog.SecondPassIdle | src/recovery.rs:155-196 | a second redo pass applies nothing |
| HeapLog.SlotOrigin | src/page.rs:175-195 | a slot exists if and only if an insert record made it, and holds that record's row with the last logged xmax |
| CrashRecovery.LogBeforePage | src/buffer_pool.rs:301-322 | in every run, with any checkpoints, every image on disk has an LSN within the durable log and is the effect of that prefix of it |
| CrashRecovery.StepKeeps | src/recovery.rs:34-93 | every action keeps the system invariant: begin, logged or not, row writes, commit, abort, closing without a record, page write-back, CHECKPOINT's writing of the next id, crash, redo step and end of recovery, and its flush of the statuses when these are covered |
| CrashRecovery.RedoNeverFails | src/recovery.rs:329-373 | in every run, with any checkpoints, the next redo step succeeds |
| CrashRecovery.CrashSafety | src/recovery.rs:34-93 | for every run with a crash that cuts the log after any record, and the recovery after it, when status flushes were covered: a transaction is committed afterwards if its Commit record or its flushed status survived and aborted otherwise, a fresh snapshot sees exactly the rows whose creator is committed so and whose last deleter is not, and every transaction that logged its Begin and was reported committed is |
| CrashRecovery.RecoverAgain | src/recovery.rs:375-393 | crashing and recovering again, also in the middle of recovery, changes no answer |
| Checkpoints.CheckpointSafeExactly | src/instance.rs:127-146 | flushing the statuses now is harmless, in that in no continuation an id in use has a decided fate, if and only if every id with a status is at most the largest id of the durable log or the next id last written down |
| Checkpoints.NextIdFirst | src/instance.rs:127-146 | with the next id written down first the flush is always harmless |
| Checkpoints.RolledBackRowAppears | src/transaction.rs:134-144 | a run with a checkpoint that crashes between its two writes after which a row rolled back is visible |
| Checkpoints.UnbracketedRowLost | src/executor.rs:3769-3778 | a run in which a row reported committed, with its records durable, is gone after recovery because no Commit record was written |
| Recovery.Analyze | src/recovery.rs:105-153 | the record-by-record classification equals its definition over the whole log: committed, in flight, largest id |
| Recovery.Driver.Redo | src/recovery.rs:155-196 | the loop over the records does what redo specifies |
| Recovery.Driver.RedoRecord | src/recovery.rs:329-373 | one record on the pages in place does what one redo step specifies, and fails when it does |
| Recovery.Driver.EnsurePageAllocated | src/recovery.rs:290-295 | empty pages are added up to the wanted one and no other page changes |
| Recovery.Driver.Undo | src/recovery.rs:375-393 | exactly one Abort record for each transaction in flight, then a flush |
| Recovery.Driver.Recover | src/recovery.rs:34-93 | on any log and images a crash can leave, the driver succeeds, keeps the log as a prefix, the committed ids are those of the log and of the CLOG file, the rows a fresh snapshot sees are those that survive by them, no id in log or file is handed out again, and the statuses are on disk |
| Bytes.LeRound | src/tuple.rs:69-89 | n little-endian bytes give back a number modulo 256 to the n |
| WalCodec.RecordRound | src/wal.rs:117-345 | for all record kinds and any order of the checkpoint maps, decoding an encoding gives the record if and only if its lengths fit their fields |
| WalCodec.PutAllRebuilds | src/wal.rs:117-193 | listing a map in any order and inserting the pairs rebuilds the map |
| WriteAheadLog.EncodeRecord | src/wal.rs:117-193 | the buffer built field by field, with the maps in whatever order, is an encoding of the record |
| WriteAheadLog.Decode | src/wal.rs:195-345 | the decoder with its moving offset and its error exits computes the record specification |
| WriteAheadLog.ReadRecords | src/wal.rs:506-527 | the read loop computes the stream specification, with its errors |
| WriteAheadLog.StreamRound | src/wal.rs:506-527 | reading the framed encodings of any records, followed by anything, gives the records in order and then what follows gives |
| WriteAheadLog.TornTail | src/wal.rs:506-527 | a stream cut inside a length prefix reads as the whole records before it; cut inside a body it is an error |
| WriteAheadLog.SurvivingPrefix | src/wal.rs:506-527 | whatever a cut at any byte reads as, it is a prefix of the records |
| WriteAheadLog.CutReads | src/wal.rs:506-527 | a log cut at any byte can be read if and only if fewer than four bytes of a record are left over, and then all its whole records are read |
| WriteAheadLog.CrashKeepsDurable | src/wal.rs:454-486 | such a cut behind the forced part of the file loses no durable record |
| WriteAheadLog.WalManager.Reopen | src/wal.rs:368-383 | a manager opened on a file of whole records, with the next LSN set, continues that log |
| WriteAheadLog.WalManager.Append | src/wal.rs:414-427 | LSNs are consecutive, the record is last in the log, nothing becomes durable |
| WriteAheadLog.WalManager.FlushTo | src/wal.rs:454-486 | for any LSN: a covered one changes nothing, otherwise everything appended becomes durable |
| WriteAheadLog.WalManager.ReadBack | src/wal.rs:506-527 | at any moment the file reads back as exactly the records up to the durable LSN |
| BufferPool.BufferPool.Victim | src/buffer_pool.rs:122-139 | the Clock sweep takes the first frame under the hand, in up to two turns, that is unpinned and not referenced or passed once before; it clears the reference bits of the unpinned frames it passes and nothing else, stops one past the victim, and finds none if and only if all are pinned |
| BufferPool.BufferPool.Evict | src/buffer_pool.rs:301-322 | the frame of an unpinned page is emptied; a dirty one goes to disk after the log was flushed up to its LSN, a clean one leaves disk and log alone; nobody sees a difference |
| BufferPool.BufferPool.PickOrEvict | src/buffer_pool.rs:285-299 | gives an empty frame that is in no list, and fails if and only if every frame is pinned |
| BufferPool.BufferPool.FetchPage | src/buffer_pool.rs:228-280 | gives a pin on the page and changes no contents, and fails if and only if the page is not resident and either does not exist or no frame can be freed |
| BufferPool.BufferPool.NewPage | src/buffer_pool.rs:324-377 | the new page is a recycled one or the next on disk and starts empty; no other page changes |
| BufferPool.BufferPool.Read | src/buffer_pool.rs:473-475 | a guard reads the last written contents of its page |
| BufferPool.BufferPool.Write | src/buffer_pool.rs:477-480 | a write through a guard changes that page's contents only |
| BufferPool.BufferPool.Release | src/buffer_pool.rs:425-439 | gives back one pin, and marks the frame dirty when the guard wrote |
| BufferPool.BufferPool.FlushPage | src/buffer_pool.rs:401-418 | the page's contents are on disk unless a writer still holds it |
| BufferPool.BufferPool.FlushAll | src/buffer_pool.rs:379-396 | the log is durable and every page without a writer is on disk, by a sequence of single page write-backs |
| BufferPool.EvictKeeps | src/buffer_pool.rs:301-322 | dropping an unpinned frame after writing it back keeps the pool sound (no page in two frames, pins equal guards, no disk LSN above the durable log) and the contents |
| BufferPool.InstallKeeps | src/buffer_pool.rs:342-377 | installing a page that is on disk, or dirty, keeps the pool sound and sets just that page's contents |
| Composition.WriteBackIsAction | src/buffer_pool.rs:301-322 | when the pool's byte pages stand for the engine's pages, a write-back by eviction or flush is the engine's `WriteBack` action, and they still do afterwards |
| Composition.MoveIsAction | src/buffer_pool.rs:301-322 | every eviction, dirty or clean, fetch, page flush and release is that action or none, and changes neither the log nor a page |
| Composition.TrailIsRun | src/buffer_pool.rs:379-396 | every run of the pool on its own is a run of the engine on which its invariant holds throughout |
| Composition.GrowthIsAction | src/buffer_pool.rs:324-340 | a page added at the end of the file is the engine's `NewPage`, the fresh bytes standing for the empty page |
| Composition.ChangeIsAction | src/buffer_pool.rs:477-480 | a record followed by the write of bytes that stand for the changed page is the engine's row change |
| HeapPages.InsertedIs | src/page.rs:175-195 | an insert on the bytes of a page of rows is the insert on the heap page of its rows |
| HeapPages.PatchedIs | src/page.rs:226-242 | an xmax write on the bytes is the xmax write on the rows |
| HeapPages.RedoInsert | src/recovery.rs:329-355 | redo of an insert record on a byte page is the redo step on its rows, with the same LSN gate and the same failures |
| HeapPages.RedoSetXmax | src/recovery.rs:357-373 | the same for an xmax record |
| PageBytes.InsertKeeps | src/page.rs:175-195 | an insert on the bytes appends one tuple, keeps every other and the disjointness of live ranges, uses its length and a slot, and clears the all-visible bit |
| PageBytes.DeleteKeeps | src/page.rs:211-221 | a delete makes one slot a tombstone and changes nothing else |
| PageBytes.PatchKeeps | src/page.rs:226-265 | bytes written inside a live tuple change that part of that tuple and nothing else on the page |
| PageBytes.CompactKeeps | src/page.rs:273-299 | compaction keeps the slot count and every tuple, and leaves free what header, slots and live bytes do not use |
| PageBytes.CompactTwice | src/page.rs:273-299 | compacting a compacted page changes not one byte |
| SlottedPage.Page.constructor | src/page.rs:65-74 | a new page has no slots and 4072 free bytes |
| SlottedPage.Page.Insert | src/page.rs:175-195 | succeeds if and only if header, slots, one more slot and the tuple fit before the data area, returns the new slot number and appends the tuple; else no byte changes |
| SlottedPage.Page.GetTuple | src/page.rs:197-207 | the tuple of a live slot, none for a tombstone or a slot out of range |
| SlottedPage.Page.Delete | src/page.rs:211-221 | succeeds if and only if the slot is live, and empties just that slot |
| SlottedPage.Page.SetTupleXmax | src/page.rs:226-242 | succeeds if and only if the slot holds at least 16 bytes, and then of all tuples only that one's bytes 8 to 15 change, and the all-visible bit is cleared |
| SlottedPage.Page.SetTupleCtid | src/page.rs:249-265 | succeeds if and only if the slot holds an MVCC header, and then only that tuple's pointer changes |
| SlottedPage.Page.VacuumCompact | src/page.rs:273-299 | the in-place loops compute the compacted page |
| SlottedPage.Page.IsEmpty | src/page.rs:304-313 | true if and only if every slot is a tombstone |
| TupleCodec.BitmapBits | src/tuple.rs:176-188 | a bit of the null bitmap is set if and only if its column is null |
| TupleCodec.RowRoundTrip | src/tuple.rs:176-206 | deserializing a serialized row gives the row if and only if it has the schema's columns, each null or of its type with valid text below four gigabytes |
| TupleCodec.SerializeTuple | src/tuple.rs:176-188 | the two passes build the row's encoding |
| TupleCodec.DeserializeTuple | src/tuple.rs:190-206 | the loop with its offset computes the decoding, with its errors |
| TupleCodec.DeserializeTupleMvccFull | src/tuple.rs:264-277 | header fields and values of a stored row, or an error when a part is missing |
| TupleCodec.MvccRoundTrip | src/tuple.rs:235-277 | a stored row version is read back whole, header and values, if and only if its values conform to the schema |
| TupleCodec.PatchXmax | src/page.rs:226-242 | patching bytes 8 to 15 of any tuple changes the decoded xmax and no other field |
| TupleCodec.PatchCtid | src/page.rs:249-265 | patching the pointer changes the decoded pointer and no other field |
| TupleCodec.MarkReplaced | src/executor.rs:3591-3616 | the header writes of UPDATE and DELETE on a page of rows change the xmax, and with a successor the pointer, of one row version; every other row decodes as before |
| CodecLaws.ValidExactly | src/tuple.rs:101-112 | text is accepted if and only if it is the UTF-8 encoding, section 3 of RFC 3629, of some sequence of scalar values |
| CodecLaws.NullBits | src/tuple.rs:176-188 | in arithmetic: column i is null if and only if bit i % 8, from the low end, of byte i / 8 of the bitmap is 1 |
| CodecLaws.FieldsAre | src/tuple.rs:69-89 | byte i of a stored number is its two's complement divided by 256 to the i, modulo 256; text is its length so and then its bytes; truth values are 1 and 0 |
| KeyCodec.KeyRound | src/btree.rs:57-133 | a value survives as an index key if and only if it is not null and of the column's type |
| KeyCodec.CompareIsOrder | src/btree.rs:137-155 | comparing encoded keys is comparing the values: numbers by size, text by bytes, intervals never; `KeysCompare` says which way |
| KeyCodec.FirstDifferenceDecides | src/btree.rs:145 | one text is before another if and only if it is a proper prefix or smaller at the first byte that differs, and equal only to itself |
| KeyCodec.KeysCompare | src/btree.rs:137-155 | comparing two encoded keys answers less, greater or equal if and only if the values are so, as numbers or by the first difference |
| KeyCodec.InTypeExactly | src/btree.rs:57-75 | the numbers in the tree's range for a type are exactly those of its values |
| KeyCodec.NumericKeys | src/btree.rs:57-75 | keys of a fixed-width type have one length and lie in the tree's range, and number, bytes and value determine each other |
| KeyCodec.TextOrder | src/btree.rs:137-155 | the order of text keys is total: equal only for equal text, antisymmetric, transitive |
| KeyCodec.NullSortsFirst | src/btree.rs:135-155 | a null key reads as the empty text or as an error, and sorts before every other text |
| KeyCodec.LeafEntryRound | src/btree.rs:178-195 | a leaf entry decodes to what was encoded if and only if its key is shorter than 64 kilobytes; its length is the one the tree's limits use |
| KeyCodec.InternalEntryRound | src/btree.rs:198-213 | the same for an internal entry |
| KeyCodec.RebuildNode | src/btree.rs:440-456 | a node rewritten on a reset page holds its entries in order with the old kind, link and LSN, and fails if and only if they do not fit |
| KeyCodec.StoreLeaf | src/btree.rs:415-456 | a leaf fits its page if and only if it is within the tree's limit, leaves the room that the tree counts with, and reads back row by row |
| BTree.HasRoomIff | src/btree.rs:415-418 | the page test for room is the comparison of the entry count with a fixed limit |
| BTree.LimitsExactly | src/btree.rs:415-418 | the tree's limits for leaves and internal nodes are the counts from which on another entry has no room |
| BTree.InsertSorted | src/btree.rs:421-456 | the rebuild loop puts the entry before the first larger key |
| BTree.RightmostLe | src/btree.rs:239-254 | the scan finds the slot before the first larger key |
| BTree.LeafSplits | src/btree.rs:605-656 | two halves of an overfull leaf with the middle key as separator are well-formed, linked in place of the old leaf, and hold its rows and the new one |
| BTree.AbsorbSplits | src/btree.rs:677-726 | two halves of an overfull internal node with the middle separator moved up keep bounds, depth and chain |
| BTree.ParentDone | src/btree.rs:657-732 | what a child's insert did, absorbed by its parent, is an insert of the same key into the parent's subtree |
| BTree.RootGrown | src/btree.rs:550-573 | a new root over the two halves is a stored tree one level higher |
| BTreeShape.FlatOrdered | src/btree.rs:239-254 | strict separators make the leaves' rows, read left to right, strictly sorted within the bounds |
| BTreeIndex.Index.InsertRecursive | src/btree.rs:575-732 | inserts into any stored subtree: separators stay strict bounds, depth stays uniform, pages stay within capacity, the chain stays the leaves in order, and the rows gain just the one entry, by a split where needed |
| BTreeIndex.Index.Insert | src/btree.rs:550-573 | on the whole tree the map gains exactly that key, and an existing (key, rid) changes nothing |
| BTreeIndex.Index.Delete | src/btree.rs:740-775 | removes exactly that (key, rid), tells whether it was there, and changes nothing when it was not |
| BTreeIndex.Index.DescendToLeaf | src/btree.rs:274-310 | ends in the one leaf whose range holds the key |
| BTreeIndex.Index.LookupEq | src/btree.rs:274-329 | answers as the map: the key's rid, or nothing |
| BTreeIndex.Index.FirstGe | src/btree.rs:338-365 | the cursor stands before the first row with key at or above the bound, also past empty leaves |
| BTreeIndex.Index.ReadAt | src/btree.rs:377-410 | gives the row after the cursor and moves past it, across empty leaves, until the rows end |
| BTreeIndex.Index.Scan | src/executor.rs:235-281 | `first_ge` and repeated `read_at` with the upper-bound stop give the rows of the range in order |
| BTreeReads.InRangeExactly | src/executor.rs:235-281 | those rows are exactly the ones with low <= key <= high, sorted |
| BTreeReads.AddedIsUpdate | src/btree.rs:550-573 | gaining one row in sorted order is the map update |
| BTreeReads.DroppedIsRemoval | src/btree.rs:740-775 | losing one row is the map removal, or nothing when it was not there |
| BTreeReads.SearchDivides | src/btree.rs:274-310 | the descent cuts the chain: all rows to the left of its leaf are smaller than the key and all to the right larger |
| BTreeReads.DeleteStored | src/btree.rs:740-775 | rewriting one leaf without an entry leaves a stored tree |
| BTreeBulk.PackedWF | src/executor.rs:1683-1725 | a run of trees under a new parent is a search tree over the run's key range |
| BTreeIndex.Index.BuildLeaves | src/executor.rs:1637-1677 | the leaf pass packs all entries in order into linked, within-capacity leaves |
| BTreeIndex.Index.BuildLevel | src/executor.rs:1683-1725 | each level above is strictly shorter, so the build terminates, and keeps separators, depth, chain and contents |
| BTreeIndex.Index.BulkBuild | src/executor.rs:1616-1728 | the result is a stored tree whose rows are exactly the input |
| Aggregation.SearchFindsTheOnlyHit | src/analyzer.rs:443-500 | a name resolves to a column if and only if that column is its only match in the scopes |
| NameResolution.QualifiedExactly | src/analyzer.rs:443-467 | `q.name` refers to a column if and only if it is the first one called `name` of the relation called `q` that is first in the innermost scope that has one |
| NameResolution.BareExactly | src/analyzer.rs:469-500 | a bare name refers to a column if and only if it is the first of that name in its relation and no other relation in any scope has one |
| HashAggregation.ResolveUnqualified | src/analyzer.rs:469-500 | the loops over scopes and relations resolve the name so, with the unknown and ambiguous errors |
| EvaluatorLaws.NumbersCompare | src/executor.rs:1189-1238 | the six comparisons hold exactly when the relation holds between the numbers, for INT, DOUBLE and mixed |
| EvaluatorLaws.TextCompares | src/executor.rs:1246-1254 | text compares by the first character that differs, a proper prefix first |
| EvaluatorLaws.IntegersCompute | src/executor.rs:1221-1238 | INT sums, differences and products are in range and equal to the exact one up to a multiple of 2^32, exactly when it fits |
| EvaluatorLaws.IntegersDivide | src/executor.rs:1221-1238 | INT quotients: dividend equals quotient times divisor plus a remainder smaller than the divisor and of the dividend's sign; they fail exactly for a zero divisor and the one quotient that does not fit |
| EvaluatorLaws.DoublesCompute | src/executor.rs:1190-1220 | with a DOUBLE on either side the four operations are those of the numbers |
| EvaluatorLaws.TruthTables | src/executor.rs:1239-1245 | AND, OR, NOT and equality of truth values have their tables |
| EvaluatorLaws.NullsPass | src/executor.rs:1182-1187 | a NULL operand makes the result NULL, whatever the operator and the other operand |
| EvaluatorLaws.FailsExactly | src/executor.rs:1182-1376 | without NULL an operation fails if and only if its operands are of kinds it is not for, the divisor is zero or the quotient does not fit |
| EvaluatorLaws.UnaryFailsExactly | src/executor.rs:1378-1387 | NOT fails exactly on non-truth values and negation exactly on non-INTs |
| EvaluatorLaws.Negates | src/executor.rs:1378-1387 | negation is that of the number, except that the smallest INT is its own |
| EvaluatorLaws.LiteralsAre | src/executor.rs:1158-1180 | a literal is its value; an integer beyond 32 bits is equal to it up to a multiple of 2^32 |
| EvaluatorLaws.CompareExactly | src/executor.rs:689-735 | the comparison behind MIN and MAX is that of numbers, of text by the first difference and of truth values, and there is none otherwise |
| AggregateMeaning.AnalyzeExprKeeps | src/analyzer.rs:505-548 | evaluating an analyzed expression is evaluating the parsed one on the row, with its errors |
| AggregateMeaning.FoldIsAggregate | src/executor.rs:482-632 | each aggregate's running state, updated row by row and finalized, is the aggregate of the rows: count, sum, average, least, greatest, with nulls skipped |
| AggregateMeaning.ExtremeIsExtreme | src/executor.rs:519-604 | MIN and MAX give a value of the group that no other value beats |
| AggregateLaws.KindNamesRound | src/analyzer.rs:158-180 | every aggregate is known under its own name |
| AggregateLaws.CountsRows | src/executor.rs:519-604 | in a query, COUNT(*) is the number of the group's rows and COUNT(x) that of the rows on which x is not NULL, as an INT |
| AggregateLaws.SumsValues | src/executor.rs:519-604 | SUM(x) is the sum of x over the rows where it is not NULL, as an INT up to multiples of 2^32, and NULL when there are none |
| AggregateLaws.AveragesValues | src/executor.rs:606-631 | AVG(x) times the number of rows where x is not NULL is their sum |
| AggregateLaws.ExtremesOfValues | src/executor.rs:519-604 | MIN(x) is a value of x in the group that no other is less than, MAX(x) one that is less than no other, as numbers, text or truth values; NULL when all are |
| AggregateLaws.TypesPreserved | src/analyzer.rs:505-548 | on a row whose columns have their types, a value that an analyzed expression has is of the type it was given, or NULL |
| AggregateLaws.AcceptedComputes | src/analyzer.rs:1738-1755 | an aggregate accepted for its argument's type never fails on values of that type, and its result is of the type it was given |
| AggregateLaws.AcceptedExactly | src/analyzer.rs:1738-1755 | and every type refused has values on which the aggregate fails |
| AggregateLaws.SameExactly | src/analyzer.rs:1652-1716 | two expressions count as the same key if and only if they differ in names and types only, and then have the same value on every row |
| AggregateLaws.ContainsExactly | src/analyzer.rs:1630-1648 | the search for aggregates finds one if and only if there is one at some depth |
| AggregateMeaning.PostAggAppends | src/analyzer.rs:802-893 | extraction only appends to the aggregate list, so references made earlier stay correct |
| AggregateMeaning.ExtractionKeeps | src/analyzer.rs:802-893 | on a row of group keys and aggregate results, with any later extension of the list, the rewritten expression evaluates to what the original means over the group's rows |
| AggregateMeaning.ExtractsIffContains | src/analyzer.rs:1630-1648 | the list grows if and only if the expression contains an aggregate |
| AggregateMeaning.SelectKeeps | src/analyzer.rs:693-736 | the same for all items of a SELECT analyzed one after another |
| HashAggregation.AnalyzePostAgg | src/analyzer.rs:802-893 | the recursion that pushes onto the shared list does what extraction specifies |
| HashAggregation.HashAggregate.AddRow | src/executor.rs:769-818 | a row joins the group of its key, which is added when new, and every state stays the fold of its group |
| HashAggregation.HashAggregate.Build | src/executor.rs:769-818 | succeeds if and only if every key and aggregate is computable, and then gives one row of keys and results for each group in order of first appearance; without keys exactly one row with the results over the whole input, also when that is empty |
| HashAggregation.EmptyTotals | src/executor.rs:804-810 | over no rows COUNT is 0 and every other aggregate NULL |
| HashAggregation.QueryKeeps | src/analyzer.rs:685-736 | on each output row of the aggregate every rewritten item evaluates to the original's meaning over that row's group |
| SelectQuery.FilterRows | src/executor.rs:307-322 | the filter loop keeps the rows on which the predicate is true, drops false and null, and fails on anything else, which `WhereKeeps` and `HavingKeeps` put in terms of the written condition |
| SelectQuery.WhereKeeps | src/executor.rs:307-322 | WHERE keeps in order exactly the rows on which the written condition is true, and fails exactly when on some row it fails or is no truth value |
| SelectQuery.HavingKeeps | src/executor.rs:3967-3983 | the rows that HAVING keeps are, in order, the output rows of the groups over which the condition's meaning is true |
| SelectQuery.AcceptedExactly | src/analyzer.rs:802-893 | an expression without aggregates is accepted over grouped rows if and only if every column in it is itself a key |
| SelectQuery.DistinctAccepted | src/analyzer.rs:660-690 | SELECT DISTINCT is accepted if and only if every column that an item mentions is an item of its own |
| SelectQuery.SingleDistinctAccepted | src/analyzer.rs:660-690 | with one item: if and only if it is a column or mentions none |
| SelectQuery.DistinctRows | src/analyzer.rs:660-690 | end to end, the projected rows are the combinations of item values, each once |
| SelectQuery.DistinctCovers | src/executor.rs:769-818 | every input row's combination is among them |
| Lexing.Lexer.ReadInteger | src/lexer.rs:244-263 | the cursor loop reads the longest number, integer or decimal, with its range error |
| Lexing.Lexer.NextToken | src/lexer.rs:146-230 | one token as specified, and the cursor just past it |
| Lexing.Lexer.Tokenize | src/lexer.rs:135-144 | the loop computes the token list of the rest of the input, or its error |
| Spelling.LexesExactly | src/lexer.rs:112-350 | a text lexes to a list of tokens if and only if it spells them: white space, then each token in its spelling with nothing behind it that would run into it, keywords in any case |
| Parsing.Parser.ParseOr | src/parser.rs:1093-1105 | from the cursor, the loop parses what the grammar function parses and stops where it stops |
| Parsing.Parser.ParseComparison | src/parser.rs:1117-1214 | the same for comparisons, IS NULL, IN and BETWEEN with their rewriting |
| Parsing.Parser.ParseAdditive | src/parser.rs:1216-1228 | the same for sums, left-associative |
| Parsing.Parser.ParseMultiplicative | src/parser.rs:1230-1242 | the same for products, left-associative |
| Parsing.Parser.ParsePrimary | src/parser.rs:1264-1382 | the same for literals, columns, calls, parameters and parentheses |
| Parsing.ParseExprStr | src/parser.rs:1546-1554 | lexing and parsing a text, with an error when tokens are left over |
| Grammar.Reads | src/parser.rs:1093-1382 | at every level of precedence, a written expression with parentheses where needed is read as its tree, and the rest is left |
| Grammar.ParsesExactly | src/parser.rs:1546-1554 | a text parses to a tree if and only if it is a written form of that tree |
| Rewriting.BetweenMeans | src/parser.rs:1173-1202 | the value of `x BETWEEN a AND b` as it is read: whether it lies between the bounds, both included, and NULL for a NULL |
| Rewriting.InMeans | src/parser.rs:1135-1172 | the value of `x IN (...)` as it is read: whether an item is equal, and NULL as soon as a value is NULL |
| Printing.LexWrite | src/ast.rs:363-429 | the printed text of an expression lexes to its token list, before any text that cannot run into it |
| Printing.ParseTokens | src/parser.rs:1093-1382 | that token list parses back to the same tree through all precedence levels and leaves what follows |
| Printing.PrintParse | src/ast.rs:363-429 | parsing the printed text of a producible expression gives the same tree and no trailing tokens |
| Printing.RoundTripsExactly | src/ast.rs:363-429 | for expressions without floats, printing and parsing is the identity if and only if literals are non-negative or quote-free and names are names |
| Printing.ParsedIsWellFormed | src/parser.rs:1546-1554 | whatever the parser returns satisfies that condition |
| Printing.ReparsesToItself | src/parser.rs:1546-1554 | so every parsed text without floats prints to a text that parses to the same tree |

## Left out

- Wire protocol, server, COPY, threads, condition variables and files: the disk is a map of pages, the log a sequence with a durable prefix; I/O errors do not occur, other than a missing page.
- Steps inside `begin`, `commit` and `append`, and the shards of the lock table and the pool: each of these operations is atomic.
- Torn page writes and holes of zeros in the log file. The log is opened for appending and stray bytes of a torn length prefix are not cut off; what a later reading gives once records follow them is not modelled.
- B+Tree with equal keys or keys of different lengths: splits are by entry count and the order claims need distinct keys, so the tree's keys are numbers of one width. `sweep_empty_leaves` is not modelled.
- Page ids beyond 32 bits and transaction ids and LSNs beyond 64 bits: the counters do not wrap.
- LEFT JOIN, sorting, LIMIT, DDL, foreign keys, ON CONFLICT and catalog scans.
- Doubles are real numbers without rounding or NaN in expressions, and 64 bits without an order in rows and keys; 32-bit arithmetic wraps as in a release build; sums of more than 2^31 rows do not overflow.
- Temporal functions: `now()` is analyzed but not evaluated, and sequence functions are not modelled.
- Text is its bytes in rows and keys and characters in expressions; the codecs check UTF-8, the lexer does not decode it.
- `Page::restore` and HOT chains beyond the pointer itself.
- Transactions.HorizonSound: one header and snapshots taken since the horizon was read; the page's bit with the writes that clear it is in `VisibilityMap`, and open snapshots are in `OpenSnapshotMissesDead` and `OpenSnapshotSeesMarked`.
- Transactions.HorizonMissesOpenSnapshots: one run; the exact condition is in the two lemmas named before it.
- VisibilityMap.MarkedIsVisible: for a mark before which no live row was hit, since otherwise it is false (`StaleMark`); compaction of slots and the restore of a page are not actions.
- Locks.ReRequestDowngrades: one state; the exact condition is in `ExclusiveStays`.
- Locks.StepKeeps: for requests that are first ones or granted at once, which is exactly when it is true (`RequestKeepsExactly`); for all others see `ExclusionStays`.
- Locks.RunSafe: the same restriction along runs; for all runs see `MutualExclusion`.
- Locks.GrantedExactly: in states of an orderly queue.
- Locks.UnlockServes: in states of an orderly queue.
- Locks.FrontStaysBlocked: in states of an orderly queue and for requests that are first ones or granted at once.
- Locks.LostWakeups: two states; the exact condition is in `FrontStaysBlocked`.
- LostUpdate.WritableExactly: for a transaction whose request is granted at once; how long others hold the lock is up to them.
- CrashRecovery.StepKeeps: a flush of the statuses only when they are covered, which is exactly when it is harmless (`Checkpoints.CheckpointSafeExactly`); the file is written as a whole.
- CrashRecovery.CrashSafety: the log is cut between records. `WriteAheadLog.CutReads` and `CrashKeepsDurable` say which cuts inside a record amount to that; with any other the log cannot be read and the engine does not start. Status flushes are covered, as above. Redo starts at the first record: the record that a checkpoint adds, its dirty page table and the shorter redo from it are not modelled.
- CrashRecovery.RecoverAgain: for runs whose status flushes were covered.
- Recovery.Analyze: begin, commit, abort, insert and delete records, and the set in flight is fixed for logs in which nothing follows a transaction's Commit or Abort record.
- Recovery.Driver.Redo: heap records only; index inserts, sequences, page initialisation and compensation records are not redone, and vacuum edits and chain links are not logged.
- Recovery.Driver.RedoRecord: the same restriction; heap pages have no tombstones here, so none is restored.
- Recovery.Driver.Recover: the same restriction, with redo from the first record.
- WriteAheadLog.WalManager.Append: for records below four gigabytes, since the length prefix has 32 bits.
- WriteAheadLog.WalManager.ReadBack: for a manager opened on nothing or on whole records.
- WriteAheadLog.WalManager.Reopen: for a file that ends with a whole record.
- BufferPool.BufferPool.Evict: for an unpinned frame; a recycled page that is still pinned is not modelled.
- BufferPool.BufferPool.NewPage: for a recycled page that nobody has pinned.
- HeapPages.RedoInsert: on pages without tombstones, so none is restored.
- HeapPages.RedoSetXmax: on pages without tombstones.
- Composition.TrailIsRun: for an engine whose pages are all heap pages without tombstones; index pages are not part of `CrashRecovery`.
- TupleCodec.MarkReplaced: the page edit only; that the row is locked and its header rechecked is in `LostUpdate`.
- KeyCodec.CompareIsOrder: not for DOUBLE keys, whose IEEE order is not modelled.
- KeyCodec.KeysCompare: the same, and not for intervals, which have no order as keys.
- KeyCodec.StoreLeaf: leaves of fixed-width number keys only; an internal node is the same with `KeyCodec.InternalEntryRound` and `KeyCodec.RebuildNode`.
- BTreeIndex.Index.InsertRecursive: for a key that is absent or stored under the same row id, not for equal keys.
- BTreeIndex.Index.Insert: the same.
- BTreeIndex.Index.BuildLeaves: for distinct keys.
- BTreeIndex.Index.BulkBuild: for distinct keys.
- BTreeIndex.Index.Scan: stops at the row ids; heap visibility and the HOT chain that `IndexScan` follows are not part of it.
- AggregateMeaning.AnalyzeExprKeeps: `now()` and sequence functions are errors.
- AggregateMeaning.FoldIsAggregate: doubles are exact and sums unbounded.
- AggregateMeaning.ExtremeIsExtreme: no NaN and no temporal values.
- EvaluatorLaws.FailsExactly: no temporal values.
- EvaluatorLaws.CompareExactly: no NaN and no temporal values.
- AggregateLaws.AcceptedExactly: for the types that have values here, so not for timestamps.
- Rewriting.BetweenMeans: for bounds of the value's kind and for NULLs; an error in a comparison makes the whole an error.
- Rewriting.InMeans: for items of the value's kind and for NULLs.
- AggregateMeaning.SelectKeeps: without alias substitution in ORDER BY and without the check that HAVING is boolean; a HAVING value of another type fails in `SelectQuery.FilterRows`.
- HashAggregation.QueryKeeps: the aggregate alone; HAVING and DISTINCT are in `SelectQuery`, sorting and alias substitution are not modelled.
- Parsing.Parser.ParsePrimary: temporal literals are refused.
