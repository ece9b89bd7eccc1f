# CreDB: a verified model of the enclave's core

CreDB keeps an append-only, sharded ledger of object versions inside a trusted enclave and
serves transactions over it.  This project models the parts on which its guarantees rest and
proves what holds of them in every run.

* **Transactions** (`EventLog`, `FindValidation`, `Transactions`, `Serializability`, `SerialRuns`,
  `TransactionManager`, `LastWrites`, `Prediction`, `CommitOrder`, `CommitExamples`, `EventOrder`).  The ledger, the shard locks and any number of
  transactions form a transition system.  Lock acquisition, validation of each read and query, each
  write, the commit point, each new block and each lock release are separate steps, so all
  interleavings of transactions and of direct writes are covered.  The log of commit points,
  executed one entry at a time, explains every shard at every moment, and every committed read is
  valid again in that serial order; conversely, every legal serial log is the log of some run.  `Manager` is the same system as an object whose methods follow
  the source's loops.  The ids recorded before a commit, and the order that is later computed from
  them, are compared with what the log says.
* **Lock handles** (`RWLock`, `LockHandles`, `NestedLocks`).  Trees of lock handles on many shards,
  with counts that wrap at 16 bits.  An account of outstanding requests is kept beside the counts;
  the physical lock follows it.  Handles opened below a prepared transaction get every shard its
  plan covers.
* **Distributed commit** (`TwoPhaseCommit`).  One coordinator and any number of children, requests
  and votes in flight, peers that are not found and answers that never come.
* **Paged maps** (`VersionNumber`, `PageChain`, `HashChain`, `HashMap`, `HashMapIterator`,
  `HashMapClear`, `PageImages`, `MultiMap`, `MapFailures`).  Chains of pages in which each link carries
  the version it expects, and every page that is loaded is checked.  The hash map is a plain map, the
  multi-map a bag; staleness checks are exact up to the wrap-around of versions and, in the
  multi-map, up to clears.
* **The ledger's books** (`History`, `SecondaryIndex`, `Ledger`, `PrimaryIndex`).  Object histories,
  secondary indexes, queries, the object and version counters, and the paged primary index of a
  collection that is cleared.
* **Page cache and witness text** (`BufferCache`, `Characters`, `Base64`, `Witness`).

Where a property that the code seems to promise does not hold of it, the model keeps the code and
states exactly when the property does hold, with an input on which it fails:

* The event ids a transaction records before it writes start one place after the first new event,
  and the set they are kept in holds ids of one shard only.  They are the new events if and only if
  there are none (`PredictionIsExactIff`, `RecordedIdsAreProducedIff`); on the smallest shard counted
  they are the new events shifted by one if and only if all its writes take effect and no index wraps
  (`PredictionIsShiftedIff`, `RecordedIdsAreShiftedIff`); other shards are forgotten
  (`OtherShardsForgotten`, `OnePutMispredicted`, `AbsentRemovalMispredicted`).
* The order computed from recorded ids of two transactions that only write is commit order if and
  only if their smallest written shards are the same, and Unknown otherwise, as long as all writes
  take effect and no index wraps (`OrderAgreesWithCommitOrderIff`; without these conditions
  `WriteOrderUnknownIff`, `WriteOrderIsCommitOrderIff`).  With reads, `OrderContradictsCommitOrderIff`
  says when the computed order is the opposite of commit order.  A transaction that only reads is
  reported older than the one whose event it read, or concurrent, and never newer
  (`ReaderNeverLooksNewer`, `LaterReaderLooksOlder`).
* `order` of two event ranges compares one wrong field for "newer" (`NewerIsExactIff`, `NewerFails`).
* The set in which a serializable query keeps the ids it saw treats ids of different shards as equal.
  A committed query saw exactly its answers if and only if all ids are of one shard
  (`CommittedFindIsExactIff`, `PhantomCommitted`, `UnchangedRefused`).
* A removal from a multi-map that finds nothing leaves the chain one version behind unless the
  bucket has no page (`RemoveKeepsLinksIff`, `StaleAfterRemoval`).  Index maintenance never does this
  (`UpdateKeepsCover`).
* Overwriting a value through a hash-map iterator keeps the links only in the first page of a
  chain (`SetValueKeepsLinksIff`).  Clearing a collection therefore leaves its primary index readable
  if and only if the live objects from every page but a bucket's first on are a multiple of 65535
  (`ClearWithIndex`, `StaleAfterClear`).
* Clearing a multi-map empties its pages without counting their versions up.  A look-up through older
  images of the pages then finds what was cleared: an image fewer than 65535 versions old passes its
  check exactly if it is the present page or the present page is that image emptied
  (`RecentPassesIff`, `FindUnionIn`, `FoundAfterClear`).
* A version check lets an old page pass exactly when it is a multiple of 65535 versions old
  (`CheckPassesIff`, `OldImagePasses`).  The newer of two bucket updates wins in both orders exactly
  when their distance modulo 65535 is within a window (`NewerWinsIff`, `OutdatedUpdateAccepted`).
* The event id that comes with a version from the history iterator is the version's own exactly
  when it is the first one or lies in another block (`NextHandle`, `WrongHandle`).
* A refused lock upgrade leaves the counts of a handle tree meaningful exactly when no handle off
  the path of the request has an entry for the shard (`Get`, `SiblingUpgrade`).  So does a release
  exactly when such a request was outstanding (`Release`), and a clear exactly when no handle below
  has an entry (`Clear`).
* Base64 text decodes to what was encoded exactly for three bytes or more (`RoundTripIff`).
* Index maintenance stores an entry twice for a new or changed value, and once more for every
  further version (`UpdateContents`); queries are not affected.

`dafny verify dfyconfig.toml` checks the whole project.

## Model

| member | source | states |
|---|---|---|
| `Serializability.CommitOrderIsSerial` | src/enclave/Transaction.cpp:116-247 | For every run of any number of interleaved transactions and direct writes: the log lists each committed transaction once, executing the log serially makes every recorded validation succeed again, and at every moment every shard without a writer is exactly what that serial execution leaves |
| `Serializability.ValidIffAnswers` | src/enclave/op_info.cpp:86-551 | An operation passes validation exactly if, asked again, it gets its recorded answer as far as its isolation level cares: presence, the latest event, or the query's answers struck off; a write passes exactly if its key is of letters, digits and underscores |
| `Serializability.StaleAnswerFails` | src/enclave/op_info.cpp:92-101 | A transaction with an answer about an object's presence that is no longer right does not validate |
| `Serializability.CommittedAnswersHold` | src/enclave/Transaction.cpp:161-180 | For every run: at its place in the serial order every operation of a committed transaction gets its recorded answer again |
| `Serializability.CommittedHasRepeats` | src/enclave/op_info.cpp:92-118 | For every run: a committed transaction saw an object as present if and only if it is present at the transaction's place in the serial order |
| `Serializability.CommittedResultsRepeat` | src/enclave/op_info.cpp:454-551 | For every run: every object a committed query below Serializable found is there at its place in the serial order, with the recorded event as its latest one under RepeatableRead |
| `LastWrites.LastWriteDecides` | src/enclave/Ledger.cpp:533-641 | For every run: after the last write to an object in commit order, every later serial state shows what that write says, whatever else was committed in between: the document put, no object after a removal, the addition or the insertion made to the version just before, one version up and marked with its transaction |
| `LastWrites.UnwrittenStays` | src/enclave/Ledger.cpp:533-641 | For every run: an object that no entry writes to is as it was at the start |
| `Serializability.LocksAreTakenInOrder` | src/enclave/Transaction.cpp:123-137 | In every run locks are taken from the smallest shard up, so no two transactions on their way each hold a shard the other has still to take |
| `Serializability.PlannedIff` | src/enclave/Transaction.cpp:73-84 | In every run a transaction plans exactly the shards of the objects its operations name, all of them for a serializable query, and for writing exactly where one writes |
| `Serializability.QueryNeedsAll` | src/enclave/op_info.cpp:376-395 | A serializable query locks all 64 shards |
| `Serializability.StepKeepsInv` | src/enclave/Transaction.cpp:31-247 | Every single step of every transaction keeps the invariant that ties locks, records, shards, log and registry together |
| `Serializability.QuiescentLedgerIsSerial` | src/enclave/Transaction.cpp:185-247 | When no commit is under way, the whole ledger is the serial outcome of the log |
| `SerialRuns.RunsAreExactlySerial` | src/enclave/Transaction.cpp:116-247 | The logs that runs can leave are exactly the legal serial logs in which no transaction occurs twice, page numbers are recorded for the written shards and a write outside transactions is a single one |
| `SerialRuns.LogsGrowIff` | src/enclave/Transaction.cpp:116-247 | The log of a run can be extended by an entry if and only if the entry is legal on the serial outcome, well kept and of a transaction not in it |
| `Serializability.RecordedReadsRepeat` | src/enclave/Transaction.cpp:86-108 | The event a committed transaction recorded for a read (isolation above ReadCommitted) is the latest event of the object at the transaction's place in the serial order |
| `Serializability.CommittedFindIsExactIff` | src/enclave/op_info.cpp:454-551 | For every run: at its place in the serial order, a committed serializable query recorded exactly the ids of all its answers if and only if the recorded ids and the answers are of one shard |
| `FindValidation.StrikesOffIff` | src/enclave/op_info.cpp:454-499 | Striking answers off the kept ids succeeds exactly when the answers are the kept ids, each once, or are kept ids and one last id of another shard while some kept id is no answer at all |
| `FindValidation.AcceptedIsExactIff` | src/enclave/op_info.cpp:454-499 | A query that passes validation saw exactly its present answers if and only if all ids in play are of one shard |
| `FindValidation.PhantomAccepted` | src/enclave/op_info.cpp:454-499 | One recorded id and one answer of another shard: validation passes although the answer is new |
| `FindValidation.UnchangedRefused` | src/enclave/op_info.cpp:454-499 | A query with answers of two shards is refused although nothing has changed |
| `CommitExamples.PhantomCommitted` | src/enclave/op_info.cpp:454-551 | A run in which the one answer a serializable query recorded is removed, another object that matches is put on another shard, and the query's transaction commits although it never saw the only answer there is |
| `Serializability.RegistryTracksTransactions` | src/enclave/TransactionManager.cpp:40-112 | In every run the registry holds exactly the pending and prepared transactions (and those being cleaned up), a prepared one holds each planned lock in the strongest mode any operation asked for, a finished one holds none |
| `Serializability.PlanIsStrongest` | src/enclave/Transaction.cpp:73-84 | Planning one more operation keeps the plan at the strongest mode per shard, with no shard that no operation needs; a serializable query needs all shards |
| `Serializability.Exclusive` | src/common/util/RWLockable.inl:77-209 | Two transactions that hold a shard while one holds it for writing are the same |
| `RWLock.GrabAgrees` | src/common/util/RWLockable.inl:77-204 | Taking an available lock keeps the lock state equal to its set of holders |
| `RWLock.AvailableIff` | src/common/util/RWLockable.inl:77-204 | A lock can be taken for reading exactly if nobody writes, and for writing exactly if nobody holds it |
| `RWLock.DropAgrees` | src/common/util/RWLockable.inl:146-209 | Giving a hold back keeps the lock state equal to its set of holders |
| `RWLock.WriterIsAlone` | src/common/util/RWLockable.inl:77-209 | A writer excludes every other holder |
| `TransactionManager.Manager.InitLocal` | src/enclave/TransactionManager.cpp:40-51 | A fresh local transaction is registered under an id never used before |
| `TransactionManager.Manager.InitRemote` | src/enclave/TransactionManager.cpp:53-78 | A registered remote transaction is found and left alone; under a number that is not registered, or no longer, a new one begins; one of an unknown root is refused without effect |
| `TransactionManager.Manager.TakeLocks` | src/enclave/Transaction.cpp:123-137 | All planned locks are taken exactly when every one of them is available; otherwise no lock has changed at the end |
| `TransactionManager.Manager.ValidateAll` | src/enclave/Transaction.cpp:161-180 | Validation accepts exactly when every operation, asked again on the present shards, still gets its recorded answer |
| `TransactionManager.Manager.Prepare` | src/enclave/Transaction.cpp:116-183 | Prepare succeeds exactly when the transaction is pending, no transaction holds a planned shard in a mode that excludes the plan, and every operation still gets its recorded answer; a failed one leaves only its aborted record behind |
| `TransactionManager.Manager.Commit` | src/enclave/Transaction.cpp:185-247 | A prepared transaction moves the ledger as its serial execution does, enters the log with the ids asked for before its writes and those they made, gives every lock back and leaves the registry; any other is refused without effect |
| `TransactionManager.Manager.Abort` | src/enclave/Transaction.cpp:31-71 | Abort changes nothing but the record, its locks and the registry, is harmless on an aborted transaction and refused on a committed one |
| `TransactionManager.Manager.Shutdown` | src/enclave/TransactionManager.cpp:10-38 | The shutdown loop ends; the registry is empty, every lock is free, shards and log are untouched |
| `TransactionManager.DropUndoesGrab` | src/enclave/Transaction.cpp:123-137 | Taking available locks and giving them back restores every lock |
| `Prediction.PredictIs` | src/enclave/Transaction.cpp:192-211 | The recorded write set is exactly the ids asked for on the smallest shard with writes counted: as many as the 16-bit count of writes, from one place after the end of the pending block, wrapped at 16 bits |
| `Prediction.WritesOnIs` | src/enclave/Transaction.cpp:192-211 | The writes counted on a shard are the operations that write to an object of it, in 16 bits |
| `Prediction.ReadSetIs` | src/enclave/Transaction.cpp:86-108 | The recorded read set is, of the events the operations have seen, those of the shard of the first one |
| `Prediction.PredictionIsExactIff` | src/enclave/Ledger.cpp:126-139 | The ids recorded for a commit are the ids its writes make if and only if no write is counted on any shard and none takes effect |
| `Prediction.PredictionIsShiftedIff` | src/enclave/Ledger.cpp:126-139 | On the smallest shard counted the recorded ids are the new events, each one place further on, if and only if all writes counted there pass their guards and no index wraps |
| `Prediction.OtherShardsForgotten` | src/enclave/Transaction.cpp:192-211 | No id of any other shard is recorded, however many events are made there |
| `Prediction.OnePutMispredicted` | src/enclave/Ledger.cpp:126-139 | One put of a new object: its event is not the id recorded |
| `Prediction.EffectIsExpected` | src/enclave/Ledger.cpp:533-641 | Whether a write takes effect is decided by what exists before the commit and by the kinds, paths and documents of the writes up to it |
| `Prediction.AbsentRemovalMispredicted` | src/enclave/Ledger.cpp:126-139 | Removing an object that is not there: an id is recorded and none is made |
| `CommitOrder.RecordedIdsAreProducedIff` | src/enclave/Transaction.cpp:192-218 | For every run: the write set a committed transaction recorded before writing is the set of events its writes made if and only if, at its place in the serial order, it counted no write and none took effect |
| `CommitOrder.RecordedIdsAreShiftedIff` | src/enclave/Transaction.cpp:192-218 | For every run: on the smallest shard counted the recorded ids are the new events, each one place too far, if and only if all writes counted there take effect and no index wraps; no id of another shard is recorded |
| `Prediction.ProducedIs` | src/enclave/Ledger.cpp:643-757 | The ids a sequence of operations produces are those of the consecutive places at the end of each pending block, as many as writes take effect |
| `CommitOrder.LaterEventsAreNewer` | src/enclave/Ledger.cpp:875-891 | On a shared shard, every event of a later log entry comes after every event of an earlier one |
| `CommitOrder.OrderAgreesWithCommitOrderIff` | include/credb/event_id.h:260-284 | For any two committed transactions of any run that only write, whose writes take effect without wrapping: the order of the bounds of what they recorded is commit order in both directions if their smallest written shards are the same, and Unknown if not |
| `CommitOrder.WriteOrderUnknownIff` | include/credb/event_id.h:260-284 | For any two committed transactions of any run, the order of their recorded write sets is Unknown if and only if their smallest counted shards differ or one counts none |
| `CommitOrder.WriteOrderIsCommitOrderIff` | include/credb/event_id.h:237-284 | For two recorded write sets of one shard: the order is commit order if and only if a block was started in between or the earlier one's indexes are the smaller ones, and the opposite exactly if no block was started and the later one's indexes wrapped below |
| `CommitOrder.WriteOrderWithoutWrap` | include/credb/event_id.h:237-284 | Without a wrap the order is never the opposite, and is commit order if and only if a block was started in between or as many events came in between as the earlier one counted writes |
| `CommitOrder.OrderContradictsCommitOrderIff` | include/credb/event_id.h:237-284 | For any two committed transactions of any run, over the ids they recorded, reads included: if the later one recorded writes on the smallest shard both have ids of, the order of bounds is the opposite of commit order exactly when the wrong comparison of block numbers makes it, and is commit order exactly when all ids are in order |
| `CommitOrder.CommittedReadsAreBehind` | src/enclave/Transaction.cpp:86-108 | The ids a committed transaction recorded for its checked reads are of events older than all it made |
| `CommitOrder.ReaderNeverLooksNewer` | include/credb/event_id.h:237-284 | For every run: a transaction that recorded only reads of events another one made, which only wrote and wrote on that shard with full effect and without a wrap, is reported older than it if it read just the first of them and concurrent otherwise |
| `CommitExamples.LaterReaderLooksOlder` | include/credb/event_id.h:237-284 | A run in which a transaction puts a new object and commits, another one reads that object or an older one of its shard and commits, and the order of what they recorded makes the writer the later one |
| `EventOrder.IdOrder` | include/credb/event_id.h:163-186 | Ids of one shard are totally ordered by position, ids of two shards never |
| `EventOrder.OlderIsExact` | include/credb/event_id.h:237-243 | A range is reported older exactly when all its events precede all of the other's |
| `EventOrder.NewerIsExactIff` | include/credb/event_id.h:244-248 | The exact condition on the two ranges under which "newer" is reported rightly |
| `EventOrder.NewerFails` | include/credb/event_id.h:244-248 | Two pairs of ranges on which "newer" is missed and wrongly reported |
| `EventOrder.SingleBlockOrder` | include/credb/event_id.h:237-253 | On ranges inside one block each, the order is exact in both directions |
| `EventOrder.SmallestSharedShardDecides` | include/credb/event_id.h:260-284 | The order of bounds is the range order of the smallest shared shard, and Unknown exactly if no shard is shared |
| `EventOrder.GetBoundaries` | src/enclave/TransactionHandle.cpp:9-52 | The bounds of a set of ids are, per shard, the tightest range around the ids of that shard, whatever the order of the ids |
| `LockHandles.LockFollowsCounts` | src/enclave/LockHandle.cpp:28-241 | The physical lock is held for writing when some handle counts a write, for reading when there are only reads, and free when no handle has an entry |
| `LockHandles.GetOutcome` | src/enclave/LockHandle.cpp:68-185 | A request is granted exactly if the root has no entry and the lock is free, or read and asked for reading, or the root has an entry and needs no upgrade, or is the only reader; otherwise it would block exactly if the call or a handle on its path must not wait, and waits exactly if none does |
| `LockHandles.GetMovesLock` | src/enclave/LockHandle.cpp:68-185 | What a request does to the lock: one hold more, an upgrade, nothing, or the loss of the root's hold, by outcome and root entry |
| `LockHandles.GetMovesCounts` | src/enclave/LockHandle.cpp:68-185 | What a request does to the entries: one more on its path when granted, none left on it when it would block, and no other change |
| `LockHandles.ReleaseIff` | src/enclave/LockHandle.cpp:187-241 | A release goes through exactly if every handle on its path has an entry |
| `LockHandles.ReleaseMovesCounts` | src/enclave/LockHandle.cpp:187-241 | It takes one from every count on its path, at 16 bits, erases an entry with nothing left, and changes no other |
| `LockHandles.ReleaseMovesLock` | src/enclave/LockHandle.cpp:187-241 | The lock loses the root's hold when its entry goes, is downgraded with its last write, and stays otherwise |
| `LockHandles.GetKeepsSound` | src/enclave/LockHandle.cpp:68-185 | A granted request adds one to the count of every handle on its path and to no other, and the lock still agrees with the roots |
| `LockHandles.RefusedUpgradeSound` | src/enclave/LockHandle.cpp:134-171 | A refused upgrade with no other handle of the tree on the shard leaves the tree without the shard and all else in step |
| `LockHandles.RefusedUpgradeUnsound` | src/enclave/LockHandle.cpp:134-171 | If a handle off the path has an entry, no account of outstanding requests fits the state a refused upgrade leaves |
| `LockHandles.BlockedHarmless` | src/enclave/LockHandle.cpp:76-115 | A request refused for want of a fresh lock changes nothing |
| `LockHandles.ReleaseKeepsSound` | src/enclave/LockHandle.cpp:187-241 | Releasing an outstanding request always works and takes one from every count on its path, with downgrade or unlock where due |
| `LockHandles.UndueReleaseUnsound` | src/enclave/LockHandle.cpp:187-241 | After a release of a request that was not outstanding, no account of outstanding requests fits the counts |
| `LockHandles.ClearChild` | src/enclave/LockHandle.cpp:28-47 | Clearing a child gives back to its parent, mode by mode, exactly the requests made through the child; entries of handles below it stay behind, and without them all is in step |
| `LockHandles.ClearRootSound` | src/enclave/LockHandle.cpp:48-66 | Clearing a root unlocks once and gives back exactly what was asked through its tree; without the entries that stay behind below it, all is in step |
| `LockHandles.LockTable.Get` | src/enclave/LockHandle.cpp:68-185 | The exact condition for every outcome of a request on the table of all handles, and the outstanding requests of every shard afterwards; all is in step if and only if it is not a refused upgrade with an entry off the path, and the 16-bit counts are not full |
| `LockHandles.LockTable.Release` | src/enclave/LockHandle.cpp:187-241 | Without an entry a release is refused without effect; otherwise all is in step afterwards if and only if such a request was outstanding, which is then the only one gone |
| `LockHandles.LockTable.Clear` | src/enclave/LockHandle.cpp:28-66 | After a clear the handle has no entry on any shard and exactly what was asked through it is gone; all is in step if and only if no handle below it had an entry |
| `LockHandles.LockTable.NewHandle` | src/enclave/LockHandle.cpp:13-16 | A new handle holds nothing and disturbs no one |
| `LockHandles.SiblingUpgrade` | src/enclave/LockHandle.cpp:134-171 | Two children of one handle and a stranger read a shard, one child asks to write without waiting: no account of outstanding requests fits what is left |
| `NestedLocks.NestedGetSucceeds` | src/enclave/LockHandle.cpp:68-185 | Through a root that counts the shard in a mode at least as strong, a request is always granted and the lock is not touched |
| `NestedLocks.PlannedOperationGetsShards` | src/enclave/Transaction.cpp:123-180 | Once a transaction's handle counts its planned shards, every operation that was planned for gets every shard it touches, in the mode it needs, through any handle below |
| `NestedLocks.HoldFollowsTokens` | src/enclave/LockHandle.cpp:28-241 | Counts and lock of a shard follow from which requests are outstanding, in whatever order they came |
| `NestedLocks.AskAndClear` | src/enclave/LockHandle.cpp:28-185 | An operation's own handle is granted everything it asks for in a mode the transaction covers, and clearing it leaves lock and counts as they were |
| `TwoPhaseCommit.StepKeepsInv` | src/enclave/TransactionExecutor.cpp:16-192 | Every step of coordinator, child or network keeps the protocol's invariant: each child is asked once and votes once, no child that voted no is prepared or committed, and decisions, requests and states of the nodes go together |
| `TwoPhaseCommit.Agreement` | src/enclave/TransactionExecutor.cpp:16-192 | In every reachable state no node is committed while another is aborted, whatever peers are missing and whatever answers are lost |
| `TwoPhaseCommit.CommitMeansAllPrepared` | src/enclave/TransactionExecutor.cpp:137-192 | In every run, once any node has committed, every node is prepared or committed, after a prepare of it that succeeded |
| `TwoPhaseCommit.PreparedMeansSucceeded` | src/enclave/RemoteParty.cpp:852-888 | In every run, whoever is prepared or committed, and whoever voted yes, has had a prepare that succeeded |
| `TwoPhaseCommit.FailedPrepareAborts` | src/enclave/RemoteParty.cpp:852-888 | In every run, a child whose prepare fails while it is pending is aborted from that step on and has voted no |
| `TwoPhaseCommit.FailedLocalPrepareAborts` | src/enclave/TransactionExecutor.cpp:16-87 | In every run, a coordinator whose own prepare fails is aborted from that step on |
| `TwoPhaseCommit.PendingIff` | src/enclave/RemoteParty.cpp:852-888 | In every run, a child that was pending is so still exactly if no prepare of it succeeded or failed and it was not told to abort |
| `TwoPhaseCommit.CommitIsNeverRefused` | src/enclave/RemoteParty.cpp:891-920 | A commit request always finds its node prepared |
| `TwoPhaseCommit.SettledTogether` | src/enclave/TransactionExecutor.cpp:88-192 | When nothing more can happen, the coordinator is through, also if its own prepare threw, and every child that could be told carries out its decision |
| `TwoPhaseCommit.SmoothRunsCommit` | src/enclave/TransactionExecutor.cpp:16-192 | If every peer is found, every answer comes and every prepare succeeds, a settled run has committed everywhere |
| `TwoPhaseCommit.RunsAreBounded` | src/enclave/TransactionExecutor.cpp:16-192 | Every run ends: its length is bounded by a measure of its start |
| `VersionNumber.SameVersionIff` | src/enclave/version_number.h:37-50 | Two counts have the same wrapped version exactly when they differ by a multiple of 65535 |
| `VersionNumber.LessIff` | src/enclave/version_number.h:56-72 | The wrapped comparison of two counts less than one wrap apart, as a condition on their distance |
| `BucketUpdates.DeliveryOrderDoesNotMatter` | src/enclave/AbstractMap.h:68-88 | Updates less than a window apart leave the newest one in place whatever the order and the repetitions, across wrap-around |
| `BucketUpdates.NewerWinsIff` | src/enclave/AbstractMap.h:79-86 | Exactly when the newer of any two updates wins in both orders: when their distance modulo 65535 is within the window or, if it is zero, when they are the same |
| `BucketUpdates.OutdatedUpdateAccepted` | src/enclave/AbstractMap.h:79-86 | One window apart, an outdated update replaces a newer one |
| `BucketUpdates.DownstreamRoot.ApplyChanges` | src/enclave/AbstractMap.h:68-88 | Whatever updates arrived before and in whatever order, the bucket is the newest state it was sent as long as all of them lie less than a window apart; no other bucket changes |
| `HashChain.InsertIsPut` | src/enclave/HashMap.cpp:241-273 | Inserting along the pages of a chain is putting into one association list |
| `HashChain.InsertKeepsChain` | src/enclave/HashMapNode.h:85-143 | After an insert every page but the last is full, no page is empty and no key occurs twice, and every link has the version of its page if it had before |
| `HashChain.InsertLookup` | src/enclave/HashMap.cpp:241-297 | An insert binds its key and changes the binding of no other |
| `HashChain.LookupIsFind` | src/enclave/HashMap.cpp:275-297 | Looking a key up page by page finds what the association list holds |
| `HashChain.SetValueKeepsLinksIff` | src/enclave/HashMap.cpp:95-123 | Overwriting through an iterator keeps the links exactly in the first page |
| `HashChain.SetValueLookup` | src/enclave/HashMap.cpp:95-123 | Overwriting through an iterator binds the key to the new value and changes no other binding |
| `HashChain.ReplacedLinkedIff` | src/enclave/HashMap.cpp:95-123 | After a walk that overwrites values, a linked chain is linked if and only if for every page but the first the number of values overwritten from it on is a multiple of 65535 |
| `HashChain.ReplacedLookup` | src/enclave/HashMap.cpp:95-123 | After such a walk every key is bound to its new value, or to the old one where it got none |
| `HashMap.CheckPassesIff` | src/enclave/AbstractMap.h:231-252 | An earlier image of a page passes the version check exactly when its age is a multiple of 65535 |
| `MapFailures.OldImagePasses` | src/enclave/AbstractMap.h:231-252 | One key inserted 65536 times, its page put back as it was after the first: the lookup passes every check and returns the first binding |
| `HashMap.HashMap.Get` | src/enclave/HashMap.cpp:275-297 | The lookup follows the links through whatever images of the pages it is given; in a linked map with images fewer than 65535 versions old it returns the present binding or a staleness error, never an old value; on the present pages of any map it returns an error exactly at the first page that does not match its link |
| `HashMap.HashMap.Insert` | src/enclave/HashMap.cpp:241-273 | With every link in order an insert is made whole or not at all: the map gains exactly the one binding, or a page fails its check and all bindings and links are as they were; on the present pages it goes through exactly if the links up to the page that takes the entry match; all other buckets are as they were |
| `HashMap.HashMap.InsertInChain` | src/enclave/AbstractMap.h:108-155 | The loop over first page and successors ends: it leaves the chain the insert should leave, at most one new page longer, or stops at a page that fails its check, with the pages before it counted up; no foreign page is touched |
| `HashMap.HashMap.NextPage` | src/enclave/AbstractMap.h:108-133 | Passing to the successor raises page and link versions by one and makes a missing page; a successor that fails its check is refused after the page itself has counted up |
| `HashMapIterator.Iterator.Next` | src/enclave/HashMap.cpp:125-155 | One step leaves exactly the entries that come after the present one, or stops at a page that does not have the version its link expects |
| `HashMapIterator.Iterator.NextBucket` | src/enclave/HashMap.cpp:195-228 | Moving on finds the first entry of the next bucket with pages, or the end, or stops at a first page that does not have the version the bucket expects |
| `HashMapIterator.AllKeys` | src/enclave/HashMap.cpp:26-56 | A scan ends and gives every bound key exactly once, or a staleness error; on the present pages never the error |
| `HashMapIterator.Iterator.SetValue` | src/enclave/HashMap.cpp:95-123 | The present entry gets the value; its page stores, the pages before it count their own version up but not what they expect of their successor, and no other bucket changes |
| `HashMapClear.ReplaceAll` | src/enclave/Ledger.cpp:826-864 | A walk that overwrites some values ends, and goes through exactly if the map was in order; every key then has its new value or its old one, and the map is in order again if and only if, from every page but a bucket's first on, the values overwritten are a multiple of 65535 |
| `HashMapClear.ReplaceAndStep` | src/enclave/HashMap.cpp:95-155 | One turn of such a walk: only the present entry's binding changes, and the walk goes on to the next entry or stops at a link that was broken before, having met exactly the keys it gets to over links in order |
| `MapFailures.StaleAfterClear` | src/enclave/Ledger.cpp:826-864 | Two keys inserted into one bucket on two pages and cleared: the second key is bound, and looking it up on the present pages is a staleness error |
| `PageChain.BytesConcat` | src/enclave/HashMapNode.h:51-54 | The bytes of a page's entries add up, each entry counted once |
| `BagChain.InsertBag` | src/enclave/MultiMapNode.h:105-122 | An insert along a chain adds one copy of the entry |
| `BagChain.RemoveBag` | src/enclave/MultiMapNode.h:23-63 | A removal along a chain takes one copy away if there is one |
| `BagChain.InsertPlace` | src/enclave/MultiMap.cpp:282-304 | An insert goes to the first page with fewer than 1024 bytes, or to a new one behind the last; the pages before it are passed and the rest stays |
| `BagChain.RemovePlace` | src/enclave/MultiMap.cpp:246-276 | A removal takes the first copy from the first page that holds the entry; the pages before it are passed and the rest stays |
| `BagChain.RemoveKeepsLinksIff` | src/enclave/MultiMap.cpp:246-276 | A removal keeps every link version right exactly when it finds the entry or the bucket has no page |
| `MapFailures.StaleAfterRemoval` | src/enclave/MultiMap.cpp:246-276 | One entry inserted and an absent one removed from the same bucket: the entry is there and looking it up is a staleness error |
| `MultiMap.InsertInBucket` | src/enclave/MultiMap.cpp:282-304 | The insertion loop does what the chain function says, or stops at a page of unexpected version without changing an entry; every page stays, or counts up |
| `MultiMap.RemoveInBucket` | src/enclave/MultiMap.cpp:246-276 | The removal loop does what the chain function says and reports whether the entry was there, or stops at a page of unexpected version without changing an entry; every page stays, or counts up |
| `MultiMap.CountInBucket` | src/enclave/MultiMap.cpp:226-244 | The value count of a key is exact |
| `MultiMap.MultiMap.Insert` | src/enclave/MultiMap.cpp:282-304 | The bag grows by one copy and the size with it; on intact chains the insert always succeeds and keeps them intact |
| `MultiMap.MultiMap.Remove` | src/enclave/MultiMap.cpp:246-276 | The bag loses one copy exactly when it has one; intact chains stay intact exactly when it has one or no page is touched |
| `MultiMap.MultiMap.FindUnion` | src/enclave/MultiMap.cpp:210-224 | The result is the given set and the values of the key in the bag; a staleness error exactly if some page of the bucket does not match its link |
| `MultiMap.MultiMap.FindIntersect` | src/enclave/MultiMap.cpp:172-208 | The result is the part of the given set that the bag has under the key |
| `MultiMap.MultiMap.Clear` | src/enclave/MultiMap.cpp:306-323 | The bag is empty, the size zero, every page is emptied under its old version, and intact chains are still intact |
| `PageImages.CheckPassesIff` | src/enclave/AbstractMap.h:231-252 | An earlier image of a page of a multi-map passes the version check exactly when the page has counted up a multiple of 65535 times since, clears not counted |
| `PageImages.RecentPassesIff` | src/enclave/MultiMapNode.h:65-81 | An image fewer than 65535 versions old passes exactly if it is the present page or the present page is that image emptied |
| `PageImages.RecentImagesPassIff` | src/enclave/AbstractMap.h:231-252 | Of a linked chain and such images, a reader gets through exactly if every image is the present page or one from before the clear that emptied it, and then reads all of them |
| `MultiMap.MultiMap.FindUnionIn` | src/enclave/MultiMap.cpp:210-224 | The look-up through whatever images of the pages it is given; of an intact map and images fewer than 65535 versions old, it finds all values of the key in the bag and besides them exactly those of images from before a clear |
| `MapFailures.FoundAfterClear` | src/enclave/MultiMap.cpp:306-323 | One entry inserted and the map cleared: through the page's image from before the clear the look-up passes every check and finds the entry |
| `SecondaryIndex.UpdateKeepsCover` | src/enclave/Ledger.cpp:675-712 | A new version of a document leaves an index with an entry for every live document that has the path and with intact chains, for any hash function; its removal always finds its entry |
| `SecondaryIndex.UpdateContents` | src/enclave/Ledger.cpp:675-712 | The exact bag of entries after a new version, copies included |
| `SecondaryIndex.FewerDocsCovered` | src/enclave/Ledger.cpp:967-999 | Tombstones leave stale entries but never a gap |
| `SecondaryIndex.MatchIsListed` | src/enclave/Index.cpp:117-173 | Every live document that matches a query is listed by every index that can serve it |
| `SecondaryIndex.MatchesIff` | src/enclave/Index.cpp:117-173 | A document matches a query exactly if at every path it has the value asked for, one of the values listed, or what the operator wants |
| `SecondaryIndex.Find` | src/enclave/Index.cpp:117-173 | The look-up for equality and for a list of values, united with or intersected into a set |
| `SecondaryIndex.UpdateIndex` | src/enclave/Ledger.cpp:687-712 | On a covering index the calls of a document update all succeed and give the updated index |
| `Ledger.PutKeepsInv` | src/enclave/Ledger.cpp:643-757 | Adding a version keeps objects in their shards, all indexes covering with intact chains, both counters exact and every object's links showing its past |
| `Ledger.TombstoneKeepsInv` | src/enclave/Ledger.cpp:618-627 | Removing an object keeps the same invariant |
| `Ledger.OrganizeKeeps` | src/enclave/Ledger.cpp:875-891 | A new block changes no object, no counter and no index |
| `Ledger.LedgerShowsHistory` | src/enclave/Ledger.cpp:533-757 | In every state of the ledger the links of an object show exactly its past, the documents put since it was last created, and nothing else; its document is the last of them |
| `Ledger.BuildIndex` | src/enclave/Collection.cpp:58-84 | A new index covers the collection |
| `Ledger.ChooseIndexes` | src/enclave/Ledger.cpp:1001-1057 | One usable index is chosen for every path of the query that has one, and no two for the same path |
| `Ledger.Candidates` | src/enclave/Ledger.cpp:1058-1084 | The merged candidates are exactly the keys all chosen indexes list, and miss no answer, whatever the order of the indexes |
| `EventLog.WriteEffect` | src/enclave/Ledger.cpp:533-641 | What a write leaves of its object, for every kind of write and everything that may be there: fields, version number, link to the version before, transaction and id, or nothing at all; no other object, event or block changes |
| `EventLog.OrganizeEffect` | src/enclave/Ledger.cpp:875-891 | A new block is started exactly when the pending one has 5120 bytes or more, and no object or event changes |
| `Ledger.Ledger.ApplyWrite` | src/enclave/Ledger.cpp:533-641 | A write leaves of the object exactly what its kind makes of what was there (an addition calls the JSON add, a put at a path the JSON insert, each one version up), makes of the object's past what it should, leaves every other object, event and past alone, and keeps the invariant |
| `Ledger.Ledger.Find` | src/enclave/Ledger.cpp:1001-1100 | With any set of indexes or none, the result is exactly the live documents of the collection that fulfil the query path by path, each once |
| `Ledger.Ledger.CountObjects` | src/enclave/Ledger.cpp:946-965 | Without a collection the number of live objects, otherwise the number of answers of the query |
| `Ledger.Ledger.Clear` | src/enclave/Ledger.cpp:822-873 | The objects whose keys the walk over the primary index meets are gone and none of their past is shown; every other object's document and past, the indexes and the version counter are as before; if the walk comes to its end no object of the collection is left, and it succeeds exactly then. Which keys the walk meets is `ClearWithIndex` |
| `PrimaryIndex.ClearWithIndex` | src/enclave/Ledger.cpp:822-873 | Clearing a collection entry by entry along its paged primary index, tombstone and overwriting in turn: exactly the objects it gets to over links in order lose their past, and the index leads to the latest events throughout. It goes through if and only if the index was in order; then nothing of the collection is left, and the index can be read afterwards if and only if, from every page but a bucket's first on, the live objects it led to were a multiple of 65535 |
| `Ledger.Ledger.CreateIndex` | src/enclave/Collection.cpp:58-84 | An index over exactly one path is added under a new name, covers the collection and changes nothing else; a name that is taken is refused, any other number of paths is an error |
| `Ledger.Ledger.DropIndex` | src/enclave/Ledger.cpp:816-820 | Only the named index goes |
| `History.LogShowsHistory` | src/enclave/Ledger.cpp:533-757 | After any sequence of puts, adds, removals and new blocks, the links of an object show exactly the documents written since its last creation, numbered n down to 1, each predecessor strictly older in the shard |
| `History.TracesIsUnique` | src/enclave/Ledger.cpp:235-275 | A position shows at most one history |
| `History.ObjectIterator.NextHandle` | src/enclave/ObjectIterator.cpp:86-154 | Each call gives the next older version, and none after the first one; the id that comes with it is the version's own exactly when it is the first or lies in another block, and otherwise the id handed out before |
| `History.WrongHandle` | src/enclave/ObjectIterator.cpp:120-140 | Two puts of one object in one block: the older version is handed out under the newer one's id |
| `History.Versions` | src/enclave/ObjectIterator.cpp:86-154 | Iterating to the end gives the whole history, newest first |
| `History.Diff` | src/enclave/Ledger.cpp:283-324 | The two documents of the asked versions, exactly when both versions exist |
| `BufferCache.Cache.FlushPage` | src/enclave/BufferManager.cpp:188-213 | The page is on disk afterwards and no page looks different |
| `BufferCache.Cache.CheckEvict` | src/enclave/BufferManager.cpp:240-278 | It completes exactly if there is room or the pinned pages take at most 80 percent of the budget; pages go in order of their last unpin and no more than needed to end at or below 80 percent; no page looks different and no pinned page goes |
| `BufferCache.Cache.PinPage` | src/enclave/BufferManager.cpp:24-40 | A pinned page is off the eviction list, whose order stays; sizes and contents stay |
| `BufferCache.Cache.UnpinPage` | src/enclave/BufferManager.cpp:42-74 | With its last pin gone a page becomes the first of the list |
| `BufferCache.Cache.Edit` | src/enclave/BufferManager.cpp:76-93 | An edit is seen at once, recorded in the total size, and changes no other page |
| `BufferCache.Cache.GetPage` | src/enclave/BufferManager.inl:34-81 | A loaded page gets exactly one pin more; another one is loaded with one pin exactly if it is asked for, is on disk and room can be made; every other page that stays keeps its pins, and no page looks different |
| `BufferCache.Cache.NewPage` | src/enclave/BufferManager.inl:6-32 | The new page appears, dirty and with one pin, exactly if room can be made; no other page looks different |
| `BufferCache.Cache.ClearCache` | src/enclave/BufferManager.cpp:95-124 | Exactly the pinned pages stay loaded and no page looks different |
| `Base64.RoundTripIff` | src/common/util/base64.cpp:54-161 | Decoding an encoding gives the bytes back exactly for three bytes or more, and an error otherwise |
| `Base64.CharOfIsEntry` | src/common/util/base64.cpp:40-42 | A sextet is written as the character at its place in the alphabet, which is given as one string |
| `Base64.ValueOfIsPlace` | src/common/util/base64.cpp:44-50 | A character is read exactly if it is in the alphabet, as its one place there |
| `Base64.EncodeBytes` | src/common/util/base64.cpp:54-103 | The buffered loop computes the encoding: character by character the entry of the alphabet at the digit to the base 64 of the 24-bit number of its three bytes, and padding up to a whole group |
| `Base64.DecodeText` | src/common/util/base64.cpp:105-161 | The buffered loop decodes the longest prefix of alphabet characters, byte by byte the digit to the base 256 of the 24-bit number of its four places, or fails when the prefix is shorter than four |
| `Witness.ArmorRoundTripIff` | src/ledger/Witness.cpp:83-154 | Reading an armoured payload gives it back exactly for three bytes or more |
| `Witness.WrapReads` | src/ledger/Witness.cpp:83-110 | Joining the lines before the end marker restores the text that was wrapped |
| `Witness.ArmorBytes` | src/ledger/Witness.cpp:128-154 | The line loop writes the begin line, the encoding in lines of 64 characters, and the end line |
| `Witness.ReadIff` | src/ledger/Witness.cpp:83-120 | Reading gives bytes exactly for a first line, lines up to a marker line, and joined lines that decode to them |
| `Witness.ReadText` | src/ledger/Witness.cpp:83-120 | The reader accepts exactly a begin line, lines up to an end line, and text that decodes, byte by byte |

## Left out

- CommitOrderIsSerial: gives a ReadCommitted read no more than that the object existed, which is all the source checks for it; `check` operations inside transactions, and the limit and the projection of a `find`, are not part of the step system.
- CommittedFindIsExactIff: the order in which a query lists its answers is an input. The set of recorded ids is taken to behave as a search tree does under a comparison that calls ids of different shards equal.
- Manager: policies and validation that throws (an object policy, a failed read) are not modelled; of `prepare_write` only the check of the key is.
- StepKeepsInv: a lock that is not available makes the step fail; waiting for a lock is not a step. A write outside transactions is one atomic step on its shard. The page numbers of new blocks are inputs that are larger than all earlier ones.
- Prediction: the index of a stored event is unbounded, whereas the source's block index has 16 bits; recorded ids wrap as they do there.
- OrderContradictsCommitOrderIff: is for a later transaction that recorded writes on the deciding shard, and for an earlier one that recorded no read of a block not yet begun, which holds of checked reads (`CommittedReadsAreBehind`); for a later one that only read there, see `ReaderNeverLooksNewer` and `LaterReaderLooksOlder`.
- RecordedIdsAreProducedIff: the transaction reference stored with an event is modelled as the transaction's id instead of its place in the transaction ledger.
- LockTable: a blocking request that must wait returns `Waits` and changes nothing; the spinning itself is not modelled. With 65535 requests outstanding on a shard the account is full, and one more is not claimed to leave all in step.
- TwoPhaseCommit: children of children, crashes and restarts of a node, and the witness merging are not modelled; a child that the coordinator cannot find when the decision goes out stays prepared, as in the source.
- SettledTogether: says nothing of children that could not be found when the decision went out.
- HashMap: waiting and reloading in a remote (downstream) copy is left out; the version check is modelled for local pages. Of a map whose links are broken, lookups and inserts are described on its present pages.
- ReplaceAll: the walk is on the present pages; rolled-back pages during a clear are not modelled. Of a walk that stops half-way, what it has done is stated by `ReplaceAndStep` and `ClearWithIndex`.
- ClearWithIndex: is about a collection that exists, as `Clear` says of one that does not; updates sent downstream are not modelled.
- MultiMap: its buckets hold chains as values; page numbers and their aliasing are modelled once, in `HashMap`.
- FindUnionIn: the other look-ups through older images (`find_intersect`, the value count) are not stated; they follow the same chain of images.
- Ledger: the primary index appears as each shard's part of one finite map, whose paged form is `HashMap`; secondary indexes are values inside the ledger. Updates of the counters by two threads at once are not modelled.
- Find: the order in which indexes are tried is arbitrary, so the sort by estimated size does not appear; documents are maps from paths to strings; operators other than equality and `$in` are arbitrary tests.
- LogShowsHistory: version numbers are unbounded; object policies and the Read event type, which the source never appends, are absent.
- Cache: is sequential, and an eviction that finds only pinned pages returns instead of waiting. Discarding and reloading pages, which change what is seen, are left out. The factor 0.8 is a real number.
- ReadText: ends at the payload bytes; splitting them into data and signature is not modelled.
- Cryptography, identities and policies, Python programs run in the enclave, the JSON library, sockets and the network protocol, downstream replication beyond bucket updates, metadata dumps, and triggers are not part of this model.
