# Verified model of the storage engine

This project models the parts of the storage engine that keep difficult state, and proves what each of them
promises. `dafny verify dfyconfig.toml` checks all of it.

- **Paged B+ tree** (`TreeShape`, `TreeSteps`, `TreeCascade`, `TreeDelete`, `TreePage`, `PageTable`, `BPlusTree`,
  `TreeFacts`, `TreeRuns`, `IndexIterator`). Pages are reached by id and hold fixed-capacity arrays that the page
  operations shift in place; splits, merges and redistributions cascade through parent ids. A ghost snapshot of the
  tree adds a level and a key range to each page. Its invariant covers sizes, ranges, parent ids, levels and the leaf
  chain, and says which map is stored. Every operation refines that map, whole runs included. The page operations are
  also held to the latching discipline: what they may write is what they still have latched.
- **Lock manager** (`LockState`, `LockSections`, `LockManager`, `LockExclusion`, `LockRuns`, `LockUpgrades`, `WakeUps`,
  `SerialRuns`, `LockExamples`). Each call is one or more latch-protected sections; a wait ends a section and any wake-up begins
  another. A run is any interleaving of sections. `fixed` says whether `LockExclusive` sets `is_writing_` when it
  grants. The code does not; the results that need the assignment say so by taking `true`, and `GainExcludes` and
  `ExclusionExactly` say when exclusion holds without it. `LockExamples` holds the runs in which something goes wrong.
- **Deadlock detector** (`WaitsFor`, `Deadlocks`, `DeadlockDetector`, `Relocks`). The depth-first search with its active and safe
  sets, the search for a victim, and the loop that aborts victims, related to circles of requests in the queues and
  to deadlocks proper, in which everybody waits for a lock that the next one holds. It is proved on any lock table;
  `Relocks` says what becomes of the table when a transaction locks a record again.
- **Buffer pool** (`LRUReplacer`, `BufferPool`, `PoolRuns`). The replacer's ring of heap nodes, hash table and counter
  describe one sequence; the pool refines a plain map from page ids to contents, call by call and over whole runs.
- **Table storage** (`TablePage`, `TableHeap`, `TableTxn`, `Rollback`, `TableIterator`, `TableRuns`,
  `TableExamples`). The slotted
  page works on the page's bytes, with `memmove` and the loops that fix offsets; above it stand the chain of pages,
  the write set with abort and commit, the scan, and whole runs of transactions.
- **Smaller cores**: `RWLatch` (all interleavings of the latch's sections), `IntegerArithmetic` (two's-complement
  wrapping and integer promotion written out), `TupleCodec` (schema layout and the tuple's bytes). `Sets` holds three
  facts about finite sets.

Methods follow the source's control flow and are proved against specification functions; the lemmas state what holds
of those functions and of runs. Where the code does not do what its own comments promise, the model follows the
comment only where named below. For each of these promises a lemma or contract says exactly when the code as it stands
keeps it, and another shows an input on which it does not: middle keys and the shift in redistributions, exclusion
between lock holders, the upgrade flag, upgrades that keep their hold, notification of sleepers, circles of requests
taken for deadlocks, records locked again, deletion and flush of pages, commit, abort, and readers at the latch's limit.

## Model

| member | source | states |
|---|---|---|
| `TreeRuns.Run` | src/storage/index/b_plus_tree.cpp:44-362 | every sequence of Insert, Remove and GetValue calls gets exactly the answers a plain finite map would give, and ends with that map's content stored |
| `BPlusTrees.BPlusTree.Insert` | src/storage/index/b_plus_tree.cpp:105-113 | a new key is entered in the map and accepted; a duplicate is refused and no page, link or root id changes; the whole tree invariant holds again |
| `BPlusTrees.BPlusTree.InsertIntoLeaf` | src/storage/index/b_plus_tree.cpp:143-206 | as Insert, and latch crabbing suffices: every existing page whose entries or link change is among the pages still latched when the first page is written, none of which, apart from the first, could take one more entry without splitting; the root id changes only under the root latch, with the old root retained |
| `BPlusTrees.BPlusTree.LatchForInsert` | src/storage/index/b_plus_tree.cpp:150-178 | the retained pages form a parent-to-child path ending in the key's leaf; it starts at the root, with the root latch held, or at a page that can take one more entry without splitting; no page behind the first can, and the root latch is held exactly if the root page is |
| `BPlusTrees.BPlusTree.StartNewTree` | src/storage/index/b_plus_tree.cpp:121-132 | the first insertion makes a one-leaf tree storing exactly that entry |
| `BPlusTrees.BPlusTree.GetValue` | src/storage/index/b_plus_tree.cpp:44-92 | finds a value exactly if the map holds the key, and then the map's value |
| `BPlusTrees.BPlusTree.Split` | src/storage/index/b_plus_tree.cpp:217-238 | the upper half of a full page moves to a page not in use before, with link and children's parent ids, and nothing else changes |
| `BPlusTrees.BPlusTree.InsertIntoParent` | src/storage/index/b_plus_tree.cpp:250-280 | enters the new page behind the old one however far the splits cascade: terminates, restores the whole invariant, and writes entries only of latched pages |
| `BPlusTrees.BPlusTree.EnterParent` | src/storage/index/b_plus_tree.cpp:265-279 | after one step the invariant holds again, or the parent is the one page over its maximum and the shortened latched path is what the next step needs |
| `BPlusTrees.BPlusTree.SplitParent` | src/storage/index/b_plus_tree.cpp:272-276 | a full parent is split in turn and the cascade goes on above it to its end |
| `BPlusTrees.BPlusTree.NewRoot` | src/storage/index/b_plus_tree.cpp:252-264 | a root split ends with a new root over both halves and the invariant restored |
| `BPlusTrees.BPlusTree.Remove` | src/storage/index/b_plus_tree.cpp:293-362 | the map loses exactly the key; the invariant holds again; entries change only on retained pages and on at most one sibling for each of them, the neighbour it is repaired with, and the root id only under the root latch; no retained page behind the first is above its minimum |
| `BPlusTrees.BPlusTree.LatchForRemove` | src/storage/index/b_plus_tree.cpp:298-337 | the retained path starts at the root, with the root latch held, or at a page above its minimum size; no page behind the first is above it, and the root latch is held exactly if the root page is |
| `BPlusTrees.BPlusTree.CoalesceOrRedistribute` | src/storage/index/b_plus_tree.cpp:373-423 | repairs an underfull page: the cascade terminates, every clause of the invariant holds again, and only retained pages and, for each of them, the one neighbour beside it are written or given up; the page itself goes exactly if it and a neighbour hold less than one page's maximum, or, for the root, if it is an empty leaf or has one child |
| `BPlusTrees.BPlusTree.RepairWith` | src/storage/index/b_plus_tree.cpp:403-421 | takes one entry from the neighbour exactly if both together fill a page, and merges with it otherwise |
| `BPlusTrees.BPlusTree.Coalesce` | src/storage/index/b_plus_tree.cpp:439-467 | merges with the neighbour whichever side it is on and goes on with the parent; same outcome, and the same pages written, as CoalesceOrRedistribute |
| `BPlusTrees.BPlusTree.Redistribute` | src/storage/index/b_plus_tree.cpp:480-511 | moves one entry over under the parent's separating key; invariant and map restored, only the two siblings and their parent written |
| `BPlusTrees.BPlusTree.AdjustRoot` | src/storage/index/b_plus_tree.cpp:523-550 | an empty root leaf empties the tree, a one-child root gives way to its child; otherwise nothing changes; the answer says which; map and invariant kept |
| `BPlusTrees.BPlusTree.Neighbour` | src/storage/index/b_plus_tree.cpp:377-401 | the neighbour is the page to the right of a leftmost page and else the one to the left, under the same parent, which is a retained page |
| `BPlusTrees.BPlusTree.ReleaseAndDelete` | src/storage/index/b_plus_tree.cpp:346-358 | the pages deleted on release are exactly those the repair took out of the tree |
| `TreeSteps.SplitKeeps` | src/storage/index/b_plus_tree.cpp:217-280 | splitting any page keeps every structural clause: leaf depth, key ranges of children, parent ids, ordered leaf chain |
| `TreeSteps.MergeKeeps` | src/storage/index/b_plus_tree.cpp:439-467 | so does merging any two adjacent siblings under their separating key |
| `TreeSteps.SplitStores` | src/storage/index/b_plus_tree.cpp:217-280 | a split keeps the stored map |
| `TreeSteps.MergeStores` | src/storage/index/b_plus_tree.cpp:439-467 | a merge keeps the stored map |
| `TreeDeletes.ShareIs` | src/storage/page/b_plus_tree_internal_page.cpp:214-264 | redistribution has the same result, page by page, as merging both siblings and splitting again at the other place |
| `TreeDeletes.ShareFills` | src/storage/index/b_plus_tree.cpp:480-511 | after a redistribution no page is under its minimum or over its maximum |
| `TreeDeletes.CoalesceStep` | src/storage/index/b_plus_tree.cpp:439-467 | after a merge the parent is the only page that can be underfull, and the retained path, less its last page, still leads to it |
| `TreeCascade.EnterStep` | src/storage/index/b_plus_tree.cpp:265-279 | one step of the split cascade keeps the invariant apart from the size of the parent, which grows by one |
| `TreeCascade.SplitFills` | src/storage/index/b_plus_tree.cpp:217-238 | both halves of a full page have at least the minimum and less than the maximum size |
| `TreeShape.SameLevelUnique` | src/storage/index/b_plus_tree.cpp:616-655 | two pages of one level whose ranges share a key are the same page: each key has one search path |
| `TreeFacts.SameDepth` | src/storage/index/b_plus_tree.cpp:217-280 | all paths from the root to a leaf have the same length |
| `TreeFacts.SubtreeKeys` | src/storage/page/b_plus_tree_internal_page.cpp:71-101 | every key in a leaf below child i lies in [key i, key i+1), which is what Lookup relies on |
| `TreeFacts.ChainRises` | src/storage/page/b_plus_tree_leaf_page.cpp:39-46 | along next-page links keys strictly rise |
| `TreeFacts.MiddleFromRight` | src/storage/index/b_plus_tree.cpp:493-499 | the call as it stands passes the sibling's key as middle key: searches over the affected range still go to the right child exactly for keys below the parent's separator, and some go wrong |
| `TreeFacts.MiddleFromLeft` | src/storage/index/b_plus_tree.cpp:505-510 | the mirror case: right exactly for keys from the separator up |
| `TreeFacts.RightAlwaysMisroutes` | src/storage/index/b_plus_tree.cpp:493-499 | so each time an internal page takes its right sibling's first child as the code stands, some stored key is no longer found |
| `TreeFacts.LeftAlwaysMisroutes` | src/storage/index/b_plus_tree.cpp:505-510 | the same of its left sibling's last child, for a page whose loop that makes room in front is repaired; as the code stands that move never ends |
| `TreeFacts.ShiftNeverEnds` | src/storage/page/b_plus_tree_internal_page.cpp:277-279 | the loop that makes room in front, as it stands, goes on after every number of turns if and only if the page is not empty |
| `TreeFacts.ShiftOverwrites` | src/storage/page/b_plus_tree_internal_page.cpp:277-279 | and in doing so writes the page's last entry over every slot behind it and over what follows the page's array |
| `TreeFacts.LeftNeverEnds` | src/storage/index/b_plus_tree.cpp:502-510 | every redistribution of internal pages that takes from the left sibling runs into it |
| `TreeFacts.ExampleMisroutes` | src/storage/index/b_plus_tree.cpp:493-499 | a tree of seven pages in good order but for the page to be repaired, and a stored key the redistribution then sends to the wrong child |
| `TreePages.TreePage.KeyIndex` | src/storage/page/b_plus_tree_leaf_page.cpp:53-65 | the binary search ends at the first key not smaller, or at the last slot when all are smaller |
| `TreePages.TreePage.LeafLookup` | src/storage/page/b_plus_tree_leaf_page.cpp:165-182 | finds the key exactly if it is in the page, with its value |
| `TreePages.TreePage.LeafInsert` | src/storage/page/b_plus_tree_leaf_page.cpp:95-128 | the sorted entries with the new one in its place, or unchanged for a duplicate |
| `TreePages.TreePage.LeafRemove` | src/storage/page/b_plus_tree_leaf_page.cpp:193-212 | the entries without the key's one |
| `TreePages.TreePage.LeafMoveHalfTo` | src/storage/page/b_plus_tree_leaf_page.cpp:137-144 | entries and next-page link are divided between the two leaves |
| `TreePages.TreePage.LeafMoveAllTo` | src/storage/page/b_plus_tree_leaf_page.cpp:221-225 | the recipient holds both leaves' entries in order and the link of the emptied one |
| `TreePages.TreePage.LeafMoveFirstToEndOf` | src/storage/page/b_plus_tree_leaf_page.cpp:233-239 | one entry moves left, all others stay in order |
| `TreePages.TreePage.LeafMoveLastToFrontOf` | src/storage/page/b_plus_tree_leaf_page.cpp:252-266 | one entry moves right, all others stay in order |
| `TreePages.TreePage.InternalLookup` | src/storage/page/b_plus_tree_internal_page.cpp:80-101 | the binary search finds the child whose separating keys enclose the key, never reading the key of slot 0 |
| `TreePages.TreePage.InsertNodeAfter` | src/storage/page/b_plus_tree_internal_page.cpp:126-137 | the entry goes right behind the one with the given value although entries are shifted while it is being searched for |
| `TreePages.TreePage.InternalMoveAllTo` | src/storage/page/b_plus_tree_internal_page.cpp:206-212 | the recipient gets all entries, the first of them under the middle key |
| `TreePages.TreePage.InternalMoveFirstToEndOf` | src/storage/page/b_plus_tree_internal_page.cpp:226-249 | the first child moves left under the middle key |
| `TreePages.TreePage.InternalMoveLastToFrontOf` | src/storage/page/b_plus_tree_internal_page.cpp:259-282 | the last child moves right and the former first child gets the middle key |
| `TreePages.TreePage.CopyNFrom` | src/storage/page/b_plus_tree_leaf_page.cpp:150-155 | exactly the given run of entries is appended |
| `PageTables.PageTable.AdoptChildren` | src/storage/page/b_plus_tree_internal_page.cpp:158-168 | exactly the listed children get the page as their parent |
| `IndexIterators.Scan` | src/storage/index/index_iterator.cpp:31-48 | from begin to end the iterator yields exactly the map's entries, in strictly increasing key order, on every reachable tree |
| `IndexIterators.Begin` | src/storage/index/b_plus_tree.cpp:561-567 | begin is slot 0 of the leaf whose range has no lower bound |
| `IndexIterators.End` | src/storage/index/b_plus_tree.cpp:590-606 | end is one past the last slot of the leaf whose range has no upper bound |
| `IndexIterators.ScanStep` | src/storage/index/index_iterator.cpp:37-48 | one step lists one further entry of the map, not listed before, and arrives at a valid position |
| `LockManagers.LockManager.LockShared` | src/concurrency/lock_manager.cpp:32-69 | the first section of the call: new lock table, lock sets, state and outcome are those of the section's specification; the invariant is kept unless a record is locked again |
| `LockManagers.LockManager.LockExclusive` | src/concurrency/lock_manager.cpp:71-106 | as LockShared, with or without the added assignment |
| `LockManagers.LockManager.LockUpgrade` | src/concurrency/lock_manager.cpp:108-155 | as LockShared; the shared hold is given up before the wait |
| `LockManagers.LockManager.Wake` | src/concurrency/lock_manager.cpp:48-67 | what a sleeping call does on any wake-up, spurious ones included |
| `LockManagers.LockManager.Unlock` | src/concurrency/lock_manager.cpp:157-180 | the request stays in the queue; sleepers are notified exactly when the specification says so |
| `LockSections.LockRefused` | src/concurrency/lock_manager.cpp:34-119 | a shrinking transaction, or one that reads uncommitted, gets no lock of any kind: the call throws the reason written out, the transaction is aborted and otherwise as it was, and no queue changes |
| `LockSections.LockSharedIs` | src/concurrency/lock_manager.cpp:45-69 | any other shared call: thrown as a deadlock if aborted, put to sleep behind a waiting request if there is a writer, and else granted, field by field |
| `LockSections.LockExclusiveIs` | src/concurrency/lock_manager.cpp:84-106 | an exclusive call the same way, asleep if there is a writer or a sharer |
| `LockSections.LockUpgradeIs` | src/concurrency/lock_manager.cpp:121-155 | an upgrade: refused beside another one, else the share is given up first and then the call goes as the others do |
| `LockSections.WakeIs` | src/concurrency/lock_manager.cpp:48-152 | a wake-up: the request goes if the transaction was aborted, sleeps on if the record cannot be had, and else becomes the lock asked for |
| `LockSections.UnlockIs` | src/concurrency/lock_manager.cpp:157-180 | an unlock: a growing transaction stays so if and only if it reads committed and shares the record; the sleepers are told if and only if the lock was exclusive or the last share |
| `LockSections.UncommittedNeverLocks` | src/concurrency/lock_manager.cpp:32-155 | at every point of every run, a transaction that reads uncommitted holds no lock and waits for none |
| `LockStates.StepKeeps` | src/concurrency/lock_manager.cpp:32-180 | every section of every call keeps the invariant: counts, flags, queues and lock sets agree |
| `LockStates.EntriesThere` | src/concurrency/lock_manager.cpp:22-29 | the queue entry that each call looks up is there whenever the caller holds or waits for the record |
| `LockExclusions.CountIsExact` | src/concurrency/lock_manager.cpp:49-67 | at every point of every run, in any interleaving, upgrades and deadlock aborts included, the shared count is the number of transactions holding the record shared; this holds of the code as it stands |
| `LockExclusions.ExclusionInRuns` | src/concurrency/lock_manager.cpp:88-105 | with is_writing_ set on exclusive grant, an exclusive holder excludes every other holder at every point of every run |
| `LockExclusions.WriterFindsNoSharer` | src/concurrency/lock_manager.cpp:92-105 | whatever section grants it, an exclusive lock is gained only when no other transaction shares the record |
| `LockExclusions.GainExcludes` | src/concurrency/lock_manager.cpp:49-155 | as the code stands, any section that gains a lock, shared, exclusive or upgraded, at once or on waking, leaves exclusion intact if and only if nobody held the record exclusively before |
| `LockExclusions.ExclusionExactly` | src/concurrency/lock_manager.cpp:32-180 | as the code stands, a run keeps exclusion at every point if and only if every gain in it finds the record without a writer |
| `LockExamples.TwoWriters` | src/concurrency/lock_manager.cpp:103-105 | a run of the code as it stands after which two transactions hold one record exclusively |
| `LockExamples.ReaderBesideWriter` | src/concurrency/lock_manager.cpp:48-67 | one in which a shared lock is granted beside an exclusive one |
| `LockExamples.WokenBesideWriter` | src/concurrency/lock_manager.cpp:92-105 | one in which a sleeping exclusive request is granted on waking beside an exclusive holder |
| `LockExamples.UpgradedBesideWriter` | src/concurrency/lock_manager.cpp:137-152 | one in which a sleeping upgrade is |
| `LockRuns.TwoPhase` | src/concurrency/lock_manager.cpp:108-180 | a REPEATABLE_READ transaction acquires nothing after its first release, if each of its upgrades is refused or goes through at once |
| `LockRuns.WritersEnd` | src/concurrency/lock_manager.cpp:157-180 | at every isolation level, a transaction acquires nothing after it has released an exclusive lock |
| `LockRuns.ConflictsFollowLockPoints` | src/concurrency/lock_manager.cpp:32-180 | two conflicting accesses in a run are in the order of their transactions' lock points |
| `LockRuns.NoPrecedenceCycle` | src/concurrency/lock_manager.cpp:32-180 | the precedence graph of such a run has no cycle |
| `SerialRuns.RunsAreSerializable` | src/concurrency/lock_manager.cpp:32-180 | every run of REPEATABLE_READ transactions whose upgrades are refused or go through at once has a serial reordering of the same accesses, each transaction's own order kept, in which all reads see the same values and the same values are left behind |
| `LockExamples.UpgradeLosesPlace` | src/concurrency/lock_manager.cpp:131-152 | a run with an upgrade that waits, in which two transactions each come before the other, so that no serial order will do |
| `SerialRuns.HistoryComplete` | src/concurrency/lock_manager.cpp:32-180 | the reordered history leaves out no access of the run |
| `WakeUps.WakeStep` | src/concurrency/lock_manager.cpp:169-177 | another transaction's section makes a sleeper's wait predicate come true without notifying the sleeper if and only if it is an aborted transaction's call for an upgrade that gives up the last share |
| `WakeUps.SleeperIsNotified` | src/concurrency/lock_manager.cpp:48-177 | at every point of every run, a sleeper whose wait predicate holds has been notified since it last went to sleep, unless such an upgrade call came since |
| `LockExamples.Forgotten` | src/concurrency/lock_manager.cpp:125-136 | a run that such a call ends: a sleeper could have the record and nobody has told it |
| `LockUpgrades.UpgradeKeepsHold` | src/concurrency/lock_manager.cpp:125-152 | an upgrade keeps a hold on the record throughout if and only if it is refused, or goes through at once: its transaction is not aborted and the only sharer, and the flag is down |
| `LockUpgrades.OneUpgradeInRuns` | src/concurrency/lock_manager.cpp:126-150 | at most one upgrade per record sleeps at a time, and only with the flag up |
| `LockUpgrades.FlagLeftUp` | src/concurrency/lock_manager.cpp:125-152 | a section leaves the flag up with no upgrade under way if and only if a deadlock victim wakes from its upgrade in it, or an aborted transaction calls for an upgrade that would have to wait |
| `LockUpgrades.StuckExactly` | src/concurrency/lock_manager.cpp:125-152 | at any point of a run the flag is up with no upgrade under way if and only if one of the two has happened |
| `LockExamples.VictimsFlag` | src/concurrency/lock_manager.cpp:137-148 | a run of the first kind |
| `LockExamples.AbortedUpgradesFlag` | src/concurrency/lock_manager.cpp:125-148 | a run of the second kind, in which nobody ever sleeps |
| `LockUpgrades.NoUpgradeEver` | src/concurrency/lock_manager.cpp:126-130 | from then on every upgrade of such a record is refused and its transaction aborted, for the rest of every run |
| `DeadlockDetectors.DeadlockDetector.Dfs` | src/concurrency/lock_manager.cpp:214-235 | returns true with a walk along the stack that closes a cycle, each step of it to the smallest successor not proved safe, or false with the start node proved safe; nodes called safe reach no cycle, before and after |
| `DeadlockDetectors.DeadlockDetector.HasCycle` | src/concurrency/lock_manager.cpp:237-254 | true if and only if a listed transaction reaches a cycle; then the search walked from the smallest such transaction, always on to the smallest successor that reaches a cycle, until it met itself, and the victim is the largest id on that walk |
| `WaitsFor.OnePath` | src/concurrency/lock_manager.cpp:214-254 | there is one such walk: the edges and the listed transactions determine it, in whatever order successors are stored |
| `WaitsFor.OneOrder` | src/concurrency/lock_manager.cpp:237-294 | so the lock table determines which transactions are aborted and in which order |
| `DeadlockDetectors.DeadlockDetector.Build` | src/concurrency/lock_manager.cpp:274-285 | the graph has an edge for exactly the pairs of a waiting and a granted request in one queue |
| `DeadlockDetectors.DeadlockDetector.RemoveEdge` | src/concurrency/lock_manager.cpp:185-190 | as it stands it can only remove an edge from a node to itself: all other edges stay |
| `DeadlockDetectors.DeadlockDetector.DeleteNode` | src/concurrency/lock_manager.cpp:192-212 | still the victim's outgoing edges are exactly what goes, edges from a node to itself apart |
| `DeadlockDetectors.DeadlockDetector.BreakCycles` | src/concurrency/lock_manager.cpp:287-294 | the abort loop terminates, leaves a graph in which no transaction reaches a cycle, and aborts transactions with a waiting request only |
| `DeadlockDetectors.DeadlockDetector.RunCycleDetection` | src/concurrency/lock_manager.cpp:270-303 | on any lock table: somebody is aborted if and only if there is a circle of requests; where nobody waits for itself, each victim is the largest id on the search's walk through what the earlier ones leave of the table, and no further walk is left; every circle in which nobody waits for itself contains a victim; where every waiting request is a sleeper's, every victim slept and its record was notified; on a table in order, waiting taken by the lock sets, every deadlock contains a victim, and when no sleeper has given up a lock somebody is aborted if and only if there is a deadlock |
| `Relocks.OrderlyStep` | src/concurrency/lock_manager.cpp:32-106 | from a table in order, a call leads to one in which waiting requests are sleepers' and nobody waits for itself if and only if it does not lock a record again that its transaction has unlocked |
| `Relocks.OrderlyExactly` | src/concurrency/lock_manager.cpp:22-106 | a run keeps such tables throughout if and only if no call in it locks a record again |
| `Relocks.RunningVictim` | src/concurrency/lock_manager.cpp:270-303 | calls that do: a transaction that reads committed shares a record again, and the detector aborts it although it runs |
| `Relocks.UnlockCounts` | src/concurrency/lock_manager.cpp:157-177 | an unlock keeps the shared count exact if and only if the first request in the queue is for the mode held |
| `Relocks.CountBelowZero` | src/concurrency/lock_manager.cpp:71-177 | calls after which it is not: a record shared, unlocked, taken exclusively and unlocked has a shared count of -1 |
| `WaitsFor.SafeAdd` | src/concurrency/lock_manager.cpp:230-234 | a node all of whose successors reach no cycle reaches none |
| `WaitsFor.SafeFewer` | src/concurrency/lock_manager.cpp:192-212 | removing edges keeps the safe set valid between rounds |
| `WaitsFor.CyclesBroken` | src/concurrency/lock_manager.cpp:287-294 | a remaining graph without reachable cycles means every circle of requests has lost a member |
| `WaitsFor.CycleIsWaitCycle` | src/concurrency/lock_manager.cpp:274-294 | and a cycle that is still found is a circle of requests |
| `Deadlocks.DeadlockIsCycle` | src/concurrency/lock_manager.cpp:274-285 | every deadlock, waiting taken by the lock sets, is a circle of requests |
| `Deadlocks.CycleIsDeadlock` | src/concurrency/lock_manager.cpp:157-294 | a circle of requests is a deadlock if and only if nobody in it waits behind a lock that the next transaction has given up |
| `Deadlocks.StaleIsGivenUp` | src/concurrency/lock_manager.cpp:157-180 | at every point of every run, the granted requests without a lock are exactly those of the Unlock calls made |
| `Deadlocks.RepeatableSleepersHoldAll` | src/concurrency/lock_manager.cpp:157-180 | in a run without READ_COMMITTED no sleeper has given up a lock, so there the detector aborts somebody if and only if there is a deadlock |
| `LockExamples.CircleWithoutDeadlock` | src/concurrency/lock_manager.cpp:157-294 | a run whose requests stand in a circle although one of its transactions waits for nobody |
| `WaitsFor.NoSelfWait` | src/concurrency/lock_manager.cpp:274-285 | no transaction waits for itself |
| `PoolRuns.Run` | src/buffer/buffer_pool_manager.cpp:34-200 | every sequence of calls on the pool gets exactly the answers of a plain map of pages that can have as many pages pinned as the pool has frames, as long as clients report their writes |
| `PoolRuns.Serve` | src/buffer/buffer_pool_manager.cpp:34-200 | the same from a new pool of any size |
| `PoolRuns.FramesLeft` | src/buffer/buffer_pool_manager.cpp:34-158 | a frame can be had exactly if fewer pages are pinned than there are frames |
| `Replacers.VictimIsOldest` | src/buffer/lru_replacer.cpp:32-71 | over every run of operations, if any evictable frame has been evictable since step k then so has the next victim |
| `Replacers.LRUReplacer.Victim` | src/buffer/lru_replacer.cpp:32-46 | ring, hash table and counter go on describing one duplicate-free sequence, of which the last frame is taken |
| `Replacers.LRUReplacer.Pin` | src/buffer/lru_replacer.cpp:48-57 | the frame leaves the sequence, or nothing changes |
| `Replacers.LRUReplacer.Unpin` | src/buffer/lru_replacer.cpp:59-71 | the frame is put in front, or nothing changes when it is there |
| `Replacers.LRUReplacer.Size` | src/buffer/lru_replacer.cpp:73-76 | the sentinel's counter is the length of the sequence |
| `BufferPools.BufferPoolManager.FetchPage` | src/buffer/buffer_pool_manager.cpp:34-81 | for any page id: the frame holds the page's content; it fails exactly if the page is absent and every frame pinned; an absent page comes to the first free frame, with nothing evicted, or else to the frame longest evictable, whose page alone leaves the pool and is written if dirty; no page's content changes |
| `BufferPools.BufferPoolManager.NewPage` | src/buffer/buffer_pool_manager.cpp:122-158 | a fresh id and an empty page, in the frame a fetch would take, or failure with every frame pinned; no page's content changes |
| `BufferPools.BufferPoolManager.UnpinPage` | src/buffer/buffer_pool_manager.cpp:83-107 | one pin less and the dirty bit kept; at zero pins the frame becomes evictable; no page's content changes |
| `BufferPools.BufferPoolManager.FlushPage` | src/buffer/buffer_pool_manager.cpp:109-117 | by its contract: exactly the page's disk copy is brought up to date, absent pages are refused |
| `BufferPools.BufferPoolManager.FlushAllPages` | src/buffer/buffer_pool_manager.cpp:192-200 | the disk holds what the pool holds, page by page |
| `BufferPools.BufferPoolManager.DeletePage` | src/buffer/buffer_pool_manager.cpp:160-190 | by its step list: refused exactly if pinned; afterwards the page is out of the table, its frame is free, no other page changes |
| `BufferPools.FetchOk` | src/buffer/buffer_pool_manager.cpp:34-81 | the steps of a fetch keep the invariant and every page's content, eviction included |
| `BufferPools.CreateOk` | src/buffer/buffer_pool_manager.cpp:122-158 | so do those of a new page |
| `BufferPools.FetchIs` | src/buffer/buffer_pool_manager.cpp:34-81 | which frame a fetch takes, which page leaves the pool for it, and what becomes of free list, replacer, table, disk and frame |
| `BufferPools.CreateIs` | src/buffer/buffer_pool_manager.cpp:122-158 | the same for a new page |
| `BufferPools.DeleteIs` | src/buffer/buffer_pool_manager.cpp:160-190 | a deletion: the frame is blank and last in the free list, its page alone is out of the table |
| `BufferPools.UnpinIs` | src/buffer/buffer_pool_manager.cpp:83-107 | an unpin: at zero pins the frame is the newest evictable one, and a dirty page stays dirty whatever is reported |
| `BufferPools.FrameIsOneOf` | src/buffer/buffer_pool_manager.cpp:34-158 | every frame is exactly one of free, pinned, and unpinned in the replacer |
| `BufferPools.TableIsInverse` | src/buffer/buffer_pool_manager.cpp:34-81 | the page table is the exact inverse of the frames' page ids |
| `BufferPools.CleanIsOnDisk` | src/buffer/buffer_pool_manager.cpp:45-81 | an evictable clean frame equals its disk page |
| `BufferPools.DeleteAsWrittenBreaks` | src/buffer/buffer_pool_manager.cpp:167-189 | the deletion as it stands keeps the pool's invariant if and only if it refuses: the page resident and pinned |
| `BufferPools.FlushAsWrittenBreaks` | src/buffer/buffer_pool_manager.cpp:110-117 | the flush as it stands keeps the invariant if and only if the page is resident |
| `PoolRuns.DeleteBreaks` | src/buffer/buffer_pool_manager.cpp:167-189 | calls after which the deletion as it stands breaks the pool |
| `PoolRuns.FlushBreaks` | src/buffer/buffer_pool_manager.cpp:110-117 | and the flush, on a pool just made |
| `TablePages.ResizedTiles` | src/storage/page/table_page.cpp:180-197 | after any compaction the non-empty slots, marked ones included, tile [free pointer, page size) again without gap or overlap |
| `TablePages.ResizedCells` | src/storage/page/table_page.cpp:180-197 | the moved bytes and fixed offsets leave every other slot's bytes as they were |
| `TablePages.MovedBytes` | src/storage/page/table_page.cpp:229-245 | the same for one slot on either side of the resized one |
| `TablePages.InsertedTiles` | src/storage/page/table_page.cpp:38-72 | a tuple placed below the free pointer, in the first empty slot or a new one, keeps the tiling |
| `TablePages.InsertedCells` | src/storage/page/table_page.cpp:38-72 | and the bytes of all other slots |
| `TablePages.ResizedCovers` | src/storage/page/table_page.cpp:180-197 | every byte from the new free pointer on belongs to some slot |
| `TablePages.TablePage.InsertTuple` | src/storage/page/table_page.cpp:38-72 | succeeds exactly if tuple and slot entry fit; takes the first empty slot; all other cells stay |
| `TablePages.TablePage.MarkDelete` | src/storage/page/table_page.cpp:88-127 | succeeds exactly on a live tuple, which becomes marked and keeps its bytes |
| `TablePages.TablePage.UpdateTuple` | src/storage/page/table_page.cpp:130-198 | succeeds exactly on a live tuple whose replacement fits; returns the old bytes; all other cells stay |
| `TablePages.TablePage.ApplyDelete` | src/storage/page/table_page.cpp:200-245 | the assertions hold exactly if the slot is there and not empty; then it becomes empty, its bytes are given back, and all other cells stay |
| `TablePages.TablePage.RollbackDelete` | src/storage/page/table_page.cpp:247-266 | the assertion holds exactly if the slot is there; then a marked tuple is live again with its bytes |
| `TablePages.TablePage.GetTuple` | src/storage/page/table_page.cpp:268-306 | returns the bytes of exactly the live tuples |
| `TablePages.TablePage.GetFirstTupleRid` | src/storage/page/table_page.cpp:308-318 | the first live slot, if there is one |
| `TablePages.TablePage.GetNextTupleRid` | src/storage/page/table_page.cpp:320-332 | the first live slot behind the given one, if there is one |
| `TablePages.TablePage.Compact` | src/storage/page/table_page.cpp:180-186 | memmove of overlapping regions and the copy of the tuple, byte by byte |
| `TablePages.TablePage.FixUpdated` | src/storage/page/table_page.cpp:188-197 | the loop that fixes offsets changes exactly the slots whose bytes moved |
| `TablePages.TablePage.FixDeleted` | src/storage/page/table_page.cpp:236-245 | the same for a deletion |
| `TablePages.TablePage.SpaceIs` | src/include/storage/page/table_page.h:169-171 | the free space the header computes is what the cells leave of the page |
| `TableRuns.Run` | src/concurrency/transaction_manager.cpp:37-76 | any sequence of transactions, each alone and ended by commit or abort: every answer is that of a map from record ids to tuples; a commit runs to its end and leaves the map that results if and only if every record deleted was there; an abort leaves the map of the start if and only if every undo does what it should |
| `TableRuns.GoodRuns` | src/concurrency/transaction_manager.cpp:37-76 | a run goes through to its end, each transaction leaving what it should, if and only if every one of them meets its condition |
| `TableRuns.GoodRunsAreMaps` | src/concurrency/transaction_manager.cpp:37-76 | then the whole run answers as a map in which committed transactions count and aborted ones do not |
| `TableRuns.CommitTells` | src/concurrency/transaction_manager.cpp:37-50 | a commit ends and changes no live tuple if and only if each deletion recorded marked its record and is the only one of it |
| `TableHeaps.TableHeap.InsertTuple` | src/storage/table/table_heap.cpp:39-91 | terminates; refused exactly if the tuple plus 32 exceeds a page; otherwise the tuple is placed in the first page of the chain with room, no other cell changing |
| `TableHeaps.TableHeap.MarkDelete` | src/storage/table/table_heap.cpp:93-110 | exactly the addressed live cell becomes marked |
| `TableHeaps.TableHeap.UpdateTuple` | src/storage/table/table_heap.cpp:112-131 | succeeds exactly if the cell is live and the page has room; only the addressed cell changes, and its old bytes are returned |
| `TableHeaps.TableHeap.GetTuple` | src/storage/table/table_heap.cpp:156-170 | returns the bytes of exactly the live tuples |
| `TableHeaps.ChainGrows` | src/storage/table/table_heap.cpp:62-82 | linking a fresh page behind the last one keeps the chain: all pages, once each, with the links of both directions |
| `TableHeaps.TableHeap.NeverOverfull` | src/include/storage/page/table_page.h:169-171 | no page holds more than fits |
| `TableTxns.TableTxn.Insert` | src/storage/table/table_heap.cpp:39-91 | the write set goes on recording how the table came from its start; a refused insertion makes the transaction an aborted one |
| `TableTxns.TableTxn.MarkDelete` | src/storage/table/table_heap.cpp:105-110 | the same for a deletion, recorded whether or not a live tuple, or a slot at all, was there to be marked |
| `TableTxns.TableTxn.Update` | src/storage/table/table_heap.cpp:112-131 | the same for an update, with the old tuple; in an aborted transaction the page is written and nothing recorded |
| `TableTxns.TableTxn.Abort` | src/concurrency/transaction_manager.cpp:59-76 | for a transaction alone: runs to its end if and only if no deletion was recorded for a slot that is not there; then each cell is as it was at the start if and only if its last undo, deletions aside, is not an update refused for space, or, without such an undo, its bytes have not been changed |
| `TableTxns.TableTxn.Commit` | src/concurrency/transaction_manager.cpp:37-50 | runs to its end if and only if no record's deletion is recorded twice and none for a cell that is empty; then exactly the cells whose deletion is recorded become empty; else it stops at the last entry that finds its cell empty |
| `TableExamples.DeletedTwice` | src/concurrency/transaction_manager.cpp:37-50 | a transaction that deletes one record twice: its commit stops at an assertion |
| `TableExamples.DeletedBeyond` | src/concurrency/transaction_manager.cpp:59-66 | one that deletes a record beyond the slot count: its abort does |
| `TableExamples.UnrecordedUpdate` | src/storage/table/table_heap.cpp:39-43 | an update behind a refused insertion is still there after the abort |
| `TableExamples.InsertedAndGone` | src/concurrency/transaction_manager.cpp:37-50 | a record deleted before it is there and then inserted is taken out by the commit |
| `TableExamples.LostUpdate` | src/concurrency/transaction_manager.cpp:59-76 | an update and an insertion after whose abort the record is still cut short |
| `Rollbacks.AbortRestores` | src/concurrency/transaction_manager.cpp:59-76 | for every run and cell, updates behind a refused insertion included, reverse replay restores the cell if and only if the undo of its first entry, deletions aside, is not an update refused for space, or, without such an entry, its bytes are still those of the start |
| `Rollbacks.AbortRestoresAll` | src/concurrency/transaction_manager.cpp:59-76 | when every update is recorded and no undo is refused, the whole table is restored |
| `Rollbacks.AbortLosesUpdate` | src/storage/page/table_page.cpp:149-153 | a transaction of two changes whose abort loses the old tuple for lack of space |
| `Rollbacks.CanAbort` | src/concurrency/transaction_manager.cpp:62-74 | every entry undone finds its slot as the page operations demand, and in the end every cell is empty or live as at the start |
| `TableIterators.Scan` | src/storage/table/table_iterator.cpp:36-65 | from Begin to End every live tuple is visited exactly once, in page-chain and slot order, with its bytes |
| `TableIterators.TableIterator.Begin` | src/storage/table/table_heap.cpp:172-190 | the first live tuple of the chain, skipping pages that have none, or the end |
| `TableIterators.TableIterator.Next` | src/storage/table/table_iterator.cpp:36-65 | moves to the next live tuple of the page or of the pages behind; nothing live lies in between |
| `RWLatches.WriterIsAlone` | src/include/common/rwlatch.h:40-86 | at every point of every interleaving, spurious wake-ups included, an active writer excludes all readers and all other writers |
| `RWLatches.SleepingWriterHasReaders` | src/include/common/rwlatch.h:46-48 | a writer asleep on writer_, not notified, has an active reader to wait for: it never misses the last RUnlock |
| `RWLatches.SleepingEntrantHasWriter` | src/include/common/rwlatch.h:42-44 | a writer asleep on reader_, not notified, has another writer to wait for |
| `RWLatches.MissedStep` | src/include/common/rwlatch.h:74-86 | a sleeping reader that could read goes without a notification if and only if a reader leaves a full latch and another sleeper is told |
| `RWLatches.MissedExactly` | src/include/common/rwlatch.h:40-86 | in a run no point finds it so if and only if that never happens to it |
| `RWLatches.SleepingReaderWaits` | src/include/common/rwlatch.h:63-69 | then a reader asleep and not notified has a writer or a full latch to wait for |
| `RWLatches.SleepingReaderHasWriter` | src/include/common/rwlatch.h:63-69 | and in a run whose latch never fills up, a writer |
| `RWLatches.PassedOver` | src/include/common/rwlatch.h:63-86 | a run in which a reader sleeps on although there is room |
| `RWLatches.EntrantIs` | src/include/common/rwlatch.h:40-49 | a writer enters exactly if no other has, and is at work at once exactly if there are no readers |
| `RWLatches.DrainingIs` | src/include/common/rwlatch.h:46-48 | a writer that has entered is at work once there are no readers |
| `RWLatches.ReaderIs` | src/include/common/rwlatch.h:63-69 | a reader goes in exactly if no writer has entered and there is room |
| `RWLatches.WUnlockIs` | src/include/common/rwlatch.h:54-58 | a writer that leaves lowers the flag and notifies every sleeper on reader_ |
| `RWLatches.RUnlockIs` | src/include/common/rwlatch.h:74-86 | the last reader notifies a draining writer; with no writer, one that leaves a full latch notifies one sleeper on reader_ |
| `RWLatches.WriterBarsReaders` | src/include/common/rwlatch.h:63-69 | once a writer has entered nobody starts to read |
| `RWLatches.ReadersOnlyLeave` | src/include/common/rwlatch.h:40-86 | in a run, as long as a writer drains or writes, the set of readers only shrinks |
| `RWLatches.StepKeeps` | src/include/common/rwlatch.h:40-86 | every section of every call keeps the invariant |
| `RWLatches.ReaderWriterLatch.WLock` | src/include/common/rwlatch.h:40-49 | the fields and the thread end where the section's specification says |
| `RWLatches.ReaderWriterLatch.WUnlock` | src/include/common/rwlatch.h:54-58 | as WLock, with everyone on reader_ notified |
| `RWLatches.ReaderWriterLatch.RLock` | src/include/common/rwlatch.h:63-69 | as WLock |
| `RWLatches.ReaderWriterLatch.RUnlock` | src/include/common/rwlatch.h:74-86 | as WLock, the right condition variable notified |
| `IntegerArithmetic.AddExact` | src/include/type/integer_parent_type.h:78-98 | for every pair of widths and operands, AddValue throws exactly when the sum does not fit the wider type and else returns the sum, if and only if the operands are not two NULLs of one unpromoted width |
| `IntegerArithmetic.SubtractExact` | src/include/type/integer_parent_type.h:100-119 | the same for differences, except zero less a NULL of an unpromoted width |
| `IntegerArithmetic.MultiplyValue` | src/include/type/integer_parent_type.h:121-142 | for non-NULL operands the product, or the exception exactly when it does not fit |
| `IntegerArithmetic.DivisionTest` | src/include/type/integer_parent_type.h:130-141 | dividing the wrapped product by one factor gives the other exactly if nothing was lost |
| `IntegerArithmetic.WrapTwice` | src/include/type/integer_parent_type.h:81-84 | truncating the promoted result is truncating the mathematical one |
| `TupleCodec.MakeTuple` | src/storage/table/tuple.cpp:24-54 | for every schema and value list the constructor writes within the buffer, and afterwards each column reads back its value, NULL sentinels of inlined types included; payloads lie behind the fixed part in the order of the columns, and bytes that no column writes are zero |
| `TupleCodec.PutColumn` | src/storage/table/tuple.cpp:38-53 | writing one column changes no byte outside its field and its payload |
| `TupleCodec.StoredReads` | src/storage/table/tuple.cpp:90-121 | what is stored in place or by offset is what GetValue returns |
| `TupleCodec.KeyFromTuple` | src/storage/table/tuple.cpp:99-106 | the key tuple holds exactly the chosen columns' values |
| `TupleCodec.SizeOf` | src/storage/table/tuple.cpp:26-34 | the size computed from the uninlined columns is where the last payload ends |
| `TupleCodec.MakeSchema` | src/catalog/schema.cpp:21-39 | offsets are the running sum of the fixed lengths, and the uninlined columns are listed in order |
| `TupleCodec.UninlinedAre` | src/catalog/schema.cpp:26-38 | the list names every VARCHAR column, in ascending order |
| `TupleCodec.FieldsTile` | src/catalog/schema.cpp:26-38 | fields follow one another without a gap and fill the fixed part |
| `TupleCodec.PayloadsTile` | src/storage/table/tuple.cpp:38-53 | payloads follow one another from the end of the fixed part, each with four bytes of length in front |
| `TupleCodec.FieldsApart` | src/catalog/schema.cpp:26-38 | fields of different columns do not overlap |
| `TupleCodec.RegionsApart` | src/storage/table/tuple.cpp:38-53 | neither do the regions that two columns write |
| `TupleCodec.EncodeAt` | src/type/varlen_type.cpp:158-176 | the k-th byte stored is the k-th digit to the base 256, the lowest first |
| `TupleCodec.DecodeEncode` | src/type/varlen_type.cpp:158-176 | a length or integer of n bytes reads back what was written |

## Left out

B+ tree and iterator

- BPlusTrees.BPlusTree.Redistribute: takes the parent's separator as middle key, as the page comments require (src/storage/page/b_plus_tree_internal_page.cpp:220-223, 252-254); the code passes the sibling's key (src/storage/index/b_plus_tree.cpp:494, 505), and `TreeFacts.MiddleFromRight` and `TreeFacts.MiddleFromLeft` say when that is right. The new separator is read from the page's own slot 0, where the code reads an internal page through the leaf layout (b_plus_tree.cpp:496, 508).
- TreePages.TreePage.InternalMoveLastToFrontOf: shifts from the last entry down; the code's loop starts there too but counts up (b_plus_tree_internal_page.cpp:277), and `TreeFacts.ShiftNeverEnds`, `TreeFacts.ShiftOverwrites` and `TreeFacts.LeftNeverEnds` say what comes of it. `TreeFacts.LeftAlwaysMisroutes` is about this repaired loop.
- BPlusTrees.BPlusTree.InsertIntoParent: no claim about pin counts, since the code unpins the old page instead of the parent it fetched (b_plus_tree.cpp:278). Pages are modelled as fetched frames that are written back; the pool never runs out of frames, so the "out of memory" exceptions do not occur.
- BPlusTrees.BPlusTree.constructor: requires a leaf maximum of at least 2 and an internal maximum of at least 4, since `Lookup` reads entry 1 of every internal page.
- Keys and record ids are integers; the comparator is the order of the integers.
- BPlusTrees.BPlusTree.Remove: starts with an empty set of deleted pages, as a transaction of its own does.
- Operations on one tree run one after the other. Latch crabbing is stated as which pages an operation writes while which pages are latched; parent ids of adopted children are exempt, as in the code.
- Root latching in `FindLeafPage`, which unlocks once per level, and `Begin(key)`, which for an absent key may land one slot early.
- The header page, printing, and loading from files.

Lock manager and detector

- LockManagers.LockManager.LockShared: keeps the invariant only if the record is not one the transaction has unlocked before, and so in all results about runs but those of `Relocks`. No call by a transaction that is asleep or committed, none on a record that is locked still; a transaction that upgrades or unlocks holds the lock.
- SerialRuns.RunsAreSerializable: upgrades only where they are refused or go through at once; one that waits has given up its shared hold (src/concurrency/lock_manager.cpp:131-132), and `LockExamples.UpgradeLosesPlace` shows what can happen. For REPEATABLE_READ, as the other isolation levels do not promise it, and with `fixed` true.
- Transactions are values in a map rather than heap objects, and condition variables are the choice of which sleeper's section runs next; fairness and liveness are not modelled.
- DeadlockDetectors.DeadlockDetector.RunCycleDetection: aborts members of every circle of requests, since the code builds its graph from the queues, in which `Unlock` leaves granted requests behind; a reader under READ_COMMITTED can so be aborted without a deadlock. `Deadlocks.CycleIsDeadlock` says when a circle is a deadlock.
- DeadlockDetectors.DeadlockDetector.HasCycle: a worklist over the listed transactions, where the code erases from the set it iterates over; the victim is not claimed to lie on the cycle, since the code takes the largest id on the whole search stack. The sorting of successors is a function on the list read, where the code sorts the stored vector.
- The detector's thread, its sleep interval, and `GetEdgeList`.

Buffer pool

- BufferPools.BufferPoolManager.DeletePage: by the step list in its comment (src/buffer/buffer_pool_manager.cpp:162-166); `BufferPools.DeleteAsWrittenBreaks` says when the code as it stands is in order.
- BufferPools.BufferPoolManager.FlushPage: by the contract in its header; `BufferPools.FlushAsWrittenBreaks` says when the code as it stands is in order.
- BufferPools.BufferPoolManager.FlushAllPages: the flush of each page is inlined without the latch, which the code locks twice.
- BufferPools.BufferPoolManager.UnpinPage: the last client to let go of a page reports the writes not reported yet; without that, nobody can know of them.
- BufferPools.BufferPoolManager.FetchPage: INVALID_PAGE_ID is not fetched. The disk is a total map in which a page never written is zero.
- BufferPools.BufferPoolManager.NewPage: ids are handed out in order, and no page is fetched under an id before it is handed out; otherwise the pool would hold it twice.
- PoolRuns.Run: only pages that were handed out and not deleted since are fetched, and only pinned ones written, since a map of pages has nothing to answer otherwise. The return value of a flush is not one of the replies, as it tells whether the page happens to be resident.
- The pool's latch: its calls are atomic. The clock replacer is a stub and not modelled.

Table storage

- TablePages.TablePage.InsertTuple: the header fields and the slot array are fields of the page object, not bytes of its buffer; the tuples are bytes. Logging is off, and with it the record locks the page takes only when logging. Empty tuples are refused by an assertion in the source and excluded.
- TablePages.TablePage.ApplyDelete: the assertions of the source are the outcome `ok`, here and in `RollbackDelete`, `Commit` and `Abort`; nothing is claimed for builds without assertions.
- TableHeaps.TableHeap.InsertTuple: the pool never runs out of frames.
- TableTxns.TableTxn.MarkDelete: the record's page must be one of the heap's, likewise for updates; the pool does not refuse it. The result is what the page answers, where the heap always returns true.
- TableTxns.TableTxn.Abort: for a transaction alone on its table, with no deletion pending when it began, and one table per transaction.
- TableRuns.Run: an update of a record that is there may be refused for lack of space, which a map does not know of; it is not refused when the new tuple is no longer. Record ids are ones the heap handed out or that name one of its pages.
- Index entries in the write sets, and the release of the locks at the end of commit and abort.

Smaller cores

- IntegerArithmetic.MultiplyValue: for operands that are not NULL; the minimum divided by -1 has no defined value in the source's language. Division and modulo are left out.
- TupleCodec.MakeTuple: for VARCHAR values that are not NULL and tuples smaller than 2 to the power of 31 bytes. Integers, decimals and time stamps are their bits, stored lowest byte first.

Not modelled at all: query executors, log manager, recovery and checkpoints, catalog, hash tables, and the parts of
the type system that convert and compare.
