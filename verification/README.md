# Proofs about solve

A Dafny model of the parts of the contest system in which something can go wrong quietly, and proofs
that it does not. `dafny verify dfyconfig.toml` checks all of it.

**The replicated table** (`event_store`, `event_consumer`, `event_delivery`, `sorted_map`, `btree_index`,
`object_rows`, `replay`, `cached_store`, `transactions`, `replica`, `convergence`, `lost_events`,
`late_event_run`, `live_store`). Writers change a row and append an event in one transaction; event ids
are taken inside it, so they become visible out of order. A consumer keeps the undelivered ids as ranges
that it splits in place. A cached store fixes a position, loads a snapshot that may be newer, and replays.
`event_consumer`, `btree_index` and `cached_store` hold the code, as classes proved against functions;
`transactions` and `replica` are transition systems; `live_store` shows that the calls of a cached store
are steps of `replica`; `convergence` has the statements over all runs.

**The resource cache** (`resource_cache`, `resource_loads`, `cache_manager`): references, futures and loads interleaved in
any way. `cache_manager` is the code; each of its methods is shown to be one step of `resource_cache`.

**The lease lock and the task queue** (`lease_lock`, `task_queue`), as transition systems over a shared
clock that never goes back. The classes beside them are the code; checking, computing and swapping are
separate calls, and each call is shown to be one step, whatever the other clients did before it.

**Contest standings** (`contest_time`, `standings_scan`, `standings_rows`, `standings_places`): the scans
over sorted submissions, freezing, sums, order and places.

**Four algorithms**: the package update (`package_diff`, `package_patch`, `package_result`), judging
(`judging`), the search over roles (`role_closure`) and the pages of solutions (`pagination`). `options` and
`sets` hold what several modules share.

Assumptions, each stated where it is used: a commit is atomic; a row stays locked from its change to the
end of the transaction; ids of objects are never used again; every clock reading is of one clock that
does not go back; `sort.Sort` returns a sorted permutation; `container/heap` pops a first element; a
B-tree is a sorted map; a task is finished with Succeeded or Failed only (internal/invoker/invoker.go:143-151).

Two properties fail on some inputs; each has its exact condition and an input. A fault-free sync brings a
row in date exactly if the consumer waits for the row's last event (`Convergence.SyncConverges`,
`LostEvents.CreateReachesCopy`), so an event that becomes visible below the tracked ids is lost;
`LateEventRun.LateRowIsLost` is such a run. A package that names something twice is applied correctly
exactly when the repetition is harmless (`PackageResult.PatchedExactly`);
`PackageResult.RepeatedLocaleFails` has a package that is not.

## Model

| member | source | states |
|---|---|---|
| EventStore.GetEventsWhere | internal/db/event_store.go:90-99 | The WHERE expression built for a list of ranges is true of exactly the ids that some range contains. |
| EventConsumer.PunchCovers | internal/db/event_consumer.go:66-79 | Taking a delivered id out of the ranges, at an edge or by a split, removes this id and no other and keeps the ranges sorted and disjoint with one unbounded tail. |
| EventConsumer.RemoveEmptyCovers | internal/db/event_consumer.go:32-40 | Dropping empty ranges leaves the covered ids as they were. |
| EventConsumer.WindowCovers | internal/db/event_consumer.go:40-44 | The gap window leaves up to 5000 ranges as they are and keeps the last 5000 of more; it forgets exactly the ids below the first range it keeps, and never the unbounded tail. |
| EventConsumer.FirstIsSmallest | internal/db/event_consumer.go:26-30 | After cleaning up, the first tracked id is the smallest pending one. |
| EventConsumer.CompactUnique | internal/db/event_consumer.go:32-44 | The cleaned list is determined by the ids it covers, so where the window cuts depends on these alone. |
| EventConsumer.ConsumeConserves | internal/db/event_consumer.go:47-83 | Whatever fails in a call, the pending ids afterwards are the ids from a floor on that were not handled; the floor moves only by the window; what was handled is a prefix of the rows and was never handled before. |
| EventConsumer.LoadedRowsAreHandled | internal/db/event_consumer.go:47-83 | With rows loaded for the tracked ranges no row is invalid, so the only failures are the ones injected. |
| EventConsumer.EventConsumer.Split | internal/db/event_consumer.go:66-79 | Growing and shifting the slice in place puts the two halves where the split range was and moves nothing else. |
| EventConsumer.EventConsumer.RemoveEmptyRanges | internal/db/event_consumer.go:32-45 | The compaction in place is removal of the empty ranges followed by the window. |
| EventConsumer.EventConsumer.ConsumeEvents | internal/db/event_consumer.go:47-83 | The loop with a moving cursor handles the same rows and leaves the same ranges as looking up every id from scratch. |
| EventConsumer.EventConsumer.BeginEventID | internal/db/event_consumer.go:26-30 | It is pending and no smaller id is, except after an interrupted call that left an empty range in front. |
| EventDelivery.ExactlyOnce | internal/db/event_consumer.go:47-83 | Over any sequence of calls, failing anywhere, no event is handled twice; after a last call with no failure every visible event from the floor on was handled and BeginEventID is the first that was not. As long as every call leaves fewer than 5000 ranges, the floor is the first id and nothing is skipped. |
| EventDelivery.FailedEventIsOfferedAgain | internal/db/event_consumer.go:57-66 | The event whose callback failed is among the rows of the next call, and those handled before it are not. |
| EventDelivery.DrainedByOneCall | internal/db/event_consumer.go:47-83 | A call with no failure leaves no visible event pending. |
| BTreeIndex.InRangeMeans | internal/models/btree_index.go:88-140 | The 64-bit limits of the two iterators mean at least beginID forward and at most beginID backward. |
| BTreeIndex.BTreeIndex.Register | internal/models/btree_index.go:34-41 | Adds exactly the entry of the object's key, keeping the order. |
| BTreeIndex.BTreeIndex.Deregister | internal/models/btree_index.go:43-50 | Removes exactly the entry of the object's key. |
| BTreeIndex.IndexIter.Next | internal/models/btree_index.go:88-140 | In either direction yields the ids of one key within the limit, each once and in order, and says when there are no more. |
| BTreeIndex.IndexRows.Next | internal/models/btree_index.go:212-224 | The heap merge stands on the first id left that has an object, and passes over ids without one. |
| BTreeIndex.FindAll | internal/models/btree_index.go:168-224 | A lookup of distinct keys in an index that agrees with the objects is filter and sort over all objects, ascending or descending. |
| BTreeIndex.SortedUnique | internal/models/btree_index.go:168-224 | There is only one such list. |
| ObjectRows.ObjectRows.Next | internal/models/cached_store.go:257-269 | A cursor over all objects yields the next id of its walk and counts down its limit. |
| ObjectRows.WantedMeans | internal/models/cached_store.go:257-310 | Wanted are the ids at least beginID going forward and at most beginID going backward, beginID included; going backward from the largest 64-bit id there is none. |
| ObjectRows.ReadAll | internal/models/cached_store.go:250-356 | All and ReverseAll yield, in order, the first `limit` objects from beginID on; a limit of at most zero is none. |
| Replay.StaleOnlyUnderSnapshotKey | internal/models/cached_store.go:432-454 | While events a snapshot already contains are replayed over it, an index lists the object under its current key and at most the snapshot's key besides. |
| Replay.ReplayOverNewerSnapshot | internal/models/cached_store.go:83-141 | Replaying all events since the position over a snapshot taken any time later gives the latest value and exactly its index entry. |
| Replay.ExactAfterReplay | internal/models/cached_store.go:432-454 | A replay leaves an object listed under exactly its key if and only if every key that its first event does not take away is the key of a value the events bring. |
| Replay.FoldProjects | internal/models/cached_store.go:432-471 | Events of different objects do not interfere in the map or in an index. |
| Replay.TableAfter | internal/models/cached_store.go:363-389 | An event gives its object the event's value or takes the object away, and leaves all others. |
| CachedStore.StartID | internal/models/cached_store.go:97-110 | The start id is the last event id less the window; it is 1 exactly if there is no event or that difference is at most 1. |
| CachedStore.ScanIsTable | internal/models/cached_store.go:116-129 | Loading rows one by one gives the table that was scanned. |
| CachedStore.CreateAgrees | internal/models/cached_store.go:432-438 | Registering a new object keeps an index in agreement with the map. |
| CachedStore.CachedStore.OnDeleteObject | internal/models/cached_store.go:441-448 | The object goes from the map and its current key's entry from every index; an unknown id changes nothing. |
| CachedStore.CachedStore.OnUpdateObject | internal/models/cached_store.go:451-454 | The old value's entry is exchanged for the new one's in every index. |
| CachedStore.CachedStore.ConsumeEvent | internal/models/cached_store.go:456-471 | Map and every index follow the event; an unknown kind is an error that changes nothing. |
| CachedStore.CachedStore.InitEvents | internal/models/cached_store.go:97-114 | The new consumer starts at the window before the last event and has skipped what is visible. |
| CachedStore.CachedStore.InitObjects | internal/models/cached_store.go:116-129 | The map is the table and every index agrees with it. |
| CachedStore.CachedStore.HandleRows | internal/db/event_consumer.go:57-80 | The loop with the store's callback in it: an event is applied to map and indexes, and only then taken out of the ranges; an unknown kind ends the loop with nothing of that event done. |
| CachedStore.CachedStore.Sync | internal/models/cached_store.go:131-141 | Replays exactly the rows the consumer handled, into the map and every index, whatever goes wrong. |
| LiveStore.AgreeingIsSnapshot | internal/models/cached_store.go:116-129 | Agreement with a table determines the map and the index. |
| LiveStore.InitEvents | internal/models/cached_store.go:97-114 | A successful call is the step that skips the backlog; a failed one leaves the store uninitialised. |
| LiveStore.InitObjects | internal/models/cached_store.go:116-129 | The call is the step that takes the snapshot. |
| LiveStore.Sync | internal/models/cached_store.go:131-141 | The call is the sync step of the replica, with any failure. |
| LiveStore.Find | internal/models/btree_index.go:168-224 | After a fault-free sync by which every visible event was backlog, replayed or waited for, a lookup of several keys in the copy is filter and sort over the table. |
| Transactions.DisjointExtensions | internal/models/cached_store.go:363-389 | Transactions that wrote different rows can commit in either order. |
| Transactions.WritersPublish | internal/models/cached_store.go:363-389 | In every run of any number of writers a commit makes the events of each object visible in order of id, though ids of different objects come out of order. |
| Replica.StepKeeps | internal/models/cached_store.go:83-141 | Commits, fixing the position, skipping the backlog, the snapshot, and syncs failing anywhere keep: pending ids and handled ids partition the ids from the floor on, nothing older than a replayed event of the same object is pending, and the copy is the snapshot with the replayed events on top. |
| Convergence.SyncDrains | internal/models/cached_store.go:131-141 | After a sync with no failure no visible event is pending. |
| Convergence.Converged | internal/models/cached_store.go:83-141 | A drained copy has of every object, unless one of its events was missed below the tracked ids, exactly the table's row and exactly its index entry. |
| Convergence.ConvergedEverywhere | internal/models/cached_store.go:83-141 | If nothing was missed, the map is the table and the index agrees with it. |
| Convergence.ShowsCommittedRow | internal/models/cached_store.go:83-141 | Even after failures and missed events the copy shows of every object a row the table once held. |
| Convergence.SyncDelivers | internal/models/cached_store.go:131-141 | A fault-free sync replays a visible event not replayed before exactly if the consumer waits for its id. |
| Convergence.SyncConverges | internal/models/cached_store.go:131-141 | After a fault-free sync an object's row is that of the table exactly if it was before or the consumer waited for the object's last event; in the other case the sync does not touch the object. |
| Convergence.SyncConvergesIndex | internal/models/cached_store.go:131-141 | If every event of the object was backlog, replayed or waited for, it is listed under exactly its key. |
| Convergence.SyncIndexExactly | internal/models/cached_store.go:131-141 | In general the index is exact for an object after a fault-free sync if and only if every key that the first tracked event does not take away is the key of a value the tracked events bring; with none tracked its entries stay. |
| Convergence.MissedIsUnreached | internal/models/cached_store.go:131-141 | The events missed after a fault-free sync are exactly the visible ones that were neither backlog nor replayed nor waited for. |
| Convergence.AfterEverySync | internal/models/cached_store.go:83-141 | These conditions hold at every fault-free sync of every run. |
| LostEvents.MissedForGood | internal/db/event_consumer.go:32-44 | No later commit or sync brings a missed event back. |
| LostEvents.PublishedIsReplayed | internal/models/cached_store.go:97-141 | Of a batch that becomes visible, the next fault-free sync replays exactly the events from the floor on. |
| LostEvents.CreateReachesCopy | internal/models/cached_store.go:97-141 | A new object is in the copy after the next fault-free sync exactly if its event's id was waited for, that is, is not below the floor; otherwise it is in the table alone. |
| LateEventRun.LateRowIsLost | internal/models/cached_store.go:97-110 | A run from a fresh store to a fault-free sync after which a committed row is missing from the copy. |
| ResourceCache.StepKeeps | internal/pkg/cache/cache.go:113-205 | Every atomic step of hits, misses, loads, deletes and releases keeps: a counter is the live references, one if cached or in flight, and the releases still owed. |
| ResourceCache.CounterIsHolders | internal/pkg/cache/cache.go:113-205 | So in every state of every interleaving the counter is exactly that sum. |
| ResourceCache.AcquireNeverPanics | internal/pkg/cache/cache.go:194-198 | Whatever is found in cache or futures has a counter of at least one. |
| ResourceCache.ReadableIsAlive | internal/pkg/cache/cache.go:217-274 | A reference that can be read reads what the load returned, which is not released and not about to be. |
| ResourceCache.ReleasedExactlyOnce | internal/pkg/cache/cache.go:200-205 | A loaded resource is released once, when its last holder is gone, and never before or again. |
| ResourceCache.SingleFlight | internal/pkg/cache/cache.go:127-163 | At most one load of a key is in flight, and none of a cached key. |
| ResourceCache.UpdateReplacesNothing | internal/pkg/cache/cache.go:165-177 | A finished load finds its own future and nothing cached under its key. |
| ResourceCache.LoadOutcome | internal/pkg/cache/cache.go:165-177 | A failed load leaves the key free for the next one; a good one is cached and evicts nothing. |
| ResourceLoads.LoadIsStored | internal/pkg/cache/cache.go:144-177 | In every run, a load of a missed key that returned an error leaves the key in neither map and its entry's release owed; one that returned no error leaves its entry cached under the key. |
| ResourceLoads.ReadsWhatWasReturned | internal/pkg/cache/cache.go:217-274 | Whoever can read the entry reads the value the load returned, which came without an error. |
| ResourceLoads.ReturnedIsReleased | internal/pkg/cache/cache.go:200-205 | What the load returned, with or without an error, is kept while anybody holds the entry and released once when nobody does. |
| CacheManager.Manager.LoadFast | internal/pkg/cache/cache.go:113-125 | One step: a reference to the cached resource or to the future, or nothing at all. |
| CacheManager.Manager.LoadSlow | internal/pkg/cache/cache.go:127-163 | One step: as before, or a new future with a counter of two. |
| CacheManager.Manager.LoadSync | internal/pkg/cache/cache.go:66-95 | One step: a reference that reads directly, or the reference is released if the load failed or the wait was given up. |
| CacheManager.Manager.ReleaseOwed | internal/pkg/cache/cache.go:157-159 | One step: the release owed by a failed load or a delete is performed once. |
| CacheManager.Manager.UpdateCache | internal/pkg/cache/cache.go:165-177 | One step; a release is owed exactly if the load failed. |
| CacheManager.Manager.Delete | internal/pkg/cache/cache.go:179-187 | One step; a release is owed exactly if the key was cached. |
| CacheManager.Manager.ReleaseRef | internal/pkg/cache/cache.go:225-281 | The first release of a reference counts, a second changes nothing. |
| LeaseLock.StepKeeps | internal/models/lock.go:91-177 | Reading, checking, computing and swapping in any interleaving keep an unexpired guard's lock equal to the row and different from every other guard's; tokens need not be distinct. |
| LeaseLock.MutualExclusion | internal/models/lock.go:91-118 | In every state of every run at most one guard of a lock is unexpired. |
| LeaseLock.OwnerIsUndisturbed | internal/models/lock.go:126-177 | While a guard is unexpired no other client changes its row. |
| LeaseLock.OwnerNeverLoses | internal/models/lock.go:151-177 | The swap of an unexpired guard never fails, so ErrLockReleased means the lease ran out. |
| LeaseLock.LockGuard.Update | internal/models/lock.go:151-177 | The swap is one step, of a guard or of a client that is acquiring: the guard's lock follows the row, or neither changes. |
| LeaseLock.LockGuard.Check | internal/models/lock.go:129-131 | The expiry check is one step: it passes exactly if the lease has not run out by the clock. |
| LeaseLock.LockGuard.PreparePing | internal/models/lock.go:132 | The new expiry, 15 seconds from the clock, is computed in a step of its own. |
| LeaseLock.LockGuard.Ping | internal/models/lock.go:126-134 | Uninterrupted, a call is the path of check, tick, new expiry and swap, and succeeds exactly if the lease had not run out at the check and the row is still the guard's. |
| LeaseLock.LockGuard.Release | internal/models/lock.go:136-143 | Uninterrupted, a call is the path of check and swap; it leaves token and expiry 0, a row that has expired by the clock of the call, and a guard that owns nothing. |
| LeaseLock.CheckFree | internal/models/lock.go:99-101 | The check of the row that was read is one step. |
| LeaseLock.Acquire | internal/models/lock.go:91-118 | From the row read, a call is the path of check, tick, new lock and swap; a guard is returned exactly if the row had expired and is unchanged at the swap. |
| LeaseLock.ReleaseFrees | internal/models/lock.go:136-177 | However other clients interleave, a release whose swap succeeds leaves an expired row and a guard that owns nothing. |
| LeaseLock.TakeReleased | internal/models/lock.go:91-143 | The next client that asks for a released lock gets it. |
| LeaseLock.OthersDoNotMove | internal/models/lock.go:91-177 | Steps of other clients leave a client where it is, so its calls may be taken one by one. |
| TaskQueue.TaskStore.PopQueued | internal/models/task.go:204-248 | One step: takes the queued task of a supported kind with the smallest id among the ten queried, or changes nothing. |
| TaskQueue.TaskGuard.Check | internal/invoker/tasks.go:169-224 | One step: exactly if the task runs and has not expired there is a copy to write, with the status, the state or the expiry asked for and nothing else changed. |
| TaskQueue.TaskGuard.Update | internal/invoker/tasks.go:226-234 | One step, a write if the store answers before the expiry and has the row, and a failed write otherwise; the copy follows the row, or neither changes. |
| TaskQueue.TaskGuard.SetDeferredState | internal/invoker/tasks.go:180-187 | One step that changes the copy and not the row. |
| TaskQueue.TaskGuard.Perform | internal/invoker/tasks.go:169-214 | A check and then a write or a failed write. When it succeeds, SetStatus leaves the status asked for, SetState the state, Ping an expiry the duration or at least two seconds off, and nothing else changed. |
| TaskQueue.PopQueuedTask | internal/invoker/tasks.go:47-59 | The guard returned stands where the pop has put it. |
| TaskQueue.OthersLeaveGuard | internal/invoker/tasks.go:169-234 | Steps of other guards leave a guard where it is. |
| TaskQueue.HistoryIsLegal | internal/invoker/tasks.go:169-234 | In every run the status history of every task is a prefix of Queued, Running and one of Succeeded and Failed, and a task has one guard at most. |
| TaskQueue.PoppedOnce | internal/models/task.go:204-248 | No task is popped twice, by whichever worker. |
| TaskQueue.NoWriteAfterEnd | internal/invoker/tasks.go:169-234 | No write lands on a finished task. |
| TaskQueue.NoWriteAfterFailedCheck | internal/invoker/tasks.go:216-234 | A guard whose expiry check failed once never writes again. |
| TaskQueue.WritesWhatWasAsked | internal/invoker/tasks.go:169-234 | In every run, what a write leaves in the row is what its check was asked for, whatever other guards did in between. |
| ContestTime.BeforeMeans | internal/managers/contest.go:422-489 | The special values of a contest time are never mistaken for times. |
| ContestTime.StageMeans | internal/managers/contest.go:439-489 | The stage by the clock: not planned without a begin, not started before it, started until the duration is over, finished from then on. |
| ContestTime.FrozenInterval | internal/managers/contest_standings.go:648-672 | A contest is frozen from the freeze begin, or its own end if earlier, to the freeze end if there is one; while it runs unfrozen no time point reached so far is a frozen one. |
| StandingsScan.RealByTime | internal/managers/contest_standings.go:302-334 | Submissions sorted by creation time are attempts sorted by contest time, clamping included. |
| StandingsScan.RealAttemptMeans | internal/managers/contest_standings.go:312-333 | Looked at are submissions from before now; the time is that since the begin, 0 before it and without one. |
| StandingsScan.FakeAttemptMeans | internal/managers/contest_standings.go:392-409 | A fake submission is looked at once the contest has reached its time. |
| StandingsScan.CountedMeans | internal/managers/contest_standings.go:311-326 | What counts has no report or one that is readable and not a compilation error; an accepted one or one without report ends the scan. |
| StandingsRows.AttemptsByTime | internal/managers/contest_standings.go:302-396 | The same of the submissions of real and of fake participants as the program sorts them. |
| StandingsScan.ScanICPC | internal/managers/contest_standings.go:308-341 | The scan with its breaks and continues is: the counted attempts up to the first accepted or unjudged one. |
| StandingsScan.SolvedMeans | internal/managers/contest_standings.go:308-341 | A cell is solved exactly if a counted attempt is accepted with nothing ending the scan before it and is not hidden; its time is that attempt's and its count is one more than the counted attempts before it. |
| StandingsScan.CellMeans | internal/managers/contest_standings.go:308-341 | Any cell counts the submissions up to the first that ends the scan and shows the time of the last and its verdict, unless that is frozen or missing. |
| StandingsScan.ScanIOI | internal/managers/contest_standings.go:488-543 | The scan of a problem with points is the fold over the attempts before the first unjudged one. |
| StandingsScan.BestPoints | internal/managers/contest_standings.go:488-543 | The points of a cell are the best shown ones, or 0. |
| StandingsScan.IOICellMeans | internal/managers/contest_standings.go:497-528 | A cell with points counts the judged submissions and the first one without report; a missing report or a freeze of the last leaves no verdict. |
| StandingsScan.VerdictOfBest | internal/managers/contest_standings.go:511-525 | Unfrozen, the verdict is that of the first submission with the best points, or of the first of all if none has points. |
| StandingsRows.ICPCPenaltySum | internal/managers/contest_standings.go:346-356 | The sum over the kept cells is 20 a wasted attempt and the minutes, summed over all solved problems. |
| StandingsRows.ICPCScoreSum | internal/managers/contest_standings.go:346-353 | The sum over the kept cells is that of the scores of all solved problems. |
| StandingsRows.IOISums | internal/managers/contest_standings.go:488-560 | The sum over the kept cells is that of the points of all problems. |
| StandingsRows.BuildICPCRow | internal/managers/contest_standings.go:294-357 | A problem solved after k counted submissions adds 20 k and the whole minutes of its time to the penalty and its weight to the score; any other adds nothing; there is nothing else in the sums. |
| StandingsRows.BuildIOIRow | internal/managers/contest_standings.go:488-556 | The score is the sum of the best shown points of each problem. |
| StandingsRows.BuildRows | internal/managers/contest_standings.go:267-432 | Each row has its participant's id and kind, these sums, and a penalty in ICPC rules for regular and virtual participants alone. |
| StandingsRows.ParticipantMeans | internal/managers/contest_standings.go:267-377 | A fake participant has a row of a regular participant with id 0; a real one keeps id and kind; the submissions are taken over one by one. |
| StandingsRows.FreezeHidesCell | internal/managers/contest_standings.go:302-341 | Under a freeze, histories that differ only in reports from the freeze on give a problem the same score, penalty and points. |
| StandingsRows.FreezeHidesRows | internal/managers/contest_standings.go:251-626 | For any submissions of real and fake participants, by creation or contest time, that differ only in reports at or after the freeze, frozen ICPC and IOI standings have rows with the same score and penalty. |
| StandingsPlaces.BuiltRowsAreUniform | internal/managers/contest_standings.go:354-356 | In built rows the order class decides whether there is a penalty. |
| StandingsPlaces.StrictWeakOrders | internal/managers/contest_standings.go:685-713 | On such rows both comparisons are strict weak orders and the stable one refines the other. |
| StandingsPlaces.MixedPenaltiesCycle | internal/managers/contest_standings.go:685-713 | Why that is needed: with penalties mixed in a class, three rows of one score form a cycle. |
| StandingsPlaces.SortedMeans | internal/managers/contest_standings.go:674-698 | Of sorted rows managers come first, then regular and virtual participants, then the rest; among these the higher score, the smaller penalty, the smaller id. |
| StandingsPlaces.KeptMeans | internal/managers/contest_standings.go:98-110 | Shown are regular participants alone in official standings; to those who may not see all, regular and virtual ones and, after the end, upsolving ones. |
| StandingsPlaces.FilterSorted | internal/managers/contest_standings.go:97-119 | Filtering keeps the rows sorted. |
| StandingsPlaces.BetterPermuted | internal/managers/contest_standings.go:700-713 | How many placed rows are better does not depend on their order. |
| StandingsPlaces.CalculatePlaces | internal/managers/contest_standings.go:633-646 | In place, every regular or virtual participant gets one more than the number of such rows with a higher score, or the same score and a smaller penalty, and nothing else changes. |
| StandingsPlaces.PlacesCompare | internal/managers/contest_standings.go:633-646 | The higher score has the smaller place; at equal scores the smaller penalty has; at equal or no penalties the place is shared. |
| StandingsPlaces.ProcessRows | internal/managers/contest_standings.go:85-122 | The same after any filtering. |
| StandingsPlaces.FreezeHidesPlaces | internal/managers/contest_standings.go:85-122 | Under a freeze the places too do not depend on hidden reports, whatever the sort does with ties. |
| StandingsPlaces.FreezeHidesPresence | internal/managers/contest_standings.go:97-119 | Nor does it depend on them who is shown. |
| PackageDiff.Collect | internal/invoker/update_problem_package.go:137-174 | The loop over the old rows is the fold on which the results rest. |
| PackageDiff.MakePlan | internal/invoker/update_problem_package.go:179-260 | The nested loops stop at the first thing that cannot be read and otherwise make the plan the results rest on. |
| PackageDiff.Database.Apply | internal/invoker/update_problem_package.go:292-331 | All changes are made in the order visited, or the rows stay as they were. |
| PackagePatch.PlanAtKey | internal/invoker/update_problem_package.go:179-260 | The plan at a key depends on what the package has under this key alone. |
| PackagePatch.PlannedChange | internal/invoker/update_problem_package.go:179-260 | A key asked for harmlessly is created, updated, kept or deleted as it should be; any other gets a second row or an update of a row that does not exist. |
| PackagePatch.PlanIsMadeWhenReadable | internal/invoker/update_problem_package.go:179-260 | When the files of the old rows exist, the loops end in a plan exactly if everything in the package can be read. |
| PackageResult.CollectsAll | internal/invoker/update_problem_package.go:137-174 | Of every key the last old row is kept for comparison and all others are duplicates. |
| PackageResult.ApplyAtKey | internal/invoker/update_problem_package.go:307-329 | Changes of different keys do not disturb each other, whatever the order of the map. |
| PackageResult.UploadAtKey | internal/invoker/update_problem_package.go:279-291 | Every entry with new content gets a file with that content, and no other entry changes. |
| PackageResult.PatchedExactly | internal/invoker/update_problem_package.go:117-333 | For any package, old rows and map orders: the update goes through and leaves one right row for every wanted key and none for another exactly if no key is asked for harmfully; other rows are untouched. |
| PackageResult.RunsWhenReadable | internal/invoker/update_problem_package.go:117-333 | So an update runs exactly if its package can be read. |
| PackageResult.RepeatedLocaleFails | internal/invoker/update_problem_package.go:186-204 | Two statements of one locale and no old row: the second asks to update a row that does not exist. |
| PackageResult.DistinctNamesArePatched | internal/invoker/update_problem_package.go:117-333 | With distinct locales and names it always does; rows whose file has the wanted hash stay as they are. |
| PackageResult.UpdatePackage | internal/invoker/update_problem_package.go:117-333 | The same of the whole task, which on any failure leaves the rows as they were. |
| Judging.RunTestMeans | internal/invoker/judge_solution.go:508-528 | A test has the verdict of its run, or of the checker if the run was accepted, and its own points exactly if the checker accepts and they are positive. |
| Judging.StopsOnce | internal/invoker/judge_solution.go:557-592 | Stopping right at the first test not accepted determines tests and verdict, and excludes a failure. |
| Judging.GroupCounts | internal/invoker/judge_solution.go:246-284 | One more group adds the points of its tests or takes them away, and touches no other group. |
| Judging.SolutionReport.CalculateTestSetPoints | internal/invoker/judge_solution.go:231-284 | Adds the points that tests of listed groups end with, and fails on an unsupported policy. |
| Judging.SolutionReport.RunSolutionTests | internal/invoker/judge_solution.go:544-602 | Without points: the shortest prefix ending at the first test not accepted, and its verdict. With points: all tests, verdict accepted (1) if all are and partially accepted (9) otherwise, and the points left in listed groups. In both, the largest time and memory. |
| RoleClosure.ClosedSetHasAll | internal/managers/account.go:174-214 | A set with the start that no edge leaves has every reachable role. |
| RoleClosure.RoundKeeps | internal/managers/account.go:179-212 | A round keeps: seen roles are reachable, and those before this round exist, have all their children seen and their permissions added. |
| RoleClosure.DoneIsClosure | internal/managers/account.go:174-214 | With nothing left to look at, the roles seen are the reachable ones and the permissions their built-in names. |
| RoleClosure.EdgeRows.Next | internal/models/btree_index.go:212-224 | Rows are read from the iterators as they are asked for; every edge of the lookup comes, also if a role was given twice. |
| RoleClosure.FindByRole | internal/models/role_edge.go:47-58 | The keys are read from the slice when the lookup starts: what comes are the edges out of the roles that were in it then. |
| RoleClosure.NextRound | internal/managers/account.go:196-203 | Writing the next round over the slice while the edges are read one by one collects exactly the children not seen before. |
| RoleClosure.GetRecursivePermissions | internal/managers/account.go:174-214 | Ends on every graph, cycles and repeated starts included; fails exactly if a reachable role is missing, and else returns exactly the built-in names of the reachable roles. |
| Pagination.ParseMeans | internal/api/contests.go:1148-1163 | A negative or the largest begin id means the start; no limit means 100, and none goes above 5000. |
| Pagination.FillPage | internal/api/contests.go:1219-1240 | The loop with its two counters is the page the results rest on. |
| Pagination.ObserveContestSolutions | internal/api/contests.go:1179-1244 | The page sent for a request, index lookup included, is the one that a walk over all rows in scope has at the cursor of the request. |
| Pagination.LookupFromCursor | internal/models/btree_index.go:118-140 | A lookup from a cursor finds the rest of what a lookup from the start finds. |
| Pagination.PageCovers | internal/api/contests.go:1219-1240 | A page has the wanted rows from its cursor up to the next one and gets past at least one row; it holds no more than the limit, and stops early only when it is full or 5000 rows were looked at. |
| Pagination.PagesAreComplete | internal/api/contests.go:1148-1244 | For any limit asked for, the pages from the first on come to an end, their cursors descend, and together they list every solution that passes the filter and may be seen, once and newest first. |

## Left out

- HTTP handlers, forms, localization, authentication, mail and the CCS feed: no logic beyond what is modelled.
- SQL text, drivers, row scanning, migrations: a store is a map and a log.
- Ambiguous database failures (applied but reported as an error) and clock skew: outside the assumptions.
- 64-bit overflow of event ids, scores and times: integers are unbounded, except where the source uses the largest or smallest id as a limit.
- Floating point: points and scores are reals, without rounding.
- CachedStore.CachedStore.HandleRows: readers between two events of one call are not modelled.
- CachedStore.CachedStore.InitObjects: a failing scan leaves the store to be initialised again; its partial map is not modelled.
- CachedStore: all indexes of a store have keys of one type; the code allows a different type for each.
- ObjectRows.ObjectRows.Next: on a new cursor, Next of the B-tree is taken to be its first element and Prev its last, since the library is not part of this model.
- BTreeIndex.IndexRows.Next: the heap is a set from which a first element is popped; its array layout is not modelled.
- The synchronisation times and TrySync (internal/models/cached_store.go:143-166): they decide when to sync, not what a sync does.
- Transactions.WritersPublish: rows are locked one by one; serialization failures and deadlocks appear as aborts.
- CacheManager: entries, references and owed releases are named by numbers where the code has pointers; contexts that end while waiting release their reference like any other holder.
- CacheManager.Manager.UpdateCache: the replacement of a cached resource is left out, because ResourceCache.UpdateReplacesNothing shows that it cannot happen.
- The panic path of a load (internal/pkg/cache/cache.go:144-160): the future stays in the map; the cache results are about loads that return.
- LeaseLock.Acquire: the random number and both clock readings are parameters; errors of the random source are left out. Acquire, Ping and Release as whole calls are stated uninterrupted; interleaving is the business of their parts.
- TaskQueue.TaskGuard.Update: whether the store answers is a parameter; the deadline and the missing row are not.
- TaskQueue: liveness, and the pinger, which waits for itself when it closes its context (internal/invoker/tasks.go:82-117); only safety is stated.
- The 15-second standings cache (internal/managers/contest_standings.go:124-156): its key does not determine what a build depends on.
- StandingsRows.FreezeHidesRows: attempt counts are not part of it; the scan stops at a hidden accepted attempt, so they do depend on hidden reports.
- StandingsPlaces.ProcessRows: the totals of the columns (internal/managers/contest_standings.go:111-117) are plain sums and left out.
- PackageDiff: compilation, the confirmation of uploads and the update of the problem row itself; a transaction that cannot commit restores the rows; nobody else changes the rows of the problem meanwhile. A file is known by the hash of its content.
- Judging.SolutionReport.RunSolutionTests: with a group named twice in a set the points are added once for each mention and are not stated; running a test is a parameter; the messages to the task are left out.
- RoleClosure.GetRecursivePermissions: roles and edges do not change during the search.
- RoleClosure.EdgeRows.Next: the order in which edges come is not stated; the search does not depend on it.
- Pagination.PagesAreComplete: the store does not change between pages; the permission test is a parameter.
- Compilers, archives, file storage, temporary directories, safeexec: input, output and the kernel.
- TruncateBuffer, enum texts, permission tables, the merge of migration states: true but easy.
