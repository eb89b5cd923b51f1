# Verified models of the PDDGPU memory managers and memory statistics

PDDGPU is a Linux DRM driver. This project models the parts of it where several CPUs and long
histories meet, and proves what they keep: the leak detector and its RCU list, the usage counters
and the snapshots taken of them, the VRAM manager and the GTT manager. Kernel services (RCU,
workqueues, locks, `drm_buddy`, `drm_mm`, TTM, `kzalloc`) appear only as contracts: what a caller
may rely on, with every other choice left open.

`dafny verify dfyconfig.toml` checks everything.

| file | what it models |
|---|---|
| `Seqs.dfy`, `U64.dfy` | sequences without an element; `u64` and `atomic64_t` arithmetic modulo 2^64 |
| `LeakRecords.dfy`, `LeakDetector.dfy` | the leak list as a ring of heap objects that the locked helpers edit in place, and the value functions they are proved against |
| `LeakIndex.dfy` | the list as an index of the live buffer objects, over runs that reuse addresses |
| `RcuList.dfy`, `RcuGrace.dfy` | the RCU family of list operations, as a transition system of stores and loads; its contents, grace periods and progress |
| `Teardown.dfy`, `Monitor.dfy` | the self-rescheduling monitor and `fini` around that list; what the monitor does from run to run |
| `LeakTotals.dfy`, `CheckRate.dfy` | the leak counters and the rate limit under concurrent checks |
| `MemoryStats.dfy`, `BatchOrder.dfy` | the usage counters, the batch update, and the order of its additions |
| `Snapshot.dfy` | the double-collect loops of `get_info` |
| `Conservation.dfy`, `Usage.dfy` | the byte counters over runs of create, move and destroy, and what they consist of with both managers |
| `VramBlocks.dfy` | the predicates on block lists, and the byte arithmetic both managers share |
| `VramLedger.dfy`, `VramHistory.dfy`, `VramManager.dfy` | the books of the VRAM manager, the history of its calls, and the manager itself with interference |
| `VramRetry.dfy` | the retry path of the VRAM allocation as it is written |
| `ManagerState.dfy`, `GttManager.dfy` | the state word; the GTT manager with interference |
| `GttShutdown.dfy` | the double-checked ready test against the takedown of the GTT allocator |

Where threads interleave there are two styles. `RcuList`, `Teardown`, `LeakTotals`, `CheckRate`,
`BatchOrder` and `GttShutdown` are transition systems: a step is one atomic action, and the theorems
hold at every point of every run. The manager classes are imperative: each locked section is one
method, and wherever the driver holds no lock, `Interfere` lets other threads take any finite number
of such steps.

## Findings about the code

Where a property one would expect is false of the code, the code is kept, the exact condition under
which it holds is proved, and a concrete run or input shows the failure.

- **VRAM retry path.** As written, `pddgpu_vram_mgr_alloc` is right, whatever the allocator answers
  and other threads do, if and only if its first request for the last block comes and is granted. If
  that request is refused, the next attempt works on a `vres` it has freed; if it never comes, the
  `continue` never leaves the loop, with the mutex held. Since the remaining size does not start over, an
  attempt after a refusal that gets one block returns the resource with that block alone. With nobody giving blocks back that means:
  if and only if the allocator has every minimum block the size asks for (`VramRetry.SafeExactly`,
  `SafeExactlyWithEnoughBlocks`, `LastBlockRefused`, `AfterTheRefusal`, `NeverLeaves`). `VramManager` models the form the
  comments describe: blocks are rolled back under the mutex, `vres` is kept until the last attempt
  has failed, and every attempt starts over with the full size.
- **VRAM ledger.** `used` drifts above the bytes in blocks by the sum of size mod minimum block over
  all accounted calls, failed ones without blocks included; it is exact if and only if all those
  sizes are multiples of the minimum block (`VramLedger.DriftExactly`).
- **VRAM backing.** The blocks of a resource hold the whole object if and only if its rounded size is a
  multiple of the minimum block (`VramLedger.BlocksHoldObjectExactly`).
- **VRAM size check.** For objects that are not kernel objects, the check subtracts 256 MB from the VRAM
  size. It bounds requests by the VRAM size if and only if VRAM has at least 256 MB; with 128 MB it
  admits 1 GB (`VramLedger.MaxBytesExactly`, `SmallVramAdmitsMore`). An admitted
  request can get blocks only if it is smaller than VRAM and one minimum block together
  (`VramLedger.RoomForOneMore`); the books stay right either way.
- **VRAM recovery.** `recover` re-initializes the allocator under the mutex and resets the counters later,
  without it. It keeps the books right if and only if no resource is live at the first moment and none
  at the second, neither of which it checks. A caller has that if nothing is live when it starts, and no
  alloc is in flight or none can get a block (`VramManager.Recover`). Otherwise an alloc that takes the
  mutex between the two halves may be live with both counters at zero, and its free takes them below
  zero (`RaceWithRecover`, `FreeAfterRace`). With nothing live, some alloc can break the books like that
  if and only if the manager is ready, one more minimum block fits into visible VRAM and VRAM holds one
  (`VramLedger.RecoverRaceExactly`). Either way the statistics keep what the recover drops.
- **Cross-domain usage.** It is conserved if and only if equal byte counts were created and destroyed
  outside VRAM and GTT, where an object destroyed without a resource counts as outside: created in VRAM and
  destroyed like that, it stays in the VRAM usage for good (`UnattachedDeathStays`). A single
  domain does wrap below zero (`Conservation.ConservedExactly`, `OneDomainWraps`). Under the same
  condition it is made up of the live objects, the blocks and the drift of the VRAM manager, what VRAM
  recoveries left behind, and the resources of the GTT manager (`Usage.UsageExactly`).
- **Batch updates.** Adding the allocated bytes first keeps usage from turning negative; adding the freed
  bytes first does so if and only if one of the two amounts is zero (`BatchOrder.NeverNegative`,
  `FreedFirstExactly`).
- **Snapshots.** The documentation calls the result of `get_info` a consistent snapshot. For a domain it
  is one, whatever the timing of the reads, if and only if fewer than 2^64 bytes are allocated within
  the round (`Snapshot.SnapshotExactly`, `WrapAroundFoolsTheLoop`).
- **The sum of both domains**, which the monitor compares with its threshold, is not a snapshot: it is
  the total at one of the two reads if the other domain is quiet in between. While bytes move from one
  domain to the other, it was in use at some instant if and only if all GTT traffic between the reads
  comes before all VRAM traffic (`Snapshot.ReportedTotalMeaning`, `ReportedTotalExactly`,
  `DomainsAreNotCollectedTogether`).
- **Removal under the monitor.** `alloc_end` and `free_end` call the plain list helpers, whose kfree is
  immediate, while the monitor walks the list under RCU; the RCU helpers have no caller. Such a removal
  is safe for the open read sections if and only if no reader stands on the entry or, where RCU
  removals are mixed in, on unlinked nodes leading straight to it (`RcuList.PlainRemoveSafeExactly`,
  `PlainRemoveHitsItsReaders`, `PlainRemoveUnderReader`).
- **Dropped entries.** A check drops the entries that are not valid at that moment. An object dropped while
  it lives is never listed again (`LeakIndex.DroppedForGood`).
- **Freeing in `fini`.** The drain loop frees without a grace period. That is safe for the open read
  sections if and only if none of them can still reach the entry; `fini` gets there by stopping the
  only reader first (`RcuList.DrainSafeExactly`, `DrainUnderReader`, `Teardown.TeardownIsSafe`). An object added
  after the drain loop stays (`Teardown.TeardownFreesAll`, `Monitor.LateAddStays`).
- **Ages.** A check reads the clock before it takes the lock. It counts exactly the entries that are
  really older than 30 s and 5 min if and only if no entry is stamped later than that reading, short of
  nearly 2^64 ns: an object created in between is counted as a confirmed leak
  (`LeakRecords.OlderThanExactly`, `NewbornIsConfirmed`).
- **Leak totals.** Confirmed never exceeds suspicious in the counters, but `get_info` and the report
  read suspicious first. With up to n 30-second tests between its two reads it cannot print more confirmed leaks than
  suspicious ones if and only if suspicious exceeds confirmed and pending by at least n at the first
  read (`LeakTotals.ReportExactly`, `ReportMayInvert`).
- **Rate limit.** It binds as long as checks do not overlap: the next check cannot come too early if and
  only if none is under way (`CheckRate.LimitExactly`, `TwoCheckersPassTogether`).
- **GTT sizes.** `num_pages` is 32 bits wide, so the allocated range covers the object if and only if
  its size is at most 2^32 - 1 pages (`GttManager.PagesCoverExactly`). The compatibility test is right
  if and only if rounding the size up does not overflow (`GttManager.CompatibleExactly`).
- **GTT takedown.** It is final, for every continuation in which no recover stores READY, if and only if
  `recover` has not stored READY after `fini` stored SHUTDOWN, or no thread that passed the device test
  in time can still come to the allocator and none has used it after its takedown
  (`GttShutdown.TakedownIsFinalExactly`, `LateRecoverUsesTakenDown`).
- **Windows.** The intersection tests are right about an empty window if and only if no block straddles
  it. A place without upper limit intersects nothing, which is right about the window alloc reads
  from the place if and only if no block reaches beyond its start. A GTT node handed out without an address is tested
  as if it started at page 0 (`VramBlocks.IntersectsExactly`, `NoLimitNeverIntersects`,
  `NoLimitMissesEverything`, `GttManager.NoLimitNeverIntersects`, `UnplacedNodeIntersects`).

## Model

| member | source | states |
|---|---|---|
| `RcuList.StepInv` | pddgpu_memory_stats.c:694-745 | every store, load and callback of every thread keeps the invariant; its core is that the frozen next pointer of a removed node leads to a node still listed or removed no earlier |
| `RcuList.ReadersNeverReachFreedMemory` | pddgpu_memory_stats.c:410-436 | in every interleaving, the node a reader stands on and all it can reach by next is unfreed memory and leads back to the head |
| `RcuList.TraversalIsComplete` | pddgpu_memory_stats.c:410-436 | a finished read section visited, in insertion order and without repeats, every object listed throughout it, and only objects listed at some instant of it |
| `RcuList.ListIsListed` | pddgpu_memory_stats.c:724-744 | a walk from the head finds exactly the listed objects, in insertion order |
| `RcuList.StampsAreHistory` | pddgpu_memory_stats.c:735-744 | the time stamps the theorems speak of are the history: which nodes existed and were listed at any earlier time |
| `RcuList.FreedAtMostOnce` | pddgpu_memory_stats.c:694-699 | an object moves only forward through listed, unlinked, waiting for grace and freed, and reaches kfree once, exactly when it is freed |
| `RcuList.DrainSafeExactly` | pddgpu_memory_stats.c:141-148 | freeing the first entry at once is safe for the open sections exactly if none of them can still reach it |
| `RcuList.DrainUnderReader` | pddgpu_memory_stats.c:141-148 | a concrete run in which that kfree hits the node a reader stands on |
| `RcuList.PlainRemoveSafeExactly` | include/pddgpu_memory_stats.h:183-199 | list_del and kfree of a listed node is safe for the open sections exactly if none stands on it or on unlinked nodes leading straight to it |
| `RcuList.PlainRemoveHitsItsReaders` | include/pddgpu_memory_stats.h:183-199 | with plain helpers alone: exactly if no reader stands on it |
| `RcuList.PlainRemoveUnderReader` | pddgpu_memory_stats.c:281 | a concrete run in which free_end's removal frees the entry the monitor stands on |
| `RcuGrace.WalkMeetsContents` | pddgpu_memory_stats.c:724-744 | the entries a walk from the head meets are the contents, in order |
| `RcuGrace.CreateAppends` | pddgpu_memory_stats.c:702-727 | kzalloc and list_add_tail_rcu append the object to the contents, and use up the memory of the entry |
| `RcuGrace.RemoveTakesFirst` | pddgpu_memory_stats.c:730-745 | a removal takes the first entry for the object out of the contents and leaves the rest in order |
| `RcuGrace.RemoveFinds` | pddgpu_memory_stats.c:730-745 | whatever is on the list can be removed |
| `RcuGrace.DrainTakesFirst` | pddgpu_memory_stats.c:141-148 | the drain takes the first entry out of the contents |
| `RcuGrace.OthersKeepContents` | pddgpu_memory_stats.c:694-745 | no other step changes them |
| `RcuGrace.GraceExactly` | pddgpu_memory_stats.c:694-745 | at any time after call_rcu the callback can run if and only if it has not run yet and every section open at the call has been left; it frees the object |
| `RcuGrace.RemovedCanBeFreed` | pddgpu_memory_stats.c:694-745 | from every reachable state a removed object is freed by finishing the open sections, its call_rcu and its callback |
| `RcuGrace.LoneSection` | pddgpu_memory_stats.c:410-436 | from every reachable state a section that nothing else happens in visits the whole list |
| `Teardown.StepControl` | pddgpu_memory_stats.c:24-60 | every step of monitor, workqueue, RCU writers and fini keeps the control invariant and that of the list |
| `Teardown.MonitorStaysStopped` | pddgpu_memory_stats.c:130-139 | once the cancel has returned, the monitor is never queued or running again and no read section is open |
| `Teardown.ListRefines` | pddgpu_memory_stats.c:123-151 | what monitor, the RCU family of writers and fini do to the list is a run of the RCU list whose drain needs quiescence |
| `Teardown.TeardownIsSafe` | pddgpu_memory_stats.c:123-151 | with the RCU family of writers, from init to the end of fini no reader can reach freed memory and each object is freed at most once |
| `Teardown.TeardownFreesAll` | pddgpu_memory_stats.c:141-151 | if nothing is added after the drain loop, the list stays empty, and every object ever listed has been freed exactly once if and only if no callback is outstanding |
| `Teardown.DoneMeansDrained` | pddgpu_memory_stats.c:123-151 | fini is done only once its drain loop has ended |
| `Monitor.MonitorBooks` | pddgpu_memory_stats.c:24-60 | over every run: the monitor prints a report exactly when it finds the device up and usage over the threshold, checks exactly when it finds the device up, queues itself exactly when it then finds itself enabled and the device up, and runs only when queued |
| `Monitor.RunFlags` | pddgpu_memory_stats.c:130-135 | shutdown is set first and the monitor disabled next, and the work is never queued while it runs |
| `Monitor.RequeuesExactly` | pddgpu_memory_stats.c:52-60 | left to itself, a run of the monitor that ends has queued the next one exactly if it is enabled, the device is up and no cancel is under way |
| `Monitor.RunQueuesNext` | pddgpu_memory_stats.c:24-60 | from every reachable state such a run can go on through its check to queueing the next one |
| `Monitor.TraversesAll` | pddgpu_memory_stats.c:410-436 | a report or check left alone traverses the whole list |
| `Monitor.WritersAreFree` | pddgpu_memory_stats.c:694-745 | every run of writers and callbacks on the list is a run of the system, wherever monitor and fini stand |
| `Monitor.DrainAll` | pddgpu_memory_stats.c:141-148 | the drain loop ends, after as many frees as there are entries |
| `Monitor.FiniCanFinish` | pddgpu_memory_stats.c:123-151 | from every reachable state fini comes to its end by its own steps and those of the monitor |
| `Monitor.LateAddStays` | pddgpu_memory_stats.c:141-151 | an object added after the drain loop stays on the list |
| `LeakRecords.FirstFor` | include/pddgpu_memory_stats.h:190-197 | the index of the first entry for an address, or the length of the list |
| `LeakRecords.ValidRecsFilters` | pddgpu_memory_stats.c:366-371 | the pass keeps exactly the entries whose bo is set and has a reservation object, each as often as before |
| `LeakRecords.AgeMeaning` | pddgpu_memory_stats.c:363 | what the u64 age of an entry means when it was stamped before the pass and when after |
| `LeakRecords.OlderThanExactly` | pddgpu_memory_stats.c:363 | a pass counts exactly the entries allocated more than the age before it, if and only if none is stamped after it short of nearly 2^64 ns |
| `LeakRecords.NewbornIsConfirmed` | pddgpu_memory_stats.c:341-355 | an entry stamped after the pass's clock reading counts as a confirmed leak although it is none |
| `LeakDetector.PassFilters` | pddgpu_memory_stats.c:360-387 | deleting invalid entries while walking leaves exactly the valid entries in their order |
| `LeakDetector.PassCounts` | pddgpu_memory_stats.c:373-386 | the walk raises each counter once per valid entry over 30 s and over 5 min |
| `LeakDetector.PassFrees` | pddgpu_memory_stats.c:366-371 | the walk frees each invalid entry once and no other |
| `LeakDetector.Detector.constructor` | pddgpu_memory_stats.c:78-84 | an empty ring, zero counters, and the current time as last check |
| `LeakDetector.Detector.ListAddTail` | include/pddgpu_memory_stats.h:179 | links an object in as the last of the doubly linked ring; all others stay in order |
| `LeakDetector.Detector.AddLeakObject` | include/pddgpu_memory_stats.h:155-181 | appends a record for the object, or changes nothing without memory |
| `LeakDetector.Detector.ListDel` | include/pddgpu_memory_stats.h:192 | joins the neighbours of the entry and poisons its links; all other entries stay in order |
| `LeakDetector.Detector.RemoveLeakObject` | include/pddgpu_memory_stats.h:183-199 | unlinks and frees the first entry for the object and only that one; nothing is freed twice |
| `LeakDetector.Detector.Visit` | pddgpu_memory_stats.c:360-387 | one iteration of the check: an invalid entry is deleted and freed, a valid one raises the counters |
| `LeakDetector.Detector.CheckAll` | pddgpu_memory_stats.c:360-387 | the loop reaches what the recursive pass describes |
| `LeakDetector.Detector.Check` | pddgpu_memory_stats.c:360-387 | one pass leaves the valid entries in order, and raises confirmed by no more than suspicious |
| `LeakDetector.Detector.LeakCheck` | pddgpu_memory_stats.c:337-391 | when it runs at all; an executed pass leaves the valid entries, frees the others, stamps its time, and raises the counters by the entries of that u64 age, which are those really older if all are stamped before the pass; a skipped one changes nothing |
| `LeakDetector.Detector.LeakReport` | pddgpu_memory_stats.c:442-474 | number and total size, modulo 2^64, of the valid entries |
| `LeakDetector.Detector.Drain` | pddgpu_memory_stats.c:141-148 | empties the list and frees every entry once |
| `LeakIndex.ListIsIndex` | include/pddgpu_memory_stats.h:155-199 | at every point of every run the list is the tracked live objects in creation order |
| `LeakIndex.RemoveFromIndex` | include/pddgpu_memory_stats.h:183-199 | removal deletes exactly the entry of the dying object and keeps the others in order |
| `LeakIndex.AddressesStayUnique` | pddgpu_object.c:234-238 | no two entries share an address under address reuse, and an address has an entry exactly if a tracked live object has it |
| `LeakIndex.ReportIsFold` | pddgpu_memory_stats.c:458-465 | the report's count and size are those of the live, tracked, valid objects |
| `LeakIndex.ListIsTheLiveObjects` | pddgpu_memory_stats.c:213-214 | if all tracking allocations succeed and every check sees the live objects as valid, the list is every live object, once each, in creation order |
| `LeakIndex.AddressIsReused` | pddgpu_object.c:41-239 | from every reachable state an object can be created at any free address, tracked or not, destroyed, and another one created there, which then has the only entry |
| `LeakIndex.DroppedForGood` | pddgpu_memory_stats.c:366-371 | a check drops exactly the entries that are not valid then, and what it drops is never listed again, though the object may live on |
| `LeakTotals.CountersMeanVisits` | pddgpu_memory_stats.c:413-435 | each counter is the number of visits of entries older than 30 s and 5 min, less the confirmations still pending |
| `LeakTotals.VisitsArePicked` | pddgpu_memory_stats.c:413-435 | the visits are those of the entries the checkers were given, each once and by its age |
| `LeakTotals.ConfirmedWithinSuspicious` | pddgpu_memory_stats.c:413-435 | confirmed never exceeds suspicious at any instant, for any number of concurrent checkers |
| `LeakTotals.ReportExactly` | pddgpu_memory_stats.c:550-551 | `get_info`, which may run beside the monitor, reads the two counters in the same order as the report does (lines 488-489): with at most n 30-second tests between its reads a report is never inverted, if and only if suspicious exceeds confirmed and pending by at least n |
| `LeakTotals.ReportMayInvert` | pddgpu_memory_stats.c:550-551 | from the start a single visit between the reads can invert a report |
| `CheckRate.PassesAreApart` | pddgpu_memory_stats.c:350-352 | any two executed checks of a single checker are at least the interval apart |
| `CheckRate.RateLimit` | pddgpu_memory_stats.c:396-438 | a window of length T holds at most T / interval + 1 executed checks |
| `CheckRate.LimitExactly` | pddgpu_memory_stats.c:405-438 | after a run without overlap, no check can start too early if and only if none is under way |
| `CheckRate.NextCheckExactly` | pddgpu_memory_stats.c:405-438 | with none under way, a check can start exactly when the interval has passed since the last executed one |
| `CheckRate.TwoCheckersPassTogether` | pddgpu_memory_stats.c:405-438 | two checkers can both execute at the same time |
| `MemoryStats.BatchRefinesCalls` | pddgpu_memory_stats.c:748-789 | one batch summed field by field reaches the counters that the calls would have reached one by one |
| `MemoryStats.CountersAreSums` | pddgpu_memory_stats.c:668-691 | after any calls of update_usage each byte counter has risen by the bytes of its domain and direction, and each operation counter by the calls of its direction for VRAM and GTT |
| `MemoryStats.EndsAreSums` | pddgpu_memory_stats.c:178-285 | the same for alloc_end and free_end, which count their calls in every domain |
| `MemoryStats.OrderIsIrrelevant` | pddgpu_memory_stats.c:668-691 | any two orders of the same calls reach the same counters |
| `MemoryStats.MemoryStats.UpdateUsage` | pddgpu_memory_stats.c:668-691 | adds the bytes to one counter of the domain and one to the operation count; nothing outside VRAM and GTT or during shutdown |
| `MemoryStats.MemoryStats.AllocEnd` | pddgpu_memory_stats.c:178-218 | a successful allocation adds its bytes to its domain and counts in any domain; a failed one changes nothing |
| `MemoryStats.MemoryStats.FreeEnd` | pddgpu_memory_stats.c:245-285 | the same for the freed counters |
| `MemoryStats.MemoryStats.BatchUpdate` | pddgpu_memory_stats.c:748-789 | adds every field of the batch, or nothing during shutdown |
| `BatchOrder.NeverNegative` | pddgpu_memory_stats.c:766-773 | from an admissible state, freed stays within allocated at every instant of every interleaving of updates |
| `BatchOrder.InadmissibleGoesNegative` | pddgpu_memory_stats.c:766-773 | from any other state some schedule of the updates in flight drives usage below zero |
| `BatchOrder.FreedFirstExactly` | pddgpu_memory_stats.c:766-773 | with the freed bytes first, usage stays non-negative wherever the batch may start exactly if one of its amounts is zero |
| `BatchOrder.UpdateCompletes` | pddgpu_memory_stats.c:766-773 | an update can start wherever its frees are covered, and adds exactly its two amounts |
| `Snapshot.DoubleCollect` | pddgpu_memory_stats.c:522-531 | the values it returns were read at instants t0, t and t1 with equal allocated counters, in at most n + 1 rounds for n interleaved non-zero allocations |
| `Snapshot.SnapshotExactly` | pddgpu_memory_stats.c:522-531 | a round with equal first and last reads is a snapshot for every timing of its middle read, if and only if fewer than 2^64 bytes are allocated in it |
| `Snapshot.SnapshotIsAtomic` | pddgpu_memory_stats.c:522-531 | short of 2^64 bytes in one round, the pair is what both counters held at the read of freed |
| `Snapshot.UsedIsExact` | pddgpu_memory_stats.c:543-546 | then the reported usage is the true one and never negative |
| `Snapshot.WrapAroundFoolsTheLoop` | pddgpu_memory_stats.c:522-531 | histories in which the loop accepts a pair that was held at no instant of the round |
| `Snapshot.GetInfo` | pddgpu_memory_stats.c:510-557 | the rounds behind the two figures, VRAM's before GTT's, each figure being the usage at its round's middle read if fewer than 2^64 bytes are allocated in that round |
| `Snapshot.MonitorSum` | pddgpu_memory_stats.c:38-41 | the u64 sum the monitor uses is VRAM at one middle read plus GTT at a later one |
| `Snapshot.ReportedTotalMeaning` | pddgpu_memory_stats.c:41-43 | for every history, it is the total at either read if the other domain is quiet in between, and is off by no more than GTT acquires or frees in between |
| `Snapshot.ReportedTotalAtTheEnds` | pddgpu_memory_stats.c:41-43 | with one-way traffic in a domain, quiet is also necessary |
| `Snapshot.ReportedTotalExactly` | pddgpu_memory_stats.c:41-43 | while bytes move between the domains, the sum was in use at some instant exactly if all GTT traffic comes before all VRAM traffic |
| `Snapshot.DomainsAreNotCollectedTogether` | pddgpu_memory_stats.c:41-43 | a history, with the rounds of both loops, whose sum is twice what was in use at any instant |
| `Conservation.DomainResidue` | pddgpu_memory_stats.c:543-546 | a domain's usage is its live objects by birth, the manager's bytes, and the residue of objects that died elsewhere than they were born |
| `Conservation.ConservedExactly` | pddgpu_memory_stats.c:202-206 | the sum of both usages is the live sizes plus the managers' bytes, modulo 2^64, exactly if the bytes created in system memory in the run equal those destroyed without a resource or last moved to system memory |
| `Conservation.Conserved` | pddgpu_object.c:41-239 | the sum is conserved in every run whose objects are born in VRAM or GTT and die with a resource there |
| `Conservation.OneDomainWraps` | pddgpu_memory_stats.c:269-273 | created in VRAM, moved to GTT and destroyed, with all reports of both managers: nothing is left and the managers' reports cancel out, yet GTT usage reads 2^64 minus the size |
| `Conservation.UnattachedDeathStays` | pddgpu_memory_stats.c:269-277 | created in VRAM and destroyed without a resource: VRAM usage keeps the size |
| `Conservation.AnyLife` | pddgpu_object.c:41-239 | an object may be born, moved and die anywhere, and is outside by its birth domain and its last one |
| `Conservation.ManagerBook` | pddgpu_memory_stats.c:668-691 | a domain's book holds the net of the managers' reports about it |
| `Usage.UsageExactly` | pddgpu_memory_stats.c:543-546 | for every run and any state of the managers' books whose reports it contains: both usages add up to live objects, VRAM blocks, VRAM drift, what VRAM recoveries left behind and GTT resources, modulo 2^64, exactly if births and deaths outside both domains balance |
| `VramBlocks.IsContiguous` | pddgpu_vram_mgr.c:54-73 | true exactly if the list is non-empty and each block starts at the first start plus the sizes before it |
| `VramBlocks.ContiguousIsOneExtent` | pddgpu_vram_mgr.c:54-73 | then the blocks do not overlap and cover exactly one extent of the total size |
| `VramBlocks.ApartFit` | pddgpu_vram_mgr.h:76-79 | blocks that do not overlap total at most the VRAM they lie in |
| `VramBlocks.BlocksSize` | pddgpu_vram_mgr.c:75-84 | the sum of the sizes, without overflow |
| `VramBlocks.Compatible` | pddgpu_vram_mgr.c:346-364 | true exactly if the manager is ready and the blocks hold the size |
| `VramBlocks.Intersects` | pddgpu_vram_mgr.c:367-393 | true exactly if the manager is ready and some block crosses the window; nothing overflows |
| `VramBlocks.IntersectsMeansCommonByte` | pddgpu_vram_mgr.c:381-390 | for a non-empty window that is exactly sharing a byte |
| `VramBlocks.IntersectsExactly` | pddgpu_vram_mgr.c:381-390 | the answer is sharing a byte, if and only if the window is not empty or no block straddles it |
| `VramBlocks.NoLimitNeverIntersects` | pddgpu_vram_mgr.c:381-388 | with lpfn 0 the answer is no for every resource, right about the window alloc reads from the place (lines 135-139) exactly if no block reaches beyond fpfn |
| `VramBlocks.LimitIsTheWindow` | pddgpu_vram_mgr.c:135-137 | with a limit, alloc's clamping to the VRAM size makes no difference to sharing a byte |
| `VramBlocks.NoLimitMissesEverything` | pddgpu_vram_mgr.c:381-388 | the smallest such input |
| `VramLedger.DriftExactly` | pddgpu_vram_mgr.c:192-233 | live bytes never exceed used, and equal it exactly if every accounted size is a multiple of the minimum block |
| `VramLedger.BlocksHoldObjectExactly` | pddgpu_vram_mgr.c:162-167 | the blocks of a resource hold the object exactly if its rounded size is a multiple of the minimum block |
| `VramLedger.MinBlockDoubles` | pddgpu_vram_mgr.c:165-167 | the minimum block is one page for order 0 and doubles with each order |
| `VramLedger.MaxBytesExactly` | pddgpu_vram_mgr.c:141-146 | the size check bounds requests by the VRAM size exactly for kernel objects and VRAM of at least 256 MB, and then admits exactly what fits beside the reservation |
| `VramLedger.SmallVramAdmitsMore` | pddgpu_vram_mgr.c:141-146 | with 128 MB of VRAM it admits 1 GB |
| `VramLedger.RoomForOneMore` | pddgpu_vram_mgr.c:182-192 | a request that could be allocated is smaller than VRAM and one minimum block together |
| `VramLedger.OrderZeroIsExact` | pddgpu_vram_mgr.c:162-167 | with order 0 the ledger never drifts |
| `VramLedger.OrderZeroNeverWraps` | pddgpu_vram_mgr.c:229-230 | with order 0 used is the bytes in live blocks whatever the sizes of the device |
| `VramLedger.AddKeepsBalance` | pddgpu_vram_mgr.c:192-233 | accounting the full size shifts the drift by size mod minimum block |
| `VramLedger.RemoveKeepsBalance` | pddgpu_vram_mgr.c:283-301 | freeing takes off the bytes in blocks, never below zero, and leaves the drift alone |
| `VramLedger.BooksAdd` | pddgpu_vram_mgr.c:229-233 | accounting a request keeps the manager's invariant: ownership, counters, and that the net reported to the statistics is blocks, drift and what recoveries left behind |
| `VramLedger.BooksRemove` | pddgpu_vram_mgr.c:296-304 | so does freeing any live resource |
| `VramLedger.BooksForgotten` | pddgpu_vram_mgr.c:490-493 | a fresh allocator keeps it exactly if no resource is live |
| `VramLedger.BooksReset` | pddgpu_vram_mgr.c:501-503 | resetting the counters establishes it exactly if no resource is live and no block handed out |
| `VramLedger.RecoverRaceExactly` | pddgpu_vram_mgr.c:490-503 | on a roomy device, with nothing live: some alloc between the halves of a recover breaks the books exactly if the manager is ready, a minimum block fits into visible VRAM beside used, and VRAM holds one |
| `VramLedger.OwnedOnce` | pddgpu_vram_mgr.c:192-226 | no block is in two live resources, or twice in one |
| `VramLedger.LiveBlocksFit` | pddgpu_vram_mgr.c:192-226 | the blocks of all live resources together do not overlap and fit into VRAM |
| `VramManager.VramManager.constructor` | pddgpu_vram_mgr.c:405-445 | zero counters for any sizes, and ready exactly if the allocator could be initialized |
| `VramManager.VramManager.OneBlock` | pddgpu_vram_mgr.c:198-223 | repaired form: one more fresh block, or all blocks of this attempt given back |
| `VramManager.VramManager.AllocBlocks` | pddgpu_vram_mgr.c:192-226 | repaired form: as many minimum blocks as fit into the size if every request is granted; none and an unchanged allocator if and only if the last request was refused |
| `VramManager.VramManager.TryAlloc` | pddgpu_vram_mgr.c:170-235 | repaired form: how a locked section ends, and that only the accounted outcome changes anything; on a roomy device the counters are exact and stay within visible VRAM |
| `VramManager.VramManager.Retry` | pddgpu_vram_mgr.c:169-256 | repaired form: at most three locked sections with the full size under interference, each retried only after a refusal, and the result that the last one decides |
| `VramManager.VramManager.Alloc` | pddgpu_vram_mgr.c:106-256 | repaired form, for every object and VRAM size: success is one resource of the size's minimum blocks, accounted once; failure holds nothing, and accounts nothing unless the size is below the minimum block; when each error arises; and what the answers of drm_buddy in its sections decide |
| `VramHistory.ConclusionMeaning` | pddgpu_vram_mgr.c:169-256 | so a call for at least one minimum block succeeds exactly if some section had all requests granted, and, with none turned away at its start, fails exactly if three sections ended in a refusal |
| `VramManager.VramManager.FreeLocked` | pddgpu_vram_mgr.c:283-306 | takes off exactly the blocks of one resource and their bytes, or changes nothing if not ready |
| `VramManager.VramManager.Free` | pddgpu_vram_mgr.c:259-309 | under interference the resource is gone, or it is untouched and the manager or device was not ready |
| `VramManager.VramManager.Interfere` | pddgpu_vram_mgr.c:106-309 | whatever other threads do keeps the ledger, the bound and the ownership, and leaves this call's resources alone, as long as no recover is in flight |
| `VramManager.VramManager.RecoverInit` | pddgpu_vram_mgr.c:481-499 | the half under the mutex: a fresh allocator, with the ready bit as it was, or the error bit; the invariant survives a success exactly if no resource is live |
| `VramManager.VramManager.RecoverReset` | pddgpu_vram_mgr.c:501-506 | the half without it: zero counters and a ready manager; the invariant holds afterwards exactly if no resource is live and no block handed out |
| `VramManager.VramManager.Recover` | pddgpu_vram_mgr.c:474-511 | both halves with allocs, frees and fini in between: the invariant survives a success exactly if no resource is live at the first and none at the second, and that is so if none is live at the start and no alloc is in flight or none can get a block |
| `VramManager.VramManager.RaceWithRecover` | pddgpu_vram_mgr.c:490-503 | with nothing live, an alloc between the halves that gets blocks stays live and owns them while both counters are zero |
| `VramManager.VramManager.FreeAfterRace` | pddgpu_vram_mgr.c:299-301 | freeing it leaves both counters at 2^64 minus its size |
| `VramRetry.LastBlockGranted` | pddgpu_vram_mgr.c:192-226 | if the first request for the last block is granted, the code as written returns all blocks and touches nothing freed |
| `VramRetry.LastBlockRefused` | pddgpu_vram_mgr.c:208-219 | if it is refused, the second attempt uses the freed vres |
| `VramRetry.AfterTheRefusal` | pddgpu_vram_mgr.c:208-226 | what comes of it: the resource is returned with a single block if the second or third attempt gets one, and -ENOMEM if neither does |
| `VramRetry.TooSmall` | pddgpu_vram_mgr.c:192-248 | the loop ends at once with an error exactly for sizes below the minimum block |
| `VramRetry.NeverLeaves` | pddgpu_vram_mgr.c:201-206 | if it never comes, the loop is never left |
| `VramRetry.SafeExactly` | pddgpu_vram_mgr.c:169-226 | for every behaviour of allocator and other threads, the code as written returns without using freed memory exactly if that request comes and is granted |
| `VramRetry.SafeExactlyWithEnoughBlocks` | pddgpu_vram_mgr.c:169-226 | with nobody giving blocks back, exactly if the allocator has every minimum block of the size |
| `GttManager.PagesCoverExactly` | pddgpu_gtt_mgr.c:62 | the 32-bit page count covers the object exactly up to 2^32 - 1 pages, where it is the least that does; beyond, it is that count modulo 2^32 |
| `GttManager.DisjointExactly` | pddgpu_gtt_mgr.c:116-118 | non-empty nodes are disjoint exactly if they share no page |
| `GttManager.AlignedExactly` | pddgpu_gtt_mgr.c:116-118 | a start is aligned exactly if it is a multiple of the alignment, or there is no alignment |
| `GttManager.CompatibleExactly` | pddgpu_gtt_mgr.c:235-249 | the answer is right exactly for sizes whose rounding up does not overflow |
| `GttManager.IntersectsAgrees` | pddgpu_gtt_mgr.c:252-273 | with 32-bit page numbers it is the VRAM test on the node's byte range, without overflow |
| `GttManager.IntersectsMeansCommonPage` | pddgpu_gtt_mgr.c:252-273 | for a non-empty node and window it is exactly sharing a page |
| `GttManager.NoLimitNeverIntersects` | pddgpu_gtt_mgr.c:266-272 | with lpfn 0 the answer is no for every node, right for pages from fpfn on exactly if the node ends before them |
| `GttManager.UnplacedNodeIntersects` | pddgpu_gtt_mgr.c:137-140 | a node without an address is tested as starting at page 0: the answer is no exactly if the place has no limit or starts beyond its size |
| `GttManager.ReportsAreResources` | pddgpu_gtt_mgr.c:145-196 | the net of all reports of the manager is the total size of the resources TTM holds |
| `GttManager.GttManager.constructor` | pddgpu_gtt_mgr.c:285-318 | an empty allocator of gtt_size in pages, ready exactly if it could be initialized |
| `GttManager.GttManager.TryInsert` | pddgpu_gtt_mgr.c:106-119 | the locked section: what drm_mm grants is kept, an aligned node inside the window and disjoint from all others; otherwise an unchanged allocator |
| `GttManager.GttManager.TryRemove` | pddgpu_gtt_mgr.c:181-193 | removes exactly this node, or nothing if it was never inserted or the manager is not ready |
| `GttManager.GttManager.Finish` | pddgpu_gtt_mgr.c:195-199 | reports the bytes freed, and frees the node once |
| `GttManager.GttManager.Retry` | pddgpu_gtt_mgr.c:102-133 | at most three inserts under interference; all refused, or the last one granted and its node in |
| `GttManager.GttManager.Alloc` | pddgpu_gtt_mgr.c:55-158 | success: one aligned node in the window, or none for lpfn 0, of the least number of pages that holds the object (up to 2^32 - 1), and the size reported once; failure: no node, no report, and the structure freed exactly once; with a limit it succeeds exactly if drm_mm grants one of at most three inserts; when each error arises, EINVAL for size 0 |
| `GttManager.GttManager.Free` | pddgpu_gtt_mgr.c:161-202 | node, resource and structure are gone and the reports cancel out, or everything is untouched |
| `GttManager.GttManager.Interfere` | pddgpu_gtt_mgr.c:102-202 | whatever other threads do keeps the nodes disjoint, the structures unfreed while in use and the reports balanced, and leaves this node alone |
| `GttShutdown.StepInv` | pddgpu_gtt_mgr.c:36-40 | every single read, store and lock operation keeps the invariant: a thread that saw READY under the lock is ahead of the takedown |
| `GttShutdown.TakedownIsFinal` | pddgpu_gtt_mgr.c:321-339 | in every interleaving no insert or remove follows the takedown, unless recover stores READY after fini stored SHUTDOWN |
| `GttShutdown.OneAtATime` | pddgpu_gtt_mgr.c:106-122 | one thread at a time is inside the lock, fini included |
| `GttShutdown.TakedownIsFinalExactly` | pddgpu_gtt_mgr.c:321-375 | after any run, no continuation in which recover stores nothing uses the allocator after its takedown, if and only if recover has not stored READY in the run after fini stored SHUTDOWN, or no use follows the takedown so far and no thread past the device test (lines 68, 170) can still come to the allocator |
| `GttShutdown.LateRecoverUsesTakenDown` | pddgpu_gtt_mgr.c:342-375 | a run in which a thread and a recover pass their device tests before the device is flagged, recover stores READY over fini's SHUTDOWN, and the thread uses the allocator after its takedown |
| `GttShutdown.QuietFlagIsFinal` | pddgpu_device.c:115-118 | the takedown is final whatever is called afterwards, if no recover is past its test when the device is flagged |
| `GttShutdown.AllocatorIsReachable` | pddgpu_gtt_mgr.c:102-122 | on a device that stays up any alloc or free can come to the allocator, whoever holds the lock |
| `GttShutdown.ThreeTries` | pddgpu_gtt_mgr.c:102-133 | an alloc whose inserts all fail makes three of them |
| `GttShutdown.AtMostThreeInserts` | pddgpu_gtt_mgr.c:102-193 | in every run a thread comes to the allocator at most three times per alloc and once per free |
| `GttShutdown.TwoReadsAreOneTest` | pddgpu_gtt_mgr.c:36-40 | without a store in between, the two reads of is_ready amount to one test of the word |

## Left out

- VramManager.VramManager.Alloc: the retry path is the repaired form described above; the code as written is `VramRetry`, from the block loop of the first attempt on.
- VramManager.VramManager.Retry: repaired form, as for Alloc.
- VramManager.VramManager.TryAlloc: repaired form, as for Alloc.
- VramManager.VramManager.AllocBlocks: repaired form, as for Alloc: no `continue`, and blocks given back under the mutex.
- VramManager.VramManager.OneBlock: repaired form, as for Alloc.
- VramManager.VramManager.BuddyAlloc: says nothing about the placement window, because the code shifts fpfn and lpfn twice (pddgpu_vram_mgr.c:135-139, 194-195).
- VramBlocks.NoLimitNeverIntersects: the window is the one alloc reads from the place; that it shifts the ends once more (pddgpu_vram_mgr.c:194-195) is not modelled.
- VramManager.VramManager.Free: the vres structure itself, which the code never frees, is not modelled.
- VramManager.VramManager.Recover: with a resource live at its start, what other threads do between its halves is not modelled, since the books are wrong from the first half on.
- VramManager.VramManager.Interfere: assumes that no recover is in flight; so do all contracts of `Alloc`, `Retry` and `Free`.
- VramManager.VramManager.Valid: claims exact and bounded counters only on a roomy device, one whose visible size, VRAM size and minimum block add up to at most 2^64; on any other they are right modulo 2^64.
- VramManager.VramManager.constructor: default_page_size is at most 30, since it shifts an int.
- GttManager.GttManager.Alloc: TTM's usage and the outcomes of kzalloc and drm_mm_init are parameters; the reports made to the statistics are recorded as calls, also when shutdown makes them no-ops.
- GttShutdown.LateRecoverUsesTakenDown: the re-initialization of drm_mm inside recover is not a step, and neither are a failing init and the second takedown by ttm_fini.
- Teardown.StepControl: the monitor is the only reader, as in the driver; the writers are the RCU family, which nothing in the driver calls.
- Monitor.TraversesAll: a report or check may also end without a read section, as the code does when the device is down or the check comes too early; which of them happens is left open.
- LeakTotals.ReportExactly: counts without wrap-around.
- RcuList.StepInv: the RCU operations and the plain helpers never run in one transition system; what a plain removal does to RCU readers is one step from any state with safe readers.
- Usage.UsageExactly: the run and the managers' books are tied by the sums of the reports, not call by call.
- Conservation.Conserved: bytes are counted both by the managers and by alloc_end and free_end, as in the code.
- MemoryStats.MemoryStats.AllocEnd: the duration counters of the performance statistics are left out.
- LeakDetector.Detector.LeakReport: the count is unbounded, where the code uses an int.
- LeakRecords.AgeMeaning: whether the bo of an entry has a reservation object is an input of each pass; the dereference of bo under RCU is not protected in the code.
- The check interval is a parameter; its default product (pddgpu_memory_stats.c:84) overflows an int.
- pddgpu_memory_stats_reset: it breaks the ledgers.
- leak_check_safe and leak_report_safe (pddgpu_memory_stats.c:792-864): they take a lock they already hold.
- The manager definitions in pddgpu_object.c:334-442, which duplicate those in the manager files.
- Internals of drm_buddy, drm_mm, TTM, RCU and workqueues: contracts only.
- Weak memory order: atomics are sequentially consistent here.
- Placement, eviction, size validation, PCI, registers, ioctls, mmap, logging and average times.
