# 2kOS kernel: a Dafny verification

A model of the memory, scheduling and storage cores of the 2kOS kernel, and proofs of what they promise. Each
module follows one file of the kernel; methods change the same fields in the same places, and every method is
proved against a specification about which the main results are then stated.

| module | kernel file | main results |
|---|---|---|
| `KernelList` | `Kernel/Include/List.h` | the pointer ring is a list |
| `PageCache`, `PageCacheRuns`, `LruPolicy`, `Disks` | `Kernel/Source/Mem/PageCache.c` | the cache is transparent over whole runs; it holds the most recently used pages |
| `RunQueue`, `Accounting`, `Fairness`, `Balance`, `LoadBooks`, `LockOrder` | `Kernel/Source/Scheduler.c` | exact weighted-time conservation, a fairness bound over whole runs, conservation under stealing and migration, exactly when the loads stay right beside a priority change, all work under the right locks save one race, deadlock freedom and exactly when it is lost |
| `PageTree`, `Teardown`, `Paging`, `UserCopy` | `Kernel/Source/Mem/Paging.c` | the four-level tree refines a flat map; address spaces conserve frames exactly if nothing is mapped twice; user copies round-trip |
| `HeapBlocks`, `KernelHeap`, `HeapRuns` | `Kernel/Source/Mem/Allocator.c` | the blocks share out the regions; live payloads are disjoint and keep their bytes over any run; exactly when regions may lie apart |
| `ClusterChains`, `Fat32Clusters`, `ExfatFiles`, `ExfatRuns` | `Kernel/Source/Fs/Fat32.c`, `Kernel/Source/Fs/Exfat.c` | all-or-nothing allocation, chains stay acyclic and disjoint, read after write, a volume refines flat files and a count of free clusters over any run |
| `ElfFormat`, `ElfLoader` | `Kernel/Source/Elf.c` | the loaded image is the simple one, both loaders agree and differ exactly where stated, the argument block is intact |
| `Calendar` | `Kernel/Source/Time/BcdToUnix.c` | both conversions undo each other and follow the calendar order |

`Lists`, `Arith` and `Bytes` hold shared vocabulary.

What the outside world may do appears as a nondeterministic choice or as a parameter: memory for a cache page, a heap
region or a buffer may be refused, a disk operation may fail, and a failed write may leave anything in its own sectors.
Each such choice is counted, so the contracts say when an operation fails and not only that it may; a request for a
page frame is refused exactly when no frame is free. An operation of `RunQueue` and `Balance` is one
step even where the code releases a lock in between; `LoadBooks` takes a change of priority apart into its steps, and
`LockOrder` models the scheduler's locks on their own.

Where the code does something its users would not expect, the contracts say what it does:

- A page cache transfer of 2^32 bytes or more never finishes while its turns take the page path
  (`PageCache.TransferEndsIffShort`).
- Eviction drops a dirty page whose write fails, so its bytes are lost (`PageCache.PCache.EvictOne`); a failed write of
  a flush or of the writeback thread loses nothing (`PageCacheRuns.Run`).
- The fairness bound needs to know how far ahead the running task starts; right after a pick that is 0 (`Fairness.Run`).
- A charge wraps around when 1024 times the ticks plus the remainder reaches 2^64, and exactly then weighted time is
  lost (`Accounting.WeightedTimeIsConserved`).
- The idle task starts at the one vruntime that is never picked, but its first charge wraps it around; from then on it is
  picked before every READY task of greater vruntime (`RunQueue.PerCpu.FirstTickOfIdle`).
- A steal never takes a task of vruntime 0, and a task of vruntime 2^64 - 1 is never picked
  (`Balance.Machine.FindSteal`, `RunQueue.PerCpu.RqPickMinVruntimeLocked`).
- `TaskSetNice` changes the load of a queue under the queue's lock and the weight after releasing it. If the task
  is queued or dequeued in between, the load may not be the sum of the weights any more (`LoadBooks.LoadsAreRightIff`,
  `LoadBooks.DequeueInWindow`).
- A tick charges its task under `GSchedLock` alone, while a wakeup or a steal uses the vruntimes of that CPU under the
  lock of its queue, which is the one that `PerCpu.h` says protects `MinVruntime`; nothing orders the two
  (`LockOrder.ClocksRace`). The queues themselves are free of races (`LockOrder.NoRaceButClocks`).
- When a CPU steals from one of greater index, `UnlockTwoPrqs` gives it its interrupts back while it still holds the
  second lock, and leaves them off in the end (`LockOrder.PathsBehave`). A tick in that window can deadlock
  (`LockOrder.StealUpDeadlocks`); without such steals nothing can (`LockOrder.DeadlockFreeIff`).
- A user page mapped inside a kernel-only 2 MiB mapping stays closed to the user: the split keeps the USER bit of
  the old entry (`Paging.Memory.GetNextLevel`).
- Splitting a 2 MiB mapping makes all its small pages writable, whatever the mapping was (`Paging.Memory.FillSplit`).
- Mapping over a page that is mapped loses its frame: it is in no address space and with no allocator any more
  (`Paging.Memory.MapAnonUser`, `Paging.Memory.Live`).
- A heap region that does not start at `HeapEndVirt` is served like any other until a free merges it with a list
  neighbour that is no neighbour in memory (`KernelHeap.Heap.Free`). The merged block claims bytes that are not the
  heap's, and a later split can overwrite the header of an allocated block (`HeapRuns.MergeOverGapLosesBlock`).
- Freeing a cyclic FAT32 chain counts one cluster too many (`Fat32Clusters.CountIsRightIffTrail`), and a failed
  `Fat32AllocClusters` leaves the number of a freed cluster in its out-parameter (`Fat32Clusters.Fat32.AllocClusters`).
- An exFAT write that runs out of clusters leaves the file all clusters that were free (`ExfatRuns.Run`), and the file
  size follows a write only if the directory entry could be updated. A write from behind the end of the chain makes the
  code write in front of its array of cluster numbers if a cluster is free (`ExfatFiles.Volume.Write`).
- `ElfLoadFromFile` accepts files that `ElfLoad` does not, segments that reach into the stack among them
  (`ElfFormat.JudgedAlike`, `ElfFormat.JudgedDifferently`); the stack then replaces their pages, whose frames are lost
  (`ElfLoader.LoadFromFile`). A segment whose end passes 2^64 is accepted by it and maps nothing.
- Both loaders fail, with nothing wrong with the file, if the argument block is longer than the stack, or if the page
  it goes to is physical page 0, which the copy takes for an unmapped one (`ElfLoader.SetupStack`).
- `ElfLoad` adds offsets modulo 2^64 and accepts files whose segments or headers lie in front of them in memory
  (`ElfFormat.JudgedDifferentlyByWrap`).

## Model

| member | source | states |
|---|---|---|
| KernelList.ListAdd | Kernel/Include/List.h:16-21 | a list of members s becomes [node] + s, all links of the ring consistent both ways |
| KernelList.ListAddTail | Kernel/Include/List.h:23-28 | a list of members s becomes s + [node] |
| KernelList.ListDel | Kernel/Include/List.h:30-35 | exactly that member goes, the others keep their order, its own links become null |
| KernelList.ListEmpty | Kernel/Include/List.h:37-39 | true exactly for the list without members |
| KernelList.ListInit | Kernel/Include/List.h:11-14 | a self-linked head is the empty list |
| KernelList.WalkBackward | Kernel/Include/List.h:44-49 | following Prev from the head visits every member once, last to first, and comes back to the head |
| PageCache.FiledLess | Kernel/Source/Mem/PageCache.c:113-126 | taking a page out of its hash chain keeps every other page in the bucket of its own key, once, keys unique |
| PageCache.FiledMore | Kernel/Source/Mem/PageCache.c:207-216 | a page with a new key enters the index without disturbing it |
| PageCache.BucketLengthsSum | Kernel/Source/Mem/PageCache.c:84-157 | the lengths of the 4096 buckets add up to the cached page count |
| PageCache.PCache.FindVictim | Kernel/Source/Mem/PageCache.c:84-100 | the victim is the least recently touched page that is neither pinned nor being written; none only if every page is busy |
| PageCache.PCache.Retire | Kernel/Source/Mem/PageCache.c:113-132 | a page leaves all three lists with the counters right; if dirty, its bytes are on its disk unless the write failed, and no other byte of any disk changes |
| PageCache.PCache.EvictOne | Kernel/Source/Mem/PageCache.c:102-140 | evicts exactly the victim; what clients see stays the same everywhere if no write fails, and outside the victim's bytes even if one does |
| PageCache.PCache.EnsureRoom | Kernel/Source/Mem/PageCache.c:142-157 | makes room below MaxPages whenever no page is in use and the cache was within its limit; refuses only if every page left is busy, or if nothing may be evicted at all; drops only the oldest pages and never changes what clients see unless a write fails |
| PageCache.PCache.Lookup | Kernel/Source/Mem/PageCache.c:163-184 | finds the page of a key exactly when one is cached |
| PageCache.PCache.LruTouch | Kernel/Source/Mem/PageCache.c:37-41 | a touched page becomes the newest, the others keep their order |
| PageCache.PCache.Load | Kernel/Source/Mem/PageCache.c:186-229 | a loaded page shows the bytes the disk showed and becomes the newest; a failure leaves the cache as it was |
| PageCache.PCache.GetPage | Kernel/Source/Mem/PageCache.c:163-230 | returns the one page of the key, pinned; without a failed transfer it finds no page only if there is no room; no client-visible byte changes; the LRU list is [page] before the pages that stayed |
| PageCache.PCache.ReadDirect | Kernel/Source/Mem/PageCache.c:266-273 | the bypass returns what the disk holds, whole sectors of it, or fails once, and changes nothing |
| PageCache.PCache.WriteDirect | Kernel/Source/Mem/PageCache.c:317-327 | the bypass puts whole sectors on the disk, or fails once |
| PageCache.PCache.ReadTurn | Kernel/Source/Mem/PageCache.c:259-287 | one turn returns the visible bytes if no load, write or allocation fails; otherwise it leaves the turn to the direct path, which returns the bytes of the disk; it fails exactly when a direct transfer does |
| PageCache.PCache.PCacheRead | Kernel/Source/Mem/PageCache.c:243-292 | if nothing fails, returns exactly the visible bytes of the range and changes nothing visible; fails exactly when a direct transfer does; without a running cache it reads the disk; keeps the invariants in every case |
| PageCache.PCache.WriteTurn | Kernel/Source/Mem/PageCache.c:310-345 | one turn changes exactly its own visible bytes if no load, write or allocation fails; otherwise its bytes are in the cache or on the disk; it fails exactly when a direct transfer does |
| PageCache.PCache.PCacheWrite | Kernel/Source/Mem/PageCache.c:294-351 | if nothing fails, exactly the addressed bytes of the visible contents become the buffer; fails exactly when a direct transfer does; without a running cache the bytes are on the disk |
| PageCache.PCache.CleanPage | Kernel/Source/Mem/PageCache.c:371-399 | one write-out changes nothing visible; the page is clean exactly if the write succeeded, and a failed write costs nothing but a count |
| PageCache.PCache.CleanPass | Kernel/Source/Mem/PageCache.c:357-407 | one walk over the dirty list tries the idle chosen pages from the front until the batch is full: pages cleaned and failed writes add up to all of them if it is not, and nothing else changes |
| PageCache.PCache.PCacheFlush | Kernel/Source/Mem/PageCache.c:357-416 | pages written plus idle dirty pages left are the idle dirty pages before; each one left stands for two failed writes, so without a failure none is; nothing visible changed |
| PageCache.PCache.WritebackRound | Kernel/Source/Mem/PageCache.c:487-528 | without a failed write one background round cleans exactly the smaller of 64 and the number of idle dirty pages, those at the front of the dirty list; with failures, pages cleaned and failed writes add up to all idle dirty pages unless the batch is full; nothing visible changes |
| PageCache.PCache.CleanCacheIsOnDisk | Kernel/Source/Mem/PageCache.c:357-407 | when a disk has no dirty page left, the disk alone holds what clients see |
| PageCache.PCache.PCacheInvalidate | Kernel/Source/Mem/PageCache.c:422-455 | exactly the idle pages of the range go unwritten and their disk bytes show through, and no idle page is left in it; elsewhere nothing visible changes, and the cache stays coherent, idle and within its limit |
| PageCache.PCache.PCacheInvalidateDisk | Kernel/Source/Mem/PageCache.c:457-481 | the same for all idle pages of one disk |
| PageCache.PCache.PCacheSetSize | Kernel/Source/Mem/PageCache.c:589-599 | shrinks to the limit by dropping the oldest pages, or until every page left is busy, without changing what clients see unless a write fails |
| PageCache.PCache.constructor | Kernel/Source/Mem/PageCache.c:534-562 | a new cache is empty, valid and shows the disks |
| PageCache.ChunkSectors | Kernel/Source/Mem/PageCache.c:275-278 | a turn moves whole sectors and never passes the end of the page or of the transfer |
| PageCache.TransferEndsIffShort | Kernel/Source/Mem/PageCache.c:259-278 | while the turns take the page path, the 32-bit chunk arithmetic lets the loop reach its end if and only if the transfer is shorter than 2^32 bytes |
| PageCacheRuns.Run | Kernel/Source/Mem/PageCache.c:243-528 | transparency: any run of reads, writes, flushes, writeback rounds, resizes and invalidations answers every read as plain disks would, unless a load, an evicting write or an allocation fails or an invalidation drops a dirty page; failed flushes and failed background writes are never seen |
| PageCacheRuns.RunThenFlush | Kernel/Source/Mem/PageCache.c:357-416 | the same run followed by a flush: if no dirty page is left, and none is if the last flush's own writes succeed, every disk holds what plain disks would hold |
| LruPolicy.StepOnPrefix | Kernel/Source/Mem/PageCache.c:37-41 | one access on a cache that holds the most recent keys leaves it holding the most recent keys |
| LruPolicy.CacheHoldsMostRecent | Kernel/Source/Mem/PageCache.c:84-157 | the eviction rule keeps exactly the most recently used keys that fit, newest first, after any trace |
| PageCacheRuns.KeysDistinct | Kernel/Source/Mem/PageCache.c:207-216 | no two cached pages have the same disk and page number |
| PageCacheRuns.Access | Kernel/Source/Mem/PageCache.c:163-230 | one lookup of the real cache is one step of the abstract policy |
| PageCacheRuns.Trace | Kernel/Source/Mem/PageCache.c:163-230 | after any trace of accesses the real cache holds exactly the most recently used pages that fit |
| RunQueue.PerCpu.RqAddLocked | Kernel/Source/Scheduler.c:173-193 | appends to the ring, count and load follow, the vruntime is raised to MinVruntime; a queued task is left alone |
| RunQueue.PerCpu.RqDelLocked | Kernel/Source/Scheduler.c:195-226 | removes exactly the named task from any position including the tail; true exactly for members |
| RunQueue.WalkTo | Kernel/Source/Scheduler.c:208-225 | the do-while walk finds the predecessor of the task, or nothing when the task is not in the ring |
| RunQueue.PerCpu.RqPickMinVruntimeLocked | Kernel/Source/Scheduler.c:228-247 | the first READY member of least vruntime; none when no READY member has a vruntime below the 64-bit maximum |
| RunQueue.PerCpu.SchedAccountCurrentLocked | Kernel/Source/Scheduler.c:253-288 | charges quotient and carried remainder of 1024 per tick over the weight, the product cut to 64 bits; a clock that stands still or goes back charges nothing; MinVruntime never rises |
| RunQueue.PerCpu.TakeNext | Kernel/Source/Scheduler.c:1043-1070 | the task taken has least vruntime among the READY ones left, and is the first of them; the ring loses exactly that task; with nothing to pick the idle task runs, queued or not |
| RunQueue.PerCpu.PutBack | Kernel/Source/Scheduler.c:1013-1041 | a running task goes to the tail of its queue as READY and is charged once |
| RunQueue.PerCpu.ScheduleFromIsr | Kernel/Source/Scheduler.c:1013-1056 | one tick, whether a task or the idle task was running, keeps the queue invariant, charges only the task that ran, and runs the first READY task of least vruntime |
| RunQueue.PerCpu.FirstTickOfIdle | Kernel/Source/Scheduler.c:396-398 | the idle task starts at vruntime 2^64 - 1; its first charge wraps that to what it ran less one, and it stays on the CPU if and only if every waiting READY task has a greater vruntime |
| RunQueue.PerCpu.Reweigh | Kernel/Source/Scheduler.c:1428-1442 | the queue's load follows a member's weight when nothing comes in between |
| RunQueue.SumSplice | Kernel/Source/Scheduler.c:173-226 | the load is the sum of the member weights: taking one out takes its weight out |
| Accounting.ChargeIsExact | Kernel/Source/Scheduler.c:276-280 | vruntime gained times weight plus new remainder is 1024 times the ticks plus the old remainder if and only if that product fits in 64 bits, and less by 2^64 per wrap otherwise |
| Accounting.WeightedTimeIsConserved | Kernel/Source/Scheduler.c:253-288 | over any run, across tasks and weights, weighted vruntime plus remainder grows by exactly 1024 per elapsed tick if and only if no product of the run wraps around, by 2^64 less per wrap otherwise; the run times grow by the elapsed ticks |
| Accounting.MonotoneClockLaw | Kernel/Source/Scheduler.c:267-274 | run times add up to last tick minus first tick if and only if the clock never went back; the charge is 1024 times that if and only if what wraps lost equals what the steps back gave |
| Accounting.ChargeSplits | Kernel/Source/Scheduler.c:276-280 | charging in two steps equals charging once if and only if the two products wrap as often as the one |
| Accounting.TickSizeDoesNotMatter | Kernel/Source/Scheduler.c:253-288 | whatever remainder a heavier task left behind, and however a run time is cut into one tick or more, vruntime and remainder come out the same if and only if the ticks wrap as often as the whole; always, while the whole fits in 64 bits; cut into no tick at all, only while the remainder is below the weight |
| Accounting.AccountRun | Kernel/Source/Scheduler.c:253-288 | the books of the conservation law are what the code does to the CPU and to every task, with the 64-bit wrap of the product and of both sums |
| Fairness.ChargeAtMostBurst | Kernel/Source/Scheduler.c:276-280 | one charge adds at most (1024 D + Wmax - 1) / Wmin |
| Fairness.Switch | Kernel/Source/Scheduler.c:1013-1056 | one tick raises only the running task's vruntime, by exactly the charge of the ticks gone by over its weight and at most one burst, and leaves a task of least vruntime running; re-enqueueing changes none |
| Fairness.SpreadAfterCharge | Kernel/Source/Scheduler.c:1013-1056 | the spread after a charge is at most the larger of the old spread and lead plus burst |
| Fairness.Run | Kernel/Source/Scheduler.c:1013-1056 | over any run of ticks at most D apart the spread of a fixed runnable set never exceeds max(initial spread, lead of the running task plus one burst), in any state on the way, each of which charges the task of least vruntime that was running for exactly the ticks gone by |
| Balance.Machine.Transfer | Kernel/Source/Scheduler.c:871-926 | a queued task changes ring: the set of queued tasks and the total load stay, and the task names its new CPU |
| Balance.Machine.FindSteal | Kernel/Source/Scheduler.c:886-912 | the walk finds an acceptable task of greatest vruntime; it finds none only if all acceptable ones have vruntime 0 |
| Balance.Machine.TryStealFrom | Kernel/Source/Scheduler.c:871-926 | steals exactly when it is worth it: a maximal eligible task that is READY, not running, not the idle task and allowed here, never the victim's last one; tasks and load are conserved |
| Balance.Machine.SchedMigrateTask | Kernel/Source/Scheduler.c:742-785 | answers 0 exactly if the target is an online CPU of the mask and the task is on no CPU, on the target already, or queued; then a queued task is at the tail of the target's ring and names it, its old CPU is asked to reschedule if it was running there, and tasks and load are conserved; otherwise nothing changes; in one step |
| Balance.Machine.TaskSetNice | Kernel/Source/Scheduler.c:1410-1446 | nice and weight follow the clamped argument; the rings stay and the total load changes by the change of weight; in one step |
| Balance.Machine.Tick | Kernel/Source/Scheduler.c:985-1095 | a tick on one CPU, its idle task running, queued or neither, keeps the invariant of all run queues, charges the task that ran and runs the first READY task of least vruntime, and changes nothing of the other CPUs |
| Balance.AllowedByDigit | Kernel/Source/Scheduler.c:749 | a CPU is allowed exactly if the mask is 0 or its binary digit is set |
| Balance.LowerPriorities | Kernel/Source/Scheduler.c:39-51 | the weight of nice n is within 2.5 per cent of 1024 times (4/5)^n |
| Balance.HigherPriorities | Kernel/Source/Scheduler.c:39-51 | the weight of nice -n is within 2.5 per cent of 1024 times (5/4)^n |
| Balance.NiceLimits | Kernel/Include/Scheduler.h:30-34 | nice 0 has exactly weight 1024, and a value out of range counts as the nearest one |
| Balance.Machine.RingsDisjoint | Kernel/Source/Scheduler.c:173-226 | no task is in the rings of two CPUs |
| LoadBooks.LoadsAreRightIff | Kernel/Include/PerCpu.h:57 | over any run of enqueues and dequeues, step by step beside TaskSetNice, the load of every queue is the sum of the task weights in it whenever no TaskSetNice is under way if and only if each write of a weight is harmless: the task is where it was looked up and its whole weight was taken off there, or it is not queued then and now, or the new weight makes no difference |
| LoadBooks.StepTracks | Kernel/Source/Scheduler.c:1428-1442 | each step leaves every load off by exactly what TaskSetNice has already done to it, modulo 2^64; only a harmful write of a weight does not |
| LoadBooks.WriteIsRightIff | Kernel/Source/Scheduler.c:1436-1442 | writing the weight outside the queue lock leaves the loads right if and only if it is harmless |
| LoadBooks.AdjustTracks | Kernel/Source/Scheduler.c:1431-1437 | TaskSetNice finds the load right; it takes the whole old weight off if the task is still in that queue |
| LoadBooks.UndisturbedIsHarmless | Kernel/Source/Scheduler.c:1428-1442 | a write is harmless if nothing queued or dequeued the task since it was looked up |
| LoadBooks.DequeueInWindow | Kernel/Source/Scheduler.c:1435-1442 | for every queued task and every priority: a run with one dequeue between the change of the load and the write of the weight, which leaves the load of the queue off by new minus old weight modulo 2^64; right only if the two are equal |
| LockOrder.PathsBehave | Kernel/Source/Scheduler.c:742-867 | every scheduler path takes GSchedLock before run-queue locks and those in increasing CPU index, and releases all it took; it does all the work of the call, piece by piece, each piece under locks that allow it: the task lists under GSchedLock, a run queue under its own lock, the vruntimes under either; it keeps interrupts off while it holds a lock and returns with the flag it was entered with, except exactly when it is entered with interrupts on and steals from a CPU of greater index: then it does neither |
| LockOrder.StealBehaves | Kernel/Source/Scheduler.c:845-867 | a steal changes both queues at once, holding both locks; LockTwoPrqs and UnlockTwoPrqs keep the order whichever CPU is named first; the thief of lower index gets its interrupts back while it holds the victim's queue, and ends with them off |
| LockOrder.NextKeepsInvariant | Kernel/Include/SpinLock.h:14-22 | every event that does not interrupt a critical section keeps mutual exclusion and the order of what each CPU holds and still wants; every event but a steal upwards with interrupts on keeps them off wherever a lock is held |
| LockOrder.ReachableInvariant | Kernel/Include/SpinLock.h:40-54 | mutual exclusion holds in every state reached with interrupts between critical sections, by any number of CPUs |
| LockOrder.NothingRisky | Kernel/Include/SpinLock.h:40-54 | in a run under the interrupt flag alone in which no CPU steals from one of greater index with its interrupts on, interrupts are off wherever a lock is held, so they do come between critical sections |
| LockOrder.SomeoneSteps | Kernel/Include/SpinLock.h:14-22 | following who waits for whom always ends at a CPU that can step |
| LockOrder.NoDeadlock | Kernel/Source/Scheduler.c:742-926 | in every state reached with interrupts between critical sections, if some CPU is inside a scheduler path some CPU can perform its next operation |
| LockOrder.DeadlockFreeIff | Kernel/Source/Scheduler.c:845-926 | under the interrupt flag alone, n CPUs can never deadlock if and only if no CPU steals from one of greater index while its interrupts are on |
| LockOrder.CanDrain | Kernel/Source/Scheduler.c:742-926 | from every reachable state all CPUs can leave the scheduler and release everything |
| LockOrder.StealUpDeadlocks | Kernel/Source/Scheduler.c:860-867 | for any a < b, CPU a stealing from b out of its idle loop: a run that deadlocks, by a tick in the window in which UnlockTwoPrqs has restored the flag but still holds the second lock |
| LockOrder.NoRaceButClocks | Kernel/Source/Scheduler.c:742-926 | no two CPUs are at work on the same task lists or the same run queue; on the vruntimes of one CPU only while one of the two holds GSchedLock and the other the lock of the queue |
| LockOrder.ReachableRaces | Kernel/Include/SpinLock.h:40-54 | in every state reached with interrupts between critical sections two CPUs are at work on the same thing only if that is the vruntimes of a CPU |
| LockOrder.ClocksRace | Kernel/Source/Scheduler.c:1037-1041 | for any a < b: a run that ends with a tick on CPU a charging its task under GSchedLock alone while CPU b, in a wakeup, uses the vruntimes of CPU a under the lock of its queue |
| PageTree.SamePageIffSameNumber | Kernel/Include/Mem/Paging.h:41-44 | the four table indices agree exactly for addresses with the same 36-bit page number |
| PageTree.SplitNumber | Kernel/Include/Mem/Paging.h:41-44 | the four indices are the base 512 digits of the page number |
| PageTree.PageIsContiguous | Kernel/Source/Mem/Paging.c:129-154 | inside a page, 4 KiB or 2 MiB, physical addresses advance with virtual ones |
| PageTree.NewTableIsNeutral | Kernel/Source/Mem/Paging.c:41-70 | hanging an empty table at an absent slot, or splitting a 2 MiB entry into 512 small ones, changes no translation of any root |
| PageTree.NewTableKeepsAccess | Kernel/Source/Mem/Paging.c:41-70 | nor what a page that has a level-1 table may be used for |
| PageTree.LeafWrite | Kernel/Source/Mem/Paging.c:176-177 | writing one entry of a level-1 table redirects exactly the walks that end in it at that slot |
| PageTree.WalkUsesRecordedSlots | Kernel/Source/Mem/Paging.c:129-154 | all walks that end in one table used the same slots, so a table serves one 2 MiB region of one root |
| PageTree.PageWrite | Kernel/Source/Mem/Paging.c:160-181 | a page write redirects that page of that root and, in the user half, nothing of any other root |
| PageTree.PageWriteAccess | Kernel/Source/Mem/Paging.c:176-177 | and leaves the permissions of every other small page of that root and, in the user half, of all other roots |
| PageTree.OwnedPagesAreDistinct | Kernel/Source/Mem/Paging.c:231-254 | two user addresses of an address space that reach the same frame are in the same page |
| PageTree.OwnedPageWrite | Kernel/Source/Mem/Paging.c:246-250 | a fresh frame mapped at an absent slot joins the tree of exactly that address space |
| Teardown.PageReplaced | Kernel/Source/Mem/Paging.c:160-181 | a fresh frame mapped at any slot joins the tree; the frame that was mapped there leaves it, given back to nobody, and nothing else changes |
| Teardown.PageReplacedKeepsOthers | Kernel/Source/Mem/Paging.c:160-181 | no other address space gains or loses a frame by that |
| PageTree.NewTableKeepsOwnership | Kernel/Source/Mem/Paging.c:61-70 | a table made on the way belongs to the address space it was made for and to no other |
| Paging.Memory.FillSplit | Kernel/Source/Mem/Paging.c:52-55 | the loop builds the 512 entries that say what the 2 MiB entry said |
| Paging.Memory.GetNextLevel | Kernel/Source/Mem/Paging.c:37-76 | no translation changes; a present table is returned as it is; a step returns a table of the next level or, without permission to make one, nothing exactly at an absent or huge slot, and with it nothing exactly when no frame is free; frames taken go to the right owner |
| Paging.Memory.Descend | Kernel/Source/Mem/Paging.c:164-174 | the three steps end at the table the walk of that address ends at |
| Paging.Memory.MapPage | Kernel/Source/Mem/Paging.c:160-181 | on success the page translates to the frame plus offset with exactly the permissions given and everything else, the permissions of small pages included, as before, and a frame mapped there before belongs to nobody; fails only when a table was needed and no frame was free, so never at a small page that was mapped; on failure no translation of any root changes |
| Paging.Memory.UnmapPage | Kernel/Source/Mem/Paging.c:183-199 | exactly one 4 KiB page goes; inside a 2 MiB mapping nothing happens; other roots keep their translations |
| Paging.Memory.MapFreshPage | Kernel/Source/Mem/Paging.c:239-252 | a zeroed page with the permissions given joins the address space, or nothing changes and the frame goes back, exactly when frames have run out; the frames of the address space plus the free ones lose exactly the frame mapped there before |
| Paging.Memory.MapAnonUser | Kernel/Source/Mem/Paging.c:231-254 | zeroed pages with the permissions given under the whole range, or under its first part exactly when frames have run out; nothing else changes; the frames of the address space plus the free ones lose exactly the frames that were mapped in that part before |
| Paging.Memory.CreateUserAddressSpace | Kernel/Source/Mem/Paging.c:308-326 | fails exactly when no frame is free; the new root maps nothing for the user and what the kernel maps above; no other root changes |
| Teardown.SlotByCase | Kernel/Source/Mem/Paging.c:332-361 | a present slot stands for exactly one subtree, an absent one for nothing: no frame is met twice |
| Teardown.WholeSubtree | Kernel/Source/Mem/Paging.c:328-363 | what hangs below a root is all it owns |
| Teardown.RestIsWellFormed | Kernel/Source/Mem/Paging.c:328-363 | without the frames of one address space the tables of the others are still trees |
| Teardown.RestIsUnchanged | Kernel/Source/Mem/Paging.c:328-363 | the other roots translate and own as before |
| Teardown.NewRootMaps | Kernel/Source/Mem/Paging.c:321-322 | the copied upper half means what the kernel root means |
| Paging.Memory.FreeTree | Kernel/Source/Mem/Paging.c:332-362 | the nested loops give back the subtree, every frame once, and read no table that was given back |
| Paging.Memory.DestroyUserAddressSpace | Kernel/Source/Mem/Paging.c:328-363 | the allocator gets exactly the frames of this address space; all other roots are as before |
| Paging.Memory.Live | Kernel/Source/Mem/Paging.c:231-363 | create, any number of anonymous mappings that may overlap and may run out of memory midway, destroy: each mapping is as long as asked for while no frame was refused; the allocator's set is exactly what it was if and only if no address was mapped twice; no other address space changed |
| Paging.NextExtent | Kernel/Source/Mem/Paging.c:231-254 | one more mapping loses frames exactly if it meets an earlier one |
| UserCopy.LookupVirt | Kernel/Source/Mem/Paging.c:129-154 | the level by level lookup agrees with the translation, 0 for nowhere |
| UserCopy.CopyToUser | Kernel/Source/Mem/Paging.c:369-388 | succeeds exactly when every byte of the range is mapped away from physical 0; writes exactly the copied bytes, also when it stops midway |
| UserCopy.CopyFromUser | Kernel/Source/Mem/Paging.c:390-409 | returns the bytes of the range, or the part before the first unmapped one |
| UserCopy.OwnedIsInjective | Kernel/Source/Mem/Paging.c:369-409 | different mapped bytes of an address space live in different places |
| UserCopy.RoundTrip | Kernel/Source/Mem/Paging.c:369-409 | what was copied in is copied back out, and nothing outside the range changed |
| HeapBlocks.BlocksAreDisjoint | Kernel/Source/Mem/Allocator.c:144-180 | blocks that lie side by side share no byte |
| HeapBlocks.TilesMeansTotal | Kernel/Source/Mem/Allocator.c:104-133 | blocks side by side from start to end add up, headers plus payloads, to end minus start |
| HeapBlocks.FirstFit | Kernel/Source/Mem/Allocator.c:135-142 | the index returned fits and no earlier block does; the length stands for none |
| HeapBlocks.SplitLaid | Kernel/Source/Mem/Allocator.c:144-160 | after a split the blocks share out the same bytes, each to one block |
| HeapBlocks.SplitKeepsLive | Kernel/Source/Mem/Allocator.c:144-160 | a split takes nothing from any allocated block but the tail of the one that is cut |
| HeapBlocks.CoalescedIsExact | Kernel/Source/Mem/Allocator.c:162-180 | coalescing claims exactly the bytes of the blocks it joins if and only if they are neighbours in memory, or both merges jump and the second undoes the first |
| HeapBlocks.CoalescedLive | Kernel/Source/Mem/Allocator.c:162-180 | merging with list neighbours keeps all allocated blocks; without a jump the freed block is inside one free block |
| HeapBlocks.AppendLaid | Kernel/Source/Mem/Allocator.c:116-132 | a region of new bytes, wherever it lies, becomes one more block; the blocks stay side by side if and only if it starts where they end |
| HeapBlocks.MergeIsExact | Kernel/Source/Mem/Allocator.c:165-179 | after a merge of two list neighbours the blocks share out the same bytes if and only if the two are neighbours in memory |
| HeapBlocks.NoSeamsLeft | Kernel/Source/Mem/Allocator.c:104-180 | with everything given back and all seams held there is no seam: every region starts where the one before ends |
| HeapBlocks.FreeHoldsSeams | Kernel/Source/Mem/Allocator.c:162-211 | freeing without a jump never leaves two free blocks on both sides of a gap between regions |
| HeapBlocks.TakeHoldsSeams | Kernel/Source/Mem/Allocator.c:182-197 | allocating never does either, also from a new region |
| KernelHeap.SplitSpells | Kernel/Source/Mem/Allocator.c:148-159 | the header writes of a split leave a doubly linked list of exactly the split blocks, wherever the regions lie |
| KernelHeap.SplitOverwrites | Kernel/Source/Mem/Allocator.c:148-159 | when a split puts its new header on that of an allocated block, that header becomes a free one and the list spells the blocks no more |
| KernelHeap.MergeSpells | Kernel/Source/Mem/Allocator.c:165-179 | the header writes of a merge leave a doubly linked list of exactly the merged blocks, wherever the two lie |
| KernelHeap.HeaderWrite | Kernel/Source/Mem/Allocator.c:148-179 | writing the header of a block touches no payload byte |
| KernelHeap.Heap.constructor | Kernel/Source/Mem/Allocator.c:241-265 | one free block over the whole initial region |
| KernelHeap.Heap.Expand | Kernel/Source/Mem/Allocator.c:104-133 | refuses exactly when the heap would pass its maximum or no region is given; grows by whole pages in one free block big enough for the request, anywhere outside the heap; the blocks stay side by side exactly if every region started at HeapEndVirt; a refusal changes nothing |
| KernelHeap.Heap.FindFit | Kernel/Source/Mem/Allocator.c:135-142 | the walk along Next stops at the first fit |
| KernelHeap.Heap.SplitBlock | Kernel/Source/Mem/Allocator.c:144-160 | the heap becomes the split heap, linked both ways, and every allocated payload keeps its bytes |
| KernelHeap.Heap.Coalesce | Kernel/Source/Mem/Allocator.c:162-180 | the list becomes the merged list, tail pointer and sizes included, and no payload byte changes; reports exactly whether a merge joined blocks that are no neighbours in memory |
| KernelHeap.Heap.Allocate | Kernel/Source/Mem/Allocator.c:182-197 | a new aligned block disjoint from all others, at the first fit, the heap grown, anywhere, only when nothing fits; answers 0 exactly for size 0 or when nothing fits and the heap cannot grow; every other payload keeps its bytes |
| KernelHeap.Heap.Free | Kernel/Source/Mem/Allocator.c:199-211 | exactly that block is freed, wiped and merged; the blocks share out the regions as before if and only if no merge jumps over a gap, or two jumps undo each other; while every region started at HeapEndVirt none does; a null pointer or one to a free block does nothing |
| KernelHeap.Heap.Reallocate | Kernel/Source/Mem/Allocator.c:213-235 | the contents survive up to the smaller size, in place exactly if the size fits the block, or moved; answers 0 exactly for size 0 or when neither the block nor the heap has room and the heap cannot grow, and keeps the old block then; all other payloads keep their bytes; no merge jumps while every region started at HeapEndVirt |
| KernelHeap.Heap.Stats | Kernel/Source/Mem/Allocator.c:301-329 | exactly the used and the free bytes and blocks of the heap, which with the headers add up to its size, and a largest free block that is the limit of what can be served without growing; also after a merge over a gap |
| KernelHeap.LargestFits | Kernel/Source/Mem/Allocator.c:301-329 | the largest free block of the statistics is at least the size exactly if some block fits it |
| HeapRuns.StillHonours | Kernel/Source/Mem/Allocator.c:182-235 | an operation that keeps the other payloads keeps every other client's grant |
| HeapRuns.NoLeakAfter | Kernel/Source/Mem/Allocator.c:182-235 | an answer and its entry in the books leave exactly the granted blocks allocated, beside those of before |
| HeapRuns.Serve | Kernel/Source/Mem/Allocator.c:182-235 | any run of requests, allocation failures and regions anywhere included, up to the first merge over a gap: memory holds exactly what the clients' own books say, every grant in a block of its own, and no other block stays allocated; a request for memory is refused only if it is too big for the heap to grow or a region was refused; while every region starts at HeapEndVirt no merge jumps, and a run of allocations and frees that gives everything back without a jump shows that every region did |
| HeapRuns.MergeOverGapLosesBlock | Kernel/Source/Mem/Allocator.c:104-211 | a run of four requests, with 16 MiB to start and a region that does not start at HeapEndVirt: a merge over the gap, a block allocated inside it, and a split that turns that block's header into a free one linked to itself |
| HeapRuns.GrantsAreDisjoint | Kernel/Source/Mem/Allocator.c:182-235 | two grants never share a byte |
| ClusterChains.ChainIsUnique | Kernel/Source/Fs/Fat32.c:24-30 | a chain is determined by its first cluster |
| Fat32Clusters.NextFollowsChain | Kernel/Source/Fs/Fat32.c:24-30 | the step leads along a chain and to the end mark from its last cluster |
| Fat32Clusters.TurnsCover | Kernel/Source/Fs/Fat32.c:45-50 | the search that starts at NextFree and wraps examines every cluster |
| Fat32Clusters.Fat32.AllocCluster | Kernel/Source/Fs/Fat32.c:44-62 | fails exactly when no cluster is free; otherwise takes the nearest free one from NextFree, and the count is as right as it was |
| Fat32Clusters.FreeingATrail | Kernel/Source/Fs/Fat32.c:64-72 | on an acyclic chain exactly its clusters become free, each counted once |
| Fat32Clusters.CountIsRightIffTrail | Kernel/Source/Fs/Fat32.c:64-72 | the count is right if and only if the clusters form a chain that neither comes back nor runs into a free cluster; otherwise it is one too high |
| Fat32Clusters.Fat32.FreeClusterChain | Kernel/Source/Fs/Fat32.c:64-72 | ends on every table, cyclic ones included |
| Fat32Clusters.Fat32.FreeFile | Kernel/Source/Fs/Fat32.c:64-72 | freeing a file's chain releases its clusters and no others |
| Fat32Clusters.Fat32.AllocClusters | Kernel/Source/Fs/Fat32.c:74-90 | a chain of the asked length out of free clusters exactly when there are enough, else the table as it was |
| ExfatFiles.NextFollowsChain | Kernel/Source/Fs/Exfat.c:47-50 | the step leads along a chain and to the end mark from its last cluster |
| ClusterChains.OthersStayWhenGrown | Kernel/Source/Fs/Exfat.c:797-826 | while a file grows by free clusters all chains apart from it stay chains and stay apart |
| ClusterChains.OthersStayWhenShrunk | Kernel/Source/Fs/Exfat.c:913-926 | while a file is cut all chains apart from it stay |
| ClusterChains.GrowStep | Kernel/Source/Fs/Exfat.c:814-820 | linking a free cluster behind the last one, or making it the first, gives an acyclic chain that grew only by free clusters |
| ClusterChains.CutStep | Kernel/Source/Fs/Exfat.c:913-926 | freeing the clusters behind the n-th and ending the chain there leaves exactly the first n |
| ClusterChains.GrowingIsCounted | Kernel/Source/Fs/Exfat.c:797-826 | a chain that grew has as many more clusters as there are fewer free ones |
| ClusterChains.CuttingIsCounted | Kernel/Source/Fs/Exfat.c:913-926 | a chain that was cut has as many fewer clusters as there are more free ones |
| ExfatFiles.PatchStep | Kernel/Source/Fs/Exfat.c:829-845 | storing a piece in one cluster changes exactly those bytes of the file |
| ExfatFiles.TurnSize | Kernel/Source/Fs/Exfat.c:829-844 | every turn but the last fills its cluster and the last one ends with the buffer |
| ExfatFiles.Volume.Skip | Kernel/Source/Fs/Exfat.c:738-741 | skipping n clusters arrives at the n-th of the chain, or at an end mark behind it |
| ExfatFiles.Volume.Read | Kernel/Source/Fs/Exfat.c:718-767 | returns the bytes of the file from the offset, as many as asked for and there are |
| ExfatFiles.Volume.FindFree | Kernel/Source/Fs/Exfat.c:803-808 | the lowest free cluster, none exactly when all are taken |
| ExfatFiles.Volume.Collect | Kernel/Source/Fs/Exfat.c:791-826 | the clusters of the range in file order, the missing ones taken from the free ones and linked; fails only when none is free, or when the range starts behind the chain, which with a free cluster at hand makes the code write in front of its array of cluster numbers |
| ExfatFiles.Volume.WriteData | Kernel/Source/Fs/Exfat.c:828-845 | exactly the addressed bytes of the file become the buffer |
| ExfatFiles.Volume.Write | Kernel/Source/Fs/Exfat.c:771-878 | succeeds exactly when there is memory and the missing clusters are at most the free ones, and not for a write from behind the chain; then the range holds the buffer, the file's other bytes stay, the chain grew by exactly the clusters needed, and the size follows exactly if the directory entry can be updated; on failure no data changed; no cluster is lost |
| ExfatFiles.Volume.WriteThenRead | Kernel/Source/Fs/Exfat.c:718-878 | after a successful write the range reads back as what was written if and only if it is empty, the directory entry was updated or the size did not grow |
| ExfatFiles.Volume.AllocCluster | Kernel/Source/Fs/Exfat.c:144-165 | takes the lowest free cluster and zeroes it if there is memory for the zeros; fails exactly when there is none |
| ExfatFiles.Volume.FreeFrom | Kernel/Source/Fs/Exfat.c:892-897 | walking and freeing at once frees exactly the rest of the chain |
| ExfatFiles.Volume.Truncate | Kernel/Source/Fs/Exfat.c:880-973 | succeeds exactly when the missing clusters are at most the free ones; then an acyclic chain of exactly the clusters the size needs, its common part unchanged, dropped ones free, added ones taken from the free ones and zeroed as far as there was memory for zeros; a failure keeps the size and leaves no cluster free |
| ExfatRuns.StepKeepsSeparate | Kernel/Source/Fs/Exfat.c:771-955 | a step of one file keeps all chains acyclic, disjoint and off the directory clusters |
| ExfatRuns.OthersKeepBytes | Kernel/Source/Fs/Exfat.c:771-955 | a step of one file leaves every byte of every other file |
| ExfatRuns.WriteOne | Kernel/Source/Fs/Exfat.c:771-878 | a write among many files: the named file's bytes become those with the buffer written into them, its size grows exactly if it could be recorded, the other files keep chains and bytes; a failure leaves all bytes; how it ends follows from counting clusters |
| ExfatRuns.TruncateOne | Kernel/Source/Fs/Exfat.c:880-973 | a truncation among many files: the named file keeps its bytes up to the smaller size, has the new size, and zeros in added clusters; the other files keep chains and bytes; a failure leaves all bytes, and it fails exactly when clusters are missing |
| ExfatRuns.StepConservesClusters | Kernel/Source/Fs/Exfat.c:771-973 | no write or truncation loses a cluster or counts one twice, whether it succeeds or not |
| ExfatRuns.Run | Kernel/Source/Fs/Exfat.c:771-973 | any run of writes and truncations over many files goes, change by change, through the same flat byte sequences, cluster counts and free count as a disk of flat files under the same changes; which of them succeed, fail for memory or find the disk full follows from the change and the counts alone; all chains stay acyclic and disjoint, and files and free clusters add up to the same number |
| ElfFormat.StoredNumberReadsBack | Kernel/Source/Elf.c:155-168 | a stored little-endian number reads back |
| ElfFormat.ValidByHeader | Kernel/Source/Elf.c:14-32 | the verdict on a file depends on its first 64 bytes and its size only |
| ElfFormat.ValidByFields | Kernel/Source/Elf.c:14-32 | for every header record, any machine, class, sizes and counts included, at the head of a file of any size: the file is valid exactly if magic, class, data encoding, version, type, machine, header size, entry size and entry count have the allowed values and the table fits, its sum modulo 2^64 |
| ElfFormat.PhdrOfSlice | Kernel/Source/Elf.c:34-38 | a program header read from the separate table is the one in the file |
| ElfFormat.PageImage | Kernel/Source/Elf.c:102-119 | the clipped copy of a page is the page of the simple image: file bytes, then zeros |
| ElfFormat.ImageMeaning | Kernel/Source/Elf.c:226-233 | every byte is what the last segment on its page says |
| ElfFormat.ImageNone | Kernel/Source/Elf.c:226-233 | nothing is mapped exactly where no segment has a page |
| ElfFormat.SegmentPages | Kernel/Source/Elf.c:72-84 | the pages of a segment run from the page of its first byte to that of its last |
| ElfFormat.SegmentBytes | Kernel/Source/Elf.c:103-117 | inside its file part a segment shows the file bytes at its offset, modulo 2^64, and behind it zeros |
| ElfFormat.FlagBits | Kernel/Source/Elf.c:86-90 | a page is writable exactly if the PF_W bit is set and executable exactly if the PF_X bit is |
| ElfFormat.OneMoreDisjoint | Kernel/Source/Elf.c:90-92 | a segment shares no page with those before it exactly if their image has nothing at its pages |
| ElfFormat.MaxEndBounds | Kernel/Source/Elf.c:204-219 | the computed end lies above every segment that is loaded, and is the end of one of them, or 0 |
| ElfFormat.JudgedAlike | Kernel/Source/Elf.c:191-219 | with all sums taken modulo 2^64 and whatever lies in memory around the file: ElfLoad accepts a file, by offsets that do not wrap around, exactly if ElfLoadFromFile accepts it and it has a segment, none that is odd (low, empty behind the file, wrapping in address), and an end below the stack; files both accept have no wrapping offset |
| ElfFormat.JudgedDifferently | Kernel/Source/Elf.c:285-316 | for each of those five differences a file that ElfLoadFromFile accepts and ElfLoad does not, one with a segment on the first stack page and one whose end wraps around among them |
| ElfFormat.JudgedDifferentlyByWrap | Kernel/Source/Elf.c:80-84 | two files that ElfLoad accepts and ElfLoadFromFile does not: one whose segment has its bytes in front of the file, whatever is there, and one whose program header lies in front of the file |
| ElfFormat.MinimalFile | Kernel/Source/Elf.c:14-32 | a file of one program header has that entry point, that header and that table offset, and is valid exactly if the end of the table, modulo 2^64, lies in the file |
| ElfFormat.MinimalIsValid | Kernel/Source/Elf.c:14-32 | every entry point and program header are those of some valid file, wherever it lies in memory |
| ElfFormat.OverlayShows | Kernel/Source/Elf.c:144-168 | stores that go strictly downwards are all intact at the end |
| ElfFormat.StoresMakeBlock | Kernel/Source/Elf.c:129-171 | what is stored reads back as argc, the pointers, NULL, and behind each pointer its string with the NUL |
| ElfLoader.AllocPage | Kernel/Source/Elf.c:53-66 | a zeroed page with the permissions given appears at the address and nothing else the user sees changes; it fails exactly when frames have run out; a frame is lost exactly if a page was seen there before |
| ElfLoader.MapSegment | Kernel/Source/Elf.c:72-123 | on success the pages of the segment show its image with its permissions and everything else is as before; frames are lost exactly if something was mapped there; rejects exactly the segments its checks name, with their sums modulo 2^64, and is out of memory exactly when frames have run out |
| ElfLoader.SetupStack | Kernel/Source/Elf.c:129-171 | the user sees the zeroed stack, whatever was mapped there, writable and not executable, overlaid with exactly the stores, at the computed stack pointer; it fails only when frames have run out or the argument block does not fit; frames are lost exactly if something was mapped there |
| ElfLoader.CheckImage | Kernel/Source/Elf.c:186-219 | accepts exactly the files with a valid header, the table sum taken modulo 2^64, a good entry point, a segment, and all segments between the code base and the stack |
| ElfLoader.Load | Kernel/Source/Elf.c:179-251 | while frames last and the argument block fits, a file is loaded exactly if it passes the checks, with their sums modulo 2^64; a success shows the user exactly segments, with their permissions, and stack block, from the file or from the memory around it where offsets wrap; every frame taken is in the new address space, or back after a failure, if no two segments share a page, and for a success only if; all other address spaces and their memory are as before |
| ElfLoader.ReadHeaders | Kernel/Source/Elf.c:267-283 | the headers read piecewise are those of the file; a read that fails makes it fail, and without one it accepts exactly the valid files with their table inside |
| ElfLoader.ReadSegment | Kernel/Source/Elf.c:302-354 | reading page by page from the file gives the same image with the same permissions; without a failed read it succeeds only if the file part lies in the file, and is refused only if it does not or frames have run out; a segment whose end wraps around maps nothing |
| ElfLoader.LoadFromFile | Kernel/Source/Elf.c:257-373 | the same for a file read piecewise: while frames last, no read fails and the argument block fits, a file is loaded exactly if it passes these checks, modulo 2^64; no frame is lost if, and for a success only if, no two segments share a page and all are clear of the stack, which it does not check |
| ElfLoader.LoadBothWays | Kernel/Source/Elf.c:179-373 | while frames last and no read fails, both loaders load a file that both accept, whatever its segments share; then the two tasks have the same entry, stack pointer and heap start and see the same user memory with the same permissions |
| ElfLoader.ReadyTaskFindsItsArguments | Kernel/Source/Elf.c:129-171 | a loaded task finds argc, its pointers and intact strings |
| ElfLoader.ReadyTaskSeesItsSegments | Kernel/Source/Elf.c:72-123 | a loaded task sees, on each page, the file bytes and zeros of the last segment there, writable and executable as its flags say, and nothing elsewhere below the stack |
| Calendar.SecondsFollowTheCalendar | Kernel/Source/Time/BcdToUnix.c:21-34 | the number of seconds is strictly increasing in calendar order, both ways, and no two dates share one |
| Calendar.DaysByTheRule | Kernel/Source/Time/BcdToUnix.c:24-26 | the year loop counts 365 a year plus the leap years of the Gregorian rule |
| Calendar.MonthsByTheRule | Kernel/Source/Time/BcdToUnix.c:15-19 | where each month starts, without the table: (367 m - 362) / 12 days into the year, less 1 or 2 behind February |
| Calendar.SecondsByTheRule | Kernel/Source/Time/BcdToUnix.c:21-34 | the number of seconds in closed form, for every date |
| Calendar.MonthsMakeAYear | Kernel/Source/Time/BcdToUnix.c:15-19 | the month lengths add up to the year |
| Calendar.TimeToUnix | Kernel/Source/Time/BcdToUnix.c:21-34 | the loops compute the number of seconds of the date, which for years from 1970 is that of the rule of the Gregorian calendar, in closed form |
| Calendar.UnixToTime | Kernel/Source/Time/BcdToUnix.c:36-61 | a valid date, that of the time with its day number cut to 32 bits, by the rule of the Gregorian calendar |
| Calendar.ThereAndBack | Kernel/Source/Time/BcdToUnix.c:21-61 | the round trip from seconds is the identity if and only if the day number fits in 32 bits |
| Calendar.BackAndThere | Kernel/Source/Time/BcdToUnix.c:21-61 | the round trip from a valid date is the identity if and only if its day number fits in 32 bits |

## Left out

- Hardware: CR3, TLB, fxsave, MSRs, IPIs, APIC, descriptor tables and stack frames; a context switch is an assignment to `CurrentTask`.
- Fine-grained interleaving of the page cache: each call and each writeback round is one step, so the re-lookup after a load and the window between an unlocked write and the clearing of DIRTY are not modelled.
- The intrusive lists of the page cache are sequences in `PageCache`: no aliasing of their nodes is modelled there. `KernelList` proves that the list primitives do to the pointer ring what the cache does to its sequences, but the nodes are not embedded in the pages.
- Page cache statistics, `LastAccess`, the LOCKED flag, thread creation and shutdown; the VALID flag is kept but the code never reads it.
- PageCache.PCache.PCacheRead: assumes a transfer shorter than 2^32 bytes, because a longer one does not end.
- PageCache.PCache.PCacheWrite: assumes a transfer shorter than 2^32 bytes, because a longer one does not end.
- The cache's hash function is a parameter with values below 4096. The conversion of MaxPages times two to a signed number is not modelled.
- Scheduler lifecycle: boot, task creation, kill and exit, zombies, blocking and waking, the first tick of a CPU without a current task, load balancing triggers, and the lookup of a task by Pid in `TaskSetNice`.
- Balance.Machine.TryStealFrom: assumes fewer than 32 CPUs, because the affinity mask has 32 bits.
- Fairness.Run: assumes that no vruntime wraps around 2^64 during the run and that the idle task is not in the set; it states the case in which a task of the set runs.
- RunQueue.PerCpu.Reweigh: changes load and weight in one step, where the code releases the queue's lock in between; `LoadBooks` has the steps.
- Balance.Machine.TaskSetNice: changes load and weight in one step, where the code releases the queue's lock in between; `LoadBooks.LoadsAreRightIff` says exactly when that keeps the loads right.
- Balance.Machine.SchedMigrateTask: moves the task in one step, where the code releases the old queue's lock before it takes the new one; in `LoadBooks` it is a dequeue and an enqueue.
- LoadBooks.LoadsAreRightIff: takes the two reads of `TaskSetNice` before the lock as one step, and each operation on one queue as one; it assumes at most 2^32 tasks.
- LockOrder.NoDeadlock: assumes interrupts are taken only outside critical sections; `LockOrder.DeadlockFreeIff` says exactly when the interrupt flag ensures that.
- A tick in `LockOrder` always returns to the path it interrupted; that the switch may leave the rest of that path for later is not modelled.
- LockOrder.NoRaceButClocks: tells the task lists, each run queue with its count and load, and the vruntimes of each CPU apart, no more; the weight of a task, its affinity, `CurrentTask`, `NeedResched` and reads without a lock are not among them.
- Which CPU makes a scheduler call is not tied to the index in the call, and a call may be made whenever the program order allows, whatever the queues hold.
- Balance.Machine.Tick: assumes that an idle task that is queued is queued on the CPU that ticks; a CPU without an idle task of its own, which falls back to the initial task, is modelled only while that task is not queued elsewhere.
- Page table entries are records of a frame and five flags; other bits and 1 GiB entries are not modelled.
- PageTree.NewTableKeepsAccess: states permissions of pages that have a level-1 table; those of the pages inside a 2 MiB mapping change when it is split, as `Paging.Memory.FillSplit` says.
- Paging.Memory.MapAnonUser: assumes the range is user memory.
- Paging.Memory.MapPage: states that all pointers on the way let the user through only for an owned address space or where nothing was mapped; a kernel-only 2 MiB entry split on the way keeps its USER bit.
- `PagingMapRange`, `PagingUnmapRange` and the branch of `PagingDestroyUserAddressSpace` for 2 MiB entries, which address spaces built by `PagingMapAnonUser` never contain. The nested loops of the destruction are one recursion on the level.
- The wrap of addresses past 2^64 in the user copy loops and in the heap's `AlignUp`.
- HeapRuns.Serve: ends at the first merge over a gap; what the heap does to memory after one is shown for one run only (`HeapRuns.MergeOverGapLosesBlock`), and that a run gives everything back without a jump only if every region started at `HeapEndVirt` is stated for runs without reallocation, which can leave a free tail on a seam.
- `Regions` of the heap is the physical allocator's side of what it gave the heap; the `gap` results of the model report what a merge did and are not in the code.
- The bytes of a block header are not modelled, only where they are; `MemoryAllocateAligned`, `MemoryFreeAligned`, `MemoryCallocate` and the generation of the canary.
- KernelHeap.Heap.Free: assumes the pointer is null or that of a block of the list; a wild pointer, and a second free of a block that was coalesced away meanwhile, are not modelled.
- Fat32Clusters.Fat32.AllocCluster: assumes a table that has its two reserved entries and no cluster number as large as a mark.
- ExfatFiles.Volume.Truncate: assumes the file's chain is acyclic and its cluster count fits in 32 bits; on a cyclic chain the counting loop does not end.
- Directory entries, long names, checksums, formatting and timestamps of both file systems; `Fat32Write`; the dirty bit in entry 0 of the exFAT table and writing the table back.
- ExfatFiles.Volume.Write: follows a write from behind the end of the chain up to where it leaves its array, and assumes that cluster indices fit in 32 bits and that cluster reads and writes succeed.
- ExfatRuns.Run: leaves out the changes that would leave the array of cluster numbers or whose indices do not fit in 32 bits.
- ElfLoader.Load: says exactly what is loaded only where the argument block fits the stack and frame 0 is not free, because otherwise the copy of the block can fail.
- Alignment of the initial stack pointer, and the ELF fields the loader does not read.
- The BCD helpers of the calendar file, and dates before 1970.
