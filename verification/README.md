# OpenSSDEmu: verified models of the firmware buffer and of fio4emu

OpenSSDEmu is a small SSD firmware emulator (`buffer/`, `fcl/`) with a fork of the fio load generator
(`fio4emu/`). This project models the parts of both that carry hard invariants and proves what they guarantee:
for every input, for every reachable state, or for every interleaving of threads.

`dafny verify dfyconfig.toml` checks everything (Dafny 4.11). Each module stands for one component:

| module | component |
|---|---|
| `VerifyHistory` | the tree and list of written ranges kept for verification |
| `FileLock` | the file-name lock manager, as a step relation over many sessions |
| `FioSem` | the mutex and condition variable semaphore under it |
| `FlowControl` | proportional sharing between jobs of a flow |
| `BufferCache` | the firmware's page buffer: free list, recency list, chained hash |
| `CycleClock` | cycles to nanoseconds in 64-bit fixed point |
| `IoUnitQueues`, `IoUnitPool` | the stack and ring of I/O units, and the pool built from them |
| `OpenFiles` | open-file reference counting |
| `ByteFifo` | the byte ring with free-running 32-bit counters |
| `LatencyTarget` | the queue depth search for a latency target |
| `Flist` | the intrusive circular list |
| `SubmissionQueue` | the submission queue bitmap |
| `StatusString` | the run-length status string |
| `Counting`, `Lists`, `Bits`, `Options` | shared vocabulary: counting over maps, lists without duplicates, bitwise operations on naturals, wrap-around and ring positions |

Code that changes state is a class whose methods are proved against functions of the old state; the theorems
about runs are then stated for those functions. Code that threads run concurrently is a step relation with one
step per shared access, and its theorems quantify over all runs. What a call must achieve is stated as well as what it must not do: the
semaphore shows exactly the traces of an atomic one, and an undisturbed lock call comes to the outcome its name and
kind call for.

Six results say where a promise stops holding, each with a failing input and the exact condition:

- `FioSem.NoLostWakeupExactlyForLocks`: wakeups are safe exactly as long as the semaphore's value stays at most
  one; `SecondUnitLosesWakeup` is a run with value two that leaves a thread asleep beside an available unit.
- `IoUnitQueues.RingSize` and `UnitRing.Push`: the computed size is the least power of two exactly below 2^31
  units. The unmasked full test is harmless below `max - 1` entries; at `max - 1` it accepts a push exactly when
  the head is in the last slot, and that push empties the ring (`SecondPushEmptiesRing`). The pool never gets there.
- `VerifyHistory.VerifyLog.UnlogIoPiece`: unlogging a failed write keeps the history in order exactly if no later
  write has overlapped the piece while it was in flight. Otherwise `rb_erase` runs a second time on a piece that is
  no longer linked, and whatever it makes of the tree, the count is wrong or a live piece is lost.
  `FailedOverwriteLosesOther` shows the tree emptied under a piece that should be verified, with a count of zero.
- `BufferCache.Cache.Allocate`: replacement does not look at the commands' buffer lists, so the commands keep their
  pages exactly if the buffer taken is on none of them or holds the requested page already; `EvictedUnderCommand` is
  a command that reads another page after a miss.
- `LatencyTarget.EndsUnlessOneBelow`: against a device that keeps up exactly to depth T, the search comes to an
  end if and only if T is not one below the configured depth, from every start and reset, and then in a number of
  windows logarithmic in the configured depth (`LogarithmicSearch`).
- `CycleClock.LargestShiftExactlyWhen`: the comment at `fio4emu/gettime.c:320-323` promises the largest shift whose
  multiplier does not exceed `max_mult`. The code bounds the multiplier before it is rounded down, so the promise
  holds if and only if `(max_mult + 1) * cpm` is at most `2^(shift + 1) * 10^6`. `ShiftTooSmall` is a speed where it
  fails and every reading is zero. `ClockAdvancesExactlyWhen` says for which speeds the clock moves at all, and
  `KeptAtRealSpeeds` that neither failure occurs up to 900 THz.

Where names or comments and code differ, the code is modelled: the recency list of `buffer/buffer.c` is called LRU,
but a hit moves nothing (line 86 is commented out), so replacement is first in, first out; `FCL_SQ_empty` reports
TRUE when no entry is free; a trylock on the raced path (`fio4emu/filelock.c:207-210`) may block.

## Model

| member | source | states |
|---|---|---|
| `VerifyHistory.Walk` | fio4emu/iolog.c:270-292 | One root-to-leaf descent in a tree of any shape stops at an overlapping piece or proves that nothing in the whole tree overlaps, with the insertion point between everything before and everything after the new range |
| `VerifyHistory.VerifyLog.LogIoPiece` | fio4emu/iolog.c:232-310 | With a random map the piece is appended to the list; otherwise the tree content becomes `Logged` of the old one; `histLen` counts the pieces held; memory is given back for exactly the overlapped pieces no longer in flight, and those overlapped while in flight become orphans; live memory is the pieces held plus the orphans |
| `VerifyHistory.VerifyLog.LogAll` | fio4emu/iolog.c:229-309 | Logging a run of writes into an empty tree leaves exactly the writes that no later write touched, in order |
| `VerifyHistory.VerifyLog.SortIn` | fio4emu/iolog.c:267-309 | Restarting descents plus linking yield `Logged`, again sorted, disjoint and with unique pieces |
| `VerifyHistory.VerifyLog.EraseOverlaps` | fio4emu/iolog.c:270-304 | The restart loop terminates, removes only overlapped pieces, and frees exactly those not in flight |
| `VerifyHistory.VerifyLog.Erase` | fio4emu/iolog.c:294-303 | Erasing removes one piece at its in-order position, whatever the rebalancing does |
| `VerifyHistory.LoggedContents` | fio4emu/iolog.c:262-309 | `Logged` is sorted and disjoint and holds the new piece and exactly the old pieces that do not overlap it |
| `VerifyHistory.HistoryIsLatestWrites` | fio4emu/iolog.c:229-309 | After any run of writes the history holds exactly the writes that no later write touched |
| `VerifyHistory.LoggedIsLive` | fio4emu/iolog.c:294-303 | No piece still held has been freed |
| `VerifyHistory.LoggedOwners` | fio4emu/iolog.c:294-303 | The old pieces and the new one, less those freed, are exactly those still held plus those overlapped while in flight, and no piece is both |
| `VerifyHistory.VerifyLog.UnlogIoPiece` | fio4emu/iolog.c:312-339 | A linked piece, and only it, leaves the tree or list, order kept, and the count stays exact; for a piece erased by an overlapping write the history is out of order afterwards, whatever the second erasure leaves in the tree: the count is wrong or a live piece is neither held nor awaiting completion |
| `VerifyHistory.FailedOverwriteLosesOther` | fio4emu/iolog.c:294-339 | For any two overlapping writes in flight, failure of the first empties the tree: the second is live but no longer held, and the count is zero |
| `VerifyHistory.OrphanLosesPiece` | fio4emu/iolog.c:331-338 | For every tree that a second erasure may leave: if the count is right, some live piece is neither held nor awaiting completion |
| `VerifyHistory.LoneTree` | fio4emu/lib/rbtree.c:272-284 | A piece erased as the only one of its tree had neither parent nor children, so its links are all null |
| `VerifyHistory.VerifyLog.Prune` | fio4emu/iolog.c:207-227 | Everything held is removed and freed and the count returns to zero; what is live afterwards is exactly the pieces overwritten while in flight |
| `VerifyHistory.VerifyLog.Complete` | fio4emu/io_u.c:1971-1984 | A completed write is no longer in flight and the history is unchanged; a failed one is unlogged, in good order exactly if it was still linked; a unit without a piece changes nothing |
| `FileLock.MutualExclusion` | fio4emu/filelock.c:168-246 | In every interleaving at most one session holds the lock of a name hash, through the raced trylock and the retry that drops the global lock |
| `FileLock.SlotAccounting` | fio4emu/filelock.c:35-68 | In every reachable state each of the 1024 slots is in exactly one place, hashes of active slots are distinct, references equal holders plus waiters, and a slot that is not active is unlocked and unreferenced |
| `FileLock.AdvanceKeepsInv` | fio4emu/filelock.c:119-246 | Every step of every session keeps the invariant behind these theorems |
| `FileLock.UnlockNeverMisses` | fio4emu/filelock.c:225-246 | An unlock by a holder finds exactly the slot it locked; the error branch is never taken |
| `FileLock.NobodyWaitsForNothing` | fio4emu/filelock.c:168-246 | A blocked session waits for a lock someone owns, and whoever is inside the global lock can always move |
| `FileLock.TrylockFailsOnlyUnderContention` | fio4emu/filelock.c:191-213 | A trylock gives up only if another session refers to the slot, or every slot is active and in use; only in the latter case does a blocking call drop the global lock |
| `FileLock.OnlyTrylockGivesUp` | fio4emu/filelock.c:168-213 | In every interleaving a call that becomes idle without an unlock is a trylock, so a blocking call returns with the lock |
| `FileLock.TrylockWaitsOnlyAlone` | fio4emu/filelock.c:191-210 | A trylock waits for a slot only after its non-blocking attempt failed and while nobody else refers to the slot |
| `FileLock.FirstAttempt` | fio4emu/filelock.c:191-192 | The first attempt of a trylock never waits and takes the slot exactly if nobody owns it |
| `FileLock.EveryStepLeadsOn` | fio4emu/filelock.c:168-246 | Each step of a session brings it nearer to its end, by a bound of 14 steps, unless a blocking call finds every slot taken |
| `FileLock.LockAlone` | fio4emu/filelock.c:168-213 | An undisturbed call from any reachable state gets the lock exactly if the name is not locked and has a slot or can get one; otherwise a trylock returns leaving no trace, and a blocking call waits for the holder or for a slot |
| `FileLock.UnlockAlone` | fio4emu/filelock.c:225-246 | An undisturbed unlock returns, leaves the slot unlocked, and frees it exactly if nobody else refers to it |
| `FileLock.AllIdleMeansAllFree` | fio4emu/filelock.c:98-117 | When every session is idle all slots are free, so the assertion at exit holds |
| `FileLock.InitInv` | fio4emu/filelock.c:70-96 | The initial state satisfies the invariant |
| `FileLock.UnlockFindsOwnSlot` | fio4emu/filelock.c:119-131 | The hash search returns the one active slot with the session's hash |
| `FioSem.NoWakeupIsLost` | fio4emu/fio_sem.c:149-180 | With value at most one, an available unit and a sleeper imply a waiter already woken, under any scheduling, spurious wakeups and barging trylocks |
| `FioSem.NoLostWakeupExactlyForLocks` | fio4emu/fio_sem.c:165-180 | That guarantee holds for all uses keeping the value within a bound if and only if the bound is at most one |
| `FioSem.SecondUnitLosesWakeup` | fio4emu/fio_sem.c:165-180 | A concrete run reaching value two in which a wakeup is lost |
| `FioSem.RefinesAtomic` | fio4emu/fio_sem.c:133-180 | Each step under the mutex is an atomic down, an atomic up, or invisible |
| `FioSem.LockRunRefinesAtomic` | fio4emu/fio_sem.c:133-180 | Every run of the mutex code used as a lock is, with the invisible steps dropped, a run of an atomic semaphore |
| `FioSem.AtomicRunIsRealized` | fio4emu/fio_sem.c:133-180 | The converse: every run of the atomic semaphore is shown by a run of the code, both with every unit taken by a trylock and with every unit taken by a down |
| `FioSem.RefusedOnlyAtZero` | fio4emu/fio_sem.c:133-163 | In every run a trylock fails, and a down goes to sleep, only in a state of value zero |
| `FioSem.RefusedOnlyWhileTaken` | fio4emu/fio_sem.c:133-163 | Used as a lock, a call is refused or sleeps only while another thread has the unit |
| `FioSem.MutexHolderMoves` | fio4emu/fio_sem.c:133-180 | Whoever is inside the mutex can always go on |
| `FioSem.MutexIsReleased` | fio4emu/fio_sem.c:133-180 | Whoever is inside the mutex lets go of it within three steps |
| `FioSem.RefusedTrylockReturns` | fio4emu/fio_sem.c:133-147 | A trylock at value zero returns and leaves the semaphore as it was |
| `FioSem.WokenTakesUnit` | fio4emu/fio_sem.c:149-163 | A woken thread that finds the mutex free and a unit takes it, and stops counting as a waiter |
| `FioSem.LockRunIsSafe` | fio4emu/fio_sem.c:133-180 | Used as a lock, at most one thread holds it and no wakeup is lost |
| `FioSem.InvKept` | fio4emu/fio_sem.c:133-180 | `waiters` equals the threads asleep or woken and the mutex has at most one owner, after every step |
| `FlowControl.RunInv` | fio4emu/flow.c:57-130 | In every reachable state a flow's counter is one plus its members' counters, its weight the sum of their weights and its references their number |
| `FlowControl.ProportionalShare` | fio4emu/flow.c:17-55 | With a fixed set of n jobs, each starting at zero, of whose requests P have passed, a job of weight w has had p of them with (w/W)(1+P) - n <= p <= (w/W)(1+P) + 1, after every request, whatever other flows do |
| `FlowControl.JobCountsRequests` | fio4emu/flow.c:47-52 | A member's counter is the number of its requests that passed |
| `FlowControl.FlowCountsRequests` | fio4emu/flow.c:47-52 | The shared counter is one plus the number of the members' requests that passed |
| `FlowControl.SomeMemberMayPass` | fio4emu/flow.c:25-45 | No global stall: every flow has a member that is not stalled |
| `FlowControl.LastPutLeavesOne` | fio4emu/flow.c:95-113 | The assertion on the last put holds: the counter is back at one |
| `FlowControl.ExceedsByProducts` | fio4emu/flow.c:25-36 | Comparing the two ratios is comparing cross products |
| `FlowControl.JoinKeepsInv` | fio4emu/flow.c:115-122 | Joining keeps conservation, whether the flow exists or is created |
| `FlowControl.JoinEffect` | fio4emu/flow.c:57-122 | The job gets counter zero and its configured weight, and its flow, found or new, a reference and that weight |
| `FlowControl.LeaveKeepsInv` | fio4emu/flow.c:124-130 | Leaving keeps conservation, also when the flow is freed |
| `FlowControl.LeaveEffect` | fio4emu/flow.c:95-130 | The job is in no flow, its counter and weight are out of it, and the flow is gone exactly if nobody is left in it |
| `FlowControl.PassKeepsInv` | fio4emu/flow.c:36-54 | A stalled or passing job keeps conservation |
| `FlowControl.FlowTable.Lookup` | fio4emu/flow.c:67-73 | The list search finds the flow with the given id, or none |
| `FlowControl.FlowTable.FlowGet` | fio4emu/flow.c:57-93 | A flow is found or created with counter one and gains a reference |
| `FlowControl.FlowTable.InitJob` | fio4emu/flow.c:115-122 | A zero weight does nothing; otherwise the job's record, the reference and the weight added to the found or new flow are stated, other flows untouched, invariant kept |
| `FlowControl.FlowTable.FlowPut` | fio4emu/flow.c:95-113 | Counter and weight are taken out; the last reference removes the flow |
| `FlowControl.FlowTable.ExitJob` | fio4emu/flow.c:124-130 | The job's counter and weight leave its flow, which is removed exactly if nobody is left in it; the counter asserted on then is one |
| `FlowControl.FlowTable.ThresholdExceeded` | fio4emu/flow.c:17-55 | Stalls exactly if c * W > w * F; a stalled job changes nothing, a passing one adds exactly one to its own counter and to its flow's, invariant kept |
| `BufferCache.Cache.Allocate` | buffer/buffer.c:93-147 | For any page a free buffer is used, else the buffer allocated longest ago loses its page and nothing else changes; index and lists agree afterwards; no page is held twice exactly if no buffer that is kept held the page, so always on a miss; the commands keep their pages exactly if the buffer taken is on none of their lists or holds the page already, so always from the free list as long as they list resident buffers only |
| `BufferCache.Cache.TakeOldest` | buffer/buffer.c:106-124 | The full branch: hash entry moved, oldest buffer becomes newest; pages stay distinct exactly if no kept buffer holds the page |
| `BufferCache.Cache.TakeFree` | buffer/buffer.c:126-141 | The branch for a free buffer: the first one becomes newest and is indexed under the page |
| `BufferCache.Cache.CheckHit` | buffer/buffer.c:65-90 | A page is found exactly when it is resident, without moving anything |
| `BufferCache.Cache.Serve` | buffer/buffer.c:65-147 | Serving any string of requests, allocating on a miss only, leaves the first-in-first-out simulation of the whole string, with the last request held; from an empty cache that is the latest misses up to the capacity, newest first |
| `BufferCache.Cache.Search` | buffer/buffer.c:208-222 | The chain search finds the buffer holding the page exactly if one does |
| `BufferCache.Cache.DeleteEntry` | buffer/buffer.c:224-238 | Exactly the entry of the buffer holding the key leaves its chain; without one nothing changes |
| `BufferCache.Cache.InsertEntry` | buffer/buffer.c:202-206 | The entry is appended to the chain of its page |
| `BufferCache.HashSpreads` | buffer/buffer.c:186-189 | Pages less than a table apart fall into different chains |
| `BufferCache.HoldsTheLatest` | buffer/buffer.c:93-147 | After any sequence of allocations the cache holds exactly the latest pages up to its capacity, in order |
| `BufferCache.ServedFromEmpty` | buffer/buffer.c:65-147 | The simulation of a request string is the allocation of its misses |
| `BufferCache.MissesExactlyWhen` | buffer/buffer.c:65-147 | A request misses exactly if it is not among the latest misses, as many as fit in the cache |
| `BufferCache.PublishKeepsIndex` | buffer/buffer.c:129-141 | Publishing a buffer keeps index and recency list in agreement |
| `BufferCache.PublishDistinct` | buffer/buffer.c:129-141 | Publishing keeps pages distinct exactly if the page was not held yet |
| `BufferCache.RetireKeepsIndex` | buffer/buffer.c:110-120 | Retiring the oldest buffer keeps them in agreement |
| `BufferCache.MoveFree` | buffer/buffer.c:129-135 | Each buffer stays on exactly one of the two lists |
| `BufferCache.ListsKeepExactlyWhen` | buffer/buffer.c:106-124 | Giving a buffer another page leaves every command its pages if and only if the buffer is on no command's list or held that page |
| `BufferCache.EvictedUnderCommand` | buffer/buffer.c:106-124 | A full cache in which a command's buffer is the oldest: after a miss the command finds another page at the same offset |
| `BufferCache.Cache.constructor` | buffer/buffer.c:30-63 | All buffers free, no page held, lists and chains consistent |
| `BufferCache.Cache.AddToCommand` | buffer/buffer.c:265-281 | The buffer is appended to the command's list; cache contents unchanged |
| `BufferCache.Cache.CommandBuffer` | buffer/buffer.c:283-333 | The buffer and page at an offset of a command's list; none exactly if the offset is at or beyond the count |
| `BufferCache.Cache.FreeCommand` | buffer/buffer.c:335-347 | The command's list is emptied and its count reset |
| `CycleClock.Calibrate` | fio4emu/gettime.c:314-359 | For every valid calibration no product overflows 64 bits, the shift is 21 or 22 and the largest for which the unrounded multiplier stays within the limit, and the period is the largest power of two within an hour |
| `CycleClock.LargestShiftExactlyWhen` | fio4emu/gettime.c:320-332 | The shift is the largest one whose multiplier is within `max_mult` if and only if `(max_mult + 1) * cpm <= 2 * Scale(cpm) * 10^6`, a test on the measured speed alone |
| `CycleClock.ShiftTooSmall` | fio4emu/gettime.c:320-332 | At 3 * 10^12 cycles per millisecond shift 21 is taken though 22 is allowed, the multiplier is zero and so is every reading |
| `CycleClock.MultPositive` | fio4emu/gettime.c:331-332 | The multiplier is positive if and only if the speed is below half the measurable range or is 4194304 * 10^6, where the division is exact |
| `CycleClock.ClockAdvancesExactlyWhen` | fio4emu/gettime.c:203-206 | Of any two 64-bit counts a period apart the later one reads later if and only if the speed is in that set; the reading is then at least one nanosecond per completed period, and otherwise always zero |
| `CycleClock.KeptAtRealSpeeds` | fio4emu/gettime.c:314-332 | Up to 9 * 10^11 cycles per millisecond the shift is 22, it is the largest allowed and the clock advances |
| `CycleClock.FloorLog` | fio4emu/gettime.c:325-329 | The halving loops compute the floor of the binary logarithm |
| `CycleClock.LowMask` | fio4emu/gettime.c:358-359 | The mask is 2^n - 1 |
| `CycleClock.ClockIsSound` | fio4emu/gettime.c:203-206 | Time is monotone in the cycle count, also across periods, never exceeds true elapsed time, and lags by at most t/2^shift plus one per period plus one |
| `CycleClock.GetTime` | fio4emu/gettime.c:203-209 | The 64-bit computation, from the subtraction of the start count on, equals the unbounded one whenever the true time fits |
| `CycleClock.MaskedProductFits` | fio4emu/gettime.c:206-206 | The masked product never overflows |
| `CycleClock.ResultFits` | fio4emu/gettime.c:203-206 | The sum never overflows while the true time fits |
| `IoUnitQueues.RingSize` | fio4emu/io_u_queue.c:29-40 | The size is the least power of two holding nr + 1 entries if and only if nr is below 2^31, and zero otherwise |
| `IoUnitQueues.SmearedUp` | fio4emu/io_u_queue.c:32-40 | The shift-or steps yield the next power of two, in 32 bits |
| `IoUnitQueues.UnitRing.Push` | fio4emu/io_u_queue.h:61-70 | Appends below max - 1 entries; at max - 1 it is accepted exactly with the head in the last slot, and then the ring is empty; the new head is stated and the tail stays |
| `IoUnitQueues.SecondPushEmptiesRing` | fio4emu/io_u_queue.h:61-70 | In a ring of two slots a second push is accepted and leaves the ring empty |
| `IoUnitQueues.UnitRing.Pop` | fio4emu/io_u_queue.h:72-82 | Removes and returns the oldest entry; the head stays |
| `IoUnitQueues.UnitRing.Empty` | fio4emu/io_u_queue.h:84-87 | Empty exactly when nothing is stored |
| `IoUnitQueues.UnitStack.Push` | fio4emu/io_u_queue.h:30-38 | Pushes unless full |
| `IoUnitQueues.UnitStack.Pop` | fio4emu/io_u_queue.h:17-28 | Pops the last unit pushed |
| `IoUnitQueues.MaskedStep` | fio4emu/io_u_queue.h:65-65 | Masking an index step is a step around the ring |
| `IoUnitPool.Pool.constructor` | fio4emu/backend.c:1314-1374 | Every unit starts free and flagged free; no push fails |
| `IoUnitPool.Pool.Get` | fio4emu/io_u.c:1569-1622 | Requeued units first, then the free stack; with nothing requeued no unit is returned exactly if the stack is empty or the latency depth is reached, and one taken leaves the depth within it; exactly the returned unit becomes outstanding; the flag assertion holds |
| `IoUnitPool.Pool.Next` | fio4emu/io_u.c:1557-1592 | The choice of queue, including queue_full |
| `IoUnitPool.Pool.Put` | fio4emu/io_u.c:794-821 | The unit returns to the free stack; the push never fails; each unit stays in exactly one place |
| `IoUnitPool.Pool.Requeue` | fio4emu/io_u.c:829-860 | The unit goes to the end of the requeue ring; the push never fails |
| `IoUnitPool.Pool.Drive` | fio4emu/io_u.c:794-860 | Over any run of takes, returns and requeues under a fixed latency depth, units outstanding and requeued never exceed it together |
| `IoUnitPool.RoomForOne` | fio4emu/io_u.c:794-860 | While a unit is outstanding both queues have room for it |
| `OpenFiles.FileTable.OpenFile` | fio4emu/ioengines.c:496-530 | Opening takes a close back or opens for real; references and the open count stay exact |
| `OpenFiles.FileTable.CloseFile` | fio4emu/ioengines.c:605-616 | The engine closes at once exactly if no unit points at the file; otherwise the file is left closing |
| `OpenFiles.FileTable.PutFile` | fio4emu/filesetup.c:1890-1927 | The engine close runs exactly when the last reference goes |
| `OpenFiles.FileTable.GetFile` | fio4emu/filesetup.c:1883-1888 | One more reference |
| `OpenFiles.FileTable.Attach` | fio4emu/io_u.c:1359-1372 | A unit that points at a file adds one reference |
| `OpenFiles.FileTable.Detach` | fio4emu/io_u.c:806-809 | A unit that lets go drops its reference; the last one of a closing file closes it |
| `OpenFiles.FileTable.Exhaust` | fio4emu/io_u.c:1368-1386 | A finished file is closed at once exactly if no other unit points at it, and is left closing otherwise; other files are untouched |
| `ByteFifo.Fifo.Put` | fio4emu/fifo.c:50-71 | Appends the prefix that fits, across buffer and counter wrap |
| `ByteFifo.Fifo.Get` | fio4emu/fifo.c:73-98 | Removes and returns the oldest bytes, including the reset when empty |
| `ByteFifo.Fifo.Length` | fio4emu/fifo.h:36-39 | The wrapped difference is the number of bytes stored |
| `ByteFifo.Fifo.Room` | fio4emu/fifo.h:41-44 | The wrapped expression is the space left |
| `ByteFifo.CounterStep` | fio4emu/fifo.c:57-61 | Counter positions agree after a counter wraps |
| `ByteFifo.PutAppends` | fio4emu/fifo.c:56-68 | Writing behind the stored bytes appends to the sequence |
| `ByteFifo.GetDrops` | fio4emu/fifo.c:92-92 | Advancing out drops the oldest bytes |
| `LatencyTarget.DepthInBounds` | fio4emu/io_u.c:1417-1526 | For any device 1 <= low <= depth <= high and depth <= iodepth, with the depth below the upper bound unless that is iodepth |
| `LatencyTarget.DoneAtTheLimit` | fio4emu/io_u.c:1508-1523 | Every time a run is marked done, the depth in force is the device's limit, and the final run had begun before |
| `LatencyTarget.SettlesAtTheLimit` | fio4emu/io_u.c:1508-1523 | A depth that does not move after a window in time is the device's limit, and the limit is not one below the configured depth |
| `LatencyTarget.EndsUnlessOneBelow` | fio4emu/io_u.c:1417-1526 | From the first start and from every reset, whatever the stable count, the search ends if and only if the limit is not one below the configured depth |
| `LatencyTarget.LogarithmicSearch` | fio4emu/io_u.c:1417-1526 | With iodepth at most 2^k the search ends within 3k + 3 windows, unless the limit is one below iodepth |
| `LatencyTarget.OneBelowNeverEnds` | fio4emu/io_u.c:1493-1523 | One below the configured depth no run is ever marked done, resets included |
| `LatencyTarget.BisectionEnds` | fio4emu/io_u.c:1417-1439 | Below a failed bound every window halves the bracket, so a bracket of 2^k ends within k + 2 windows |
| `LatencyTarget.DoublingEnds` | fio4emu/io_u.c:1498-1504 | The depth doubles from window to window until it fails or reaches iodepth |
| `LatencyTarget.ReturnEnds` | fio4emu/io_u.c:1417-1504 | From a failing configured depth the search comes back halfway, and ends within 2k + 2 windows |
| `LatencyTarget.PassesReachTheTop` | fio4emu/io_u.c:1471-1504 | From any state a device that passes every window has depth iodepth after at most three windows per step: a bound that once failed does not hold it down |
| `LatencyTarget.ThirdWindowLifts` | fio4emu/io_u.c:1478-1504 | The third window in time in a row just below the upper bound moves the bound up by one and the depth with it |
| `LatencyTarget.FailuresReachOne` | fio4emu/io_u.c:1417-1439 | From any state a device that fails every window is at depth one after at most one window per step |
| `LatencyTarget.LatencyRunNeverEnds` | fio4emu/io_u.c:1508-1523 | With latency_run set no run is ever marked done |
| `LatencyTarget.DepthSearch.TargetFailed` | fio4emu/io_u.c:1417-1439 | The depth drops to halfway below the failed bound, with the stable count cleared, or gives up exactly at depth one; bounds kept |
| `LatencyTarget.DepthSearch.TargetSuccess` | fio4emu/io_u.c:1471-1526 | The lower bound becomes the depth, the depth rises as specified, and an unmoved depth begins the final run or ends it; bounds kept |
| `LatencyTarget.DepthSearch.Reset` | fio4emu/io_u.c:1450-1469 | Restarts at depth one below iodepth unless the final run has begun, keeping the stable count |
| `Flist.Add` | fio4emu/flist.h:40-62 | Prepends; next and prev stay inverse; only nodes of this list are written |
| `Flist.AddTail` | fio4emu/flist.h:64-68 | Appends |
| `Flist.Unlink` | fio4emu/flist.h:77-82 | Cuts one entry out of the ring |
| `Flist.Delete` | fio4emu/flist.h:90-95 | Removes the entry and clears its links |
| `Flist.DeleteInit` | fio4emu/flist.h:101-105 | Removes the entry and makes it an empty list |
| `Flist.Empty` | fio4emu/flist.h:111-114 | True exactly for the empty list |
| `Flist.InitHead` | fio4emu/flist.h:30-32 | An empty list |
| `Flist.SpliceBetween` | fio4emu/flist.h:116-128 | A whole list is inserted between two neighbours |
| `Flist.Splice` | fio4emu/flist.h:130-135 | Inserted at the front; the source head is left stale |
| `Flist.SpliceTail` | fio4emu/flist.h:137-142 | Inserted at the end; the source head is left stale |
| `Flist.SpliceTailInit` | fio4emu/flist.h:144-151 | Inserted at the end; the source becomes empty |
| `Flist.SpliceInit` | fio4emu/flist.h:153-160 | Inserted at the front; the source becomes empty |
| `SubmissionQueue.Queues.GetFreeEntry` | fcl/fcl.c:114-143 | The lowest free entry becomes taken, or INVALID_INDEX exactly when all are; other channels untouched |
| `SubmissionQueue.Queues.NoneFree` | fcl/fcl.c:145-160 | TRUE exactly when an allocation would fail |
| `SubmissionQueue.Queues.FreeEntry` | fcl/fcl.c:267-278 | Exactly that entry becomes free |
| `SubmissionQueue.Queues.constructor` | fcl/fcl.c:80-98 | Every entry of every channel is free |
| `SubmissionQueue.SetBitEffect` | fcl/fcl.c:130-130 | Setting a bit changes that bit only |
| `SubmissionQueue.ClearBitEffect` | fcl/fcl.c:274-275 | Clearing a bit changes that bit only |
| `StatusString.Condense` | fio4emu/eta.c:18-34 | The output is the rendering of the runs, decoding it gives the input back, and it never takes more than five bytes per job, also before the last comma is dropped |
| `StatusString.CondensedFits` | fio4emu/stat.h:424-427 | All the text written for a string fits in five bytes per character |
| `StatusString.CondensedRoundTrip` | fio4emu/eta.c:18-34 | Decoding the condensed string gives back the original, for every string |
| `StatusString.CondensedExample` | fio4emu/eta.c:18-34 | The format by example |
| `StatusString.Digits` | fio4emu/eta.c:29-29 | Decimal digits without a leading zero, except for zero itself |
| `StatusString.RunsAreMaximal` | fio4emu/eta.c:21-28 | Counts are positive and adjacent runs differ |
| `StatusString.ExpandRuns` | fio4emu/eta.c:21-28 | The counts add up to the length and the runs spell the string |

## Left out

- VerifyHistory.VerifyLog.LogIoPiece: the tree is a value held in a field, so the rewriting of node links in place is not captured; the rbtree library is not part of this model, and its rebalancing is any reshaping that keeps the in-order content.
- VerifyHistory.VerifyLog.LogIoPiece: requires ranges of positive length ending below 2^64; the trim list (`fio4emu/trim.h`) is not modelled.
- VerifyHistory.VerifyLog.Erase: taking the erased piece off the trim list is not modelled.
- VerifyHistory.VerifyLog.UnlogIoPiece: what `rb_erase` (`fio4emu/lib/rbtree.c:223-288`) does to a piece that is no longer linked is modelled for a piece without parent and children, where it empties the tree; for other stale links the resulting tree is arbitrary, and that the call returns at all is taken as given. Block info accounting is not modelled.
- FileLock.MutualExclusion: an unlocker must hold the lock; jhash is a given 32-bit value, so names with equal hashes share a lock as in the code.
- FioSem.NoWakeupIsLost: `fio_sem_down_timeout` is not modelled, as it depends on real clocks.
- FlowControl.ProportionalShare: ratios are exact instead of double precision, the pair of counter updates of a passing job is one step, and counters and weights are unbounded.
- FlowControl.FlowTable.FlowGet: failure of the shared-memory allocator and a missing flow lock are not modelled.
- FlowControl.FlowTable.ThresholdExceeded: the sleep and the quiescing of a stalled job are not modelled, and the two atomic counter updates are one step.
- BufferCache.Cache.Allocate: after an allocation of a page that a kept buffer already holds, the cache is only `Consistent`, and the other operations require distinct pages; lists are sequences, with `Flist` standing for the linked representation; page contents, `dirty` and `valid` are not modelled.
- BufferCache.Cache.Serve: checking for a hit and allocating on a miss is the intended use; the allocation at `ftl/ftl_core0.c:56` is commented out.
- BufferCache.Cache.AddToCommand: requires the page the buffer already holds and a buffer on no other command list. This is an assumption of the model: the only calls (`ftl/ftl_core0.c:51` and `ftl/ftl_core0.c:57`) are commented out, and the one for a hit would pass a resident buffer that may still be on another list.
- CycleClock.Calibrate: starts from the measured cycles per millisecond, which must be positive and such that the ticks of an hour fit in 64 bits; the sampling loop and its statistics are not modelled.
- CycleClock.GetTime: the warning about a wrapped cycle counter is not modelled.
- IoUnitPool.Pool.constructor: requires a depth below 2^31; from there on the ring size wraps to zero (`IoUnitQueues.RingSize`). Allocation of the units' buffers is not modelled.
- IoUnitPool.Pool.Get: the wait for asynchronous verify threads, child threads and units flagged IO_U_F_VER_LIST or IO_U_F_NO_FILE_PUT are not modelled.
- IoUnitPool.Pool.Put: the file reference dropped here is `OpenFiles.FileTable.Detach`; the wakeup of waiting threads is not modelled.
- IoUnitPool.Pool.Requeue: the correction of the issue counters is not modelled.
- OpenFiles.FileTable.OpenFile: error paths after the file is marked open are not modelled; disk statistics are left out.
- OpenFiles.FileTable.CloseFile: requires a file that is open and not already closing; a second close would drop a reference that a unit owns.
- OpenFiles.FileTable.PutFile: fsync on close and the release of file locks are not modelled.
- OpenFiles.FileTable.Exhaust: requires a file that is open and not already closing.
- ByteFifo.Fifo.Put: requires a size that is a power of two of at most 2^31, which the masking presupposes.
- LatencyTarget.DepthSearch.TargetSuccess: depths are unbounded; quiescing and statistics resets are not modelled.
- LatencyTarget.DepthSearch.Reset: a job without a latency target and the time stamps are not modelled.
- SubmissionQueue.Queues.constructor: queue entries and base address registers are not modelled.
- SubmissionQueue.Queues.GetFreeEntry: the spin lock is taken as given, so each call is one step.
- Queue entries, flash registers, timing and reset sequences of `fcl/fcl.c`: hardware access.
- Option parsing, I/O engines, network client and server, random generators, GTK front end, statistics output of fio: plumbing that would add wide but shallow members.
- `ftl/`, `gc/`, `hcl/`, `l2p/`, `nvme/` and `lib/`: not part of this model.
