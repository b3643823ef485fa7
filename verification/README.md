# Verified model of the RTOS x86 kernel core

This project models the memory, scheduling, locking and signalling core of a
single-CPU i686 kernel and proves properties of it for every input, every run or
every interleaving. `dafny verify dfyconfig.toml` checks everything.

How the model is organised:

- **Heap** (`heap.c`): `HeapBlocks` gives `kmalloc` and `kfree` as functions on the
  block list; `HeapSizes` has the exact size of a grant and the accounting; `HeapMemory`
  is the code on raw memory, proved to compute them and to write no cell of a live
  payload.
- **Task scheduler** (`task.c`): `TaskModel` gives `schedule`, `task_sleep` and
  `create_task` as functions on the ring; `TaskList` is the pool with its next
  pointers; `TaskRuns` has the theorems about whole runs. `Rings` holds what both
  schedulers share about circular lists.
- **Locks** (`mutex.c`, `semaphore.c`): `Locks` has the atomic steps; `Starvation`
  puts `mutex_lock` under the real scheduler; `PagingLock` is the paging lock as a
  protocol of many tasks.
- **Channels** (`queue.c`, `pipe.c`): `QueueProtocol` and `PipeProtocol` are step
  relations in which the processor may switch tasks between any two accesses to the
  shared structure; `QueueCalls` and `PipeCalls` follow the single call through such a
  run; `RingBuffer` is the circular buffer of both; `QueueCell` and `PipeCell` are the
  calls in place; `PipeFlush` is what a flush does to a pipe in use.
- **Paging** (`paging.c`): `FrameBitmap` is the byte bitmap with its cached counter,
  `Frames` its clients, `PageTables` the two-level tables seen as a finite map.
- **Signals** (`signal.c`): `SignalModel` states what a dispatch delivers, `SignalRuns`
  which handler and mask are in force; `SignalCell` is the context with its 32-bit masks.
- **Processes** (`process.c`): `ProcessModel` gives the calls as functions on the list,
  `ProcessList` what reused slots do to its next pointers, `ProcessRuns` the runs of
  calls, and `ProcessTable` the table in place.

Conventions. Pointers into a static pool are slot numbers; the null pointer is 0 for
addresses and -1 or `None` for slots. Each `cli`..`sti` region is one atomic step. Calls
whose body runs under a mutex are modelled in place as one uninterrupted call;
`Locks.MutexExcludes` says that no other bracketed region runs meanwhile, and
`QueueProtocol` carries this through access by access for the queue. Ghost sequences
(`blocks`, `ring`, `free`, `view`) are tied to memory by each class's `Valid()`. The
heap region is an array indexed by byte offset in which a word lives in the cell of its
first byte; `identity_page_tables` is one flat array of rows, as it lies in memory;
masks of disjoint bits are written with `/`, `%` and `+`, and the bitmap bytes and
signal words as bit vectors. `cpu_ticks`, `cpu_time` and the tick counter are unbounded,
which agrees with the 32-bit counters for fewer than 2^32 ticks; sizes, frame sums, the
frame counter and semaphore counts have their 32-bit arithmetic written out.

Where code and documentation disagree the code is followed:

- After `paging_init` 16384 frames are in use (`FrameBitmap.Allocator.constructor`);
  `README.md:203` and `Usage.md:40` give figures for 2048.
- `Usage.md:478` says that SIGKILL and SIGSTOP cannot be blocked; `sigblock` exempts
  nothing (`SignalModel.KillCanBeBlocked`).
- `paging.h:76` describes `alloc_page_user` as giving pages accessible in ring 3; no
  directory entry ever has the user bit (`PageTables.Paging.NeverUserAccessible`), and
  for frames at or above 64 MB the call does not return at all
  (`PagingLock.HighFrameNeverReturns`).

Properties that turned out false of the code, each with its exact condition and an
input or a sequence of calls that leads there. For processes these are sequences of
calls to the functions of `process.h`: the repository defines `process_schedule` and
calls it nowhere, since `int 32` runs `schedule` of `task.c`.

- A granted heap block holds the request: exactly up to 0xFFFFFFFC bytes
  (`HeapBlocks.GrantHoldsRequest`); a request of 0xFFFFFFFD bytes fails it
  (`HeapBlocks.WrappedRequestGetsNothing`).
- A null frame address means that there is no run: exactly when no run starts at frame 0
  (`FrameBitmap.NullIff`); `free_page` of address 1 frees that frame
  (`FrameBitmap.NullIsGranted`).
- The frame counter survives `free_pages`: exactly when the 32-bit sum does not wrap
  (`FrameBitmap.CounterRight`); `free_pages(4096, 0xFFFFFFFF)` fails it
  (`FrameBitmap.WrapRuinsCounter`).
- `process_create` keeps every linked process: exactly when the slot is not linked already
  or is last (`ProcessModel.CreateDropsNobody`). `process_schedule` terminates: in every
  state of every run, with any number of reused slots, exactly when `current_proc->next`
  is on the list (`ProcessRuns.RunInv`). Seven calls after `process_init` both fail
  (`ProcessRuns.ReuseIsReached`, `ProcessTable.ReuseCutsCurrentOff`).
- A pipe in use hands over correctly although it is flushed: exactly while no
  `pipe_flush` has found an item (`PipeFlush.HandoverSurvivesIff`); a write, a flush and a
  read fail it (`PipeFlush.FlushLosesToken`).

## Model

| member | source | states |
|---|---|---|
| HeapBlocks.FirstFit | heap.c:36-38 | the index found is a free block that holds the request, and no earlier block is; the length of the list is returned iff none is |
| HeapBlocks.LivePayloadsDisjoint | heap.c:39-51 | live blocks never overlap and lie inside the 4 MB region |
| HeapBlocks.CoalesceTiles | heap.c:70-79 | the coalescing pass keeps the blocks tiling the region and leaves no two adjacent free blocks |
| HeapBlocks.CoalesceLive | heap.c:70-79 | the coalescing pass keeps every live block with its address and size, and makes none |
| HeapBlocks.MallocCorrect | heap.c:26-58 | a successful kmalloc adds exactly one new live block of at least the rounded size; kmalloc(0) fails, and a failed call changes nothing |
| HeapBlocks.MallocAligned | heap.c:30-51 | sizes and payload addresses stay multiples of 4 and a grant exceeds the rounded request by at most 24 bytes |
| HeapSizes.GrantSize | heap.c:36-51 | the exact size of a grant: the rounded request iff another 12-byte header and 16 bytes fit behind it, and else everything up to the next live block or the end of the region |
| HeapSizes.UsedAfterMalloc | heap.c:26-97 | heap_get_used grows by the granted size and 12 bytes, and not at all when kmalloc fails |
| HeapSizes.UsedAfterFree | heap.c:61-97 | heap_get_used shrinks by the freed size and 12 bytes |
| HeapSizes.LiveDetermines | heap.c:17-82 | two well-formed heaps with the same live blocks are the same block list, so the live blocks fix the whole result of every call |
| HeapBlocks.FreeCorrect | heap.c:61-82 | kfree of a live pointer removes exactly that block from the live ones and keeps the heap well formed |
| HeapBlocks.FreeUndoesMalloc | heap.c:38-51 | kmalloc followed by kfree of its result restores exactly the previous block list |
| HeapBlocks.NoLiveIsInitial | heap.c:17-23 | a well-formed heap without live blocks is the single block of init_heap |
| HeapBlocks.MallocFindsLowestStretch | heap.c:36-57 | kmalloc fails iff no contiguous stretch outside live blocks can hold header and rounded request; otherwise the block starts at the lowest such stretch |
| HeapBlocks.GrantHoldsRequest | heap.c:30-32 | a granted block holds the requested bytes iff the request is at most 0xFFFFFFFC |
| HeapBlocks.WrappedRequestGetsNothing | heap.c:31-32 | a request of 0xFFFFFFFD bytes on the fresh heap succeeds with an empty payload |
| HeapBlocks.SpansFill | heap.c:85-102 | live and free blocks with their headers add up to the whole region |
| HeapBlocks.RunWf | heap.c:17-82 | over every run that frees only live pointers the blocks tile the region, aligned, with no two adjacent free blocks |
| HeapBlocks.RunKeepsLive | heap.c:26-82 | over every such run a live block keeps its address and size until it is freed |
| HeapBlocks.RunBackToInitial | heap.c:17-82 | every such run from init_heap that ends without live blocks ends in the initial block list |
| HeapBlocks.FreeingAllRestores | heap.c:61-79 | freeing all live blocks in any order restores the single initial block |
| HeapMemory.Heap.constructor | heap.c:17-23 | init_heap lays out the initial block list whatever the memory held |
| HeapMemory.Heap.Kmalloc | heap.c:26-58 | the headers in memory become those of the block list that Malloc gives, the pointer is its pointer, and no cell of a live payload changes |
| HeapMemory.Heap.Search | heap.c:36-57 | the walk over the linked headers stops at the first block that fits, or at null |
| HeapMemory.Heap.Kfree | heap.c:61-82 | the headers in memory become those of Free, and no cell of a remaining live payload changes |
| HeapMemory.Heap.Fuse | heap.c:70-79 | the in-place pass computes Coalesce, terminating by the blocks left after curr, and touches no live payload |
| HeapMemory.Heap.HeapGetUsed | heap.c:85-97 | the sum of live blocks with headers, at most the region |
| HeapMemory.Heap.HeapGetFree | heap.c:99-102 | the sum of free blocks with headers |
| HeapMemory.Heap.Store | heap.c:51-51 | a client store into its own payload disturbs neither the headers nor another payload |
| HeapMemory.Heap.RunCalls | heap.c:26-82 | over every legal run of calls memory realises Run, and the payload of a block that the run does not free keeps every cell |
| Rings.RotateHead | task.c:97-99 | the ring seen from the chosen task starts with it and continues in ring order |
| TaskModel.Pick | task.c:84-95 | the selection finds a READY task of maximal positive priority, the first such in ring order after the current task, or none iff there is none |
| TaskModel.ScheduleWf | task.c:68-103 | schedule keeps the tasks in one cycle of the same length |
| TaskModel.ScheduleMembers | task.c:68-103 | schedule keeps the members of the cycle |
| TaskModel.ScheduleExactly | task.c:68-103 | field by field: the task that loses the CPU has its esp saved, each sleeping task of the ring comes one tick nearer to READY, exactly the chosen task is charged, and nothing else changes |
| TaskModel.StoresExactly | task.c:106-110 | the stores of task_sleep change sleep_ticks and state of the current task only |
| TaskModel.CreateExactly | task.c:29-65 | the new task has its priority, its frame as esp and zero counters, and no other task changes |
| TaskModel.CreateWf | task.c:29-65 | create_task keeps one cycle |
| TaskModel.ScheduleChoice | task.c:84-99 | schedule moves the CPU to the first top task after the current one and leaves it alone iff there is no top task |
| TaskModel.NotReadyKeepsCpu | task.c:97-101 | a task that is not READY keeps the CPU only if no positive-priority task in the ring is READY |
| TaskRuns.RoundRobin | task.c:61-99 | if the set of top READY tasks stays the same over as many schedule calls as it has members, each is chosen exactly once, in ring order from any current task, even if create_task adds other tasks in between |
| TaskRuns.CreateInserts | task.c:60-62 | create_task inserts right after the current task, which is what the runs of RoundRobin allow between two calls |
| TaskRuns.MembersEnumerate | task.c:84-99 | the ring order of a set of tasks lists each member exactly once |
| TaskRuns.ReachableInv | task.c:14-112 | in every reachable state, timer interrupts between the stores of task_sleep included, the ring holds exactly the tasks created, every saved esp is that of the last loss of the CPU or the initial frame, and cpu_ticks add up to the number of schedule calls |
| TaskRuns.TicksAreTurns | task.c:97-103 | in every run from init_tasking each task's cpu_ticks is the number of schedule calls after which it had the CPU |
| TaskRuns.ResumesWhereItStopped | task.c:72-103 | schedule returns the esp with which the chosen task last lost the CPU, and the ticks grow by exactly one |
| TaskRuns.WakesExactly | task.c:74-82 | a task with n ticks left sleeps through fewer than n schedule calls and is READY after exactly n, whatever other tasks do |
| TaskRuns.SleepIsThreeSteps | task.c:106-112 | task_sleep is its two stores and the schedule call of int 32, which runs may interleave with timer interrupts |
| TaskRuns.TaskSleepWakes | task.c:106-112 | a task that was awake when it called task_sleep(n) sleeps through fewer than n schedule calls counted from its store of TASK_SLEEPING and is READY after exactly n, whatever happens between its stores; for one that had the CPU while SLEEPING the calls between its stores count too, and one more is needed if they use up all n |
| TaskList.BuildFrame | task.c:40-58 | the interrupt stub resumes the new stack at the entry point with code segment 8 and interrupts on, and nothing below the frame changes |
| TaskList.Scheduler.constructor | task.c:14-26 | init_tasking leaves a ring of the main task alone |
| TaskList.Scheduler.Create | task.c:29-65 | create_task computes CreateTask on the pointer ring and builds the frame, or does nothing when the pool is full |
| TaskList.Scheduler.WakePass | task.c:74-82 | the do-while over next pointers wakes exactly the ring |
| TaskList.Scheduler.SelectPass | task.c:84-95 | the do-while over next pointers selects what Pick selects |
| TaskList.Scheduler.ScheduleNow | task.c:68-103 | schedule computes Schedule on the pointer ring and returns the chosen task's esp |
| TaskList.Scheduler.Sleep | task.c:106-112 | task_sleep computes TaskSleep, doing nothing for 0 ticks |
| Locks.MutexCell.TryLock | mutex.c:9-21 | one round of mutex_lock takes the mutex iff it is unlocked |
| Locks.MutexCell.Release | mutex.c:23-30 | mutex_unlock releases iff the caller owns the mutex |
| Locks.MutexExcludes | mutex.c:9-30 | in every interleaving of tasks that bracket their work by lock and unlock the mutex is locked exactly while one task is inside, and that task owns it |
| Locks.SelfDeadlockForever | mutex.c:9-30 | a task that waits for a mutex it owns waits forever, whatever all tasks do |
| Locks.SemCell.TryWait | semaphore.c:11-53 | a unit is taken iff the count is positive |
| Locks.SemCell.Signal | semaphore.c:28-36 | the count grows iff, read as unsigned, it is below the maximum |
| Starvation.WaiterStarvesOwner | mutex.c:9-21 | if the waiter outranks every other ring task, at every later point of every run it still has the CPU and the mutex is still held |
| Starvation.WaiterRound | mutex.c:9-21 | one round of mutex_lock by the waiter's own steps takes an unlocked mutex, and is exactly task_sleep(1) up to the next test otherwise |
| Starvation.KeepsCpuIff | task.c:84-99 | a current task that is READY in the selection keeps the CPU iff every other READY task of positive priority in the ring has strictly lower priority |
| Starvation.ScheduleKeeps | task.c:74-99 | the schedule call that task_sleep(1) raises makes the waiter READY and leaves it the CPU |
| Starvation.KernelTasksGetStuck | kernel.c:319-432 | a run from init_tasking with the kernel's own tasks of priorities 3 and 2 reaches the hypothesis: task_b is interrupted inside the queue lock until task_a wakes and asks for it |
| QueueProtocol.StepInv | queue.c:11-37 | each single access of any task keeps mutual exclusion and the ring-buffer invariant |
| QueueProtocol.QueueIsFifo | queue.c:11-37 | in every interleaving at most one task is in the locked region, and values popped followed by the contents are the values pushed |
| QueueProtocol.RefusalsAreRight | queue.c:14-31 | a push is refused only when 8 values are queued, a pop only when none is |
| QueueCalls.PushAppendsItsValue | queue.c:11-23 | in every interleaving a queue_push(v) that comes to its success exit has appended exactly v, exactly once, and one that is refused nothing |
| QueueCalls.PopRemovesItsValue | queue.c:25-37 | a queue_pop that comes to its success exit with v has removed exactly v, exactly once, and one that is refused nothing |
| QueueCalls.PushAlone | queue.c:11-23 | run without interruption the accesses of queue_push end with the value appended, or with nothing changed if there is no room |
| QueueCalls.PopAlone | queue.c:25-37 | run without interruption the accesses of queue_pop end with the oldest value removed and returned, or with nothing changed if there is none |
| QueueProtocol.QueueCell.Push | queue.c:11-23 | appends the value, or refuses iff the queue is full |
| QueueProtocol.QueueCell.Pop | queue.c:25-37 | removes the oldest value, or refuses iff the queue is empty |
| PipeProtocol.StepInv | pipe.c:45-117 | each single access of any blocking reader or writer keeps the one-token invariant |
| PipeProtocol.PipeHandsOver | pipe.c:45-117 | in every interleaving not_full + not_empty + calls in flight = 1, count = not_empty + writers past insert + readers before remove, the buffer holds at most one item, and values read are a prefix of values written |
| PipeProtocol.NeverBusy | pipe.c:53-92 | no blocking call ever takes the E_BUSY branch, and every call that returns gives E_OK |
| PipeCalls.WriteWritesItsValue | pipe.c:45-80 | in every interleaving a pipe_write_blocking(v) that returns has written exactly v, exactly once, and returned E_OK |
| PipeCalls.ReadReadsItsValue | pipe.c:82-117 | a pipe_read_blocking that returns has read exactly one value, the one it stored for its caller, and returned E_OK |
| PipeCalls.TokenHolderNeverWaits | pipe.c:45-117 | a call that has the token never waits: each of its own accesses takes it one nearer to its return |
| PipeCell.Cell.constructor | pipe.c:8-28 | pipe_create gives an empty open pipe with tokens 0 and 1 |
| PipeCell.Cell.Write | pipe.c:45-68 | appends and signals not_empty, or refuses with the right code and changes nothing |
| PipeCell.Cell.Read | pipe.c:82-105 | removes the oldest value and signals not_full, or refuses with the right code and changes nothing |
| PipeCell.Cell.Flush | pipe.c:119-134 | empties the buffer and leaves both semaphores alone |
| PipeFlush.HandoverSurvivesIff | pipe.c:45-134 | in every interleaving of blocking readers, writers and flushes the handover of PipeHandsOver holds at a point iff every flush so far found no item |
| PipeFlush.FlushedItemStopsPipe | pipe.c:70-134 | once a flush has found an item no value is ever written or read again, no writer gets past its wait, and the next reader that returns gets E_BUSY and loses the last token |
| PipeFlush.StalledForever | pipe.c:70-134 | from then on every blocking call waits forever, whatever all tasks do and even if the pipe is flushed again |
| PipeFlush.FlushLosesToken | pipe.c:14-134 | on a fresh pipe a blocking write, a flush and a blocking read with E_BUSY leave both semaphores at 0 |
| Frames.ClientsAreIsolated | paging.c:114-241 | in every run in which clients free only frames they hold, free, reserved and held frames partition all frames, so grants are disjoint from each other and from the reserved ones |
| Frames.HolderKeeps | paging.c:143-241 | over every such run a client keeps each frame it holds until it frees it itself |
| Frames.FramesConserved | paging.c:117-241 | free plus held plus 16384 reserved frames is always the total |
| Frames.GrantIsFresh | paging.c:143-194 | a grant touches no held and no reserved frame |
| FrameBitmap.Allocator.constructor | paging.c:81-126 | after paging_init exactly the first 16384 frames are used and the counter agrees |
| FrameBitmap.Allocator.CounterIsClearBits | paging.c:28-60 | the counter invariant says that num_free_pages is the number of clear bits in the byte bitmap |
| FrameBitmap.Allocator.LockPage | paging.c:34-41 | exactly the frame's bit becomes set; out of range nothing changes |
| FrameBitmap.Allocator.UnlockPage | paging.c:43-50 | exactly the frame's bit becomes clear; out of range nothing changes |
| FrameBitmap.Allocator.IsPageFree | paging.c:52-60 | true iff the frame exists and its bit is clear |
| FrameBitmap.Allocator.AllocPage | paging.c:143-160 | takes the lowest free frame and keeps the counter right; null means none iff frame 0 is in use |
| FrameBitmap.Allocator.AllocPages | paging.c:162-194 | takes the lowest run of count free frames and keeps the counter right; null means none iff no run starts at frame 0 |
| FrameBitmap.Allocator.SearchRun | paging.c:168-191 | finds the lowest start of a run of count free frames, or reports none iff there is none |
| FrameBitmap.Allocator.FreePage | paging.c:196-218 | frees the frame of the address and counts it; null and free frames are refused |
| FrameBitmap.Allocator.FreePages | paging.c:220-241 | frees the range, skipping frames already free; the counter stays right iff the 32-bit range sum does not wrap |
| FrameBitmap.NullIff | paging.c:143-194 | a null result means that there is no run iff no run starts at frame 0 |
| FrameBitmap.CounterRight | paging.c:226-237 | past the range check the counter equals the number of free frames iff the sum did not wrap |
| FrameBitmap.OutcomeIsTake | paging.c:143-194 | an allocation is a call of the client runs with the address granted there, and null means that no run exists |
| FrameBitmap.HeldIsFreeable | paging.c:196-241 | frames that a client holds are in use, pass the range check, and are exactly the frames that free_pages visits |
| FrameBitmap.Allocator.RunCalls | paging.c:143-241 | over every run of alloc_page, alloc_pages, free_page and free_pages by such clients the answers and the free frames are those of the client runs, and num_free_pages is the total less reserved and held frames |
| FrameBitmap.NullIsGranted | paging.c:143-218 | after paging_init free_page(1) succeeds and alloc_page then grants frame 0 with a null answer |
| FrameBitmap.WrapRuinsCounter | paging.c:220-241 | after paging_init free_pages(4096, 0xFFFFFFFF) succeeds and leaves the counter different from the number of free frames |
| PageTables.Paging.constructor | paging.c:91-110 | paging_init maps each page below 64 MB to itself and nothing else |
| PageTables.EntryFields | paging.c:269-269 | an entry has the frame of the physical address in its upper 20 bits and the given flags in its lower 12 |
| PageTables.Paging.MapPage | paging.c:243-275 | on an existing table the map changes at this page only, to the frame or to absent by the PRESENT flag, and the one word written has the frame and all 12 flag bits; misaligned addresses are refused; the path without a table is only marked here, that it does not return is PagingLock.MapNeverReturns |
| PageTables.Paging.UnmapPage | paging.c:277-300 | removes this page from the map and no other, by zeroing its word |
| PageTables.Paging.GetPhysicalAddr | paging.c:302-323 | computes the image of the address under the map, 0 when absent |
| PageTables.Paging.HardwareAgrees | paging.c:101-110 | the processor's walk through the directory finds exactly the pages of the map, with the same addresses |
| PageTables.Paging.NeverUserAccessible | paging.c:265-265 | no address is ever accessible in user mode, whatever flags were mapped |
| PageTables.MappingIsLocal | paging.c:268-294 | every offset of the page follows the change and every other page keeps its translation |
| PageTables.IdentityImage | paging.c:98-108 | after paging_init addresses below 64 MB translate to themselves and all others to 0 |
| PagingLock.TablesNeverGrow | paging.c:256-266 | in every reachable state page_tables[i] is non-null exactly for i < 16 |
| PagingLock.LockIsHeldInside | paging.c:143-323 | in every reachable state the paging lock is locked exactly while its owner is in a locked region |
| PagingLock.MapNeverReturns | paging.c:256-275 | map_page on a page without table never returns, whether or not a free frame remains |
| PagingLock.LockHeldForever | paging.c:143-160 | once a task is in the nested alloc_page the paging lock is held forever |
| PagingLock.HighFrameNeverReturns | paging.c:341-359 | alloc_page_user and alloc_page_kernel never return once given a frame at or above 64 MB |
| PagingLock.OthersReturn | paging.c:143-275 | a missing table is the only reason to hang: every other holder of the lock comes one step nearer to giving it back with each of its own steps, and a free lock is taken at once |
| PagingLock.CanStep | paging.c:143-359 | every task inside paging.c can always make a step, so hanging means spinning |
| PagingLock.SearchIsGrant | paging.c:147-157 | the search in the protocol grants what alloc_page grants: the lowest free frame, or none iff none is free |
| SignalModel.DeliversSnapshot | signal.c:168-199 | each signal pending and unblocked at entry is delivered exactly once, in ascending order, and no other, whatever handlers do |
| SignalModel.PendingAfterDispatch | signal.c:178-196 | afterwards pending is exactly: blocked at entry, raised outside the snapshot, or raised during or after its own delivery |
| SignalModel.NoSignalLost | signal.c:178-196 | a signal raised during a delivery is still pending afterwards or is delivered later in the same dispatch |
| SignalModel.PendingUntilDelivered | signal.c:92-199 | over any run of kill, sigblock, sigunblock, signal and dispatches a pending signal is pending at the end or was delivered by some dispatch |
| SignalModel.DeliveredWasSent | signal.c:92-199 | over any such run a signal is delivered at most as often as it was pending at the start or sent, what is still pending counted in |
| SignalRuns.LastCallDecides | signal.c:65-199 | over any run the handler of a signal is that of the last signal() call for it, and it is blocked iff the last sigblock or sigunblock that names it was a sigblock, calls during deliveries included; SIGKILL and SIGSTOP keep their handler |
| SignalRuns.DeliversLastInstalled | signal.c:168-199 | each delivery after any run uses the handler installed last, calls made during earlier deliveries of the same dispatch included |
| SignalModel.DispatchFixed | signal.c:65-90 | SIGKILL and SIGSTOP are always delivered with the default handler |
| SignalModel.KillCanBeBlocked | signal.c:127-139 | after sigblock of SIGKILL or SIGSTOP a sent one is not delivered and stays pending, whatever else is pending and whatever handlers do |
| SignalCell.Context.constructor | signal.c:56-63 | default handlers, nothing pending, nothing blocked |
| SignalCell.Context.SetHandler | signal.c:65-90 | installs the handler and returns the old one, except for SIGKILL, SIGSTOP, invalid numbers and a current process without context |
| SignalCell.Context.Send | signal.c:92-117 | adds exactly the signal to the pending ones, or refuses with the right code for the number, the pid and a missing process |
| SignalCell.Context.BlockMask | signal.c:127-139 | adds exactly the bits of the mask to the blocked signals, or refuses a current process without context |
| SignalCell.Context.UnblockMask | signal.c:141-153 | removes exactly the bits of the mask from the blocked signals, or refuses a current process without context |
| SignalCell.Context.SignalDispatch | signal.c:168-199 | the loop over the 32-bit snapshot computes Dispatch for arbitrary calls made during each delivery, and does nothing for a current process without context |
| ProcessModel.Pick | process.c:175-185 | the selection finds a READY process of maximal priority, the last such on the walk, or none iff none is READY |
| ProcessModel.ScheduleInv | process.c:156-193 | process_schedule keeps the list, and afterwards exactly the current process is RUNNING |
| ProcessModel.ScheduleChoosesMaximal | process.c:175-190 | the process chosen is READY of maximal priority, or idle iff no listed process is READY |
| ProcessModel.ScheduleFromInv | process.c:156-193 | the same holds when the current process is off the list and only its successor is on it, and the process chosen is on the list again |
| ProcessModel.ChooseExactly | process.c:156-193 | field by field: the current process has its esp saved, each listed process is charged and woken or reaped, the chosen one is RUNNING, and nothing else changes |
| ProcessModel.CurrentWinsTies | process.c:177-185 | a READY current process that nobody outranks is rechosen |
| ProcessModel.EqualsStarve | process.c:175-190 | over any number of calls such a process keeps the CPU forever |
| ProcessRuns.RunInv | process.c:71-203 | in every run, whatever slots are reused, at most one process is RUNNING and it is the current one, and the next process_schedule returns iff current_proc->next is on the list |
| ProcessRuns.RunStaysListed | process.c:71-203 | in every run that reuses no linked slot the current process stays on the list and every process_schedule returns |
| ProcessRuns.ResumesWhereItStopped | process.c:71-193 | in every run, whatever slots are reused, process_schedule resumes the chosen process with the esp with which it last lost the CPU, or with its initial frame |
| ProcessModel.CreateInv | process.c:71-114 | creating a process in an unlinked slot appends it to the list and keeps the invariant |
| ProcessModel.ReapedSlotCutsList | process.c:107-173 | a process that exits is reaped by the next process_schedule but stays linked; if no lower slot is unused or dying the next process_create takes that slot and cuts off every process behind it |
| ProcessModel.SleepsUntil | process.c:167-203 | over any number of process_schedule calls a process that slept n ticks at t0 stays SLEEPING with the same wake_tick and unchosen, up to the first call at or after t0 + n, which sees it READY; only the idle process is chosen earlier, by exactly the calls that find nobody READY |
| ProcessModel.CreateDropsNobody | process.c:107-111 | no linked process is dropped iff the slot is not linked already or is the last one |
| ProcessList.PassEndsIff | process.c:175-185 | from a slot whose next pointers lead to the head of the list, the selection pass returns to its start iff that slot is on the list |
| ProcessList.NextAfterReaches | process.c:107-111 | whatever slot process_create links, a walk that came to the head of the list still does |
| ProcessList.ScheduleEndsIff | process.c:107-185 | right after the first reuse of a linked slot the selection pass terminates iff the current process is still listed or was last |
| ProcessList.SecondReuseRejoins | process.c:107-185 | after slot 1 of a list of five was reused the pass of process 2 never ends, and after slot 3 was reused too it ends although process 2 is still off the list |
| ProcessRuns.ReuseIsReached | process.c:71-193 | from process_init, creating three processes, scheduling, and letting process 1 exit and be reaped leads to a process_create that drops the two live processes 2 and 3 from the list |
| ProcessRuns.ReuseHangsScheduler | process.c:177-185 | with process 2 current, as it is there, the selection pass after that process_create never ends |
| ProcessTable.Table.constructor | process.c:45-68 | process_init leaves the idle process alone in the list and all other slots unused |
| ProcessTable.Table.CreateProcess | process.c:71-114 | takes the lowest unused slot, or returns -1 iff there is none; its PCB gets the pid returned, the given ppid and priority, the frame as esp, READY and zero counters, no other PCB changes, and the list becomes LinkLast of the slot by exactly two stores to next pointers |
| ProcessTable.Table.ExitProcess | process.c:117-126 | the first used slot with the pid, if any, becomes ZOMBIE, and nothing else changes |
| ProcessTable.Table.SleepProcess | process.c:196-203 | the current process becomes SLEEPING until now + ticks, and no other field or process changes |
| ProcessTable.Table.ScheduleReturnsIff | process.c:175-185 | after any calls on the table process_schedule returns iff the successor of the current process is on the list |
| ProcessTable.Table.ScheduleNow | process.c:156-193 | when it returns, both walks terminate, Schedule is computed from the successor of the current process, and the current process is on the list afterwards |
| ProcessTable.ReuseCutsCurrentOff | process.c:45-193 | the calls of ReuseIsReached on a fresh table leave the RUNNING process off the list and next pointers on which the selection pass never ends |

## Left out

- `kernel.c`, `keyboard.c`, `shell.c`, `serial.c`, `panic.c`: screen, keyboard, port I/O and command dispatch.
- `gdt.c`, `idt.c`, `ring.c` and the assembly files: descriptor tables and privilege switching; only that `int 32` runs `schedule` once, and the order in which the stub pops a frame, are used.
- CR0, CR3 and TLB writes in `paging.c`, and `paging_enable`.
- `sema.c`, `vfs.c`, `logging.c`, `klog.c`, `timer.c`, `error.c`, `syscall.c`: `sema.c` waits through `task_block` and `task_unblock_all`, which no file of the repository defines; `timer.c` and `syscall.c` forward to callbacks or to calls modelled here; the others copy strings into fixed tables that none of the modelled code reads.
- Mutex calls made from interrupt handlers on behalf of the interrupted task: only task-level callers are modelled.
- `pipe_close` racing with readers and writers, and mixing blocking with non-blocking pipe calls: the handoff theorem is about blocking calls on an open pipe.
- `pause` in `signal.c` and a nested `signal_dispatch` from a handler; one entry of the table of 16 signal contexts is modelled, with the range checks of the calls that address it.
- Null pipe pointers in `pipe.c`, and null `data` pointers of the read calls.
- Process names, the frame that `process_create` builds (the same as that of `create_task`), and the listing functions.
- `PageTables.Paging.MapPage`: the table that the nested `alloc_page` would provide is not modelled in place, because that path never returns (`PagingLock.MapNeverReturns`).
- `HeapMemory.Heap.Kmalloc`: runs as one uninterrupted call; the interleaving of its accesses under `heap_mutex` is not modelled.
- `TaskRuns.ReachableInv`: `create_task` is one step, because the task becomes visible to `schedule` by the single store at `task.c:62`; two `create_task` calls interleaved with each other are not modelled.
- `ProcessTable.Table.SleepProcess`: stops before `int $32`, which runs `schedule` of `task.c` and not `process_schedule`.
