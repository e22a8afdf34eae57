# A verified model of the kernel's core

The repository is a small x86 kernel. This project models the parts of it that keep invariants
across many operations, and proves what they keep: the scheduler with its semaphores and locks, the
process table under fork, wait and exit, the two-level memory allocator, the file system, the disk
driver and the character queues. `dafny verify dfyconfig.toml` checks everything.

How the code is rendered:

- `ASSERT` and `PANIC` stop the machine (src/include/kernel/debug.h:15-23). A call that may fail one
  returns `Outcome`, which is `Halt` in that case. Where a Dafny `assert` stands in a method under
  the doc comment of a C function, it is an `ASSERT` of that function that is proved never to fail.
- Code that changes things in place is a class (`Kernel`, `ThreadList`, `ByteMap`, `Memory`,
  `HeapManager`, `Forker`, `Partition`, `Dir`, `Inodes`, `Process`, `Drive`, `Ring`, `List`). Each
  method is proved against a function or predicate on values, and the lemmas are about those.
- Code that threads interleave is also a state machine: a step runs from one point where the thread
  can be switched away to the next, and a run is any sequence of enabled steps. `lock_acquire` and
  `lock_release` are split into their single assignments, because they run with interrupts on.
- Ghost parameters such as `blocks` in `FileWrite` name the abstract state that the invariant speaks
  about; they are determined by the concrete one.

| module | models | main results |
|---|---|---|
| `Bitmap` | bitmap.c | scan finds the lowest free run; exactly when it strays past the map |
| `Scheduler`, `RoundRobin`, `Locks`, `LockCalls` | thread.c, sync.c | the order of dispatch, one RUNNING thread, exact ready list, no lost wakeup, mutual exclusion, no failing ASSERT, over all runs |
| `Processes`, `Families`, `Tasks`, `Orphans` | wait_exit.c, thread.c | each exit status collected once by the parent, live parents, no lost child exit, and both layers together |
| `Pages`, `PageTables`, `ForkCopy` | memory.c, fork.c | bitmaps and page tables agree, freeing restores, self-mapped tables, fork copies |
| `Arenas`, `Allocator` | memory.c | live blocks disjoint over all runs; code refines the arena model on the page model |
| `Sectors`, `Files`, `Volume` | file.c, inode.c | write refines append, read refines slice (with its exact exception), one owner per block over all runs |
| `Directory`, `DirectoryRuns` | dir.c | directories refine maps over all runs; which ones can be removed |
| `InodeTable`, `InodeRuns` | inode.c | sync then open, straddling sectors, the 8-bit number, the open cache over all runs |
| `Paths`, `Tree`, `TreeLaws` | fs.c, buildin_cmd.c | laws of washing, parse and print, what a search answers for every path, where washed paths lead, chdir then getcwd |
| `Ide` | ide.c | chunks are one flat copy; the interrupt handshake over all runs |
| `IoQueue`, `IoProtocol` | ioqueue.c, pipe.c | the ring is a FIFO; the waiter protocol over all runs |
| `LinkedList` | list.c | the pointer operations refine a sequence |

Where the code falls short of what it is meant to do, the model follows the code, gives the exact
condition, and in the cases marked * a concrete state:

- `bitmap_scan` for two or more bits looks one bit past the map (`Bitmap.ScanStraysIff`).
- `pfree` takes the first user frame for a kernel one (`Pages.PfreeRightIff`, `Pages.PfreeWrongFrame`);
  freeing a page keeps the structures in agreement exactly when it does not (`Pages.FreeAgreesIff`).
- `file_write` can never add a block to a file that already has an indirect table, and loses one
  block when it tries (`Files.Partition.FileWrite`); a write that fills the file to its last byte
  halts.
- `file_read` does not look up the last direct block of a read that ends inside it, and refuses to
  reach block 139 (`Files.ReadIsSliceIff`, `Files.ReadLosesTail`*, `Files.Partition.FileRead`).
- `inode_release` leaves the last block of a file of 140 blocks allocated (`Volume.ReleaseConserves`);
  which runs lose blocks, and how many, is `Volume.RunLosses`.
- `inode_sync` cuts the inode number to 8 bits (`InodeTable.SyncRightIff`), and an open of a slot that
  carries another number breaks the cache (`InodeTable.OpenedFirstIff`).
- An empty directory can be removed if and only if it never had more than 21 entries
  (`DirectoryRuns.RemovableIff`).
- `search_file` returns an entry it never filled in for paths of two or more slashes (`Tree.UndefinedIff`).
- A waiting init is not woken when it adopts a child that hangs already (`Processes.AdoptionAndInit`,
  `Orphans.InitCanSleepThrough`*).
- `pipe_write` counts one free place too many (`IoQueue.Ring.PipeWrite`).
- A thread can sleep at a queue although it could go on, if and only if it waited for the lock and gets
  it at such a moment (`IoProtocol.OversleepsIff`, `IoProtocol.SleeperDespiteData`*); it cannot with
  one consumer and a ring that never fills (`IoProtocol.OneConsumerIsFine`).

## Model

| member | source | states |
|---|---|---|
| `Bitmap.ByteMap.ScanTest` | src/lib/kernel/bitmap.c:15-19 | the byte and mask test reads bit `index` of the map |
| `Bitmap.MaskShifts` | src/lib/kernel/bitmap.c:15-19 | the mask is 1 shifted left: the lowest bit of a byte comes first |
| `Bitmap.ByteMap.Set` | src/lib/kernel/bitmap.c:69-80 | setting or clearing changes bit `index` and no other |
| `Bitmap.ByteMap.FirstFree` | src/lib/kernel/bitmap.c:25-45 | the byte and bit loops find the lowest clear bit, or the map is full |
| `Bitmap.ByteMap.Scan` | src/lib/kernel/bitmap.c:25-66 | the whole scan on bytes computes `ScanFor` |
| `Bitmap.ScanForAnswers` | src/lib/kernel/bitmap.c:25-66 | what `ScanFor` gives is the lowest run in the bits looked at, -1 only if there is none, and a full map halts |
| `Bitmap.ScanFindsLowest` | src/lib/kernel/bitmap.c:48-66 | a run of `cnt` free bits anywhere in the map is found, and it is the lowest |
| `Bitmap.ScanStraysIff` | src/lib/kernel/bitmap.c:48-64 | with no run in the map, the answer reaches past the map if and only if the last cnt - 1 bits and the foreign bit behind them are clear |
| `Bitmap.SetThenClear` | src/kernel/memory.c:496-507 | clearing a run that was free and then set gives the old map |
| `Bitmap.SuccessiveRunsDisjoint` | src/lib/kernel/bitmap.c:25-80 | two successive allocations share no bit |
| `Scheduler.PickNextInv` | src/kernel/thread.c:195-220 | dispatching the head of the ready list, or idle, re-establishes the invariant |
| `Scheduler.DownInv` | src/kernel/sync.c:20-38 | one pass of `sema_down` keeps the invariant, whether it sleeps or takes |
| `Scheduler.UpInv` | src/kernel/sync.c:41-54 | `sema_up` keeps the invariant: the first waiter moves to the ready list and will test again |
| `Scheduler.RunInv` | src/kernel/thread.c:181-274 | every state of every run satisfies the invariant |
| `Scheduler.RunsAreSafe` | src/kernel/thread.c:181-274 | in every run exactly one thread is RUNNING, the ready list is duplicate-free and holds exactly the READY threads, nobody is on two lists, idle can be dispatched when nothing else can |
| `Scheduler.NoLostWakeup` | src/kernel/sync.c:20-54 | whenever a semaphore is 1 and has waiters, a thread already off the waiters is runnable and inside `sema_down` on it |
| `Scheduler.Kernel.Schedule` | src/kernel/thread.c:181-221 | the code computes `Rescheduled`; its ASSERTs hold |
| `Scheduler.Kernel.ThreadUnblock` | src/kernel/thread.c:256-274 | the sleeper becomes READY at the head of the ready list and nothing else changes |
| `Scheduler.Kernel.TimerTick` | src/device/timer.c:48-58 | a tick takes one from `ticks` or reschedules, and keeps the invariant |
| `Scheduler.Kernel.ThreadYield` | src/kernel/thread.c:224-236 | yielding computes `Yield` and keeps the invariant |
| `Scheduler.Kernel.ThreadBlock` | src/kernel/thread.c:239-252 | blocking computes `Block` |
| `Scheduler.Kernel.SemaDown` | src/kernel/sync.c:20-38 | one pass computes `Down`, returns exactly if the value was 1, and its ASSERTs hold |
| `Scheduler.Kernel.SemaUp` | src/kernel/sync.c:41-54 | computes `Up`; its ASSERTs hold |
| `Scheduler.Kernel.ThreadExit` | src/kernel/thread.c:346-374 | the thread leaves the lists; with `need_schedule` the next one runs |
| `RoundRobin.TickRotates` | src/kernel/thread.c:181-207 | at the end of a slice the first ready thread runs, and the old one goes to the tail, READY, with a slice as long as its priority; nobody else changes |
| `RoundRobin.TickStays` | src/device/timer.c:48-58 | within a slice the thread goes on with one tick less; with nobody else ready it gets a new slice |
| `RoundRobin.YieldRotates` | src/kernel/thread.c:224-236 | the first ready thread runs, the one that yields goes to the tail with the ticks it has left |
| `RoundRobin.BlockDispatches` | src/kernel/thread.c:239-252 | the first ready thread runs, or idle when there is none; the rest keep their places |
| `RoundRobin.WakeFirst` | src/kernel/thread.c:256-274 | the woken thread is the first of the ready list, and nothing else changes |
| `RoundRobin.WaitersQueue` | src/kernel/sync.c:20-54 | `sema_up` wakes the thread that has waited longest, `sema_down` waits behind all others |
| `RoundRobin.ComeAndGo` | src/kernel/thread.c:346-374 | a new thread comes last, a reaped one leaves its place to those behind it, after an exit the first one runs |
| `RoundRobin.StepInOrder` | src/kernel/thread.c:181-274 | a ready thread moves up by at least one place at every dispatch, back by one at every wakeup and never otherwise; the first is dispatched |
| `RoundRobin.ServedInRun` | src/kernel/thread.c:181-274 | in every run a thread at place k gets the processor after at most k + 1 dispatches, and one more for each wakeup in between |
| `RoundRobin.RoundRobinTurns` | src/kernel/thread.c:181-236 | among threads that use up their slices and yield, the one at place k runs after at most k + 1 of them |
| `Locks.RunInv` | src/kernel/sync.c:56-78 | the lock invariant holds in every state of every run, interleaved assignment by assignment |
| `Locks.SomeRun` | src/kernel/sync.c:56-64 | a run from a booted machine that brings a thread into a lock |
| `Locks.MutualExclusion` | src/kernel/sync.c:56-78 | at most one thread lies between its `sema_down` and its `sema_up` on a lock; a recorded holder is that thread; the value is 0 meanwhile |
| `Locks.RepeatIsDepth` | src/kernel/sync.c:56-78 | outside the calls a thread is the holder if and only if its nesting depth is positive, and then `holder_repeat_nr` is that depth |
| `Locks.FreeMeansFree` | src/kernel/sync.c:13-17 | the value stays in {0, 1}, is 1 if and only if nobody is inside, and then holder and repeat count are reset |
| `Locks.AssertsNeverFail` | src/kernel/sync.c:20-78 | no ASSERT of the lock and semaphore calls can fail in any run |
| `LockCalls.AcquireTested` | src/kernel/sync.c:56-59 | a call by a thread that holds the lock goes on to the nested branch, any other to `sema_down` |
| `LockCalls.AcquireNestedReturns` | src/kernel/sync.c:62-64 | a nested acquisition comes back with the depth in that lock one greater, and only there |
| `LockCalls.AcquireReturns` | src/kernel/sync.c:58-61 | so does a first one, with its last assignment |
| `LockCalls.NestedIff` | src/kernel/sync.c:67-72 | `lock_release` takes its nested branch exactly if the depth is greater than one |
| `LockCalls.ReleaseNestedReturns` | src/kernel/sync.c:69-72 | a nested release comes back with the depth one less |
| `LockCalls.ReleaseReturns` | src/kernel/sync.c:73-78 | so does the last one, with its `sema_up` |
| `Processes.CollectedInv` | src/user/wait_exit.c:103-124 | reaping a hanging child keeps the table's invariant |
| `Processes.ExitStartInv` | src/user/wait_exit.c:136-148 | recording the status and giving the children to init keeps it |
| `Processes.ExitFinishInv` | src/user/wait_exit.c:150-159 | waking the parent and hanging keeps it |
| `Processes.AddRowInv` | src/user/fork.c:171-211 | a fork with a fresh pid keeps it |
| `Processes.RunInv` | src/user/wait_exit.c:80-159 | the table's invariant holds in every state of every run |
| `Processes.RunsAreSafe` | src/user/wait_exit.c:80-159 | live pids are distinct, every parent pid names a process that has not exited, nobody but init is WAITING with a HANGING child |
| `Processes.CollectedExactlyOnce` | src/user/wait_exit.c:103-133 | an exit is in the log of collected statuses if and only if its process has left the table, never twice, and with the low byte of its status |
| `Processes.CollectedByParent` | src/user/wait_exit.c:103-124 | what `sys_wait` collects is a child of the caller; row, list entry and pid bit go with it |
| `Families.ForkMakesChild` | src/user/fork.c:171-211 | a new process with a pid nobody has, whose parent is the caller; nobody else changes |
| `Families.ExitGivesAway` | src/user/wait_exit.c:136-148 | the status passed is recorded, exactly the caller's children become init's, nobody else changes |
| `Families.ExitHangs` | src/user/wait_exit.c:150-159 | the process hangs, its parent is awake, nobody else changes |
| `Families.WaitSleeps` | src/user/wait_exit.c:125-131 | without a hanging child the caller sleeps if it has a child, and nothing else changes |
| `Families.StatusArrives` | src/user/wait_exit.c:103-159 | over every run, what was passed to `sys_exit` is what `sys_wait` hands out for that process, cut to 8 bits |
| `Processes.AdoptionAndInit` | src/user/wait_exit.c:94-100 | an exit leaves init asleep above a hanging child if and only if init waits and either did so already or inherits one |
| `Processes.FinishAndInit` | src/user/wait_exit.c:150-159 | the second half of an exit never creates that situation |
| `Orphans.InitCanSleepThrough` | src/user/wait_exit.c:94-100 | a run from a booted table (two forks, an exit, a wait, an exit) after which init sleeps above a hanging child |
| `Processes.PidToThread` | src/kernel/thread.c:376-390 | a thread with that pid, or none has it |
| `Processes.ThreadList.Traverse` | src/lib/kernel/list.c:76-85 | the first element that the callback accepts |
| `Processes.ThreadList.AdoptChildren` | src/user/wait_exit.c:94-100 | exactly the children of the pid are handed to init |
| `Processes.ThreadList.SysExit` | src/user/wait_exit.c:136-148 | the code computes `ExitStart`, and panics exactly for a thread without a parent |
| `Processes.ThreadList.SysWait` | src/user/wait_exit.c:103-133 | the code computes `WaitPass`: the child reaped, its status, row, list entry and pid bit gone; it sleeps if and only if none hangs and there is a child |
| `Tasks.RunInv` | src/kernel/thread.c:181-274 | scheduler and process table stay consistent with each other in every run of both |
| `Tasks.WholeSystemSafe` | src/user/wait_exit.c:80-159 | over runs of ticks, semaphores, forks, waits and exits: no WAITING process but init has a HANGING child, a HANGING thread is on no list, off the processor and nobody's parent |
| `Tasks.ExitParent` | src/user/wait_exit.c:150-155 | `pid_to_thread` in `sys_exit` always finds the parent, and it is another thread |
| `Pages.UseFrame` | src/kernel/memory.c:196-203 | marking a free frame keeps the structures in agreement, and nothing used it |
| `Pages.MarkedIff` | src/kernel/memory.c:196-241 | in agreement, a frame is marked if and only if a page or a page table lies on it |
| `Pages.PfreeRightIff` | src/kernel/memory.c:473-485 | `pfree` clears the bit of the frame, except for the first user frame when the kernel pool is no multiple of 8 pages |
| `Pages.PfreeWrongFrame` | src/kernel/memory.c:473-485 | which other user frame loses its bit in that case |
| `Pages.FreeAgreesIff` | src/kernel/memory.c:473-493 | freeing a page keeps page tables and physical bitmap in agreement if and only if its frame is not the first user frame or the kernel pool has a multiple of 8 pages |
| `Pages.FreeRestores` | src/kernel/memory.c:510-551 | freeing what `malloc_page` has just handed out restores virtual bitmap, page table and physical bitmap |
| `Pages.HandedFromFree` | src/kernel/memory.c:247-273 | the frames of the pages that `malloc_page` handed out, and of new page tables, were free, in the kernel and in user spaces |
| `Pages.Memory.Palloc` | src/kernel/memory.c:196-203 | the lowest free frame of the pool, marked; halts if and only if there is none |
| `Pages.Memory.PageTableAdd` | src/kernel/memory.c:209-241 | maps the page and nothing else, with a page table on a fresh frame if needed; halts exactly if the page is mapped, or needs a page table and the kernel pool is empty |
| `Pages.Memory.MapOne` | src/kernel/memory.c:595-606 | one page on the lowest free frame; halts exactly if it is mapped, its pool is empty, or its page table cannot be had |
| `Pages.Memory.VaddrGet` | src/kernel/memory.c:136-174 | the lowest run of free virtual pages, whose bits alone are set; NULL only if there is none; halts exactly on a full map or if the run reaches the user stack |
| `Pages.Memory.MallocPage` | src/kernel/memory.c:247-273 | afterwards all structures agree each way; exactly the pages of the run are new, and in the kernel part exactly their bits; halts only for a bad count, a full map, a run up to the stack, or when after some pages there is no frame for the next |
| `Pages.Memory.FreeOne` | src/kernel/memory.c:473-493 | one page is unmapped and the bit of its frame cleared; the ASSERTs hold |
| `Pages.Memory.MfreePage` | src/kernel/memory.c:510-551 | exactly the pages of the run and the bits of their frames go, and all structures agree, for pages whose frames `pfree` gets right (exactly then, by `FreeAgreesIff`) |
| `Pages.Memory.MallocThenFree` | src/kernel/memory.c:247-551 | in the kernel part, allocating and freeing changes nothing |
| `PageTables.PointersLead` | src/kernel/memory.c:179-191 | through the self-mapped directory, `pte_ptr` leads to the page-table entry of an address and `pde_ptr` to its directory entry |
| `PageTables.PdeIsPteTwice` | src/kernel/memory.c:179-191 | `pde_ptr(v)` is `pte_ptr(pte_ptr(v))` |
| `PageTables.PtePtrInjective` | src/kernel/memory.c:179-183 | two addresses share a page-table entry if and only if they share a page |
| `PageTables.AddrV2PIsWalk` | src/kernel/memory.c:339-345 | `addr_v2p` gives what the processor's translation gives |
| `ForkCopy.PageCopied` | src/user/fork.c:66-86 | one page more is copied: on a frame that was free, with the parent's bytes, nothing else changed |
| `ForkCopy.CopyAgrees` | src/user/fork.c:53-93 | when the bitmap is done the child's bitmap and page table agree |
| `ForkCopy.Forker.CopyPages` | src/user/fork.c:53-93 | the child has a page for every set bit and no other, with identical contents on a frame free before; every frame that was in use and every other page table is unchanged; halts only when after some pages there is no frame for the next |
| `Arenas.BlockInArena` | src/kernel/memory.c:365-372 | `block2arena` inverts `arena2block` |
| `Arenas.BlockSizesDouble` | src/kernel/memory.c:348-362 | the sizes start at 16 and double |
| `Arenas.ArenaIsFull` | src/kernel/memory.c:348-362 | an arena has as many blocks as fit: one more would not |
| `Arenas.LiveDisjoint` | src/kernel/memory.c:375-464 | live blocks are pairwise disjoint, over their requested size |
| `Arenas.LiveInside` | src/kernel/memory.c:375-464 | a live block lies in the pages of its arena, behind the header |
| `Arenas.LiveMissesHeaders` | src/kernel/memory.c:375-464 | a live block misses every arena header |
| `Arenas.Malloc` | src/kernel/memory.c:375-464 | a new address with the requested size becomes live and nothing else changes, or NULL exactly when the size is out of range or no page could be had |
| `Arenas.Free` | src/kernel/memory.c:554-591 | the block leaves the live ones and the invariant is kept |
| `Arenas.LastBlockReturns` | src/kernel/memory.c:574-588 | an arena goes if and only if no block of it is live any more, and then none is on a free list |
| `Arenas.RunInv` | src/kernel/memory.c:375-591 | the arena invariant holds after any sequence of calls |
| `Arenas.RunsAreSafe` | src/kernel/memory.c:375-591 | over every run: all live blocks disjoint, all headers missed, and every small arena's `cnt` is the number of its blocks on the free list |
| `Allocator.HandedFresh` | src/kernel/memory.c:404-435 | pages from `malloc_page` belong to no arena |
| `Allocator.RemoveEach` | src/kernel/memory.c:580-584 | the loop finds each block on the list, as its ASSERT says, and removes it |
| `Allocator.RemovedAll` | src/kernel/memory.c:580-584 | removing block by block leaves the blocks of the other arenas, in order |
| `Allocator.HeapManager.SplitArena` | src/kernel/memory.c:437-449 | the loop puts all blocks of the new arena on the list; its ASSERT holds |
| `Allocator.HeapManager.SysMalloc` | src/kernel/memory.c:375-464 | the code on the page model refines `Malloc` and keeps every arena's pages mapped; halts only if it needs pages and `malloc_page` does |
| `Allocator.HeapManager.SysFree` | src/kernel/memory.c:554-591 | the code refines `Free`, and the pages of an arena that goes are unmapped |
| `Sectors.WordsOfBytes` | src/fs/file.c:360-367 | an indirect table written to a sector reads back as the same block addresses |
| `Files.StoreChunk` | src/fs/file.c:387-410 | a sector that keeps the old bytes up to the size and goes on with the chunk appends the chunk |
| `Files.Partition.BlockBitmapAlloc` | src/fs/file.c:64-69 | the lowest free block, marked; halts only on a full map |
| `Files.Partition.AddDirect` | src/fs/file.c:303-318 | new blocks go to the next direct entries; the ASSERT that these are empty holds |
| `Files.Partition.CrossBlocks` | src/fs/file.c:320-361 | table and blocks are allocated, and the table on disk holds the indirect ones |
| `Files.Partition.LocateBlocks` | src/fs/file.c:285-383 | the array of addresses agrees with the mapping in every case; -1 exactly in the branch for growing indirect files |
| `Files.Partition.Allocate` | src/fs/file.c:259-383 | first block and further blocks for `cnt` bytes more, all from free ones; -1 exactly for a growing indirect file |
| `Files.Partition.Append` | src/fs/file.c:385-410 | the loop appends the data and writes no sector outside the file |
| `Files.Partition.FileWrite` | src/fs/file.c:226-416 | the new contents are the old ones and the data, blocks 0 .. size / 512 are mapped, only free blocks were taken and only the file's sectors written; -1 exactly if too large or growing an indirect file; halts only at 71680 bytes or on a full map |
| `Files.Partition.FileRead` | src/fs/file.c:419-505 | delivers `ReadOut` and moves the position; -1 exactly at the end of the file; halts exactly when it would reach block 139 or the position is -1 |
| `Files.ReadIsSliceIff` | src/fs/file.c:451-466 | what is read is the slice of the contents if and only if no direct block is missed, or sector 0 happens to hold the same bytes |
| `Files.ReadBack` | src/fs/file.c:226-505 | what was appended is read back, unless the read misses a block |
| `Files.ReadLosesTail` | src/fs/file.c:460-466 | a well-formed 513-byte file, which `FileRead` accepts, does not come back as a whole |
| `Files.Partition.Lseek` | src/fs/fs.c:462-489 | SEEK_SET gives the offset, SEEK_CUR the old position plus it, SEEK_END the size plus it, if that lies in the file; otherwise -1 and the position stays |
| `Files.Partition.SeekTwice` | src/fs/fs.c:462-489 | two moves from the current position are one move by their sum; a move by 0 is none |
| `Files.Partition.SeekThenRead` | src/fs/fs.c:462-489 | after a seek to byte n, from the start or from the end, a read delivers the file from byte n on |
| `Files.Partition.InodeRelease` | src/fs/inode.c:168-206 | exactly the bits of the table and of the blocks up to index 138 are cleared; the ASSERTs hold |
| `Files.ReleasesAllIff` | src/fs/inode.c:197-206 | all blocks are released if and only if there are at most 139 |
| `Volume.WriteKeepsOther` | src/fs/file.c:226-416 | a write leaves every other file's mapping and contents as they were |
| `Volume.WriteInv` | src/fs/file.c:226-416 | a write keeps one owner per block, and appends for that file only |
| `Volume.FailedWriteInv` | src/fs/file.c:370-375 | a failed write keeps the contents; the lost block is accounted for |
| `Volume.CreateInv` | src/fs/inode.c:223-234 | a new inode owns nothing and holds nothing |
| `Volume.ReleaseInv` | src/fs/inode.c:168-220 | a release keeps one owner per block and all other files |
| `Volume.ReleaseConserves` | src/fs/inode.c:197-206 | nothing is left behind if and only if the file has at most 139 blocks; otherwise exactly its last block |
| `Volume.RunsRefine` | src/fs/file.c:226-416 | over every run of creates, writes, failed writes and releases each allocated block belongs to exactly one file or to the rest that `RunLosses` accounts for, and the files hold what the same operations on byte sequences give |
| `Volume.RunLosses` | src/fs/file.c:370-375 | over every run the allocated blocks without a file grow by exactly one for each failed write that took a block and each release of a 140-block file; they stay the same if and only if there is none |
| `Volume.WriteFile` | src/fs/file.c:226-416 | the code of `file_write` takes a step of that run model, whether it returns its count or -1 |
| `Volume.ReleaseFile` | src/fs/inode.c:168-220 | so does the code of `inode_release` |
| `Directory.Dir.Search` | src/fs/dir.c:30-87 | for a non-empty name, the entry of the map, or none; the empty name can only hit an empty slot |
| `Directory.Dir.Insert` | src/fs/dir.c:106-209 | the first hole is filled, `i_size` grows by 24, blocks stay where they are, and a new name is added to the map; not at all if all 252 slots are live |
| `Directory.Dir.Delete` | src/fs/dir.c:212-314 | the first entry for the inode is cleared and its name leaves the map; no block is ever given back |
| `Directory.Dir.DirRead` | src/fs/dir.c:317-367 | the live entry at the position, or NULL exactly at the end; the ASSERT holds |
| `Directory.Dir.ReadAll` | src/fs/fs.c:689-698 | after a rewind, every live entry exactly once, and then NULL |
| `Directory.EmptyIff` | src/fs/dir.c:370-373 | the size is that of two entries if and only if only "." and ".." are left |
| `Directory.Dir.DirRemove` | src/fs/dir.c:376-384 | the ASSERTs fail if and only if the directory is not empty or has a second block |
| `Directory.InsertRefines` | src/fs/dir.c:190-203 | filling an empty slot with a new name adds it to the map |
| `Directory.DeleteRefines` | src/fs/dir.c:298-302 | clearing a slot takes its name out of the map |
| `Directory.LivesExact` | src/fs/dir.c:345-365 | the list of live entries has each live slot's entry and nothing else, no name twice |
| `DirectoryRuns.RunsRefine` | src/fs/dir.c:106-314 | over every run the directory is well formed, `i_size` is 24 times the live entries, and the map is what the same insertions and deletions give |
| `DirectoryRuns.InsertEntry` | src/fs/dir.c:106-209 | inserting a new entry is a step of that run model, unless all 252 slots are taken |
| `DirectoryRuns.DeleteEntry` | src/fs/dir.c:212-314 | so is deleting; it fails exactly when the map has no such entry to lose |
| `DirectoryRuns.NeverRemovable` | src/fs/dir.c:212-314 | a directory that once had more than 21 entries keeps a second block ever after |
| `DirectoryRuns.RemovableIff` | src/fs/dir.c:376-384 | a directory made in one block can be removed if and only if it is empty and never had more than 21 entries |
| `InodeTable.RoundTrip` | src/fs/inode.c:53-58 | decoding an encoded inode gives its number, size and block entries |
| `InodeTable.FieldsAt` | src/include/fs/inode.h:8-18 | number, size and block entries lie at their offsets in the structure, the rest is zero |
| `InodeTable.DeletedIsZero` | src/fs/inode.c:147-165 | a deleted inode is all zero bytes |
| `InodeTable.Locate` | src/fs/inode.c:23-42 | sector and offset name the byte 76 times the number; two sectors exactly if it straddles |
| `InodeTable.ReplacedStored` | src/fs/inode.c:63-71 | after writing one slot it reads as written, and every other inode's bytes as before |
| `InodeTable.SyncRightIff` | src/fs/inode.c:45-72 | an uncached open finds a synced inode if and only if its number is below 256 or it was there already; from 256 on another inode is overwritten |
| `InodeTable.Inodes.InodeSync` | src/fs/inode.c:45-72 | only the slot of the narrowed number changes, straddling or not |
| `InodeTable.Inodes.InodeDelete` | src/fs/inode.c:147-165 | only that slot changes, and becomes zero; halts exactly from 4096 on |
| `InodeTable.Inodes.InodeOpen` | src/fs/inode.c:75-123 | the cached copy with one opening more, or the one on disk as a new first element with count 1; afterwards there is one copy per number, whose count is the outstanding opens, if and only if the slot on disk carries its own number |
| `InodeTable.OpenedFirstIff` | src/fs/inode.c:96-118 | a copy read from disk keeps the cache right if and only if it carries the number asked for |
| `InodeTable.Inodes.InodeClose` | src/fs/inode.c:128-143 | the copy for that number keeps its inode with one opening less, or goes exactly with the last; every other copy stays, in order |
| `InodeTable.Inodes.SyncCloseOpen` | src/fs/inode.c:45-143 | sync, last close and open give the same inode back, for numbers below 256 |
| `InodeRuns.CopyStays` | src/fs/inode.c:75-143 | over every run of opens and closes, with the disk written in between, the copy of an inode stays the same as long as it is open somewhere |
| `InodeRuns.OpenAgain` | src/fs/inode.c:75-123 | the code takes a step of that run model; an inode that is open already is given out with the same fields |
| `InodeRuns.CloseOnce` | src/fs/inode.c:128-143 | so does the code of `inode_close` |
| `Paths.ParseShow` | src/fs/fs.c:178-192 | parsing undoes printing |
| `Paths.ComponentLaws` | src/fs/fs.c:178-192 | the components of a path: slashes only separate, and any number of them alike |
| `Paths.PathParse` | src/fs/fs.c:178-192 | the first component and what is left of the component list of the path with a slash put over its first character; for an empty path, of what lies behind it in memory |
| `Paths.WashOne` | src/user/buildin_cmd.c:26-39 | one round applies one component to the printed stack |
| `Paths.WashPath` | src/user/buildin_cmd.c:13-41 | the result is the fold of the component list, printed; the laws below determine the fold |
| `Paths.UpTakesBack` | src/user/buildin_cmd.c:28-31 | ".." takes back the plain name before it, anywhere in a path |
| `Paths.DotVanishes` | src/user/buildin_cmd.c:32-36 | "." changes nothing |
| `Paths.RootAbsorbs` | src/user/buildin_cmd.c:28-31 | ".." at the root is the root |
| `Paths.WashUp` | src/user/buildin_cmd.c:28-31 | a name followed by ".." can be left out of a path without changing what it is washed to |
| `Paths.WashDot` | src/user/buildin_cmd.c:32-36 | so can "." |
| `Paths.WashRoot` | src/user/buildin_cmd.c:13-41 | so can a leading ".."; a path without dots is washed to itself |
| `Paths.WashedIsClean` | src/user/buildin_cmd.c:13-41 | no "." or ".." is left, it parses to the folded list, and washing it again changes nothing |
| `Tree.SearchFile` | src/fs/fs.c:213-284 | halts exactly for a path that is not absolute or too long; otherwise answers `Search`, which `TreeLaws` determines for every path |
| `TreeLaws.SearchIff` | src/fs/fs.c:242-283 | an answer is given if and only if the names before some component lead through directories and the search ends there so: the name is missing, or the last, or a regular file; with parent and searched path |
| `TreeLaws.NotFoundIff` | src/fs/fs.c:247-270 | -1 if and only if the names before one lead to a directory that lacks it |
| `TreeLaws.RegularEnds` | src/fs/fs.c:262-265 | a regular file ends the search with its inode, wherever in the path it comes |
| `TreeLaws.EntryFound` | src/fs/fs.c:213-284 | the path of every entry of every directory of a well-formed tree finds its inode and kind, with the directory as parent and the whole path searched |
| `TreeLaws.RootFound` | src/fs/fs.c:215-221 | "/", "/." and "/.." are the root |
| `TreeLaws.PathFolds` | src/user/buildin_cmd.c:13-41 | following "." and ".." entry by entry ends in the directory whose path the fold gives |
| `TreeLaws.WashLeads` | src/user/buildin_cmd.c:13-41 | a path that leads to a directory entry by entry is washed to that directory's printed path, and the search for it finds the same inode |
| `Tree.UndefinedIff` | src/fs/fs.c:242-283 | the answer is undefined if and only if the path is two or more slashes |
| `Tree.OneUp` | src/fs/fs.c:727-786 | the parent, one level higher, and the name by which the directory hangs there; the ASSERT holds |
| `Tree.CollectNames` | src/fs/fs.c:814-822 | ends, and collects the path in reverse |
| `Tree.TurnRound` | src/fs/fs.c:828-835 | turns the collected names round |
| `Tree.Process.Getcwd` | src/fs/fs.c:790-838 | the printed path from the root; halts exactly if it is longer than the buffer |
| `Tree.Process.Chdir` | src/fs/fs.c:841-854 | moves to the directory found, stays otherwise |
| `Tree.PathFinds` | src/fs/fs.c:213-284 | searching the printed path of a directory finds it, and its parent |
| `Tree.Process.ChdirThenGetcwd` | src/fs/fs.c:790-854 | after a chdir that finds a directory, getcwd gives the root-to-leaf names, and searching that string finds the same inode |
| `Ide.RunInv` | src/device/ide.c:101-104 | `expecting_intr` and `disk_done` together are 1 exactly while a command is under way, in every run |
| `Ide.RunsAreSafe` | src/device/ide.c:309-322 | in every run, spurious interrupts included, the ASSERT of `sema_up` holds, a command causes at most one `sema_up`, and a finished one exactly one |
| `Ide.AskedRight` | src/device/ide.c:84-98 | the 8-bit registers name the chunk that is meant, a count of 0 standing for 256 |
| `Ide.Drive.IdeRead` | src/device/ide.c:139-172 | the chunks together are `sec_cnt` sectors from `lba`; exactly when it halts |
| `Ide.Drive.IdeWrite` | src/device/ide.c:175-209 | exactly those sectors are replaced; exactly when it halts |
| `IoQueue.PutAppends` | src/device/ioqueue.c:66-77 | storing at `head` appends |
| `IoQueue.GetTakesFirst` | src/device/ioqueue.c:43-56 | the character at `tail` is the oldest |
| `IoQueue.Ring.PutChar` | src/device/ioqueue.c:66-83 | appends unless 2047 characters are held |
| `IoQueue.Ring.GetChar` | src/device/ioqueue.c:43-63 | takes the oldest unless empty |
| `IoQueue.Ring.IoqLength` | src/device/ioqueue.c:87-94 | the number of characters held, at most 2047 |
| `IoQueue.Ring.PipeRead` | src/user/pipe.c:33-52 | the oldest min(cnt, length) characters, without waiting |
| `IoQueue.Ring.PipeWrite` | src/user/pipe.c:55-74 | writes everything, or gets stuck when the ring is full: exactly if more is written than fits |
| `IoProtocol.StepInv` | src/device/ioqueue.c:29-84 | every step of producers and consumers, from one sleep to the next, keeps lock, its waiters, the waiter fields and the FIFO consistent |
| `IoProtocol.SleepersQueue` | src/device/ioqueue.c:43-84 | the lock of a queue is given to who waited longest |
| `IoProtocol.RunsAreSafe` | src/device/ioqueue.c:29-84 | in every run what is taken is a prefix of what was put, and the ASSERTs of `ioq_wait` and `thread_unblock` hold |
| `IoProtocol.OversleepsIff` | src/device/ioqueue.c:47-52 | a thread ever sleeps although its test would let it through if and only if a thread that waited for the lock gets it at a moment when it could go on |
| `IoProtocol.OneConsumerIsFine` | src/device/ioqueue.c:43-84 | with one consumer and a ring that never fills this does not happen in any run |
| `IoProtocol.SleeperDespiteData` | src/device/ioqueue.c:47-52 | a run of three threads after which a consumer sleeps although a character is there and nobody else is at the queue |
| `LinkedList.List.InsertBefore` | src/lib/kernel/list.c:13-23 | the element is spliced in at that place, and the chain stays linked both ways |
| `LinkedList.List.Push` | src/lib/kernel/list.c:26-28 | the element comes first |
| `LinkedList.List.Append` | src/lib/kernel/list.c:31-33 | the element comes last |
| `LinkedList.List.Remove` | src/lib/kernel/list.c:35-42 | exactly that element goes; its own pointers stay |
| `LinkedList.List.Pop` | src/lib/kernel/list.c:45-49 | the first element goes |
| `LinkedList.List.Len` | src/lib/kernel/list.c:55-64 | the number of elements |
| `LinkedList.List.Find` | src/lib/kernel/list.c:66-74 | whether the element is in the list |

## Left out

- Boot code, `switch.s`, `kernel.S`, interrupt and segment tables, port I/O, timers, console, keyboard,
  shell, ELF loading and the system-call wrappers: hardware effects and plumbing. A context switch is
  a change of the running thread.
- `sema_up` outside locks and the disk driver: that a semaphore is 0 is what the code demands of its
  callers; it is proved for locks and for `disk_done`.
- Arithmetic on counters that only wraps after 2^32 nested calls (`holder_repeat_nr`) or ticks.
- Liveness: fairness of the scheduler, and that a disk answers. For the queues it is proved when a thread
  sleeps although it could go on, not that it wakes.
- `Bitmap.ByteMap.Scan`: which byte lies behind a map is a parameter (`past`); setting a run that
  strays there is not followed.
- `Pages.Memory.MallocPage`: a run past the end of the virtual bitmap (`Stray`) is reported and not
  followed, and a full pool halts, so that the leak after a failing `palloc` cannot occur.
- `Allocator.HeapManager.SysFree`: for a user heap the kernel pool is taken to have a multiple of 8
  pages, which is when `pfree` gets every user frame right; `Pages.FreeAgreesIff` says what happens
  otherwise. The pool locks are the subject of `Locks`.
- `ForkCopy.Forker.CopyPages`: page contents only; the copy of the PCB, the kernel stack and the
  file counts in `sys_fork` are not part of this model.
- `release_prog_resource` and the sharing of open files across `fork`.
- `Files.Partition.FileWrite`: a count with which `i_size + cnt` wraps round to at most 71680 is excluded,
  because the code then leaves its array of addresses; it takes a buffer of nearly 4 GB, more than
  user space. `Files.Partition.FileRead` likewise excludes a sum of position and count beyond 32 bits. Failing `sys_malloc` calls, the
  copy of the bitmap on disk (`bitmap_sync`) and the `inode_sync` at the end are not in it. Memory
  buffers are values, so that their sizes (512 bytes for an inode that straddles two sectors) are not
  modelled.
- `Files.Partition.InodeRelease`: the inode bitmap and the open and close around it.
- `file_create`, `sys_open`, `sys_unlink`, `sys_mkdir` and the descriptor tables: calls into the parts
  above.
- `Directory.Dir.Insert`: directories keep to their 12 direct blocks; an entry is a record, not 24
  bytes, and names of 16 characters, which have no terminator, are not distinguished. The new block's
  address is a parameter, as `Files.Partition.BlockBitmapAlloc` gives it.
- `Paths.PathParse`: name and path buffers of fixed size are strings of any length.
- `Scheduler.Kernel.ThreadExit`: the lists only; the row and the pid are in
  `Processes.ThreadList.SysWait`, the pages of PCB and page directory in `Pages.Memory.MfreePage`.
- `Tree.Process.Getcwd`: the fixed buffer of 512 bytes for the reversed path.
- `Ide.Drive.IdeRead`: the polling of `busy_wait`, and its PANIC when the disk reports an error.
- `IoQueue.Ring.PutChar`: the wait for room is in `IoProtocol`; here it is the answer that there is none.
