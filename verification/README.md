# A verified model of a hobby kernel's core

This project models the parts of a small 32-bit kernel that keep state other
code depends on, and proves what they keep over every run:

- the **kernel heap** (`HeapBlocks`, `HeapLists`, `Alignment`, `HeapSpec`,
  `HeapTheorems`, `HeapMemory`, `KernelHeap`): a first-fit allocator over a
  doubly linked list of headers that lie in the memory they manage. The class
  works on that memory; the specification is the list of blocks.
- **threads, semaphores and the blocking queue** (`ReadyQueue`, `Scheduler`,
  `Semaphore`, `RingQueue`, `KQueue`, with `SchedSpec`, `SchedTheorems`,
  `SchedFairness`, `SchedOrder`, `KQueueSpec`, `KQueueTheorems`): one transition system, since
  the kernel runs on one processor with interrupts off and gives it up only where
  a thread waits or yields. The classes are tied to the steps of that system.
- the **FAT32 read path** (`BlockCache` with `LruSpec`, `FatSpec`, `Fat32`,
  `FatDir`, `FatTheorems`, `FileHandle`): block caches, cluster chains, reads and
  directory enumeration; and the layout of volumes and of directory entries, from
  outside (`FatGeometry`, `FatFormat`).
- the **virtual file system** (`Strings`, `PathSpec`, `Paths`, `PathTheorems`,
  `PathLaws`; `VfsSpec`, `VfsTheorems`, `VfsSteps`, `VfsAccess`, `Vfs`): path normalisation, the tables
  of handles, open files and descriptors, and who may open what.
- **physical pages and address spaces** (`Bits`, `Bitset`, `PhysicalMemory`;
  `SpaceSpec`, `SpaceTheorems`, `SpaceMaps`, `AddressSpaces`).
- the shell's **tokenizer** (`Tokenizer`) and the **number** formatter and parser
  (`Numbers`).

Code that changes state is a class whose methods are proved against functions on
values; the theorems are about those functions. Panics are results of the model:
a contract says exactly when they happen.

Where the code does not do what it is meant to do, the model follows the code; a
theorem states the exact boundary, and mostly another one inputs that cross it:

- an allocation that consumes the whole trailing block behind a large skip
  panics (`KernelHeap.Heap.Alloc` says exactly when), and every freshly
  initialised heap that is not very small has such a request
  (`WholeTrailingBlockPanics`); runs that keep the trailing block free never
  panic (`RunNeverPanics`);
- freeing what was just allocated restores the heap exactly when no skip of 4 to
  40 bytes was absorbed (`FreeUndoesAlloc`, `SmallSkipIsLost`);
- `fit_node` is fooled exactly by sizes whose end wraps around to a small address
  (`FitNodeWraps`, `HugeRequestFits`);
- the queue's overload for const references does not signal
  (`QuietPutLosesItem`); only const items and direct calls get there;
- a read from a file that is longer than its chain is exact when it ends within
  the chain, and otherwise returns 0 (`ShortChain`, `EarlyEnd`);
- `duplicate_fd` is right only for the last handle of a file, `transplant_fd`
  only for a free descriptor (`DuplicateIsConsistent`, `MoveIsConsistent`); both
  go wrong for the reading end of every new pipe (`PipeCopyBreaks`,
  `PipeMoveBreaks`, `FirstPipeBreaks`); a run keeps the tables consistent exactly
  when it avoids this (`RunConsistent`);
- `delete_address_space` gives back exactly what the space owns, but leaves the
  kernel with a current space that is gone exactly when the space was the current
  one, as it is when a process exits (`DeleteSpace`, `ExitLeavesNoSpace`);
- mapping over a mapped page, as overlapping segments of a program do, loses a
  page for ever exactly when the old entry owned one (`RemapLosesPage`);
- `split_args` looks behind its array exactly when spaces end 32 arguments or more
  (`SplitArgs`, `LineBounds`);
- `map` always reports success, but maps the whole range exactly when there are
  enough free pages for it and its tables (`Map`, `MapWithoutMemory`);
- a page table made from a page with old entries keeps single ownership exactly
  when these are harmless (`DirtyTable`), which those of a deleted space's table
  are not (`RecycledTable`).

## Model

| member | source | states |
|---|---|---|
| `KernelHeap.Heap.Alloc` | src/kernel/src/memory/kernel-heap.cc:335-455 | the first free node that fits is taken: the new list, the aligned zeroed data, every other payload word unchanged; null exactly when nothing fits; a panic exactly when the whole trailing block is consumed behind a skip of 44 bytes or more |
| `KernelHeap.Heap.Free` | src/kernel/src/memory/kernel-heap.cc:315-333 | panics exactly when the pointer is not the data of an allocated block other than the last; otherwise the block is free, merged with both neighbours, and no payload has changed |
| `KernelHeap.Heap.constructor` | src/kernel/src/memory/kernel-heap.cc:457-460 | one free node covers the heap, and the counters are right |
| `KernelHeap.Heap.InsertNode` | src/kernel/src/memory/kernel-heap.cc:142-228 | the node list after an insertion, by a new header or by moving the one before; the counters stay right in all cases but one |
| `KernelHeap.Heap.MergeIntoPrevBlock` | src/kernel/src/memory/kernel-heap.cc:231-251 | two free neighbours become one, the dead header loses its sentinel, and the counters follow |
| `KernelHeap.Heap.MaybeMergeWithAdjacents` | src/kernel/src/memory/kernel-heap.cc:255-280 | a used node stays as it is; a free one is joined with every free neighbour, and a panic happens exactly when the counters were wrong before |
| `KernelHeap.Heap.VerifyNode` | src/kernel/src/memory/kernel-heap.cc:62-75 | accepts a node of the list exactly when it is used or has no free neighbour |
| `KernelHeap.Heap.VerifyStats` | src/kernel/src/memory/kernel-heap.cc:84-110 | accepts exactly the counters that a recount of the list gives |
| `KernelHeap.Heap.NodeSize` | src/kernel/src/memory/kernel-heap.cc:78-82 | the words between a header and the next one, or the end of the heap |
| `KernelHeap.Heap.MemMove` | src/kernel/include/os-std/memory.hh:36-50 | the destination reads as the source did, also when the two overlap, and nothing else changes |
| `KernelHeap.FitNodeWraps` | src/kernel/src/memory/kernel-heap.cc:129-138 | the 32-bit comparison gives the right answer if and only if the end of the data does not wrap around to a small address |
| `KernelHeap.HugeRequestFits` | src/kernel/src/memory/kernel-heap.cc:129-138 | a concrete node and a size near 4 GiB that is accepted although it does not fit |
| `KernelHeap.FitNodeExact` | src/kernel/src/memory/kernel-heap.cc:129-138 | without wrap-around, a node is accepted exactly when the aligned request ends inside it |
| `Alignment.RoundAlignIsLeast` | src/kernel/src/memory/kernel-heap.cc:337-348 | the rounded alignment is the least power of two that is at least 4 and at least the request |
| `Alignment.SingleBit` | src/kernel/include/os-std/math.hh:139-151 | a number has one bit set exactly when it is a power of two |
| `Alignment.AlignUpBounds` | src/kernel/include/os-std/math.hh:77-81 | the result of rounding up is the least multiple that is not smaller |
| `HeapBlocks.Conservation` | src/kernel/src/memory/kernel-heap.cc:84-110 | overhead, allocated, hole and trailing free space add up to the size of the heap |
| `HeapBlocks.HolesAreFreeSpace` | src/kernel/src/memory/kernel-heap.cc:89-96 | the hole counter is the free space in front of the last node |
| `HeapLists.InsertStats` | src/kernel/src/memory/kernel-heap.cc:160-227 | how an insertion changes the three recounted sums, for both ways to insert |
| `HeapLists.RemoveStats` | src/kernel/src/memory/kernel-heap.cc:235-244 | how a merge changes the three recounted sums |
| `HeapSpec.PlacedInSteps` | src/kernel/src/memory/kernel-heap.cc:389-428 | the insertions of an allocation, in the order of the code, give the list that the specification states |
| `HeapSpec.AllocWellFormed` | src/kernel/src/memory/kernel-heap.cc:352-449 | an allocation keeps the nodes tiling the heap in order, without adjacent free nodes or empty allocations |
| `HeapSpec.FreedWellFormed` | src/kernel/src/memory/kernel-heap.cc:325-332 | a free keeps that, and its steps give the stated list |
| `HeapSpec.TargetFits` | src/kernel/src/memory/kernel-heap.cc:366-368 | the chosen place is inside the chosen free block, has room for the request, and is aligned |
| `HeapTheorems.SplitInBytes` | src/kernel/src/memory/kernel-heap.cc:352-428 | in bytes: a finished allocation takes its request and at most 44 bytes more behind it; 45 bytes or more behind it, and 44 or more in front of it, become free blocks, and less in front goes to the block before; no free block with fewer than 32 bytes is new |
| `HeapTheorems.AllocKeepsLive` | src/kernel/src/memory/kernel-heap.cc:335-455 | an allocation never moves or shrinks a live block |
| `HeapTheorems.NewIsNotLive` | src/kernel/src/memory/kernel-heap.cc:366-447 | the block that is handed out was nobody's |
| `HeapTheorems.LiveDisjoint` | src/kernel/src/memory/kernel-heap.cc:335-455 | live blocks, with their headers, are disjoint and inside the heap |
| `HeapTheorems.FreeKeepsLive` | src/kernel/src/memory/kernel-heap.cc:315-333 | a free leaves every other live block alone |
| `HeapTheorems.FreeUndoesAlloc` | src/kernel/src/memory/kernel-heap.cc:164-193 | allocating and freeing at once restores the list if and only if no skip of 4 to 40 bytes was absorbed |
| `HeapTheorems.DoubleFreePanics` | src/kernel/src/memory/kernel-heap.cc:322-323 | a second free that follows at once is caught |
| `HeapTheorems.FreeOfLive` | src/kernel/src/memory/kernel-heap.cc:315-333 | while the trailing block is free, a free succeeds if and only if the pointer is live, so any second free panics until the pointer has been handed out again; blocks are identified by their headers in the list, so this is not for pointers into data that looks like a header |
| `HeapTheorems.SmallSkipIsLost` | src/kernel/src/memory/kernel-heap.cc:172-193 | a concrete heap and request whose skip of 20 bytes is lost to the heap by allocating and freeing |
| `HeapTheorems.RunNeverPanics` | src/kernel/src/memory/kernel-heap.cc:62-460 | no run from init whose allocations leave more than 44 bytes of the trailing block, and whose frees name live pointers, ever panics; the trailing block stays free, live blocks are disjoint, and every byte is accounted for |
| `HeapTheorems.RunSafe` | src/kernel/src/memory/kernel-heap.cc:315-460 | after every run of calls that do not panic the list is well-formed, the live blocks are disjoint and inside the heap, and every byte is accounted for |
| `HeapTheorems.StepKeepsInv` | src/kernel/src/memory/kernel-heap.cc:315-455 | the invariant behind RunSafe is kept by each call |
| `HeapTheorems.AllocIsSafe` | src/kernel/src/memory/kernel-heap.cc:352-447 | an allocation that leaves more than 44 bytes of the trailing block never panics and leaves it free |
| `HeapTheorems.FreeIsSafe` | src/kernel/src/memory/kernel-heap.cc:315-333 | while the trailing block is free, freeing a live pointer never panics |
| `HeapTheorems.WholeTrailingBlockPanics` | src/kernel/src/memory/kernel-heap.cc:216-227 | for every heap that was just initialised, and is not very small, a request on which the allocator panics on its own counters |
| `HeapTheorems.LastBlockCannotBeFreed` | src/kernel/src/memory/kernel-heap.cc:325-330 | freeing an allocated last block always panics, since it is counted as a hole |
| `ReadyQueue.Queue.Dequeue` | src/kernel/src/process/proc.cc:116-138 | the front thread leaves the linked queue with null links, or null when it is empty |
| `ReadyQueue.Queue.Enqueue` | src/kernel/src/process/proc.cc:155-160 | a thread without links goes to the back of the linked queue |
| `ReadyQueue.Queue.EnqueueFront` | src/kernel/src/process/proc.cc:180-185 | a thread without links goes to the front of the linked queue |
| `ReadyQueue.Queue.Unlink` | src/kernel/src/process/proc.cc:582-588 | a thread leaves the queue wherever it is; a thread that is not in it changes nothing |
| `Scheduler.Scheduler.Dispatch` | src/kernel/src/process/proc.cc:217-231 | the bookkeeping of a switch: an old thread that is not blocked, and is not the idle thread, enters the queue again |
| `Scheduler.Scheduler.DispatchNext` | src/kernel/src/process/proc.cc:343-362 | which thread runs next, and that the invariant holds again |
| `Scheduler.Scheduler.Yield` | src/kernel/src/process/proc.cc:417-436 | giving up the processor, with and without blocking |
| `Scheduler.Scheduler.Unblock` | src/kernel/src/process/proc.cc:331-340 | a blocked thread goes to the front of the queue (UnblockedRunsNext says what that means); any other call changes nothing |
| `Scheduler.Scheduler.MakeThread` | src/kernel/src/process/proc.cc:481-532 | a new thread with a new number is at the back of the queue |
| `Scheduler.Scheduler.DeleteThread` | src/kernel/src/process/proc.cc:565-606 | a thread leaves queue and table; a running one hands the processor on |
| `Scheduler.Scheduler.Pause` | src/kernel/src/process/proc.cc:669-675 | the scheduler is disabled and the idle thread runs |
| `Scheduler.Scheduler.constructor` | src/kernel/src/process/proc.cc:723-737 | the idle thread runs, and is in the queue as well |
| `SchedTheorems.StepKeepsInv` | src/kernel/src/process/proc.cc:116-606 | no event of the scheduler or of a semaphore loses or duplicates a thread |
| `SchedTheorems.EveryThreadInOnePlace` | src/kernel/src/process/proc.cc:116-606 | in every reachable state each thread but the idle one runs, or is once in the queue, or is blocked and once in one waiting list |
| `SchedTheorems.DeleteInv` | src/kernel/src/process/proc.cc:579-606 | deleting any thread but the idle one keeps the scheduler's invariant |
| `SchedFairness.BoundedBypass` | src/kernel/src/process/proc.cc:343-362 | a thread at place k of the queue is passed over at most k + u times, u being the threads unblocked meanwhile |
| `SchedFairness.StepPosition` | src/kernel/src/process/proc.cc:116-362 | every dispatch brings a waiting thread one place forward; only an unblocked thread can get in front |
| `SchedOrder.UnblockedRunsNext` | src/kernel/src/process/proc.cc:331-337 | a woken thread is at place 0, everyone else one place further back, and it is the next thread to run |
| `SchedOrder.PostRunsOldestWaiter` | src/kernel/src/ipc/semaphore.cc:23-43 | after a signal the next preemption runs the oldest waiter that exists, before all that were ready |
| `SchedOrder.PostAllReverses` | src/kernel/src/ipc/semaphore.cc:45-55 | after signal_all the waiters that exist are in front of the queue, the latest one first, and the next preemption runs that one |
| `SchedOrder.StartedIsLast` | src/kernel/src/process/proc.cc:481-532 | a new thread is behind all that are ready, whose places stay |
| `SchedOrder.DispatchRunsFront` | src/kernel/src/process/proc.cc:343-362 | who runs after each event: a dispatch runs the front of the queue; with an empty queue a preempted thread goes on, and one that stops is followed by the idle thread; other events leave the processor alone, but for a pause |
| `SchedOrder.SomebodyRuns` | src/kernel/src/process/proc.cc:343-362 | in every reachable state some thread runs |
| `SchedOrder.PausedRunsIdle` | src/kernel/src/process/proc.cc:343-347 | from a pause until the scheduler is resumed only the idle thread runs, whatever happens |
| `SchedOrder.RoundRobin` | src/kernel/src/process/proc.cc:186-231 | k preemptions turn the line of the running and the ready threads by k places; after a full turn the scheduler is as it was |
| `RingQueue.Queue.Enqueue` | src/kernel/include/os-std/queue.hh:78-85 | appends when there is room, and changes nothing otherwise |
| `RingQueue.Queue.Dequeue` | src/kernel/include/os-std/queue.hh:102-109 | takes the oldest element, or reports that there is none |
| `Semaphore.Semaphore.Signal` | src/kernel/src/ipc/semaphore.cc:23-43 | the oldest waiting thread that exists is unblocked and dead ones are dropped; with none, the counter goes up |
| `Semaphore.Semaphore.SignalAll` | src/kernel/src/ipc/semaphore.cc:45-55 | every waiting thread that exists is unblocked, in order, and the counter stays |
| `Semaphore.Semaphore.Wait` | src/kernel/src/ipc/semaphore.cc:57-73 | takes a token, or joins the waiting list and blocks, or panics when the list is full |
| `Semaphore.Semaphore.TryWait` | src/kernel/src/ipc/semaphore.cc:75-83 | takes a token if there is one |
| `SchedFairness.TokensConserved` | src/kernel/src/ipc/semaphore.cc:23-83 | initial count and signals equal the counter and the completed waits, on every run |
| `SchedFairness.SignalGrantsOldest` | src/kernel/src/ipc/semaphore.cc:29-42 | a signal grants the oldest live waiter; only dead ones are skipped |
| `SchedFairness.NoOvertaking` | src/kernel/src/ipc/semaphore.cc:23-73 | of two live waiters the later one never gets ahead |
| `SchedFairness.MutualExclusion` | src/kernel/src/ipc/semaphore.hh:47-57 | a mutex has at most one holder on every run, and is free exactly when it has none |
| `KQueue.KQueue.Enqueue` | src/kernel/src/ipc/queue.hh:84-89 | the blocking enqueue up to its end or its wait, on the ring, both semaphores and the scheduler |
| `KQueue.KQueue.Dequeue` | src/kernel/src/ipc/queue.hh:116-120 | the blocking dequeue up to its end or its wait; it gives the oldest item |
| `KQueue.KQueue.Put` | src/kernel/src/ipc/queue.hh:73-82 | the item enters the ring and an item is signalled |
| `KQueue.KQueue.Get` | src/kernel/src/ipc/queue.hh:100-114 | the oldest item leaves the ring and space is signalled |
| `KQueue.KQueue.TryEnqueue` | src/kernel/src/ipc/queue.hh:91-98 | puts the item in if there is space, without waiting |
| `KQueue.KQueue.TryDequeue` | src/kernel/src/ipc/queue.hh:122-129 | takes the oldest item if there is one, without waiting |
| `KQueueTheorems.BoundedFifo` | src/kernel/src/ipc/queue.hh:38-129 | on every run, under every interleaving at the waits, the queue holds at most n items, items come out in the order they went in, and the unchecked assumptions of lines 65, 74 and 101 hold |
| `KQueueTheorems.AlwaysSound` | src/kernel/src/ipc/queue.hh:73-114 | whenever an operation gets to run there is room, or an item, for it |
| `KQueueTheorems.ActKeeps` | src/kernel/src/ipc/queue.hh:38-129 | each action keeps items, free slots, tokens and woken threads in balance |
| `KQueueTheorems.NoLostWakeup` | src/kernel/src/ipc/queue.hh:84-120 | when a reader waits, every item belongs to a woken reader; likewise for writers |
| `KQueueTheorems.NoDeadlock` | src/kernel/src/ipc/queue.hh:84-120 | readers and writers never all wait for each other |
| `KQueueTheorems.QuietPutLosesItem` | src/kernel/src/ipc/queue.hh:64-71 | the overload for const references, which does not signal, leaves an item that no token stands for |
| `BlockCache.Cache.GetCacheEntry` | src/kernel/src/filesystem/fat32.cc:20-38 | the slot that holds the block, or the least recently used one, gets the new time stamp |
| `BlockCache.Cache.GetBlock` | src/kernel/src/filesystem/fat32.cc:70-102 | the block as the device has it; the order of use changes as true LRU says; a failed read empties the slot |
| `BlockCache.Cache.constructor` | src/kernel/src/filesystem/fat32.hh:41-58 | an empty cache of the given size |
| `LruSpec.TrueLru` | src/kernel/src/filesystem/fat32.cc:20-38 | after every run of lookups the cache holds exactly the most recently requested distinct blocks, in order, failed lookups in their places, none twice |
| `LruSpec.WindowTouch` | src/kernel/src/filesystem/fat32.cc:20-38 | one lookup moves the window over the recently used blocks |
| `Fat32.Fat32.GetNextCluster` | src/kernel/src/filesystem/fat32.cc:108-125 | ends where following that many links of the table ends, with the same error |
| `Fat32.Fat32.Read` | src/kernel/src/filesystem/fat32.cc:364-418 | the bytes of the file as far as request and file go, the rest of the buffer unchanged; or a failure as a whole, decided by the first block that cannot be had |
| `Fat32.Fat32.ReadBlock` | src/kernel/src/filesystem/fat32.cc:400-413 | one block: as many bytes as block, request and file allow |
| `FatSpec.BlocksAt` | src/kernel/src/filesystem/fat32.cc:381-401 | block q of the concatenated chain is the one that the driver computes for it |
| `FatSpec.ContentAt` | src/kernel/src/filesystem/fat32.cc:381-411 | byte p of the contents is the one that the driver copies |
| `FatGeometry.ClustersInRow` | src/kernel/src/filesystem/fat32.cc:401-401 | the data begin with cluster 2; blocks of a cluster follow each other, and so do clusters, without gaps |
| `FatGeometry.BlocksDiffer` | src/kernel/src/filesystem/fat32.cc:401-401 | different blocks of clusters are different blocks of the volume |
| `FatGeometry.FilesApart` | src/kernel/src/filesystem/fat32.cc:364-418 | files whose chains have no cluster in common have no block in common |
| `FatGeometry.FileBlocksOnce` | src/kernel/src/filesystem/fat32.cc:364-418 | a file whose chain has no cycle has every block once |
| `FatGeometry.NextIs` | src/kernel/src/filesystem/fat32.cc:114-123 | the driver reads as the next cluster the number whose four bytes, the least significant first, are in the table at 4 times the cluster |
| `FatGeometry.EndsOfChains` | src/kernel/src/filesystem/fat32.cc:104-106 | which numbers end a chain |
| `FatGeometry.TwoClusterFile` | src/kernel/src/filesystem/fat32.cc:364-418 | every volume with two blocks to a cluster, whose table, byte by byte, links cluster 3 to cluster 5 and ends there: a read of the 2048 bytes gives the blocks 12, 13, 16 and 17 |
| `FatGeometry.TwoClustersExist` | src/kernel/src/filesystem/fat32.cc:364-418 | there is such a volume |
| `FatGeometry.TwoClusterEnd` | src/kernel/src/filesystem/fat32.cc:104-125 | the chain of that file ends behind its second cluster |
| `FatGeometry.DeviceError` | src/kernel/src/filesystem/fat32.cc:400-403 | a read that needs a block that the device does not give fails with the number of an I/O error |
| `FatTheorems.ReadExact` | src/kernel/src/filesystem/fat32.cc:364-418 | from a file whose chain is complete, a read of any length at any offset gives precisely those bytes of the contents |
| `FatTheorems.ShortChain` | src/kernel/src/filesystem/fat32.cc:383-389 | when the chain is shorter than the file, a read is exact if and only if it ends within the chain, and otherwise returns 0 |
| `FatTheorems.EarlyEnd` | src/kernel/src/filesystem/fat32.cc:383-389 | a concrete volume with a file of 1024 bytes in a chain of 512: reading 512 bytes gives them, reading 1024 gives nothing |
| `FatTheorems.WholeFile` | src/kernel/src/filesystem/vfs.cc:739-762 | the pieces of reads are the whole file if and only if their sizes add up to it, and then a further piece is empty |
| `FatTheorems.WholeFileInTime` | src/kernel/src/filesystem/vfs.cc:739-762 | reads of any positive sizes give the whole file after at most as many reads as it has bytes |
| `FatTheorems.PiecesJoin` | src/kernel/src/filesystem/vfs.cc:755-761 | the pieces of consecutive reads join without gaps or overlaps |
| `FatTheorems.AcyclicEnds` | src/kernel/src/filesystem/fat32.cc:104-125 | a chain without a cycle ends or breaks off |
| `FatTheorems.AcyclicDirectory` | src/kernel/src/filesystem/fat32.cc:276-287 | a directory with such a chain has an end, which is what enumeration needs to terminate |
| `FileHandle.Handle.Read` | src/kernel/src/filesystem/vfs.cc:739-762 | reads at the position and moves it by the result; directories and handles not open for reading give an error |
| `FileHandle.Handle.ReadPieces` | src/kernel/src/filesystem/vfs.cc:739-762 | a run of reads of any sizes through one handle returns exactly the pieces of the contents, one after the other, from its position on |
| `FileHandle.Handle.ReadWhole` | src/kernel/src/filesystem/vfs.cc:739-762 | reads whose sizes add up to the file return the whole of it, and then a read returns 0 |
| `FileHandle.Handle.Cat` | src/user/cat/main.cc:38-52 | reading until 0 gives exactly the contents of the file |
| `FatDir.ReadDir` | src/kernel/src/filesystem/fat32.cc:270-362 | goes on to the next visible entry, or to the end of the directory, and reports which |
| `FatDir.Examine` | src/kernel/src/filesystem/fat32.cc:310-357 | which raw entries are passed on; their names are not empty, have at most 12 characters in lower case, and no slash, leading dot or trailing white space |
| `FatDir.BuildName` | src/kernel/src/filesystem/fat32.cc:316-330 | pushing the characters, trimming and lowering them gives the 8.3 name of the entry |
| `FatFormat.EntryRoundTrip` | src/kernel/src/filesystem/fat32.cc:210-346 | an entry laid out by the FAT Specification, section 6, from any valid name and extension, attributes, cluster and size, is read back as written, in lower case; disks and volume labels are passed over |
| `FatFormat.Markers` | src/kernel/src/filesystem/fat32.cc:310-317 | a first byte of 0 ends the directory, and nothing else does; 0xe5 marks a deleted entry |
| `FatFormat.BadNamesHidden` | src/kernel/src/filesystem/fat32.cc:335-337 | entries with a leading dot or a slash in their name are passed over |
| `FatFormat.LiteralEntry` | src/kernel/src/filesystem/fat32.cc:210-346 | 32 literal bytes read as the file a.txt of 5 bytes in cluster 3 |
| `FatFormat.SlotBytes` | src/kernel/src/filesystem/fat32.cc:276-308 | entry i of a directory is in the bytes from 32 * i on of its contents |
| `FatDir.ReadDirLists` | src/kernel/src/filesystem/fat32.cc:270-362 | each call gives the next entry of the listing and leaves the rest |
| `FatDir.EnumerationExact` | src/kernel/src/filesystem/fat32.cc:270-362 | enumeration passes on every visible entry before the end, each once, in the order of the disk, and no other |
| `FatDir.ListingComplete` | src/kernel/src/filesystem/fat32.cc:310-357 | an entry is in the listing if and only if it is visible and before the end |
| `FatDir.Lookup` | src/kernel/src/filesystem/filesystem.cc:19-39 | succeeds if and only if a visible entry has the name, and gives the first one |
| `Strings.Str.Push` | src/kernel/include/os-std/string.hh:219-226 | appends a character, or drops it when the string is full |
| `Strings.Str.Append` | src/kernel/include/os-std/string.hh:206-217 | appends up to the first NUL or the capacity |
| `Strings.Str.Pop` | src/kernel/include/os-std/string.hh:131-139 | drops characters at the end |
| `Paths.CanonicalisePath` | src/kernel/src/filesystem/vfs.cc:280-326 | equals the specification of normalisation on strings, with all capacities |
| `Paths.PushComponent` | src/kernel/src/filesystem/vfs.cc:293-305 | the component goes on the path and is cleared |
| `Paths.PopPathComponent` | src/kernel/src/filesystem/vfs.cc:229-241 | the last name comes off the path |
| `Paths.Basename` | src/kernel/src/filesystem/vfs.cc:254-278 | splits a path at its last slash, in place |
| `PathTheorems.NormalisationResolves` | src/kernel/src/filesystem/vfs.cc:280-326 | normalisation is resolving the components over a stack of names, and gives an absolute path without empty, dot or dot-dot components and without a trailing slash |
| `PathTheorems.NormalisationFolds` | src/kernel/src/filesystem/vfs.cc:280-326 | for names of any length: the result resolves the names as they are cut, is in normal form, and has names of at most 64 characters |
| `PathTheorems.NormalisationIdempotent` | src/kernel/src/filesystem/vfs.cc:280-326 | normalising any path twice, in any working directories, is normalising it once |
| `PathTheorems.NormalFormStays` | src/kernel/src/filesystem/vfs.cc:280-326 | a path in normal form stays as it is, whatever the working directory |
| `PathTheorems.PoppedJoin` | src/kernel/src/filesystem/vfs.cc:229-241 | popping takes exactly the last name off a path in normal form |
| `PathTheorems.ShortPathFits` | src/kernel/src/filesystem/vfs.cc:281-282 | a path and a working directory that are short enough together never overflow on the way |
| `PathTheorems.BasenameSplits` | src/kernel/src/filesystem/vfs.cc:254-278 | the base name of a path in normal form is its last name, and rejoins with the parent, if and only if that name has at most 64 characters |
| `PathTheorems.BasenameRejoins` | src/kernel/src/filesystem/vfs.cc:254-278 | every normalised path other than the root splits into a parent in normal form and a name, which rejoin to it |
| `PathTheorems.FullPathDropsNames` | src/kernel/include/os-std/string.hh:206-217 | in a full path string a further name is dropped without a sign |
| `PathLaws.Compose` | src/kernel/src/filesystem/vfs.cc:280-326 | for all strings, also too long ones: the path p/q leads where q leads from where p leads |
| `PathLaws.FromRoot` | src/kernel/src/filesystem/vfs.cc:280-326 | a path that begins with a slash is found from the root, whatever the working directory, and the empty path is the root |
| `PathLaws.SpareSlashes` | src/kernel/src/filesystem/vfs.cc:293-319 | slashes at the end and double slashes change nothing |
| `PathLaws.OneComponent` | src/kernel/src/filesystem/vfs.cc:293-305 | two dots drop the last name of the working directory, if there is one; one dot stays; a name goes one further |
| `Vfs.Vfs.Open` | src/kernel/src/filesystem/vfs.cc:391-511 | the descriptor or the first thing that is wrong; a failing open changes nothing; otherwise the descriptor asked for, or the lowest free one from 3 on, is a new handle on the file with the path, with the flags asked for and those they imply, all permitted by type and mode; it is registered everywhere, for a known or a new file |
| `Vfs.OpenErrors` | src/kernel/src/filesystem/vfs.cc:414-466 | which error an open reports, as a number, in which order: no slot for the file, not found, wrong type, no permission, no slot for the handle or its descriptor, descriptor not free |
| `Vfs.Vfs.Close` | src/kernel/src/filesystem/vfs.cc:682-724 | the handle leaves all tables, and its file with its last handle |
| `Vfs.Vfs.DuplicateFd` | src/kernel/src/filesystem/vfs.cc:523-565 | a copy of the handle enters the tables, which can be used afterwards if and only if the source was the last handle of its file; or nothing changes |
| `Vfs.Vfs.TransplantFd` | src/kernel/src/filesystem/vfs.cc:567-595 | the handle moves; the tables can be used afterwards if and only if the descriptor was free |
| `Vfs.Vfs.MakePipe` | src/kernel/src/filesystem/vfs.cc:597-680 | a new file with a reading and a writing end, linked to each other and registered in free slots, or nothing at all when there is no room for both |
| `Vfs.Vfs.DuplicatePipe` | src/kernel/src/filesystem/vfs.cc:523-680 | duplicating the reading end of a new pipe breaks the tables whenever it succeeds |
| `Vfs.Vfs.FindOpenFile` | src/kernel/src/filesystem/vfs.cc:210-216 | the open file with the path, or -1 exactly when no open file has it |
| `Vfs.Vfs.FindFree` | src/kernel/src/filesystem/vfs.cc:185-208 | the first free number from a start on, or an error |
| `Vfs.Vfs.HandleByFd` | src/kernel/src/filesystem/vfs.cc:514-521 | the handle behind a descriptor of the process |
| `VfsTheorems.AppendOk` | src/kernel/src/filesystem/vfs.cc:493-507 | a handle at the end of its file's list keeps the tables consistent |
| `VfsTheorems.OpenWithOk` | src/kernel/src/filesystem/vfs.cc:474-507 | so does a new file with its first handle, given a path that is not open |
| `VfsTheorems.OpenPairOk` | src/kernel/src/filesystem/vfs.cc:638-674 | so does a pipe with both ends |
| `VfsTheorems.ClosedOk` | src/kernel/src/filesystem/vfs.cc:695-721 | so does closing any handle |
| `VfsTheorems.DuplicateIsConsistent` | src/kernel/src/filesystem/vfs.cc:546-559 | the exact condition under which a duplicate keeps the lists |
| `VfsTheorems.PipeCopyBreaks` | src/kernel/src/filesystem/vfs.cc:546-559 | copying the reading end of any pipe that was just made breaks the tables |
| `VfsTheorems.MoveIsConsistent` | src/kernel/src/filesystem/vfs.cc:585-590 | the exact condition under which a moved handle keeps the tables |
| `VfsTheorems.PipeMoveBreaks` | src/kernel/src/filesystem/vfs.cc:585-590 | moving the reading end of any pipe that was just made to the descriptor of its writing end breaks the tables |
| `VfsTheorems.FirstPipeBreaks` | src/kernel/src/filesystem/vfs.cc:546-590 | both, for the first pipe of a system |
| `VfsTheorems.OnePlaceEach` | src/kernel/src/filesystem/vfs.cc:71-76 | in consistent tables each handle has one global slot and one descriptor, and a file is open exactly when a handle refers to it |
| `VfsSteps.StepKeeps` | src/kernel/src/filesystem/vfs.cc:391-724 | each call of open, close, duplicate_fd, transplant_fd and make_pipe keeps the tables consistent if and only if a duplicate is one of a last handle and a transplant goes to a free descriptor |
| `VfsSteps.RunConsistent` | src/kernel/src/filesystem/vfs.cc:391-724 | on every run of these calls from empty tables, these stay consistent at every point if and only if all duplicates and transplants are such |
| `VfsSteps.RunOnePlaceEach` | src/kernel/src/filesystem/vfs.cc:391-724 | after every such run each handle is in one global slot and one descriptor, and a file is open if and only if a handle refers to it |
| `VfsAccess.CheckCases` | src/kernel/src/filesystem/vfs.cc:395-447 | when a file may be opened, in the octal digits of its mode, and the error number otherwise: a directory exactly with the flag for it and never to be written |
| `VfsAccess.RunPermitted` | src/kernel/src/filesystem/vfs.cc:391-680 | after every run of calls that keeps the tables consistent each handle, also a copied, moved or pipe one, has only flags that the type and the mode of its file permit |
| `VfsAccess.StepKeepsOthers` | src/kernel/src/filesystem/vfs.cc:391-724 | each call leaves all other handles, files and descriptors as they were, except for the links of the lists |
| `VfsAccess.OpenKnownGives` | src/kernel/src/filesystem/vfs.cc:482-511 | what the new descriptor of a file that is open already stands for |
| `VfsAccess.OpenNewGives` | src/kernel/src/filesystem/vfs.cc:471-511 | what the new descriptor of a file that was not open stands for |
| `VfsAccess.CopyAndMoveKeep` | src/kernel/src/filesystem/vfs.cc:546-590 | a copy is for the same file with the same flags and position; a moved handle keeps all but its descriptor |
| `VfsAccess.PipeEnds` | src/kernel/src/filesystem/vfs.cc:638-680 | the first descriptor of a new pipe can be read and not written, the second one written and not read, and both are at the same new file |
| `Bits.BitSetRange` | src/kernel/include/os-std/math.hh:104-111 | exactly the given bits of a word change |
| `Bits.BitSet` | src/kernel/include/os-std/math.hh:98-101 | exactly one bit changes |
| `Bits.BitGet` | src/kernel/include/os-std/math.hh:94-97 | the bit at the place |
| `Bits.CountTrailing0s` | src/kernel/include/os-std/math.hh:174-188 | the lowest bit that is set |
| `Bitset.Bitset.SetRange` | src/kernel/include/os-std/bitset.hh:80-98 | exactly the given interval of bits changes, across words |
| `Bitset.Bitset.Set` | src/kernel/include/os-std/bitset.hh:56-57 | exactly one bit of the set changes |
| `Bitset.Bitset.Get` | src/kernel/include/os-std/bitset.hh:61-61 | the bit at the place |
| `PhysicalMemory.Allocator.FindNextFreePage` | src/kernel/src/memory/manager-physical.cc:63-80 | the lowest free page from the word of the start page on, or 0 when there is none |
| `PhysicalMemory.Allocator.AllocateOne` | src/kernel/src/memory/manager-physical.cc:82-97 | the lowest free page of all, which nobody has, or 0 exactly when none is free; the counters follow |
| `PhysicalMemory.Allocator.FreeOne` | src/kernel/src/memory/manager-physical.cc:99-107 | a page that was handed out is free again, the hint is right, and the counters follow |
| `PhysicalMemory.Allocator.MarkRegionFree` | src/kernel/src/memory/manager-physical.cc:125-160 | exactly the pages that lie in the region as a whole become free |
| `PhysicalMemory.SpanIs` | src/kernel/src/memory/manager-physical.cc:136-156 | the rounding picks exactly the pages inside the region, and stays within the bitmap if and only if the last of them is below 4 GiB |
| `PhysicalMemory.Allocator.constructor` | src/kernel/src/memory/manager-physical.cc:162-188 | the free pages are those of the memory map behind the kernel, and page 0 is not one of them |
| `PhysicalMemory.PagesConserved` | src/kernel/src/memory/manager-physical.cc:82-107 | on every run of the steps that AllocateOne and FreeOne take, no page is free and handed out at once or lost, and the counters follow |
| `PhysicalMemory.NeverTwice` | src/kernel/src/memory/manager-physical.cc:82-97 | between two allocations of the same page it is given back |
| `AddressSpaces.Manager.GetTab` | src/kernel/src/memory/manager-virtual.cc:156-185 | a missing table is made from a free page; no mapping changes and no page is lost |
| `AddressSpaces.Manager.Switch` | src/kernel/src/memory/manager-virtual.cc:212-219 | the space is the current one, also when the one before has been deleted |
| `AddressSpaces.Manager.MapOne` | src/kernel/src/memory/manager-virtual.cc:254-275 | succeeds if and only if there are enough free pages for the page and for its table; then just these are taken and the page has the flags and the memory asked for; every other mapping, in every space, is as it was |
| `AddressSpaces.Manager.Map` | src/kernel/src/memory/manager-virtual.cc:280-299 | always reports success; the whole range is mapped afterwards if and only if the free pages before were enough for the range and its missing tables; every mapped page has the flags asked for, and page p the memory phy + p, or a page that was free; all other mappings, in every space, and the directory entries of the kernel are as they were, and new tables can be reached by the user |
| `SpaceMaps.AddressParts` | src/kernel/src/memory/manager-virtual.cc:122-131 | which table and which entry an address belongs to, and where the part of the user begins |
| `AddressSpaces.Manager.MapWithoutMemory` | src/kernel/src/memory/manager-virtual.cc:280-299 | with no free page, a page stays unmapped although success is reported |
| `AddressSpaces.Manager.UnmapOne` | src/kernel/src/memory/manager-virtual.cc:222-240 | the page is not mapped, what it owned is free, and no other mapping in any space changes; no page is lost |
| `AddressSpaces.Manager.Unmap` | src/kernel/src/memory/manager-virtual.cc:243-249 | exactly the pages of the range are not mapped any more; every other mapping, in every space, is as it was |
| `AddressSpaces.Manager.IsMapped` | src/kernel/src/memory/manager-virtual.cc:326-345 | true exactly when all pages of the range are mapped |
| `AddressSpaces.Manager.MakeSpace` | src/kernel/src/memory/manager-virtual.cc:347-386 | a space with the kernel's entries and no pages of its own |
| `AddressSpaces.Manager.DeleteSpace` | src/kernel/src/memory/manager-virtual.cc:388-423 | exactly the pages that the space owns are given back, each once, and other spaces keep theirs, also when it is the current one; exactly then the current space does not exist afterwards |
| `AddressSpaces.Manager.Lifetime` | src/kernel/src/memory/manager-virtual.cc:347-423 | a space that is made, switched to, filled with any segments, partly unmapped and deleted, as the current one or not, gives back exactly the pages that it took, even if memory ran out on the way; other spaces keep theirs |
| `AddressSpaces.Manager.ExitLeavesNoSpace` | src/kernel/src/process/proc.cc:802-808 | a process that exits in its own space gives back its pages, and the current space is one that does not exist |
| `SpaceTheorems.PagesOfSpaceOwn` | src/kernel/src/memory/manager-virtual.cc:397-414 | the pages that the two loops visit are exactly the pages that the space owns |
| `SpaceTheorems.WithoutOwned` | src/kernel/src/memory/manager-virtual.cc:388-423 | after deleting, every remaining page still has one owner and no page given back has any |
| `SpaceTheorems.WithTableOwned` | src/kernel/src/memory/manager-virtual.cc:156-185 | installing a table with harmless contents keeps single ownership |
| `SpaceTheorems.WithEntryOwned` | src/kernel/src/memory/manager-virtual.cc:254-275 | writing an entry keeps single ownership |
| `SpaceTheorems.DirtyTable` | src/kernel/src/memory/manager-virtual.cc:165-178 | a page may become a table if and only if each of its old entries is absent, borrowed, or owns a page that was handed out and is nobody's, each once |
| `SpaceTheorems.OwnsWhatWasTaken` | src/kernel/src/memory/manager-virtual.cc:347-423 | a space owns exactly the pages that were free before it was made and are not now |
| `SpaceTheorems.RecycledTable` | src/kernel/src/memory/manager-virtual.cc:165-178 | the table of a deleted space that owned pages breaks single ownership when it becomes a table again with its old entries |
| `SpaceTheorems.RemapLosesPage` | src/kernel/src/memory/manager-virtual.cc:254-275 | writing over an entry loses no page if and only if the entry owned none; otherwise its page is neither free nor anybody's |
| `Tokenizer.Splitter.SplitArgs` | src/user/shell/main.cc:36-93 | the views of the result read, in the final line, as the arguments that a pure tokenizer finds in the original line; the code looks behind its array if and only if spaces end 32 arguments or more |
| `Tokenizer.BoundsOf` | src/user/shell/main.cc:36-93 | lines with fewer than 32 arguments stay within the array, and lines with more than 32 do not |
| `Tokenizer.LineBounds` | src/user/shell/main.cc:36-93 | a line of arguments with a space behind each stays within the array if and only if there are fewer than 32 of them |
| `Tokenizer.PutStep` | src/user/shell/main.cc:56-85 | writing a character overwrites no finished argument and nothing that is still to be read |
| `Tokenizer.QuotingRoundTrip` | src/user/shell/main.cc:56-85 | arguments typed with their spaces and backslashes escaped are read back as they were |
| `Tokenizer.SpellingRoundTrip` | src/user/shell/main.cc:56-85 | words are read as meant, however their characters are typed (as themselves, or escaped, or the characters 10, 13, 27 and 12 as an escaped n, r, e and f) and with any number of spaces between them |
| `Tokenizer.EveryCharSpelled` | src/user/shell/main.cc:65-69 | every character can be typed, and an escaped one reads as itself but for n, r, e and f |
| `Numbers.FormatU64` | src/kernel/include/os-std/fmt.hh:126-204 | prints the decimal digits, and returns the number of characters printed |
| `Numbers.FormatS64` | src/kernel/include/os-std/fmt.hh:208-212 | prints a sign for negative numbers |
| `Numbers.StringToU64` | src/kernel/include/os-std/string.hh:444-459 | accepts exactly the non-empty lists of digits whose value fits in 64 bits, and gives that value |
| `Numbers.StringToS64` | src/kernel/include/os-std/string.hh:463-488 | accepts exactly an optional sign and digits whose value fits |
| `Numbers.UnsignedRoundTrip` | src/kernel/include/os-std/fmt.hh:126-204 | a printed number is parsed back as itself and as nothing else |
| `Numbers.ParsedPrints` | src/kernel/include/os-std/string.hh:444-459 | an accepted list of digits is what its value prints as, exactly when it has no leading zero |
| `Numbers.SignedRoundTrip` | src/kernel/include/os-std/fmt.hh:208-212 | a printed signed number is parsed back as itself and as nothing else |
| `Numbers.DecimalValue` | src/kernel/include/os-std/fmt.hh:162-176 | the digits that are printed have the value of the number |
| `Numbers.DecimalDigit` | src/kernel/include/os-std/fmt.hh:162-176 | the character at place k from the end has the code 48 plus the k-th decimal digit, and there are as many characters as the number needs |

## Left out

Parts of the repository that are not modelled:

- Stack switching, interrupt frames and timers: only the queue, the running thread, the blocked flags and the thread table are kept.
- Pausing and resuming of user space, which the source leaves unimplemented (proc.cc:364-397); the model is of a kernel with user space running.
- The deletion of processes: closing files by descriptor through the current process and freeing the address space are not tied to the death of the last thread; threads of all processes are in one table, and the panic for killing the first process and the wait for the file system lock (proc.cc:570-577) are not modelled.
- Writing to FAT32 volumes, seeking from the end or the current position, pipe data, unlinking, renaming and making directories.
- Formatting with widths, prefixes and size units, where the returned count is not the number of characters printed.
- Mounting, path lookup across file systems, device drivers, the ELF loader, system calls, other user programs.
- Allocation failure of `new`, concurrent cache fills and TLB effects: fills are atomic, `new` always succeeds, page tables are plain memory.
- `last_node` of the heap, which a merge does not maintain and which is only printed.

Where a contract is weaker than the source, or uses a simpler form:

- KernelHeap.Heap.Alloc: addresses and sizes are in words of 4 bytes, as all of them are multiples of 4; memory is moved and cleared word by word. Requests must be small enough not to wrap around 32 bits; what happens otherwise is stated by FitNodeWraps for one node.
- KernelHeap.Heap.Free: the pointer is below the heap, behind a header, or behind a word that is no sentinel; a pointer into data that happens to look like a header is not covered.
- KernelHeap.Heap.InsertNode: the case without a previous node occurs only in `init` and is part of the constructor.
- KernelHeap.Heap.VerifyNode: for a node of the list.
- Scheduler.Scheduler.Dispatch: the list of threads of a process is a map from numbers to threads, so that finding a thread by its number is one step.
- SchedFairness.BoundedBypass: stated for as long as the thread has not been dispatched, on runs that do not disable the scheduler.
- SchedFairness.MutualExclusion: for users that lock and unlock in turn; a holder that is killed keeps the lock.
- KQueueTheorems.BoundedFifo: no thread is killed while it is inside an operation on the queue, and nobody else uses the queue's semaphores; a capacity of 0 is allowed here but not in the class.
- KQueue.KQueue.Enqueue: a waiting operation is two methods, since a Dafny method cannot give up the processor; destroying items is not modelled.
- BlockCache.Cache.GetBlock: the order of use is promised until the 32-bit time stamps wrap around; contents and absence of duplicates are promised for ever. A failed read leaves the old data in the emptied slot.
- Fat32.Fat32.Read: block numbers within the chain fit in 32 bits and are not 0xffffffff, the mark of an empty slot; the device does not change. The lock of the allocation table is not modelled.
- FatDir.ReadDir: the directory has an end, as every chain without a cycle has (AcyclicDirectory).
- Paths.CanonicalisePath: the working directory begins with a slash.
- PathTheorems.NormalisationResolves: for paths without NUL whose names and intermediate results fit their strings; NormalisationFolds has names of any length, and longer paths are cut as Canonicalised says.
- Vfs.Vfs.Open: handles and files are numbered records instead of heap objects, and the fixed-size tables are sequences; what the mounted file systems say about a path is a parameter. The path of a pipe is its number.
- Vfs.Vfs.Close: waiting for another user of the handle is not modelled.
- Vfs.Vfs.TransplantFd: the new descriptor is in the table of its process.
- PhysicalMemory.Allocator.MarkRegionFree: the last whole page of a region is within 4 GiB (SpanIs); the source would write behind its bitmap otherwise. Overlapping regions are counted twice in the free counter, as in the source.
- PhysicalMemory.Allocator.FreeOne: for pages that were handed out and not yet given back; freeing twice skews the counters, as the source says itself.
- Bits.BitSetRange: a word is the list of its bits.
- AddressSpaces.Manager.Map: pages are mapped over unmapped user pages only, and either borrowed with a given page of memory or owned and taken from the allocator; addresses are page numbers. Kernel entries are copied but not otherwise modelled.
- AddressSpaces.Manager.MapOne: as Map; what mapping over a mapped page does is stated by RemapLosesPage.
- AddressSpaces.Manager.IsMapped: for a range of whole pages; the rounding of byte addresses is not modelled.
- AddressSpaces.Manager.MakeSpace: the page directory and its recursive table are on the heap, which is not the allocator's concern; they are not modelled as pages.
- AddressSpaces.Manager.GetTab: a new table page holds no present entry, although the source does not clear it (see DirtyTable and RecycledTable).
- Numbers.FormatS64: not for the least 64-bit number, whose negation overflows.
