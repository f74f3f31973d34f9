# icariusOS verification

A Dafny model of the parts of the icariusOS kernel that keep data structures under load, with proofs about
every call and every run of them:

- **Kernel heap** (`ChunkMap`, `KernelHeap`, `Words`). `ChunkMap` says what an allocation and a release mean on a
  map of 4 KiB chunks. `KernelHeap.Heap` is the allocator itself, with headers and links in raw memory, and is proved
  to refine that map, growth in the middle of an allocation included.
- **User-space malloc** (`UserSpace`, `Sequences`, `BlockLists`, `UserMalloc`). Two intrusive lists over headers in the same
  memory as the payloads, best fit, splitting, coalescing, `realloc` and `calloc`.
- **FAT16 on a sector device** (`SectorStream`, `FatVolume`, `FatChains`, `Fat16`). From one-sector reads and writes up
  to "what was written is what is read", on every volume whose FAT 1 is on the disk.
- **Scheduler** (`Queues`, `SchedulerModel`, `SchedulerRuns`, `Scheduler`). A step system over values, whole runs of it,
  and the kernel's rings and task table refining each step.
- **Physical frames and processes** (`Frames`, `Processes`). A bitmap that agrees with who owns which frame across
  spawn and exit.
- **Paths and numbers** (`PathLexer`, `PathParser`, `Numbers`). Printing and reading back, over the real buffers.

`dafny verify dfyconfig.toml` checks the whole project.

## Findings

Where the code does not do what one would expect of it, the model follows the code, and the exact condition is proved.

- The kernel heap passes its limit (the kernel stack bottom) exactly when the first accepted request asks for all 7168
  chunks at once: the growth inside the marking loop (heap.c lines 199-201, `KernelHeap.Heap.Mark`) then appends an
  eighth page (`ChunkMap.GrowthBound`, `KernelHeap.RunBound`).
- The guard of `_malloc` also accepts every request whose end address wraps 32 bits (`KernelHeap.GuardUnderWrap`).
- User-space `free` leaves `heap_tail` behind when a merge absorbs the last block, and only then
  (`UserMalloc.Allocator.Release`). Both lists survive that. A later `malloc`, `calloc` or `realloc` that has to make a
  new block then loses the heap list, and only then (`UserMalloc.Allocator.Malloc`). Its store through the stale tail
  changes the payload of a live block exactly when the last block is live and does not already hold that word
  (`UserMalloc.TailStoreMeaning`). `UserMalloc.StaleTailRun` is a run that loses the list, `UserMalloc.CorruptingRun`
  one in which an allocation overwrites a payload that its owner has just cleared.
- `fat16_get_next_free_cluster` scans the same 65525 entries on every volume. It returns a cluster of the volume exactly
  when one is free there (`FatVolume.ScanMeaning`); on a full volume like the repository's own image it returns one
  behind the end of the disk instead of reporting that there is no space (`FatVolume.ScanLeavesVolume`). The data loop
  of `fat16_write` links such a cluster exactly when the volume has too few free clusters and an entry of FAT 1 for a
  cluster that is not there is free (`Fat16.Driver.WriteLoop`).
- A blocked task to which `syscall_dispatch` returns and which reads again (needing more than its buffer holds) or
  exits before yielding breaks the queues; any other read or exit does not (`SchedulerModel.ReadInv`, `SchedulerModel.ExitInv`).
- The sector stream stays inside its buffer exactly for accesses that start on a sector boundary or stay inside one
  sector (`SectorStream.BufferBound`).
- `page_map_between` steps by 4 MiB from a start rounded down to 4 KiB only. It visits every page of its range but
  possibly the last, and that one exactly when the start lies less far into its page than the end into its own
  (`Processes.PagesVisited`). `Processes.MissedPage` is a range of two pages of which it maps one; the ranges that
  `process_spawn` and `task_create` pass are mapped completely (`Processes.SpawnRanges`). It overwrites entries that are
  already present; their frames stay marked, and the directory forgets them (`Processes.Machine.MapBetween`).
- `_init_mmap` rounds the start of a memory region down to a frame. The frames it marks or frees for a region lie wholly
  inside it exactly when the region starts on a frame boundary or stands for no frame (`Frames.WholeFrames`);
  `Frames.PartialFrame` is a map that frees a frame whose first byte is not available.
- A `process_spawn` that fails leaves the frames it has mapped marked and owned by nobody. It leaks none exactly when it
  fails for want of a process record, or when the heap growth for that record uses up the free frames
  (`Processes.Machine.Spawn`, with the exact set).
- A path node has eleven characters, a byte of padding and its link. Every name of at most eleven characters is read
  back. A file name of twelve is read back exactly when it is the last entry: its terminator is the low byte of the
  link, which the next entry overwrites (`PathParser.PrintThenParse`). A directory name of more than sixteen letters is
  copied past the node.
- A read from stdin returns 0 however many bytes it read (`Scheduler.Kernel.SysRead`).

## Model

| member | source | states |
|---|---|---|
| `ChunkMap.Conservation` | src/x86/memory/heap.c:84-226 | In every well-formed heap, free chunks plus the spans of live blocks are all chunks |
| `ChunkMap.Tiling` | src/x86/memory/heap.c:84-159 | Every chunk lies in exactly one block: the blocks tile the heap |
| `ChunkMap.AllocateInv` | src/x86/memory/heap.c:161-226 | An accepted request keeps the heap invariant (tiling, free blocks of one chunk, last chunk free, whole pages) and adds exactly its span to the used chunks |
| `ChunkMap.ReleaseInv` | src/x86/memory/heap.c:84-113 | A release keeps the heap invariant |
| `ChunkMap.CountRelease` | src/x86/memory/heap.c:84-113 | A release moves exactly the block's span from used to free |
| `ChunkMap.LowestFit` | src/x86/memory/heap.c:178-217 | First fit: the block lands on the lowest run of enough free chunks, and growth never changes that choice |
| `ChunkMap.AllocateRelease` | src/x86/memory/heap.c:84-226 | Round trip: releasing the block just allocated restores the map apart from appended free pages, and no other chunk changes its role |
| `ChunkMap.PlaceRelease` | src/x86/memory/heap.c:84-113 | Fusing the chunks of a released block again gives back the map before the release |
| `ChunkMap.SettleAppends` | src/x86/memory/heap.c:178-226 | The retry loop ends, only appends whole free pages, and never one more than the request needs |
| `ChunkMap.GrowthBound` | src/x86/memory/heap.c:161-226 | All four growths of an accepted request together stay below the heap limit if and only if it is not a first request for all 7168 chunks; otherwise the excess is one page |
| `ChunkMap.AllocateLength` | src/x86/memory/heap.c:161-226 | Exactly how far an accepted request grows the heap: where a run is free already, not at all if and only if at least a fifth of the chunks is free and a chunk is left behind the run, else by one page; otherwise to the first page boundary behind the block, which then starts at the trailing free chunks |
| `KernelHeap.Heap.constructor` | src/x86/memory/heap.c:228-234 | A fresh heap is valid and empty, whatever memory holds |
| `KernelHeap.Heap.InitBlock` | src/x86/memory/heap.c:115-123 | Writes exactly the five header words of one block |
| `KernelHeap.Heap.Grow` | src/x86/memory/heap.c:125-159 | Appends 1024 free unit blocks, doubly linked to each other and to the old last chunk; changes no other word |
| `KernelHeap.GrowthRepresents` | src/x86/memory/heap.c:125-159 | After those stores every header and link is that of the grown map |
| `KernelHeap.Heap.Explode` | src/x86/memory/heap.c:84-113 | The freed block becomes a chain of unit blocks spliced between its neighbours |
| `KernelHeap.ExplodedRepresents` | src/x86/memory/heap.c:84-113 | After those stores every header and link is that of the released map, and no live payload word changed |
| `KernelHeap.Heap.Free` | src/x86/memory/heap.c:75-113 | Freeing null does nothing; freeing a live block releases it in the map, keeps all invariants and counters, and leaves every other live payload alone |
| `KernelHeap.Heap.Search` | src/x86/memory/heap.c:178-217 | The scan over the links finds the lowest run of free chunks, or reports that there is none |
| `KernelHeap.Heap.Mark` | src/x86/memory/heap.c:178-217 | The marking loop, growth in its middle included, stops at the block behind the run |
| `KernelHeap.FusedRepresents` | src/x86/memory/heap.c:178-217 | After the fusing stores every header and link is that of the map with the new block, also when the heap grew on the way |
| `KernelHeap.Heap.Fit` | src/x86/memory/heap.c:178-226 | The retry loop terminates with the block placed in the settled map |
| `KernelHeap.AcceptedRequest` | src/x86/memory/heap.c:161-178 | What the guard implies about the chunks a request can reach |
| `KernelHeap.Percent` | src/x86/memory/heap.c:161-178 | The integer percentage test is the test for fewer than a fifth of the chunks |
| `KernelHeap.NewEnd` | src/x86/memory/heap.c:161-226 | The end of the heap after an accepted request, as an address: unchanged, one page later or the first page boundary behind the block, under exactly those conditions |
| `KernelHeap.Heap.GrowIfDue` | src/x86/memory/heap.c:170-176 | The growth before the search keeps the heap valid, appends only, and leaves live payloads alone |
| `KernelHeap.Heap.Malloc` | src/x86/memory/heap.c:161-226 | Null exactly when the guard refuses, and then nothing changed; otherwise the map is that of the abstract allocation, the pointer is its block, 20 bytes into a chunk, its payload holds at least the requested size, and every live payload is unchanged; the heap grows only when fewer than a fifth of its chunks is free, no run is free or the run reaches its end, and then exactly as far as `AllocateLength` says |
| `KernelHeap.Heap.Store` | src/x86/memory/heap.c:62-73 | A byte store inside a live payload changes that byte only and no header |
| `KernelHeap.Heap.Zalloc` | src/x86/memory/heap.c:62-73 | As the allocation, its growth included, with the first `size` bytes zero and every other live payload unchanged |
| `KernelHeap.PayloadsDisjoint` | src/x86/memory/heap.c:161-226 | Live payloads are disjoint from each other and from every block header, and lie inside the heap |
| `KernelHeap.GuardUnderWrap` | src/x86/memory/heap.c:161-178 | With 32-bit wrap-around the guard accepts exactly the requests that fit and those that wrap |
| `KernelHeap.StepInv` | src/x86/memory/heap.c:84-226 | Every call keeps the invariant; the heap never shrinks |
| `KernelHeap.GrownRun` | src/x86/memory/heap.c:161-226 | Once the heap has grown, no run takes it past its limit |
| `KernelHeap.RunBound` | src/x86/memory/heap.c:161-226 | Over every sequence of allocations and releases from the empty heap, the limit holds if and only if the first accepted request is not for all chunks |
| `BlockLists.Ordered` | src/x86/user/libc/malloc/malloc.c:131-221 | A list that tiles the heap is address-ordered |
| `BlockLists.PayloadsDisjoint` | src/x86/user/libc/malloc/malloc.c:131-221 | Blocks of the heap list never overlap |
| `BlockLists.UniqueEnd` | src/x86/user/libc/malloc/malloc.c:193-221 | The links determine the heap list and where it ends |
| `UserMalloc.Allocator.constructor` | src/x86/user/libc/malloc/malloc.c:28-33 | The initial heap is empty and coherent |
| `UserMalloc.Allocator.FindBestFit` | src/x86/user/libc/malloc/malloc.c:104-129 | Null exactly when no free block fits; otherwise a smallest one that fits, the last such one in list order |
| `UserMalloc.Allocator.Split` | src/x86/user/libc/malloc/malloc.c:131-168 | Both lists stay right, the rest is a free block of its own, and the tail moves exactly when the last block is split |
| `UserMalloc.Allocator.Remove` | src/x86/user/libc/malloc/malloc.c:170-191 | The element leaves the free list, which stays acyclic and doubly linked; only free-list links change |
| `UserMalloc.Allocator.Take` | src/x86/user/libc/malloc/malloc.c:223-242 | Reusing a block keeps both lists coherent; exactly that block becomes live, every other block keeps its size and state, and every live payload is unchanged |
| `UserMalloc.Allocator.MakeNew` | src/x86/user/libc/malloc/malloc.c:193-221 | Null exactly when the fresh region is exhausted; the block joins the heap list if the tail is right, and otherwise no list tiles the heap any more; live payloads are unchanged if and only if the store through the tail is spared |
| `UserMalloc.MakeLost` | src/x86/user/libc/malloc/malloc.c:193-221 | A block linked behind a header that is no block is on no list that tiles the heap, while both lists still hold all earlier blocks |
| `UserMalloc.TakenTail` | src/x86/user/libc/malloc/malloc.c:131-168 | Reuse keeps the tail on or inside the last block, and a right tail right |
| `UserMalloc.Allocator.Malloc` | src/x86/user/libc/malloc/malloc.c:223-242 | Complete best fit: null only for size 0 or when no free block fits and the region is exhausted; results are 8-aligned and large enough; the heap list is lost if and only if a new block is made behind a stale tail; some live payload changes if and only if a new block is made and the store through the tail is not spared |
| `UserMalloc.Allocator.Merge` | src/x86/user/libc/malloc/malloc.c:283-330 | One merge keeps both lists right and changes nothing but the two blocks and the headers around them |
| `UserMalloc.Allocator.Coalesce` | src/x86/user/libc/malloc/malloc.c:283-339 | Afterwards no two neighbours are both free, the free list holds exactly the free blocks, and all live blocks are kept |
| `UserMalloc.Allocator.Release` | src/x86/user/libc/malloc/malloc.c:265-339 | Exactly the freed block stops being live; lists stay coherent, memory still holds the header of every block, and every payload that stays live is unchanged; the tail stays right if and only if it was and no merge absorbs the last block; null and double frees do nothing |
| `UserMalloc.FreeTail` | src/x86/user/libc/malloc/malloc.c:297-327 | The last block survives the merges if and only if neither merge absorbs it, a test on four header fields |
| `UserMalloc.FreedTail` | src/x86/user/libc/malloc/malloc.c:297-327 | After any free the tail is on or inside the last block; a stale tail stays stale |
| `UserMalloc.StaleTailRun` | src/x86/user/libc/malloc/malloc.c:265-339 | A concrete run of malloc and free after which no list tiles the heap |
| `UserMalloc.HeaderStoresMiss` | src/x86/user/libc/malloc/malloc.c:131-339 | A header stored at a block, at the end of the used range or inside a free block lies outside every live payload |
| `UserMalloc.StoresMiss` | src/x86/user/libc/malloc/malloc.c:131-339 | Header stores at such places, byte by byte, leave every live payload unchanged |
| `UserMalloc.StoreBacked` | src/x86/user/libc/malloc/malloc.c:131-339 | A store to one field of a block changes the bytes of that field and of no other header: memory and headers stay in step |
| `UserMalloc.NewBacked` | src/x86/user/libc/malloc/malloc.c:202-217 | A whole new header, stored word by word, is what memory holds there, and the other headers are as before |
| `UserMalloc.PayloadWrite` | src/x86/user/libc/malloc/malloc.c:84-102 | A write inside one payload changes the header of no block, so memory and headers stay in step |
| `UserMalloc.Allocator.StoreByte` | src/x86/user/libc/malloc/malloc.c:244-263 | An owner's store inside a live payload keeps both lists and their headers, and every other live payload |
| `UserMalloc.TailStoreMeaning` | src/x86/user/libc/malloc/malloc.c:210-214 | The store through the tail keeps every live payload if and only if the tail is right, the last block is free, or the word is there already |
| `UserMalloc.CorruptingRun` | src/x86/user/libc/malloc/malloc.c:193-339 | A concrete run of malloc and free in which an allocation changes the payload of a live block |
| `UserMalloc.TakenKeeps` | src/x86/user/libc/malloc/malloc.c:131-191 | The stores of a reuse, split included, change no live payload |
| `UserMalloc.FreedKeeps` | src/x86/user/libc/malloc/malloc.c:265-339 | The stores of a free, merges included, change no payload that stays live |
| `UserMalloc.Allocator.Move` | src/x86/user/libc/malloc/malloc.c:84-102 | The moving case, with any tail: failure changes nothing; the new payload starts with the old one and every other live payload is unchanged, if and only if the inner allocation harms no live payload; behind a stale tail the old block is freed and the new one is on no list |
| `UserMalloc.Allocator.Realloc` | src/x86/user/libc/malloc/malloc.c:72-102 | All five cases of realloc with any tail: allocate, free, keep, fail with the old block intact, move with the contents preserved (section 7.22.3.5 of ISO/IEC 9899:2011) under exactly the condition of the inner allocation |
| `UserMalloc.Allocator.Calloc` | src/x86/user/libc/malloc/malloc.c:244-263 | Null exactly for overflowing products and refused sizes; otherwise the first `nmemb * size` bytes are zero; the list and the other live payloads are kept under exactly the conditions of malloc |
| `UserMalloc.Product` | src/x86/user/libc/malloc/malloc.c:244-263 | The division test detects exactly the overflowing products |
| `SectorStream.BufferBound` | src/x86/fs/stream.c:38-50 | The copy stays inside the one-sector buffer if and only if the access is aligned or stays inside one sector |
| `SectorStream.Stream.Seek` | src/x86/fs/stream.c:24-28 | Sets the position |
| `SectorStream.Stream.Read` | src/x86/fs/stream.c:30-55 | Returns exactly the bytes `[pos, pos + n)` of the disk and advances by n |
| `SectorStream.Stream.Write` | src/x86/fs/stream.c:57-86 | Replaces exactly the bytes `[pos, pos + n)` of the disk and advances by n |
| `SectorStream.SectorUpdate` | src/x86/fs/stream.c:57-86 | Read-modify-write of a whole sector changes only the written bytes |
| `FatVolume.RegionsDisjoint` | src/x86/driver/fat16/fat16.c:582-705 | For every header, the FATs, the root directory and every two clusters occupy disjoint bytes, in that order |
| `FatVolume.FirstCluster` | src/x86/driver/fat16/fat16.c:694-705 | The data area starts on the first sector boundary at or behind the end of the root directory |
| `FatVolume.NoGaps` | src/x86/driver/fat16/fat16.c:694-705 | Every cluster starts where the one before it ends |
| `FatVolume.GeometrySound` | src/x86/driver/fat16/fat16.c:582-705 | Every header of the model puts FAT and clusters on sector boundaries, the entries of FAT 1 before the data |
| `FatVolume.EntryStored` | src/x86/driver/fat16/fat16.c:322-344 | Storing one FAT entry changes that entry only and no byte of any cluster |
| `FatVolume.ClusterStored` | src/x86/driver/fat16/fat16.c:1453-1496 | Storing inside one cluster changes that cluster only and no FAT entry |
| `FatVolume.ScanMeaning` | src/x86/driver/fat16/fat16.c:513-533 | The scan finds a cluster of the volume (in FAT 1 and on the disk) if and only if one is free there, and then the lowest |
| `FatVolume.ScanLeavesVolume` | src/x86/driver/fat16/fat16.c:513-533 | A full image of the repository's own layout on which the scan returns a cluster behind the end of the disk |
| `FatChains.SamePrefix` | src/x86/driver/fat16/fat16.c:142-149 | The table and the first cluster determine the chain |
| `FatChains.ScanOutcome` | src/x86/driver/fat16/fat16.c:513-533 | The scan finds nothing if and only if no entry is free, a cluster that is not on the disk if and only if none is free in the volume, and otherwise the lowest free one |
| `FatChains.Append` | src/x86/driver/fat16/fat16.c:1453-1496 | Linking a free cluster behind the end of a chain extends that chain and keeps it acyclic |
| `FatChains.FreeTaken` | src/x86/driver/fat16/fat16.c:1476-1488 | Linking a free cluster behind a chain takes exactly that one from the free clusters, and frees or takes no entry outside the volume |
| `FatChains.OtherChain` | src/x86/driver/fat16/fat16.c:1453-1496 | Every other chain survives the extension unchanged and stays disjoint from the extended one |
| `Fat16.Driver.GetNextCluster` | src/x86/driver/fat16/fat16.c:142-149 | Returns the two bytes, little-endian, at twice the cluster number behind the reserved sectors: what the driver takes for the FAT entry of the cluster |
| `Fat16.Driver.CreateFatEntry` | src/x86/driver/fat16/fat16.c:322-344 | Stores two bytes for numbers in range and refuses the others; inside FAT 1 that changes exactly that entry and no cluster |
| `Fat16.Driver.GetNextFreeCluster` | src/x86/driver/fat16/fat16.c:513-533 | The lowest zero entry from 3 on, or 0 when there is none; a cluster of the volume if and only if one is free there |
| `Fat16.Driver.GetChainLength` | src/x86/driver/fat16/fat16.c:707-720 | Returns the length of the chain |
| `Fat16.Driver.Append` | src/x86/driver/fat16/fat16.c:1473-1488 | Appends the cluster that the scan finds: the lowest free one of the volume, one that is not on the disk exactly when the volume has none free, or nothing when no entry is free; no cluster's bytes change |
| `Fat16.Driver.Advance` | src/x86/driver/fat16/fat16.c:1453-1496 | Moves along the chain, appending one cluster at its end; fails exactly when the chain ends and no cluster is needed or no entry is free; the new cluster is on the disk exactly when one was free there |
| `Fat16.Driver.WritePass` | src/x86/driver/fat16/fat16.c:1453-1496 | One pass puts the next piece of the buffer into the next cluster of the chain and changes nothing else |
| `Fat16.Driver.WriteStep` | src/x86/driver/fat16/fat16.c:1453-1496 | A pass and the step behind it keep the loop invariant (chain, contents and number of free clusters), or end with no space, or lead off the disk |
| `Fat16.Driver.WriteLoop` | src/x86/driver/fat16/fat16.c:1427-1496 | The data loop: it links a cluster that is not on the disk if and only if the volume has fewer free clusters than the file needs more and an entry outside is free; otherwise it succeeds if and only if the volume has as many free clusters; the chain becomes the old one followed by clusters that were free, of length max(existing, required) on success; the buffer is then the start of its contents, the rest of the last cluster and all other clusters are as before; on -ENOSPC no cluster is free and the written prefix is in place |
| `Fat16.OtherFile` | src/x86/driver/fat16/fat16.c:1427-1496 | On every exit of the data loop every other file keeps its chain and its bytes |
| `Fat16.Driver.Read` | src/x86/driver/fat16/fat16.c:1150-1210 | From position 0 returns the first min(n, chain length times cluster size) bytes of the concatenated clusters; nothing at the end of the file |
| `Fat16.OneStretch` | src/x86/driver/fat16/fat16.c:694-705 | The contents of a file in consecutive clusters are one stretch of the disk from its first cluster on |
| `Fat16.WriteThenRead` | src/x86/driver/fat16/fat16.c:1150-1496 | A write that does not shrink its file strays from the volume under exactly that condition; otherwise it succeeds if and only if the volume has room, and then a read of as many bytes returns what was written |
| `Fat16.MountOwn` | scripts/build/x86/fat16.sh:3-21 | An image of the repository's own layout, full as it is, meets everything that reading and overwriting a file requires |
| `Queues.Pushed` | src/x86/scheduler/rr.c:97-109 | Storing at the head appends to the queue, whatever the wrap-around |
| `Queues.Popped` | src/x86/scheduler/rr.c:111-125 | Advancing the tail removes the oldest entry, whatever the wrap-around |
| `Queues.TaskRing.Enqueue` | src/x86/scheduler/rr.c:97-109 | Refines appending to a sequence; null tasks and full queues drop the task |
| `Queues.TaskRing.Dequeue` | src/x86/scheduler/rr.c:111-125 | Refines taking the oldest element; null when empty |
| `Queues.Fifo.Enqueue` | src/x86/ds/fifo.c:57-66 | Refines appending to a sequence of at most 128 bytes |
| `Queues.Fifo.Dequeue` | src/x86/ds/fifo.c:68-77 | Refines taking the oldest byte; fails exactly when empty |
| `SchedulerModel.YieldIs` | src/x86/scheduler/rr.c:54-71 | A yield dispatches the oldest ready task, requeues a running one last, and changes nothing else, the foreground included |
| `SchedulerModel.YieldInv` | src/x86/scheduler/rr.c:54-71 | A yield keeps the invariant and leaves the current task running |
| `SchedulerModel.WakeAll` | src/x86/scheduler/wq.c:28-43 | The dequeue-and-requeue loop moves exactly the tasks waiting for the reason to the ready queue, in waiting order, and keeps the others in order |
| `SchedulerModel.KeyIs` | src/arch/x86/idt.c:538-551 | A key press appends its code to the foreground buffer if that holds fewer than 128 bytes, changes no other buffer, and wakes every task waiting for the keyboard, in order, behind the tasks already ready |
| `SchedulerModel.KeyInv` | src/arch/x86/idt.c:538-551 | A key press keeps the invariant |
| `SchedulerModel.AddInv` | src/x86/scheduler/rr.c:44-52 | Adding a new task below capacity keeps the invariant; the task is queued last with an empty buffer and nothing else changes |
| `SchedulerModel.ReadIs` | src/x86/syscall.c:230-293 | A read takes the oldest bytes, and blocks exactly when it asks for more than the buffer holds |
| `SchedulerModel.ReadBlocks` | src/x86/syscall.c:255-271 | A read of more than the buffer holds empties it and puts the task last in the wait queue, blocked on the keyboard; nothing else changes |
| `SchedulerModel.ReadInv` | src/x86/syscall.c:230-293 | A read keeps the invariant if and only if the task is running or the buffer suffices |
| `SchedulerModel.ExitInv` | src/x86/syscall.c:111-140 | An exit keeps the invariant if and only if the exiting task is running |
| `SchedulerModel.ExitIs` | src/x86/syscall.c:111-140 | An exit ends the task and forgets its buffer, queues a respawned shell last with an empty buffer and in the foreground, and runs the oldest ready task; no other task changes |
| `SchedulerRuns.NoLostWakeup` | src/x86/syscall.c:255-271 | In every reachable state each live task is exactly one of running, ready and waiting; a blocked task is in the wait queue once with an empty buffer, and the next key makes it ready |
| `SchedulerRuns.KeysInOrder` | src/arch/x86/idt.c:538-551 | Over every run, what a task has received followed by what is in its buffer is what the buffer held at first followed by what was typed to it: no key is lost, doubled or reordered |
| `SchedulerRuns.Pressed` | src/arch/x86/idt.c:538-551 | Keys pressed one after the other are buffered in order, as long as there is room, and touch no other buffer |
| `SchedulerRuns.TypedThenRead` | src/x86/syscall.c:230-293 | Up to 128 keys typed on an empty foreground buffer, and any steps that neither type to that task nor let it read, and then its read of as many bytes: the read returns the codes in order, empties the buffer and does not block |
| `SchedulerRuns.StepQueue` | src/x86/scheduler/rr.c:54-71 | A yield moves every ready task one place forward; no other step moves one |
| `SchedulerRuns.BoundedWait` | src/x86/scheduler/rr.c:54-71 | The task at position i of the ready queue runs after exactly i + 1 yields, hence within eight, whatever happens in between |
| `SchedulerRuns.LiveCount` | src/x86/scheduler/rr.c:97-125 | The running and queued tasks are all live tasks, at most eight |
| `Scheduler.Kernel.constructor` | src/x86/kernel.c:239-248 | A kernel whose idle thread runs alone satisfies the invariant |
| `Scheduler.Kernel.RrEnqueue` | src/x86/scheduler/rr.c:97-109 | The ring refines the abstract enqueue, state check included |
| `Scheduler.Kernel.WqEnqueue` | src/x86/scheduler/wq.c:61-73 | The ring refines the abstract enqueue, state check included |
| `Scheduler.Kernel.SetUnblock` | src/x86/process/task.c:50-56 | Makes a blocked task ready and clears its reason; leaves any other task alone |
| `Scheduler.Kernel.Wakeup` | src/x86/scheduler/wq.c:28-43 | The loop over the ring refines the abstract wake-up |
| `Scheduler.Kernel.KeyInterrupt` | src/arch/x86/idt.c:538-551 | Refines the key step, keeps the invariant, and appends the scancode to the foreground buffer unless that is full; every other buffer is as before |
| `Scheduler.Kernel.Yield` | src/x86/scheduler/rr.c:54-71 | Refines the yield step |
| `Scheduler.Kernel.TimerInterrupt` | src/arch/x86/idt.c:529-536 | Refines the yield step, keeps the invariant, and leaves a running task |
| `Scheduler.Kernel.BlockCurrent` | src/x86/process/task.c:33-48 | Blocks the current task on the keyboard and queues it |
| `Scheduler.Kernel.SysRead` | src/x86/syscall.c:230-293 | Fills the caller's buffer with the oldest bytes in order and zeros behind them, returns 0 (-1 for count 0), and refines the read step; a read that finds enough only takes its bytes, any other empties the buffer and queues the task blocked; keeps the invariant under exactly its condition |
| `Scheduler.Kernel.Spawn` | src/x86/scheduler/rr.c:44-52 | Refines the add step and keeps the invariant |
| `Scheduler.Kernel.SysExit` | src/x86/syscall.c:111-140 | Refines the exit step; keeps the invariant under exactly its condition; the task is terminated without a buffer, the oldest ready task runs, and a respawned shell is ready, in the foreground, with an empty buffer |
| `Scheduler.TypeThenRead` | src/arch/x86/idt.c:538-551 | Through the interrupt handler and the system call: what is typed to the running foreground task is what it reads, in order |
| `Frames.Allocator.constructor` | src/x86/memory/pfa.c:33-39 | Every frame starts marked |
| `Frames.Allocator.Set` | src/x86/memory/pfa.c:41-47 | Marks one frame and no other |
| `Frames.Allocator.Clear` | src/x86/memory/pfa.c:49-55 | Unmarks one frame and no other |
| `Frames.Allocator.Test` | src/x86/memory/pfa.c:57-62 | True exactly for marked frames |
| `Frames.Allocator.Alloc` | src/x86/memory/pfa.c:111-121 | Marks the lowest free frame and returns its address; 0 and no change when all are used |
| `Frames.Allocator.InitMmap` | src/x86/kernel.c:111-172 | For every memory map, a frame is free afterwards if and only if it holds no byte of kernel or framebuffer and the last available or unusable region that it ends in is available, or there is no such region and it was free |
| `Frames.MarkedMeaning` | src/x86/kernel.c:133-172 | A memory map leaves a frame unmarked if and only if the last available or unusable region that the frame ends in is available, or there is none and the frame was unmarked |
| `Frames.WholeFrames` | src/x86/kernel.c:144-145 | The frames of a region lie wholly inside it if and only if it starts on a frame boundary or stands for no frame |
| `Frames.PartialFrame` | src/x86/kernel.c:144-150 | A map with one available region that frees a frame of which the first byte is outside the region |
| `Processes.EntryMeaning` | src/x86/memory/page.c:106-112 | An entry written for a frame is present, names that frame, and has exactly the given flags below the frame address |
| `Processes.Mapped` | src/x86/memory/page.c:106-112 | Mapping a new frame adds exactly that frame to the directory's |
| `Processes.Unmapped` | src/x86/memory/page.c:114-120 | Unmapping an entry removes exactly its frame |
| `Processes.MapsHere` | src/x86/memory/page.c:122-130 | The lookup gives 0 for a page that is not present, and otherwise the address at the same offset in a frame the directory owns |
| `Processes.Machine.constructor` | src/x86/kernel.c:133-172 | After boot ownership holds, with the reserved frames owned by the kernel; a frame is free if and only if it holds no byte of kernel or framebuffer and the last word of the memory map on it is that it is available |
| `Processes.Machine.TakeFrame` | src/x86/memory/pfa.c:111-121 | With frame 0 reserved, a 0 means exactly that no frame is left |
| `Processes.Machine.GrowHeap` | src/x86/memory/heap.c:125-135 | n growths succeed if and only if n frames are free; they take only unowned frames, one each, and keep ownership |
| `Processes.Machine.CreateDir` | src/x86/memory/page.c:55-82 | A new directory has an empty user half, names the frames of the kernel (with its flags) and nothing else in the upper quarter, and owns one new frame, which the kernel directory maps from then on, at its window, with the flags 0x87 |
| `Processes.Machine.MapPage` | src/x86/memory/page.c:140-161 | One pass: fails exactly when no frame is free; otherwise the entry is the address of a new frame with the flags 0x87 (present, writable, user, 4 MiB), in the place of the one it had |
| `Processes.Machine.MapBetween` | src/x86/memory/page.c:140-161 | Each visited page gets a frame of its own, with the flags of a user page, and nothing else changes; the frames of entries present before, and only those of visited pages, are lost; unless the frames ran out, every page of the range is present if and only if the start reaches the last page or that one was mapped before |
| `Processes.PagesVisited` | src/x86/memory/page.c:140-161 | The loop visits every page of the range but the last, and the last if and only if the start lies less far into its page, in 4 KiB steps, than the end |
| `Processes.MissedPage` | src/x86/memory/page.c:140-161 | A range of two pages of which the loop visits one |
| `Processes.RangeMapped` | src/x86/memory/page.c:140-161 | With every visited page present, the whole range is present if and only if its last page is reached or present |
| `Processes.SpawnRanges` | src/x86/process/process.c:167-172 | The code, heap and stack ranges of a new process reach their last pages |
| `Processes.Machine.Spawn` | src/x86/process/process.c:153-186 | Ownership is kept: every frame has at most one owner and owned frames are marked; the new process owns exactly the frames taken besides those of three heap growths; code, heap and stack are user pages (flags 0x87) unless the frames ran out, the upper quarter maps what the kernel's does, and the kernel has its window on the new directory; a failing spawn leaves exactly the frames in `leak` marked without an owner, and none if and only if there was no process record or the growth for it left no free frame |
| `Processes.SpawnOwns` | src/x86/process/process.c:153-186 | The two rounds of mappings of a spawn give the new process frames that nobody else owns |
| `Processes.Machine.Exit` | src/x86/process/process.c:215-252 | Ownership is kept, exactly the frames of the process are freed, and the kernel directory forgets its page directory |
| `Processes.ExitOwns` | src/x86/process/process.c:215-252 | Clearing the frames of one process leaves every other owner's frames marked |
| `Processes.SpawnThenExit` | src/x86/process/process.c:153-252 | Spawn followed by exit restores the bitmap apart from the frames the kernel heap took |
| `Numbers.EmitExact` | src/x86/lib/stdlib.c:50-122 | The reversed digits evaluate to the number in every base from 2 to 36, without a leading zero |
| `Numbers.DigitExact` | src/x86/lib/stdlib.c:78-86 | The digits are 0 to 9 and then the lower-case letters, and evaluate to their numbers |
| `Numbers.EmitLength` | src/x86/lib/stdlib.c:50-122 | 32-bit numbers need at most 32 digits |
| `Numbers.ReverseString` | src/x86/lib/stdlib.c:32-48 | Reverses the text in place and touches nothing behind it |
| `Numbers.EmitDigitsTo` | src/x86/lib/stdlib.c:50-122 | The digit loop leaves the digits, least significant first |
| `Numbers.Itoa` | src/x86/lib/stdlib.c:50-101 | Leaves the terminated text of the value, or the empty string for a bad base |
| `Numbers.Utoa` | src/x86/lib/stdlib.c:103-122 | Leaves the terminated text of the value |
| `Numbers.TextExact` | src/x86/lib/stdlib.c:50-101 | The text evaluates to the value, signed in base 10 (INT32_MIN included) and as its 32-bit pattern otherwise, without a leading zero, and starts with a minus sign exactly for negative values in base 10 |
| `Numbers.Atoi` | src/x86/lib/stdlib.c:169-178 | The value of the leading run of decimal digits |
| `Numbers.PrintThenRead` | src/x86/lib/stdlib.c:50-178 | Printing a non-negative number in base 10 and reading it gives the number |
| `PathLexer.TokensCover` | src/x86/fs/pathlexer.c:64-103 | For every string the lexer ends, and its token texts concatenate to the string |
| `PathLexer.Lexer.LexIdentifier` | src/x86/fs/pathlexer.c:64-70 | The loop stops at the first character that is no letter |
| `PathLexer.Lexer.LexToken` | src/x86/fs/pathlexer.c:72-103 | Returns the token at the position and moves behind it |
| `PathParser.Parser.AdvanceToken` | src/x86/fs/pathparser.c:74-87 | Skips error tokens, reporting them exactly when there are some |
| `PathParser.Parser.EatToken` | src/x86/fs/pathparser.c:98-106 | Advances over the expected token, or reports an error and stays |
| `PathParser.Parser.ParseFilename` | src/x86/fs/pathparser.c:115-138 | The copies and the null link leave the 16-byte node holding the 8.3 name: as a C string up to eleven characters, and a twelfth in front of the link |
| `PathParser.Parser.ParseEntry` | src/x86/fs/pathparser.c:140-150 | The node of a directory, a file name or nothing, with a null link; none exactly when a directory name is longer than the node |
| `PathParser.Parser.ParseEntries` | src/x86/fs/pathparser.c:152-169 | The loop yields one node per slash, in order, each with its name and the address of its successor |
| `PathParser.Parser.ParseDrive` | src/x86/fs/pathparser.c:171-184 | The drive letter, or the empty drive |
| `PathParser.Parser.ParsePath` | src/x86/fs/pathparser.c:186-208 | The whole parser computes the abstract parse for every string, names as C strings in the linked nodes, and the lone slash becomes the root directory |
| `PathParser.HoldsShown` | src/x86/fs/pathparser.c:115-138 | What a node shows as a C string: its name up to eleven characters, else the first twelve followed by the bytes of its link |
| `PathParser.EntriesReadBack` | src/x86/fs/pathparser.c:152-169 | Every list of printed entries leaves its names in the nodes without an error if and only if no directory name is longer than a node |
| `PathParser.PrintThenParse` | src/x86/fs/pathparser.c:74-208 | For every drive letter or no drive and every non-empty list of directory names of any length and file names (8 and 3 letters), parsing the printed path leaves a node if and only if a directory name has more than 16 letters; otherwise it gives that drive (or none), reports nothing, and entry i is read back if and only if it has at most 11 characters, or 12 and is the last |
| `PathParser.ShortNamesComeBack` | src/x86/fs/pathparser.c:74-208 | A path whose names have at most 11 characters is read back exactly |
| `PathParser.LoneSlash` | src/x86/fs/pathparser.c:186-197 | A lone slash, behind a drive or not, is the root directory `/`, without an error |
| `PathParser.EntriesReport` | src/x86/fs/pathparser.c:152-169 | Over its entries the parser reports an error exactly when it passes a character of no token or a dot without an extension |
| `PathParser.ErrorMeaning` | src/x86/fs/pathparser.c:74-208 | For every string that is parsed, the error flag comes out set if and only if it was set before, a character up to the last token looked at belongs to no token, or a dot in front of that token has no identifier behind it |

## Left out

- `fat16_write` behind its data loop (line 1496): freeing unused clusters when a file shrinks, and the directory entry. The call that frees clusters passes the last cluster of the chain and swaps two arguments, so truncation is not what the code does.
- FAT16 directories, file creation, path resolution and the VFS descriptor table: lookups that add no harder property.
- Fat16.Driver.Read: reads from other positions than 0 are left out, because line 1169 assumes contiguous clusters; device errors are left out.
- Fat16.Driver.WriteLoop: the loop ends where it would write to a cluster that is not on the disk (`strayed`); what the device does with that write is left out. A write that needs more clusters than are free on a volume whose FAT 1 has fewer entries than the 65525 the scan reads is excluded by the precondition `Scans`, because the scan then takes bytes behind FAT 1 for entries, and so is a disk too short for the scan. So are clusters of 64 KiB, whose size does not fit the 16 bits it is stored in, and device errors. The same holds for `Append`, `Advance`, `WriteStep` and `WriteThenRead`.
- Fat16.Driver.GetNextFreeCluster: disks too short for the 65525 entries that the scan reads are left out.
- SectorStream.Stream.Read: accesses that cross a sector boundary from inside a sector leave the transfer buffer; `BufferBound` delimits them. The same holds for writes.
- KernelHeap.Heap.Zalloc: as `KernelHeap.Heap.Malloc`.
- KernelHeap.Heap.Malloc: requests whose end address wraps 32 bits are excluded by the precondition; the frame allocator does not run out while the heap grows (the panic is modelled in `Processes.Machine.GrowHeap`).
- UserMalloc.Allocator.Malloc: requests within 16 MiB of 2^32, which wrap size or address arithmetic, are excluded by the precondition. The same holds for `Realloc` and `Calloc`.
- UserMalloc.Allocator.Release: pointers that are on no list are left out: those that never came from the allocator, and blocks made behind a stale tail. Headers are read from `hdr`, which memory is proved to agree with at every block of the list; a stale header that its block's owner has overwritten is stored through but never read.
- Scheduler.Kernel.SysRead: a failing allocation of the kernel's buffer, which makes the call return -1, is left out.
- Scheduler: the first tick without a current task, task save and restore, page directory switches, processes with more than one thread, the foreground pointer to a process that is gone. Keyboard buffers are kept as their contents in `Scheduler.Kernel`; `Queues.Fifo` is the ring that refines them.
- SchedulerRuns.BoundedWait: a blocked task is assumed to yield before its next system call, which `Enabled` states; `ReadInv` and `ExitInv` show what happens otherwise.
- Frames.Allocator.InitMmap: 64-bit wrap-around of the memory map is left out. A bitmap word is modelled as its 32 bits.
- Processes.Machine.GrowHeap: the kernel directory entries of heap pages are left out.
- Processes.Machine.Spawn: whether the heap has room for the process record and for the task are the inputs `procOk` and `taskOk`, and the pages the heap grows by are `g0`, `g1` and `g2`.
- Processes: kernel threads, the process list, loading of the image, CR3 and TLB effects, and `page_unmap_between`.
- Numbers.Atoi: 32-bit overflow of numbers above INT32_MAX is left out.
- Numbers.Utoa: bases outside 2 to 36, for which the source divides by 0, does not end or prints other characters, are left out.
- Numbers.ReverseString: length 0, where the unsigned index wraps, is left out; no caller passes it.
- PathParser.Parser.ParsePath: a path without entries, whose missing first node the code dereferences, and a directory name of more than sixteen letters, copied past its node, are outcomes of their own (`NullPath`, `Overrun`), without their memory effects. Nodes are a sequence in link order, at the addresses `ptr` of the kernel heap. Tokens and the error flag left by an earlier parse are inputs, as in the code.
- Drivers, graphics, shell, printf and floating-point printing, dumps and traces: port I/O or easy members.
