# A verified model of the Onix kernel

Onix is a 32-bit teaching kernel for the x86.  This project models its stateful cores in Dafny and
proves what they promise: over every run, not for one call.

Each core appears twice.  A specification module describes the state as a value, the operations as
functions on it and the invariants as predicates; the theorems over runs are lemmas about these.  Beside
it a class keeps the state the way the C code does, in arrays and fields updated in place, with the
loops of the source, and each of its methods is proved to be the operation of the specification; the
request queue and the sleep list are built on the pointer list itself.  Where the
kernel asserts or panics, a specification function returns `None`, and a lemma says exactly when.

| files | core | main results |
|---|---|---|
| `Bitmap.dfy`, `List.dfy` | bitmap and intrusive list | exact first fit; pointer operations as sequence operations |
| `PagingSpec.dfy`, `PagingInvariant.dfy`, `PagingSteps.dfy`, `PagingFork.dfy`, `PagingRuns.dfy`, `PagingFaults.dfy`, `PagingKernel.dfy` | copy-on-write paging | `CopyOnWriteRefinesEagerCopy`, `ForkHalts`, `AccessHalts` |
| `FileTree.dfy`, `FileOwnership.dfy`, `FileContents.dfy`, `FileTruncate.dfy`, `FileLimits.dfy`, `FileSpace.dfy`, `FileRuns.dfy`, `FileLayout.dfy`, `FileSystem.dfy` | Minix-style files | `RunsAreRightExactly`, `FilesRememberWrites`, `WriteHalts`, `LayoutOnDisk` |
| `ArenaSpec.dfy`, `ArenaInvariant.dfy`, `ArenaRuns.dfy`, `Arena.dfy` | kernel heap | `HeapIsSafe`, `NewPageWhenFull` |
| `BufferSpec.dfy`, `BufferRuns.dfy`, `BufferCache.dfy` | block cache | `CacheRefinesDisk`, `BreadIsLatestExactly` |
| `Elevator.dfy` | disk request queue | `HandOff`, `RecordsWhoAsked`, `ServiceOrder`, `TotalTravel` |
| `Lock.dfy` | recursive lock | `LockIsSafe` |
| `TaskTable.dfy`, `TaskCalls.dfy` | fork, exit, waitpid | `FamiliesStayConsistent`, `OnlyParentReaps`, `WokenReaps`, `StatusIsDelivered` |
| `Scheduler.dfy`, `SchedulerRuns.dfy`, `Quantum.dfy`, `Processor.dfy` | searching, switching, sleeping and the clock | `OneTaskRuns`, `SleepsAsLongAsAsked`, `KeepsProcessor`, `SearchIsFairExactly` |
| `Sleep.dfy` | sleep and wakeup | `SleepsExactly`, `WakeupExactness` |
| `Number.dfy` | number printing | `TextIs`, `PrintingInverts`, `NegativesPrintUnsigned`, `AtoiOfDecimal` |

`Basics.dfy` holds the shared types, `Sequences.dfy` the sequence operations that several modules use.
`dafny verify dfyconfig.toml` checks everything.

## What the code does where one would expect otherwise

- `sys_brk` compares with `free_pages` (kernel/memory.c:582), which also counts the frames that the kernel's own mapping
  took, so it grants breaks that no frames are left for: `PagingFaults.BrkRefuses` is the exact test and
  `PagingFaults.BrkPromisesTooMuch` such a grant, after which the first access panics.
- `balloc` does not clear the zone it hands out, so a stale index block corrupts the tree
  (fs/bmap.c:11-38).  Of every write and every run that does not halt, `FileLimits.WriteIsRightExactly` and
  `FileRuns.RunsAreRightExactly` say: either no zone taken for an index block names a zone, and it does what it
  should, or an allocation leaves a tree that names a zone twice or names a free one.
  `FileLimits.StaleIndexOverwrites` is a disk on which appending one byte overwrites another.  Stale bytes in data
  zones do no harm outside the gap that a write beyond the end leaves, of whose bytes nothing is promised.
- `inode_read` asserts that a file has no holes (fs/inode.c:152), while `inode_write` may leave some;
  `FileLimits.HoleExactly` says when, and `FileLimits.HoleAppears` is such a write.
- `kmalloc` adds the header size in 32 bits (kernel/arena.c:47): sizes within 15 bytes of 2^32 get one page.
- A store into a buffer that `getblk` handed out unread is overwritten by the next `bread`, which reads
  whenever the buffer is not valid, dirty or not (kernel/buffer.c:159-165).  `BufferRuns.BreadIsLatestExactly` is
  the exact condition and `BufferRuns.StoreIsLost` such a run.  Clients that overwrite a block unread and write it
  back before anyone reads it are served correctly, and the run theorem covers them.
- The last request of an elevator queue turns the direction as well (kernel/device.c:143-150), so a full sweep
  ends with two turns when there was something behind the head.
- The sleep list is sorted by signed comparison and woken by unsigned comparison (lib/list.c:107-127,
  kernel/task.c:174); `Sleepers.WakeupExactness` says exactly when that makes a sleeper late, and
  `Sleepers.LateWakeup` is a run in which it does.
- `task_search` compares ticks and waiting times by a test that is no ordering (kernel/task.c:97).  It ends on the
  best task whichever tasks are ready if and only if no three of them form a cycle
  (`Schedulers.SearchIsFairExactly`); `Quanta.SearchIsNotFair` is a table on which a task is passed over that
  has more ticks left and has waited longer, at the end of a run from boot.
- A sleeper is released with no tick left (kernel/task.c:181), and schedule refills only the ticks of the task that
  gives up the processor (kernel/task.c:223-226).  So once it runs, the interrupt counts its ticks below zero, and it
  keeps the processor through 2^32 - 1 interrupts unless it gives it up: `Quanta.SleeperOverstays` is such a run from
  boot, and `Quanta.KeepsProcessor` with `Quanta.LosesProcessor` the exact rule.
- `number` takes an unsigned value, so the branch for negative numbers is never taken and no minus sign is
  printed (lib/vsprintf.c:36, 61), contrary to the comment above it.  The text reads as the signed number if and only
  if that is not negative (`Numbers.NegativesPrintUnsigned`); -1 prints as 4294967295 (`Numbers.MinusOne`).
- `list_popback` has no return statement (lib/list.c:54-60); it is modelled as returning the removed node,
  as its callers expect.

## Model

| member | source | states |
|---|---|---|
| `Bitmaps.Bitmap.Test` | kernel/bitmap.c:21-32 | the result is the bit of the abstract map at the index less the map's offset |
| `Bitmaps.BitsInMemory` | kernel/bitmap.c:21-32 | bit i of the map is bit i % 8 of byte i / 8, counted from the lowest |
| `Bitmaps.Bitmap.Set` | kernel/bitmap.c:34-52 | exactly that one bit of the map takes the value; all others stay |
| `Bitmaps.Bitmap.Scan` | kernel/bitmap.c:54-90 | exact first fit: the lowest run of count clear bits is returned and just it is set; EOF with the map unchanged exactly when there is no such run; what a count of zero does |
| `Bitmaps.FindRunIsFirstFit` | kernel/bitmap.c:54-90 | the recursive search used in the specifications and the first-fit property name the same run, and fail together |
| `Bitmaps.FirstFitUnique` | kernel/bitmap.c:54-90 | first fit determines the run |
| `Bitmaps.ScanThenReset` | kernel/memory.c:310-321 | resetting a run that a scan marked restores the map bit for bit |
| `Bitmaps.ScannedRunsDisjoint` | kernel/bitmap.c:54-90 | two runs scanned one after the other share no bit |
| `Bitmaps.AllocKPage` | kernel/memory.c:296-330 | first fit on the kernel page map, EOF exactly where scan_page panics |
| `Bitmaps.FreeKPage` | kernel/memory.c:310-338 | clears exactly the run, whose bits have to be set |
| `IntrusiveLists.List.constructor` | lib/list.c:4-10 | an empty chain of the two sentinels |
| `IntrusiveLists.List.InsertBefore` | lib/list.c:13-20 | the pointers after it represent the old sequence with the node in front of the anchor |
| `IntrusiveLists.List.InsertAfter` | lib/list.c:23-30 | the same behind the anchor |
| `IntrusiveLists.List.Remove` | lib/list.c:75-85 | the sequence without the node, whose own pointers become NULL |
| `IntrusiveLists.List.Search` | lib/list.c:62-72 | true exactly for the nodes of the sequence |
| `IntrusiveLists.List.Push` | lib/list.c:32-36 | the node in front of the old sequence |
| `IntrusiveLists.List.PushBack` | lib/list.c:48-52 | the node behind the old sequence |
| `IntrusiveLists.List.Pop` | lib/list.c:38-46 | takes the first node off the sequence |
| `IntrusiveLists.List.PopBack` | lib/list.c:54-60 | takes the last node off the sequence and returns it, as its callers expect |
| `IntrusiveLists.List.Size` | lib/list.c:93-103 | the length of the sequence |
| `IntrusiveLists.List.InsertSort` | lib/list.c:107-127 | inserts in front of the first greater key |
| `IntrusiveLists.InsertKeepsAscending` | lib/list.c:107-127 | a sorted list stays sorted, and the node lands behind every equal key |
| `PagingKernel.Kernel.GetOnePage` | kernel/memory.c:150-165 | refines taking the lowest frame with a zero counter, and fails exactly when there is none |
| `PagingKernel.Kernel.PutPage` | kernel/memory.c:167-185 | refines giving back one reference, and fails exactly where an assertion does |
| `PagingKernel.Kernel.GetPte` | kernel/memory.c:268-287 | refines the creation of a missing page table |
| `PagingKernel.Kernel.LinkPage` | kernel/memory.c:341-368 | refines the link step of the specification |
| `PagingKernel.Kernel.UnlinkPage` | kernel/memory.c:370-397 | refines the unlink step of the specification |
| `PagingKernel.Kernel.CopyPage` | kernel/memory.c:400-410 | a fresh frame holds the bytes of the given one |
| `PagingKernel.Kernel.ProtectionFault` | kernel/memory.c:525-549 | refines the write fault: grant the right or copy the page |
| `PagingKernel.Kernel.PageFault` | kernel/memory.c:509-561 | refines the fault handler on both branches; which addresses it serves and which it panics on, `AccessHalts` says |
| `PagingKernel.Kernel.ShareTable` | kernel/memory.c:433-447 | the inner loop of copy_pde: entries read-only, one more reference per frame, failure exactly where the counter assertion fails |
| `PagingKernel.Kernel.CopySlot` | kernel/memory.c:425-451 | one round of the outer loop of copy_pde is one round of the specification |
| `PagingKernel.Kernel.Fork` | kernel/memory.c:412-456 | the nested loops of copy_pde, with task_fork's bitmap copy, are the fork of the specification |
| `PagingInvariant.OutOfMemory` | kernel/memory.c:150-165 | free_pages less the number of zero counters is constant, and get_one_page panics exactly when no counter is zero |
| `PagingInvariant.TakenFrameIsFresh` | kernel/memory.c:150-165 | the frame handed out is a user frame that no table names |
| `PagingSteps.EntryChangeMovesRefs` | kernel/memory.c:341-397 | the number of references to each frame moves with the one entry that changes |
| `PagingSteps.GetTableKeepsInv` | kernel/memory.c:268-287 | creating a table keeps the invariant and changes nothing a process can see |
| `PagingSteps.LinkHalts` | kernel/memory.c:341-368 | link_page halts exactly for lack of frames: its bitmap assertions never fire |
| `PagingSteps.LinkKeepsInv` | kernel/memory.c:341-368 | link_page maps the page, writable, keeps the invariant, and changes no other page of any process |
| `PagingSteps.UnlinkHalts` | kernel/memory.c:370-397 | unlink_page halts exactly when it must create a table and no frame is left |
| `PagingSteps.UnlinkKeepsInv` | kernel/memory.c:370-397 | unlink_page removes the page of that process and nothing else, and keeps the invariant |
| `PagingSteps.SoleOwner` | kernel/memory.c:534-538 | a frame counted once is named by one page of one process only |
| `PagingSteps.WriteFaultHalts` | kernel/memory.c:525-549 | a write fault halts exactly when a copy is needed and no frame is left: its assertions never fire |
| `PagingSteps.WriteFaultKeepsInv` | kernel/memory.c:525-549 | afterwards the page is writable and counted once, and no process sees a byte change |
| `PagingSteps.StoreAbs` | kernel/memory.c:525-549 | a store through a writable entry changes one byte of one page of one process |
| `PagingFork.ShareCounts` | kernel/memory.c:433-447 | what the inner loop adds to each counter, and exactly when its assertion fails |
| `PagingFork.ForkKeepsInv` | kernel/memory.c:412-456 | fork keeps the invariant and equals copying every page: the child reads what the parent reads, nobody else notices |
| `PagingFork.ForkHalts` | kernel/memory.c:412-456 | fork halts exactly when a page has 254 references or frames are short of the tables to copy |
| `PagingFork.CountAtMostProcs` | kernel/memory.c:440-446 | a frame has at most as many references as there are processes, so with 64 tasks the counter assertion cannot fire |
| `PagingRuns.BootInv` | kernel/memory.c:126-148 | the invariant holds at boot |
| `PagingRuns.ExecRefines` | kernel/memory.c:509-561 | every operation keeps the invariant and is matched, with the same reply, by the kernel that copies eagerly |
| `PagingRuns.CopyOnWriteRefinesEagerCopy` | kernel/memory.c:412-456 | over every run of fork, access with faults, link, unlink and brk by any number of processes, copy-on-write refines eager copying |
| `PagingRuns.EagerIsolation` | kernel/memory.c:412-456 | in the eager kernel a process's pages change only by its own operations |
| `PagingRuns.QuietProcessKeepsItsPages` | kernel/memory.c:412-456 | over every run, a process that at most forks keeps every byte it had |
| `PagingFaults.PageOfAddress` | kernel/memory.c:16-19 | an address lies in the page that begins at the multiple of 4096 below it |
| `PagingFaults.AccessHalts` | kernel/memory.c:509-561 | for every address: an access panics if and only if a fault is needed and the address is not between 16 MB and 128 MB, or the page is absent and the address is between the break and the stack, or frames are short of the page and its table or of the copy |
| `PagingFaults.ReadNeedsNoRight` | kernel/memory.c:525-528 | a read of a present page takes no fault, and the handler panics on one |
| `PagingFaults.AccessServes` | kernel/memory.c:509-561 | any other access leaves the page mapped, writable if it writes; the process gains that page at most, and nobody else notices |
| `PagingFaults.BrkHalts` | kernel/memory.c:562-580 | sys_brk panics if and only if the break is off a page boundary, out of bounds, or below the old one |
| `PagingFaults.BrkRefuses` | kernel/memory.c:582-589 | it refuses if and only if the new pages are more than the free frames and those of the kernel's own mapping together; else it moves this break and nothing else |
| `PagingFaults.BrkPromisesTooMuch` | kernel/memory.c:582-589 | with no free frame a break is granted, and the first access to the new page panics |
| `FileTree.SlotOfInjective` | fs/bmap.c:129-185 | different blocks of files have different places in the tree |
| `FileTree.BlockOf` | fs/bmap.c:129-185 | every place for a data zone belongs to exactly one block number; which one, `LayoutOnDisk` says |
| `FileLayout.LayoutOnDisk` | fs/bmap.c:129-185 | the zone of block b is number b of the inode below 7, below 519 word b - 7 of the block that number 7 names, above that word (b - 519) % 512 of the block named by word (b - 519) / 512 of the block that number 8 names |
| `FileLayout.ReadOnDisk` | fs/inode.c:133-184 | a read returns, for each byte x of the file, byte x % 1024 of the zone of block x / 1024 so found, up to the end of the file |
| `FileLayout.WriteOnDisk` | fs/inode.c:186-245 | a write puts its bytes at those places |
| `FileLayout.FileModes` | fs/inode.c:135 | the modes that are read and truncated are those with the type bits of a regular file or a directory |
| `FileOwnership.BallocIsFree` | fs/bmap.c:11-38 | the zone handed out is the lowest free one and lies inside the data zones |
| `FileOwnership.PutZoneAt` | fs/bmap.c:129-185 | storing a zone in an empty place changes that place and no other |
| `FileOwnership.EnsurePathKeeps` | fs/bmap.c:129-185 | if the zones it takes for index blocks name no zone, bmap with create maps the block, keeps the mapping of every other block, and keeps: no zone is reached twice, every reached zone has its bit set |
| `FileContents.WriteStored` | fs/inode.c:186-245 | a write from any offset puts its bytes into the file, which grows if need be, maps just the blocks they fall into, and leaves every other mapped byte of all files alone, in all three regimes |
| `FileContents.WriteSplices` | fs/inode.c:186-245 | a write that starts at or before the end splices the data into the file and leaves every other file alone |
| `FileContents.ReadAfterWrite` | fs/inode.c:133-184 | what was written reads back, wherever the write started; without a gap any range reads as that part of the spliced sequence |
| `FileRuns.FilesRememberWrites` | fs/inode.c:133-295 | over every run of reads, writes from any offset and truncations of any files, in which no zone taken for an index block names a zone: a read is served only if all its blocks have been written, and returns every byte as it was last written |
| `FileRuns.OperationHalts` | fs/inode.c:133-295 | exactly when an operation halts: a write for its mode or lack of room, a read for its mode or a block never written, a truncation never |
| `FileRuns.RunNeedsBlankIndex` | fs/bmap.c:129-185 | a run that does not halt keeps the tree consistent all along if and only if no zone that it takes for an index block names a zone |
| `FileRuns.RunsAreRightExactly` | fs/inode.c:133-295 | every run on a consistent volume that does not halt: it gives back what was written, or one of its allocations breaks the tree |
| `FileRuns.FilesAreByteSequences` | fs/inode.c:133-295 | while no write leaves a gap, such a run gives the replies and contents of the same run on byte sequences |
| `FileRuns.ReadsFindNoHole` | fs/inode.c:133-184 | on a sound volume inode_read halts if and only if the mode is neither file nor directory: its assertion on holes never fires |
| `FileRuns.FreshIsSound` | fs/inode.c:186-245 | a volume whose files have no size and no zone is where runs may start: it is sound and every file is empty |
| `FileRuns.GrowingRunsAreClean` | fs/bmap.c:11-38 | from blank free zones every run of reads and writes meets the condition of the run theorem |
| `FileRuns.FreshFilesAreByteSequences` | fs/inode.c:133-245 | from a fresh volume with blank free zones, runs of reads and of writes without gaps are runs on byte sequences with no further condition |
| `FileRuns.FreshFilesRemember` | fs/inode.c:133-245 | from there runs of reads and of writes from any offset give back what was written, with no further condition |
| `FileLimits.BmapNeedsBlankIndex` | fs/bmap.c:129-185 | since balloc does not clear the zone, the walk of bmap with create keeps a consistent tree consistent if and only if every zone it takes for an index block, at either level, names no zone when it is taken |
| `FileLimits.TurnNeverRepairs` | fs/bmap.c:161-184 | a tree that names a zone twice or names a free one is not mended by a further turn |
| `FileLimits.WriteNeedsBlankIndex` | fs/inode.c:186-245 | a write that does not halt keeps the tree consistent after each of its allocations if and only if no zone that it takes for an index block names a zone |
| `FileLimits.WriteIsRightExactly` | fs/inode.c:186-245 | any write that does not halt, from any offset, on a consistent volume: it does what a write should, or one of its allocations breaks the tree |
| `FileLimits.StaleIndexOverwrites` | fs/bmap.c:129-185 | a consistent disk with one stale zone, on which appending a byte overwrites the file's first byte |
| `FileSpace.BallocHalts` | fs/bmap.c:11-38 | balloc halts if and only if no zone of the volume is free |
| `FileSpace.PathSpace` | fs/bmap.c:129-185 | bmap with create takes one zone for each missing entry on its way and halts if and only if they are too few |
| `FileSpace.WriteHalts` | fs/inode.c:186-245 | a write halts for lack of room if and only if its last byte lies beyond the largest file or the free zones are fewer than the data and index entries that its blocks lack |
| `FileLimits.HoleExactly` | fs/inode.c:152 | the assertion of inode_read holds after a write if and only if every block before the write was mapped; a write from the end or before always meets it |
| `FileLimits.HoleAppears` | fs/inode.c:186-245 | such a write on a consistent volume of one empty file |
| `FileTruncate.ReachesSplit` | fs/inode.c:247-267 | what a subtree owns: its own zone and what its 512 children own |
| `FileTruncate.SubtreesApart` | fs/inode.c:247-267 | different subtrees own different zones |
| `FileTruncate.TruncateKeepsOthers` | fs/inode.c:269-295 | after truncation the file owns nothing and is empty; the zones, contents and readability of all others stay |
| `FileTruncate.TruncateLeaksNothing` | fs/inode.c:269-295 | if every allocated zone was owned before, it is after |
| `FileTruncate.TruncatedUnique` | fs/inode.c:269-295 | what truncation is proved to do determines the volume after it |
| `FileTruncate.TruncateSound` | fs/inode.c:269-295 | truncation of a file or directory keeps a sound volume sound, empties the file and keeps the contents of all others |
| `FileSystem.Volume.AllocZone` | fs/bmap.c:11-38 | refines the lowest free zone, sets its bit only, and fails exactly where balloc halts |
| `FileSystem.Volume.FreeZone` | fs/bmap.c:40-71 | clears the zone's bit only |
| `FileSystem.Volume.Fill` | fs/bmap.c:161-167 | a missing entry gets what balloc hands out, and nothing else changes |
| `FileSystem.Volume.Turn` | fs/bmap.c:161-184 | one turn of the loop of bmap |
| `FileSystem.Volume.Bmap` | fs/bmap.c:129-185 | whatever the index blocks hold, the result is the number that the layout on the disk has for the block; with create the walk is the specified allocation |
| `FileSystem.Volume.InodeRead` | fs/inode.c:133-184 | halts if and only if the mode is neither file nor directory or a block that it touches is a hole; otherwise the loop returns the requested part of the file's bytes, EOF past the end |
| `FileSystem.Volume.InodeWrite` | fs/inode.c:186-245 | whatever the index blocks hold, the loop over blocks is the specified write; on a consistent volume it halts if and only if the mode is zero or there is no room, in the sense of `WriteHalts` |
| `FileSystem.Volume.FreeTree` | fs/inode.c:247-267 | the recursion clears the bits of exactly the zones the entry reaches, each still in use when its turn comes |
| `FileSystem.Volume.InodeTruncate` | fs/inode.c:269-295 | exactly the bits of the file's zones are cleared, so the in-use assertion of bfree never fires, and size and entries become zero; anything but a file or directory stays as it is |
| `ArenaSpec.ClassFor` | kernel/arena.c:61-66 | the smallest class whose blocks are large enough |
| `ArenaSpec.PagesAreFull` | kernel/arena.c:10-21 | the classes are the powers of two from 16 to 1024, and a page yields as many blocks as fit behind its header: one more would not |
| `ArenaSpec.BlockPlace` | kernel/arena.c:24-31 | blocks follow each other behind a header of sixteen bytes |
| `ArenaSpec.LargePagesExact` | kernel/arena.c:45-59 | a large request gets as many pages as it and the header need, and not one more |
| `ArenaSpec.BlockOffset` | kernel/arena.c:24-31 | every block of every class lies inside its page, behind the header |
| `ArenaSpec.MaskFindsHeader` | kernel/arena.c:24-36 | masking the address of any block, or of a large allocation, gives the page of its own header |
| `ArenaSpec.BlocksApart` | kernel/arena.c:24-31 | different blocks of a page do not overlap |
| `ArenaInvariant.LiveApart` | kernel/arena.c:38-127 | live allocations occupy disjoint ranges |
| `ArenaInvariant.LiveOffHeaders` | kernel/arena.c:38-127 | no live allocation overlaps an arena header |
| `ArenaInvariant.LiveOffFree` | kernel/arena.c:38-127 | no live allocation overlaps a free block |
| `ArenaInvariant.LargeCoversRequest` | kernel/arena.c:45-59 | a large allocation covers the request if and only if size + 16 does not wrap; when it wraps, one page is handed out |
| `ArenaInvariant.LargeWraps` | kernel/arena.c:45-59 | a request for which that happens |
| `ArenaInvariant.AllFreedRestoresBitmap` | kernel/arena.c:112-126 | with nothing live there is no arena, and the page bitmap is what it was at the start |
| `ArenaRuns.FreePagesHalts` | kernel/memory.c:310-338 | the assertion of reset_page holds for the pages of an arena |
| `ArenaRuns.RemoveBlocksEffect` | kernel/arena.c:115-123 | taking a page's blocks off the list succeeds when all are on it, and removes just them |
| `ArenaRuns.KmallocKeeps` | kernel/arena.c:38-94 | kmalloc halts exactly for lack of pages; otherwise it returns a new address, keeps the accounting invariant (counts are exact, below the total, every block free or live), and gives the room asked for unless the size wraps |
| `ArenaRuns.KfreeKeeps` | kernel/arena.c:96-127 | kfree of a live address trips no assertion and keeps the invariant |
| `ArenaRuns.NewPageWhenFull` | kernel/arena.c:68-86 | a request of at most 1024 bytes takes a page, and then just one, if and only if every block that fits in the pages of its class is live |
| `ArenaRuns.PageStaysWhileLive` | kernel/arena.c:96-127 | a page belongs to the heap if and only if something in it is live |
| `ArenaRuns.HeapIsSafe` | kernel/arena.c:38-127 | over every run, what is live has its room, overlaps nothing and can be freed; when all is freed, in any order, the page bitmap is bit for bit the first one |
| `Arenas.KernelHeap.constructor` | kernel/arena.c:10-21 | the loop fills the descriptors with the sizes 16 to 1024, and with the number of blocks for which a page has room behind its header, while one more would not fit |
| `Arenas.KernelHeap.SearchClass` | kernel/arena.c:61-66 | the loop finds the smallest sufficient class |
| `Arenas.KernelHeap.PushAll` | kernel/arena.c:79-85 | pushes every block of the page, each absent before |
| `Arenas.KernelHeap.Kmalloc` | kernel/arena.c:38-94 | refines the specified kmalloc, None exactly where the kernel halts |
| `Arenas.KernelHeap.UnlistAll` | kernel/arena.c:117-123 | takes every block of the page off the list, each present before |
| `Arenas.KernelHeap.Kfree` | kernel/arena.c:96-127 | refines the specified kfree |
| `BufferSpec.AreasNeverMeet` | kernel/buffer.c:79-100 | headers growing up and data areas growing down never overlap |
| `BufferSpec.HowManyFit` | kernel/buffer.c:83 | exactly 3855 buffers are created |
| `BufferSpec.SearchIsExact` | kernel/buffer.c:33-60 | the chain search finds the block's buffer if and only if there is one |
| `BufferSpec.GetblkWired` | kernel/buffer.c:129-147 | getblk keeps one buffer per block, each in its own chain, free exactly if unreferenced; its assertions hold; it sleeps exactly when all 3855 buffers are referenced |
| `BufferSpec.EvictsOnlyWhenFull` | kernel/buffer.c:103-147 | a miss takes a new buffer while fewer than 3855 exist, and only then the back of the free list; a hit or a new buffer leaves all others as they are |
| `BufferRuns.AllowedIsEnabled` | kernel/buffer.c:129-204 | no step a client may take trips an assertion |
| `BufferRuns.EvictAgrees` | kernel/buffer.c:115-122 | eviction loses nothing: the evicted buffer's bytes are on the disk |
| `BufferRuns.StepKeeps` | kernel/buffer.c:129-204 | every step keeps structure, reference counts, cleanliness of unreferenced buffers, agreement with the plain array, and release order |
| `BufferRuns.ReadsLatest` | kernel/buffer.c:150-168 | bread returns the latest contents of the block whatever was evicted |
| `BufferRuns.AllReleasedIsOnDisk` | kernel/buffer.c:182-204 | once all references are released the disk holds the latest contents |
| `BufferRuns.ReleasedIsOnDisk` | kernel/buffer.c:182-204 | after a release the disk has the latest contents of the block, whoever else holds the buffer |
| `BufferRuns.EvictsLeastRecentlyReleased` | kernel/buffer.c:115-122 | the evicted buffer was released longest ago |
| `BufferRuns.CacheRefinesDisk` | kernel/buffer.c:79-204 | over every run of clients that mark what they changed, and do not read a block while an overwrite of it waits in an unread buffer, the cache is a plain block array |
| `BufferRuns.BreadKeepsBytes` | kernel/buffer.c:150-168 | bread leaves a cached buffer's bytes alone if and only if they are valid or equal to the disk |
| `BufferRuns.BreadIsLatestExactly` | kernel/buffer.c:150-168 | at any point of a run bread of a cached block returns its latest contents if and only if the buffer is not an unread one whose stored bytes differ from the disk |
| `BufferRuns.OverwriteReachesDisk` | kernel/buffer.c:129-204 | for every disk, block and bytes: get, overwrite, mark and release, without reading, puts the bytes on the disk |
| `BufferRuns.StoreIsLost` | kernel/buffer.c:150-168 | for every disk, block and other bytes: after get, overwrite and mark, bread brings the old bytes back and the buffer is clean |
| `BufferCaches.BlockCache.constructor` | kernel/buffer.c:206-217 | the loop makes 31 empty chains and an empty free list, with both pointers at their ends |
| `BufferCaches.BlockCache.Search` | kernel/buffer.c:39-47 | the walk along the chain is the specified search |
| `BufferCaches.BlockCache.GetFromHashTable` | kernel/buffer.c:33-60 | a found buffer is off the free list |
| `BufferCaches.BlockCache.HashLocate` | kernel/buffer.c:62-68 | a buffer that was in no chain is in the chain of its key, in front, and in no other; every other buffer stays where it was |
| `BufferCaches.BlockCache.HashRemove` | kernel/buffer.c:71-77 | the buffer, in the chain of its key only, is then in no chain; every other buffer stays where it was |
| `BufferCaches.BlockCache.GetNewBuffer` | kernel/buffer.c:79-100 | a fresh buffer exactly while the pointers leave room |
| `BufferCaches.BlockCache.TakeOldest` | kernel/buffer.c:115-122 | takes the back of the free list, unhashed and invalid |
| `BufferCaches.BlockCache.Getblk` | kernel/buffer.c:129-147 | refines the specified getblk; both assertions are proved |
| `BufferCaches.BlockCache.Bread` | kernel/buffer.c:150-168 | refines the specified bread |
| `BufferCaches.BlockCache.Bwrite` | kernel/buffer.c:171-179 | refines the specified bwrite |
| `BufferCaches.BlockCache.Brelse` | kernel/buffer.c:182-204 | refines the specified brelse; its assertions are proved |
| `Elevators.NextReqIsNullOnlyAlone` | kernel/device.c:139-168 | request_nextreq returns NULL if and only if nothing else is queued |
| `Elevators.ArriveKeeps` | kernel/device.c:194-207 | an arrival keeps the queue sorted with exactly one served request, the others blocked on record |
| `Elevators.FinishKeeps` | kernel/device.c:211-220 | a completion hands the disk to exactly one other request, whose task is on record |
| `Elevators.HandOff` | kernel/device.c:171-221 | over every interleaving of arrivals and completions that invariant holds, and every arrival is queued or served exactly once |
| `Elevators.FromIdle` | kernel/device.c:171-221 | from an idle disk every sector that arrived is queued or has been served, once each, and all are served when the queue is empty |
| `Elevators.RecordsWhoAsked` | kernel/device.c:200-207 | over every interleaving the task on record for a queued sector is one that asked for just that sector |
| `Elevators.NextSector` | kernel/device.c:139-168 | going up, the next request is the one of the least sector above, or at the top the greatest below; going down the other way round |
| `Elevators.ServiceOrder` | kernel/device.c:139-168 | from position k moving up: ascending to the top, then descending through the rest; mirrored when moving down |
| `Elevators.TotalTravel` | kernel/device.c:139-168 | the exact head travel, at most twice the span of the queue |
| `Elevators.DirectionFlips` | kernel/device.c:143-150 | the exact number of turns until the queue is empty, one of them by the last request alone |
| `Elevators.BlockDevice.Submit` | kernel/device.c:194-207 | linking the request's node in with list_insert_sort refines the arrival step; goes on unblocked exactly if the queue was empty |
| `Elevators.BlockDevice.NextRequest` | kernel/device.c:139-168 | following the node's pointers, with the tests against the two end nodes, gives the specified choice and turn |
| `Elevators.BlockDevice.HandOn` | kernel/device.c:213-220 | the request's node is unlinked, its record goes, and the next one's task is the one woken |
| `Elevators.BlockDevice.Complete` | kernel/device.c:211-220 | refines the completion step on the linked nodes; a task is woken exactly if something is left, and its request is then the served one |
| `Locks.NextKeeps` | kernel/mutex.c:13-97 | no statement trips an assertion, and each keeps the invariant of owner, count, holder and queue |
| `Locks.LockIsSafe` | kernel/mutex.c:13-97 | over every interleaving of statements: at most one owner, repeat is its unmatched acquires, no assertion fails, no lost wakeup |
| `Locks.FreedAtOutermost` | kernel/mutex.c:82-97 | a release goes on to free the mutex if and only if one acquire is left |
| `Locks.ValueFallsOnlyAtUnlock` | kernel/mutex.c:33-57 | the mutex bit falls nowhere else, and then the task holds nothing any more |
| `Locks.QueueIsFifo` | kernel/mutex.c:13-57 | over every move tasks queue at the front and are woken from the back, in no other way |
| `Locks.Lock.MutexLock` | kernel/mutex.c:13-31 | keeps the invariant: the task that enters owns the mutex, or is queued in front and asleep while another one owns it |
| `Locks.Lock.MutexUnlock` | kernel/mutex.c:33-57 | keeps the invariant: nobody owns the mutex, and the task that waited longest, if any, is off the queue and awake |
| `Locks.Lock.Step` | kernel/mutex.c:66-97 | every statement of lock_acquire and lock_release on the object is a step of the specification |
| `TaskTables.ForkKeeps` | kernel/task.c:338-354 | fork into the first free slot keeps the invariant |
| `TaskTables.ForkGivesChild` | kernel/task.c:338-388 | a fork gives its caller, and nobody else, a child in a slot that was empty: the caller's waitpid finds it and blocks for it, no other task can wait for it, and no other family changes |
| `TaskTables.ExitKeeps` | kernel/task.c:391-438 | exit with reparenting and the wakeup of the parent keeps it |
| `TaskTables.ExitHandsOver` | kernel/task.c:391-438 | exit hands the children to the parent of the dead task, which stays that parent's child with its status, and wakes that parent if it waits for it or for any child |
| `TaskTables.ScanMeans` | kernel/task.c:440-485 | waitpid returns -1 if and only if there is no matching child, blocks if and only if all are alive, else reaps the first dead one with its status |
| `TaskTables.WokenReaps` | kernel/task.c:440-485 | a task woken inside waitpid always finds a dead child |
| `TaskTables.OnlyParentReaps` | kernel/task.c:440-485 | over every run in which a task does not exit, only its own waitpid takes a child of it off the table |
| `TaskTables.StepKeeps` | kernel/task.c:338-485 | no step halts the kernel but fork with a full table, and each keeps the invariant |
| `TaskTables.FamiliesStayConsistent` | kernel/task.c:338-485 | over every run from boot: parents are present and not dead, a waiting task has a live matching child and no dead one, no child is reaped twice |
| `TaskTables.ZombieWaits` | kernel/task.c:391-485 | a dead task keeps its status until a waitpid of its parent takes it off the table and returns just that pid and status |
| `TaskTables.StatusIsDelivered` | kernel/task.c:391-485 | over every run after a task exits, the task is still there with the status of that exit, or a waitpid of its then parent has returned just that status |
| `Schedulers.SearchMeans` | kernel/task.c:82-107 | the search returns a ready task other than the running one, none exactly if there is none, and no later one is preferred to it |
| `Schedulers.SearchIsRightExactly` | kernel/task.c:82-107 | the search ends on a task that every earlier candidate yields to and that yields to no later one if and only if there is such a task |
| `Schedulers.BestIsUndominated` | kernel/task.c:97 | no ready task has more ticks left than that task and has waited longer |
| `Schedulers.SearchIsFairExactly` | kernel/task.c:82-107 | the search finds the best task whichever tasks of a table are ready if and only if no three of them form a cycle of the comparison |
| `Schedulers.CycleMisleads` | kernel/task.c:82-107 | with just the three tasks of any cycle ready the search ends on the last, which the first does not yield to |
| `Schedulers.ScheduleKeeps` | kernel/task.c:210-234 | schedule leaves exactly one task running: a ready one if there is another, else the idle task |
| `Schedulers.ScheduleTicks` | kernel/task.c:223-226 | the task that gives up the processor gets its priority if it has no tick left; no other number of any task changes |
| `Schedulers.BlockKeeps` | kernel/task.c:114-132 | blocking the running task trips no assertion, puts it on the list and gives the processor to a ready task |
| `Schedulers.SleepKeeps` | kernel/task.c:143-163 | a sleep trips no assertion, puts the running task on the sleep list and gives the processor to a ready task |
| `Schedulers.UnblockKeeps` | kernel/task.c:134-141 | waking a blocked task trips no assertion, takes it off the list and makes it ready |
| `Schedulers.WakeupKeeps` | kernel/task.c:165-184 | a wakeup keeps the invariant and touches sleeping tasks only |
| `Schedulers.InterruptKeeps` | kernel/clock.c:43-58 | an interrupt counts one tick, takes one from the running task, calls schedule if that was its last, and keeps the invariant |
| `Schedulers.ForkKeeps` | kernel/task.c:338-354 | a fork halts exactly with a full table; otherwise the child is ready in a slot that was empty, with the parent's priority and a full time slice, and the invariant stays |
| `Schedulers.ReapKeeps` | kernel/task.c:440-485 | taking a dead task off the table keeps the invariant |
| `Schedulers.FirstSwitch` | kernel/task.c:500-509 | of the three tasks made at boot the first schedule chooses init |
| `Schedulers.BootTable` | kernel/task.c:500-509 | the table at boot: idle with priority 1, init and test with 5, init running |
| `Schedulers.BootInv` | kernel/task.c:500-509 | the invariant holds after that first switch |
| `Schedulers.OneTaskRuns` | kernel/task.c:82-485 | over every run from boot of yields, blocks, sleeps, wakeups, exits, forks, reaps and clock interrupts: exactly one task runs, the blocked and the sleeping ones are just those on the lists, and the kernel halts only on a fork with a full table |
| `SchedulerRuns.SleepClock` | kernel/task.c:143-163 | on clock and sleep list, task_sleep of the system is that of `Sleepers`, a deadline of zero included |
| `SchedulerRuns.InterruptClock` | kernel/clock.c:43-58 | so is the interrupt, whatever it does to the running task |
| `SchedulerRuns.RunsAreSleeperRuns` | kernel/task.c:82-485 | every run of the system below 2^31 is, on clock and sleep list, a run of `Sleepers` |
| `SchedulerRuns.SleepsAsLongAsAsked` | kernel/task.c:143-184 | over every run from boot below 2^31, whatever other tasks do: a task that asks for ms milliseconds at time j is off the processor for n ticks of ten milliseconds, as many as fit and at least one, exactly until the interrupt that finds jiffies equal to j + n |
| `Quanta.KeepsProcessor` | kernel/clock.c:43-58 | a task that does not give up the processor keeps it through as many interrupts less one as it has ticks left, whoever becomes ready |
| `Quanta.LosesProcessor` | kernel/clock.c:43-58 | an interrupt takes the processor away if and only if that was the last tick and some task is ready once the sleepers are woken |
| `Quanta.SlicesAreShort` | kernel/clock.c:43-58 | over every run from boot in which nobody slept, the running task has at most five interrupts left |
| `Quanta.SearchIsNotFair` | kernel/task.c:97 | a run from boot at whose end schedule passes over a task that has more ticks left and has waited longer than the one it chooses |
| `Quanta.SleeperOverstays` | kernel/task.c:165-184 | a run from boot at whose end a woken sleeper runs without ticks beside a ready task; it keeps the processor through 2^32 - 1 interrupts unless it gives it up |
| `Processors.Processor.TaskSearch` | kernel/task.c:82-107 | the loop is the specified search |
| `Processors.Processor.Switch` | kernel/task.c:210-234 | refines schedule |
| `Processors.Processor.TaskBlock` | kernel/task.c:114-132 | refines task_block and keeps the invariant |
| `Processors.Processor.TaskUnblock` | kernel/task.c:134-141 | refines task_unblock and keeps the invariant |
| `Processors.Processor.TaskSleep` | kernel/task.c:143-163 | refines task_sleep and keeps the invariant |
| `Processors.Processor.TaskWakeup` | kernel/task.c:165-184 | the loop with its early break refines the wakeup and keeps the invariant |
| `Processors.Processor.ClockHandler` | kernel/clock.c:43-58 | refines the interrupt and keeps the invariant |
| `TaskCalls.TaskManager.FreeSlot` | kernel/task.c:31-45 | the loop finds the first free slot |
| `TaskCalls.TaskManager.Fork` | kernel/task.c:338-354 | refines the fork step; the child is ready and has the caller for its parent |
| `TaskCalls.TaskManager.Orphan` | kernel/task.c:419-427 | the loop hands over exactly the children of the task |
| `TaskCalls.TaskManager.Exit` | kernel/task.c:391-438 | refines the exit step |
| `TaskCalls.TaskManager.WaitPid` | kernel/task.c:440-485 | one turn of the loop is the specified scan |
| `Sleepers.WakeupExactness` | kernel/task.c:165-184 | on a sorted list a wakeup releases every due sleeper if and only if no later time of the upper half is queued beside a due time of the lower half |
| `Sleepers.TicksOfTime` | kernel/task.c:147-148 | a time in milliseconds is as many ticks of ten as fit, at least one |
| `Sleepers.LateWakeup` | kernel/task.c:143-184 | a run of two sleeps and two interrupts after which a sleeper is still on the list although its deadline has passed |
| `Sleepers.SleepInv` | kernel/task.c:143-163 | below 2^31 a sleep keeps the list sorted with nobody overdue |
| `Sleepers.TickReleases` | kernel/clock.c:43-58 | an interrupt releases exactly the sleepers whose deadline is jiffies |
| `Sleepers.WokenOnTime` | kernel/task.c:143-184 | over every run a sleeper is on the list exactly as long as jiffies has not passed its deadline |
| `Sleepers.SleepsExactly` | kernel/task.c:143-184 | n ticks asked for at time j end in the interrupt where jiffies is j + n |
| `Sleepers.SleepQueue.TaskSleep` | kernel/task.c:143-163 | linking the task's node in with list_insert_sort refines the sleep step, a deadline of zero included |
| `Sleepers.SleepQueue.Release` | kernel/task.c:134-141 | the first sleeper's node is unlinked, and the node behind it is the next of the loop |
| `Sleepers.SleepQueue.TaskWakeup` | kernel/task.c:165-184 | the walk along the nodes with its early break releases the specified prefix, in order |
| `Sleepers.SleepQueue.ClockHandler` | kernel/clock.c:43-58 | refines the interrupt: wake up first, count afterwards |
| `Numbers.DigitStringEvaluates` | lib/vsprintf.c:84-94 | the digits evaluate to the number in its base |
| `Numbers.LayoutLength` | lib/vsprintf.c:70-148 | the width is the wider of the field and sign, prefix and padded digits together |
| `Numbers.DigitTables` | lib/vsprintf.c:39-46 | the two digit tables, character by character |
| `Numbers.NumeralUnique` | lib/vsprintf.c:84-94 | a number has one numeral without leading zeros in each base and table |
| `Numbers.TextIs` | lib/vsprintf.c:36-149 | the whole text: blanks, sign (plus before blank), 0, 0x or 0X in the case of the digits, zeros for precision or field, the numeral, blanks behind, each as many as the flags ask for |
| `Numbers.PrintingInverts` | lib/vsprintf.c:36-149 | for every word, base 2 to 36, width, precision and flags, stripping blanks, sign and prefix and evaluating the digits gives the number back |
| `Numbers.NeverMinus` | lib/vsprintf.c:60-64 | no text that is printed holds a minus sign |
| `Numbers.NegativesPrintUnsigned` | lib/vsprintf.c:36-149 | for every base, width, precision and flags the text of a word reads as the signed number of the same bits if and only if that is not negative |
| `Numbers.MinusOne` | lib/vsprintf.c:336-344 | the word of -1 prints as 4294967295 |
| `Numbers.AtoiOfDecimal` | lib/vsprintf.c:21-27 | skip_atoi reads a printed decimal back exactly below 2^31, and as the signed word of the same bits otherwise |
| `Numbers.SkipAtoi` | lib/vsprintf.c:21-27 | the loop is the specified reader, in 32-bit arithmetic |
| `Numbers.CollectDigits` | lib/vsprintf.c:84-94 | the digit loop leaves the digits in reverse |
| `Numbers.EmitField` | lib/vsprintf.c:105-147 | the padding, sign, prefix and digit loops write the pieces in the specified order |
| `Numbers.Number` | lib/vsprintf.c:36-149 | refines the layout, whose characters `TextIs` gives; fails exactly for a base outside 2 to 36 |

## Left out

- Hardware and plumbing: ports, the IDE driver, console, keyboard, RTC, descriptor tables, assembly, boot, system
  call stubs and the shell.  The disk is an array and the running task a parameter of each step.
- TLB contents, register and stack building, and kernel-mode writes to read-only user pages.
- `free_pde` (kernel/memory.c:458-493) and the shrinking branch of `sys_brk` (kernel/memory.c:575-581): the first
  walks the kernel's directory slots and the second does not advance its counter.  `unlink_page` is the release
  step; a shrinking brk is not an operation of the runs.
- PagingKernel.Kernel.Fork: models the page bitmap of a process as a set of pages; its bytes are those of
  `Bitmap.dfy`.
- Zone maps beyond the first (fs/bmap.c:25 and 60 disagree on their base): volumes have at most 8192 zones.
- `ialloc` and `ifree`, which pass a bit count as a byte length, and fs/namei.c.
- FileContents.WriteStored: negative offsets and files of 2^32 bytes or more are outside; access times, link counts
  and the inode cache are not modelled.  A write that takes a zone naming zones for an index block is outside here
  and in the next six: `WriteIsRightExactly` says what it does to the tree, and that this is the exact condition.
- FileContents.WriteSplices: see `WriteStored`; a write beyond the end leaves a gap, of which no bytes are promised.
- FileContents.ReadAfterWrite: see `WriteStored`.
- FileLimits.HoleExactly: see `WriteStored`.
- FileSpace.WriteHalts: see `WriteStored`.
- FileRuns.FilesRememberWrites: see `WriteStored`; `RunsAreRightExactly` covers the other runs.
- FileRuns.FilesAreByteSequences: see `FilesRememberWrites`, which also covers writes that leave a gap.
- FileSystem.Volume.Bmap: reads and writes the disk directly; the block cache in between is a module of its own.
- Arenas.KernelHeap.Kfree: addresses that kmalloc did not return, or freed twice, are outside; the source detects
  neither in general.  The magic number stands for the presence of a header on the page.
- ArenaSpec.MaskFindsHeader: the bytes of blocks and headers are not modelled, only which ranges they occupy.
- BufferCaches.BlockCache.Getblk: blocking inside a call, the wait list and the per-buffer lock; each call is one
  step, and one that would sleep returns nothing and leaves the cache as it was.  Memory of new buffers counts as
  cleared, with list pointers NULL.
- BufferCaches.BlockCache.Bread: block numbers of 2^31 and more, whose sector number would wrap; two device numbers
  are taken to name different blocks.
- Elevators.BlockDevice.Submit: the request's memory comes from kmalloc uncleared; its list node is taken to hold
  NULL, as the insertion asserts.  Sectors are offset by the partition before they arrive.
- Elevators.HandOff: inserting the request and recording its task are one step.
- Locks.LockIsSafe: the count `repeat` is unbounded here, 32 bits in the source; a task releases only what it has
  acquired; the queue is not fair, since a third task may take the freed mutex first.
- TaskTables.FamiliesStayConsistent: pids 0 and 1 never exit; READY and RUNNING are one state and the scheduler may
  choose any of them; files, directories and memory that exit releases are not part of the task table.
- Schedulers.ScheduleKeeps: that a ready task runs in the end is not claimed; register state, page directory and
  interrupt flag are not modelled, and the several lists of blocked tasks are one.
- Processors.Processor.TaskSleep: the lists of this class are sequences; `Sleepers.SleepQueue` has the same sleep list
  on linked nodes.
- TaskCalls.TaskManager.Exit: requires the parent's slot to be filled, which `ExitKeeps` proves of every reachable
  table.
- Sleepers.SleepsExactly: times of 2^31 ticks and more; `WakeupExactness` covers a single wakeup there.
- Numbers.Number: field width and precision are unbounded integers, so a width near -2^31 does not wrap; the rest of
  `vsprintf` (parsing of format strings) is not part of this model.
- `fifo`, BCD, `mktime`, the file table and the string helpers, which would add only easy members.
