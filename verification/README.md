# BlueyOS kernel model

A Dafny model of the stateful parts of BlueyOS, a small i386 kernel, and proofs of what each of
them keeps. Values and pure functions say what a component means; classes with the fields the
kernel updates do what its code does, step by step, and are proved to refine those functions.

| files | models |
|---|---|
| KHeap | the first-fit kernel heap (`kernel/kheap.c`) |
| PageTables, CloneCost, Paging | address spaces, page tables and frames (`kernel/paging.c`); page tables come from KHeap |
| FdModel, FdSafety, FdCalls, Vfs | descriptor tables, pipes, socket references (`fs/vfs.c`, `kernel/socket.c`) |
| Fork | fork over Paging, KHeap and Vfs (`kernel/process.c`) |
| Bytes, DirBlock, Directory, DirEdit, DirTxn | BiscuitFS directories, byte by byte (`fs/blueyfs.c`) |
| Journal, BlockAlloc, BlockTally | the redo journal, the block allocator, and what it leaves behind over runs (`fs/blueyfs.c`) |
| Format | the bitmaps and counts of a fresh volume (`tools/mkfs_blueyfs.c`) |
| MakeDir, BiscuitFs | directories made and edited through journal and allocator (`fs/blueyfs.c`) |
| Fairness, Sched | the fair scheduler with the signals, exits and wake-ups its dispatch sets off (`kernel/scheduler.c`, `kernel/signal.c`, `kernel/process.c`) |
| Terminal, Consoles, Tty | virtual consoles over one parser and one screen (`kernel/tty.c`, `drivers/vt100.c`, `drivers/vga.c`) |
| Sha256 | SHA-256 streaming (`kernel/sha256.c`), against FIPS 180-4 |
| PathNorm | the path normaliser (`kernel/syscall.c`) |
| InitialStack | the initial stack of a program (`kernel/elf.c`), against the System V ABI for i386 |
| Fat | FAT16 reads (`fs/fat.c`) |
| Calendar | the two calendar conversions (`kernel/sysinfo.c`, `kernel/rtc.c`) |

## Main results

- Memory. The heap's block list is a function of its live allocations. Every private table and
  every user frame has one owner. Fork isolates: the child's frames are fresh, hold equal
  contents and are reachable from nowhere else. Clone and fork succeed exactly when heap, frames and
  stacks suffice. A clone that fails part-way, and a clone that is destroyed, restore tables, frame
  bitmap and heap block list exactly; so does a fork that fails at any later step, and it leaves
  every descriptor count alone.
- Descriptors. In every state reachable by any operations of any number of processes, each pipe
  and socket count is the number of open descriptors that name it, so none dangles. Over each pipe
  lifetime the bytes read are a prefix of the bytes written, across recycling of slots.
- Files. Lookup over a whole directory is a finite map; add and remove change one name. Together
  with the journal this holds across a crash: which crash points are safe is characterised exactly.
  Making a directory is followed as one transaction through allocator and journal, to what parent and
  child hold afterwards. Over all runs of transactions with one allocation each no block is given twice.
- Scheduling. Fairness, bounded waiting and equal shares over all runs, exactly where they fail,
  and termination of the dispatch loop through everything signal delivery can do. A trap on a ring
  of runnable processes is a step of the fairness model and leaves such a ring behind.
- Consoles. Three consoles behave as three terminals up to colour in every run, and colour
  included exactly when their initial colours are consistent.

## Where the code does not keep the naive promise

Each is stated with its exact condition, for all inputs.

- Replay never looks at the commit block: a crash after the descriptor but before the last log
  block replays stale log contents over the disk (`Journal.AllOrNothingExactly`).
- Block allocation reads the bitmap on disk, which an allocation only changes at the commit: within
  one transaction the next call returns the same block, if and only if its group counts another free
  one (`BlockAlloc.SameBlockAgain`; on every fresh volume with two blocks left `Format.FreshSameBlock`,
  on a concrete one `Format.SmallVolume`). Then a directory made in a full parent shares its block with
  the parent and holds nothing but its own name (`MakeDir.ChildInFull`, `BiscuitFs.Volume.MakeDir`), and if the
  parent's inode is in the same block its own inode is lost (`MakeDir.InodeLost`). With one allocation
  in each transaction no block is ever given twice (`BlockTally.NeverTwice`).
- The counts of free blocks are right after a commit if they were before (`BlockTally.CommittedTally`),
  but not after an abort, a mount that reads them before it replays an allocation
  (`BlockTally.AbortedTally`) or the same block twice (`BlockTally.DoubledTally`), and on a fresh volume for one size only
  (`Format.FormattedTalliedIff`). An allocation fails if and only if every group counts none or is
  full (`BlockTally.RefusesIff`), which after an abort can be with a block free
  (`BlockTally.AbortedLast`).
- Not all metadata of a fresh volume is marked in use if and only if it has more than 8707 blocks
  (`Format.MetadataMarkedIff`): once the first group is used up, the allocator hands out the last block
  of the second inode table (`Format.InodeTableGranted`).
- A stop signal does not look at whether its target has exited; a continue then makes an exited
  process ready (`Sched.ExitedStaysExitedIff`).
- Switching consoles re-derives the attribute from the colour state; the contexts made at boot
  disagree with it (`Consoles.ColorsIsolatedIff`, `Consoles.BootLosesColors`).
- "Erase to start" (`ESC [ 1 J`), as `drivers/vt100.h` calls it, ends one row above the cursor: it
  does its job if and only if the eighty cells that end at the cursor were blank
  (`Terminal.EraseToStartIff`, on a concrete screen `Terminal.EraseToStartLeavesCursor`).
- The path normaliser answers `-ERANGE` although the result would fit when it fills the buffer
  exactly (`PathNorm.ResolveNormalize`, `PathNorm.ExactFitRefused`).

Three limits no run of the repository reaches:

- Above priority 5 a slice of one tick is charged nothing, and such a process could keep every other
  from running (`Fairness.ChargesEveryTickIff`, `Fairness.StarvesIff`); the only priority ever assigned
  is 5 (`kernel/process.c:334`), and up to 5 are exactly the safe ones.
- The comment on `cfs_min_vruntime` calls it wrapping-safe. Comparing the 64-bit values finds the least
  if and only if all processes have wrapped equally often (`Fairness.WrapOrder`,
  `Sched.Kernel.LeastIsTrueIff`), which takes 2^64 charged ticks to break. The fairness results ask
  that none wraps.
- The journal buffer drops a seventeenth block, and an addition to a directory would still report
  success: the name is added if and only if all its updates fit (`DirTxn.AddedIffBuffered`). Every
  caller leaves room for them (`BiscuitFs.CallersAdd`).

## How to read it

A class method ends in `ensures` clauses that equate the new abstract state with a function of the
old one: `Vfs.Vfs.S`, `Paging.Mmu.L`, `Tty.Driver.Abs`, `Sched.Kernel.RingSys`, `Journal.Perform`.
The lemmas about those functions then apply to the code. Preconditions are the callers'
obligations in the kernel: only live pointers are freed, a process unmaps only what it owns, a
block handed out by the allocator is not in use.

## Model

| member | source | states |
|---|---|---|
| KHeap.LivePayloadsDisjoint | kernel/kheap.c:28-118 | live blocks of a tiled heap never overlap |
| KHeap.CanonicalDeterminedByLive | kernel/kheap.c:28-118 | with no two free blocks adjacent, the block list is determined by the live allocations alone |
| KHeap.FitsIffAdmissible | kernel/kheap.c:34-62 | a block is taken for a request exactly when some start in it satisfies alignment and size |
| KHeap.RoundUpLeast | kernel/kheap.c:46-48 | the aligned start is the least page boundary at or above the payload |
| KHeap.AllocCanonical | kernel/kheap.c:64-97 | splitting with any prefix and suffix keeps the heap tiled and coalesced and adds exactly one live block |
| KHeap.FreeCanonical | kernel/kheap.c:102-118 | freeing and coalescing keeps the canonical form and removes exactly the freed block from the live ones |
| KHeap.CoalesceCanonical | kernel/kheap.c:110-117 | the merge loop ends in a list without adjacent free blocks and with the same live blocks |
| KHeap.AllocThenFreeRestores | kernel/kheap.c:28-118 | freeing the block just allocated restores the exact previous block list, aligned or not |
| KHeap.Heap.Init | kernel/kheap.c:18-26 | one free block fills the heap |
| KHeap.Heap.Alloc | kernel/kheap.c:28-100 | result is 0 exactly when no free block can serve the request; otherwise the payload is aligned as asked, is new, and the block list is the first-fit split; nothing changes on failure |
| KHeap.Heap.Free | kernel/kheap.c:102-118 | a live pointer is released and the list is coalesced; every other live block stays |
| PageTables.IndicesNumberPages | kernel/paging.c:247-248 | the two indices together are the number of the page |
| PageTables.SameCellIff | kernel/paging.c:247-248 | two addresses share a cell exactly if they lie in one page |
| PageTables.MapsPageAddresses | kernel/paging.c:245-319 | changing one cell changes the addresses of one page and no others, in every directory |
| PageTables.FramesExclusive | kernel/paging.c:245-302 | in every layout the operations reach, a user frame is mapped at one cell of one directory only |
| PageTables.TablesExclusive | kernel/paging.c:73-111 | a private table hangs in one slot of one directory only |
| PageTables.FramesOfExact | kernel/paging.c:457-490 | the frames owned by a space are exactly those at or above 4 MB in its private tables |
| PageTables.SetEntryLookup | kernel/paging.c:245-269 | writing an entry of an owned table changes one page of one directory, or for the kernel also of those sharing the slot |
| PageTables.InstallLookup | kernel/paging.c:73-111 | privatising a slot changes no translation of any directory |
| PageTables.InstallInv | kernel/paging.c:73-111 | hanging a fresh table keeps every ownership |
| PageTables.ReleasedRestores | kernel/paging.c:457-490 | releasing what a new space added gives back the layout before it, frame marks included |
| PageTables.ReleaseSlotFrames | kernel/paging.c:466-486 | one turn of teardown frees each frame of the slot once and none owned elsewhere |
| PageTables.CloneIsolated | kernel/paging.c:387-455 | after a clone no other cell of any directory maps a frame of the child |
| PageTables.ExtendsKeepsLookups | kernel/paging.c:387-455 | a clone, finished or not, changes no translation of a directory that existed |
| PageTables.CloneDone | kernel/paging.c:399-450 | when all slots are done the child is a clone: same flags and contents in fresh frames, everything else as in the kernel directory |
| Paging.Pmm.AllocFrame | kernel/paging.c:29-37 | the lowest free frame from 1 on is marked and returned, 0 exactly when all are used |
| Paging.Pmm.FreeFrame | kernel/paging.c:39-42 | exactly that frame is unmarked |
| Paging.Mmu.constructor | kernel/paging.c:217-239 | the kernel directory maps the first 4 MB onto themselves and those frames are marked |
| Paging.Mmu.EnsurePageTable | kernel/paging.c:73-111 | an absent or shared slot gets a table of its own, no translation changes, and it fails exactly when the heap has no page |
| Paging.Mmu.MapIn | kernel/paging.c:245-269 | every address of the page translates to the frame with the flags asked, every address of another page as before in every directory; if the heap is out of pages nothing happens |
| Paging.Mmu.UnmapIn | kernel/paging.c:280-302 | the addresses of that page and no others lose their translation; the frame is freed unless it is below 4 MB; -1 and no change if it was not present |
| Paging.Mmu.SetPageFlags | kernel/paging.c:304-319 | the flags of the addresses of that page and no others change; -1 and no change if it was not present |
| Paging.Mmu.CreateSpace | kernel/paging.c:321-328 | a new directory translates as the kernel does, or nothing changes |
| Paging.Mmu.CopyFrame | kernel/paging.c:347-385 | the destination frame gets the source contents and the scratch slots are put back |
| Paging.Mmu.CloneSpace | kernel/paging.c:387-455 | succeeds exactly when the heap can serve a page for the directory and each private table in turn and enough frames are free for the copied pages; then a clone of the source, otherwise heap, tables and frame marks exactly as before |
| CloneCost.PaidSlot | kernel/paging.c:399-450 | one slot takes a page of heap if it is private and a frame for each page it copies; the clone can no longer be afforded as soon as either is missing |
| CloneCost.FullCount | kernel/paging.c:29-37 | no frame is free exactly when as many are in use as there are |
| Paging.Mmu.DestroySpace | kernel/paging.c:457-490 | exactly the tables, frames and directory of the space are released; the kernel directory and 0 are left alone |
| Paging.Mmu.Abandon | kernel/paging.c:387-455 | destroying what there is of a clone that failed gives back the previous layout and the exact previous block list |
| Paging.CloneThenDestroyRestores | kernel/paging.c:387-490 | a clone destroyed at once leaves layout, frame bitmap and heap block list as they were |
| FdModel.LinkCounted | fs/vfs.c:735-745 | filling a slot with a copy and counting it keeps every count equal to the number of descriptors |
| FdModel.UnlinkCounted | fs/vfs.c:656-680 | closing a descriptor and dropping its reference keeps every count exact, and frees only what no descriptor names |
| FdModel.DropRefEffect | kernel/socket.c:298-338 | dropping one reference lowers one count by one; a pipe or socket goes free only with its last name |
| FdModel.LowestFree | fs/vfs.c:307-329 | the lowest unused descriptor from the start on, or -1 exactly when there is none |
| FdModel.FreePipe | fs/vfs.c:122-135 | the lowest unused pipe slot, or -1 exactly when there is none |
| FdModel.FreeSocket | kernel/socket.c:68-77 | the lowest unused socket slot, or -1 exactly when there is none |
| FdSafety.Run | fs/vfs.c:656-886 | every state reachable by any operations of any processes keeps the counting invariant over all tables |
| FdSafety.ApplyInv | fs/vfs.c:656-886 | each operation keeps counts, names and streams |
| FdSafety.OpenPipeInv | fs/vfs.c:792-836 | a pipe is opened with both ends counted once, or everything is rolled back |
| FdSafety.InheritInv | fs/vfs.c:1143-1169 | a fork counts every inherited descriptor, also part-way through the table |
| FdSafety.CloseAllInv | fs/vfs.c:1176-1201 | an exit closes every descriptor and drops every count it held |
| FdSafety.Dup2Inv | fs/vfs.c:750-790 | dup2 keeps the counts also when the target was open or names the same thing |
| FdSafety.NewSocketInv | kernel/socket.c:113-192 | a socket slot is attached with one reference or given back |
| FdSafety.OpenNeverDangles | fs/vfs.c:344-360 | no open descriptor names a free or recycled pipe or socket, in any run |
| FdSafety.RecycledUnnamedAndEmpty | fs/vfs.c:122-135 | a pipe slot starts a new lifetime only when nobody names it, and with no bytes |
| FdSafety.MostStepsQuiet | fs/vfs.c:656-886 | nothing but opening, reading and writing touches the bytes of a pipe |
| FdSafety.StepMovesBytes | fs/vfs.c:553-634 | a step adds to the streams of a live pipe exactly what the call delivers or accepts |
| FdSafety.DeliveredPrefixOfAccepted | fs/vfs.c:553-634 | in every run the bytes read in a lifetime are a prefix of the bytes accepted in it, at most 4096 behind |
| FdSafety.BytesInOrder | fs/vfs.c:553-634 | a read returns the next bytes in order, as many as there are; a write accepts what fits and is short only when the pipe is full |
| FdSafety.EndOfFileIff | fs/vfs.c:558-564 | a non-empty read on an empty pipe returns 0 exactly when no process has a write end, and -EAGAIN otherwise |
| FdSafety.ForkThenExitRestores | fs/vfs.c:1143-1201 | a fork followed by the exit of the child leaves every pipe as it was |
| FdCalls.DupDoes | fs/vfs.c:718-748 | EBADF, EMFILE, or the lowest free descriptor from 3 on names the same thing and nothing else changes |
| FdCalls.Dup2Does | fs/vfs.c:750-790 | EBADF, or the target names what the source names, whatever it named before; nothing else changes |
| FdCalls.DupAboveDoes | fs/vfs.c:845-886 | EBADF, EMFILE, or the lowest free descriptor from the minimum on |
| FdCalls.CloseDoes | fs/vfs.c:656-680 | -1 and no change, or exactly that descriptor is closed |
| FdCalls.OpenPlainDoes | fs/vfs.c:331-342 | EMFILE, or the lowest free descriptor from 3 on holds the handle of the backend; nothing else changes |
| FdCalls.OpenPipeDoes | fs/vfs.c:792-836 | the two lowest free descriptors name the read and the write end of a pipe that was free; failure only for want of pipes or descriptors, and then no descriptor changes |
| FdCalls.NewSocketDoes | kernel/socket.c:113-192 | the lowest free descriptor names a socket slot that was free, with one reference; fails exactly when the backend does or slots or descriptors are out |
| FdCalls.InheritDoes | fs/vfs.c:1143-1169 | the child has exactly the descriptors of the parent, no other table changes |
| FdCalls.CloseAllDoes | fs/vfs.c:1176-1201 | every descriptor of the process is closed, no other table changes |
| Vfs.PipeSlot.Push | fs/vfs.c:626-632 | the ring accepts as many bytes as fit, in order, across the wrap |
| Vfs.PipeSlot.Pull | fs/vfs.c:565-570 | the ring delivers the oldest bytes, across the wrap |
| Vfs.Vfs.constructor | fs/vfs.c:191-207 | tables, pools and counts start empty and valid |
| Vfs.Vfs.Close | fs/vfs.c:656-680 | the class does what the state machine says and keeps the invariant |
| Vfs.Vfs.Dup | fs/vfs.c:718-748 | likewise, for the lowest free descriptor |
| Vfs.Vfs.Dup2 | fs/vfs.c:750-790 | likewise, closing the target first |
| Vfs.Vfs.DupAbove | fs/vfs.c:845-886 | likewise, from the given minimum on |
| Vfs.Vfs.OpenPipe | fs/vfs.c:792-836 | likewise, with the temporary mark and every rollback |
| Vfs.Vfs.OpenPlain | fs/vfs.c:331-342 | likewise, for a descriptor that names neither pipe nor socket |
| Vfs.Vfs.NewSocket | kernel/socket.c:113-192 | likewise, for a socket slot and its descriptor |
| Vfs.Vfs.SocketOpen | fs/vfs.c:344-360 | likewise, descriptor first and reference second |
| Vfs.Vfs.Inherit | fs/vfs.c:1143-1169 | copying the table and counting it entry by entry is the fork of the state machine |
| Vfs.Vfs.CloseAllFds | fs/vfs.c:1176-1201 | closing entry by entry is the exit of the state machine |
| Vfs.Vfs.Read | fs/vfs.c:545-571 | the ring implements the read of the state machine |
| Vfs.Vfs.Write | fs/vfs.c:612-634 | the ring implements the write of the state machine |
| Fork.Forker.Fork | kernel/process.c:427-500 | succeeds exactly when heap, frames and stacks suffice: a child with cloned memory, a structure and stack of its own and all descriptors counted; otherwise every table, frame mark, heap block, stack and descriptor as before |
| Fork.Forker.MakeChild | kernel/process.c:441-465 | address space, structure and stack, or memory exactly as before, exactly when one of the three cannot be had |
| Fork.Forker.Undo | kernel/process.c:448-463 | destroying the clone restores layout, frame marks and heap block list |
| Fork.Forker.FreeStack | kernel/process.c:350-363 | the lowest free kernel stack, if there is one |
| DirBlock.ChunksOfConcat | fs/blueyfs.c:539-546 | records laid end to end are read back as they were |
| DirBlock.MapOfSplit | fs/blueyfs.c:539-546 | the map of a list of records is that of its parts, the first winning; names are unique exactly when they are in and between the parts |
| DirBlock.SplitMaps | fs/blueyfs.c:684-701 | splitting a record with room maps the new name and keeps the old |
| DirBlock.MergedMaps | fs/blueyfs.c:776-785 | merging into the record before, or blanking the first, unmaps exactly the removed name |
| DirBlock.MappedByRecord | fs/blueyfs.c:776-778 | a name maps to an inode exactly when some record carries both |
| DirBlock.FirstRoom | fs/blueyfs.c:680-711 | the first record with enough slack |
| DirBlock.FirstMatch | fs/blueyfs.c:767-792 | the first record of that name and inode |
| Directory.InodePlace | fs/blueyfs.c:294-310 | the inodes of a group lie one after the other, 256 bytes each, from the start of its table |
| Directory.InodesApart | fs/blueyfs.c:294-310 | different inodes occupy different bytes if the tables do not overlap |
| Directory.PointerTree | fs/blueyfs.c:445-476 | which word of which block names a block of the file: direct, singly and doubly indirect, or none |
| Directory.RecordPlace | fs/blueyfs.c:526-546 | a running byte offset always stands at a record inside one block |
| Directory.AddedInPlace | fs/blueyfs.c:675-713 | an absent name added to a record with room resolves to its inode, every other name as before, and all blocks stay tiled |
| Directory.RemovedInPlace | fs/blueyfs.c:753-797 | a removed name becomes absent, every other name resolves as before, and all blocks stay tiled |
| Directory.GrownBytes | fs/blueyfs.c:737-741 | the inode gains one pointer, 4096 bytes and eight sectors; every other byte of it and of its block stays |
| Directory.AddedByGrowing | fs/blueyfs.c:724-746 | a directory without room whose new block and inode are written gains the new name, every other name as before |
| Directory.SameDir | fs/blueyfs.c:515-549 | a directory depends only on its inode, pointer blocks and data blocks |
| Directory.OthersKept | fs/blueyfs.c:706-746 | edits of other blocks leave a directory as it was |
| Directory.GrowingKeepsOthers | fs/blueyfs.c:734-746 | growth leaves every other directory as it was, also one whose inode shares the block |
| Directory.ScanStep | fs/blueyfs.c:526-546 | one step of the lookup finds the name or moves on to the next record |
| Directory.DirAfterCommit | fs/blueyfs.c:175-219 | a commit makes the directory what the transaction says and leaves replay nothing to do |
| Directory.DirAfterCrash | fs/blueyfs.c:175-253 | a crash before the first or after the last log write leaves the directory old or new, nothing between |
| Directory.OtherUpdates | fs/blueyfs.c:168-173 | updates before and after those of the edit do not change what it does to the directory, also updates of its inode block for the sake of other inodes there |
| DirEdit.InsertIn | fs/blueyfs.c:679-712 | the scan and the stores insert into the first record with room, byte for byte, or leave the block alone |
| DirEdit.RemoveIn | fs/blueyfs.c:766-793 | the scan and the stores remove the first matching record, byte for byte, or leave the block alone |
| DirEdit.SplitStored | fs/blueyfs.c:690-699 | the stores of an insertion write exactly the split records |
| DirEdit.MergeStored | fs/blueyfs.c:779-785 | the stores of a removal write exactly the merged or blanked record |
| DirTxn.AddSurvivesCrash | fs/blueyfs.c:652-751 | an addition committed together with any bystanding updates is there after any later crash and replay once the log was complete; one not begun is not |
| DirTxn.AddedIffBuffered | fs/blueyfs.c:168-173 | behind what is already pending, the name is added exactly if all updates of the addition fit the sixteen slots |
| DirTxn.RemovedIffBuffered | fs/blueyfs.c:168-173 | a removal is made exactly if a slot was free |
| DirTxn.RemoveSurvivesCrash | fs/blueyfs.c:753-797 | the same for a removal, among any bystanding updates |
| DirTxn.GrowthAdds | fs/blueyfs.c:716-748 | the updates of the allocator, the new block and the inode together add the name, and only the last of them does |
| BlockAlloc.GrantIsLowest | fs/blueyfs.c:351-384 | the lowest block with a clear bit in a group that counts free blocks, 0 exactly if there is none; a group that would yield block 0 is given up |
| BlockAlloc.TableReadsBack | fs/blueyfs.c:278-292 | the entry of the group reads back from block 1, and the others are as before |
| BlockAlloc.SuperblockCounts | fs/blueyfs.c:370-371 | the count of the superblock falls by one for every bit set |
| BlockAlloc.SameBlockAgain | fs/blueyfs.c:356-374 | before the commit the next allocation returns the same block, unless the group counted its last one |
| BlockAlloc.GrantTxn | fs/blueyfs.c:366-373 | what an allocation journals: the bitmap with one bit more, and the table with the entry of its group |
| BlockTally.CommittedGrant | fs/blueyfs.c:351-384 | whatever the groups count: once committed exactly the returned block is newly in use, and it was not before |
| BlockTally.RefusesIff | fs/blueyfs.c:353-358 | an allocation fails exactly when every group counts no free block or has none |
| BlockTally.CommittedTally | fs/blueyfs.c:366-373 | counts that agree with the bitmaps still do after a commit, and then failure means the volume is full |
| BlockTally.AbortedTally | fs/blueyfs.c:221-223 | an abort after an allocation, and a mount that reads the counts before it replays one, break that agreement |
| BlockTally.AbortedLast | fs/blueyfs.c:1257-1299 | after an abort the next allocation fails exactly if the aborted one took the last free block, which is still free |
| BlockTally.DoubledTally | fs/blueyfs.c:351-384 | two allocations in one transaction keep the counts right exactly if they returned different blocks |
| BlockTally.NeverTwice | fs/blueyfs.c:351-384 | over any run of transactions with one allocation each, committed or aborted, no block is given twice and exactly the given ones are newly in use |
| Format.MarkUsed | tools/mkfs_blueyfs.c:352-368 | the marking loop sets exactly the first bits |
| Format.FormattedLaidOut | tools/mkfs_blueyfs.c:328-369 | every group of a fresh volume has its own bitmap, unless the last is too short for it |
| Format.FormattedTalliedIff | tools/mkfs_blueyfs.c:338-343 | the counts of a fresh volume agree with its bitmaps for exactly one size |
| Format.MetadataMarkedIff | tools/mkfs_blueyfs.c:357-366 | all metadata of a fresh volume is marked in use exactly if it ends before the last inode table block of the second group |
| Format.InodeTableGranted | fs/blueyfs.c:351-384 | with the first group used up, a fresh second group hands out the last block of its inode table |
| Format.FreshSameBlock | fs/blueyfs.c:351-384 | on a fresh volume the first allocation returns the block behind the root directory, and the second again |
| Format.SmallVolume | tools/mkfs_blueyfs.c:328-369 | a fresh volume of one group on which two allocations return block 2565 |
| MakeDir.DotBlockMaps | fs/blueyfs.c:1269-1285 | the first block of a directory reads as its two entries |
| MakeDir.NewInodeFields | fs/blueyfs.c:1238-1291 | the new inode is a directory of one block with mode, owner, group, two links and eight sectors |
| MakeDir.ParentGains | fs/blueyfs.c:1291-1302 | the parent of the new directory gains exactly its name, whether it grows or not |
| MakeDir.ChildWithRoom | fs/blueyfs.c:1257-1302 | the new directory holds its two entries if the parent had room |
| MakeDir.ChildInFull | fs/blueyfs.c:1257-1302 | if the parent grew, the new directory holds its two entries exactly if the parent got another block, and else only the entry meant for the parent |
| MakeDir.InodeLost | fs/blueyfs.c:716-746 | if the parent grew and its inode is in the same block, the new inode is not written |
| MakeDir.MadeByCommit | fs/blueyfs.c:1289-1302 | the same after the commit, with nothing left to replay |
| BiscuitFs.Volume.MakeDir | fs/blueyfs.c:1257-1303 | fails exactly for want of a block, with nothing written; otherwise one transaction makes the directory, and the parent shares its block exactly if it grew and its group counted another free block |
| BiscuitFs.CallersAdd | fs/blueyfs.c:886-931 | behind the at most eight blocks that the callers hand over first, an addition is never dropped |
| BlockAlloc.FindFree | fs/blueyfs.c:360-364 | the byte and bit loops find the first clear bit |
| Journal.DescriptorReadsBack | fs/blueyfs.c:178-194 | the descriptor block reads back as the transaction: every target, and the last flag on the last tag only |
| Journal.HeaderReadsBack | fs/blueyfs.c:182-208 | descriptor and commit blocks carry the magic number, their kind and the sequence number |
| Journal.CrashLog | fs/blueyfs.c:196-210 | what the log holds after any number of writes: new blocks so far, stale ones after |
| Journal.CrashThenReplay | fs/blueyfs.c:175-253 | a crash at any write after the log data is complete, then replay, is the old disk with the transaction applied in order, repeated targets included |
| Journal.ReplayTwice | fs/blueyfs.c:225-253 | replay is idempotent |
| Journal.CommitSettles | fs/blueyfs.c:175-219 | a finished commit applies the transaction and leaves a log whose replay changes nothing |
| Journal.AllOrNothingExactly | fs/blueyfs.c:175-253 | a crash after k writes is harmless on every disk if and only if k is 0 or exceeds the number of blocks; in between stale log blocks are replayed |
| Journal.StaleIsReplayed | fs/blueyfs.c:225-253 | between descriptor and last data block replay writes what the log slot held before |
| BiscuitFs.Volume.JournalWrite | fs/blueyfs.c:168-173 | the block joins the transaction, unless sixteen are there already |
| BiscuitFs.Volume.Commit | fs/blueyfs.c:175-219 | the block writes, in order: descriptor, data, commit, then in place; or none if nothing is pending |
| BiscuitFs.Volume.Replay | fs/blueyfs.c:225-253 | the loop is the replay function, and ends at the last tag |
| BiscuitFs.Volume.Lookup | fs/blueyfs.c:515-549 | the walk returns what the directory maps the name to, 0 if nothing, over direct and indirect blocks |
| BiscuitFs.Volume.AllocInGroup | fs/blueyfs.c:351-375 | result, pending updates, descriptor and count of one group, in the order of the code |
| BiscuitFs.Volume.AllocBlock | fs/blueyfs.c:377-383 | the loop over the groups is the allocation function |
| BiscuitFs.Volume.Add | fs/blueyfs.c:651-751 | adds the absent name. With room: one update, committed on its own exactly if nothing was pending. Without: what the allocator journals, the new block and the inode join the running transaction and nothing is committed. Fails exactly when the inode is unreadable or there is neither room nor a block |
| BiscuitFs.Volume.Remove | fs/blueyfs.c:753-797 | succeeds exactly when the name maps to that inode, and leaves the edit in the running transaction |
| Fairness.Weight | kernel/scheduler.c:39-58 | clamped table weights; at most the base weight exactly up to priority 5 |
| Fairness.WeightSteps | kernel/scheduler.c:39-58 | each priority weighs about a quarter more than the one below, the fifth 1024, and priorities are clamped |
| Fairness.ChargeIs | kernel/scheduler.c:249-252 | a charge is the slice at the default weight, rounded down |
| Fairness.ChargesEveryTickIff | kernel/scheduler.c:243-255 | every elapsed tick costs at least one unit exactly at priorities up to 5 |
| Fairness.FirstMin | kernel/scheduler.c:89-107 | the first of the smallest virtual runtimes |
| Fairness.SpreadKept | kernel/scheduler.c:36-58 | in any run of always-runnable processes, virtual runtimes never differ by more than the largest single charge |
| Fairness.BoundedWait | kernel/scheduler.c:241-274 | at priorities up to 5 a process waits at most twice the largest charge for each other process |
| Fairness.EqualShares | kernel/scheduler.c:241-274 | at the default priority, consumed ticks differ by at most one slice plus the initial spread |
| Fairness.StarvesIff | kernel/scheduler.c:243-255 | in one-tick slices a waiting process is ever dispatched against one of priority p exactly when p is at most 5 |
| Sched.Kernel.Add | kernel/scheduler.c:124-137 | the process joins the end of the circular list, which stays linked |
| Sched.Kernel.Remove | kernel/scheduler.c:139-170 | exactly the node of that pid leaves; the current process moves to its successor |
| Fairness.WrapOrder | kernel/scheduler.c:60-79 | of two runtimes less than half the range apart, the 64-bit values are ordered as the runtimes exactly if both have wrapped equally often |
| Sched.Kernel.LeastIsTrueIff | kernel/scheduler.c:60-79 | whoever holds the least stored runtime has the least true one exactly if all live processes have wrapped equally often |
| Sched.Kernel.MinVruntime | kernel/scheduler.c:61-79 | the least virtual runtime of the live user processes, 0 if there are none |
| Sched.Kernel.PickNext | kernel/scheduler.c:89-107 | the first candidate of the ring with the smallest virtual runtime, none exactly when there is no candidate |
| Sched.Kernel.Tick | kernel/scheduler.c:175-209 | due sleepers wake at no less than the minimum, overdue futex waits time out, everyone else is untouched |
| Sched.Kernel.Dispatch | kernel/scheduler.c:276-311 | the re-pick loop ends, every round that blocks leaving strictly fewer processes going; it dispatches a ready user process that no ready one precedes, or idles when there is none |
| Sched.Kernel.TryDispatch | kernel/scheduler.c:286-290 | a blocked dispatch takes its process out of the going ones, and wakes others at most |
| Sched.Kernel.FewerGoing | kernel/process.c:712-764 | one process leaving while others at most wake makes the going ones fewer by one |
| Sched.Kernel.HandleTrap | kernel/scheduler.c:214-310 | a trap that switches saves the registers of the outgoing process, charges it and dispatches; every process keeps its registers but for the result of the call it waited in, and only the one dispatched may have entered a handler; one that goes on without has the trap registers |
| Sched.Kernel.Round | kernel/scheduler.c:275-313 | one turn of the re-pick loop leaves every other process its registers and signals |
| Sched.Kernel.Deliver | kernel/signal.c:245-280 | the signal taken blocks the process, is dropped, or its handler is entered from the registers at hand |
| Sched.Kernel.FairChoice | kernel/scheduler.c:89-107 | among processes that are all ready the pick is the fair step |
| Sched.Kernel.NextPending | kernel/signal.c:107-118 | the lowest pending signal that is not blocked, 0 if there is none |
| Sched.Kernel.LowestPending | kernel/signal.c:107-118 | the lowest number in range that is in the set |
| Sched.Kernel.ApplyDefault | kernel/signal.c:120-148 | blocks exactly for the stop and fatal signals, and then stops or ends the process; else changes no state |
| Sched.Kernel.DispatchPending | kernel/signal.c:228-280 | blocks exactly when the signal due stops or kills by default; a handler is entered with the signal and its mask blocked |
| Sched.Kernel.SendPid | kernel/signal.c:180-212 | the immediate effect of each signal on its target; SIGKILL ends it with code 137 and nobody left waiting, SIGSTOP tells a parent that waits for it; every other process keeps registers and signals but for wake-ups and SIGCHLD |
| Sched.ExitedStaysExitedIff | kernel/signal.c:189-206 | an unreaped exited process stays exited under signals exactly when SIGSTOP is not among them |
| Sched.ExitedRunsAgain | kernel/signal.c:189-206 | SIGSTOP then SIGCONT make an exited process ready |
| Sched.Kernel.MarkExited | kernel/process.c:712-764 | the process is gone, nobody is left waiting for it, others at most wake |
| Sched.Kernel.TellParent | kernel/process.c:752-763 | the parent gets SIGCHLD and its wait is completed or ended |
| Sched.Kernel.Retire | kernel/process.c:268-277 | a retired process is in neither the run queue nor the list |
| Sched.Kernel.ReleaseVforkParent | kernel/process.c:129-145 | only the vfork parent of the process is released |
| Sched.Kernel.WakeFutex | kernel/process.c:799-822 | only matching waiters wake, up to the count, and none is left if the count was not reached |
| Sched.Kernel.NotifyStopped | kernel/process.c:286-301 | only a parent waiting for stops of this child is woken |
| Terminal.PutChar | drivers/vt100.c:318-417 | every byte keeps the parser cursor equal to the VGA cursor and inside 25 by 80 |
| Terminal.HandleCsi | drivers/vt100.c:115-297 | every control sequence keeps that too |
| Terminal.PutCharKeepsText | drivers/vt100.c:318-417 | glyphs, cursors and parser state do not depend on the attribute in force |
| Terminal.PutCharConsistent | drivers/vt100.c:318-417 | every byte keeps the attribute in force equal to that of the colour state |
| Terminal.PrintsByte | drivers/vt100.c:325-395 | a printable byte stands in the cursor cell in the attribute in force, the cursor goes on, at the edge to the next row, and the screen moves up only off its end |
| Terminal.ControlByte | drivers/vt100.c:325-360 | line feed, carriage return, tab and backspace move the cursor, the screen up if need be, and nothing else |
| Terminal.FullReset | drivers/vt100.c:372-379 | ESC c clears, homes and takes the first colours |
| Terminal.CursorMoves | drivers/vt100.c:123-168 | where each cursor sequence goes; none touches a cell |
| Terminal.DigitsRead | drivers/vt100.c:396-402 | decimal digits are read as their number |
| Terminal.CursorPosition | drivers/vt100.c:160-168 | ESC [ row ; col H as bytes puts the cursor there, or at the edge |
| Terminal.ColorsSelected | drivers/vt100.c:206-280 | colour sequences put red, green and blue, bright or not, into their half of the attribute and leave the other |
| Terminal.EraseDisplayDoes | drivers/vt100.c:168-184 | ESC [ 0 J blanks exactly the cells from the cursor on, ESC [ 1 J exactly those up to one row above it, ESC [ 2 J all, homing the cursor; other parameters do nothing |
| Terminal.EraseToStartIff | drivers/vt100.c:175-177 | ESC [ 1 J leaves everything up to the cursor blank exactly if the eighty cells that end there were blank |
| Terminal.EraseToStartLeavesCursor | drivers/vt100.c:175-177 | the cell under the cursor is never erased, and on a screen of letters the letter stays |
| Terminal.EraseLineDoes | drivers/vt100.c:186-201 | ESC [ 0 K, 1 K and 2 K blank exactly the part of the row from the cursor, up to it, or all; other parameters do nothing |
| Terminal.MovesInvert | drivers/vt100.c:123-142 | away from the edges up undoes down and left undoes right |
| Terminal.SaveThenRestore | drivers/vt100.c:379-389 | saving the cursor, any text, and restoring puts the cursor back |
| Terminal.ScrolledRows | drivers/vga.c:29-40 | every row moves up by one and the last is blank |
| Consoles.SwitchShows | kernel/tty.c:196-225 | a switch shows the console asked for and changes no text |
| Consoles.TextIsIsolated | kernel/tty.c:129-151 | for any interleaving of writes and switches each console has the text, cursor and parser state of a terminal fed its own bytes only |
| Consoles.ConsistentIsIsolated | kernel/tty.c:129-213 | with consistent colours it equals that terminal altogether |
| Consoles.ColorsIsolatedIff | drivers/vt100.c:447-466 | colours are isolated in every run if and only if every console starts with consistent colours |
| Consoles.BootLosesColors | kernel/tty.c:172-184 | the contexts made at boot are not consistent, so some run shows other colours |
| Tty.Driver.VgaScroll | drivers/vga.c:29-40 | rows move up and the last is blank |
| Tty.Driver.VgaClearScreen | drivers/vga.c:50-57 | all cells blank and the cursor home |
| Tty.Driver.VgaPutchar | drivers/vga.c:87-99 | one byte of the VGA driver: store, wrap, scroll |
| Tty.Driver.EraseRegion | drivers/vt100.c:94-109 | exactly the cells of the region become spaces in the colours in force |
| Tty.Driver.SelectGraphics | drivers/vt100.c:206-240 | parameters apply in order and the attribute follows |
| Tty.Driver.HandleCsiByte | drivers/vt100.c:115-297 | the dispatch on the final byte is the function of the terminal |
| Tty.Driver.Vt100Putchar | drivers/vt100.c:318-417 | the parser is the function of the terminal |
| Tty.Driver.BackgroundChar | kernel/tty.c:138-150 | borrowing the driver for a console in the background changes that console as its own terminal would |
| Tty.Driver.OutputChar | kernel/tty.c:129-151 | one byte for one console is one step of the three-terminal model; console 0 also goes to the serial port |
| Tty.Driver.SwitchVt | kernel/tty.c:196-213 | a switch keeps all three consoles |
| Tty.Driver.WriteVt | kernel/tty.c:233-243 | a buffer is written byte by byte with its carriage returns; an unknown console changes nothing |
| Sha256.Constants | kernel/sha256.c:17-41 | the 64 words are the fractions of the cube roots of the first 64 primes, the initial hash those of the square roots of the first eight |
| Sha256.ChosenBits | kernel/sha256.c:43 | choice takes each bit from the second or third word as the first says |
| Sha256.MajorityBits | kernel/sha256.c:44 | majority takes the bit two of the three agree on |
| Sha256.WordWritten | kernel/sha256.c:54-59 | a big-endian word is written as the bytes it is read from |
| Sha256.WordOps | kernel/sha256.c:42-48 | the shifts and ors are the rotations of the standard |
| Sha256.ZeroCountLeast | kernel/sha256.c:108-115 | the padding is the shortest that leaves room for the length |
| Sha256.Context.Transform | kernel/sha256.c:50-80 | one call is the compression function of section 6.2.2 |
| Sha256.Context.Schedule | kernel/sha256.c:54-62 | the message schedule |
| Sha256.CountStep | kernel/sha256.c:90-93 | the two words count bits modulo 2^64 and tell when a block is full |
| Sha256.ByteStored | kernel/sha256.c:90-93 | after each byte all whole blocks are absorbed and the rest is buffered |
| Sha256.Context.Update | kernel/sha256.c:87-95 | any split of the input into calls absorbs the concatenation |
| Sha256.DigestFrom | kernel/sha256.c:97-127 | absorbing one or two padding blocks gives the digest of the whole message |
| Sha256.Context.Final | kernel/sha256.c:97-136 | the result is the digest of all bytes given to update, padded as in section 5.1.1 |
| PathNorm.WrittenReadsBack | kernel/syscall.c:2397-2409 | a written stack of components reads back as that stack |
| PathNorm.ResolveNormalize | kernel/syscall.c:2330-2422 | the buffer holds the components of the absolute path with . and .. evaluated; succeeds exactly when the absolute path fits the scratch buffer and every intermediate result leaves two characters of the output |
| PathNorm.MayEvalIff | kernel/syscall.c:2398-2408 | the checks component by component amount to every intermediate result being short enough |
| PathNorm.ExactFitRefused | kernel/syscall.c:2406 | a result that would fill the buffer exactly is refused |
| PathNorm.Pop | kernel/syscall.c:2384-2395 | `..` removes the last component, and nothing at the root |
| PathNorm.Append | kernel/syscall.c:2397-2409 | a component is added behind one separator, or the buffer is too small |
| PathNorm.EvalLaws | kernel/syscall.c:2382-2408 | . is nothing; .. undoes the plain component before it and is nothing at the root |
| PathNorm.ParentOfPlain | kernel/syscall.c:2384-2395 | .. behind plain components leaves all but the last |
| PathNorm.AbsoluteComps | kernel/syscall.c:2336-2363 | an absolute path stands for itself, another for its components behind those of the working directory |
| PathNorm.SecondPass | kernel/syscall.c:2330-2423 | a second pass finds the same components |
| PathNorm.CompsJoin | kernel/syscall.c:2374-2412 | components of a joined path are those of its parts |
| InitialStack.CopyString | kernel/elf.c:331-342 | a string and its terminator below the stack pointer read back; failure exactly when the region is too small |
| InitialStack.CopyStrings | kernel/elf.c:456-472 | every pointer reads its own string, in order |
| InitialStack.PushVector | kernel/elf.c:513-525 | a vector reads back up to its zero word |
| InitialStack.PushAux | kernel/elf.c:503-511 | the auxiliary list reads back up to AT_NULL |
| InitialStack.Build | kernel/elf.c:416-541 | from the returned pointer an ABI reader recovers the count, all strings in order, the NULLs and the auxiliary list; no string is overwritten |
| InitialStack.AuxFinds | kernel/elf.c:489-501 | what a reader finds under each key of the auxiliary list |
| InitialStack.AllReads | kernel/elf.c:503-528 | vectors written below the strings leave every string readable |
| Fat.ClustersAdjoin | fs/fat.c:51-53 | cluster 2 starts the data area and every cluster starts where the one before ends |
| Fat.ChainSlice | fs/fat.c:182-199 | a part of a sector is the matching slice of the concatenated clusters |
| Fat.Driver.ReadAt | fs/fat.c:171-210 | the bytes of the cluster chain from the offset on, up to the length asked, the file size and the end of the chain; 0 beyond, -1 for a file not open |
| Fat.Driver.Walk | fs/fat.c:183-184 | the loop reaches the cluster of that index, or the end of the chain |
| Fat.Position | fs/fat.c:185-192 | every position below the size has a cluster, sector and byte |
| Calendar.MonthTable | kernel/rtc.c:41-51 | the table of days before a month is the sum of the months before it |
| Calendar.UnixToDateTime | kernel/sysinfo.c:73-102 | a valid Gregorian date and time whose second count is the time plus ten hours |
| Calendar.DateTimeToUnix | kernel/rtc.c:39-57 | the second count of the date |
| Calendar.SecondsDetermine | kernel/sysinfo.c:73-102 | equal second counts mean equal fields, and the fields are ordered as the counts |
| Calendar.ThereAndBack | kernel/sysinfo.c:73-102 | to a date and back is the time plus 36000 |

## Left out

- Port I/O, disk controllers, interrupt masking, TLB and CR3 handling, segment and EFLAGS bits of trap frames. Disk blocks, sectors, frames and trap frames are values, and disk transfers inside the device succeed.
- The bit packing of `pmm_bitmap` and of page table entries: a frame is a boolean, an entry is a page number with its flags.
- KHeap.Heap.Alloc: request sizes that wrap a 32-bit word are excluded, as are frees of pointers that are not live; `kheap_get_stats` only sums what the block list states.
- Paging.Mmu.MapIn: mapping into a 4 MB slot where the kernel itself maps high frames (the slot of the signal trampoline) is excluded, because the copied table would claim the kernel's frame; the same holds for cloning such a slot.
- Paging.Mmu.UnmapIn: unmapping or changing flags in a slot still shared with the kernel writes the kernel's own table; callers do not do it, and it is excluded.
- Descriptor operations before any user process runs, which use and grow one global table; user processes have 32 descriptors each. Backend handles of files, their reference counts and offsets.
- Socket connect, accept pairing, close of pending clients, and the data path of sockets: FdModel.SocketWork lets the state and queue length of an open socket change arbitrarily. FdModel.CloseSocket leaves out the peer's notice and the protocol back ends.
- FdModel.IoResult abbreviates -1, -EAGAIN and byte counts.
- Fork.Forker.Fork: the fields of the process structure that a fork copies (credentials, limits, signal actions, registers) are left out, as are thread and vfork creation.
- BiscuitFS inode allocation, freeing of blocks, file contents and permissions; `BiscuitFs.Volume.MakeDir` starts behind path lookup and inode allocation, whose at most two updates are pending.
- BiscuitFs.Volume.Add: grows a directory only through its 12 direct pointers, and only if the bitmap, block 1 and the granted block are not blocks of the directory or the log. Growing past the twelfth block makes a second allocation in the same transaction, which returns the same block (`BlockAlloc.SameBlockAgain`). Lookup, removal and insertion into existing blocks cover indirect blocks of directories of any size.
- BiscuitFs.Volume.Remove: like every edit it starts from the blocks on disk; two edits of one block within one transaction, of which the later wins, are not composed. DirTxn.AddSurvivesCrash asks that the other updates of its transaction leave the directory's bytes alone.
- BiscuitFs.Volume.Replay: asks that a descriptor in the log has a tag marked last, as every commit writes; without one the loop runs past the block.
- Torn writes: a crash falls between block writes. The pool of scratch block buffers is never exhausted.
- Sched.Kernel.MarkExited: closing descriptors is modelled in Vfs (`Vfs.Vfs.CloseAllFds`); writes to user memory, the device event, and the later reaping of retired processes are left out.
- Sched.Kernel.DispatchPending: the signal frame written to the user stack is left out, only the stack pointer moves; whether the trampoline is mapped is a parameter.
- Fairness.SpreadKept: fairness after creation, wake-up and priority changes is not claimed, nor when a 64-bit runtime or a 32-bit tick count wraps.
- Tty.Driver.HandleCsiByte: a status report (`ESC [ 6 n`) only injects input; CSI parameters are unbounded integers where the C code would overflow. Output before `tty_init`, the pass-through while the parser is disabled (`vt_enabled`), protected rows, the hardware cursor, and tty input are left out.
- Sha256: the password table format around the hash; the constants are those of the code.
- PathNorm.ResolveNormalize: null pointers; paths are character sequences without NUL.
- PathNorm.AbsoluteComps: a working directory of a single character is taken to be the root; the code joins any other without a slash.
- InitialStack.Build: mapping and zeroing the stack pages, heap exhaustion for the two pointer arrays, and the source of the 16 random bytes, which are a parameter; the vectors must fit below the strings.
- Fat.Driver.ReadAt: mounting, directory search and writes; chain entries beyond the cached table end the chain, and the clusters before the end of a chain lie on the disk.
- Calendar: the CMOS and the Bandit epoch conversions.
