# Verified models of a ramdisk, two thread schedulers and a memory report

This project models four small systems and proves what they are for.

**The ramdisk file system.** A block allocator over a bitmap, an inode table, files of up to 4168 blocks
reached through 8 direct slots, one single-indirect and one double-indirect index, directories of packed
16-byte entries, and per-process descriptor tables. Each part is related to something simple: a file to a
byte sequence (`Content`), a directory to a list of names and numbers (`List`), the bitmap to the set of
blocks that some inode uses, a cached index to a minimum. `Namespace.Run` is any sequence of create, write
and unlink calls; `Theorems` says what holds after every such run, and `Sessions` puts one process's
descriptor table on top. `Effects` and `SessionEffects` say what one call does, by contents, lists and
paths. The state functions (`Disk` to `Namespace`) are the specification; the class `Ramdisk` does the same
work in place, loop by loop on bitmap bytes, inode records and blocks, and each of its
methods is proved to leave exactly the state its function gives.

**The thread systems.** `Threads` holds the thread table and the cyclic scan that both systems share.
`Cooperative` runs FIFOS-1 for any number of threads and any loop budgets and proves its whole output
against `Rounds.Schedule`. `Preemptive` is FIFOS-2 as a machine in which the timer may fire wherever
interrupts are on. `ContextSwitch` is `switch_to`, instruction by instruction, with the frames that
`threadCreate` builds by hand.

**The memory report.** `Radix` is `toString` of memos-2 and the report that `init` prints with it.

## Repairs

The code departs from its own design in the places below. The models named in the table carry the repaired
step; for each one the step as written is modelled beside it, with a lemma that says exactly when it still
does what the design asks. Lines are those of `support_function.h` unless another file is named.

- 565: the scan tests the bit, not `index && mask`. As written: `BitmapBytes.NextFreeAsWrittenIsFreeIff`.
- 771: the bit is cleared, not ORed with a mask. As written: `BitmapBytes.FreedAsWrittenIff`.
- 597, 604-607: block 4168 is refused, and the first block under any second-level index needs two free
  blocks. As written: `AsWritten.RefusalsDiffer`, `AsWritten.SecondTakeOverruns`.
- 408, 416, 424, 455, 463: no offset is added to a NULL pointer, and a NULL second-level index means that
  there is no block. As written: `AsWritten.AddressesAgree`, `AsWritten.UnmappedAddresses`,
  `AsWritten.UnmappedBlockPointers`.
- 502, 510, 536-539: the next block is looked up before one is allocated, a failed first allocation is
  ERROR, the size becomes max(size, p + written), and `block_number` stays the index of the last block. As
  written: `AsWrittenWrite.WriteRightIff`.
- 827-855: data blocks of every level are released before the index block that lists them, index blocks are
  released too, and the inode is left without pointers; `allocate_inode` does not clear them. As written:
  `AsWritten.FreeBlockRightIff`, with the leaks in `FreeBlockLeaksIff` and the crashes in
  `FreeBlockCrashesIff` and `FullBlocksCrash`.
- 886-906: the last entry is located from the size of the directory. As written:
  `AsWrittenRemoval.RemoveEntryRightIff`.
- 59: the question whether an inode is open is asked of the given table. As written:
  `SessionsAsWritten.UnlinkRightIff`, `SessionsAsWritten.OpenRightIff`, `SessionsAsWritten.HeadStaysInside`.
- `module_interface.h` 49-51, 146-148 and 425-427: a path component that is not a directory in use is an error; the
  code does not look. As written: `AsWritten.ResolveRightIff`, `AsWritten.CreateRightIff`,
  `AsWritten.UnlinkPathRightIff`. The directory that a path starts from always is one
  (`Sessions.SessionsStayInside`).
- `module_interface.h` 253-260: closing the descriptor one past the last, or a negative one, is an error. As
  written: `Descriptors.FDT.Close`, `SessionsAsWritten.CloseOnList`.
- `module_interface.h` 379: a position is clipped at 0 as well as at the size. As written:
  `SessionsAsWritten.KeptIffNoBadSeek`.
- `FIFOS-1/init.c` 167-170: the segment stores move up by one halfword. As written:
  `ContextSwitch.FabricateAsWritten`, `ContextSwitch.FirstRun`. The stacks are static, so the halfword that
  DS is loaded from holds 0 at the start.

`Failures` and `EmptiedDirectory` hold a run from start-up into each of the file system's failures.

Two statements in the sources' own terms turned out to need a condition. In FIFOS-2 "All threads done" is
not always written once: when the last thread's own call of the scheduler finds nothing to run, interrupts
are still on and the next timer firing writes it again (`Preemptive.AnnouncementsExact`). In memos-2 the
report adds up the low words of the lengths in 32 bits, so that it is right below 4 GB only
(`Radix.ReportedRightIff`).

## Model

| member | source | states |
|---|---|---|
| Runs.InitConsistent | filesys - 可运行部分指令/module/initial_module.c:105-138 | the state that init_datastructure builds satisfies the whole file system invariant |
| Effects.InitExact | filesys - 可运行部分指令/module/initial_module.c:105-138 | at start-up there is an empty root with the first block and nothing else, and the counts and caches are set for that |
| Runs.StepKeepsConsistent | filesys - 可运行部分指令/module/module_interface.h:14-454 | every create, write and unlink call keeps the invariant: block ownership, both allocators' caches, directory lists, the tree; a call that reports ERROR changes nothing |
| Runs.RunConsistent | filesys - 可运行部分指令/module/module_interface.h:14-454 | every sequence of calls from a consistent state ends in one |
| Effects.StepExact | filesys - 可运行部分指令/module/module_interface.h:14-454 | what each call does, for every consistent state: the flag is true exactly when the call can do its work, otherwise nothing changes; a write splices, at the given position, as much as there is room for into this file only; create makes an empty file or directory of the given kind and mode, with the last entry of the directory that the path leads to; unlink takes out just the entry found and frees the inode with exactly its blocks |
| Effects.ResolveIff | filesys - 可运行部分指令/module/module_interface.h:49-51 | a path leads to a directory exactly when there is a way of directories in use in which each lists the next under its name |
| Effects.LookupIff | filesys - 可运行部分指令/module/support_function.h:67-139 | a lookup finds a number exactly when an entry has that name and that number |
| Theorems.BitmapIsOwnership | filesys - 可运行部分指令/module/support_function.h:546-858 | after any run from the initial state the set bits are exactly the blocks reachable from some inode, no block has two uses, every used block belongs to an inode in use, and every free block is all zero |
| Theorems.BlocksConserved | filesys - 可运行部分指令/module/support_function.h:546-858 | after any run, freeBlock_number plus what the inodes' block counts cost (index blocks included) is 7931 |
| Theorems.CachesExact | filesys - 可运行部分指令/module/support_function.h:546-579 | after any run the cached block and inode indexes are the least free ones, and the two counts are positive exactly when these can be taken |
| Theorems.ParentsReachRoot | filesys - 可运行部分指令/module/module_interface.h:439-454 | after any run, following parent_index from any inode in use reaches the root in finitely many steps, although numbers are reused |
| Theorems.NamedOnce | filesys - 可运行部分指令/module/module_interface.h:43-94 | after any run every inode in use except the root is named by exactly one entry, and that entry lies in the directory given by its parent_index |
| Theorems.EntryFound | filesys - 可运行部分指令/module/support_function.h:67-139 | after any run what an entry names is in use, and looking up its name in its directory finds it |
| Theorems.DirectoryHasPath | filesys - 可运行部分指令/module/module_interface.h:43-51 | after any run every directory is found from the root by some sequence of names |
| Theorems.UnlinkUndoesCreate | filesys - 可运行部分指令/module/module_interface.h:390-455 | creating a file, writing anything into it and unlinking it succeeds and brings back the directory's list, every other content and the inode accounting |
| Sessions.SessionsStayInside | filesys - 可运行部分指令/module/module_interface.h:111-454 | over every sequence of one process's calls, with any descriptor numbers and positions, its current directory stays a directory in use, no open file is freed, and every open file's position stays within the file |
| Sessions.WriteThroughDescriptor | filesys - 可运行部分指令/module/module_interface.h:324-388 | so in every such state a write through a descriptor splices at its position, which moves past what was written, and changes no other file |
| SessionEffects.ServeExact | filesys - 可运行部分指令/module/module_interface.h:111-454 | what each call of a session does to the files and to the table: paths start at the root or at the current directory; open adds one last descriptor for a file that is not open, at position 0, or makes a directory the only one; close takes out exactly that descriptor, or goes up; seek clips at both ends; write moves the position past what was taken |
| SessionEffects.OpenedAtStart | filesys - 可运行部分指令/module/module_interface.h:160-185 | opening a file that is not open gives a new last descriptor, and a write through it splices at 0 |
| SessionsAsWritten.KeptIffNoBadSeek | filesys - 可运行部分指令/module/module_interface.h:229-388 | as written that invariant holds over a run if and only if no call seeks to a negative position on an open file (a run ends where a call crashes) |
| Descriptors.FDT.Close | filesys - 可运行部分指令/module/module_interface.h:229-263 | rd_close as written on the linked list of file objects: it follows NULL exactly for negative numbers and for the one past the last; descriptor 0 gets the parent's number and position 0 and the path is cut behind its last slash; otherwise exactly that file object is taken out, or nothing is there to close and nothing changes |
| Descriptors.FDT.Find | filesys - 可运行部分指令/module/module_interface.h:363-374 | the walk that read, write and seek begin with: none for 0 and past the end, the first file object for a negative number |
| Descriptors.FDT.Seek | filesys - 可运行部分指令/module/module_interface.h:354-388 | rd_lseek as written on the list: the position of that file object becomes the given one, clipped at the size only |
| SessionsAsWritten.CloseOnList | filesys - 可运行部分指令/module/module_interface.h:229-263 | the close that the runs of sessions use is what the method on the list does |
| SessionsAsWritten.SeekOnList | filesys - 可运行部分指令/module/module_interface.h:354-388 | and so is the seek |
| SessionsAsWritten.FirstTable | filesys - 可运行部分指令/module/support_function.h:171-192 | the table that create_FDT makes is that of the first session |
| SessionsAsWritten.NegativeFront | filesys - 可运行部分指令/module/support_function.h:489-530 | a write at a negative position that stays in front of the first block puts its bytes there and changes no file |
| SessionsAsWritten.NegativeSplits | filesys - 可运行部分指令/module/support_function.h:489-530 | a longer one is that and then the write of the rest at 0 |
| SessionsAsWritten.StoresExact | filesys - 可运行部分指令/module/support_function.h:521-529 | which bytes such stores change |
| SessionsAsWritten.ProperRunIsDesigned | filesys - 可运行部分指令/module/module_interface.h:229-388 | a run as written is the designed run when no call closes one past the last or a negative number or seeks to a negative position |
| Failures.SeekingFails | filesys - 可运行部分指令/module/module_interface.h:376-388 | create, open, write one byte, seek to -242, write one byte: the byte lands in the root directory's block and its entry names a number not in use |
| SessionEffects.UpIsParent | filesys - 可运行部分指令/module/module_interface.h:240-252 | closing the current directory, unless that is the root, leads to the directory whose list names it, at position 0, and changes no other descriptor |
| Sessions.UpKeeps | filesys - 可运行部分指令/module/module_interface.h:240-252 | which is a directory in use |
| Runs.CreateInExact | filesys - 可运行部分指令/module/module_interface.h:43-98 | create makes exactly the new name as the last entry, with the number that allocate_inode then takes, for an empty file or directory, and changes no other inode or content; on ERROR nothing changes |
| Runs.WriteStepExact | filesys - 可运行部分指令/module/module_interface.h:324-352 | rd_write splices the written prefix into this file and leaves every other file alone |
| Runs.UnlinkInExact | filesys - 可运行部分指令/module/module_interface.h:424-454 | rd_unlink succeeds exactly when the name exists, is no non-empty directory and is not open; then the last entry takes the place of the removed one, exactly the blocks of the inode become free and no other inode or content changes |
| Runs.FreeInodeExact | filesys - 可运行部分指令/module/support_function.h:783-812 | free_inode frees the inode, exactly its blocks and its entry; all other inodes and contents stay |
| Runs.RemoveEntryExact | filesys - 可运行部分指令/module/support_function.h:860-910 | removing the entry found for a name gives the old list with that entry replaced by the last one and the last dropped, for every number of entries |
| FileData.WriteFileSplices | filesys - 可运行部分指令/module/support_function.h:469-544 | write_file at p <= size: content[..p] + written prefix + the rest; short only when the next block is refused; ERROR exactly when it is a user's write to a directory or the first block is refused, and then without any change |
| FileData.PutBytesWrites | filesys - 可运行部分指令/module/support_function.h:506-530 | the byte loop alone: the invariant, the bytes it wrote, and the exact reason for stopping early |
| WriteLength.WriteLengthExact | filesys - 可运行部分指令/module/support_function.h:469-544 | what write_file returns and takes, from the numbers of blocks alone: with m the most blocks that can be paid for it writes as much as fits below 256 * m, ERROR exactly when it starts at 256 * m, and takes just the blocks that this fills |
| WriteLength.RoomIsLargest | filesys - 可运行部分指令/module/support_function.h:596-607 | m is the largest number up to 4168 whose cost, index blocks included, is covered by the free blocks |
| BlockIndex.SlotsBijective | filesys - 可运行部分指令/module/support_function.h:400-427 | the block numbers 0..4167 and the direct, single and double slots correspond one to one, and a block is looked up in its slot |
| BlockIndex.AllocateBlockGrows | filesys - 可运行部分指令/module/support_function.h:581-702 | growing a file by one block keeps every earlier lookup and all data, makes the new last lookup the new block, which reads as zeros, and costs exactly the index blocks it needs |
| FreeBlocks.RolesOfExact | filesys - 可运行部分指令/module/support_function.h:581-702 | a file of n blocks owns n + [n>8] + [n>72](1+ceil((n-72)/64)) blocks, each once, at most 4234 <= 7931 |
| FreeBlocks.FreeBlockReleases | filesys - 可运行部分指令/module/support_function.h:814-858 | free_block clears the bits of exactly the blocks of this file, zeroes them and leaves every other file as it was |
| Allocator.FirstBlockUsable | filesys - 可运行部分指令/module/support_function.h:599-611 | the free count is positive exactly when the cached index is below 7931, so the loose test at line 571 never matters |
| Allocator.TakeBlockKeepsInv | filesys - 可运行部分指令/module/support_function.h:546-579 | after a take the cached index is again the least clear bit, found by scanning only from the byte just changed, and the count is the number of clear bits |
| Allocator.ReleaseBlockKeepsInv | filesys - 可运行部分指令/module/support_function.h:756-781 | a release keeps the least clear bit and the count exact |
| Inodes.FirstInodeUsable | filesys - 可运行部分指令/module/module_interface.h:29-34 | the test of freeInode_number in create says exactly that first_freeInode names a free slot |
| Inodes.AllocateInodeKeepsInv | filesys - 可运行部分指令/module/support_function.h:704-732 | allocate_inode keeps first_freeInode the least free number (1024 if none) and the count exact |
| Inodes.ResetInodeKeepsInv | filesys - 可运行部分指令/module/support_function.h:796-809 | so does the end of free_inode |
| Directory.EncodeDecode | filesys - 可运行部分指令/module/data_structure.h:61-65 | an entry packed as in create reads back as the same name and number, whatever the name field held before |
| Directory.MovedLastIsSwapRemove | filesys - 可运行部分指令/module/support_function.h:881-907 | copying the last 16-byte entry over entry i and cutting 16 bytes off is the swap-with-last deletion on lists |
| RamdiskMemory.Ramdisk.constructor | filesys - 可运行部分指令/module/initial_module.c:105-138 | the memory after initialisation is the initial state |
| BitmapBytes.MarkAndScan | filesys - 可运行部分指令/module/support_function.h:546-575 | on bitmap bytes: sets exactly one bit and returns the least clear bit from its byte on |
| RamdiskMemory.Ramdisk.AllocateBitmap | filesys - 可运行部分指令/module/support_function.h:546-579 | the counters and bytes after the call are the marked state |
| RamdiskMemory.Ramdisk.FreeBitmap | filesys - 可运行部分指令/module/support_function.h:756-781 | the counters and bytes after the call are the released state |
| RamdiskMemory.Ramdisk.AllocateBlock | filesys - 可运行部分指令/module/support_function.h:581-702 | the walk over direct, single and double levels returns NULL exactly on refusal and otherwise performs the growth step of the model |
| RamdiskMemory.Ramdisk.SwitchAddress | filesys - 可运行部分指令/module/support_function.h:400-427 | returns the block that the three-level lookup gives together with the offset, and NULL without an offset when there is none |
| RamdiskMemory.Ramdisk.PutBytes | filesys - 可运行部分指令/module/support_function.h:506-530 | the loop that carries block pointer and offset does what the flat byte-by-byte function does |
| RamdiskMemory.Ramdisk.WriteFile | filesys - 可运行部分指令/module/support_function.h:469-544 | final memory, returned count and new position are those of the write function |
| RamdiskMemory.Ramdisk.Read | filesys - 可运行部分指令/module/module_interface.h:294-321 | the output is content[p..p+n] and a NUL, p the position or 0 when that is negative or past the end, n what was requested or all there is when that is less or the request is negative, as line 301 and 303 compare unsigned; the rest of the buffer is unchanged; ERROR only for an empty file |
| RamdiskMemory.Ramdisk.SearchBlock | filesys - 可运行部分指令/module/support_function.h:153-166 | the inner loop: first match among the entries of one block, or the countdown moved on by them |
| RamdiskMemory.Ramdisk.Search | filesys - 可运行部分指令/module/support_function.h:141-169 | the pass over one pointer array: first match with directory_index at its place, or the countdown moved on |
| RamdiskMemory.Ramdisk.IsExist | filesys - 可运行部分指令/module/support_function.h:67-139 | through direct, single and double passes with one shared countdown: the first match in the list of all size/16 entries, with directory_index advanced to its index |
| RamdiskMemory.Ramdisk.FreeBlock | filesys - 可运行部分指令/module/support_function.h:814-858 | the three walks up to the first NULL release what the model releases |
| RamdiskMemory.Ramdisk.FreeParentDirectoryEntry | filesys - 可运行部分指令/module/support_function.h:860-910 | final memory and return value are those of the removal function |
| RamdiskMemory.Ramdisk.AllocateInode | filesys - 可运行部分指令/module/support_function.h:704-732 | the record written and the scan for the next free number |
| RamdiskMemory.Ramdisk.FreeInode | filesys - 可运行部分指令/module/support_function.h:783-812 | blocks, entry, record and counters after the call |
| RamdiskMemory.Ramdisk.Create | filesys - 可运行部分指令/module/module_interface.h:53-98 | final memory and result are those of the create step |
| RamdiskMemory.Ramdisk.Unlink | filesys - 可运行部分指令/module/module_interface.h:434-454 | final memory and result are those of the unlink step |
| RamdiskMemory.Ramdisk.Resolve | filesys - 可运行部分指令/module/module_interface.h:49-51 | the loop over path components finds what the recursive lookup finds |
| RamdiskMemory.Ramdisk.Call | filesys - 可运行部分指令/module/module_interface.h:14-454 | one call of the interface on memory is one step of the model, keeps it consistent and has exactly the effect that Effects.StepExact tells |
| BitmapBytes.MarkAndScanAsWritten | filesys - 可运行部分指令/module/support_function.h:563-571 | with && instead of a bit test the next index is always the first bit of the byte just changed |
| BitmapBytes.NextFreeAsWrittenIsFreeIff | filesys - 可运行部分指令/module/support_function.h:563-571 | that index is free exactly when the block taken was not the first of its byte and the first one is clear |
| BitmapBytes.NextFreeAsWrittenInUse | filesys - 可运行部分指令/module/support_function.h:563-575 | so after taking the least free block it always names a block in use; the second allocation after start-up gets the block of the root |
| BitmapBytes.FreeBitAsWritten | filesys - 可运行部分指令/module/support_function.h:766-771 | the bits after the OR with the mask of line 771 |
| BitmapBytes.FreedAsWrittenIff | filesys - 可运行部分指令/module/support_function.h:766-771 | the bit is clear afterwards exactly when it was clear before and is the fifth of its byte: a block in use is never released |
| AsWritten.RefusalsDiffer | filesys - 可运行部分指令/module/support_function.h:596-607 | the tests as written let through exactly block 4168 and the first block under a second-level index when only one block is free |
| AsWritten.SecondTakeOverruns | filesys - 可运行部分指令/module/support_function.h:681-692 | in that case the block taken second is block 7931, past the space |
| AsWritten.AddressesAgree | filesys - 可运行部分指令/module/support_function.h:400-467 | for every position, negative ones too: on mapped ones switchAddress and get_blockpointer both give the looked-up block with the position's offset; elsewhere they differ exactly on negative positions and inside missing direct blocks |
| AsWritten.UnmappedAddresses | filesys - 可运行部分指令/module/support_function.h:400-427 | exactly which positions without a block make switchAddress give an address in front of the first block, a stray pointer, a crash, or a non-NULL address in no block, and NULL on all others |
| AsWritten.UnmappedBlockPointers | filesys - 可运行部分指令/module/support_function.h:429-467 | get_blockpointer gives the same there, but NULL on negative positions and in all direct blocks |
| AsWritten.AppendFaultsIff | filesys - 可运行部分指令/module/support_function.h:419-424 | looking up the block after the last crashes exactly when n > 72 and all second-level indexes are full |
| AsWritten.FreeBlockLeaksIff | filesys - 可运行部分指令/module/support_function.h:827-855 | free_block as written releases everything the file owns exactly when it has at most 8 blocks |
| AsWritten.FreeBlockReleasesIff | filesys - 可运行部分指令/module/support_function.h:827-855 | it releases exactly the direct blocks and the single-indirect index, and from block_number 72 on all data blocks below the double-indirect index |
| AsWritten.FreeBlockCrashesIff | filesys - 可运行部分指令/module/support_function.h:814-858 | for any block_number it follows a NULL index exactly when that says 8 or more, or 72 or more, for a file without the index |
| AsWritten.FullBlocksCrash | filesys - 可运行部分指令/module/support_function.h:834-855 | so with block_number as write_file and the removals leave it exactly on files of 8 or 72 full blocks, and on directories of 8 or 72 blocks that were full when an entry was last added |
| AsWritten.FreeBlockRightIff | filesys - 可运行部分指令/module/support_function.h:814-858 | as a whole, with the pointers it keeps, it leaves a state in which every block has its owner exactly when the file has no blocks; otherwise location[0] names a free block |
| AsWritten.ResolveRightIff | filesys - 可运行部分指令/module/module_interface.h:49-51 | the lookup of path components as written gives the designed answer exactly when it finds nothing or every component it goes through is a directory in use |
| AsWritten.CreateRightIff | filesys - 可运行部分指令/module/module_interface.h:43-98 | create as written does what it should exactly in that case, or when no block or inode is free, a component is missing, the name is too long or taken, or the next block for the entry is refused, and these last are exactly the cases in which it is refused |
| AsWritten.UnlinkPathRightIff | filesys - 可运行部分指令/module/module_interface.h:424-454 | likewise rd_unlink, which otherwise frees whatever inode the bytes of a regular file name |
| Failures.CreatingFails | filesys - 可运行部分指令/module/module_interface.h:43-98 | from start-up: creating a file and then another below it succeeds and the tree is no tree any more |
| Failures.UnlinkingBelowFails | filesys - 可运行部分指令/module/module_interface.h:424-454 | from start-up: unlinking the name that the bytes of a file hold frees the file and leaves its entry |
| Failures.FreeingFails | filesys - 可运行部分指令/module/support_function.h:814-858 | from start-up: freeing a file of 2048 bytes crashes, one of 2305 bytes loses blocks, one of 1 byte leaves no ownership |
| EmptiedDirectory.EmptiedDirectoryFails | filesys - 可运行部分指令/module/support_function.h:814-858 | from start-up: a directory that got 128 entries and lost them all may be unlinked, and freeing it crashes |
| Failures.RefusalFails | filesys - 可运行部分指令/module/support_function.h:596-607 | from start-up: after writing the largest file allocate_block goes on past its index |
| Failures.RemovalFails | filesys - 可运行部分指令/module/support_function.h:886-907 | from start-up: with 16 entries in the root the last entry is looked for in front of a block that is not there |
| Failures.RemovalRecovers | filesys - 可运行部分指令/module/support_function.h:886-907 | from start-up: after 17 creations and one removal, with 16 entries again, the next removal is right, because the second block lies right behind the first |
| Failures.WritingFails | filesys - 可运行部分指令/module/support_function.h:469-544 | from start-up: overwriting the only byte of a file, and appending to one of 256 bytes, go wrong |
| Failures.FileOf | filesys - 可运行部分指令/module/support_function.h:469-544 | from start-up a file of every size up to the largest can be written in one call and has just the blocks it needs |
| AsWrittenRemoval.RemoveEntryRightIff | filesys - 可运行部分指令/module/support_function.h:860-910 | for any block_number from size / 256 on and anything in memory: removal as written is right exactly when the last entry starts that block and is the one removed; or that block is there and what lies 16 bytes in front of the place is in the last entry's own block, is the same entry, or, when the last one is removed, is text that ends within its block; no other file is ever changed |
| AsWrittenRemoval.RightAfterWrite | filesys - 可运行部分指令/module/support_function.h:886-907 | with block_number as write_file leaves it: right for n mod 16 >= 2; for n mod 16 = 1 only for the last entry; for n mod 16 = 0 wrong without a next block and right if that lies right behind in the space |
| AsWrittenRemoval.FieldsStayFit | filesys - 可运行部分指令/module/support_function.h:906-907 | last_block_offset goes on measuring the size from block_number on |
| AsWrittenWrite.WriteRightIff | filesys - 可运行部分指令/module/support_function.h:469-544 | for every write at p <= size, empty and short ones included: write_file as written gives the designed answer and content exactly in the cases told by n, the size, the length and the free blocks: empty and inside the file; at the end of a last block that is not full, when it fits in what the file can come to have or the source is refused the next block as well; and a few appends to a full block |
| AsWrittenWrite.OverwriteGrows | filesys - 可运行部分指令/module/support_function.h:506-539 | an overwrite within one block puts its bytes in their place and changes no other byte, but the size grows by all of them |
| AsWrittenWrite.FilesStayTight | filesys - 可运行部分指令/module/support_function.h:469-544 | after any run every file has at most one block more than its size fills, which is what the former lemma asks of a file |
| Descriptors.Tables.CreateFDT | filesys - 可运行部分指令/module/support_function.h:171-192 | a new table has the path / and one fresh file object, the root directory at 0 |
| Descriptors.CopyList | filesys - 可运行部分指令/module/support_function.h:253-265 | the copied list holds the same values in the same order in nodes that are all fresh |
| Descriptors.Tables.GetFDT | filesys - 可运行部分指令/module/support_function.h:194-270 | returns the table of the calling process; an existing table is returned without change, otherwise one is added at the end, with fresh nodes, a copy of the table of the parent if it has one |
| Descriptors.GotKeepsDistinct | filesys - 可运行部分指令/module/support_function.h:212-269 | a call keeps pids distinct, changes no table that is there and leaves the caller with one; a new one has its parent's path and open files, or "/" and the root at position 0 |
| Descriptors.GotUnique | filesys - 可运行部分指令/module/support_function.h:212-269 | with distinct pids the outcome of a call is determined |
| Descriptors.Tables.Serve | filesys - 可运行部分指令/module/support_function.h:194-270 | over any sequence of calls two calls return the same table exactly when the same process made them, pids stay distinct and no two tables share a node |
| Descriptors.Tables.IsOpen | filesys - 可运行部分指令/module/support_function.h:54-65 | as written the answer is ERROR exactly when the first table in the list has the inode open, whatever table is passed |
| SessionsAsWritten.UnlinkRightIff | filesys - 可运行部分指令/module/module_interface.h:434-454 | asked about another table, rd_unlink does what it should exactly when there is nothing to ask or the inode is open in both tables or in neither |
| SessionsAsWritten.OpenRightIff | filesys - 可运行部分指令/module/module_interface.h:150-185 | and so does rd_open, except that the current directory may be opened again when nothing else is open |
| SessionsAsWritten.HeadStaysInside | filesys - 可运行部分指令/module/support_function.h:54-65 | the process that owns the first table is safe with isOpen as written, whatever it calls and whatever others create, unlink, open, close or seek, and whatever they write to files that they still have |
| Failures.UnlinkingFails | filesys - 可运行部分指令/module/module_interface.h:434-454 | from start-up: a second process creates, opens and unlinks a file, and its descriptor names a freed inode |
| Failures.StaleWriteFails | filesys - 可运行部分指令/module/module_interface.h:324-352 | a write through that descriptor then gives blocks to an inode that is not in use |
| Threads.ScanFindsNext | FIFOS-1/init.c:30-40 | the scan finds the first ready thread after the current one in cyclic order, and none exactly when none is ready |
| Threads.ScannedIffNext | FIFOS-1/init.c:30-40 | being that thread and being found by the scan are the same, so there is only one |
| Threads.MarkIsSafeIff | FIFOS-1/init.c:32-48 | the mark 1000 never stands for a ready thread exactly when the table has at most 1000 slots |
| Threads.NextComesCloser | FIFOS-1/init.c:33-40 | a ready thread that is passed over comes strictly closer to its turn |
| Threads.Table.constructor | FIFOS-1/init.c:199-205 | every slot is unassigned and finished |
| Threads.Table.ThreadCreate | FIFOS-1/init.c:127-173 | fills the least unassigned slot and no other, 0 exactly when there is none |
| Threads.Table.Pick | FIFOS-1/init.c:30-53 | the loop leaves in nextThread what the scan gives and makes it current unless nothing is ready |
| Threads.Table.Finish | FIFOS-1/init.c:73-75 | the two stores change this slot only |
| Rounds.ScheduleLength | FIFOS-1/init.c:30-124 | the schedule has 1 + N + sum of budgets events, and All threads done exactly once, at the end |
| Rounds.ThreadView | FIFOS-1/init.c:87-124 | the part of the schedule that thread i writes is exactly its budget of tags and then its finish line |
| Cooperative.TurnMoves | FIFOS-1/init.c:30-65 | entered after the turns below m of a round, the scheduler picks the next turn of this round, or the first of the next one |
| Cooperative.TurnTaken | FIFOS-1/init.c:73-98 | one activation does exactly one turn: a tag, or the finish line and the two stores |
| Cooperative.TurnsEnd | FIFOS-1/init.c:44-48 | with nothing ready the trace is the whole schedule |
| Cooperative.System.constructor | FIFOS-1/init.c:175-205 | after initTCBArray and createThreads all threads are ready with full budgets, for any number of them |
| Cooperative.System.Scheduler | FIFOS-1/init.c:30-65 | announces the end exactly when nothing is ready, otherwise makes the next ready thread current |
| Cooperative.System.Activate | FIFOS-1/init.c:73-98 | what one activation changes |
| Cooperative.System.Run | FIFOS-1/init.c:30-124 | the run writes exactly the schedule: in round r, in index order, each thread with budget >= r its tag and each with budget r-1 its finish line; the scheduler is entered 1 + N + sum of budgets times |
| Cooperative.Init | FIFOS-1/init.c:207-222 | the same from init on, with what each thread has written |
| Preemptive.StepKeepsInv | FIFOS-2/init.c:32-131 | the invariant behind the run results: what each thread has written fits where it stands, a thread is ready until its finished store, and only the current one can be between cli and sti, with interrupts off |
| Preemptive.EachThreadsOutput | FIFOS-2/init.c:71-131 | under every sequence of timer firings a thread has written exactly as many tags as its counter says, all of its budget before its finish line, and when the end is announced what it writes in the cooperative schedule |
| Preemptive.BodyIsNotSplit | FIFOS-2/init.c:88-96 | between cli and sti the thread is the current one, the timer does nothing and no other thread moves or writes |
| Preemptive.InterruptsExact | FIFOS-2/init.c:88-96 | over every run in which threads go on with interrupts on, as their frames have it, interrupts are off before the end exactly while the current thread is between cli and sti |
| Preemptive.TimerPreempts | FIFOS-2/init.c:32-68 | so every firing of the timer outside a body makes the next ready thread current and changes nothing else, or announces the end when none is ready |
| Preemptive.EntryExact | FIFOS-2/init.c:32-68 | only an entry into the scheduler changes the current thread or announces the end, and each entry brings the next ready thread or the end |
| Preemptive.SlotTellsWhere | FIFOS-2/init.c:71-75 | a thread's slot is finished exactly from the first store of functionFinish on and free exactly from the second |
| Preemptive.FinishedIsNeverPicked | FIFOS-2/init.c:32-75 | a thread marked finished that is off the processor never runs again, whatever follows |
| Preemptive.LiveThreadsWait | FIFOS-2/init.c:32-68 | while a ready thread waits the scheduler is entered at most N-1 times, so the next entry picks it |
| Preemptive.InstructionsConserved | FIFOS-2/init.c:71-131 | instructions executed plus those left are 5 for every loop round and 5 for every thread: none is lost or repeated by preemption |
| Preemptive.HaltedIffAnnounced | FIFOS-2/init.c:47-51 | the machine has stopped exactly when All threads done has been written |
| Preemptive.EndIsAnnouncedAgain | FIFOS-2/init.c:47-51 | once stopped, a run writes one more All threads done exactly when interrupts are on and the timer fires, and never anything else |
| Preemptive.AnnouncementsExact | FIFOS-2/init.c:47-75 | over every run from the start All threads done is written never before the machine stops, twice exactly when a thread's own call found nothing with interrupts on and the timer fired later, and once otherwise |
| Preemptive.AnnouncedTwice | FIFOS-2/init.c:47-75 | a run of one thread that does so |
| Preemptive.Kernel.constructor | FIFOS-2/init.c:184-242 | the kernel after init is the booted machine |
| Preemptive.Kernel.Scheduler | FIFOS-2/init.c:32-68 | one entry into the scheduler is one switch step |
| Preemptive.Kernel.Fire | FIFOS-2/init.c:32-68 | a timer firing is one step, and none while interrupts are off |
| Preemptive.Kernel.Execute | FIFOS-2/init.c:71-131 | one instruction of the current thread is one step |
| Preemptive.Simulate | FIFOS-2/init.c:215-248 | any run from init on: its trace is that of the machine, each thread's part a beginning of its budget, all of it once halted |
| ContextSwitch.SaveFacts | FIFOS-1/switch.s:10-23 | the saving half leaves a frame for all registers on the own stack and changes no other halfword |
| ContextSwitch.RestoreFacts | FIFOS-1/switch.s:29-39 | the restoring half loads exactly the registers of a frame and writes no memory |
| ContextSwitch.SwitchBackRestores | FIFOS-1/switch.s:3-39 | a switch away, anything the others do on disjoint stacks, and a switch back (or a switch to itself) restore general registers, flags, segments, return address and the thread's stack |
| ContextSwitch.ParkedComesBack | FIFOS-1/switch.s:3-39 | the same for any thread whose frame is on its stack, however it got there |
| ContextSwitch.FirstRun | FIFOS-1/init.c:141-170 | the first switch to a created thread starts it at its function with the given flags, zero registers and an empty stack; its registers are the intended ones exactly when the DS halfword of the frame is 0x10 |
| ContextSwitch.FabricateAsWritten | FIFOS-1/init.c:151-170 | as written the segment stores are one halfword low: DS keeps the old content of halfword -19 and halfword -23, below the frame, is overwritten |
| ContextSwitch.Fabricate | FIFOS-1/init.c:151-170 | with the stores one halfword higher the frame is complete and nothing below it changes |
| ContextSwitch.Processor.Pushal | FIFOS-1/switch.s:14 | the eight pushes in their order |
| ContextSwitch.Processor.Popal | FIFOS-1/switch.s:36 | the eight pops, skipping the slot of esp |
| ContextSwitch.Processor.Switch | FIFOS-1/switch.s:3-39 | the instructions one after the other do what the save and restore functions do, with and without a thread to save |
| Radix.ParseDigits | memos-2/memos-2.c:32-66 | for every base from 2 to 36 the text is a numeral without leading zero (but "0") and parsing it gives the value back |
| Radix.NumeralUnique | memos-2/memos-2.c:32-66 | it is the only numeral with that value |
| Radix.LengthIff | memos-2/memos-2.c:39-57 | a value takes at most n digits exactly when it is below base^n |
| Radix.FitsScratch | memos-2/memos-2.c:40-57 | no 32-bit value overruns revstr |
| Radix.FitsMemstr | memos-2/memos-2.c:98-120 | the hexadecimal and the decimal call fit the 10 bytes of memstr with the NUL |
| Radix.Divide | memos-2/memos-2.c:42-57 | the dividing loop leaves the digits in reverse in revstr |
| Radix.ToString | memos-2/memos-2.c:32-66 | the buffer holds the numeral and a NUL and is otherwise unchanged |
| Radix.PrintStr | memos-2/memos-2.c:12-29 | prints the characters before the first NUL |
| Radix.Show | memos-2/memos-2.c:98-100 | toString followed by printStr shows exactly the numeral |
| Radix.ReportedRightIff | memos-2/memos-2.c:84-117 | the reported megabytes are those of the available memory, both words of every length counted, taken modulo 4 GB, and so right exactly when it is below 4 GB |
| Radix.FourGigabytesReported | memos-2/memos-2.c:84-117 | one available entry of 4 GB is reported as 1 megabyte |
| Radix.LineReads | memos-2/memos-2.c:88-109 | reading a printed line back gives the low word of the base between [ and :, the wrapped end between : and ], and the state |
| Radix.LineRightIff | memos-2/memos-2.c:88-109 | the two numbers read from a line are the entry's base and end exactly when these fit in 32 bits, and it says available exactly for type 1 |
| Radix.DigitChars | memos-2/memos-2.c:42-57 | the digits are the decimal ones and then the small letters |
| Radix.ShowEntry | memos-2/memos-2.c:88-109 | the line of an entry, which reads back as its low words and state; both calls fit their buffers |
| Radix.Init | memos-2/memos-2.c:68-127 | one line for each map entry, which reads back as base, wrapped end and state, then the size; every call fits its buffer |

## Left out

- The kernel side: `/proc` entry, `ioctl`, `copy_from_user`, `printk`, failure of `vmalloc`. Pids are arguments.
- The byte layout of the inode table: inodes are records in an array of 1024.
- `..`, path splitting, the path that rd_open builds, and the mode and flag checks of open, read and write; path components are given.
- `rd_chmod`.
- Sessions.SessionsStayInside: descriptor tables are sequences of values here; `Descriptors.FDT` has the linked list. A negative byte count of a write, which writes nothing, is the empty write.
- SessionsAsWritten.HeadStaysInside: one way only; a write of another process through a descriptor whose file is gone may or may not do harm (`Failures.StaleWriteFails`).
- Descriptors.FDT.Find: rd_open's new file object at the end of the list is modelled in `Sessions` only.
- AsWritten.FreeBlockRightIff: on a working `free_bitmap`; the steps as written are functions of the state, not methods on memory.
- AsWrittenWrite.WriteRightIff: on a working bitmap and block allocator, for files with at most one block more than their size fills; only directories from which entries were removed have more.
- Pointers into the space are block numbers, and a block holds either bytes or pointers; where the code reads one as the other, in `AsWrittenRemoval`, what it finds is arbitrary.
- AsWrittenRemoval.RemoveEntryRightIff: a name that does not end before its block does counts as wrong, wherever the bytes behind it land.
- Preemptive.Kernel.Fire: the scheduler is one step although the finish path enters it with interrupts on, and the flag with which a thread goes on is arbitrary; registers across an interrupt are not claimed, as line 142 of `FIFOS-2/interrupt.h` installs the C handler.
- Cooperative.Init: tables of at most 1000 threads, and likewise in `Preemptive`; with more, the scheduler's mark is also a slot number (`Threads.MarkIsSafeIff`).
- Termination of `function_sleep`, display positions and colours, interrupt and timer set-up, boot code, linker scripts.
- `FIFOS-2/switch.s` and `memos-2/testToString.c`, which repeat modelled code; memos-1, the user-side wrappers and the keyboard modules.
- ContextSwitch.SwitchBackRestores: a switching thread must have room for the 48-byte frame on its stack, which the code does not check either.
