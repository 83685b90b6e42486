# VSnx: verified models

This project models four parts of the VSnx kernel in Dafny and proves what they promise. Each part has
the form of its source: a class with the source's fields and loops, and a specification on values that
its methods are proved against; the properties are then proved of the specification over all inputs, and
over whole runs.

* **FAT driver** (`FatMount`, `FatTable`, `FatFile`, `FatSystem`, `FatDriver`, `FatRun`, `FatNames`).
  `Gristle` holds the disk as 512-byte blocks, the system buffer and the open-file records. The FAT is
  the one of the Microsoft FAT32 File System Specification v1.03, section "FAT Data Structure". An open
  regular file, whatever it was opened for, refines a byte sequence with a position over every run of
  reads, writes and seeks, the FAT stays a forest of disjoint end-marked chains, and the directory lists every
  file as it is or the file is marked as changed. `FatExample` shows
  small volumes: a new file for which everything the driver asks for holds, a seek that fails, an append
  that ends in the FAT, and a FAT whose padding entries are handed out.
* **Memory** (`FrameSpec`, `FrameLedger`, `Pmm`, `PageSpec`, `PageTables`, `HeapSpec`, `HeapIsolation`,
  `HeapLeak`, `HeapRun`, `HeapReuse`, `HeapFrames`, `HeapAccess`, `UserHeap`). A bitmap frame allocator with a search hint,
  four-level page tables (section 4.5 of the Intel SDM, Volume 3A) in the memory they map, and the user heap
  over both. Live allocations are disjoint, no heap operation changes a byte of another live block, and every
  frame is accounted for, over every run, failures included.
* **Scheduler** (`SchedSpec`, `SchedRun`, `SchedShare`, `Scheduler`). A linked ready queue with stride
  cool-downs and context save and restore, as a machine whose steps are tick, execute, block, unblock and
  create: invariant, termination, bounded waiting, proportional share, context round trip.
* **Integer algorithms** (`Raster`, `Circle`, `Clock`). Bresenham's line and circle, and the mixed-radix
  clock.

`Arithmetic` and `Wrappers` hold what several modules share. `dafny verify dfyconfig.toml` checks
everything.

Where the code departs from what one would expect, the code is followed:

* `fat_get_free_cluster` looks for zero entries in the whole FAT and never at `total_sectors`. A FAT fills
  whole blocks, so with no cluster of the volume free it hands out the padding entries, clusters behind
  the data area (`GetFreeCluster`, `HandOutPadding`). The model follows the driver up to there: the field
  `astray` of `Gristle` says that it stopped, which happens only with no cluster of the volume free.
* `fat_write` does not look whether the seek of an append arrived. For a saved file it does not exactly if
  the file fills its clusters and cannot grow (`AppendSeek`). The bytes then go to the record the failed seek
  left, and the call answers their number; the next flush writes them, over a block of the FAT or over the
  file's own last sector (`Astray`, `WroteAstray` in `Write`; `AppendIntoFat` is an example). The model follows
  the call as long as the bytes fit in the buffer, then it stops with `astray` set.
* `fat_lseek` answers ptr - 1 for a target out of range. In range it answers the target even where it does
  not arrive: at the end of a file that fills its clusters and cannot grow, and for a file that was never
  saved, cannot be, and would have to leave its buffer. `Gristle.Lseek` says exactly when a saved file
  arrives and where the others are left; `SeekUnsaved` says what is left of the bytes of a file that was never
  saved; `SeekFullFile` is an example.
* An existing file whose stored first cluster is 0 is opened on the root directory's chain
  (gristle.c:937-939). The files of the model are on chains of their own (`FileOK`), so it is excluded.
* `make_dos_name` leaves byte 1 unwritten for a base of one character with an extension; `NamesRoundTrip`
  is an if-and-only-if over what that byte held. It drops the ninth character of a base of nine
  (`NinthDropped`).
* Neither mount function checks that the root directory ends on the disk, nor the FAT32 one that the FATs do
  (`OverrunMounts`).
* The line loop overflows an `int` exactly on the lines `Fits` refuses (`OverflowExactly`). All lines with
  sides up to 715827883 are drawn, a longer side fails with some other side (`LongestSide`), and a diagonal
  never does (`DiagonalFits`).
* The clock gains a second at every wrap of the 32-bit tick counter (`ShowsTicks`). Its double reading is
  to be trusted exactly if fewer than 296 ticks fall between the two (`DoubleReadingSafe`, `TornReading`).
* `umalloc` keeps a block marked in use when mapping it again fails half-way (`ReuseOK`). Over the heaps a
  program can reach, where no page table is ever taken back (`RunDeep`), that happens exactly if fewer pages
  are free than the block has (`ReuseDeep`, `RunReuse`; `ReuseExample` is an input). From the invariant alone
  it takes the missing tables into account (`ReuseFailsExactly`), and then the page in hand can be lost, which
  the code does not give back (`ReuseLosesExactly`); over reachable heaps it never is (`DeepLoses`).
* At the top `umalloc` leaves pages mapped when the free pages run out in the middle of a page's tables
  (`ExtendLeaksExactly`, `LeakExample`). The next extension maps over them, and their frames are lost
  (`ExtendLoses`, `RunAccounts`).
* `USER_HEAP_END` is a 55-bit number (`LimitAliases`): the pages of the heap have paths of their own exactly up
  to 2^48 bytes (`AliasesExactly`), and callers must keep the heap below 2^47 (`AllowedSize`).
* The circle loops overflow no `int` up to radius 715827881 (`CircleFits`) and some `int` at every radius from
  715830026 on (`CircleOverflows`); of the 2144 radii between nothing is said.
* `kfree` releases one page whatever the size (`KFreeAfterKMalloc`); what that loses is in the ledger of
  `RunDisjoint`.
* The scheduler's fall-back would loop forever with the kernel's thread blocked (`BlockedKernelLoops`).

What callers must see to, as the source demands it: the FATs and the root directory end on the disk, and
entries 0, 1 and the root directory's are in use; the bitmap handed to the allocator is zero; a `kmalloc`
of several pages does not exceed memory; only live allocations are freed (`Legal`); heap paths hold no
2 MiB entries (`slots`); a block that `urealloc` must move is mapped throughout; `thread_execute` gets a
thread that is not queued yet; a line passes `Fits`.

## Model

| member | source | states |
|---|---|---|
| FatMount.MountFat16 | os/kernel/fat32/gristle.c:956-1089 | accepts exactly the boot sectors that pass every check; of what it mounts: cluster 2 is right behind the FATs and the root directory, no sector of a cluster is in either, the clusters below the bound are those that end within the volume, and the volume is good exactly if FATs and root directory end on the disk |
| FatMount.MountFat32 | os/kernel/fat32/gristle.c:1091-1214 | the same for FAT32 |
| FatMount.Mount | os/kernel/fat32/gristle.c:1224-1245 | whichever kind is tried first, a boot sector is taken for the kind its root-entry count tells, or refused |
| FatMount.LaidOnce | os/kernel/fat32/gristle.c:1050-1069 | those facts determine the layout |
| FatMount.OverrunMounts | os/kernel/fat32/gristle.c:1050-1069 | a boot sector that passes every check although its root directory ends 31 blocks behind the disk |
| FatTable.EntryAfterWrite | os/kernel/fat32/gristle.c:593-621 | writing one FAT entry changes that entry and no other, also inside the same block |
| FatTable.EntryBytes | os/kernel/fat32/gristle.c:569-582 | in numbers, where the two or four bytes of an entry are and which comes first |
| FatTable.ChainAcyclic | os/kernel/fat32/gristle.c:549-590 | an end-marked chain never visits a cluster twice |
| FatTable.ChainsMeetOnce | os/kernel/fat32/gristle.c:549-590 | two chains that meet end together, so chains with different ends are disjoint |
| FatTable.ChainUnique | os/kernel/fat32/gristle.c:549-590 | a chain is determined by its first cluster |
| FatTable.FreeOnNoChain | os/kernel/fat32/gristle.c:381-428 | a cluster whose entry is 0 is on no chain |
| FatTable.LastIffMarked | os/kernel/fat32/gristle.c:583-587 | on a chain exactly the last entry is 0xFFF0, or 0xFFFFFF0, or more, and none is 0 |
| FatTable.LowestInVolume | os/kernel/fat32/gristle.c:381-428 | the lowest zero entry belongs to a cluster of the volume exactly if one is free, and never to the root directory |
| FatTable.MarkKeepsForest | os/kernel/fat32/gristle.c:396-420 | marking any zero entry, of a cluster of the volume or not, disturbs no chain |
| FatTable.AllocateKeepsForest | os/kernel/fat32/gristle.c:487-503 | first-cluster allocation gives one owner a chain of one cluster that was on none, marked 0xFFF8 or 0xFFFFFF8; all chains stay disjoint, acyclic and end-marked |
| FatTable.GrowKeepsForest | os/kernel/fat32/gristle.c:587-621 | growth appends to exactly one chain a cluster that was on none, also when the old and the new entry share a FAT block; all other chains stay as they are |
| FatTable.StaleLinkLosesMark | os/kernel/fat32/gristle.c:604-621 | linking from a buffer read before the allocation would lose the new end mark exactly if both entries share a block: what the re-read prevents |
| FatTable.FreeKeepsForest | os/kernel/fat32/gristle.c:434-474 | freeing one owner's chain frees exactly its clusters and keeps the rest of the forest |
| FatTable.EntryAfterZeroAll | os/kernel/fat32/gristle.c:434-474 | the simple walk zeroes the entries of the chain and no other |
| FatFile.SecAtInjective | os/kernel/fat32/gristle.c:526-545 | different sectors of a file are different disk blocks |
| FatFile.SecAtDisjoint | os/kernel/fat32/gristle.c:526-545 | files on disjoint chains share no disk block |
| FatFile.FlushKeeps | os/kernel/fat32/gristle.c:477-523 | writing the buffer back changes no byte of the file |
| FatFile.SeekKeeps | os/kernel/fat32/gristle.c:1559-1600 | moving the position of a clean file changes no byte of it |
| FatFile.ByteUnderCursor | os/kernel/fat32/gristle.c:1425-1440 | the byte under the cursor is the byte of the file at the position |
| FatFile.TypedOK | os/kernel/fat32/gristle.c:1465-1480 | a byte put under the cursor replaces that byte of the file, or extends the file by it, and keeps the record consistent |
| FatFile.OverwriteBytes | os/kernel/fat32/gristle.c:1462-1480 | in the contents after a write just the bytes from the position on are the new ones, and they are longer only if these go beyond the end |
| FatFile.TargetNumbers | os/kernel/fat32/gristle.c:1536-1545 | a seek counts from the start, the position or the end, and wraps below 0 |
| FatFile.SeekInSector | os/kernel/fat32/gristle.c:1559-1564 | the way inside the sector ends where restarting at the first cluster would |
| FatFile.SeekInCluster | os/kernel/fat32/gristle.c:1565-1578 | the way inside the cluster ends in the same cluster, sector, sectors left, file sector, cursor and buffer as restarting at the first cluster |
| FatFile.SeekFromStart | os/kernel/fat32/gristle.c:1581-1600 | the arithmetic behind the chain walk ends in the same place |
| FatSystem.FreeStep | os/kernel/fat32/gristle.c:440-466 | one round of freeing on the cached block is one step of the simple walk |
| FatSystem.DirentStored | os/kernel/fat32/gristle.c:756-761 | saving a directory entry leaves the 15 others of its block alone |
| FatSystem.DirentRoundTrip | os/kernel/fat32/gristle.c:693-706 | name, attributes, first cluster and size read back from the saved entry |
| FatSystem.DirentBytes | os/kernel/fat32/gristle.c:693-706 | what each of the 32 bytes of an entry is, the time bytes included |
| FatSystem.EntriesFromSave | os/kernel/fat32/gristle.c:756-761 | saving an entry in its own slot or a free one keeps the entries of all other files, whatever block they are in, and the slot then holds exactly the entry of the record |
| FatSystem.BookedKept | os/kernel/fat32/gristle.c:664-770 | what changes one file keeps every open file listed as it is or marked as changed, no two in one slot |
| FatSystem.DirWriteKeeps | os/kernel/fat32/gristle.c:756-761 | saving a directory entry touches neither the FAT nor any open file |
| FatSystem.FirstSlotKept | os/kernel/fat32/gristle.c:715-749 | what keeps the data of a directory keeps its first free slot |
| FatSystem.GrowSystem | os/kernel/fat32/gristle.c:587-621 | a growing chain keeps the whole system: forest, files, directories |
| FatSystem.OthersKept | os/kernel/fat32/gristle.c:477-523 | what keeps the data of the other chains keeps the other open files |
| FatSystem.OnDiskByte | os/kernel/fat32/gristle.c:1581-1600 | in numbers, in which block byte q of a file is |
| FatSystem.CleanOnDisk | os/kernel/fat32/gristle.c:1384-1408 | a clean file is what is on the disk |
| FatDriver.Gristle.GetFreeCluster | os/kernel/fat32/gristle.c:381-428 | marks the lowest zero entry of the FAT as an end; 0 exactly if there is none, with the disk unchanged; a cluster of the volume exactly if one is free |
| FatDriver.Gristle.FreeClusters | os/kernel/fat32/gristle.c:434-474 | terminates on an end-marked chain and leaves the disk the simple walk would, whatever FAT blocks the chain crosses and revisits |
| FatDriver.Gristle.SelectCluster | os/kernel/fat32/gristle.c:526-547 | puts the record on the first sector of the cluster, or of the fixed root directory for cluster 1 |
| FatDriver.Gristle.NextCluster | os/kernel/fat32/gristle.c:549-631 | the next cluster; at the end of the chain of a file open for writing the lowest free cluster of the volume, appended; else -1 |
| FatDriver.Gristle.AdvanceSector | os/kernel/fat32/gristle.c:633-661 | one sector on, growing the chain where it ends |
| FatDriver.Gristle.NextSector | os/kernel/fat32/gristle.c:633-661 | no byte of any file changes; fails exactly at the end of a chain that cannot grow; open only where a padding entry is handed out |
| FatDriver.Gristle.FindSlot | os/kernel/fat32/gristle.c:715-749 | finds the first free slot of the directory that starts at the parent cluster: no earlier sector of its chain, and no earlier slot of the sector, is free |
| FatDriver.Gristle.FlushFileinfo | os/kernel/fat32/gristle.c:664-770 | the directory block has exactly this file's entry replaced, in the slot it has or in the first free one of its parent directory, and every other file's entry stays; the record stands where it stood |
| FatDriver.Gristle.Flush | os/kernel/fat32/gristle.c:477-523 | the buffer is on the disk; a first cluster is allocated and the first free slot of the parent taken if needed, and that slot then lists the name, the attributes, the first cluster and the length of the contents; no byte of this or any other file changes; -1 only if no cluster of the volume is free; open only where a padding entry is handed out |
| FatDriver.Gristle.Read | os/kernel/fat32/gristle.c:1410-1445 | returns exactly the bytes at the position up to the end of the file and moves the position past them |
| FatDriver.Gristle.AppendSeek | os/kernel/fat32/gristle.c:1459-1461 | the seek of an append; for a saved file it arrives exactly if the end lies in the clusters or the chain can grow, and if it does not, says which block the record then names and what is in its buffer |
| FatDriver.Gristle.WriteAstray | os/kernel/fat32/gristle.c:1462-1484 | through such a record as many bytes as fit go to the buffer, and the answer is their number |
| FatDriver.Gristle.Write | os/kernel/fat32/gristle.c:1447-1484 | the file has the bytes at the position (at the end for appending), grown as needed, and is marked as changed after a write of one byte or more; a directory that was right or known to be out of date stays so; every other open file is unchanged; inside the clusters a saved file has it never fails and takes none; -1 once started only if no cluster of the volume is free, with a prefix of the bytes written; an append to a saved file goes wrong exactly if its seek does not arrive, and then, with no zero entry in the FAT, answers the number of bytes with the record on the block the seek named |
| FatDriver.Gristle.Lseek | os/kernel/fat32/gristle.c:1517-1601 | in range the record stands as if stepped there from the first cluster, for a saved file exactly if the target lies in the chain or the chain can grow, and otherwise the record is given; out of range nothing moves and the answer is ptr - 1 |
| FatDriver.Gristle.SeekClean | os/kernel/fat32/gristle.c:1534-1600 | all ways of seeking agree with the simple one, also when the cursor has just rolled over; says what is left where a full, read-only file is sought to its end |
| FatDriver.Gristle.SeekChain | os/kernel/fat32/gristle.c:1581-1600 | the walk from the first cluster, with growth, or to cluster 0xFFFFFFFF and the block its wrapped number names |
| FatDriver.Gristle.SeekUnsaved | os/kernel/fat32/gristle.c:1529-1600 | a file that cannot be saved is sought inside its buffer; where it has to leave it, all that is left is the block of the sector it then names, or, at its very end, the same record with the cursor at 0 |
| FatDriver.Gristle.Close | os/kernel/fat32/gristle.c:1384-1408 | afterwards the disk alone holds the file's bytes, and its slot, the one it had or the first free one of its parent, lists its name, attributes, first cluster and length |
| FatRun.WriteThenRead | os/kernel/fat32/gristle.c:1410-1601 | writing, seeking back and reading on the driver returns the bytes written, across any number of sectors and clusters, unless no cluster of the volume is free |
| FatRun.Step | os/kernel/fat32/gristle.c:1410-1601 | one read, write or seek on the driver, in whatever mode the file is open, answers what a byte sequence with a position would |
| FatRun.Run | os/kernel/fat32/gristle.c:1410-1601 | over every interleaving of reads, writes and seeks, in every mode, the driver gives the replies of the plain sequence and ends in its state, and no other open file changes; cut short, and then without a word on the other files if the driver went astray, only if no cluster of the volume is free or a file not open for writing seeks beyond its clusters |
| FatRun.RunThenClose | os/kernel/fat32/gristle.c:1384-1601 | after any reads, writes and seeks on a file open for writing, new or not, and a close, its directory entry lists its name, first cluster and the length of what the plain sequence then holds, and its chain holds those bytes |
| FatRun.StepAmong | os/kernel/fat32/gristle.c:1410-1601 | with up to four files open, a call on one moves its sequence and no other |
| FatRun.RunAmong | os/kernel/fat32/gristle.c:1410-1601 | over every interleaving of reads, writes and seeks on all open files, each in its mode, the driver answers what the plain sequences answer and ends in their states |
| FatRun.RunAmongThenClose | os/kernel/fat32/gristle.c:1384-1601 | and any of them closed then is listed with the length of its own sequence, whatever the others did, also those in the same directory block |
| FatRun.SeekIsStepping | os/kernel/fat32/gristle.c:1581-1600 | seeking to a sector is stepping there one sector at a time |
| FatRun.SoughtIsStepped | os/kernel/fat32/gristle.c:1534-1600 | wherever a seek ends, the record is the one stepping from the first cluster gives, buffer included |
| FatExample.SeekFullFile | os/kernel/fat32/gristle.c:1540-1556 | a full file open for reading only, sought to its end where it stands, answers 512 and stands at 0 with a block of the FAT for its contents |
| FatExample.AppendIntoFat | os/kernel/fat32/gristle.c:1459-1484 | one byte appended to a file that fills a full volume: the call answers 1, the record stands at block 6, which is in the FAT, and once it is written back entry 640 is no end mark any more but carries the byte |
| FatExample.PaddedFull | os/kernel/fat32/gristle.c:381-428 | a volume of 1000 one-sector clusters, all taken, with 22 zero entries in the last block of its FAT: none is free, the lowest zero entry is 1002 |
| FatExample.HandOutPadding | os/kernel/fat32/gristle.c:381-428 | there the driver hands out cluster 1002, the first block behind the volume |
| FatNames.StrToFatname | os/kernel/fat32/gristle.c:317-378 | writes the short form or reports an illegal character, never past 13 bytes |
| FatNames.MakeDosName | os/kernel/fat32/gristle.c:212-286 | fills the 11 bytes or fails, and never reads past the end of the path |
| FatNames.FatnameToStr | os/kernel/fat32/gristle.c:289-315 | writes the name without padding, never past 13 bytes |
| FatNames.DosCharTable | os/kernel/fat32/gristle.c:184-210 | which characters may stand in a name, which are turned into others, and that all else is illegal, by the characters |
| FatNames.FatStringOf | os/kernel/fat32/gristle.c:317-378 | a plain 8.3 name becomes itself in capitals, with a dot behind a base of eight without extension |
| FatNames.LongNameOf | os/kernel/fat32/gristle.c:317-378 | a plain name that is too long becomes up to six characters of its base, "~1", a dot and up to three of its extension, in capitals |
| FatNames.DotNames | os/kernel/fat32/gristle.c:212-286 | "." and ".." are padded as they are |
| FatNames.AcceptedIsLegal | os/kernel/fat32/gristle.c:317-378 | whatever the text, an accepted short form holds no illegal character |
| FatNames.DotsAtEnds | os/kernel/fat32/gristle.c:323-334 | a leading dot divides nothing, a trailing one leaves no extension |
| FatNames.DosNameOf | os/kernel/fat32/gristle.c:212-286 | such a path becomes the padded name, except that byte 1 stays what it was for a base of one character with an extension |
| FatNames.NinthDropped | os/kernel/fat32/gristle.c:245-262 | a base of nine characters loses its ninth without a word; a longer one is refused |
| FatNames.AcceptedIsWhole | os/kernel/fat32/gristle.c:212-286 | whatever the path, an accepted name ends at its first slash or end, where the pointer is left, and no byte of it but byte 1 can be illegal |
| FatNames.NameStringOf | os/kernel/fat32/gristle.c:289-315 | a padded name becomes base, dot and extension |
| FatNames.NamesRoundTrip | os/kernel/fat32/gristle.c:184-378 | a plain 8.3 name comes back in capitals exactly if its base has two or more characters, or no extension follows, or byte 1 of the buffer was a space |
| FrameSpec.AllocIsLowest | os/kernel/hal/mem/k_mem/pmm.c:123-171 | the hinted search returns the lowest free page, a multiple of 4096 bytes behind the start and not below 4 MiB, and counts it; its wrap-around loop finds nothing; 0 exactly if no page is free; the invariant holds |
| FrameSpec.FreeKeeps | os/kernel/hal/mem/k_mem/pmm.c:175-192 | freeing keeps the hint and the counter right and clears exactly the bit of the 4096 bytes the address lies in |
| FrameSpec.KMallocTakes | os/kernel/hal/mem/k_mem/pmm_api.c:12-56 | hands out the lowest run of as many free pages as the size needs and no more, or 0 exactly if there is none; what it hands out was unused, and just these bits are set and counted |
| FrameSpec.KFreeAfterKMalloc | os/kernel/hal/mem/k_mem/pmm_api.c:43-64 | kfree after kmalloc restores the bitmap for one page and leaves exactly k - 1 bits set for k pages |
| FrameSpec.RunKeeps | os/kernel/hal/mem/k_mem/pmm.c:123-192 | over every run of allocate, free, kmalloc and kfree all usable pages below the hint are used and the counter equals the set bits |
| FrameLedger.EnteredKeeps | os/kernel/hal/mem/k_mem/pmm_api.c:12-56 | what an allocation takes is disjoint from every live allocation and from what was lost |
| FrameLedger.StruckKeeps | os/kernel/hal/mem/k_mem/pmm_api.c:61-64 | freeing a live allocation gives back its first page and loses the others, one page less in the counter |
| FrameLedger.RunDisjoint | os/kernel/hal/mem/k_mem/pmm_api.c:12-64 | over every run that frees only live allocations these are pairwise disjoint, a page is used exactly if it is live or lost, and the counter is the total of the live ones plus the pages lost |
| Pmm.PageAllocator.constructor | os/kernel/hal/mem/k_mem/pmm.c:73-119 | the range is the least one of whole pages around all available regions, both ends and the number of pages exactly; nothing is used |
| Pmm.PageAllocator.IsAddressAvailable | os/kernel/hal/mem/k_mem/pmm.c:52-68 | above 4 MiB and in an available region |
| Pmm.PageAllocator.AllocPage | os/kernel/hal/mem/k_mem/pmm.c:123-171 | the bitmap loops do what the specification says |
| Pmm.PageAllocator.FreePage | os/kernel/hal/mem/k_mem/pmm.c:175-192 | likewise |
| Pmm.PageAllocator.KMalloc | os/kernel/hal/mem/k_mem/pmm_api.c:12-56 | likewise for the nested loops over runs |
| Pmm.PageAllocator.KFree | os/kernel/hal/mem/k_mem/pmm_api.c:61-64 | likewise |
| Pmm.BitsSet | os/kernel/hal/mem/k_mem/pmm.c:138-141 | setting a bit in its byte sets that page and no other |
| Pmm.BitsClear | os/kernel/hal/mem/k_mem/pmm.c:184-187 | clearing a bit in its byte clears that page and no other |
| PageSpec.SamePath | os/kernel/hal/mem/k_mem/paging.c:14-19 | two addresses share their four indices exactly if their page numbers agree in the low 36 bits |
| PageSpec.PathIsAddress | os/kernel/hal/mem/k_mem/paging.c:14-19 | the four indices and the offset are, in this order, the low 48 bits of the address |
| PageSpec.EnsureKeeps | os/kernel/hal/mem/k_mem/paging.c:131-165 | getting or making a table keeps the tables a tree of distinct frames and changes no translation; the new entry is the frame plus 7 if asked for user access, plus 3 if not |
| PageSpec.LeafIsSum | os/kernel/hal/mem/k_mem/paging.c:165-174 | for flags below 0x1000 the bitwise or of an entry is the frame plus the flags |
| PageSpec.MapsExactlyOne | os/kernel/hal/mem/k_mem/paging.c:124-174 | sets exactly one page's entry, or returns 0 with no translation changed; writes nothing but tables, takes no frame back, counts each table |
| PageSpec.MapsMarked | os/kernel/hal/mem/k_mem/paging.c:131-165 | the tables it adds are present and writable, and open to user programs exactly if the flags say so; links it finds stay |
| PageSpec.UnmapsExactlyOne | os/kernel/hal/mem/k_mem/paging.c:180-198 | clears exactly one page's entry, leaving the allocator and all other memory alone |
| PageSpec.MapThenRead | os/kernel/hal/mem/k_mem/paging.c:124-220 | with PRESENT and flags below 0x1000 the page reads back as the frame plus the offset, and every other page as before |
| PageSpec.UnmapThenRead | os/kernel/hal/mem/k_mem/paging.c:180-220 | after unmapping, the page reads as 0 and every other page as before |
| PageTables.PageManager.AllocatePageTable | os/kernel/hal/mem/k_mem/paging.c:24-38 | a page from the allocator, all 512 entries cleared |
| PageTables.PageManager.MapPage | os/kernel/hal/mem/k_mem/paging.c:124-174 | the walk with allocation does what the specification says |
| PageTables.PageManager.UnmapPage | os/kernel/hal/mem/k_mem/paging.c:180-198 | likewise |
| PageTables.PageManager.GetPhysical | os/kernel/hal/mem/k_mem/paging.c:204-220 | likewise |
| HeapSpec.MapFreshKeeps | os/kernel/hal/mem/u_mem/vmm_api.c:57-75 | mapping a fresh page at one heap page changes neither frame nor contents of any other heap page |
| HeapSpec.MapLoopKeeps | os/kernel/hal/mem/u_mem/vmm_api.c:57-76 | so does the whole loop, however it ends |
| HeapSpec.ReleaseLoopKeeps | os/kernel/hal/mem/u_mem/vmm_api.c:125-133 | so does releasing pages, and none of them stays mapped |
| HeapSpec.CleanIsRelease | os/kernel/hal/mem/u_mem/vmm_api.c:63-68 | the clean-up loops release exactly what was mapped |
| HeapSpec.SumsTile | os/kernel/hal/mem/u_mem/vmm_api.c:97-104 | the free and used sums together are the whole heap below its top |
| HeapSpec.TilesDisjoint | os/kernel/hal/mem/u_mem/vmm_api.c:97-104 | different blocks do not overlap |
| HeapIsolation.UMallocOK | os/kernel/hal/mem/u_mem/vmm_api.c:11-107 | keeps the invariant and every live block on every path; what it grants is large enough, mapped throughout with entries of frame plus 7 (present, writable, user), and overlaps nothing live |
| HeapIsolation.UMallocChooses | os/kernel/hal/mem/u_mem/vmm_api.c:11-107 | the block granted is the first free one of the list that holds the size in whole pages, as it is, or, if there is none, exactly these pages at the top; above 2^55 - 1 the answer is 0 and nothing changes |
| HeapIsolation.ReuseOK | os/kernel/hal/mem/u_mem/vmm_api.c:22-40 | a reused block; a failure half-way (when: `ReuseFailsExactly`, `ReuseDeep`) leaves it marked in use and disturbs no other |
| HeapIsolation.ExtendOK | os/kernel/hal/mem/u_mem/vmm_api.c:47-107 | a block at the top: one more in the list on success, the same list and totals on failure |
| HeapIsolation.ReleaseFrees | os/kernel/hal/mem/u_mem/vmm_api.c:125-133 | releasing returns to the allocator exactly the frames that backed the pages |
| HeapIsolation.UFreeOK | os/kernel/hal/mem/u_mem/vmm_api.c:112-138 | no block at the address: nothing changes; else that block is free, unmapped, its frames returned, and every other live block kept |
| HeapIsolation.EmptyOK | os/kernel/hal/mem/u_mem/vmm.c:14-26 | the empty heap is consistent |
| HeapIsolation.BootOK | os/kernel/hal/mem/u_mem/vmm.c:14-26 | what the boot code has to leave for the empty heap to be consistent |
| HeapIsolation.LimitAliases | os/kernel/hal/mem/u_mem/u_mem.h:15 | the 55-bit limit lets through two addresses that are one page to the tables |
| HeapIsolation.NoAliases | os/kernel/hal/mem/u_mem/u_mem.h:14 | below 2^47 no two heap pages share their indices |
| HeapIsolation.AliasesExactly | os/kernel/hal/mem/u_mem/u_mem.h:14-15 | the pages of [USER_HEAP_START, top) have pairwise different indices exactly if top <= USER_HEAP_START + 2^48 |
| HeapLeak.PathCost | os/kernel/hal/mem/k_mem/paging.c:131-165 | getting or making the tables of a page works exactly if there is a free page for each missing one, takes that many, and deepens other paths as far as they share them |
| HeapLeak.LoopCost | os/kernel/hal/mem/u_mem/vmm_api.c:57-76 | how the mapping loop ends, from the number of free pages before it and the tables already there |
| HeapLeak.ExtendFailsExactly | os/kernel/hal/mem/u_mem/vmm_api.c:47-107 | growing the heap fails exactly if the free pages do not exceed what the pages and their missing tables need |
| HeapLeak.ExtendLeaksExactly | os/kernel/hal/mem/u_mem/vmm_api.c:57-76 | a failed extension leaves pages mapped above the top exactly if, for some page but the first, the free pages suffice for those before it and not for it and its missing tables, with one to spare |
| HeapLeak.LeakExample | os/kernel/hal/mem/u_mem/vmm_api.c:57-76 | a machine with 516 free pages asked for 513: the call fails, and pages stay mapped that no block holds |
| HeapRun.WriteThenRead | os/kernel/hal/mem/u_mem/vmm_api.c:176-178 | after a store every mapped heap byte reads as before except the one stored to |
| HeapRun.CopyLoopByte | os/kernel/hal/mem/u_mem/vmm_api.c:176-178 | the copy loop carries every byte over |
| HeapRun.ReallocMoves | os/kernel/hal/mem/u_mem/vmm_api.c:173-181 | a moved block holds all old bytes, the old one is free, no other live block is touched |
| HeapRun.UReallocOK | os/kernel/hal/mem/u_mem/vmm_api.c:143-187 | urealloc on every path; the old block stays if it returns 0 for a size above 0 |
| HeapRun.RunOK | os/kernel/hal/mem/u_mem/vmm_api.c:11-187 | over every run of malloc, free, realloc and stores, failures included, the invariant holds |
| HeapRun.RunIsolates | os/kernel/hal/mem/u_mem/vmm_api.c:11-187 | over every such run a block that no step frees, reallocates or stores to stays on the same frames and reads the same |
| HeapRun.BooksBalance | os/kernel/hal/mem/u_mem/vmm_api.c:20-42 | the totals are the sums over used and free blocks and together equal next_addr - USER_HEAP_START |
| HeapReuse.ReuseFailsExactly | os/kernel/hal/mem/u_mem/vmm_api.c:22-40 | a free block is not granted exactly if the free pages do not suffice for its pages and their missing tables |
| HeapReuse.RunDeep | os/kernel/hal/mem/k_mem/paging.c:124-198 | over every run of malloc, free, realloc and stores every page below the top of the heap keeps all its page tables |
| HeapReuse.ReuseDeep | os/kernel/hal/mem/u_mem/vmm_api.c:22-40 | then a free block is granted exactly if there are as many free pages as it has; if not, all free pages end mapped at its start, the rest of it unmapped, and no page is in hand |
| HeapReuse.UMallocFailsExactly | os/kernel/hal/mem/u_mem/vmm_api.c:11-107 | when umalloc answers 0, from the state before the call; the block list is then as it was exactly if the size was 0 or no free block fitted |
| HeapReuse.RunReuse | os/kernel/hal/mem/u_mem/vmm_api.c:22-40 | after any run from the empty heap a free block is granted exactly if there are as many free pages as it has |
| HeapReuse.CrowdedOut | os/kernel/hal/mem/u_mem/vmm_api.c:22-40 | a pages asked for and freed, more than a asked for, a asked for again: for which numbers the last call answers 0, and what it then keeps |
| HeapReuse.ReuseExample | os/kernel/hal/mem/u_mem/vmm_api.c:22-40 | 516 free pages, with 300, 301 and 300: the last call answers 0, the free block is in use and at least 204 of its pages are mapped |
| HeapFrames.AccountLoop | os/kernel/hal/mem/u_mem/vmm_api.c:57-76 | what a mapping loop takes and what it loses: the frames it maps over, and the page in hand |
| HeapFrames.ReuseLosesExactly | os/kernel/hal/mem/u_mem/vmm_api.c:33-36 | from the invariant alone: remapping a free block leaves a frame handed out and in no one's use exactly if the free pages run out in the middle of a page's tables |
| HeapFrames.DeepLoses | os/kernel/hal/mem/u_mem/vmm_api.c:11-107 | over reachable heaps umalloc loses a frame only where it extends the heap over pages still mapped |
| HeapFrames.RunAccounts | os/kernel/hal/mem/u_mem/vmm_api.c:11-187 | over every run each frame handed out is a page table, holds a descriptor, backs a heap page, or was lost on one of two named paths |
| HeapFrames.FramesBalance | os/kernel/hal/mem/k_mem/pmm.c:123-192 | the counter of the allocator is the sum of page tables, blocks, mapped heap pages and lost frames |
| HeapFrames.RunBalances | os/kernel/hal/mem/k_mem/pmm.c:123-192 | so after any run from the empty heap, with what was in use before |
| HeapAccess.StepLinksStay | os/kernel/hal/mem/k_mem/paging.c:131-165 | no heap operation takes a table entry back, and every entry it adds on the path of a heap page, tables and pages, has bits 0 to 2 set |
| HeapAccess.RunOpen | os/kernel/hal/mem/u_mem/vmm_api.c:11-187 | so over every run all four entries on the way to a mapped heap page have bits 0 to 2 set: user programs may read and write every page granted |
| UserHeap.UserMemory.constructor | os/kernel/hal/mem/u_mem/vmm.c:14-26 | starts empty and consistent |
| UserHeap.UserMemory.UMalloc | os/kernel/hal/mem/u_mem/vmm_api.c:11-107 | list walk, loops and clean-up do what the specification says |
| UserHeap.UserMemory.UFree | os/kernel/hal/mem/u_mem/vmm_api.c:112-138 | likewise |
| UserHeap.UserMemory.URealloc | os/kernel/hal/mem/u_mem/vmm_api.c:143-187 | likewise, copy loop included |
| SchedSpec.SaveMid | os/kernel/threading/schedular.c:29-61 | after the save nothing runs, the queue is duplicate-free and holds ready threads, the kernel's thread among them |
| SchedSpec.CoolTurn | os/kernel/threading/schedular.c:176-186 | a thread on cool-down goes to the tail, one visit nearer |
| SchedSpec.DueTurn | os/kernel/threading/schedular.c:187-270 | a due thread runs with its frame restored, or is terminated if it has no kernel stack or stack pointer; its cool-down is then 1 for ultra, 3 for normal, 15 for low and 63 for background priority, 0 for the others |
| SchedSpec.TurnKeeps | os/kernel/threading/schedular.c:76-192 | the loop always takes the head of the queue, so the fall-backs are unreachable, and the work left decreases |
| SchedSpec.BlockedKernelLoops | os/kernel/threading/schedular.c:107-134 | with the kernel's thread blocked and nothing ready the loop would come round unchanged: why that thread must not block |
| SchedRun.InitialInv | os/kernel/threading/threading.c:22-51 | the invariant holds at the start, with the kernel's thread alone, running |
| SchedRun.TickKeeps | os/kernel/threading/schedular.c:16-271 | a tick keeps the invariant, saves the interrupted frame and dispatches a queued or the interrupted thread, with the cool-down of its priority; the threads passed over are one visit nearer, and only one that cannot run leaves the queue |
| SchedRun.SaveEffect | os/kernel/threading/schedular.c:29-61 | the interrupted thread has the frame saved and is ready at the tail of the queue, or, blocked or terminated, left out of it; nothing else changes |
| SchedRun.OffTurn | os/kernel/threading/schedular.c:81-129 | a candidate that is blocked or terminated is left out of the queue and the loop goes on |
| SchedRun.FallbackEffect | os/kernel/threading/schedular.c:88-112 | with nothing queued the lowest ready thread behind the kernel's is taken, else the kernel's |
| SchedRun.StepKeeps | os/kernel/threading/threading.c:56-159 | so does every step: tick, execute, block, unblock, create |
| SchedRun.UnblockEffect | os/kernel/threading/threading.c:430-464 | a blocked thread is ready and stands at the tail; every other thread, the rest of the queue and the processor are as before; any other number changes nothing |
| SchedRun.ExecuteEffect | os/kernel/threading/threading.c:139-159 | a ready thread stands at the tail, and nothing else changes; any other number changes nothing |
| SchedRun.BlockEffect | os/kernel/threading/threading.c:385-428 | the current thread is blocked and left out of the queue, the others in their order; the kernel's thread stays as it is |
| SchedRun.CreateEffect | os/kernel/threading/threading.c:56-133 | one thread more, with entry point, argument, stack top, flags and selectors in numbers, or nothing changes: exactly if the table is full or a stack is missing |
| SchedRun.RunKeeps | os/kernel/threading/schedular.c:16-271 | the invariant holds over every legal run |
| SchedRun.RunContexts | os/kernel/threading/schedular.c:35 | each thread's saved context is the frame with which it last lost the processor, or its creation context |
| SchedRun.ContextRoundTrip | os/kernel/threading/schedular.c:206-270 | a dispatch resumes exactly that frame in ring 0; in ring 3 all general registers, rip and rsp, rflags with bit 9 set and every other bit as saved, the selectors 0x1B and 0x23 and the thread's own kernel stack |
| SchedRun.SelectNearer | os/kernel/threading/schedular.c:76-197 | the selection loop brings a waiting thread nearer or runs it |
| SchedRun.BoundedWaiting | os/kernel/threading/schedular.c:76-197 | with at most n queued, a thread at position p with cool-down c runs within c * n + p + 1 ticks, whoever else joins, blocks or is created |
| SchedRun.WokenRuns | os/kernel/threading/threading.c:430-464 | so a thread that was just unblocked runs within c * n + |queue| + 1 fair ticks |
| SchedRun.ExecutedRuns | os/kernel/threading/threading.c:139-159 | and so does one just executed |
| SchedShare.RunShares | os/kernel/threading/schedular.c:143-192 | a thread whose cool-down started at 0 has, after v visits, been dispatched exactly ceil(v / 2) times for ultra, ceil(v / 4) for normal, ceil(v / 16) for low, ceil(v / 64) for background and v times for high and immediate priority, over every run |
| SchedShare.RunRounds | os/kernel/threading/schedular.c:76-186 | under ticks alone head-of-queue visits go round the queue in order |
| SchedShare.VisitsDifferByOne | os/kernel/threading/schedular.c:76-186 | so the visits of any two always-runnable threads differ by at most 1 after every tick |
| Scheduler.ThreadScheduler.constructor | os/kernel/threading/threading.c:22-51 | `threading_init` |
| Scheduler.ThreadScheduler.AddToReadyQueue | os/kernel/threading/schedular.c:276-298 | the linked list does what the specification says: at the tail, not twice, not if terminated |
| Scheduler.ThreadScheduler.RemoveFromReadyQueue | os/kernel/threading/schedular.c:300-318 | the linked list loses exactly that thread |
| Scheduler.ThreadScheduler.SelectTurn | os/kernel/threading/schedular.c:76-270 | one turn of the loop is the specified one |
| Scheduler.ThreadScheduler.Tick | os/kernel/threading/schedular.c:16-271 | the tick terminates, keeps the invariant, and its state and restored frame are the specified ones |
| Scheduler.ThreadScheduler.ThreadCreate | os/kernel/threading/threading.c:56-133 | one new ready thread in the table, or nothing changes |
| Scheduler.ThreadScheduler.ThreadExecute | os/kernel/threading/threading.c:139-159 | the thread joins at the tail, or -1 if it is not ready |
| Scheduler.ThreadScheduler.ThreadBlock | os/kernel/threading/threading.c:385-428 | the current thread is blocked and out of the queue; the kernel's thread is refused |
| Scheduler.ThreadScheduler.ThreadUnblock | os/kernel/threading/threading.c:430-464 | the blocked thread is ready and at the tail; -1 for no such thread, -2 if it is not blocked |
| Raster.Screen.PutPx | drivers/vbox/vboxsvga/vboxsvga.c:622-626 | exactly the point's word changes, or, off the screen, nothing |
| Raster.HalfPixel | drivers/vbox/vboxsvga/vboxsvga.c:637-650 | every point is within half a pixel of the ideal line on the minor axis |
| Raster.LineShape | drivers/vbox/vboxsvga/vboxsvga.c:637-650 | max(abs dx, abs dy) + 1 different points, adjacent ones a king's move apart, from the first end to the far one |
| Raster.LoopStep | drivers/vbox/vboxsvga/vboxsvga.c:646-648 | the two comparisons of the loop take exactly the steps of the rounded line |
| Raster.Advance | drivers/vbox/vboxsvga/vboxsvga.c:646-648 | one turn moves point and error term together, within the box of the two ends |
| Raster.OverflowExactly | drivers/vbox/vboxsvga/vboxsvga.c:638-648 | no `int` of the loop overflows exactly if the sides pass a check on their quotients by their greatest common divisor |
| Raster.LongestSide | drivers/vbox/vboxsvga/vboxsvga.c:638-648 | a side is safe whatever the other, shorter side exactly up to 715827883 |
| Raster.SteepOverflows | drivers/vbox/vboxsvga/vboxsvga.c:646 | every line (n, 1) with a longer side overflows half-way |
| Raster.DiagonalFits | drivers/vbox/vboxsvga/vboxsvga.c:646 | a diagonal never overflows, however long |
| Raster.DrawLine | drivers/vbox/vboxsvga/vboxsvga.c:637-650 | terminates and changes exactly the words of the visible points of the rounded line, in `int` arithmetic, for every line that does not overflow |
| Circle.NextNear | drivers/vbox/vboxsvga/vboxsvga.c:678-680 | each turn stays near the circle and moves right, up or both |
| Circle.ArcShape | drivers/vbox/vboxsvga/vboxsvga.c:671-682 | the walk leads by king's moves from (-r, 0) to (0, r) |
| Circle.CircleFits | drivers/vbox/vboxsvga/vboxsvga.c:671-695 | no `int` of either loop, the error term between the comparisons and the coordinates included, overflows up to radius 715827881 within coordinates that fit |
| Circle.CircleOverflows | drivers/vbox/vboxsvga/vboxsvga.c:671-695 | at every radius from 715830026 on, whatever the centre, the walk comes to a place where an `int` overflows |
| Circle.DrawCircle | drivers/vbox/vboxsvga/vboxsvga.c:671-682 | terminates for every radius and changes exactly the words of the walk and its quarter turns |
| Circle.OutlineNear | drivers/vbox/vboxsvga/vboxsvga.c:671-682 | every point drawn has abs(x^2 + y^2 - r^2) at most max(abs x, abs y) |
| Circle.FillCircle | drivers/vbox/vboxsvga/vboxsvga.c:684-695 | terminates and changes exactly the words between the arms |
| Circle.DiscFilled | drivers/vbox/vboxsvga/vboxsvga.c:684-695 | every visible point with x^2 + y^2 <= r^2 - r is filled, and none beyond r^2 + r |
| Clock.SystemClock.constructor | os/kernel/systemclock/clock.c:57-66 | the zero state |
| Clock.SystemClock.Tick | os/kernel/systemclock/clock.c:14-53 | the fields stay in radix and stand for N + 704 * floor(N / 2^32) after N ticks (modulo the wrap of the day counter) |
| Clock.SystemClock.TimeNowMs | os/kernel/systemclock/clock.c:82-100 | returns the value of two equal readings, whenever the timer ticks between the field reads; without ticks that is the time shown |
| Clock.ShowsTicks | os/kernel/systemclock/clock.c:14-53 | N before the 32-bit wrap; afterwards 704 more per wrap; one tick adds 1, or 705 at a wrap, so it never decreases |
| Clock.FieldsUnique | os/kernel/systemclock/clock.c:14-53 | the fields are determined by the time they show |
| Clock.DoubleReadingSafe | os/kernel/systemclock/clock.c:82-91 | two equal readings always give a time shown from the first read to the last exactly if fewer than 296 ticks may fall between them |
| Clock.EqualReadingsTrue | os/kernel/systemclock/clock.c:82-91 | below that they were made at one tick |
| Clock.TornReading | os/kernel/systemclock/clock.c:82-91 | 59.5 and 60.5 seconds read as 119.5, twice, before the clock has shown it |
| Clock.AfterIsLater | os/kernel/systemclock/clock.c:110-116 | `time_after` and `time_before` are right across a wrap for times less than 2^63 apart |
| Clock.AfterExactly | os/kernel/systemclock/clock.c:110-116 | of any two 64-bit times, when one is after the other |
| Clock.AfterEachOther | os/kernel/systemclock/clock.c:110-112 | at exactly 2^63 each time is after the other |

## Left out

- Device errors and timeouts of `block_read` and `block_write`: the disk is a total array of blocks.
- The full FAT is modelled (-1 and what it leaves); the other error numbers are not.
- Path lookup, `fat_open` and its truncation, `mkdir`, `rmdir`, `unlink`, directory listing: not modelled; open records are given.
- Growth of a directory while an entry is saved, a mutual recursion in the code: a free slot in the parent directory is a precondition.
- The fixed FAT16 root directory as an open directory, the second copy of the FAT, time stamps and access times.
- FatDriver.Gristle.NextCluster: the flush the source begins with is left out, because every caller has just flushed.
- FatRun.Run: what the driver does after it was handed a cluster behind the volume, or after an append through a record that a failed seek left elsewhere, is not followed, nor is what becomes of other files then.
- FatRun.RunAmong: a new file that still waits for a slot in its directory is excluded, because the first save of another may take that slot; `Run` covers it, driven alone.
- FatMount.MountFat16: block numbers are unbounded; the 32-bit wrap of sums of boot-sector fields is not modelled.
- FatDriver.Gristle.Write: file sizes and positions are unbounded; only seek targets are 32-bit numbers.
- FatDriver.Gristle.NextSector: handed a cluster behind the volume the source links it and goes on; the model sets `astray` and promises nothing more. So do NextCluster, AdvanceSector and Flush.
- FatDriver.Gristle.WriteAstray: bytes beyond the end of the buffer, for which the source goes on along the FAT from cluster 0xFFFFFFFF, are not followed.
- FatDriver.Gristle.FindSlot: a parent directory with no free slot, or the fixed FAT16 root directory, is excluded; so it is in FlushFileinfo, Flush and Close of a new file.
- Physical memory is a map from frames to their last contents, words or bytes; the contents of block descriptors and the bitmap are not in it.
- Pmm.PageAllocator.KMalloc: the wrap of size + 4095 near 2^64 is not modelled, sizes are unbounded.
- HeapIsolation.UMallocOK: sizes that would carry the heap past 2^47 or wrap 64 bits are excluded by AllowedSize.
- UserHeap.UserMemory.URealloc: a partly mapped block that has to move is excluded, because the copy would fault on the hole.
- The table for kernel mappings with 2 MiB pages (`paging_map_page_2mb`), TLB flushes, `krealloc`, `ucalloc`, `umemcpy` and the other byte helpers, `find_contiguous_pages`, `pmm_mark_page_used`, `pmm_mark_page_free`.
- `thread_exit`, `thread_terminate`, `clean_up`: they free a thread across a context switch and leave its table entry behind, so the invariant does not hold for them.
- Scheduler.ThreadScheduler.ThreadBlock: the interrupt it raises is a separate tick.
- Scheduler.ThreadScheduler.ThreadCreate: the stacks come in as parameters, since kmalloc and umalloc are modelled on their own; the process number and time slices are left out.
- Scheduler.ThreadScheduler.Tick: the tick counter of the scheduler, which nothing reads, and the test for a null frame are left out; thread numbers equal table places, since no step removes a thread.
- Circle.DrawCircle: coordinates are unbounded integers; CircleFits says for which radii and centres they are `int`s.
- Circle.FillCircle: likewise.
- `svga_fill_triangle` (floating point), rectangles and clearing, mode setting, port and register access, syscall tables, the ELF loader.
