# stuos in Dafny

A model of seven parts of stuos, a small x86-64 kernel with its own C library, and proofs of
what they promise. Each part keeps the form of its source: objects with fields that methods
overwrite, loops where the source loops, values where the source computes.

* **FAT16 over a cached block device.** `BlockDevice` refines a flat byte array through
  whole sectors and a one-sector cache. `FatLayout` shows table, root directory and clusters
  to be separate parts of the device, `FatChains` keeps the table a disjoint union of ended
  chains, `FatVolume` has the loops that walk and extend a chain, `FatFiles` what a file
  write means for every file, `FatNames` and `FatNameLoops` the long-name codec, `FatCreate`
  what a creation means for every listing, and `FatSystem` the operations themselves.
  `FatRuns` shows any run of writes and creations to act on a tree of names and byte strings,
  and `FatStandard` holds names and places against the FAT specification.
* **Page tables over a frame allocator.** `PageTables` describes the graph of tables by
  recording for every frame the one place it is used at; `PageSteps` says what each change
  does to all translations, `PageRights` what programs may do with a page by the whole way to
  it, `PageCopies` what cloning and tearing down does,
  `AddressSpace` and `FrameAllocator` have the operations, and `PageRuns` shows any run of
  them, with stores of programs in between, to keep address spaces apart.
* **The heap.** `HeapLayout` is the list of regions, `Heap` the same list in memory, cell by
  cell, `HeapAllocator` the operations, and `HeapRuns` any program using them.
* **xHCI rings.** `XhciRing` has both kinds of ring and the controller at the other end.
* **The scheduler.** `Scheduler` has the state machine, its runs, and the queue.
* **Integer text and UTF-8.** `IntegerText`, `IntegerPrinter`, `IntegerParser` and
  `IntegerRoundTrip`, with `IntegerStandard` for the number that C wants read and
  `IntegerFormat` for the text that C wants written; `Utf8` and `Utf8Reader`.
* **The terminal.** `Terminal` is the ring of rows, `TerminalEditing` what typing and taking
  back come to, `TerminalScreen` the flat buffer and the display.

A check that halts the kernel or the program is an assertion in the model where it guards a
rule, so it is proved never to fail; where the source halts because a resource is exhausted,
the method returns a failure, and its contract says exactly or at least soundly when.
Sizes and addresses are mathematical integers; where a C type could wrap, a precondition or
the contract states the range. Memory, disk and screen are sequences, arrays or maps.

## Where the source is not what it seems

* A write at the end of a cluster takes one cluster more than the data needs, because the
  step to the next cluster follows the last byte too (`stuos/src/fs_fat.c:294-304`).
* A write of no bytes beyond a file's clusters records a size that no cluster covers
  (`stuos/src/fs_fat.c:597-606`); `FatFiles.FileWriteUpdates` has the exact condition.
* The mark of the last piece of a long name is set on the entry behind it
  (`stuos/src/fs_fat.c:642`), and a name of a multiple of 13 characters gets one entry more
  than the specification has (`stuos/src/fs_fat.c:635`). So other systems need not accept the
  names; the reader here ignores the mark, and they come back. `FatStandard.WrittenPieces`.
* `allocate_ram_page` is documented to zero the page (`stuos/src/memory.h:25`) and does not;
  the model claims nothing about fresh contents.
* The check that a clean root maps no user page looks at entry 0 only
  (`stuos/src/memory.c:155-159`); that the original table's user half is empty is an
  invariant of the model.
* A controller that waits at the link while software fills all `count - 1` slots never
  sees them: the link's cycle bit has been toggled twice. `XhciRings.StuckExactly` has the
  exact condition and `XhciRings.StallReachable` a run.
* The parent that waits gets its child's exit code also where it asked for the child's pid
  (`stuos/src/processes.rs:289`), and waiting for a process group compares the child's own
  pid (`stuos/src/processes.rs:74`). The model does the same.
* A minus sign is dropped when padding zeros fill the 32-character buffer
  (`custom_libc/printf.c:518-528`), and numbers of more than 32 characters are cut in other
  ways; `IntegerRoundTrips.RoundTrip` and `IntegerFormats.PrintedAsStandard` have the exact
  conditions. A zero with a precision gets the prefix of base 2, but not that of base 16
  (`custom_libc/printf.c:549-555`); C17 has no base 2.
* A backspace after a filled row restores the row, but the next one stays cleared
  (`stuos/src/tty.c:125-158`); `TerminalEditing.BackspaceUndoes`.
* The end pointer of `strtol` is behind the character that stopped the digits, even where
  there were no digits (`custom_libc/strtol.c:51-71`). A bare `0x` is skipped in base 0, though
  C reads its 0, and in base 16 a prefix is not skipped at all, so that `0x1f` is 0
  (`custom_libc/strtol.c:39-49`). `IntegerStandards.EndAgrees` and `ValueAgrees` have the exact
  conditions, against C17, section 7.22.1.4, and three lemmas name texts that go wrong.
* After a malformed continuation byte `mbrtowc` leaves its state in mid-character
  (`custom_libc/wchar.c:193-196`); only `mbsrtowcs` resets it.

## Model

| member | source | states |
|---|---|---|
| BlockDevices.BlockDevice.WriteFile | stuos/src/fs_dev.c:120-151 | a write of n > 0 bytes through a partition replaces exactly the addressed bytes of the disk, sector by sector, and leaves a cache that is valid only if it equals its sector |
| BlockDevices.BlockDevice.WriteSector | stuos/src/fs_dev.c:129-148 | one read-modify-write round changes only the part of the sector that the input covers |
| BlockDevices.BlockDevice.ReadFile | stuos/src/fs_dev.c:153-183 | a read gives the addressed bytes, whether they come from the one-sector cache or the medium |
| BlockDevices.SpliceInSector | stuos/src/fs_dev.c:132-147 | overwriting part of a sector and writing the whole sector back is an overwrite of that part of the disk |
| BlockDevices.BlockDevice.WriteThenReadElsewhere | stuos/src/fs_dev.c:104-183 | a read through any partition, after a write through another, gives the written bytes where the two ranges meet on the disk and the former bytes elsewhere |
| FatLayout.GeometryFits | stuos/src/fs_fat.c:182-208 | first table, root directory and clusters of a volume lie inside its device, one behind the other |
| FatStandard.OnDisk | stuos/src/fs_fat.c:186-238 | what is taken for a table entry, a cluster and the root directory are the bytes at the places that the header's sector numbers give: the root behind all copies of the table, cluster n behind the root and n - 2 clusters, table entries of two bytes with the low one first |
| FatLayout.FatWriteShows | stuos/src/fs_fat.c:235-238 | two bytes written at a table entry change that entry and no other entry, directory byte or cluster |
| FatLayout.ClusterWriteShows | stuos/src/fs_fat.c:275-291 | bytes written inside a cluster change that cluster only: clusters, table and root directory do not overlap |
| FatLayout.RootWriteShows | stuos/src/fs_fat.c:250-261 | bytes written inside the root directory change nothing else |
| FatChains.ChainDetermined | stuos/src/fs_fat.c:225-233 | the table determines the chain from a first cluster: two readings of it agree |
| FatChains.LinkKeepsPartition | stuos/src/fs_fat.c:295-302 | linking a free cluster behind the last one of a chain keeps all chains disjoint, ended by a value of at least 0xFFF8, and leaves no used cluster outside them |
| FatChains.StartKeepsPartition | stuos/src/fs_fat.c:590-595 | so does starting a chain of one cluster |
| FatChains.ContentAfterWrite | stuos/src/fs_fat.c:276-292 | bytes written inside the i-th cluster of a chain are an overwrite of the chain's bytes at i clusters plus the offset |
| FatArithmetic.LengthAfterWriteIs | stuos/src/fs_fat.c:266-306 | the chain length after a write of n > 0 bytes at o is max(old length, (o + n - 1) / cluster size + 2): one cluster more than the data needs |
| FatVolumes.Volume.FindFreeCluster | stuos/src/fs_fat.c:240-248 | the lowest free cluster, or none only if there is none |
| FatVolumes.Volume.NextForWrite | stuos/src/fs_fat.c:294-304 | a step along the chain either follows it unchanged or appends the lowest free cluster |
| FatVolumes.Volume.WriteChain | stuos/src/fs_fat.c:266-306 | the write loop succeeds if and only if the free clusters suffice; then the chain has grown to the stated length by fresh clusters only, its bytes are overwritten as asked, and every cluster outside it is untouched |
| FatVolumes.Volume.ReadChain | stuos/src/fs_fat.c:325-357 | the read loop gives exactly the requested bytes of the chain |
| FatFiles.DirentFrame | stuos/src/fs_fat.c:378-393 | rewriting one directory entry leaves every other entry, and every chain that is not the directory's, as it was |
| FatFiles.FileWriteKeepsOk | stuos/src/fs_fat.c:580-608 | a file write keeps the file system well-formed: every entry has its own chain and no chain is leaked |
| FatFiles.FileWriteUpdates | stuos/src/fs_fat.c:580-608 | the written file reads as before with the new bytes put in; the recorded size stays covered by clusters if and only if the write is not empty or starts within the file's clusters |
| FatFiles.FileWriteKeepsOthers | stuos/src/fs_fat.c:580-608 | every byte of every other regular file is unchanged by a write |
| FatFiles.StepsWriteFile | stuos/src/fs_fat.c:588-607 | claiming the first cluster, rewriting the entry and writing the data together amount to the whole contract of a file write |
| FatSystems.FileSystem.ReadParentDirent | stuos/src/fs_fat.c:359-376 | the directory entry of a file, from the root directory or a chain |
| FatSystems.FileSystem.WriteParentDirent | stuos/src/fs_fat.c:378-393 | exactly one entry is replaced; it succeeds if and only if the directory's chain can be given the spare cluster the write loop takes |
| FatSystems.FileSystem.PrepareWrite | stuos/src/fs_fat.c:588-603 | a first cluster is claimed if there is none, the size only grows, and the entry records both |
| FatSystems.FileSystem.WriteFile | stuos/src/fs_fat.c:580-608 | succeeds if and only if the inode is a file, the end fits 32 bits and the clusters suffice; then the file is updated as asked, all other files and all listings are as before |
| FatSystems.FileSystem.ReadFile | stuos/src/fs_fat.c:569-577 | the requested bytes of a file, cut off at its size |
| FatSystems.FileSystem.WriteThenRead | stuos/src/fs_fat.c:558-608 | what was written is what is read back |
| FatNames.NameRoundTrip | stuos/src/fs_fat.c:434-472 | the reader of long-name entries, going backwards, gives back every NUL-free name of 1 to 255 ASCII characters that the writer cut into thirteen-character entries |
| FatNames.ListAfterCreate | stuos/src/fs_fat.c:419-529 | a listing of old entries followed by the entries of a new name is the old listing with that name appended |
| FatNames.ListStable | stuos/src/fs_fat.c:419-529 | a listing depends only on the parts of entries that writing a file does not touch |
| FatNameLoops.FillNameEntries | stuos/src/fs_fat.c:638-662 | the encoding loops produce exactly the specified entries |
| FatNameLoops.DecodeGroup | stuos/src/fs_fat.c:446-471 | the decoding loops give the name of a group of entries, and fail exactly where the source halts |
| FatNameLoops.DecodeShortName | stuos/src/fs_fat.c:475-486 | the loops over the two fields of a short name, with a dot exactly if there is an extension |
| FatStandard.ShortNameRoundTrip | stuos/src/fs_fat.c:475-486 | a base of 1 to 8 and an extension of 0 to 3 printable characters without spaces and capitals, stored in capitals and padded with spaces, are read back as base, dot and extension, without the dot if there is no extension |
| FatStandard.ListsShortName | stuos/src/fs_fat.c:419-486 | an entry that no long name comes before is listed under that name |
| FatStandard.ShortNamesRepeat | stuos/src/fs_fat.c:622-630 | two short names that creations make up are the same if and only if their numbers differ by a multiple of 26 * 26 * 26 |
| FatStandard.ChecksumIs | stuos/src/fs_fat.c:152-159 | the checksum is the specification's: bits rotated by one, then a byte added, in eight bits |
| FatStandard.LongNameRead | stuos/src/fs_fat.c:434-472 | any group of entries laid out byte by byte as the specification has it for a name of 1 to 255 ASCII characters is read as that name, one with a terminator or without |
| FatStandard.WrittenPieces | stuos/src/fs_fat.c:638-662 | each entry written is the specification's byte by byte but for the mark of the last piece, which stands in the second entry; there is one entry too many exactly if the length is a multiple of 13; so no name at all is stored as the specification has it |
| FatStandard.CreatedStands | stuos/src/fs_fat.c:610-713 | after a creation those entries stand at the former end of the directory, each with the checksum of the short name that is in the entry behind them, and an end behind that |
| FatCreate.StepsCreateInode | stuos/src/fs_fat.c:610-713 | the steps of a creation append the exact name to the directory's listing and make an empty directory, at a cluster no chain had, if asked; every old entry stays as it was but for the size in the parent's own, and no file and no other listing changes |
| FatCreate.FileWriteKeepsListings | stuos/src/fs_fat.c:580-608 | writing a file changes no directory's listing |
| FatSystems.FileSystem.FindRootEnd | stuos/src/fs_fat.c:688-696 | the search for the end of the root directory stops at the first entry whose first byte is zero |
| FatSystems.FileSystem.AppendToDirectory | stuos/src/fs_fat.c:701-709 | the directory's recorded size grows by the new entries, which overwrite its end mark, if and only if the clusters suffice |
| FatSystems.FileSystem.CreateInode | stuos/src/fs_fat.c:610-713 | succeeds if and only if the parent is a directory with room; then its listing is the old one with the exact name appended, its entries are the old ones and behind them the name's with the checksum of the short name, and every other entry, file and listing is kept |
| FatSystems.FileSystem.CreateThenList | stuos/src/fs_fat.c:406-713 | listing the parent, be it the root or any directory, through the same inode after a creation gives the old listing with the new name behind it |
| FatSystems.FileSystem.ReadDirents | stuos/src/fs_fat.c:406-530 | the requested window of a directory's listing, each entry with its name and place |
| FatCreate.FormattedOk | stuos/src/fs_fat.c:211-223 | an empty volume is well-formed, lists as empty and is ready for a creation |
| FatRuns.FormattedReady | stuos/src/fs_fat.c:211-223 | on an empty volume everything is in order, and it holds the tree with an empty root |
| FatRuns.WriteKeepsReady | stuos/src/fs_fat.c:580-608 | a file write keeps every directory listable to its end and of the recorded size, and every file inside its clusters |
| FatRuns.CreateKeepsReady | stuos/src/fs_fat.c:610-713 | so does a creation, for the parent, the new directory and all others |
| FatRuns.AddsKeepsSound | stuos/src/fs_fat.c:610-713 | what is listed stays exactly what is in use, and every directory but the root keeps exactly one entry of its own |
| FatRuns.Perform | stuos/src/fs_fat.c:406-713 | one call changes what all listings and all file reads give only as a map of names and byte strings may, and fails exactly for want of room; what was created is found by looking it up |
| FatRuns.Run | stuos/src/fs_fat.c:406-713 | over any run of writes and creations every directory lists, and every file reads, exactly what the calls so far say, and everything stays in order |
| HeapLayout.BlocksApart | custom_malloc/library.c:65-86 | live blocks never overlap and lie inside the heap |
| HeapLayout.MergeKeepsBlocks | custom_malloc/linked_list_item.c:84-102 | merging two adjacent free regions changes no live block |
| HeapLayout.InsertChangesBlock | custom_malloc/linked_list_item.c:61-78 | putting a header into a region changes at most the end of that region's block |
| HeapLayout.MarkChangesBlock | custom_malloc/linked_list_item.c:38-41 | marking a region used adds its block, marking it free removes it, and no other block changes |
| HeapLayout.FitFound | custom_malloc/library.c:26-34 | a merged region that is large enough is the first run of adjacent free regions, merged headers counted, that can hold the request |
| HeapLayout.SearchExhausted | custom_malloc/library.c:26-35 | when the cursor reaches the end, no run of adjacent free regions anywhere can hold the request |
| Heaps.MergeStep | custom_malloc/linked_list_item.c:84-102 | unlinking a header rewrites two headers in memory, after which the memory shows the merged list and every live block holds what it held |
| Heaps.InsertStep | custom_malloc/linked_list_item.c:61-78 | the two stores of an insertion make the memory show the list with the new header |
| Heaps.StoresIntoBlock | custom_malloc/library.c:65-106 | stores of the program inside a live block disturb neither the list nor any other block |
| HeapAllocators.Allocator.RegionSize | custom_malloc/linked_list_item.c:46-56 | a region reaches to the next header or the heap end; the canary and sign checks never halt |
| HeapAllocators.Allocator.InsertAfter | custom_malloc/linked_list_item.c:61-78 | the list gains the header, its last-item pointer is kept, and no order check halts |
| HeapAllocators.Allocator.TryMergeAfter | custom_malloc/linked_list_item.c:84-102 | merges exactly if this and the next region are free, keeps the blocks and their contents and the last-item pointer |
| HeapAllocators.Allocator.MallocExpandHeap | custom_libc/init.c:8-28 | whole pages are mapped behind the heap up to the request or the first refusal, and the amount is returned |
| HeapAllocators.Allocator.ExpandHeap | custom_malloc/library.c:13-24 | succeeds if and only if all pages are granted; on partial growth the last region just gets longer |
| HeapAllocators.Allocator.FindOrMakeFree | custom_malloc/library.c:26-48 | the heap grows exactly if no run of free regions fits, otherwise the lowest run that fits is returned; it fails if and only if none fits and there are fewer pages than the free regions at the end of the heap leave to be asked for; no final check halts |
| HeapAllocators.Allocator.Init | custom_malloc/library.c:50-63 | one page with one free region; without a page the source halts |
| HeapAllocators.Allocator.Malloc | custom_malloc/library.c:65-86 | a 16-byte aligned block of exactly the rounded size that was not live before, first fit; none if and only if the size is 0, or nothing fits and the pages really asked for are refused; live blocks keep address, end and contents |
| HeapAllocators.Allocator.Free | custom_malloc/library.c:88-92 | the block is no longer live, every other one is untouched |
| HeapAllocators.Allocator.Realloc | custom_malloc/library.c:94-106 | the new block starts with as much of the old one as fits both, the old one is freed; if no block is returned, which is exactly when malloc returns none, the old one stays live |
| HeapRuns.Perform | custom_malloc/library.c:65-106 | each call changes the program's view of its blocks only as a map of byte strings may |
| HeapRuns.Run | custom_malloc/library.c:13-106 | over every run of calls and stores the heap stays valid and every pointer still holds what the program put there |
| FrameAllocators.FrameAllocator.constructor | stuos/src/physical_slab_allocation.c:84-93 | the flags fit in the pages set aside at the start of the range, all other whole pages can be handed out |
| FrameAllocators.FrameAllocator.Malloc4k | stuos/src/physical_slab_allocation.c:23-33 | the lowest free frame, marked used; none only if all are used |
| FrameAllocators.FrameAllocator.MallocContiguous | stuos/src/physical_slab_allocation.c:35-66 | the lowest run of that many free frames, all marked; none only if there is no such run |
| FrameAllocators.FrameAllocator.Free4k | stuos/src/physical_slab_allocation.c:75-82 | exactly that frame is marked free |
| FrameAllocators.FrameAllocator.FreeContiguous | stuos/src/physical_slab_allocation.c:68-73 | exactly those frames are marked free |
| PageTables.LoaderTablesOk | stuos/src/memory.c:438-440 | kernel-half tables as a boot loader leaves them, huge pages included, satisfy the invariant if no table is in two places |
| PageTables.GrownOk | stuos/src/memory.c:237-257 | a new empty table behind an absent entry keeps every frame at one place of one tree |
| PageTables.GrownWalk | stuos/src/memory.c:237-257 | and changes no translation |
| PageTables.WriteMissed | stuos/src/memory.c:272-322 | writing an entry changes no walk that does not pass it, under any root |
| PageTables.PlaceUnique | stuos/src/memory.c:164-203 | no frame is shared: a root and a path have one frame |
| PageTables.NothingBelow | stuos/src/memory.c:167-181 | behind an absent entry nothing is recorded, so skipping it misses nothing |
| PageSteps.MappedStep | stuos/src/memory.c:301-318 | a leaf entry written refines one update of the abstract map: one page under one root, or for a kernel page under all roots |
| PageSteps.UnmappedStep | stuos/src/memory.c:372-381 | clearing a leaf entry removes that page and no other |
| PageSteps.RootedStep | stuos/src/memory.c:147-161 | a new root sees the kernel's pages as the kernel does and no user page, and no other root notices |
| PageSteps.KernelShared | stuos/src/memory.c:147-161 | every root translates every kernel page alike |
| PageRights.UserRights | stuos/src/memory.c:237-322 | of a user page the last entry alone decides: every table entry on the way lets programs read, write and execute |
| PageRights.RootRights | stuos/src/memory.c:237-322 | so it is from the root on: a mapped user page is for programs, writable, and executable exactly if its last entry says so |
| PageRights.GrownOpen | stuos/src/memory.c:237-257 | a new table keeps it so |
| PageRights.MappedOpen | stuos/src/memory.c:301-318 | and so does a page mapped |
| AddressSpaces.Memory.SetupPageTableEntry | stuos/src/memory.c:237-257 | an absent entry gets a fresh table with no present entry, and takes no right from the pages behind it |
| AddressSpaces.Memory.FillKernelPml4 | stuos/src/memory.c:260-270 | all 256 kernel entries of the original table become present, those that were are kept, no translation changes |
| AddressSpaces.Memory.GenerateCleanVirtualAddressing | stuos/src/memory.c:147-161 | a root at a frame not used before, kernel half shared, user half empty |
| AddressSpaces.Memory.MapPage | stuos/src/memory.c:272-322 | exactly one page of the abstract map is set, though up to three tables are made; a user page can be read and written by programs, and executed exactly if asked for, by the rights along the whole walk; only tables of the concerned tree are written |
| AddressSpaces.Memory.AllocateRamPage | stuos/src/memory.c:338-341 | the same with a frame that was free |
| AddressSpaces.Memory.DeallocatePage | stuos/src/memory.c:343-385 | exactly that page is unmapped and exactly its frame freed; every root keeps its 256 kernel entries and every page what it holds |
| AddressSpaces.UnmapUndoesMap | stuos/src/memory.c:272-385 | deallocating a page undoes its mapping on the abstract map |
| AddressSpaces.Memory.MapThenGenerate | stuos/src/memory.c:147-161 | a kernel page mapped under one root is seen under every other and under a root made afterwards, a user page only under its own |
| PageCopies.PageCloned | stuos/src/memory.c:222-225 | one page copied through its new mapping extends the clone by that page |
| AddressSpaces.Memory.CloneTable | stuos/src/memory.c:164-203 | the walk clones exactly the mapped pages below a table |
| AddressSpaces.Memory.CloneVirtualAddressing | stuos/src/memory.c:222-235 | the clone has exactly the original's user pages with equal contents and equal rights along the whole walk, in frames that were all free; nothing that existed is written and no translation changes |
| AddressSpaces.Memory.RemoveTable | stuos/src/memory.c:164-214 | every page and table below a table, and the table, is freed once and nothing else |
| AddressSpaces.Memory.RemoveVirtualAddressing | stuos/src/memory.c:216-220 | exactly the frames of the current tree are freed, each once; all other roots translate as before |
| AddressSpaces.Memory.CloneThenRemove | stuos/src/memory.c:216-235 | removing a fresh clone restores the frame flags bit for bit and every frame in use |
| PageRuns.StartHolds | stuos/src/memory.c:260-270 | with the original table alone there is one address space, without user pages |
| PageRuns.StoredHolds | stuos/src/memory.c:147-322 | a store into a page changes that page in that address space and no other page anywhere |
| PageRuns.ClonedHolds | stuos/src/memory.c:222-235 | a clone is one more address space with the pages of the original |
| PageRuns.RemovedHolds | stuos/src/memory.c:216-220 | removing the current address space changes no page of any other |
| PageRuns.Perform | stuos/src/memory.c:147-385 | each call changes one page, or adds or removes one address space, as a map from roots and pages to contents and execute permission may; it fails only when no frame is left |
| PageRuns.Run | stuos/src/memory.c:147-385 | over any run every address space has exactly the pages, contents and rights that the calls so far say, and the 256 kernel entries of every root are those of the start |
| XhciRings.Ring.constructor | stuos/src/xhci_trb.c:8-31 | a zeroed ring with a toggling link at its end |
| XhciRings.Ring.Enqueue | stuos/src/xhci_trb.c:33-45 | the new state is that of the step on ring images |
| XhciRings.Ring.Dequeue | stuos/src/xhci_trb.c:47-60 | -1 and no change if the block's cycle bit is not ours, else the block and the advanced position |
| XhciRings.StartOk | stuos/src/xhci_trb.c:8-31 | a fresh ring and a fresh consumer satisfy the invariant, with nothing pending |
| XhciRings.SendOk | stuos/src/xhci_trb.c:33-45 | a block enqueued into a ring not full is pending behind all others, over wraps too |
| XhciRings.LookOk | stuos/src/xhci_trb.c:33-45 | a conforming consumer takes the oldest pending block, follows the link, or does nothing |
| XhciRings.StuckExactly | stuos/src/xhci_trb.c:33-45 | with blocks outstanding the consumer makes no progress if and only if it waits at the link and all count - 1 slots are outstanding |
| XhciRings.RunInOrder | stuos/src/xhci_trb.c:33-45 | over any run what the consumer has seen is a prefix of what was enqueued; a consumer that follows links at once may have count - 1 outstanding, any other count - 2 |
| XhciRings.CatchesUp | stuos/src/xhci_trb.c:33-45 | a consumer that is not stuck and keeps looking sees everything |
| XhciRings.StallReachable | stuos/src/xhci_trb.c:33-45 | a counterexample with count - 1 outstanding: a consumer that follows the link lazily stalls for ever |
| XhciRings.EventDequeued | stuos/src/xhci_trb.c:47-60 | the event ring reports empty only when empty, and otherwise gives the oldest event |
| XhciRings.EventsStart | stuos/src/xhci_trb.c:8-31 | a ring as it is made is an empty event ring |
| XhciRings.EventsInOrder | stuos/src/xhci_trb.c:47-60 | over any run software gets exactly the events written, in order |
| XhciRings.FreshEventsInOrder | stuos/src/xhci_trb.c:8-60 | so it is from a fresh ring on |
| Scheduling.NextOk | stuos/src/scheduling.rs:71-110 | every step keeps the queue free of repetitions and equal to the process map, and the running process waits for nothing |
| Scheduling.EndOk | stuos/src/scheduling.rs:71-110 | so does every run, and pids only go up |
| Scheduling.PidNeverReused | stuos/src/scheduling.rs:56-60 | a pid that is gone never comes back |
| Scheduling.StepPosition | stuos/src/scheduling.rs:80-107 | a round brings each process behind the front exactly one place forward, swap-removes included; nothing else moves anyone |
| Scheduling.PolledInTurn | stuos/src/scheduling.rs:78-107 | a process at position k is polled within k rounds whatever forks and reaps happen, unless it is itself reaped |
| Scheduling.EveryonePolled | stuos/src/scheduling.rs:78-107 | no live process starves, the running one included: it is polled or reaped within as many rounds as there are processes when the next round starts |
| Scheduling.ForksPushBack | stuos/src/scheduling.rs:43-107 | a counterexample to any smaller bound from the start: processes that the running one adds are polled before it |
| Scheduling.ZombieFate | stuos/src/processes.rs:282-301 | over any run a zombie is never started, is reaped at most once, by its own parent while that waits, which gets its exit code, and then is gone |
| Scheduling.ExitDelivered | stuos/src/processes.rs:282-301 | a process that exits is buried with its own exit code, told to the parent it had then |
| Scheduling.WaitMeans | stuos/src/processes.rs:68-79 | a wait with argument p accepts exactly the zombie children c with p = -1, or p > 0 and c = p, or p = 0 and the same group, or p < -1 and c = -p |
| Scheduling.WaitsForThose | stuos/src/processes.rs:267-301 | over any run a waiting process is polled without result only while no child is acceptable, and what is reaped for it is an acceptable child with that child's own code |
| Scheduling.ToldOfThatChild | stuos/src/processes.rs:68-79 | over any run a process that waits for one pid > 0 is told of that process and no other |
| Scheduling.Resumed | stuos/src/scheduling.rs:71-110 | over any run a process is started with the registers it was last left with |
| Scheduling.ProcessQueue.Push | stuos/src/scheduling.rs:43-54 | a fresh pid at the back of the queue, child of the front process; the insertion never finds the pid taken |
| Scheduling.ProcessQueue.SyscallFork | stuos/src/syscall_handlers.rs:147-169 | the child starts from the parent's registers, is told 0, the parent its pid |
| Scheduling.ProcessQueue.PollChildren | stuos/src/processes.rs:282-297 | some acceptable zombie child and its exit code, or none because there is none |
| Scheduling.ProcessQueue.Poll | stuos/src/processes.rs:267-301 | what polling comes to for each waiting state |
| Scheduling.ProcessQueue.RunOnce | stuos/src/scheduling.rs:79-108 | one round of the loop is one step of the state machine, and no unwrap in it fails |
| Scheduling.ProcessQueue.RunNextTask | stuos/src/scheduling.rs:71-110 | the loop is a run of rounds that ends with the first process that can go to userland |
| Scheduling.ProcessQueue.SyscallHalt | stuos/src/syscall_handlers.c:24-28 | exit is the zombie step followed by scheduling |
| Scheduling.ProcessQueue.ReplaceCurrent | stuos/src/scheduling.rs:127-131 | exec makes the front process another program that keeps its pid, parent and group and waits for nothing |
| Scheduling.ProcessQueue.SyscallWait | stuos/src/syscall_handlers.rs:204-218 | wait notes what is waited for, saves the registers and schedules; in the rounds that follow the process is answered with an acceptable child, by numbers, or not at all |
| Scheduling.ProcessQueue.SyscallReadFd | stuos/src/syscall_handlers.rs:117-130 | the same for read |
| Scheduling.ProcessQueue.Interrupt | stuos/src/scheduling.rs:71-76 | an interrupt or a yield saves the registers and schedules |
| IntegerTexts.DigitsRead | custom_libc/printf.c:557-562 | the digits produced, read in order, are the value again, in any base up to 16 |
| IntegerPrinters.PrintInteger | custom_libc/printf.c:535-566 | the digit loop and everything behind it output exactly the field that `IntegerFormats.PrintedAsStandard` and `IntegerRoundTrips.FieldShape` are about |
| IntegerPrinters.PrintIntegerFinalization | custom_libc/printf.c:465-532 | zeros, base prefix and sign go into the buffer as far as it has room |
| IntegerPrinters.OutRev | custom_libc/printf.c:435-458 | the buffer reversed, spaces behind it with - and before it without, unless it was padded with zeros |
| IntegerPrinters.Gadget.PutChar | custom_libc/printf.c:330-351 | every character counts; those that fit are stored in the buffer or, one by one in order, given to the output function |
| IntegerPrinters.Gadget.AppendTermination | custom_libc/printf.c:354-365 | the buffer holds the text, or as much of it as leaves room, and an end mark; an output function gets none |
| IntegerRoundTrips.FieldShape | custom_libc/printf.c:465-566 | a decimal field is spaces, sign, zeros, digits, spaces, and how many of each: zeros up to the precision or the zero-padded width as far as the buffer goes, spaces up to the width, behind the number with - and else before it; the sign is missing exactly when padding zeros fill the buffer |
| IntegerFormats.NumeralIs | custom_libc/printf.c:557-562 | the digits, highest first, are the value written in its base without leading zeros, in small letters or capitals |
| IntegerFormats.BodyIs | custom_libc/printf.c:465-516 | digits, zeros and prefix stand in the buffer as C17, section 7.21.6.1, asks for, flags 0, # and - and precision included, whenever they fit |
| IntegerFormats.PrintedAsStandard | custom_libc/printf.c:435-566 | for every value, sign, base, precision, width and mix of flags that the format parser lets through, the text is the one C17 asks for if and only if the number has at most 32 characters, or 33 with a space for a sign among padding spaces |
| IntegerRoundTrips.PrintedValue | custom_libc/printf.c:435-566 | the printed text stands for the long, or for its absolute value if the minus sign found no room |
| IntegerRoundTrips.RoundTrip | custom_libc/strtol.c:21-98 | parsing the printed text gives the long back, LONG_MIN included, if and only if it is not a negative one with precision of at least 32 or a zero-padded width of at least 33 |
| IntegerStandards.LongestIs | custom_libc/strtol.c:21-76 | the longest initial part of the form that C expects, defined by trying every length, is given by a prefix, if a digit follows it, and the run of digits |
| IntegerStandards.DigitsAre | custom_libc/strtol.c:7-12 | a character has the value d if and only if it is the d-th of the digits and letters, small or capital |
| IntegerStandards.NearestLong | custom_libc/strtol.c:84-97 | of all the longs the one nearest to the value is taken |
| IntegerStandards.EndAgrees | custom_libc/strtol.c:39-71 | the place strto stops at is the one C wants if and only if nothing follows C's number and it has no 0x prefix in base 16 |
| IntegerStandards.ValueAgrees | custom_libc/strtol.c:39-64 | the value strto reads is C's if and only if the text is not, in base 16, a number other than 0 behind a 0x |
| IntegerStandards.BarePrefixMisplaced | custom_libc/strtol.c:39-71 | a counterexample: for 0x in base 0 the end pointer stays at the start, where C wants it behind the 0 |
| IntegerStandards.NextCharacterTaken | custom_libc/strtol.c:51-71 | a counterexample: for 1x in base 10 the end pointer is one character too far |
| IntegerStandards.PrefixNotTaken | custom_libc/strtol.c:39-71 | a counterexample: 0x1f in base 16 is read as 0 up to the f, where C reads 31 to the end |
| IntegerParsers.ScanDigits | custom_libc/strtol.c:51-75 | overflow is reported exactly when the digits' true value exceeds 2^64 - 1, else the magnitude is that value |
| IntegerParsers.Strto | custom_libc/strtol.c:21-76 | sign, base prefix and digits are found as specified, overflow exactly as stated; for the bases C defines the end pointer is where C wants it if and only if nothing follows the digits and they do not stand behind a bare 0x |
| IntegerParsers.Strtol | custom_libc/strtol.c:78-98 | the value of the digits found if it is a long, else LONG_MAX or LONG_MIN and ERANGE, and EINVAL for a base above 36; that is what C wants if and only if the text is not, in base 16, a number other than 0 behind a 0x |
| IntegerParsers.Strtoul | custom_libc/strtol.c:105-125 | ERANGE exactly past 2^64 - 1; a negative text wraps; without a 0x in base 16 the value is that of C |
| IntegerParsers.PrintAndParse | custom_libc/printf.c:435-566 | printing into a large enough buffer and reading it with strtol gives the long back under exactly that condition |
| Utf8.DecodeEncoded | custom_libc/wchar.c:189-276 | every code point up to 0x10FFFF is read back from its shortest form, whatever follows |
| Utf8.AcceptedIsShortest | custom_libc/wchar.c:189-276 | accepted bytes are the shortest form of the result (RFC 3629 section 3, surrogates not excluded) |
| Utf8.DecodeCut | custom_libc/wchar.c:247-249 | reading in two parts is reading in one |
| Utf8.EveryCutting | custom_libc/wchar.c:189-276 | however an encoding is cut, every call but the last wants more and the last gives the code point and the bytes it used |
| Utf8.ScanEncoded | custom_libc/wchar.c:278-315 | the encoding of a text is scanned back to the text |
| Utf8.ScannedIsShortest | custom_libc/wchar.c:278-315 | whatever is scanned is the shortest encoding of what comes out |
| Utf8Readers.Conversion.HandleContinuationBytes | custom_libc/wchar.c:189-226 | the loop over continuation bytes is the decoder, run from the stored state |
| Utf8Readers.Conversion.Mbrtowc | custom_libc/wchar.c:228-276 | -2 for more, -1 for malformed, 0 for the end mark, else the bytes this call used, and the state to go on from |
| Utf8Readers.ReturnedForEncoded | custom_libc/wchar.c:228-276 | at the encoding of a code point the call gives it and the encoding's length, or 0 for the null character |
| Utf8Readers.ReturnedForPart | custom_libc/wchar.c:228-276 | at a part of an encoding it gives -2 and nothing, and the next call, on the rest, the code point and the length of the rest |
| Utf8Readers.ReturnedMeans | custom_libc/wchar.c:228-276 | whatever it returns and stores is the code point whose encoding the input starts with, and that encoding's length; negative returns store nothing |
| Utf8Readers.MalformedForGood | custom_libc/wchar.c:189-276 | -1 is final, whatever input follows; -2 is not: one more byte decides |
| Utf8Readers.Conversion.MbrtowcReset | custom_libc/wchar.c:232-241 | without input a complete state is reset and an incomplete one is an error |
| Utf8Readers.Conversion.Mbsrtowcs | custom_libc/wchar.c:278-315 | the characters of a whole string, their count, and where reading stopped; it never runs out of input |
| Terminals.WrittenOk | stuos/src/tty.c:132-189 | the cursor stays in range, cells from it on are blank, and the run that can be taken back crosses no row with a newline |
| Terminals.WritesOk | stuos/src/tty.c:132-189 | so for every run of output and input |
| Terminals.OneCellEnough | stuos/src/tty.c:92-98 | repainting one cell of the bottom line equals a full redraw |
| TerminalEditing.CharacterShown | stuos/src/tty.c:132-189 | a character, ? for a negative one, is in the cell where the cursor was; the cursor is one cell on or at the start of the next row, which alone is cleared; no other cell changes |
| TerminalEditing.ScreenScrolls | stuos/src/tty.c:104-130 | a line ended moves the screen up by one line, with a blank line at the bottom |
| TerminalEditing.ShownIs | stuos/src/tty.c:80-90 | a cell of a row is drawn blank exactly from the row's first newline on |
| TerminalEditing.StaysPut | stuos/src/tty.c:132-177 | behind a program's character, and behind a newline, the backspace key changes nothing |
| TerminalEditing.BackspaceUndoes | stuos/src/tty.c:135-158 | a backspace takes back a typed character exactly, but for the row that was cleared if the character filled its row |
| TerminalEditing.EditingIsKeeping | stuos/src/tty.c:132-189 | over any run of output and typing the terminal is, but for cells of cleared rows, the one that the input without what was taken back gives, cursor and what may still be taken back included; a backspace takes the last character typed since program output or a newline with it, and without one means nothing |
| TerminalEditing.BackspaceBlanksTyped | stuos/src/tty.c:135-158 | after any run the backspace key changes no cell but one typed since a program last wrote or a line was ended |
| TerminalScreens.IndexDistinct | stuos/src/tty.c:55-59 | different cells lie at different places of the buffer |
| TerminalScreens.Terminal.BlitRow | stuos/src/tty.c:80-90 | a row is drawn blank from its first newline on |
| TerminalScreens.Terminal.Blit | stuos/src/tty.c:93-111 | everything is redrawn from the row below the cursor round the ring, or one cell |
| TerminalScreens.Terminal.DoNewline | stuos/src/tty.c:125-130 | the cursor goes to the start of the next row of the ring, cleared |
| TerminalScreens.Terminal.WriteFromMultipleSources | stuos/src/tty.c:132-189 | every write leaves the screen as a full redraw would |

## Left out

- `ftruncate`: growing does not work in the source (the size is overwritten before it is compared).
- Mounting: a volume's geometry is a parameter; the header's fields are not parsed.
- FatVolumes.Volume.WriteFat: does not keep the second copy of the table in step, because the source writes the first copy only.
- Deleted directory entries: the source's listing does not advance past one, so listings with one are a stated case that no theorem covers.
- Zeroing of gaps that a write beyond the end of a file leaves: the source does not do it.
- Packing of an inode into one number: the source keeps an entry's index in 16 bits (`stuos/src/fs_fat.c:169-182`), so entries of a directory with more than 65535 of them alias each other there and not in the model.
- `stat`, and the mode bits of entries beyond directory or file.
- FatRuns.Run: stops before a write of no bytes beyond the recorded end of a file; `FatRuns.WriteKeepsReady` covers such writes up to the end of the file's clusters, and `FatFiles.FileWriteUpdates` says what they do beyond.
- Names already taken: the source lets a directory have a name twice, and so does the model.
- FatSystems.FileSystem.ReadFile: reading a directory as a file is `ReadDirents` and not modelled a second time; the offset is at or below the file's size, as the source needs.
- FAT counts beyond 16 bits, and tables with entries outside the data area, are excluded by the volume's invariant.
- BlockDevices.BlockDevice.WriteFile: does not cover transfers of no bytes, for which the source's last sector underflows.
- `devroot`, partition tables and the choice of a device by inode: a device and its partitions are given.
- Caller buffers are values: the model does not capture a buffer that overlaps the heap, the cache or the disk.
- HeapAllocators.Allocator.Malloc: sizes that wrap 64 bits are excluded by a precondition.
- Paging: the CPU's accessed and dirty bits, the TLB, page offsets, `setup_mmio` (a loop of `map_page` over device memory) and how the boot loader sets up the original table, of which only the outcome is described. Entries for huge pages may exist in the kernel half and are walked; mapping below one is excluded.
- PageRuns.Run: maps memory by `allocate_ram_page` only, `map_page` over other memory having its own contract; kernel pages that the boot loader mapped are not listed, though their translations stay.
- AddressSpaces.Memory.CloneTable: is one method that calls itself a level down, where the source has four nested loops; so is RemoveTable.
- The bytes of a frame are its 512 words read as entries; the reading is one to one and its bit positions are not modelled.
- xHCI: doorbells, the event ring's dequeue pointer register, and the meaning of block fields.
- Scheduling.ProcessQueue.RunNextTask: is cut off after a given number of rounds, because the source's loop need not end when no process can run; every shorter run is covered by the lemmas about runs.
- Scheduling.ProcessQueue.SyscallFork: does not model user memory; the pid written through the child's and through the parent's page table are two results.
- Scheduling: file descriptors, limits, address spaces of processes and what a read delivers; whether input is ready is a parameter. Pids stay below the machine's range.
- Printing other than of integers, the format string itself, and the second printf of the kernel.
- IntegerParsers.Strto: for base 1 and negative bases C leaves the result open, and nothing is said against it.
- Utf8Readers.Conversion.Mbsrtowcs: the string is shorter than the address space, and a null state argument is a state like any other.
- Character classes and case tables, wide-character strings, floating-point text.
- The terminal's input line, glyphs and pixels; a display narrower or lower than one character.
