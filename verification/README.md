# whiteOS: a verified model of the kernel's memory, paging, FAT16 and input code

This Dafny project models the stateful core of the whiteOS kernel and proves what
that code does, where it does what it is meant to, and exactly where it does not.

| files | what they model |
|---|---|
| `CTypes.dfy`, `Options.dfy` | C integer types, conversions, truncating division, bit operations, wrap-around |
| `HeapTable.dfy`, `HeapModel.dfy`, `Heap.dfy` | the first-fit block allocator over its byte table |
| `KernelHeap.dfy` | the kernel's allocator with the memory it hands out |
| `Paging.dfy`, `AddressSpaces.dfy` | two-level page tables built from heap blocks, alone and among the rest of the kernel's heap traffic |
| `Streamer.dfy` | sector-wise reads from the disk |
| `FatPosition.dfy`, `FatChain.dfy`, `FatRead.dfy`, `DiskImage.dfy`, `FileRead.dfy`, `Fat16.dfy`, `File.dfy` | FAT chains, cluster-wise reads, `fread` and `fseek` |
| `DirectoryEntry.dfy`, `Directory.dfy`, `Lookup.dfy` | directory entries, counting and loading directories, path lookup on the heap |
| `PathSyntax.dfy`, `PathParser.dfy`, `PathFree.dfy` | the path grammar, the parser that builds a heap-allocated list, and the walk that frees it |
| `OpenFile.dfy` | from a path string to the bytes of the file it names |
| `EventRing.dfy` | the event ring and its consumer under interrupts |
| `Strings.dfy` | number formatting and comparison |

## How the model is built

Code that changes state is modelled by methods over classes and arrays, each tied to a
specification function; the properties are proved about those functions. Three views
carry most of the work.

* **Read plans.** A disk read is described by its plan: for every byte delivered, the disk
  position it was copied from, or that it came from memory behind the 512-byte sector
  buffer. A read is right when its plan is the file's own positions, so "right exactly when"
  is a statement about positions and not about what the disk happens to contain.
* **Disk images.** What a plan stands for is pinned down in bytes: a file is laid out by the
  bytes of its table entries and of its clusters, a directory entry by its 32 bytes, a name
  by its character codes, and reading gives back exactly what is laid out (`DiskImage`).
* **Live allocations.** The heap's byte table is described by a map from first block to
  number of blocks. The table determines the map and the map determines the table, so
  conservation of allocations is conservation of the table's bytes.

The code is modelled as written. Where it departs from its evident intent the project says
so with a proved condition:

* A request that does not fit is answered with a run that is too short whenever the table's
  last block is free (`HeapModel.MallocKeepsTableIff`, `HeapModel.OverrunExample`).
* A free of an address inside an allocation cuts it in two, and no description is left
  (`HeapModel.FreeKeepsTableIff`).
* A request for zero bytes, or for more than 0xFFFFF000, allocates nothing and can share its
  address with the next allocation (`HeapModel.EmptyRequest`, `HeapModel.EmptyRequestAliases`).
* Page table indexes are computed from a signed address: the tables refine the flat map on
  every memory exactly for calls below 2^31 (`Paging.IndexesRightIff`, `Paging.SetRightIff`,
  `Paging.AlwaysWalksIff`).
* An entry of the file allocation table is read at the product of the table's position and
  the entry's offset (`FatChain.FatEntryMissesTable`), and end markers are compared with
  12-bit values (`FatChain.StopsAgreeIff`, `FatChain.WalksStandardChainIff`). "The chain"
  below is the one the code follows, through the entries it actually reads.
* Reads that straddle a sector or a cluster (`Streamer.StreamReadRightIff`,
  `FatRead.ReadRightIff`, `FileRead.AlwaysReadsRightIff`).
* A directory is counted along the disk and loaded along its chain
  (`Directory.LoadedWhereCountedIff`), deleted entries are counted out but loaded
  (`Directory.LoadedRightIff`), and the root directory's read can run over its buffer
  (`Directory.RootOverrunsIff`).
* The parser loops for ever on an empty name after the first (`PathSyntax.HangsIff`), and
  leaves the last node's `next` as memory had it: one earlier parse of a longer path is
  enough for a list that does not end (`PathParser.TerminatedIff`,
  `PathFree.ParseAfterFree`). Freeing the list at once gives the block table back exactly
  when the walk over the memory that the parse makes meets no block that was owned before
  (`PathFree.ParseAndFree`), as it always is from memory that is empty where nodes have
  their links (`PathFree.EveryRunIsHarmless`). Otherwise it takes other allocations away:
  where a leftover cell leads to them (`PathFree.StrangersExample`), or where they were made
  between parse and free (`PathFree.LeftoverExample`).
* A file met in the middle of a path leaks its item, a missing name in the middle is
  followed through a null pointer, and a directory that could not be loaded is searched after
  it was freed (`Lookup.FileInTheWayIff`, `Lookup.NullFollowedIff`, `Lookup.FreedFollowedIff`,
  each with an example).
* An empty directory is freed together with the address kept for its entries, whoever has
  been given that meanwhile (`Lookup.FreeFatItem`).
* `fopen` never frees the parsed path (`OpenFile.Open`).
* `keyboard_scan_key` returns the first key of several, not the last, as its comment has it
  (`EventRing.ReturnsFirstKey`).

Uninitialised memory is arbitrary: the memory behind the sector buffer and the cells of a
freshly allocated block have no known value. The disk is an immutable function from block
address to sector.

## Model

| member | source | states |
|---|---|---|
| `HeapTable.StartBlockIsFirstFit` | src/memory/heap/heap.c:67-97 | whenever a run of n >= 1 free blocks exists the search gives the least start of one; otherwise -ENOMEM exactly if the last block is taken, and else a run that is too short |
| `HeapTable.FreeEntries` | src/memory/heap/heap.c:67-97 | an entry is free exactly when its lower four bits are clear, whatever its flags |
| `HeapTable.DescribesOnlyOne` | src/memory/heap/heap.c:104-123 | the FIRST and HAS_NEXT flags determine the live allocations |
| `HeapTable.DescribedTableIsUnique` | src/memory/heap/heap.c:104-161 | the live allocations determine every byte of the table |
| `HeapTable.BytesAre` | src/memory/heap/heap.c:104-123 | in bytes: 0x00 for a block nobody owns, 0x41 for an allocation of one block, else 0xC1 for the first, 0x01 for the last and 0x81 for the others |
| `HeapTable.MarkDescribes` | src/memory/heap/heap.c:104-123 | marking a free run adds exactly that allocation to what the table describes |
| `HeapTable.ReleaseDescribes` | src/memory/heap/heap.c:147-161 | freeing from the first block of a live allocation clears that allocation and no other |
| `HeapTable.OverrunDescribesNothing` | src/memory/heap/heap.c:92-96 | after a request that does not fit was met with the trailing run, the table describes no set of allocations |
| `HeapTable.BlocksAddUp` | src/memory/heap/heap.c:104-161 | free blocks and the lengths of live allocations add up to the table's total |
| `HeapTable.OneBlockTakesFirst` | src/memory/heap/heap.c:67-97 | a request for one block gets the first free block, and the free blocks behind it keep their order |
| `HeapTable.RunLeftInFreeList` | src/memory/heap/heap.c:67-97 | when k one-block requests have been met, a free run has lost at most its first k blocks |
| `HeapModel.AlignUpCovers` | src/memory/heap/heap.c:57-61 | the rounded size is the least multiple of 4096 that covers the request exactly for requests up to 0xFFFFF000; above, it wraps to zero blocks |
| `HeapModel.AddressRoundTrip` | src/memory/heap/heap.c:99-102 | block to address and address to block are inverse |
| `HeapModel.AddressToBlockIff` | src/memory/heap/heap.c:142-145 | an address has the number of the block it lies in, and block 0 is also that of the 4095 addresses before the heap |
| `HeapModel.MallocKeepsTableIff` | src/memory/heap/heap.c:125-140 | an allocation leaves a table that describes live allocations exactly when the request is empty, fits, or finds the last block taken |
| `HeapModel.MallocGives` | src/memory/heap/heap.c:163-169 | a safe request gets 0 exactly when nothing fits, else the lowest fitting run, disjoint from every live allocation, and only its entries change |
| `HeapModel.FreeGives` | src/memory/heap/heap.c:171-175 | freeing a live address removes exactly its allocation and returns its blocks |
| `HeapModel.FreeUndoesMalloc` | src/memory/heap/heap.c:142-175 | free after malloc restores every byte of the table |
| `HeapModel.EveryRunIsSafe` | src/memory/heap/heap.c:104-175 | after any run of safe requests and frees of live addresses the table describes the live allocations and only those, aligned, disjoint, inside the heap, nothing behind the table is written, and blocks are conserved |
| `HeapModel.EmptyRequest` | src/memory/heap/heap.c:104-123 | a request of no blocks changes nothing and hands out the address of a block nobody owns |
| `HeapModel.EmptyRequestAliases` | src/memory/heap/heap.c:163-169 | an empty request and the next real one can get the same address |
| `HeapModel.FreeOfUnowned` | src/memory/heap/heap.c:147-175 | freeing a block that nobody owns changes nothing |
| `HeapModel.FreeKeepsTableIff` | src/memory/heap/heap.c:147-175 | a free leaves a table that describes live allocations, whichever they are, exactly when it is of a live allocation's first block or of a block nobody owns |
| `HeapModel.ReleasesGive` | src/memory/heap/heap.c:147-175 | any sequence of such frees, repeated ones included, takes away exactly the allocations that start at the blocks freed |
| `HeapModel.ReleasesRestoreIff` | src/memory/heap/heap.c:147-175 | when one-block allocations have been added and any blocks freed, all of those among them, the table is what it was exactly when no block freed was owned before |
| `HeapModel.OverrunExample` | src/memory/heap/heap.c:92-96 | a two-block heap asked for three blocks writes behind its table |
| `HeapModel.RoomAfterMalloc` | src/memory/heap/heap.c:125-140 | of a free run, at least what was not asked for is left free |
| `HeapModel.SpaceAfterMalloc` | src/memory/heap/heap.c:125-140 | requests that fit known space leave the rest of it free, and the heap's last block with it where the space was at the end |
| `Heap.Heap.Create` | src/memory/heap/heap.c:29-55 | accepts an aligned region of the table's size and frees every entry, refuses others with -EINVARG, leaving the entries |
| `Heap.Heap.GetStartBlock` | src/memory/heap/heap.c:67-97 | the scan loop finds the first-fit start block |
| `Heap.Heap.MarkBlocksTaken` | src/memory/heap/heap.c:104-123 | the loop writes FIRST on the first entry and HAS_NEXT on all but the last, and nothing else |
| `Heap.Heap.MarkBlocksFree` | src/memory/heap/heap.c:147-161 | the loop clears entries up to and including the first without HAS_NEXT |
| `Heap.Heap.Malloc` | src/memory/heap/heap.c:163-169 | the in-place allocator computes the specified address and table, for every request |
| `Heap.Heap.Free` | src/memory/heap/heap.c:171-175 | for any address in the heap the in-place release computes the specified table, and the heap stays valid exactly when no allocation is cut in two |
| `KernelHeap.Kernel.Kmalloc` | src/memory/heap/kheap.c:41-43 | for every request: the specified address and table, memory untouched; the heap stays valid exactly when the request was safe |
| `KernelHeap.Kernel.Kzalloc` | src/memory/heap/kheap.c:45-51 | zeroes exactly the bytes asked for, for requests that fit and those that do not; every other cell keeps its value |
| `KernelHeap.Kernel.Kfree` | src/memory/heap/kheap.c:53-55 | the same for the kernel's heap, memory untouched, for live addresses and any others in the heap |
| `Paging.IndexesRightIff` | src/memory/paging/paging.c:43-54 | the two indexes of an aligned address are its top and middle ten bits exactly below 2^31 |
| `Paging.GetIndexes` | src/memory/paging/paging.c:43-54 | refuses a misaligned address with -EINVARG, else yields the indexes |
| `Paging.HighIndexesAre` | src/memory/paging/paging.c:43-54 | from 2^31 on the indexes are those of the distance to 2^32, negated |
| `Paging.OverwriteSlot` | src/memory/paging/paging.c:67-69 | overwriting a page's slot changes that page's translation and no other, and keeps the tables apart |
| `Paging.Set` | src/memory/paging/paging.c:56-72 | for every address: writes the one cell that the computed indexes lead to, through the entry read; a misaligned address changes nothing |
| `Paging.SetRightIff` | src/memory/paging/paging.c:56-72 | a call makes its page translate to every value given, and leaves all others, exactly when its target is the page's own slot |
| `Paging.LowSet` | src/memory/paging/paging.c:65-69 | below 2^31 the target is the page's own slot |
| `Paging.HighSet` | src/memory/paging/paging.c:65-69 | on the example memory every aligned call from 2^31 on writes outside the page's slot |
| `Paging.WalkIsLastSet` | src/memory/paging/paging.c:43-72 | after any run of calls below 2^31 the two-level walk of every page gives the value last set for it, or its original entry |
| `Paging.AlwaysWalksIff` | src/memory/paging/paging.c:43-72 | the same after each call and on every memory exactly when no aligned address of the run is from 2^31 on |
| `Paging.DirectoryEntryHoldsTable` | src/memory/paging/paging.c:19 | masking a directory entry recovers the address of its table, whatever the flags |
| `CTypes.BitOrBits` | src/memory/paging/paging.c:15-19 | or-ing sets exactly the bits that are set on either side |
| `Paging.DirectoryEntryBits` | src/memory/paging/paging.c:19 | a directory entry has the writeable bit, and on the other eleven low bits those of the flags |
| `Paging.KernelFlags` | src/kernel.c:52 | the entries of the kernel's own call are the tables' addresses plus 7 |
| `Paging.OffsetWraps` | src/memory/paging/paging.c:12-18 | the running signed offset is the 32-bit wrap of i * 2^22 |
| `Paging.FillTable` | src/memory/paging/paging.c:15-17 | entry e of table i becomes frame 2^22 i + 2^12 e with the flags |
| `Paging.IdentityEntryFields` | src/memory/paging/paging.c:16 | an identity entry is the page's own number above the flags |
| `Paging.TablesMapIdentity` | src/memory/paging/paging.c:9-25 | a directory of 1024 filled tables maps every page to its own frame |
| `Paging.New4Gb` | src/memory/paging/paging.c:9-25 | builds an identity-mapped address space from 1026 fresh one-block allocations, chunk, directory and tables among them; every directory entry has the flags and is writeable; all other memory is unchanged |
| `AddressSpaces.WalkReadsItsBlocks` | src/memory/paging/paging.c:65-69 | a walk depends on the cells of its own directory and table blocks only |
| `AddressSpaces.StepKeepsSpace` | src/memory/heap/kheap.c:41-55 | no allocation, zeroing, release or store elsewhere changes a translation |
| `AddressSpaces.EveryRunKeepsSpace` | src/memory/paging/paging.c:43-72 | however heap traffic, stores into other allocations and paging_set calls are mixed, every page translates to the value last set for it |
| `AddressSpaces.Perform` | src/memory/heap/kheap.c:41-55 | the steps of such runs are what kmalloc, kzalloc, kfree, a store and paging_set do |
| `AddressSpaces.NewSpace` | src/memory/paging/paging.c:9-25 | the address space just built is one that such runs keep |
| `Streamer.StreamReadRightIff` | src/disk/streamer.c:28-55 | a stream read copies consecutive disk bytes exactly when pos mod 512 + min(total, 512) <= 512 |
| `Streamer.StreamPlanAt` | src/disk/streamer.c:39-52 | where each byte of any stream read comes from |
| `Streamer.ByteOfSector` | src/disk/disk.c:96-102 | byte 512 l + i of the disk is byte i of sector l |
| `Streamer.DiskStream.Seek` | src/disk/streamer.c:17-21 | sets the position |
| `Streamer.DiskStream.ReadBlock` | src/disk/disk.c:96-102 | one sector fills the first 512 bytes of the buffer |
| `Streamer.DiskStream.CopyFromSector` | src/disk/streamer.c:30-44 | the copy loop delivers the planned bytes of one sector and nothing else |
| `Streamer.DiskStream.Read` | src/disk/streamer.c:28-55 | the recursion delivers the plan, advances the position by total, and terminates |
| `FatChain.FatEntryMissesTable` | src/fs/fat/fat16.c:385-386 | for all 16-bit clusters and reserved sectors, the position read is the entry's place in the table only for entry 0 without reserved sectors |
| `FatChain.FatEntryBytes` | src/fs/fat/fat16.c:389-394 | the entry obtained has the byte at that position for its low byte and the next one for its high byte |
| `FatChain.FatEntryPlace` | src/fs/fat/fat16.c:385-386 | that position is 1024 times reserved sectors times cluster, modulo 2^32 |
| `FatPosition.ProductMeetsSumIff` | src/fs/fat/fat16.c:385-386 | 512 r * 2 c in 32-bit arithmetic is 512 r + 2 c only for r = c = 0 |
| `FatChain.FatEntryPositionIsAligned` | src/fs/fat/fat16.c:385-391 | the position read starts a sector, so the entry never straddles one |
| `FatChain.ChainEndsIff` | src/fs/fat/fat16.c:409-440 | a walk fails exactly when one of its links has a stop marker for an entry |
| `FatChain.ChainComposes` | src/fs/fat/fat16.c:402-446 | walking a and then b links is walking a + b, so restarting from the head loses nothing |
| `FatChain.StopsAgreeIff` | src/fs/fat/fat16.c:413-434 | the code's end test agrees with the standard's exactly outside 0xFF0, 0xFF6, 0xFF7, 0xFF8, 0xFFF and 0xFFF7 to 0xFFFF |
| `FatChain.WalksStandardChainIff` | src/fs/fat/fat16.c:402-446 | the code's walk is the standard's, link by link, exactly when no entry met is one of those |
| `FatChain.StandardEndMarkerIsFollowed` | src/fs/fat/fat16.c:413-434 | the standard's marker 0xFFFF ends the standard's walk and not the code's |
| `DiskImage.ChainIsWalked` | src/fs/fat/fat16.c:402-446 | clusters that the table's bytes link, where the code reads them, are walked in order and no further than the one that ends the chain |
| `DiskImage.FileIsReadBackIff` | src/fs/fat/fat16.c:365-368 | of a file laid out on the disk, byte by byte from cluster 2 at the start of the data sectors, the driver's view is exactly its contents |
| `DiskImage.EveryFileIsLaidOut` | src/fs/fat/fat16.c:402-446 | every file whose chain ends is laid out like that |
| `DiskImage.TwoClustersExample` | src/fs/fat/fat16.c:377-398 | bytes 05 00 lead from cluster 3 to cluster 5 |
| `FatRead.ReadRightIff` | src/fs/fat/fat16.c:449-482 | the cluster-by-cluster recursion delivers one flat slice of the file exactly when it is sector-aligned and every chunk stays on clusters of the chain |
| `FatRead.ChunkRightIff` | src/fs/fat/fat16.c:462-472 | the same for one chunk: it ends in its cluster, or runs into the chain's next one |
| `FatRead.ReadFailsIff` | src/fs/fat/fat16.c:455-460 | a read fails exactly when the chain ends before the cluster where its last chunk starts |
| `FatRead.FitsIsClusterAligned` | src/fs/fat/fat16.c:465-468 | a read that ends in its cluster, or starts one, needs nothing of the chain |
| `FatRead.SliceStaysOnChain` | src/fs/fat/fat16.c:365-368 | every byte of a right read lies in a cluster of the file's chain |
| `FatRead.PlanDependsOnChain` | src/fs/fat/fat16.c:402-482 | on two disks that agree on the table entries of the file's chain, as far as the read needs it, a read copies from the same places, whatever else the disks hold |
| `FileRead.ItemsRightIff` | src/fs/fat/fat16.c:705-712 | a successful loop over items delivers one slice of the file exactly when each item's read does |
| `FileRead.AlwaysReadsRightIff` | src/fs/fat/fat16.c:465-472 | the sizes for which every item at a multiple of its size is read right, on every disk and from every file, are those that divide 512, or are whole sectors dividing or divided by the cluster size; the disk that fails the others has the driver's signature |
| `FileRead.AlwaysReadsRightBehindIff` | src/fs/fat/fat16.c:465-472 | the same over all disks that share one boot sector, whatever it holds, when there is a reserved sector |
| `FileRead.MisreadItem` | src/fs/fat/fat16.c:465-472 | for any other size, an item that is misread on every disk where the chain of cluster 257 leads back to 257 |
| `FileRead.AlignedItemsRight` | src/fs/fat/fat16.c:697-717 | for such a size at a multiple of it, n items succeed exactly when the chain reaches the last byte, and are bytes [pos, pos + n size) of the file |
| `Fat16.Fat16.GetFatEntry` | src/fs/fat/fat16.c:377-398 | obtains the two bytes at the position the code computes, the lower one first |
| `Fat16.Fat16.GetClusterForOffset` | src/fs/fat/fat16.c:402-446 | the loop finds the (offset / cluster size)-th link, or fails with -EIO where the chain ends |
| `Fat16.Fat16.ReadInternal` | src/fs/fat/fat16.c:449-489 | delivers the cluster plan, reports -EIO exactly when it fails, and touches nothing else in the buffer |
| `File.Descriptor.Fat16Read` | src/fs/fat/fat16.c:697-717 | delivers the plan of all items and returns nmemb, or the first error |
| `File.Descriptor.Fat16Seek` | src/fs/fat/fat16.c:743-784 | result and position of a seek; directories are refused |
| `File.Files.Fread` | src/fs/file.c:241-260 | end to end: nmemb exactly when the chain reaches the last byte, the buffer then holds the file's bytes, nothing behind them changes; zero sizes and unknown descriptors give -EINVARG; for any file laid out on the disk these are its contents, byte for byte |
| `File.HoldsContentsIff` | src/fs/fat/fat16.c:365-368 | a buffer holds a file laid out on the disk exactly when it holds that slice of its contents, and the chain reaches as far as they do |
| `File.Files.Fseek` | src/fs/file.c:226-239 | unknown descriptors give -EIO; else the driver's seek with the offset taken as unsigned |
| `File.SeekRightIff` | src/fs/file.c:236 | SEEK_SET and SEEK_CUR succeed exactly for targets in the file, for all offsets and positions, exactly when the file is at most 2^31 bytes |
| `File.SeekGoesTo` | src/fs/fat/fat16.c:743-784 | for all files and arguments: a seek from the start or from here goes to the position in the file that is its target modulo 2^32, or fails with -1 where there is none; from the end it is refused with -7, in any other mode with -2 |
| `File.SeeksStayInFile` | src/fs/fat/fat16.c:756-781 | no run of seeks leaves the file |
| `DirectoryEntry.RenderedRightIff` | src/fs/fat/fat16.c:316-341 | the rendered name is the one the fields hold exactly when the fields read are terminated |
| `DirectoryEntry.StoredNameRenderedIff` | src/fs/fat/fat16.c:316-341 | a name stored in the standard's way is rendered as it was exactly with fewer than eight characters or no extension, and fewer than three in the extension or an attribute byte of 0 or 0x20 |
| `DirectoryEntry.FieldsReadBackIff` | src/fs/fat/fat16.c:357-360 | while bytes 20 and 21 are 0, first cluster and size are those that bytes 26 to 31 spell in little-endian order, whatever the other bytes are |
| `DirectoryEntry.FirstClusterBits` | src/fs/fat/fat16.c:357-360 | with other bytes there, the bits of both halves run together |
| `DirectoryEntry.IsDirectoryIff` | src/fs/fat/fat16.c:509-512 | bit 4 of byte 11 marks a directory |
| `DirectoryEntry.RenderedExample` | src/fs/fat/fat16.c:316-341 | a name of eight characters is read on into its extension: PROGRAM1 with HS becomes PROGRAM1HS.HS |
| `Directory.LoadedRightIff` | src/fs/fat/fat16.c:183-200 | counting and loading agree exactly when no deleted entry stands among those loaded |
| `Directory.LoadedExample` | src/fs/fat/fat16.c:183-200 | a first entry with first byte 0xE5 before one in use: the deleted one is loaded, the other left out |
| `Directory.EntriesAreAligned` | src/fs/fat/fat16.c:185 | no 32-byte entry read straddles a sector |
| `Directory.GetTotalItems` | src/fs/fat/fat16.c:164-205 | counts, up to the first entry whose first byte is 0, the entries whose first byte is not 0xE5 |
| `Directory.EndsIff` | src/fs/fat/fat16.c:183-194 | the count ends exactly where such an entry stands at positions that an int can hold |
| `Directory.LoadEntries` | src/fs/fat/fat16.c:545-553 | loads as many entries as were counted, along the chain, or -EIO when the chain ends before them |
| `Directory.EntriesAreFileBytes` | src/fs/fat/fat16.c:545-553 | the entries loaded are byte for byte what the file has, 32 for each |
| `Directory.LaidOutIsLoadedIff` | src/fs/fat/fat16.c:534-553 | a directory laid out on the disk is loaded exactly when its clusters have room for the entries counted, and then as its contents have them |
| `Directory.LoadedWhereCountedIff` | src/fs/fat/fat16.c:164-205 | entries are loaded from where they were counted exactly when the chain's clusters are consecutive as far as they reach |
| `Directory.LoadedElsewhereExample` | src/fs/fat/fat16.c:534-553 | a directory in clusters 3 and 5: the first entry of the second cluster is counted in 4 and loaded from 5 |
| `Directory.LoadedIsListed` | src/fs/fat/fat16.c:534-553 | then what is loaded is the counted number of leading entries of the listing |
| `Directory.LoadRoot` | src/fs/fat/fat16.c:208-241 | the same for the root directory, into a buffer for root_dir_entries entries: the disk's bytes, as many as were counted, and bytes behind them keep their value |
| `Directory.RootOverrunsIff` | src/fs/fat/fat16.c:214-232 | the read leaves that buffer exactly when the count ran on behind the directory's area and met more entries in use there than the area has deleted ones |
| `Directory.RootOverrunExample` | src/fs/fat/fat16.c:214-232 | a full root directory of 64 entries with an entry in use behind it |
| `Lookup.MatchesIff` | src/fs/fat/fat16.c:590-599 | the comparison within 108 characters holds exactly for names of the same length with the same letters, in any case |
| `Lookup.FirstMatch` | src/fs/fat/fat16.c:590-599 | the search gives the first entry whose rendered name is the one looked for, letter by letter but for case, or there is none |
| `Lookup.LongerNameExample` | src/fs/fat/fat16.c:590-599 | behind HI.TXT, HELLO.TXT is found under its own name and not under HE |
| `Lookup.FoundIffDescent` | src/fs/fat/fat16.c:603-639 | a lookup finds an entry exactly when it ends a descent of first matches, each in the directory before it |
| `Lookup.ReachedResolves` | src/fs/fat/fat16.c:615-636 | a lookup goes down every descent along its first names |
| `Lookup.MissingIff` | src/fs/fat/fat16.c:608-612 | a lookup ends with nothing exactly when the first name is not in the root, or only the last is missing |
| `Lookup.NullFollowedIff` | src/fs/fat/fat16.c:617-635 | a null pointer is followed exactly when a name between the first and the last is missing |
| `Lookup.FileInTheWayIff` | src/fs/fat/fat16.c:617-622 | a lookup stops at a file, leaking its item, exactly when a descent reaches that file before the last name |
| `Lookup.FreedFollowedIff` | src/fs/fat/fat16.c:554-560 | a freed directory is searched exactly when a descent reaches, before the last name, one whose chain ends before its entries |
| `Lookup.NullFollowedExample` | src/fs/fat/fat16.c:632-635 | A/B/C, on every disk where the first entry of A is an end marker |
| `Lookup.FileInTheWayExample` | src/fs/fat/fat16.c:617-622 | A/B, where A is a file |
| `Lookup.FreedFollowedExample` | src/fs/fat/fat16.c:554-560 | A/B, on a disk with the signature and the repository's own geometry, where A has more entries than its one cluster holds |
| `Lookup.LoadFatDirectory` | src/fs/fat/fat16.c:514-561 | loads a directory of any length into two fresh allocations, one when it is empty; when its chain ends early, frees both and hands out the freed address |
| `Lookup.EntriesFitBlocks` | src/fs/fat/fat16.c:540-541 | the blocks taken for n entries hold 32 n bytes, with less than a block to spare |
| `Lookup.NewFatItem` | src/fs/fat/fat16.c:563-584 | an item takes two fresh allocations, a directory those of its contents, and holds the loaded entries |
| `Lookup.FreeFatItem` | src/fs/fat/fat16.c:491-507 | frees the item's allocations, and nobody else's exactly when the address kept for the entries of an empty directory has not been handed out since |
| `Lookup.FindItem` | src/fs/fat/fat16.c:586-601 | loads the first match; without one nothing is allocated |
| `Lookup.Descend` | src/fs/fat/fat16.c:632-635 | the item found takes the current one's place on the heap |
| `Lookup.GetDirectoryEntry` | src/fs/fat/fat16.c:603-639 | for paths that reach no null and no freed pointer, the result is what the descent resolves to; only its allocations stay live, none when a name is missing, and a file in the way stays allocated |
| `PathSyntax.HangsIff` | src/fs/pparser.c:112-113 | the parser never returns exactly for well-formed paths with an empty name after the first |
| `PathSyntax.RejectedIff` | src/fs/pparser.c:86-104 | a path is refused exactly when it has more than 108 characters or does not begin with a digit, a colon and a slash |
| `PathSyntax.DriveAlone` | src/fs/pparser.c:86-111 | any other gives the digit as drive, and no names exactly when nothing or a slash follows |
| `PathSyntax.ParsePrint` | src/fs/pparser.c:86-117 | parsing a printed path gives back drive and names; a trailing slash changes nothing |
| `PathSyntax.PrintParse` | src/fs/pparser.c:86-117 | a path that parses to names is those names printed, give or take a trailing slash, and every name fits its buffer |
| `PathParser.CopyName` | src/fs/pparser.c:45-47 | the copy loop stores the next name and its terminator inside the buffer |
| `PathParser.GetPathPart` | src/fs/pparser.c:36-53 | copies the next name into a fresh buffer and moves past its slash; nothing happens without one |
| `PathParser.ParsePathPart` | src/fs/pparser.c:56-69 | appends a node for the next name to the list |
| `PathParser.CreateRoot` | src/fs/pparser.c:26-32 | a root with the drive and no names |
| `PathParser.Parse` | src/fs/pparser.c:86-117 | refuses, hangs, or builds the list of the path's names in the first 1 + 2k free blocks, and writes nowhere else |
| `PathParser.TerminatedIff` | src/fs/pparser.c:62-66 | the list of k names ends exactly when, before the parse, the `next` cell of the (2k + 1)-th free block held 0 |
| `PathParser.ReadNames` | src/fs/fat/fat16.c:612-635 | a walk over a list that ends meets its names, in order |
| `PathFree.PathIsBuilt` | src/fs/pparser.c:86-117 | what parsing a path makes of memory, as a function of the memory before: the list of its names in the first free blocks, and nothing else |
| `PathFree.Free` | src/fs/pparser.c:72-83 | whatever memory leads the walk over, as long as that is in the heap and ends, it frees the name and the node of each node it meets and then the root, wherever in the heap they are and whoever owns them |
| `PathFree.ParseAndFree` | src/fs/pparser.c:72-117 | whatever memory holds behind the last node, parsing and freeing leaves the block table byte for byte as it was exactly when the walk meets no block that was owned before; the list's links stay in memory |
| `PathFree.StrangersExample` | src/fs/pparser.c:72-117 | where leftover cells lead to a block b, and b's to a block a, parsing 0:/c and freeing it at once takes a and b away from their owners |
| `PathFree.WalksStillEnd` | src/fs/pparser.c:56-83 | a list left behind never spoils the end of a walk that had one |
| `PathFree.EmptyMemoryWalksEnd` | src/fs/pparser.c:56-83 | memory that is empty where nodes have their links leads every walk to an end |
| `PathFree.WalkIsHarmless` | src/fs/pparser.c:72-117 | where memory leads a walk to an end over blocks where lists have their nodes, it meets nobody's block |
| `PathFree.EveryRunIsHarmless` | src/fs/pparser.c:72-117 | so on memory that leads every walk to an end every sequence of paths parsed and freed meets nobody's block, although lists in between may not end |
| `PathFree.ParseAndFreeAll` | src/fs/pparser.c:72-117 | a sequence of paths parsed and freed whose walks meet nobody's block leaves the table byte for byte as it was |
| `PathFree.ParseAfterFree` | src/fs/pparser.c:56-117 | after one harmless parse and free of n names, a list of fewer names does not end, and one of n or more ends if it would have before |
| `PathFree.LeftoverList` | src/fs/pparser.c:56-117 | after 0:/a/b the list of 0:/c does not end: a walk goes on into the freed node of b |
| `PathFree.LeftoverExample` | src/fs/pparser.c:72-83 | two blocks allocated between that parse and its free are taken away from their owner |
| `EventRing.EveryRunIsFifo` | src/whitelib/system/system.c:18-36 | with pushes between any two consumer steps and over any number of calls, what was read is a prefix of what was pushed; the calls share it out without a gap, each returning the first key of its share |
| `EventRing.StepKeepsInv` | src/keyboard/keyboard.c:12-27 | every allowed push and every consumer step keeps the ring's contents and the call's result right |
| `EventRing.FetchedCannotChange` | src/whitelib/system/system.c:24-26 | a fetched event cannot change before its pop |
| `EventRing.ReturnsFirstKey` | src/keyboard/keyboard.c:6-28 | the call returns with the ring drained, and with the value of the first key it read |
| `EventRing.FirstKeyIs` | src/keyboard/keyboard.c:14-22 | the first key is the low eight bits of the first event of kind 1 |
| `EventRing.PushAllowedIff` | src/whitelib/system/system.c:18-22 | a push keeps the invariant exactly when a slot is free, counting the one being popped, and the event has a type |
| `EventRing.FullRingLosesOldest` | src/whitelib/system/system.c:18-22 | pushed into a full ring, an event is read in place of the oldest one |
| `EventRing.UntypedEventIsNotSeen` | src/whitelib/system/system.c:34-36 | an event of type 0 is not seen |
| `EventRing.StartsWithInv` | src/whitelib/system/system.c:10-16 | the initialised ring satisfies the invariant |
| `EventRing.EventQueue.PushEvent` | src/whitelib/system/system.c:18-22 | writes the tail slot and advances the tail |
| `EventRing.EventQueue.PopEvent` | src/whitelib/system/system.c:28-32 | clears the head's type and advances the head |
| `EventRing.EventQueue.ReadPending` | src/keyboard/keyboard.c:14-22 | the inner loop, left to itself, reads exactly the pending events, pops them, empties the ring, counts the keys and keeps the first |
| `EventRing.PendingIsUnread` | src/whitelib/system/system.c:18-36 | the pending events are those pushed and not yet released, in order |
| `Strings.ReadBackIff` | src/whitelib/string/string.c:95-105 | reading back the text of n gives n exactly for n >= 0 and for -2115098112 |
| `Strings.TextIsNumeralIff` | src/whitelib/string/string.c:28-53 | the text of a number that is not negative is the one decimal numeral without leading zeros that has its value |
| `Strings.LeastNumberText` | src/whitelib/string/string.c:35-46 | the text of -2147483648 is -./,),(-*,( |
| `Strings.Digits` | src/whitelib/string/string.c:42-46 | the digits of the division loop have the number's value, its sign included |
| `Strings.DigitsAreDecimal` | src/whitelib/string/string.c:42-46 | for a number that is not negative they are decimal digits |
| `Strings.DigitsLength` | src/whitelib/string/string.c:40-46 | there are no leading zeros, and ten digits are enough |
| `Strings.NegativeText` | src/whitelib/string/string.c:35-39 | the text of a negative number above -2^31 is a minus sign and the text of its opposite |
| `Strings.CollectDigits` | src/whitelib/string/string.c:40-46 | the division loop stores the digits, last one first |
| `Strings.PlaceDigits` | src/whitelib/string/string.c:47-52 | the copy loop reverses them into place and terminates them |
| `Strings.ToString` | src/whitelib/string/string.c:28-53 | writes the text and its terminator, and nothing behind them |
| `Strings.ToInt` | src/whitelib/string/string.c:95-105 | the wrapped sum of the characters' distances from '0' |
| `Strings.HexRoundTrip` | src/whitelib/string/string.c:60-63 | decoding the eight digits gives back every 32-bit number |
| `Strings.HexTextAt` | src/whitelib/string/string.c:55-64 | each character is the hexadecimal digit of its place |
| `Strings.ToStringHex` | src/whitelib/string/string.c:55-64 | writes "0x", the eight digits and the terminator |
| `Strings.IStrNCmp` | src/whitelib/string/string.c:117-125 | 0 exactly when, as far as n characters reach, the strings end together and have the same letters but for case |
| `Strings.StrNLen` | src/whitelib/string/string.c:4-11 | the length, or 0 for a string longer than the limit |
| `OpenFile.ParseNames` | src/fs/file.c:131 | a parsed path gives the lookup its names, in 1 + 2k fresh blocks, and leaves the rest of known space free |
| `OpenFile.Open` | src/fs/fat/fat16.c:647-695 | for a path that a descent leads to an entry: a descriptor on that entry, and on the heap the parsed path, the descriptor and the entry's item, nothing else |
| `OpenFile.ReadByPath` | src/fs/file.c:127-260 | end to end: the buffer holds the bytes of the clusters of the entry that the path names, exactly when its chain reaches the last byte asked for; for a file laid out on the disk these are its contents |

## Left out

- File.Files.Fread: does not model disk positions or buffers beyond 2^31; the bytes asked for are required to lie at positions an int can hold.
- Fat16.Fat16.ReadInternal: does not model the error path of a foreign disk (src/disk/disk.c:98-99); all streams are opened on the one disk.
- KernelHeap.Kernel.Kzalloc: does not model zeroing that passes the last 32-bit address, as every request above 0xFFFFF000 does when it is given an address; memory outside the heap's region is not part of the model.
- KernelHeap.Kernel.Kfree: does not model addresses outside the heap, for which the source writes in front of its table; behind it the source does nothing.
- KernelHeap.Kernel.Store: does not model the overlap of words and characters at different offsets of one block; a word occupies the cell of its first byte.
- Paging.Set: does not model reads and writes outside the heap's region, where an aligned address from 2^31 on can lead.
- Paging.New4Gb: does not model a heap with fewer than 1026 free blocks; the source does not check the allocations.
- Directory.GetTotalItems: does not model a directory without an end marker at positions an int can hold; the count would run on over negative positions.
- Lookup.GetDirectoryEntry: does not model what is read through a null or a freed pointer, nor a heap without room for the items of the path; an empty directory is loaded with the heap's last block free. Loaded entries are values, not memory cells, and rendered names end with the entry.
- PathFree.Free: does not model a walk that never ends, or that frees or reads addresses outside the heap's region; what lies there is not part of the model.
- OpenFile.Open: does not model a path that names no entry, for which the source frees a descriptor without an item through a null pointer.
- EventRing.ReturnsFirstKey: the outer loop of keyboard_scan_key is modelled by its steps as functions on states, not as a method, because it ends only when an interrupt pushes a key.
- The descriptor table's allocation and release (src/fs/file.c:62-86), fclose, the mode string of fopen, fat16_resolve and the boot record's layout.
- Port I/O, ATA polling, interrupt tables, the exception ring (same shape as the event ring), terminal output and the demo programs.
- toStringFloat, strnlen_terminator, strcpy, memcmp and memcpy.
