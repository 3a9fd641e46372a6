# neo-OS in Dafny: the stateful core of the kernel

neo-OS is a small x86-64 kernel. This project models the parts of it in which mistakes are
hard to see, because they keep a structure up to date in place, and proves what those
structures promise over every input and every run:

- the FAT32 cluster-chain engine (`FatTable`, `FatVolume`, `FatSpec`, `FatLaws`, `FatEngine`,
  and the short names of directory entries in `FatNames`),
- the kernel heap (`KernelHeap`),
- the four-level page tables (`PageTables`),
- the page-frame allocator (`PageAllocator`),
- and what they and their callers are built on: the growable list and the chained hash map
  (`GrowableList`, `HashMap`), the string class, lists of strings and `split` (`Strings`), number
  printing and parsing and the string hash (`Numbers`), the disk controller's transfer table
  (`Prdt`), and the machine words (`Machine`).

## How it is organised

Code that changes things step by step is a class with the source's loops. Each such method is
proved against a relation or function on values, and the laws are then proved of those
values, for whole runs where a law is about runs.

**FAT.** `FatTable` says what a walk along the links is, when a table is sound (its chains are
acyclic, pairwise disjoint and account for every used cluster; the table alone decides them), and
what linking and freeing do to a sound table. `FatVolume` adds the data area. `FatSpec.State` is a
mounted partition as a value. `FatSpec.WriteStep` and `FatSpec.DeleteStep` are the operations,
stated entry by entry and sector by sector, and `FatSpec.Run` is any sequence of them from a valid
state. `FatSpec.State.Files` is the meaning: a map from the head of each chain to the sectors it
holds. That a step keeps a partition valid and changes one file is proved from the entries and
sectors. `FatEngine.FatPartition` is the driver's code over an array. It records its calls, and
each call goes on with a `FatSpec.Run` (`Recorded`); so `FilesAreReplayed` and `LastStoredIsHeld`
say of the object itself that a head always holds what was last stored there. `FatLaws` derives
what a user of the engine sees, without the steps' own terms: what each result of a write says,
what the searches for free clusters lose, and which files mounting the device again finds.

**Heap.** `KernelHeap.Layout` is the cell array with the live allocations. The cells are bytes that
are taken over as they are (the code does not clear them); those from 3 to 255 stand for
nothing and are one value, OTHER. The layout holds at the start, without an allocation, exactly
when no cell but the first reads as USED and no OTHER cell but the first has a FREE one behind
it (`KernelHeap.Clear`). `Kfree` is modelled for any pointer, not only live ones. The heap
records its calls, as does the page allocator, and the sizes that were asked for (`requests`), so
that its contracts can speak of bytes.

**Page tables.** `PageTables.Flat` reads the tree as a flat map from page number to frame. The
methods of `AddressSpace` change the tree entry by entry, and their contracts speak of the flat
map only.

**Page allocator.** `PageAllocator.Segments` is the list as a value, and the class keeps it in
nodes with links. There are two ways of keeping it: `Repaired` (a combined entry leaves the
list, and a split corrects the old successor's link back) and `AsWritten` (neither happens, so
that kcalloc may hand out a released entry that is still in the list). A `Listing` is what a walk
along the links meets: segments up to an end, or no end.

## Where the code and its promise part

These are results about the code as it is; the model keeps the code's behaviour.

- `write_fat` says that it writes FSInfo, and calls `disk::read`. Both are modelled, as
  `InfoTransfer.Store` and `InfoTransfer.Load`, and the laws about files hold for both. When the
  free count stays right is said for both by `FatSpec.CountAfterStep`; with `Load` and an FSInfo
  that agrees with the disk, it is so exactly for refused writes and for writes that take as
  many clusters as they had to go along (`FatSpec.LoadKeepsCount`, and `FatSpec.LoadLosesCount`
  for a mounted volume on which it fails).
- Line 92 of `fat_rw.cpp` takes clusters off the free count for overwrites as well
  (`FatSpec.KeepsCount`).
- An empty file has the start cluster 0 (lines 322-327 of `fat_rw.cpp`). Deleting it frees entry 0,
  and whatever that links to; no chains make the table sound after that, and the next new chain
  begins at cluster 0 (`FatEngine.FatPartition.DeleteChain`, `FatTable.FreeingEntryZero`,
  `FatSpec.NextTakesZero`). Writing there means the sectors in front of the data area
  (`FatVolume.Volume.LbaOfClusterZero`), and the second cluster is not linked behind the first
  (`FatTable.WritingFromZero`).
- After its last cluster the writing loop looks for one more free cluster. A write to a new
  chain therefore ends with -2, its chain linked but not flushed, unless one is to spare
  (`FatLaws.FullWrite`). The file is there until the partition is mounted again, and for good when
  a later call flushes (`FatLaws.RemountFindsFiles`).
- `min` at line 402 of `fat_rw.cpp` takes an unknown search start for the greatest number, so a
  deletion then hides the free clusters in front of the deleted head (`FatLaws.DeleteSearch`).
- Mounting counts a cluster for every cluster's worth of sectors of the whole partition, so
  the last ones may lie behind its end (`FatVolume.ClustersInsidePartition` says when).
- `kfree` leaves the trailing BORDER behind a freed allocation when the next cell is in use or
  the allocation ends the heap. Such borders are the only loss (`KernelHeap.RunKeepsLayout`).
- Where a cell that is USED or OTHER has the lowest free one behind it, `kmalloc` gives out a
  pointer that `kfree` refuses (`KernelHeap.UnmarkedNeighbour`).
- `krealloc` does not count the BORDER block of the old allocation. A request that moves loses the
  bytes in its last block, and one of a single block loses all (`KernelHeap.Heap.Krealloc`).
- `kfree` with the address of block 0 looks in front of the cell array, and may free cell 0, after
  which the layout no longer holds (`KernelHeap.Heap.Kfree` says when).
- `map_page` takes its tables from `kmalloc`, whose blocks never begin a page
  (`PageTables.HeapBlocksAreNotTables`). These blocks have higher-half virtual addresses, which
  the entries hold as they are; `getPageEntry` follows them. A page mapped through such tables
  is found by it, or not, through a word that `map_page` has not written
  (`PageTables.MappedThroughHeap`). The class takes its tables from a pool of page-aligned ones
  instead.
- The loops of `map_pages` and `unmap_pages` up to an end address come to an end exactly when
  an address at or behind the end can be reached (`PageTables.LoopEnds`).
- `combine_segments` adds sizes without looking at addresses, and leaves the combined entry in
  the list while it gives it to `kfree`. What comes of that depends on the heap
  (`KernelHeap.OneCellComesBack`). When it keeps the entry's cell as a BORDER, the entry stays
  as it is, and one page may go to two users (`PageAllocator.PageHandedOutTwice`). When it frees
  the cell, a later split may be given the entry again: in front of the entry the links then
  run in a circle, and a walk never ends; behind it, what lies between is cut off
  (`PageAllocator.RelinkedTells`; `PageAllocator.ListWithoutEnd` and
  `PageAllocator.ListWithoutEndAfterNothing` are such runs).
  `PageAllocator.StepKeepsPartition` says which calls keep the list whole, as written and as
  repaired.
- `free_pages` of the first entry reads the entry in front of it, which is NULL.
- `hash_string` is the promised polynomial exactly when the sum never falls below zero, or does
  so a multiple of 10^9+7 times; for 7-bit characters it never does (`Numbers.HashMeaning`).
- The string class copies its characters with `strcpy`, which stops at a NUL. `split` gives the
  pieces of a string exactly when no growth moves a character from behind a NUL
  (`Strings.SplitIsLossless`, and `Strings.CharactersBehindNul` for a string that loses some).
- A base name of more than eight characters runs on into the extension
  (`FatNames.LongBaseCollides`).

## What callers must see to

The preconditions of the model are these demands of the code, which it does not check.

- A write has a positive size (line 133 of `fat_rw.cpp` reads an unset variable otherwise),
  and its buffer holds whole clusters. It starts at a data cluster that is free or on a chain,
  or at -1 for a new chain.
- An overwrite is not longer than the chain is from its start on (an end mark would be taken as
  a cluster number). A new chain has a free cluster at or above the search start, which never
  wraps around.
- A deletion starts at a head, or at cluster 0 when the links from there come to an end.
- The table has no reserved bits in its links: the writing loop follows raw entries.
- The cells of the heap are `Clear` when it is taken over.
- A table in use has no entries above the last level that are nonzero but not present.
- A range of pages up to an end address is one that the loop comes to the end of, and a count of
  pages fits the signed 32-bit loop counter. The assertion of `map_pages` is a precondition, and
  so is that of `free_pages` that the address is page aligned.
- A list or string is not resized to less than it holds: the loop writes behind the new buffer.
- A transfer has 1 to 128 sectors.

## Model

| member | source | states |
|---|---|---|
| FatTable.WalkIsAcyclic | OS/src/drivers/fs/fat/fat_rw.cpp:26-40 | a walk that ends visits no cluster twice |
| FatTable.WalkIsUnique | OS/src/drivers/fs/fat/fat_rw.cpp:213-221 | the start alone decides the walk, so reading, sizing, mounting and deleting agree on one chain length |
| FatTable.HeadsHaveWalks | OS/src/drivers/fs/fat/fat_rw.cpp:26-40 | local well-linkedness of the table is enough for every walk from a head to end, after at most as many clusters as there are |
| FatTable.OnePredecessor | OS/src/drivers/fs/fat/fat_rw.cpp:101-130 | in a sound table no two used clusters have the same successor |
| FatTable.HeadHasNoPredecessor | OS/src/drivers/fs/fat/fat_rw.cpp:101-130 | nothing links to the head of a chain |
| FatTable.SoundIsWellLinked | OS/src/drivers/fs/fat/fat_rw.cpp:101-130 | soundness can be read off the table: a sound table is well linked and its chains start at heads |
| FatTable.ChainsAreUnique | OS/src/drivers/fs/fat/fat_rw.cpp:101-130 | the table alone decides its chains, so the files are a function of table and data sectors |
| FatTable.FreeFromIsComplete | OS/src/drivers/fs/fat/fat_rw.cpp:58-76 | the clusters that repeated searches find are all free ones from the search start on, in ascending order |
| FatTable.RelinkSparesOthers | OS/src/drivers/fs/fat/fat_rw.cpp:101-141 | writing one chain leaves every other chain whole and disjoint from the new one |
| FatTable.RelinkKeepsSound | OS/src/drivers/fs/fat/fat_rw.cpp:101-141 | linking clusters behind those of a chain that are kept, over free ones and its own old ones, keeps the table sound |
| FatTable.RelinkCount | OS/src/drivers/fs/fat/fat_rw.cpp:101-143 | how many zero entries there are afterwards |
| FatTable.FreeingKeepsSound | OS/src/drivers/fs/fat/fat_rw.cpp:384-399 | freeing a whole chain keeps the table sound for the other chains |
| FatTable.FreeingCount | OS/src/drivers/fs/fat/fat_rw.cpp:384-401 | freeing a chain adds its length to the zero entries |
| FatTable.FreeingEntryZero | OS/src/drivers/fs/fat/fat_rw.cpp:384-399 | after entry 0 is freed no chains make the table sound, and the first free cluster is cluster 0 |
| FatTable.WritingFromZero | OS/src/drivers/fs/fat/fat_rw.cpp:103-116 | a write from cluster 0 makes an end mark of entry 0 and does not link the next cluster behind it |
| FatVolume.Volume.LbaComputed | OS/src/drivers/fs/fat/fat_rw.cpp:108 | the computed sector number is the cluster's and does not overflow 32 bits |
| FatVolume.Volume.LbaOfClusterZero | OS/src/drivers/fs/fat/fat_rw.cpp:108 | cluster 0 is taken for sectors in front of the data area |
| FatVolume.Volume.RawDataIsData | OS/src/drivers/fs/fat/fat_rw.cpp:33-37 | what is read for data clusters is their data |
| FatVolume.Volume.PutThenAt | OS/src/drivers/fs/fat/fat_rw.cpp:108-110 | writing one cluster's sectors changes that cluster and no other |
| FatVolume.Volume.FillOneMore | OS/src/drivers/fs/fat/fat_rw.cpp:103-116 | one turn of the writing loop extends the filled part of the chain by one cluster |
| FatVolume.Volume.StoredData | OS/src/drivers/fs/fat/fat_rw.cpp:101-130 | clusters that hold the buffer part by part read as the buffer |
| FatVolume.Volume.FilledSpares | OS/src/drivers/fs/fat/fat_rw.cpp:108-110 | the writing loop changes no sector outside the clusters it fills, and fills them part by part |
| FatVolume.ClustersInsidePartition | OS/src/drivers/fs/fat/fat_init.cpp:80-88 | the clusters of a mounted partition lie inside it if and only if reserved area and tables take no more than two clusters and the rest of the division |
| FatVolume.ClustersOutsidePartition | OS/src/drivers/fs/fat/fat_init.cpp:80-88 | an ordinary volume for which they do not |
| FatVolume.PiecesIsQuotient | OS/src/drivers/fs/fat/fat_rw.cpp:84-85 | the rounded-up quotient is the number of clusters that hold the bytes |
| FatVolume.PiecesHold | OS/src/drivers/fs/fat/fat_rw.cpp:84-85 | that many clusters hold the bytes, and one less does not |
| FatEngine.FatPartition.Mount | OS/src/drivers/fs/fat/fat_init.cpp:64-93 | mounting gives the state with the computed geometry and the table and FSInfo from the disk |
| FatEngine.FatPartition.MountPart | OS/src/drivers/fs/fat/fat_init.cpp:64-126 | no partition exactly when a signature is wrong; otherwise the mounted state, and the root directory's size from its chain |
| FatEngine.FatPartition.ReadFat | OS/src/drivers/fs/fat/fat_init.cpp:31-49 | table and FSInfo in memory become those on the disk |
| FatEngine.FatPartition.WriteFat | OS/src/drivers/fs/fat/fat_init.cpp:51-62 | the flush: the whole table goes to the disk, and FSInfo there is the same as in memory, stored or, as the code has it, loaded |
| FatEngine.FatPartition.CountClusters | OS/src/drivers/fs/fat/fat_rw.cpp:84-85 | the clusters a write of so many bytes takes: they hold the bytes, and one less does not |
| FatEngine.FatPartition.GetNextCluster | OS/src/drivers/fs/fat/fat_rw.cpp:15-18 | the link without its reserved bits |
| FatEngine.FatPartition.ReadClusterChain | OS/src/drivers/fs/fat/fat_rw.cpp:21-43 | reads the sectors computed for exactly the clusters the links lead through, cluster 0 included; -1 if and only if they end at a bad-cluster mark |
| FatEngine.FatPartition.ReadFile | OS/src/drivers/fs/fat/fat_rw.cpp:21-43 | reading at a live head gives the file that the state has there, which is what a call last stored there |
| FatEngine.FatPartition.GetFileSize | OS/src/drivers/fs/fat/fat_rw.cpp:213-221 | the length of the chain, from cluster 0 too, times the cluster size, modulo 2^32 |
| FatEngine.FatPartition.RootDirectorySize | OS/src/drivers/fs/fat/fat_init.cpp:110-116 | the sum at mount is the same product for the root directory's chain |
| FatEngine.FatPartition.FindFreeCluster | OS/src/drivers/fs/fat/fat_rw.cpp:58-76 | the first zero entry at or above the search start, from 2 on when that is not known, or the number of clusters; the search start moves there |
| FatEngine.FatPartition.FillChain | OS/src/drivers/fs/fat/fat_rw.cpp:96-130 | the writing loop fills the plan's clusters in order; it reports a full table exactly when the plan has none to spare |
| FatEngine.FatPartition.FillNext | OS/src/drivers/fs/fat/fat_rw.cpp:101-130 | one turn of the loop: one more cluster is filled, and the next of the plan is chosen |
| FatEngine.FatPartition.Advance | OS/src/drivers/fs/fat/fat_rw.cpp:117-129 | the next cluster of the plan, by search or along the old chain |
| FatEngine.FatPartition.LinkCluster | OS/src/drivers/fs/fat/fat_rw.cpp:103-116 | links, fills and ends the chain at one cluster, and returns its old entry |
| FatEngine.FatPartition.FreeOrphans | OS/src/drivers/fs/fat/fat_rw.cpp:132-141 | zeroes exactly the clusters behind the last one written, and counts them |
| FatEngine.FatPartition.RunPlan | OS/src/drivers/fs/fat/fat_rw.cpp:96-141 | the writing loop and, unless the table was full, the freeing loop behind it: everything the two change |
| FatEngine.FatPartition.PlaceChain | OS/src/drivers/fs/fat/fat_rw.cpp:94-141 | the entries and sectors that a write changes, one by one, and nothing else |
| FatEngine.FatPartition.WriteClusterChain | OS/src/drivers/fs/fat/fat_rw.cpp:82-149 | -1 if and only if FSInfo counts too few free clusters, and then nothing changes; -2 if and only if the write begins a chain and the clusters it could take are no more than it needs; otherwise the first cluster, which for a new chain was in no file and then holds just the buffer, and which on a chain has the buffer from there on; the whole table is stored if and only if the write was finished |
| FatEngine.FatPartition.GiveBack | OS/src/drivers/fs/fat/fat_rw.cpp:143-145 | adds the freed clusters to the count and flushes |
| FatEngine.FatPartition.FreeChain | OS/src/drivers/fs/fat/fat_rw.cpp:385-399 | zeroes exactly the clusters of the walk and counts them; gives up if and only if the walk ends at a bad-cluster mark |
| FatEngine.FatPartition.DeleteChain | OS/src/drivers/fs/fat/fat_rw.cpp:384-403 | a deletion at a head removes its file and no other and stores the whole table, and the record of calls goes on with it; at cluster 0 it frees whatever the links from entry 0 lead through and leaves no valid partition |
| FatEngine.FatPartition.FilesAreReplayed | OS/src/drivers/fs/fat/fat_rw.cpp:82-149 | whatever was called since mounting, the partition's files are those that the calls stored and did not drop |
| FatEngine.FatPartition.LastStoredIsHeld | OS/src/drivers/fs/fat/fat_rw.cpp:21-43 | of the object itself: a head is live exactly when it was stored and not dropped since, and holds what was last stored there |
| FatEngine.FatPartition.RemountGivesFiles | OS/src/drivers/fs/fat/fat_init.cpp:31-62 | mounting the device again gives the object's files after a finished call, and those after the last finished call otherwise; the stored table decides its chains |
| FatSpec.PlanIsGood | OS/src/drivers/fs/fat/fat_rw.cpp:94-130 | the clusters a write goes along are distinct data clusters, free or linked as the loop expects |
| FatSpec.OverwritePlan | OS/src/drivers/fs/fat/fat_rw.cpp:94-130 | a cluster on a chain is used, and a write there goes along the rest of that chain |
| FatSpec.FilledThenFree | OS/src/drivers/fs/fat/fat_rw.cpp:117-125 | a search after some clusters of a new chain finds the next of the plan, wherever it began |
| FatSpec.OrphansWalk | OS/src/drivers/fs/fat/fat_rw.cpp:132-141 | what an overwrite leaves of the old chain is still a walk |
| FatSpec.FilledAndFreed | OS/src/drivers/fs/fat/fat_rw.cpp:96-141 | both loops together leave the plan linked, the rest freed, and every other entry and sector alone |
| FatSpec.PlacedTable | OS/src/drivers/fs/fat/fat_rw.cpp:94-141 | from the entries a write changes: the table stays sound, and the zero entries are those of before and the old chain's, less those written |
| FatSpec.PlacedFiles | OS/src/drivers/fs/fat/fat_rw.cpp:94-141 | from the entries and sectors a write changes: its own file holds what the kept clusters held and then the buffer, and no other file changes |
| FatSpec.WriteEffect | OS/src/drivers/fs/fat/fat_rw.cpp:82-149 | a write that changes just those entries, sectors and counts keeps the partition valid, changes its own file and no other, and moves the free count by its transfer of FSInfo |
| FatSpec.DeleteEffect | OS/src/drivers/fs/fat/fat_rw.cpp:384-403 | a deletion that frees just the chain's entries keeps the partition valid, removes its file only and gives back its clusters |
| FatSpec.NextTakesZero | OS/src/drivers/fs/fat/fat_rw.cpp:401-403 | after a deletion at cluster 0, with FSInfo stored, the next new chain begins at cluster 0 |
| FatSpec.StepIsEvent | OS/src/drivers/fs/fat/fat_rw.cpp:82-149 | every step changes the files by storing or dropping one of them, and no more |
| FatSpec.WrittenAtHead | OS/src/drivers/fs/fat/fat_rw.cpp:82-149 | a write to a head or to a new chain stores the buffer alone |
| FatSpec.RunKeepsValid | OS/src/drivers/fs/fat/fat_rw.cpp:82-149 | every state of a run, after -1 and -2 results too, has acyclic, disjoint chains that account for every used cluster |
| FatSpec.RunIsReplay | OS/src/drivers/fs/fat/fat_rw.cpp:82-149 | at every moment of a run the files are what the run's stores and drops make of the first ones |
| FatSpec.LastWriteWins | OS/src/drivers/fs/fat/fat_rw.cpp:21-43 | a head is live exactly when it was stored and not dropped since, and holds exactly what was last stored |
| FatSpec.CountAfterStep | OS/src/drivers/fs/fat/fat_rw.cpp:84-92 | with FSInfo stored or loaded: the free count stays the number of zero entries if and only if the call is one of those in KeepsCount |
| FatSpec.RunKeepsCount | OS/src/drivers/fs/fat/fat_rw.cpp:143-145 | it is right all through a run if and only if every call of the run is |
| FatSpec.LoadKeepsCount | OS/src/drivers/fs/fat/fat_init.cpp:58-59 | with FSInfo read back and in agreement before: the count stays right if and only if the write is refused or takes as many clusters as it had to go along |
| FatSpec.LoadLosesCount | OS/src/drivers/fs/fat/fat_init.cpp:58-59 | a mounted volume and a write of one cluster after which the count is wrong |
| FatLaws.RefusedWrite | OS/src/drivers/fs/fat/fat_rw.cpp:87-90 | the result is -1 if and only if FSInfo counts fewer clusters than the write takes, and then nothing changes; every other result but -2 is a data cluster |
| FatLaws.FullWrite | OS/src/drivers/fs/fat/fat_rw.cpp:117-125 | the result is -2 if and only if the write begins a chain and the free clusters that the searches come to, with the caller's, are no more than it needs |
| FatLaws.AfterFullWrite | OS/src/drivers/fs/fat/fat_rw.cpp:117-125 | it has then written all of these as one file that did not exist, no search comes to a free cluster any more, and nothing is flushed |
| FatLaws.NewChainWritten | OS/src/drivers/fs/fat/fat_rw.cpp:94-148 | the result is the head of the new file, free and in no file before: the caller's cluster or the lowest one that a search comes to; it holds exactly the buffer, and no other file changes |
| FatLaws.ChainOverwritten | OS/src/drivers/fs/fat/fat_rw.cpp:94-148 | a write that starts at the k-th cluster of a chain leaves the first k clusters of the file, puts the buffer behind them and changes no other file |
| FatLaws.OverwriteCounts | OS/src/drivers/fs/fat/fat_rw.cpp:84-143 | such a write frees the clusters behind those it fills, and takes those it fills off FSInfo's count though they were not free |
| FatLaws.WriteSearch | OS/src/drivers/fs/fat/fat_rw.cpp:58-76 | the searches after a write come to exactly the clusters that are then free from the old search start on, so a write loses none of them |
| FatLaws.DeleteSearch | OS/src/drivers/fs/fat/fat_rw.cpp:402 | the search start is the lower one of what it was and the deleted head, and free clusters are lost to the searches if and only if it was not known and one is free in front of the head |
| FatLaws.FinishedIsStored | OS/src/drivers/fs/fat/fat_init.cpp:51-62 | a deletion or a finished write leaves the whole table on the disk, and FSInfo there as in memory; any other call leaves there what it found |
| FatLaws.UnfinishedSparesChain | OS/src/drivers/fs/fat/fat_rw.cpp:101-125 | a write that is not finished writes no sector of any chain |
| FatLaws.RemountFindsFiles | OS/src/drivers/fs/fat/fat_init.cpp:31-62 | at every moment of a run, mounting from the disk gives exactly the files that there were after the last finished call, and the stored table allows no other chains |
| FatNames.FilenameToFat | OS/src/drivers/fs/fat/misc.cpp:17-40 | terminates although a dot resets the index, writes inside the eleven bytes, and gives the name's columns |
| FatNames.ConvertPlain | OS/src/drivers/fs/fat/misc.cpp:23-37 | reading characters other than the dot fills the columns from the current one on, in upper case |
| FatNames.ValidName | OS/src/drivers/fs/fat/misc.cpp:17-40 | an 8.3 name becomes its base and extension in upper case, each filled up with spaces |
| FatNames.ValidNamesAreDistinct | OS/src/drivers/fs/fat/misc.cpp:17-40 | two 8.3 names become the same directory name if and only if they are equal up to letter case |
| FatNames.LongBaseCollides | OS/src/drivers/fs/fat/misc.cpp:23-37 | a base of nine characters meets an 8.3 name with its last character as extension |
| FatNames.AnyNameIsProper | OS/src/drivers/fs/fat/misc.cpp:17-40 | whatever the name is, eleven columns without a NUL, a dot or a small letter |
| FatNames.StrcmpN | OS/src/stdlib/structures/string.cpp:250-259 | true if and only if the first count characters agree |
| FatNames.SearchDirectory | OS/src/drivers/fs/fat/fat_rw.cpp:160-181 | the first live entry with the name that is no long-name part and comes before the end mark; none if there is none |
| KernelHeap.Heap.constructor | OS/src/kernel/mem/heap/kernel_heap.cpp:32-44 | cell 0 becomes a border and nothing else changes; the layout holds if and only if the other cells are Clear |
| KernelHeap.EmptyIsValid | OS/src/kernel/mem/heap/kernel_heap.cpp:32-44 | an array of any bytes has the layout without an allocation if and only if no cell but the first is USED, and no byte 3 to 255 but the first has a FREE cell behind it |
| KernelHeap.UnmarkedNeighbour | OS/src/kernel/mem/heap/kernel_heap.cpp:89-124 | behind a USED cell or a byte 3 to 255 the lowest free cell is given out, and the test in kfree will refuse it |
| KernelHeap.FreshHeap | OS/src/kernel/mem/heap/kernel_heap.cpp:32-44 | an array of free cells has the layout, and cell 0 as its one orphan border |
| KernelHeap.Heap.Kmalloc | OS/src/kernel/mem/heap/kernel_heap.cpp:46-128 | gives the lowest bytes that are free from the start of a block on, and NULL only when there are none or the size is 0; they lie in the heap, no other request has one of them, and just their blocks are marked; the record of calls goes on with it |
| KernelHeap.Heap.CountBlocks | OS/src/kernel/mem/heap/kernel_heap.cpp:56-62 | the size in blocks, rounded up; a size that wraps in 64 bits gives none |
| KernelHeap.BlocksHold | OS/src/kernel/mem/heap/kernel_heap.cpp:56-62 | so many blocks of 256 bytes hold the size, and one less does not |
| KernelHeap.Heap.FindRun | OS/src/kernel/mem/heap/kernel_heap.cpp:67-95 | the scan finds the lowest run of free cells and misses none, whatever bytes the others are |
| KernelHeap.Heap.MarkBlock | OS/src/kernel/mem/heap/kernel_heap.cpp:104-127 | the run becomes USED cells and one BORDER, nothing else changes, and its address is returned |
| KernelHeap.Heap.BlockIndex | OS/src/kernel/mem/heap/kernel_heap.cpp:163-171 | the 64-bit arithmetic accepts exactly the addresses at which blocks begin, or the last one ends, and gives their numbers |
| KernelHeap.Heap.Kfree | OS/src/kernel/mem/heap/kernel_heap.cpp:152-208 | the pointer of a request frees just that request's blocks, the last one only when a free one is behind it; any other changes nothing but at most one orphan border; the layout is lost if and only if it is block 0's, a border seems to be in front and cell 1 is free |
| KernelHeap.Heap.ClearFrom | OS/src/kernel/mem/heap/kernel_heap.cpp:179-199 | the loop clears the USED cells and the BORDER behind them when a free cell follows |
| KernelHeap.Heap.FreeBehind | OS/src/kernel/mem/heap/kernel_heap.cpp:179-199 | behind a BORDER that frees exactly the allocation's own cells, its BORDER only when a free cell follows |
| KernelHeap.RunFollowsBorder | OS/src/kernel/mem/heap/kernel_heap.cpp:67-124 | in a valid layout the lowest free run always starts right behind a BORDER |
| KernelHeap.AllocatedIsValid | OS/src/kernel/mem/heap/kernel_heap.cpp:104-127 | an allocation keeps the layout: live blocks disjoint, bordered, and owning every USED cell |
| KernelHeap.FreedIsValid | OS/src/kernel/mem/heap/kernel_heap.cpp:179-199 | a free keeps the layout |
| KernelHeap.BehindBorder | OS/src/kernel/mem/heap/kernel_heap.cpp:171-177 | the test in kfree lets through live pointers, free cells, orphan borders and bytes 3 to 255 only |
| KernelHeap.ClearedIsFreed | OS/src/kernel/mem/heap/kernel_heap.cpp:179-199 | clearing from a cell behind a BORDER frees the allocation there, or at most an orphan border |
| KernelHeap.MallocThenFree | OS/src/kernel/mem/heap/kernel_heap.cpp:191-199 | freeing undoes an allocation if and only if a free cell follows it |
| KernelHeap.RequestsAreApart | OS/src/kernel/mem/heap/kernel_heap.cpp:45-128 | the bytes of two requests never overlap, and all lie in the heap behind its first block |
| KernelHeap.BytesAreBlocks | OS/src/kernel/mem/heap/kernel_heap.cpp:64-95 | size bytes from a block on are free if and only if their blocks are a free run |
| KernelHeap.AllocatedTells | OS/src/kernel/mem/heap/kernel_heap.cpp:64-128 | an allocation takes the lowest bytes that are free and marks their blocks only, the last one as a BORDER |
| KernelHeap.FreedTells | OS/src/kernel/mem/heap/kernel_heap.cpp:179-199 | a free clears the blocks of the bytes that were asked for, the last one only when a free one is behind it |
| KernelHeap.Heap.Krealloc | OS/src/kernel/mem/heap/kernel_heap.cpp:210-255 | room for more bytes: the same pointer if and only if the blocks in front of the BORDER are enough; else the request moves, or stays when there are no bytes for it; one that moves loses the bytes in its last block, some of which were asked for |
| KernelHeap.OneCellComesBack | OS/src/kernel/mem/heap/kernel_heap.cpp:191-199 | a freed allocation of one cell is what the next such allocation gets if and only if a free cell followed it and no lower one is free |
| KernelHeap.FreedOrphans | OS/src/kernel/mem/heap/kernel_heap.cpp:191-199 | a free leaves its BORDER as an orphan exactly when no free cell follows |
| KernelHeap.StepKeepsValid | OS/src/kernel/mem/heap/kernel_heap.cpp:46-208 | every call keeps the layout, and adds an orphan border only if it is a free |
| KernelHeap.RunKeepsLayout | OS/src/kernel/mem/heap/kernel_heap.cpp:46-208 | over any run the layout holds, the orphan borders grow by no more than the frees, and the bytes 3 to 255 stay |
| KernelHeap.Heap.OrphansAreFew | OS/src/kernel/mem/heap/kernel_heap.cpp:46-208 | the same of the heap and all its calls so far |
| KernelHeap.CellsAddUp | OS/src/kernel/mem/heap/kernel_heap.cpp:163-199 | free cells, live cells, orphan borders and bytes 3 to 255 add up to all cells |
| PageTables.IndicesArePath | OS/src/kernel/mem/paging/page.cpp:101-104 | the four shifted and masked indices are those of the page number in bits 12 to 47 |
| PageTables.IndicesAreBits | OS/src/kernel/mem/paging/page.cpp:101-104 | the four indices are bits 39 to 47, 30 to 38, 21 to 29 and 12 to 20 of the address |
| PageTables.PathIsInjective | OS/src/kernel/mem/paging/page.cpp:101-104 | the four indices tell page numbers apart |
| PageTables.WithTableIsWellFormed | OS/src/kernel/mem/paging/page.cpp:106-135 | a new table keeps the tree a tree |
| PageTables.WithTableKeepsFlat | OS/src/kernel/mem/paging/page.cpp:106-135 | a new table changes no translation |
| PageTables.WithLeafUpdatesFlat | OS/src/kernel/mem/paging/page.cpp:137 | a last-level entry changes the translation of its own page and of no other |
| PageTables.HeapBlocksAreNotTables | OS/src/kernel/mem/paging/page.cpp:109-114 | no heap block begins a page, so the masked entry leads elsewhere |
| PageTables.MappedThroughHeap | OS/src/kernel/mem/paging/page.cpp:106-137 | a page mapped through one to three tables on the heap is found only through a word that map_page did not write, nor kmalloc unless the first table is in block 0 or 1 |
| PageTables.MapThenTranslate | OS/src/kernel/mem/paging/page.cpp:71-138 | after mapping, every address of the page translates to the frame plus its offset, every other as before |
| PageTables.UnmapThenTranslate | OS/src/kernel/mem/paging/page.cpp:140-150 | after unmapping, every address with the same four indices gives NULL, every other as before |
| PageTables.MapRangeAt | OS/src/kernel/mem/paging/page.cpp:177-185 | page k of a mapped range has frame k, every page outside is as before |
| PageTables.UnmapRangeAt | OS/src/kernel/mem/paging/page.cpp:166-175 | exactly the pages of the range are unmapped |
| PageTables.UnmapAfterMap | OS/src/kernel/mem/paging/page.cpp:152-185 | unmapping a range that was mapped restores the map if and only if none of its pages was mapped before |
| PageTables.AddressSpace.constructor | OS/src/kernel/mem/paging/page.cpp:33-38 | the tables that CR3 leads to, with whatever they map |
| PageTables.AddressSpace.NextTable | OS/src/kernel/mem/paging/page.cpp:106-135 | the table one level down, made if it is missing, with no translation changed |
| PageTables.AddressSpace.MapPage | OS/src/kernel/mem/paging/page.cpp:91-138 | the flat map is updated at the address's page and nowhere else, and all pages can still be written if they could before |
| PageTables.AddressSpace.GetPageEntry | OS/src/kernel/mem/paging/page.cpp:40-69 | finds the last-level table; a missing table means that the page is not mapped |
| PageTables.AddressSpace.GetPhysicalAddress | OS/src/kernel/mem/paging/page.cpp:71-89 | NULL if the flat map has no frame for the page, and the frame plus the page offset if it has one |
| PageTables.AddressSpace.UnmapPage | OS/src/kernel/mem/paging/page.cpp:140-150 | the page is removed from the flat map, and no other |
| PageTables.AddressSpace.MapPages | OS/src/kernel/mem/paging/page.cpp:177-185 | the loop maps the range of the flat map, through address wrap-around |
| PageTables.AddressSpace.MapPagesUpTo | OS/src/kernel/mem/paging/page.cpp:152-164 | the same for a range given by its end, whenever the loop ends |
| PageTables.AddressSpace.UnmapPages | OS/src/kernel/mem/paging/page.cpp:166-175 | the loop unmaps the range of the flat map, whenever it ends |
| PageTables.LoopEnds | OS/src/kernel/mem/paging/page.cpp:158-163 | the loop reaches its end if and only if the last page with the start's offset begins at or behind the end |
| PageTables.PagesCover | OS/src/kernel/mem/paging/page.cpp:158-163 | the pages that such a loop goes through hold the addresses up to the end, and one less does not |
| PageAllocator.Allocator.constructor | OS/src/kernel/mem/paging/page_allocator.cpp:21-39 | one entry for each region of the memory map and an empty one behind; an address is in a segment of a kind if and only if it is in the whole pages of a region of that kind |
| PageAllocator.Allocator.AllocatePages | OS/src/kernel/mem/paging/page_allocator.cpp:41-78 | takes the pages from the end of the first free segment that has them, NULL when none has; after any safe calls, only pages of regions that the memory map calls free (or in use, which was then released), none of them in use; when the split gets an entry of the list again, that is what a walk meets; the record of calls goes on with it |
| PageAllocator.Allocator.FindFit | OS/src/kernel/mem/paging/page_allocator.cpp:44-54 | the walk finds the first fit |
| PageAllocator.Allocator.SplitEntry | OS/src/kernel/mem/paging/page_allocator.cpp:54-72 | the segment's place in the list is taken by its two parts, or the links are those of Relisted |
| PageAllocator.Allocator.LinkBehind | OS/src/kernel/mem/paging/page_allocator.cpp:56-60 | the links after the four statements, whatever address kcalloc gave |
| PageAllocator.Allocator.FillEntries | OS/src/kernel/mem/paging/page_allocator.cpp:64-68 | sizes, start and type after the four statements, whatever entries they are about |
| PageAllocator.SplitIsListed | OS/src/kernel/mem/paging/page_allocator.cpp:54-72 | given a new entry, these leave a list with the segment split |
| PageAllocator.RelinkedTells | OS/src/kernel/mem/paging/page_allocator.cpp:54-72 | given an entry of the list again: from a segment at it or in front of it the links never come to an end, from one behind it what lies between is cut off |
| PageAllocator.RelistingLosesMemory | OS/src/kernel/mem/paging/page_allocator.cpp:54-72 | in the second case too memory is lost |
| PageAllocator.Allocator.FreePages | OS/src/kernel/mem/paging/page_allocator.cpp:99-131 | the first segment at the address is released, and combined with the one in front if and only if that is free and the link back leads to it; then the entry may be handed out again; the first entry's release reads through NULL; the other outcomes change nothing |
| PageAllocator.Allocator.FirstLinksToNull | OS/src/kernel/mem/paging/page_allocator.cpp:126 | only the first entry has no entry in front, in both ways of keeping the list |
| PageAllocator.Allocator.FindAt | OS/src/kernel/mem/paging/page_allocator.cpp:107-120 | the walk finds the first segment at the address |
| PageAllocator.Allocator.CombineSegments | OS/src/kernel/mem/paging/page_allocator.cpp:80-97 | combines if and only if the two entries lead to each other |
| PageAllocator.Allocator.Absorb | OS/src/kernel/mem/paging/page_allocator.cpp:85-96 | the sizes are added and kcalloc may hand out the combined entry again, which leaves the list or, as written, stays |
| PageAllocator.Allocator.CallsKeepPartition | OS/src/kernel/mem/paging/page_allocator.cpp:41-131 | whatever was called: the list ended and partitioned memory at every moment if and only if every call was safe |
| PageAllocator.AllocateKeepsPartition | OS/src/kernel/mem/paging/page_allocator.cpp:41-78 | allocating keeps the partition and the page total; exactly the returned range comes into use, and none of it was in use |
| PageAllocator.ReleaseKeepsPartition | OS/src/kernel/mem/paging/page_allocator.cpp:124 | releasing keeps the partition; exactly the segment goes out of use |
| PageAllocator.CombineKeepsPartition | OS/src/kernel/mem/paging/page_allocator.cpp:80-97 | combining keeps the partition if and only if the segment is empty, or leaves the list and starts where the one in front ends |
| PageAllocator.FreeKeepsPartition | OS/src/kernel/mem/paging/page_allocator.cpp:99-131 | a whole release keeps the partition if and only if it does not combine, or combines an empty segment, or one that leaves the list and starts where the one in front ends |
| PageAllocator.StepKeepsPartition | OS/src/kernel/mem/paging/page_allocator.cpp:41-131 | every call, for the list as written and as repaired, leaves a list that ends and keeps the partition if and only if it is safe, which a split with an entry of the list is not |
| PageAllocator.RunKeepsPartition | OS/src/kernel/mem/paging/page_allocator.cpp:41-131 | all through a run the list ends and partitions the memory it started from if and only if every call is safe, for both ways of keeping it |
| PageAllocator.RunKeepsPages | OS/src/kernel/mem/paging/page_allocator.cpp:41-131 | a run of safe calls on a repaired list gains and loses no page |
| PageAllocator.StartsAsMapped | OS/src/kernel/mem/paging/page_allocator.cpp:26-36 | the list starts with what the memory map says, kind by kind and address by address |
| PageAllocator.AllocationHolds | OS/src/kernel/mem/paging/page_allocator.cpp:41-78 | the pages taken were free and not in use; exactly they come into use and stop being free |
| PageAllocator.OnlyFreeMemory | OS/src/kernel/mem/paging/page_allocator.cpp:21-131 | after any run of safe calls on regions that are apart, an allocation hands out only pages of regions that were free or in use in the memory map, none of them in use |
| PageAllocator.PageHandedOutTwice | OS/src/kernel/mem/paging/page_allocator.cpp:80-97 | from a fresh allocator of two pages, five calls of the code as written that give one page to two users, when the heap keeps the released entry's cell |
| PageAllocator.ListWithoutEnd | OS/src/kernel/mem/paging/page_allocator.cpp:56-60 | when the heap frees that cell, the third of these calls leaves links without end |
| PageAllocator.ListWithoutEndAfterNothing | OS/src/kernel/mem/paging/page_allocator.cpp:54-60 | so it goes after calls that took and gave back no pages and kept the partition |
| PageAllocator.ListInsert | OS/src/kernel/mem/paging/page_allocator.cpp:56-60 | the links after an insertion are a list of the old nodes with the new one in place |
| PageAllocator.ListRemove | OS/src/kernel/mem/paging/page_allocator.cpp:85-96 | the links after the repaired release are a list of the other nodes |
| GrowableList.List.constructor | OS/include/stdlib/structures/list.h:16-21 | an empty list |
| GrowableList.List.Resize | OS/include/stdlib/structures/list.h:125-138 | a new buffer with the same elements |
| GrowableList.List.PushBack | OS/include/stdlib/structures/list.h:170-178 | one more element, through any growth |
| GrowableList.List.Set | OS/include/stdlib/structures/list.h:164-168 | one element is replaced |
| GrowableList.List.At | OS/include/stdlib/structures/list.h:140-144 | the element at an index |
| GrowableList.List.Append | OS/include/stdlib/structures/list.h:186-199 | the other list's elements behind its own, also when both are the same list |
| GrowableList.List.CopyBehind | OS/include/stdlib/structures/list.h:193-196 | the copying loop, also when both are the same list |
| GrowableList.List.Erase | OS/include/stdlib/structures/list.h:201-211 | the elements without one, in order |
| HashMap.HashMap.constructor | OS/src/stdlib/structures/hashmap.cpp:33-37 | every queue is empty, and the buckets are fresh |
| HashMap.HashMap.Put | OS/src/stdlib/structures/hashmap.cpp:39-44 | appends to the key's queue, whatever the hash function, and disturbs no other; the buckets keep their buffers or have fresh ones |
| HashMap.HashMap.Get | OS/src/stdlib/structures/hashmap.cpp:66-83 | the oldest value of the key's queue |
| HashMap.HashMap.Contains | OS/src/stdlib/structures/hashmap.cpp:85-98 | the key's queue is not empty |
| HashMap.HashMap.Remove | OS/src/stdlib/structures/hashmap.cpp:46-64 | takes the oldest value off the key's queue and disturbs no other |
| HashMap.FirstValue | OS/src/stdlib/structures/hashmap.cpp:51-59 | erasing the first pair of a key takes the key's oldest value, and leaves other keys of the bucket alone |
| HashMap.ValuesConcat | OS/src/stdlib/structures/hashmap.cpp:39-44 | the queue of a bucket in two parts |
| Strings.String.constructor | OS/include/stdlib/structures/string.h:106-111 | an empty string |
| Strings.String.Copy | OS/include/stdlib/structures/string.h:55-62 | a string of the same size and room with the characters up to the first NUL |
| Strings.Strcpy | OS/src/stdlib/structures/string.cpp:300-310 | copies the characters in front of the first NUL, and leaves the rest of the buffer |
| Strings.String.Resize | OS/include/stdlib/structures/string.h:142-152 | a new buffer with the characters up to the first NUL |
| Strings.String.PushBack | OS/include/stdlib/structures/string.h:184-193 | one more character, through any growth, to twice the room and one more, which takes the others as far as strcpy does |
| Strings.StringList.Resize | OS/include/stdlib/structures/list.h:125-138 | every string is copied to the array, which has room for them |
| Strings.StringList.PushBack | OS/include/stdlib/structures/list.h:170-178 | a copy of the string stands behind the others, through any growth |
| Strings.StringList.GrowLast | OS/include/stdlib/structures/string.h:224 | the last string grows in place, and no other changes |
| Strings.SplitAt | OS/include/stdlib/structures/string.h:212-228 | the loop over strings that grow and move gives what SplitRun says, for every string |
| Strings.SplitIsLossless | OS/include/stdlib/structures/string.h:212-228 | that is the pieces of the string if and only if no growth moves a character from behind a NUL |
| Strings.NulFreeIsLossless | OS/include/stdlib/structures/string.h:212-228 | which holds for every string without a NUL |
| Strings.CharactersBehindNul | OS/include/stdlib/structures/string.h:142-152 | a string with a NUL that loses characters |
| Strings.PiecesAreFree | OS/include/stdlib/structures/string.h:212-228 | no piece holds the separator |
| Strings.JoinOfSplit | OS/include/stdlib/structures/string.h:212-228 | joining the pieces gives the string back |
| Strings.SplitOfJoin | OS/include/stdlib/structures/string.h:212-228 | splitting a join of pieces without the separator gives the pieces back, so there is no other way to cut the string |
| Strings.PiecesCount | OS/include/stdlib/structures/string.h:212-228 | there is one piece more than separators |
| Numbers.Utoa | OS/src/stdlib/structures/string.cpp:84-109 | writes the digits, most significant first, and zeros behind them; there are at most 64 |
| Numbers.ReversedDigits | OS/src/stdlib/structures/string.cpp:94-101 | the dividing loop writes the digits from the last to the first |
| Numbers.ValueOfDigits | OS/src/stdlib/structures/string.cpp:94-101 | the digits stand for the number |
| Numbers.DigitsAreCanonical | OS/src/stdlib/structures/string.cpp:94-101 | there is no leading zero |
| Numbers.DigitsAreUnique | OS/src/stdlib/structures/string.cpp:94-101 | no other row of digits without leading zeros stands for the number |
| Numbers.DigitsAreFew | OS/src/stdlib/structures/string.cpp:84-101 | a number below 2^n has at most n digits in every radix |
| Numbers.HexCharacters | OS/src/stdlib/structures/string.cpp:82-101 | the characters are 0 to 9 and A to F |
| Numbers.TextTellsApart | OS/src/stdlib/structures/string.cpp:82-109 | in every radix up to 16 different numbers have different texts |
| Numbers.Atou | OS/src/stdlib/structures/string.cpp:112-122 | the value of the characters modulo 2^64 |
| Numbers.AtouOfUtoa | OS/src/stdlib/structures/string.cpp:84-122 | parsing what printing leaves in the output gives the number |
| Numbers.NoWrapOnTheWay | OS/src/stdlib/structures/string.cpp:116-119 | no value on the way exceeds the number |
| Numbers.HashString | OS/src/stdlib/structures/hashmap.cpp:17-30 | the loop in 64-bit arithmetic, for signed characters |
| Numbers.StepFits | OS/src/stdlib/structures/hashmap.cpp:21-27 | no product or sum leaves 64 bits upwards; with 7-bit characters none falls below zero |
| Numbers.HashMeaning | OS/src/stdlib/structures/hashmap.cpp:17-30 | for every string: the hash is the sum of s[i] * 67^i modulo 10^9+7 if and only if the sum wrapped around never, or a multiple of 10^9+7 times |
| Numbers.HashIsPoly | OS/src/stdlib/structures/hashmap.cpp:21-27 | the loop adds that sum, and a word for each time it wrapped around, but for a multiple of 10^9+7 |
| Numbers.HashOfSevenBit | OS/src/stdlib/structures/hashmap.cpp:17-30 | for 7-bit characters the hash is the sum |
| Numbers.HashOfConcat | OS/src/stdlib/structures/hashmap.cpp:17-30 | for all strings: the hash of a concatenation is that formula of the two hashes and the first length if and only if the wraps of the three sums agree with it modulo 10^9+7 |
| Numbers.HashOfSevenBitConcat | OS/src/stdlib/structures/hashmap.cpp:17-30 | for 7-bit characters it always is |
| Numbers.HashOfNegative | OS/src/stdlib/structures/hashmap.cpp:23 | a character below zero for which the hash is not the sum, and a string with one for which it is |
| Prdt.Build | OS/src/drivers/disk/ahci/ahci_driver.cpp:130-149 | fills the table with the transfer's regions and leaves the rest empty |
| Prdt.TilesAreContiguous | OS/src/drivers/disk/ahci/ahci_driver.cpp:136-149 | the regions lie one behind the other, each of 1 to 16 sectors, and each asks for an interrupt on completion |
| Prdt.TilesAddUp | OS/src/drivers/disk/ahci/ahci_driver.cpp:130-149 | they add up to 512 bytes for each sector, in as many entries as the header says |
| Prdt.TilesCover | OS/src/drivers/disk/ahci/ahci_driver.cpp:192-211 | a region holds a byte if and only if the byte belongs to the transfer and to that 8 KiB of it |
| Prdt.TilesReach | OS/src/drivers/disk/ahci/ahci_driver.cpp:192-211 | every byte of the transfer has its region in the table |

## Left out

- PageAllocator.Allocator.FreePages: list entries are records in a map from address to entry; a released entry that some other user of the heap is given, and writes to, is not modelled; nor is what the code does after it has read through NULL.
- PageAllocator.Allocator.AllocatePages: calls on a list after an entry of it was used again, which may go round for ever.
- PageTables.AddressSpace.MapPage: fresh tables come zeroed, page aligned and unaliased from a pool, because `kmalloc` promises none of that; HeapBlocksAreNotTables and MappedThroughHeap say what comes of the code's own tables.
- PageTables.AddressSpace.NextTable: takes its tables from the same pool.
- PageTables.AddressSpace.MapPages: takes its tables from the same pool.
- PageTables.AddressSpace.MapPagesUpTo: takes its tables from the same pool.
- HashMap.HashMap.Get: `.length()` on lists is read as `size()`, and a failed assertion as no value.
- HashMap.HashMap.Remove: a failed assertion is no value, as for Get.
- FatEngine.FatPartition.Mount: the chains of the table are given; ChainsAreUnique says that there is no choice in them.
- FatEngine.FatPartition.WriteClusterChain: a start at cluster 0, an overwrite longer than the chain, and a new chain without a free cluster from the search start on read and write outside the table; WritingFromZero says how the first begins.
- FatEngine.FatPartition.MountPart: the sectors of the parameter block, FSInfo and the partition table are not decoded, their fields are given; error messages and the root directory's entry are not modelled.
- FatNames.SearchDirectory: the directory is whole entries, with the name and attribute bytes only.
- KernelHeap.Heap.Kfree: what the byte in front of the cell array reads as is a parameter.
- Numbers.Utoa: the output array is passed in, where the code has one shared static array.
- Strings.String.Resize: new memory is zeroed, as `operator new[]` does it by way of `kcalloc`; the kernel's own `kcalloc` is not modelled.
- Path-level FAT operations (`create_file`, `update_file_entry`, extending directories): unfinished in the repository, and dependent on directory sizes that are not stored.
- The byte layout of the table, FSInfo and the other FAT copies on the disk: the stored values are separate fields of the model.
- Device errors: every sector read or written succeeds.
- KernelHeap.Heap.Krealloc: the bytes themselves are not part of the model, only how many are copied; a pointer that no request has is not passed.
- `kcalloc`: a multiplication check and a call of `kmalloc`, followed by clearing memory that is not part of this model.
- Spinlocks: each locked body is one atomic step; the lock itself tests and sets in two steps.
- `bitmap`: it clears whole words and does not implement a set of bits.
- AHCI command frames and polling: register accesses without algorithmic state.
- `string::append`, `substr`, `find` and the unbounded comparison functions: loops over one string that only the path-level operations and the shell use.
- Floating point, `itoa`, `sprintf`: numerical code and a function that its own comment says does not work.
- Shell, terminal, framebuffer, keyboard, serial port, logging, ACPI, PCI, interrupt and start-up code: device access.
- VFS, volume table, timers, streams, task list: single assignments and calls through to the parts modelled here.
