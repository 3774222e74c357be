# FatFs and the kernel of the Rust port, modelled in Dafny

The project models two parts of the repository and proves what they are for.

The FatFs file system (`src/FatFS/ff.c`) is modelled layer by layer, each layer against the abstraction that the next one uses:

* `Drive`, `Geometry`, `Window`: a disk of sectors, where a volume has its areas, and the one-sector write-back window with the
  mirrored second FAT. The abstraction is a map of logical sectors.
* `FatTable`: the packed FAT12/16/32 entries behind the window. The abstraction is an array of numbers.
* `Chains`, `Alloc`, `HeapRuns`, `FreeScan`: cluster chains, the allocator and the free count. The abstraction is a set of disjoint lists.
* `FileModel`, `FileIO`, `FileSeek`, `FileTruncate`, `FileRuns`, `ManyFiles`: reading, writing, seeking and truncating an open file through its
  own dirty sector buffer and by direct transfers. The abstraction is a byte sequence with a cursor and the room
  that it has; every run refines it, on one open file and on several in turns.
* `FsInfo`, `FileSync`: the FSInfo sector, what f_sync leaves on the disk, and opening the file again.
* `LinkMap`, `FastSeek`, `Directory`, `LongName`, `Glob`: fast seek, directory tables, long file names, and the wildcard matcher.
* `ExFat`, `ExBitmap`: allocation with the bitmap and lazily written chains, and the bitmap as bits of bytes behind the window. The
  abstraction is a plain list of clusters.
* `Format`, `BootSector`, `NewVolume`: the layout search of formatting, the reserved area, the new FATs, and mounting, which agree.

The kernel (`src/c-to-rust src`):

* `KernelList`: the intrusive circular list with a moving index. The abstractions are the sequence of its items and the order in
  which they will be served.
* `ListTable`: tables of such lists, and what moving one item does to all of them. The abstraction is a sequence of sequences.
* `Scheduler`: tasks in two tables of lists; delaying, ticking, suspending, resuming, creating, deleting and waiting for events.
* `KernelRuns`: all acts in any order. The abstraction is a trace of snapshots, with the order in which ready tasks are served.
* `Queue`: the message queue as a ring of slots found by addresses. The abstraction is a bounded deque.

`Arith` and `Bytes` hold arithmetic and little-endian loads and stores. Objects that the source updates in place are classes here
(window, file, directory index, exFAT object, list, kernel, queue), and loops are loops. The width of numbers is modelled where it
matters: 32-bit sums and differences of clusters, sectors and file sizes wrap as in C, unless they are proved not to.

Settings are the shipped ones of `src/FatFS/ffconf.h` (512-byte sectors, 32-bit LBA, private sector buffers), with the code of
long names, finding, fast seek and exFAT modelled as if switched on. Comments in the Dafny files name the functions of the source.

Where code and promise differ, the model follows the code, and a lemma says exactly when the promise is kept:

* `FreeScan.ScanIsExact`, and `ScanFooled` for an input: a zero in a reserved FAT entry is counted as a free cluster by the raw scan.
* `Glob.RightIffShort`: a term of more than 255 question marks overflows into the flags of the matcher.
* `Format.SearchResult` and `Format.NoClusterLeft`: with a large alignment formatting can succeed with no cluster, and then mounting fails.
* `FsInfo.FillNewInfo` and `NewVolume.MountNew`: `f_mkfs` ends the FSInfo sector with the signature at offset 510, and mounting looks for it
  at offset 498, so that the free count written by formatting is never used. (The FAT32 specification of Microsoft has it at offset 508.)
* `KernelList.InsertKeepsSorted`, and `GreatestInFront`: an item of the greatest value is put in front of the last item.
* `Scheduler.PlaceOnEventList`, and `KernelRuns.TimedOutWaiter`: a task whose wait has timed out is still in the event list, for the tick does
  not take it out; when it waits again, its linked item is linked once more and the event lists are spoiled. They stay in order exactly when
  its event item is in no list.
* `Scheduler.TaskDelete`, and `KernelRuns.DeletedWaiter`: deleting leaves the event item where it is; nothing of the task stays behind
  exactly when that is in no list.
* `Scheduler.TaskPrioritySet`: the event item changes its value where it is; the waiters stay in order exactly when it fits there.
* `Queue.Ring.CopyDataToQueue`, and `Queue.OverwrittenPair`: overwriting is right only for a queue of one item, or an empty one.
* `LinkMap.CreateLinkmap`, and `MarkLooksConsecutive`: an end mark one past the last cluster is taken for one more consecutive cluster.
* `ExFat.AnswerExact`, and `PendingHidesLink`: while links are pending, `get_fat` answers for the tail from any cluster behind the first part.
* `ManyFiles.StepTogether`: truncating a file may leave its clean buffer over a cluster that it gave away; when another file takes that
  cluster the buffer no longer shows the disk. Open files stay in order together exactly when no operation takes a cluster under another
  file's buffer, and `HomeIsSafe` tells beforehand whom it cannot happen to.
* `ExBitmap.BlockIffNoWrap`, and `WrappedRun`: the search for several clusters counts on across the end of the bitmap, and then what it finds
  is no block.

## Model
| member | source | states |
|---|---|---|
| DriveModel.Drive.Read | src/FatFS/diskio.c:65-78 | A read in range copies exactly the asked sectors, byte by byte, to the given place of the buffer; any other read fails and changes nothing. |
| DriveModel.Drive.Write | src/FatFS/diskio.c:81-97 | A write in range replaces exactly the named sectors; every other sector, and every sector after a refused write, keeps its bytes. |
| Bytes.StoreLoadDWord | src/FatFS/ff.c:620-670 | A DWORD stored little-endian byte by byte is loaded again as the same DWORD. |
| VolumeGeometry.ClustersTileDataArea | src/FatFS/ff.c:1160-1169 | clst2sect is nonzero exactly for cluster numbers, lands in the data area, and different clusters (or offsets) never share a sector. |
| VolumeGeometry.ClusterOfSector | src/FatFS/ff.c:1160-1169 | The number of a cluster can be computed back from any of its sectors. |
| Window.SyncWindow | src/FatFS/ff.c:1058-1076 | Flushing changes no sector of the logical map, leaves a clean window and the disk equal to the map, and keeps the two FAT copies equal. |
| Window.MoveWindow | src/FatFS/ff.c:1080-1101 | Moving the window changes no logical sector; it shows the wanted sector exactly when that is on the disk (or already shown), else no sector is valid in the window; FAT copies stay equal. |
| FatTable.GetFat | src/FatFS/ff.c:1177-1245 | The entry as the format defines it from its bytes (FAT12 across byte and sector boundaries too), and 1 for a number that is no cluster; nothing logical changes. |
| FatTable.PutFat | src/FatFS/ff.c:1255-1304 | As an integer array the FAT changes in the one entry, to the value cut to 12, 16 or 28 bits; a number that is no cluster is refused and nothing changes; nothing outside the FATs changes and the copies stay equal. |
| FatTable.GetFat12 | src/FatFS/ff.c:1194-1201 | Both bytes of a FAT12 entry, in one or two sectors, make the entry for odd and for even clusters. |
| FatTable.PutFat12 | src/FatFS/ff.c:1268-1280 | A FAT12 entry is written and every other entry stays, though neighbours share a byte. |
| FatTable.PutFat16 | src/FatFS/ff.c:1282-1287 | A FAT16 entry is written and every other entry stays. |
| FatTable.PutFat32 | src/FatFS/ff.c:1289-1300 | A FAT32 entry takes the low 28 bits, keeps its own top four bits, and every other entry stays as it is with all 32 bits. |
| FatTable.Pack12 | src/FatFS/ff.c:1272-1278 | The two stored bytes hold the entry and leave the half byte of the neighbour as it was. |
| FatTable.Keep12 | src/FatFS/ff.c:1268-1280 | Two read-modify-writes of bytes leave every other packed entry unchanged. |
| FatTable.EntryFrame | src/FatFS/ff.c:1193-1211 | A step that touches none of the bytes of an entry leaves the entry, for all three widths. |
| Chains.ChainDistinct | src/FatFS/ff.c:1464-1502 | A chain that ends in an end mark is acyclic. |
| Chains.ChainUnique | src/FatFS/ff.c:1464-1502 | Only one chain starts from a cluster. |
| Chains.CountFreeUpdate | src/FatFS/ff.c:1479-1482 | The free count moves by exactly what a write does to its entry. |
| Chains.Conserved | src/FatFS/ff.c:1464-1633 | If the clusters that are free or in a chain are the same before and after, the free count and the length of the chain have the same sum. |
| Chains.WalkOnlyFrees | src/FatFS/ff.c:1470-1502 | On any FAT content, cyclic or cross-linked, the removal loop (whose termination measure is the number of entries in use) only turns entries into zero. |
| Chains.WalkFreesReachable | src/FatFS/ff.c:1470-1502 | On any FAT content it frees only clusters that the links lead to from the start. |
| Chains.WalkChain | src/FatFS/ff.c:1470-1502 | On a chain it frees exactly the clusters of the chain and succeeds. |
| Chains.CreateKeepsHeap | src/FatFS/ff.c:1616-1619 | Making a new chain keeps all chains acyclic, disjoint and ended, and adds one that no chain shared. |
| Chains.AppendKeepsHeap | src/FatFS/ff.c:1616-1619 | Appending extends one chain by a cluster of no chain and keeps the heap of chains. |
| Chains.CutKeepsHeap | src/FatFS/ff.c:1464-1502 | Cutting before position k frees exactly the clusters from k on, ends the chain at k-1 and leaves every other entry. |
| Chains.DropKeepsHeap | src/FatFS/ff.c:1464-1502 | Removing a whole chain frees exactly its clusters; all other chains and entries stay. |
| Alloc.SearchFree | src/FatFS/ff.c:1602-1615 | For every start the circular search answers 0 only if no cluster is free, and otherwise the first free cluster on its way round; it terminates. |
| Alloc.PickCluster | src/FatFS/ff.c:1589-1615 | The cluster behind the tail if free, else the first free one on the way round from the last allocation. |
| Alloc.LinkCluster | src/FatFS/ff.c:1616-1619 | Marks the new cluster as an end, links it behind the tail, and costs exactly one free cluster. |
| Alloc.CreateChain | src/FatFS/ff.c:1540-1633 | Successor, refusal, 0 (exactly if nothing is free) or a fresh cluster, the one the search rule chooses, appended or starting a chain; all other entries stay; the cached free count stays exact and the hint is the new cluster. |
| Alloc.RemoveChain | src/FatFS/ff.c:1445-1502 | On every FAT content: refusal of bad arguments, else the end mark and the freeing walk; the cached free count stays exact. |
| HeapRuns.CreateOnHeap | src/FatFS/ff.c:1540-1633 | On disjoint chains: stretching inside a chain only moves on, at its tail (or from 0) it fails exactly if nothing is free, and otherwise takes a cluster of no chain. |
| HeapRuns.RemoveOnHeap | src/FatFS/ff.c:1445-1502 | On disjoint chains: exactly the suffix from k is freed, the prefix is a chain, every other entry stays. |
| HeapRuns.HeapOverRuns | src/FatFS/ff.c:1445-1633 | Over every run of create_chain and remove_chain calls all chains stay acyclic, pairwise disjoint and ended. |
| FreeScan.ScanPacked | src/FatFS/ff.c:4855-4866 | The FAT12 scan counts exactly the free clusters. |
| FreeScan.ScanRaw | src/FatFS/ff.c:4889-4906 | The raw sector scan of FAT16/32 counts exactly the zero entries from entry 0 on, in agreement with get_fat. |
| FreeScan.GetFree | src/FatFS/ff.c:4831-4915 | A known count is returned, an unknown one is replaced by the scan; nothing on the volume changes. |
| FreeScan.ScanIsExact | src/FatFS/ff.c:4831-4915 | The scanned count is the number of free clusters if and only if the volume is FAT12 or neither reserved entry is zero. |
| FreeScan.ScanFooled | src/FatFS/ff.c:4889-4906 | A FAT16 volume where the scan counts one cluster too many. |
| FileModel.FileSectorsDiffer | src/FatFS/ff.c:1160-1169 | Different sectors of a file are different sectors of the disk. |
| FileModel.FlushStep | src/FatFS/ff.c:3997-4002 | Writing the dirty buffer back changes no byte of the file. |
| FileModel.LoadStep | src/FatFS/ff.c:4003-4006 | Filling the clean buffer from the disk changes no byte of the file. |
| FileModel.PokeStep | src/FatFS/ff.c:4126-4135 | Data put into the buffer at the pointer overwrites exactly those bytes of the file. |
| FileModel.DirectStep | src/FatFS/ff.c:4091-4111 | Whole sectors written past the buffer, with a cached one refreshed, overwrite exactly those bytes of the file. |
| FileModel.GrowStep | src/FatFS/ff.c:4055-4077 | A cluster appended to the chain changes no byte of the file. |
| FileIO.FlushBuffer | src/FatFS/ff.c:3997-4002 | The dirty buffer goes to its sector; the file, the FAT and all other files stay. |
| FileIO.StretchChain | src/FatFS/ff.c:4055-4077 | create_chain on the file: successor, or one more cluster at the end unless the disk is full; the bytes of the file stay. |
| FileIO.ReadDirect | src/FatFS/ff.c:3975-3993 | A direct read of whole sectors gives the bytes of the file, also when one of them is dirty in the buffer. |
| FileIO.ReadStep | src/FatFS/ff.c:3952-4014 | Each round of the read loop delivers the next bytes of the file and makes progress. |
| FileIO.WriteStep | src/FatFS/ff.c:4054-4135 | Each round of the write loop overwrites or extends the file by its part of the data; the file has exactly the clusters it had or those that the bytes up to the pointer need; no progress means that the pointer is at the end of the last cluster and none is free. |
| FileIO.FRead | src/FatFS/ff.c:3929-4016 | f_read returns exactly the bytes from the pointer on, as many as asked for or as the file has; nothing else changes; a file not open for reading is refused. |
| FileIO.FWrite | src/FatFS/ff.c:4029-4138 | f_write overwrites and extends the byte sequence at the pointer; the count is the lesser of what it set out to write and what the clusters of the file and the free ones hold behind the pointer; afterwards the file has the clusters it had or exactly those that the bytes up to the pointer need, and every cluster taken is one less free; other files are untouched; a file not open for writing is refused. |
| FileIO.Clipped | src/FatFS/ff.c:4049-4052 | No write carries the pointer over the 32-bit size limit, and a write that would not is not cut. |
| FileSeek.SeekWalk | src/FatFS/ff.c:4533-4583 | The walk arrives at the target or, with the disk full, at the end of the allocated space; clusters are taken exactly up to there; the file keeps its bytes. |
| FileSeek.FLseek | src/FatFS/ff.c:4525-4600 | The pointer goes to the lesser of the target (clipped for read-only files) and what the clusters of the file and the free ones hold; the size follows it; the file has the clusters it had or exactly those that the bytes up to the pointer need, each taken one less free; every existing byte stays. |
| FileTruncate.CutChain | src/FatFS/ff.c:4940-4952 | Exactly the clusters from position k on are freed, and no sector of the kept part or of another file changes. |
| FileTruncate.CutPosition | src/FatFS/ff.c:4940-4952 | The chain is cut behind the last cluster that the kept bytes need. |
| FileTruncate.FTruncate | src/FatFS/ff.c:4927-4965 | The file becomes its prefix up to the pointer, keeps exactly the clusters that it needs, and the others are free, and counted. |
| FileRuns.Perform | src/FatFS/ff.c:3929-4965 | Each of read, write, seek and truncate is a step of a plain byte sequence with a cursor, a number of clusters and the number of free ones; state and operation determine how many bytes are moved and what the new state is (but for the value of bytes that a seek beyond the end adds). |
| FileRuns.Run | src/FatFS/ff.c:3929-4965 | Every run of operations on one open file is a run of that simple file, so that an operation falls short exactly when and where the room ends; clusters and sectors of other files stay. |
| FileRuns.ReadBack | src/FatFS/ff.c:3929-4600 | A complete write, a seek back and a read return the bytes written, and leave the file as after the write. |
| FileRuns.ExistingBytesKept | src/FatFS/ff.c:3949-4600 | Along any run of reads and seeks the content only grows at its end. |
| FileRuns.RunDetermined | src/FatFS/ff.c:3929-4965 | Two runs of the same operations from states of the same shape agree in every answer code, every count, every size, pointer and number of clusters; clusters of the file and free clusters have the same sum all the way. |
| ManyFiles.OtherKept | src/FatFS/ff.c:4029-4965 | What an operation on one file does to another open one: bytes, clusters and chain stay; its buffer stays sound if and only if the operation did not take the cluster of the sector in it. |
| ManyFiles.StepTogether | src/FatFS/ff.c:4029-4965 | After an operation on one of several open files all are in order together if and only if it did not take a cluster that the buffer of another one holds a sector of; in any case bytes, pointers and clusters of the others stay. |
| ManyFiles.HomeIsSafe | src/FatFS/ff.c:4940-4952 | That cannot happen to a file whose buffer is empty or holds a sector of a cluster of its own. |
| ManyFiles.RunTogether | src/FatFS/ff.c:3929-4965 | Over every run of operations on several open files, in any order and as long as it does not happen, each behaves as its own simple file, and they share nothing but the number of free clusters. |
| ManyFiles.PerformAmong | src/FatFS/ff.c:3929-4965 | The operations themselves, on one of several file objects, are such steps, whatever state the others are in. |
| ManyFiles.AllUsable | src/FatFS/ff.c:3929-4965 | Files that are in order together meet what the operations ask for. |
| FileSync.FillEntry | src/FatFS/ff.c:4205-4211 | The entry takes the start cluster and the size (read back as they are on FAT12/16 and on FAT32) and the archive mark; name and creation time stay. |
| FileSync.SyncFs | src/FatFS/ff.c:1110-1130 | The window goes to the disk; on FAT32 with a changed allocation the FSInfo sector then holds the numbers of the volume, and every other sector stays. |
| FileSync.FSync | src/FatFS/ff.c:4150-4218 | If the file was changed: nothing is left in any buffer, and the disk alone holds a directory entry that leads to a chain with exactly the bytes of the file; on FAT32 with a changed allocation the FSInfo sector holds the free count and the hint; no sector changes but those of the file, of free clusters, of the FATs, the FSInfo sector if it is written, and the entry. |
| FileSync.FOpen | src/FatFS/ff.c:3858-3885 | A file opened on a volume mounted afresh has the bytes that its directory entry leads to on the disk; the free count and the hint are those of the FSInfo sector. |
| FileSync.SyncAndReopen | src/FatFS/ff.c:3858-4218 | After f_sync all caches can be lost: the file opened again has the same bytes, and on FAT32 the free count and the hint are there again, if they were written. |
| FsInfo.FillInfo | src/FatFS/ff.c:1121-1129 | Round trip: from the sector that sync_fs writes, mounting takes the same free count and hint; all other bytes are zero. |
| FsInfo.FillNewInfo | src/FatFS/ff.c:6322-6327 | The sector that f_mkfs writes holds the numbers and the signature at its end, but mounting takes no numbers from it. |
| FsInfo.LoadInfo | src/FatFS/ff.c:3581-3599 | Mounting takes the numbers of the sector behind the boot sector if its three signatures are there, else none; nothing on the disk changes. |
| FsInfo.NewFs | src/FatFS/ff.c:3581-3600 | A volume just mounted shows the disk as it is, with the numbers of its FSInfo sector or none. |
| LinkMap.ClmtClust | src/FatFS/ff.c:1645-1663 | The cluster of the given order in the fragments of the table, 0 behind the last. |
| LinkMap.CreateLinkmap | src/FatFS/ff.c:4475-4499 | The table gets the maximal runs of the chain if they fit; its first item becomes exactly the size needed; no item at or behind the given size is written; the answer tells whether it fitted. It is an error if and only if the end mark of the chain is one more than its last cluster. |
| LinkMap.MarkLooksConsecutive | src/FatFS/ff.c:4483-4490 | A chain of one cluster whose table cannot be built. |
| LinkMap.FollowRun | src/FatFS/ff.c:4483-4488 | The inner loop ends exactly where the run of consecutive clusters ends, or fails on such an end mark. |
| LinkMap.FewestFragments | src/FatFS/ff.c:4475-4499 | No table of fewer fragments holds the chain. |
| LinkMap.FollowChain | src/FatFS/ff.c:1645-1663 | Following the FAT k times from a cluster of a chain leads to the cluster k places on. |
| LinkMap.LookupIsWalk | src/FatFS/ff.c:1645-1663 | Fast seek refines the walk: looking up cluster number k equals following get_fat k times, and gives 0 beyond the end. |
| FastSeek.FastLseek | src/FatFS/ff.c:4500-4521 | Seeking by the table: the pointer goes to the offset or to the end of the file; bytes, size, clusters and FAT stay. |
| FastSeek.NextByTable | src/FatFS/ff.c:3962-3966 | At a cluster boundary of a read or a write the table gives what the FAT has for the current cluster, and 0 exactly at the end of the chain, never within the file. |
| Directory.FollowTo | src/FatFS/ff.c:1738-1747 | Following the chain of a table reaches the cluster of the offset, or tells that the chain is too short. |
| Directory.DirSdi | src/FatFS/ff.c:1715-1753 | The index goes to the place of the entry at the offset, in static and in chained tables, or fails exactly when the table has no such entry. |
| Directory.DirClear | src/FatFS/ff.c:1676-1705 | Exactly the sectors of the cluster become zero; no other logical sector changes, and equal FAT copies stay equal. |
| Directory.StretchTable | src/FatFS/ff.c:1790-1800 | A table is stretched by one zeroed cluster behind its last one, or not at all because the disk is full; equal FAT copies stay equal. |
| Directory.CrossCluster | src/FatFS/ff.c:1784-1808 | At the end of a cluster the index goes to the next one, a zeroed one if the table has to grow, or fails because there is none or the disk is full; equal FAT copies stay equal. |
| Directory.DirNext | src/FatFS/ff.c:1763-1813 | The index goes to the place of the next entry exactly if there is one; a table grows only by zeroed clusters; equal FAT copies stay equal. |
| Directory.ScanTo | src/FatFS/ff.c:1715-1813 | k successful steps from the start reach the same place as dir_sdi to offset 32 k, and they succeed exactly if that place exists; equal FAT copies stay equal. |
| Directory.SpotsEnd | src/FatFS/ff.c:1763-1813 | Behind the end of a table there are no more entries. |
| Directory.EntryKept | src/FatFS/ff.c:1763-1813 | A table that grows keeps the place and the state of every entry it had. |
| Directory.TrailingRun | src/FatFS/ff.c:1836-1850 | The counter of dir_alloc is at least n exactly if the last n entries seen are free. |
| Directory.ShowFree | src/FatFS/ff.c:1838-1843 | The test for a free entry looks at the first byte of the entry under the index. |
| Directory.DirAlloc | src/FatFS/ff.c:1824-1855 | On success the index is on the last of the first n consecutive free entries, and no earlier block was free; failure means that there is no such block and the table cannot grow, because the disk is full, the root is static, or the size limit is reached; growth only adds zeroed clusters; equal FAT copies stay equal. |
| LongName.PutLfn | src/FatFS/ff.c:1977-2003 | The entry gets its part of the name, terminator and filler behind the end, order number with the last-part flag exactly for the last part, checksum, type and attribute; no other byte changes. |
| LongName.PutName | src/FatFS/ff.c:2546-2560 | All parts of a name, the last one first, in consecutive entries. |
| LongName.PickLfn | src/FatFS/ff.c:1939-1967 | An entry is taken exactly if it is sound and its part fits the buffer, and then the buffer changes by exactly that part. |
| LongName.ReadEntry | src/FatFS/ff.c:2365-2375 | Which entries continue the name being read, and what the expected order becomes. |
| LongName.ReadName | src/FatFS/ff.c:2327-2390 | Round trip: reading the entries of a stored name gives the name back with its terminator, and order 0 with the checksum of the parts. |
| LongName.CmpLfn | src/FatFS/ff.c:1903-1929 | An entry matches exactly if it is sound and its characters agree with the name in the buffer up to case folding, also at the end of the name. |
| LongName.MatchEntry | src/FatFS/ff.c:2445-2462 | Which entries continue a match, and what the expected order becomes. |
| LongName.FindName | src/FatFS/ff.c:2405-2475 | The entries of a stored name match if and only if the name searched for is the same name up to case folding, whatever is left over behind its terminator. |
| LongName.AgreesIs | src/FatFS/ff.c:1903-1929 | What cmp_lfn looks at in entry k is the part of the name from 13 (k - 1) on, with its end. |
| LongName.PackedChars | src/FatFS/ff.c:1992-2001 | Entries of a name are sound, and their terminator is where the name ends. |
| ExFat.AnswerExact | src/FatFS/ff.c:1213-1235 | Where get_fat tells the truth about a lazily written chain: if and only if the chain is contiguous, or the cluster is in the contiguous first part or is the tail, or nothing is pending. |
| ExFat.PendingHidesLink | src/FatFS/ff.c:1226-1233 | A lazily written chain where get_fat is wrong: a link that is written is hidden by a fragment that is not. |
| ExBitmap.FlipOne | src/FatFS/ff.c:1376-1377 | Flipping a bit of a byte changes that bit and no other. |
| ExBitmap.FindBitmap | src/FatFS/ff.c:1320-1352 | Over the bytes behind the sector window, for any number of clusters: the first run of that many clear bits on the way round, where the last bit and the first count as neighbours; 0 exactly if there is none; nothing on the volume changes. |
| ExBitmap.BlockIffNoWrap | src/FatFS/ff.c:1338-1343 | The cluster found begins a block of free clusters of the volume if and only if the run does not go on from the last cluster to the first. |
| ExBitmap.WrappedRun | src/FatFS/ff.c:1338-1343 | A bitmap where the search for two clusters gives the last cluster of the volume. |
| ExBitmap.OneCluster | src/FatFS/ff.c:1320-1352 | For one cluster the search over bytes gives what the search over plain bits gives: the first clear bit on the way round, and 0 exactly if there is none. |
| ExBitmap.SameAnswer | src/FatFS/ff.c:1320-1352 | The search over bytes and the search over plain bits, which the lazily written chains use, give the same cluster. |
| ExBitmap.ChangeBitmap | src/FatFS/ff.c:1360-1386 | Over the bytes behind the sector window: if no bit of the block has the value yet, exactly the bits of the block are flipped; it is an error exactly if one has, and then the bits before the first such one are flipped; no other bit of the bitmap and no other sector changes; equal FAT copies stay equal. |
| ExFat.FillFirstFrag | src/FatFS/ff.c:1396-1411 | Writes the links of the contiguous first part and no entry outside the chain; the chain it stands for stays the same. |
| ExFat.FillLastFrag | src/FatFS/ff.c:1419-1434 | Writes exactly the pending run, its end linked to the given value. |
| ExFat.NoteGrowth | src/FatFS/ff.c:1569-1586 | Whatever cluster was taken, status, counters and links still stand for the list, now with that cluster at its end. |
| ExFat.CreateChain | src/FatFS/ff.c:1540-1633 | From inside the chain only the right successor; from the tail one more free cluster, the first on the way round, marked in the bitmap and noted lazily; 0 exactly if the bitmap is full; no entry outside the chain is written. |
| ExFat.FreeClusters | src/FatFS/ff.c:1470-1502 | The removal loop clears exactly the bits of the clusters from position k on, block by block. |
| ExFat.IsContiguous | src/FatFS/ff.c:1510-1521 | The loop that follows the chain finds out whether what is left is contiguous: if and only if it is. |
| ExFat.RemoveChain | src/FatFS/ff.c:1445-1532 | Exactly the clusters from k on leave the bitmap, the rest stays the chain of the object, and its status becomes contiguous exactly as the code decides it. |
| ExFat.Flush | src/FatFS/ff.c:4463-4469 | Writing the last fragment with an end mark leaves nothing pending and the same chain. |
| ExFat.Sync | src/FatFS/ff.c:4171-4176 | After both fragments are written, the object is contiguous or the FAT holds a chain that lists exactly its clusters in order. |
| ExFat.Grow | src/FatFS/ff.c:4055-4077 | One more cluster at the tail, or a full bitmap and nothing changed; other objects keep clusters and links. |
| ExFat.Cut | src/FatFS/ff.c:4940-4952 | The chain cut to its first k clusters, the rest free; other objects keep clusters and links. |
| ExFat.WalkTo | src/FatFS/ff.c:1213-1235 | Following get_fat from the start reaches cluster number i of the list. |
| ExFat.Perform | src/FatFS/ff.c:1540-1633 | Append, truncate, seek and synchronise are steps of a plain list of clusters; appending fails exactly if the list has all the room that there is, its own clusters and the clear bits. |
| ExFat.Session | src/FatFS/ff.c:1396-1633 | After any run of operations and a last synchronisation the stored allocation (contiguous, or a FAT chain) is exactly the list that the run made, in which every append took a cluster until the room of the beginning was used up; everything else is kept, in both directions. |
| Glob.ScanTerm | src/FatFS/ff.c:2837-2846 | The code of a wildcard term and where it ends. |
| Glob.Branch | src/FatFS/ff.c:2835-2856 | One attempt of the matcher, and when later starts or the whole search can be given up without losing a match. |
| Glob.PatternMatch | src/FatFS/ff.c:2815-2858 | The nested loops with recursion decide exactly what trying every start would; they terminate. |
| Glob.HereIs | src/FatFS/ff.c:2815-2858 | With at most 255 question marks to a term: acceptance is membership in the glob language with no more terms than allowed, and nothing is accepted with more. |
| Glob.FindIs | src/FatFS/ff.c:4744-4761 | The search matcher decides the glob language for patterns of at most four terms and accepts nothing for others. |
| Glob.RightIffShort | src/FatFS/ff.c:2815-2858 | For patterns of at most four terms the matcher is right about every name if and only if no term has more than 255 question marks. |
| Glob.LongEnough | src/FatFS/ff.c:2815-2858 | A name of the language is at least as long as the pattern has marks and literals. |
| Glob.Find | src/FatFS/ff.c:4744-4761 | The method itself answers by the language. |
| Format.GapIs | src/FatFS/ff.c:6238 | The mask arithmetic of the alignment is the distance to the next multiple of the block size, also where it wraps. |
| Format.PlaceAreas | src/FatFS/ff.c:6234-6246 | No sum wraps; the data area becomes aligned, by the reserved area on FAT32 and by the FATs (and the rest by the reserved area) on FAT12/16. |
| Format.Round | src/FatFS/ff.c:6205-6277 | A round in 32-bit steps computes what the plain arithmetic says. |
| Format.RoundIsGood | src/FatFS/ff.c:6205-6277 | A layout that a round accepts counts its clusters exactly, has the FAT type of that count, a FAT that is big enough, fields that fit, and an aligned data area. |
| Format.FindLayout | src/FatFS/ff.c:6205-6277 | The retry loop terminates, for every volume: a retry fixes the cluster size or switches to FAT32. |
| Format.SearchIsGood | src/FatFS/ff.c:6205-6277 | The same for the result of the whole search. |
| Format.ClustersLeft | src/FatFS/ff.c:6248-6250 | At least 16 clusters without alignment; in general at least one if and only if the aligned areas leave room for one. |
| Format.SearchResult | src/FatFS/ff.c:6205-6277 | Every layout found is right, has 16 clusters or more without alignment, and one at least exactly if there is room. |
| Format.NoClusterLeft | src/FatFS/ff.c:6248-6250 | A volume that the search accepts although no cluster fits behind the aligned areas. |
| BootSector.WriteVbr | src/FatFS/ff.c:6284-6316 | The boot sector holds the layout, the place of the volume on the drive, the media and drive numbers, the serial number, the label and the type name, and on FAT32 where the FSInfo sector and the copy are, in the fields of the format. |
| BootSector.ReadBackBpb | src/FatFS/ff.c:3529-3549 | The fields that mounting reads are those of the layout: none was cut. |
| BootSector.MountVolume | src/FatFS/ff.c:3529-3578 | The checks of mounting and the geometry derived, from the bytes of the sector. |
| BootSector.CountBack | src/FatFS/ff.c:3551-3554 | Mounting counts as many clusters as formatting did. |
| BootSector.FormatMountAgree | src/FatFS/ff.c:3529-3578 | Mounting what was formatted succeeds if and only if the layout has a cluster, and derives the same sub-type, cluster count and area bases; no sum wraps. |
| BootSector.Recognised | src/FatFS/ff.c:3307-3340 | The sector written passes for a FAT boot sector. |
| BootSector.FormattedIsValid | src/FatFS/ff.c:3529-3578 | The geometry of a formatted volume is one that the allocation, file and directory layers work on. |
| BootSector.FormatThenMount | src/FatFS/ff.c:6205-6316 | Search, write, recognise and mount in one: with no alignment a volume that can be formatted can always be mounted. |
| NewVolume.FillSectors | src/FatFS/ff.c:6343-6350 | The loop with its limited buffer writes the marked sector once, then zeros, over exactly the given sectors. |
| NewVolume.InitAreas | src/FatFS/ff.c:6332-6358 | Every FAT copy is new and the copies are equal, the root directory is zero, and no other sector changes. |
| NewVolume.InitReserved | src/FatFS/ff.c:6284-6331 | The boot sector, and on FAT32 its copy, the FSInfo sector with the free count of the new volume, and the copy of that; nothing outside the reserved area changes. |
| NewVolume.NewEntryAt | src/FatFS/ff.c:6335-6342 | The marks are end marks in the reserved entries (and for the FAT32 root) and zeros in all others, for the three widths. |
| NewVolume.NewIsEmpty | src/FatFS/ff.c:6335-6350 | A new FAT has every cluster free but that of the FAT32 root, a proper heap of chains, and no entry of value 1. |
| NewVolume.MkFs | src/FatFS/ff.c:6204-6358 | Formatting writes a good layout, its boot sector with serial number and label, on FAT32 a copy of it and two FSInfo sectors, new FATs and an empty root; or nothing if there is no layout; nothing outside the volume changes. |
| NewVolume.MountNew | src/FatFS/ff.c:3529-3600 | Mounting a formatted volume succeeds if and only if it has a cluster, and finds equal FAT copies, an empty root, all other clusters free, and everything that the operations on chains, files and directories ask for; the free count is unknown, also on FAT32. |
| KernelList.ListInsertEnd | src/c-to-rust src/src/list/list.rs:212-220 | The list stays linked both ways around the sentinel with its true length; the item is served after all that wait, but for the one served last. |
| KernelList.FindPlace | src/c-to-rust src/src/list/list.rs:225-240 | The search ends at the first item whose value is not smaller, or for the greatest value at the last item. |
| KernelList.ListInsert | src/c-to-rust src/src/list/list.rs:225-256 | The item goes to that place and names the list; the list stays valid if and only if the item was not in it already. |
| KernelList.InsertKeepsSorted | src/c-to-rust src/src/list/list.rs:225-256 | Sorted insertion keeps a list sorted if and only if the value is not the greatest one, or the list is empty, or its last item has the greatest value too. |
| KernelList.GreatestInFront | src/c-to-rust src/src/list/list.rs:225-256 | A list that such an insertion leaves out of order. |
| KernelList.ListRemove | src/c-to-rust src/src/list/list.rs:310-336 | The item leaves the list that it names; no other item changes its turn, also when the index stood on the removed item; an item of no list is left alone. |
| KernelList.RemovedFromOrder | src/c-to-rust src/src/list/list.rs:318-331 | Removing an item takes exactly it out of the order of service. |
| KernelList.GetOwnerOfNextEntry | src/c-to-rust src/src/list/list.rs:260-268 | The item whose turn it is is served and goes to the end of the order; the sentinel is passed over. |
| KernelList.UpcomingIsAll | src/c-to-rust src/src/list/list.rs:260-268 | The order of service holds every item of the list exactly once. |
| KernelList.ServeAll | src/c-to-rust src/src/list/list.rs:260-268 | From any position of the index, as many calls as there are items serve every item exactly once, in order. |
| ListTable.ListsApart | src/c-to-rust src/src/list/list.rs:310-336 | Lists of a table in order share no item: an item is only in the list that it names. |
| ListTable.Remove | src/c-to-rust src/src/list/list.rs:310-336 | The item leaves the list that it names, no other item loses its turn, and the table stays in order; without a list nothing happens, in whatever state the lists are. |
| ListTable.Append | src/c-to-rust src/src/list/list.rs:212-220 | An item of no list joins the given one, nothing else changes, and the table stays in order. |
| ListTable.Insert | src/c-to-rust src/src/list/list.rs:225-256 | An item of no list is sorted into the given one and the table stays in order; an item that is in a list already leaves a table whose lists cannot all be seen as lists in order, whatever items one takes them to hold. |
| ListTable.Spoiled | src/c-to-rust src/src/list/list.rs:225-256 | Why: a list that counts as many items as before, or one more, cannot hold them, since too few items name it. |
| Scheduler.ExactlyOne | src/c-to-rust src/src/list/list.rs:296-336 | The state item of a live task is in exactly one list, the one that it names. |
| Scheduler.Kernel.constructor | src/c-to-rust src/src/tasks/scheduler.rs:41-69 | The kernel starts in order, with the first task ready and current and all other lists empty. |
| Scheduler.AddNewTask | src/c-to-rust src/src/tasks/creation.rs:169-187 | A new task comes into the ready list of its priority; every other item keeps its place; the kernel stays in order. |
| Scheduler.TaskPrioritySet | src/c-to-rust src/src/tasks/control.rs:87-114 | The task moves to the ready list of the new priority from wherever it was, its priority and the value of its event item change, and no other item does; the waiters stay in the order of their urgency if and only if the new value fits where the event item is. |
| Scheduler.OrderedIff | src/c-to-rust src/src/tasks/control.rs:87-114 | What fitting means: waiters are in order exactly if the others are and this one lies between smaller and greater values. |
| Scheduler.TaskResume | src/c-to-rust src/src/tasks/control.rs:225-258 | Exactly a suspended task that is not pending and not the current one moves, to its ready list. |
| Scheduler.TaskSuspend | src/c-to-rust src/src/tasks/control.rs:178-222 | The state item is in the suspended list only, the event item is in no list, everything else stays; if the scheduler runs, the next unblock time is that of the head of the delayed list. |
| Scheduler.TaskDelete | src/c-to-rust src/src/tasks/control.rs:275-291 | The state item leaves the lists and nothing else moves, so the state lists stay in order, in whatever state the event lists are; no item of a deleted task is in a list, if none was before, if and only if the event item of this one is in none. |
| Scheduler.ResetNextUnblock | src/c-to-rust src/src/tasks/scheduler.rs:279-289 | The next unblock time is the wake time of the head of the delayed list, or the greatest number. |
| Scheduler.AddCurrentToDelayed | src/c-to-rust src/src/tasks/scheduler.rs:180-207 | The current task goes to the delayed list, sorted by its wake time, or for no ticks to the overflow list; the next unblock time is the lesser of old and new; everything else stays. |
| Scheduler.WaitingWith | src/c-to-rust src/src/tasks/scheduler.rs:180-207 | A new sleeper sorted in keeps the delayed list sorted and the next unblock time before every wake time. |
| Scheduler.WakeDue | src/c-to-rust src/src/tasks/scheduler.rs:134-172 | The loop wakes exactly the sleepers that are due, from the head on, each into the ready list of its task, and leaves the next unblock time at the head. |
| Scheduler.IncrementTick | src/c-to-rust src/src/tasks/scheduler.rs:127-177 | Exactly the delayed tasks whose wake time is not after the new tick move to their ready lists, nothing else moves, the kernel stays in order; while the scheduler is suspended the tick is only held back. |
| Scheduler.ExactlyDue | src/c-to-rust src/src/tasks/scheduler.rs:127-177 | No early and no late wake-up: after the tick a task that was delayed is ready if and only if its wake time has come, and else still delayed. |
| Scheduler.RemoveFromEventList | src/c-to-rust src/src/tasks/control.rs:354-397 | The head of the event list leaves it; its task becomes ready, or is pending while the scheduler is suspended; the answer compares priorities; everything else stays, and the order of urgency too. |
| Scheduler.PlaceOnEventList | src/c-to-rust src/src/tasks/control.rs:462-466 | The current task falls asleep and its event item is put into the event list by urgency. The kernel is in order afterwards, and all event lists can be seen as lists in order, if and only if the event item was in no list; the state lists are in order in any case. |
| Scheduler.OrderedWith | src/c-to-rust src/src/tasks/control.rs:462-466 | A new waiter sorted in keeps the order of urgency. |
| Scheduler.SelectHighest | src/c-to-rust src/src/tasks/scheduler.rs:101-110 | The highest ready list that is not empty. |
| Scheduler.SelectTask | src/c-to-rust src/src/tasks/scheduler.rs:91-98 | The task whose turn it is in that list becomes the current one and goes to the end of its order; no other order changes. |
| Scheduler.CreateTask | src/c-to-rust src/src/tasks/creation.rs:77-187 | A task with two new items joins the ready list of its priority; everything else stays. |
| KernelRuns.Perform | src/c-to-rust src/src/tasks/control.rs:87-466 | Each of the twelve acts is a step that says where every item is afterwards, in which order the ready tasks are served and who is pending, and keeps the kernel in order; but for a choice with nobody ready, and for a wait of a task whose event item is in a list already, which spoils the event lists. |
| KernelRuns.PerformState | src/c-to-rust src/src/tasks/control.rs:87-349 | The acts that use no event list, resuming and deletion included, do the same in whatever state the event lists are. |
| KernelRuns.Run | src/c-to-rust src/src/tasks/control.rs:87-466 | Any acts in any order, none skipped: each snapshot of the run follows from the one before by its act, and in each snapshot every state item is in at most one list, that of a live task in exactly one, and every sleeper is to wake in the future. The run ends early only before a choice with nobody ready, or at a wait of a task whose event item is in a list already; then the event lists are spoiled and the state lists still in order. |
| KernelRuns.RunOn | src/c-to-rust src/src/tasks/control.rs:87-349 | And so it goes on: every run of acts that use no event list, on event lists in whatever state, is a trace of the same steps. |
| KernelRuns.OnTime | src/c-to-rust src/src/tasks/scheduler.rs:127-207 | Over any run, whatever else is going on: a delayed task that no act is about is delayed until its wake time has come, and in its ready list from that tick on. |
| KernelRuns.RoundRobin | src/c-to-rust src/src/tasks/scheduler.rs:91-110 | Over any run: m choices in a row make the first m tasks of the highest ready list current, in their order, and turn the order by m; as many as there are tasks serve each once and leave the order as it was. |
| KernelRuns.Boot | src/c-to-rust src/src/tasks/scheduler.rs:41-69 | A kernel from nothing, in order, with its first task ready and current. |
| KernelRuns.WaitsTwice | src/c-to-rust src/src/tasks/control.rs:462-466 | Wait with a timeout, tick, select, wait: no such run gets past the second wait. |
| KernelRuns.TimedOutWaiter | src/c-to-rust src/src/tasks/control.rs:462-466 | That run, done: from a new kernel to an event list that is none any more. |
| KernelRuns.DeletedWaiter | src/c-to-rust src/src/tasks/control.rs:275-291 | A run after which an item of a deleted task is in an event list. |
| Queue.Ring.Reset | src/c-to-rust src/src/queue/queue.rs:227-236 | The queue is empty and its addresses stand at the right slots. |
| Queue.Ring.CopyDataToQueue | src/c-to-rust src/src/queue/queue.rs:353-416 | The item goes behind the last or in front of the first; overwriting replaces the item of a one-item queue; the addresses stay right if and only if nothing is overwritten in a longer queue that holds something. |
| Queue.OverwrittenPair | src/c-to-rust src/src/queue/queue.rs:386-410 | A queue for two items with its write address a slot too far. |
| Queue.Ring.CopyDataFromQueue | src/c-to-rust src/src/queue/queue.rs:471-489 | The read address moves one slot on, around the end, and that slot is read. |
| Queue.Ring.Send | src/c-to-rust src/src/queue/queue.rs:284-322 | Refused exactly if the queue is full and not to be overwritten. |
| Queue.Ring.Receive | src/c-to-rust src/src/queue/queue.rs:507-520 | The first item comes out and the rest stays in order; nothing from an empty queue. |
| Queue.Ring.Peek | src/c-to-rust src/src/queue/queue.rs:692-705 | The first item is seen and nothing changes. |
| Queue.StoredOver | src/c-to-rust src/src/queue/queue.rs:386-410 | What overwriting does to a queue that holds something: the new item is in front, the last item is lost, and the write address is right if and only if the queue is for one item. |
| Queue.Do | src/c-to-rust src/src/queue/queue.rs:227-705 | Each operation is a step of a bounded deque. |
| Queue.Run | src/c-to-rust src/src/queue/queue.rs:227-705 | Over every run of operations the ring answers as a bounded deque does. |
| Queue.Bounded | src/c-to-rust src/src/queue/queue.rs:284-290 | The deque never holds more than the length. |
| Queue.Fifo | src/c-to-rust src/src/queue/queue.rs:353-489 | Over every run of back-sends, receives and peeks the items come out in the order in which they went in, none lost, none twice. |

## Left out
- Disk errors and the FF_FS_READONLY build: the disk fails only for sectors out of range, so the error flag of a file (`err`, ABORT) is never set.
- Functions for attributes and volume labels, path parsing, code pages and Unicode conversion, sharing locks, partitions and GPT.
- Bit masks of C are written as division and remainder; `csize` is a power of two where masks rely on it.
- `f_expand`, the caller of `find_bitmap` for more than one cluster.
- ExFat.CreateChain: the operations on lazily written chains work on a bitmap and a FAT that are arrays; ExBitmap proves the same search and the same change of bits behind the sector window, FatTable the FAT entries of FAT12/16/32; the 32-bit entries of exFAT behind the window are not part of this model.
- ExFat.Session: the end mark exceeds every cluster number (`n_fatent` below 0x7FFFFFFF), and the directory's own status bit 4 and the exFAT directory entries are not modelled.
- FastSeek.NextByTable: what the table gives inside the loops of `f_read` and `f_write` is stated for each cluster boundary; the loops with the table in place of the FAT are not proved again. Behind the end, where the FAT branch would stretch the chain, the table branch of `f_write` stops as on a full disk.
- FileSeek.FLseek: bytes that seeking beyond the end adds have no stated value, as in the code, which does not clear them.
- ManyFiles.RunTogether: a run stops being described where an operation takes the cluster under another file's buffer; opening and closing among several files are not part of this model.
- FileSync.FOpen: of `f_open`, opening a file that is there, its entry found; creating, overwriting and appending are not part of this model.
- FileSync.FSync: the modification time and `fsi_flag` are parameters; an FSInfo sector lies before the FATs and is not the sector of the directory entry; the exFAT directory entry is not part of this model.
- Directory.DirAlloc: the contents of entries are only told free or used; `dir_register` beyond long names, `dir_remove` and exFAT entry blocks are not part of this model.
- LongName.PutLfn: names hold neither 0 nor 0xFFFF; the code takes 0xFFFF, its filler, for the end of the name. Numbered short names and checksums of short names are not part of this model.
- LongName.FindName: `ff_wtoupper` is any function that maps only 0 to what it maps 0 to; its table `ffunicode.c` is not part of this model.
- Glob.Find: characters are numbers and `get_achar` folds them by a table that is a parameter; multi-byte encodings are not decoded.
- Format.FindLayout: partitioning and the exFAT branch of `f_mkfs` are not part of this model.
- BootSector.MountVolume: the geometry of an arbitrary boot sector is derived as the code does, but is shown to be usable only for volumes that were formatted here; FAT12/16 data bases may lie beyond the disk otherwise.
- BootSector.FormattedIsValid: the volume must end before sector 0xFFFFFFFF, which the code uses for "no sector".
- Scheduler.IncrementTick: the wrap of the tick counter and `taskSWITCH_DELAYED_LISTS`, which swaps lists without their items' containers, are not modelled.
- Scheduler.AddCurrentToDelayed: wake times stay below PORT_MAX_DELAY; above it sorted insertion and the counter wrap.
- Scheduler.TaskSuspend: the switch that follows suspending (or deleting) the current task is left to the caller; `xSchedulerRunning` is a field here, though the source never sets it.
- Scheduler.PlaceOnEventList: what spoiled event lists look like is only told by what they are not, and by the count of the one list.
- KernelRuns.Run: Await, Signal and Suspend on event lists that are spoiled already are not part of this model; RunOn covers all other acts on them. Task numbers, priorities, events and wake times are within their limits (Proper), and a hold comes before its release.
- Scheduler.ResumeAll: the replay of held ticks and pending tasks is guarded by a task count that the source never increments, so it does not happen and is not modelled.
- Scheduler.RemoveFromEventList: the yield flag and the ownership of handles made from C are not modelled; neither is the clone of the control block at creation, so a handle's priority may differ from the one in the lists.
- Critical sections and interrupts: an operation is one step.
- Event groups, mutexes with priority inheritance, and waiting inside queue operations with queue locks: `queue.rs` reads the wrong lock counter when unlocking, and the mutex holder is never the running task.
- Queue.Ring.Send: items have at least one byte (semaphores are queues of items without bytes), and the storage does not begin in the first item size bytes of memory, where the read address would go below zero.
- `src/rust`, an incomplete port, and `src/c-to-rust src/src/tasks/tasks.rs`, an unused copy.
