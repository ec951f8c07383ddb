# FatFs and CoOS, modelled and proved

A Dafny model of three parts of the CoOS firmware and proofs of what they keep: the FatFs file system
(`libraries/FatFs/src/ff.c`), the kernel heap (`CoOS/kernel/kernelHeap.c`), and the scheduler's lists with the
services built on them (`CoOS/kernel` and `CoOS/portable/arch.c`). Every capacity is a parameter. `dafny verify
dfyconfig.toml` checks the whole project.

**FatFs.** `FatLayout` has the packed FAT12, FAT16 and FAT32 entries, `FatFormat` what the bytes on a volume mean without
reference to the packing, `FatWindow` the volume with its one-sector
write-back window, `FatChains` and `ChainRuns` the cluster chains, `FileLayout`, `FatFile`, `FatSeek`, `FatLinkMap`,
`FatTruncate` and `FileIsolation` open files, `DirTable` and `FatDir` directories, `FatMount` the geometry, and
`FatGetFree` the free count. Each layer has a simple meaning that the layer below implements: the *logical disk* is
the device under the dirty window, the FAT is a table of values, a file is its clusters' bytes under its own dirty
buffer cut to its size, a directory is a finite map. The classes `Volume`, `File` and `Dir` carry the source's fields
and update buffers in place. The configuration is the compiled one: no long names, no `_FS_TINY`, fast seek, sectors of
512 bytes.

**Heap.** `KernelHeap` is a word array whose header words alias (word 0 of a used block links to its neighbour above,
word 0 of a free block to the next free block); `HeapBlocks` says which block sequence an array encodes, and
`HeapRuns` what holds of that sequence over every run.

**Scheduler.** `Lists` says what it means that nothing occurs twice; `TaskList` is the theory of lists threaded through two link tables. `ReadyList` and `ReadyIndex` are the two
ready-list configurations (`ReadyBits` and `ReadySearch` serve the index), `DeltaList` and `DeltaLinks` the
delta-encoded lists, `EventLists` the lists of waiting tasks. `DelayRuns`, `DelayList`, `TimerRuns` and `Timers` add
time; `KernelState`, `KernelSteps`, `KernelCalls`, `KernelRuns` and `Kernel` are the kernel as a state machine and as
calls on the linked lists that implement it, and `KernelEffects` says what each call does to what can be seen of the
tasks; `LinkSharing` joins the links of the ready and the delay
list into the one pair of the code; `MutexRuns`, `LostPriority` and `Mutexes` add mutexes, `MailQueue` queues. A call, a
tick, and a decision with its context switch are each one step.

Records of a C table (task, timer, event control blocks) are modelled as one sequence per field, indexed by the
record's number, with -1 for a null link; byte buffers, mail cells and the heap are arrays.

What the proofs show to be false of the code as it stands, each with the exact condition under which it holds:

- `KernelHeap.RoundingIsExact`: the rounding of a request wraps for sizes above 0xFFFFFFF4.
- `FatMount.CheckGuardsIff`, `FatMount.OversizedVolumeMounts`: the size check of a FAT32 volume wraps from 2^30 - 127
  entries on; `FatMount.MountedIsSound` lists everything the other parts rely on that the mount does not check, the root
  cluster (`FatMount.RootlessVolumeMounts`) included.
- `FatLinkMap.CreateLinkMap`, `FatLinkMap.MisreadHappens`: one kind of chain is taken for a damaged one by
  CREATE_LINKMAP.
- `FatTruncate.Truncate`, `FatTruncate.WriteRewindTruncate`: a buffer over a released cluster is not discarded and may
  stay dirty.
- `FatGetFree.RawCountIsFreeIff`, `FatGetFree.PartialCountIsFreeIff`: when the two scans count something else than the
  free clusters. A FAT12 scan that stops at an invalid entry still caches its partial count.
- `DeltaList.ExactIffInReach`: signed differences misread times that lie 2^31 ticks or more apart.
- `KernelRuns.FarTimeoutLosesTask`: the run in which such a misread timeout puts a task in the delay list with the count
  that says it is not in there.
- `TimerRuns.FiresAllDueIff`: a reload of 2^31 or more ends the disposal before the other due timers fire.
- `KernelRuns.TimeoutsStayValid`: CoPendSem accepts the timeout 0xFFFFFFFF, which marks a task as not delayed.
- `MutexRuns.LeaveRestoresIff`, `LostPriority.PriorityNotGivenBack`: a priority handed on is not given back when nobody
  waits, and a stale hipriTaskID (`LostPriority.HandOverIsLeastIff`) hands on a priority that no waiting task has.

## Model

| member | source | states |
|---|---|---|
| HeapBlocks.RepresentsSplice | CoOS/kernel/kernelHeap.c:97-158 | Replacing some neighbouring blocks by others keeps every header word of the array right as soon as the links across the two seams are redirected. |
| KernelHeap.RoundingIsExact | CoOS/kernel/kernelHeap.c:80-80 | The size rounding yields the least multiple of four that holds payload and header exactly for sizes up to 0xFFFFFFF4, and wraps for all larger ones. |
| KernelHeap.AllocateCorrect | CoOS/kernel/kernelHeap.c:97-158 | The words written by an allocation, whatever the neighbours, encode the block sequence with the request carved from the front of the chosen block, and no live payload word changes. |
| KernelHeap.ReleaseCorrect | CoOS/kernel/kernelHeap.c:263-382 | The words written by a release encode the block sequence with the freed block merged with its free neighbours, and no other live payload word changes. |
| KernelHeap.FreedThenRejoined | CoOS/kernel/kernelHeap.c:263-382 | Writing the merged header first and redirecting the neighbours' links afterwards gives exactly the memory of the merged block sequence. |
| KernelHeap.Parity | CoOS/kernel/kernelHeap.c:263-350 | Bit 0 of the two links in a used header tells for each side whether there is a used block, the fact the four cases of the release branch on. |
| KernelHeap.Heap.constructor | CoOS/kernel/kernelHeap.c:41-49 | The heap starts as one free block over the whole array. |
| KernelHeap.Heap.FindFit | CoOS/kernel/kernelHeap.c:83-95 | The walk along the free list ends at the first free block, in address order, with room, and remembers the free block before it. |
| KernelHeap.Heap.CoKmalloc | CoOS/kernel/kernelHeap.c:64-168 | Null with nothing changed when the size is 0 or no free block fits; else the payload address of the first fit, and the array encodes the block sequence after exactly that allocation, all live payloads kept. |
| KernelHeap.Heap.Take | CoOS/kernel/kernelHeap.c:97-161 | The chosen block is split or taken whole, and the memory represents the result. |
| KernelHeap.Heap.Assign | CoOS/kernel/kernelHeap.c:103-158 | Which words the two ways of assigning a block write, and with what. |
| KernelHeap.Heap.LinkAround | CoOS/kernel/kernelHeap.c:107-120 | A block taken whole leaves the free list, and the block above it learns that it is used. |
| KernelHeap.Heap.LinkRest | CoOS/kernel/kernelHeap.c:130-148 | The rest of a split block takes the block's place in the free list and between its neighbours. |
| KernelHeap.Heap.TakeHeader | CoOS/kernel/kernelHeap.c:150-158 | The header becomes that of a used block, and the block below learns it. |
| KernelHeap.Heap.CoKfree | CoOS/kernel/kernelHeap.c:182-384 | For null and addresses outside the heap nothing changes; for a live pointer the array encodes the block sequence with that block freed and coalesced, all other payloads kept. |
| KernelHeap.Heap.FreeBlock | CoOS/kernel/kernelHeap.c:263-383 | The four cases followed by the final relinking implement the coalescing release. |
| KernelHeap.Heap.FreeHeader | CoOS/kernel/kernelHeap.c:263-371 | Whichever case applies, the merged block's header and the free-list link to it are right. |
| KernelHeap.Heap.GetPreFMB | CoOS/kernel/kernelHeap.c:398-407 | The walk down the used blocks finds the last free block below. |
| KernelHeap.Heap.JoinBoth | CoOS/kernel/kernelHeap.c:264-300 | No used block on either side: the merged header, for each of the four heap-end combinations. |
| KernelHeap.Heap.JoinBelow | CoOS/kernel/kernelHeap.c:301-320 | A used block above only: the merged header, and the head of the free list when the block is the first. |
| KernelHeap.Heap.JoinAbove | CoOS/kernel/kernelHeap.c:321-349 | A used block below only: the new free block takes over the one above. |
| KernelHeap.Heap.InsertBetween | CoOS/kernel/kernelHeap.c:350-371 | Used blocks on both sides: the new free block enters the free list behind the last free block below. |
| KernelHeap.Heap.Rejoin | CoOS/kernel/kernelHeap.c:373-382 | The used blocks on both sides get untagged links to the free block. |
| HeapRuns.AllocateUsed | CoOS/kernel/kernelHeap.c:97-161 | An allocation adds exactly one used block, starting where its free block did. |
| HeapRuns.ReleaseUsed | CoOS/kernel/kernelHeap.c:263-383 | A release removes exactly one used block. |
| HeapRuns.EveryRun | CoOS/kernel/kernelHeap.c:64-384 | Over every run of allocations and releases the blocks tile the heap and no two free blocks touch; when nothing is live the initial single block is back. |
| HeapRuns.LivePayloadsDisjoint | CoOS/kernel/kernelHeap.c:80-161 | In every reachable heap two live payloads share no word and lie inside the heap. |
| HeapRuns.MallocServes | CoOS/kernel/kernelHeap.c:80-161 | A request some free block fits gets a new block at the front of the first such block, word aligned, at least as large as asked, with less than 12 bytes more than needed, and disjoint from every live payload. |
| HeapRuns.MallocFailsIffNothingFits | CoOS/kernel/kernelHeap.c:83-167 | Null is returned exactly when no free block can hold the payload and its header. |
| HeapRuns.ReleaseInAnyOrder | CoOS/kernel/kernelHeap.c:263-383 | Releasing all live blocks, in any order, restores the single initial free block. |
| FatLayout.SetThenGet | libraries/FatFs/src/ff.c:606-701 | For FAT12, FAT16 and FAT32 a stored entry reads back as the value cut to 12, 16 or 28 bits. |
| FatLayout.SetKeepsOthers | libraries/FatFs/src/ff.c:664-692 | Storing one entry leaves every other entry, although FAT12 entries share bytes. |
| FatFormat.EntryIsDigit | libraries/FatFs/src/ff.c:618-636 | The bytes of a FAT are one little-endian number, and entry c is its digit number c to the base 2^12, 2^16 or 2^32; of a FAT32 digit the low 28 bits. |
| FatFormat.StoreSetsDigit | libraries/FatFs/src/ff.c:664-692 | Storing a value replaces exactly that digit of the number, cut to the entry's width; the top four bits of a FAT32 digit stay. |
| FatFormat.FatOnDisk | libraries/FatFs/src/ff.c:606-639 | The number's bytes are those of the first FAT's sectors on the logical disk in order, and the value get_fat returns is a digit of it. |
| FatFormat.FsInfoOnDisk | libraries/FatFs/src/ff.c:559-566 | The FSInfo sector has its signatures at bytes 0, 484 and 510, the free count at 488 and the last cluster at 492, least significant byte first, and zeros elsewhere. |
| FatWindow.EntryPlace | libraries/FatFs/src/ff.c:618-636 | Under the bounds of a valid volume every entry lies inside the FAT, and inside one sector unless it is a FAT12 entry. |
| FatWindow.SetEntrySetsTable | libraries/FatFs/src/ff.c:664-692 | An entry stored in the FAT's bytes changes exactly that value of the table of entries. |
| FatWindow.EntryFromBytes | libraries/FatFs/src/ff.c:666-676 | Editing a FAT12 entry's two bytes one after the other, in different sectors if need be, stores the entry. |
| FatWindow.Volume.MoveWindow | libraries/FatFs/src/ff.c:508-540 | The logical disk (device under the dirty window) never changes, the window shows the requested sector, and all FAT copies on the device stay equal. |
| FatWindow.Volume.WriteBack | libraries/FatFs/src/ff.c:519-530 | The dirty window reaches its sector and, in the FAT area, every copy. |
| FatWindow.Volume.FatByte | libraries/FatFs/src/ff.c:621-624 | A byte of the FAT is fetched through the window from the sector that holds it, inside the FAT. |
| FatWindow.Volume.FatPair | libraries/FatFs/src/ff.c:620-625 | The two bytes of a FAT12 entry are fetched although they may lie in two sectors. |
| FatWindow.Volume.GetFat | libraries/FatFs/src/ff.c:606-639 | The value of the entry in the logical FAT, or 1 outside [2, n_fatent); the logical disk is unchanged. |
| FatWindow.Volume.PutFat | libraries/FatFs/src/ff.c:649-701 | Exactly the table of entries with that one value set, cut to its width; no other byte of the FAT and nothing outside it changes, and the copies stay equal. |
| FatWindow.Volume.PutFat12 | libraries/FatFs/src/ff.c:665-677 | The FAT12 case, straddling sectors included. |
| FatWindow.Volume.PutFatWide | libraries/FatFs/src/ff.c:679-692 | The FAT16 and FAT32 cases; which bytes that is, is FatFormat.StoreSetsDigit. |
| FatWindow.Volume.Sync | libraries/FatFs/src/ff.c:550-577 | Afterwards the device is the logical disk, except that a FAT32 volume with changed counts has its FSInfo sector rewritten. |
| FatChains.WalkFollowsTheTable | libraries/FatFs/src/ff.c:727-750 | The walk of remove_chain follows the links, visits no cluster twice, and stops only at an end mark, an empty or invalid entry, or a cluster it emptied itself. |
| FatChains.Unlink | libraries/FatFs/src/ff.c:729-738 | One round reads the link and, if it leads on, empties the entry and counts it. |
| FatChains.RemoveChain | libraries/FatFs/src/ff.c:711-754 | Terminates on every FAT, cyclic and cross-linked ones included, and empties exactly the clusters on the followed path, counting them in free_clust. |
| FatChains.ScanFindsTheFirstFree | libraries/FatFs/src/ff.c:785-797 | The wrap-around scan finds the first free cluster behind its start, or reports the first invalid entry or a full volume. |
| FatChains.ScanFailsIffFull | libraries/FatFs/src/ff.c:785-797 | In a FAT without invalid entries the scan returns 0 exactly when no cluster of [2, n_fatent) is free. |
| FatChains.FindFree | libraries/FatFs/src/ff.c:785-797 | The loop computes that scan. |
| FatChains.LinkCluster | libraries/FatFs/src/ff.c:799-802 | The cluster is end-marked and linked to the one it follows. |
| FatChains.CreateChain | libraries/FatFs/src/ff.c:765-814 | The table gets one fresh end-marked cluster, linked behind a tail or starting a chain; a cluster that already leads on answers with its successor; free_clust and last_clust follow. |
| FatChains.CreatedIsNext | libraries/FatFs/src/ff.c:774-797 | A new cluster is the next free one behind the tail, or behind the cluster taken last, going on at 2 behind the end of the volume. |
| FatChains.FollowedOn | libraries/FatFs/src/ff.c:780-783 | A scan happens only for a new chain or at an end mark; elsewhere the answer is the successor, or 1 for an entry or number that is not valid. |
| FatChains.CountsKept | libraries/FatFs/src/ff.c:733-736 | A known free count goes up by what is released and down by one taken, and an unknown one stays unknown. |
| FatChains.EndMarks | libraries/FatFs/src/ff.c:799-799 | The end mark has all bits of an entry set. |
| ChainRuns.RemoveFreesItsChain | libraries/FatFs/src/ff.c:711-754 | From a FAT made of disjoint end-marked chains, removing a head frees exactly that chain's clusters. |
| ChainRuns.GrowAppends | libraries/FatFs/src/ff.c:778-802 | Stretching a tail appends exactly one fresh cluster to its chain. |
| ChainRuns.StartAddsOne | libraries/FatFs/src/ff.c:774-801 | Creating a chain adds one chain of one cluster. |
| ChainRuns.CutKeepsTheFront | libraries/FatFs/src/ff.c:2919-2928 | Truncating keeps exactly the first clusters of the chain and frees exactly the others. |
| ChainRuns.CreatedWasFree | libraries/FatFs/src/ff.c:785-801 | The cluster handed out was free, and none is handed out exactly when none is free. |
| ChainRuns.EveryRunKeepsTheChains | libraries/FatFs/src/ff.c:711-814 | Over every run of create, stretch, remove and cut the FAT stays made of disjoint acyclic end-marked chains, and a valid free_clust is the number of free clusters. |
| FileLayout.Clust2Sect | libraries/FatFs/src/ff.c:588-596 | In a soundly laid out volume the cluster's sectors lie in the data area and below 2^32; an invalid number gives 0, which is no sector of the data area. |
| FileLayout.ClustersTile | libraries/FatFs/src/ff.c:588-596 | The clusters tile the data area from its first sector without a gap: sector n of it is sector n % csize of cluster 2 + n / csize. |
| FileLayout.SectorOnDisk | libraries/FatFs/src/ff.c:2168-2170 | Sector k of a file is sector database + (chain[k / csize] - 2) * csize + k % csize of the disk. |
| FileLayout.ByteOnDisk | libraries/FatFs/src/ff.c:2160-2211 | Byte i of a file is byte i % 512 of that sector for k = i / 512. |
| FileLayout.MaskIsRemainder | libraries/FatFs/src/ff.c:1855-1855 | For the powers of two the mount accepts, masking with csize - 1 is the remainder. |
| FileLayout.SectorPlace | libraries/FatFs/src/ff.c:2160-2170 | The k-th sector of a file is the one k modulo csize places into its cluster k / csize. |
| FileLayout.SectorsDistinct | libraries/FatFs/src/ff.c:588-596 | The sectors of a chain without repetition are all different and lie in the data area. |
| FileLayout.BytesOfSector | libraries/FatFs/src/ff.c:2314-2323 | Replacing part of one sector of a file splices those bytes into the file. |
| FileLayout.BytesOfRun | libraries/FatFs/src/ff.c:2280-2298 | Whole sectors written in a row inside a cluster splice their bytes into the file. |
| FileLayout.RunIsContent | libraries/FatFs/src/ff.c:2171-2176 | Whole sectors read in a row are the file's bytes. |
| FileLayout.RunUnderBuffer | libraries/FatFs/src/ff.c:2182-2183 | Patching a dirty buffer into what was read shows the file as overlaid by the buffer. |
| FatFile.WrapCheck | libraries/FatFs/src/ff.c:2248-2248 | The size check sees exactly the sums that wrap 32 bits. |
| FatFile.InWindow | libraries/FatFs/src/ff.c:2292-2292 | One wrapping subtraction and comparison tells whether a sector is among those transferred. |
| FatFile.ReachOrAppend | libraries/FatFs/src/ff.c:2252-2266 | The cluster of byte fptr is the current one, its successor, or one to be appended. |
| FatFile.GrowthKeepsBytes | libraries/FatFs/src/ff.c:2258-2260 | Allocating a cluster for the file changes no byte of it. |
| FatFile.GrowthKeepsChains | libraries/FatFs/src/ff.c:765-814 | A file's growth keeps a FAT made of disjoint chains so. |
| FatFile.File.constructor | libraries/FatFs/src/ff.c:2111-2121 | A freshly opened file stands at byte 0 with an empty buffer and satisfies the file invariant. |
| FatFile.File.ReachForRead | libraries/FatFs/src/ff.c:2160-2167 | On a sector boundary before the end, curr_clust becomes the chain's cluster that holds byte fptr. |
| FatFile.File.Stretch | libraries/FatFs/src/ff.c:2258-2260 | create_chain for the file follows the chain, appends one cluster to it, or finds the volume full. |
| FatFile.File.NextCluster | libraries/FatFs/src/ff.c:2255-2261 | The first cluster or the one behind the current; 0 only when no cluster is free. |
| FatFile.File.ReachForWrite | libraries/FatFs/src/ff.c:2254-2266 | curr_clust becomes the cluster for byte fptr, stretched if needed, or the volume is full. |
| FatFile.File.Flush | libraries/FatFs/src/ff.c:2271-2275 | Writing the dirty buffer back changes neither the file's bytes nor the view. |
| FatFile.File.DirectWrite | libraries/FatFs/src/ff.c:2280-2298 | Whole sectors replace exactly their bytes of the file, the buffer being refreshed when it holds one of them. |
| FatFile.File.Refill | libraries/FatFs/src/ff.c:2292-2295 | The buffer is refreshed exactly when its sector was among those written. |
| FatFile.File.FillSector | libraries/FatFs/src/ff.c:2306-2312 | The buffer takes the sector; beyond the end of the file its old content is not read. |
| FatFile.File.PutPartial | libraries/FatFs/src/ff.c:2314-2323 | Part of a sector replaces exactly those bytes of the file. |
| FatFile.File.WriteWhole | libraries/FatFs/src/ff.c:2280-2298 | As many whole sectors as the data and the cluster hold are written. |
| FatFile.File.EnterSector | libraries/FatFs/src/ff.c:2252-2279 | The sector for byte fptr is found, with the buffer written back, or the volume is full. |
| FatFile.File.WriteStep | libraries/FatFs/src/ff.c:2250-2325 | One round writes a non-empty prefix of the data at fptr, or stops on a full volume. |
| FatFile.File.WriteAll | libraries/FatFs/src/ff.c:2250-2325 | The loop writes all the data, or the prefix the volume has room for. |
| FatFile.File.Write | libraries/FatFs/src/ff.c:2226-2331 | Exactly the bytes [fptr, fptr + *bw) are replaced, all of the data unless no cluster is free (none when the size would reach 4 GB); no data sector outside the file's chain changes; when it ends off a sector boundary the last bytes stay in the dirty buffer; the file invariant (curr_clust holds byte fptr - 1) is kept. |
| FatFile.OutsideKept | libraries/FatFs/src/ff.c:2226-2331 | What a write leaves untouched: every sector of the disk outside the file's clusters and the copies of the FAT. |
| FatFile.File.ReadWhole | libraries/FatFs/src/ff.c:2171-2188 | Whole sectors come from the disk, overlaid by a dirty buffer among them. |
| FatFile.File.LoadSector | libraries/FatFs/src/ff.c:2190-2202 | The buffer holds the sector of byte fptr, without changing the file. |
| FatFile.File.ReadPart | libraries/FatFs/src/ff.c:2204-2211 | Part of a sector comes from the buffer. |
| FatFile.File.ReadStep | libraries/FatFs/src/ff.c:2157-2213 | One round delivers the next bytes of the file. |
| FatFile.File.Read | libraries/FatFs/src/ff.c:2133-2216 | Exactly the file's bytes [fptr, fptr + *br), as many as asked or left; the file and the disk keep their bytes. |
| FatFile.FileOnDisk | libraries/FatFs/src/ff.c:2133-2216 | Byte i of an open file, as f_read returns it, is byte i % 512 of the disk sector that the chain and the geometry alone give for i / 512, under the window and the file's buffer. |
| FileIsolation.OtherFilesKept | libraries/FatFs/src/ff.c:2226-2331 | When one file is written or grows, every other file keeps its chain and its bytes. |
| FatSeek.SeeksAgree | libraries/FatFs/src/ff.c:2590-2703 | File pointer, current cluster, buffered sector and buffer after a seek are determined by the target and the state before it, so two ways of seeking agree. |
| FatSeek.StartSeek | libraries/FatFs/src/ff.c:2640-2657 | The walk starts at the current cluster when the target lies in it or behind it, and at the first one otherwise. |
| FatSeek.Advance | libraries/FatFs/src/ff.c:2660-2671 | The next cluster of the walk, stretched in write mode. |
| FatSeek.Walk | libraries/FatFs/src/ff.c:2659-2674 | The walk ends at the cluster of the target, or where the volume got full. |
| FatSeek.Finish | libraries/FatFs/src/ff.c:2675-2696 | The file pointer ends at the target inside the cluster, with its sector in the buffer. |
| FatSeek.SeekBuffer | libraries/FatFs/src/ff.c:2683-2696 | The sector of the file pointer is brought into the buffer unless it is there. |
| FatSeek.NormalSeek | libraries/FatFs/src/ff.c:2628-2703 | Within the file it goes exactly to the target; in write mode it may extend the file as far as the volume allows; without write access it stops at the end; no data sector changes. |
| FatLinkMap.Lookup | libraries/FatFs/src/ff.c:2597-2603 | For every cluster index of the file the table lookup yields the chain's cluster and never runs off the table. |
| FatLinkMap.Fragment | libraries/FatFs/src/ff.c:2577-2583 | A run of consecutive clusters is followed to its end. |
| FatLinkMap.CreateLinkMap | libraries/FatFs/src/ff.c:2570-2588 | The table decodes to exactly the chain; it is too small exactly below 2k + 2 items for k runs; the one chain that is misread is named by its condition. |
| FatLinkMap.RunsAndBreaks | libraries/FatFs/src/ff.c:2576-2587 | A chain has one run more than it has places at which the next cluster is not the following one. |
| FatLinkMap.MisreadHappens | libraries/FatFs/src/ff.c:2580-2586 | A chain for which no map is built: its last cluster is the last of the volume and its end mark the number behind it. |
| FatLinkMap.FastSeek | libraries/FatFs/src/ff.c:2590-2623 | For every target up to the size it leaves the same file pointer, current cluster, buffered sector and buffer as the normal seek. |
| FatLinkMap.MapSeek | libraries/FatFs/src/ff.c:2594-2622 | The same for a target behind the first byte. |
| FatTruncate.ClustersForIsCeiling | libraries/FatFs/src/ff.c:2913-2927 | The number of clusters kept is the least that holds the bytes. |
| FatTruncate.CutAway | libraries/FatFs/src/ff.c:2916-2918 | Cutting at 0 releases the whole chain. |
| FatTruncate.CutBehind | libraries/FatFs/src/ff.c:2919-2928 | Otherwise the cluster of the last byte is end-marked and those behind are released. |
| FatTruncate.Truncate | libraries/FatFs/src/ff.c:2895-2934 | The file keeps exactly the clusters its new size needs and its bytes before fptr, all other clusters are freed and counted; the object still describes a file if and only if before the call its buffer was empty or held one of the kept clusters' sectors; otherwise the buffered sector lies in a cluster that is free now. |
| FatTruncate.BehindTheCut | libraries/FatFs/src/ff.c:2916-2928 | Every sector of the file behind the kept clusters lies in a cluster that the cut has freed. |
| FatTruncate.WriteRewindTruncate | libraries/FatFs/src/ff.c:2913-2918 | A byte written at the start, a seek to 0 and a cut leave, whenever the byte could be written, an empty file whose buffer is dirty for a sector of a free cluster. |
| FatMount.CheckIsExact | libraries/FatFs/src/ff.c:1879-1890 | Where the byte count does not wrap, the size check is that every entry lies inside the FAT. |
| FatMount.CheckGuardsIff | libraries/FatFs/src/ff.c:1879-1890 | For FAT32 the check guards every FAT of n entries exactly when n <= 2^30 - 128. |
| FatMount.OversizedVolumeMounts | libraries/FatFs/src/ff.c:1879-1890 | A boot record that passes although its FAT cannot hold its entries. |
| FatMount.LayoutFields | libraries/FatFs/src/ff.c:1846-1890 | What the fields of a mounted volume are, wrapping included. |
| FatMount.AreaFits | libraries/FatFs/src/ff.c:1867-1878 | The FAT copies end before the data area exactly when the system area does not wrap. |
| FatMount.MountedIsSound | libraries/FatFs/src/ff.c:1846-1900 | The mounted geometry meets what every other part relies on, the place of the root directory included, if and only if the boot record's system area does not wrap and, for FAT32, there are at most 0x0FFFFFF5 clusters, FSInfo is a reserved sector and the root cluster is at least 2. |
| FatMount.RootPlace | libraries/FatFs/src/ff.c:1876-1885 | A fixed root directory fills the sectors between FATs and data unless the system area wraps; a chained one starts at a cluster exactly when its number is at least 2. |
| FatMount.RootlessVolumeMounts | libraries/FatFs/src/ff.c:1879-1882 | A concrete boot record that is mounted, otherwise soundly, with a FAT32 root directory at cluster 0. |
| FatMount.MountsExactly | libraries/FatFs/src/ff.c:1846-1900 | A record of a partition within 32 bits is mounted, with exactly this geometry, if and only if it describes a volume of the format with it, as long as no sum wraps: one or two FATs, a power of two of sectors to a cluster, areas one behind the other, as many clusters as fit, the sub-type by the bounds 4086 and 65526, and a FAT with room for all entries. |
| FatMount.EveryVolumeMounts | libraries/FatFs/src/ff.c:1846-1900 | Every volume of the format, with one or two FATs and of each sub-type, has a boot record with which it is mounted as itself. |
| FatGetFree.RawCountIsFreeIff | libraries/FatFs/src/ff.c:2860-2878 | Counting zero entries through the raw sectors equals counting the free clusters exactly when entries 0 and 1 are not zero. |
| FatGetFree.PartialCountIsFreeIff | libraries/FatFs/src/ff.c:2852-2859 | The FAT12 scan, which stops at an invalid entry, is right exactly when no free cluster lies behind it. |
| FatGetFree.Scan12 | libraries/FatFs/src/ff.c:2852-2859 | The count of the FAT12 scan. |
| FatGetFree.RawStep | libraries/FatFs/src/ff.c:2865-2877 | The walk through the sectors stands at the next entry although it never computes its place. |
| FatGetFree.ScanRaw | libraries/FatFs/src/ff.c:2860-2878 | The count of the raw scan. |
| FatGetFree.GetFree | libraries/FatFs/src/ff.c:2845-2883 | A plausible cached count is returned as it is; otherwise the scan's count is returned and cached. |
| DirTable.LookupIs | libraries/FatFs/src/ff.c:1128-1160 | In a table that is zero behind its first zero entry, a lookup finds entry k exactly when its first byte is neither 0 nor 0xE5, its attribute byte lacks the bit 0x08, and its first eleven bytes are the name. |
| DirTable.LookupFirst | libraries/FatFs/src/ff.c:1128-1160 | In any table a lookup finds the first such entry, unless an entry that starts with 0 comes before it. |
| DirTable.AbsentIs | libraries/FatFs/src/ff.c:1128-1160 | It finds none exactly when no entry is one of the name. |
| DirTable.NewSlot | libraries/FatFs/src/ff.c:1314-1315 | A new entry is the name followed by zeros. |
| DirTable.BlankByte | libraries/FatFs/src/ff.c:1306-1306 | A blank entry is one whose first byte is 0 or 0xE5. |
| DirTable.RegisterAddsOne | libraries/FatFs/src/ff.c:1300-1323 | Writing a new name into the first blank entry adds exactly one binding, and every other lookup stays. |
| DirTable.RemoveDeletesOne | libraries/FatFs/src/ff.c:1360-1366 | Marking the entry deleted removes exactly its binding. |
| DirTable.StretchKeepsLookups | libraries/FatFs/src/ff.c:900-915 | Appending zero entries to a full table changes no lookup. |
| FatDir.OnePosition | libraries/FatFs/src/ff.c:825-930 | Cluster, sector and offset of an entry are determined by its number, so dir_sdi(i) followed by dir_next stands where dir_sdi(i + 1) does. |
| FatDir.SlotInSector | libraries/FatFs/src/ff.c:860-860 | Entry i of the table is the 32 bytes at its place in its sector. |
| FatDir.StoreSlot | libraries/FatFs/src/ff.c:1312-1322 | Storing an entry in its sector stores it in the table. |
| FatDir.TableOnDisk | libraries/FatFs/src/ff.c:825-863 | Entry i of a directory is the 32 bytes at i % 16 * 32 of the disk sector that the chain, or the fixed root, gives for i / 16; its number is below 65536. |
| FatDir.TableCount | libraries/FatFs/src/ff.c:825-930 | A directory has 16 entries to a sector, and never more than 65536. |
| FatDir.NextChainSector | libraries/FatFs/src/ff.c:887-922 | The next sector of a chained table: same cluster, next cluster, or behind the end. |
| FatDir.ZeroFill | libraries/FatFs/src/ff.c:907-915 | A new cluster is filled with zeros through the window. |
| FatDir.Dir.FollowTo | libraries/FatFs/src/ff.c:848-855 | Following the chain arrives at the cluster of the entry. |
| FatDir.Dir.Sdi | libraries/FatFs/src/ff.c:825-863 | Stands at entry idx exactly when the table has it. |
| FatDir.Dir.StretchTable | libraries/FatFs/src/ff.c:900-921 | The chain grows by one cluster of zeros, or no cluster is free and nothing changes. |
| FatDir.Dir.GrowAt | libraries/FatFs/src/ff.c:900-921 | The table gets zero entries, of which the asked one is the first. |
| FatDir.Dir.NextSector | libraries/FatFs/src/ff.c:887-922 | The next sector, across clusters and stretching. |
| FatDir.Dir.Next | libraries/FatFs/src/ff.c:873-930 | Moves to the next entry; behind the last one it reports the end exactly when it is not to stretch, or the table is the fixed root or has 65536 entries; else it stretches the table by zeros unless no cluster is free. |
| FatDir.Dir.FindName | libraries/FatFs/src/ff.c:1112-1163 | Stands at the entry the finite map binds the name to, whose bytes are the name without the volume label's bit, or reports its absence; the table is unchanged. |
| FatDir.Dir.FindBlank | libraries/FatFs/src/ff.c:1300-1309 | Stands at the first blank entry, stretching a table that has none; it fails only for a table without one that is the fixed root, has 65536 entries or finds no free cluster. |
| FatDir.Dir.PutEntry | libraries/FatFs/src/ff.c:1312-1323 | Exactly one entry of the table is replaced, and no data outside it. |
| FatDir.Dir.Register | libraries/FatFs/src/ff.c:1230-1326 | Registering an absent name adds exactly that binding, which a lookup then finds; every other lookup stays; it fails only when there is no blank entry and the table is the fixed root, has 65536 entries or finds no free cluster. |
| FatDir.Dir.Remove | libraries/FatFs/src/ff.c:1337-1371 | Exactly the binding of the current entry is deleted; every other lookup stays. |
| FatWindow.Volume.PutSector | libraries/FatFs/src/ff.c:2272-2272 | A sector outside window and FAT is written directly, and the logical disk changes there only. |
| FatWindow.Volume.GetSector | libraries/FatFs/src/ff.c:2198-2198 | A sector outside window and FAT is read directly, and is the logical disk's. |
| FatWindow.Volume.StoreBytes | libraries/FatFs/src/ff.c:669-672 | Bytes stored in the window are the logical disk's at once. |
| FatWindow.Volume.StoreData | libraries/FatFs/src/ff.c:1315-1321 | The same in the data area, the FAT untouched. |
| FatWindow.Volume.StoreFat | libraries/FatFs/src/ff.c:664-692 | Bytes of the FAT stored through the window change exactly those bytes of it. |
| FatWindow.Volume.FatRun | libraries/FatFs/src/ff.c:627-635 | Bytes of the FAT inside one sector are fetched through the window. |
| FatFile.PutSectors | libraries/FatFs/src/ff.c:2284-2285 | Several sectors in a row reach the disk. |
| FatFile.GetSectors | libraries/FatFs/src/ff.c:2175-2176 | Several sectors in a row come from the disk. |
| FatFile.File.Link | libraries/FatFs/src/ff.c:2163-2163 | get_fat for the file changes nothing the file depends on. |
| FatFile.File.WritePart | libraries/FatFs/src/ff.c:2314-2323 | Part of a sector goes to the buffer and is the file's at once. |
| FatFile.File.UpdateSize | libraries/FatFs/src/ff.c:2327-2328 | The size follows the file pointer. |
| FatFile.File.WriteMore | libraries/FatFs/src/ff.c:2250-2325 | What one more round adds to the rounds before it. |
| FatSeek.Reach | libraries/FatFs/src/ff.c:2639-2696 | The normal seek for a target behind the first byte. |
| FatSeek.Rewind | libraries/FatFs/src/ff.c:2637-2639 | The seek to the first byte. |
| FatDir.Dir.NextRoot | libraries/FatFs/src/ff.c:886-892 | In the fixed root directory the next sector is there exactly while entries are left. |
| ReadyIndex.IndexedReady.CloseSlot | CoOS/kernel/task.c:343-349 | The upper slots of all three tables move down by one. |
| FatLinkMap.ListRuns | libraries/FatFs/src/ff.c:2571-2587 | Pair by pair the table lists the chain's runs, until the chain ends, the table is full or an entry is misread. |
| FatFile.File.GetOverlaid | libraries/FatFs/src/ff.c:2175-2183 | What is read is the disk under the dirty buffer. |
| FatLinkMap.StorePair | libraries/FatFs/src/ff.c:2584-2585 | One more run is listed in the table. |
| FatTruncate.ReleaseBehind | libraries/FatFs/src/ff.c:2924-2927 | The cluster is end-marked and the chain behind it emptied. |
| FatTruncate.Cut | libraries/FatFs/src/ff.c:2913-2929 | The file's size, chain and free count after a cut, its bytes before the cut, and when the object still describes it. |
| FatGetFree.RawRound | libraries/FatFs/src/ff.c:2865-2877 | An entry is counted exactly when it reads as zero. |
| FatDir.FlushZeros | libraries/FatFs/src/ff.c:911-913 | The zero window reaches one sector of the new cluster. |
| FatDir.Dir.Load | libraries/FatFs/src/ff.c:1129-1131 | The window shows the current entry. |
| FatDir.Dir.constructor | libraries/FatFs/src/ff.c:2726-2738 | A directory object over a chain of clusters, or over the fixed root directory. |
| DelayList.SetHead | CoOS/portable/arch.c:68-74 | The first count changes and the list stays. |
| ReadySearch.ScanDown | CoOS/kernel/task.c:167-185 | The highest set bit between two bounds. |
| ReadySearch.LowMask | CoOS/kernel/task.c:212-218 | The bits of the word below the given one stay. |
| ReadyList.LinearReady.constructor | CoOS/kernel/task.c:55-85 | The ready list starts empty. |
| ReadyList.LinearReady.Reprioritize | CoOS/kernel/task.c:632-632 | A task outside the ready list gets a new priority. |
| ReadyRuns.StepBoth | CoOS/kernel/task.c:296-554 | One operation, creation with a new priority included, leaves both variants with the same list. |
| DeltaLinks.DeltaQueue.constructor | CoOS/kernel/time.c:24-24 | The list starts empty. |
| Timers.TimerTable.constructor | CoOS/kernel/timer.c:181-197 | All timers start stopped. |
| EventLists.WaitLists.constructor | CoOS/kernel/event.c:40-71 | No task waits at first. |
| KernelSteps.Detached | CoOS/kernel/event.c:377-407 | A waiting task that left its event's list and the delay list is in no list, everything else as before. |
| KernelSteps.Roused | CoOS/kernel/event.c:309-360 | Made ready again, every task is in its place. |
| KernelSteps.Disposed | CoOS/kernel/time.c:314-347 | Disposal keeps every task in its place and all counters. |
| KernelCalls.Created | CoOS/kernel/task.c:822-930 | Creating a task keeps the invariant and the semaphores. |
| KernelEffects.CreateEffect | CoOS/kernel/task.c:822-930 | The first free entry becomes a task of the priority asked for, active or waiting for nothing in particular; with none free nothing changes; no other task is seen to change. |
| KernelEffects.DeleteEffect | CoOS/kernel/task.c:946-1040 | Refused for no task, the idle task, and the running one under a lock; else the entry is the first free one, in no list, and no other task is seen to change. |
| KernelEffects.SuspendEffect | CoOS/kernel/task.c:1137-1180 | Refused for the idle task, no task, a lock or a waiting task, in this order; else the active task waits and no other is seen to change. |
| KernelEffects.AwakeEffect | CoOS/kernel/task.c:1198-1259 | Refused for the idle task, no task, an active task or one that waits for ticks or an event; else the task becomes active. |
| KernelEffects.DelayEffect | CoOS/kernel/time.c:175-198 | 0xFFFFFFFF and, but for 0 ticks, locks are refused; else the running task waits exactly the ticks, and every other delayed task keeps its own. |
| KernelEffects.PendEffect | CoOS/kernel/sem.c:171-234 | A unit is taken, or the running task waits for the semaphore in its turn, for exactly the timeout or without limit. |
| KernelEffects.AcceptEffect | CoOS/kernel/sem.c:119-148 | A unit is taken exactly when there is one, and no task waits. |
| KernelEffects.PostEffect | CoOS/kernel/sem.c:252-281 | Refused at the maximum; else the first waiting task becomes active and the others keep their turns, or with nobody waiting there is one unit more. |
| KernelEffects.TickEffect | CoOS/portable/arch.c:61-96 | Every delayed task has one tick less; those with none left become active and leave all lists, or under a lock stay until it ends. |
| KernelEffects.LockEffect | CoOS/kernel/core.c:125-128 | The count of locks goes up by one, and no task is seen to change. |
| KernelEffects.UnlockEffect | CoOS/kernel/core.c:88-109 | The count goes down by one; the last one's end makes active exactly the tasks whose disposal was put off. |
| KernelEffects.ScheduleDecides | CoOS/kernel/task.c:710-772 | The running task goes on while it is in state running and no ready task goes before it; else the head of the ready list runs, and a task still running goes behind exactly the ready ones as urgent. |
| KernelEffects.DisposeEffect | CoOS/kernel/time.c:314-347 | Exactly the tasks with no ticks left become active; the lists of waiting tasks lose those and keep their order. |
| KernelEffects.DecisionSeesSame | CoOS/kernel/task.c:710-772 | A decision exchanges ready and running tasks only. |
| KernelCalls.Deleted | CoOS/kernel/task.c:946-1040 | Deleting a task keeps them. |
| KernelCalls.Suspended | CoOS/kernel/task.c:1137-1180 | Suspending a task keeps them. |
| KernelCalls.Awoken | CoOS/kernel/task.c:1198-1259 | Awaking a task keeps them. |
| KernelCalls.Delayed | CoOS/kernel/time.c:175-198 | Delaying the running task keeps them. |
| KernelCalls.Pended | CoOS/kernel/sem.c:171-234 | Pending keeps the invariant and takes a unit exactly when there is one. |
| KernelCalls.Accepted | CoOS/kernel/sem.c:119-148 | Accepting keeps the invariant and takes a unit exactly when there is one. |
| KernelCalls.Posted | CoOS/kernel/sem.c:252-281 | Posting keeps the invariant and adds a unit exactly when there is room and nobody waits. |
| KernelCalls.Ticked | CoOS/portable/arch.c:61-96 | A tick keeps the invariant and the semaphores. |
| KernelCalls.Unlocked | CoOS/kernel/core.c:88-109 | Unlocking, with its deferred disposal, keeps them. |
| KernelRuns.StepCounts | CoOS/kernel/sem.c:119-281 | Each step takes and gives exactly what the counter shows. |
| Kernel.Scheduler.SwitchTo | CoOS/kernel/task.c:744-764 | The chosen task leaves the ready list and runs. |
| Kernel.Scheduler.Detach | CoOS/kernel/time.c:322-345 | A waiting task leaves its event's list and the delay list. |
| Kernel.Scheduler.TakeWaiter | CoOS/kernel/event.c:309-320 | The first waiting task leaves the event's list. |
| Kernel.Scheduler.PopDelay | CoOS/kernel/time.c:335-345 | A due head leaves the delay list as RemoveDelayList would take it out. |
| MutexRuns.TableAfterLeave | CoOS/kernel/mutex.c:220-259 | Leaving changes that mutex only, which becomes free or loses its first waiting task. |
| TaskList.InsertIsStable | CoOS/kernel/task.c:443-474 | Insertion keeps the ready list sorted by priority, with equals in order of arrival. |
| TaskList.ThreadIn | CoOS/kernel/task.c:433-440 | Setting the links around one place threads the task in there. |
| TaskList.ThreadOut | CoOS/kernel/task.c:542-545 | Bridging the neighbours' links takes the task out. |
| LinkSharing.InsertLeavesOthers | CoOS/kernel/time.c:59-92 | A list threaded through the shared links stays threaded, and all tasks of neither list keep null links, when a task of no list is threaded into another list. |
| LinkSharing.RemoveLeavesOthers | CoOS/kernel/time.c:111-140 | The same when a task is taken out of another list, its own links becoming null. |
| LinkSharing.SchedulerShares | CoOS/kernel/task.c:368-554 | In every state of the kernel's invariant one pair of link tables threads the ready list and the delay list and is null for every other task. |
| LinkSharing.OneLinking | CoOS/kernel/time.c:40-142 | Two lists apart determine that pair of tables. |
| LinkSharing.SharedAreMerged | CoOS/kernel/time.c:40-142 | Whatever moves changed the shared tables, they are the scheduler's two tables merged. |
| LinkSharing.AdmitLinked | CoOS/kernel/task.c:433-474 | Setting the shared links around a task's place in the ready list threads both lists of the state that follows. |
| LinkSharing.UnreadyLinked | CoOS/kernel/task.c:503-546 | So does clearing them around a task that leaves the ready list. |
| LinkSharing.DelayLinked | CoOS/kernel/time.c:66-90 | So does setting them around a task's place in the delay list. |
| LinkSharing.UndelayLinked | CoOS/kernel/time.c:114-140 | So does clearing them around a task that leaves the delay list. |
| ReadyList.LinearReady.FindPlace | CoOS/kernel/task.c:459-466 | The search stops behind the last task of a smaller or equal priority value. |
| ReadyList.LinearReady.Insert | CoOS/kernel/task.c:368-476 | The linked list becomes the sorted, stable insertion, and a decision is requested exactly when the task is the new head. |
| ReadyList.LinearReady.Remove | CoOS/kernel/task.c:491-554 | The linked list loses exactly that task. |
| ReadySearch.GetPriSeqNum | CoOS/kernel/task.c:104-131 | The binary search returns where a priority is, or where it belongs. |
| ReadySearch.GetRdyPriSeqNum | CoOS/kernel/task.c:147-193 | The highest set bit at or below its argument, or INVALID_ID exactly when there is none. |
| ReadySearch.ScanWord | CoOS/kernel/task.c:157-189 | The same within a word, byte by byte and nibble by nibble. |
| ReadySearch.ScanByte | CoOS/kernel/task.c:163-186 | The same within a byte. |
| ReadySearch.PrioRemap | CoOS/kernel/task.c:208-233 | The bits from its argument on tell which priorities have a ready task; those below keep telling it. |
| ReadyIndex.IndexFindsPlace | CoOS/kernel/task.c:400-431 | The task the bitmap and the table name is the one the linear search stops behind. |
| ReadyIndex.LastAfterRemove | CoOS/kernel/task.c:503-553 | Which task is the last of its priority after a removal. |
| ReadyIndex.OpenRegistered | CoOS/kernel/task.c:299-310 | A new slot keeps the priority table sorted, with each slot's count the number of tasks of its priority. |
| ReadyIndex.IndexedReady.constructor | CoOS/kernel/task.c:55-85 | With no task, no priority is registered, whatever priorities the free entries hold. |
| ReadyIndex.IndexedReady.Reprioritize | CoOS/kernel/task.c:873-873 | A table entry that is no task gets a priority; the index and the list stay right. |
| ReadyIndex.IndexedReady.FindBefore | CoOS/kernel/task.c:400-431 | The index gives the task to insert behind, or that there is none. |
| ReadyIndex.IndexedReady.Link | CoOS/kernel/task.c:411-440 | The task is linked in there. |
| ReadyIndex.IndexedReady.Insert | CoOS/kernel/task.c:377-440 | The binary-index variant inserts exactly where the linear search does, keeping the index right. |
| ReadyIndex.IndexedReady.Remove | CoOS/kernel/task.c:491-554 | It removes exactly that task, keeping the index right. |
| ReadyIndex.IndexedReady.Unlink | CoOS/kernel/task.c:503-546 | The links, and whether the priority lost its last ready task or got another one. |
| ReadyIndex.IndexedReady.OpenSlot | CoOS/kernel/task.c:301-310 | The upper slots of all three tables move up by one. |
| ReadyIndex.IndexedReady.ActiveTaskPri | CoOS/kernel/task.c:296-317 | The priority is registered, or counted once more; the ready list and its links are untouched. |
| ReadyIndex.IndexedReady.DeleteTaskPri | CoOS/kernel/task.c:335-352 | The priority is counted once less, and its slot removed with its last task. |
| ReadyRuns.OneThreading | CoOS/kernel/task.c:433-474 | The list determines every link, so equal lists have equal links. |
| ReadyRuns.RunBoth | CoOS/kernel/task.c:296-554 | Over every run of task creation with any priority, insertion, removal and deletion the two variants hold the same sorted stable list, the same links and the same request for a decision. |
| DeltaList.ExactIffInReach | CoOS/kernel/time.c:52-93 | An insertion gives the new entry exactly its ticks and changes no other entry's, for every list and count, if and only if the new time lies less than 2^31 behind the first entry and at most 2^31 before its successor. |
| DeltaList.SmallTimesInReach | CoOS/kernel/time.c:52-93 | That is so whenever all times are below 2^31. |
| DeltaList.RemoveIsExact | CoOS/kernel/time.c:111-140 | A removal changes no other entry's time unless two counts together reach 2^32. |
| DeltaLinks.DeltaQueue.Search | CoOS/kernel/time.c:55-92 | The search ends at the first entry with a negative signed difference, or at the last one. |
| DeltaLinks.DeltaQueue.LinkBefore | CoOS/kernel/time.c:66-81 | The links and the two counts when the entry goes before another. |
| DeltaLinks.DeltaQueue.LinkLast | CoOS/kernel/time.c:84-90 | The links and the count when it goes behind the last one. |
| DeltaLinks.DeltaQueue.LinkFirst | CoOS/kernel/time.c:47-51 | An empty list gets its first entry. |
| DeltaLinks.DeltaQueue.Insert | CoOS/kernel/time.c:40-97 | The linked table becomes the one with the entry inserted at the searched place; also lines 41-101 of timer.c. |
| DeltaLinks.DeltaQueue.Unlink | CoOS/kernel/time.c:111-140 | The linked table loses the entry, its count going to the next one; also lines 115-150 of timer.c. |
| DelayRuns.DelayGivesTicks | CoOS/kernel/time.c:40-97 | A delay of n ticks in reach gives the task exactly n ticks. |
| DelayRuns.StepTask | CoOS/portable/arch.c:66-77 | What each operation does to a waiting task's remaining ticks. |
| DelayRuns.NeverEarly | CoOS/portable/arch.c:66-77 | In no run, locked ticks included, does a delayed task become ready before its ticks have passed. |
| DelayRuns.ExactlyOnTime | CoOS/portable/arch.c:66-77 | When no tick is deferred a task delayed by r ticks leaves the list at exactly the r-th tick. |
| DelayList.PopDue | CoOS/kernel/time.c:335-345 | A due head leaves the list with an invalid count, all other counts kept. |
| DelayList.TimeDispose | CoOS/kernel/time.c:314-347 | Exactly the leading due tasks leave, in order, each with an invalid count. |
| DelayList.Tick | CoOS/kernel/time.c:362-373 | One tick of lines 66-77 of arch.c: the first count goes down; due tasks leave, or a locked scheduler is asked to let them go later. |
| TimerRuns.InsertKeepsZeros | CoOS/kernel/timer.c:41-101 | Reinserting a positive count never lengthens the due prefix, whatever its size: below 2^31 it goes behind the due entries, otherwise before them, if there are any. |
| TimerRuns.FiresAllDueIff | CoOS/kernel/timer.c:394-420 | A disposal fires all due timers, in order and each once, if and only if no due timer but the last goes back with a reload of 2^31 or more. |
| TimerRuns.FireEffect | CoOS/kernel/timer.c:394-420 | While times and reloads are below 2^31, a disposal fires exactly the due timers, each once; periodic ones wait a full reload, one-shot ones are out, and no other timer's time changes. |
| TimerRuns.TickTimer | CoOS/portable/arch.c:80-92 | While times and reloads are below 2^31, one unlocked tick takes one tick from a timer, or fires it once when its time is up. |
| TimerRuns.LockedTickTimer | CoOS/portable/arch.c:80-92 | A tick under a lock fires nothing and takes one tick from every timer, unless the first one is already due. |
| TimerRuns.PeriodicFiresOnTime | CoOS/portable/arch.c:80-92 | Over every run without a deferred tick, of times and reloads below 2^31, a periodic timer with r ticks to go fires at exactly the ticks r + k * reload, once each. |
| Timers.TimerTable.Start | CoOS/kernel/timer.c:216-238 | A stopped timer with a positive count goes into the list; a running one is left alone. |
| Timers.TimerTable.Stop | CoOS/kernel/timer.c:254-277 | A running timer leaves the list. |
| Timers.TimerTable.FireOne | CoOS/kernel/timer.c:401-417 | One due timer leaves, a periodic one going back with its reload. |
| Timers.TimerTable.TmrDispose | CoOS/kernel/timer.c:394-420 | Terminates for positive reloads of any size; list and firings are those of firing the due head until none is left. |
| Timers.TimerTable.Tick | CoOS/portable/arch.c:80-92 | One tick of the timer list, deferred under a lock (lines 434-445 of timer.c). |
| EventLists.WaitsChanged | CoOS/kernel/event.c:213-407 | Changing one event's list changes the links of its own tasks only, and every other list stays threaded. |
| EventLists.WaitLists.Append | CoOS/kernel/event.c:229-244 | A first-come list gets the task at its end. |
| EventLists.WaitLists.InsertByPriority | CoOS/kernel/event.c:250-283 | A priority list gets the task behind those as urgent, stably. |
| EventLists.WaitLists.FindPlace | CoOS/kernel/event.c:263-274 | The search for that place. |
| EventLists.WaitLists.TakeFirst | CoOS/kernel/event.c:309-320 | The first task leaves its list. |
| EventLists.WaitLists.Drop | CoOS/kernel/event.c:377-407 | A task leaves its list wherever it stands. |
| KernelState.AdmitSound | CoOS/kernel/task.c:368-476 | Moving a task of no list to the ready list keeps every task's state, count and event in agreement with the lists it is in. |
| KernelState.UnreadySound | CoOS/kernel/task.c:491-554 | So does taking one out of the ready list. |
| KernelState.DelaySound | CoOS/kernel/time.c:40-97 | So does starting a delay that the signed search of the delay list reads right, up to 0xFFFFFFFE ticks. |
| KernelState.UndelaySound | CoOS/kernel/time.c:111-142 | So does leaving the delay list. |
| KernelState.AwaitSound | CoOS/kernel/event.c:213-288 | So does waiting for a semaphore that is used up. |
| KernelState.UnawaitSound | CoOS/kernel/event.c:377-407 | So does leaving an event's list. |
| KernelState.BriefInsert | CoOS/kernel/time.c:40-97 | In the table of counts a delay in reach gives exactly its ticks and every other task keeps its own. |
| KernelSteps.ScheduleSettles | CoOS/kernel/task.c:710-772 | After an unlocked decision the running task is in state running, no ready task is more urgent, and every task is in its place. |
| KernelSteps.AdmitPoised | CoOS/kernel/task.c:443-456 | A ready task more urgent than the running one is never there without a decision being requested. |
| KernelSteps.DisposePoised | CoOS/kernel/time.c:314-347 | Making all due tasks ready, out of their event lists, keeps places and the request. |
| KernelRuns.StartedInv | CoOS/kernel/core.c:211-218 | The state CoStartOS hands over satisfies the invariant. |
| KernelRuns.EveryTaskInOnePlace | CoOS/kernel/task.c:710-1259 | Over every run of create, delete, suspend, awake, delay, pend, accept, post, tick, lock and unlock, with every delay and timeout in reach of the signed search, each task is in exactly one place: free, ready, running or waiting; it is in the delay list iff its count is valid and in an event's list iff it names that event; no ready task outranks the running one while unlocked. |
| KernelRuns.ShortTimesAllowed | CoOS/kernel/time.c:52-93 | Every delay and timeout is in reach while all are below 2^31. |
| KernelRuns.FarTimeoutLosesTask | CoOS/kernel/sem.c:214-222 | With one task due in d ticks, a timeout of d + 2^31 or more: nothing becomes due in d + 1 ticks, and when the later task is then posted to, the first one is in the delay list with the count that says it is not. |
| KernelRuns.UnitsConserved | CoOS/kernel/sem.c:119-281 | Over every such run, timeouts and deletions included: initial units + posts = takes + counter, counter <= maximum, and tasks wait only when the counter is 0. |
| KernelRuns.PostServesTheFirst | CoOS/kernel/event.c:303-361 | A post serves the first waiting task, the most urgent one in a priority list; it leaves the delay list and becomes ready or runs; the others keep their turn. |
| KernelRuns.TimeoutsStayValid | CoOS/kernel/sem.c:214-222 | After any timeout all delay counts are valid if and only if the timeout is not 0xFFFFFFFF, a value CoPendSem accepts and CoTickDelay refuses. |
| Kernel.Scheduler.constructor | CoOS/kernel/core.c:211-218 | The linked lists of the started system represent that state. |
| Kernel.Scheduler.Admit | CoOS/kernel/task.c:368-476 | InsertToTCBRdyList on the links and states makes that move. |
| Kernel.Scheduler.Unready | CoOS/kernel/task.c:491-554 | RemoveFromTCBRdyList, and the state that follows. |
| Kernel.Scheduler.StartDelay | CoOS/kernel/time.c:40-97 | InsertDelayList on the links, counts and states. |
| Kernel.Scheduler.StopDelay | CoOS/kernel/time.c:111-142 | RemoveDelayList, the count made invalid. |
| Kernel.Scheduler.Await | CoOS/kernel/event.c:213-288 | EventTaskToWait, either sort order. |
| Kernel.Scheduler.Unawait | CoOS/kernel/event.c:377-407 | RemoveEventWaittingList. |
| Kernel.Scheduler.WakeFirst | CoOS/kernel/event.c:303-361 | EventTaskToRdy for a semaphore: the first waiter leaves event and delay list and becomes ready. |
| Kernel.Scheduler.Schedule | CoOS/kernel/task.c:710-772 | The decision with its context switch: blocked task replaced, more urgent task first, equal task when the slice is over, else nothing. |
| Kernel.Scheduler.Leave | CoOS/kernel/core.c:88-109 | The decision at the end of a call is left out under a lock of the application. |
| Kernel.Scheduler.TimeDispose | CoOS/kernel/time.c:314-347 | Every due task leaves its event's list and the delay list and becomes ready. |
| Kernel.Scheduler.CreateTask | CoOS/kernel/task.c:822-930 | A free entry becomes a ready or waiting task, or creation fails with none free; the invariant holds after it. |
| Kernel.Scheduler.DelTask | CoOS/kernel/task.c:946-1040 | Each refusal with its code; else the task leaves every list it is in and its entry becomes free. |
| Kernel.Scheduler.SuspendTask | CoOS/kernel/task.c:1137-1180 | Each refusal with its code; else the ready or running task waits. |
| Kernel.Scheduler.AwakeTask | CoOS/kernel/task.c:1198-1259 | Each refusal with its code; else the suspended task becomes ready. |
| Kernel.Scheduler.TickDelay | CoOS/kernel/time.c:175-198 | Each refusal with its code; else the running task is delayed by any number of ticks in reach. |
| Kernel.Scheduler.PendSem | CoOS/kernel/sem.c:171-234 | A unit is taken, or the running task waits, with or without timeout; in locked state it is refused. |
| Kernel.Scheduler.AcceptSem | CoOS/kernel/sem.c:119-148 | A unit is taken, or there is none. |
| Kernel.Scheduler.PostSem | CoOS/kernel/sem.c:252-281 | Full, one unit more, or the first waiting task served. |
| Kernel.Scheduler.SysTick | CoOS/portable/arch.c:61-96 | The tick of the delay list, disposal deferred under a lock, and the decision. |
| Kernel.Scheduler.SchedLock | CoOS/kernel/core.c:125-128 | One lock more. |
| Kernel.Scheduler.SchedUnlock | CoOS/kernel/core.c:88-109 | One lock less; the last one serves the deferred disposal and then decides. |
| MutexRuns.EnterQueues | CoOS/kernel/mutex.c:108-178 | A free mutex gets the running task as owner and names it in hipriTaskID; at an occupied one the task waits behind the others, and the owner becomes as urgent as it, moved in the ready list, with hipriTaskID naming the task. |
| MutexRuns.LeaveHandsOver | CoOS/kernel/mutex.c:226-275 | The mutex goes to the first waiting task, at least as urgent as before and as every other waiting task; the former owner gets back the priority it entered with. |
| MutexRuns.LeaveRestoresIff | CoOS/kernel/mutex.c:216-253 | After leaving, the former owner has the priority it entered with if and only if it never lost it or a task was waiting. |
| LostPriority.HandOverIsLeastIff | CoOS/kernel/mutex.c:226-246 | On a hand-over the new owner gets the smallest priority value among the waiting tasks if and only if hipriTaskID names the former owner or the former owner's priority is that value. |
| LostPriority.HandOverNames | CoOS/kernel/mutex.c:226-253 | After a hand-over hipriTaskID still names whom it named, the former owner included, unless it named the former owner and the new one is not the most urgent that waited; then it names the first of the most urgent. |
| LostPriority.PriorityNotGivenBack | CoOS/kernel/mutex.c:216-275 | A run from the initial state in which tasks of priority 5, 7 and 9 take a mutex in turn, nobody is ever raised, and the last task ends with no mutex and priority 7: hipriTaskID still names the first owner. |
| MutexRuns.EnterKeeps | CoOS/kernel/mutex.c:83-181 | Entering keeps owners, waiting tasks and priorities in agreement. |
| MutexRuns.LeaveKeeps | CoOS/kernel/mutex.c:198-278 | Leaving keeps them in agreement. |
| MutexRuns.EveryMutexIsSound | CoOS/kernel/mutex.c:83-278 | Over every run of enter, leave, switch, sleep and wake: a mutex is occupied iff it has an owner, which owns no other; no waiting task is more urgent than the owner; no task is less urgent than it was created. |
| MutexRuns.OwnersInOrderOfArrival | CoOS/kernel/mutex.c:83-278 | Over every run the tasks become owners in the order in which they came, followed by those still waiting. |
| Mutexes.MutexTable.constructor | CoOS/kernel/mutex.c:43-61 | No task but the idle one has run, and mutexes start free. |
| Mutexes.MutexTable.ChangePriority | CoOS/kernel/task.c:632-639 | The new priority and the task's new place in the linked ready list. |
| Mutexes.MutexTable.SetPriority | CoOS/kernel/task.c:575-648 | The idle task and an equal priority are left alone; else the priority changes. |
| Mutexes.MutexTable.EnterMutexSection | CoOS/kernel/mutex.c:83-181 | The call makes the enter step, or is refused with its code. |
| Mutexes.MutexTable.FindBest | CoOS/kernel/mutex.c:233-243 | The smallest priority value among the waiting tasks, and whom hipriTaskID names. |
| Mutexes.MutexTable.LeaveMutexSection | CoOS/kernel/mutex.c:198-278 | The call makes the leave step. |
| Mutexes.MutexTable.Schedule | CoOS/kernel/task.c:710-772 | The scheduler's decision makes the dispatch step exactly when the running task sleeps or waits or a ready one goes before it. |
| Mutexes.MutexTable.Unlink | CoOS/kernel/task.c:744-764 | The head of the ready list leaves it and runs. |
| Mutexes.MutexTable.Sleep | CoOS/kernel/task.c:1167-1178 | The running task stops being in state running; the mutexes and lists stay. |
| Mutexes.MutexTable.Wake | CoOS/kernel/task.c:1254-1257 | A sleeping task goes to its place in the ready list. |
| MailQueue.RingStore | CoOS/kernel/queue.c:342-348 | Storing at the tail puts a mail behind those in the ring, wrap-around included. |
| MailQueue.RingTake | CoOS/kernel/queue.c:177-183 | Taking at the head removes the oldest mail, wrap-around included. |
| MailQueue.JoinsInTurn | CoOS/kernel/event.c:213-288 | A task that comes to wait goes behind all others, or behind exactly those as urgent; the others keep their order. |
| MailQueue.MailsConserved | CoOS/kernel/queue.c:151-353 | Over every run, timeouts included: mails posted = mails delivered, in order, followed by those in the queue; never more than its size; tasks wait only while it is empty. |
| MailQueue.WaitersConserved | CoOS/kernel/queue.c:244-353 | Over every run the tasks that found no mail are those that posts served, those that gave up and those that still wait; none is lost and none served twice. |
| MailQueue.ServedInOrderOfArrival | CoOS/kernel/event.c:229-244 | In a first-come queue without timeouts they are served in the order in which they came. |
| MailQueue.Queue.constructor | CoOS/kernel/queue.c:42-83 | A new queue is empty. |
| MailQueue.Queue.Extract | CoOS/kernel/queue.c:174-187 | The oldest mail leaves the ring. |
| MailQueue.Queue.Store | CoOS/kernel/queue.c:342-348 | A mail goes behind the others. |
| MailQueue.Queue.Post | CoOS/kernel/queue.c:316-353 | Full, one mail more, or the first waiting task leaves the list and gets the mail (lines 333-343 of event.c); the others keep their turns. |
| MailQueue.Queue.Accept | CoOS/kernel/queue.c:151-194 | The oldest mail, or none. |
| MailQueue.Queue.Pend | CoOS/kernel/queue.c:244-282 | Refused under a lock; else the oldest mail, or the task is in the waiting list behind all others, or behind exactly those as urgent, and the others keep their order. |
| MailQueue.Queue.Quit | CoOS/kernel/time.c:323-326 | A task that times out leaves the waiting list without a mail, and the others keep their order. |

## Left out

- Tables as sequences: the fields of task, timer, event and mutex records are sequence-valued fields that methods reassign, so aliasing of C pointers into those tables is not modelled; heap, buffers and mail cells are arrays changed in place.
- Device failures: the disk never fails, so error flags, the aborts that follow a failed transfer, `get_fattime` and locking macros are not modelled.
- Path following, name creation, `f_open`, `f_unlink`, `f_mkdir` and the other calls built on directories, long file names, formatting and forwarding: nothing harder than the layers below them.
- FatMount.Layout: starts behind the signature and partition checks and leaves out the FSInfo sector's counts, which are taken over unchecked; FatGetFree.GetFree states that a plausible cached count is returned as it is.
- FatTruncate.Truncate: when the buffered sector was released it does not claim that the object describes a file, because the code does not discard that buffer.
- FatDir.Dir.constructor: a FAT32 volume whose root cluster is 0 or 1, which the mount lets through, is excluded, as is any volume the mount does not lay out soundly.
- FatFile.File.Write: the time stamp and the write-back of the directory entry belong to `f_sync`, which is not part of this model.
- FatDir.Dir.Register: one entry per name, as without long names; the fields behind the name are zero as the code leaves them.
- KernelHeap.Heap.CoKfree: only for null, addresses outside the heap and live pointers; the code's walk is no sound test for others.
- KernelHeap.Heap.CoKmalloc: sizes above 0xFFFFFFF4, for which the rounding wraps, are excluded.
- KernelHeap.Heap.WalkToBlock: changes nothing; that the walk ends at the block of every live pointer is the termination of its loops.
- ReadyIndex.IndexedReady.DeleteTaskPri: for a task outside the ready list, as CoDelTask calls it; CoSetPriority, which changes the priority between deregistering and removal, is modelled for the order-list configuration only.
- ReadySearch.PrioRemap: bits beyond the registered priorities may keep old values, as in the code.
- Kernel.Scheduler.Schedule: the time-slice test of round robin is an input (`slice`) to every decision, so OSCheckTime is not modelled; neither are stacks and their check.
- Kernel.Scheduler.CreateTask: the checks of the entry point, the stack and the lowest priority are left out.
- Kernel.Scheduler.PendSem: its result after the task resumes (taken or timed out) is left out, with the mark in `pmail` it is read from; the unlocked gap between finding no unit and starting to wait is one step; a timeout out of reach of the signed search, or 0xFFFFFFFF, is excluded, for after it the invariant fails.
- Kernel.Scheduler.TickDelay: a delay out of reach is excluded for the same reason (0xFFFFFFFF is refused as in the code); the idle task neither delays nor pends.
- KernelCalls.Delayed: as Kernel.Scheduler.TickDelay.
- KernelCalls.Pended: as Kernel.Scheduler.PendSem.
- Kernel.Scheduler.DelTask: tasks that hold or await a mutex or wait for a flag are not modelled; deleting an event, resetting a delay, and the nesting and deferred posts of interrupts neither.
- Kernel.Scheduler.SchedLock: the count of locks does not wrap at 256.
- Kernel.Scheduler.WakeFirst: for semaphores; mailboxes are queues of one mail.
- LinkSharing.SchedulerShares: for the ready and the delay list; the TCBnext links that also chain the free entries and a mutex's waiting tasks are not joined in.
- Mutexes.MutexTable.EnterMutexSection: the waiting tasks of a mutex are a sequence, not links (the code leaves a stale back link in a new head, which only the excluded RemoveMutexList reads); an owner waiting for an event is not moved in that event's list; a task holds or awaits one mutex at most.
- MutexRuns.EnterKeeps: as Mutexes.MutexTable.EnterMutexSection.
- MutexRuns.EnterQueues: an owner that waits in a list sorted by priority keeps its place there.
- Mutexes.MutexTable.LeaveMutexSection: leaving a mutex that is free, for which the code would write beside its task table, is excluded.
- Mutexes.MutexTable.SetPriority: for a task that names no mutex and waits for no event, as a task leaving a mutex does.
- MailQueue.Queue.Post: the waiting list is a sequence; its links are those of EventLists.
- Timers.TimerTable.Start: a timer with count 0, which the code marks running without listing it, is excluded, as are periodic reloads of 0, CoSetTmrCnt and callbacks that start or stop timers.
- Event flags, mailboxes, the fixed-size memory pools, deferred service requests and formatted output: easier relatives of what is modelled.
