# FoxOS kernel: verified models

Dafny models of four parts of the FoxOS kernel that keep data structures
consistent over arbitrary runs, with proofs of what they keep.
`dafny verify dfyconfig.toml` checks everything.

**FAT volume** (`fat_*.dfy`). FatFs as the kernel compiles it: FAT12, FAT16 and
FAT32, 512-byte sectors, no exFAT, no long names, one sector buffer per open
file. Each layer is proved against a simpler one. The one-sector write-back
window with its FAT mirror is invisible behind the *view*: the disk overlaid by a
dirty window (`fat_volume`). Packed entries behave like an array (`fat_table`).
Releasing, stretching and searching, first stated on arrays (`fat_chains`) and
then proved of the code (`fat_alloc`, `fat_count`), keep chains acyclic,
end-marked and disjoint over whole runs (`fat_runs`). Files are byte sequences
with a position (`fat_layout`, `fat_io`, `fat_file`, `fat_write`, `fat_read`,
`fat_seek`, `fat_truncate`), and an operation on one file leaves all others alone
(`fat_whole`), open ones with their buffers included (`fat_shared`). `fat_mount`
covers the geometry checks and the FSInfo sector.

**Kernel heap** (`heap_*.dfy`). The heap as a sequence of segments
(`heap_model`), the stores into headers that implement it (`heap_links`), the code
itself over a memory of headers and bytes (`heap`), and whole runs
(`heap_runs`).

**Frames and page tables** (`bitmap`, `frames_*`, `page_*`). The page bitmap,
the frame allocator with its counters, entries and indices, the radix tree of
tables, and the page-table manager that builds it with frames from the
allocator.

**Scheduling** (`sched_*`, `scheduler`, `spinlock`, `ap_handoff`). The rotating
queues, one timer interrupt as a function on a CPU's queue, runs of all CPUs, the
code, the spinlock under all interleavings of its instructions, and the status
protocol by which functions are handed to application processors.

Code that updates objects in place is a class here, proved against functions on
values; concurrent code is a state machine whose steps are the atomic accesses.
Machine words are integers, and wrap-around is written out where the code relies
on it or does not check for it.

What the code does, where that is less than one might expect, is stated exactly:

- `f_getfree` counts entries 0 and 1 of a FAT16 or FAT32 table among the free
  ones if they are 0 (`FatCount.ScanIsExact`).
- The size of the system area is added up in 32 bits without a check
  (`FatMount.MountedGeometry`, failing on `FatMount.WrappedVolumeMounts`), and
  writing FSInfo to the second sector of the volume overwrites the table if only
  one sector is reserved (`FatMount.FsInfoAndTable`, failing on
  `FatMount.OneReservedSectorMounts` with `FatMount.SyncOverTable`).
- `f_truncate` can leave the file's clean sector buffer naming a sector of a
  cluster it has just released (`FatShared.BufferLeftBehind`). Once another file
  writes there, the buffer is stale (`FatShared.TruncateThenOverwrite`), and in no
  other case is an open file disturbed by an operation on another
  (`FatShared.FileStays`).
- `request_pages` may jump over the only fitting run
  (`FramesModel.CompleteOnlyForOne`, failing on `FramesModel.MissedRun`); the
  bitmap's bounds check admits one index too many, so the byte behind the bitmap
  is part of the model.
- `get_flag` tests bit 0 for every flag
  (`PageEntries.FlagReadIsRightForPresentOnly`).
- `map_range` advances by 1000 and not 0x1000 bytes, which maps every page of the
  range except possibly the last (`PageRanges.RangeMappedExactly`, failing on
  `PageRanges.LastPageMissed`).

## Model

| member | source | states |
|---|---|---|
| FatVolume.FirstFatIsInterval | src/fs/fat32/ff.cpp:1035 | the unsigned test winsect - fatbase < fsize picks out exactly the sectors of the first FAT, despite wrap-around |
| FatVolume.StoreKeepsMirror | src/fs/fat32/ff.cpp:1034-1037 | a store outside the second FAT keeps both FAT copies equal |
| FatVolume.DiskRead | src/fs/fat32/diskio.cpp:122-164 | one sector of the disk into the buffer; longer transfers are FatIo.ReadRun |
| FatVolume.DiskWrite | src/fs/fat32/diskio.cpp:174-216 | one sector of the disk replaced; longer transfers are FatIo.WriteRun |
| FatVolume.SyncWindow | src/fs/fat32/ff.cpp:1025-1044 | the volume seen as disk overlaid by a dirty window is unchanged, the window is clean, equal FAT copies stay equal |
| FatVolume.MoveWindow | src/fs/fat32/ff.cpp:1047-1068 | the window holds the sector asked for and the volume seen is unchanged, whatever the window held before; equal FAT copies stay equal |
| FatVolume.PokeWindow | src/fs/fat32/ff.cpp:1226-1228 | bytes changed in the window appear in the volume seen, and in the mirror copy if the window lies in the first FAT |
| FatTable.EntryInside | src/fs/fat32/ff.cpp:3502-3509 | the size check at mount keeps every entry of every sub-type, read as 2 or 4 bytes, inside the first FAT |
| FatTable.GetFat | src/fs/fat32/ff.cpp:1131-1199 | the entry of the table seen through the window for every valid cluster, 1 otherwise; the volume seen is unchanged |
| FatTable.PutFat | src/fs/fat32/ff.cpp:1209-1258 | afterwards the table is the old one updated at the one entry, truncated to its width; no byte outside the entry's own changes; invalid clusters are refused without effect |
| FatTable.EntryReadOverWrite | src/fs/fat32/ff.cpp:1209-1258 | read-over-write for 12-, 16- and 28-bit entries: the written entry reads back truncated, every other one is unchanged, even when FAT12 neighbours share a byte or an entry straddles sectors |
| FatTable.SharedByte12 | src/fs/fat32/ff.cpp:1227-1232 | writing a FAT12 entry leaves the neighbour that shares its nibble byte as it was |
| FatTable.TableReadOverWrite | src/fs/fat32/ff.cpp:1209-1258 | the same for the whole table at once |
| FatTable.TopNibblesSurvive | src/fs/fat32/ff.cpp:1249-1251 | the top four bits of every FAT32 entry survive every write |
| FatTable.EndMarkReadsAsEnd | src/fs/fat32/ff.cpp:1570 | 0xFFFFFFFF reads back as at least n_fatent on every sub-type |
| FatChains.ReleaseFreesReachable | src/fs/fat32/ff.cpp:1424-1456 | on every FAT content, cyclic ones included, the release loop succeeds exactly if no entry on the way is 1, and then exactly the entries reachable from the first cluster become 0 |
| FatChains.FreeCountAfterUpdate | src/fs/fat32/ff.cpp:1433-1436 | how one entry write moves the number of free clusters |
| FatChains.ReplacedWellFormed | src/fs/fat32/ff.cpp:1399-1585 | exchanging one file's chain for another made of its own and free clusters keeps all chains acyclic, end-marked, pairwise disjoint and covering |
| FatChains.ChainsUnique | src/fs/fat32/ff.cpp:1424-1456 | two complete chains with the same first cluster are equal, so a file's first cluster determines its chain |
| FatChains.StartsFromOldChain | src/fs/fat32/ff.cpp:1399-1585 | the chain an operation on a file replaces is the one the volume has under the file's first cluster, and a cluster newly taken as first is the first of no file |
| FatChains.NewChainWellFormed | src/fs/fat32/ff.cpp:1504-1506 | a free cluster that gets the end mark is a new chain beside the others |
| FatChains.StretchWellFormed | src/fs/fat32/ff.cpp:1570-1573 | marking a free cluster as end and linking it from the last one appends exactly it to that chain and to no other |
| FatChains.ReleaseWellFormed | src/fs/fat32/ff.cpp:1423-1456 | releasing from the head removes that chain and no other |
| FatChains.CutWellFormed | src/fs/fat32/ff.cpp:1417-1456 | releasing what follows pclst leaves the chain ending at pclst and the others unchanged |
| FatChains.ProbeOutcome | src/fs/fat32/ff.cpp:1556-1569 | what one probe of the wrapping search establishes; the last probe is the start cluster itself |
| FatChains.DecisionIsUnique | src/fs/fat32/ff.cpp:1504-1569 | the declarative rule of which cluster create_chain answers with has one solution |
| FatChains.AnswerFacts | src/fs/fat32/ff.cpp:1504-1569 | 0 is answered only when nothing is free, 1 only when an entry is 1 |
| FatChains.TakeFacts | src/fs/fat32/ff.cpp:1504-1569 | a cluster handed out was free and, when stretching, follows the last one |
| FatAlloc.RemoveChain | src/fs/fat32/ff.cpp:1399-1485 | table and free_clst change exactly as a release from the declarative model; nothing outside the FAT changes; it terminates on every FAT content |
| FatAlloc.ReleaseOne | src/fs/fat32/ff.cpp:1425-1436 | one round of the release loop: entry zeroed unless 0 or 1, free_clst counted up while below its bound |
| FatAlloc.ReleaseLoop | src/fs/fat32/ff.cpp:1424-1456 | the whole loop, proved to terminate because each round zeroes a non-zero entry |
| FatAlloc.SearchFree | src/fs/fat32/ff.cpp:1556-1569 | the wrapping search from any start: the first free cluster in cyclic order, 0 only if none is free, 1 only if an entry 1 comes first |
| FatAlloc.ChooseCluster | src/fs/fat32/ff.cpp:1504-1569 | follow, stretch or start a chain: the answer is the one the declarative rule allows |
| FatAlloc.TakeCluster | src/fs/fat32/ff.cpp:1570-1573 | end mark on the new cluster, link from the old last one |
| FatAlloc.CreateChain | src/fs/fat32/ff.cpp:1494-1585 | chosen cluster, table, last_clst and free_clst exactly as the declarative step; nothing outside the FAT changes |
| FatCount.ScanPacked | src/fs/fat32/ff.cpp:4774-4781 | the FAT12 scan counts exactly the free clusters and fails exactly if an entry is 1 |
| FatCount.ScanWide | src/fs/fat32/ff.cpp:4805-4821 | the FAT16/32 scan, sector by sector, counts the zero entries of the whole table, entries 0 and 1 included |
| FatCount.ZerosAreFree | src/fs/fat32/ff.cpp:4805-4821 | zero entries of the table are the free clusters plus the zeros among entries 0 and 1 |
| FatCount.ScanIsExact | src/fs/fat32/ff.cpp:4805-4826 | so the count is the number of free clusters if and only if the volume is FAT12 or entries 0 and 1 are non-zero |
| FatCount.GetFree | src/fs/fat32/ff.cpp:4768-4829 | a valid free_clst is returned without a scan; otherwise the scan's count is returned and stored |
| FatRuns.NoErrorMarks | src/fs/fat32/ff.cpp:1399-1585 | a FAT of well-formed chains has no entry equal to 1 |
| FatRuns.CreateKeepsGood | src/fs/fat32/ff.cpp:1494-1585 | create_chain appends exactly one free cluster to exactly one chain, or starts one, and keeps the chains well formed and a valid free_clst exact |
| FatRuns.CreateIsComplete | src/fs/fat32/ff.cpp:1504-1569 | on such a FAT create_chain answers 0 exactly if no cluster is free, never 1, and an existing successor exactly if there is one |
| FatRuns.RemoveKeepsGood | src/fs/fat32/ff.cpp:1399-1485 | remove_chain succeeds, removes or cuts exactly one chain and keeps a valid free_clst exact |
| FatRuns.StepKeepsGood | src/fs/fat32/ff.cpp:1399-1585 | the same for every operation, scans included, and which one chain the operation started, stretched, cut or removed |
| FatRuns.RunStaysGood | src/fs/fat32/ff.cpp:1399-1585 | after any sequence of create_chain, remove_chain and scans all chains are acyclic, end-marked and disjoint, and a valid free_clst is the number of free clusters |
| FatMount.MountedGeometry | src/fs/fat32/ff.cpp:3460-3509 | a boot sector that passes yields a consistent geometry if and only if the size of the system area does not exceed 32 bits (line 3483 adds without a check) |
| FatMount.WrappedVolumeMounts | src/fs/fat32/ff.cpp:3466-3485 | a boot sector whose system area of 2^32 + 32 sectors is taken for 32: it mounts, and no disk of any size makes its geometry sound |
| FatMount.FsInfoRoundTrip | src/fs/fat32/ff.cpp:1088-1094 | what sync_fs writes into the FSInfo sector, mount reads back |
| FatMount.SyncFs | src/fs/fat32/ff.cpp:1078-1104 | window written back; FSInfo written exactly on FAT32 when it is enabled and stale; nothing else changes |
| FatMount.FsInfoAndTable | src/fs/fat32/ff.cpp:1086-1096 | writing FSInfo leaves the file allocation table alone if and only if more than one sector is reserved, or the table's first sector happens to hold those values already; with one reserved sector entry 0 becomes the lead signature's low bits |
| FatMount.SyncOverTable | src/fs/fat32/ff.cpp:1085-1096 | with one reserved sector, FSInfo enabled and hints changed, sync_fs replaces entry 0 of the table by the lead signature's low bits |
| FatMount.OneReservedSectorMounts | src/fs/fat32/ff.cpp:3476-3523 | a FAT32 boot sector with one reserved sector and BPB_FSInfo32 equal to 1 that mounts with a sound geometry: the first FSInfo destroys the media type in its entry 0 |
| FatLayout.Clst2SectIs | src/fs/fat32/ff.cpp:1114-1122 | first sector of every valid cluster, 0 for every other number, also where clst - 2 wraps |
| FatLayout.ClustersDisjoint | src/fs/fat32/ff.cpp:1121 | different clusters share no sector |
| FatLayout.ClusterInData | src/fs/fat32/ff.cpp:1121 | every cluster's sectors lie in the data area, outside both FATs |
| FatLayout.SectorOfInjective | src/fs/fat32/ff.cpp:3893-3895 | different sectors of a file lie in different sectors of the volume |
| FatLayout.MasksAreRemainders | src/fs/fat32/ff.cpp:3875 | on every mounted geometry the masks csize - 1 and ~(cluster size - 1) are the remainder by csize and the rounding down to a cluster boundary, because csize is a power of two |
| Arith.TestIsExact | src/fs/fat32/ff.cpp:3471 | the test x != 0 and (x & (x - 1)) == 0 passes exactly the powers of two |
| FatLayout.ClusterOfByte | src/fs/fat32/ff.cpp:4455-4458 | the division by the cluster size and the rounding by mask find the cluster of a byte |
| FatIo.ReadSector | src/fs/fat32/ff.cpp:3924 | a direct disk read of a data sector returns the volume as seen through the window |
| FatIo.WriteSector | src/fs/fat32/ff.cpp:4004 | a direct disk write of a data sector changes exactly that sector of the volume seen |
| FatIo.WriteRun | src/fs/fat32/ff.cpp:4016 | the same for a multi-sector transfer |
| FatIo.ReadRun | src/fs/fat32/ff.cpp:3901 | multi-sector reads return the volume as seen through the window |
| FatFile.Fil.constructor | src/include/fs/fat32/ff.h:204-221 | an open file at position 0 over an existing chain |
| FatFile.CreateForFile | src/fs/fat32/ff.cpp:3980-3991 | following or stretching the file's own chain: its bytes stay, at most one formerly free cluster joins it, other chains and all data stay |
| FatFile.FlushBuffer | src/fs/fat32/ff.cpp:4003-4006 | writing back fp->buf changes neither the file's bytes nor any sector outside its chain |
| FatFile.FlushAndLoad | src/fs/fat32/ff.cpp:4507-4517 | so does loading another sector |
| FatFile.ReloadBuffer | src/fs/fat32/ff.cpp:3924-3927 | the buffer then holds the current bytes of the sector |
| FatWrite.FWrite | src/fs/fat32/ff.cpp:3950-4062 | the file's bytes become the old ones overwritten from fptr on with the first bw bytes; no byte of another chain and no other FAT entry changes; fewer bytes than asked only at 4 GiB - 1 or when no cluster is free; an error only if an entry is 1 |
| FatWrite.WriteLoop | src/fs/fat32/ff.cpp:3975-4057 | the same for the loop, whose every round makes progress or stops |
| FatWrite.WriteRound | src/fs/fat32/ff.cpp:3975-4057 | the same for one round |
| FatWrite.ClusterForWrite | src/fs/fat32/ff.cpp:3978-3999 | at a cluster boundary fp->clust becomes the cluster of the position, allocated if need be |
| FatWrite.WriteDirect | src/fs/fat32/ff.cpp:4011-4031 | a multi-sector transfer bypassing fp->buf, which is refilled if the transfer covered its sector |
| FatWrite.WritePartial | src/fs/fat32/ff.cpp:4039-4055 | a partial sector through fp->buf |
| FatRead.FRead | src/fs/fat32/ff.cpp:3850-3940 | returns exactly the current bytes from fptr on, clipped at the file size, wherever they sit; the file's bytes and every other chain stay; it never fails on a valid file |
| FatRead.ReadRound | src/fs/fat32/ff.cpp:3873-3937 | the same for one round, which always makes progress |
| FatRead.ClusterForRead | src/fs/fat32/ff.cpp:3876-3892 | at a cluster boundary fp->clust becomes the next cluster of the chain |
| FatRead.ReadOverlaid | src/fs/fat32/ff.cpp:3901-3910 | a direct transfer overlaid with the dirty buffer returns the file's current sectors |
| FatRead.CopyOut | src/fs/fat32/ff.cpp:3929-3935 | a partial sector comes from fp->buf |
| FatSeek.FLseek | src/fs/fat32/ff.cpp:4445-4521 | position and chain stay consistent, existing bytes and other chains stay; it arrives at the offset (clipped to the size without write access) or, when no cluster is free, at the end of the last allocated cluster |
| FatSeek.SeekStart | src/fs/fat32/ff.cpp:4452-4472 | both ways to start - from the current cluster and from the head of the chain - establish the same relation between cluster, rest and target |
| FatSeek.NextCluster | src/fs/fat32/ff.cpp:4474-4493 | one step along the chain keeps that relation, stretches it in write mode, or finds the disk full |
| FatSeek.FollowClusters | src/fs/fat32/ff.cpp:4474-4494 | so does the whole loop |
| FatTruncate.FTruncate | src/fs/fat32/ff.cpp:4842-4883 | the file keeps exactly its first fptr bytes and the clusters they need, the released ones are free, other chains and all other data stay |
| FatTruncate.ReleaseBehind | src/fs/fat32/ff.cpp:4855-4867 | both cases release exactly the clusters behind the position |
| FatWhole.VolumeStaysWellFormed | src/fs/fat32/ff.cpp:3850-4883 | an operation on one file, whether it grows the chain (Grown) or cuts it, leaves a well-formed table well formed with exactly that file's chain replaced |
| FatWhole.BesideChain | src/fs/fat32/ff.cpp:3850-4883 | every other chain stays, link by link, and no sector of it changes |
| FatWhole.OtherFilesKept | src/fs/fat32/ff.cpp:3850-4883 | so every other file keeps its chain and all its bytes |
| FatWhole.PositionDeterminesCluster | src/fs/fat32/ff.cpp:4456-4472 | position and chain determine fp->clust (chain index (fptr - 1) / cluster size) and the current sector: seeking from the current cluster and from the start give the same state |
| FatWhole.WriteSeekRead | src/fs/fat32/ff.cpp:3850-4522 | write, seek back, read: the bytes written come back |
| FatShared.BesideBuffer | src/fs/fat32/ff.cpp:4003-4006 | the buffer of another open file stays in order exactly if it is dirty, empty, or its sector was not written; always if the sector is the file's own |
| FatShared.BesideWindow | src/fs/fat32/ff.cpp:1047-1068 | the shared window, wherever an operation leaves it, shows no file's data and no file's buffered sector |
| FatShared.BesideKept | src/fs/fat32/ff.cpp:3850-4883 | both, with the chain and the bytes, dirty buffer included |
| FatShared.FileStays | src/fs/fat32/ff.cpp:3850-4883 | an operation on one open file leaves any other one in order with the same bytes, exactly unless that one's clean buffer names a sector that was written, which takes a buffer left on a released cluster |
| FatShared.OthersStay | src/fs/fat32/ff.cpp:3850-4883 | the same for all open files of a volume at once, whatever the acting file's own buffer holds, and for the files that are not open |
| FatShared.WriteTogether | src/fs/fat32/ff.cpp:3950-4062 | f_write among several open files, also by one whose buffer a truncation left behind: this file's bytes overwritten; every other stays with its bytes exactly unless its clean buffer's sector was written, always if that sector is its own; on a volume in order it never fails and is short only at 4 GiB - 1 or when no cluster is free; standing inside a sector, the file has a buffer of its own again |
| FatShared.SeekTogether | src/fs/fat32/ff.cpp:4445-4521 | f_lseek among several open files: the others as for f_write, and it never fails |
| FatShared.ReadTogether | src/fs/fat32/ff.cpp:3850-3940 | f_read among several open files: the bytes from fptr on, no file changes, the others as for f_write |
| FatShared.TruncateTogether | src/fs/fat32/ff.cpp:4842-4883 | f_truncate among several open files: this file keeps its first fptr bytes and the clusters they need, the others as for f_write |
| FatShared.BufferLeftBehind | src/fs/fat32/ff.cpp:4855-4867 | f_truncate leaves the buffer on a released cluster exactly when it holds a sector from behind the clusters that stay |
| FatShared.StaleBuffer | src/fs/fat32/ff.cpp:4855-4877 | and such a buffer is in order only until something else is written to its sector |
| FatShared.TruncateThenOverwrite | src/fs/fat32/ff.cpp:3950-4883 | the run on which that happens: f_truncate to nothing on an otherwise full disk, then f_write by another file, which gets the released cluster; the first file's buffer is stale |
| FatFile.InsideSectorOwned | src/fs/fat32/ff.cpp:4003-4055 | a file that stands inside a sector has a sector of its own in the buffer |
| FatShared.OpenTogether | src/fs/fat32/ff.cpp:3796-3802 | a file that is not open yet joins the open ones, with the bytes its chain holds |
| FatShared.WriteBothReadBack | src/fs/fat32/ff.cpp:3850-4522 | two files with buffers of their own written in turn, then the first read back: each has its own bytes |
| HeapModel.SegmentsDisjoint | src/memory/heap.cpp:92-148 | headers and payloads of different segments never overlap |
| HeapModel.TotalIsHeapSize | src/memory/heap.cpp:92-148 | payloads plus headers always sum to heap_end - heap_start |
| HeapModel.AllFreeIsOneSegment | src/memory/heap.cpp:36-41 | with everything freed exactly one free segment spans the heap |
| HeapModel.Rounding | src/memory/heap.cpp:45-50 | rounding to 16 wraps to 0 exactly for 0 and for sizes above 2^64 - 16, and otherwise adds less than 16 |
| HeapModel.PlaceWellFormed | src/memory/heap.cpp:54-65 | handing out a segment keeps the tiling and leaves no two adjacent free segments |
| HeapModel.PlaceLive | src/memory/heap.cpp:54-65 | exactly one new live block of at least the rounded size; all others as before |
| HeapModel.ReleaseWellFormed | src/memory/heap.cpp:36-41 | freeing with two-way merging keeps the tiling and leaves no two adjacent free segments |
| HeapModel.ReleaseLive | src/memory/heap.cpp:36-41 | exactly the freed block ceases to be live |
| HeapModel.FreeUndoesMalloc | src/memory/heap.cpp:36-65 | free after malloc restores the segments exactly |
| HeapModel.ExpandWellFormed | src/memory/heap.cpp:111-132 | expansion keeps tiling, coalescing and every live block |
| HeapModel.ExpandMakesRoom | src/memory/heap.cpp:67-70 | after a needed expansion the request fits if and only if the heap ended in a free segment or the rounding to pages left room for a header; a second one always suffices |
| HeapModel.ExpansionHelps | src/memory/heap.cpp:67-70 | each expansion lowers the number still needed, which is at most two |
| HeapModel.AllocateKeeps | src/memory/heap.cpp:44-70 | malloc as a whole: one fresh block of the requested size, live blocks and tiling kept |
| HeapLinks.SplitLinked | src/memory/heap.cpp:97-106 | split's stores leave every header linked both ways with its neighbours and last_hdr at the tail |
| HeapLinks.MergeLinked | src/memory/heap.cpp:135-148 | so do combine_forward's |
| HeapLinks.AppendLinked | src/memory/heap.cpp:125-130 | so do expand_heap's, which touch no live payload |
| HeapLinks.SplitMissesPayloads | src/memory/heap.cpp:97-104 | split's new header lies in no live payload |
| HeapLinks.HeadersMissPayloads | src/memory/heap.cpp:36-153 | no header store lies in a live payload |
| Heap.SplitDecision | src/memory/heap.cpp:94-95 | the signed 64-bit difference decides exactly whether a header and 16 bytes fit behind the request |
| Heap.KernelHeap.constructor | src/memory/heap.cpp:15-33 | one free segment over the fresh pages |
| Heap.KernelHeap.Split | src/memory/heap.cpp:92-108 | the segment cut in two, links and last_hdr right, no live payload written |
| Heap.KernelHeap.CombineForward | src/memory/heap.cpp:135-148 | a free successor swallowed, links and last_hdr right, no live payload written |
| Heap.KernelHeap.CombineBackward | src/memory/heap.cpp:151-153 | swallowed by a free predecessor |
| Heap.KernelHeap.Free | src/memory/heap.cpp:36-41 | the block is released and merged; every block still live keeps its contents |
| Heap.KernelHeap.ExpandHeap | src/memory/heap.cpp:111-132 | whole pages appended and merged; live blocks keep their contents |
| Heap.KernelHeap.MapPages | src/memory/heap.cpp:18-21 | the mapping loop adds exactly count pages and keeps what was mapped |
| Heap.KernelHeap.Search | src/memory/heap.cpp:52-67 | the lowest-addressed free segment that is large enough |
| Heap.KernelHeap.HandOut | src/memory/heap.cpp:56-62 | the found segment cut to size and taken; no live payload written |
| Heap.KernelHeap.Malloc | src/memory/heap.cpp:44-70 | NULL exactly if rounding gives 0; otherwise the lowest fitting segment after exactly as many expansions as needed, at most two; it terminates; no live payload is written |
| Heap.ServedIsFresh | src/memory/heap.cpp:44-70 | its result is a block nobody held, at least as large as requested, beside all earlier ones |
| Heap.KernelHeap.Memcpy | src/memory/heap.cpp:84 | copies into the new block only |
| Heap.KernelHeap.Realloc | src/memory/heap.cpp:73-89 | all four branches; when it moves, the first oldSize bytes are preserved, the old block is freed and every other live block keeps its contents |
| HeapRuns.StepKeepsGood | src/memory/heap.cpp:36-132 | each operation keeps the heap well formed and the set of blocks held exact |
| HeapRuns.EveryReachableHeap | src/memory/heap.cpp:15-153 | in every reachable state headers tile the heap, no free segments touch, blocks held are disjoint and as large as requested, sizes add up, and with nothing held one free segment remains |
| Bitmaps.StoredBits | src/bitmap.cpp:25-32 | setting one bit of a byte, most significant first, changes that bit only |
| Bitmaps.MarkedAfter | src/bitmap.cpp:23-35 | setting one index changes membership of that index only |
| Bitmaps.Bitmap.Get | src/bitmap.cpp:9-20 | true exactly for a marked index; indices past size * 8 read as free, index size * 8 itself reads the byte behind the bitmap |
| Bitmaps.Bitmap.Set | src/bitmap.cpp:23-35 | the marked set gains or loses exactly the index; refused exactly past size * 8 |
| FramesModel.TouchRangeMarks | src/paging/page_frame_allocator.cpp:117-173 | the plural calls mark or clear exactly the frames of the range that the bitmap reaches |
| FramesModel.TouchBalances | src/paging/page_frame_allocator.cpp:106-166 | each call moves used plus reserved by 4096 per bit it changes and leaves free plus used plus reserved alone, modulo 2^64 |
| FramesModel.ProbeOfOne | src/paging/page_frame_allocator.cpp:78-102 | for at most one page request_pages finds the lowest free frame |
| FramesModel.CompleteOnlyForOne | src/paging/page_frame_allocator.cpp:87-99 | the probing of request_pages finds a fitting run whenever there is one, for every bitmap of whole bytes, if and only if at most one page is requested |
| FramesModel.MissedRun | src/paging/page_frame_allocator.cpp:96-98 | for every larger request a bitmap of whole bytes whose free run is jumped over |
| FramesModel.TakeKeepsGood | src/paging/page_frame_allocator.cpp:58-102 | a run handed out meets no run still held, as far as the bitmap reaches (request_pages can hand out frames past its end) |
| FramesModel.StepKeepsGood | src/paging/page_frame_allocator.cpp:58-173 | runs handed out stay disjoint and marked, as far as the bitmap reaches, under every call, if callers free only what they hold |
| FramesModel.EveryReachableAllocator | src/paging/page_frame_allocator.cpp:58-173 | the same over every run, again for the frames the bitmap has, and both counter sums are conserved modulo 2^64 |
| FramesModel.CountersCountBits | src/paging/page_frame_allocator.cpp:29-33 | started from an empty bitmap and zero counters, used plus reserved is 4096 times the set bits |
| FrameAllocator.PageFrameAllocator.LockPage | src/paging/page_frame_allocator.cpp:124-131 | bit and counters change as one locked frame; nothing if it was locked or out of range |
| FrameAllocator.PageFrameAllocator.FreePage | src/paging/page_frame_allocator.cpp:106-114 | the converse, for marked frames |
| FrameAllocator.PageFrameAllocator.ReservePage | src/paging/page_frame_allocator.cpp:159-166 | as for lock_page, counted as reserved |
| FrameAllocator.PageFrameAllocator.UnreservePage | src/paging/page_frame_allocator.cpp:141-149 | as for free_page, counted as reserved |
| FrameAllocator.PageFrameAllocator.LockPages | src/paging/page_frame_allocator.cpp:134-138 | the loop over consecutive frames |
| FrameAllocator.PageFrameAllocator.FreePages | src/paging/page_frame_allocator.cpp:117-121 | the loop over consecutive frames |
| FrameAllocator.PageFrameAllocator.ReservePages | src/paging/page_frame_allocator.cpp:169-173 | the loop over consecutive frames |
| FrameAllocator.PageFrameAllocator.UnreservePages | src/paging/page_frame_allocator.cpp:152-156 | the loop over consecutive frames |
| FrameAllocator.PageFrameAllocator.RequestPage | src/paging/page_frame_allocator.cpp:58-75 | the lowest free frame, whatever the hint, locked; NULL and no change if there is none |
| FrameAllocator.PageFrameAllocator.RequestPages | src/paging/page_frame_allocator.cpp:78-102 | the run the probing finds from index 0, whatever the hint, all of it locked; NULL and no change if it finds none |
| PageEntries.FlagReadIsRightForPresentOnly | src/paging/paging.cpp:13-16 | get_flag, which tests bit 0 by operator precedence, reads the flag asked for in every entry if and only if that is the present flag |
| PageEntries.LinkedIs | src/paging/paging.cpp:4-28 | set_address, present and read_write together write exactly the 40-bit frame number and the two low flags and keep all other bits; get_address reads the frame number back |
| PageEntries.PageDirectoryEntry.SetFlag | src/paging/paging.cpp:4-10 | exactly the one bit changes, for every flag; every other bit of the entry is as before |
| PageEntries.PageDirectoryEntry.SetAddress | src/paging/paging.cpp:24-28 | exactly the 40 address bits change |
| PageEntries.PageMapIndexer.constructor | src/paging/page_map_indexer.cpp:4-13 | the four 9-bit digits of the page number, the topmost (stored as PDP_i) first |
| PageEntries.IndicesDeterminePage | src/paging/page_map_indexer.cpp:4-13 | equal indices if and only if equal 48-bit pages |
| PageTree.WriteElsewhere | src/paging/page_table_manager.cpp:29 | in an alias-free tree a write into one entry is seen only by walks through it |
| PageTree.LinkWalks | src/paging/page_table_manager.cpp:24-29 | hooking in a cleared frame adds one table and changes no other walk |
| PageTree.LinkKeepsTree | src/paging/page_table_manager.cpp:24-29 | and keeps the tables an alias-free tree of frames of their own |
| PageTree.LeafWalks | src/paging/page_table_manager.cpp:67-71 | rewriting a last-level entry changes exactly that page's translation |
| PageTree.EmptyRootIsTree | src/util.cpp:59-62 | a zeroed PML4 is a tree that maps nothing |
| PageTables.PageTableManager.constructor | src/paging/page_table_manager.cpp:12-14 | the manager takes over the tables it is given, which may map pages already; the invariant holds |
| PageTables.PageTableManager.Zeroed | src/util.cpp:59-62 | over a zeroed PML4 nothing is mapped, the invariant holds |
| PageTables.PageTableManager.Descend | src/paging/page_table_manager.cpp:21-34 | one level: the table behind the entry, created from a fresh zeroed frame if absent; no page changes its translation |
| PageTables.PageTableManager.MapMemory | src/paging/page_table_manager.cpp:17-72 | the page of v translates to the frame of p, every other 48-bit page as before; the tables stay an alias-free tree, all present entries writable |
| PageTables.TreeRefinesMap | src/paging/page_table_manager.cpp:17-72 | after any sequence of calls every page translates to the frame last given for it, or as at the start |
| PageTables.PageTableManager.MapRange | src/paging/page_table_manager.cpp:75-79 | every page that a step of 1000 bytes falls into is mapped to the frame of a step in the same page; all other pages translate as before |
| PageRanges.RangeMappedExactly | src/paging/page_table_manager.cpp:75-79 | over unmapped pages every byte of the range reaches its counterpart if and only if both ranges start at the same offset in a page and the last step falls into the page of the last byte |
| PageRanges.LastPageMissed | src/paging/page_table_manager.cpp:75-79 | 4097 bytes from address 0: the last one stays unmapped, all before it are mapped |
| PageRanges.ByteMapped | src/paging/page_table_manager.cpp:75-79 | byte by byte, when the page is reached |
| PageRanges.ByteMissed | src/paging/page_table_manager.cpp:75-79 | and when it is not |
| SchedQueue.Queue.Add | src/scheduling/scheduler/queue.cpp:15-18 | appended at the end |
| SchedQueue.Queue.Next | src/scheduling/scheduler/queue.cpp:21-26 | the first element moves to the end, the others keep their order |
| SchedQueue.Queue.RemoveFirst | src/scheduling/scheduler/queue.cpp:29-36 | the first element is gone, the others keep their order |
| SchedQueue.RotateTimesIs | src/scheduling/scheduler/queue.cpp:21-26 | n rotations move the first n elements to the end in order |
| SchedModel.SettleIs | src/scheduling/scheduler/scheduler.cpp:266-289 | the kill/lock loop in closed form: the first runnable task in front, the locked ones before it at the end in order, the killed ones gone |
| SchedModel.SettleMembers | src/scheduling/scheduler/scheduler.cpp:266-289 | no live task is lost, none appears twice, exactly the killed ones that were met are reaped |
| SchedModel.WaitsLess | src/scheduling/scheduler/scheduler.cpp:264-289 | a runnable task comes at least one place forward with each interrupt of its CPU, or runs |
| SchedModel.RanGoesLast | src/scheduling/scheduler/scheduler.cpp:264-289 | the task that ran goes to the end of its queue, or runs again |
| SchedModel.KilledAdvances | src/scheduling/scheduler/scheduler.cpp:264-289 | a killed task comes forward as well until it is reaped |
| SchedRuns.TimerOnCpu | src/scheduling/scheduler/scheduler.cpp:225-330 | one interrupt: what is loaded is what the chosen task is due, and the CPU's queue stays consistent |
| SchedRuns.StepKeepsGood | src/scheduling/scheduler/scheduler.cpp:79-330 | every event on any CPU keeps all queues disjoint and every waiting task's saved registers equal to what it is due |
| SchedRuns.ResumedExactly | src/scheduling/scheduler/scheduler.cpp:225-330 | over every run on any number of CPUs each interrupt loads the 18 registers the task was last interrupted with, or was created with |
| SchedRuns.FirstContextKept | src/scheduling/scheduler/scheduler.cpp:237-256 | a task's initial context is not overwritten before its first run |
| SchedRuns.NoTaskLost | src/scheduling/scheduler/scheduler.cpp:264-289 | only killed tasks disappear; every other stays in the queue it is in |
| SchedRuns.ReapedOnce | src/scheduling/scheduler/scheduler.cpp:269-284 | a reaped task is in no queue and is not reaped again until its address is given out anew |
| SchedRuns.ReapedWithin | src/scheduling/scheduler/scheduler.cpp:264-284 | a killed task at place i is reaped within i interrupts of its CPU |
| SchedRuns.RunsWithin | src/scheduling/scheduler/scheduler.cpp:264-289 | a task that stays runnable at place i runs within i interrupts of its CPU, however many tasks are appended meanwhile |
| SchedRuns.RunsAgainWithinLen | src/scheduling/scheduler/scheduler.cpp:264-289 | and a task just interrupted runs again within as many interrupts as its queue is long |
| Scheduling.Registers.Load | src/scheduling/scheduler/scheduler.cpp:302-319 | the 18 registers are loaded, each into its own field; the other seven fields of the frame stay |
| Scheduling.Scheduler.Settled | src/scheduling/scheduler/scheduler.cpp:266-289 | the loop at next terminates with the settled queue; exactly the reaped tasks and their pages are given back, each once |
| Scheduling.Scheduler.Schedule | src/scheduling/scheduler/scheduler.cpp:225-330 | save, rotate, reap and load are the switch of the model; on a stack pointer outside its stack the frame is not touched |
| Scheduling.Scheduler.ChooseQueue | src/scheduling/scheduler/scheduler.cpp:109-126 | the first least loaded present CPU; the boot CPU without multiprocessor scheduling; 0 if none is present |
| Scheduling.Scheduler.NewTask | src/scheduling/scheduler/scheduler.cpp:79-134 | a task with its initial context appended to exactly that queue |
| Scheduling.Scheduler.TaskExit | src/scheduling/scheduler/scheduler.cpp:137-160 | exactly the task at the head of the calling CPU's queue is marked |
| Scheduling.Scheduler.InitSched | src/scheduling/scheduler/scheduler.cpp:46-66 | one idle task alone in each CPU's queue |
| Scheduling.InitSchedIsInitial | src/scheduling/scheduler/scheduler.cpp:46-66 | the whole machine that leaves, with any number of CPUs, is an initial state of the runs |
| Scheduling.NewTaskIsLegal | src/scheduling/scheduler/scheduler.cpp:79-134 | and a task of new_task is a legal new task in any state of them, appended to that queue with its initial context |
| Spinlock.MutualExclusion | src/scheduling/scheduler/atomic.asm:11-40 | over all interleavings of any number of CPUs at most one is past acquire, the bit is set exactly when one is, and the other bits of the word stay |
| Spinlock.StepKeepsExclusive | src/scheduling/scheduler/atomic.asm:11-40 | each instruction keeps that |
| Spinlock.RedundantBts | src/include/scheduling/scheduler/atomic.h:10-11 | the second bts of the acquire macro changes nothing; it and the unlocking btr return false |
| Spinlock.FreeLockIsTaken | src/scheduling/scheduler/atomic.asm:30-40 | a free lock goes to the next CPU that executes bts; a spinning one needs two instructions |
| ApHandoff.ApKeepsGood | src/apic/apic.cpp:51-70 | every step of an application processor keeps the protocol's invariant |
| ApHandoff.DispatcherKeepsGood | src/apic/apic.cpp:95-126 | so does every step of run_on_ap and wait_for_aps |
| ApHandoff.ExecutedOnceByChosenCpu | src/apic/apic.cpp:57-115 | under every interleaving each function is executed at most once, by the CPU run_on_ap returned, and nothing else is executed |
| ApHandoff.NeverOverwritten | src/apic/apic.cpp:107-108 | no function is overwritten before it has started |
| ApHandoff.WaitedForAll | src/apic/apic.cpp:118-126 | when wait_for_aps returns every function given to run_on_ap so far has been executed exactly once and has finished |
| ApHandoff.RunsHereOnlyAlone | src/apic/apic.cpp:96-100 | with one core or without multiprocessor scheduling, and only then, run_on_ap calls the function itself |

## Left out

- Disk errors: `disk_read` and `disk_write` always return OK (src/fs/fat32/diskio.cpp:163, 215), so every `FR_DISK_ERR` branch is dead.
- Directories, paths, `f_open`, `f_sync`'s directory update, timestamps and volume discovery; an open file starts from a chain and a size. `validate` is taken to succeed.
- Configuration that is not compiled: exFAT, long file names, tiny buffers, fast seek, file locks, `f_mkfs`, string functions.
- The caller's buffer: `f_read` returns and `f_write` takes a sequence of bytes, so a buffer that overlaps the kernel's own is not captured.
- FatShared.TruncateTogether: what a file does next whose buffer has gone stale (`FatShared.TruncateThenOverwrite`) is not followed; every operation starts from a file in order.
- FatShared.OpenTogether: opening the same file twice is excluded; the source does not check it (`FF_FS_LOCK` is 0).
- HeapModel.Release: the store that split makes through a null `next` when the last segment is cut (src/memory/heap.cpp:98) is guarded in `Heap.KernelHeap.Split`; the list is the same.
- Heap.KernelHeap.Malloc: the address space for the expansions is required to suffice (heap below 2^63 bytes, addresses below 2^64), and running out of physical frames is not modelled; mapping new pages adds arbitrary memory contents.
- Heap.KernelHeap.Realloc: size 0 with a null pointer, a pointer that is not a live block, as for `free`, and an `oldSize` beyond the block are outside the model.
- PageTables.PageTableManager.MapMemory: as many free frames are required as tables are missing, because a failed `request_page` is not handled (src/paging/page_table_manager.cpp:24). Writing table frames through a mapping, TLBs and CR3 are not modelled. `map_range` goes through the global manager, here the object itself.
- FrameAllocator.PageFrameAllocator.LockPages: page counts above 2^19 overflow the `int` product of the loops and a bitmap of 2^31 bits the `int` loop counters; both are excluded. The memory map of the boot loader is a parameter.
- Scheduling.Scheduler.Schedule: FXSAVE state is not modelled and XSAVE support is not compiled. A stack pointer outside its stack ends in the panic screen, after which nothing is claimed. Queues hold at most 15 tasks, because rotating uses the slot behind the last one. Each call is atomic here; the spinlock that makes it so is a model of its own.
- Scheduling.Scheduler.InitSched: a CPU's APIC number is taken to be its index, as the code does.
- ApHandoff.ExecutedOnceByChosenCpu: memory is sequentially consistent, there is one dispatcher, and starting the processors is reduced to their writes to the shared table. That a free processor ever turns up is not claimed.
- Loading ELF images, drivers, the network stack, rendering and the shell.
