# Proofs about the FatFs engine and the DMA helpers of BaS_gcc

This project models the file system engine in `BaS_gcc/fs/ff.c`, and three smaller components: the code
conversion search in `BaS_gcc/fs/cc932.c`, the initiator and channel allocator in `BaS_gcc/dma/dma.c`, and the
progress report in `BaS_gcc/dma/MCD_dmaApi.c`. It proves, bottom up, that each layer of the engine refines a
simpler one:

| layer | refines | files |
|---|---|---|
| write-back window over a drive with one or two FAT copies | an array of sectors | `Layout`, `Volume` |
| packed FAT entries of 12, 16 or 32 bits | a table of numbers | `FatTable`, `Volume` |
| allocation, removal, truncation | operations on chains in a well-formed table | `Clusters`, `Volume`, `FreeSpace` |
| open files with a private sector buffer and a link map | an array of bytes with a position | `FileImage`, `LinkMap`, `File`, `Session` |
| directory entries on sectors, long-name segments | a list of named objects, and a map from names to entries | `Lfn`, `DirTable`, `RawSearch`, `DirMap`, `NumName`, `Directory`, `DirSession`, `Names`, `Create` |
| open files and directories on one volume | objects that do not interfere | `Sharing` |
| formatting and mounting | a planned geometry | `Boot`, `Format`, `Fresh` |
| file locks | the list of open handles | `Locks` |

`Words`, `Disk`, `DirEntry` and `FsInfo` hold little-endian fields, bit operations, the drive and two on-disk
records. `DmaAlloc`, `DmaProgress` and `CodeTable` are independent of the file system.

## Configuration and conventions

- 512-byte sectors, read/write, not tiny, long names without Unicode API and without double-byte codes,
  fast seek, format and file locks on, one volume, no reentrancy, no relative paths. `BaS_gcc/include/ffconf.h`
  switches fast seek, format, long names and locks off; the model covers the code these options select when on.
  `_MAX_LFN` and `_FS_LOCK` are parameters (buffer and table lengths).
- Objects whose members the C code updates are classes with those members (`Volume` for `FATFS`, `File` for
  `FIL`, `Dir` for `DIR`, `LockTable`, `Allocator`, `Dma`, `Drive`). Byte buffers are arrays. Ghost members hold
  the abstract value (chain and contents of a file, chain of a directory) and a log of the tables that single
  `put_fat` calls produce.
- A transfer of the drive may fail at any time unless the drive is `reliable`. An operation that reports a disk
  error promises nothing beyond what its contract says. Runs over byte arrays and directories assume a reliable drive.
- `strayed` is a member of the model's `Volume` only: it is set when `create_chain` went on after a failed read of the
  status of a cluster, and cleared by mounting. The guarantees of what may allocate are stated for a volume that did
  not stray, which a reliable drive implies.
- Code page conversion and upper-casing are parameters; ASCII is assumed to be converted to itself. Results about the map
  from names to entries assume that the two go together on the characters of the page (`Names.Folds`).
- Times are parameters.
- The boundary between FAT12, FAT16 and FAT32 follows the code (4086 and 65526 clusters), not the Microsoft
  specification, as the comment at `ff.c:405-407` says.
- Arithmetic that wraps in 32 or 16 bits is written out where a wrap can occur.

## What turned out to be conditional

- `create_chain` takes a failed read of the status of a cluster for the end of its chain: it may link a free cluster
  behind that cluster, and what followed before is lost. The chain merely grows if and only if the cluster was the last
  one (`FileSystem.Volume.CreateChain`, `Clusters.AllocatedBehind`, `Clusters.LostExample`).
- `chk_mounted` computes in 32 bits: a boot record can pass all checks with a FAT that reaches over the data area, and
  the drive that holds it is mounted (`Boot.WrapExample`, `Boot.MountWrapped`). `Boot.ParseSound` gives the exact
  condition under which an accepted record is sound.
- A formatted volume is mountable exactly if the alignment to erase blocks leaves a cluster
  (`Format.FormattedAccepted`, `Format.NoRoomExample`).
- `f_getfree` counts reserved entries that hold 0 on FAT16 and FAT32 (`FreeSpace.CountingExact`). On a FAT12 table with
  an entry holding 1 it fails, but caches the number of zero entries in front of that entry, which is the number of free
  clusters if and only if none lies behind (`FreeSpace.GetFree`, `FreeSpace.CutShortExample`).
- CREATE_LINKMAP fails exactly if the end mark of the chain is the number behind its last cluster, and fast seek
  fails exactly where the map does not reach, which happens for a map built for an empty file that grew
  (`FileObject.File.CreateLinkMap`, `FileObject.File.SeekFast`).
- `f_truncate` does not look after the sector buffer and the link map; the object stays usable exactly if the buffered
  sector is among those kept and a link map was built for just the clusters kept (`FileObject.File.Truncate`;
  `Session.StaleBuffer` and `Session.StaleMap` are runs that end otherwise).
- `pick_lfn` and `cmp_lfn` differ near `_MAX_LFN`: a name of length `_MAX_LFN` that is no multiple of 13 can be created
  but not be found by its long name (`Lfn.PickLimit`, `Lfn.MatchExact`, `Lfn.CriticalName`,
  `Directory.Dir.RegisterAndFind`).
- The short form of a name depends on the name up to letter case only, for names of the code page and if conversion and
  upper-casing go together there (`Names.FormFolded`). It need not for a name with other characters, which only a foreign
  system can have stored: on code page 858 searches do not tell y with diaeresis from its capital, but only the small
  letter, in the page, has a short form (`Names.UnspelledExample`).
- A new name can capture the search for an old one through their short names. It does so exactly if it matches that
  search and lies in front of the old object (`DirMap.Captured`, `DirMap.CaptureExample`). It cannot happen in a
  directory where short names go with their long names and no two objects share a name, and `dir_register` and
  `dir_remove` keep a directory so (`DirMap.EnteredWhole`, `DirMap.RemovedWhole`).
- `dir_remove` leaves the long-name entries of an object behind exactly if it was found by its short name and has a
  long one (`DirMap.RemovedWhole`, `Directory.Dir.RemoveIn`).
- In a static root table `dir_register`, once it has a short name, answers FR_NO_FILE and not the documented FR_DENIED,
  exactly when there is no room for the object (`Directory.Dir.Reserve`, `Directory.Dir.Register`;
  `DirTable.FullExample` is a full table).
- The 256th reader of a file turns its counter into the mark of a writer (`Locks.OpenKeeps`, `Locks.TooManyReaders`).
- The DMA progress report of a strided transfer is exact if and only if the distance fits a signed word
  (`DmaProgress.Strided`, `DmaProgress.OverflowExample`).
- `dma_set_initiator` refuses DMA_PSC1_TX although slot 13 belongs to it (`DmaAlloc.Allocator.SetInitiator`), and
  `dma_set_channel` for requestor -1 names a free channel without taking it (`DmaAlloc.Allocator.SetChannel`).

## Verifying

`dafny verify dfyconfig.toml` checks all files.

## Model

| member | source | states |
|---|---|---|
| `Words.LittleEndian` | BaS_gcc/include/ff.h:322-330 | Fields of two and four bytes are read and stored with the low byte first |
| `Layout.MountedGeometry` | BaS_gcc/fs/ff.c:2136-2185 | On a sound geometry the FAT copies, the static root and the data area are ordered and disjoint; `clust2sect` answers non-zero exactly for clusters 2..n_fatent-1, every block lies in the data area of the volume, and a sector lies in one block only |
| `Layout.BlocksDisjoint` | BaS_gcc/fs/ff.c:819-827 | `clust2sect` is injective on clusters: two clusters never share a sector |
| `Layout.ClusterPlace` | BaS_gcc/fs/ff.c:819-827 | Cluster c starts at sector database + (c - 2) * csize |
| `Layout.WriteBackView` | BaS_gcc/fs/ff.c:736-769 | Writing the window back leaves the disk seen through the window unchanged, whichever clean sector the window shows next |
| `Layout.CleanView` | BaS_gcc/fs/ff.c:736-769 | Exchanging a clean window for any other sector leaves the disk seen through the window unchanged |
| `Layout.WindowUpdate` | BaS_gcc/fs/ff.c:837-933 | An edit of the window changes exactly the window's sector of the disk seen through it |
| `Layout.MirrorStep` | BaS_gcc/fs/ff.c:752-758 | If the FAT copies agree everywhere but at the sector being flushed, the mirror loop makes them agree everywhere |
| `FatTable.EntryInFat` | BaS_gcc/fs/ff.c:837-933 | Every byte an entry access touches lies inside the FAT; the last entry ends exactly at the computed FAT size, for FAT12 too; FAT16 and FAT32 entries never straddle a sector |
| `FatTable.Neighbours12` | BaS_gcc/fs/ff.c:850-856 | Two FAT12 entries overlap only if they are an even one and its odd successor |
| `FatTable.Put12Entry` | BaS_gcc/fs/ff.c:896-908 | FAT12: writing an entry reads back modulo 2^12 and leaves every other entry alone, also across a sector boundary |
| `FatTable.Put16Entry` | BaS_gcc/fs/ff.c:910-915 | FAT16: writing an entry reads back modulo 2^16 and leaves every other entry alone |
| `FatTable.Put32Entry` | BaS_gcc/fs/ff.c:917-923 | FAT32: writing an entry reads back modulo 2^28 and leaves every other entry alone |
| `FatTable.Put32TopBits` | BaS_gcc/fs/ff.c:917-923 | FAT32: a value below 2^28 leaves the reserved top four bits of the stored word as they were |
| `FatTable.PutGet` | BaS_gcc/fs/ff.c:837-933 | For each sub-type, `put_fat` followed by `get_fat` of any entry is an update of one place of an abstract table, and nothing outside the first FAT copy changes |
| `FatTable.FatOfFrame` | BaS_gcc/fs/ff.c:837-870 | The table depends on the sectors of the first FAT copy only |
| `FatTable.Bytes12` | BaS_gcc/fs/ff.c:850-856 | FAT12: the entry of cluster c, in terms of the two bytes at offset 3c/2 of the FAT, by sector and place |
| `FatTable.Bytes16` | BaS_gcc/fs/ff.c:858-861 | FAT16: the entry in terms of its two bytes, by sector and place |
| `FatTable.Bytes32` | BaS_gcc/fs/ff.c:863-866 | FAT32: the entry in terms of its four bytes, by sector and place, without the top four bits |
| `FatTable.EndMarks` | BaS_gcc/fs/ff.c:896-923 | The end mark 0x0FFFFFFF as it reads back in each sub-type |
| `FsInfo.RoundTrip` | BaS_gcc/fs/ff.c:787-800 | Whatever counters are stored in the FSInfo sector are accepted and read back by mounting |
| `FsInfo.SignedBytes` | BaS_gcc/fs/ff.c:2192-2202 | Which bytes make an FSInfo sector acceptable, and where its count lies |
| `FsInfo.EncodeRest` | BaS_gcc/fs/ff.c:787-800 | All other bytes of a stored FSInfo sector are zero |
| `Clusters.PathDistinct` | BaS_gcc/fs/ff.c:943-1046 | In an acyclic FAT the clusters of a path are pairwise different |
| `Clusters.HeadsMeet` | BaS_gcc/fs/ff.c:943-1046 | Two chains that share a cluster and start at heads are one chain |
| `Clusters.FreeHead` | BaS_gcc/fs/ff.c:943-986 | Zeroing a head keeps the FAT well-formed (no dangling link, one predecessor at most, no cycle) and makes its successor a head |
| `Clusters.Cut` | BaS_gcc/fs/ff.c:3243-3252 | Ending a chain keeps the FAT well-formed and makes the part cut off start at a head |
| `Clusters.AllocatedWellFormed` | BaS_gcc/fs/ff.c:1031-1034 | Both writes of `create_chain`, the end mark and the link, leave a well-formed FAT |
| `Clusters.AllocatedChain` | BaS_gcc/fs/ff.c:996-1046 | Allocation appends one free cluster to the one chain it was asked to stretch, and every other chain stays as it is |
| `Clusters.AllocatedNew` | BaS_gcc/fs/ff.c:996-1046 | Allocation without a chain starts a one-cluster chain, and every chain stays as it is |
| `Clusters.AllocatedCount` | BaS_gcc/fs/ff.c:1035-1040 | Allocation takes exactly one from the number of free clusters |
| `Clusters.ChainAndFree` | BaS_gcc/fs/ff.c:996-1046 | However far a chain has grown, the clusters of the chain and the free ones together are as many as before |
| `Clusters.AllocatedBehind` | BaS_gcc/fs/ff.c:1009-1034 | Linking a new cluster behind element i of a chain yields the chain grown by it if and only if i was the last element; otherwise the rest of the chain becomes a chain that nothing leads to |
| `Clusters.LostExample` | BaS_gcc/fs/ff.c:1009-1034 | A chain of two clusters whose second one is lost that way |
| `Clusters.RemoveExact` | BaS_gcc/fs/ff.c:943-986 | On an arbitrary FAT, cyclic ones included, `remove_chain` zeroes exactly the occupied clusters reached from its start (it terminates because each step adds a zero entry) |
| `Clusters.RemoveChainExact` | BaS_gcc/fs/ff.c:943-986 | On a chain of a well-formed FAT `remove_chain` frees exactly that chain, ends without error, and adds its length to the number of free clusters |
| `Clusters.RemoveWellFormed` | BaS_gcc/fs/ff.c:943-986 | Removing from a head leaves a well-formed FAT |
| `Clusters.FollowChain` | BaS_gcc/fs/ff.c:1056-1074 | Following i links from the start of a chain arrives at its element i |
| `Clusters.TruncatedExact` | BaS_gcc/fs/ff.c:3236-3252 | Cutting a chain keeps its front with an end mark, frees exactly the rest, changes no other entry and leaves a well-formed FAT |
| `Clusters.ExtendsHasOne` | BaS_gcc/fs/ff.c:996-1046 | Growing a chain introduces no reserved value 1 |
| `Clusters.ExtendsFull` | BaS_gcc/fs/ff.c:996-1046 | On a full volume no growth happens and none becomes possible |
| `Clusters.NearestIs` | BaS_gcc/fs/ff.c:1017-1029 | The nearest free cluster behind s: none free between s and it, or, going on from cluster 2, none behind s and none in front of it |
| `FileSystem.Volume.WriteBack` | BaS_gcc/fs/ff.c:744-758 | The dirty window goes to its sector and, inside the FAT, to the other copy; copies that agreed agree again |
| `FileSystem.Volume.MoveWindow` | BaS_gcc/fs/ff.c:736-769 | Success leaves the disk as seen by the file system unchanged and, for a non-zero sector, that sector in the window; only the old window sector and mirror sectors may change on the drive |
| `FileSystem.Volume.GetFat12` | BaS_gcc/fs/ff.c:850-856 | FAT12 read: two bytes that may lie in two sectors decode to the entry of the disk seen at the call |
| `FileSystem.Volume.GetFat` | BaS_gcc/fs/ff.c:837-870 | For a cluster, its entry in the abstract table; 1 for every other number, without touching the window |
| `FileSystem.Volume.PutFat12` | BaS_gcc/fs/ff.c:896-908 | FAT12 write: two nibble merges with a possible flush in between amount to one entry update |
| `FileSystem.Volume.PutFat32` | BaS_gcc/fs/ff.c:917-923 | FAT32 write: or-ing the kept top bits in amounts to one entry update |
| `FileSystem.Volume.PutFat` | BaS_gcc/fs/ff.c:880-933 | For a cluster, the table is updated at that entry, in the entry width, and nowhere else; any other number is an internal error that changes nothing |
| `FileSystem.Volume.FreeCluster` | BaS_gcc/fs/ff.c:960-970 | One round: an occupied cluster is zeroed, counted as free and logged, with a known count marked for the FSInfo sector; a value below 2 stops the walk with nothing changed |
| `FileSystem.Volume.RemoveChain` | BaS_gcc/fs/ff.c:943-986 | Refines the table function that zeroes all clusters reached; answers an internal error exactly when the start is no cluster or the walk meets the value 1; the free count stays exact, and known exactly if it was; on FAT32 a count that is not marked stays the one in the FSInfo sector; every intermediate table is well-formed when the start is a head |
| `FileSystem.Volume.FindFree` | BaS_gcc/fs/ff.c:1017-1029 | Finds the first free cluster going up from the start and wrapping around; 0 only if no cluster is free; 1 only if an entry holds 1 |
| `FileSystem.Volume.CreateChain` | BaS_gcc/fs/ff.c:997-1046 | An existing successor is returned as it is; otherwise a free cluster is linked behind the chain: for a chain the first one behind its last cluster, for a new chain the first one behind the cluster allocated last, or from 2 on if that is no cluster, in both cases going on from 2 at the end of the table; 0 exactly when the volume is full; the free count stays exact, and on FAT32 a count that is not marked stays the one in the FSInfo sector; each intermediate table is well-formed. All that as long as the status of the given cluster can be read; when it cannot, the code goes on as if that were the last cluster, and the table becomes that of an allocation behind it |
| `FileSystem.Volume.LinkCluster` | BaS_gcc/fs/ff.c:1031-1045 | End mark, link and counters: the table becomes that of the allocation, a known free count drops by one and is marked for the FSInfo sector, and the cluster is the one allocated last |
| `FileSystem.Volume.WriteFsInfo` | BaS_gcc/fs/ff.c:787-800 | The counters of a FAT32 volume are written to the FSInfo sector only, and the window is invalidated |
| `FileSystem.Volume.Sync` | BaS_gcc/fs/ff.c:778-808 | After success the drive alone shows what drive and window showed together, the FAT is unchanged, marked FAT32 counters are on the drive, and on FAT32 no count is left marked |
| `FileSystem.Volume.ClearCluster` | BaS_gcc/fs/ff.c:1166-1175 | A new directory cluster shows zeros in each of its sectors, and no other sector changes |
| `FileSystem.Volume.FlushedTable` | BaS_gcc/fs/ff.c:778-808 | After a flush the FAT can be decoded from the drive alone |
| `FileSystem.Volume.CountStored` | BaS_gcc/fs/ff.c:778-808 | When nothing waits in the window and the count is not marked, mounting would take the true number of free clusters from the drive, or no number if none is known |
| `FreeSpace.CountEntries` | BaS_gcc/fs/ff.c:3174-3181 | FAT12: counting through `get_fat` yields the number of free clusters, and fails exactly if an entry holds 1 |
| `FreeSpace.CountRaw` | BaS_gcc/fs/ff.c:3182-3200 | FAT16 and FAT32: the raw walk over the FAT sectors yields the number of free clusters plus the reserved entries that hold 0 |
| `FreeSpace.GetFree` | BaS_gcc/fs/ff.c:3166-3207 | A cached count that the volume can have is answered as it is; otherwise a fresh count is cached and, on FAT32, marked for the FSInfo sector, exact if and only if the sub-type is FAT12 or both reserved entries are non-zero; the internal error arises exactly on FAT12 with an entry holding 1, and then the number of zero entries in front of the first such entry is cached, exact if and only if no free cluster lies behind it |
| `FreeSpace.CountingExact` | BaS_gcc/fs/ff.c:3172-3202 | The count is exact if and only if the sub-type is FAT12 or both reserved entries are non-zero |
| `FreeSpace.CutShort` | BaS_gcc/fs/ff.c:3172-3181 | A count that stops at entry k is exact if and only if no free cluster lies from k on |
| `FreeSpace.CutShortExample` | BaS_gcc/fs/ff.c:3172-3181 | A FAT12 table with two free clusters for which one is cached |
| `LinkMap.FragmentsAppend` | BaS_gcc/fs/ff.c:2892-2904 | A run that does not continue the chain adds one fragment |
| `LinkMap.StoredDescribes` | BaS_gcc/fs/ff.c:2901-2908 | The pairs stored one by one, followed by a terminator, describe the whole chain |
| `LinkMap.ProgressStep` | BaS_gcc/fs/ff.c:2892-2904 | One more fragment: two more items needed, and stored if they fit |
| `LinkMap.ItemsExamples` | BaS_gcc/fs/ff.c:2892-2910 | Items needed for an empty chain, for one fragment and for two |
| `DirEntry.TouchedFields` | BaS_gcc/fs/ff.c:2675-2681 | Size and start cluster stored in a directory entry are read back, the archive bit is set, and no other byte of the sector changes |
| `DirEntry.TouchedBytes` | BaS_gcc/fs/ff.c:2675-2681 | The entry byte by byte: archive bit, time of the last write, cleared access date, both halves of the start cluster, and size |
| `DirEntry.FieldBytes` | BaS_gcc/fs/ff.c:1199-1211 | The bytes that size and start cluster are read from; the high half counts on FAT32 only |
| `FileObject.File.Flush` | BaS_gcc/fs/ff.c:2584-2588 | Writes a dirty sector buffer back; the file contents as seen stay the same |
| `FileObject.File.LoadSector` | BaS_gcc/fs/ff.c:2498-2510 | The buffer comes to hold the sector asked for, after a dirty one was written back |
| `FileObject.File.ClmtClust` | BaS_gcc/fs/ff.c:1056-1074 | The lookup in a complete link map yields element ofs/clusterbytes of the chain, and 0 behind its end |
| `FileObject.File.ReadDirect` | BaS_gcc/fs/ff.c:2479-2496 | A multi-sector read delivers the file's bytes, with a dirty buffer copied over the stale sector when it is among them |
| `FileObject.File.Read` | BaS_gcc/fs/ff.c:2433-2524 | Delivers exactly min(btr, fsize - fptr) bytes of the contents at fptr and advances by them; refuses as the access checks say, with nothing changed; leaves all state consistent |
| `FileObject.File.Stretch` | BaS_gcc/fs/ff.c:2563-2577 | The cluster behind the current one, by following the FAT or by allocation, unless its status could not be read; 0 only at the end of the chain of a full volume; nothing but the FAT changes, each intermediate FAT is well-formed, and the free count stays exact |
| `FileObject.File.WriteLoop` | BaS_gcc/fs/ff.c:2558-2638 | The transfer loop replaces exactly the bytes from fptr on by the part of the source that was taken, and stops short only at the end of the file's own chain, where no cluster is free or a link map forbids to stretch it |
| `FileObject.File.Write` | BaS_gcc/fs/ff.c:2534-2644 | Replaces exactly bytes [fptr, fptr+bw) of the contents; nothing is written if the size could leave 32 bits, and otherwise it is short only at the end of the file's own chain, where no cluster is free or a link map forbids to stretch it; the chain grows by free clusters only, outside FAT and file nothing changes, each intermediate FAT is well-formed and the free count stays exact; refuses as the access checks say, with nothing changed |
| `FileObject.File.SeekWalk` | BaS_gcc/fs/ff.c:2971-2987 | The cluster following loop: arrives at the cluster of the target or, on a full volume, at the last one |
| `FileObject.File.SeekNormal` | BaS_gcc/fs/ff.c:2940-3016 | Without a link map: position ofs for every ofs inside the file; beyond it the file grows with its old bytes kept, up to the target or to the end of a full volume; afterwards it is marked as changed exactly if it was before or grew, and clusters are added only to a file that grew |
| `FileObject.File.SeekFast` | BaS_gcc/fs/ff.c:2912-2936 | Through the link map: the position is clipped at the end, and an internal error arises exactly when the map does not reach the position |
| `FileObject.File.CreateLinkMap` | BaS_gcc/fs/ff.c:2887-2910 | The table ends up with as many items as the chain needs, fits exactly when its declared size suffices, and then describes the chain; an internal error arises exactly when the end mark is the number behind the last cluster |
| `FileObject.File.Seek` | BaS_gcc/fs/ff.c:2870-3019 | Dispatch of `f_lseek` over the three modes, with the guarantees of each; positions inside the file are reached exactly, and on a sector boundary the buffer is left as it is; afterwards the file is marked as changed exactly if it was before or grew, and clusters are added only to a file that grew |
| `FileObject.File.PositionFollowsFat` | BaS_gcc/fs/ff.c:2912-3009 | In fast and in normal mode alike, a position determines the current cluster, as following the FAT (fptr-1)/clusterbytes steps, and off a boundary the buffered sector |
| `FileObject.File.UpdateEntry` | BaS_gcc/fs/ff.c:2675-2683 | The directory entry in the window receives size, start cluster, time and archive bit, and the disk changes at that sector only |
| `FileObject.File.SyncEntry` | BaS_gcc/fs/ff.c:2672-2685 | After success the drive alone shows contents, FAT and directory entry of the file |
| `FileObject.File.Sync` | BaS_gcc/fs/ff.c:2653-2690 | Flushes the buffer; if the file was changed, afterwards the drive alone shows contents, FAT and directory entry of the file, and on FAT32 a known free count; a file that was not changed is left alone; outside the file, its 32 entry bytes and the FSInfo sector nothing changes |
| `FileObject.File.Undisturbed` | BaS_gcc/fs/ff.c:2433-3019 | An operation that reads, writes or seeks in one file leaves every other open file with a disjoint chain intact, and the bytes of its directory entry |
| `FileObject.File.SyncUndisturbed` | BaS_gcc/fs/ff.c:2653-2690 | Synchronising one file leaves every other open file with a disjoint chain intact, and the bytes of its directory entry if that is a different one |
| `FileObject.File.TruncateUndisturbed` | BaS_gcc/fs/ff.c:3217-3258 | Truncating one file leaves every other open file with a disjoint chain intact, and the bytes of its directory entry |
| `FileObject.File.OtherChain` | BaS_gcc/fs/ff.c:2534-2644 | Chains of other files stay complete and disjoint while a file grows |
| `FileObject.File.DropChain` | BaS_gcc/fs/ff.c:3240-3242 | Truncation at 0 frees the whole chain, keeping the free count exact and every intermediate FAT well-formed |
| `FileObject.File.CutAt` | BaS_gcc/fs/ff.c:3243-3252 | The FAT part of a truncation inside the file is the abstract cut of the chain |
| `FileObject.File.DropTail` | BaS_gcc/fs/ff.c:3243-3252 | Truncation inside the file frees exactly the clusters behind the current one |
| `FileObject.File.Truncate` | BaS_gcc/fs/ff.c:3217-3258 | Size and contents end at fptr, the file is marked as changed exactly if it was before or lost bytes, exactly the clusters behind fptr become free, each intermediate FAT is well-formed and nothing but the FAT changes; the object stays usable if and only if, beforehand, the buffered sector is among those kept and the link map, if built, was built for exactly the clusters kept |
| `FileObject.File.RefusalOrder` | BaS_gcc/fs/ff.c:2446-2453 | The access checks of an open file and their order: object, drive, recorded error, access mode |
| `Session.Perform` | BaS_gcc/fs/ff.c:2433-3019 | Any run of reads, writes, seeks and syncs without disk errors is a run of the same operations on an array of bytes with a position and a limit: how far each read, write and seek gets is exactly determined by contents, position, access mode and limit, the limit being the clusters of the file and those free at the start (without the free ones if a link map is attached); every FAT on the way is well-formed. A run that ends in `f_sync` leaves contents, FAT, size, start cluster and, on FAT32, the number of free clusters on the drive alone, if what it started from was saved, that is changed or with entry and count up to date; a known count stays known |
| `Session.DoWrite` | BaS_gcc/fs/ff.c:2534-2644 | One `f_write` is one write on the byte array: all bytes asked for or as many as fit below the limit, and none if the size could leave 32 bits |
| `Session.DoSeek` | BaS_gcc/fs/ff.c:2870-3019 | One `f_lseek` is one move on the byte array: to the offset asked for, or to the limit if the file can grow, or else to the end; bytes exposed beyond the old end are unspecified |
| `Session.SameLimit` | BaS_gcc/fs/ff.c:996-1046 | The limit stays the same: growing takes as many clusters from the free ones as it adds to the chain |
| `Session.StopsAtEnd` | BaS_gcc/fs/ff.c:2563-2578 | Where `f_write` stops short, the position is the limit |
| `Session.MapReaches` | BaS_gcc/fs/ff.c:2884-2936 | A complete link map reaches every byte of the file |
| `Session.StaysSaved` | BaS_gcc/fs/ff.c:2433-3019 | An operation in one file leaves it saved: marked as changed, or with its entry and the free count up to date and nothing waiting in the window |
| `Session.SavedOnDrive` | BaS_gcc/fs/ff.c:2653-2690 | A file that is saved and not marked as changed is on the drive: the early return of `f_sync` loses nothing |
| `Session.TruncateAndSync` | BaS_gcc/fs/ff.c:2653-3258 | `f_truncate` and `f_sync`, where the object stays usable: the drive alone shows the bytes that are left, and on FAT32 a known free count that the clusters given up are part of |
| `Session.StaleBuffer` | BaS_gcc/fs/ff.c:3217-3258 | A run after which the file object is inconsistent: a seek back to a sector boundary leaves the buffer with a sector that `f_truncate` then gives up |
| `Session.StaleMap` | BaS_gcc/fs/ff.c:3217-3258 | Another one: a link map built for two clusters, of which `f_truncate` gives up the second |
| `Session.Reopen` | BaS_gcc/fs/ff.c:2653-2690 | After `f_sync` of a changed file, opening it from what its directory entry says on the drive yields the same contents over the same chain |
| `Session.RunAppend` | BaS_gcc/fs/ff.c:2433-3019 | Runs can be extended by one step |
| `Lfn.CmpLfn` | BaS_gcc/fs/ff.c:1237-1264 | Accepts a segment exactly when its characters up to the terminator equal those of the searched name after upper-casing, within the buffer limit, and nothing but fillers follows |
| `Lfn.PickLfn` | BaS_gcc/fs/ff.c:1268-1297 | Rejects a segment exactly when the guards say so, and otherwise puts its characters into the buffer |
| `Lfn.FitLfn` | BaS_gcc/fs/ff.c:1301-1327 | Writes exactly the 32 bytes of the entry for that segment, with filler and last-segment flag |
| `Lfn.SumSfn` | BaS_gcc/fs/ff.c:1386-1395 | The checksum of the eleven name bytes is the sum that `SumEleven` writes out |
| `Lfn.SegFacts` | BaS_gcc/fs/ff.c:1301-1327 | A segment written by `fit_lfn` reads back as its 13 name characters, its order, and the last flag exactly on the last one |
| `Lfn.RoundTrip` | BaS_gcc/fs/ff.c:1237-1327 | The segments of a name, picked up in descending order, rebuild the name whatever the buffer held; all are accepted if and only if the length is within the limit |
| `Lfn.PickLimit` | BaS_gcc/fs/ff.c:1284-1292 | The limit: every length up to _MAX_LFN-2, and _MAX_LFN-1 only for multiples of 13 |
| `Lfn.AcceptsSegment` | BaS_gcc/fs/ff.c:1237-1264 | A segment is accepted exactly when it agrees with the search buffer, terminator and buffer limit included |
| `Lfn.AcceptsRaw` | BaS_gcc/fs/ff.c:1237-1264 | In terms of the bytes of the entry: accepted exactly if its text ends at a terminator or at the entry, is followed by fillers alone, and agrees with the search buffer character by character after upper-casing |
| `Lfn.PicksAt` | BaS_gcc/fs/ff.c:1268-1297 | What is picked up of a segment with z characters, and where its characters go in the buffer, in terms of its bytes |
| `Lfn.PicksRaw` | BaS_gcc/fs/ff.c:1268-1297 | A segment that is picked up has such a text |
| `Lfn.SegmentBytes` | BaS_gcc/fs/ff.c:1301-1327 | A written segment byte by byte: order with the mark of the last one, attribute, type, sum, cluster, and its characters with terminator and fillers |
| `Lfn.MatchExact` | BaS_gcc/fs/ff.c:1237-1264 | All segments of a stored name are accepted if and only if the searched name is equal after upper-casing and short enough for the guard at its end, whatever stale words follow its terminator |
| `Lfn.CriticalName` | BaS_gcc/fs/ff.c:1237-1264 | The name of 255 letters, in a buffer for 255 characters, is not accepted by its own segments |
| `Lfn.SumPrefix` | BaS_gcc/fs/ff.c:1385-1395 | The checksum depends on the name bytes only |
| `Lfn.SumEleven` | BaS_gcc/fs/ff.c:1385-1395 | The sum of eleven bytes, written out: each byte is added, modulo 2^8, to the sum so far rotated right by one |
| `Lfn.SumExample` | BaS_gcc/fs/ff.c:1385-1395 | The sum of README.TXT is 115 |
| `DirTable.ScanItems` | BaS_gcc/fs/ff.c:1405-1457 | On a well-formed directory, the entry-by-entry search finds the first object whose long or short name matches |
| `DirTable.KindIs` | BaS_gcc/fs/ff.c:1424-1440 | The kinds of entries on raw bytes: end mark, deleted or label (bit 3 of the attribute without it being 0x0F), long-name entry, and file or directory |
| `DirTable.SfnBytes` | BaS_gcc/fs/ff.c:1606-1617 | A new short entry byte by byte: eleven name bytes, the two NT flags, and zeros |
| `DirTable.FindsFirst` | BaS_gcc/fs/ff.c:1405-1457 | The same from the first entry on, whatever lfn_idx held before |
| `DirTable.NewItemMatches` | BaS_gcc/fs/ff.c:1523-1620 | Whether the name just written will be found: by its long name unless its length is critical, otherwise by its short name unless that was lossy |
| `DirTable.RegisteredItems` | BaS_gcc/fs/ff.c:1561-1617 | The table that `dir_register` leaves is a well-formed directory in which the new object took the place of blank entries |
| `DirTable.RegisterFound` | BaS_gcc/fs/ff.c:1523-1620 | A name not found before is found after `dir_register`, with lfn_idx at its first long-name entry |
| `DirTable.RegisteredSearch` | BaS_gcc/fs/ff.c:1523-1620 | The search for the name just entered finds it if and only if the new object matches, and finds nothing otherwise |
| `DirTable.RegisterKeeps` | BaS_gcc/fs/ff.c:1523-1620 | Every search that the new object does not match resolves as before |
| `DirTable.NoCapture` | BaS_gcc/fs/ff.c:1405-1457 | In a directory whose 8.3-form long names carry their own short names, a name that was not found can be entered under an unused short name without the new object matching the search for any name present |
| `DirTable.RemovedItems` | BaS_gcc/fs/ff.c:1630-1665 | What `dir_find` found through the long name, or without one, is turned into blank entries by `dir_remove`, and nothing else changes |
| `DirTable.RemoveKeeps` | BaS_gcc/fs/ff.c:1630-1665 | After a removal every other search resolves as before, and the removed name is gone if no other object matches it |
| `DirTable.RemovedGone` | BaS_gcc/fs/ff.c:1630-1665 | Without another match, the removed name is not found |
| `DirTable.TrailingStep` | BaS_gcc/fs/ff.c:1564-1576 | The counter of blank entries of the registration loop tells the length of the current run of blank entries |
| `DirTable.FullTable` | BaS_gcc/fs/ff.c:1561-1576 | A table without a blank entry has no room for any object |
| `DirTable.FullExample` | BaS_gcc/fs/ff.c:1561-1576 | Such a table: a root directory of 512 short names |
| `DirTable.LossySearch` | BaS_gcc/fs/ff.c:1542-1552 | A search for a lossy name does not look at short names, so numbering does not change its result |
| `DirTable.ShortOccupied` | BaS_gcc/fs/ff.c:1405-1457 | A search by the short name alone finds an object if and only if a short entry in front of the end mark has those eleven bytes |
| `DirTable.LocateBuffer` | BaS_gcc/fs/ff.c:1405-1457 | What lies in the search buffer behind the name does not change what is found |
| `RawSearch.SearchRaw` | BaS_gcc/fs/ff.c:1405-1457 | `dir_find` in any table, well-formed or not, in terms of the bytes of its entries: the first entry of a file or directory in front of the end mark whose long-name entries, in descending order without a gap, all agree with the name and carry its sum, or whose eleven bytes are those searched for; with the start of the long name if it has one that matches; deleted entries and labels are never found and end a run of long-name entries |
| `RawSearch.LabelExample` | BaS_gcc/fs/ff.c:1430-1431 | The label of a volume that equals the name searched for is passed over, and a directory behind it is found |
| `NumName.GenNumName` | BaS_gcc/fs/ff.c:1338-1375 | The numbered name: body cut at its first space or the room left, a tilde and the hexadecimal number, extension kept; large numbers are mixed with a hash of the long name |
| `NumName.Hash` | BaS_gcc/fs/ff.c:1351-1353 | The 16-bit hash loop over the long name |
| `NumName.Digits` | BaS_gcc/fs/ff.c:1355-1363 | The digits behind the tilde are the hexadecimal number |
| `NumName.SmallNumber` | BaS_gcc/fs/ff.c:1351-1353 | Numbers up to 5 are used as they are, larger ones are mixed with the name |
| `NumName.HashStep` | BaS_gcc/fs/ff.c:1351-1353 | One more character: added, modulo 2^16, to the hash rotated right by one |
| `NumName.HashExample` | BaS_gcc/fs/ff.c:1351-1353 | The number made of 7 and the name AB |
| `NumName.HexDigits` | BaS_gcc/fs/ff.c:1355-1363 | Digits 0 to 9 and A to F, the highest first |
| `NumName.NumberedBytes` | BaS_gcc/fs/ff.c:1338-1375 | The eleven bytes of a numbered name place by place: body, tilde, digits, spaces, extension |
| `Directory.Dir.Sdi` | BaS_gcc/fs/ff.c:1083-1122 | Position k exactly when the table has an entry k, and otherwise an error |
| `Directory.Dir.Next` | BaS_gcc/fs/ff.c:1131-1190 | The next entry, within a sector, a cluster or along the chain; at the end of the table it stops, or stretches the directory by a cluster of zero entries; a static table is never stretched and only ends with FR_NO_FILE; nothing outside the FAT and the sectors of the directory changes, the table never grows past 65536 entries, and each intermediate FAT is well-formed |
| `Directory.Dir.Stretch` | BaS_gcc/fs/ff.c:1158-1179 | Stretching links one free cluster of zero entries behind the table; nothing else of the FAT changes, and nothing of the volume outside the FAT and the directory |
| `Directory.Dir.WalkTo` | BaS_gcc/fs/ff.c:1083-1190 | `dir_sdi(0)` and k steps of `dir_next` arrive at entry k exactly when `dir_sdi(k)` does |
| `Directory.Dir.SamePosition` | BaS_gcc/fs/ff.c:1083-1190 | Two objects at the same entry agree in index, cluster, sector and offset |
| `Directory.Dir.Find` | BaS_gcc/fs/ff.c:1405-1457 | Refines the search over the entries of the table, with lfn_idx, and changes nothing on the volume; what it finds is the first entry of a file or directory that matches, in terms of bytes (`RawSearch.SearchRaw`) |
| `Directory.Dir.Remove` | BaS_gcc/fs/ff.c:1630-1665 | Marks exactly the entries of the object as deleted, and changes nothing outside the directory |
| `Directory.Dir.Reserve` | BaS_gcc/fs/ff.c:1561-1576 | Finds the first run of ne blank entries, stretching the table by zero entries if need be; fails only if there is none, because the table is static or has 65536 entries, or because the volume is full, or on a FAT entry holding 1; on a static table it answers FR_NO_FILE exactly when there is no such run |
| `Directory.Dir.FindNumber` | BaS_gcc/fs/ff.c:1542-1552 | Ends with the first of the numbered short names 1 to 99 that is not in the directory, and is denied exactly when all of them are |
| `Directory.Dir.PutParts` | BaS_gcc/fs/ff.c:1578-1591 | The long-name entries are written bottom first, in descending order; no other entry changes, and nothing outside the directory |
| `Directory.Dir.PutShort` | BaS_gcc/fs/ff.c:1606-1617 | The short entry is cleared and filled with name and NT flags; no other entry changes, and nothing outside the directory |
| `Directory.Dir.Enter` | BaS_gcc/fs/ff.c:1554-1617 | The object goes to the first run of blank entries that is long enough, and no other entry changes, nor anything outside the directory; fails for the reasons of the search for blank entries |
| `Directory.Dir.Register` | BaS_gcc/fs/ff.c:1523-1620 | The same with a numbered short name if the name was lossy; denied exactly when all numbers are taken, and failing otherwise for the reasons of the search for blank entries |
| `Directory.Dir.RegisterAndFind` | BaS_gcc/fs/ff.c:1405-1620 | In a well-formed directory a name that was not found is found where `dir_register` entered it, by its long name or else by its short one; the one failure is a lossy name of critical length; in a neat directory every search that found something finds the same as before, every other one finds the new object or nothing, and the directory stays neat |
| `Directory.Dir.RegisterIn` | BaS_gcc/fs/ff.c:1523-1620 | The same for `dir_register` alone: the directory stays a list of items, the map from names to entries gains just the unbound names of the new object, a lossy short name gets the first number that is not taken, and each failure has its reason |
| `Directory.Dir.RemoveIn` | BaS_gcc/fs/ff.c:1405-1665 | Looking a name up and removing it: missing exactly if no object matches; exactly the entries found are marked; if the object was found by its long name or has none, it is gone as a whole and just its names are unbound; otherwise its long-name entries stay behind |
| `Directory.Dir.RemoveAndFind` | BaS_gcc/fs/ff.c:1405-1665 | In a neat directory a name removed as a whole is not found any more |
| `DirMap.OneMatch` | BaS_gcc/fs/ff.c:1405-1457 | In a neat directory, where short names go with their long names and no two objects share a name, a search matches one object at most |
| `DirMap.EnteredWhole` | BaS_gcc/fs/ff.c:1523-1620 | Entering a name that was not found keeps a well-formed directory well-formed, and a neat one neat; every search then answers as the map from names to entries with the new names bound, if unbound before |
| `DirMap.Captured` | BaS_gcc/fs/ff.c:1405-1620 | In any well-formed directory, neat or not: the new object catches exactly the searches that match it and found nothing before, or something behind it |
| `DirMap.CaptureExample` | BaS_gcc/fs/ff.c:1405-1620 | A directory in which entering a new name changes what the search for an old one finds |
| `DirMap.RemovedWhole` | BaS_gcc/fs/ff.c:1630-1665 | Removing what a search found erases the object as a whole and unbinds just its names if and only if it was found by its long name or has none; otherwise its long-name entries stay |
| `DirMap.RanStep` | BaS_gcc/fs/ff.c:1405-1665 | Runs of changes compose |
| `DirMap.StaysBound` | BaS_gcc/fs/ff.c:1405-1665 | Over any run, a name stays bound to what it is bound to until that object is dropped |
| `DirMap.StaysFree` | BaS_gcc/fs/ff.c:1405-1665 | Over any run, an unbound name stays unbound until an object is added that matches it |
| `DirSession.Perform` | BaS_gcc/fs/ff.c:1405-1803 | Any run of entering and removing objects by path (the directory part of creating and unlinking) in a neat directory, without disk errors: each operation answers by what the map from names to entries binds its name to after the changes before (FR_EXIST exactly for a bound name on creation, FR_NO_FILE exactly for an unbound one on removal), changes table and map accordingly, and refuses a new name only for the reason that holds then: bad name, no number left, no run of blank entries in a table that cannot grow, or a FAT entry holding 1; up to the first operation that removes an object with a long name by its short one, which is an object of the list at that point |
| `DirSession.DoMake` | BaS_gcc/fs/ff.c:1405-1620 | A name is looked up and entered: FR_EXIST exactly if it is found, and otherwise one new object with its entries, or the table as it was but for blank entries behind it and the reason |
| `DirSession.DoUnlink` | BaS_gcc/fs/ff.c:1405-1665 | A name is looked up and removed: FR_NO_FILE exactly if it is not found, and otherwise exactly the entries found are marked, and the object found is dropped or, if found by its short name in spite of a long one, named |
| `DirSession.Enter` | BaS_gcc/fs/ff.c:1523-1620 | What entering makes of the table: the new object in place of blank entries, or zero entries behind it and the reason for failing |
| `DirSession.InBounds` | BaS_gcc/fs/ff.c:1131-1190 | A directory lies within the entries it can reach, and reaches them when the volume is full |
| `DirSession.LinkedBound` | BaS_gcc/fs/ff.c:1405-1665 | At any point of a run, what a search finds is what the map answers after the changes so far |
| `Sharing.FileKept` | BaS_gcc/fs/ff.c:1131-1665 | A directory operation leaves every open file whose clusters are none of the directory's as it was, and the bytes of its entry if that lies elsewhere |
| `Sharing.DirectoryKept` | BaS_gcc/fs/ff.c:2433-3019 | An operation that reads, writes or moves in a file leaves the entries of every directory without a common cluster as they were |
| `Sharing.EntrySynced` | BaS_gcc/fs/ff.c:2653-2690 | `f_sync` changes exactly one entry of the directory the file lies in, its own |
| `Boot.PowerTest` | BaS_gcc/fs/ff.c:2149-2150 | b & (b - 1) is zero exactly for powers of two |
| `Boot.FieldBytes` | BaS_gcc/fs/ff.c:2136-2170 | The bytes of the boot record that its fields are read from, with the alternatives of 16 and 32 bits |
| `Boot.KindBytes` | BaS_gcc/fs/ff.c:2033-2050 | The bytes that make a sector a FAT boot record, some other record or none |
| `Boot.RecordBytes` | BaS_gcc/fs/ff.c:2119-2134 | Where the boot record is looked for, in terms of the bytes of the partition table |
| `Boot.SubTypes` | BaS_gcc/fs/ff.c:2166-2168 | The bounds on the cluster count between the sub-types |
| `Boot.ParseWritten` | BaS_gcc/fs/ff.c:2136-2185 | The verdict on a boot record and its geometry, written out from its fields, when no sum leaves 32 bits |
| `Boot.CheckFs` | BaS_gcc/fs/ff.c:2033-2050 | A sector is classified by its signature and its two FAT strings |
| `Boot.FindRecord` | BaS_gcc/fs/ff.c:2119-2134 | The boot record is looked for at sector 0 and then at the first partition |
| `Boot.ParseFacts` | BaS_gcc/fs/ff.c:2136-2185 | What the 32-bit sums of an accepted boot record amount to, in true sums |
| `Boot.ParseSound` | BaS_gcc/fs/ff.c:2136-2185 | An accepted boot record describes ordered, disjoint areas on the device, with a FAT large enough, if and only if no sum leaves 32 bits, the volume ends on the device and the FSInfo offset is inside the reserved area |
| `Boot.WrapExample` | BaS_gcc/fs/ff.c:2136-2185 | A boot record, with signature and FAT string, that is found at sector 0 of any drive and accepted although its FAT reaches over the data area, because a product wraps around; it is sound for no device |
| `Boot.MountWrapped` | BaS_gcc/fs/ff.c:2060-2217 | Mounting a drive with that boot record succeeds |
| `Boot.LoadCounters` | BaS_gcc/fs/ff.c:2188-2204 | Counters are taken from a signed FSInfo sector, and are unknown otherwise |
| `Boot.Attach` | BaS_gcc/fs/ff.c:2143-2213 | The volume object takes over the geometry with an empty window, and is consistent if the geometry is sound |
| `Boot.Mount` | BaS_gcc/fs/ff.c:2060-2217 | A mounted volume is left alone while the medium stays; otherwise the outcome is that of the boot record found, and a drive that does not fail is mounted exactly if it has one that is accepted |
| `Format.SlackExact` | BaS_gcc/fs/ff.c:3717-3720 | The mask computes the distance to the next multiple of a power of two |
| `Format.PlanFacts` | BaS_gcc/fs/ff.c:3695-3732 | Each plan has sizes that fit the boot record, an aligned data area, a sub-type that agrees with its final cluster count, and a FAT large enough |
| `Format.BootRead` | BaS_gcc/fs/ff.c:3769-3806 | The boot record written reads back as the plan |
| `Format.FormattedAccepted` | BaS_gcc/fs/ff.c:3686-3862 | Mounting accepts the boot record of a plan, with the same sub-type, cluster count, FAT start and data start, if and only if the alignment left room for a cluster |
| `Format.FreshTable` | BaS_gcc/fs/ff.c:3812-3833 | The initial FAT decodes to a well-formed table with the reserved entries in use and all clusters free, but for the root directory of FAT32 |
| `Format.AutoUnit` | BaS_gcc/fs/ff.c:3686-3690 | The cluster size is taken from the first row of the table that the volume size reaches |
| `Format.SizeRows` | BaS_gcc/fs/ff.c:3686-3690 | The cluster size for each range of volume sizes |
| `Format.Units` | BaS_gcc/fs/ff.c:3691-3693 | Sectors per cluster: at least 1 and at most 128 |
| `Format.DraftWritten` | BaS_gcc/fs/ff.c:3695-3713 | Sub-type and sizes of the areas before the alignment, written out |
| `Format.PlanWritten` | BaS_gcc/fs/ff.c:3695-3732 | The plan written out: alignment to the erase block by growing the reserved area or the FAT, the final cluster count, and when the parameters are given up |
| `Format.BootBytes` | BaS_gcc/fs/ff.c:3769-3806 | The bytes of the boot record that mounting does not read |
| `Format.MasterBytes` | BaS_gcc/fs/ff.c:3734-3766 | The bytes of the partition table |
| `Format.FirstFatBytes` | BaS_gcc/fs/ff.c:3812-3833 | The first bytes of the initial FAT |
| `Format.PlanVolume` | BaS_gcc/fs/ff.c:3669-3732 | The plan is the one the parameters and the size of the device call for; on a drive that does not fail these decide between success, FR_DISK_ERR for fewer than 128 sectors, and FR_MKFS_ABORTED |
| `Format.WriteVolume` | BaS_gcc/fs/ff.c:3746-3862 | Success leaves records, FAT, zero root directory and FSInfo as planned on the drive, with the backup copies of boot record and FSInfo on FAT32 |
| `Format.Mkfs` | BaS_gcc/fs/ff.c:3640-3862 | FR_INVALID_PARAMETER exactly for a cluster size that is no power of two; otherwise, on a drive that does not fail, success exactly if a caller could tell so from cluster size, device size and erase block, with the plan these call for; then the drive holds the planned volume and, on FAT32, its backup records |
| `Format.MountableIff` | BaS_gcc/fs/ff.c:3686-3862 | The record of a formatted drive is found, and accepted if and only if there is room for a cluster |
| `Format.MountedPlan` | BaS_gcc/fs/ff.c:2060-2217 | Mounting a formatted drive yields the planned geometry and, on FAT32, the planned free count, which is the one in the FSInfo sector |
| `Format.MountedFresh` | BaS_gcc/fs/ff.c:3812-3840 | A freshly mounted volume has a well-formed FAT, an empty root directory and the planned number of free clusters |
| `Format.MkfsAndMount` | BaS_gcc/fs/ff.c:3640-3862 | On a drive that does not fail, formatting succeeds exactly if the parameters allow it; then mounting accepts the volume if and only if its plan leaves a cluster, with the geometry of the plan, an empty root and, on FAT32, a free count equal to the number of zero entries |
| `Format.NoRoomExample` | BaS_gcc/fs/ff.c:3715-3732 | A plan that goes through and cannot be mounted: the erase block is so large that no cluster is left |
| `Fresh.Root` | BaS_gcc/fs/ff.c:3812-3840 | The root directory of a fresh volume is a neat list without objects, to which no name is bound, so that runs of directory operations can start |
| `Fresh.FormatAndOpen` | BaS_gcc/fs/ff.c:2060-3862 | Formatting succeeds exactly if the parameters allow it and mounting exactly if a cluster is left, and then the root directory is ready for runs |
| `Names.TakeSegment` | BaS_gcc/fs/ff.c:1691-1734 | The long name is the converted segment without trailing spaces and dots; it is rejected exactly when the segment is too long, holds an inconvertible or illegal character, or is empty |
| `Names.ShortStep` | BaS_gcc/fs/ff.c:1743-1788 | One round of the short-name loop keeps the slots filled with the capitals of what was read as long as the name is of the 8.3 form, and asks for a long name as soon as it is not |
| `Names.MakeShort` | BaS_gcc/fs/ff.c:1736-1801 | The status asks for no long name exactly when the name is of the 8.3 form with one letter case in each part, and then the eleven bytes and NT flags are those of the name; in all cases the eleven bytes and the loss flag are a function of the name |
| `Names.FormParts` | BaS_gcc/fs/ff.c:1736-1801 | The short form of any name with an extension: body and extension are what lies before and behind the last dot, leading spaces and dots aside; each gives its first eight or three characters other than spaces and dots, padded with spaces, and a first byte 0xE5 becomes 0x05; something is lost exactly if characters are left out, cut off or replaced |
| `Names.FormBody` | BaS_gcc/fs/ff.c:1736-1801 | The same for a name without an extension |
| `Names.CharacterSets` | BaS_gcc/fs/ff.c:1698-1766 | Which characters are rejected, replaced in short names, end a segment, or are stripped |
| `Names.Marks` | BaS_gcc/fs/ff.c:1760-1787 | What a character becomes in a short name, and whether that is lossy |
| `Names.StatusValues` | BaS_gcc/fs/ff.c:1791-1801 | The bits of the status byte, and the byte for 0xE5 |
| `Names.CreateName` | BaS_gcc/fs/ff.c:1675-1803 | Succeeds exactly on an acceptable segment; the long name is the stripped segment; a long-name entry is asked for if and only if the name is not of the 8.3 form in one case per part, and otherwise printing the entry gives the name back |
| `Names.PrintName` | BaS_gcc/fs/ff.c:1900-1937 | Prints body and extension up to their first space, with letter case by the NT flags and 0x05 as 0xE5 |
| `Names.PrintedBytes` | BaS_gcc/fs/ff.c:1900-1937 | Each printed character in terms of the byte of the entry and its NT flag; what is printed ends in front of the first space |
| `Names.PrintedFull` | BaS_gcc/fs/ff.c:1736-1937 | An 8.3 name stored with its NT flags prints as it was written |
| `Names.ShortIff` | BaS_gcc/fs/ff.c:1736-1801 | Cut at its last dot, a name is of the 8.3 form exactly when it can be cut so at all |
| `Names.ShortSegment` | BaS_gcc/fs/ff.c:1691-1801 | A segment that is itself of the 8.3 form is accepted and is the name created from it |
| `Names.FormFolded` | BaS_gcc/fs/ff.c:1736-1801 | Two names of the code page that searches do not tell apart have the same eleven bytes and the same loss flag, if conversion and upper-casing go together on the page |
| `Names.UnspelledExample` | BaS_gcc/fs/ff.c:1760-1766 | A name with a character outside the page may have another short form than a name that searches do not tell apart from it |
| `Create.Parse` | BaS_gcc/fs/ff.c:1675-1803 | Succeeds exactly on a segment that is a name, and leaves name, short form and status as the directory operations need them |
| `Create.HabitFolded` | BaS_gcc/fs/ff.c:1675-1803 | If conversion and upper-casing go together on the characters of the code page, names that searches do not tell apart stand for the same short name |
| `Create.AskedAsks` | BaS_gcc/fs/ff.c:1675-1803 | Then the search for a path is one of those that a neat directory answers like a map |
| `Create.CreateAndFind` | BaS_gcc/fs/ff.c:1405-1803 | The directory part of creating an object by path, in a well-formed directory: rejected exactly for a bad name, and FR_EXIST if and only if the name is found; otherwise it is found again where it was entered, with the short name and number the name calls for, an entry without long name prints as the name, all other names of a neat directory keep what they are bound to, and each failure has its reason |
| `Locks.LockTable.ChkLock` | BaS_gcc/fs/ff.c:626-649 | The answer for a file and an access mode, from the table alone |
| `Locks.LockTable.EnqLock` | BaS_gcc/fs/ff.c:652-659 | There is room for one more file exactly if the table has a blank entry |
| `Locks.LockTable.IncLock` | BaS_gcc/fs/ff.c:662-691 | The table with the file's entry counted up, or the internal error with the table unchanged |
| `Locks.LockTable.DecLock` | BaS_gcc/fs/ff.c:694-714 | The table with the entry counted down and blanked at zero |
| `Locks.LockTable.ClearLock` | BaS_gcc/fs/ff.c:717-727 | The table without the entries of the volume |
| `Locks.OneEntry` | BaS_gcc/fs/ff.c:626-714 | A file has one entry at most, and its handles carry that entry's id |
| `Locks.Exclusive` | BaS_gcc/fs/ff.c:626-714 | Of two handles on one file, neither may write |
| `Locks.EntryIff` | BaS_gcc/fs/ff.c:626-714 | A file has an entry exactly while it is open; the mark 0x100 stands exactly for a writer, any other counter for the number of readers |
| `Locks.OpenResult` | BaS_gcc/fs/ff.c:626-691 | In terms of live handles alone: locked exactly if there is a conflict, too many open files exactly if the file is not open and the table is full, and otherwise granted; `inc_lock` never refuses what `chk_lock` allowed |
| `Locks.CreateResult` | BaS_gcc/fs/ff.c:652-691 | A new file is granted a lock exactly if the table has a blank entry |
| `Locks.RemoveResult` | BaS_gcc/fs/ff.c:626-649 | Removal is refused exactly while the file is open |
| `Locks.CloseFrees` | BaS_gcc/fs/ff.c:694-714 | A close frees the entry exactly if no other handle has the file open |
| `Locks.OpenKeeps` | BaS_gcc/fs/ff.c:662-691 | Opening keeps the table coherent if and only if it is not the 256th reader, whose count is the mark of a writer |
| `Locks.TooManyReaders` | BaS_gcc/fs/ff.c:662-691 | 255 readers and one more: the open is granted, the counter is the mark of a writer, and one close blanks the entry |
| `Locks.CloseKeeps` | BaS_gcc/fs/ff.c:694-714 | Closing keeps the table coherent |
| `Locks.RemountKeeps` | BaS_gcc/fs/ff.c:717-727 | Mounting a volume again keeps the table coherent for the other volumes |
| `Locks.RunSafe` | BaS_gcc/fs/ff.c:626-727 | Over any run of opens, creations, closes and mounts with at most 255 readers per file: one entry per file, writers alone, counters equal to the number of handles |
| `CodeTable.Convert` | BaS_gcc/fs/cc932.c:3726-3782 | Codes up to 0x80 are kept; otherwise at most 16 probes, none of them at the sentinel, and for up to 2^15 keys the value paired with the key, or 0 when the key is absent |
| `CodeTable.LookupAt` | BaS_gcc/fs/cc932.c:3726-3782 | In a strictly increasing table the value found for a key is the one paired with it |
| `CodeTable.Cut` | BaS_gcc/fs/cc932.c:3748-3755 | One probe leaves the key, if present, in the half that is kept |
| `DmaAlloc.Allocator.SetInitiator` | BaS_gcc/dma/dma.c:106-402 | Fails exactly if the requestor is unknown or all its slots are taken, with nothing changed; otherwise the first of its slots in the order of the code that is free or its own is given to it together with the routing in that slot's register field, and no other slot or field changes |
| `DmaAlloc.Allocator.Claim` | BaS_gcc/dma/dma.c:106-402 | A taken slot is refused and a free one is routed to the requestor |
| `DmaAlloc.Allocator.GetInitiator` | BaS_gcc/dma/dma.c:414-426 | The first slot of the requestor, and 0 without one |
| `DmaAlloc.Allocator.FreeInitiator` | BaS_gcc/dma/dma.c:434-447 | The first multiplexed slot of the requestor becomes free, and no other |
| `DmaAlloc.Allocator.SetAndGet` | BaS_gcc/dma/dma.c:106-426 | An accepted requestor is found at a slot that the register routes to it |
| `DmaAlloc.Allocator.SetChannel` | BaS_gcc/dma/dma.c:458-483 | The channel the requestor has, or the first free one; no requestor gets a second channel |
| `DmaAlloc.Allocator.ClearChannel` | BaS_gcc/dma/dma.c:485-493 | Exactly the named channel becomes free; a number that is no channel changes nothing |
| `DmaAlloc.Allocator.GetChannel` | BaS_gcc/dma/dma.c:505-516 | The first channel of the requestor, or -1 |
| `DmaAlloc.Allocator.FreeChannel` | BaS_gcc/dma/dma.c:525-538 | Exactly the requestor's channel becomes free |
| `DmaAlloc.Allocator.Run` | BaS_gcc/dma/dma.c:106-538 | Over any run of requests every slot in use stays routed to its requestor, no requestor but -1 holds two channels, and slots and channels stay with their holders until given back |
| `DmaAlloc.FieldSet` | BaS_gcc/include/MCF5475_DMA.h:132-147 | Storing a slot's bits sets that slot's field of the register and no other |
| `DmaAlloc.Values` | BaS_gcc/include/MCF5475_DMA.h:150-179 | Each constant lies in its slot's field and selects its requestor |
| `DmaAlloc.Requestors` | BaS_gcc/include/mcd_initiators.h:7-44 | The numbers of the requestors, and those with a slot of their own |
| `DmaProgress.Dma.StartDma` | BaS_gcc/dma/MCD_dmaApi.c:400-410 | The parameters of one channel are remembered with the signs of its strides, and those of the others are kept |
| `DmaProgress.Dma.XferProgrQuery` | BaS_gcc/dma/MCD_dmaApi.c:640-697 | For a channel in range the report is made from the remembered parameters, the descriptor and the snapshot: with a destination that does not move, its address in the descriptor and the size of the snapshot; with one that moves, the address of the snapshot and the distance covered with a contiguous transfer, or the exact progress of an aligned strided one under the condition of `Strided`; the source address of the descriptor, moved on by one stride for each movement unless the source does not move |
| `DmaProgress.Contiguous` | BaS_gcc/dma/MCD_dmaApi.c:640-674 | With a stride of the movement size, up or down, the size reported is the distance covered modulo 2^32, for any alignment |
| `DmaProgress.MidwaySize` | BaS_gcc/dma/MCD_dmaApi.c:640-674 | The size reported in the middle of a movement, up or down: the bytes of the movements completed and those of the parts at both ends |
| `DmaProgress.Strided` | BaS_gcc/dma/MCD_dmaApi.c:640-694 | After n movements of an aligned strided transfer the report is n times the movement size, and the source address n strides on, if and only if the distance fits a signed word or the stride is the movement size |
| `DmaProgress.OverflowExample` | BaS_gcc/dma/MCD_dmaApi.c:640-694 | A strided transfer over 2 GB, reported wrongly |
| `DmaProgress.StaysAligned` | BaS_gcc/dma/MCD_dmaApi.c:640-674 | The destination stays aligned over any number of movements, wrap-around included |

## Left out

- Directory chains in `f_open`, `f_mkdir`, `f_unlink`, `f_rename`, `f_chdir`, `f_getcwd`, `f_opendir`, `f_readdir`, `f_stat`, `f_chmod`, `f_utime`: only the tail of `f_open` (the constructor of `File`) and the creation of an object in one directory are modelled; the rest are sequences of the operations modelled here.
- `follow_path` over several segments and relative paths: one segment is parsed at a time.
- `dir_read`: its loop is not modelled; what `pick_lfn` makes of the segments it passes on is.
- `f_write`, `f_read` on read-only or write-protected media, reentrancy locks, timeouts, multi-partition, `_FS_TINY`, sector sizes other than 512, erase commands.
- Disk drivers, `disk_ioctl` and the string functions of FatFs.
- Double-byte names and the literal code page tables: conversion is a parameter, and the search of `ff_convert` is proved for any sorted table.
- get_fileinfo: only the printing of the 8.3 name is modelled (`PrintName`); attributes, size and times are copied fields.
- FileObject.File.Sync: persistence is stated for a file with the written flag, because the code flushes nothing otherwise.
- FileObject.File.Write: the arguments are a byte sequence below 4 GB; the drive's sector count argument, which the code casts to eight bits, never exceeds the cluster size of 128.
- FileObject.File.Truncate: stated for a file whose first cluster is the head of its chain, which the open-file invariant does not include.
- Session.DoSeek: bytes exposed by seeking past the end are unspecified, as in the code.
- Session.Perform: runs start from a file with a complete link map that is not empty, or none, on a table without the reserved value 1, and do not include CREATE_LINKMAP and `f_truncate`.
- FileSystem.Volume.CreateChain: after a failed read of the status of a cluster, the table is stated only if the window still agreed with the drive.
- FileObject.File.Write: once the volume has strayed, its body is followed no further, nor are those of `f_lseek` and of the directory operations; their contracts then allow any of their answers.
- Directory.Dir.RegisterAndFind: for directories of at most 65536 entries, because `index` has 16 bits; a directory that starts so stays so.
- DirSession.Perform: beyond the first removal of an object with a long name by its short one, nothing but the setting is promised, because the directory then holds long-name entries without an object. The lock and attribute checks and the removal of the object's own chain in `f_unlink` are left out.
- Create.CreateAndFind: the lock and attribute checks of `f_open`, and what it does to an object that exists (open or truncate it), are left out; `Locks` models the lock table by itself.
- DirTable.RemovedItems: excludes an object found through the short name of its long-named entry, whose long-name entries stay behind; directories that hold such leftovers are not lists of items in this model.
- Directory.Dir.Find: volume labels and entries with an unknown attribute are skipped as the code does; nothing is said about their meaning.
- Boot.ParseSound: boot sectors within the last 65536 sectors below 2^32 are excluded.
- Boot.Mount: an access that asks for write protection to be checked is not modelled.
- Format.Mkfs: the device has fewer than 0xFFFF0000 sectors, its erase block size is a power of two when it is used, and an explicit cluster size must not give more clusters than FAT32 can number; the results of writing the FSInfo sectors are ignored by the code and by the model, and the final CTRL_SYNC always succeeds.
- Format.MkfsAndMount: for a reliable drive.
- Names.CreateName: single-byte code pages; the dot entries of relative paths are left out.
- Locks.RunSafe: an open that fails after `chk_lock` for another reason takes no lock and is not a step of the run.
- DmaProgress.Dma.XferProgrQuery: starts from a stable snapshot; the re-reading loop that waits for one depends on hardware timing.
- DmaProgress.Dma.StartDma: the remembered parameters only; task tables and registers of the engine are left out.
- DmaAlloc.Allocator.SetInitiator: the register is a variable; hardware side effects are left out, and so is the interrupt handler.
- CodeTable.Convert: the tables are any sorted tables; the incremental search of the tiny configuration is left out.
