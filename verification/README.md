# A model of the FatFs FAT12/16/32 engine and its SD card driver

FatFs R0.15 is the file system of this firmware: a one-sector write-back window over a
drive, a packed allocation table read and written through that window, cluster chains on
top of the table, files on top of the chains, and directories, 8.3 names, wildcard matching
and a table of open files beside them. Below it, an SPI driver turns byte exchanges with an
SD card into sector reads and writes. This project models both cores, in the configuration
the firmware compiles (read/write, 8.3 names in code page 850, 512-byte sectors, open-file
table, one volume, no long names, no exFAT), and proves that each layer is the simple thing
the layer above takes it for:

- **Bytes, Layout, Mount** - little-endian fields; the volume's geometry; the boot-sector
  checks in 32-bit arithmetic. `MountedLayout` says exactly when an accepted boot sector
  gives a sound layout, `MountExact` which boot sectors give a sound layout, and
  `FormatMounts` that every sound layout has one.
- **FatCodec, Chains, Volumes (Volume.dfy), Allocation** - the drive with failing operations,
  the window, the table as an array of numbers, the allocator as a forest of disjoint,
  acyclic, terminated chains that together with the free clusters make up the volume.
- **FileData, FileObjects (FileObject.dfy), FileRuns** - an open file with its private sector
  buffer, direct multi-sector transfers and cached cluster; every run of reads, writes,
  seeks, truncations and syncs is a run of a byte array with a cursor and a size limit.
- **DirWalk, DirTables, DirData, Directories (Directory.dfy), DirRuns** - moving in a directory
  table, its entries, and every run of lookups, creations and removals as a run of a map
  from names to entries with a size limit.
- **CodePage, Names, Wildcard, Sharing** - parsing and printing 8.3 names, the matcher against
  the meaning of a pattern, and the open-file table against the list of opens.
- **SdCards (SdCard.dfy), SdDriver** - a card that answers byte by byte, following sections
  7.2.3, 7.2.4 and 7.3.3 of the SD Physical Layer Simplified Specification, and the driver;
  every run of requests is a run of a plain sector array.

## How it is modelled

What the source updates in place is a class whose methods are its functions: `Volume` is the
file-system object with its window, `FileObject` an open file, `Directory` a directory object,
`ShareTable` the table of open files, `Driver` the card driver. Each has an abstract value -
`Table()`, `Store()`, `Content()`, `List()`, a card's `mem` - and each method says what it does
to that value.

Disk operations may fail at any point; a failed write may leave anything in its sectors. The
ghost counter `faults` counts failures, and a method that reports a disk error also promises
that the counter rose, so a call on a healthy drive has to succeed. `Volume.Valid` holds
throughout, and with it the mirror: both FATs agree, except under a pending dirty window, as
long as nothing has failed since a mount that found them equal. `Store()` blanks the second
FAT and the FSInfo sector, because they only repeat or summarise other sectors; what is on
them is stated by `SecondFatAgrees` and `SyncFs`. The ghost flag `stale` marks the one case
where a clean window differs from its sector: after a failed clearing of a new directory
cluster.

A file's `pool` is the set of clusters it holds or could be given; what the file can grow to
is `Limit()`, the room of the pool, and what a directory can hold is `Most`, its entries with
all clusters of its pool less those that are no files. Both are constant over a run. With a
right free count (unknown or exact) every call of a run works under that limit, so a write
takes exactly what fits, a seek lands exactly, and a creation is refused exactly when the
directory is full. With a wrong count a volume may believe to be full too early; the limit of
that one call is then what the file or the directory has at that point. `Kept`, `KeptBut` and
`Undisturbed` say that nothing outside the pool changes, `KeptBut` allowing for the file's own
directory entry, in which only archive bit, access date, start cluster, time stamp and size may differ; `FilesKept`, `EntriesKept` and `OwnEntryKept`
turn that into what files and directories do to each other.

What a layer takes for its bytes is stated with literal offsets, masks and marks beside the
functions that compute it: `EntryIsBits` for the FAT, `DataOrder` and `ContentIsClusters` for
the data area, `RootRecords` and `ChainRecords` for directories, `SyncedBytes` and
`FoundByAttribute` for their entries, `LegalMeans`, `StoredBytes` and `ExtendedByLetter` for
names, `CommandBytes` and `TokenBytes` for the bus.

The drive that `Volume` assumes and the sectors `Driver` offers are held to the same two
predicates, `DriveReads` and `DriveWrites`.

A card may delay, refuse a command, report a read error or reject a block whenever the
specification lets it; the ghost counter `trouble` counts that, and the driver reports an error
only when it rose. It may also accept a block and fail to program it; `lost` counts those. Raising
the select line ends what is in progress, except a multiple-block transfer, which waits for its
stop command or token.

## What does not hold of the code

- **FAT area wraps.** `fasize *= n_fats` is a 32-bit product. Two FATs of 2^31 sectors wrap to 0
  and the volume is mounted with its data area inside the first FAT (`Mount.WrappedFatMounts`).
- **FSInfo on the FAT.** A FAT32 volume with one reserved sector and FSInfo in use is mounted
  with the FSInfo sector on top of the first FAT sector, and `sync_fs` then overwrites it
  (`Mount.FsInfoOnFatMounts`).
- **Volume larger than its drive.** The sector count of the boot sector is not held against the
  drive, so clusters can lie behind its end (`Mount.OversizedMounts`). These three are the only
  ways a mounted volume can have an unsound layout (`Mount.MountedLayout`, `Mount.MountedDrive`).
- **Long wildcard terms.** A term with 256 or more `?` acts as a `*` with the count modulo 256.
  A search for 256 of them finds the file "A" (`Wildcard.LongTermFinds`). The matcher is exact
  just for patterns with at most `recur` terms of fewer than 256 `?` each
  (`Wildcard.MatcherExact`).
- **256 readers.** The 256th concurrent reader turns the counter into the writer mark and locks
  the file (`Sharing.OneTooMany`); consistency is kept exactly by steps that stay below
  (`Sharing.StepKeeps`).
- **Unconfirmed writes.** The driver takes an accepted block as written and never asks for the
  card's status. `RES_OK` means that the sectors are on the card exactly if no accepted block was
  lost in programming (`SdDriver.Driver.DiskWrite`, `SdDriver.Run`); the card may lose any block
  it accepts (`SdDriver.AcceptedAndLost`).
- **32-bit byte addresses.** On a byte-addressed card, sector numbers from 2^23 on wrap
  (`SdDriver.TargetExact`): a read of sector 2^23 hands back sector 0 (`SdDriver.AddressWraps`).
- **Stop token in an address.** A multiple-block write whose stop token could not be sent in time
  leaves the card waiting for it. Later calls end with an error and change nothing as long as the
  card hears no stop token in the address bytes sent (`Deaf`). At an address with one it does, and
  may take the bytes behind it for a command: asked for sector 0xFD5100 it reads sector 0x1FFFF,
  and the driver takes that for the answer (`SdDriver.StopInAddress`).

The comments at ff.c:41-43 say that the cluster limits differ from Microsoft's specification;
the model has the code's limits.

## Model

| member | source | states |
|---|---|---|
| Mount.MountedLayout | c/FatFs/ff15/source/ff.c:3512-3583 | of every accepted boot sector: the layout is sound (regions disjoint and in order, FAT big enough, clusters on the drive) if and only if the 32-bit sums do not wrap, the last cluster ends on the drive, and FSInfo, if used, is not on the FAT |
| Mount.MountedDrive | c/FatFs/ff15/source/ff.c:3291-3583 | the same of whole drives: what is mounted comes from a sector the search recognises as a FAT boot sector, and its layout is sound if and only if those three conditions hold |
| Mount.MountAccepts | c/FatFs/ff15/source/ff.c:3512-3561 | which boot sectors are accepted and which refused, in their bytes: sector size, one or two FATs, cluster size a power of two, counts that leave 1 to 0x0FFFFFF5 clusters, a root directory and revision that go with the sub-type, and a FAT with enough bits for all entries |
| Mount.MountExact | c/FatFs/ff15/source/ff.c:3512-3583 | for every sound layout: it is mounted from exactly the boot sectors that describe it, field by field - sizes at their offsets in 16 or 32 bits, sub-type by the cluster count, root cluster at 44, FSInfo at 48, leftover sectors less than a cluster |
| Mount.DriveExact | c/FatFs/ff15/source/ff.c:3291-3583 | the same of whole drives: mounted with a sound layout exactly when the volume found starts where the layout says and its boot sector describes it |
| Mount.MountedType | c/FatFs/ff15/source/ff.c:3538-3543 | the sub-type of whatever is accepted is the one of its cluster count: FAT12 up to 0xFF5, FAT16 above that up to 0xFFF5, FAT32 above that |
| Mount.FormatMounts | c/FatFs/ff15/source/ff.c:6264-6297 | for every sound layout that fits in the fields, the boot sector formatting writes for it is mounted to exactly that layout |
| Mount.FormattedDrive | c/FatFs/ff15/source/ff.c:3291-3583 | the same of whole drives that are one volume: the formatted boot sector is recognised too, FAT12/16 ones if they have 128 sectors |
| Mount.BootKinds | c/FatFs/ff15/source/ff.c:3291-3327 | a sector is taken for a FAT boot sector exactly if it starts with one of three jumps and bears 55 AA and the text "FAT32   ", or the numbers of an old volume; 55 AA alone makes it some other boot sector |
| Mount.FoundVolume | c/FatFs/ff15/source/ff.c:3336-3376 | the volume is the drive itself, or else the first of the four partitions, by the start sectors in the table at 446, that holds one |
| Mount.LayoutGuarantees | c/FatFs/ff15/source/ff.c:1144-1194 | on a sound layout every byte of a valid cluster's entry lies in the first FAT, also FAT12's second byte; regions follow one another, the data area right behind FATs and root directory; a cluster's sectors begin `csize * (c - 2)` sectors into it and are on the volume; a stored end mark is all ones and reads back as an end and not as the disk-error code |
| Mount.WrappedFatMounts | c/FatFs/ff15/source/ff.c:3514-3520 | a concrete drive whose boot sector is found and mounted with its data area inside the FAT |
| Mount.FsInfoOnFatMounts | c/FatFs/ff15/source/ff.c:3532-3573 | a concrete drive whose boot sector is found and mounted with FSInfo on the first FAT sector |
| Mount.OversizedMounts | c/FatFs/ff15/source/ff.c:3528-3538 | a concrete drive that is mounted with clusters behind its end |
| Mount.FsInfoRoundTrip | c/FatFs/ff15/source/ff.c:1116-1127 | the free count and hint that a flush writes are what a mount reads, and what it reads of every sector that holds them |
| Mount.FsInfoBytes | c/FatFs/ff15/source/ff.c:3572-3584 | which bytes mark an FSInfo sector, and which hold the free count and the hint; unmarked, both are unknown |
| Mount.SingleBit | c/FatFs/ff15/source/ff.c:3522-3523 | the mask test accepts exactly the powers of two |
| Layout.Geometry.DataOrder | c/FatFs/ff15/source/ff.c:1144-1152 | cluster 2 begins at the first sector behind FATs and root directory, and every cluster right behind the one before |
| Volumes.Volume.SyncWindow | c/FatFs/ff15/source/ff.c:1055-1071 | flushing the window changes neither the table nor any other sector as the file system sees them; clean after success; mirror kept |
| Volumes.Volume.MoveWindow | c/FatFs/ff15/source/ff.c:1077-1098 | moving the window changes nothing the file system sees; on success it shows the sector, after a failed read it shows none |
| Volumes.Volume.SyncFs | c/FatFs/ff15/source/ff.c:1108-1134 | a flush changes nothing the file system sees and leaves a clean window; without a failure FSInfo on the drive holds the counters |
| Volumes.Volume.SecondFatAgrees | c/FatFs/ff15/source/ff.c:1063-1068 | over every run without a failure: with a clean window the second FAT equals the first, sector by sector |
| Volumes.Volume.FatOnDrive | c/FatFs/ff15/source/ff.c:1161-1288 | with a clean window the bytes of the first FAT are its sectors on the drive, in order |
| Volumes.Volume.GetFat | c/FatFs/ff15/source/ff.c:1161-1229 | through the moving window, the number the table holds, which is bits 12, 16 or 32 times the cluster number on of the first FAT; 1 for a number that is no cluster |
| Volumes.Volume.PutFat | c/FatFs/ff15/source/ff.c:1239-1288 | through the moving window, one entry of the table changes to the masked value and nothing else does: of the first FAT's bits only the 12, 16 or 28 of the entry |
| FatCodec.EntryIsBits | c/FatFs/ff15/source/ff.c:1178-1194 | the FAT read as one little-endian number, entry `c` is its low 12, 16 or 28 bits from bit 12, 16 or 32 times `c` on: FAT12 entries share their middle byte |
| FatCodec.PutIsBits | c/FatFs/ff15/source/ff.c:1248-1283 | a store changes exactly these bits of that number to the low bits of the value |
| FatCodec.FatSizeLeast | c/FatFs/ff15/source/ff.c:3554-3560 | the size asked of a FAT is the least number of bytes that has the bits of all its entries |
| FatCodec.PutIsUpdate | c/FatFs/ff15/source/ff.c:1248-1283 | on packed bytes, for all three sub-types: storing an entry changes that entry's value, cut to 12, 16 or 28 bits, and no other entry's, shared and straddling bytes included |
| FatCodec.PutKeepsReservedBits | c/FatFs/ff15/source/ff.c:1273-1283 | a FAT32 store leaves the top four bits of every entry alone |
| Volumes.Volume.CreateChain | c/FatFs/ff15/source/ff.c:1524-1615 | the reply and the new table are those of the specification for every hint and count; other sectors unchanged; an allocation makes the cluster the new hint, counts a known free count down by one and marks FSInfo, anything else leaves all three; a right free count stays right |
| Volumes.Volume.FindFree | c/FatFs/ff15/source/ff.c:1574-1599 | the wrap-around search ends and finds the first free cluster in its order, or none |
| Chains.CreateComplete | c/FatFs/ff15/source/ff.c:1534-1599 | with a right or unknown count and no invalid entry, a request for a new cluster is refused if and only if none is free, for every hint; otherwise it gets a free one |
| Chains.PickIsFirst | c/FatFs/ff15/source/ff.c:1534-1599 | which free cluster it gets, on every table: the next one to a chain's end if free, else the first free one behind the hint, going round at the end of the table |
| Chains.StretchRequest | c/FatFs/ff15/source/ff.c:1600-1612 | a request at the end of a chain appends one free cluster to it, with the end mark, and touches no entry outside chain and free clusters, or leaves the table as it is |
| Volumes.Volume.RemoveChain | c/FatFs/ff15/source/ff.c:1429-1515 | the new table is the specified one; ends on every table; an unknown free count stays as it is, a known one known, a right one right |
| Volumes.Volume.SweepChain | c/FatFs/ff15/source/ff.c:1454-1486 | the removal loop ends on every table, cyclic and cross-linked ones too, because each round turns a used entry into a free one |
| Chains.SweepAny | c/FatFs/ff15/source/ff.c:1454-1486 | on every table the sweep frees the clusters it meets, each once, up to where the links leave the table, come back or meet a free or invalid entry, and no others; it fails exactly when it ends at a 1 |
| Chains.RemoveTail | c/FatFs/ff15/source/ff.c:1429-1515 | removing from a position zeroes exactly the suffix, gives the prefix the end mark and leaves it a chain, and touches no other entry |
| Allocation.Request | c/FatFs/ff15/source/ff.c:1524-1615 | keeps the FAT a forest with a right count: one chain gains one free cluster, or the reply follows a chain, or the volume is full; on such a FAT there is no internal error |
| Allocation.Remove | c/FatFs/ff15/source/ff.c:1429-1515 | keeps the FAT a forest with a right count: the chain is cut and its tail is free |
| Allocation.Recount | c/FatFs/ff15/source/ff.c:4816-4903 | the reported count is the number of free clusters, which is all clusters less those of the chains |
| Allocation.Run | c/FatFs/ff15/source/ff.c:1429-1615 | over every run of requests, removals and counts up to a failure the FAT stays a forest with a right count; a request is refused exactly when the chains hold all clusters, and otherwise adds a cluster of no chain to the end of the right one |
| Chains.Conservation | c/FatFs/ff15/source/ff.c:1463-1466 | free clusters and chained clusters together are all clusters |
| Chains.RawScanExact | c/FatFs/ff15/source/ff.c:4874-4894 | the raw scan equals the number of free clusters if and only if neither reserved entry is zero |
| Volumes.Volume.GetFree | c/FatFs/ff15/source/ff.c:4816-4903 | a known count is returned as it is; a scan counts the zero entries; the count is then exact |
| FileObjects.FileObject.constructor | c/FatFs/ff15/source/ff.c:3855-3870 | an opened file has the start and size its directory entry gives and the bytes of its chain; with a chain that fits the entry it is valid |
| FileObjects.FileObject.SeekEnd | c/FatFs/ff15/source/ff.c:3872-3890 | opening for append ends at the file's end with cluster and buffer in place and the content unchanged |
| FileObjects.FileObject.Read | c/FatFs/ff15/source/ff.c:3914-4004 | returns exactly the bytes at the position, as many as asked for or left, and moves past them; these are bytes of the file's clusters laid end to end, and for consecutive clusters one slice of the drive's sectors; content unchanged |
| FileObjects.FileObject.Write | c/FatFs/ff15/source/ff.c:4014-4126 | splices exactly the written bytes in at the position; stops short only at the end of the last cluster, when none is free, or at 4 GB; nothing outside the file's clusters changes |
| FileObjects.FileObject.ContentIsClusters | c/FatFs/ff15/source/ff.c:3914-4126 | an open file's content is the first bytes of its clusters laid end to end, the one of cluster `c` at sector `database + csize * (c - 2)`; in consecutive clusters it is one slice of the sectors |
| FileData.FileIsClusters | c/FatFs/ff15/source/ff.c:3937-3975 | the byte of a file by position, cluster index and offset, is the byte of its clusters laid end to end |
| FileData.ConsecutiveFile | c/FatFs/ff15/source/ff.c:3937-3975 | a file in consecutive clusters from `c` on is one slice of the drive from `database + csize * (c - 2)` on |
| FileObjects.FileObject.Lseek | c/FatFs/ff15/source/ff.c:4433-4588 | lands exactly inside the file; keeps every old byte; clips for readers; a writer past the end falls short only at the end of the last cluster, when none is free |
| FileObjects.FileObject.WithinLimit | c/FatFs/ff15/source/ff.c:1534-1599 | a file stays within the room of the clusters it holds or could be given, and has reached it when none is free |
| FileObjects.FileObject.Truncate | c/FatFs/ff15/source/ff.c:4912-4953 | keeps the bytes before the position, those only in the buffer too; leaves just the clusters that holds and frees all others of the file |
| FileData.ClustersForLeast | c/FatFs/ff15/source/ff.c:4922-4935 | the number of clusters left by a truncation is the least that holds the bytes |
| FileObjects.FileObject.Sync | c/FatFs/ff15/source/ff.c:4135-4205 | after success the drive alone - directory entry, FAT, data sectors - gives back the content; the entry holds archive bit, cleared access date, start cluster, time stamp and size in their bytes and is otherwise unchanged, creation time included; FSInfo holds the counters; outside the file's clusters only that entry changes |
| FileObjects.SyncedBytes | c/FatFs/ff15/source/ff.c:4189-4195 | byte by byte: bit 0x20 set, 18 zero, time stamp at 22, start cluster at 26 (upper half at 20 on FAT32 only), size at 28, every other byte of the sector as before |
| FileObjects.DriveTells | c/FatFs/ff15/source/ff.c:3855-3856 | following start cluster, size and FAT on the bare drive gives the file's bytes |
| FileObjects.DriveHolds | c/FatFs/ff15/source/ff.c:3855-3856 | those bytes are the first of the chain's clusters laid end to end on the bare drive |
| FileObjects.StartClusterRoundTrip | c/FatFs/ff15/source/ff.c:1848-1875 | a stored start cluster loads back, on FAT12/16 because of the cluster bound; the other bytes of the sector stay |
| FileObjects.ClustFields | c/FatFs/ff15/source/ff.c:1848-1860 | the start cluster is the number in bytes 26 and 27, with the upper half in 20 and 21 on FAT32 only |
| FileData.PatchSector | c/FatFs/ff15/source/ff.c:4108-4119 | rewriting part of one sector splices those bytes into the file |
| FileData.PatchRun | c/FatFs/ff15/source/ff.c:4065-4095 | a direct write of whole sectors of one cluster splices them into the file |
| FileData.ReadRun | c/FatFs/ff15/source/ff.c:3953-3975 | a direct read of whole sectors of one cluster is a slice of the file |
| FileRuns.Call | c/FatFs/ff15/source/ff.c:3914-4588 | each call is one step of a byte array with a cursor, determined by the limit it works under; with a right free count that limit is the room of all clusters the file could have |
| FileRuns.Run | c/FatFs/ff15/source/ff.c:3914-4588 | any run of calls, up to a failure, is a run of a byte array with a cursor, under one limit if the free count is right; the count stays right, nothing else on the volume changes but the file's own entry, and after a final sync that leaves the window clean the drive gives back the content |
| DirWalk.SeekIsSteps | c/FatFs/ff15/source/ff.c:1697-1796 | on every FAT content: k steps from the start succeed if and only if the seek to entry k does, and end at the same offset, cluster and sector |
| DirData.SeekOnTable | c/FatFs/ff15/source/ff.c:1697-1736 | on a sound table a seek reaches exactly the entries it has, at their sectors |
| DirData.StepOnTable | c/FatFs/ff15/source/ff.c:1745-1796 | on a sound table a step goes to the next entry, and stretching is called for exactly behind the last entry of a chain below the size limit |
| DirData.RootRecords | c/FatFs/ff15/source/ff.c:1697-1736 | the entries of a static root are the 32-byte pieces of the sectors between FATs and data area, 65536 at most |
| DirData.ChainRecords | c/FatFs/ff15/source/ff.c:1697-1736 | those of any other directory are the 32-byte pieces of its clusters laid end to end; the FAT32 root starts at the cluster of the boot sector |
| Directories.Directory.Seek | c/FatFs/ff15/source/ff.c:1697-1736 | on every FAT content, the place and the error of the seek specification |
| Directories.Directory.Next | c/FatFs/ff15/source/ff.c:1745-1796 | on every FAT content, the place and the error of the step specification; a stretching step links a free cluster and zeroes it |
| Volumes.Volume.ClearCluster | c/FatFs/ff15/source/ff.c:1658-1687 | every sector of the cluster becomes zero, no other changes, and the window is a clean copy of its first one |
| Directories.Directory.Find | c/FatFs/ff15/source/ff.c:2384-2452 | stands on an entry exactly if it is the first with the eleven bytes of the name and no attribute bit 0x08, and no unused entry comes before it; says that there is none exactly if none is so |
| Directories.Directory.Alloc | c/FatFs/ff15/source/ff.c:1806-1837 | stands on the first free entry, of the grown table if there was none; refuses only a full table that cannot grow, or when no cluster is free |
| Directories.Directory.Register | c/FatFs/ff15/source/ff.c:2541-2557 | the first free entry holds the name and is otherwise zero, every other entry is unchanged; on the volume only that entry's sector changed, or the linked new cluster and the two FAT entries of the link |
| Directories.Directory.Remove | c/FatFs/ff15/source/ff.c:2598-2602 | the entry is marked deleted; no other entry, sector or FAT entry changes |
| DirTables.FindMeans | c/FatFs/ff15/source/ff.c:2421-2452 | on an orderly table, lookup is map lookup; the map's names are those of `ListingNames` |
| DirTables.FindIsFirst | c/FatFs/ff15/source/ff.c:2421-2452 | on every table: what a lookup finds is the first entry with the name and no attribute bit 0x08 before the first unused one |
| DirTables.FoundByAttribute | c/FatFs/ff15/source/ff.c:2421-2452 | on an orderly table an entry in use without attribute bit 0x08, subdirectories (0x10) included, is found under its name; one with it - labels, parts of long names (0x0F) - is never found and never counts as a name |
| DirTables.ListingNames | c/FatFs/ff15/source/ff.c:2421-2452 | the names of a directory are those of its entries in use (first byte neither 0 nor 0xE5) without attribute bit 0x08 |
| DirTables.DeletedNeverMatches | c/FatFs/ff15/source/ff.c:3037-3037 | a deleted or unused entry matches no name that a path segment can stand for |
| DirTables.RegisterInserts | c/FatFs/ff15/source/ff.c:2541-2557 | registering a missing name keeps the table orderly (all entries after the first unused one are unused, live names differ) and is map insertion |
| DirTables.EraseRemoves | c/FatFs/ff15/source/ff.c:2598-2602 | erasing keeps the table orderly and is map removal |
| DirTables.RegisteredBytes | c/FatFs/ff15/source/ff.c:2541-2557 | registering takes the first entry that starts with 0 or 0xE5 and leaves the name and 21 zeros in it |
| DirTables.UnlinkedBytes | c/FatFs/ff15/source/ff.c:2598-2602 | unlinking puts 0xE5 over the first byte of the named entry and nothing else |
| DirTables.StretchKeeps | c/FatFs/ff15/source/ff.c:1772-1785 | stretching a full table keeps it orderly and its meaning, and gives it a free entry |
| DirTables.ListingSize | c/FatFs/ff15/source/ff.c:2421-2452 | an orderly table has as many names as live entries |
| DirData.StretchRecords | c/FatFs/ff15/source/ff.c:1658-1687 | linking a zeroed cluster adds unused entries behind the old ones |
| DirRuns.AnswersAfter | c/FatFs/ff15/source/ff.c:2421-2602 | a registered name is found in its entry, an erased one is not found, and no other name's answer changes |
| DirRuns.Call | c/FatFs/ff15/source/ff.c:3748-3767 | each lookup, creation or removal is one step of a map from names to entries of limited size: a creation is refused exactly at the limit, which with a right free count is all the directory can hold; an internal error means a corrupt FAT entry |
| DirRuns.Run | c/FatFs/ff15/source/ff.c:2384-2605 | any run of lookups, creations and removals, up to a failure, is a run of that map, under one limit if the free count is right; it ends early only by a failure of the drive or a corrupt FAT entry |
| DirRuns.FilesKept | c/FatFs/ff15/source/ff.c:2465-2605 | a directory call leaves every file's chain and bytes alone |
| DirRuns.EntriesKept | c/FatFs/ff15/source/ff.c:3914-4588 | any run of calls on a file, syncs included, leaves every directory of other clusters in place and changes at most the file's own entry in it |
| DirRuns.OwnEntryKept | c/FatFs/ff15/source/ff.c:4187-4199 | in the file's own directory such a run changes that entry at most: the table stays orderly, with the same names, and only this name's entry may differ, in nothing but archive bit and the bytes from 18 on |
| Names.CreateName | c/FatFs/ff15/source/ff.c:2970-3040 | accepts exactly the dot names and the segments that are 8.3 names, and gives their eleven bytes, the flag and the next segment's place |
| Names.LegalMeans | c/FatFs/ff15/source/ff.c:3003-3030 | the characters of a name: letters, digits, sixteen marks and all extended ones, dots apart; a segment ends at blanks, control characters and the two separators; how each is upper-cased |
| Names.SegmentParts | c/FatFs/ff15/source/ff.c:3009-3013 | a segment is its body and, behind the first dot, its extension |
| Names.StoredBytes | c/FatFs/ff15/source/ff.c:3003-3037 | the eleven bytes: upper-case body padded to eight, upper-case extension padded to three |
| Names.BehindMeans | c/FatFs/ff15/source/ff.c:3004-3008 | the next segment starts behind all separators that follow, at the end of the path or another character |
| Names.FlagMeans | c/FatFs/ff15/source/ff.c:2998-3038 | the flag byte: 0x20 for a dot entry, 0x04 when no segment follows |
| Names.FileName | c/FatFs/ff15/source/ff.c:2732-2741 | prints the eleven bytes without padding, with the dot, and every 0x05 as 0xE5 |
| Names.CompactMeans | c/FatFs/ff15/source/ff.c:2732-2741 | printing drops blanks and gives 0xE5 for a stored 0x05, character by character |
| Names.NameRoundTrip | c/FatFs/ff15/source/ff.c:2970-3040 | the printed form is the upper-cased segment without a bare trailing dot, and is stored as the same eleven bytes; these never look deleted or unused |
| Names.ParsePrintParse | c/FatFs/ff15/source/ff.c:2732-3040 | parsing the printed form of any accepted segment gives the same eleven bytes |
| CodePage.ExtendedIsUpper | c/FatFs/ff15/source/ff.c:335-342 | the code-page table gives capital letters or its own fixed points, and never 0xE5 |
| CodePage.ExtendedByLetter | c/FatFs/ff15/source/ff.c:335-342 | the table by letters: accented letters lose their accent, four pairs without a plain form take the capital, the rest stay |
| Wildcard.PatternMatch | c/FatFs/ff15/source/ff.c:2793-2837 | the recursive matcher decides its specification, whatever the skip and the depth left |
| Wildcard.HereMeans | c/FatFs/ff15/source/ff.c:2793-2837 | that specification, early stop included, accepts exactly the names of the pattern with counts modulo 256, if it has at most the allowed number of terms |
| Wildcard.GlobIsTokens | c/FatFs/ff15/source/ff.c:2762-2837 | reading a pattern term by term keeps its meaning |
| Wildcard.GlobMeans | c/FatFs/ff15/source/ff.c:2762-2837 | what the bytes of a pattern mean: 0x2A any string, 0x3F any one character, every other byte itself in either case |
| Wildcard.MatcherExact | c/FatFs/ff15/source/ff.c:2762-2837 | the matcher agrees with the meaning on every name if and only if the pattern has at most `recur` terms of fewer than 256 question marks each |
| Wildcard.MatchName | c/FatFs/ff15/source/ff.c:4740-4740 | the search accepts a name exactly when the reduced pattern, of at most four terms, matches; with small counts, when the pattern does |
| Wildcard.MarksAccepted | c/FatFs/ff15/source/ff.c:2762-2837 | of any number of question marks: they mean names of that length, and are matched so below 256 only; from there on any name of at least the number modulo 256 is accepted |
| Wildcard.LongTermFinds | c/FatFs/ff15/source/ff.c:2762-2837 | a search for 256 question marks finds the one-character name |
| Sharing.ShareTable.ChkShare | c/FatFs/ff15/source/ff.c:945-969 | the verdict of the table's specification |
| Sharing.ShareTable.IncShare | c/FatFs/ff15/source/ff.c:981-1009 | the new table and the index of the specification |
| Sharing.ShareTable.DecShare | c/FatFs/ff15/source/ff.c:1012-1033 | the new table of the specification; an index outside the table is an error |
| Sharing.ShareTable.ClearShare | c/FatFs/ff15/source/ff.c:1036-1045 | exactly the volume's entries are dropped |
| Sharing.CheckMeans | c/FatFs/ff15/source/ff.c:945-969 | for outstanding opens: a read open is refused as locked for a writer, a write open and a deletion as locked for any opener; opening a file that is not open is refused for a full table, deleting it never |
| Sharing.CheckedEnterSucceeds | c/FatFs/ff15/source/ff.c:981-1009 | whenever the check allows an open, entering it succeeds |
| Sharing.ShareTable.EnqShare | c/FatFs/ff15/source/ff.c:972-978 | tells whether an entry is free |
| Sharing.RoomIsEnough | c/FatFs/ff15/source/ff.c:3757-3762 | for a file that is not open, a free entry is exactly what the check asks for and what entering needs |
| Sharing.WriterAlone | c/FatFs/ff15/source/ff.c:945-1009 | two handles on one file are both readers |
| Sharing.StepKeeps | c/FatFs/ff15/source/ff.c:945-1045 | an open, close or unmount keeps the table consistent (distinct keys, counters equal to the outstanding opens) if and only if it does not add a 256th reader |
| Sharing.OneTooMany | c/FatFs/ff15/source/ff.c:993-1008 | the 256th reader breaks the table and locks the file |
| Sharing.TooManyReachable | c/FatFs/ff15/source/ff.c:993-1008 | a new table meets it: 255 read opens keep it consistent, the next does not |
| Sharing.RunsConsistent | c/FatFs/ff15/source/ff.c:945-1045 | over every run with fewer than 256 readers a file, the table stays consistent |
| SdCards.CommandBytes | c/board/sdmm.c:219-227 | what the six bytes of a command mean to the card: 0x51, 0x52 read, 0x58, 0x59 write, 0x4C stop, 0x77 and 0x57 announce; argument highest byte first |
| SdCards.TokenBytes | c/board/sdmm.c:158-188 | what the tokens mean: 0xFE and 0xFC start a block, 0xFD ends the write, five low bits 0x05 accept it |
| SdDriver.Driver.SendCmd | c/board/sdmm.c:197-237 | a command is carried out with its argument and its first answer returned, or it was not sent because the card stayed busy; a card with an open write does not hear it, if it is deaf to the argument |
| SdDriver.Driver.WaitReady | c/board/sdmm.c:97-110 | success means the card is no longer busy; failure means it was busy and stayed so too long |
| SdDriver.Driver.ReceiveBlock | c/board/sdmm.c:144-164 | success means the block that was due, failure that the card did not deliver |
| SdDriver.Driver.SendBlock | c/board/sdmm.c:170-191 | success means exactly one block was accepted, on the card unless lost in programming, or the transfer stopped; failure that the card refused or stayed busy, with nothing changed |
| SdDriver.Driver.DiskRead | c/board/sdmm.c:372-397 | on an idle card: success means the requested sectors in order, failure is the card's; the card's content is unchanged, and it is deselected and listening; without a wrapping address this is what the file system asks of a drive. On a card with an open write: an error and no change, if it is deaf to the address |
| SdDriver.Driver.DiskWrite | c/board/sdmm.c:403-437 | on an idle card: no sector but the given ones ever changes; success means they are on the card exactly if none was lost in programming; failure is the card's; the card is deselected and no announcement is left; with none lost and no wrapping address this is what the file system asks of a drive. On a card with an open write: an error and no change, if it is deaf to the address |
| SdDriver.AcceptedAndLost | c/board/sdmm.c:184-190 | the card may accept a block, so that the driver goes on, and keep something else |
| SdDriver.StopInAddress | c/board/sdmm.c:213-234 | a card with an open write takes part of a frame for another command and its answer for this one |
| SdDriver.TargetExact | c/board/sdmm.c:382-382 | a request goes to the sector asked for if and only if the byte address does not wrap |
| SdDriver.AddressWraps | c/board/sdmm.c:382-382 | on a byte-addressed card, a read of sector 2^23 hands back sector 0 |
| SdDriver.Run | c/board/sdmm.c:372-437 | any run of reads and writes without an error is a run of a plain sector array exactly if no accepted block was lost in programming; an error is the card's |

## Left out

- exFAT, long names, fast seek, `f_expand`, `f_forward`, `f_mkfs`, GPT, volume labels and string functions: compiled out; of `f_mkfs` only the fields of the boot sector that mounting reads are modelled, to state that mounting undoes formatting.
- Path following, the create-and-overwrite branch of `f_open`, `f_mkdir`, `f_rename`, `f_getcwd`, the attribute and emptiness checks of `f_unlink`: glue over the operations modelled here.
- `validate` and mount identifiers, the volume mutex, and forced partition numbers: one thread, one mounted volume, the first one found.
- Interleaved calls on several open files: each call is proved to change nothing outside its own clusters and entry, but runs are those of one file or one directory.
- Locking of directories by `f_opendir`: keyed differently from files and separate from the file rules.
- FileRuns.PlainStep: leaves the new bytes of a seek past the end open, as the code does not clear them.
- FileObjects.FileObject.Sync: of a file that was not modified promises only that nothing changes, as the source returns at once; the entry already agrees with the file then.
- Directories.Directory.Alloc: asks for one entry, the only number this configuration asks for.
- SdDriver.Driver.DiskWrite: promises nothing, as `DiskRead` does, once the card has heard a stop token in an address; what it may then hear is shown for one case.
- FileObjects.FileObject.constructor: promises no valid file for an entry whose chain is broken or too short for its size, which the code opens too; reads and writes of such files are not modelled.
- The time stamp of an entry is a parameter of `Sync`; `disk_status`' card-in-slot line is a free choice.
- Bitwise masks and shifts are written as remainders and quotients, except where the mask's operand is data (`Layout.MaskCluster`, `FileData.MaskBytes` and `Mount.SingleBit` connect the two, `Bytes.AttributeBits` for single bits).
- The caller's read buffer is a returned sequence; the drive's sectors are a sequence, not an array.
- Characters of a path are unsigned bytes, as on the firmware's ARM target.
- Card initialisation, `disk_ioctl`, the SPI baud rate and real time: delays are counted in polls.
- Board bring-up, wireless, configuration and LwM2M code of the firmware.
