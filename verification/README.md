# Verified model of the hobby OS core

A Dafny model of the stateful parts of the kernel in `src/`, with proofs of what they keep and achieve.
`dafny verify dfyconfig.toml` checks the whole project.

## What is modelled

The centre is the FAT-12 driver of `src/fs.c`, in three layers that are proved to fit together.

1. **Bytes.** `Volume.dfy` is the driver itself: a class over an array of 512-byte sectors whose methods load a
   sector, edit bytes and write the sector back, with the loops and early exits of the C functions. `FatBytes.dfy`
   packs 12-bit entries, `Directory.dfy` and `Names.dfy` hold the 32-byte slots and the 8.3 names, `Layout.dfy` says
   where on the disk everything lies and which volume (`Stored`) a disk stores.
2. **Volume.** `FatTable.dfy` and `VolumeModel.dfy` describe the table as an array of entries, the directory as a
   sequence of slots, the data as a sequence of clusters, and each operation as a function on these. Every method of
   the class `Driver.Volume` returns exactly what the function returns and leaves the disk storing exactly the volume
   that the function yields, on every path including failures.
3. **Files.** `VolumeLaws.dfy`, `FileStore.dfy` and `VolumeRuns.dfy` prove that every operation keeps the volume
   well formed (acyclic, pairwise disjoint chains of the right length, no lost cluster, unique names, a meaningful
   end-of-directory marker) and acts as an operation on a map from 11-byte names to contents. `ReadBack.dfy` and
   `DirectoryListing.dfy` relate `fs_read` and `fs_ls` to that map. `VolumeQuota.dfy` shows that the map, the number of
   clusters and the number of directory slots decide every return code, so the volume is a deterministic store with a
   quota. `DriverRuns.dfy` states the result for any run of calls on a mounted disk.

Around it are nine smaller components, each an imperative class or method proved against a simple
specification: Bresenham lines (`LineDrawing.dfy`), the text screen (`TextScreen.dfy`), number conversion
(`Decimal.dfy`), shell history and line editing (`ShellHistory.dfy`), the mouse with its save-under cursor
(`MouseCursor.dfy`), window stacking and focus (`WindowManager.dfy`), the text editor (`TextEditor.dfy`), the file
manager's list (`FileList.dfy`) and the frame allocator (`FrameAllocator.dfy`).

## Conventions

- Bytes are integers from 0 to 255. Shifts and masks are written as division and remainder by powers of two, except
  in the frame allocator, which uses 8-bit vectors. In `LineDrawing.DrawLine`, `Decimal.Atoi` and `Decimal.Itoa` a range
  type makes every intermediate value an int; window coordinates, window ids and the history count are unbounded.
- `ata_read_sector` and `ata_write_sector` are reads and writes of the sector array. A read past the end of the disk
  delivers an unspecified but fixed sector, `beyond`; only `fs_read` can get there.
- `kmalloc` delivers fresh memory and never fails. A caller's output buffer is a returned sequence (`ReadFile`).
- C strings are `Names.CString`: the bytes before the terminator.
- Long C functions are cut into methods that name their parts: `fs_write` is `WriteFile`, `WriteNonEmpty`,
  `StoreClusters`, `StoreNext`, `TakeCluster`, `WriteCluster`, `EnterFile` and `GiveBack`; `fs_read` is `ReadFile`,
  `FindForReading`, `ReadChain`, `ReadOne` and `NextCluster`.
- `VolumeModel.Append` takes the bytes that the read-back delivered as a parameter `got`; `Driver.Volume.AppendFile`
  passes what `fs_read` returns on the disk at hand.

Each specification function is tied down by statements that do not use it: which bytes a pair of table entries, a boot
sector field, a directory field or a packed name is (`FatBytes.PairIsLittleEndian`, `Layout.BootFields`,
`Directory.SlotFields`, `Names.PackedBytes`), what each key or control character does (`TextScreen.NewlineGoesOn`,
`ShellHistory.TabAddsSpaces`, `TextEditor.KeysDo`), or where an order is decided (`FileList.PrecedesMeans`).

What the driver needs of its volume, kept visible as preconditions: at least one sector per cluster and one table copy,
tables of 1 to 12 sectors, and all regions within the disk (`Geometry.VolumeIn`; a 1440-kilobyte floppy disk is one,
`Layout.FloppyLayout`). The stored volume is made of the clusters below 341, whose entries lie in the first sector of
a table; entry 341 straddles two sectors, which `fat_get` and `fat_set` do not handle. With a table of one sector these
are all the entries that are scanned. With more, a call that stores data has to fit in the free clusters among them: the
cluster loop of `fs_write` finds none of them free, and scans on into entry 341, exactly when the data exceeds them
(`FileStore.RunsDryExactly`). `DriverRuns.Perform` states that per call, `DriverRuns.PerformAll` for the total of a run.
Chains that lead to clusters from 341 on are outside the model. `FatGet`, `FatSet` and the lemmas about table copies hold
for any table size and all entries that do not straddle.

File sizes stay below 2^32. Delete and write need links that stay inside the table (`Sound`), which every well-formed
volume has; cyclic and cross-linked chains are allowed there. A well-formed volume may hold slots of long file names as
other systems write them (`Directory.LongName`); no typed name finds them, and in the map of files they count as empty
files under their raw eleven bytes.

## Where the code does not do what one would expect

Each of these is stated with its exact condition.

- A file name that starts with byte 0xE5 makes a directory entry that counts as deleted at once. Writing a non-empty
  file under such a name, or appending to it, if the data fits and a slot is vacant, or renaming a non-empty file to it,
  loses the clusters. Those are the only cases in which a write, an append or a rename breaks a well-formed volume
  (`FileStore.WriteKeepsWellFormed`, `VolumeRuns.AppendKeepsWellFormed`, `FileStore.RenameKeepsWellFormed`); one byte on
  an empty volume is enough (`VolumeRuns.MarkedNameBreaks`, `VolumeRuns.MarkedRenameBreaks`, and on a given disk
  `DriverRuns.MarkedNameLosesCluster`, `DriverRuns.MarkedRenameLosesCluster`).
- `fs_read` looks for the next cluster at 16-bit positions of its own (`src/fs.c:226-228`) instead of using `fat_get`.
  It visits the clusters of a file if and only if the values found there agree with the table
  (`ReadBack.ReadVisitsFile`). They do not agree for a file on clusters 2 and 3 of a volume with one reserved sector
  and two or more equal tables of one sector: written to such a volume while it is empty, a file of two clusters never reads back
  (`DriverRuns.WriteAndReadTwoClusters`; `DriverRuns.TwoClustersReadAsOne` does it on a disk of 343 sectors that holds a
  boot sector and zeros).
- `fs_read` takes every first byte with all bits of 0xE5 for a deletion mark, for example 0xE7 or 0xFF. A file of at
  most one cluster reads back if and only if its name does not start with such a byte (`ReadBack.SmallFileReadsBack`).
- `fs_read` compares with `maxlen` only after copying a sector. It delivers what it would deliver without a limit, cut at
  the limit rounded up to whole sectors: more than `maxlen` exactly when `maxlen` is no multiple of 512 and there is more
  to read, and always less than `maxlen + 512` (`ReadBack.LimitedRead`, for stored files `ReadBack.ReadsPastLimit`). Two
  bytes read with a limit of one both arrive (`DriverRuns.OneByteLimit`).
- A name with a space before another character does not survive being listed and typed again
  (`Names.PrintThenPack`).
- `pmm_init` leaves the search hint alone. Run again with a positive hint, the next search skips every frame below it
  although all are free (`FrameAllocator.Allocator.Init`, `FrameAllocator.InitAgain`); a hint is harmless exactly when
  every frame below it is held (`FrameAllocator.HintHides`).
- A window that gets the focus because the focused one was destroyed does not receive the focus flag. So a window with
  the flag is focused, but the focused window loses the flag exactly when the focused one of several windows is
  destroyed (`WindowManager.Manager.Destroy`, `WindowManager.FlagIsLost`), in practice by a click on its close box
  (`WindowManager.Manager.HandleMouse`).
- The file manager takes a reported file for a directory exactly when its size is 0 or its name is one of the two dot
  names (`FileList.Reported`), so empty files are sorted among the directories.
- `fs_append` fails and changes nothing when the old contents do not read back in full, always so for names that reads
  skip (`DriverRuns.AppendOutcome`).
- The history command prints each number into a buffer of four bytes (`src/shell.c:172-173`). The numbers fit exactly up
  to a thousand saved lines (`ShellHistory.NumbersFitExactly`); the listing is stated for those.

## Model

| member | source | states |
|---|---|---|
| FatBytes.FitsExactly | src/fs.c:44-51 | an entry lies within the one sector that is loaded for it if and only if its number modulo 1024 is neither 341 nor 682 |
| FatBytes.PairIsLittleEndian | src/fs.c:54-60 | three bytes hold two entries: as one little-endian number, the even entry is its low half and the odd one its high half |
| FatBytes.TablePair | src/fs.c:44-62 | so do every three bytes of the sector of the table |
| FatBytes.TableLast | src/fs.c:44-62 | entry 340 stands in the last two bytes of that sector |
| FatBytes.PutThenGet | src/fs.c:44-85 | after storing an entry it reads back and every other entry keeps its value, although neighbours share a byte |
| FatBytes.OneSectorTable | src/fs.c:38-41 | with a one-sector table the driver scans 341 entries and all of them lie within the sector |
| FatBytes.ScansFirstSector | src/fs.c:38-41 | with tables of 1 to 12 sectors at least those 341 entries are scanned, and no others exactly with one sector |
| FatBytes.TableStore | src/fs.c:65-85 | storing an entry in the packed sector updates exactly that element of the table it represents |
| Layout.BootFields | src/fs.c:186-191 | each field of the boot sector, from its own bytes |
| Layout.RegionsAre | src/fs.c:192-194 | where table copies, root directory and clusters start, and how many sectors the root directory has |
| Layout.FloppyLayout | src/fs.c:183-195 | a floppy boot sector puts the root directory at sector 19 and the data at sector 33 |
| Layout.StoredIs | src/fs.c:113-129 | slots and clusters of the stored volume, byte by byte and sector by sector on the disk |
| Layout.CopyPair | src/fs.c:44-62 | in a table copy of any size, each pair of entries that does not straddle is the little-endian number in three bytes |
| Layout.MirrorsKept | src/fs.c:65-85 | setting an entry keeps all copies of the table identical if they were, and in each copy changes that entry only |
| Layout.StoredAfterFatSet | src/fs.c:65-85 | the volume a disk stores changes in one table entry and nowhere else; directory and data lie apart from the table |
| Layout.StoredAfterSlot | src/fs.c:144-154 | rewriting the 32 bytes of a slot changes that slot of the stored volume and nothing else |
| Layout.StoredAfterData | src/fs.c:318-325 | writing a data sector changes that sector of that cluster and nothing else; clusters do not overlap |
| FatTable.MarksAre | src/fs.c:87-106 | links are 2 to 0xFF7, end marks begin at 0xFF8 and 0xFFF is the one written |
| FatTable.WalkOfChain | src/fs.c:99-106 | following the table from the head of a chain visits exactly the chain |
| FatTable.FreeChainExact | src/fs.c:99-106 | on any table with links in range, cyclic and cross-linked ones included, freeing ends and zeroes exactly the clusters reachable from the start |
| FatTable.FreeChainOfChain | src/fs.c:99-106 | freeing the head of an acyclic chain zeroes the entries of the chain and no others |
| FatTable.FreeListHead | src/fs.c:88-97 | allocation takes the lowest free cluster and leaves the other free ones |
| FatTable.LinkIsChain | src/fs.c:307-338 | clusters taken one by one and linked backwards form an acyclic chain with an end mark |
| FatTable.FreeUndoesLink | src/fs.c:309-313 | freeing a chain just built from free clusters restores the table entry for entry |
| Directory.SlotFields | src/fs.c:113-131 | which bytes of a slot are its name, its marks, its cluster and its size |
| Directory.NewSlotBytes | src/fs.c:143-153 | the 32 bytes of a new entry |
| Directory.NewSlotFields | src/fs.c:144-153 | name, cluster and size of a new entry read back from its 32 bytes |
| Directory.FindComplete | src/fs.c:113-131 | the search with its early stop fails if and only if no live entry has the name |
| Directory.FindUnique | src/fs.c:113-131 | with unique names the entry found is the only one of that name |
| Directory.FilledRoot | src/fs.c:134-160 | filling the first vacant slot keeps the end marker meaningful and names unique |
| Directory.DeletedRoot | src/fs.c:162-167 | marking an entry deleted keeps both, and no entry of its name is left |
| VolumeModel.WellFormedIsSound | src/fs.c:99-106 | on a well-formed volume every link and every first cluster stays inside the table |
| VolumeModel.DataSectorIs | src/fs.c:320-325 | the bytes of the data in their place and zeros behind the last one |
| VolumeLaws.DeleteEffect | src/fs.c:270-285 | deleting a file frees exactly the clusters of its chain and marks exactly its slot |
| VolumeLaws.RemovedIsWellFormed | src/fs.c:270-285 | removing an entry with its chain keeps the volume well formed and all other files with their chains |
| VolumeLaws.AddedIsWellFormed | src/fs.c:287-346 | a new entry on free clusters keeps the volume well formed and all other files with their chains |
| VolumeLaws.AddedUnderDeletionMark | src/fs.c:287-346 | an entry whose name starts with the deletion mark loses its clusters; the volume stays well formed exactly when it has none |
| FileStore.StoredBytes | src/fs.c:318-334 | data spread sector by sector over distinct clusters comes back by joining the clusters in order, for any number of them |
| FileStore.DeleteKeepsWellFormed | src/fs.c:270-285 | deleting keeps the volume well formed, leaves no entry of the name and touches no other file |
| FileStore.DeleteFiles | src/fs.c:270-285 | delete removes the name from the map of files and succeeds exactly when it was there |
| FileStore.WriteAdds | src/fs.c:287-346 | a successful write adds one entry in the first vacant slot on the lowest free clusters, as many as the data needs |
| FileStore.WriteRollsBack | src/fs.c:309-313 | a failed write leaves every table entry and the directory as after the delete, and changes bytes of free clusters only |
| FileStore.WriteKeepsWellFormed | src/fs.c:287-346 | a write keeps a well-formed volume well formed unless, and only unless, the name starts with the deletion mark, the data is not empty and fits in the free space, and a slot is vacant |
| FileStore.WriteSucceedsExactly | src/fs.c:287-346 | a non-empty write succeeds if and only if, after the implicit delete, the data fits in the reported free space and a vacant slot exists |
| FileStore.RunsDryExactly | src/fs.c:307-313 | some round of the cluster loop starts with data left and finds no free cluster exactly when the data exceeds the free space |
| FileStore.WriteTakesSpace | src/fs.c:287-346 | a successful write takes exactly as many free clusters as its data needs |
| FileStore.WrittenFile | src/fs.c:287-346 | walking the table from the new entry and joining its clusters gives exactly the data; every other file keeps entry, chain and contents |
| FileStore.WriteFiles | src/fs.c:287-346 | write sets the name in the map of files, or removes it when it fails |
| FileStore.RenameKeepsWellFormed | src/fs.c:375-391 | a rename keeps the volume well formed unless, and only unless, the new name starts with the deletion mark and the old one is that of a non-empty file |
| FileStore.RenameFiles | src/fs.c:375-391 | rename moves the contents to the new name; it succeeds exactly when the old name exists and the new one does not |
| VolumeRuns.ContentLength | src/fs.c:287-346 | every file of a well-formed volume holds as many bytes as its entry records |
| VolumeRuns.AppendFiles | src/fs.c:349-373 | append leaves what was read back followed by the new data, removes the file if the write fails, and changes nothing after a short read-back |
| VolumeRuns.ApplyKeepsWellFormed | src/fs.c:270-391 | one call of any kind, successful or not, keeps the volume well formed and acts on the files as on a map |
| VolumeRuns.RunRefinesMap | src/fs.c:270-391 | so does every run of calls |
| VolumeRuns.FormattedIsWellFormed | src/fs.c:87-167 | an empty volume is well formed and holds no files, so runs have a start |
| VolumeRuns.AppendKeepsWellFormed | src/fs.c:349-373 | an append keeps a well-formed volume well formed unless, and only unless, the name starts with the deletion mark, the new data is not empty and fits in the free space, and a slot is vacant |
| VolumeRuns.MarkedRenameBreaks | src/fs.c:375-391 | on an empty volume, one byte written under a plain name and the file renamed to a marked one loses its cluster |
| VolumeRuns.MarkedNameBreaks | src/fs.c:287-346 | on an empty volume, one byte written under a name starting with the deletion mark succeeds and loses its cluster |
| VolumeRuns.Conservation | src/fs.c:393-400 | free clusters and the clusters that directory entries account for by their sizes add up to all clusters |
| VolumeQuota.UsageWithout | src/fs.c:393-400 | the clusters that the files of a map need can be counted in any order |
| VolumeQuota.SpaceLeft | src/fs.c:134-160 | free clusters and vacant slots follow from the map of files: what the files need and the free clusters add up to all, and a slot is vacant exactly when there are fewer files than slots |
| VolumeQuota.SpaceIsFreeSpace | src/fs.c:287-313 | data fits in the free space after the implicit delete exactly when its clusters and those of the other files fit |
| VolumeQuota.DemandCovers | src/fs.c:270-391 | a call uses at most the clusters of its new data more, over writes, appends, deletes and renames |
| VolumeQuota.WriteSucceedsByQuota | src/fs.c:287-346 | a write succeeds if and only if its clusters and those of the other files fit, and there are fewer other files than slots |
| VolumeQuota.ApplyIsDo | src/fs.c:270-391 | result and files after one call of any kind are those of the call on the map with the quota |
| VolumeQuota.RunIsDeterministic | src/fs.c:270-391 | so are all results and the files of any run |
| ReadBack.SkippedAre | src/fs.c:209 | the eight first bytes that reads take for a deletion mark |
| ReadBack.NextForReadIs | src/fs.c:225-228 | where on the disk a read looks for the next cluster |
| ReadBack.ReadStartIs | src/fs.c:216 | where a read looks for the sectors of a cluster, clusters 0 and 1 included |
| ReadBack.ReadVisitsFile | src/fs.c:197-235 | reading a file visits exactly its chain if and only if the links that reads compute agree with the table |
| ReadBack.ReadReturnsFile | src/fs.c:197-235 | where those links agree the read returns the contents, over any number of clusters |
| ReadBack.LimitedRead | src/fs.c:215-224 | on any disk a limited read is the unlimited one cut at the limit rounded up to sectors; it exceeds the limit exactly when the limit is no multiple of 512 and there is more to read, and by less than 512 |
| ReadBack.ReadsPastLimit | src/fs.c:215-224 | for a stored file and a limit within the first cluster, or links that agree, the count is the smaller of file length and rounded limit |
| ReadBack.LimitedReadIsPrefix | src/fs.c:215-224 | where the links agree the bytes are the first ones of the file |
| ReadBack.SmallFileReadsBack | src/fs.c:197-235 | with any limit, a file of at most one cluster reads back up to the rounded limit if and only if reads do not take its first name byte for a deletion mark |
| ReadBack.WriteThenRead | src/fs.c:197-346 | write then read is the identity, up to the rounded limit, for data of at most one cluster and exactly for those names |
| ReadBack.ReadOfMissing | src/fs.c:197-235 | for those names a read fails if and only if there is no such file |
| ReadBack.ShortRead | src/fs.c:225-229 | a longer file whose next-cluster value reads as an end mark yields its first cluster only |
| ReadBack.TwoClustersReadShort | src/fs.c:225-229 | with one reserved sector and two or more equal tables of one sector, the file on clusters 2 and 3 reads short |
| ReadBack.FreshWriteReadsShort | src/fs.c:197-346 | written to an empty volume of that kind, a file of two clusters reads short |
| ReadBack.BootIsSmall | src/fs.c:183-195 | the fields of a given boot sector parse to one sector a cluster, one reserved sector, two tables of one sector and sixteen entries |
| ReadBack.EmptyDisk | src/fs.c:183-195 | a disk of 343 sectors whose boot sector parses so, zero behind it, holds such a volume with nothing allocated and every slot unused |
| DirectoryListing.LabelBit | src/fs.c:251 | the attribute bit that keeps a slot out of the listing |
| DirectoryListing.ListingIsFiles | src/fs.c:241-268 | a name is listed with a size if and only if it is a file of that length and not a label or part of a long name |
| DirectoryListing.ListedOnce | src/fs.c:241-268 | no name is listed twice |
| DirectoryListing.WrittenIsListed | src/fs.c:241-346 | what a successful write stored is listed under its name with its length |
| Names.MakeFatName | src/fs.c:170-181 | the loops that pack a name fill in the padded, capitalised stem and extension |
| Names.CapitalsAre | src/fs.c:174-179 | the 26 small letters become capitals and every other byte stays |
| Names.PackedBytes | src/fs.c:170-181 | the eleven bytes one by one: up to eight before the first dot, up to three behind a dot that follows them, spaces for the rest |
| Names.NoSmallLetters | src/fs.c:174-179 | no small letter is ever stored |
| Names.CaseIsIgnored | src/fs.c:170-181 | names that differ only in the case of letters pack to the same bytes |
| Names.DecodeParts | src/fs.c:253-263 | a stored name is shown as its two parts with a dot between them |
| Names.PrintName | src/fs.c:253-263 | the printing loop writes the decoded name, at most 12 characters and a terminator |
| Names.EncodeIsPacked | src/fs.c:170-181 | packed names hold capitals, no terminator and no dot in the first eight bytes |
| Names.PrintThenPack | src/fs.c:170-263 | printing a packed name and packing it again gives the same 11 bytes if and only if no field has a space before another character |
| Names.SpaceFreeIsPadded | src/fs.c:170-181 | which holds for every name typed without spaces |
| Names.ListedAsTyped | src/fs.c:170-263 | a name without spaces is listed as typed, in capitals, if and only if it is a valid 8.3 name; at most 12 characters are listed |
| Driver.FatGet | src/fs.c:44-62 | returns the entry that the first table copy holds, for tables of any size |
| Driver.FatSet | src/fs.c:65-85 | rewrites the entry, cut to 12 bits, in every copy and changes no other byte |
| Driver.Volume.Mount | src/fs.c:183-195 | each field of the geometry comes from its own bytes of the boot sector, any; if it describes a volume within the disk, that is the volume stored |
| Driver.Volume.Set | src/fs.c:65-85 | on the stored volume: one table entry changes |
| Driver.Volume.AllocCluster | src/fs.c:88-97 | takes and end-marks the lowest free cluster, or, in a table of one sector, returns 0 with nothing changed when none is free |
| Driver.Volume.FreeClusterChain | src/fs.c:99-106 | ends on every table with links in range, cycles included, and leaves the table of `FreeChain` |
| Driver.Volume.FreeSpaceBytes | src/fs.c:393-400 | returns the number of free clusters times the cluster size |
| Driver.Volume.FindDirEntry | src/fs.c:113-131 | finds sector and offset of the first live entry of the name, if there is one |
| Driver.Volume.CreateDirEntry | src/fs.c:134-160 | fills the first vacant slot and returns 0, or returns -1 with nothing changed |
| Driver.Volume.DeleteEntryAt | src/fs.c:162-167 | marks one slot deleted |
| Driver.Volume.DeleteFile | src/fs.c:270-285 | returns and leaves on the disk what `Delete` says |
| Driver.Volume.WriteCluster | src/fs.c:318-334 | fills one cluster with the next data, padding the last sector with zeros |
| Driver.Volume.StoreClusters | src/fs.c:299-335 | takes free clusters lowest first until the data is stored or none is left |
| Driver.Volume.GiveBack | src/fs.c:309-313 | the clean-up of a failing write restores the table |
| Driver.Volume.EnterFile | src/fs.c:337-345 | end mark and directory entry, or clean-up when the directory is full |
| Driver.Volume.WriteFile | src/fs.c:287-346 | returns and leaves on the disk what `Write` says, on every path |
| Driver.Volume.RenameFile | src/fs.c:375-391 | returns and leaves on the disk what `Rename` says |
| Driver.Volume.ReadFile | src/fs.c:197-235 | returns the count and the bytes of `Read`, following links as the source does |
| Driver.Volume.ListFiles | src/fs.c:241-268 | calls back with the printed names and sizes of the listing, in directory order |
| Driver.Volume.AppendFile | src/fs.c:349-373 | returns and leaves on the disk what `Append` says, given what the read-back delivered |
| DriverRuns.AllowedIsStorable | src/fs.c:170-181 | a packed name starts with a marker byte if and only if the typed name starts with the deletion mark |
| DriverRuns.Perform | src/fs.c:270-391 | one call on a well-formed disk: the disk stays well formed, and return code and files are those of the call on the map with the quota |
| DriverRuns.PerformAll | src/fs.c:270-391 | the same after each call of any run, in larger tables while the total demand stays below cluster 341; equal table copies stay equal |
| DriverRuns.ReadBackGives | src/fs.c:364-368 | the read-back of an append delivers the old contents where reads follow the file, and nothing for names that reads skip |
| DriverRuns.AppendOutcome | src/fs.c:349-373 | an append leaves old contents then new if there is room and no file otherwise, where reads follow the file; after a short or missed read-back it fails and changes nothing |
| DriverRuns.WriteAndRead | src/fs.c:197-346 | on the disk: the write succeeds exactly when there is room, and with any limit a one-cluster file reads back up to the rounded limit exactly when reads do not skip its name |
| DriverRuns.WriteAndReadTwoClusters | src/fs.c:197-346 | on the disk: the first two-cluster file of an empty volume of that kind is written successfully and read back as one cluster |
| DriverRuns.MountFloppy | src/fs.c:183-195 | a disk of 2880 sectors with a floppy boot sector mounts with its root directory at sector 19 and its data at sector 33 |
| DriverRuns.MountSmall | src/fs.c:183-195 | a disk with that boot sector mounts as an empty volume |
| DriverRuns.TwoClustersReadAsOne | src/fs.c:197-346 | there, 1024 bytes are written and 512 read back |
| DriverRuns.OneByteLimit | src/fs.c:215-224 | there, two bytes are written and both read back with a limit of one |
| DriverRuns.MarkedNameLosesCluster | src/fs.c:287-346 | there, one byte written under a name starting with the deletion mark breaks the volume |
| DriverRuns.MarkedRenameLosesCluster | src/fs.c:287-391 | there, one byte written under a plain name and a rename to a marked one do the same |
| LineDrawing.RoundedIs | src/vga_graphics.c:232-254 | the closed form used below is the rounding of the exact minor coordinate, halves down |
| LineDrawing.WithinHalfPixel | src/vga_graphics.c:232-254 | every point is within half a pixel of the ideal line along the minor axis and between the endpoints |
| LineDrawing.LineEnds | src/vga_graphics.c:232-254 | the line has max(dx, dy) + 1 points, the first and last being the endpoints |
| LineDrawing.LineConnected | src/vga_graphics.c:232-254 | consecutive points touch |
| LineDrawing.PaintedPixels | src/vga_graphics.c:174-178 | exactly the on-screen points of the line take the colour |
| LineDrawing.NextStep | src/vga_graphics.c:244-252 | one round of the loop leads from a point of the closed form to the next and keeps the error bound |
| LineDrawing.ShortLineFits | src/vga_graphics.c:232-254 | no value overflows an int for lines of up to a third of the int range, and for diagonal lines of any extent |
| LineDrawing.HorizontalLineFits | src/vga_graphics.c:232-254 | a horizontal line does not overflow exactly up to half the int range |
| LineDrawing.DrawLine | src/vga_graphics.c:232-254 | unless a round overflows an int, the loop ends and paints the points of the closed form in order |
| TextScreen.RowsAboveStay | src/util.c:19-64 | rows of the page above the current one never change |
| TextScreen.PlainText | src/util.c:19-64 | on a cleared screen the k-th printed character stands in row k / 80, column k % 80 |
| TextScreen.NewlineGoesOn | src/util.c:33-50 | newline goes to the start of the next row, blank if it is new, and changes no other |
| TextScreen.ReturnGoesBack | src/util.c:28-32 | carriage return goes to the start of the same row |
| TextScreen.BackspaceTakesBack | src/util.c:20-27 | a character followed by backspace leaves a blank and the cursor where it was |
| TextScreen.OthersDoNothing | src/util.c:19-44 | no other byte does anything, nor does backspace at the start of a row |
| TextScreen.LinesStandInRows | src/util.c:19-66 | short lines separated by newlines on a cleared screen stand each in its row, blanks behind them, the cursor behind the last |
| TextScreen.ViewAt | src/util.c:19-64 | place by place, what the screen shows of the page |
| TextScreen.Screen.ClearScreen | src/util.c:11-17 | from any memory: a blank page with the cursor at its start |
| TextScreen.Screen.Putc | src/util.c:19-64 | the memory stays the last 25 rows of the unbounded page fed the same character; the cursor stays on the screen |
| TextScreen.Screen.Scroll | src/util.c:52-61 | the copying loops move every line up and blank the last |
| TextScreen.Screen.Puts | src/util.c:66 | the same for a string |
| Decimal.ShowThenRead | src/util.c:100-122 | reading the text of a number gives the number |
| Decimal.ShowIs | src/util.c:110-122 | the text digit by digit, in bases 2 to 16 with digits 0 to 9 and A to F, a minus sign in front |
| Decimal.ReadIs | src/util.c:100-108 | reading digit by digit: tens, the end at any other character, the sign |
| Decimal.NoLeadingZero | src/util.c:110-122 | the text starts with a zero for zero only |
| Decimal.ShowLength | src/util.c:110-122 | the text of an int has at most 11 characters |
| Decimal.DigitsExactly | src/util.c:110-122 | a number has at most k digits exactly when it is below the k-th power of the base |
| Decimal.Itoa | src/util.c:110-122 | writes the text and a terminator, for every int but the most negative |
| Decimal.Atoi | src/util.c:100-108 | returns the number, with every intermediate value an int |
| ShellHistory.RecallGetsCloser | src/shell.c:177-188 | a recall strictly lowers the distance between the history count and the largest argument in sight |
| ShellHistory.RunIsBounded | src/shell.c:88-188 | so recall always ends, within ten saved lines of that argument |
| ShellHistory.RunEndsPlain | src/shell.c:88-188 | the last line saved recalls nothing, and every line saved on the way is the typed one or an old one |
| ShellHistory.SelfRecall | src/shell.c:177-188 | a line that recalls its own number is saved eleven times and then refused |
| ShellHistory.RecallByNumber | src/shell.c:177-188 | an exclamation mark and a decimal number recall that line exactly if it is among the last ten |
| ShellHistory.RecallRunsLine | src/shell.c:177-188 | then that line is saved, and the line with that number is executed |
| ShellHistory.OthersRecallNothing | src/shell.c:177 | no other line recalls anything |
| ShellHistory.TabAddsSpaces | src/shell.c:39-45 | tab adds four spaces, or as many as fit |
| ShellHistory.KeyThenBackspace | src/shell.c:46-55 | other keys are added while there is room, and backspace takes the last one away |
| ShellHistory.TypedLineRuns | src/shell.c:32-56 | ordinary keys and a line end execute exactly what was typed, and the next line starts empty |
| ShellHistory.Shell.Execute | src/shell.c:88-188 | the recursion ends; slot n % 10 holds the n-th saved line for the last ten; the log is that of `Run` |
| ShellHistory.Shell.Feed | src/shell.c:32-56 | each key edits the line or runs it |
| ShellHistory.Shell.FeedAll | src/shell.c:32-56 | a run of keys leaves the log and line of the same run on unbounded history |
| ShellHistory.NumbersFitExactly | src/shell.c:170-174 | the numbers listed fit their four-byte buffer exactly up to a thousand saved lines |
| ShellHistory.Shell.ListHistory | src/shell.c:169-176 | up to there, the history command lists the last ten lines in order, each with its number |
| MouseCursor.StaysOnScreen | src/mouse.c:55-70 | the mouse position stays on the screen whatever bytes arrive |
| MouseCursor.PacketsDecode | src/mouse.c:246-289 | noise without the sync bit is skipped and well-formed packets take effect one by one |
| MouseCursor.PacketMoves | src/mouse.c:55-70 | a packet moves the mouse right and up by its signed bytes, or to the nearest place on the screen; its low three bits are the buttons |
| MouseCursor.SyncBit | src/mouse.c:264-275 | the bit that a first byte must have |
| MouseCursor.CursorPixels | src/mouse.c:402-416 | inside the rectangle the bitmap paints black for 1, white for 2 and nothing for 0 |
| MouseCursor.CursorIsLocal | src/mouse.c:402-416 | the drawn cursor changes nothing outside its 12 by 12 rectangle |
| MouseCursor.Cursor.HandleByte | src/mouse.c:246-289 | the interrupt handler is the packet automaton |
| MouseCursor.Cursor.Update | src/mouse.c:369-417 | the screen is the image under the cursor with the cursor at the mouse position, clipped at the edges |
| MouseCursor.Cursor.Hide | src/mouse.c:349-366 | hiding restores the image exactly |
| MouseCursor.Cursor.Run | src/mouse.c:246-417 | over any run of bytes and cursor calls the image under the cursor never changes |
| WindowManager.FrontKeepsOrder | src/window_manager.c:134-152 | bringing a window to the front keeps the order of all others and puts it in front of each |
| WindowManager.FlagBits | src/window_manager.h:8-12 | which bits of a flags byte allow moving and closing, and which is the focus flag |
| WindowManager.ClickPlaces | src/window_manager.c:213-236 | window, title bar, close box and content area by their distances from the edges |
| WindowManager.TopIsInFront | src/window_manager.c:207-213 | the window a click reaches contains it and is in front of all others that do; there is none if and only if none contains it |
| WindowManager.Manager.constructor | src/window_manager.c:18-25 | no windows and no focus |
| WindowManager.Manager.Create | src/window_manager.c:28-65 | fails exactly at 16 windows; otherwise the new window, with the place, size and flags asked for, is added in front and focused, with the focus flag |
| WindowManager.Manager.BringToFront | src/window_manager.c:134-160 | moves one live window to the end of the order and focuses it; other windows are ignored |
| WindowManager.Manager.Destroy | src/window_manager.c:68-93 | removes the window from the order; the front window has the focus, or none does; the focused window loses the flag exactly when the focused one of several is destroyed |
| WindowManager.FlagIsLost | src/window_manager.c:28-93 | after two creations and the destruction of the second window the first has the focus without the flag |
| WindowManager.Manager.HitTest | src/window_manager.c:207-213 | the loop over slots finds that window |
| WindowManager.Manager.HandleMouse | src/window_manager.c:202-245 | a click closes, or brings to front and perhaps starts dragging, the window it reaches, or calls its click handler with the place in the content area; afterwards the focused window lacks the focus flag exactly when a click closed one of several windows |
| TextEditor.StackHoldsSurvivors | src/text_editor.c:136-158 | with room for every key the typed text is exactly the characters that no later backspace claims |
| TextEditor.KeysDo | src/text_editor.c:136-158 | newline and the printable characters are added while there is room, backspace takes the last one away, other keys do nothing |
| TextEditor.TwentyLines | src/text_editor.c:162 | how many lines the window shows |
| TextEditor.LineCountsNewlines | src/text_editor.c:16-30 | the cursor line is the number of newlines before the cursor |
| TextEditor.ColIsDistance | src/text_editor.c:16-30 | the cursor column is the distance from the last newline |
| TextEditor.Editor.constructor | src/text_editor.c:171-223 | a file of less than 4096 bytes is loaded behind the cursor, a longer one not at all |
| TextEditor.Editor.UpdateCursorPosition | src/text_editor.c:16-30 | line and column are those of the text before the cursor |
| TextEditor.Editor.HandleKey | src/text_editor.c:133-168 | the buffer stays typed text then loaded text, below 4096 bytes; the cursor's line is in view and the view moves no more than needed |
| TextEditor.TypeKeys | src/text_editor.c:133-223 | after any keys the buffer is the bounded stack of typed characters followed by the loaded text |
| FileList.PrecedesIsTotal | src/util.c:74-79 | byte-string order is total, irreflexive and asymmetric |
| FileList.PrecedesIsTransitive | src/util.c:74-79 | and transitive |
| FileList.PrecedesMeans | src/util.c:74-79 | the order is decided at the first place where the strings differ: by the smaller byte, or by the end |
| FileList.Strcmp | src/util.c:74-79 | the result is the difference of the bytes there, so its sign is that order, with zero exactly for equal strings |
| FileList.AheadIsPreorder | src/file_manager.c:220-227 | directories first, then by name, is a total preorder |
| FileList.SortedMeans | src/file_manager.c:217-235 | in a sorted list directories come first, and in each group a name has the smaller byte at the first place where it differs from a later one |
| FileList.WayUp | src/file_manager.c:206-212 | the way up is listed first, as a directory, unless at the root |
| FileList.FileManager.Report | src/file_manager.c:181-192 | a reported file is added with its name cut to 12 characters, until the list holds 32 |
| FileList.FileManager.Sort | src/file_manager.c:217-235 | the exchange sort leaves a sorted permutation |
| FileList.FileManager.Refresh | src/file_manager.c:195-236 | the list is a sorted permutation of what is to be shown, the way up included unless at the root |
| FileListOnDisk.Refresh | src/file_manager.c:195-236 | on the mounted volume the list is a sorted permutation of the way up and the first stored files, 32 lines in all |
| FileListOnDisk.ListIsFiles | src/file_manager.c:195-236 | when all lines fit, the list holds the way up, an entry for every stored file, and nothing else |
| FrameAllocator.HintIsHarmless | src/pmm.c:13-23 | starting the search at the hint finds the lowest free frame of all |
| FrameAllocator.HintHides | src/pmm.c:13-23 | a hint gives the result of a whole search exactly when every frame below it is held |
| FrameAllocator.LowestFreeIs | src/pmm.c:13-23 | what lowest free means, and that it is missing exactly when all frames are held |
| FrameAllocator.NeverHandedTwice | src/pmm.c:13-29 | in any run a frame is handed out again only after a free of it in between |
| FrameAllocator.FailsExactlyWhenFull | src/pmm.c:13-29 | in any run an allocation fails if and only if 4096 frames are held |
| FrameAllocator.Allocator.UsedIsBit | src/pmm.c:13-29 | frame i is bit i % 8 of byte i / 8 |
| FrameAllocator.Allocator.Init | src/pmm.c:8-11 | clears every bit; sound later on exactly while the hint is 0, otherwise the next search returns the hint or nothing |
| FrameAllocator.InitAgain | src/pmm.c:8-23 | allocation, a second `pmm_init` and allocation: frame 1 is returned although frame 0 is free |
| FrameAllocator.Allocator.AllocFrame | src/pmm.c:13-23 | returns the lowest free frame from the hint on and sets only its bit, or 0xFFFFFFFF with nothing changed; while frames below the hint are held it is the lowest of all and they stay held |
| FrameAllocator.Allocator.FreeFrame | src/pmm.c:25-29 | clears only that frame's bit, from any state, and keeps every frame below the hint held if they were |
| FrameAllocator.RunEvents | src/pmm.c:8-29 | any run of calls after boot returns and holds what the run on the set of frames does |

## Left out

- Clusters from 341 on in the whole-volume results: their entries come after entry 341, which straddles two sectors and which `fat_get` and `fat_set` do not handle.
- Driver.Volume.FreeSpaceBytes: asks for a table of one sector, because the scan would pass entry 341.
- WindowManager.Manager.Create: takes coordinates and ids as unbounded, so overflow of `x + width`, `y + height` and the id counter is not modelled.
- Contents of multi-cluster reads when the computed links disagree with the table, beyond the short-read case: they are whatever other clusters hold.
- Volumes larger than the disk, and a boot sector with other sector sizes: `fs_init` does not look at them.
- Append beyond a size of 2^32 - 1, where `old_size + len` would wrap.
- Decimal.Itoa: does not cover the most negative int, because its negation overflows in the source.
- Decimal.Atoi: does not cover texts outside the int range, because the source overflows; the shell's history argument is taken to wrap at 32 bits there.
- LineDrawing.DrawLine: asks that no value of its loop overflows an int, because the source is undefined there; closed forms of this are given for short, diagonal and horizontal lines.
- ShellHistory.Shell.Execute: keeps the history count unbounded instead of wrapping at 32 bits, and leaves out output and every command that does not touch the history.
- FrameAllocator.Allocator.FreeFrame: asks for a frame below 4096, because the source would reach outside its bitmap.
- TextEditor.Editor.HandleKey: takes the window to be open at its fixed height of 250, which shows 20 lines.
- WindowManager.Manager.HandleMouse: leaves out what the click handler does once it is called; titles and drawing are left out as well.
- Window dragging and its clamping to the screen, the rectangle fills, fonts, icons and the desktop: easy members.
- Buffer swaps between cursor updates: save-under is stated without other writes to video memory.
- Port input and output, interrupts, paging, descriptor tables, the scheduler, the ELF loader, `kmalloc` and the keyboard ring buffer.
- Opening, saving and closing in the editor and the file manager, apart from loading the text and refreshing the list.
