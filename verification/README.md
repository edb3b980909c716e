# A verified model of a flight controller's storage, memory and framing code

This project models the parts of the repository that keep data structures alive over long runs, and proves what
they are for:

- **FatFs** (`os/fatfs/core/ff.c`), as configured here (512-byte sectors, long names on the heap, no exFAT, one
  volume, private file buffers, code page 437, UTF-8): a tower in which every layer is a cached or packed form of
  something simple. The one-sector window is an array of sectors (`Volume.dfy`), the packed 12/16/32-bit table an
  array of integers (`Volume.dfy`), the table a set of disjoint lists (`ChainTheory.dfy`, `Chain.dfy`,
  `FreeSpace.dfy`), an open file a byte array with a cursor (`Clusters.dfy`, `FileTheory.dfy`, `ReadTheory.dfy`,
  `SeekTheory.dfy`, `SeekOrder.dfy`, `TruncateTheory.dfy`, `File.dfy`) that the other open files and the directories of
  the volume do not disturb (`Sharing.dfy`), a directory a flat table of entries that long names are registered in,
  found in and read from
  (`LfnTheory.dfy`, `LfnFiller.dfy`, `Lfn.dfy`, `DirTheory.dfy`, `DirPlaceTheory.dfy`, `DirSteps.dfy`, `NumName.dfy`,
  `Dir.dfy`), and that table a list of files with names (`DirMeaning.dfy`, `DirFiles.dfy`). Beside the tower: path segments and 8.3 names (`NameForm.dfy`,
  `CreateName.dfy`), the wildcard matcher (`Pattern.dfy`), the geometry of a mounted volume (`Mount.dfy`) and the
  table of open objects (`Lock.dfy`).
- **FreeRTOS heap_4 and heap_5** (`os/freertos/memmang/`): the address-ordered free list threaded through one or
  several regions (`HeapTheory.dfy`, `HeapMemory.dfy`, `HeapSpec.dfy`, `HeapSteps.dfy`, `HeapStart.dfy`, `Heap.dfy`).
- **The u-blox frame parser** (`UbxTheory.dfy`, `Ubx.dfy`), **the VFS mount tree** (`NodeTheory.dfy`, `Node.dfy`) and
  **the integer printer** (`Printf.dfy`).

Code that updates fields and buffers in place is modelled by classes and methods with loops. Each class has one
ghost function that gives its state as a value; its methods are proved against predicates on the old and the new
value, and the theorems are about those values. Modules named `...Theory`, `...Spec` and `...Steps` hold values and
theorems only.

How the environment is modelled:

- The disk (`Volume.Disk`) may fail at any operation. A failed read leaves anything in the buffer, a failed write
  anything in the sectors it was given. The result of writing the second table is ignored, as in the source
  (`os/fatfs/core/ff.c:1066`); the ghost field `mirrorStale` records that the copies may differ from then on.
- `ff_wtoupper`, `ff_uni2oem` and `ff_oem2uni` are arbitrary tables. Where it matters that the folding gives a
  unit to itself alone, the statement asks for it: zero in `DirMeaning.ZeroAlone`, the filler 0xFFFF in
  `LfnFiller.FillerAlone`. A path arrives decoded by `tchar2uni`; a wrong
  encoding is one of its values.
- A sector index modulo the cluster size is written `% csize`; the source masks with `csize - 1`, cluster sizes being
  powers of two. Unsigned 32-bit wrap-around is written out where the source relies on it or can run into it.
- The serial line delivers its bytes in reads of any length, at least one byte each, or fails.
- `calloc` may fail.

What the code does that its interface does not say, and what the statements below take into account:

- `pattern_match` counts the question marks of one wildcard term in a byte next to the flag for a star; with 256 of
  them in a term it accepts names that are too short (`Pattern.RightExactlyWhenPlain` gives the exact condition).
- The volume geometry is computed in 32 bits without a check for wrap-around. `Mount.WrappedAccepted` is a boot sector
  that is accepted with tables lying over the data area; `Mount.SoundUnlessWrapped` is the exact condition.
- `f_getfree` on FAT16 and FAT32 counts entries 0 and 1 too: it is right exactly when neither is zero.
- The 256th reader of an object makes its counter look like a writer's; one close then unlocks it for writers
  (`LockTheory.ReadersOverflow`).
- An RTCM length is accepted when it is at most the buffer less 4, though the frame has 6 bytes more than its payload
  (`UbxTheory.RtcmBound`).
- A well-formed UBX frame that fits is put out exactly when the parser is between frames as it begins, whatever bytes
  came before (`UbxTheory.FrameInStream`). After an odd number of stray start bytes it is not, after an even number
  it is (`UbxTheory.StraysHide`).
- In heap_5 an allocation that uses up a block next to a region's end marker and is freed again absorbs the marker
  (`HeapSpec.MallocThenFree`); heap_4 gives back exactly the former list.
- A nearest-path lookup in the mount tree never returns the root for a path that has names, and a path that was created
  on the way to another mount point cannot be mounted on.
- Seeking past the end of a file leaves the gap unspecified: `File.Fil.Seek` promises the old contents as a prefix.
- After `f_truncate` the clean buffer may still name a sector the file has lost. When another file writes that sector
  and the cluster comes back to the file in the gap of a seek past its end, the outdated buffer is taken for the sector
  (`SeekOrder.SeekStale`). `SeekOrder.Harmless` is the exact condition on the file before the call: over all offsets and
  all choices of free clusters a seek leaves the file in good order exactly when the file is only read, its buffer is up
  to date, or the buffer's sector lies neither in one of the file's own clusters nor in a free one, at an offset a seek
  can reach (`SeekOrder.SeekSafe`). `File.Fil.Seek` promises good order under that condition, and when the size is not
  raised; when the sector is one of the file's own or of the only free cluster, a seek that ends at it cannot leave the
  file in good order (`SeekOrder.Doomed`). `FileTheory.BufferKept` and `Sharing.OtherUpToDate` tell which operations
  keep a buffer up to date.
- A failed `f_truncate` may leave a dirty buffer over a cluster that is no longer the file's, and a failed `dir_clear`
  a window that claims a sector is zero; what stays is in `TruncateTheory.CutShort`, `DirSteps.Halted` and
  `DirSteps.LiveKept`. After a failed `f_write` the links of the file and the bytes before the old cursor are still there,
  after a failed `f_read` or `f_lseek` all of them (`FileTheory.Salvaged`).
- `create_name` and `dir_register` store long names with any unit from the path, 0xFFFF included, which the long-name
  entries use as filler. Such a name comes back, and is found again, exactly when the fillers in it are the end of a
  name whose length is a multiple of 13, inside its last entry (`LfnFiller.ComesBack`, `LfnFiller.MatchedAgain`);
  `LfnFiller.FillerLosesLetter` is a name that does not. `Directory.Dir.Register` takes any text; what it writes is the
  block of the name, and is found, under that condition.
- The integer printer drops the sign when the digits and leading zeros fill its 32-character buffer
  (`Printf.IntTextRight` gives the exact condition).

## Model

| member | source | states |
|---|---|---|
| Volume.FatFs.constructor | os/fatfs/core/ff.c:3512-3561 | a freshly mounted volume shows the disk, and its copies of the table agree unless the disk's do not |
| Volume.FatFs.SyncWindow | os/fatfs/core/ff.c:1055-1071 | writing the window back changes nothing of what the volume means, and keeps the second table equal to the first unless its write failed |
| Volume.FatFs.MoveWindow | os/fatfs/core/ff.c:1077-1098 | success means the window holds exactly that sector of the volume; no outcome changes the volume |
| Volume.FatFs.GetFat | os/fatfs/core/ff.c:1161-1229 | reads the integer the table holds for a cluster, on all three widths, 1 for numbers that are no cluster |
| Volume.FatFs.PutFat | os/fatfs/core/ff.c:1239-1288 | stores the value cut to the entry's width and changes no other entry; FAT32 keeps the top four bits; a failure can damage that entry only |
| Volume.Neighbour12 | os/fatfs/core/ff.c:1252-1264 | a byte stored for one 12-bit entry leaves every other entry alone, the ones sharing its bytes included |
| Volume.Stored12 | os/fatfs/core/ff.c:1252-1264 | the two half stores of a 12-bit entry touch only its own two bytes, in one sector or two |
| Volume.Stored32 | os/fatfs/core/ff.c:1273-1284 | storing a 28-bit entry under the old top four bits is storing that entry alone |
| Volume.AreasOrdered | os/fatfs/core/ff.c:3545-3561 | in a sound geometry the tables lie below the data area and both inside the volume |
| Volume.TableFits | os/fatfs/core/ff.c:3546-3561 | every byte of every entry lies in the first table |
| ChainTheory.ChainsDisjoint | os/fatfs/core/ff.c:1524-1615 | two chains with different heads share no cluster in a table of lists |
| ChainTheory.ChainUnique | os/fatfs/core/ff.c:1161-1229 | following links from a cluster gives one chain |
| ChainTheory.AppendChain | os/fatfs/core/ff.c:1600-1609 | an allocation appends exactly one cluster to the chain it was asked for |
| ChainTheory.AllocateKeepsChain | os/fatfs/core/ff.c:1524-1615 | an allocation leaves every other chain as it was |
| ChainTheory.AllocateKeepsWellFormed | os/fatfs/core/ff.c:1524-1615 | an allocation keeps the table a set of disjoint acyclic chains |
| ChainTheory.FreedOnTrail | os/fatfs/core/ff.c:1453-1486 | on any table, cyclic ones included, freeing from a cluster on zeroes exactly the clusters met |
| ChainTheory.FreedChain | os/fatfs/core/ff.c:1429-1515 | on a chain it frees exactly the chain's clusters |
| ChainTheory.RemoveKeepsWellFormed | os/fatfs/core/ff.c:1429-1515 | freeing the tail of a chain and ending the rest keeps the table a set of disjoint acyclic chains |
| ChainTheory.RemoveKeepsChain | os/fatfs/core/ff.c:1429-1515 | freeing a chain leaves every chain that shares nothing with it alone |
| ChainTheory.RunKeepsWellFormed | os/fatfs/core/ff.c:1429-1615 | over any run of allocations and removals the table stays a set of disjoint acyclic chains |
| ChainTheory.FreeCountUpdate | os/fatfs/core/ff.c:1463-1466 | one entry freed or taken moves the number of free clusters by exactly one |
| ChainTheory.NoneFree | os/fatfs/core/ff.c:1586-1599 | the count is zero exactly when no cluster is free |
| Chain.RemovesChain | os/fatfs/core/ff.c:1429-1515 | the freeing of a whole chain nobody links to, or of a tail behind its predecessor, is a removal and keeps the table a set of disjoint acyclic chains |
| Chain.CreateChain | os/fatfs/core/ff.c:1524-1615 | follows or stretches a chain by one free cluster, touches no other used entry, returns 0 only when nothing is free (or the counter said so), and keeps an exact free counter exact |
| Chain.FindFree | os/fatfs/core/ff.c:1586-1599 | the wrapping search ends, and finds a free cluster unless there is none, an entry holds 1 or the disk fails |
| Chain.RemoveChain | os/fatfs/core/ff.c:1429-1515 | frees exactly the clusters met, ends the chain before them, changes nothing else and keeps an exact free counter exact |
| Chain.FreeTrail | os/fatfs/core/ff.c:1453-1486 | the freeing loop ends on any table contents because each round zeroes a used entry |
| FreeSpace.ZerosAreFree | os/fatfs/core/ff.c:4874-4891 | zeros among all entries are the free clusters and the reserved entries that look free |
| FreeSpace.BytesAt | os/fatfs/core/ff.c:4878-4890 | the bytes under the raw scan's cursor are those of the entry it counts |
| FreeSpace.CountWords | os/fatfs/core/ff.c:4874-4891 | the raw sector scan counts the free clusters plus the reserved entries that are zero |
| FreeSpace.CountEntries | os/fatfs/core/ff.c:4840-4851 | the entry-by-entry scan counts the free clusters |
| FreeSpace.GetFree | os/fatfs/core/ff.c:4834-4898 | the scan makes the counter known; the answer is the number of free clusters exactly on FAT12 or when entries 0 and 1 are non-zero |
| FileTheory.PatchContents | os/fatfs/core/ff.c:4111-4119 | bytes stored into one sector of a chain appear at their place in the file and nowhere else |
| FileTheory.TransferContents | os/fatfs/core/ff.c:4074-4095 | whole sectors stored past the buffer appear at their place in the file and nowhere else |
| FileTheory.SectorInjective | os/fatfs/core/ff.c:1144-1152 | different sectors of a file are different sectors of the disk |
| FileTheory.PrefixContents | os/fatfs/core/ff.c:4042-4063 | stretching a chain leaves the bytes of the file as they were |
| FileTheory.IsolatedTransitive | os/fatfs/core/ff.c:4014-4126 | what is isolated from other files stays so over several steps |
| FileTheory.CreateIsolated | os/fatfs/core/ff.c:4043-4057 | stretching a file's chain is isolated from every other file |
| File.Fil.constructor | os/fatfs/core/ff.c:3845-3870 | an opened file stands for the first bytes of its chain |
| File.Fil.Flush | os/fatfs/core/ff.c:4067-4070 | writing the dirty buffer back does not change the bytes the file stands for |
| File.Fil.Write | os/fatfs/core/ff.c:4014-4126 | replaces exactly the bytes from the cursor on, through buffer or direct transfer, and is isolated from every other file, the window included; short only when no cluster is free; after an error the links and the bytes before the old cursor are still there |
| File.Fil.Read | os/fatfs/core/ff.c:3914-4004 | returns exactly the file's bytes at the cursor, dirty buffer and direct transfers included, and changes no byte; none is lost by an error either |
| File.Fil.Seek | os/fatfs/core/ff.c:4510-4585 | moves the cursor, stretching a writable file; the old bytes stay, after an error too, and the size is raised to the cursor; the file is in good order afterwards when its buffer was harmless before or the size is not raised, and is not when the seek ends at a place where the buffer's sector must come back |
| SeekOrder.SeekSafe | os/fatfs/core/ff.c:4510-4585 | whatever the offset and whichever free clusters are taken, a seek leaves the file in good order exactly when the buffer was harmless before it |
| SeekOrder.SeekKeepsOrder | os/fatfs/core/ff.c:4510-4585 | a seek with a harmless buffer, or one that does not raise the size, leaves the file in good order |
| SeekOrder.SeekStale | os/fatfs/core/ff.c:4570-4582 | any seek that ends in or at the end of the sector an outdated buffer names leaves the file showing the buffer |
| SeekOrder.DoomedSeek | os/fatfs/core/ff.c:4539-4582 | when that sector is the file's own, or lies in the only free cluster, the seek to it goes wrong without fail |
| SeekOrder.ElsewhereHarmless | os/fatfs/core/ff.c:4570-4582 | a buffer whose sector lies in another file's cluster is harmless |
| SeekOrder.OwnHarms | os/fatfs/core/ff.c:4570-4582 | one whose sector lies in the file's own clusters or in a free one is harmless exactly when it is up to date or the file only read, as long as the file can grow by a cluster |
| FileTheory.DirectSalvaged | os/fatfs/core/ff.c:4075-4080 | a transfer past the buffer that fails loses no byte before the cursor |
| FileTheory.WrittenSalvaged | os/fatfs/core/ff.c:4014-4126 | nor does a write that fails after part of its bytes were written |
| File.Fil.Truncate | os/fatfs/core/ff.c:4912-4955 | cuts the file at the cursor, frees the clusters behind it and keeps the bytes before it; after an error the bytes before the cursor and the links to them are still there |
| TruncateTheory.FailedCut | os/fatfs/core/ff.c:4925-4950 | a truncation that fails in the table or in writing the buffer back loses no byte before the cursor and no link to it |
| File.Fil.SeekWalk | os/fatfs/core/ff.c:4539-4561 | walking ends at the cluster of the byte before the new cursor |
| File.Fil.WriteDirect | os/fatfs/core/ff.c:4075-4095 | a transfer past the buffer leaves the buffer in step with the disk |
| File.Fil.ReadDirect | os/fatfs/core/ff.c:3960-3979 | a transfer past the buffer is patched with the dirty sector it covers |
| ReadTheory.PatchedHolds | os/fatfs/core/ff.c:3972-3974 | a transfer patched with the dirty buffer holds the file's own view |
| SeekTheory.StartHere | os/fatfs/core/ff.c:4522-4526 | a forward seek may start at the cluster of the cursor |
| TruncateTheory.CutChain | os/fatfs/core/ff.c:4929-4937 | removing a chain's tail leaves its first clusters as the file's chain |
| TruncateTheory.TruncateEnd | os/fatfs/core/ff.c:4925-4950 | after the table change the file stands for its first bytes |
| Sharing.OtherFileUntouched | os/fatfs/core/ff.c:4014-4126 | an operation on one file changes neither chain nor bytes on the disk of any file that shares no cluster with it, successful or not |
| Sharing.OtherStays | os/fatfs/core/ff.c:4014-4126 | another open file in good order stays so and stands for the same bytes, its dirty buffer included |
| Sharing.OtherUpToDate | os/fatfs/core/ff.c:4014-4126 | and a buffer of its that is up to date and names one of its sectors stays up to date |
| Sharing.WriteThenRead | os/fatfs/core/ff.c:3914-4126 | what is read from one open file after a write to another is what was there before, and the write stands |
| Sharing.TurnKeeps | os/fatfs/core/ff.c:3914-4126 | after each operation on a file or a directory, failed or not, all files and directories in use are in good order and apart, every other file stands for the same bytes and every other directory has the same entries |
| Sharing.FileStays | os/fatfs/core/ff.c:1658-2606 | an operation on a directory leaves an open file whose clusters are others in good order, standing for the same bytes |
| Sharing.FolderStays | os/fatfs/core/ff.c:3914-4126 | an operation on a file leaves a directory whose clusters are others with the same entries |
| Sharing.OtherFolderStays | os/fatfs/core/ff.c:1658-2606 | an operation on a directory leaves every other one with the same entries |
| Sharing.RegisterThenRead | os/fatfs/core/ff.c:2465-4004 | what is read from an open file after a name was registered in a directory is what was there before |
| DirSteps.ErasingStrangers | os/fatfs/core/ff.c:2571-2606 | a removal, finished or not, changes nothing outside the directory's own sectors and clusters |
| DirSteps.OnlyDirStrangers | os/fatfs/core/ff.c:2533-2556 | nor does a store into the directory's entries |
| Sharing.RunKeepsOthers | os/fatfs/core/ff.c:1658-4126 | over any run of operations on any files and directories, a file without a turn is the same object standing for the same bytes, and a directory without one has the same entries |
| Lfn.SumSfn | os/fatfs/core/ff.c:2053-2064 | computes the rotated sum of the eleven bytes |
| Lfn.CompareLfn | os/fatfs/core/ff.c:1885-1913 | tells whether an entry's thirteen units equal the buffer's under case folding, terminator and filler included |
| Lfn.CollectLfn | os/fatfs/core/ff.c:1921-1950 | stores an entry's units at their place, or refuses a malformed entry |
| Lfn.BuildLfn | os/fatfs/core/ff.c:1959-1984 | writes the entry of one piece of a name, any units in it, with its order, checksum, terminator and filler |
| LfnTheory.WrittenMatches | os/fatfs/core/ff.c:1885-1984 | every entry written for a name matches a search for the same name in any case |
| LfnTheory.PickWritten | os/fatfs/core/ff.c:1921-1984 | collecting the written entries from the last to the first rebuilds exactly the name |
| LfnFiller.ComesBack | os/fatfs/core/ff.c:1921-1984 | the entries written for any text give it back exactly when its fillers are the end of a name of full pieces |
| LfnFiller.MatchedAgain | os/fatfs/core/ff.c:1885-1984 | and a search for the text matches all of them under the same condition |
| LfnFiller.FillerLosesLetter | os/fatfs/core/ff.c:1969-1981 | a filler before a letter: the letter is not stored |
| NumName.GenNumname | os/fatfs/core/ff.c:1996-2043 | makes the numbered name of the attempt |
| NumName.NumberedInjective | os/fatfs/core/ff.c:2018-2043 | different numbers of up to six digits give different names |
| NumName.NumberedStorable | os/fatfs/core/ff.c:1996-2043 | a numbered name can stand in an entry when the original can |
| DirTheory.RegisteredIsFound | os/fatfs/core/ff.c:2384-2455 | after registering an absent name a search stops at its new short entry and knows where its block starts |
| DirTheory.RegisteredIsRead | os/fatfs/core/ff.c:2306-2374 | a read that reaches the block rebuilds exactly the stored name |
| DirTheory.RegisteringKeeps | os/fatfs/core/ff.c:2511-2559 | registering writes into free entries only, keeps every live entry and the end marker's place |
| DirTheory.RemovalReclaims | os/fatfs/core/ff.c:2577-2595 | removing a registered block frees the same entries and touches no others |
| DirTheory.ReclaimedIsAbsent | os/fatfs/core/ff.c:2577-2595 | after the removal the name is absent again |
| DirMeaning.AllMatchSame | os/fatfs/core/ff.c:1885-1913 | all entries of a stored name match exactly when the name searched for is the same up to case |
| DirMeaning.FoundMeans | os/fatfs/core/ff.c:2384-2455 | in a directory made of files, labels and free entries the search stops at an entry exactly when it is that of the first file that has the name, up to case, or the short name |
| DirMeaning.AbsentMeans | os/fatfs/core/ff.c:2384-2455 | and finds nothing exactly when no file has it |
| DirMeaning.FoundFile | os/fatfs/core/ff.c:2384-2455 | and the block it remembers is that file's |
| DirMeaning.RegisteringKeepsOthers | os/fatfs/core/ff.c:2465-2559 | registering a file changes the search for no name it does not have, and none that was found |
| DirMeaning.RemovingKeepsOthers | os/fatfs/core/ff.c:2571-2606 | removing a file changes the search for no name it does not have, and makes its own absent when no other file has it |
| DirFiles.RegisteredFiles | os/fatfs/core/ff.c:2465-2559 | the same of the directory on disk, possibly stretched |
| DirFiles.FoundThenRemoved | os/fatfs/core/ff.c:2571-2606 | what is removed after a search is exactly the file found |
| DirPlaceTheory.FlatStored | os/fatfs/core/ff.c:1697-1735 | a store into a directory sector is a change of one entry of the flat table |
| DirPlaceTheory.SecInjective | os/fatfs/core/ff.c:1697-1735 | different sectors of a directory are different sectors of the disk, on fixed root and chains |
| DirSteps.RegisteredThenFound | os/fatfs/core/ff.c:2465-2559 | in the directory on disk, possibly stretched, the registered name is found and all live entries are kept |
| Directory.Dir.Sdi | os/fatfs/core/ff.c:1697-1735 | sets the cursor on the entry at an offset |
| DirSteps.HaltedEntries | os/fatfs/core/ff.c:1771-1783 | a stretch that failed halfway leaves the directory's entries as they were |
| DirSteps.WritingKeepsLive | os/fatfs/core/ff.c:2533-2556 | a block written in part into free entries leaves every entry in use as it was |
| Directory.Dir.Clear | os/fatfs/core/ff.c:1658-1687 | zeroes exactly one cluster; when it fails, no other sector has changed |
| Directory.Dir.Next | os/fatfs/core/ff.c:1745-1797 | moves to the next entry, stretching the directory by a zeroed cluster when asked; a failed stretch changes nothing but the tables and free clusters |
| Directory.Dir.Alloc | os/fatfs/core/ff.c:1806-1837 | reserves the first run of free entries long enough |
| Directory.Dir.Find | os/fatfs/core/ff.c:2384-2455 | success means the cursor is on the entry of the first file that has the name, no-file that none has |
| Directory.Dir.ChooseNumber | os/fatfs/core/ff.c:2512-2522 | the numbered short name it settles on is one no entry has |
| Directory.Dir.Register | os/fatfs/core/ff.c:2465-2559 | writes the block of any text into the first free run; an absent name whose fillers do no harm is then found; on every outcome the entries in use stay and nothing outside the directory changes |
| Directory.Dir.Read | os/fatfs/core/ff.c:2306-2374 | stops at the next live entry with its long name collected, or at the end when there is none |
| Directory.Dir.Remove | os/fatfs/core/ff.c:2571-2606 | marks exactly the block's entries deleted; when it fails, the first of them and no others |
| Names.ReadSegment | os/fatfs/core/ff.c:2862-2872 | the units of the longest legal segment, refused exactly when a wrong or illegal character ends it or it has too many units |
| Names.EndsOnce | os/fatfs/core/ff.c:2862-2872 | a segment has one end |
| Names.MakeShort | os/fatfs/core/ff.c:2901-2963 | a long entry is needed exactly when the name is not in 8.3 form; then and only then ASCII names lose something; otherwise the short name is the stored form |
| Names.CreateName | os/fatfs/core/ff.c:2847-2976 | the long name, the short name and all status flags of the next segment, dot names included, and where the next one begins; refused exactly when the segment cannot be read or is blank and no dot name |
| Names.CreatedIsShown | os/fatfs/core/ff.c:2550-2554 | a name stored without a long entry is shown exactly as it was given, letter case included |
| Names.OddIsNot83 | os/fatfs/core/ff.c:2911-2953 | one character out of place takes a name out of 8.3 form |
| Names.ShortInfo | os/fatfs/core/ff.c:2692-2730 | shows a short entry, in the case its flags tell |
| NameForm.ShownAsNamed | os/fatfs/core/ff.c:2692-2730 | every 8.3 name of one case in body and extension comes back from its stored form and flags |
| NameForm.FormShown | os/fatfs/core/ff.c:2692-2712 | the stored form shows the name in capitals, with its dot |
| Pattern.PatternMatch | os/fatfs/core/ff.c:2793-2837 | matches exactly when the pattern, each wildcard term read through its packed count, matches and has no more terms than allowed; the early stop loses nothing |
| Pattern.Attempt | os/fatfs/core/ff.c:2812-2832 | one attempt at one place; when it used up the name no later place can match |
| Pattern.LaterFails | os/fatfs/core/ff.c:2833-2834 | why stopping at the end of the name loses no match |
| Pattern.PackedIsGlob | os/fatfs/core/ff.c:2793-2837 | for terms of fewer than 256 queries the packed reading is the meaning of the pattern |
| Pattern.RightExactlyWhenPlain | os/fatfs/core/ff.c:2816-2824 | the matcher reads a pattern right on all names exactly when no term has 256 queries |
| Pattern.Matches | os/fatfs/core/ff.c:4740 | as the search calls it: a match exactly when the name matches and the pattern has at most four terms |
| Mount.SoundUnlessWrapped | os/fatfs/core/ff.c:3512-3561 | an accepted geometry is sound exactly when, by the boot sector's own numbers, the volume ends within 32-bit sector numbers |
| Mount.WrappedAccepted | os/fatfs/core/ff.c:3514-3543 | a boot sector that wraps and is accepted with overlapping areas |
| Mount.MountsWhatBootSays | os/fatfs/core/ff.c:3512-3561 | mounting reads back every sound geometry from its boot sector |
| Mount.AreasApart | os/fatfs/core/ff.c:3544-3561 | in a sound geometry tables, root directory and clusters are disjoint and inside, and a sector belongs to one cluster |
| Mount.EndMarkIsNoCluster | os/fatfs/core/ff.c:1600 | the end mark cut to an entry's width is no cluster number |
| Mount.MountGeometry | os/fatfs/core/ff.c:3512-3561 | computes the geometry from the boot sector, with the exact condition for its soundness |
| Mount.MountBounds | os/fatfs/core/ff.c:3537-3561 | sub-type, boundaries and the size check of the table |
| LockTheory.SoundIsExclusive | os/fatfs/core/ff.c:945-1033 | a table that tells its handles never has a writer beside another handle |
| LockTheory.OpenKeeps | os/fatfs/core/ff.c:981-1009 | an admitted open keeps the table right exactly when it is not the 256th reader |
| LockTheory.CloseKeeps | os/fatfs/core/ff.c:1012-1033 | closing a handle keeps the table right for the rest |
| LockTheory.ClearKeeps | os/fatfs/core/ff.c:1036-1045 | unmounting keeps the table right for the other volumes' handles |
| LockTheory.RunKeeps | os/fatfs/core/ff.c:945-1045 | over every run of opens, creations, closes and unmounts each object has one slot whose counter is its readers or one writer, and writers are alone |
| LockTheory.ReadersOverflow | os/fatfs/core/ff.c:1006 | the 256th reader and one close leave 255 readers unprotected from a writer |
| Lock.Locks.ChkShare | os/fatfs/core/ff.c:945-969 | refuses exactly what the open handles do not allow, and what it admits can be registered |
| Lock.Locks.EnqShare | os/fatfs/core/ff.c:972-978 | tells whether a slot is free |
| Lock.Locks.IncShare | os/fatfs/core/ff.c:981-1009 | never fails after an admission, and registers the open in the object's slot; without one it refuses a writer beside another handle and counts a reader on top of anything |
| Lock.Locks.DecShare | os/fatfs/core/ff.c:1012-1033 | unregisters one open, refuses wrong numbers |
| Lock.Locks.ClearShare | os/fatfs/core/ff.c:1036-1045 | forgets exactly one volume's objects |
| HeapTheory.Covered | os/freertos/memmang/heap_5.c:407-499 | every usable byte belongs to exactly one block |
| HeapTheory.Increasing | os/freertos/memmang/heap_5.c:344-404 | blocks lie in ascending order without overlap |
| HeapTheory.ListAscends | os/freertos/memmang/heap_5.c:344-404 | the free list is in strictly ascending address order |
| HeapTheory.InsertedKeeps | os/freertos/memmang/heap_5.c:344-404 | freeing a block keeps the tiling and adds exactly its size to the free bytes |
| HeapTheory.InsertedCoalesced | os/freertos/memmang/heap_5.c:344-404 | and leaves no two free blocks touching |
| HeapTheory.InsertedListing | os/freertos/memmang/heap_5.c:344-404 | and puts its address in order into the list, less what was merged |
| HeapMemory.SplicedLinked | os/freertos/memmang/heap_5.c:344-404 | the header writes of an insertion link exactly the new list |
| HeapMemory.SplicedSized | os/freertos/memmang/heap_5.c:344-404 | and give each listed block its size |
| HeapSteps.SearchEnd | os/freertos/memmang/heap_5.c:183-196 | the walk stops at the first block in address order that fits |
| HeapSteps.HeaderTells | os/freertos/memmang/heap_5.c:283-312 | the mark in the header before a pointer tells whether its block is live |
| HeapSpec.MallocAnswer | os/freertos/memmang/heap_4.c:115-272 | malloc fails exactly when no free block holds the rounded request, else uses the lowest adequate block, aligned, large enough, taken from the free bytes |
| HeapSpec.TakenKeeps | os/freertos/memmang/heap_4.c:171-246 | an allocation keeps the tiling and the coalescing and changes nothing before its block |
| HeapSpec.MallocThenFree | os/freertos/memmang/heap_5.c:344-404 | freeing what was just allocated gives the former blocks back; only an end marker between regions may be absorbed |
| HeapSpec.MallocThenFreeRestores | os/freertos/memmang/heap_4.c:390-450 | in one region it restores every block and the free list |
| HeapSpec.TakenLive | os/freertos/memmang/heap_4.c:115-272 | an allocation adds one live block and leaves the others |
| HeapSpec.FreedLive | os/freertos/memmang/heap_4.c:275-321 | a release removes exactly that live block |
| HeapSpec.LiveDisjoint | os/freertos/memmang/heap_5.c:133-281 | live blocks share no byte and lie inside one region each |
| HeapSpec.Conserved | os/freertos/memmang/heap_5.c:133-329 | free and allocated bytes together are always the usable bytes |
| HeapSpec.RunKeeps | os/freertos/memmang/heap_5.c:133-404 | over every run of malloc and free the blocks tile the regions, no two free ones touch and no byte is lost |
| HeapStart.InitialSound | os/freertos/memmang/heap_5.c:407-499 | initialisation gives one free block and one end marker a region, holding all its bytes |
| HeapImplementation.Heap.InsertBlock | os/freertos/memmang/heap_5.c:344-404 | the walk and the header writes carry out the insertion on blocks and list together |
| HeapImplementation.Heap.Search | os/freertos/memmang/heap_5.c:183-192 | returns the first fit and its predecessor in the list |
| HeapImplementation.Heap.Enlarge | os/freertos/memmang/heap_5.c:148-180 | the request with header, rounded up, in 32-bit arithmetic; refused on overflow |
| HeapImplementation.Heap.Malloc | os/freertos/memmang/heap_5.c:133-281 | the answer and the new heap, list, headers and counters included, are those of the allocation; the minimum ever is the true historical minimum |
| HeapImplementation.Heap.Free | os/freertos/memmang/heap_5.c:283-329 | a live block goes back; NULL and an already free block change nothing |
| HeapImplementation.Heap.DefineRegions | os/freertos/memmang/heap_5.c:407-499 | sets up the list over all regions |
| HeapImplementation.Heap.HeapInit | os/freertos/memmang/heap_4.c:342-387 | sets up the list over the one heap |
| HeapImplementation.Heap.MallocSingle | os/freertos/memmang/heap_4.c:115-272 | heap_4's malloc, initialising on the first call |
| UbxTheory.ChecksumIs | atomics/ublox/protocol/rx_framing/ublox_protocol_rx_framing_exec.c:60-70 | the running sums are the sum and the position-weighted sum of the bytes |
| UbxTheory.ChecksumDetects | atomics/ublox/protocol/rx_framing/ublox_protocol_rx_framing_exec.c:60-70 | no single wrong byte goes unnoticed |
| UbxTheory.ParseConcat | atomics/ublox/protocol/rx_framing/ublox_protocol_rx_framing_exec.c:90-206 | parsing a stream in parts is parsing the whole |
| UbxTheory.ParseTracks | atomics/ublox/protocol/rx_framing/ublox_protocol_rx_framing_exec.c:90-206 | the UBX buffer never overflows and the RTCM buffer by at most two bytes, and every emitted frame is genuine: in the stream, complete, with a valid checksum |
| UbxTheory.ParseEncoded | atomics/ublox/protocol/rx_framing/ublox_protocol_rx_framing_exec.c:101-172 | encoding a frame and parsing it gives it back |
| UbxTheory.ParseSent | atomics/ublox/protocol/rx_framing/ublox_protocol_rx_framing_exec.c:90-206 | frames separated by bytes that start none come out exactly, in order, and are counted |
| UbxTheory.EmittedExactlyWhenIdle | atomics/ublox/protocol/rx_framing/ublox_protocol_rx_framing_exec.c:90-206 | in any state a stream can lead to, a well-formed fitting frame comes out at its last byte exactly when the parser was between frames |
| UbxTheory.FrameInStream | atomics/ublox/protocol/rx_framing/ublox_protocol_rx_framing_exec.c:90-206 | the same of a stream and the bytes before the frame |
| UbxTheory.StraysHide | atomics/ublox/protocol/rx_framing/ublox_protocol_rx_framing_exec.c:90-122 | behind stray start bytes a frame comes out exactly when their number is even |
| UbxTheory.StrayHides | atomics/ublox/protocol/rx_framing/ublox_protocol_rx_framing_exec.c:112-122 | one stray start byte right before any frame hides it |
| UbxTheory.RtcmBound | atomics/ublox/protocol/rx_framing/ublox_protocol_rx_framing_exec.c:137-198 | an RTCM frame is taken exactly for lengths up to the buffer less 4 and fits exactly up to less 6 |
| UbxFraming.CalcCrc | atomics/ublox/protocol/rx_framing/ublox_protocol_rx_framing_exec.c:60-70 | packs the two sums |
| UbxFraming.Framing.Dispatch | atomics/ublox/protocol/rx_framing/ublox_protocol_rx_framing_exec.c:90-206 | one byte takes the machine one step of the parser |
| UbxFraming.Framing.Process | atomics/ublox/protocol/rx_framing/ublox_protocol_rx_framing_exec.c:90-206 | works through the buffer until a frame is out or the machine is reset |
| UbxFraming.Framing.Exec | atomics/ublox/protocol/rx_framing/ublox_protocol_rx_framing_exec.c:208-233 | one activation reads and processes until a frame is out or a read fails |
| UbxFraming.ChunkingIndependent | atomics/ublox/protocol/rx_framing/ublox_protocol_rx_framing_exec.c:208-233 | receivers that processed the same bytes are in the same state with the same output, however the reads cut the stream |
| UbxFraming.Delivered | atomics/ublox/protocol/rx_framing/ublox_protocol_rx_framing_exec.c:208-233 | once everything sent has been processed, exactly the sent frames were output in order |
| NodeTheory.TokensOfJoined | os/fatfs/fsa/node.c:114-152 | repeated and trailing slashes do not matter: a path means its names |
| NodeTheory.RunOfMounts | os/fatfs/fsa/node.c:31-68 | after any run of mounts a path exists exactly when some mount reached it, with the operations of the first mount that did if that was on this path |
| NodeTheory.MountOne | os/fatfs/fsa/node.c:31-68 | one mount creates exactly the missing prefixes and alters no existing node's operations |
| NodeTree.AddedSound | os/fatfs/fsa/node.c:166-185 | appending a child keeps the links a finite tree with right parents and distinct sibling names |
| NodeTree.Appended | os/fatfs/fsa/node.c:166-173 | linking a node behind the last sibling is the addition |
| NodeTree.FoundIs | os/fatfs/fsa/node.c:70-101 | a full lookup finds exactly the existing paths, a nearest one the longest existing prefix with a name |
| NodeTree.TableClosed | os/fatfs/fsa/node.c:31-68 | the tree stands for a table closed under prefixes |
| NodeTree.MountedTable | os/fatfs/fsa/node.c:49-65 | the nodes made on the way and the last one's operations are the mount on the table |
| NodeTree.Tree.GetToken | os/fatfs/fsa/node.c:114-152 | splits off the first name of a path |
| NodeTree.Tree.FindSibling | os/fatfs/fsa/node.c:154-164 | finds exactly the child of that name |
| NodeTree.Tree.Find | os/fatfs/fsa/node.c:70-101 | returns what the path means in the tree, with the error code |
| NodeTree.Tree.AddChild | os/fatfs/fsa/node.c:175-185 | appends a child and keeps the tree sound |
| NodeTree.Tree.AddSibling | os/fatfs/fsa/node.c:166-173 | appends behind the last child |
| NodeTree.Tree.Mount | os/fatfs/fsa/node.c:31-68 | mounts, refuses existing paths, keeps every node in place; without memory the prefixes made so far stay |
| Printf.IntTextRead | os/fatfs/fsa/printf.c:227-301 | a printed number reads back as the value cut to 32 digits, its sign lost exactly when zeros fill the buffer |
| Printf.IntTextRight | os/fatfs/fsa/printf.c:227-301 | a printed number reads back exactly when it is below base^32 and, when negative, below base^31 with precision and zero-padded width that leave room for the sign |
| Printf.DigitsFit | os/fatfs/fsa/printf.c:292-298 | the digits leave room in the buffer exactly for values below the base to the power of its size less one |
| Printf.DigitsSum | os/fatfs/fsa/printf.c:292-298 | the digits stand for the value as far as there is room |
| Printf.Printer.Put | os/fatfs/fsa/printf.c:133-138 | the buffer holds the longest prefix of the whole output that fits |
| Printf.Printer.OutRev | os/fatfs/fsa/printf.c:199-223 | puts out the characters in reverse with the padding |
| Printf.Printer.NtoaFormat | os/fatfs/fsa/printf.c:227-277 | leading zeros, sign and justification of a number |
| Printf.Printer.NtoaLong | os/fatfs/fsa/printf.c:281-301 | appends the text of a number to the output |
| Printf.Printer.Finish | os/fatfs/fsa/printf.c:852-857 | the first n - 1 characters of the whole output, terminated, and its full length, whatever the limit n |
| Printf.Atoi | os/fatfs/fsa/printf.c:188-195 | reads the decimal digits there are, in 32-bit arithmetic |

## Left out

- The parts of ff.c that the configuration compiles out: exFAT, fast seek, formatting, read-only and tiny variants, code pages other than 437.
- The code-page and case tables; they are parameters, and with them UTF-8 decoding of paths (`tchar2uni`) and long names put out in UTF-8.
- `f_sync` and `f_close` beyond writing the buffer back: the directory entry's size, first cluster and time stamps, and FSInfo.
- `f_open`, `f_unlink`, `f_rename`, `f_mkdir` and `follow_path`: compositions of the modelled layers.
- Volume detection (`find_volume`, `check_fs`) and the FSInfo values read at mount; the free counter and the allocation hint are parameters.
- The volume mutex and validity checks of file objects: operations are modelled as not interleaved.
- `dir_clear` writes single sectors; the source's larger buffer, filled with the same zeros, is not modelled.
- The bytes of a gap made by seeking past the end are not specified, because the source leaves them as they are on the disk.
- File.Fil.Truncate: after a disk error the object is not promised to be usable, because the buffer and the chain may no longer belong together.
- Directory.Dir.Clear: after a failure the volume object is not promised to be in order, because the window claims a sector is zero that may not be.
- Directory.Dir.Next: after a failed stretch the object is not promised to be usable, for the same reason; what is said of the entries is said for a volume that is in order.
- Sharing.RunKeepsOthers: no turn ends in a failed `dir_clear`, after which the volume object is not promised to be in order; a file or directory whose own operation failed takes no further turn and is promised nothing more.
- Directory.Dir.Find: what a result means for the names is said of directories made of files, labels and free entries with their long names, which is what registering and removing leave behind; orphaned long-name entries are searched over as in the source.
- Pattern.PatternMatch: characters are decoded ones; a wrong encoding ends the string, as in the source.
- Lock.Locks.IncShare: the counter of 65535 readers, which the source wraps to none, is not specified.
- Heap: statistics (`vPortGetHeapStats`), the malloc-failed hook and the scheduler lock; the source's assertions are preconditions, so freeing a pointer that was never returned is outside the model.
- HeapImplementation.Heap.DefineRegions: regions must be given in address order, disjoint and shorter than 2^31 bytes, as the source's comment demands.
- u-blox: serial port set-up, activation counters of the framework and the RTCM checksum, which the source does not check either.
- NodeTree.Tree.Mount: names must be shorter than 64 bytes, because the source copies them without a bound.
- printf: the format loop, strings and characters, the alternative form, floating point and the null and stream outputs.
- The remaining repository (sensor drivers, board configuration, port layer, thin wrappers) is bus traffic, constants and forwarding.
