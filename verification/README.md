# ValcOS storage and resource managers in Dafny

The kernel keeps six kinds of state in place: a FAT12 volume on a RAM disk, a heap, a page
bitmap with slab caches on top, two-level page tables, a ready queue and a timer list. Each has
an invariant that no single function shows. This project models the code that maintains them
and proves what holds over whole calls and whole runs.

Each part has the same shape. A specification on values (`FatOps`, `HeapBlocks`, `PageBitmap`,
`SlabLists`, `PageTables`, `TimerSpec`, `SchedSpec`) says what an operation does. A class with
the fields of the source (`FatDriver.Driver`, `KernelHeap.Heap`, `PageAllocator.Pmm`,
`SlabCache.Cache`, `VirtualMemory.Vmm`, `KernelTimers.KTimers`, `Scheduler.Kernel`) carries the
loops and in-place writes of the code and is proved to do exactly that. The lemmas say what the
specification means to a caller. Access to a page is such a case: `Vmm.Valid` holds the
invariants that `MappedUser` and `MappedWrite` keep, and `MappedEffective` and `MappedWrites`
say what they are worth.

`dafny verify dfyconfig.toml` checks everything.

| files | part | main results |
|---|---|---|
| `FatCells`, `FatChains`, `FatScan`, `FatTables` | 12-bit cells, cluster chains, the two copies of the table and the scan over them | `StoreThenRead`, `TwoSettersAgree`, `Conservation`, `ScanAgrees`, `FreeChain` |
| `FatNames`, `FatVolume`, `FatOps`, `FatMeaning`, `FatContents`, `FatRuns` | names, volumes, operations and their meaning | `ParseExact`, `WriteMeans`, `WriteStores`, `AppendExact`, `MakeDirHolds`, `StepInv`, `RunInv` |
| `FatFill`, `FatDriver` | the driver, in place | `Driver.WriteFile`, `Driver.ReadFile` |
| `HostBytes`, `ImageBuilder`, `FatImage`, `ImageAgreement` | the image builder and its byte array, the image, what is loaded of it, and the driver reading that | `AllFound`, `FilesPlaced`, `FoundInImage`, `ShippedMisses` |
| `HeapBlocks`, `HeapRuns`, `KernelHeap` | kmalloc and kfree | `RunTiles`, `MallocFails`, `LifoExact`, `NestIdentity`, `RunNoPair`, `AlignedEveryFourth` |
| `PageBitmap`, `PageAllocator` | physical pages | `Pmm.FindFree`, `Pmm.AllocBlocks`, `RangeRestored` |
| `SlabPages`, `SlabSizes`, `SlabLists`, `SlabCount`, `SlabNeighbours`, `SlabCache` | slab caches over heap and pages | `Cache.Alloc`, `Cache.Free`, `LiveApart`, `ActiveCounts`, `Cache.Beside` |
| `PageTables`, `VirtualMemory` | paging over pages | `MappedFlat`, `MappedEffective`, `MappedWrites`, `CloneSees`, `Vmm.Init` |
| `IntrusiveList` | circular lists | `InsertRing`, `RemoveRing` |
| `TimerSpec`, `TimerWalk`, `KernelTimers` | kernel timers | `RunShape`, `PassClears`, `LostExact`, `CleanExact`, `KTimers.Run` |
| `SchedSpec`, `SchedMeaning`, `SchedWait`, `SchedAsleep`, `Scheduler` | the scheduler with signals | `RunInv`, `TickSwitches`, `YieldGives`, `EveryoneGetsTurn`, `NeverContinued` |
| `ProcessSlab` | process structures in their slab cache | `StartUser`, `Fork`, `Kill`, `ProcessesApart` |
| `Sequences`, `Arithmetic` | shared notions of sequences, intervals and division | |

## Where the code does less than its text suggests

Where a lemma is named, it proves the point, with the exact condition where there is one.

- The driver scans 4080 clusters (`fs/fat12.c:22`), but a table of 9 sectors holds 3072 cells;
  the rest of the scan reads the second copy. First fit is not affected. The free space counts
  every free cluster below 1008 twice, 4076 instead of 3070 on a fresh image, so it is right if
  and only if none of them is free (`ScanAgrees`, `FreshCount`, `GetFreeSpace`).
- Driver and builder disagree on the number of reserved sectors, 200 and 1024. The addresses
  agree if and only if the numbers do (`AddressesDiffer`). With these two the driver takes
  part of the kernel area for the directory, and finds no file if and only if no entry in use
  stands there before the first end mark, as in an image whose sector 218 begins with a zero
  byte (`ShippedMisses`).
- The boot sector loads 1024 sectors (`boot/boot.asm:49`); the driver reads a sector of the
  image only if it is one of them (`SectorSeen`). With equal numbers of reserved sectors all
  files are found if and only if the last cluster has been loaded (`FoundInImage`), which 1024
  reserved sectors rule out (`NoneLoaded`).
- The builder checks neither names nor sizes. Its volume stays valid if and only if each file
  is not empty and its stored name is new (`BuiltUpward`). The image has 2880 sectors, 1824 of
  them for clusters; what is written behind its end is appended wherever that is. Every file is
  where it belongs if and only if each but the last one ends within the image or fills its last
  sector (`FilesPlaced`, `SecondFileLost`).
- Append starts a new sector, so the appended data follow the old ones only when the size fills
  the last sector (`AppendExact`, `GappedAppend`).
- A name that starts with byte 0xE5 passes the parser. Create then makes an entry that cannot
  be found (`CreateMeans`); mkdir also loses a cluster (`MakeDirLoses`, `GhostlyDirLeaks`), and
  nothing else does (`StepInv`, `RunInv`).
- `kmalloc` rounds its size with an addition that wraps (`RoundedCovers`). Sizes are rounded to
  16 but headers take 12 bytes, so addresses are multiples of 4 (`AddressesWords`); with
  allocations only, one in four is a multiple of 16, and not the first (`AlignedEveryFourth`).
- `kfree` merges forwards only, so adjacent free blocks arise, and exactly when the block before
  the released one is free (`FreedNoPair`, `RunNoPair`, `PairsArise`).
- `pmm_reserve_region` ignores the offset of its start in the first page, and its rounding of
  the size wraps (`ReserveCovers`).
- A slab cache for objects of size 0 with an alignment above 4 is not aligned, and a size whose
  rounding wraps gets smaller objects (`ObjectSizeFits`). Objects above 4072 bytes, as in the
  common cache of 4096, do not fit on a page (`NoneFit`).
- The walk over the timers saves the next one before it runs a callback. It comes to a null
  link if and only if a callback leaves that one off the list (`LostExact`). If callbacks arm
  timers only for later than now, it ends otherwise (`EndExact`), and leaves a timer due only
  where a step misses it, being still due and no longer ahead (`EndDue`, `CleanExact`). That
  happens when a callback re-arms the saved timer while another one is due
  (`RearmedNextMisses`). A callback that arms a timer already due can keep the walk going for
  ever (`NeverEnds`).
- A cloned page directory shares the tables that exist at that time and no later ones
  (`CloneSees`). A user page mapped later is usable through it only if the copied directory
  entry was a user entry already (`CloneUser`).
- The comment on time slices promises 5 to 20 ticks; the code gives 10 to 13 (`TimeSlice`).
- A signal reaches only the process that is switched out, so SIGCONT never continues a blocked
  process that is not current (`NeverContinued`).
- `fork` does not look at whether the stack of the child was allocated, and returns the pid
  either way (`ProcessSlab.Fork`).
- Blocking the current process has no effect when no other process is runnable
  (`BlockTakesHold`).

## Model

| member | source | states |
|---|---|---|
| FatCells.TwoSettersAgree | fs/fat12.c:115-126 | The byte-wise setter of the driver and the 16-bit read-modify-write of the image builder produce the same two bytes, for even and odd clusters and every 16-bit value. |
| FatCells.StoreThenRead | fs/fat12.c:101-126 | Reading a cell after a store gives the value modulo 4096; every other cell, including the one that shares a byte, reads as before. |
| FatCells.StoreIsUpdate | fs/fat12.c:101-132 | On the whole table a store is the update of one entry, for every table of at most 3072 cells. |
| FatCells.CellExact | fs/fat12.c:101-112 | Two cells share three bytes: the even one is the first byte and the low half of the second, the odd one the high half of the second and the third. |
| FatTables.FatTable.Format | scripts/make_fat12.py:57-66 | A formatted pair of tables has the two reserved entries and otherwise only free cells; both copies are equal. |
| FatTables.FatTable.Get | fs/fat12.c:101-112 | Returns the 12-bit cell; behind the last cell it reads on into the second copy and returns the cell 3072 before. |
| FatTables.FatTable.Set | fs/fat12.c:115-132 | Updates exactly one cell of the first table in place and keeps the second an exact mirror. |
| FatTables.FatTable.SetWord | scripts/make_fat12.py:123-140 | The word-wise setter has the same effect on both tables, byte for byte. |
| FatTables.FatTable.FindFree | fs/fat12.c:135-142 | Returns the lowest free cluster of the first copy from 2 on, or 0xFFFF exactly when none is free, also when the scan runs to 4080: never a cluster above 3071. |
| FatTables.FatTable.CountFree | fs/fat12.c:393-403 | Counts the free clusters, plus those below scan - 3072 a second time when the scan runs into the second copy. |
| FatScan.Aliased | fs/fat12.c:101-112 | While the copies agree, a cell read from 3072 on is the cell 3072 before it. |
| FatScan.ScanAgrees | fs/fat12.c:22 | A scan of 3072 to 6144 cells finds the same first free cluster as one of 3072; it counts the same number if and only if no cluster of the repeated part, below 1008 for the 4080 of the driver, is free. |
| FatScan.FreshCount | fs/fat12.c:393-403 | On a freshly formatted image the scan of 4080 cells counts 4076 free clusters where 3070 are free. |
| FatTables.FatTable.FreeChain | fs/fat12.c:160-168 | Terminates on every table of well-formed cells, cyclic ones included, and zeroes exactly the clusters visited; on a chain that ends these are exactly the clusters of the chain. |
| FatChains.ChainUnique | fs/fat12.c:224-230 | Two chains that share a cluster agree from there on: following the table is deterministic. |
| FatChains.SoundIsWellFormed | fs/fat12.c:101-112 | Where the chains account for the table, every cell is 0, a cluster number or an end mark, and no chain runs through a free cell. |
| FatChains.PushSound | fs/fat12.c:302-309 | Linking a free cluster behind a chain keeps all chains acyclic, disjoint and complete. |
| FatChains.GrowTakes | fs/fat12.c:278-311 | First-fit growth takes the first free clusters in ascending order, and the rest stay free. |
| FatChains.FreeRises | fs/fat12.c:135-142 | Free clusters are listed in ascending order. |
| FatChains.FreeLeast | fs/fat12.c:135-142 | The first of them is the lowest free cluster. |
| FatChains.GrowSound | fs/fat12.c:336-357 | First-fit growth by any number of clusters keeps the accounting of all chains. |
| FatChains.ClearSound | fs/fat12.c:160-168 | Releasing a whole chain keeps every other chain and leaves no cluster without an owner. |
| FatChains.WalkIsChain | fs/fat12.c:160-168 | A walk that starts where a chain starts visits that chain. |
| FatChains.WalkingStep | fs/fat12.c:163-167 | One step of the releasing loop: a cluster met again reads 0 and ends the walk, a new one is zeroed. |
| FatChains.Conservation | fs/fat12.c:393-403 | Free clusters plus the lengths of all chains, lost ones included, are N - 2. |
| FatChains.ClearedFree | fs/fat12.c:267-271 | Releasing a chain returns exactly its length to the free clusters. |
| FatDriver.ParseName | fs/fat12.c:38-67 | The in-place parse computes the specified 11 bytes, which ParseExact gives byte by byte, or the error for a part that is too long. |
| FatNames.ParseExact | fs/fat12.c:38-67 | With the first dot at d: a name is accepted if and only if the parts have at most 8 and 3 bytes; each byte is stored at its place in its part, a small letter as its capital, others unchanged; the rest is blanks, and no small letter is stored. |
| FatNames.CaseBlind | fs/fat12.c:47-61 | Names that differ only in the case of letters are parsed alike. |
| FatNames.ParseCanonical | fs/fat12.c:38-67 | A parsed name holds no lower-case letter and no NUL and has no dot in its first part; it starts with the tombstone byte exactly when the given name does. |
| FatNames.FindExact | fs/fat12.c:69-98 | In a tidy directory the search stops at slot k exactly when slot k is live and has the name: tombstones never hide later entries. |
| FatNames.FindMiss | fs/fat12.c:69-98 | The search fails exactly when no live entry has the name. |
| FatNames.FreeSlot | fs/fat12.c:144-157 | The first slot that is not live. |
| FatNames.CreateTidy | fs/fat12.c:241-256 | A new entry with an unused name keeps the directory tidy: names distinct, nothing live behind the first unused slot. |
| FatNames.DeleteTidy | fs/fat12.c:374-375 | A tombstone keeps the directory tidy. |
| FatNames.ListedParsesBack | fs/fat12.c:189-204 | Parsing the name that the listing prints gives back the stored 11 bytes if and only if neither part has an embedded blank and, for a directory, the extension is blank. |
| FatNames.ListedExact | fs/fat12.c:189-204 | The listing prints each part up to its first blank, and a dot between them unless the entry is a directory. |
| FatNames.EntryLayout | include/fat12.h:26-40 | Where name, attributes, first cluster and size lie in the 32 bytes of an entry; the bytes between are zero. |
| FatDriver.DisplayName | fs/fat12.c:189-204 | The printing loops compute the listed name. |
| FatNames.HostNamesAgree | scripts/make_fat12.py:83-90 | The builder converts the name, and to the driver's parse of it, if and only if the name has at most one dot, parts of at most 8 and 3 characters, and only ASCII characters. |
| FatNames.BuilderNameDotted | scripts/make_fat12.py:83-90 | For every ASCII name, the bytes that the builder stores are the parse of their own dotted form: the driver can always name the file. |
| FatNames.BuilderExact | scripts/make_fat12.py:83-90 | The stored bytes: each part in capitals, cut off at 8 and 3 bytes and filled up with blanks, the second part ending at the second dot. |
| FatVolume.StoredGather | fs/fat12.c:288-298 | Sectors written along distinct clusters read back as the content padded with zeros. |
| FatVolume.StoredElsewhere | fs/fat12.c:288-298 | They leave the bytes of every chain that shares none of these clusters alone. |
| FatVolume.GatherConcat | fs/fat12.c:224-230 | Reading two chains joined is reading one after the other. |
| FatVolume.NameAtSlot | fs/fat12.c:215-233 | The file behind a live entry is what a lookup of its name shows. |
| FatVolume.OtherNames | fs/fat12.c:69-98 | A change confined to one slot changes the outcome of no lookup under another name. |
| FatOps.RewriteConserves | fs/fat12.c:261-361 | Every operation only moves clusters between the free ones and the chain of its own file. |
| FatOps.RewriteReads | fs/fat12.c:261-361 | The rewritten file reads as the kept bytes followed by the new sectors. |
| FatOps.RewriteOnly | fs/fat12.c:261-361 | No other entry, chain or content changes. |
| FatOps.RewriteOutcome | fs/fat12.c:261-361 | The three statements together, by file name. |
| FatOps.WrittenSize | fs/fat12.c:273-313 | On every exit of a write the size field is the number of bytes stored; the early exit that leaves it alone is reached only when it is already right. |
| FatOps.WriteMeans | fs/fat12.c:261-315 | A write succeeds if and only if the sectors of the data fit into the free clusters plus the old chain of the file; otherwise the longest prefix that fits is stored with a matching size. The name then shows that data, zero-padded, and every other name shows what it showed. |
| FatContents.WriteStores | fs/fat12.c:261-315 | A write succeeds if and only if the data are no longer than 512 times the clusters to be had. The size is the number of bytes kept, which are the front of the data and all of them on success; zeros fill up the last sector, and no sector more is used. |
| FatContents.AppendStores | fs/fat12.c:317-361 | The same for append: the old bytes stay, and behind them come the data, or the front that fits. |
| FatContents.CreateHolds | fs/fat12.c:235-259 | The new entry has the parsed name, attribute 0x20, no cluster and size 0; it is found unless its name begins with byte 0xE5. |
| FatContents.DeleteMarks | fs/fat12.c:363-378 | Delete changes the first byte of the name of this entry to 0xE5, and no other byte of the directory or of any sector. |
| FatOps.FileErrors | fs/fat12.c:262-265 | Write, append and delete report exactly the missing name, or the directory, and then change nothing. |
| FatMeaning.AppendMeans | fs/fat12.c:317-361 | Append keeps the old sectors as a prefix, adds the sectors of the data (or those that fit) and on success adds the length to the size; DISK_FULL exactly when they do not fit, with the size unchanged. |
| FatMeaning.AppendToEmpty | fs/fat12.c:323-328 | Appending to a file without clusters is writing it. |
| FatMeaning.AppendExact | fs/fat12.c:317-361 | Every append that fits shows old contents followed by new ones if and only if the size fills the last sector, as it does for a file without clusters, or no cluster is free. |
| FatMeaning.GappedAppend | fs/fat12.c:340-359 | When the last sector is partly filled, some one-byte append does not show the concatenation. |
| FatMeaning.DeleteMeans | fs/fat12.c:363-378 | Delete makes exactly this name unfindable and frees exactly its clusters. |
| FatMeaning.CreateErrors | fs/fat12.c:235-247 | Existing name, full directory and invalid name, in that order of precedence; nothing changes. |
| FatMeaning.CreateMeans | fs/fat12.c:235-259 | Create makes exactly this name findable, as an empty file, unless it starts with the tombstone byte, when the entry cannot be found. |
| FatMeaning.MakeDirMeans | fs/fat12.c:476-526 | mkdir makes exactly this name findable, takes one cluster and fills it with the two dot entries. |
| FatContents.MakeDirHolds | fs/fat12.c:490-523 | The sector that the new name shows decodes to an entry "." with the cluster recorded in the root directory, which is the lowest free one, an entry ".." with that of the current directory, both directories, and zeros. |
| FatMeaning.MakeDirLoses | fs/fat12.c:490-502 | mkdir under a name that starts with the tombstone byte succeeds, takes one cluster and makes nothing findable: the cluster joins the lost ones. |
| FatRuns.GhostlyDirLeaks | fs/fat12.c:490-502 | No entry owns that cluster afterwards, however chains are assigned to the entries. |
| FatRuns.StepInv | fs/fat12.c:235-378 | Every operation, on success and on every error exit, keeps chains acyclic, terminated and disjoint and accounts for every used cluster; it loses one exactly when it is such a mkdir. |
| FatRuns.RunInv | fs/fat12.c:235-378 | Over every run: chains acyclic, inside the table, terminated, pairwise disjoint, covering exactly the used clusters, sizes within their chains; free, owned and lost clusters add up to N - 2, and the lost ones grow by the number of such mkdirs. |
| FatDriver.Driver.FindFile | fs/fat12.c:69-98 | The sector-by-sector search returns the slot of the specified search. |
| FatDriver.Driver.FindFreeRootEntry | fs/fat12.c:144-157 | Returns the first slot that is not live, or the end. |
| FatDriver.Driver.ReadFile | fs/fat12.c:215-233 | Returns the size and puts all sectors of the file, and nothing else, into the buffer; errors leave the buffer alone. The volume does not change. |
| FatDriver.Driver.ReadChain | fs/fat12.c:221-230 | Following the chain through the table copies its sectors in order. |
| FatDriver.Driver.CreateFile | fs/fat12.c:235-259 | In place, the specified create, with its status. |
| FatDriver.Driver.WriteFile | fs/fat12.c:261-315 | In place, the specified write, with its status, and the volume stays valid. |
| FatDriver.Driver.WriteInto | fs/fat12.c:267-314 | The part behind the checks: release, allocate, fill, set the size. |
| FatDriver.Driver.DropOldChain | fs/fat12.c:267-271 | Frees exactly the old clusters of the entry and clears its first cluster. |
| FatDriver.Driver.FillFrom | fs/fat12.c:285-311 | The allocation loop stores the sectors it can and reports the bytes written. |
| FatDriver.Driver.LinkNext | fs/fat12.c:300-309 | Takes the first free cluster behind the last, or reports that none is left exactly when the specified limit is reached. |
| FatDriver.Driver.AppendFile | fs/fat12.c:317-361 | In place, the specified append, with its status. |
| FatDriver.Driver.LastCluster | fs/fat12.c:330-334 | The walk ends at the last cluster of the chain. |
| FatDriver.Driver.Extend | fs/fat12.c:336-357 | The allocation loop of append, with the status that tells whether everything fitted. |
| FatDriver.Driver.DeleteFile | fs/fat12.c:363-378 | In place, the specified delete, with its status. |
| FatDriver.Driver.GetFreeSpace | fs/fat12.c:393-403 | Free space in sectors plus the length of all chains, lost ones included, is N - 2 if and only if none of the clusters scanned twice is free. |
| FatDriver.Driver.CreateDirectory | fs/fat12.c:476-526 | In place, the specified mkdir, with its status, under every name; the volume stays valid. MakeDirHolds says what the new sector holds. |
| FatDriver.Driver.PlaceDirectory | fs/fat12.c:490-523 | The part behind the checks: end mark, entry, and a cluster with the two dot entries. |
| ImageBuilder.BuiltEntry | scripts/make_fat12.py:68-121 | What add_file lays out, entry, consecutive cells and sectors, is what create followed by write of the driver would produce on a volume filled upwards. |
| ImageBuilder.AddedUpward | scripts/make_fat12.py:101-121 | Adding a file leaves a valid volume, filled upwards to the next cluster number. |
| ImageBuilder.BuiltUpward | scripts/make_fat12.py:68-121 | For any ASCII name and any content with room in the table, the volume, with each sector at its cluster, is valid afterwards if and only if the file is not empty and its stored name is new. |
| ImageBuilder.AddedFound | scripts/make_fat12.py:68-121 | The added name shows the file, and no other name is affected. |
| ImageBuilder.OtherName | scripts/make_fat12.py:157-162 | A name that is none of the added ones shows after all additions what it showed before. |
| ImageBuilder.AllFound | scripts/make_fat12.py:157-162 | For every sequence of non-empty files with distinct 8.3 names and room in the table, each file is found after all additions on the volume with each sector at its cluster; FilesPlaced and FoundInImage say when the image and the memory hold that. |
| HostBytes.ChunkStep | scripts/make_fat12.py:107-119 | Assigning a file chunk by chunk is assigning it at once, also where assignments begin behind the end of the byte array and append. |
| HostBytes.PlacedExact | scripts/make_fat12.py:116-119 | A file ends up at its first cluster if and only if the array reaches that far; otherwise its bytes are appended. |
| HostBytes.FilesPlaced | scripts/make_fat12.py:101-121 | Every file ends up at its first cluster if and only if each file but the last ends within the 2880 sectors or fills its last sector. |
| HostBytes.LongEnough | scripts/make_fat12.py:101-121 | The array reaches to the end of the last file under the same condition: once a file is appended in the wrong place, so are all later ones. |
| HostBytes.SecondFileLost | scripts/make_fat12.py:24 | With 1024 reserved sectors 1824 clusters lie within the image; a file one byte longer, then one of one byte: the second is not at its cluster. |
| FatImage.SameAddresses | fs/fat12.c:11-34 | The address from which the driver reads a FAT copy, a root sector or a cluster is where the loader put what the builder wrote for it, if and only if both use the same number of reserved sectors. |
| FatImage.SeenLaid | scripts/make_fat12.py:21-66 | With equal numbers, once tables and directory are loaded, the driver sees those of the builder, and each sector of a file that is loaded; what was not loaded is arbitrary. |
| FatImage.SectorSeen | boot/boot.asm:49 | The driver reads a sector of the image, whatever image and memory hold, if and only if it is one of those loaded. |
| FatImage.NothingFound | fs/fat12.c:69-98 | No name at all is found in a directory if and only if no entry before the first end mark is in use. |
| ImageAgreement.AddressesDiffer | fs/fat12.c:11-34 | All addresses of builder and driver agree if and only if their reserved counts do. |
| ImageAgreement.FoundInImage | scripts/make_fat12.py:157-162 | With equal counts the driver shows every file, byte for byte under its own name and whatever was not loaded, if and only if the last cluster of the last file has been loaded; the files are then contained in the image. |
| ImageAgreement.NoneLoaded | boot/boot.asm:49 | With the count of the builder, 1024, and as many sectors loaded, that is never so. |
| ImageAgreement.ShippedMisses | fs/fat12.c:11 | With the counts of the two programs, 200 and 1024, the driver searches 224 entries in the kernel area; it finds no name if and only if none of them before the first end mark is in use, as when sector 218 begins with a zero byte. |
| ImageBuilder.ImageShows | scripts/make_fat12.py:83-99 | And its first size bytes are the content of the host file. |
| ImageBuilder.Builder.Format | scripts/make_fat12.py:21-66 | A fresh image, of any size, is a valid volume in which no name is found. |
| ImageBuilder.Builder.AddFile | scripts/make_fat12.py:68-121 | In place, fails exactly when no directory slot is left, else writes entry, cells and bytes and advances the next cluster; the bytes are at their clusters if and only if the array reached to the first one; the volume stays valid if and only if the file is not empty and its stored name is new. |
| ImageBuilder.Builder.AddAll | scripts/make_fat12.py:157-162 | The loop over all files writes the specified bytes, and the planned volume if each file but the last is contained in the image or fills its last sector. |
| ImageBuilder.Builder.LayOut | scripts/make_fat12.py:101-121 | The loop over the clusters of one file writes the cells of one ascending chain and assigns the bytes; these are the sectors of the content at its clusters if the array reaches that far. |
| HeapBlocks.RoundedCovers | kernel/memory.c:28-29 | Rounding to 16 covers the request if and only if the 32-bit addition does not wrap; when it does, the rounded size is 0. |
| HeapBlocks.Ordered | kernel/memory.c:13-15 | Earlier blocks end before later ones begin, so no two payloads or headers overlap. |
| HeapBlocks.MallocTiles | kernel/memory.c:25-52 | Allocation keeps the blocks tiling the heap without gap or overlap. |
| HeapBlocks.FreedTiles | kernel/memory.c:54-65 | So does release, with or without merging. |
| HeapRuns.RunTiles | kernel/memory.c:19-65 | In every state reached by allocations and releases of held pointers the blocks tile the heap, and headers plus sizes sum to its size. |
| HeapBlocks.MallocFails | kernel/memory.c:31-51 | The null pointer is returned if and only if no free block is as large as the rounded request; nothing changes then. |
| HeapBlocks.MallocExact | kernel/memory.c:31-48 | The first free block that is large enough is handed out: whole if at most 28 bytes larger than the rounded size, otherwise cut to it, the rest staying free. |
| HeapBlocks.WasteBounded | kernel/memory.c:35-45 | Unless rounding wraps, a block handed out is at least as large as requested and less than 44 bytes larger. |
| HeapBlocks.MallocLive | kernel/memory.c:32-48 | Otherwise exactly one block, not in use before and large enough, is added to those in use. |
| HeapBlocks.FreedLive | kernel/memory.c:54-65 | Release takes exactly the released block out of use. |
| HeapBlocks.MallocPointers | kernel/memory.c:47 | The address handed out is not held by anyone, and becomes held. |
| HeapBlocks.FreedPointers | kernel/memory.c:54-65 | Release drops exactly this address from those held. |
| HeapBlocks.LifoExact | kernel/memory.c:25-65 | Releasing what was just allocated restores the exact block list if and only if the block was split or its next block is not free. |
| HeapBlocks.MallocNoPair | kernel/memory.c:35-48 | Allocation makes no two adjacent free blocks where there were none. |
| HeapBlocks.NestIdentity | kernel/memory.c:25-65 | On a heap without two adjacent free blocks every well-nested sequence of allocations and releases is the identity. |
| HeapBlocks.FreedNoPair | kernel/memory.c:58-64 | A release leaves no two adjacent free blocks, where there were none, if and only if the block before it is not free: release does not merge backwards. |
| HeapRuns.StepNoPair | kernel/memory.c:25-65 | The same for one call of either kind: allocation never makes a pair. |
| HeapRuns.RunNoPair | kernel/memory.c:25-65 | A run never shows a pair if and only if each of its releases finds a used block, or none, before the released one; well-nested use after such a run is the identity. |
| HeapRuns.PairsArise | kernel/memory.c:61-64 | A concrete run that does leave a pair, from which one allocation and its release do not restore the heap. |
| HeapRuns.AddressesWords | kernel/memory.c:28-47 | Every address handed out, after any run, is a multiple of 4. |
| HeapRuns.AlignedEveryFourth | kernel/memory.c:28-29 | With allocations only, the k-th address handed out is a multiple of 16 if and only if k is a multiple of 4; the first is not. |
| KernelHeap.Heap.Init | kernel/memory.c:19-23 | One free block fills the heap. |
| KernelHeap.Heap.Kmalloc | kernel/memory.c:25-52 | Walking and editing the headers in memory carries out the specified first-fit allocation. |
| KernelHeap.Heap.Take | kernel/memory.c:35-47 | The split writes one new header and relinks one; all others keep their place. |
| KernelHeap.Heap.Kfree | kernel/memory.c:54-65 | Carries out the specified release on the headers in memory. |
| PageBitmap.MarkedUsed | kernel/pmm.c:16-29 | Setting or clearing a bit changes the state of exactly one page. |
| PageBitmap.UsedDetermines | kernel/pmm.c:14 | The bitmap is determined by the states of its pages. |
| PageBitmap.FirstFree | kernel/pmm.c:32-46 | The least free page below the limit, or none. |
| PageBitmap.RangeRestored | kernel/pmm.c:113-137 | Releasing a run right after it was taken restores the bitmap word for word. |
| PageBitmap.GuardTake | kernel/pmm.c:79-84 | Pages taken while the first 4MB stay reserved lie above 4MB and were not given out. |
| PageBitmap.GuardDrop | kernel/pmm.c:104-111 | Taking pages back keeps the first 4MB reserved if and only if none of the pages lies there. |
| PageAllocator.Pmm.Init | kernel/pmm.c:66-89 | With at least 4MB exactly the first 1024 pages are taken, and the counter says so; with less, the counter exceeds the pages there are. |
| PageAllocator.Pmm.FindFree | kernel/pmm.c:32-46 | The scan that skips full words returns the page that the naive scan returns. |
| PageAllocator.Pmm.FindFreeContiguous | kernel/pmm.c:49-64 | Returns the leftmost run of free pages of this length, or fails if and only if there is none. |
| PageAllocator.Pmm.AllocBlock | kernel/pmm.c:91-102 | Takes the least free page, or reports 0 exactly when none is free; the counter stays exact and, while callers free only what they were given, no page below 4MB is handed out. |
| PageAllocator.Pmm.FreeBlock | kernel/pmm.c:104-111 | Frees exactly this page; a free page or an address beyond memory is ignored. |
| PageAllocator.Pmm.AllocBlocks | kernel/pmm.c:113-131 | Takes the leftmost free run; 0 if and only if the count is 0 or there is no such run. |
| PageAllocator.Pmm.FreeBlocks | kernel/pmm.c:133-137 | Frees exactly the pages of the run, which goes on at page 0 behind the end of the address space. |
| PageAllocator.Pmm.ReserveRegion | kernel/pmm.c:139-150 | Takes the pages of the region that exist, for every start and size; pages already taken are not counted twice. |
| PageAllocator.ReserveCovers | kernel/pmm.c:139-141 | The reserved pages cover the whole region if and only if rounding the size up does not wrap and the start offset and the size fit into the page count, which does not see the offset. |
| PageAllocator.PageCountExact | kernel/pmm.c:139-141 | The pages reserved are just enough for the size, or none when rounding it up wraps. |
| SlabSizes.ObjectSizeFits | kernel/slab.c:107-124 | An object holds the request if and only if the rounding does not wrap; the slots of every page are aligned if and only if the alignment is at most 4, or the size is not 0 and the rounding does not wrap. |
| SlabSizes.DefaultSize | kernel/slab.c:102-112 | Without an alignment given, objects are multiples of 4 bytes and less than 4 larger than requested. |
| SlabSizes.NoneFit | kernel/slab.c:14-19 | No object fits on a page exactly for sizes above 4072, as in the largest of the common caches. |
| SlabPages.ObjectsFill | kernel/slab.c:14-19 | A page holds as many objects as fit into its first 4072 bytes: one more would not. |
| SlabPages.SlotApart | kernel/slab.c:44-48 | Different slots do not overlap. |
| SlabPages.SlotInPage | kernel/slab.c:14-19 | Every slot lies in the page, short of its last 24 bytes. |
| SlabPages.FreshOk | kernel/slab.c:39-49 | A page whose slots link to one another in order is a slab with all slots free. |
| SlabPages.PopOk | kernel/slab.c:176-180 | Taking the first free slot leaves a well-formed slab, whatever is then written inside the object. |
| SlabPages.PushOk | kernel/slab.c:229-233 | Returning a slot that is not free puts it first on the free list, still without duplicates and of length objects - inuse. |
| SlabPages.OtherPage | kernel/slab.c:155-246 | Writes outside its page do not matter to a slab. |
| SlabLists.Moved | kernel/slab.c:182-192 | Moving a slab to the list that its counters call for keeps every slab on the right list once, and the sum of the objects in use follows. |
| SlabLists.ListsByUse | kernel/slab.c:182-192 | The full list holds the slabs without a free slot, the partial list those with some slots in use and some free, the empty list those without objects in use. |
| SlabLists.NoneLeft | kernel/slab.c:158-173 | The partial and the empty list are empty if and only if every page holds as many objects in use as fit. |
| SlabLists.WithoutFirst | kernel/slab.c:261-266 | The first unused slab leaves its list and no other. |
| SlabLists.TakenLive | kernel/slab.c:178-180 | Taking a slot adds exactly this object, not in use before, to those in use. |
| SlabLists.GivenLive | kernel/slab.c:229-233 | Returning a slot takes exactly this object out of use. |
| SlabLists.LiveApart | kernel/slab.c:155-198 | No two objects in use overlap, in whatever slabs they are. |
| SlabCount.ActiveCounts | kernel/slab.c:185-186 | The sum of the objects in use over the three lists, which num_active is kept equal to, is the number of different objects handed out and not taken back. |
| SlabLists.Undisturbed | kernel/slab.c:155-246 | Whatever is written inside one object or in newly acquired pages, the bytes of the other objects in use stay. |
| SlabLists.Owner | kernel/slab.c:207-227 | An object in use belongs to the slab in whose page it lies. |
| SlabLists.Searched | kernel/slab.c:211-229 | When neither the full nor the partial list has a page with the address, no page with objects in use has. |
| SlabCache.Cache.Create | kernel/slab.c:92-128 | An empty cache with the rounded object size; the invariant of a cache holds if and only if that size is at most 4072. |
| SlabCache.Cache.LinkSlots | kernel/slab.c:39-49 | The loop links every slot to the next and the last to null, inside the page only. |
| SlabCache.Cache.TakeMemory | kernel/slab.c:22-33 | Descriptor and page are both acquired, or neither is kept: held heap addresses and pages are then as before. |
| SlabCache.Cache.NewSlab | kernel/slab.c:22-55 | A new slab with all slots free, as many as fit, in a page that nobody held, or failure exactly when the heap or the page allocator has no room. |
| SlabCache.Cache.Pick | kernel/slab.c:158-173 | The first partly used slab, else the first unused one, else a new one; fails only when all three do. |
| SlabCache.Cache.Take | kernel/slab.c:175-197 | Hands out the first free slot, zeroed, moves the slab and updates the counters. |
| SlabCache.Cache.Alloc | kernel/slab.c:155-198 | Returns null if and only if every page holds as many objects in use as fit and no memory is left, and then changes nothing, in the held heap addresses and pages either; else an object that was not in use, zeroed, and no byte of any other object in use changes. The cache invariant holds again. |
| SlabCache.Cache.Search | kernel/slab.c:211-227 | Finds a slab on the list whose page holds the address, or reports that there is none. |
| SlabCache.Cache.Put | kernel/slab.c:229-245 | Returns the slot to its slab and moves the slab to the list that its counters call for. |
| SlabCache.Cache.Free | kernel/slab.c:200-246 | Takes exactly this object out of use, writing only its first word, and makes it the next object of the first slab on its list; an address in no page with objects in use is ignored. |
| SlabCache.Cache.Destroy | kernel/slab.c:57-71 | Gives back exactly the page and the descriptor of an unused slab. |
| SlabCache.Cache.Shrink | kernel/slab.c:248-270 | Gives back all unused slabs but the last on their list and returns their number; objects in use are not affected. |
| SlabNeighbours.NeighbourKept | kernel/slab.c:155-270 | A change that stays within the descriptors and pages of one cache, or takes unheld ones, leaves every other cache well-formed and still apart. |
| SlabCache.Cache.Beside | kernel/slab.c:155-270 | So allocating from, releasing to and shrinking one cache keeps the invariant of every other cache over the same heap and page allocator. |
| PageTables.FlagBits | include/vmm.h:7-9 | Bit 0 of an entry is the present flag, bit 1 allows writing, bit 2 user code. |
| PageTables.MappedLeaf | kernel/vmm.c:31-73 | Mapping changes the entry of exactly one virtual page. |
| PageTables.MappedWF | kernel/vmm.c:41-56 | Tables stay distinct pages, none of them the directory. |
| PageTables.MappedFlat | kernel/vmm.c:31-73 | With the present flag, mapping sets exactly one page of the flat map to the given frame and flags; without it, it removes that page. |
| PageTables.UnmappedLeaf | kernel/vmm.c:75-87 | Unmapping clears the entry of exactly one virtual page; the directory does not change. |
| PageTables.UnmappedFlat | kernel/vmm.c:75-87 | On the flat map it removes exactly one page. |
| PageTables.TranslateFlat | kernel/vmm.c:89-103 | Translation is the frame of the flat map plus the offset, or 0. |
| PageTables.TranslateWalks | kernel/vmm.c:89-103 | Translation follows the layout of the hardware: the top ten bits choose the directory entry, the next ten the table entry, the last twelve the byte. |
| PageTables.MappedUser | kernel/vmm.c:56-69 | A present user entry always has a user directory entry. |
| PageTables.MappedEffective | kernel/vmm.c:56-69 | Mapping changes the effective user access of exactly one page, to the flags given, although it widens a whole directory entry. |
| PageTables.MappedWrite | kernel/vmm.c:56 | Every present directory entry is writable, and mapping keeps it so; this is part of the invariant of Vmm. |
| PageTables.MappedWrites | kernel/vmm.c:56-69 | So write access, which needs the flag at both levels, is the flag of the page itself; mapping changes it for exactly one page, to the flags given. |
| PageTables.CloneAgrees | kernel/vmm.c:144-164 | A cloned directory translates every page as the original, and the original is not affected. |
| PageTables.CloneSees | kernel/vmm.c:144-164 | A later mapping in the original is seen through the clone if and only if its table existed when the clone was made, or the mapping writes the empty entry. |
| PageTables.CloneUser | kernel/vmm.c:58-69 | User code reaches a page mapped later through the clone if and only if the copied directory entry was present and a user entry; if it was present only, the invariant of user access does not hold in the clone. |
| PageTables.CloneWrites | kernel/vmm.c:144-164 | A page mapped later can be written through the clone if and only if its table existed and its flags allow it. |
| VirtualMemory.Vmm.MapPage | kernel/vmm.c:31-73 | In place, the specified mapping: in the existing table, or in a new one from the page allocator, or no change when there is no page. MappedEffective and MappedWrites say who may access the page then. |
| VirtualMemory.Vmm.UnmapPage | kernel/vmm.c:75-87 | In place, the specified unmapping. |
| VirtualMemory.Vmm.GetPhysicalAddress | kernel/vmm.c:89-103 | The two-level lookup computes the specified translation. |
| VirtualMemory.Vmm.CloneDirectory | kernel/vmm.c:144-164 | Returns a fresh page with a directory that translates like the original, or 0 exactly when there is no page. |
| VirtualMemory.Vmm.Init | kernel/vmm.c:116-142 | On a fresh page allocator exactly the first 8MB are mapped, page by page to themselves: translation is the identity there and 0 elsewhere. They can be written, not by user code. The directory and both tables lie inside them. |
| VirtualMemory.FilledTranslates | kernel/vmm.c:126-130 | Translation is then the identity below 8MB and 0 elsewhere. |
| VirtualMemory.NextAfter | kernel/vmm.c:120-130 | The pages for directory and tables come consecutively after the reserved ones. |
| IntrusiveList.InsertRing | include/list.h:80-88 | The four pointer writes insert one node into a ring; following prev still is the reverse of following next, and no other node changes. |
| IntrusiveList.RemoveRing | include/list.h:124-128 | The two pointer writes take one node out of a ring. |
| IntrusiveList.RingFrame | include/list.h:80-142 | A ring that shares no node with the change stays a ring. |
| IntrusiveList.RemoveInsert | include/list.h:80-128 | Inserting a removed node between its old neighbours restores memory exactly. |
| IntrusiveList.NextIs | include/list.h:281-297 | Stepping along next visits the members in order and ends at the head. |
| IntrusiveList.ListMemory.Add | include/list.h:98-101 | The new node comes first. |
| IntrusiveList.ListMemory.AddTail | include/list.h:111-114 | The new node comes last. |
| IntrusiveList.ListMemory.Del | include/list.h:137-142 | The node leaves the ring and its own links are null. |
| IntrusiveList.ListMemory.Move | include/list.h:162-166 | From one ring to the head of another; no node outside the two rings changes. |
| IntrusiveList.ListMemory.MoveTail | include/list.h:173-177 | From one ring to the tail of another; no node outside the two rings changes. |
| IntrusiveList.ListMemory.IsEmpty | include/list.h:183-186 | The pointer test holds exactly for a list without entries. |
| IntrusiveList.ListMemory.IsSingular | include/list.h:192-195 | The pointer test holds exactly for a list with one entry. |
| TimerSpec.PerformAllExtends | kernel/ktimer.c:29-41 | Callbacks that only add or re-arm inactive timers for later leave the queue as a prefix of the new one and add only timers that are not due. |
| TimerSpec.PassShape | kernel/ktimer.c:76-89 | From any position on, a pass fires exactly the due timers, in order, once; the others keep their order, followed by those added meanwhile. |
| TimerSpec.RunShape | kernel/ktimer.c:70-90 | The same for a whole pass over the timers present at its start. |
| TimerSpec.FiredOnce | kernel/ktimer.c:77-83 | The fired timers are pairwise different members of the list. |
| TimerSpec.DueOfExact | kernel/ktimer.c:77 | A timer fires in a pass exactly when it is active and its expiry is at most the current tick. |
| TimerSpec.AddedMeans | kernel/ktimer.c:29-41 | Adding puts an inactive timer with a function at the end of the list, and changes nothing otherwise. |
| TimerSpec.DeletedMeans | kernel/ktimer.c:43-53 | Deleting takes an active timer out, the others keeping their order, and changes nothing otherwise. |
| TimerSpec.ModifiedMeans | kernel/ktimer.c:55-68 | Re-arming sets the expiry and moves the timer, active before or not, to the end of the list. |
| KernelTimers.KTimers.Add | kernel/ktimer.c:29-41 | Appends an inactive timer with a function; otherwise changes nothing. The counter stays the length of the list. |
| KernelTimers.KTimers.Del | kernel/ktimer.c:43-53 | Removes an active timer and tells whether it was active. |
| KernelTimers.KTimers.Mod | kernel/ktimer.c:55-68 | Re-arms: out of the list if active, new expiry, back to the end. |
| KernelTimers.KTimers.FireAt | kernel/ktimer.c:78-88 | The timer is off the list and inactive before its callback runs. |
| TimerWalk.PoliteSafePass | kernel/ktimer.c:76-89 | Callbacks that only add or re-arm inactive timers for later never touch the timer saved as the next one. |
| TimerWalk.AllSafeKeeps | kernel/ktimer.c:76-89 | Callbacks that arm only for later than now, and delete or re-arm any timer but the saved next one, leave it on the list, make no timer due, and keep the order of the due timers from it on. |
| TimerWalk.FireKeeps | kernel/ktimer.c:77-88 | So after one timer with such a callback has fired, the walk goes on with the due timers that are still due, in their order. |
| TimerWalk.PassSame | kernel/ktimer.c:76-89 | The walk depends on the due timers ahead of it only. |
| TimerWalk.PassClears | kernel/ktimer.c:70-90 | A pass whose callbacks arm only for later and spare the saved next timer leaves no timer due; those fired are different timers due at its start, in list order. |
| TimerWalk.LostExact | kernel/ktimer.c:76-89 | For any callbacks: the walk comes to a null link within n steps if and only if one of these steps leaves the saved next timer off the list. |
| TimerWalk.WalkEnds | kernel/ktimer.c:76-89 | If callbacks arm only for later, the walk ends or comes to a null link. |
| TimerWalk.EndExact | kernel/ktimer.c:76-89 | It then comes back to the head if and only if no step leaves the saved next timer off the list. |
| TimerWalk.EndDue | kernel/ktimer.c:76-89 | A timer that is due when such a walk ends was missed by one of its steps: due after it, and no longer ahead. |
| TimerWalk.CleanExact | kernel/ktimer.c:76-89 | Where callbacks arm only for later and leave timers that the walk has passed due, the walk ends with none due if and only if no step drops the saved timer or misses a due one. |
| TimerWalk.SparingClean | kernel/ktimer.c:76-89 | One direction needs no assumption on timers that the walk has passed. |
| TimerWalk.SafeWalk | kernel/ktimer.c:76-89 | Callbacks that touch no saved timer and arm only for later make the walk the pass over the list. |
| TimerWalk.SafeEnds | kernel/ktimer.c:70-90 | So with such callbacks the walk over the whole list comes back to the head. |
| TimerWalk.DeletedNextDrops | kernel/ktimer.c:43-53 | On every list, a callback that deletes the saved next timer sends the walk through a null link. |
| TimerWalk.RearmedNextMisses | kernel/ktimer.c:55-68 | On every list, one that re-arms it for later misses exactly the other timers that are due. |
| TimerWalk.NeverEnds | kernel/ktimer.c:55-68 | Two timers that re-arm only themselves to expire at once touch no saved timer, and the walk never ends. |
| KernelTimers.KTimers.Run | kernel/ktimer.c:70-90 | For any callbacks under which the walk ends, following the pointers in memory gives its end state; with callbacks that touch no saved timer and arm only for later it is the pass over the timers present at the start, and none is due afterwards. |
| SchedSpec.TimeSlice | kernel/process.c:22-27 | Slices are 10 to 13 ticks for every priority, not the ranges that the comment in the source gives. |
| SchedMeaning.SliceExact | kernel/process.c:22-27 | They are 10, 11, 12 and 13 ticks for the four quarters of the priorities. |
| SchedSpec.DeliverBlocked | kernel/signal.c:26-85 | After delivery a process is blocked if and only if a stop signal was pending, or it was blocked and no continue signal with default handling was pending: the stop signal has the larger number and wins. |
| SchedSpec.CandidateIs | kernel/process.c:193-222 | The two searches find nothing if and only if no other process is runnable. |
| SchedSpec.ScheduleInv | kernel/process.c:176-260 | From any state in which at most the current process is running, schedule leaves exactly one running process, the current one. |
| SchedSpec.BlockTakesHold | kernel/process.c:341-355 | The process is blocked afterwards if and only if it was not the current one, or another process was runnable and signal delivery did not continue it. |
| SchedMeaning.CandidateNext | kernel/process.c:193-222 | The candidate is the first runnable process in cyclic order behind the current one, position by position. |
| SchedMeaning.TickCounts | kernel/process.c:176-191 | While two or more ticks are left, schedule takes one off, counts it as run time, and changes nothing else. |
| SchedMeaning.TickSwitches | kernel/process.c:184-257 | With the last tick used up, the next process runs with a new slice; the old one has no signal pending and is stopped exactly if SIGSTOP was, else ready, with a new slice; no other process changes. |
| SchedMeaning.TickAlone | kernel/process.c:224-228 | With nobody else runnable the current process goes on with a new slice, its signals still pending. |
| SchedMeaning.DeliverClears | kernel/signal.c:26-85 | Delivery leaves no signal pending. |
| SchedMeaning.YieldGives | kernel/process.c:262-267 | After yield the caller is still current if and only if nobody else is runnable; otherwise the next process is, whatever slice was left. |
| SchedMeaning.BlockGives | kernel/process.c:341-355 | Blocking the current process switches in the same way. |
| SchedMeaning.BlockMeans | kernel/process.c:341-355 | Blocking another process changes its state and nothing else. |
| SchedMeaning.UnblockMeans | kernel/process.c:357-367 | A blocked process with the pid becomes ready; nothing else changes. |
| SchedMeaning.PriorityMeans | kernel/process.c:328-339 | Priority and slice of the process are set; nothing else changes. |
| SchedMeaning.SendMeans | kernel/signal.c:10-24 | A signal from 1 to 31 becomes pending for the process, and no other number; nothing else changes. |
| SchedMeaning.HandlerMeans | kernel/signal.c:92-131 | The handler of this signal is set for the current process, unless it is 9 or 19; no other handler changes. |
| SchedMeaning.KillMeans | kernel/process.c:297-322 | The process leaves the queue, the others keep their order and structures. |
| SchedMeaning.UnknownPid | kernel/process.c:287-367 | Calls with a pid that no process has change nothing. |
| SchedMeaning.JoinedLast | kernel/process.c:108-111 | A new process comes last, and the next pid is one higher. |
| SchedMeaning.TasksStart | kernel/process.c:71-174 | The fields of a new kernel task and of a new user task. |
| SchedMeaning.ForkStarts | kernel/process.c:398-425 | A child has its parent's priority and handlers, a new slice, and no run time or pending signal. |
| SchedSpec.KillInv | kernel/process.c:297-322 | Killing another process keeps the invariant. |
| SchedSpec.JoinedInv | kernel/process.c:71-111 | A new process keeps it. |
| SchedSpec.StepInv | kernel/process.c:176-438 | Every call keeps it: exactly one process is running and it is the current one, pids are unique, slices are at most 13, the handlers of SIGKILL and SIGSTOP are the default. |
| SchedSpec.RunInv | kernel/process.c:176-438 | Over every interleaving of calls. |
| SchedWait.ScheduleCloser | kernel/process.c:193-241 | A call of schedule makes a runnable process current or brings it closer in distance or remaining slice. |
| SchedWait.KillCloser | kernel/process.c:302-317 | Removing another process never moves it away. |
| SchedWait.EventCloser | kernel/process.c:176-367 | No call without new arrivals or priority changes moves it away. |
| SchedWait.WaitPotential | kernel/process.c:176-267 | It becomes current within as many calls of schedule as the remaining slice plus 13 for each process in between. |
| SchedWait.BoundedWait | kernel/process.c:176-267 | A process that stays runnable at cyclic distance d becomes current within 13 * d calls of schedule, whatever the others do. |
| SchedWait.EveryoneGetsTurn | kernel/process.c:176-267 | So every process that stays runnable becomes current within 13 calls of schedule for each other process in the queue. |
| SchedAsleep.StepAsleep | kernel/process.c:176-438 | A blocked process that is not current stays so under every call but one that unblocks it, whatever signals are sent to it. |
| SchedAsleep.NeverContinued | kernel/signal.c:56-64 | Over every run without such a call: signals are delivered only to the process switched out, so a continue signal never wakes a blocked one. |
| Scheduler.Kernel.Init | kernel/process.c:41-68 | The kernel process alone, running and current, with its fields as the code sets them. |
| Scheduler.Kernel.SearchBehind | kernel/process.c:198-210 | The first runnable process behind the current one, by next pointers. |
| Scheduler.Kernel.SearchBefore | kernel/process.c:212-222 | The first runnable process before the current one. |
| Scheduler.Kernel.FindNext | kernel/process.c:193-228 | Both searches find the first runnable process in cyclic order, or none exactly when there is none. |
| Scheduler.Kernel.DoSignal | kernel/signal.c:26-85 | The loop delivers the pending signals in ascending order as specified. |
| Scheduler.Kernel.Schedule | kernel/process.c:176-260 | In place, the specified step; the invariant holds again. |
| Scheduler.Kernel.Yield | kernel/process.c:262-267 | In place, the specified yield; YieldGives says who runs then. |
| Scheduler.Kernel.FindByPid | kernel/process.c:287-295 | The process with this pid, or null exactly when there is none. |
| Scheduler.Kernel.Block | kernel/process.c:341-355 | In place, the specified block, with the reschedule of a current process. |
| Scheduler.Kernel.Unblock | kernel/process.c:357-367 | In place, the specified unblock. |
| Scheduler.Kernel.Kill | kernel/process.c:297-322 | Unlinks exactly the process with this pid and tells whether there was one; pid 0 is refused. |
| Scheduler.Kernel.SetPriority | kernel/process.c:328-339 | In place, the specified change of priority and slice. |
| Scheduler.Kernel.SendSignal | kernel/signal.c:10-24 | Succeeds if and only if the number is valid and the process exists; in place, the specified change. |
| Scheduler.Kernel.SysSignal | kernel/signal.c:92-106 | Sets a handler and returns the old one; SIGKILL and SIGSTOP cannot be changed. |
| Scheduler.Kernel.SysSigaction | kernel/signal.c:108-131 | Succeeds if and only if the signal is valid and is neither SIGKILL nor SIGSTOP; sets the handler only when one is given. |
| Scheduler.Kernel.Create | kernel/process.c:71-111 | A kernel task at the end of the queue, also when its stack could not be allocated; the invariant holds unless the pids start again at 0. |
| Scheduler.Kernel.CreateUser | kernel/process.c:115-174 | A user process at the end of the queue; state, slice and handlers come from the zeroed object. The invariant holds unless the pids start again at 0. |
| Scheduler.Kernel.Fork | kernel/process.c:384-438 | A copy of the current process with a new pid and stack, ready, without pending signals, even when the stack could not be allocated; -1, and no new process, exactly when its structure or the page directory cannot be allocated, the pid being used up in the second case. |
| Scheduler.SignedExact | kernel/process.c:435-436 | The pid is returned as a signed 32-bit number. |
| ProcessSlab.ZeroedProc | kernel/process.c:115-119 | A structure of zero bytes is a ready process of priority 0 with an empty slice, no pending signal and default handlers. |
| ProcessSlab.ProcExact | include/process.h:18-38 | Where the fields of a process lie in its structure, low bytes first. |
| ProcessSlab.ProcessesApart | include/process.h:18-38 | While the objects in use are the processes of the queue, no two processes share a byte. |
| ProcessSlab.Init | kernel/process.c:32-68 | Afterwards the kernel process is the only object in use of its cache. |
| ProcessSlab.StartUser | kernel/process.c:115-174 | The process is what its zeroed object says, with a new pid and a stack from the heap; no byte of any other process changes, and objects in use and processes stay the same set. |
| ProcessSlab.Start | kernel/process.c:71-111 | The same set is kept for kernel tasks. |
| ProcessSlab.Fork | kernel/process.c:384-438 | The object of a child whose directory cannot be copied goes back, so the sets stay equal on every exit; no process is added exactly when cache or directory fail, and a heap without room for the stack is not noticed. |
| ProcessSlab.Kill | kernel/process.c:297-322 | Exactly the structure of the removed process goes back to the cache. |

## Left out

FAT12:

- The driver and the builder work on the tables, entries and sectors of the image. Its bytes and addresses are modelled beside them (`FatImage`), for the finished image; what a driver with the wrong addresses would then write is not.
- Directory entries are records of name, attributes, first cluster and size. Dates and other fields the code only zeroes are dropped.
- An entry without a chain has first cluster 0: an entry with first cluster 1 is never produced by this code.
- fat12_change_directory, path strings, error strings and the screen output of the listing: lookups always search the root, so there is no tree to reason about.
- ImageBuilder.Builder.AddFile: requires an ASCII name, because the conversion of any other raises an exception, and room below the last cell of the table, because the builder does not check for it and would write into the second copy. The copying of boot sector and kernel is not modelled.

Heap, pages and slabs:

- KernelHeap.Heap.Kfree: pointers that are not held are excluded, because the code trusts its caller.
- Heap payload bytes: only headers are modelled. Objects of a slab cache are bytes of memory.
- The lists of a slab cache are sequences, with the effects that the list operations of the project are proved to have; the cache descriptor, its name, its flags and the list of all caches are dropped.
- SlabCache.Cache operations require an object size of at most 4072: above it the number of objects per page is 0 and the linking loop counts down from 0.
- SlabCache.Cache.Free: addresses inside a page with objects in use that are not objects in use are excluded, because the code does not check for them.
- SlabSizes.ObjectSizeFits: alignments that are not a power of two or exceed a page are excluded.
- kmem_cache_destroy, slab_init and the statistics of slab caches. Counters of slab caches do not wrap.
- PageAllocator.Pmm.Init: with less than 4MB nothing is promised beyond the counters, because the loop marks pages that do not exist.
- Statistics and printed messages of the page allocator.

Paging:

- Tables are arrays of words at physical addresses; translation of the kernel's own accesses, control registers and TLB invalidation are hardware effects.
- VirtualMemory.Vmm.MapPage: flags of 4096 and above, which would change the frame, are excluded.
- VirtualMemory.Vmm.Init: requires three pages above the reserved ones; with fewer the code goes on with an incomplete map.
- Page fault and protection fault handlers, which only print and halt.

Scheduler and timers:

- Each call is one atomic step, and the context switch is the change of the current process. Registers, contents of stacks, page directories of processes and names are dropped.
- Scheduler.Kernel.Kill: killing the current process is excluded, because the code then follows the links of the node it has just unlinked.
- Scheduler.Kernel.SendSignal: signals whose default action terminates are excluded for the same reason, also where a handler would prevent it. User handlers are not executed, as in the source.
- Scheduler.Kernel.Create: a null structure is excluded, because the code writes through it unchecked. What the code writes to a stack is not modelled.
- Scheduler.Kernel.CreateUser: the same; the structure read from the object is a parameter, which ProcessSlab.StartUser takes from the bytes that the cache returned. The pages and mappings of the process are dropped.
- Scheduler.Kernel.Fork: whether the page directory could be copied is a parameter. The contents of the stack are not modelled.
- ProcessSlab.Init, ProcessSlab.StartUser and ProcessSlab.Start require room for the structure, which the code does not check.
- process_wait, which only yields, process_get_stats and the listing of processes.
- KernelTimers.KTimers.Run: callbacks are lists of commands that start, re-arm or delete timers. A walk that comes to a null link or goes on for ever is excluded; `LostExact` and `EndExact` say when that is.
- Drivers, boot code, ELF loading, system call dispatch, sockets and the shell: hardware effects, or dispatch that would add only easy members.
