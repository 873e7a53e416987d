# AlderKernel: verified models of its stateful core

AlderKernel is a small 32-bit hobby kernel. This project models, in Dafny, the parts of it
that carry long-lived state, and proves what holds over whole runs of them:

- the **FAT16 volume** (`kernel/fs/fat16.c`): format, mount, first-fit cluster allocation,
  mirrored table updates, directory slots, chained file writes and reads, on an array of
  512-byte sectors;
- the **kernel heap over the page allocator** (`kernel/mm/heap.c`, `kernel/mm/pmm.c`): a
  first-fit, splitting and coalescing linked list that grows from a bitmap;
- the **line editor, history and scrolling console** (`kernel/shell/shell.c`, `kernel/print.c`);
- the **keyboard decoder and its ring buffer** (`kernel/drivers/ps2.c`), with the interrupt
  handler falling between any two steps of the consumer;
- the **ELF32 loader** (`kernel/elf/elf32.c`), following chapter 5 of the System V gABI.

## How it is put together

Each part has the same shape. State that the source updates in place is a class whose methods
keep the source's loops and branches (`Fat16.FileDriver`, `Pmm.PageAllocator`, `Heap.KernelHeap`,
`Console.Terminal`, `Shell.LineShell`, `Keyboard.Driver`, `Loader.Machine`). Every method is
proved to perform one transition of a state machine on plain values, and the properties of whole
runs are lemmas about that state machine.

| modules | subject |
|---|---|
| Words, Sectors, FatTable, Directory, Volume, Storage | bytes, sectors, packed table entries, directory slots, cluster chains, reading chains back |
| Catalog, Runs, FileSystem, Creation, FileCases, Confinement | operations, the invariant and the catalogue of files and directories, results about runs |
| Layout, BootFormat, Fat16, DriverRuns | regions of the partition on the disk, the boot sector, the driver, runs of its calls |
| Pages, Pmm | page sets and the memory map, the bitmap allocator |
| Blocks, HeapModel, HeapTheorems, HeapGrowth, Coalescing, HeapCases, Heap | block lists, the heap as a state machine, results about runs, runs that fall short, the headers in memory |
| Screen, Console, Editor, Typing, Shell | the screen as a window of an endless page, the line editor key by key and over sequences of keys, both as they run |
| Scancodes, KeyQueue, Keyboard | decoding, the interleaved queue, the driver |
| Elf, ElfFormat, Loader | what an image means, files laid out by the gABI, the loader |

## What turned out false, and exactly when it holds

- A created file is found again if and only if its padded name has no lower-case letter and
  does not start with 0xE5 (`FileSystem.CreateThenFind`); an empty file "a" on a fresh volume is
  not (`FileCases.LowerCaseLost`). The comment at
  `kernel/fs/fat16.c:450` calls the comparison case-insensitive; only the query is upper-cased.
- The slot of a created file is the next one to be taken if and only if its name starts with 0xE5
  (`FileCases.SlotReusedIff`). Such a file loses its slot to the next create and its clusters stay
  taken (`FileCases.FileLost`).
- A created file reads back exactly if and only if, when it is created, it needs at most one
  cluster or the free clusters below 0xFFF8 suffice for it (`FileSystem.FileRoundTrip`,
  `Storage.ReadableIff`). The allocator is bounded by the table and not by the number of
  clusters, so on a disk larger than the partition two creates from a fresh volume reach a file
  that is cut short (`Creation.TruncatedFile`); while the clusters of the partition suffice this
  never happens (`Confinement.RunStaysInPartition`, `DriverRuns.PerformInPartition`).
- A create or mkdir costs no cluster if and only if it has nothing to store or the table is full
  (`FileSystem.FreeOfCost`): one that fails for any other reason keeps the clusters it took, as
  a file of two clusters does on a disk with one (`FileCases.FailedCreateCosts`).
- A map entry frees exactly the pages it describes if and only if it is harmless
  (`Pages.FreesIffHarmless`): not usable, or without wrap, or above the managed memory with an
  empty page loop. A region at 2^44 and one whose end wraps are not (`Pages.HugeBaseAliases`,
  `Pages.WrappingEndLoses`).
- The comment at `kernel/mm/pmm.c:71-73` promises to reserve the low megabyte. The code reserves
  everything up to the kernel's end, which covers the low megabyte if and only if the kernel ends
  at 0xFF000 or later (`Pages.LowPagesReserved`); the linker script loads it at 1 MB.
- The block that `kmalloc` returns holds the requested bytes if and only if the request is at
  most 0xFFFFFFF8 (`HeapTheorems.EnoughIffNoWrap`); 0xFFFFFFFF yields a block of none
  (`HeapTheorems.WrappedRequest`).
- An allocation keeps the heap coalesced if and only if it does not grow in vain behind a free
  block that reaches up to the lowest free page (`Coalescing.MallocCoalesced`); with pages 1 to
  20 a request of 100000 bytes does just that (`HeapCases.VainGrowth`).
- `free_bytes` is the free payload if and only if there are as many blocks as growths
  (`Coalescing.CounterExact`), and a run of five calls takes it below zero
  (`HeapCases.CounterWrapsOnRun`).
- The characters accepted by the key buffer are those typed if and only if none met a full ring
  (`KeyQueue.PoppedIsTyped`); with nobody popping, the 256th press is lost (`KeyQueue.KeyLost`).
- The loader depends on nothing behind the image when program headers have at least 24 bytes,
  and for every smaller size some image shows that it does (`Elf.BehindDoesNotMatter`,
  `Elf.ShortEntriesReadBehind`).
- A failed mount leaves a ready volume ready if and only if the sector is unreadable or unsigned:
  otherwise the volume fields are overwritten while `mounted` stays set
  (`Fat16.FileDriver.Mount`).

## Model

| member | source | states |
|---|---|---|
| FatTable.EntriesAfterSet | kernel/fs/fat16.c:178-205 | reading any entry after writing one packed little-endian entry gives the new value there and the old value everywhere else |
| Directory.SlotRoundTrip | kernel/fs/fat16.c:224-253 | decoding an encoded 32-byte slot gives back padded name, attribute, cluster and size; the first byte is never 0, and 0xE5 exactly when the name starts so |
| Directory.TrimPad | kernel/fs/fat16.c:471-491 | a short name without trailing space survives padding and trimming |
| Directory.QueryFindsItself | kernel/fs/fat16.c:451-469 | a query matches the name it was made from if and only if that has no lower-case letter |
| Directory.QueryFindsSpelled | kernel/fs/fat16.c:451-469 | a query finds every name without lower-case letters that it spells in any mixture of capitals and lower case |
| Directory.ParseShows | kernel/fs/fat16.c:471-491 | list and find report the created name and extension, as far as they fit and without trailing spaces, with attribute, cluster and size |
| Directory.FirstVacant | kernel/fs/fat16.c:265-273 | a new entry goes to the first never-used or deleted slot |
| Directory.SlotsAfterSet | kernel/fs/fat16.c:265-271 | overwriting 32 bytes of a sector changes that slot of the directory and no other |
| Directory.LookupIsFirstMatch | kernel/fs/fat16.c:539-565 | the scan that stops at the first never-used slot still returns the first visible entry with the queried name, and fails only when there is none |
| Directory.ListingOfSlot | kernel/fs/fat16.c:503-517 | what one slot adds to a listing: the end if its first byte is 0, nothing if that is 0xE5 or the attribute is 0x0F, else its entry |
| Directory.InsertKeepsCompact | kernel/fs/fat16.c:255-302 | an insertion never leaves a used slot behind a never-used one |
| Directory.ListingAfterInsert | kernel/fs/fat16.c:493-521 | without deleted slots, an insertion appends to what a listing reports |
| Volume.Alloc | kernel/fs/fat16.c:209-220 | the lowest free entry from 2 up to the end of the table, or 0 exactly when there is none |
| Volume.WriteChainTakes | kernel/fs/fat16.c:352-399 | the write takes only free clusters, each once, and changes no other entry |
| Volume.WriteChainFrame | kernel/fs/fat16.c:352-399 | no sector outside the clusters taken changes |
| Volume.WriteChainLinks | kernel/fs/fat16.c:352-399 | when the write succeeds there are exactly as many clusters as the data needs, linked in order and closed by 0xFFFF |
| Volume.WriteChainHolds | kernel/fs/fat16.c:352-399 | the bytes stand along the chain in order |
| Storage.StoreSound | kernel/fs/fat16.c:401-422 | storing data yields a stored chain of exactly ceil(size / 32768) clusters, all free before |
| Storage.RestIsZero | kernel/fs/fat16.c:365-378 | behind the end of a stored file its last cluster holds zeros |
| Storage.FreeAfter | kernel/fs/fat16.c:209-220 | the number of free entries falls by exactly the clusters taken |
| Storage.AllocInRange | kernel/fs/fat16.c:209-220 | while a cluster below a bound is free, first fit picks one below it |
| Storage.StoreConfined | kernel/fs/fat16.c:352-422 | a store succeeds with all its clusters below a bound if and only if enough clusters below it are free |
| Storage.StoreBelowIff | kernel/fs/fat16.c:209-220 | a store, successful or not, takes only clusters below a bound if and only if enough of them are free or none is free elsewhere |
| Storage.ReadableIff | kernel/fs/fat16.c:209-220 | a stored chain has no link that looks like an end mark if and only if the file needs at most one cluster or the free clusters below the end marks sufficed |
| Storage.ReadBack | kernel/fs/fat16.c:583-636 | reading a stored chain delivers its bytes up to the first link that looks like an end mark |
| Storage.ReadBackExactly | kernel/fs/fat16.c:583-636 | it delivers exactly the stored bytes if and only if no link looks like an end mark |
| Catalog.Frame | kernel/fs/fat16.c:352-422 | changes confined to free clusters disturb no file and no directory |
| Runs.FormattedInv | kernel/fs/fat16.c:83-117 | a formatted volume satisfies the invariant and its root is empty |
| Runs.StepKeeps | kernel/fs/fat16.c:304-445 | every mkdir and create, successful or failed, keeps the whole invariant: chains stored and closed, objects apart, directories compact and in agreement with the catalogue |
| Runs.StepSlots | kernel/fs/fat16.c:304-445 | a directory changes only by gaining the new entry in its first vacant slot; all other directories stay as they are |
| Runs.NewDirSlots | kernel/fs/fat16.c:315-337 | a new directory holds "." and ".." and nothing else |
| Runs.RunUnique | kernel/fs/fat16.c:255-302 | a name used once in a directory stays unique over any run that does not create it again |
| Runs.RunStays | kernel/fs/fat16.c:255-302 | over any run an entry in use never moves or changes |
| Runs.RunExtends | kernel/fs/fat16.c:304-445 | over any run the catalogue's records stay: every file created keeps its chain and its stored bytes and every directory its cluster, also when its slot has been taken over since |
| FileSystem.CreateThenFind | kernel/fs/fat16.c:237-253 | right after a create the name is found if and only if it has no lower-case letter and does not start with 0xE5 |
| FileSystem.CreatedIsFound | kernel/fs/fat16.c:539-581 | a created object is found with its cluster and size, under every spelling of its name, after any later run |
| FileSystem.FileRoundTrip | kernel/fs/fat16.c:401-636 | from format, through any run before and any run after, a created file is found under every spelling of its name with its exact size, and reads back exactly its bytes if and only if at its creation it needed at most one cluster or the free clusters below the end marks sufficed |
| FileSystem.RoundTripWhenItFits | kernel/fs/fat16.c:401-636 | the same without the side condition while the free clusters of the partition suffice |
| Creation.SucceedsIffRoom | kernel/fs/fat16.c:304-445 | while enough clusters of the partition are free, an operation succeeds if and only if its directory has a vacant slot |
| Creation.FreshRoundTrip | kernel/fs/fat16.c:401-636 | on a fresh volume a file that fits is always created, and after any later run it is found and reads back exactly |
| Creation.TruncatedFile | kernel/fs/fat16.c:211-219 | from a fresh volume on a large disk, one create that takes every cluster below 0xFFF7 and one of two clusters: the second succeeds and reads back only its first cluster |
| FileCases.SlotReusedIff | kernel/fs/fat16.c:265-271 | the slot just written is the first vacant one again if and only if the name starts with 0xE5 |
| FileCases.FileLost | kernel/fs/fat16.c:265-271 | on a fresh volume a file named with 0xE5 first loses its slot to the next create: no slot in use names its cluster, which stays taken |
| FileCases.LowerCaseLost | kernel/fs/fat16.c:451-469 | on a fresh volume an empty file "a" is created and then not found as "a" |
| FileCases.FailedCreateCosts | kernel/fs/fat16.c:390-393 | on a disk with one cluster a file of two is refused and both table entries stay taken |
| FileSystem.CreatedIsStored | kernel/fs/fat16.c:352-422 | the bytes of a created file stay along its chain whatever happens later |
| FileSystem.EntryChain | kernel/fs/fat16.c:352-422 | every entry's chain starts at its cluster field, is acyclic, ends in 0xFFFF, and has ceil(size / 32768) clusters for a file |
| FileSystem.EntriesDisjoint | kernel/fs/fat16.c:209-220 | two entries never share a cluster |
| FileSystem.StepCost | kernel/fs/fat16.c:304-445 | every operation lowers the free entries by the clusters it took, and a successful one takes exactly what it needs |
| FileSystem.FreeOfCost | kernel/fs/fat16.c:304-445 | an operation leaves the number of free entries unchanged if and only if it has no data to store or the table is full |
| FileSystem.RunConfined | kernel/fs/fat16.c:209-220 | while the free clusters of the partition suffice, a whole run takes no cluster and writes no sector outside it, and no link reaches 0xFFF8 |
| FileSystem.RunListing | kernel/fs/fat16.c:493-537 | over any run without 0xE5 names, a listing is the earlier one followed by the created entries in creation order |
| FileSystem.EndMarkTruncates | kernel/fs/fat16.c:211-219 | when the lowest free cluster numbers are 0xFFF7 and 0xFFF8, a two-cluster file is stored but does not read back |
| Layout.MountRecoversFormat | kernel/fs/fat16.c:140-171 | mounting a formatted partition computes exactly the geometry format used |
| BootFormat.FieldsBack | kernel/fs/fat16.c:152-158 | the fields of any BPB laid out at byte 11 are read back by mount |
| BootFormat.MountComputes | kernel/fs/fat16.c:164-167 | for any BPB whose regions stay below sector 2^32 mount computes their starts: reserved sectors, tables, the least number of sectors that hold the root directory, data |
| BootFormat.FormatCarries | kernel/fs/fat16.c:43-66 | format writes a BPB with these fields, the partition's start as hidden sectors and its length as total sectors |
| BootFormat.FormatRest | kernel/fs/fat16.c:38-81 | the other bytes of the boot sector: jump, names, extended boot record, zeros, signature |
| BootFormat.AcceptsExactlyFat16 | kernel/fs/fat16.c:21-32 | format accepts a partition if and only if the volume it writes is FAT16 by the count of clusters of its BPB |
| BootFormat.ReservedEntries | kernel/fs/fat16.c:92-98 | the first table entry carries the media byte with all other bits set, the second is an end mark |
| Layout.ClustersInPartition | kernel/fs/fat16.c:19-32 | for every accepted size the clusters are disjoint, behind the root directory, inside the partition, with a table entry each, and below the end marks |
| Confinement.LimitFits | kernel/fs/fat16.c:21-32 | the clusters of an accepted partition are below the end marks, in the table and on the disk |
| Confinement.RunStaysInPartition | kernel/fs/fat16.c:304-445 | given a disk before and after with the same sectors up to the boot sector, whose volumes are the start and the end of a run: while the free clusters of the partition suffice, no sector outside it differs and every file stays readable to its end |
| Layout.EntryInView | kernel/fs/fat16.c:178-188 | where each table entry lies on the disk |
| Layout.ViewAfterPatch | kernel/fs/fat16.c:190-205 | writing an entry to both copies keeps them equal and changes that entry of the volume and nothing else |
| Layout.ViewAfterCluster | kernel/fs/fat16.c:359-380 | writing a cluster's sectors changes that cluster of the volume and nothing else |
| Layout.ViewAfterSlot | kernel/fs/fat16.c:255-302 | writing a slot changes that slot of that directory and nothing else |
| Layout.ViewAfterFormat | kernel/fs/fat16.c:83-117 | formatting leaves equal tables, two reserved entries, every cluster free and an empty root |
| Fat16.FileDriver.FatReadEntry | kernel/fs/fat16.c:178-188 | returns the entry of the mounted volume |
| Fat16.FileDriver.PatchCopiesOf | kernel/fs/fat16.c:190-205 | the copy loop patches the same entry of both tables |
| Fat16.FileDriver.FatWriteEntry | kernel/fs/fat16.c:190-205 | sets one entry, keeps the copies equal and leaves everything else |
| Fat16.FileDriver.FatAllocCluster | kernel/fs/fat16.c:209-220 | returns and marks the lowest free cluster, or 0 with nothing changed |
| Fat16.FileDriver.PlaceInSector | kernel/fs/fat16.c:265-271 | the slot loop overwrites the first vacant slot of the sector |
| Fat16.FileDriver.WriteEntryAt | kernel/fs/fat16.c:255-302 | puts the entry in the first vacant slot of the region; fails, changing nothing, exactly when there is none |
| Fat16.FileDriver.WriteEntry | kernel/fs/fat16.c:255-302 | the same as a transition of the mounted volume |
| Fat16.FileDriver.ListDirSectors | kernel/fs/fat16.c:493-521 | stores the first entries of the listing as far as there is room and returns the exact total |
| Fat16.FileDriver.List | kernel/fs/fat16.c:523-537 | for any mounted geometry and any cluster number, the listing of the sectors scanned, which on a standard volume are the directory's; -1 when nothing is mounted |
| Fat16.FileDriver.FindInSectors | kernel/fs/fat16.c:539-565 | the entry the scan of the region finds, if any |
| Fat16.FileDriver.Find | kernel/fs/fat16.c:567-581 | likewise the entry found in the sectors scanned; none when nothing is mounted |
| Fat16.FileDriver.WriteClusterData | kernel/fs/fat16.c:359-380 | writes the chunk padded with zeros over the cluster and nothing else |
| Fat16.FileDriver.WriteTurn | kernel/fs/fat16.c:359-396 | one turn of the write loop: a cluster filled and linked to the next or closed |
| Fat16.FileDriver.WriteFileData | kernel/fs/fat16.c:352-399 | the whole chain written, or the exact partial state when space runs out |
| Fat16.FileDriver.StoreFile | kernel/fs/fat16.c:407-417 | the data part of a create |
| Fat16.FileDriver.CreateFile | kernel/fs/fat16.c:401-445 | stores the data, then adds the entry in the first vacant slot of the sectors the named cluster stands for, wherever they lie; for a directory on the disk exactly one create transition of the volume, success or failure |
| Fat16.FileDriver.WriteDirCluster | kernel/fs/fat16.c:315-337 | writes the image of a new directory |
| Fat16.FileDriver.MkdirRoot | kernel/fs/fat16.c:304-350 | performs exactly one mkdir transition of the volume, success or failure |
| Fat16.FileDriver.ReadNext | kernel/fs/fat16.c:600-632 | one turn of the read loop, toward what the chain delivers |
| Fat16.FileDriver.CopySector | kernel/fs/fat16.c:612-617 | stores are dropped at and past the buffer's size |
| Fat16.FileDriver.ReadLoop | kernel/fs/fat16.c:592-633 | delivers what the chain holds; the remaining byte count decreases, and every cluster turned to is counted |
| Fat16.FileDriver.ReadFile | kernel/fs/fat16.c:583-636 | on any volume with sectors of at most 512 bytes, even with a cyclic table, visits at most ceil(size / bytes per cluster) clusters and touches no buffer index at or past min(size, buffer size); on a standard volume stores what the chain delivers |
| Fat16.FileDriver.WriteFreshTables | kernel/fs/fat16.c:87-106 | writes both fresh tables |
| Fat16.FileDriver.Format | kernel/fs/fat16.c:19-117 | succeeds exactly for accepted sizes on a disk long enough, writes only the head of the partition, and leaves the fresh volume |
| Fat16.FileDriver.Mount | kernel/fs/fat16.c:140-171 | which sectors mount, the geometry they give, the fields a failed mount overwrites, and exactly when it leaves a ready volume ready |
| Fat16.FileDriver.FormatAndMount | kernel/fs/fat16.c:19-171 | format then mount yields a ready volume in the state every run starts from |
| DriverRuns.Perform | kernel/fs/fat16.c:304-445 | one mkdir or create by the driver is one step of the state machine on the disk |
| DriverRuns.PerformAll | kernel/fs/fat16.c:304-445 | any run of driver calls is that run of the state machine on the disk, keeps the tables equal and the sectors up to the boot sector unchanged |
| DriverRuns.PerformInPartition | kernel/fs/fat16.c:304-445 | while the free clusters of the partition suffice, a run of driver calls changes no sector outside the partition and every file stays readable to its end |
| DriverRuns.FileSurvives | kernel/fs/fat16.c:19-636 | format, mount, any calls, create, any calls, find, read: the file is found with its exact size and the buffer holds its bytes as far as they fit, when the create succeeded and its links stayed below the end marks |
| Pages.Lowest | kernel/mm/pmm.c:81-91 | the lowest free page, or none exactly when no page is free |
| Pages.InitMeaning | kernel/mm/pmm.c:39-78 | for a map of harmless entries a page is free after initialisation exactly when it starts past the kernel's end and some usable entry describes it |
| Pages.KernelReserved | kernel/mm/pmm.c:74-78 | whatever the map says, no page that starts at or below the kernel's end is free |
| Pages.MapRoundTrip | kernel/mm/pmm.c:46-67 | the walk over a map finds exactly the entries laid out in it, whatever their sizes |
| Pages.FreesIffHarmless | kernel/mm/pmm.c:49-63 | an entry frees exactly the pages it describes if and only if it is not usable, does not wrap, or lies above the managed memory with an empty page loop |
| Pages.HugeBaseAliases | kernel/mm/pmm.c:55-58 | a region at 2^44 frees pages it does not contain |
| Pages.WrappingEndLoses | kernel/mm/pmm.c:50-58 | a region whose end wraps frees nothing of what it describes |
| Pages.LowPagesReserved | kernel/mm/pmm.c:71-78 | no map makes a page below 1 MB free if and only if the kernel ends at 0xFF000 or later |
| Pages.NeverLowOrKernel | kernel/mm/pmm.c:71-100 | on no run is a page below 1 MB, or one that starts at or below the kernel's end, free or held by a client |
| Pages.PagesConserved | kernel/mm/pmm.c:81-100 | over every run of clients that give back what they hold, free and held pages stay disjoint and their union never changes |
| Pmm.AgreesAfterWrite | kernel/mm/pmm.c:18-20 | one bit written moves one page between the sets |
| Pmm.PageAllocator.BitmapSet | kernel/mm/pmm.c:18 | the page, and only it, becomes taken |
| Pmm.PageAllocator.BitmapClear | kernel/mm/pmm.c:19 | the page, and only it, becomes free |
| Pmm.PageAllocator.BitmapTest | kernel/mm/pmm.c:20 | true exactly when the page is taken |
| Pmm.PageAllocator.ReservePage | kernel/mm/pmm.c:22-28 | removes a managed page from the free ones and keeps the counter equal to their number |
| Pmm.PageAllocator.AllocPage | kernel/mm/pmm.c:81-91 | hands out the lowest free page, 0 when there is none, and keeps the counter exact |
| Pmm.PageAllocator.FreePage | kernel/mm/pmm.c:93-100 | the managed page becomes free, even if it was free before, and the counter stays exact |
| Pmm.PageAllocator.FreeRegion | kernel/mm/pmm.c:49-64 | frees exactly the usable pages of one entry |
| Pmm.PageAllocator.FreeMap | kernel/mm/pmm.c:43-68 | the walk over the map frees exactly the usable pages of all entries |
| Pmm.PageAllocator.Init | kernel/mm/pmm.c:30-79 | the free set and the counter after initialisation |
| Blocks.CarveKeeps | kernel/mm/heap.c:118-132 | a split keeps the list ordered and 8-aligned |
| Blocks.CarveCovers | kernel/mm/heap.c:118-132 | a split covers exactly the same addresses |
| Blocks.CarveSums | kernel/mm/heap.c:118-134 | how a split changes the allocated and free sums |
| Blocks.MergeKeeps | kernel/mm/heap.c:151-160 | a merge keeps the list ordered and 8-aligned |
| Blocks.MergeCovers | kernel/mm/heap.c:151-160 | a merge covers exactly the same addresses |
| Blocks.MergeSums | kernel/mm/heap.c:151-160 | a merge adds one header to the free payload |
| HeapModel.AlignUp | kernel/mm/heap.c:20-23 | the next multiple of 8, and 0 for sizes above 0xFFFFFFF8 |
| HeapModel.NewBlockIsHighest | kernel/mm/heap.c:62-75 | a new region lies above every block, so appending keeps address order |
| HeapModel.ExtendKeeps | kernel/mm/heap.c:30-78 | growing keeps the whole invariant: order, tiling of the pages taken, upward growth, accounts |
| HeapModel.MallocKeeps | kernel/mm/heap.c:89-137 | so does every allocation, successful or not, for every size |
| HeapModel.FreeKeeps | kernel/mm/heap.c:163-177 | so does freeing null or a live pointer |
| HeapTheorems.InitialInv | kernel/mm/heap.c:80-87 | initialisation establishes the invariant |
| HeapTheorems.RunKeeps | kernel/mm/heap.c:89-177 | the invariant holds in every reachable state |
| HeapTheorems.MallocResult | kernel/mm/heap.c:89-137 | an allocation adds one 8-aligned block less than 32 bytes larger than the aligned request and leaves every other live block where and as it was |
| HeapTheorems.FreeResult | kernel/mm/heap.c:163-177 | freeing removes exactly the freed block from the live ones |
| HeapTheorems.LiveDisjoint | kernel/mm/heap.c:89-177 | live blocks never overlap |
| HeapTheorems.EnoughIffNoWrap | kernel/mm/heap.c:20-23 | the block at the returned pointer holds the request if and only if that is at most 0xFFFFFFF8 |
| HeapTheorems.WrappedRequest | kernel/mm/heap.c:89-137 | after initialisation a request of 0xFFFFFFFF bytes succeeds with a block of none |
| HeapGrowth.SucceedsIff | kernel/mm/heap.c:89-116 | an allocation succeeds if and only if it asks for something and either a free block is large enough or enough consecutive pages are free from the lowest one on |
| HeapGrowth.GrowsByLeast | kernel/mm/heap.c:105-112 | when nothing fits, a successful allocation takes the least number of pages that holds header and payload |
| HeapGrowth.GrowsToTheGap | kernel/mm/heap.c:41-52 | one that fails for want of pages has taken every consecutive page there was |
| HeapGrowth.FirstFit | kernel/mm/heap.c:97-103 | the block taken is free and not above any other that is large enough, and no page is taken |
| HeapGrowth.NoSlivers | kernel/mm/heap.c:118-130 | no allocation splits off a free block of fewer than 16 bytes |
| Coalescing.GrowsInVainIff | kernel/mm/heap.c:105-115 | the heap grows and the allocation still fails exactly when nothing fits and the consecutive pages from the lowest free one on are too few |
| Coalescing.MallocCoalesced | kernel/mm/heap.c:105-130 | an allocation keeps the list coalesced if and only if it does not grow in vain behind a free block that reaches up to the lowest free page |
| Coalescing.ReleaseCoalesced | kernel/mm/heap.c:142-177 | freeing merges with both touching free neighbours and leaves no other touching free pair |
| Coalescing.RunCoalesced | kernel/mm/heap.c:89-177 | the list stays coalesced over every run in which no allocation grows in vain behind a touching free block |
| Coalescing.AllFreeIsMaximal | kernel/mm/heap.c:142-177 | with nothing allocated the blocks are exactly the maximal runs of heap pages |
| Coalescing.FreeAll | kernel/mm/heap.c:163-177 | freeing every live allocation in any order leaves exactly those blocks |
| Coalescing.CounterExact | kernel/mm/heap.c:55-60 | `free_bytes` is the free payload if and only if blocks and growths are equal in number |
| Coalescing.CountersTogether | kernel/mm/heap.c:119-134 | modulo 2^32 both counters add up to 4096 per page minus 16 per growth |
| Coalescing.CounterWraps | kernel/mm/heap.c:132-134 | allocating the one block of two growths leaves `free_bytes` below zero |
| HeapCases.VainGrowth | kernel/mm/heap.c:105-115 | from initialisation on pages 1 to 20, a request of 100000 bytes fails and leaves two touching free blocks |
| HeapCases.CounterWrapsOnRun | kernel/mm/heap.c:89-177 | from initialisation on 32 pages, five calls end with `free_bytes` at 0xFFFFFFF0 |
| Heap.AppendLinked | kernel/mm/heap.c:54-75 | the header writes of a growth append the block to the doubly linked list |
| Heap.CarveLinked | kernel/mm/heap.c:119-132 | the header writes of a split give the list with the block split, links matching both ways |
| Heap.MergeLinked | kernel/mm/heap.c:148-160 | the header writes of a merge give the list with the two blocks joined |
| Heap.KernelHeap.NextPage | kernel/mm/heap.c:42-51 | a page that is not the expected next goes straight back |
| Heap.KernelHeap.TakePages | kernel/mm/heap.c:30-52 | takes the longest run of consecutive pages from the lowest free one, up to the number asked for |
| Heap.KernelHeap.AppendBlock | kernel/mm/heap.c:54-75 | the walk to the tail and the append |
| Heap.KernelHeap.HeapExtend | kernel/mm/heap.c:30-78 | performs the growth transition |
| Heap.KernelHeap.HeapInit | kernel/mm/heap.c:80-87 | reaches the initial state |
| Heap.KernelHeap.FindFit | kernel/mm/heap.c:97-103 | the first free block that is large enough |
| Heap.KernelHeap.CarveBlock | kernel/mm/heap.c:118-132 | splits if the leftover is worth a header, and marks the block used |
| Heap.KernelHeap.GrowFor | kernel/mm/heap.c:105-116 | grows by the pages needed, and fails when they are not enough |
| Heap.KernelHeap.Kmalloc | kernel/mm/heap.c:89-137 | performs exactly one allocation transition and returns its pointer |
| Heap.KernelHeap.TryMergeBlock | kernel/mm/heap.c:142-161 | merges with one neighbour exactly when it is free and touches |
| Heap.KernelHeap.Kfree | kernel/mm/heap.c:163-177 | performs exactly one free transition |
| Screen.PutShows | kernel/print.c:92-96 | a character drawn on the screen is one drawn on the endless page |
| Screen.NewlineShows | kernel/print.c:76-81 | so is a newline |
| Screen.BackShows | kernel/print.c:83-90 | so is a backspace, which stops at the top of the window |
| Screen.ScreenIsWindow | kernel/print.c:27-97 | after a clear, whatever is printed, the screen is the 25-row window of an endless page that starts at the number of scrolls so far, and the cursor is on the screen |
| Screen.ScreenIsTidy | kernel/print.c:27-97 | after a clear, whatever is printed, every cell from the cursor on is blank |
| Console.Terminal.Clear | kernel/main.c:14-24 | blank screen, cursor at the start |
| Console.Terminal.ScrollScreen | kernel/print.c:27-41 | every row moves up by one, the last is blank, the cursor moves with them |
| Console.Terminal.AdvanceCursor | kernel/print.c:44-49 | scrolls until the cursor is on the screen |
| Console.Terminal.PrintString | kernel/print.c:51-70 | the screen after a string |
| Console.Terminal.PrintCharacter | kernel/print.c:72-97 | the screen after one character, newline or backspace |
| Editor.PutOnScreen | kernel/print.c:92-96 | typing extends the line before the cursor, across a scroll too |
| Editor.RedrawOnScreen | kernel/shell/shell.c:56-71 | a redraw puts the new line before the cursor and in the buffer, and leaves nothing of a longer old line behind the cursor |
| Editor.UpEffect | kernel/shell/shell.c:100-113 | an Up shows the next older line if there is one and stashes the live line first |
| Editor.DownEffect | kernel/shell/shell.c:115-125 | a Down shows the next newer line, at last the stashed one |
| Editor.PressKeeps | kernel/shell/shell.c:90-151 | every key keeps the agreement of line and screen, the length bound and the browse index in its range |
| Editor.PressAll | kernel/shell/shell.c:90-151 | and so does every sequence of keys |
| Editor.PressAllTidy | kernel/shell/shell.c:90-151 | after every sequence of keys the line stands before the cursor and every cell behind it is blank, as long as commands leave those blank |
| Editor.AfterUps | kernel/shell/shell.c:100-113 | the line after any number of Ups is the one that many entries back, at most the oldest kept |
| Editor.AfterDowns | kernel/shell/shell.c:115-125 | enough Downs always return to the stashed line |
| Editor.BrowsingIsReversible | kernel/shell/shell.c:100-136 | from the live line any n Ups followed by n Downs restore it, for every history |
| Typing.TypingAppends | kernel/shell/shell.c:146-150 | typing a text appends it to the line as far as 127 characters, and leaves log, browse index and stashed line |
| Typing.ErasingShortens | kernel/shell/shell.c:138-143 | n backspaces drop the last n characters |
| Typing.EnterThenUps | kernel/shell/shell.c:127-136 | after Enter the n-th Up shows the n-th most recent line, the one just entered included |
| Typing.EnterRecalls | kernel/shell/shell.c:127-136 | the line just entered is the first that comes back |
| Typing.EmptyEnterForgets | kernel/shell/shell.c:27-31 | an Enter on an empty line changes nothing of what any number of Ups show |
| Typing.EnterStartsAfresh | kernel/shell/shell.c:127-136 | what is typed after Enter is all there is of the line, and stands right behind the prompt |
| Typing.PromptStaysAll | kernel/shell/shell.c:56-151 | over any keys but Enter the line starts where it did, and the prompt and all before it only scroll |
| Typing.KeysArrive | kernel/shell/shell.c:90-150 | the arrow, Enter, backspace and letter keys reach the editor as the keys they stand for |
| Shell.RingAfterAdd | kernel/shell/shell.c:27-51 | after storing a line the ring again holds the last 16 lines, newest first |
| Shell.LineShell.HistoryAdd | kernel/shell/shell.c:27-39 | stores every line but the empty one |
| Shell.LineShell.HistoryGet | kernel/shell/shell.c:43-51 | the k-th most recent line, if the ring still has it |
| Shell.LineShell.RedrawLine | kernel/shell/shell.c:56-71 | performs the redraw |
| Shell.LineShell.StashLine | kernel/shell/shell.c:101-105 | the live line is kept, nothing else changes |
| Shell.LineShell.OnUp | kernel/shell/shell.c:100-113 | performs the transition of Up |
| Shell.LineShell.OnDown | kernel/shell/shell.c:115-125 | performs the transition of Down |
| Shell.LineShell.OnEnter | kernel/shell/shell.c:127-136 | performs the transition of Enter around an arbitrary command |
| Shell.LineShell.OnText | kernel/shell/shell.c:138-150 | performs the transition of a character or a backspace |
| Shell.LineShell.OnKey | kernel/shell/shell.c:90-151 | one turn of the loop: the popped character performs the transition of the key it stands for, 0 none |
| Scancodes.FlagsMeaning | kernel/drivers/ps2.c:107-143 | the prefix flag is about the last byte, the shift flag about the latest unprefixed shift event, caps lock about the parity of its presses |
| Scancodes.LetterCase | kernel/drivers/ps2.c:150-158 | a letter key gives a capital exactly when shift and caps lock disagree |
| Scancodes.OtherKeys | kernel/drivers/ps2.c:159-162 | a key that is no letter and no modifier gives its plain or shifted glyph by shift alone |
| Scancodes.SilentKeys | kernel/drivers/ps2.c:117-148 | behind a prefix only presses of the two arrows type anything; releases, shifts and caps lock never do |
| Scancodes.DigitRow | kernel/drivers/ps2.c:11-38 | the glyphs of the digit row |
| Scancodes.TopRow | kernel/drivers/ps2.c:11-38 | the glyphs of the row below it |
| Scancodes.HomeRow | kernel/drivers/ps2.c:11-38 | the glyphs of the home row |
| Scancodes.BottomRow | kernel/drivers/ps2.c:11-38 | the glyphs of the bottom row |
| KeyQueue.PushKeeps | kernel/drivers/ps2.c:65-77 | a push stores behind the last unread character, or drops exactly when 255 wait |
| KeyQueue.AdvanceKeeps | kernel/drivers/ps2.c:80-91 | every single step of a pop keeps the invariant, in either order of the two index reads |
| KeyQueue.StepKeeps | kernel/drivers/ps2.c:65-167 | so does every event, an interrupt falling at any point |
| KeyQueue.FifoForEveryInterleaving | kernel/drivers/ps2.c:65-91 | for every interleaving the popped characters are a prefix of the accepted ones, at most 255 wait, and all waiting ones are intact in their slots |
| KeyQueue.ReturnedIsOldestOrEmpty | kernel/drivers/ps2.c:80-91 | a returned 0 means the buffer was empty when the head was read; any other result is the oldest unread character |
| KeyQueue.InterruptSpares | kernel/drivers/ps2.c:65-77 | an interrupt changes no unread slot and no consumer variable |
| KeyQueue.PoppedIsTyped | kernel/drivers/ps2.c:65-167 | the accepted characters are exactly those typed if and only if none met a full ring; then the pops return them in order, otherwise something is missing for good |
| KeyQueue.KeyLost | kernel/drivers/ps2.c:65-77 | after 256 or more presses without a pop the accepted characters are fewer than the typed ones |
| Keyboard.PopAlone | kernel/drivers/ps2.c:80-91 | the single steps, uninterrupted, add up to one removal from the front |
| Keyboard.Driver.KeyBufferPush | kernel/drivers/ps2.c:65-77 | performs the push |
| Keyboard.Driver.KeyBufferPop | kernel/drivers/ps2.c:80-91 | returns the oldest unread character, 0 when there is none |
| Keyboard.Driver.Translate | kernel/drivers/ps2.c:150-162 | the character of an unprefixed key press |
| Keyboard.Driver.KeyboardHandler | kernel/drivers/ps2.c:105-167 | performs the interrupt's transition |
| Elf.EntryInPlace | kernel/elf/elf32.c:77-83 | every program header slot lies in the image when the table check passes |
| Elf.SegmentMeaning | kernel/elf/elf32.c:98-109 | one segment: file data, then zeros, everything else unchanged, around the address space too |
| Elf.SucceedsIffAccepts | kernel/elf/elf32.c:39-114 | the load succeeds exactly when the header and every loadable program header pass their checks, and only then sets the entry point |
| Elf.LastSegmentWins | kernel/elf/elf32.c:82-110 | for overlapping segments and failed loads too, each address holds what the last processed segment covering it puts there, or is unchanged |
| Elf.DisjointSegmentLoaded | kernel/elf/elf32.c:98-110 | wherever no other segment overlaps it, a segment stands in memory as its file bytes followed by zeros |
| Elf.BehindDoesNotMatter | kernel/elf/elf32.c:76-92 | with program headers of at least 24 bytes the result depends on the image alone |
| Elf.ShortEntriesReadBehind | kernel/elf/elf32.c:76-92 | for every smaller size some image loads differently depending on the bytes behind it |
| ElfFormat.ProgramRoundTrip | kernel/elf/elf32.c:22-31 | a program header laid out by the gABI is read back |
| ElfFormat.FileRoundTrip | kernel/elf/elf32.c:5-20 | so are the fields of a file header that the loader uses |
| ElfFormat.LoadsIff | kernel/elf/elf32.c:39-114 | a file laid out so is loaded if and only if its header is good and every loadable segment lies in it and is no longer there than in memory; then the entry point is the header's |
| ElfFormat.SegmentLoaded | kernel/elf/elf32.c:98-110 | after a successful load, wherever no other segment overlaps it, the k-th byte of a segment is byte p_offset + k of the file, or zero behind the file's part |
| Loader.Machine.StoreSegment | kernel/elf/elf32.c:98-109 | the copy and zero loops store the segment |
| Loader.Machine.HeaderAccepted | kernel/elf/elf32.c:45-80 | exactly the header checks |
| Loader.Machine.Load32 | kernel/elf/elf32.c:39-114 | the whole load, refusing null pointers |

## Left out

- Fat16.FileDriver.FatReadEntry: a failed sector read inside the table helpers is ignored by the source and yields arbitrary stack bytes; the model keeps that, and promises a value only when the read is in range.
- Fat16.FileDriver.ReadFile: expects sectors of 1 to 512 bytes and a non-zero cluster size while mounted. With larger sectors the source may index past its 512-byte sector buffer, with a zero sector size it divides by zero, and with a zero cluster size its loop need not end.
- Fat16.FileDriver.CreateFile: while mounted, expects the geometry that `fat16_format` writes; volumes formatted elsewhere can be mounted, but writing to them is not modelled. Both create functions are one method over the directory they write to, and both entry writers one scan; the two sources differ only in the sectors scanned.
- Fat16.FileDriver.MkdirRoot: likewise expects the geometry that `fat16_format` writes while mounted.
- Fat16.FileDriver.PatchCopiesOf: likewise expects the geometry that `fat16_format` writes.
- Fat16.FileDriver.FatWriteEntry: likewise expects the geometry that `fat16_format` writes.
- Fat16.FileDriver.FatAllocCluster: likewise expects the geometry that `fat16_format` writes.
- Fat16.FileDriver.WriteEntry: likewise expects the geometry that `fat16_format` writes.
- Fat16.FileDriver.WriteClusterData: likewise expects the geometry that `fat16_format` writes.
- Fat16.FileDriver.WriteTurn: likewise expects the geometry that `fat16_format` writes.
- Fat16.FileDriver.WriteFileData: likewise expects the geometry that `fat16_format` writes.
- Fat16.FileDriver.StoreFile: likewise expects the geometry that `fat16_format` writes.
- Fat16.FileDriver.WriteDirCluster: likewise expects the geometry that `fat16_format` writes.
- Fat16.FileDriver.Format: disks are at most 2^28 sectors, the range of the drive's 28-bit addressing. A transfer past the end of the disk is refused here; the ATA driver masks the sector number to 28 bits instead, so clusters past a partition near the end of a disk of that size would alias low sectors.
- Transient I/O errors: an in-range sector transfer succeeds, an out-of-range one is refused and changes nothing; port I/O and polling are not part of this model.
- Pmm.PageAllocator.Init: a bitmap byte is modelled as its eight bits, the boot information as the bytes of the memory map, well-formed, or none.
- Heap.KernelHeap.Kfree: pointers that are neither null nor live are outside the model, as the source does not detect them. Header fields are unbounded numbers; they never exceed the 128 MB of managed memory.
- Screen.ScreenIsWindow: characters and the cursor index only; colours and the hardware cursor are left out.
- Shell.LineShell.OnEnter: the command is an arbitrary step that leaves any screen behind and may scribble over the line buffer; the dispatch of commands and the working-directory prompt text are parameters.
- Shell.LineShell.HistoryGet: history rows and the saved line are the C strings they hold, without the bytes behind the terminator.
- Keyboard.Driver.KeyboardHandler: the scancode is a parameter in place of the port read; the draining loop of the initialisation is not part of this model.
- Loader.Machine.Load32: the image is not stored in the memory that the load changes, so destinations that overlap the image are not modelled; jumping to the entry point is not either.
- `print_uint` and `print_hex`, the virtual file system, the partition table code, paging tables, the interpreter and the system calls: straight-line formatting, dispatch or constant tables.
