# KeyholeOS in Dafny

KeyholeOS is a small x86-64 kernel. This project models its stateful core and proves what that core is for:

* **Memory.** The bitmap frame allocator and its Multiboot2 set-up (`Pmm.dfy`, `Multiboot.dfy`) with the meaning of
  the memory map (`MemoryMap.dfy`), the 4-level page tables (`PageTable.dfy`, `Vmm.dfy`, `PageRuns.dfy`) and the
  numbers in them (`PageWords.dfy`), the tables the boot code builds (`BootTables.dfy`), the
  kernel heap that draws frames from the first and maps them through the second (`Blocks.dfy`, `HeapPages.dfy`,
  `HeapModel.dfy`, `KernelHeap.dfy`), which frames the heap and its tables get (`HeapFrames.dfy`), and the way from
  the boot loader's memory map to a heap in use (`KernelStart.dfy`). `Bits.dfy` is the arithmetic of C's unsigned
  integers on natural numbers.
* **Files.** The in-memory file system: linked nodes with parent, first-child and next-sibling pointers
  (`FileNode.dfy`, `Vfs.dfy`), proved against operations on trees (`Paths.dfy`, `FileTree.dfy`, `TreeOps.dfy`,
  `FileOps.dfy`), with the meaning of every path (`PathLaws.dfy`) and of every call (`FileEffects.dfy`), and with
  theorems about path resolution (`Resolution.dfy`), recursive copy (`Copying.dfy`), reads during
  removal (`Liveness.dfy`), whole runs (`FileRuns.dfy`), protection (`Confinement.dfy`) and the initial state
  (`FileInit.dfy`).
* **Screen, tokeniser, strings.** The scrolling 80x25 screen (`Console.dfy`), the tokeniser at the head of `execute`
  (`Tokenizer.dfy`), and the string functions on fixed buffers (`CString.dfy`).

`MemoryExamples.dfy` and `FileExamples.dfy` hold states in which a property fails that the code does not always have.

Each component has the same shape. A class or method has the program's fields, loops and branches, and its contract
says that it computes a pure function of the old state; lemmas then prove what that function keeps and means, without
the function's own terms: paths are characterised by other paths, entries by numbers, calls by the nodes, blocks and
cells before and after.

What is proved, in short:

* `total_pages` is that of the highest end of a type-1 region of the memory map, and exactly the pages of such regions
  from page 768 on are free after `pmm_setup`.
* Through every run of `vmm_map` and `vmm_unmap` the tables stay a tree of unshared frames if and only if there is a
  free frame for every missing table on the way; then the run behaves as a flat map from pages to entries, and
  `vmm_get_phys` reads that map. In numbers: `vmm_map` writes one entry at each level, links a new table by its address
  plus 3, adds bit 2 to them exactly if the flags have it, and writes address plus flags at the last level.
* `heap_init` gives the heap a frame of its own if and only if there is one for its page and one for each missing table.
* From the boot loader's memory map on, the first frame drawn is one of the bitmap's own, at 0x300000, if and only if
  the map declares a page of the bitmap available. When it declares the first one, the heap's first header overwrites
  the bitmap, page 0 becomes free, and the first request for another page returns NULL although frames are free. When
  it declares none, no frame of the heap or of a table is the bitmap's or the kernel's. The kernel reaches all its page
  tables, which it writes through their physical addresses, if and only if the last of them is in the identity-mapped 8
  MiB: for c tables of the heap, if and only if there were at least 513 c - 511 free pages in these 8 MiB. That is
  never so for a heap of more than 6 MiB.
* Over every run of `kmalloc` and `kfree` the heap's pages are mapped to distinct frames, none of which is a page
  table, if and only if no request on the way ran out of frames in the middle of making a table; live allocations are
  disjoint and touch no header; the blocks tile the heap if and only if at every growing request the free frames
  suffice for none of its pages or for all of them. All of these conditions, and whether `kmalloc` returns NULL, can be
  decided before the call. The block list stays in order for every size but the 4096 whose wrapped sum asks for no
  page. A `kfree` at once undoes a `kmalloc` that found a block, if and only if that block had more than 40 bytes to
  spare or no free block is behind it.
* What every path leads to is fixed by laws for each kind of part, `..`, `.` and the tilde among them; what `mv`, `rm`,
  `rmdir`, `rm_r`, `cp`, `mkdir`, `touch` and `write` leave behind is stated for every node: `mv` into a directory
  keeps the name, and `rm_r` moves the working directory to the root exactly if it was in the subtree.
* After every call of a run of the file operations the nodes form a tree if and only if no `mv` of the run moves a node
  into its own subtree; then the allocated memory is exactly that of the tree if and only if no `rm_r` took out
  `/home/root` without sudo or a file with data. `rm_recursive` reads and frees only what is still allocated.
* Without sudo, one call leaves every node outside `/home/root` as it is if and only if it does not remove `/home/root`,
  move it into itself or rename it while a sibling stands before it; it keeps what is protected if and only if it
  neither removes `/home/root` nor gives it another name. A run of calls that do none of this, `cp_r` included, changes
  nothing outside.
* `cp_r` is a run of `mkdir` and `cp` calls, and makes a copy with the same types, texts, names, and order, although it
  resolves every path again in the tree that it extends. When its destination path leads to its own source, a directory
  of files, it ends if and only if the source is empty; when it leads to a file, nothing is copied below the new
  directory. `resolve_path` undoes `vfs_pwd` if and only if no earlier sibling has the name of a directory on the way;
  creation is conservative for resolution if and only if it does not make the first `/home/root`, which can be decided
  before the call.
* The screen shows the last 25 lines of the text printed, laid out as paragraphs in lines of 80.
* The tokens are exactly the maximal runs without a space, and the command that sudo puts together parses to the same
  tokens.

Where the code does less than one would expect, the model follows the code. `make_table` does not check `pmm_alloc`
and clears frame 0; a growth that fails partway keeps its pages and adds no block; the size sum of `kmalloc` wraps;
`vfs_mv` accepts a destination inside the source; `vfs_rm_r` of a file does not free its data; without sudo, `vfs_rm_r`
of `/home/root` unlinks it and frees nothing; `print_clear_char` at column 0 wraps the column.

`dafny verify dfyconfig.toml` checks the whole project.

## Model

| member | source | states |
|---|---|---|
| PhysicalMemory.Pmm.Init | src/impl/x86_64/pmm.c:9-17 | after initialisation every page is used, and `totalPages` and `usedPages` are the pages of the memory size |
| PhysicalMemory.Pmm.FreeRegion | src/impl/x86_64/pmm.c:62-71 | exactly the pages of the region become free; the counter drifts from the number of set bits by the pages that were free already; every write is inside the bitmap |
| PhysicalMemory.Pmm.ReserveRegion | src/impl/x86_64/pmm.c:72-81 | exactly the pages of the region become used; the counter drifts by the pages that were used already |
| PhysicalMemory.Pmm.Alloc | src/impl/x86_64/pmm.c:82-95 | returns the lowest free page below 8*(total_pages/8) and marks only it, or NULL with nothing changed if there is none; the drift stays |
| PhysicalMemory.Pmm.FreePage | src/impl/x86_64/pmm.c:96-100 | frees only its page, and keeps the drift exactly if the page was used |
| PhysicalMemory.PageBounds | src/impl/x86_64/pmm.c:63-74 | the page of an address begins at or below it and ends behind it; the page count of a reservation is the least that covers it |
| PageCount.LowestFreeIs | src/impl/x86_64/pmm.c:82-95 | the page that allocation takes is free and every page below it is used |
| PageCount.LowestFreeUnique | src/impl/x86_64/pmm.c:82-95 | no other page has that property |
| PageCount.TakeLowest | src/impl/x86_64/pmm.c:82-95 | there is a page to take if and only if not all are used, and taking it raises the number of used pages by one |
| ByteBitmap.UpdateByte | src/impl/x86_64/pmm.c:68-68 | a bit operation on one byte changes the set of used pages by exactly its page |
| Multiboot.TotalMemory | src/impl/x86_64/pmm.c:19-40 | the first walk ends with the value `Top`, which `MemoryMap.TopIs` shows to be the highest end of a type-1 entry |
| Multiboot.FreeTags | src/impl/x86_64/pmm.c:42-58 | the second walk frees exactly the pages that type-1 entries cover |
| Multiboot.Setup | src/impl/x86_64/pmm.c:18-61 | after set-up a page is free if and only if it is scanned, is at least 768 and is covered by a type-1 entry; every bit write is below total_pages |
| MemoryMap.TopIs | src/impl/x86_64/pmm.c:22-40 | with entries given by tag and index: every type-1 region ends at or below total_memory, and if that is not 0, one ends there; no other type counts |
| MemoryMap.CoversIs | src/impl/x86_64/pmm.c:43-58 | a page is freed if and only if it is among the len/4096 pages from page addr/4096 on, for some type-1 entry of some memory-map tag |
| MemoryMap.EntriesInside | src/impl/x86_64/pmm.c:24-37 | no entry of a memory-map tag is left out: all lie inside the boot information |
| MemoryMap.ReadFour | src/impl/x86_64/pmm.c:24-24 | a 32-bit field is its four bytes, the least significant first |
| MemoryMap.ReadEight | src/impl/x86_64/pmm.c:31-31 | a 64-bit field is two 32-bit fields, the low one first |
| MemoryMap.AlignIs | src/impl/x86_64/pmm.c:39-39 | the next tag is at the least multiple of 8 bytes that holds this one |
| Bits.MaskedAddress | src/impl/x86_64/vmm.c:27-27 | the mask of an entry gives the address of its frame |
| VirtualMemory.Vmm.MakeTable | src/impl/x86_64/vmm.c:8-12 | draws the lowest free frame, or frame 0 if there is none, clears its 512 words and returns a present, writable entry |
| VirtualMemory.Vmm.Indices | src/impl/x86_64/vmm.c:14-17 | the shifts and masks give the index of the address at each level |
| VirtualMemory.Vmm.TableAt | src/impl/x86_64/vmm.c:27-27 | the mask of an entry gives the frame it links to |
| VirtualMemory.Vmm.Descend | src/impl/x86_64/vmm.c:21-27 | one level of the walk: makes the table if it is missing, grants user access if asked, and follows the entry |
| VirtualMemory.Vmm.Map | src/impl/x86_64/vmm.c:13-48 | the new memory and frames are those of the specification `MapPage` |
| VirtualMemory.Vmm.Unmap | src/impl/x86_64/vmm.c:50-69 | the new memory is that of the specification `UnmapPage` |
| VirtualMemory.Vmm.GetPhys | src/impl/x86_64/vmm.c:71-90 | the result is that of the specification `PhysOf` |
| PageWords.FlagWords | src/intf/vmm.h:14-16 | the flags are the numbers 1, 2 and 4, and an entry has them exactly if its bits 0, 1 and 2 are set |
| PageWords.FrameWord | src/impl/x86_64/vmm.c:27-27 | the frame of an entry is its bits 12 to 51 |
| PageWords.TableEntryWord | src/impl/x86_64/vmm.c:8-12 | the entry for a new table is its address plus 3 |
| PageWords.IndexWords | src/impl/x86_64/vmm.c:14-17 | the four indices are bits 39 to 47, 30 to 38, 21 to 29 and 12 to 20 of the address |
| PageWords.GetPhysWord | src/impl/x86_64/vmm.c:71-90 | in numbers: vmm_get_phys gives bits 12 to 51 of the page's entry and the low 12 bits of the address, if the entry is odd, and 0 otherwise |
| PageWords.MapUpper | src/impl/x86_64/vmm.c:21-43 | after vmm_map with enough frames, an upper entry on the way is the one there was or the new table's address plus 3, with bit 2 added exactly if the flags have it; no other upper entry changes and new tables are clear |
| PageWords.MapLeaf | src/impl/x86_64/vmm.c:44-44 | the page's entry is the sum of an aligned address and the flags |
| PageWords.MapOpens | src/impl/x86_64/vmm.c:24-42 | with bit 2 in the flags, the entries at levels 4, 3 and 2 have bit 2 afterwards |
| PageTable.MapCorrect | src/impl/x86_64/vmm.c:13-48 | from a tree of unshared owned frames, vmm_map leaves such a tree if and only if there are as many free frames as missing tables; then exactly one page changes in the flat map, and user access stays closed upwards |
| PageTable.NoTree | src/impl/x86_64/vmm.c:8-12 | once a reachable table links to frame 0, no assignment of frames to tables is a tree |
| PageTable.EffectiveIsLeaf | src/impl/x86_64/vmm.c:24-44 | the permission over all four levels is the permission of the page's own entry |
| PageTable.UnmapCorrect | src/impl/x86_64/vmm.c:50-69 | vmm_unmap keeps the tree, clears the page in the flat map and changes no other page |
| PageTable.GetPhysCorrect | src/impl/x86_64/vmm.c:71-90 | vmm_get_phys translates the entry of the flat map |
| PageTable.MapThenGetPhys | src/impl/x86_64/vmm.c:13-90 | after vmm_map, addresses on the page go to phys plus their offset and all others go where they went |
| PageTable.UnmapThenGetPhys | src/impl/x86_64/vmm.c:50-90 | after vmm_unmap, addresses on the page go to 0 and all others go where they went |
| PageRuns.RunRefines | src/impl/x86_64/vmm.c:13-69 | over every run with enough frames the tables stay a tree, user access stays closed upwards, and every page has the entry of the last call for it |
| PageRuns.StaysTreeIff | src/impl/x86_64/vmm.c:13-69 | the tables are a tree before a run and after each of its calls if and only if there is a free frame for every table that is missing on the way |
| PageRuns.RunThenGetPhys | src/impl/x86_64/vmm.c:13-90 | vmm_get_phys after a run translates that entry |
| PageRuns.MapKeepsPermissions | src/impl/x86_64/vmm.c:13-48 | mapping one page changes the effective permissions of no other page |
| BootTables.SetupPageTables | src/impl/x86_64/boot/main.asm:68-121 | the stores and the loop of the boot code set the upper entries and all 2048 page entries |
| BootTables.BootTree | src/impl/x86_64/boot/main.asm:68-121 | the boot tables are a tree of unshared frames that maps exactly pages 0 to 2047, each to itself |
| HeapPages.GrowCorrect | src/impl/x86_64/kmemory.c:48-53 | the growth loop keeps the heap's pages mapped to frames of their own that hold no table, if and only if no table had to be made without a frame |
| HeapPages.GrowMaps | src/impl/x86_64/kmemory.c:48-53 | from a sound heap, a growth maps as many pages as the free frames allow, each page taking one frame and one for every missing table; this holds for safe and unsafe growths |
| HeapPages.GrowLeaf | src/impl/x86_64/kmemory.c:49-51 | the entry of a page of growth is the address of the frame drawn plus 3 |
| Blocks.AllocateKeeps | src/impl/x86_64/kmemory.c:28-42 | taking and splitting a block keeps the order and the bytes covered and adds exactly the new allocation |
| Blocks.LowestFit | src/impl/x86_64/kmemory.c:28-42 | the block taken is the free block with the lowest address that fits |
| Blocks.ReleaseKeeps | src/impl/x86_64/kmemory.c:64-71 | freeing, with the forward merge, keeps the order and the bytes covered and ends exactly that allocation |
| Blocks.AllocateAt | src/impl/x86_64/kmemory.c:28-42 | only the first block that fits changes: with more than 40 bytes to spare it is cut to the size and all behind it but a header is one free block, otherwise it is handed out whole |
| Blocks.ReleaseAt | src/impl/x86_64/kmemory.c:64-71 | only the pointer's block changes: it is free, and has taken in the next block exactly if that was free |
| Blocks.FreeUndoes | src/impl/x86_64/kmemory.c:28-71 | freeing at once what was just allocated restores the list if and only if the block was split or no free block is behind it |
| Blocks.LiveDisjoint | src/impl/x86_64/kmemory.c:26-71 | live allocations lie in the heap, touch no header and do not overlap |
| Blocks.TilesIffTotal | src/impl/x86_64/kmemory.c:15-71 | ordered blocks tile their range if and only if they cover all its bytes |
| KernelHeap.KernelHeap.HeapInit | src/impl/x86_64/kmemory.c:15-24 | the header list and the memory below it are those of the specification |
| KernelHeap.KernelHeap.TakeFit | src/impl/x86_64/kmemory.c:27-42 | the list walk finds the first fit, and the pointer surgery of the split gives the new list |
| KernelHeap.KernelHeap.GrowBy | src/impl/x86_64/kmemory.c:47-53 | the growth loop maps pages until it has enough or pmm_alloc returns NULL |
| KernelHeap.KernelHeap.Kmalloc | src/impl/x86_64/kmemory.c:26-62 | for every size_t, wrap-around included, the returned pointer and the new heap are as specified: when the wrapped sum asks for one page the recursion adds one free page after the other up to the limit or the last frame and returns NULL, and when it asks for none a block that starts at the end of the heap is added |
| KernelHeap.KernelHeap.Kfree | src/impl/x86_64/kmemory.c:64-71 | the new list is the released one |
| KernelHeap.InsideIffSane | src/impl/x86_64/kmemory.c:44-45 | a returned allocation lies inside the heap if and only if the size sum did not wrap |
| KernelHeap.WrapExample | src/impl/x86_64/kmemory.c:44-45 | a request for 2^64 - 25 bytes is granted without growing |
| KernelHeap.GoodIffOrderly | src/impl/x86_64/kmemory.c:44-59 | kmalloc keeps a heap that may grow in order if and only if the wrapped sum asks for at least one page |
| HeapModel.KmallocReturns | src/impl/x86_64/kmemory.c:26-62 | first fit without growth; or exactly old heap_end + 24 after ceil((size+24)/4096) pages; or NULL |
| HeapModel.KmallocNull | src/impl/x86_64/kmemory.c:26-62 | from a sound heap, for every size that asks for at least one page, kmalloc returns NULL if and only if nothing fits and the heap is full, or the sum wraps, or the free frames give fewer pages than needed; this and the new end of the heap are read off the heap before the call |
| HeapModel.KmallocKeeps | src/impl/x86_64/kmemory.c:26-62 | kmalloc keeps the list in order, adds exactly one live allocation inside the heap, and loses bytes only when it returns NULL |
| HeapModel.WrappedKeeps | src/impl/x86_64/kmemory.c:44-59 | a request whose sum wraps to one page returns NULL, and keeps the order, the allocations and the tiling |
| HeapModel.WrappedFills | src/impl/x86_64/kmemory.c:43-61 | such a request makes the heap grow to its limit or until no frame is free, and adds a free block of 4072 bytes for each page |
| HeapModel.KmallocLoses | src/impl/x86_64/kmemory.c:48-53 | kmalloc loses bytes if and only if the free frames suffice for some but not all pages of its growth |
| HeapModel.KfreeKeeps | src/impl/x86_64/kmemory.c:64-71 | kfree ends one allocation, leaves all others, and loses no bytes |
| HeapModel.KmallocGrown | src/impl/x86_64/kmemory.c:54-61 | a growth that succeeds appends one block of all its pages, cut for the request like any other |
| HeapModel.KfreeUndoes | src/impl/x86_64/kmemory.c:26-71 | after any run from heap_init, a kmalloc that finds a block and a kfree of it at once leave the heap exactly as it was, if and only if the block had more than 40 bytes to spare or no free block is behind it |
| HeapModel.TilesIffNothingLost | src/impl/x86_64/kmemory.c:48-53 | the blocks tile the heap if and only if no bytes were lost to a failed growth |
| HeapModel.RunKeeps | src/impl/x86_64/kmemory.c:26-71 | over every run of kmalloc and kfree the heap stays in order, and lost bytes stay lost |
| HeapModel.RunTiles | src/impl/x86_64/kmemory.c:26-71 | over every run from a sound, tiled heap the blocks tile it at the end if and only if at each growing request the free frames before it suffice for no page or for all |
| HeapModel.InitSound | src/impl/x86_64/kmemory.c:15-24 | heap_init with enough frames sets up a sound heap that its blocks tile and that has no allocations |
| HeapModel.InitSoundIff | src/impl/x86_64/kmemory.c:15-24 | heap_init leaves tables in which the heap's page has a frame of its own if and only if there is a free frame for the page and one for each missing table |
| HeapModel.KmallocSound | src/impl/x86_64/kmemory.c:26-62 | kmalloc leaves the page tables a tree if and only if the request is safe, and then every heap page is backed by its own frame |
| HeapModel.RunSound | src/impl/x86_64/kmemory.c:26-71 | over every run, across allocator, tables and heap: the tables are a tree at the end if and only if every request was safe, and then every heap page is mapped to its own frame, none of them a table |
| HeapModel.NeverRepaired | src/impl/x86_64/kmemory.c:48-53 | once no frame is free, no later call changes the tables or the frames |
| HeapFrames.TableBelow | src/impl/x86_64/vmm.c:8-12 | table k of the heap is the (513 k + 2)-nd frame drawn, so it is in the first 8 MiB if and only if so many pages were free there |
| HeapFrames.AllReachedIff | src/impl/x86_64/vmm.c:8-12 | every table's physical address is mapped to itself, as make_table and the walks need, if and only if the heap's last table is in the first 8 MiB |
| KernelStart.FirstFrame | src/impl/x86_64/pmm.c:9-61 | the first frame drawn is one of the bitmap's own if and only if a page of the bitmap is declared available; it is page 768 whenever that page is |
| KernelStart.BitmapOverwritten | src/impl/x86_64/kmemory.c:15-24 | with page 768 declared available, heap_init's header is stored into the bitmap, whatever the bitmap holds: page 0 becomes free, the heap is not sound, and the first request that needs another page returns NULL while frames are free |
| KernelStart.Start | src/impl/kernel/main.c:884-886 | with no page of the bitmap declared available and the first table in reach, pmm_setup, vmm_init and heap_init, from the boot loader's memory map and the boot tables, leave the heap of the specification over exactly the frames that the map covers from page 768 on |
| KernelStart.StartSoundIff | src/impl/kernel/main.c:884-886 | with no page of the bitmap declared available, heap_init leaves tables that back the heap's page with a frame of its own and are all reached at their physical addresses, if and only if at least two free pages are below page 2048 |
| KernelStart.RunReachedIff | src/impl/x86_64/vmm.c:8-12 | with no page of the bitmap declared available, after a safe run with c heap tables, the kernel reaches all tables if and only if at least 513 c - 511 pages below page 2048 were free at the start; never with a heap of more than 1536 pages |
| KernelStart.RunFromBoot | src/impl/kernel/main.c:884-886 | from a memory map that declares no page of the bitmap available, as long as all tables are made in reach, after every run of kmalloc and kfree: order, tiling, the page tables and the backing of the heap are as in RunTiles and RunSound, all tables are reached, and no frame of the heap or of a new table is the bitmap's or the kernel's |
| MemoryExamples.MapWithoutFrames | src/impl/x86_64/vmm.c:8-12 | a map call without a free frame leaves no tree |
| MemoryExamples.InitWithoutFrames | src/impl/x86_64/kmemory.c:15-24 | heap_init with one frame too few does not back the heap |
| MemoryExamples.GrowsPartway | src/impl/x86_64/kmemory.c:48-53 | with one frame left, a request for two pages returns NULL and leaves a heap that its blocks do not tile |
| Vfs.FileSystem.FindChildOf | src/impl/x86_64/vfs.c:35-44 | the first child of that name, or NULL |
| PathLaws.FirstIs | src/impl/x86_64/vfs.c:35-44 | the node found has the name and no node before it in the chain has |
| Vfs.FileSystem.IsProtected | src/impl/x86_64/vfs.c:45-57 | true if and only if /home/root is missing or is not the node or one of its ancestors; the walk ends |
| Vfs.FileSystem.ResolvePath | src/impl/x86_64/vfs.c:58-94 | the node that the components of the path lead to |
| PathLaws.ResolvePart | src/impl/x86_64/vfs.c:74-93 | a path, a slash and a part: from where the path leads, ".." goes to the parent, "." and an empty part stay, any other part goes to the first child of that name |
| PathLaws.ResolveFirst | src/impl/x86_64/vfs.c:58-93 | a path without a slash does the same from the working directory |
| PathLaws.ResolveAbsolute | src/impl/x86_64/vfs.c:66-93 | a slash and a part do the same from the root |
| PathLaws.ResolveTilde | src/impl/x86_64/vfs.c:61-65 | a tilde and a part do the same from where the tilde leads |
| PathLaws.TildeIs | src/impl/x86_64/vfs.c:61-65 | a leading tilde stands for the path /home/root, or for the root when that leads nowhere |
| PathLaws.InsideIs | src/impl/x86_64/vfs.c:45-57 | a node is inside another if and only if following the parent pointers leads there |
| PathLaws.CdIs | src/impl/x86_64/vfs.c:198-204 | after a successful cd the working directory is where the path led, and nothing else has changed |
| PathLaws.PwdIs | src/impl/x86_64/vfs.c:287-311 | pwd prints a slash in the root, and elsewhere what it prints after `cd ..`, without a lone slash, then a slash and the name; `cd ..` always succeeds |
| FileEffects.MayChangeIs | src/impl/x86_64/vfs.c:45-57 | without sudo exactly the node at the path /home/root and the nodes inside it may be changed; with sudo every node |
| Vfs.FileSystem.CreateNode | src/impl/x86_64/vfs.c:95-185 | mkdir and touch: one new node at the tail of the parent's chain, or nothing |
| Vfs.FileSystem.Cd | src/impl/x86_64/vfs.c:198-204 | the code and the new working directory |
| Vfs.FileSystem.Cat | src/impl/x86_64/vfs.c:205-211 | the code and the data of the file |
| Vfs.FileSystem.Rm | src/impl/x86_64/vfs.c:212-258 | the code; on success exactly the first file of that name is unlinked and freed with its data |
| Vfs.FileSystem.Rmdir | src/impl/x86_64/vfs.c:259-286 | the code; on success exactly that empty directory is unlinked and freed |
| Vfs.FileSystem.Pwd | src/impl/x86_64/vfs.c:287-311 | the backwards fill stays in the buffer and leaves the path there if and only if it has at most 4095 characters |
| Vfs.FileSystem.Write | src/impl/x86_64/vfs.c:312-339 | the code and the new tree; the new buffer holds the text, or the old text and then the text |
| Vfs.FileSystem.RmRecursive | src/impl/x86_64/vfs.c:340-356 | frees every node and buffer of a detached subtree once, except the data of its top node, or frees nothing if the subtree is protected; every node it reads, in is_protected too, and everything it frees is still allocated |
| Liveness.AroundReadable | src/impl/x86_64/vfs.c:45-57 | while a detached subtree is being freed from below, is_protected reads only nodes that have not been freed |
| Liveness.AroundKept | src/impl/x86_64/vfs.c:340-356 | freeing the subtrees of earlier children frees nothing that the rest of the removal reads |
| Vfs.FileSystem.RmR | src/impl/x86_64/vfs.c:357-401 | unlinks exactly the subtree, moves the working directory to the root exactly when it was inside, and frees what `Removed` says |
| Vfs.FileSystem.Mv | src/impl/x86_64/vfs.c:402-434 | the code and the new links, for every destination, inside the source or not; the invariant holds again if the move is safe |
| Vfs.FileSystem.Cp | src/impl/x86_64/vfs.c:436-460 | the code; on success one new file with a buffer of its own with the same text |
| Vfs.FileSystem.CpR | src/impl/x86_64/vfs.c:461-499 | ends; is a run of mkdir and cp calls; on success makes one new subtree at the destination, whose nodes are one-to-one images of the source's with the same types, texts, names and order, and everything that was there before is unchanged but for the tail of one chain |
| FileInit.InitFilesystem | src/impl/x86_64/vfs.c:7-33 | the initial state is a tree without leaked memory, sudo is off, the working directory is /home/root, and the names in /, /home, /etc and /home/root and the text of /etc/hostname are exactly those |
| FileInit.MakeTopDirectories | src/impl/x86_64/vfs.c:19-23 | the children of the root are home, etc, tmp, bin and var, in this order, and /home and /etc are empty |
| FileTree.ProtectionInherited | src/impl/x86_64/vfs.c:45-57 | a child of an unprotected directory is unprotected |
| FileOps.CreateKeeps | src/impl/x86_64/vfs.c:95-185 | mkdir and touch keep the tree, its ownership of memory and the absence of leaks |
| FileOps.RmKeeps | src/impl/x86_64/vfs.c:212-258 | rm keeps them |
| FileOps.RmdirKeeps | src/impl/x86_64/vfs.c:259-286 | rmdir keeps them |
| FileOps.RmRKeeps | src/impl/x86_64/vfs.c:340-401 | rm_r keeps the tree, and leaks if and only if it takes out /home/root without sudo or a file with data |
| FileOps.MvKeeps | src/impl/x86_64/vfs.c:402-434 | a move whose destination is outside the moved subtree keeps tree, ownership and absence of leaks |
| FileOps.MvShape | src/impl/x86_64/vfs.c:424-427 | some levels make the moved nodes a tree if and only if the destination is outside the moved subtree |
| FileOps.WriteKeeps | src/impl/x86_64/vfs.c:312-339 | write keeps tree, ownership and absence of leaks |
| FileOps.CpKeeps | src/impl/x86_64/vfs.c:436-460 | cp keeps them |
| FileOps.DetachUniform | src/impl/x86_64/vfs.c:340-356 | below a node that rm_r has unlinked, everything may be freed or nothing may: nothing exactly for /home/root without sudo |
| FileEffects.ParentIs | src/impl/x86_64/vfs.c:97-137 | mkdir, touch, cp and rm split a path at its last slash: the directory is what is in front of it, the root for a leading slash and the working directory without one |
| FileEffects.PlaceIs | src/impl/x86_64/vfs.c:97-137 | creation succeeds if and only if that is a directory that may be changed |
| FileEffects.CreateIs | src/impl/x86_64/vfs.c:95-185 | the new node is behind all children of its directory, with the last name of the path and nothing in it; no other node changes |
| FileEffects.MvIs | src/impl/x86_64/vfs.c:402-434 | a node moved to a directory is in front of its children under its old name; a node moved to any other path gets that path as its name and is in front of its siblings; every other node keeps name, parent, kind, data and the order of its children |
| FileEffects.RmRIs | src/impl/x86_64/vfs.c:357-401 | exactly the subtree is gone, only its parent has lost a child, the working directory is the root exactly if it was inside, and the nodes of the subtree are freed, or none of /home/root without sudo |
| FileEffects.RmIs | src/impl/x86_64/vfs.c:212-258 | exactly the first child of that name is taken out and freed |
| FileEffects.RmdirIs | src/impl/x86_64/vfs.c:259-286 | exactly the directory that the path leads to is taken out and freed |
| FileEffects.CpGoes | src/impl/x86_64/vfs.c:440-449 | the copy goes into an existing directory under the source's name (with an empty destination path, into the root), and otherwise to the destination path |
| FileEffects.WriteTwice | src/impl/x86_64/vfs.c:312-339 | after two writes to a path the file holds the second text, or both if the second appends |
| FileEffects.WriteTexts | src/impl/x86_64/vfs.c:322-337 | overwriting writes the text, appending writes it behind what the file holds |
| FileEffects.CdCodes | src/impl/x86_64/vfs.c:198-204 | each return code of cd if and only if its case, in terms of paths |
| FileEffects.RmCodes | src/impl/x86_64/vfs.c:212-240 | each return code of rm if and only if its case; protection before the type |
| FileEffects.RmdirCodes | src/impl/x86_64/vfs.c:259-268 | each return code of rmdir if and only if its case; protection last |
| FileEffects.RmRCodes | src/impl/x86_64/vfs.c:357-362 | each return code of rm_r if and only if its case |
| FileEffects.MvCodes | src/impl/x86_64/vfs.c:402-410 | each return code of mv if and only if its case |
| FileEffects.CpCodes | src/impl/x86_64/vfs.c:436-450 | each return code of cp if and only if its case |
| FileEffects.CpRCodes | src/impl/x86_64/vfs.c:461-478 | each return code of cp_r if and only if its case; the children have no part in it |
| FileEffects.WriteCodes | src/impl/x86_64/vfs.c:312-322 | each return code of write if and only if its case; what write has created it may write |
| TreeOps.MoveShape | src/impl/x86_64/vfs.c:415-432 | moving a node into a directory gives a tree, for some levels, if and only if the directory is not inside it |
| TreeOps.CutOwned | src/impl/x86_64/vfs.c:340-356 | removing a subtree leaks if and only if its top node is a file with data |
| FileRuns.RunSound | src/impl/x86_64/vfs.c:95-460 | every run keeps a tree: each node once in its parent's chain, parents reach the root, files have no children, the working directory is a live directory, no two nodes share a buffer |
| FileRuns.RunShape | src/impl/x86_64/vfs.c:95-460 | after every call of a run some levels make the links a tree, if and only if every mv of the run keeps its destination outside the moved subtree |
| FileRuns.RunNoLeak | src/impl/x86_64/vfs.c:95-460 | at the end of a run exactly the memory of the tree is allocated, if and only if no rm_r on the way leaked |
| FileRuns.CopiesKeep | src/impl/x86_64/vfs.c:461-499 | cp_r, being a run of mkdir and cp calls, keeps the tree, its ownership of memory and the absence of leaks |
| Resolution.HomeStableIff | src/impl/x86_64/vfs.c:61-65 | mkdir or touch changes what a leading tilde means if and only if there was no /home/root and the call creates a child called root in /home |
| Resolution.CreateConservative | src/impl/x86_64/vfs.c:119-137 | every path that resolved still resolves to the same node after mkdir or touch, if and only if the call does not create the first /home/root; the condition is read off the tree before the call |
| Resolution.CreatedIsFound | src/impl/x86_64/vfs.c:95-185 | a well-formed path leads to the created node if it led nowhere before, and to what it led to before otherwise; a path with a tilde, if the call does not create the first /home/root |
| Resolution.ResolveSplit | src/impl/x86_64/vfs.c:58-94 | resolving a well-formed path is looking its last name up in the directory that mkdir, touch and rm use as parent |
| Resolution.PwdResolves | src/impl/x86_64/vfs.c:287-311 | with plain names, resolving what pwd prints gives the working directory if and only if every directory on the way is the first child of its name |
| Resolution.WriteIsRead | src/impl/x86_64/vfs.c:312-339 | after a write the path leads to the written file, which holds the new buffer, and every other file keeps its own |
| Confinement.StepConfined | src/impl/x86_64/vfs.c:45-460 | without sudo, every call, moves into themselves included, leaves every node outside /home/root as it is if and only if it does not remove /home/root, move it into itself, or rename it while it is not the first child of /home; and any other call than a move into itself keeps the protected set if and only if it neither removes /home/root nor gives it another name |
| Confinement.RunConfined | src/impl/x86_64/vfs.c:45-460 | over runs of calls that do neither, every node outside /home/root keeps all its fields and the protected set stays |
| Confinement.CopiesConfined | src/impl/x86_64/vfs.c:461-499 | a cp_r without sudo changes nothing outside /home/root, and keeps the protected set |
| Confinement.WriteAfterTouch | src/impl/x86_64/vfs.c:314-321 | a write that created its file is never refused with -3 |
| Confinement.RenameHomeOutside | src/impl/x86_64/vfs.c:428-432 | renaming /home/root, to any name, leaves every node outside it as it is if and only if it is the first child of /home |
| Confinement.RenameHomeKept | src/impl/x86_64/vfs.c:428-432 | renaming /home/root keeps the protected set if and only if the new name is root |
| Copying.CpCopied | src/impl/x86_64/vfs.c:436-460 | a file copied by cp is a copy in the sense of cp_r |
| Copying.ChildCopyable | src/impl/x86_64/vfs.c:480-490 | the two paths that cp_r builds for a child lead, in the tree as it is then, to the child and to a free place in the new directory |
| Copying.PartStep | src/impl/x86_64/vfs.c:480-497 | one more child copied makes a longer partial copy |
| Copying.CopyWalks | src/impl/x86_64/vfs.c:461-499 | every path of names below the source leads, below the copy, to the image of what it leads to |
| Copying.CopiedIsFound | src/impl/x86_64/vfs.c:461-499 | the destination path, free before, leads to the copy |
| Copying.NeverEnds | src/impl/x86_64/vfs.c:480-497 | when both paths lead to one directory of plain files, each round of the loop appends to the chain that it walks: after any number of rounds there is a next child if and only if there was a first one |
| Copying.CpROntoItself | src/impl/x86_64/vfs.c:461-499 | cp_r of a directory of files to a well-formed path that leads to this directory never ends, if and only if the directory has a child |
| Copying.CpROntoFile | src/impl/x86_64/vfs.c:476-498 | cp_r of a directory to a path that a file has makes an empty directory behind the file, and no call for a plain-named child copies anything; that is a copy if and only if the source is empty |
| Copying.ChildRead | src/impl/x86_64/vfs.c:480-495 | for each child cp_r reads the first child of its name, which is this child if and only if no namesake comes first |
| FileExamples.MoveIntoItself | src/impl/x86_64/vfs.c:415-432 | `mv a a` of a directory is accepted, and no levels make the result a tree |
| FileExamples.RmRLosesData | src/impl/x86_64/vfs.c:340-356 | rm_r of a file with data succeeds and leaks |
| FileExamples.MkdirMovesTilde | src/impl/x86_64/vfs.c:61-65 | `mkdir home/root` makes the tilde, which led to the root, lead to the new directory |
| FileExamples.RenameDisturbs | src/impl/x86_64/vfs.c:424-432 | renaming /home/root while an older sibling stands before it changes /home |
| FileExamples.CopyNeverEnds | src/impl/x86_64/vfs.c:461-499 | `cp_r name .` of a directory with one file never ends: after any number n of rounds the chain holds the file and its n copies, so that there is a next child |
| Console.Console.ClearRow | src/impl/x86_64/print.c:40-51 | blanks one row, changes no other cell and resets the cursor |
| Console.Console.Clear | src/impl/x86_64/print.c:60-65 | the screen shows the empty transcript |
| Console.Console.ClearChar | src/impl/x86_64/print.c:88-92 | the screen shows a transcript afterwards if and only if the column was not 0; then it is the old one without its last character |
| Console.ClearCharAtColumnZero | src/impl/x86_64/print.c:88-92 | at column 0 of row 1 of a blank screen the call leaves a cursor that no transcript has |
| Console.Console.Newline | src/impl/x86_64/print.c:93-112 | the transcript gets a new line; above the last row the cells stay, on the last row every cell goes one row up and the last row is blank |
| Console.Console.PrintChar | src/impl/x86_64/print.c:114-131 | the transcript gets the character, wrapped when a full line is followed by one |
| Console.Console.PrintStr | src/impl/x86_64/print.c:132-144 | the transcript gets all characters |
| Console.Console.PrintInt | src/impl/x86_64/print.c:149-159 | the transcript gets the decimal numeral, and the 20 digits of the buffer suffice |
| Console.DecimalIsNumeral | src/impl/x86_64/print.c:149-159 | the numeral reads back as the number and has no leading zero |
| Transcript.PutAllIsLayout | src/impl/x86_64/print.c:114-144 | printing character by character gives the lines of the whole text: its paragraphs, each in lines of 80 |
| Transcript.CursorInside | src/impl/x86_64/print.c:93-131 | the row is below 25 and the column at most 80 |
| Transcript.TextOnScreen | src/impl/x86_64/print.c:60-144 | after print_clear, a text of at most 2000 characters without a newline stands in the first cells of the buffer in order, with blanks behind, and the cursor is behind it |
| Transcript.ChunkAt | src/impl/x86_64/print.c:120-129 | line i of a paragraph is its characters from 80 i on, 80 at most |
| Transcript.EraseUndoes | src/impl/x86_64/print.c:88-131 | print_clear_char takes back what print_char has just printed if and only if that was no newline and began no new line |
| Tokenizer.CountTokens | src/impl/kernel/main.c:127-136 | the count pass gives the number of tokens |
| Tokenizer.Tokenize | src/impl/kernel/main.c:137-152 | the split pass fills exactly the array that the count pass sized, with the tokens |
| Tokenizer.TokensAreTheRuns | src/impl/kernel/main.c:127-152 | the tokens are the texts of exactly the maximal space-free runs, from left to right |
| Tokenizer.CutRedirect | src/impl/kernel/main.c:153-167 | the command is cut at the first operator with a file behind it |
| Tokenizer.SudoInput | src/impl/kernel/main.c:189-195 | the rejoined command is the tokens with single spaces |
| Tokenizer.JoinThenTokens | src/impl/kernel/main.c:189-195 | words joined with single spaces parse back to the same words |
| Tokenizer.SudoReparses | src/impl/kernel/main.c:127-195 | the rejoined command parses to the tokens behind sudo, holds no redirect, and is at least five characters shorter than the input |
| CString.StrCmp | src/impl/x86_64/string.c:3-9 | zero if and only if the strings are equal, otherwise the signed difference at the first place where they differ |
| CString.StrNCmp | src/impl/x86_64/string.c:10-16 | zero if and only if the first n characters agree, otherwise the signed difference at the first place where they differ |
| CString.StrLen | src/impl/x86_64/string.c:17-23 | the length of the string in the buffer |
| CString.StrCpy | src/impl/x86_64/string.c:24-31 | the destination holds the source string, and nothing behind its NUL changes |
| CString.StrNCpy | src/impl/x86_64/string.c:32-38 | the destination holds the first n characters and a NUL, and nothing behind changes |
| CString.StrCat | src/impl/x86_64/string.c:39-48 | the destination holds both strings, and nothing behind the NUL changes |
| CString.StrJoin | src/impl/x86_64/string.c:49-57 | a new buffer holds both strings |
| CString.MemCpy | src/impl/x86_64/kmemory.c:72-78 | exactly the addressed characters are replaced |

## Left out

* Port I/O, interrupts, the timer, system calls, user mode, and the TLB: `invlpg`, `read_cr3` and `update_cursor` do
  nothing here, and the root table is an input.
* The keyboard and the shell history; the command dispatch of `execute` behind the tokeniser; the prompt; hexadecimal
  output; `vfs_ls` and `ls_recursive`.
* Where things live: page-table frames, heap headers and the frame bitmap are separate memories, except in
  `KernelStart.BitmapOverwritten`. From boot on, `KernelStart.RunFromBoot` proves that their frames are apart when no
  page of the bitmap is declared available and the tables are made in reach; elsewhere it is taken for granted.
* Alignment of payloads and merging with the block before: the code has neither.
* `vfs_rm_r` of the root with `super_sudo_mode`, which reads nodes it has freed.
- PhysicalMemory.Pmm.Alloc: `usedPages` is an integer; the C counter is its remainder modulo 2^64.
- Multiboot.Setup: asks for a list of tags that ends, with entries inside it and sums below 2^64, and for at least 768
  pages; with fewer, the code writes behind the bitmap.
- PageTable.MapCorrect: memory of at most 2^40 frames, as many as the address field of an entry can name.
- HeapModel.RunSound: memory of at most 2^35 frames, and runs without the 4096 sizes whose wrapped sum asks for no page;
  what one such request does is stated by `KernelHeap.KernelHeap.Kmalloc` and `KernelHeap.GoodIffOrderly`.
- KernelStart.Start: asks for a memory map that ends at page 768 or above, for a bitmap that ends in the identity-mapped
  first 8 MiB, for boot tables inside the first 3 MiB, where the linker puts the kernel's image, and for boot
  information outside the bitmap. Of a map that declares pages of the bitmap available, but not the first, only
  `KernelStart.FirstFrame` speaks.
- KernelStart.RunFromBoot: runs of `kmalloc` and `kfree` alone; `kernel_main` later maps pages for user code and its
  stack, which `PageTable.MapCorrect` covers one by one.
- KernelHeap.KernelHeap.Kfree: asks for a live pointer, as C does.
- Console.Console.ClearChar: at row 0 and column 0 the code writes in front of the screen, so that call is excluded.
- Vfs.FileSystem.ResolvePath: asks that /home exists when the path starts with a tilde; the code reads through NULL
  otherwise. The fixed buffers of 256 and 512 characters for names and paths are unbounded strings; only `vfs_pwd` has
  its buffer.
- Vfs.FileSystem.CreateNode: kmalloc always succeeds in the file system, and a data buffer is a value that is written
  once, with its NUL.
- Vfs.FileSystem.Rm: kfree of a node ends its allocation; its contents are not overwritten. That only allocated nodes
  are read is proved of what `rm_recursive` calls; everywhere else all nodes of the tree are allocated.
- Vfs.FileSystem.CpR: for a directory it asks for plain names that are unique among siblings, a free well-formed
  destination outside the source, and an existing /home/root when a path starts with a tilde. Without these the source
  need not end: into its own subtree it copies its copies, a child called "." leads back to its parent, and a
  destination may be the source (`Copying.CpROntoItself`). A file as destination gets no copy (`Copying.CpROntoFile`),
  and the second of two namesakes is never read (`Copying.ChildRead`); the whole result for namesakes is not stated.
- Confinement.StepConfined: after a move of a node into itself, `is_protected` need not end, so what is protected then
  is not stated.
- Resolution.CreatedIsFound: excludes last components that are empty, "." or "..", and a tilde without a slash, about
  which creation and resolution disagree.
- FileRuns.RunSound: runs of mkdir, touch, cd, rm, rmdir, rm_r, write, mv and cp; a `cp_r` is a part of a run by
  `Vfs.FileSystem.CpR`, which gives its mkdir and cp calls.
- FileInit.InitFilesystem: does not say that /tmp, /bin and /var are empty.
- Tokenizer.Tokenize: the tokens and the sudo command are strings, not buffers; at least one token is assumed where
  `execute` reads the first one.
