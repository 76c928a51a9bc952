# Verified model of the kernel's memory, file system and text output

A Dafny 4.11 model of the hard core of this hobby kernel: the bitmap frame allocator, the two-level
page tables built in frames of that allocator, the block-list heap on top of both, the FAT12
reader, the text screen and the number printers. `dafny verify dfyconfig.toml` checks it.

## How it is built

Each part has two layers. A module of functions says what the code computes, with the code's own
branches, constants and 32-bit wrap-around, and carries the theorems. A class runs the code the
way the kernel does, with loops, arrays and fields updated in place, and every method is proved to
compute those functions.

| functions and theorems | code in place |
|---|---|
| `Words`, `PageEntry` (bit patterns and numbers; page entries) | |
| `FrameMap`, `FramePool`, `BootRegions` | `FrameAllocators.FrameAllocator` |
| `Paging`, `PagingInit`, `PagingRuns`, `PageRights`, `PagingOn` | `AddressSpaces.AddressSpace` |
| `HeapList`, `HeapMerge`, `HeapStack`, `HeapModel`, `HeapFrames`, `HeapRuns`, `HeapReach`, `HeapPagingOn`, `HeapStackRuns`, `KernelBoot` | `KernelHeaps.KernelHeap` |
| `Fat12`, `FatChains`, `FatDirectory`, `FatLayout`, `Floppy` | `Fat12Readers.Reader` |
| `TextPage`, `Numerals` | `Screens.Screen`, `NumberPrinters` |

Physical memory is a sequence of frames of 1024 words. The page walk is that of 32-bit paging (Intel
SDM volume 3A, section 4.3), with 4 KiB pages only. `Paging` and the heap modules on it access page
tables at their physical addresses. The kernel does the same with paging on, so that the accesses go
through the walk: `PagingOn` and `HeapPagingOn` model that and prove when it comes to the same,
namely as long as every table maps to itself. The heap's base address is a parameter; the kernel's own
heap is at address 0. The disk is a sequence of 512-byte sectors, read by a total lookup.

## What the proofs found

Where a property the code suggests does not hold, the model keeps the code and a lemma states
exactly when the property holds.

- The multi-block search clamps to the last bitmap word, so it can return a run that hangs off the
  map (`FrameMap.RunHangsOffTheMap`, `FrameMap.FirstFitIsFirst`).
- Reserving a region rounds its size down: the kernel reserves its bitmap by a size in bytes that is
  less than one block below 128 MiB of memory, so nothing is reserved and the allocator can hand the
  bitmap's own frame out (`FramePool.ReserveCoversRegion`, `KernelBoot.BitmapIsHandedOut`).
- Base and size of a region are rounded separately: a region whose partial blocks at the two ends add up
  to a block loses a whole block, and exactly then (`BootRegions.InsideIsChosen`).
- The memory size is taken as the last address, so a last region that ends on a block boundary is freed
  one block too far and the counter loses one (`FramePool.FreedOnePast`).
- Power-on marks whole bytes of the bitmap only; the blocks past the last whole byte are counted as
  used all the same and never searched (`FramePool.InitAccounts`).
- Setting a frame never clears bit 31, and freeing a page masks it off (`PageEntry.FrameReadBack`,
  `PagingRuns.FreePageUndoes`).
- `vmmngr_virt_to_phys` scales the offset (`Paging.VirtToPhysExact`).
- A split needs room for a header that nothing checks, and the last block is handed out again after
  an exact fit (`HeapList.SplitWithoutRoom`, `HeapList.LastBlockTwice`, `HeapList.PlaceIsSound`).
- At base 0 the merge pass never runs; elsewhere it absorbs a neighbour that may be in use
  (`HeapMerge.ReleaseAtZero`, `HeapMerge.MergeLoses`, `HeapStack.ReleaseSparesOthers`).
- The heap at address 0 maps its pages over the first 4 MiB, which are what lets the kernel reach its
  tables, its bitmap and low memory at their physical addresses. Once the heap has as many pages as the
  number of a table's frame, that table is hidden and further mappings write into a heap frame. With
  blocks 1 to 0x15 reserved and low memory free, the first table is in frame 0x16, so one allocation of
  some 92 KiB is enough (`KernelBoot.FirstTableAfterReserved`, `KernelBoot.FirstMallocReaches`, `HeapReach.RunReaches`).
- The heap counts a page it grew by even when no table for it could be had, and such a page still faults
  (`HeapFrames.GrowOneWithFrame`). Growth that obtains fewer pages than wanted hands the block out all the
  same (`HeapList.PlaceShort`), and `malloc_init` without frames lays the heap over the frames from 0 on
  (`HeapReach.InitWithoutFrames`).
- Pages the heap grows by never receive the writable bit, which is set on a local copy
  (`PageRights.GrowthGains`).
- The size of the root directory is rounded down: when the root entries do not fill whole sectors every
  data cluster is read one sector early (`FatLayout.MountedVolume`, `FatLayout.MisplacedData`).
- The windowed table lookup assumes one reserved sector, and the two chain readers stop at different
  marks (`Fat12.WindowNeedsOneReserved`, `FatChains.ReadersAgree`).

Comments in the source speak of merging "consecutive free blocks" (src/include/memory/malloc.c:71);
the model follows the code, which does not look at the second block's flag.

## Model

| member | source | states |
|---|---|---|
| PageEntry.EntryAfterEdits | src/include/memory/vmmngr_pte.c:5-17 | After any sequence of attribute and frame edits of a zero entry: the flags are the fold of adds and deletes, bits 12-30 are those of the last address, bit 31 is set once any address had it |
| PageEntry.AttribBits | src/include/memory/vmmngr_pte.c:5-7 | Adding a mask sets its bits, deleting it clears them, and neither touches another bit |
| PageEntry.AttributeInForce | src/include/memory/vmmngr_pte.c:5-7 | A flag is set after a sequence of edits if and only if the last add or delete that names it is an add |
| PageEntry.FrameReadBack | src/include/memory/vmmngr_pte.c:9-11 | The walk reads back the frame just set if and only if the entry had no leftover bit 31 or the address has bit 31 (the mask of src/include/memory/vmmngr_pte.h:18 leaves bit 31 out) |
| PageEntry.Fields | src/include/memory/vmmngr_pde.c:5-21 | Flags, masked frame and bit 31 make up the whole entry; the physical address macro keeps bit 31, the masked frame does not |
| PageEntry.MapEntryReads | src/include/memory/virutal_mmngr.c:81-82 | The entry written by a mapping is present; exactly when it reads back the frame and when it carries bit 31 |
| PageEntry.UnmapEntryReads | src/include/memory/virutal_mmngr.c:90-91 | The entry left by an unmapping is not present and keeps bit 31 |
| FrameMap.FirstFitIsFirst | src/include/memory/physical_mmngr.c:28-62 | The answer lies in the map if and only if a free run of that length does; it is then a free run and the earliest one; -1 means there is none; a single block never hangs off |
| FrameMap.SearchIsFirst | src/include/memory/physical_mmngr.c:33-58 | The nested search returns the first position whose clamped probes are all free |
| FrameMap.MapCoversBlocks | src/include/memory/physical_mmngr.c:28-34 | The words searched hold all blocks but those of the last partial word |
| FrameMap.InitCountsBlocks | src/include/memory/physical_mmngr.c:64-73 | The block count is that of the whole 4096-byte blocks of memory, all counted as used; exactly the blocks of whole bytes of the map are marked |
| FrameMap.RunHangsOffTheMap | src/include/memory/physical_mmngr.c:40-46 | Because of the clamp, two separate free bits of the last word pass for a run of two past the end of the map |
| FrameMap.CountOfSet | src/include/memory/physical_mmngr.c:89-96 | Reserving a free range raises the number of set bits by exactly the part of the range inside the count |
| FrameMap.CountOfClear | src/include/memory/physical_mmngr.c:76-86 | Freeing a used range lowers it by the same |
| FramePool.InitAccounts | src/include/memory/physical_mmngr.c:64-73 | Whatever the bitmap held, the counter starts as the number of used blocks: the set bits, with the blocks past the last whole byte of the bitmap taken as used |
| FramePool.BootRunAccounts | src/include/memory/physical_mmngr.c:76-96 | For regions within the map, at most one of them over block 0, the counter is the number of used blocks, less one exactly when a freed region covered block 0 |
| FramePool.BootRunBalances | src/include/memory/physical_mmngr.c:76-96 | Over every legal boot sequence, regions past the count included, the counter is the number of used blocks less the drift, in 32 bits: one for each freed region over block 0 and one for each block freed past the last counted bit, less those reserved there; block 0 stays reserved |
| FramePool.FreedOnePast | src/kernel.c:41-55 | A last region that ends on a block boundary is freed one block past the count, because the memory size is the last address: the counter ends one below the set bits of all blocks |
| FramePool.CounterInRange | src/include/memory/physical_mmngr.c:150 | The counter is a number of blocks if and only if the drift leaves it one; otherwise it has wrapped |
| FramePool.ReserveCoversRegion | src/kernel.c:69-77 | Reserving covers every byte of a region if and only if the region is empty or block aligned at both ends: both divisions round down |
| BootRegions.InsideIsChosen | src/include/memory/physical_mmngr.c:76-96 | The blocks a region frees or reserves include every block wholly inside its bytes if and only if its partial blocks at both ends add up to less than a block, or it is smaller than one |
| BootRegions.ReserveMarksRegion | src/include/memory/physical_mmngr.c:89-96 | Reserving bytes in free blocks marks the block of every byte as used if and only if the region is empty or block aligned at both ends |
| BootRegions.FreeClearsRegion | src/include/memory/physical_mmngr.c:76-86 | Freeing bytes in used blocks past block 0 clears the block of every byte if and only if the region is empty or block aligned at both ends |
| BootRegions.ReservedIsUsed | src/kernel.c:47-77 | Over every boot sequence: a block inside a reserved region that no later freed region touches is in use at the end, where the rounding loses no block of the region |
| BootRegions.FreedIsFree | src/kernel.c:47-77 | Likewise a block other than 0 inside a freed region that no later reserved region touches is free |
| BootRegions.OutsideStays | src/kernel.c:47-77 | A block no region touches keeps its bit; block 0 becomes used with the first freed region |
| FramePool.GuardMeansFree | src/include/memory/physical_mmngr.c:103-106 | The guard lets a request through to the search if and only if the free bits, one more when a region over block 0 was freed, exceed it; then at least that many bits are free |
| FramePool.GuardIsExact | src/include/memory/physical_mmngr.c:103-106 | The same for any drift of the counter |
| FramePool.AllocSucceeds | src/include/memory/physical_mmngr.c:100-122 | An allocation succeeds if and only if it asks for a block, passes the guard and the clamped search finds a start |
| FramePool.NullMeansFailure | src/include/memory/physical_mmngr.c:100-122 | A null result leaves bitmap and counter as they were |
| FramePool.ServeKeeps | src/include/memory/physical_mmngr.c:100-136 | One allocation or free of a live extent keeps live extents disjoint, marked used and off block 0, and the counter exact, if and only if an allocation that passes the guard and finds a run has one in the map |
| FramePool.ServiceIsSafe | src/include/memory/physical_mmngr.c:98-136 | The same over every run of requests |
| FramePool.AllocThenFree | src/include/memory/physical_mmngr.c:128-136 | Freeing what was just allocated restores bitmap and counter exactly |
| FrameAllocators.FrameAllocator.constructor | src/include/memory/physical_mmngr.c:64-73 | The words of the map and the counters after pmmngr_init, as a value |
| FrameAllocators.FrameAllocator.Set | src/include/memory/physical_mmngr.c:24 | Sets one bit of the bitmap and no other |
| FrameAllocators.FrameAllocator.Unset | src/include/memory/physical_mmngr.c:26 | Clears one bit of the bitmap and no other |
| FrameAllocators.FrameAllocator.ProbeBit | src/include/memory/physical_mmngr.c:40-46 | Tests the bit at the clamped position |
| FrameAllocators.FrameAllocator.RunFits | src/include/memory/physical_mmngr.c:38-55 | The innermost loop decides whether the clamped run is free |
| FrameAllocators.FrameAllocator.FirstInWord | src/include/memory/physical_mmngr.c:34-58 | The loop over the bits of one word continues the specified search |
| FrameAllocators.FrameAllocator.FirstFreeBlocks | src/include/memory/physical_mmngr.c:28-62 | The search over words, skipping full ones, is the specified first fit |
| FrameAllocators.FrameAllocator.InitRegion | src/include/memory/physical_mmngr.c:76-86 | Bitmap and counter after freeing a region, block 0 reserved again |
| FrameAllocators.FrameAllocator.DeinitRegion | src/include/memory/physical_mmngr.c:89-96 | Bitmap and counter after reserving a region; BootRegions says which blocks that marks |
| FrameAllocators.FrameAllocator.AllocBlocks | src/include/memory/physical_mmngr.c:100-122 | Result and new state of an allocation are those whose properties FrameMap and FramePool prove |
| FrameAllocators.FrameAllocator.AllocBlock | src/include/memory/physical_mmngr.c:98 | The same for one block |
| FrameAllocators.FrameAllocator.FreeBlocks | src/include/memory/physical_mmngr.c:128-136 | The new state of a release |
| Paging.MapPageTranslates | src/include/memory/virutal_mmngr.c:49-83 | Mapping with a table found or made: the walk of the page gives the frame if and only if no bit 31 was left over or the frame has it; every other walk stays; directory and tables remain distinct used frames |
| Paging.MapPageFails | src/include/memory/virutal_mmngr.c:60-63 | Without a table and without a free frame nothing changes |
| Paging.MapPageFrames | src/include/memory/virutal_mmngr.c:57-75 | Mapping frees no frame, and no used frame becomes a directory or table: a new table never aliases anything in use |
| Paging.AddTableKeeps | src/include/memory/virutal_mmngr.c:60-74 | A new table is an unused frame, cleared, entered at its index only |
| Paging.UnmapPageFaults | src/include/memory/virutal_mmngr.c:85-92 | After unmapping the page faults and every other walk stays |
| Paging.VirtToPhysExact | src/include/memory/virutal_mmngr.c:207-212 | On a mapped page the result is the address the processor reaches if and only if the address is page aligned |
| Paging.VirtToPhysScales | src/include/memory/virutal_mmngr.c:207-212 | Inside a mapped page the offset counts four times, in 32 bits |
| PagingRuns.StepRefines | src/include/memory/virutal_mmngr.c:49-92 | One mapping, unmapping or allocation is one update of a finite page map |
| PagingRuns.ApplyInv | src/include/memory/virutal_mmngr.c:49-92 | Every mapping, unmapping or allocation, successful or not, keeps the directory and tables distinct used frames |
| PagingRuns.RunRefines | src/include/memory/virutal_mmngr.c:49-92 | Over every run of them in which no mapping lacks a frame, the walk of every page equals that map, and the directory and tables stay distinct used frames |
| PagingRuns.FreePageUndoes | src/include/memory/virutal_mmngr.c:14-34 | Allocating a page and freeing its entry restores the allocator if and only if the frame lies below 2 GiB |
| PagingRuns.BlockOfFresh | src/include/memory/virutal_mmngr.c:28-31 | The block an entry gives back is the block it got, below 2 GiB and only there |
| PagingRuns.AllocPageEntry | src/include/memory/virutal_mmngr.c:14-24 | Without a block neither allocator nor entry changes; with one the entry gains the present flag alone and reads back the block if and only if it had no bit 31 or the block has it |
| PagingRuns.FreePageEntry | src/include/memory/virutal_mmngr.c:26-34 | The entry loses the present bit and no other |
| PagingInit.InitTranslates | src/include/memory/virutal_mmngr.c:94-167 | Whenever the allocator answers the three requests of vmmngr_init: the walk is the identity on the first 4 MiB, sends 0xC0000000+x to 0x100000+x for x below 4 MiB, faults everywhere else, and the structures are in order |
| PagingInit.InitSucceeds | src/include/memory/virutal_mmngr.c:94-167 | vmmngr_init gets through if and only if the allocator answers its three requests, for two single blocks and a run of three |
| PagingInit.InitFails | src/include/memory/virutal_mmngr.c:94-167 | When it gives up there is no directory, the frames it got stay taken, and memory has both tables or is untouched |
| PagingOn.MapPageOnAgrees | src/include/memory/virutal_mmngr.c:49-83 | With paging on the tables are read and written through the walk: if every structure, and the new table when one is needed, maps to itself, this is mapping in physical memory |
| PagingOn.MapPageReaches | src/include/memory/virutal_mmngr.c:49-83 | Mapping keeps every structure at its own address if and only if the page is no structure frame, or maps to itself, and a table it adds lies on a page that maps to itself |
| PagingOn.UnmapPageReaches | src/include/memory/virutal_mmngr.c:85-92 | Unmapping keeps them so if and only if the page is no structure frame |
| PagingOn.HiddenTable | src/include/memory/virutal_mmngr.c:49-83 | Mapping through a table whose page is mapped elsewhere changes no translation: it makes an entry in the frame mapped there instead and writes to no other frame |
| PagingOn.UnmappedTable | src/include/memory/virutal_mmngr.c:49-83 | With the directory or the table at an unmapped page, mapping faults |
| PageRights.MapPageEntries | src/include/memory/virutal_mmngr.c:49-83 | Mapping edits the entry of its page and no other entry of any table |
| PageRights.MapPageFlags | src/include/memory/virutal_mmngr.c:80-82 | The mapped entry keeps its flags and gains the present bit alone |
| PageRights.NewTableFlags | src/include/memory/virutal_mmngr.c:68-73 | A table added by mapping is present and writable, not open to user code |
| PageRights.UnmapPageFlags | src/include/memory/virutal_mmngr.c:90-91 | Unmapping takes the present bit and leaves the other flags |
| PageRights.InitFlags | src/include/memory/virutal_mmngr.c:112-160 | The exact flags of every page and both directory entries after vmmngr_init |
| PageRights.InitGains | src/include/memory/malloc.c:104-111 | The pages of malloc_init gain the present and the writable bit, no other entry changes |
| PageRights.GrowthGains | src/include/memory/malloc.c:53-62 | The pages the heap grows by gain the present bit alone: the writable bit goes to a local copy |
| AddressSpaces.AddressSpace.ClearFrame | src/include/memory/virutal_mmngr.c:66 | The table is all zero, other frames stay |
| AddressSpaces.AddressSpace.FillIdentity | src/include/memory/virutal_mmngr.c:112-125 | The loop writes the identity table |
| AddressSpaces.AddressSpace.FillKernel | src/include/memory/virutal_mmngr.c:127-139 | The loop writes the kernel table |
| AddressSpaces.AddressSpace.Init | src/include/memory/virutal_mmngr.c:94-167 | Memory, directory and allocator after vmmngr_init, as InitTranslates has them |
| AddressSpaces.AddressSpace.GetPage | src/include/memory/virutal_mmngr.c:191-197 | The table and the index of the entry of an address |
| AddressSpaces.AddressSpace.MapPage | src/include/memory/virutal_mmngr.c:49-83 | The new state is the one whose walks MapPageTranslates describes |
| AddressSpaces.AddressSpace.UnmapPage | src/include/memory/virutal_mmngr.c:85-92 | The new state is the one whose walks UnmapPageFaults describes |
| AddressSpaces.AddressSpace.AllocPage | src/include/memory/virutal_mmngr.c:14-24 | Entry, address and allocator after the allocation |
| AddressSpaces.AddressSpace.FreePage | src/include/memory/virutal_mmngr.c:26-34 | Entry and allocator after the release |
| HeapList.Find | src/include/memory/malloc.c:31-34 | The first free block that fits, or the last block, used or not |
| HeapList.FreshIsSound | src/include/memory/malloc.c:95-117 | malloc_init makes a list that tiles its pages with a nonempty head if and only if it is asked for at least one byte |
| HeapList.PageCountIsLeast | src/include/memory/malloc.c:46-49 | The page count is the least, from one up, with room for payload and header |
| HeapList.WantedIsLeast | src/include/memory/malloc.c:31-49 | No page is wanted if a free block is large enough, else the least number, from one up, that gives the last block room for payload and header |
| HeapList.PlaceShort | src/include/memory/malloc.c:46-66 | Growth that obtains any number of pages hands the block out; the list stays sound if and only if they leave room for payload and header |
| HeapList.SplitTiles | src/include/memory/malloc.c:121-132 | A split keeps the tiling if and only if the new header fits |
| HeapList.SplitWithoutRoom | src/include/memory/malloc.c:121-132 | A request of 4080 bytes to a one-page heap: the new header overruns the page and its size wraps |
| HeapList.LastBlockTwice | src/include/memory/malloc.c:36-39 | An exact fit in the last block is handed out again to the next request that finds no free block |
| HeapList.FindIsFree | src/include/memory/malloc.c:31-43 | In a sound list the chosen block is free and its address belongs to no block in use |
| HeapList.PlaceIsSound | src/include/memory/malloc.c:20-69 | With all pages obtained the list stays sound if and only if the fit is exact on a block before the last, leaves 12 bytes, or forces growth; the blocks in use gain exactly the new one |
| HeapList.BlocksDisjoint | src/include/memory/malloc.c:121-132 | Blocks of a tiled list do not overlap, headers included |
| HeapMerge.ReleaseAtZero | src/include/memory/malloc.c:72-93 | With the heap at address 0 the merge pass never runs: a free changes the block at its pointer and nothing else |
| HeapMerge.MergeTiles | src/include/memory/malloc.c:72-83 | On every tiled list the merge pass keeps the tiling, the free last block and at least the size of the head |
| HeapMerge.MergeLoses | src/include/memory/malloc.c:72-83 | On every tiled list the blocks in use after the pass are those before it less the ones standing right behind a free block it reaches |
| HeapMerge.MergeSparesUsed | src/include/memory/malloc.c:72-83 | The pass leaves the blocks in use alone if and only if it absorbs none of them |
| HeapMerge.MergeBlocks | src/include/memory/malloc.c:72-83 | The blocks after the pass, by address and flag, are exactly those before it that do not stand behind a free block it stopped at |
| HeapMerge.ReleaseOfNone | src/include/memory/malloc.c:85-93 | A free of a pointer that belongs to no block before the last changes nothing |
| HeapMerge.ReleaseSound | src/include/memory/malloc.c:85-93 | A free, of any pointer and from any list head, leaves a sound list |
| HeapMerge.ReleaseLoses | src/include/memory/malloc.c:85-93 | The exact blocks in use after a free |
| HeapMerge.ReleaseSpares | src/include/memory/malloc.c:72-93 | Away from address 0, on every sound list, a free leaves the other blocks in use if and only if the pass absorbs none |
| HeapStack.Push | src/include/memory/malloc.c:20-69 | Away from address 0: a granted allocation turns the list of allocated blocks and a free tail into the list with one block more |
| HeapStack.Pop | src/include/memory/malloc.c:72-93 | Freeing the newest block gives the list before it |
| HeapStack.MergeKeepsStack | src/include/interrupts/syscall.c:94 | The merge pass at the end of the malloc call leaves such a list alone |
| HeapStack.ReleaseSparesOthers | src/include/memory/malloc.c:72-83 | For stack-like lists that is the case if and only if the freed block is the newest |
| HeapStackRuns.StackStepKeeps | src/include/memory/malloc.c:72-93 | One granted malloc or free of the newest block keeps that shape, page mappings included |
| HeapStackRuns.StackRunKeeps | src/include/memory/malloc.c:20-132 | Over every last-in first-out run the list keeps that shape; once everything is freed it is one free block of pages*4096-12 bytes |
| HeapModel.MapNext | src/include/memory/malloc.c:46-66 | Mapping an available frame at the end of the heap keeps heap pages on distinct frames, none of them a directory or table |
| HeapModel.MapRangeHeap | src/include/memory/malloc.c:104-111 | The loop of malloc_init puts heap page k on frame s+k |
| HeapModel.GrowHeap | src/include/memory/malloc.c:51-62 | Successful growth extends the heap by that many pages on frames of their own and moves no page it had |
| HeapModel.AddWritableKeeps | src/include/memory/malloc.c:109-110 | Setting the writable bit changes no translation |
| HeapRuns.InitKeeps | src/include/memory/malloc.c:95-119 | malloc_init, its run of frames in the map and its tables obtained, sets up a heap in order in physical memory; HeapPagingOn.MapRangeOnAgrees says when paging lets it |
| HeapRuns.InitTakesLeast | src/include/memory/malloc.c:95-117 | malloc_init takes the least number of pages that holds the request and makes one free block of all of them but its header |
| HeapRuns.ZeroRequest | src/include/memory/malloc.c:23-25 | A request for nothing gets null and takes nothing; the merge pass of the call still runs |
| HeapRuns.EmptyHeadStartsOver | src/include/memory/malloc.c:27-29 | On a list whose first block is empty malloc does what the very first call would do, whatever was in use |
| HeapRuns.TakeKeeps | src/include/memory/malloc.c:20-69 | Allocation on a heap in order: it stays in order if and only if there is slack; the live blocks gain exactly the new one; no heap byte moves to another frame; the head stays nonempty, so initialization never runs again |
| HeapRuns.GrowsLeast | src/include/memory/malloc.c:31-62 | A malloc call grows the heap only when no free block is large enough, and then by the least number of pages |
| HeapRuns.StepKeeps | src/include/interrupts/syscall.c:85-105 | One granted malloc or free, at any base and on any list a run leads to, keeps the heap in order; the live blocks change as the call says less what its merge pass swallows |
| HeapRuns.RunKeeps | src/include/memory/malloc.c:20-132 | Over every run of granted mallocs and frees in any order, at any base: the list tiles exactly the mapped pages with a free last block, heap pages are on distinct frames, and the live blocks are those the calls added, did not remove and no merge swallowed |
| HeapRuns.RunAtZero | src/include/memory/malloc.c:20-132 | With heap base 0 the blocks in use after such a run are exactly those the calls added and did not remove; HeapPagingOn.RunAtZeroOn adds when paging lets the run do this |
| HeapRuns.AllocateKeeps | src/include/interrupts/syscall.c:85-99 | One malloc call, at any base and on any list: the heap stays in order, the new block has an address no live block has, and the live blocks are those before it and the new one less what the merge pass absorbs |
| HeapRuns.HeapBytesApart | src/include/memory/malloc.c:46-66 | Different heap bytes have different physical bytes, outside the directory and all tables |
| HeapRuns.PayloadBytesApart | src/include/memory/malloc.c:121-132 | Bytes of one payload or of two never share a physical byte |
| HeapFrames.GrowthExtends | src/include/memory/malloc.c:51-62 | Growth changes no walk outside the added pages and no present directory entry, turns no used frame into a table, and puts the added pages on frames that were free |
| HeapFrames.GrowthWithoutFrames | src/include/memory/malloc.c:51-62 | Growth changes nothing when the allocator has no frame |
| HeapFrames.GrowOneWithFrame | src/include/memory/malloc.c:53-62 | A round that gets a frame counts a page; the page is mapped to the frame if and only if it has a table or one can be had, else it still faults |
| HeapFrames.MapRangeExtends | src/include/memory/malloc.c:104-111 | The loop of malloc_init changes no walk outside its pages, no present directory entry, and turns no used frame into a table |
| HeapFrames.MapRangeWalks | src/include/memory/malloc.c:104-111 | The loop of malloc_init on its own: a row of pages without leftover bits 31 goes to a row of frames, whatever frames these are, and no other walk changes |
| HeapReach.InitWithoutFrames | src/include/memory/malloc.c:95-119 | malloc_init that gets no frames, its tables obtained, goes on and lays the heap over the frames from 0 on |
| HeapReach.RunExtends | src/include/memory/malloc.c:20-132 | The same over every run of granted calls |
| HeapReach.UsedFramesStay | src/include/memory/malloc.c:51-62 | A frame in use before a run, off the heap, never becomes a heap page, and a table only if it was one |
| HeapReach.OwnAddressStays | src/include/memory/malloc.c:104-111 | With heap base 0 such a frame stays at its own address if and only if the heap does not extend over it |
| HeapReach.HeapHidesStructure | src/include/memory/malloc.c:104-111 | A heap page over the frame of a table or the directory hides it |
| HeapReach.RunReaches | src/include/memory/malloc.c:20-132 | With heap base 0 and all structures within reach at the start, over every run they are within reach at the end if and only if the heap has not reached the first of their frames |
| HeapPagingOn.MapRangeOnAgrees | src/include/memory/malloc.c:104-111 | Then the loop of malloc_init does through the walk what it does in physical memory |
| HeapPagingOn.GrowPagesOnAgrees | src/include/memory/malloc.c:51-62 | And so does the growth loop |
| HeapPagingOn.RunOnAgrees | src/include/memory/malloc.c:20-132 | And so does every call of a run that ends below the structures |
| HeapPagingOn.RunAtZeroOn | src/include/memory/malloc.c:20-132 | The runs of RunAtZero with paging on: the live blocks are what the calls say, and the structures are within reach at the end if and only if the heap is below the first of them, then at every access |
| KernelBoot.BootIsReady | src/kernel.c:47-82 | Every legal boot sequence leaves what vmmngr_init needs |
| KernelBoot.FirstHeapIsUntouched | src/kernel.c:79-82 | After vmmngr_init the heap at address 0 can start |
| KernelBoot.InitStructures | src/include/memory/virutal_mmngr.c:94-160 | The directory and tables of vmmngr_init are exactly the frames of its three allocations |
| KernelBoot.InitReaches | src/include/memory/virutal_mmngr.c:94-167 | They are within reach after it if and only if all three lie in the first 4 MiB |
| KernelBoot.FirstTableAfterReserved | src/kernel.c:69-82 | With blocks below 0x16 in use and block 0x16 free, the first table is in frame 0x16, so the heap must stay at 22 pages |
| KernelBoot.InitLandsLow | src/include/memory/virutal_mmngr.c:96-145 | Five free frames in a row below 4 MiB are enough for that |
| KernelBoot.FiveFramesAnswer | src/include/memory/virutal_mmngr.c:96-145 | Five free frames in a row and a guard that lets five through are answers enough for vmmngr_init |
| KernelBoot.FiveFramesStart | src/include/memory/virutal_mmngr.c:94-167 | With them it gets through, its structures in order, and within reach if the frames lie below 4 MiB |
| KernelBoot.FirstMallocIsGranted | src/include/interrupts/syscall.c:85-99 | After vmmngr_init the first malloc meets every condition of the runs whenever the guard lets the least number of pages for the request through, a free run of as many frames is in the map, the pages lie below 4 MiB and they have 24 bytes more than the request |
| KernelBoot.FirstMallocPages | src/include/memory/malloc.c:95-119 | That malloc does not grow the heap: it ends with the least number of pages that hold the request |
| KernelBoot.FirstMallocReaches | src/include/memory/malloc.c:104-111 | It keeps the structures within reach if and only if that many pages stay below all of their frames |
| KernelBoot.BootedBytesApart | src/kernel.c:47-82 | From power-on, over every legal boot and every granted run of heap calls, different payload bytes in use are different physical bytes, none in a paging structure; a heap that stays below the structures does all this with paging on |
| KernelBoot.BootedReaches | src/kernel.c:47-82 | From power-on, with the structures within reach of the first 4 MiB: they still are after any granted run if and only if the heap is below the first of them, and then every table access on the way reached its table |
| KernelBoot.BootedFramesStay | src/kernel.c:69-77 | A frame in use after boot (kernel image, bitmap, low memory) never becomes a heap page or a table; below 4 MiB it stays at its own address if and only if the heap does not extend over it |
| KernelBoot.ReservedFramesStay | src/kernel.c:69-77 | The same for every block inside a region reserved at boot that no later freed region touches, from the region alone |
| KernelBoot.BitmapIsNotReserved | src/kernel.c:72-74 | Below 128 MiB of memory the reservation of the bitmap changes nothing |
| KernelBoot.BitmapIsHandedOut | src/include/memory/physical_mmngr.c:100-122 | A bitmap frame left free is handed out as soon as the blocks below it are in use |
| KernelHeaps.KernelHeap.Split | src/include/memory/malloc.c:121-132 | The headers in memory spell the list after the split |
| KernelHeaps.KernelHeap.FindBlock | src/include/memory/malloc.c:31-34 | The walk along the next pointers finds the specified block |
| KernelHeaps.KernelHeap.MergeFreeBlocks | src/include/memory/malloc.c:72-83 | The headers spell the list after the specified merge |
| KernelHeaps.KernelHeap.MapPages | src/include/memory/malloc.c:104-111 | The loop maps the run and marks every page writable |
| KernelHeaps.KernelHeap.Init | src/include/memory/malloc.c:95-119 | Headers, counters and machine after malloc_init |
| KernelHeaps.KernelHeap.CountPages | src/include/memory/malloc.c:46-49 | The 32-bit counting loop computes the least page count |
| KernelHeaps.CountLoopEnds | src/include/memory/malloc.c:46-49 | The 32-bit counting loop ends if and only if its target is at most 4 GiB less a page plus the block size modulo a page |
| KernelHeaps.SoundIsDefined | src/include/memory/malloc.c:20-69 | On a sound list an addressable request has all that the methods below require |
| KernelHeaps.GrantedIsDefined | src/include/interrupts/syscall.c:85-99 | So has every granted malloc call of a run |
| KernelHeaps.KernelHeap.Grow | src/include/memory/malloc.c:51-62 | The growth loop: machine, block size and page counter |
| KernelHeaps.KernelHeap.NextBlock | src/include/memory/malloc.c:20-69 | Headers, counters, machine and result after malloc_next_block |
| KernelHeaps.KernelHeap.Malloc | src/include/interrupts/syscall.c:85-99 | The whole malloc call |
| KernelHeaps.KernelHeap.Free | src/include/memory/malloc.c:85-93 | The walk to the block, the mark and the merge |
| Fat12.WindowIsWholeTable | src/include/filesystem/fat12.c:146-167 | With one reserved sector the two-sector window decodes every in-range entry of the loaded table, straddling ones included |
| Fat12.WindowNeedsOneReserved | src/include/filesystem/fat12.c:147 | The two lookups agree on every disk if and only if one sector is reserved |
| Fat12.UnpackPacked | src/include/filesystem/fat12.c:72-84 | The lookup recovers the c-th value of every packed table of 12-bit values |
| Fat12.ReadSectorsAt | src/include/filesystem/fat12.c:36-43 | Sector i of a loaded run is sector i of the disk run |
| FatLayout.MountedOffsets | src/include/filesystem/fat12.c:287-300 | For a disk laid out as boot sector, reserved sectors, tables, root and data, with a boot sector that describes it: every field of the mount is where that part starts or how long it is; the root size is right if and only if the root entries fill whole sectors |
| FatLayout.MountedAreas | src/include/filesystem/fat12.c:36-52 | On such a disk the loaded table is the first table, and the loaded root the root sectors filled by whole entries |
| FatLayout.ClusterSector | src/include/filesystem/fat12.c:54-70 | Cluster c is sector c - 2 of what follows the root sectors counted |
| FatLayout.MountedVolume | src/include/filesystem/fat12.c:287-300 | Table and, where the root entries fill whole sectors, root and every data sector come back as laid out; the root comes back whole if and only if they do |
| FatLayout.MisplacedData | src/include/filesystem/fat12.c:299-300 | Otherwise the first cluster is read from the last root sector |
| FatChains.FollowDecides | src/include/filesystem/fat12.c:61-89 | The bulk loader ends if and only if its chain ends in the loaded table before a cluster comes back; the set of unvisited clusters is the measure |
| FatChains.FollowFileDecides | src/include/filesystem/fat12.c:135-182 | The same for repeated calls of the file reader and its end marks |
| FatChains.ReadersAgree | src/include/filesystem/fat12.c:54-182 | Repeated reading visits the clusters the bulk loader copies if and only if no link is 0 and the chain ends at 0xFF8 or above |
| FatChains.FileChainIsRead | src/include/filesystem/fat12.c:54-182 | Every chain with links from 2 to 0xFEF that ends at 0xFF8 or above is exactly what both readers read |
| FatChains.WindowReadsChains | src/include/filesystem/fat12.c:146-181 | With one reserved sector the chain the window shows is that of the loaded table |
| FatChains.LoadsOnce | src/include/filesystem/fat12.c:61-89 | A reading that ends visits no cluster twice |
| FatChains.Marks | src/include/filesystem/fat12.c:61-181 | The bulk loader stops at clusters from 0xFF0 on, the file reader at links from 0xFF8 on and at 0 |
| FatChains.ContentsAt | src/include/filesystem/fat12.c:62-70 | Sector i of the contents is the sector of cluster i |
| FatDirectory.FirstMatch | src/include/filesystem/fat12.c:27-34 | The first matching entry: it matches and none before it does |
| FatDirectory.EntryReadsBack | src/include/filesystem/fat12.c:105-128 | An entry spelled byte by byte in the layout of src/include/filesystem/fat12.h:24-38 is matched by exactly its 11-byte name and gives back its kind, size and cluster |
| FatDirectory.RootScansAgree | src/include/filesystem/fat12.c:95-132 | The nested scan and the flat search over the loaded root find the same file, for 224 entries always, for other roots if and only if the first match is not between the two lengths |
| FatDirectory.LongerScan | src/include/filesystem/fat12.c:105-128 | Scanning more entries finds the same if and only if the first match is not among the extra ones |
| Fat12Readers.CopyBytes | src/include/C/string.c:53-58 | The bytes are copied and nothing else changes |
| Fat12Readers.StrNCmp | src/include/C/string.c:33-43 | Zero if and only if all bytes agree, else the first difference; a zero byte does not stop it |
| Fat12Readers.Reader.constructor | src/include/filesystem/fat12.c:287-300 | The offsets and sizes the boot sector gives |
| Fat12Readers.Reader.LoadFat | src/include/filesystem/fat12.c:36-43 | The buffer holds the table sectors |
| Fat12Readers.Reader.LoadRoot | src/include/filesystem/fat12.c:45-52 | The buffer holds the root sectors |
| Fat12Readers.Reader.FindImage | src/include/filesystem/fat12.c:27-34 | The flat search for a name |
| Fat12Readers.Reader.LoadImage | src/include/filesystem/fat12.c:54-92 | The buffer holds the contents of the chain, the result counts its sectors |
| Fat12Readers.Reader.ReadFile | src/include/filesystem/fat12.c:135-182 | The sector of the current cluster, then one step along the chain or the end mark |
| Fat12Readers.Reader.ReadAll | src/include/userspace.c:112-114 | Reading until the end mark gives the contents of the chain the window shows, whatever the layout |
| Fat12Readers.Reader.ParseRootdir | src/include/filesystem/fat12.c:95-132 | The first match among the 224 entries of 14 sectors |
| Fat12Readers.Reader.ParseSubdir | src/include/filesystem/fat12.c:185-223 | The first match in the concatenated sectors of the directory chain, for chains that end and for any chain with a match on the way |
| Floppy.LbaToChs | src/include/filesystem/floppydisk.c:205-210 | The position is on the disk and its linear number is the argument as an unsigned word |
| Floppy.PositionsAreNumbers | src/include/filesystem/floppydisk.c:205-210 | Positions and numbers correspond one to one |
| Floppy.BootAgrees | boot/include/floppy16.inc:64-73 | The two-division form agrees if and only if the track number fits in a byte |
| Floppy.AddressedOnce | src/include/filesystem/floppydisk.c:254-259 | Two sector numbers reach the controller as one position if and only if they differ by whole runs of 256 tracks |
| Floppy.ClusterInDataArea | src/include/filesystem/floppydisk.c:212-214 | A cluster lies past the reserved, table and root sectors if and only if it is 2 or more |
| Floppy.ClustersApart | src/include/filesystem/fat12.c:287-300 | Different clusters from 2 on have different positions, none of them in front of the data area |
| Floppy.BootLbaAgrees | boot/include/floppy16.inc:48-54 | The 16-bit form gives the same sector if and only if it fits in 16 bits |
| TextPage.PrintableText | src/include/debug/display.c:68-118 | Printable text lands cell after cell from the cursor on, across row ends; everything before it stays |
| TextPage.EmptyIsBlank | src/include/debug/display.c:55-66 | The cleared page is 2000 blanks with the cursor at its first position |
| TextPage.NewlineStep | src/include/debug/display.c:93-96 | A newline goes to the first column of the next row and changes no cell |
| TextPage.ReturnStep | src/include/debug/display.c:89-91 | A carriage return goes to the first column of its row |
| TextPage.TabStep | src/include/debug/display.c:85-87 | A tab goes to the next position divisible by 8, which past the edge is the start of the next row |
| TextPage.BackspaceStep | src/include/debug/display.c:74-83 | A backspace goes one position back, over row starts too, and blanks that cell alone; at the first position of the screen it does nothing |
| TextPage.CharacterStep | src/include/debug/display.c:98-108 | Any other character from 0x20 up is written at the cursor, which goes one position on |
| TextPage.ControlStep | src/include/debug/display.c:68-112 | Every other control character does nothing |
| TextPage.PrintLines | src/include/debug/display.c:68-118 | Lines shorter than 80, each ended by a newline and printed from column 0, stand one to a row from the cursor on, and what was above stays |
| TextPage.RowsAboveStay | src/include/debug/display.c:68-118 | Without backspaces rows above the cursor never change again |
| Screens.Screen.ClearScreen | src/include/debug/display.c:55-66 | The screen shows the empty page |
| Screens.Screen.ScrollScreen | src/include/debug/display.c:36-53 | Rows move up by one, the last becomes blank, only from row 25 on |
| Screens.Screen.PrintChar | src/include/debug/display.c:68-112 | The framebuffer is the last 25 rows of the unbounded page after the character, the cursor inside 80x25; every store is in range |
| Screens.Screen.PrintString | src/include/debug/display.c:114-118 | The same for a string |
| Numerals.NumeralIsTheCanonicalText | src/include/debug/display.c:141-148 | The numeral is the one text without leading zeros that parses to the number |
| Numerals.Characters | src/include/debug/display.c:130-190 | The digits, the minus sign and the x of the prefix are those characters |
| Numerals.TextReadsBack | src/include/debug/display.c:130-190 | Parsing the text of print_dec and print_hex gives back the number |
| Numerals.PaddedReadsBack | src/include/C/stdio.c:16-32 | The text of printf_hex parses to the number, has two digits or more and is that of print_hex up to its prefix and one leading zero below 16 |
| NumberPrinters.PrintedReadsBack | src/include/debug/display.c:130-190 | A number printed anywhere on the page can be read off the page again |
| NumberPrinters.ReverseString | src/include/debug/display.c:120-128 | Reverses the prefix in place, the rest stays |
| NumberPrinters.DigitsInto | src/include/debug/display.c:141-148 | The loop stores the numeral lowest digit first |
| NumberPrinters.PrintHex | src/include/debug/display.c:130-159 | The page gains 0x and the numeral |
| NumberPrinters.PrintDec | src/include/debug/display.c:161-190 | The page gains the decimal text; for the least integer, its own negation, a minus sign alone |
| NumberPrinters.PrintedDecReadsBack | src/include/debug/display.c:161-190 | The printed text reads back if and only if the number is not the least |
| NumberPrinters.WriteBuffer.PrintfHex | src/include/C/stdio.c:16-32 | The output gains the padded numeral |
| NumberPrinters.WriteBuffer.PrintfInt | src/include/C/stdio.c:35-56 | The output gains the text print_dec prints |

## Left out

- Hardware: floppy controller commands, DMA, interrupt controllers, timers, port output for the
  cursor, TLB flushes and control registers. A sector read is a total lookup in the disk sequence;
  reads that fail are not modelled.
- GDT, IDT, TSS, the system call entry, user mode and the bootloader, apart from the two address
  formulas in boot/include/floppy16.inc.
- `fat_open_file` with more than one path component: its component buffer is a null pointer. The
  file name copied into a FILE, its id and flags beyond directory, file or invalid.
- `printf` format walking and the growth of its buffer; the two digit printers require the room the
  stores need.
- The shell, the keyboard and the volume manager, which dispatch and look up.
- Stores through null after a failed table allocation in `malloc_init` (the code reads an entry it
  never got) and the bytes that overlapping headers share after a split without room: the heap keeps
  headers in a map from addresses, apart from the frames.
- The bitmap is an array of its own, not part of the frames handed out, and extends past the map so
  that stores of a run hanging off the end have a place to go.
- KernelHeaps.KernelHeap.NextBlock: requires that the request with its header fits a word, that the page
  count ends (`KernelHeaps.CountLoopEnds`: otherwise the code's loop does not), and that the new header
  lands on no other header, where the code's list would no longer be a list.
- KernelHeaps.KernelHeap.Malloc: the same conditions.
- KernelHeaps.KernelHeap.CountPages: the first two of them.
- KernelHeaps.KernelHeap.Split: the last of them.
- FrameMap.FirstFitIsFirst: for zero blocks the search returns -1 and nothing more is stated.
- FrameAllocators.FrameAllocator.AllocBlocks: with the counter above the block count, where the unsigned guard
  lets any size through, requires that the bits of the request lie in the array.
- FrameAllocators.FrameAllocator.FreeBlocks: the bits of the address given back must lie in the array, which stands
  for the memory from the bitmap on; the code has no check.
- AddressSpaces.AddressSpace.FreePage: the same.
- NumberPrinters.PrintDec: the least integer is taken to negate to itself, in two's complement; C leaves it open.
- NumberPrinters.WriteBuffer.PrintfInt: the least 32-bit integer is out, as its digits would be read in front of the
  digit table.
- Fat12Readers.Reader.LoadImage: a chain that never ends, or leaves the loaded table, is out: the code's loop does not
  end, or reads past the table.
- Fat12Readers.Reader.ReadAll: a chain that never ends is out, for the same reason.
- Fat12Readers.Reader.ParseSubdir: a chain that never ends and never shows a match is out, for the same reason.
- HeapPagingOn.RunOnAgrees: the processor may keep old translations, which the code never flushes; the model has
  none. The bitmap, which the kernel also reaches at its physical address, is not part of the frames here;
  `HeapReach.OwnAddressStays` says how long its frame stays within reach.
- Page sizes other than 4 KiB, and what the processor does with the flags beyond the present bit.
