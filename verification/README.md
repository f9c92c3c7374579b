# The kernel's allocators, tables and tools, modelled in Dafny

This project models the algorithmic core of the kernel and of two of its build scripts, and proves what they promise. It
stands beside the sources: `dafny verify dfyconfig.toml` checks all of it.

## What is modelled

- **Physical and virtual memory.** `Bitmap`, `Buddy`, `EarlyMemory`, `Pmm` and `VmSpace` are classes over byte arrays
  that work in place as `src/adt/bitmap.c`, `src/adt/buddy.c`, `src/early_pmm.c`, `src/pmm.c` and `src/vmspace.c` do.
  `BuddyForest` has the fact that carries them all: the bitmaps of the 17 orders are a canonical form of the set of free
  pages. `Zones` and `EarlyMemory` follow every byte from the boot ranges to the zones.
- **Page tables.** `PageTables` has the two-level walk of 32-bit paging (section 4.3 of the Intel SDM, volume 3A) over
  physical words. The code of `src/x86/vmm.c` edits entries only through virtual addresses which that walk resolves, and
  is proved to refine a flat partial map from pages to frames and flags.
- **Heap.** `SlabLayout` and `Slab` for `src/slab.c`: a cache takes its slabs from the buddy allocator of a virtual
  region and gives emptied ones back. `Kmalloc` for `src/kmalloc.c`: seven caches and large blocks over one region.
  `Chunks` and `HeapBlocks` have the invariant behind it: the blocks in use are disjoint, and every page of the region is
  free or needed.
- **Block cache.** `HashTable` for `src/adt/hashtable.c`; `BlockCache` for the linked list, the tables and the eviction
  of `src/block_cache.c`; `LruOrder` for what the list means over whole runs.
- **FAT files.** `FatChains`, `FatData` and `Fat` for chains and for file data in `src/fs_vfat.c`.
- **Modules.** `ModuleGraph` and `Modules` for the start and stop of modules in `src/main.c`.
- **Smaller pieces.** `ScanTable` (`scripts/scantable.py`), `DieTree` (`scripts/elftools/dwarf/compileunit.py`),
  `Semaphore` (`src/locking.c`, as interleaved steps), `IntText` (`src/snprintf.c` and `src/stdlib.c`).

A class keeps its abstract state in ghost fields that `Valid()` ties to the real ones. Methods are proved against
functions of that state, and the lemmas are about these functions. Where the source panics, asserts or runs off its data,
a method returns a flag or an outcome that says so, or its precondition states what callers owe.

## Where the code falls short of its intent

Each of these is stated exactly, mostly as a condition under which the intent is met and only then:

- `src/vmspace.c:50`: the physical address is cut to 32 bits, so a block above 4GB is backed by other frames. That
  happens iff there is a free block for the request above 4GB (`FramesRight`, `VmSpace.Alloc`, `Memory.TopHas`).
- `src/vmspace.c:65-71`: of a physical block that was rounded up to a power of two, only the pages asked for ever come
  back (`AllocThenFree`, `PhysicalRestored`).
- `src/pmm.c:156-157`: the size of the middle zone wraps if there is less than 1MB of memory (`ZonesRight`).
- `src/adt/bitmap.c:47`: a bit numbered like the extent is accepted (`FirstSet`); the buddy allocator never sets one.
- `src/slab.c:207-208`: when the first slab empties, all others are dropped from the list (`Unlist`, `FirstLosesRest`);
  freeing the last object of a dropped slab then fails an assertion or runs past the end of the list (`Free`).
- `src/slab.c:56-60`: objects of more than half a slab get a wrong count (`LayoutFits`).
- `src/fs_vfat.c:113`: the end-of-chain value of FAT32 lacks an F, so higher cluster numbers end a chain
  (`EndsEarly`, `ChainRoundTrip`).
- `src/fs_vfat.c:298-306`: a cluster found free is not marked before the chain is written, so a write that needs several
  gets the same one each time (`AppendRoundTrip`, `AtMostOneAdded`).
- `src/fs_vfat.c:284-289`: the size in the directory entry grows before it is known whether there is room. Below
  2^32 it is right iff the write ends within the old size, or writes something and all of it (`SizeRightIff`,
  `ShortIffFull`, `Write`).
- `src/fs_vfat.c:328`: a read that starts past the end of the file is not cut to its size (`ReadBounded`).
- `src/main.c:395-407`: modules are stopped after their prerequisites, not before: dependents come first iff no module
  stopped needs another (`DependentsNeverFirst`, `Stop`).
- `scripts/scantable.py:188-200`: an empty table fails the closing assertion (`EncodeBytes`).

## Model

| member | source | states |
|---|---|---|
| `BuddyForest.ForestUnique` | src/adt/buddy.c:92-192 | the bitmaps are a canonical form: any set of bits in which a bit is set iff its block is wholly free and its parent is not (or it is of the top order) is the one the free set determines |
| `BuddyForest.ForestBit` | src/adt/buddy.c:100-116 | a bit of the canonical form is set iff its block is wholly free and maximal |
| `BuddyForest.ForestInjective` | src/adt/buddy.c:92-192 | equal bitmaps stand for equal free sets, so restoring the free set restores the bitmaps bit for bit and conversely |
| `BuddyForest.BitsDisjoint` | src/adt/buddy.c:100-142 | the blocks of two different set bits share no page, across orders too |
| `BuddyForest.ParentInExtent` | src/adt/buddy.c:180-188 | coalescing never leaves the region, so the overflow that the FIXME fears cannot happen |
| `BuddyForest.AddBlock` | src/adt/buddy.c:165-190 | freeing a block whose buddy is not free changes exactly one bit of the canonical form |
| `BuddyForest.RemoveBlock` | src/adt/buddy.c:137-139 | taking a maximal block clears exactly its bit |
| `BuddyForest.Settle` | src/adt/buddy.c:168-178 | the coalescing loop ends in the canonical form when the buddy is not free |
| `BuddyForest.Coalesce` | src/adt/buddy.c:183-189 | clearing both buddies and going up one order prepares the same free set one order higher |
| `BuddyForest.SplitBlock` | src/adt/buddy.c:123-133 | splitting a block, with both halves set one order below, is the canonical form of the same pages |
| `BuddyForest.SearchComplete` | src/adt/buddy.c:103-116 | searching upwards finds a set bit iff some aligned block of the order wanted is wholly free |
| `BuddyForest.Leftmost` | src/adt/buddy.c:123-133 | the block left after splitting is the first of its order inside the block found |
| `BuddyAllocator.Buddy.FreeAll` | src/adt/buddy.c:160-192 | any number of frees, one after another, adds exactly the pages of the blocks and ends in the canonical form |
| `BuddyAllocator.FreeInAnyOrder` | src/adt/buddy.c:160-192 | two allocators with the same free pages, given the same blocks back each in its own order, end up with the same bitmaps, bit for bit |
| `BuddyForest.PiecesRestore` | src/adt/buddy.c:160-192 | giving a block back in any pieces, in any order, restores the bitmaps there were before it was taken |
| `BuddyForest.ForestOfNothing` | src/adt/buddy.c:77-81 | all bitmaps empty is the canonical form of no free page |
| `BuddyAllocator.CalcOverhead` | src/adt/buddy.c:55-62 | the storage asked for is exactly what `buddy_init` lays out for all 17 orders |
| `BuddyAllocator.LayOut` | src/adt/buddy.c:77-81 | each order gets its own bytes of the storage, in order, zeroed, and no byte outside the layout changes |
| `BuddyAllocator.Buddy.Init` | src/adt/buddy.c:72-87 | a new allocator over any page aligned region has no free page, or all its whole pages |
| `BuddyAllocator.Buddy.Alloc` | src/adt/buddy.c:92-143 | sound and complete: a wholly free block of the rounded-up order, aligned relative to the region, is removed from the free set and returned; exhausted iff no such block is free; too large iff above the top order; canonical form kept |
| `BuddyAllocator.Buddy.Search` | src/adt/buddy.c:103-116 | finds a block in the smallest order that has one |
| `BuddyAllocator.Buddy.TakeBlock` | src/adt/buddy.c:118-142 | splits down to the order asked for and takes the first piece; exactly its pages leave the free set |
| `BuddyAllocator.Buddy.Split` | src/adt/buddy.c:126-132 | one split step on the shared bitmap bytes clears the bit of the block and sets those of its two halves, and touches no other bit and no byte of another allocator; that this keeps the free set is BuddyForest.SplitBlock |
| `BuddyAllocator.Buddy.Free` | src/adt/buddy.c:160-192 | adds exactly the pages of the block to the free set and keeps the canonical form |
| `BuddyAllocator.Buddy.FreeBlock` | src/adt/buddy.c:165-190 | the coalescing loop, for every order and index |
| `BuddyAllocator.Buddy.FreeOrMerge` | src/adt/buddy.c:168-188 | one round: either the block is settled, or both buddies are cleared and the parent is next |
| `BuddyAllocator.Buddy.FreeRange` | src/adt/buddy.c:200-239 | terminates and frees exactly the whole pages inside the range, each once, for any start and extent, a start before or behind a page boundary included |
| `BuddyAllocator.Buddy.FreeChunk` | src/adt/buddy.c:222-238 | one round frees the block at the start of the range, of the largest order that is aligned there and fits, and leaves the rest of the range |
| `BuddyAllocator.ChooseChunk` | src/adt/buddy.c:225-231 | the largest order that is aligned and fits |
| `BuddyAllocator.AllocDetermined` | src/adt/buddy.c:92-143 | the outcome of an allocation is a function of the free set and the size alone |
| `BuddyAllocator.Buddy.KeptByOthers` | src/adt/buddy.c:72-87 | allocators that share one storage do not disturb each other |
| `Bitmaps.Bitmap.Set` | src/adt/bitmap.c:26-29 | adds one number to the set of bits, and touches no byte of another bitmap |
| `Bitmaps.Bitmap.Clear` | src/adt/bitmap.c:31-33 | removes one number from the set of bits |
| `Bitmaps.Bitmap.IsSet` | src/adt/bitmap.c:35-37 | tells whether a number is in the set |
| `Bitmaps.Bitmap.FirstSet` | src/adt/bitmap.c:42-50 | the least number in the set if it is at most the extent (the extent itself is accepted), or none |
| `Bitmaps.BitmapInit` | src/adt/bitmap.c:19-24 | zeroes exactly the bytes of the bitmap, which then is the empty set |
| `Bitmaps.LsbSet` | src/adt/bitmap.c:9-17 | the least significant set bit of a non-zero byte |
| `Powers.Log2RoundUpLeast` | src/include/math.h:4-13 | the rounded-up logarithm is the least order whose blocks hold the request |
| `Powers.Log2RoundUpUnique` | src/include/math.h:4-13 | and the only one with that property |
| `EarlyMemory.EarlyNeverRemains` | src/early_pmm.c:59-77 | a page that the early allocator gave is in no remaining range |
| `EarlyMemory.EarlyConserves` | src/early_pmm.c:59-77 | every byte of the initial ranges is in exactly one place: a remaining range or one early page |
| `EarlyMemory.CutOne` | src/early_pmm.c:69-74 | taking one page from one range keeps both |
| `PhysicalMemory.Memory.InitEarly` | src/early_pmm.c:41-52 | the ranges are taken over unchanged |
| `PhysicalMemory.Memory.EarlyAllocPage` | src/early_pmm.c:59-77 | the first page of the first usable range, never one given before, and one page less to give; none iff there is none to give |
| `EarlyMemory.UsablePages` | src/early_pmm.c:62-74 | how many pages a range can give follows from its start and extent alone: it is usable iff there is one, and taking one leaves one less |
| `EarlyMemory.OneEarlyPage` | src/early_pmm.c:59-77 | so it is for all ranges together |
| `Zones.ZonesRight` | src/pmm.c:151-161 | every address below the maximum, and none from it on, is in a zone iff there is at least 1MB; below that the unsigned subtraction wraps |
| `Zones.ZoneOfRight` | src/pmm.c:135-139 | the zones do not overlap: an address in a zone is routed to that zone, so a page freed by address goes to the zone that issued it |
| `Zones.SplitRange` | src/pmm.c:91-108 | the bytes below the limit and the bytes from it on, nothing lost or doubled |
| `Zones.SharesSplit` | src/pmm.c:196-205 | cutting a range at 1MB and 4GB splits its pages among the zones |
| `Zones.EarlyNeverReissued` | src/early_pmm.c:59-77 | no page of any zone overlaps a page given during early boot |
| `Zones.PagesNeverShared` | src/pmm.c:147-211 | different pages of the zones have different bytes |
| `Zones.BootMemoryAccounted` | src/pmm.c:192-206 | every byte of the initial memory is in exactly one of an early page, a page of a zone, and a fragment of less than a page |
| `Zones.Balance` | src/pmm.c:114-145 | pages move between free and held without breaking the account of a zone |
| `PhysicalMemory.Memory.Init` | src/pmm.c:147-211 | after start-up the zones hold exactly the whole pages of what the early allocator left, and nothing is held; exactly as many early pages are taken as the bitmaps of the three zones need, and it succeeds iff the ranges can give them |
| `PhysicalMemory.Memory.TakeEarlyPages` | src/pmm.c:172-174 | as many new early pages are taken as asked for, iff there are so many to give |
| `PhysicalMemory.Memory.HandOver` | src/pmm.c:193-205 | one range is cut and each piece freed into its zone |
| `PhysicalMemory.Memory.HandOverAll` | src/pmm.c:192-206 | all ranges are handed over, each page to one zone |
| `PhysicalMemory.NewZones` | src/pmm.c:177-186 | three allocators in one mapping, each with bytes of its own |
| `PhysicalMemory.Memory.AllocPages` | src/pmm.c:114-126 | in every state: a block that nobody holds, wholly in a zone that the request permits, becomes held; there is one iff the zone asked for has one, or the request is without requirements and the middle zone has one; such a request is served above 4GB iff there is a block for it there |
| `PhysicalMemory.Memory.FreePages` | src/pmm.c:132-145 | a held block goes back to the zone that it came from; free plus held stays the same set |
| `PhysicalMemory.Memory.FreePage` | src/pmm.c:128-130 | the same for one page, by its address |
| `VirtualSpace.VmSpace.Init` | src/vmspace.c:11-38 | for a page aligned region below 4GB: room for the bitmaps is kept at its end and mapped to one physical block that becomes held, and all whole pages before it are free; allocator and storage are new; it succeeds iff there is such a block and nothing is mapped in the room |
| `VirtualSpace.VmSpace.Over` | src/vmspace.c:21-35 | the virtual allocator over the rest of the region |
| `VirtualSpace.VmSpace.Alloc` | src/vmspace.c:42-58 | a virtual block and, if asked for, one physical block mapped under exactly the pages asked for; they are backed by the frames of that block iff there was no block for the request above 4GB; it fails iff the request is too large, or there is no physical block, or a page of the virtual one is mapped already |
| `VirtualSpace.VmSpace.Free` | src/vmspace.c:60-77 | whatever held frames are behind the pages go back, each to its zone, the mappings go, and the virtual block is free again |
| `VirtualSpace.VmSpace.FreeBacking` | src/vmspace.c:63-72 | the loop gives back exactly the frames behind the pages, from whatever zones |
| `VirtualSpace.VmSpace.AllocThenFree` | src/vmspace.c:42-77 | unless there is a block for the request above 4GB, allocating and freeing restores the virtual allocator bit for bit and the mappings, and the physical allocators iff the request was for a power of two pages; it fails iff the allocation does |
| `VirtualSpace.FirstRun` | src/vmspace.c:11-77 | a run from the start: a new region that serves a request with backing and gets it back has all its pages free and nothing mapped but its bitmaps; when each of the two steps succeeds is said exactly |
| `VirtualSpace.PhysicalRestored` | src/vmspace.c:63-72 | of a physical block rounded up to a power of two only the pages asked for come back: the state is restored iff nothing was rounded |
| `VirtualSpace.PowerOfTwoRequest` | src/vmspace.c:49-50 | which is iff the request is a power of two |
| `VirtualSpace.FramesRight` | src/vmspace.c:50-52 | the frames mapped are those allocated iff the block is not above 4GB, since the address is cut to 32 bits |
| `VirtualSpace.UnmapUndoesMap` | src/vmspace.c:52-70 | unmapping what was mapped gives the old mappings back |
| `VirtualSpace.GrantedRun` | src/vmspace.c:49-53 | the physical block is a run of frames of one zone, whichever it is |
| `VirtualSpace.MapRunAgrees` | src/vmspace.c:52 | mapping a run is what the page tables do: it matches Paging.AddressSpace.Map on the flat map |
| `VirtualSpace.UnmapRunAgrees` | src/vmspace.c:70 | unmapping a run matches Paging.AddressSpace.Unmap |
| `Paging.TableWindow` | src/x86/vmm.c:223-224 | through the recursive directory entry, the address of `PAGE_TABLE_ENTRY` is translated by the MMU to exactly the page table entry of the page |
| `Paging.DirectoryWindow` | src/x86/vmm.c:225-227 | and that of `PAGE_DIR_ENTRY` to exactly its directory entry |
| `Paging.FlagsRoundTrip` | src/x86/vmm.c:136-151 | frame and flags survive a page table entry and `from_x86_flags`, and the entry is present |
| `Paging.EntryBits` | src/x86/vmm.c:136-151 | the bits of an entry: PRESENT; WRITE iff asked for without COW; USER, EXECUTE and COW iff asked for; the frame above; and 32 bits in all |
| `Paging.KeptBits` | src/x86/vmm.c:260-263 | copy-on-write takes WRITE away and changes nothing else |
| `Paging.TranslateIs` | src/x86/vmm.c:223-227 | a write to a page gets through the two-level walk iff the flat map has the page with WRITE, and reaches the frame that it says |
| `Paging.FlagBits` | src/x86/vmm.c:136-151 | the conversions keep the four flags apart |
| `Paging.SetEntry` | src/x86/vmm.c:273-274 | writing the entry of one page changes the mapping of that page only |
| `Paging.NewTableCleared` | src/x86/vmm.c:236-251 | installing and clearing a new table maps nothing and unmaps nothing |
| `Paging.AddressSpace.EnsureTable` | src/x86/vmm.c:236-251 | afterwards the table of the page is present and every mapping is as before; it fails only without a frame |
| `Paging.AddressSpace.MapOne` | src/x86/vmm.c:255-279 | adds one entry to the flat partial map; afterwards the MMU translates a write to the page to its frame iff WRITE was asked for without copy-on-write; fails iff the page is mapped or no table can be made |
| `Paging.AddressSpace.UnmapOne` | src/x86/vmm.c:297-334 | removes exactly one entry, so that a write faults; fails iff it is not there |
| `Paging.AddressSpace.GetMapping` | src/x86/vmm.c:390-402 | the value of the flat partial map: frame and flags, or nothing |
| `Paging.AddressSpace.Map` | src/x86/vmm.c:284-292 | maps a run of pages to a run of frames; succeeds iff no page of the run is mapped and there are as many frames as page tables are missing |
| `Paging.AddressSpace.Unmap` | src/x86/vmm.c:336-342 | removes a run of pages |
| `Paging.AddressSpace.constructor` | src/x86/vmm.c:435-442 | the tables set up with a self-referring last entry refine the flat map they stand for |
| `Paging.UnmapUndoesMap` | src/x86/vmm.c:284-342 | unmapping a run that was mapped gives the flat map back |
| `Paging.MappedAt` | src/x86/vmm.c:284-292 | what a run of mappings says of each page, and that no other page changes |
| `Paging.RemovedAt` | src/x86/vmm.c:336-342 | the same for a run of removals |
| `SlabLayout.LayoutFits` | src/slab.c:56-60 | there is an object, and all objects leave room for bitmap and footer, iff the object size is at most half a slab |
| `SlabLayout.RoomLeft` | src/slab.c:56-60 | there is never room for two more objects than are counted, and for one more iff the bitmap and the footer leave no larger remainder than the slab |
| `SlabLayout.CountIsLargest` | src/slab.c:56-60 | for all powers of two from 2 to 4096 the count is the largest that fits |
| `SlabLayout.ObjectInSlab` | src/slab.c:33-42 | slab and index of an object are recovered from its address, and it ends before the bitmap |
| `SlabLayout.ObjectsApart` | src/slab.c:56-60 | different objects share no byte |
| `SlabLayout.SlabsAligned` | src/include/x86/mmap.h:8-9 | the address mask is right because the region starts at a multiple of 2^28 |
| `SlabAllocator.LsbClear` | src/slab.c:102-109 | the least clear bit of a byte that is not all ones |
| `SlabAllocator.FindClear` | src/slab.c:114-126 | the first free object of one slab, or none iff all are in use |
| `SlabAllocator.AllUnused` | src/slab.c:77-98 | true iff no object is in use |
| `SlabAllocator.Cache.Mark` | src/slab.c:65-75 | one bit of one bitmap |
| `SlabAllocator.Cache.FindEmpty` | src/slab.c:111-131 | the first free object of the first listed slab that has one; none iff all listed slabs are full |
| `SlabAllocator.Cache.NewSlab` | src/slab.c:168-178 | a new slab heads the list and has its first object in use |
| `SlabAllocator.Cache.Grow` | src/slab.c:167-179 | a new slab is a block of the virtual region that was free, and is in use from then on; there is one iff the region has a free block of 8KB |
| `SlabAllocator.Cache.Alloc` | src/slab.c:156-188 | an object that was not live becomes live; the set bits stay exactly the live objects; a slab is taken from the virtual region iff all listed ones are full; it fails iff then there is none |
| `SlabAllocator.Cache.Unlist` | src/slab.c:205-213 | takes a slab off the list, and the whole list if it is the first; runs past the end of the list iff it is not listed |
| `SlabAllocator.Cache.Free` | src/slab.c:197-217 | a live object is no longer live and nothing else changes, but that an emptied slab goes back to the virtual region; unless the list is empty, or the slab empties and is not listed, and exactly then the source goes wrong |
| `SlabAllocator.Cache.GiveBack` | src/slab.c:205-215 | the emptied slab leaves the list and its pages are free in the virtual region again |
| `SlabAllocator.FirstLosesRest` | src/slab.c:206-213 | no slab is lost iff the emptied slab was not the first of several |
| `SlabAllocator.Cache.constructor` | src/slab.c:135-142 | an empty cache |
| `KernelHeap.ClassFits` | src/kmalloc.c:23-38 | the class chosen is the smallest that holds request and header |
| `KernelHeap.HeaderFields` | src/kmalloc.c:43-54 | the header of every class below 32 fits in a word, and class and canary are recovered from it |
| `KernelHeap.HeaderWritten` | src/kmalloc.c:43 | writing the header of a new block overwrites no other header |
| `Chunks.HeldTake` | src/vmspace.c:46-58 | a block that the virtual region hands out shares no page with any block in use |
| `Chunks.HeldGive` | src/vmspace.c:74 | giving one back keeps all others in use |
| `Chunks.ChunksApart` | src/adt/buddy.c:136-142 | blocks without a common page are apart as address ranges |
| `HeapBlocks.BlocksDisjoint` | src/kmalloc.c:18-45 | in every reachable state of the heap, small and large blocks in use never overlap |
| `HeapBlocks.NothingLost` | src/kmalloc.c:47-60 | when every block has been given back, every page of the region is free again |
| `HeapBlocks.FreeDetermined` | src/kmalloc.c:18-60 | which pages of the region are free follows from which blocks are in use, whatever happened before |
| `HeapBlocks.SmallInside` | src/slab.c:33-42 | a small block in use lies in its slab, before the bitmap and the footer |
| `HeapBlocks.TakeSmall` | src/slab.c:156-188 | an object taken from a slab, old or new, is one more block in use, and keeps the heap sound |
| `HeapBlocks.TakeLarge` | src/kmalloc.c:31-41 | so is a large block |
| `HeapBlocks.DropObject` | src/slab.c:197-203 | giving an object back leaves all other blocks in use |
| `HeapBlocks.DropSlab` | src/slab.c:205-215 | so does giving back the last object of a slab, with the slab |
| `HeapBlocks.DropLarge` | src/kmalloc.c:58-59 | and a large block |
| `KernelHeap.Heap.constructor` | src/kmalloc.c:62-80 | seven new caches over a virtual region, with no block in use and nothing in the footprint |
| `KernelHeap.Heap.Kmalloc` | src/kmalloc.c:18-45 | in every reachable state: one block more is in use, of the class of the request, which overlaps no other and can be freed; the bytes returned follow its header and lie inside it; every other header stays; what joins the footprint is new; it succeeds iff the cache or the region has room |
| `KernelHeap.Heap.Kfree` | src/kmalloc.c:47-60 | the canary is intact, and exactly this block is no longer in use: objects, emptied slabs and large blocks go back to where they came from; the footprint gains nothing old; it succeeds iff the cache gets by |
| `KernelHeap.Heap.KmallocThenKfree` | src/kmalloc.c:18-60 | what is allocated can always be freed, which leaves the blocks in use and the virtual region, bit for bit, as they were |
| `KernelHeap.Heap.Perform` | src/kmalloc.c:18-60 | any call, on the pointers that the caller holds: it succeeds iff there is room or the block can be freed, and the pointers held stay those of the blocks in use |
| `KernelHeap.Run` | src/kmalloc.c:18-80 | any run of calls on a new heap, up to the first that goes wrong: no two blocks held overlap, and when none is held the region is, bit for bit, as it was |
| `HashTables.HashTable.Get` | src/adt/hashtable.c:31-39 | the value of a map, zero meaning absent |
| `HashTables.HashTable.Set` | src/adt/hashtable.c:45-64 | updates one key of the map |
| `HashTables.ChainRewritten` | src/adt/hashtable.c:50-55 | rewriting a bucket in place updates the map at its key only |
| `HashTables.ChainPrepended` | src/adt/hashtable.c:58-63 | so does a new bucket at the head |
| `LruOrder.EvictTakesOldest` | src/block_cache.c:103-119 | eviction removes exactly the unused pages of a least recently used part of the list, and keeps the order of the rest |
| `LruOrder.EvictCount` | src/block_cache.c:103-119 | as many pages go as were asked for, or all the unused ones |
| `LruOrder.RunsKeepOrder` | src/block_cache.c:164-223 | after any run the list is in order of the last get |
| `LruOrder.UsesCounted` | src/block_cache.c:164-223 | after any run a page has as many uses as gets minus releases; a page in use is never evicted |
| `LruOrder.StepUses` | src/block_cache.c:164-223 | only its own gets and releases change a page's use count |
| `BlockCache.Group.Touch` | src/block_cache.c:40-58 | the page goes to the front of a well-formed doubly linked list, the others keep their order |
| `BlockCache.Group.Unlink` | src/block_cache.c:63-71 | one page leaves the list |
| `BlockCache.Group.PushFront` | src/block_cache.c:187-195 | one page heads the list |
| `BlockCache.Group.EvictPage` | src/block_cache.c:60-82 | the page leaves the list and its cache's table, and its frame is free |
| `BlockCache.Group.EvictBytes` | src/block_cache.c:103-119 | the eviction loop does what LruOrder.Evict says, and returns true iff enough pages were unused; frames are conserved |
| `BlockCache.LoopEvicts` | src/block_cache.c:107-115 | the loop over the pointers computes the eviction of a list |
| `BlockCache.Group.Get` | src/block_cache.c:164-209 | after a hit or a miss the page heads the list with one use more, the tables of all caches hold exactly the listed pages, and the frame shows the device's block; a page that joins is new |
| `BlockCache.Group.Hit` | src/block_cache.c:201-208 | a use is counted and the page moves to the front |
| `BlockCache.Group.Miss` | src/block_cache.c:171-200 | a free frame is filled from the device and listed once |
| `BlockCache.Group.Release` | src/block_cache.c:211-223 | one use less, order unchanged |
| `BlockCache.Group.FindPage` | src/block_cache.c:225-242 | the table finds the listed page of a block, if there is one |
| `BlockCache.Group.IsCached` | src/block_cache.c:225-231 | true iff the block is listed |
| `BlockCache.Group.Handles` | src/block_cache.c:233-242 | the use count, zero if not cached |
| `BlockCache.Group.NewCache` | src/block_cache.c:121-128 | a further cache at the end of the group, with an empty table of its own, which is new |
| `BlockCache.Group.Perform` | src/block_cache.c:103-242 | any call does to the pointers and tables what its operation does to the list; it goes through iff its cache is there, a miss finds a frame, and what is released is held |
| `BlockCache.Run` | src/block_cache.c:103-242 | any run of calls on new caches of a new group, up to the first that would stop the kernel: the list is the one that the operations lead to, in order of the last get, with as many uses as gets minus releases; frames are conserved |
| `FatChains.ChainRoundTrip` | src/fs_vfat.c:159-186 | a chain written and read back is the same iff it has one cluster or none of its numbers counts as end of chain |
| `FatChains.EndsEarly` | src/fs_vfat.c:108-119 | every end of chain of the FAT specification is taken for one; a number that is none is taken for one exactly on FAT32, from 0x00FFFFF8 on |
| `FatChains.WriteChainKeeps` | src/fs_vfat.c:177-186 | no other word changes, and FAT32 words keep their upper four bits |
| `FatChains.LeadsUnique` | src/fs_vfat.c:159-175 | a cluster starts at most one chain |
| `FatChains.LeadsDistinct` | src/fs_vfat.c:159-175 | a chain that ends has no repeated cluster |
| `FatChains.FreeIsNew` | src/fs_vfat.c:81-104 | a cluster whose word is zero is on no chain |
| `FatChains.AppendRoundTrip` | src/fs_vfat.c:298-320 | what is on the disk after clusters were added equals what is in memory iff at most one was added, since the same free cluster comes back each time |
| `FatData.CopySplices` | src/fs_vfat.c:309-312 | copying into one cluster replaces one slice of the file's bytes |
| `FatData.CopyLasts` | src/fs_vfat.c:309-312 | after any copies, every byte of the data area is the last one written to it, also when a cluster occurs in the file more than once |
| `FatData.AtMostOneAdded` | src/fs_vfat.c:293-307 | at most one cluster is added iff the write ends at most one cluster past the allocated length |
| `FatData.ShortIffFull` | src/fs_vfat.c:292-317 | all bytes are written iff there are none, or there is a free cluster, or they end within the clusters of the file |
| `FatData.SizeRightIff` | src/fs_vfat.c:284-289 | for ends below 2^32, the size recorded is right iff the write ends within the old size, or writes something and all of it; a write that stops short, and one of nothing behind the end, leave it wrong |
| `FatData.RowIsSlice` | src/fs_vfat.c:345-355 | a piece of a cluster is a slice of the file's bytes |
| `FatData.OthersKept` | src/fs_vfat.c:263-323 | files with disjoint clusters keep their bytes |
| `Fat.ChainKept` | src/fs_vfat.c:177-186 | files with disjoint clusters keep their chains |
| `Fat.ReadBounded` | src/fs_vfat.c:328-329 | a read stays within the size iff it starts within it: past it the subtraction wraps |
| `Fat.ReadDelivers` | src/fs_vfat.c:328-329 | a read that starts within the file delivers what is asked for or all there is from there on; one that starts behind it is cut only where it wraps around to the size |
| `Fat.FreeFromFirst` | src/fs_vfat.c:86-103 | the first free cluster from the hint on |
| `Fat.Volume.FindFree` | src/fs_vfat.c:81-104 | the search gives it, or the failure value |
| `FatChains.LinkReadBack` | src/fs_vfat.c:121-157 | a link written to a table word is read back iff it is a cluster number; FAT32 words keep their upper four bits; writing back what is there changes nothing, and the last of two links stays |
| `Fat.Volume.ReadChain` | src/fs_vfat.c:159-175 | ends, and finds the whole chain |
| `Fat.Volume.WriteChainOut` | src/fs_vfat.c:177-186 | writes what FatChains.WriteChain says |
| `Fat.Volume.CopyIn` | src/fs_vfat.c:292-317 | the copy loop: how many clusters were added, which bytes were replaced, what stays; short only if the volume is full |
| `Fat.Volume.WritePlain` | src/fs_vfat.c:292-322 | and all is written iff there is room, and the chain on the disk is that in memory iff at most one cluster was added, whose number is no end of chain |
| `Fat.Volume.Write` | src/fs_vfat.c:263-323 | all bytes are written iff there is room; in every case each byte of the data area outside the directory is the last one written to it; exactly the slice of a file with distinct clusters is replaced; the chain on the disk is that in memory iff at most one cluster was added, whose number is no end of chain; the directory entry is stamped; the size is that of FatData.NewSize, room or not |
| `Fat.Volume.WriteInOrder` | src/fs_vfat.c:263-323 | with room, and at most one cluster more needed: all is written, file and directory are in order, and the size covers the bytes |
| `Fat.Volume.WriteThenRead` | src/fs_vfat.c:263-363 | reading then gives back what was written |
| `Fat.Committed` | src/fs_vfat.c:318-320 | the chain with the added clusters is the one on the disk iff one was added, and no number in it is an end of chain |
| `Fat.Volume.UpdateEntry` | src/fs_vfat.c:273-290 | exactly the date, time and size fields of the entry change |
| `Fat.StampedAt` | src/fs_vfat.c:236-249 | the entry has the date of access at 18, time and date of change at 22 and 24, the size at 28, least byte first, and every other byte as before |
| `Fat.LittleEndianIs` | src/fs_vfat.c:286-288 | the four bytes stand for the size |
| `Fat.Volume.Read` | src/fs_vfat.c:325-363 | exactly the slice asked for: within the file, as much as was asked for or up to its end; only the date of access changes |
| `Fat.Volume.ReadOut` | src/fs_vfat.c:344-360 | the copy loop of read |
| `ModuleGraph.TopologicalIfAcyclic` | src/main.c:365-413 | the order of a walk is topological iff no module in it is on a cycle |
| `ModuleGraph.DependentsNeverFirst` | src/main.c:390-413 | a finished walk has every module before its prerequisites iff no module in it needs another at all |
| `ModuleGraph.SeenClosed` | src/main.c:365-388 | a finished walk has reached all prerequisites of what it reached |
| `ModuleGraph.Leave` | src/main.c:384-387 | a module is started when its prerequisites have been, except those that depend on it |
| `Modules.Kernel.Init` | src/main.c:365-388 | terminates, cycles or not; each module reached is started once; it panics only for a missing required module |
| `Modules.Kernel.Start` | src/main.c:319-339 | succeeds iff no module wanted misses a requirement; then exactly the modules that the console and the test module (or all modules) depend on are started, each once, the console and its prerequisites first |
| `Modules.Kernel.Fini` | src/main.c:390-413 | terminates; each running module reached is stopped once, after its prerequisites |
| `Modules.Kernel.Stop` | src/main.c:341-342 | exactly the started modules are stopped, each once; each before its prerequisites iff none of them needs another |
| `Modules.Run` | src/main.c:319-342 | a whole run: what was wanted is started, each module once, unless a requirement is missing, and exactly that is stopped again |
| `Modules.Kernel.Resolve` | src/main.c:321-325 | every prerequisite is resolved to the first module of its name |
| `Modules.GraphNames` | src/main.c:352-363 | each required name and each name to load before has become the first module of that name |
| `Modules.NamesNeeded` | src/main.c:365-383 | a module needs another iff it names it in one list or the other, and misses one iff it requires a name that no module has |
| `Modules.Kernel.FindModule` | src/main.c:427-432 | the search gives the first module of a name, or none (see FindIsFirst) |
| `Modules.FindIsFirst` | src/main.c:427-432 | what is found has the name and no module before it has; nothing is found iff no module has the name |
| `ScanTable.RoundTrip` | scripts/scantable.py:147-202 | looking a code up in the encoding of a table gives what the table has for it |
| `ScanTable.GeneratedLooksUp` | scripts/scantable.py:147-202 | for every code, from the start of the table |
| `ScanTable.EncodeBytes` | scripts/scantable.py:199-200 | every number is below 256 iff the table is not empty |
| `ScanTable.GenerateTable` | scripts/scantable.py:172-202 | the loop builds the encoding; its assertion holds iff the table is not empty |
| `ScanTable.LookupTable` | scripts/scantable.py:147-170 | the Python look-up |
| `ScanTable.LookupScantable` | scripts/scantable.py:256-278 | the emitted C look-up points at the string that the Python look-up returns, with the top bit for escaped codes |
| `DieTree.Rebuilt` | scripts/elftools/dwarf/compileunit.py:126-147 | unflattening the listing of any tree raises no exception and rebuilds it: every entry's children in order, every parent link, no parent for the root |
| `DieTree.TreeBuilt` | scripts/elftools/dwarf/compileunit.py:137-147 | reading one subtree leaves the stack as it was, adds one child to its top and changes nothing before |
| `DieTree.UnflattenTree` | scripts/elftools/dwarf/compileunit.py:126-147 | the objects get exactly the links of the run on positions; an exception iff the stack underflows |
| `Semaphore.Balance` | src/locking.c:41-70 | under every interleaving the value is the initial value plus signals minus completed waits, modulo 2^32 |
| `Semaphore.ExactBalance` | src/locking.c:41-70 | exactly so while fewer than 2^32 units are in play |
| `Semaphore.OneByOne` | src/locking.c:41-70 | every thread has completed each wait that it began, and ended each signal that it gave, but for the one it is in |
| `Semaphore.MutexBalance` | src/include/hal.h:619-636 | if only holders release, value plus holders is always one |
| `Semaphore.MutualExclusion` | src/include/hal.h:619-636 | so a mutex never has two holders |
| `IntText.ConvertInt` | src/snprintf.c:81-119 | sign, padding zeros and digits, then a zero; no further byte of the buffer changes |
| `IntText.PrintedShape` | src/snprintf.c:93-118 | a minus iff negative, no zero in front beyond the precision, and all letters of the case asked for |
| `IntText.DigitCase` | src/snprintf.c:88-91 | the character of each digit |
| `IntText.TakeDigits` | src/snprintf.c:98-105 | the digits in reverse, for any 64-bit number, within the 32 bytes |
| `IntText.Strtoul` | src/stdlib.c:49-82 | the number of the longest run of digits after an optional prefix, in 32 bits, and its end |
| `IntText.DigitOfBase` | src/stdlib.c:3-30 | a character is a digit of a base iff its value is below it, for the bases 2, 8, 10 and 16 |
| `IntText.ParseParts` | src/stdlib.c:49-82 | a number with an optional prefix and anything behind it: its value and the end of its digits, with the base given or told from prefix and first digit |
| `IntText.NothingParsed` | src/stdlib.c:61-66 | without a base, a text that starts with no digit is not parsed |
| `IntText.Strtol` | src/stdlib.c:32-47 | the same with an optional minus |
| `IntText.UnsignedRoundTrip` | src/stdlib.c:49-82 | strtoul undoes convert_int for every 32-bit word, radix 8, 10 or 16, case and precision; at least `precision` digits are printed |
| `IntText.SignedRoundTrip` | src/stdlib.c:32-47 | strtol undoes convert_int for every signed 32-bit number |

## Left out

- Locks and interrupts around the allocators, the block cache and the page tables: calls run one at a time. In the block
  cache a page is in the table before its block has been read; that window is not modelled.
- 32-bit products: `num * 4096` in `src/pmm.c:118` is taken for fewer than 2^20 pages, and requests that round below 4096
  bytes are not made, as the bitmaps start at that order. Region sizes are below 2^44, where the bit counts have 32 bits.
- Callers free only what they hold, with the size they asked for; release only pages they got; and pass page aligned
  regions and sizes where the source's own FIXMEs ask for it.
- VirtualSpace.VmSpace: the mappings are a map from pages to frames, which MapRunAgrees and UnmapRunAgrees tie to the
  page tables; the frames that Paging.AddressSpace.Map takes for new page tables come from a pool of its own there, and
  are not taken from the physical zones here. The physical block behind the virtual allocator's own bitmaps is never
  freed, in the source either.
- KernelHeap.Heap.Kmalloc: the heap works on the virtual region; the frames that VirtualSpace.VmSpace.Alloc and Free map
  and unmap under its blocks are not followed through the heap. Header words are modelled, the callers' bytes are not.
  Requests of 2^31 bytes and more, for which the size class overflows, are excluded. Nothing is promised after a request
  that finds no room: the source writes a header through the failure value.
- SlabAllocator.Cache.Alloc: leaves out the optional initial contents of objects. Object sizes above 4096 are excluded,
  where SlabLayout.LayoutFits says the layout is wrong. A slab's bitmap and link are fields of an object, not bytes of
  the slab; that nothing else uses those bytes is SmallInside.
- SlabAllocator.Cache.Unlist: what the source reads through the null pointer at the end of the list is not modelled.
- HashTables.HashTable: a bucket chain is a sequence in walking order, not linked nodes; keys and data are not cut to 64
  bits.
- BlockCache.Group.Get: use counts do not wrap at 2^32; a failed allocation stops the kernel, so no state is promised.
  Pages are never written to the device, as the source has no writeback; `disk_cache_destroy` is left out because it does
  not repair the ends of the list, and a new group's list heads, which the source leaves unset, are taken as null.
- Fat.Volume: the table is a sequence of words and the data area a sequence of clusters; their addresses on the device and
  the block cache in between are left out. FAT12 stops the kernel at its first chain. Time stamps are parameters. A write
  starts at most one cluster past the end of the file, and a read stays in its clusters, which the source asserts.
- Page tables: TLB invalidation, accessed and dirty bits, copy-on-write reference counts, cloning of address spaces and
  the page fault entry.
- Semaphore: the queue of sleeping threads and so liveness; readers and writers locks, which do not exclude writers.
- Modules: what `init`, `fini` and `kmain` themselves do.
- ScanTable: reading the table files; strings without a zero are assumed, which the parser does not check.
- DieTree: parsing the entries; only their order and flags matter here.
- IntText: bases other than 8, 10 and 16 in printing; the format walk and field padding of `kvsnprintf`.
- FAT directories and names, the virtual file system, threads, devices, console, debugger and calendar conversion: mostly
  input and output, or code whose evident intent the source itself does not meet.
