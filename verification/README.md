# A verified model of the kernel's memory management and scheduler

This project models the parts of the kernel that keep state and must agree with something much
simpler: the free list and the heap built on it, the frame allocator, the page tables, the region
manager that ties table, page tables and frames together, and the scheduler's handover of tasks
between CPUs. Each part is given in the form the kernel has it (linked nodes, bitmaps, chained
table pages, per-CPU slots) and proved to compute a function on plain values; the promises of the
kernel are then theorems about those values, over every input, every run or every interleaving.

How the files fit together:

- `Prelude`: what most of the others need.
- `Align`, `Holes`, `Arenas`, `FreeList`, `Heap`, `SpareRegions`: rounding, the free list as an
  ordered sequence of holes, holes together with live blocks, the node headers linked through memory,
  the list of heap regions that grows and shrinks, and how many empty regions it holds on to.
- `Bitmap`, `MemoryMap`, `Frames`, `FrameSupply`, `FrameRuns`, `Zones`: frame bitmaps, the boot memory
  map, one zone, the contract by which the pager sees the zones, runs of requests under that
  contract, and the three zones behind one interface.
- `PageEntry`, `PageTable`, `AccessRights`, `Mapper`: the 64-bit entry codec, four-level tables in
  flat memory, what their flags let a page be used for, and the code that walks and changes them.
- `RegionTable`, `RegionRuns`, `RegionChain`: the region table as a tiling of its window, whole
  runs of calls on it, and the chain of table pages that stores it.
- `AddressSpace`, `Coupling`, `RegionManager`, `Regions`: mapping and unmapping whole regions with
  an account of every frame, the agreement of table and page tables, the manager itself, and the
  handles it gives out.
- `Traces`, `ManagerRuns`: runs of calls on the manager as sequences of states, with the theorems
  about all of them, and the proof that the manager's runs are such sequences.
- `HeapPages`, `HeapRuns`: the heap on the pages that the manager grants it, and whole runs of the
  two together.
- `TaskDirectory`, `Waiting`, `Scheduler`, `Handover`, `Safety`, `Progress`, `Reschedule`: pids and
  ready lists, waiting times, the scheduler as a transition system over its lock-protected sections,
  the invariant of every step, what no reachable state violates, who gets to run, and the slots of
  one CPU as an object whose methods are runs of that system.

How the model is set up:

- `align_down` is clearing low bits one by one; `Align.AlignDownIs` proves that this takes off the
  remainder. Addresses and sizes are unbounded naturals; the kernel's are numbers of 64 bits. Three
  places can wrap. The buffer arm of `contains` subtracts modulo 2^64 on ordinary input, and the
  model does the same. `align_up` and the sums of `expand_and_allocate` wrap only for sizes,
  alignments or addresses near 2^64: `Heap.WrapUpIff` and `Heap.WrappedSizeIff` say exactly when,
  and the methods of the heap require that it does not happen (`Heap.NoWrap`). A build with
  overflow checks panics in all three places instead of going on.
- The size of a heap region header and the number of entries per table page are parameters (a
  multiple of 8 below a page less one node, and at least 2).
- Page-table memory holds decoded entries. `PageEntry.DecodeIsInjective` and
  `PageEntry.DecodePack` show that nothing is lost by that.
- `create_next_table` does not clear the frame it installs. The methods that may create tables
  therefore require that free frames are clear at the time of the call (`FreshZeroed`), and
  `PageTable.InstallIsSilentIff` says for every level exactly when a frame may be installed as it
  is: for a leaf table nothing less than a clear frame will do (`PageTable.SilentLeafIffZeroed`).
  They also require that no huge entry lies on the walk. An allocation leaves the frames that are
  still free clear; frames that clients give back are not known to be. `Mapper.Overwrite` stands for
  anybody's writes outside the page tables, `Mapper.ClearFree` for the clearing that the kernel
  takes for granted; a run clears before an allocation when something was freed.
- Frames come from `FrameSupply.Supply`, which may hand out any frame its contract allows;
  `Zones.Zones` is proved to keep the same contract.
- A panic is a result (`ok == false`, `InUse`, `NoTable`, `Panic`, `Panicked`, `Stopped`). Where a call can only
  panic for a stated reason, the contract says so. The frames of a pool are counted by
  `Prelude.Card`, which is the set's size (`Prelude.CardIs`).
- When mapping a region runs out of frames, the kernel's rollback takes the page-table lock that
  its caller already holds. The model runs the rollback on the table that is held.
- In the scheduler, `image` is a record of what each task's registers were when it last executed
  anything. It exists so that "the context is saved" can be stated.

Where the code does not do what one would expect of it, the model follows the code, and a lemma
gives the exact condition: `Heap.RoutedIff` with `Heap.MisroutingIsReachable` and, for whole runs,
`Heap.AnchoredRun`; `Heap.WrappedSizeIff`; `PageEntry.FrameRoundTripIff`;
`PageEntry.PageTypeReadsBackIff`; `PageTable.InstallIsSilentIff`; `PageTable.ReachableIff`; the
constructor, `Reclaim` and `DeallocateFrame` of `Frames.PageFrameRegion`; and
`TaskDirectory.FailingTwiceMeansFull` with `TaskDirectory.FailureIsNotFullness`.

## Model

| member | source | states |
|---|---|---|
| `Align.AlignDownIs` | src/allocator/mod.rs:10-20 | clearing the bits below a power of two gives a multiple of it, namely the address less its remainder |
| `Align.AlignUp` | src/allocator/mod.rs:22-24 | the rounded address lies at or above the given one, by less than the alignment |
| `Align.AlignUpLeast` | src/allocator/mod.rs:22-24 | no multiple of the alignment lies between an address and its rounding |
| `Holes.AlignLayout` | src/allocator/free_list.rs:58-76 | the rounded layout can carry a node, has the smallest such size that is no smaller than asked for, and the larger of the two alignments |
| `Holes.AllocateFromHoleSound` | src/allocator/free_list.rs:173-233 | an accepted block is aligned and inside the hole, and the paddings on both sides are exactly the rest of the hole, each empty or large enough for a node |
| `Holes.AcceptableIffPlacement` | src/allocator/free_list.rs:173-233 | a hole is refused exactly when no legal placement exists anywhere in it, although only one address is tried |
| `Holes.LargeHoleIsAcceptable` | src/allocator/free_list.rs:173-233 | every hole of at least request + alignment + 24 bytes is accepted |
| `Holes.BoundIsTight` | src/allocator/free_list.rs:173-233 | with 8 bytes less a hole can be refused, for every alignment above 8 |
| `Holes.InsertSeparated` | src/allocator/free_list.rs:235-291 | giving a block back keeps the list strictly sorted, never touching, and every hole representable |
| `Holes.InsertCovers` | src/allocator/free_list.rs:235-291 | afterwards exactly the old free bytes and the block's own are free |
| `Holes.Canonical` | src/allocator/free_list.rs:235-291 | two separated lists that cover the same bytes are the same list |
| `Holes.CarveCovers` | src/allocator/free_list.rs:103-117 | taking a block out of a hole removes exactly its bytes and exactly its size |
| `Arenas.AllocKeeps` | src/allocator/free_list.rs:103-171 | allocation keeps holes and live blocks a tiling of the arena; the block is aligned, new, and in the lowest hole that has a legal placement; refusal means no hole has one |
| `Arenas.FreeKeeps` | src/allocator/free_list.rs:119-129 | freeing a live block keeps the tiling and removes just that block |
| `Arenas.LiveDetermines` | src/allocator/free_list.rs:103-129 | bounds and live blocks determine the whole list and both counters |
| `Arenas.FreeUndoesAlloc` | src/allocator/free_list.rs:103-129 | freeing the block just allocated gives back the identical list and counters |
| `Arenas.FreeOrderIsIrrelevant` | src/allocator/free_list.rs:119-129 | any two orders of the same frees leave the same list |
| `Arenas.RunKeeps` | src/allocator/free_list.rs:103-129 | over every run: sorted, separated, 8-aligned holes that tile the arena together with the live blocks; free plus allocated space is constant |
| `Arenas.RunIsCanonical` | src/allocator/free_list.rs:103-129 | any two runs that leave the same blocks live leave the same list; back at the initial live set, the initial list is back |
| `Arenas.HeadersOutsideBlocks` | src/allocator/free_list.rs:78-101 | no header in the list shares a byte with a live block |
| `FreeList.ClientWritesAreHarmless` | src/allocator/free_list.rs:293-308 | whatever clients write inside their blocks, the list in memory is still the same list |
| `FreeList.FreeList.constructor` | src/allocator/free_list.rs:78-101 | one node over the aligned buffer, with the counters of a new arena |
| `FreeList.FreeList.Allocate` | src/allocator/free_list.rs:103-117 | the linked form computes exactly the allocation on values, result, list and counters |
| `FreeList.FreeList.TailAllocate` | src/allocator/free_list.rs:153-171 | unlinks the first acceptable node and returns its split; changes nothing if there is none |
| `FreeList.FreeList.Deallocate` | src/allocator/free_list.rs:119-129 | the linked form computes exactly the free on values |
| `FreeList.FreeList.DeallocateFromHoleInfo` | src/allocator/free_list.rs:235-291 | the loop over linked nodes inserts the block and merges it on both sides; its "Invalid deallocation" assertion holds at every turn |
| `Heap.RegionSize` | src/allocator/simple_allocator.rs:150-182 | the size asked of the pager is whole pages and at least the minimum |
| `Heap.RegionSizeIsTight` | src/allocator/simple_allocator.rs:150-177 | it asks for the minimum, or for less than a page more than header, block, alignment and the nodes on both sides need |
| `Heap.WrapUpIff` | src/allocator/mod.rs:22-24 | rounding up modulo 2^64 is rounding up exactly if the sum in it stays below 2^64 |
| `Heap.WrappedSizeIff` | src/allocator/simple_allocator.rs:150-182 | the size computed modulo 2^64 is the size meant exactly if that one is a number of 64 bits |
| `Heap.PlacingDoesNotWrap` | src/allocator/free_list.rs:173-233 | with the bound on a request, no sum made while a hole of any region is tried reaches 2^64 |
| `Heap.GrowthNeverFails` | src/allocator/simple_allocator.rs:150-209 | for every layout and every page-aligned start the planned region takes the request, aligned, so the `expect` is unreachable |
| `Heap.HeapAllocKeeps` | src/allocator/simple_allocator.rs:31-56 | what the heap returns is aligned and new, regions stay disjoint and valid; it returns nothing only if no region has room and no pages were granted |
| `Heap.ClaimsForeignIff` | src/allocator/simple_allocator.rs:227-242 | a region claims a block of another region exactly when it is the boot buffer and the block lies above it |
| `Heap.RoutedIff` | src/allocator/simple_allocator.rs:86-114 | a free reaches the issuing region if and only if no boot buffer that ends below the block stands before that region in the list |
| `Heap.MisroutingIsReachable` | src/allocator/simple_allocator.rs:58-84 | with pages granted above the buffer, four ordinary calls reach a state where a free finds the wrong region |
| `Heap.NoBufferNoFault` | src/allocator/simple_allocator.rs:58-114 | without a boot buffer every free of every run reaches its region |
| `Heap.AnchoredRun` | src/allocator/simple_allocator.rs:31-114 | over every run, whatever pages are granted: as long as one block of the boot buffer is kept, every free reaches its region, and the regions stay valid and disjoint |
| `Heap.KeepingTheFirstBlock` | src/allocator/simple_allocator.rs:31-114 | a heap that boots and never frees its first block loses no other free, over every run |
| `Heap.HeapFreeKeeps` | src/allocator/simple_allocator.rs:58-114 | a routed free removes exactly its block from the live set and keeps the regions valid, whether the region stays, moves to the front or goes |
| `Heap.BlocksAreApart` | src/allocator/simple_allocator.rs:17-29 | live blocks, of one region or of two, never share a byte |
| `Heap.TotalsAreSums` | src/allocator/simple_allocator.rs:116-148 | the reported totals are the sizes of all live blocks and of all holes |
| `Heap.RunKeeps` | src/allocator/simple_allocator.rs:31-148 | over every run in which no free went astray: regions valid and disjoint, the boot buffer still there |
| `Heap.HeapRegionList.constructor` | src/allocator/simple_allocator.rs:326-379 | the heap starts as the boot buffer alone |
| `Heap.HeapRegionList.Alloc` | src/allocator/simple_allocator.rs:31-36 | the list object computes the allocation on values, and refuses layouts that do not fit the address space; 64-bit arithmetic gives the same sizes |
| `Heap.HeapRegionList.DoAllocate` | src/allocator/simple_allocator.rs:38-56 | the first region with room serves the request; otherwise nothing changes |
| `Heap.HeapRegionList.ExpandAndAllocate` | src/allocator/simple_allocator.rs:150-209 | the granted region goes to the front with the request carved from it, aligned; the `expect` holds, with the size computed modulo 2^64 |
| `Heap.HeapRegionList.Deallocate` | src/allocator/simple_allocator.rs:58-114 | the list object computes the free on values, which `Heap.HeapFreeKeeps` and `SpareRegions.GivenBackIff` describe, and fails exactly where the value form is misrouted |
| `SpareRegions.GivenBackIff` | src/allocator/simple_allocator.rs:58-84 | a region leaves the list exactly if the free took its last block, it is not the boot buffer, and it is larger than a region need be or the other regions have the reserve between them |
| `SpareRegions.OneSpareFromBoot` | src/allocator/simple_allocator.rs:58-84 | in every run from boot at most one region other than the buffer has no live block |
| `Heap.HeapRegionList.ReportFreeSpace` | src/allocator/simple_allocator.rs:116-131 | the walk adds up the free space of all regions |
| `Heap.HeapRegionList.ReportAllocatedSpace` | src/allocator/simple_allocator.rs:133-148 | the walk adds up the allocated space of all regions |
| `Bitmap.SetBit` | src/physmem/frame_database.rs:6-18 | one bit of the map changes, every other reads as before |
| `Bitmap.LowestOneBit` | src/physmem/frame_database.rs:28-37 | the lowest set bit of a byte, or none exactly for zero |
| `MemoryMap.CountIsSizeIff` | src/physmem/frame_database.rs:138-164 | counting frames span by span is right exactly when no frame lies in two spans |
| `MemoryMap.DisjointMapDisjointSpans` | src/physmem/frame_database.rs:44-98 | a map whose regions do not overlap gives spans that do not, aligned or not |
| `Zones.ReclaimableIsNotUsable` | src/physmem/frame_database.rs:100-110 | no frame of a map without overlaps is both usable and reclaimable |
| `MemoryMap.FindAvailableLimit` | src/physmem/frame_database.rs:116-127 | every usable and every reclaimable span ends at or before the result, and some span ends there |
| `MemoryMap.FrameInSpansIff` | src/physmem/frame_database.rs:54-97 | a frame of a zone is in the spans that its loops run through exactly if it is not among the first sixteen and some region of the kind asked for lists it, by page numbers alone |
| `Zones.FramesAreListed` | src/physmem/frame_database.rs:90-110 | the three zones together have exactly the frames from the sixteenth on that a usable region lists, and of the five kinds that are reclaimed likewise |
| `Frames.PageFrameRegion.constructor` | src/physmem/frame_database.rs:138-164 | bitmap and counters are those of the usable frames exactly when the map lists no frame twice |
| `Frames.PageFrameRegion.Reclaim` | src/physmem/frame_database.rs:186-206 | the assertion holds exactly if no reclaimable frame is listed twice or free already; then exactly the reclaimable frames are added, and all is right exactly if none was handed out |
| `Frames.PageFrameRegion.AllocateFrame` | src/physmem/frame_database.rs:216-238 | hands out the lowest free frame, fails only when none is free, and keeps bitmap and counters equal to the sets |
| `Frames.PageFrameRegion.DeallocateFrame` | src/physmem/frame_database.rs:240-247 | goes through exactly for a frame of the zone that the bitmap reaches, with some frame in use; the counters stay right exactly when the frame had been handed out |
| `Zones.AllocRegion` | src/physmem/frame_database.rs:166-184 | the bitmap sized for the map reaches every frame that `new` sets and every frame that `reclaim` sets later; the counters are right exactly if no usable frame is listed twice |
| `Zones.LowRegion` | src/physmem/frame_database.rs:280-296 | the low zone starts with exactly the usable frames of its range, in order exactly if the map lists none twice, and its static bitmap reaches every frame set later |
| `Zones.Zones.constructor` | src/physmem/frame_database.rs:298-307 | the normal and high zones join the low one, whatever has been taken from it, and start with exactly the usable frames of their ranges; the three are in order exactly if the low one was and the map lists no frame of the others twice |
| `Zones.Zones.InitReclaim` | src/physmem/frame_database.rs:309-313 | no assertion fails exactly if no reclaimable frame is listed twice or free; exactly these frames are added; the zones are in order afterwards exactly if none was in use |
| `Zones.ServeEarly` | src/physmem/frame_database.rs:315-341 | while the other zones are not there, every request comes to the low zone and is answered from it: each step takes a free frame, refuses only when there is none, or gives back the frame named |
| `Zones.InitMemory` | src/init.rs:24-79 | the boot order: make the low zone, serve any sequence of requests and returns from it alone, make the other zones, serve any sequence from all three, reclaim: on a map without overlaps nothing panics, every request is answered as the pools of that moment allow, the frames are exactly those from the sixteenth on that a usable region or one of the five kinds to be reclaimed lists, none is free and used at once, the frames in use are exactly those handed out and not returned, and none is handed out while it is |
| `Zones.ServeAll` | src/physmem/mod.rs:67-90 | any sequence of requests and returns is answered one by one, each as the contract of the pager demands |
| `FrameRuns.HeldIsOutstanding` | src/physmem/mod.rs:67-90 | counting along the answers, a frame is held exactly if it was handed out, or held at the start, and not returned since |
| `FrameRuns.FramesInHistory` | src/physmem/mod.rs:67-90 | in every run no frame is lost, the frames in use are exactly those outstanding, and none is handed out while it is |
| `FrameRuns.HistoriesJoin` | src/physmem/mod.rs:67-90 | the same for a run that goes on where another ended, with more frames in the pool |
| `Zones.Zones.IssuerByNumber` | src/physmem/mod.rs:82-90 | the dispatch by frame number finds the zone that issued the frame |
| `Zones.Zones.PoolIsSound` | src/physmem/mod.rs:55-65 | no frame is free and used at once in whichever zones |
| `Zones.Zones.AllocateKernelFrame` | src/physmem/mod.rs:67-73 | normal before low, lowest first, never a frame above 4 GiB; fails exactly when both are empty; keeps the pager's contract |
| `Zones.Zones.AllocateUserFrame` | src/physmem/mod.rs:75-80 | high before normal before low, lowest first; fails exactly when no frame is free anywhere; free and used are conserved; keeps the pager's contract |
| `Zones.Zones.DeallocateFrame` | src/physmem/mod.rs:82-90 | a frame that was handed out goes back to the zone that issued it and to no other; for any other frame, the exact condition under which the code panics, and that the counters are wrong afterwards if it does not |
| `PageEntry.UnpackPack` | src/paging/page_entry.rs:117-144 | frame, flags and counter of a packed entry read back, and it is present |
| `PageEntry.EntryLayout` | src/paging/page_entry.rs:83-132 | which bits of a present entry hold the frame, the counter and the flags, by position |
| `PageEntry.FrameRoundTripIff` | src/paging/page_entry.rs:117-140 | the frame number reads back exactly when it has at most 40 bits |
| `PageEntry.PackUnpack` | src/paging/page_entry.rs:117-144 | every present word is the packing of its three fields |
| `PageEntry.PageTypeReadsBackIff` | src/paging/page_entry.rs:242-260 | a not-present entry reads back its page type exactly when that is not the guard page's, which reads as unused but is not the unused word |
| `PageEntry.FieldsReadBack` | src/paging/page_entry.rs:242-280 | flags, frame and counter of a not-present entry read back whatever its type |
| `PageEntry.GuardWordIsPacked` | src/paging/page_entry.rs:306-319 | the guard page's word is not present and not unused |
| `PageEntry.DecodePack` | src/paging/page_entry.rs:117-144 | decoding a packed word gives the fields it was packed from |
| `PageEntry.DecodeIsInjective` | src/paging/page_entry.rs:22-47 | no two words decode alike |
| `PageTable.IndicesByPage` | src/paging/table.rs:93-107 | the four shifts and truncations of an address depend on its page number alone |
| `PageTable.IndicesAreInjective` | src/paging/table.rs:93-107 | the four indices together determine the 36-bit page number |
| `PageTable.ReachableIff` | src/paging/mod.rs:188-191 | an object in a frame below 4 GiB can be reached through the identity map unless it fills the last such frame |
| `PageTable.PokeLeafChangesOnePage` | src/paging/mapper.rs:109-162 | writing a leaf entry changes what one page reads and no other, in every tree of unshared tables |
| `PageTable.InstallKeepsReads` | src/paging/table.rs:166-188 | installing a clear frame as a table leaves what every page reads as it was |
| `PageTable.InstallIsSilentIff` | src/paging/table.rs:178-184 | at every level, installing a frame as it is changes no page's entry if and only if no walk from that frame finds anything |
| `PageTable.SilentLeafIffZeroed` | src/paging/table.rs:178-184 | for a leaf table that is, if and only if the frame is clear |
| `PageTable.TablesDecide` | src/paging/table.rs:190-208 | what memory holds besides the page tables changes neither the tree nor what any page reads |
| `PageTable.LookupAtTable` | src/paging/mapper.rs:83-97 | the entry that the walk's tables lead to is the one the page reads |
| `AccessRights.LeafDecides` | src/paging/mapper.rs:83-97 | a right counts only if every level of the walk grants it; where the tables take none away, a page may be written, executed and used by users exactly as its own entry says |
| `AccessRights.InstallKeepsOpen` | src/paging/table.rs:166-189 | the tables that the kernel makes take no right away |
| `Mapper.Mapper.CreateNextTable` | src/paging/table.rs:166-188 | the next table exists afterwards, no page reads differently, and only that table's frame was taken; it panics only if no kernel frame is left or the last one below 4 GiB came out |
| `Mapper.Mapper.CreatePte` | src/paging/mapper.rs:99-107 | the leaf table is there and every page reads as before; at most three frames were taken, also when it panics |
| `Mapper.Mapper.MapTo` | src/paging/mapper.rs:109-121 | the page-to-entry map changes at one page only, with at most three frames taken; it stops at a page in use, or for want of a frame for a table, and the result says which |
| `Mapper.Mapper.SetNotPresent` | src/paging/mapper.rs:147-153 | likewise for a not-present entry |
| `Mapper.Mapper.Walk` | src/paging/mapper.rs:83-97 | the walk ends at the page's leaf table, or the page reads as unused |
| `Mapper.Mapper.Unmap` | src/paging/mapper.rs:123-137 | the page reads as unused, every other as before; its frame goes back exactly when asked for and present |
| `RegionTable.TilingIsInOrder` | src/paging/heap_region.rs:133-160 | entries of a tiling are page aligned, in order and without overlap |
| `RegionTable.TilingHasNoGap` | src/paging/heap_region.rs:133-160 | every byte of the window lies in an entry |
| `RegionTable.AllocateKeeps` | src/paging/heap_region.rs:183-259 | first fit keeps the tiling without neighbouring free entries and adds one live region at the start of the first entry that fits |
| `RegionTable.FreeKeeps` | src/paging/heap_region.rs:452-546 | freeing with merges on both sides keeps the tiling and removes just that region |
| `RegionTable.LiveDetermines` | src/paging/heap_region.rs:183-259 | two tables over one window with the same live regions are the same table |
| `RegionTable.FreeUndoesAllocate` | src/paging/heap_region.rs:199-247 | freeing the region just allocated gives back the identical table |
| `RegionTable.NothingLive` | src/paging/heap_region.rs:138-160 | with nothing live the table is its initial single entry |
| `RegionRuns.RunKeeps` | src/paging/heap_region.rs:162-259 | every run of allocations and frees keeps the tiling |
| `RegionRuns.RunIsCanonical` | src/paging/heap_region.rs:162-259 | two runs that leave the same regions live leave the same table |
| `RegionRuns.ReleaseAll` | src/paging/heap_region.rs:452-546 | freeing a list of regions goes through exactly if they are live and distinct, and removes exactly them |
| `RegionRuns.ReleaseOrderIsIrrelevant` | src/paging/heap_region.rs:452-546 | the order of frees does not matter; freeing all leaves one free entry |
| `RegionChain.Chain.constructor` | src/paging/heap_region.rs:138-160 | one page holding one free entry |
| `RegionChain.Chain.FindFit` | src/paging/heap_region.rs:183-197 | the scan over pages finds the first entry that fits; an untyped entry is met only on the last page |
| `RegionChain.Chain.ShuffleEntriesUp` | src/paging/heap_region.rs:261-293 | exactly insertion at an index of the flat table, across any number of pages; a page is added, from the one spare frame, exactly when every slot was taken |
| `RegionChain.Chain.ShuffleEntriesDown` | src/paging/heap_region.rs:548-583 | exactly removal at an index; at most the last page goes, and its frame is returned |
| `RegionChain.Chain.FindStop` | src/paging/heap_region.rs:452-490 | the scan of a free stops at the first entry that starts at the address or is free and ends there |
| `AddressSpace.Space.MapNonpaged` | src/paging/heap_region.rs:317-371 | every page is backed by a frame of its own; or page map and ownership are as before, and there were fewer free frames than the pages and the tables made for them take, and fewer than four for each page |
| `AddressSpace.Space.MapKernelStack` | src/paging/heap_region.rs:373-405 | the lowest page becomes the guard, the others are backed; or everything is as before, and there were too few frames |
| `AddressSpace.Space.MapPhysical` | src/paging/heap_region.rs:407-446 | consecutive pages map consecutive frames and own none; it stops only for want of a frame for a table, having taken at most three frames for each page |
| `AddressSpace.Space.MapRegion` | src/paging/heap_region.rs:295-315 | afterwards the pages look as the kind demands and nothing else differs; out of memory only with too few frames, and never for a physical mapping; it panics only for want of a frame for a table, so the "unused" assertion never fires |
| `AddressSpace.Space.UnmapNonpaged` | src/paging/heap_region.rs:604-628 | exactly the pages of the range become unused and lose their owners |
| `AddressSpace.Space.UnmapRegion` | src/paging/heap_region.rs:585-602 | heap and stack pages give back their frames, a physical mapping gives back none |
| `AddressSpace.AllSpent` | src/paging/heap_region.rs:317-371 | when no frame is left, there were no more than the pages backed and the tables made |
| `Coupling.CoupledAllocate` | src/paging/heap_region.rs:199-247 | mapping the front of a free entry agrees with carving it off in the table |
| `Coupling.CoupledFree` | src/paging/heap_region.rs:496-537 | clearing a region's pages agrees with freeing and merging it in the table |
| `Coupling.PageUse` | src/paging/heap_region.rs:295-446 | a page of the window is unused exactly in a free entry, owned exactly in a heap region or above a stack's guard, and a guard is neither unused nor present; an owned page maps its frame, writable, for the kernel alone and not executable; a page of a physical mapping maps the frame due, read-only and uncached as asked |
| `RegionManager.Manager.constructor` | src/paging/heap_region.rs:138-160 | the whole invariant holds of a manager over an unused window |
| `RegionManager.Manager.AllocateRegion` | src/paging/heap_region.rs:162-259 | first fit on the flat table, with pages mapped and frames accounted for; nothing differs but the pages of the new region, and free frames stay clear; out of space exactly when nothing fits, out of memory only with too few frames; a failure leaves table, page map and ownership as they were; it panics only for want of a frame for a page table; with room and enough frames it succeeds |
| `RegionManager.PlentyIsEnough` | src/paging/heap_region.rs:162-259 | more than four kernel frames for each page and four more rule out both running out of memory and a panic |
| `RegionManager.Manager.InsertAfter` | src/paging/heap_region.rs:261-293 | an entry is inserted, and the frame in hand ends up behind a new table page or back in the pool; whichever kernel frame it is, the page can be written into it |
| `RegionManager.Manager.DeallocateRegion` | src/paging/heap_region.rs:448-546 | goes through exactly for a live region; the entry merges with its neighbours, on whatever table page; nothing differs but the pages of that region, which exactly lose their owner |
| `RegionManager.Manager.TableFramesHeld` | src/paging/heap_region.rs:77-106 | table frames held are chain pages minus one |
| `RegionManager.Manager.EverythingReturned` | src/paging/heap_region.rs:448-583 | with every region freed: one entry, one table page, no owned page, and no frame in use but page tables and what belongs to others |
| `ManagerRuns.Serve` | src/paging/heap_region.rs:162-259 | one request does what `Traces.Transition` says of it and its reply, and keeps the invariant; where the kernel stops, the request broke an assertion, found no frame for a table, or named no live region |
| `ManagerRuns.ServeAll` | src/paging/heap_region.rs:162-583 | every run of clearing, allocating and freeing is a trace of its requests and replies: each state meets the invariant and follows from the one before by the request and the reply; a run that ends early has a next request that stops the kernel |
| `Traces.PlentyIsGranted` | src/paging/heap_region.rs:162-204 | enough frames and a fitting entry mean that the kernel does not stop and the region is granted |
| `Traces.KeptBetween` | src/paging/heap_region.rs:162-583 | between any two moments of a run no frame is lost, every region that no request in between drops keeps its place, its pages and its frames, and no page outside the window changes |
| `Traces.LiveInTrace` | src/paging/heap_region.rs:162-583 | the live regions are those granted and not dropped, computed from requests and replies alone |
| `Traces.TraceIsCanonical` | src/paging/heap_region.rs:162-583 | two runs after which, by their requests and replies, the same regions are live have the same table |
| `Traces.TraceIsRun` | src/paging/heap_region.rs:162-583 | the table takes the steps of a run of the flat table, one for each request to allocate or free |
| `Traces.GrantTakes` | src/paging/heap_region.rs:317-371 | the frames behind a region just granted were free before |
| `Traces.FreeReturns` | src/paging/heap_region.rs:604-628 | the frames that lose their owner when a region is freed are those behind its pages, and they are free again |
| `Traces.WhileHeld` | src/paging/heap_region.rs:162-583 | from its grant until it is dropped a region is live with the frames it was granted, which were free before and are as many as its kind needs |
| `Traces.Lifetime` | src/paging/heap_region.rs:162-583 | whatever is asked for between grant and free: the free does not stop the kernel, and what leaves `owned` and goes back to the pool is exactly what the region was granted |
| `HeapPages.GrantIsNew` | src/allocator/simple_allocator.rs:181-203 | if the heap's regions are live heap entries of the table and its buffer lies outside the window, any free entry's pages are new to the heap |
| `HeapPages.KernelHeap.constructor` | src/allocator/simple_allocator.rs:326-379 | a heap of the boot buffer alone and the manager beside it |
| `HeapPages.KernelHeap.Alloc` | src/allocator/simple_allocator.rs:31-56 | the manager is asked exactly if no region has room, and a region then grows on what it grants, which is what the heap expects of a grant; nothing is returned exactly if it refused, for lack of addresses or of frames; a panic means no frame for a table was left; with enough frames and a fitting entry there is a block; the other entries of the table stay |
| `HeapPages.KernelHeap.Dealloc` | src/allocator/simple_allocator.rs:58-114 | the heap computes the free on values; exactly when a region leaves the list its entry leaves the table, its pages become unused and its frames go back; the other entries of the table stay |
| `HeapRuns.ServeAll` | src/allocator/simple_allocator.rs:31-203 | every run of allocations and frees on the manager's pages is a story of its calls: each moment meets the joint invariant and follows from the one before by the call, its result and the manager's answer; a run that ends early has a next call that stops the kernel, for a stated reason |
| `HeapRuns.NothingLeaks` | src/allocator/simple_allocator.rs:31-203 | in every run the live entries of the manager are those of others and those of the heap's regions, and nothing else; others keep their pages and their frames; no frame is lost |
| `HeapRuns.HeldInStory` | src/allocator/simple_allocator.rs:31-114 | the live blocks are those handed out and not released, computed from calls and results alone, and none is handed out while it is live |
| `HeapRuns.StoryIsHeapRun` | src/allocator/simple_allocator.rs:31-114 | the heap takes the legal steps of a run of `Heap`, so the theorems about those hold with grants that come from the manager |
| `HeapRuns.AnchoredStory` | src/allocator/simple_allocator.rs:58-114 | as long as one block of the boot buffer is kept, no free of another block goes astray in any run on the manager's pages |
| `HeapRuns.LeanInStory` | src/allocator/simple_allocator.rs:58-84 | in every run on the manager's pages at most one region other than the buffer has no live block |
| `HeapRuns.AllReleased` | src/allocator/simple_allocator.rs:58-84 | once everything handed out is released, the manager's table holds the entries of others and at most one of the heap |
| `HeapRuns.BlockIsBacked` | src/paging/heap_region.rs:317-371 | every byte of a live block outside the boot buffer lies on a page that maps a frame of its own, writable, for the kernel alone and not executable |
| `Regions.ApplyOffset` | src/paging/heap_region.rs:649-658 | a part of a region lies inside it and still stands for the whole |
| `Regions.MapPhysicalMemory` | src/paging/heap_region.rs:713-733 | for every address of at most 52 bits and every size, each byte of the returned region translates to the physical byte asked for, on a page that is writable exactly if not read-only and uncached exactly if asked, always global, never executable, open to users or huge; the table, the frames and all other pages are as first fit leaves them; no space exactly when the pages touched fit nowhere, no memory only without a kernel frame, a panic only for want of a frame for a table; with enough frames it succeeds |
| `Regions.WalkTranslates` | src/paging/mapper.rs:83-89 | what the page map says a walk of the tables in memory finds |
| `Regions.WalkGrants` | src/paging/mapper.rs:83-89 | what the page map says a page may be used for is what the processor finds on its walk, unless a table that was there before takes a right away |
| `Regions.DropRegion` | src/paging/heap_region.rs:687-692 | dropping a part frees the whole region behind it and touches no other page; no frame is lost, and exactly the frames behind pages no longer owned and table pages no longer there go back, so none of a physical mapping's own |
| `TaskDirectory.GenerateIsSound` | src/scheduler/task.rs:57-91 | a pid is new and in its own range; there is none exactly if everything from the start of the search to the end of the range is taken |
| `TaskDirectory.FailingTwiceMeansFull` | src/scheduler/task.rs:57-91 | a second failure in a row happens exactly when the range is full |
| `TaskDirectory.FailureIsNotFullness` | src/scheduler/task.rs:75-85 | a first failure can happen with pid 0 free |
| `TaskDirectory.SequentialStep` | src/scheduler/task.rs:57-107 | as tasks are never removed, pids come out one after the other, and then a failure means a full range |
| `TaskDirectory.TaskDirectory.GenerateSystemPid` | src/scheduler/task.rs:58-73 | the downward loop stays in its range, because the range's end is never a key, and computes the search |
| `TaskDirectory.TaskDirectory.GenerateUserPid` | src/scheduler/task.rs:74-90 | the same for the upward loop |
| `TaskDirectory.TaskDirectory.CreateTask` | src/scheduler/task.rs:93-107 | a new task under a new pid, or the directory with only its counter moved |
| `TaskDirectory.TaskDirectory.AddToReadyList` | src/scheduler/task.rs:109-118 | goes through exactly for a ready task, which becomes the last of its own priority's list |
| `TaskDirectory.TaskDirectory.FindNextTask` | src/scheduler/task.rs:120-140 | the nested loops compute the search on values, which `TaskDirectory.ChoiceByPriority` describes |
| `TaskDirectory.FindNextIsBest` | src/scheduler/task.rs:120-140 | the result is the earliest-queued eligible task of the highest priority that has one and is not below the current; none exactly if there is none |
| `TaskDirectory.ChoiceByPriority` | src/scheduler/task.rs:120-140 | while a normal task runs the answer is a normal task, else a normal one if any may run here and an idle one only if none may; it is the one that has waited longest of its priority; there is none exactly if nobody like that waits, and just that task leaves its list |
| `TaskDirectory.PushByPriority` | src/scheduler/task.rs:109-118 | a task is queued behind all others of its own priority, so lists hold tasks of one priority |
| `Waiting.BoundedWait` | src/scheduler/task.rs:109-140 | an unpinned task at place k of the normal list is the answer to one of the next k + 1 requests, whichever CPUs ask and whatever is queued meanwhile |
| `Waiting.WaitIsExact` | src/scheduler/task.rs:109-140 | the bound cannot be lowered: behind k unpinned tasks, k requests do not reach it |
| `Handover.EnqueueKeeps` | src/scheduler/task.rs:109-118 | a task enters a list only when ready and with its context saved, and its assertion holds |
| `Handover.TakeKeeps` | src/scheduler/task.rs:120-140 | a task leaves its list for the one CPU that may run it |
| `Handover.ChosenKeeps` | src/scheduler/reschedule.rs:29-36 | the slots are exchanged; "Task switch already in progress" does not fire |
| `Handover.InstalledKeeps` | src/scheduler/reschedule.rs:38-47 | the incoming task is ready when it is marked running |
| `Handover.PreparedKeeps` | src/scheduler/arch_context.rs:72-117 | the switch leaves the outgoing task's registers in its block and loads the other's |
| `Handover.SwitchedKeeps` | src/scheduler/reschedule.rs:49-52 | the outgoing task is there to be taken |
| `Handover.RetiringKeeps` | src/scheduler/task.rs:206-213 | the outgoing task is running when it is marked ready |
| `Handover.StepKeeps` | src/scheduler/reschedule.rs:18-80 | every step of every CPU keeps the invariant, and none panics |
| `Safety.NeverPanics` | src/scheduler/task.rs:206-325 | no assertion of the scheduler fails in any interleaving of any number of CPUs |
| `Safety.OneControlEach` | src/scheduler/reschedule.rs:29-79 | every started task has exactly one control block, in exactly one ready list, slot or hand |
| `Safety.NewHasNone` | src/scheduler/task.rs:288-325 | a task not yet started has no control block |
| `Safety.RunsInOnePlace` | src/scheduler/reschedule.rs:29-79 | no task runs on two CPUs, a pinned one only on its own, and whoever runs sees the registers it last had |
| `Safety.ListedIsSafe` | src/scheduler/task.rs:109-118 | a listed task is ready, on the list of its priority, run by nobody, and has its context saved |
| `Safety.OnlyOwnRegisters` | src/scheduler/arch_context.rs:72-117 | the registers recorded for a task change only by its own execution or its own start |
| `Safety.PidsInEveryRun` | src/scheduler/task.rs:57-107 | in every reachable state the next pid is new and in its own range, and there is none only when the range is used up |
| `Reschedule.CurrentTask.PrepareTaskSwitch` | src/scheduler/reschedule.rs:29-47 | the method is two steps of the transition system, and fails exactly where one of them panics |
| `Reschedule.CurrentTask.CompleteTaskSwitch` | src/scheduler/reschedule.rs:49-54 | the method is three steps, and goes through exactly with a running outgoing task |
| `Reschedule.CurrentTask.Reschedule` | src/scheduler/reschedule.rs:56-80 | if nobody better waits nothing happens; otherwise the task that should run is current with its own registers loaded, and the one that was waits last on the list of its priority with the registers it had; the exact condition under which an assertion fails; in steps of the system it is one or seven |
| `Progress.ChoosesNext` | src/scheduler/reschedule.rs:56-62 | in every reachable state a CPU that looks for a task takes the one that should run exactly if one better than its current task waits, and else goes on as it was |
| `Progress.ChosenRuns` | src/scheduler/reschedule.rs:29-80 | a task that a CPU has chosen runs there with the registers in its block after six more steps of that CPU, whatever steps the other CPUs take in between |
| `Progress.SpawnSteps` | src/scheduler/task.rs:248-326 | spawning makes a normal task that may run anywhere, with a user pid, exactly if one is left; it becomes ready with the context given and is queued last of its priority |
| `Progress.BootSteps` | src/scheduler/task.rs:233-306 | starting a CPU makes an idle task pinned to it, with a system pid, exactly if one is left; it becomes the current task with the registers the CPU has |
| `Progress.KindsInEveryRun` | src/scheduler/task.rs:233-261 | in every reachable state a normal task has a user pid and no CPU of its own, an idle task a system pid and one |

## Left out

- Device drivers, ACPI, interrupt and descriptor tables, serial and screen output, boot order: hardware access with no state worth a theorem.
- TLB flushing and inter-processor interrupts: flushing is a no-op here.
- The boot mapping, the identity mapping and thread control blocks (`src/paging/mod.rs`): they depend on the boot loader; only the address bound of `phys_to_virt_addr` is kept.
- Spin locks and `InitMutex`: each locked section is one step; of the calls before initialisation, only those to the frame zones are modelled.
- The assembly of `do_switch` and the trampolines: one step that saves one context and loads another.
- What follows a resumed `switch_to`: the code there is unfinished and panics, so a task's life after its return to `reschedule` is not described; the model ends at `complete_task_switch` and lets the task execute on.
- The kernel stack that `spawn` allocates for a new task, and a failure to get one: such a call makes no task.
- Updates of the heap region list in place: `Heap` holds each region's free list as a value; `FreeList` shows that the linked nodes compute that value, but region nodes linked through their own memory are not modelled.
- The page type of not-present entries is not used for anything but the guard page.
- RegionManager.Manager.AllocateRegion: requires at least one page, two for a stack, as the kernel's debug assertions do, and clear free frames, which the kernel does not ensure.
- Zones.Zones.constructor: requires a memory map within 52 bits of physical address.
- FreeList.FreeList.constructor: requires a limit that is a multiple of 8, as the page-aligned buffers and regions of the kernel have, because holes of the model end on multiples of 8.
- Heap.HeapRegionList.Alloc: requires that no sum made for the request reaches 2^64; beyond that the kernel asks for too little or panics.
- Heap.HeapRegionList.ExpandAndAllocate: requires that the region size is a number of 64 bits, likewise.
- Mapper.Mapper.MapTo: requires a frame number of at most 40 bits, which is all an entry holds; `PageEntry.FrameRoundTripIff` shows that a larger one does not read back.
- Mapper.Mapper.CreateNextTable: requires that the kernel frames it may be given are clear; `PageTable.InstallIsSilentIff` says what happens with others.
- Mapper.Mapper.CreatePte: requires clear frames likewise, and that no huge entry lies on the walk.
- AddressSpace.Space.MapNonpaged: requires clear frames likewise.
- AddressSpace.Space.MapKernelStack: requires clear frames likewise.
- AddressSpace.Space.MapPhysical: requires clear frames likewise.
- AddressSpace.Space.MapRegion: requires clear frames likewise.
- HeapRuns.ServeAll: ends the run where a request's sums would reach 2^64, where a block is released that is not held, and where a free goes astray; what the kernel does after that is not modelled.
- Zones.ServeAll: a return of a frame that nobody holds is not made; `Zones.Zones.DeallocateFrame` says what it would do.
- HeapPages.KernelHeap.Alloc: requires clear frames likewise, and that no sum made for the request reaches 2^64.
- Mapper.Mapper.Unmap: requires that a frame to give back is one that was handed out, and that no huge entry lies on the walk.
- Mapper.Mapper.Walk: requires that no huge entry lies on the walk; the kernel would take the huge page for a table.
- Mapper.Mapper.SetNotPresent: requires that no huge entry lies on the walk, as `MapTo` does.
- Mapper.Mapper.MapTo: requires that no huge entry lies on the walk; the kernel's own test for that is in a branch that huge entries do not reach.
- Regions.MapPhysicalMemory: requires physical addresses of at most 52 bits, as an entry holds no more, and a non-zero size or an unaligned address, as a region of no pages fails the kernel's debug assertion.
- Heap.RunKeeps: speaks of runs in which no free went astray. `Heap.RoutedIff` says exactly which frees do; `Heap.AnchoredRun` and `Heap.NoBufferNoFault` give conditions under which none does.
- Safety.NeverPanics: starts each CPU once, on its own number, before anything else runs there, as the boot code does.
