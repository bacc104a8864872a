# HydrixOS memory management, scheduling and console: a Dafny model

This project models the memory managers of HydrixOS and three smaller state machines, and
proves what they promise.

* **The heap allocator** (`src/lib/hybaselib/memalloc.c`).  Every block is on the address-ordered
  general list and on one more list, the used list or one of 31 free lists.  `BlockLists`,
  `BlockTable` and `BlockSteps` hold the linked structure and the functions on sequences that its
  pointer code computes; `BestFit` the search; `HeapSpec` the allocator on values (block table, heap
  size, resident pages, bytes); `HeapInv`, `HeapOps`, `HeapKeep`, `HeapRealloc`, `HeapRuns`,
  `HeapCalls`, `HeapResidency` and `HeapPages` the theorems; `HeapClass` the pointer code; `HeapFaults` the
  counterexamples.
* **The page-mapping allocator** (`src/lib/hybaselib/pmap.c`): `Pmap`, `PmapRuns`, `PmapClass`, on the
  same linked structure.
* **Page frames and page tables** (`src/hymk/x86/alloc.c`, `src/hymk/x86/map.c`): `Frames`,
  `FrameBuffer`, `PageBuffer` (zone stacks, owner lists in the share table) and `Mapping`,
  `MappingInv`, `MappingRuns`, `MappingSafe`, `MappingRights`, `MappingMoves`, `MappingEffects`,
  `MappingClass` (entries, owners, counters, rights, moves).
* **The scheduler** (`src/hymk/x86/current.c`, `src/hymk/x86/intr.c`): `Scheduler`, `SchedulerClass`.
* **The tokenizer, the line editor and the terminal** of the debugger shell
  (`src/hyinit/coredbg/shell.c`, `src/hyinit/coredbg/console.c`): `Tokenizer`, `TokenizerLoops`,
  `LineEditor`, `Terminal`.

Each part has two layers.  Functions on values state what an operation does, branch by branch as the
code has it; theorems about whole calls and whole runs are proved about these functions.  Classes with
mutable fields hold the pointer code, arrays and loops, and each of their methods is proved to compute
the function of the same name, so the theorems hold of the code.

Five further functions are modelled because the others need them.  `ksched_start_thread` and
`ksched_stop_thread` (`schedule.c` of the kernel, lines 47 to 205) are `SchedulerClass.RunQueue.StartThread`
and `StopThread`; `Scheduler.StartedNext`, `StopTakesOut`, `StartKeepsBound` and
`StopUndoesStart` say where they put a thread, what they keep and what they undo.
`ksysc_create_idle` (`subject.c` of the kernel, lines 678 to 726), which starts the idle thread and so
counts it as active, is the constructor of `SchedulerClass.RunQueue`.  `kmem_init_tables` (`meminit.c` of
the kernel, lines 136 to 209) is the constructor of `PageBuffers.PageBuffer`, and `str_char` (`buffers.c` of the base library, lines 444 to 461) is
`TokenizerLoops.StrChar`.

## Where the code departs from its documentation

The model keeps the code as it is.  Each departure has a theorem that says exactly when it happens.

* `mem_alloc` and `pmap_alloc` hand out a block that stays on its free list when a larger block precedes
  the exact fit on that list (`AllocCorruptsIff`, `Pmap.AllocTheorem`, two examples).
* `mem_realloc` leaves a header-sized gap when it grows a block by splitting its successor
  (`SplitLosesHeader`), uses a descriptor that has just left the table when it cuts down the block in
  front of a last free block (`ShrinkBlkResizes`, `StaleHeaderExample`), and frees the old block when no
  new one is found, returning NULL (`ReallocTheorem`, outcome Lost; the documentation says nothing of the
  old content).  When a split has failed it may take a second block that it gives to nobody (`ReallocStarts`,
  `LeakedAt`).
* An empty free block taken whole is mapped only for the request, from the page of its payload on, so a
  live page can stay unmapped (`AllocResident`, `TailMissingExample`); `mem_realloc` merges an empty
  successor that fits exactly without mapping it (`ReallocResident`, `GrowthMissingExample`).
* A block can be extended into a gap left by `mem_realloc`, or merged over one, although a page of the gap
  is not mapped (`FreeResident`, `StepResident`, `GapMissingExample`).
* `lib_clean_free_entry` measures the end of the block from its rounded start, so it leaves up to two whole
  pages of an empty block mapped (`CleanExact`).
* `sysc_map` enters the calling process as owner, whichever process gets the page (`MapPageAccounting`,
  `ForeignMapExample`, `MoveReplaces`); the copy of a shared page marked for copy-on-write takes one
  from the usage counter before it calls `kmem_free_user_pageframe`, which then takes the owner list for a single
  owner if one is left, and takes another one from the counter if more are left; either way counter and owners
  disagree (`CopyMiscounts`); `kmem_free_user_pageframe` dereferences NULL when no share-table entry is free
  (`UnmapPageAcc`, `MoveDies`); `sysc_alloc_pages` loses a frame when no page table can be had
  (`AllocPageAcc`).
* Where a range begins without a page table `sysc_map` and `sysc_unmap` jump 1024 pages ahead, also from the
  middle of the table, and miss the last page of the range (`MapLoopSkips`, `UnmapLoopSkips`).
* The tokenizer misreads arguments that end with a backslash and hangs when the last one does
  (`RoundTrip`, `HangsAtEnd`), and it hangs on a last argument without a closing quote that ends with a quote
  (`UnclosedQuote`).
* The line editor cannot take back most keys above 127 that have no known encoding
  (`BackspaceUndoesIff`), and encodes the sharp s as an O with circumflex (`EncodedCharacters`).
* A tabulator in the last four columns leaves the cursor in column 80 (`CursorInRangeIff`).

## Model

| member | source | states |
|---|---|---|
| `BlockLists.GetRightFbl` | src/lib/hybaselib/memalloc.c:111-142 | the size-class loop returns ClassOf: class k exactly for sizes in [2^k, 2^(k+1)), k < 31, and -1 for size 0 and for sizes no class covers |
| `BlockLists.ClassOfRange` | src/lib/hybaselib/memalloc.c:111-142 | a size has class k if and only if it lies in [2^k, 2^(k+1)) and k is below 31 |
| `BlockTables.BlockTable.AddToFbl` | src/lib/hybaselib/memalloc.c:159-184 | the block heads the free list its number names; all lists stay doubly linked and in order |
| `BlockTables.BlockTable.RemoveFromFbl` | src/lib/hybaselib/memalloc.c:201-226 | the block leaves its free list, wherever on it it stands; nothing else changes |
| `BlockTables.BlockTable.AddToUbl` | src/lib/hybaselib/memalloc.c:323-388 | the used list stays exactly the used subsequence of the GBL; the branch that reports ERR_MEMORY_CORRUPTED is dead |
| `BlockTables.BlockTable.PreviousUsed` | src/lib/hybaselib/memalloc.c:356-370 | the backward walk over the GBL ends at the last used block in front of p, or at none (LastUsed) |
| `BlockTables.LastUsedBefore` | src/lib/hybaselib/memalloc.c:350-387 | that block is the last entry of the used list in front of p, so the walk refines sorted insertion |
| `BlockTables.BlockTable.RemoveFromUbl` | src/lib/hybaselib/memalloc.c:400-440 | the block leaves the used list, from its head, middle or end |
| `BlockTables.BlockTable.LinkGbl` | src/lib/hybaselib/memalloc.c:272-299 | a new descriptor is linked behind its predecessor, or as the only entry |
| `BlockTables.BlockTable.CutGblAfter` | src/lib/hybaselib/memalloc.c:805-828 | the GBL skips the merged blocks and their descriptors cease to exist |
| `BlockLists.AddFblListed` | src/lib/hybaselib/memalloc.c:159-184 | list invariant (UBL = used subsequence, every free block on exactly the list of its number) kept |
| `BlockLists.RemUblListed` | src/lib/hybaselib/memalloc.c:400-440 | list invariant kept except for the block taken off |
| `BlockSteps.JoinedListed` | src/lib/hybaselib/memalloc.c:745-833 | after a merger the lists are in order and the free neighbours have become one block |
| `BlockSteps.Join` | src/lib/hybaselib/memalloc.c:745-833 | the pointer code of the merger computes Joined |
| `BlockSteps.Take` | src/lib/hybaselib/memalloc.c:500-534 | a free block marked used goes from its free list to its place in the used list |
| `BestFit.FindFree` | src/lib/hybaselib/memalloc.c:877-919 | the nested search loops return Search; no used block is met in a free list |
| `BestFit.FindUbl` | src/lib/hybaselib/memalloc.c:982-998 | the scan of the used list finds the used block that begins at the address, and none only if there is none |
| `BestFit.SearchIsBestFit` | src/lib/hybaselib/memalloc.c:861-936 | the segregated search is global best fit: a smallest free block of at least sz bytes over all lists, nothing if and only if there is none |
| `BestFit.SearchFirst` | src/lib/hybaselib/memalloc.c:877-919 | of several free blocks of the size chosen the search takes the first one of its list |
| `BestFit.LastFreedFirst` | src/lib/hybaselib/memalloc.c:159-184 | the block put on its list last is the exact fit found first |
| `BestFit.SearchSelectsBoth` | src/lib/hybaselib/memalloc.c:923-961 | both retval and bestfit come back set exactly when a larger block precedes the first exact fit on its list |
| `HeapClass.HeapAllocator.SplitFreeEntry` | src/lib/hybaselib/memalloc.c:467-543 | the code computes Split; fails exactly when pages are needed and none is left |
| `HeapClass.HeapAllocator.GrowHeap` | src/lib/hybaselib/memalloc.c:559-581 | the code computes Grow, including the region limit of mem_heap_inc |
| `HeapClass.HeapAllocator.ShrinkHeap` | src/lib/hybaselib/memalloc.c:597-676 | the code computes Shrink: an unaligned last block hands its predecessor the bytes up to the page boundary |
| `HeapClass.HeapAllocator.CleanFreeEntry` | src/lib/hybaselib/memalloc.c:693-728 | the code computes Clean |
| `HeapClass.HeapAllocator.UnifyFreeEntry` | src/lib/hybaselib/memalloc.c:745-836 | the code computes Unify |
| `HeapClass.HeapAllocator.FindFreeBlockWithin` | src/lib/hybaselib/memalloc.c:861-964 | the code computes FindFreeWithin, with its error and its double selection |
| `HeapClass.HeapAllocator.Alloc` | src/lib/hybaselib/memalloc.c:1012-1048 | mem_alloc computes MemAlloc, also the state it leaves after a double selection |
| `HeapClass.HeapAllocator.FreeMem` | src/lib/hybaselib/memalloc.c:1058-1104 | mem_free computes MemFree (FreeStarts, FreeReclaims); a wrong address changes nothing |
| `HeapClass.HeapAllocator.Realloc` | src/lib/hybaselib/memalloc.c:1127-1307 | mem_realloc reaches the outcome of MemRealloc in each of its branches (ReallocTheorem, ReallocStarts, ReallocNull, ReallocRejects) |
| `HeapInv.ShrinkLaid` | src/lib/hybaselib/memalloc.c:597-676 | shrinking keeps the invariant and ends the heap exactly the removed pages lower |
| `HeapInv.CleanInv` | src/lib/hybaselib/memalloc.c:693-728 | cleaning keeps the invariant and changes only the status of the block |
| `HeapInv.UnifyInv` | src/lib/hybaselib/memalloc.c:745-836 | unify (with its shrink or clean) keeps list and layout invariant, tiling included |
| `HeapInv.SplitInv` | src/lib/hybaselib/memalloc.c:467-543 | a split keeps the invariant; the used block begins where the free one began |
| `HeapInv.GrowInv` | src/lib/hybaselib/memalloc.c:559-581 | the heap grows by one free block that ends exactly at the new heap end |
| `HeapOps.AllocInv` | src/lib/hybaselib/memalloc.c:1012-1048 | mem_alloc hands out a used block of at least sz bytes and keeps the invariant, or changes nothing, or (double selection) breaks the invariant |
| `HeapOps.AllocCorruptsIff` | src/lib/hybaselib/memalloc.c:923-961 | mem_alloc corrupts the table if and only if a larger block precedes the exact fit on its list |
| `HeapOps.AllocGrowsIff` | src/lib/hybaselib/memalloc.c:1012-1048 | mem_alloc grows the heap if and only if no free block is large enough, and otherwise takes a best fit |
| `HeapOps.FreeInv` | src/lib/hybaselib/memalloc.c:1058-1104 | mem_free keeps the invariant; what it frees is stated by FreeStarts and FreeReclaims |
| `HeapKeep.ShrinkPreserves` | src/lib/hybaselib/memalloc.c:597-676 | no live payload moves, shrinks or loses a byte when the heap shrinks |
| `HeapKeep.CleanPreserves` | src/lib/hybaselib/memalloc.c:693-728 | pages removed from a free block hold no byte of a live payload |
| `HeapKeep.UnifyPreserves` | src/lib/hybaselib/memalloc.c:745-836 | unify touches no live payload |
| `HeapKeep.SplitPreserves` | src/lib/hybaselib/memalloc.c:467-543 | the header written by a split touches no live payload |
| `HeapRealloc.AllocPreserves` | src/lib/hybaselib/memalloc.c:1012-1048 | mem_alloc touches no live payload and returns an address of none of them |
| `HeapRealloc.FreePreserves` | src/lib/hybaselib/memalloc.c:1058-1104 | mem_free touches no payload but the one it frees |
| `HeapRealloc.ShrinkBlkResizes` | src/lib/hybaselib/memalloc.c:1169-1219 | the shrinking branch returns the block with its first nsz bytes; it uses a vanished descriptor if and only if LosesHeader holds before the call |
| `HeapRealloc.AbsorbNextResizes` | src/lib/hybaselib/memalloc.c:1231-1259 | the exact-merge branch keeps all bytes and the tiling |
| `HeapRealloc.AbsorbSplitResizes` | src/lib/hybaselib/memalloc.c:1261-1287 | the split-merge branch keeps all bytes and the separation of the blocks |
| `HeapRealloc.MoveResizes` | src/lib/hybaselib/memalloc.c:1292-1306 | the moving branch copies exactly the old payload into a block of at least nsz bytes |
| `HeapRuns.ReallocTheorem` | src/lib/hybaselib/memalloc.c:1127-1307 | mem_realloc returns at least nsz bytes with the first min(old, new) bytes unchanged, whichever branch runs; every other outcome has its exact condition |
| `HeapRuns.SplitLosesHeader` | src/lib/hybaselib/memalloc.c:1261-1287 | growing by splitting always breaks the exact tiling: a header-sized gap stays |
| `HeapRuns.StepInv` | src/lib/hybaselib/memalloc.c:1012-1307 | a call goes wrong if and only if it is faulty (a test on the state before it); any other call keeps the invariant |
| `HeapRuns.RunTheorem` | src/lib/hybaselib/memalloc.c:1012-1307 | every run without faulty calls ends in the invariant, exactly tiled when no block grew by splitting |
| `HeapRuns.Conservation` | src/lib/hybaselib/memalloc.c:559-676 | headers and payloads together are exactly usable pages times the page size, and the last block ends at the heap end |
| `HeapRuns.LivePayloads` | src/lib/hybaselib/memalloc.c:1012-1104 | live payloads lie inside the heap and are pairwise disjoint |
| `HeapRuns.StepPreserves` | src/lib/hybaselib/memalloc.c:1012-1307 | no call moves, shrinks or overwrites a used block it does not name |
| `HeapCalls.AllocStarts` | src/lib/hybaselib/memalloc.c:1012-1048 | a successful mem_alloc makes exactly one payload live, which was not, of at least sz bytes and at most a header more; a heap that grows takes the fewest pages that hold a header and sz bytes |
| `HeapCalls.AllocRefusesIff` | src/lib/hybaselib/memalloc.c:1012-1048 | mem_alloc refuses if and only if the size is not valid, no page frame is left for an empty best fit, or the heap must grow and no page frame is left or the region has too few pages |
| `HeapCalls.FreeStarts` | src/lib/hybaselib/memalloc.c:1058-1104 | mem_free makes exactly the payload at its address dead, in any heap |
| `HeapCalls.FreeReclaims` | src/lib/hybaselib/memalloc.c:1058-1104 | in an exactly tiled heap every byte of the block is free again, behind the new heap end, or among those handed to the block in front up to the page boundary; the heap ends at the page boundary behind the free stretch that now ends it |
| `HeapCalls.FreeUnused` | src/lib/hybaselib/memalloc.c:1058-1104 | with gaps too, no byte of the block lies in a used block afterwards unless it was handed over in that way |
| `HeapCalls.FreeHardly` | src/lib/hybaselib/memalloc.c:597-676 | mem_free makes no other block a page larger |
| `HeapCalls.FreeEmpties` | src/lib/hybaselib/memalloc.c:1058-1104 | a merged free block that does not end the heap is empty: of the pages inside it at most the last two are resident |
| `HeapCalls.FreeAlone` | src/lib/hybaselib/memalloc.c:1058-1104 | between two blocks in use mem_free changes the status of the block and nothing else: its pages stay mapped |
| `HeapCalls.CleanEmpties` | src/lib/hybaselib/memalloc.c:693-728 | cleaning removes only pages inside the payload and leaves at most the last two of them |
| `HeapCalls.CleanExact` | src/lib/hybaselib/memalloc.c:693-728 | exactly which pages cleaning removes: all whole pages of the payload but none, one or two at its end, which depend on its size and start |
| `HeapCalls.SplitMaps` | src/lib/hybaselib/memalloc.c:467-543 | a split maps exactly the pages that the request takes, and only of an empty block |
| `HeapCalls.GrowMaps` | src/lib/hybaselib/memalloc.c:559-581 | growing maps exactly the pages between the old and the new heap end |
| `HeapCalls.ReallocStarts` | src/lib/hybaselib/memalloc.c:1127-1307 | mem_realloc makes exactly the payload it returns live and gives up exactly the old one where it moves, with the bounds of its size; a payload that is lost is not live, and where a split fails a block can be taken that nobody gets |
| `HeapCalls.ReallocNull` | src/lib/hybaselib/memalloc.c:1141 | mem_realloc without an old payload returns a new live payload of at least nsz bytes, preserves the others, and refuses exactly where mem_alloc does |
| `HeapCalls.ReallocRejects` | src/lib/hybaselib/memalloc.c:1134-1155 | nothing to do and an address of no live payload change nothing; a new size of 0 gives exactly the old payload up |
| `HeapCalls.CutEnds` | src/lib/hybaselib/memalloc.c:1169-1219 | cutting down the last block ends the heap at the page boundary behind the payload |
| `HeapResidency.FreeResident` | src/lib/hybaselib/memalloc.c:1058-1104 | mem_free keeps every page of a header, a live payload and a free payload not marked empty mapped if and only if FreeMissesPage does not hold before the call: it can fail only where a block is extended into a gap or merged over one |
| `HeapResidency.ExactFree` | src/lib/hybaselib/memalloc.c:1058-1104 | in an exactly tiled heap mem_free never misses a page |
| `HeapResidency.ShrinkResident` | src/lib/hybaselib/memalloc.c:597-676 | the same for lib_shrink_heap: exactly the extension of a block into a gap with an unmapped page fails |
| `HeapResidency.AllocResident` | src/lib/hybaselib/memalloc.c:1012-1048 | mem_alloc keeps that residency if and only if AllocMissesPage does not hold before the call, with or without gaps in the heap |
| `HeapPages.ShrinkBlkResident` | src/lib/hybaselib/memalloc.c:1169-1219 | the shrinking branch of mem_realloc misses a page if and only if it merges the rest over a gap with a free block that ends the heap |
| `HeapPages.GrowthResident` | src/lib/hybaselib/memalloc.c:1231-1287 | growing in place keeps the residency if and only if GrowthMissesPage does not hold before the call |
| `HeapPages.ReallocResident` | src/lib/hybaselib/memalloc.c:1127-1307 | mem_realloc keeps the residency in every branch if and only if the call misses no page, a test on the state before the call and, where the payload moves, on the heap that the inner allocation leaves |
| `HeapPages.StepResident` | src/lib/hybaselib/memalloc.c:1012-1307 | the same for every call, in every heap of the invariant, gaps included |
| `HeapPages.RunResident` | src/lib/hybaselib/memalloc.c:1012-1307 | after every run of calls that miss no page, growth by splitting included, all pages of headers and live payloads are mapped |
| `HeapFaults.DoubleSelectionExample` | src/lib/hybaselib/memalloc.c:923-961 | a heap in the invariant on which mem_alloc(100) hands out a block that stays free |
| `HeapFaults.StaleHeaderExample` | src/lib/hybaselib/memalloc.c:1198-1212 | a heap in the invariant on which mem_realloc uses a descriptor that has left the table |
| `HeapFaults.TailMissingExample` | src/lib/hybaselib/memalloc.c:473-486 | a heap in the invariant on which mem_alloc leaves the last page of the payload it hands out unmapped |
| `HeapFaults.GrowthMissingExample` | src/lib/hybaselib/memalloc.c:1231-1259 | a heap in the invariant on which mem_realloc returns a payload with an unmapped page |
| `HeapFaults.GapMissingExample` | src/lib/hybaselib/memalloc.c:597-676 | a heap with a gap, in the invariant but not shown to be reached from a fresh heap, on which mem_free extends a live payload over an unmapped page |
| `Pmap.InitialInv` | src/lib/hybaselib/pmap.c:136-203 | the initial region is one free block of all its pages |
| `Pmap.SplitInv` | src/lib/hybaselib/pmap.c:524-561 | a split keeps partition, list invariant and canonical form |
| `Pmap.AllocTheorem` | src/lib/hybaselib/pmap.c:688-852 | pmap_alloc takes the pages from a smallest sufficient free block; invalid size, no room, double selection and NULL dereference each have their exact condition |
| `PmapRuns.FreeIdxInv` | src/lib/hybaselib/pmap.c:578-663 | freeing and merging keep partition and canonical form |
| `PmapRuns.Canonical` | src/lib/hybaselib/pmap.c:578-663 | the partition of the region is a function of the live ranges: free blocks are exactly the maximal gaps between them |
| `PmapRuns.FreeUndoesAlloc` | src/lib/hybaselib/pmap.c:822-900 | pmap_free of what pmap_alloc returned restores the partition |
| `PmapRuns.NoRoomIff` | src/lib/hybaselib/pmap.c:836-844 | pmap_alloc reports no memory if and only if every maximal gap is smaller than the request |
| `PmapRuns.AllocBytesTheorem` | src/lib/hybaselib/pmap.c:822-852 | pmap_alloc of sz bytes makes exactly one range live, of the fewest pages that hold them; it reports a bad size exactly for 0 and for more than 0x7FFFFFFF pages, and no room exactly when every maximal gap has fewer bytes |
| `PmapRuns.FreeLive` | src/lib/hybaselib/pmap.c:862-900 | pmap_free removes exactly the live range that begins at the address |
| `PmapRuns.FreeingAll` | src/lib/hybaselib/pmap.c:862-900 | freeing every live range, in any order, leaves one block of the whole region |
| `PmapRuns.StepInv` | src/lib/hybaselib/pmap.c:822-900 | a call fails badly if and only if it is faulty; every other call keeps the canonical form |
| `PmapRuns.RunTheorem` | src/lib/hybaselib/pmap.c:822-900 | after every run the blocks partition the region and the free ones are the maximal gaps |
| `PmapRuns.DoubleSelectionExample` | src/lib/hybaselib/pmap.c:750-769 | a region in canonical form on which pmap_alloc hands out a range that stays free |
| `PmapClass.PmapAllocator.constructor` | src/lib/hybaselib/pmap.c:186-196 | the initial block is linked |
| `PmapClass.PmapAllocator.SplitFreeEntry` | src/lib/hybaselib/pmap.c:524-561 | the code computes Split |
| `PmapClass.PmapAllocator.UnifyFreeEntry` | src/lib/hybaselib/pmap.c:578-663 | the code computes Unify |
| `PmapClass.PmapAllocator.AllocBytes` | src/lib/hybaselib/pmap.c:822-852 | pmap_alloc computes Alloc, the rounding of bytes to pages included (AllocBytesTheorem) |
| `PmapClass.PmapAllocator.FreeRange` | src/lib/hybaselib/pmap.c:862-900 | pmap_free computes FreeAt |
| `FrameBuffer.FrameStack.Push` | src/hymk/x86/alloc.c:190-198 | a frame goes on top of its stack |
| `FrameBuffer.FrameStack.Pop` | src/hymk/x86/alloc.c:69-72 | the top frame is taken |
| `Frames.FrameConservation` | src/hymk/x86/alloc.c:61-201 | free and used frames together are always all the frames of the buffer |
| `Frames.FrameStepZoned` | src/hymk/x86/alloc.c:61-245 | a call keeps every frame in use or once on the stack of its zone if and only if it does not give back a frame not in use |
| `Frames.FrameRunTheorem` | src/hymk/x86/alloc.c:61-245 | over every run that frees only frames in use that holds, and the number of free and used frames does not change |
| `Frames.AllocOrder` | src/hymk/x86/alloc.c:61-154 | the kernel gets the frame of the normal zone that was freed last, and none if and only if that zone is empty; a process gets one of the high zone while there is any |
| `Frames.GivenNext` | src/hymk/x86/alloc.c:169-201 | a frame given back goes on top of the stack of its zone and is handed out next; addresses outside the range that the code tests change nothing |
| `Frames.AllocUserZoned` | src/hymk/x86/alloc.c:106-154 | an allocated frame was on a stack and in use by nobody; every frame stays on exactly one stack or in use |
| `Frames.FreeKernelZoned` | src/hymk/x86/alloc.c:169-201 | a freed frame goes to the stack of the zone its address belongs to |
| `Frames.FreeUndoesAdd` | src/hymk/x86/alloc.c:217-310 | removing the owner added last restores the buffer, unless no share-table entry is free: then it crashes |
| `Frames.FreeUndoesAllocUser` | src/hymk/x86/alloc.c:106-245 | a frame allocated and freed by its user is the next one to be allocated |
| `FrameBuffer.RemoveFromList` | src/hymk/x86/alloc.c:255-300 | unlinking an owner of three or more keeps every share-table entry on exactly one list |
| `FrameBuffer.RemoveFromPair` | src/hymk/x86/alloc.c:255-295 | from two owners both entries go free and the other owner becomes the single one |
| `FrameBuffer.AddToList` | src/hymk/x86/map.c:384-434 | a free entry goes in front of the owner list |
| `FrameBuffer.MakeList` | src/hymk/x86/map.c:393-430 | two free entries become the owner list of a frame that had one owner |
| `PageBuffers.PageBuffer.AllocKernelFrame` | src/hymk/x86/alloc.c:61-88 | the code computes AllocKernel |
| `PageBuffers.PageBuffer.AllocUserFrame` | src/hymk/x86/alloc.c:106-154 | the code computes AllocUser, high zone first |
| `PageBuffers.PageBuffer.FreeKernelFrame` | src/hymk/x86/alloc.c:169-201 | the code computes FreeKernel |
| `PageBuffers.PageBuffer.AddFrameOwner` | src/hymk/x86/map.c:384-434 | the code computes AddOwner, with lack of entries and the wrap of the 16-bit counter |
| `PageBuffers.PageBuffer.FreeUserFrame` | src/hymk/x86/alloc.c:217-310 | the code computes FreeUser; the walk bounded by the usage counter finds the owner if and only if it is listed |
| `MappingInv.MapPageAccounting` | src/hymk/x86/map.c:344-462 | sysc_map, by root or another process, keeps usage, owners and entries in agreement if and only if the calling process is the one that gets the entry, or nothing present is copied, and root makes no entry present that names no frame in use |
| `MappingInv.MapPageFails` | src/hymk/x86/map.c:355-420 | a mapping that fails has changed no entry but the copy-on-write mark of an unshared source; it fails only for want of share-table entries, or of frames where a page must be copied |
| `FrameBuffer.CopyMiscounts` | src/hymk/x86/map.c:355-368 | the usage counter that the copy of a shared page takes down before it gives up the frame fits no owner lists any more |
| `MappingInv.UnmapPageAcc` | src/hymk/x86/map.c:684-721 | unmapping keeps the accounting, crashes exactly when a shared frame meets an empty free list, and releases the table exactly when the last present entry goes |
| `MappingInv.UnmapPageExact` | src/hymk/x86/map.c:684-721 | the same conditions whatever the owners of the frame are: the table goes exactly with its last present entry, and the crash comes exactly where the page is one of several owners and no share-table entry is free |
| `MappingInv.AllocPageAcc` | src/hymk/x86/alloc.c:359-397 | sysc_alloc_pages keeps the accounting unless a page table is needed and no frame is left for it |
| `MappingRuns.StepAccounting` | src/hymk/x86/map.c:292-777 | a call by whatever caller keeps the accounting if and only if every page it maps is accounted and no frame is lost for want of a page table; of a move by root within its own process only the first direction holds |
| `MappingRuns.RetractExample` | src/hymk/x86/map.c:756-777 | such a move by root that gets a page wrong and takes it back |
| `MappingRuns.RunAcc` | src/hymk/x86/map.c:292-777 | the accounting holds after every run of such calls, failing ones included |
| `MappingRuns.UsageCounts` | src/hymk/x86/alloc.c:217-310 | usage is the number of present entries that name the frame, and the owners are exactly these pages |
| `MappingRuns.RunTheorem` | src/hymk/x86/map.c:292-777 | after every run of calls that keep the accounting (StepAccounting) usage, owners, table counters and free frames agree with the page tables |
| `MappingSafe.MapPageSafeIff` | src/hymk/x86/map.c:344-462 | a mapping by whatever caller and into whatever process keeps entries, counters, tables and frames in order (Safe) if and only if root does not make an entry present with its source or without a frame of its own |
| `MappingSafe.StepSafe` | src/hymk/x86/map.c:292-777 | every call whose mappings fit in that sense keeps Safe: mappings into other processes and allocations that lose a frame included |
| `MappingSafe.RunCounts` | src/hymk/x86/map.c:292-777 | over every run of such calls each counter is the number of present entries of its table, a frame is in use exactly when it is on no stack, and a present entry names a frame in use that is no page table and has at least as many owners as entries name it |
| `MappingSafe.UserRunCounts` | src/hymk/x86/map.c:292-777 | the same for every run of processes other than root, without any further condition |
| `MappingSafe.AccSafe` | src/hymk/x86/map.c:292-777 | an accounted state is safe |
| `MappingSafe.MoveCallable` | src/hymk/x86/map.c:756-777 | in every state of such runs pages can be unmapped and moved: no page becomes an owner of a page table |
| `MappingRights.MapPageRights` | src/hymk/x86/map.c:344-459 | the new entry, in whatever process, has at most the rights of source and request (exactly which: MapPageGives), no entry is overwritten, and after copy-on-write neither page is writable |
| `MappingRights.MapLoopRights` | src/hymk/x86/map.c:292-470 | the same over the whole range of a call that copies no page marked for copy-on-write: entries stay, new ones are within the request, rights have a source, and with copy-on-write no page copied nor its copy is writable at the end |
| `MappingRights.MapLoopMarks` | src/hymk/x86/map.c:446-459 | the last clause for every caller, root included |
| `MappingRights.RunWithin` | src/hymk/x86/map.c:292-777 | over every run of map, unmap and move by processes other than root, between whatever processes, that copies no page marked for copy-on-write each entry has the frame and at most the rights of an entry at the start |
| `MappingEffects.MapPageGives` | src/hymk/x86/map.c:344-459 | a page that is mapped gives exactly the rights that it has, or that root adds, and that are asked for; with copy-on-write both pages are marked and read-only; a page marked that is shared without the mark becomes writable; no other entry and no table changes |
| `MappingEffects.MapPageEnters` | src/hymk/x86/map.c:385-444 | the owner entered and the counter of the table, for every frame and every table |
| `MappingEffects.MapPageEnds` | src/hymk/x86/map.c:355-420 | each of the three ways in which a mapping does not come to its end has its exact condition on the state before it |
| `MappingEffects.MapLoopGives` | src/hymk/x86/map.c:292-470 | the same rights over a range whose sources have page tables and whose targets are other pages; every page outside both keeps its entry |
| `MappingEffects.MapLoopSkips` | src/hymk/x86/map.c:306-321 | where the first source page has no page table the first 1024 pages and the last one are not mapped, and exactly the others are |
| `MappingEffects.UnmapPageTakes` | src/hymk/x86/map.c:684-725 | unmapping one page: not writable, not present, or empty, as asked, and nothing else of it is lost; a page table goes, with what is left in it, exactly with its last present entry |
| `MappingEffects.UnmapLoopTakes` | src/hymk/x86/map.c:642-734 | all entries and tables after unmapping a range with page tables: the pages of the range as above, all others unchanged but for those in a table whose present entries all lie in the range; where the paging daemon refuses, the pages in front of the protected one are unmapped |
| `MappingEffects.UnmapLoopSkips` | src/hymk/x86/map.c:659-671 | the same jump as in sysc_map |
| `MappingEffects.MoveGives` | src/hymk/x86/map.c:756-777 | after a move every source is empty and every target that was empty has exactly the rights given |
| `MappingEffects.AllocPageGives` | src/hymk/x86/alloc.c:359-397 | sysc_alloc_pages leaves a present page and everything else as it was, and gives any other page a frame that was not in use, present, writable and for the user |
| `MappingEffects.AllocLoopGives` | src/hymk/x86/alloc.c:359-399 | the same over the range: all pages at the end, or the pages in front of the one where frames run out; all others unchanged |
| `MappingMoves.MoveReplaces` | src/hymk/x86/map.c:756-777 | sysc_move of a range of present pages to empty targets, in whatever process, leaves the usage of every frame in use that is no page table unchanged and replaces the sources by the pages of the calling process at the target addresses; from an accounted state the targets become owners, and the accounting is kept, if and only if they belong to the calling process; the rest holds behind mappings into other processes too |
| `MappingMoves.MoveDies` | src/hymk/x86/map.c:756-777 | the move of a range dies half way if and only if the mapping has taken exactly the last share-table entries |
| `MappingMoves.MoveLoses` | src/hymk/x86/map.c:756-777 | where the targets have entries the sources go, each from the owners of its frame, and nothing takes their place on any frame |
| `MappingSafe.MapLoopFramed` | src/hymk/x86/map.c:292-470 | a mapping that fits, into whatever process, leaves entries, tables and counters in order, also where owners are missing |
| `MappingRuns.ForeignMapExample` | src/hymk/x86/map.c:199-200 | a mapping into another process enters the wrong owner and the accounting is lost |
| `MappingClass.AddressSpaces.MapRange` | src/hymk/x86/map.c:292-470 | the loop of sysc_map computes MapLoop, the masking of rights, table reloads and jumps included (MapLoopGives, MapLoopSkips) |
| `MappingClass.AddressSpaces.UnmapRange` | src/hymk/x86/map.c:642-734 | the loop of sysc_unmap computes UnmapLoop, also over a table it has just given back and where owners are wrong (UnmapLoopTakes, UnmapLoopSkips) |
| `MappingClass.AddressSpaces.AllocRange` | src/hymk/x86/alloc.c:359-399 | the loop of sysc_alloc_pages computes AllocLoop (AllocLoopGives) |
| `MappingClass.AddressSpaces.MoveRange` | src/hymk/x86/map.c:756-777 | sysc_move computes Move, to whatever process |
| `Scheduler.IdleIff` | src/hymk/x86/current.c:102-134 | the idle thread is dispatched if and only if no other thread is queued |
| `Scheduler.NeverNull` | src/hymk/x86/current.c:102-134 | a thread is always found, and a queued one if there is any, whether or not the running thread is queued |
| `Scheduler.Quantum` | src/hymk/x86/intr.c:412-421 | a thread with e ticks left is replaced at tick e + 1, on an empty queue too |
| `Scheduler.TurnLength` | src/hymk/x86/current.c:175-177 | a dispatched thread runs for exactly the ticks it had left and one more, and for twice its static priority and one more if it had none left |
| `Scheduler.RoundRobin` | src/hymk/x86/current.c:95-180 | with one or more queued threads m switches go through the next m of them in order, each within its longest turn |
| `Scheduler.BoundedWaiting` | src/hymk/x86/current.c:95-180 | with one or more queued threads each is dispatched again within the sum of twice the static priority plus one tick each, without the idle thread in between |
| `Scheduler.ExactRound` | src/hymk/x86/current.c:95-180 | once the queued threads have used up what they had left, m switches take exactly the sum of the full turns |
| `Scheduler.WaitingFromOutside` | src/hymk/x86/current.c:95-180 | the same from the idle thread or a thread that has been stopped, whose remaining ticks come on top |
| `Scheduler.SingleThread` | src/hymk/x86/current.c:102-124 | a single queued thread is dispatched at every switch and the idle thread never |
| `Scheduler.IdleRunsOn` | src/hymk/x86/current.c:102-124 | on an empty queue the idle thread is dispatched at every switch |
| `SchedulerClass.RunQueue.NextThread` | src/hymk/x86/current.c:95-180 | the walk over the linked run queue computes Dispatch and follows no NULL link, with the counter of active threads one above the length of the queue |
| `SchedulerClass.RunQueue.HandleTimer` | src/hymk/x86/intr.c:412-429 | the timer branch computes Tick |
| `Tokenizer.UnescapeEscape` | src/hyinit/coredbg/shell.c:519-552 | dbg_filter_copy is the inverse of the escaping, in front of any further text |
| `Tokenizer.RoundTrip` | src/hyinit/coredbg/shell.c:570-705 | a line of quoted arguments is read back as the arguments if and only if none ends with a backslash |
| `Tokenizer.QuoteSwallowed` | src/hyinit/coredbg/shell.c:601-622 | behind an argument that ends with a backslash the closing quote is taken as part of it |
| `Tokenizer.HangsAtEnd` | src/hyinit/coredbg/shell.c:601-622 | the shell hangs on a line whose last argument ends with a backslash |
| `Tokenizer.PlainWords` | src/hyinit/coredbg/shell.c:570-705 | a line without unescaped quotes is read as its words, with any number of spaces between them, whatever they end with |
| `Tokenizer.UnclosedQuote` | src/hyinit/coredbg/shell.c:601-650 | without a closing quote the last argument goes to the end of the line, and the shell hangs if and only if it ends with a quote |
| `Tokenizer.LooseBackslash` | src/hyinit/coredbg/shell.c:519-552 | a backslash takes any character but a space as it is; before a space it stays, and at the end of the line it is dropped |
| `TokenizerLoops.FilterCopy` | src/hyinit/coredbg/shell.c:519-552 | the copying loop computes Unescaped under both kinds of limit |
| `TokenizerLoops.FindEnd` | src/hyinit/coredbg/shell.c:601-622 | the search loop finds the end of the argument, or repeats itself for ever exactly where FindQuote says Hangs |
| `TokenizerLoops.ParseCmd` | src/hyinit/coredbg/shell.c:570-705 | the tokenizer loop with its running length limits computes Parse |
| `TokenizerLoops.BufferRoundTrip` | src/hyinit/coredbg/shell.c:570-705 | the round trip for NUL-free arguments in the command buffer |
| `LineEditor.ConversionRoundTrip` | src/hyinit/coredbg/console.c:848-914 | the conversion of a key is undone if and only if the key is ASCII or one of the nine known characters |
| `LineEditor.ConversionUnknown` | src/hyinit/coredbg/console.c:848-914 | other keys become negative numbers of 32 bits, and other codes become a question mark |
| `LineEditor.EncodedWellFormed` | src/hyinit/coredbg/console.c:898-914 | the stored octets are a well-formed encoding exactly for ASCII, the nine known characters and keys from 240 on |
| `LineEditor.EncodedLength` | src/hyinit/coredbg/console.c:1172-1199 | a key takes as many octets as its first octet announces; of an unknown key the others are 0xFF |
| `LineEditor.EncodedCharacters` | src/hyinit/coredbg/console.c:898-914 | the code points of the known keys under UTF-8; the sharp s comes out as another letter |
| `LineEditor.BackspaceUndoesIff` | src/hyinit/coredbg/console.c:1124-1150 | a backspace undoes a key if and only if its encoding is well-formed, or is one octet on an empty line |
| `LineEditor.ErasedLead` | src/hyinit/coredbg/console.c:1124-1150 | a backspace takes everything from the last octet on that is no continuation |
| `LineEditor.EditRefinesStack` | src/hyinit/coredbg/console.c:1115-1205 | the buffer holds the encoded characters that a simple stack of characters would hold, for every key sequence that leaves room and takes back only keys that a backspace undoes |
| `LineEditor.EditTracksIff` | src/hyinit/coredbg/console.c:1115-1205 | that condition is exact: it holds if and only if the buffer is the encoded stack after every key |
| `LineEditor.EditFull` | src/hyinit/coredbg/console.c:1152-1199 | the first key that does not fit ends the line without it if only the terminating zero has room, and overruns the buffer otherwise, which no ASCII key does |
| `LineEditor.Erase` | src/hyinit/coredbg/console.c:1124-1150 | the backspace branch computes Erased |
| `LineEditor.EncodeKey` | src/hyinit/coredbg/console.c:1172-1199 | the octets taken out of the code are Encoded |
| `LineEditor.Gets` | src/hyinit/coredbg/console.c:1115-1220 | the loop of dbg_gets computes Edit, with terminating zero and length |
| `Terminals.CursorInRangeIff` | src/hyinit/coredbg/console.c:195-206 | the cursor leaves the screen if and only if a tabulator is written in the last four columns |
| `Terminals.TabOverruns` | src/hyinit/coredbg/console.c:195-218 | in the last row such a tabulator leaves the cursor behind the screen buffer, and no character wraps it any more |
| `Terminals.PromptHolds` | src/hyinit/coredbg/console.c:153-236 | no character takes the cursor in front of the prompt, which scrolls with the screen |
| `Terminals.CursorTheorem` | src/hyinit/coredbg/console.c:146-238 | text without tabulators keeps the cursor on the screen and behind the prompt |
| `Terminals.BackspaceErases` | src/hyinit/coredbg/console.c:153-193 | a backspace takes back a character that did not make the screen scroll and leaves a blank |
| `Terminals.BackspaceMoves` | src/hyinit/coredbg/console.c:153-193 | a backspace goes back by one cell, across the ends of rows, but not in front of the prompt or the screen, and leaves a blank |
| `Terminals.TabStops` | src/hyinit/coredbg/console.c:195-206 | a tabulator goes to the next multiple of four in the row, and from behind the row to the next one |
| `Terminals.PutCell` | src/hyinit/coredbg/console.c:207-236 | every cell, the cursor and the prompt after a character or a newline, scrolling included |
| `Terminals.ScreenShowsPage` | src/hyinit/coredbg/console.c:146-238 | after any text without tabulators and backspaces the screen shows the last 25 rows of the unbounded wrapped page |
| `Terminals.Terminal.Putc` | src/hyinit/coredbg/console.c:146-238 | the code computes Put |
| `Terminals.Terminal.ScrollUp` | src/hyinit/coredbg/console.c:222-236 | the scrolling loop moves every row up and clears the last one |

## Left out

- Mutexes, threads and interrupts: every public call of an allocator, of the kernel and of the console is one atomic step.
- Page allocation that fails half way: a request for page frames succeeds as a whole or not at all; whether it succeeds is the parameter `ok`.
- HeapClass.HeapAllocator.Realloc: stops where the code goes on over a descriptor that has left the table or over lists corrupted by a double selection; what the code does after that is not modelled.
- PmapClass.PmapAllocator.AllocBytes: stops where the code goes on after a double selection or dereferences NULL.
- MappingClass.AddressSpaces.MoveRange: is not stated where the mapping makes a page an owner of a page table, which MoveCallable excludes after every run whose mappings fit, so that only root can bring it about; the unmapping may then give back a table whose frame has another owner. A reverse move is not modelled.
- MappingClass.AddressSpaces.UnmapRange: requires that every page table has its frame to itself, which RunCounts and MoveCallable show after every run whose mappings fit; otherwise it may give back a table whose frame has other owners.
- MappingRuns.StepAccounting: for a move by root within its own process only one direction holds: the accounting can be right again although a page was mapped that is not accounted (RetractExample).
- SchedulerClass.RunQueue.StartThread: requires that the running thread is queued or idle; behind a thread that has just been stopped the code links the new one into a detached chain.
- Terminals.Terminal.Putc: requires that the cursor lies inside the screen buffer, which CursorInRangeIff and CursorTheorem decide for every text.
- The copy that `sysc_map` makes of a shared page marked for copy-on-write (`page.c` of the kernel, lines 509 to 594) ends a run, because it leaves usage counter and owners in disagreement (CopyMiscounts); a page that nobody shares only loses the mark, and where no frame is left the call fails, and runs go on behind both.
- Cache, global and accessed bits of page-table entries, TLB invalidation, unaligned addresses in `sysc_unmap`, and the argument and permission tests in front of the loops.
- The arithmetic by which `kmem_init_tables` places its tables; the buffer is taken to begin and end on page boundaries with the zones meeting at the start of the high zone.
- The page directory and page tables as memory: entries, tables and counters are maps indexed by process and page.
- In `pmap.c`: a freed descriptor is read once more while the merger is finished and is taken to keep its contents until then; the array of 20 free lists is taken to have the 31 entries over which the loops run; the unmapping of the pages of a freed range.
- The heads of the two general block lists, which are written and never read.
- The 32-bit width of sizes and addresses in the allocators: regions of 262144 pages keep every sum below it.
- TokenizerLoops.ParseCmd: leaves out the substitution of `$` parameters and failing memory allocation for the parameter buffers.
- LineEditor.Gets: stops at an encoding for which the buffer has no room, where the code writes on.
- PmapClass.PmapAllocator.FreeRange: leaves out the unmapping of the pages of the freed range.
- In the console: key decoding, the head line, colours of blank cells, locking, and the synchronisation with the keyboard thread (the keys are a sequence).
- In the scheduler: time-outs, freezing and priorities set by system calls, address-space and FPU switching, and the overflow of the system clock.
- mem_size, pmap_mapalloc, sysc_allow and the debugger commands: they would add only easy members.
