# Memory management, context switching and number printing of the kernel, in Dafny

The project models the memory-management stack of a small x86-64 kernel, layer by layer, and
proves that the layers keep agreeing with each other over every run; beside it stand the
context switch, the intrusive list and number printing. `panic` is an outcome of its own, so
that "panics exactly when" can be stated. Code that changes state is modelled by classes and
methods with loops; each is tied to functions, sets, maps or sequences about which the
properties are proved. Every lemma switches automatic induction off: its body is its proof.

The model is of the DEBUG build: an `ASSERT` about arguments is what a function demands of its
callers, and the two that the code can run into by itself (`kernel/mm/pmm.c:101` on the sorted
map, the alignment checks on the end marker of the direct mapping) are panics like any other.

| files | what they model |
|---|---|
| `Numeric`, `Sequences`, `Words`, `Folding` | macros of `math.h` and `paging.h`; sequence, word and proof helpers |
| `RegionSpec`, `RegionList`, `FirstFit` | the region list of `vmm.c`: its meaning, its doubly linked nodes, its placement search |
| `Bitmap`, `Pmm`, `PhysMap` | free frames as words of bits; the frame allocator; building, sorting and walking the physical map |
| `PageTable`, `Mmu` | the lazily grown four-level table tree and the code that walks it |
| `Coherence`, `Vmm`, `SpaceCopy`, `DirectMap` | region list and page tables in step: allocation, release, copying a space, the direct mapping |
| `Requests`, `Runs`, `Kernel` | what each request answers and does; runs of requests over any number of spaces; creating, copying and direct-mapping spaces between them |
| `KheapSpec`, `KheapRuns`, `Kheap`, `HeapOnVmm` | the kernel heap on values, over runs, on headers in memory, and on top of the VMM |
| `KernelRuns` | heap calls, new spaces, copies of the kernel's space and requests on processes, in any order |
| `Machines`, `Processes`, `Switching` | registers and stack words, the assembly routines, runs of switches between any number of processes |
| `Lists`, `Printk` | `list.h` and the number printing of `printk.c` |

Main results, one per layer:

* `RegionSpec.AddPanicsIffOverlap`, `RemovePanicsIff`, `TidyUnique`, `AddThenRemove`: the merged
  sorted list is the one representation of its page-to-flags map, and exactly which calls panic.
* `Runs.Run`: over any sequence of `vmm_alloc_at`, `vmm_alloc_between`, `vmm_map` and `vmm_free` on
  any number of spaces, region lists and page tables agree and each frame keeps exactly one role
  until a panic, or a range whose end wraps; the "non mapped" panic is unreachable, and the "already
  used" one only reached by a `vmm_alloc_at` right before a region with its flags. Every request is
  answered and carried out as `Requests` says on lists, leaves and frames, and the page-to-flags map
  of each space ends as it was, plus and minus the ranges of the requests, in order
  (`Requests.TraceViews`). The set `shared` holds the pages that show a frame without owning it;
  `Kernel.CreateSpace`, `CopySpace` and `MapPhysical` show that the same invariant holds after the
  direct mapping and after copying spaces.
* `KernelRuns.RunKernel`, from `KernelRuns.Boot` on: the same over any interleaving of `kmalloc`,
  `kfree`, `vmm_create_space`, `vmm_copy_regions` and requests on processes, as `process_create`
  makes them, each event with its effect on heap, lists and live pointers. The kernel keeps to the
  higher half and processes release in the lower one; from that alone follows that no release frees
  a frame in use elsewhere.
* `Vmm.Enough`, `Vmm.TooFew`: a request runs out of memory if and only if there are fewer free
  frames than its pages and the tables it misses; `SpaceCopy.CopyRegions` and
  `DirectMap.InitDirectMapping` say the same of a copy and of the direct mapping.
* `FirstFit.AllocBetweenExact`, `Vmm.VirtualMemory.AllocBetween`: in 64-bit arithmetic, exactly when
  `vmm_alloc_between` does what is asked, and what it does otherwise.
* `Vmm.VirtualMemory.Free`: exactly when `vmm_free` panics, and exactly when the roles of frames
  survive it. `Runs.AllocThenFree`, `AllocBetweenThenFree`: allocating and freeing restores
  everything but the table pages.
* `SpaceCopy.CopyRegions` with `CopyAccepted`: a copied space is one `mmu_test_compare_mapping`
  accepts.
* `PhysMap.Table.Init`, `DirectMap.InitDirectMapping`, `ReportedMapped`: every page that the boot
  loader reports as available above the BIOS and behind the kernel, or as reserved, and no other, is
  mapped once, in ascending order, page 0 excepted; writable exactly when available, never for
  users. (No entry may be empty or run to the end of the address space.)
* `PageTable.EffectiveAfter`, `Mmu.PageTables.MapAllowing`: what a mapping allows, through all four
  levels.
* `KheapRuns.RunGood`, `LivePayloadsSafe`, `AllFreedAllBack` and `Kheap.KernelHeap`: live payloads
  never meet each other or a header, whole containers go back to the VMM, and the header writes do
  exactly that. `kmalloc` takes the first free block long enough and turns to the VMM if and only if
  every free block is shorter (`KheapRuns.KmallocLands`, `RoomAfterFree`); what splits and merges
  lose is bounded over every run (`KheapRuns.RunLost`). `HeapOnVmm.Kmalloc`, `Kfree`: every outcome
  of `kmalloc` with its condition on heap, region list and free frames, and handing a container back
  never panics.
* `Switching.Resumed`, `ResumedTrap`, `FirstResume`: what a resumed or a fresh process finds;
  `Processes.Cpu.Enter`, `AgreeExactly`: which exceptions leave a trap frame.
* `Lists.ForEachSafe`, `Printk.PutNbr` with `NumeralUnique`.

## Where the code departs from its intent

The intended form carries the main results; what the written form does is proved beside it.

* `kernel/mm/kheap.c:164-169` never rewrites `b->next->prev`. `Kheap.KernelHeap.Kfree` takes a flag
  for the missing write and states when the links survive without it: if and only if the container
  is released, or there is no free block before, or no used block behind. `Kheap.DanglingReached` is
  a run of four calls after which the fifth breaks the links.
* `kernel/lib/bitmap/bitmap.c:42-53` returns an unset variable when every word is zero. It is a
  parameter of `Bitmaps.Bitmap.FindAndSet`, whose contract says when the answer is still `len`;
  `Pmm` passes `len`.
* `kernel/lib/bitmap/bitmap.c:62` shifts an `int`, with the shift count taken modulo 32 as the
  processor does. `Bitmaps.UnsetAsWrittenExact` shows that the release is exact precisely for
  indices 33 to 63 of a word; `Pmm` uses the 64-bit shift.
* `kernel/mm/vmm.c:362` maps to the end of the merged region. `Vmm.VirtualMemory.AllocAt` never
  succeeds on a request that ends where a region with the same flags starts, and every other request
  that overlaps nothing fails only for want of memory.
* `kernel/arch/x86_64/mm/mmu.c:149-155` frees any managed frame a page shows, and
  `kernel/mm/vmm.c:370-379` maps any frame: nobody asks who owns it. `Vmm.VirtualMemory.Free` keeps
  the roles of frames if and only if no page of the range that was not allocated there shows a table
  page or the frame of an anonymous page outside the range. `Runs.FreedInUse` is the run allocate,
  map the same frame, free: the frame ends up free and in use, if and only if the two pages were
  vacant and there was memory for them and their tables.
* The same lines leave copies behind: a page of a copied space goes on showing a frame that its
  owner has freed. `Runs.FreeButShown` says exactly which pages do.
* `kernel/mm/vmm.c:320-338`: a region reaching `lower_va` from below panics the kernel; when all
  regions end below it the result does too; and the sums of the limit test and of the inserted end
  wrap. `FirstFit.AllocBetweenExact`: the result is the one asked for if and only if the limit test
  passes in none of these three cases. `FirstFit.Departures` has an input for each; the third is 65
  GiB asked of the heap window on the kernel's own space, whose list then holds a region that ends
  below its start while an unmapped address is returned. `Vmm.VirtualMemory.AllocBetween` keeps
  these as outcomes (`Overlaps`, `Backwards`).
* `kernel/mm/vmm.c:383`: the end of the range of `vmm_free` wraps. At or below its start it panics
  or changes the list as `RegionSpec.RemoveBackwards` says, and unmaps nothing
  (`Vmm.VirtualMemory.Free`): list and tables still agree if and only if end and start are equal.
* `kernel/mm/kheap.c:140`: the size and page count of a container wrap for the 8232 largest sizes.
  The panic "the impossible is possible" is reached if and only if nothing fits, the VMM grants a
  container, and the size is one of these (`KheapRuns.KmallocCorrect`); `KheapSpec.LargestSize` is
  `kmalloc(2^64 - 1)`, which gets five pages.
* `kernel/mm/pmm.c:178` refuses the frame at the limit itself although `pmm_alloc` can hand it out.
  `managed` holds the frames strictly above the limit; by `Kernel.LimitIsFirst` the frame at the
  limit, being the lowest, is the first to go. `vmm_create_space` takes it for the first block of
  the object allocator, or for the top-level table when no block is needed; after that, says
  `Kernel.CreateSpace`, `pmm_free` would take back every frame handed out.
* `kernel/mm/kheap.c:59-78`: a split rounds up even an end that is aligned, and nothing gives the
  slack of 1 to 16 bytes back. A `kmalloc` and `kfree` in a block that is long enough leave the
  block shorter by exactly that slack (`KheapSpec.FreedAgain`); over any run at most 16 bytes are
  lost for each `kmalloc` (`KheapRuns.RunLost`).
* `kernel/arch/x86_64/mm/mmu.c:123-141` gives a new table the writable and user bits of the request
  that needs it and never changes them. `Mmu.PageTables.MapTwo`: a second page under the same new
  table gets a bit if and only if the first request had it too and the tables above allow it.
* `kernel/arch/x86_64/interrupts/idt.asm:98,106` give vectors 21 and 29 the stub without error code,
  while `idt.h` names them for the control protection and VMM communication exceptions, for which
  processors with shadow stacks or encrypted state push one. `Processes.AgreeExactly`: stub and
  processor agree on all other vectors, and on these unless the processor has the feature; where
  they do not, the entry leaves no trap frame (`Processes.Cpu.Enter`).
* `kernel/arch/x86_64/mm/mmu.c:40` does not test the present bit of the leaf, so properties of
  frames are stated on leaf entries; `Mmu.PageTables.Translate` states what the return value is.
* `kernel/mm/vmm.c:411-423` maps before it tests for the end marker: `DirectMap.InitDirectMapping`
  runs into an alignment assertion exactly when the map has no page but page 0.
* `kernel/lib/math/math.h:11`: `ROUNDUP` moves an aligned argument by a whole step
  (`Numeric.RoundUpIsNextMultiple`); `ROUNDUP(x - 1, n)` is the ceiling.

## Model

| member | source | states |
|---|---|---|
| Numeric.RoundUpIsNextMultiple | kernel/lib/math/math.h:11 | `ROUNDUP` gives the least multiple strictly above its argument |
| Numeric.RoundUpCeiling | kernel/mm/pmm.c:66 | `ROUNDUP(x - 1, n)` is the least multiple at or above `x` |
| Numeric.IndicesInjective | kernel/arch/x86_64/mm/paging.h:32-36 | two aligned canonical addresses with the same four table indices are equal |
| Numeric.IndicesSpellPageNo | kernel/arch/x86_64/mm/paging.h:33-36 | the four indices are the base-512 digits of the page number |
| RegionSpec.SplicedCases | kernel/mm/vmm.c:196-216 | merging both, before, behind or neither replaces exactly the neighbours joined |
| RegionSpec.InsertCorrect | kernel/mm/vmm.c:187-217 | `vmm_insert_range` between the right neighbours keeps the list sorted, disjoint and merged and adds exactly the new pairs of address and flags |
| RegionSpec.AddPanicsIffOverlap | kernel/mm/vmm.c:219-243 | `vmm_add_range` panics if and only if the range overlaps some region, ranges that swallow several regions included |
| RegionSpec.AddCorrect | kernel/mm/vmm.c:219-243 | otherwise the page-to-flags map gains exactly the range and the list stays maximally merged |
| RegionSpec.RemovePanicsIff | kernel/mm/vmm.c:245-260 | on a merged list removal succeeds if and only if the whole range is held under one flags value |
| RegionSpec.RemoveClosedForm | kernel/mm/vmm.c:262-283 | all four cases, the split through two re-insertions included, leave the two remnants in the region's place |
| RegionSpec.RemoveCorrect | kernel/mm/vmm.c:245-284 | a successful removal takes exactly the range out of the map and keeps the list maximally merged |
| RegionSpec.RemoveBackwards | kernel/mm/vmm.c:245-284 | a range whose end is not above its start: nothing changes when they are equal; otherwise it panics unless a region starts there, which then starts at that end |
| RegionSpec.TidyUnique | kernel/mm/vmm.c:196-216 | two maximally merged lists with the same page-to-flags map are the same sequence |
| RegionSpec.AddThenRemove | kernel/mm/vmm.c:219-284 | adding a range and removing it restores the very same sequence, also after a merge on both sides |
| RegionList.Space.CreateRegion | kernel/mm/vmm.c:136-157 | links a new node between two neighbours; both link directions stay right along the whole list |
| RegionList.Space.RemoveRegion | kernel/mm/vmm.c:159-172 | unlinks one node; both link directions stay right |
| RegionList.Space.InsertRange | kernel/mm/vmm.c:187-217 | the nodes show exactly the specified list, or null exactly on a collision |
| RegionList.Space.AddRange | kernel/mm/vmm.c:219-243 | the loop over nodes finds the specified position; nodes show the specified list; returns the region holding the range |
| RegionList.Space.FindRegion | kernel/mm/vmm.c:251-257 | the search loop returns the node of the specified index |
| RegionList.Space.RemoveRange | kernel/mm/vmm.c:245-284 | remove, shrink left, shrink right and split on nodes show the specified list |
| FirstFit.PlaceIsLowest | kernel/mm/vmm.c:318-331 | away from a straddling region the search lands on the lowest vacant place, except exactly when all regions end below the lower bound |
| FirstFit.StraddleFound | kernel/mm/vmm.c:320-324 | a region reaching the lower bound makes the unsigned subtraction wrap and the search stop there |
| FirstFit.AllocBetweenExact | kernel/mm/vmm.c:309-340 | in 64-bit arithmetic: the lowest guarded gap that ends below the upper bound, or null when there is none, if and only if the limit test does not pass while a region reaches the lower bound, all regions end below it, or place and padded size reach 2^64 |
| FirstFit.GuardPages | kernel/mm/vmm.c:312-337 | the pages right before and right behind a request placed as asked are in no region |
| FirstFit.Departures | kernel/mm/vmm.c:320-338 | concrete lists for the three departures, among them the kernel space asked for 65 GiB |
| Bitmaps.Bitmap.constructor | kernel/lib/bitmap/bitmap.c:19-26 | all indices below `len` are free and 64 - len mod 64 spare bits are set |
| Bitmaps.Bitmap.FindAndSet | kernel/lib/bitmap/bitmap.c:39-54 | takes the lowest free index; when none is free, consumes exactly one spare bit and says exactly when the answer is `len` |
| Bitmaps.SearchMeaning | kernel/lib/bitmap/bitmap.c:44-53 | a spare bit never surfaces as an index, a failing search eats exactly one of them |
| Bitmaps.Bitmap.Unset | kernel/lib/bitmap/bitmap.c:56-63 | with a 64-bit shift: frees exactly index `i` |
| Bitmaps.Bitmap.UnsetAsWritten | kernel/lib/bitmap/bitmap.c:62 | the bits set by the `int` shift, sign extension included |
| Bitmaps.UnsetAsWrittenExact | kernel/lib/bitmap/bitmap.c:62 | the written release sets exactly the bit of its index, whatever the word held, if and only if the index is one of the upper 31 of its word |
| Bitmaps.ReleasedAsWrittenExact | kernel/lib/bitmap/bitmap.c:56-63 | over the whole bitmap: the set of indices the written release frees is its own index alone if and only if that is one of the upper 31 of its word |
| Bitmaps.UnsetZeroReleases33 | kernel/lib/bitmap/bitmap.c:62 | releasing index 0 of a taken word releases 33 indices |
| Pmm.FirstIsLowest | kernel/mm/pmm.c:162-174 | the first free page of the first region with one is the lowest free frame |
| Pmm.FrameAllocator.Alloc | kernel/mm/pmm.c:162-174 | removes and returns the lowest free frame; 0 exactly when none is free |
| Pmm.FrameAllocator.Free | kernel/mm/pmm.c:176-193 | panics exactly on frames that are not above the limit in available memory; otherwise adds exactly that frame to the free set |
| PhysMap.AreaOfRegular | kernel/mm/pmm.c:53-68 | an entry becomes its outward rounding to pages, cut at the kernel's end when available |
| PhysMap.AreaPages | kernel/mm/pmm.c:53-68 | the area of an accepted entry holds page `p` if and only if the entry, cut at the kernel's end when available, reaches into it |
| PhysMap.AreasPages | kernel/mm/pmm.c:86-98 | the accepted areas hold a page with a kind if and only if an entry of type 2, or of type 1 starting at 0x100000 or above, reaches it and is of that kind |
| PhysMap.AreasApart | kernel/mm/pmm.c:70-98 | no area clashes if and only if no page is reached by two counted entries; then starts are distinct too |
| PhysMap.StopSpelled | kernel/mm/pmm.c:65-68 | for every 64-bit entry the page count and `addr_stop` agree modulo 2^64 |
| PhysMap.ClashMeaning | kernel/mm/pmm.c:70-77 | the overlap test fires if and only if the two areas share a page |
| PhysMap.Table.Insert | kernel/mm/pmm.c:53-78 | stores the area and panics if and only if it clashes with an earlier one |
| PhysMap.Table.Sort | kernel/mm/pmm.c:34-51 | in place: sorted by address, a permutation, and with it free of clashes and of equal starts exactly as before |
| PhysMap.Table.IsSorted | kernel/mm/pmm.c:24-31 | on a sorted map: true if and only if no two areas start at the same address |
| PhysMap.Table.Init | kernel/mm/pmm.c:80-102 | panics if and only if more than ten entries count or a page is reached by two of them, when none is empty or wraps; then a page is in the map with a kind if and only if such an entry reaches it; in any case a sorted permutation |
| PhysMap.LayoutOfMap | kernel/mm/pmm.c:127-141 | such a map is the layout the frame allocator needs |
| PhysMap.Table.NextPhysPage | kernel/mm/pmm.c:112-125 | the lowest page of the map above the argument, or the marker 1 exactly when there is none |
| PageTable.GrowKeepsTree | kernel/arch/x86_64/mm/mmu.c:122-141 | hanging a zeroed frame into an empty entry keeps the tree free of shared nodes |
| PageTable.GrowKeepsLeaves | kernel/arch/x86_64/mm/mmu.c:122-141 | and changes no leaf entry of any space |
| PageTable.WriteLeaf | kernel/arch/x86_64/mm/mmu.c:143-145 | writing one last-level entry keeps the tree and sets the leaf of that page |
| PageTable.WriteLeafFrame | kernel/arch/x86_64/mm/mmu.c:143-145 | and leaves the leaf of every other page of every space alone |
| PageTable.TableEntryAllows | kernel/arch/x86_64/mm/mmu.c:123-141 | the entry of a new table is present and has the writable and user bits of the request, and not the global one |
| PageTable.EffectiveAfter | kernel/arch/x86_64/mm/mmu.c:105-146 | after mapping a page, all four levels allow writing, or user access, if and only if the request does and every table that was there before did |
| PageTable.FirstDecides | kernel/arch/x86_64/mm/mmu.c:123-141 | where a mapping had to create the last table, what a later mapping under it grants depends on the first one's bits |
| Mmu.PageTables.Descend | kernel/arch/x86_64/mm/mmu.c:122-141 | one level of the walk: the table behind an entry, created when absent |
| Mmu.PageTables.MapPage | kernel/arch/x86_64/mm/mmu.c:105-146 | sets exactly the leaf of the page, returns the old leaf, moves frames only from the free set to the tables, adds exactly the missing ones of the three tables of the page, each with the writable and user bits of the request, and fails only with no frame left and the last one missing |
| Mmu.PageTables.MapAllowing | kernel/arch/x86_64/mm/mmu.c:105-146 | the write and user access that the whole walk grants the page afterwards; for every other page it stays as it was |
| Mmu.PageTables.MapTwo | kernel/arch/x86_64/mm/mmu.c:123-141 | two pages under one new table: the second never gets what the first did not ask for |
| Mmu.PageTables.UnmapPage | kernel/arch/x86_64/mm/mmu.c:149-155 | panics exactly when the page is unmapped or shows a frame that is not managed; otherwise clears exactly that leaf, keeps all tables, and frees the old frame |
| Mmu.PageTables.Translate | kernel/arch/x86_64/mm/mmu.c:15-41 | for an aligned address: the frame of the leaf when its tables exist, all ones otherwise |
| Mmu.PageTables.NewRoot | kernel/arch/x86_64/mm/mmu.c:172-176 | a new space whose leaves are all 0, out of one free frame |
| Coherence.CoherentMeaning | kernel/mm/vmm.c:309-392 | in agreement means: a page is in a region with flags f if and only if its leaf is nonzero and carries f |
| Coherence.UsedExactlyByMerge | kernel/mm/vmm.c:358-366 | the mapping loop meets a page in use if and only if the insertion merged with the next region |
| Coherence.RolesMapped | kernel/arch/x86_64/mm/mmu.c:123-146 | taking a frame for a page keeps free, table and page frames pairwise apart and loses none |
| Vmm.DrainedRoles | kernel/mm/vmm.c:387-391 | freeing all frames a range shows leaves every frame one role if and only if the range owns them |
| Vmm.AllAnonymous | kernel/mm/vmm.c:381-392 | a range of anonymous pages owns its frames |
| Vmm.FindPlace | kernel/mm/vmm.c:314-331 | the loop over nodes finds the specified place and neighbours |
| Vmm.PlaceFits | kernel/mm/vmm.c:312-340 | a range placed by the search joins neither neighbour and touches no region, also where the place is not the one asked for |
| Vmm.Enough | kernel/mm/vmm.c:342-346 | a range that could be mapped cost no more frames than were free: one for each page and one for each missing table |
| Vmm.TooFew | kernel/mm/vmm.c:342-346 | a loop stopped by lack of memory, on whichever page and level, had fewer to start with |
| Vmm.VirtualMemory.FillRegion | kernel/mm/vmm.c:342-346 | the mapping loop never succeeds after a merge behind; otherwise it fails if and only if there are fewer free frames than pages and missing tables, and restores agreement |
| Vmm.VirtualMemory.AllocBetween | kernel/mm/vmm.c:309-349 | each outcome if and only if the 64-bit placement and the free frames say so; on success region list, leaves and frame roles are in step; a range placed backwards ends up in the list, no page mapped, and list and tables disagree |
| Vmm.VirtualMemory.AllocAt | kernel/mm/vmm.c:352-368 | each outcome with its exact condition, lack of memory included; on success list and leaves grow by exactly the range |
| Vmm.VirtualMemory.Map | kernel/mm/vmm.c:370-379 | one page to the named frame; panics exactly on overlap, or when there are fewer free frames than missing tables |
| Vmm.VirtualMemory.Drain | kernel/mm/vmm.c:387-391 | the unmapping loop gets through if and only if every frame shown is managed; then exactly the range is unmapped and exactly these frames are free |
| Vmm.VirtualMemory.Free | kernel/mm/vmm.c:381-392 | panics exactly on ranges not held under one flags value or showing a frame that is not managed; otherwise unmaps exactly the range and frees the frames it shows; the roles survive if and only if the range owned them; where the end wraps, what becomes of the list and when it still agrees |
| Requests.AdmittedSpelled | kernel/mm/vmm.c:352-392 | which requests are made, in numbers: page aligned, with flags that say present, within one half of the canonical addresses |
| Requests.CarriedOutMeaning | kernel/mm/vmm.c:309-392 | what it means that a request is carried out: the answer and the new list that the old list calls for, and the leaves, free frames and tables it changes |
| Requests.FilledFrames | kernel/mm/vmm.c:342-346 | the frames that a filled range shows were free before, and the other frames gone are the new tables |
| Requests.TakableMeaning | kernel/mm/vmm.c:245-284 | which ranges whose end is not above their start a release lets through |
| Requests.AnsweredView | kernel/mm/vmm.c:309-392 | an answered request adds or takes away exactly its range in the page-to-flags map |
| Requests.TraceViews | kernel/mm/vmm.c:309-392 | over any sequence of answered requests the map of each space is the first one plus and minus their ranges in order |
| Runs.AllocThenFree | kernel/mm/vmm.c:352-392 | restores list, leaves and anonymous pages; the free set only loses new table pages; the release can fail only where `pmm_alloc` hands out a frame that `pmm_free` refuses |
| Runs.AllocBetweenThenFree | kernel/mm/vmm.c:309-392 | the same for `vmm_alloc_between` |
| Runs.FreedInUse | kernel/mm/vmm.c:352-392 | allocate a page, map its frame a second time, free that: the frame is free and still in use; the three calls succeed if and only if both pages are vacant, the first does not touch a region behind, and there are frames for it and the tables of both |
| Runs.PerformOn | kernel/mm/vmm.c:309-392 | one request on one space is carried out: success, null and each panic if and only if arguments, list and free frames say so, with the exact change of list, leaves, free and anonymous frames; keeps the invariant of all spaces and leaves the lists and anonymous pages of the others alone |
| Runs.FreeButShown | kernel/mm/vmm.c:381-392 | after a release of allocated pages exactly these pages show a free frame: outside the range, those that did before and the shared ones that show a frame of the range |
| Runs.FreeShownShared | kernel/mm/vmm.c:309-392 | between calls only shared pages show free frames |
| Runs.Run | kernel/mm/vmm.c:309-392 | over every sequence of requests on any number of spaces that releases only allocated pages, until a panic or a wrapped range: every request carried out on list, leaves and frames, the map of each space changed by exactly their ranges in order, agreement, one role per frame, none lost; it stops early only with an answer that the memory at that point calls for |
| Kernel.GoodAtStart | kernel/mm/vmm.c:426-430 | before the first space the invariant holds |
| Kernel.CreateSpace | kernel/mm/vmm.c:287-293 | an empty space beside the others keeps the invariant; takes the lowest free frame, after one for the object allocator when that needs a block; fails exactly when there are too few; from the state after `pmm_init` on, every frame handed out can be given back |
| Kernel.LimitIsFirst | kernel/mm/pmm.c:162-193 | the one frame that `pmm_alloc` hands out and `pmm_free` refuses is the first to go |
| Kernel.CopySpace | kernel/multitasking/process.c:34-37 | copying one space into an empty one: same list, same leaf for every page, nothing else changed; keeps the invariant of all spaces; the pages of the copy are shared; fails exactly when there are fewer free frames than missing tables |
| Kernel.MapPhysical | kernel/mm/vmm.c:408-442 | the direct mapping keeps the invariant of all spaces and maps by kind; its pages are shared; its exact failures |
| SpaceCopy.RebuiltInOrder | kernel/mm/vmm.c:464-469 | adding the regions of a merged list one by one rebuilds it, without panic or merge |
| SpaceCopy.CopyPages | kernel/arch/x86_64/mm/mmu.c:157-165 | copies exactly the leaves of one region |
| SpaceCopy.CopyRegions | kernel/mm/vmm.c:460-470 | panics if and only if there are fewer free frames than the copy needs tables; same regions, same leaf for every page, source unchanged |
| SpaceCopy.CompareMapping | kernel/arch/x86_64/mm/mmu.c:75-101 | accepts if and only if regions, flags and the translation of every page agree |
| SpaceCopy.CopyAccepted | kernel/arch/x86_64/mm/mmu.c:75-101 | the comparison accepts every copy |
| DirectMap.InitDirectMapping | kernel/mm/vmm.c:408-424 | visits every page but page 0 once, ascending, and ends at the last one; maps page `p` at 0xffff800000000000 + `p`, present, global, not for users, writable if and only if available; changes no other leaf; never overlaps; keeps list and tables in agreement; an assertion fails exactly when there is no page but page 0, and memory runs out exactly when there are fewer free frames than missing tables |
| DirectMap.ReportedMapped | kernel/mm/pmm.c:80-102 | from the boot loader's entries to leaves: every page that a counted entry reaches is mapped so |
| KheapSpec.NextDataBounds | kernel/mm/kheap.c:57-60 | the header behind an allocation ends at a multiple of 16, leaving 1 to 16 bytes of slack |
| KheapSpec.FindFitMeaning | kernel/mm/kheap.c:46-51 | the search ends without a block if and only if every free block is shorter than the request, else at the first free one that is not |
| KheapSpec.CarvedPacked | kernel/mm/kheap.c:55-78 | a split keeps payload and new header inside the old block, aligned and in order, the first of the two in use for the requested size |
| KheapSpec.CarvedCost | kernel/mm/kheap.c:55-78 | a split keeps the end of the block and loses only the slack, at most 16 bytes; the first part has the requested size |
| KheapSpec.AllocKeeps | kernel/mm/kheap.c:42-81 | allocation keeps the container in shape, no two free neighbours, one more used block |
| KheapSpec.FreshContainerFits | kernel/mm/kheap.c:83-146 | in 64-bit arithmetic: a fresh container has room if and only if size, header and two pages stay below 2^64 |
| KheapSpec.LargestSize | kernel/mm/kheap.c:140-146 | `kmalloc(2^64 - 1)` gets five pages and has no room in them |
| KheapSpec.NewContainerOk | kernel/mm/kheap.c:83-108 | a fresh container is well formed and unused |
| KheapSpec.MergedPacked | kernel/mm/kheap.c:162-177 | merging loses slack but never reaches beyond the last block merged |
| KheapSpec.MergedSize | kernel/mm/kheap.c:162-177 | the merged block has the payloads of all merged ones and the headers in between |
| KheapSpec.ReleaseCost | kernel/mm/kheap.c:152-178 | a release loses not a byte of the container's headers and payloads |
| KheapSpec.FreedAgain | kernel/mm/kheap.c:42-178 | allocating in a block and releasing it restores the container, except that the block lost the slack |
| KheapSpec.ReleaseKeeps | kernel/mm/kheap.c:152-178 | release keeps the container in shape, no two free neighbours, one used block less |
| KheapRuns.LivePayloadsSafe | kernel/mm/kheap.c:42-81 | live payloads are aligned to 16, pairwise disjoint, and off every block and container header |
| KheapRuns.KmallocLands | kernel/mm/kheap.c:130-150 | if some free block is long enough, the first one of the first container with one is used and the VMM not asked; otherwise null or a new container in front |
| KheapRuns.RoomAfterFree | kernel/mm/kheap.c:47 | a size not above the one just freed is granted without the VMM while the container stays |
| KheapRuns.KmallocCorrect | kernel/mm/kheap.c:130-150 | adds exactly the new allocation of the requested size; the "impossible" panic is met if and only if nothing fits, the VMM grants, and the size is one at which the sums wrap |
| KheapRuns.KfreeCorrect | kernel/mm/kheap.c:152-178 | drops exactly the freed allocation; hands a container back if and only if that was its last one, with its own page count |
| KheapRuns.RunGood | kernel/mm/kheap.c:124-178 | the heap invariant and the page balance hold in every state of every run |
| KheapRuns.IdleIsWaiting | kernel/mm/kheap.c:83-161 | in every state of a run the containers without used blocks are exactly those of `kheap_init` that no allocation has landed in |
| KheapRuns.AllFreedAllBack | kernel/mm/kheap.c:110-161 | once nothing is live, the containers left are the untouched ones of `kheap_init` and the pages out are theirs; all pages are back if and only if an allocation landed in each of those |
| KheapRuns.NoneWaiting | tests/kheap.c:67-93 | without `kheap_init` there are none such, so the balance is even |
| KheapRuns.RunLost | kernel/mm/kheap.c:59-81 | over every run the bytes of the containers in neither headers nor payloads are at most 16 for each `kmalloc` |
| Kheap.FreedShown | kernel/mm/kheap.c:162-177 | the header writes of `kfree` leave correct double links if and only if the missing write is added or was not needed |
| Kheap.UnlinkedJoin | kernel/mm/kheap.c:164-169 | the written backward merge is right exactly when nothing lies behind; otherwise a `prev` names the swallowed block |
| Kheap.DanglingReached | kernel/mm/kheap.c:152-178 | a concrete run that reaches the failing case |
| Kheap.KernelHeap.TryAllocBlock | kernel/mm/kheap.c:42-81 | on headers in memory: 0 if and only if every free block is shorter than the request, else the first that is not, split with both links right |
| Kheap.KernelHeap.CreateContainer | kernel/mm/kheap.c:83-108 | a new container in front of the list, headers of all others unchanged in meaning |
| Kheap.KernelHeap.RemoveContainer | kernel/mm/kheap.c:110-122 | unlinks the container from both sides and hands back exactly its pages |
| Kheap.KernelHeap.Kmalloc | kernel/mm/kheap.c:130-150 | the headers end up showing exactly the specified heap; null if and only if every free block of every container is shorter and the VMM grants nothing; the "impossible" answer exactly in the case above |
| Kheap.KernelHeap.Kfree | kernel/mm/kheap.c:152-178 | the specified heap and returned range; headers correct if and only if the missing write was added or not needed |
| HeapOnVmm.DeliversGrant | kernel/mm/kheap.c:83-89 | a range placed by the VMM is aligned, not at 0, of the size the container takes itself to have, and clear of all containers |
| HeapOnVmm.PlacedInserted | kernel/mm/vmm.c:309-340 | thanks to the guard pages a placed request becomes a region of its own |
| HeapOnVmm.GiveBack | kernel/mm/kheap.c:120-121 | the `vmm_free` of a container never panics and takes exactly its region out |
| HeapOnVmm.ContainerMapped | kernel/mm/kheap.c:86-89 | every page of a container is present, writable, global and not for users |
| HeapOnVmm.Kmalloc | kernel/mm/kheap.c:130-150 | with the VMM in place of a parameter: the specified heap, containers backed by regions and anonymous pages of their own; got, null, each panic and the page fault if and only if heap, placement and free frames say so; the VMM is left alone, or carries out exactly the request for the container |
| HeapOnVmm.Kfree | kernel/mm/kheap.c:152-178 | never panics, keeps heap, regions and frames in step; the VMM is left alone, or carries out exactly the release of the container handed back |
| KernelRuns.AllowedSpelled | kernel/multitasking/process.c:33-41 | all requests of processes are made but `vmm_map` outside the higher half and releases that end outside the lower one |
| KernelRuns.LowIsCareful | kernel/multitasking/process.c:33-41 | a release in the lower half never touches a page that shows a frame it does not own |
| KernelRuns.OnMalloc | kernel/mm/kheap.c:130-150 | a `kmalloc` between other calls keeps the invariant of the whole; the answer, the new live pointer and its size, and what the VMM did, as heap, placement and free frames say |
| KernelRuns.OnFree | kernel/mm/kheap.c:152-178 | a `kfree` of any live pointer between other calls never panics, keeps the invariant, drops that pointer and gives back at most its container |
| KernelRuns.CopyInto | kernel/multitasking/process.c:33-37 | a copy of the kernel's space, heap included, keeps the invariant of the whole, has the same list and leaves, and fails exactly when there are fewer free frames than missing tables |
| KernelRuns.Boot | kernel/mm/vmm.c:426-442 | the kernel's space with the direct mapping by kind and an empty heap satisfy the invariant, for every map of the physical memory; what a failure means |
| KernelRuns.ExplainedMeaning | kernel/multitasking/process.c:22-60 | what each event makes of memory, heap and live pointers, and the exact reasons for which it can be the last |
| KernelRuns.Step | kernel/multitasking/process.c:22-60 | one event: what it answers and changes, nothing else changed |
| KernelRuns.RunKernel | kernel/multitasking/process.c:22-60 | over every interleaving of heap calls, new spaces, copies and requests: every event carried out on lists, leaves, frames, heap and live pointers; agreement of every space, one role per frame, none lost but to the object allocator, live allocations apart, containers backed by regions of their own; it ends early only for a reason that the state at that point gives |
| Machines.SuspendedContext | kernel/arch/x86_64/multitasking/switch.asm:6-13 | the pushes lay out `struct context` below the return address and write nothing else |
| Machines.SwitchedContext | kernel/arch/x86_64/multitasking/switch.asm:14-24 | the pops and the return load the context at the new stack pointer; segments, flags and scratch registers stay as they are |
| Machines.TrappedFrame | kernel/arch/x86_64/interrupts/idt.asm:17-48 | the entry pushes lay out `struct trap_frame` of the interrupted state and write nothing else |
| Machines.TrapRoundTrip | kernel/arch/x86_64/interrupts/idt.asm:33-74 | `trap_ret` turns the frame into the processor state; an untouched frame restores the interrupted state |
| Processes.Cpu.SwitchAsm | kernel/arch/x86_64/multitasking/switch.asm:5-24 | instruction by instruction equal to the specified switch; the old stack pointer is stored |
| Processes.Cpu.Switch | kernel/arch/x86_64/multitasking/process.c:15-22 | nothing for the running process, otherwise the entry stack and page table of the next process and the switch to its saved context |
| Processes.AgreeExactly | kernel/arch/x86_64/interrupts/idt.asm:77-113 | the stubs expect an error code exactly where the processor pushes one, on all 256 vectors, but for 21 with shadow stacks and 29 with encrypted state |
| Processes.Cpu.Enter | kernel/arch/x86_64/interrupts/idt.asm:16-113 | leaves the 176 bytes of a trap frame of the interrupted state if and only if stub and processor agree on the vector; the error word is the processor's code for 8, 10 to 14, 17 and 30; its address is the handler's argument |
| Processes.Cpu.TrapReturn | kernel/arch/x86_64/interrupts/idt.asm:56-74 | loads every register from the frame and consumes exactly its 176 bytes |
| Processes.Cpu.ArchInit | kernel/arch/x86_64/multitasking/process.c:30-50 | frame, return address and context at the top of the stack, nothing else written |
| Processes.FreshPath | kernel/arch/x86_64/multitasking/process.c:24-49 | such a stack leads through `process_first_run` and `trap_ret` to user space, privilege 3 with descriptors 3 and 4 and all registers clear, and ends at its top |
| Switching.StepLeavesOthers | kernel/arch/x86_64/multitasking/process.c:15-50 | no step touches the context or stack of a waiting process |
| Switching.RunGood | kernel/arch/x86_64/multitasking/process.c:15-50 | disjoint stacks and contexts inside them, in every state of every run |
| Switching.Resumed | kernel/arch/x86_64/multitasking/switch.asm:5-24 | a resumed process finds the callee-saved registers, stack pointer, return address and stack of its last suspension; the switch leaves segments and flags alone |
| Switching.ResumedTrap | kernel/arch/x86_64/interrupts/idt.asm:56-74 | hence a trap frame below which it was suspended still restores the interrupted state |
| Switching.FirstResume | kernel/arch/x86_64/multitasking/process.c:24-50 | the first switch to a fresh process ends in user space at privilege 3, with entry, stack, descriptors and flags of its creation and clear registers |
| Lists.MutuallyInverse | kernel/lib/list/list.h:6-9 | around a ring `next` and `prev` undo each other |
| Lists.Rotated | kernel/lib/list/list.h:6-9 | any node of a ring can serve as its head |
| Lists.AddBetween | kernel/lib/list/list.h:25-31 | the ring gains the element at exactly that position |
| Lists.Add | kernel/lib/list/list.h:33-36 | insertion in front |
| Lists.AddTail | kernel/lib/list/list.h:38-41 | insertion at the back |
| Lists.Del | kernel/lib/list/list.h:43-54 | the ring loses exactly that node, whose links become null |
| Lists.IsEmpty | kernel/lib/list/list.h:56-59 | true if and only if there is no element |
| Lists.ForEachSafe | kernel/lib/list/list.h:70-72 | deleting any subset on the way, visits every original element once in order and leaves the kept subsequence |
| Printk.WidthSuffices | kernel/lib/printk/printk.c:7-12 | the table holds exactly the digit count of the largest 64-bit value, for each base from 2 to 16 |
| Printk.NumeralUnique | kernel/lib/printk/printk.c:14-29 | a value has one digit string without leading zeros |
| Printk.PutNbr | kernel/lib/printk/printk.c:14-29 | stays in its buffer and prints digits without leading zeros that evaluate back to the value |
| Printk.PutPtr | kernel/lib/printk/printk.c:31-49 | prints `0x` and sixteen digits that evaluate back to the value |

## Left out

* Runs.Run: a request whose arguments break an assertion or lead outside the canonical addresses is skipped rather than made; what a run does after a panic or a wrapped range is not said.
* KernelRuns.RunKernel: passes over the same requests, `vmm_map` in the lower half, releases in the higher one, and requests on the kernel's own space other than those of the heap; `kfree` is the one with the missing write.
* Vmm.VirtualMemory.AllocBetween: requires that the range placed lies within canonical addresses, since the page tables cannot hold others; `HeapOnVmm.PlacedHigh` shows that in the higher half it does.
* The VMM object allocator (`kernel/mm/vmm.c:28-117`): region nodes are fresh objects and take no frames, so the exact frame counts are of pages and tables; only `Kernel.CreateSpace` accounts for a block. `vmm_delete_space` is not modelled.
* `pmm_init`'s bitmap placement and limit (`kernel/mm/pmm.c:127-152`, `bitmap.c:25`): bitmaps that do not overlap and the pages still free are given to the constructor.
* 64-bit wrap-around is modelled where it decides an outcome: in `vmm_alloc_between`, `vmm_free`, `kmalloc` with `create_container`, and `pmap_insert`. `vmm_alloc_at` and `vmm_map` are stated for ranges within canonical addresses, whose sums do not wrap.
* TLB invalidation, what loading CR3 or the TSS does in the processor, GDT, IDT encoding, interrupt controllers, timers.
* `cld` and the flags the processor clears on interrupt entry: `iretq` restores the saved flags whatever they were.
* `kernel/multitasking/sched.c`, `signal.c`, `kernel/fs/vfs.c`: no settled policy, or not part of the build.
* `mmu_test_kernel_mapping`, `vmm_init_phys_contiguous_region`, the other `printk` conversions, VGA output, string helpers, multiboot and ACPI walking: easy members, boot plumbing or devices.
* In `KheapRuns` and `Kheap` the VMM's answer to `create_container` is a parameter (`HeapOnVmm` puts the VMM there); the boot loader's memory map, hardware error codes and interrupted states are parameters too.
* The imperative kernel heap stores headers in maps by address; payload bytes and the overlap of a header with bytes written through a stale pointer are not modelled.
