# A verified model of the kernel's memory manager, RAM file system and console

Three parts of the kernel are modelled in Dafny and properties of them proved.

**Memory manager.** Physical memory is a map from frame numbers to tables of 512 entries, seen through the direct map
as the identity. `PageTree` holds the code's lookups and the processor's four-level walk (section 4.5 of the Intel SDM,
volume 3A) side by side. `Machines` joins memory, frame bitmap and cursor into one value and gives the operations on one
page; `PageRuns`, `FrameRanges` and `Allocation` build `alloc_pages`, `dealloc_pages` and `map_physical` from them. A
`Ledger` records where each table is, which frame each page of a live allocation owns, and the single use of each frame
in use; the invariant (`Core`, with the states that satisfy it as the type `Sound`) ties the ledger to the tables, to where
every page leads and to the bitmap. `AllocatorRuns` and `AllocatorTheorems` state safety over every run of allocations,
deallocations, physical mappings and arbitrary writes by whoever holds a page, and `WriteAccess` says of every run which
pages the processor lets be written. `PhysicalFrames` states `map_physical` in terms of bytes, `Releases` what
`dealloc_pages` does with any range of pages, owned or not. `KernelMemory` has the objects that are
updated in place; each method is proved to leave exactly the machine that `RawKernel` computes, and `RawKernel` is
proved to agree with the specification as long as frames last; `Exhaustion` and `DryRuns` say what it does after that,
and `FailingMachines` has concrete machines on which it falls short. `HeapAllocator` is the byte-level allocator on top,
and `HeapRuns` states its safety over every run.

The memory results assume what the code assumes: the boot tables form a tree outside the pool of frames and have no
large page at level 3 (`page_entry` looks for HUGE_PAGE at level 2 only, src/memory/paging.rs:263), flags stay outside the
address mask, flags of mappings have PRESENT and not HUGE_PAGE (`LargePages` says what happens otherwise), and the pool
lies below 2^52, so that its frames have addresses to store (`EntryWords`, `MappedWords`). Requests are for at least one
page: for requests that map none, `ZeroPages` says exactly when live allocations survive them. Runs of the allocator go
on as long as frames last and no page run touches the very last page, where the page iterator panics
(src/memory/paging.rs:197-198).

**RAM file system.** Directories and files are objects with identities; entries refer to them, lookups answer the first
match, and duplicate names are allowed, as in the code. `Ramfs` has the operations on path strings with every `unwrap`
that could fail shown as `Panic`; `Paths` ties the string operations to component lists; `RamfsLookup`, `RamfsEdits` and
`RamfsTheorems` state what resolves to what before and after each operation; `RamfsRuns` shows that any sequence of calls
keeps the invariant they need; `RamfsListing` is about listing a directory. `FileHandles` is about positions, reading and
writing; `RamfsObjects` has the objects.

**Console.** `Screens` models the framebuffer byte by byte, `TextGrid` the grid of character cells, and the class in
`Consoles` keeps the framebuffer equal to the rendering of the grid. The font is a parameter of at least 4096 bytes.

Where the code and its documentation or evident intent disagree the model follows the code:

- `alloc_pages` is documented to answer None when the pages cannot be allocated (src/memory/virt.rs:87); when frames run
  out it does not (`Exhaustion.OutOfFramesUnreported`, `FailingMachines.SecondAllocationUnbacked`); nor does
  `map_physical` (`Exhaustion.PhysOutOfFramesUnreported`).
- `alloc_pages(0)` takes the page under the cursor away from its owner (`ZeroPages.AllocationKeepsOwnedIff`,
  `FailingMachines.ZeroPagesTakesPageOne`). `map_physical` of no pages at an aligned address does so too, and freeing the
  allocation it was taken from can then panic (`ZeroPages.PhysicalKeepsOwnedIff`, `ZeroPages.PhysicalZeroTakesPage`,
  `FailingMachines.PhysicalZeroBreaksFree`).
- With some frames left but not enough, a request can take pages away from live allocations, because frames that hold
  data are read as tables (`FailingMachines.LastFrameReadAsTable`); with none left it cannot
  (`DryRuns.DryAllocDisturbsNothing`).
- `map_page_unchecked` takes a large page for a table and writes into its memory, and given HUGE_PAGE it makes large
  pages of the tables it creates (`LargePages.MapPageTranslatesIff`, inputs in `FailingMachines`).
- Links between tables get the flags of the page mapped; links from boot keep theirs, so a page can be mapped writable and
  yet not be writable (`WriteAccess.LivePagesWritableIff`).
- `dealloc` misses the allocation for alignments above the page size unless its first page is aligned
  (`HeapAllocator.RecoveredIff`).
- Deleting a missing path succeeds when its directory exists, although PathDoesNotExist is documented for it
  (src/fs/vfs.rs:9-11, `RamfsTheorems.DeleteReportsMissingIff`).
- Creating an existing path never answers PathAlreadyExists (src/fs/vfs.rs:19, `RamfsTheorems.PanicsExactlyOnRoot`) but
  succeeds (`RamfsTheorems.CreateTwice`): creation does what it is meant to exactly when the path does not exist
  (`RamfsTheorems.CreateFileRightIff`, `RamfsTheorems.CreateDirRightIff`).
- On paths that start with exactly two slashes the operations resolve differently from each other
  (`DoubleSlashes.OpensIffExistsIff`): `delete("//x")` removes `/x` (`DoubleSlashes.DoubledDelete`), while creating
  `//d/x` finds no directory (`DoubleSlashes.DoubledCreate`).
- `open_dir` joins paths without a separator, so it names entries rightly in the root only (`RamfsListing.ListingRightIff`,
  `RamfsListing.ListedPathMissing`).
- `relative_to` takes a sibling with a longer name for something below (`Paths.RelativeToIff`).
- A character is drawn one pixel further right than the test for the end of the line assumes, so widths that leave 8
  modulo 9 panic (`TextGrid.SurvivesIff`, `Consoles.SessionsSurviveIff`).

## Model

| member | source | states |
|---|---|---|
| EntryWords.SetAddrRoundTrip | src/memory/paging.rs:34-52 | address and flags stored in an entry come back unmixed if and only if the address is aligned and below 2^52 and the flags lie outside the address field |
| EntryWords.SetAddrDecodes | src/memory/paging.rs:45-48 | a word stored with arguments that respect the mask decodes to the frame number in the address and to the flags |
| EntryWords.StoredEntry | src/memory/paging.rs:45-48 | every frame below 2^40 has an address that respects the mask, and the word stored for it and any flags outside the address field decodes to exactly that frame and those flags |
| EntryWords.AddressSpills | src/memory/paging.rs:45-48 | at address 2^52 the stored address is lost from the address field and appears among the flags |
| EntryWords.DecodedFrame | src/memory/paging.rs:34-39 | every word decodes to a frame below 2^40 |
| EntryWords.DecodeInjective | src/memory/paging.rs:34-52 | different words decode to different entries, so nothing is lost by working on decoded entries |
| EntryWords.DecodedConstants | src/memory/paging.rs:30-32 | the word 0 decodes to the empty entry, and the flag bits 0x3 to the flags the allocator uses |
| EntryWords.FlagPositions | src/memory/paging.rs:80-95 | of any word, bit 0 is PRESENT, bit 1 WRITABLE and bit 7 HUGE_PAGE |
| EntryWords.AddressField | src/memory/paging.rs:34-39 | the address of a word is its bits 12 to 51 |
| EntryWords.MaskMeaning | src/memory/paging.rs:37-52 | the arguments that come back unmixed are the addresses with the low and the high 12 bits clear and the flags without any of bits 12 to 51 |
| EntryWords.AddressIsProduct | src/memory/paging.rs:45-48 | the address stored for a frame below 2^40 is the frame number times 4096 |
| Pages.IndicesAsComputed | src/memory/paging.rs:149-162 | the base-512 digits used as indices are the divisions and remainders the code computes |
| Pages.IndicesOfPage | src/memory/paging.rs:137-162 | the four indices of a canonical page number give the number back |
| Pages.PageOfIndices | src/memory/paging.rs:137-162 | every quadruple of indices below 512 is that of one page below 2^36 |
| Pages.SlotsIdentifyPage | src/memory/paging.rs:137-162 | two page numbers use the same four slots if and only if their canonical numbers are equal |
| Pages.NextByIsIteratedNext | src/memory/paging.rs:164-175 | next_by(k) equals k applications of next, including when it fails |
| Pages.PageIter.constructor | src/memory/paging.rs:178-190 | an iterator over the pages start..=end |
| Pages.PageIter.NextPage | src/memory/paging.rs:192-204 | yields start and moves on while start <= end; requires that the successor exists, which the code unwraps |
| Pages.Visit | src/memory/paging.rs:192-204 | a loop over the iterator visits exactly start..=end, in order |
| PageTree.LookupsFollowShape | src/memory/paging.rs:250-314 | in a memory whose tables form a tree both lookups end at the level-1 table of the page when it exists; page_entry reaches a slot exactly then, reports a large page exactly when the level-2 slot has HUGE_PAGE set, and otherwise the level of the last table there is; without a level-1 table page_entry_mut goes into a present level-2 slot and nowhere else |
| PageTree.IsPresentMeansMapped | src/memory/paging.rs:316-322 | is_present holds if and only if the processor's walk finds a leaf or the level-2 slot has HUGE_PAGE set and PRESENT clear |
| PageTree.WalkIsShapeWalk | src/memory/paging.rs:250-282 | the processor's four-level walk ends at the level-1 entry of the page, at a large page, or nowhere, as the tree of tables says |
| PageTree.TablesUnique | src/memory/paging.rs:99-102 | a memory has at most one tree: which frames hold tables is determined |
| PageTree.LinkTable | src/memory/paging.rs:339-346 | linking a cleared frame below an empty slot extends the tree if and only if the flags have PRESENT and not HUGE_PAGE; every page then leads where it led |
| PageTree.SetLeaf | src/memory/paging.rs:379-386 | writing a level-1 slot changes where that page leads and no other, and keeps the tree |
| PageTree.WriteElsewhere | src/memory/paging.rs:99-102 | writing to a frame that holds no table changes neither the tree nor where any page leads |
| Bitmaps.FirstFree | src/memory/physical.rs:97-111 | the lowest clear bit, and none exactly when all are set |
| FrameRanges.ScanRange | src/memory/physical.rs:133-137 | when the scan finds the range clear, the range fits the bitmap |
| FrameRanges.ScanMeaning | src/memory/physical.rs:133-137 | the scan answers clear if and only if the range fits and no bit in it is set, and busy if and only if some bit of it inside the bitmap is set |
| FrameRanges.MarkRange | src/memory/physical.rs:139-141 | marking sets exactly the bits of the range |
| FrameRanges.RollbackRestores | src/memory/virt.rs:207-214 | freeing the frames of a reservation one by one gives back the very machine before it |
| FrameRanges.HoldRange | src/memory/physical.rs:126-143 | reserving a clear range holds exactly its frames and changes nothing else |
| Alignment.AlignUpIsLeast | src/memory/physical.rs:23-30 | align_up answers the least multiple of the alignment not below the address |
| Alignment.AlignDownIsGreatest | src/memory/physical.rs:32-35 | align_down answers the greatest multiple of the alignment not above the address |
| Machines.TakeFrameHolds | src/memory/physical.rs:97-111 | taking a frame keeps the invariant, holds one frame that was in no use, and fails exactly when no frame is free |
| Machines.EnsureTableKeeps | src/memory/paging.rs:339-346 | one level of the descent, at a slot that holds no large page, answers the existing table or, given flags that can link one, creates a cleared one; every page leads where it led |
| Machines.MapPageTranslates | src/memory/paging.rs:329-387 | for a page that no large page covers, a frame below 2^40, and flags with PRESENT and without HUGE_PAGE unless all tables exist: map_page_unchecked makes the page lead to exactly the given frame and flags and every other page lead where it led, whichever tables had to be created; it takes exactly one frame per missing table and fails exactly when there are fewer |
| Machines.MapPageOwns | src/memory/paging.rs:329-387 | mapping keeps the whole invariant: tables a tree, one use per frame, marked frames exactly those in use; a frame the page owned before stays marked and is owned by no page |
| MappedWords.PoolFrameStored | src/memory/physical.rs:97-111 | every frame of the pool has an address, so the entries written for it are stored as words that decode to them |
| MappedWords.MappedWord | src/memory/paging.rs:329-387 | after map_page_unchecked the walk ends at the very word stored, and its address and flags read back unmixed |
| MappedWords.AllocatedWord | src/memory/virt.rs:148-157 | a page of a live allocation leads to one word: the address of its frame with 0x003 as the low 12 bits and nothing above bit 51 |
| Machines.UnmapPageReleases | src/memory/virt.rs:178-184 | unmapping an owned page never panics, frees exactly its frame, makes exactly that page lead nowhere and frees no table |
| Machines.ScribbleKeeps | src/memory/virt.rs:133-163 | whoever holds a page may write anything to its frame without touching the tables |
| FreeRuns.FirstRunIsEarliest | src/memory/paging.rs:389-415 | the run answered is the earliest run of n free pages at or after the start, and there is none exactly when nothing is answered |
| FreeRuns.FindFreePages | src/memory/paging.rs:389-415 | the one-pass counting search answers that earliest run, for every n including 0, and terminates |
| PageRuns.MapRunKeeps | src/memory/virt.rs:147-158 | mapping a run of unmapped pages keeps the invariant, changes where exactly those pages lead, creates exactly their missing tables, keeps every other use of a frame, and stops for lack of frames exactly when fewer are free than needed |
| PageRuns.UnmapRunReleases | src/memory/virt.rs:178-185 | unmapping a run of owned pages never panics and releases exactly their frames |
| PageRuns.DisownRunLeaves | src/memory/virt.rs:178-185 | after unmapping a run all other pages keep their frames and all tables stay |
| RunTables.NeedIsExact | src/memory/virt.rs:147-158 | mapping a run needs one frame per page and one per table of the run that does not exist |
| RunTables.TablesPerLevel | src/memory/paging.rs:339-378 | at each level a run of n pages goes through at most floor((n + span - 2) / span) + 1 tables |
| Allocation.AllocPagesKeeps | src/memory/virt.rs:133-164 | alloc_pages keeps the invariant and maps the earliest free run; the cases no run, too few frames and last page reached are each characterised |
| Allocation.DeallocPagesKeeps | src/memory/virt.rs:166-186 | dealloc_pages of an owned allocation never panics, frees exactly its frames and makes exactly its pages lead nowhere |
| Releases.ReleaseLoop | src/memory/virt.rs:178-185 | for any range of pages that no large page covers: the loop of dealloc_pages gets through if and only if every page has a level-1 table and an entry that names a marked frame, no two the same; it has then cleared exactly those entries and those marks |
| Releases.DeallocFreesIff | src/memory/virt.rs:166-186 | dealloc_pages of any such range, owned or not, goes through if and only if the range is not empty, ends before the last page and every page can be released in that sense, and panics otherwise |
| Releases.FreedTwice | src/memory/virt.rs:166-186 | taking back a live allocation a second time panics if and only if it has more than one page or frame 0 is not marked |
| Allocation.MapPhysicalKeeps | src/memory/virt.rs:188-243 | whenever at least one page is to be mapped, map_physical keeps the invariant and maps the pages of the earliest free run to consecutive frames from the given address; when it answers nothing the machine is the one before the call |
| AllocatorRuns.StepKeeps | src/memory/virt.rs:132-244 | every allocation and physical mapping of at least one page, every deallocation, failed request and write by a holder keeps the invariant that ties machine and live allocations together |
| AllocatorRuns.PhysNoneKeeps | src/memory/virt.rs:199-214 | map_physical is all-or-nothing: when it answers nothing, for any number of pages, bitmap, tables and cursor are unchanged |
| AllocatorRuns.FreeSucceeds | src/memory/virt.rs:166-186 | taking back a live allocation never panics |
| AllocatorRuns.BootExplained | src/memory/virt.rs:113-130 | boot tables that form a tree outside the pool, an empty bitmap and the cursor at page 1 satisfy the invariant |
| AllocatorRuns.RunIsSound | src/memory/virt.rs:132-244 | every state of every run of such steps satisfies the invariant |
| AllocatorTheorems.RunsAreSafe | src/memory/virt.rs:132-244 | in every state of every run of such steps tables form a tree, live allocations are pairwise disjoint in pages and in frames, marked frames are exactly the disjoint union of table frames and frames of live pages, and every live allocation can be taken back without a panic |
| WriteAccess.LevelCases | src/memory/paging.rs:339-346 | one level of the descent leaves memory alone if the table is there, and otherwise writes one link with the given flags to a frame that was unused and is now cleared |
| WriteAccess.MapKeepsLinks | src/memory/paging.rs:329-387 | mapping a page with WRITABLE set leaves the links there were and sets WRITABLE in the links it creates |
| WriteAccess.RunKeepsLinks | src/memory/virt.rs:132-244 | in every state of every run every link between tables is one from boot, unchanged, or has WRITABLE set |
| WriteAccess.LivePagesWritableIff | src/memory/virt.rs:132-244 | in every state of every run the processor lets a page of a live allocation be written, which takes WRITABLE at every level, if and only if WRITABLE was set at boot in every link from boot on the page's way |
| AllocationOrder.CursorMonotone | src/memory/virt.rs:139-146 | over a run the cursor never decreases |
| AllocationOrder.LiveNotReused | src/memory/virt.rs:139-158 | a new range has no page in common with a live allocation |
| AllocationOrder.RangesMoveForward | src/memory/virt.rs:139-186 | of two ranges the later starts at or after the last page of the earlier, and they share at most that page and only if the earlier was deallocated in between |
| AllocationRoundTrip.AllocThenFree | src/memory/virt.rs:133-186 | dealloc_pages after alloc_pages restores where every page leads, and the bitmap but for the tables created, which stay marked |
| AllocationRoundTrip.AllocMapsItsPages | src/memory/virt.rs:133-164 | exactly the pages of the allocation, as many as asked for, start to lead somewhere, from nowhere to marked frames |
| AllocationRoundTrip.RemapNeedsNoTable | src/memory/paging.rs:329-387 | mapping pages whose tables all exist takes one frame per page and creates no table |
| AllocationRoundTrip.AllocPrice | src/memory/virt.rs:133-164 | alloc_pages succeeds if and only if the earliest free run ends before the last page and frames suffice for its pages and missing tables; it then marks exactly that many |
| AllocationRoundTrip.NewTablesPerLevel | src/memory/paging.rs:339-378 | an allocation of n pages creates at most floor((n + span - 2) / span) + 1 tables at each level |
| AllocationRoundTrip.PhysReachesEveryByte | src/memory/virt.rs:188-243 | when at least one page is mapped: for every byte of the request, aligned or not, the walk of v + b reaches addr + b, and no page outside the allocation leads anywhere new |
| PhysicalFrames.CountOfBytes | src/memory/virt.rs:195-201 | when anything is to be mapped, the pages are as many as the frames that hold the bytes asked for |
| PhysicalFrames.PhysMapsBytes | src/memory/virt.rs:188-243 | the pages mapped are exactly those of the bytes from v to the last one asked for, they lead to exactly the frames that hold the bytes asked for, and none of these frames was marked before while all are after |
| PhysicalFrames.PhysRefusedIff | src/memory/virt.rs:195-214 | a request at or above the pool is refused for its frames if and only if a frame that holds one of its bytes is marked, and for want of pages only when there is no run of as many free pages as the bytes need |
| ZeroPages.ZeroPagesRemap | src/memory/paging.rs:392-411 | alloc_pages(0) succeeds only when the page under the cursor is present, and maps that page again to a new frame, or changes where no page leads when a large page of data covers it |
| ZeroPages.AllocationKeepsOwnedIff | src/memory/virt.rs:133-164 | an allocation leaves all owned pages where they lead if and only if at least one page was asked for or the page under the cursor has no owner; with no page asked for, the cursor page must not be covered by a large page over a table |
| ZeroPages.ZeroPagesAfterAllocation | src/memory/virt.rs:133-164 | alloc_pages(0) right after a real allocation makes that allocation's last page lead elsewhere |
| ZeroPages.PhysicalKeepsOwnedIff | src/memory/virt.rs:197-224 | map_physical leaves all owned pages where they lead if and only if at least one page is mapped, or the page under the cursor has no owner, or it owns the very frame given; with no page to map, the frame must be below 2^40 and the cursor page must not be covered by a large page over a table |
| ZeroPages.PhysicalZeroTakesPage | src/memory/virt.rs:197-224 | asked to map no page at an aligned address while the page under the cursor is owned, map_physical succeeds, marks nothing and makes that page lead to the given frame; unmapping it then panics if and only if that frame is not marked |
| ZeroPages.NoPagesRefusedIff | src/memory/paging.rs:389-415 | alloc_pages(0), and map_physical of no pages at an aligned address at or above the pool, answer nothing if and only if the page under the cursor is free, and then change nothing |
| RawKernel.RawMapAgrees | src/memory/paging.rs:329-387 | the code, which goes on with frame 0 when frames run out, does what the specification says whenever that finds frames enough |
| RawKernel.RawAllocAgrees | src/memory/virt.rs:133-164 | the same for alloc_pages |
| RawKernel.RawPhysicalAgrees | src/memory/virt.rs:188-243 | the same for map_physical; when it answers nothing the machine is unchanged |
| Allocation.RollbackUndoes | src/memory/virt.rs:207-214 | the rollback loop inverts the reservation exactly, for any number of frames including none |
| Exhaustion.OutOfFramesUnreported | src/memory/virt.rs:87-88 | alloc_pages answers None exactly when there is no free run; its answer is right if and only if there is none or there are frames enough for the earliest |
| Exhaustion.PhysOutOfFramesUnreported | src/memory/virt.rs:188-243 | when at least one page is to be mapped, map_physical answers None exactly when a frame of the range is taken or there is no free run; its answer is right if and only if it answers None or there are frames enough for the tables |
| Exhaustion.MappedWithoutFrames | src/memory/paging.rs:329-387 | with no frame left and no table in frame 0, a page that no large page covers leads to frame 0 if and only if the slots of its missing tables coincide, and nowhere otherwise |
| Exhaustion.FrameZeroIsShared | src/memory/physical.rs:97-111 | two pages whose tables exist, mapped after the frames have run out, both lead to frame 0 |
| DryRuns.DryAllocDisturbsNothing | src/memory/virt.rs:133-164 | with no frame left and no table in frame 0, a request for at least one page marks nothing, and every page that led somewhere, so every page of a live allocation, still leads there |
| DryRuns.PageStaysDry | src/memory/paging.rs:329-387 | whatever has been mapped before with no frame left, mapping one more page leaves every slot in use alone and frame 0, once linked, linking to itself only |
| FailingMachines.LastFrameReadAsTable | src/memory/virt.rs:133-164 | not so while one frame is left: a request for two pages takes it for a page, then reads its data as a table, and makes a page of a live allocation lead to frame 0 |
| RawKernel.RawAllocIsStep | src/memory/virt.rs:133-164 | while frames last, what the code does on a request for pages is a step of a run, so the results about runs hold of it |
| RawKernel.RawPhysicalIsStep | src/memory/virt.rs:188-243 | the same for a request to map at least one page of physical memory |
| LargePages.LargePageOverwritten | src/memory/paging.rs:329-387 | mapping a page that a 2 MiB page covers writes the entry into the first frame of the large page, whatever that holds |
| LargePages.LargePageOfData | src/memory/paging.rs:329-387 | if that frame holds no table, every page leads where it led |
| LargePages.LargePageOfTable | src/memory/paging.rs:329-387 | if that frame holds a table, it is that table's slot that is overwritten, and every page that does not go through the slot leads where it led |
| LargePages.OwnPathOverwritten | src/memory/paging.rs:329-387 | if the page itself goes through that slot, it leads on from the new entry, the given frame being read as a table |
| LargePages.HugeFlagsMakeLargePage | src/memory/paging.rs:329-387 | with HUGE_PAGE among the flags and a table missing, the page ends up under a large page, at level 2 if only the level-1 table was missing and at level 3 otherwise |
| LargePages.MapPageTranslatesIff | src/memory/paging.rs:329-387 | map_page_unchecked makes a page lead to the given frame and flags if and only if PRESENT is among the flags, no large page covers the page, and HUGE_PAGE is not among the flags unless all tables exist; a covering large page must not lie over the very table slot the page goes through |
| FailingMachines.FirstAllocation | src/memory/virt.rs:133-164 | from a boot state with an empty table and k frames, alloc_pages(1) is a step of a run that hands out page 1 and uses four frames |
| FailingMachines.SecondAllocationUnbacked | src/memory/virt.rs:133-164 | with four frames, the next alloc_pages(1) answers an allocation although no frame is free, and pages 2 and 3 mapped then both lead to frame 0 |
| FailingMachines.PhysicalUnbacked | src/memory/virt.rs:188-243 | with one frame, map_physical of it answers an allocation although its tables cannot be made |
| FailingMachines.ZeroPagesTakesPageOne | src/memory/virt.rs:133-164 | with five frames, alloc_pages(0) after alloc_pages(1) succeeds and makes the allocated page 1 lead elsewhere |
| FailingMachines.PhysicalZeroBreaksFree | src/memory/virt.rs:197-224 | with five frames, mapping no page at the last free frame after alloc_pages(1) succeeds, and dealloc_pages of that allocation then panics |
| FailingMachines.HugeFlagsMisplace | src/memory/paging.rs:329-387 | on an empty table with three free frames, mapping page 1 with HUGE_PAGE set makes it lead to a large page at level 3 |
| FailingMachines.LargePageSwallowsEntry | src/memory/paging.rs:329-387 | on a boot table with one 2 MiB page, mapping page 5 writes the entry into the large page and page 5 still leads to it |
| FailingMachines.LargePageOverItsTable | src/memory/paging.rs:329-387 | on a boot table whose 2 MiB page covers the level-2 table, mapping page 5 makes page 2560 lead from nowhere to a leaf |
| KernelMemory.PhysicalAllocator.constructor | src/memory/physical.rs:67-81 | a bitmap of the given size with nothing marked |
| KernelMemory.PhysicalAllocator.AllocateFrame | src/memory/physical.rs:97-111 | marks the lowest clear bit and answers its frame, or answers frame 0 and changes nothing |
| KernelMemory.PhysicalAllocator.FreeFrame | src/memory/physical.rs:113-124 | clears exactly the bit of a marked frame |
| KernelMemory.PhysicalAllocator.AllocPhyAddr | src/memory/physical.rs:126-143 | succeeds if and only if the scan finds the range clear, and then marks exactly the range; otherwise nothing changes |
| KernelMemory.PageTable.ClearAllEntries | src/memory/paging.rs:217-221 | makes all 512 entries of one table empty and touches nothing else |
| KernelMemory.PageTable.Descend | src/memory/paging.rs:339-354 | one level of the descent, on objects: the same machine and table as the specification |
| KernelMemory.PageTable.MapPageUnchecked | src/memory/paging.rs:329-387 | on objects: leaves exactly the machine the specification gives |
| KernelMemory.PageAllocator.constructor | src/memory/virt.rs:113-121 | the cursor starts at page 1 |
| KernelMemory.PageAllocator.MapNextFresh | src/memory/virt.rs:148-157 | one page of the loop of alloc_pages, on objects |
| KernelMemory.PageAllocator.MapFreshRun | src/memory/virt.rs:147-158 | the loop of alloc_pages over the page iterator leaves the machine the specification gives |
| KernelMemory.PageAllocator.AllocPages | src/memory/virt.rs:133-164 | on objects: the machine and answer of the specification, for every n |
| KernelMemory.PageAllocator.UnmapNext | src/memory/virt.rs:178-184 | one page of the loop of dealloc_pages, on objects |
| KernelMemory.PageAllocator.DeallocPages | src/memory/virt.rs:166-186 | on objects: the machine of the specification, whenever that does not panic |
| KernelMemory.PageAllocator.MapNextFixed | src/memory/virt.rs:218-233 | one page of the loop of map_physical, on objects |
| KernelMemory.PageAllocator.MapFixedRun | src/memory/virt.rs:217-233 | the mapping loop of map_physical leaves the machine the specification gives |
| KernelMemory.PageAllocator.Rollback | src/memory/virt.rs:207-214 | the rollback loop leaves the machine the specification gives |
| KernelMemory.PageAllocator.MapPhysical | src/memory/virt.rs:188-243 | on objects: the machine and answer of the specification; when it answers nothing, everything is as before the call |
| HeapAllocator.LayoutRoundTrip | src/memory/allocator.rs:20-46 | for every size and power-of-two alignment that divides the address of the first page the pointer is aligned, its bytes lie inside the pages, and dealloc recomputes exactly the first page and page count |
| HeapAllocator.SmallAlignment | src/memory/allocator.rs:27-31 | every power of two up to the page size divides the address of every page |
| HeapAllocator.AmountIsTight | src/memory/allocator.rs:21-23 | for alignments up to the page size the page count n satisfies (n - 1) * 4096 <= size < n * 4096, above it the same with 4096 bytes more |
| HeapAllocator.PointerIsLeast | src/memory/allocator.rs:28-31 | the pointer is the first multiple of the alignment in the allocation |
| HeapAllocator.RecoveredIff | src/memory/allocator.rs:35-46 | for any power-of-two alignment dealloc finds the allocation again if and only if its first page is aligned |
| HeapAllocator.LargeAlignmentLosesPage | src/memory/allocator.rs:35-46 | with an alignment of 8192 an allocation starting at page 1 is given back from page 2 on |
| HeapAllocator.HeapRoundTrip | src/memory/allocator.rs:20-46 | when the alignment divides the address of the first page: exactly the allocation's pages start to lead somewhere, as few as leave a byte to spare; every byte is usable through marked frames; and giving the pointer back restores where every page leads and frees every frame but those of the tables created |
| HeapAllocator.Allocator.Allocate | src/memory/allocator.rs:20-33 | on objects: null exactly when no run of pages is found, otherwise the aligned pointer of the run; the page count is the one HeapAllocator.AmountIsTight describes |
| HeapAllocator.Allocator.Deallocate | src/memory/allocator.rs:35-46 | on objects: hands the allocation with the recomputed first page and page count to dealloc_pages |
| HeapRuns.HeapStepKeeps | src/memory/allocator.rs:20-46 | allocating for a layout whose alignment divides the address of the first page, giving back a block, and every step of other users of the page allocator keep the invariant of the page allocator and this one: every block is aligned and lies in pages that are a live allocation, no two in the same |
| HeapRuns.HeapFreeIsStep | src/memory/allocator.rs:35-46 | giving back a block takes back exactly the live allocation made for it |
| HeapRuns.HeapRunsAreSafe | src/memory/allocator.rs:20-46 | in every state of every run of heap calls, mixed with any use of the page allocator by others and any writes, each block not yet given back is aligned, each of its bytes is usable and giving it back does not panic, and no two blocks share a byte or an address |
| Paths.SplitMeaning | src/fs/path.rs:115-120 | splitting at the first slash gives two parts that join to the string, the first without slash; no split means no slash |
| Paths.RSplitAt | src/fs/path.rs:82-84 | splitting at the last slash gives everything before it and the name after it |
| Paths.NoParentIff | src/fs/path.rs:81-120 | of all strings exactly those without a slash have no parent; they have no filename, no top folder and nothing to split off; of the others only the root has no filename |
| Paths.AroundLastSlash | src/fs/path.rs:81-113 | parent and filename are what lies before and after the last slash, with the root for an empty parent |
| Paths.JoinOfComponents | src/fs/path.rs:115-120 | splitting off components until none is left and joining them gives the string back |
| Paths.ComponentsOfJoin | src/fs/path.rs:115-120 | joining components and splitting them again gives the components back |
| Paths.PlainPath | src/fs/path.rs:122-128 | every absolute path that does not start with a double slash is the path of its components |
| Paths.ParentAndFilename | src/fs/path.rs:81-113 | parent drops the last component, filename is the last component, and joining them gives the path back |
| Paths.RootPath | src/fs/path.rs:81-128 | the root is its own parent and has no filename |
| Paths.SplitsFromTop | src/fs/path.rs:115-135 | split_from_top takes off the root and then one component at a time; relative to the root a path is all its components |
| Paths.TopFolderOf | src/fs/path.rs:96-104 | the root for an absolute path, the first component of a relative path with several, nothing for a single component |
| Paths.RelativeToAncestor | src/fs/path.rs:130-135 | relative to an ancestor a path is the rest of its components |
| Paths.RelativeToIff | src/fs/path.rs:130-135 | relative_to answers exactly when all components of the base but the last are the path's and the last is the beginning, as a string, of the path's component there; the answer is what is left without the slash in front |
| Paths.RelativeToMeaning | src/fs/path.rs:130-135 | for any two strings, relative_to answers r if and only if the path is the base, a slash and r, or the base and an r that does not start with a slash |
| Paths.RelativeToSibling | src/fs/path.rs:130-135 | /usr/foobar relative to /usr/foo is bar |
| Paths.AncestorsReachRoot | src/fs/path.rs:81-91 | iterating parent reaches the root after exactly as many steps as there are components and stays there |
| RamfsLookup.ReachAppend | src/fs/ramfs.rs:48-68 | looking up p/q is looking up q inside what p leads to |
| RamfsLookup.FindDirReaches | src/fs/ramfs.rs:48-68 | find_dir descends through the first matching directory for each component in turn |
| RamfsLookup.FindFileFromBack | src/fs/ramfs.rs:69-89 | find_file, which splits from the front, finds the first file of that name in the directory find_dir gives for the rest, duplicates or not |
| RamfsLookup.DirOfPath | src/fs/ramfs.rs:204-211 | the two ways operations find a parent directory agree |
| RamfsLookup.OpenFileByComponents | src/fs/ramfs.rs:184-196 | open_file answers the first file of the last name in the directory of the others |
| RamfsLookup.TypeByComponents | src/fs/ramfs.rs:155-183 | file_type answers the kind of the first entry of the last name in the directory of the others |
| RamfsLookup.AllButDoubleSlashOpen | src/fs/vfs.rs:51-53 | a path that does not start with a double slash exists if and only if it opens as a file or as a directory |
| DoubleSlashes.TripleSlashNeverThere | src/fs/ramfs.rs:155-196 | a path that starts with three slashes never exists and never opens |
| DoubleSlashes.EveryRunLeavesNameless | src/fs/ramfs.rs:198-246 | after any sequence of calls no directory with an empty name directly below the root has an entry |
| DoubleSlashes.DoubledDisagrees | src/fs/ramfs.rs:184-196 | for every path that starts with exactly two slashes there are calls after which it exists but opens neither way |
| DoubleSlashes.OpensIffExistsIff | src/fs/vfs.rs:51-53 | exists agrees with opening after every sequence of calls if and only if the path does not start with exactly two slashes |
| DoubleSlashes.DoubledDelete | src/fs/ramfs.rs:248-274 | for a path without a double slash in front other than the root: delete with one more slash in front does what delete of the path does |
| DoubleSlashes.DoubledCreate | src/fs/ramfs.rs:198-246 | after any sequence of calls and for such a path: create_file and create_dir with one more slash in front do what they do of the path if it has one component, and answer DirectoryDoesNotExist otherwise |
| DoubleSlashes.DoubledDeleteByComponents | src/fs/ramfs.rs:248-274 | delete of any path that starts with two slashes, by components: both are dropped |
| DoubleSlashes.DoubledCreateByComponents | src/fs/ramfs.rs:198-246 | create_file and create_dir of any path that starts with two slashes, by components: the directory is looked for inside a nameless one unless it is the root |
| DoubleSlashes.TripleSlashEdits | src/fs/ramfs.rs:198-274 | after any sequence of calls, on a path that starts with three slashes creating answers DirectoryDoesNotExist and deleting changes nothing |
| DoubleSlashes.DoubledType | src/fs/ramfs.rs:155-183 | file_type of any path that starts with two slashes, by components: both are dropped |
| DoubleSlashes.DoubledFile | src/fs/ramfs.rs:184-196 | open_file of any path that starts with two slashes, by components: an empty component comes first |
| DoubleSlashes.DoubledOpensDir | src/fs/ramfs.rs:276-292 | open_dir of any path that starts with two slashes, by components: both are dropped |
| RamfsEdits.OnlyPath | src/fs/ramfs.rs:39-45 | no directory is reached by two different paths |
| RamfsEdits.DeleteFootprint | src/fs/ramfs.rs:248-274 | by components: a deleted path and all below it resolve to nothing, and every other path to the same object as before |
| RamfsEdits.CreateFootprint | src/fs/ramfs.rs:198-246 | by components: what resolved before resolves to the same object, and only the created path can start to resolve, to the created object |
| RamfsTheorems.Resolution | src/fs/ramfs.rs:155-196 | open_file, open_dir and file_type of any absolute path without a double slash in front, by components |
| RamfsTheorems.PanicsExactlyOnRoot | src/fs/ramfs.rs:198-246 | create_file and create_dir panic if and only if the path is the root, nothing else panics for any string, and neither ever answers PathAlreadyExists |
| RamfsTheorems.NotAbsolute | src/fs/vfs.rs:21-22 | every operation answers PathIsNotAbsolute for every string that does not start with a slash |
| RamfsTheorems.NotAbsoluteDoesNothing | src/fs/ramfs.rs:198-274 | no call with such a string changes anything |
| RamfsTheorems.DeleteTheorem | src/fs/ramfs.rs:248-274 | for paths p and q without a double slash in front: after delete(p), q fails to open and has no type if it is p or below it, and resolves as before otherwise, in every tree including ones with duplicate names |
| RamfsTheorems.DeleteRoot | src/fs/ramfs.rs:252-254 | deleting the root leaves an empty root, in which no path without a double slash in front resolves |
| RamfsTheorems.DeleteReportsMissingIff | src/fs/ramfs.rs:248-274 | for paths without a double slash in front: delete reports a missing path in agreement with exists if and only if the path exists or its directory does not |
| RamfsTheorems.DeleteMissingSucceeds | src/fs/ramfs.rs:248-274 | in an empty file system deleting a file that does not exist succeeds |
| RamfsTheorems.CreateFileTheorem | src/fs/ramfs.rs:198-221 | for paths without a double slash in front: create_file changes no directory lookup and no file lookup that succeeded; only its own path starts to lead to the new file, and it does exactly when no file of that name was there |
| RamfsTheorems.CreateDirTheorem | src/fs/ramfs.rs:223-246 | for paths without a double slash in front: create_dir changes no file lookup and no directory lookup that succeeded; only its own path starts to lead to the new directory |
| RamfsTheorems.CreateFileRightIff | src/fs/ramfs.rs:198-221 | for a path without a double slash in front: after create_file has succeeded, the path leads to the new file and has the type of one if and only if it did not exist before |
| RamfsTheorems.CreateDirRightIff | src/fs/ramfs.rs:223-246 | for a path without a double slash in front: after create_dir has succeeded, the path leads to the new directory and has the type of one if and only if it did not exist before |
| RamfsTheorems.CreateTwice | src/fs/vfs.rs:19-19 | in a new file system, /a once created exists and can be created again, as a file and as a directory |
| RamfsTheorems.OpensAsTyped | src/fs/ramfs.rs:155-196 | a path without a double slash in front, if of type File opens as a file, and if of type Directory as a directory |
| RamfsListing.EveryRunNamesPlain | src/fs/ramfs.rs:198-246 | after any sequence of calls no name of a file or of a directory other than the root has a slash in it |
| RamfsListing.EntryPathLeads | src/fs/ramfs.rs:155-183 | the path of an entry, with a separator, has the type of the first entry of that name in the directory found under its front |
| RamfsListing.ListingRightIff | src/fs/ramfs.rs:276-299 | open_dir lists every entry in order with its kind; the paths listed are those of the entries if and only if the directory is the root or has no entries |
| RamfsListing.RootListingExists | src/fs/ramfs.rs:276-299 | after any sequence of calls every path in the listing of the root exists |
| RamfsListing.ListedPathMissing | src/fs/ramfs.rs:276-299 | after /a and /a/b have been created, /a lists its file as /ab, which does not exist |
| RamfsRuns.EveryRunIsWf | src/fs/ramfs.rs:152-274 | after any sequence of creations, deletions and writes, with any strings as paths, every entry refers to an existing object that records the directory as its parent |
| RamfsRuns.WriteKeepsLookups | src/fs/ramfs.rs:140-150 | writing to a file changes what no path resolves to |
| RamfsRuns.ContentsKept | src/fs/ramfs.rs:198-274 | creating and deleting leave the contents of every existing file alone, and a new file is empty |
| FileHandles.WriteSplices | src/fs/ramfs.rs:140-150 | the insertion loop succeeds if and only if the position is within the file or nothing is written, and then splices the buffer in at the position |
| FileHandles.PositionsStayInside | src/fs/ramfs.rs:8-150 | however handles are opened, cloned, read and written, no insertion is out of range and every position stays within its file |
| FileHandles.ChunksReassemble | src/fs/ramfs.rs:128-139 | reading in chunks of any sizes without writes in between delivers the bytes in order |
| FileHandles.WholeFile | src/fs/ramfs.rs:128-139 | a fresh handle read to the end delivers exactly the contents |
| FileHandles.WriteThenRead | src/fs/ramfs.rs:127-150 | what was written at a position is what a fresh handle reads there |
| FileHandles.InterleavedReads | src/fs/ramfs.rs:127-150 | whatever other handles do in between, short of writing to the same file, the reads of one handle deliver the bytes in order from its position |
| FileHandles.OpenReadsAll | src/fs/ramfs.rs:20-27 | a handle just opened reads the whole file from the start, whatever other handles do short of writing to it |
| FileHandles.CloneReadsOn | src/fs/ramfs.rs:8-12 | a cloned handle and the original both read on from the position at which it was cloned |
| FileHandles.WritesJoin | src/fs/ramfs.rs:140-150 | two writes through a handle are one write of both buffers |
| FileHandles.ReadAfterWrite | src/fs/ramfs.rs:127-150 | after a write a handle reads what it would have read before |
| FileHandles.OthersStay | src/fs/ramfs.rs:127-150 | no action moves another handle or changes another file |
| RamfsObjects.RamFileSystem.constructor | src/fs/ramfs.rs:116-124 | a new file system has an empty root |
| RamfsObjects.RamFileSystem.LookupDir | src/fs/ramfs.rs:48-68 | the scanning and descending loop finds what find_dir specifies |
| RamfsObjects.RamFileSystem.LookupFile | src/fs/ramfs.rs:69-89 | the scanning and descending loop finds what find_file specifies |
| RamfsObjects.RamFileSystem.Retain | src/fs/ramfs.rs:270-271 | keeps exactly the entries of other names, in order |
| RamfsObjects.RamFileSystem.OpenFile | src/fs/ramfs.rs:184-196 | on objects: a fresh handle at position 0 on the file specified, or the error |
| RamfsObjects.RamFileSystem.CreateFile | src/fs/ramfs.rs:198-221 | on objects: the file system specified and a handle on the new file, or the error and no change; well-formedness is kept |
| RamfsObjects.RamFileSystem.CreateDir | src/fs/ramfs.rs:223-246 | on objects: the file system specified, or the error and no change; well-formedness is kept |
| RamfsObjects.RamFileSystem.Delete | src/fs/ramfs.rs:248-274 | on objects: the file system specified, or the error and no change; well-formedness is kept |
| RamfsObjects.RamFileSystem.FileTypeOf | src/fs/ramfs.rs:155-183 | on objects: the scan answers what file_type specifies and never panics |
| RamfsObjects.RamFileSystem.OpenDir | src/fs/ramfs.rs:276-299 | on objects: the listing specified, or the error; never a panic |
| RamfsObjects.FileHandle.constructor | src/fs/ramfs.rs:20-27 | a new handle is at position 0 |
| RamfsObjects.FileHandle.Read | src/fs/ramfs.rs:128-139 | copies the bytes at the position into the front of the buffer, leaves the rest of it, and advances by the number read |
| RamfsObjects.FileHandle.Write | src/fs/ramfs.rs:140-150 | the file's contents are spliced at the position, the position advances, and nothing else in the file system changes |
| RamfsObjects.FileHandle.Duplicate | src/fs/ramfs.rs:8-12 | a cloned handle shares the file and has the same position |
| RamfsObjects.ReadIsAction | src/fs/ramfs.rs:128-139 | reading through one of several handles is a read action on the files and handles together |
| RamfsObjects.WriteIsAction | src/fs/ramfs.rs:140-150 | writing through one of several handles is a write action on the files and handles together, and every handle stays inside its file |
| RamfsRuns.FoundFileExists | src/fs/ramfs.rs:69-89 | the file found for any path string is one that exists |
| Screens.WordOfBytes | src/screen.rs:74-81 | the four bytes of a colour word read back as the word |
| Screens.Screen.constructor | src/screen.rs:43-56 | takes over the framebuffer description; it is valid exactly when pixels have at least 4 bytes and rows fit the pitch and the buffer |
| Screens.Screen.PixelsApart | src/screen.rs:61-67 | different pixels share no byte |
| Screens.Screen.PixelBytes | src/screen.rs:61-81 | the pixel at (x, y) is the little-endian word at x * bytes_per_pixel + y * bytes_per_row |
| Screens.Screen.SmallPixelsOverlap | src/screen.rs:61-81 | with pixels of fewer than 4 bytes, writing one spills into the next |
| Screens.Screen.WritePixel | src/screen.rs:74-81 | writes the colour word at the offset and no other byte |
| Screens.Screen.DrawPixel | src/screen.rs:61-67 | with pixels of at least 4 bytes: exactly one pixel changes, and no byte but the four at x * bytes_per_pixel + y * bytes_per_row |
| Screens.Screen.DrawAll | src/screen.rs:84-92 | with pixels of at least 4 bytes: every pixel takes the colour, and no byte that belongs to no pixel changes |
| TextGrid.SurvivesIff | src/console.rs:52-107 | every text can be printed without drawing off the screen if and only if width >= 9, width mod 9 is not 8 and height >= 16 |
| TextGrid.LineTooLong | src/console.rs:68-76 | with width mod 9 equal to 8 a full first line panics |
| TextGrid.CursorAfter | src/console.rs:52-78 | from the start of a line, after n characters and no newline the cursor is at column n mod C, n / C rows further down modulo R |
| TextGrid.LineFeed | src/console.rs:54-61 | after any text, code 10 draws nothing and moves the cursor to the start of the next row modulo R |
| TextGrid.LineFeedMoves | src/console.rs:54-61 | in pixels: to column 0, 16 further down if a whole line fits there, otherwise to the top |
| TextGrid.GlyphDots | src/console.rs:88-104 | bit k of byte 16 * c + r of the font decides the pixel 8 - k right of the cursor in line r of character c: foreground if and only if it is set |
| TextGrid.GlyphLines | src/console.rs:96-102 | a font byte 0x00 draws eight background pixels, 0xff eight foreground pixels, and 1 << k one foreground pixel, 8 - k right of the cursor |
| TextGrid.LastScreenful | src/console.rs:52-78 | the grid shows each of the last C * R characters in its cell |
| TextGrid.StaysInside | src/console.rs:52-78 | typing never moves the cursor off the grid |
| Consoles.Console.constructor | src/console.rs:35-45 | a new console on a screen of any size, with pixels of at least 4 bytes, shows the empty text on the background colour |
| Consoles.Console.Clear | src/console.rs:80-84 | clearing shows the empty text with the cursor at the start |
| Consoles.Console.DrawLine | src/console.rs:91-103 | one line of a character changes exactly its eight pixels, to the colours the font byte says (TextGrid.GlyphDots) |
| Consoles.Console.DrawChar | src/console.rs:86-107 | a character changes exactly the 8 by 16 pixels right of the cursor, to the colours its 16 font bytes say (TextGrid.GlyphDots) |
| Consoles.Console.PutGlyph | src/console.rs:63-63 | drawing at the cursor renders the text with that cell replaced |
| Consoles.Console.PrintCharColored | src/console.rs:52-78 | on a screen that fits, and wherever else drawing does not go off the screen: exactly the 8 by 16 pixels right of the cursor change, to what the font says, or none for code 10; printing is a step of the text grid, the framebuffer stays its rendering, the pixel cursor moves as the survival result says, and the cursor stays inside the grid |
| Consoles.Console.WriteStr | src/console.rs:110-119 | on a screen that fits any string, elsewhere one that the screen survives: its ASCII characters are typed in order and the others skipped, the framebuffer stays the rendering of the grid, and the cursor stays inside the grid |
| Consoles.GlyphsOfAscii | src/console.rs:110-119 | of a string of characters below 128 every one is printed, in order |
| Consoles.GlyphsSkip | src/console.rs:110-119 | any other character is as if it were not there |
| Consoles.CodesArePrinted | src/console.rs:110-119 | the codes that decide whether a string survives are those of the characters printed |
| Consoles.FittingConsoleSurvives | src/console.rs:52-78 | on a screen that fits, a cursor inside the grid survives every text |
| Consoles.FittingSessionSurvives | src/console.rs:35-119 | on a screen that fits, from a cursor inside the grid, no sequence of writes, single characters, clears and changes of colour panics |
| Consoles.SessionsSurviveIff | src/console.rs:35-119 | a new console survives every such sequence if and only if width >= 9, width mod 9 is not 8 and height >= 16 |

## Left out

- Locks, several processors and interrupts: every operation holds one mutex, so operations are atomic steps here.
- TLB invalidation, reading CR3, and the zeroing of bytes when physical address 0xfee00000 is mapped: hardware effects.
- Page numbers above 2^36: the cursor starts at 1 and never leaves the canonical range, so page numbers are their own canonical numbers outside `Pages`.
- 64-bit overflow of addresses and sizes near 2^64, and `set_flags`, which nothing calls.
- The choice of the largest usable memory region at boot, and the stored but never read `limit`.
- Reclaiming the memory of deleted directories and files: objects that no entry refers to stay in the model's maps.
- Mounts and the methods of `Vfs` that are `todo!()`.
- HeapAllocator.LayoutRoundTrip: requires that the alignment divides the address of the first page, as every alignment up to the page size does; otherwise `dealloc` misses the allocation (HeapAllocator.RecoveredIff), and whether the bytes lie inside the pages is not stated. HeapRuns.HeapStepKeeps and HeapAllocator.HeapRoundTrip require the same.
- DryRuns.DryAllocDisturbsNothing: requires that no frame is left and that frame 0 holds no table; what a request disturbs when some frames are left, but not enough, depends on the data in them.
- Releases.DeallocFreesIff: leaves out pages under a large page, where the entry cleared is read from the large page's data.
- KernelMemory.PageAllocator.AllocPages: requires that the run found does not touch the last page, and KernelMemory.PageAllocator.DeallocPages that no step panics, because the code panics there.
- RamfsObjects.RamFileSystem.CreateFile: requires a path other than the root, because the code panics on it; likewise RamfsObjects.RamFileSystem.CreateDir.
- Consoles.Console.WriteStr: on a screen that does not fit, requires a text that the screen survives, because the code panics otherwise.
- What is drawn with pixels of fewer than 4 bytes, where writes overlap, and the contents of the font file.
- LargePages.MapPageTranslatesIff: leaves out a covering large page over the very table slot the page goes through, where what the given frame holds decides; LargePages.OwnPathOverwritten says where the page then leads.
- ZeroPages.AllocationKeepsOwnedIff: leaves out a cursor page covered by a large page over a table, where the overwritten slot may serve owned pages; LargePages.LargePageOfTable says which pages can be affected. ZeroPages.PhysicalKeepsOwnedIff leaves out the same, and frames from 2^40 on, which no entry can hold.
- Devices, ACPI, interrupt and timer code, logging, hex dumps and stack traces: volatile input and output, or easy members only.
