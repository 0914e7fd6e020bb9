# Verified model of the Corrosios memory manager

This project models the memory manager of the Corrosios kernel and the small protocols around it in Dafny, and proves what
they are for.  `dafny verify dfyconfig.toml` checks all of it.

| files | what they model |
|---|---|
| `PageTree`, `PageMap`, `PageUpdate`, `PageCull`, `CullPass`, `PageTable`, `Mmu` | four-level page tables with 2 MiB pages: mapping, unmapping, protecting and culling in place, over a tree of tables in memory, refine a flat map from pages to frames |
| `BuddyBlocks`, `BuddyLists`, `PhysManager` | the buddy allocator: free lists and split bits are a function of the set of free frames |
| `SliceChildren`, `SliceTree`, `SliceNesting` | the tree of address space slices: intervals, gaps, placement, lookup and teardown by parent pointers |
| `Commit`, `Unmapping`, `Coherence`, `SpaceSteps`, `AddrSpace`, `ConcreteRuns` | address spaces: batched commits, unmapping with flush and culling, the agreement of tree and page table over all runs, and four short runs that end badly |
| `SizeClasses`, `SlabClass`, `SlabHeap`, `Bitmap` | the slab heap over the buddy allocator, its alignment and resizing, and packed bitmaps |
| `SchedModel`, `Scheduler` | the scheduler of one processor as a state machine over the steps of its threads |
| `SpinOnce` | one-time initialisation under every interleaving |
| `UsableRanges`, `MemoryMap`, `Bootinfo` | carving reserved ranges, coalescing the memory map in place, and packing and reading boot information |
| `Arith`, `SeqLists`, `MemTypes` | arithmetic, lists and types in common |

Memory is a map from frames to tables of 512 entries.  A ghost map gives every table its place (level and block of pages);
from it follow that tables are not shared and that the frames of tables and of the allocator's pool are conserved.  Objects
mapped into an address space are sequences that give the frame of each page, or none where providing it fails.  The physical
allocator keeps a ghost set of free frames; the heap runs on that allocator itself, and its slabs are blocks the allocator
handed out.  The scheduler and the one-time cell are functions from state to state, and the scheduler's methods are proved
equal to them.

## Where the code differs from what it promises

- `map` can report an overlap although nothing is mapped: an empty table left under the place of a 2 MiB page is enough, and
  culling leaves such tables (`ConcreteRuns.RefusedThoughUnmapped`).  `PageTable.PageTable.Map` states exactly when it does,
  `AddrSpace.AddrSpace.MapCommitted` what it means for a vacant place, and `CullPass.CullsAll` from which bases culling leaves
  no empty table.
- `unmap`, `protect` and culling skip a whole entry from wherever they are, so a walk from an unaligned page can miss mapped
  pages (`PageUpdate.UnmapCanMiss`); `PageUpdate.UnmapClears` states exactly when it does not, and `PageUpdate.MissedPages`
  which pages it misses.  Unmapping a slice can leave pages of its mappings translated for that reason
  (`ConcreteRuns.SliceMisses`); `AddrSpace.AddrSpace.UnmapSlice` states exactly when.
- Looking up a page never finds a child at its first page (`SliceChildren.GetChildFinds`).
- A search without a fixed place wants one page more than it takes, and fails without that page; and it underflows at a gap
  that ends before its first aligned page, even with ample room behind (`SliceTree.UnderflowsThoughRoomy`).
  `SliceTree.SliceTree.FindAligned` states exactly when each happens.
- `AddrSpace::map` looks for room for the whole object, whatever part of it is mapped
  (`AddrSpace.AddrSpace.MapCommitted`).
- Unmapping a mapping a second time panics, or takes out another child and possibly leaves pages translated, instead of
  reporting an invalid state (`ConcreteRuns.UnmapTwice`); `AddrSpace.AddrSpace.Unmap` states exactly when that loses the
  agreement of tree and page table.
- A child of no pages is accepted where another child starts and takes its place (`SliceTree.OnlyEmptyRangesCollide`), with the
  pages of that child left translated (`ConcreteRuns.EmptyReplaces`); `Coherence.EmptyChildIff` states exactly when that matters.
- Carving reserved ranges stops at a reserved range that no usable range reaches, and later reserved frames are reported as
  usable (`UsableRanges.ReservedButReported`); `UsableRanges.LeavesOutReserved` states exactly when none are.
- Entries for write-combining and uncached pages select the write-through memory type: two bits of the selector end up in the
  wrong places (`Mmu.MemoryTypes`).
- The split bit of the largest order is toggled by allocation only and never read; the invariant covers the orders below.

## Model

| member | source | states |
|---|---|---|
| `PageTable.PageTable.Map` | kernel/kernel/src/mm/pt.rs:177-200 | `map` refines a flat map: the new translation is the old one plus virt + i to phys + i for exactly the i below the pointer's final offset; nothing that was mapped changes, every entry written lies within the range, offset = size on success; overlap is reported exactly at the first blocked page; out of memory is reported at a page that is not blocked and only with an empty pool; tables are added only for pages of the range; a page gets a 2 MiB page exactly if it lies in an aligned block of the range whose frames are aligned too |
| `PageTable.PageTable.MapLevel` | kernel/kernel/src/mm/pt.rs:337-366 | one level of the recursion does the above for the part of the range under one table, whatever mix of 4 KiB and 2 MiB pages it takes |
| `PageTable.PageTable.MapTerminal` | kernel/kernel/src/mm/pt.rs:483-507 | a terminal entry is written exactly if its place is empty, and then maps exactly its own pages |
| `PageTable.PageTable.NextTableOrCreate` | kernel/kernel/src/mm/pt.rs:444-462 | a created table is cleared, linked once and changes no translation; the three outcomes are decided by the old entry and the pool |
| `PageTable.PageTable.WalkUpdate` | kernel/kernel/src/mm/pt.rs:368-404 | `unmap` and `protect`: exactly the entries the walk stops at in the range are updated, nothing outside changes, every change is gathered for a flush, and it succeeds if and only if every step of the walk over the table as it was comes to an entry that starts there and ends within the range, or to an unmapped page; the pages gathered are exactly those at which an entry was written, in order, or a full flush if they are more than ten |
| `PageTable.PageTable.UpdateTerminal` | kernel/kernel/src/mm/pt.rs:509-522 | updating one terminal entry that the range covers is one step of the walk: its pages and no others change, and its first page is gathered |
| `PageTable.PageTable.CullTables` | kernel/kernel/src/mm/pt.rs:292-324 | which tables go: a table is gone only if it may be culled, the pass came to it, and it is covered by the range or everything below it is gone; of the tables the pass came to, one that may be culled is left only if it is neither covered nor empty; no translation outside the range changes, and none at all after an unmapping walk over the same range; frames are conserved |
| `PageTable.PageTable.CullStep` | kernel/kernel/src/mm/pt.rs:414-440 | one entry of a culling pass gets done what a pass is to get done for it and moves past it; a covered entry of a table that may be culled no longer points to a table |
| `PageTable.PageTable.CullLevel` | kernel/kernel/src/mm/pt.rs:406-442 | a pass over the entries of one table gets done what a pass is to get done for them, and a pass over all of a table that may be culled leaves no table below it |
| `CullPass.CullsAll` | kernel/kernel/src/mm/pt.rs:292-306 | from a base that is the first page of an entry, culling takes every candidate: a table with a page in the range that may be culled is left only if it is not empty and the range does not cover its pages |
| `CullPass.CandidateVisited` | kernel/kernel/src/mm/pt.rs:406-442 | from such a base the pass comes to every table that has a page in the range |
| `CullPass.PassTrans` | kernel/kernel/src/mm/pt.rs:414-440 | the effects of a pass over one entry and of the pass over the rest add up, though the first may have changed the tables that the second walks |
| `CullPass.UnlinkedPass` | kernel/kernel/src/mm/pt.rs:430-436 | unlinking the table behind an entry after the pass below it completes the pass over that entry |
| `CullPass.SweptIsUnmapped` | kernel/kernel/src/mm/vm/aspace.rs:553-557 | where an unmapping walk from an aligned page has cleared all it came to, nothing is mapped any more |
| `PageTable.PageTable.Unlink` | kernel/kernel/src/mm/pt.rs:434-435 | a culled table has been unlinked before it is given back and is no longer reachable |
| `PageTable.PageTable.constructor` | kernel/kernel/src/mm/pt.rs:72-80 | a cleared root table translates nothing |
| `PageTree.NoSharing` | kernel/kernel/src/mm/pt.rs:464-481 | the tables form a tree: a table is reached at one level and for one block of pages only |
| `PageTree.PlacedIffReached` | kernel/kernel/src/mm/pt.rs:464-481 | the tables accounted for are exactly those some walk from the root passes through |
| `PageTree.SetEntryHere` | kernel/kernel/src/mm/pt.rs:540-545 | writing an entry changes the translation of the pages under it to what the entry resolves to |
| `PageTree.SetEntryElsewhere` | kernel/kernel/src/mm/pt.rs:540-545 | writing an entry changes no walk that does not pass through it |
| `PageTree.LinkTable` | kernel/kernel/src/mm/pt.rs:444-462 | linking a cleared table keeps the tree well formed |
| `PageTree.UnlinkTable` | kernel/kernel/src/mm/pt.rs:434-435 | unlinking a table without child tables keeps the tree well formed without it |
| `PageMap.BlockedByEntry` | kernel/kernel/src/mm/pt.rs:337-366 | a page is blocked exactly if the entry that the walk stops at is in use, or is a table where a large page would go |
| `PageMap.EntrySized` | kernel/kernel/src/mm/pt.rs:337-366 | writing a large entry exactly where one can be used gives its pages the right size |
| `PageMap.SizedTrans` | kernel/kernel/src/mm/pt.rs:337-366 | which pages are large does not depend on how a range is divided into steps |
| `PageMap.LevelArithmetic` | kernel/kernel/src/mm/pt.rs:577-597 | blocks, alignment and table ends, defined by recursion over the levels, are the quotients, remainders and round-ups by the level's page count |
| `PageMap.EntryEndsFirst` | kernel/kernel/src/mm/pt.rs:559-575 | an entry ends no later than the table it is in, so a walk of a level never leaves its table |
| `PageUpdate.UnmapClears` | kernel/kernel/src/mm/pt.rs:368-404 | unmapping clears the whole range if and only if, for every mapped page of it, the step of the walk that passes over the page started at a mapped page |
| `PageUpdate.UpdateReachesAll` | kernel/kernel/src/mm/pt.rs:368-404 | if the base is aligned to the entry the walk first stops at, every page of the range is updated |
| `PageUpdate.ProtectSets` | kernel/kernel/src/mm/pt.rs:271-290 | after `protect` from an aligned base every mapped page of the range is writable, usable from user mode and executable exactly as asked, global if it was or that is asked, with the same frame, size and other bits |
| `PageUpdate.ProtectSetsReached` | kernel/kernel/src/mm/pt.rs:368-404 | the same from any base, for exactly the pages that the walk steps over from a mapped page |
| `PageUpdate.MissedPages` | kernel/kernel/src/mm/pt.rs:389-397 | which mapped pages a walk misses: those behind the end of an absent entry that the walk came to elsewhere than at its first page, up to the next step |
| `PageUpdate.NoneMissed` | kernel/kernel/src/mm/pt.rs:368-404 | from such a base the steps of the walk stop at exactly the mapped pages |
| `PageUpdate.StepsAligned` | kernel/kernel/src/mm/pt.rs:389-397 | alignment of the first step carries over to every later one |
| `PageUpdate.WrittenSame` | kernel/kernel/src/mm/pt.rs:368-404 | which entries a walk has still to write does not depend on those it has updated |
| `PageUpdate.UnmapCanMiss` | kernel/kernel/src/mm/pt.rs:389-397 | a well-formed table and an unaligned base for which the walk skips a mapped page of the range |
| `PageUpdate.ProtectKeepsFrames` | kernel/kernel/src/mm/pt.rs:271-300 | `protect` never changes presence, frame or page size, and nothing outside the range |
| `PageCull.CullUnmapped` | kernel/kernel/src/mm/pt.rs:406-442 | culling in a range that is already unmapped changes no translation at all |
| `PageCull.UnlinkWalk` | kernel/kernel/src/mm/pt.rs:430-436 | unlinking an empty table changes nothing, and unlinking any table only its own block of pages |
| `Mmu.TerminalRoundTrip` | kernel/kernel/src/arch/x86_64/mmu.rs:264-281 | a terminal entry decodes to the frame, permissions and cache mode it was made from, on all 64-bit values |
| `Mmu.IntermediateRoundTrip` | kernel/kernel/src/arch/x86_64/mmu.rs:283-287 | an intermediate entry decodes to its table |
| `Mmu.UpdateRefines` | kernel/kernel/src/arch/x86_64/mmu.rs:289-311 | on every terminal 64-bit value, the permission update is the abstract update of the entry it stands for, and the empty value is its removal |
| `Mmu.UpdateSetsPerms` | kernel/kernel/src/arch/x86_64/mmu.rs:289-295 | on every 64-bit value the three permission bits become what is asked for, the global bit is added if asked for, and every other bit is kept |
| `Mmu.EffectivePerms` | kernel/kernel/src/arch/x86_64/mmu.rs:283-295 | entries for tables take no permission away: along every path a page can be used for exactly what its own entry says, when mapped and after an update |
| `Mmu.MemoryTypes` | kernel/kernel/src/arch/x86_64/mmu.rs:403-415 | an entry selects the memory type of its cache mode if and only if that is cached or write-through; entries for write-combining and uncached pages select write-through (the comment promises the PWT, PCD and PAT bits) |
| `PhysManager.PhysManager.Allocate` | kernel/kernel/src/mm/pmm.rs:146-174 | returns an aligned block that was wholly free and overlaps no block in use, and returns none if and only if the order is 16 or more or no aligned run of that size is free; splitting keeps lists, counts and split bits right; the block is the head of the first list, from the order up, that is not empty |
| `PhysManager.PhysManager.Release` | kernel/kernel/src/mm/pmm.rs:176-201 | freeing a block adds exactly its frames to the free ones, with every merge step finding the buddy on its list |
| `PhysManager.PhysManager.MergeWithBuddy` | kernel/kernel/src/mm/pmm.rs:179-195 | the toggled split bit says exactly whether the buddy is free |
| `PhysManager.PhysManager.Deallocate` | kernel/kernel/src/mm/pmm.rs:78-87 | a live block becomes free, and all other blocks in use stay |
| `PhysManager.PhysManager.AllocateAndReturn` | kernel/kernel/src/mm/pmm.rs:146-201 | allocating and giving back restores every free list up to order |
| `PhysManager.PhysManager.AddFreeRange` | kernel/kernel/src/mm/pmm.rs:229-247 | exactly the frames of the range become free and are added to the total |
| `PhysManager.PhysManager.FreePageCount` | kernel/kernel/src/mm/pmm.rs:249-255 | the pages on the free lists are the free frames, and with those in use they are all pages ever added |
| `PhysManager.RangeOrder` | kernel/kernel/src/mm/pmm.rs:232-243 | the block freed next is the largest aligned one that fits at the start of the range |
| `PhysManager.PhysManager.SplitOff` | kernel/kernel/src/mm/pmm.rs:164-171 | the upper half of a split block goes on its list and its bit is toggled |
| `PhysManager.PhysManager.constructor` | kernel/kernel/src/mm/pmm.rs:117-144 | no frame is free at first |
| `PhysManager.BuddyFlipsBit` | kernel/kernel/src/mm/pmm.rs:273-279 | buddy and parent are the frame number with the bit of the order flipped, or cleared |
| `PhysManager.BuddyOfIsBuddy` | kernel/kernel/src/mm/pmm.rs:268-279 | for an aligned frame these are the first frames of the buddy block and of the parent block |
| `PhysManager.TakenIsLive` | kernel/kernel/src/mm/pmm.rs:146-174 | handing out a block keeps all blocks in use disjoint from each other and from the free frames, and conserves the total |
| `BuddyLists.HistoryIndependent` | kernel/kernel/src/mm/pmm.rs:287-330 | the blocks on each free list depend on the set of free frames only, not on history |
| `BuddyLists.SearchFinds` | kernel/kernel/src/mm/pmm.rs:151-161 | a list of at least the order is not empty if and only if some aligned block of the order is free |
| `BuddyLists.SplitBit` | kernel/kernel/src/mm/pmm.rs:257-266 | for a block that is not free, the split bit of its pair says whether its buddy is on the free list, which is whether the buddy is wholly free |
| `BuddyLists.FreePagesUpdate` | kernel/kernel/src/mm/pmm.rs:249-255 | the number of free pages follows the list lengths |
| `BuddyBlocks.RemoveCanonical` | kernel/kernel/src/mm/pmm.rs:146-174 | taking a listed block from the free frames takes exactly that block off the lists |
| `BuddyBlocks.AddCanonical` | kernel/kernel/src/mm/pmm.rs:176-201 | freeing a block whose buddy is not free puts exactly that block on the lists |
| `BuddyBlocks.CanonicalDisjoint` | kernel/kernel/src/mm/pmm.rs:146-201 | two listed blocks are the same or share no frame |
| `BuddyBlocks.NeverBoth` | kernel/kernel/src/mm/pmm.rs:176-201 | two buddies are never both on the free list |
| `BuddyBlocks.CanonicalAbove` | kernel/kernel/src/mm/pmm.rs:151-161 | every wholly free block lies in a listed one |
| `SliceChildren.GetChildFinds` | kernel/kernel/src/mm/vm/aspace/tree.rs:407-413 | lookup finds a child if and only if the child contains the page and the page is not its first |
| `SliceChildren.FitsIffDisjoint` | kernel/kernel/src/mm/vm/aspace/tree.rs:253-263 | the two neighbours decide: a range fits exactly if it meets no child |
| `SliceChildren.IterGaps` | kernel/kernel/src/mm/vm/aspace/tree.rs:274-316 | the gaps are exactly the maximal free runs, in ascending order |
| `SliceChildren.FindSpot` | kernel/kernel/src/mm/vm/aspace/tree.rs:211-223 | the search answers exactly: the first aligned place with one page to spare, or the underflow if a gap that ends before its first aligned page comes first, or none if there is neither |
| `SliceChildren.SpotAnswers` | kernel/kernel/src/mm/vm/aspace/tree.rs:202-232 | the first gap whose probe is not negative decides, over all maximal free runs and all aligned places |
| `SliceChildren.AnswersUnique` | kernel/kernel/src/mm/vm/aspace/tree.rs:202-232 | these three conditions exclude each other, so each outcome is reported if and only if its condition holds |
| `SliceTree.SliceTree.GetMapping` | kernel/kernel/src/mm/vm/aspace/tree.rs:101-118 | returns a mapping if and only if it contains the page and the page is strictly past the start of every child on the way; the errors otherwise |
| `SliceTree.SliceTree.FindPlace` | kernel/kernel/src/mm/vm/aspace/tree.rs:125-142 | the place found, or the error, is exactly the one for the request, for ranges of no pages too |
| `SliceTree.SliceTree.FindFixed` | kernel/kernel/src/mm/vm/aspace/tree.rs:236-267 | a fixed range is accepted if and only if it is inside an attached slice and vacant; the three errors in order |
| `SliceTree.SliceTree.FindAligned` | kernel/kernel/src/mm/vm/aspace/tree.rs:202-232 | an aligned search gives the least aligned place with one page to spare, fails if and only if there is none, and underflows if and only if a gap that ends before its first aligned page comes before any such place |
| `SliceTree.PlacedIsVacant` | kernel/kernel/src/mm/vm/aspace/tree.rs:202-267 | every place found, fixed or aligned, is inside the slice and meets no child |
| `SliceTree.UnderflowsThoughRoomy` | kernel/kernel/src/mm/vm/aspace/tree.rs:213-217 | a slice with ample room in which an aligned search underflows at a gap of one page |
| `SliceTree.SliceTree.CreateSubslice` | kernel/kernel/src/mm/vm/aspace.rs:214-236 | a new subslice is attached at the place found; all slices stay linked if and only if it takes no other subslice's place, and one with pages takes no child's place; the invariant of the tree, which has no place for children of no pages, is kept by one with pages |
| `SliceTree.SliceTree.InsertMapping` | kernel/kernel/src/mm/vm/aspace/tree.rs:225-231 | all slices stay linked if and only if the mapping takes no subslice's place, and one with pages takes no child's place and keeps children disjoint and inside |
| `SliceTree.Orphaned` | kernel/kernel/src/mm/vm/aspace/tree.rs:149-155 | a subslice that loses its place among its parent's children, removed or replaced, stays attached with no way to reach it |
| `SliceTree.SliceTree.RemoveChild` | kernel/kernel/src/mm/vm/aspace/tree.rs:149-155 | removes whatever child starts there; all slices stay linked, and the tree right, if and only if that was a mapping |
| `SliceTree.SliceTree.DetachChildren` | kernel/kernel/src/mm/vm/aspace/tree.rs:164-198 | ends on every tree, never meets a detached slice, and detaches exactly the slice and its descendants, leaving everything else untouched |
| `SliceTree.SliceTree.UnmapSlice` | kernel/kernel/src/mm/vm/aspace.rs:256-269 | unlinks and detaches exactly the slice and its descendants; the two errors |
| `SliceTree.SliceTree.Drop` | kernel/kernel/src/mm/vm/aspace.rs:582-587 | when an address space goes away every slice becomes detached |
| `SliceTree.OnlyEmptyRangesCollide` | kernel/kernel/src/mm/vm/aspace/tree.rs:236-267 | a range of no pages, and no other, is vacant where a child starts |
| `SliceNesting.MappingsDisjoint` | kernel/kernel/src/mm/vm/aspace.rs:80-95 | two attached mappings share no page, wherever they are in the tree |
| `SliceNesting.VacantMeetsNoMapping` | kernel/kernel/src/mm/vm/aspace.rs:80-95 | a vacant range of a slice meets no attached mapping anywhere |
| `SliceNesting.Laminar` | kernel/kernel/src/mm/vm/aspace.rs:80-95 | in every tree of slices two ranges are disjoint unless one slice is below the other |
| `SliceNesting.TreeIsNested` | kernel/kernel/src/mm/vm/aspace.rs:80-95 | in every tree of slices a mapping meets a slice other than its own only inside one of that slice's subslices |
| `SliceNesting.MappingInside` | kernel/kernel/src/mm/vm/aspace.rs:80-95 | a mapping below a slice lies inside it |
| `SliceNesting.MappingOutside` | kernel/kernel/src/mm/vm/aspace.rs:80-95 | a mapping that is not below a slice lies outside it |
| `SliceNesting.DetachedMappings` | kernel/kernel/src/mm/vm/aspace.rs:256-269 | unmapping a slice leaves exactly the mappings that are not below it |
| `Commit.DoCommit` | kernel/kernel/src/mm/vm/aspace.rs:469-542 | committing in runs of consecutive frames equals page-by-page mapping: on success every page of the mapping translates to the frame its object provides and none was refused; on failure a first part does, up to the run that was pending when a page was not provided, or up to the first page that is refused in its run, or up to one that is not refused with the pool empty; nothing else changes and tables are added for the mapping's pages only; pages are large exactly where a run of consecutive frames has room for a large page |
| `Commit.DoMap` | kernel/kernel/src/mm/vm/aspace.rs:495-507 | mapping one run extends the committed part by the run, or stops at a page that is refused, or at one that is not with the pool empty |
| `Commit.CommitRun` | kernel/kernel/src/mm/vm/aspace.rs:495-507 | pages mapped from a run are the object's frames for those pages |
| `Commit.RunSized` | kernel/kernel/src/mm/vm/aspace.rs:495-507 | mapping a run gives its pages the right size and keeps that of the pages before it |
| `Commit.SameRefusal` | kernel/kernel/src/mm/vm/aspace.rs:495-507 | which pages of a run are refused does not depend on the runs mapped before it |
| `Commit.RefusedUntranslated` | kernel/kernel/src/mm/vm/aspace.rs:495-507 | where nothing is translated, a page is refused if and only if its run would give it a 2 MiB page and a level-0 table is left over there |
| `Unmapping.DoUnmap` | kernel/kernel/src/mm/vm/aspace.rs:549-559 | for any range: the expected unmap fails if and only if a step of the walk meets an entry that sticks out; else exactly the pages that the walk steps over from a translated page become unmapped and culling changes no translation on top of that; only tables that the culling pass comes to are gone, and of those it comes to all that are empty or covered; one flush is requested, for exactly the entries written, when all of them are cleared and before any table is given back |
| `Unmapping.VisitedAreSettled` | kernel/kernel/src/mm/pt.rs:414-440 | from any base, of the tables that the culling pass comes to none is left that is empty or covered by the range |
| `Unmapping.FirstPathCulled` | kernel/kernel/src/mm/pt.rs:414-440 | whatever page a range starts at, no table on that page's path is left empty |
| `Unmapping.UnmapsAll` | kernel/kernel/src/mm/vm/aspace.rs:549-559 | no page of a mapping that owns its pages is missed by the walk |
| `Unmapping.NoPartialPage` | kernel/kernel/src/mm/vm/aspace.rs:549-559 | the walk over a mapping never meets a large page that sticks out of it |
| `Unmapping.FitsIffEntriesEnd` | kernel/kernel/src/mm/vm/aspace.rs:553-555 | from an aligned stop, the expected unmap succeeds if and only if the entry of every translated page in the range ends by the range's end |
| `Unmapping.WalkErases` | kernel/kernel/src/mm/vm/aspace.rs:553-557 | the flush gathered by the walk covers every page whose translation has changed once tables are culled |
| `Unmapping.EmptyTablesCulled` | kernel/kernel/src/mm/vm/aspace.rs:553-557 | unmapping from the first page of an entry on leaves no empty table with a page in the range |
| `AddrSpace.AddrSpace.MapCommitted` | kernel/kernel/src/mm/vm/aspace.rs:299-374 | places the mapping exactly where the request says, in a vacant range of the object's full size, or says why not; on success translates every page to the object's frame at (page - start + offset); else a page is not provided, the pool is empty, or some run has a 2 MiB page over a leftover level-0 table, which is never so on success; a mapping with pages keeps the whole invariant; one without pages keeps slices linked and tree and page table in agreement if and only if no subslice and no mapping with a translated page starts there; on failure exactly a first part is committed, as `Commit.DoCommit` says |
| `AddrSpace.AddrSpace.Unmap` | kernel/kernel/src/mm/vm/aspace.rs:392-410 | through any handle ever given out: the four outcomes, exactly what is unmapped, and that tree and page table stay in agreement if and only if the child taken out is a mapping with no translated page past the handle and no other mapping loses a page before one that it keeps; through a mapping's own handle neither panics nor loses agreement and clears exactly its pages; the tables that go and the flush are as `Unmapping.DoUnmap` says |
| `AddrSpace.AddrSpace.UnmapSlice` | kernel/kernel/src/mm/vm/aspace.rs:256-277 | takes out exactly the slice and everything below it; panics if and only if a step of the walk meets an entry that sticks out, and else stays in agreement if and only if the walk reaches every translated page of the slice; it always does both right if the slice starts with the first page of an entry; the tables that go and the flush are as `Unmapping.DoUnmap` says |
| `AddrSpace.AddrSpace.CreateSubslice` | kernel/kernel/src/mm/vm/aspace.rs:214-236 | a subslice with pages keeps the whole invariant; one without pages keeps slices linked and tree and page table in agreement if and only if no subslice and no mapping with a translated page starts there |
| `AddrSpace.AddrSpace.Run` | kernel/kernel/src/mm/vm/aspace.rs:214-410 | over every sequence of mappings, unmappings, creations and unmappings of slices: each operation has its stated effect on the state before it, every state in between has the slices in a tree, the tables in a tree with all frames accounted for, and a page translated only if it lies in an attached mapping and then to that mapping's frame; the run ends early only at an unmapping through a handle that outlived its mapping, an unmapping of a slice that starts in the middle of an entry, a search that underflows, or the creation of a child of no pages, and it is stated which of these panic and which break agreement |
| `AddrSpace.AddrSpace.Do` | kernel/kernel/src/mm/vm/aspace.rs:214-410 | one operation of such a run: its effect, and why the run ends if it does |
| `SpaceSteps.MappingStep` | kernel/kernel/src/mm/vm/aspace.rs:299-374 | what placing and committing a mapping does to the state as a whole |
| `SpaceSteps.EmptyStep` | kernel/kernel/src/mm/vm/aspace/tree.rs:225-266 | what creating a child of no pages does to the state as a whole |
| `SpaceSteps.UnmapStep` | kernel/kernel/src/mm/vm/aspace.rs:392-410 | what unmapping through a handle does to the state as a whole: the invariant, and agreement, hold afterwards if and only if the condition of `Coherence.UnmapIff` held before |
| `SpaceSteps.UnmapSliceStep` | kernel/kernel/src/mm/vm/aspace.rs:256-277 | what unmapping a slice does to the state as a whole |
| `SpaceSteps.RunExtends` | kernel/kernel/src/mm/vm/aspace.rs:214-410 | the states of a run, with one more operation |
| `SpaceSteps.RunStep` | kernel/kernel/src/mm/vm/aspace.rs:214-410 | from each state of a run the next operation leads to the next state, or ends the run |
| `AddrSpace.AddrSpace.constructor` | kernel/kernel/src/mm/vm/aspace.rs:118-139 | a fresh low address space has one empty slice and one table, translates nothing and is in agreement |
| `AddrSpace.AddrSpace.MapAndUnmap` | kernel/kernel/src/mm/vm/aspace.rs:362-410 | unmapping undoes mapping: slices and translations are exactly as before, also if the commit failed half way |
| `Coherence.MapCoherent` | kernel/kernel/src/mm/vm/aspace.rs:362-374 | committing a first part of a newly placed mapping keeps agreement |
| `Coherence.UnmapIff` | kernel/kernel/src/mm/vm/aspace.rs:392-410 | once the pages that the walk over a handle's range clears are cleared and the mapping that starts there is taken out, there is agreement if and only if the condition of `AddrSpace.AddrSpace.Unmap` held before |
| `Coherence.MappingOwnsPages` | kernel/kernel/src/mm/vm/aspace.rs:392-410 | under agreement the translated pages of a mapping are its own and start at its first page |
| `Coherence.VacantUntranslated` | kernel/kernel/src/mm/vm/aspace.rs:299-338 | a vacant range is not translated at all |
| `Coherence.OthersStickOut` | kernel/kernel/src/mm/vm/aspace.rs:392-410 | if the first page is translated, another mapping loses a page before one that it keeps if and only if it starts within the handle's range and has a translated page behind it |
| `Coherence.OwnHandle` | kernel/kernel/src/mm/vm/aspace.rs:392-410 | a mapping's own handle meets the condition |
| `Coherence.UnmapSliceIff` | kernel/kernel/src/mm/vm/aspace.rs:256-277 | unmapping a slice keeps agreement if and only if the walk reaches every translated page in it |
| `Coherence.EmptyChildIff` | kernel/kernel/src/mm/vm/aspace/tree.rs:253-266 | a child of no pages that takes the place of the child that starts there breaks the agreement of tree and page table if and only if that was a mapping with a translated page |
| `Coherence.AlignedSlice` | kernel/kernel/src/mm/vm/aspace.rs:256-277 | a slice that starts with the first page of an entry is unmapped without a panic and without missing a page |
| `Coherence.CommitEffect` | kernel/kernel/src/mm/vm/aspace.rs:362-374 | why committing to a vacant range ends as it does |
| `ConcreteRuns.UnmapTwice` | kernel/kernel/src/mm/vm/aspace.rs:392-410 | a run from a fresh address space (map, unmap, map, unmap through the first handle) in which every operation succeeds and that leaves a page translated with no mapping left (the documentation promises an error) |
| `ConcreteRuns.SliceMisses` | kernel/kernel/src/mm/vm/aspace.rs:256-277 | a run from a fresh address space (create a slice, map a page in it, unmap the slice) in which every operation succeeds and that leaves the page translated with no mapping left |
| `ConcreteRuns.RefusedThoughUnmapped` | kernel/kernel/src/mm/vm/aspace.rs:362-374 | a run from a fresh address space (map two pages, unmap them, map 512 frames at a vacant place) that ends in an overlap although no page was translated before the last operation and frames are left (the documentation of `map` promises this error for mapped pages only) |
| `ConcreteRuns.EmptyReplaces` | kernel/kernel/src/mm/vm/aspace.rs:214-236 | a run from a fresh address space (map a page, create a subslice of no pages there) in which both operations succeed and that leaves the page translated with no mapping left (the documentation promises an error for an overlap) |
| `SizeClasses.NewMeta` | kernel/kernel/src/mm/heap.rs:239-256 | objects_per_slab is the largest number that fits with header and bitmap |
| `SizeClasses.ObjectsApart` | kernel/kernel/src/mm/heap.rs:258-264 | objects lie behind header and bitmap, inside the slab, apart from each other |
| `SizeClasses.FindsObject` | kernel/kernel/src/mm/heap.rs:380-384 | rounding an object's address down gives its slab, and its index is recovered exactly |
| `SizeClasses.BinHolds` | kernel/kernel/src/mm/heap.rs:174-194 | the chosen class or page order holds the request, and slabs serve exactly the sizes up to 2048 |
| `SizeClasses.BinSmallest` | kernel/kernel/src/mm/heap.rs:181-194 | the next smaller class or page order would not hold the request |
| `SizeClasses.ClassFrom` | kernel/kernel/src/mm/heap.rs:181-188 | the first class that is large enough |
| `SizeClasses.Log2Ceil` | lib/num-utils/src/lib.rs:21-27 | the least power of two that is large enough |
| `SizeClasses.SameSizeSameBin` | kernel/kernel/src/mm/heap.rs:63-90 | equal usable sizes come from the same class or order, so a block resized in place can be freed under its new layout |
| `SizeClasses.ClassKeepsAlignment` | kernel/kernel/src/mm/heap.rs:96-134 | rounding a size up to its class keeps every power of two that divides it |
| `SizeClasses.ObjectAligned` | kernel/kernel/src/mm/heap.rs:294-301 | every object of a class is aligned as the class size is |
| `SizeClasses.RawAligned` | kernel/kernel/src/mm/heap.rs:151-156 | pages handed out directly are aligned as the request was |
| `SlabClass.AllocatedOk` | kernel/kernel/src/mm/heap.rs:272-302 | allocating an object keeps the class invariant (count = bits set, partial list = slabs with room, no empty slab) and makes exactly that object live |
| `SlabClass.FreedOk` | kernel/kernel/src/mm/heap.rs:304-344 | freeing an object keeps the class invariant, makes exactly that object free, and finds a slab to be released on the partial list |
| `SlabClass.ChosenHasRoom` | kernel/kernel/src/mm/heap.rs:287-290 | a chosen slab always has a clear bit |
| `SlabHeap.Heap.AllocateObject` | kernel/kernel/src/mm/heap.rs:272-302 | fails if and only if there is no partial slab and no free block for a new one; else hands out one object more than before, from the first partial slab if there is one; no block is lost to the heap |
| `SlabHeap.Heap.TakeSlab` | kernel/kernel/src/mm/heap.rs:346-366 | the first partial slab, or a new empty one |
| `SlabHeap.Heap.DeallocateObject` | kernel/kernel/src/mm/heap.rs:304-344 | takes back exactly the object at the address and gives an empty slab back to the memory manager |
| `SlabHeap.Heap.AllocateBytes` | kernel/kernel/src/mm/heap.rs:145-158 | a request is served from its bin with a piece whose whole length is returned, or fails if and only if the bin has no room |
| `SlabHeap.Heap.DeallocateBytes` | kernel/kernel/src/mm/heap.rs:160-172 | takes back exactly the piece of memory at the address; the heap keeps no block that it does not use |
| `SlabHeap.Heap.Allocate` | kernel/kernel/src/mm/heap.rs:55-57 | for every layout the address is a multiple of the alignment, and what is returned holds the size and is exactly one piece |
| `SlabHeap.Heap.Deallocate` | kernel/kernel/src/mm/heap.rs:59-61 | takes back exactly what was allocated under the layout |
| `SlabHeap.Heap.Resize` | kernel/kernel/src/mm/heap.rs:63-90 | the old piece is replaced by one that serves the new layout, and stays where it is if both layouts are of one bin; the contents are kept as far as both sizes go, and no byte outside the returned piece changes; nothing else changes hands; fails if and only if it must move and there is no room |
| `SlabHeap.Heap.CopyBytes` | kernel/kernel/src/mm/heap.rs:79-83 | copies exactly the bytes asked for |
| `SlabHeap.Heap.PiecesApart` | kernel/kernel/src/mm/heap.rs:145-172 | no two pieces of memory handed out overlap, over all classes and page blocks |
| `SlabHeap.Heap.AllocationsApart` | kernel/kernel/src/mm/heap.rs:145-158 | what two callers were returned for their layouts does not overlap, from the first to the last byte |
| `SlabHeap.Heap.HeadersApart` | kernel/kernel/src/mm/heap.rs:369-378 | no piece of memory handed out overlaps the header or bitmap of any slab |
| `SlabHeap.Heap.WithinBlock` | kernel/kernel/src/mm/heap.rs:145-172 | a piece lies in a block owned by the heap, behind the slab's header and bitmap |
| `SlabHeap.Heap.constructor` | kernel/kernel/src/mm/heap.rs:101-143 | a heap with all 25 classes that has handed out nothing |
| `Bitmap.Bitmap.Get` | lib/bitmap/src/lib.rs:26-29 | a packed bit is the bit of the sequence the bytes stand for |
| `Bitmap.Bitmap.FirstZero` | lib/bitmap/src/lib.rs:31-34 | the least clear bit below the limit, or none if and only if all are set |
| `Bitmap.Bitmap.Set` | lib/bitmap/src/lib.rs:42-45 | sets one bit and no other |
| `Bitmap.Bitmap.Unset` | lib/bitmap/src/lib.rs:47-50 | clears one bit and no other |
| `Bitmap.Bitmap.Toggle` | lib/bitmap/src/lib.rs:52-55 | flips one bit and no other |
| `Arith.AlignUpLeast` | lib/num-utils/src/lib.rs:9-11 | rounding up gives the least multiple |
| `SchedModel.StepOk` | kernel/kernel/src/sched.rs:56-360 | no step that the running code can take panics, and every step keeps the scheduler invariant |
| `SchedModel.RunOk` | kernel/kernel/src/sched.rs:56-360 | the invariant holds over every run of spawn, start, reschedule, exit and completion |
| `SchedModel.HandoffsAlternate` | kernel/kernel/src/sched.rs:309-360 | in every run, handoffs are begun and completed in strict turn |
| `SchedModel.OneRunning` | kernel/kernel/src/sched.rs:234-264 | once started, exactly one thread is running, and it is the one that executes |
| `SchedModel.SelectsReady` | kernel/kernel/src/sched.rs:234-264 | every switch is to the thread that waited longest, which was ready, or to the idle thread, or back to the one that gave way if none waits; that thread runs and waits no longer, the handoff names it, and it is the exiting thread that will be freed; the thread switched away from is ready or dead, and no other thread changes |
| `SchedModel.DroppedOnce` | kernel/kernel/src/sched.rs:337-353 | a thread that has exited has its owner dropped exactly once and is referenced no more |
| `SchedModel.FreedElsewhere` | kernel/kernel/src/sched.rs:337-353 | while its owner is being dropped some other thread executes |
| `SchedModel.ReferencedAreOwned` | kernel/kernel/src/sched.rs:386-391 | every thread but the idle one that the queue, the current-thread field, the handoff or the processor refers to has an owner, also while a handoff is pending |
| `SchedModel.FirstInFirstOut` | kernel/kernel/src/sched.rs:393-401 | a thread at place k of the queue is selected by the selection that follows k others, the start of the scheduler included |
| `SchedModel.MovesUp` | kernel/kernel/src/sched.rs:225-264 | a queued thread moves up one place with every selection, before and after the start, whatever else happens |
| `SchedModel.SpawnsLast` | kernel/kernel/src/sched.rs:65-73 | a spawned thread is ready, owned and last in the queue, and every other thread is as it was and where it was |
| `SchedModel.SpawnedIsSelected` | kernel/kernel/src/sched.rs:65-73 | a spawned thread is first selected right after those that were queued before it |
| `SchedModel.SpawnOrder` | kernel/kernel/src/sched.rs:65-73 | threads wait in the order in which they were spawned |
| `SchedModel.CompletesSwitch` | kernel/kernel/src/sched.rs:327-360 | completing a switch makes the thread it was to the current one and drops the owner of the exited thread, and changes nothing else |
| `Scheduler.Scheduler.SpawnThread` | kernel/kernel/src/sched.rs:65-73 | the new thread is ready, owned and last in the queue, and nothing else changes |
| `Scheduler.Scheduler.StartFirst` | kernel/kernel/src/sched.rs:146-164 | the first queued thread runs and the idle thread exists |
| `Scheduler.Scheduler.ReschedCurrent` | kernel/kernel/src/sched.rs:225-232 | the running thread goes to the end of the queue and the first there runs, possibly the same one |
| `Scheduler.Scheduler.ExitCurrent` | kernel/kernel/src/sched.rs:188-202 | the running thread is dead and is freed by the next completion |
| `Scheduler.Scheduler.CompleteHandoff` | kernel/kernel/src/sched.rs:327-360 | a handoff is pending, the new thread is current, and the owner to be dropped exists |
| `SpinOnce.RunOk` | lib/spin-once/src/lib.rs:62-157 | under every interleaving of any number of threads a value is written at most once, never changes again, and is never read before it is written |
| `SpinOnce.AllGetTheSame` | lib/spin-once/src/lib.rs:30-90 | all calls that return a value, then and later, return the same one |
| `SpinOnce.InitializedIsFound` | lib/spin-once/src/lib.rs:30-90 | once the cell is initialised every call that asks for the value returns it with its next two steps, whatever other threads do in between |
| `SpinOnce.GetCall` | lib/spin-once/src/lib.rs:30-37 | a call of `get` ends without a value if and only if the cell is not initialised when it looks |
| `SpinOnce.InitCall` | lib/spin-once/src/lib.rs:104-142 | a call of `init` wins if and only if it finds the cell uninitialised, and panics else |
| `SpinOnce.GetOrInitCall` | lib/spin-once/src/lib.rs:62-90 | a call of `get_or_init` reads the value if it finds the cell initialised, wins if and only if it finds it uninitialised, and else waits |
| `SpinOnce.WinnerReturns` | lib/spin-once/src/lib.rs:144-152 | the winner's call returns its own value, or the stored initializer's, with its next two steps, whatever others do, and the cell then has that value; it panics if and only if the initializer is missing |
| `SpinOnce.WaitsWhileInitializing` | lib/spin-once/src/lib.rs:79-85 | a waiting thread goes on waiting exactly as long as the cell is being initialised |
| `SpinOnce.StepOk` | lib/spin-once/src/lib.rs:62-157 | every atomic step keeps the invariant: at most one thread initialises |
| `SpinOnce.StartCallOk` | lib/spin-once/src/lib.rs:30-142 | starting a call keeps it |
| `SpinOnce.LazyRunOk` | lib/spin-once/src/lib.rs:184-192 | the initializer of a lazy value is never missing |
| `SpinOnce.SpinsForAWinner` | lib/spin-once/src/lib.rs:79-85 | a thread that spins in a lazy value always waits for another one that is still at work, or for none |
| `SpinOnce.NewOk` | lib/spin-once/src/lib.rs:22-27 | a new cell meets the invariant |
| `SpinOnce.TakeRunOk` | lib/spin-once/src/lib.rs:234-243 | over every run at most one thread ever gets access, and it keeps it |
| `SpinOnce.FirstTakes` | lib/spin-once/src/lib.rs:234-243 | the thread whose swap comes first initialises the value and then has access; every later one is denied |
| `UsableRanges.Carve` | kernel/kernel/src/mm/utils.rs:55-98 | the emitted ranges are ascending, disjoint and non-empty, and contain a frame if and only if it is usable and in no reserved range, or only in one that comes after a reserved range that stalls the cursor |
| `UsableRanges.CarveOne` | kernel/kernel/src/mm/utils.rs:62-97 | the same for one usable range, with the state of the cursor |
| `UsableRanges.LeavesOutReserved` | kernel/kernel/src/mm/utils.rs:55-98 | no reserved frame is emitted if and only if no usable frame is in a reserved range behind one that stalls |
| `UsableRanges.NothingStalls` | kernel/kernel/src/mm/utils.rs:55-98 | if each reserved range ends in or at a usable range it starts before the end of, or has no usable range behind it, the output is usable minus reserved |
| `UsableRanges.ReservedButReported` | kernel/kernel/src/mm/utils.rs:68-72 | an input for which a reserved frame is emitted: a reserved range in a hole is never consumed |
| `MemoryMap.Coalesce` | kernel/efiboot/src/bootbuild.rs:70-100 | in place: every page keeps its kind, the result is sorted and disjoint and has no neighbours that could be merged; panics if and only if entries intersect or are out of order |
| `MemoryMap.AbsorbOk` | kernel/efiboot/src/bootbuild.rs:88-96 | taking one more entry keeps meaning, order and maximality |
| `Bootinfo.BuildAndRead` | kernel/bootinfo/src/builder.rs:88-104 | for every sequence of appends, failed ones included, reading the finished bytes gives exactly the successful items in order |
| `Bootinfo.Builder.AppendSlice` | kernel/bootinfo/src/builder.rs:32-93 | success exactly if alignment and room suffice; the bytes then read back as one item more, and on failure nothing changes |
| `Bootinfo.Builder.Finish` | kernel/bootinfo/src/builder.rs:95-104 | the finished bytes read back as the items |
| `Bootinfo.NewBuilder` | kernel/bootinfo/src/builder.rs:16-27 | the two errors |
| `Bootinfo.Items` | kernel/bootinfo/src/view.rs:37-65 | the iterator reads what the packed form means, or panics exactly if it is malformed |
| `Bootinfo.ParseAppend` | kernel/bootinfo/src/builder.rs:49-79 | an item written behind a readable buffer, after padding, is read as its last item |
| `Bootinfo.PayloadsAligned` | kernel/bootinfo/src/view.rs:47-63 | every payload is read in place, within bounds and at an aligned offset |
| `Bootinfo.SliceRoundTrip` | kernel/bootinfo/src/view.rs:103-120 | values appended are read back as the same number of values |
| `Bootinfo.SliceErrors` | kernel/bootinfo/src/view.rs:103-120 | reading values fails with the one error if and only if no whole number of them fits the payload, and with the other if and only if one does and the address is not a multiple of the alignment |
| `Bootinfo.HeaderRoundTrip` | kernel/bootinfo/src/builder.rs:58-67 | kind and length survive the header |
| `Bootinfo.HeaderLayout` | kernel/bootinfo/src/builder.rs:58-67 | kind and length follow each other with the lowest byte first |

## Left out

- Register-level context switches, interrupts, descriptor tables, UEFI, ELF loading, consoles and logging: foreign calls and I/O.
- Page faults (`AddrSpace::fault`) and `commit` of part of a mapping: they commit pages in any order, so that the committed pages need no longer be a first part of their mapping; what a later walk then reaches is what `PageUpdate.UnmapClears` says for any range.
- The kernel half of a low address space's root table: it is copied from the kernel's own table and no low page reaches it; the model's root table starts cleared.
- Virtual pages outside the span of one root table: the source's range checks on canonical addresses are not modelled.
- `MappingInner`: it is never cleared, so a mapping has no detached state of its own.
- The registers that the memory types are set up in: which of the eight types an entry selects is modelled, not what the type registers hold.
- The contents of frames and of payloads of other types: opaque, except for the bytes that `resize` copies.
- PhysManager.PhysManager.Release: the order of the blocks on one free list is not stated.
- Fixed-width overflow: frame numbers, page counts and sizes are unbounded, except where the source checks (`checked_add`, lengths of 32 bits) and except for the underflow of the alignment padding, which is an outcome of its own.
- SliceTree.SliceTree.FindAligned: the underflow is a panic here, as in builds with overflow checks; without them the subtraction wraps around and the child is placed past the end of the gap.
- Weak memory orderings and the locks themselves: steps are sequentially consistent and locked sections are atomic.
- Allocation failure of metadata (`Arc`, `Name`, thread stacks): it is reported before any state changes.
- Command line, display helpers and the remaining file formats: they would only add easy members.
- SlabHeap.Heap.AllocateObject: bitmaps are sequences of bits here; that the packed bytes behave as one is stated by the members of `Bitmap`.
- Unmapping.DoUnmap: every table may be culled, as in a low address space; in the kernel's own one the tables of the boot image may not, which `PageTable.PageTable.CullTables` covers.
- AddrSpace.AddrSpace.MapAndUnmap: for mappings of at least one page; `AddrSpace.AddrSpace.MapCommitted` states what becomes of an empty one.
- AddrSpace.AddrSpace.Run: a run ends at the first operation that panics, breaks agreement, or creates a child of no pages; nothing is stated about operations after that.  That children have pages is part of the invariant by definition.
