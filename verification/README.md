# Verified model of the Plos memory managers and scheduling primitives

Plos is a small x86_64 kernel. This project models, in Dafny, the state machines at its centre and proves
what they keep over every run:

- **Physical memory** (`Bits`, `Seqs`, `Tiling`, `Dll`, `BuddyStore`, `Pmm`, `Boot`). The buddy allocator over the page
  array and the intrusive free-list rings. The specification is a *tiling*: for every frame the block that holds
  it. A sound tiling is a partition into naturally aligned blocks, and a maximal one holds every aligned free run
  in one block. Page descriptors inside a block may be stale; the invariant constrains block heads only, and the
  merge test is proved exact all the same.
- **Page tables** (`Entry`, `Regions`, `PageTable`, `Paging`). The 4-level tables live in frames of that allocator. The
  specification is a translation per root, from page number to leaf; mapping is an update of it, whatever tables
  are created on the way. A ghost map types each table frame with level, address prefix and owner. Upper entries take no
  right away, so the rights of a page are those of its leaf. The loops over regions run in 64-bit arithmetic.
- **Address spaces** (`Areas`, `Flags`, `Spaces`, `Effects`, `HeapSide`, `Descriptors`, `Vmm`, `Lifetimes`). Area lists
  with first-fit placement, the demand-paging fault handler, freeing of areas, creation and destruction of spaces. The
  invariant: no frame backs two anonymous pages of any spaces, pages outside areas are unmapped, mapped pages have exactly
  the rights of their area, in the kernel half each space sees a part of what the kernel sees, every space and area has a
  live heap block of its own, and the frames behind the heap back no page of a space. Descriptors come from the heap
  below, which may grow under every call. `Lifetimes` follows whole histories of a space from creation to destruction.
- **Kernel heap** (`HeapCells`, `HeapPages`, `Kheap`). First fit with split, extension and coalescing over headers in
  memory that tile the heap range. Extensions run over the page tables and the physical allocator above.
- **Locks and scheduling** (`TicketLock`, `Mutex`, `RoundRobin`, `Reaper`, `Scheduler`). The ticket lock and the
  FIFO hand-off mutex as step systems over all interleavings; the two-level ring search against a flat
  round-robin order; time slices, bounded waiting, sleeping, and the reaper.

Code that updates state in place is a class or a method over an array, proved against functions and predicates
on values. Locks around memory-manager calls are not modelled: each call is one step.

Where the code and its comments part ways, the code is modelled and the difference is stated as a lemma:

- vmm_alloc never reports exhaustion while its areas lie in the region (`Spaces.SearchSucceeds`); the result lies in
  the region if and only if a gap exists (`Areas.FitsIffGap`). A size whose sum wraps around can make it overlap an
  area (`Areas.WrapOverlaps`): exactly for the lists and sizes of `Areas.Overruns` (`Areas.SearchRight`). An area that
  ends at 2^64 sends the next search to address 0 (`Areas.EndsAtZero`).
- A kernel page that a fault maps is seen by the space that faulted if and only if the space's own slot in its root
  table was there before, whatever the kernel's slot held (`PageTable.KernelPageSeen`, `Effects.KernelFaultSeen`). A fault
  loses a frame if and only if the page was already mapped in the target (`Effects.RefaultLosesFrame`), and on I/O memory
  it puts RAM in the place of the device (`Effects.DeviceReplaced`); `Lifetimes.FaultsTwice` is a history with a lost frame.
- kheap_extend leaves the heap in order if and only if its new end does not wrap around 2^64; otherwise no page is mapped
  and the list grows all the same (`Kheap.Heap.Extend`, with the input of `Kheap.LastExtension`). After a failure the next
  extension maps the same pages again and loses their frames (`HeapPages.RemapLoses`, `HeapPages.RetryLosesPrefix`).
- kmalloc rounds a request close to 2^64 to zero (`HeapCells.RoundUpCovers`, `HeapCells.RoundUpWraps`).
- The region loops of the paging code visit exactly the pages of the byte range under the condition of
  `Regions.RegionCovered`. Otherwise they miss a page, make no round (`Regions.WrappedRegion`), halt at address 0
  (`Regions.ZeroRegion`), or do not end (`Regions.RegionRunsAway`); `Regions.RegionMisses` has inputs.
- A 4KB mapping inside a large page is stored into the memory behind the large page. If a table lies there, pages of
  that table change instead (`Paging.Machine.MapPage`, `Paging.SmallInsideLarge`).
- Destroying a space gives back everything but the tables below its root; frames the heap took for descriptors stay with
  the heap (`Lifetimes.Life`).
- The reference count of a block can wrap around, and the last reference dropped through an unaligned address leaves the
  block in use (`Pmm.Buddies.IncRef`, `Pmm.Buddies.DecRef`).
- A zombie that heads a task with a live thread is never reaped (`Reaper.SurvivorsAreHeads`, `Reaper.HeadStays`).
- The search for a thread does not end if and only if none is ready (`Scheduler.Rings.Search`, `Scheduler.SearchRunsOn`).
- The ticket lock excludes for up to 2^64 contenders and not for more (`TicketLock.MutualExclusion`,
  `TicketLock.ExclusionBreaks`).

## Model

| member | source | states |
|---|---|---|
| `Bits.XorBuddy` | kernel/src/memory/pmm.c:81-83 | for an aligned block the exclusive or with its size is the neighbour that completes the block of the next order |
| `Bits.Nested` | kernel/src/memory/pmm.c:79-110 | naturally aligned power-of-two ranges that meet are nested |
| `Tiling.BuddyIsHead` | kernel/src/memory/pmm.c:81-91 | in every partition the buddy of a block head is itself a block head, of no larger order |
| `Tiling.MaximalIffNoFreeBuddies` | kernel/src/memory/pmm.c:79-119 | no two same-order buddies are free if and only if every aligned free run lies in one free block |
| `Tiling.FreeBlocksCanonical` | kernel/src/memory/pmm.c:58-196 | the free blocks are determined by the set of free frames |
| `Tiling.AllocFreeRestores` | kernel/src/memory/pmm.c:58-196 | allocating a run and freeing it at the same order restores every block, through any splits and merges |
| `Tiling.BlocksDisjoint` | kernel/src/memory/pmm.c:134-196 | different blocks, in particular outstanding allocations, have no frame in common |
| `Tiling.TakenDisjoint` | kernel/src/memory/pmm.c:134-196 | a run just handed out is a used block of its own, apart from every outstanding block, and those are unchanged |
| `Tiling.FreedOthers` | kernel/src/memory/pmm.c:58-124 | freeing a block leaves every other block in use as it is |
| `Dll.RingAdd` | kernel/src/common/dll.c:22-39 | adding behind the head turns a ring of s into a ring of the new node followed by s, in both directions |
| `Dll.RingRemove` | kernel/src/common/dll.c:57-61 | deleting a node keeps the order of the others in both directions |
| `Dll.RingEmpty` | kernel/src/common/dll.c:70-73 | both pointers of the head lead to the head if and only if the ring is empty |
| `Dll.RingWrites` | kernel/src/common/dll.c:22-61 | the pointer writes of both operations stay on the ring and the node |
| `Dll.InitHead` | kernel/src/common/dll.c:9-13 | the head points to itself and no other node changes |
| `Dll.AddNodeAfter` | kernel/src/common/dll.c:22-39 | the in-place pointer writes equal the insertion that RingAdd is about |
| `Dll.DeleteNode` | kernel/src/common/dll.c:57-61 | the in-place pointer writes equal the removal that RingRemove is about |
| `BuddyStore.MergeTestExact` | kernel/src/memory/pmm.c:81-91 | although descriptors inside blocks are stale, flag and order at the buddy say free block of this order if and only if the partition does |
| `BuddyStore.EmptyListsNoRun` | kernel/src/memory/pmm.c:144-158 | when all lists from the order up are empty, no aligned run of that order is free |
| `BuddyStore.ShortListsBestFit` | kernel/src/memory/pmm.c:142-166 | with all shorter lists from the order up empty, a free block of the order found is smaller than or as large as every free block that holds the request |
| `Pmm.Buddies.constructor` | kernel/src/memory/pmm.c:308-322 | with empty lists and all frames reserved the allocator's invariant holds |
| `Pmm.Buddies.InitLists` | kernel/src/memory/pmm.c:308-313 | every list is an empty ring with counter 0 |
| `Pmm.Buddies.ReserveAll` | kernel/src/memory/pmm.c:318-322 | every descriptor is reserved with one reference |
| `Pmm.Buddies.MergeTest` | kernel/src/memory/pmm.c:81-91 | the test on the descriptor accepts the buddy if and only if it is a free block of the same order inside memory |
| `Pmm.Buddies.Absorb` | kernel/src/memory/pmm.c:93-109 | one merge keeps rings, counters and exact heads, and the block in hand becomes the union |
| `Pmm.Buddies.Coalesce` | kernel/src/memory/pmm.c:79-110 | the loop ends at the top order or where the buddy is no free block, with the data structures still exact |
| `Pmm.Buddies.Release` | kernel/src/memory/pmm.c:112-119 | the block in hand is a free block at the front of the list of its order |
| `Pmm.Buddies.FreePages` | kernel/src/memory/pmm.c:58-124 | exactly the run is added to the free frames, the partition is sound and maximal, lists and counters agree, and the merged block is at the front of its list; unaligned or foreign addresses change nothing |
| `Pmm.Buddies.FindOrder` | kernel/src/memory/pmm.c:142-153 | the smallest order from the wanted one on with a free block, or none |
| `Pmm.Buddies.TakeFirst` | kernel/src/memory/pmm.c:160-166 | the first block of the list, a free block of this order, is taken in hand and the rest stays exact |
| `Pmm.Buddies.SplitOff` | kernel/src/memory/pmm.c:172-185 | one split leaves the lower half in hand and the upper half as a free block |
| `Pmm.Buddies.Split` | kernel/src/memory/pmm.c:170-186 | the splitting loop hands out a run of the wanted order and leaves a maximal partition |
| `Pmm.Buddies.AllocPages` | kernel/src/memory/pmm.c:134-196 | it returns 0 if and only if no aligned run of the order is free; otherwise the start of a free block becomes a used block with one reference and nothing else is taken; that block heads its list, and no free block that is large enough was smaller |
| `Pmm.Buddies.OrderFromSize` | kernel/src/memory/pmm.c:204-213 | the least order whose blocks hold the size |
| `Pmm.Buddies.AllocBytes` | kernel/src/memory/pmm.c:222-228 | allocation of the least order from a smallest free block that holds it, failing if and only if no such run is free or the order is too large |
| `Pmm.Buddies.FreeBytes` | kernel/src/memory/pmm.c:236-241 | the run of the least order for the length is free again |
| `Pmm.Buddies.IncRef` | kernel/src/memory/pmm.c:382-393 | one more reference where the descriptor says in use, in 32-bit arithmetic, and nothing else; the invariant is lost if and only if the count of a used block wraps around |
| `Pmm.Buddies.DecRef` | kernel/src/memory/pmm.c:401-421 | one reference less; the last one frees the whole block, except through an unaligned address, where it leaves a used block without references; frames not in use, such as frame 0, are left alone |
| `Boot.HighestAddress` | kernel/src/memory/pmm.c:255-270 | the result is the end of the entry of a RAM kind behind which there is no other, 0 without one; in a sorted map it bounds every usable entry |
| `Boot.RamEndLast` | kernel/src/memory/pmm.c:255-270 | keeping the last end seen gives the end of the last entry of a RAM kind |
| `Boot.PlaceArray` | kernel/src/memory/pmm.c:282-298 | the first usable entry that holds the page array starts later by its size and ends where it did; all other entries are unchanged and the map stays sorted |
| `Boot.CutOffGives` | kernel/src/memory/pmm.c:282-343 | the map without the page array gives a frame if and only if the whole map gives it and it does not meet the array |
| `Boot.SeedOrder` | kernel/src/memory/pmm.c:349-363 | the largest order whose block is aligned at the address and ends inside the range |
| `Boot.WholeFrames` | kernel/src/memory/pmm.c:330-343 | the rounded bounds hold exactly the whole frames of the entry other than frame 0 |
| `Boot.SeedFrames` | kernel/src/memory/pmm.c:345-369 | the greedy loop terminates and frees exactly the frames of the range, each once |
| `Boot.SeedRegion` | kernel/src/memory/pmm.c:328-370 | one usable entry adds exactly its whole frames other than frame 0 |
| `Boot.Seed` | kernel/src/memory/pmm.c:325-371 | after the loop over the map a frame is free if and only if a usable entry gives it; all others are reserved |
| `Boot.Init` | kernel/src/memory/pmm.c:250-374 | it fails if and only if no usable entry holds the page array; otherwise a frame is free if and only if it is not frame 0, lies whole in a usable entry of the given map, and does not meet the array at the start of the first usable entry that holds it; all others are reserved |
| `HeapCells.TilesTotal` | kernel/src/memory/kheap.c:52-109 | headers and sizes add up to the length of the heap |
| `HeapCells.CellsCanonical` | kernel/src/memory/kheap.c:52-255 | a list that tiles the heap without free neighbours is determined by its live nodes: the free nodes are exactly the gaps |
| `HeapCells.GrowTiles` | kernel/src/memory/kheap.c:81-105 | an extension keeps the tiling without free neighbours, and the last node is free and has at least the new bytes |
| `HeapCells.GrowLive` | kernel/src/memory/kheap.c:81-105 | an extension leaves the live nodes as they are |
| `HeapCells.CarveTiles` | kernel/src/memory/kheap.c:136-155 | taking and splitting a node keeps the tiling without free neighbours |
| `HeapCells.CarveDisjoint` | kernel/src/memory/kheap.c:136-157 | the node handed out holds the request and meets no live node |
| `HeapCells.CarveKeepsLive` | kernel/src/memory/kheap.c:136-157 | the live nodes after kmalloc are those from before, with their sizes, and the new one |
| `HeapCells.MergeTiles` | kernel/src/memory/kheap.c:204-224 | coalescing keeps the tiling of the heap range |
| `HeapCells.MergeNoTwoFree` | kernel/src/memory/kheap.c:204-224 | after coalescing no two neighbours are free, for any list |
| `HeapCells.MergeKeepsLive` | kernel/src/memory/kheap.c:204-255 | coalescing neither changes nor invents a live node |
| `HeapCells.CarveMergeRestores` | kernel/src/memory/kheap.c:119-255 | kmalloc without extension followed by kfree restores the node list exactly |
| `HeapCells.CarveLive` | kernel/src/memory/kheap.c:136-157 | exactly one block more is out, at an address where none was; no other live node changes |
| `HeapCells.FreeKeepsLive` | kernel/src/memory/kheap.c:204-255 | the live nodes after kfree are those from before, with their sizes, without the freed one |
| `HeapCells.FreeLive` | kernel/src/memory/kheap.c:231-255 | exactly the freed block is no longer out, through any merges; no other live node changes |
| `HeapCells.RoundUpCovers` | kernel/src/memory/kheap.c:122 | the rounded size is the next multiple of 16 if rounding does not wrap around 2^64 and 0 otherwise; it covers the request if and only if it does not wrap |
| `HeapCells.RoundUpWraps` | kernel/src/memory/kheap.c:122 | a concrete request that is rounded to zero |
| `Kheap.Heap.constructor` | kernel/src/memory/kheap.c:23-43 | the heap starts on the first page at least 1MB behind the kernel as one free node, or empty when no frame was left; it is in order if and only if the first extension does not wrap around 2^64 |
| `Kheap.Heap.MapPages` | kernel/src/memory/kheap.c:60-72 | over page tables and allocator, in 64-bit arithmetic: page k behind the heap gets frame k of a list of distinct frames that were free; a failure or a halt means no frame is left and a prefix is mapped; a wrapped end makes no round; no other page of any root changes, and besides these frames only new tables took any |
| `Kheap.BackPage` | kernel/src/memory/kheap.c:64-71 | one round: a free frame is taken and the page mapped to it, or no frame is left and no translation changed |
| `HeapPages.RoundDone` | kernel/src/memory/kheap.c:60-72 | a further round keeps that the mapped pages have distinct fresh frames and that nothing else changed |
| `HeapPages.CountTaken` | kernel/src/memory/kheap.c:64-71 | the number of free frames falls by one for a frame taken |
| `HeapPages.BackedMore` | kernel/src/memory/kheap.c:60-72 | pages mapped behind the heap make the longer heap range fully mapped, every page writable by the kernel only and global |
| `HeapPages.HeapRights` | kernel/src/memory/kheap.c:71 | the entry behind a heap page is present, writable, global and not for user code |
| `HeapPages.HeldMore` | kernel/src/memory/kheap.c:60-72 | the frames behind the longer heap are held, hold no tables, and are all different |
| `HeapPages.GrewTrans` | kernel/src/memory/kheap.c:128-171 | several extensions together take only the frames they list and new tables, and change no page or root slot below the heap's end |
| `Kheap.Heap.Extend` | kernel/src/memory/kheap.c:52-109 | all of the growth, every page of it with a frame of its own, or an unchanged list; failure and halt only when no frame is left; no page outside the new range changes in any root; the heap stays in order if and only if its new end does not wrap around 2^64, and otherwise nothing is mapped and the list grows |
| `Kheap.LastExtension` | kernel/src/memory/kheap.c:60-105 | a heap 1MB below 2^64: the extension succeeds, maps nothing, and the heap ends at address 0 |
| `HeapPages.RemapLoses` | kernel/src/memory/kheap.c:60-72 | a frame that was behind a page is behind none after an extension if and only if all its pages got new frames; it stays in use |
| `HeapPages.RetryLosesPrefix` | kernel/src/memory/kheap.c:60-72 | after a failed extension the next one from the same end loses the frame of each page that was mapped |
| `Kheap.Heap.Append` | kernel/src/memory/kheap.c:75-106 | the header writes add the bytes to the last free node or as a new node and keep tiling and links |
| `Kheap.Heap.FindFit` | kernel/src/memory/kheap.c:130-162 | the lowest free node that fits, or none |
| `Kheap.Heap.Take` | kernel/src/memory/kheap.c:136-157 | a node with at least 40 bytes more than the request is split: it keeps exactly the request and a free node with the rest follows it; any other node is taken whole; no other live node changes |
| `Kheap.Heap.Kmalloc` | kernel/src/memory/kheap.c:119-175 | after k extensions the lowest fitting node is taken: with at least 40 bytes to spare it is cut to exactly the rounded size and a free node with the rest follows, otherwise it keeps its size; no other live node changes; k is at most ceil((rounded size + 24) / 1MB), and 0 when a node fits already; NULL or a halt only when nothing fits and no frame is left; exactly one block more is out; the frames taken are those behind the new pages |
| `Kheap.Heap.ExtendMore` | kernel/src/memory/kheap.c:163-170 | a further extension keeps the account of kmalloc: list, frames taken, live blocks |
| `Kheap.Heap.Coalesce` | kernel/src/memory/kheap.c:204-224 | the header writes compute the merge of the node list |
| `Kheap.Heap.Kfree` | kernel/src/memory/kheap.c:231-255 | the node is marked free and the list merged; exactly this block is no longer out and every other live node is unchanged; NULL and already free nodes change nothing |
| `Entry.MakeFields` | kernel/src/memory/paging.c:152 | address and flags of a leaf entry come back out of the bits: it is present, leads to the address, and RW, US, PWT, PCD, GLOBAL and NX are set exactly when the flags have them |
| `Entry.MakeBit` | kernel/src/memory/paging.c:152 | outside the address field an entry has PRESENT and exactly the bits of its flags, for every bit |
| `Entry.DirectoryFields` | kernel/src/memory/paging.c:62-66 | a directory entry is present, not large, leads to the frame of its table, and has RW and US but not NX |
| `Entry.HugeFields` | kernel/src/memory/paging.c:152 | a large-page entry is present, has PS, and keeps its address and the bits of its flags |
| `PageTable.VirtIndex` | kernel/include/memory/paging.h:51-58 | the four index macros are the base-512 digits of the page number, for every address |
| `PageTable.WriteElsewhere` | kernel/src/memory/paging.c:31-156 | a write to a slot changes no walk, from any root, of a page that does not use the slot |
| `PageTable.LinkSame` | kernel/src/memory/paging.c:48-63 | linking a zeroed table into an absent slot changes no translation of any root |
| `PageTable.WalkRights` | kernel/src/memory/paging.c:48-66 | for every page the rights of the whole walk, RW and US in every entry and NX in any, are those of the leaf entry |
| `PageTable.WriteUpdates` | kernel/src/memory/paging.c:146-152 | a leaf write is an update of the translation in one slot; in the lower half no other root sees it |
| `PageTable.MapUnmapRestores` | kernel/src/memory/paging.c:230-263 | for both page sizes, mapping an unmapped region and unmapping it restores the translation |
| `PageTable.CopyRootWalk` | kernel/src/memory/vmm.c:71-80 | a root with a copied upper half translates like the kernel there and nothing below |
| `PageTable.DropRootTyped` | kernel/src/memory/vmm.c:309-310 | no entry leads to a root, so giving one up leaves all other tables well formed |
| `PageTable.KernelPageSeen` | kernel/src/memory/vmm.c:75-80 | a page mapped in the kernel is seen by a root that sees part of the kernel half if and only if the root's own slot was present, and then as the kernel's page; the root goes on seeing part of the kernel half |
| `PageTable.SharesStay` | kernel/src/memory/vmm.c:75-80 | two roots keep sharing the kernel half under every mapping whose root slot is in the lower half or was there before |
| `PageTable.PartStays` | kernel/src/memory/vmm.c:75-80 | when each upper slot of a root is the kernel's or absent, it stays so under every mapping into the kernel and every lower-half mapping |
| `PageTable.PartWalk` | kernel/src/memory/vmm.c:75-80 | such a root translates an upper page like the kernel or not at all |
| `Paging.Machine.AllocFrame` | kernel/src/memory/paging.c:53-54 | a frame that was free, or 0 if and only if none is; nothing else is taken |
| `Paging.Machine.Link` | kernel/src/memory/paging.c:56-62 | the fresh frame becomes an empty table behind the slot and the tables stay a typed tree whose upper entries take no right away |
| `Paging.Machine.NextTable` | kernel/src/memory/paging.c:48-66 | one level of the walk; creating a table changes no translation, and failure leaves memory as it was |
| `Paging.Machine.GetDirectory` | kernel/src/memory/paging.c:45-88 | the first two levels, with the same guarantees |
| `Paging.Machine.GetPte` | kernel/src/memory/paging.c:31-115 | the slot of the address; also when memory runs out half way no translation of any root changes; for a 4KB page inside a large page it is a slot of the memory behind the large page |
| `Paging.Machine.LeafWord` | kernel/src/memory/paging.c:129-152 | the stored word for both page sizes is present, leads to the page that holds the address, and has exactly the bits of the flags |
| `Paging.Machine.MapPage` | kernel/src/memory/paging.c:127-156 | afterwards the page, or large page, leads to the physical page that holds the address with exactly the bits of the flags, and every other page of every root translates as before; it halts only for address 0 or without memory, with no translation changed; inside a large page the entry is stored behind that page |
| `Paging.SmallInsideLarge` | kernel/src/memory/paging.c:91-152 | that store changes no translation if the frame holds no table; otherwise only pages of the slot it hits can change, and pages of a 4KB table are mapped by the new entry |
| `Paging.Machine.UnmapPage` | kernel/src/memory/paging.c:167-189 | the page, of either size, is unmapped and nothing else; with freePhysical the frame behind it loses a reference; for an unmapped page nothing is written and nothing freed |
| `Paging.Machine.Drop` | kernel/src/memory/pmm.c:401-421 | dropping a reference frees no table and keeps the machine's invariant |
| `Paging.Machine.MapRegion` | kernel/src/memory/paging.c:230-241 | in 64-bit arithmetic: slot k of the virtual range goes to block k of the physical range with exactly the bits of the flags, and nothing else changes; on a halt, which means address 0 was reached or no frame is left, a prefix is mapped |
| `Paging.Machine.UnmapRegion` | kernel/src/memory/paging.c:252-263 | for both page sizes, in 64-bit arithmetic: the pages the loop visits are unmapped and nothing else; exactly the blocks behind mapped pages are freed; over unmapped pages memory and allocator stay as they were |
| `Regions.RegionCovered` | kernel/src/memory/paging.c:230-263 | for both page sizes the loops end without a halt after visiting exactly the pages of the byte range if and only if the range is empty, or it does not start at 0, no round wraps around 2^64 and the offset in the first page fits |
| `Regions.WrappedRegion` | kernel/src/memory/paging.c:233-255 | when the end of the range wraps around the loop makes no round |
| `Regions.ZeroRegion` | kernel/src/memory/paging.c:137-169 | a range that starts at address 0 halts in its first round |
| `Regions.RegionRunsAway` | kernel/src/memory/paging.c:230-263 | when a round wraps around the loop has no last round; an aligned one arrives at address 0, an unaligned one never does |
| `Regions.RegionMisses` | kernel/src/memory/paging.c:230-263 | concrete ranges of both page sizes with a page that is not visited |
| `Paging.Machine.FirstRoot` | kernel/src/memory/paging.c:289-296 | one free frame becomes a zeroed root that maps nothing, or nothing changes and no frame was free |
| `Paging.Machine.CopyUpper` | kernel/src/memory/vmm.c:71-80 | zeroing and the copy loop give a root that shares the kernel half; no other translation changes |
| `Paging.Machine.NewRoot` | kernel/src/memory/vmm.c:57-80 | one frame is taken and becomes such a root, or nothing changes |
| `Paging.Machine.DropRoot` | kernel/src/memory/vmm.c:309-310 | the root's frame is freed and the other tables stay well formed |
| `Areas.SearchLowest` | kernel/src/memory/vmm.c:122-148 | the search gives the lowest fit, or an address at which the sum wraps around and an area is met; a refusal means no gap |
| `Areas.SearchRight` | kernel/src/memory/vmm.c:122-148 | over areas that end before the region does, the result is the lowest fit if and only if it is not the case that no hole takes the size and the sum at the last area wraps around; in that case it lies over an area |
| `Areas.GapIsRight` | kernel/src/memory/vmm.c:122-148 | with a gap in the region the search is never wrong |
| `Areas.EndsAtZero` | kernel/src/memory/vmm.c:137-148 | a concrete request places an area that ends at 2^64, after which the search answers address 0 although no gap is left |
| `Areas.FindGap` | kernel/src/memory/vmm.c:122-148 | for all lists and words the loop computes this search; a refusal stops at an area that ends at or behind the region |
| `Areas.FitsIffGap` | kernel/src/memory/vmm.c:130-148 | the lowest fit ends inside the region if and only if the region has a gap of the size |
| `Areas.LeavesRegion` | kernel/src/memory/vmm.c:148-158 | a concrete placement behind the last area that leaves the region |
| `Areas.WrapOverlaps` | kernel/src/memory/vmm.c:129-133 | a concrete size for which the sum wraps around and the result overlaps an area |
| `Areas.NeverRefuses` | kernel/src/memory/vmm.c:139-144 | over areas that end before the region does the search always succeeds |
| `Areas.InsertSorted` | kernel/src/memory/vmm.c:158-171 | insertion at the found place keeps the list aligned, sorted and disjoint |
| `Areas.RemoveSorted` | kernel/src/memory/vmm.c:257-265 | removal keeps it too |
| `Areas.InsertRemove` | kernel/src/memory/vmm.c:158-265 | removing an inserted area restores the list |
| `Areas.Find` | kernel/src/memory/vmm.c:217-234 | the first area that passes the 64-bit test, if any; when no area wraps around, found if and only if an area has the address, and that is the only one |
| `Spaces.SearchSucceeds` | kernel/src/memory/vmm.c:122-148 | while all areas lie in their region vmm_alloc never reports exhaustion |
| `Spaces.PlacedOk` | kernel/src/memory/vmm.c:148-171 | the area that vmm_alloc places keeps every promise about spaces and frames, and is the lowest fit, if and only if the region had a gap; otherwise it ends outside the region |
| `Spaces.RightsHold` | kernel/src/memory/vmm.c:322-416 | in every state every mapped page of an area has an entry with exactly the rights and caching that the area asks for |
| `Spaces.UpdateIsLocal` | kernel/src/memory/vmm.c:412-416 | a page mapped in one space is not seen in the region of any other |
| `Spaces.AllSeeStays` | kernel/src/memory/vmm.c:71-80 | no mapping the manager makes lets a space see more of the kernel half than the kernel does |
| `Spaces.NobodySees` | kernel/src/memory/vmm.c:266-272 | a kernel page that is unmapped in the kernel is unmapped in every space |
| `Spaces.FaultOwned` | kernel/src/memory/vmm.c:398-416 | the frame a fault puts behind a page backs no other anonymous page of any space |
| `Spaces.FreeOwned` | kernel/src/memory/vmm.c:242-285 | after an area is freed the remaining anonymous pages still have frames of their own |
| `Spaces.AreaOwnsLeaves` | kernel/src/memory/vmm.c:266-272 | the frames behind an anonymous area belong to it alone and are referenced once |
| `Spaces.DismantledNext` | kernel/src/memory/vmm.c:302-307 | one round of the destruction loop frees exactly the frames of one more area and is not seen by other roots |
| `Flags.X86FlagsAreFlags` | kernel/src/memory/vmm.c:322-336 | converted flags never reach into the address field of an entry |
| `Flags.X86FlagsMean` | kernel/src/memory/vmm.c:322-336 | each entry bit is set exactly for its flag: RW for WRITE, NX without EXEC, the cache bits, US for USER and GLOBAL otherwise; PS is never set |
| `Flags.ConvertedGrants` | kernel/src/memory/vmm.c:322-336 | an entry made with converted flags is writable for WRITE, not executable without EXEC, for user code with USER, global otherwise, and cached as asked |
| `Flags.AreaFlagsBits` | kernel/src/memory/vmm.c:114 | of the eight area flags a kernel area loses USER only, and other areas lose none |
| `Vmm.Manager.constructor` | kernel/src/memory/vmm.c:33-43 | over a heap in order and tables whose kernel region is unmapped the invariant holds with one empty kernel space |
| `Vmm.Init` | kernel/src/memory/vmm.c:23-43 | the manager on a heap, its first descriptor allocated; it fails only without memory |
| `Vmm.Manager.NewBlock` | kernel/src/memory/vmm.c:54-151 | kmalloc of a descriptor keeps the manager's invariant and gives a block that describes nothing yet; without need to grow, the machine is unchanged |
| `Vmm.Manager.FreeBlock` | kernel/src/memory/vmm.c:274-313 | kfree of a descriptor takes exactly this block and keeps the heap in order |
| `Vmm.Manager.Alloc` | kernel/src/memory/vmm.c:96-207 | NULL for size zero after rounding or a failed search, and otherwise only when no frame is left for the heap; the place is the one the search found, with a gap the lowest fit; the invariant holds afterwards if and only if the region had a gap; exactly one heap block more is out, the descriptor of the area; besides what the heap takes, lazy areas use no memory and I/O areas are mapped page by page with the rights of the area |
| `Vmm.Manager.Place` | kernel/src/memory/vmm.c:158-206 | list and tables after the search: every promise is kept if and only if the region had a gap; an I/O area is mapped with its rights |
| `Vmm.Manager.MapIo` | kernel/src/memory/vmm.c:174-190 | page k of the area leads to page k of the physical range, writable if and only if the area has WRITE, executable if and only if it has EXEC, for user code if and only if it has USER; all spaces keep their promises |
| `Vmm.Manager.FreeArea` | kernel/src/memory/vmm.c:242-285 | exactly the area with the address is removed, its pages unmapped, exactly the frames behind them freed, none for I/O areas, and exactly its descriptor given back; no space sees a page of a freed kernel area; frames of others stay |
| `Vmm.Manager.DropArea` | kernel/src/memory/vmm.c:242-272 | the same without the descriptor |
| `Effects.UntouchedArea` | kernel/src/memory/vmm.c:242-285 | freeing an area of which no page is mapped, in any space, leaves memory, allocator and descriptors as they were |
| `Effects.AllocFreeRestores` | kernel/src/memory/vmm.c:96-285 | freeing by any address of the area just placed restores the list, memory, allocator and descriptors |
| `Vmm.Manager.NewSpace` | kernel/src/memory/vmm.c:51-83 | besides what the heap takes, exactly one frame is taken; the new space sees the kernel half and maps nothing below; no other translation changes; exactly one heap block more is out, the descriptor; without a frame it is given back |
| `Vmm.Manager.AddRoot` | kernel/src/memory/vmm.c:57-80 | the page-table half: one frame becomes the root, or nothing changes |
| `Vmm.Manager.Destroy` | kernel/src/memory/vmm.c:295-314 | exactly the frames behind anonymous pages and the root are freed, the live heap blocks are those of before without the descriptors of the space and its areas, no other space sees a change, and the kernel space is left alone |
| `Vmm.Manager.FreeAreas` | kernel/src/memory/vmm.c:299-307 | the loop frees every area of the space, exactly the frames behind them and exactly their descriptors |
| `Vmm.Manager.DropSpace` | kernel/src/memory/vmm.c:309-313 | the root's frame and the space's descriptor are what is given back |
| `Vmm.Manager.GiveUp` | kernel/src/memory/vmm.c:309-310 | the root's frame is the only one freed |
| `Vmm.Manager.PageFault` | kernel/src/memory/vmm.c:347-420 | it halts outside every area or on a present page, and otherwise only without memory; when it returns, the page has a fresh zeroed frame writable, executable and for user code if and only if its area has WRITE, EXEC and USER, that was free, was no table and backed no page; besides it only new tables took frames; every other page of every space, and for a user page every page of every other space, translates as before |
| `Vmm.EffectiveRights` | kernel/src/memory/vmm.c:322-416 | in every state of the manager the processor allows on a mapped page of an area, through all table levels, writing if and only if the area has WRITE, user access if and only if USER, execution if and only if EXEC |
| `Vmm.Manager.MapFresh` | kernel/src/memory/vmm.c:398-416 | the demand-paging step; it halts only for address 0 or without memory |
| `Effects.KernelFaultSeen` | kernel/src/memory/vmm.c:364-416 | the space that faulted on a kernel address sees the page afterwards if and only if its own root slot was there before, and then with the new frame |
| `Effects.RefaultLosesFrame` | kernel/src/memory/vmm.c:398-416 | a fault leaves a frame that backed an anonymous page behind none if and only if the page was already mapped in the target, and that frame stays in use |
| `Effects.DeviceReplaced` | kernel/src/memory/vmm.c:398-415 | a space faults on a mapped I/O page if and only if its own root slot is absent; then RAM replaces the device, and freeing the area leaves that frame in use behind no page |
| `Effects.FreedTables` | kernel/src/memory/vmm.c:242-285 | freeing an area keeps every promise about all spaces, and no space sees a page of a freed kernel area |
| `HeapSide.GrewSpaces` | kernel/src/memory/kheap.c:52-109 | an extension of the heap keeps every promise about all spaces and leaves frames of others alone |
| `HeapSide.HeapLonger` | kernel/src/memory/kheap.c:52-109 | the frames behind the longer heap back no page of a space |
| `HeapSide.HeapKept` | kernel/src/memory/vmm.c:96-314 | an operation that leaves the pages behind the kernel region and frames of others alone keeps the heap mapped, with frames of its own |
| `Descriptors.BlocksApart` | kernel/src/memory/vmm.c:151-171 | the heap blocks of different areas and spaces are different |
| `Descriptors.AreaPlaced` | kernel/src/memory/vmm.c:151-171 | a fresh block describes the new area at its place in the list |
| `Descriptors.AreaRemoved` | kernel/src/memory/vmm.c:257-274 | freeing the block of a removed area leaves every other descriptor live |
| `Lifetimes.Life` | kernel/src/memory/vmm.c:51-314 | a space is created, areas are reserved, touched and released in any order, and it is destroyed: exactly the frames free before are free again, without the tables created below its root and the frames the heap took; it panics only without memory, on flags without ANON, or on an address in no area |
| `Lifetimes.ReserveArea` | kernel/src/memory/vmm.c:96-207 | an area keeps the account of the frames taken, with those of the heap, or ends outside the region |
| `Lifetimes.TouchPage` | kernel/src/memory/vmm.c:347-420 | an access leaves the page mapped and keeps the account; it halts only without memory or outside every area |
| `Lifetimes.ReleaseArea` | kernel/src/memory/vmm.c:242-285 | releasing by any address keeps the account |
| `Lifetimes.LivedEnd` | kernel/src/memory/vmm.c:295-314 | after the destruction the free frames are those of the start without the tables that were created and the frames of the heap |
| `Lifetimes.LivedGrew` | kernel/src/memory/kheap.c:52-109 | the account goes on when the heap grows, and its frames stay apart from the spaces |
| `Lifetimes.ColdKernel` | kernel/src/main.c:88-98 | root table, heap and manager on a machine without tables: the root slot of the first kernel page stays empty |
| `Lifetimes.ColdStart` | kernel/src/memory/vmm.c:23-207 | from page tables without a root: a kernel with its heap, a second space, and a lazy kernel page whose root slot is empty in the space |
| `Lifetimes.FaultUnseen` | kernel/src/memory/vmm.c:347-420 | a fault of a space whose own slot is empty is handled in the kernel's tables, and the space sees nothing afterwards |
| `Lifetimes.FaultsTwice` | kernel/src/memory/vmm.c:347-420 | from there two faults on the page are handled, the space still sees no page, and the first frame stays in use behind no page |
| `TicketLock.RunQueue` | kernel/src/scheduling/lock.c:38-67 | in every run the outstanding tickets are the contiguous range from turn to ticket, modulo 2^64 |
| `TicketLock.MutualExclusion` | kernel/src/scheduling/lock.c:38-67 | at most one holder in every reachable state, for up to 2^64 contenders |
| `TicketLock.FirstComeFirstServed` | kernel/src/scheduling/lock.c:46-52 | the order of entry is the order of the tickets |
| `TicketLock.FrontCanMove` | kernel/src/scheduling/lock.c:49-65 | whenever someone waits, the front of the queue holds the lock or can enter |
| `TicketLock.ExclusionBreaks` | kernel/src/scheduling/lock.c:46-52 | a run with 2^64 + 1 contenders in which two hold the lock |
| `Mutex.KernelMutex.Acquire` | kernel/src/scheduling/lock.c:80-110 | on head, tail and next pointers the section takes the lock or appends the caller and blocks it |
| `Mutex.KernelMutex.Release` | kernel/src/scheduling/lock.c:125-147 | the section unlocks or hands over to the front of the queue and makes it ready |
| `Mutex.StepKeeps` | kernel/src/scheduling/lock.c:75-148 | every step, including preemption between unlocking and yielding, keeps the invariant and moves ownership as stated |
| `Mutex.RunExclusive` | kernel/src/scheduling/lock.c:75-148 | in every run: at most one owner, a non-empty queue means locked, and the queue is exactly the blocked threads without duplicates |
| `Mutex.WokenReturns` | kernel/src/scheduling/lock.c:106-148 | no wake-up is lost: a waiter that left the queue can be scheduled and returns within three steps |
| `Mutex.WaiterAdvances` | kernel/src/scheduling/lock.c:120-148 | a waiter with k ahead of it owns the mutex at exactly the (k+1)-th release |
| `RoundRobin.NextKeeps` | kernel/src/scheduling/scheduler.c:79-199 | every event keeps that only the current thread runs and slices have 1 to 4 ticks |
| `RoundRobin.ScheduleIffReady` | kernel/src/scheduling/scheduler.c:86-149 | a thread can be picked if and only if one is ready once the current one is demoted |
| `RoundRobin.ScheduleUnique` | kernel/src/scheduling/scheduler.c:97-155 | the pick is determined by the state |
| `RoundRobin.ScheduleMeans` | kernel/src/scheduling/scheduler.c:79-160 | the picked thread is ready and no thread between it and the current one in the ring is; the current thread stops if it ran, the picked one runs, and nothing else changes |
| `RoundRobin.ScheduleCloser` | kernel/src/scheduling/scheduler.c:97-155 | a schedule that passes over a ready thread brings the current one strictly closer to it |
| `RoundRobin.BudgetShrinks` | kernel/src/devices/timer.c:132-151 | each tick or yield uses up waiting budget and no event adds any |
| `RoundRobin.BoundedWaiting` | kernel/src/devices/timer.c:132-151 | a thread that stays ready without running sees fewer than 4 * (N - 1) ticks and yields |
| `RoundRobin.TickMeans` | kernel/src/devices/timer.c:132-151 | a tick makes exactly the due sleepers ready, takes one tick from the current slice or renews it, and leaves everything else to a schedule |
| `RoundRobin.SleepsExactly` | kernel/src/scheduling/scheduler.c:165-199 | a thread that sleeps until w and only yields sleeps through a run if and only if all ticks of the run come before w |
| `RoundRobin.WokenOnTime` | kernel/src/scheduling/scheduler.c:165-199 | the first tick at or after w finds the thread asleep and leaves it ready, or already picked to run |
| `RoundRobin.SleeperNeverRuns` | kernel/src/scheduling/task.c:266-277 | a sleeper that has yielded is current in no state of a run whose ticks come before its time |
| `Scheduler.Rings.constructor` | kernel/src/scheduling/scheduler.c:27-71 | the idle task with its running idle thread satisfies the invariant |
| `Scheduler.Rings.Search` | kernel/src/scheduling/scheduler.c:95-149 | the two-level search follows the rounds of the loop and ends at the first ready thread in ring order, skipping empty tasks; the idle fallback is not reached |
| `Scheduler.SearchRunsOn` | kernel/src/scheduling/scheduler.c:107-149 | without a ready thread no round of the loop breaks |
| `Scheduler.Rings.Reschedule` | kernel/src/scheduling/scheduler.c:79-160 | the rings take exactly the flat round-robin step: the first ready thread behind the current one in ring order runs, the current one is ready if it ran, no other thread changes |
| `Scheduler.Rings.WakeSleeping` | kernel/src/scheduling/scheduler.c:165-199 | a sleeping thread becomes ready with its wake time cleared if and only if that time has come; every other thread and every slice is unchanged |
| `Scheduler.Rings.TimerHandler` | kernel/src/devices/timer.c:132-151 | a sleeping thread wakes if and only if its time has come; the current slice loses one tick; when it is used up it is renewed and the next ready thread in ring order runs |
| `Scheduler.Rings.StopCurrent` | kernel/src/scheduling/task.c:167-277 | exit and sleep change state and wake time of the current thread only |
| `Scheduler.Rings.AddTask` | kernel/src/scheduling/task.c:31-72 | a new task is appended empty and the scheduler's order is unchanged |
| `Scheduler.Rings.AddThread` | kernel/src/scheduling/task.c:140-155 | a new ready thread is appended to its task and the invariant is kept |
| `Scheduler.Rings.ScanTask` | kernel/src/scheduling/task.c:212-238 | the scan finds the first eligible zombie of a task: any but the head, or a sole thread |
| `Scheduler.Rings.ReapPass` | kernel/src/scheduling/task.c:194-259 | a pass removes at most one thread, a zombie, and keeps the order of the others; without a removal no task has an eligible zombie |
| `Reaper.CutKeepsFinal` | kernel/src/scheduling/task.c:216-230 | each removal uses up one doomed thread and does not change what the task ends as |
| `Reaper.RepeatedPasses` | kernel/src/scheduling/task.c:194-259 | repeated passes remove exactly the doomed threads, one each, and end with every task in its final form |
| `Reaper.RemovalsCount` | kernel/src/scheduling/task.c:194-259 | a task shrinks by exactly the number of passes that changed it |
| `Reaper.ZombieTaskEmpties` | kernel/src/scheduling/task.c:212-238 | in any task list, passes until nothing is left to reap remove from each task exactly as many threads as are doomed in it; a task of n zombies is empty after exactly n removals from it |
| `Reaper.SurvivorsAreHeads` | kernel/src/scheduling/task.c:194-259 | after passes until nothing is left to reap a zombie is still there if and only if it headed a task that had a live thread |
| `Reaper.HeadStays` | kernel/src/scheduling/task.c:212-238 | a concrete task list with a zombie that no pass removes |

## Left out

- Pmm.Buddies.FreePages: requires that the run was handed out at this order, because freeing twice or with another length is caller misuse.
- Pmm.Buddies.DecRef: requires more than one reference where the descriptor of a frame inside a block says in use, because freeing from there is caller misuse; it is one atomic step although the source drops its lock before freeing.
- Boot.Init: the memory map is a value with the sorting and overlap promises of the Limine boot protocol; ends of entries do not wrap around 2^64.
- Kheap.Heap.Extend: requires at most 1MB, which is all the kernel asks for.
- Kheap.Heap.constructor: requires that no large page lies behind the kernel.
- Kheap.Heap.Kmalloc: requires that the heap can grow by the smaller of the request and all free memory, and 1MB more, below 2^64; Kheap.Heap.Extend has what happens otherwise. Headers are a map beside physical memory.
- Kheap.Heap.Kfree: requires NULL or the start of a node, because other pointers are caller misuse.
- Paging.Machine.UnmapPage: requires that the slot of the page at the given size holds a page of that size or nothing, and that a frame to be freed heads its block and holds no table.
- Paging.Machine.UnmapRegion: the loop has to end (Regions.RegionRunsAway has the ranges where it does not) and to stay within the page numbers of 48-bit addresses; each slot holds a page of the given size or nothing.
- Paging.Machine.MapRegion: the loop has to end and to stay within the page numbers of 48-bit addresses; 4KB pages must not lie in large pages (Paging.SmallInsideLarge).
- Vmm.Manager.Alloc: for I/O areas requires a gap and a physical range inside 52 bits, and room for kmalloc.
- Vmm.Manager.NewSpace: requires room for kmalloc.
- Vmm.Manager.Destroy: the tables below the root stay allocated, as in the source, which frees none of them (Lifetimes.Life).
- Vmm.Manager.constructor: requires a root whose kernel region is unmapped, as Paging.Machine.FirstRoot makes one, and a heap behind that region, where the kernel is linked.
- Lifetimes.Life: areas are not I/O memory and accesses are to the lower half; I/O areas and kernel faults are in Vmm only.
- Vmm.Manager.PageFault: fault address, error bits and the current space are inputs; the logging that tells protection faults apart is not modelled.
- Scheduler.Rings.Reschedule: requires a ready thread once the current one is demoted, because the search loop does not end otherwise (Scheduler.SearchRunsOn); the early return before the first task exists and the saved contexts are not modelled.
- Scheduler.Rings.ReapPass: the freeing of the thread's stack and descriptor is not modelled.
- Mutex.StepKeeps: one processor, one mutex, no sleeping threads; the sections under the internal lock are atomic because they run with interrupts off.
- Area lists and the task and thread rings are sequences, so aliasing of their nodes is not captured; the free-list rings, heap headers and the waiter queue are modelled with their pointers.
- used_pages and all diagnostics: the counter does not track free memory.
- paging_change_page_flags: one entry rewrite. Of paging_init only the first root is modelled, not the boot-time layout.
- Whole-kernel deadlock freedom and multiprocessor use of the heap: vmm_alloc takes the heap mutex under a spinlock.
- Inline assembly, TLB invalidation, timers other than the tick handler, ACPI, console, GDT and IDT: hardware plumbing.
