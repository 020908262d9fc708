/** Address spaces: lazily backed areas, the page-fault handler, and giving memory back. */
module Vmm {
  import opened Bits
  import opened Seqs
  import opened Tiling
  import opened Pmm
  import opened Entry
  import opened Regions
  import opened PageTable
  import opened Paging
  import opened Areas
  import opened Flags
  import opened Spaces
  import opened Effects
  import BuddyStore
  import opened HeapPages
  import opened HeapSide
  import opened Descriptors
  import opened Kheap
  import HeapCells

  class Manager {
    const heap: Heap                     // the kernel heap, on the kernel's tables
    const m: Machine := heap.m
    const kernel: nat := heap.root       // root frame of the kernel space
    var spaces: map<nat, seq<Area>>      // root frame of each space to its region_list
    var vas: map<nat, nat>               // the heap block of each space
    var nodes: map<nat, seq<nat>>        // the heap blocks of its areas
    ghost var own: map<nat, Use>         // the page behind which a frame was put by a fault
    ghost var held: map<nat, Holder>     // what each block describes

    ghost predicate Valid()
      reads this, heap, m, m.pmm, m.pmm.pages, m.pmm.links, m.pmm.nrFree
    {
      Tables() && HeapPart() && Described(heap.cells, spaces, vas, nodes, held)
    }

    /** The heap is in order, and its frames have nothing to do with the spaces. */
    ghost predicate HeapPart()
      reads `own, heap, m, m.pmm, m.pmm.pages
    {
      HeapShape() && HeapSafe(m.Now(), own, kernel, PageOf(heap.start), (heap.end - heap.start) / PAGE)
    }

    /** Page tables and frames keep what the areas promise. */
    ghost predicate Tables()
      reads this, m, m.pmm, m.pmm.pages, m.pmm.links, m.pmm.nrFree
    {
      && m.Valid()
      && AllSpaces(m.mem, m.tabs, kernel, spaces) && AllSee(m.mem, kernel, spaces)
      && Owned(m.mem, spaces, own)
      && Held(m.pmm.t, m.tabs, m.pmm.pages[..], own)
    }

    /** The part of the heap's invariant that does not depend on page tables */
    ghost predicate HeapShape()
      reads heap
    {
      && heap.Tiled() && HeapCells.NoTwoFree(heap.cells)
      && UPPER <= heap.start <= heap.end < U64 && heap.start % PAGE == 0 && heap.end % PAGE == 0
    }

    lemma HeapValid()
      requires m.Valid() && IsRoot(m.tabs, kernel) && HeapPart()
      ensures heap.Valid()
    {
    }

    /** What a change of memory and tables has to leave alone for the heap's sake */
    twostate lemma HeapStays()
      requires old(HeapPart()) && unchanged(heap)
      requires SameAbove(old(m.mem), m.mem, kernel) && AsideKept(old(m.Now()), m.Now(), old(own), own)
      ensures HeapPart()
    {
      hide SameAbove, AsideKept;
      HeapKept(old(m.Now()), m.Now(), old(own), own, kernel, PageOf(heap.start), (heap.end - heap.start) / PAGE);
    }

    /** kfree of a descriptor */
    method FreeBlock(ptr: nat)
      requires m.Valid() && IsRoot(m.tabs, kernel) && HeapPart() && HeapCells.Live(heap.cells, ptr)
      modifies heap`hdr, heap`cells
      ensures HeapPart()
      ensures forall p: nat :: HeapCells.Live(heap.cells, p) <==> HeapCells.Live(old(heap.cells), p) && p != ptr
    {
      hide Machine.Valid, HeapCells.Live, HeapCells.Tiles, HeapCells.NoTwoFree, Chained, PageOf, HeapCells.Merge,
           HeapBacked, HeapHeld, HeapSafe;
      HeapValid();
      ghost var j := LiveCell(heap.cells, ptr);
      heap.Kfree(ptr, j);
    }

    /** vmm_init, once the block for the kernel space is allocated */
    constructor (h: Heap, node: nat)
      requires h.Valid() && HEAP_PAGE <= PageOf(h.start) && HeapCells.Live(h.cells, node)
      requires forall v: nat | InRegion(true, v) :: Translate(h.m.mem, h.root, v) == Fault
      ensures Valid() && heap == h && spaces == map[h.root := []] && vas == map[h.root := node] && own == map[]
    {
      hide Machine.Valid, Translate, InRegion, HeapBacked, HeapHeld, HeapCells.Live, Described, PageOf;
      h.m.Sane();
      assert TableOk(h.m.mem, h.m.tabs, h.root);
      FirstSpace(h.cells, h.root, node);
      UpperPages(h.start, (h.end - h.start) / PAGE);
      heap, spaces, own := h, map[h.root := []], map[];
      vas, nodes, held := map[h.root := node], map[h.root := []], map[node := SpaceOf(h.root)];
    }

    /** kmalloc of a descriptor: the heap may grow, and nothing else changes. */
    method NewBlock() returns (ptr: nat, halted: bool, ghost taken: set<nat>)
      requires Valid() && heap.Room(DESCRIPTOR)
      modifies heap`end, heap`head, heap`hdr, heap`cells
      modifies m`mem, m`tabs, m.pmm.pages, m.pmm.links, m.pmm.nrFree, m.pmm`lists, m.pmm`t
      ensures Valid() && (halted ==> ptr == 0) && (ptr == 0 ==> NoFree(m.pmm.t))
      ensures HeapGrew(old(m.Now()), m.Now(), kernel, PageOf(old(heap.end)), taken)
      ensures HEAP_PAGE <= PageOf(old(heap.end)) && AsideKept(old(m.Now()), m.Now(), own, own)
      ensures ptr != 0 ==> HeapCells.Live(heap.cells, ptr) && !HeapCells.Live(old(heap.cells), ptr) && ptr !in held
      ensures old(heap.end) <= heap.end <= old(heap.end) + HeapCells.EXTENSION
      ensures forall p: nat ::
                HeapCells.Live(heap.cells, p) <==> HeapCells.Live(old(heap.cells), p) || (p == ptr && p != 0)
      ensures (exists j: nat :: j < |old(heap.cells)| && HeapCells.Fits(old(heap.cells)[j], DESCRIPTOR)) ==>
                ptr != 0 && m.Now() == old(m.Now()) && taken == {}
    {
      hide Machine.Valid, Buddies.ValidBut, Translate, AllSpaces, AllSee, Owned, Held, HeapSafe, Described, NoFree,
           HeapGrew, HeapCells.Live, HeapCells.Tiles, HeapCells.NoTwoFree, Chained, PageOf, GrowBy, HeapBacked,
           HeapHeld, HeapCells.Carve, AsideKept, FreeCount, Heap.Room;
      ghost var s0, c0, e0, lo := m.Now(), heap.cells, heap.end, PageOf(heap.start);
      RootsOf(m.mem, m.tabs, kernel, spaces);
      HeapValid();
      m.Sane();
      ghost var k;
      ptr, halted, k, taken := heap.Kmalloc(DESCRIPTOR);
      ExtensionPages(e0, k);
      StartPages(heap.start, e0);
      LongerHeap(s0, m.Now(), own, kernel, heap.start, e0, k, taken);
      GrewSpaces(s0, m.Now(), kernel, PageOf(e0), taken, spaces, own);
      DescribedMore(c0, heap.cells, spaces, vas, nodes, held);
    }

    /** vmm_page_fault_handler. cr2 and the error bits come from the processor; `current` is the current space. */
    method PageFault(cr2: nat, present: bool, current: nat) returns (halted: bool, ghost frame: nat, ghost i: nat)
      requires Valid() && current in spaces
      modifies m`mem, m`tabs, m.pmm.pages, m.pmm.links, m.pmm.nrFree, m.pmm`lists, m.pmm`t, `own
      ensures var target := if cr2 >= KERNEL_START then kernel else current;
              && (present || NoArea(spaces, target, cr2) ==> halted)
              && (halted ==> present || NoArea(spaces, target, cr2) || NoFree(m.pmm.t))
              && (!halted ==> AreaHas(spaces, target, i, cr2))
              && (!halted ==> Faulted(old(m.Now()), m.Now(), frame, target, PageOf(cr2), spaces[target][i].flags))
              && (!halted ==> own == old(own)[frame := Use(target, PageOf(cr2))] && frame !in old(own))
      ensures !halted ==> Valid() && AsideKept(old(m.Now()), m.Now(), old(own), own)
    {
      hide Machine.Valid, Buddies.ValidBut, Sound, Maximal, Typed, Owned, Held, SpaceOk, Translate, AllSee, Faulted,
           Sorted, HeapPart, AsideKept, SameAbove, Described;
      var target := if cr2 >= KERNEL_START then kernel else current;
      var areas := spaces[target];
      halted, frame, i := true, 0, 0;
      SpacesAreas(m.mem, m.tabs, kernel, spaces, target);
      var found, k := Find(areas, cr2, RegionStart(target == kernel));
      assert found ==> AreaHas(spaces, target, k, cr2);
      if !found { return; }
      if present { return; }
      i := k;
      FaultAddress(areas, target == kernel, k, cr2);
      ghost var s0, own0 := m.Now(), own;
      halted, frame := MapFresh(target, cr2, areas[k].flags, k);
      if !halted {
        FaultAside(s0, m.Now(), frame, target, PageOf(cr2), areas[k].flags, own0, kernel);
        HeapStays();
      }
    }

    /** Demand paging: a fresh zeroed frame behind one page of an area */
    method MapFresh(target: nat, addr: nat, flags: nat, ghost k: nat) returns (halted: bool, ghost frame: nat)
      requires Tables() && target in spaces && InRegion(target == kernel, PageOf(addr))
      requires k < |spaces[target]| && Covers(spaces[target][k], PageOf(addr)) && flags == spaces[target][k].flags
      modifies m`mem, m`tabs, m.pmm.pages, m.pmm.links, m.pmm.nrFree, m.pmm`lists, m.pmm`t, `own
      ensures !halted ==> Tables() && own == old(own)[frame := Use(target, PageOf(addr))] && frame !in old(own)
      ensures !halted ==> Faulted(old(m.Now()), m.Now(), frame, target, PageOf(addr), flags)
      ensures halted ==> addr == 0 || NoFree(m.pmm.t)
    {
      hide Machine.Valid, Buddies.ValidBut, Sound, Maximal, Typed, Owned, Held, SpaceOk, Translate, Updated, Extends,
           InRegion, SameTranslations, EntryFor, X86Flags, Faulted, NoFree, RootsKept, RootsGrown, Index, AllSee,
           AllSpaces, Zeros, Covers;
      ghost var w, s0 := PageOf(addr), m.Now();
      m.Sane();
      RootsOf(m.mem, m.tabs, kernel, spaces);
      var phys := m.AllocFrame();
      if phys == 0 { return true, 0; }
      frame := phys / PAGE;
      m.Sane();
      HeldNotFree(s0.t, s0.tabs, s0.pages, own, frame);
      ghost var own1 := own[frame := Use(target, w)];
      HeldAdd(s0, m.Now(), own, frame, Use(target, w));
      KeptPlain(m.mem, m.tabs, target, Index(w, 4), frame, Zeros());
      m.ZeroFrame(phys / PAGE);
      MappedSlot(target == kernel, w);
      KeptGrown(s0.mem, m.mem, s0.tabs, target, Index(w, 4), target == kernel);
      AllSeeStays(s0.mem, m.mem, s0.tabs, target, target == kernel, kernel, spaces);
      SpacesNoHuge(s0.mem, m.mem, s0.tabs, kernel, spaces, target, w);
      assert m.Now().(mem := s0.mem).pages == m.pmm.pages[..];
      halted := MapZeroed(target, addr, phys, flags, k, s0, own1);
      if !halted { own := own1; }
    }

    /** The mapping half of the fault handler, once the frame is allocated and zeroed */
    method MapZeroed(target: nat, addr: nat, phys: nat, flags: nat, ghost k: nat, ghost s0: State,
                     ghost own1: map<nat, Use>)
      returns (halted: bool)
      requires m.Valid() && AllSpaces(s0.mem, m.tabs, kernel, spaces) && Owned(s0.mem, spaces, own)
      requires AllSee(m.mem, kernel, spaces)
      requires SameTranslations(s0.mem, m.mem, m.tabs) && Extends(s0, m.Now().(mem := s0.mem)) && m.tabs == s0.tabs
      requires target in spaces && InRegion(target == kernel, PageOf(addr))
      requires k < |spaces[target]| && Covers(spaces[target][k], PageOf(addr)) && flags == spaces[target][k].flags
      requires RootsKept(s0.mem, m.mem, m.tabs, target, Index(PageOf(addr), 4))
      requires NoHuge(m.mem, target, PageOf(addr)) && phys % PAGE == 0 && phys < PHYS_LIMIT
      requires var f := phys / PAGE;
               && f !in own && f !in m.tabs && f in m.mem && m.mem[f] == Zeros() && InUse(m.pmm.t, f)
               && own1 == own[f := Use(target, PageOf(addr))] && Held(m.pmm.t, m.tabs, m.pmm.pages[..], own1)
               && f < |s0.t| && s0.t[f].status == Free
               && (forall p: nat | p < |s0.t| && p != f && p < |m.pmm.t| ::
                     m.pmm.t[p].status == Free <==> s0.t[p].status == Free)
      modifies m`mem, m`tabs, m.pmm.pages, m.pmm.links, m.pmm.nrFree, m.pmm`lists, m.pmm`t
      ensures halted ==> addr == 0 || NoFree(m.pmm.t)
      ensures !halted ==> m.Valid() && AllSpaces(m.mem, m.tabs, kernel, spaces) && Owned(m.mem, spaces, own1)
      ensures !halted ==> Held(m.pmm.t, m.tabs, m.pmm.pages[..], own1) && AllSee(m.mem, kernel, spaces)
      ensures !halted ==> Faulted(s0, m.Now(), phys / PAGE, target, PageOf(addr), flags)
    {
      hide Machine.Valid, Buddies.ValidBut, Sound, Maximal, Typed, Owned, Held, SpaceOk, Translate, Updated, Extends,
           OnlyTables, InRegion, SameTranslations, NoHuge, NoFree, X86Flags, RootsKept, RootsGrown, Index, AllSee,
           AllSpaces, MappedOnly, Faulted, Zeros, Covers, Grants, Maps, RegionMaps;
      ghost var w, f, s1 := PageOf(addr), phys / PAGE, m.Now();
      m.Sane();
      RootsOf(s0.mem, m.tabs, kernel, spaces);
      X86FlagsAreFlags(flags);
      ExtendsFacts(s0, s1.(mem := s0.mem));
      halted := m.MapPage(target, addr, phys, X86Flags(flags), false);
      if halted { return; }
      ghost var e := EntryFor(phys, X86Flags(flags), false);
      EntryFields(phys, X86Flags(flags), false);
      ConvertedGrants(e, phys, flags);
      assert RightfulIn(spaces[target][k], w, e);
      ComposeUpdate(s0.mem, s1.mem, m.mem, s1.tabs, s1.tabs, target, w, 1, e);
      MappedSlot(target == kernel, w);
      KeptGrown(s1.mem, m.mem, s1.tabs, target, Index(w, 4), target == kernel);
      AllSeeStays(s1.mem, m.mem, s1.tabs, target, target == kernel, kernel, spaces);
      KeptTrans(s0.mem, s1.mem, m.mem, s1.tabs, s1.tabs, target, Index(w, 4));
      ExtendsFacts(s1, m.Now());
      FaultSpaces(s0.mem, m.mem, s1.tabs, m.tabs, kernel, spaces, target, w, e);
      FaultOwned(s0.mem, m.mem, s1.tabs, kernel, spaces, own, target, w, e);
      HeldExtends(s1, m.Now(), own1);
      FaultEffect(s0.mem, m.mem, s1.tabs, target, w, e);
      FaultedFrom(s0, s1, m.Now(), f, target, w, flags);
    }

    /**
     vmm_alloc. Its descriptor comes from kmalloc, which may extend the heap: s1 is the state after that, and `taken`
     are the frames the heap took. Everything the manager promises holds afterwards exactly when the region had a gap.
     */
    method Alloc(space: nat, size: nat, flags: nat, arg: nat)
      returns (r: Outcome, ghost i: nat, ghost s1: State, ghost taken: set<nat>, ghost node: nat)
      requires Valid() && space in spaces && size < U64 && heap.Room(DESCRIPTOR)
      requires Has(flags, MMIO) ==>
                 && arg + PageUp(size) <= PHYS_LIMIT
                 && HasGap(spaces[space], RegionStart(space == kernel), RegionEnd(space == kernel), PageUp(size))
      modifies heap`end, heap`head, heap`hdr, heap`cells, `spaces, `nodes, `held
      modifies m`mem, m`tabs, m.pmm.pages, m.pmm.links, m.pmm.nrFree, m.pmm`lists, m.pmm`t
      ensures HeapGrew(old(m.Now()), s1, kernel, PageOf(old(heap.end)), taken)
      ensures HEAP_PAGE <= PageOf(old(heap.end)) && AsideKept(old(m.Now()), m.Now(), own, own)
      ensures !Wanted(old(spaces), space, space == kernel, PageUp(size)) ==> r == Null && m.Now() == old(m.Now())
      ensures r == Null ==> Valid() && spaces == old(spaces) && m.Now() == s1
      ensures r == Null && Wanted(old(spaces), space, space == kernel, PageUp(size)) ==> NoFree(m.pmm.t)
      ensures r.At? ==> Placed(old(spaces), spaces, space, space == kernel, PageUp(size), flags, r.addr, i)
      ensures r.At? ==>
                (Valid() <==>
                  HasGap(old(spaces)[space], RegionStart(space == kernel), RegionEnd(space == kernel), PageUp(size)))
      ensures r.At? && !Has(flags, MMIO) ==> Has(flags, ANON) && m.Now() == s1
      ensures r.At? && Has(flags, MMIO) ==> Builds(s1, m.Now())
      ensures r.At? && Has(flags, MMIO) ==>
                RegionMapped(s1.mem, m.mem, s1.tabs, space, PageOf(r.addr), 1, PageUp(size) / PAGE,
                             Map(arg, X86Flags(AreaFlags(flags, space == kernel)), false))
      ensures r.At? && Has(flags, MMIO) ==>
                IoMapped(m.mem, space, Area(r.addr, PageUp(size), AreaFlags(flags, space == kernel)), arg)
      ensures r == Halt ==> NoFree(m.pmm.t) || !(Has(flags, MMIO) || Has(flags, ANON))
      ensures r == Null ==> LiveWithout(old(heap.cells), heap.cells, []) && nodes == old(nodes)
      ensures r.At? ==> space in old(nodes) && i <= |old(nodes)[space]|
      ensures r.At? ==> nodes == old(nodes)[space := Insert(old(nodes)[space], i, node)]
      ensures r.At? ==> LiveWith(old(heap.cells), heap.cells, node)
      ensures old(heap.end) <= heap.end <= old(heap.end) + HeapCells.EXTENSION
      ensures (exists j: nat :: j < |old(heap.cells)| && HeapCells.Fits(old(heap.cells)[j], DESCRIPTOR)) ==>
                s1 == old(m.Now()) && taken == {}
    {
      hide Machine.Valid, Buddies.ValidBut, Sound, Maximal, Typed, Owned, Held, SpaceOk, Translate, AllSpaces,
           X86Flags, AllSee, RegionMapped, NoFree, And, Sorted, HasGap, Search, Fits, Extends, OnlyTables, HeapPart,
           IoMapped, Described, HeapGrew, AsideKept, HeapCells.Live, Heap.Room, PageOf, SameAbove;
      var n, kern, areas := PageUp(size), space == kernel, spaces[space];
      ghost var s0 := m.Now();
      i, s1, taken, node := 0, s0, {}, 0;
      NothingGrown();
      if n == 0 { return Null, 0, s1, taken, node; }
      var fl := AreaFlags(flags, kern);
      var found, k, candidate := FindGap(areas, RegionStart(kern), RegionEnd(kern), n);
      if !found { return Null, 0, s1, taken, node; }
      var block, halted;
      block, halted, taken := NewBlock();
      s1, i, node := m.Now(), k, block;
      if halted { return Halt, i, s1, taken, node; }
      if block == 0 { return Null, i, s1, taken, node; }
      AreaPlaced(heap.cells, spaces, vas, nodes, held, space, k, Area(candidate, n, fl), block);
      label Blocked:
      r := Place(space, k, candidate, n, flags, arg);
      nodes, held := nodes[space := Insert(nodes[space], k, block)], held[block := AreaOf(space, candidate)];
      PlacedAside(s0, s1, m.Now(), own, kernel);
      if r.At? { HeapStays@Blocked(); }
    }

    /**
     vmm_alloc behind the search and the descriptor: the area goes into the list, and I/O memory is mapped at once.
     */
    method Place(space: nat, k: nat, candidate: nat, n: nat, flags: nat, arg: nat) returns (r: Outcome)
      requires Tables() && space in spaces && k <= |spaces[space]| && 0 < n < U64 && n % PAGE == 0
      requires var kern := space == kernel;
               Search(spaces[space], 0, RegionStart(kern), RegionEnd(kern), n) == (true, k, candidate)
      requires Has(flags, MMIO) ==>
                 && arg + n <= PHYS_LIMIT
                 && HasGap(spaces[space], RegionStart(space == kernel), RegionEnd(space == kernel), n)
      modifies m`mem, m`tabs, m.pmm.pages, m.pmm.links, m.pmm.nrFree, m.pmm`lists, m.pmm`t, `spaces
      ensures Placed(old(spaces), spaces, space, space == kernel, n, flags, candidate, k)
      ensures r == Halt || r == At(candidate)
      ensures r.At? ==>
                (Tables() <==> HasGap(old(spaces)[space], RegionStart(space == kernel), RegionEnd(space == kernel), n))
      ensures !Has(flags, MMIO) ==> m.Now() == old(m.Now()) && (r.At? ==> Has(flags, ANON))
      ensures Builds(old(m.Now()), m.Now()) && (r.At? ==> SameAbove(old(m.mem), m.mem, kernel))
      ensures r.At? && Has(flags, MMIO) ==>
                RegionMapped(old(m.mem), m.mem, old(m.tabs), space, PageOf(candidate), 1, n / PAGE,
                             Map(arg, X86Flags(AreaFlags(flags, space == kernel)), false))
      ensures r.At? && Has(flags, MMIO) ==>
                IoMapped(m.mem, space, Area(candidate, n, AreaFlags(flags, space == kernel)), arg)
      ensures r == Halt ==> if Has(flags, MMIO) then NoFree(m.pmm.t) else !Has(flags, ANON)
    {
      hide Machine.Valid, Buddies.ValidBut, Sound, Maximal, Typed, Owned, Held, SpaceOk, Translate, AllSpaces,
           X86Flags, AllSee, RegionMapped, NoFree, And, Sorted, HasGap, Search, Fits, Extends, OnlyTables, SameAbove,
           IoMapped;
      var kern, areas := space == kernel, spaces[space];
      var fl := AreaFlags(flags, kern);
      ghost var spaces0, a := spaces, Area(candidate, n, fl);
      m.Sane();
      AreaFlagsBits(flags, kern, 4);
      AreaFlagsBits(flags, kern, 5);
      assert Pow2(4) == ANON && Pow2(5) == MMIO;
      SameKeys(m.mem, kernel, spaces, space, Insert(areas, k, a));
      spaces := spaces[space := Insert(areas, k, Area(candidate, n, fl))];
      PlacedOk(m.mem, m.tabs, kernel, spaces0, own, space, k, a);
      SameAboveRefl(m.mem, kernel);
      if Has(fl, MMIO) {
        var halted := MapIo(space, k, a, candidate, n, fl, arg);
        r := if halted then Halt else At(candidate);
      } else if Has(fl, ANON) {
        r := At(candidate);
      } else {
        r := Halt;
      }
    }

    /** The I/O branch of vmm_alloc: the physical range is mapped at once. */
    method MapIo(space: nat, ghost i: nat, ghost a: Area, base: nat, size: nat, flags: nat, arg: nat)
      returns (halted: bool)
      requires Tables() && space in spaces && i < |spaces[space]| && a == spaces[space][i] == Area(base, size, flags)
      requires IsMmio(a) && arg + size <= PHYS_LIMIT
      modifies m`mem, m`tabs, m.pmm.pages, m.pmm.links, m.pmm.nrFree, m.pmm`lists, m.pmm`t
      ensures Builds(old(m.Now()), m.Now())
      ensures halted ==> NoFree(m.pmm.t)
      ensures !halted ==> Tables() && SameAbove(old(m.mem), m.mem, kernel)
      ensures !halted ==>
                RegionMapped(old(m.mem), m.mem, old(m.tabs), space, Lo(a), 1, size / PAGE,
                             Map(arg, X86Flags(flags), false))
      ensures !halted ==> IoMapped(m.mem, space, a, arg)
    {
      hide Machine.Valid, Buddies.ValidBut, Sound, Maximal, Typed, Owned, Held, Translate, X86Flags, AllSpaces,
           AreasOk, AllSee, RegionMapped, RootsGrown, NoFree, And, Extends, OnlyTables, NoHuge, PageOf, Laps, Ends,
           StepsOnZero, ReachesUpper, RegionMaps, IoMapped;
      ghost var s0 := m.Now();
      m.Sane();
      RootsOf(m.mem, m.tabs, kernel, spaces);
      SpacesAreas(m.mem, m.tabs, kernel, spaces, space);
      AreaSide(spaces[space], space == kernel, i);
      WholeArea(spaces[space], space == kernel, i);
      AreaSmall(m.mem, m.tabs, kernel, spaces, space, i);
      X86FlagsAreFlags(flags);
      ghost var done;
      halted, done := m.MapRegion(space, base, arg, size, X86Flags(flags), false);
      if halted { return; }
      IoFrom(m.mem, space, a, arg);
      ExtendsFacts(s0, m.Now());
      AllSeeStays(s0.mem, m.mem, s0.tabs, space, ReachesUpper(base, size / PAGE, false), kernel, spaces);
      MmioSpaces(s0.mem, m.mem, s0.tabs, m.tabs, kernel, spaces, own, space, i, arg, X86Flags(flags));
      HeldExtends(s0, m.Now(), own);
      ghost var plan := Map(arg, X86Flags(flags), false);
      AreaBelow(s0.mem, m.mem, s0.tabs, space, spaces[space], space == kernel, i, plan, kernel);
    }

    /** The heap did not grow. */
    lemma NothingGrown()
      requires Valid()
      ensures HeapGrew(m.Now(), m.Now(), kernel, PageOf(heap.end), {}) && HEAP_PAGE <= PageOf(heap.end)
      ensures AsideKept(m.Now(), m.Now(), own, own)
    {
      hide Machine.Valid, AllSpaces, AllSee, Owned, Held, Described, PageOf, HeapBacked, HeapHeld;
      m.Sane();
      UpperPages(heap.end, 0);
      StartPages(heap.start, heap.end);
      GrewRefl(m.Now(), kernel, PageOf(heap.end));
    }

    /**
     vmm_free: exactly the area with the address goes from the list, its pages are unmapped, the frames behind
     them, unless the area is I/O memory, are free again, and so is its descriptor. A freed kernel page is unmapped in
     every space.
     */
    method FreeArea(space: nat, addr: nat) returns (freed: bool, ghost i: nat)
      requires Valid() && space in spaces
      modifies heap`hdr, heap`cells, `spaces, `own, `nodes, `held
      modifies m`mem, m`tabs, m.pmm.pages, m.pmm.links, m.pmm.nrFree, m.pmm`lists, m.pmm`t
      ensures Valid() && m.tabs == old(m.tabs) && AsideKept(old(m.Now()), m.Now(), old(own), own)
      ensures freed <==> addr != 0 && exists j: nat :: AreaHas(old(spaces), space, j, addr)
      ensures !freed ==> spaces == old(spaces) && own == old(own) && m.Now() == old(m.Now())
      ensures !freed ==> heap.cells == old(heap.cells) && nodes == old(nodes)
      ensures freed ==> AreaHas(old(spaces), space, i, addr)
      ensures freed ==> spaces == old(spaces)[space := RemoveAt(old(spaces)[space], i)]
      ensures freed ==> AreaFreed(old(m.Now()), m.Now(), space, old(spaces)[space][i])
      ensures freed ==> i < |old(nodes)[space]| && nodes == old(nodes)[space := RemoveAt(old(nodes)[space], i)]
      ensures freed ==> forall p: nat :: HeapCells.Live(heap.cells, p) <==>
                          HeapCells.Live(old(heap.cells), p) && p != old(nodes)[space][i]
      ensures freed && space == kernel ==> forall r: nat, v: nat | r in spaces && Covers(old(spaces)[space][i], v) ::
                Translate(m.mem, r, v) == Fault
    {
      hide Machine.Valid, Buddies.ValidBut, Owned, Held, Translate, AllSpaces, AllSee, HeapPart, Described, AsideKept,
           SameAbove, HeapCells.Live, AreaFreed, AreasOk, Forget, Covers;
      ghost var s0, own0, spaces0, c0 := m.Now(), own, spaces, heap.cells;
      AsideRefl(s0, own);
      RootsOf(m.mem, m.tabs, kernel, spaces);
      SpacesAreas(m.mem, m.tabs, kernel, spaces, space);
      var k;
      freed, k := DropArea(space, addr);
      i := k;
      if !freed {
        SameAboveRefl(m.mem, kernel);
        HeapStays();
        return;
      }
      AreaLeavesOwned(s0.mem, spaces0, own0, space, k);
      FreedAside(s0, m.Now(), space, spaces0[space], space == kernel, k, own0, kernel);
      HeapStays();
      RootsOf(m.mem, m.tabs, kernel, spaces);
      NodeLive(c0, spaces0, vas, nodes, held, space, k);
      FreeBlock(nodes[space][k]);
      AreasSorted(spaces0[space], space == kernel);
      BasesDiffer(spaces0[space], RegionStart(space == kernel), k);
      AreaRemoved(c0, heap.cells, spaces0, vas, nodes, held, space, k);
      nodes, held := nodes[space := RemoveAt(nodes[space], k)], held - {nodes[space][k]};
    }

    /** vmm_free without the descriptor */
    method DropArea(space: nat, addr: nat) returns (freed: bool, i: nat)
      requires Tables() && space in spaces
      modifies m`mem, m`tabs, m.pmm.pages, m.pmm.links, m.pmm.nrFree, m.pmm`lists, m.pmm`t, `spaces, `own
      ensures Tables() && m.tabs == old(m.tabs)
      ensures freed <==> addr != 0 && exists j: nat :: AreaHas(old(spaces), space, j, addr)
      ensures !freed ==> spaces == old(spaces) && own == old(own) && m.Now() == old(m.Now())
      ensures freed ==> AreaHas(old(spaces), space, i, addr)
      ensures freed ==> spaces == old(spaces)[space := RemoveAt(old(spaces)[space], i)]
      ensures freed ==> own == Forget(old(own), space, old(spaces)[space][i])
      ensures freed ==> AreaFreed(old(m.Now()), m.Now(), space, old(spaces)[space][i])
      ensures freed && space == kernel ==> forall r: nat, v: nat | r in spaces && Covers(old(spaces)[space][i], v) ::
                Translate(m.mem, r, v) == Fault
    {
      hide Machine.Valid, Buddies.ValidBut, Sound, Maximal, Typed, Owned, Held, Translate, AllSpaces, Sorted, Forget,
           AllSee, RegionMapped, RootsGrown, OwnedSlots, OwnSlots, BlocksBack, PageOf, And, Laps, Ends, StepsOnZero,
           ReachesUpper, AreaFreed, AreasOk, Covers, Erases;
      if addr == 0 { return false, 0; }
      ghost var s0, spaces0 := m.Now(), spaces;
      m.Sane();
      RootsOf(m.mem, m.tabs, kernel, spaces);
      SpacesAreas(m.mem, m.tabs, kernel, spaces, space);
      AreasSorted(spaces[space], space == kernel);
      var areas := spaces[space];
      var found, k := Find(areas, addr, RegionStart(space == kernel));
      assert found ==> AreaHas(spaces, space, k, addr);
      if !found { return false, 0; }
      var a := areas[k];
      AreaUnmaps(s0, kernel, spaces, own, space, k);
      spaces := spaces[space := RemoveAt(areas, k)];
      var halted := m.UnmapRegion(space, a.base, a.size, false, !IsMmio(a));
      FreedTables(s0, m.Now(), kernel, spaces0, own, space, k);
      own := Forget(own, space, a);
      return true, k;
    }

    /**
     vmm_new_address_space: a root that sees the kernel half and maps nothing in the lower half. The heap may grow for
     the descriptor, as in vmm_alloc; without a frame for the root the descriptor is given back.
     */
    method NewSpace() returns (root: nat, ok: bool, halted: bool, ghost s1: State, ghost taken: set<nat>)
      requires Valid() && heap.Room(DESCRIPTOR)
      modifies heap`end, heap`head, heap`hdr, heap`cells, `spaces, `vas, `nodes, `held
      modifies m`mem, m`tabs, m.pmm.pages, m.pmm.links, m.pmm.nrFree, m.pmm`lists, m.pmm`t
      ensures Valid() && (halted ==> !ok) && (!ok ==> NoFree(m.pmm.t))
      ensures old(heap.end) <= heap.end <= old(heap.end) + HeapCells.EXTENSION && AsideKept(s1, m.Now(), own, own)
      ensures HeapGrew(old(m.Now()), s1, kernel, PageOf(old(heap.end)), taken)
      ensures HEAP_PAGE <= PageOf(old(heap.end)) && AsideKept(old(m.Now()), m.Now(), own, own)
      ensures !ok ==> spaces == old(spaces) && m.mem == s1.mem && m.tabs == s1.tabs && m.pmm.t == s1.t
      ensures !ok ==> LiveWithout(old(heap.cells), heap.cells, [])
      ensures ok ==> root in vas && vas == old(vas)[root := vas[root]] && nodes == old(nodes)[root := []]
      ensures ok ==> LiveWith(old(heap.cells), heap.cells, vas[root])
      ensures ok ==> root !in s1.tabs && root < |s1.t| && s1.t[root].status == Free && InUse(m.pmm.t, root)
      ensures ok ==> root !in old(spaces) && spaces == old(spaces)[root := []]
      ensures ok ==> m.tabs == s1.tabs[root := Table(4, 0, root)]
      ensures ok ==> |m.pmm.t| == |s1.t| && forall p: nat | p < |m.pmm.t| && p != root ::
                m.pmm.t[p].status == Free <==> s1.t[p].status == Free
      ensures ok ==> SameTranslations(s1.mem, m.mem, s1.tabs) && SameOthers(s1.mem, m.mem, root)
      ensures ok ==> Shares(m.mem, kernel, root)
      ensures ok ==> forall v: nat | v < Span(4) ::
                       Translate(m.mem, root, v) == if v < HALF then Fault else Translate(m.mem, kernel, v)
      ensures (exists j: nat :: j < |old(heap.cells)| && HeapCells.Fits(old(heap.cells)[j], DESCRIPTOR)) ==>
                s1 == old(m.Now()) && taken == {}
    {
      hide Machine.Valid, Buddies.ValidBut, Owned, Held, Translate, AllSpaces, AllSee, HeapPart, Described, AsideKept,
           SameAbove, HeapCells.Live, PageOf, NoFree, HeapGrew, Extends, SameTranslations, SameOthers, Shares,
           Heap.Room;
      ghost var s0, c0 := m.Now(), heap.cells;
      var node;
      node, halted, taken := NewBlock();
      s1, root, ok := m.Now(), 0, false;
      AsideRefl(s1, own);
      if node == 0 { return; }
      ghost var spaces0 := spaces;
      label Blocked:
      root, ok := AddRoot();
      AsideTrans(s0, s1, m.Now(), own, own, own);
      HeapStays@Blocked();
      RootsOf(m.mem, m.tabs, kernel, spaces);
      if ok {
        SpaceAdded(heap.cells, spaces0, vas, nodes, held, root, node);
        vas, nodes, held := vas[root := node], nodes[root := []], held[node := SpaceOf(root)];
        return;
      }
      ghost var c1 := heap.cells;
      FreeBlock(node);
      DescribedLess(c1, heap.cells, spaces, vas, nodes, held, node);
    }

    /** The page-table half of vmm_new_address_space */
    method AddRoot() returns (root: nat, ok: bool)
      requires Tables()
      modifies m`mem, m`tabs, m.pmm.pages, m.pmm.links, m.pmm.nrFree, m.pmm`lists, m.pmm`t, `spaces
      ensures Tables() && (ok <==> !NoFree(old(m.pmm.t)))
      ensures SameAbove(old(m.mem), m.mem, kernel) && AsideKept(old(m.Now()), m.Now(), own, own)
      ensures !ok ==> spaces == old(spaces) && m.mem == old(m.mem) && m.tabs == old(m.tabs) && m.pmm.t == old(m.pmm.t)
      ensures ok ==> root !in old(m.tabs) && root < |old(m.pmm.t)| && old(m.pmm.t)[root].status == Free
      ensures ok ==> InUse(m.pmm.t, root) && root !in old(spaces)
      ensures ok ==> spaces == old(spaces)[root := []] && m.tabs == old(m.tabs)[root := Table(4, 0, root)]
      ensures ok ==> |m.pmm.t| == |old(m.pmm.t)| && forall p: nat | p < |m.pmm.t| && p != root ::
                m.pmm.t[p].status == Free <==> old(m.pmm.t)[p].status == Free
      ensures ok ==> SameTranslations(old(m.mem), m.mem, old(m.tabs)) && SameOthers(old(m.mem), m.mem, root)
      ensures ok ==> Shares(m.mem, kernel, root)
      ensures ok ==> forall v: nat | v < Span(4) ::
                       Translate(m.mem, root, v) == if v < HALF then Fault else Translate(m.mem, kernel, v)
    {
      hide Machine.Valid, Buddies.ValidBut, Sound, Maximal, Typed, Owned, Held, Translate, SpaceOk, Extends, NoFree,
           SameTranslations, AllSpaces, AsideKept, SameAbove;
      ghost var s0 := m.Now();
      m.Sane();
      RootsOf(m.mem, m.tabs, kernel, spaces);
      root, ok := m.NewRoot(kernel);
      m.Sane();
      SameAboveRefl(m.mem, kernel);
      if !ok {
        HeldExtends(s0, m.Now(), own);
        ExtendsAside(s0, m.Now(), own);
        return;
      }
      NewRootAside(s0, m.Now(), own, root, kernel);
      HeldNewRoot(s0, m.Now(), own, root);
      forall v: nat | v < Span(4)
        ensures Translate(m.mem, root, v) == if v < HALF then Fault else Translate(m.mem, kernel, v)
      {
        CopyRootWalk(m.mem, kernel, root, v);
      }
      NewSpaces(s0.mem, m.mem, s0.tabs, kernel, spaces, own, root);
      NewSees(s0.mem, m.mem, s0.tabs, kernel, spaces, root);
      spaces := spaces[root := []];
    }

    /**
     vmm_destroy_address_space: the frames behind anonymous pages and the root go back to the allocator, the
     descriptors to the heap, and nothing else; no other space sees a change. The kernel space is never destroyed.
     */
    method Destroy(space: nat)
      requires Valid() && space in spaces
      modifies heap`hdr, heap`cells, `spaces, `own, `vas, `nodes, `held
      modifies m`mem, m`tabs, m.pmm.pages, m.pmm.links, m.pmm.nrFree, m.pmm`lists, m.pmm`t
      ensures Valid() && AsideKept(old(m.Now()), m.Now(), old(own), own)
      ensures space == kernel ==> spaces == old(spaces) && m.Now() == old(m.Now())
      ensures space != kernel ==> spaces == old(spaces) - {space} && m.tabs == old(m.tabs) - {space}
      ensures space != kernel ==> |m.pmm.t| == |old(m.pmm.t)| && forall p: nat | p < |m.pmm.t| ::
                m.pmm.t[p].status == Free <==>
                old(m.pmm.t)[p].status == Free || p == space || AnonLeaf(old(m.mem), space, old(spaces)[space], p)
      ensures forall r: nat, v: nat | IsRoot(m.tabs, r) && v < Span(4) ::
                Translate(m.mem, r, v) == Translate(old(m.mem), r, v)
      ensures space == kernel ==> heap.cells == old(heap.cells)
      ensures space != kernel ==> space in old(vas) && space in old(nodes)
      ensures space != kernel ==> LiveWithout(old(heap.cells), heap.cells, old(nodes)[space] + [old(vas)[space]])
    {
      hide Machine.Valid, Buddies.ValidBut, Owned, Held, Translate, AllSpaces, AnonLeaf, Dismantled, AllSee, HeapPart,
           Described, AsideKept, HeapCells.Live;
      AsideRefl(m.Now(), own);
      if space == kernel { return; }
      NodeCount(heap.cells, spaces, vas, nodes, held, space);
      ghost var s0, areas, own0 := m.Now(), spaces[space], own;
      FreeAreas(space);
      DismantledAll(s0.mem, m.mem, m.tabs, s0.t, m.pmm.t, space, areas);
      ghost var s1, own1 := m.Now(), own;
      DropSpace(space);
      AsideTrans(s0, s1, m.Now(), own0, own1, own);
    }

    /** The loop of vmm_destroy_address_space */
    method FreeAreas(space: nat)
      requires Valid() && space in spaces && space != kernel
      modifies heap`hdr, heap`cells, `spaces, `own, `nodes, `held
      modifies m`mem, m`tabs, m.pmm.pages, m.pmm.links, m.pmm.nrFree, m.pmm`lists, m.pmm`t
      ensures Valid() && spaces == old(spaces)[space := []] && m.tabs == old(m.tabs)
      ensures AsideKept(old(m.Now()), m.Now(), old(own), own)
      ensures var areas := old(spaces)[space];
              Dismantled(old(m.mem), m.mem, m.tabs, old(m.pmm.t), m.pmm.t, space, areas, |areas|)
      ensures nodes == old(nodes)[space := []] && LiveWithout(old(heap.cells), heap.cells, old(nodes)[space])
    {
      hide Machine.Valid, Buddies.ValidBut, Owned, Held, Translate, AllSpaces, Dismantled, RegionMapped, GivenBack,
           AllSee, HeapPart, Described, AsideKept, HeapCells.Live, AreasOk, Covers, LiveWithout;
      ghost var s0, areas, k, own0 := m.Now(), spaces[space], 0, own;
      NodeCount(heap.cells, spaces, vas, nodes, held, space);
      ghost var c0, blocks := heap.cells, nodes[space];
      NoneGone(c0, blocks);
      AsideRefl(s0, own);
      SpacesAreas(m.mem, m.tabs, kernel, spaces, space);
      DismantledFirst(m.mem, m.tabs, m.pmm.t, space, areas);
      while spaces[space] != []
        invariant Valid() && space in spaces && m.tabs == s0.tabs && k <= |areas|
        invariant spaces == old(spaces)[space := areas[k..]] && AsideKept(s0, m.Now(), own0, own)
        invariant Dismantled(s0.mem, m.mem, m.tabs, s0.t, m.pmm.t, space, areas, k)
        invariant nodes == old(nodes)[space := blocks[k..]] && LiveWithout(c0, heap.cells, blocks[..k])
        decreases |spaces[space]|
      {
        ghost var s1, own1, c1 := m.Now(), own, heap.cells;
        SpacesAreas(m.mem, m.tabs, kernel, spaces, space);
        HeadArea(areas[k..], false);
        assert AreaHas(spaces, space, 0, spaces[space][0].base);
        var freed, i := FreeArea(space, spaces[space][0].base);
        AsideTrans(s0, s1, m.Now(), own0, own1, own);
        DismantledNext(s0, s1, m.Now(), space, areas, k);
        assert RemoveAt(areas[k..], 0) == areas[k + 1..] && RemoveAt(blocks[k..], 0) == blocks[k + 1..];
        OneMoreGone(c0, c1, heap.cells, blocks, k);
        k := k + 1;
      }
      assert blocks[..k] == blocks;
    }

    /** The end of vmm_destroy_address_space, once the space has no area */
    method DropSpace(space: nat)
      requires Valid() && space in spaces && space != kernel && spaces[space] == []
      modifies heap`hdr, heap`cells, `spaces, `vas, `nodes, `held
      modifies m`tabs, m.pmm.pages, m.pmm.links, m.pmm.nrFree, m.pmm`lists, m.pmm`t
      ensures Valid() && spaces == old(spaces) - {space} && m.tabs == old(m.tabs) - {space}
      ensures |m.pmm.t| == |old(m.pmm.t)| && forall p: nat | p < |m.pmm.t| ::
                m.pmm.t[p].status == Free <==> old(m.pmm.t)[p].status == Free || p == space
      ensures AsideKept(old(m.Now()), m.Now(), own, own)
      ensures forall p: nat :: HeapCells.Live(heap.cells, p) <==>
                HeapCells.Live(old(heap.cells), p) && p != old(vas)[space]
    {
      hide Machine.Valid, Buddies.ValidBut, Owned, Held, Translate, AllSpaces, AllSee, HeapPart, Described, AsideKept,
           SameAbove, HeapCells.Live;
      ghost var c0, spaces0 := heap.cells, spaces;
      GiveUp(space);
      SameAboveRefl(m.mem, kernel);
      HeapStays();
      RootsOf(m.mem, m.tabs, kernel, spaces);
      SpaceLive(c0, spaces0, vas, nodes, held, space);
      FreeBlock(vas[space]);
      SpaceRemoved(c0, heap.cells, spaces0, vas, nodes, held, space);
      held := held - {vas[space]};
      vas, nodes := vas - {space}, nodes - {space};
    }

    /** The root goes back to the allocator. */
    method GiveUp(space: nat)
      requires Tables() && space in spaces && space != kernel && spaces[space] == []
      modifies m`tabs, m.pmm.pages, m.pmm.links, m.pmm.nrFree, m.pmm`lists, m.pmm`t, `spaces
      ensures Tables() && spaces == old(spaces) - {space} && m.tabs == old(m.tabs) - {space}
      ensures |m.pmm.t| == |old(m.pmm.t)| && forall p: nat | p < |m.pmm.t| ::
                m.pmm.t[p].status == Free <==> old(m.pmm.t)[p].status == Free || p == space
      ensures AsideKept(old(m.Now()), m.Now(), own, own)
    {
      hide Machine.Valid, Buddies.ValidBut, Sound, Maximal, Typed, Held, Translate, SpaceOk, AnonPage, Freed, SeesPart,
           AsideKept;
      ghost var s0 := m.Now();
      m.Sane();
      m.DropRoot(space);
      m.Sane();
      DestroyHeld(s0.t, m.pmm.t, s0.tabs, s0.pages, m.pmm.pages[..], own, space);
      DropRootAside(s0, m.Now(), own, space);
      spaces := spaces - {space};
    }
  }

  /** vmm_init */
  method Init(h: Heap) returns (mgr: Manager?, ghost taken: set<nat>)
    requires h.Valid() && h.Room(DESCRIPTOR) && HEAP_PAGE <= PageOf(h.start)
    requires forall v: nat | InRegion(true, v) :: Translate(h.m.mem, h.root, v) == Fault
    modifies h`end, h`head, h`hdr, h`cells, h.m`mem, h.m`tabs
    modifies h.m.pmm.pages, h.m.pmm.links, h.m.pmm.nrFree, h.m.pmm`lists, h.m.pmm`t
    ensures mgr == null ==> NoFree(h.m.pmm.t)
    ensures mgr != null ==> fresh(mgr) && mgr.Valid() && mgr.heap == h && mgr.spaces == map[h.root := []]
    ensures mgr != null ==> mgr.own == map[] && h.end <= old(h.end) + HeapCells.EXTENSION
    ensures HeapGrew(old(h.m.Now()), h.m.Now(), h.root, PageOf(old(h.end)), taken)
  {
    hide Heap.Valid, Translate, HeapGrew, HeapCells.Live, NoFree, Heap.Room, GrowBy, InRegion, PageOf, FirstFit,
         NewLeaf, HeapCells.Carve, HeapCells.Fits, Manager.Valid;
    ghost var s0, e0 := h.m.Now(), h.end;
    var node, halted; ghost var k;
    HeapBounds(h);
    StartPages(h.start, h.end);
    node, halted, k, taken := h.Kmalloc(DESCRIPTOR);
    if node == 0 { return null, taken; }
    RegionUnmapped(s0, h.m.Now(), h.root, PageOf(e0), taken);
    mgr := new Manager(h, node);
  }

  /**
   In every state the processor allows on a mapped page of an area exactly what the area asks for, through all levels
   of the tables.
   */
  lemma EffectiveRights(mgr: Manager, r: nat, i: nat, v: nat)
    requires mgr.Valid() && r in mgr.spaces && i < |mgr.spaces[r]| && Covers(mgr.spaces[r][i], v)
    requires Translate(mgr.m.mem, r, v) != Fault
    ensures var mem, flags := mgr.m.mem, mgr.spaces[r][i].flags;
            && (AllHave(mem, r, 4, v, RW) <==> Has(flags, WRITE)) && (AllHave(mem, r, 4, v, US) <==> Has(flags, USER))
            && (SomeHas(mem, r, 4, v, NO_EXEC) <==> !Has(flags, EXEC))
  {
    hide Machine.Valid, AllSee, Owned, Held, Described, Manager.HeapPart, Descend, And, Covers, SpaceOk;
    mgr.m.Sane();
    SpaceAreas(mgr.m.mem, r, r == mgr.kernel, mgr.spaces[r]);
    AreaSide(mgr.spaces[r], r == mgr.kernel, i);
    RightsHold(mgr.m.mem, r, r == mgr.kernel, mgr.spaces[r], i, v);
    CoversBelow(mgr.spaces[r][i], v);
    RootOnWay(mgr.m.mem, mgr.m.tabs, r, v);
    WalkRights(mgr.m.mem, mgr.m.tabs, r, v);
  }

  lemma CoversBelow(a: Area, v: nat)
    requires Covers(a, v)
    ensures Lo(a) <= v < Hi(a)
  {
  }
}
