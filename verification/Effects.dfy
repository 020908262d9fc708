/** What the operations on address spaces do to memory, page tables and allocator, and what follows from it. */
module Effects {
  import opened Bits
  import opened Seqs
  import opened Tiling
  import opened Pmm
  import opened Entry
  import opened Regions
  import opened PageTable
  import opened Paging
  import opened Areas
  import opened Flags
  import opened Spaces
  import BuddyStore

  /** What vmm_alloc returns: NULL, an address, or nothing because the machine halts */
  datatype Outcome = Null | At(addr: nat) | Halt

  /** The size rounded up to pages, in 64-bit arithmetic */
  function PageUp(size: nat): (n: nat)
    requires size < U64
    ensures n < U64 && n % PAGE == 0
    ensures if size + PAGE <= U64 then size <= n < size + PAGE else n == 0 || n == size
  {
    if size % PAGE != 0 then (size + (PAGE - size % PAGE)) % U64 else size
  }

  /** Area i of the space has the address. */
  predicate AreaHas(spaces: map<nat, seq<Area>>, space: nat, i: nat, addr: nat) {
    space in spaces && i < |spaces[space]| && spaces[space][i].Has(addr)
  }

  ghost predicate NoArea(spaces: map<nat, seq<Area>>, space: nat, addr: nat) {
    forall i: nat :: !AreaHas(spaces, space, i, addr)
  }

  /** The request has a size, and the search finds a place for it. */
  ghost predicate Wanted(spaces: map<nat, seq<Area>>, space: nat, kern: bool, n: nat) {
    n != 0 && space in spaces && Search(spaces[space], 0, RegionStart(kern), RegionEnd(kern), n).0
  }

  /**
   The effect of a handled fault: one page gained a fresh zeroed frame, with the rights that the flags ask for; every
   other page of every space is as before.
   */
  ghost predicate Faulted(s: State, s': State, frame: nat, target: nat, w: nat, flags: nat) {
    && frame < |s.t| && s.t[frame].status == Free && InUse(s'.t, frame) && Keeps(s.t, s'.t) && frame !in s'.tabs
    && (forall p: nat | p < |s.t| && s.t[p].status == Free && s'.t[p].status != Free :: p == frame || p in s'.tabs)
    && Grows(s.tabs, s'.tabs) && (forall g | g in s'.tabs && g !in s.tabs :: g < |s.t| && s.t[g].status == Free)
    && frame in s'.mem && s'.mem[frame] == Zeros() && RootsKept(s.mem, s'.mem, s.tabs, target, Index(w, 4))
    && Translate(s'.mem, target, w) == Leaf(frame, EntryFor(frame * PAGE, X86Flags(flags), false), 1)
    && Grants(Translate(s'.mem, target, w).entry, flags)
    && MappedOnly(s.mem, s'.mem, s.tabs, target, w)
  }

  /** No other page changes; a page of the lower half is seen by no other root. */
  ghost predicate MappedOnly(mem: Memory, mem': Memory, tabs: map<nat, Table>, target: nat, w: nat) {
    && (forall r: nat, v: nat | IsRoot(tabs, r) && v < Span(4) && v != w ::
          Translate(mem', r, v) == Translate(mem, r, v))
    && (w < HALF ==> forall r: nat, v: nat | IsRoot(tabs, r) && r != target && v < Span(4) ::
          Translate(mem', r, v) == Translate(mem, r, v))
  }

  lemma FaultEffect(mem: Memory, mem': Memory, tabs: map<nat, Table>, target: nat, w: nat, e: nat)
    requires Updated(mem, mem', tabs, target, w, 1, e) && w < Span(4) && Present(e)
    ensures Translate(mem', target, w) == Leaf(FrameOf(e), e, 1) && MappedOnly(mem, mem', tabs, target, w)
  {
    hide Translate;
    assert Translate(mem', target, w) == LeafOf(e, 1, w);
    LowerHalf(w);
    forall r: nat, v: nat | IsRoot(tabs, r) && v < Span(4) && v != w
      ensures Translate(mem', r, v) == Translate(mem, r, v)
    {
      assert v / Span(0) != w / Span(0);
    }
  }

  /** What the mapping step and the zeroing step before it make of a fault */
  lemma FaultedFrom(s0: State, s1: State, s': State, frame: nat, target: nat, w: nat, flags: nat)
    requires Extends(s0, s1.(mem := s0.mem)) && s1.tabs == s0.tabs && Builds(s1, s')
    requires frame < |s0.t| && s0.t[frame].status == Free && InUse(s1.t, frame)
    requires frame !in s1.tabs && frame in s1.mem && s1.mem[frame] == Zeros()
    requires forall p: nat | p < |s0.t| && p != frame :: s1.t[p].status == Free <==> s0.t[p].status == Free
    requires RootsKept(s0.mem, s'.mem, s0.tabs, target, Index(w, 4)) && MappedOnly(s0.mem, s'.mem, s0.tabs, target, w)
    requires Translate(s'.mem, target, w) == Leaf(frame, EntryFor(frame * PAGE, X86Flags(flags), false), 1)
    requires Grants(EntryFor(frame * PAGE, X86Flags(flags), false), flags)
    ensures Faulted(s0, s', frame, target, w, flags)
  {
    hide RootsKept, MappedOnly, Translate, EntryFor, X86Flags, Zeros, Grants;
    forall p: nat | p < |s0.t| && s0.t[p].status == Free && s'.t[p].status != Free ensures p == frame || p in s'.tabs {
      if p != frame { assert s1.t[p].status == Free; }
    }
  }

  /** The effect of freeing an area on the page tables and the allocator */
  ghost predicate AreaFreed(s: State, s': State, space: nat, a: Area) {
    && RegionMapped(s.mem, s'.mem, s.tabs, space, Lo(a), 1, a.size / PAGE, Erase)
    && GivenBack(s, s', space, Lo(a), a.size / PAGE, a.size / PAGE, !IsMmio(a))
  }

  /**
   The list after vmm_alloc: the search found place i and address addr, and the area went there; with a gap it is the
   lowest fit.
   */
  ghost predicate Placed(spaces: map<nat, seq<Area>>, spaces': map<nat, seq<Area>>, space: nat, kern: bool, n: nat,
                         flags: nat, addr: nat, i: nat) {
    && space in spaces && i <= |spaces[space]|
    && Search(spaces[space], 0, RegionStart(kern), RegionEnd(kern), n) == (true, i, addr)
    && spaces' == spaces[space := Insert(spaces[space], i, Area(addr, n, AreaFlags(flags, kern)))]
    && (HasGap(spaces[space], RegionStart(kern), RegionEnd(kern), n) ==>
          Fits(spaces[space], RegionStart(kern), RegionEnd(kern), n, i, addr) && addr + n <= RegionEnd(kern))
  }

  lemma FaultAddress(areas: seq<Area>, kern: bool, k: nat, addr: nat)
    requires AreasOk(areas, kern) && k < |areas| && areas[k].Has(addr)
    ensures InRegion(kern, PageOf(addr)) && Covers(areas[k], PageOf(addr)) && addr != 0
  {
    AddressCovered(areas[k], kern, addr);
  }

  lemma SpacesNoHuge(mem: Memory, mem': Memory, tabs: map<nat, Table>, kernel: nat, spaces: map<nat, seq<Area>>, r: nat,
                     w: nat)
    requires AllSpaces(mem, tabs, kernel, spaces) && r in spaces && InRegion(r == kernel, w)
    requires SameTranslations(mem, mem', tabs)
    ensures NoHuge(mem', r, w)
  {
    SpaceNoHuge(mem, mem', tabs, r, r == kernel, spaces[r], w);
  }

  lemma SameKeys(mem: Memory, kernel: nat, spaces: map<nat, seq<Area>>, space: nat, areas: seq<Area>)
    requires AllSee(mem, kernel, spaces) && space in spaces
    ensures AllSee(mem, kernel, spaces[space := areas])
  {
  }

  lemma WholeArea(areas: seq<Area>, kern: bool, i: nat)
    requires AreasOk(areas, kern) && i < |areas|
    ensures Bytes(areas[i].size / PAGE, false) == areas[i].size && areas[i].size < U64
  {
    WholePages(areas[i].size);
  }

  lemma FreedUnseen(mem: Memory, mem': Memory, tabs: map<nat, Table>, kernel: nat, spaces: map<nat, seq<Area>>, a: Area)
    requires RegionMapped(mem, mem', tabs, kernel, Lo(a), 1, a.size / PAGE, Erase) && IsRoot(tabs, kernel)
    requires AllSee(mem', kernel, spaces) && Lo(a) >= HALF && Hi(a) <= Span(4)
    ensures forall r: nat, v: nat | r in spaces && Covers(a, v) :: Translate(mem', r, v) == Fault
  {
    hide Translate, RegionMapped, AllSee;
    forall r: nat, v: nat | r in spaces && Covers(a, v) ensures Translate(mem', r, v) == Fault {
      EraseOthers(mem, mem', tabs, kernel, a, v);
      NobodySees(mem', kernel, spaces, r, v);
    }
  }

  lemma NewSees(mem: Memory, mem': Memory, tabs: map<nat, Table>, kernel: nat, spaces: map<nat, seq<Area>>, root: nat)
    requires AllSee(mem, kernel, spaces) && root !in spaces && SameOthers(mem, mem', root) && kernel in spaces
    requires kernel in mem' && root in mem' && UpperCopy(mem'[root], mem'[kernel])
    ensures AllSee(mem', kernel, spaces[root := []])
  {
    forall r | r in spaces ensures SeesPart(mem', kernel, r) {
      assert SeesPart(mem, kernel, r) && SeesPart(mem, kernel, kernel);
    }
  }

  /** What paging_unmap_region needs to know of an area */
  lemma AreaUnmaps(s: State, kernel: nat, spaces: map<nat, seq<Area>>, own: map<nat, Use>, space: nat, k: nat)
    requires AllSpaces(s.mem, s.tabs, kernel, spaces) && Owned(s.mem, spaces, own) && Held(s.t, s.tabs, s.pages, own)
    requires space in spaces && k < |spaces[space]|
    ensures var a := spaces[space][k];
            && Hi(a) <= Span(4) && a.base > 0 && a.End() < U64 && Laps(a.base, a.size, false) == a.size / PAGE
            && Bytes(a.size / PAGE, false) == a.size
            && Ends(a.base, a.size, false) && !StepsOnZero(a.base, a.size, false)
            && (ReachesUpper(a.base, a.size / PAGE, false) ==> space == kernel)
            && OwnSlots(s.mem, space, Lo(a), a.size / PAGE, false)
            && (!IsMmio(a) ==> OwnedSlots(s.mem, space, Lo(a), a.size / PAGE, false, s.t, s.tabs, s.pages))
  {
    hide Owned, Held, AllSpaces, Translate, NoHuge, OwnedLeaves, OwnedSlots, PageOf;
    var a := spaces[space][k];
    SpacesAreas(s.mem, s.tabs, kernel, spaces, space);
    AreaSide(spaces[space], space == kernel, k);
    WholeArea(spaces[space], space == kernel, k);
    AreaSmall(s.mem, s.tabs, kernel, spaces, space, k);
    SmallOwn(s.mem, space, Lo(a), a.size / PAGE);
    if !IsMmio(a) {
      AreaOwnsLeaves(s.mem, spaces, own, s.t, s.tabs, s.pages, space, k);
      SmallOwned(s.mem, space, Lo(a), a.size / PAGE, s.t, s.tabs, s.pages);
    }
  }

  /** What the manager promises about all spaces survives the freeing of an area. */
  lemma FreedTables(s: State, s': State, kernel: nat, spaces: map<nat, seq<Area>>, own: map<nat, Use>, space: nat,
                    k: nat)
    requires Typed(s.mem, s.tabs) && AllSpaces(s.mem, s.tabs, kernel, spaces) && AllSee(s.mem, kernel, spaces)
    requires Owned(s.mem, spaces, own) && Held(s.t, s.tabs, s.pages, own) && s'.tabs == s.tabs
    requires space in spaces && k < |spaces[space]|
    requires var a := spaces[space][k];
             && RegionMapped(s.mem, s'.mem, s.tabs, space, Lo(a), 1, a.size / PAGE, Erase)
             && BlocksBack(s, s', space, Lo(a), a.size / PAGE, a.size / PAGE, false, !IsMmio(a))
             && RootsGrown(s.mem, s'.mem, s.tabs, space, ReachesUpper(a.base, a.size / PAGE, false))
    ensures AreaFreed(s, s', space, spaces[space][k])
    ensures var spaces', own' := spaces[space := RemoveAt(spaces[space], k)], Forget(own, space, spaces[space][k]);
            && AllSpaces(s'.mem, s'.tabs, kernel, spaces') && AllSee(s'.mem, kernel, spaces')
            && Owned(s'.mem, spaces', own') && Held(s'.t, s'.tabs, s'.pages, own')
    ensures space == kernel ==> forall r: nat, v: nat | r in spaces && Covers(spaces[space][k], v) ::
              Translate(s'.mem, r, v) == Fault
  {
    hide Typed, Owned, Held, AllSpaces, AllSee, Translate, NoHuge, OwnedLeaves, BlocksBack, RegionMapped, RootsGrown,
         Forget, GivenBack, PageOf, ReachesUpper;
    var a, spaces' := spaces[space][k], spaces[space := RemoveAt(spaces[space], k)];
    RootsOf(s.mem, s.tabs, kernel, spaces);
    SpacesAreas(s.mem, s.tabs, kernel, spaces, space);
    AreaSide(spaces[space], space == kernel, k);
    AreaSmall(s.mem, s.tabs, kernel, spaces, space, k);
    if !IsMmio(a) { AreaOwnsLeaves(s.mem, spaces, own, s.t, s.tabs, s.pages, space, k); }
    SmallGiven(s, s', space, Lo(a), a.size / PAGE, !IsMmio(a));
    SameKeys(s.mem, kernel, spaces, space, RemoveAt(spaces[space], k));
    AllSeeStays(s.mem, s'.mem, s.tabs, space, ReachesUpper(a.base, a.size / PAGE, false), kernel, spaces');
    FreeSpaces(s.mem, s'.mem, s.tabs, kernel, spaces, space, k);
    FreeOwned(s.mem, s'.mem, s.tabs, kernel, spaces, own, space, k);
    FreeHeld(s, s', own, space, a, !IsMmio(a));
    if space == kernel { FreedUnseen(s.mem, s'.mem, s.tabs, kernel, spaces', a); }
  }

  /** Freeing an area that was never touched writes no table and frees no frame, in every space. */
  lemma UntouchedArea(s: State, s': State, space: nat, a: Area)
    requires AreaFreed(s, s', space, a) && forall v: nat | Covers(a, v) :: Translate(s.mem, space, v) == Fault
    ensures s'.mem == s.mem && s'.t == s.t && s'.pages == s.pages
  {
    forall v: nat | Lo(a) <= v < Hi(a) ensures Translate(s.mem, space, v) == Fault { assert Covers(a, v); }
    assert AllFault(s.mem, space, Lo(a), Lo(a) + a.size / PAGE);
  }

  /**
   vmm_free by any address of an area undoes the vmm_alloc that placed it: the list is restored, and as no page
   of a new area is mapped, so are memory and allocator.
   */
  lemma AllocFreeRestores(s: State, s': State, kernel: nat, spaces: map<nat, seq<Area>>, space: nat, i: nat, a: Area,
                          addr: nat, j: nat)
    requires AllSpaces(s.mem, s.tabs, kernel, spaces) && space in spaces && i <= |spaces[space]| && a.Has(addr)
    requires AreasOk(Insert(spaces[space], i, a), space == kernel)
    requires j < |Insert(spaces[space], i, a)| && Insert(spaces[space], i, a)[j].Has(addr)
    requires AreaFreed(s, s', space, Insert(spaces[space], i, a)[j])
    ensures RemoveAt(Insert(spaces[space], i, a), j) == spaces[space] && s'.mem == s.mem && s'.t == s.t
    ensures s'.pages == s.pages
  {
    hide AreaFreed, Translate;
    var areas := spaces[space];
    assert Insert(areas, i, a)[i] == a;
    OneAreaHas(Insert(areas, i, a), RegionStart(space == kernel), i, j, addr);
    InsertRemove(areas, i, a);
    forall v: nat | Covers(a, v) ensures Translate(s.mem, space, v) == Fault {
      NewPageUnmapped(s.mem, space, space == kernel, areas, i, a, v);
    }
    UntouchedArea(s, s', space, a);
  }

  /**
   A fault on a kernel address is repaired in the kernel's tables. The space that faulted sees the page afterwards
   exactly when its own root slot of the page was there before, whatever the kernel's slot held.
   */
  lemma KernelFaultSeen(s: State, s': State, frame: nat, kernel: nat, space: nat, w: nat, flags: nat)
    requires Typed(s.mem, s.tabs) && IsRoot(s.tabs, kernel) && IsRoot(s.tabs, space) && space != kernel
    requires SeesPart(s.mem, kernel, space) && HALF <= w < Span(4) && Faulted(s, s', frame, kernel, w, flags)
    ensures Translate(s'.mem, space, w) != Fault <==> Present(s.mem[space][Index(w, 4)])
    ensures Translate(s'.mem, space, w) != Fault ==> LeafAt(s'.mem, space, w, frame)
    ensures SeesPart(s'.mem, kernel, space) && space in s'.mem && s'.mem[space] == s.mem[space]
  {
    hide Translate, Typed, RootsKept, Index, MappedOnly, SeesPart, Shares;
    SeesWords(s.mem, kernel, space);
    KernelPageSeen(s.mem, s'.mem, s.tabs, kernel, space, w);
  }

  lemma SeesWords(mem: Memory, kernel: nat, space: nat)
    requires SeesPart(mem, kernel, space)
    ensures space in mem && |mem[space]| == 512
  {
  }

  /**
   vmm_page_fault_handler does not look whether the area is I/O memory. The processor faults on a mapped page of such an
   area exactly when the root slot of the space is absent; then RAM takes the place of the device, and when the area is
   freed the frame stays in use behind no page.
   */
  lemma DeviceReplaced(s: State, s': State, s'': State, frame: nat, kernel: nat, space: nat, w: nat, flags: nat,
                       a: Area,
                       device: nat)
    requires SeesPart(s.mem, kernel, space) && IsRoot(s.tabs, kernel) && HALF <= w < Span(4)
    requires IsMmio(a) && Covers(a, w) && LeafAt(s.mem, kernel, w, device)
    requires device < |s.t| ==> s.t[device].status != Free
    requires Faulted(s, s', frame, kernel, w, flags)
    requires AreaFreed(s', s'', kernel, a) && s''.tabs == s'.tabs
    ensures Translate(s.mem, space, w) == Fault <==> !Present(s.mem[space][Index(w, 4)])
    ensures LeafAt(s'.mem, kernel, w, frame) && !LeafAt(s'.mem, kernel, w, device)
    ensures InUse(s''.t, frame) && frame !in s''.tabs && Translate(s''.mem, kernel, w) == Fault
  {
    hide RootsKept, MappedOnly, EntryFor, X86Flags, Zeros, Grants, Keeps, RegionMapped, IsMmio;
    SlotDecides(s.mem, kernel, space, w);
    hide Translate;
    assert !IsLeafOf(s'.mem, kernel, Lo(a), Lo(a), frame);
    GrownRoot(s.tabs, s'.tabs, kernel);
    EraseOthers(s'.mem, s''.mem, s'.tabs, kernel, a, w);
  }

  lemma GrownRoot(tabs: map<nat, Table>, tabs': map<nat, Table>, r: nat)
    requires Grows(tabs, tabs') && IsRoot(tabs, r)
    ensures IsRoot(tabs', r)
  {
  }

  /** Of a page that the kernel has mapped, the space's own slot decides whether it is seen. */
  lemma SlotDecides(mem: Memory, kernel: nat, space: nat, w: nat)
    requires SeesPart(mem, kernel, space) && HALF <= w < Span(4) && Translate(mem, kernel, w) != Fault
    ensures Translate(mem, space, w) == Fault <==> !Present(mem[space][Index(w, 4)])
  {
    LowerHalf(w);
    ZeroAbsent();
    if Present(mem[space][Index(w, 4)]) { assert mem[space][Index(w, 4)] == mem[kernel][Index(w, 4)]; }
  }

  /** Frame p is behind an anonymous page of some space. */
  ghost predicate Backs(mem: Memory, spaces: map<nat, seq<Area>>, p: nat) {
    exists r: nat, v: nat :: BacksAt(mem, spaces, p, r, v)
  }

  ghost predicate BacksAt(mem: Memory, spaces: map<nat, seq<Area>>, p: nat, r: nat, v: nat) {
    r in spaces && AnonPage(spaces[r], v) && LeafAt(mem, r, v, p)
  }

  /** The frame backed a page before and backs none now. */
  ghost predicate Lost(mem: Memory, mem': Memory, spaces: map<nat, seq<Area>>, p: nat) {
    Backs(mem, spaces, p) && !Backs(mem', spaces, p)
  }

  /**
   A fault on an anonymous page loses a frame exactly when the page was already mapped in the target, as it is
   on the next fault of a space that does not see it; the frame stays in use for ever.
   */
  lemma RefaultLosesFrame(s: State, s': State, frame: nat, target: nat, w: nat, flags: nat, kernel: nat,
                          spaces: map<nat, seq<Area>>, own: map<nat, Use>)
    requires AllSpaces(s.mem, s.tabs, kernel, spaces) && Owned(s.mem, spaces, own) && Held(s.t, s.tabs, s.pages, own)
    requires target in spaces && AnonPage(spaces[target], w) && Faulted(s, s', frame, target, w, flags)
    requires Owned(s'.mem, spaces, own[frame := Use(target, w)]) && frame !in own
    ensures (exists p: nat :: Lost(s.mem, s'.mem, spaces, p)) <==> Translate(s.mem, target, w) != Fault
    ensures forall p: nat | Lost(s.mem, s'.mem, spaces, p) :: LeafAt(s.mem, target, w, p) && InUse(s'.t, p)
  {
    hide Translate, RootsKept, AnonPage, SpaceOk, Grows, EntryFor, X86Flags, Zeros, Grants, MappedOnly;
    forall p: nat | Backs(s.mem, spaces, p) && !LeafAt(s.mem, target, w, p) ensures Backs(s'.mem, spaces, p) {
      var r: nat, v: nat :| BacksAt(s.mem, spaces, p, r, v);
      StillBacks(s, s', kernel, spaces, target, w, r, v, p);
    }
    forall p: nat | LeafAt(s.mem, target, w, p) ensures Lost(s.mem, s'.mem, spaces, p) && InUse(s'.t, p) {
      assert BacksAt(s.mem, spaces, p, target, w);
      OwnerGone(s, s', frame, target, w, spaces, own, p);
    }
    if Translate(s.mem, target, w) != Fault {
      assert LeafAt(s.mem, target, w, Translate(s.mem, target, w).frame);
    }
  }

  lemma StillBacks(s: State, s': State, kernel: nat, spaces: map<nat, seq<Area>>, target: nat, w: nat, r: nat, v: nat,
                   p: nat)
    requires AllSpaces(s.mem, s.tabs, kernel, spaces) && target in spaces && AnonPage(spaces[target], w)
    requires MappedOnly(s.mem, s'.mem, s.tabs, target, w) && BacksAt(s.mem, spaces, p, r, v)
    requires !LeafAt(s.mem, target, w, p)
    ensures Backs(s'.mem, spaces, p)
  {
    hide Translate, AnonPage, InRegion;
    AnonInRegion(spaces[r], r == kernel, v);
    AnonInRegion(spaces[target], target == kernel, w);
    MappedSlot(r == kernel, v);
    MappedSlot(target == kernel, w);
    RegionsApart(r == kernel, v, target == kernel, w);
    assert Translate(s'.mem, r, v) == Translate(s.mem, r, v);
    assert BacksAt(s'.mem, spaces, p, r, v);
  }

  /** Pages of a user region are in the lower half, pages of the kernel region are not. */
  lemma RegionsApart(k: bool, v: nat, l: bool, w: nat)
    requires InRegion(k, v) && InRegion(l, w)
    ensures (k != l ==> v != w) && (!l ==> w < HALF)
  {
  }

  lemma OwnerGone(s: State, s': State, frame: nat, target: nat, w: nat, spaces: map<nat, seq<Area>>, own: map<nat, Use>,
                  p: nat)
    requires Owned(s.mem, spaces, own) && Held(s.t, s.tabs, s.pages, own) && Keeps(s.t, s'.t)
    requires target in spaces && AnonPage(spaces[target], w) && LeafAt(s.mem, target, w, p)
    requires frame !in own && Owned(s'.mem, spaces, own[frame := Use(target, w)]) && LeafAt(s'.mem, target, w, frame)
    ensures InUse(s'.t, p) && !Backs(s'.mem, spaces, p)
  {
    hide Translate, AnonPage;
    assert own[p] == Use(target, w) && p != frame;
    forall r: nat, v: nat ensures !BacksAt(s'.mem, spaces, p, r, v) {
      if r in spaces && AnonPage(spaces[r], v) { OwnerOf(s'.mem, spaces, own[frame := Use(target, w)], r, v, p); }
    }
  }
}
