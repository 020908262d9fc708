/** Whole histories over the address-space manager: what a space leaves behind, and how a kernel page goes unseen. */
module Lifetimes {
  import opened Bits
  import opened Seqs
  import opened Tiling
  import opened Pmm
  import opened Entry
  import opened PageTable
  import opened Paging
  import opened Areas
  import opened Flags
  import opened Spaces
  import opened Effects
  import opened HeapPages
  import opened HeapSide
  import opened Descriptors
  import opened Kheap
  import opened Vmm
  import HeapCells

  /**
   Since state s0 a space was created and touched. What was taken is the root, new tables, the frames behind
   anonymous pages of the space, and frames of the heap; all of it had been free.
   */
  ghost predicate Lived(s0: State, s: State, user: nat, areas: seq<Area>, taken: set<nat>) {
    && |s.t| == |s0.t|
    && (forall p: nat | p < |s.t| && s.t[p].status == Free :: s0.t[p].status == Free)
    && (forall p: nat | p < |s.t| && s0.t[p].status == Free && s.t[p].status != Free ::
          p == user || p in s.tabs || p in taken || AnonLeaf(s.mem, user, areas, p))
    && (forall g | g in s0.tabs :: g in s.tabs)
    && (forall g | g in s.tabs && g !in s0.tabs :: g < |s.t| && s0.t[g].status == Free)
    && (forall p: nat | p in taken || AnonLeaf(s.mem, user, areas, p) :: p < |s.t| && s0.t[p].status == Free)
  }

  /** The heap's frames have nothing to do with the spaces. */
  ghost predicate Apart(s: State, own: map<nat, Use>, taken: set<nat>) {
    forall p | p in taken :: Aside(s.t, s.tabs, own, p)
  }

  lemma ApartStays(s: State, s': State, own: map<nat, Use>, own': map<nat, Use>, taken: set<nat>)
    requires Apart(s, own, taken) && AsideKept(s, s', own, own')
    ensures Apart(s', own', taken)
  {
    hide Aside;
  }

  /** A fault on a page that was not mapped adds one leaf to the space. */
  lemma LeafAdded(s: State, s': State, user: nat, areas: seq<Area>, frame: nat, w: nat, flags: nat)
    requires Faulted(s, s', frame, user, w, flags) && IsRoot(s.tabs, user) && Translate(s.mem, user, w) == Fault
    requires AreasOk(areas, false) && AnonPage(areas, w)
    ensures forall p: nat :: AnonLeaf(s'.mem, user, areas, p) <==> AnonLeaf(s.mem, user, areas, p) || p == frame
  {
    hide Translate, AnonPage, RootsKept, Grows, EntryFor, X86Flags, Zeros, Grants;
    assert LeafAt(s'.mem, user, w, frame);
    forall v: nat, p: nat | AnonPage(areas, v) && v != w
      ensures LeafAt(s'.mem, user, v, p) <==> LeafAt(s.mem, user, v, p)
    {
      AnonInRegion(areas, false, v);
      MappedSlot(false, v);
    }
    forall p: nat | AnonLeaf(s.mem, user, areas, p) ensures AnonLeaf(s'.mem, user, areas, p) {
      var v: nat :| AnonPage(areas, v) && LeafAt(s.mem, user, v, p);
      assert LeafAt(s'.mem, user, v, p);
    }
    forall p: nat | AnonLeaf(s'.mem, user, areas, p) && p != frame ensures AnonLeaf(s.mem, user, areas, p) {
      var v: nat :| AnonPage(areas, v) && LeafAt(s'.mem, user, v, p);
      assert LeafAt(s.mem, user, v, p);
    }
  }

  lemma LivedFault(s0: State, s: State, s': State, user: nat, areas: seq<Area>, frame: nat, w: nat, flags: nat,
                   taken: set<nat>)
    requires Lived(s0, s, user, areas, taken) && Faulted(s, s', frame, user, w, flags)
    requires IsRoot(s.tabs, user) && Translate(s.mem, user, w) == Fault && AreasOk(areas, false) && AnonPage(areas, w)
    ensures Lived(s0, s', user, areas, taken)
  {
    hide Translate, AnonPage, RootsKept, EntryFor, X86Flags, Zeros, Grants, MappedOnly, AnonLeaf, AreasOk;
    LeafAdded(s, s', user, areas, frame, w, flags);
    forall p: nat | p < |s'.t| && s'.t[p].status == Free ensures s0.t[p].status == Free {
      assert s.t[p].status == Free;
    }
    forall p: nat | p < |s'.t| && s0.t[p].status == Free && s'.t[p].status != Free
      ensures p == user || p in s'.tabs || p in taken || AnonLeaf(s'.mem, user, areas, p)
    {
      assert s.t[p].status != Free ==> p == user || p in s.tabs || p in taken || AnonLeaf(s.mem, user, areas, p);
    }
  }

  /** The heap grew meanwhile. */
  lemma LivedGrew(s0: State, s: State, s': State, user: nat, areas: seq<Area>, kernel: nat, w0: nat, taken: set<nat>,
                  more: set<nat>, own: map<nat, Use>)
    requires Lived(s0, s, user, areas, taken) && Apart(s, own, taken) && HeapGrew(s, s', kernel, w0, more)
    requires HEAP_PAGE <= w0 && IsRoot(s.tabs, user) && AreasOk(areas, false) && Held(s.t, s.tabs, s.pages, own)
    ensures Lived(s0, s', user, areas, taken + more) && Apart(s', own, taken + more)
  {
    hide Translate, AnonPage, RootsFrom, AreasOk, Extends;
    ExtendsGives(s, s');
    SameAnonLeaves(s, s', user, areas, kernel, w0, more);
    ExtendsAside(s, s', own);
    forall p | p in taken ensures Aside(s'.t, s'.tabs, own, p) { assert Aside(s.t, s.tabs, own, p); }
    forall p: nat | p < |s'.t| && s0.t[p].status == Free && s'.t[p].status != Free
      ensures p == user || p in s'.tabs || p in taken + more || AnonLeaf(s'.mem, user, areas, p)
    {
      if s.t[p].status == Free { assert p in more || p in s'.tabs; }
    }
    forall p | p in more ensures s0.t[p].status == Free && Aside(s'.t, s'.tabs, own, p) { assert TakenFrame(s, s', p); }
  }

  lemma SameAnonLeaves(s: State, s': State, user: nat, areas: seq<Area>, kernel: nat, w0: nat, more: set<nat>)
    requires HeapGrew(s, s', kernel, w0, more) && HEAP_PAGE <= w0 && IsRoot(s.tabs, user) && AreasOk(areas, false)
    ensures forall p: nat :: AnonLeaf(s'.mem, user, areas, p) <==> AnonLeaf(s.mem, user, areas, p)
  {
    hide Translate, AnonPage, RootsFrom, Extends;
    forall v: nat, p: nat | AnonPage(areas, v) ensures LeafAt(s'.mem, user, v, p) <==> LeafAt(s.mem, user, v, p) {
      AnonInRegion(areas, false, v);
    }
  }

  /** What the destruction leaves: the free frames of the start without the new tables and the frames of the heap. */
  lemma LivedEnd(s0: State, s: State, s': State, user: nat, areas: seq<Area>, own: map<nat, Use>,
                 spaces: map<nat, seq<Area>>, taken: set<nat>)
    requires Lived(s0, s, user, areas, taken) && user in s.tabs && user !in s0.tabs && user in spaces
    requires spaces[user] == areas && Apart(s, own, taken)
    requires forall g | g in s.tabs :: InUse(s.t, g)
    requires forall g | g in s0.tabs :: InUse(s0.t, g)
    requires Owned(s.mem, spaces, own) && Held(s.t, s.tabs, s.pages, own)
    requires s'.tabs == s.tabs - {user} && |s'.t| == |s.t|
    requires forall p: nat | p < |s'.t| ::
               s'.t[p].status == Free <==> s.t[p].status == Free || p == user || AnonLeaf(s.mem, user, areas, p)
    ensures |s'.t| == |s0.t|
    ensures forall p: nat | p < |s'.t| ::
              s'.t[p].status == Free <==> s0.t[p].status == Free && !(p in s'.tabs && p !in s0.tabs) && p !in taken
  {
    hide Translate, AnonPage;
    forall p: nat | AnonLeaf(s.mem, user, areas, p) ensures p !in s.tabs && p !in taken {
      var v: nat :| AnonPage(areas, v) && LeafAt(s.mem, user, v, p);
      assert p in own;
    }
  }

  // ----- a life -----

  /** What a process has done to its memory: vmm_alloc of an area, an access, vmm_free */
  datatype Act = Reserve(size: nat, flags: nat) | Touch(addr: nat) | Release(addr: nat)

  /** Sizes are words, areas are not I/O memory, and accesses are to the lower half. */
  predicate Plain(act: Act) {
    match act
    case Reserve(size, flags) => size < U64 && !Has(flags, MMIO)
    case Touch(addr) => addr < 0x8000_0000_0000
    case Release(_) => true
  }

  /**
   How a life ends: by destruction, in a halt of the kernel, by an area outside the region, or because the heap has
   come to the end of the address space
   */
  datatype Fate = Destroyed | Panicked | Strayed | Crowded

  ghost predicate OnlyLazy(areas: seq<Area>) {
    forall i | 0 <= i < |areas| :: !IsMmio(areas[i])
  }

  ghost predicate Lives(mgr: Manager, s0: State, user: nat, taken: set<nat>)
    reads mgr, mgr.heap, mgr.m, mgr.m.pmm, mgr.m.pmm.pages, mgr.m.pmm.links, mgr.m.pmm.nrFree
  {
    && mgr.Valid() && user in mgr.spaces && user != mgr.kernel && OnlyLazy(mgr.spaces[user])
    && Lived(s0, mgr.m.Now(), user, mgr.spaces[user], taken) && Apart(mgr.m.Now(), mgr.own, taken)
  }

  /** The heap can be extended once more. */
  predicate Roomy(end: nat) { end + 2 * HeapCells.EXTENSION < U64 }

  lemma RoomEnough(heap: Heap)
    requires Roomy(heap.end)
    ensures heap.Room(DESCRIPTOR)
  {
    assert HeapCells.RoundUp(DESCRIPTOR) == DESCRIPTOR;
  }

  method Birth(mgr: Manager) returns (user: nat, ok: bool, ghost taken: set<nat>)
    requires mgr.Valid() && Roomy(mgr.heap.end)
    modifies mgr.heap`end, mgr.heap`head, mgr.heap`hdr, mgr.heap`cells, mgr`spaces, mgr`vas, mgr`nodes, mgr`held
    modifies mgr.m`mem, mgr.m`tabs, mgr.m.pmm.pages, mgr.m.pmm.links, mgr.m.pmm.nrFree, mgr.m.pmm`lists, mgr.m.pmm`t
    ensures ok ==> Lives(mgr, old(mgr.m.Now()), user, taken) && mgr.spaces == old(mgr.spaces)[user := []]
    ensures ok ==> user !in old(mgr.spaces) && user !in old(mgr.m.tabs)
    ensures ok ==> forall g | g in old(mgr.m.tabs) :: InUse(old(mgr.m.pmm.t), g)
    ensures !ok ==> NoFree(mgr.m.pmm.t)
  {
    hide Machine.Valid, Buddies.ValidBut, Translate, AllSpaces, AllSee, Owned, Held, NoFree, Lived, SameTranslations,
         SameOthers, Shares, HeapGrew, AsideKept, Manager.HeapPart, Described, Apart, HeapCells.Live, Heap.Room,
         PageOf;
    ghost var s0 := mgr.m.Now();
    RootsOf(mgr.m.mem, mgr.m.tabs, mgr.kernel, mgr.spaces);
    TablesHeld(mgr);
    RoomEnough(mgr.heap);
    var halted; ghost var s1;
    user, ok, halted, s1, taken := mgr.NewSpace();
    if ok { LivedBirth(s0, s1, mgr.m.Now(), user, mgr.kernel, PageOf(old(mgr.heap.end)), taken, mgr.own); }
  }

  lemma LivedBirth(s0: State, s1: State, s: State, user: nat, kernel: nat, w0: nat, taken: set<nat>, own: map<nat, Use>)
    requires HeapGrew(s0, s1, kernel, w0, taken) && |s.t| == |s1.t| && user !in s1.tabs
    requires user < |s1.t| && s1.t[user].status == Free && s.tabs == s1.tabs[user := Table(4, 0, user)]
    requires forall p: nat | p < |s.t| && p != user :: s.t[p].status == Free <==> s1.t[p].status == Free
    requires AsideKept(s1, s, own, own) && Held(s0.t, s0.tabs, s0.pages, own)
    ensures Lived(s0, s, user, [], taken) && Apart(s, own, taken) && user !in s0.tabs
  {
    hide Translate, RootsFrom, Extends;
    ExtendsGives(s0, s1);
    forall p | p in taken ensures Aside(s.t, s.tabs, own, p) && s0.t[p].status == Free {
      assert TakenFrame(s0, s1, p);
      assert Aside(s1.t, s1.tabs, own, p);
    }
    forall p: nat | p < |s.t| && s0.t[p].status == Free && s.t[p].status != Free
      ensures p == user || p in s.tabs || p in taken
    {
      if p != user { assert p in taken || p in s1.tabs; }
    }
  }

  /** vmm_alloc of an area that is not I/O memory; the area is inside the region exactly when there was a gap. */
  method ReserveArea(mgr: Manager, user: nat, size: nat, flags: nat, ghost s0: State, ghost taken: set<nat>)
    returns (fate: Fate, ghost all: set<nat>)
    requires Lives(mgr, s0, user, taken) && size < U64 && !Has(flags, MMIO) && Roomy(mgr.heap.end)
    modifies mgr.heap`end, mgr.heap`head, mgr.heap`hdr, mgr.heap`cells, mgr`spaces, mgr`nodes, mgr`held
    modifies mgr.m`mem, mgr.m`tabs, mgr.m.pmm.pages, mgr.m.pmm.links, mgr.m.pmm.nrFree, mgr.m.pmm`lists, mgr.m.pmm`t
    ensures fate != Panicked ==> user in mgr.spaces && mgr.spaces == old(mgr.spaces)[user := mgr.spaces[user]]
    ensures fate == Destroyed ==> Lives(mgr, s0, user, all)
    ensures fate == Strayed ==> exists a :: a in mgr.spaces[user] && a.End() > USER_END
    ensures fate == Panicked ==> NoFree(mgr.m.pmm.t) || !Has(flags, ANON)
    ensures fate != Crowded
  {
    hide Machine.Valid, Buddies.ValidBut, Translate, AllSpaces, AllSee, Owned, Held, NoFree, Lived, Search, Fits,
         HasGap, AnonLeaf, Has, And, AreasOk, Words, Manager.HeapPart, Described, Apart, HeapGrew, AsideKept,
         HeapCells.Live, Heap.Room, PageOf, Builds, RegionMapped, OnlyLazy;
    ghost var s, areas, spaces0 := mgr.m.Now(), mgr.spaces[user], mgr.spaces;
    SpacesAreas(mgr.m.mem, mgr.m.tabs, mgr.kernel, mgr.spaces, user);
    mgr.m.Sane();
    RoomEnough(mgr.heap);
    var r; ghost var i, s1, more, node;
    r, i, s1, more, node := mgr.Alloc(user, size, flags, 0);
    all := taken + more;
    if r == Halt { return Panicked, all; }
    GrewSpaces(s, s1, mgr.kernel, PageOf(old(mgr.heap.end)), more, spaces0, mgr.own);
    LivedGrew(s0, s, s1, user, areas, mgr.kernel, PageOf(old(mgr.heap.end)), taken, more, mgr.own);
    if r == Null { return Destroyed, all; }
    ghost var a := Area(r.addr, PageUp(size), AreaFlags(flags, false));
    assert Insert(areas, i, a)[i] == a;
    assert a in mgr.spaces[user];
    if r.addr + PageUp(size) > USER_END { return Strayed, all; }
    PlacedInside(areas, PageUp(size), i, r.addr);
    SpacesAreas(mgr.m.mem, mgr.m.tabs, mgr.kernel, mgr.spaces, user);
    LazyFlags(flags);
    LivedReserve(s0, s1, user, mgr.kernel, spaces0, i, a, all);
    fate := Destroyed;
  }

  lemma LazyFlags(flags: nat)
    requires !Has(flags, MMIO)
    ensures !Has(AreaFlags(flags, false), MMIO)
  {
  }

  lemma PlacedInside(areas: seq<Area>, n: nat, i: nat, a: nat)
    requires AreasOk(areas, false) && Words(areas) && 0 < n < U64 && a + n <= USER_END
    requires Search(areas, 0, USER_START, USER_END, n) == (true, i, a)
    ensures HasGap(areas, USER_START, USER_END, n)
  {
    SearchLowest(areas, 0, USER_START, USER_END, n, USER_START);
  }

  /** No page of the new area is mapped. */
  lemma LivedReserve(s0: State, s: State, user: nat, kernel: nat, spaces: map<nat, seq<Area>>, i: nat, a: Area,
                     taken: set<nat>)
    requires AllSpaces(s.mem, s.tabs, kernel, spaces) && user in spaces && user != kernel && i <= |spaces[user]|
    requires AreasOk(Insert(spaces[user], i, a), false) && Lived(s0, s, user, spaces[user], taken)
    requires OnlyLazy(spaces[user]) && !IsMmio(a)
    ensures var areas := Insert(spaces[user], i, a); Lived(s0, s, user, areas, taken) && OnlyLazy(areas)
  {
    hide Translate, IsMmio, Covers;
    var areas, all := spaces[user], Insert(spaces[user], i, a);
    forall j | 0 <= j < |all| ensures !IsMmio(all[j]) {
      assert all[j] == if j < i then areas[j] else if j == i then a else areas[j - 1];
    }
    forall p: nat ensures AnonLeaf(s.mem, user, all, p) <==> AnonLeaf(s.mem, user, areas, p) {
      SameLeaves(s.mem, user, areas, i, a, p);
    }
  }

  lemma SameLeaves(mem: Memory, user: nat, areas: seq<Area>, i: nat, a: Area, p: nat)
    requires SpaceOk(mem, user, false, areas) && i <= |areas| && AreasOk(Insert(areas, i, a), false)
    ensures AnonLeaf(mem, user, Insert(areas, i, a), p) <==> AnonLeaf(mem, user, areas, p)
  {
    hide Translate, AnonPage, Covers, SpaceOk, AreasOk, Insert;
    forall v: nat | LeafAt(mem, user, v, p) ensures AnonPage(Insert(areas, i, a), v) <==> AnonPage(areas, v) {
      InsertCovers(areas, i, a, v);
      if Covers(a, v) { NewPageUnmapped(mem, user, false, areas, i, a, v); }
    }
  }

  /** An access to the lower half: the processor faults when the page is not mapped. */
  method TouchPage(mgr: Manager, user: nat, addr: nat, ghost s0: State, ghost taken: set<nat>) returns (halted: bool)
    requires Lives(mgr, s0, user, taken) && addr < 0x8000_0000_0000
    modifies mgr`own
    modifies mgr.m`mem, mgr.m`tabs, mgr.m.pmm.pages, mgr.m.pmm.links, mgr.m.pmm.nrFree, mgr.m.pmm`lists, mgr.m.pmm`t
    ensures !halted ==> Lives(mgr, s0, user, taken) && Translate(mgr.m.mem, user, PageOf(addr)) != Fault
    ensures halted ==> NoFree(mgr.m.pmm.t) || NoArea(mgr.spaces, user, addr)
  {
    hide Machine.Valid, Buddies.ValidBut, Translate, AllSpaces, AllSee, Owned, Held, NoFree, Lived, AnonLeaf, IsMmio,
         AreasOk, MappedOnly, RootsKept, Grows, X86Flags, EntryFor, Zeros, Grants, NoArea, Manager.HeapPart, Described,
         Apart, AsideKept;
    RootsOf(mgr.m.mem, mgr.m.tabs, mgr.kernel, mgr.spaces);
    SpacesAreas(mgr.m.mem, mgr.m.tabs, mgr.kernel, mgr.spaces, user);
    ghost var s, areas, own0 := mgr.m.Now(), mgr.spaces[user], mgr.own;
    if Translate(mgr.m.mem, user, PageOf(addr)) != Fault { return false; }
    ghost var frame, j;
    halted, frame, j := mgr.PageFault(addr, false, user);
    if halted { return; }
    TouchedPage(areas, j, addr);
    LivedFault(s0, s, mgr.m.Now(), user, areas, frame, PageOf(addr), areas[j].flags, taken);
    ApartStays(s, mgr.m.Now(), own0, mgr.own, taken);
  }

  lemma TouchedPage(areas: seq<Area>, j: nat, addr: nat)
    requires AreasOk(areas, false) && j < |areas| && areas[j].Has(addr) && !IsMmio(areas[j])
    ensures AnonPage(areas, PageOf(addr))
  {
    AddressCovered(areas[j], false, addr);
  }

  /** vmm_free of any address */
  method ReleaseArea(mgr: Manager, user: nat, addr: nat, ghost s0: State, ghost taken: set<nat>)
    requires Lives(mgr, s0, user, taken)
    modifies mgr.heap`hdr, mgr.heap`cells, mgr`spaces, mgr`own, mgr`nodes, mgr`held
    modifies mgr.m`mem, mgr.m`tabs, mgr.m.pmm.pages, mgr.m.pmm.links, mgr.m.pmm.nrFree, mgr.m.pmm`lists, mgr.m.pmm`t
    ensures Lives(mgr, s0, user, taken) && mgr.spaces == old(mgr.spaces)[user := mgr.spaces[user]]
  {
    hide Machine.Valid, Buddies.ValidBut, Translate, AllSpaces, AllSee, Owned, Held, NoFree, Lived, AnonLeaf, IsMmio,
         AreasOk, RegionMapped, GivenBack, AreaFreed, Manager.HeapPart, Described, Apart, AsideKept, HeapCells.Live;
    RootsOf(mgr.m.mem, mgr.m.tabs, mgr.kernel, mgr.spaces);
    SpacesAreas(mgr.m.mem, mgr.m.tabs, mgr.kernel, mgr.spaces, user);
    ghost var s, areas, own0 := mgr.m.Now(), mgr.spaces[user], mgr.own;
    var freed, i := mgr.FreeArea(user, addr);
    ApartStays(s, mgr.m.Now(), own0, mgr.own, taken);
    if freed { LivedRelease(s0, s, mgr.m.Now(), user, areas, i, taken); }
  }

  lemma LivedRelease(s0: State, s: State, s': State, user: nat, areas: seq<Area>, i: nat,
                     taken: set<nat>)
    requires Lived(s0, s, user, areas, taken) && OnlyLazy(areas) && AreasOk(areas, false) && i < |areas|
    requires IsRoot(s.tabs, user) && s'.tabs == s.tabs && AreaFreed(s, s', user, areas[i])
    ensures Lived(s0, s', user, RemoveAt(areas, i), taken) && OnlyLazy(RemoveAt(areas, i))
  {
    hide Translate, IsMmio, Covers, RegionMapped, AreasOk, AnonPage;
    var rest := RemoveAt(areas, i);
    forall j | 0 <= j < |rest| ensures !IsMmio(rest[j]) { assert rest[j] == areas[if j < i then j else j + 1]; }
    forall p: nat ensures AnonLeaf(s'.mem, user, rest, p) ==> AnonLeaf(s.mem, user, areas, p)
      ensures AnonLeaf(s.mem, user, areas, p) ==>
                AnonLeaf(s'.mem, user, rest, p) || IsLeafOf(s.mem, user, Lo(areas[i]), Hi(areas[i]), p)
      ensures IsLeafOf(s.mem, user, Lo(areas[i]), Hi(areas[i]), p) ==> AnonLeaf(s.mem, user, areas, p)
    {
      RestLeaves(s.mem, s'.mem, s.tabs, user, areas, i, p);
    }
  }

  /** The frames behind anonymous pages are those of the released area and those that stay. */
  lemma RestLeaves(mem: Memory, mem': Memory, tabs: map<nat, Table>, user: nat, areas: seq<Area>, i: nat, p: nat)
    requires OnlyLazy(areas) && AreasOk(areas, false) && i < |areas| && IsRoot(tabs, user)
    requires RegionMapped(mem, mem', tabs, user, Lo(areas[i]), 1, areas[i].size / PAGE, Erase)
    ensures AnonLeaf(mem', user, RemoveAt(areas, i), p) ==> AnonLeaf(mem, user, areas, p)
    ensures AnonLeaf(mem, user, areas, p) ==>
              AnonLeaf(mem', user, RemoveAt(areas, i), p) || IsLeafOf(mem, user, Lo(areas[i]), Hi(areas[i]), p)
    ensures IsLeafOf(mem, user, Lo(areas[i]), Hi(areas[i]), p) ==> AnonLeaf(mem, user, areas, p)
  {
    hide Translate, IsMmio, RegionMapped, AreasOk;
    var rest := RemoveAt(areas, i);
    if AnonLeaf(mem', user, rest, p) {
      var v: nat :| AnonPage(rest, v) && LeafAt(mem', user, v, p);
      RemainingPage(mem, mem', tabs, user, false, areas, i, v);
      assert LeafAt(mem, user, v, p);
    }
    if AnonLeaf(mem, user, areas, p) {
      var v: nat :| AnonPage(areas, v) && LeafAt(mem, user, v, p);
      var j :| 0 <= j < |areas| && !IsMmio(areas[j]) && Covers(areas[j], v);
      if j != i {
        assert rest[if j < i then j else j - 1] == areas[j];
        assert AnonPage(rest, v);
        RemainingPage(mem, mem', tabs, user, false, areas, i, v);
        assert LeafAt(mem', user, v, p);
      }
    }
    if IsLeafOf(mem, user, Lo(areas[i]), Hi(areas[i]), p) {
      var v: nat :| Lo(areas[i]) <= v < Hi(areas[i]) && LeafAt(mem, user, v, p);
      assert Covers(areas[i], v);
      assert AnonPage(areas, v);
    }
  }

  /**
   The life of a space: it is created, any areas are reserved, touched and released in any order, and it is
   destroyed. In the end exactly the frames are free that were free before, without the tables created below the
   root, which vmm_destroy_address_space does not give back, and without the frames the heap took for descriptors.
   */
  method Life(mgr: Manager, acts: seq<Act>) returns (fate: Fate, user: nat, k: nat, ghost taken: set<nat>)
    requires mgr.Valid() && forall i | 0 <= i < |acts| :: Plain(acts[i])
    modifies mgr.heap`end, mgr.heap`head, mgr.heap`hdr, mgr.heap`cells
    modifies mgr`spaces, mgr`own, mgr`vas, mgr`nodes, mgr`held
    modifies mgr.m`mem, mgr.m`tabs, mgr.m.pmm.pages, mgr.m.pmm.links, mgr.m.pmm.nrFree, mgr.m.pmm`lists, mgr.m.pmm`t
    ensures fate == Destroyed ==> mgr.Valid() && mgr.spaces == old(mgr.spaces) && Apart(mgr.m.Now(), mgr.own, taken)
    ensures fate == Destroyed ==> |mgr.m.pmm.t| == |old(mgr.m.pmm.t)| && forall p: nat | p < |mgr.m.pmm.t| ::
              mgr.m.pmm.t[p].status == Free <==>
              old(mgr.m.pmm.t)[p].status == Free && !(p in mgr.m.tabs && p !in old(mgr.m.tabs)) && p !in taken
    ensures fate == Panicked ==> NoFree(mgr.m.pmm.t) || (k < |acts| && acts[k].Reserve? && !Has(acts[k].flags, ANON))
                                 || (k < |acts| && acts[k].Touch? && NoArea(mgr.spaces, user, acts[k].addr))
    ensures fate == Strayed ==> k < |acts| && acts[k].Reserve? && user in mgr.spaces
    ensures fate == Strayed ==> exists a :: a in mgr.spaces[user] && a.End() > USER_END
    ensures fate == Crowded ==> !Roomy(mgr.heap.end)
  {
    hide Manager.Valid, Lived, Apart, NoFree, NoArea, Has, OnlyLazy;
    ghost var s0 := mgr.m.Now();
    user, k, taken := 0, 0, {};
    if !Roomy(mgr.heap.end) { return Crowded, user, k, taken; }
    var ok;
    user, ok, taken := Birth(mgr);
    if !ok { return Panicked, user, k, taken; }
    while k < |acts|
      invariant 0 <= k <= |acts| && Lives(mgr, s0, user, taken)
      invariant mgr.spaces == old(mgr.spaces)[user := mgr.spaces[user]]
    {
      if !Roomy(mgr.heap.end) { return Crowded, user, k, taken; }
      match acts[k] {
        case Reserve(size, flags) =>
          fate, taken := ReserveArea(mgr, user, size, flags, s0, taken);
          if fate != Destroyed { return; }
        case Touch(addr) =>
          var halted := TouchPage(mgr, user, addr, s0, taken);
          if halted { return Panicked, user, k, taken; }
        case Release(addr) =>
          ReleaseArea(mgr, user, addr, s0, taken);
      }
      k := k + 1;
    }
    Death(mgr, user, s0, taken);
    fate := Destroyed;
  }

  /** vmm_destroy_address_space at the end of a life */
  method Death(mgr: Manager, user: nat, ghost s0: State, ghost taken: set<nat>)
    requires Lives(mgr, s0, user, taken) && user !in s0.tabs && forall g | g in s0.tabs :: InUse(s0.t, g)
    modifies mgr.heap`hdr, mgr.heap`cells, mgr`spaces, mgr`own, mgr`vas, mgr`nodes, mgr`held
    modifies mgr.m`mem, mgr.m`tabs, mgr.m.pmm.pages, mgr.m.pmm.links, mgr.m.pmm.nrFree, mgr.m.pmm`lists, mgr.m.pmm`t
    ensures mgr.Valid() && mgr.spaces == old(mgr.spaces) - {user} && Apart(mgr.m.Now(), mgr.own, taken)
    ensures |mgr.m.pmm.t| == |s0.t| && forall p: nat | p < |mgr.m.pmm.t| ::
              mgr.m.pmm.t[p].status == Free <==>
              s0.t[p].status == Free && !(p in mgr.m.tabs && p !in s0.tabs) && p !in taken
  {
    hide Machine.Valid, Buddies.ValidBut, Translate, AllSpaces, AllSee, Owned, Held, Lived, AnonLeaf, InUse, OnlyLazy,
         Manager.HeapPart, Described, Apart, AsideKept;
    ghost var s, own, spaces := mgr.m.Now(), mgr.own, mgr.spaces;
    LivedUser(mgr, user);
    TablesHeld(mgr);
    mgr.Destroy(user);
    LivedEnd(s0, s, mgr.m.Now(), user, spaces[user], own, spaces, taken);
    ApartStays(s, mgr.m.Now(), own, mgr.own, taken);
  }

  lemma TablesHeld(mgr: Manager)
    requires mgr.Valid()
    ensures forall g | g in mgr.m.tabs :: InUse(mgr.m.pmm.t, g)
  {
  }

  lemma LivedUser(mgr: Manager, user: nat)
    requires mgr.Valid() && user in mgr.spaces
    ensures user in mgr.m.tabs
  {
  }

  lemma AnonFlag()
    ensures Has(ANON, ANON) && !Has(ANON, MMIO) && AreaFlags(ANON, false) == ANON && !Has(ANON, USER)
    ensures AreaFlags(ANON, true) == ANON
  {
    hide And;
    assert Pow2(4) == ANON && Pow2(5) == MMIO && Pow2(3) == USER;
    AndUnits(4, 4);
    AndUnits(4, 5);
    AndUnits(4, 3);
  }

  // ----- a kernel page that goes unseen -----

  /** On the slot of the first kernel page, before anything was mapped in the kernel half */
  lemma FirstKernelPage()
    ensures var w := PageOf(KERNEL_START); HALF <= w < Span(4) && InRegion(true, w)
  {
  }

  lemma KernelGap()
    ensures HasGap([], KERNEL_START, KERNEL_END, PAGE)
    ensures Search([], 0, KERNEL_START, KERNEL_END, PAGE) == (true, 0, KERNEL_START)
  {
    assert FreeAt([], KERNEL_START, PAGE);
  }

  /** Where the kernel image is linked */
  const KERNEL_IMAGE: nat := 0xFFFF_FFFF_8000_0000

  /** The root slot of the first kernel page is empty. */
  ghost predicate SlotEmpty(mem: Memory, root: nat) {
    root in mem && |mem[root]| == 512 && mem[root][Index(PageOf(KERNEL_START), 4)] == 0
  }

  /** pmm_init is over: paging_init's root table, kheap_init and vmm_init, with nothing mapped but the heap */
  method ColdKernel(machine: Machine, kernelEnd: nat) returns (mgr: Manager?)
    requires machine.Valid() && machine.tabs == map[] && KERNEL_IMAGE <= kernelEnd
    requires HeapStart(kernelEnd) + 8 * HeapCells.EXTENSION < U64
    modifies machine`mem, machine`tabs
    modifies machine.pmm.pages, machine.pmm.links, machine.pmm.nrFree, machine.pmm`lists, machine.pmm`t
    ensures mgr == null ==> NoFree(machine.pmm.t)
    ensures mgr != null ==> fresh(mgr) && fresh(mgr.heap) && mgr.Valid() && mgr.m == machine
    ensures mgr != null ==> mgr.heap.end + 5 * HeapCells.EXTENSION < U64
    ensures mgr != null ==> mgr.spaces == map[mgr.kernel := []] && SlotEmpty(machine.mem, mgr.kernel)
  {
    hide Machine.Valid, Buddies.ValidBut, Translate, NoFree, SameTranslations, InRegion, Index, HeapGrew,
         Manager.Valid, Heap.Valid, Heap.Room, PageOf, NoHuge, SlotEmpty;
    var root, ok := machine.FirstRoot();
    if !ok { return null; }
    ghost var s0 := machine.Now();
    ColdTables(s0, root, kernelEnd);
    var heap := new Heap(machine, root, kernelEnd);
    ghost var w0, s1 := PageOf(heap.start), machine.Now();
    ghost var taken :| HeapGrew(s0, s1, root, w0, taken);
    ColdGrown(s0, s1, root, w0, taken, root);
    RegionUnmapped(s0, s1, root, w0, taken);
    RoomEnough(heap);
    HeapEnd(heap);
    ghost var w1 := PageOf(heap.end);
    ghost var more;
    mgr, more := Init(heap);
    ColdGrown(s1, machine.Now(), root, w1, more, root);
  }

  lemma ColdTables(s: State, root: nat, kernelEnd: nat)
    requires IsRoot(s.tabs, root) && root in s.mem && s.mem[root] == Zeros() && KERNEL_IMAGE <= kernelEnd
    requires HeapStart(kernelEnd) < U64 && forall w: nat | w < Span(4) :: Translate(s.mem, root, w) == Fault
    ensures SlotEmpty(s.mem, root) && HEAP_PAGE <= PageOf(HeapStart(kernelEnd)) && UPPER <= kernelEnd
    ensures forall v: nat | v < Span(4) :: NoHuge(s.mem, root, v)
    ensures forall v: nat | InRegion(true, v) :: Translate(s.mem, root, v) == Fault
  {
    hide Translate;
    UpperPage(HeapStart(kernelEnd));
  }

  lemma HeapEnd(heap: Heap)
    requires heap.Valid() && HEAP_PAGE <= PageOf(heap.start)
    ensures HEAP_PAGE <= PageOf(heap.end) && IsRoot(heap.m.tabs, heap.root)
  {
    hide PageOf;
    StartPages(heap.start, heap.end);
  }

  /** The heap's tables hang from the last root slot. */
  lemma ColdGrown(s: State, s': State, kernel: nat, w0: nat, taken: set<nat>, r: nat)
    requires HeapGrew(s, s', kernel, w0, taken) && HEAP_PAGE <= w0 && IsRoot(s.tabs, r) && SlotEmpty(s.mem, r)
    ensures SlotEmpty(s'.mem, r) && IsRoot(s'.tabs, r)
  {
    hide Translate;
    TopIndexGrows(HEAP_PAGE, w0);
    assert Index(PageOf(KERNEL_START), 4) == 384 && Index(HEAP_PAGE, 4) == 511;
  }

  /** The kernel and a second space */
  method ColdSpace(machine: Machine, kernelEnd: nat) returns (mgr: Manager?, user: nat)
    requires machine.Valid() && machine.tabs == map[] && KERNEL_IMAGE <= kernelEnd
    requires HeapStart(kernelEnd) + 8 * HeapCells.EXTENSION < U64
    modifies machine`mem, machine`tabs
    modifies machine.pmm.pages, machine.pmm.links, machine.pmm.nrFree, machine.pmm`lists, machine.pmm`t
    ensures mgr == null ==> NoFree(machine.pmm.t)
    ensures mgr != null ==> fresh(mgr) && fresh(mgr.heap) && mgr.Valid() && mgr.m == machine && user != mgr.kernel
    ensures mgr != null ==> mgr.spaces == map[mgr.kernel := [], user := []] && SlotEmpty(machine.mem, user)
    ensures mgr != null ==> mgr.heap.end + 4 * HeapCells.EXTENSION < U64
  {
    hide Manager.Valid, Translate, NoFree, SameTranslations, HeapGrew, AsideKept, HeapCells.Live, HeapCells.Fits,
         Heap.Room, PageOf, SlotEmpty, Shares, SameOthers, AllSpaces, Owned, Held;
    user := 0;
    mgr := ColdKernel(machine, kernelEnd);
    if mgr == null { return; }
    ghost var kernel, s0, w0 := mgr.kernel, machine.Now(), PageOf(mgr.heap.end);
    ManagerFacts(mgr);
    RootsOf(machine.mem, machine.tabs, kernel, mgr.spaces);
    RoomEnough(mgr.heap);
    var ok, halted; ghost var s1, taken;
    user, ok, halted, s1, taken := mgr.NewSpace();
    if !ok { return null, 0; }
    ColdGrown(s0, s1, kernel, w0, taken, kernel);
    ColdShared(s1.mem, machine.mem, kernel, user);
  }

  /**
   A kernel with its heap, a second space, and one lazy kernel page: nothing is mapped in the region of the kernel's
   areas, so the root slot of the page is empty in both roots.
   */
  method ColdStart(machine: Machine, kernelEnd: nat) returns (mgr: Manager?, user: nat)
    requires machine.Valid() && machine.tabs == map[] && KERNEL_IMAGE <= kernelEnd
    requires HeapStart(kernelEnd) + 8 * HeapCells.EXTENSION < U64
    modifies machine`mem, machine`tabs
    modifies machine.pmm.pages, machine.pmm.links, machine.pmm.nrFree, machine.pmm`lists, machine.pmm`t
    ensures mgr == null ==> NoFree(machine.pmm.t)
    ensures mgr != null ==> fresh(mgr) && mgr.Valid() && mgr.m == machine && user in mgr.spaces && user != mgr.kernel
    ensures mgr != null ==> mgr.spaces == map[mgr.kernel := [Area(KERNEL_START, PAGE, ANON)], user := []]
    ensures mgr != null ==> SlotEmpty(machine.mem, user)
  {
    hide Manager.Valid, Translate, NoFree, Search, Fits, HasGap, Has, And, HeapGrew, AsideKept, HeapCells.Live,
         HeapCells.Fits, Heap.Room, PageOf, SlotEmpty, AllSpaces, Owned, Held, Builds, RegionMapped;
    mgr, user := ColdSpace(machine, kernelEnd);
    if mgr == null { return; }
    ghost var s0, w0 := machine.Now(), PageOf(mgr.heap.end);
    ManagerFacts(mgr);
    RootsOf(machine.mem, machine.tabs, mgr.kernel, mgr.spaces);
    KernelGap();
    AnonFlag();
    RoomEnough(mgr.heap);
    var r; ghost var i, s1, taken, node;
    r, i, s1, taken, node := mgr.Alloc(mgr.kernel, PAGE, ANON, 0);
    if !r.At? { return null, 0; }
    ColdGrown(s0, s1, mgr.kernel, w0, taken, user);
    assert Insert([], 0, Area(KERNEL_START, PAGE, ANON)) == [Area(KERNEL_START, PAGE, ANON)];
  }

  lemma ColdShared(mem: Memory, mem': Memory, kernel: nat, user: nat)
    requires SlotEmpty(mem, kernel) && SameOthers(mem, mem', user) && user != kernel && Shares(mem', kernel, user)
    ensures SlotEmpty(mem', user)
  {
    assert Index(PageOf(KERNEL_START), 4) == 384;
  }

  /**
   The input on which demand paging in the kernel fails: after the first fault the space that faulted still has no
   mapping, and the second fault takes another frame and loses the first, which stays in use behind no page.
   */
  method FaultsTwice(machine: Machine, kernelEnd: nat)
    returns (mgr: Manager?, user: nat, ghost first: nat, done: bool)
    requires machine.Valid() && machine.tabs == map[] && KERNEL_IMAGE <= kernelEnd
    requires HeapStart(kernelEnd) + 8 * HeapCells.EXTENSION < U64
    modifies machine`mem, machine`tabs
    modifies machine.pmm.pages, machine.pmm.links, machine.pmm.nrFree, machine.pmm`lists, machine.pmm`t
    ensures !done ==> NoFree(machine.pmm.t)
    ensures done ==> mgr != null && mgr.Valid() && mgr.m == machine && user in mgr.spaces
    ensures done ==> Translate(machine.mem, user, PageOf(KERNEL_START)) == Fault
    ensures done ==> InUse(machine.pmm.t, first) && !Backs(machine.mem, mgr.spaces, first) && first !in machine.tabs
  {
    hide Manager.Valid, Translate, NoFree, Has, And, AnonPage, SlotEmpty, PageOf, Faulted, Backs;
    first, done := 0, false;
    mgr, user := ColdStart(machine, kernelEnd);
    if mgr == null { return; }
    AnonFlag();
    AnonKernelPage(mgr.spaces[mgr.kernel]);
    var halted; ghost var s0, i, j, second := machine.Now(), 0, 0, 0;
    halted, first, i := FaultUnseen(mgr, user);
    if halted { return; }
    ghost var s1, own1 := machine.Now(), mgr.own;
    ManagerFacts(mgr);
    halted, second, j := FaultUnseen(mgr, user);
    if halted { return; }
    ManagerFacts(mgr);
    FirstBehind(s0, s1, mgr.kernel, mgr.spaces[mgr.kernel][i].flags, first);
    LostFirst(s1, machine.Now(), mgr.kernel, mgr.spaces, own1, first, second, mgr.spaces[mgr.kernel][j].flags);
    done := true;
  }

  lemma FirstBehind(s0: State, s1: State, kernel: nat, flags: nat, first: nat)
    requires Faulted(s0, s1, first, kernel, PageOf(KERNEL_START), flags)
    ensures LeafAt(s1.mem, kernel, PageOf(KERNEL_START), first) && InUse(s1.t, first) && first !in s1.tabs
  {
    hide Translate, PageOf, RootsKept, MappedOnly, EntryFor, X86Flags, Zeros, Grants;
  }

  lemma ManagerFacts(mgr: Manager)
    requires mgr.Valid()
    ensures AllSpaces(mgr.m.mem, mgr.m.tabs, mgr.kernel, mgr.spaces) && Owned(mgr.m.mem, mgr.spaces, mgr.own)
    ensures Held(mgr.m.pmm.t, mgr.m.tabs, mgr.m.pmm.pages[..], mgr.own)
  {
  }

  /**
   A fault of a space whose root slot of the first kernel page is empty: it is handled, and the space sees nothing.
   */
  method FaultUnseen(mgr: Manager, user: nat) returns (halted: bool, ghost frame: nat, ghost i: nat)
    requires mgr.Valid() && user in mgr.spaces && user != mgr.kernel && SlotEmpty(mgr.m.mem, user)
    requires mgr.kernel in mgr.spaces && mgr.spaces[mgr.kernel] == [Area(KERNEL_START, PAGE, ANON)]
    modifies mgr`own
    modifies mgr.m`mem, mgr.m`tabs, mgr.m.pmm.pages, mgr.m.pmm.links, mgr.m.pmm.nrFree, mgr.m.pmm`lists, mgr.m.pmm`t
    ensures halted ==> NoFree(mgr.m.pmm.t)
    ensures !halted ==> mgr.Valid() && SlotEmpty(mgr.m.mem, user) && i < |mgr.spaces[mgr.kernel]|
    ensures !halted ==> Translate(mgr.m.mem, user, PageOf(KERNEL_START)) == Fault
    ensures !halted ==> var w := PageOf(KERNEL_START);
              && frame !in old(mgr.own) && mgr.own == old(mgr.own)[frame := Use(mgr.kernel, w)]
              && Faulted(old(mgr.m.Now()), mgr.m.Now(), frame, mgr.kernel, w, mgr.spaces[mgr.kernel][i].flags)
  {
    hide Machine.Valid, Buddies.ValidBut, Translate, AllSpaces, AllSee, Owned, Held, NoFree, Index, SeesPart,
         SlotEmpty, Manager.HeapPart, Described, AsideKept, PageOf, Faulted, Typed;
    ghost var w, kernel, s0 := PageOf(KERNEL_START), mgr.kernel, mgr.m.Now();
    FirstKernelPage();
    assert AreaHas(mgr.spaces, kernel, 0, KERNEL_START);
    mgr.m.Sane();
    RootsOf(mgr.m.mem, mgr.m.tabs, kernel, mgr.spaces);
    SeesOf(mgr.m.mem, kernel, mgr.spaces, user);
    halted, frame, i := mgr.PageFault(KERNEL_START, false, user);
    if halted { return; }
    KernelFaultSeen(s0, mgr.m.Now(), frame, kernel, user, w, mgr.spaces[kernel][i].flags);
    EmptyAgain(s0.mem, mgr.m.mem, user);
  }

  /** The second fault on a page that the kernel has mapped loses the frame of the first. */
  lemma LostFirst(s1: State, s2: State, kernel: nat, spaces: map<nat, seq<Area>>, own: map<nat, Use>,
                  first: nat, second: nat, flags: nat)
    requires var w := PageOf(KERNEL_START);
             && AllSpaces(s1.mem, s1.tabs, kernel, spaces) && Owned(s1.mem, spaces, own)
             && Held(s1.t, s1.tabs, s1.pages, own) && AnonPage(spaces[kernel], w)
             && LeafAt(s1.mem, kernel, w, first) && InUse(s1.t, first) && first !in s1.tabs
             && Faulted(s1, s2, second, kernel, w, flags) && second !in own
             && Owned(s2.mem, spaces, own[second := Use(kernel, w)])
    ensures InUse(s2.t, first) && !Backs(s2.mem, spaces, first) && first !in s2.tabs
  {
    hide AllSpaces, Owned, Held, AnonPage, PageOf, Translate, RootsKept, MappedOnly, EntryFor, X86Flags, Zeros, Grants,
         Backs, Lost;
    var w := PageOf(KERNEL_START);
    RootsOf(s1.mem, s1.tabs, kernel, spaces);
    RefaultLosesFrame(s1, s2, second, kernel, w, flags, kernel, spaces, own);
    LosesFirst(s1, s2, spaces, kernel, w, first);
    FirstNoTable(s1, s2, first);
  }

  lemma SeesOf(mem: Memory, kernel: nat, spaces: map<nat, seq<Area>>, r: nat)
    requires AllSee(mem, kernel, spaces) && r in spaces
    ensures SeesPart(mem, kernel, r)
  {
  }

  /** The space's own slot stays empty. */
  lemma EmptyAgain(mem: Memory, mem': Memory, user: nat)
    requires SlotEmpty(mem, user) && user in mem' && mem'[user] == mem[user]
    ensures SlotEmpty(mem', user) && !Present(mem[user][Index(PageOf(KERNEL_START), 4)])
  {
    ZeroAbsent();
  }

  lemma AnonKernelPage(areas: seq<Area>)
    requires areas == [Area(KERNEL_START, PAGE, ANON)] && !Has(ANON, MMIO)
    ensures AnonPage(areas, PageOf(KERNEL_START))
  {
    assert Covers(areas[0], PageOf(KERNEL_START));
  }

  lemma LosesFirst(s: State, s': State, spaces: map<nat, seq<Area>>, kernel: nat, w: nat, first: nat)
    requires exists p: nat :: Lost(s.mem, s'.mem, spaces, p)
    requires forall p: nat | Lost(s.mem, s'.mem, spaces, p) :: LeafAt(s.mem, kernel, w, p) && InUse(s'.t, p)
    requires LeafAt(s.mem, kernel, w, first)
    ensures InUse(s'.t, first) && !Backs(s'.mem, spaces, first)
  {
    hide Translate, Backs;
    var p: nat :| Lost(s.mem, s'.mem, spaces, p);
    assert LeafAt(s.mem, kernel, w, p);
    assert p == first;
  }

  lemma FirstNoTable(s: State, s': State, first: nat)
    requires InUse(s.t, first) && first !in s.tabs
    requires forall g | g in s'.tabs && g !in s.tabs :: g < |s.t| && s.t[g].status == Free
    ensures first !in s'.tabs
  {
  }
}
