/** What the areas of all address spaces promise about the page tables and the frames behind them. */
module Spaces {
  import opened Tiling
  import opened Entry
  import opened PageTable
  import opened Paging
  import opened Regions
  import opened Areas
  import opened Flags
  import BuddyStore
  import opened Bits
  import opened Seqs

  predicate IsMmio(a: Area) { Has(a.flags, MMIO) }

  function RegionStart(kern: bool): nat { if kern then KERNEL_START else USER_START }
  function RegionEnd(kern: bool): nat { if kern then KERNEL_END else USER_END }

  /** Pages of the region that a kind of address space manages */
  predicate InRegion(kern: bool, v: nat) {
    if kern then 0xC_0000_0000 <= v <= 0xF_FFF7_FFFF else 1 <= v <= 0x7_FFFF_FFFF
  }

  /** In each region page numbers follow addresses. */
  lemma RegionPage(kern: bool, addr: nat)
    requires RegionStart(kern) <= addr <= RegionEnd(kern)
    ensures PageOf(addr) == addr / PAGE - (if kern then 0xF_FFF0_0000_0000 else 0)
    ensures InRegion(kern, PageOf(addr))
  {
  }

  predicate Covers(a: Area, v: nat) {
    PageOf(a.base) <= v < PageOf(a.base) + a.size / PAGE
  }

  ghost predicate AreasOk(areas: seq<Area>, kern: bool) {
    && Sorted(areas, RegionStart(kern))
    && forall i | 0 <= i < |areas| :: areas[i].End() <= RegionEnd(kern)
  }

  ghost predicate InAreas(areas: seq<Area>, v: nat) {
    exists i :: 0 <= i < |areas| && Covers(areas[i], v)
  }

  ghost predicate AnonPage(areas: seq<Area>, v: nat) {
    exists i :: 0 <= i < |areas| && !IsMmio(areas[i]) && Covers(areas[i], v)
  }

  lemma AreaPages(a: Area, kern: bool)
    requires a.base % PAGE == 0 && a.size % PAGE == 0 && a.size > 0
    requires RegionStart(kern) <= a.base && a.End() <= RegionEnd(kern)
    ensures forall v | Covers(a, v) :: InRegion(kern, v)
    ensures PageOf(a.base) + a.size / PAGE <= Span(4) && (!kern ==> PageOf(a.base) + a.size / PAGE <= HALF)
    ensures a.base > 0 && Laps(a.base, a.size, false) == a.size / PAGE
    ensures Ends(a.base, a.size, false) && !StepsOnZero(a.base, a.size, false)
  {
    RegionPage(kern, a.base);
    RegionPage(kern, a.End() - 1);
    WholePages(a.size);
  }

  lemma WholePages(size: nat)
    requires size % PAGE == 0
    ensures Slots(size, false) == size / PAGE && Bytes(size / PAGE, false) == size
  {
  }

  /** Different areas cover different pages. */
  lemma PagesApart(a: Area, b: Area, kern: bool, v: nat)
    requires a.base % PAGE == 0 && a.size % PAGE == 0 && b.base % PAGE == 0
    requires RegionStart(kern) <= a.base && a.End() <= b.base <= RegionEnd(kern)
    ensures !(Covers(a, v) && Covers(b, v))
  {
    RegionPage(kern, a.base);
    RegionPage(kern, b.base);
  }

  lemma OneArea(areas: seq<Area>, kern: bool, i: nat, j: nat, v: nat)
    requires AreasOk(areas, kern) && i < |areas| && j < |areas| && Covers(areas[i], v) && Covers(areas[j], v)
    ensures i == j
  {
    if i < j { PagesApart(areas[i], areas[j], kern, v); }
    if j < i { PagesApart(areas[j], areas[i], kern, v); }
  }

  lemma AddressCovered(a: Area, kern: bool, addr: nat)
    requires a.base % PAGE == 0 && a.size % PAGE == 0 && a.Has(addr)
    requires RegionStart(kern) <= a.base && a.End() <= RegionEnd(kern)
    ensures Covers(a, PageOf(addr)) && InRegion(kern, PageOf(addr))
  {
    RegionPage(kern, a.base);
    RegionPage(kern, addr);
  }

  /** Page v lies in the area and the entry has the rights of that area. */
  ghost predicate RightfulIn(a: Area, v: nat, e: nat) {
    Covers(a, v) && Grants(e, a.flags)
  }

  ghost predicate Rightful(areas: seq<Area>, v: nat, e: nat) {
    exists i: nat :: i < |areas| && RightfulIn(areas[i], v, e)
  }

  /** In its region a space maps pages of its areas only, with small pages and with the rights of the area. */
  ghost predicate SpaceOk(mem: Memory, r: nat, kern: bool, areas: seq<Area>) {
    && AreasOk(areas, kern)
    && forall v: nat | InRegion(kern, v) :: NoHuge(mem, r, v) && PageOk(areas, v, Translate(mem, r, v))
  }

  ghost predicate PageOk(areas: seq<Area>, v: nat, leaf: Leaf) {
    leaf == Fault || Rightful(areas, v, leaf.entry)
  }

  /** Every mapped page of an area has exactly the rights that the area asks for. */
  lemma RightsHold(mem: Memory, r: nat, kern: bool, areas: seq<Area>, i: nat, v: nat)
    requires SpaceOk(mem, r, kern, areas) && i < |areas| && Covers(areas[i], v) && Translate(mem, r, v) != Fault
    ensures Grants(Translate(mem, r, v).entry, areas[i].flags) && Translate(mem, r, v).level == 1
  {
    hide Translate, Grants, Covers, InRegion;
    AreaPages(areas[i], kern);
    assert PageOk(areas, v, Translate(mem, r, v)) && NoHuge(mem, r, v);
    var j: nat :| j < |areas| && RightfulIn(areas[j], v, Translate(mem, r, v).entry);
    OneArea(areas, kern, i, j, v);
  }

  /** The page of a space that a frame backs */
  datatype Use = Use(root: nat, page: nat)

  /** Every frame behind an anonymous page is recorded with that page: no two pages of any spaces share one. */
  ghost predicate Owned(mem: Memory, spaces: map<nat, seq<Area>>, own: map<nat, Use>) {
    forall r: nat, v: nat, p: nat | r in spaces && AnonPage(spaces[r], v) && LeafAt(mem, r, v, p) ::
      p in own && own[p] == Use(r, v)
  }

  lemma OwnerOf(mem: Memory, spaces: map<nat, seq<Area>>, own: map<nat, Use>, r: nat, v: nat, p: nat)
    requires Owned(mem, spaces, own) && r in spaces && AnonPage(spaces[r], v) && p in own
    ensures LeafAt(mem, r, v, p) ==> own[p] == Use(r, v)
  {
  }

  /** Recorded frames are held once and hold no table. */
  ghost predicate Held(t: seq<Block>, tabs: map<nat, Table>, pages: seq<BuddyStore.Page>, own: map<nat, Use>) {
    |pages| == |t| && forall p | p in own :: InUse(t, p) && pages[p].refs == 1 && p !in tabs
  }

  ghost predicate AllSpaces(mem: Memory, tabs: map<nat, Table>, kernel: nat, spaces: map<nat, seq<Area>>) {
    && kernel in spaces
    && forall r | r in spaces :: IsRoot(tabs, r) && SpaceOk(mem, r, r == kernel, spaces[r])
  }

  /** Region by region, two memories translate alike for space r. */
  ghost predicate SameRegion(mem: Memory, mem': Memory, r: nat, kern: bool) {
    forall v: nat | InRegion(kern, v) :: Translate(mem', r, v) == Translate(mem, r, v)
  }

  /** A mapping in one space is not seen in the regions of the others. */
  lemma UpdateIsLocal(mem: Memory, mem': Memory, tabs: map<nat, Table>, kernel: nat, target: nat, w: nat, e: nat,
                      r: nat)
    requires Updated(mem, mem', tabs, target, w, 1, e) && IsRoot(tabs, r) && r != target
    requires w < Span(4) && InRegion(target == kernel, w) && (target == kernel || r == kernel || w < HALF)
    ensures SameRegion(mem, mem', r, r == kernel)
  {
    LowerHalf(w);
    forall v: nat | InRegion(r == kernel, v) ensures Translate(mem', r, v) == Translate(mem, r, v) {
      if target == kernel { assert v / Span(0) != w / Span(0); }
    }
  }

  lemma RegionIsLocal(mem: Memory, mem': Memory, tabs: map<nat, Table>, kernel: nat, target: nat, w0: nat, n: nat,
                      plan: Plan, r: nat)
    requires RegionMapped(mem, mem', tabs, target, w0, 1, n, plan) && IsRoot(tabs, r) && r != target
    requires if target == kernel then w0 >= HALF else w0 + n <= HALF
    ensures SameRegion(mem, mem', r, r == kernel)
  {
    hide Translate;
    forall v: nat | InRegion(r == kernel, v) ensures Translate(mem', r, v) == Translate(mem, r, v) {
      SmallSlot(w0, v);
    }
  }

  lemma SmallSlot(w0: nat, v: nat)
    ensures SlotOf(w0, 1, v) == v - w0
  {
  }

  /** Nothing an untouched space promises is lost. */
  lemma SameSpaceOk(mem: Memory, mem': Memory, r: nat, kern: bool, areas: seq<Area>)
    requires SpaceOk(mem, r, kern, areas) && SameRegion(mem, mem', r, kern)
    ensures SpaceOk(mem', r, kern, areas)
    ensures forall v: nat, p: nat | AnonPage(areas, v) && LeafAt(mem', r, v, p) :: LeafAt(mem, r, v, p)
  {
    forall v: nat, p: nat | AnonPage(areas, v) && LeafAt(mem', r, v, p) ensures LeafAt(mem, r, v, p) {
      var i :| 0 <= i < |areas| && !IsMmio(areas[i]) && Covers(areas[i], v);
      AreaPages(areas[i], kern);
    }
  }

  // ----- what a handled fault keeps -----

  /** The target space after one of its pages was mapped */
  lemma MappedSpaceOk(mem: Memory, mem': Memory, tabs: map<nat, Table>, r: nat, kern: bool, areas: seq<Area>, w: nat,
                      e: nat)
    requires SpaceOk(mem, r, kern, areas) && Updated(mem, mem', tabs, r, w, 1, e) && IsRoot(tabs, r)
    requires InRegion(kern, w) && Rightful(areas, w, e) && Present(e)
    ensures SpaceOk(mem', r, kern, areas)
    ensures forall v: nat, p: nat | InRegion(kern, v) && v != w && LeafAt(mem', r, v, p) :: LeafAt(mem, r, v, p)
    ensures forall p: nat | LeafAt(mem', r, w, p) :: p == FrameOf(e)
  {
    hide Rightful;
    forall v: nat | InRegion(kern, v)
      ensures NoHuge(mem', r, v) && PageOk(areas, v, Translate(mem', r, v))
      ensures v != w ==> Translate(mem', r, v) == Translate(mem, r, v)
    {
      assert v / Span(0) == v && w / Span(0) == w;
      assert NoHuge(mem, r, v);
    }
    assert Translate(mem', r, w) == LeafOf(e, 1, w);
  }

  lemma FaultSpaces(mem: Memory, mem': Memory, tabs: map<nat, Table>, tabs': map<nat, Table>, kernel: nat,
                    spaces: map<nat, seq<Area>>, target: nat, w: nat, e: nat)
    requires AllSpaces(mem, tabs, kernel, spaces) && Updated(mem, mem', tabs, target, w, 1, e) && target in spaces
    requires InRegion(target == kernel, w) && Rightful(spaces[target], w, e) && Present(e)
    requires forall r | IsRoot(tabs, r) :: IsRoot(tabs', r)
    ensures AllSpaces(mem', tabs', kernel, spaces)
  {
    forall r | r in spaces ensures IsRoot(tabs', r) && SpaceOk(mem', r, r == kernel, spaces[r]) {
      if r == target {
        MappedSpaceOk(mem, mem', tabs, r, r == kernel, spaces[r], w, e);
      } else {
        UpdateIsLocal(mem, mem', tabs, kernel, target, w, e, r);
        SameSpaceOk(mem, mem', r, r == kernel, spaces[r]);
      }
    }
  }

  lemma AnonInRegion(areas: seq<Area>, kern: bool, v: nat)
    requires AreasOk(areas, kern) && AnonPage(areas, v)
    ensures InRegion(kern, v) && InAreas(areas, v)
  {
    var i :| 0 <= i < |areas| && !IsMmio(areas[i]) && Covers(areas[i], v);
    AreaPages(areas[i], kern);
  }

  /** A frame put behind a page by a fault backs no other page of any space. */
  lemma FaultOwned(mem: Memory, mem': Memory, tabs: map<nat, Table>, kernel: nat, spaces: map<nat, seq<Area>>,
                   own: map<nat, Use>, target: nat, w: nat, e: nat)
    requires AllSpaces(mem, tabs, kernel, spaces) && Owned(mem, spaces, own)
    requires Updated(mem, mem', tabs, target, w, 1, e) && target in spaces
    requires InRegion(target == kernel, w) && Rightful(spaces[target], w, e) && Present(e) && FrameOf(e) !in own
    ensures Owned(mem', spaces, own[FrameOf(e) := Use(target, w)])
  {
    hide SpaceOk, Rightful, Updated, AnonPage, Translate, AreasOk;
    var own' := own[FrameOf(e) := Use(target, w)];
    MappedSpaceOk(mem, mem', tabs, target, target == kernel, spaces[target], w, e);
    forall r: nat, v: nat, p: nat | r in spaces && AnonPage(spaces[r], v) && LeafAt(mem', r, v, p)
      ensures p in own' && own'[p] == Use(r, v)
    {
      SpaceAreas(mem, r, r == kernel, spaces[r]);
      AnonInRegion(spaces[r], r == kernel, v);
      if r != target {
        UpdateIsLocal(mem, mem', tabs, kernel, target, w, e, r);
        assert LeafAt(mem, r, v, p);
      }
    }
  }

  lemma HeldExtends(s: State, s': State, own: map<nat, Use>)
    requires Held(s.t, s.tabs, s.pages, own) && Extends(s, s')
    ensures Held(s'.t, s'.tabs, s'.pages, own)
  {
  }

  lemma HeldNewRoot(s: State, s': State, own: map<nat, Use>, root: nat)
    requires Held(s.t, s.tabs, s.pages, own) && Extends(s, s'.(mem := s.mem, tabs := s.tabs))
    requires s'.tabs == s.tabs[root := Table(4, 0, root)] && root < |s.t| && s.t[root].status == Free
    ensures Held(s'.t, s'.tabs, s'.pages, own)
  {
  }

  lemma SpaceAreas(mem: Memory, r: nat, kern: bool, areas: seq<Area>)
    requires SpaceOk(mem, r, kern, areas)
    ensures AreasOk(areas, kern)
  {
  }

  lemma SpacesAreas(mem: Memory, tabs: map<nat, Table>, kernel: nat, spaces: map<nat, seq<Area>>, r: nat)
    requires AllSpaces(mem, tabs, kernel, spaces) && r in spaces
    ensures IsRoot(tabs, r) && AreasOk(spaces[r], r == kernel) && Words(spaces[r])
  {
  }

  lemma HeldNotFree(t: seq<Block>, tabs: map<nat, Table>, pages: seq<BuddyStore.Page>, own: map<nat, Use>, p: nat)
    requires Held(t, tabs, pages, own) && p < |t| && t[p].status == Free
    ensures p !in own
  {
  }

  lemma HeldAdd(s: State, s': State, own: map<nat, Use>, p: nat, u: Use)
    requires Held(s.t, s.tabs, s.pages, own) && Extends(s, s')
    requires InUse(s'.t, p) && p < |s'.pages| && s'.pages[p].refs == 1 && p !in s'.tabs
    ensures Held(s'.t, s'.tabs, s'.pages, own[p := u])
  {
  }

  lemma SpaceNoHuge(mem: Memory, mem': Memory, tabs: map<nat, Table>, r: nat, kern: bool, areas: seq<Area>, v: nat)
    requires SpaceOk(mem, r, kern, areas) && InRegion(kern, v) && SameTranslations(mem, mem', tabs) && IsRoot(tabs, r)
    ensures NoHuge(mem', r, v)
  {
    assert NoHuge(mem, r, v) && Translate(mem', r, v) == Translate(mem, r, v);
  }

  // ----- what freeing an area keeps -----

  ghost function Lo(a: Area): nat { PageOf(a.base) }
  ghost function Hi(a: Area): nat { PageOf(a.base) + a.size / PAGE }

  lemma RemoveCovers(areas: seq<Area>, i: nat, v: nat)
    requires i < |areas|
    ensures InAreas(areas, v) ==> InAreas(RemoveAt(areas, i), v) || Covers(areas[i], v)
    ensures InAreas(RemoveAt(areas, i), v) ==> exists j :: 0 <= j < |areas| && j != i && Covers(areas[j], v)
    ensures AnonPage(RemoveAt(areas, i), v) ==> AnonPage(areas, v)
    ensures AnonPage(RemoveAt(areas, i), v) ==> exists j :: 0 <= j < |areas| && j != i && Covers(areas[j], v)
  {
    var r := RemoveAt(areas, i);
    if InAreas(areas, v) {
      var j :| 0 <= j < |areas| && Covers(areas[j], v);
      if j != i { assert r[if j < i then j else j - 1] == areas[j]; }
    }
    if InAreas(r, v) {
      var j :| 0 <= j < |r| && Covers(r[j], v);
      assert r[j] == areas[if j < i then j else j + 1];
    }
    if AnonPage(r, v) {
      var j :| 0 <= j < |r| && !IsMmio(r[j]) && Covers(r[j], v);
      assert r[j] == areas[if j < i then j else j + 1];
    }
  }

  /** Pages of the other areas keep their translation when one area is erased. */
  lemma EraseOthers(mem: Memory, mem': Memory, tabs: map<nat, Table>, r: nat, a: Area, v: nat)
    requires RegionMapped(mem, mem', tabs, r, Lo(a), 1, a.size / PAGE, Erase) && IsRoot(tabs, r) && v < Span(4)
    ensures if Covers(a, v) then Translate(mem', r, v) == Fault else Translate(mem', r, v) == Translate(mem, r, v)
  {
    SmallSlot(Lo(a), v);
    ZeroAbsent();
  }

  lemma RightfulRemoved(areas: seq<Area>, i: nat, v: nat, e: nat)
    requires i < |areas| && Rightful(areas, v, e) && !Covers(areas[i], v)
    ensures Rightful(RemoveAt(areas, i), v, e)
  {
    var j: nat :| j < |areas| && RightfulIn(areas[j], v, e);
    assert RemoveAt(areas, i)[if j < i then j else j - 1] == areas[j];
  }

  lemma RightfulInserted(areas: seq<Area>, i: nat, a: Area, v: nat, e: nat)
    requires i <= |areas| && Rightful(areas, v, e)
    ensures Rightful(Insert(areas, i, a), v, e)
  {
    var j: nat :| j < |areas| && RightfulIn(areas[j], v, e);
    assert Insert(areas, i, a)[if j < i then j else j + 1] == areas[j];
  }

  lemma ErasedSpaceOk(mem: Memory, mem': Memory, tabs: map<nat, Table>, r: nat, kern: bool, areas: seq<Area>, i: nat)
    requires SpaceOk(mem, r, kern, areas) && i < |areas| && IsRoot(tabs, r)
    requires RegionMapped(mem, mem', tabs, r, Lo(areas[i]), 1, areas[i].size / PAGE, Erase)
    ensures SpaceOk(mem', r, kern, RemoveAt(areas, i))
  {
    RemoveSorted(areas, RegionStart(kern), i);
    var rest := RemoveAt(areas, i);
    forall j | 0 <= j < |rest| ensures rest[j].End() <= RegionEnd(kern) {
      assert rest[j] == areas[if j < i then j else j + 1];
    }
    forall v: nat | InRegion(kern, v) ensures NoHuge(mem', r, v) && PageOk(rest, v, Translate(mem', r, v)) {
      EraseOthers(mem, mem', tabs, r, areas[i], v);
      assert NoHuge(mem, r, v) && PageOk(areas, v, Translate(mem, r, v));
      if Translate(mem', r, v) != Fault { RightfulRemoved(areas, i, v, Translate(mem, r, v).entry); }
    }
  }

  lemma AreaSide(areas: seq<Area>, kern: bool, i: nat)
    requires AreasOk(areas, kern) && i < |areas|
    ensures if kern then Lo(areas[i]) >= HALF else Hi(areas[i]) <= HALF
    ensures var a := areas[i];
            && Hi(a) <= Span(4) && a.base > 0 && a.End() < U64 && Laps(a.base, a.size, false) == a.size / PAGE
            && Ends(a.base, a.size, false) && !StepsOnZero(a.base, a.size, false)
            && (ReachesUpper(a.base, a.size / PAGE, false) ==> kern)
  {
    AreaPages(areas[i], kern);
    assert Covers(areas[i], Lo(areas[i]));
    WholePages(areas[i].size);
  }

  lemma FreeSpaces(mem: Memory, mem': Memory, tabs: map<nat, Table>, kernel: nat, spaces: map<nat, seq<Area>>,
                   target: nat, i: nat)
    requires AllSpaces(mem, tabs, kernel, spaces) && target in spaces && i < |spaces[target]|
    requires var a := spaces[target][i]; RegionMapped(mem, mem', tabs, target, Lo(a), 1, a.size / PAGE, Erase)
    ensures AllSpaces(mem', tabs, kernel, spaces[target := RemoveAt(spaces[target], i)])
  {
    var spaces', a := spaces[target := RemoveAt(spaces[target], i)], spaces[target][i];
    AreaSide(spaces[target], target == kernel, i);
    forall r | r in spaces' ensures IsRoot(tabs, r) && SpaceOk(mem', r, r == kernel, spaces'[r]) {
      if r == target {
        ErasedSpaceOk(mem, mem', tabs, r, r == kernel, spaces[r], i);
      } else {
        RegionIsLocal(mem, mem', tabs, kernel, target, Lo(a), a.size / PAGE, Erase, r);
        SameSpaceOk(mem, mem', r, r == kernel, spaces[r]);
      }
    }
  }

  /** The record without the pages of one area */
  ghost function Forget(own: map<nat, Use>, root: nat, a: Area): (r: map<nat, Use>) {
    map p | p in own && !(own[p].root == root && Covers(a, own[p].page)) :: own[p]
  }

  /** A page of another area of the space keeps its translation. */
  lemma RemainingPage(mem: Memory, mem': Memory, tabs: map<nat, Table>, r: nat, kern: bool, areas: seq<Area>, i: nat,
                      v: nat)
    requires AreasOk(areas, kern) && i < |areas| && IsRoot(tabs, r) && AnonPage(RemoveAt(areas, i), v)
    requires RegionMapped(mem, mem', tabs, r, Lo(areas[i]), 1, areas[i].size / PAGE, Erase)
    ensures AnonPage(areas, v) && !Covers(areas[i], v) && Translate(mem', r, v) == Translate(mem, r, v)
  {
    RemoveCovers(areas, i, v);
    AnonInRegion(areas, kern, v);
    var j :| 0 <= j < |areas| && j != i && Covers(areas[j], v);
    if Covers(areas[i], v) { OneArea(areas, kern, i, j, v); }
    EraseOthers(mem, mem', tabs, r, areas[i], v);
  }

  lemma FreeOwned(mem: Memory, mem': Memory, tabs: map<nat, Table>, kernel: nat, spaces: map<nat, seq<Area>>,
                  own: map<nat, Use>, target: nat, i: nat)
    requires AllSpaces(mem, tabs, kernel, spaces) && Owned(mem, spaces, own) && target in spaces && i < |spaces[target]|
    requires var a := spaces[target][i]; RegionMapped(mem, mem', tabs, target, Lo(a), 1, a.size / PAGE, Erase)
    ensures Owned(mem', spaces[target := RemoveAt(spaces[target], i)], Forget(own, target, spaces[target][i]))
  {
    hide RegionMapped, Translate, NoHuge, InRegion, AnonPage, InAreas, Covers, Sorted, RemoveAt;
    var areas, a := spaces[target], spaces[target][i];
    var spaces', own' := spaces[target := RemoveAt(areas, i)], Forget(own, target, a);
    AreaSide(areas, target == kernel, i);
    forall r: nat, v: nat, p: nat | r in spaces' && AnonPage(spaces'[r], v) && LeafAt(mem', r, v, p)
      ensures p in own' && own'[p] == Use(r, v)
    {
      if r == target {
        RemainingPage(mem, mem', tabs, r, r == kernel, areas, i, v);
      } else {
        AnonInRegion(spaces[r], r == kernel, v);
        RegionIsLocal(mem, mem', tabs, kernel, target, Lo(a), a.size / PAGE, Erase, r);
      }
      assert LeafAt(mem, r, v, p);
    }
  }

  /** The frames behind an anonymous area belong to it alone. */
  lemma AreaOwnsLeaves(mem: Memory, spaces: map<nat, seq<Area>>, own: map<nat, Use>, t: seq<Block>,
                       tabs: map<nat, Table>, pages: seq<BuddyStore.Page>, r: nat, i: nat)
    requires Owned(mem, spaces, own) && Held(t, tabs, pages, own) && r in spaces && i < |spaces[r]|
    requires !IsMmio(spaces[r][i])
    ensures OwnedLeaves(mem, r, Lo(spaces[r][i]), Hi(spaces[r][i]), t, tabs, pages)
    ensures forall v: nat, p: nat | Covers(spaces[r][i], v) && LeafAt(mem, r, v, p) :: p in own && own[p] == Use(r, v)
  {
    forall v: nat, p: nat | Covers(spaces[r][i], v) && LeafAt(mem, r, v, p) ensures p in own && own[p] == Use(r, v) {
      assert AnonPage(spaces[r], v);
    }
  }

  lemma FreeHeld(s0: State, s: State, own: map<nat, Use>, r: nat, a: Area, free: bool)
    requires Held(s0.t, s0.tabs, s0.pages, own) && s.tabs == s0.tabs
    requires GivenBack(s0, s, r, Lo(a), a.size / PAGE, a.size / PAGE, free)
    requires free ==> forall v: nat, p: nat | Covers(a, v) && LeafAt(s0.mem, r, v, p) :: p in own && own[p] == Use(r, v)
    ensures Held(s.t, s.tabs, s.pages, Forget(own, r, a))
  {
    hide Translate, AllFault;
    var own' := Forget(own, r, a);
    var hi := if free then Hi(a) else Lo(a);
    forall v: nat, p: nat | Lo(a) <= v < hi && LeafAt(s0.mem, r, v, p) ensures p !in own' { assert Covers(a, v); }
    forall p | p in own' ensures InUse(s.t, p) && s.pages[p].refs == 1 && p !in s.tabs {
      assert InUse(s0.t, p) && !IsLeafOf(s0.mem, r, Lo(a), hi, p);
    }
  }

  // ----- the kernel half of all spaces -----

  /** No space sees anything in the kernel half that the kernel does not. */
  ghost predicate AllSee(mem: Memory, kernel: nat, spaces: map<nat, seq<Area>>) {
    forall r | r in spaces :: SeesPart(mem, kernel, r)
  }

  lemma AllSeeStays(mem: Memory, mem': Memory, tabs: map<nat, Table>, root: nat, upper: bool, kernel: nat,
                    spaces: map<nat, seq<Area>>)
    requires Typed(mem, tabs) && IsRoot(tabs, kernel) && (forall r | r in spaces :: IsRoot(tabs, r))
    requires AllSee(mem, kernel, spaces)
    requires RootsGrown(mem, mem', tabs, root, upper) && (upper ==> root == kernel)
    ensures AllSee(mem', kernel, spaces)
  {
    hide RootsGrown, SeesPart, Typed;
    forall r | r in spaces ensures SeesPart(mem', kernel, r) { PartStays(mem, mem', tabs, root, upper, kernel, r); }
  }

  /** The root slot of a page that a mapping may fill */
  lemma MappedSlot(kern: bool, w: nat)
    requires InRegion(kern, w)
    ensures w < Span(4) && (Index(w, 4) < 256 || kern) && (kern ==> w >= HALF)
  {
    LowerHalf(w);
  }

  lemma RootsOf(mem: Memory, tabs: map<nat, Table>, kernel: nat, spaces: map<nat, seq<Area>>)
    requires AllSpaces(mem, tabs, kernel, spaces)
    ensures kernel in spaces && forall r | r in spaces :: IsRoot(tabs, r)
  {
  }

  /** A kernel page that was unmapped is unmapped in every space. */
  lemma NobodySees(mem: Memory, kernel: nat, spaces: map<nat, seq<Area>>, r: nat, v: nat)
    requires AllSee(mem, kernel, spaces) && r in spaces && HALF <= v < Span(4) && Translate(mem, kernel, v) == Fault
    ensures Translate(mem, r, v) == Fault
  {
    PartWalk(mem, kernel, r, v);
  }

  // ----- what a new area keeps -----

  lemma InsertCovers(areas: seq<Area>, i: nat, a: Area, v: nat)
    requires i <= |areas|
    ensures InAreas(areas, v) ==> InAreas(Insert(areas, i, a), v)
    ensures AnonPage(Insert(areas, i, a), v) <==> AnonPage(areas, v) || (!IsMmio(a) && Covers(a, v))
  {
    var r := Insert(areas, i, a);
    assert r[i] == a;
    if AnonPage(areas, v) {
      var j :| 0 <= j < |areas| && !IsMmio(areas[j]) && Covers(areas[j], v);
      assert r[if j < i then j else j + 1] == areas[j];
    }
    if InAreas(areas, v) {
      var j :| 0 <= j < |areas| && Covers(areas[j], v);
      assert r[if j < i then j else j + 1] == areas[j];
    }
    if AnonPage(r, v) {
      var j :| 0 <= j < |r| && !IsMmio(r[j]) && Covers(r[j], v);
      if j != i { assert r[j] == areas[if j < i then j else j - 1]; }
    }
  }

  /** Where the search places an area, the list stays sorted and inside the region. */
  lemma InsertOk(areas: seq<Area>, kern: bool, i: nat, a: Area)
    requires AreasOk(areas, kern) && i <= |areas| && Fits(areas, RegionStart(kern), RegionEnd(kern), a.size, i, a.base)
    requires a.size > 0 && a.size % PAGE == 0 && a.End() <= RegionEnd(kern)
    ensures AreasOk(Insert(areas, i, a), kern)
  {
    FitsAligned(areas, RegionStart(kern), RegionEnd(kern), a.size, i, a.base);
    InsertSorted(areas, RegionStart(kern), i, a);
  }

  /** Full or not, a region with its areas inside never makes vmm_alloc report exhaustion. */
  lemma SearchSucceeds(areas: seq<Area>, kern: bool, size: nat)
    requires AreasOk(areas, kern)
    ensures Search(areas, 0, RegionStart(kern), RegionEnd(kern), size).0
  {
    AreasEndEarly(areas, kern);
    NeverRefuses(areas, 0, RegionStart(kern), RegionEnd(kern), size);
  }

  /** Pages of a new area are not mapped yet. */
  lemma NewPageUnmapped(mem: Memory, r: nat, kern: bool, areas: seq<Area>, i: nat, a: Area, v: nat)
    requires SpaceOk(mem, r, kern, areas) && i <= |areas| && AreasOk(Insert(areas, i, a), kern) && Covers(a, v)
    ensures Translate(mem, r, v) == Fault
  {
    var all := Insert(areas, i, a);
    assert all[i] == a;
    AreaPages(a, kern);
    if InAreas(areas, v) {
      var j :| 0 <= j < |areas| && Covers(areas[j], v);
      var k := if j < i then j else j + 1;
      assert all[k] == areas[j];
      OneArea(all, kern, i, k, v);
    }
  }

  lemma AllocSpaces(mem: Memory, tabs: map<nat, Table>, kernel: nat, spaces: map<nat, seq<Area>>, own: map<nat, Use>,
                    target: nat, i: nat, a: Area)
    requires AllSpaces(mem, tabs, kernel, spaces) && Owned(mem, spaces, own) && target in spaces
    requires i <= |spaces[target]|
    requires AreasOk(Insert(spaces[target], i, a), target == kernel)
    ensures AllSpaces(mem, tabs, kernel, spaces[target := Insert(spaces[target], i, a)])
    ensures Owned(mem, spaces[target := Insert(spaces[target], i, a)], own)
  {
    hide Translate, InRegion, InAreas, AnonPage, Covers, AreasOk, Insert, Rightful;
    var areas := spaces[target];
    var all := Insert(areas, i, a);
    forall v: nat
      ensures InAreas(areas, v) ==> InAreas(all, v)
      ensures AnonPage(all, v) ==> AnonPage(areas, v) || (!IsMmio(a) && Covers(a, v))
    {
      InsertCovers(areas, i, a, v);
    }
    forall v: nat | InRegion(target == kernel, v) ensures PageOk(all, v, Translate(mem, target, v)) {
      assert PageOk(areas, v, Translate(mem, target, v)) && NoHuge(mem, target, v);
      if Translate(mem, target, v) != Fault { RightfulInserted(areas, i, a, v, Translate(mem, target, v).entry); }
    }
    forall v: nat, p: nat | AnonPage(all, v) && LeafAt(mem, target, v, p) ensures AnonPage(areas, v) {
      if Covers(a, v) { NewPageUnmapped(mem, target, target == kernel, areas, i, a, v); }
    }
  }

  lemma AreasEndEarly(areas: seq<Area>, kern: bool)
    requires AreasOk(areas, kern)
    ensures forall j | 0 <= j < |areas| :: areas[j].End() < RegionEnd(kern)
  {
    forall j | 0 <= j < |areas| ensures areas[j].End() < RegionEnd(kern) { SumAligned(areas[j].base, areas[j].size); }
  }

  /** Where vmm_alloc places an area, every promise is kept exactly when the region had a gap. */
  lemma PlacedOk(mem: Memory, tabs: map<nat, Table>, kernel: nat, spaces: map<nat, seq<Area>>, own: map<nat, Use>,
                 target: nat, i: nat, a: Area)
    requires AllSpaces(mem, tabs, kernel, spaces) && Owned(mem, spaces, own) && target in spaces
    requires i <= |spaces[target]|
    requires 0 < a.size < U64 && a.size % PAGE == 0
    requires var kern := target == kernel;
             Search(spaces[target], 0, RegionStart(kern), RegionEnd(kern), a.size) == (true, i, a.base)
    ensures var spaces', kern := spaces[target := Insert(spaces[target], i, a)], target == kernel;
            if HasGap(spaces[target], RegionStart(kern), RegionEnd(kern), a.size)
            then a.End() <= RegionEnd(kern) && AllSpaces(mem, tabs, kernel, spaces') && Owned(mem, spaces', own)
                 && Fits(spaces[target], RegionStart(kern), RegionEnd(kern), a.size, i, a.base)
            else a.End() > RegionEnd(kern) && !AllSpaces(mem, tabs, kernel, spaces')
  {
    hide Search, Fits, HasGap, FreeAt, Overruns, Sorted, SpaceOk;
    var areas, kern := spaces[target], target == kernel;
    SpacesAreas(mem, tabs, kernel, spaces, target);
    AreasEndEarly(areas, kern);
    SearchRight(areas, RegionStart(kern), RegionEnd(kern), a.size);
    if HasGap(areas, RegionStart(kern), RegionEnd(kern), a.size) {
      GapIsRight(areas, RegionStart(kern), RegionEnd(kern), a.size);
      FitsLowest(areas, RegionStart(kern), RegionEnd(kern), a.size, i, a.base);
      InsertOk(areas, kern, i, a);
      AllocSpaces(mem, tabs, kernel, spaces, own, target, i, a);
    } else {
      if !Overruns(areas, RegionStart(kern), RegionEnd(kern), a.size) {
        FitsLowest(areas, RegionStart(kern), RegionEnd(kern), a.size, i, a.base);
      }
      OutsideBreaks(mem, tabs, kernel, spaces, target, i, a);
    }
  }

  lemma FitsLowest(areas: seq<Area>, start: nat, end: nat, size: nat, k: nat, a: nat)
    requires Fits(areas, start, end, size, k, a)
    ensures a + size <= end <==> HasGap(areas, start, end, size)
  {
    FitsIffGap(areas, start, end, size, a);
  }

  lemma OutsideBreaks(mem: Memory, tabs: map<nat, Table>, kernel: nat, spaces: map<nat, seq<Area>>, target: nat, i: nat,
                      a: Area)
    requires target in spaces && i <= |spaces[target]| && a.End() > RegionEnd(target == kernel)
    ensures !AllSpaces(mem, tabs, kernel, spaces[target := Insert(spaces[target], i, a)])
  {
    var spaces' := spaces[target := Insert(spaces[target], i, a)];
    assert spaces'[target][i] == a;
  }

  lemma AreaSmall(mem: Memory, tabs: map<nat, Table>, kernel: nat, spaces: map<nat, seq<Area>>, r: nat, i: nat)
    requires AllSpaces(mem, tabs, kernel, spaces) && r in spaces && i < |spaces[r]|
    ensures forall v: nat | Lo(spaces[r][i]) <= v < Hi(spaces[r][i]) :: NoHuge(mem, r, v)
  {
    AreaPages(spaces[r][i], r == kernel);
    forall v: nat | Lo(spaces[r][i]) <= v < Hi(spaces[r][i]) ensures NoHuge(mem, r, v) {
      assert Covers(spaces[r][i], v);
    }
  }

  /** Each page of the I/O area leads to its page of the physical range, with the rights of the area. */
  ghost predicate IoMapped(mem: Memory, r: nat, a: Area, phys: nat) {
    forall v: nat | Covers(a, v) ::
      var leaf := Translate(mem, r, v);
      leaf.Leaf? && leaf.level == 1 && leaf.frame == phys / PAGE + (v - Lo(a)) && Grants(leaf.entry, a.flags)
  }

  lemma IoFrom(mem: Memory, r: nat, a: Area, phys: nat)
    requires RegionMaps(mem, r, Lo(a), a.size / PAGE, phys, X86Flags(a.flags), false) && Hi(a) <= Span(4)
    ensures IoMapped(mem, r, a, phys)
  {
    hide Translate, X86Flags, Grants, Maps, PageOf;
    forall v: nat | Covers(a, v)
      ensures var leaf := Translate(mem, r, v);
              leaf.Leaf? && leaf.level == 1 && leaf.frame == phys / PAGE + (v - Lo(a)) && Grants(leaf.entry, a.flags)
    {
      SmallSlot(Lo(a), v);
      var k := v - Lo(a);
      assert LeafMaps(Translate(mem, r, v), v, phys + Bytes(k, false), X86Flags(a.flags), false);
      IoPage(Translate(mem, r, v), v, phys, k, a.flags);
    }
  }

  lemma IoPage(leaf: Leaf, v: nat, phys: nat, k: nat, flags: nat)
    requires LeafMaps(leaf, v, phys + Bytes(k, false), X86Flags(flags), false)
    ensures leaf.Leaf? && leaf.level == 1 && leaf.frame == phys / PAGE + k && Grants(leaf.entry, flags)
  {
    hide X86Flags, Grants, AddrOf, SameBits, Present, Huge;
    ConvertedGrants(leaf.entry, phys + Bytes(k, false), flags);
  }

  /** Mapping the pages of an I/O area */
  lemma MappedArea(mem: Memory, mem': Memory, tabs: map<nat, Table>, r: nat, kern: bool, areas: seq<Area>, i: nat,
                   phys: nat, flags: nat)
    requires SpaceOk(mem, r, kern, areas) && i < |areas| && IsRoot(tabs, r) && IsMmio(areas[i])
    requires RegionMapped(mem, mem', tabs, r, Lo(areas[i]), 1, areas[i].size / PAGE, Map(phys, flags, false))
    requires IoMapped(mem', r, areas[i], phys)
    ensures SpaceOk(mem', r, kern, areas)
    ensures forall v: nat | AnonPage(areas, v) :: Translate(mem', r, v) == Translate(mem, r, v)
  {
    var a := areas[i];
    forall v: nat | InRegion(kern, v) ensures NoHuge(mem', r, v) && PageOk(areas, v, Translate(mem', r, v)) {
      SmallSlot(Lo(a), v);
      assert NoHuge(mem, r, v) && PageOk(areas, v, Translate(mem, r, v));
      if Covers(a, v) { assert RightfulIn(areas[i], v, Translate(mem', r, v).entry); }
    }
    forall v: nat | AnonPage(areas, v) ensures Translate(mem', r, v) == Translate(mem, r, v) {
      AnonInRegion(areas, kern, v);
      var j :| 0 <= j < |areas| && !IsMmio(areas[j]) && Covers(areas[j], v);
      if Covers(a, v) { OneArea(areas, kern, i, j, v); }
      SmallSlot(Lo(a), v);
    }
  }

  lemma MmioSpaces(mem: Memory, mem': Memory, tabs: map<nat, Table>, tabs': map<nat, Table>, kernel: nat,
                   spaces: map<nat, seq<Area>>, own: map<nat, Use>, target: nat, i: nat, phys: nat, flags: nat)
    requires AllSpaces(mem, tabs, kernel, spaces) && Owned(mem, spaces, own) && target in spaces
    requires i < |spaces[target]| && IsMmio(spaces[target][i])
    requires var a := spaces[target][i];
             && RegionMapped(mem, mem', tabs, target, Lo(a), 1, a.size / PAGE, Map(phys, flags, false))
             && IoMapped(mem', target, a, phys)
    requires forall r | IsRoot(tabs, r) :: IsRoot(tabs', r)
    ensures AllSpaces(mem', tabs', kernel, spaces) && Owned(mem', spaces, own)
  {
    hide RegionMapped, Translate, InRegion, InAreas, AnonPage, Covers, Sorted, NoHuge, SameRegion, SpaceOk;
    var a := spaces[target][i];
    SpaceAreas(mem, target, target == kernel, spaces[target]);
    AreaSide(spaces[target], target == kernel, i);
    forall r | r in spaces
      ensures IsRoot(tabs', r) && SpaceOk(mem', r, r == kernel, spaces[r])
      ensures forall v: nat, p: nat | AnonPage(spaces[r], v) && LeafAt(mem', r, v, p) :: LeafAt(mem, r, v, p)
    {
      if r == target {
        MappedArea(mem, mem', tabs, r, r == kernel, spaces[r], i, phys, flags);
      } else {
        RegionIsLocal(mem, mem', tabs, kernel, target, Lo(a), a.size / PAGE, Map(phys, flags, false), r);
        SameSpaceOk(mem, mem', r, r == kernel, spaces[r]);
      }
    }
  }

  // ----- new and destroyed spaces -----

  lemma NewSpaces(mem: Memory, mem': Memory, tabs: map<nat, Table>, kernel: nat, spaces: map<nat, seq<Area>>,
                  own: map<nat, Use>, root: nat)
    requires AllSpaces(mem, tabs, kernel, spaces) && Owned(mem, spaces, own) && SameTranslations(mem, mem', tabs)
    requires root !in tabs
    requires forall v: nat | InRegion(false, v) :: Translate(mem', root, v) == Fault
    ensures AllSpaces(mem', tabs[root := Table(4, 0, root)], kernel, spaces[root := []])
    ensures Owned(mem', spaces[root := []], own)
  {
    hide Translate;
    var spaces', tabs' := spaces[root := []], tabs[root := Table(4, 0, root)];
    assert root !in spaces;
    forall r | r in spaces' ensures IsRoot(tabs', r) && SpaceOk(mem', r, r == kernel, spaces'[r]) {
      if r != root { SameSpaceOk(mem, mem', r, r == kernel, spaces[r]); }
    }
    forall r: nat, v: nat, p: nat | r in spaces' && AnonPage(spaces'[r], v) && LeafAt(mem', r, v, p)
      ensures p in own && own[p] == Use(r, v)
    {
      AnonInRegion(spaces[r], r == kernel, v);
      assert LeafAt(mem, r, v, p);
    }
  }

  /** p is the frame behind an anonymous page of the areas. */
  ghost predicate AnonLeaf(mem: Memory, r: nat, areas: seq<Area>, p: nat) {
    exists v: nat :: AnonPage(areas, v) && LeafAt(mem, r, v, p)
  }

  /** A space with the first k of its areas freed */
  ghost predicate Dismantled(mem0: Memory, mem: Memory, tabs: map<nat, Table>, t0: seq<Block>, t: seq<Block>, r: nat,
                             areas: seq<Area>, k: nat) {
    && k <= |areas| && |t| == |t0|
    && (forall g: nat, v: nat | IsRoot(tabs, g) && g != r && v < Span(4) ::
          Translate(mem, g, v) == Translate(mem0, g, v))
    && (forall v: nat | InAreas(areas[k..], v) :: Translate(mem, r, v) == Translate(mem0, r, v))
    && (forall p: nat | p < |t| :: t[p].status == Free <==> t0[p].status == Free || AnonLeaf(mem0, r, areas[..k], p))
  }

  lemma DismantledFirst(mem: Memory, tabs: map<nat, Table>, t: seq<Block>, r: nat, areas: seq<Area>)
    ensures Dismantled(mem, mem, tabs, t, t, r, areas, 0)
  {
  }

  lemma PrefixPages(areas: seq<Area>, k: nat, v: nat)
    requires k < |areas|
    ensures AnonPage(areas[..k + 1], v) <==> AnonPage(areas[..k], v) || (!IsMmio(areas[k]) && Covers(areas[k], v))
    ensures Covers(areas[k], v) ==> InAreas(areas[k..], v)
    ensures InAreas(areas[k + 1..], v) ==> InAreas(areas[k..], v) && exists j :: k < j < |areas| && Covers(areas[j], v)
  {
    PrefixAnon(areas, k, v);
    SuffixPages(areas, k, v);
  }

  lemma PrefixAnon(areas: seq<Area>, k: nat, v: nat)
    requires k < |areas|
    ensures AnonPage(areas[..k + 1], v) <==> AnonPage(areas[..k], v) || (!IsMmio(areas[k]) && Covers(areas[k], v))
  {
    hide IsMmio, Covers;
    var all, pre := areas[..k + 1], areas[..k];
    assert all == pre + [areas[k]];
    assert all[k] == areas[k];
    if AnonPage(all, v) {
      var j :| 0 <= j < |all| && !IsMmio(all[j]) && Covers(all[j], v);
      if j < k { assert pre[j] == all[j]; }
    }
    if AnonPage(pre, v) {
      var j :| 0 <= j < |pre| && !IsMmio(pre[j]) && Covers(pre[j], v);
      assert all[j] == pre[j];
    }
  }

  lemma SuffixPages(areas: seq<Area>, k: nat, v: nat)
    requires k < |areas|
    ensures Covers(areas[k], v) ==> InAreas(areas[k..], v)
    ensures InAreas(areas[k + 1..], v) ==> InAreas(areas[k..], v) && exists j :: k < j < |areas| && Covers(areas[j], v)
  {
    hide Covers;
    var rest, next := areas[k..], areas[k + 1..];
    assert rest[0] == areas[k];
    if InAreas(next, v) {
      var j :| 0 <= j < |next| && Covers(next[j], v);
      var i := k + 1 + j;
      assert next[j] == areas[i];
      assert rest[j + 1] == areas[i];
    }
  }

  lemma DismantledNext(s0: State, s: State, s': State, r: nat, areas: seq<Area>, k: nat)
    requires AreasOk(areas, false) && k < |areas| && IsRoot(s.tabs, r) && s.tabs == s0.tabs
    requires Dismantled(s0.mem, s.mem, s.tabs, s0.t, s.t, r, areas, k)
    requires RegionMapped(s.mem, s'.mem, s.tabs, r, Lo(areas[k]), 1, areas[k].size / PAGE, Erase)
    requires GivenBack(s, s', r, Lo(areas[k]), areas[k].size / PAGE, areas[k].size / PAGE, !IsMmio(areas[k]))
    ensures Dismantled(s0.mem, s'.mem, s.tabs, s0.t, s'.t, r, areas, k + 1)
  {
    var mem0, mem, mem', tabs, t0, t, t' := s0.mem, s.mem, s'.mem, s.tabs, s0.t, s.t, s'.t;
    hide Translate, Sorted, InAreas, AnonPage;
    var a := areas[k];
    AreaSide(areas, false, k);
    forall g: nat, v: nat | IsRoot(tabs, g) && g != r && v < Span(4)
      ensures Translate(mem', g, v) == Translate(mem0, g, v)
    {
      assert Translate(mem', g, v) == Translate(mem, g, v);
    }
    forall v: nat | InAreas(areas[k + 1..], v) ensures Translate(mem', r, v) == Translate(mem0, r, v) {
      StillMapped(mem, mem', tabs, r, areas, k, v);
    }
    forall p: nat | p < |t|
      ensures t'[p].status == Free <==> t0[p].status == Free || AnonLeaf(mem0, r, areas[..k + 1], p)
    {
      FreedSoFar(mem0, mem, r, areas, k, p);
    }
  }

  lemma StillMapped(mem: Memory, mem': Memory, tabs: map<nat, Table>, r: nat, areas: seq<Area>, k: nat, v: nat)
    requires AreasOk(areas, false) && k < |areas| && IsRoot(tabs, r) && InAreas(areas[k + 1..], v)
    requires RegionMapped(mem, mem', tabs, r, Lo(areas[k]), 1, areas[k].size / PAGE, Erase)
    ensures InAreas(areas[k..], v) && Translate(mem', r, v) == Translate(mem, r, v)
  {
    PrefixPages(areas, k, v);
    var j :| k < j < |areas| && Covers(areas[j], v);
    AreaPages(areas[j], false);
    if Covers(areas[k], v) { OneArea(areas, false, k, j, v); }
    EraseOthers(mem, mem', tabs, r, areas[k], v);
  }

  lemma FreedSoFar(mem0: Memory, mem: Memory, r: nat, areas: seq<Area>, k: nat, p: nat)
    requires k < |areas| && forall v: nat | InAreas(areas[k..], v) :: Translate(mem, r, v) == Translate(mem0, r, v)
    ensures var a := areas[k];
            AnonLeaf(mem0, r, areas[..k + 1], p) <==>
            AnonLeaf(mem0, r, areas[..k], p) || IsLeafOf(mem, r, Lo(a), if IsMmio(a) then Lo(a) else Hi(a), p)
  {
    hide Translate;
    var a := areas[k];
    if AnonLeaf(mem0, r, areas[..k + 1], p) {
      var v: nat :| AnonPage(areas[..k + 1], v) && LeafAt(mem0, r, v, p);
      PrefixPages(areas, k, v);
      if !AnonPage(areas[..k], v) { assert LeafAt(mem, r, v, p); }
    }
    if AnonLeaf(mem0, r, areas[..k], p) {
      var v: nat :| AnonPage(areas[..k], v) && LeafAt(mem0, r, v, p);
      PrefixPages(areas, k, v);
    }
    if IsLeafOf(mem, r, Lo(a), if IsMmio(a) then Lo(a) else Hi(a), p) {
      var v: nat :| Lo(a) <= v < (if IsMmio(a) then Lo(a) else Hi(a)) && LeafAt(mem, r, v, p);
      assert Covers(a, v);
      PrefixPages(areas, k, v);
      assert LeafAt(mem0, r, v, p);
    }
  }

  /** The address of the first area names the first area. */
  lemma HeadArea(areas: seq<Area>, kern: bool)
    requires AreasOk(areas, kern) && areas != []
    ensures areas[0].base != 0 && areas[0].Has(areas[0].base)
    ensures forall i | 0 <= i < |areas| && areas[i].Has(areas[0].base) :: i == 0
  {
  }

  lemma DismantledAll(mem0: Memory, mem: Memory, tabs: map<nat, Table>, t0: seq<Block>, t: seq<Block>, r: nat,
                      areas: seq<Area>)
    requires Dismantled(mem0, mem, tabs, t0, t, r, areas, |areas|)
    ensures |t| == |t0|
    ensures forall p: nat | p < |t| :: t[p].status == Free <==> t0[p].status == Free || AnonLeaf(mem0, r, areas, p)
    ensures forall g: nat, v: nat | IsRoot(tabs, g) && g != r && v < Span(4) ::
              Translate(mem, g, v) == Translate(mem0, g, v)
  {
    hide AnonLeaf, Translate;
    assert areas[..|areas|] == areas;
  }

  lemma DestroyHeld(t: seq<Block>, t': seq<Block>, tabs: map<nat, Table>, pages: seq<BuddyStore.Page>,
                    pages': seq<BuddyStore.Page>, own: map<nat, Use>, root: nat)
    requires Held(t, tabs, pages, own) && root in tabs && Freed(t, t', root, 0) && |pages'| == |pages|
    requires forall p | 0 <= p < |t'| && t'[p].status != Free :: pages'[p] == pages[p]
    ensures Held(t', tabs - {root}, pages', own)
    ensures forall p: nat | p < |t| :: t'[p].status == Free <==> t[p].status == Free || p == root
  {
    hide Sound, Maximal;
    forall p: nat | p < |t| ensures InRange(p, root, 0) <==> p == root {}
  }
}
