/** How the kernel heap and the address spaces leave each other alone. */
module HeapSide {
  import opened Bits
  import opened Tiling
  import opened Entry
  import opened PageTable
  import opened Paging
  import opened Areas
  import opened Spaces
  import opened Effects
  import opened HeapPages
  import opened Kheap
  import opened HeapCells

  /** The first page behind the region of the kernel's areas: the kernel image and its heap follow. */
  const HEAP_PAGE: nat := 0xF_FFF8_0000

  // ----- frames that the manager has nothing to do with -----

  /** Someone else holds the frame: it is in use, but it is no table and backs no page that a fault filled. */
  ghost predicate Aside(t: seq<Block>, tabs: map<nat, Table>, own: map<nat, Use>, p: nat) {
    InUse(t, p) && p !in tabs && p !in own
  }

  ghost predicate AsideKept(s: State, s': State, own: map<nat, Use>, own': map<nat, Use>) {
    forall p: nat | Aside(s.t, s.tabs, own, p) :: Aside(s'.t, s'.tabs, own', p)
  }

  /** The kernel translates the pages behind its region as before. */
  ghost predicate SameAbove(mem: Memory, mem': Memory, kernel: nat) {
    forall v: nat | HEAP_PAGE <= v < Span(4) :: Translate(mem', kernel, v) == Translate(mem, kernel, v)
  }

  lemma FaultAside(s: State, s': State, frame: nat, target: nat, w: nat, flags: nat, own: map<nat, Use>, kernel: nat)
    requires Faulted(s, s', frame, target, w, flags) && IsRoot(s.tabs, kernel) && InRegion(target == kernel, w)
    ensures SameAbove(s.mem, s'.mem, kernel) && AsideKept(s, s', own, own[frame := Use(target, w)])
  {
    hide Translate, RootsKept, EntryFor, Zeros;
  }

  lemma AsideRefl(s: State, own: map<nat, Use>)
    ensures AsideKept(s, s, own, own)
  {
  }

  lemma AreasSorted(areas: seq<Area>, kern: bool)
    requires AreasOk(areas, kern)
    ensures Sorted(areas, RegionStart(kern))
  {
  }

  lemma AsideTrans(s: State, s': State, s'': State, own: map<nat, Use>, own': map<nat, Use>, own'': map<nat, Use>)
    requires AsideKept(s, s', own, own') && AsideKept(s', s'', own', own'')
    ensures AsideKept(s, s'', own, own'')
  {
  }

  lemma SameAboveRefl(mem: Memory, kernel: nat)
    ensures SameAbove(mem, mem, kernel)
  {
  }

  lemma PlacedAside(s: State, s1: State, s': State, own: map<nat, Use>, kernel: nat)
    requires AsideKept(s, s1, own, own) && Builds(s1, s')
    ensures AsideKept(s, s', own, own) && AsideKept(s1, s', own, own)
  {
    ExtendsAside(s1, s', own);
    AsideTrans(s, s1, s', own, own, own);
  }

  lemma AreaLeavesOwned(mem: Memory, spaces: map<nat, seq<Area>>, own: map<nat, Use>, r: nat, i: nat)
    requires Owned(mem, spaces, own) && r in spaces && i < |spaces[r]|
    ensures !IsMmio(spaces[r][i]) ==>
              forall v: nat, p: nat | Covers(spaces[r][i], v) && LeafAt(mem, r, v, p) :: p in own
  {
    hide Translate, Covers, IsMmio;
    forall v: nat, p: nat | !IsMmio(spaces[r][i]) && Covers(spaces[r][i], v) && LeafAt(mem, r, v, p) ensures p in own {
      assert AnonPage(spaces[r], v);
    }
  }

  lemma ExtendsAside(s: State, s': State, own: map<nat, Use>)
    requires Extends(s, s')
    ensures AsideKept(s, s', own, own)
  {
  }

  lemma NewRootAside(s: State, s': State, own: map<nat, Use>, root: nat, kernel: nat)
    requires Extends(s, s'.(mem := s.mem, tabs := s.tabs)) && SameTranslations(s.mem, s'.mem, s.tabs)
    requires s'.tabs == s.tabs[root := Table(4, 0, root)] && root < |s.t| && s.t[root].status == Free
    requires IsRoot(s.tabs, kernel)
    ensures AsideKept(s, s', own, own) && SameAbove(s.mem, s'.mem, kernel)
  {
    hide Translate;
  }

  lemma DropRootAside(s: State, s': State, own: map<nat, Use>, root: nat)
    requires root in s.tabs && s'.tabs == s.tabs - {root} && Freed(s.t, s'.t, root, 0)
    ensures AsideKept(s, s', own, own)
  {
    hide Sound, Maximal;
    forall p: nat | p < |s.t| ensures InRange(p, root, 0) <==> p == root {}
  }

  /** Pages of an area are below the heap, whatever is mapped there. */
  lemma AreaBelow(mem: Memory, mem': Memory, tabs: map<nat, Table>, space: nat, areas: seq<Area>, kern: bool, i: nat,
                  plan: Plan, kernel: nat)
    requires AreasOk(areas, kern) && i < |areas| && IsRoot(tabs, kernel)
    requires RegionMapped(mem, mem', tabs, space, Lo(areas[i]), 1, areas[i].size / PAGE, plan)
    ensures SameAbove(mem, mem', kernel)
  {
    hide Translate, PageOf;
    AreaPages(areas[i], kern);
    forall v: nat | HEAP_PAGE <= v < Span(4) ensures Translate(mem', kernel, v) == Translate(mem, kernel, v) {
      assert Covers(areas[i], v) ==> InRegion(kern, v);
      assert !(0 <= SlotOf(Lo(areas[i]), 1, v) < areas[i].size / PAGE);
    }
  }

  lemma FreedAside(s: State, s': State, space: nat, areas: seq<Area>, kern: bool, i: nat, own: map<nat, Use>,
                   kernel: nat)
    requires AreasOk(areas, kern) && i < |areas| && AreaFreed(s, s', space, areas[i]) && s'.tabs == s.tabs
    requires IsRoot(s.tabs, kernel)
    requires !IsMmio(areas[i]) ==>
               forall v: nat, p: nat | Covers(areas[i], v) && LeafAt(s.mem, space, v, p) :: p in own
    ensures SameAbove(s.mem, s'.mem, kernel) && AsideKept(s, s', own, Forget(own, space, areas[i]))
  {
    hide Translate, AreasOk, RegionMapped, IsMmio;
    AreaBelow(s.mem, s'.mem, s.tabs, space, areas, kern, i, Erase, kernel);
    var hi := if IsMmio(areas[i]) then Lo(areas[i]) else Hi(areas[i]);
    forall v: nat, p: nat | Lo(areas[i]) <= v < hi && LeafAt(s.mem, space, v, p) ensures p in own {
      assert Covers(areas[i], v);
    }
  }

  // ----- the heap's pages -----

  /** The first n pages from lo on, behind the kernel region, have frames of their own that back no page of a space. */
  ghost predicate HeapSafe(s: State, own: map<nat, Use>, kernel: nat, lo: nat, n: nat) {
    && HEAP_PAGE <= lo && lo + n <= Span(4)
    && HeapBacked(s.mem, kernel, lo, n) && HeapHeld(s.mem, s.t, s.tabs, kernel, lo, n)
    && (forall v: nat, p: nat | lo <= v < lo + n && LeafAt(s.mem, kernel, v, p) :: p !in own)
  }

  lemma HeapKept(s: State, s': State, own: map<nat, Use>, own': map<nat, Use>, kernel: nat, lo: nat, n: nat)
    requires HeapSafe(s, own, kernel, lo, n) && SameAbove(s.mem, s'.mem, kernel) && AsideKept(s, s', own, own')
    ensures HeapSafe(s', own', kernel, lo, n)
  {
    hide Translate, HeapBacked, Aside;
    BackedSame(s.mem, s'.mem, kernel, lo, n);
    forall v: nat, p: nat | lo <= v < lo + n && LeafAt(s'.mem, kernel, v, p)
      ensures LeafAt(s.mem, kernel, v, p) && InUse(s'.t, p) && p !in s'.tabs && p !in own'
    {
      assert LeafAt(s.mem, kernel, v, p);
      AsideOf(s, s', own, own', p);
    }
  }

  lemma AsideOf(s: State, s': State, own: map<nat, Use>, own': map<nat, Use>, p: nat)
    requires AsideKept(s, s', own, own') && InUse(s.t, p) && p !in s.tabs && p !in own
    ensures InUse(s'.t, p) && p !in s'.tabs && p !in own'
  {
    assert Aside(s.t, s.tabs, own, p);
  }

  lemma BackedSame(mem: Memory, mem': Memory, kernel: nat, lo: nat, n: nat)
    requires HeapBacked(mem, kernel, lo, n) && SameAbove(mem, mem', kernel) && HEAP_PAGE <= lo
    ensures HeapBacked(mem', kernel, lo, n)
  {
    hide Translate, KernelData;
    forall v: nat | lo <= v < Span(4) ensures NoHuge(mem', kernel, v) { assert NoHuge(mem, kernel, v); }
  }

  /** An extension of the heap takes no frame that a fault put behind a page. */
  lemma HeapLonger(s: State, s': State, own: map<nat, Use>, kernel: nat, lo: nat, n: nat, k: nat, taken: set<nat>)
    requires HeapSafe(s, own, kernel, lo, n) && HeapGrew(s, s', kernel, lo + n, taken) && IsRoot(s.tabs, kernel)
    requires Held(s.t, s.tabs, s.pages, own) && lo + n + k <= Span(4)
    requires HeapBacked(s'.mem, kernel, lo, n + k) && HeapHeld(s'.mem, s'.t, s'.tabs, kernel, lo, n + k)
    requires forall p: nat | IsLeafOf(s'.mem, kernel, lo + n, lo + n + k, p) :: p in taken
    ensures HeapSafe(s', own, kernel, lo, n + k)
  {
    hide Translate, HeapBacked, HeapHeld, Extends, RootsFrom;
    forall v: nat, p: nat | lo <= v < lo + n + k && LeafAt(s'.mem, kernel, v, p) ensures p !in own {
      if v < lo + n {
        assert LeafAt(s.mem, kernel, v, p);
      } else {
        assert IsLeafOf(s'.mem, kernel, lo + n, lo + n + k, p);
        assert TakenFrame(s, s', p);
      }
    }
  }

  /** What the manager promises about all spaces survives an extension of the heap. */
  lemma GrewSpaces(s: State, s': State, kernel: nat, w0: nat, taken: set<nat>, spaces: map<nat, seq<Area>>,
                   own: map<nat, Use>)
    requires HeapGrew(s, s', kernel, w0, taken) && HEAP_PAGE <= w0 && Typed(s.mem, s.tabs)
    requires AllSpaces(s.mem, s.tabs, kernel, spaces) && AllSee(s.mem, kernel, spaces)
    requires Owned(s.mem, spaces, own) && Held(s.t, s.tabs, s.pages, own)
    ensures AllSpaces(s'.mem, s'.tabs, kernel, spaces) && AllSee(s'.mem, kernel, spaces)
    ensures Owned(s'.mem, spaces, own) && Held(s'.t, s'.tabs, s'.pages, own) && AsideKept(s, s', own, own)
  {
    hide Translate, Extends, RootsFrom, RootsGrown, AllSee, AnonPage, Typed, SpaceOk, Held, AsideKept, Owned;
    RootsOf(s.mem, s.tabs, kernel, spaces);
    FromGrown(s.mem, s'.mem, s.tabs, kernel, Index(w0, 4));
    AllSeeStays(s.mem, s'.mem, s.tabs, kernel, true, kernel, spaces);
    HeldExtends(s, s', own);
    ExtendsAside(s, s', own);
    ExtendsFacts(s, s');
    forall r | r in spaces
      ensures IsRoot(s'.tabs, r) && SpaceOk(s'.mem, r, r == kernel, spaces[r])
      ensures SameRegion(s.mem, s'.mem, r, r == kernel)
    {
      SameSpaceOk(s.mem, s'.mem, r, r == kernel, spaces[r]);
    }
    OwnedSame(s.mem, s'.mem, kernel, spaces, own);
  }

  lemma OwnedSame(mem: Memory, mem': Memory, kernel: nat, spaces: map<nat, seq<Area>>, own: map<nat, Use>)
    requires Owned(mem, spaces, own)
    requires forall r | r in spaces :: SpaceOk(mem, r, r == kernel, spaces[r]) && SameRegion(mem, mem', r, r == kernel)
    ensures Owned(mem', spaces, own)
  {
    hide Translate, AnonPage, SpaceOk, SameRegion;
    forall r: nat, v: nat, p: nat | r in spaces && AnonPage(spaces[r], v) && LeafAt(mem', r, v, p)
      ensures p in own && own[p] == Use(r, v)
    {
      SameSpaceOk(mem, mem', r, r == kernel, spaces[r]);
      assert LeafAt(mem, r, v, p);
    }
  }

  /** k extensions of the heap behind address e */
  lemma LongerHeap(s: State, s': State, own: map<nat, Use>, kernel: nat, start: nat, e: nat, k: nat, taken: set<nat>)
    requires UPPER <= start <= e && start % PAGE == 0 && e % PAGE == 0 && e + k * EXTENSION < U64
    requires HeapSafe(s, own, kernel, PageOf(start), (e - start) / PAGE) && IsRoot(s.tabs, kernel)
    requires HeapGrew(s, s', kernel, PageOf(e), taken) && Held(s.t, s.tabs, s.pages, own)
    requires var n := (e + k * EXTENSION - start) / PAGE;
             HeapBacked(s'.mem, kernel, PageOf(start), n) && HeapHeld(s'.mem, s'.t, s'.tabs, kernel, PageOf(start), n)
    requires forall p: nat | NewLeaf(s'.mem, kernel, PageOf(e), k, p) :: p in taken
    ensures HeapSafe(s', own, kernel, PageOf(start), (e + k * EXTENSION - start) / PAGE) && HEAP_PAGE <= PageOf(e)
  {
    hide PageOf, HeapBacked, HeapHeld, HeapGrew, Held;
    StartPages(start, e);
    ExtensionPages(e, k);
    var n, j := (e - start) / PAGE, k * (EXTENSION / PAGE);
    assert (e + k * EXTENSION - start) / PAGE == n + j;
    forall p: nat | IsLeafOf(s'.mem, kernel, PageOf(start) + n, PageOf(start) + n + j, p) ensures p in taken {
      assert NewLeaf(s'.mem, kernel, PageOf(e), k, p);
    }
    HeapLonger(s, s', own, kernel, PageOf(start), n, j, taken);
  }

  lemma RegionUnmapped(s: State, s': State, kernel: nat, w0: nat, taken: set<nat>)
    requires HeapGrew(s, s', kernel, w0, taken) && HEAP_PAGE <= w0 && IsRoot(s.tabs, kernel)
    requires forall v: nat | InRegion(true, v) :: Translate(s.mem, kernel, v) == Fault
    ensures forall v: nat | InRegion(true, v) :: Translate(s'.mem, kernel, v) == Fault
  {
    hide Translate;
  }
}
