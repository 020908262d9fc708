/** The kernel's page-table code, over tables that live in frames of the buddy allocator. */
module Paging {
  import opened Bits
  import opened Tiling
  import opened Pmm
  import opened Entry
  import opened PageTable
  import opened Regions
  import BuddyStore

  /** Frame f is a block of its own that someone holds. */
  ghost predicate InUse(t: seq<Block>, f: nat) {
    0 < f < |t| && t[f] == Block(f, 0, Used)
  }

  /** Blocks that were handed out stay as they are. */
  ghost predicate Keeps(t: seq<Block>, u: seq<Block>) {
    |u| == |t| && forall p | 0 <= p < |t| && t[p].status != Free :: u[p] == t[p]
  }

  /** Tables are only added, and never roots. */
  ghost predicate Grows(tabs: map<nat, Table>, tabs': map<nat, Table>) {
    && (forall g | g in tabs :: g in tabs' && tabs'[g] == tabs[g])
    && (forall g | g in tabs' && g !in tabs :: tabs'[g].level < 4)
  }

  /** Memory, page tables and allocator at one moment */
  datatype State = State(mem: Memory, tabs: map<nat, Table>, t: seq<Block>, pages: seq<BuddyStore.Page>)

  /**
   Frames become tables only when they were free; frames that hold no table keep their contents, held frames their
   counts.
   */
  ghost predicate Extends(s: State, s': State) {
    && Grows(s.tabs, s'.tabs) && Keeps(s.t, s'.t)
    && (forall g | g in s'.tabs && g !in s.tabs :: g < |s.t| && s.t[g].status == Free)
    && (forall g | g in s.mem && g !in s'.tabs :: g in s'.mem && s'.mem[g] == s.mem[g])
    && |s'.pages| == |s.pages| == |s.t|
    && (forall p | 0 <= p < |s.t| && s.t[p].status != Free :: s'.pages[p] == s.pages[p])
  }

  /** Frames that were taken hold tables now. */
  ghost predicate OnlyTables(s: State, s': State) {
    |s'.t| == |s.t| && forall p: nat | p < |s.t| && s.t[p].status == Free && s'.t[p].status != Free :: p in s'.tabs
  }

  /** The tables grew, and nothing but new tables took frames. */
  ghost predicate Builds(s: State, s': State) {
    Extends(s, s') && OnlyTables(s, s')
  }

  lemma BuildsTrans(s: State, s': State, s'': State)
    requires Builds(s, s') && Builds(s', s'')
    ensures Builds(s, s'')
  {
    forall p: nat | p < |s.t| && s.t[p].status == Free && s''.t[p].status != Free ensures p in s''.tabs {
      if s'.t[p].status != Free { assert p in s'.tabs; }
    }
  }

  lemma NoneTaken(s: State, s': State)
    requires Extends(s, s') && s'.t == s.t
    ensures Builds(s, s')
  {
  }

  /** Taking one frame and linking it as a table */
  lemma LinkBuilds(s: State, s1: State, s': State, f: nat, i: nat, c: nat, e: nat)
    requires Extends(s, s1) && s1.mem == s.mem && s1.tabs == s.tabs && CanLink(s1.mem, s1.tabs, f, i, c, e)
    requires c < |s.t| && s.t[c].status == Free
    requires forall p: nat | p < |s.t| && p != c :: s1.t[p].status == Free <==> s.t[p].status == Free
    requires s' == s1.(mem := Linked(s1.mem, f, i, c, e), tabs := s1.tabs[c := Below(s1.tabs[f], f, i)])
    ensures Builds(s, s')
  {
    hide Typed;
  }

  lemma BuildsWrite(s: State, s': State, f: nat, i: nat, e: nat)
    requires Builds(s, s') && f in s'.tabs && f in s'.mem && i < |s'.mem[f]|
    ensures Builds(s, s'.(mem := Write(s'.mem, f, i, e)))
  {
  }

  lemma ExtendsRefl(s: State)
    ensures |s.pages| == |s.t| ==> Extends(s, s)
  {
  }

  lemma ExtendsTrans(s: State, s': State, s'': State)
    requires Extends(s, s') && Extends(s', s'')
    ensures Extends(s, s'')
  {
  }

  /** What is needed most: the roots are the same, and blocks in use stay. */
  lemma ExtendsFacts(s: State, s': State)
    requires Extends(s, s')
    ensures (forall r :: IsRoot(s.tabs, r) <==> IsRoot(s'.tabs, r)) && Keeps(s.t, s'.t)
  {
  }

  /** The effect of pmm_page_dec_ref on frame f: a count less, or the block freed */
  ghost predicate Dropped(t: seq<Block>, t': seq<Block>, pages: seq<BuddyStore.Page>, pages': seq<BuddyStore.Page>,
                          f: nat) {
    && |pages'| == |pages| == |t| == |t'|
    && if f >= |t| || t[f].status != Used then
         t' == t && pages' == pages
       else if pages[f].refs > 1 then
         t' == t && pages' == pages[f := pages[f].(refs := pages[f].refs - 1)]
       else
         && Freed(t, t', f, t[f].order)
         && forall p | 0 <= p < |t'| && t'[p].status != Free :: pages'[p] == pages[p]
  }

  class Machine {
    const pmm: Buddies
    var mem: Memory                  // physical memory, word by word
    ghost var tabs: map<nat, Table>  // the frames that hold page tables

    ghost predicate Valid()
      reads this, pmm, pmm.pages, pmm.links, pmm.nrFree
    {
      && pmm.Valid() && pmm.pages.Length == pmm.total == |pmm.t|
      && (pmm.total > 0 ==> pmm.t[0] == Block(0, 0, Reserved))
      && pmm.total * PAGE <= PHYS_LIMIT
      && Typed(mem, tabs)
      && (forall f: nat | f < pmm.total :: f in mem && |mem[f]| == 512)
      && (forall f | f in tabs :: InUse(pmm.t, f) && f < pmm.pages.Length && pmm.pages[f].refs == 1)
    }

    ghost function Now(): State
      reads this, pmm, pmm.pages
    {
      State(mem, tabs, pmm.t, pmm.pages[..])
    }

    /** What most callers need of Valid */
    lemma Sane()
      requires Valid()
      ensures Typed(mem, tabs) && pmm.pages.Length == pmm.total == |pmm.t| && Builds(Now(), Now())
    {
      ExtendsRefl(Now());
    }

    /** Memory with arbitrary contents and no page table yet */
    constructor (b: Buddies, ram: Memory)
      requires b.Valid() && b.total * PAGE <= PHYS_LIMIT
      requires forall f: nat | f < b.total :: f in ram && |ram[f]| == 512
      ensures Valid() && pmm == b && mem == ram && tabs == map[]
    {
      pmm, mem, tabs := b, ram, map[];
    }

    /** pmm_alloc(PAGING_PAGE_SIZE) */
    method AllocFrame() returns (phys: nat)
      requires Valid()
      modifies pmm.pages, pmm.links, pmm.nrFree, pmm`lists, pmm`t
      ensures Valid()
      ensures Extends(old(Now()), Now())
      ensures phys == 0 <==> NoFree(old(pmm.t))
      ensures phys == 0 ==> pmm.t == old(pmm.t)
      ensures phys != 0 ==> phys % PAGE == 0 && phys < PHYS_LIMIT
      ensures phys != 0 ==> var f := phys / PAGE;
                && f !in tabs && f < pmm.total && old(pmm.t)[f].status == Free
                && InUse(pmm.t, f) && pmm.pages[f].refs == 1
                && forall p | 0 <= p < pmm.total && p != f :: pmm.t[p].status == Free <==> old(pmm.t)[p].status == Free
    {
      hide Sound, Maximal, BuddyStore.Store, BuddyStore.Held, Typed;
      OneFrame();
      FreeFrameIsRun(pmm.t);
      phys := pmm.AllocBytes(PAGE);
      if phys != 0 {
        ghost var f := phys / PAGE;
        assert Taken(old(pmm.t), pmm.t, f, 0);
        assert forall p | 0 <= p < pmm.total :: InRange(p, f, 0) <==> p == f;
      }
    }

    /** memset of a frame that holds no table */
    method ZeroFrame(f: nat)
      requires Valid() && f < pmm.total && f !in tabs
      modifies `mem
      ensures Valid() && mem == old(mem)[f := Zeros()] && SameTranslations(old(mem), mem, tabs)
    {
      hide Buddies.ValidBut, Sound, Maximal;
      PlainWrite(mem, tabs, f, Zeros());
      mem := mem[f := Zeros()];
    }

    /** A fresh frame becomes an empty table behind slot i of table f. */
    method Link(f: nat, i: nat, phys: nat)
      requires Valid() && f in tabs && 2 <= tabs[f].level <= 4 && i < 512 && f in mem && |mem[f]| == 512
      requires !Present(mem[f][i]) && phys % PAGE == 0 && phys < PHYS_LIMIT
      requires var c := phys / PAGE; c !in tabs && c < pmm.total && InUse(pmm.t, c) && pmm.pages[c].refs == 1
      modifies `mem, `tabs
      ensures Valid() && CanLink(old(mem), old(tabs), f, i, phys / PAGE, MakeDirectory(phys))
      ensures mem == Linked(old(mem), f, i, phys / PAGE, MakeDirectory(phys))
      ensures tabs == old(tabs)[phys / PAGE := Below(old(tabs)[f], f, i)]
    {
      hide Buddies.ValidBut, Sound, Maximal, Typed;
      var c, e := phys / PAGE, MakeDirectory(phys);
      DirectoryFields(phys);
      LinkTyped(mem, tabs, f, i, c, e);
      mem := mem[c := Zeros()];
      var words: seq<nat> := mem[f][i := e];
      tabs := tabs[c := Below(tabs[f], f, i)];
      mem := mem[f := words];
    }

    /** One level of vmm_get_pte: follow the entry, creating the table when asked to. */
    method NextTable(f: nat, i: nat, allocate: bool, ghost root: nat, ghost w: nat) returns (child: nat, ok: bool)
      requires Valid() && IsRoot(tabs, root) && w < Span(4)
      requires f in tabs && 2 <= tabs[f].level <= 4 && i == Index(w, tabs[f].level)
      requires Reaches(mem, root, 4, w, f, tabs[f].level)
      requires f in mem && |mem[f]| == 512
      modifies `mem, `tabs, pmm.pages, pmm.links, pmm.nrFree, pmm`lists, pmm`t
      ensures Valid() && Builds(old(Now()), Now())
      ensures SameTranslations(old(mem), mem, old(tabs)) && RootsKept(old(mem), mem, old(tabs), root, Index(w, 4))
      ensures Huge(old(mem)[f][i]) ==> ok && Now() == old(Now()) && child == FrameOf(mem[f][i])
      ensures ok && !Huge(old(mem)[f][i]) ==> child in tabs && tabs[child].level == old(tabs)[f].level - 1
      ensures ok && !Huge(old(mem)[f][i]) ==> Reaches(mem, root, 4, w, child, old(tabs)[f].level - 1)
      ensures ok && Present(old(mem)[f][i]) ==> Now() == old(Now())
      ensures ok && !Present(old(mem)[f][i]) ==> child in mem && mem[child] == Zeros()
      ensures !ok || !allocate ==> mem == old(mem) && tabs == old(tabs) && pmm.t == old(pmm.t)
      ensures !allocate ==> pmm.pages[..] == old(pmm.pages[..])
      ensures !ok ==> !Present(mem[f][i])
      ensures allocate && !ok ==> NoFree(pmm.t)
    {
      hide Machine.Valid, Buddies.ValidBut, Sound, Maximal, Typed, SameTranslations, Reaches, RootsKept, Extends,
           OnlyTables;
      ghost var l := tabs[f].level;
      Sane();
      SameRefl(mem, tabs);
      KeptRefl(mem, tabs, root, Index(w, 4));
      OnlyRoot(mem, tabs, root, w, f, l);
      HugePresent(mem, tabs, f, i);
      if !Present(mem[f][i]) {
        if !allocate { return 0, false; }
        var phys := AllocFrame();
        if phys == 0 {
          NoneTaken(old(Now()), Now());
          return 0, false;
        }
        ghost var m, ts, c, e, s1 := mem, tabs, phys / PAGE, MakeDirectory(phys), Now();
        Link(f, i, phys);
        LinkBuilds(old(Now()), s1, Now(), f, i, c, e);
        LinkSame(m, ts, f, i, c, e);
        KeptLink(m, ts, root, w, f, i, c, e);
        RootOnWay(m, ts, root, w);
        ReachLinked(m, ts, root, w, f, l, f, i, c, e);
        ReachExtend(mem, root, 4, w, f, l, c);
      } else if !Huge(mem[f][i]) {
        Present1(mem, tabs, root, w, f, l);
      }
      child := FrameOf(mem[f][i]);
      ok := true;
    }

    /** The first two levels of vmm_get_pte: the page directory of the address */
    method GetDirectory(root: nat, i4: nat, i3: nat, allocate: bool, ghost w: nat) returns (pd: nat, ok: bool)
      requires Valid() && IsRoot(tabs, root) && w < Span(4) && i4 == Index(w, 4) && i3 == Index(w, 3)
      modifies `mem, `tabs, pmm.pages, pmm.links, pmm.nrFree, pmm`lists, pmm`t
      ensures Valid() && Builds(old(Now()), Now())
      ensures SameTranslations(old(mem), mem, old(tabs)) && RootsKept(old(mem), mem, old(tabs), root, i4)
      ensures ok ==> pd in tabs && tabs[pd].level == 2 && Reaches(mem, root, 4, w, pd, 2)
      ensures ok ==> Now() == old(Now()) || (pd in mem && mem[pd] == Zeros())
      ensures !allocate ==> mem == old(mem) && tabs == old(tabs) && pmm.t == old(pmm.t)
      ensures !allocate ==> pmm.pages[..] == old(pmm.pages[..])
      ensures !ok ==> Unreached(mem, root, w, 2)
      ensures allocate && !ok ==> NoFree(pmm.t)
    {
      hide Machine.Valid, Buddies.ValidBut, Sound, Maximal, Typed, SameTranslations, Reaches, Index, Unreached,
           RootsKept, Extends, OnlyTables;
      Sane();
      TopPath(mem, tabs, root, w);
      var pdpr;
      pdpr, ok := NextTable(root, i4, allocate, root, w);
      if !ok {
        DeadEnd(mem, root, w, root, 4, 2);
        return 0, false;
      }
      ghost var m, ts, s1 := mem, tabs, Now();
      ExtendsFacts(old(Now()), s1);
      Sane();
      UpperNotHuge(mem, tabs, pdpr, i3);
      ZeroAbsent();
      pd, ok := NextTable(pdpr, i3, allocate, root, w);
      SameTrans(old(mem), m, mem, old(tabs), ts);
      KeptTrans(old(mem), m, mem, old(tabs), ts, root, i4);
      BuildsTrans(old(Now()), s1, Now());
      if !ok { DeadEnd(mem, root, w, pdpr, 3, 2); }
    }

    /**
     vmm_get_pte: the table and slot of the entry for `virt`. Whatever happens, also when memory runs out
     half way, no translation of any root changes. The walk does not look at PS: for a 4KB page inside a large page it
     takes the memory behind the large page for a table.
     */
    method GetPte(root: nat, virt: nat, allocate: bool, huge: bool) returns (f: nat, i: nat, ok: bool)
      requires Valid() && IsRoot(tabs, root)
      modifies `mem, `tabs, pmm.pages, pmm.links, pmm.nrFree, pmm`lists, pmm`t
      ensures Valid() && Builds(old(Now()), Now())
      ensures SameTranslations(old(mem), mem, old(tabs))
      ensures RootsKept(old(mem), mem, old(tabs), root, Index(PageOf(virt), 4))
      ensures ok ==> i == Index(PageOf(virt), if huge then 2 else 1)
      ensures ok && (huge || NoHuge(old(mem), root, PageOf(virt))) ==>
                Reaches(mem, root, 4, PageOf(virt), f, if huge then 2 else 1)
      ensures !huge && !NoHuge(old(mem), root, PageOf(virt)) ==>
                ok && Now() == old(Now()) && f == FrameOf(Translate(mem, root, PageOf(virt)).entry)
      ensures !allocate ==> mem == old(mem) && tabs == old(tabs) && pmm.t == old(pmm.t)
      ensures !allocate ==> pmm.pages[..] == old(pmm.pages[..])
      ensures !allocate && !ok ==> Unreached(mem, root, PageOf(virt), if huge then 2 else 1)
      ensures allocate && !ok ==> NoFree(pmm.t)
    {
      hide Machine.Valid, Buddies.ValidBut, Sound, Maximal, Typed, SameTranslations, Reaches, Index, NoHuge, Unreached,
           RootsKept, Extends, OnlyTables;
      Sane();
      VirtIndex(virt);
      ghost var w := PageOf(virt);
      var i4, i3 := (virt / 0x80_0000_0000) % 512, (virt / 0x4000_0000) % 512;
      var i2, i1 := (virt / 0x20_0000) % 512, (virt / 0x1000) % 512;
      f, ok := GetDirectory(root, i4, i3, allocate, w);
      ExtendsFacts(old(Now()), Now());
      Sane();
      if !ok {
        UnreachedDeeper(mem, root, w);
        UnreachedSmall(old(mem), mem, old(tabs), tabs, root, w);
        return 0, 0, false;
      }
      if huge { return f, i2, true; }
      ghost var m, ts, s1, pd := mem, tabs, Now(), f;
      DirectorySlot(old(mem), mem, old(tabs), tabs, root, w, f);
      f, ok := NextTable(f, i2, allocate, root, w);
      SameTrans(old(mem), m, mem, old(tabs), ts);
      KeptTrans(old(mem), m, mem, old(tabs), ts, root, i4);
      BuildsTrans(old(Now()), s1, Now());
      i := i1;
      if !ok { DeadEnd(mem, root, w, pd, 2, 1); }
    }

    /**
     paging_map_page: an update of the translation at one page, or at one large page, and nowhere else,
     although up to three tables may be created. It halts for address 0 and when a table cannot be
     allocated, and then no translation has changed. A 4KB page inside a large page is not mapped: its entry is stored
     in the memory behind the large page.
     */
    method MapPage(root: nat, virt: nat, phys: nat, flags: nat, huge: bool) returns (halted: bool)
      requires Valid() && IsRoot(tabs, root) && IsFlags(flags)
      requires virt == 0 || phys < PHYS_LIMIT
      modifies `mem, `tabs, pmm.pages, pmm.links, pmm.nrFree, pmm`lists, pmm`t
      ensures virt == 0 ==> halted
      ensures halted ==> virt == 0 || NoFree(pmm.t)
      ensures halted ==> SameTranslations(old(mem), mem, old(tabs))
      ensures Fitting(old(mem), root, virt, huge) ==> Valid() && Builds(old(Now()), Now())
      ensures Fitting(old(mem), root, virt, huge) ==>
                RootsKept(old(mem), mem, old(tabs), root, Index(PageOf(virt), 4))
      ensures !Fitting(old(mem), root, virt, huge) ==>
                var f := FrameOf(Translate(old(mem), root, PageOf(virt)).entry);
                && !halted && (f !in tabs ==> Valid()) && tabs == old(tabs) && pmm.t == old(pmm.t)
                && mem == Stored(old(mem), f, Index(PageOf(virt), 1), EntryFor(phys, flags, false))
      ensures !halted && Fitting(old(mem), root, virt, huge) ==>
                Updated(old(mem), mem, old(tabs), root, PageOf(virt), if huge then 2 else 1,
                        EntryFor(phys, flags, huge))
      ensures !halted && Fitting(old(mem), root, virt, huge) ==>
                RegionMaps(mem, root, PageOf(virt), 1, phys, flags, huge)
    {
      hide Machine.Valid, Buddies.ValidBut, Sound, Maximal, Typed, SameTranslations, Reaches, Index, NoHuge, Updated,
           EntryFor, LeafEntry, Extends, OnlyTables, RootsKept, Stored, RegionMaps;
      Sane();
      SameRefl(mem, tabs);
      KeptRefl(mem, tabs, root, Index(PageOf(virt), 4));
      if virt == 0 { return true; }
      var e := LeafWord(phys, flags, huge);
      var f, i, ok := GetPte(root, virt, true, huge);
      if !ok { return true; }
      ghost var m, s1, w, l := mem, Now(), PageOf(virt), if huge then 2 else 1;
      ExtendsFacts(old(Now()), Now());
      SetLeaf(root, f, i, w, l, e);
      if Fitting(old(mem), root, virt, huge) {
        KeptTrans(old(mem), m, mem, old(tabs), tabs, root, Index(w, 4));
        BuildsWrite(old(Now()), s1, f, i, e);
        ComposeUpdate(old(mem), m, mem, old(tabs), tabs, root, w, l, e);
        UpdateMaps(old(mem), mem, old(tabs), root, w, phys, flags, huge);
      }
      halted := false;
    }

    /** The leaf entry: the address rounded down to the page size, the flags, PRESENT and PS */
    static method LeafWord(phys: nat, flags: nat, huge: bool) returns (e: nat)
      requires IsFlags(flags) && phys < PHYS_LIMIT
      ensures e == EntryFor(phys, flags, huge) && LeafEntry(e, if huge then 2 else 1) && Maps(e, phys, flags, huge)
    {
      hide Or, LeafEntry, IsFlags, Present, AddrOf, Maps;
      EntryFields(phys, flags, huge);
      HugeAligned(phys);
      var base := phys;
      if huge && base % HUGE_SIZE != 0 { base := base - base % HUGE_SIZE; }
      else if base % PAGE != 0 { base := base - base % PAGE; }
      e := Make(base, flags);
      if huge { e := Or(e, PS); }
    }

    /**
     Stores a leaf entry in the slot that vmm_get_pte found. When the walk took a frame of a large page for a table,
     the word goes there all the same.
     */
    method SetLeaf(root: nat, f: nat, i: nat, ghost w: nat, ghost l: nat, e: nat)
      requires Valid() && IsRoot(tabs, root) && w < Span(4) && 1 <= l <= 2 && LeafEntry(e, l) && i == Index(w, l)
      modifies `mem
      ensures mem == Stored(old(mem), f, i, e) && (f !in tabs ==> Valid())
      ensures Reaches(old(mem), root, 4, w, f, l) ==>
                Valid() && f in tabs && f in old(mem) && i < |old(mem)[f]| && mem == Write(old(mem), f, i, e)
      ensures Reaches(old(mem), root, 4, w, f, l) ==>
                Updated(old(mem), mem, tabs, root, w, l, e) && RootsKept(old(mem), mem, tabs, root, Index(w, 4))
    {
      hide Buddies.ValidBut, Sound, Maximal, Typed, Reaches, Index, Updated, RootsKept;
      if f in mem && i < |mem[f]| {
        if Reaches(mem, root, 4, w, f, l) {
          WriteUpdates(mem, tabs, root, w, f, l, e);
          OnlyRoot(mem, tabs, root, w, f, l);
          KeptWrite(mem, tabs, root, Index(w, 4), f, i, e);
        } else if f !in tabs {
          PlainWrite(mem, tabs, f, mem[f][i := e]);
        }
        var words: seq<nat> := mem[f][i := e];
        mem := mem[f := words];
      } else if Reaches(mem, root, 4, w, f, l) {
        OnlyRoot(mem, tabs, root, w, f, l);
        HugePresent(mem, tabs, f, i);
      }
    }

    /**
     paging_unmap_page: an update that removes the page. With freePhysical the frame loses a reference. For a
     page that is not mapped nothing is written and nothing is freed: it resolves to frame 0, which is reserved.
     */
    method UnmapPage(root: nat, virt: nat, huge: bool, freePhysical: bool) returns (halted: bool)
      requires Valid() && IsRoot(tabs, root)
      requires virt == 0 || OwnSize(mem, root, PageOf(virt), huge)
      requires freePhysical && virt != 0 ==> MayDrop(pmm.t, tabs, Translate(mem, root, PageOf(virt)))
      modifies `mem, `tabs, pmm.pages, pmm.links, pmm.nrFree, pmm`lists, pmm`t
      ensures Valid() && tabs == old(tabs) && (halted <==> virt == 0)
      ensures RootsKept(old(mem), mem, tabs, root, Index(PageOf(virt), 4))
      ensures halted || Translate(old(mem), root, PageOf(virt)) == Fault ==> mem == old(mem)
      ensures Erases(old(mem), mem)
      ensures !halted ==> Updated(old(mem), mem, tabs, root, PageOf(virt), if huge then 2 else 1, 0)
      ensures var leaf := Translate(old(mem), root, PageOf(virt));
              if halted || !freePhysical || leaf == Fault then
                pmm.t == old(pmm.t) && pmm.pages[..] == old(pmm.pages[..])
              else
                Dropped(old(pmm.t), pmm.t, old(pmm.pages[..]), pmm.pages[..], FrameOf(leaf.entry))
    {
      hide Buddies.ValidBut, Sound, Maximal, Typed, SameTranslations, Reaches, Index, Unreached, Updated, Translate,
           Freed, NoHuge, NoTable, Extends, OnlyTables, RootsKept;
      Sane();
      KeptRefl(mem, tabs, root, Index(PageOf(virt), 4));
      if virt == 0 { return true; }
      ghost var w, l := PageOf(virt), if huge then 2 else 1;
      var f, i, ok := GetPte(root, virt, false, huge);
      if !ok {
        AlreadyUnmapped(mem, tabs, root, w, huge);
        return false;
      }
      SlotEntry(mem, tabs, root, w, f, huge);
      var phys := AddrOf(mem[f][i]);
      AddrAligned(mem[f][i]);
      ghost var e := mem[f][i];
      SetLeaf(root, f, i, w, l, 0);
      assert e == 0 ==> mem == old(mem) by { if e == 0 { SameWrite(old(mem), f, i); } }
      if freePhysical { Drop(phys); }
      halted := false;
    }

    /** pmm_page_dec_ref on a frame that holds no table */
    method Drop(phys: nat)
      requires Valid() && phys % PAGE == 0
      requires phys / PAGE < pmm.total ==> pmm.t[phys / PAGE].head == phys / PAGE && phys / PAGE !in tabs
      modifies pmm.pages, pmm.links, pmm.nrFree, pmm`lists, pmm`t
      ensures Valid()
      ensures Dropped(old(pmm.t), pmm.t, old(pmm.pages[..]), pmm.pages[..], phys / PAGE)
    {
      hide Sound, Maximal, BuddyStore.Store, BuddyStore.Held, Typed;
      ghost var t, f := pmm.t, phys / PAGE;
      pmm.DecRef(phys);
      if f < pmm.total && t[f].status == Used && old(pmm.pages[f].refs) <= 1 {
        forall g | g in tabs ensures pmm.t[g] == t[g] { FreedOthers(t, pmm.t, f, g); }
      }
    }

    /**
     paging_map_region: slot k of the virtual range is mapped to block k of the physical range, and nothing
     else changes; when it halts, the first `done` slots are mapped. The loop runs in 64-bit arithmetic.
     */
    method MapRegion(root: nat, virt: nat, phys: nat, size: nat, flags: nat, huge: bool)
      returns (halted: bool, ghost done: nat)
      requires Valid() && IsRoot(tabs, root) && IsFlags(flags) && virt < U64 && size < U64 && Ends(virt, size, huge)
      requires var n := Laps(virt, size, huge);
               phys + Bytes(n, huge) <= PHYS_LIMIT && PageOf(virt) + Bytes(n, huge) / PAGE <= Span(4)
      requires huge || forall v: nat | PageOf(virt) <= v < PageOf(virt) + Laps(virt, size, huge) :: NoHuge(mem, root, v)
      modifies `mem, `tabs, pmm.pages, pmm.links, pmm.nrFree, pmm`lists, pmm`t
      ensures Valid() && Builds(old(Now()), Now())
      ensures done <= Laps(virt, size, huge) && (!halted ==> done == Laps(virt, size, huge))
      ensures halted ==> StepsOnZero(virt, size, huge) || NoFree(pmm.t)
      ensures StepsOnZero(virt, size, huge) ==> halted
      ensures RegionMapped(old(mem), mem, old(tabs), root, PageOf(virt), if huge then 2 else 1, done,
                           Map(phys, flags, huge))
      ensures RegionMaps(mem, root, PageOf(virt), done, phys, flags, huge)
      ensures RootsGrown(old(mem), mem, old(tabs), root, ReachesUpper(virt, Laps(virt, size, huge), huge))
    {
      hide Machine.Valid, Buddies.ValidBut, Sound, Maximal, Typed, Updated, EntryFor, NoHuge, PageOf, Extends,
           OnlyTables, SameTranslations, RootsKept, Progress, Index, LoopAddr, Add, Laps, Ends, StepsOnZero,
           ReachesUpper, RegionMaps;
      Sane();
      ghost var l, w0, n, plan := if huge then 2 else 1, PageOf(virt), Laps(virt, size, huge), Map(phys, flags, huge);
      ghost var upper := ReachesUpper(virt, n, huge);
      ProgressStart(mem, tabs, root, w0, l, plan, upper);
      LoopStart(virt, huge);
      var virtual, physical := virt, phys;
      done := 0;
      while virtual < Add(virt, size)
        invariant virtual == LoopAddr(virt, done, huge) && physical == phys + Bytes(done, huge) && done <= n
        invariant Valid() && Builds(old(Now()), Now()) && (done > 0 ==> virt != 0)
        invariant Progress(old(mem), mem, old(tabs), root, w0, l, done, plan, upper)
        decreases n - done
      {
        ghost var m, ts, s1 := mem, tabs, Now();
        ExtendsFacts(old(Now()), s1);
        AtLap(virt, size, huge, done);
        if done < n && !huge { ProgressSmall(old(mem), mem, old(tabs), root, w0, done, w0 + done, plan, upper); }
        halted := MapPage(root, virtual, physical, flags, huge);
        BuildsTrans(old(Now()), s1, Now());
        if halted {
          ProgressHalt(old(mem), m, mem, old(tabs), ts, root, w0, l, done, plan, upper, Index(PageOf(virtual), 4));
          ProgressFacts(old(mem), mem, old(tabs), root, w0, l, done, plan, upper);
          PlanMaps(old(mem), mem, old(tabs), root, w0, done, phys, flags, huge);
          return;
        }
        ProgressStep(old(mem), m, mem, old(tabs), ts, root, w0, l, done, plan, upper, Index(PageOf(virtual), 4));
        LoopNext(virt, done, huge);
        done := done + 1;
        virtual, physical := Add(virtual, Step(huge)), physical + Step(huge);
      }
      halted := false;
      OutOfLoop(virt, size, huge, done);
      ProgressFacts(old(mem), mem, old(tabs), root, w0, l, done, plan, upper);
      PlanMaps(old(mem), mem, old(tabs), root, w0, done, phys, flags, huge);
    }

    /**
     paging_unmap_region. The pages of the range, of either size, are unmapped and nothing else changes; with
     freePhysical exactly the blocks behind the mapped pages go back to the allocator.
     */
    method UnmapRegion(root: nat, virt: nat, size: nat, huge: bool, freePhysical: bool) returns (halted: bool)
      requires Valid() && IsRoot(tabs, root) && virt < U64 && size < U64 && Ends(virt, size, huge)
      requires PageOf(virt) + Bytes(Laps(virt, size, huge), huge) / PAGE <= Span(4)
      requires OwnSlots(mem, root, PageOf(virt), Laps(virt, size, huge), huge)
      requires freePhysical ==>
                 OwnedSlots(mem, root, PageOf(virt), Laps(virt, size, huge), huge, pmm.t, tabs, pmm.pages[..])
      modifies `mem, `tabs, pmm.pages, pmm.links, pmm.nrFree, pmm`lists, pmm`t
      ensures Valid() && tabs == old(tabs) && (halted <==> StepsOnZero(virt, size, huge)) && Erases(old(mem), mem)
      ensures var l, n := if huge then 2 else 1, if virt == 0 then 0 else Laps(virt, size, huge);
              && RegionMapped(old(mem), mem, tabs, root, PageOf(virt), l, n, Erase)
              && BlocksBack(old(Now()), Now(), root, PageOf(virt), n, Laps(virt, size, huge), huge, freePhysical)
      ensures RootsGrown(old(mem), mem, tabs, root, ReachesUpper(virt, Laps(virt, size, huge), huge))
    {
      hide Machine.Valid, Buddies.ValidBut, Sound, Maximal, Typed, Updated, PageOf, FreedSlots, OwnedSlots, Freed,
           Translate, RootsKept, Progress, Index, LoopAddr, Add, Laps, Ends, StepsOnZero, ReachesUpper, NoTable,
           OwnSize, OwnSlots, BlocksBack, Erases, MayDrop, HeldOnce, Dropped;
      ghost var w0, l, n, m0 := PageOf(virt), if huge then 2 else 1, Laps(virt, size, huge), mem;
      ghost var upper := ReachesUpper(virt, n, huge);
      Sane();
      ProgressStart(mem, tabs, root, w0, l, Erase, upper);
      SoundNow();
      NothingBack(Now(), root, w0, n, huge, freePhysical);
      ErasesRefl(mem);
      LoopStart(virt, huge);
      var virtual := virt;
      ghost var k := 0;
      while virtual < Add(virt, size)
        invariant virtual == LoopAddr(virt, k, huge) && k <= n && Valid() && tabs == old(tabs) && (k > 0 ==> virt != 0)
        invariant Progress(m0, mem, tabs, root, w0, l, k, Erase, upper) && Erases(m0, mem)
        invariant BlocksBack(old(Now()), Now(), root, w0, k, n, huge, freePhysical)
        decreases n - k
      {
        ghost var m, s1 := mem, Now();
        AtLap(virt, size, huge, k);
        if k < n {
          NextSlot(m0, mem, tabs, root, w0, l, k, n, upper, huge);
          if freePhysical { NextBlock(old(Now()), s1, root, w0, k, n, huge); }
        }
        halted := UnmapPage(root, virtual, huge, freePhysical);
        ErasesTrans(m0, m, mem);
        if halted {
          ProgressFacts(m0, mem, tabs, root, w0, l, k, Erase, upper);
          assert k == if virt == 0 then 0 else n;
          return;
        }
        Sane();
        ProgressStep(m0, m, mem, tabs, tabs, root, w0, l, k, Erase, upper, Index(PageOf(virtual), 4));
        SoundNow();
        BlocksBackStep(old(Now()), s1, Now(), root, w0, k, n, huge, freePhysical);
        LoopNext(virt, k, huge);
        k := k + 1;
        virtual := Add(virtual, Step(huge));
      }
      halted := false;
      OutOfLoop(virt, size, huge, k);
      ProgressFacts(m0, mem, tabs, root, w0, l, k, Erase, upper);
    }

    lemma SoundNow()
      requires Valid()
      ensures Sound(pmm.t)
    {
    }

    /** The first root: paging_init allocates and zeroes the kernel's top table. */
    method FirstRoot() returns (root: nat, ok: bool)
      requires Valid()
      modifies `mem, `tabs, pmm.pages, pmm.links, pmm.nrFree, pmm`lists, pmm`t
      ensures Valid() && (ok <==> !NoFree(old(pmm.t)))
      ensures !ok ==> tabs == old(tabs) && mem == old(mem) && pmm.t == old(pmm.t)
      ensures ok ==> root !in old(tabs) && root < |old(pmm.t)| && old(pmm.t)[root].status == Free
      ensures ok ==> tabs == old(tabs)[root := Table(4, 0, root)] && mem == old(mem)[root := Zeros()]
      ensures ok ==> forall p | 0 <= p < pmm.total && p != root ::
                       pmm.t[p].status == Free <==> old(pmm.t)[p].status == Free
      ensures ok ==> SameTranslations(old(mem), mem, old(tabs))
      ensures ok ==> forall w: nat | w < Span(4) :: Translate(mem, root, w) == Fault
    {
      hide Buddies.ValidBut, Sound, Maximal, Typed, Extends, SameTranslations, NoFree;
      var phys := AllocFrame();
      if phys == 0 { return 0, false; }
      root := phys / PAGE;
      ghost var m := mem;
      ZeroFrame(root);
      EmptyRootTyped(m, tabs, root);
      tabs := tabs[root := Table(4, 0, root)];
      forall w: nat | w < Span(4) ensures Translate(mem, root, w) == Fault { EmptyTable(mem, root, 4, w); }
      ok := true;
    }

    /** The page-table part of vmm_new_address_space: a zeroed root that shares the kernel half */
    method NewRoot(kernel: nat) returns (root: nat, ok: bool)
      requires Valid() && IsRoot(tabs, kernel)
      modifies `mem, `tabs, pmm.pages, pmm.links, pmm.nrFree, pmm`lists, pmm`t
      ensures Valid() && (ok <==> !NoFree(old(pmm.t)))
      ensures !ok ==> tabs == old(tabs) && mem == old(mem) && pmm.t == old(pmm.t)
      ensures Extends(old(Now()), Now().(mem := old(mem), tabs := old(tabs)))
      ensures ok ==> root !in old(tabs) && root < |old(pmm.t)| && old(pmm.t)[root].status == Free && InUse(pmm.t, root)
      ensures ok ==> forall p | 0 <= p < pmm.total && p != root ::
                       pmm.t[p].status == Free <==> old(pmm.t)[p].status == Free
      ensures ok ==> tabs == old(tabs)[root := Table(4, 0, root)] && SameTranslations(old(mem), mem, old(tabs))
      ensures ok ==> kernel in mem && root in mem && UpperCopy(mem[root], mem[kernel])
      ensures ok ==> SameOthers(old(mem), mem, root)
    {
      hide Machine.Valid, Buddies.ValidBut, Sound, Maximal, Typed, Extends, SameTranslations, NoFree;
      Sane();
      var phys := AllocFrame();
      if phys == 0 { return 0, false; }
      root := phys / PAGE;
      ghost var s1 := Now();
      CopyUpper(root, kernel);
      assert s1 == Now().(mem := old(mem), tabs := old(tabs));
      ok := true;
    }

    /** The memset and the copy loop of vmm_new_address_space; the frame is a root from now on. */
    method CopyUpper(root: nat, kernel: nat)
      requires Valid() && IsRoot(tabs, kernel) && root !in tabs && root < pmm.total && InUse(pmm.t, root)
      requires pmm.pages[root].refs == 1
      modifies `mem, `tabs
      ensures Valid() && tabs == old(tabs)[root := Table(4, 0, root)] && SameTranslations(old(mem), mem, old(tabs))
      ensures kernel in mem && root in mem && UpperCopy(mem[root], mem[kernel]) && SameOthers(old(mem), mem, root)
    {
      hide Buddies.ValidBut, Sound, Maximal, Typed, SameTranslations;
      TopPath(mem, tabs, kernel, 0);
      var words: seq<nat> := Zeros();
      mem := mem[root := words];
      var i := 256;
      while i < 512
        invariant 256 <= i <= 512 && mem == old(mem)[root := words] && |words| == 512
        invariant forall j: nat | j < 256 || i <= j < 512 :: words[j] == 0
        invariant forall j: nat | 256 <= j < i :: words[j] == mem[kernel][j]
        modifies `mem
      {
        words := words[i := mem[kernel][i]];
        mem := mem[root := words];
        i := i + 1;
      }
      PlainWrite(old(mem), tabs, root, words);
      CopyRootTyped(old(mem), tabs, kernel, root, words);
      tabs := tabs[root := Table(4, 0, root)];
    }

    /** pmm_page_dec_ref on a root that is no longer used */
    method DropRoot(root: nat)
      requires Valid() && IsRoot(tabs, root)
      modifies `tabs, pmm.pages, pmm.links, pmm.nrFree, pmm`lists, pmm`t
      ensures Valid() && tabs == old(tabs) - {root}
      ensures InUse(old(pmm.t), root) && |pmm.t| == |old(pmm.t)| == |pmm.pages[..]| && Freed(old(pmm.t), pmm.t, root, 0)
      ensures forall p | 0 <= p < |pmm.t| && pmm.t[p].status != Free :: pmm.pages[p] == old(pmm.pages[p])
    {
      hide Buddies.ValidBut, Sound, Maximal, Typed;
      DropRootTyped(mem, tabs, root);
      tabs := tabs - {root};
      Drop(root * PAGE);
    }
  }

  /** p is the frame behind one of the pages lo .. hi. */
  ghost predicate IsLeafOf(mem: Memory, root: nat, lo: nat, hi: nat, p: nat) {
    exists v: nat :: lo <= v < hi && LeafAt(mem, root, v, p)
  }

  predicate LeafAt(mem: Memory, root: nat, v: nat, p: nat) {
    var t := Translate(mem, root, v);
    t != Fault && t.frame == p
  }

  /** The mapped pages lo .. hi have frames of their own, referenced once, that hold no table. */
  ghost predicate OwnedLeaves(mem: Memory, root: nat, lo: nat, hi: nat, t: seq<Block>, tabs: map<nat, Table>,
                              pages: seq<BuddyStore.Page>) {
    && (forall v: nat, p: nat | lo <= v < hi && LeafAt(mem, root, v, p) ::
          InUse(t, p) && p < |pages| && pages[p].refs == 1 && p !in tabs)
    && (forall u: nat, v: nat, p: nat | lo <= u < hi && lo <= v < hi ::
          LeafAt(mem, root, u, p) && LeafAt(mem, root, v, p) ==> u == v)
  }

  /** u is t with exactly the frames behind the pages lo .. hi given back. */
  ghost predicate FreedLeaves(t: seq<Block>, u: seq<Block>, mem: Memory, root: nat, lo: nat, hi: nat) {
    && |u| == |t|
    && (forall p: nat | p < |t| :: u[p].status == Free <==> t[p].status == Free || IsLeafOf(mem, root, lo, hi, p))
    && (forall p: nat | p < |t| && u[p].status != Free :: u[p] == t[p])
  }

  /**
   After k of n pages from lo on were unmapped: exactly the frames behind them are free again, descriptors of
   frames in use are as before, and nothing at all happened if no page was mapped.
   */
  ghost predicate GivenBack(s0: State, s: State, root: nat, lo: nat, k: nat, n: nat, free: bool) {
    && |s.pages| == |s0.pages| == |s0.t| && FreedLeaves(s0.t, s.t, s0.mem, root, lo, lo + if free then k else 0)
    && (forall p: nat | p < |s.t| && s.t[p].status != Free :: s.pages[p] == s0.pages[p])
    && (AllFault(s0.mem, root, lo, lo + n) ==> s.mem == s0.mem && s.t == s0.t && s.pages == s0.pages)
  }

  // ----- the blocks behind pages of either size -----

  /** The first page of the k-th slot of a region */
  function SlotPage(w0: nat, huge: bool, k: nat): (w: nat) { w0 + k * Span(if huge then 1 else 0) }

  ghost predicate OwnSlots(mem: Memory, root: nat, w0: nat, n: nat, huge: bool) {
    forall k: nat | k < n :: OwnSize(mem, root, SlotPage(w0, huge, k), huge)
  }

  /** Slot k is mapped, and its entry leads to frame f. */
  predicate SlotLeaf(mem: Memory, root: nat, w0: nat, huge: bool, k: nat, f: nat) {
    var t := Translate(mem, root, SlotPage(w0, huge, k));
    t != Fault && FrameOf(t.entry) == f
  }

  /** The mapped slots have blocks of their own, referenced once, that hold no table. */
  ghost predicate OwnedSlots(mem: Memory, root: nat, w0: nat, n: nat, huge: bool, t: seq<Block>, tabs: map<nat, Table>,
                             pages: seq<BuddyStore.Page>) {
    && (forall k: nat, f: nat | k < n && SlotLeaf(mem, root, w0, huge, k, f) ::
          f < |t| && t[f].head == f && t[f].status == Used && f < |pages| && pages[f].refs == 1 && f !in tabs)
    && (forall j: nat, k: nat, f: nat | j < n && k < n ::
          SlotLeaf(mem, root, w0, huge, j, f) && SlotLeaf(mem, root, w0, huge, k, f) ==> j == k)
  }

  ghost predicate IsSlotOf(mem: Memory, root: nat, w0: nat, n: nat, huge: bool, f: nat) {
    exists k: nat :: k < n && SlotLeaf(mem, root, w0, huge, k, f)
  }

  /** u is t with exactly the blocks behind the first n slots given back. */
  ghost predicate FreedSlots(t: seq<Block>, u: seq<Block>, mem: Memory, root: nat, w0: nat, n: nat, huge: bool) {
    && |u| == |t|
    && (forall p: nat | p < |t| ::
          u[p].status == Free <==> t[p].status == Free || IsSlotOf(mem, root, w0, n, huge, t[p].head))
    && (forall p: nat | p < |t| && u[p].status != Free :: u[p] == t[p])
  }

  ghost predicate NoneMapped(mem: Memory, root: nat, w0: nat, n: nat, huge: bool) {
    forall k: nat | k < n :: Translate(mem, root, SlotPage(w0, huge, k)) == Fault
  }

  /**
   After k of n slots were unmapped: exactly the blocks behind them are free again, descriptors of frames in use are
   as before, and nothing at all happened if no slot was mapped.
   */
  ghost predicate BlocksBack(s0: State, s: State, root: nat, w0: nat, k: nat, n: nat, huge: bool, free: bool) {
    && |s.pages| == |s0.pages| == |s0.t| && FreedSlots(s0.t, s.t, s0.mem, root, w0, if free then k else 0, huge)
    && (forall p: nat | p < |s.t| && s.t[p].status != Free :: s.pages[p] == s0.pages[p])
    && (NoneMapped(s0.mem, root, w0, n, huge) ==> s.mem == s0.mem && s.t == s0.t && s.pages == s0.pages)
    && Sound(s0.t)
  }

  lemma NothingBack(s: State, root: nat, w0: nat, n: nat, huge: bool, free: bool)
    requires |s.pages| == |s.t| && Sound(s.t)
    ensures BlocksBack(s, s, root, w0, 0, n, huge, free)
  {
  }

  lemma ErasesRefl(mem: Memory)
    ensures Erases(mem, mem)
  {
  }

  /** The next slot of a region is still as it was at the start. */
  lemma NextSlot(mem0: Memory, mem: Memory, tabs: map<nat, Table>, root: nat, w0: nat, l: nat, k: nat, n: nat,
                 upper: bool, huge: bool)
    requires l == (if huge then 2 else 1) && Progress(mem0, mem, tabs, root, w0, l, k, Erase, upper) && k < n
    requires OwnSlots(mem0, root, w0, n, huge) && Erases(mem0, mem) && IsRoot(tabs, root)
    requires SlotPage(w0, huge, k) < Span(4)
    ensures var w := SlotPage(w0, huge, k);
            OwnSize(mem, root, w, huge) && Translate(mem, root, w) == Translate(mem0, root, w)
  {
    hide Translate, Reaches, Index;
    var w := SlotPage(w0, huge, k);
    SlotNumber(w0, huge, k);
    assert OwnSize(mem0, root, w, huge);
    if huge {
      ZeroAbsent();
      forall f | f in mem && |mem[f]| == 512 && Reaches(mem, root, 4, w, f, 2)
        ensures Present(mem[f][Index(w, 2)]) ==> Huge(mem[f][Index(w, 2)])
      {
        ErasedReach(mem0, mem, root, 4, w, f, 2);
        assert mem[f][Index(w, 2)] in {mem0[f][Index(w, 2)], 0};
      }
    }
  }

  lemma SlotNumber(w0: nat, huge: bool, k: nat)
    ensures SlotOf(w0, if huge then 2 else 1, SlotPage(w0, huge, k)) == k
  {
  }

  /** The block behind the next slot is still held, once. */
  lemma NextBlock(s0: State, s: State, root: nat, w0: nat, k: nat, n: nat, huge: bool)
    requires k < n && OwnedSlots(s0.mem, root, w0, n, huge, s0.t, s0.tabs, s0.pages)
    requires BlocksBack(s0, s, root, w0, k, n, huge, true) && s.tabs == s0.tabs
    ensures var l := Translate(s0.mem, root, SlotPage(w0, huge, k));
            MayDrop(s.t, s.tabs, l) && HeldOnce(s0, s, l)
  {
    hide Translate, Sound;
    var l := Translate(s0.mem, root, SlotPage(w0, huge, k));
    if l != Fault {
      var f := FrameOf(l.entry);
      assert SlotLeaf(s0.mem, root, w0, huge, k, f);
      assert !IsSlotOf(s0.mem, root, w0, k, huge, f);
    }
  }

  ghost predicate HeldOnce(s0: State, s: State, l: Leaf) {
    l != Fault ==>
      var f := FrameOf(l.entry);
      f < |s.t| && f < |s0.t| && s.t[f] == s0.t[f] && s.t[f].head == f && s.t[f].status == Used
      && f < |s.pages| && s.pages[f].refs == 1
  }

  lemma BlocksBackStep(s0: State, s: State, s': State, root: nat, w0: nat, k: nat, n: nat, huge: bool, free: bool)
    requires k < n && BlocksBack(s0, s, root, w0, k, n, huge, free)
    requires var l := Translate(s0.mem, root, SlotPage(w0, huge, k));
             && (l == Fault ==> s'.mem == s.mem)
             && if !free || l == Fault then s'.t == s.t && s'.pages == s.pages
                else HeldOnce(s0, s, l) && Dropped(s.t, s'.t, s.pages, s'.pages, FrameOf(l.entry))
    ensures BlocksBack(s0, s', root, w0, k + 1, n, huge, free)
  {
    hide Translate, Freed, Sound;
    if free { BlockFreed(s0.mem, root, w0, k, huge, s0.t, s.t, s'.t); }
  }

  lemma BlockFreed(mem: Memory, root: nat, w0: nat, k: nat, huge: bool, t0: seq<Block>, t: seq<Block>, u: seq<Block>)
    requires FreedSlots(t0, t, mem, root, w0, k, huge) && Sound(t0)
    requires var l := Translate(mem, root, SlotPage(w0, huge, k));
             if l == Fault then u == t
             else
               var f := FrameOf(l.entry);
               f < |t| && t[f] == t0[f] && t[f].head == f && t[f].status == Used && Freed(t, u, f, t[f].order)
    ensures FreedSlots(t0, u, mem, root, w0, k + 1, huge)
    ensures forall p: nat | p < |u| && u[p].status != Free :: t[p].status != Free
  {
    hide Sound, Maximal, Translate, SlotPage;
    var l := Translate(mem, root, SlotPage(w0, huge, k));
    forall h: nat
      ensures IsSlotOf(mem, root, w0, k + 1, huge, h) <==>
              IsSlotOf(mem, root, w0, k, huge, h) || (l != Fault && h == FrameOf(l.entry))
    {
      if l != Fault && h == FrameOf(l.entry) { assert SlotLeaf(mem, root, w0, huge, k, h); }
    }
    if l != Fault {
      forall p: nat | p < |t|
        ensures InRange(p, FrameOf(l.entry), t[FrameOf(l.entry)].order) <==> t0[p].head == FrameOf(l.entry)
      {
        BlockRange(t0, FrameOf(l.entry), p);
      }
    }
  }

  lemma BlockRange(t: seq<Block>, f: nat, p: nat)
    requires Sound(t) && f < |t| && p < |t| && t[f].head == f
    ensures InRange(p, f, t[f].order) <==> t[p].head == f
    ensures t[p].head == f ==> t[p] == t[f]
  {
    assert BlockOk(t, t[f]) && BlockOk(t, t[p]);
  }

  /** For small pages a slot is a page. */
  lemma SlotIsLeaf(mem: Memory, root: nat, lo: nat, k: nat, f: nat)
    requires NoHuge(mem, root, lo + k)
    ensures SlotLeaf(mem, root, lo, false, k, f) <==> LeafAt(mem, root, lo + k, f)
  {
    SmallLeaf(mem, root, 4, lo + k);
  }

  lemma SmallOwned(mem: Memory, root: nat, lo: nat, n: nat, t: seq<Block>, tabs: map<nat, Table>,
                   pages: seq<BuddyStore.Page>)
    requires OwnedLeaves(mem, root, lo, lo + n, t, tabs, pages)
    requires forall v: nat | lo <= v < lo + n :: NoHuge(mem, root, v)
    ensures OwnedSlots(mem, root, lo, n, false, t, tabs, pages)
  {
    hide LeafAt, SlotLeaf, NoHuge;
    forall k: nat, f: nat | k < n && SlotLeaf(mem, root, lo, false, k, f) ensures LeafAt(mem, root, lo + k, f) {
      SlotIsLeaf(mem, root, lo, k, f);
    }
  }

  lemma SmallOwn(mem: Memory, root: nat, lo: nat, n: nat)
    requires forall v: nat | lo <= v < lo + n :: NoHuge(mem, root, v)
    ensures OwnSlots(mem, root, lo, n, false)
  {
    hide NoHuge;
  }

  lemma SmallGiven(s0: State, s: State, root: nat, lo: nat, n: nat, free: bool)
    requires BlocksBack(s0, s, root, lo, n, n, false, free)
    requires forall v: nat | lo <= v < lo + n :: NoHuge(s0.mem, root, v)
    requires free ==> OwnedLeaves(s0.mem, root, lo, lo + n, s0.t, s0.tabs, s0.pages)
    ensures GivenBack(s0, s, root, lo, n, n, free)
  {
    hide Translate, Sound, OwnedLeaves, NoHuge;
    forall p: nat | p < |s0.t| && free
      ensures IsSlotOf(s0.mem, root, lo, n, false, s0.t[p].head) <==> IsLeafOf(s0.mem, root, lo, lo + n, p)
    {
      SlotsAreLeaves(s0, root, lo, n, p);
    }
    if AllFault(s0.mem, root, lo, lo + n) {
      forall k: nat | k < n ensures Translate(s0.mem, root, SlotPage(lo, false, k)) == Fault {
        FaultAt(s0.mem, root, lo, lo + n, lo + k);
      }
    }
  }

  lemma SlotsAreLeaves(s: State, root: nat, lo: nat, n: nat, p: nat)
    requires Sound(s.t) && p < |s.t| && OwnedLeaves(s.mem, root, lo, lo + n, s.t, s.tabs, s.pages)
    requires forall v: nat | lo <= v < lo + n :: NoHuge(s.mem, root, v)
    ensures IsSlotOf(s.mem, root, lo, n, false, s.t[p].head) <==> IsLeafOf(s.mem, root, lo, lo + n, p)
  {
    hide Translate, Sound, LeafAt, SlotLeaf, NoHuge;
    if IsSlotOf(s.mem, root, lo, n, false, s.t[p].head) {
      var k: nat :| k < n && SlotLeaf(s.mem, root, lo, false, k, s.t[p].head);
      SlotIsLeaf(s.mem, root, lo, k, s.t[p].head);
      BlockRange(s.t, s.t[p].head, p);
      assert InRange(p, s.t[p].head, 0);
      assert LeafAt(s.mem, root, lo + k, p);
    }
    if IsLeafOf(s.mem, root, lo, lo + n, p) {
      var v: nat :| lo <= v < lo + n && LeafAt(s.mem, root, v, p);
      SlotIsLeaf(s.mem, root, lo, v - lo, p);
      assert s.t[p].head == p;
    }
  }

  lemma SlotAddress(virt: nat, k: nat, n: nat, huge: bool)
    requires k < n && PageOf(virt) + Bytes(n, huge) / PAGE <= Span(4)
    ensures PageOf(virt + Bytes(k, huge)) == PageOf(virt) + k * Span(if huge then 1 else 0) < Span(4)
  {
  }

  lemma RegionSame(mem0: Memory, mem: Memory, mem': Memory, tabs: map<nat, Table>, tabs': map<nat, Table>, root: nat,
                   w0: nat, l: nat, n: nat, plan: Plan)
    requires 1 <= l <= 2 && RegionMapped(mem0, mem, tabs, root, w0, l, n, plan) && SameTranslations(mem, mem', tabs')
    requires IsRoot(tabs, root) && forall r | IsRoot(tabs, r) :: IsRoot(tabs', r)
    ensures RegionMapped(mem0, mem', tabs, root, w0, l, n, plan)
  {
    forall r: nat, v: nat | IsRoot(tabs, r) && v < Span(4) ensures Translate(mem', r, v) == Translate(mem, r, v) {}
  }

  /** The page's first frame, if it is memory of the allocator, is a whole block and no table. */
  ghost predicate MayDrop(t: seq<Block>, tabs: map<nat, Table>, leaf: Leaf) {
    leaf == Fault || FrameOf(leaf.entry) >= |t| ||
    (t[FrameOf(leaf.entry)].head == FrameOf(leaf.entry) && FrameOf(leaf.entry) !in tabs)
  }

  /** A 4KB page can be mapped where no large page is. */
  predicate Fitting(mem: Memory, root: nat, virt: nat, huge: bool) {
    virt == 0 || huge || NoHuge(mem, root, PageOf(virt))
  }

  /** A word is written to frame f, if that is memory. */
  ghost function Stored(mem: Memory, f: nat, i: nat, e: nat): (r: Memory) {
    if f in mem && i < |mem[f]| then Write(mem, f, i, e) else mem
  }

  /**
   What becomes of a 4KB mapping inside a large page: the walk ends in the first frame of the large page. If that
   frame holds no table, no translation changes. If it holds one, only pages of the slot that is hit can change, and
   when it is a table of 4KB pages, those pages are mapped by the new entry, whatever they were.
   */
  lemma SmallInsideLarge(mem: Memory, tabs: map<nat, Table>, root: nat, w: nat, e: nat)
    requires Typed(mem, tabs) && IsRoot(tabs, root) && w < Span(4) && !NoHuge(mem, root, w) && Present(e)
    ensures var f, i := FrameOf(Translate(mem, root, w).entry), Index(w, 1);
            if f !in tabs then SameTranslations(mem, Stored(mem, f, i, e), tabs)
            else
              && (forall r: nat, v: nat | IsRoot(tabs, r) && v < Span(4) && !InSlot(tabs, f, i, v) ::
                    Translate(Stored(mem, f, i, e), r, v) == Translate(mem, r, v))
              && (forall r: nat, v: nat | IsRoot(tabs, r) && v < Span(4) && HitAt(mem, tabs, r, f, i, v) ::
                    Translate(Stored(mem, f, i, e), r, v) == Leaf(FrameOf(e), e, 1))
  {
    var f, i := FrameOf(Translate(mem, root, w).entry), Index(w, 1);
    if f in tabs {
      assert TableOk(mem, tabs, f);
      var mem' := Write(mem, f, i, e);
      forall r: nat, v: nat | IsRoot(tabs, r) && v < Span(4) && !InSlot(tabs, f, i, v)
        ensures Translate(mem', r, v) == Translate(mem, r, v)
      {
        RootOnWay(mem, tabs, r, v);
        WriteElsewhere(mem, tabs, r, v, f, i, e);
      }
      forall r: nat, v: nat | IsRoot(tabs, r) && v < Span(4) && HitAt(mem, tabs, r, f, i, v)
        ensures Translate(mem', r, v) == Leaf(FrameOf(e), e, 1)
      {
        HitPage(mem, tabs, r, f, i, v, e);
      }
    } else if f in mem && i < |mem[f]| {
      PlainWrite(mem, tabs, f, Write(mem, f, i, e)[f]);
    }
  }

  /** Walks of page v may pass slot i of table f. */
  ghost predicate InSlot(tabs: map<nat, Table>, f: nat, i: nat, v: nat) {
    f in tabs && 1 <= tabs[f].level <= 4 && v / Span(tabs[f].level - 1) == tabs[f].pre * 512 + i
  }

  /** f is the table of 4KB pages for page v, and i its slot. */
  ghost predicate HitAt(mem: Memory, tabs: map<nat, Table>, r: nat, f: nat, i: nat, v: nat) {
    f in tabs && tabs[f].level == 1 && i == Index(v, 1) && Reaches(mem, r, 4, v, f, 1)
  }

  lemma HitPage(mem: Memory, tabs: map<nat, Table>, r: nat, f: nat, i: nat, v: nat, e: nat)
    requires Typed(mem, tabs) && IsRoot(tabs, r) && v < Span(4) && HitAt(mem, tabs, r, f, i, v) && Present(e)
    requires f in mem && |mem[f]| == 512
    ensures Translate(Write(mem, f, i, e), r, v) == Leaf(FrameOf(e), e, 1)
  {
    RootOnWay(mem, tabs, r, v);
    ReachWrite(mem, tabs, r, v, v, f, 1, i, e);
    ReachDescend(Write(mem, f, i, e), r, 4, v, f, 1);
  }

  lemma HugePresent(mem: Memory, tabs: map<nat, Table>, f: nat, i: nat)
    requires Typed(mem, tabs) && f in tabs && i < 512
    ensures f in mem && |mem[f]| == 512 && (Huge(mem[f][i]) ==> Present(mem[f][i]))
  {
    ZeroAbsent();
    assert TableOk(mem, tabs, f);
    assert EntryOk(mem, tabs, f, i);
  }

  /** The slot of the page at the wanted level holds a page of that size or nothing. */
  ghost predicate OwnSize(mem: Memory, root: nat, w: nat, huge: bool) {
    if huge then NoTable(mem, root, w) else NoHuge(mem, root, w)
  }

  /** No table of 4KB pages stands in the directory slot of the page. */
  ghost predicate NoTable(mem: Memory, root: nat, w: nat) {
    forall f | f in mem && |mem[f]| == 512 && Reaches(mem, root, 4, w, f, 2) ::
      var e := mem[f][Index(w, 2)]; Present(e) ==> Huge(e)
  }

  lemma AlreadyUnmapped(mem: Memory, tabs: map<nat, Table>, root: nat, w: nat, huge: bool)
    requires Typed(mem, tabs) && IsRoot(tabs, root) && w < Span(4)
    requires OwnSize(mem, root, w, huge) && Unreached(mem, root, w, if huge then 2 else 1)
    ensures Translate(mem, root, w) == Fault && Updated(mem, mem, tabs, root, w, if huge then 2 else 1, 0)
  {
    hide Descend;
    ZeroAbsent();
    if huge {
      forall v: nat | v < Span(4) && v / Span(1) == w / Span(1) ensures Translate(mem, root, v) == Fault {
        UnreachedFault(mem, tabs, root, w, v);
      }
    } else if Translate(mem, root, w) != Fault {
      var f := LeafReached(mem, root, 4, w);
    }
  }

  /** Pages of a directory slot that no walk reaches are not mapped. */
  lemma UnreachedFault(mem: Memory, tabs: map<nat, Table>, root: nat, w: nat, v: nat)
    requires Typed(mem, tabs) && IsRoot(tabs, root) && v < Span(4)
    requires Unreached(mem, root, w, 2) && v / Span(1) == w / Span(1)
    ensures Translate(mem, root, v) == Fault
  {
    hide Index, Span;
    SameIndex(w, v, 1, 4);
    SameIndex(w, v, 1, 3);
    assert TableOk(mem, tabs, root);
    var e4 := mem[root][Index(w, 4)];
    assert EntryOk(mem, tabs, root, Index(w, 4));
    if Present(e4) {
      var pdpr := FrameOf(e4);
      UpperNotHuge(mem, tabs, pdpr, Index(w, 3));
      var e3 := mem[pdpr][Index(w, 3)];
      if Present(e3) {
        assert Reaches(mem, pdpr, 3, w, FrameOf(e3), 2);
        assert Reaches(mem, root, 4, w, FrameOf(e3), 2);
      }
    }
  }

  /** A small page's frame is the frame of its entry. */
  lemma {:induction false} SmallLeaf(mem: Memory, f: nat, level: nat, w: nat)
    requires 1 <= level <= 4
    ensures var t := Descend(mem, f, level, w); t.Leaf? && t.level == 1 ==> t.frame == FrameOf(t.entry)
    decreases level
  {
    if level > 1 && f in mem && |mem[f]| == 512 { SmallLeaf(mem, FrameOf(mem[f][Index(w, level)]), level - 1, w); }
  }

  /** The slot of a page holds the entry the page is translated by, or 0. */
  lemma SlotEntry(mem: Memory, tabs: map<nat, Table>, root: nat, w: nat, f: nat, huge: bool)
    requires Typed(mem, tabs) && IsRoot(tabs, root) && w < Span(4) && OwnSize(mem, root, w, huge)
    requires Reaches(mem, root, 4, w, f, if huge then 2 else 1)
    ensures f in mem && |mem[f]| == 512
    ensures var e, t := mem[f][Index(w, if huge then 2 else 1)], Translate(mem, root, w);
            if Present(e) then t.Leaf? && t.entry == e else e == 0 && t == Fault
  {
    var l := if huge then 2 else 1;
    RootOnWay(mem, tabs, root, w);
    ReachWay(mem, tabs, root, w, f, l);
    StepDown(mem, tabs, f, w);
    ReachDescend(mem, root, 4, w, f, l);
  }

  lemma SameWrite(mem: Memory, f: nat, i: nat)
    requires f in mem && i < |mem[f]| && mem[f][i] == 0
    ensures Write(mem, f, i, 0) == mem
  {
    assert mem[f][i := 0] == mem[f];
  }

  /** All pages lo .. hi are unmapped. */
  ghost predicate AllFault(mem: Memory, root: nat, lo: nat, hi: nat) {
    forall v: nat | lo <= v < hi :: Translate(mem, root, v) == Fault
  }

  lemma FaultAt(mem: Memory, root: nat, lo: nat, hi: nat, v: nat)
    requires lo <= v < hi
    ensures AllFault(mem, root, lo, hi) ==> Translate(mem, root, v) == Fault
  {
  }

  /** Nothing but one frame differs. */
  ghost predicate SameOthers(mem: Memory, mem': Memory, f: nat) {
    forall g | g in mem && g != f :: g in mem' && mem'[g] == mem[g]
  }

  // ----- the region loops -----

  /** The loop arrives at address 0, where mapping and unmapping halt. */
  predicate StepsOnZero(virt: nat, size: nat, huge: bool) {
    var n := Laps(virt, size, huge);
    n > 0 && (virt == 0 || virt + Bytes(n, huge) == U64)
  }

  /** Some visited page lies in the upper half. */
  predicate ReachesUpper(virt: nat, n: nat, huge: bool) {
    PageOf(virt) + Bytes(n, huge) / PAGE > HALF
  }

  lemma LoopStart(virt: nat, huge: bool)
    requires virt < U64
    ensures LoopAddr(virt, 0, huge) == virt
  {
  }

  lemma LoopNext(virt: nat, k: nat, huge: bool)
    ensures LoopAddr(virt, k + 1, huge) == Add(LoopAddr(virt, k, huge), Step(huge))
  {
  }

  /** Inside the loop: a lap on the next slot, or address 0 after the last one */
  lemma AtLap(virt: nat, size: nat, huge: bool, k: nat)
    requires virt < U64 && size < U64 && Ends(virt, size, huge) && k <= Laps(virt, size, huge)
    requires LoopAddr(virt, k, huge) < Add(virt, size)
    requires PageOf(virt) + Bytes(Laps(virt, size, huge), huge) / PAGE <= Span(4)
    ensures var n, a := Laps(virt, size, huge), LoopAddr(virt, k, huge);
            && (Index(PageOf(a), 4) < 256 || ReachesUpper(virt, n, huge))
            && (k < n ==> a == virt + Bytes(k, huge))
            && (k < n ==> PageOf(a) == PageOf(virt) + k * Span(if huge then 1 else 0) < Span(4))
            && (k < n ==> (a == 0 <==> virt == 0 && k == 0))
            && (k == n ==> a == 0)
            && (a == 0 ==> StepsOnZero(virt, size, huge))
  {
    hide PageOf;
    AfterLaps(virt, size, huge);
    assert Goes(virt, size, huge, k);
    if k == Laps(virt, size, huge) {
      AlignedWrap(virt, size, huge);
      PageZero();
    } else {
      SlotAddress(virt, k, Laps(virt, size, huge), huge);
      LowerHalf(PageOf(virt + Bytes(k, huge)));
      SlotInRegion(k, Laps(virt, size, huge), huge);
    }
  }

  lemma PageZero()
    ensures PageOf(0) == 0 && Index(0, 4) < 256
  {
  }

  lemma SlotInRegion(k: nat, n: nat, huge: bool)
    requires k < n
    ensures k * Span(if huge then 1 else 0) < Bytes(n, huge) / PAGE
  {
  }

  lemma OutOfLoop(virt: nat, size: nat, huge: bool, k: nat)
    requires virt < U64 && size < U64 && k <= Laps(virt, size, huge) && !(LoopAddr(virt, k, huge) < Add(virt, size))
    ensures k == Laps(virt, size, huge) && (virt != 0 || k == 0 ==> !StepsOnZero(virt, size, huge))
  {
    AfterLaps(virt, size, huge);
    assert !Goes(virt, size, huge, k);
  }

  /** The first k slots are done, and the roots' own words changed as far as allowed. */
  ghost predicate Progress(mem0: Memory, mem: Memory, tabs: map<nat, Table>, root: nat, w0: nat, l: nat, k: nat,
                           plan: Plan, upper: bool)
    requires 1 <= l <= 2
  {
    RegionMapped(mem0, mem, tabs, root, w0, l, k, plan) && RootsGrown(mem0, mem, tabs, root, upper)
  }

  lemma ProgressStart(mem: Memory, tabs: map<nat, Table>, root: nat, w0: nat, l: nat, plan: Plan, upper: bool)
    requires 1 <= l <= 2 && Typed(mem, tabs)
    ensures Progress(mem, mem, tabs, root, w0, l, 0, plan, upper)
  {
    RegionEmpty(mem, tabs, root, w0, l, plan);
    GrownRefl(mem, tabs, root, upper);
  }

  lemma ProgressFacts(mem0: Memory, mem: Memory, tabs: map<nat, Table>, root: nat, w0: nat, l: nat, k: nat, plan: Plan,
                      upper: bool)
    requires 1 <= l <= 2 && Progress(mem0, mem, tabs, root, w0, l, k, plan, upper)
    ensures RegionMapped(mem0, mem, tabs, root, w0, l, k, plan) && RootsGrown(mem0, mem, tabs, root, upper)
  {
  }

  lemma ProgressStep(mem0: Memory, m: Memory, mem: Memory, tabs: map<nat, Table>, ts: map<nat, Table>, root: nat,
                     w0: nat, l: nat, k: nat, plan: Plan, upper: bool, i: nat)
    requires 1 <= l <= 2 && Progress(mem0, m, tabs, root, w0, l, k, plan, upper)
    requires Updated(m, mem, ts, root, w0 + k * Span(l - 1), l, plan.At(k))
    requires RootsKept(m, mem, ts, root, i) && (i < 256 || upper)
    requires IsRoot(tabs, root) && forall r | IsRoot(tabs, r) :: IsRoot(ts, r)
    ensures Progress(mem0, mem, tabs, root, w0, l, k + 1, plan, upper)
  {
    hide RegionMapped, RootsGrown, Updated, RootsKept;
    KeptGrown(m, mem, ts, root, i, upper);
    GrownTrans(mem0, m, mem, tabs, ts, root, upper);
    RegionStep(mem0, m, mem, tabs, ts, root, w0, l, k, plan);
  }

  lemma ProgressHalt(mem0: Memory, m: Memory, mem: Memory, tabs: map<nat, Table>, ts: map<nat, Table>, root: nat,
                     w0: nat, l: nat, k: nat, plan: Plan, upper: bool, i: nat)
    requires 1 <= l <= 2 && Progress(mem0, m, tabs, root, w0, l, k, plan, upper) && SameTranslations(m, mem, ts)
    requires RootsKept(m, mem, ts, root, i) && (i < 256 || upper)
    requires IsRoot(tabs, root) && forall r | IsRoot(tabs, r) :: IsRoot(ts, r)
    ensures Progress(mem0, mem, tabs, root, w0, l, k, plan, upper)
  {
    hide RegionMapped, RootsGrown, SameTranslations, RootsKept;
    KeptGrown(m, mem, ts, root, i, upper);
    GrownTrans(mem0, m, mem, tabs, ts, root, upper);
    RegionSame(mem0, m, mem, tabs, ts, root, w0, l, k, plan);
  }

  /** The next page of a region is still as it was at the start. */
  lemma ProgressSmall(mem0: Memory, mem: Memory, tabs: map<nat, Table>, root: nat, w0: nat, k: nat, v: nat, plan: Plan,
                      upper: bool)
    requires Progress(mem0, mem, tabs, root, w0, 1, k, plan, upper) && IsRoot(tabs, root) && v < Span(4) && v == w0 + k
    requires NoHuge(mem0, root, v)
    ensures NoHuge(mem, root, v) && Translate(mem, root, v) == Translate(mem0, root, v)
  {
    assert !(0 <= SlotOf(w0, 1, v) < k);
  }

  lemma HugeAligned(x: nat)
    ensures x % HUGE_SIZE == 0 ==> x % PAGE == 0
  {
  }

  lemma EntryFields(phys: nat, flags: nat, huge: bool)
    requires phys < PHYS_LIMIT && IsFlags(flags)
    ensures LeafEntry(EntryFor(phys, flags, huge), if huge then 2 else 1)
    ensures Present(EntryFor(phys, flags, huge))
    ensures AddrOf(EntryFor(phys, flags, huge)) == phys - phys % (if huge then HUGE_SIZE else PAGE)
    ensures Maps(EntryFor(phys, flags, huge), phys, flags, huge)
  {
    hide SameBits;
    if huge {
      HugeFields(phys - phys % HUGE_SIZE, flags);
    } else {
      MakeFields(phys - phys % PAGE, flags);
      AlignedNotHuge(phys - phys % PAGE);
    }
  }

  /** Page v goes to its part of the small or large page that holds `phys`, with the bits of the flags. */
  ghost predicate LeafMaps(leaf: Leaf, v: nat, phys: nat, flags: nat, huge: bool) {
    && leaf.Leaf? && leaf.level == (if huge then 2 else 1) && Maps(leaf.entry, phys, flags, huge)
    && leaf.frame == AddrOf(leaf.entry) / PAGE + (if huge then v % 512 else 0)
  }

  /** The first n slots from page w0 on lead to consecutive pages of the physical range from `phys` on. */
  ghost predicate RegionMaps(mem: Memory, root: nat, w0: nat, n: nat, phys: nat, flags: nat, huge: bool) {
    var l := if huge then 2 else 1;
    forall v: nat | v < Span(4) && 0 <= SlotOf(w0, l, v) < n ::
      LeafMaps(Translate(mem, root, v), v, phys + Bytes(SlotOf(w0, l, v), huge), flags, huge)
  }

  lemma LeafOfMaps(v: nat, phys: nat, flags: nat, huge: bool)
    requires phys < PHYS_LIMIT && IsFlags(flags)
    ensures LeafMaps(LeafOf(EntryFor(phys, flags, huge), if huge then 2 else 1, v), v, phys, flags, huge)
  {
    hide Maps, EntryFor, AddrOf, Present;
    EntryFields(phys, flags, huge);
  }

  lemma UpdateMaps(mem: Memory, mem': Memory, tabs: map<nat, Table>, root: nat, w: nat, phys: nat, flags: nat,
                   huge: bool)
    requires phys < PHYS_LIMIT && IsFlags(flags)
    requires Updated(mem, mem', tabs, root, w, if huge then 2 else 1, EntryFor(phys, flags, huge))
    ensures RegionMaps(mem', root, w, 1, phys, flags, huge)
  {
    hide LeafMaps, EntryFor, Translate, LeafOf;
    var l := if huge then 2 else 1;
    forall v: nat | v < Span(4) && 0 <= SlotOf(w, l, v) < 1
      ensures LeafMaps(Translate(mem', root, v), v, phys + Bytes(SlotOf(w, l, v), huge), flags, huge)
    {
      LeafOfMaps(v, phys, flags, huge);
    }
  }

  lemma PlanMaps(mem: Memory, mem': Memory, tabs: map<nat, Table>, root: nat, w0: nat, n: nat, phys: nat, flags: nat,
                 huge: bool)
    requires phys + Bytes(n, huge) <= PHYS_LIMIT && IsFlags(flags)
    requires RegionMapped(mem, mem', tabs, root, w0, if huge then 2 else 1, n, Map(phys, flags, huge))
    ensures RegionMaps(mem', root, w0, n, phys, flags, huge)
  {
    hide LeafMaps, EntryFor, Translate, LeafOf, SlotOf;
    var l := if huge then 2 else 1;
    forall v: nat | v < Span(4) && 0 <= SlotOf(w0, l, v) < n
      ensures LeafMaps(Translate(mem', root, v), v, phys + Bytes(SlotOf(w0, l, v), huge), flags, huge)
    {
      LeafOfMaps(v, phys + Bytes(SlotOf(w0, l, v), huge), flags, huge);
    }
  }

  /** The walk from a root passes no other root. */
  lemma OnlyRoot(mem: Memory, tabs: map<nat, Table>, root: nat, w: nat, f: nat, l: nat)
    requires Typed(mem, tabs) && IsRoot(tabs, root) && w < Span(4) && 1 <= l <= 4 && Reaches(mem, root, 4, w, f, l)
    ensures f in tabs && tabs[f].level == l && (l == 4 ==> f == root)
  {
    RootOnWay(mem, tabs, root, w);
    ReachWay(mem, tabs, root, w, f, l);
  }

  lemma TopPath(mem: Memory, tabs: map<nat, Table>, root: nat, w: nat)
    requires Typed(mem, tabs) && IsRoot(tabs, root) && w < Span(4)
    ensures root in mem && |mem[root]| == 512 && !Huge(mem[root][Index(w, 4)]) && Reaches(mem, root, 4, w, root, 4)
  {
    assert TableOk(mem, tabs, root);
    UpperNotHuge(mem, tabs, root, Index(w, 4));
  }

  /** Entries of the two upper levels never have the PS bit. */
  lemma UpperNotHuge(mem: Memory, tabs: map<nat, Table>, f: nat, i: nat)
    requires Typed(mem, tabs) && f in tabs && tabs[f].level >= 3 && i < 512
    ensures f in mem && |mem[f]| == 512 && !Huge(mem[f][i])
  {
    assert TableOk(mem, tabs, f);
    assert EntryOk(mem, tabs, f, i);
    ZeroAbsent();
  }

  /** The slot of the page in its directory holds a large page exactly when the page lies in one. */
  lemma DirectorySlot(mem: Memory, mem': Memory, tabs: map<nat, Table>, tabs': map<nat, Table>, root: nat, w: nat,
                      pd: nat)
    requires SameTranslations(mem, mem', tabs) && IsRoot(tabs, root) && w < Span(4)
    requires Typed(mem', tabs') && pd in tabs' && tabs'[pd].level == 2 && Reaches(mem', root, 4, w, pd, 2)
    requires mem' == mem || (pd in mem' && mem'[pd] == Zeros())
    ensures pd in mem' && |mem'[pd]| == 512
    ensures var e := mem'[pd][Index(w, 2)];
            (Huge(e) <==> !NoHuge(mem, root, w)) && (Huge(e) ==> mem' == mem && Translate(mem, root, w).entry == e)
  {
    hide SameTranslations;
    ZeroAbsent();
    assert TableOk(mem', tabs', pd);
    assert EntryOk(mem', tabs', pd, Index(w, 2));
    ReachDescend(mem', root, 4, w, pd, 2);
    assert Translate(mem', root, w) == Translate(mem, root, w) by { SameAt(mem, mem', tabs, root, w); }
  }

  lemma UnreachedSmall(mem: Memory, mem': Memory, tabs: map<nat, Table>, tabs': map<nat, Table>, root: nat, w: nat)
    requires SameTranslations(mem, mem', tabs) && IsRoot(tabs, root) && IsRoot(tabs', root) && w < Span(4)
    requires Typed(mem', tabs') && Unreached(mem', root, w, 2)
    ensures NoHuge(mem, root, w)
  {
    hide Translate, SameTranslations, Typed, Unreached;
    UnreachedFault(mem', tabs', root, w, w);
    SameAt(mem, mem', tabs, root, w);
  }

  lemma SameAt(mem: Memory, mem': Memory, tabs: map<nat, Table>, r: nat, w: nat)
    requires SameTranslations(mem, mem', tabs) && IsRoot(tabs, r) && w < Span(4)
    ensures Translate(mem', r, w) == Translate(mem, r, w)
  {
  }

  /** A walk cannot go on behind an absent entry. */
  lemma DeadEnd(mem: Memory, root: nat, w: nat, f: nat, level: nat, l: nat)
    requires 1 <= l < level <= 4 && Reaches(mem, root, 4, w, f, level)
    requires f in mem && |mem[f]| == 512
    ensures !Present(mem[f][Index(w, level)]) ==> Unreached(mem, root, w, l)
  {
    if !Present(mem[f][Index(w, level)]) {
      forall g ensures !Reaches(mem, root, 4, w, g, l) { DeadPath(mem, root, 4, w, f, level, g, l); }
    }
  }

  lemma {:induction false} DeadPath(mem: Memory, r: nat, top: nat, w: nat, f: nat, level: nat, g: nat, l: nat)
    requires 1 <= l < level <= top <= 4 && Reaches(mem, r, top, w, f, level)
    requires f in mem && |mem[f]| == 512 && !Present(mem[f][Index(w, level)])
    ensures !Reaches(mem, r, top, w, g, l)
    decreases top
  {
    if level < top { DeadPath(mem, FrameOf(mem[r][Index(w, top)]), top - 1, w, f, level, g, l); }
  }

  lemma UnreachedDeeper(mem: Memory, root: nat, w: nat)
    ensures Unreached(mem, root, w, 2) ==> Unreached(mem, root, w, 1)
  {
    forall f | Reaches(mem, root, 4, w, f, 1) ensures exists g :: Reaches(mem, root, 4, w, g, 2) {
      var e4 := mem[root][Index(w, 4)];
      var e3 := mem[FrameOf(e4)][Index(w, 3)];
      assert Reaches(mem, root, 4, w, FrameOf(e3), 2) by { assert Reaches(mem, FrameOf(e4), 3, w, FrameOf(e3), 2); }
    }
  }

  /** The page is not inside a large page of the root. */
  predicate NoHuge(mem: Memory, root: nat, w: nat) {
    var t := Translate(mem, root, w);
    t == Fault || t.level == 1
  }

  /** The walk of page w ends before a table of level l. */
  ghost predicate Unreached(mem: Memory, root: nat, w: nat, l: nat)
    requires 1 <= l <= 4
  {
    forall f :: !Reaches(mem, root, 4, w, f, l)
  }

  /** Frames that hold no table can be written without changing a translation. */
  lemma PlainWrite(mem: Memory, tabs: map<nat, Table>, f: nat, words: seq<nat>)
    requires Typed(mem, tabs) && f !in tabs
    ensures Typed(mem[f := words], tabs) && SameTranslations(mem, mem[f := words], tabs)
  {
    var mem' := mem[f := words];
    forall g | g in tabs ensures TableOk(mem', tabs, g) {
      assert TableOk(mem, tabs, g);
      forall k: nat | k < 512 ensures EntryOk(mem', tabs, g, k) { assert EntryOk(mem, tabs, g, k); }
    }
    forall r: nat, w: nat | IsRoot(tabs, r) && w < Span(4) ensures Translate(mem', r, w) == Translate(mem, r, w) {
      RootOnWay(mem, tabs, r, w);
      forall g | g in tabs ensures g in mem && g in mem' && mem'[g] == mem[g] { assert TableOk(mem, tabs, g); }
      WalkFrame(mem, mem', tabs, r, w);
    }
  }

  lemma RootOnWay(mem: Memory, tabs: map<nat, Table>, root: nat, w: nat)
    requires Typed(mem, tabs) && IsRoot(tabs, root) && w < Span(4)
    ensures OnWay(tabs, root, w)
  {
    assert TableOk(mem, tabs, root);
  }

  /** Following a present entry of a table on the path */
  lemma Present1(mem: Memory, tabs: map<nat, Table>, root: nat, w: nat, f: nat, l: nat)
    requires Typed(mem, tabs) && IsRoot(tabs, root) && w < Span(4) && 2 <= l <= 4 && Reaches(mem, root, 4, w, f, l)
    requires f in tabs && f in mem && |mem[f]| == 512 && Present(mem[f][Index(w, l)]) && !Huge(mem[f][Index(w, l)])
    ensures var c := FrameOf(mem[f][Index(w, l)]);
            c in tabs && tabs[c].level == l - 1 && Reaches(mem, root, 4, w, c, l - 1)
    ensures SameTranslations(mem, mem, tabs)
  {
    RootOnWay(mem, tabs, root, w);
    ReachWay(mem, tabs, root, w, f, l);
    StepDown(mem, tabs, f, w);
    ReachExtend(mem, root, 4, w, f, l, FrameOf(mem[f][Index(w, l)]));
  }

  ghost predicate NoFree(t: seq<Block>) {
    forall p | 0 <= p < |t| :: t[p].status != Free
  }

  lemma FreeFrameIsRun(t: seq<Block>)
    ensures NoFree(t) <==> forall h: nat | Aligned(h, 0) :: !AllFree(t, h, 0)
  {
    forall p: nat | p < |t| && t[p].status == Free ensures Aligned(p, 0) && AllFree(t, p, 0) { AlignedZero(p); }
    forall h: nat | AllFree(t, h, 0) ensures !NoFree(t) { assert t[h].status == Free; }
  }

  lemma OneFrame()
    ensures LeastOrder(PAGE, 0)
  {
  }
}
