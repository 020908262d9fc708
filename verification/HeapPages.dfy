/** The pages behind the kernel heap: fresh frames, one for each page, mapped by kheap_extend. */
module HeapPages {
  import opened Bits
  import opened Seqs
  import opened Tiling
  import opened Entry
  import opened PageTable
  import opened Paging

  /** Start of the upper half of the address space */
  const UPPER: nat := 0xFFFF_8000_0000_0000

  /** PTE_FLAG_RW | PTE_FLAG_GLOBAL */
  const HEAP_FLAGS: nat := 0x102

  // ----- counting free frames -----

  ghost function FreeCount(t: seq<Block>): (n: nat) {
    if t == [] then 0 else FreeCount(t[..|t| - 1]) + if t[|t| - 1].status == Free then 1 else 0
  }

  lemma {:induction false} CountShrinks(t: seq<Block>, u: seq<Block>)
    requires |u| == |t| && forall p: nat | p < |t| && u[p].status == Free :: t[p].status == Free
    ensures FreeCount(u) <= FreeCount(t)
  {
    if t != [] {
      var n := |t| - 1;
      assert u[n].status == Free ==> t[n].status == Free;
      forall p: nat | p < n && u[..n][p].status == Free ensures t[..n][p].status == Free { assert u[p].status == Free; }
      CountShrinks(t[..n], u[..n]);
    }
  }

  lemma {:induction false} CountTaken(t: seq<Block>, u: seq<Block>, f: nat)
    requires |u| == |t| && f < |t| && t[f].status == Free && u[f].status != Free
    requires forall p: nat | p < |t| && p != f :: u[p].status == Free <==> t[p].status == Free
    ensures FreeCount(u) + 1 == FreeCount(t)
  {
    var n := |t| - 1;
    if f < n {
      CountTaken(t[..n], u[..n], f);
    } else {
      CountSame(t[..n], u[..n]);
    }
  }

  lemma CountSame(t: seq<Block>, u: seq<Block>)
    requires |u| == |t| && forall p: nat | p < |t| :: u[p].status == Free <==> t[p].status == Free
    ensures FreeCount(u) == FreeCount(t)
  {
    CountShrinks(t, u);
    CountShrinks(u, t);
  }

  // ----- pages and frames -----

  ghost function HeapLeaf(f: nat): (l: Leaf) { Leaf(f, EntryFor(f * PAGE, HEAP_FLAGS, false), 1) }

  /** The pages from w0 on have the frames fs, and no other page of any root changed. */
  ghost predicate PagesMapped(mem: Memory, mem': Memory, tabs: map<nat, Table>, root: nat, w0: nat, fs: seq<nat>) {
    && (forall k: nat | k < |fs| :: PageHas(mem', root, w0 + k, fs[k]))
    && (forall r: nat, v: nat | IsRoot(tabs, r) && v < Span(4) && !(w0 <= v < w0 + |fs|) ::
          Translate(mem', r, v) == Translate(mem, r, v))
  }

  ghost predicate PageHas(mem: Memory, root: nat, v: nat, f: nat) {
    Translate(mem, root, v) == HeapLeaf(f)
  }

  /** The frames fs were free and are held now, each once. */
  ghost predicate FramesHeld(s: State, s': State, fs: seq<nat>) {
    && Extends(s, s') && Distinct(fs)
    && (forall k: nat | k < |fs| :: TakenFrame(s, s', fs[k]))
  }

  ghost predicate TakenFrame(s: State, s': State, p: nat) {
    p < |s.t| && s.t[p].status == Free && InUse(s'.t, p) && p !in s'.tabs
  }

  /** Besides the frames fs only new tables took frames. */
  ghost predicate FramesTaken(s: State, s': State, fs: seq<nat>) {
    && FramesHeld(s, s', fs)
    && (forall p: nat | p < |s.t| && s.t[p].status == Free && s'.t[p].status != Free :: p in fs || p in s'.tabs)
    && FreeCount(s'.t) + |fs| <= FreeCount(s.t)
  }

  lemma NothingMapped(s: State, root: nat, w0: nat)
    requires Typed(s.mem, s.tabs) && |s.pages| == |s.t| && w0 < Span(4)
    ensures Progressed(s, s, root, w0, [])
  {
    ExtendsRefl(s);
    FromRefl(s.mem, s.tabs, root, Index(w0, 4));
  }

  lemma MappedStep(mem0: Memory, mem: Memory, mem': Memory, tabs: map<nat, Table>, ts: map<nat, Table>, root: nat,
                   w0: nat, fs: seq<nat>, f: nat)
    requires PagesMapped(mem0, mem, tabs, root, w0, fs) && IsRoot(tabs, root)
    requires (forall r | IsRoot(tabs, r) :: IsRoot(ts, r))
    requires w0 + |fs| < Span(4) && f * PAGE < PHYS_LIMIT
    requires Updated(mem, mem', ts, root, w0 + |fs|, 1, EntryFor(f * PAGE, HEAP_FLAGS, false))
    ensures PagesMapped(mem0, mem', tabs, root, w0, fs + [f])
  {
    hide Translate, EntryFor;
    var w, e := w0 + |fs|, EntryFor(f * PAGE, HEAP_FLAGS, false);
    HeapFlags();
    EntryFields(f * PAGE, HEAP_FLAGS, false);
    assert Translate(mem', root, w) == LeafOf(e, 1, w);
    forall r: nat, v: nat | IsRoot(tabs, r) && v < Span(4) && v != w
      ensures Translate(mem', r, v) == Translate(mem, r, v)
    {
      assert v / Span(0) != w / Span(0);
    }
    forall k: nat | k < |fs + [f]| ensures PageHas(mem', root, w0 + k, (fs + [f])[k]) {
      if k < |fs| { assert PageHas(mem, root, w0 + k, fs[k]); }
    }
  }

  lemma HeapFlags()
    ensures IsFlags(HEAP_FLAGS)
  {
    LowFlags(HEAP_FLAGS);
  }

  lemma MappedSame(mem0: Memory, mem: Memory, mem': Memory, tabs: map<nat, Table>, ts: map<nat, Table>, root: nat,
                   w0: nat, fs: seq<nat>)
    requires PagesMapped(mem0, mem, tabs, root, w0, fs) && SameTranslations(mem, mem', ts) && IsRoot(tabs, root)
    requires (forall r | IsRoot(tabs, r) :: IsRoot(ts, r)) && w0 + |fs| <= Span(4)
    ensures PagesMapped(mem0, mem', tabs, root, w0, fs)
  {
    hide Translate;
    forall k: nat | k < |fs| ensures PageHas(mem', root, w0 + k, fs[k]) { assert PageHas(mem, root, w0 + k, fs[k]); }
  }

  /** A frame was taken, and tables on the way to page w were built. */
  ghost predicate TablesBuilt(s: State, s1: State, s2: State, root: nat, w: nat, f: nat) {
    && Extends(s, s1) && s1.tabs == s.tabs && s1.mem == s.mem && Builds(s1, s2)
    && f < |s.t| && s.t[f].status == Free && InUse(s1.t, f) && f !in s.tabs
    && (forall p: nat | p < |s.t| && p != f :: s1.t[p].status == Free <==> s.t[p].status == Free)
    && w < Span(4) && RootsKept(s1.mem, s2.mem, s1.tabs, root, Index(w, 4))
  }

  /** The frame is behind page w now. */
  ghost predicate FrameUsed(s: State, s1: State, s2: State, root: nat, w: nat, f: nat) {
    && TablesBuilt(s, s1, s2, root, w, f) && f * PAGE < PHYS_LIMIT
    && Updated(s1.mem, s2.mem, s1.tabs, root, w, 1, EntryFor(f * PAGE, HEAP_FLAGS, false))
  }

  /** The frame is gone, but no page changed. */
  ghost predicate FrameLost(s: State, s1: State, s2: State, root: nat, w: nat, f: nat) {
    TablesBuilt(s, s1, s2, root, w, f) && SameTranslations(s1.mem, s2.mem, s1.tabs)
  }

  /** One frame more, and the tables its mapping needed */
  lemma TakenStep(s0: State, s: State, s1: State, s2: State, root: nat, w: nat, fs: seq<nat>, f: nat)
    requires FramesTaken(s0, s, fs) && TablesBuilt(s, s1, s2, root, w, f)
    ensures FramesTaken(s0, s2, fs + [f])
  {
    hide FreeCount, RootsKept, Extends;
    var gs := fs + [f];
    CountStep(s, s1, s2, root, w, f);
    ExtendsTrans(s, s1, s2);
    ExtendsTrans(s0, s, s2);
    ExtendsGives(s0, s);
    ExtendsGives(s0, s2);
    ExtendsGives(s, s1);
    ExtendsGives(s, s2);
    ExtendsGives(s1, s2);
    forall k: nat | k < |fs| ensures fs[k] != f { assert TakenFrame(s0, s, fs[k]); }
    forall p: nat | p < |s0.t| && s0.t[p].status == Free && s2.t[p].status != Free ensures p in gs || p in s2.tabs {
      if s.t[p].status != Free {
        assert p in fs || p in s.tabs;
      } else if p != f {
        assert s1.t[p].status == Free;
      }
    }
    forall k: nat | k < |gs| ensures TakenFrame(s0, s2, gs[k]) {
      if k < |fs| { assert gs[k] == fs[k] && TakenFrame(s0, s, fs[k]); }
    }
  }

  lemma ExtendsGives(s: State, s': State)
    requires Extends(s, s')
    ensures Grows(s.tabs, s'.tabs) && Keeps(s.t, s'.t)
    ensures forall g | g in s'.tabs && g !in s.tabs :: g < |s.t| && s.t[g].status == Free
  {
  }

  lemma CountStep(s: State, s1: State, s2: State, root: nat, w: nat, f: nat)
    requires TablesBuilt(s, s1, s2, root, w, f)
    ensures FreeCount(s2.t) + 1 <= FreeCount(s.t)
  {
    CountTaken(s.t, s1.t, f);
    forall p: nat | p < |s1.t| && s2.t[p].status == Free ensures s1.t[p].status == Free {}
    CountShrinks(s1.t, s2.t);
  }

  /** The loop of kheap_extend after |fs| pages */
  ghost predicate Progressed(s0: State, s: State, root: nat, w0: nat, fs: seq<nat>) {
    && PagesMapped(s0.mem, s.mem, s0.tabs, root, w0, fs) && FramesTaken(s0, s, fs)
    && w0 < Span(4) && RootsFrom(s0.mem, s.mem, s0.tabs, root, Index(w0, 4))
  }

  /** A round in which a frame was taken and mapped */
  lemma RoundDone(s0: State, s: State, s1: State, s2: State, root: nat, w0: nat, fs: seq<nat>, f: nat)
    requires Progressed(s0, s, root, w0, fs) && IsRoot(s0.tabs, root) && w0 + |fs| < Span(4)
    requires FrameUsed(s, s1, s2, root, w0 + |fs|, f)
    ensures Progressed(s0, s2, root, w0, fs + [f])
  {
    hide PagesMapped, Updated, EntryFor, OnlyTables, RootsKept, RootsFrom, FreeCount, Index;
    ExtendsFacts(s0, s);
    MappedStep(s0.mem, s1.mem, s2.mem, s0.tabs, s1.tabs, root, w0, fs, f);
    TakenStep(s0, s, s1, s2, root, w0 + |fs|, fs, f);
    SlotStep(s0, s, s1, s2, root, w0, w0 + |fs|, f);
  }

  lemma SlotStep(s0: State, s: State, s1: State, s2: State, root: nat, w0: nat, w: nat, f: nat)
    requires w0 <= w && Extends(s0, s) && RootsFrom(s0.mem, s.mem, s0.tabs, root, Index(w0, 4))
    requires TablesBuilt(s, s1, s2, root, w, f)
    ensures RootsFrom(s0.mem, s2.mem, s0.tabs, root, Index(w0, 4))
  {
    hide RootsKept, RootsFrom, Builds, Keeps;
    TopIndexGrows(w0, w);
    KeptFrom(s1.mem, s2.mem, s1.tabs, root, Index(w0, 4), Index(w, 4));
    ExtendsFacts(s0, s);
    FromTrans(s0.mem, s.mem, s2.mem, s0.tabs, s.tabs, root, Index(w0, 4), Index(w0, 4));
  }

  lemma TopIndexGrows(v: nat, w: nat)
    requires v <= w < Span(4)
    ensures Index(v, 4) <= Index(w, 4)
  {
  }

  /** A round that found no frame */
  lemma RoundEmpty(s0: State, s: State, s': State, root: nat, w0: nat, fs: seq<nat>)
    requires Progressed(s0, s, root, w0, fs) && Extends(s, s') && s'.mem == s.mem && s'.tabs == s.tabs && s'.t == s.t
    ensures Progressed(s0, s', root, w0, fs)
  {
    hide PagesMapped, RootsFrom, FreeCount, Extends, Index;
    ExtendsTrans(s0, s, s');
    forall k: nat | k < |fs| ensures TakenFrame(s0, s', fs[k]) { assert TakenFrame(s0, s, fs[k]); }
  }

  /** A round that the machine halted in: a frame is gone and tables may have been added, but no page changed. */
  lemma RoundHalted(s0: State, s: State, s1: State, s2: State, root: nat, w0: nat, fs: seq<nat>, f: nat)
    requires Progressed(s0, s, root, w0, fs) && IsRoot(s0.tabs, root) && w0 + |fs| < Span(4)
    requires FrameLost(s, s1, s2, root, w0 + |fs|, f)
    ensures PagesMapped(s0.mem, s2.mem, s0.tabs, root, w0, fs) && FramesHeld(s0, s2, fs)
    ensures FreeCount(s2.t) + |fs| <= FreeCount(s0.t)
    ensures HeapGrew(s0, s2, root, w0, Elems(fs + [f]))
  {
    hide PagesMapped, SameTranslations, FreeCount, RootsKept, RootsFrom, Extends, Index, OnlyTables;
    ExtendsFacts(s0, s);
    MappedSame(s0.mem, s1.mem, s2.mem, s0.tabs, s1.tabs, root, w0, fs);
    TakenStep(s0, s, s1, s2, root, w0 + |fs|, fs, f);
    SlotStep(s0, s, s1, s2, root, w0, w0 + |fs|, f);
    assert (fs + [f])[..|fs|] == fs;
    forall k: nat | k < |fs| ensures TakenFrame(s0, s2, fs[k]) { assert TakenFrame(s0, s2, (fs + [f])[k]); }
    GrewFrom(s0, s2, root, w0, fs, fs + [f]);
  }

  lemma ProgressedFacts(s0: State, s: State, root: nat, w0: nat, fs: seq<nat>)
    requires Progressed(s0, s, root, w0, fs)
    ensures PagesMapped(s0.mem, s.mem, s0.tabs, root, w0, fs) && FramesHeld(s0, s, fs) && FramesTaken(s0, s, fs)
    ensures FreeCount(s.t) + |fs| <= FreeCount(s0.t) && HeapGrew(s0, s, root, w0, Elems(fs))
  {
    hide PagesMapped, RootsFrom, FreeCount, Extends, Index;
    GrewFrom(s0, s, root, w0, fs, fs);
  }

  // ----- what an extension means for everyone else -----

  ghost function Elems(fs: seq<nat>): (r: set<nat>) { set p | p in fs }

  /**
   The heap took frames and mapped pages from w0 on: besides the frames it took only new tables took frames, and in
   no root a page below w0 or a root slot below that of w0 changed.
   */
  ghost predicate HeapGrew(s: State, s': State, root: nat, w0: nat, taken: set<nat>) {
    && Extends(s, s') && (forall p | p in taken :: TakenFrame(s, s', p))
    && (forall p: nat | p < |s.t| && s.t[p].status == Free && s'.t[p].status != Free :: p in taken || p in s'.tabs)
    && (forall r: nat, v: nat | IsRoot(s.tabs, r) && v < w0 && v < Span(4) ::
          Translate(s'.mem, r, v) == Translate(s.mem, r, v))
    && w0 < Span(4) && RootsFrom(s.mem, s'.mem, s.tabs, root, Index(w0, 4))
  }

  lemma GrewFrom(s0: State, s: State, root: nat, w0: nat, fs: seq<nat>, all: seq<nat>)
    requires PagesMapped(s0.mem, s.mem, s0.tabs, root, w0, fs) && FramesTaken(s0, s, all)
    requires w0 < Span(4) && RootsFrom(s0.mem, s.mem, s0.tabs, root, Index(w0, 4))
    ensures HeapGrew(s0, s, root, w0, Elems(all))
  {
    hide Translate, RootsFrom, FreeCount, Index;
  }

  lemma GrewRefl(s: State, root: nat, w0: nat)
    requires Typed(s.mem, s.tabs) && |s.pages| == |s.t| && w0 < Span(4)
    ensures HeapGrew(s, s, root, w0, {})
  {
    ExtendsRefl(s);
    FromRefl(s.mem, s.tabs, root, Index(w0, 4));
  }

  lemma GrewTrans(s: State, s': State, s'': State, root: nat, w0: nat, w1: nat, a: set<nat>, b: set<nat>)
    requires HeapGrew(s, s', root, w0, a) && HeapGrew(s', s'', root, w1, b) && w0 <= w1
    ensures HeapGrew(s, s'', root, w0, a + b)
  {
    hide Translate, RootsFrom, Index, Extends;
    ExtendsTrans(s, s', s'');
    ExtendsGives(s, s');
    ExtendsGives(s', s'');
    ExtendsFacts(s, s');
    TopIndexGrows(w0, w1);
    FromTrans(s.mem, s'.mem, s''.mem, s.tabs, s'.tabs, root, Index(w0, 4), Index(w1, 4));
    forall p: nat | p < |s.t| && s.t[p].status == Free && s''.t[p].status != Free ensures p in a + b || p in s''.tabs {
      if s'.t[p].status != Free { assert p in a || p in s'.tabs; }
    }
  }

  // ----- pages that are mapped again -----

  ghost predicate Behind(mem: Memory, root: nat, p: nat) {
    exists v: nat :: v < Span(4) && LeafAt(mem, root, v, p)
  }

  /**
   kheap_extend does not look whether a page is mapped. A frame that was behind a page is behind none afterwards
   exactly when all its pages are among those that got new frames; it stays in use.
   */
  lemma RemapLoses(s: State, s': State, root: nat, w0: nat, fs: seq<nat>, p: nat)
    requires PagesMapped(s.mem, s'.mem, s.tabs, root, w0, fs) && FramesHeld(s, s', fs)
    requires IsRoot(s.tabs, root) && w0 + |fs| <= Span(4) && InUse(s.t, p) && Behind(s.mem, root, p)
    ensures InUse(s'.t, p)
    ensures !Behind(s'.mem, root, p) <==>
            forall v: nat | v < Span(4) && LeafAt(s.mem, root, v, p) :: w0 <= v < w0 + |fs|
  {
    hide Translate, Extends, HeapLeaf;
    ExtendsGives(s, s');
    forall v: nat | v < Span(4)
      ensures LeafAt(s'.mem, root, v, p) <==> LeafAt(s.mem, root, v, p) && !(w0 <= v < w0 + |fs|)
    {
      if w0 <= v < w0 + |fs| {
        assert PageHas(s'.mem, root, w0 + (v - w0), fs[v - w0]) && TakenFrame(s, s', fs[v - w0]);
        LeafLevel(fs[v - w0]);
      }
    }
  }

  /**
   An extension that failed behind page k, and a later one from the same end: the frame that the first put behind
   page k is lost.
   */
  lemma RetryLosesPrefix(s0: State, s1: State, s2: State, s3: State, root: nat, w0: nat, fs: seq<nat>, gs: seq<nat>,
                         k: nat)
    requires PagesMapped(s0.mem, s1.mem, s0.tabs, root, w0, fs) && FramesHeld(s0, s1, fs) && IsRoot(s0.tabs, root)
    requires forall v: nat | v < Span(4) :: Translate(s2.mem, root, v) == Translate(s1.mem, root, v)
    requires PagesMapped(s2.mem, s3.mem, s2.tabs, root, w0, gs) && FramesHeld(s2, s3, gs) && IsRoot(s2.tabs, root)
    requires k < |fs| && k < |gs| && w0 + |fs| <= Span(4) && w0 + |gs| <= Span(4)
    requires InUse(s2.t, fs[k]) && !Behind(s0.mem, root, fs[k])
    ensures InUse(s3.t, fs[k]) && !Behind(s3.mem, root, fs[k])
  {
    hide Translate, Extends, HeapLeaf;
    var p := fs[k];
    forall v: nat | v < Span(4) && LeafAt(s2.mem, root, v, p) ensures v == w0 + k {
      assert !(w0 <= v < w0 + |fs|) ==> LeafAt(s0.mem, root, v, p);
      assert PageHas(s1.mem, root, w0 + (v - w0), fs[v - w0]);
      LeafLevel(fs[v - w0]);
    }
    assert PageHas(s1.mem, root, w0 + k, fs[k]);
    LeafLevel(fs[k]);
    assert LeafAt(s2.mem, root, w0 + k, fs[k]);
    RemapLoses(s2, s3, root, w0, gs, fs[k]);
  }

  // ----- what the heap keeps about its pages -----

  /** The kernel can write the page, user code cannot reach it, and every address space sees it. */
  predicate KernelData(leaf: Leaf) {
    leaf.Leaf? && Present(leaf.entry) && Has(leaf.entry, RW) && !Has(leaf.entry, US) && Has(leaf.entry, GLOBAL)
  }

  lemma HeapRights(f: nat)
    ensures KernelData(HeapLeaf(f))
  {
    hide And, Or, Pow2, Make, Present;
    FlagPowers();
    PresentBit(f * PAGE, HEAP_FLAGS);
    MakeBit(f * PAGE, HEAP_FLAGS, 1);
    MakeBit(f * PAGE, HEAP_FLAGS, 2);
    MakeBit(f * PAGE, HEAP_FLAGS, 8);
    HeapBits();
  }

  lemma HeapBits()
    ensures Has(HEAP_FLAGS, RW) && !Has(HEAP_FLAGS, US) && Has(HEAP_FLAGS, GLOBAL)
  {
  }

  lemma PresentBit(phys: nat, flags: nat)
    requires phys % PAGE == 0
    ensures Present(Make(phys, flags))
  {
    hide Pow2;
    FlagPowers();
    MakeBit(phys, flags, 0);
  }

  /** From page lo on nothing is mapped by large pages, and the first n pages are mapped as kernel data. */
  ghost predicate HeapBacked(mem: Memory, root: nat, lo: nat, n: nat) {
    && (forall v: nat | lo <= v < Span(4) :: NoHuge(mem, root, v))
    && (forall v: nat | lo <= v < lo + n && v < Span(4) :: KernelData(Translate(mem, root, v)))
  }

  /** Mapping further pages behind the heap */
  lemma BackedMore(mem: Memory, mem': Memory, tabs: map<nat, Table>, root: nat, lo: nat, n: nat, fs: seq<nat>)
    requires HeapBacked(mem, root, lo, n) && PagesMapped(mem, mem', tabs, root, lo + n, fs) && IsRoot(tabs, root)
    ensures HeapBacked(mem', root, lo, n + |fs|)
  {
    hide Translate, HeapLeaf, KernelData;
    forall v: nat | lo <= v < Span(4)
      ensures NoHuge(mem', root, v) && (v < lo + n + |fs| ==> KernelData(Translate(mem', root, v)))
    {
      assert NoHuge(mem, root, v);
      if lo + n <= v < lo + n + |fs| {
        assert PageHas(mem', root, lo + n + (v - lo - n), fs[v - lo - n]);
        LeafLevel(fs[v - lo - n]);
        HeapRights(fs[v - lo - n]);
      }
    }
  }

  /** The frames behind the first n pages are held and hold no tables, and no two pages share one. */
  ghost predicate HeapHeld(mem: Memory, t: seq<Block>, tabs: map<nat, Table>, root: nat, lo: nat, n: nat) {
    && (forall v: nat, p: nat | lo <= v < lo + n && LeafAt(mem, root, v, p) :: InUse(t, p) && p !in tabs)
    && (forall u: nat, v: nat, p: nat | lo <= u < lo + n && lo <= v < lo + n ::
          LeafAt(mem, root, u, p) && LeafAt(mem, root, v, p) ==> u == v)
  }

  lemma HeldMore(s: State, s': State, root: nat, lo: nat, n: nat, fs: seq<nat>)
    requires HeapHeld(s.mem, s.t, s.tabs, root, lo, n) && PagesMapped(s.mem, s'.mem, s.tabs, root, lo + n, fs)
    requires FramesHeld(s, s', fs) && IsRoot(s.tabs, root) && lo + n + |fs| <= Span(4)
    ensures HeapHeld(s'.mem, s'.t, s'.tabs, root, lo, n + |fs|)
  {
    hide Translate, Extends, HeapLeaf;
    ExtendsGives(s, s');
    forall v: nat, p: nat | lo <= v < lo + n + |fs| && LeafAt(s'.mem, root, v, p)
      ensures InUse(s'.t, p) && p !in s'.tabs
      ensures if v < lo + n then LeafAt(s.mem, root, v, p) && InUse(s.t, p)
              else p == fs[v - lo - n] && s.t[p].status == Free
    {
      if v >= lo + n {
        LeafLevel(fs[v - lo - n]);
        assert PageHas(s'.mem, root, lo + n + (v - lo - n), fs[v - lo - n]) && TakenFrame(s, s', fs[v - lo - n]);
      } else {
        assert LeafAt(s.mem, root, v, p);
      }
    }
  }

  lemma HeldLess(mem: Memory, t: seq<Block>, tabs: map<nat, Table>, root: nat, lo: nat, n: nat, k: nat)
    requires HeapHeld(mem, t, tabs, root, lo, n) && k <= n
    ensures HeapHeld(mem, t, tabs, root, lo, k)
  {
  }

  lemma LeafLevel(f: nat)
    ensures HeapLeaf(f) != Fault && HeapLeaf(f).level == 1 && HeapLeaf(f).frame == f
  {
  }

  lemma BackedLess(mem: Memory, root: nat, lo: nat, n: nat, m: nat)
    requires HeapBacked(mem, root, lo, n) && m <= n
    ensures HeapBacked(mem, root, lo, m)
  {
  }

  /** Addresses of the upper half count pages without a gap. */
  lemma UpperPage(a: nat)
    requires UPPER <= a < U64
    ensures PageOf(a) == a / PAGE - 0xF_FFF0_0000_0000
  {
  }

  lemma UpperPages(a: nat, n: nat)
    requires UPPER <= a && a % PAGE == 0 && a + n * PAGE < U64
    ensures PageOf(a) + n < Span(4) && PageOf(a + n * PAGE) == PageOf(a) + n
  {
    hide PageOf;
    UpperPage(a);
    UpperPage(a + n * PAGE);
  }
}
