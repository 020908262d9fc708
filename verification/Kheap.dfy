/** The kernel heap: a first-fit allocator over headers that live in the heap itself. */
module Kheap {
  import opened Bits
  import opened Seqs
  import opened Tiling
  import opened Pmm
  import opened Entry
  import opened PageTable
  import opened Paging
  import opened HeapCells
  import opened HeapPages

  /** struct kheap_node; a null pointer is 0 */
  datatype Header = Header(size: nat, isFree: bool, next: nat)

  ghost predicate LinkAt(hdr: map<nat, Header>, cells: seq<Cell>, i: nat)
    requires i < |cells|
  {
    var c := cells[i];
    c.addr in hdr && hdr[c.addr] == Header(c.size, c.free, AddrAt(cells, 0, i + 1))
  }

  /** The headers in memory, followed from the head pointer, are exactly the cells. */
  ghost predicate Chained(hdr: map<nat, Header>, head: nat, cells: seq<Cell>) {
    && head == AddrAt(cells, 0, 0)
    && forall i: nat | i < |cells| :: LinkAt(hdr, cells, i)
  }

  ghost predicate FirstFit(cells: seq<Cell>, n: nat, i: nat) {
    i < |cells| && Fits(cells[i], n) && forall j: nat | j < i :: !Fits(cells[j], n)
  }

  /** The list after k extensions */
  ghost function GrowBy(cells: seq<Cell>, end: nat, k: nat): (r: seq<Cell>) {
    if k == 0 then cells else Grow(GrowBy(cells, end, k - 1), end + (k - 1) * EXTENSION, EXTENSION)
  }

  /** After k extensions the last node is free and has all the bytes they added. */
  ghost predicate LastHas(cells: seq<Cell>, k: nat) {
    k > 0 ==> cells != [] && cells[|cells| - 1].free && cells[|cells| - 1].size + HEADER >= k * EXTENSION
  }

  lemma LastGrows(cells: seq<Cell>, end: nat, k: nat)
    requires LastHas(cells, k)
    ensures LastHas(Grow(cells, end, EXTENSION), k + 1)
  {
  }

  /** kmalloc after k extensions: what they took is behind the new pages. */
  ghost predicate Enlarged(s0: State, s: State, c0: seq<Cell>, cells: seq<Cell>, e0: nat, k: nat, root: nat,
                           taken: set<nat>) {
    && cells == GrowBy(c0, e0, k) && LastHas(cells, k) && SameLive(cells, c0)
    && FreeCount(s.t) * PAGE + k * EXTENSION <= FreeCount(s0.t) * PAGE
    && HeapGrew(s0, s, root, PageOf(e0), taken) && (k == 0 ==> s == s0) && IsRoot(s0.tabs, root)
    && (forall p: nat :: p in taken <==> NewLeaf(s.mem, root, PageOf(e0), k, p))
  }

  /** The frame is behind one of the pages that k extensions from page w0 on added. */
  ghost predicate NewLeaf(mem: Memory, root: nat, w0: nat, k: nat, p: nat) {
    IsLeafOf(mem, root, w0, w0 + k * (EXTENSION / PAGE), p)
  }

  lemma EnlargedFirst(s: State, cells: seq<Cell>, end: nat, root: nat)
    requires Typed(s.mem, s.tabs) && |s.pages| == |s.t| && PageOf(end) < Span(4) && IsRoot(s.tabs, root)
    ensures Enlarged(s, s, cells, cells, end, 0, root, {})
  {
    hide Typed, HeapGrew, PageOf;
    GrewRefl(s, root, PageOf(end));
  }

  lemma EnlargedGives(s0: State, s: State, c0: seq<Cell>, cells: seq<Cell>, e0: nat, k: nat, root: nat,
                      taken: set<nat>, n: nat)
    requires Enlarged(s0, s, c0, cells, e0, k, root, taken)
    ensures cells == GrowBy(c0, e0, k) && SameLive(cells, c0)
    ensures (forall p: nat :: Live(cells, p) <==> Live(c0, p)) && !Live(c0, 0)
    ensures FreeCount(s.t) * PAGE + k * EXTENSION <= FreeCount(s0.t) * PAGE
    ensures HeapGrew(s0, s, root, PageOf(e0), taken) && (k == 0 ==> s == s0)
    ensures forall p: nat :: p in taken <==> NewLeaf(s.mem, root, PageOf(e0), k, p)
    ensures (forall j: nat | j < |cells| :: !Fits(cells[j], n)) ==> k * EXTENSION < n + HEADER
  {
    hide HeapGrew, PageOf, Live, FreeCount, NewLeaf;
    NoneAtZero(c0);
    SameLiveBlocks(cells, c0);
    assert k > 0 ==> (cells[|cells| - 1].size >= n ==> Fits(cells[|cells| - 1], n));
  }

  lemma EnlargedNext(s0: State, s: State, s': State, c0: seq<Cell>, c: seq<Cell>, e0: nat, k: nat, root: nat,
                     taken: set<nat>, more: set<nat>)
    requires Enlarged(s0, s, c0, c, e0, k, root, taken)
    requires UPPER <= e0 && e0 % PAGE == 0 && e0 + (k + 1) * EXTENSION < U64
    requires HeapGrew(s, s', root, PageOf(e0 + k * EXTENSION), more)
    requires forall p: nat :: p in more <==> NewLeaf(s'.mem, root, PageOf(e0 + k * EXTENSION), 1, p)
    requires FreeCount(s'.t) + EXTENSION / PAGE <= FreeCount(s.t)
    ensures Enlarged(s0, s', c0, Grow(c, e0 + k * EXTENSION, EXTENSION), e0, k + 1, root, taken + more)
  {
    hide HeapGrew, PageOf, Live, FreeCount, Grow, LastHas, NewLeaf, Extends;
    var e := e0 + k * EXTENSION;
    ExtensionPages(e0, k);
    ExtensionPages(e0, k + 1);
    GrewTrans(s0, s, s', root, PageOf(e0), PageOf(e), taken, more);
    GrewRoot(s0, s, root, PageOf(e0), taken);
    LastGrows(c, e, k);
    GrowLive(c, e, EXTENSION);
    forall p: nat ensures p in taken + more <==> NewLeaf(s'.mem, root, PageOf(e0), k + 1, p) {
      LeavesJoin(s, s', root, PageOf(e0), PageOf(e), k, more, p);
    }
  }

  lemma ExtensionPages(e0: nat, k: nat)
    requires UPPER <= e0 && e0 % PAGE == 0 && e0 + k * EXTENSION < U64
    ensures PageOf(e0 + k * EXTENSION) == PageOf(e0) + k * (EXTENSION / PAGE) < Span(4)
  {
    hide PageOf;
    var e := e0 + k * EXTENSION;
    assert e % PAGE == 0 && (e - e0) / PAGE == k * (EXTENSION / PAGE);
    StartPages(e0, e);
    UpperPages(e, 0);
  }

  lemma GrewRoot(s: State, s': State, root: nat, w0: nat, taken: set<nat>)
    requires HeapGrew(s, s', root, w0, taken) && IsRoot(s.tabs, root)
    ensures IsRoot(s'.tabs, root)
  {
  }

  lemma LeavesStay(s: State, s': State, root: nat, w0: nat, k: nat, more: set<nat>, p: nat)
    requires var w := w0 + k * (EXTENSION / PAGE);
             w < Span(4) && IsRoot(s.tabs, root) && HeapGrew(s, s', root, w, more)
    requires NewLeaf(s'.mem, root, w0, k, p)
    ensures NewLeaf(s.mem, root, w0, k, p)
  {
    hide Translate, RootsFrom, Extends;
    var v: nat :| w0 <= v < w0 + k * (EXTENSION / PAGE) && LeafAt(s'.mem, root, v, p);
    assert LeafAt(s.mem, root, v, p);
  }

  lemma LeavesJoin(s: State, s': State, root: nat, w0: nat, w: nat, k: nat, more: set<nat>, p: nat)
    requires w == w0 + k * (EXTENSION / PAGE) && w < Span(4) && IsRoot(s.tabs, root) && HeapGrew(s, s', root, w, more)
    ensures NewLeaf(s'.mem, root, w0, k + 1, p) <==>
            NewLeaf(s.mem, root, w0, k, p) || NewLeaf(s'.mem, root, w, 1, p)
  {
    hide Translate, RootsFrom, Extends;
    var hi := w + EXTENSION / PAGE;
    if NewLeaf(s'.mem, root, w0, k + 1, p) {
      var v: nat :| w0 <= v < hi && LeafAt(s'.mem, root, v, p);
      if v < w { assert LeafAt(s.mem, root, v, p); }
    }
    if NewLeaf(s.mem, root, w0, k, p) {
      var v: nat :| w0 <= v < w && LeafAt(s.mem, root, v, p);
      assert LeafAt(s'.mem, root, v, p);
    }
    if NewLeaf(s'.mem, root, w, 1, p) {
      var v: nat :| w <= v < hi && LeafAt(s'.mem, root, v, p);
    }
  }

  /** How an attempt to map further pages ends */
  datatype Growth = Grown | OutOfFrames | Stopped

  /** kheap_init: the heap starts at the first page at least 1MB behind the kernel. */
  function HeapStart(kernelEnd: nat): (s: nat)
    ensures kernelEnd + 0x100000 <= s < kernelEnd + 0x100000 + PAGE && s % PAGE == 0
  {
    var s := kernelEnd + 0x100000;
    if s % PAGE != 0 then s + (PAGE - s % PAGE) else s
  }

  /** One round of the mapping loop: a frame for the page, and the page mapped to it. */
  method BackPage(m: Machine, root: nat, virtual: nat) returns (g: Growth, ghost f: nat, ghost s1: State)
    requires m.Valid() && IsRoot(m.tabs, root) && UPPER <= virtual && PageOf(virtual) < Span(4)
    requires NoHuge(m.mem, root, PageOf(virtual))
    modifies m`mem, m`tabs, m.pmm.pages, m.pmm.links, m.pmm.nrFree, m.pmm`lists, m.pmm`t
    ensures m.Valid() && IsRoot(m.tabs, root) && (g != Grown ==> NoFree(m.pmm.t))
    ensures g == OutOfFrames ==> m.mem == old(m.mem) && m.tabs == old(m.tabs) && m.pmm.t == old(m.pmm.t)
    ensures g == OutOfFrames ==> Extends(old(m.Now()), m.Now())
    ensures g == Stopped ==> FrameLost(old(m.Now()), s1, m.Now(), root, PageOf(virtual), f)
    ensures g == Grown ==> FrameUsed(old(m.Now()), s1, m.Now(), root, PageOf(virtual), f)
  {
    hide Machine.Valid, NoHuge, PageOf, NoFree, Extends, OnlyTables, SameTranslations, Updated, RootsKept, Index,
         EntryFor;
    HeapFlags();
    m.Sane();
    f, s1 := 0, m.Now();
    var phys := m.AllocFrame();
    if phys == 0 { return OutOfFrames, f, s1; }
    f, s1 := phys / PAGE, m.Now();
    ExtendsFacts(old(m.Now()), s1);
    var halted := m.MapPage(root, virtual, phys, HEAP_FLAGS, false);
    ExtendsFacts(s1, m.Now());
    g := if halted then Stopped else Grown;
  }

  class Heap {
    const m: Machine
    const root: nat              // the kernel's root table
    const start: nat             // kheap_start
    var end: nat                 // kheap_end
    var head: nat                // kheap_head
    var hdr: map<nat, Header>    // the node headers in memory
    ghost var cells: seq<Cell>

    /** The node list tiles the heap, and every page of the heap has a mapped frame of its own. */
    ghost predicate Valid()
      reads this, m, m.pmm, m.pmm.pages, m.pmm.links, m.pmm.nrFree
    {
      && Tiled() && NoTwoFree(cells)
      && Mapped()
    }

    ghost predicate Tiled()
      reads this
    {
      start > 0 && Tiles(cells, start, end) && Chained(hdr, head, cells)
    }

    ghost predicate Mapped()
      reads this, m, m.pmm, m.pmm.pages, m.pmm.links, m.pmm.nrFree
    {
      && m.Valid() && IsRoot(m.tabs, root)
      && UPPER <= start <= end < U64 && start % PAGE == 0 && end % PAGE == 0
      && HeapBacked(m.mem, root, PageOf(start), (end - start) / PAGE)
      && HeapHeld(m.mem, m.pmm.t, m.tabs, root, PageOf(start), (end - start) / PAGE)
    }

    /** kmalloc can extend the heap as often as the request or the free frames make it, without a wrap-around. */
    ghost predicate Room(size: nat)
      reads this, m, m.pmm
    {
      var n, f := RoundUp(size) + HEADER, FreeCount(m.pmm.t) * PAGE;
      end + (if n < f then n else f) + EXTENSION < U64
    }

    /** kheap_init; the result of the first extension is ignored, as in the kernel. */
    constructor (machine: Machine, kernelRoot: nat, kernelEnd: nat)
      requires machine.Valid() && IsRoot(machine.tabs, kernelRoot) && UPPER <= kernelEnd && HeapStart(kernelEnd) < U64
      requires forall v: nat | PageOf(HeapStart(kernelEnd)) <= v < Span(4) :: NoHuge(machine.mem, kernelRoot, v)
      modifies machine`mem, machine`tabs
      modifies machine.pmm.pages, machine.pmm.links, machine.pmm.nrFree, machine.pmm`lists, machine.pmm`t
      ensures m == machine && root == kernelRoot && start == HeapStart(kernelEnd)
      ensures Valid() <==> HeapStart(kernelEnd) + EXTENSION < U64
      ensures Valid() ==> cells == [Cell(start, EXTENSION - HEADER, true)] || (cells == [] && NoFree(machine.pmm.t))
      ensures Valid() ==> end <= start + EXTENSION
      ensures exists taken :: HeapGrew(old(machine.Now()), machine.Now(), root, PageOf(start), taken)
    {
      hide Machine.Valid, NoHuge, PageOf, FreeCount, Translate, HeapGrew;
      m, root := machine, kernelRoot;
      start, end, head, hdr := HeapStart(kernelEnd), HeapStart(kernelEnd), 0, map[];
      cells := [];
      new;
      assert PagesFor(EXTENSION) * PAGE == EXTENSION;
      ghost var fs, taken;
      var g;
      g, fs, taken := Extend(EXTENSION);
    }

    /**
     The mapping loop of kheap_extend: page k behind the heap gets frame fs[k]. On a failure a prefix is mapped and
     its frames are not given back. No other page of any root changes. When the end of the new range wraps around 2^64
     the loop makes no round.
     */
    method MapPages(n: nat) returns (g: Growth, ghost fs: seq<nat>, ghost taken: set<nat>)
      requires Mapped() && n * PAGE < U64
      modifies m`mem, m`tabs, m.pmm.pages, m.pmm.links, m.pmm.nrFree, m.pmm`lists, m.pmm`t
      ensures Mapped() && |fs| <= n && (g != Grown ==> NoFree(m.pmm.t))
      ensures end + n * PAGE >= U64 ==> g == Grown && fs == [] && m.Now() == old(m.Now())
      ensures end + n * PAGE < U64 && g == Grown ==> |fs| == n
      ensures PagesMapped(old(m.mem), m.mem, old(m.tabs), root, PageOf(end), fs)
      ensures FramesHeld(old(m.Now()), m.Now(), fs) && HeapGrew(old(m.Now()), m.Now(), root, PageOf(end), taken)
      ensures g != Stopped ==> taken == Elems(fs)
      ensures FreeCount(m.pmm.t) + |fs| <= FreeCount(old(m.pmm.t))
      ensures HeapBacked(m.mem, root, PageOf(start), (end - start) / PAGE + |fs|)
      ensures HeapHeld(m.mem, m.pmm.t, m.tabs, root, PageOf(start), (end - start) / PAGE + |fs|)
    {
      hide Machine.Valid, NoHuge, PageOf, FreeCount, Translate, PagesMapped, FramesTaken, FramesHeld, HeapBacked,
           NoFree, FrameLost, FrameUsed, Progressed, Extends, HeapGrew, HeapHeld, Elems;
      ghost var s0, w0, lo, k0 := m.Now(), PageOf(end), PageOf(start), (end - start) / PAGE;
      m.Sane();
      UpperPages(end, 0);
      NothingMapped(s0, root, w0);
      StartPages(start, end);
      fs := [];
      var virtual := end;
      while virtual < Add(end, n * PAGE)
        invariant virtual == end + |fs| * PAGE && |fs| <= n && (fs == [] || end + n * PAGE < U64)
        invariant fs == [] ==> m.Now() == old(m.Now())
        invariant m.Valid() && IsRoot(m.tabs, root) && Progressed(s0, m.Now(), root, w0, fs)
        decreases n - |fs|
      {
        ghost var s := m.Now();
        UpperPages(end, |fs|);
        ProgressedFacts(s0, s, root, w0, fs);
        SmallStill(s0.mem, m.mem, s0.tabs, root, lo, k0, fs);
        ghost var f, s1;
        g, f, s1 := BackPage(m, root, virtual);
        if g == Stopped {
          RoundHalted(s0, s, s1, m.Now(), root, w0, fs, f);
          LoopEnd(s0, m.Now(), root, lo, k0, fs);
          return g, fs, Elems(fs + [f]);
        } else if g == OutOfFrames {
          RoundEmpty(s0, s, m.Now(), root, w0, fs);
          ProgressedFacts(s0, m.Now(), root, w0, fs);
          LoopEnd(s0, m.Now(), root, lo, k0, fs);
          return g, fs, Elems(fs);
        }
        RoundDone(s0, s, s1, m.Now(), root, w0, fs, f);
        fs := fs + [f];
        virtual := virtual + PAGE;
      }
      ProgressedFacts(s0, m.Now(), root, w0, fs);
      UpperPages(end, |fs|);
      LoopEnd(s0, m.Now(), root, lo, k0, fs);
      return Grown, fs, Elems(fs);
    }

    method LastNode() returns (node: nat)
      requires Tiled()
      ensures cells == [] ==> node == 0
      ensures cells != [] ==> node == cells[|cells| - 1].addr && node in hdr && node != 0
    {
      node := head;
      ghost var i: nat := 0;
      if cells != [] { assert LinkAt(hdr, cells, 0); }
      while node != 0 && hdr[node].next != 0
        invariant node == AddrAt(cells, 0, i) && (cells != [] ==> i < |cells| && LinkAt(hdr, cells, i))
        decreases |cells| - i
      {
        NextPointer(hdr, cells, start, end, i);
        i := i + 1;
        node := hdr[node].next;
        assert LinkAt(hdr, cells, i);
      }
      if cells != [] { NextPointer(hdr, cells, start, end, i); }
    }

    /**
     kheap_extend: all of the requested growth, backed by mapped pages, or a list that is unchanged. It fails, or the
     machine halts for want of a page table, only when no frame is left. When the new end wraps around 2^64 no page is
     mapped and the list grows all the same: exactly then the heap is no longer valid.
     */
    method Extend(size: nat) returns (g: Growth, ghost fs: seq<nat>, ghost taken: set<nat>)
      requires Valid() && 0 < size <= EXTENSION
      modifies `end, `head, `hdr, `cells
      modifies m`mem, m`tabs, m.pmm.pages, m.pmm.links, m.pmm.nrFree, m.pmm`lists, m.pmm`t
      ensures Valid() <==> old(end) + PagesFor(size) * PAGE < U64
      ensures !Valid() ==> g == Grown && m.Now() == old(m.Now())
      ensures g != Grown ==> NoFree(m.pmm.t)
      ensures Extended(old(cells), old(end), cells, end, PagesFor(size) * PAGE, g == Grown)
      ensures OnlyNear(old(m.mem), m.mem, old(m.tabs), PageOf(old(end)), PagesFor(size))
      ensures HeapGrew(old(m.Now()), m.Now(), root, PageOf(old(end)), taken) && FramesHeld(old(m.Now()), m.Now(), fs)
      ensures PagesMapped(old(m.mem), m.mem, old(m.tabs), root, PageOf(old(end)), fs)
      ensures Valid() && g == Grown ==> |fs| == PagesFor(size)
      ensures Valid() && g == Grown ==> FreeCount(m.pmm.t) + PagesFor(size) <= FreeCount(old(m.pmm.t))
      ensures Valid() && g == Grown ==> forall p: nat ::
                p in taken <==> IsLeafOf(m.mem, root, PageOf(old(end)), PageOf(old(end)) + PagesFor(size), p)
    {
      hide Machine.Valid, NoHuge, PageOf, FreeCount, Translate, FramesTaken, FramesHeld, HeapBacked, NoFree, Tiles,
           Chained, NoTwoFree, Grow, HeapGrew, HeapHeld, PagesMapped;
      PageCount(size);
      var pages := size / PAGE;
      if size % PAGE != 0 { pages := pages + 1; }
      ghost var s0 := m.Now();
      g, fs, taken := MapPages(pages);
      OutsideSame(old(m.mem), m.mem, old(m.tabs), root, PageOf(end), fs, pages);
      LeavesTaken(s0.mem, m.mem, s0.tabs, root, PageOf(end), fs);
      if g != Grown { return; }
      StartPages(start, end);
      Append(pages * PAGE);
    }

    /** The list half of kheap_extend, once the pages are mapped */
    method Append(bytes: nat)
      requires Tiled() && NoTwoFree(cells) && PAGE <= bytes && end < U64
      modifies `end, `head, `hdr, `cells
      ensures cells == Grow(old(cells), old(end), bytes) && end == Add(old(end), bytes) && NoTwoFree(cells)
      ensures Chained(hdr, head, cells) && Tiles(cells, start, old(end) + bytes)
    {
      var current := LastNode();
      GrowTiles(cells, start, end, bytes);
      GrowLinked(hdr, head, cells, start, end, bytes);
      if current == 0 || !hdr[current].isFree {
        hdr := hdr[end := Header(bytes - HEADER, true, 0)];
        if current == 0 {
          head := end;
        } else {
          hdr := hdr[current := hdr[current].(next := end)];
        }
      } else {
        hdr := hdr[current := hdr[current].(size := hdr[current].size + bytes)];
      }
      cells := Grow(cells, end, bytes);
      end := Add(end, bytes);
    }

    /** The inner scan of kmalloc: the first free node that is large enough, or 0 */
    method FindFit(n: nat) returns (node: nat, ghost i: nat)
      requires Tiled()
      ensures node == 0 ==> forall j: nat | j < |cells| :: !Fits(cells[j], n)
      ensures node != 0 ==> FirstFit(cells, n, i) && node == cells[i].addr
    {
      node, i := head, 0;
      while node != 0
        invariant i <= |cells| && node == AddrAt(cells, 0, i)
        invariant forall j: nat | j < i :: !Fits(cells[j], n)
        decreases |cells| - i
      {
        assert LinkAt(hdr, cells, i);
        NextPointer(hdr, cells, start, end, i);
        if hdr[node].isFree && hdr[node].size >= n { return; }
        node := hdr[node].next;
        i := i + 1;
      }
      if i < |cells| { NextPointer'(cells, start, end, i); }
    }

    /** Marks the chosen node used, splitting it when the rest is worth a node. */
    method Take(node: nat, n: nat, ghost i: nat)
      requires Tiled() && NoTwoFree(cells) && i < |cells| && node == cells[i].addr && Fits(cells[i], n)
      modifies `hdr, `cells
      ensures Tiled() && NoTwoFree(cells) && cells == Carve(old(cells), i, n)
      ensures HandedOut(old(cells)[i], n, cells, i)
      ensures forall c: Cell | !c.free && c.Start() != node + HEADER :: c in cells <==> c in old(cells)
    {
      assert LinkAt(hdr, cells, i);
      CarveTiles(cells, start, end, i, n);
      CarveLive(cells, start, end, i, n);
      CarveLinked(hdr, head, cells, start, end, i, n);
      if hdr[node].size - n >= HEADER + MIN_SPLIT {
        var newNode := node + HEADER + n;
        hdr := hdr[newNode := Header(hdr[node].size - n - HEADER, true, hdr[node].next)];
        hdr := hdr[node := Header(n, hdr[node].isFree, newNode)];
      }
      hdr := hdr[node := hdr[node].(isFree := false)];
      assert hdr == CarveHdr(old(hdr), node, n);
      cells := Carve(cells, i, n);
    }

    /** The next extension that kmalloc asks for */
    method ExtendMore(ghost s0: State, ghost c0: seq<Cell>, ghost e0: nat, ghost k: nat, ghost taken: set<nat>)
      returns (g: Growth, ghost all: set<nat>)
      requires Valid() && UPPER <= e0 && e0 % PAGE == 0 && end == e0 + k * EXTENSION && end + EXTENSION < U64
      requires Enlarged(s0, m.Now(), c0, cells, e0, k, root, taken)
      modifies `end, `head, `hdr, `cells
      modifies m`mem, m`tabs, m.pmm.pages, m.pmm.links, m.pmm.nrFree, m.pmm`lists, m.pmm`t
      ensures Valid() && HeapGrew(s0, m.Now(), root, PageOf(e0), all)
      ensures g == Grown ==>
                end == old(end) + EXTENSION && Enlarged(s0, m.Now(), c0, cells, e0, k + 1, root, all)
      ensures g != Grown ==> cells == old(cells) && end == old(end) && NoFree(m.pmm.t)
      ensures g != Grown ==> forall p: nat | NewLeaf(m.mem, root, PageOf(e0), k, p) :: p in all
    {
      hide Machine.Valid, PageOf, FreeCount, Translate, HeapBacked, NoFree, Tiles, Chained, NoTwoFree, HeapGrew,
           HeapHeld, Live, Grow, GrowBy, LastHas, OnlyNear, IsLeafOf, PagesMapped, FramesHeld, Enlarged;
      assert PagesFor(EXTENSION) * PAGE == EXTENSION;
      ghost var s1, c1, fs, more := m.Now(), cells, [], {};
      ExtensionPages(e0, k);
      EnlargedGives(s0, s1, c0, c1, e0, k, root, taken, 0);
      g, fs, more := Extend(EXTENSION);
      all := taken + more;
      GrewTrans(s0, s1, m.Now(), root, PageOf(e0), PageOf(e0 + k * EXTENSION), taken, more);
      if g == Grown {
        EnlargedNext(s0, s1, m.Now(), c0, c1, e0, k, root, taken, more);
      } else {
        forall p: nat | NewLeaf(m.mem, root, PageOf(e0), k, p) ensures p in taken {
          LeavesStay(s1, m.Now(), root, PageOf(e0), k, more, p);
        }
      }
    }

    /**
     kmalloc. After k extensions it takes the lowest free node that fits; it fails, or the machine halts, only when
     nothing fits and no frame is left. k is bounded by the size of the request. The live nodes are those from before
     and the new one.
     */
    method Kmalloc(size: nat) returns (ptr: nat, halted: bool, ghost k: nat, ghost taken: set<nat>)
      requires Valid() && size < U64 && Room(size)
      modifies `end, `head, `hdr, `cells
      modifies m`mem, m`tabs, m.pmm.pages, m.pmm.links, m.pmm.nrFree, m.pmm`lists, m.pmm`t
      ensures Valid() && (halted ==> ptr == 0)
      ensures k <= (RoundUp(size) + HEADER + EXTENSION - 1) / EXTENSION
      ensures end == old(end) + k * EXTENSION
      ensures ptr != 0 ==> exists i: nat ::
                && FirstFit(GrowBy(old(cells), old(end), k), RoundUp(size), i)
                && ptr == GrowBy(old(cells), old(end), k)[i].Start()
                && HandedOut(GrowBy(old(cells), old(end), k)[i], RoundUp(size), cells, i)
                && cells == Carve(GrowBy(old(cells), old(end), k), i, RoundUp(size))
      ensures forall c: Cell | !c.free && c.Start() != ptr :: c in cells <==> c in old(cells)
      ensures ptr == 0 ==> cells == GrowBy(old(cells), old(end), k) && NoFree(m.pmm.t)
      ensures ptr == 0 ==> forall j: nat | j < |cells| :: !Fits(cells[j], RoundUp(size))
      ensures HeapGrew(old(m.Now()), m.Now(), root, PageOf(old(end)), taken)
      ensures forall p: nat | NewLeaf(m.mem, root, PageOf(old(end)), k, p) :: p in taken
      ensures ptr != 0 ==> forall p | p in taken :: NewLeaf(m.mem, root, PageOf(old(end)), k, p)
      ensures ptr != 0 && k == 0 ==> m.Now() == old(m.Now()) && taken == {}
      ensures (exists j: nat :: j < |old(cells)| && Fits(old(cells)[j], RoundUp(size))) ==> ptr != 0 && k == 0
      ensures forall p: nat :: Live(cells, p) <==> Live(old(cells), p) || (p == ptr && p != 0)
      ensures ptr != 0 ==> !Live(old(cells), ptr)
    {
      hide Machine.Valid, PageOf, FreeCount, Translate, HeapBacked, NoFree, Tiles, Chained, NoTwoFree, RoundUp,
           HeapGrew, HeapHeld, Live, Carve, Grow, GrowBy, LastHas, Fits, Enlarged, OnlyNear, IsLeafOf, PagesMapped,
           FramesHeld;
      var n := RoundUp(size);
      k, taken := 0, {};
      ghost var s0, c0, e0 := m.Now(), cells, end;
      m.Sane();
      UpperPages(end, 0);
      EnlargedFirst(s0, cells, end, root);
      while true
        invariant Valid() && end == e0 + k * EXTENSION && k * EXTENSION < n + HEADER + EXTENSION
        invariant Enlarged(s0, m.Now(), c0, cells, e0, k, root, taken) && (k == 0 ==> taken == {} && cells == c0)
        invariant k > 0 ==> forall j: nat | j < |c0| :: !Fits(c0[j], n)
        decreases n + HEADER + EXTENSION - k * EXTENSION
      {
        var node; ghost var i;
        node, i := FindFit(n);
        EnlargedGives(s0, m.Now(), c0, cells, e0, k, root, taken, n);
        if node != 0 {
          CarveLive(cells, start, end, i, n);
          Take(node, n, i);
          return node + HEADER, false, k, taken;
        }
        var g;
        g, taken := ExtendMore(s0, c0, e0, k, taken);
        if g != Grown { return 0, g == Stopped, k, taken; }
        k := k + 1;
      }
    }

    /** kheap_coalesce */
    method Coalesce()
      requires Tiled()
      modifies `hdr, `cells
      ensures Tiled() && cells == Merge(old(cells))
    {
      hide Tiles, Chained, Merge, Join, LinkAt, AddrAt;
      var current := head;
      ghost var i: nat := 0;
      HeadPointer(hdr, head, cells, start, end);
      assert cells[..0] + Merge(cells[0..]) == Merge(cells) by { assert cells[0..] == cells; }
      while current != 0 && hdr[current].next != 0
        invariant Tiled() && (cells == [] ==> current == 0 && i == 0)
        invariant cells != [] ==> i < |cells| && current == cells[i].addr && LinkAt(hdr, cells, i)
        invariant cells != [] ==> current in hdr
        invariant cells[..i] + Merge(cells[i..]) == Merge(old(cells))
        decreases |cells| - i
      {
        NextPointer(hdr, cells, start, end, i);
        JoinStep(cells, i);
        JoinRound(hdr, head, cells, start, end, i);
        var next := hdr[current].next;
        if hdr[current].isFree && hdr[next].isFree {
          hdr := hdr[current := Header(hdr[current].size + hdr[next].size + HEADER, true, hdr[next].next)];
          cells := Join(cells, i);
        } else {
          current := next;
          i := i + 1;
        }
      }
      LastMerge(hdr, cells, start, end, i);
    }

    /** kfree. Freeing a node that is already free changes nothing. */
    method Kfree(ptr: nat, ghost i: nat)
      requires Valid()
      requires ptr == 0 || (i < |cells| && ptr == cells[i].Start())
      modifies `hdr, `cells
      ensures Valid()
      ensures ptr == 0 || old(cells)[i].free ==> cells == old(cells) && hdr == old(hdr)
      ensures ptr != 0 && !old(cells)[i].free ==> cells == Merge(old(cells)[i := old(cells)[i].(free := true)])
      ensures forall p: nat :: Live(cells, p) <==> Live(old(cells), p) && p != ptr
      ensures forall c: Cell | !c.free && c.Start() != ptr :: c in cells <==> c in old(cells)
    {
      hide Machine.Valid, HeapBacked, HeapHeld, Live;
      NoneAtZero(cells);
      if ptr == 0 { return; }
      var node := ptr - HEADER;
      assert LinkAt(hdr, cells, i);
      if hdr[node].isFree {
        CarveLive(cells, start, end, i, 0);
        return;
      }
      FreeMark(hdr, head, cells, start, end, i);
      FreeLive(cells, start, end, i);
      hdr := hdr[node := hdr[node].(isFree := true)];
      cells := cells[i := cells[i].(free := true)];
      MergeNoTwoFree(cells);
      Coalesce();
    }
  }

  lemma HeapBounds(h: Heap)
    requires h.Valid()
    ensures UPPER <= h.start <= h.end < U64 && h.start % PAGE == 0 && h.end % PAGE == 0 && IsRoot(h.m.tabs, h.root)
  {
  }

  /** An extension that ends exactly at 2^64: nothing is mapped, and the heap ends at address 0. */
  method LastExtension(h: Heap) returns (g: Growth)
    requires h.Valid() && h.end == U64 - EXTENSION
    modifies h`end, h`head, h`hdr, h`cells, h.m`mem, h.m`tabs
    modifies h.m.pmm.pages, h.m.pmm.links, h.m.pmm.nrFree, h.m.pmm`lists, h.m.pmm`t
    ensures g == Grown && h.m.Now() == old(h.m.Now()) && h.end == 0 && !h.Valid()
    ensures h.cells == Grow(old(h.cells), old(h.end), EXTENSION)
  {
    hide Heap.Valid, Grow;
    assert PagesFor(EXTENSION) * PAGE == EXTENSION;
    ghost var fs, taken;
    g, fs, taken := h.Extend(EXTENSION);
  }

  lemma StartPages(start: nat, end: nat)
    requires UPPER <= start <= end < U64 && start % PAGE == 0 && end % PAGE == 0
    ensures PageOf(end) == PageOf(start) + (end - start) / PAGE
  {
    UpperPage(start);
    UpperPage(end);
  }

  /** The next page behind the heap is not inside a large page. */
  lemma SmallStill(mem0: Memory, mem: Memory, tabs: map<nat, Table>, root: nat, lo: nat, n: nat, fs: seq<nat>)
    requires HeapBacked(mem0, root, lo, n) && PagesMapped(mem0, mem, tabs, root, lo + n, fs) && IsRoot(tabs, root)
    ensures lo + n + |fs| < Span(4) ==> NoHuge(mem, root, lo + n + |fs|)
  {
    BackedMore(mem0, mem, tabs, root, lo, n, fs);
  }

  lemma LoopEnd(s0: State, s: State, root: nat, lo: nat, n: nat, fs: seq<nat>)
    requires HeapBacked(s0.mem, root, lo, n) && HeapHeld(s0.mem, s0.t, s0.tabs, root, lo, n) && IsRoot(s0.tabs, root)
    requires PagesMapped(s0.mem, s.mem, s0.tabs, root, lo + n, fs) && FramesHeld(s0, s, fs) && lo + n + |fs| <= Span(4)
    ensures HeapBacked(s.mem, root, lo, n + |fs|) && HeapBacked(s.mem, root, lo, n)
    ensures HeapHeld(s.mem, s.t, s.tabs, root, lo, n + |fs|) && HeapHeld(s.mem, s.t, s.tabs, root, lo, n)
  {
    BackedMore(s0.mem, s.mem, s0.tabs, root, lo, n, fs);
    BackedLess(s.mem, root, lo, n + |fs|, n);
    HeldMore(s0, s, root, lo, n, fs);
    HeldLess(s.mem, s.t, s.tabs, root, lo, n + |fs|, n);
  }

  /** The frames behind the new pages are those that were taken for them. */
  lemma LeavesTaken(mem: Memory, mem': Memory, tabs: map<nat, Table>, root: nat, w0: nat, fs: seq<nat>)
    requires PagesMapped(mem, mem', tabs, root, w0, fs)
    ensures forall p: nat :: p in Elems(fs) <==> IsLeafOf(mem', root, w0, w0 + |fs|, p)
  {
    hide Translate, HeapLeaf;
    forall k: nat | k < |fs| ensures LeafAt(mem', root, w0 + k, fs[k]) {
      assert PageHas(mem', root, w0 + k, fs[k]);
      LeafLevel(fs[k]);
    }
    forall p: nat | IsLeafOf(mem', root, w0, w0 + |fs|, p) ensures p in fs {
      var v: nat :| w0 <= v < w0 + |fs| && LeafAt(mem', root, v, p);
      assert LeafAt(mem', root, w0 + (v - w0), fs[v - w0]);
    }
  }

  /** Only the n pages from w0 on may have changed. */
  ghost predicate OnlyNear(mem: Memory, mem': Memory, tabs: map<nat, Table>, w0: nat, n: nat) {
    forall r: nat, v: nat | IsRoot(tabs, r) && v < Span(4) && !(w0 <= v < w0 + n) ::
      Translate(mem', r, v) == Translate(mem, r, v)
  }

  lemma OutsideSame(mem: Memory, mem': Memory, tabs: map<nat, Table>, root: nat, w0: nat, fs: seq<nat>, n: nat)
    requires PagesMapped(mem, mem', tabs, root, w0, fs) && |fs| <= n
    ensures OnlyNear(mem, mem', tabs, w0, n)
  {
  }

  function PagesFor(size: nat): (n: nat) { (size + PAGE - 1) / PAGE }

  lemma PageCount(size: nat)
    ensures PagesFor(size) == size / PAGE + if size % PAGE != 0 then 1 else 0
    ensures size > 0 ==> PagesFor(size) * PAGE >= PAGE
    ensures size <= EXTENSION ==> PagesFor(size) * PAGE <= EXTENSION
  {
  }

  /** The list grew by the whole extension, or not at all. */
  ghost predicate Extended(cells: seq<Cell>, end: nat, cells': seq<Cell>, end': nat, bytes: nat, grown: bool) {
    && bytes >= HEADER
    && cells' == (if grown then Grow(cells, end, bytes) else cells)
    && end' == (if grown then Add(end, bytes) else end)
  }

  lemma FreeMark(hdr: map<nat, Header>, head: nat, cells: seq<Cell>, start: nat, end: nat, i: nat)
    requires Tiles(cells, start, end) && Chained(hdr, head, cells) && i < |cells| && cells[i].addr in hdr
    ensures var r := cells[i := cells[i].(free := true)];
            Tiles(r, start, end) && Chained(hdr[cells[i].addr := hdr[cells[i].addr].(isFree := true)], head, r)
  {
    var r := cells[i := cells[i].(free := true)];
    var h := hdr[cells[i].addr := hdr[cells[i].addr].(isFree := true)];
    forall k: nat | k < |r| ensures TileAt(r, end, k) && LinkAt(h, r, k) {
      assert TileAt(cells, end, k) && LinkAt(hdr, cells, k);
      if k < i { CellsApart(cells, start, end, k, i); }
      if i < k { CellsApart(cells, start, end, i, k); }
    }
  }

  /** The list after joining cells i and i + 1 */
  ghost function Join(cells: seq<Cell>, i: nat): (r: seq<Cell>)
    requires i + 1 < |cells|
  {
    cells[..i] + [Cell(cells[i].addr, cells[i].size + cells[i + 1].size + HEADER, true)] + cells[i + 2..]
  }

  lemma JoinTiles(cells: seq<Cell>, start: nat, end: nat, i: nat)
    requires Tiles(cells, start, end) && i + 1 < |cells|
    ensures Tiles(Join(cells, i), start, end)
  {
    var r := Join(cells, i);
    assert TileAt(cells, end, i) && TileAt(cells, end, i + 1);
    forall k: nat | k < |r| ensures TileAt(r, end, k) {
      if k < i { assert TileAt(cells, end, k); }
      if k > i { assert TileAt(cells, end, k + 1); }
    }
  }

  lemma JoinLinked(hdr: map<nat, Header>, head: nat, cells: seq<Cell>, start: nat, end: nat, i: nat)
    requires start > 0 && Tiles(cells, start, end) && Chained(hdr, head, cells) && i + 1 < |cells| && cells[i].free
    ensures LinkAt(hdr, cells, i) && LinkAt(hdr, cells, i + 1)
    ensures var c := cells[i];
            Chained(hdr[c.addr := Header(c.size + cells[i + 1].size + HEADER, true, AddrAt(cells, 0, i + 2))],
                    head, Join(cells, i))
  {
    var r, node := Join(cells, i), cells[i].addr;
    var h := hdr[node := Header(cells[i].size + cells[i + 1].size + HEADER, true, AddrAt(cells, 0, i + 2))];
    forall k: nat | k < |r| ensures LinkAt(h, r, k) {
      var j := if k <= i then k else k + 1;
      assert LinkAt(hdr, cells, j);
      if j < i { CellsApart(cells, start, end, j, i); }
      if i < j { CellsApart(cells, start, end, i, j); }
    }
  }

  /** The nodes kheap_coalesce looks at, and the header it writes when it joins them */
  lemma JoinRound(hdr: map<nat, Header>, head: nat, cells: seq<Cell>, start: nat, end: nat, i: nat)
    requires start > 0 && Tiles(cells, start, end) && Chained(hdr, head, cells) && i + 1 < |cells|
    ensures LinkAt(hdr, cells, i) && LinkAt(hdr, cells, i + 1)
    ensures var c, n := cells[i].addr, cells[i + 1].addr;
      && c in hdr && hdr[c] == Header(cells[i].size, cells[i].free, n) && n in hdr && hdr[n].isFree == cells[i + 1].free
      && (cells[i].free ==>
            var h, r := hdr[c := Header(hdr[c].size + hdr[n].size + HEADER, true, hdr[n].next)], Join(cells, i);
            Tiles(r, start, end) && Chained(h, head, r) && |r| == |cells| - 1 && r[i].addr == c && LinkAt(h, r, i))
  {
    assert LinkAt(hdr, cells, i) && LinkAt(hdr, cells, i + 1);
    if cells[i].free {
      JoinTiles(cells, start, end, i);
      JoinLinked(hdr, head, cells, start, end, i);
      var h := hdr[cells[i].addr := Header(cells[i].size + cells[i + 1].size + HEADER, true, AddrAt(cells, 0, i + 2))];
      assert LinkAt(h, Join(cells, i), i);
    }
  }

  /** Joining two free neighbours is one step of the merge. */
  lemma JoinStep(cells: seq<Cell>, i: nat)
    requires i + 1 < |cells|
    ensures cells[i].free && cells[i + 1].free ==>
              Merge(Join(cells, i)[i..]) == Merge(cells[i..]) && Join(cells, i)[..i] == cells[..i]
    ensures !(cells[i].free && cells[i + 1].free) ==>
              cells[..i] + Merge(cells[i..]) == cells[..i + 1] + Merge(cells[i + 1..])
  {
    var rest := cells[i..];
    assert rest[1..] == cells[i + 1..] && rest[2..] == cells[i + 2..];
    assert Join(cells, i)[i..] ==
           [Cell(cells[i].addr, cells[i].size + cells[i + 1].size + HEADER, true)] + cells[i + 2..];
  }

  lemma NextPointer'(cells: seq<Cell>, start: nat, end: nat, i: nat)
    requires start > 0 && Tiles(cells, start, end) && i < |cells|
    ensures cells[i].addr > 0
  {
    if i > 0 { CellsApart(cells, start, end, 0, i); }
  }

  /** The header writes of kmalloc on the chosen node, as one map */
  ghost function CarveHdr(hdr: map<nat, Header>, node: nat, n: nat): map<nat, Header>
    requires node in hdr && hdr[node].size >= n
  {
    var h := hdr[node];
    if h.size - n >= HEADER + MIN_SPLIT
    then
      var tail := node + HEADER + n;
      hdr[tail := Header(h.size - n - HEADER, true, h.next)][node := Header(n, false, tail)]
    else hdr[node := h.(isFree := false)]
  }

  lemma CarveLinked(hdr: map<nat, Header>, head: nat, cells: seq<Cell>, start: nat, end: nat, i: nat, n: nat)
    requires start > 0 && Tiles(cells, start, end) && Chained(hdr, head, cells) && i < |cells| && Fits(cells[i], n)
    ensures cells[i].addr in hdr && hdr[cells[i].addr].size == cells[i].size
    ensures Chained(CarveHdr(hdr, cells[i].addr, n), head, Carve(cells, i, n))
  {
    assert LinkAt(hdr, cells, i);
    var r, h, node := Carve(cells, i, n), CarveHdr(hdr, cells[i].addr, n), cells[i].addr;
    forall k: nat | k < |r| ensures LinkAt(h, r, k) {
      var j := if k <= i || |r| == |cells| then k else k - 1;
      assert LinkAt(hdr, cells, j);
      if j < i { CellsApart(cells, start, end, j, i); }
      if i < j { CellsApart(cells, start, end, i, j); }
    }
  }

  /** What a header's next pointer says about the position in the list */
  lemma NextPointer(hdr: map<nat, Header>, cells: seq<Cell>, start: nat, end: nat, i: nat)
    requires start > 0 && Tiles(cells, start, end) && i < |cells| && LinkAt(hdr, cells, i)
    ensures cells[i].addr > 0
    ensures hdr[cells[i].addr].next == AddrAt(cells, 0, i + 1)
    ensures hdr[cells[i].addr].next == 0 <==> i == |cells| - 1
  {
    if i > 0 { CellsApart(cells, start, end, 0, i); }
    if i + 1 < |cells| { CellsApart(cells, start, end, 0, i + 1); }
  }

  lemma HeadPointer(hdr: map<nat, Header>, head: nat, cells: seq<Cell>, start: nat, end: nat)
    requires start > 0 && Tiles(cells, start, end) && Chained(hdr, head, cells)
    ensures cells == [] ==> head == 0
    ensures cells != [] ==> head == cells[0].addr && head in hdr && LinkAt(hdr, cells, 0)
  {
    if cells != [] { assert LinkAt(hdr, cells, 0); }
  }

  /** A loop that stops at the last cell has nothing left to merge. */
  lemma LastMerge(hdr: map<nat, Header>, cells: seq<Cell>, start: nat, end: nat, i: nat)
    requires start > 0 && Tiles(cells, start, end) && i <= |cells|
    requires cells != [] ==> i < |cells| && LinkAt(hdr, cells, i)
    requires cells != [] ==> cells[i].addr == 0 || hdr[cells[i].addr].next == 0
    ensures cells[..i] + Merge(cells[i..]) == cells
  {
    if cells != [] { NextPointer(hdr, cells, start, end, i); }
    assert cells[..i] + cells[i..] == cells;
  }

  /** The header writes of kheap_extend, as one map */
  ghost function GrowHdr(hdr: map<nat, Header>, cells: seq<Cell>, end: nat, bytes: nat): map<nat, Header>
    requires bytes >= HEADER && forall i: nat | i < |cells| :: cells[i].addr in hdr
  {
    var h := hdr[end := Header(bytes - HEADER, true, 0)];
    if cells == [] then h
    else
      var last := cells[|cells| - 1].addr;
      if !hdr[last].isFree then h[last := h[last].(next := end)]
      else hdr[last := hdr[last].(size := hdr[last].size + bytes)]
  }

  lemma GrowLinked(hdr: map<nat, Header>, head: nat, cells: seq<Cell>, start: nat, end: nat, bytes: nat)
    requires start > 0 && Tiles(cells, start, end) && Chained(hdr, head, cells) && bytes >= HEADER
    ensures forall i: nat | i < |cells| :: cells[i].addr in hdr
    ensures cells != [] ==> hdr[cells[|cells| - 1].addr].isFree == cells[|cells| - 1].free
    ensures Chained(GrowHdr(hdr, cells, end, bytes), if cells == [] then end else head, Grow(cells, end, bytes))
  {
    forall i: nat | i < |cells| ensures cells[i].addr in hdr { assert LinkAt(hdr, cells, i); }
    var r, h := Grow(cells, end, bytes), GrowHdr(hdr, cells, end, bytes);
    if cells != [] { assert LinkAt(hdr, cells, |cells| - 1) && TileAt(cells, end, |cells| - 1); }
    forall i: nat | i < |r| ensures LinkAt(h, r, i) {
      if i < |cells| {
        assert LinkAt(hdr, cells, i);
        if i + 1 < |cells| { CellsApart(cells, start, end, i, |cells| - 1); }
      }
    }
  }
}
