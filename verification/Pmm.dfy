/** The buddy allocator of physical frames. */
module Pmm {
  import opened Bits
  import opened Tiling
  import opened Dll
  import opened BuddyStore
  import opened Seqs

  /** k is the least order whose blocks hold `size` bytes. */
  ghost predicate LeastOrder(size: nat, k: nat) {
    Pow2(k) * PAGE >= size && forall o: nat | Pow2(o) * PAGE >= size :: k <= o
  }

  /** Only descriptors of the run (h, k) differ. */
  ghost predicate SameElsewhere(pages: seq<Page>, pages': seq<Page>, h: nat, k: nat) {
    |pages'| == |pages| && forall p | 0 <= p < |pages| && !InRange(p, h, k) :: pages'[p] == pages[p]
  }

  lemma ElsewhereRefl(pages: seq<Page>, h: nat, k: nat)
    ensures SameElsewhere(pages, pages, h, k)
  {
  }

  lemma ElsewhereTrans(a: seq<Page>, b: seq<Page>, c: seq<Page>, h: nat, k: nat, h': nat, k': nat)
    requires SameElsewhere(a, b, h, k) && SameElsewhere(b, c, h', k') && h' <= h && h + Pow2(k) <= h' + Pow2(k')
    ensures SameElsewhere(a, c, h', k')
  {
  }

  class Buddies {
    var total: nat                 // totalPages
    var pages: array<Page>         // buddy_memmap
    var links: array<Link>         // the list nodes: one per page, then one head per order
    var nrFree: array<nat>         // free_areas[].nr_free
    ghost var t: seq<Block>        // the partition the data stands for
    ghost var lists: seq<seq<nat>> // the contents of the rings

    ghost predicate Valid()
      reads this, pages, links, nrFree
    {
      ValidBut(-1)
    }

    /** The invariant, except that the block at x may have lost its last reference. */
    ghost predicate ValidBut(x: int)
      reads this, pages, links, nrFree
    {
      && |t| == total
      && Sound(t) && Maximal(t)
      && Store(pages[..], links[..], nrFree[..], t, lists, -1)
      && Held(pages[..], t, x)
      && (total > 0 ==> t[0] == Block(0, 0, Reserved))
    }

    /** The structures as pmm_init leaves them before seeding: no free block, every frame reserved. */
    constructor (n: nat)
      ensures Valid() && total == n && fresh(pages) && fresh(links) && fresh(nrFree)
      ensures t == seq(n, p requires 0 <= p < n => Block(p, 0, Reserved))
    {
      total := n;
      pages := new Page[n](_ => Page(0, 0, 0));
      links := new Link[n + MAX_ORDER](_ => Link(0, 0));
      nrFree := new nat[MAX_ORDER];
      t := seq(n, p requires 0 <= p < n => Block(p, 0, Reserved));
      lists := seq(MAX_ORDER, _ => []);
      new;
      InitLists();
      ReserveAll();
      AllReserved(t);
    }

    /** The loop that empties the free lists */
    method InitLists()
      requires links.Length == total + MAX_ORDER && nrFree.Length == MAX_ORDER && lists == seq(MAX_ORDER, _ => [])
      modifies links, nrFree
      ensures Rings(links[..], total, lists) && Counts(nrFree[..], lists)
    {
      var i := 0;
      while i < MAX_ORDER
        invariant 0 <= i <= MAX_ORDER
        invariant forall x: nat | total <= x < total + i :: links[x] == Link(x, x)
        invariant forall o | 0 <= o < i :: nrFree[o] == 0
      {
        InitHead(links, total + i);
        nrFree[i] := 0;
        i := i + 1;
      }
      forall o | 0 <= o < MAX_ORDER ensures Ring(links[..], total + o, lists[o]) {
        RingAlone(links[..], total + o);
      }
    }

    /** The loop that marks every frame as reserved */
    method ReserveAll()
      requires pages.Length == total && forall p | 0 <= p < total :: pages[p] == Page(0, 0, 0)
      modifies pages
      ensures forall p | 0 <= p < total :: pages[p] == Page(FLAG_RESERVED, 1, 0)
    {
      var i := 0;
      while i < total
        invariant 0 <= i <= total
        invariant forall p | 0 <= p < i :: pages[p] == Page(FLAG_RESERVED, 1, 0)
        invariant forall p | i <= p < total :: pages[p] == Page(0, 0, 0)
      {
        pages[i] := pages[i].(flags := Or(pages[i].flags, FLAG_RESERVED), refs := 1);
        i := i + 1;
      }
    }

    /** dll_delete on a free list, with its counter */
    method Unlist(o: nat, b: nat, ghost i: nat, ghost n: nat)
      requires Separate(n, lists) && Rings(links[..], n, lists) && Counts(nrFree[..], lists)
      requires o < MAX_ORDER && i < |lists[o]| && lists[o][i] == b
      modifies links, nrFree, this`lists
      ensures lists == ListRemove(old(lists), o, i)
      ensures Rings(links[..], n, lists) && Counts(nrFree[..], lists)
    {
      RingsRemove(n, links[..], lists, o, i);
      DeleteNode(links, b);
      nrFree[o] := nrFree[o] - 1;
      lists := ListRemove(lists, o, i);
    }

    /** dll_add_after on a free list, with its counter */
    method Enlist(o: nat, b: nat, ghost n: nat)
      requires Separate(n, lists) && Rings(links[..], n, lists) && Counts(nrFree[..], lists)
      requires o < MAX_ORDER && b < n && n == total && forall o' | 0 <= o' < MAX_ORDER :: b !in lists[o']
      modifies links, nrFree, this`lists
      ensures lists == ListAdd(old(lists), o, b)
      ensures Rings(links[..], n, lists) && Counts(nrFree[..], lists)
    {
      RingsAdd(n, links[..], lists, o, b);
      AddNodeAfter(links, total + o, b);
      nrFree[o] := nrFree[o] + 1;
      lists := ListAdd(lists, o, b);
    }

    /** The buddy and whether its descriptor allows a merge */
    method MergeTest(pfn: nat, order: nat, ghost pfn0: nat, ghost order0: nat) returns (b: nat, merge: bool)
      requires |t| == total && InHand(t, pfn0, order0, pfn, order)
      requires Exact(pages[..], Paint(t, pfn, order, Used), pfn)
      ensures b == Buddy(pfn, order)
      ensures merge <==> b < |t| && t[b] == Block(b, order, Free)
    {
      XorBuddy(pfn, order);
      b := Xor(pfn, Pow2(order));
      MergeTestExact(pages[..], t, pfn0, order0, pfn, order);
      merge := b < total && IsPageFree(pages[b]) && pages[b].order == order;
    }

    /** The coalescing loop: grows the block in hand while its buddy is a free block of the same order. */
    method Coalesce(pfn0: nat, order0: nat) returns (pfn: nat, order: nat)
      requires |t| == total && InHand(t, pfn0, order0, pfn0, order0)
      requires Store(pages[..], links[..], nrFree[..], Paint(t, pfn0, order0, Used), lists, pfn0)
      modifies pages, links, nrFree, this`lists
      ensures InHand(t, pfn0, order0, pfn, order) && SameElsewhere(old(pages[..]), pages[..], pfn, order)
      ensures Store(pages[..], links[..], nrFree[..], Paint(t, pfn, order, Used), lists, pfn)
      ensures order == MAX_ORDER - 1 || (var b := Buddy(pfn, order); b < |t| ==> t[b] != Block(b, order, Free))
    {
      hide Listed, Rings, Counts, Exact, Paint, Buddy, Sound, SameElsewhere, Pow2;
      ElsewhereRefl(pages[..], pfn0, order0);
      pfn, order := pfn0, order0;
      while order < MAX_ORDER - 1
        invariant InHand(t, pfn0, order0, pfn, order) && SameElsewhere(old(pages[..]), pages[..], pfn, order)
        invariant Store(pages[..], links[..], nrFree[..], Paint(t, pfn, order, Used), lists, pfn)
      {
        var b, merge := MergeTest(pfn, order, pfn0, order0);
        if !merge { return; }
        ghost var pages1 := pages[..];
        Absorb(pfn, order, b, pfn0, order0);
        ElsewhereTrans(old(pages[..]), pages1, pages[..], pfn, order, if b < pfn then b else pfn, order + 1);
        pfn := if b < pfn then b else pfn;
        order := order + 1;
      }
    }

    /** One merge: the buddy leaves its list; its descriptor is stale from here on. */
    method Absorb(pfn: nat, order: nat, b: nat, ghost pfn0: nat, ghost order0: nat)
      requires |t| == total && InHand(t, pfn0, order0, pfn, order) && order < MAX_ORDER - 1
      requires Store(pages[..], links[..], nrFree[..], Paint(t, pfn, order, Used), lists, pfn)
      requires b == Buddy(pfn, order) && b < |t| && t[b] == Block(b, order, Free)
      modifies pages, links, nrFree, this`lists
      ensures var m := if b < pfn then b else pfn;
              && InHand(t, pfn0, order0, m, order + 1)
              && SameElsewhere(old(pages[..]), pages[..], m, order + 1)
              && m <= pfn && pfn + Pow2(order) <= m + Pow2(order + 1)
              && Store(pages[..], links[..], nrFree[..], Paint(t, m, order + 1, Used), lists, m)
    {
      ghost var i := AbsorbStep(pages[..], t, lists, pfn0, order0, pfn, order, b);
      ListedSeparate(Paint(t, pfn, order, Used), lists);
      HandMerge(t, pfn0, order0, pfn, order);
      Unlist(order, b, i, total);
      pages[b] := pages[b].(order := 0);
    }

    /** pmm_free_pages: gives the run of 2^order frames at `phys` back, merged as far as it goes. */
    method FreePages(phys: nat, order: nat)
      requires ValidBut(phys / PAGE)
      requires phys % PAGE == 0 && phys / PAGE < total ==> Freeable(t, phys / PAGE, order)
      requires !(phys == 0 && total > 0)
      modifies pages, links, nrFree, this`lists, this`t
      ensures ValidBut(phys / PAGE) && (phys % PAGE == 0 || old(Valid()) ==> Valid())
      ensures if phys % PAGE == 0 && phys / PAGE < total
              then Freed(old(t), t, phys / PAGE, order)
              else t == old(t) && lists == old(lists)
      ensures phys % PAGE == 0 && phys / PAGE < total ==>
                var block := t[phys / PAGE]; Foremost(lists, block.order, block.head)
      ensures phys % PAGE != 0 ==> pages[..] == old(pages[..])
      ensures forall p | 0 <= p < total && t[p].status != Free :: pages[p] == old(pages[p])
    {
      hide Sound, Maximal, Listed, Rings, Counts, Exact;
      if phys % PAGE != 0 { return; }
      var pfn := phys / PAGE;
      if pfn >= total { return; }
      StoreHand(pages[..], t, lists, pfn, order);
      HandStart(t, pfn, order);
      var h, k := Coalesce(pfn, order);
      HandDone(t, pfn, order, h, k);
      Release(h, k);
    }

    /** The block in hand joins the free list of its order. */
    method Release(h: nat, k: nat)
      requires |t| == total && k < MAX_ORDER && h + Pow2(k) <= total
      requires Store(pages[..], links[..], nrFree[..], Paint(t, h, k, Used), lists, h)
      modifies pages, links, nrFree, this`lists, this`t
      ensures t == Paint(old(t), h, k, Free) && Foremost(lists, k, h)
      ensures pages[..] == old(pages[..])[h := Page(FLAG_FREE, 0, k)]
      ensures Store(pages[..], links[..], nrFree[..], t, lists, -1)
    {
      ghost var u := Paint(t, h, k, Used);
      DoneLists(t, h, k, lists);
      ListedSeparate(u, lists);
      pages[h] := Page(FLAG_FREE, 0, k);
      Enlist(k, h, total);
      t := Paint(t, h, k, Free);
    }

    /** dll_empty on the head of a free list */
    method IsEmpty(o: nat) returns (e: bool)
      requires Separate(total, lists) && Rings(links[..], total, lists) && o < MAX_ORDER
      ensures e <==> lists[o] == []
    {
      assert Distinct(lists[o]) && Ring(links[..], total + o, lists[o]);
      RingEmpty(links[..], total + o, lists[o]);
      e := links[total + o].next == total + o && links[total + o].prev == total + o;
    }

    /** The search for the smallest order with a free block; MAX_ORDER when there is none. */
    method FindOrder(order: nat) returns (o: nat)
      requires Separate(total, lists) && Rings(links[..], total, lists) && order < MAX_ORDER
      ensures order <= o <= MAX_ORDER && (o < MAX_ORDER ==> lists[o] != [])
      ensures forall o' | order <= o' < o :: lists[o'] == []
    {
      o := order;
      while o < MAX_ORDER
        invariant order <= o <= MAX_ORDER
        invariant forall o' | order <= o' < o :: lists[o'] == []
      {
        var e := IsEmpty(o);
        if !e { return; }
        o := o + 1;
      }
    }

    /** The splitting loop: halves the block in hand, freeing upper halves, down to the wanted order. */
    method Split(h: nat, c0: nat, order: nat, ghost u0: seq<Block>) returns (ghost u: seq<Block>)
      requires |t| == total == pages.Length && Sound(t) && order <= c0
      requires Taken(t, u0, h, c0) && Store(pages[..], links[..], nrFree[..], u0, lists, h)
      modifies pages, links, nrFree, this`lists
      ensures Taken(t, u, h, order) && Store(pages[..], links[..], nrFree[..], u, lists, h)
      ensures forall p | 0 <= p < total && t[p].status != Free :: pages[p] == old(pages[p])
    {
      hide Sound, Maximal, TakenAt, Store;
      var c := c0;
      u := u0;
      while c > order
        invariant order <= c
        invariant Taken(t, u, h, c) && Store(pages[..], links[..], nrFree[..], u, lists, h)
        invariant forall p | 0 <= p < total && t[p].status != Free :: pages[p] == old(pages[p])
      {
        HalfFree(t, u, h, c);
        var b := Xor(h, Pow2(c - 1));
        u := SplitOff(h, c, b, u);
        c := c - 1;
      }
    }

    /** One split: the upper half becomes a free block. */
    method SplitOff(h: nat, c: nat, b: nat, ghost u: seq<Block>) returns (ghost v: seq<Block>)
      requires |t| == total == pages.Length && Sound(t) && c > 0 && Taken(t, u, h, c)
      requires Store(pages[..], links[..], nrFree[..], u, lists, h) && b == h + Pow2(c - 1) && b < total
      modifies pages, links, nrFree, this`lists
      ensures Taken(t, v, h, c - 1) && Store(pages[..], links[..], nrFree[..], v, lists, h)
      ensures pages[..] == old(pages[..])[b := Page(FLAG_FREE, 0, c - 1)]
    {
      hide Sound, Maximal, TakenAt, Listed, Rings, Counts, Exact;
      v := SplitPaint(u, h, c - 1);
      TakeHalf(t, u, h, c);
      HalfFree(t, u, h, c);
      SplitLists(u, h, c - 1, lists);
      SplitExact(pages[..], u, h, c - 1);
      ListedSeparate(u, lists);
      pages[b] := Page(FLAG_FREE, 0, c - 1);
      Enlist(c - 1, b, total);
    }

    /**
     pmm_alloc_pages. It fails exactly when no aligned run of the order is free, and otherwise hands
     out such a run; since frame 0 stays reserved, a result of 0 always means failure.
     */
    method AllocPages(order: nat) returns (phys: nat)
      requires Valid()
      modifies pages, links, nrFree, this`lists, this`t
      ensures Valid()
      ensures phys == 0 <==> order >= MAX_ORDER || forall h: nat | Aligned(h, order) :: !AllFree(old(t), h, order)
      ensures phys == 0 ==> t == old(t) && lists == old(lists)
      ensures phys != 0 ==> phys % PAGE == 0 && phys / PAGE < total
      ensures phys != 0 ==> Taken(old(t), t, phys / PAGE, order)
      ensures phys != 0 ==> BestFit(old(t), phys / PAGE, order)
      ensures phys != 0 ==> Foremost(old(lists), old(t)[phys / PAGE].order, phys / PAGE)
      ensures phys != 0 ==> pages[phys / PAGE].refs == 1
      ensures forall p | 0 <= p < total && old(t)[p].status != Free :: pages[p] == old(pages[p])
    {
      if order >= MAX_ORDER { return 0; }
      ListedSeparate(t, lists);
      var c := FindOrder(order);
      if c == MAX_ORDER {
        forall h: nat | Aligned(h, order) ensures !AllFree(t, h, order) { EmptyListsNoRun(t, lists, order, h); }
        return 0;
      }
      ShortListsBestFit(t, lists, order, c, lists[c][0]);
      var h := TakeRun(order, c);
      phys := h * PAGE;
      assert phys / PAGE == h;
    }

    /** Carves a run of the wanted order from the first block of a larger order. */
    method TakeRun(order: nat, c: nat) returns (h: nat)
      requires Valid() && order <= c < MAX_ORDER && lists[c] != []
      modifies pages, links, nrFree, this`lists, this`t
      ensures Valid() && 0 < h < total && Taken(old(t), t, h, order) && pages[h].refs == 1
      ensures h == old(lists)[c][0] && old(t)[h] == Block(h, c, Free)
      ensures forall p | 0 <= p < total && old(t)[p].status != Free :: pages[p] == old(pages[p])
    {
      hide Sound, Maximal, Listed, Rings, Counts;
      h := TakeFirst(c);
      ghost var u := Split(h, c, order, Paint(t, h, c, Used));
      assert InRange(h, h, order);
      pages[h] := Page(FLAG_USED, 1, order);
      t := u;
    }

    /** Takes the first block of a free list in hand. */
    method TakeFirst(c: nat) returns (h: nat)
      requires Valid() && c < MAX_ORDER && lists[c] != []
      modifies links, nrFree, this`lists
      ensures h == old(lists)[c][0] && 0 < h < total && t[h] == Block(h, c, Free)
      ensures Taken(t, Paint(t, h, c, Used), h, c)
      ensures Store(pages[..], links[..], nrFree[..], Paint(t, h, c, Used), lists, h)
    {
      hide Sound, Maximal, Listed, Rings, Counts, Exact, TakenAt;
      ListedSeparate(t, lists);
      h := First(c);
      TakeLists(t, lists, c);
      TakeBlock(t, h);
      ExactPaint(pages[..], pages[..], t, -1, h, c, Used);
      Unlist(c, h, 0, total);
    }

    /** The block behind the head of a non-empty list */
    method First(c: nat) returns (h: nat)
      requires Separate(total, lists) && Rings(links[..], total, lists) && c < MAX_ORDER && lists[c] != []
      ensures h == lists[c][0]
    {
      assert Ring(links[..], total + c, lists[c]);
      Step(links[..], total + c, lists[c], 0);
      h := links[total + c].next;
    }

    /** pmm_get_order_from_size */
    static method OrderFromSize(size: nat) returns (order: nat)
      ensures LeastOrder(size, order)
    {
      var needed := size / PAGE;
      if size % PAGE != 0 { needed := needed + 1; }
      order := 0;
      while Pow2(order) < needed
        invariant forall o: nat | Pow2(o) >= needed :: order <= o
        decreases needed - Pow2(order)
      {
        forall o: nat | Pow2(o) >= needed ensures order + 1 <= o {
          assert o != order;
        }
        assert Pow2(order + 1) == 2 * Pow2(order);
        order := order + 1;
      }
    }

    /** pmm_alloc: a run of the least order that holds `size` bytes, or 0 when there is none. */
    method AllocBytes(size: nat) returns (phys: nat)
      requires Valid()
      modifies pages, links, nrFree, this`lists, this`t
      ensures Valid()
      ensures forall k: nat | LeastOrder(size, k) ::
                (phys == 0 <==> k >= MAX_ORDER || forall h: nat | Aligned(h, k) :: !AllFree(old(t), h, k))
      ensures phys == 0 ==> t == old(t) && lists == old(lists)
      ensures phys != 0 ==> phys % PAGE == 0 && phys / PAGE < total
      ensures phys != 0 ==> forall k: nat | LeastOrder(size, k) :: Taken(old(t), t, phys / PAGE, k)
      ensures phys != 0 ==> forall k: nat | LeastOrder(size, k) :: BestFit(old(t), phys / PAGE, k)
      ensures phys != 0 ==> pages[phys / PAGE].refs == 1
      ensures forall p | 0 <= p < total && old(t)[p].status != Free :: pages[p] == old(pages[p])
    {
      hide Sound, Maximal, TakenAt, Store;
      var order := OrderFromSize(size);
      assert forall k: nat | LeastOrder(size, k) :: k == order;
      if order >= MAX_ORDER { return 0; }
      phys := AllocPages(order);
    }

    /** pmm_free: gives back the run that pmm_alloc handed out for the same length. */
    method FreeBytes(phys: nat, length: nat)
      requires Valid() && phys != 0
      requires phys % PAGE == 0 && phys / PAGE < total ==>
                 forall k: nat | LeastOrder(length, k) :: Freeable(t, phys / PAGE, k)
      modifies pages, links, nrFree, this`lists, this`t
      ensures Valid()
      ensures if phys % PAGE == 0 && phys / PAGE < total
              then forall k: nat | LeastOrder(length, k) :: Freed(old(t), t, phys / PAGE, k)
              else t == old(t) && lists == old(lists)
      ensures forall p | 0 <= p < total && t[p].status != Free :: pages[p] == old(pages[p])
    {
      hide Sound, Maximal, FreedAt, Store;
      var order := OrderFromSize(length);
      assert forall k: nat | LeastOrder(length, k) :: k == order;
      FreePages(phys, order);
    }

    /**
     pmm_page_inc_ref. Frames inside a block may carry stale descriptors, which count without effect; at a block head
     the invariant is lost exactly when the 32-bit count wraps around.
     */
    method IncRef(phys: nat)
      requires Valid()
      modifies pages
      ensures var pfn, was := phys / PAGE, old(pages[..]);
              pages[..] == if Counted(was, pfn) then was[pfn := was[pfn].(refs := (was[pfn].refs + 1) % U32)] else was
      ensures var pfn, was := phys / PAGE, old(pages[..]);
              Valid() <==> !(pfn < |t| && t[pfn] == Block(pfn, t[pfn].order, Used) && (was[pfn].refs + 1) % U32 == 0)
      ensures HeadsCount(t, old(pages[..]))
    {
      hide Sound, Maximal, Listed, Rings, Counts;
      HeadsCounted(pages[..], t);
      var pfn := phys / PAGE;
      if pfn >= total { return; }
      if IsPageUsed(pages[pfn]) {
        pages[pfn] := pages[pfn].(refs := (pages[pfn].refs + 1) % U32);
      }
    }

    /**
     pmm_page_dec_ref: the last reference frees the whole block; a frame that is not in use is left alone. The last
     reference dropped through an unaligned address leaves a block in use that nobody holds.
     */
    method DecRef(phys: nat)
      requires Valid()
      requires var pfn := phys / PAGE;
               Counted(pages[..], pfn) && pfn < |t| && t[pfn].head != pfn ==> pages[pfn].refs > 1
      modifies pages, links, nrFree, this`lists, this`t
      ensures var pfn := phys / PAGE;
              if !Counted(old(pages[..]), pfn) then
                Valid() && t == old(t) && pages[..] == old(pages[..])
              else if old(pages[..])[pfn].refs > 1 then
                Valid() && t == old(t)
                && pages[..] == old(pages[..])[pfn := old(pages[..])[pfn].(refs := old(pages[..])[pfn].refs - 1)]
              else if phys % PAGE != 0 then
                && !Valid() && ValidBut(pfn) && t == old(t)
                && pages[..] == old(pages[..])[pfn := old(pages[..])[pfn].(refs := 0)]
              else
                && Valid() && pfn < |old(t)| && Freed(old(t), t, pfn, old(t)[pfn].order)
                && forall p | 0 <= p < total && t[p].status != Free :: pages[p] == old(pages[p])
      ensures HeadsCount(old(t), old(pages[..]))
    {
      hide Sound, Maximal, Listed, Rings, Counts;
      HeadsCounted(pages[..], t);
      var pfn := phys / PAGE;
      if pfn >= total { return; }
      if IsPageUsed(pages[pfn]) {
        pages[pfn] := pages[pfn].(refs := pages[pfn].refs - 1);
        if pages[pfn].refs == 0 {
          UsedFreeable(t, pfn);
          FreePages(phys, pages[pfn].order);
        }
      }
    }
  }

  /** The descriptor of the frame says that it is in use. */
  predicate Counted(pages: seq<Page>, pfn: nat) {
    pfn < |pages| && IsPageUsed(pages[pfn])
  }

  /** At block heads descriptors tell the truth about being in use, and used blocks are referenced. */
  ghost predicate HeadsCount(t: seq<Block>, pages: seq<Page>) {
    && |pages| == |t|
    && forall p: nat | p < |t| && t[p].head == p ::
         (Counted(pages, p) <==> t[p].status == Used) && (t[p].status == Used ==> pages[p].refs >= 1)
  }

  lemma HeadsCounted(pages: seq<Page>, t: seq<Block>)
    requires Exact(pages, t, -1) && Held(pages, t, -1)
    ensures HeadsCount(t, pages)
  {
    forall p: nat | p < |t| && t[p].head == p ensures Counted(pages, p) <==> t[p].status == Used {
      FlagTests(pages[p], t[p].status);
    }
  }
}
