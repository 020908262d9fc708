/**
 How the allocator's own data -- the page array, the free-list rings and their counters --
 represents a tiling. Page descriptors are only exact at block heads: descriptors inside a
 block may be stale, and nothing here constrains them.
 */
module BuddyStore {
  import opened Bits
  import opened Tiling
  import opened Dll
  import opened Seqs

  const FLAG_FREE: nat := 1
  const FLAG_USED: nat := 2
  const FLAG_RESERVED: nat := 4

  /** struct pmm_page, without its link */
  datatype Page = Page(flags: nat, refs: nat, order: nat)

  function FlagOf(s: Status): nat {
    match s case Free => FLAG_FREE case Used => FLAG_USED case Reserved => FLAG_RESERVED
  }

  predicate IsPageFree(p: Page) { And(p.flags, FLAG_FREE) != 0 }
  predicate IsPageUsed(p: Page) { And(p.flags, FLAG_USED) != 0 }

  lemma FlagTests(p: Page, s: Status)
    requires p.flags == FlagOf(s)
    ensures IsPageFree(p) <==> s == Free
    ensures IsPageUsed(p) <==> s == Used
  {
    assert And(2, 1) == 0 && And(4, 1) == 0 && And(1, 2) == 0;
    assert And(2, 2) == 2 * And(1, 1);
    assert And(4, 2) == 2 * And(2, 1);
  }

  ghost predicate Describes(p: Page, b: Block) {
    p.flags == FlagOf(b.status) && p.order == b.order
  }

  /** Every used block, except possibly the one at x, is referenced. */
  ghost predicate Held(pages: seq<Page>, t: seq<Block>, x: int) {
    && |pages| == |t|
    && forall p | 0 <= p < |t| && p != x && t[p].head == p && t[p].status == Used :: pages[p].refs >= 1
  }

  /** Descriptors are exact at every block head, except at the block in hand. */
  ghost predicate Exact(pages: seq<Page>, t: seq<Block>, hand: int) {
    && |pages| == |t|
    && forall p | 0 <= p < |t| && p != hand && t[p].head == p :: Describes(pages[p], t[p])
  }

  ghost predicate FreeHead(t: seq<Block>, p: nat)
    requires p < |t|
  {
    t[p].head == p && t[p].status == Free
  }

  /** List number `order` holds exactly the free blocks of that order, once each. */
  ghost predicate Listed(t: seq<Block>, lists: seq<seq<nat>>) {
    && |lists| == MAX_ORDER
    && (forall o, i | 0 <= o < MAX_ORDER && 0 <= i < |lists[o]| ::
          lists[o][i] < |t| && t[lists[o][i]] == Block(lists[o][i], o, Free))
    && (forall p: nat | p < |t| && FreeHead(t, p) :: t[p].order < MAX_ORDER && p in lists[t[p].order])
    && (forall o | 0 <= o < MAX_ORDER :: Distinct(lists[o]))
  }

  /** Ring heads are the nodes after the page nodes. */
  ghost predicate Rings(links: seq<Link>, n: nat, lists: seq<seq<nat>>) {
    && |lists| == MAX_ORDER && |links| == n + MAX_ORDER
    && forall o | 0 <= o < MAX_ORDER :: Ring(links, n + o, lists[o])
  }

  ghost predicate Counts(nr: seq<nat>, lists: seq<seq<nat>>) {
    && |nr| == |lists|
    && forall o | 0 <= o < |lists| :: nr[o] == |lists[o]|
  }

  // ----- the free lists -----

  ghost function ListRemove(lists: seq<seq<nat>>, o: nat, i: nat): (r: seq<seq<nat>>)
    requires o < |lists| && i < |lists[o]|
  {
    lists[o := RemoveAt(lists[o], i)]
  }

  ghost function ListAdd(lists: seq<seq<nat>>, o: nat, p: nat): (r: seq<seq<nat>>)
    requires o < |lists|
  {
    lists[o := [p] + lists[o]]
  }

  lemma ListedRemove(t: seq<Block>, u: seq<Block>, lists: seq<seq<nat>>, o: nat, i: nat)
    requires Listed(t, lists) && |u| == |t| && o < MAX_ORDER && i < |lists[o]|
    requires forall p: nat | p < |t| ::
               (FreeHead(u, p) <==> FreeHead(t, p) && p != lists[o][i]) && (FreeHead(u, p) ==> u[p] == t[p])
    ensures Listed(u, ListRemove(lists, o, i))
  {
    var s, r := lists[o], ListRemove(lists, o, i);
    assert Distinct(s);
    forall o', j | 0 <= o' < MAX_ORDER && 0 <= j < |r[o']|
      ensures r[o'][j] < |u| && u[r[o'][j]] == Block(r[o'][j], o', Free)
    {
      if o' == o { assert r[o][j] == s[if j < i then j else j + 1]; }
      assert t[r[o'][j]] == Block(r[o'][j], o', Free);
      assert FreeHead(t, r[o'][j]);
      assert FreeHead(u, r[o'][j]);
    }
    forall p: nat | p < |u| && FreeHead(u, p) ensures u[p].order < MAX_ORDER && p in r[u[p].order] {
      var j :| 0 <= j < |lists[t[p].order]| && lists[t[p].order][j] == p;
      if t[p].order == o { assert r[o][if j < i then j else j - 1] == p; }
    }
  }

  lemma ListedAdd(t: seq<Block>, u: seq<Block>, lists: seq<seq<nat>>, o: nat, b: nat)
    requires Listed(t, lists) && |u| == |t| && o < MAX_ORDER && b < |t|
    requires !FreeHead(t, b) && u[b] == Block(b, o, Free)
    requires forall p: nat | p < |t| ::
               (FreeHead(u, p) <==> FreeHead(t, p) || p == b) && (FreeHead(t, p) ==> u[p] == t[p])
    ensures Listed(u, ListAdd(lists, o, b))
  {
    var r := ListAdd(lists, o, b);
    forall o', j | 0 <= o' < MAX_ORDER && 0 <= j < |lists[o']|
      ensures FreeHead(t, lists[o'][j]) && lists[o'][j] != b
    {}
    forall o', j | 0 <= o' < MAX_ORDER && 0 <= j < |r[o']|
      ensures r[o'][j] < |u| && u[r[o'][j]] == Block(r[o'][j], o', Free)
    {
      if o' == o && j > 0 { assert r[o][j] == lists[o][j - 1]; }
    }
    assert Distinct(lists[o]);
    assert Distinct(r[o]);
  }

  /** Two tilings with the same free blocks have the same lists. */
  lemma ListedSame(t: seq<Block>, u: seq<Block>, lists: seq<seq<nat>>)
    requires Listed(t, lists) && |u| == |t|
    requires forall p: nat | p < |t| ::
               (FreeHead(u, p) <==> FreeHead(t, p)) && (FreeHead(t, p) ==> u[p] == t[p])
    ensures Listed(u, lists)
  {
    forall o, i | 0 <= o < MAX_ORDER && 0 <= i < |lists[o]| ensures FreeHead(t, lists[o][i]) {}
  }

  // ----- the rings -----

  /** Page nodes are on at most one list, at most once. */
  ghost predicate Separate(n: nat, lists: seq<seq<nat>>) {
    && |lists| == MAX_ORDER
    && (forall o | 0 <= o < MAX_ORDER :: Distinct(lists[o]))
    && (forall o, x | 0 <= o < MAX_ORDER && x in lists[o] :: x < n)
    && (forall o, o', x | 0 <= o < MAX_ORDER && 0 <= o' < MAX_ORDER && x in lists[o] && x in lists[o'] :: o == o')
  }

  lemma ListedSeparate(t: seq<Block>, lists: seq<seq<nat>>)
    requires Listed(t, lists)
    ensures Separate(|t|, lists)
    ensures forall o, x | 0 <= o < MAX_ORDER && x in lists[o] :: x < |t| && FreeHead(t, x)
  {
    forall o, x | 0 <= o < MAX_ORDER && x in lists[o] ensures x < |t| && t[x] == Block(x, o, Free) {
      var i :| 0 <= i < |lists[o]| && lists[o][i] == x;
    }
  }

  lemma RingsRemove(n: nat, links: seq<Link>, lists: seq<seq<nat>>, o: nat, i: nat)
    requires Separate(n, lists) && Rings(links, n, lists) && o < MAX_ORDER && i < |lists[o]|
    ensures var b := lists[o][i]; b < |links| && links[b].prev < |links| && links[b].next < |links|
    ensures Rings(Unlink(links, lists[o][i]), n, ListRemove(lists, o, i))
  {
    hide Ring;
    var s := lists[o];
    assert Distinct(s) && Ring(links, n + o, s);
    RingRemove(links, n + o, s, i);
    RingWrites(links, n + o, s, s[i]);
    OtherRings(n, links, Unlink(links, s[i]), lists, o, s[i]);
  }

  lemma RingsAdd(n: nat, links: seq<Link>, lists: seq<seq<nat>>, o: nat, b: nat)
    requires Separate(n, lists) && Rings(links, n, lists) && o < MAX_ORDER && b < n
    requires forall o' | 0 <= o' < MAX_ORDER :: b !in lists[o']
    ensures n + o < |links| && links[n + o].next < |links|
    ensures Rings(AddAfter(links, n + o, b), n, ListAdd(lists, o, b))
  {
    var s := lists[o];
    assert Distinct(s) && Ring(links, n + o, s);
    RingAdd(links, n + o, s, b);
    RingWrites(links, n + o, s, b);
    OtherRings(n, links, AddAfter(links, n + o, b), lists, o, b);
  }

  /** Writes to one ring, or to a node on no ring, leave the other rings alone. */
  lemma OtherRings(n: nat, links: seq<Link>, l: seq<Link>, lists: seq<seq<nat>>, o: nat, b: nat)
    requires Separate(n, lists) && Rings(links, n, lists) && o < MAX_ORDER && b < n && |l| == |links|
    requires b in lists[o] || forall o' | 0 <= o' < MAX_ORDER :: b !in lists[o']
    requires forall x | 0 <= x < |links| && x != n + o && x != b && x !in lists[o] :: l[x] == links[x]
    ensures forall o' | 0 <= o' < MAX_ORDER && o' != o :: Ring(l, n + o', lists[o'])
  {
    forall o' | 0 <= o' < MAX_ORDER && o' != o ensures Ring(l, n + o', lists[o']) {
      var s := lists[o'];
      assert Ring(links, n + o', s);
      forall i | 0 <= i < |s| ensures l[s[i]] == links[s[i]] {
        assert s[i] in s;
      }
      RingFrame(links, l, n + o', s);
    }
  }

  // ----- the whole store -----

  ghost predicate Store(pages: seq<Page>, links: seq<Link>, nr: seq<nat>, t: seq<Block>, lists: seq<seq<nat>>,
                        hand: int) {
    && Exact(pages, t, hand)
    && Listed(t, lists)
    && Rings(links, |t|, lists)
    && Counts(nr, lists)
  }

  /** A freed run is taken in hand: no list changes. */
  lemma StoreHand(pages: seq<Page>, t: seq<Block>, lists: seq<seq<nat>>, h: nat, k: nat)
    requires Exact(pages, t, -1) && Listed(t, lists) && Freeable(t, h, k)
    ensures Exact(pages, Paint(t, h, k, Used), h) && Listed(Paint(t, h, k, Used), lists)
  {
    var u := Paint(t, h, k, Used);
    forall p: nat | p < |t| ensures (FreeHead(u, p) <==> FreeHead(t, p)) && (FreeHead(t, p) ==> u[p] == t[p]) {
      assert InRange(p, h, k) ==> t[p].status != Free;
    }
    ListedSame(t, u, lists);
  }

  /** Descriptors outside a painted range stay exact, whatever happened inside it. */
  lemma ExactPaint(pages: seq<Page>, pages': seq<Page>, t: seq<Block>, hand: int, h: nat, k: nat, s: Status)
    requires Exact(pages, t, hand) && (hand == -1 || InRange(hand, h, k)) && |pages'| == |pages|
    requires forall p | 0 <= p < |pages| && !InRange(p, h, k) :: pages'[p] == pages[p]
    ensures Exact(pages', Paint(t, h, k, s), h)
  {
  }

  /**
   The merge test reads the buddy's descriptor. It is true exactly when the buddy is a free
   block of the same order, although descriptors inside blocks are stale.
   */
  lemma MergeTestExact(pages: seq<Page>, t: seq<Block>, h0: nat, k0: nat, h: nat, k: nat)
    requires InHand(t, h0, k0, h, k) && Exact(pages, Paint(t, h, k, Used), h)
    ensures var b := Buddy(h, k);
            b < |t| ==> (IsPageFree(pages[b]) && pages[b].order == k <==> t[b] == Block(b, k, Free))
  {
    HandBuddy(t, h0, k0, h, k);
    var b := Buddy(h, k);
    if b < |t| { FlagTests(pages[b], t[b].status); }
  }

  /** What a merge does to the descriptors and the lists. */
  lemma AbsorbStep(pages: seq<Page>, t: seq<Block>, lists: seq<seq<nat>>, h0: nat, k0: nat, h: nat, k: nat, b: nat)
    returns (i: nat)
    requires InHand(t, h0, k0, h, k) && k < MAX_ORDER - 1
    requires Exact(pages, Paint(t, h, k, Used), h) && Listed(Paint(t, h, k, Used), lists)
    requires b == Buddy(h, k) && b < |t| && t[b] == Block(b, k, Free)
    ensures i < |lists[k]| && lists[k][i] == b
    ensures var m := if b < h then b else h;
            && Exact(pages[b := pages[b].(order := 0)], Paint(t, m, k + 1, Used), m)
            && Listed(Paint(t, m, k + 1, Used), ListRemove(lists, k, i))
  {
    var m, u := if b < h then b else h, Paint(t, h, k, Used);
    assert u[b] == t[b] && FreeHead(u, b);
    i :| i < |lists[k]| && lists[k][i] == b;
    MergeLists(t, h, k, b, lists, i);
    assert Pow2(k + 1) == 2 * Pow2(k);
    ExactPaint(pages, pages[b := pages[b].(order := 0)], u, h, m, k + 1, Used);
    assert Paint(u, m, k + 1, Used) == Paint(t, m, k + 1, Used);
  }

  /** The buddy leaves its list and joins the block in hand. */
  lemma MergeLists(t: seq<Block>, h: nat, k: nat, b: nat, lists: seq<seq<nat>>, i: nat)
    requires var u := Paint(t, h, k, Used); Sound(u) && Listed(u, lists)
    requires Aligned(h, k) && h + Pow2(k) <= |t| && k < MAX_ORDER - 1 && b == Buddy(h, k) && b < |t|
    requires t[b] == Block(b, k, Free) && i < |lists[k]| && lists[k][i] == b
    ensures Listed(Paint(t, if b < h then b else h, k + 1, Used), ListRemove(lists, k, i))
  {
    var m := if b < h then b else h;
    var u, v := Paint(t, h, k, Used), Paint(t, m, k + 1, Used);
    assert u[b] == t[b];
    assert BlockOk(u, u[b]);
    assert Pow2(k + 1) == 2 * Pow2(k);
    forall p: nat | p < |t|
      ensures (FreeHead(v, p) <==> FreeHead(u, p) && p != b) && (FreeHead(v, p) ==> v[p] == u[p])
    {
      if b <= p < b + Pow2(k) { assert u[p] == u[b]; }
    }
    ListedRemove(u, v, lists, k, i);
  }

  /** The block in hand becomes a free block of its list. */
  lemma DoneLists(t: seq<Block>, h: nat, k: nat, lists: seq<seq<nat>>)
    requires Listed(Paint(t, h, k, Used), lists) && k < MAX_ORDER && h + Pow2(k) <= |t|
    ensures Listed(Paint(t, h, k, Free), ListAdd(lists, k, h)) && !FreeHead(Paint(t, h, k, Used), h)
  {
    var u, v := Paint(t, h, k, Used), Paint(t, h, k, Free);
    ListedAdd(u, v, lists, k, h);
  }

  /** The first block of a list is taken in hand. */
  lemma TakeLists(t: seq<Block>, lists: seq<seq<nat>>, k: nat)
    requires Sound(t) && Listed(t, lists) && k < MAX_ORDER && |lists[k]| > 0
    ensures Listed(Paint(t, lists[k][0], k, Used), ListRemove(lists, k, 0))
    ensures lists[k][0] < |t| && t[lists[k][0]] == Block(lists[k][0], k, Free)
  {
    var h := lists[k][0];
    var u := Paint(t, h, k, Used);
    assert t[h] == Block(h, k, Free);
    assert BlockOk(t, t[h]);
    ListedRemove(t, u, lists, k, 0);
  }

  /** The upper half of the block in hand becomes a free block of its list. */
  lemma SplitLists(u: seq<Block>, h: nat, k: nat, lists: seq<seq<nat>>)
    requires Sound(u) && Listed(u, lists) && h < |u| && u[h] == Block(h, k + 1, Used)
    ensures h + Pow2(k) < |u| && !FreeHead(u, h + Pow2(k)) && k < MAX_ORDER
    ensures Listed(SplitPaint(u, h, k), ListAdd(lists, k, h + Pow2(k)))
  {
    var m, v := h + Pow2(k), SplitPaint(u, h, k);
    assert BlockOk(u, u[h]);
    assert u[m] == u[h];
    assert Pow2(k + 1) == 2 * Pow2(k);
    forall p: nat | p < |u|
      ensures (FreeHead(v, p) <==> FreeHead(u, p) || p == m) && (FreeHead(u, p) ==> v[p] == u[p])
    {
      if h <= p < m + Pow2(k) { assert u[p] == u[h]; }
    }
    ListedAdd(u, v, lists, k, m);
  }

  lemma SplitExact(pages: seq<Page>, u: seq<Block>, h: nat, k: nat)
    requires Exact(pages, u, h) && h + Pow2(k) < |u|
    ensures Exact(pages[h + Pow2(k) := Page(FLAG_FREE, 0, k)], SplitPaint(u, h, k), h)
  {
  }

  /** The block at the start of a free list, the one dll_add_after put in last */
  ghost predicate Foremost(lists: seq<seq<nat>>, o: nat, h: nat) {
    o < |lists| && lists[o] != [] && lists[o][0] == h
  }

  /** Block h is free and no free block that is large enough for the order is smaller than it. */
  ghost predicate BestFit(t: seq<Block>, h: nat, order: nat) {
    && h < |t| && t[h].head == h && t[h].status == Free && order <= t[h].order
    && forall p: nat | p < |t| && t[p].status == Free && order <= t[p].order :: t[h].order <= t[p].order
  }

  /** With the lists from `order` up to c empty, a free block of order c is a best fit. */
  lemma ShortListsBestFit(t: seq<Block>, lists: seq<seq<nat>>, order: nat, c: nat, h: nat)
    requires Sound(t) && Listed(t, lists) && order <= c < MAX_ORDER && h < |t| && t[h] == Block(h, c, Free)
    requires forall o | order <= o < c :: lists[o] == []
    ensures BestFit(t, h, order)
  {
    forall p: nat | p < |t| && t[p].status == Free && order <= t[p].order ensures c <= t[p].order {
      assert BlockOk(t, t[p]);
      assert FreeHead(t, t[p].head);
    }
  }

  /** When every list from `order` up is empty, no aligned run of that order is free. */
  lemma EmptyListsNoRun(t: seq<Block>, lists: seq<seq<nat>>, order: nat, h: nat)
    requires Sound(t) && Maximal(t) && Listed(t, lists) && order < MAX_ORDER && Aligned(h, order)
    requires forall o | order <= o < MAX_ORDER :: lists[o] == []
    ensures !AllFree(t, h, order)
  {
    if AllFree(t, h, order) {
      var b := t[h];
      assert BlockOk(t, b);
      assert FreeHead(t, b.head);
    }
  }
}
