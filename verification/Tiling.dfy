/**
 The partition of physical memory that the buddy allocator keeps. A tiling gives, for every
 frame, the block that holds it; a sound tiling is a partition into naturally aligned blocks.
 */
module Tiling {
  import opened Bits

  /** PMM_MAX_ORDER: blocks have order 0 to 10. */
  const MAX_ORDER: nat := 11

  datatype Status = Free | Used | Reserved

  datatype Block = Block(head: nat, order: nat, status: Status) {
    function End(): nat { head + Pow2(order) }
  }

  ghost predicate BlockOk(t: seq<Block>, b: Block) {
    && b.order < MAX_ORDER
    && Aligned(b.head, b.order)
    && b.End() <= |t|
    && forall q | b.head <= q < b.End() :: t[q] == b
  }

  ghost predicate Sound(t: seq<Block>) {
    forall p | 0 <= p < |t| :: t[p].head <= p < t[p].End() && BlockOk(t, t[p])
  }

  /** The aligned run of 2^k frames from h lies in memory and is free. */
  ghost predicate AllFree(t: seq<Block>, h: nat, k: nat) {
    && h + Pow2(k) <= |t|
    && forall p | h <= p < h + Pow2(k) :: t[p].status == Free
  }

  /** Every aligned free run is held by a single free block. */
  ghost predicate Maximal(t: seq<Block>) {
    forall h: nat, k: nat | k < MAX_ORDER && Aligned(h, k) && AllFree(t, h, k) :: t[h].order >= k
  }

  /** No two buddies of one order, below the top order, are both free blocks. */
  ghost predicate NoFreeBuddies(t: seq<Block>)
    requires Sound(t)
  {
    forall p | 0 <= p < |t| && t[p].head == p && t[p].status == Free && t[p].order < MAX_ORDER - 1 ::
      var b := Buddy(p, t[p].order);
      b < |t| ==> t[b] != Block(b, t[p].order, Free)
  }

  ghost function Paint(t: seq<Block>, h: nat, k: nat, s: Status): (r: seq<Block>)
    ensures |r| == |t|
  {
    seq(|t|, p requires 0 <= p < |t| => if h <= p < h + Pow2(k) then Block(h, k, s) else t[p])
  }

  /** Blocks no larger than an aligned range lie inside it or outside it. */
  lemma InsideOrOutside(t: seq<Block>, p: nat, q: nat, h: nat, k: nat)
    requires Sound(t) && p < |t| && q < |t| && t[p] == t[q]
    requires Aligned(h, k) && t[q].order <= k && h <= q < h + Pow2(k)
    ensures h <= p < h + Pow2(k)
  {
    Nested(t[q].head, t[q].order, h, k);
  }

  /** Merging whole blocks that fill an aligned range leaves a partition. */
  lemma PaintSound(t: seq<Block>, h: nat, k: nat, s: Status)
    requires Sound(t) && Aligned(h, k) && k < MAX_ORDER && h + Pow2(k) <= |t|
    requires forall p | h <= p < h + Pow2(k) :: t[p].order <= k
    ensures Sound(Paint(t, h, k, s))
  {
    var r := Paint(t, h, k, s);
    forall p | 0 <= p < |r| ensures r[p].head <= p < r[p].End() && BlockOk(r, r[p]) {
      if !(h <= p < h + Pow2(k)) {
        forall q | t[p].head <= q < t[p].End() ensures r[q] == t[p] {
          assert BlockOk(t, t[p]);
          if h <= q < h + Pow2(k) { InsideOrOutside(t, p, q, h, k); }
        }
      }
    }
  }

  /** The lower half stays in hand, the upper half becomes free. */
  ghost function SplitPaint(t: seq<Block>, h: nat, k: nat): (r: seq<Block>)
    ensures |r| == |t|
  {
    var m := h + Pow2(k);
    seq(|t|, p requires 0 <= p < |t| =>
      if h <= p < m then Block(h, k, Used) else if m <= p < m + Pow2(k) then Block(m, k, Free) else t[p])
  }

  /** Splitting a block into its two halves leaves a partition. */
  lemma SplitSound(t: seq<Block>, h: nat, k: nat)
    requires Sound(t) && h < |t| && t[h] == Block(h, k + 1, Used)
    ensures Sound(SplitPaint(t, h, k))
  {
    var r := SplitPaint(t, h, k);
    assert BlockOk(t, t[h]);
    Halves(h, k);
    forall p | 0 <= p < |r| ensures r[p].head <= p < r[p].End() && BlockOk(r, r[p]) {
      if !(h <= p < h + Pow2(k + 1)) {
        forall q | t[p].head <= q < t[p].End() ensures r[q] == t[p] {
          assert BlockOk(t, t[p]) && t[q] == t[p];
        }
      }
    }
  }

  /** The buddy of a block head heads a block no larger than the head's own. */
  lemma BuddyIsHead(t: seq<Block>, h: nat)
    requires Sound(t) && h < |t| && t[h].head == h
    ensures Aligned(h, t[h].order)
    ensures var b := Buddy(h, t[h].order); b < |t| ==> t[b].head == b && t[b].order <= t[h].order
  {
    var k := t[h].order;
    assert BlockOk(t, t[h]);
    var b := Buddy(h, k);
    if b < |t| {
      assert BlockOk(t, t[b]);
      BuddyAligned(h, k);
      if t[b].order > k {
        Nested(if h < b then h else b, k + 1, t[b].head, t[b].order);
      } else {
        Nested(t[b].head, t[b].order, b, k);
      }
    }
  }

  lemma BuddyAligned(h: nat, k: nat)
    requires Aligned(h, k)
    ensures Aligned(Buddy(h, k), k)
  {
    var b := Buddy(h, k);
    Halves(if h < b then h else b, k);
  }

  /** An aligned free run lies in one free block, when free buddies are always merged. */
  lemma {:induction false} RunInBlock(t: seq<Block>, h: nat, k: nat)
    requires Sound(t) && NoFreeBuddies(t) && k < MAX_ORDER && Aligned(h, k) && AllFree(t, h, k)
    ensures t[h].order >= k
    decreases k
  {
    if k > 0 {
      var m := h + Pow2(k - 1);
      Halves(h, k - 1);
      RunInBlock(t, h, k - 1);
      RunInBlock(t, m, k - 1);
      assert BlockOk(t, t[h]) && BlockOk(t, t[m]);
      assert Buddy(h, k - 1) == m;
      if t[h].order == k - 1 {
        SameRange(t[h].head, h, k - 1);
        if t[m].order >= k {
          Nested(h, k, t[m].head, t[m].order);
        } else {
          SameRange(t[m].head, m, k - 1);
        }
      }
    }
  }

  /** Merging free buddies is the same as keeping every aligned free run in one block. */
  lemma MaximalIffNoFreeBuddies(t: seq<Block>)
    requires Sound(t)
    ensures Maximal(t) <==> NoFreeBuddies(t)
  {
    if NoFreeBuddies(t) {
      forall h: nat, k: nat | k < MAX_ORDER && Aligned(h, k) && AllFree(t, h, k) ensures t[h].order >= k {
        RunInBlock(t, h, k);
      }
    }
    if Maximal(t) {
      forall p | 0 <= p < |t| && t[p].head == p && t[p].status == Free && t[p].order < MAX_ORDER - 1
        ensures var b := Buddy(p, t[p].order); b < |t| ==> t[b] != Block(b, t[p].order, Free)
      {
        MaximalNoBuddy(t, p);
      }
    }
  }

  lemma MaximalNoBuddy(t: seq<Block>, p: nat)
    requires Sound(t) && Maximal(t)
    requires p < |t| && t[p].head == p && t[p].status == Free && t[p].order < MAX_ORDER - 1
    ensures Aligned(p, t[p].order)
    ensures var b := Buddy(p, t[p].order); b < |t| ==> t[b] != Block(b, t[p].order, Free)
  {
    assert BlockOk(t, t[p]);
    var b := Buddy(p, t[p].order);
    if b < |t| && t[b] == Block(b, t[p].order, Free) { FreeBuddies(t, p); }
  }

  /** Two free buddies make one free run. */
  lemma FreeBuddies(t: seq<Block>, p: nat)
    requires Sound(t) && p < |t| && t[p].head == p && t[p].status == Free && Aligned(p, t[p].order)
    requires var b := Buddy(p, t[p].order); b < |t| && t[b] == Block(b, t[p].order, Free)
    ensures var b, k := Buddy(p, t[p].order), t[p].order;
            var m := if p < b then p else b;
            Aligned(m, k + 1) && AllFree(t, m, k + 1) && t[m].order == k
  {
    assert BlockOk(t, t[p]);
    assert BlockOk(t, t[Buddy(p, t[p].order)]);
  }

  /**
   The free blocks are a function of the free frames: two maximal partitions with the same
   free frames have the same free blocks.
   */
  lemma FreeBlocksCanonical(t: seq<Block>, u: seq<Block>, p: nat)
    requires Sound(t) && Maximal(t) && Sound(u) && Maximal(u) && |t| == |u|
    requires forall q | 0 <= q < |t| :: t[q].status == Free <==> u[q].status == Free
    requires p < |t| && t[p].status == Free
    ensures u[p] == t[p]
  {
    FreeBlockGrows(t, u, p);
    FreeBlockGrows(u, t, p);
    SameRange(t[p].head, u[p].head, t[p].order);
  }

  lemma FreeBlockGrows(t: seq<Block>, u: seq<Block>, p: nat)
    requires Sound(t) && Sound(u) && Maximal(u) && |t| == |u|
    requires forall q | 0 <= q < |t| :: t[q].status == Free ==> u[q].status == Free
    requires p < |t| && t[p].status == Free
    ensures BlockOk(t, t[p]) && BlockOk(u, u[p]) && u[p].order >= t[p].order
  {
    var b := t[p];
    assert BlockOk(t, b) && BlockOk(u, u[p]);
    assert AllFree(u, b.head, b.order);
    var c := u[b.head];
    assert BlockOk(u, c);
    Nested(b.head, b.order, c.head, c.order);
    assert u[p] == c;
  }

  lemma AllReserved(t: seq<Block>)
    requires forall p | 0 <= p < |t| :: t[p] == Block(p, 0, Reserved)
    ensures Sound(t) && Maximal(t)
  {
    forall p | 0 <= p < |t| ensures BlockOk(t, t[p]) { AlignedZero(p); }
  }

  // ----- what the two operations do to the partition -----

  ghost predicate InRange(p: int, h: nat, k: nat) { h <= p < h + Pow2(k) }

  /** Frame by frame, u is t with the run (h, k) handed out as one used block. */
  ghost predicate TakenAt(t: seq<Block>, u: seq<Block>, h: nat, k: nat) {
    && |u| == |t|
    && Aligned(h, k) && AllFree(t, h, k)
    && (forall p | 0 <= p < |t| :: u[p].status == Free <==> t[p].status == Free && !InRange(p, h, k))
    && (forall p | 0 <= p < |t| && t[p].status != Free :: u[p] == t[p])
    && (forall p | 0 <= p < |t| && InRange(p, h, k) :: u[p] == Block(h, k, Used))
  }

  /** Frame by frame, u is t with the run (h, k) given back. */
  ghost predicate FreedAt(t: seq<Block>, u: seq<Block>, h: nat, k: nat) {
    && |u| == |t|
    && (forall p | 0 <= p < |t| :: u[p].status == Free <==> t[p].status == Free || InRange(p, h, k))
    && (forall p | 0 <= p < |t| && u[p].status != Free :: u[p] == t[p])
  }

  ghost predicate Taken(t: seq<Block>, u: seq<Block>, h: nat, k: nat) {
    TakenAt(t, u, h, k) && Sound(u) && Maximal(u)
  }

  ghost predicate Freed(t: seq<Block>, u: seq<Block>, h: nat, k: nat) {
    FreedAt(t, u, h, k) && Sound(u) && Maximal(u)
  }

  /** Allocating a block and freeing it restores every block, through any splits and merges. */
  lemma AllocFreeRestores(t: seq<Block>, u: seq<Block>, v: seq<Block>, h: nat, k: nat)
    requires Sound(t) && Maximal(t)
    requires Taken(t, u, h, k) && Freed(u, v, h, k)
    ensures v == t
  {
    hide Sound, Maximal;
    forall p | 0 <= p < |t| ensures v[p] == t[p] {
      if t[p].status == Free {
        FreeBlocksCanonical(t, v, p);
      }
    }
  }

  /** Different blocks have no frame in common: outstanding allocations are pairwise disjoint. */
  lemma BlocksDisjoint(t: seq<Block>, p: nat, q: nat)
    requires Sound(t) && p < |t| && q < |t| && t[p] != t[q]
    ensures t[p].End() <= t[q].head || t[q].End() <= t[p].head
  {
    assert BlockOk(t, t[p]) && BlockOk(t, t[q]);
    var x := if t[p].head < t[q].head then t[q].head else t[p].head;
    assert x < t[p].End() ==> t[x] == t[p];
    assert x < t[q].End() ==> t[x] == t[q];
  }

  /** A block just handed out is a block of its own, apart from all that were outstanding, and those are still there. */
  lemma TakenDisjoint(t: seq<Block>, u: seq<Block>, h: nat, k: nat, q: nat)
    requires Sound(t) && Taken(t, u, h, k) && q < |t| && t[q].status == Used
    ensures u[q] == t[q] && h < |u| && u[h] == Block(h, k, Used)
    ensures h + Pow2(k) <= t[q].head || t[q].End() <= h
  {
    assert u[h] == Block(h, k, Used) && u[q] == t[q];
    BlocksDisjoint(u, h, q);
  }

  /** Taking a whole free block. */
  lemma TakeBlock(t: seq<Block>, h: nat)
    requires Sound(t) && Maximal(t) && h < |t| && t[h].head == h && t[h].status == Free
    ensures Taken(t, Paint(t, h, t[h].order, Used), h, t[h].order)
  {
    var b := t[h];
    assert BlockOk(t, b);
    PaintSound(t, h, b.order, Used);
    TakeMaximal(t, h, b.order);
    PaintTakenAt(t, h, b.order);
  }

  lemma TakeMaximal(t: seq<Block>, h: nat, k: nat)
    requires Maximal(t)
    ensures Maximal(Paint(t, h, k, Used))
  {
    var u := Paint(t, h, k, Used);
    forall h': nat, k': nat | k' < MAX_ORDER && Aligned(h', k') && AllFree(u, h', k') ensures u[h'].order >= k' {
      FreeRunKept(u, t, h', k');
    }
  }

  lemma PaintTakenAt(t: seq<Block>, h: nat, k: nat)
    requires Aligned(h, k) && AllFree(t, h, k)
    ensures TakenAt(t, Paint(t, h, k, Used), h, k)
  {
    var u := Paint(t, h, k, Used);
    assert forall p | 0 <= p < |t| :: InRange(p, h, k) ==> t[p].status == Free;
  }

  lemma FreeRunKept(u: seq<Block>, t: seq<Block>, h: nat, k: nat)
    requires |u| == |t| && AllFree(u, h, k)
    requires forall p | h <= p < h + Pow2(k) && u[p].status == Free :: t[p] == u[p]
    ensures AllFree(t, h, k) && t[h] == u[h]
  {
    assert forall p | h <= p < h + Pow2(k) :: u[p].status == Free && t[p] == u[p];
  }

  /** Splitting the block in hand: the upper half goes back to the free blocks. */
  lemma TakeHalf(t: seq<Block>, u: seq<Block>, h: nat, k: nat)
    requires Sound(t) && k > 0 && Taken(t, u, h, k)
    ensures Taken(t, SplitPaint(u, h, k - 1), h, k - 1)
  {
    hide Sound, Maximal;
    assert InRange(h, h, k);
    SplitSound(u, h, k - 1);
    SplitMaximal(u, h, k - 1);
    SplitTakenAt(t, u, h, k);
  }

  /** The upper half of the block in hand, as the splitting loop finds it. */
  lemma HalfFree(t: seq<Block>, u: seq<Block>, h: nat, k: nat)
    requires k > 0 && Taken(t, u, h, k)
    ensures Xor(h, Pow2(k - 1)) == h + Pow2(k - 1) < |t| && t[h + Pow2(k - 1)].status == Free
    ensures |u| == |t| && h < |u| && u[h] == Block(h, k, Used)
  {
    XorHalves(h, h + Pow2(k - 1), k - 1);
    assert InRange(h, h, k);
  }

  lemma SplitTakenAt(t: seq<Block>, u: seq<Block>, h: nat, k': nat)
    requires k' > 0 && TakenAt(t, u, h, k')
    ensures TakenAt(t, SplitPaint(u, h, k' - 1), h, k' - 1)
  {
    var k := k' - 1;
    Halves(h, k);
    var v := SplitPaint(u, h, k);
    forall p | 0 <= p < |t|
      ensures v[p].status == Free <==> t[p].status == Free && !InRange(p, h, k)
      ensures t[p].status != Free ==> v[p] == t[p]
    {
      assert InRange(p, h, k + 1) <==> h <= p < h + Pow2(k) + Pow2(k);
    }
  }

  lemma SplitMaximal(u: seq<Block>, h: nat, k: nat)
    requires Sound(u) && Maximal(u) && h < |u| && u[h] == Block(h, k + 1, Used)
    ensures Maximal(SplitPaint(u, h, k))
  {
    var v := SplitPaint(u, h, k);
    assert BlockOk(u, u[h]);
    forall h': nat, k': nat | k' < MAX_ORDER && Aligned(h', k') && AllFree(v, h', k') ensures v[h'].order >= k' {
      SplitRun(u, h, k, h', k');
    }
  }

  /** A run that is free after the split lies in the freed half or was free before. */
  lemma SplitRun(u: seq<Block>, h: nat, k: nat, h': nat, k': nat)
    requires Maximal(u) && Aligned(h, k + 1) && h + Pow2(k + 1) <= |u|
    requires k' < MAX_ORDER && Aligned(h', k') && AllFree(SplitPaint(u, h, k), h', k')
    ensures SplitPaint(u, h, k)[h'].order >= k'
  {
    var v, m := SplitPaint(u, h, k), h + Pow2(k);
    if h' < m + Pow2(k) && m < h' + Pow2(k') {
      assert v[h].status == Used;
      Halves(h, k);
      if k' <= k {
        Nested(h', k', m, k);
      } else {
        Nested(h, k + 1, h', k');
      }
    } else {
      FreeRunKept(v, u, h', k');
    }
  }

  /** The run a caller may free: no frame of it is free, and it is made of whole blocks. */
  ghost predicate Freeable(t: seq<Block>, h: nat, k: nat) {
    && k < MAX_ORDER && Aligned(h, k) && h + Pow2(k) <= |t|
    && forall p | InRange(p, h, k) :: t[p].status != Free && t[p].order <= k
  }

  lemma UsedFreeable(t: seq<Block>, h: nat)
    requires Sound(t) && h < |t| && t[h].head == h && t[h].status == Used
    ensures Freeable(t, h, t[h].order)
  {
    assert BlockOk(t, t[h]);
  }

  /** The coalescing loop has grown the freed run (h0, k0) to the block in hand (h, k). */
  ghost predicate InHand(t: seq<Block>, h0: nat, k0: nat, h: nat, k: nat) {
    && k < MAX_ORDER && Aligned(h, k) && h + Pow2(k) <= |t|
    && Sound(Paint(t, h, k, Used))
    && h <= h0 && h0 + Pow2(k0) <= h + Pow2(k)
    && forall p | InRange(p, h, k) && !InRange(p, h0, k0) :: t[p].status == Free
  }

  lemma HandStart(t: seq<Block>, h: nat, k: nat)
    requires Sound(t) && Freeable(t, h, k)
    ensures InHand(t, h, k, h, k)
  {
    assert forall p | h <= p < h + Pow2(k) :: InRange(p, h, k);
    PaintSound(t, h, k, Used);
  }

  /** Outside the block in hand the tiling under construction is the old one. */
  lemma HandBuddy(t: seq<Block>, h0: nat, k0: nat, h: nat, k: nat)
    requires InHand(t, h0, k0, h, k)
    ensures var b := Buddy(h, k); b < |t| ==> Paint(t, h, k, Used)[b] == t[b] && t[b].head == b
  {
    var u := Paint(t, h, k, Used);
    assert u[h] == Block(h, k, Used);
    BuddyIsHead(u, h);
  }

  lemma HandMerge(t: seq<Block>, h0: nat, k0: nat, h: nat, k: nat)
    requires InHand(t, h0, k0, h, k) && k < MAX_ORDER - 1
    requires var b := Buddy(h, k); b < |t| && t[b] == Block(b, k, Free)
    ensures var b := Buddy(h, k); InHand(t, h0, k0, if b < h then b else h, k + 1)
  {
    var u, b := Paint(t, h, k, Used), Buddy(h, k);
    var m := if b < h then b else h;
    assert u[b] == t[b];
    assert BlockOk(u, u[b]);
    forall p | m <= p < m + Pow2(k + 1) ensures u[p].order <= k + 1 && (!InRange(p, h, k) ==> t[p].status == Free) {
      if !InRange(p, h, k) { assert u[p] == u[b]; }
    }
    PaintSound(u, m, k + 1, Used);
    assert Paint(u, m, k + 1, Used) == Paint(t, m, k + 1, Used);
  }

  /** When the buddy test fails, handing the block over completes the free. */
  lemma HandDone(t: seq<Block>, h0: nat, k0: nat, h: nat, k: nat)
    requires Sound(t) && Maximal(t) && Freeable(t, h0, k0) && InHand(t, h0, k0, h, k)
    requires k == MAX_ORDER - 1 || (var b := Buddy(h, k); b < |t| ==> t[b] != Block(b, k, Free))
    ensures Freed(t, Paint(t, h, k, Free), h0, k0)
  {
    SoundRestatus(t, h, k);
    HandMaximal(t, h, k);
    HandFreedAt(t, h0, k0, h, k);
  }

  lemma HandFreedAt(t: seq<Block>, h0: nat, k0: nat, h: nat, k: nat)
    requires h <= h0 && h0 + Pow2(k0) <= h + Pow2(k) <= |t|
    requires forall p | InRange(p, h, k) && !InRange(p, h0, k0) :: t[p].status == Free
    ensures FreedAt(t, Paint(t, h, k, Free), h0, k0)
  {
    var v := Paint(t, h, k, Free);
    forall p | 0 <= p < |t|
      ensures v[p].status == Free <==> t[p].status == Free || InRange(p, h0, k0)
      ensures v[p].status != Free ==> v[p] == t[p]
    {
      assert InRange(p, h0, k0) ==> InRange(p, h, k);
    }
  }

  lemma HandMaximal(t: seq<Block>, h: nat, k: nat)
    requires Maximal(t) && Sound(Paint(t, h, k, Used))
    requires k < MAX_ORDER && Aligned(h, k) && h + Pow2(k) <= |t|
    requires k == MAX_ORDER - 1 || (var b := Buddy(h, k); b < |t| ==> t[b] != Block(b, k, Free))
    ensures Maximal(Paint(t, h, k, Free))
  {
    var v := Paint(t, h, k, Free);
    forall h': nat, k': nat | k' < MAX_ORDER && Aligned(h', k') && AllFree(v, h', k') ensures v[h'].order >= k' {
      if h' < h + Pow2(k) && h < h' + Pow2(k') {
        if k' <= k {
          Nested(h', k', h, k);
        } else {
          HandTop(t, h, k, h', k');
        }
      } else {
        FreeRunKept(v, t, h', k');
      }
    }
  }

  lemma SoundRestatus(t: seq<Block>, h: nat, k: nat)
    requires k < MAX_ORDER && Aligned(h, k) && h + Pow2(k) <= |t| && Sound(Paint(t, h, k, Used))
    ensures Sound(Paint(t, h, k, Free))
  {
    var u := Paint(t, h, k, Used);
    PaintSound(u, h, k, Free);
    assert Paint(u, h, k, Free) == Paint(t, h, k, Free);
  }

  /** A free run above the block in hand would need the buddy to be a free block. */
  lemma HandTop(t: seq<Block>, h: nat, k: nat, h': nat, k': nat)
    requires Maximal(t) && Sound(Paint(t, h, k, Used))
    requires k < k' < MAX_ORDER && Aligned(h, k) && h + Pow2(k) <= |t| && Aligned(h', k')
    requires AllFree(Paint(t, h, k, Free), h', k') && h' < h + Pow2(k) && h < h' + Pow2(k')
    ensures var b := Buddy(h, k); b < |t| && t[b] == Block(b, k, Free)
  {
    var b := Buddy(h, k);
    BuddyNested(h, k, h', k');
    BuddyRunFree(t, h, k, h', k', b);
    BuddyRunIsBlock(t, h, k, b);
  }

  lemma BuddyRunIsBlock(t: seq<Block>, h: nat, k: nat, b: nat)
    requires Maximal(t) && Sound(Paint(t, h, k, Used)) && k < MAX_ORDER
    requires Aligned(h, k) && h + Pow2(k) <= |t| && b == Buddy(h, k) && AllFree(t, b, k)
    ensures t[b] == Block(b, k, Free)
  {
    var u := Paint(t, h, k, Used);
    BuddyAligned(h, k);
    assert u[h] == Block(h, k, Used) && u[b] == t[b];
    BuddyIsHead(u, h);
  }

  lemma BuddyRunFree(t: seq<Block>, h: nat, k: nat, h': nat, k': nat, b: nat)
    requires AllFree(Paint(t, h, k, Free), h', k')
    requires h' <= b && b + Pow2(k) <= h' + Pow2(k')
    requires b + Pow2(k) <= h || h + Pow2(k) <= b
    ensures AllFree(t, b, k)
  {
    var v := Paint(t, h, k, Free);
    forall p | b <= p < b + Pow2(k) ensures t[p].status == Free { assert v[p] == t[p]; }
  }

  /** Freeing one block leaves every other block that is in use alone. */
  lemma FreedOthers(t: seq<Block>, u: seq<Block>, h: nat, f: nat)
    requires Sound(t) && h < |t| && t[h].head == h && Freed(t, u, h, t[h].order)
    requires f < |t| && t[f].status != Free && t[f].head != h
    ensures u[f] == t[f]
  {
    assert BlockOk(t, t[h]);
  }
}
