/** pmm_init: building the allocator from the boot loader's memory map. */
module Boot {
  import opened Bits
  import opened Tiling
  import opened Pmm

  datatype Kind = Usable | BootloaderReclaimable | ExecutableAndModules | Framebuffer
                | AcpiTables | AcpiReclaimable | AcpiNvs | OtherKind

  datatype Entry = Entry(base: nat, length: nat, kind: Kind) {
    function End(): nat { base + length }
  }

  /** sizeof(struct pmm_page) */
  const DESCRIPTOR_SIZE: nat := 32

  /** What the Limine boot protocol promises: entries sorted by base, usable ones overlapping nothing. */
  ghost predicate MapOk(es: seq<Entry>) {
    forall i, j | 0 <= i < j < |es| ::
      es[i].base <= es[j].base && (es[i].kind == Usable || es[j].kind == Usable ==> es[i].End() <= es[j].base)
  }

  /** The frame lies wholly inside a usable entry. */
  ghost predicate WholeFrame(e: Entry, f: nat) {
    e.kind == Usable && e.base <= f * PAGE && (f + 1) * PAGE <= e.End()
  }

  /** The frames that the first n entries give to the allocator */
  ghost predicate Given(es: seq<Entry>, n: nat, f: nat)
    requires n <= |es|
  {
    f != 0 && exists i | 0 <= i < n :: WholeFrame(es[i], f)
  }

  /** Entry k is of a RAM kind and no entry behind it is. */
  ghost predicate LastRam(es: seq<Entry>, k: nat) {
    && k < |es| && es[k].kind != OtherKind
    && forall j | k < j < |es| :: es[j].kind == OtherKind
  }

  /** The end of the last entry of a RAM kind, 0 without one */
  function RamEnd(es: seq<Entry>): (a: nat) {
    if es == [] then 0
    else var e := es[|es| - 1]; if e.kind != OtherKind then e.End() else RamEnd(es[..|es| - 1])
  }

  lemma {:induction false} RamEndLast(es: seq<Entry>, k: nat)
    requires LastRam(es, k)
    ensures RamEnd(es) == es[k].End()
  {
    if k < |es| - 1 { RamEndLast(es[..|es| - 1], k); }
  }

  lemma {:induction false} RamEndNone(es: seq<Entry>)
    requires forall k | 0 <= k < |es| :: es[k].kind == OtherKind
    ensures RamEnd(es) == 0
  {
    if es != [] { RamEndNone(es[..|es| - 1]); }
  }

  /** The first loop. For a sorted map the last RAM entry bounds every usable one. */
  method HighestAddress(es: seq<Entry>) returns (a: nat)
    requires MapOk(es)
    ensures a == RamEnd(es) && forall i | 0 <= i < |es| && es[i].kind == Usable :: es[i].End() <= a
    ensures forall k: nat | LastRam(es, k) :: a == es[k].End()
    ensures (forall k | 0 <= k < |es| :: es[k].kind == OtherKind) ==> a == 0
  {
    a := 0;
    var n := 0;
    while n < |es|
      invariant 0 <= n <= |es| && a == RamEnd(es[..n])
      invariant forall i | 0 <= i < n && es[i].kind == Usable :: es[i].End() <= a
    {
      if es[n].kind != OtherKind { a := es[n].End(); }
      assert es[..n + 1][..n] == es[..n];
      n := n + 1;
    }
    assert es[..n] == es;
    forall k: nat | LastRam(es, k) ensures a == es[k].End() { RamEndLast(es, k); }
    if forall k | 0 <= k < |es| :: es[k].kind == OtherKind { RamEndNone(es); }
  }

  /** The first usable entry that is large enough for the page array */
  ghost predicate IsHome(es: seq<Entry>, size: nat, i: nat) {
    && i < |es| && es[i].kind == Usable && es[i].length >= size
    && forall j | 0 <= j < i :: es[j].kind == Usable ==> es[j].length < size
  }

  /** The map without the page array: the home entry starts `size` bytes later, its end stays. */
  ghost predicate CutOff(es: seq<Entry>, size: nat, i: nat, rest: seq<Entry>) {
    && i < |es| == |rest|
    && rest[i].base == es[i].base + size && rest[i].End() == es[i].End() && rest[i].kind == es[i].kind
    && forall j | 0 <= j < |es| && j != i :: rest[j] == es[j]
  }

  /** A frame other than 0 inside a usable entry and clear of the `size` bytes at the start of entry i */
  ghost predicate Spared(es: seq<Entry>, size: nat, i: nat, f: nat)
    requires i < |es|
  {
    && f != 0 && (exists j | 0 <= j < |es| :: WholeFrame(es[j], f))
    && ((f + 1) * PAGE <= es[i].base || es[i].base + size <= f * PAGE)
  }

  /** What the map without the page array gives is what the whole map gives clear of the array. */
  lemma CutOffGives(es: seq<Entry>, size: nat, i: nat, rest: seq<Entry>, f: nat)
    requires MapOk(es) && IsHome(es, size, i) && CutOff(es, size, i, rest)
    ensures Given(rest, |rest|, f) <==> Spared(es, size, i, f)
  {
    assert forall j | 0 <= j < |es| && j != i :: WholeFrame(rest[j], f) <==> WholeFrame(es[j], f);
    assert WholeFrame(rest[i], f) <==> WholeFrame(es[i], f) && es[i].base + size <= f * PAGE;
  }

  /** The second loop: the page array is cut off the start of its entry. */
  method PlaceArray(es: seq<Entry>, size: nat) returns (found: bool, rest: seq<Entry>)
    requires MapOk(es)
    ensures MapOk(rest)
    ensures found <==> exists i: nat :: IsHome(es, size, i)
    ensures forall i: nat | IsHome(es, size, i) :: CutOff(es, size, i, rest)
    ensures !found ==> rest == es
  {
    var n := 0;
    while n < |es|
      invariant 0 <= n <= |es|
      invariant forall j | 0 <= j < n :: es[j].kind == Usable ==> es[j].length < size
    {
      if es[n].kind == Usable && es[n].length >= size {
        assert IsHome(es, size, n);
        return true, es[n := Entry(es[n].base + size, es[n].length - size, es[n].kind)];
      }
      n := n + 1;
    }
    return false, es;
  }

  /** The largest block that starts at frame c and ends by frame `last` */
  method SeedOrder(c: nat, last: nat) returns (order: nat)
    requires c < last
    ensures order < MAX_ORDER && Aligned(c, order) && c + Pow2(order) <= last
    ensures forall o | order < o < MAX_ORDER :: !(Aligned(c, o) && c + Pow2(o) <= last)
  {
    order := MAX_ORDER - 1;
    while order > 0
      invariant 0 <= order < MAX_ORDER
      invariant forall o | order < o < MAX_ORDER :: !(Aligned(c, o) && c + Pow2(o) <= last)
    {
      var phys, size := c * PAGE, PAGE * Pow2(order);
      SeedTest(c, order);
      if And(phys, size - 1) == 0 && phys + size <= last * PAGE { return; }
      order := order - 1;
    }
    AlignedZero(c);
  }

  lemma SeedTest(c: nat, k: nat)
    ensures And(c * PAGE, PAGE * Pow2(k) - 1) == 0 <==> Aligned(c, k)
  {
    AlignedFrames(c, k);
    AndMask(4096 * c, 12 + k);
    AlignedIffMod(4096 * c, 12 + k);
  }

  /** u is t with exactly the frames lo .. hi given to the allocator. */
  ghost predicate Seeded(t: seq<Block>, u: seq<Block>, lo: nat, hi: nat) {
    && |u| == |t|
    && (forall f | 0 <= f < |t| :: u[f].status == Free <==> t[f].status == Free || lo <= f < hi)
    && (forall f | 0 <= f < |t| && u[f].status != Free :: u[f] == t[f])
  }

  lemma SeededNone(t: seq<Block>, lo: nat)
    ensures Seeded(t, t, lo, lo)
  {
  }

  lemma SeededEmpty(t: seq<Block>, u: seq<Block>, lo: nat, hi: nat)
    requires Seeded(t, u, lo, lo) && hi <= lo
    ensures Seeded(t, u, lo, hi)
  {
  }

  lemma SeededMore(t: seq<Block>, u: seq<Block>, v: seq<Block>, lo: nat, c: nat, k: nat)
    requires Seeded(t, u, lo, c) && FreedAt(u, v, c, k) && lo <= c
    ensures Seeded(t, v, lo, c + Pow2(k))
  {
    forall f | 0 <= f < |t| ensures InRange(f, c, k) <==> c <= f < c + Pow2(k) {}
  }

  lemma SeedFreeable(t: seq<Block>, u: seq<Block>, lo: nat, c: nat, last: nat, k: nat)
    requires Seeded(t, u, lo, c) && last <= |t| && c + Pow2(k) <= last && k < MAX_ORDER && Aligned(c, k) && lo <= c
    requires forall f | lo <= f < last :: t[f] == Block(f, 0, Reserved)
    ensures Freeable(u, c, k)
  {
    forall p | InRange(p, c, k) ensures u[p].status != Free && u[p].order <= k {
      assert t[p] == Block(p, 0, Reserved);
    }
  }

  /** The greedy loop over the whole frames lo .. last */
  method SeedFrames(b: Buddies, start: nat, end: nat)
    requires b.Valid() && start % PAGE == 0 && end % PAGE == 0 && start > 0
    requires end / PAGE <= b.total
    requires forall f | start / PAGE <= f < end / PAGE :: b.t[f] == Block(f, 0, Reserved)
    modifies b.pages, b.links, b.nrFree, b`lists, b`t
    ensures b.Valid() && Seeded(old(b.t), b.t, start / PAGE, end / PAGE)
  {
    hide Sound, Maximal, BuddyStore.Store, FreedAt, Pow2, Seeded;
    FrameOrder(start, end);
    SeededNone(b.t, start / PAGE);
    ghost var t0, lo, last := b.t, start / PAGE, end / PAGE;
    var phys := start;
    while phys < end
      invariant phys % PAGE == 0 && lo <= phys / PAGE && start <= phys
      invariant if start <= end then phys <= end else phys == start
      invariant b.Valid() && Seeded(t0, b.t, lo, phys / PAGE)
      decreases end - phys
    {
      var c := phys / PAGE;
      var order := SeedOrder(c, end / PAGE);
      SeedFreeable(t0, b.t, lo, c, last, order);
      ghost var u := b.t;
      b.FreePages(phys, order);
      SeededMore(t0, u, b.t, lo, c, order);
      FrameStep(phys, end, Pow2(order));
      phys := phys + PAGE * Pow2(order);
    }
    if start > end { SeededEmpty(t0, b.t, lo, last); }
  }

  lemma FrameOrder(a: nat, b: nat)
    requires a % PAGE == 0 && b % PAGE == 0
    ensures a < b <==> a / PAGE < b / PAGE
  {
  }

  lemma FrameStep(phys: nat, end: nat, n: nat)
    requires phys % PAGE == 0 && end % PAGE == 0 && phys / PAGE + n <= end / PAGE
    ensures var next := phys + PAGE * n; next % PAGE == 0 && next / PAGE == phys / PAGE + n && next <= end
  {
  }

  /** The entry rounded inwards to whole frames, without frame 0 */
  method WholeFrames(e: Entry) returns (start: nat, end: nat)
    requires e.kind == Usable
    ensures start % PAGE == 0 && end % PAGE == 0 && start > 0 && end <= e.End()
    ensures forall f: nat :: f != 0 && WholeFrame(e, f) <==> start / PAGE <= f < end / PAGE
  {
    start, end := e.base, e.base + e.length;
    if start % PAGE != 0 { start := start + PAGE - start % PAGE; }
    if end % PAGE != 0 { end := end - end % PAGE; }
    if start == 0 { start := start + PAGE; }
  }

  /** One usable entry: its whole frames, except frame 0, become free, each once. */
  method SeedRegion(b: Buddies, e: Entry)
    requires b.Valid() && e.kind == Usable && e.End() <= b.total * PAGE
    requires forall f: nat | f < b.total && WholeFrame(e, f) :: b.t[f] == Block(f, 0, Reserved)
    modifies b.pages, b.links, b.nrFree, b`lists, b`t
    ensures b.Valid() && |b.t| == |old(b.t)|
    ensures forall f: nat | f < |b.t| ::
              b.t[f].status == Free <==> old(b.t)[f].status == Free || (f != 0 && WholeFrame(e, f))
    ensures forall f: nat | f < |b.t| && b.t[f].status != Free :: b.t[f] == old(b.t)[f]
  {
    hide Sound, Maximal, BuddyStore.Store, WholeFrame;
    var start, end := WholeFrames(e);
    SeedFrames(b, start, end);
  }

  /** Two usable entries share no frame. */
  lemma FramesApart(es: seq<Entry>, i: nat, j: nat, f: nat)
    requires MapOk(es) && i < j < |es| && WholeFrame(es[j], f)
    ensures !WholeFrame(es[i], f)
  {
  }

  /** The seeding loop over the memory map */
  method Seed(b: Buddies, es: seq<Entry>)
    requires b.Valid() && MapOk(es)
    requires forall i | 0 <= i < |es| && es[i].kind == Usable :: es[i].End() <= b.total * PAGE
    requires forall f | 0 <= f < b.total :: b.t[f] == Block(f, 0, Reserved)
    modifies b.pages, b.links, b.nrFree, b`lists, b`t
    ensures b.Valid() && |b.t| == |old(b.t)|
    ensures forall f: nat | f < |b.t| ::
              if Given(es, |es|, f) then b.t[f].status == Free else b.t[f] == Block(f, 0, Reserved)
  {
    hide Sound, Maximal, BuddyStore.Store, BuddyStore.Held;
    var n := 0;
    while n < |es|
      invariant 0 <= n <= |es| && b.Valid() && |b.t| == |old(b.t)|
      invariant forall f: nat | f < |b.t| ::
                  if Given(es, n, f) then b.t[f].status == Free else b.t[f] == Block(f, 0, Reserved)
    {
      if es[n].kind == Usable {
        forall f: nat | f < |b.t| && WholeFrame(es[n], f) ensures b.t[f] == Block(f, 0, Reserved) {
          forall i | 0 <= i < n ensures !WholeFrame(es[i], f) { FramesApart(es, i, n, f); }
        }
        SeedRegion(b, es[n]);
      }
      n := n + 1;
    }
  }

  /**
   pmm_init. It fails when no usable entry holds the page array. Otherwise the free frames are exactly
   the whole frames of the usable entries, other than frame 0 and those the page array takes, and
   every other frame stays reserved.
   */
  method Init(es: seq<Entry>) returns (b: Buddies?, total: nat)
    requires MapOk(es)
    ensures total == (RamEnd(es) + PAGE - 1) / PAGE
    ensures b == null <==> forall i | 0 <= i < |es| && es[i].kind == Usable :: es[i].length < total * DESCRIPTOR_SIZE
    ensures forall i | 0 <= i < |es| && es[i].kind == Usable :: es[i].End() <= total * PAGE
    ensures b != null ==> fresh(b) && b.Valid() && b.total == total
    ensures b != null ==>
              forall i: nat | IsHome(es, total * DESCRIPTOR_SIZE, i) ::
                forall f: nat | f < total ::
                  if Spared(es, total * DESCRIPTOR_SIZE, i, f)
                  then b.t[f].status == Free
                  else b.t[f] == Block(f, 0, Reserved)
  {
    hide Sound, Maximal, BuddyStore.Store, Given, Spared;
    var highest := HighestAddress(es);
    total := highest / PAGE;
    if highest % PAGE != 0 { total := total + 1; }
    var found, rest := PlaceArray(es, total * DESCRIPTOR_SIZE);
    if !found {
      NoHome(es, total * DESCRIPTOR_SIZE);
      return null, total;
    }
    ghost var i: nat :| IsHome(es, total * DESCRIPTOR_SIZE, i);
    b := new Buddies(total);
    Seed(b, rest);
    forall f: nat | f < total ensures Given(rest, |rest|, f) <==> Spared(es, total * DESCRIPTOR_SIZE, i, f) {
      CutOffGives(es, total * DESCRIPTOR_SIZE, i, rest, f);
    }
  }

  lemma NoHome(es: seq<Entry>, size: nat)
    requires !exists i: nat :: IsHome(es, size, i)
    ensures forall i | 0 <= i < |es| && es[i].kind == Usable :: es[i].length < size
  {
    var n := 0;
    while n < |es|
      invariant 0 <= n <= |es|
      invariant forall j | 0 <= j < n :: es[j].kind == Usable ==> es[j].length < size
    {
      assert !IsHome(es, size, n);
      n := n + 1;
    }
  }
}
