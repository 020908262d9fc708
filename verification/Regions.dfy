/** Which pages the region loops of the paging code visit, in 64-bit arithmetic. */
module Regions {
  import opened Bits
  import opened Entry

  function Step(huge: bool): (s: nat)
    ensures s > 0 && U64 % s == 0
  {
    if huge then HUGE_SIZE else PAGE
  }

  /** Rounds of a loop over `size` bytes when nothing wraps around */
  function Slots(size: nat, huge: bool): (n: nat) {
    (size + Step(huge) - 1) / Step(huge)
  }

  /** The value of `virtual` in round k */
  function LoopAddr(virt: nat, k: nat, huge: bool): (a: nat)
    ensures a < U64
  {
    (virt + Bytes(k, huge)) % U64
  }

  /** The loops compare with the end of the range, which may wrap around. */
  predicate Goes(virt: nat, size: nat, huge: bool, k: nat) {
    LoopAddr(virt, k, huge) < Add(virt, size)
  }

  /** The loop makes exactly n rounds. */
  ghost predicate Rounds(virt: nat, size: nat, huge: bool, n: nat) {
    (forall k: nat | k < n :: Goes(virt, size, huge, k)) && !Goes(virt, size, huge, n)
  }

  /** Page q, counted in small or large pages, holds a byte of the range. */
  ghost predicate Touches(virt: nat, size: nat, huge: bool, q: nat) {
    exists a: nat :: virt <= a < virt + size && PageNumber(a, huge) == q
  }

  function PageNumber(a: nat, huge: bool): (q: nat) { a / Step(huge) }

  /** Page q is visited in one of the first n rounds. */
  ghost predicate Visited(virt: nat, huge: bool, n: nat, q: nat) {
    exists k: nat :: k < n && PageNumber(LoopAddr(virt, k, huge), huge) == q
  }

  /** None of the first n rounds is on address 0, where the page functions halt. */
  ghost predicate AvoidsZero(virt: nat, huge: bool, n: nat) {
    forall k: nat | k < n :: LoopAddr(virt, k, huge) != 0
  }

  /** The loop ends without a halt, and it has visited exactly the pages of the range. */
  ghost predicate VisitsExactly(virt: nat, size: nat, huge: bool) {
    exists n: nat ::
      && Rounds(virt, size, huge, n) && AvoidsZero(virt, huge, n)
      && forall q: nat :: Visited(virt, huge, n, q) <==> Touches(virt, size, huge, q)
  }

  /** How many rounds visit pages: none when the end of the range wraps around */
  function Laps(virt: nat, size: nat, huge: bool): (n: nat) {
    if virt + size >= U64 then 0 else Slots(size, huge)
  }

  /** The loop ends by itself, or arrives at address 0, where the page functions halt. */
  predicate Ends(virt: nat, size: nat, huge: bool) {
    virt + size >= U64 || virt + Bytes(Slots(size, huge), huge) < U64 || virt % Step(huge) == 0
  }

  lemma SlotsBounds(size: nat, huge: bool)
    ensures var n := Slots(size, huge); Bytes(n, huge) >= size && (size > 0 ==> n > 0 && Bytes(n - 1, huge) < size)
  {
  }

  /** Round k stays below the end of a range that does not wrap around. */
  lemma LapAddr(virt: nat, size: nat, huge: bool, k: nat)
    requires virt + size < U64 && k < Slots(size, huge)
    ensures LoopAddr(virt, k, huge) == virt + Bytes(k, huge) < virt + size && Goes(virt, size, huge, k)
  {
    SlotsBounds(size, huge);
    assert Bytes(k, huge) <= Bytes(Slots(size, huge) - 1, huge);
  }

  /** Where the loop stands after its laps */
  lemma AfterLaps(virt: nat, size: nat, huge: bool)
    requires virt < U64 && size < U64
    ensures var n := Laps(virt, size, huge);
            && (forall k: nat | k < n :: Goes(virt, size, huge, k) && LoopAddr(virt, k, huge) == virt + Bytes(k, huge))
            && (virt + Bytes(n, huge) < U64 ==>
                  Rounds(virt, size, huge, n) && LoopAddr(virt, n, huge) == virt + Bytes(n, huge))
            && (virt + Bytes(n, huge) >= U64 ==>
                  n > 0 && LoopAddr(virt, n, huge) == virt + Bytes(n, huge) - U64 < Step(huge))
            && (virt + Bytes(n, huge) >= U64 ==> Goes(virt, size, huge, n))
  {
    hide LoopAddr, Goes;
    var n := Laps(virt, size, huge);
    forall k: nat | k < n ensures Goes(virt, size, huge, k) && LoopAddr(virt, k, huge) == virt + Bytes(k, huge) {
      LapAddr(virt, size, huge, k);
    }
    SlotsBounds(size, huge);
    LastAddr(virt, size, huge);
  }

  lemma LastAddr(virt: nat, size: nat, huge: bool)
    requires virt < U64 && size < U64
    ensures var n := Laps(virt, size, huge);
            && (virt + Bytes(n, huge) < U64 ==>
                  LoopAddr(virt, n, huge) == virt + Bytes(n, huge) && !Goes(virt, size, huge, n))
            && (virt + Bytes(n, huge) >= U64 ==>
                  n > 0 && LoopAddr(virt, n, huge) == virt + Bytes(n, huge) - U64 < Step(huge))
            && (virt + Bytes(n, huge) >= U64 ==> Goes(virt, size, huge, n))
  {
    SlotsBounds(size, huge);
    AddWraps(virt, size);
  }

  lemma AddWraps(a: nat, b: nat)
    requires a < U64 && b < U64
    ensures Add(a, b) == if a + b < U64 then a + b else a + b - U64
  {
  }

  lemma AlignedWrap(virt: nat, size: nat, huge: bool)
    requires virt < U64 && size < U64 && virt % Step(huge) == 0 && virt + Bytes(Laps(virt, size, huge), huge) >= U64
    ensures virt + Bytes(Laps(virt, size, huge), huge) == U64
  {
    LastAddr(virt, size, huge);
    var n := Laps(virt, size, huge);
    var x := virt + Bytes(n, huge) - U64;
    StepMultiple(virt, n, huge);
    assert x % Step(huge) == 0;
  }

  lemma StepMultiple(virt: nat, n: nat, huge: bool)
    requires virt % Step(huge) == 0 && virt + Bytes(n, huge) >= U64
    ensures (virt + Bytes(n, huge) - U64) % Step(huge) == 0
  {
  }

  // ----- when the loops do what they promise -----

  lemma VisitedPages(virt: nat, huge: bool, n: nat, q: nat)
    requires forall k: nat | k < n :: LoopAddr(virt, k, huge) == virt + Bytes(k, huge)
    ensures Visited(virt, huge, n, q) <==> PageNumber(virt, huge) <= q < PageNumber(virt, huge) + n
  {
    hide LoopAddr;
    forall k: nat | k < n ensures PageNumber(LoopAddr(virt, k, huge), huge) == PageNumber(virt, huge) + k {
      PageAfter(virt, k, huge);
    }
    if PageNumber(virt, huge) <= q < PageNumber(virt, huge) + n {
      var k := q - PageNumber(virt, huge);
      assert PageNumber(LoopAddr(virt, k, huge), huge) == q;
    }
  }

  lemma PageAfter(virt: nat, k: nat, huge: bool)
    ensures PageNumber(virt + Bytes(k, huge), huge) == PageNumber(virt, huge) + k
  {
  }

  lemma TouchedPages(virt: nat, size: nat, huge: bool, q: nat)
    requires size > 0
    ensures Touches(virt, size, huge, q) <==> PageNumber(virt, huge) <= q <= PageNumber(virt + size - 1, huge)
  {
    if PageNumber(virt, huge) <= q <= PageNumber(virt + size - 1, huge) {
      var a := if q == PageNumber(virt, huge) then virt else q * Step(huge);
      assert PageNumber(a, huge) == q && virt <= a;
      assert a < virt + size;
    }
  }

  lemma RoundsUnique(virt: nat, size: nat, huge: bool, n: nat, m: nat)
    requires Rounds(virt, size, huge, n) && Rounds(virt, size, huge, m)
    ensures n == m
  {
    assert n < m ==> Goes(virt, size, huge, n);
    assert m < n ==> Goes(virt, size, huge, m);
  }

  /** The last page of the range is the last page visited exactly when the offset into the first page fits. */
  lemma LastPage(virt: nat, size: nat, huge: bool)
    requires size > 0
    ensures var n := Slots(size, huge);
            && PageNumber(virt + size - 1, huge) >= PageNumber(virt, huge) + n - 1
            && (PageNumber(virt + size - 1, huge) == PageNumber(virt, huge) + n - 1 <==>
                  virt % Step(huge) + size <= Bytes(n, huge))
  {
    SlotsBounds(size, huge);
    var n, s := Slots(size, huge), Step(huge);
    QuotientSum(virt, size - 1, s);
    assert (virt % s + size - 1) / s < n <==> virt % s + size <= Bytes(n, huge);
  }

  lemma QuotientSum(a: nat, d: nat, s: nat)
    requires s == PAGE || s == HUGE_SIZE
    ensures (a + d) / s == a / s + (a % s + d) / s
  {
  }

  /**
   The loops end after visiting exactly the pages of the byte range if and only if the range is empty, or it does
   not start at address 0, no round wraps around, and the offset into the first page fits.
   */
  lemma RegionCovered(virt: nat, size: nat, huge: bool)
    requires virt < U64 && size < U64
    ensures VisitsExactly(virt, size, huge) <==>
            var bytes := Bytes(Slots(size, huge), huge);
            size == 0 || (virt != 0 && virt + bytes < U64 && virt % Step(huge) + size <= bytes)
  {
    if size == 0 {
      EmptyRegion(virt, huge);
    } else if virt + size >= U64 {
      WrappedRegion(virt, size, huge);
    } else if virt + Bytes(Slots(size, huge), huge) >= U64 {
      RunsOn(virt, size, huge);
    } else if virt == 0 {
      ZeroRegion(size, huge);
    } else {
      PlainRegion(virt, size, huge);
    }
  }

  /** A range that starts at address 0 halts in its first round. */
  lemma ZeroRegion(size: nat, huge: bool)
    requires 0 < size && size < U64
    ensures Goes(0, size, huge, 0) && LoopAddr(0, 0, huge) == 0 && !VisitsExactly(0, size, huge)
  {
    assert LoopAddr(0, 0, huge) == 0 < Add(0, size);
    forall n: nat | Rounds(0, size, huge, n) ensures !AvoidsZero(0, huge, n) {
      assert n > 0;
      assert LoopAddr(0, 0, huge) == 0;
    }
  }

  lemma EmptyRegion(virt: nat, huge: bool)
    requires virt < U64
    ensures VisitsExactly(virt, 0, huge)
  {
    AfterLaps(virt, 0, huge);
    assert Rounds(virt, 0, huge, 0);
    assert forall q: nat :: !Visited(virt, huge, 0, q) && !Touches(virt, 0, huge, q);
  }

  /** When the end of the range wraps around the loop makes no round at all. */
  lemma WrappedRegion(virt: nat, size: nat, huge: bool)
    requires virt < U64 && 0 < size < U64 && virt + size >= U64
    ensures Rounds(virt, size, huge, 0) && !VisitsExactly(virt, size, huge)
  {
    AfterLaps(virt, size, huge);
    var q := PageNumber(virt, huge);
    assert Touches(virt, size, huge, q);
    forall n: nat | Rounds(virt, size, huge, n) ensures !Visited(virt, huge, n, q) {
      RoundsUnique(virt, size, huge, n, 0);
    }
  }

  /** When a round wraps around there is no last round. */
  lemma RunsOn(virt: nat, size: nat, huge: bool)
    requires virt + size < U64 && virt + Bytes(Slots(size, huge), huge) >= U64
    ensures !VisitsExactly(virt, size, huge)
  {
    forall m: nat ensures !Rounds(virt, size, huge, m) { RegionRunsAway(virt, size, huge, m); }
  }

  lemma NoZero(virt: nat, n: nat, huge: bool)
    requires 0 < virt && virt + Bytes(n, huge) < U64
    ensures AvoidsZero(virt, huge, n)
  {
    forall k: nat | k < n ensures LoopAddr(virt, k, huge) != 0 { assert Bytes(k, huge) <= Bytes(n, huge); }
  }

  lemma PlainRegion(virt: nat, size: nat, huge: bool)
    requires 0 < size && 0 < virt && virt + Bytes(Slots(size, huge), huge) < U64
    ensures VisitsExactly(virt, size, huge) <==> virt % Step(huge) + size <= Bytes(Slots(size, huge), huge)
  {
    hide LoopAddr, Goes, PageNumber;
    var n := Slots(size, huge);
    SlotsBounds(size, huge);
    AfterLaps(virt, size, huge);
    LastPage(virt, size, huge);
    forall q: nat ensures Visited(virt, huge, n, q) <==> PageNumber(virt, huge) <= q < PageNumber(virt, huge) + n {
      VisitedPages(virt, huge, n, q);
    }
    forall q: nat
      ensures Touches(virt, size, huge, q) <==> PageNumber(virt, huge) <= q <= PageNumber(virt + size - 1, huge)
    {
      TouchedPages(virt, size, huge, q);
    }
    forall m: nat | Rounds(virt, size, huge, m) ensures m == n { RoundsUnique(virt, size, huge, m, n); }
    NoZero(virt, n, huge);
    var last := PageNumber(virt + size - 1, huge);
    assert last != PageNumber(virt, huge) + n - 1 ==> Touches(virt, size, huge, last) && !Visited(virt, huge, n, last);
  }

  /**
   When a round wraps around, the loop goes on for ever: an aligned one arrives at address 0, where the page
   functions halt, and an unaligned one never does.
   */
  lemma RegionRunsAway(virt: nat, size: nat, huge: bool, k: nat)
    requires virt + size < U64 && virt + Bytes(Slots(size, huge), huge) >= U64
    ensures Goes(virt, size, huge, k)
    ensures if virt % Step(huge) == 0 then LoopAddr(virt, Slots(size, huge), huge) == 0
            else LoopAddr(virt, k, huge) != 0
  {
    AfterLaps(virt, size, huge);
    SlotsBounds(size, huge);
    var n := Slots(size, huge);
    var last := virt + Bytes(n - 1, huge);
    Congruent(virt, k, huge);
    Congruent(virt, n - 1, huge);
    SameResidue(LoopAddr(virt, k, huge), last, huge);
    if virt % Step(huge) == 0 { AlignedWrap(virt, size, huge); }
  }

  lemma Congruent(virt: nat, k: nat, huge: bool)
    ensures LoopAddr(virt, k, huge) % Step(huge) == virt % Step(huge)
  {
    var x := virt + Bytes(k, huge);
    assert x % Step(huge) == virt % Step(huge);
    ModMod(x, Step(huge));
  }

  lemma ModMod(x: nat, s: nat)
    requires s == PAGE || s == HUGE_SIZE
    ensures (x % U64) % s == x % s
  {
  }

  /** Of all addresses with one residue the last page holds the largest. */
  lemma SameResidue(a: nat, last: nat, huge: bool)
    requires a < U64 && last < U64 && a % Step(huge) == last % Step(huge) && last + Step(huge) >= U64
    ensures a <= last
  {
  }

  /** Pages that the loops do not visit: for an unaligned start, at the end of the address space, and at address 0. */
  lemma RegionMisses()
    ensures !VisitsExactly(1, PAGE, false) && !VisitsExactly(0xFFFF_FFFF_FFFF_F000, PAGE, false)
    ensures !VisitsExactly(0x1000, HUGE_SIZE, true) && !VisitsExactly(0, PAGE, false)
  {
    RegionCovered(1, PAGE, false);
    RegionCovered(0xFFFF_FFFF_FFFF_F000, PAGE, false);
    RegionCovered(0x1000, HUGE_SIZE, true);
    RegionCovered(0, PAGE, false);
  }
}
