/** The area list of an address space: first-fit placement, look-up and removal. */
module Areas {
  import opened Bits
  import opened Seqs

  const USER_START: nat := 0x1000
  const USER_END: nat := 0x7FFF_FFFF_FFFF
  const KERNEL_START: nat := 0xFFFF_C000_0000_0000
  const KERNEL_END: nat := 0xFFFF_FFFF_7FFF_FFFF

  /** struct vm_area */
  datatype Area = Area(base: nat, size: nat, flags: nat) {
    function End(): nat { base + size }
    predicate Has(addr: nat) { base <= addr < base + size }
  }

  /** Page-aligned, in address order, pairwise disjoint, and not below the region */
  ghost predicate Sorted(areas: seq<Area>, start: nat) {
    && (forall i | 0 <= i < |areas| ::
          areas[i].base % PAGE == 0 && areas[i].size % PAGE == 0 && areas[i].size > 0 && areas[i].base >= start)
    && (forall i, j | 0 <= i < j < |areas| :: areas[i].End() <= areas[j].base)
  }

  ghost predicate FreeAt(areas: seq<Area>, a: nat, size: nat) {
    forall i | 0 <= i < |areas| :: a + size <= areas[i].base || areas[i].End() <= a
  }

  /** The lowest address from start on where `size` bytes meet no area */
  ghost predicate LowestFit(areas: seq<Area>, start: nat, size: nat, a: nat) {
    && start <= a && FreeAt(areas, a, size)
    && forall b: nat | start <= b < a :: !FreeAt(areas, b, size)
  }

  /** A gap for `size` bytes inside the region */
  ghost predicate HasGap(areas: seq<Area>, start: nat, end: nat, size: nat) {
    exists a: nat :: start <= a && a + size <= end && FreeAt(areas, a, size)
  }

  /** `base + size` of an area, in 64-bit arithmetic */
  function EndWord(a: Area): (e: nat) { Add(a.base, a.size) }

  /** The search of vmm_alloc from area i on: success, the place in the list, and the address */
  function Search(areas: seq<Area>, i: nat, candidate: nat, end: nat, size: nat): (r: (bool, nat, nat))
    requires i <= |areas|
    decreases |areas| - i
  {
    if i == |areas| then (true, i, candidate)
    else if areas[i].base >= Add(candidate, size) && Add(candidate, size) <= end then (true, i, candidate)
    else if EndWord(areas[i]) >= end then (false, i, EndWord(areas[i]))
    else Search(areas, i + 1, EndWord(areas[i]), end, size)
  }

  /** Areas end below 2^64, as all areas inside a region do. */
  ghost predicate Words(areas: seq<Area>) {
    forall i | 0 <= i < |areas| :: areas[i].End() < U64
  }

  /** Where the search stands when it looks at area j */
  function Candidate(areas: seq<Area>, start: nat, j: nat): (c: nat)
    requires j <= |areas|
  {
    if j == 0 then start else areas[j - 1].End()
  }

  /** The hole before area j takes `size` bytes and ends inside the region. */
  ghost predicate Hole(areas: seq<Area>, start: nat, end: nat, size: nat, j: nat)
    requires j < |areas|
  {
    var e := Candidate(areas, start, j) + size; e <= areas[j].base && e <= end
  }

  /**
   The inputs on which the search goes wrong: no hole before any area takes the size, and the size is so large
   that the sum at the last area wraps around.
   */
  ghost predicate Overruns(areas: seq<Area>, start: nat, end: nat, size: nat) {
    && areas != [] && (forall j: nat | j < |areas| :: !Hole(areas, start, end, size, j))
    && Candidate(areas, start, |areas| - 1) + size >= U64
  }

  /** Where the search stands at area i: no lower address is free, and the areas before i end here at the latest. */
  ghost predicate AtArea(areas: seq<Area>, i: nat, start: nat, size: nat, candidate: nat) {
    && i <= |areas| && start <= candidate && candidate == Candidate(areas, start, i)
    && (forall j | 0 <= j < i :: areas[j].End() <= candidate)
    && (forall b: nat | start <= b < candidate :: !FreeAt(areas, b, size))
  }

  lemma PassArea(areas: seq<Area>, i: nat, start: nat, size: nat, candidate: nat)
    requires Sorted(areas, start) && AtArea(areas, i, start, size, candidate) && i < |areas|
    requires areas[i].base < candidate + size
    ensures AtArea(areas, i + 1, start, size, areas[i].End())
  {
    forall b: nat | candidate <= b < areas[i].End() ensures !FreeAt(areas, b, size) {
      assert !(b + size <= areas[i].base || areas[i].End() <= b);
    }
  }

  lemma NoGapHere(areas: seq<Area>, i: nat, start: nat, end: nat, size: nat, candidate: nat)
    requires Sorted(areas, start) && AtArea(areas, i, start, size, candidate) && i < |areas| && areas[i].End() >= end
    requires size > 0
    requires areas[i].base < candidate + size || end < candidate + size
    ensures !HasGap(areas, start, end, size)
  {
    forall b: nat | start <= b && b + size <= end ensures !FreeAt(areas, b, size) {
      if candidate <= b { assert !(b + size <= areas[i].base || areas[i].End() <= b); }
    }
  }

  /** The search gives the lowest fit, or an address where the sum wraps around and an area is met. */
  lemma {:induction false} SearchLowest(areas: seq<Area>, i: nat, start: nat, end: nat, size: nat, candidate: nat)
    requires Sorted(areas, start) && Words(areas) && 0 < size < U64 && end < U64
    requires AtArea(areas, i, start, size, candidate)
    ensures var (found, k, a) := Search(areas, i, candidate, end, size);
            if !found then !HasGap(areas, start, end, size)
            else
              && i <= k <= |areas| && a == Candidate(areas, start, k)
              && (forall j: nat | i <= j < k :: !Hole(areas, start, end, size, j))
              && if k < |areas| && a + size >= U64 then !FreeAt(areas, a, size) else Fits(areas, start, end, size, k, a)
    decreases |areas| - i
  {
    hide Add, HasGap, Fits, FreeAt, AtArea, Sorted;
    AtCandidate(areas, i, start, size, candidate);
    if i == |areas| {
      LastPlace(areas, start, end, size, candidate);
    } else if areas[i].base >= Add(candidate, size) && Add(candidate, size) <= end {
      AcceptedPlace(areas, i, start, end, size, candidate);
    } else {
      assert !Hole(areas, start, end, size, i);
      assert EndWord(areas[i]) == areas[i].End();
      if areas[i].base < candidate + size { PassArea(areas, i, start, size, candidate); }
      if areas[i].End() >= end {
        NoGapHere(areas, i, start, end, size, candidate);
      } else {
        EndBehindBase(areas, i, start);
        SearchLowest(areas, i + 1, start, end, size, areas[i].End());
      }
    }
  }

  lemma AtCandidate(areas: seq<Area>, i: nat, start: nat, size: nat, candidate: nat)
    requires AtArea(areas, i, start, size, candidate)
    ensures i <= |areas| && candidate == Candidate(areas, start, i)
  {
  }

  lemma EndBehindBase(areas: seq<Area>, i: nat, start: nat)
    requires Sorted(areas, start) && i < |areas|
    ensures areas[i].base < areas[i].End()
  {
  }

  lemma LastPlace(areas: seq<Area>, start: nat, end: nat, size: nat, candidate: nat)
    requires Sorted(areas, start) && AtArea(areas, |areas|, start, size, candidate)
    ensures Fits(areas, start, end, size, |areas|, candidate)
  {
  }

  lemma AcceptedPlace(areas: seq<Area>, i: nat, start: nat, end: nat, size: nat, candidate: nat)
    requires Sorted(areas, start) && Words(areas) && AtArea(areas, i, start, size, candidate) && i < |areas| && 0 < size
    requires areas[i].base >= Add(candidate, size) && Add(candidate, size) <= end
    ensures if candidate + size >= U64 then !FreeAt(areas, candidate, size)
            else Fits(areas, start, end, size, i, candidate)
  {
    hide Add;
    CandidateGrows(areas, start, i, i);
    assert candidate + size >= U64 ==> !(candidate + size <= areas[i].base || areas[i].End() <= candidate);
  }

  /** Address a is the lowest fit, between area k - 1 and area k; only behind the last area the end is not looked at. */
  ghost predicate Fits(areas: seq<Area>, start: nat, end: nat, size: nat, k: nat, a: nat) {
    && k <= |areas| && LowestFit(areas, start, size, a) && a == Candidate(areas, start, k)
    && (forall j | 0 <= j < k :: areas[j].End() <= a)
    && (forall j | k <= j < |areas| :: a + size <= areas[j].base)
    && (k < |areas| ==> a + size <= end)
  }

  /** Candidates grow along the list. */
  lemma CandidateGrows(areas: seq<Area>, start: nat, j: nat, k: nat)
    requires Sorted(areas, start) && j <= k <= |areas|
    ensures start <= Candidate(areas, start, j) <= Candidate(areas, start, k)
    ensures k < |areas| ==> Candidate(areas, start, k) <= areas[k].base
  {
    assert 0 < j < k ==> areas[j - 1].End() <= areas[k - 1].base;
    assert 0 < k < |areas| ==> areas[k - 1].End() <= areas[k].base;
  }

  /** A sum that wraps around looks like a hole. */
  lemma WrappedHole(areas: seq<Area>, start: nat, end: nat, size: nat, j: nat)
    requires Sorted(areas, start) && Words(areas) && start < U64 && 0 < size < U64 && j < |areas|
    requires areas[j].End() < end
    requires Candidate(areas, start, j) + size >= U64
    ensures var c := Candidate(areas, start, j); areas[j].base >= Add(c, size) && Add(c, size) <= end
  {
    CandidateGrows(areas, start, j, j);
    var c := Candidate(areas, start, j);
    assert c < U64;
    assert Add(c, size) == c + size - U64;
  }

  /**
   Over areas that end before the region does, vmm_alloc finds a place, and the place is the lowest fit if and
   only if the input is not one of those where the search goes wrong; then it lies over an area.
   */
  lemma SearchRight(areas: seq<Area>, start: nat, end: nat, size: nat)
    requires Sorted(areas, start) && 0 < size < U64 && start < U64 && end < U64
    requires forall j | 0 <= j < |areas| :: areas[j].End() < end
    ensures var (found, k, a) := Search(areas, 0, start, end, size);
            && found && k <= |areas|
            && if Overruns(areas, start, end, size) then a + size >= U64 && !FreeAt(areas, a, size)
               else Fits(areas, start, end, size, k, a)
  {
    hide Add, Fits, FreeAt;
    NeverRefuses(areas, 0, start, end, size);
    SearchLowest(areas, 0, start, end, size, start);
    var (found, k, a) := Search(areas, 0, start, end, size);
    if k < |areas| && a + size >= U64 {
      CandidateGrows(areas, start, k, |areas| - 1);
      forall j: nat | j < |areas| ensures !Hole(areas, start, end, size, j) {
        if k <= j { CandidateGrows(areas, start, k, j); }
      }
    } else if Overruns(areas, start, end, size) {
      StopsAtWrap(areas, 0, start, end, size);
    }
  }

  /**
   From area i on, with no hole left and a sum that wraps around at the last area, the search stops before the end of
   the list.
   */
  lemma {:induction false} StopsAtWrap(areas: seq<Area>, i: nat, start: nat, end: nat, size: nat)
    requires Sorted(areas, start) && Words(areas) && 0 < size < U64 && start < U64 && end < U64 && i < |areas|
    requires (forall j | 0 <= j < |areas| :: areas[j].End() < end) && Overruns(areas, start, end, size)
    ensures var (found, k, a) := Search(areas, i, Candidate(areas, start, i), end, size);
            found && k < |areas| && a == Candidate(areas, start, k) && a + size >= U64
    decreases |areas| - i
  {
    hide Add;
    var c := Candidate(areas, start, i);
    if c + size >= U64 {
      WrappedHole(areas, start, end, size, i);
    } else {
      assert !Hole(areas, start, end, size, i);
      StopsAtWrap(areas, i + 1, start, end, size);
    }
  }

  /** With a gap in the region the search is right. */
  lemma GapIsRight(areas: seq<Area>, start: nat, end: nat, size: nat)
    requires Sorted(areas, start) && end < U64 && HasGap(areas, start, end, size)
    ensures !Overruns(areas, start, end, size)
  {
    var b: nat :| start <= b && b + size <= end && FreeAt(areas, b, size);
    if Overruns(areas, start, end, size) { GapIsHole(areas, |areas| - 1, start, end, size, b); }
  }

  /** A free place lies behind the first j areas, unless there is a hole before one of them. */
  lemma {:induction false} GapIsHole(areas: seq<Area>, j: nat, start: nat, end: nat, size: nat, b: nat)
    requires Sorted(areas, start) && j <= |areas| && start <= b && b + size <= end && FreeAt(areas, b, size)
    requires forall k: nat | k < |areas| :: !Hole(areas, start, end, size, k)
    ensures b >= Candidate(areas, start, j)
  {
    if j > 0 {
      GapIsHole(areas, j - 1, start, end, size, b);
      assert !Hole(areas, start, end, size, j - 1);
    }
  }

  /** The search loop of vmm_alloc */
  method FindGap(areas: seq<Area>, start: nat, end: nat, size: nat) returns (found: bool, i: nat, candidate: nat)
    ensures (found, i, candidate) == Search(areas, 0, start, end, size) && i <= |areas|
    ensures !found ==> i < |areas| && EndWord(areas[i]) >= end
  {
    hide Add;
    candidate, i := start, 0;
    while i < |areas|
      invariant 0 <= i <= |areas|
      invariant Search(areas, i, candidate, end, size) == Search(areas, 0, start, end, size)
    {
      if areas[i].base >= Add(candidate, size) {
        if Add(candidate, size) <= end { return true, i, candidate; }
      }
      candidate := Add(areas[i].base, areas[i].size);
      if candidate >= end { return false, i, candidate; }
      i := i + 1;
    }
    found := true;
  }

  /** Over areas that end before the region does, the search never refuses. */
  lemma {:induction false} NeverRefuses(areas: seq<Area>, i: nat, candidate: nat, end: nat, size: nat)
    requires i <= |areas| && end < U64 && forall j | 0 <= j < |areas| :: areas[j].End() < end
    ensures Search(areas, i, candidate, end, size).0
    decreases |areas| - i
  {
    if i < |areas| { NeverRefuses(areas, i + 1, EndWord(areas[i]), end, size); }
  }

  /** With a size that makes the sum wrap around, the search can place an area over an existing one. */
  lemma WrapOverlaps()
    ensures var areas := [Area(KERNEL_START, PAGE, 16), Area(KERNEL_START + 2 * PAGE, PAGE, 16)];
            var size := U64 - KERNEL_START - PAGE;
            && Sorted(areas, KERNEL_START) && size % PAGE == 0
            && Search(areas, 0, KERNEL_START, KERNEL_END, size) == (true, 1, KERNEL_START + PAGE)
            && !FreeAt(areas, KERNEL_START + PAGE, size)
  {
    var areas := [Area(KERNEL_START, PAGE, 16), Area(KERNEL_START + 2 * PAGE, PAGE, 16)];
    var size := U64 - KERNEL_START - PAGE;
    assert Search(areas, 1, KERNEL_START + PAGE, KERNEL_END, size) == (true, 1, KERNEL_START + PAGE);
    assert areas[1].base < KERNEL_START + PAGE + size;
  }

  /**
   An area that ends at 2^64, which a request for the rest of the address space places, makes the next search
   go on from address 0, although the list leaves no room.
   */
  lemma EndsAtZero()
    ensures var first, rest := Area(KERNEL_START, PAGE, 16), U64 - KERNEL_START - PAGE;
            && Search([first], 0, KERNEL_START, KERNEL_END, rest) == (true, 1, KERNEL_START + PAGE)
            && var areas := [first, Area(KERNEL_START + PAGE, rest, 16)];
               && Search(areas, 0, KERNEL_START, KERNEL_END, PAGE) == (true, 2, 0)
               && Sorted(areas, KERNEL_START) && !HasGap(areas, KERNEL_START, KERNEL_END, PAGE)
  {
    var first, rest := Area(KERNEL_START, PAGE, 16), U64 - KERNEL_START - PAGE;
    var second := Area(KERNEL_START + PAGE, rest, 16);
    var areas := [first, second];
    assert Search([first], 1, KERNEL_START + PAGE, KERNEL_END, rest) == (true, 1, KERNEL_START + PAGE);
    assert EndWord(second) == 0;
    assert Search(areas, 2, 0, KERNEL_END, PAGE) == (true, 2, 0);
    assert Search(areas, 1, KERNEL_START + PAGE, KERNEL_END, PAGE) == (true, 2, 0);
    forall b: nat | KERNEL_START <= b && b + PAGE <= KERNEL_END ensures !FreeAt(areas, b, PAGE) {
      assert !(b + PAGE <= areas[0].base || areas[0].End() <= b) || !(b + PAGE <= areas[1].base || areas[1].End() <= b);
    }
  }

  /** The result lies in the region exactly when the region has a gap. */
  lemma FitsIffGap(areas: seq<Area>, start: nat, end: nat, size: nat, a: nat)
    requires LowestFit(areas, start, size, a)
    ensures a + size <= end <==> HasGap(areas, start, end, size)
  {
  }

  /** Without a gap the placement behind the last area can leave the region. */
  lemma LeavesRegion()
    ensures var size := 0x7FFF_FFFF_F000;
            && size % PAGE == 0 && Search([], 0, USER_START, USER_END, size) == (true, 0, USER_START)
            && USER_START + size > USER_END && !HasGap([], USER_START, USER_END, size)
  {
  }

  lemma InsertSorted(areas: seq<Area>, start: nat, i: nat, a: Area)
    requires Sorted(areas, start) && i <= |areas| && a.base >= start && a.base % PAGE == 0 && a.size % PAGE == 0
    requires a.size > 0
    requires forall j | 0 <= j < i :: areas[j].End() <= a.base
    requires forall j | i <= j < |areas| :: a.End() <= areas[j].base
    ensures Sorted(Insert(areas, i, a), start)
  {
  }

  lemma RemoveSorted(areas: seq<Area>, start: nat, i: nat)
    requires Sorted(areas, start) && i < |areas|
    ensures Sorted(RemoveAt(areas, i), start)
  {
  }

  /** An insertion followed by the removal of the same area restores the list. */
  lemma InsertRemove(areas: seq<Area>, i: nat, a: Area)
    requires i <= |areas|
    ensures RemoveAt(Insert(areas, i, a), i) == areas
  {
  }

  lemma OneAreaHas(areas: seq<Area>, start: nat, i: nat, j: nat, addr: nat)
    requires Sorted(areas, start) && i < |areas| && j < |areas| && areas[i].Has(addr)
    ensures areas[j].Has(addr) ==> i == j
  {
  }

  /** What the code tests: the end of an area may wrap around. */
  predicate HasWord(a: Area, addr: nat) { a.base <= addr < EndWord(a) }

  lemma WordIsHas(areas: seq<Area>, j: nat, addr: nat)
    requires Words(areas) && j < |areas|
    ensures HasWord(areas[j], addr) <==> areas[j].Has(addr)
  {
  }

  /**
   vmm_get_vm_area, and the search of vmm_free: the first area that passes the test; when no area wraps around,
   the only area with the address.
   */
  method Find(areas: seq<Area>, addr: nat, ghost start: nat) returns (found: bool, i: nat)
    ensures found <==> exists j :: 0 <= j < |areas| && HasWord(areas[j], addr)
    ensures found ==> i < |areas| && HasWord(areas[i], addr) && forall j | 0 <= j < i :: !HasWord(areas[j], addr)
    ensures Words(areas) ==> (found <==> exists j :: 0 <= j < |areas| && areas[j].Has(addr))
    ensures Words(areas) && Sorted(areas, start) && found ==>
              areas[i].Has(addr) && forall j | 0 <= j < |areas| && areas[j].Has(addr) :: j == i
  {
    hide EndWord;
    i := 0;
    while i < |areas|
      invariant 0 <= i <= |areas|
      invariant forall j | 0 <= j < i :: !HasWord(areas[j], addr)
    {
      if areas[i].base <= addr && EndWord(areas[i]) > addr { break; }
      i := i + 1;
    }
    found := i < |areas|;
    if Words(areas) {
      forall j | 0 <= j < |areas| ensures HasWord(areas[j], addr) <==> areas[j].Has(addr) { WordIsHas(areas, j, addr); }
      assert found ==> areas[i].Has(addr);
    }
  }

  lemma SumAligned(a: nat, b: nat)
    requires a % PAGE == 0 && b % PAGE == 0
    ensures (a + b) % PAGE == 0
  {
  }

  /** The place found is page-aligned: it is the start of the region or the end of an area. */
  lemma FitsAligned(areas: seq<Area>, start: nat, end: nat, size: nat, k: nat, a: nat)
    requires Sorted(areas, start) && start % PAGE == 0 && Fits(areas, start, end, size, k, a)
    ensures a % PAGE == 0
  {
    if k > 0 { SumAligned(areas[k - 1].base, areas[k - 1].size); }
  }
}
