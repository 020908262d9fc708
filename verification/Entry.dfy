/** Page-table entries as 64-bit words: the address field and the flag bits. */
module Entry {
  import opened Bits

  const ADDR_MASK: nat := 0x000F_FFFF_FFFF_F000
  const PRESENT: nat := 1
  const RW: nat := 2
  const US: nat := 4
  const PWT: nat := 8
  const PCD: nat := 16
  const PS: nat := 128
  const GLOBAL: nat := 256
  const NO_EXEC: nat := 0x8000_0000_0000_0000

  /** Physical addresses have 52 bits. */
  const PHYS_LIMIT: nat := 0x10_0000_0000_0000

  predicate Has(flags: nat, bit: nat) { And(flags, bit) != 0 }
  predicate Present(e: nat) { And(e, PRESENT) != 0 }
  predicate Huge(e: nat) { And(e, PS) != 0 }
  function AddrOf(e: nat): (a: nat) { And(e, ADDR_MASK) }
  function FrameOf(e: nat): (f: nat) { AddrOf(e) / PAGE }

  /** Flag words that leave the address field alone */
  predicate IsFlags(flags: nat) { And(flags, ADDR_MASK) == 0 }

  /** `phys | flags | PRESENT` */
  function Make(phys: nat, flags: nat): (e: nat) { Or(Or(phys, flags), PRESENT) }

  lemma Pow2At40()
    ensures Pow2(40) == 0x100_0000_0000 && Pow2(12) == PAGE
  {
    assert Pow2(8) == 256;
    assert Pow2(12) == 16 * Pow2(8);
    assert Pow2(16) == 16 * Pow2(12);
    assert Pow2(24) == 256 * Pow2(16) by { assert Pow2(20) == 16 * Pow2(16); }
    assert Pow2(32) == 256 * Pow2(24) by { assert Pow2(28) == 16 * Pow2(24); }
    assert Pow2(40) == 256 * Pow2(32) by { assert Pow2(36) == 16 * Pow2(32); }
  }

  lemma MaskShape()
    ensures ADDR_MASK == Shift(Pow2(40) - 1, 12)
  {
    Pow2At40();
    ShiftIsMul(Pow2(40) - 1, 12);
  }

  /** A frame-aligned 52-bit address is its own address field. */
  lemma AddrField(a: nat)
    requires a % PAGE == 0 && a < PHYS_LIMIT
    ensures And(a, ADDR_MASK) == a
  {
    var y := a / PAGE;
    Pow2At40();
    MaskShape();
    ShiftIsMul(y, 12);
    AndShift(y, Pow2(40) - 1, 12);
    AndMask(y, 40);
    ModUnique(y, Pow2(40), 0, y);
  }

  lemma LowFlags(x: nat)
    requires x < PAGE
    ensures IsFlags(x)
  {
    Pow2At40();
    MaskShape();
    AndLow(x, Pow2(40) - 1, 12);
  }

  lemma HighFlag()
    ensures IsFlags(NO_EXEC)
  {
    Pow2Frames(40);
    Pow2At40();
    ShiftIsMul(2048, 52);
    AndHigh(2048, ADDR_MASK, 52);
  }

  lemma OrFlags(x: nat, y: nat)
    requires IsFlags(x) && IsFlags(y)
    ensures IsFlags(Or(x, y))
  {
    AndOr(x, y, ADDR_MASK);
    OrZero(0);
  }

  // ----- single bits -----

  lemma OrBit(x: nat, f: nat, i: nat, bit: nat, k: nat)
    requires f == Pow2(i) && bit == Pow2(k)
    ensures Has(Or(x, f), bit) <==> Has(x, bit) || i == k
  {
    hide And, Or;
    AndOr(x, f, bit);
    OrPositive(And(x, bit), And(f, bit));
    AndUnits(i, k);
  }

  lemma FlagPowers()
    ensures PRESENT == Pow2(0) && RW == Pow2(1) && US == Pow2(2) && PWT == Pow2(3) && PCD == Pow2(4)
    ensures PS == Pow2(7) && GLOBAL == Pow2(8) && NO_EXEC == Pow2(63)
  {
    assert Pow2(4) == 16;
    assert Pow2(8) == 256;
    HighPower();
  }

  lemma HighPower()
    requires Pow2(8) == 256 && Pow2(4) == 16
    ensures NO_EXEC == Pow2(63)
  {
    hide Pow2;
    Pow2Sum(8, 8);
    Pow2Sum(16, 16);
    Pow2Sum(32, 16);
    Pow2Sum(48, 8);
    Pow2Sum(56, 8);
    Pow2Sum(63, 1);
    PowerOne();
  }

  lemma PowerOne()
    ensures Pow2(1) == 2
  {
  }

  lemma {:induction false} Pow2Sum(i: nat, j: nat)
    ensures Pow2(i + j) == Pow2(i) * Pow2(j)
  {
    if j > 0 { Pow2Sum(i, j - 1); }
  }

  /** An address of the address field has no other bit. */
  lemma AddrBit(a: nat, k: nat)
    requires a % PAGE == 0 && (k < 12 || (52 <= k && a < PHYS_LIMIT))
    ensures !Has(a, Pow2(k))
  {
    Pow2At40();
    if k < 12 {
      ShiftIsMul(a / PAGE, 12);
      Pow2Mono(k, 12);
      AndHigh(a / PAGE, Pow2(k), 12);
    } else {
      Pow2Sum(40, 12);
      Pow2Sum(52, k - 52);
      ShiftIsMul(Pow2(k - 52), 52);
      AndLow(a, Pow2(k - 52), 52);
    }
  }

  /** Outside the address field an entry has PRESENT and exactly the bits of its flags. */
  lemma MakeBit(phys: nat, flags: nat, k: nat)
    requires phys % PAGE == 0 && (k < 12 || (52 <= k && phys < PHYS_LIMIT))
    ensures Has(Make(phys, flags), Pow2(k)) <==> Has(flags, Pow2(k)) || k == 0
  {
    hide And, Or, Pow2;
    var bit := Pow2(k);
    AddrBit(phys, k);
    AndOr(phys, flags, bit);
    OrPositive(And(phys, bit), And(flags, bit));
    FlagPowers();
    OrBit(Or(phys, flags), PRESENT, 0, bit, k);
  }

  /** An entry of an upper table that takes no right away from the pages below it */
  predicate Passes(e: nat) { Has(e, RW) && Has(e, US) && !Has(e, NO_EXEC) }

  /** Both words have the same rights, caching bits and scope. */
  predicate SameBits(e: nat, flags: nat) {
    && (Has(e, RW) <==> Has(flags, RW)) && (Has(e, US) <==> Has(flags, US)) && (Has(e, PWT) <==> Has(flags, PWT))
    && (Has(e, PCD) <==> Has(flags, PCD)) && (Has(e, GLOBAL) <==> Has(flags, GLOBAL))
    && (Has(e, NO_EXEC) <==> Has(flags, NO_EXEC))
  }

  lemma MakeBits(phys: nat, flags: nat)
    requires phys % PAGE == 0 && phys < PHYS_LIMIT
    ensures SameBits(Make(phys, flags), flags)
  {
    hide Has, Make, Pow2;
    FlagPowers();
    MakeBit(phys, flags, 1);
    MakeBit(phys, flags, 2);
    MakeBit(phys, flags, 3);
    MakeBit(phys, flags, 4);
    MakeBit(phys, flags, 8);
    MakeBit(phys, flags, 63);
  }

  /** PS is none of these bits. */
  lemma HugeBits(e: nat)
    ensures SameBits(Or(e, PS), e)
  {
    hide Has, Or, Pow2;
    FlagPowers();
    OrBit(e, PS, 7, RW, 1);
    OrBit(e, PS, 7, US, 2);
    OrBit(e, PS, 7, PWT, 3);
    OrBit(e, PS, 7, PCD, 4);
    OrBit(e, PS, 7, GLOBAL, 8);
    OrBit(e, PS, 7, NO_EXEC, 63);
  }

  /** An entry made from an address and flags gives the address back and is present. */
  lemma MakeFields(phys: nat, flags: nat)
    requires phys % PAGE == 0 && phys < PHYS_LIMIT && IsFlags(flags)
    ensures var e := Make(phys, flags);
            AddrOf(e) == phys && FrameOf(e) == phys / PAGE && Present(e) && e != 0
    ensures Huge(Make(phys, flags)) <==> Huge(phys) || Huge(flags)
    ensures SameBits(Make(phys, flags), flags)
  {
    hide SameBits;
    MakeBits(phys, flags);
    AddrField(phys);
    LowFlags(PRESENT);
    var x := Or(phys, flags);
    AndOr(phys, flags, ADDR_MASK);
    AndOr(x, PRESENT, ADDR_MASK);
    OrZero(phys);
    AndOr(x, PRESENT, PRESENT);
    OrStep(And(x, PRESENT), And(PRESENT, PRESENT));
    HugeOr(phys, flags);
    HugeOr(x, PRESENT);
    assert And(1, 128) == 0 by { AndLow(1, 32, 2); assert Shift(32, 2) == 128; assert Pow2(2) == 4; }
  }

  lemma HugeOr(x: nat, y: nat)
    ensures Huge(Or(x, y)) <==> Huge(x) || Huge(y)
  {
    AndOr(x, y, PS);
    OrPositive(And(x, PS), And(y, PS));
  }

  lemma {:induction false} OrPositive(x: nat, y: nat)
    ensures Or(x, y) == 0 <==> x == 0 && y == 0
    decreases x + y
  {
    if x != 0 && y != 0 {
      OrPositive(x / 2, y / 2);
      OrStep(x, y);
    }
  }

  /** Frame-aligned addresses have no flag bits. */
  lemma AlignedNotHuge(a: nat)
    requires a % PAGE == 0
    ensures !Huge(a)
  {
    Pow2At40();
    ShiftIsMul(a / PAGE, 12);
    AndHigh(a / PAGE, PS, 12);
  }

  lemma AddrAligned(e: nat)
    ensures AddrOf(e) == FrameOf(e) * PAGE
  {
    Pow2At40();
    MaskShape();
    AndAligned(e, Pow2(40) - 1, 12);
    AlignedIffMod(AddrOf(e), 12);
  }

  lemma ZeroAbsent()
    ensures !Present(0) && FrameOf(0) == 0 && AddrOf(0) == 0 && !Huge(0)
  {
  }

  /** `phys | US | PRESENT | RW`, the entry for a new table */
  function MakeDirectory(phys: nat): (e: nat) { Or(Or(Or(phys, US), PRESENT), RW) }

  lemma DirectoryBits(phys: nat)
    requires phys % PAGE == 0 && phys < PHYS_LIMIT
    ensures Passes(MakeDirectory(phys))
  {
    hide And, Or, Pow2;
    FlagPowers();
    AddrBit(phys, 63);
    OrBit(phys, US, 2, US, 2);
    OrBit(phys, US, 2, NO_EXEC, 63);
    var x := Or(phys, US);
    OrBit(x, PRESENT, 0, US, 2);
    OrBit(x, PRESENT, 0, NO_EXEC, 63);
    var y := Or(x, PRESENT);
    OrBit(y, RW, 1, US, 2);
    OrBit(y, RW, 1, RW, 1);
    OrBit(y, RW, 1, NO_EXEC, 63);
  }

  lemma DirectoryFields(phys: nat)
    requires phys % PAGE == 0 && phys < PHYS_LIMIT
    ensures var e := MakeDirectory(phys); FrameOf(e) == phys / PAGE && Present(e) && !Huge(e)
    ensures Passes(MakeDirectory(phys))
  {
    DirectoryBits(phys);
    LowFlags(US);
    LowFlags(RW);
    MakeFields(phys, US);
    var x := Make(phys, US);
    AndOr(x, RW, ADDR_MASK);
    OrZero(phys);
    AndOr(x, RW, PRESENT);
    OrPositive(And(x, PRESENT), And(RW, PRESENT));
    HugeOr(x, RW);
    AlignedNotHuge(phys);
    assert !Huge(US) && !Huge(RW) by {
      assert Shift(16, 3) == 128 && Pow2(3) == 8;
      AndLow(US, 16, 3);
      AndLow(RW, 16, 3);
    }
  }

  /** A leaf entry for a large page: `phys | flags | PRESENT | PS` */
  function MakeHuge(phys: nat, flags: nat): (e: nat) { Or(Make(phys, flags), PS) }

  lemma HugeFields(phys: nat, flags: nat)
    requires phys % PAGE == 0 && phys < PHYS_LIMIT && IsFlags(flags)
    ensures var e := MakeHuge(phys, flags); AddrOf(e) == phys && Present(e) && Huge(e)
    ensures SameBits(MakeHuge(phys, flags), flags)
  {
    HugeBits(Make(phys, flags));
    MakeFields(phys, flags);
    LowFlags(PS);
    var x := Make(phys, flags);
    AndOr(x, PS, ADDR_MASK);
    OrZero(phys);
    AndOr(x, PS, PRESENT);
    OrPositive(And(x, PRESENT), And(PS, PRESENT));
    HugeOr(x, PS);
    PsBit();
  }

  lemma PsBit()
    ensures Huge(PS)
  {
    AndShift(1, 1, 7);
    assert Shift(1, 4) == 16;
    assert Shift(1, 7) == 8 * Shift(1, 4);
    assert And(1, 1) == 1;
  }

  const HUGE_SIZE: nat := 0x20_0000

  /** The entry that paging_map_page stores: the address rounded down to the page size, and the flags */
  function EntryFor(phys: nat, flags: nat, huge: bool): (e: nat) {
    if huge then MakeHuge(phys - phys % HUGE_SIZE, flags) else Make(phys - phys % PAGE, flags)
  }

  /** The word maps the small or large page that holds `phys`, with the bits of the flags. */
  ghost predicate Maps(e: nat, phys: nat, flags: nat, huge: bool) {
    var size := if huge then HUGE_SIZE else PAGE;
    && Present(e) && SameBits(e, flags) && (Huge(e) <==> huge || Huge(flags))
    && AddrOf(e) % size == 0 && AddrOf(e) <= phys < AddrOf(e) + size
  }

  /** Length of k small or large pages */
  function Bytes(k: nat, huge: bool): (r: nat) { if huge then k * HUGE_SIZE else k * PAGE }

  /** What a region loop stores in its k-th slot: the k-th page of a physical range, or nothing */
  datatype Plan = Map(phys: nat, flags: nat, huge: bool) | Erase {
    function At(k: nat): (e: nat) {
      match this case Map(p, fl, h) => EntryFor(p + Bytes(k, h), fl, h) case Erase => 0
    }
  }
}
