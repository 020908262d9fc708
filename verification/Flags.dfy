/** The flags of areas and their translation into page-table entries. */
module Flags {
  import opened Bits
  import opened Entry

  /** Flags of an area, see vmm.h */
  const WRITE: nat := 2
  const EXEC: nat := 4
  const USER: nat := 8
  const ANON: nat := 16
  const MMIO: nat := 32
  const WC: nat := 64
  const UC: nat := 128

  /** vmm_generic_to_x86_flags */
  function X86Flags(g: nat): (x: nat) {
    var a := if Has(g, WRITE) then Or(0, RW) else 0;
    var b := if !Has(g, EXEC) then Or(a, NO_EXEC) else a;
    var c := if Has(g, WC) then Or(b, PWT) else b;
    var d := if Has(g, UC) then Or(c, PCD) else c;
    if Has(g, USER) then Or(d, US) else Or(d, GLOBAL)
  }

  /** Converted flags never reach into the address field. */
  lemma X86FlagsAreFlags(g: nat)
    ensures IsFlags(X86Flags(g))
  {
    LowFlags(0);
    LowFlags(RW);
    HighFlag();
    LowFlags(PWT);
    LowFlags(PCD);
    LowFlags(US);
    LowFlags(GLOBAL);
    OrFlags(0, RW);
    var a := if Has(g, WRITE) then Or(0, RW) else 0;
    OrFlags(a, NO_EXEC);
    var b := if !Has(g, EXEC) then Or(a, NO_EXEC) else a;
    OrFlags(b, PWT);
    var c := if Has(g, WC) then Or(b, PWT) else b;
    OrFlags(c, PCD);
    var d := if Has(g, UC) then Or(c, PCD) else c;
    OrFlags(d, US);
    OrFlags(d, GLOBAL);
  }

  /** Each bit of the entry says what its flag promises. */
  lemma X86FlagsMean(g: nat)
    ensures var x := X86Flags(g);
            && (Has(x, RW) <==> Has(g, WRITE)) && (Has(x, NO_EXEC) <==> !Has(g, EXEC))
            && (Has(x, PWT) <==> Has(g, WC)) && (Has(x, PCD) <==> Has(g, UC))
            && (Has(x, US) <==> Has(g, USER)) && (Has(x, GLOBAL) <==> !Has(g, USER))
            && !Huge(x)
  {
    hide And, Or, Pow2;
    FlagPowers();
    FlagBit(g, RW, 1);
    FlagBit(g, NO_EXEC, 63);
    FlagBit(g, PWT, 3);
    FlagBit(g, PCD, 4);
    FlagBit(g, US, 2);
    FlagBit(g, GLOBAL, 8);
    FlagBit(g, PS, 7);
  }

  /** Which bit a step of the conversion sets */
  predicate Sets(g: nat, k: nat) {
    || (k == 1 && Has(g, WRITE)) || (k == 63 && !Has(g, EXEC)) || (k == 3 && Has(g, WC)) || (k == 4 && Has(g, UC))
    || (k == 2 && Has(g, USER)) || (k == 8 && !Has(g, USER))
  }

  lemma FlagBit(g: nat, bit: nat, k: nat)
    requires bit == Pow2(k)
    ensures Has(X86Flags(g), bit) <==> Sets(g, k)
  {
    hide And, Or, Pow2;
    FlagPowers();
    AndZeroBoth(bit);
    var a := if Has(g, WRITE) then Or(0, RW) else 0;
    OrBit(0, RW, 1, bit, k);
    var b := if !Has(g, EXEC) then Or(a, NO_EXEC) else a;
    OrBit(a, NO_EXEC, 63, bit, k);
    var c := if Has(g, WC) then Or(b, PWT) else b;
    OrBit(b, PWT, 3, bit, k);
    var d := if Has(g, UC) then Or(c, PCD) else c;
    OrBit(c, PCD, 4, bit, k);
    OrBit(d, US, 2, bit, k);
    OrBit(d, GLOBAL, 8, bit, k);
  }

  /** The entry gives its page exactly the rights and the caching that the flags of an area ask for. */
  ghost predicate Grants(e: nat, flags: nat) {
    && Present(e) && !Huge(e)
    && (Has(e, RW) <==> Has(flags, WRITE)) && (Has(e, NO_EXEC) <==> !Has(flags, EXEC))
    && (Has(e, US) <==> Has(flags, USER)) && (Has(e, GLOBAL) <==> !Has(flags, USER))
    && (Has(e, PWT) <==> Has(flags, WC)) && (Has(e, PCD) <==> Has(flags, UC))
  }

  lemma ConvertedGrants(e: nat, phys: nat, g: nat)
    requires Maps(e, phys, X86Flags(g), false)
    ensures Grants(e, g)
  {
    hide And, Or;
    X86FlagsMean(g);
  }

  /** Kernel areas lose the USER flag. */
  function AreaFlags(flags: nat, kern: bool): (r: nat) {
    if kern && Has(flags, USER) then And(flags, 0xFFFF_FFFF_FFFF_FFF7) else flags
  }

  /** Of the flags that exist, bits 0 to 7, a kernel area loses USER and every area keeps the others. */
  lemma AreaFlagsBits(flags: nat, kern: bool, k: nat)
    requires k < 8
    ensures Has(AreaFlags(flags, kern), Pow2(k)) <==> Has(flags, Pow2(k)) && !(kern && Pow2(k) == USER)
  {
    hide And;
    AndAssoc(flags, 0xFFFF_FFFF_FFFF_FFF7, Pow2(k));
    AndBit(0xFFFF_FFFF_FFFF_FFF7, k);
    MaskBit(k);
    AndZeroBoth(flags);
    UserBit(k);
  }

  lemma UserBit(k: nat)
    requires k < 8
    ensures Pow2(k) == USER <==> k == 3
  {
    assert Pow2(3) == 8;
    if k < 3 { Pow2Mono(k, 3); }
    if k > 3 { Pow2Mono(3, k); }
  }

  lemma MaskBit(k: nat)
    requires k < 8
    ensures Bit(0xFFFF_FFFF_FFFF_FFF7, k) == if k == 3 then 0 else 1
  {
    match k
    case 0 => assert Bit(0xFFFF_FFFF_FFFF_FFF7, 0) == 1;
    case 1 => assert Bit(0xFFFF_FFFF_FFFF_FFF7, 1) == 1;
    case 2 => assert Bit(0xFFFF_FFFF_FFFF_FFF7, 2) == 1;
    case 3 => assert Bit(0xFFFF_FFFF_FFFF_FFF7, 3) == 0;
    case 4 => assert Bit(0xFFFF_FFFF_FFFF_FFF7, 4) == 1;
    case 5 => assert Bit(0xFFFF_FFFF_FFFF_FFF7, 5) == 1;
    case 6 => assert Bit(0xFFFF_FFFF_FFFF_FFF7, 6) == 1;
    case _ => assert Bit(0xFFFF_FFFF_FFFF_FFF7, 7) == 1;
  }
}
