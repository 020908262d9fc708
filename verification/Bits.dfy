/** Word-level arithmetic used by the memory managers, on unbounded naturals. */
module Bits {

  const U64: nat := 0x1_0000_0000_0000_0000
  const U32: nat := 0x1_0000_0000

  /** Bytes of a frame and of a small page */
  const PAGE: nat := 4096

  /** 64-bit addition */
  function Add(a: nat, b: nat): (r: nat)
    ensures r <= a + b && r < U64 && (a + b < U64 ==> r == a + b)
  {
    (a + b) % U64
  }

  /** `1ULL << k` */
  function Pow2(k: nat): (r: nat)
    ensures r >= 1
  {
    if k == 0 then 1 else 2 * Pow2(k - 1)
  }

  /** Bitwise exclusive or. */
  function Xor(a: nat, b: nat): (r: nat) {
    if a == 0 && b == 0 then 0 else (a + b) % 2 + 2 * Xor(a / 2, b / 2)
  }

  /** Bitwise and. */
  function And(a: nat, b: nat): (r: nat) {
    if a == 0 || b == 0 then 0 else (a % 2) * (b % 2) + 2 * And(a / 2, b / 2)
  }

  /** Bitwise or. */
  function Or(a: nat, b: nat): (r: nat) {
    if a == 0 then b else if b == 0 then a
    else (if a % 2 == 1 || b % 2 == 1 then 1 else 0) + 2 * Or(a / 2, b / 2)
  }

  /** `m << k` */
  ghost function Shift(m: nat, k: nat): (r: nat) {
    if k == 0 then m else 2 * Shift(m, k - 1)
  }

  /** `a` has `k` low zero bits. */
  ghost predicate Aligned(a: nat, k: nat) {
    exists m: nat :: a == Shift(m, k)
  }

  lemma {:induction false} Pow2Mono(j: nat, k: nat)
    requires j <= k
    ensures Pow2(j) <= Pow2(k)
    ensures j < k ==> 2 * Pow2(j) <= Pow2(k)
    decreases k
  {
    if j < k { Pow2Mono(j, k - 1); }
  }

  lemma {:induction false} ShiftIsMul(m: nat, k: nat)
    ensures Shift(m, k) == m * Pow2(k)
  {
    if k > 0 { ShiftIsMul(m, k - 1); }
  }

  lemma {:induction false} ShiftStep(m: nat, k: nat)
    ensures Shift(2 * m, k) == Shift(m, k + 1)
    ensures Shift(m + 1, k) == Shift(m, k) + Pow2(k)
  {
    if k > 0 { ShiftStep(m, k - 1); }
  }

  /** Alignment is divisibility by the block size. */
  lemma AlignedIffMod(a: nat, k: nat)
    ensures Aligned(a, k) <==> a % Pow2(k) == 0
  {
    if Aligned(a, k) {
      var m: nat :| a == Shift(m, k);
      ShiftIsMul(m, k);
      ModUnique(a, Pow2(k), m, 0);
    } else if a % Pow2(k) == 0 {
      ExactQuotient(a, k);
    }
  }

  lemma ExactQuotient(a: nat, k: nat)
    requires a % Pow2(k) == 0
    ensures Aligned(a, k)
  {
    var p := Pow2(k);
    var q := a / p;
    assert a == q * p + a % p;
    ShiftIsMul(q, k);
  }

  lemma ModUnique(a: nat, m: int, q: nat, r: nat)
    requires r < m && a == q * m + r
    ensures a % m == r
  {
    var d := a / m - q;
    assert a == (a / m) * m + a % m;
    assert d * m == (a / m) * m - q * m;
    assert d >= 1 ==> d * m >= m;
    assert d <= -1 ==> d * m <= -m;
  }

  lemma AlignedZero(a: nat)
    ensures Aligned(a, 0)
  {
    assert a == Shift(a, 0);
  }

  /** Naturally aligned power-of-two ranges are nested or disjoint. */
  lemma Nested(a: nat, j: nat, b: nat, k: nat)
    requires j <= k && Aligned(a, j) && Aligned(b, k)
    requires a < b + Pow2(k) && b < a + Pow2(j)
    ensures b <= a && a + Pow2(j) <= b + Pow2(k)
  {
    var m: nat, n: nat :| a == Shift(m, j) && b == Shift(n, k);
    NestedShift(m, j, n, k);
  }

  lemma {:induction false} NestedShift(m: nat, j: nat, n: nat, k: nat)
    requires j <= k
    requires Shift(m, j) < Shift(n, k) + Pow2(k) && Shift(n, k) < Shift(m, j) + Pow2(j)
    ensures Shift(n, k) <= Shift(m, j) && Shift(m, j) + Pow2(j) <= Shift(n, k) + Pow2(k)
  {
    if j > 0 { NestedShift(m, j - 1, n, k - 1); }
  }

  /** Two aligned ranges of one size that meet are the same range. */
  lemma SameRange(a: nat, b: nat, k: nat)
    requires Aligned(a, k) && Aligned(b, k)
    requires a < b + Pow2(k) && b < a + Pow2(k)
    ensures a == b
  {
    Nested(a, k, b, k);
    Nested(b, k, a, k);
  }

  /** A block that does not start its enclosing block starts that block's second half. */
  lemma OddBlock(a: nat, k: nat)
    requires Aligned(a, k) && !Aligned(a, k + 1)
    ensures a >= Pow2(k) && Aligned(a - Pow2(k), k + 1)
  {
    var m: nat :| a == Shift(m, k);
    ShiftStep(m / 2, k);
    ShiftStep(2 * (m / 2), k);
  }

  /** The block of order k that shares its enclosing block of order k + 1 with block `a`. */
  ghost function Buddy(a: nat, k: nat): (r: nat)
    requires Aligned(a, k)
    ensures r + Pow2(k) == a || r == a + Pow2(k)
    ensures Aligned(if a < r then a else r, k + 1)
  {
    if Aligned(a, k + 1) then a + Pow2(k) else OddBlock(a, k); a - Pow2(k)
  }

  /** The pmm's `pfn ^ (1 << order)` is the buddy. */
  lemma XorBuddy(a: nat, k: nat)
    requires Aligned(a, k)
    ensures Xor(a, Pow2(k)) == Buddy(a, k)
  {
    var b := Buddy(a, k);
    if b < a { XorHalves(b, a, k); } else { XorHalves(a, b, k); }
  }

  lemma XorHalves(a: nat, b: nat, k: nat)
    requires Aligned(a, k + 1) && b == a + Pow2(k)
    ensures Xor(a, Pow2(k)) == b && Xor(b, Pow2(k)) == a
  {
    var n: nat :| a == Shift(n, k + 1);
    ShiftStep(n, k);
    ShiftStep(2 * n, k);
    XorShift(n, k);
  }

  lemma {:induction false} XorShift(n: nat, k: nat)
    ensures Xor(Shift(2 * n, k), Pow2(k)) == Shift(2 * n + 1, k)
    ensures Xor(Shift(2 * n + 1, k), Pow2(k)) == Shift(2 * n, k)
  {
    if k == 0 {
      XorZero(n);
      XorUnit(n);
    } else {
      XorShift(n, k - 1);
      XorDouble(Shift(2 * n, k - 1), Pow2(k - 1));
      XorDouble(Shift(2 * n + 1, k - 1), Pow2(k - 1));
    }
  }

  lemma {:induction false} XorDouble(a: nat, b: nat)
    ensures Xor(2 * a, 2 * b) == 2 * Xor(a, b)
  {
    assert (2 * a) / 2 == a && (2 * b) / 2 == b && (2 * a + 2 * b) % 2 == 0;
  }

  lemma {:induction false} XorUnit(n: nat)
    ensures Xor(2 * n, 1) == 1 + 2 * Xor(n, 0)
    ensures Xor(2 * n + 1, 1) == 2 * Xor(n, 0)
  {
    assert (2 * n) / 2 == n && (2 * n + 1) / 2 == n;
    assert (2 * n + 1) % 2 == 1 && (2 * n + 2) % 2 == 0;
  }

  lemma {:induction false} XorZero(a: nat)
    ensures Xor(a, 0) == a
  {
    if a > 0 { XorZero(a / 2); }
  }

  /** The two halves of an aligned range are aligned. */
  lemma Halves(a: nat, k: nat)
    requires Aligned(a, k + 1)
    ensures Aligned(a, k) && Aligned(a + Pow2(k), k)
  {
    var m: nat :| a == Shift(m, k + 1);
    ShiftStep(m, k);
    ShiftStep(2 * m, k);
  }

  /** A larger aligned range that meets a block holds the block's buddy too. */
  lemma BuddyNested(a: nat, j: nat, b: nat, k: nat)
    requires j < k && Aligned(a, j) && Aligned(b, k)
    requires a < b + Pow2(k) && b < a + Pow2(j)
    ensures b <= Buddy(a, j) && Buddy(a, j) + Pow2(j) <= b + Pow2(k)
  {
    var m := if Buddy(a, j) < a then Buddy(a, j) else a;
    assert Pow2(j + 1) == 2 * Pow2(j);
    Nested(m, j + 1, b, k);
  }

  /** `a & ((1 << k) - 1)` is the remainder by the block size. */
  lemma {:induction false} AndMask(a: nat, k: nat)
    ensures And(a, Pow2(k) - 1) == a % Pow2(k)
  {
    if k > 0 {
      AndMask(a / 2, k - 1);
      ModDouble(a, Pow2(k - 1));
      AndOdd(a, Pow2(k - 1) - 1);
      assert Pow2(k) - 1 == 2 * (Pow2(k - 1) - 1) + 1;
    }
  }

  lemma {:induction false} AndOdd(a: nat, m: nat)
    ensures And(a, 2 * m + 1) == a % 2 + 2 * And(a / 2, m)
  {
    assert (2 * m + 1) % 2 == 1 && (2 * m + 1) / 2 == m;
  }

  lemma ModDouble(a: nat, p: nat)
    requires p > 0
    ensures a % (2 * p) == 2 * ((a / 2) % p) + a % 2
  {
    var h := a / 2;
    var q, r := h / p, 2 * (h % p) + a % 2;
    assert h == q * p + h % p;
    assert 2 * (q * p) == q * (2 * p);
    ModUnique(a, 2 * p, q, r);
  }

  /** A frame-aligned address is aligned to 2^k frames when its frame number is aligned to k. */
  lemma AlignedFrames(c: nat, k: nat)
    ensures Pow2(12 + k) == 4096 * Pow2(k)
    ensures Aligned(4096 * c, 12 + k) <==> Aligned(c, k)
  {
    Pow2Frames(k);
    if Aligned(c, k) {
      var m: nat :| c == Shift(m, k);
      ShiftFrames(m, k);
    }
    if Aligned(4096 * c, 12 + k) {
      var m: nat :| 4096 * c == Shift(m, 12 + k);
      ShiftFrames(m, k);
    }
  }

  lemma {:induction false} Pow2Frames(k: nat)
    ensures Pow2(12 + k) == 4096 * Pow2(k)
  {
    if k == 0 {
      assert Pow2(4) == 16;
      assert Pow2(8) == 16 * Pow2(4);
      assert Pow2(12) == 16 * Pow2(8);
    } else {
      Pow2Frames(k - 1);
    }
  }

  lemma {:induction false} ShiftFrames(m: nat, k: nat)
    ensures Shift(m, 12 + k) == 4096 * Shift(m, k)
  {
    ShiftIsMul(m, 12 + k);
    ShiftIsMul(m, k);
    Pow2Frames(k);
  }

  lemma {:induction false} OrZero(a: nat)
    ensures Or(a, 0) == a && Or(0, a) == a
  {
  }

  /** Masking distributes over or. */
  lemma {:induction false} AndOr(a: nat, b: nat, m: nat)
    ensures And(Or(a, b), m) == Or(And(a, m), And(b, m))
    decreases a + b + m
  {
    if a == 0 || b == 0 || m == 0 {
      OrZero(And(a, m));
      OrZero(And(b, m));
    } else {
      AndOr(a / 2, b / 2, m / 2);
      OrStep(a, b);
      AndStep(Or(a, b), m);
      AndStep(a, m);
      AndStep(b, m);
      OrStep(And(a, m), And(b, m));
    }
  }

  lemma {:induction false} OrStep(a: nat, b: nat)
    ensures Or(a, b) / 2 == Or(a / 2, b / 2)
    ensures Or(a, b) % 2 == if a % 2 == 1 || b % 2 == 1 then 1 else 0
  {
    OrZero(a / 2);
    OrZero(b / 2);
  }

  lemma {:induction false} AndStep(a: nat, m: nat)
    ensures And(a, m) / 2 == And(a / 2, m / 2)
    ensures And(a, m) % 2 == if a % 2 == 1 && m % 2 == 1 then 1 else 0
    ensures And(a, m) == And(a, m) % 2 + 2 * And(a / 2, m / 2)
  {
  }

  lemma {:induction false} AndAssoc(a: nat, b: nat, c: nat)
    ensures And(And(a, b), c) == And(a, And(b, c))
  {
    AndStep(a, b);
    AndStep(b, c);
    AndStep(And(a, b), c);
    AndStep(a, And(b, c));
    if a != 0 { AndAssoc(a / 2, b / 2, c / 2); }
  }

  function Bit(m: nat, k: nat): (b: nat) {
    if k == 0 then m % 2 else Bit(m / 2, k - 1)
  }

  /** Masking with a single bit */
  lemma {:induction false} AndBit(m: nat, k: nat)
    ensures And(m, Pow2(k)) == if Bit(m, k) == 1 then Pow2(k) else 0
  {
    AndStep(m, Pow2(k));
    if k > 0 { AndBit(m / 2, k - 1); } else { AndZeroBoth(m / 2); }
  }

  /** Single bits meet only in themselves. */
  lemma {:induction false} AndUnits(i: nat, j: nat)
    ensures And(Pow2(i), Pow2(j)) == if i == j then Pow2(i) else 0
  {
    AndStep(Pow2(i), Pow2(j));
    if i > 0 && j > 0 {
      AndUnits(i - 1, j - 1);
    } else if i > 0 {
      AndZeroBoth(Pow2(i - 1));
    } else if j > 0 {
      AndZeroBoth(Pow2(j - 1));
    } else {
      AndZeroBoth(0);
    }
  }

  lemma AndZeroBoth(a: nat)
    ensures And(a, 0) == 0 && And(0, a) == 0
  {
  }

  lemma {:induction false} AndShift(a: nat, m: nat, k: nat)
    ensures And(Shift(a, k), Shift(m, k)) == Shift(And(a, m), k)
  {
    if k > 0 {
      AndShift(a, m, k - 1);
      AndStep(Shift(a, k), Shift(m, k));
    }
  }

  /** Bits below a mask are masked off. */
  lemma {:induction false} AndLow(x: nat, m: nat, k: nat)
    requires x < Pow2(k)
    ensures And(x, Shift(m, k)) == 0
    decreases k
  {
    if k > 0 {
      AndLow(x / 2, m, k - 1);
      AndStep(x, Shift(m, k));
    }
  }

  /** Bits above a mask are masked off. */
  lemma {:induction false} AndHigh(a: nat, m: nat, k: nat)
    requires m < Pow2(k)
    ensures And(Shift(a, k), m) == 0
    decreases k
  {
    if k > 0 {
      AndHigh(a, m / 2, k - 1);
      AndStep(Shift(a, k), m);
    }
  }

  /** A masked value keeps the alignment of the mask. */
  lemma {:induction false} AndAligned(x: nat, m: nat, k: nat)
    ensures Aligned(And(x, Shift(m, k)), k)
  {
    if k == 0 {
      AlignedZero(And(x, m));
    } else {
      AndAligned(x / 2, m, k - 1);
      AndStep(x, Shift(m, k));
      var y: nat :| And(x / 2, Shift(m, k - 1)) == Shift(y, k - 1);
      assert And(x, Shift(m, k)) == Shift(y, k);
    }
  }
}
