/** Bitwise operations on unsigned machine words, as functions on naturals. */
module Bits {

  function Pow2(k: nat): (p: nat)
    ensures p > 0
  {
    if k == 0 then 1 else 2 * Pow2(k - 1)
  }

  function BitOr(x: nat, y: nat): nat
    decreases x + y
  {
    if x == 0 && y == 0 then 0
    else 2 * BitOr(x / 2, y / 2) + (if x % 2 == 1 || y % 2 == 1 then 1 else 0)
  }

  function BitAnd(x: nat, y: nat): nat
    decreases x + y
  {
    if x == 0 || y == 0 then 0
    else 2 * BitAnd(x / 2, y / 2) + (if x % 2 == 1 && y % 2 == 1 then 1 else 0)
  }

  lemma {:induction false} OrZero(x: nat)
    ensures BitOr(x, 0) == x && BitOr(0, x) == x
  {
    if x > 0 {
      OrZero(x / 2);
    }
  }

  lemma MulAtLeast(a: int, d: nat)
    requires a >= 1
    ensures a * d >= d
  {
  }

  /** Quotient and remainder are determined by the division equation. */
  lemma Times(a: nat, b: nat, d: nat)
    requires a <= b
    ensures a * d <= b * d
  {
  }

  lemma QuotientUnique(x: nat, d: nat, q: nat, r: nat)
    requires x == q * d + r && r < d
    ensures x / d == q && x % d == r
  {
    var q', r' := x / d, x % d;
    assert x == d * q' + r';
    Distribute(q, q', d);
    if q > q' {
      MulAtLeast(q - q', d);
    } else if q < q' {
      MulAtLeast(q' - q, d);
    }
  }

  lemma Distribute(a: int, b: int, d: int)
    ensures (a - b) * d == a * d - b * d && (b - a) * d == b * d - a * d && d * b == b * d
  {
  }

  /** `h << k` */
  function Shl(h: nat, k: nat): nat {
    if k == 0 then h else 2 * Shl(h, k - 1)
  }

  /** `x >> k` */
  function Shr(x: nat, k: nat): nat {
    if k == 0 then x else Shr(x / 2, k - 1)
  }

  lemma {:induction false} ShrBelow(x: nat, n: nat, k: nat)
    requires k <= n && x < Pow2(n)
    ensures Shr(x, k) < Pow2(n - k)
    decreases k
  {
    if k > 0 {
      ShrBelow(x / 2, n - 1, k - 1);
    }
  }

  lemma {:induction false} ShrAtLeast(x: nat, a: nat, k: nat)
    requires x >= Shl(a, k)
    ensures Shr(x, k) >= a
    decreases k
  {
    if k > 0 {
      ShrAtLeast(x / 2, a, k - 1);
    }
  }

  lemma {:induction false} ShrAtMost(x: nat, k: nat)
    ensures Shr(x, k) <= x
    decreases k
  {
    if k > 0 {
      ShrAtMost(x / 2, k - 1);
    }
  }

  lemma {:induction false} ShlSub(a: nat, b: nat, k: nat)
    requires b <= a
    ensures Shl(a - b, k) == Shl(a, k) - Shl(b, k)
    decreases k
  {
    if k > 0 {
      ShlSub(a, b, k - 1);
    }
  }

  lemma {:induction false} ShlPow(a: nat, k: nat)
    ensures Shl(Pow2(a), k) == Pow2(a + k)
    decreases k
  {
    if k > 0 {
      ShlPow(a, k - 1);
    }
  }

  lemma {:induction false} ShlZero(k: nat)
    ensures Shl(0, k) == 0
    decreases k
  {
    if k > 0 {
      ShlZero(k - 1);
    }
  }

  lemma {:induction false} ShlIsProduct(h: nat, k: nat)
    ensures Shl(h, k) == h * Pow2(k)
    decreases k
  {
    if k > 0 {
      ShlIsProduct(h, k - 1);
      Double(h, Pow2(k - 1));
    }
  }

  lemma Double(h: nat, p: nat)
    ensures h * (2 * p) == 2 * (h * p)
  {
  }

  /** OR works on the low `k` bits and on the rest separately. */
  lemma {:induction false} OrShl(xh: nat, xl: nat, yh: nat, yl: nat, k: nat)
    requires xl < Pow2(k) && yl < Pow2(k)
    ensures BitOr(Shl(xh, k) + xl, Shl(yh, k) + yl) == Shl(BitOr(xh, yh), k) + BitOr(xl, yl)
    decreases k
  {
    hide BitOr;
    if k > 0 {
      OrShl(xh, xl / 2, yh, yl / 2, k - 1);
      OrStep(Shl(xh, k) + xl, Shl(yh, k) + yl);
      OrStep(xl, yl);
    } else {
      OrZero(0);
    }
  }

  lemma OrSplit(xh: nat, xl: nat, yh: nat, yl: nat, k: nat)
    requires xl < Pow2(k) && yl < Pow2(k)
    ensures BitOr(xh * Pow2(k) + xl, yh * Pow2(k) + yl) == BitOr(xh, yh) * Pow2(k) + BitOr(xl, yl)
  {
    hide BitOr, Pow2, Shl;
    OrShl(xh, xl, yh, yl, k);
    ShlIsProduct(xh, k);
    ShlIsProduct(yh, k);
    ShlIsProduct(BitOr(xh, yh), k);
  }

  lemma OrStep(x: nat, y: nat)
    ensures BitOr(x, y) == 2 * BitOr(x / 2, y / 2) + (if x % 2 == 1 || y % 2 == 1 then 1 else 0)
  {
  }

  lemma AndStep(x: nat, y: nat)
    ensures BitAnd(x, y) == 2 * BitAnd(x / 2, y / 2) + (if x % 2 == 1 && y % 2 == 1 then 1 else 0)
  {
  }

  lemma {:induction false} AndShl(xh: nat, xl: nat, yh: nat, yl: nat, k: nat)
    requires xl < Pow2(k) && yl < Pow2(k)
    ensures BitAnd(Shl(xh, k) + xl, Shl(yh, k) + yl) == Shl(BitAnd(xh, yh), k) + BitAnd(xl, yl)
    decreases k
  {
    hide BitAnd;
    if k > 0 {
      AndShl(xh, xl / 2, yh, yl / 2, k - 1);
      AndStep(Shl(xh, k) + xl, Shl(yh, k) + yl);
      AndStep(xl, yl);
    } else {
      AndNone(0);
    }
  }

  lemma AndNone(x: nat)
    ensures BitAnd(x, 0) == 0 && BitAnd(0, x) == 0
  {
  }

  lemma AndSplit(xh: nat, xl: nat, yh: nat, yl: nat, k: nat)
    requires xl < Pow2(k) && yl < Pow2(k)
    ensures BitAnd(xh * Pow2(k) + xl, yh * Pow2(k) + yl) == BitAnd(xh, yh) * Pow2(k) + BitAnd(xl, yl)
  {
    hide BitAnd, Pow2, Shl;
    AndShl(xh, xl, yh, yl, k);
    ShlIsProduct(xh, k);
    ShlIsProduct(yh, k);
    ShlIsProduct(BitAnd(xh, yh), k);
  }

  /** Masking with `2^k - 1` keeps the low bits. */
  lemma AndMask(hi: nat, lo: nat, k: nat)
    requires lo < Pow2(k)
    ensures BitAnd(hi * Pow2(k) + lo, Pow2(k) - 1) == lo
  {
    hide BitAnd, Pow2;
    AndSplit(hi, lo, 0, Pow2(k) - 1, k);
    AndNone(hi);
    AndOnes(lo, k);
  }

  lemma {:induction false} AndOnes(lo: nat, k: nat)
    requires lo < Pow2(k)
    ensures BitAnd(lo, Pow2(k) - 1) == lo
    decreases k
  {
    if k > 0 {
      AndOnes(lo / 2, k - 1);
      AndStep(lo, Pow2(k) - 1);
      assert (Pow2(k) - 1) / 2 == Pow2(k - 1) - 1;
    }
  }

  /** OR of words with no bit in common: `lo` below bit `k`, the other at or above it. */
  lemma OrDisjoint(hi: nat, lo: nat, k: nat)
    requires lo < Pow2(k)
    ensures BitOr(hi * Pow2(k), lo) == hi * Pow2(k) + lo
    ensures BitOr(lo, hi * Pow2(k)) == hi * Pow2(k) + lo
  {
    hide BitOr, Pow2;
    OrSplit(hi, 0, 0, lo, k);
    OrSplit(0, lo, hi, 0, k);
    OrZero(hi);
    OrZero(lo);
  }

  // ----- bounds

  lemma {:induction false} OrAtLeast(x: nat, y: nat)
    ensures BitOr(x, y) >= x && BitOr(x, y) >= y
    decreases x + y
  {
    if x != 0 || y != 0 {
      OrAtLeast(x / 2, y / 2);
    }
  }

  lemma {:induction false} OrBelow(x: nat, y: nat, k: nat)
    requires x < Pow2(k) && y < Pow2(k)
    ensures BitOr(x, y) < Pow2(k)
    decreases k
  {
    if k > 0 && (x != 0 || y != 0) {
      OrBelow(x / 2, y / 2, k - 1);
    }
  }

  lemma {:induction false} PowSum(a: nat, b: nat)
    ensures Pow2(a + b) == Pow2(a) * Pow2(b)
    decreases a
  {
    if a > 0 {
      PowSum(a - 1, b);
      assert 2 * (Pow2(a - 1) * Pow2(b)) == Pow2(a) * Pow2(b);
    }
  }

  /** The powers the C code writes as constants. */
  lemma PowConstants()
    ensures Pow2(1) == 2 && Pow2(2) == 4 && Pow2(3) == 8 && Pow2(4) == 0x10 && Pow2(5) == 0x20 && Pow2(6) == 0x40
    ensures Pow2(8) == 0x100 && Pow2(10) == 0x400 && Pow2(16) == 0x10000 && Pow2(30) == 0x4000_0000
              && Pow2(31) == 0x8000_0000
  {
    assert Pow2(4) == 0x10;
    assert Pow2(6) == 0x40;
    assert Pow2(8) == 4 * Pow2(6);
    assert Pow2(10) == 4 * Pow2(8);
    PowSum(8, 8);
    PowSum(10, 10);
    PowSum(20, 10);
    assert Pow2(20 + 10) == Pow2(30);
    assert Pow2(31) == 2 * Pow2(30);
  }
}
