/** The growing print buffer: pow2gt, ensure and update. */
module PrintBuffers {
  import opened Bits

  /** `x |= x >> k` */
  function Smear(x: nat, k: nat): nat {
    BitOr(x, Shr(x, k))
  }

  /** pow2gt on the non-negative arguments it is called with. */
  function Pow2gt(x: nat): nat
    requires x >= 1
  {
    Smear(Smear(Smear(Smear(Smear(x - 1, 1), 2), 4), 8), 16) + 1
  }

  /** The top `k` of `n` bits are ones. */
  ghost predicate TopOnes(x: nat, n: nat, k: nat) {
    k <= n && Pow2(n) - Pow2(n - k) <= x < Pow2(n)
  }

  /** Smearing by `k` doubles the run of leading ones. */
  lemma SmearDoubles(x: nat, n: nat, k: nat)
    requires 1 <= k <= n && TopOnes(x, n, k)
    ensures TopOnes(Smear(x, k), n, if 2 * k <= n then 2 * k else n)
  {
    hide BitOr, Shr, Shl;
    var p := n - k;
    var y, ones := Shr(x, k), Pow2(k) - 1;
    ShrBelow(x, n, k);
    ShlPow(k, p);
    ShlPow(0, p);
    ShlSub(Pow2(k), 1, p);
    var r: nat := x - (Pow2(n) - Pow2(p));
    ShlZero(p);
    OrShl(ones, r, 0, y, p);
    OrZero(ones);
    OrAtLeast(r, y);
    OrBelow(r, y, p);
    ShiftedOnes(x, n, k);
  }

  lemma ShiftedOnes(x: nat, n: nat, k: nat)
    requires 1 <= k <= n && TopOnes(x, n, k)
    ensures Shr(x, k) >= Pow2(n - k) - (if 2 * k <= n then Pow2(n - 2 * k) else 1)
  {
    hide Shr, Shl;
    var p := n - k;
    ShlPow(p, k);
    if 2 * k <= n {
      ShlPow(n - 2 * k, k);
      PowMono(n - 2 * k, p);
      ShlSub(Pow2(p), Pow2(n - 2 * k), k);
      ShrAtLeast(x, Pow2(p) - Pow2(n - 2 * k), k);
    } else {
      PowMono(p, k);
      ShlPow(0, k);
      ShlSub(Pow2(p), 1, k);
      ShrAtLeast(x, Pow2(p) - 1, k);
    }
  }

  lemma {:induction false} PowMono(a: nat, b: nat)
    requires a <= b
    ensures Pow2(a) <= Pow2(b)
    decreases b - a
  {
    if a < b {
      PowMono(a, b - 1);
    }
  }

  /** A word whose bits are all ones stays so. */
  lemma SmearFull(x: nat, n: nat, k: nat)
    requires n >= 1 && k >= 1 && x == Pow2(n) - 1
    ensures Smear(x, k) == x
  {
    ShrAtMost(x, k);
    OrBelow(x, Shr(x, k), n);
    OrAtLeast(x, Shr(x, k));
  }

  lemma SmearStep(x: nat, n: nat, k: nat)
    requires n >= 1 && k >= 1 && (if k <= n then TopOnes(x, n, k) else x == Pow2(n) - 1)
    ensures if 2 * k <= n then TopOnes(Smear(x, k), n, 2 * k) else Smear(x, k) == Pow2(n) - 1
  {
    hide Smear;
    if k <= n {
      SmearDoubles(x, n, k);
      assert Pow2(0) == 1;
    } else {
      SmearFull(x, n, k);
    }
  }

  lemma {:induction false} BitLength(x: nat, bound: nat) returns (n: nat)
    requires 1 <= x < Pow2(bound)
    ensures 1 <= n <= bound && Pow2(n - 1) <= x < Pow2(n)
    decreases bound
  {
    if x >= Pow2(bound - 1) {
      n := bound;
    } else {
      n := BitLength(x, bound - 1);
    }
  }

  /** pow2gt is the least power of two at or above its argument, up to 2^30. */
  lemma LeastPower(x: nat) returns (n: nat)
    requires 1 <= x <= 0x4000_0000
    ensures n <= 30 && Pow2gt(x) == Pow2(n) && x <= Pow2(n) && (n > 0 ==> Pow2(n - 1) < x)
  {
    hide Smear;
    PowConstants();
    if x == 1 {
      n := 0;
      SmearZero();
    } else {
      n := BitLength(x - 1, 30);
      var x0 := x - 1;
      SmearStep(x0, n, 1);
      SmearStep(Smear(x0, 1), n, 2);
      SmearStep(Smear(Smear(x0, 1), 2), n, 4);
      SmearStep(Smear(Smear(Smear(x0, 1), 2), 4), n, 8);
      SmearStep(Smear(Smear(Smear(Smear(x0, 1), 2), 4), 8), n, 16);
    }
  }

  lemma SmearZero()
    ensures Smear(0, 1) == 0 && Smear(0, 2) == 0 && Smear(0, 4) == 0 && Smear(0, 8) == 0 && Smear(0, 16) == 0
  {
    ShrAtMost(0, 1);
    ShrAtMost(0, 2);
    ShrAtMost(0, 4);
    ShrAtMost(0, 8);
    ShrAtMost(0, 16);
  }
}
