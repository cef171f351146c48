/**
 C's bitwise operators on non-negative integers, defined bit by bit, with the
 facts the sources rely on: masks, disjoint fields and rounding up to a power
 of two by smearing bits.
 */
module Bits {

  /** `a | b` */
  function Or(a: nat, b: nat): nat
    decreases a + b
  {
    if a == 0 && b == 0 then 0
    else 2 * Or(a / 2, b / 2) + (if a % 2 == 1 || b % 2 == 1 then 1 else 0)
  }

  /** `a & b` */
  function And(a: nat, b: nat): nat
    decreases a + b
  {
    if a == 0 && b == 0 then 0
    else 2 * And(a / 2, b / 2) + (if a % 2 == 1 && b % 2 == 1 then 1 else 0)
  }

  /** `a << n` */
  function Shl(a: nat, n: nat): nat {
    if n == 0 then a else 2 * Shl(a, n - 1)
  }

  /** `a >> n` */
  function Shr(a: nat, n: nat): nat {
    if n == 0 then a else Shr(a / 2, n - 1)
  }

  function Pow2(n: nat): nat {
    Shl(1, n)
  }

  lemma {:induction false} ShrOfShl(hi: nat, lo: nat, n: nat)
    requires lo < Pow2(n)
    ensures Shr(Shl(hi, n) + lo, n) == hi
  {
    if n > 0 {
      assert (Shl(hi, n) + lo) / 2 == Shl(hi, n - 1) + lo / 2;
      ShrOfShl(hi, lo / 2, n - 1);
    }
  }

  lemma {:induction false} ShlTimes(a: nat, n: nat)
    ensures n == 4 ==> Shl(a, n) == 16 * a
    ensures n == 6 ==> Shl(a, n) == 64 * a
    ensures n == 10 ==> Shl(a, n) == 1024 * a
  {
    if n == 4 {
      assert Shl(a, 1) == 2 * a;
      assert Shl(a, 3) == 8 * a;
    } else if n == 6 {
      assert Shl(a, 1) == 2 * a;
      assert Shl(a, 3) == 8 * a;
      assert Shl(a, 5) == 32 * a;
    } else if n == 10 {
      assert Shl(a, 1) == 2 * a;
      assert Shl(a, 3) == 8 * a;
      assert Shl(a, 5) == 32 * a;
      assert Shl(a, 7) == 128 * a;
      assert Shl(a, 9) == 512 * a;
    }
  }

  lemma {:induction false} ShlPow2(m: nat, n: nat)
    ensures Shl(Pow2(m), n) == Pow2(m + n)
  {
    if n > 0 { ShlPow2(m, n - 1); }
  }

  lemma {:induction false} ShlMonotone(a: nat, b: nat, n: nat)
    requires a <= b
    ensures Shl(a, n) <= Shl(b, n)
    ensures a < b ==> Shl(a, n) + Pow2(n) <= Shl(b, n)
  {
    if n > 0 { ShlMonotone(a, b, n - 1); }
  }

  lemma {:induction false} Pow2Monotone(m: nat, n: nat)
    requires m <= n
    ensures 1 <= Pow2(m) <= Pow2(n)
    ensures m < n ==> 2 * Pow2(m) <= Pow2(n)
  {
    if m < n { Pow2Monotone(m, n - 1); }
    else if m > 0 { Pow2Monotone(m - 1, n - 1); }
  }

  /** Both operators work on the high bits and on the low `n` bits separately. */
  lemma {:induction false} OrSplit(ha: nat, la: nat, hb: nat, lb: nat, n: nat)
    requires la < Pow2(n) && lb < Pow2(n)
    ensures Or(Shl(ha, n) + la, Shl(hb, n) + lb) == Shl(Or(ha, hb), n) + Or(la, lb)
  {
    hide Or;
    if n > 0 {
      OrSplit(ha, la / 2, hb, lb / 2, n - 1);
      OrDouble(Shl(ha, n - 1), la, Shl(hb, n - 1), lb, Shl(Or(ha, hb), n - 1));
    } else {
      OrZero(0);
    }
  }

  lemma {:induction false} AndSplit(ha: nat, la: nat, hb: nat, lb: nat, n: nat)
    requires la < Pow2(n) && lb < Pow2(n)
    ensures And(Shl(ha, n) + la, Shl(hb, n) + lb) == Shl(And(ha, hb), n) + And(la, lb)
  {
    hide And;
    if n > 0 {
      AndSplit(ha, la / 2, hb, lb / 2, n - 1);
      AndDouble(Shl(ha, n - 1), la, Shl(hb, n - 1), lb, Shl(And(ha, hb), n - 1));
    } else {
      AndZero(0);
    }
  }

  lemma OrDouble(a: nat, la: nat, b: nat, lb: nat, h: nat)
    requires Or(a + la / 2, b + lb / 2) == h + Or(la / 2, lb / 2)
    ensures Or(2 * a + la, 2 * b + lb) == 2 * h + Or(la, lb)
  {
    assert (2 * a + la) / 2 == a + la / 2 && (2 * b + lb) / 2 == b + lb / 2;
  }

  lemma AndDouble(a: nat, la: nat, b: nat, lb: nat, h: nat)
    requires And(a + la / 2, b + lb / 2) == h + And(la / 2, lb / 2)
    ensures And(2 * a + la, 2 * b + lb) == 2 * h + And(la, lb)
  {
    assert (2 * a + la) / 2 == a + la / 2 && (2 * b + lb) / 2 == b + lb / 2;
  }

  lemma {:induction false} OrZero(a: nat)
    ensures Or(a, 0) == a && Or(0, a) == a
    decreases a
  {
    if a > 0 { OrZero(a / 2); }
  }

  lemma {:induction false} AndZero(a: nat)
    ensures And(a, 0) == 0 && And(0, a) == 0
    decreases a
  {
    if a > 0 { AndZero(a / 2); }
  }

  lemma {:induction false} ShlZero(n: nat)
    ensures Shl(0, n) == 0
  {
    if n > 0 { ShlZero(n - 1); }
  }

  /** Fields that do not overlap are added by `|`. */
  lemma OrFields(hi: nat, lo: nat, n: nat)
    requires lo < Pow2(n)
    ensures Or(Shl(hi, n), lo) == Shl(hi, n) + lo
    ensures Or(lo, Shl(hi, n)) == Shl(hi, n) + lo
  {
    hide Or, Shl;
    Pow2Monotone(0, n);
    OrSplit(hi, 0, 0, lo, n);
    OrSplit(0, lo, hi, 0, n);
    ShlZero(n);
    OrZero(hi);
    OrZero(lo);
  }

  /** A mask of `n` ones keeps the low `n` bits. */
  lemma AndMask(hi: nat, lo: nat, n: nat)
    requires lo < Pow2(n)
    ensures And(Shl(hi, n) + lo, Pow2(n) - 1) == lo
  {
    AndSplit(hi, lo, 0, Pow2(n) - 1, n);
    ShlZero(n);
    AndZero(hi);
    AndOnes(lo, n);
  }

  lemma {:induction false} AndOnes(lo: nat, n: nat)
    requires lo < Pow2(n)
    ensures And(lo, Pow2(n) - 1) == lo
  {
    if n > 0 {
      AndOnes(lo / 2, n - 1);
      assert (Pow2(n) - 1) / 2 == Pow2(n - 1) - 1;
    }
  }

  lemma {:induction false} OrBounds(a: nat, b: nat, n: nat)
    requires a < Pow2(n) && b < Pow2(n)
    ensures a <= Or(a, b) < Pow2(n) && b <= Or(a, b)
  {
    if n > 0 { OrBounds(a / 2, b / 2, n - 1); }
  }

  // Rounding up to a power of two ------------------------------------------

  /** One smearing step `x |= x >> k`. */
  function Smear(x: nat, k: nat): nat {
    Or(x, Shr(x, k))
  }

  /** Of the `n` bits of `x`, the top `j` are ones. */
  ghost predicate TopOnes(x: nat, n: nat, j: nat) {
    j <= n && Pow2(n) - Pow2(n - j) <= x < Pow2(n)
  }

  /** Smearing by `j` doubles the run of leading ones. */
  lemma SmearDoubles(x: nat, n: nat, j: nat, k: nat)
    requires TopOnes(x, n, j)
    requires k == (if 2 * j <= n then 2 * j else n)
    ensures TopOnes(Smear(x, j), n, k)
  {
    hide Or, Shr, Shl;
    var low := n - j;
    var ones := Pow2(j) - 1;
    ShlPow2(j, low);
    OnesTimes(j, low);
    var lo := x - Shl(ones, low);
    // x == ones << low, plus lo
    var s := Shr(x, j);
    ShrBounds(x, n, j);
    assert s < Pow2(low);
    OrSplit(ones, lo, 0, s, low);
    ShlZero(low);
    OrZero(ones);
    OrBounds(lo, s, low);
    ShrMonotone(Pow2(n) - Pow2(low), x, j);
    if j <= low {
      TopShift(n, j, low);
    } else {
      Pow2Monotone(0, low);
      TopShiftShort(n, j, low);
    }
  }

  lemma {:induction false} OnesTimes(j: nat, low: nat)
    ensures Pow2(j) >= 1 && Shl(Pow2(j) - 1, low) == Pow2(j + low) - Pow2(low)
  {
    Pow2Monotone(0, j);
    if low > 0 { OnesTimes(j, low - 1); }
  }

  lemma {:induction false} ShrBounds(x: nat, n: nat, j: nat)
    requires x < Pow2(n) && j <= n
    ensures Shr(x, j) < Pow2(n - j)
  {
    if j > 0 { ShrBounds(x / 2, n - 1, j - 1); }
  }

  lemma {:induction false} ShrMonotone(a: nat, b: nat, j: nat)
    requires a <= b
    ensures Shr(a, j) <= Shr(b, j)
  {
    if j > 0 { ShrMonotone(a / 2, b / 2, j - 1); }
  }

  lemma {:induction false} TopShift(n: nat, j: nat, low: nat)
    requires n == j + low && j <= low
    ensures Pow2(n) >= Pow2(low) && Shr(Pow2(n) - Pow2(low), j) == Pow2(low) - Pow2(low - j)
  {
    Pow2Monotone(low, n);
    Pow2Monotone(low - j, low);
    if j > 0 { OnesTimes(j, low - j); OnesTimes(j, low);
      ShlShl(Pow2(j) - 1, low - j, j);
      ShrOfShl(Shl(Pow2(j) - 1, low - j), 0, j);
    }
  }

  lemma {:induction false} ShlShl(a: nat, m: nat, n: nat)
    ensures Shl(Shl(a, m), n) == Shl(a, m + n)
  {
    if n > 0 { ShlShl(a, m, n - 1); }
  }

  lemma TopShiftShort(n: nat, j: nat, low: nat)
    requires n == j + low && low < j
    ensures Pow2(n) >= Pow2(low) && Shr(Pow2(n) - Pow2(low), j) == Pow2(low) - 1
  {
    Pow2Monotone(low, n);
    Pow2Monotone(low, j);
    Pow2Monotone(0, low);
    // Pow2(n) - Pow2(low) == ((Pow2(low) - 1) << j) + (Pow2(j) - Pow2(low))
    OnesTimes(low, j);
    ShrOfShl(Pow2(low) - 1, Pow2(j) - Pow2(low), j);
  }
}
