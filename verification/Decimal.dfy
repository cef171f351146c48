/**
 Rows of decimal digits by their place values, and the powers of ten by which
 the parser scales a number.
 */
module Decimal {
  import opened CText
  import opened Parser

  /** 10^n */
  function Power10(n: nat): (p: nat)
    ensures p >= 1
  {
    if n == 0 then 1 else 10 * Power10(n - 1)
  }

  function DigitValue(c: byte): nat {
    if IsDigit(c) then c - ZERO else 0
  }

  predicate AllDigits(ds: seq<byte>) {
    forall i :: 0 <= i < |ds| ==> IsDigit(ds[i])
  }

  /** A row of decimal digits, most significant first. */
  function DigitsValue(ds: seq<byte>): nat {
    if ds == [] then 0 else 10 * DigitsValue(ds[..|ds| - 1]) + DigitValue(ds[|ds| - 1])
  }

  /** The digits behind a decimal point: the `i`-th of them is divided by `10^i`. */
  function FractionValue(ds: seq<byte>): real {
    if ds == [] then 0.0
    else FractionValue(ds[..|ds| - 1]) + DigitValue(ds[|ds| - 1]) as real / Power10(|ds|) as real
  }

  // The powers of the parser -------------------------------------------------

  lemma {:induction false} Pow10Up(e: nat)
    ensures Pow10(e) == Power10(e) as real
  {
    if e > 0 { Pow10Up(e - 1); }
  }

  lemma Pow10Step(e: int)
    ensures Pow10(e + 1) == Pow10(e) * 10.0
  {}

  lemma TenTimes(a: real, p: real, q: real)
    requires q == a * p
    ensures q * 10.0 == a * (p * 10.0)
  {}

  lemma {:induction false} Pow10Shift(e: int, k: nat)
    ensures Pow10(e + k) == Pow10(e) * Power10(k) as real
  {
    hide Pow10;
    if k == 0 {
      assert Power10(0) == 1;
    } else {
      Pow10Shift(e, k - 1);
      Pow10Step(e + k - 1);
      TenTimes(Pow10(e), Power10(k - 1) as real, Pow10(e + k - 1));
      assert Power10(k) as real == Power10(k - 1) as real * 10.0;
    }
  }

  lemma Reassociate(a: real, b: real, c: real)
    ensures a * b * c == a * (b * c)
  {}

  /** `n * 10^e * 10^k == n * 10^(e + k)` */
  lemma {:induction false} ScaledShift(n: int, e: int, k: nat)
    ensures Scaled(n, e) * Power10(k) as real == Scaled(n, e + k)
  {
    hide Pow10;
    Pow10Shift(e, k);
    Reassociate(n as real, Pow10(e), Power10(k) as real);
  }

  /** And a negative exponent divides. */
  lemma ScaledDown(n: int, k: nat)
    ensures Scaled(n, 0 - k) == n as real / Power10(k) as real
  {
    hide Pow10;
    ScaledShift(n, 0 - k, k);
    Unscaled(n);
    Quotient(Scaled(n, 0 - k), Power10(k) as real, n as real);
  }

  lemma Unscaled(n: int)
    ensures Scaled(n, 0) == n as real
  {}

  lemma Quotient(a: real, b: real, c: real)
    requires a * b == c && b > 0.0
    ensures a == c / b
  {}

  // Whole part and fraction as one integer ------------------------------------

  lemma Cancel(a: real, b: real)
    requires b > 0.0
    ensures a / b * b == a
  {}

  lemma FractionStep(f: real, p: real, v: real, d: real)
    requires f * p == v && p > 0.0
    ensures (f + d / (10.0 * p)) * (10.0 * p) == 10.0 * v + d
  {
    var q := 10.0 * p;
    Cancel(d, q);
    assert (f + d / q) * q == f * q + d / q * q;
    assert f * q == 10.0 * (f * p);
  }

  /** One more digit. */
  lemma LastDigit(ds: seq<byte>)
    requires ds != []
    ensures var k := |ds| - 1;
            && DigitsValue(ds) as real == 10.0 * DigitsValue(ds[..k]) as real + DigitValue(ds[k]) as real
            && FractionValue(ds) == FractionValue(ds[..k]) + DigitValue(ds[k]) as real / Power10(|ds|) as real
            && Power10(|ds|) as real == 10.0 * Power10(k) as real
  {}

  lemma NoDigits()
    ensures DigitsValue([]) == 0 && FractionValue([]) == 0.0 && Power10(0) == 1
  {}

  lemma {:induction false} FractionIsScaled(ds: seq<byte>)
    ensures FractionValue(ds) * Power10(|ds|) as real == DigitsValue(ds) as real
  {
    hide DigitsValue, FractionValue, Power10, DigitValue;
    if ds == [] {
      NoDigits();
    } else {
      var k := |ds| - 1;
      FractionIsScaled(ds[..k]);
      LastDigit(ds);
      FractionStep(FractionValue(ds[..k]), Power10(k) as real, DigitsValue(ds[..k]) as real,
                   DigitValue(ds[k]) as real);
    }
  }

  lemma JoinStep(w: real, p: real, a: real, v: real, d: real)
    requires a == w * p + v
    ensures 10.0 * a + d == w * (10.0 * p) + (10.0 * v + d)
  {}

  lemma {:induction false} DigitsJoin(whole: seq<byte>, ds: seq<byte>)
    ensures DigitsValue(whole + ds) as real ==
            DigitsValue(whole) as real * Power10(|ds|) as real + DigitsValue(ds) as real
  {
    hide DigitsValue, FractionValue, Power10, DigitValue;
    if ds == [] {
      NoDigits();
      assert whole + ds == whole;
    } else {
      var k, all := |ds| - 1, whole + ds;
      assert all[..|all| - 1] == whole + ds[..k] && all[|all| - 1] == ds[k];
      DigitsJoin(whole, ds[..k]);
      LastDigit(ds);
      LastDigit(all);
      JoinStep(DigitsValue(whole) as real, Power10(k) as real, DigitsValue(whole + ds[..k]) as real,
               DigitsValue(ds[..k]) as real, DigitValue(ds[k]) as real);
    }
  }

  lemma Distribute(w: real, f: real, p: real)
    ensures (w + f) * p == w * p + f * p
  {}

  /** All the digits of `whole.ds` as one integer, and the number they stand for. */
  lemma AllDigitsValue(whole: seq<byte>, ds: seq<byte>)
    ensures DigitsValue(whole + ds) as real / Power10(|ds|) as real == DigitsValue(whole) as real + FractionValue(ds)
  {
    hide DigitsValue, FractionValue, Power10;
    var p := Power10(|ds|) as real;
    DigitsJoin(whole, ds);
    FractionIsScaled(ds);
    Distribute(DigitsValue(whole) as real, FractionValue(ds), p);
    Quotient(DigitsValue(whole) as real + FractionValue(ds), p, DigitsValue(whole + ds) as real);
  }
}
