/** Quotient and remainder of natural numbers. */
module DivMod {

  lemma NextModulo(a: nat, m: nat)
    requires m >= 1
    ensures a % m < m && (a + 1) % m == if a % m + 1 == m then 0 else a % m + 1
    ensures (a + 1) / m == a / m + if a % m + 1 == m then 1 else 0
  {
    var q, r := a / m, a % m;
    assert a + 1 == m * q + (r + 1);
    if r + 1 == m {
      assert a + 1 == m * (q + 1);
      Remainder(q + 1, 0, m);
    } else {
      Remainder(q, r + 1, m);
    }
  }

  /** Euclidean division is unique. */
  lemma Remainder(q: int, r: nat, m: nat)
    requires r < m
    ensures (m * q + r) % m == r && (m * q + r) / m == q
  {
    var x := m * q + r;
    var d, k := q - x / m, x % m;
    assert m * d == k - r by { assert x == m * (x / m) + k; }
    if d >= 1 { Scaled(m, d); }
    if d <= -1 { Scaled(m, -d); }
  }

  lemma Scaled(m: nat, d: int)
    requires d >= 1
    ensures m * d >= m
  {}

  lemma Stretch(m: nat, q: int)
    ensures m * (q + 1) == m * q + m
  {}
}
