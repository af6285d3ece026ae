/** Facts about products and quotients that are not linear. */
module Arithmetic {
  function Min(a: nat, b: nat): nat {
    if a <= b then a else b
  }

  function Max(a: nat, b: nat): nat {
    if a >= b then a else b
  }

  /** Quotient and remainder are determined by their equation. */
  lemma ModUnique(x: nat, m: nat, q: nat, r: nat)
    requires m > 0 && r < m && x == m * q + r
    ensures x % m == r && x / m == q
  {
    var q', r' := x / m, x % m;
    assert x == m * q' + r' && 0 <= r' < m;
    if q > q' {
      MulGap(m, q', q);
    } else if q < q' {
      MulGap(m, q, q');
    }
  }

  lemma MulGap(m: nat, a: nat, b: nat)
    requires a < b
    ensures m * a + m <= m * b
  {
    assert m * b == m * a + m * (b - a);
    assert m * (b - a) == m + m * (b - a - 1);
  }

  lemma MulLess(a: nat, b: nat, c: nat)
    requires a <= b
    ensures a * c <= b * c
  {
  }

  lemma Distribute(f: nat, k: nat, s: nat, q: nat)
    ensures f * (k * s + q) == k * (f * s) + f * q
  {
    assert f * (k * s) == k * (f * s);
  }
}
