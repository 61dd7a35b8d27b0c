/** Facts about products, quotients and remainders that several modules need. */
module Arithmetic {

  function Min(a: nat, b: nat): nat { if a < b then a else b }

  lemma NonNegative(a: int, b: int)
    requires a >= 0 && b >= 0
    ensures a * b >= 0
  {
  }

  lemma Distribute(n: int, a: int, b: int)
    ensures n * (a + b) == n * a + n * b && n * (a - b) == n * a - n * b
    ensures (a + b) * n == n * a + n * b && (a - b) * n == n * a - n * b
    ensures a * n == n * a && b * n == n * b
  {
  }

  /** A nonzero multiple of m is at least m away from zero. */
  lemma NoSmallMultiple(m: int, d: int)
    requires m > 0 && d != 0
    ensures m * d >= m || m * d <= -m
  {
    if d > 0 {
      NonNegative(m, d - 1);
      assert m * d == m * (d - 1) + m;
    } else {
      NonNegative(m, -d - 1);
      assert m * d == -(m * (-d - 1)) - m;
    }
  }

  /** Quotient and remainder are unique. */
  lemma QuotientIs(x: int, m: int, q: int, r: int)
    requires m > 0 && x == m * q + r && 0 <= r < m
    ensures x / m == q && x % m == r
  {
    assert x == m * (x / m) + x % m;
    assert m * (q - x / m) == x % m - r;
    if q != x / m { NoSmallMultiple(m, q - x / m); }
  }

  lemma MultipleMod(m: int, q: int)
    requires m > 0
    ensures (m * q) % m == 0
  {
    QuotientIs(m * q, m, q, 0);
  }

  lemma ShiftMod(x: int, m: int, q: int)
    requires m > 0
    ensures (x + m * q) % m == x % m
  {
    assert x == m * (x / m) + x % m;
    assert m * (x / m + q) == m * (x / m) + m * q;
    QuotientIs(x + m * q, m, x / m + q, x % m);
  }

  lemma SameResidue(x: int, y: int, m: int)
    requires m > 0
    ensures x % m == y % m <==> (y - x) % m == 0
  {
    if x % m == y % m {
      assert y - x == m * (y / m - x / m);
      MultipleMod(m, y / m - x / m);
    }
    if (y - x) % m == 0 {
      assert y == x + m * ((y - x) / m);
      ShiftMod(x, m, (y - x) / m);
    }
  }

  lemma QuotientBelow(x: nat, m: nat, q: nat)
    requires m > 0 && x < m * q
    ensures x / m < q
  {
    var d := x / m - q;
    assert x == m * (x / m) + x % m;
    assert m * d == m * (x / m) - m * q;
    if d > 0 { NoSmallMultiple(m, d); }
  }

  lemma QuotientMonotone(a: nat, b: nat, q: nat)
    requires a <= b && q > 0
    ensures a / q <= b / q
  {
    assert a == q * (a / q) + a % q && b == q * (b / q) + b % q;
    var d := a / q - b / q;
    assert q * d == q * (a / q) - q * (b / q);
    if d > 0 { NoSmallMultiple(q, d); }
  }
}
