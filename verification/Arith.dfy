/** Division and remainder by a variable divisor. */
module Arith {

  lemma MulAtLeast(d: int, r: int)
    requires d >= 1 && r >= 0
    ensures d * r >= r
  {
    assert (d - 1) * r >= 0;
  }

  lemma SmallMultiple(d: int, r: int, x: int)
    requires d * r == x && -r < x < r
    ensures d == 0
  {
    if d >= 1 {
      MulAtLeast(d, r);
    } else if d <= -1 {
      MulAtLeast(-d, r);
    }
  }

  /** Quotient and remainder are determined by their defining equation. */
  lemma DivModUnique(a: int, r: int, q: int, b: int)
    requires 0 < r && a == q * r + b && 0 <= b < r
    ensures a % r == b && a / r == q
  {
    var q' := a / r;
    assert a == q' * r + a % r;
    assert (q - q') * r == q * r - q' * r;
    SmallMultiple(q - q', r, a % r - b);
  }

  lemma MulMod(m: int, r: int, x: int)
    requires 0 < r
    ensures (m * r + x) % r == x % r
  {
    var q := x / r;
    assert x == q * r + x % r;
    assert (m + q) * r == m * r + q * r;
    DivModUnique(m * r + x, r, m + q, x % r);
  }

  /** Within `r` consecutive numbers, equal remainders mean equal numbers. */
  lemma SameResidue(r: int, n: int, a: int, b: int)
    requires 0 < r && n <= a < n + r && n <= b < n + r && a % r == b % r
    ensures a == b
  {
    var q, q' := a / r, b / r;
    assert a == q * r + a % r && b == q' * r + b % r;
    assert (q - q') * r == q * r - q' * r;
    SmallMultiple(q - q', r, a - b);
  }

  lemma DivMonotone(x: int, y: int, m: int)
    requires x <= y && 0 < m
    ensures x / m <= y / m
  {
    var p, q := x / m, y / m;
    assert x == p * m + x % m && y == q * m + y % m;
    assert (p - q) * m == p * m - q * m;
    if p > q {
      MulAtLeast(p - q, m);
    }
  }

  lemma MulMonotone(a: nat, b: nat, d: nat)
    requires a <= b
    ensures a * d <= b * d
  {
    assert (b - a) * d >= 0;
  }

  /** Among `r` consecutive numbers every remainder occurs. */
  lemma ResidueOccurs(r: int, n: int, k: int) returns (x: int)
    requires 0 < r && 0 <= k < r
    ensures n <= x < n + r && x % r == k
  {
    x := n + (k - n) % r;
    var q := (k - n) / r;
    assert k - n == q * r + (k - n) % r;
    assert x == (-q) * r + k;
    DivModUnique(x, r, -q, k);
  }

  function Product(a: nat, b: nat): nat {
    a * b
  }

  function Quotient(a: nat, b: nat): nat
    requires b > 0
  {
    a / b
  }

  lemma QuotientBound(k: nat, q: nat, x: nat)
    requires 0 < q && k * q <= x
    ensures k <= x / q
  {
    DivMonotone(k * q, x, q);
    DivModUnique(k * q, q, k, 0);
  }
}
