/** Facts about multiplication and division that the solver does not find on its own. */
module Arith {

  /** Division of naturals as BigInt and Go's unsigned integers do it: rounded down. */
  function Floor(n: nat, d: nat): nat
    requires d > 0
  {
    DivNonNegative(n, d);
    n / d
  }

  lemma DivNonNegative(n: nat, d: nat)
    requires d > 0
    ensures 0 <= n / d
  {
  }

  lemma FloorBounds(n: nat, d: nat)
    requires d > 0
    ensures d * Floor(n, d) <= n < d * (Floor(n, d) + 1)
  {
    assert n == d * (n / d) + n % d;
    assert d * (n / d + 1) == d * (n / d) + d;
  }

  lemma MulMono(d: nat, a: int, b: int)
    requires a <= b
    ensures d * a <= d * b
  {
  }

  /** Quotient and remainder are determined by the division equation. */
  lemma DivModUnique(n: int, d: nat, q: int, r: int)
    requires 0 <= r < d && n == d * q + r
    ensures n / d == q && n % d == r
  {
    var t := q - n / d;
    assert d * t == n % d - r;
    if t != 0 {
      MulMono(d, if t > 0 then 1 else t, if t > 0 then t else -1);
    }
  }

  lemma SumOfMultiples(a: nat, b: nat, d: nat)
    requires d > 0 && a % d == 0 && b % d == 0
    ensures (a + b) % d == 0
    ensures (a + b) / d == a / d + b / d
  {
    DivModUnique(a + b, d, a / d + b / d, 0);
  }

  lemma SumDivisible(a: nat, b: nat, d: nat)
    requires d > 0 && a % d == 0 && b % d == 0
    ensures (a + b) % d == 0
  {
    SumOfMultiples(a, b, d);
  }

  lemma Multiple(d: nat, q: nat)
    requires d > 0
    ensures (d * q) % d == 0 && (d * q) / d == q
  {
    DivModUnique(d * q, d, q, 0);
  }

  /** The order of fractions a/p <= b/q, written without division, is transitive. */
  lemma FractionTrans(a: nat, p: nat, b: nat, q: nat, c: nat, r: nat)
    requires q > 0
    requires a * q <= b * p && b * r <= c * q
    ensures a * r <= c * p
  {
    MulMono(r, a * q, b * p);
    MulMono(p, b * r, c * q);
    assert q * (a * r) == r * (a * q);
    assert r * (b * p) == p * (b * r);
    assert q * (c * p) == p * (c * q);
    CancelLeft(q, a * r, c * p);
  }

  lemma CancelLeft(d: nat, x: int, y: int)
    requires d > 0 && d * x <= d * y
    ensures x <= y
  {
    assert d * (y + 1) == d * y + d;
    if x > y {
      MulMono(d, y + 1, x);
    }
  }

  /** The product of two inequalities between naturals. */
  lemma MulBoth(a: nat, b: nat, c: nat, d: nat)
    requires a <= b && c <= d
    ensures a * c <= b * d
  {
    MulMono(a, c, d);
    MulMono(d, a, b);
  }
}
