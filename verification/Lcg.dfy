/** The seeded generator of the test cases: a linear congruential step written with JavaScript's
    32-bit operators.  It is a full cycle, and so is every block of low bits. */
module Lcg {
  import opened Arith

  const A: nat := 1664525
  const C: nat := 1013904223

  type u32 = x: int | 0 <= x < 0x1_0000_0000

  // ---------------------------------------------------------------- JavaScript's operators

  /** The remainder in 0..2^32-1 of any integer: `x >>> 0` of an exactly represented number. */
  function ToUint32(x: int): u32 {
    x % 0x1_0000_0000
  }

  /** The signed reading of the same 32 bits. */
  function ToInt32(x: int): (r: int)
    ensures -0x8000_0000 <= r < 0x8000_0000
    ensures ToUint32(r) == ToUint32(x)
  {
    var u := ToUint32(x);
    if u < 0x8000_0000 then u else u - 0x1_0000_0000
  }

  function Imul(x: int, y: int): int {
    ToInt32(x * y)
  }

  class Generator {
    var state: u32

    constructor (seed: int)
      ensures state == ToUint32(seed)
    {
      state := ToUint32(seed);
    }

    method Next() returns (r: u32)
      modifies this
      ensures state == Step(old(state)) && r == state
    {
      StepIsCongruential(state);
      state := ToUint32(Imul(state, 1664525) + 1013904223);
      return state;
    }

    method Int(maxExclusive: nat) returns (r: nat)
      requires maxExclusive > 0
      modifies this
      ensures state == Step(old(state)) && r == state % maxExclusive < maxExclusive
    {
      var n := Next();
      r := n % maxExclusive;
    }
  }

  // ---------------------------------------------------------------- the sequence of states

  function Step(s: u32): u32 {
    (A * s + C) % 0x1_0000_0000
  }

  /** The signed product, the exact sum and the unsigned truncation amount to one congruence. */
  lemma StepIsCongruential(s: u32)
    ensures ToUint32(Imul(s, 1664525) + 1013904223) == Step(s)
  {
    var p := s * 1664525;
    var i := Imul(s, 1664525);
    assert i % 0x1_0000_0000 == p % 0x1_0000_0000;
    ModAdd(i, p, 1013904223);
  }

  lemma ModAdd(x: int, y: int, c: int)
    requires x % 0x1_0000_0000 == y % 0x1_0000_0000
    ensures (x + c) % 0x1_0000_0000 == (y + c) % 0x1_0000_0000
  {
  }

  function State(seed: u32, n: nat): u32 {
    if n == 0 then seed else Step(State(seed, n - 1))
  }

  // ---------------------------------------------------------------- powers of two

  function Pow2(k: nat): (p: nat)
    ensures p > 0
  {
    if k == 0 then 1 else 2 * Pow2(k - 1)
  }

  predicate Divides(d: nat, x: int)
    requires d > 0
  {
    x % d == 0
  }

  lemma Quotient(d: nat, x: int) returns (q: int)
    requires d > 0 && Divides(d, x)
    ensures x == d * q
  {
    q := x / d;
    assert x == d * (x / d) + x % d;
  }

  lemma Divided(d: nat, x: int, q: int)
    requires d > 0 && x == d * q
    ensures Divides(d, x)
  {
    DivModUnique(x, d, q, 0);
  }

  /** Halving both sides: 2^k divides 2x exactly when 2^(k-1) divides x. */
  lemma Halve(k: nat, x: int)
    requires k > 0
    ensures Divides(Pow2(k), 2 * x) <==> Divides(Pow2(k - 1), x)
  {
    var e := Pow2(k - 1);
    if Divides(Pow2(k), 2 * x) {
      var q := Quotient(Pow2(k), 2 * x);
      assert Pow2(k) * q == 2 * (e * q);
      Divided(e, x, q);
    }
    if Divides(e, x) {
      var q := Quotient(e, x);
      assert Pow2(k) * q == 2 * (e * q);
      Divided(Pow2(k), 2 * x, q);
    }
  }

  /** An odd factor does not matter for divisibility by a power of two. */
  lemma {:induction false} OddFactor(k: nat, odd: int, x: int)
    requires odd % 2 == 1
    ensures Divides(Pow2(k), odd * x) <==> Divides(Pow2(k), x)
  {
    if k > 0 {
      if x % 2 == 1 {
        OddNotDivided(k, x);
        OddTimesOdd(odd, x);
        OddNotDivided(k, odd * x);
      } else {
        var y := x / 2;
        assert x == 2 * y;
        assert odd * x == 2 * (odd * y);
        Halve(k, y);
        Halve(k, odd * y);
        OddFactor(k - 1, odd, y);
      }
    }
  }

  lemma OddTimesOdd(a: int, b: int)
    requires a % 2 == 1 && b % 2 == 1
    ensures (a * b) % 2 == 1
  {
    var m, n := a / 2, b / 2;
    assert a * b == 2 * (m * b) + b by { assert a == 2 * m + 1; }
  }

  lemma OddNotDivided(k: nat, x: int)
    requires k > 0 && x % 2 == 1
    ensures !Divides(Pow2(k), x)
  {
    var d := Pow2(k);
    var e := Pow2(k - 1);
    assert x == d * (x / d) + x % d;
    assert d * (x / d) == 2 * (e * (x / d));
  }

  // ---------------------------------------------------------------- the geometric sum

  function Power(n: nat): nat {
    if n == 0 then 1 else A * Power(n - 1)
  }

  /** 1 + A + ... + A^(n-1). */
  function Geo(n: nat): nat {
    if n == 0 then 0 else A * Geo(n - 1) + 1
  }

  lemma {:induction false} PowerAdd(m: nat, n: nat)
    ensures Power(m + n) == Power(m) * Power(n)
  {
    if m > 0 {
      PowerAdd(m - 1, n);
      assert Power(m + n) == A * (Power(m - 1) * Power(n));
    }
  }

  lemma {:induction false} GeoAdd(m: nat, n: nat)
    ensures Geo(m + n) == Power(n) * Geo(m) + Geo(n)
  {
    if m > 0 {
      GeoAdd(m - 1, n);
      GeoPower(n);
      GeoStep(Power(n), Geo(m - 1), Geo(n));
    }
  }

  lemma GeoStep(p: nat, g: nat, h: nat)
    requires (A - 1) * h + 1 == p
    ensures A * (p * g + h) + 1 == p * (A * g + 1) + h
  {
    var x := p * g;
    assert p * (A * g + 1) == A * x + p;
  }

  /** A^n - 1 = (A - 1)(1 + A + ... + A^(n-1)). */
  lemma {:induction false} GeoPower(n: nat)
    ensures (A - 1) * Geo(n) + 1 == Power(n)
  {
    if n > 0 {
      GeoPower(n - 1);
    }
  }

  lemma PowerMod4(n: nat)
    ensures Power(n) % 4 == 1
  {
    var q := PowerQuarter(n);
    SameRest(4, Power(n), 1, q);
  }

  /** A is one more than a multiple of four, and so are its powers. */
  lemma {:induction false} PowerQuarter(n: nat) returns (q: int)
    ensures Power(n) == 1 + 4 * q
  {
    if n == 0 {
      q := 0;
    } else {
      var p := PowerQuarter(n - 1);
      q := 1664525 * p + 416131;
    }
  }

  lemma SameRest(d: nat, a: int, b: int, q: int)
    requires d > 0 && a == b + d * q
    ensures a % d == b % d
  {
    DivModUnique(a, d, b / d + q, b % d);
  }

  lemma GeoParity(n: nat)
    ensures Geo(n) % 2 == n % 2
  {
    var q := GeoLessLength(n);
    SameRest(2, Geo(n), n, q);
  }

  /** A is odd, so the sum and its length differ by an even number. */
  lemma {:induction false} GeoLessLength(n: nat) returns (q: int)
    ensures Geo(n) == n + 2 * q
  {
    if n == 0 {
      q := 0;
    } else {
      var p := GeoLessLength(n - 1);
      q := 832262 * Geo(n - 1) + p;
    }
  }

  /** The heart of the matter: 2^k divides the geometric sum exactly when it divides its length. */
  lemma {:induction false} GeoDivides(k: nat, n: nat)
    ensures Divides(Pow2(k), Geo(n)) <==> Divides(Pow2(k), n)
  {
    if k == 0 {
    } else if n % 2 == 1 {
      GeoParity(n);
      OddNotDivided(k, n);
      OddNotDivided(k, Geo(n));
    } else {
      var m := n / 2;
      assert n == m + m && n == 2 * m;
      var odd := GeoEven(m);
      Halve(k, odd * Geo(m));
      OddFactor(k - 1, odd, Geo(m));
      GeoDivides(k - 1, m);
      Halve(k, m);
    }
  }

  /** Doubling the length doubles the sum, up to an odd factor, because A is 1 modulo 4. */
  lemma GeoEven(m: nat) returns (odd: nat)
    ensures odd % 2 == 1 && Geo(m + m) == 2 * (odd * Geo(m))
  {
    GeoAdd(m, m);
    PowerMod4(m);
    odd := DoublingFactor(Power(m), Geo(m));
  }

  lemma DoublingFactor(p: nat, g: nat) returns (odd: nat)
    requires p % 4 == 1
    ensures odd % 2 == 1 && p * g + g == 2 * (odd * g)
  {
    var q := p / 4;
    odd := 2 * q + 1;
    assert p + 1 == 2 * odd;
    assert (p + 1) * g == p * g + g;
    assert (2 * odd) * g == 2 * (odd * g);
  }

  // ---------------------------------------------------------------- the period

  /** The state after n steps, before truncation. */
  function Unreduced(seed: nat, n: nat): nat {
    if n == 0 then seed else A * Unreduced(seed, n - 1) + C
  }

  lemma {:induction false} Congruent(seed: u32, n: nat)
    ensures State(seed, n) == Unreduced(seed, n) % 0x1_0000_0000
  {
    if n > 0 {
      Congruent(seed, n - 1);
      StepOfCongruent(Unreduced(seed, n - 1), State(seed, n - 1));
    }
  }

  lemma StepOfCongruent(u: nat, s: u32)
    requires s == u % 0x1_0000_0000
    ensures Step(s) == (A * u + C) % 0x1_0000_0000
  {
    var q := u / 0x1_0000_0000;
    SameRemainder(A * u + C, A * s + C, 0x1_0000_0000);
    assert u == 0x1_0000_0000 * q + s;
    Divided(0x1_0000_0000, (A * u + C) - (A * s + C), A * q);
  }

  /** How far n steps move the state: an odd number times the geometric sum. */
  lemma {:induction false} Displacement(seed: nat, n: nat)
    ensures Unreduced(seed, n) - seed == ((A - 1) * seed + C) * Geo(n)
  {
    if n > 0 {
      Displacement(seed, n - 1);
      var w := (A - 1) * seed + C;
      assert Unreduced(seed, n) == A * (seed + w * Geo(n - 1)) + C;
      assert A * (w * Geo(n - 1)) == w * (A * Geo(n - 1));
      assert w * (A * Geo(n - 1)) + w == w * (A * Geo(n - 1) + 1);
    }
  }

  /** MAIN RESULT.  For every k up to 32 the low k bits of the state return to their first value after
      exactly the multiples of 2^k steps. */
  lemma LowBitsHaveFullPeriod(seed: u32, k: nat, n: nat)
    requires k <= 32
    ensures State(seed, n) % Pow2(k) == seed % Pow2(k) <==> n % Pow2(k) == 0
  {
    Congruent(seed, n);
    TruncationKeepsLowBits(k, Unreduced(seed, n));
    SameRemainder(Unreduced(seed, n), seed, Pow2(k));
    MovesByMultiples(seed, k, n);
  }

  lemma MovesByMultiples(seed: u32, k: nat, n: nat)
    ensures Divides(Pow2(k), Unreduced(seed, n) - seed) <==> Divides(Pow2(k), n)
  {
    Displacement(seed, n);
    var w := (A - 1) * seed + C;
    assert w == 2 * (832262 * seed + 506952111) + 1;
    OddFactor(k, w, Geo(n));
    GeoDivides(k, n);
  }

  lemma SameRemainder(x: int, y: int, d: nat)
    requires d > 0
    ensures (x - y) % d == 0 <==> x % d == y % d
  {
    if x % d == y % d {
      assert x - y == d * (x / d - y / d) + 0;
      DivModUnique(x - y, d, x / d - y / d, 0);
    }
    if (x - y) % d == 0 {
      var q := (x - y) / d;
      assert x == d * (y / d + q) + y % d;
      DivModUnique(x, d, y / d + q, y % d);
    }
  }

  lemma {:induction false} Pow2Add(m: nat, n: nat)
    ensures Pow2(m + n) == Pow2(m) * Pow2(n)
  {
    if m > 0 {
      Pow2Add(m - 1, n);
      assert Pow2(m + n) == 2 * (Pow2(m - 1) * Pow2(n));
    }
  }

  lemma Pow2Of32()
    ensures Pow2(32) == 0x1_0000_0000
  {
    Pow2Add(8, 8);
    Pow2Add(16, 16);
  }

  lemma TruncationKeepsLowBits(k: nat, x: nat)
    requires k <= 32
    ensures (x % 0x1_0000_0000) % Pow2(k) == x % Pow2(k)
  {
    Pow2Of32();
    Pow2Add(k, 32 - k);
    var q := x / 0x1_0000_0000;
    var r := x % 0x1_0000_0000;
    var d, e := Pow2(k), Pow2(32 - k);
    assert x == 0x1_0000_0000 * q + r;
    LowerPart(d, e, 0x1_0000_0000, q, x - r);
    SameRemainder(x, r, d);
  }

  lemma LowerPart(d: nat, e: nat, m: nat, q: nat, x: int)
    requires d > 0 && m == d * e && x == m * q
    ensures Divides(d, x)
  {
    assert x == d * (e * q);
    Divided(d, x, e * q);
  }

  lemma {:induction false} StateAdd(seed: u32, m: nat, n: nat)
    ensures State(seed, m + n) == State(State(seed, m), n)
  {
    if n > 0 {
      StateAdd(seed, m, n - 1);
    }
  }

  /** MAIN RESULT.  From any seed the first 2^32 states are pairwise distinct. */
  lemma FullPeriod(seed: u32, i: nat, j: nat)
    requires i < j < i + 0x1_0000_0000
    ensures State(seed, i) != State(seed, j)
    ensures State(seed, i + 0x1_0000_0000) == State(seed, i)
  {
    ReturnsFrom(seed, i, j - i);
    ReturnsFrom(seed, i, 0x1_0000_0000);
  }

  lemma ReturnsFrom(seed: u32, i: nat, n: nat)
    ensures State(seed, i + n) == State(seed, i) <==> n % 0x1_0000_0000 == 0
  {
    StateAdd(seed, i, n);
    ReturnsExactly(State(seed, i), n);
  }

  lemma ReturnsExactly(seed: u32, n: nat)
    ensures State(seed, n) == seed <==> n % 0x1_0000_0000 == 0
  {
    Pow2Of32();
    LowBitsHaveFullPeriod(seed, 32, n);
  }

  /** The seed of a case; below 2^53 the sum is exact in a double. */
  function CaseSeed(baseSeed: nat, index: nat): u32 {
    ToUint32(baseSeed + index * 7919)
  }

  /** Cases of one campaign have different seeds: indices share a seed only 2^32 apart. */
  lemma CaseSeedsDistinct(baseSeed: nat, i: nat, j: nat)
    ensures CaseSeed(baseSeed, i) == CaseSeed(baseSeed, j) <==> i % 0x1_0000_0000 == j % 0x1_0000_0000
  {
    Pow2Of32();
    var x, y := baseSeed + i * 7919, baseSeed + j * 7919;
    assert x - y == 7919 * (i - j);
    SameRemainder(x, y, 0x1_0000_0000);
    SameRemainder(i, j, 0x1_0000_0000);
    OddFactor(32, 7919, i - j);
  }
}
