/** Sums of a weight over the entries of a finite map, and how one write changes them. */
module MapSum {
  import Arith

  /** The sum of `w(k, m[k])` over all keys `k` of `m`. */
  ghost function Total<V>(m: map<string, V>, w: (string, V) -> nat): nat
    decreases |m|
  {
    if m == map[] then 0
    else
      var k :| k in m;
      w(k, m[k]) + Total(m - {k}, w)
  }

  /** The weight of an amount is the amount. */
  function Held(key: string, amount: nat): nat { amount }

  /** The contribution of one key, zero when it is absent. */
  ghost function At<V>(m: map<string, V>, w: (string, V) -> nat, k: string): nat {
    if k in m then w(k, m[k]) else 0
  }

  /** Any key may be taken out of the sum first. */
  lemma {:induction false} Pick<V>(m: map<string, V>, w: (string, V) -> nat, k: string)
    requires k in m
    ensures Total(m, w) == w(k, m[k]) + Total(m - {k}, w)
    decreases |m|
  {
    var p :| p in m && Total(m, w) == w(p, m[p]) + Total(m - {p}, w);
    if p != k {
      Pick(m - {p}, w, k);
      Pick(m - {k}, w, p);
      assert m - {p} - {k} == m - {k} - {p};
    }
  }

  /** A deletion takes exactly the old contribution of the key out of the sum. */
  lemma Deleted<V>(m: map<string, V>, w: (string, V) -> nat, k: string)
    ensures Total(m - {k}, w) + At(m, w, k) == Total(m, w)
  {
    if k in m {
      Pick(m, w, k);
    } else {
      assert m - {k} == m;
    }
  }

  /** A write replaces the old contribution of the key by the new one. */
  lemma Written<V>(m: map<string, V>, w: (string, V) -> nat, k: string, v: V)
    ensures Total(m[k := v], w) + At(m, w, k) == Total(m, w) + w(k, v)
  {
    Pick(m[k := v], w, k);
    assert m[k := v] - {k} == m - {k};
    Deleted(m, w, k);
  }

  /** No single entry exceeds the sum. */
  lemma Bounded<V>(m: map<string, V>, w: (string, V) -> nat, k: string)
    ensures At(m, w, k) <= Total(m, w)
  {
    Deleted(m, w, k);
  }

  /** A sum of multiples of `d` is a multiple of `d`. */
  lemma {:induction false} Divisible<V>(m: map<string, V>, w: (string, V) -> nat, d: nat)
    requires d > 0
    requires forall k | k in m :: w(k, m[k]) % d == 0
    ensures Total(m, w) % d == 0
    decreases |m|
  {
    if m != map[] {
      var k :| k in m && Total(m, w) == w(k, m[k]) + Total(m - {k}, w);
      var a, b := w(k, m[k]), Total(m - {k}, w);
      Divisible(m - {k}, w, d);
      Arith.SumDivisible(a, b, d);
    }
  }
}
