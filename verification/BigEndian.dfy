/** Fixed-width and minimal big-endian numerals over bytes. */
module BigEndian {
  import opened Prelude

  function Pow256(k: nat): (p: nat)
    ensures p > 0
  {
    if k == 0 then 1 else 256 * Pow256(k - 1)
  }

  /** The value of a big-endian numeral. */
  function Value(s: Bytes): nat {
    if s == [] then 0 else 256 * Value(s[..|s| - 1]) + s[|s| - 1]
  }

  /** The last `k` big-endian digits of `n`. */
  function Fixed(n: nat, k: nat): (s: Bytes)
    ensures |s| == k
  {
    if k == 0 then [] else Fixed(n / 256, k - 1) + [n % 256]
  }

  /** The numeral without leading zeros; zero is one zero byte. */
  function Minimal(n: nat): (s: Bytes)
    ensures |s| >= 1
  {
    if n < 256 then [n] else Minimal(n / 256) + [n % 256]
  }

  lemma {:induction false} FixedValue(n: nat, k: nat)
    requires n < Pow256(k)
    ensures Value(Fixed(n, k)) == n
  {
    if k > 0 {
      FixedValue(n / 256, k - 1);
      var s := Fixed(n, k);
      assert s[..|s| - 1] == Fixed(n / 256, k - 1);
    }
  }

  lemma {:induction false} ValueFixed(s: Bytes)
    ensures Value(s) < Pow256(|s|)
    ensures Fixed(Value(s), |s|) == s
  {
    if s != [] {
      var t := s[..|s| - 1];
      ValueFixed(t);
      var v := Value(t);
      assert Value(s) / 256 == v && Value(s) % 256 == s[|s| - 1];
      assert s == t + [s[|s| - 1]];
    }
  }

  /** No numeral is shorter, and the first digit shows it. */
  lemma {:induction false} MinimalValue(n: nat)
    ensures Value(Minimal(n)) == n
    ensures |Minimal(n)| > 1 ==> Minimal(n)[0] != 0
    ensures n > 0 ==> Minimal(n)[0] != 0
  {
    if n >= 256 {
      MinimalValue(n / 256);
      var s := Minimal(n);
      assert s[..|s| - 1] == Minimal(n / 256);
      assert s[0] == Minimal(n / 256)[0];
    }
  }

  /** A numeral without a leading zero is the minimal numeral of its value. */
  lemma {:induction false} MinimalIsUnique(s: Bytes)
    requires |s| >= 1 && (|s| > 1 ==> s[0] != 0)
    ensures Minimal(Value(s)) == s
  {
    var t := s[..|s| - 1];
    assert s == t + [s[|s| - 1]];
    if |s| == 1 {
      assert Value(t) == 0;
    } else {
      MinimalIsUnique(t);
      NonZeroValue(t);
      assert Value(s) / 256 == Value(t) && Value(s) % 256 == s[|s| - 1];
    }
  }

  lemma {:induction false} NonZeroValue(s: Bytes)
    requires |s| >= 1 && s[0] != 0
    ensures Value(s) > 0
  {
    if |s| > 1 {
      NonZeroValue(s[..|s| - 1]);
    }
  }

  lemma {:induction false} MinimalLength(n: nat, k: nat)
    requires n < Pow256(k) && k >= 1
    ensures |Minimal(n)| <= k
  {
    if n >= 256 {
      MinimalLength(n / 256, k - 1);
    }
  }

  /** Leading zeros do not change the value. */
  lemma {:induction false} LeadingZero(s: Bytes)
    requires |s| > 0 && s[0] == 0
    ensures Value(s) == Value(s[1..])
  {
    if |s| > 1 {
      LeadingZero(s[..|s| - 1]);
      assert s[..|s| - 1][1..] == s[1..][..|s[1..]| - 1];
    }
  }

  lemma {:induction false} Pow256Add(m: nat, n: nat)
    ensures Pow256(m + n) == Pow256(m) * Pow256(n)
  {
    if m > 0 {
      Pow256Add(m - 1, n);
      assert Pow256(m + n) == 256 * (Pow256(m - 1) * Pow256(n));
    }
  }

  const LIMIT256: nat := 0x1_0000000000000000_0000000000000000_0000000000000000_0000000000000000

  lemma Pow256Of32()
    ensures Pow256(32) == LIMIT256
  {
    Pow256Add(4, 4);
    Pow256Add(8, 8);
    Pow256Add(16, 16);
    assert Pow256(4) == 0x1_0000_0000;
  }
}
