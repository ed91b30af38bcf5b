/** UTF-8 of strings of Unicode scalar values, with its decoder. */
module Utf8 {
  import opened Prelude
  import opened Arith

  function EncodeChar(c: char): (b: Bytes)
    ensures 1 <= |b| <= 4
  {
    var n := c as int;
    if n < 0x80 then [n]
    else if n < 0x800 then [0xc0 + n / 64, 0x80 + n % 64]
    else if n < 0x1_0000 then [0xe0 + n / 4096, 0x80 + n / 64 % 64, 0x80 + n % 64]
    else [0xf0 + n / 262144, 0x80 + n / 4096 % 64, 0x80 + n / 64 % 64, 0x80 + n % 64]
  }

  function Encode(s: string): Bytes {
    if s == "" then [] else EncodeChar(s[0]) + Encode(s[1..])
  }

  /** The six payload bits of a continuation byte. */
  function Low(b: byte): int { b as int - 0x80 }

  /** The code point at the front and how many bytes it takes. */
  function FirstCode(b: Bytes): Option<(int, nat)> {
    if b == [] then None
    else if b[0] < 0x80 then Some((b[0], 1))
    else if b[0] < 0xc0 then None
    else if b[0] < 0xe0 then
      if |b| < 2 then None else Some((64 * (b[0] as int - 0xc0) + Low(b[1]), 2))
    else if b[0] < 0xf0 then
      if |b| < 3 then None else Some((4096 * (b[0] as int - 0xe0) + 64 * Low(b[1]) + Low(b[2]), 3))
    else if |b| < 4 then None
    else Some((262144 * (b[0] as int - 0xf0) + 4096 * Low(b[1]) + 64 * Low(b[2]) + Low(b[3]), 4))
  }

  function Decode(b: Bytes): Option<string>
    decreases |b|
  {
    if b == [] then Some("")
    else
      var first := FirstCode(b);
      if first == None || first.value.0 < 0 || first.value.0 >= 0x11_0000 || 0xd800 <= first.value.0 < 0xe000 then None
      else
        var rest := Decode(b[first.value.1..]);
        if rest == None then None else Some([first.value.0 as char] + rest.value)
  }

  lemma Digits(n: nat)
    ensures n == 64 * (n / 64) + n % 64
    ensures n == 4096 * (n / 4096) + 64 * (n / 64 % 64) + n % 64
    ensures n == 262144 * (n / 262144) + 4096 * (n / 4096 % 64) + 64 * (n / 64 % 64) + n % 64
  {
    SplitTwice(n, 64);
    SplitTwice(n, 4096);
  }

  /** Dividing by 64 after dividing by `d` is dividing by 64 times `d`. */
  lemma SplitTwice(n: nat, d: nat)
    requires d == 64 || d == 4096
    ensures n == 64 * d * (n / (64 * d)) + d * (n / d % 64) + n % d
  {
    var q := n / d;
    var r := q / 64;
    assert n == 64 * d * r + (d * (q % 64) + n % d);
    DivModUnique(n, 64 * d, r, d * (q % 64) + n % d);
  }

  lemma FirstOfEncoded(c: char, rest: Bytes)
    ensures FirstCode(EncodeChar(c) + rest) == Some((c as int, |EncodeChar(c)|))
  {
    var n := c as int;
    var e := EncodeChar(c);
    var b := e + rest;
    assert forall i | 0 <= i < |e| :: b[i] == e[i];
    Digits(n);
  }

  lemma {:induction false} DecodeEncode(s: string)
    ensures Decode(Encode(s)) == Some(s)
  {
    if s != "" {
      var c, rest := EncodeChar(s[0]), Encode(s[1..]);
      FirstOfEncoded(s[0], rest);
      DecodeEncode(s[1..]);
      assert (c + rest)[|c|..] == rest;
      assert [s[0]] + s[1..] == s;
    }
  }
}
