/** The encoder of exported state: RLP (Appendix B of the Ethereum Yellow Paper) around values in
    the tuple layout of the Solidity Contract ABI Specification. */
module Vassp {
  import opened Prelude
  import BE = BigEndian

  datatype Pair = Pair(slotId: Bytes, abiValue: Bytes)

  /** Go slices have an `int` length. */
  const MAX_INT: nat := 0x7fff_ffff_ffff_ffff

  // ---------------------------------------------------------------- specification

  /** The RLP header of a payload of `n` bytes; `small` is 0x80 for strings and 0xc0 for lists. */
  function Header(small: nat, n: nat): Bytes
    requires small in {0x80, 0xc0} && n <= MAX_INT
  {
    if n <= 55 then [small + n]
    else
      LengthFits(n);
      [small + 55 + |BE.Minimal(n)|] + BE.Minimal(n)
  }

  lemma LengthFits(n: nat)
    requires n <= MAX_INT
    ensures |BE.Minimal(n)| <= 8
  {
    assert BE.Pow256(8) == 0x1_0000_0000_0000_0000 by {
      assert BE.Pow256(4) == 0x1_0000_0000;
    }
    BE.MinimalLength(n, 8);
  }

  function RlpString(value: Bytes): Bytes
    requires |value| <= MAX_INT
  {
    if |value| == 1 && value[0] < 0x80 then value else Header(0x80, |value|) + value
  }

  function RlpList(payload: Bytes): Bytes
    requires |payload| <= MAX_INT
  {
    Header(0xc0, |payload|) + payload
  }

  function Concat(items: seq<Bytes>): Bytes {
    if items == [] then [] else Concat(items[..|items| - 1]) + items[|items| - 1]
  }

  /** The two strings of one pair, as a list payload. */
  function PairPayload(p: Pair): Bytes
    requires |p.slotId| <= MAX_INT && |p.abiValue| <= MAX_INT
  {
    RlpString(p.slotId) + RlpString(p.abiValue)
  }

  /** The pair can be held in memory: the lengths involved are Go ints. */
  predicate PairFits(p: Pair) {
    |p.slotId| <= MAX_INT && |p.abiValue| <= MAX_INT && |PairPayload(p)| <= MAX_INT
  }

  function PairsPayload(pairs: seq<Pair>): Bytes
    requires forall i | 0 <= i < |pairs| :: PairFits(pairs[i])
  {
    if pairs == [] then []
    else
      assert PairFits(pairs[0]);
      RlpList(PairPayload(pairs[0])) + PairsPayload(pairs[1..])
  }

  predicate Fits(pairs: seq<Pair>) {
    (forall i | 0 <= i < |pairs| :: PairFits(pairs[i])) && |PairsPayload(pairs)| <= MAX_INT
  }

  function EncodePairs(pairs: seq<Pair>): Bytes
    requires Fits(pairs)
  {
    RlpList(PairsPayload(pairs))
  }

  // ---------------------------------------------------------------- the encoder

  method EncodeLength(length: nat) returns (out: Bytes)
    requires length <= MAX_INT
    ensures out == BE.Minimal(length)
  {
    if length == 0 {
      return [0];
    }
    var buf := BE.Fixed(length, 8);
    assert BE.Value(buf) == length by {
      LengthFits(length);
      assert BE.Pow256(4) == 0x1_0000_0000;
      BE.FixedValue(length, 8);
    }
    var first := 0;
    while first < |buf| - 1 && buf[first] == 0
      invariant 0 <= first <= |buf| - 1
      invariant BE.Value(buf[first..]) == length
    {
      BE.LeadingZero(buf[first..]);
      assert buf[first..][1..] == buf[first + 1..];
      first := first + 1;
    }
    out := buf[first..];
    BE.MinimalIsUnique(out);
  }

  method EncodeBytes(value: Bytes) returns (out: Bytes)
    requires |value| <= MAX_INT
    ensures out == RlpString(value)
  {
    if |value| == 1 && value[0] < 0x80 {
      return value;
    }
    if |value| <= 55 {
      out := [0x80 + |value|];
      return out + value;
    }
    var lenBytes := EncodeLength(|value|);
    LengthFits(|value|);
    out := [0xb7 + |lenBytes|];
    out := out + lenBytes;
    assert out == Header(0x80, |value|);
    return out + value;
  }

  method EncodeList(items: seq<Bytes>) returns (out: Bytes)
    requires |Concat(items)| <= MAX_INT
    ensures out == RlpList(Concat(items))
  {
    var payload: Bytes := [];
    for i := 0 to |items|
      invariant payload == Concat(items[..i])
    {
      assert items[..i + 1][..i] == items[..i];
      payload := payload + items[i];
    }
    assert items[..|items|] == items;
    if |payload| <= 55 {
      out := [0xc0 + |payload|];
      return out + payload;
    }
    var lenBytes := EncodeLength(|payload|);
    LengthFits(|payload|);
    out := [0xf7 + |lenBytes|];
    out := out + lenBytes;
    assert out == Header(0xc0, |payload|);
    return out + payload;
  }

  method Encode(pairs: seq<Pair>) returns (out: Bytes)
    requires Fits(pairs)
    ensures out == EncodePairs(pairs)
  {
    var encodedPairs := EncodeItems(pairs);
    ConcatIsPayload(encodedPairs, pairs);
    out := EncodeList(encodedPairs);
  }

  /** The loop of the encoder. */
  method EncodeItems(pairs: seq<Pair>) returns (encodedPairs: seq<Bytes>)
    requires forall i | 0 <= i < |pairs| :: PairFits(pairs[i])
    ensures |encodedPairs| == |pairs|
    ensures forall i | 0 <= i < |pairs| :: IsItem(encodedPairs[i], pairs[i])
  {
    encodedPairs := [];
    for i := 0 to |pairs|
      invariant |encodedPairs| == i
      invariant forall j | 0 <= j < i :: IsItem(encodedPairs[j], pairs[j])
    {
      var item := EncodePair(pairs[i]);
      encodedPairs := encodedPairs + [item];
    }
  }

  predicate IsItem(item: Bytes, p: Pair) {
    PairFits(p) && item == RlpList(PairPayload(p))
  }

  method EncodePair(p: Pair) returns (out: Bytes)
    requires PairFits(p)
    ensures IsItem(out, p)
  {
    var slot := EncodeBytes(p.slotId);
    var value := EncodeBytes(p.abiValue);
    ConcatTwo(slot, value);
    out := EncodeList([slot, value]);
  }

  lemma ConcatTwo(a: Bytes, b: Bytes)
    ensures Concat([a, b]) == a + b
  {
    assert [a, b][..1] == [a];
    assert [a][..0] == [];
    assert Concat([a]) == [] + a;
  }

  lemma {:induction false} ConcatFromFront(items: seq<Bytes>)
    requires items != []
    ensures Concat(items) == items[0] + Concat(items[1..])
  {
    if |items| > 1 {
      ConcatFromFront(items[..|items| - 1]);
      assert items[..|items| - 1][1..] == items[1..][..|items| - 2];
    } else {
      assert items[..0] == [];
    }
  }

  lemma {:induction false} ConcatIsPayload(items: seq<Bytes>, pairs: seq<Pair>)
    requires |items| == |pairs|
    requires forall i | 0 <= i < |pairs| :: IsItem(items[i], pairs[i])
    ensures forall i | 0 <= i < |pairs| :: PairFits(pairs[i])
    ensures Concat(items) == PairsPayload(pairs)
  {
    if pairs != [] {
      ConcatFromFront(items);
      ConcatIsPayload(items[1..], pairs[1..]);
    }
  }

  // ---------------------------------------------------------------- ABI values

  function Uint256(value: u64): Bytes {
    seq(24, i => 0) + BE.Fixed(value, 8)
  }

  /** Length word, then the bytes padded with zeros to whole words. */
  function AbiString(value: Bytes): Bytes
    requires |value| < TWO64
  {
    Uint256(|value|) + value + seq(PaddedLen(|value|) - |value|, i => 0)
  }

  function PaddedLen(n: nat): (p: nat)
    ensures n <= p < n + 32 && p % 32 == 0
  {
    ((n + 31) / 32) * 32
  }

  /** A (string, uint256, uint256, uint256) tuple: the head holds the offset of the string. */
  function MetaTuple(bridge: Bytes, price: u64, remain: u64, lockSize: u64): Bytes
    requires |bridge| < TWO64
  {
    Uint256(128) + Uint256(price) + Uint256(remain) + Uint256(lockSize) + AbiString(bridge)
  }
}
