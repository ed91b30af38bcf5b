/** The exported hotel state as it leaves the chaincode: ABI values in RLP pairs, written as hex.
    Nothing of the state is lost on the way. */
module Export {
  import opened Prelude
  import BE = BigEndian
  import opened Vassp
  import opened VasspDecoder

  datatype State = State(bridge: Name, price: u64, remain: u64, lockSize: u64, lockTotal: u64)

  function Pairs(st: State, metaSlot: Bytes32, totalSlot: Bytes32): seq<Pair> {
    [Pair(metaSlot, MetaTuple(st.bridge, st.price, st.remain, st.lockSize)), Pair(totalSlot, Uint256(st.lockTotal))]
  }

  function ExportBytes(st: State, metaSlot: Bytes32, totalSlot: Bytes32): Bytes {
    PairsFit(st, metaSlot, totalSlot);
    EncodePairs(Pairs(st, metaSlot, totalSlot))
  }

  lemma SmallString(value: Bytes)
    requires |value| <= 0x4_0000_0000
    ensures |RlpString(value)| <= |value| + 9
  {
    LengthFits(|value|);
  }

  lemma SmallPair(p: Pair)
    requires |p.slotId| == 32 && |p.abiValue| <= 0x2_0000_0000
    ensures PairFits(p) && |PairPayload(p)| <= |p.abiValue| + 50
  {
    SmallString(p.slotId);
    SmallString(p.abiValue);
  }

  lemma PairsFit(st: State, metaSlot: Bytes32, totalSlot: Bytes32)
    ensures Fits(Pairs(st, metaSlot, totalSlot))
  {
    var pairs := Pairs(st, metaSlot, totalSlot);
    SmallPair(pairs[0]);
    SmallPair(pairs[1]);
    LengthFits(|PairPayload(pairs[0])|);
    LengthFits(|PairPayload(pairs[1])|);
    assert pairs[1..] == [pairs[1]] && pairs[1..][1..] == [];
    assert PairsPayload(pairs[1..]) == RlpList(PairPayload(pairs[1])) + [];
  }

  // ---------------------------------------------------------------- reading ABI values

  /** The number in the word at offset `at`, if it is a uint64. */
  function ReadUint(s: Bytes, at: nat): Option<u64>
  {
    if |s| < at + 32 || s[at..at + 24] != seq(24, i => 0) then None
    else
      BE.ValueFixed(s[at + 24..at + 32]);
      assert BE.Pow256(8) == 0x1_0000_0000_0000_0000 by { assert BE.Pow256(4) == 0x1_0000_0000; }
      Some(BE.Value(s[at + 24..at + 32]))
  }

  lemma ReadWrittenUint(before: Bytes, value: u64, after: Bytes)
    ensures ReadUint(before + Uint256(value) + after, |before|) == Some(value)
  {
    var s := before + Uint256(value) + after;
    assert BE.Pow256(8) == 0x1_0000_0000_0000_0000 by { assert BE.Pow256(4) == 0x1_0000_0000; }
    BE.FixedValue(value, 8);
    assert s[|before|..|before| + 24] == seq(24, i => 0);
    assert s[|before| + 24..|before| + 32] == BE.Fixed(value, 8);
  }

  /** Reads a (string, uint256, uint256, uint256) tuple through the offset in its head. */
  function ReadMeta(s: Bytes): Option<(Bytes, u64, u64, u64)> {
    var offset, price, remain, lockSize := ReadUint(s, 0), ReadUint(s, 32), ReadUint(s, 64), ReadUint(s, 96);
    if offset == None || price == None || remain == None || lockSize == None then None
    else
      var length := ReadUint(s, offset.value);
      if length == None || |s| < offset.value + 32 + length.value then None
      else Some((s[offset.value + 32..offset.value + 32 + length.value], price.value, remain.value, lockSize.value))
  }

  lemma ReadUintAt(s: Bytes, before: Bytes, value: u64, after: Bytes)
    requires s == before + Uint256(value) + after
    ensures ReadUint(s, |before|) == Some(value)
  {
    ReadWrittenUint(before, value, after);
  }

  lemma Regroup(a: Bytes, b: Bytes, c: Bytes, d: Bytes, e: Bytes)
    ensures a + b + c + d + e == [] + a + (b + c + d + e)
    ensures a + b + c + d + e == a + b + (c + d + e)
    ensures a + b + c + d + e == (a + b) + c + (d + e)
    ensures a + b + c + d + e == (a + b + c) + d + e
  {
  }

  lemma ReadWrittenMeta(bridge: Name, price: u64, remain: u64, lockSize: u64)
    ensures ReadMeta(MetaTuple(bridge, price, remain, lockSize)) == Some((bridge, price, remain, lockSize))
  {
    var s := MetaTuple(bridge, price, remain, lockSize);
    var w0, w1, w2, w3 := Uint256(128), Uint256(price), Uint256(remain), Uint256(lockSize);
    var tail := AbiString(bridge);
    Regroup(w0, w1, w2, w3, tail);
    ReadUintAt(s, [], 128, w1 + w2 + w3 + tail);
    ReadUintAt(s, w0, price, w2 + w3 + tail);
    ReadUintAt(s, w0 + w1, remain, w3 + tail);
    ReadUintAt(s, w0 + w1 + w2, lockSize, tail);
    ReadTail(w0 + w1 + w2 + w3, bridge);
  }

  lemma ReadTail(head: Bytes, bridge: Name)
    requires |head| == 128
    ensures var s := head + AbiString(bridge);
            && ReadUint(s, 128) == Some(|bridge|)
            && |s| >= 160 + |bridge| && s[160..160 + |bridge|] == bridge
  {
    var padding := seq(PaddedLen(|bridge|) - |bridge|, i => 0);
    var s := head + AbiString(bridge);
    assert s == head + Uint256(|bridge|) + (bridge + padding);
    ReadUintAt(s, head, |bridge|, bridge + padding);
    assert s[160..160 + |bridge|] == bridge;
  }

  // ---------------------------------------------------------------- hex

  const TABLE := "0123456789abcdef"

  function Digit(d: nat): char
    requires d < 16
  {
    if d < 10 then '0' + d as char else 'a' + (d - 10) as char
  }

  function Hex(s: Bytes): (h: string)
    ensures |h| == 2 * |s|
  {
    if s == [] then "" else Hex(s[..|s| - 1]) + [Digit(s[|s| - 1] / 16), Digit(s[|s| - 1] % 16)]
  }

  function DigitValue(c: char): Option<nat> {
    if '0' <= c <= '9' then Some((c - '0') as int)
    else if 'a' <= c <= 'f' then Some((c - 'a') as int + 10)
    else None
  }

  function Unhex(h: string): Option<Bytes> {
    if h == "" then Some([])
    else if |h| == 1 then None
    else
      var front := Unhex(h[..|h| - 2]);
      var hi, lo := DigitValue(h[|h| - 2]), DigitValue(h[|h| - 1]);
      if front == None || hi == None || lo == None then None
      else
        assert hi.value < 16 && lo.value < 16;
        Some(front.value + [16 * hi.value + lo.value])
  }

  lemma DigitsReadBack(d: nat)
    requires d < 16
    ensures DigitValue(Digit(d)) == Some(d)
    ensures TABLE[d] == Digit(d)
  {
  }

  /** `bytesToHex`: two digits per byte, written into a buffer of twice the length. */
  method BytesToHex(value: Bytes) returns (h: string)
    ensures h == Hex(value)
  {
    var out := new char[2 * |value|];
    for i := 0 to |value|
      invariant out[..2 * i] == Hex(value[..i])
    {
      assert value[..i + 1][..i] == value[..i];
      ghost var done := out[..2 * i];
      DigitsReadBack(value[i] / 16);
      DigitsReadBack(value[i] % 16);
      out[2 * i] := TABLE[value[i] / 16];
      out[2 * i + 1] := TABLE[value[i] % 16];
      assert out[..2 * i] == done;
      assert out[..2 * (i + 1)] == done + [out[2 * i], out[2 * i + 1]];
    }
    assert value[..|value|] == value;
    assert out[..] == out[..2 * |value|];
    return out[..];
  }

  lemma {:induction false} UnhexHex(s: Bytes)
    ensures Unhex(Hex(s)) == Some(s)
  {
    if s != [] {
      var n := |s| - 1;
      UnhexHex(s[..n]);
      UnhexByte(Hex(s[..n]), s[..n], s[n]);
      assert s[..n] + [s[n]] == s;
    }
  }

  lemma UnhexByte(front: string, bytes: Bytes, b: byte)
    requires Unhex(front) == Some(bytes)
    ensures Unhex(front + [Digit(b / 16), Digit(b % 16)]) == Some(bytes + [b])
  {
    var h := front + [Digit(b / 16), Digit(b % 16)];
    assert h[..|h| - 2] == front;
    DigitsReadBack(b / 16);
    DigitsReadBack(b % 16);
  }

  // ---------------------------------------------------------------- the whole export

  function FindSlot(pairs: seq<Pair>, slot: Bytes): Option<Bytes> {
    if pairs == [] then None
    else if pairs[0].slotId == slot then Some(pairs[0].abiValue)
    else FindSlot(pairs[1..], slot)
  }

  function ReadText(text: string): Option<seq<Pair>> {
    if |text| < 2 || text[..2] != "0x" then None
    else
      var bytes := Unhex(text[2..]);
      if bytes == None then None else Decode(bytes.value)
  }

  function ReadState(pairs: seq<Pair>, metaSlot: Bytes, totalSlot: Bytes): Option<((Bytes, u64, u64, u64), u64)> {
    var metaValue, totalValue := FindSlot(pairs, metaSlot), FindSlot(pairs, totalSlot);
    if metaValue == None || totalValue == None then None
    else
      var meta, total := ReadMeta(metaValue.value), ReadUint(totalValue.value, 0);
      if meta == None || total == None then None else Some((meta.value, total.value))
  }

  /** What a receiver makes of the `lockedState` field of a lock response. */
  function ReadExport(text: string, metaSlot: Bytes, totalSlot: Bytes): Option<((Bytes, u64, u64, u64), u64)> {
    var pairs := ReadText(text);
    if pairs == None then None else ReadState(pairs.value, metaSlot, totalSlot)
  }

  function ExportText(st: State, metaSlot: Bytes32, totalSlot: Bytes32): string {
    "0x" + Hex(ExportBytes(st, metaSlot, totalSlot))
  }

  lemma ReadWrittenText(pairs: seq<Pair>)
    requires Fits(pairs)
    ensures ReadText("0x" + Hex(EncodePairs(pairs))) == Some(pairs)
  {
    var bytes := EncodePairs(pairs);
    DecodesExactlyEncodings(bytes, pairs);
    UnhexHex(bytes);
    var text := "0x" + Hex(bytes);
    assert text[2..] == Hex(bytes);
  }

  lemma FindTwoSlots(a: Pair, b: Pair)
    requires a.slotId != b.slotId
    ensures FindSlot([a, b], a.slotId) == Some(a.abiValue)
    ensures FindSlot([a, b], b.slotId) == Some(b.abiValue)
  {
    assert [a, b][1..] == [b];
  }

  lemma ReadPairsState(st: State, metaSlot: Bytes32, totalSlot: Bytes32)
    requires metaSlot != totalSlot
    ensures ReadState(Pairs(st, metaSlot, totalSlot), metaSlot, totalSlot)
            == Some(((st.bridge, st.price, st.remain, st.lockSize), st.lockTotal))
  {
    var meta, total := MetaTuple(st.bridge, st.price, st.remain, st.lockSize), Uint256(st.lockTotal);
    FindTwoSlots(Pair(metaSlot, meta), Pair(totalSlot, total));
    ReadWrittenMeta(st.bridge, st.price, st.remain, st.lockSize);
    ReadUintAt(total, [], st.lockTotal, []);
  }

  /** MAIN RESULT.  The text sent to the other chains determines the exported state exactly. */
  lemma ExportIsLossless(st: State, metaSlot: Bytes32, totalSlot: Bytes32)
    requires metaSlot != totalSlot
    ensures ReadExport(ExportText(st, metaSlot, totalSlot), metaSlot, totalSlot)
            == Some(((st.bridge, st.price, st.remain, st.lockSize), st.lockTotal))
  {
    PairsFit(st, metaSlot, totalSlot);
    ReadWrittenText(Pairs(st, metaSlot, totalSlot));
    ReadPairsState(st, metaSlot, totalSlot);
  }

  lemma ExportIsInjective(a: State, b: State, metaSlot: Bytes32, totalSlot: Bytes32)
    requires metaSlot != totalSlot
    ensures ExportText(a, metaSlot, totalSlot) == ExportText(b, metaSlot, totalSlot) <==> a == b
  {
    ExportIsLossless(a, metaSlot, totalSlot);
    ExportIsLossless(b, metaSlot, totalSlot);
  }
}
