/** The formats byte by byte, as their documents give them: RLP strings and lists (Appendix B of the
    Ethereum Yellow Paper), the head and tail of an ABI tuple (Solidity Contract ABI Specification),
    hex digits, UTF-8 (RFC 3629), and the tags and lengths of a canonical snapshot. */
module Layouts {
  import opened Prelude
  import BE = BigEndian
  import Utf8
  import Rlp = Vassp
  import Reader = VasspDecoder
  import Export
  import Snap = CanonicalSnapshot
  import Lcg

  // ---------------------------------------------------------------- RLP

  /** `s` is a first byte `base` plus the number of length bytes, the shortest big-endian length, and
      the payload. */
  ghost predicate LongForm(s: Bytes, base: nat, payload: Bytes) {
    var k := |s| - |payload| - 1;
    && 1 <= k <= 8 && s[0] == base + k && s[1] != 0
    && BE.Value(s[1..1 + k]) == |payload| && s[1 + k..] == payload
  }

  lemma HeaderLayout(small: nat, payload: Bytes)
    requires small in {0x80, 0xc0} && |payload| <= Rlp.MAX_INT
    ensures |payload| <= 55 ==> Rlp.Header(small, |payload|) == [small + |payload|]
    ensures |payload| > 55 ==> LongForm(Rlp.Header(small, |payload|) + payload, small + 55, payload)
  {
    if |payload| > 55 {
      var length := BE.Minimal(|payload|);
      Rlp.LengthFits(|payload|);
      BE.MinimalValue(|payload|);
      var s := Rlp.Header(small, |payload|) + payload;
      assert s[1..1 + |length|] == length && s[1 + |length|..] == payload && s[1] == length[0];
    }
  }

  /** MAIN RESULT.  An RLP string: a single small byte is itself; up to 55 bytes follow 0x80 plus their
      number; more follow 0xb7 plus the number of length bytes, and the length. */
  lemma RlpStringLayout(value: Bytes)
    requires |value| <= Rlp.MAX_INT
    ensures |value| == 1 && value[0] < 0x80 ==> Rlp.RlpString(value) == value
    ensures |value| <= 55 && !(|value| == 1 && value[0] < 0x80) ==> Rlp.RlpString(value) == [0x80 + |value|] + value
    ensures |value| > 55 ==> LongForm(Rlp.RlpString(value), 0xb7, value)
  {
    HeaderLayout(0x80, value);
  }

  /** MAIN RESULT.  An RLP list likewise, from 0xc0 and 0xf7. */
  lemma RlpListLayout(payload: Bytes)
    requires |payload| <= Rlp.MAX_INT
    ensures |payload| <= 55 ==> Rlp.RlpList(payload) == [0xc0 + |payload|] + payload
    ensures |payload| > 55 ==> LongForm(Rlp.RlpList(payload), 0xf7, payload)
  {
    HeaderLayout(0xc0, payload);
  }

  /** A pair is the list of its slot and its value, in that order; pairs follow each other. */
  lemma PairsLayout(p: Rlp.Pair, rest: seq<Rlp.Pair>)
    requires Rlp.PairFits(p) && forall i | 0 <= i < |rest| :: Rlp.PairFits(rest[i])
    ensures Rlp.PairsPayload([p] + rest)
            == Rlp.RlpList(Rlp.RlpString(p.slotId) + Rlp.RlpString(p.abiValue)) + Rlp.PairsPayload(rest)
    ensures Rlp.PairsPayload([]) == []
  {
    assert ([p] + rest)[1..] == rest;
  }

  // ---------------------------------------------------------------- ABI

  lemma WordLayout(value: u64)
    ensures var w := Rlp.Uint256(value);
            && |w| == 32 && (forall i | 0 <= i < 24 :: w[i] == 0) && BE.Value(w[24..]) == value
  {
    assert BE.Pow256(8) == TWO64 by { assert BE.Pow256(4) == TWO32; }
    BE.FixedValue(value, 8);
    assert Rlp.Uint256(value)[24..] == BE.Fixed(value, 8);
  }

  /** MAIN RESULT.  The tuple: the words 128, price, rooms and lock size; then the length of the name, the
      name, and zeros up to a whole word and no further. */
  lemma TupleLayout(bridge: Name, price: u64, remain: u64, lockSize: u64)
    ensures var s := Rlp.MetaTuple(bridge, price, remain, lockSize);
            && |s| % 32 == 0 && 160 + |bridge| <= |s| < 160 + |bridge| + 32
            && s[0..32] == Rlp.Uint256(128) && s[32..64] == Rlp.Uint256(price) && s[64..96] == Rlp.Uint256(remain)
            && s[96..128] == Rlp.Uint256(lockSize) && s[128..160] == Rlp.Uint256(|bridge|)
            && s[160..160 + |bridge|] == bridge
            && forall i | 160 + |bridge| <= i < |s| :: s[i] == 0
  {
    HeadLayout(Rlp.Uint256(128), Rlp.Uint256(price), Rlp.Uint256(remain), Rlp.Uint256(lockSize), Rlp.AbiString(bridge));
    StringLayout(bridge);
    var s, tail := Rlp.MetaTuple(bridge, price, remain, lockSize), Rlp.AbiString(bridge);
    assert forall i | 128 <= i < |s| :: s[i] == tail[i - 128];
    assert s[128..160] == tail[..32] && s[160..160 + |bridge|] == tail[32..32 + |bridge|];
  }

  lemma HeadLayout(a: Bytes, b: Bytes, c: Bytes, d: Bytes, tail: Bytes)
    requires |a| == |b| == |c| == |d| == 32
    ensures var s := a + b + c + d + tail;
            s[0..32] == a && s[32..64] == b && s[64..96] == c && s[96..128] == d && s[128..] == tail
  {
    Export.Regroup(a, b, c, d, tail);
    Slice([], a, b + c + d + tail);
    Slice(a, b, c + d + tail);
    Slice(a + b, c, d + tail);
    Slice(a + b + c, d, tail);
  }

  /** An ABI string: the length word, the bytes, and zeros up to a whole word and no further. */
  lemma StringLayout(value: Bytes)
    requires |value| < TWO64
    ensures var s := Rlp.AbiString(value);
            && |s| % 32 == 0 && 32 + |value| <= |s| < 64 + |value|
            && s[..32] == Rlp.Uint256(|value|) && s[32..32 + |value|] == value
            && forall i | 32 + |value| <= i < |s| :: s[i] == 0
  {
    var zeros := seq(Rlp.PaddedLen(|value|) - |value|, i => 0);
    Slice(Rlp.Uint256(|value|), value, zeros);
  }

  lemma Slice(before: Bytes, part: Bytes, after: Bytes)
    ensures (before + part + after)[|before|..|before| + |part|] == part
  {
  }

  // ---------------------------------------------------------------- the exported text

  /** MAIN RESULT.  The export is the pair of the hotel record, then that of the lock total. */
  lemma ExportLayout(st: Export.State, metaSlot: Bytes32, totalSlot: Bytes32)
    ensures Reader.Decode(Export.ExportBytes(st, metaSlot, totalSlot))
            == Some([Rlp.Pair(metaSlot, Rlp.MetaTuple(st.bridge, st.price, st.remain, st.lockSize)),
                     Rlp.Pair(totalSlot, Rlp.Uint256(st.lockTotal))])
  {
    Export.PairsFit(st, metaSlot, totalSlot);
    Reader.DecodesExactlyEncodings(Export.ExportBytes(st, metaSlot, totalSlot), Export.Pairs(st, metaSlot, totalSlot));
  }

  /** MAIN RESULT.  Two lower-case digits per byte, the high one first. */
  lemma {:induction false} HexLayout(s: Bytes, k: nat)
    requires k < |s|
    ensures |Export.Hex(s)| == 2 * |s|
    ensures Export.Hex(s)[2 * k] == "0123456789abcdef"[s[k] / 16] && Export.Hex(s)[2 * k + 1] == "0123456789abcdef"[s[k] % 16]
  {
    var n := |s| - 1;
    if k < n {
      HexLayout(s[..n], k);
    } else {
      DigitsLayout(s[n] / 16);
      DigitsLayout(s[n] % 16);
    }
  }

  lemma DigitsLayout(d: nat)
    requires d < 16
    ensures Export.Digit(d) == "0123456789abcdef"[d]
  {
  }

  // ---------------------------------------------------------------- UTF-8

  /** The payload of a continuation byte. */
  function Low(b: Bytes, i: nat): int
    requires i < |b|
  {
    b[i] as int - 0x80
  }

  /** One to four bytes by the size of the code point, six bits in each but the first. */
  lemma Utf8Layout(c: char)
    ensures var (n, b) := (c as int, Utf8.EncodeChar(c));
            && (n < 0x80 ==> b == [n])
            && (0x80 <= n < 0x800 ==> |b| == 2 && 0xc0 <= b[0] < 0xe0 && n == (b[0] as int - 0xc0) * 64 + Low(b, 1))
            && (0x800 <= n < 0x1_0000 ==> |b| == 3 && 0xe0 <= b[0] < 0xf0
                                          && n == (b[0] as int - 0xe0) * 4096 + Low(b, 1) * 64 + Low(b, 2))
            && (0x1_0000 <= n ==> |b| == 4 && 0xf0 <= b[0] < 0xf8
                                  && n == (b[0] as int - 0xf0) * 262144 + Low(b, 1) * 4096 + Low(b, 2) * 64 + Low(b, 3))
            && forall i | 1 <= i < |b| :: 0x80 <= b[i] < 0xc0
  {
    Utf8.Digits(c as int);
  }

  // ---------------------------------------------------------------- snapshots

  lemma LengthLayout(n: nat)
    requires n <= Snap.MAX32
    ensures BE.Value(Snap.U32be(n)) == n
  {
    FourDigits(Snap.U32be(n));
    Snap.Base256(n);
  }

  lemma FourDigits(b: Bytes)
    requires |b| == 4
    ensures BE.Value(b) == 0x100_0000 * b[0] as int + 0x1_0000 * b[1] as int + 0x100 * b[2] as int + b[3]
  {
    var three, two, one := b[..3], b[..2], b[..1];
    assert three[..2] == two && two[..1] == one && one[..0] == [];
    assert BE.Value(one) == 256 * BE.Value(one[..0]) + b[0];
    assert BE.Value(two) == 256 * BE.Value(one) + b[1];
    assert BE.Value(three) == 256 * BE.Value(two) + b[2];
  }

  /** `s` is the four bytes of a length and as many bytes. */
  ghost predicate LengthAndBytes(s: Bytes, payload: Bytes) {
    |s| == 4 + |payload| && BE.Value(s[..4]) == |payload| && s[4..] == payload
  }

  lemma PrefixedLayout(b: Bytes)
    requires |b| <= Snap.MAX32
    ensures LengthAndBytes(Snap.Prefixed(b), b)
  {
    LengthLayout(|b|);
    assert Snap.Prefixed(b)[..4] == Snap.U32be(|b|) && Snap.Prefixed(b)[4..] == b;
  }

  /** MAIN RESULT.  The four kinds of value: tag 1 and 32 bytes, tag 2 and one byte, tags 3 and 4 and a
      length before the bytes. */
  lemma ValueLayout(v: Snap.Value)
    requires Snap.ValueFits(v)
    ensures var b := Snap.EncodedValue(v);
            match v
            case Uint(n) => |b| == 33 && b[0] == 1 && BE.Value(b[1..]) == n
            case Flag(f) => b == [2, if f then 1 else 0]
            case Text(s) => |b| > 0 && b[0] == 3 && LengthAndBytes(b[1..], Utf8.Encode(s))
            case Blob(s) => |b| > 0 && b[0] == 4 && LengthAndBytes(b[1..], s)
  {
    match v
    case Uint(n) =>
      BE.Pow256Of32();
      BE.FixedValue(n, 32);
      assert Snap.EncodedValue(v)[1..] == BE.Fixed(n, 32);
    case Text(s) =>
      PrefixedLayout(Utf8.Encode(s));
      assert Snap.EncodedValue(v)[1..] == Snap.Prefixed(Utf8.Encode(s));
    case Blob(s) =>
      PrefixedLayout(s);
      assert Snap.EncodedValue(v)[1..] == Snap.Prefixed(s);
    case Flag(_) =>
  }

  /** An entry is its key, with length, and its value. */
  lemma EntryLayout(e: Snap.Entry)
    requires Snap.EntryFits(e)
    ensures var key := Utf8.Encode(e.key);
            var b := Snap.EncodedEntry(e);
            |b| >= 4 + |key| && LengthAndBytes(b[..4 + |key|], key) && b[4 + |key|..] == Snap.EncodedValue(e.value)
  {
    var key := Utf8.Encode(e.key);
    PrefixedLayout(key);
    assert Snap.EncodedEntry(e)[..4 + |key|] == Snap.Prefixed(key);
  }

  /** MAIN RESULT.  A snapshot exists exactly if the name, every key and every value is in range: lengths
      below 2^32, numbers below 2^256 and not negative. */
  lemma SnapshotExistsExactly(contract: string, es: seq<Snap.Entry>, leq: Snap.Order)
    ensures Snap.Snapshot(contract, es, leq).Some?
            <==> |Utf8.Encode(contract)| < TWO32 && forall i | 0 <= i < |es| :: InRange(es[i])
  {
    forall i | 0 <= i < |es| ensures Snap.EntryFits(es[i]) <==> InRange(es[i]) {
      RangeIsFit(es[i]);
    }
    ExistsIfFits(contract, es, leq);
  }

  lemma ExistsIfFits(contract: string, es: seq<Snap.Entry>, leq: Snap.Order)
    ensures Snap.Snapshot(contract, es, leq).Some? <==> |Utf8.Encode(contract)| <= Snap.MAX32 && Snap.AllFit(es)
  {
  }

  lemma RangeIsFit(e: Snap.Entry)
    ensures Snap.EntryFits(e) <==> InRange(e)
  {
  }

  predicate InRange(e: Snap.Entry) {
    |Utf8.Encode(e.key)| < TWO32 &&
    match e.value
    case Uint(n) => 0 <= n < 0x1_0000000000000000_0000000000000000_0000000000000000_0000000000000000
    case Flag(_) => true
    case Text(s) => |Utf8.Encode(s)| < TWO32
    case Blob(b) => |b| < TWO32
  }

  /** MAIN RESULT.  It starts with the sixteen letters of its format and the contract name, with length;
      the entries follow in order of their keys. */
  lemma SnapshotLayout(contract: string, es: seq<Snap.Entry>, leq: Snap.Order)
    ensures var s := Snap.Snapshot(contract, es, leq);
            var name := Utf8.Encode(contract);
            s.Some? ==>
              && |s.value| >= 20 + |name|
              && s.value[..16] == [85, 66, 84, 76, 45, 83, 78, 65, 80, 83, 72, 79, 84, 45, 86, 49]
              && LengthAndBytes(s.value[16..20 + |name|], name)
              && Snap.AllFit(Snap.Sort(es, leq)) && s.value[20 + |name|..] == Snap.EncodedEntries(Snap.Sort(es, leq))
  {
    if Snap.Snapshot(contract, es, leq).Some? {
      Snap.SortKeepsFit(es, leq);
      Letters(Snap.HEADER);
      PartsLayout(Utf8.Encode(Snap.HEADER), contract, Snap.Sort(es, leq));
    }
  }

  lemma PartsLayout(header: Bytes, contract: string, sorted: seq<Snap.Entry>)
    requires |header| == 16 && |Utf8.Encode(contract)| <= Snap.MAX32 && Snap.AllFit(sorted)
    ensures var s := Snap.Layout(header, contract, sorted);
            var name := Utf8.Encode(contract);
            && |s| >= 20 + |name| && s[..16] == header && LengthAndBytes(s[16..20 + |name|], name)
            && s[20 + |name|..] == Snap.EncodedEntries(sorted)
  {
    var name := Utf8.Encode(contract);
    PrefixedLayout(name);
    Slice(header, Snap.Prefixed(name), Snap.EncodedEntries(sorted));
  }

  lemma Letters(s: string)
    requires s == "UBTL-SNAPSHOT-V1"
    ensures Utf8.Encode(s) == [85, 66, 84, 76, 45, 83, 78, 65, 80, 83, 72, 79, 84, 45, 86, 49]
  {
    AsciiEncodesItself(s);
  }

  lemma {:induction false} AsciiEncodesItself(s: string)
    requires forall i | 0 <= i < |s| :: s[i] as int < 0x80
    ensures |Utf8.Encode(s)| == |s| && forall i | 0 <= i < |s| :: Utf8.Encode(s)[i] == s[i] as int
  {
    if s != "" {
      AsciiEncodesItself(s[1..]);
    }
  }

  // ---------------------------------------------------------------- seeds

  /** The seeds of consecutive cases are 7919 apart, counted in 32 bits from the base seed. */
  lemma SeedsAdvance(baseSeed: nat, index: nat)
    ensures Lcg.CaseSeed(baseSeed, 0) == baseSeed % TWO32
    ensures Lcg.CaseSeed(baseSeed, index + 1) == (Lcg.CaseSeed(baseSeed, index) + 7919) % TWO32
  {
  }
}
