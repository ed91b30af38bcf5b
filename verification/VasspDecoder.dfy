/** A strict reader for exported state, written from Appendix B of the Ethereum Yellow Paper, and
    the proof that it and the encoder are inverse to each other. */
module VasspDecoder {
  import opened Prelude
  import BE = BigEndian
  import opened Vassp

  /** Length of the payload announced by the header at the front of `s`, and of the header itself.
      Only shortest headers are accepted. */
  function ReadHeader(small: nat, s: Bytes): (r: Option<(nat, nat)>)
    requires small in {0x80, 0xc0}
    ensures r.Some? ==> 1 <= r.value.1 <= |s| && r.value.0 <= MAX_INT
  {
    if s == [] || s[0] < small || s[0] > small + 63 then None
    else if s[0] <= small + 55 then Some((s[0] - small, 1))
    else
      var k := s[0] - small - 55;
      if |s| < 1 + k || s[1] == 0 || BE.Value(s[1..1 + k]) <= 55 || BE.Value(s[1..1 + k]) > MAX_INT then None
      else Some((BE.Value(s[1..1 + k]), 1 + k))
  }

  function ReadString(s: Bytes): (r: Option<(Bytes, Bytes)>)
    ensures r.Some? ==> |r.value.1| < |s|
  {
    if s != [] && s[0] < 0x80 then Some((s[..1], s[1..]))
    else
      var h := ReadHeader(0x80, s);
      if h == None || |s| < h.value.0 + h.value.1 then None
      else
        var payload := s[h.value.1..h.value.1 + h.value.0];
        if |payload| == 1 && payload[0] < 0x80 then None
        else Some((payload, s[h.value.1 + h.value.0..]))
  }

  function ReadList(s: Bytes): (r: Option<(Bytes, Bytes)>)
    ensures r.Some? ==> |r.value.1| < |s|
  {
    var h := ReadHeader(0xc0, s);
    if h == None || |s| < h.value.0 + h.value.1 then None
    else Some((s[h.value.1..h.value.1 + h.value.0], s[h.value.1 + h.value.0..]))
  }

  function ReadPair(payload: Bytes): Option<Pair> {
    var slot := ReadString(payload);
    if slot == None then None
    else
      var value := ReadString(slot.value.1);
      if value == None || value.value.1 != [] then None
      else Some(Pair(slot.value.0, value.value.0))
  }

  function ReadPairs(s: Bytes): Option<seq<Pair>>
    decreases |s|
  {
    if s == [] then Some([])
    else
      var item := ReadList(s);
      if item == None then None
      else
        var first := ReadPair(item.value.0);
        var rest := ReadPairs(item.value.1);
        if first == None || rest == None then None
        else Some([first.value] + rest.value)
  }

  function Decode(s: Bytes): Option<seq<Pair>> {
    var list := ReadList(s);
    if list == None || list.value.1 != [] then None else ReadPairs(list.value.0)
  }

  // ---------------------------------------------------------------- reading what was written

  lemma ReadWrittenHeader(small: nat, n: nat, rest: Bytes)
    requires small in {0x80, 0xc0} && n <= MAX_INT
    ensures ReadHeader(small, Header(small, n) + rest) == Some((n, |Header(small, n)|))
  {
    if n > 55 {
      LengthFits(n);
      BE.MinimalValue(n);
      var m := BE.Minimal(n);
      var s := Header(small, n) + rest;
      assert s[1..1 + |m|] == m;
    }
  }

  lemma ReadWrittenString(value: Bytes, rest: Bytes)
    requires |value| <= MAX_INT
    ensures ReadString(RlpString(value) + rest) == Some((value, rest))
  {
    var s := RlpString(value) + rest;
    if |value| == 1 && value[0] < 0x80 {
      assert s[..1] == value && s[1..] == rest;
    } else {
      var h := Header(0x80, |value|);
      assert s == h + (value + rest);
      ReadWrittenHeader(0x80, |value|, value + rest);
      assert s[|h|..|h| + |value|] == value && s[|h| + |value|..] == rest;
    }
  }

  lemma ReadWrittenList(payload: Bytes, rest: Bytes)
    requires |payload| <= MAX_INT
    ensures ReadList(RlpList(payload) + rest) == Some((payload, rest))
  {
    var s := RlpList(payload) + rest;
    var h := Header(0xc0, |payload|);
    assert s == h + (payload + rest);
    ReadWrittenHeader(0xc0, |payload|, payload + rest);
    assert s[|h|..|h| + |payload|] == payload && s[|h| + |payload|..] == rest;
  }

  lemma ReadWrittenPair(p: Pair)
    requires PairFits(p)
    ensures ReadPair(PairPayload(p)) == Some(p)
  {
    ReadWrittenString(p.slotId, RlpString(p.abiValue));
    ReadWrittenString(p.abiValue, []);
    assert RlpString(p.abiValue) + [] == RlpString(p.abiValue);
  }

  lemma {:induction false} ReadWrittenPairs(pairs: seq<Pair>)
    requires forall i | 0 <= i < |pairs| :: PairFits(pairs[i])
    ensures ReadPairs(PairsPayload(pairs)) == Some(pairs)
  {
    if pairs != [] {
      assert PairFits(pairs[0]);
      ReadWrittenPair(pairs[0]);
      ReadWrittenList(PairPayload(pairs[0]), PairsPayload(pairs[1..]));
      ReadWrittenPairs(pairs[1..]);
      assert [pairs[0]] + pairs[1..] == pairs;
    }
  }

  // ---------------------------------------------------------------- only what was written is read

  lemma HeaderIsWritten(small: nat, s: Bytes)
    requires small in {0x80, 0xc0} && ReadHeader(small, s).Some?
    ensures var (n, h) := ReadHeader(small, s).value; s[..h] == Header(small, n)
  {
    if s[0] > small + 55 {
      var k := s[0] - small - 55;
      BE.MinimalIsUnique(s[1..1 + k]);
      assert s[..1 + k] == [s[0]] + s[1..1 + k];
    }
  }

  lemma StringIsWritten(s: Bytes)
    requires ReadString(s).Some?
    ensures var (value, rest) := ReadString(s).value;
            |value| <= MAX_INT && s == RlpString(value) + rest
  {
    var (value, rest) := ReadString(s).value;
    if s[0] >= 0x80 {
      HeaderIsWritten(0x80, s);
      var (n, h) := ReadHeader(0x80, s).value;
      assert s == s[..h] + value + rest;
    }
  }

  lemma ListIsWritten(s: Bytes)
    requires ReadList(s).Some?
    ensures var (payload, rest) := ReadList(s).value;
            |payload| <= MAX_INT && s == RlpList(payload) + rest
  {
    var (payload, rest) := ReadList(s).value;
    HeaderIsWritten(0xc0, s);
    var (n, h) := ReadHeader(0xc0, s).value;
    assert s == s[..h] + payload + rest;
  }

  lemma PairIsWritten(payload: Bytes)
    requires |payload| <= MAX_INT && ReadPair(payload).Some?
    ensures var p := ReadPair(payload).value; PairFits(p) && PairPayload(p) == payload
  {
    StringIsWritten(payload);
    var rest := ReadString(payload).value.1;
    StringIsWritten(rest);
    var p := ReadPair(payload).value;
    assert rest == RlpString(p.abiValue) + [];
    assert payload == RlpString(p.slotId) + RlpString(p.abiValue);
  }

  lemma {:induction false} PairsAreWritten(s: Bytes)
    requires ReadPairs(s).Some?
    ensures var pairs := ReadPairs(s).value;
            (forall i | 0 <= i < |pairs| :: PairFits(pairs[i])) && PairsPayload(pairs) == s
    decreases |s|
  {
    if s != [] {
      var (payload, rest) := ReadList(s).value;
      ListIsWritten(s);
      PairIsWritten(payload);
      PairsAreWritten(rest);
      var pairs := ReadPairs(s).value;
      assert pairs[1..] == ReadPairs(rest).value;
      assert pairs[0] == ReadPair(payload).value;
    }
  }

  /** MAIN RESULT.  The decoder gives back exactly the encoded pairs with nothing left over, and it
      accepts nothing but encodings: every other byte string, in particular one with a longer length
      header than needed or with trailing bytes, is rejected. */
  lemma DecodesExactlyEncodings(s: Bytes, pairs: seq<Pair>)
    ensures Decode(s) == Some(pairs) <==> Fits(pairs) && s == EncodePairs(pairs)
  {
    if Fits(pairs) && s == EncodePairs(pairs) {
      ReadWrittenList(PairsPayload(pairs), []);
      assert s + [] == s;
      ReadWrittenPairs(pairs);
    }
    if Decode(s) == Some(pairs) {
      ListIsWritten(s);
      var payload := ReadList(s).value.0;
      assert s == RlpList(payload) + [];
      assert s == RlpList(payload);
      PairsAreWritten(payload);
    }
  }

  /** Different lists of pairs never share an encoding. */
  lemma EncodingIsInjective(p: seq<Pair>, q: seq<Pair>)
    requires Fits(p) && Fits(q) && EncodePairs(p) == EncodePairs(q)
    ensures p == q
  {
    DecodesExactlyEncodings(EncodePairs(p), p);
    DecodesExactlyEncodings(EncodePairs(p), q);
  }
}
