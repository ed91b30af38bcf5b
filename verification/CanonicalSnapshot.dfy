/** The canonical snapshot: a contract name and typed entries, sorted by key, in one byte string.
    Snapshots parse back, so equal bytes mean equal contents. */
module CanonicalSnapshot {
  import opened Prelude
  import BE = BigEndian
  import Utf8

  datatype Value =
    | Uint(n: int)
    | Flag(b: bool)
    | Text(s: string)
    | Blob(bytes: Bytes)

  datatype Entry = Entry(key: string, value: Value)

  datatype Error = TooLong | UintOutOfRange

  /** A comparator on keys; the original uses the host's locale comparison. */
  type Order = (string, string) -> bool

  const HEADER := "UBTL-SNAPSHOT-V1"
  const MAX32: nat := 0xffff_ffff

  // ---------------------------------------------------------------- specification

  function U32be(n: nat): (b: Bytes)
    requires n <= MAX32
    ensures |b| == 4
  {
    [n / 0x100_0000 % 256, n / 0x1_0000 % 256, n / 0x100 % 256, n % 256]
  }

  function Prefixed(b: Bytes): Bytes
    requires |b| <= MAX32
  {
    U32be(|b|) + b
  }

  /** The value can be encoded: a length fits 32 bits, a number 256. */
  predicate ValueFits(v: Value) {
    && (v.Uint? ==> 0 <= v.n < BE.LIMIT256)
    && (v.Text? ==> |Utf8.Encode(v.s)| <= MAX32)
    && (v.Blob? ==> |v.bytes| <= MAX32)
  }

  predicate EntryFits(e: Entry) {
    |Utf8.Encode(e.key)| <= MAX32 && ValueFits(e.value)
  }

  function EncodedValue(v: Value): Bytes
    requires ValueFits(v)
  {
    match v
    case Uint(n) => [1] + BE.Fixed(n, 32)
    case Flag(b) => [2, if b then 1 else 0]
    case Text(s) => [3] + Prefixed(Utf8.Encode(s))
    case Blob(b) => [4] + Prefixed(b)
  }

  function EncodedEntry(e: Entry): (b: Bytes)
    requires EntryFits(e)
    ensures |b| >= 4
  {
    Prefixed(Utf8.Encode(e.key)) + EncodedValue(e.value)
  }

  predicate AllFit(es: seq<Entry>) {
    forall i | 0 <= i < |es| :: EntryFits(es[i])
  }

  function EncodedEntries(es: seq<Entry>): Bytes
    requires AllFit(es)
  {
    if es == [] then []
    else
      assert EntryFits(es[0]);
      EncodedEntry(es[0]) + EncodedEntries(es[1..])
  }

  /** Before the first entry that does not come strictly before `e`: the sort is stable. */
  function Insert(e: Entry, es: seq<Entry>, leq: Order): seq<Entry> {
    if es == [] || leq(e.key, es[0].key) then [e] + es else [es[0]] + Insert(e, es[1..], leq)
  }

  function Sort(es: seq<Entry>, leq: Order): seq<Entry> {
    if es == [] then [] else Insert(es[0], Sort(es[1..], leq), leq)
  }

  function Layout(header: Bytes, contract: string, sorted: seq<Entry>): Bytes
    requires |Utf8.Encode(contract)| <= MAX32 && AllFit(sorted)
  {
    header + Prefixed(Utf8.Encode(contract)) + EncodedEntries(sorted)
  }

  /** The snapshot, or none where the original throws. */
  function Snapshot(contract: string, es: seq<Entry>, leq: Order): Option<Bytes> {
    if |Utf8.Encode(contract)| <= MAX32 && AllFit(es) then
      SortKeepsFit(es, leq);
      Some(Layout(Utf8.Encode(HEADER), contract, Sort(es, leq)))
    else None
  }

  lemma InsertKeeps(e: Entry, es: seq<Entry>, leq: Order)
    ensures multiset(Insert(e, es, leq)) == multiset(es) + multiset{e}
    ensures forall x :: x in Insert(e, es, leq) <==> x == e || x in es
  {
    if es != [] && !leq(e.key, es[0].key) {
      InsertKeeps(e, es[1..], leq);
      assert es == [es[0]] + es[1..];
    }
  }

  lemma SortKeeps(es: seq<Entry>, leq: Order)
    ensures multiset(Sort(es, leq)) == multiset(es)
    ensures forall x :: x in Sort(es, leq) <==> x in es
  {
    if es != [] {
      SortKeeps(es[1..], leq);
      InsertKeeps(es[0], Sort(es[1..], leq), leq);
      assert es == [es[0]] + es[1..];
    }
  }

  lemma SortKeepsFit(es: seq<Entry>, leq: Order)
    ensures AllFit(Sort(es, leq)) <==> AllFit(es)
  {
    SortKeeps(es, leq);
    var s := Sort(es, leq);
    if AllFit(es) {
      forall i | 0 <= i < |s| ensures EntryFits(s[i]) {
        assert s[i] in es;
      }
    }
    if AllFit(s) {
      forall i | 0 <= i < |es| ensures EntryFits(es[i]) {
        assert es[i] in s;
      }
    }
  }

  // ---------------------------------------------------------------- the encoder

  method LengthPrefixed(b: Bytes) returns (r: Result<Bytes, Error>)
    ensures r == if |b| <= MAX32 then Ok(Prefixed(b)) else Err(TooLong)
  {
    if |b| > MAX32 { return Err(TooLong); }
    return Ok(U32be(|b|) + b);
  }

  method EncodeValue(v: Value) returns (r: Result<Bytes, Error>)
    ensures r.Ok? <==> ValueFits(v)
    ensures r.Ok? ==> r.value == EncodedValue(v)
  {
    match v {
      case Uint(n) =>
        if n < 0 || n >= BE.LIMIT256 { return Err(UintOutOfRange); }
        return Ok([1] + BE.Fixed(n, 32));
      case Flag(b) => return Ok([2, if b then 1 else 0]);
      case Text(s) =>
        var p := LengthPrefixed(Utf8.Encode(s));
        if p.Err? { return p; }
        return Ok([3] + p.value);
      case Blob(b) =>
        var p := LengthPrefixed(b);
        if p.Err? { return p; }
        return Ok([4] + p.value);
    }
  }

  method EncodeEntry(e: Entry) returns (r: Result<Bytes, Error>)
    ensures r.Ok? <==> EntryFits(e)
    ensures r.Ok? ==> r.value == EncodedEntry(e)
  {
    var key := LengthPrefixed(Utf8.Encode(e.key));
    if key.Err? { return key; }
    var value := EncodeValue(e.value);
    if value.Err? { return value; }
    return Ok(key.value + value.value);
  }

  /** Sorts a copy of the entries and pushes their bytes one after the other. */
  method Take(contract: string, es: seq<Entry>, leq: Order) returns (r: Result<Bytes, Error>)
    ensures r.Ok? <==> Snapshot(contract, es, leq).Some?
    ensures r.Ok? ==> Some(r.value) == Snapshot(contract, es, leq)
  {
    var sorted := Sort(es, leq);
    SortKeepsFit(es, leq);
    var bytes := Utf8.Encode(HEADER);
    var name := LengthPrefixed(Utf8.Encode(contract));
    if name.Err? { return name; }
    bytes := bytes + name.value;
    r := PushEntries(bytes, sorted);
  }

  /** The loop of the encoder. */
  method PushEntries(start: Bytes, sorted: seq<Entry>) returns (r: Result<Bytes, Error>)
    ensures r.Ok? <==> AllFit(sorted)
    ensures r.Ok? ==> r.value == start + EncodedEntries(sorted)
  {
    var bytes := start;
    for i := 0 to |sorted|
      invariant AllFit(sorted[..i])
      invariant bytes == start + EncodedEntries(sorted[..i])
    {
      var entry := EncodeEntry(sorted[i]);
      if entry.Err? { return entry; }
      OneMore(sorted, i);
      Associative(start, EncodedEntries(sorted[..i]), entry.value);
      bytes := bytes + entry.value;
    }
    assert sorted[..|sorted|] == sorted;
    return Ok(bytes);
  }

  lemma OneMore(es: seq<Entry>, i: nat)
    requires i < |es| && AllFit(es[..i]) && EntryFits(es[i])
    ensures AllFit(es[..i + 1])
    ensures EncodedEntries(es[..i + 1]) == EncodedEntries(es[..i]) + EncodedEntry(es[i])
  {
    var front, longer := es[..i], es[..i + 1];
    assert longer == front + [es[i]];
    EncodedEntriesSnoc(front, es[i]);
  }

  lemma Associative(a: Bytes, b: Bytes, c: Bytes)
    ensures a + (b + c) == a + b + c
  {
  }

  lemma {:induction false} EncodedEntriesSnoc(es: seq<Entry>, e: Entry)
    requires AllFit(es) && EntryFits(e)
    ensures AllFit(es + [e])
    ensures EncodedEntries(es + [e]) == EncodedEntries(es) + EncodedEntry(e)
  {
    if es == [] {
      assert ([e])[1..] == [];
      assert es + [e] == [e];
    } else {
      EncodedEntriesSnoc(es[1..], e);
      assert (es + [e])[1..] == es[1..] + [e];
      assert EntryFits(es[0]);
      Associative(EncodedEntry(es[0]), EncodedEntries(es[1..]), EncodedEntry(e));
    }
  }

  // ---------------------------------------------------------------- the parser

  function ReadU32(s: Bytes): (r: Option<nat>)
    ensures r.Some? ==> |s| >= 4
  {
    if |s| < 4 then None else Some(0x100_0000 * s[0] as int + 0x1_0000 * s[1] as int + 0x100 * s[2] as int + s[3] as int)
  }

  function ReadPrefixed(s: Bytes): (r: Option<(Bytes, Bytes)>)
    ensures r.Some? ==> |r.value.1| + 4 <= |s|
  {
    var n := ReadU32(s);
    if n == None || |s| < 4 + n.value then None else Some((s[4..4 + n.value], s[4 + n.value..]))
  }

  function ReadValue(s: Bytes): (r: Option<(Value, Bytes)>)
    ensures r.Some? ==> |r.value.1| < |s|
  {
    if s == [] then None
    else if s[0] == 1 then
      if |s| < 33 then None else Some((Uint(BE.Value(s[1..33])), s[33..]))
    else if s[0] == 2 then
      if |s| < 2 then None else Some((Flag(s[1] == 1), s[2..]))
    else if s[0] == 3 then
      var p := ReadPrefixed(s[1..]);
      if p == None then None
      else
        var text := Utf8.Decode(p.value.0);
        if text == None then None else Some((Text(text.value), p.value.1))
    else if s[0] == 4 then
      var p := ReadPrefixed(s[1..]);
      if p == None then None else Some((Blob(p.value.0), p.value.1))
    else None
  }

  function ReadEntries(s: Bytes): Option<seq<Entry>>
    decreases |s|
  {
    if s == [] then Some([])
    else
      var k := ReadPrefixed(s);
      if k == None then None
      else
        var key, v := Utf8.Decode(k.value.0), ReadValue(k.value.1);
        if key == None || v == None then None
        else
          var rest := ReadEntries(v.value.1);
          if rest == None then None else Some([Entry(key.value, v.value.0)] + rest.value)
  }

  function ParseAfter(header: Bytes, s: Bytes): Option<(string, seq<Entry>)> {
    if |s| < |header| || s[..|header|] != header then None
    else
      var c := ReadPrefixed(s[|header|..]);
      if c == None then None
      else
        var name, es := Utf8.Decode(c.value.0), ReadEntries(c.value.1);
        if name == None || es == None then None else Some((name.value, es.value))
  }

  function Parse(s: Bytes): Option<(string, seq<Entry>)> {
    ParseAfter(Utf8.Encode(HEADER), s)
  }

  // ---------------------------------------------------------------- parsing what was written

  lemma ReadWrittenU32(n: nat, rest: Bytes)
    requires n <= MAX32
    ensures ReadU32(U32be(n) + rest) == Some(n)
  {
    var s := U32be(n) + rest;
    assert forall i | 0 <= i < 4 :: s[i] == U32be(n)[i];
    Base256(n);
  }

  lemma Base256(n: nat)
    requires n <= MAX32
    ensures n == 0x100_0000 * (n / 0x100_0000 % 256) + 0x1_0000 * (n / 0x1_0000 % 256) + 0x100 * (n / 0x100 % 256) + n % 256
  {
    var a := n / 0x100;
    var b := a / 0x100;
    assert n / 0x1_0000 == b;
    assert n / 0x100_0000 == b / 0x100;
  }

  lemma ReadWrittenPrefixed(b: Bytes, rest: Bytes)
    requires |b| <= MAX32
    ensures ReadPrefixed(Prefixed(b) + rest) == Some((b, rest))
  {
    var s := Prefixed(b) + rest;
    assert s == U32be(|b|) + (b + rest);
    ReadWrittenU32(|b|, b + rest);
    assert s[4..4 + |b|] == b && s[4 + |b|..] == rest;
  }

  lemma ReadWrittenUint(n: nat, rest: Bytes)
    requires n < BE.LIMIT256
    ensures var s := [1] + BE.Fixed(n, 32) + rest;
            BE.Value(s[1..33]) == n && s[33..] == rest
  {
    BE.Pow256Of32();
    BE.FixedValue(n, 32);
    var s := [1] + BE.Fixed(n, 32) + rest;
    assert s[1..33] == BE.Fixed(n, 32) && s[33..] == rest;
  }

  lemma ReadWrittenText(tag: byte, b: Bytes, rest: Bytes)
    requires |b| <= MAX32
    ensures var s := [tag] + Prefixed(b) + rest;
            s[0] == tag && ReadPrefixed(s[1..]) == Some((b, rest))
  {
    var s := [tag] + Prefixed(b) + rest;
    assert s[1..] == Prefixed(b) + rest;
    ReadWrittenPrefixed(b, rest);
  }

  lemma ReadWrittenValue(v: Value, rest: Bytes)
    requires ValueFits(v)
    ensures ReadValue(EncodedValue(v) + rest) == Some((v, rest))
  {
    match v
    case Uint(n) => ReadWrittenUint(n, rest);
    case Flag(b) => assert (EncodedValue(v) + rest)[2..] == rest;
    case Text(t) =>
      ReadWrittenText(3, Utf8.Encode(t), rest);
      Utf8.DecodeEncode(t);
    case Blob(b) => ReadWrittenText(4, b, rest);
  }

  lemma {:induction false} ReadWrittenEntries(es: seq<Entry>)
    requires AllFit(es)
    ensures ReadEntries(EncodedEntries(es)) == Some(es)
  {
    if es != [] {
      assert EntryFits(es[0]);
      var key, value, rest := Utf8.Encode(es[0].key), EncodedValue(es[0].value), EncodedEntries(es[1..]);
      assert EncodedEntries(es) == Prefixed(key) + (value + rest);
      ReadWrittenPrefixed(key, value + rest);
      Utf8.DecodeEncode(es[0].key);
      ReadWrittenValue(es[0].value, rest);
      ReadWrittenEntries(es[1..]);
      assert [es[0]] + es[1..] == es;
    }
  }

  /** MAIN RESULT.  A snapshot parses back to the contract name and the sorted typed entries. */
  lemma SnapshotParsesBack(contract: string, es: seq<Entry>, leq: Order)
    ensures var s := Snapshot(contract, es, leq);
            s.Some? ==> Parse(s.value) == Some((contract, Sort(es, leq)))
  {
    if |Utf8.Encode(contract)| <= MAX32 && AllFit(es) {
      SortKeepsFit(es, leq);
      ParseLayout(Utf8.Encode(HEADER), contract, Sort(es, leq));
    }
  }

  lemma ParseLayout(header: Bytes, contract: string, es: seq<Entry>)
    requires |Utf8.Encode(contract)| <= MAX32 && AllFit(es)
    ensures ParseAfter(header, Layout(header, contract, es)) == Some((contract, es))
  {
    var name, body := Utf8.Encode(contract), EncodedEntries(es);
    SplitLayout(header, Prefixed(name), body);
    ReadWrittenPrefixed(name, body);
    Utf8.DecodeEncode(contract);
    ReadWrittenEntries(es);
  }

  lemma SplitLayout(a: Bytes, b: Bytes, c: Bytes)
    ensures var s := a + b + c;
            |s| >= |a| && s[..|a|] == a && s[|a|..] == b + c
  {
  }

  // ---------------------------------------------------------------- order of the entries

  ghost predicate TotalPreorder(leq: Order) {
    && (forall a, b :: leq(a, b) || leq(b, a))
    && (forall a, b, c :: leq(a, b) && leq(b, c) ==> leq(a, c))
  }

  ghost predicate Sorted(es: seq<Entry>, leq: Order) {
    forall i, j | 0 <= i < j < |es| :: leq(es[i].key, es[j].key)
  }

  /** No two entries have keys that the comparator takes for equal. */
  ghost predicate DistinctUnder(es: seq<Entry>, leq: Order) {
    forall i, j | 0 <= i < j < |es| :: !(leq(es[i].key, es[j].key) && leq(es[j].key, es[i].key))
  }

  lemma {:induction false} InsertSorts(e: Entry, es: seq<Entry>, leq: Order)
    requires TotalPreorder(leq) && Sorted(es, leq)
    ensures Sorted(Insert(e, es, leq), leq)
  {
    if es != [] {
      var r := Insert(e, es, leq);
      if leq(e.key, es[0].key) {
        forall i, j | 0 <= i < j < |r| ensures leq(r[i].key, r[j].key) {
          assert j == 1 || leq(es[0].key, es[j - 1].key);
        }
      } else {
        InsertSorts(e, es[1..], leq);
        InsertKeeps(e, es[1..], leq);
        forall i, j | 0 <= i < j < |r| ensures leq(r[i].key, r[j].key) {
          if i == 0 {
            assert r[j] in Insert(e, es[1..], leq);
            if r[j] != e {
              var k :| 0 <= k < |es[1..]| && es[1..][k] == r[j];
              assert leq(es[0].key, es[k + 1].key);
            }
          }
        }
      }
    }
  }

  lemma {:induction false} SortSorts(es: seq<Entry>, leq: Order)
    requires TotalPreorder(leq)
    ensures Sorted(Sort(es, leq), leq)
  {
    if es != [] {
      SortSorts(es[1..], leq);
      InsertSorts(es[0], Sort(es[1..], leq), leq);
    }
  }

  ghost predicate SameUnder(a: Entry, b: Entry, leq: Order) {
    leq(a.key, b.key) && leq(b.key, a.key)
  }

  lemma {:induction false} InsertKeepsDistinct(e: Entry, es: seq<Entry>, leq: Order)
    requires DistinctUnder(es, leq) && forall x | x in es :: !SameUnder(e, x, leq)
    ensures DistinctUnder(Insert(e, es, leq), leq)
  {
    if es != [] && !leq(e.key, es[0].key) {
      InsertKeepsDistinct(e, es[1..], leq);
      InsertKeeps(e, es[1..], leq);
      var rest := Insert(e, es[1..], leq);
      forall j | 0 <= j < |rest| ensures !SameUnder(es[0], rest[j], leq) {
        if rest[j] == e {
          assert !SameUnder(e, es[0], leq);
        } else {
          assert rest[j] in rest && rest[j] in es[1..];
          var k :| 0 <= k < |es[1..]| && es[1..][k] == rest[j];
          assert es[k + 1] == rest[j];
        }
      }
    } else if es != [] {
      forall j | 0 <= j < |es| ensures !SameUnder(e, es[j], leq) {
        assert es[j] in es;
      }
    }
  }

  lemma {:induction false} SortKeepsDistinct(es: seq<Entry>, leq: Order)
    requires DistinctUnder(es, leq)
    ensures DistinctUnder(Sort(es, leq), leq)
  {
    if es != [] {
      SortKeepsDistinct(es[1..], leq);
      SortKeeps(es[1..], leq);
      forall x | x in Sort(es[1..], leq) ensures !SameUnder(es[0], x, leq) {
        var k :| 0 <= k < |es[1..]| && es[1..][k] == x;
        assert es[k + 1] == x;
      }
      InsertKeepsDistinct(es[0], Sort(es[1..], leq), leq);
    }
  }

  /** Both arrangements start with the least entry. */
  lemma SameFirst(a: seq<Entry>, b: seq<Entry>, leq: Order)
    requires Sorted(a, leq) && Sorted(b, leq) && DistinctUnder(a, leq)
    requires a != [] && b != [] && a[0] in b && b[0] in a
    ensures a[0] == b[0]
  {
    var i :| 0 <= i < |a| && a[i] == b[0];
    var j :| 0 <= j < |b| && b[j] == a[0];
    assert i > 0 ==> leq(a[0].key, a[i].key);
    assert j > 0 ==> leq(b[0].key, b[j].key);
  }

  lemma SameTail(a: seq<Entry>, b: seq<Entry>)
    requires a != [] && b != [] && a[0] == b[0] && multiset(a) == multiset(b)
    ensures multiset(a[1..]) == multiset(b[1..])
  {
    assert a == [a[0]] + a[1..] && b == [b[0]] + b[1..];
    assert multiset(a[1..]) == multiset(a) - multiset{a[0]};
    assert multiset(b[1..]) == multiset(b) - multiset{b[0]};
  }

  lemma DistinctTail(a: seq<Entry>, leq: Order)
    requires a != [] && DistinctUnder(a, leq) && Sorted(a, leq)
    ensures DistinctUnder(a[1..], leq) && Sorted(a[1..], leq)
  {
    assert forall i | 0 <= i < |a[1..]| :: a[1..][i] == a[i + 1];
  }

  /** There is only one sorted arrangement of entries with distinct keys. */
  lemma {:induction false} SortedIsUnique(a: seq<Entry>, b: seq<Entry>, leq: Order)
    requires Sorted(a, leq) && Sorted(b, leq) && multiset(a) == multiset(b)
    requires DistinctUnder(a, leq)
    ensures a == b
  {
    assert |a| == |multiset(a)| == |multiset(b)| == |b|;
    if a != [] {
      assert a[0] in multiset(b) && b[0] in multiset(a);
      SameFirst(a, b, leq);
      SameTail(a, b);
      DistinctTail(a, leq);
      assert Sorted(b[1..], leq) by { assert forall i | 0 <= i < |b[1..]| :: b[1..][i] == b[i + 1]; }
      SortedIsUnique(a[1..], b[1..], leq);
      assert a == [a[0]] + a[1..] && b == [b[0]] + b[1..];
    }
  }

  /** MAIN RESULT.  When the comparator tells all keys apart, the bytes do not depend on the order in
      which the entries were pushed. */
  lemma OrderDoesNotMatter(contract: string, a: seq<Entry>, b: seq<Entry>, leq: Order)
    requires TotalPreorder(leq) && multiset(a) == multiset(b) && DistinctUnder(a, leq)
    ensures Snapshot(contract, a, leq) == Snapshot(contract, b, leq)
  {
    SortKeepsDistinct(a, leq);
    SortKeeps(a, leq);
    SortKeeps(b, leq);
    SortSorts(a, leq);
    SortSorts(b, leq);
    SortedIsUnique(Sort(a, leq), Sort(b, leq), leq);
    SortKeepsFit(a, leq);
    SortKeepsFit(b, leq);
  }

  // ---------------------------------------------------------------- same keys, any comparator

  ghost predicate SameKeys(a: seq<Entry>, b: seq<Entry>) {
    |a| == |b| && forall i | 0 <= i < |a| :: a[i].key == b[i].key
  }

  /** Where an entry is inserted depends on keys only, so nothing is lost by inserting it. */
  lemma {:induction false} InsertByKey(x: Entry, a: seq<Entry>, y: Entry, b: seq<Entry>, leq: Order)
    requires x.key == y.key && SameKeys(a, b)
    ensures SameKeys(Insert(x, a, leq), Insert(y, b, leq))
    ensures Insert(x, a, leq) == Insert(y, b, leq) <==> x == y && a == b
  {
    if a != [] {
      assert a[0].key == b[0].key;
      assert a == [a[0]] + a[1..] && b == [b[0]] + b[1..];
      if leq(x.key, a[0].key) {
        var p, q := Insert(x, a, leq), Insert(y, b, leq);
        assert p[0] == x && q[0] == y && p[1..] == a && q[1..] == b;
      } else {
        InsertByKey(x, a[1..], y, b[1..], leq);
        var p, q := Insert(x, a, leq), Insert(y, b, leq);
        assert p[0] == a[0] && q[0] == b[0];
        assert p[1..] == Insert(x, a[1..], leq) && q[1..] == Insert(y, b[1..], leq);
      }
    } else {
      assert Insert(x, a, leq)[0] == x && Insert(y, b, leq)[0] == y;
    }
  }

  lemma {:induction false} SortByKey(a: seq<Entry>, b: seq<Entry>, leq: Order)
    requires SameKeys(a, b)
    ensures SameKeys(Sort(a, leq), Sort(b, leq))
    ensures Sort(a, leq) == Sort(b, leq) <==> a == b
  {
    if a != [] {
      SortByKey(a[1..], b[1..], leq);
      InsertByKey(a[0], Sort(a[1..], leq), b[0], Sort(b[1..], leq), leq);
      assert a == [a[0]] + a[1..] && b == [b[0]] + b[1..];
    }
  }

  /** Two snapshots of the same contract over the same keys have the same bytes exactly when all
      entries agree; the comparator may even take different keys for equal. */
  lemma SameBytesSameEntries(contract: string, a: seq<Entry>, b: seq<Entry>, leq: Order)
    requires SameKeys(a, b)
    ensures var (s, t) := (Snapshot(contract, a, leq), Snapshot(contract, b, leq));
            s.Some? && t.Some? ==> (s == t <==> a == b)
  {
    if Snapshot(contract, a, leq).Some? && Snapshot(contract, a, leq) == Snapshot(contract, b, leq) {
      SnapshotParsesBack(contract, a, leq);
      SnapshotParsesBack(contract, b, leq);
      SortByKey(a, b, leq);
    }
  }
}
