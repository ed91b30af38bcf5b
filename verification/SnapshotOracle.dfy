/** The oracle of the differential harness: it compares snapshots over the names an operation list
    mentions.  Equal bytes decide equality of the full logical states, because nothing else can have
    left its default. */
module SnapshotOracle {
  import opened Prelude
  import opened CanonicalSnapshot
  import Dex = DexSwap
  import DexRun = DexProperties
  import Hotel = HotelModel
  import Token = TokenModel
  import Auction = AuctionModel

  /** The two orders of the host: the locale comparison of keys and the code-unit order of names. */
  datatype Host = Host(locale: Order, units: Order)

  // ---------------------------------------------------------------- names and flat entry lists

  function InsertName(x: string, xs: seq<string>, leq: Order): (r: seq<string>)
    ensures forall y :: y in r <==> y == x || y in xs
  {
    if xs == [] || leq(x, xs[0]) then [x] + xs
    else
      var r := [xs[0]] + InsertName(x, xs[1..], leq);
      assert xs == [xs[0]] + xs[1..];
      r
  }

  /** The distinct names, sorted. */
  function Names(xs: seq<string>, leq: Order): (r: seq<string>)
    ensures forall y :: y in r <==> y in xs
  {
    if xs == [] then []
    else
      assert xs == [xs[0]] + xs[1..];
      if xs[0] in xs[1..] then Names(xs[1..], leq) else InsertName(xs[0], Names(xs[1..], leq), leq)
  }

  function Flat(f: string -> seq<Entry>, xs: seq<string>): seq<Entry> {
    if xs == [] then [] else f(xs[0]) + Flat(f, xs[1..])
  }

  lemma SameKeysConcat(a: seq<Entry>, b: seq<Entry>, c: seq<Entry>, d: seq<Entry>)
    requires SameKeys(a, b) && SameKeys(c, d)
    ensures SameKeys(a + c, b + d)
    ensures a + c == b + d <==> a == b && c == d
  {
    assert (a + c)[..|a|] == a && (a + c)[|a|..] == c;
    assert (b + d)[..|a|] == b && (b + d)[|a|..] == d;
  }

  /** Lists built name by name over the same keys agree exactly when every name's part agrees. */
  lemma {:induction false} FlatDecides(f: string -> seq<Entry>, g: string -> seq<Entry>, xs: seq<string>)
    requires forall x :: SameKeys(f(x), g(x))
    ensures SameKeys(Flat(f, xs), Flat(g, xs))
    ensures Flat(f, xs) == Flat(g, xs) <==> forall x | x in xs :: f(x) == g(x)
  {
    if xs != [] {
      FlatDecides(f, g, xs[1..]);
      assert SameKeys(f(xs[0]), g(xs[0]));
      SameKeysConcat(f(xs[0]), g(xs[0]), Flat(f, xs[1..]), Flat(g, xs[1..]));
      assert xs == [xs[0]] + xs[1..];
    }
  }

  /** What a model contributes to a snapshot: fixed entries, and parts for two families of names. */
  datatype Parts = Parts(fixed: seq<Entry>, first: string -> seq<Entry>, second: string -> seq<Entry>)

  /** The names an operation list mentions, family by family. */
  datatype Touched = Touched(first: seq<string>, second: seq<string>)

  function Entries(h: Host, p: Parts, t: Touched): seq<Entry> {
    p.fixed + Flat(p.first, Names(t.first, h.units)) + Flat(p.second, Names(t.second, h.units))
  }

  /** The loops of a snapshot: for each family, sorted name by sorted name, the parts are pushed. */
  method PushParts(h: Host, p: Parts, t: Touched) returns (entries: seq<Entry>)
    ensures entries == Entries(h, p, t)
  {
    entries := PushNames(p.fixed, p.first, Names(t.first, h.units));
    entries := PushNames(entries, p.second, Names(t.second, h.units));
  }

  method PushNames(start: seq<Entry>, part: string -> seq<Entry>, names: seq<string>) returns (entries: seq<Entry>)
    ensures entries == start + Flat(part, names)
  {
    entries := start;
    for i := 0 to |names|
      invariant entries + Flat(part, names[i..]) == start + Flat(part, names)
    {
      assert names[i..][1..] == names[i + 1..];
      entries := entries + part(names[i]);
    }
  }

  function Take(h: Host, contract: string, p: Parts, t: Touched): Option<Bytes> {
    Snapshot(contract, Entries(h, p, t), h.locale)
  }

  ghost predicate Comparable(p: Parts, q: Parts) {
    SameKeys(p.fixed, q.fixed) && (forall x :: SameKeys(p.first(x), q.first(x))) && (forall x :: SameKeys(p.second(x), q.second(x)))
  }

  /** Outside the touched names the two states do not differ. */
  ghost predicate AgreeOutside(p: Parts, q: Parts, t: Touched) {
    && (forall x | x !in t.first :: p.first(x) == q.first(x))
    && (forall x | x !in t.second :: p.second(x) == q.second(x))
  }

  ghost predicate SameParts(p: Parts, q: Parts) {
    p.fixed == q.fixed && (forall x :: p.first(x) == q.first(x)) && (forall x :: p.second(x) == q.second(x))
  }

  /** If both snapshots exist, they are equal exactly when `same` holds. */
  ghost predicate Decides(a: Option<Bytes>, b: Option<Bytes>, same: bool) {
    a.Some? && b.Some? ==> (a == b <==> same)
  }

  /** The comparison of bytes decides equality of everything the states contain. */
  lemma BytesDecide(h: Host, contract: string, p: Parts, q: Parts, t: Touched)
    requires Comparable(p, q) && AgreeOutside(p, q, t)
    ensures Decides(Take(h, contract, p, t), Take(h, contract, q, t), SameParts(p, q))
  {
    var xs, ys := Names(t.first, h.units), Names(t.second, h.units);
    FlatDecides(p.first, q.first, xs);
    FlatDecides(p.second, q.second, ys);
    SameKeysConcat(p.fixed, q.fixed, Flat(p.first, xs), Flat(q.first, xs));
    SameKeysConcat(p.fixed + Flat(p.first, xs), q.fixed + Flat(q.first, xs), Flat(p.second, ys), Flat(q.second, ys));
    SameBytesSameEntries(contract, Entries(h, p, t), Entries(h, q, t), h.locale);
    EverywhereFromTouched(p.first, q.first, t.first, xs);
    EverywhereFromTouched(p.second, q.second, t.second, ys);
  }

  lemma EverywhereFromTouched(f: string -> seq<Entry>, g: string -> seq<Entry>, touched: seq<string>, names: seq<string>)
    requires forall x :: x in names <==> x in touched
    requires forall x | x !in touched :: f(x) == g(x)
    ensures (forall x | x in names :: f(x) == g(x)) <==> (forall x :: f(x) == g(x))
  {
  }

  function NumberEntry(key: string, n: nat): Entry { Entry(key, Uint(n)) }

  function Nothing(x: string): seq<Entry> { [] }

  /** A list of names gathered operation by operation. */
  function Gather<T>(ops: seq<T>, names: T -> seq<string>): seq<string> {
    if ops == [] then [] else names(ops[0]) + Gather(ops[1..], names)
  }

  lemma {:induction false} GatherHas<T>(ops: seq<T>, names: T -> seq<string>, i: nat, x: string)
    requires i < |ops| && x in names(ops[i])
    ensures x in Gather(ops, names)
  {
    if i > 0 {
      GatherHas(ops[1..], names, i - 1, x);
    }
  }

  // ---------------------------------------------------------------- DEX

  function DexParts(p: Dex.Pool): Parts {
    Parts([NumberEntry("reserveA", p.reserveA), NumberEntry("reserveB", p.reserveB), NumberEntry("totalShares", p.totalShares)],
          (u: string) => [NumberEntry("shares." + u, Dex.ShareOf(p, u))], Nothing)
  }

  function DexNames(op: Dex.Op): seq<string> {
    match op
    case AddLiquidity(u, _, _) => [u]
    case RemoveLiquidity(u, _) => [u]
    case SwapAForB(u, _) => [u]
    case GetShares(u) => [u]
    case _ => []
  }

  function DexTouched(ops: seq<Dex.Op>): Touched { Touched(Gather(ops, DexNames), []) }

  /** The observable state: reserves, total, and what everybody holds. */
  ghost predicate SameDex(p: Dex.Pool, q: Dex.Pool) {
    && p.reserveA == q.reserveA && p.reserveB == q.reserveB && p.totalShares == q.totalShares
    && forall u :: Dex.ShareOf(p, u) == Dex.ShareOf(q, u)
  }

  ghost predicate DexWithin(p: Dex.Pool, t: Touched) {
    forall u | u !in t.first :: Dex.ShareOf(p, u) == 0
  }

  lemma SameDexParts(p: Dex.Pool, q: Dex.Pool)
    ensures Comparable(DexParts(p), DexParts(q))
    ensures SameParts(DexParts(p), DexParts(q)) <==> SameDex(p, q)
  {
    var a, b := DexParts(p), DexParts(q);
    assert a.fixed == b.fixed <==> a.fixed[0] == b.fixed[0] && a.fixed[1] == b.fixed[1] && a.fixed[2] == b.fixed[2];
    assert forall u :: a.first(u) == b.first(u) <==> a.first(u)[0] == b.first(u)[0];
    if SameParts(a, b) {
      forall u ensures Dex.ShareOf(p, u) == Dex.ShareOf(q, u) {
        assert a.first(u)[0] == b.first(u)[0];
      }
    }
  }

  lemma {:induction false} DexRunsStayWithin(p: Dex.Pool, ops: seq<Dex.Op>, t: Touched)
    requires Dex.WellFormed(p) && DexWithin(p, t)
    requires forall i, u | 0 <= i < |ops| && u in DexNames(ops[i]) :: u in t.first
    ensures DexWithin(DexRun.Run(p, ops), t)
    decreases |ops|
  {
    if ops != [] {
      Dex.StepKeepsWellFormed(p, ops[0]);
      var q := Dex.Step(p, ops[0]).pool;
      assert forall u | u in DexNames(ops[0]) :: u in t.first;
      assert DexWithin(q, t);
      forall i, u | 0 <= i < |ops[1..]| && u in DexNames(ops[1..][i]) ensures u in t.first {
        assert ops[1..][i] == ops[i + 1];
      }
      DexRunsStayWithin(q, ops[1..], t);
    }
  }

  /** MAIN RESULT (DEX).  After an operation list, the oracle's comparison with any other state that
      stays within the touched names decides equality of the full states. */
  lemma DexOracleDecides(h: Host, ops: seq<Dex.Op>, p: Dex.Pool, q: Dex.Pool, t: Touched)
    requires p == DexRun.Run(Dex.EMPTY, ops) && t == DexTouched(ops) && DexWithin(q, t)
    ensures Decides(Take(h, "DEXSwap", DexParts(p), t), Take(h, "DEXSwap", DexParts(q), t), SameDex(p, q))
  {
    forall i, u | 0 <= i < |ops| && u in DexNames(ops[i]) ensures u in t.first {
      GatherHas(ops, DexNames, i, u);
    }
    DexRunsStayWithin(Dex.EMPTY, ops, t);
    SameDexParts(p, q);
    BytesDecide(h, "DEXSwap", DexParts(p), DexParts(q), t);
  }

  // ---------------------------------------------------------------- hotel and train

  function LockedAmount(st: Hotel.State, id: string): nat {
    if id in st.locks then st.locks[id].lockedAmount else 0
  }

  function HotelFixed(st: Hotel.State): seq<Entry>
    requires st.price > 0
  {
    [Entry("meta.bridge", Text(st.bridge)), NumberEntry("meta.price", st.price), NumberEntry("meta.remain", st.remain),
     NumberEntry("meta.lockSize", st.lockSize), NumberEntry("lockedTotal", st.lockedTotal),
     NumberEntry("availableRemain", Hotel.Available(st))]
  }

  function AccountPart(st: Hotel.State, u: string): seq<Entry> {
    [NumberEntry("accounts." + u, Hotel.Get(st.accounts, u)), NumberEntry("bookings." + u, Hotel.Get(st.bookings, u))]
  }

  function LockPart(st: Hotel.State, id: string): seq<Entry> {
    [Entry("locks." + id + ".active", Flag(Hotel.Locked(st, id))), NumberEntry("locks." + id + ".lockedAmount", LockedAmount(st, id))]
  }

  function HotelParts(st: Hotel.State): Parts
    requires st.price > 0
  {
    Parts(HotelFixed(st), (u: string) => AccountPart(st, u), (id: string) => LockPart(st, id))
  }

  function HotelUsers(op: Hotel.Op): seq<string> {
    if op.BookLocal? || op.GetAccountBalance? || op.GetBooking? then [op.user] else []
  }

  function HotelLocks(op: Hotel.Op): seq<string> {
    if op.LockState? || op.UnlockState? || op.IsStateLocked? then [op.lockId] else []
  }

  function HotelTouched(ops: seq<Hotel.Op>): Touched { Touched(Gather(ops, HotelUsers), Gather(ops, HotelLocks)) }

  ghost predicate SameHotel(p: Hotel.State, q: Hotel.State) {
    && p.bridge == q.bridge && p.price == q.price && p.remain == q.remain && p.lockSize == q.lockSize
    && p.lockedTotal == q.lockedTotal
    && (forall u :: Hotel.Get(p.accounts, u) == Hotel.Get(q.accounts, u) && Hotel.Get(p.bookings, u) == Hotel.Get(q.bookings, u))
    && (forall id :: (Hotel.Locked(p, id) <==> Hotel.Locked(q, id)) && LockedAmount(p, id) == LockedAmount(q, id))
  }

  ghost predicate HotelWithin(st: Hotel.State, t: Touched) {
    && (forall u | u !in t.first :: Hotel.Get(st.accounts, u) == 0 && Hotel.Get(st.bookings, u) == 0)
    && (forall id | id !in t.second :: id !in st.locks)
  }

  lemma SameFixed(p: Hotel.State, q: Hotel.State)
    requires p.price > 0 && q.price > 0
    ensures SameKeys(HotelFixed(p), HotelFixed(q))
    ensures HotelFixed(p) == HotelFixed(q) <==>
              && p.bridge == q.bridge && p.price == q.price && p.remain == q.remain && p.lockSize == q.lockSize
              && p.lockedTotal == q.lockedTotal
  {
    var a, b := HotelFixed(p), HotelFixed(q);
    if a == b {
      assert a[0] == b[0] && a[1] == b[1] && a[2] == b[2] && a[3] == b[3] && a[4] == b[4];
    }
  }

  lemma SameAccount(p: Hotel.State, q: Hotel.State, u: string)
    ensures SameKeys(AccountPart(p, u), AccountPart(q, u))
    ensures AccountPart(p, u) == AccountPart(q, u) <==>
              Hotel.Get(p.accounts, u) == Hotel.Get(q.accounts, u) && Hotel.Get(p.bookings, u) == Hotel.Get(q.bookings, u)
  {
    var a, b := AccountPart(p, u), AccountPart(q, u);
    if a == b { assert a[0] == b[0] && a[1] == b[1]; }
  }

  lemma SameLock(p: Hotel.State, q: Hotel.State, id: string)
    ensures SameKeys(LockPart(p, id), LockPart(q, id))
    ensures LockPart(p, id) == LockPart(q, id) <==>
              (Hotel.Locked(p, id) <==> Hotel.Locked(q, id)) && LockedAmount(p, id) == LockedAmount(q, id)
  {
    var a, b := LockPart(p, id), LockPart(q, id);
    if a == b { assert a[0] == b[0] && a[1] == b[1]; }
  }

  lemma SameHotelParts(p: Hotel.State, q: Hotel.State)
    requires p.price > 0 && q.price > 0
    ensures Comparable(HotelParts(p), HotelParts(q))
    ensures SameParts(HotelParts(p), HotelParts(q)) <==> SameHotel(p, q)
  {
    SameFixed(p, q);
    forall u ensures SameKeys(AccountPart(p, u), AccountPart(q, u)) && (AccountPart(p, u) == AccountPart(q, u) <==>
        Hotel.Get(p.accounts, u) == Hotel.Get(q.accounts, u) && Hotel.Get(p.bookings, u) == Hotel.Get(q.bookings, u)) {
      SameAccount(p, q, u);
    }
    forall id ensures SameKeys(LockPart(p, id), LockPart(q, id)) && (LockPart(p, id) == LockPart(q, id) <==>
        (Hotel.Locked(p, id) <==> Hotel.Locked(q, id)) && LockedAmount(p, id) == LockedAmount(q, id)) {
      SameLock(p, q, id);
    }
    var a, b := HotelParts(p), HotelParts(q);
    if SameParts(a, b) {
      forall u ensures AccountPart(p, u) == AccountPart(q, u) { assert a.first(u) == b.first(u); }
      forall id ensures LockPart(p, id) == LockPart(q, id) { assert a.second(id) == b.second(id); }
    }
  }

  function HotelRun(st: Hotel.State, ops: seq<Hotel.Op>): (r: Hotel.State)
    requires st.price > 0
    ensures r.price == st.price
    decreases |ops|
  {
    if ops == [] then st else HotelRun(Hotel.Step(st, ops[0]).state, ops[1..])
  }

  lemma {:induction false} HotelRunIsStepwise(st: Hotel.State, ops: seq<Hotel.Op>, op: Hotel.Op)
    requires st.price > 0
    ensures HotelRun(st, []) == st && HotelRun(st, ops + [op]) == Hotel.Step(HotelRun(st, ops), op).state
    decreases |ops|
  {
    if ops == [] {
      assert ops + [op] == [op];
    } else {
      HotelRunIsStepwise(Hotel.Step(st, ops[0]).state, ops[1..], op);
      assert (ops + [op])[1..] == ops[1..] + [op];
    }
  }

  lemma {:induction false} HotelRunsStayWithin(st: Hotel.State, ops: seq<Hotel.Op>, t: Touched)
    requires st.price > 0 && HotelWithin(st, t)
    requires forall i, u | 0 <= i < |ops| && u in HotelUsers(ops[i]) :: u in t.first
    requires forall i, u | 0 <= i < |ops| && u in HotelLocks(ops[i]) :: u in t.second
    ensures HotelWithin(HotelRun(st, ops), t)
    decreases |ops|
  {
    if ops != [] {
      var next := Hotel.Step(st, ops[0]).state;
      assert forall u | u in HotelUsers(ops[0]) :: u in t.first;
      assert forall u | u in HotelLocks(ops[0]) :: u in t.second;
      assert HotelWithin(next, t);
      forall i, u | 0 <= i < |ops[1..]| && u in HotelUsers(ops[1..][i]) ensures u in t.first {
        assert ops[1..][i] == ops[i + 1];
      }
      forall i, u | 0 <= i < |ops[1..]| && u in HotelLocks(ops[1..][i]) ensures u in t.second {
        assert ops[1..][i] == ops[i + 1];
      }
      HotelRunsStayWithin(next, ops[1..], t);
    }
  }

  /** MAIN RESULT (hotel and train, which differ in the contract name only). */
  lemma HotelOracleDecides(h: Host, contract: string, start: Hotel.State, ops: seq<Hotel.Op>,
                           p: Hotel.State, q: Hotel.State, t: Touched)
    requires start == Hotel.Init(start.bridge, start.price, start.remain, start.lockSize) && start.price > 0
    requires p == HotelRun(start, ops) && t == HotelTouched(ops) && q.price > 0 && HotelWithin(q, t)
    ensures Decides(Take(h, contract, HotelParts(p), t), Take(h, contract, HotelParts(q), t), SameHotel(p, q))
  {
    forall i, u | 0 <= i < |ops| && u in HotelUsers(ops[i]) ensures u in t.first {
      GatherHas(ops, HotelUsers, i, u);
    }
    forall i, u | 0 <= i < |ops| && u in HotelLocks(ops[i]) ensures u in t.second {
      GatherHas(ops, HotelLocks, i, u);
    }
    HotelRunsStayWithin(start, ops, t);
    SameHotelParts(p, q);
    HotelAgreesOutside(p, q, t);
    BytesDecide(h, contract, HotelParts(p), HotelParts(q), t);
  }

  lemma HotelAgreesOutside(p: Hotel.State, q: Hotel.State, t: Touched)
    requires p.price > 0 && q.price > 0 && HotelWithin(p, t) && HotelWithin(q, t)
    ensures AgreeOutside(HotelParts(p), HotelParts(q), t)
  {
    forall u | u !in t.first ensures AccountPart(p, u) == AccountPart(q, u) { SameAccount(p, q, u); }
    forall id | id !in t.second ensures LockPart(p, id) == LockPart(q, id) { SameLock(p, q, id); }
  }

  // ---------------------------------------------------------------- token

  function TokenParts(st: Token.State): Parts {
    Parts([NumberEntry("totalSupply", st.totalSupply)],
          (u: string) => [NumberEntry("balances." + u, Token.Get(st.balances, u))],
          (k: string) => [NumberEntry("allowances." + k, Token.Get(st.allowances, k))])
  }

  function TokenUsers(op: Token.Op): seq<string> {
    match op
    case Mint(to, _) => [to]
    case Transfer(from, to, _) => [to, from]
    case Approve(owner, spender, _) => [owner, spender]
    case TransferFrom(spender, from, to, _) => [to, from, spender]
    case BalanceOf(user) => [user]
    case Allowance(owner, spender) => [owner, spender]
    case TotalSupply => []
  }

  function TokenPairs(op: Token.Op): seq<string> {
    match op
    case Approve(owner, spender, _) => [Token.AllowanceKey(owner, spender)]
    case Allowance(owner, spender) => [Token.AllowanceKey(owner, spender)]
    case TransferFrom(spender, from, _, _) => [Token.AllowanceKey(from, spender)]
    case _ => []
  }

  /** Users also include the holders of the initial balances. */
  function TokenTouched(initial: seq<string>, ops: seq<Token.Op>): Touched {
    Touched(initial + Gather(ops, TokenUsers), Gather(ops, TokenPairs))
  }

  ghost predicate SameToken(p: Token.State, q: Token.State) {
    && p.totalSupply == q.totalSupply
    && (forall u :: Token.Get(p.balances, u) == Token.Get(q.balances, u))
    && (forall k :: Token.Get(p.allowances, k) == Token.Get(q.allowances, k))
  }

  ghost predicate TokenWithin(st: Token.State, t: Touched) {
    && (forall u | u !in t.first :: Token.Get(st.balances, u) == 0)
    && (forall k | k !in t.second :: Token.Get(st.allowances, k) == 0)
  }

  lemma SameTokenParts(p: Token.State, q: Token.State)
    ensures Comparable(TokenParts(p), TokenParts(q))
    ensures SameParts(TokenParts(p), TokenParts(q)) <==> SameToken(p, q)
  {
    var a, b := TokenParts(p), TokenParts(q);
    assert a.fixed == b.fixed <==> a.fixed[0] == b.fixed[0];
    if SameParts(a, b) {
      forall u ensures Token.Get(p.balances, u) == Token.Get(q.balances, u) {
        assert a.first(u)[0] == b.first(u)[0];
      }
      forall k ensures Token.Get(p.allowances, k) == Token.Get(q.allowances, k) {
        assert a.second(k)[0] == b.second(k)[0];
      }
    }
  }

  lemma {:induction false} TokenRunsStayWithin(st: Token.State, ops: seq<Token.Op>, t: Touched)
    requires TokenWithin(st, t)
    requires forall i, u | 0 <= i < |ops| && u in TokenUsers(ops[i]) :: u in t.first
    requires forall i, u | 0 <= i < |ops| && u in TokenPairs(ops[i]) :: u in t.second
    ensures TokenWithin(Token.Run(st, ops), t)
    decreases |ops|
  {
    if ops != [] {
      var next := Token.Step(st, ops[0]).state;
      assert forall u | u in TokenUsers(ops[0]) :: u in t.first;
      assert forall u | u in TokenPairs(ops[0]) :: u in t.second;
      assert TokenWithin(next, t);
      forall i, u | 0 <= i < |ops[1..]| && u in TokenUsers(ops[1..][i]) ensures u in t.first {
        assert ops[1..][i] == ops[i + 1];
      }
      forall i, u | 0 <= i < |ops[1..]| && u in TokenPairs(ops[1..][i]) ensures u in t.second {
        assert ops[1..][i] == ops[i + 1];
      }
      TokenRunsStayWithin(next, ops[1..], t);
    }
  }

  /** MAIN RESULT (token).  Allowances are compared cell by cell; with NUL-free names a cell is one
      owner and spender. */
  lemma TokenOracleDecides(h: Host, start: Token.State, initial: seq<string>, ops: seq<Token.Op>,
                           p: Token.State, q: Token.State, t: Touched)
    requires start.allowances == map[] && forall u | u in start.balances :: u in initial
    requires p == Token.Run(start, ops) && t == TokenTouched(initial, ops) && TokenWithin(q, t)
    ensures Decides(Take(h, "TokenTransfer", TokenParts(p), t), Take(h, "TokenTransfer", TokenParts(q), t), SameToken(p, q))
  {
    TokenTouchedCovers(start, initial, ops, t);
    SameTokenParts(p, q);
    BytesDecide(h, "TokenTransfer", TokenParts(p), TokenParts(q), t);
  }

  lemma TokenTouchedCovers(start: Token.State, initial: seq<string>, ops: seq<Token.Op>, t: Touched)
    requires start.allowances == map[] && forall u | u in start.balances :: u in initial
    requires t == TokenTouched(initial, ops)
    ensures TokenWithin(Token.Run(start, ops), t)
  {
    forall i, u | 0 <= i < |ops| && u in TokenUsers(ops[i]) ensures u in t.first {
      GatherHas(ops, TokenUsers, i, u);
    }
    forall i, u | 0 <= i < |ops| && u in TokenPairs(ops[i]) ensures u in t.second {
      GatherHas(ops, TokenPairs, i, u);
    }
    TokenRunsStayWithin(start, ops, t);
  }

  // ---------------------------------------------------------------- auction

  function RecordPart(a: Auction.Auction, id: string): seq<Entry> {
    [Entry("auction." + id + ".seller", Text(a.seller)), NumberEntry("auction." + id + ".minPrice", a.minPrice),
     Entry("auction." + id + ".highestBidder", Text(a.highestBidder)), NumberEntry("auction." + id + ".highestBid", a.highestBid),
     Entry("auction." + id + ".open", Flag(a.open)), Entry("auction." + id + ".exists", Flag(a.exists_))]
  }

  function ReturnPart(st: Auction.State, u: string): seq<Entry> { [NumberEntry("pending." + u, Auction.Pending(st, u))] }

  /** `record` lays out one auction. */
  function PartsBy(record: (Auction.Auction, string) -> seq<Entry>, st: Auction.State): Parts {
    Parts([], (id: string) => record(Auction.Lookup(st, id), id), (u: string) => ReturnPart(st, u))
  }

  function AuctionParts(st: Auction.State): Parts { PartsBy(RecordPart, st) }

  function AuctionIds(op: Auction.Op): seq<string> {
    if op.Withdraw? || op.PendingReturn? then [] else [op.id]
  }

  function AuctionUsers(op: Auction.Op): seq<string> {
    match op
    case CreateAuction(_, seller, _) => [seller]
    case Bid(_, bidder, _) => [bidder]
    case Withdraw(user) => [user]
    case PendingReturn(user) => [user]
    case _ => []
  }

  function AuctionTouched(ops: seq<Auction.Op>): Touched { Touched(Gather(ops, AuctionIds), Gather(ops, AuctionUsers)) }

  ghost predicate SameAuctions(p: Auction.State, q: Auction.State) {
    && (forall id :: Auction.Lookup(p, id) == Auction.Lookup(q, id))
    && (forall u :: Auction.Pending(p, u) == Auction.Pending(q, u))
  }

  ghost predicate AuctionWithin(st: Auction.State, t: Touched) {
    && (forall id | id !in t.first :: Auction.Lookup(st, id) == Auction.NO_AUCTION)
    && (forall u | u !in t.second :: Auction.Pending(st, u) == 0)
  }

  /** Whoever an auction may still pay has been mentioned. */
  ghost predicate PayeesKnown(st: Auction.State, t: Touched) {
    forall id | id in st.auctions ::
      st.auctions[id].seller in t.second && (st.auctions[id].highestBid > 0 ==> st.auctions[id].highestBidder in t.second)
  }

  lemma SameRecord(x: Auction.Auction, y: Auction.Auction, id: string)
    ensures SameKeys(RecordPart(x, id), RecordPart(y, id))
    ensures RecordPart(x, id) == RecordPart(y, id) <==> x == y
  {
    var a, b := RecordPart(x, id), RecordPart(y, id);
    if a == b {
      assert a[0] == b[0] && a[1] == b[1] && a[2] == b[2] && a[3] == b[3] && a[4] == b[4] && a[5] == b[5];
    }
  }

  lemma SameReturn(p: Auction.State, q: Auction.State, u: string)
    ensures SameKeys(ReturnPart(p, u), ReturnPart(q, u))
    ensures ReturnPart(p, u) == ReturnPart(q, u) <==> Auction.Pending(p, u) == Auction.Pending(q, u)
  {
    var a, b := ReturnPart(p, u), ReturnPart(q, u);
    if a == b { assert a[0] == b[0]; }
  }

  /** The layout tells auctions apart and has the same keys for all of them. */
  ghost predicate Faithful(record: (Auction.Auction, string) -> seq<Entry>) {
    forall x, y, id :: SameKeys(record(x, id), record(y, id)) && (record(x, id) == record(y, id) <==> x == y)
  }

  lemma RecordPartIsFaithful()
    ensures Faithful(RecordPart)
  {
    forall x, y, id ensures SameKeys(RecordPart(x, id), RecordPart(y, id)) && (RecordPart(x, id) == RecordPart(y, id) <==> x == y) {
      SameRecord(x, y, id);
    }
  }

  lemma SamePartsBy(record: (Auction.Auction, string) -> seq<Entry>, p: Auction.State, q: Auction.State)
    requires Faithful(record)
    ensures Comparable(PartsBy(record, p), PartsBy(record, q))
    ensures SameParts(PartsBy(record, p), PartsBy(record, q)) <==> SameAuctions(p, q)
  {
    forall u ensures SameKeys(ReturnPart(p, u), ReturnPart(q, u))
                     && (ReturnPart(p, u) == ReturnPart(q, u) <==> Auction.Pending(p, u) == Auction.Pending(q, u)) {
      SameReturn(p, q, u);
    }
    var a, b := PartsBy(record, p), PartsBy(record, q);
    forall id ensures SameKeys(a.first(id), b.first(id)) {
      assert SameKeys(record(Auction.Lookup(p, id), id), record(Auction.Lookup(q, id), id));
    }
    if SameParts(a, b) {
      forall id ensures Auction.Lookup(p, id) == Auction.Lookup(q, id) { assert a.first(id) == b.first(id); }
      forall u ensures Auction.Pending(p, u) == Auction.Pending(q, u) { assert a.second(u) == b.second(u); }
    }
  }

  lemma PartsByDecide(record: (Auction.Auction, string) -> seq<Entry>, h: Host, p: Auction.State, q: Auction.State, t: Touched)
    requires Faithful(record) && AuctionWithin(p, t) && AuctionWithin(q, t)
    ensures Decides(Take(h, "AuctionLogic", PartsBy(record, p), t), Take(h, "AuctionLogic", PartsBy(record, q), t), SameAuctions(p, q))
  {
    SamePartsBy(record, p, q);
    BytesDecide(h, "AuctionLogic", PartsBy(record, p), PartsBy(record, q), t);
  }

  function AuctionRun(st: Auction.State, ops: seq<Auction.Op>): Auction.State
    decreases |ops|
  {
    if ops == [] then st else AuctionRun(Auction.Step(st, ops[0]).state, ops[1..])
  }

  lemma {:induction false} AuctionRunIsStepwise(st: Auction.State, ops: seq<Auction.Op>, op: Auction.Op)
    ensures AuctionRun(st, []) == st && AuctionRun(st, ops + [op]) == Auction.Step(AuctionRun(st, ops), op).state
    decreases |ops|
  {
    if ops == [] {
      assert ops + [op] == [op];
    } else {
      AuctionRunIsStepwise(Auction.Step(st, ops[0]).state, ops[1..], op);
      assert (ops + [op])[1..] == ops[1..] + [op];
    }
  }

  lemma AuctionStepStaysWithin(st: Auction.State, op: Auction.Op, t: Touched)
    requires AuctionWithin(st, t) && PayeesKnown(st, t)
    requires (forall x | x in AuctionIds(op) :: x in t.first) && (forall x | x in AuctionUsers(op) :: x in t.second)
    ensures AuctionWithin(Auction.Step(st, op).state, t) && PayeesKnown(Auction.Step(st, op).state, t)
  {
    assert op.Bid? || op.Close? || op.CreateAuction? ==> op.id in AuctionIds(op);
    assert op.CreateAuction? ==> op.seller in AuctionUsers(op);
    assert op.Bid? ==> op.bidder in AuctionUsers(op);
    assert op.Withdraw? ==> op.user in AuctionUsers(op);
  }

  lemma {:induction false} AuctionRunsStayWithin(st: Auction.State, ops: seq<Auction.Op>, t: Touched)
    requires AuctionWithin(st, t) && PayeesKnown(st, t)
    requires forall i, u | 0 <= i < |ops| && u in AuctionIds(ops[i]) :: u in t.first
    requires forall i, u | 0 <= i < |ops| && u in AuctionUsers(ops[i]) :: u in t.second
    ensures AuctionWithin(AuctionRun(st, ops), t)
    decreases |ops|
  {
    if ops != [] {
      AuctionStepStaysWithin(st, ops[0], t);
      forall i, u | 0 <= i < |ops[1..]| && u in AuctionIds(ops[1..][i]) ensures u in t.first {
        assert ops[1..][i] == ops[i + 1];
      }
      forall i, u | 0 <= i < |ops[1..]| && u in AuctionUsers(ops[1..][i]) ensures u in t.second {
        assert ops[1..][i] == ops[i + 1];
      }
      AuctionRunsStayWithin(Auction.Step(st, ops[0]).state, ops[1..], t);
    }
  }

  /** MAIN RESULT (auction). */
  lemma AuctionOracleDecides(h: Host, ops: seq<Auction.Op>, p: Auction.State, q: Auction.State, t: Touched)
    requires p == AuctionRun(Auction.EMPTY, ops) && t == AuctionTouched(ops) && AuctionWithin(q, t)
    ensures Decides(Take(h, "AuctionLogic", AuctionParts(p), t), Take(h, "AuctionLogic", AuctionParts(q), t), SameAuctions(p, q))
  {
    AuctionTouchedCovers(ops, t);
    RecordPartIsFaithful();
    PartsByDecide(RecordPart, h, p, q, t);
  }

  lemma AuctionTouchedCovers(ops: seq<Auction.Op>, t: Touched)
    requires t == AuctionTouched(ops)
    ensures AuctionWithin(AuctionRun(Auction.EMPTY, ops), t)
  {
    forall i, u | 0 <= i < |ops| && u in AuctionIds(ops[i]) ensures u in t.first {
      GatherHas(ops, AuctionIds, i, u);
    }
    forall i, u | 0 <= i < |ops| && u in AuctionUsers(ops[i]) ensures u in t.second {
      GatherHas(ops, AuctionUsers, i, u);
    }
    AuctionRunsStayWithin(Auction.EMPTY, ops, t);
  }
}
