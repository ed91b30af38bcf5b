/** What a snapshot says: read back, it holds exactly the listed values under the listed keys, once
    each, for exactly the names the operations mention. */
module SnapshotContents {
  import opened Prelude
  import opened CanonicalSnapshot
  import opened SnapshotOracle
  import Oracle = SnapshotOracle
  import Dex = DexSwap
  import DexRun = DexProperties
  import Hotel = HotelModel
  import Token = TokenModel
  import Auction = AuctionModel

  // ---------------------------------------------------------------- reading a snapshot

  /** The entries of a snapshot, read from its bytes; none if they are not a snapshot. */
  function Shown(bytes: Bytes): seq<Entry> {
    if Parse(bytes) == None then [] else Parse(bytes).value.1
  }

  lemma {:induction false} FlatHas(f: string -> seq<Entry>, xs: seq<string>, e: Entry)
    ensures e in Flat(f, xs) <==> exists x :: x in xs && e in f(x)
  {
    if xs != [] {
      FlatHas(f, xs[1..], e);
      assert xs == [xs[0]] + xs[1..];
    }
  }

  lemma {:induction false} FlatLength(f: string -> seq<Entry>, xs: seq<string>, k: nat)
    requires forall x :: |f(x)| == k
    ensures |Flat(f, xs)| == k * |xs|
  {
    if xs != [] {
      FlatLength(f, xs[1..], k);
    }
  }

  lemma {:induction false} InsertLength(x: string, xs: seq<string>, leq: Order)
    ensures |InsertName(x, xs, leq)| == |xs| + 1
  {
    if xs != [] && !leq(x, xs[0]) {
      InsertLength(x, xs[1..], leq);
    }
  }

  /** Every name once. */
  lemma {:induction false} NamesOnce(xs: seq<string>, leq: Order)
    ensures |Names(xs, leq)| == |set x | x in xs|
  {
    if xs == [] {
      assert (set x | x in xs) == {};
    } else {
      var tail := xs[1..];
      NamesOnce(tail, leq);
      assert xs == [xs[0]] + tail;
      var all, rest := set x | x in xs, set x | x in tail;
      assert all == rest + {xs[0]};
      if xs[0] in tail {
        assert all == rest;
      } else {
        InsertLength(xs[0], Names(tail, leq), leq);
      }
    }
  }

  /** Names come in the host's order of names. */
  ghost predicate InOrder(xs: seq<string>, leq: Order) {
    forall i, j | 0 <= i < j < |xs| :: leq(xs[i], xs[j])
  }

  lemma {:induction false} InsertInOrder(x: string, xs: seq<string>, leq: Order)
    requires TotalPreorder(leq) && InOrder(xs, leq)
    ensures InOrder(InsertName(x, xs, leq), leq)
  {
    if xs != [] {
      var r := InsertName(x, xs, leq);
      if leq(x, xs[0]) {
        forall i, j | 0 <= i < j < |r| ensures leq(r[i], r[j]) {
          assert j == 1 || leq(xs[0], xs[j - 1]);
        }
      } else {
        InsertInOrder(x, xs[1..], leq);
        forall i, j | 0 <= i < j < |r| ensures leq(r[i], r[j]) {
          if i == 0 {
            assert r[j] in InsertName(x, xs[1..], leq);
            if r[j] != x {
              var k :| 0 <= k < |xs[1..]| && xs[1..][k] == r[j];
              assert leq(xs[0], xs[k + 1]);
            }
          }
        }
      }
    }
  }

  lemma {:induction false} NamesInOrder(xs: seq<string>, leq: Order)
    requires TotalPreorder(leq)
    ensures InOrder(Names(xs, leq), leq)
  {
    if xs != [] {
      NamesInOrder(xs[1..], leq);
      if xs[0] !in xs[1..] {
        InsertInOrder(xs[0], Names(xs[1..], leq), leq);
      }
    }
  }

  lemma {:induction false} GatherExactly<T>(ops: seq<T>, names: T -> seq<string>, x: string)
    ensures x in Gather(ops, names) <==> exists i :: 0 <= i < |ops| && x in names(ops[i])
  {
    if ops != [] {
      GatherExactly(ops[1..], names, x);
      if i :| 0 <= i < |ops[1..]| && x in names(ops[1..][i]) {
        assert ops[i + 1] == ops[1..][i];
      }
      if i :| 0 <= i < |ops| && x in names(ops[i]) {
        assert i == 0 || ops[1..][i - 1] == ops[i];
      }
    }
  }

  /** An entry of some parts over some touched names. */
  ghost predicate Listed(p: Parts, t: Touched, e: Entry) {
    e in p.fixed || (exists x :: x in t.first && e in p.first(x)) || (exists x :: x in t.second && e in p.second(x))
  }

  lemma EntriesListed(h: Host, p: Parts, t: Touched, e: Entry)
    ensures e in Entries(h, p, t) <==> Listed(p, t, e)
  {
    FlatHas(p.first, Names(t.first, h.units), e);
    FlatHas(p.second, Names(t.second, h.units), e);
  }

  /** Reading back the snapshot of any parts over any touched names. */
  lemma PartsShown(h: Host, contract: string, p: Parts, t: Touched, e: Entry)
    ensures var s := Oracle.Take(h, contract, p, t);
            s.Some? ==>
              && Parse(s.value).Some? && Parse(s.value).value.0 == contract
              && |Shown(s.value)| == |Entries(h, p, t)|
              && (e in Shown(s.value) <==> Listed(p, t, e))
  {
    var entries := Entries(h, p, t);
    SnapshotParsesBack(contract, entries, h.locale);
    SortKeeps(entries, h.locale);
    assert |multiset(Sort(entries, h.locale))| == |multiset(entries)|;
    EntriesListed(h, p, t, e);
  }

  /** How many entries there are, with a fixed number for each name of a family. */
  lemma EntriesCount(h: Host, p: Parts, t: Touched, first: nat, second: nat)
    requires (forall x :: |p.first(x)| == first) && (forall x :: |p.second(x)| == second)
    ensures |Entries(h, p, t)| == |p.fixed| + first * |Names(t.first, h.units)| + second * |Names(t.second, h.units)|
  {
    FlatLength(p.first, Names(t.first, h.units), first);
    FlatLength(p.second, Names(t.second, h.units), second);
  }

  // ---------------------------------------------------------------- DEX

  /** The user an operation names, if it names one. */
  predicate DexUser(op: Dex.Op, u: string) {
    !op.GetReserves? && !op.GetTotalShares? && op.user == u
  }

  ghost predicate DexMentions(ops: seq<Dex.Op>, u: string) {
    exists i :: 0 <= i < |ops| && DexUser(ops[i], u)
  }

  ghost predicate DexEntry(ops: seq<Dex.Op>, p: Dex.Pool, e: Entry) {
    || e == Entry("reserveA", Uint(p.reserveA))
    || e == Entry("reserveB", Uint(p.reserveB))
    || e == Entry("totalShares", Uint(p.totalShares))
    || exists u :: DexMentions(ops, u) && e == Entry("shares." + u, Uint(if u in p.shares then p.shares[u] else 0))
  }

  lemma DexTouchedExactly(ops: seq<Dex.Op>, u: string)
    ensures u in DexTouched(ops).first <==> DexMentions(ops, u)
  {
    GatherExactly(ops, DexNames, u);
    forall op: Dex.Op ensures u in DexNames(op) <==> DexUser(op, u) {
    }
  }

  /** MAIN RESULT (DEX).  After any operation list, the snapshot shows the reserves and the total under
      their names and what each mentioned user holds, and nothing else. */
  lemma DexSnapshotShows(h: Host, ops: seq<Dex.Op>, e: Entry)
    ensures var p := DexRun.Run(Dex.EMPTY, ops);
            var s := Oracle.Take(h, "DEXSwap", DexParts(p), DexTouched(ops));
            s.Some? ==>
              && Parse(s.value).Some? && Parse(s.value).value.0 == "DEXSwap"
              && |Shown(s.value)| == 3 + |set u | u in DexTouched(ops).first|
              && (e in Shown(s.value) <==> DexEntry(ops, p, e))
  {
    var p := DexRun.Run(Dex.EMPTY, ops);
    var t := DexTouched(ops);
    PartsShown(h, "DEXSwap", DexParts(p), t, e);
    EntriesCount(h, DexParts(p), t, 1, 0);
    NamesOnce(t.first, h.units);
    DexListed(ops, p, e);
  }

  lemma DexListed(ops: seq<Dex.Op>, p: Dex.Pool, e: Entry)
    ensures Listed(DexParts(p), DexTouched(ops), e) <==> DexEntry(ops, p, e)
  {
    forall u ensures u in DexTouched(ops).first <==> DexMentions(ops, u) {
      DexTouchedExactly(ops, u);
    }
    forall u ensures e in DexParts(p).first(u) <==> e == Entry("shares." + u, Uint(if u in p.shares then p.shares[u] else 0)) {
    }
  }

  // ---------------------------------------------------------------- token

  predicate TokenUser(op: Token.Op, u: string) {
    || (op.BalanceOf? && op.user == u)
    || ((op.Mint? || op.Transfer? || op.TransferFrom?) && op.to == u)
    || ((op.Transfer? || op.TransferFrom?) && op.from == u)
    || ((op.Approve? || op.Allowance?) && op.owner == u)
    || ((op.Approve? || op.Allowance? || op.TransferFrom?) && op.spender == u)
  }

  /** Owner and spender of an approval or its query, source and spender of a delegated transfer. */
  predicate TokenPair(op: Token.Op, k: string) {
    || ((op.Approve? || op.Allowance?) && k == op.owner + "\0" + op.spender)
    || (op.TransferFrom? && k == op.from + "\0" + op.spender)
  }

  ghost predicate TokenMentions(initial: seq<string>, ops: seq<Token.Op>, u: string) {
    u in initial || exists i :: 0 <= i < |ops| && TokenUser(ops[i], u)
  }

  ghost predicate TokenMentionsPair(ops: seq<Token.Op>, k: string) {
    exists i :: 0 <= i < |ops| && TokenPair(ops[i], k)
  }

  ghost predicate BalanceEntry(st: Token.State, u: string, e: Entry) {
    e == Entry("balances." + u, Uint(if u in st.balances then st.balances[u] else 0))
  }

  ghost predicate AllowanceEntry(st: Token.State, k: string, e: Entry) {
    e == Entry("allowances." + k, Uint(if k in st.allowances then st.allowances[k] else 0))
  }

  ghost predicate TokenEntry(initial: seq<string>, ops: seq<Token.Op>, st: Token.State, e: Entry) {
    || e == Entry("totalSupply", Uint(st.totalSupply))
    || (exists u :: TokenMentions(initial, ops, u) && BalanceEntry(st, u, e))
    || (exists k :: TokenMentionsPair(ops, k) && AllowanceEntry(st, k, e))
  }

  lemma TokenTouchedExactly(initial: seq<string>, ops: seq<Token.Op>, x: string)
    ensures x in TokenTouched(initial, ops).first <==> TokenMentions(initial, ops, x)
    ensures x in TokenTouched(initial, ops).second <==> TokenMentionsPair(ops, x)
  {
    GatherExactly(ops, TokenUsers, x);
    GatherExactly(ops, TokenPairs, x);
    forall op: Token.Op ensures (x in TokenUsers(op) <==> TokenUser(op, x)) && (x in TokenPairs(op) <==> TokenPair(op, x)) {
      TokenNamesExactly(op, x);
    }
  }

  lemma TokenNamesExactly(op: Token.Op, x: string)
    ensures x in TokenUsers(op) <==> TokenUser(op, x)
    ensures x in TokenPairs(op) <==> TokenPair(op, x)
  {
    match op
    case Approve(owner, spender, _) => assert Token.AllowanceKey(owner, spender) == owner + "\0" + spender;
    case Allowance(owner, spender) => assert Token.AllowanceKey(owner, spender) == owner + "\0" + spender;
    case TransferFrom(spender, from, _, _) => assert Token.AllowanceKey(from, spender) == from + "\0" + spender;
    case _ =>
  }

  /** MAIN RESULT (token). */
  lemma TokenSnapshotShows(h: Host, start: Token.State, initial: seq<string>, ops: seq<Token.Op>, e: Entry)
    ensures var st := Token.Run(start, ops);
            var t := TokenTouched(initial, ops);
            var s := Oracle.Take(h, "TokenTransfer", TokenParts(st), t);
            s.Some? ==>
              && Parse(s.value).Some? && Parse(s.value).value.0 == "TokenTransfer"
              && |Shown(s.value)| == 1 + |set u | u in t.first| + |set k | k in t.second|
              && (e in Shown(s.value) <==> TokenEntry(initial, ops, st, e))
  {
    var st := Token.Run(start, ops);
    var t := TokenTouched(initial, ops);
    PartsShown(h, "TokenTransfer", TokenParts(st), t, e);
    EntriesCount(h, TokenParts(st), t, 1, 1);
    NamesOnce(t.first, h.units);
    NamesOnce(t.second, h.units);
    TokenListed(initial, ops, st, e);
  }

  lemma TokenListed(initial: seq<string>, ops: seq<Token.Op>, st: Token.State, e: Entry)
    ensures Listed(TokenParts(st), TokenTouched(initial, ops), e) <==> TokenEntry(initial, ops, st, e)
  {
    var p, t := TokenParts(st), TokenTouched(initial, ops);
    forall x ensures (x in t.first <==> TokenMentions(initial, ops, x)) && (x in t.second <==> TokenMentionsPair(ops, x)) {
      TokenTouchedExactly(initial, ops, x);
    }
    forall x ensures (e in p.first(x) <==> BalanceEntry(st, x, e)) && (e in p.second(x) <==> AllowanceEntry(st, x, e)) {
      TokenPartsAre(st, x, e);
    }
  }

  lemma TokenPartsAre(st: Token.State, x: string, e: Entry)
    ensures e in TokenParts(st).first(x) <==> BalanceEntry(st, x, e)
    ensures e in TokenParts(st).second(x) <==> AllowanceEntry(st, x, e)
  {
  }

  // ---------------------------------------------------------------- hotel and train

  ghost predicate HotelMentions(ops: seq<Hotel.Op>, u: string) {
    exists i :: 0 <= i < |ops| && (ops[i].BookLocal? || ops[i].GetAccountBalance? || ops[i].GetBooking?) && ops[i].user == u
  }

  ghost predicate HotelMentionsLock(ops: seq<Hotel.Op>, id: string) {
    exists i :: 0 <= i < |ops| && (ops[i].LockState? || ops[i].UnlockState? || ops[i].IsStateLocked?) && ops[i].lockId == id
  }

  ghost predicate HotelFixedEntry(st: Hotel.State, e: Entry)
    requires st.price > 0
  {
    || e == Entry("meta.bridge", Text(st.bridge)) || e == Entry("meta.price", Uint(st.price))
    || e == Entry("meta.remain", Uint(st.remain)) || e == Entry("meta.lockSize", Uint(st.lockSize))
    || e == Entry("lockedTotal", Uint(st.lockedTotal))
    || e == Entry("availableRemain", Uint(if st.remain > st.lockedTotal / st.price then st.remain - st.lockedTotal / st.price else 0))
  }

  ghost predicate AccountEntry(st: Hotel.State, u: string, e: Entry) {
    || e == Entry("accounts." + u, Uint(if u in st.accounts then st.accounts[u] else 0))
    || e == Entry("bookings." + u, Uint(if u in st.bookings then st.bookings[u] else 0))
  }

  ghost predicate LockedEntry(st: Hotel.State, id: string, e: Entry) {
    || e == Entry("locks." + id + ".active", Flag(id in st.locks && st.locks[id].active))
    || e == Entry("locks." + id + ".lockedAmount", Uint(if id in st.locks then st.locks[id].lockedAmount else 0))
  }

  ghost predicate HotelEntry(ops: seq<Hotel.Op>, st: Hotel.State, e: Entry)
    requires st.price > 0
  {
    || HotelFixedEntry(st, e)
    || (exists u :: HotelMentions(ops, u) && AccountEntry(st, u, e))
    || (exists id :: HotelMentionsLock(ops, id) && LockedEntry(st, id, e))
  }

  lemma HotelTouchedExactly(ops: seq<Hotel.Op>, x: string)
    ensures x in HotelTouched(ops).first <==> HotelMentions(ops, x)
    ensures x in HotelTouched(ops).second <==> HotelMentionsLock(ops, x)
  {
    GatherExactly(ops, HotelUsers, x);
    GatherExactly(ops, HotelLocks, x);
  }

  /** MAIN RESULT (hotel and train). */
  lemma HotelSnapshotShows(h: Host, contract: string, start: Hotel.State, ops: seq<Hotel.Op>, e: Entry)
    requires start.price > 0
    ensures var st := HotelRun(start, ops);
            var t := HotelTouched(ops);
            var s := Oracle.Take(h, contract, HotelParts(st), t);
            s.Some? ==>
              && Parse(s.value).Some? && Parse(s.value).value.0 == contract
              && |Shown(s.value)| == 6 + 2 * |set u | u in t.first| + 2 * |set id | id in t.second|
              && (e in Shown(s.value) <==> HotelEntry(ops, st, e))
  {
    var st := HotelRun(start, ops);
    var t := HotelTouched(ops);
    PartsShown(h, contract, HotelParts(st), t, e);
    EntriesCount(h, HotelParts(st), t, 2, 2);
    NamesOnce(t.first, h.units);
    NamesOnce(t.second, h.units);
    HotelListed(ops, st, e);
  }

  lemma HotelPartsAre(st: Hotel.State, x: string, e: Entry)
    requires st.price > 0
    ensures e in HotelParts(st).fixed <==> HotelFixedEntry(st, e)
    ensures e in HotelParts(st).first(x) <==> AccountEntry(st, x, e)
    ensures e in HotelParts(st).second(x) <==> LockedEntry(st, x, e)
  {
    assert HotelParts(st).first(x) == AccountPart(st, x) && HotelParts(st).second(x) == LockPart(st, x);
  }

  lemma HotelListed(ops: seq<Hotel.Op>, st: Hotel.State, e: Entry)
    requires st.price > 0
    ensures Listed(HotelParts(st), HotelTouched(ops), e) <==> HotelEntry(ops, st, e)
  {
    var p, t := HotelParts(st), HotelTouched(ops);
    HotelPartsAre(st, "", e);
    forall x ensures (x in t.first <==> HotelMentions(ops, x)) && (x in t.second <==> HotelMentionsLock(ops, x)) {
      HotelTouchedExactly(ops, x);
    }
    forall x ensures (e in p.first(x) <==> AccountEntry(st, x, e)) && (e in p.second(x) <==> LockedEntry(st, x, e)) {
      HotelPartsAre(st, x, e);
    }
  }

  // ---------------------------------------------------------------- auction

  ghost predicate AuctionMentions(ops: seq<Auction.Op>, id: string) {
    exists i :: 0 <= i < |ops| && !ops[i].Withdraw? && !ops[i].PendingReturn? && ops[i].id == id
  }

  ghost predicate AuctionMentionsUser(ops: seq<Auction.Op>, u: string) {
    exists i :: 0 <= i < |ops| && AuctionUser(ops[i], u)
  }

  predicate AuctionUser(op: Auction.Op, u: string) {
    || (op.CreateAuction? && op.seller == u) || (op.Bid? && op.bidder == u)
    || ((op.Withdraw? || op.PendingReturn?) && op.user == u)
  }

  ghost predicate RecordEntry(a: Auction.Auction, id: string, e: Entry) {
    || e == Entry("auction." + id + ".seller", Text(a.seller)) || e == Entry("auction." + id + ".minPrice", Uint(a.minPrice))
    || e == Entry("auction." + id + ".highestBidder", Text(a.highestBidder))
    || e == Entry("auction." + id + ".highestBid", Uint(a.highestBid))
    || e == Entry("auction." + id + ".open", Flag(a.open)) || e == Entry("auction." + id + ".exists", Flag(a.exists_))
  }

  ghost predicate AuctionEntryShown(ops: seq<Auction.Op>, st: Auction.State, e: Entry) {
    || (exists id :: AuctionMentions(ops, id)
                     && RecordEntry(if id in st.auctions then st.auctions[id] else Auction.Auction("", 0, "", 0, false, false), id, e))
    || (exists u :: AuctionMentionsUser(ops, u)
                    && e == Entry("pending." + u, Uint(if u in st.pendingReturns then st.pendingReturns[u] else 0)))
  }

  lemma AuctionTouchedExactly(ops: seq<Auction.Op>, x: string)
    ensures x in AuctionTouched(ops).first <==> AuctionMentions(ops, x)
    ensures x in AuctionTouched(ops).second <==> AuctionMentionsUser(ops, x)
  {
    GatherExactly(ops, AuctionIds, x);
    GatherExactly(ops, AuctionUsers, x);
    forall op: Auction.Op ensures x in AuctionUsers(op) <==> AuctionUser(op, x) {
    }
  }

  /** MAIN RESULT (auction). */
  lemma AuctionSnapshotShows(h: Host, ops: seq<Auction.Op>, e: Entry)
    ensures var st := AuctionRun(Auction.EMPTY, ops);
            var t := AuctionTouched(ops);
            var s := Oracle.Take(h, "AuctionLogic", AuctionParts(st), t);
            s.Some? ==>
              && Parse(s.value).Some? && Parse(s.value).value.0 == "AuctionLogic"
              && |Shown(s.value)| == 6 * |set id | id in t.first| + |set u | u in t.second|
              && (e in Shown(s.value) <==> AuctionEntryShown(ops, st, e))
  {
    var st := AuctionRun(Auction.EMPTY, ops);
    var t := AuctionTouched(ops);
    PartsShown(h, "AuctionLogic", AuctionParts(st), t, e);
    AuctionCount(h, st, t);
    AuctionListed(ops, st, e);
  }

  lemma AuctionCount(h: Host, st: Auction.State, t: Touched)
    ensures |Entries(h, AuctionParts(st), t)| == 6 * |set id | id in t.first| + |set u | u in t.second|
  {
    forall x ensures |AuctionParts(st).first(x)| == 6 && |AuctionParts(st).second(x)| == 1 {
      assert AuctionParts(st).first(x) == RecordPart(Auction.Lookup(st, x), x) && AuctionParts(st).second(x) == ReturnPart(st, x);
    }
    EntriesCount(h, AuctionParts(st), t, 6, 1);
    NamesOnce(t.first, h.units);
    NamesOnce(t.second, h.units);
  }

  lemma AuctionPartsAre(st: Auction.State, x: string, e: Entry)
    ensures e in AuctionParts(st).first(x)
            <==> RecordEntry(if x in st.auctions then st.auctions[x] else Auction.Auction("", 0, "", 0, false, false), x, e)
    ensures e in AuctionParts(st).second(x)
            <==> e == Entry("pending." + x, Uint(if x in st.pendingReturns then st.pendingReturns[x] else 0))
  {
    assert AuctionParts(st).first(x) == RecordPart(Auction.Lookup(st, x), x) && AuctionParts(st).second(x) == ReturnPart(st, x);
  }

  lemma AuctionListed(ops: seq<Auction.Op>, st: Auction.State, e: Entry)
    ensures Listed(AuctionParts(st), AuctionTouched(ops), e) <==> AuctionEntryShown(ops, st, e)
  {
    var p, t := AuctionParts(st), AuctionTouched(ops);
    forall x ensures (x in t.first <==> AuctionMentions(ops, x)) && (x in t.second <==> AuctionMentionsUser(ops, x)) {
      AuctionTouchedExactly(ops, x);
    }
    forall x ensures (e in p.first(x)
                      <==> RecordEntry(if x in st.auctions then st.auctions[x] else Auction.Auction("", 0, "", 0, false, false), x, e))
                     && (e in p.second(x) <==> e == Entry("pending." + x, Uint(if x in st.pendingReturns then st.pendingReturns[x] else 0))) {
      AuctionPartsAre(st, x, e);
    }
  }
}
