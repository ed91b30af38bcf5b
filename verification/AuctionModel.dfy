/** The reference model of the auction, over unbounded integers, and the conservation of bids. */
module AuctionModel {
  import opened Prelude
  import opened MapSum

  datatype Auction = Auction(seller: string, minPrice: nat, highestBidder: string, highestBid: nat, open: bool, exists_: bool)

  const NO_AUCTION := Auction("", 0, "", 0, false, false)

  datatype State = State(auctions: map<string, Auction>, pendingReturns: map<string, nat>)

  const EMPTY := State(map[], map[])

  datatype Op =
    | CreateAuction(id: string, seller: string, minPrice: nat)
    | Bid(id: string, bidder: string, amount: nat)
    | Close(id: string)
    | Withdraw(user: string)
    | GetAuction(id: string)
    | PendingReturn(user: string)

  datatype Value = Amount(n: nat) | View(a: Auction)

  datatype Error = AuctionExists | ZeroMinPrice | MissingAuction | Closed | BidTooLow | BadCell

  datatype Outcome = Outcome(state: State, result: Result<seq<Value>, Error>)

  function Pending(st: State, user: string): nat {
    if user in st.pendingReturns then st.pendingReturns[user] else 0
  }

  function Lookup(st: State, id: string): Auction {
    if id in st.auctions then st.auctions[id] else NO_AUCTION
  }

  /** `amount` more is owed to `user`, unless it is nothing. */
  function Owe(st: State, user: string, amount: nat): State {
    if amount > 0 then st.(pendingReturns := st.pendingReturns[user := Pending(st, user) + amount]) else st
  }

  function Put(st: State, id: string, a: Auction): State {
    st.(auctions := st.auctions[id := a])
  }

  function Step(st: State, op: Op): Outcome {
    match op
    case CreateAuction(id, seller, minPrice) =>
      if Lookup(st, id).exists_ then Outcome(st, Err(AuctionExists))
      else if minPrice == 0 then Outcome(st, Err(ZeroMinPrice))
      else Outcome(Put(st, id, Auction(seller, minPrice, "", 0, true, true)), Ok([]))
    case Bid(id, bidder, amount) =>
      var a := Lookup(st, id);
      if !a.exists_ then Outcome(st, Err(MissingAuction))
      else if !a.open then Outcome(st, Err(Closed))
      else if amount < a.minPrice || amount <= a.highestBid then Outcome(st, Err(BidTooLow))
      else Outcome(Put(Owe(st, a.highestBidder, a.highestBid), id, a.(highestBidder := bidder, highestBid := amount)), Ok([]))
    case Close(id) =>
      var a := Lookup(st, id);
      if !a.exists_ then Outcome(st, Err(MissingAuction))
      else if !a.open then Outcome(st, Err(Closed))
      else Outcome(Put(Owe(st, a.seller, a.highestBid), id, a.(open := false)), Ok([]))
    case Withdraw(user) =>
      Outcome(st.(pendingReturns := st.pendingReturns[user := 0]), Ok([Amount(Pending(st, user))]))
    case GetAuction(id) => Outcome(st, Ok([View(Lookup(st, id))]))
    case PendingReturn(user) => Outcome(st, Ok([Amount(Pending(st, user))]))
  }

  class AuctionLogicModel {
    var auctions: map<string, Auction>
    var pendingReturns: map<string, nat>

    ghost function Contents(): State
      reads this
    {
      State(auctions, pendingReturns)
    }

    constructor ()
      ensures Contents() == EMPTY
    {
      auctions, pendingReturns := map[], map[];
    }

    method AddPending(user: string, amount: nat)
      modifies this`pendingReturns
      ensures pendingReturns == old(pendingReturns)[user := Pending(old(Contents()), user) + amount]
    {
      var held := if user in pendingReturns then pendingReturns[user] else 0;
      pendingReturns := pendingReturns[user := held + amount];
    }

    method Execute(op: Op) returns (r: Result<seq<Value>, Error>)
      modifies this
      ensures Outcome(Contents(), r) == Step(old(Contents()), op)
    {
      match op {
        case CreateAuction(id, seller, minPrice) =>
          if id in auctions && auctions[id].exists_ { return Err(AuctionExists); }
          if minPrice == 0 { return Err(ZeroMinPrice); }
          auctions := auctions[id := Auction(seller, minPrice, "", 0, true, true)];
          return Ok([]);
        case Bid(id, bidder, amount) =>
          if id !in auctions || !auctions[id].exists_ { return Err(MissingAuction); }
          var a := auctions[id];
          if !a.open { return Err(Closed); }
          if amount < a.minPrice || amount <= a.highestBid { return Err(BidTooLow); }
          if a.highestBid > 0 {
            AddPending(a.highestBidder, a.highestBid);
          }
          auctions := auctions[id := a.(highestBidder := bidder, highestBid := amount)];
          return Ok([]);
        case Close(id) =>
          if id !in auctions || !auctions[id].exists_ { return Err(MissingAuction); }
          var a := auctions[id];
          if !a.open { return Err(Closed); }
          auctions := auctions[id := a.(open := false)];
          if a.highestBid > 0 {
            AddPending(a.seller, a.highestBid);
          }
          return Ok([]);
        case Withdraw(user) =>
          var amount := if user in pendingReturns then pendingReturns[user] else 0;
          pendingReturns := pendingReturns[user := 0];
          return Ok([Amount(amount)]);
        case GetAuction(id) => return Ok([View(if id in auctions then auctions[id] else NO_AUCTION)]);
        case PendingReturn(user) =>
          return Ok([Amount(if user in pendingReturns then pendingReturns[user] else 0)]);
      }
    }
  }

  // ---------------------------------------------------------------- conservation

  function OpenBid(id: string, a: Auction): nat {
    if a.open then a.highestBid else 0
  }

  ghost function OpenBids(st: State): nat { Total<Auction>(st.auctions, OpenBid) }

  ghost function AllOwed(st: State): nat { Total<nat>(st.pendingReturns, Held) }

  /** What an operation brings into the auction house and what it pays out. */
  function BroughtIn(st: State, op: Op): nat {
    if op.Bid? && Step(st, op).result.Ok? then op.amount else 0
  }

  function PaidOut(st: State, op: Op): nat {
    if op.Withdraw? then Pending(st, op.user) else 0
  }

  /** Missing auctions hold nothing: only existing ones are open. */
  ghost predicate Valid(st: State) {
    forall id | id in st.auctions :: st.auctions[id].exists_
  }

  lemma OweAdds(st: State, user: string, amount: nat)
    ensures AllOwed(Owe(st, user, amount)) == AllOwed(st) + amount
    ensures OpenBids(Owe(st, user, amount)) == OpenBids(st)
  {
    Written<nat>(st.pendingReturns, Held, user, Pending(st, user) + amount);
  }

  lemma PutReplaces(st: State, id: string, a: Auction)
    ensures OpenBids(Put(st, id, a)) + OpenBid(id, Lookup(st, id)) == OpenBids(st) + OpenBid(id, a)
    ensures AllOwed(Put(st, id, a)) == AllOwed(st)
  {
    Written<Auction>(st.auctions, OpenBid, id, a);
  }

  /** One step: what is held afterwards is what was held plus what came in minus what went out. */
  lemma StepConserves(st: State, op: Op)
    requires Valid(st)
    ensures Valid(Step(st, op).state)
    ensures var st' := Step(st, op).state;
            OpenBids(st') + AllOwed(st') + PaidOut(st, op) == OpenBids(st) + AllOwed(st) + BroughtIn(st, op)
  {
    match op
    case CreateAuction(id, seller, minPrice) => PutReplaces(st, id, Auction(seller, minPrice, "", 0, true, true));
    case Bid(id, bidder, amount) =>
      var a := Lookup(st, id);
      OweAdds(st, a.highestBidder, a.highestBid);
      PutReplaces(Owe(st, a.highestBidder, a.highestBid), id, a.(highestBidder := bidder, highestBid := amount));
    case Close(id) =>
      var a := Lookup(st, id);
      OweAdds(st, a.seller, a.highestBid);
      PutReplaces(Owe(st, a.seller, a.highestBid), id, a.(open := false));
    case Withdraw(user) => Written<nat>(st.pendingReturns, Held, user, 0);
    case _ =>
  }

  ghost function Run(ops: seq<Op>): State {
    if ops == [] then EMPTY else Step(Run(ops[..|ops| - 1]), ops[|ops| - 1]).state
  }

  /** A run starts with no auction and nothing owed, and executes its operations one after the other. */
  lemma RunIsStepwise(ops: seq<Op>, op: Op)
    ensures Run([]) == State(map[], map[]) && Run(ops + [op]) == Step(Run(ops), op).state
  {
    assert (ops + [op])[..|ops + [op]| - 1] == ops;
  }

  /** The accepted bids of a run, and the withdrawals. */
  ghost function Accepted(ops: seq<Op>): nat {
    if ops == [] then 0
    else Accepted(ops[..|ops| - 1]) + BroughtIn(Run(ops[..|ops| - 1]), ops[|ops| - 1])
  }

  ghost function Withdrawn(ops: seq<Op>): nat {
    if ops == [] then 0
    else Withdrawn(ops[..|ops| - 1]) + PaidOut(Run(ops[..|ops| - 1]), ops[|ops| - 1])
  }

  /** MAIN RESULT.  Over any run, the accepted bids are exactly the highest bids of the open auctions,
      the returns still owed, and what was withdrawn. */
  lemma {:induction false} BidsAreConserved(ops: seq<Op>)
    ensures Valid(Run(ops))
    ensures Accepted(ops) == OpenBids(Run(ops)) + AllOwed(Run(ops)) + Withdrawn(ops)
  {
    if ops != [] {
      BidsAreConserved(ops[..|ops| - 1]);
      StepConserves(Run(ops[..|ops| - 1]), ops[|ops| - 1]);
    }
  }

  // ---------------------------------------------------------------- each operation, exactly

  predicate Exists(st: State, id: string) { id in st.auctions && st.auctions[id].exists_ }

  /** Nothing is different but the auction `id` and what `user` is owed. */
  ghost predicate OnlyTouches(st: State, st': State, id: string, user: string) {
    && (forall i | i != id :: (i in st'.auctions <==> i in st.auctions) && (i in st.auctions ==> st'.auctions[i] == st.auctions[i]))
    && (forall u | u != user :: Pending(st', u) == Pending(st, u))
  }

  lemma CreateOpensExactly(st: State, id: string, seller: string, minPrice: nat)
    ensures var o := Step(st, CreateAuction(id, seller, minPrice));
            if Exists(st, id) then o == Outcome(st, Err(AuctionExists))
            else if minPrice == 0 then o == Outcome(st, Err(ZeroMinPrice))
            else && o.result == Ok([]) && o.state.pendingReturns == st.pendingReturns
                 && id in o.state.auctions && OnlyTouches(st, o.state, id, "")
                 && o.state.auctions[id].seller == seller && o.state.auctions[id].minPrice == minPrice
                 && o.state.auctions[id].highestBidder == "" && o.state.auctions[id].highestBid == 0
                 && o.state.auctions[id].open && o.state.auctions[id].exists_
  {
  }

  /** A bid is accepted exactly in an open auction, at or above the minimum and above the highest bid;
      it takes the place of that bid, which is owed back to its bidder. */
  lemma BidReplacesExactly(st: State, id: string, bidder: string, amount: nat)
    ensures var o := Step(st, Bid(id, bidder, amount));
            if !Exists(st, id) then o == Outcome(st, Err(MissingAuction))
            else
              var a := st.auctions[id];
              if !a.open then o == Outcome(st, Err(Closed))
              else if !(amount >= a.minPrice && amount > a.highestBid) then o == Outcome(st, Err(BidTooLow))
              else && o.result == Ok([]) && id in o.state.auctions && OnlyTouches(st, o.state, id, a.highestBidder)
                   && o.state.auctions[id] == Auction(a.seller, a.minPrice, bidder, amount, true, true)
                   && Pending(o.state, a.highestBidder) == Pending(st, a.highestBidder) + a.highestBid
                   && (a.highestBid == 0 ==> o.state.pendingReturns == st.pendingReturns)
  {
  }

  /** Closing an open auction leaves its record as it was, closed, and owes the bid to the seller. */
  lemma ClosePaysSellerExactly(st: State, id: string)
    ensures var o := Step(st, Close(id));
            if !Exists(st, id) then o == Outcome(st, Err(MissingAuction))
            else
              var a := st.auctions[id];
              if !a.open then o == Outcome(st, Err(Closed))
              else && o.result == Ok([]) && id in o.state.auctions && OnlyTouches(st, o.state, id, a.seller)
                   && o.state.auctions[id] == Auction(a.seller, a.minPrice, a.highestBidder, a.highestBid, false, true)
                   && Pending(o.state, a.seller) == Pending(st, a.seller) + a.highestBid
                   && (a.highestBid == 0 ==> o.state.pendingReturns == st.pendingReturns)
  {
  }

  /** A withdrawal pays what is owed and leaves nothing; the readers answer and change nothing. */
  lemma WithdrawPaysExactly(st: State, user: string, id: string)
    ensures var owed := if user in st.pendingReturns then st.pendingReturns[user] else 0;
            var o := Step(st, Withdraw(user));
            && o.result == Ok([Amount(owed)]) && Pending(o.state, user) == 0
            && o.state.auctions == st.auctions && forall u | u != user :: Pending(o.state, u) == Pending(st, u)
    ensures Step(st, PendingReturn(user)) == Outcome(st, Ok([Amount(if user in st.pendingReturns then st.pendingReturns[user] else 0)]))
    ensures Step(st, GetAuction(id))
            == Outcome(st, Ok([View(if id in st.auctions then st.auctions[id] else Auction("", 0, "", 0, false, false))]))
  {
  }

  // ---------------------------------------------------------------- each user's account

  /** A user's standing bids, in open auctions and in those they won. */
  function BidBy(user: string): (string, Auction) -> nat {
    (id: string, a: Auction) => if a.highestBidder == user then a.highestBid else 0
  }

  /** What a seller's closed auctions fetched. */
  function SoldBy(user: string): (string, Auction) -> nat {
    (id: string, a: Auction) => if a.seller == user && !a.open then a.highestBid else 0
  }

  ghost function Standing(st: State, user: string): nat { Total<Auction>(st.auctions, BidBy(user)) }

  ghost function Proceeds(st: State, user: string): nat { Total<Auction>(st.auctions, SoldBy(user)) }

  function BroughtBy(st: State, op: Op, user: string): nat {
    if op.Bid? && op.bidder == user then BroughtIn(st, op) else 0
  }

  function PaidTo(st: State, op: Op, user: string): nat {
    if op.Withdraw? && op.user == user then PaidOut(st, op) else 0
  }

  ghost function AcceptedFrom(ops: seq<Op>, user: string): nat {
    if ops == [] then 0
    else AcceptedFrom(ops[..|ops| - 1], user) + BroughtBy(Run(ops[..|ops| - 1]), ops[|ops| - 1], user)
  }

  ghost function WithdrawnBy(ops: seq<Op>, user: string): nat {
    if ops == [] then 0
    else WithdrawnBy(ops[..|ops| - 1], user) + PaidTo(Run(ops[..|ops| - 1]), ops[|ops| - 1], user)
  }

  lemma PutSettles(st: State, id: string, a: Auction, user: string)
    ensures Standing(Put(st, id, a), user) + BidBy(user)(id, Lookup(st, id)) == Standing(st, user) + BidBy(user)(id, a)
    ensures Proceeds(Put(st, id, a), user) + SoldBy(user)(id, Lookup(st, id)) == Proceeds(st, user) + SoldBy(user)(id, a)
  {
    Written<Auction>(st.auctions, BidBy(user), id, a);
    Written<Auction>(st.auctions, SoldBy(user), id, a);
  }

  /** What came in from the user, or for them, is there or was paid out. */
  ghost predicate Settles(st: State, op: Op, user: string) {
    var st' := Step(st, op).state;
    BroughtBy(st, op, user) + Proceeds(st', user) + Standing(st, user) + Pending(st, user)
    == PaidTo(st, op, user) + Proceeds(st, user) + Standing(st', user) + Pending(st', user)
  }

  lemma BidSettles(st: State, id: string, bidder: string, amount: nat, user: string)
    ensures Settles(st, Bid(id, bidder, amount), user)
  {
    var a := Lookup(st, id);
    PutSettles(Owe(st, a.highestBidder, a.highestBid), id, a.(highestBidder := bidder, highestBid := amount), user);
  }

  lemma CloseSettles(st: State, id: string, user: string)
    ensures Settles(st, Close(id), user)
  {
    var a := Lookup(st, id);
    PutSettles(Owe(st, a.seller, a.highestBid), id, a.(open := false), user);
  }

  lemma StepSettles(st: State, op: Op, user: string)
    requires Valid(st)
    ensures Settles(st, op, user)
  {
    match op
    case CreateAuction(id, seller, minPrice) => PutSettles(st, id, Auction(seller, minPrice, "", 0, true, true), user);
    case Bid(id, bidder, amount) => BidSettles(st, id, bidder, amount, user);
    case Close(id) => CloseSettles(st, id, user);
    case _ =>
  }

  /** MAIN RESULT.  Nobody's money goes to somebody else: over any run, what a user bid and what their
      auctions sold for is exactly their standing and winning bids, the returns they are owed and
      what they withdrew. */
  lemma {:induction false} EveryUserIsSettled(ops: seq<Op>, user: string)
    ensures AcceptedFrom(ops, user) + Proceeds(Run(ops), user)
            == Standing(Run(ops), user) + Pending(Run(ops), user) + WithdrawnBy(ops, user)
  {
    if ops != [] {
      EveryUserIsSettled(ops[..|ops| - 1], user);
      BidsAreConserved(ops[..|ops| - 1]);
      StepSettles(Run(ops[..|ops| - 1]), ops[|ops| - 1], user);
    }
  }
}
