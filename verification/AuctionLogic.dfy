/** The auction chaincode on Fabric, with uint64 amounts in ledger cells, and its refinement of the
    unbounded model. */
module AuctionLogic {
  import opened Prelude
  import opened MapSum
  import opened FabricLedger
  import Model = AuctionModel

  datatype Tx<+T> = Committed(value: T, ledger: Ledger) | Aborted(error: Model.Error)

  const NO_AUCTION := AuctionEntry("", 0, "", 0, false, false)

  // ---------------------------------------------------------------- specification

  /** An absent auction reads as the zero record. */
  function AuctionAt(l: Ledger, id: string): (a: Option<Cell>)
    ensures a.Some? ==> a.value.AuctionEntry?
  {
    if AuctionKey(id) !in l then Some(NO_AUCTION)
    else if l[AuctionKey(id)].AuctionEntry? then Some(l[AuctionKey(id)])
    else None
  }

  function Owe(seen: Ledger, draft: Ledger, user: string, amount: u64): Ledger {
    if amount > 0 then draft[ReturnKey(user) := Num(Add64(NumOrZero(seen, ReturnKey(user)), amount))] else draft
  }

  function Create(seen: Ledger, draft: Ledger, id: string, seller: string, minPrice: u64): Tx<()> {
    match AuctionAt(seen, id)
    case None => Aborted(Model.BadCell)
    case Some(a) =>
      if a.exists_ then Aborted(Model.AuctionExists)
      else if minPrice == 0 then Aborted(Model.ZeroMinPrice)
      else Committed((), draft[AuctionKey(id) := AuctionEntry(seller, minPrice, "", 0, true, true)])
  }

  function Bid(seen: Ledger, draft: Ledger, id: string, bidder: string, amount: u64): Tx<()> {
    match AuctionAt(seen, id)
    case None => Aborted(Model.BadCell)
    case Some(a) =>
      if !a.exists_ then Aborted(Model.MissingAuction)
      else if !a.open then Aborted(Model.Closed)
      else if amount < a.minPrice || amount <= a.highestBid then Aborted(Model.BidTooLow)
      else Committed((), Owe(seen, draft, a.highestBidder, a.highestBid)
                            [AuctionKey(id) := a.(highestBidder := bidder, highestBid := amount)])
  }

  function Close(seen: Ledger, draft: Ledger, id: string): Tx<()> {
    match AuctionAt(seen, id)
    case None => Aborted(Model.BadCell)
    case Some(a) =>
      if !a.exists_ then Aborted(Model.MissingAuction)
      else if !a.open then Aborted(Model.Closed)
      else Committed((), Owe(seen, draft, a.seller, a.highestBid)[AuctionKey(id) := a.(open := false)])
  }

  function Withdraw(seen: Ledger, draft: Ledger, user: string): Tx<u64> {
    match NumAt(seen, ReturnKey(user))
    case None => Aborted(Model.BadCell)
    case Some(amount) => Committed(amount, draft[ReturnKey(user) := Num(0)])
  }

  // ---------------------------------------------------------------- the chaincode

  ghost predicate Meets<T>(r: Result<T, Model.Error>, draft: Ledger, spec: Tx<T>) {
    match spec
    case Aborted(e) => r == Err(e)
    case Committed(v, l) => r == Ok(v) && draft == l
  }

  method GetAuctionState(ctx: Ctx, id: string) returns (a: Option<Cell>)
    ensures a == AuctionAt(ctx.Seen(), id)
  {
    var c := ctx.GetState(AuctionKey(id));
    if c == None { return Some(NO_AUCTION); }
    a := if c.value.AuctionEntry? then c else None;
  }

  method AddPending(ctx: Ctx, user: string, amount: u64)
    requires amount > 0
    modifies ctx
    ensures ctx.draft == Owe(old(ctx.Seen()), old(ctx.draft), user, amount)
  {
    ctx.AddNum(ReturnKey(user), amount);
  }

  method CreateAuction(ctx: Ctx, id: string, seller: string, minPrice: u64) returns (r: Result<(), Model.Error>)
    modifies ctx
    ensures Meets(r, ctx.draft, Create(old(ctx.Seen()), old(ctx.draft), id, seller, minPrice))
  {
    var a := GetAuctionState(ctx, id);
    if a == None { return Err(Model.BadCell); }
    if a.value.exists_ { return Err(Model.AuctionExists); }
    if minPrice == 0 { return Err(Model.ZeroMinPrice); }
    ctx.PutState(AuctionKey(id), AuctionEntry(seller, minPrice, "", 0, true, true));
    return Ok(());
  }

  method PlaceBid(ctx: Ctx, id: string, bidder: string, amount: u64) returns (r: Result<(), Model.Error>)
    modifies ctx
    ensures Meets(r, ctx.draft, Bid(old(ctx.Seen()), old(ctx.draft), id, bidder, amount))
  {
    var a := GetAuctionState(ctx, id);
    if a == None { return Err(Model.BadCell); }
    if !a.value.exists_ { return Err(Model.MissingAuction); }
    if !a.value.open { return Err(Model.Closed); }
    if amount < a.value.minPrice || amount <= a.value.highestBid { return Err(Model.BidTooLow); }
    if a.value.highestBid > 0 {
      AddPending(ctx, a.value.highestBidder, a.value.highestBid);
    }
    ctx.PutState(AuctionKey(id), a.value.(highestBidder := bidder, highestBid := amount));
    return Ok(());
  }

  method CloseAuction(ctx: Ctx, id: string) returns (r: Result<(), Model.Error>)
    modifies ctx
    ensures Meets(r, ctx.draft, Close(old(ctx.Seen()), old(ctx.draft), id))
  {
    var a := GetAuctionState(ctx, id);
    if a == None { return Err(Model.BadCell); }
    if !a.value.exists_ { return Err(Model.MissingAuction); }
    if !a.value.open { return Err(Model.Closed); }
    if a.value.highestBid > 0 {
      AddPending(ctx, a.value.seller, a.value.highestBid);
    }
    ctx.PutState(AuctionKey(id), a.value.(open := false));
    return Ok(());
  }

  method WithdrawPending(ctx: Ctx, user: string) returns (r: Result<u64, Model.Error>)
    modifies ctx
    ensures Meets(r, ctx.draft, Withdraw(old(ctx.Seen()), old(ctx.draft), user))
  {
    var amount := ctx.GetNum(ReturnKey(user));
    if amount == None { return Err(Model.BadCell); }
    ctx.PutState(ReturnKey(user), Num(0));
    return Ok(amount.value);
  }

  // ---------------------------------------------------------------- refinement

  predicate Admissible(op: Model.Op) {
    && (op.CreateAuction? ==> op.minPrice <= MAX64)
    && (op.Bid? ==> op.amount <= MAX64)
  }

  function ViewOf(a: Cell): Model.Auction
    requires a.AuctionEntry?
  {
    Model.Auction(a.seller, a.minPrice, a.highestBidder, a.highestBid, a.open, a.exists_)
  }

  /** The chaincode's answer and next ledger. */
  function GoStep(l: Ledger, op: Model.Op): (Result<seq<Model.Value>, Model.Error>, Ledger)
    requires Admissible(op)
  {
    match op
    case CreateAuction(id, seller, minPrice) => Plain(l, Create(l, l, id, seller, minPrice))
    case Bid(id, bidder, amount) => Plain(l, Bid(l, l, id, bidder, amount))
    case Close(id) => Plain(l, Close(l, l, id))
    case Withdraw(user) =>
      (match Withdraw(l, l, user)
       case Aborted(e) => (Err(e), l)
       case Committed(amount, l') => (Ok([Model.Amount(amount)]), l'))
    case GetAuction(id) =>
      (match AuctionAt(l, id)
       case None => (Err(Model.BadCell), l)
       case Some(a) => (Ok([Model.View(ViewOf(a))]), l))
    case PendingReturn(user) =>
      (match NumAt(l, ReturnKey(user))
       case None => (Err(Model.BadCell), l)
       case Some(amount) => (Ok([Model.Amount(amount)]), l))
  }

  function Plain(l: Ledger, tx: Tx<()>): (Result<seq<Model.Value>, Model.Error>, Ledger) {
    match tx
    case Aborted(e) => (Err(e), l)
    case Committed(_, l') => (Ok([]), l')
  }

  ghost predicate SameAuction(l: Ledger, st: Model.State, id: string) {
    AuctionAt(l, id).Some? && ViewOf(AuctionAt(l, id).value) == Model.Lookup(st, id)
  }

  ghost predicate SameReturn(l: Ledger, st: Model.State, user: string) {
    NumAt(l, ReturnKey(user)).Some? && NumAt(l, ReturnKey(user)).value == Model.Pending(st, user)
  }

  ghost predicate Represents(l: Ledger, st: Model.State) {
    && (forall id :: SameAuction(l, st, id))
    && (forall user :: SameReturn(l, st, user))
  }

  lemma PutRepresents(l: Ledger, st: Model.State, id: string, a: Cell)
    requires Represents(l, st) && a.AuctionEntry?
    ensures Represents(l[AuctionKey(id) := a], Model.Put(st, id, ViewOf(a)))
  {
    var l', st' := l[AuctionKey(id) := a], Model.Put(st, id, ViewOf(a));
    forall i ensures SameAuction(l', st', i) {
      KeysInjective(i, id);
      assert SameAuction(l, st, i);
    }
    forall u ensures SameReturn(l', st', u) {
      KeysDistinct(id, u);
      assert SameReturn(l, st, u);
    }
  }

  /** The ledger owes what the model owes exactly when the sum still fits in 64 bits. */
  lemma OweRepresentsExactly(l: Ledger, st: Model.State, user: string, amount: u64)
    requires Represents(l, st)
    ensures Represents(Owe(l, l, user, amount), Model.Owe(st, user, amount)) <==> Model.Pending(st, user) + amount < TWO64
    ensures !SameReturn(Owe(l, l, user, amount), Model.Owe(st, user, amount), user) <==> Model.Pending(st, user) + amount >= TWO64
  {
    var l', st' := Owe(l, l, user, amount), Model.Owe(st, user, amount);
    assert SameReturn(l, st, user);
    forall i ensures SameAuction(l', st', i) {
      KeysDistinct(i, user);
      assert SameAuction(l, st, i);
    }
    forall u ensures SameReturn(l', st', u) <==> u != user || Model.Pending(st, user) + amount < TWO64 {
      KeysInjective(u, user);
      assert SameReturn(l, st, u);
    }
    assert SameReturn(l', st', user) <==> Model.Pending(st, user) + amount < TWO64;
  }

  /** No single return or open bid exceeds the total of its kind. */
  lemma ReturnsBounded(st: Model.State, user: string, id: string)
    ensures Model.Pending(st, user) <= Model.AllOwed(st)
    ensures Model.OpenBid(id, Model.Lookup(st, id)) <= Model.OpenBids(st)
  {
    Bounded<nat>(st.pendingReturns, Held, user);
    Bounded<Model.Auction>(st.auctions, Model.OpenBid, id);
  }

  /** Whom an accepted bid or close pays back. */
  function PaidBack(st: Model.State, op: Model.Op): Option<(string, nat)> {
    if Model.Step(st, op).result.Err? then None
    else match op
      case Bid(id, _, _) => Some((Model.Lookup(st, id).highestBidder, Model.Lookup(st, id).highestBid))
      case Close(id) => Some((Model.Lookup(st, id).seller, Model.Lookup(st, id).highestBid))
      case _ => None
  }

  /** What is then owed to that user stays within 64 bits. */
  predicate Fits(st: Model.State, op: Model.Op) {
    match PaidBack(st, op)
    case None => true
    case Some((user, amount)) => Model.Pending(st, user) + amount < TWO64
  }

  /** From corresponding states one step gives the same answer, error for error, and leads to
      corresponding states exactly when what it pays back fits. */
  lemma StepAgreesExactly(l: Ledger, st: Model.State, op: Model.Op)
    requires Represents(l, st) && Admissible(op)
    ensures GoStep(l, op).0 == Model.Step(st, op).result
    ensures Represents(GoStep(l, op).1, Model.Step(st, op).state) <==> Fits(st, op)
  {
    match op
    case CreateAuction(id, seller, minPrice) =>
      assert SameAuction(l, st, id);
      PutRepresents(l, st, id, AuctionEntry(seller, minPrice as int, "", 0, true, true));
    case Bid(id, bidder, amount) =>
      assert SameAuction(l, st, id);
      var a := AuctionAt(l, id).value;
      if Model.Step(st, op).result.Ok? {
        PayAndPut(l, st, id, a.highestBidder, a.highestBid, a.(highestBidder := bidder, highestBid := amount as int));
      }
    case Close(id) =>
      assert SameAuction(l, st, id);
      var a := AuctionAt(l, id).value;
      if Model.Step(st, op).result.Ok? {
        PayAndPut(l, st, id, a.seller, a.highestBid, a.(open := false));
      }
    case Withdraw(user) =>
      assert SameReturn(l, st, user);
      WithdrawRepresents(l, st, user);
    case GetAuction(id) => assert SameAuction(l, st, id);
    case PendingReturn(user) => assert SameReturn(l, st, user);
  }

  lemma PayAndPut(l: Ledger, st: Model.State, id: string, user: string, amount: u64, a: Cell)
    requires Represents(l, st) && a.AuctionEntry?
    ensures Represents(Owe(l, l, user, amount)[AuctionKey(id) := a], Model.Put(Model.Owe(st, user, amount), id, ViewOf(a)))
            <==> Model.Pending(st, user) + amount < TWO64
  {
    var l1, st1 := Owe(l, l, user, amount), Model.Owe(st, user, amount);
    OweRepresentsExactly(l, st, user, amount);
    if Represents(l1, st1) {
      PutRepresents(l1, st1, id, a);
    } else {
      KeysDistinct(id, user);
      assert !SameReturn(l1[AuctionKey(id) := a], Model.Put(st1, id, ViewOf(a)), user);
    }
  }

  lemma WithdrawRepresents(l: Ledger, st: Model.State, user: string)
    requires Represents(l, st)
    ensures Represents(l[ReturnKey(user) := Num(0)], st.(pendingReturns := st.pendingReturns[user := 0]))
  {
    var l', st' := l[ReturnKey(user) := Num(0)], st.(pendingReturns := st.pendingReturns[user := 0]);
    forall i ensures SameAuction(l', st', i) {
      KeysDistinct(i, user);
      assert SameAuction(l, st, i);
    }
    forall u ensures SameReturn(l', st', u) {
      KeysInjective(u, user);
      assert SameReturn(l, st, u);
    }
  }

  ghost predicate AllAdmissible(ops: seq<Model.Op>) {
    forall i | 0 <= i < |ops| :: Admissible(ops[i])
  }

  ghost function GoRun(ops: seq<Model.Op>): Ledger
    requires AllAdmissible(ops)
  {
    if ops == [] then map[]
    else
      assert AllAdmissible(ops[..|ops| - 1]);
      GoStep(GoRun(ops[..|ops| - 1]), ops[|ops| - 1]).1
  }

  /** Nothing paid back along the run passes 64 bits. */
  ghost predicate NeverWraps(ops: seq<Model.Op>) {
    ops != [] ==> NeverWraps(ops[..|ops| - 1]) && Fits(Model.Run(ops[..|ops| - 1]), ops[|ops| - 1])
  }

  /** Chaincode and model correspond after every operation of the run. */
  ghost predicate AlwaysRepresents(ops: seq<Model.Op>)
    requires AllAdmissible(ops)
  {
    && Represents(GoRun(ops), Model.Run(ops))
    && (ops != [] ==>
          assert AllAdmissible(ops[..|ops| - 1]);
          AlwaysRepresents(ops[..|ops| - 1]))
  }

  /** MAIN RESULT.  The chaincode keeps the ledger of the unbounded model along a run if and only if
      nothing paid back along it passes 64 bits. */
  lemma {:induction false} RunsCorrespondExactly(ops: seq<Model.Op>)
    requires AllAdmissible(ops)
    ensures AlwaysRepresents(ops) <==> NeverWraps(ops)
  {
    if ops == [] {
      assert Model.Run(ops) == Model.EMPTY;
    } else {
      var before, last := ops[..|ops| - 1], ops[|ops| - 1];
      assert AllAdmissible(before);
      RunsCorrespondExactly(before);
      if AlwaysRepresents(before) {
        StepAgreesExactly(GoRun(before), Model.Run(before), last);
      }
    }
  }

  /** Accepted bids below 2^64 in total are enough for that. */
  lemma {:induction false} SmallBidsNeverWrap(ops: seq<Model.Op>)
    requires Model.Accepted(ops) < TWO64
    ensures NeverWraps(ops)
  {
    if ops != [] {
      var before, last := ops[..|ops| - 1], ops[|ops| - 1];
      SmallBidsNeverWrap(before);
      Model.BidsAreConserved(before);
      StepFits(Model.Run(before), last);
    }
  }

  lemma StepFits(st: Model.State, op: Model.Op)
    requires Model.OpenBids(st) + Model.AllOwed(st) < TWO64
    ensures Fits(st, op)
  {
    if PaidBack(st, op).Some? {
      ReturnsBounded(st, PaidBack(st, op).value.0, op.id);
    }
  }

  /** MAIN RESULT.  If the accepted bids of a run total less than 2^64, no amount of the chaincode ever
      wraps around: at every step it answers exactly as the unbounded model, error for error. */
  lemma RunsAgree(ops: seq<Model.Op>, op: Model.Op)
    requires AllAdmissible(ops) && Admissible(op) && Model.Accepted(ops) < TWO64
    ensures GoStep(GoRun(ops), op).0 == Model.Step(Model.Run(ops), op).result
    ensures Represents(GoStep(GoRun(ops), op).1, Model.Step(Model.Run(ops), op).state)
  {
    SmallBidsNeverWrap(ops);
    RunsCorrespondExactly(ops);
    Model.BidsAreConserved(ops);
    StepAgreesExactly(GoRun(ops), Model.Run(ops), op);
    StepFits(Model.Run(ops), op);
  }

  // ---------------------------------------------------------------- a run that wraps

  /** A bidder who outbids themselves twice, from half the 64-bit range upwards. */
  function Outbidding(): seq<Model.Op> {
    [Model.CreateAuction("a", "s", 1)] + [Model.Bid("a", "u", 0x8000_0000_0000_0000)]
    + [Model.Bid("a", "u", 0x8000_0000_0000_0001)] + [Model.Bid("a", "u", 0x8000_0000_0000_0002)]
  }

  lemma RunSnoc(ops: seq<Model.Op>, op: Model.Op)
    ensures Model.Run(ops + [op]) == Model.Step(Model.Run(ops), op).state
    ensures AllAdmissible(ops) && Admissible(op) ==> AllAdmissible(ops + [op]) && GoRun(ops + [op]) == GoStep(GoRun(ops), op).1
  {
    assert (ops + [op])[..|ops + [op]| - 1] == ops;
  }

  /** The highest bid of auction "a" is one of `amount` by "u", and `go` and `model` is owed to "u". */
  ghost predicate Standing(l: Ledger, st: Model.State, amount: u64, go: u64, model: nat) {
    && AuctionAt(l, "a") == Some(AuctionEntry("s", 1, if amount == 0 then "" else "u", amount, true, true))
    && Model.Lookup(st, "a") == ViewOf(AuctionAt(l, "a").value)
    && NumAt(l, ReturnKey("u")) == Some(go) && Model.Pending(st, "u") == model
  }

  lemma Outbids(l: Ledger, st: Model.State, amount: u64, next: u64, go: u64, model: nat)
    requires Standing(l, st, amount, go, model) && amount < next
    ensures Standing(GoStep(l, Model.Bid("a", "u", next)).1, Model.Step(st, Model.Bid("a", "u", next)).state,
                     next, Add64(go, amount), model + amount)
  {
    KeysDistinct("a", "u");
  }

  /** MAIN RESULT.  The bound is needed: after real bids the chaincode owes one unit where the model owes
      2^64 and one more. */
  lemma LargeBidsWrap()
    ensures AllAdmissible(Outbidding())
    ensures GoStep(GoRun(Outbidding()), Model.PendingReturn("u")).0 == Ok([Model.Amount(1)])
    ensures Model.Step(Model.Run(Outbidding()), Model.PendingReturn("u")).result == Ok([Model.Amount(TWO64 + 1)])
  {
    var n: u64 := 0x8000_0000_0000_0000;
    var one: seq<Model.Op> := [Model.CreateAuction("a", "s", 1)];
    var two := one + [Model.Bid("a", "u", n)];
    var three := two + [Model.Bid("a", "u", n + 1)];
    assert [] + one == one;
    RunSnoc([], one[0]);
    AuctionOpens();
    RunSnoc(one, Model.Bid("a", "u", n));
    Outbids(GoRun(one), Model.Run(one), 0, n, 0, 0);
    RunSnoc(two, Model.Bid("a", "u", n + 1));
    Outbids(GoRun(two), Model.Run(two), n, n + 1, 0, 0);
    RunSnoc(three, Model.Bid("a", "u", n + 2));
    Outbids(GoRun(three), Model.Run(three), n + 1, n + 2, n, n);
  }

  lemma AuctionOpens()
    ensures var op := Model.CreateAuction("a", "s", 1);
            Standing(GoStep(map[], op).1, Model.Step(Model.EMPTY, op).state, 0, 0, 0)
  {
    KeysDistinct("a", "u");
  }
}
