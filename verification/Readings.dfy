/** A Fabric peer serves reads from committed state, while the chaincode is written as if it saw its
    own writes.  Which calls notice the difference, and exactly when. */
module Readings {
  import opened Prelude
  import opened FabricLedger
  import opened Participant
  import opened ParticipantSafety
  import opened ParticipantRuns
  import opened TotalLock
  import Hotel = HotelBooking
  import Bridge = XBridge
  import Auction = AuctionLogic
  import AuctionModel

  function Own(env: Env): Env { env.(ownWrites := true) }

  function CommittedOnly(env: Env): Env { env.(ownWrites := false) }

  /** The calls that release a lock and then book its rooms: the commits of ATOM and of GPACT. */
  predicate IsCommit(call: Call) {
    call.AtomUnlock? || (call.GPACTSignalling? && call.commit && !call.abort)
  }

  predicate IsLock(call: Call) {
    call.LockState? || call.ReceiveLockRequest? || call.GPACTSegment? || call.AtomLockDo?
  }

  /** MAIN RESULT.  Every call of the hotel and of the bridge except a commit and a lock of id "TOTAL"
      leaves the same ledger under both readings, whatever the ledger: nothing such a call writes
      depends on a cell it wrote earlier. */
  method BothReadings(env: Env, l: Ledger, call: Call) returns (own: Option<Ledger>, committedOnly: Option<Ledger>)
    requires !IsCommit(call) && (IsLock(call) ==> call.id != "TOTAL") && NumAt(l, KEY_LOCK_TOTAL).Some?
    ensures own == committedOnly
    ensures own == Effect(Own(env), l, call)
    ensures committedOnly == Effect(CommittedOnly(env), l, call)
  {
    if IsHotelCall(call) {
      own := InvokeHotel(Own(env), l, call);
      committedOnly := InvokeHotel(CommittedOnly(env), l, call);
    } else {
      own := InvokeBridge(Own(env), l, call);
      committedOnly := InvokeBridge(CommittedOnly(env), l, call);
    }
    SameEffect(env, l, call);
  }

  lemma SameEffect(env: Env, l: Ledger, call: Call)
    requires !IsCommit(call) && (IsLock(call) ==> call.id != "TOTAL") && NumAt(l, KEY_LOCK_TOTAL).Some?
    ensures Effect(Own(env), l, call) == Effect(CommittedOnly(env), l, call)
  {
    if IsLock(call) {
      LockCallReadings(env, l, call);
    }
  }

  /** The two outcomes of a lock under one key: both or neither goes through, and the ledgers differ
      exactly if the key is that of a lock total which is not zero. */
  ghost predicate AgreeButForTotal(l: Ledger, id: string, own: Option<Ledger>, committedOnly: Option<Ledger>) {
    && (own.Some? <==> committedOnly.Some?)
    && (own == committedOnly <==> own == None || id != "TOTAL" || NumOrZero(l, KEY_LOCK_TOTAL) == 0)
  }

  /** A lock call, plain or recorded, reads as its lock does. */
  lemma LockCallReadings(env: Env, l: Ledger, call: Call)
    requires IsLock(call) && NumAt(l, KEY_LOCK_TOTAL).Some?
    ensures AgreeButForTotal(l, call.id, Effect(Own(env), l, call), Effect(CommittedOnly(env), l, call))
  {
    if call.LockState? || call.ReceiveLockRequest? {
      PlainLockReadings(env, l, call);
    } else if call.GPACTSegment? {
      RecordedLockReadings(env, l, call.id, Bridge.GPACT_ROOMS, Bridge.GPACT_TIMEOUT, Bridge.SegmentOp(env));
    } else {
      AtomLockReadings(env, l, call);
    }
  }

  lemma PlainLockReadings(env: Env, l: Ledger, call: Call)
    requires (call.LockState? || call.ReceiveLockRequest?) && NumAt(l, KEY_LOCK_TOTAL).Some?
    ensures AgreeButForTotal(l, call.id, Effect(Own(env), l, call), Effect(CommittedOnly(env), l, call))
  {
    LockReadings(env, l, call.id, call.rooms, call.timeout);
  }

  lemma AtomLockReadings(env: Env, l: Ledger, call: Call)
    requires call.AtomLockDo? && NumAt(l, KEY_LOCK_TOTAL).Some?
    ensures AgreeButForTotal(l, call.id, Effect(Own(env), l, call), Effect(CommittedOnly(env), l, call))
  {
    var amount := Bridge.AtomAmount(call.amountA, call.amountB);
    RecordedLockReadings(env, l, call.id, amount, Bridge.ATOM_TIMEOUT,
                         PendingOp(call.amountA, call.amountB, call.kind, call.user, true));
  }

  lemma RecordedLockReadings(env: Env, l: Ledger, id: string, rooms: u64, timeout: u64, op: Cell)
    requires NumAt(l, KEY_LOCK_TOTAL).Some?
    ensures var own := LedgerOf(Bridge.LockAndRecord(Own(env), l, l, id, rooms, timeout, op));
            var committedOnly := LedgerOf(Bridge.LockAndRecord(CommittedOnly(env), l, l, id, rooms, timeout, op));
            AgreeButForTotal(l, id, own, committedOnly)
  {
    LockReadings(env, l, id, rooms, timeout);
    RecordedLedger(Own(env), l, id, rooms, timeout, op);
    RecordedLedger(CommittedOnly(env), l, id, rooms, timeout, op);
    var own := Hotel.Lock(Own(env), l, l, id, rooms, timeout);
    if own.Committed? {
      RecordKeepsDifference(own.ledger, Hotel.Lock(CommittedOnly(env), l, l, id, rooms, timeout).ledger, id, op);
    }
  }

  lemma RecordedLedger(env: Env, l: Ledger, id: string, rooms: u64, timeout: u64, op: Cell)
    ensures var tx := Hotel.Lock(env, l, l, id, rooms, timeout);
            LedgerOf(Bridge.LockAndRecord(env, l, l, id, rooms, timeout, op))
            == if Bridge.RelayerError(env, l) == None && tx.Committed? then Some(tx.ledger[PendingKey(id) := op]) else None
  {
  }

  lemma AtomLockLedger(env: Env, l: Ledger, id: string, kind: string, user: string, a: u64, b: u64)
    ensures var rooms := Bridge.AtomAmount(a, b);
            var tx := Hotel.Lock(env, l, l, id, rooms, Bridge.ATOM_TIMEOUT);
            Effect(env, l, AtomLockDo(id, kind, user, a, b))
            == if Bridge.RelayerError(env, l) == None && rooms > 0 && tx.Committed?
               then Some(tx.ledger[PendingKey(id) := PendingOp(a, b, kind, user, true)]) else None
  {
    RecordedLedger(env, l, id, Bridge.AtomAmount(a, b), Bridge.ATOM_TIMEOUT, PendingOp(a, b, kind, user, true));
  }

  lemma RecordKeepsDifference(a: Ledger, b: Ledger, id: string, op: Cell)
    requires a == b <==> NumOrZero(a, KEY_LOCK_TOTAL) == NumOrZero(b, KEY_LOCK_TOTAL)
    ensures a[PendingKey(id) := op] == b[PendingKey(id) := op] <==> a == b
  {
    KeysDistinct(id, "");
    assert NumOrZero(a[PendingKey(id) := op], KEY_LOCK_TOTAL) == NumOrZero(a, KEY_LOCK_TOTAL);
    assert NumOrZero(b[PendingKey(id) := op], KEY_LOCK_TOTAL) == NumOrZero(b, KEY_LOCK_TOTAL);
  }

  /** A lock reads the same either way exactly when its key is not the lock total, or that total was
      zero: under id "TOTAL" the entry overwrites the total it is about to raise. */
  lemma {:induction false} LockReadings(env: Env, l: Ledger, id: string, rooms: u64, timeout: u64)
    requires NumAt(l, KEY_LOCK_TOTAL).Some?
    ensures var own := Hotel.Lock(Own(env), l, l, id, rooms, timeout);
            var committedOnly := Hotel.Lock(CommittedOnly(env), l, l, id, rooms, timeout);
            && (own.Committed? <==> committedOnly.Committed?)
            && (own.Committed? ==>
                  && (own.ledger == committedOnly.ledger <==> id != "TOTAL" || NumOrZero(l, KEY_LOCK_TOTAL) == 0)
                  && (own.ledger == committedOnly.ledger
                      <==> NumOrZero(own.ledger, KEY_LOCK_TOTAL) == NumOrZero(committedOnly.ledger, KEY_LOCK_TOTAL)))
  {
    var own := Hotel.Reserve(Own(env), l, l, id, rooms, timeout);
    var committedOnly := Hotel.Reserve(CommittedOnly(env), l, l, id, rooms, timeout);
    ReserveReadings(env, l, id, rooms, timeout);
    if own.Committed? {
      Hotel.ExportNeverFails(Own(env), own.ledger);
      Hotel.ExportNeverFails(CommittedOnly(env), l);
    }
  }

  lemma ReserveReadings(env: Env, l: Ledger, id: string, rooms: u64, timeout: u64)
    ensures var own := Hotel.Reserve(Own(env), l, l, id, rooms, timeout);
            var committedOnly := Hotel.Reserve(CommittedOnly(env), l, l, id, rooms, timeout);
            && (own.Committed? <==> committedOnly.Committed?)
            && (own.Committed? ==>
                  && MetaAt(l).Some? && MetaAt(own.ledger).Some? && NumAt(own.ledger, KEY_LOCK_TOTAL).Some?
                  && (own.ledger == committedOnly.ledger <==> id != "TOTAL" || NumOrZero(l, KEY_LOCK_TOTAL) == 0)
                  && (own.ledger == committedOnly.ledger
                      <==> NumOrZero(own.ledger, KEY_LOCK_TOTAL) == NumOrZero(committedOnly.ledger, KEY_LOCK_TOTAL)))
  {
    KeysDistinct(id, "");
    var own := Hotel.Reserve(Own(env), l, l, id, rooms, timeout);
    var committedOnly := Hotel.Reserve(CommittedOnly(env), l, l, id, rooms, timeout);
    if own.Committed? && id == "TOTAL" {
      var amount := Hotel.LockAmount(l[KEY_META], rooms);
      assert own.ledger[KEY_LOCK_TOTAL] == Num(amount);
      assert committedOnly.ledger[KEY_LOCK_TOTAL] == Num(Add64(NumOrZero(l, KEY_LOCK_TOTAL), amount));
      if NumOrZero(l, KEY_LOCK_TOTAL) == 0 {
        assert own.ledger == committedOnly.ledger;
      }
    }
  }

  // ---------------------------------------------------------------- commits

  /** The rooms a commit is about to book. */
  function CommitRooms(l: Ledger, call: Call): u64
    requires IsCommit(call)
  {
    match PendingAt(l, call.id)
    case None => 0
    case Some(op) => if call.AtomUnlock? then PendingRooms(op) else op.amountA
  }

  /** A commit that reads committed state only goes through exactly when it would have gone through
      anyway and its rooms are free beside all locks, its own included; then the ledger is the same. */
  lemma CommitCallReadings(env: Env, l: Ledger, price: nat, rooms: nat, call: Call)
    requires Inv(l, price, rooms) && IsCommit(call)
    ensures Hotel.Available(l).Ok?
    ensures var own, committedOnly := Effect(Own(env), l, call), Effect(CommittedOnly(env), l, call);
            && (committedOnly.Some? <==> own.Some? && CommitRooms(l, call) <= Hotel.Available(l).value)
            && (committedOnly.Some? ==> committedOnly == own)
  {
    AvailableExactly(l, price, rooms, 0);
    if PendingAt(l, call.id).Some? {
      ReleaseAndBookReadings(env, l, price, rooms, call.id, PendingAt(l, call.id).value.user, CommitRooms(l, call));
    }
  }

  lemma ReleaseAndBookReadings(env: Env, l: Ledger, price: nat, rooms: nat, id: string, user: string, num: u64)
    requires Inv(l, price, rooms) && Hotel.Available(l).Ok?
    ensures var own := Bridge.ReleaseAndBook(Own(env), l, l, id, user, num);
            var committedOnly := Bridge.ReleaseAndBook(CommittedOnly(env), l, l, id, user, num);
            && (committedOnly.Committed? <==> own.Committed? && num <= Hotel.Available(l).value)
            && (committedOnly.Committed? ==> committedOnly == own)
  {
    if Hotel.Unlock(env, l, l, id).Committed? {
      StaleBookIsBook(l, price, rooms, id, user, num);
      ReleaseKeepsInv(l, price, rooms, id);
      StaleBookExactly(l, Hotel.Release(l, l, id).ledger, user, num);
    }
  }

  /** A booking that reads `l` counts the rooms free in `l`. */
  lemma StaleBookExactly(l: Ledger, d: Ledger, user: string, num: u64)
    requires Hotel.Available(l).Ok? && Hotel.Available(d).Ok?
    ensures Hotel.Book(l, d, user, num).Committed? <==> 0 < num <= Hotel.Available(l).value
    ensures Hotel.Book(d, d, user, num).Committed? <==> 0 < num <= Hotel.Available(d).value
  {
  }

  /** What a lock call asks for. */
  function LockRooms(call: Call): u64
    requires IsLock(call)
  {
    match call
    case LockState(_, rooms, _) => rooms
    case ReceiveLockRequest(_, rooms, _) => rooms
    case GPACTSegment(_) => Bridge.GPACT_ROOMS
    case AtomLockDo(_, _, _, a, b) => Bridge.AtomAmount(a, b)
  }

  /** The guards of a lock call: the caller's roles, no active lock of the id, and rooms. */
  predicate LockAllowed(env: Env, l: Ledger, call: Call)
    requires IsLock(call)
  {
    && Hotel.BridgeError(env, l) == None && LockAt(l, call.id) == None
    && (call.LockState? || Bridge.RelayerError(env, l) == None)
    && (call.AtomLockDo? ==> LockRooms(call) > 0)
    && Hotel.Available(l).Ok? && LockRooms(call) <= Hotel.Available(l).value
  }

  /** The guards of a commit: the caller's roles, the pending operation, the active lock, and the rooms
      once that lock is released. */
  predicate CommitAllowed(env: Env, l: Ledger, call: Call)
    requires IsCommit(call)
  {
    && Authorised(env, l) && PendingAt(l, call.id).Some? && LockAt(l, call.id).Some?
    && CommitRooms(l, call) > 0 && FreeBesideOthers(l, call.id, CommitRooms(l, call))
  }

  /** When a call notices what its reads see: an allowed commit for more rooms than are free beside all
      locks, or an allowed lock under the key of a lock total that is not zero. */
  predicate Notices(env: Env, l: Ledger, call: Call) {
    if IsCommit(call) then
      CommitAllowed(env, l, call) && Hotel.Available(l).Ok? && Hotel.Available(l).value < CommitRooms(l, call)
    else
      IsLock(call) && call.id == "TOTAL" && NumOrZero(l, KEY_LOCK_TOTAL) > 0 && LockAllowed(env, l, call)
  }

  lemma CommitGuards(env: Env, l: Ledger, price: nat, rooms: nat, call: Call)
    requires Inv(l, price, rooms) && IsCommit(call)
    ensures Effect(Own(env), l, call).Some? <==> CommitAllowed(env, l, call)
  {
    var id := call.id;
    if Authorised(env, l) && PendingAt(l, id).Some? && LockAt(l, id).Some? {
      CommitCallIs(Own(env), l, call);
      ReleasedRoomsBook(Own(env), l, price, rooms, id, PendingAt(l, id).value.user, CommitRooms(l, call));
    }
  }

  lemma CommitCallIs(env: Env, l: Ledger, call: Call)
    requires IsCommit(call) && Bridge.RelayerError(env, l) == None && PendingAt(l, call.id).Some?
    ensures Effect(env, l, call)
            == LedgerOf(Bridge.ReleaseAndBook(env, l, l, call.id, PendingAt(l, call.id).value.user, CommitRooms(l, call)))
  {
  }

  lemma LockCallGuards(env: Env, l: Ledger, call: Call)
    requires IsLock(call) && NumAt(l, KEY_LOCK_TOTAL).Some?
    ensures Effect(env, l, call).Some? <==> LockAllowed(env, l, call)
  {
    match call
    case LockState(i, rooms, timeout) => LockGuards(env, l, i, rooms, timeout);
    case ReceiveLockRequest(i, rooms, timeout) => LockGuards(env, l, i, rooms, timeout);
    case GPACTSegment(i) =>
      LockGuards(env, l, i, Bridge.GPACT_ROOMS, Bridge.GPACT_TIMEOUT);
      RecordedLedger(env, l, i, Bridge.GPACT_ROOMS, Bridge.GPACT_TIMEOUT, Bridge.SegmentOp(env));
    case AtomLockDo(i, kind, user, a, b) =>
      LockGuards(env, l, i, Bridge.AtomAmount(a, b), Bridge.ATOM_TIMEOUT);
      AtomLockLedger(env, l, i, kind, user, a, b);
  }

  lemma LockGuards(env: Env, l: Ledger, id: string, rooms: u64, timeout: u64)
    requires NumAt(l, KEY_LOCK_TOTAL).Some?
    ensures Hotel.Lock(env, l, l, id, rooms, timeout).Committed?
            <==> && Hotel.BridgeError(env, l) == None && LockAt(l, id) == None
                 && Hotel.Available(l).Ok? && rooms <= Hotel.Available(l).value
  {
    if Hotel.BridgeError(env, l) == None && LockAt(l, id) == None && Hotel.Available(l).Ok? && rooms <= Hotel.Available(l).value {
      if id == "TOTAL" {
        TotalLockCommits(env, l, rooms, timeout);
      } else {
        Hotel.LockWrites(env, l, id, rooms, timeout, NumAt(l, KEY_LOCK_TOTAL).value);
      }
    }
  }

  lemma NoticesExactly(env: Env, l: Ledger, price: nat, rooms: nat, call: Call)
    requires Inv(l, price, rooms)
    ensures Effect(Own(env), l, call) == Effect(CommittedOnly(env), l, call) <==> !Notices(env, l, call)
  {
    if IsCommit(call) {
      CommitCallReadings(env, l, price, rooms, call);
      CommitGuards(env, l, price, rooms, call);
    } else if IsLock(call) {
      LockCallReadings(env, l, call);
      LockCallGuards(Own(env), l, call);
    } else {
      SameEffect(env, l, call);
    }
  }

  /** MAIN RESULT.  Of all calls of the hotel and the bridge, in every ledger reachable by a disciplined
      run whose steps may have read either way, exactly those of `Notices` tell the readings apart. */
  lemma ReadingsDifferExactly(bridge: Name, price: u64, rooms: u64, lockSize: u64, steps: seq<Step>,
                              bridged: set<string>, env: Env, call: Call)
    requires price > 0 && price * rooms < TWO64 && "TOTAL" !in bridged
    requires DisciplinedRun(Fresh(bridge, price, rooms, lockSize), steps, bridged, price)
    ensures var l := Run(Fresh(bridge, price, rooms, lockSize), steps);
            Effect(Own(env), l, call) == Effect(CommittedOnly(env), l, call) <==> !Notices(env, l, call)
  {
    var l0 := Fresh(bridge, price, rooms, lockSize);
    FreshIsSound(bridge, price, rooms, lockSize);
    RunKeeps(l0, steps, bridged, price, rooms);
    NoticesExactly(env, Run(l0, steps), price, rooms, call);
  }

  /** A prepared commit of either protocol: under committed-only reads it goes through exactly when its
      rooms are free a second time, beside the lock that holds them. */
  ghost predicate NeedsRoomsTwice(env: Env, l: Ledger, call: Call) {
    && Hotel.Available(l).Ok? && IsCommit(call)
    && var (own, committedOnly) := (Effect(Own(env), l, call), Effect(CommittedOnly(env), l, call));
    && own.Some?
    && (committedOnly.Some? <==> CommitRooms(l, call) <= Hotel.Available(l).value)
    && (committedOnly.Some? ==> committedOnly == own)
  }

  /** MAIN RESULT.  On a peer that serves committed state only, whatever the run so far could read, the
      commit of an active lock by the authorised caller goes through exactly when as many rooms are
      free beside all locks, its own included, as it is about to book; when it does, the ledger is
      the one the chaincode was written for.  ATOM and GPACT alike. */
  lemma CommitReadings(bridge: Name, price: u64, rooms: u64, lockSize: u64, steps: seq<Step>,
                       bridged: set<string>, env: Env, id: string)
    requires price > 0 && price * rooms < TWO64 && "TOTAL" !in bridged
    requires DisciplinedRun(Fresh(bridge, price, rooms, lockSize), steps, bridged, price)
    requires var l := Run(Fresh(bridge, price, rooms, lockSize), steps);
             Authorised(env, l) && id in bridged && LockAt(l, id).Some?
    ensures var l := Run(Fresh(bridge, price, rooms, lockSize), steps);
            && PendingAt(l, id).Some?
            && NeedsRoomsTwice(env, l, AtomUnlock(id))
            && (PendingAt(l, id).value.amountA != 0 ==> NeedsRoomsTwice(env, l, GPACTSignalling(id, true, false)))
  {
    var l0 := Fresh(bridge, price, rooms, lockSize);
    FreshIsSound(bridge, price, rooms, lockSize);
    RunKeeps(l0, steps, bridged, price, rooms);
    var l := Run(l0, steps);
    assert PreparedId(l, id, price);
    CommitGoesThrough(Own(env), l, price, rooms, id);
    CommitCallReadings(env, l, price, rooms, AtomUnlock(id));
    CommitCallReadings(env, l, price, rooms, GPACTSignalling(id, true, false));
  }

  // ---------------------------------------------------------------- auctions

  /** The ledger an auction operation commits on one peer; queries commit nothing new. */
  method InvokeAuction(env: Env, l: Ledger, op: AuctionModel.Op) returns (r: Option<Ledger>)
    requires Auction.Admissible(op)
    ensures r == if Auction.GoStep(l, op).0.Ok? then Some(Auction.GoStep(l, op).1) else None
  {
    var ctx := new Ctx(env, l);
    var ok := true;
    match op {
      case CreateAuction(id, seller, minPrice) =>
        var t := Auction.CreateAuction(ctx, id, seller, minPrice);
        ok := t.Ok?;
      case Bid(id, bidder, amount) =>
        var t := Auction.PlaceBid(ctx, id, bidder, amount);
        ok := t.Ok?;
      case Close(id) =>
        var t := Auction.CloseAuction(ctx, id);
        ok := t.Ok?;
      case Withdraw(user) =>
        var t := Auction.WithdrawPending(ctx, user);
        ok := t.Ok?;
      case GetAuction(id) =>
        var a := Auction.GetAuctionState(ctx, id);
        ok := a.Some?;
      case PendingReturn(user) =>
        var n := ctx.GetNum(ReturnKey(user));
        ok := n.Some?;
    }
    r := if ok then Some(ctx.draft) else None;
  }

  /** Auction operations, too, leave the same ledger under both readings. */
  method BothAuctionReadings(env: Env, l: Ledger, op: AuctionModel.Op) returns (own: Option<Ledger>, committedOnly: Option<Ledger>)
    requires Auction.Admissible(op)
    ensures own == committedOnly
    ensures own == if Auction.GoStep(l, op).0.Ok? then Some(Auction.GoStep(l, op).1) else None
  {
    own := InvokeAuction(Own(env), l, op);
    committedOnly := InvokeAuction(CommittedOnly(env), l, op);
  }
}
