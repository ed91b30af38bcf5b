/** The books of each user: no call touches anybody's but those of the user it books for, and over
    disciplined runs with fair charges an account holds exactly the price of that user's rooms. */
module UserBooks {
  import opened Prelude
  import opened Arith
  import opened FabricLedger
  import opened Participant
  import opened ParticipantSafety
  import opened ParticipantRuns
  import Hotel = HotelBooking
  import Bridge = XBridge

  predicate PaidFor(l: Ledger, user: string, price: nat) {
    NumOrZero(l, AccountKey(user)) == price * NumOrZero(l, BookingKey(user))
  }

  predicate SameUser(l: Ledger, l': Ledger, user: string) {
    && NumOrZero(l', AccountKey(user)) == NumOrZero(l, AccountKey(user))
    && NumOrZero(l', BookingKey(user)) == NumOrZero(l, BookingKey(user))
  }

  /** Keys of other kinds hold nobody's account or bookings. */
  lemma OtherKinds(l: Ledger, k: string, c: Cell, user: string)
    requires |k| > 0 && k[0] !in {'A', 'B'}
    ensures SameUser(l, l[k := c], user) && SameUser(l, l - {k}, user)
  {
    KeysDistinct("", user);
  }

  lemma HotelSparesUser(env: Env, l: Ledger, id: string, rooms: u64, timeout: u64, user: string)
    ensures var tx := Hotel.Lock(env, l, l, id, rooms, timeout);
            tx.Committed? ==> SameUser(l, tx.ledger, user)
    ensures var tx := Hotel.Release(l, l, id);
            tx.Committed? ==> SameUser(l, tx.ledger, user) && SameUser(l, tx.ledger - {PendingKey(id)}, user)
  {
    KeysDistinct(id, user);
  }

  lemma LockAndRecordSparesUser(env: Env, l: Ledger, id: string, rooms: u64, timeout: u64, op: Cell, user: string)
    ensures var tx := Bridge.LockAndRecord(env, l, l, id, rooms, timeout, op);
            tx.Committed? ==> SameUser(l, tx.ledger, user)
  {
    HotelSparesUser(env, l, id, rooms, timeout, user);
    KeysDistinct(id, user);
  }

  /** A record at the full price keeps every user's books in order. */
  lemma RecordPays(l: Ledger, price: nat, rooms: nat, booker: string, cost: u64, num: u64, user: string)
    requires Bookable(l, price, rooms, num) && cost == price * num && PaidFor(l, user, price)
    ensures PaidFor(Recorded(l, booker, cost, num), user, price)
  {
    KeysDistinct("", user);
    KeysDistinct("", booker);
    KeysInjective(user, booker);
    if user == booker {
      RecordKeeps(l, price, rooms, user, cost, num);
      OwnChargeFits(l, price, rooms, user, num);
    }
  }

  lemma OwnChargeFits(l: Ledger, price: nat, rooms: nat, user: string, num: u64)
    requires Bookable(l, price, rooms, num) && PaidFor(l, user, price)
    ensures NumOrZero(l, AccountKey(user)) + price * num == price * (NumOrZero(l, BookingKey(user)) + num) < TWO64
  {
    BalancesBounded(l, user);
    var booked := NumOrZero(l, BookingKey(user));
    MulMono(price, booked + num, rooms);
    assert price * (booked + num) == price * booked + price * num;
  }

  lemma BookPays(l: Ledger, price: nat, rooms: nat, booker: string, num: u64, user: string)
    requires Inv(l, price, rooms) && PaidFor(l, user, price)
    ensures var tx := Hotel.Book(l, l, booker, num);
            tx.Committed? ==> PaidFor(tx.ledger, user, price)
  {
    BookRecords(l, price, rooms, booker, num);
    var tx := Hotel.Book(l, l, booker, num);
    if tx.Committed? {
      RecordPays(l, price, rooms, booker, tx.value, num, user);
    }
  }

  lemma UpdatePays(env: Env, l: Ledger, price: nat, rooms: nat, id: string, newRemain: u64, booker: string, num: u64, cost: u64, user: string)
    requires Inv(l, price, rooms) && FairUpdate(l, id, newRemain, num, price) && cost == price * num && PaidFor(l, user, price)
    ensures var tx := Hotel.Update(env, l, l, id, newRemain, booker, num, cost);
            tx.Committed? ==> PaidFor(tx.ledger, user, price)
  {
    UpdateRecords(env, l, price, rooms, id, newRemain, booker, num, cost);
    if Hotel.Update(env, l, l, id, newRemain, booker, num, cost).Committed? {
      HotelSparesUser(env, l, id, 0, 0, user);
      RecordPays(Hotel.Release(l, l, id).ledger, price, rooms, booker, cost, num, user);
    }
  }

  lemma CommitPays(env: Env, l: Ledger, price: nat, rooms: nat, id: string, booker: string, num: u64, user: string)
    requires Inv(l, price, rooms) && PaidFor(l, user, price)
    ensures var tx := Bridge.ReleaseAndBook(env, l, l, id, booker, num);
            tx.Committed? ==> PaidFor(tx.ledger, user, price)
  {
    var cost := CommitRecords(env, l, price, rooms, id, booker, num);
    if Bridge.ReleaseAndBook(env, l, l, id, booker, num).Committed? {
      var d := Hotel.Release(l, l, id).ledger;
      HotelSparesUser(env, l, id, 0, 0, user);
      RecordPays(d, price, rooms, booker, cost, num, user);
      KeysDistinct(id, user);
      OtherKinds(Recorded(d, booker, cost, num), PendingKey(id), Num(0), user);
    }
  }

  /** The calls that neither book nor charge. */
  lemma PlainCallsSpareUser(env: Env, l: Ledger, call: Call, user: string)
    requires Effect(env, l, call).Some? && !call.HotelInit? && !call.BookLocal? && !call.UpdateState? && !call.ReceiveUpdateRequest?
    requires !call.AtomUnlock? && !(call.GPACTSignalling? && call.commit && !call.abort)
    ensures SameUser(l, Effect(env, l, call).value, user)
  {
    match call
    case LockState(i, num, timeout) => HotelSparesUser(env, l, i, num, timeout, user);
    case ReceiveLockRequest(i, num, timeout) => HotelSparesUser(env, l, i, num, timeout, user);
    case GPACTSegment(i) =>
      LockAndRecordSparesUser(env, l, i, Bridge.GPACT_ROOMS, Bridge.GPACT_TIMEOUT, Bridge.SegmentOp(env), user);
    case AtomLockDo(i, kind, sender, a, b) =>
      LockAndRecordSparesUser(env, l, i, Bridge.AtomAmount(a, b), Bridge.ATOM_TIMEOUT, PendingOp(a, b, kind, sender, true), user);
    case SetBridge(_) => KeysDistinct("", user);
    case BridgeInit(_, _) => KeysDistinct("", user);
    case SetRelayerMSP(_) => KeysDistinct("", user);
    case UnlockState(i) => HotelSparesUser(env, l, i, 0, 0, user);
    case UnlockOnTimeout(i) => HotelSparesUser(env, l, i, 0, 0, user);
    case ReceiveRollbackRequest(i) => HotelSparesUser(env, l, i, 0, 0, user);
    case ReceiveTimeoutRollback(i) => HotelSparesUser(env, l, i, 0, 0, user);
    case GPACTSignalling(i, _, _) => HotelSparesUser(env, l, i, 0, 0, user);
    case AtomUndoUnlock(i) => HotelSparesUser(env, l, i, 0, 0, user);
  }

  lemma StepPays(l: Ledger, s: Step, bridged: set<string>, price: nat, rooms: nat, user: string)
    requires Inv(l, price, rooms) && Disciplined(l, s, bridged, price) && FairCharge(s.call, price) && PaidFor(l, user, price)
    ensures PaidFor(Next(l, s), user, price)
  {
    var (env, call) := (s.env, s.call);
    if Effect(env, l, call).Some? {
      match call
      case BookLocal(booker, num) => BookPays(l, price, rooms, booker, num, user);
      case UpdateState(i, newRemain, booker, num, cost) => UpdatePays(env, l, price, rooms, i, newRemain, booker, num, cost, user);
      case ReceiveUpdateRequest(i, newRemain, booker, num, cost) =>
        UpdatePays(env, l, price, rooms, i, newRemain, booker, num, cost, user);
      case AtomUnlock(i) =>
        var op := PendingAt(l, i).value;
        CommitPays(env, l, price, rooms, i, op.user, PendingRooms(op), user);
      case GPACTSignalling(i, commit, abort) =>
        if commit && !abort {
          var op := PendingAt(l, i).value;
          CommitPays(env, l, price, rooms, i, op.user, op.amountA, user);
        } else {
          PlainCallsSpareUser(env, l, call, user);
        }
      case _ => PlainCallsSpareUser(env, l, call, user);
    }
  }

  // ---------------------------------------------------------------- whose rooms

  /** The user a call books for, and the rooms: those it names, or those of the pending operation. */
  function BooksFor(l: Ledger, call: Call): Option<(string, u64)> {
    match call
    case BookLocal(user, num) => Some((user, num))
    case UpdateState(_, _, user, num, _) => Some((user, num))
    case ReceiveUpdateRequest(_, _, user, num, _) => Some((user, num))
    case AtomUnlock(id) =>
      if PendingAt(l, id) == None then None else Some((PendingAt(l, id).value.user, PendingRooms(PendingAt(l, id).value)))
    case GPACTSignalling(id, commit, abort) =>
      if PendingAt(l, id) == None || !commit || abort then None else Some((PendingAt(l, id).value.user, PendingAt(l, id).value.amountA))
    case _ => None
  }

  lemma RecordSparesOthers(seen: Ledger, l: Ledger, meta: Cell, booker: string, cost: u64, num: u64, user: string)
    requires user != booker
    ensures SameUser(l, Record(seen, l, meta, booker, cost, num), user)
  {
    KeysDistinct("", user);
    KeysDistinct("", booker);
    KeysInjective(user, booker);
  }

  lemma UpdateSparesOthers(env: Env, l: Ledger, id: string, newRemain: u64, booker: string, num: u64, cost: u64, user: string)
    requires user != booker
    ensures var tx := Hotel.Update(env, l, l, id, newRemain, booker, num, cost);
            tx.Committed? ==> SameUser(l, tx.ledger, user)
  {
    HotelSparesUser(env, l, id, 0, 0, user);
    if Hotel.Update(env, l, l, id, newRemain, booker, num, cost).Committed? {
      RecordSparesOthers(l, Hotel.Release(l, l, id).ledger, l[KEY_META].(remain := newRemain), booker, cost, num, user);
    }
  }

  lemma BookSparesOthers(seen: Ledger, l: Ledger, booker: string, num: u64, user: string)
    requires user != booker
    ensures var tx := Hotel.Book(seen, l, booker, num);
            tx.Committed? ==> SameUser(l, tx.ledger, user)
  {
    KeysDistinct("", user);
    KeysDistinct("", booker);
    KeysInjective(user, booker);
  }

  lemma CommitSparesOthers(env: Env, l: Ledger, id: string, booker: string, num: u64, user: string)
    requires user != booker
    ensures var tx := Bridge.ReleaseAndBook(env, l, l, id, booker, num);
            tx.Committed? ==> SameUser(l, tx.ledger, user)
  {
    HotelSparesUser(env, l, id, 0, 0, user);
    KeysDistinct(id, user);
    var tx := Hotel.Unlock(env, l, l, id);
    if tx.Committed? {
      BookSparesOthers(if env.ownWrites then tx.ledger else l, tx.ledger, booker, num, user);
    }
  }

  /** MAIN RESULT.  In any ledger, under either reading, no call changes the account or the bookings of
      anybody but the user it books for. */
  lemma OthersAreSpared(env: Env, l: Ledger, call: Call, user: string)
    requires Effect(env, l, call).Some? && (BooksFor(l, call) == None || BooksFor(l, call).value.0 != user)
    ensures SameUser(l, Effect(env, l, call).value, user)
  {
    match call
    case BookLocal(booker, num) => BookSparesOthers(l, l, booker, num, user);
    case UpdateState(i, newRemain, booker, num, cost) => UpdateSparesOthers(env, l, i, newRemain, booker, num, cost, user);
    case ReceiveUpdateRequest(i, newRemain, booker, num, cost) => UpdateSparesOthers(env, l, i, newRemain, booker, num, cost, user);
    case AtomUnlock(i) => CommitSparesOthers(env, l, i, PendingAt(l, i).value.user, PendingRooms(PendingAt(l, i).value), user);
    case GPACTSignalling(i, commit, abort) =>
      if commit && !abort {
        CommitSparesOthers(env, l, i, PendingAt(l, i).value.user, PendingAt(l, i).value.amountA, user);
      } else {
        PlainCallsSpareUser(env, l, call, user);
      }
    case HotelInit(_, _, _, _) => KeysDistinct("", user);
    case _ => PlainCallsSpareUser(env, l, call, user);
  }

  /** The user a call books for gets exactly its rooms. */
  lemma BookerGetsRooms(l: Ledger, s: Step, bridged: set<string>, price: nat, rooms: nat)
    requires Inv(l, price, rooms) && Disciplined(l, s, bridged, price)
    requires Effect(s.env, l, s.call).Some? && BooksFor(l, s.call).Some?
    ensures var (user, num) := BooksFor(l, s.call).value;
            NumOrZero(Next(l, s), BookingKey(user)) == NumOrZero(l, BookingKey(user)) + num
  {
    var (env, call) := (s.env, s.call);
    match call
    case BookLocal(user, num) => BookGets(l, price, rooms, user, num);
    case UpdateState(i, newRemain, user, num, cost) => UpdateGets(env, l, price, rooms, i, newRemain, user, num, cost);
    case ReceiveUpdateRequest(i, newRemain, user, num, cost) => UpdateGets(env, l, price, rooms, i, newRemain, user, num, cost);
    case AtomUnlock(i) => CommitGets(env, l, price, rooms, i, PendingAt(l, i).value.user, PendingRooms(PendingAt(l, i).value));
    case GPACTSignalling(i, _, _) => CommitGets(env, l, price, rooms, i, PendingAt(l, i).value.user, PendingAt(l, i).value.amountA);
  }

  lemma BookGets(l: Ledger, price: nat, rooms: nat, user: string, num: u64)
    requires Inv(l, price, rooms) && Hotel.Book(l, l, user, num).Committed?
    ensures NumOrZero(Hotel.Book(l, l, user, num).ledger, BookingKey(user)) == NumOrZero(l, BookingKey(user)) + num
  {
    BookRecords(l, price, rooms, user, num);
    RecordKeeps(l, price, rooms, user, Hotel.Book(l, l, user, num).value, num);
  }

  lemma UpdateGets(env: Env, l: Ledger, price: nat, rooms: nat, id: string, newRemain: u64, user: string, num: u64, cost: u64)
    requires Inv(l, price, rooms) && FairUpdate(l, id, newRemain, num, price)
    requires Hotel.Update(env, l, l, id, newRemain, user, num, cost).Committed?
    ensures NumOrZero(Hotel.Update(env, l, l, id, newRemain, user, num, cost).ledger, BookingKey(user)) == NumOrZero(l, BookingKey(user)) + num
  {
    UpdateRecords(env, l, price, rooms, id, newRemain, user, num, cost);
    HotelSparesUser(env, l, id, 0, 0, user);
    RecordKeeps(Hotel.Release(l, l, id).ledger, price, rooms, user, cost, num);
  }

  lemma CommitGets(env: Env, l: Ledger, price: nat, rooms: nat, id: string, user: string, num: u64)
    requires Inv(l, price, rooms) && Bridge.ReleaseAndBook(env, l, l, id, user, num).Committed?
    ensures NumOrZero(Bridge.ReleaseAndBook(env, l, l, id, user, num).ledger, BookingKey(user)) == NumOrZero(l, BookingKey(user)) + num
  {
    var cost := CommitRecords(env, l, price, rooms, id, user, num);
    var d := Hotel.Release(l, l, id).ledger;
    HotelSparesUser(env, l, id, 0, 0, user);
    RecordKeeps(d, price, rooms, user, cost, num);
    KeysDistinct(id, user);
    OtherKinds(Recorded(d, user, cost, num), PendingKey(id), Num(0), user);
  }

  // ---------------------------------------------------------------- runs

  /** The rooms that the committed calls of a run booked for a user. */
  ghost function BookedFor(l: Ledger, steps: seq<Step>, user: string): nat {
    if steps == [] then 0
    else
      var before, last := steps[..|steps| - 1], steps[|steps| - 1];
      var booking := BooksFor(Run(l, before), last.call);
      BookedFor(l, before, user) +
      if Effect(last.env, Run(l, before), last.call).Some? && booking.Some? && booking.value.0 == user then booking.value.1 else 0
  }

  lemma StepBooks(l: Ledger, s: Step, bridged: set<string>, price: nat, rooms: nat, user: string)
    requires Inv(l, price, rooms) && Disciplined(l, s, bridged, price)
    ensures NumOrZero(Next(l, s), BookingKey(user)) == NumOrZero(l, BookingKey(user)) +
              if Effect(s.env, l, s.call).Some? && BooksFor(l, s.call).Some? && BooksFor(l, s.call).value.0 == user
              then BooksFor(l, s.call).value.1 else 0
  {
    if Effect(s.env, l, s.call).Some? {
      if BooksFor(l, s.call).Some? && BooksFor(l, s.call).value.0 == user {
        BookerGetsRooms(l, s, bridged, price, rooms);
      } else {
        OthersAreSpared(s.env, l, s.call, user);
      }
    }
  }

  lemma {:induction false} RunBooks(l: Ledger, steps: seq<Step>, bridged: set<string>, price: nat, rooms: nat, user: string)
    requires "TOTAL" !in bridged
    requires Inv(l, price, rooms) && Prepared(l, bridged, price) && DisciplinedRun(l, steps, bridged, price)
    ensures NumOrZero(Run(l, steps), BookingKey(user)) == NumOrZero(l, BookingKey(user)) + BookedFor(l, steps, user)
    ensures FairCharges(steps, price) && PaidFor(l, user, price) ==> PaidFor(Run(l, steps), user, price)
  {
    if steps != [] {
      var before, last := steps[..|steps| - 1], steps[|steps| - 1];
      RunBooks(l, before, bridged, price, rooms, user);
      RunKeeps(l, before, bridged, price, rooms);
      StepBooks(Run(l, before), last, bridged, price, rooms, user);
      if FairCharges(steps, price) && PaidFor(l, user, price) {
        assert FairCharges(before, price) && FairCharge(last.call, price);
        StepPays(Run(l, before), last, bridged, price, rooms, user);
      }
    }
  }

  /** MAIN RESULT.  In every ledger reachable by a disciplined run, under either reading, each user's
      booking holds exactly the rooms that committed calls booked for that user; with fair charges the
      user's account is exactly their price. */
  lemma EveryUserPaysForTheirRooms(bridge: Name, price: u64, rooms: u64, lockSize: u64, steps: seq<Step>, bridged: set<string>, user: string)
    requires price > 0 && price * rooms < TWO64 && "TOTAL" !in bridged
    requires DisciplinedRun(Fresh(bridge, price, rooms, lockSize), steps, bridged, price)
    ensures var l0 := Fresh(bridge, price, rooms, lockSize);
            && NumOrZero(Run(l0, steps), BookingKey(user)) == BookedFor(l0, steps, user)
            && (FairCharges(steps, price) ==> NumOrZero(Run(l0, steps), AccountKey(user)) == price * BookedFor(l0, steps, user))
  {
    var l0 := Fresh(bridge, price, rooms, lockSize);
    FreshIsSound(bridge, price, rooms, lockSize);
    KeysDistinct("", user);
    RunBooks(l0, steps, bridged, price, rooms, user);
  }
}
