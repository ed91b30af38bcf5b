/** The invariant over runs of the Fabric participant, and what it gives: conservation of rooms and
    charges, and commits that cannot fail. */
module ParticipantRuns {
  import opened Prelude
  import opened Arith
  import opened FabricLedger
  import opened Participant
  import opened ParticipantSafety
  import Hotel = HotelBooking
  import Bridge = XBridge

  /** The rooms a pending operation will book. */
  function PendingRooms(op: Cell): u64
    requires op.PendingOp?
  {
    Bridge.AtomAmount(op.amountA, op.amountB)
  }

  /** If the lock of `id` is active, a pending operation stands by for exactly the locked rooms. */
  ghost predicate PreparedId(l: Ledger, id: string, price: nat) {
    LockAt(l, id).Some? ==>
      && PendingAt(l, id).Some?
      && PendingRooms(PendingAt(l, id).value) > 0
      && LockAt(l, id).value.lockedAmount == price * PendingRooms(PendingAt(l, id).value)
  }

  ghost predicate Prepared(l: Ledger, bridged: set<string>, price: nat) {
    forall id | id in bridged :: PreparedId(l, id, price)
  }

  /** An update books no more rooms than its lock holds and lowers the stock by as many. */
  ghost predicate FairUpdate(l: Ledger, id: string, newRemain: u64, num: u64, price: nat) {
    LockAt(l, id).Some? && MetaAt(l).Some? ==>
      newRemain + num == Remain(l) && price * num <= LockAt(l, id).value.lockedAmount
  }

  /** What the protocols ask of the callers.  `bridged` are the ids driven by GPACT or ATOM: plain
      locks never use them.  Locks are for at least one room, updates are fair, the hotel is not
      initialised again.  Reads may see the call's own writes or committed state only, call by call. */
  ghost predicate Disciplined(l: Ledger, s: Step, bridged: set<string>, price: nat) {
    match s.call
    case HotelInit(_, _, _, _) => false
    case LockState(id, rooms, _) => rooms > 0 && id != "TOTAL" && id !in bridged
    case ReceiveLockRequest(id, rooms, _) => rooms > 0 && id != "TOTAL" && id !in bridged
    case GPACTSegment(id) => id != "TOTAL" && id in bridged
    case AtomLockDo(id, _, _, _, _) => id != "TOTAL" && id in bridged
    case UpdateState(id, newRemain, _, num, _) => FairUpdate(l, id, newRemain, num, price)
    case ReceiveUpdateRequest(id, newRemain, _, num, _) => FairUpdate(l, id, newRemain, num, price)
    case _ => true
  }

  ghost predicate DisciplinedRun(l: Ledger, steps: seq<Step>, bridged: set<string>, price: nat) {
    steps != [] ==>
      && DisciplinedRun(l, steps[..|steps| - 1], bridged, price)
      && Disciplined(Run(l, steps[..|steps| - 1]), steps[|steps| - 1], bridged, price)
  }

  // ---------------------------------------------------------------- one step: the invariant

  lemma MetaWriteKeepsInv(l: Ledger, price: nat, rooms: nat, k: string, c: Cell)
    requires Inv(l, price, rooms)
    requires |k| > 0 && (k[0] == 'X' || (k == KEY_META && c.Meta? && c.price == price && c.remain == Remain(l)))
    ensures Inv(l[k := c], price, rooms) && Charged(l[k := c]) == Charged(l) && Booked(l[k := c]) == Booked(l)
  {
    PutOther(l, k, c);
    NoWeight(l, k);
    Multiple(price, 0);
  }

  lemma DropPendingKeepsInv(l: Ledger, price: nat, rooms: nat, id: string)
    requires Inv(l, price, rooms)
    ensures Inv(l - {PendingKey(id)}, price, rooms)
    ensures Charged(l - {PendingKey(id)}) == Charged(l) && Booked(l - {PendingKey(id)}) == Booked(l)
  {
    KeysDistinct(id, "");
    DelOther(l, PendingKey(id));
  }

  /** Balanced books: every booked room was charged at the price. */
  ghost predicate Balanced(l: Ledger, price: nat) {
    Charged(l) == price * Booked(l)
  }

  /** An update also charges the price of what it books. */
  ghost predicate FairCharge(call: Call, price: nat) {
    && (call.UpdateState? ==> call.cost == price * call.num)
    && (call.ReceiveUpdateRequest? ==> call.cost == price * call.num)
  }

  ghost predicate Keeps(l: Ledger, l': Ledger, price: nat, rooms: nat, charge: bool) {
    Inv(l', price, rooms) && (Balanced(l, price) && charge ==> Balanced(l', price))
  }

  /** Rooms that exist beside the locked value. */
  ghost predicate Bookable(l: Ledger, price: nat, rooms: nat, num: nat) {
    Inv(l, price, rooms) && num <= Remain(l) && Locked(l) + price * num <= price * Remain(l)
  }

  /** The ledger that books `num` rooms of `l` for `user` and charges `cost`. */
  function Recorded(l: Ledger, user: string, cost: u64, num: u64): Ledger
    requires MetaAt(l).Some? && num <= Remain(l)
  {
    Record(l, l, l[KEY_META].(remain := Remain(l) - num), user, cost, num)
  }

  lemma RecordKeeps(l: Ledger, price: nat, rooms: nat, user: string, cost: u64, num: u64)
    requires Bookable(l, price, rooms, num)
    ensures var r := Recorded(l, user, cost, num);
            && Keeps(l, r, price, rooms, cost == price * num)
            && Remain(r) + num == Remain(l)
            && NumOrZero(r, BookingKey(user)) == NumOrZero(l, BookingKey(user)) + num
            && NumOrZero(r, AccountKey(user)) == Add64(NumOrZero(l, AccountKey(user)), cost)
  {
    RecordKeepsInv(l, price, rooms, user, cost, num);
    BalancesBounded(l, user);
    ChargeFits(price, Booked(l), Remain(l), rooms, num);
    RecordFrame(l, l, l[KEY_META].(remain := Remain(l) - num), user, cost, num, price);
  }

  lemma ChargeFits(price: nat, booked: nat, remain: nat, rooms: nat, num: nat)
    requires booked + remain == rooms && num <= remain && price * rooms < TWO64
    ensures price * booked + price * num < TWO64
    ensures price * (booked + num) == price * booked + price * num
  {
    MulMono(price, booked + num, rooms);
    assert price * (booked + num) == price * booked + price * num;
  }

  lemma KeepsTrans(a: Ledger, b: Ledger, c: Ledger, price: nat, rooms: nat, p: bool, q: bool)
    ensures Keeps(a, b, price, rooms, p) && Keeps(b, c, price, rooms, q) ==> Keeps(a, c, price, rooms, p && q)
  {
  }

  // Each of the three ways to book records rooms that exist beside the locked value.

  lemma BookRecords(l: Ledger, price: nat, rooms: nat, user: string, num: u64)
    requires Inv(l, price, rooms)
    ensures var tx := Hotel.Book(l, l, user, num);
            && (tx.Committed? <==> num > 0 && Bookable(l, price, rooms, num))
            && (tx.Committed? ==> tx.value == price * num && tx.ledger == Recorded(l, user, tx.value, num))
  {
    BookShape(l, price, rooms, user, num);
  }

  /** An update books in the ledger its release leaves. */
  lemma UpdateRecords(env: Env, l: Ledger, price: nat, rooms: nat,
                      id: string, newRemain: u64, user: string, num: u64, cost: u64)
    requires Inv(l, price, rooms) && FairUpdate(l, id, newRemain, num, price)
    ensures var tx := Hotel.Update(env, l, l, id, newRemain, user, num, cost);
            tx.Committed? ==>
              && Hotel.Release(l, l, id).Committed?
              && var d := Hotel.Release(l, l, id).ledger;
              Bookable(d, price, rooms, num) && tx.ledger == Recorded(d, user, cost, num)
  {
    if Hotel.Update(env, l, l, id, newRemain, user, num, cost).Committed? {
      ReleaseShape(l, price, rooms, id);
      ReleaseKeepsInv(l, price, rooms, id);
    }
  }

  /** So does a commit.  If it reads committed state only, it finds fewer rooms free than there are
      after the release, and the same balances. */
  lemma CommitRecords(env: Env, l: Ledger, price: nat, rooms: nat, id: string, user: string, num: u64) returns (cost: u64)
    requires Inv(l, price, rooms)
    ensures var tx := Bridge.ReleaseAndBook(env, l, l, id, user, num);
            tx.Committed? ==>
              && Hotel.Release(l, l, id).Committed?
              && var d := Hotel.Release(l, l, id).ledger;
              && Bookable(d, price, rooms, num) && cost == price * num
              && tx.ledger == Recorded(d, user, cost, num) - {PendingKey(id)}
  {
    cost := 0;
    if Bridge.ReleaseAndBook(env, l, l, id, user, num).Committed? {
      var d := Hotel.Release(l, l, id).ledger;
      ReleaseShape(l, price, rooms, id);
      ReleaseKeepsInv(l, price, rooms, id);
      BookRecords(d, price, rooms, user, num);
      cost := Mul64(price, num);
      if !env.ownWrites {
        StaleBookIsBook(l, price, rooms, id, user, num);
      }
    }
  }

  lemma StaleBookIsBook(l: Ledger, price: nat, rooms: nat, id: string, user: string, num: u64)
    requires Inv(l, price, rooms) && LockAt(l, id).Some?
    ensures var d := Hotel.Release(l, l, id).ledger;
            var tx := Hotel.Book(l, d, user, num);
            tx.Committed? ==> tx == Hotel.Book(d, d, user, num)
  {
    var d := Hotel.Release(l, l, id).ledger;
    ReleaseKeepsInv(l, price, rooms, id);
    AvailableExactly(l, price, rooms, num);
    AvailableExactly(d, price, rooms, num);
  }

  lemma BookKeeps(l: Ledger, price: nat, rooms: nat, user: string, num: u64)
    requires Inv(l, price, rooms)
    ensures var tx := Hotel.Book(l, l, user, num);
            tx.Committed? ==> Keeps(l, tx.ledger, price, rooms, true)
  {
    BookRecords(l, price, rooms, user, num);
    if Hotel.Book(l, l, user, num).Committed? {
      RecordKeeps(l, price, rooms, user, price * num, num);
    }
  }

  lemma UpdateKeeps(env: Env, l: Ledger, price: nat, rooms: nat,
                    id: string, newRemain: u64, user: string, num: u64, cost: u64)
    requires Inv(l, price, rooms) && FairUpdate(l, id, newRemain, num, price)
    ensures var tx := Hotel.Update(env, l, l, id, newRemain, user, num, cost);
            tx.Committed? ==> Keeps(l, tx.ledger, price, rooms, cost == price * num)
  {
    UpdateRecords(env, l, price, rooms, id, newRemain, user, num, cost);
    if Hotel.Update(env, l, l, id, newRemain, user, num, cost).Committed? {
      var d := Hotel.Release(l, l, id).ledger;
      ReleaseKeeps(l, price, rooms, id);
      RecordKeeps(d, price, rooms, user, cost, num);
    }
  }

  lemma ReleaseAndBookKeeps(env: Env, l: Ledger, price: nat, rooms: nat, id: string, user: string, num: u64)
    requires Inv(l, price, rooms)
    ensures var tx := Bridge.ReleaseAndBook(env, l, l, id, user, num);
            tx.Committed? ==> Keeps(l, tx.ledger, price, rooms, true)
  {
    var cost := CommitRecords(env, l, price, rooms, id, user, num);
    if Bridge.ReleaseAndBook(env, l, l, id, user, num).Committed? {
      var d := Hotel.Release(l, l, id).ledger;
      ReleaseKeeps(l, price, rooms, id);
      CommitRecordKeeps(d, price, rooms, id, user, cost, num);
    }
  }

  lemma CommitRecordKeeps(d: Ledger, price: nat, rooms: nat, id: string, user: string, cost: u64, num: u64)
    requires Bookable(d, price, rooms, num) && cost == price * num
    ensures Keeps(d, Recorded(d, user, cost, num) - {PendingKey(id)}, price, rooms, true)
  {
    RecordKeeps(d, price, rooms, user, cost, num);
    DropPendingKeepsInv(Recorded(d, user, cost, num), price, rooms, id);
  }

  lemma ReleaseKeeps(l: Ledger, price: nat, rooms: nat, id: string)
    requires Inv(l, price, rooms)
    ensures var tx := Hotel.Release(l, l, id);
            tx.Committed? ==> Keeps(l, tx.ledger, price, rooms, true) && Keeps(l, tx.ledger - {PendingKey(id)}, price, rooms, true)
  {
    ReleaseShape(l, price, rooms, id);
    if LockAt(l, id).Some? {
      ReleaseKeepsInv(l, price, rooms, id);
      DropPendingKeepsInv(Hotel.Release(l, l, id).ledger, price, rooms, id);
    }
  }

  lemma LockKeeps(env: Env, l: Ledger, price: nat, rooms: nat, id: string, num: u64, timeout: u64, op: Cell)
    requires Inv(l, price, rooms) && num > 0 && id != "TOTAL"
    ensures var tx := Hotel.Lock(env, l, l, id, num, timeout);
            tx.Committed? ==> Keeps(l, tx.ledger, price, rooms, true) && Keeps(l, tx.ledger[PendingKey(id) := op], price, rooms, true)
  {
    var tx := Hotel.Lock(env, l, l, id, num, timeout);
    if tx.Committed? {
      LockKeepsInv(env, l, price, rooms, id, num, timeout);
      KeysDistinct(id, "");
      MetaWriteKeepsInv(tx.ledger, price, rooms, PendingKey(id), op);
    }
  }

  lemma LockCallsKeep(env: Env, l: Ledger, call: Call, bridged: set<string>, price: nat, rooms: nat)
    requires Inv(l, price, rooms) && Disciplined(l, Step(env, call), bridged, price)
    requires call.LockState? || call.ReceiveLockRequest? || call.GPACTSegment? || call.AtomLockDo?
    ensures Effect(env, l, call).Some? ==> Keeps(l, Effect(env, l, call).value, price, rooms, true)
  {
    match call
    case LockState(id, num, timeout) => LockKeeps(env, l, price, rooms, id, num, timeout, Num(0));
    case ReceiveLockRequest(id, num, timeout) => LockKeeps(env, l, price, rooms, id, num, timeout, Num(0));
    case GPACTSegment(id) =>
      LockKeeps(env, l, price, rooms, id, Bridge.GPACT_ROOMS, Bridge.GPACT_TIMEOUT, Bridge.SegmentOp(env));
    case AtomLockDo(id, kind, user, a, b) =>
      if Bridge.AtomAmount(a, b) > 0 {
        LockKeeps(env, l, price, rooms, id, Bridge.AtomAmount(a, b), Bridge.ATOM_TIMEOUT, PendingOp(a, b, kind, user, true));
      }
  }

  lemma ReleaseCallsKeep(env: Env, l: Ledger, call: Call, bridged: set<string>, price: nat, rooms: nat)
    requires Inv(l, price, rooms) && Disciplined(l, Step(env, call), bridged, price)
    requires exists i :: ReleasesId(call, i)
    requires Effect(env, l, call).Some?
    ensures Keeps(l, Effect(env, l, call).value, price, rooms, FairCharge(call, price))
  {
    match call
    case UpdateState(i, newRemain, user, num, cost) => UpdateKeeps(env, l, price, rooms, i, newRemain, user, num, cost);
    case ReceiveUpdateRequest(i, newRemain, user, num, cost) =>
      UpdateKeeps(env, l, price, rooms, i, newRemain, user, num, cost);
    case GPACTSignalling(i, commit, abort) =>
      if commit && !abort {
        var op := PendingAt(l, i).value;
        ReleaseAndBookKeeps(env, l, price, rooms, i, op.user, op.amountA);
      } else {
        ReleaseKeeps(l, price, rooms, i);
      }
    case AtomUnlock(i) =>
      var op := PendingAt(l, i).value;
      ReleaseAndBookKeeps(env, l, price, rooms, i, op.user, PendingRooms(op));
    case UnlockState(i) => ReleaseKeeps(l, price, rooms, i);
    case UnlockOnTimeout(i) => ReleaseKeeps(l, price, rooms, i);
    case ReceiveRollbackRequest(i) => ReleaseKeeps(l, price, rooms, i);
    case ReceiveTimeoutRollback(i) => ReleaseKeeps(l, price, rooms, i);
    case AtomUndoUnlock(i) => ReleaseKeeps(l, price, rooms, i);
  }

  lemma OtherCallsKeep(env: Env, l: Ledger, call: Call, price: nat, rooms: nat)
    requires Inv(l, price, rooms) && Effect(env, l, call).Some?
    requires call.BookLocal? || call.SetBridge? || call.BridgeInit? || call.SetRelayerMSP?
    ensures Keeps(l, Effect(env, l, call).value, price, rooms, true)
  {
    match call
    case BookLocal(user, num) => BookKeeps(l, price, rooms, user, num);
    case SetBridge(bridge) => MetaWriteKeepsInv(l, price, rooms, KEY_META, l[KEY_META].(bridge := bridge));
    case BridgeInit(relayer, target) =>
      MetaWriteKeepsInv(l, price, rooms, KEY_BRIDGE_META, BridgeMeta(relayer, if target == "" then "hotel_booking" else target));
    case SetRelayerMSP(relayer) =>
      MetaWriteKeepsInv(l, price, rooms, KEY_BRIDGE_META, l[KEY_BRIDGE_META].(relayerMSP := relayer));
  }

  lemma StepKeeps(l: Ledger, s: Step, bridged: set<string>, price: nat, rooms: nat)
    requires Inv(l, price, rooms) && Disciplined(l, s, bridged, price)
    ensures Keeps(l, Next(l, s), price, rooms, FairCharge(s.call, price))
  {
    var (env, call) := (s.env, s.call);
    if Effect(env, l, call).Some? {
      if call.BookLocal? || call.SetBridge? || call.BridgeInit? || call.SetRelayerMSP? {
        OtherCallsKeep(env, l, call, price, rooms);
      } else if call.LockState? || call.ReceiveLockRequest? || call.GPACTSegment? || call.AtomLockDo? {
        LockCallsKeep(env, l, call, bridged, price, rooms);
      } else {
        assert ReleasesId(call, call.id);
        ReleaseCallsKeep(env, l, call, bridged, price, rooms);
      }
    }
  }

  // ---------------------------------------------------------------- one step: pending operations

  /** The calls that write or delete the pending operation of `id`. */
  predicate TouchesPending(call: Call, id: string) {
    || (call.GPACTSegment? && call.id == id) || (call.AtomLockDo? && call.id == id)
    || (call.GPACTSignalling? && call.id == id) || (call.AtomUnlock? && call.id == id)
    || (call.AtomUndoUnlock? && call.id == id)
  }

  lemma OtherPendingKeys(id: string, other: string, user: string)
    ensures PendingKey(id) !in {KEY_META, KEY_LOCK_TOTAL, KEY_BRIDGE_META, AccountKey(user), BookingKey(user), LockKey(other)}
    ensures PendingKey(id) == PendingKey(other) <==> id == other
  {
    KeysDistinct(id, user);
    KeysDistinct(other, user);
    KeysInjective(id, other);
  }

  lemma HotelSparesPending(env: Env, l: Ledger, i: string, rooms: u64, timeout: u64, id: string)
    ensures var tx := Hotel.Lock(env, l, l, i, rooms, timeout);
            tx.Committed? ==> PendingAt(tx.ledger, id) == PendingAt(l, id)
    ensures var tx := Hotel.Release(l, l, i);
            tx.Committed? ==> PendingAt(tx.ledger, id) == PendingAt(l, id)
  {
    OtherPendingKeys(id, i, "");
  }

  lemma BookSparesPending(seen: Ledger, draft: Ledger, user: string, num: u64, id: string)
    ensures var tx := Hotel.Book(seen, draft, user, num);
            tx.Committed? ==> PendingAt(tx.ledger, id) == PendingAt(draft, id)
  {
    OtherPendingKeys(id, "", user);
  }

  lemma ReleaseAndBookSparesPending(env: Env, l: Ledger, i: string, user: string, num: u64, id: string)
    requires i != id
    ensures var tx := Bridge.ReleaseAndBook(env, l, l, i, user, num);
            tx.Committed? ==> PendingAt(tx.ledger, id) == PendingAt(l, id)
  {
    OtherPendingKeys(id, i, user);
    HotelSparesPending(env, l, i, 0, 0, id);
    var tx := Hotel.Unlock(env, l, l, i);
    if tx.Committed? {
      BookSparesPending(if env.ownWrites then tx.ledger else l, tx.ledger, user, num, id);
    }
  }

  lemma PlainCallsSparePending(env: Env, l: Ledger, call: Call, id: string)
    requires Effect(env, l, call).Some?
    requires !call.GPACTSegment? && !call.AtomLockDo? && !call.GPACTSignalling? && !call.AtomUnlock? && !call.AtomUndoUnlock?
    ensures PendingAt(Effect(env, l, call).value, id) == PendingAt(l, id)
  {
    OtherPendingKeys(id, "", "");
    match call
    case BookLocal(user, num) => BookSparesPending(l, l, user, num, id);
    case LockState(i, num, timeout) => HotelSparesPending(env, l, i, num, timeout, id);
    case ReceiveLockRequest(i, num, timeout) => HotelSparesPending(env, l, i, num, timeout, id);
    case UpdateState(i, _, user, _, _) => HotelSparesPending(env, l, i, 0, 0, id); OtherPendingKeys(id, i, user);
    case ReceiveUpdateRequest(i, _, user, _, _) => HotelSparesPending(env, l, i, 0, 0, id); OtherPendingKeys(id, i, user);
    case UnlockState(i) => HotelSparesPending(env, l, i, 0, 0, id);
    case UnlockOnTimeout(i) => HotelSparesPending(env, l, i, 0, 0, id);
    case ReceiveRollbackRequest(i) => HotelSparesPending(env, l, i, 0, 0, id);
    case ReceiveTimeoutRollback(i) => HotelSparesPending(env, l, i, 0, 0, id);
    case _ =>
  }

  lemma RecordedCallsSparePending(env: Env, l: Ledger, call: Call, id: string)
    requires Effect(env, l, call).Some? && !TouchesPending(call, id)
    requires call.GPACTSegment? || call.AtomLockDo? || call.GPACTSignalling? || call.AtomUnlock? || call.AtomUndoUnlock?
    ensures PendingAt(Effect(env, l, call).value, id) == PendingAt(l, id)
  {
    OtherPendingKeys(id, call.id, "");
    match call
    case GPACTSegment(i) => HotelSparesPending(env, l, i, Bridge.GPACT_ROOMS, Bridge.GPACT_TIMEOUT, id);
    case AtomLockDo(i, _, _, a, b) => HotelSparesPending(env, l, i, Bridge.AtomAmount(a, b), Bridge.ATOM_TIMEOUT, id);
    case GPACTSignalling(i, commit, abort) =>
      if commit && !abort {
        var op := PendingAt(l, i).value;
        ReleaseAndBookSparesPending(env, l, i, op.user, op.amountA, id);
      } else {
        HotelSparesPending(env, l, i, 0, 0, id);
      }
    case AtomUnlock(i) =>
      var op := PendingAt(l, i).value;
      ReleaseAndBookSparesPending(env, l, i, op.user, PendingRooms(op), id);
    case AtomUndoUnlock(i) => HotelSparesPending(env, l, i, 0, 0, id);
  }

  /** A recorded lock stands by with an operation for exactly the rooms it locked. */
  lemma RecordedLockPrepares(env: Env, l: Ledger, price: nat, rooms: nat, id: string, timeout: u64, op: Cell)
    requires Inv(l, price, rooms) && id != "TOTAL" && op.PendingOp? && op.pendingActive && PendingRooms(op) > 0
    ensures var tx := Bridge.LockAndRecord(env, l, l, id, PendingRooms(op), timeout, op);
            tx.Committed? ==> PreparedId(tx.ledger, id, price)
  {
    if Hotel.Lock(env, l, l, id, PendingRooms(op), timeout).Committed? {
      var amount, total := LockedAmounts(env, l, price, rooms, id, PendingRooms(op), timeout);
      RecordFollowsLock(env, l, price, id, timeout, amount, total, op);
    }
  }

  lemma LockedAmounts(env: Env, l: Ledger, price: nat, rooms: nat, id: string, num: u64, timeout: u64)
      returns (amount: u64, total: u64)
    requires Inv(l, price, rooms) && num > 0 && id != "TOTAL" && Hotel.Lock(env, l, l, id, num, timeout).Committed?
    ensures amount == price * num
    ensures Hotel.Lock(env, l, l, id, num, timeout).ledger
            == l[LockKey(id) := LockEntry(amount, env.now, timeout, true)][KEY_LOCK_TOTAL := Num(total)]
  {
    LockShape(env, l, price, rooms, id, num, timeout);
    KeysDistinct(id, "");
    var after := Hotel.Lock(env, l, l, id, num, timeout).ledger;
    amount, total := after[LockKey(id)].lockedAmount, after[KEY_LOCK_TOTAL].v;
  }

  lemma RecordFollowsLock(env: Env, l: Ledger, price: nat, id: string, timeout: u64, amount: u64, total: u64, op: Cell)
    requires id != "TOTAL" && op.PendingOp? && op.pendingActive && PendingRooms(op) > 0
    requires amount == price * PendingRooms(op)
    requires var tx := Hotel.Lock(env, l, l, id, PendingRooms(op), timeout);
             tx.Committed? && tx.ledger == l[LockKey(id) := LockEntry(amount, env.now, timeout, true)][KEY_LOCK_TOTAL := Num(total)]
    ensures var tx := Bridge.LockAndRecord(env, l, l, id, PendingRooms(op), timeout, op);
            tx.Committed? ==> PreparedId(tx.ledger, id, price)
  {
    RecordPrepares(l, id, LockEntry(amount, env.now, timeout, true), Num(total), op, price);
  }

  lemma RecordPrepares(l: Ledger, id: string, entry: Cell, total: Cell, op: Cell, price: nat)
    requires id != "TOTAL" && op.PendingOp? && op.pendingActive && PendingRooms(op) > 0
    requires entry.LockEntry? && entry.active && entry.lockedAmount == price * PendingRooms(op)
    ensures PreparedId(l[LockKey(id) := entry][KEY_LOCK_TOTAL := total][PendingKey(id) := op], id, price)
  {
    OtherPendingKeys(id, id, "");
    KeysDistinct(id, "");
  }

  lemma StepKeepsPreparedId(l: Ledger, s: Step, bridged: set<string>, price: nat, rooms: nat, id: string)
    requires Inv(l, price, rooms) && Disciplined(l, s, bridged, price)
    requires id in bridged && id != "TOTAL" && PreparedId(l, id, price)
    ensures PreparedId(Next(l, s), id, price)
  {
    var (env, call) := (s.env, s.call);
    if Effect(env, l, call).Some? {
      LockLife(env, l, call, id);
      if call == GPACTSegment(id) {
        RecordedLockPrepares(env, l, price, rooms, id, Bridge.GPACT_TIMEOUT, Bridge.SegmentOp(env));
      } else if call.AtomLockDo? && call.id == id {
        RecordedLockPrepares(env, l, price, rooms, id, Bridge.ATOM_TIMEOUT, PendingOp(call.amountA, call.amountB, call.kind, call.user, true));
      } else if !TouchesPending(call, id) {
        if call.GPACTSegment? || call.AtomLockDo? || call.GPACTSignalling? || call.AtomUnlock? || call.AtomUndoUnlock? {
          RecordedCallsSparePending(env, l, call, id);
        } else {
          PlainCallsSparePending(env, l, call, id);
        }
      }
    }
  }

  // ---------------------------------------------------------------- runs

  /** The ledger right after the hotel is initialised on an empty one. */
  function Fresh(bridge: Name, price: u64, rooms: u64, lockSize: u64): Ledger {
    map[KEY_LOCK_TOTAL := Num(0)][KEY_META := Meta(bridge, price, rooms, if lockSize == 0 then 1 else lockSize)]
  }

  lemma FreshIsSound(bridge: Name, price: u64, rooms: u64, lockSize: u64)
    requires price > 0 && price * rooms < TWO64
    ensures var l := Fresh(bridge, price, rooms, lockSize);
            && Hotel.Init(map[], bridge, price, rooms, lockSize) == Hotel.Committed((), l)
            && Inv(l, price, rooms) && Balanced(l, price)
            && forall id :: LockAt(l, id) == None
  {
    var l0: Ledger := map[];
    var l1 := l0[KEY_LOCK_TOTAL := Num(0)];
    KeyWeights("", "");
    Put(l0, KEY_LOCK_TOTAL, Num(0));
    PutOther(l1, KEY_META, Meta(bridge, price, rooms, if lockSize == 0 then 1 else lockSize));
    NoWeight(l1, KEY_META);
    Multiple(price, 0);
    forall id ensures LockKey(id) != KEY_META {
      KeysDistinct(id, "");
    }
  }

  ghost predicate FairCharges(steps: seq<Step>, price: nat) {
    forall i | 0 <= i < |steps| :: FairCharge(steps[i].call, price)
  }

  lemma {:induction false} RunKeeps(l: Ledger, steps: seq<Step>, bridged: set<string>, price: nat, rooms: nat)
    requires "TOTAL" !in bridged
    requires Inv(l, price, rooms) && Prepared(l, bridged, price) && DisciplinedRun(l, steps, bridged, price)
    ensures Keeps(l, Run(l, steps), price, rooms, FairCharges(steps, price))
    ensures Prepared(Run(l, steps), bridged, price)
  {
    if steps != [] {
      var before, last := steps[..|steps| - 1], steps[|steps| - 1];
      RunKeeps(l, before, bridged, price, rooms);
      var m := Run(l, before);
      StepKeeps(m, last, bridged, price, rooms);
      forall id | id in bridged ensures PreparedId(Next(m, last), id, price) {
        StepKeepsPreparedId(m, last, bridged, price, rooms, id);
      }
      KeepsTrans(l, m, Next(m, last), price, rooms, FairCharges(before, price), FairCharge(last.call, price));
    }
  }

  /** MAIN RESULT.  Over any disciplined run of any calls of the hotel and the bridge, no room is
      lost or sold twice, every booked room was charged at the price, the lock total is the sum of
      the active locks, and the locked value never exceeds the value of the rooms that are left. */
  lemma RoomsAndChargesAreConserved(bridge: Name, price: u64, rooms: u64, lockSize: u64, steps: seq<Step>, bridged: set<string>)
    requires price > 0 && price * rooms < TWO64 && "TOTAL" !in bridged
    requires DisciplinedRun(Fresh(bridge, price, rooms, lockSize), steps, bridged, price)
    ensures var l := Run(Fresh(bridge, price, rooms, lockSize), steps);
            && MetaAt(l).Some? && MetaAt(l).value.price == price
            && Booked(l) + Remain(l) == rooms
            && (FairCharges(steps, price) ==> Charged(l) == price * Booked(l))
            && NumAt(l, KEY_LOCK_TOTAL) == Some(Locked(l))
            && Locked(l) <= price * Remain(l)
  {
    var l0 := Fresh(bridge, price, rooms, lockSize);
    FreshIsSound(bridge, price, rooms, lockSize);
    RunKeeps(l0, steps, bridged, price, rooms);
  }

  /** `num` rooms more for `user`, at the full price, computed without any bound. */
  ghost predicate BooksExactly(l: Ledger, l': Ledger, user: string, num: nat, price: nat) {
    && MetaAt(l).Some? && MetaAt(l').Some? && Remain(l') + num == Remain(l)
    && NumOrZero(l', AccountKey(user)) == NumOrZero(l, AccountKey(user)) + price * num
    && NumOrZero(l', BookingKey(user)) == NumOrZero(l, BookingKey(user)) + num
  }

  ghost predicate LocksExactly(l: Ledger, l': Ledger, id: string, num: nat, price: nat) {
    && LockAt(l', id).Some? && LockAt(l', id).value.lockedAmount == price * num
    && NumOrZero(l', KEY_LOCK_TOTAL) == NumOrZero(l, KEY_LOCK_TOTAL) + price * num
  }

  ghost predicate ReleasesExactly(l: Ledger, l': Ledger, id: string) {
    && LockAt(l, id).Some?
    && NumOrZero(l', KEY_LOCK_TOTAL) + LockAt(l, id).value.lockedAmount == NumOrZero(l, KEY_LOCK_TOTAL)
  }

  /** Bookings, locks, releases, commits and fair updates leave the amounts that unbounded
      arithmetic gives. */
  ghost predicate Exact(env: Env, l: Ledger, price: nat) {
    && (forall user, num: u64 ::
          var tx := Hotel.Book(l, l, user, num);
          tx.Committed? ==> tx.value == price * num && BooksExactly(l, tx.ledger, user, num, price))
    && (forall id, num: u64, timeout: u64 | id != "TOTAL" && num > 0 ::
          var tx := Hotel.Lock(env, l, l, id, num, timeout);
          tx.Committed? ==> LocksExactly(l, tx.ledger, id, num, price))
    && (forall id ::
          var tx := Hotel.Release(l, l, id);
          tx.Committed? ==> ReleasesExactly(l, tx.ledger, id))
    && (forall id, user, num: u64 ::
          var tx := Bridge.ReleaseAndBook(env, l, l, id, user, num);
          tx.Committed? ==> ReleasesExactly(l, tx.ledger, id) && BooksExactly(l, tx.ledger, user, num, price))
    && (forall id, newRemain: u64, user, num: u64, cost: u64 | FairUpdate(l, id, newRemain, num, price) && cost == price * num ::
          var tx := Hotel.Update(env, l, l, id, newRemain, user, num, cost);
          tx.Committed? ==> ReleasesExactly(l, tx.ledger, id) && BooksExactly(l, tx.ledger, user, num, price))
  }

  lemma RecordIsExact(l: Ledger, price: nat, rooms: nat, user: string, cost: u64, num: u64)
    requires Bookable(l, price, rooms, num) && Balanced(l, price) && cost == price * num
    ensures BooksExactly(l, Recorded(l, user, cost, num), user, num, price)
    ensures NumOrZero(Recorded(l, user, cost, num), KEY_LOCK_TOTAL) == NumOrZero(l, KEY_LOCK_TOTAL)
  {
    RecordKeeps(l, price, rooms, user, cost, num);
    ChargeDoesNotWrap(l, price, rooms, user, num);
    RecordFrame(l, l, l[KEY_META].(remain := Remain(l) - num), user, cost, num, price);
  }

  /** With balanced books no user's charge for rooms that are left passes the 64-bit range. */
  lemma ChargeDoesNotWrap(l: Ledger, price: nat, rooms: nat, user: string, num: nat)
    requires Inv(l, price, rooms) && Balanced(l, price) && num <= Remain(l)
    ensures NumOrZero(l, AccountKey(user)) + price * num < TWO64
  {
    BalancesBounded(l, user);
    ChargeFits(price, Booked(l), Remain(l), rooms, num);
  }

  lemma BookIsExact(l: Ledger, price: nat, rooms: nat, user: string, num: u64)
    requires Inv(l, price, rooms) && Balanced(l, price)
    ensures var tx := Hotel.Book(l, l, user, num);
            tx.Committed? ==> tx.value == price * num && BooksExactly(l, tx.ledger, user, num, price)
  {
    BookRecords(l, price, rooms, user, num);
    if Hotel.Book(l, l, user, num).Committed? {
      RecordIsExact(l, price, rooms, user, price * num, num);
    }
  }

  lemma LockIsExact(env: Env, l: Ledger, price: nat, rooms: nat, id: string, num: u64, timeout: u64)
    requires Inv(l, price, rooms) && id != "TOTAL" && num > 0
    ensures var tx := Hotel.Lock(env, l, l, id, num, timeout);
            tx.Committed? ==> LocksExactly(l, tx.ledger, id, num, price)
  {
    LockShape(env, l, price, rooms, id, num, timeout);
    KeysDistinct(id, "");
  }

  lemma ReleaseIsExact(l: Ledger, price: nat, rooms: nat, id: string)
    requires Inv(l, price, rooms)
    ensures var tx := Hotel.Release(l, l, id);
            tx.Committed? ==> ReleasesExactly(l, tx.ledger, id)
  {
    ReleaseShape(l, price, rooms, id);
    KeysDistinct(id, "");
  }

  /** Releasing and then booking is exact if each of the two is. */
  lemma ReleaseThenRecord(l: Ledger, price: nat, rooms: nat, id: string, user: string, cost: u64, num: u64)
    requires Inv(l, price, rooms) && Balanced(l, price) && cost == price * num && Hotel.Release(l, l, id).Committed?
    requires Bookable(Hotel.Release(l, l, id).ledger, price, rooms, num)
    ensures var r := Recorded(Hotel.Release(l, l, id).ledger, user, cost, num);
            && ReleasesExactly(l, r, id) && BooksExactly(l, r, user, num, price)
            && ReleasesExactly(l, r - {PendingKey(id)}, id) && BooksExactly(l, r - {PendingKey(id)}, user, num, price)
  {
    ReleaseKeepsInv(l, price, rooms, id);
    ReleaseIsExact(l, price, rooms, id);
    var d := Hotel.Release(l, l, id).ledger;
    RecordIsExact(d, price, rooms, user, cost, num);
    OtherPendingKeys(id, id, user);
  }

  lemma CommitIsExact(env: Env, l: Ledger, price: nat, rooms: nat, id: string, user: string, num: u64)
    requires Inv(l, price, rooms) && Balanced(l, price)
    ensures var tx := Bridge.ReleaseAndBook(env, l, l, id, user, num);
            tx.Committed? ==> ReleasesExactly(l, tx.ledger, id) && BooksExactly(l, tx.ledger, user, num, price)
  {
    var cost := CommitRecords(env, l, price, rooms, id, user, num);
    if Bridge.ReleaseAndBook(env, l, l, id, user, num).Committed? {
      ReleaseThenRecord(l, price, rooms, id, user, cost, num);
    }
  }

  lemma UpdateIsExact(env: Env, l: Ledger, price: nat, rooms: nat, id: string, newRemain: u64, user: string, num: u64, cost: u64)
    requires Inv(l, price, rooms) && Balanced(l, price) && FairUpdate(l, id, newRemain, num, price) && cost == price * num
    ensures var tx := Hotel.Update(env, l, l, id, newRemain, user, num, cost);
            tx.Committed? ==> ReleasesExactly(l, tx.ledger, id) && BooksExactly(l, tx.ledger, user, num, price)
  {
    UpdateRecords(env, l, price, rooms, id, newRemain, user, num, cost);
    if Hotel.Update(env, l, l, id, newRemain, user, num, cost).Committed? {
      ReleaseThenRecord(l, price, rooms, id, user, cost, num);
    }
  }

  /** MAIN RESULT.  In every ledger reachable by a disciplined run with fair charges, under either
      reading, no 64-bit operation of a booking, a lock, a release, a commit or a fair update wraps
      around, and the clamp of a release never acts. */
  lemma NoAmountWraps(bridge: Name, price: u64, rooms: u64, lockSize: u64, steps: seq<Step>, bridged: set<string>, env: Env)
    requires price > 0 && price * rooms < TWO64 && "TOTAL" !in bridged
    requires DisciplinedRun(Fresh(bridge, price, rooms, lockSize), steps, bridged, price) && FairCharges(steps, price)
    ensures Exact(env, Run(Fresh(bridge, price, rooms, lockSize), steps), price)
  {
    var l0 := Fresh(bridge, price, rooms, lockSize);
    FreshIsSound(bridge, price, rooms, lockSize);
    RunKeeps(l0, steps, bridged, price, rooms);
    AllExact(env, Run(l0, steps), price, rooms);
  }

  lemma AllExact(env: Env, l: Ledger, price: nat, rooms: nat)
    requires Inv(l, price, rooms) && Balanced(l, price)
    ensures Exact(env, l, price)
  {
    forall user, num: u64
      ensures var tx := Hotel.Book(l, l, user, num);
              tx.Committed? ==> tx.value == price * num && BooksExactly(l, tx.ledger, user, num, price) {
      BookIsExact(l, price, rooms, user, num);
    }
    forall id, num: u64, timeout: u64 | id != "TOTAL" && num > 0
      ensures var tx := Hotel.Lock(env, l, l, id, num, timeout);
              tx.Committed? ==> LocksExactly(l, tx.ledger, id, num, price) {
      LockIsExact(env, l, price, rooms, id, num, timeout);
    }
    forall id
      ensures var tx := Hotel.Release(l, l, id);
              tx.Committed? ==> ReleasesExactly(l, tx.ledger, id) {
      ReleaseIsExact(l, price, rooms, id);
    }
    forall id, user, num: u64
      ensures var tx := Bridge.ReleaseAndBook(env, l, l, id, user, num);
              tx.Committed? ==> ReleasesExactly(l, tx.ledger, id) && BooksExactly(l, tx.ledger, user, num, price) {
      CommitIsExact(env, l, price, rooms, id, user, num);
    }
    forall id, newRemain: u64, user, num: u64, cost: u64 | FairUpdate(l, id, newRemain, num, price) && cost == price * num
      ensures var tx := Hotel.Update(env, l, l, id, newRemain, user, num, cost);
              tx.Committed? ==> ReleasesExactly(l, tx.ledger, id) && BooksExactly(l, tx.ledger, user, num, price) {
      UpdateIsExact(env, l, price, rooms, id, newRemain, user, num, cost);
    }
  }

  // ---------------------------------------------------------------- commits

  /** The caller is both the relayer of the bridge and the bridge of the hotel. */
  predicate Authorised(env: Env, l: Ledger) {
    && KEY_BRIDGE_META in l && l[KEY_BRIDGE_META].BridgeMeta? && env.msp == l[KEY_BRIDGE_META].relayerMSP
    && KEY_META in l && l[KEY_META].Meta? && env.msp == l[KEY_META].bridge
  }

  /** `l'` is `l` with the lock and the pending operation of `id` turned into a booking of `num` rooms
      for `user` at `cost`; no other cell differs. */
  ghost predicate BooksLock(l: Ledger, l': Option<Ledger>, id: string, user: string, num: u64, cost: nat) {
    && l'.Some? && MetaAt(l).Some? && LockAt(l, id).Some? && num <= Remain(l) && cost < TWO64
    && MetaAt(l'.value) == Some(l[KEY_META].(remain := Remain(l) - num))
    && NumOrZero(l'.value, BookingKey(user)) == NumOrZero(l, BookingKey(user)) + num
    && NumOrZero(l'.value, AccountKey(user)) == Add64(NumOrZero(l, AccountKey(user)), cost)
    && NumOrZero(l'.value, KEY_LOCK_TOTAL) + LockAt(l, id).value.lockedAmount == NumOrZero(l, KEY_LOCK_TOTAL)
    && LockAt(l'.value, id) == None && PendingAt(l'.value, id) == None
    && (forall k | k !in CommitKeys(id, user) :: SameCell(l, l'.value, k))
  }

  function CommitKeys(id: string, user: string): set<string> {
    {KEY_META, KEY_LOCK_TOTAL, AccountKey(user), BookingKey(user), LockKey(id), PendingKey(id)}
  }

  predicate SameCell(l: Ledger, l': Ledger, k: string) {
    (k in l' <==> k in l) && (k in l ==> l'[k] == l[k])
  }

  /** Cell by cell, what a release followed by a record writes. */
  lemma CommitWrites(l: Ledger, id: string, user: string, total: u64, num: u64, cost: u64)
    requires id != "TOTAL" && MetaAt(l).Some? && LockAt(l, id).Some? && num <= Remain(l)
    requires total + LockAt(l, id).value.lockedAmount == NumOrZero(l, KEY_LOCK_TOTAL)
    requires NumOrZero(l, BookingKey(user)) + num < TWO64
    ensures var d := l[KEY_LOCK_TOTAL := Num(total)] - {LockKey(id)};
            MetaAt(d) == MetaAt(l) && BooksLock(l, Some(Recorded(d, user, cost, num) - {PendingKey(id)}), id, user, num, cost)
  {
    KeysDistinct(id, user);
  }

  /** Rooms beside the other locks: as many are free once the lock of `id` is released. */
  predicate FreeBesideOthers(l: Ledger, id: string, num: u64)
    requires MetaAt(l).Some? && LockAt(l, id).Some?
  {
    var (price, remain) := (MetaAt(l).value.price, MetaAt(l).value.remain);
    num <= remain && NumOrZero(l, KEY_LOCK_TOTAL) - LockAt(l, id).value.lockedAmount + price * num <= price * remain
  }

  /** A release followed by a booking goes through exactly when the rooms are free beside the other
      locks, and then turns the lock into the booking. */
  lemma ReleasedRoomsBook(env: Env, l: Ledger, price: nat, rooms: nat, id: string, user: string, num: u64)
    requires Inv(l, price, rooms) && LockAt(l, id).Some?
    requires env.ownWrites && Hotel.BridgeError(env, l) == None
    ensures var commit := LedgerOf(Bridge.ReleaseAndBook(env, l, l, id, user, num));
            && (commit.Some? <==> num > 0 && FreeBesideOthers(l, id, num))
            && (commit.Some? ==> BooksLock(l, commit, id, user, num, price * num))
  {
    var d := Hotel.Release(l, l, id).ledger;
    ReleaseShape(l, price, rooms, id);
    FreeOnceReleased(l, price, rooms, id, num);
    BookRecords(d, price, rooms, user, num);
    var tx := Hotel.Book(d, d, user, num);
    if tx.Committed? {
      BookingFits(l, price, rooms, user, num);
      CommitWrites(l, id, user, Locked(l) - LockAt(l, id).value.lockedAmount, num, tx.value);
    }
  }

  lemma FreeOnceReleased(l: Ledger, price: nat, rooms: nat, id: string, num: u64)
    requires Inv(l, price, rooms) && LockAt(l, id).Some?
    ensures var d := Hotel.Release(l, l, id).ledger;
            && id != "TOTAL" && Inv(d, price, rooms) && MetaAt(d) == MetaAt(l)
            && (Bookable(d, price, rooms, num) <==> FreeBesideOthers(l, id, num))
  {
    KeysDistinct(id, "");
    ReleaseKeepsInv(l, price, rooms, id);
  }

  lemma BookingFits(l: Ledger, price: nat, rooms: nat, user: string, num: u64)
    requires Inv(l, price, rooms) && num <= Remain(l)
    ensures NumOrZero(l, BookingKey(user)) + num < TWO64
  {
    BalancesBounded(l, user);
    RoomsFit(price, rooms);
  }

  /** A lock whose value covers `num` rooms can be turned into their booking. */
  lemma LockedValueCanBeBooked(env: Env, l: Ledger, price: nat, rooms: nat, id: string, user: string, num: u64)
    requires Inv(l, price, rooms) && env.ownWrites && Hotel.BridgeError(env, l) == None
    requires LockAt(l, id).Some? && price * num <= LockAt(l, id).value.lockedAmount && num > 0
    ensures BooksLock(l, LedgerOf(Bridge.ReleaseAndBook(env, l, l, id, user, num)), id, user, num, price * num)
  {
    LockedRoomsExist(l, price, rooms, id, num);
    ReleasedRoomsBook(env, l, price, rooms, id, user, num);
  }

  /** The rooms a lock covers are free beside the other locks. */
  lemma LockedRoomsExist(l: Ledger, price: nat, rooms: nat, id: string, num: u64)
    requires Inv(l, price, rooms) && LockAt(l, id).Some? && price * num <= LockAt(l, id).value.lockedAmount
    ensures FreeBesideOthers(l, id, num)
  {
    ReleaseShape(l, price, rooms, id);
    CancelOrMono(price, num, Remain(l));
  }

  /** Either commit releases the lock and books the rooms of the pending operation, except that a
      GPACT commit of an operation without a first amount would book no room, and fails. */
  lemma CommitEffects(env: Env, l: Ledger, id: string)
    requires Bridge.RelayerError(env, l) == None && PendingAt(l, id).Some?
    ensures var op := PendingAt(l, id).value;
            var commit := LedgerOf(Bridge.ReleaseAndBook(env, l, l, id, op.user, PendingRooms(op)));
            && Effect(env, l, AtomUnlock(id)) == commit
            && Effect(env, l, GPACTSignalling(id, true, false)) == if op.amountA != 0 then commit else None
  {
  }

  /** The pending operation of `id` is for exactly the locked rooms, and the commit of either protocol
      books them: ATOM's always, GPACT's exactly when the operation has a first amount, as every
      operation of a GPACT segment has. */
  ghost predicate CommitsItsLock(env: Env, l: Ledger, price: nat, id: string) {
    && PendingAt(l, id).Some? && LockAt(l, id).Some?
    && var op := PendingAt(l, id).value;
       var (num, cost) := (PendingRooms(op), LockAt(l, id).value.lockedAmount);
    && num > 0 && cost == price * num
    && BooksLock(l, Effect(env, l, AtomUnlock(id)), id, op.user, num, cost)
    && (if op.amountA != 0 then BooksLock(l, Effect(env, l, GPACTSignalling(id, true, false)), id, op.user, num, cost)
        else Effect(env, l, GPACTSignalling(id, true, false)) == None)
  }

  /** Under the invariants the commit of an active lock goes through if its caller is authorised and
      reads see the call's own writes. */
  lemma CommitGoesThrough(env: Env, l: Ledger, price: nat, rooms: nat, id: string)
    requires Inv(l, price, rooms) && PreparedId(l, id, price) && id != "TOTAL"
    requires env.ownWrites && Authorised(env, l) && LockAt(l, id).Some?
    ensures CommitsItsLock(env, l, price, id)
  {
    var op := PendingAt(l, id).value;
    CommitEffects(env, l, id);
    LockedValueCanBeBooked(env, l, price, rooms, id, op.user, PendingRooms(op));
  }

  /** MAIN RESULT.  In every ledger reachable by a disciplined run, whatever its steps could read, an
      operation whose lock is still active can be committed by the authorised caller if reads see the
      call's own writes, and the commit books exactly the locked rooms.  With fair charges the
      user's account does not wrap around either. */
  lemma PreparedCanAlwaysCommit(bridge: Name, price: u64, rooms: u64, lockSize: u64, steps: seq<Step>,
                                bridged: set<string>, env: Env, id: string)
    requires price > 0 && price * rooms < TWO64 && "TOTAL" !in bridged
    requires DisciplinedRun(Fresh(bridge, price, rooms, lockSize), steps, bridged, price)
    requires var l := Run(Fresh(bridge, price, rooms, lockSize), steps);
             env.ownWrites && Authorised(env, l) && id in bridged && LockAt(l, id).Some?
    ensures var l := Run(Fresh(bridge, price, rooms, lockSize), steps);
            && CommitsItsLock(env, l, price, id)
            && (FairCharges(steps, price) ==>
                  NumOrZero(l, AccountKey(PendingAt(l, id).value.user)) + LockAt(l, id).value.lockedAmount < TWO64)
  {
    var l0 := Fresh(bridge, price, rooms, lockSize);
    FreshIsSound(bridge, price, rooms, lockSize);
    RunKeeps(l0, steps, bridged, price, rooms);
    var l := Run(l0, steps);
    assert PreparedId(l, id, price);
    CommitGoesThrough(env, l, price, rooms, id);
    if FairCharges(steps, price) {
      var op := PendingAt(l, id).value;
      LockedRoomsExist(l, price, rooms, id, PendingRooms(op));
      ChargeDoesNotWrap(l, price, rooms, op.user, PendingRooms(op));
    }
  }
}
