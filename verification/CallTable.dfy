/** Every call of the participant in one flat table: who may make it, when it is refused and why, and
    which cells it writes, in plain ledger keys and plain arithmetic.  The layered specifications of
    the chaincodes amount to this table, in every ledger and under either reading. */
module CallTable {
  import opened Prelude
  import opened FabricLedger
  import opened Participant
  import opened ParticipantRuns
  import Hotel = HotelBooking
  import Bridge = XBridge
  import Export

  type Answer = Result<Ledger, Hotel.Error>

  // ---------------------------------------------------------------- what the cells say

  predicate HotelUp(l: Ledger) { "META" in l && l["META"].Meta? }

  predicate BridgeUp(l: Ledger) { "XBRIDGE_META" in l && l["XBRIDGE_META"].BridgeMeta? }

  predicate IsBridge(env: Env, l: Ledger) { HotelUp(l) && env.msp == l["META"].bridge }

  predicate IsRelayer(env: Env, l: Ledger) { BridgeUp(l) && env.msp == l["XBRIDGE_META"].relayerMSP }

  predicate ActiveLock(l: Ledger, id: string) {
    "LOCK_" + id in l && l["LOCK_" + id].LockEntry? && l["LOCK_" + id].active
  }

  predicate ActivePending(l: Ledger, id: string) {
    "XBRIDGE_PENDING_" + id in l && l["XBRIDGE_PENDING_" + id].PendingOp? && l["XBRIDGE_PENDING_" + id].pendingActive
  }

  function NumberAt(l: Ledger, key: string): nat {
    if key in l && l[key].Num? then l[key].v else 0
  }

  /** The rooms left beside those that `locked` pays for, possibly fewer than none. */
  function RoomsFree(l: Ledger, locked: nat): int
    requires HotelUp(l) && l["META"].price > 0
  {
    l["META"].remain - locked / l["META"].price
  }

  // ---------------------------------------------------------------- the table

  /** A booking that finds `locked` in the lock total, written into `draft`. */
  function Booking(l: Ledger, draft: Ledger, locked: nat, user: string, num: u64): Answer {
    if num == 0 then Err(Hotel.ZeroAmount)
    else if !HotelUp(l) then Err(Hotel.NotInitialised)
    else if l["META"].price == 0 then Err(Hotel.DivideByZero)
    else if num > RoomsFree(l, locked) then Err(Hotel.InsufficientRooms)
    else Ok(draft["META" := l["META"].(remain := l["META"].remain - num)]
                 ["ACCOUNT_" + user := Num((NumberAt(l, "ACCOUNT_" + user) + (l["META"].price * num) % TWO64) % TWO64)]
                 ["BOOKING_" + user := Num((NumberAt(l, "BOOKING_" + user) + num) % TWO64)])
  }

  function Reserving(env: Env, l: Ledger, id: string, rooms: u64, timeout: u64): Answer {
    if !HotelUp(l) then Err(Hotel.NotInitialised)
    else if env.msp != l["META"].bridge then Err(Hotel.NotBridge)
    else if ActiveLock(l, id) then Err(Hotel.AlreadyLocked)
    else if l["META"].price == 0 then Err(Hotel.DivideByZero)
    else if rooms > 0 && rooms > RoomsFree(l, NumberAt(l, "LOCK_TOTAL")) then Err(Hotel.InsufficientRooms)
    else
      var amount := ((if rooms > 0 then rooms else l["META"].lockSize) * l["META"].price) % TWO64;
      var total := if env.ownWrites && id == "TOTAL" then 0 else NumberAt(l, "LOCK_TOTAL");
      Ok(l["LOCK_" + id := LockEntry(amount, env.now, timeout, true)]["LOCK_TOTAL" := Num((total + amount) % TWO64)])
  }

  /** A lock replies with the exported state; if that cannot be read, the lock is not taken. */
  function Locking(env: Env, l: Ledger, id: string, rooms: u64, timeout: u64): Answer {
    var reserved := Reserving(env, l, id, rooms, timeout);
    if reserved.Ok? && !env.ownWrites && "LOCK_TOTAL" in l && !l["LOCK_TOTAL"].Num? then Err(Hotel.BadNumber)
    else reserved
  }

  /** The lock total without the lock of `id`, but not below zero. */
  function TotalWithout(l: Ledger, id: string): nat
    requires ActiveLock(l, id)
  {
    var (total, amount) := (NumberAt(l, "LOCK_TOTAL"), l["LOCK_" + id].lockedAmount);
    if amount > total then 0 else total - amount
  }

  function Unlocked(l: Ledger, id: string): Ledger
    requires ActiveLock(l, id)
  {
    l["LOCK_TOTAL" := Num(TotalWithout(l, id))] - {"LOCK_" + id}
  }

  function Unlocking(env: Env, l: Ledger, id: string): Answer {
    if !HotelUp(l) then Err(Hotel.NotInitialised)
    else if env.msp != l["META"].bridge then Err(Hotel.NotBridge)
    else if !ActiveLock(l, id) then Err(Hotel.NotLocked)
    else Ok(Unlocked(l, id))
  }

  function TimingOut(env: Env, l: Ledger, id: string): Answer {
    if !ActiveLock(l, id) then Err(Hotel.NotLocked)
    else if env.now <= (l["LOCK_" + id].lockBlock + l["LOCK_" + id].timeoutBlocks) % TWO64 then Err(Hotel.NotTimedOut)
    else Ok(Unlocked(l, id))
  }

  function Updating(env: Env, l: Ledger, id: string, newRemain: u64, user: string, num: u64, cost: u64): Answer {
    var freed := Unlocking(env, l, id);
    if freed.Err? then freed
    else Ok(freed.value["META" := l["META"].(remain := newRemain)]
                       ["ACCOUNT_" + user := Num((NumberAt(l, "ACCOUNT_" + user) + cost) % TWO64)]
                       ["BOOKING_" + user := Num((NumberAt(l, "BOOKING_" + user) + num) % TWO64)])
  }

  /** A call that only the relayer may make. */
  function ByRelayer(env: Env, l: Ledger, answer: Answer): Answer {
    if !BridgeUp(l) then Err(Hotel.NotInitialised)
    else if env.msp != l["XBRIDGE_META"].relayerMSP then Err(Hotel.NotRelayer)
    else answer
  }

  function Recording(answer: Answer, id: string, op: Cell): Answer {
    if answer.Err? then answer else Ok(answer.value["XBRIDGE_PENDING_" + id := op])
  }

  function Forgetting(answer: Answer, id: string): Answer {
    if answer.Err? then answer else Ok(answer.value - {"XBRIDGE_PENDING_" + id})
  }

  /** Release and booking in one transaction; only own writes let the booking see the release. */
  function Committing(env: Env, l: Ledger, id: string, user: string, rooms: u64): Answer {
    var freed := Unlocking(env, l, id);
    if freed.Err? then freed
    else
      Forgetting(Booking(l, freed.value, if env.ownWrites then TotalWithout(l, id) else NumberAt(l, "LOCK_TOTAL"), user, rooms), id)
  }

  function FirstNonZero(a: u64, b: u64): u64 { if a == 0 then b else a }

  function Table(env: Env, l: Ledger, call: Call): Answer {
    match call
    case HotelInit(bridge, price, remain, lockSize) =>
      if price == 0 then Err(Hotel.ZeroPrice)
      else Ok(l["LOCK_TOTAL" := Num(0)]["META" := Meta(bridge, price, remain, if lockSize == 0 then 1 else lockSize)])
    case BookLocal(user, num) => Booking(l, l, NumberAt(l, "LOCK_TOTAL"), user, num)
    case LockState(id, rooms, timeout) => Locking(env, l, id, rooms, timeout)
    case UpdateState(id, newRemain, user, num, cost) => Updating(env, l, id, newRemain, user, num, cost)
    case UnlockState(id) => Unlocking(env, l, id)
    case UnlockOnTimeout(id) => TimingOut(env, l, id)
    case SetBridge(bridge) =>
      if !HotelUp(l) then Err(Hotel.NotInitialised)
      else if env.msp != l["META"].bridge then Err(Hotel.NotBridge)
      else Ok(l["META" := l["META"].(bridge := bridge)])
    case BridgeInit(relayer, target) =>
      if relayer == [] then Err(Hotel.EmptyRelayer)
      else Ok(l["XBRIDGE_META" := BridgeMeta(relayer, if target == "" then "hotel_booking" else target)])
    case SetRelayerMSP(relayer) =>
      if !BridgeUp(l) then Err(Hotel.NotInitialised)
      else if env.msp != l["XBRIDGE_META"].relayerMSP then Err(Hotel.NotRelayer)
      else Ok(l["XBRIDGE_META" := l["XBRIDGE_META"].(relayerMSP := relayer)])
    case ReceiveLockRequest(id, rooms, timeout) => ByRelayer(env, l, Locking(env, l, id, rooms, timeout))
    case ReceiveUpdateRequest(id, newRemain, user, num, cost) => ByRelayer(env, l, Updating(env, l, id, newRemain, user, num, cost))
    case ReceiveRollbackRequest(id) => ByRelayer(env, l, Unlocking(env, l, id))
    case ReceiveTimeoutRollback(id) => ByRelayer(env, l, TimingOut(env, l, id))
    case GPACTSegment(id) =>
      var user := if env.clientId == "" then "fabric-relayer" else env.clientId;
      ByRelayer(env, l, Recording(Locking(env, l, id, 1, 30), id, PendingOp(1, 0, "hotel", user, true)))
    case GPACTSignalling(id, commit, abort) =>
      ByRelayer(env, l,
        if !commit || abort then Forgetting(Unlocking(env, l, id), id)
        else if !ActivePending(l, id) then Err(Hotel.NoPending)
        else Committing(env, l, id, l["XBRIDGE_PENDING_" + id].user, l["XBRIDGE_PENDING_" + id].amountA))
    case AtomLockDo(id, kind, user, a, b) =>
      ByRelayer(env, l,
        if a == 0 && b == 0 then Err(Hotel.ZeroAtomAmount)
        else Recording(Locking(env, l, id, FirstNonZero(a, b), 30), id, PendingOp(a, b, kind, user, true)))
    case AtomUnlock(id) =>
      ByRelayer(env, l,
        if !ActivePending(l, id) then Err(Hotel.NoPending)
        else
          var op := l["XBRIDGE_PENDING_" + id];
          Committing(env, l, id, op.user, FirstNonZero(op.amountA, op.amountB)))
    case AtomUndoUnlock(id) => ByRelayer(env, l, Forgetting(Unlocking(env, l, id), id))
  }

  // ---------------------------------------------------------------- the specifications amount to it

  function AnswerOf<T>(tx: Hotel.Tx<T>): Answer {
    match tx
    case Aborted(e) => Err(e)
    case Committed(_, l) => Ok(l)
  }

  lemma Keys(id: string, user: string)
    ensures KEY_META == "META" && KEY_LOCK_TOTAL == "LOCK_TOTAL" && KEY_BRIDGE_META == "XBRIDGE_META"
    ensures LockKey(id) == "LOCK_" + id && PendingKey(id) == "XBRIDGE_PENDING_" + id
    ensures AccountKey(user) == "ACCOUNT_" + user && BookingKey(user) == "BOOKING_" + user
    ensures AccountKey(user) !in {"META", BookingKey(user)} && BookingKey(user) != "META"
    ensures LockKey(id) == "LOCK_TOTAL" <==> id == "TOTAL"
  {
    KeysDistinct(id, user);
  }

  lemma Wraps(a: u64, b: u64)
    ensures Add64(a, b) == (a + b) % TWO64 && Mul64(a, b) == (a * b) % TWO64
  {
  }

  lemma AvailableTable(l: Ledger, num: u64)
    ensures Hotel.Available(l).Err? ==> Hotel.Available(l).error == if HotelUp(l) then Hotel.DivideByZero else Hotel.NotInitialised
    ensures Hotel.Available(l).Ok? <==> HotelUp(l) && l["META"].price > 0
    ensures Hotel.Available(l).Ok? ==>
              (num <= Hotel.Available(l).value <==> num == 0 || num <= RoomsFree(l, NumberAt(l, "LOCK_TOTAL")))
  {
  }

  lemma BookTable(seen: Ledger, draft: Ledger, user: string, num: u64)
    ensures AnswerOf(Hotel.Book(seen, draft, user, num)) == Booking(seen, draft, NumberAt(seen, "LOCK_TOTAL"), user, num)
    ensures var tx := Hotel.Book(seen, draft, user, num);
            tx.Committed? ==> HotelUp(seen) && tx.value == (seen["META"].price * num) % TWO64
  {
    Keys("", user);
    AvailableTable(seen, num);
    if HotelUp(seen) {
      Wraps(seen["META"].price, num);
      Wraps(NumOrZero(seen, AccountKey(user)), Mul64(seen["META"].price, num));
    }
    Wraps(NumOrZero(seen, BookingKey(user)), num);
  }

  lemma LockTable(env: Env, l: Ledger, id: string, rooms: u64, timeout: u64)
    ensures AnswerOf(Hotel.Lock(env, l, l, id, rooms, timeout)) == Locking(env, l, id, rooms, timeout)
  {
    ReserveTable(env, l, id, rooms, timeout);
    var tx := Hotel.Reserve(env, l, l, id, rooms, timeout);
    if tx.Committed? {
      ExportRefused(env, if env.ownWrites then tx.ledger else l);
    }
  }

  lemma ReserveTable(env: Env, l: Ledger, id: string, rooms: u64, timeout: u64)
    ensures var tx := Hotel.Reserve(env, l, l, id, rooms, timeout);
            && AnswerOf(tx) == Reserving(env, l, id, rooms, timeout)
            && (tx.Committed? ==> HotelUp(l) && HotelUp(tx.ledger) && "LOCK_TOTAL" in tx.ledger && tx.ledger["LOCK_TOTAL"].Num?)
  {
    ReserveRefused(env, l, id, rooms, timeout);
    if Hotel.Reserve(env, l, l, id, rooms, timeout).Committed? {
      ReserveWrites(env, l, id, rooms, timeout);
      Keys(id, "");
      KeysDistinct(id, "");
    }
  }

  lemma ExportRefused(env: Env, view: Ledger)
    ensures var e := Hotel.ExportOf(view, env);
            && (e.Err? <==> !HotelUp(view) || ("LOCK_TOTAL" in view && !view["LOCK_TOTAL"].Num?))
            && (e.Err? ==> e.error == if HotelUp(view) then Hotel.BadNumber else Hotel.NotInitialised)
  {
    Keys("", "");
  }

  lemma ReserveRefused(env: Env, l: Ledger, id: string, rooms: u64, timeout: u64)
    ensures var tx := Hotel.Reserve(env, l, l, id, rooms, timeout);
            && (tx.Aborted? ==> Reserving(env, l, id, rooms, timeout) == Err(tx.error))
            && (tx.Committed? ==> IsBridge(env, l) && !ActiveLock(l, id) && l["META"].price > 0
                                  && (rooms == 0 || rooms <= RoomsFree(l, NumberAt(l, "LOCK_TOTAL"))))
  {
    Keys(id, "");
    AvailableTable(l, rooms);
  }

  lemma ReserveWrites(env: Env, l: Ledger, id: string, rooms: u64, timeout: u64)
    requires Hotel.Reserve(env, l, l, id, rooms, timeout).Committed? && HotelUp(l)
    ensures var amount := ((if rooms > 0 then rooms else l["META"].lockSize) * l["META"].price) % TWO64;
            var total := if env.ownWrites && id == "TOTAL" then 0 else NumberAt(l, "LOCK_TOTAL");
            Hotel.Reserve(env, l, l, id, rooms, timeout).ledger
            == l["LOCK_" + id := LockEntry(amount, env.now, timeout, true)]["LOCK_TOTAL" := Num((total + amount) % TWO64)]
  {
    Keys(id, "");
    Wraps(if rooms > 0 then rooms else l["META"].lockSize, l["META"].price);
    Wraps(if env.ownWrites && id == "TOTAL" then 0 else NumOrZero(l, "LOCK_TOTAL"), Hotel.LockAmount(l["META"], rooms));
  }

  lemma UnlockTable(env: Env, l: Ledger, id: string)
    ensures AnswerOf(Hotel.Unlock(env, l, l, id)) == Unlocking(env, l, id)
    ensures AnswerOf(Hotel.TimeoutUnlock(env, l, l, id)) == TimingOut(env, l, id)
  {
    Keys(id, "");
    if ActiveLock(l, id) {
      Wraps(l["LOCK_" + id].lockBlock, l["LOCK_" + id].timeoutBlocks);
    }
  }

  lemma UpdateTable(env: Env, l: Ledger, id: string, newRemain: u64, user: string, num: u64, cost: u64)
    ensures AnswerOf(Hotel.Update(env, l, l, id, newRemain, user, num, cost)) == Updating(env, l, id, newRemain, user, num, cost)
  {
    Keys(id, user);
    UnlockTable(env, l, id);
    Wraps(NumOrZero(l, AccountKey(user)), cost);
    Wraps(NumOrZero(l, BookingKey(user)), num);
  }

  lemma CommitTable(env: Env, l: Ledger, id: string, user: string, rooms: u64)
    ensures AnswerOf(Bridge.ReleaseAndBook(env, l, l, id, user, rooms)) == Committing(env, l, id, user, rooms)
  {
    Keys(id, user);
    KeysDistinct(id, user);
    UnlockTable(env, l, id);
    var tx := Hotel.Unlock(env, l, l, id);
    if tx.Committed? {
      BookTable(if env.ownWrites then tx.ledger else l, tx.ledger, user, rooms);
      SameBooking(l, tx.ledger, id, TotalWithout(l, id), user, rooms);
    }
  }

  /** A release changes nothing a booking reads but the lock total. */
  lemma SameBooking(l: Ledger, d: Ledger, id: string, locked: nat, user: string, rooms: u64)
    requires ActiveLock(l, id) && d == Unlocked(l, id)
    ensures NumberAt(d, "LOCK_TOTAL") == TotalWithout(l, id)
    ensures Booking(d, d, locked, user, rooms) == Booking(l, d, locked, user, rooms)
  {
    ReleaseSpares(l, d, id, user);
  }

  lemma ReleaseSpares(l: Ledger, d: Ledger, id: string, user: string)
    requires ActiveLock(l, id) && d == Unlocked(l, id)
    ensures NumberAt(d, "LOCK_TOTAL") == TotalWithout(l, id)
    ensures (HotelUp(d) <==> HotelUp(l)) && (HotelUp(l) ==> d["META"] == l["META"])
    ensures NumberAt(d, "ACCOUNT_" + user) == NumberAt(l, "ACCOUNT_" + user)
    ensures NumberAt(d, "BOOKING_" + user) == NumberAt(l, "BOOKING_" + user)
  {
    Keys(id, user);
    KeysDistinct(id, user);
  }

  lemma RecordTable(env: Env, l: Ledger, id: string, rooms: u64, timeout: u64, op: Cell)
    ensures AnswerOf(Bridge.LockAndRecord(env, l, l, id, rooms, timeout, op))
            == ByRelayer(env, l, Recording(Locking(env, l, id, rooms, timeout), id, op))
  {
    Keys(id, "");
    LockTable(env, l, id, rooms, timeout);
  }

  /** The reply to a plain lock is "0x" and the exported state in hex: of the ledger after the lock under
      own writes, of the one before it otherwise. */
  lemma LockReply(env: Env, l: Ledger, id: string, rooms: u64, timeout: u64)
    ensures var tx := Bridge.PlainLock(env, l, l, id, rooms, timeout);
            tx.Committed? ==>
              var view := if env.ownWrites then tx.ledger else l;
              && HotelUp(view) && NumAt(view, "LOCK_TOTAL").Some?
              && var m := view["META"];
                 var state := Export.State(m.bridge, m.price, m.remain, m.lockSize, NumberAt(view, "LOCK_TOTAL"));
              && |tx.value| >= 2 && tx.value[..2] == "0x"
              && tx.value[2..] == Export.Hex(Export.ExportBytes(state, env.metaSlot, env.totalSlot))
  {
    Keys(id, "");
    ReserveTable(env, l, id, rooms, timeout);
    var reserved := Hotel.Reserve(env, l, l, id, rooms, timeout);
    if reserved.Committed? {
      ExportReads(env, if env.ownWrites then reserved.ledger else l);
    }
  }

  lemma ExportReads(env: Env, view: Ledger)
    ensures Hotel.ExportOf(view, env).Ok? ==>
              && HotelUp(view) && NumAt(view, "LOCK_TOTAL").Some?
              && var m := view["META"];
                 Hotel.ExportOf(view, env).value
                 == Export.ExportBytes(Export.State(m.bridge, m.price, m.remain, m.lockSize, NumberAt(view, "LOCK_TOTAL")),
                                       env.metaSlot, env.totalSlot)
  {
    Keys("", "");
  }

  lemma SignalTable(env: Env, l: Ledger, id: string, commit: bool, abort: bool)
    ensures AnswerOf(Bridge.Signal(env, l, l, id, commit, abort)) == Table(env, l, GPACTSignalling(id, commit, abort))
    ensures AnswerOf(Bridge.ReleaseAndForget(env, l, l, id)) == Table(env, l, AtomUndoUnlock(id))
  {
    Keys(id, "");
    UnlockTable(env, l, id);
    if ActivePending(l, id) {
      CommitTable(env, l, id, l["XBRIDGE_PENDING_" + id].user, l["XBRIDGE_PENDING_" + id].amountA);
    }
  }

  lemma AtomTable(env: Env, l: Ledger, id: string)
    ensures AnswerOf(Bridge.AtomCommit(env, l, l, id)) == Table(env, l, AtomUnlock(id))
  {
    Keys(id, "");
    if ActivePending(l, id) {
      var op := l["XBRIDGE_PENDING_" + id];
      CommitTable(env, l, id, op.user, FirstNonZero(op.amountA, op.amountB));
    }
  }

  lemma AtomLockTable(env: Env, l: Ledger, id: string, kind: string, user: string, a: u64, b: u64)
    ensures AnswerOf(Bridge.AtomLock(env, l, l, id, kind, user, a, b)) == Table(env, l, AtomLockDo(id, kind, user, a, b))
  {
    Keys(id, "");
    RecordTable(env, l, id, FirstNonZero(a, b), 30, PendingOp(a, b, kind, user, true));
  }

  /** What the specification of a call answers. */
  function Specified(env: Env, l: Ledger, call: Call): Answer {
    match call
    case HotelInit(bridge, price, remain, lockSize) => AnswerOf(Hotel.Init(l, bridge, price, remain, lockSize))
    case BookLocal(user, num) => AnswerOf(Hotel.Book(l, l, user, num))
    case LockState(id, rooms, timeout) => AnswerOf(Hotel.Lock(env, l, l, id, rooms, timeout))
    case UpdateState(id, newRemain, user, num, cost) => AnswerOf(Hotel.Update(env, l, l, id, newRemain, user, num, cost))
    case UnlockState(id) => AnswerOf(Hotel.Unlock(env, l, l, id))
    case UnlockOnTimeout(id) => AnswerOf(Hotel.TimeoutUnlock(env, l, l, id))
    case SetBridge(bridge) => AnswerOf(Hotel.Rebridge(env, l, l, bridge))
    case BridgeInit(relayer, target) => AnswerOf(Bridge.InitBridge(l, relayer, target))
    case SetRelayerMSP(relayer) => AnswerOf(Bridge.SetRelayer(env, l, l, relayer))
    case ReceiveLockRequest(id, rooms, timeout) => AnswerOf(Bridge.PlainLock(env, l, l, id, rooms, timeout))
    case ReceiveUpdateRequest(id, newRemain, user, num, cost) =>
      AnswerOf(Bridge.Relayed(env, l, Hotel.Update(env, l, l, id, newRemain, user, num, cost)))
    case ReceiveRollbackRequest(id) => AnswerOf(Bridge.Relayed(env, l, Hotel.Unlock(env, l, l, id)))
    case ReceiveTimeoutRollback(id) => AnswerOf(Bridge.Relayed(env, l, Hotel.TimeoutUnlock(env, l, l, id)))
    case GPACTSegment(id) => AnswerOf(Bridge.Segment(env, l, l, id))
    case GPACTSignalling(id, commit, abort) => AnswerOf(Bridge.Signal(env, l, l, id, commit, abort))
    case AtomLockDo(id, kind, user, a, b) => AnswerOf(Bridge.AtomLock(env, l, l, id, kind, user, a, b))
    case AtomUnlock(id) => AnswerOf(Bridge.AtomCommit(env, l, l, id))
    case AtomUndoUnlock(id) => AnswerOf(Bridge.ReleaseAndForget(env, l, l, id))
  }

  lemma HotelTable(env: Env, l: Ledger, call: Call)
    requires IsHotelCall(call)
    ensures Specified(env, l, call) == Table(env, l, call)
  {
    Keys("", "");
    match call
    case BookLocal(user, num) => BookTable(l, l, user, num);
    case LockState(id, rooms, timeout) => LockTable(env, l, id, rooms, timeout);
    case UpdateState(id, newRemain, user, num, cost) => UpdateTable(env, l, id, newRemain, user, num, cost);
    case UnlockState(id) => UnlockTable(env, l, id);
    case UnlockOnTimeout(id) => UnlockTable(env, l, id);
    case _ =>
  }

  lemma BridgeTable(env: Env, l: Ledger, call: Call)
    requires !IsHotelCall(call)
    ensures Specified(env, l, call) == Table(env, l, call)
  {
    Keys("", "");
    match call
    case BridgeInit(_, _) =>
    case SetRelayerMSP(_) =>
    case ReceiveLockRequest(id, rooms, timeout) => LockTable(env, l, id, rooms, timeout);
    case ReceiveUpdateRequest(id, newRemain, user, num, cost) => UpdateTable(env, l, id, newRemain, user, num, cost);
    case ReceiveRollbackRequest(id) => UnlockTable(env, l, id);
    case ReceiveTimeoutRollback(id) => UnlockTable(env, l, id);
    case GPACTSegment(id) => RecordTable(env, l, id, 1, 30, Bridge.SegmentOp(env));
    case GPACTSignalling(id, commit, abort) => SignalTable(env, l, id, commit, abort);
    case AtomLockDo(id, kind, user, a, b) => AtomLockTable(env, l, id, kind, user, a, b);
    case AtomUnlock(id) => AtomTable(env, l, id);
    case AtomUndoUnlock(id) => SignalTable(env, l, id, false, false);
  }

  /** MAIN RESULT.  In every ledger, for every caller and under either reading, each call answers as the
      table says, error for error, and commits exactly the ledger of the table. */
  lemma EveryCallIsInTheTable(env: Env, l: Ledger, call: Call)
    ensures Specified(env, l, call) == Table(env, l, call)
    ensures Effect(env, l, call) == if Table(env, l, call).Ok? then Some(Table(env, l, call).value) else None
  {
    if IsHotelCall(call) {
      HotelTable(env, l, call);
    } else {
      BridgeTable(env, l, call);
    }
    EffectIsSpecified(env, l, call);
  }

  lemma EffectIsSpecified(env: Env, l: Ledger, call: Call)
    ensures Effect(env, l, call) == if Specified(env, l, call).Ok? then Some(Specified(env, l, call).value) else None
  {
  }

  /** A refused call leaves the ledger as it was, and a run makes its calls one after the other. */
  lemma RunsFollowTheTable(l: Ledger, steps: seq<Step>, s: Step)
    ensures Run(l, []) == l
    ensures var m := Run(l, steps);
            Run(l, steps + [s]) == if Table(s.env, m, s.call).Ok? then Table(s.env, m, s.call).value else m
  {
    EveryCallIsInTheTable(s.env, Run(l, steps), s.call);
    assert (steps + [s])[..|steps + [s]| - 1] == steps;
  }

  // ---------------------------------------------------------------- who may call

  /** The calls of the hotel that anybody may make. */
  predicate OpenToAll(call: Call) {
    call.HotelInit? || call.BookLocal? || call.UnlockOnTimeout? || call.BridgeInit?
  }

  /** MAIN RESULT.  A bridge call other than initialisation goes through only for the recorded relayer;
      every call that locks, releases, updates or commits, a time-out aside, and every change of the
      bridge only for the recorded bridge of the hotel. */
  lemma OnlyTheAuthorisedCall(env: Env, l: Ledger, call: Call)
    requires Effect(env, l, call).Some?
    ensures !IsHotelCall(call) && !call.BridgeInit? ==>
              "XBRIDGE_META" in l && l["XBRIDGE_META"].BridgeMeta? && env.msp == l["XBRIDGE_META"].relayerMSP
    ensures !OpenToAll(call) && !call.SetRelayerMSP? && !call.ReceiveTimeoutRollback? ==>
              "META" in l && l["META"].Meta? && env.msp == l["META"].bridge
  {
    EveryCallIsInTheTable(env, l, call);
  }

  /** The role that the results about commits ask for passes both checks of the chaincode. */
  lemma AuthorisedPassesBothChecks(env: Env, l: Ledger)
    ensures Authorised(env, l) <==> IsRelayer(env, l) && IsBridge(env, l)
    ensures Authorised(env, l) <==> Bridge.RelayerError(env, l) == None && Hotel.BridgeError(env, l) == None
  {
    Keys("", "");
  }
}
