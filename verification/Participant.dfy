/** The Fabric participant as a state machine: one atomic step per call, runs of calls, and the
    life of a lock along any run. */
module Participant {
  import opened Prelude
  import opened FabricLedger
  import Hotel = HotelBooking
  import Bridge = XBridge

  datatype Call =
    | HotelInit(bridge: Name, price: u64, remain: u64, lockSize: u64)
    | BookLocal(user: string, num: u64)
    | LockState(id: string, rooms: u64, timeout: u64)
    | UpdateState(id: string, newRemain: u64, user: string, num: u64, cost: u64)
    | UnlockState(id: string)
    | UnlockOnTimeout(id: string)
    | SetBridge(bridge: Name)
    | BridgeInit(relayer: Name, stateContract: string)
    | SetRelayerMSP(relayer: Name)
    | ReceiveLockRequest(id: string, rooms: u64, timeout: u64)
    | ReceiveUpdateRequest(id: string, newRemain: u64, user: string, num: u64, cost: u64)
    | ReceiveRollbackRequest(id: string)
    | ReceiveTimeoutRollback(id: string)
    | GPACTSegment(id: string)
    | GPACTSignalling(id: string, commit: bool, abort: bool)
    | AtomLockDo(id: string, kind: string, user: string, amountA: u64, amountB: u64)
    | AtomUnlock(id: string)
    | AtomUndoUnlock(id: string)

  datatype Step = Step(env: Env, call: Call)

  function LedgerOf<T>(tx: Hotel.Tx<T>): Option<Ledger> {
    if tx.Committed? then Some(tx.ledger) else None
  }

  /** The ledger a call commits, if it does not abort. */
  function Effect(env: Env, l: Ledger, call: Call): Option<Ledger> {
    match call
    case HotelInit(bridge, price, remain, lockSize) => LedgerOf(Hotel.Init(l, bridge, price, remain, lockSize))
    case BookLocal(user, num) => LedgerOf(Hotel.Book(l, l, user, num))
    case LockState(id, rooms, timeout) => LedgerOf(Hotel.Lock(env, l, l, id, rooms, timeout))
    case UpdateState(id, newRemain, user, num, cost) => LedgerOf(Hotel.Update(env, l, l, id, newRemain, user, num, cost))
    case UnlockState(id) => LedgerOf(Hotel.Unlock(env, l, l, id))
    case UnlockOnTimeout(id) => LedgerOf(Hotel.TimeoutUnlock(env, l, l, id))
    case SetBridge(bridge) => LedgerOf(Hotel.Rebridge(env, l, l, bridge))
    case BridgeInit(relayer, stateContract) => LedgerOf(Bridge.InitBridge(l, relayer, stateContract))
    case SetRelayerMSP(relayer) => LedgerOf(Bridge.SetRelayer(env, l, l, relayer))
    case ReceiveLockRequest(id, rooms, timeout) => LedgerOf(Bridge.PlainLock(env, l, l, id, rooms, timeout))
    case ReceiveUpdateRequest(id, newRemain, user, num, cost) =>
      LedgerOf(Bridge.Relayed(env, l, Hotel.Update(env, l, l, id, newRemain, user, num, cost)))
    case ReceiveRollbackRequest(id) => LedgerOf(Bridge.Relayed(env, l, Hotel.Unlock(env, l, l, id)))
    case ReceiveTimeoutRollback(id) => LedgerOf(Bridge.Relayed(env, l, Hotel.TimeoutUnlock(env, l, l, id)))
    case GPACTSegment(id) => LedgerOf(Bridge.Segment(env, l, l, id))
    case GPACTSignalling(id, commit, abort) => LedgerOf(Bridge.Signal(env, l, l, id, commit, abort))
    case AtomLockDo(id, kind, user, amountA, amountB) => LedgerOf(Bridge.AtomLock(env, l, l, id, kind, user, amountA, amountB))
    case AtomUnlock(id) => LedgerOf(Bridge.AtomCommit(env, l, l, id))
    case AtomUndoUnlock(id) => LedgerOf(Bridge.ReleaseAndForget(env, l, l, id))
  }

  /** A call that aborts leaves the ledger unchanged. */
  function Next(l: Ledger, s: Step): Ledger {
    var e := Effect(s.env, l, s.call);
    if e.Some? then e.value else l
  }

  function Run(l: Ledger, steps: seq<Step>): Ledger {
    if steps == [] then l else Next(Run(l, steps[..|steps| - 1]), steps[|steps| - 1])
  }

  predicate IsHotelCall(call: Call) {
    || call.HotelInit? || call.BookLocal? || call.LockState? || call.UpdateState? || call.UnlockState?
    || call.UnlockOnTimeout? || call.SetBridge?
  }

  /** Runs a hotel operation of the chaincode in a transaction of its own. */
  method InvokeHotel(env: Env, l: Ledger, call: Call) returns (r: Option<Ledger>)
    requires IsHotelCall(call)
    ensures r == Effect(env, l, call)
  {
    var ctx := new Ctx(env, l);
    var ok: bool;
    match call {
      case HotelInit(bridge, price, remain, lockSize) =>
        var t := Hotel.InitLedger(ctx, bridge, price, remain, lockSize);
        ok := t.Ok?;
      case BookLocal(user, num) =>
        var t := Hotel.BookLocal(ctx, user, num);
        ok := t.Ok?;
      case LockState(id, rooms, timeout) =>
        var t := Hotel.LockStateInternal(ctx, id, rooms, timeout);
        ok := t.Ok?;
      case UpdateState(id, newRemain, user, num, cost) =>
        var t := Hotel.UpdateState(ctx, id, newRemain, user, num, cost);
        ok := t.Ok?;
      case UnlockState(id) =>
        var t := Hotel.UnlockState(ctx, id);
        ok := t.Ok?;
      case UnlockOnTimeout(id) =>
        var t := Hotel.UnlockOnTimeout(ctx, id);
        ok := t.Ok?;
      case SetBridge(bridge) =>
        var t := Hotel.SetBridge(ctx, bridge);
        ok := t.Ok?;
    }
    r := if ok then Some(ctx.draft) else None;
  }

  /** Runs a bridge operation of the chaincode in a transaction of its own. */
  method InvokeBridge(env: Env, l: Ledger, call: Call) returns (r: Option<Ledger>)
    requires !IsHotelCall(call)
    ensures r == Effect(env, l, call)
  {
    var ctx := new Ctx(env, l);
    var ok: bool;
    match call {
      case BridgeInit(relayer, stateContract) =>
        var t := Bridge.InitLedger(ctx, relayer, stateContract);
        ok := t.Ok?;
      case SetRelayerMSP(relayer) =>
        var t := Bridge.SetRelayerMSP(ctx, relayer);
        ok := t.Ok?;
      case ReceiveLockRequest(id, rooms, timeout) =>
        var t := Bridge.ReceiveLockRequest(ctx, id, rooms, timeout);
        ok := t.Ok?;
      case ReceiveUpdateRequest(id, newRemain, user, num, cost) =>
        var t := Bridge.ReceiveUpdateRequest(ctx, id, newRemain, user, num, cost);
        ok := t.Ok?;
      case ReceiveRollbackRequest(id) =>
        var t := Bridge.ReceiveRollbackRequest(ctx, id);
        ok := t.Ok?;
      case ReceiveTimeoutRollback(id) =>
        var t := Bridge.ReceiveTimeoutRollback(ctx, id);
        ok := t.Ok?;
      case GPACTSegment(id) =>
        var t := Bridge.GPACTSegment(ctx, id);
        ok := t.Ok?;
      case GPACTSignalling(id, commit, abort) =>
        var t := Bridge.GPACTSignalling(ctx, id, commit, abort);
        ok := t.Ok?;
      case AtomLockDo(id, kind, user, amountA, amountB) =>
        var t := Bridge.AtomLockDo(ctx, id, kind, user, amountA, amountB);
        ok := t.Ok?;
      case AtomUnlock(id) =>
        var t := Bridge.AtomUnlock(ctx, id);
        ok := t.Ok?;
      case AtomUndoUnlock(id) =>
        var t := Bridge.AtomUndoUnlock(ctx, id);
        ok := t.Ok?;
    }
    r := if ok then Some(ctx.draft) else None;
  }

  // ---------------------------------------------------------------- the life of a lock

  /** The time-out a successful call gives to the lock of `id`, if the call is a lock of it. */
  function LocksId(call: Call, id: string): Option<u64> {
    match call
    case LockState(i, _, timeout) => if i == id then Some(timeout) else None
    case ReceiveLockRequest(i, _, timeout) => if i == id then Some(timeout) else None
    case GPACTSegment(i) => if i == id then Some(Bridge.GPACT_TIMEOUT) else None
    case AtomLockDo(i, _, _, _, _) => if i == id then Some(Bridge.ATOM_TIMEOUT) else None
    case _ => None
  }

  predicate ReleasesOnTimeout(call: Call, id: string) {
    (call.UnlockOnTimeout? && call.id == id) || (call.ReceiveTimeoutRollback? && call.id == id)
  }

  /** Update, rollback, time-out, or the commit or abort of a GPACT or ATOM operation. */
  predicate ReleasesId(call: Call, id: string) {
    || ReleasesOnTimeout(call, id)
    || (call.UpdateState? && call.id == id) || (call.ReceiveUpdateRequest? && call.id == id)
    || (call.UnlockState? && call.id == id) || (call.ReceiveRollbackRequest? && call.id == id)
    || (call.GPACTSignalling? && call.id == id)
    || (call.AtomUnlock? && call.id == id) || (call.AtomUndoUnlock? && call.id == id)
  }

  /** Writes elsewhere do not touch the lock of `id`. */
  lemma OtherKeys(id: string, other: string, user: string)
    requires id != "TOTAL"
    ensures LockKey(id) !in {KEY_META, KEY_LOCK_TOTAL, KEY_BRIDGE_META, AccountKey(user), BookingKey(user), PendingKey(other)}
    ensures LockKey(id) == LockKey(other) <==> id == other
  {
    KeysDistinct(id, user);
    KeysDistinct(other, user);
    KeysInjective(id, other);
  }

  /** From no active lock of `id` to one that records the time and the time-out. */
  ghost predicate Takes(env: Env, l: Ledger, l': Ledger, id: string, timeout: u64) {
    && LockAt(l, id) == None && LockAt(l', id).Some?
    && LockAt(l', id).value.lockBlock == env.now
    && LockAt(l', id).value.timeoutBlocks == timeout
  }

  ghost predicate Ends(l: Ledger, l': Ledger, id: string) {
    LockAt(l, id).Some? && LockAt(l', id) == None
  }

  ghost predicate Spares(l: Ledger, l': Ledger, id: string) {
    LockAt(l', id) == LockAt(l, id)
  }

  ghost predicate PastDeadline(env: Env, l: Ledger, id: string) {
    LockAt(l, id).Some? && env.now > Add64(LockAt(l, id).value.lockBlock, LockAt(l, id).value.timeoutBlocks)
  }

  lemma LockTakes(env: Env, l: Ledger, i: string, rooms: u64, timeout: u64, id: string)
    requires id != "TOTAL"
    ensures var tx := Hotel.Lock(env, l, l, i, rooms, timeout);
            tx.Committed? ==> if i == id then Takes(env, l, tx.ledger, id, timeout) else Spares(l, tx.ledger, id)
  {
    OtherKeys(id, i, "");
  }

  lemma RecordedLockTakes(env: Env, l: Ledger, i: string, rooms: u64, timeout: u64, op: Cell, id: string)
    requires id != "TOTAL"
    ensures var tx := Bridge.LockAndRecord(env, l, l, i, rooms, timeout, op);
            tx.Committed? ==> if i == id then Takes(env, l, tx.ledger, id, timeout) else Spares(l, tx.ledger, id)
  {
    LockTakes(env, l, i, rooms, timeout, id);
    var tx := Hotel.Lock(env, l, l, i, rooms, timeout);
    if tx.Committed? {
      PendingWriteSpares(tx.ledger, i, op, id);
    }
  }

  lemma PendingWriteSpares(l: Ledger, i: string, op: Cell, id: string)
    requires id != "TOTAL"
    ensures Spares(l, l[PendingKey(i) := op], id)
  {
    OtherKeys(id, i, "");
  }

  lemma ReleaseEnds(l: Ledger, i: string, id: string)
    requires id != "TOTAL"
    ensures var tx := Hotel.Release(l, l, i);
            tx.Committed? ==> if i == id then Ends(l, tx.ledger, id) else Spares(l, tx.ledger, id)
  {
    OtherKeys(id, i, "");
  }

  lemma UpdateEnds(env: Env, l: Ledger, i: string, newRemain: u64, user: string, num: u64, cost: u64, id: string)
    requires id != "TOTAL"
    ensures var tx := Hotel.Update(env, l, l, i, newRemain, user, num, cost);
            tx.Committed? ==> if i == id then Ends(l, tx.ledger, id) else Spares(l, tx.ledger, id)
  {
    ReleaseEnds(l, i, id);
    OtherKeys(id, i, user);
  }

  lemma BookSpares(seen: Ledger, draft: Ledger, user: string, num: u64, id: string)
    requires id != "TOTAL"
    ensures var tx := Hotel.Book(seen, draft, user, num);
            tx.Committed? ==> Spares(draft, tx.ledger, id)
  {
    OtherKeys(id, "", user);
  }

  lemma CommitEnds(env: Env, l: Ledger, i: string, user: string, num: u64, id: string)
    requires id != "TOTAL"
    ensures var tx := Bridge.ReleaseAndBook(env, l, l, i, user, num);
            tx.Committed? ==> if i == id then Ends(l, tx.ledger, id) else Spares(l, tx.ledger, id)
  {
    ReleaseEnds(l, i, id);
    OtherKeys(id, i, user);
    var tx := Hotel.Unlock(env, l, l, i);
    if tx.Committed? {
      BookSpares(if env.ownWrites then tx.ledger else l, tx.ledger, user, num, id);
    }
  }

  lemma ForgetEnds(env: Env, l: Ledger, i: string, id: string)
    requires id != "TOTAL"
    ensures var tx := Bridge.ReleaseAndForget(env, l, l, i);
            tx.Committed? ==> if i == id then Ends(l, tx.ledger, id) else Spares(l, tx.ledger, id)
  {
    ReleaseEnds(l, i, id);
    OtherKeys(id, i, "");
  }

  lemma LockCalls(env: Env, l: Ledger, call: Call, id: string)
    requires id != "TOTAL" && Effect(env, l, call).Some?
    requires call.LockState? || call.ReceiveLockRequest? || call.GPACTSegment? || call.AtomLockDo?
    ensures if LocksId(call, id).Some? then Takes(env, l, Effect(env, l, call).value, id, LocksId(call, id).value)
            else Spares(l, Effect(env, l, call).value, id)
  {
    match call
    case LockState(i, rooms, timeout) => LockTakes(env, l, i, rooms, timeout, id);
    case ReceiveLockRequest(i, rooms, timeout) => LockTakes(env, l, i, rooms, timeout, id);
    case GPACTSegment(i) =>
      RecordedLockTakes(env, l, i, Bridge.GPACT_ROOMS, Bridge.GPACT_TIMEOUT, Bridge.SegmentOp(env), id);
    case AtomLockDo(i, kind, user, a, b) =>
      RecordedLockTakes(env, l, i, Bridge.AtomAmount(a, b), Bridge.ATOM_TIMEOUT, PendingOp(a, b, kind, user, true), id);
  }

  lemma ReleaseCalls(env: Env, l: Ledger, call: Call, id: string)
    requires id != "TOTAL" && Effect(env, l, call).Some?
    requires exists i :: ReleasesId(call, i)
    ensures if ReleasesId(call, id) then Ends(l, Effect(env, l, call).value, id)
            else Spares(l, Effect(env, l, call).value, id)
    ensures ReleasesOnTimeout(call, id) ==> PastDeadline(env, l, id)
  {
    match call
    case UpdateState(i, newRemain, user, num, cost) => UpdateEnds(env, l, i, newRemain, user, num, cost, id);
    case ReceiveUpdateRequest(i, newRemain, user, num, cost) => UpdateEnds(env, l, i, newRemain, user, num, cost, id);
    case UnlockState(i) => ReleaseEnds(l, i, id);
    case ReceiveRollbackRequest(i) => ReleaseEnds(l, i, id);
    case UnlockOnTimeout(i) => ReleaseEnds(l, i, id);
    case ReceiveTimeoutRollback(i) => ReleaseEnds(l, i, id);
    case GPACTSignalling(i, commit, abort) =>
      if commit && !abort {
        var op := PendingAt(l, i).value;
        CommitEnds(env, l, i, op.user, op.amountA, id);
      } else {
        ForgetEnds(env, l, i, id);
      }
    case AtomUnlock(i) =>
      var op := PendingAt(l, i).value;
      CommitEnds(env, l, i, op.user, Bridge.AtomAmount(op.amountA, op.amountB), id);
    case AtomUndoUnlock(i) => ForgetEnds(env, l, i, id);
  }

  lemma OtherCalls(env: Env, l: Ledger, call: Call, id: string)
    requires id != "TOTAL" && Effect(env, l, call).Some?
    requires call.HotelInit? || call.BookLocal? || call.SetBridge? || call.BridgeInit? || call.SetRelayerMSP?
    ensures Spares(l, Effect(env, l, call).value, id)
  {
    OtherKeys(id, "", "");
    if call.BookLocal? {
      BookSpares(l, l, call.user, call.num, id);
    }
  }

  /** One step of any kind, in any ledger, under either reading: a committed lock starts from no
      active lock and records the time; a committed release ends an active one, on time-out only
      after the recorded deadline; everything else leaves the lock of `id` alone. */
  lemma LockLife(env: Env, l: Ledger, call: Call, id: string)
    requires id != "TOTAL"
    ensures Effect(env, l, call).Some? ==>
              var l' := Effect(env, l, call).value;
              if LocksId(call, id).Some? then Takes(env, l, l', id, LocksId(call, id).value)
              else if ReleasesId(call, id) then Ends(l, l', id) && (ReleasesOnTimeout(call, id) ==> PastDeadline(env, l, id))
              else Spares(l, l', id)
  {
    if Effect(env, l, call) == None {
    } else if call.HotelInit? || call.BookLocal? || call.SetBridge? || call.BridgeInit? || call.SetRelayerMSP? {
      OtherCalls(env, l, call, id);
    } else if call.LockState? || call.ReceiveLockRequest? || call.GPACTSegment? || call.AtomLockDo? {
      LockCalls(env, l, call, id);
    } else {
      assert ReleasesId(call, call.id);
      ReleaseCalls(env, l, call, id);
    }
  }

  // ---------------------------------------------------------------- along a run

  /** Committed locks minus committed releases of `id`. */
  ghost function Balance(l: Ledger, steps: seq<Step>, id: string): int {
    if steps == [] then 0
    else
      var before, last := steps[..|steps| - 1], steps[|steps| - 1];
      Balance(l, before, id) +
      (if Effect(last.env, Run(l, before), last.call) == None then 0
       else if LocksId(last.call, id).Some? then 1
       else if ReleasesId(last.call, id) then -1
       else 0)
  }

  /** The time and time-out of the latest committed lock of `id` that no committed release follows. */
  ghost function OpenLock(l: Ledger, steps: seq<Step>, id: string): Option<(u64, u64)> {
    if steps == [] then None
    else
      var before, last := steps[..|steps| - 1], steps[|steps| - 1];
      if Effect(last.env, Run(l, before), last.call) == None then OpenLock(l, before, id)
      else if LocksId(last.call, id).Some? then Some((last.env.now, LocksId(last.call, id).value))
      else if ReleasesId(last.call, id) then None
      else OpenLock(l, before, id)
  }

  /** MAIN RESULT.  Along any run of any calls, every lock has exactly one outcome: committed locks
      minus committed releases of an id is one while its lock is active and zero otherwise, and the
      active entry is the one the last committed lock wrote. */
  lemma {:induction false} OneOutcomePerLock(steps: seq<Step>, id: string)
    requires id != "TOTAL"
    ensures var entry := LockAt(Run(map[], steps), id);
            && Balance(map[], steps, id) == (if entry.Some? then 1 else 0)
            && OpenLock(map[], steps, id)
               == (if entry.Some? then Some((entry.value.lockBlock, entry.value.timeoutBlocks)) else None)
  {
    if steps != [] {
      var before, last := steps[..|steps| - 1], steps[|steps| - 1];
      OneOutcomePerLock(before, id);
      if Effect(last.env, Run(map[], before), last.call).Some? {
        LockLife(last.env, Run(map[], before), last.call, id);
      }
    }
  }

  /** MAIN RESULT.  A time-out release happens only strictly after the moment of the lock plus its
      time-out, unless that sum passes the 64-bit range. */
  lemma NoEarlyTimeout(steps: seq<Step>, last: Step, id: string)
    requires id != "TOTAL"
    requires ReleasesOnTimeout(last.call, id) && Effect(last.env, Run(map[], steps), last.call).Some?
    ensures var open := OpenLock(map[], steps, id);
            && open.Some?
            && last.env.now > Add64(open.value.0, open.value.1)
            && (open.value.0 + open.value.1 < TWO64 ==> last.env.now > open.value.0 + open.value.1)
  {
    OneOutcomePerLock(steps, id);
    var l := Run(map[], steps);
    TimeoutPastDeadline(last.env, l, last.call, id);
  }

  lemma TimeoutPastDeadline(env: Env, l: Ledger, call: Call, id: string)
    requires ReleasesOnTimeout(call, id) && Effect(env, l, call).Some?
    ensures PastDeadline(env, l, id)
  {
  }

  /** When a time-out release goes through, for any ledger and caller. */
  lemma TimeoutReleaseExactly(env: Env, l: Ledger, id: string)
    ensures Effect(env, l, UnlockOnTimeout(id)).Some? <==> PastDeadline(env, l, id)
  {
  }

  /** The exception is real: if time of the lock and time-out together pass the 64-bit range, the
      deadline wraps around and the lock can be released in the very block that took it. */
  lemma WrappedDeadlineReleasesAtOnce(env: Env, l: Ledger, id: string)
    requires LockAt(l, id).Some? && env.now == LockAt(l, id).value.lockBlock
    ensures Effect(env, l, UnlockOnTimeout(id)).Some?
            <==> LockAt(l, id).value.lockBlock + LockAt(l, id).value.timeoutBlocks >= TWO64
  {
    TimeoutReleaseExactly(env, l, id);
  }
}
