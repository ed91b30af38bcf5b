/** The bridge wrapper: relayer requests in the plain, GPACT and ATOM protocols, each one lock,
    update or release of the hotel, with a table of pending operations for the latter two. */
module XBridge {
  import opened Prelude
  import opened FabricLedger
  import opened HotelBooking
  import Export

  const GPACT_ROOMS: u64 := 1
  const GPACT_TIMEOUT: u64 := 30
  const ATOM_TIMEOUT: u64 := 30

  // ---------------------------------------------------------------- specification

  function RelayerError(env: Env, l: Ledger): Option<Error> {
    if KEY_BRIDGE_META !in l || !l[KEY_BRIDGE_META].BridgeMeta? then Some(NotInitialised)
    else if env.msp != l[KEY_BRIDGE_META].relayerMSP then Some(NotRelayer)
    else None
  }

  function InitBridge(draft: Ledger, relayer: Name, stateContract: string): Tx<()> {
    if relayer == [] then Aborted(EmptyRelayer)
    else
      var target := if stateContract == "" then "hotel_booking" else stateContract;
      Committed((), draft[KEY_BRIDGE_META := BridgeMeta(relayer, target)])
  }

  function SetRelayer(env: Env, seen: Ledger, draft: Ledger, relayer: Name): Tx<()> {
    match RelayerError(env, seen)
    case Some(e) => Aborted(e)
    case None => Committed((), draft[KEY_BRIDGE_META := seen[KEY_BRIDGE_META].(relayerMSP := relayer)])
  }

  /** The event text of a plain lock: the exported state in hex. */
  function PlainLock(env: Env, seen: Ledger, draft: Ledger, id: string, num: u64, timeout: u64): Tx<string> {
    match RelayerError(env, seen)
    case Some(e) => Aborted(e)
    case None =>
      match Lock(env, seen, draft, id, num, timeout)
      case Aborted(e) => Aborted(e)
      case Committed(bytes, l) => Committed("0x" + Export.Hex(bytes), l)
  }

  /** A hotel operation that the relayer may request. */
  function Relayed<T>(env: Env, seen: Ledger, tx: Tx<T>): Tx<T> {
    match RelayerError(env, seen)
    case Some(e) => Aborted(e)
    case None => tx
  }

  /** A lock that also records the operation to run when the signal to commit arrives. */
  function LockAndRecord(env: Env, seen: Ledger, draft: Ledger, id: string, rooms: u64, timeout: u64, op: Cell): Tx<()> {
    match RelayerError(env, seen)
    case Some(e) => Aborted(e)
    case None =>
      match Lock(env, seen, draft, id, rooms, timeout)
      case Aborted(e) => Aborted(e)
      case Committed(_, l) => Committed((), l[PendingKey(id) := op])
  }

  /** A GPACT segment is for one room, in the name of the client that sends it. */
  function SegmentOp(env: Env): Cell {
    PendingOp(GPACT_ROOMS, 0, "hotel", if env.clientId == "" then "fabric-relayer" else env.clientId, true)
  }

  function Segment(env: Env, seen: Ledger, draft: Ledger, id: string): Tx<()> {
    LockAndRecord(env, seen, draft, id, GPACT_ROOMS, GPACT_TIMEOUT, SegmentOp(env))
  }

  /** The rooms an ATOM operation is for: the first amount unless that is zero. */
  function AtomAmount(amountA: u64, amountB: u64): u64 {
    if amountA == 0 then amountB else amountA
  }

  function AtomLock(env: Env, seen: Ledger, draft: Ledger, id: string, kind: string, user: string,
                    amountA: u64, amountB: u64): Tx<()> {
    match RelayerError(env, seen)
    case Some(e) => Aborted(e)
    case None =>
      if AtomAmount(amountA, amountB) == 0 then Aborted(ZeroAtomAmount)
      else LockAndRecord(env, seen, draft, id, AtomAmount(amountA, amountB), ATOM_TIMEOUT,
                         PendingOp(amountA, amountB, kind, user, true))
  }

  /** Release the lock of `id`, book `num` rooms for `user`, forget the pending operation.  The
      booking reads the released ledger only if reads see the call's own writes. */
  function ReleaseAndBook(env: Env, seen: Ledger, draft: Ledger, id: string, user: string, num: u64): Tx<()> {
    match Unlock(env, seen, draft, id)
    case Aborted(e) => Aborted(e)
    case Committed(_, d) =>
      match Book(if env.ownWrites then d else seen, d, user, num)
      case Aborted(e) => Aborted(e)
      case Committed(_, l) => Committed((), l - {PendingKey(id)})
  }

  function ReleaseAndForget(env: Env, seen: Ledger, draft: Ledger, id: string): Tx<()> {
    match RelayerError(env, seen)
    case Some(e) => Aborted(e)
    case None =>
      match Unlock(env, seen, draft, id)
      case Aborted(e) => Aborted(e)
      case Committed(_, d) => Committed((), d - {PendingKey(id)})
  }

  function Commit(env: Env, seen: Ledger, draft: Ledger, id: string): Tx<()> {
    match RelayerError(env, seen)
    case Some(e) => Aborted(e)
    case None =>
      match PendingAt(seen, id)
      case None => Aborted(NoPending)
      case Some(op) => ReleaseAndBook(env, seen, draft, id, op.user, op.amountA)
  }

  function AtomCommit(env: Env, seen: Ledger, draft: Ledger, id: string): Tx<()> {
    match RelayerError(env, seen)
    case Some(e) => Aborted(e)
    case None =>
      match PendingAt(seen, id)
      case None => Aborted(NoPending)
      case Some(op) => ReleaseAndBook(env, seen, draft, id, op.user, AtomAmount(op.amountA, op.amountB))
  }

  function Signal(env: Env, seen: Ledger, draft: Ledger, id: string, commit: bool, abort: bool): Tx<()> {
    if commit && !abort then Commit(env, seen, draft, id) else ReleaseAndForget(env, seen, draft, id)
  }

  /** MAIN RESULT.  From the text of a lock response the receiver reads back exactly the hotel record
      and the lock total: those after the lock if reads see own writes, those before it otherwise. */
  lemma LockResponseTellsState(env: Env, l: Ledger, id: string, num: u64, timeout: u64)
    requires env.metaSlot != env.totalSlot
    ensures var tx := PlainLock(env, l, l, id, num, timeout);
            tx.Committed? ==> Tells(tx.value, env, if env.ownWrites then tx.ledger else l)
  {
    var reserved := Reserve(env, l, l, id, num, timeout);
    if reserved.Committed? {
      ExportedText(env, if env.ownWrites then reserved.ledger else l);
    }
  }

  /** The text says exactly what the hotel record and the lock total of `view` are. */
  ghost predicate Tells(text: string, env: Env, view: Ledger) {
    MetaAt(view).Some? && NumAt(view, KEY_LOCK_TOTAL).Some? &&
    var m := MetaAt(view).value;
    Export.ReadExport(text, env.metaSlot, env.totalSlot)
    == Some(((m.bridge, m.price, m.remain, m.lockSize), NumAt(view, KEY_LOCK_TOTAL).value))
  }

  lemma ExportedText(env: Env, view: Ledger)
    requires env.metaSlot != env.totalSlot
    ensures ExportOf(view, env).Ok? ==> Tells("0x" + Export.Hex(ExportOf(view, env).value), env, view)
  {
    if MetaAt(view).Some? && NumAt(view, KEY_LOCK_TOTAL).Some? {
      var m, total := MetaAt(view).value, NumAt(view, KEY_LOCK_TOTAL).value;
      Export.ExportIsLossless(Export.State(m.bridge, m.price, m.remain, m.lockSize, total), env.metaSlot, env.totalSlot);
    }
  }

  // ---------------------------------------------------------------- the chaincode

  method EnsureRelayer(ctx: Ctx) returns (e: Option<Error>)
    ensures e == RelayerError(ctx.env, ctx.Seen())
  {
    var meta := ctx.GetState(KEY_BRIDGE_META);
    if meta == None || !meta.value.BridgeMeta? { return Some(NotInitialised); }
    e := if ctx.env.msp != meta.value.relayerMSP then Some(NotRelayer) else None;
  }

  method GetPending(ctx: Ctx, id: string) returns (op: Option<Cell>)
    ensures op == PendingAt(ctx.Seen(), id)
  {
    var c := ctx.GetState(PendingKey(id));
    op := if c.Some? && c.value.PendingOp? && c.value.pendingActive then c else None;
  }

  method InitLedger(ctx: Ctx, relayer: Name, stateContract: string) returns (r: Result<(), Error>)
    modifies ctx
    ensures Meets(r, ctx.draft, InitBridge(old(ctx.draft), relayer, stateContract))
  {
    if relayer == [] { return Err(EmptyRelayer); }
    var target := if stateContract == "" then "hotel_booking" else stateContract;
    ctx.PutState(KEY_BRIDGE_META, BridgeMeta(relayer, target));
    return Ok(());
  }

  method SetRelayerMSP(ctx: Ctx, relayer: Name) returns (r: Result<(), Error>)
    modifies ctx
    ensures Meets(r, ctx.draft, SetRelayer(ctx.env, old(ctx.Seen()), old(ctx.draft), relayer))
  {
    var e := EnsureRelayer(ctx);
    if e.Some? { return Err(e.value); }
    var meta := ctx.GetState(KEY_BRIDGE_META);
    ctx.PutState(KEY_BRIDGE_META, meta.value.(relayerMSP := relayer));
    return Ok(());
  }

  method ReceiveLockRequest(ctx: Ctx, id: string, num: u64, timeout: u64) returns (r: Result<string, Error>)
    modifies ctx
    ensures Meets(r, ctx.draft, PlainLock(ctx.env, old(ctx.Seen()), old(ctx.draft), id, num, timeout))
  {
    var e := EnsureRelayer(ctx);
    if e.Some? { return Err(e.value); }
    var locked := LockStateInternal(ctx, id, num, timeout);
    if locked.Err? { return Err(locked.error); }
    var hex := Export.BytesToHex(locked.value);
    return Ok("0x" + hex);
  }

  method ReceiveUpdateRequest(ctx: Ctx, id: string, newRemain: u64, user: string, num: u64, cost: u64)
    returns (r: Result<(), Error>)
    modifies ctx
    ensures Meets(r, ctx.draft, Relayed(ctx.env, old(ctx.Seen()),
                    Update(ctx.env, old(ctx.Seen()), old(ctx.draft), id, newRemain, user, num, cost)))
  {
    var e := EnsureRelayer(ctx);
    if e.Some? { return Err(e.value); }
    r := UpdateState(ctx, id, newRemain, user, num, cost);
  }

  method ReceiveRollbackRequest(ctx: Ctx, id: string) returns (r: Result<(), Error>)
    modifies ctx
    ensures Meets(r, ctx.draft, Relayed(ctx.env, old(ctx.Seen()), Unlock(ctx.env, old(ctx.Seen()), old(ctx.draft), id)))
  {
    var e := EnsureRelayer(ctx);
    if e.Some? { return Err(e.value); }
    r := UnlockState(ctx, id);
  }

  method ReceiveTimeoutRollback(ctx: Ctx, id: string) returns (r: Result<(), Error>)
    modifies ctx
    ensures Meets(r, ctx.draft,
                  Relayed(ctx.env, old(ctx.Seen()), TimeoutUnlock(ctx.env, old(ctx.Seen()), old(ctx.draft), id)))
  {
    var e := EnsureRelayer(ctx);
    if e.Some? { return Err(e.value); }
    r := UnlockOnTimeout(ctx, id);
  }

  method GPACTSegment(ctx: Ctx, id: string) returns (r: Result<(), Error>)
    modifies ctx
    ensures Meets(r, ctx.draft, Segment(ctx.env, old(ctx.Seen()), old(ctx.draft), id))
  {
    var e := EnsureRelayer(ctx);
    if e.Some? { return Err(e.value); }
    var locked := LockStateInternal(ctx, id, GPACT_ROOMS, GPACT_TIMEOUT);
    if locked.Err? { return Err(locked.error); }
    var user := if ctx.env.clientId == "" then "fabric-relayer" else ctx.env.clientId;
    ctx.PutState(PendingKey(id), PendingOp(GPACT_ROOMS, 0, "hotel", user, true));
    return Ok(());
  }

  method GPACTSignalling(ctx: Ctx, id: string, commit: bool, abort: bool) returns (r: Result<(), Error>)
    modifies ctx
    ensures Meets(r, ctx.draft, Signal(ctx.env, old(ctx.Seen()), old(ctx.draft), id, commit, abort))
  {
    var e := EnsureRelayer(ctx);
    if e.Some? { return Err(e.value); }
    if commit && !abort {
      var pending := GetPending(ctx, id);
      if pending == None { return Err(NoPending); }
      r := UnlockState(ctx, id);
      if r.Err? { return r; }
      var booked := BookLocal(ctx, pending.value.user, pending.value.amountA);
      if booked.Err? { return Err(booked.error); }
    } else {
      r := UnlockState(ctx, id);
      if r.Err? { return r; }
    }
    ctx.DelState(PendingKey(id));
    return Ok(());
  }

  method AtomLockDo(ctx: Ctx, id: string, kind: string, user: string, amountA: u64, amountB: u64)
    returns (r: Result<(), Error>)
    modifies ctx
    ensures Meets(r, ctx.draft, AtomLock(ctx.env, old(ctx.Seen()), old(ctx.draft), id, kind, user, amountA, amountB))
  {
    var e := EnsureRelayer(ctx);
    if e.Some? { return Err(e.value); }
    var amount := amountA;
    if amount == 0 {
      amount := amountB;
    }
    if amount == 0 { return Err(ZeroAtomAmount); }
    var locked := LockStateInternal(ctx, id, amount, ATOM_TIMEOUT);
    if locked.Err? { return Err(locked.error); }
    ctx.PutState(PendingKey(id), PendingOp(amountA, amountB, kind, user, true));
    return Ok(());
  }

  method AtomUnlock(ctx: Ctx, id: string) returns (r: Result<(), Error>)
    modifies ctx
    ensures Meets(r, ctx.draft, AtomCommit(ctx.env, old(ctx.Seen()), old(ctx.draft), id))
  {
    var e := EnsureRelayer(ctx);
    if e.Some? { return Err(e.value); }
    var pending := GetPending(ctx, id);
    if pending == None { return Err(NoPending); }
    r := UnlockState(ctx, id);
    if r.Err? { return r; }
    var amount := pending.value.amountA;
    if amount == 0 {
      amount := pending.value.amountB;
    }
    var booked := BookLocal(ctx, pending.value.user, amount);
    if booked.Err? { return Err(booked.error); }
    ctx.DelState(PendingKey(id));
    return Ok(());
  }

  method AtomUndoUnlock(ctx: Ctx, id: string) returns (r: Result<(), Error>)
    modifies ctx
    ensures Meets(r, ctx.draft, ReleaseAndForget(ctx.env, old(ctx.Seen()), old(ctx.draft), id))
  {
    var e := EnsureRelayer(ctx);
    if e.Some? { return Err(e.value); }
    r := UnlockState(ctx, id);
    if r.Err? { return r; }
    ctx.DelState(PendingKey(id));
    return Ok(());
  }
}
