/** The hotel chaincode on Fabric.  Each operation has a specification that says, from the ledger a
    call reads (`seen`) and the draft it writes, which ledger and reply it leaves or why it aborts;
    the methods below run the operation step by step and are proved to meet it whether or not reads
    see the call's own writes. */
module HotelBooking {
  import opened Prelude
  import opened FabricLedger
  import opened Arith
  import Export

  datatype Error =
    | NotInitialised | DivideByZero | ZeroAmount | InsufficientRooms | NotBridge | AlreadyLocked | NotLocked
    | NotTimedOut | BadNumber | ZeroPrice | NotRelayer | NoPending | ZeroAtomAmount | EmptyRelayer

  /** What a call does: a reply and a new ledger, or an error and no effect. */
  datatype Tx<+T> = Committed(value: T, ledger: Ledger) | Aborted(error: Error)

  // ---------------------------------------------------------------- specification

  /** Rooms neither booked nor covered by the locked value. */
  function Available(l: Ledger): Result<u64, Error> {
    match MetaAt(l)
    case None => Err(NotInitialised)
    case Some(m) =>
      if m.price == 0 then Err(DivideByZero)
      else
        var lockedRooms := Floor(NumOrZero(l, KEY_LOCK_TOTAL), m.price);
        if lockedRooms >= m.remain then Ok(0)
        else Ok(m.remain - lockedRooms)
  }

  function BridgeError(env: Env, l: Ledger): Option<Error> {
    match MetaAt(l)
    case None => Some(NotInitialised)
    case Some(m) => if env.msp != m.bridge then Some(NotBridge) else None
  }

  function AddTo(seen: Ledger, draft: Ledger, key: string, d: u64): Ledger {
    draft[key := Num(Add64(NumOrZero(seen, key), d))]
  }

  function Init(draft: Ledger, bridge: Name, price: u64, remain: u64, lockSize: u64): Tx<()> {
    if price == 0 then Aborted(ZeroPrice)
    else Committed((), draft[KEY_LOCK_TOTAL := Num(0)]
                            [KEY_META := Meta(bridge, price, remain, if lockSize == 0 then 1 else lockSize)])
  }

  function Book(seen: Ledger, draft: Ledger, user: string, num: u64): Tx<u64> {
    if num == 0 then Aborted(ZeroAmount)
    else
      match Available(seen)
      case Err(e) => Aborted(e)
      case Ok(available) =>
        if available < num then Aborted(InsufficientRooms)
        else
          var m := seen[KEY_META];
          var cost := Mul64(m.price, num);
          var d := draft[KEY_META := m.(remain := m.remain - num)];
          Committed(cost, AddTo(seen, AddTo(seen, d, AccountKey(user), cost), BookingKey(user), num))
  }

  /** The amount a lock for `rooms` rooms reserves. */
  function LockAmount(m: Cell, rooms: u64): u64
    requires m.Meta?
  {
    if rooms > 0 then Mul64(rooms, m.price) else Mul64(m.lockSize, m.price)
  }

  function ExportOf(l: Ledger, env: Env): Result<Bytes, Error> {
    match MetaAt(l)
    case None => Err(NotInitialised)
    case Some(m) =>
      match NumAt(l, KEY_LOCK_TOTAL)
      case None => Err(BadNumber)
      case Some(total) =>
        Ok(Export.ExportBytes(Export.State(m.bridge, m.price, m.remain, m.lockSize, total), env.metaSlot, env.totalSlot))
  }

  /** The two writes of a lock; the total is read back after the entry was written. */
  function Reserve(env: Env, seen: Ledger, draft: Ledger, id: string, rooms: u64, timeout: u64): Tx<()> {
    match BridgeError(env, seen)
    case Some(e) => Aborted(e)
    case None =>
      if LockAt(seen, id).Some? then Aborted(AlreadyLocked)
      else
        match Available(seen)
        case Err(e) => Aborted(e)
        case Ok(available) =>
          if available < rooms then Aborted(InsufficientRooms)
          else
            var amount := LockAmount(seen[KEY_META], rooms);
            var d := draft[LockKey(id) := LockEntry(amount, env.now, timeout, true)];
            Committed((), AddTo(if env.ownWrites then d else seen, d, KEY_LOCK_TOTAL, amount))
  }

  /** A lock replies with the exported state. */
  function Lock(env: Env, seen: Ledger, draft: Ledger, id: string, rooms: u64, timeout: u64): Tx<Bytes> {
    match Reserve(env, seen, draft, id, rooms, timeout)
    case Aborted(e) => Aborted(e)
    case Committed(_, final) =>
      match ExportOf(if env.ownWrites then final else seen, env)
      case Err(e) => Aborted(e)
      case Ok(bytes) => Committed(bytes, final)
  }

  function Release(seen: Ledger, draft: Ledger, id: string): Tx<()> {
    match LockAt(seen, id)
    case None => Aborted(NotLocked)
    case Some(entry) =>
      var total := NumOrZero(seen, KEY_LOCK_TOTAL);
      var freed := if entry.lockedAmount > total then total else entry.lockedAmount;
      Committed((), draft[KEY_LOCK_TOTAL := Num(total - freed)] - {LockKey(id)})
  }

  function Unlock(env: Env, seen: Ledger, draft: Ledger, id: string): Tx<()> {
    match BridgeError(env, seen)
    case Some(e) => Aborted(e)
    case None => Release(seen, draft, id)
  }

  function TimeoutUnlock(env: Env, seen: Ledger, draft: Ledger, id: string): Tx<()> {
    match LockAt(seen, id)
    case None => Aborted(NotLocked)
    case Some(entry) =>
      if env.now <= Add64(entry.lockBlock, entry.timeoutBlocks) then Aborted(NotTimedOut)
      else Release(seen, draft, id)
  }

  function Update(env: Env, seen: Ledger, draft: Ledger, id: string, newRemain: u64, user: string, num: u64, cost: u64): Tx<()> {
    match Unlock(env, seen, draft, id)
    case Aborted(e) => Aborted(e)
    case Committed(_, d) =>
      var d1 := d[KEY_META := seen[KEY_META].(remain := newRemain)];
      Committed((), AddTo(seen, AddTo(seen, d1, AccountKey(user), cost), BookingKey(user), num))
  }

  function Rebridge(env: Env, seen: Ledger, draft: Ledger, bridge: Name): Tx<()> {
    match BridgeError(env, seen)
    case Some(e) => Aborted(e)
    case None => Committed((), draft[KEY_META := seen[KEY_META].(bridge := bridge)])
  }

  /** The ledger after a lock entry and a new total were written. */
  function WithLock(l: Ledger, id: string, entry: Cell, total: u64): Ledger {
    l[LockKey(id) := entry][KEY_LOCK_TOTAL := Num(total)]
  }

  lemma ReserveWrites(env: Env, l: Ledger, id: string, rooms: u64, timeout: u64)
    requires id != "TOTAL" && BridgeError(env, l) == None && LockAt(l, id) == None
    requires Available(l).Ok? && rooms <= Available(l).value
    ensures var amount := LockAmount(l[KEY_META], rooms);
            Reserve(env, l, l, id, rooms, timeout)
            == Committed((), WithLock(l, id, LockEntry(amount, env.now, timeout, true), Add64(NumOrZero(l, KEY_LOCK_TOTAL), amount)))
  {
    KeysDistinct(id, "");
  }

  lemma ExportNeverFails(env: Env, l: Ledger)
    requires MetaAt(l).Some? && NumAt(l, KEY_LOCK_TOTAL).Some?
    ensures ExportOf(l, env).Ok?
  {
  }

  /** A lock that is allowed commits its two writes, under either reading. */
  lemma LockWrites(env: Env, l: Ledger, id: string, rooms: u64, timeout: u64, total: u64)
    requires id != "TOTAL" && BridgeError(env, l) == None && LockAt(l, id) == None
    requires Available(l).Ok? && rooms <= Available(l).value && NumAt(l, KEY_LOCK_TOTAL) == Some(total)
    ensures var amount := LockAmount(l[KEY_META], rooms);
            var tx := Lock(env, l, l, id, rooms, timeout);
            tx.Committed? && tx.ledger == WithLock(l, id, LockEntry(amount, env.now, timeout, true), Add64(total, amount))
  {
    ReserveWrites(env, l, id, rooms, timeout);
    KeysDistinct(id, "");
    var final := Reserve(env, l, l, id, rooms, timeout).ledger;
    ExportNeverFails(env, if env.ownWrites then final else l);
  }

  // ---------------------------------------------------------------- the chaincode

  /** A finished call agrees with a specified outcome: same error, or same reply and same draft. */
  ghost predicate Meets<T>(r: Result<T, Error>, draft: Ledger, spec: Tx<T>) {
    match spec
    case Aborted(e) => r == Err(e)
    case Committed(v, l) => r == Ok(v) && draft == l
  }

  method GetMeta(ctx: Ctx) returns (m: Option<Cell>)
    ensures m == MetaAt(ctx.Seen())
  {
    var c := ctx.GetState(KEY_META);
    m := if c.Some? && c.value.Meta? then c else None;
  }

  method GetLockEntry(ctx: Ctx, id: string) returns (e: Option<Cell>)
    ensures e == LockAt(ctx.Seen(), id)
  {
    var c := ctx.GetState(LockKey(id));
    e := if c.Some? && c.value.LockEntry? && c.value.active then c else None;
  }

  method InitLedger(ctx: Ctx, bridge: Name, price: u64, remain: u64, lockSize: u64) returns (r: Result<(), Error>)
    modifies ctx
    ensures Meets(r, ctx.draft, Init(old(ctx.draft), bridge, price, remain, lockSize))
  {
    if price == 0 { return Err(ZeroPrice); }
    var size := if lockSize == 0 then 1 else lockSize;
    ctx.PutState(KEY_LOCK_TOTAL, Num(0));
    ctx.PutState(KEY_META, Meta(bridge, price, remain, size));
    return Ok(());
  }

  method GetAvailableRemain(ctx: Ctx) returns (r: Result<u64, Error>)
    ensures r == Available(ctx.Seen())
  {
    var m := GetMeta(ctx);
    if m == None { return Err(NotInitialised); }
    if m.value.price == 0 { return Err(DivideByZero); }
    var lt := ctx.GetNum(KEY_LOCK_TOTAL);
    var lockedRooms := Floor(if lt.Some? then lt.value else 0, m.value.price);
    if lockedRooms >= m.value.remain { return Ok(0); }
    return Ok(m.value.remain - lockedRooms);
  }

  method EnsureBridge(ctx: Ctx) returns (e: Option<Error>)
    ensures e == BridgeError(ctx.env, ctx.Seen())
  {
    var m := GetMeta(ctx);
    if m == None { return Some(NotInitialised); }
    e := if ctx.env.msp != m.value.bridge then Some(NotBridge) else None;
  }

  /** The three writes of a booking: the hotel record, the account and the booking of the user. */
  method PutBooking(ctx: Ctx, meta: Cell, user: string, cost: u64, num: u64)
    modifies ctx
    ensures var (seen, draft) := (old(ctx.Seen()), old(ctx.draft));
            ctx.draft == AddTo(seen, AddTo(seen, draft[KEY_META := meta], AccountKey(user), cost), BookingKey(user), num)
  {
    KeysDistinct("", user);
    ctx.PutState(KEY_META, meta);
    ctx.AddNum(AccountKey(user), cost);
    ctx.AddNum(BookingKey(user), num);
  }

  method BookLocal(ctx: Ctx, user: string, num: u64) returns (r: Result<u64, Error>)
    modifies ctx
    ensures Meets(r, ctx.draft, Book(old(ctx.Seen()), old(ctx.draft), user, num))
  {
    KeysDistinct("", user);
    if num == 0 { return Err(ZeroAmount); }
    var av := GetAvailableRemain(ctx);
    if av.Err? { return Err(av.error); }
    if av.value < num { return Err(InsufficientRooms); }
    var m := GetMeta(ctx);
    var cost := Mul64(m.value.price, num);
    PutBooking(ctx, m.value.(remain := m.value.remain - num), user, cost, num);
    return Ok(cost);
  }

  method VasspEncodeState(ctx: Ctx) returns (r: Result<Bytes, Error>)
    ensures r == ExportOf(ctx.Seen(), ctx.env)
  {
    var m := GetMeta(ctx);
    if m == None { return Err(NotInitialised); }
    var total := ctx.GetNum(KEY_LOCK_TOTAL);
    if total == None { return Err(BadNumber); }
    var st := Export.State(m.value.bridge, m.value.price, m.value.remain, m.value.lockSize, total.value);
    return Ok(Export.ExportBytes(st, ctx.env.metaSlot, ctx.env.totalSlot));
  }

  method LockStateInternal(ctx: Ctx, id: string, rooms: u64, timeout: u64) returns (r: Result<Bytes, Error>)
    modifies ctx
    ensures Meets(r, ctx.draft, Lock(ctx.env, old(ctx.Seen()), old(ctx.draft), id, rooms, timeout))
  {
    KeysDistinct(id, "");
    var e := EnsureBridge(ctx);
    if e.Some? { return Err(e.value); }
    var entry := GetLockEntry(ctx, id);
    if entry.Some? { return Err(AlreadyLocked); }
    var av := GetAvailableRemain(ctx);
    if av.Err? { return Err(av.error); }
    if av.value < rooms { return Err(InsufficientRooms); }
    var m := GetMeta(ctx);
    var amount := Mul64(m.value.lockSize, m.value.price);
    if rooms > 0 {
      amount := Mul64(rooms, m.value.price);
    }
    ctx.PutState(LockKey(id), LockEntry(amount, ctx.env.now, timeout, true));
    ctx.AddNum(KEY_LOCK_TOTAL, amount);
    r := VasspEncodeState(ctx);
  }

  method UnlockInternal(ctx: Ctx, id: string) returns (r: Result<(), Error>)
    modifies ctx
    ensures Meets(r, ctx.draft, Release(old(ctx.Seen()), old(ctx.draft), id))
  {
    var e := GetLockEntry(ctx, id);
    if e == None { return Err(NotLocked); }
    ctx.SubNum(KEY_LOCK_TOTAL, e.value.lockedAmount);
    ctx.DelState(LockKey(id));
    return Ok(());
  }

  method UnlockState(ctx: Ctx, id: string) returns (r: Result<(), Error>)
    modifies ctx
    ensures Meets(r, ctx.draft, Unlock(ctx.env, old(ctx.Seen()), old(ctx.draft), id))
  {
    var e := EnsureBridge(ctx);
    if e.Some? { return Err(e.value); }
    r := UnlockInternal(ctx, id);
  }

  method UnlockOnTimeout(ctx: Ctx, id: string) returns (r: Result<(), Error>)
    modifies ctx
    ensures Meets(r, ctx.draft, TimeoutUnlock(ctx.env, old(ctx.Seen()), old(ctx.draft), id))
  {
    var e := GetLockEntry(ctx, id);
    if e == None { return Err(NotLocked); }
    if ctx.env.now <= Add64(e.value.lockBlock, e.value.timeoutBlocks) { return Err(NotTimedOut); }
    r := UnlockInternal(ctx, id);
  }

  method UpdateState(ctx: Ctx, id: string, newRemain: u64, user: string, num: u64, cost: u64)
    returns (r: Result<(), Error>)
    modifies ctx
    ensures Meets(r, ctx.draft, Update(ctx.env, old(ctx.Seen()), old(ctx.draft), id, newRemain, user, num, cost))
  {
    KeysDistinct(id, user);
    var e := EnsureBridge(ctx);
    if e.Some? { return Err(e.value); }
    r := UnlockInternal(ctx, id);
    if r.Err? { return r; }
    var m := GetMeta(ctx);
    if m == None { return Err(NotInitialised); }
    PutBooking(ctx, m.value.(remain := newRemain), user, cost, num);
    return Ok(());
  }

  method SetBridge(ctx: Ctx, bridge: Name) returns (r: Result<(), Error>)
    modifies ctx
    ensures Meets(r, ctx.draft, Rebridge(ctx.env, old(ctx.Seen()), old(ctx.draft), bridge))
  {
    var e := EnsureBridge(ctx);
    if e.Some? { return Err(e.value); }
    var m := GetMeta(ctx);
    ctx.PutState(KEY_META, m.value.(bridge := bridge));
    return Ok(());
  }
}
