/** The reference model of the hotel used by the differential harness, over unbounded integers. */
module HotelModel {
  import opened Prelude
  import opened Arith

  datatype LockInfo = LockInfo(lockedAmount: nat, active: bool)

  datatype State = State(bridge: string, price: nat, remain: nat, lockSize: nat, lockedTotal: nat,
                         accounts: map<string, nat>, bookings: map<string, nat>, locks: map<string, LockInfo>)

  datatype Op =
    | BookLocal(user: string, amount: nat)
    | LockState(lockId: string, amount: nat, timeoutBlocks: nat)
    | UnlockState(lockId: string)
    | GetPrice
    | GetRemain
    | GetAvailableRemain
    | GetAccountBalance(user: string)
    | GetBooking(user: string)
    | IsStateLocked(lockId: string)

  datatype Value = Amount(n: nat) | Flag(b: bool)

  datatype Error = ZeroAmount | InsufficientRooms | AlreadyLocked | InsufficientForLock | NotLocked

  datatype Outcome = Outcome(state: State, result: Result<seq<Value>, Error>)

  function Get(m: map<string, nat>, k: string): nat {
    if k in m then m[k] else 0
  }

  predicate Locked(st: State, id: string) {
    id in st.locks && st.locks[id].active
  }

  function Init(bridge: string, price: nat, remain: nat, lockSize: nat): State {
    State(bridge, price, remain, if lockSize == 0 then 1 else lockSize, 0, map[], map[], map[])
  }

  function Available(st: State): nat
    requires st.price > 0
  {
    var lockedUnits := Floor(st.lockedTotal, st.price);
    if st.remain > lockedUnits then st.remain - lockedUnits else 0
  }

  function Step(st: State, op: Op): Outcome
    requires st.price > 0
  {
    match op
    case BookLocal(user, amount) =>
      if amount == 0 then Outcome(st, Err(ZeroAmount))
      else if Available(st) < amount then Outcome(st, Err(InsufficientRooms))
      else
        var cost := st.price * amount;
        Outcome(st.(remain := st.remain - amount,
                    accounts := st.accounts[user := Get(st.accounts, user) + cost],
                    bookings := st.bookings[user := Get(st.bookings, user) + amount]), Ok([Amount(cost)]))
    case LockState(id, amount, _) =>
      if Locked(st, id) then Outcome(st, Err(AlreadyLocked))
      else if Available(st) < amount then Outcome(st, Err(InsufficientForLock))
      else
        var lockedAmount := (if amount > 0 then amount else st.lockSize) * st.price;
        Outcome(st.(locks := st.locks[id := LockInfo(lockedAmount, true)], lockedTotal := st.lockedTotal + lockedAmount),
                Ok([Amount(st.price), Amount(st.remain)]))
    case UnlockState(id) =>
      if !Locked(st, id) then Outcome(st, Err(NotLocked))
      else
        var amount := st.locks[id].lockedAmount;
        Outcome(st.(lockedTotal := if st.lockedTotal > amount then st.lockedTotal - amount else 0, locks := st.locks - {id}),
                Ok([]))
    case GetPrice => Outcome(st, Ok([Amount(st.price)]))
    case GetRemain => Outcome(st, Ok([Amount(st.remain)]))
    case GetAvailableRemain => Outcome(st, Ok([Amount(Available(st))]))
    case GetAccountBalance(user) => Outcome(st, Ok([Amount(Get(st.accounts, user))]))
    case GetBooking(user) => Outcome(st, Ok([Amount(Get(st.bookings, user))]))
    case IsStateLocked(id) => Outcome(st, Ok([Flag(Locked(st, id))]))
  }

  class HotelBookingModel {
    const bridge: string
    const price: nat
    const lockSize: nat
    var remain: nat
    var lockedTotal: nat
    var accounts: map<string, nat>
    var bookings: map<string, nat>
    var locks: map<string, LockInfo>

    ghost function Contents(): State
      reads this
    {
      State(bridge, price, remain, lockSize, lockedTotal, accounts, bookings, locks)
    }

    // The original throws for a price of zero.
    constructor (bridge: string, price: nat, remain: nat, lockSize: nat)
      requires price > 0
      ensures Contents() == Init(bridge, price, remain, lockSize)
    {
      this.bridge, this.price, this.remain := bridge, price, remain;
      this.lockSize := if lockSize == 0 then 1 else lockSize;
      lockedTotal, accounts, bookings, locks := 0, map[], map[], map[];
    }

    method AvailableRemain() returns (n: nat)
      requires price > 0
      ensures n == Available(Contents())
    {
      var lockedUnits := Floor(lockedTotal, price);
      n := if remain > lockedUnits then remain - lockedUnits else 0;
    }

    method Execute(op: Op) returns (r: Result<seq<Value>, Error>)
      requires price > 0
      modifies this
      ensures Outcome(Contents(), r) == Step(old(Contents()), op)
    {
      match op {
        case BookLocal(user, amount) => r := Book(user, amount);
        case LockState(id, amount, timeout) => r := Lock(id, amount, timeout);
        case UnlockState(id) =>
          if id !in locks || !locks[id].active { return Err(NotLocked); }
          var amount := locks[id].lockedAmount;
          lockedTotal := if lockedTotal > amount then lockedTotal - amount else 0;
          locks := locks - {id};
          return Ok([]);
        case GetPrice => return Ok([Amount(price)]);
        case GetRemain => return Ok([Amount(remain)]);
        case GetAvailableRemain =>
          var available := AvailableRemain();
          return Ok([Amount(available)]);
        case GetAccountBalance(user) => return Ok([Amount(Get(accounts, user))]);
        case GetBooking(user) => return Ok([Amount(Get(bookings, user))]);
        case IsStateLocked(id) => return Ok([Flag(id in locks && locks[id].active)]);
      }
    }

    method Book(user: string, amount: nat) returns (r: Result<seq<Value>, Error>)
      requires price > 0
      modifies this
      ensures Outcome(Contents(), r) == Step(old(Contents()), BookLocal(user, amount))
    {
      if amount == 0 { return Err(ZeroAmount); }
      var available := AvailableRemain();
      if available < amount { return Err(InsufficientRooms); }
      var cost := price * amount;
      remain := remain - amount;
      accounts := accounts[user := Get(accounts, user) + cost];
      bookings := bookings[user := Get(bookings, user) + amount];
      return Ok([Amount(cost)]);
    }

    method Lock(id: string, amount: nat, timeout: nat) returns (r: Result<seq<Value>, Error>)
      requires price > 0
      modifies this
      ensures Outcome(Contents(), r) == Step(old(Contents()), LockState(id, amount, timeout))
    {
      if id in locks && locks[id].active { return Err(AlreadyLocked); }
      var available := AvailableRemain();
      if available < amount { return Err(InsufficientForLock); }
      var lockedAmount := (if amount > 0 then amount else lockSize) * price;
      locks := locks[id := LockInfo(lockedAmount, true)];
      lockedTotal := lockedTotal + lockedAmount;
      return Ok([Amount(price), Amount(remain)]);
    }
  }

  // ---------------------------------------------------------------- each operation, exactly

  function EntryOf(m: map<string, nat>, k: string): nat { if k in m then m[k] else 0 }

  /** The rooms beside those the locked total pays for. */
  function RoomsFree(st: State): int
    requires st.price > 0
  {
    st.remain - st.lockedTotal / st.price
  }

  /** Only what `user` paid and booked may differ. */
  ghost predicate OnlyBooks(st: State, st': State, user: string) {
    forall u | u != user :: EntryOf(st'.accounts, u) == EntryOf(st.accounts, u) && EntryOf(st'.bookings, u) == EntryOf(st.bookings, u)
  }

  /** A new hotel has the given price and rooms, a lock size of at least one, and empty books. */
  lemma InitialExactly(bridge: string, price: nat, remain: nat, lockSize: nat)
    ensures var st := Init(bridge, price, remain, lockSize);
            && st.bridge == bridge && st.price == price && st.remain == remain && st.lockedTotal == 0
            && (lockSize > 0 ==> st.lockSize == lockSize) && (lockSize == 0 ==> st.lockSize == 1)
            && st.accounts == map[] && st.bookings == map[] && st.locks == map[]
  {
  }

  lemma BookingExactly(st: State, user: string, num: nat)
    requires st.price > 0
    ensures var o := Step(st, BookLocal(user, num));
            if num == 0 then o == Outcome(st, Err(ZeroAmount))
            else if num > RoomsFree(st) then o == Outcome(st, Err(InsufficientRooms))
            else && o.result == Ok([Amount(st.price * num)]) && OnlyBooks(st, o.state, user)
                 && o.state.remain + num == st.remain
                 && EntryOf(o.state.accounts, user) == EntryOf(st.accounts, user) + st.price * num
                 && EntryOf(o.state.bookings, user) == EntryOf(st.bookings, user) + num
                 && o.state.bridge == st.bridge && o.state.price == st.price && o.state.lockSize == st.lockSize
                 && o.state.lockedTotal == st.lockedTotal && o.state.locks == st.locks
  {
    FreeRooms(st, num);
  }

  /** The free rooms as a booking and the reader see them. */
  lemma FreeRooms(st: State, num: nat)
    requires st.price > 0
    ensures Available(st) == if RoomsFree(st) > 0 then RoomsFree(st) else 0
    ensures num <= Available(st) <==> num == 0 || num <= RoomsFree(st)
  {
  }

  lemma LockingExactly(st: State, id: string, num: nat, timeout: nat)
    requires st.price > 0
    ensures var o := Step(st, LockState(id, num, timeout));
            if id in st.locks && st.locks[id].active then o == Outcome(st, Err(AlreadyLocked))
            else if num > 0 && num > RoomsFree(st) then o == Outcome(st, Err(InsufficientForLock))
            else
              var value := (if num > 0 then num else st.lockSize) * st.price;
              && o.result == Ok([Amount(st.price), Amount(st.remain)])
              && o.state == st.(locks := st.locks[id := LockInfo(value, true)], lockedTotal := st.lockedTotal + value)
  {
    FreeRooms(st, num);
  }

  lemma UnlockingExactly(st: State, id: string)
    requires st.price > 0
    ensures var o := Step(st, UnlockState(id));
            if !(id in st.locks && st.locks[id].active) then o == Outcome(st, Err(NotLocked))
            else
              var value := st.locks[id].lockedAmount;
              && o.result == Ok([]) && o.state == st.(locks := st.locks - {id}, lockedTotal := o.state.lockedTotal)
              && o.state.lockedTotal == if value > st.lockedTotal then 0 else st.lockedTotal - value
  {
  }

  lemma ReadersAnswerExactly(st: State, user: string, id: string)
    requires st.price > 0
    ensures Step(st, GetPrice) == Outcome(st, Ok([Amount(st.price)])) && Step(st, GetRemain) == Outcome(st, Ok([Amount(st.remain)]))
    ensures Step(st, GetAvailableRemain) == Outcome(st, Ok([Amount(if RoomsFree(st) > 0 then RoomsFree(st) else 0)]))
    ensures Step(st, GetAccountBalance(user)) == Outcome(st, Ok([Amount(EntryOf(st.accounts, user))]))
    ensures Step(st, GetBooking(user)) == Outcome(st, Ok([Amount(EntryOf(st.bookings, user))]))
    ensures Step(st, IsStateLocked(id)) == Outcome(st, Ok([Flag(id in st.locks && st.locks[id].active)]))
  {
    FreeRooms(st, 0);
  }
}
