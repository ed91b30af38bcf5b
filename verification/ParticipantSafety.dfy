/** What the Fabric participant keeps over whole runs: rooms and charges are conserved, locked value
    never exceeds what is left, and a prepared operation can always be committed. */
module ParticipantSafety {
  import opened Prelude
  import opened Arith
  import opened MapSum
  import opened FabricLedger
  import opened Participant
  import Hotel = HotelBooking

  // ---------------------------------------------------------------- totals over the ledger

  function LockWeight(k: string, c: Cell): nat {
    if |k| >= 5 && k[..5] == "LOCK_" && c.LockEntry? && c.active then c.lockedAmount else 0
  }

  function BookingWeight(k: string, c: Cell): nat {
    if |k| >= 8 && k[..8] == "BOOKING_" && c.Num? then c.v else 0
  }

  function AccountWeight(k: string, c: Cell): nat {
    if |k| >= 8 && k[..8] == "ACCOUNT_" && c.Num? then c.v else 0
  }

  ghost function Locked(l: Ledger): nat { Total(l, LockWeight) }

  ghost function Booked(l: Ledger): nat { Total(l, BookingWeight) }

  ghost function Charged(l: Ledger): nat { Total(l, AccountWeight) }

  lemma Put(l: Ledger, k: string, c: Cell)
    ensures Locked(l[k := c]) + At(l, LockWeight, k) == Locked(l) + LockWeight(k, c)
    ensures Booked(l[k := c]) + At(l, BookingWeight, k) == Booked(l) + BookingWeight(k, c)
    ensures Charged(l[k := c]) + At(l, AccountWeight, k) == Charged(l) + AccountWeight(k, c)
  {
    Written(l, LockWeight, k, c);
    Written(l, BookingWeight, k, c);
    Written(l, AccountWeight, k, c);
  }

  lemma Del(l: Ledger, k: string)
    ensures Locked(l - {k}) + At(l, LockWeight, k) == Locked(l)
    ensures Booked(l - {k}) + At(l, BookingWeight, k) == Booked(l)
    ensures Charged(l - {k}) + At(l, AccountWeight, k) == Charged(l)
  {
    Deleted(l, LockWeight, k);
    Deleted(l, BookingWeight, k);
    Deleted(l, AccountWeight, k);
  }

  /** Keys of the other kinds carry no weight, whatever is stored there. */
  lemma NoWeight(l: Ledger, k: string)
    requires |k| > 0 && k[0] in {'M', 'X', 'R'}
    ensures At(l, LockWeight, k) == At(l, BookingWeight, k) == At(l, AccountWeight, k) == 0
    ensures forall c :: LockWeight(k, c) == BookingWeight(k, c) == AccountWeight(k, c) == 0
  {
    assert "LOCK_"[0] == 'L' && "BOOKING_"[0] == 'B' && "ACCOUNT_"[0] == 'A';
    assert |k| >= 5 ==> k[..5][0] == k[0];
    assert |k| >= 8 ==> k[..8][0] == k[0];
  }

  lemma PutOther(l: Ledger, k: string, c: Cell)
    requires |k| > 0 && k[0] in {'M', 'X', 'R'}
    ensures Locked(l[k := c]) == Locked(l) && Booked(l[k := c]) == Booked(l) && Charged(l[k := c]) == Charged(l)
  {
    NoWeight(l, k);
    Put(l, k, c);
  }

  lemma DelOther(l: Ledger, k: string)
    requires |k| > 0 && k[0] in {'M', 'X', 'R'}
    ensures Locked(l - {k}) == Locked(l) && Booked(l - {k}) == Booked(l) && Charged(l - {k}) == Charged(l)
  {
    NoWeight(l, k);
    Del(l, k);
  }

  lemma KeyWeights(id: string, user: string)
    ensures LockKey(id)[..5] == "LOCK_" && BookingKey(user)[..8] == "BOOKING_" && AccountKey(user)[..8] == "ACCOUNT_"
    ensures KEY_LOCK_TOTAL[..5] == "LOCK_"
    ensures forall c :: BookingWeight(LockKey(id), c) == AccountWeight(LockKey(id), c) == 0
    ensures forall c :: BookingWeight(KEY_LOCK_TOTAL, c) == AccountWeight(KEY_LOCK_TOTAL, c) == 0
    ensures forall c :: LockWeight(AccountKey(user), c) == BookingWeight(AccountKey(user), c) == 0
    ensures forall c :: LockWeight(BookingKey(user), c) == AccountWeight(BookingKey(user), c) == 0
  {
    KeysDistinct(id, user);
    assert "LOCK_"[0] == 'L' && "BOOKING_"[0] == 'B' && "ACCOUNT_"[0] == 'A';
    assert |LockKey(id)| >= 8 ==> LockKey(id)[..8][0] == 'L';
    assert KEY_LOCK_TOTAL[..8][0] == 'L';
    assert AccountKey(user)[..5][0] == 'A' && AccountKey(user)[..8][0] == 'A';
    assert BookingKey(user)[..5][0] == 'B' && BookingKey(user)[..8][0] == 'B';
  }

  // ---------------------------------------------------------------- the invariant

  /** `price` and `rooms` are the price and the number of rooms at the start. */
  ghost predicate Inv(l: Ledger, price: nat, rooms: nat) {
    && MetaAt(l).Some?
    && price > 0 && price * rooms < TWO64
    && MetaAt(l).value.price == price
    && Booked(l) + MetaAt(l).value.remain == rooms
    && KEY_LOCK_TOTAL in l && l[KEY_LOCK_TOTAL].Num? && l[KEY_LOCK_TOTAL].v == Locked(l)
    && Locked(l) <= price * MetaAt(l).value.remain
    && WholeRooms(l, price)
  }

  /** Every active lock reserves a whole number of rooms. */
  ghost predicate WholeRooms(l: Ledger, price: nat)
    requires price > 0
  {
    forall k | k in l :: LockWeight(k, l[k]) % price == 0
  }

  function Remain(l: Ledger): nat
    requires MetaAt(l).Some?
  {
    MetaAt(l).value.remain
  }

  /** Under the invariant a request for `num` rooms is met exactly when their value still fits
      beside the locked value. */
  lemma AvailableExactly(l: Ledger, price: nat, rooms: nat, num: u64)
    requires Inv(l, price, rooms)
    ensures Hotel.Available(l).Ok?
    ensures num <= Hotel.Available(l).value <==> num <= Remain(l) && Locked(l) + price * num <= price * Remain(l)
  {
    Divisible(l, LockWeight, price);
    FreeRooms(price, Locked(l), Remain(l), num);
  }

  /** The division of the availability test, with a locked value that is one of whole rooms. */
  lemma FreeRooms(price: nat, locked: nat, remain: nat, num: nat)
    requires price > 0 && locked % price == 0 && locked <= price * remain
    ensures Floor(locked, price) <= remain
    ensures num <= remain - Floor(locked, price) <==> num <= remain && locked + price * num <= price * remain
  {
    var q := Whole(price, locked);
    FloorOfMultiple(price, q);
    CancelOrMono(price, q, remain);
    RoomFits(price, q, remain, num);
  }

  lemma Whole(d: nat, n: nat) returns (q: nat)
    requires d > 0 && n % d == 0
    ensures n == d * q
  {
    q := n / d;
  }

  lemma FloorOfMultiple(d: nat, q: nat)
    requires d > 0
    ensures Floor(d * q, d) == q
  {
    Multiple(d, q);
  }

  lemma RoomFits(price: nat, q: nat, remain: nat, num: nat)
    requires price > 0 && q <= remain
    ensures num <= remain - q <==> num <= remain && price * q + price * num <= price * remain
  {
    CancelOrMono(price, q + num, remain);
    assert price * (q + num) == price * q + price * num;
  }

  /** The value of rooms that exist is computed without wrapping around. */
  lemma ValueIsExact(price: u64, num: u64, rooms: nat)
    requires price * rooms < TWO64 && num <= rooms
    ensures Mul64(price, num) == price * num && Mul64(num, price) == price * num
  {
    MulMono(price, num, rooms);
  }

  lemma CancelOrMono(d: nat, x: nat, y: nat)
    requires d > 0
    ensures x <= y <==> d * x <= d * y
  {
    if x <= y {
      MulMono(d, x, y);
    } else {
      assert d * (y + 1) == d * y + d;
      MulMono(d, y + 1, x);
    }
  }

  // ---------------------------------------------------------------- the four ledger operations

  /** The ledger that records `num` rooms and `cost` for `user`; the balances are read in `seen`. */
  function Record(seen: Ledger, l: Ledger, meta: Cell, user: string, cost: u64, num: u64): Ledger {
    Hotel.AddTo(seen, Hotel.AddTo(seen, l[KEY_META := meta], AccountKey(user), cost), BookingKey(user), num)
  }

  lemma RecordFrame(seen: Ledger, l: Ledger, meta: Cell, user: string, cost: u64, num: u64, price: nat)
    requires meta.Meta? && KEY_LOCK_TOTAL in l && price > 0 && WholeRooms(l, price)
    ensures var r := Record(seen, l, meta, user, cost, num);
            && MetaAt(r) == Some(meta)
            && KEY_LOCK_TOTAL in r && r[KEY_LOCK_TOTAL] == l[KEY_LOCK_TOTAL]
            && NumOrZero(r, AccountKey(user)) == Add64(NumOrZero(seen, AccountKey(user)), cost)
            && NumOrZero(r, BookingKey(user)) == Add64(NumOrZero(seen, BookingKey(user)), num)
            && WholeRooms(r, price)
  {
    KeysDistinct("", user);
    KeyWeights("", user);
    NoWeight(l, KEY_META);
    Multiple(price, 0);
  }

  lemma RecordTotals(seen: Ledger, l: Ledger, meta: Cell, user: string, cost: u64, num: u64)
    requires NumOrZero(seen, BookingKey(user)) == NumOrZero(l, BookingKey(user))
    requires NumOrZero(seen, AccountKey(user)) == NumOrZero(l, AccountKey(user))
    ensures var r := Record(seen, l, meta, user, cost, num);
            && Locked(r) == Locked(l)
            && (NumOrZero(l, BookingKey(user)) + num < TWO64 ==> Booked(r) == Booked(l) + num)
            && (NumOrZero(l, AccountKey(user)) + cost < TWO64 ==> Charged(r) == Charged(l) + cost)
  {
    KeysDistinct("", user);
    KeyWeights("", user);
    var l1 := l[KEY_META := meta];
    PutOther(l, KEY_META, meta);
    var a := Num(Add64(NumOrZero(seen, AccountKey(user)), cost));
    Put(l1, AccountKey(user), a);
    var l2 := l1[AccountKey(user) := a];
    var b := Num(Add64(NumOrZero(seen, BookingKey(user)), num));
    Put(l2, BookingKey(user), b);
  }

  lemma BookShape(l: Ledger, price: nat, rooms: nat, user: string, num: u64)
    requires Inv(l, price, rooms)
    ensures var tx := Hotel.Book(l, l, user, num);
            && (tx.Committed? <==> num > 0 && num <= Remain(l) && Locked(l) + price * num <= price * Remain(l))
            && (tx.Committed? ==>
                  && tx.value == price * num
                  && tx.ledger == Record(l, l, l[KEY_META].(remain := Remain(l) - num), user, price * num, num))
  {
    AvailableExactly(l, price, rooms, num);
    if num <= rooms {
      ValueIsExact(price, num, rooms);
    }
  }

  lemma BalancesBounded(l: Ledger, user: string)
    ensures NumOrZero(l, BookingKey(user)) <= Booked(l)
    ensures NumOrZero(l, AccountKey(user)) <= Charged(l)
  {
    KeyWeights("", user);
    Bounded(l, BookingWeight, BookingKey(user));
    Bounded(l, AccountWeight, AccountKey(user));
  }

  lemma RoomsFit(price: nat, rooms: nat)
    requires price > 0 && price * rooms < TWO64
    ensures rooms < TWO64
  {
    MulMono(rooms, 1, price);
  }

  lemma StillFits(price: nat, locked: nat, remain: nat, num: nat)
    requires num <= remain && locked + price * num <= price * remain
    ensures locked <= price * (remain - num)
  {
    assert price * (remain - num) == price * remain - price * num;
  }

  /** A record of `num` rooms that exist beside the locked value keeps the invariant. */
  lemma RecordKeepsInv(l: Ledger, price: nat, rooms: nat, user: string, cost: u64, num: u64)
    requires Inv(l, price, rooms)
    requires num <= Remain(l) && Locked(l) + price * num <= price * Remain(l)
    ensures var r := Record(l, l, l[KEY_META].(remain := Remain(l) - num), user, cost, num);
            && Inv(r, price, rooms)
            && NumOrZero(r, BookingKey(user)) == NumOrZero(l, BookingKey(user)) + num
            && (NumOrZero(l, AccountKey(user)) + cost < TWO64 ==> Charged(r) == Charged(l) + cost)
  {
    var meta := l[KEY_META].(remain := Remain(l) - num);
    RoomsFit(price, rooms);
    BalancesBounded(l, user);
    RecordFrame(l, l, meta, user, cost, num, price);
    RecordTotals(l, l, meta, user, cost, num);
    StillFits(price, Locked(l), Remain(l), num);
  }

  /** A lock for `num` rooms: what it reserves, and when it is refused. */
  lemma LockShape(env: Env, l: Ledger, price: nat, rooms: nat, id: string, num: u64, timeout: u64)
    requires Inv(l, price, rooms) && num > 0 && id != "TOTAL"
    ensures var tx := Hotel.Lock(env, l, l, id, num, timeout);
            && (tx.Committed? <==> env.msp == MetaAt(l).value.bridge && LockAt(l, id) == None
                                   && num <= Remain(l) && Locked(l) + price * num <= price * Remain(l))
            && (tx.Committed? ==>
                  && Locked(l) + price * num < TWO64
                  && tx.ledger == l[LockKey(id) := LockEntry(price * num, env.now, timeout, true)]
                                   [KEY_LOCK_TOTAL := Num(Locked(l) + price * num)])
  {
    AvailableExactly(l, price, rooms, num);
    if num <= Hotel.Available(l).value {
      ValueIsExact(price, num, rooms);
      MulMono(price, Remain(l), rooms);
      if Hotel.BridgeError(env, l) == None && LockAt(l, id) == None {
        Hotel.LockWrites(env, l, id, num, timeout, Locked(l));
      }
    }
  }

  lemma LockKeepsInv(env: Env, l: Ledger, price: nat, rooms: nat, id: string, num: u64, timeout: u64)
    requires Inv(l, price, rooms) && num > 0 && id != "TOTAL"
    ensures var tx := Hotel.Lock(env, l, l, id, num, timeout);
            tx.Committed? ==> Inv(tx.ledger, price, rooms) && Charged(tx.ledger) == Charged(l) && Booked(tx.ledger) == Booked(l)
  {
    LockShape(env, l, price, rooms, id, num, timeout);
    if Hotel.Lock(env, l, l, id, num, timeout).Committed? {
      LockWritesKeepInv(l, price, rooms, id, LockEntry(price * num, env.now, timeout, true), num);
    }
  }

  lemma LockWritesKeepInv(l: Ledger, price: nat, rooms: nat, id: string, entry: Cell, num: nat)
    requires Inv(l, price, rooms) && id != "TOTAL" && LockAt(l, id) == None
    requires entry.LockEntry? && entry.active && entry.lockedAmount == price * num
    requires Locked(l) + price * num <= price * Remain(l) && Locked(l) + price * num < TWO64
    ensures var l' := l[LockKey(id) := entry][KEY_LOCK_TOTAL := Num(Locked(l) + price * num)];
            Inv(l', price, rooms) && Charged(l') == Charged(l) && Booked(l') == Booked(l)
  {
    KeysDistinct(id, "");
    KeyWeights(id, "");
    Put(l, LockKey(id), entry);
    Put(l[LockKey(id) := entry], KEY_LOCK_TOTAL, Num(Locked(l) + price * num));
    Multiple(price, num);
  }

  /** A release gives back exactly what the lock reserved: the clamp never acts. */
  lemma ReleaseShape(l: Ledger, price: nat, rooms: nat, id: string)
    requires Inv(l, price, rooms)
    ensures var tx := Hotel.Release(l, l, id);
            && (tx.Committed? <==> LockAt(l, id).Some?)
            && (tx.Committed? ==>
                  && LockAt(l, id).value.lockedAmount <= Locked(l)
                  && tx.ledger == l[KEY_LOCK_TOTAL := Num(Locked(l) - LockAt(l, id).value.lockedAmount)] - {LockKey(id)})
  {
    KeyWeights(id, "");
    Bounded(l, LockWeight, LockKey(id));
  }

  lemma ReleaseKeepsInv(l: Ledger, price: nat, rooms: nat, id: string)
    requires Inv(l, price, rooms) && LockAt(l, id).Some?
    ensures var l' := Hotel.Release(l, l, id).ledger;
            && Inv(l', price, rooms) && Charged(l') == Charged(l) && Booked(l') == Booked(l) && MetaAt(l') == MetaAt(l)
            && Locked(l') == Locked(l) - LockAt(l, id).value.lockedAmount
            && (forall user :: NumOrZero(l', AccountKey(user)) == NumOrZero(l, AccountKey(user)))
            && (forall user :: NumOrZero(l', BookingKey(user)) == NumOrZero(l, BookingKey(user)))
  {
    ReleaseShape(l, price, rooms, id);
    KeysDistinct(id, "");
    KeyWeights(id, "");
    var total := Num(Locked(l) - LockAt(l, id).value.lockedAmount);
    Put(l, KEY_LOCK_TOTAL, total);
    Del(l[KEY_LOCK_TOTAL := total], LockKey(id));
    forall user ensures AccountKey(user) !in {KEY_LOCK_TOTAL, LockKey(id)} && BookingKey(user) !in {KEY_LOCK_TOTAL, LockKey(id)} {
      KeysDistinct(id, user);
    }
  }
}
