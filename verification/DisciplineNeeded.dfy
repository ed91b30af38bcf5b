/** The discipline asks that locks are for at least one room and that plain locks stay away from ids
    with pending operations.  What goes wrong otherwise, and when. */
module DisciplineNeeded {
  import opened Prelude
  import opened Arith
  import MapSum
  import opened FabricLedger
  import opened Participant
  import opened ParticipantSafety
  import opened ParticipantRuns
  import Hotel = HotelBooking
  import Bridge = XBridge

  // ---------------------------------------------------------------- locks for no rooms

  /** A lock of `id` by the bridge while no lock of that id is active. */
  ghost predicate Lockable(env: Env, l: Ledger, price: nat, rooms: nat, id: string) {
    Inv(l, price, rooms) && id != "TOTAL" && env.msp == MetaAt(l).value.bridge && LockAt(l, id) == None
  }

  function LockSize(l: Ledger): u64
    requires MetaAt(l).Some?
  {
    MetaAt(l).value.lockSize
  }

  /** What a lock for zero rooms reserves: the value of the lock size, in 64 bits. */
  function DefaultAmount(l: Ledger): u64
    requires MetaAt(l).Some?
  {
    Mul64(LockSize(l), MetaAt(l).value.price)
  }

  /** A zero-room lock is never refused for lack of rooms. */
  lemma ZeroRoomLockShape(env: Env, l: Ledger, price: nat, rooms: nat, id: string, timeout: u64)
    requires Lockable(env, l, price, rooms, id)
    ensures var tx := Hotel.Lock(env, l, l, id, 0, timeout);
            && tx.Committed?
            && tx.ledger == Hotel.WithLock(l, id, LockEntry(DefaultAmount(l), env.now, timeout, true), Add64(Locked(l), DefaultAmount(l)))
  {
    AvailableExactly(l, price, rooms, 0);
    Hotel.LockWrites(env, l, id, 0, timeout, Locked(l));
  }

  /** MAIN RESULT.  A zero-room lock keeps the invariant exactly when what it reserves is the value of
      whole rooms and fits beside the locked value.  While the value of the lock size stays within 64
      bits, that is when as many rooms as the lock size were free. */
  lemma ZeroRoomLockIsSafeExactly(env: Env, l: Ledger, price: nat, rooms: nat, id: string, timeout: u64)
    requires Lockable(env, l, price, rooms, id)
    ensures var tx := Hotel.Lock(env, l, l, id, 0, timeout);
            && tx.Committed? && Hotel.Available(l).Ok?
            && (Inv(tx.ledger, price, rooms)
                <==> DefaultAmount(l) % price == 0 && Locked(l) + DefaultAmount(l) <= price * Remain(l))
            && (price * LockSize(l) < TWO64 ==>
                  (Inv(tx.ledger, price, rooms) <==> LockSize(l) <= Hotel.Available(l).value))
  {
    var amount := DefaultAmount(l);
    ZeroRoomLockShape(env, l, price, rooms, id, timeout);
    AvailableExactly(l, price, rooms, LockSize(l));
    EntryIsSafeExactly(l, price, rooms, id, LockEntry(amount, env.now, timeout, true), Add64(Locked(l), amount));
    if price * LockSize(l) < TWO64 {
      RoomsCovered(price, Locked(l), Remain(l), LockSize(l));
    }
  }

  /** Any new entry beside any new total that is at least right if nothing wraps around. */
  lemma EntryIsSafeExactly(l: Ledger, price: nat, rooms: nat, id: string, entry: Cell, total: u64)
    requires Inv(l, price, rooms) && id != "TOTAL" && LockAt(l, id) == None && entry.LockEntry? && entry.active
    requires total == Add64(Locked(l), entry.lockedAmount)
    ensures Inv(Hotel.WithLock(l, id, entry, total), price, rooms)
            <==> entry.lockedAmount % price == 0 && Locked(l) + entry.lockedAmount <= price * Remain(l)
  {
    var amount := entry.lockedAmount;
    var l' := Hotel.WithLock(l, id, entry, total);
    LockTotals(l, id, entry, Num(total));
    if amount % price != 0 {
      KeysDistinct(id, "");
      KeyWeights(id, "");
      assert LockWeight(LockKey(id), l'[LockKey(id)]) == amount;
    } else if Locked(l) + amount <= price * Remain(l) {
      MulMono(price, Remain(l), rooms);
      var num := Whole(price, amount);
      LockWritesKeepInv(l, price, rooms, id, entry, num);
    }
  }

  lemma LockTotals(l: Ledger, id: string, entry: Cell, total: Cell)
    requires id != "TOTAL" && LockAt(l, id) == None && entry.LockEntry? && entry.active && total.Num?
    requires KEY_LOCK_TOTAL in l && l[KEY_LOCK_TOTAL].Num?
    ensures var l' := l[LockKey(id) := entry][KEY_LOCK_TOTAL := total];
            Locked(l') == Locked(l) + entry.lockedAmount && MetaAt(l') == MetaAt(l)
  {
    KeysDistinct(id, "");
    KeyWeights(id, "");
    Put(l, LockKey(id), entry);
    Put(l[LockKey(id) := entry], KEY_LOCK_TOTAL, total);
  }

  /** The value of `size` rooms is the value of whole rooms, and fits only if the rooms are there. */
  lemma RoomsCovered(price: u64, locked: nat, remain: nat, size: u64)
    requires price > 0 && price * size < TWO64
    ensures Mul64(size, price) == price * size && (price * size) % price == 0
    ensures locked + price * size <= price * remain ==> size <= remain
  {
    Multiple(price, size);
    CancelOrMono(price, size, remain);
  }

  // ---------------------------------------------------------------- and the commits after them

  /** In any ledger, the commit of a lock of `num` rooms goes through exactly when the lock total is
      worth no more rooms than are left. */
  lemma CommitNeedsRooms(env: Env, l: Ledger, price: nat, id: string, user: string, num: u64)
    requires MetaAt(l).Some? && MetaAt(l).value.price == price > 0 && id != "TOTAL" && 0 < num <= Remain(l)
    requires LockAt(l, id).Some? && LockAt(l, id).value.lockedAmount == price * num
    requires env.ownWrites && Hotel.BridgeError(env, l) == None
    ensures Bridge.ReleaseAndBook(env, l, l, id, user, num).Committed? <==> Floor(NumOrZero(l, KEY_LOCK_TOTAL), price) <= Remain(l)
  {
    var total := NumOrZero(l, KEY_LOCK_TOTAL);
    KeysDistinct(id, user);
    FloorAfterRelease(price, total, num);
    var d := Hotel.Release(l, l, id).ledger;
    assert MetaAt(d) == MetaAt(l);
    assert NumOrZero(d, KEY_LOCK_TOTAL) == if price * num > total then 0 else total - price * num;
  }

  lemma FloorAfterRelease(price: nat, total: nat, num: nat)
    requires price > 0
    ensures var q := Floor(total, price);
            Floor(if price * num > total then 0 else total - price * num, price) == if num > q then 0 else q - num
  {
    var q := Floor(total, price);
    FloorBounds(total, price);
    if price * num > total {
      CancelOrMono(price, num, q);
      FloorOfMultiple(price, 0);
    } else {
      CancelOrMono(price, q + 1, num);
      FloorLess(price, total, q, num);
    }
  }

  lemma FloorLess(price: nat, total: nat, q: nat, num: nat)
    requires price > 0 && num <= q && price * q <= total < price * (q + 1)
    ensures total - price * num >= 0 && Floor(total - price * num, price) == q - num
  {
    MulMono(price, num, q);
    assert price * (q - num) == price * q - price * num;
    assert price * (q + 1) == price * q + price;
    DivModUnique(total - price * num, price, q - num, total - price * q);
  }

  /** The rooms are still there to commit: the lock total after a zero-room lock, as 64 bits hold it,
      is worth no more of them than are left. */
  predicate StillCommits(l: Ledger, price: nat)
    requires MetaAt(l).Some? && price > 0
  {
    Floor(Add64(NumOrZero(l, KEY_LOCK_TOTAL), DefaultAmount(l)), price) <= Remain(l)
  }

  /** MAIN RESULT.  After a zero-room lock a prepared operation can be committed by the authorised
      caller, and the lock it holds is unchanged, exactly when `StillCommits` held before.  If not,
      the rooms it locked can be booked by neither protocol. */
  lemma ZeroRoomLockDecidesCommits(env: Env, l: Ledger, price: nat, rooms: nat, z: string, timeout: u64, later: Env, id: string)
    requires Lockable(env, l, price, rooms, z) && later.ownWrites
    requires LockAt(l, id).Some? && PreparedId(l, id, price) && id != "TOTAL"
    ensures var tx := Hotel.Lock(env, l, l, z, 0, timeout);
            && tx.Committed?
            && LockAt(tx.ledger, id) == LockAt(l, id) && PendingAt(tx.ledger, id) == PendingAt(l, id)
            && (Effect(later, tx.ledger, AtomUnlock(id)).Some? <==> Authorised(later, tx.ledger) && StillCommits(l, price))
            && (Effect(later, tx.ledger, GPACTSignalling(id, true, false)).Some?
                <==> Authorised(later, tx.ledger) && StillCommits(l, price) && PendingAt(l, id).value.amountA != 0)
  {
    ZeroRoomLockShape(env, l, price, rooms, z, timeout);
    var total := Add64(Locked(l), DefaultAmount(l));
    WriteDecidesCommits(l, price, rooms, z, LockEntry(DefaultAmount(l), env.now, timeout, true), total, later, id);
  }

  lemma WriteDecidesCommits(l: Ledger, price: nat, rooms: nat, z: string, entry: Cell, total: u64, later: Env, id: string)
    requires Inv(l, price, rooms) && z != "TOTAL" && z != id && entry.LockEntry? && later.ownWrites
    requires LockAt(l, id).Some? && PreparedId(l, id, price) && id != "TOTAL"
    ensures var l' := Hotel.WithLock(l, z, entry, total);
            var covered := Floor(total, price) <= Remain(l);
            && LockAt(l', id) == LockAt(l, id) && PendingAt(l', id) == PendingAt(l, id)
            && (Effect(later, l', AtomUnlock(id)).Some? <==> Authorised(later, l') && covered)
            && (Effect(later, l', GPACTSignalling(id, true, false)).Some?
                <==> Authorised(later, l') && covered && PendingAt(l, id).value.amountA != 0)
  {
    var l' := Hotel.WithLock(l, z, entry, total);
    var op := PendingAt(l, id).value;
    LockWritesSpare(l, z, id, entry, total);
    LockedRoomsExist(l, price, rooms, id, PendingRooms(op));
    if Bridge.RelayerError(later, l') == None {
      CommitEffects(later, l', id);
      if Hotel.BridgeError(later, l') == None {
        CommitNeedsRooms(later, l', price, id, op.user, PendingRooms(op));
      }
    }
  }

  lemma LockWritesSpare(l: Ledger, z: string, id: string, entry: Cell, total: u64)
    requires z != "TOTAL" && id != z && id != "TOTAL" && entry.LockEntry?
    ensures var l' := Hotel.WithLock(l, z, entry, total);
            && LockAt(l', id) == LockAt(l, id) && PendingAt(l', id) == PendingAt(l, id)
            && MetaAt(l') == MetaAt(l) && NumOrZero(l', KEY_LOCK_TOTAL) == total
  {
    OtherKeys(id, z, "");
    OtherKeys(z, id, "");
    OtherPendingKeys(id, z, "");
  }

  /** While nothing wraps around, commits go on exactly if as many rooms as the lock size were free. */
  lemma StillCommitsExactly(l: Ledger, price: nat, rooms: nat)
    requires Inv(l, price, rooms) && Locked(l) + price * LockSize(l) < TWO64
    ensures Hotel.Available(l).Ok? && (StillCommits(l, price) <==> LockSize(l) <= Hotel.Available(l).value)
  {
    var size := LockSize(l);
    AvailableExactly(l, price, rooms, size);
    RoomsCovered(price, Locked(l), Remain(l), size);
    MapSum.Divisible(l, LockWeight, price);
    FloorCovers(price, Locked(l), size, Remain(l));
  }

  lemma FloorCovers(price: nat, locked: nat, size: nat, remain: nat)
    requires price > 0 && locked % price == 0
    ensures Floor(locked + price * size, price) <= remain <==> locked + price * size <= price * remain
  {
    var q := Whole(price, locked);
    assert locked + price * size == price * (q + size);
    FloorOfMultiple(price, q + size);
    CancelOrMono(price, q + size, remain);
  }

  /** MAIN RESULT.  So, while nothing wraps around: if as many rooms as the lock size are free, every
      prepared operation can still be committed and books exactly its locked rooms; if not, none can
      be committed, by either protocol and whoever calls. */
  lemma UncoveredZeroRoomLockBlocksCommits(env: Env, l: Ledger, price: nat, rooms: nat, z: string, timeout: u64, later: Env, id: string)
    requires Lockable(env, l, price, rooms, z) && Locked(l) + price * LockSize(l) < TWO64 && later.ownWrites
    requires LockAt(l, id).Some? && PreparedId(l, id, price) && id != "TOTAL"
    ensures var tx := Hotel.Lock(env, l, l, z, 0, timeout);
            && tx.Committed? && Hotel.Available(l).Ok? && LockAt(tx.ledger, id) == LockAt(l, id)
            && (if LockSize(l) <= Hotel.Available(l).value
                then Authorised(later, tx.ledger) ==> CommitsItsLock(later, tx.ledger, price, id)
                else Effect(later, tx.ledger, AtomUnlock(id)) == None
                     && Effect(later, tx.ledger, GPACTSignalling(id, true, false)) == None)
  {
    var tx := Hotel.Lock(env, l, l, z, 0, timeout);
    ZeroRoomLockDecidesCommits(env, l, price, rooms, z, timeout, later, id);
    StillCommitsExactly(l, price, rooms);
    ZeroRoomLockIsSafeExactly(env, l, price, rooms, z, timeout);
    if Inv(tx.ledger, price, rooms) && Authorised(later, tx.ledger) {
      CommitGoesThrough(later, tx.ledger, price, rooms, id);
    }
  }

  // ---------------------------------------------------------------- plain locks on a bridged id

  /** Whether the commits of `id` go through, and that they book `num` rooms if they do. */
  ghost predicate CommitsOperation(later: Env, l: Ledger, id: string, price: nat, goes: bool) {
    && PendingAt(l, id).Some?
    && BooksOperation(l, Effect(later, l, AtomUnlock(id)), id, PendingAt(l, id).value, price, goes)
    && Effect(later, l, GPACTSignalling(id, true, false))
       == (if PendingAt(l, id).value.amountA != 0 then Effect(later, l, AtomUnlock(id)) else None)
  }

  ghost predicate BooksOperation(l: Ledger, commit: Option<Ledger>, id: string, op: Cell, price: nat, goes: bool)
    requires op.PendingOp?
  {
    && (commit.Some? <==> goes)
    && (goes ==> BooksLock(l, commit, id, op.user, PendingRooms(op), price * PendingRooms(op)))
  }

  /** A lock of `num` rooms, whatever the pending operation of its id is for.  Its commit goes through
      exactly when the caller is authorised and the rooms of the operation are free once the lock is
      released, and then books those rooms. */
  lemma LockCommitsExactly(l: Ledger, price: nat, rooms: nat, id: string, later: Env)
    requires Inv(l, price, rooms) && id != "TOTAL" && PendingAt(l, id).Some? && LockAt(l, id).Some? && later.ownWrites
    ensures var k := PendingRooms(PendingAt(l, id).value);
            CommitsOperation(later, l, id, price, Authorised(later, l) && k > 0 && FreeBesideOthers(l, id, k))
  {
    var op := PendingAt(l, id).value;
    if Authorised(later, l) {
      CommitEffects(later, l, id);
      ReleasedRoomsBook(later, l, price, rooms, id, op.user, PendingRooms(op));
    }
  }

  /** MAIN RESULT.  A plain lock of an id that has a pending operation, left over from a lock that was
      released by time-out or rollback: its commit goes through exactly when the caller is authorised
      and the rooms of the old operation, however many, were free before the lock.  It then books the
      old number of rooms, so the commit is that of the lock exactly when the two numbers agree. */
  lemma StaleOperationCommitsExactly(env: Env, l: Ledger, price: nat, rooms: nat, id: string, num: u64, timeout: u64, later: Env)
    requires Inv(l, price, rooms) && id != "TOTAL" && PendingAt(l, id).Some? && num > 0 && later.ownWrites
    ensures var tx := Hotel.Lock(env, l, l, id, num, timeout);
            var k := PendingRooms(PendingAt(l, id).value);
            tx.Committed? ==>
              && LocksExactly(l, tx.ledger, id, num, price) && PendingAt(tx.ledger, id) == PendingAt(l, id)
              && CommitsOperation(later, tx.ledger, id, price, Authorised(later, tx.ledger) && k > 0 && Bookable(l, price, rooms, k))
              && (CommitsItsLock(later, tx.ledger, price, id) <==> Authorised(later, tx.ledger) && k == num)
  {
    var tx := Hotel.Lock(env, l, l, id, num, timeout);
    if tx.Committed? {
      var k := PendingRooms(PendingAt(l, id).value);
      LockIsExact(env, l, price, rooms, id, num, timeout);
      LockKeepsInv(env, l, price, rooms, id, num, timeout);
      HotelSparesPending(env, l, id, num, timeout, id);
      OthersAsBefore(env, l, price, rooms, id, num, timeout, k);
      LockCommitsExactly(tx.ledger, price, rooms, id, later);
      OwnLockExactly(tx.ledger, price, rooms, id, num, later);
    }
  }

  /** Beside a new lock the rooms are free that were free before it. */
  lemma OthersAsBefore(env: Env, l: Ledger, price: nat, rooms: nat, id: string, num: u64, timeout: u64, k: u64)
    requires Inv(l, price, rooms) && id != "TOTAL" && num > 0 && Hotel.Lock(env, l, l, id, num, timeout).Committed?
    ensures var l' := Hotel.Lock(env, l, l, id, num, timeout).ledger;
            && MetaAt(l').Some? && LockAt(l', id).Some?
            && (FreeBesideOthers(l', id, k) <==> Bookable(l, price, rooms, k))
  {
    LockShape(env, l, price, rooms, id, num, timeout);
    KeysDistinct(id, "");
  }

  /** A lock of `num` rooms is what its commit books exactly if the operation is for as many. */
  lemma OwnLockExactly(l: Ledger, price: nat, rooms: nat, id: string, num: nat, later: Env)
    requires Inv(l, price, rooms) && id != "TOTAL" && PendingAt(l, id).Some? && LockAt(l, id).Some? && later.ownWrites
    requires LockAt(l, id).value.lockedAmount == price * num && num > 0
    ensures CommitsItsLock(later, l, price, id) <==> Authorised(later, l) && PendingRooms(PendingAt(l, id).value) == num
  {
    var k := PendingRooms(PendingAt(l, id).value);
    CancelOrMono(price, k, num);
    CancelOrMono(price, num, k);
    if Authorised(later, l) {
      if k == num {
        CommitGoesThrough(later, l, price, rooms, id);
      }
    } else {
      CommitNeedsAuthority(later, l, id);
    }
  }

  lemma CommitNeedsAuthority(later: Env, l: Ledger, id: string)
    requires !Authorised(later, l)
    ensures Effect(later, l, AtomUnlock(id)) == None && Effect(later, l, GPACTSignalling(id, true, false)) == None
  {
  }

  /** In particular a commit may book fewer rooms than its lock holds, and forget about the others. */
  lemma StaleOperationBooksOldRooms(env: Env, l: Ledger, price: nat, rooms: nat, id: string, num: u64, timeout: u64, later: Env)
    requires Inv(l, price, rooms) && id != "TOTAL" && PendingAt(l, id).Some?
    requires 0 < PendingRooms(PendingAt(l, id).value) < num
    ensures var tx := Hotel.Lock(env, l, l, id, num, timeout);
            tx.Committed? && later.ownWrites && Authorised(later, tx.ledger) ==>
              && LocksExactly(l, tx.ledger, id, num, price)
              && PendingAt(tx.ledger, id) == PendingAt(l, id)
              && CommitsOperation(later, tx.ledger, id, price, true)
  {
    var tx := Hotel.Lock(env, l, l, id, num, timeout);
    if tx.Committed? && later.ownWrites {
      StaleOperationCommitsExactly(env, l, price, rooms, id, num, timeout, later);
      LockShape(env, l, price, rooms, id, num, timeout);
      MulMono(price, PendingRooms(PendingAt(l, id).value), num);
    }
  }
}
