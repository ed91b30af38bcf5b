/** Runs of the participant from a fresh hotel that end in each failure: commits that only go through if
    reads see the call's own writes, or only by ATOM; a commit blocked by a zero-room lock; a commit
    that books the rooms of an old operation; a deadline that wraps around; a lock that is lost. */
module ReachableFailures {
  import opened Prelude
  import opened FabricLedger
  import opened Participant
  import opened ParticipantSafety
  import opened ParticipantRuns
  import opened DisciplineNeeded
  import opened Readings
  import opened TotalLock
  import Hotel = HotelBooking
  import Bridge = XBridge

  /** The one peer of these runs, which is both the relayer and the bridge of the hotel. */
  function Peer(now: u64): Env {
    Env([1], "client", now, true, seq(32, i => 0), seq(32, i => 0))
  }

  function At(now: u64, call: Call): Step { Step(Peer(now), call) }

  function Operation(a: u64, b: u64): Cell { PendingOp(a, b, "hotel", "u", true) }

  /** A hotel at price 1, its bridge, and an ATOM lock with the two given amounts under id "a". */
  function Opening(a: u64, b: u64): seq<Step> {
    [At(0, BridgeInit([1], ""))] + [At(0, AtomLockDo("a", "hotel", "u", a, b))]
  }

  function Opened(rooms: u64, size: u64, a: u64, b: u64): Ledger {
    Run(Fresh([1], 1, rooms, size), Opening(a, b))
  }

  lemma RunSnoc(l: Ledger, steps: seq<Step>, s: Step)
    ensures Run(l, steps + [s]) == Next(Run(l, steps), s)
    ensures forall bridged, price :: DisciplinedRun(l, steps, bridged, price) && Disciplined(Run(l, steps), s, bridged, price)
                                     ==> DisciplinedRun(l, steps + [s], bridged, price)
  {
    assert (steps + [s])[..|steps + [s]| - 1] == steps;
  }

  /** `n` rooms are locked under id "a" by the operation with the two amounts, and nothing else is. */
  ghost predicate RoomsLocked(l: Ledger, rooms: u64, size: u64, a: u64, b: u64, n: u64) {
    && Inv(l, 1, rooms) && Remain(l) == rooms && Locked(l) == n && LockSize(l) == size
    && LockAt(l, "a") == Some(LockEntry(n, 0, Bridge.ATOM_TIMEOUT, true)) && PendingAt(l, "a") == Some(Operation(a, b))
    && LockAt(l, "z") == None
    && (forall now :: Authorised(Peer(now), l))
  }

  lemma OpeningLocksRooms(rooms: u64, size: u64, a: u64, b: u64)
    requires 0 < Bridge.AtomAmount(a, b) <= rooms && size > 0
    ensures RoomsLocked(Opened(rooms, size, a, b), rooms, size, a, b, Bridge.AtomAmount(a, b))
  {
    var l0 := Fresh([1], 1, rooms, size);
    var first, second := At(0, BridgeInit([1], "")), At(0, AtomLockDo("a", "hotel", "u", a, b));
    FreshIsSound([1], 1, rooms, size);
    RunSnoc(l0, [], first);
    RunSnoc(l0, [first], second);
    assert [] + [first] == [first];
    BridgeOpens(l0, rooms, size);
    LockOpens(Next(l0, first), rooms, size, a, b);
  }

  lemma OpeningIsDisciplined(rooms: u64, size: u64, a: u64, b: u64)
    ensures DisciplinedRun(Fresh([1], 1, rooms, size), Opening(a, b), {"a"}, 1)
  {
    var l0 := Fresh([1], 1, rooms, size);
    var first, second := At(0, BridgeInit([1], "")), At(0, AtomLockDo("a", "hotel", "u", a, b));
    RunSnoc(l0, [], first);
    RunSnoc(l0, [first], second);
    assert [] + [first] == [first];
  }

  /** The hotel and its bridge are up and nothing is locked. */
  ghost predicate Open(l: Ledger, rooms: u64, size: u64) {
    && Inv(l, 1, rooms) && Remain(l) == rooms && LockSize(l) == size && Locked(l) == 0
    && LockAt(l, "a") == None && LockAt(l, "z") == None
    && (forall now :: Authorised(Peer(now), l))
  }

  lemma BridgeOpens(l0: Ledger, rooms: u64, size: u64)
    requires size > 0 && l0 == Fresh([1], 1, rooms, size) && Inv(l0, 1, rooms)
    requires forall id :: LockAt(l0, id) == None
    ensures Open(Next(l0, At(0, BridgeInit([1], ""))), rooms, size)
  {
    var l1 := l0[KEY_BRIDGE_META := BridgeMeta([1], "hotel_booking")];
    MetaWriteKeepsInv(l0, 1, rooms, KEY_BRIDGE_META, l1[KEY_BRIDGE_META]);
    assert Next(l0, At(0, BridgeInit([1], ""))) == l1;
    forall id ensures LockAt(l1, id) == LockAt(l0, id) {
      KeysDistinct(id, "");
    }
  }

  lemma LockOpens(l1: Ledger, rooms: u64, size: u64, a: u64, b: u64)
    requires Open(l1, rooms, size) && 0 < Bridge.AtomAmount(a, b) <= rooms
    ensures RoomsLocked(Next(l1, At(0, AtomLockDo("a", "hotel", "u", a, b))), rooms, size, a, b, Bridge.AtomAmount(a, b))
  {
    var n := Bridge.AtomAmount(a, b);
    assert Authorised(Peer(0), l1);
    LockShape(Peer(0), l1, 1, rooms, "a", n, Bridge.ATOM_TIMEOUT);
    AtomLockLedger(Peer(0), l1, "a", "hotel", "u", a, b);
    RecordedLock(l1, rooms, size, a, b, n);
  }

  lemma RecordedLock(l1: Ledger, rooms: u64, size: u64, a: u64, b: u64, n: u64)
    requires Open(l1, rooms, size) && 0 < n <= rooms
    ensures var entry := LockEntry(n, 0, Bridge.ATOM_TIMEOUT, true);
            RoomsLocked(Hotel.WithLock(l1, "a", entry, n)[PendingKey("a") := Operation(a, b)], rooms, size, a, b, n)
  {
    var entry := LockEntry(n, 0, Bridge.ATOM_TIMEOUT, true);
    var l2 := Hotel.WithLock(l1, "a", entry, n);
    var l3 := l2[PendingKey("a") := Operation(a, b)];
    LockWritesKeepInv(l1, 1, rooms, "a", entry, n);
    KeysDistinct("a", "");
    MetaWriteKeepsInv(l2, 1, rooms, PendingKey("a"), Operation(a, b));
    OtherKeys("z", "a", "");
    OtherPendingKeys("a", "a", "");
    forall now ensures Authorised(Peer(now), l3) {
      assert Authorised(Peer(now), l1);
    }
  }

  // ---------------------------------------------------------------- committed-only reads

  /** MAIN RESULT.  The last room of a hotel is locked by a disciplined run.  Both protocols can commit
      it if reads see the call's own writes; neither can if they see committed state only. */
  lemma LastRoomNeedsOwnWrites(size: u64)
    requires size > 0
    ensures DisciplinedRun(Fresh([1], 1, 1, size), Opening(1, 0), {"a"}, 1)
    ensures var l := Opened(1, size, 1, 0);
            && CommitsItsLock(Own(Peer(1)), l, 1, "a") && PendingAt(l, "a").value.amountA != 0
            && Effect(CommittedOnly(Peer(1)), l, AtomUnlock("a")) == None
            && Effect(CommittedOnly(Peer(1)), l, GPACTSignalling("a", true, false)) == None
  {
    OpeningIsDisciplined(1, size, 1, 0);
    OpeningLocksRooms(1, size, 1, 0);
    LastRoomLocked(Opened(1, size, 1, 0), size);
  }

  lemma LastRoomLocked(l: Ledger, size: u64)
    requires RoomsLocked(l, 1, size, 1, 0, 1)
    ensures CommitsItsLock(Own(Peer(1)), l, 1, "a")
    ensures Effect(CommittedOnly(Peer(1)), l, AtomUnlock("a")) == None
    ensures Effect(CommittedOnly(Peer(1)), l, GPACTSignalling("a", true, false)) == None
  {
    assert Authorised(Peer(1), l);
    CommitGoesThrough(Own(Peer(1)), l, 1, 1, "a");
    AvailableExactly(l, 1, 1, 1);
    CommitCallReadings(Peer(1), l, 1, 1, AtomUnlock("a"));
    CommitCallReadings(Peer(1), l, 1, 1, GPACTSignalling("a", true, false));
  }

  // ---------------------------------------------------------------- an operation without a first amount

  /** MAIN RESULT.  An ATOM lock that names its rooms by the second amount only, as the code allows, is
      committed by ATOM and refused by GPACT. */
  lemma SecondAmountNeedsAtom(rooms: u64, size: u64, n: u64)
    requires 0 < n <= rooms && size > 0
    ensures DisciplinedRun(Fresh([1], 1, rooms, size), Opening(0, n), {"a"}, 1)
    ensures var l := Opened(rooms, size, 0, n);
            && BooksLock(l, Effect(Peer(1), l, AtomUnlock("a")), "a", "u", n, n)
            && Effect(Peer(1), l, GPACTSignalling("a", true, false)) == None
  {
    OpeningIsDisciplined(rooms, size, 0, n);
    OpeningLocksRooms(rooms, size, 0, n);
    SecondAmountCommits(Opened(rooms, size, 0, n), rooms, size, n);
  }

  lemma SecondAmountCommits(l: Ledger, rooms: u64, size: u64, n: u64)
    requires RoomsLocked(l, rooms, size, 0, n, n) && n > 0
    ensures BooksLock(l, Effect(Peer(1), l, AtomUnlock("a")), "a", "u", n, n)
    ensures Effect(Peer(1), l, GPACTSignalling("a", true, false)) == None
  {
    assert Authorised(Peer(1), l);
    CommitGoesThrough(Peer(1), l, 1, rooms, "a");
  }

  // ---------------------------------------------------------------- a zero-room lock

  /** MAIN RESULT.  After a lock of the last room one zero-room lock, in a hotel with a larger lock size,
      leaves the locked room to be committed by nobody, although it is still locked. */
  lemma ZeroRoomLockBlocksReachably(size: u64, now: u64)
    requires 1 < size && 1 + size < TWO64
    ensures var l := Run(Fresh([1], 1, 1, size), Opening(1, 0) + [At(0, LockState("z", 0, 30))]);
            && LockAt(l, "a") == LockAt(Opened(1, size, 1, 0), "a") && LockAt(l, "a").Some? && Authorised(Peer(now), l)
            && Effect(Peer(now), l, AtomUnlock("a")) == None
            && Effect(Peer(now), l, GPACTSignalling("a", true, false)) == None
  {
    var l := Opened(1, size, 1, 0);
    OpeningLocksRooms(1, size, 1, 0);
    RunSnoc(Fresh([1], 1, 1, size), Opening(1, 0), At(0, LockState("z", 0, 30)));
    AvailableExactly(l, 1, 1, size);
    UncoveredZeroRoomLockBlocksCommits(Peer(0), l, 1, 1, "z", 30, Peer(now), "a");
    ZeroRoomLockShape(Peer(0), l, 1, 1, "z", 30);
    assert Authorised(Peer(now), l);
    LockSparesRoles(l, "z", LockEntry(DefaultAmount(l), 0, 30, true), Add64(Locked(l), DefaultAmount(l)), Peer(now));
  }

  lemma LockSparesRoles(l: Ledger, z: string, entry: Cell, total: u64, env: Env)
    requires Authorised(env, l)
    ensures Authorised(env, Hotel.WithLock(l, z, entry, total))
  {
    KeysDistinct(z, "");
  }

  // ---------------------------------------------------------------- a left-over operation

  /** The lock of the run times out, leaving its operation for `k` rooms behind; then a plain lock of
      `num` rooms under the same id. */
  function Relocked(rooms: u64, size: u64, k: u64, num: u64): Ledger {
    Run(Fresh([1], 1, rooms, size), Opening(k, 0) + [At(31, UnlockOnTimeout("a"))] + [At(31, LockState("a", num, 30))])
  }

  /** MAIN RESULT.  That lock is committed as the old operation: `k` rooms are booked where `num` were
      held, whether fewer or more. */
  lemma StaleCommitBooksReachably(rooms: u64, size: u64, k: u64, num: u64)
    requires 0 < k <= rooms && 0 < num <= rooms && size > 0
    ensures var l := Relocked(rooms, size, k, num);
            && LockAt(l, "a").Some? && LockAt(l, "a").value.lockedAmount == num
            && BooksLock(l, Effect(Peer(32), l, AtomUnlock("a")), "a", "u", k, k)
            && Effect(Peer(32), l, GPACTSignalling("a", true, false)) == Effect(Peer(32), l, AtomUnlock("a"))
  {
    var l0 := Fresh([1], 1, rooms, size);
    OpeningLocksRooms(rooms, size, k, 0);
    RunSnoc(l0, Opening(k, 0), At(31, UnlockOnTimeout("a")));
    RunSnoc(l0, Opening(k, 0) + [At(31, UnlockOnTimeout("a"))], At(31, LockState("a", num, 30)));
    TimeoutLeavesOperation(Opened(rooms, size, k, 0), rooms, size, k);
    RelockCommitsOld(Next(Opened(rooms, size, k, 0), At(31, UnlockOnTimeout("a"))), rooms, k, num);
  }

  /** No lock of "a" is active, but its operation is still on record. */
  ghost predicate OnlyOperationLeft(l: Ledger, rooms: u64, k: u64) {
    && Inv(l, 1, rooms) && Remain(l) == rooms && Locked(l) == 0 && LockAt(l, "a") == None
    && PendingAt(l, "a") == Some(Operation(k, 0))
    && (forall now :: Authorised(Peer(now), l))
  }

  lemma TimeoutLeavesOperation(l: Ledger, rooms: u64, size: u64, k: u64)
    requires RoomsLocked(l, rooms, size, k, 0, k)
    ensures OnlyOperationLeft(Next(l, At(31, UnlockOnTimeout("a"))), rooms, k)
  {
    TimeoutReleaseExactly(Peer(31), l, "a");
    ReleaseShape(l, 1, rooms, "a");
    ReleaseKeepsInv(l, 1, rooms, "a");
    ReleaseEnds(l, "a", "a");
    HotelSparesPending(Peer(31), l, "a", 0, 0, "a");
    KeysDistinct("a", "");
    forall now ensures Authorised(Peer(now), Hotel.Release(l, l, "a").ledger) {
      assert Authorised(Peer(now), l);
    }
  }

  lemma RelockCommitsOld(l: Ledger, rooms: u64, k: u64, num: u64)
    requires OnlyOperationLeft(l, rooms, k) && 0 < k <= rooms && 0 < num <= rooms
    ensures var l' := Next(l, At(31, LockState("a", num, 30)));
            && LockAt(l', "a").Some? && LockAt(l', "a").value.lockedAmount == num
            && BooksLock(l', Effect(Peer(32), l', AtomUnlock("a")), "a", "u", k, k)
            && Effect(Peer(32), l', GPACTSignalling("a", true, false)) == Effect(Peer(32), l', AtomUnlock("a"))
  {
    RelockShape(l, rooms, k, num);
    StaleOperationCommitsExactly(Peer(31), l, 1, rooms, "a", num, 30, Peer(32));
  }

  lemma RelockShape(l: Ledger, rooms: u64, k: u64, num: u64)
    requires OnlyOperationLeft(l, rooms, k) && 0 < num <= rooms
    ensures var tx := Hotel.Lock(Peer(31), l, l, "a", num, 30);
            tx.Committed? && Authorised(Peer(32), tx.ledger)
  {
    assert Authorised(Peer(31), l) && Authorised(Peer(32), l);
    LockShape(Peer(31), l, 1, rooms, "a", num, 30);
    LockSparesRoles(l, "a", LockEntry(num, 31, 30, true), num, Peer(32));
  }

  // ---------------------------------------------------------------- a deadline that wraps

  /** MAIN RESULT.  A lock that asks for the longest time-out can be timed out in its own block, by
      anybody, at every moment but the first. */
  lemma LongestTimeoutEndsAtOnce(rooms: u64, size: u64, num: u64, now: u64, caller: Env)
    requires 0 < num <= rooms && size > 0 && now > 0 && caller.now == now
    ensures var l := Run(Fresh([1], 1, rooms, size), [At(now, LockState("z", num, MAX64))]);
            && LockAt(l, "z") == Some(LockEntry(num, now, MAX64, true))
            && Effect(caller, l, UnlockOnTimeout("z")).Some?
  {
    var l0 := Fresh([1], 1, rooms, size);
    var lock := At(now, LockState("z", num, MAX64));
    FreshIsSound([1], 1, rooms, size);
    RunSnoc(l0, [], lock);
    assert [] + [lock] == [lock];
    FreshLockShape(l0, rooms, "z", num, now, MAX64);
    WrappedDeadlineReleasesAtOnce(caller, Next(l0, lock), "z");
  }

  lemma FreshLockShape(l: Ledger, rooms: u64, id: string, num: u64, now: u64, timeout: u64)
    requires Inv(l, 1, rooms) && Remain(l) == rooms && Locked(l) == 0 && MetaAt(l).value.bridge == [1]
    requires id != "TOTAL" && LockAt(l, id) == None && 0 < num <= rooms
    ensures LockAt(Next(l, At(now, LockState(id, num, timeout))), id) == Some(LockEntry(num, now, timeout, true))
  {
    LockShape(Peer(now), l, 1, rooms, id, num, timeout);
    KeysDistinct(id, "");
  }

  // ---------------------------------------------------------------- a lock of id "TOTAL"

  /** MAIN RESULT.  In a fresh hotel, where the lock total is zero and both readings agree, a lock of id
      "TOTAL" commits and is lost: nobody can release it, its value stays in the lock total,
      and one committed lock stands against no release and no active entry. */
  lemma TotalLockIsLostReachably(rooms: u64, size: u64, num: u64, now: u64, later: Env, call: Call)
    requires 0 < num <= rooms && size > 0 && ReleasesId(call, "TOTAL")
    ensures var l0 := Fresh([1], 1, rooms, size);
            var steps := [At(now, LockState("TOTAL", num, 30))];
            var l := Run(l0, steps);
            && NumAt(l0, KEY_LOCK_TOTAL) == Some(0) && NumAt(l, KEY_LOCK_TOTAL) == Some(num)
            && Balance(l0, steps, "TOTAL") == 1 && LockAt(l, "TOTAL") == None
            && Effect(later, l, call) == None
            && !Inv(l, 1, rooms)
  {
    var l0 := Fresh([1], 1, rooms, size);
    var lock := At(now, LockState("TOTAL", num, 30));
    FreshIsSound([1], 1, rooms, size);
    RunSnoc(l0, [], lock);
    assert [] + [lock] == [lock] && [lock][..0] == [];
    TotalLockGoesThrough(l0, rooms, num, now);
    PriceOneAmount(l0[KEY_META], num);
    TotalLockIsLost(Peer(now), l0, num, 30, later, call);
    TotalLockIsSafeExactly(Peer(now), l0, 1, rooms, num, 30);
  }

  /** At price 1 a lock reserves its number of rooms. */
  lemma PriceOneAmount(m: Cell, num: u64)
    requires m.Meta? && m.price == 1 && num > 0
    ensures Hotel.LockAmount(m, num) == num
  {
  }

  lemma TotalLockGoesThrough(l: Ledger, rooms: u64, num: u64, now: u64)
    requires Inv(l, 1, rooms) && Remain(l) == rooms && Locked(l) == 0 && MetaAt(l).value.bridge == [1]
    requires LockAt(l, "TOTAL") == None && 0 < num <= rooms
    ensures Hotel.Lock(Peer(now), l, l, "TOTAL", num, 30).Committed?
  {
    AvailableExactly(l, 1, rooms, num);
    TotalLockCommits(Peer(now), l, num, 30);
  }
}
