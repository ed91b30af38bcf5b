/** Locks of id "TOTAL".  Their key is the key of the lock total, so the total the lock raises
    overwrites the entry it has just written: such a lock commits, is never active, and cannot be
    released by anybody. */
module TotalLock {
  import opened Prelude
  import opened FabricLedger
  import opened Participant
  import opened ParticipantSafety
  import Hotel = HotelBooking
  import Bridge = XBridge

  /** The total after the lock.  A read of own writes finds the entry instead of a number, and counts
      it as zero: what was locked before is forgotten. */
  function TotalAfter(env: Env, l: Ledger, amount: u64): u64 {
    if env.ownWrites then amount else Add64(NumOrZero(l, KEY_LOCK_TOTAL), amount)
  }

  lemma TotalLockShape(env: Env, l: Ledger, rooms: u64, timeout: u64)
    ensures var tx := Hotel.Lock(env, l, l, "TOTAL", rooms, timeout);
            tx.Committed? ==>
              && MetaAt(l).Some?
              && tx.ledger == l[KEY_LOCK_TOTAL := Num(TotalAfter(env, l, Hotel.LockAmount(l[KEY_META], rooms)))]
  {
    KeysDistinct("TOTAL", "");
  }

  /** Such a lock is accepted as any other is. */
  lemma TotalLockCommits(env: Env, l: Ledger, rooms: u64, timeout: u64)
    requires Hotel.BridgeError(env, l) == None && LockAt(l, "TOTAL") == None
    requires Hotel.Available(l).Ok? && rooms <= Hotel.Available(l).value && NumAt(l, KEY_LOCK_TOTAL).Some?
    ensures Hotel.Lock(env, l, l, "TOTAL", rooms, timeout).Committed?
  {
    KeysDistinct("TOTAL", "");
    var reserved := Hotel.Reserve(env, l, l, "TOTAL", rooms, timeout);
    assert reserved.Committed? && MetaAt(reserved.ledger) == MetaAt(l) && NumAt(reserved.ledger, KEY_LOCK_TOTAL).Some?;
    Hotel.ExportNeverFails(env, if env.ownWrites then reserved.ledger else l);
  }

  /** In a ledger without an active lock of "TOTAL" no call that would release one goes through. */
  lemma NothingToRelease(env: Env, l: Ledger, call: Call)
    requires LockAt(l, "TOTAL") == None && ReleasesId(call, "TOTAL")
    ensures Effect(env, l, call) == None
  {
  }

  /** MAIN RESULT.  In any ledger and under either reading, a committed lock of id "TOTAL" is not active
      afterwards, and no update, rollback, time-out, commit or abort can release it, whoever calls;
      all it leaves is a lock total that nothing stands for. */
  lemma TotalLockIsLost(env: Env, l: Ledger, rooms: u64, timeout: u64, later: Env, call: Call)
    requires ReleasesId(call, "TOTAL")
    ensures var tx := Hotel.Lock(env, l, l, "TOTAL", rooms, timeout);
            tx.Committed? ==>
              && MetaAt(l).Some?
              && LockAt(tx.ledger, "TOTAL") == None
              && Effect(later, tx.ledger, call) == None
              && NumAt(tx.ledger, KEY_LOCK_TOTAL) == Some(TotalAfter(env, l, Hotel.LockAmount(l[KEY_META], rooms)))
  {
    TotalLockShape(env, l, rooms, timeout);
    KeysDistinct("TOTAL", "");
    var tx := Hotel.Lock(env, l, l, "TOTAL", rooms, timeout);
    if tx.Committed? {
      NothingToRelease(later, tx.ledger, call);
    }
  }

  /** MAIN RESULT.  It keeps the invariant only by accident: exactly when the new total happens to be
      the value of the other locks.  Under own writes that is when it reserves as much as was locked
      before, under committed-only reads when it reserves nothing. */
  lemma TotalLockIsSafeExactly(env: Env, l: Ledger, price: nat, rooms: nat, num: u64, timeout: u64)
    requires Inv(l, price, rooms)
    ensures var tx := Hotel.Lock(env, l, l, "TOTAL", num, timeout);
            var amount := Hotel.LockAmount(l[KEY_META], num);
            tx.Committed? ==>
              (Inv(tx.ledger, price, rooms) <==> amount == if env.ownWrites then NumOrZero(l, KEY_LOCK_TOTAL) else 0)
  {
    TotalLockShape(env, l, num, timeout);
    if Hotel.Lock(env, l, l, "TOTAL", num, timeout).Committed? {
      NewTotalIsSafeExactly(l, price, rooms, TotalAfter(env, l, Hotel.LockAmount(l[KEY_META], num)));
    }
  }

  lemma NewTotalIsSafeExactly(l: Ledger, price: nat, rooms: nat, total: u64)
    requires Inv(l, price, rooms)
    ensures Inv(l[KEY_LOCK_TOTAL := Num(total)], price, rooms) <==> total == Locked(l)
  {
    KeysDistinct("", "");
    KeyWeights("", "");
    Put(l, KEY_LOCK_TOTAL, Num(total));
  }

  // ---------------------------------------------------------------- along a run

  /** What lies under the key of the lock total is not a lock entry that is active. */
  lemma OtherWritesSpareTotal(l: Ledger, k: string, c: Cell)
    requires k != KEY_LOCK_TOTAL && LockAt(l, "TOTAL") == None
    ensures LockAt(l[k := c], "TOTAL") == None && LockAt(l - {k}, "TOTAL") == None
  {
    KeysDistinct("TOTAL", "");
  }

  lemma LockLeavesNumber(env: Env, l: Ledger, id: string, rooms: u64, timeout: u64)
    ensures var tx := Hotel.Lock(env, l, l, id, rooms, timeout);
            tx.Committed? ==> LockAt(tx.ledger, "TOTAL") == None
  {
    KeysDistinct("TOTAL", "");
  }

  lemma ReleaseLeavesNumber(l: Ledger, id: string)
    requires LockAt(l, "TOTAL") == None
    ensures var tx := Hotel.Release(l, l, id);
            tx.Committed? ==> id != "TOTAL" && LockAt(tx.ledger, "TOTAL") == None
  {
    KeysDistinct(id, "");
    KeysDistinct("TOTAL", "");
  }

  lemma RecordSparesTotal(seen: Ledger, l: Ledger, meta: Cell, user: string, cost: u64, num: u64)
    requires LockAt(l, "TOTAL") == None
    ensures LockAt(Record(seen, l, meta, user, cost, num), "TOTAL") == None
  {
    KeysDistinct("TOTAL", user);
  }

  lemma LockCallsLoseTotal(env: Env, l: Ledger, call: Call)
    requires LockAt(l, "TOTAL") == None && Effect(env, l, call).Some?
    requires call.LockState? || call.ReceiveLockRequest? || call.GPACTSegment? || call.AtomLockDo?
    ensures LockAt(Effect(env, l, call).value, "TOTAL") == None
  {
    KeysDistinct(call.id, "");
    match call
    case LockState(i, rooms, timeout) => LockLeavesNumber(env, l, i, rooms, timeout);
    case ReceiveLockRequest(i, rooms, timeout) => LockLeavesNumber(env, l, i, rooms, timeout);
    case GPACTSegment(i) =>
      LockLeavesNumber(env, l, i, Bridge.GPACT_ROOMS, Bridge.GPACT_TIMEOUT);
      OtherWritesSpareTotal(Hotel.Lock(env, l, l, i, Bridge.GPACT_ROOMS, Bridge.GPACT_TIMEOUT).ledger, PendingKey(i), Bridge.SegmentOp(env));
    case AtomLockDo(i, kind, user, a, b) =>
      var rooms := Bridge.AtomAmount(a, b);
      LockLeavesNumber(env, l, i, rooms, Bridge.ATOM_TIMEOUT);
      OtherWritesSpareTotal(Hotel.Lock(env, l, l, i, rooms, Bridge.ATOM_TIMEOUT).ledger, PendingKey(i), PendingOp(a, b, kind, user, true));
  }

  lemma UpdateSparesTotal(env: Env, l: Ledger, id: string, newRemain: u64, user: string, num: u64, cost: u64)
    requires LockAt(l, "TOTAL") == None
    ensures var tx := Hotel.Update(env, l, l, id, newRemain, user, num, cost);
            tx.Committed? ==> LockAt(tx.ledger, "TOTAL") == None
  {
    ReleaseLeavesNumber(l, id);
    if Hotel.Update(env, l, l, id, newRemain, user, num, cost).Committed? {
      RecordSparesTotal(l, Hotel.Release(l, l, id).ledger, l[KEY_META].(remain := newRemain), user, cost, num);
    }
  }

  lemma CommitSparesTotal(env: Env, l: Ledger, id: string, user: string, num: u64)
    requires LockAt(l, "TOTAL") == None
    ensures var tx := Bridge.ReleaseAndBook(env, l, l, id, user, num);
            tx.Committed? ==> LockAt(tx.ledger, "TOTAL") == None
  {
    ReleaseLeavesNumber(l, id);
    KeysDistinct(id, user);
    KeysDistinct("TOTAL", user);
  }

  lemma ReleaseCallsSpareTotal(env: Env, l: Ledger, call: Call)
    requires LockAt(l, "TOTAL") == None && Effect(env, l, call).Some?
    requires exists i :: ReleasesId(call, i)
    ensures LockAt(Effect(env, l, call).value, "TOTAL") == None
  {
    ReleaseLeavesNumber(l, call.id);
    KeysDistinct(call.id, "");
    match call
    case UpdateState(i, newRemain, user, num, cost) => UpdateSparesTotal(env, l, i, newRemain, user, num, cost);
    case ReceiveUpdateRequest(i, newRemain, user, num, cost) => UpdateSparesTotal(env, l, i, newRemain, user, num, cost);
    case GPACTSignalling(i, commit, abort) =>
      if commit && !abort {
        var op := PendingAt(l, i).value;
        CommitSparesTotal(env, l, i, op.user, op.amountA);
      } else {
        OtherWritesSpareTotal(Hotel.Release(l, l, i).ledger, PendingKey(i), Num(0));
      }
    case AtomUnlock(i) =>
      var op := PendingAt(l, i).value;
      CommitSparesTotal(env, l, i, op.user, Bridge.AtomAmount(op.amountA, op.amountB));
    case AtomUndoUnlock(i) => OtherWritesSpareTotal(Hotel.Release(l, l, i).ledger, PendingKey(i), Num(0));
    case UnlockState(_) =>
    case UnlockOnTimeout(_) =>
    case ReceiveRollbackRequest(_) =>
    case ReceiveTimeoutRollback(_) =>
  }

  lemma OtherCallsSpareTotal(env: Env, l: Ledger, call: Call)
    requires LockAt(l, "TOTAL") == None && Effect(env, l, call).Some?
    requires call.HotelInit? || call.BookLocal? || call.SetBridge? || call.BridgeInit? || call.SetRelayerMSP?
    ensures LockAt(Effect(env, l, call).value, "TOTAL") == None
  {
    KeysDistinct("TOTAL", "");
    if call.BookLocal? {
      KeysDistinct("TOTAL", call.user);
    }
  }

  lemma StepSparesTotal(l: Ledger, s: Step)
    requires LockAt(l, "TOTAL") == None
    ensures LockAt(Next(l, s), "TOTAL") == None
  {
    var (env, call) := (s.env, s.call);
    if Effect(env, l, call).Some? {
      if call.HotelInit? || call.BookLocal? || call.SetBridge? || call.BridgeInit? || call.SetRelayerMSP? {
        OtherCallsSpareTotal(env, l, call);
      } else if call.LockState? || call.ReceiveLockRequest? || call.GPACTSegment? || call.AtomLockDo? {
        LockCallsLoseTotal(env, l, call);
      } else {
        assert ReleasesId(call, call.id);
        ReleaseCallsSpareTotal(env, l, call);
      }
    }
  }

  /** How many locks of an id were committed. */
  ghost function LocksCommitted(l: Ledger, steps: seq<Step>, id: string): nat {
    if steps == [] then 0
    else
      var before, last := steps[..|steps| - 1], steps[|steps| - 1];
      LocksCommitted(l, before, id) +
      if Effect(last.env, Run(l, before), last.call).Some? && LocksId(last.call, id).Some? then 1 else 0
  }

  /** MAIN RESULT.  Along any run of any calls, no lock of id "TOTAL" is ever active and none is ever
      released: committed locks minus committed releases just counts the locks.  So id "TOTAL" has one
      outcome per lock, as every other id has, exactly as long as no lock of it was committed. */
  lemma {:induction false} TotalLocksHaveNoOutcome(steps: seq<Step>)
    ensures LockAt(Run(map[], steps), "TOTAL") == None
    ensures Balance(map[], steps, "TOTAL") == LocksCommitted(map[], steps, "TOTAL")
    ensures Balance(map[], steps, "TOTAL") == 0 <==> LocksCommitted(map[], steps, "TOTAL") == 0
  {
    if steps != [] {
      var before, last := steps[..|steps| - 1], steps[|steps| - 1];
      TotalLocksHaveNoOutcome(before);
      StepSparesTotal(Run(map[], before), last);
      if ReleasesId(last.call, "TOTAL") {
        NothingToRelease(last.env, Run(map[], before), last.call);
      }
    }
  }
}
