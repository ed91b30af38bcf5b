/** The uint64 chaincode refines the unbounded model: while every amount of the model fits 64 bits,
    both accept and refuse the same operations, answer the same, and keep corresponding states. */
module HotelRefinement {
  import opened Prelude
  import opened FabricLedger
  import Go = HotelBooking
  import Model = HotelModel
  import Utf8

  /** The arguments are uint64 values, and no lock id is the key of the lock total. */
  predicate Admissible(op: Model.Op) {
    && (op.BookLocal? ==> op.amount <= MAX64)
    && (op.LockState? ==> op.amount <= MAX64 && op.timeoutBlocks <= MAX64)
    && (op.LockState? || op.UnlockState? || op.IsStateLocked? ==> op.lockId != "TOTAL")
  }

  /** The chaincode's answer and next ledger.  LockState answers nothing where the model reports the
      price and the rooms. */
  function GoStep(env: Env, l: Ledger, op: Model.Op): (Option<seq<Model.Value>>, Ledger)
    requires Admissible(op)
  {
    match op
    case BookLocal(user, amount) =>
      (match Go.Book(l, l, user, amount)
       case Aborted(_) => (None, l)
       case Committed(cost, l') => (Some([Model.Amount(cost)]), l'))
    case LockState(id, amount, timeout) =>
      (match Go.Lock(env, l, l, id, amount, timeout)
       case Aborted(_) => (None, l)
       case Committed(_, l') => (Some([]), l'))
    case UnlockState(id) =>
      (match Go.Unlock(env, l, l, id)
       case Aborted(_) => (None, l)
       case Committed(_, l') => (Some([]), l'))
    case GetPrice => (if MetaAt(l) == None then None else Some([Model.Amount(MetaAt(l).value.price)]), l)
    case GetRemain => (if MetaAt(l) == None then None else Some([Model.Amount(MetaAt(l).value.remain)]), l)
    case GetAvailableRemain =>
      (match Go.Available(l) case Err(_) => (None, l) case Ok(n) => (Some([Model.Amount(n)]), l))
    case GetAccountBalance(user) => (Number(NumAt(l, AccountKey(user))), l)
    case GetBooking(user) => (Number(NumAt(l, BookingKey(user))), l)
    case IsStateLocked(id) => (Some([Model.Flag(LockAt(l, id).Some?)]), l)
  }

  function Number(n: Option<u64>): Option<seq<Model.Value>> {
    if n == None then None else Some([Model.Amount(n.value)])
  }

  ghost predicate SameLock(l: Ledger, st: Model.State, id: string) {
    && (LockAt(l, id).Some? <==> Model.Locked(st, id))
    && (LockAt(l, id).Some? ==> LockAt(l, id).value.lockedAmount == st.locks[id].lockedAmount)
  }

  predicate Holds(l: Ledger, key: string, n: nat) {
    NumAt(l, key).Some? && NumAt(l, key).value == n
  }

  /** The ledger holds exactly what the model holds. */
  ghost predicate Represents(l: Ledger, st: Model.State) {
    && MetaAt(l).Some? && MetaAt(l).value.bridge == Utf8.Encode(st.bridge) && MetaAt(l).value.price == st.price > 0
    && MetaAt(l).value.remain == st.remain && MetaAt(l).value.lockSize == st.lockSize
    && Holds(l, KEY_LOCK_TOTAL, st.lockedTotal)
    && (forall u :: Holds(l, AccountKey(u), Model.Get(st.accounts, u)))
    && (forall u :: Holds(l, BookingKey(u), Model.Get(st.bookings, u)))
    && (forall id | id != "TOTAL" :: SameLock(l, st, id))
  }

  /** Same verdict, and for everything but LockState the same values. */
  predicate SameAnswer(op: Model.Op, go: Option<seq<Model.Value>>, model: Result<seq<Model.Value>, Model.Error>) {
    && (go.Some? <==> model.Ok?)
    && (go.Some? && !op.LockState? ==> go.value == model.value)
  }

  lemma SameAvailable(l: Ledger, st: Model.State)
    requires Represents(l, st)
    ensures Go.Available(l).Ok? && Go.Available(l).value == Model.Available(st)
  {
  }

  lemma ExactProduct(a: u64, b: u64)
    requires a * b <= MAX64
    ensures Mul64(a, b) == a * b
  {
  }

  // ---------------------------------------------------------------- when nothing wraps

  /** What an accepted operation adds to the amounts of the state stays within 64 bits. */
  predicate StepFits(st: Model.State, op: Model.Op)
    requires st.price > 0
  {
    Model.Step(st, op).result.Ok? ==>
      match op
      case BookLocal(user, num) =>
        Model.Get(st.accounts, user) + st.price * num < TWO64 && Model.Get(st.bookings, user) + num < TWO64
      case LockState(_, num, _) => st.lockedTotal + LockSize(st, num) * st.price < TWO64
      case _ => true
  }

  /** The answer itself is a product only for a booking. */
  predicate AnswerFits(st: Model.State, op: Model.Op)
    requires st.price > 0
  {
    op.BookLocal? && Model.Step(st, op).result.Ok? ==> st.price * op.amount < TWO64
  }

  /** What a ledger represents is within range. */
  lemma RepresentedFits(l: Ledger, st: Model.State, user: string)
    requires Represents(l, st)
    ensures Model.Get(st.accounts, user) < TWO64 && Model.Get(st.bookings, user) < TWO64 && st.lockedTotal < TWO64
  {
    assert Holds(l, AccountKey(user), Model.Get(st.accounts, user)) && Holds(l, BookingKey(user), Model.Get(st.bookings, user));
  }

  lemma BookAgrees(env: Env, l: Ledger, st: Model.State, op: Model.Op)
    requires Represents(l, st) && Admissible(op) && op.BookLocal?
    ensures SameAnswer(op, GoStep(env, l, op).0, Model.Step(st, op).result) <==> AnswerFits(st, op)
    ensures Represents(GoStep(env, l, op).1, Model.Step(st, op).state) <==> StepFits(st, op)
  {
    BookAnswers(env, l, st, op);
    if Model.Step(st, op).result.Ok? {
      if StepFits(st, op) {
        BookWithin(env, l, st, op);
      } else {
        BookBeyond(env, l, st, op);
      }
    }
  }

  /** The cost is computed in 64 bits. */
  lemma BookAnswers(env: Env, l: Ledger, st: Model.State, op: Model.Op)
    requires Represents(l, st) && Admissible(op) && op.BookLocal?
    ensures GoStep(env, l, op).0.Some? <==> Model.Step(st, op).result.Ok?
    ensures Model.Step(st, op).result.Ok? ==> GoStep(env, l, op).0 == Some([Model.Amount(Mul64(st.price, op.amount))])
    ensures SameAnswer(op, GoStep(env, l, op).0, Model.Step(st, op).result) <==> AnswerFits(st, op)
    ensures Model.Step(st, op).result.Err? ==> GoStep(env, l, op).1 == l && Model.Step(st, op).state == st
  {
    SameAvailable(l, st);
    MulFitsExactly(st.price, op.amount);
  }

  lemma MulFitsExactly(a: u64, b: u64)
    ensures Mul64(a, b) == a * b <==> a * b < TWO64
  {
  }

  lemma BookWithin(env: Env, l: Ledger, st: Model.State, op: Model.Op)
    requires Represents(l, st) && Admissible(op) && op.BookLocal? && Model.Step(st, op).result.Ok? && StepFits(st, op)
    ensures Represents(GoStep(env, l, op).1, Model.Step(st, op).state)
  {
    SameAvailable(l, st);
    ExactProduct(st.price, op.amount);
    BookRepresents(l, st, op.user, op.amount, st.price * op.amount);
  }

  /** No ledger holds the amounts of a state beyond 64 bits. */
  lemma BookBeyond(env: Env, l: Ledger, st: Model.State, op: Model.Op)
    requires st.price > 0 && Admissible(op) && op.BookLocal? && Model.Step(st, op).result.Ok? && !StepFits(st, op)
    ensures !Represents(GoStep(env, l, op).1, Model.Step(st, op).state)
  {
    if Represents(GoStep(env, l, op).1, Model.Step(st, op).state) {
      RepresentedFits(GoStep(env, l, op).1, Model.Step(st, op).state, op.user);
    }
  }

  function AfterBook(st: Model.State, user: string, num: nat, cost: nat): Model.State
    requires num <= st.remain
  {
    st.(remain := st.remain - num, accounts := st.accounts[user := Model.Get(st.accounts, user) + cost],
        bookings := st.bookings[user := Model.Get(st.bookings, user) + num])
  }

  function WithBooking(l: Ledger, user: string, num: u64, cost: u64): Ledger
    requires MetaAt(l).Some? && num <= MetaAt(l).value.remain
  {
    Go.AddTo(l, Go.AddTo(l, l[KEY_META := l[KEY_META].(remain := l[KEY_META].remain - num)], AccountKey(user), cost), BookingKey(user), num)
  }

  lemma BalancesRepresented(l: Ledger, st: Model.State, user: string, num: u64, cost: u64, u: string)
    requires Represents(l, st) && num <= st.remain
    requires Model.Get(st.accounts, user) + cost <= MAX64 && Model.Get(st.bookings, user) + num <= MAX64
    ensures var (l', st') := (WithBooking(l, user, num, cost), AfterBook(st, user, num, cost));
            Holds(l', AccountKey(u), Model.Get(st'.accounts, u)) && Holds(l', BookingKey(u), Model.Get(st'.bookings, u))
  {
    KeysDistinct("", user);
    KeysDistinct("", u);
    KeysInjective(u, user);
    assert Holds(l, AccountKey(user), Model.Get(st.accounts, user)) && Holds(l, BookingKey(user), Model.Get(st.bookings, user));
    assert Holds(l, AccountKey(u), Model.Get(st.accounts, u)) && Holds(l, BookingKey(u), Model.Get(st.bookings, u));
  }

  lemma BookRepresents(l: Ledger, st: Model.State, user: string, num: u64, cost: u64)
    requires Represents(l, st) && num <= st.remain
    requires Model.Get(st.accounts, user) + cost <= MAX64 && Model.Get(st.bookings, user) + num <= MAX64
    ensures Represents(WithBooking(l, user, num, cost), AfterBook(st, user, num, cost))
  {
    var l', st' := WithBooking(l, user, num, cost), AfterBook(st, user, num, cost);
    KeysDistinct("", user);
    forall u ensures Holds(l', AccountKey(u), Model.Get(st'.accounts, u)) && Holds(l', BookingKey(u), Model.Get(st'.bookings, u)) {
      BalancesRepresented(l, st, user, num, cost, u);
    }
    forall id | id != "TOTAL" ensures SameLock(l', st', id) {
      KeysDistinct(id, user);
      assert SameLock(l, st, id);
    }
  }

  function AfterLock(st: Model.State, id: string, amount: nat): Model.State {
    st.(locks := st.locks[id := Model.LockInfo(amount, true)], lockedTotal := st.lockedTotal + amount)
  }

  function LockSize(st: Model.State, num: nat): nat { if num > 0 then num else st.lockSize }

  lemma LockAgrees(env: Env, l: Ledger, st: Model.State, op: Model.Op)
    requires Represents(l, st) && Admissible(op) && op.LockState? && env.msp == Utf8.Encode(st.bridge)
    ensures SameAnswer(op, GoStep(env, l, op).0, Model.Step(st, op).result)
    ensures Represents(GoStep(env, l, op).1, Model.Step(st, op).state) <==> StepFits(st, op)
  {
    LockVerdict(env, l, st, op);
    if Model.Step(st, op).result.Ok? {
      if StepFits(st, op) {
        LockWithin(env, l, st, op);
      } else {
        LockBeyond(env, l, st, op);
      }
    }
  }

  lemma LockVerdict(env: Env, l: Ledger, st: Model.State, op: Model.Op)
    requires Represents(l, st) && Admissible(op) && op.LockState? && env.msp == Utf8.Encode(st.bridge)
    ensures GoStep(env, l, op).0.Some? <==> Model.Step(st, op).result.Ok?
  {
    SameAvailable(l, st);
    assert SameLock(l, st, op.lockId);
    if Model.Step(st, op).result.Ok? {
      Go.LockWrites(env, l, op.lockId, op.amount, op.timeoutBlocks, st.lockedTotal);
    }
  }

  lemma LockWithin(env: Env, l: Ledger, st: Model.State, op: Model.Op)
    requires Represents(l, st) && Admissible(op) && op.LockState? && env.msp == Utf8.Encode(st.bridge)
    requires Model.Step(st, op).result.Ok? && StepFits(st, op)
    ensures Represents(GoStep(env, l, op).1, Model.Step(st, op).state)
  {
    LockAccepted(env, l, st, op.lockId, op.amount, op.timeoutBlocks, LockSize(st, op.amount) * st.price);
  }

  lemma LockBeyond(env: Env, l: Ledger, st: Model.State, op: Model.Op)
    requires st.price > 0 && Admissible(op) && op.LockState? && Model.Step(st, op).result.Ok? && !StepFits(st, op)
    ensures !Represents(GoStep(env, l, op).1, Model.Step(st, op).state)
  {
    if Represents(GoStep(env, l, op).1, Model.Step(st, op).state) {
      RepresentedFits(GoStep(env, l, op).1, Model.Step(st, op).state, "");
    }
  }

  lemma LockAccepted(env: Env, l: Ledger, st: Model.State, id: string, num: u64, timeout: u64, amount: u64)
    requires Represents(l, st) && id != "TOTAL" && env.msp == Utf8.Encode(st.bridge)
    requires !Model.Locked(st, id) && num <= Model.Available(st)
    requires amount == LockSize(st, num) * st.price && st.lockedTotal + amount <= MAX64
    ensures var tx := Go.Lock(env, l, l, id, num, timeout);
            tx.Committed? && Represents(tx.ledger, AfterLock(st, id, amount))
  {
    SameAvailable(l, st);
    assert SameLock(l, st, id);
    LockAmountIsExact(l[KEY_META], num, amount);
    LockRepresents(l, st, id, amount, env.now, timeout);
    Go.LockWrites(env, l, id, num, timeout, st.lockedTotal);
  }

  lemma LockAmountIsExact(m: Cell, num: u64, amount: u64)
    requires m.Meta? && amount == (if num > 0 then num else m.lockSize) * m.price
    ensures Go.LockAmount(m, num) == amount
  {
    ExactProduct(if num > 0 then num else m.lockSize, m.price);
  }

  lemma LockRepresents(l: Ledger, st: Model.State, id: string, amount: u64, now: u64, timeout: u64)
    requires Represents(l, st) && id != "TOTAL" && st.lockedTotal + amount <= MAX64
    ensures Represents(Go.WithLock(l, id, LockEntry(amount, now, timeout, true), st.lockedTotal + amount), AfterLock(st, id, amount))
  {
    var l' := Go.WithLock(l, id, LockEntry(amount, now, timeout, true), st.lockedTotal + amount);
    var st' := AfterLock(st, id, amount);
    KeysDistinct(id, "");
    forall u ensures Holds(l', AccountKey(u), Model.Get(st'.accounts, u)) && Holds(l', BookingKey(u), Model.Get(st'.bookings, u)) {
      KeysDistinct(id, u);
      assert Holds(l, AccountKey(u), Model.Get(st.accounts, u)) && Holds(l, BookingKey(u), Model.Get(st.bookings, u));
    }
    forall i | i != "TOTAL" ensures SameLock(l', st', i) {
      KeysDistinct(i, "");
      KeysInjective(i, id);
      assert SameLock(l, st, i);
    }
  }

  lemma UnlockAgrees(env: Env, l: Ledger, st: Model.State, op: Model.Op)
    requires Represents(l, st) && Admissible(op) && op.UnlockState? && env.msp == Utf8.Encode(st.bridge)
    ensures SameAnswer(op, GoStep(env, l, op).0, Model.Step(st, op).result)
    ensures Represents(GoStep(env, l, op).1, Model.Step(st, op).state)
  {
    var id := op.lockId;
    assert SameLock(l, st, id);
    var o := Model.Step(st, op);
    if o.result.Ok? {
      var l', st' := GoStep(env, l, op).1, o.state;
      KeysDistinct(id, "");
      forall u ensures Holds(l', AccountKey(u), Model.Get(st'.accounts, u)) && Holds(l', BookingKey(u), Model.Get(st'.bookings, u)) {
        KeysDistinct(id, u);
        assert Holds(l, AccountKey(u), Model.Get(st.accounts, u)) && Holds(l, BookingKey(u), Model.Get(st.bookings, u));
      }
      forall i | i != "TOTAL" ensures SameLock(l', st', i) {
        KeysDistinct(i, "");
        KeysInjective(i, id);
        assert SameLock(l, st, i);
      }
    }
  }

  lemma QueryAgrees(env: Env, l: Ledger, st: Model.State, op: Model.Op)
    requires Represents(l, st) && Admissible(op) && !op.BookLocal? && !op.LockState? && !op.UnlockState?
    ensures SameAnswer(op, GoStep(env, l, op).0, Model.Step(st, op).result)
    ensures GoStep(env, l, op).1 == l && Model.Step(st, op).state == st
  {
    SameAvailable(l, st);
    match op
    case GetAccountBalance(user) => assert Holds(l, AccountKey(user), Model.Get(st.accounts, user));
    case GetBooking(user) => assert Holds(l, BookingKey(user), Model.Get(st.bookings, user));
    case IsStateLocked(id) => assert SameLock(l, st, id);
    case _ =>
  }

  /** From corresponding states one step of the bridge gives the same verdict, the same values exactly if
      they fit, and corresponding states exactly if what it adds fits. */
  lemma StepAgreesExactly(env: Env, l: Ledger, st: Model.State, op: Model.Op)
    requires Represents(l, st) && Admissible(op) && env.msp == Utf8.Encode(st.bridge)
    ensures GoStep(env, l, op).0.Some? <==> Model.Step(st, op).result.Ok?
    ensures SameAnswer(op, GoStep(env, l, op).0, Model.Step(st, op).result) <==> AnswerFits(st, op)
    ensures Represents(GoStep(env, l, op).1, Model.Step(st, op).state) <==> StepFits(st, op)
  {
    SameAvailable(l, st);
    match op
    case BookLocal(_, _) => BookAgrees(env, l, st, op);
    case LockState(_, _, _) => LockAgrees(env, l, st, op);
    case UnlockState(_) => UnlockAgrees(env, l, st, op);
    case _ => QueryAgrees(env, l, st, op);
  }

  // ---------------------------------------------------------------- runs

  datatype Request = Request(env: Env, op: Model.Op)

  ghost function ModelRun(st: Model.State, reqs: seq<Request>): (r: Model.State)
    requires st.price > 0
    ensures r.price == st.price && r.bridge == st.bridge
    decreases |reqs|
  {
    if reqs == [] then st else ModelRun(Model.Step(st, reqs[0].op).state, reqs[1..])
  }

  ghost function GoRun(l: Ledger, reqs: seq<Request>): Ledger
    requires forall i | 0 <= i < |reqs| :: Admissible(reqs[i].op)
    decreases |reqs|
  {
    if reqs == [] then l else GoRun(GoStep(reqs[0].env, l, reqs[0].op).1, reqs[1..])
  }

  /** Both runs serve their requests one after the other. */
  lemma {:induction false} RunsAreStepwise(l: Ledger, st: Model.State, reqs: seq<Request>, req: Request)
    requires st.price > 0 && Admissible(req.op) && forall i | 0 <= i < |reqs| :: Admissible(reqs[i].op)
    ensures ModelRun(st, []) == st && GoRun(l, []) == l
    ensures ModelRun(st, reqs + [req]) == Model.Step(ModelRun(st, reqs), req.op).state
    ensures forall i | 0 <= i < |reqs + [req]| :: Admissible((reqs + [req])[i].op)
    ensures GoRun(l, reqs + [req]) == GoStep(req.env, GoRun(l, reqs), req.op).1
    decreases |reqs|
  {
    if reqs == [] {
      assert reqs + [req] == [req];
    } else {
      RunsAreStepwise(GoStep(reqs[0].env, l, reqs[0].op).1, Model.Step(st, reqs[0].op).state, reqs[1..], req);
      assert (reqs + [req])[1..] == reqs[1..] + [req];
    }
  }

  /** The requests come from the bridge. */
  ghost predicate FromBridge(bridge: string, reqs: seq<Request>) {
    forall i | 0 <= i < |reqs| :: Admissible(reqs[i].op) && reqs[i].env.msp == Utf8.Encode(bridge)
  }

  /** Nothing that an accepted request adds passes 64 bits. */
  ghost predicate NeverWraps(st: Model.State, reqs: seq<Request>)
    requires st.price > 0
    decreases |reqs|
  {
    reqs != [] ==> StepFits(st, reqs[0].op) && NeverWraps(Model.Step(st, reqs[0].op).state, reqs[1..])
  }

  /** Chaincode and model correspond at the start and after every request. */
  ghost predicate AlwaysRepresents(l: Ledger, st: Model.State, reqs: seq<Request>)
    requires st.price > 0 && FromBridge(st.bridge, reqs)
    decreases |reqs|
  {
    && Represents(l, st)
    && (reqs != [] ==>
          AlwaysRepresents(GoStep(reqs[0].env, l, reqs[0].op).1, Model.Step(st, reqs[0].op).state, reqs[1..]))
  }

  /** MAIN RESULT.  From corresponding states, over any run of requests from the bridge, chaincode and
      model correspond after every request if and only if nothing a request adds passes 64 bits. */
  lemma {:induction false} RunsCorrespondExactly(l: Ledger, st: Model.State, reqs: seq<Request>)
    requires Represents(l, st) && FromBridge(st.bridge, reqs)
    ensures AlwaysRepresents(l, st, reqs) <==> NeverWraps(st, reqs)
    decreases |reqs|
  {
    if reqs != [] {
      var (env, op) := (reqs[0].env, reqs[0].op);
      StepAgreesExactly(env, l, st, op);
      if StepFits(st, op) {
        RunsCorrespondExactly(GoStep(env, l, op).1, Model.Step(st, op).state, reqs[1..]);
      }
    }
  }

  /** MAIN RESULT.  From an initialised hotel, over any run of requests from the bridge that stays
      within 64 bits, chaincode and model answer alike at every step and end in corresponding states. */
  lemma {:induction false} RunsAgree(l: Ledger, st: Model.State, reqs: seq<Request>, n: nat)
    requires Represents(l, st) && FromBridge(st.bridge, reqs) && NeverWraps(st, reqs) && n <= |reqs|
    ensures Represents(GoRun(l, reqs[..n]), ModelRun(st, reqs[..n]))
    ensures n < |reqs| ==>
              var (env, op) := (reqs[n].env, reqs[n].op);
              SameAnswer(op, GoStep(env, GoRun(l, reqs[..n]), op).0, Model.Step(ModelRun(st, reqs[..n]), op).result)
    decreases n
  {
    if reqs != [] {
      StepAgreesExactly(reqs[0].env, l, st, reqs[0].op);
      if n > 0 {
        RunsAgree(GoStep(reqs[0].env, l, reqs[0].op).1, Model.Step(st, reqs[0].op).state, reqs[1..], n - 1);
        assert reqs[..n][1..] == reqs[1..][..n - 1];
      }
    }
  }

  /** Initialising both from the same parameters gives corresponding states. */
  lemma InitAgrees(bridge: string, price: u64, remain: u64, lockSize: u64)
    requires price > 0 && |Utf8.Encode(bridge)| < TWO32
    ensures var l := Go.Init(map[], Utf8.Encode(bridge), price, remain, lockSize);
            l.Committed? && Represents(l.ledger, Model.Init(bridge, price, remain, lockSize))
  {
    var l := Go.Init(map[], Utf8.Encode(bridge), price, remain, lockSize).ledger;
    forall u ensures Holds(l, AccountKey(u), 0) && Holds(l, BookingKey(u), 0) {
      KeysDistinct("", u);
    }
    forall id | id != "TOTAL" ensures LockAt(l, id) == None {
      KeysDistinct(id, "");
    }
  }
}
