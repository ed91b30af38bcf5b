/** What the pool guarantees its depositors and what a trader can and cannot gain, over every run. */
module DexProperties {
  import opened Prelude
  import opened MapSum
  import opened Arith
  import opened DexSwap

  ghost function Run(p: Pool, ops: seq<Op>): (r: Pool)
    requires WellFormed(p)
    ensures WellFormed(r)
    decreases |ops|
  {
    if ops == [] then p
    else
      StepKeepsWellFormed(p, ops[0]);
      Run(Step(p, ops[0]).pool, ops[1..])
  }

  /** A run executes its operations one after the other. */
  lemma {:induction false} RunIsStepwise(p: Pool, ops: seq<Op>, op: Op)
    requires WellFormed(p)
    ensures Run(p, []) == p && Run(p, ops + [op]) == Step(Run(p, ops), op).pool
    decreases |ops|
  {
    if ops == [] {
      assert ops + [op] == [op];
      StepKeepsWellFormed(p, op);
      assert Run(Step(p, op).pool, []) == Step(p, op).pool;
    } else {
      StepKeepsWellFormed(p, ops[0]);
      RunIsStepwise(Step(p, ops[0]).pool, ops[1..], op);
      assert (ops + [op])[1..] == ops[1..] + [op];
    }
  }

  /** In every pool reachable from a new one the share books balance and the reserves and the share
      total vanish together, so every division is by a positive number; and no swap of a pool that
      is not empty would pay out all of reserve B, so the guard against that is never met. */
  lemma ReachablePoolsAreWellFormed(ops: seq<Op>)
    ensures var p := Run(EMPTY, ops);
            && p.totalShares == Total<nat>(p.shares, Held)
            && (p.reserveA == 0 <==> p.totalShares == 0)
            && (p.reserveB == 0 <==> p.totalShares == 0)
            && (p.totalShares > 0 ==> forall x :: AmountOut(p.reserveA, p.reserveB, x) < p.reserveB)
  {
    var p := Run(EMPTY, ops);
    if p.totalShares > 0 {
      forall x ensures AmountOut(p.reserveA, p.reserveB, x) < p.reserveB {
        AmountOutBelowReserve(p.reserveA, p.reserveB, x);
      }
    }
  }

  // ---------------------------------------------------------------- each operation, exactly

  /** A later deposit mints the largest whole number of shares that is worth no more than either
      of the two amounts paid in; it is refused exactly when that number or an amount is zero. */
  lemma DepositIsLargestFair(p: Pool, user: string, amountA: nat, amountB: nat, m: nat)
    requires WellFormed(p) && p.totalShares > 0
    ensures var r := Step(p, AddLiquidity(user, amountA, amountB)).result;
            && (r.Ok? <==> p.reserveA <= amountA * p.totalShares && p.reserveB <= amountB * p.totalShares)
            && (r.Ok? ==> (m <= r.value[0] <==>
                  m * p.reserveA <= amountA * p.totalShares && m * p.reserveB <= amountB * p.totalShares))
  {
    LargestFair(amountA * p.totalShares, p.reserveA, m);
    LargestFair(amountB * p.totalShares, p.reserveB, m);
    LargestFair(amountA * p.totalShares, p.reserveA, 1);
    LargestFair(amountB * p.totalShares, p.reserveB, 1);
  }

  /** Nothing moves in the pool but the reserves, the total and what `user` holds. */
  ghost predicate OnlyMoves(p: Pool, q: Pool, user: string) {
    forall u | u != user :: ShareOf(q, u) == ShareOf(p, u)
  }

  /** A deposit puts in both amounts and gives the minted shares to its user; the first mints their sum. */
  lemma DepositMovesExactly(p: Pool, user: string, amountA: nat, amountB: nat)
    requires WellFormed(p)
    ensures var o := Step(p, AddLiquidity(user, amountA, amountB));
            && (amountA == 0 || amountB == 0 ==> o == Outcome(p, Err(ZeroLiquidity)))
            && (amountA > 0 && amountB > 0 && o.result.Err? ==> o == Outcome(p, Err(ZeroShares)) && p.totalShares > 0)
            && (o.result.Ok? ==>
                  && |o.result.value| == 1
                  && var minted := o.result.value[0];
                  && (p.totalShares == 0 ==> minted == amountA + amountB)
                  && o.pool.reserveA == p.reserveA + amountA && o.pool.reserveB == p.reserveB + amountB
                  && o.pool.totalShares == p.totalShares + minted && OnlyMoves(p, o.pool, user)
                  && ShareOf(o.pool, user) == (if user in p.shares then p.shares[user] else 0) + minted)
  {
  }

  /** A withdrawal takes the shares from its user and pays out what it answers. */
  lemma WithdrawalMovesExactly(p: Pool, user: string, amount: nat)
    requires WellFormed(p)
    ensures var held := if user in p.shares then p.shares[user] else 0;
            var o := Step(p, RemoveLiquidity(user, amount));
            if amount == 0 then o == Outcome(p, Err(ZeroShares))
            else if held < amount then o == Outcome(p, Err(InsufficientShares))
            else && o.result.Ok? && |o.result.value| == 2
                 && o.pool.reserveA + o.result.value[0] == p.reserveA && o.pool.reserveB + o.result.value[1] == p.reserveB
                 && o.pool.totalShares + amount == p.totalShares && OnlyMoves(p, o.pool, user)
                 && ShareOf(o.pool, user) + amount == held
  {
  }

  /** A swap puts its input into reserve A, takes its output from reserve B and leaves the shares alone;
      the output is the largest number within the fee-reduced price. */
  lemma SwapMovesExactly(p: Pool, user: string, x: nat, m: nat)
    requires WellFormed(p)
    ensures var o := Step(p, SwapAForB(user, x));
            && (x == 0 ==> o == Outcome(p, Err(ZeroInput)))
            && (x > 0 && p.totalShares == 0 ==> o == Outcome(p, Err(InsufficientLiquidity)))
            && (x > 0 && p.totalShares > 0 && o.result.Err? ==> o == Outcome(p, Err(InsufficientOutput)))
            && (o.result.Ok? ==>
                  && |o.result.value| == 1
                  && o.pool.reserveA == p.reserveA + x && o.pool.reserveB + o.result.value[0] == p.reserveB
                  && o.pool.totalShares == p.totalShares && o.pool.shares == p.shares
                  && (m <= o.result.value[0] <==> m * (p.reserveA * 1000 + x * 997) <= x * 997 * p.reserveB))
  {
    if Step(p, SwapAForB(user, x)).result.Ok? {
      LargestFair(x * 997 * p.reserveB, p.reserveA * 1000 + x * 997, m);
    }
  }

  /** The readers answer the reserves, the shares of a user and the total, and change nothing. */
  lemma ReadersAnswerExactly(p: Pool, user: string)
    requires WellFormed(p)
    ensures Step(p, GetReserves) == Outcome(p, Ok([p.reserveA, p.reserveB]))
    ensures Step(p, GetShares(user)) == Outcome(p, Ok([if user in p.shares then p.shares[user] else 0]))
    ensures Step(p, GetTotalShares) == Outcome(p, Ok([p.totalShares]))
  {
  }

  lemma LargestFair(n: nat, d: nat, m: nat)
    requires d > 0
    ensures m <= Floor(n, d) <==> m * d <= n
  {
    var q := Floor(n, d);
    if m <= q {
      MulMono(d, m, q);
    } else {
      MulMono(d, q + 1, m);
    }
  }

  /** A withdrawal succeeds exactly when the holder has that many shares, and pays the largest
      whole amounts that are no more than the proportional part of each reserve. */
  lemma WithdrawalIsLargestFair(p: Pool, user: string, amount: nat, a: nat, b: nat)
    requires WellFormed(p)
    ensures var r := Step(p, RemoveLiquidity(user, amount)).result;
            && (r.Ok? <==> 0 < amount <= ShareOf(p, user))
            && (r.Ok? ==> |r.value| == 2)
            && (r.Ok? ==> (a <= r.value[0] <==> a * p.totalShares <= p.reserveA * amount))
            && (r.Ok? ==> (b <= r.value[1] <==> b * p.totalShares <= p.reserveB * amount))
  {
    SharesBelowTotal(p, user);
    if 0 < amount <= ShareOf(p, user) {
      LargestFair(p.reserveA * amount, p.totalShares, a);
      LargestFair(p.reserveB * amount, p.totalShares, b);
    }
  }

  /** A swap is refused exactly for a zero input, an empty pool, or an output that rounds to zero:
      the guard against draining the reserve never fires. */
  lemma SwapRefusedExactly(p: Pool, user: string, x: nat)
    requires WellFormed(p)
    ensures var r := Step(p, SwapAForB(user, x)).result;
            && (r.Ok? <==> x > 0 && p.totalShares > 0 && p.reserveA * 1000 + x * 997 <= x * 997 * p.reserveB)
            && (r.Ok? ==> 0 < r.value[0] < p.reserveB)
            && (r == Err(InsufficientOutput) ==> x * 997 * p.reserveB < p.reserveA * 1000 + x * 997)
  {
    if x > 0 && p.totalShares > 0 {
      AmountOutBelowReserve(p.reserveA, p.reserveB, x);
      LargestFair(x * 997 * p.reserveB, p.reserveA * 1000 + x * 997, 1);
    }
  }

  /** Redeeming every outstanding share empties both reserves; nothing is left behind. */
  lemma LastExitEmptiesPool(p: Pool, user: string)
    requires WellFormed(p) && p.totalShares > 0 && ShareOf(p, user) == p.totalShares
    ensures var o := Step(p, RemoveLiquidity(user, p.totalShares));
            && o.result == Ok([p.reserveA, p.reserveB])
            && o.pool.reserveA == 0 && o.pool.reserveB == 0 && o.pool.totalShares == 0
  {
    WithdrawalFits(p.reserveA, p.totalShares, p.totalShares);
    WithdrawalFits(p.reserveB, p.totalShares, p.totalShares);
  }

  // ---------------------------------------------------------------- reserves per share

  /** Neither reserve per share is lower in `q` than in `p` (cross-multiplied). */
  ghost predicate PerShareAtLeast(p: Pool, q: Pool) {
    && p.reserveA * q.totalShares <= q.reserveA * p.totalShares
    && p.reserveB * q.totalShares <= q.reserveB * p.totalShares
  }

  /** reserveA * reserveB / totalShares^2 is not lower in `q` than in `p` (cross-multiplied). */
  ghost predicate ProductPerShareAtLeast(p: Pool, q: Pool) {
    p.reserveA * p.reserveB * (q.totalShares * q.totalShares)
    <= q.reserveA * q.reserveB * (p.totalShares * p.totalShares)
  }

  lemma PerShareGivesProduct(p: Pool, q: Pool)
    requires PerShareAtLeast(p, q)
    ensures ProductPerShareAtLeast(p, q)
  {
    var pa, qa := p.reserveA * q.totalShares, q.reserveA * p.totalShares;
    var pb, qb := p.reserveB * q.totalShares, q.reserveB * p.totalShares;
    MulBoth(pa, qa, pb, qb);
    assert pa * pb == p.reserveA * p.reserveB * (q.totalShares * q.totalShares);
    assert qa * qb == q.reserveA * q.reserveB * (p.totalShares * p.totalShares);
  }

  /** Depositing and withdrawing never lower either reserve per share. */
  lemma LiquidityKeepsPerShare(p: Pool, op: Op)
    requires WellFormed(p) && p.totalShares > 0
    requires op.AddLiquidity? || op.RemoveLiquidity?
    ensures PerShareAtLeast(p, Step(p, op).pool)
  {
    match op
    case AddLiquidity(user, amountA, amountB) =>
      if amountA > 0 && amountB > 0 {
        var m := Minted(p, amountA, amountB);
        DepositKeepsPerShare(p.reserveA, amountA, p.totalShares, m);
        DepositKeepsPerShare(p.reserveB, amountB, p.totalShares, m);
      }
    case RemoveLiquidity(user, amount) =>
      if 0 < amount <= ShareOf(p, user) {
        SharesBelowTotal(p, user);
        WithdrawalKeepsPerShare(p.reserveA, amount, p.totalShares);
        WithdrawalKeepsPerShare(p.reserveB, amount, p.totalShares);
      }
  }

  lemma DepositKeepsPerShare(reserve: nat, amount: nat, total: nat, m: nat)
    requires reserve > 0 && m <= Floor(amount * total, reserve)
    ensures reserve * (total + m) <= (reserve + amount) * total
  {
    LargestFair(amount * total, reserve, m);
    assert reserve * (total + m) == reserve * total + m * reserve;
  }

  lemma WithdrawalKeepsPerShare(reserve: nat, amount: nat, total: nat)
    requires 0 < amount <= total
    ensures reserve * (total - amount) <= (reserve - Floor(reserve * amount, total)) * total
  {
    var out := Floor(reserve * amount, total);
    assert reserve * (total - amount) == reserve * total - reserve * amount;
    assert (reserve - out) * total == reserve * total - total * out;
  }

  /** A swap strictly raises the product of the reserves, fee and rounding included. */
  lemma SwapRaisesProduct(a: nat, b: nat, x: nat)
    requires a > 0 && b > 0 && x > 0
    ensures var out := AmountOut(a, b, x);
            out < b && a * b < (a + x) * (b - out)
  {
    AmountOutBelowReserve(a, b, x);
    FloorBounds(x * 997 * b, a * 1000 + x * 997);
    FairPriceRaises(a, b, x, AmountOut(a, b, x));
  }

  /** Paying out less than reserve B at no better than the fee-reduced price raises the product. */
  lemma FairPriceRaises(a: nat, b: nat, x: nat, out: nat)
    requires x > 0 && out < b && (a * 1000 + x * 997) * out <= x * 997 * b
    ensures a * b < (a + x) * (b - out)
  {
    assert (a * 1000 + x * 997) * out == 1000 * (a * out) + 997 * (x * out);
    assert x * 997 * b == 997 * (x * b);
    MulMono(x, out + 1, b);
    assert x * (out + 1) == x * out + x;
    assert (a + x) * (b - out) == a * b - a * out + x * b - x * out;
  }

  lemma StepKeepsProductPerShare(p: Pool, op: Op)
    requires WellFormed(p) && p.totalShares > 0
    ensures ProductPerShareAtLeast(p, Step(p, op).pool)
  {
    if op.AddLiquidity? || op.RemoveLiquidity? {
      LiquidityKeepsPerShare(p, op);
      PerShareGivesProduct(p, Step(p, op).pool);
    } else if op.SwapAForB? && Step(p, op).result.Ok? {
      SwapRaisesProduct(p.reserveA, p.reserveB, op.amountIn);
      var q := Step(p, op).pool;
      MulMono(p.totalShares * p.totalShares, p.reserveA * p.reserveB, q.reserveA * q.reserveB);
    }
  }

  /** The pool is never empty along the run. */
  ghost predicate NeverEmpties(p: Pool, ops: seq<Op>)
    requires WellFormed(p)
    decreases |ops|
  {
    p.totalShares > 0 && (ops == [] || (StepKeepsWellFormed(p, ops[0]); NeverEmpties(Step(p, ops[0]).pool, ops[1..])))
  }

  /** MAIN RESULT.  Over any run in which the pool does not empty, the product of the reserves per
      squared share never decreases. */
  lemma {:induction false} RunNeverDilutes(p: Pool, ops: seq<Op>)
    requires WellFormed(p) && NeverEmpties(p, ops)
    ensures Run(p, ops).totalShares > 0
    ensures ProductPerShareAtLeast(p, Run(p, ops))
    decreases |ops|
  {
    if ops != [] {
      StepKeepsWellFormed(p, ops[0]);
      var q := Step(p, ops[0]).pool;
      StepKeepsProductPerShare(p, ops[0]);
      RunNeverDilutes(q, ops[1..]);
      ProductPerShareTrans(p, q, Run(p, ops));
    }
  }

  lemma ProductPerShareTrans(p: Pool, q: Pool, r: Pool)
    requires q.totalShares > 0 && ProductPerShareAtLeast(p, q) && ProductPerShareAtLeast(q, r)
    ensures ProductPerShareAtLeast(p, r)
  {
    FractionTrans(p.reserveA * p.reserveB, p.totalShares * p.totalShares,
                  q.reserveA * q.reserveB, q.totalShares * q.totalShares,
                  r.reserveA * r.reserveB, r.totalShares * r.totalShares);
  }

  /** MAIN RESULT.  A pool that is emptied and restarted with `a` and `b` keeps its product per share
      exactly when A * B * (a + b)^2 <= a * b * T^2, with the reserves and total shares before. */
  lemma RestartKeepsProductExactly(p: Pool, leaver: string, user: string, a: nat, b: nat)
    requires WellFormed(p) && p.totalShares > 0 && ShareOf(p, leaver) == p.totalShares && a > 0 && b > 0
    ensures var q := Step(p, RemoveLiquidity(leaver, p.totalShares)).pool;
            && WellFormed(q) && q.totalShares == 0
            && var o := Step(q, AddLiquidity(user, a, b));
            && o.result == Ok([a + b])
            && (ProductPerShareAtLeast(p, o.pool)
                <==> p.reserveA * p.reserveB * ((a + b) * (a + b)) <= a * b * (p.totalShares * p.totalShares))
  {
    LastExitEmptiesPool(p, leaver);
    StepKeepsWellFormed(p, RemoveLiquidity(leaver, p.totalShares));
  }

  /** So it may restart lower: a run from a new pool that does. */
  lemma EmptiedPoolMayRestartLower()
    ensures var ops := [RemoveLiquidity("a", 200), AddLiquidity("a", 1, 3)];
            var p := Run(EMPTY, [AddLiquidity("a", 100, 100)]);
            p.reserveA == p.reserveB == 100 && p.totalShares == 200 && !ProductPerShareAtLeast(p, Run(p, ops))
  {
    var start := [AddLiquidity("a", 100, 100)];
    StepKeepsWellFormed(EMPTY, start[0]);
    var p := Step(EMPTY, start[0]).pool;
    assert start[1..] == [] && Run(EMPTY, start) == Run(p, []) == p;
    var ops := [RemoveLiquidity("a", 200), AddLiquidity("a", 1, 3)];
    LastExitEmptiesPool(p, "a");
    var q := Step(p, ops[0]).pool;
    StepKeepsWellFormed(p, ops[0]);
    var r := Step(q, ops[1]).pool;
    StepKeepsWellFormed(q, ops[1]);
    assert ops[1..] == [ops[1]] && ops[1..][1..] == [];
    assert Run(q, ops[1..]) == Run(r, []);
    assert Run(p, ops) == r;
    assert r.reserveA == 1 && r.reserveB == 3 && r.totalShares == 4;
  }

  /** Depositing and at once withdrawing the minted shares always succeeds and never returns more
      of either token than was paid in. */
  lemma DepositThenWithdrawNeverGains(p: Pool, user: string, amountA: nat, amountB: nat)
    requires WellFormed(p)
    requires Step(p, AddLiquidity(user, amountA, amountB)).result.Ok?
    ensures var d := Step(p, AddLiquidity(user, amountA, amountB));
            WellFormed(d.pool) &&
            var w := Step(d.pool, RemoveLiquidity(user, d.result.value[0])).result;
            w.Ok? && |w.value| == 2 && w.value[0] <= amountA && w.value[1] <= amountB
  {
    var add := AddLiquidity(user, amountA, amountB);
    var m := Minted(p, amountA, amountB);
    StepKeepsWellFormed(p, add);
    var q := Step(p, add).pool;
    WithdrawalIsLargestFair(q, user, m, amountA + 1, amountB + 1);
    if p.totalShares > 0 {
      LargestFair(amountA * p.totalShares, p.reserveA, m);
      LargestFair(amountB * p.totalShares, p.reserveB, m);
    }
    BelowProportion(p.reserveA, p.totalShares, amountA, m);
    BelowProportion(p.reserveB, p.totalShares, amountB, m);
  }

  lemma BelowProportion(reserve: nat, total: nat, amount: nat, m: nat)
    requires m * reserve <= amount * total && m > 0
    ensures (reserve + amount) * m < (amount + 1) * (total + m)
  {
    assert (reserve + amount) * m == m * reserve + amount * m;
    assert (amount + 1) * (total + m) == amount * total + amount * m + total + m;
  }

  // ---------------------------------------------------------------- splitting a trade

  /** Total paid out, and total accepted input, of a run of swap attempts. */
  ghost function PaidOut(p: Pool, inputs: seq<nat>): nat
    requires WellFormed(p)
    decreases |inputs|
  {
    if inputs == [] then 0
    else
      var o := Step(p, SwapAForB("", inputs[0]));
      StepKeepsWellFormed(p, SwapAForB("", inputs[0]));
      (if o.result.Ok? then o.result.value[0] else 0) + PaidOut(o.pool, inputs[1..])
  }

  ghost function PaidIn(p: Pool, inputs: seq<nat>): nat
    requires WellFormed(p)
    decreases |inputs|
  {
    if inputs == [] then 0
    else
      var o := Step(p, SwapAForB("", inputs[0]));
      StepKeepsWellFormed(p, SwapAForB("", inputs[0]));
      (if o.result.Ok? then inputs[0] else 0) + PaidIn(o.pool, inputs[1..])
  }

  /** After one accepted swap, the reserve that is left still covers the share of `b` that a single
      trade of the whole input so far would leave, for any lower bound `d` on 1000 * a. */
  lemma OneMoreSwap(a: nat, b: nat, x: nat, d: nat, k: nat)
    requires a > 0 && b > 0 && d <= a * 1000
    requires k <= d * b
    ensures AmountOut(a, b, x) < b
    ensures k <= (d + x * 997) * (b - AmountOut(a, b, x))
  {
    AmountOutBelowReserve(a, b, x);
    var out := AmountOut(a, b, x);
    var c := x * 997;
    var e := a * 1000 + c;
    assert e * out <= c * b;
    assert e * out == (a * 1000) * out + c * out;
    MulMono(out, d, a * 1000);
    assert (d + c) * (b - out) == d * b + c * b - d * out - c * out;
  }

  /** Strengthened induction: `d` is 1000 times the original reserveA plus 997 times the input
      accepted so far, `k` is 1000 times the product of the original reserves. */
  lemma {:induction false} SplitBound(p: Pool, inputs: seq<nat>, d: nat, k: nat)
    requires WellFormed(p) && p.totalShares > 0
    requires d <= p.reserveA * 1000 && k <= d * p.reserveB
    ensures PaidOut(p, inputs) < p.reserveB
    ensures k <= (d + PaidIn(p, inputs) * 997) * (p.reserveB - PaidOut(p, inputs))
    ensures PaidOut(p, inputs) > 0 ==> PaidIn(p, inputs) > 0
    decreases |inputs|
  {
    if inputs != [] {
      var swap := SwapAForB("", inputs[0]);
      var o := Step(p, swap);
      StepKeepsWellFormed(p, swap);
      if o.result.Ok? {
        OneMoreSwap(p.reserveA, p.reserveB, inputs[0], d, k);
        SplitBound(o.pool, inputs[1..], d + inputs[0] * 997, k);
      } else {
        SplitBound(p, inputs[1..], d, k);
      }
    }
  }

  lemma SplitAmounts(p: Pool, inputs: seq<nat>)
    requires WellFormed(p) && p.totalShares > 0
    ensures PaidOut(p, inputs) <= AmountOut(p.reserveA, p.reserveB, PaidIn(p, inputs))
    ensures PaidOut(p, inputs) > 0 ==> PaidIn(p, inputs) > 0
  {
    var a, b := p.reserveA, p.reserveB;
    SplitBound(p, inputs, a * 1000, a * 1000 * b);
    AtMostOneSwap(a, b, PaidIn(p, inputs), PaidOut(p, inputs));
  }

  /** MAIN RESULT.  Splitting a trade never pays: whatever swaps are attempted one after another,
      the accepted ones pay out in total at most what a single swap of their total input pays, and
      that single swap is accepted whenever any of them was. */
  lemma {:induction false} SplittingNeverPays(p: Pool, inputs: seq<nat>, user: string)
    requires WellFormed(p) && PaidOut(p, inputs) > 0
    ensures var whole := Step(p, SwapAForB(user, PaidIn(p, inputs))).result;
            whole.Ok? && PaidOut(p, inputs) <= whole.value[0]
  {
    if p.totalShares == 0 {
      NothingFromEmpty(p, inputs);
    } else {
      SplitAmounts(p, inputs);
      WholeSwapAccepted(p, user, PaidIn(p, inputs));
    }
  }

  lemma WholeSwapAccepted(p: Pool, user: string, x: nat)
    requires WellFormed(p) && p.totalShares > 0 && x > 0 && AmountOut(p.reserveA, p.reserveB, x) > 0
    ensures Step(p, SwapAForB(user, x)).result == Ok([AmountOut(p.reserveA, p.reserveB, x)])
  {
    AmountOutBelowReserve(p.reserveA, p.reserveB, x);
  }

  lemma AtMostOneSwap(a: nat, b: nat, x: nat, out: nat)
    requires a > 0 && out <= b
    requires a * 1000 * b <= (a * 1000 + x * 997) * (b - out)
    ensures out <= AmountOut(a, b, x)
  {
    var d := a * 1000 + x * 997;
    assert d * (b - out) == a * 1000 * b + x * 997 * b - out * d;
    LargestFair(x * 997 * b, d, out);
  }

  lemma {:induction false} NothingFromEmpty(p: Pool, inputs: seq<nat>)
    requires WellFormed(p) && p.totalShares == 0
    ensures PaidOut(p, inputs) == 0
  {
    if inputs != [] {
      NothingFromEmpty(p, inputs[1..]);
    }
  }
}
