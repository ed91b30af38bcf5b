/** The constant-product pool of the differential-testing models: floor division, a 997/1000 fee
    on the input of a swap, and shares minted and burned in proportion to the reserves. */
module DexSwap {
  import opened Prelude
  import opened MapSum
  import opened Arith

  datatype Pool = Pool(reserveA: nat, reserveB: nat, totalShares: nat, shares: map<string, nat>)

  const EMPTY := Pool(0, 0, 0, map[])

  datatype Op =
    | AddLiquidity(user: string, amountA: nat, amountB: nat)
    | RemoveLiquidity(user: string, amount: nat)
    | SwapAForB(user: string, amountIn: nat)
    | GetReserves
    | GetShares(user: string)
    | GetTotalShares

  datatype Error =
    ZeroLiquidity | ZeroShares | InsufficientShares | ZeroInput | InsufficientLiquidity | InsufficientOutput

  datatype Outcome = Outcome(pool: Pool, result: Result<seq<nat>, Error>)

  function ShareOf(p: Pool, user: string): nat {
    if user in p.shares then p.shares[user] else 0
  }

  /** The class invariant: the books of the shares balance, and a pool is either wholly empty or
      has both reserves. */
  ghost predicate WellFormed(p: Pool) {
    && p.totalShares == Total<nat>(p.shares, Held)
    && (p.totalShares == 0 <==> p.reserveA == 0)
    && (p.totalShares == 0 <==> p.reserveB == 0)
  }

  lemma SharesBelowTotal(p: Pool, user: string)
    requires WellFormed(p)
    ensures ShareOf(p, user) <= p.totalShares
  {
    Bounded<nat>(p.shares, Held, user);
  }

  function Minted(p: Pool, amountA: nat, amountB: nat): nat
    requires p.totalShares != 0 ==> p.reserveA > 0 && p.reserveB > 0
  {
    if p.totalShares == 0 then amountA + amountB
    else
      var shareA := Floor(amountA * p.totalShares, p.reserveA);
      var shareB := Floor(amountB * p.totalShares, p.reserveB);
      if shareA < shareB then shareA else shareB
  }

  function AmountOut(reserveA: nat, reserveB: nat, amountIn: nat): nat
    requires reserveA > 0
  {
    Floor(amountIn * 997 * reserveB, reserveA * 1000 + amountIn * 997)
  }

  /** What one operation does to the pool and returns. */
  ghost function Step(p: Pool, op: Op): Outcome
    requires WellFormed(p)
  {
    match op
    case AddLiquidity(user, amountA, amountB) =>
      if amountA == 0 || amountB == 0 then Outcome(p, Err(ZeroLiquidity))
      else
        var minted := Minted(p, amountA, amountB);
        if minted == 0 then Outcome(p, Err(ZeroShares))
        else Outcome(Pool(p.reserveA + amountA, p.reserveB + amountB, p.totalShares + minted,
                          p.shares[user := ShareOf(p, user) + minted]), Ok([minted]))
    case RemoveLiquidity(user, amount) =>
      if amount == 0 then Outcome(p, Err(ZeroShares))
      else if ShareOf(p, user) < amount then Outcome(p, Err(InsufficientShares))
      else
        SharesBelowTotal(p, user);
        var amountA := Floor(p.reserveA * amount, p.totalShares);
        var amountB := Floor(p.reserveB * amount, p.totalShares);
        WithdrawalFits(p.reserveA, amount, p.totalShares);
        WithdrawalFits(p.reserveB, amount, p.totalShares);
        Outcome(Pool(p.reserveA - amountA, p.reserveB - amountB, p.totalShares - amount,
                     p.shares[user := ShareOf(p, user) - amount]), Ok([amountA, amountB]))
    case SwapAForB(user, amountIn) =>
      if amountIn == 0 then Outcome(p, Err(ZeroInput))
      else if p.reserveA == 0 || p.reserveB == 0 then Outcome(p, Err(InsufficientLiquidity))
      else
        var amountOut := AmountOut(p.reserveA, p.reserveB, amountIn);
        if amountOut == 0 || amountOut >= p.reserveB then Outcome(p, Err(InsufficientOutput))
        else Outcome(p.(reserveA := p.reserveA + amountIn, reserveB := p.reserveB - amountOut), Ok([amountOut]))
    case GetReserves => Outcome(p, Ok([p.reserveA, p.reserveB]))
    case GetShares(user) => Outcome(p, Ok([ShareOf(p, user)]))
    case GetTotalShares => Outcome(p, Ok([p.totalShares]))
  }

  /** A withdrawal of `amount` out of `total` shares takes the whole reserve exactly when it takes
      all the shares. */
  lemma WithdrawalFits(reserve: nat, amount: nat, total: nat)
    requires 0 < amount <= total
    ensures Floor(reserve * amount, total) <= reserve
    ensures reserve > 0 ==> (Floor(reserve * amount, total) == reserve <==> amount == total)
  {
    var out := Floor(reserve * amount, total);
    assert total * out <= reserve * amount;
    MulMono(reserve, amount, total);
    CancelLeft(total, out, reserve);
    Multiple(total, reserve);
    assert reserve * (total - amount) == reserve * total - reserve * amount;
    assert reserve > 0 && amount < total ==> reserve * (total - amount) > 0;
  }

  /** A payout is positive-reserve safe: it never reaches the reserve. */
  lemma AmountOutBelowReserve(a: nat, b: nat, x: nat)
    requires a > 0 && b > 0
    ensures AmountOut(a, b, x) < b
  {
    var d := a * 1000 + x * 997;
    var out := AmountOut(a, b, x);
    assert d * b == a * 1000 * b + x * 997 * b;
    assert a * b > 0;
    if out >= b {
      MulMono(d, b, out);
    }
  }

  lemma StepKeepsWellFormed(p: Pool, op: Op)
    requires WellFormed(p)
    ensures WellFormed(Step(p, op).pool)
  {
    match op
    case AddLiquidity(user, amountA, amountB) =>
      if amountA != 0 && amountB != 0 {
        Written<nat>(p.shares, Held, user, ShareOf(p, user) + Minted(p, amountA, amountB));
      }
    case RemoveLiquidity(user, amount) =>
      if 0 < amount <= ShareOf(p, user) {
        SharesBelowTotal(p, user);
        Written<nat>(p.shares, Held, user, ShareOf(p, user) - amount);
        WithdrawalFits(p.reserveA, amount, p.totalShares);
        WithdrawalFits(p.reserveB, amount, p.totalShares);
      }
    case _ =>
  }

  /** The pool as the object the differential harness drives. */
  class DEXSwapModel {
    var reserveA: nat
    var reserveB: nat
    var totalShares: nat
    var shares: map<string, nat>

    ghost function Value(): Pool
      reads this
    {
      Pool(reserveA, reserveB, totalShares, shares)
    }

    ghost predicate Valid()
      reads this
    {
      WellFormed(Value())
    }

    constructor ()
      ensures Valid() && Value() == EMPTY
    {
      reserveA, reserveB, totalShares, shares := 0, 0, 0, map[];
    }

    method Execute(op: Op) returns (r: Result<seq<nat>, Error>)
      requires Valid()
      modifies this
      ensures Valid()
      ensures Value() == Step(old(Value()), op).pool
      ensures r == Step(old(Value()), op).result
    {
      match op {
        case AddLiquidity(user, amountA, amountB) =>
          r := Deposit(user, amountA, amountB);
        case RemoveLiquidity(user, amount) =>
          r := Withdraw(user, amount);
        case SwapAForB(user, amountIn) =>
          r := Swap(user, amountIn);
        case GetReserves =>
          r := Ok([reserveA, reserveB]);
        case GetShares(user) =>
          var held := Lookup(user);
          r := Ok([held]);
        case GetTotalShares =>
          r := Ok([totalShares]);
      }
    }

    method Deposit(user: string, amountA: nat, amountB: nat) returns (r: Result<seq<nat>, Error>)
      requires Valid()
      modifies this
      ensures Valid()
      ensures Outcome(Value(), r) == Step(old(Value()), AddLiquidity(user, amountA, amountB))
    {
      StepKeepsWellFormed(Value(), AddLiquidity(user, amountA, amountB));
      if amountA == 0 || amountB == 0 { return Err(ZeroLiquidity); }
      var minted := SharesFor(amountA, amountB);
      if minted == 0 { return Err(ZeroShares); }
      reserveA := reserveA + amountA;
      reserveB := reserveB + amountB;
      totalShares := totalShares + minted;
      var held := Lookup(user);
      shares := shares[user := held + minted];
      return Ok([minted]);
    }

    /** The shares a deposit is worth. */
    method SharesFor(amountA: nat, amountB: nat) returns (minted: nat)
      requires Valid()
      ensures minted == Minted(Value(), amountA, amountB)
    {
      if totalShares == 0 {
        minted := amountA + amountB;
      } else {
        var shareA := Floor(amountA * totalShares, reserveA);
        var shareB := Floor(amountB * totalShares, reserveB);
        minted := if shareA < shareB then shareA else shareB;
      }
    }

    method Withdraw(user: string, amount: nat) returns (r: Result<seq<nat>, Error>)
      requires Valid()
      modifies this
      ensures Valid()
      ensures Outcome(Value(), r) == Step(old(Value()), RemoveLiquidity(user, amount))
    {
      StepKeepsWellFormed(Value(), RemoveLiquidity(user, amount));
      var held := Lookup(user);
      if amount == 0 { return Err(ZeroShares); }
      if held < amount { return Err(InsufficientShares); }
      SharesBelowTotal(Value(), user);
      WithdrawalFits(reserveA, amount, totalShares);
      WithdrawalFits(reserveB, amount, totalShares);
      var amountA := Floor(reserveA * amount, totalShares);
      var amountB := Floor(reserveB * amount, totalShares);
      shares := shares[user := held - amount];
      totalShares := totalShares - amount;
      reserveA := reserveA - amountA;
      reserveB := reserveB - amountB;
      return Ok([amountA, amountB]);
    }

    method Swap(user: string, amountIn: nat) returns (r: Result<seq<nat>, Error>)
      requires Valid()
      modifies this
      ensures Valid()
      ensures Outcome(Value(), r) == Step(old(Value()), SwapAForB(user, amountIn))
    {
      StepKeepsWellFormed(Value(), SwapAForB(user, amountIn));
      if amountIn == 0 { return Err(ZeroInput); }
      if reserveA == 0 || reserveB == 0 { return Err(InsufficientLiquidity); }
      var amountInWithFee := amountIn * 997;
      var amountOut := Floor(amountInWithFee * reserveB, reserveA * 1000 + amountInWithFee);
      if amountOut == 0 || amountOut >= reserveB { return Err(InsufficientOutput); }
      reserveA := reserveA + amountIn;
      reserveB := reserveB - amountOut;
      return Ok([amountOut]);
    }

    method Lookup(user: string) returns (held: nat)
      ensures held == ShareOf(Value(), user)
    {
      held := if user in shares then shares[user] else 0;
    }
  }
}
