/** The reference model of the token, over unbounded integers. */
module TokenModel {
  import opened Prelude
  import opened MapSum

  datatype State = State(balances: map<string, nat>, allowances: map<string, nat>, totalSupply: nat)

  datatype Op =
    | Mint(to: string, amount: nat)
    | Transfer(from: string, to: string, amount: nat)
    | Approve(owner: string, spender: string, amount: nat)
    | TransferFrom(spender: string, from: string, to: string, amount: nat)
    | BalanceOf(user: string)
    | Allowance(owner: string, spender: string)
    | TotalSupply

  datatype Error = ZeroAmount | InsufficientBalance | InsufficientAllowance

  datatype Outcome = Outcome(state: State, result: Result<seq<nat>, Error>)

  function Get(m: map<string, nat>, k: string): nat {
    if k in m then m[k] else 0
  }

  /** Owner and spender joined by a NUL character. */
  function AllowanceKey(owner: string, spender: string): string {
    owner + ['\0'] + spender
  }

  function Move(m: map<string, nat>, from: string, to: string, amount: nat): map<string, nat>
    requires amount <= Get(m, from)
  {
    var taken := m[from := Get(m, from) - amount];
    taken[to := Get(taken, to) + amount]
  }

  function Step(st: State, op: Op): Outcome {
    match op
    case Mint(to, amount) =>
      if amount == 0 then Outcome(st, Err(ZeroAmount))
      else Outcome(st.(balances := st.balances[to := Get(st.balances, to) + amount],
                       totalSupply := st.totalSupply + amount), Ok([]))
    case Transfer(from, to, amount) =>
      if Get(st.balances, from) < amount then Outcome(st, Err(InsufficientBalance))
      else Outcome(st.(balances := Move(st.balances, from, to, amount)), Ok([]))
    case Approve(owner, spender, amount) =>
      Outcome(st.(allowances := st.allowances[AllowanceKey(owner, spender) := amount]), Ok([]))
    case TransferFrom(spender, from, to, amount) =>
      var key := AllowanceKey(from, spender);
      if Get(st.allowances, key) < amount then Outcome(st, Err(InsufficientAllowance))
      else if Get(st.balances, from) < amount then Outcome(st, Err(InsufficientBalance))
      else Outcome(st.(allowances := st.allowances[key := Get(st.allowances, key) - amount],
                       balances := Move(st.balances, from, to, amount)), Ok([]))
    case BalanceOf(user) => Outcome(st, Ok([Get(st.balances, user)]))
    case Allowance(owner, spender) => Outcome(st, Ok([Get(st.allowances, AllowanceKey(owner, spender))]))
    case TotalSupply => Outcome(st, Ok([st.totalSupply]))
  }

  /** The balances a record of initial balances stands for. */
  function FromRecord(initial: seq<(string, nat)>): map<string, nat> {
    if initial == [] then map[]
    else
      var last := initial[|initial| - 1];
      FromRecord(initial[..|initial| - 1])[last.0 := last.1]
  }

  lemma {:induction false} RecordKey(initial: seq<(string, nat)>, k: string) returns (i: nat)
    requires k in FromRecord(initial)
    ensures i < |initial| && initial[i].0 == k
  {
    var n := |initial| - 1;
    if k == initial[n].0 {
      i := n;
    } else {
      i := RecordKey(initial[..n], k);
    }
  }

  class TokenTransferModel {
    var balances: map<string, nat>
    var allowances: map<string, nat>
    var totalSupply: nat

    ghost function Contents(): State
      reads this
    {
      State(balances, allowances, totalSupply)
    }

    /** Sets the initial balances one by one and sums them up; the names are distinct record keys. */
    constructor (initial: seq<(string, nat)>)
      requires forall i, j | 0 <= i < j < |initial| :: initial[i].0 != initial[j].0
      ensures Contents() == State(FromRecord(initial), map[], Total<nat>(FromRecord(initial), Held))
    {
      balances, allowances, totalSupply := map[], map[], 0;
      new;
      for i := 0 to |initial|
        invariant balances == FromRecord(initial[..i]) && allowances == map[]
        invariant totalSupply == Total<nat>(balances, Held)
      {
        if initial[i].0 in FromRecord(initial[..i]) {
          ghost var j := RecordKey(initial[..i], initial[i].0);
        }
        assert initial[..i + 1][..i] == initial[..i];
        Written<nat>(balances, Held, initial[i].0, initial[i].1);
        balances := balances[initial[i].0 := initial[i].1];
        totalSupply := totalSupply + initial[i].1;
      }
      assert initial[..|initial|] == initial;
    }

    method MoveBalance(from: string, to: string, amount: nat)
      requires amount <= Get(balances, from)
      modifies this`balances
      ensures balances == Move(old(balances), from, to, amount)
    {
      balances := balances[from := Get(balances, from) - amount];
      balances := balances[to := Get(balances, to) + amount];
    }

    method Execute(op: Op) returns (r: Result<seq<nat>, Error>)
      modifies this
      ensures Outcome(Contents(), r) == Step(old(Contents()), op)
    {
      match op {
        case Mint(to, amount) =>
          if amount == 0 { return Err(ZeroAmount); }
          balances := balances[to := Get(balances, to) + amount];
          totalSupply := totalSupply + amount;
          return Ok([]);
        case Transfer(from, to, amount) =>
          if Get(balances, from) < amount { return Err(InsufficientBalance); }
          MoveBalance(from, to, amount);
          return Ok([]);
        case Approve(owner, spender, amount) =>
          allowances := allowances[AllowanceKey(owner, spender) := amount];
          return Ok([]);
        case TransferFrom(spender, from, to, amount) =>
          var key := AllowanceKey(from, spender);
          if Get(allowances, key) < amount { return Err(InsufficientAllowance); }
          if Get(balances, from) < amount { return Err(InsufficientBalance); }
          allowances := allowances[key := Get(allowances, key) - amount];
          MoveBalance(from, to, amount);
          return Ok([]);
        case BalanceOf(user) => return Ok([Get(balances, user)]);
        case Allowance(owner, spender) => return Ok([Get(allowances, AllowanceKey(owner, spender))]);
        case TotalSupply => return Ok([totalSupply]);
      }
    }
  }

  // ---------------------------------------------------------------- conservation

  ghost predicate Supplied(st: State) {
    st.totalSupply == Total<nat>(st.balances, Held)
  }

  lemma MoveKeepsTotal(m: map<string, nat>, from: string, to: string, amount: nat)
    requires amount <= Get(m, from)
    ensures Total<nat>(Move(m, from, to, amount), Held) == Total<nat>(m, Held)
  {
    Written<nat>(m, Held, from, Get(m, from) - amount);
    var taken := m[from := Get(m, from) - amount];
    Written<nat>(taken, Held, to, Get(taken, to) + amount);
  }

  /** The supply is the sum of the balances after every operation, transfers to oneself included. */
  lemma StepKeepsSupply(st: State, op: Op)
    requires Supplied(st)
    ensures Supplied(Step(st, op).state)
  {
    match op
    case Mint(to, amount) => Written<nat>(st.balances, Held, to, Get(st.balances, to) + amount);
    case Transfer(from, to, amount) =>
      if amount <= Get(st.balances, from) { MoveKeepsTotal(st.balances, from, to, amount); }
    case TransferFrom(_, from, to, amount) =>
      if amount <= Get(st.balances, from) { MoveKeepsTotal(st.balances, from, to, amount); }
    case _ =>
  }

  function Run(st: State, ops: seq<Op>): State
    decreases |ops|
  {
    if ops == [] then st else Run(Step(st, ops[0]).state, ops[1..])
  }

  /** A run executes its operations one after the other. */
  lemma {:induction false} RunIsStepwise(st: State, ops: seq<Op>, op: Op)
    ensures Run(st, []) == st && Run(st, ops + [op]) == Step(Run(st, ops), op).state
    decreases |ops|
  {
    if ops == [] {
      assert ops + [op] == [op];
    } else {
      RunIsStepwise(Step(st, ops[0]).state, ops[1..], op);
      assert (ops + [op])[1..] == ops[1..] + [op];
    }
  }

  /** MAIN RESULT.  From any balances whose sum is the supply, as it is at the start, and over any run,
      the supply is the sum of the balances. */
  lemma {:induction false} SupplyIsConserved(st: State, ops: seq<Op>)
    requires st.totalSupply == Total<nat>(st.balances, Held)
    ensures Run(st, ops).totalSupply == Total<nat>(Run(st, ops).balances, Held)
    decreases |ops|
  {
    if ops != [] {
      StepKeepsSupply(st, ops[0]);
      SupplyIsConserved(Step(st, ops[0]).state, ops[1..]);
    }
  }

  // ---------------------------------------------------------------- each operation, exactly

  /** `amount` went from one holder to another, who may be the same; seen from any user. */
  predicate Moved(before: map<string, nat>, after: map<string, nat>, from: string, to: string, amount: nat, user: string) {
    (if user in after then after[user] else 0) + (if user == from then amount else 0)
    == (if user in before then before[user] else 0) + (if user == to then amount else 0)
  }

  /** A mint is refused exactly for nothing; it credits the recipient only, and raises the supply. */
  lemma MintCreditsExactly(st: State, to: string, amount: nat, user: string)
    ensures var o := Step(st, Mint(to, amount));
            if amount == 0 then o == Outcome(st, Err(ZeroAmount))
            else && o.result == Ok([])
                 && o.state.totalSupply == st.totalSupply + amount && o.state.allowances == st.allowances
                 && Get(o.state.balances, user) == Get(st.balances, user) + (if user == to then amount else 0)
  {
  }

  /** A transfer is refused exactly for want of balance; it moves the amount and touches nothing else. */
  lemma TransferMovesExactly(st: State, from: string, to: string, amount: nat, user: string)
    ensures var o := Step(st, Transfer(from, to, amount));
            if (if from in st.balances then st.balances[from] else 0) < amount then o == Outcome(st, Err(InsufficientBalance))
            else && o.result == Ok([])
                 && o.state.totalSupply == st.totalSupply && o.state.allowances == st.allowances
                 && Moved(st.balances, o.state.balances, from, to, amount, user)
  {
  }

  /** An approval always succeeds and sets one cell, that of owner and spender around a NUL. */
  lemma ApproveSetsExactly(st: State, owner: string, spender: string, amount: nat, key: string)
    ensures var o := Step(st, Approve(owner, spender, amount));
            && o.result == Ok([]) && o.state.balances == st.balances && o.state.totalSupply == st.totalSupply
            && Get(o.state.allowances, key) == if key == owner + "\0" + spender then amount else Get(st.allowances, key)
  {
  }

  /** A transfer on behalf of the owner: when it is refused, and what it takes from whom. */
  lemma TransferFromMovesExactly(st: State, spender: string, from: string, to: string, amount: nat, user: string, key: string)
    ensures var o := Step(st, TransferFrom(spender, from, to, amount));
            var cell := from + "\0" + spender;
            var allowed := if cell in st.allowances then st.allowances[cell] else 0;
            if allowed < amount then o == Outcome(st, Err(InsufficientAllowance))
            else if (if from in st.balances then st.balances[from] else 0) < amount then o == Outcome(st, Err(InsufficientBalance))
            else && o.result == Ok([]) && o.state.totalSupply == st.totalSupply
                 && Moved(st.balances, o.state.balances, from, to, amount, user)
                 && Get(o.state.allowances, key) == if key == cell then allowed - amount else Get(st.allowances, key)
  {
  }

  /** The readers answer what is held, allowed and supplied, and change nothing. */
  lemma ReadersAnswerExactly(st: State, user: string, owner: string, spender: string)
    ensures Step(st, BalanceOf(user)) == Outcome(st, Ok([if user in st.balances then st.balances[user] else 0]))
    ensures var cell := owner + "\0" + spender;
            Step(st, Allowance(owner, spender)) == Outcome(st, Ok([if cell in st.allowances then st.allowances[cell] else 0]))
    ensures Step(st, TotalSupply) == Outcome(st, Ok([st.totalSupply]))
  {
  }

  /** A record of distinct names gives each name its amount, and nobody else anything. */
  lemma {:induction false} RecordHolds(initial: seq<(string, nat)>, user: string)
    requires forall i, j | 0 <= i < j < |initial| :: initial[i].0 != initial[j].0
    ensures forall i | 0 <= i < |initial| :: initial[i].0 == user ==> Get(FromRecord(initial), user) == initial[i].1
    ensures (forall i | 0 <= i < |initial| :: initial[i].0 != user) ==> user !in FromRecord(initial)
  {
    if initial != [] {
      RecordHolds(initial[..|initial| - 1], user);
    }
  }

  /** With NUL-free names one allowance cell belongs to one owner and one spender. */
  lemma AllowanceKeyIsInjective(o1: string, s1: string, o2: string, s2: string)
    requires '\0' !in o1 && '\0' !in o2 && AllowanceKey(o1, s1) == AllowanceKey(o2, s2)
    ensures o1 == o2 && s1 == s2
  {
    var k1, k2 := AllowanceKey(o1, s1), AllowanceKey(o2, s2);
    assert k1[|o1|] == '\0' && k2[|o2|] == '\0';
    assert |o1| == |o2|;
    assert k1[..|o1|] == o1 && k2[..|o1|] == o2;
    assert k1[|o1| + 1..] == s1 && k2[|o1| + 1..] == s2;
  }
}
