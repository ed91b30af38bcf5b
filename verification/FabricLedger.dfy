/** The key-value world state the bc3 chaincodes share, and the transaction context they read and
    write it through.  JSON documents and decimal strings are typed cells; reading a cell as the
    wrong type is the parse error of the original. */
module FabricLedger {
  import opened Prelude

  datatype Cell =
    | Meta(bridge: Name, price: u64, remain: u64, lockSize: u64)
    | LockEntry(lockedAmount: u64, lockBlock: u64, timeoutBlocks: u64, active: bool)
    | Num(v: u64)
    | BridgeMeta(relayerMSP: Name, stateContract: string)
    | PendingOp(amountA: u64, amountB: u64, kind: string, user: string, pendingActive: bool)
    | AuctionEntry(seller: string, minPrice: u64, highestBidder: string, highestBid: u64, open: bool, exists_: bool)

  type Ledger = map<string, Cell>

  const KEY_META := "META"
  const KEY_LOCK_TOTAL := "LOCK_TOTAL"
  const KEY_BRIDGE_META := "XBRIDGE_META"

  function AccountKey(user: string): string { "ACCOUNT_" + user }

  function BookingKey(user: string): string { "BOOKING_" + user }

  function LockKey(id: string): string { "LOCK_" + id }

  function PendingKey(id: string): string { "XBRIDGE_PENDING_" + id }

  function AuctionKey(id: string): string { "RQ2_AUCTION_" + id }

  function ReturnKey(user: string): string { "RQ2_PENDING_" + user }

  /** Everything a call learns from outside the ledger: the caller, the transaction time, whether
      reads see the call's own writes, and the two hashed slot ids of the exported state. */
  datatype Env = Env(msp: Name, clientId: string, now: u64, ownWrites: bool, metaSlot: Bytes32, totalSlot: Bytes32)

  /** `getU64`: an absent cell is zero, a cell of another type is an error. */
  function NumAt(l: Ledger, key: string): Option<u64> {
    if key !in l then Some(0)
    else if l[key].Num? then Some(l[key].v)
    else None
  }

  /** `getU64` with the error dropped, as `addU64` and `subU64` read it. */
  function NumOrZero(l: Ledger, key: string): u64 {
    if key in l && l[key].Num? then l[key].v else 0
  }

  function MetaAt(l: Ledger): Option<Cell> {
    if KEY_META in l && l[KEY_META].Meta? then Some(l[KEY_META]) else None
  }

  /** The lock entry of an id, if there is an active one. */
  function LockAt(l: Ledger, id: string): Option<Cell> {
    if LockKey(id) in l && l[LockKey(id)].LockEntry? && l[LockKey(id)].active then Some(l[LockKey(id)]) else None
  }

  /** The pending operation of an id; absent and inactive ones are errors. */
  function PendingAt(l: Ledger, id: string): Option<Cell> {
    if PendingKey(id) in l && l[PendingKey(id)].PendingOp? && l[PendingKey(id)].pendingActive
    then Some(l[PendingKey(id)]) else None
  }

  /** Keys of different kinds never coincide, except that the lock of id "TOTAL" is the lock total. */
  lemma KeysDistinct(id: string, user: string)
    ensures LockKey(id) == KEY_LOCK_TOTAL <==> id == "TOTAL"
    ensures AccountKey(user)[0] == 'A' && BookingKey(user)[0] == 'B' && LockKey(id)[0] == 'L'
    ensures KEY_META[0] == 'M' && KEY_LOCK_TOTAL[0] == 'L' && KEY_BRIDGE_META[0] == 'X'
    ensures PendingKey(id)[0] == 'X' && AuctionKey(id)[0] == 'R' && ReturnKey(user)[0] == 'R'
    ensures PendingKey(id)[8] == 'P' && KEY_BRIDGE_META[8] == 'M'
    ensures AuctionKey(id)[4] == 'A' && ReturnKey(user)[4] == 'P'
  {
    assert LockKey(id)[5..] == id;
    assert KEY_LOCK_TOTAL[5..] == "TOTAL";
    assert KEY_LOCK_TOTAL == LockKey("TOTAL");
  }

  lemma KeysInjective(a: string, b: string)
    ensures LockKey(a) == LockKey(b) <==> a == b
    ensures AccountKey(a) == AccountKey(b) <==> a == b
    ensures BookingKey(a) == BookingKey(b) <==> a == b
    ensures PendingKey(a) == PendingKey(b) <==> a == b
    ensures AuctionKey(a) == AuctionKey(b) <==> a == b
    ensures ReturnKey(a) == ReturnKey(b) <==> a == b
  {
    assert LockKey(a)[5..] == a && LockKey(b)[5..] == b;
    assert AccountKey(a)[8..] == a && AccountKey(b)[8..] == b;
    assert BookingKey(a)[8..] == a && BookingKey(b)[8..] == b;
    assert PendingKey(a)[16..] == a && PendingKey(b)[16..] == b;
    assert AuctionKey(a)[12..] == a && AuctionKey(b)[12..] == b;
    assert ReturnKey(a)[12..] == a && ReturnKey(b)[12..] == b;
  }

  /** A transaction in progress.  `draft` is the committed state with this transaction's writes on
      top; a read sees the draft or, on a peer that serves committed state only, the state at start. */
  class Ctx {
    const env: Env
    const committed: Ledger
    var draft: Ledger

    constructor (env: Env, ledger: Ledger)
      ensures this.env == env && committed == ledger && draft == ledger
    {
      this.env, committed, draft := env, ledger, ledger;
    }

    ghost function Seen(): Ledger
      reads this
    {
      if env.ownWrites then draft else committed
    }

    method GetState(key: string) returns (r: Option<Cell>)
      ensures r == if key in Seen() then Some(Seen()[key]) else None
    {
      var l := if env.ownWrites then draft else committed;
      r := if key in l then Some(l[key]) else None;
    }

    method PutState(key: string, cell: Cell)
      modifies this
      ensures draft == old(draft)[key := cell]
    {
      draft := draft[key := cell];
    }

    method DelState(key: string)
      modifies this
      ensures draft == old(draft) - {key}
    {
      draft := draft - {key};
    }

    // `getU64`, `addU64` and `subU64`

    method GetNum(key: string) returns (r: Option<u64>)
      ensures r == NumAt(Seen(), key)
    {
      var c := GetState(key);
      r := match c
           case None => Some(0)
           case Some(cell) => if cell.Num? then Some(cell.v) else None;
    }

    method AddNum(key: string, d: u64)
      modifies this
      ensures draft == old(draft)[key := Num(Add64(NumOrZero(old(Seen()), key), d))]
    {
      var cur := GetNum(key);
      PutState(key, Num(Add64(if cur.Some? then cur.value else 0, d)));
    }

    method SubNum(key: string, d: u64)
      modifies this
      ensures var cur := NumOrZero(old(Seen()), key);
              draft == old(draft)[key := Num(cur - (if d > cur then cur else d))]
    {
      var got := GetNum(key);
      var cur := if got.Some? then got.value else 0;
      PutState(key, Num(cur - (if d > cur then cur else d)));
    }
  }
}
