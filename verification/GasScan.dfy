/** The gas profiler: the time window of blocks it scans on a chain, the grouping of chain names that
    are the same chain, and the totals. */
module GasScan {
  import opened MapSum

  // ---------------------------------------------------------------- the window of blocks

  /** Block timestamps of a chain, oldest first. */
  ghost predicate Chain(ts: seq<int>) {
    |ts| > 0 && forall i, j | 0 <= i <= j < |ts| :: ts[i] <= ts[j]
  }

  method FirstBlockAtOrAfter(ts: seq<int>, target: int) returns (block: nat)
    requires Chain(ts)
    ensures block < |ts|
    ensures ts[|ts| - 1] < target ==> block == |ts| - 1
    ensures ts[|ts| - 1] >= target ==> forall k | 0 <= k < |ts| :: ts[k] >= target <==> k >= block
  {
    var latest := |ts| - 1;
    if ts[latest] < target { return latest; }
    var left, right, answer := 0, latest, latest;
    while left <= right
      invariant 0 <= left <= latest + 1 && -1 <= right <= latest && 0 <= answer <= latest
      invariant left <= right + 1
      invariant forall k | 0 <= k < left :: ts[k] < target
      invariant forall k | right < k <= latest :: ts[k] >= target
      invariant ts[answer] >= target && (answer == right + 1 || (answer == latest && right == latest))
      decreases right - left
    {
      var mid := (left + right) / 2;
      if ts[mid] >= target {
        answer := mid;
        right := mid - 1;
      } else {
        left := mid + 1;
      }
    }
    return answer;
  }

  method LastBlockAtOrBefore(ts: seq<int>, target: int) returns (block: nat)
    requires Chain(ts)
    ensures block < |ts|
    ensures target < ts[0] ==> block == 0
    ensures ts[0] <= target ==> forall k | 0 <= k < |ts| :: ts[k] <= target <==> k <= block
  {
    var latest := |ts| - 1;
    if ts[latest] <= target { return latest; }
    var left, right, answer := 0, latest, 0;
    while left <= right
      invariant 0 <= left <= latest + 1 && -1 <= right <= latest && 0 <= answer <= latest
      invariant left <= right + 1
      invariant forall k | 0 <= k < left :: ts[k] <= target
      invariant forall k | right < k <= latest :: ts[k] > target
      invariant answer == left - 1 || (answer == 0 && left == 0)
      decreases right - left
    {
      var mid := (left + right) / 2;
      if ts[mid] <= target {
        answer := mid;
        left := mid + 1;
      } else {
        right := mid - 1;
      }
    }
    return answer;
  }

  ghost predicate InWindow(ts: seq<int>, lo: int, hi: int, k: int)
    requires 0 <= k < |ts|
  {
    lo <= ts[k] <= hi
  }

  /** The blocks from..to are exactly those of the window. */
  ghost predicate Exact(ts: seq<int>, lo: int, hi: int, from: int, to: int) {
    forall k | 0 <= k < |ts| :: from <= k <= to <==> InWindow(ts, lo, hi, k)
  }

  /** The window does not lie wholly before or wholly after the chain. */
  predicate Reaches(ts: seq<int>, lo: int, hi: int)
    requires |ts| > 0
  {
    lo <= ts[|ts| - 1] && ts[0] <= hi
  }

  lemma BlockInWindowReaches(ts: seq<int>, lo: int, hi: int, k: nat)
    requires Chain(ts) && k < |ts| && InWindow(ts, lo, hi, k)
    ensures Reaches(ts, lo, hi)
  {
  }

  function WindowStart(startTime: int, margin: nat): int {
    if startTime - margin < 0 then 0 else startTime - margin
  }

  /** MAIN RESULT.  The scanned blocks are exactly the blocks of the time window if and only if the
      window reaches the chain, as it does whenever some block is in it.  Otherwise one block outside
      the window is scanned, the nearest. */
  method ScanRange(ts: seq<int>, startTime: int, finalTime: int, margin: nat) returns (from: nat, to: nat)
    requires Chain(ts) && 0 <= startTime <= finalTime
    ensures from < |ts| && to < |ts|
    ensures Exact(ts, WindowStart(startTime, margin), finalTime + margin, from, to)
            <==> Reaches(ts, WindowStart(startTime, margin), finalTime + margin)
    ensures var lo, hi := WindowStart(startTime, margin), finalTime + margin;
            (exists k :: 0 <= k < |ts| && InWindow(ts, lo, hi, k)) ==> Exact(ts, lo, hi, from, to)
    ensures ts[0] <= finalTime + margin && 0 <= ts[|ts| - 1] && startTime - margin <= ts[|ts| - 1] ==>
              forall k | 0 <= k < |ts| :: from <= k <= to <==> 0 <= ts[k] && startTime - margin <= ts[k] <= finalTime + margin
    ensures ts[|ts| - 1] < WindowStart(startTime, margin) ==> from == to == |ts| - 1
    ensures finalTime + margin < ts[0] ==> from == to == 0
  {
    var lo, hi := WindowStart(startTime, margin), finalTime + margin;
    from := FirstBlockAtOrAfter(ts, lo);
    to := LastBlockAtOrBefore(ts, hi);
    forall k | 0 <= k < |ts| && InWindow(ts, lo, hi, k) ensures Reaches(ts, lo, hi) {
      BlockInWindowReaches(ts, lo, hi, k);
    }
    if ts[|ts| - 1] < lo {
      assert !InWindow(ts, lo, hi, |ts| - 1);
      assert from <= |ts| - 1 <= to;
    } else if hi < ts[0] {
      assert !InWindow(ts, lo, hi, 0);
      assert from <= 0 <= to;
    } else {
      assert forall k | 0 <= k < |ts| :: (ts[k] >= lo <==> k >= from) && (ts[k] <= hi <==> k <= to);
    }
  }

  // ---------------------------------------------------------------- chains that are the same chain

  /** Each chain is in the group of its fingerprint, once, and nowhere else; no group is empty. */
  ghost predicate Grouped(groups: map<string, seq<string>>, chains: seq<string>, fingerprint: map<string, string>)
    requires forall i | 0 <= i < |chains| :: chains[i] in fingerprint
  {
    && (forall f | f in groups :: groups[f] != [])
    && (forall f, c :: (f in groups && c in groups[f]) <==> (c in chains && fingerprint[c] == f))
    && (forall f, i, j | f in groups && 0 <= i < j < |groups[f]| :: groups[f][i] != groups[f][j])
  }

  lemma OneMoreChain(groups: map<string, seq<string>>, chains: seq<string>, c: string, fingerprint: map<string, string>)
    requires (forall i | 0 <= i < |chains| :: chains[i] in fingerprint) && c in fingerprint && c !in chains
    requires Grouped(groups, chains, fingerprint)
    ensures var f := fingerprint[c];
            Grouped(groups[f := (if f in groups then groups[f] else []) + [c]], chains + [c], fingerprint)
  {
    var f := fingerprint[c];
    var before := if f in groups then groups[f] else [];
    var after := groups[f := before + [c]];
    forall g, x ensures (g in after && x in after[g]) <==> (x in chains + [c] && fingerprint[x] == g) {
      assert (g in groups && x in groups[g]) <==> (x in chains && fingerprint[x] == g);
      if g == f {
        assert x in after[g] <==> x in before || x == c;
      }
    }
  }

  /** The fingerprints in the order of their first chain, each once. */
  ghost predicate Orders(order: seq<string>, groups: map<string, seq<string>>) {
    && (forall f :: f in order <==> f in groups)
    && (forall i, j | 0 <= i < j < |order| :: order[i] != order[j])
  }

  /** MAIN RESULT.  Chain names are grouped by fingerprint: names of one chain share one group. */
  method GroupChains(chains: seq<string>, fingerprint: map<string, string>)
    returns (groups: map<string, seq<string>>, order: seq<string>)
    requires forall i | 0 <= i < |chains| :: chains[i] in fingerprint
    requires forall i, j | 0 <= i < j < |chains| :: chains[i] != chains[j]
    ensures Grouped(groups, chains, fingerprint) && Orders(order, groups)
  {
    groups, order := map[], [];
    for n := 0 to |chains|
      invariant Grouped(groups, chains[..n], fingerprint) && Orders(order, groups)
    {
      var c := chains[n];
      var f := fingerprint[c];
      OneMoreChain(groups, chains[..n], c, fingerprint);
      assert chains[..n + 1] == chains[..n] + [c];
      order := if f in groups then order else order + [f];
      groups := groups[f := (if f in groups then groups[f] else []) + [c]];
    }
    assert chains[..|chains|] == chains;
  }

  // ---------------------------------------------------------------- the scan of all chains

  /** What the scan of a group reads: the chain name it goes through and the blocks. */
  datatype Scan = Scan(name: string, from: nat, to: nat)

  /** The watched transactions in the blocks of a range, oldest first. */
  ghost function InRange(gasOf: (string, nat) -> seq<GasTx>, scan: Scan, upTo: nat): seq<GasTx>
    decreases upTo
  {
    if upTo <= scan.from then [] else InRange(gasOf, scan, upTo - 1) + gasOf(scan.name, upTo - 1)
  }

  ghost function Scanned(gasOf: (string, nat) -> seq<GasTx>, scan: Scan): seq<GasTx> {
    InRange(gasOf, scan, scan.to + 1)
  }

  ghost function AllScanned(gasOf: (string, nat) -> seq<GasTx>, scans: seq<Scan>): seq<GasTx> {
    if scans == [] then [] else AllScanned(gasOf, scans[..|scans| - 1]) + Scanned(gasOf, scans[|scans| - 1])
  }

  method ScanChain(gasOf: (string, nat) -> seq<GasTx>, scan: Scan) returns (txs: seq<GasTx>)
    ensures txs == Scanned(gasOf, scan)
  {
    txs := [];
    var block := scan.from;
    while block <= scan.to
      invariant scan.from <= block && (block <= scan.to + 1 || block == scan.from)
      invariant txs == InRange(gasOf, scan, block)
    {
      txs := txs + gasOf(scan.name, block);
      block := block + 1;
    }
  }

  /** The run whose gas is measured: its blocks on bc1 and the margin around its time elsewhere. */
  datatype Measured = Measured(startBlock: nat, finalBlock: nat, finalTime: int, margin: nat)

  ghost predicate WellPlaced(r: Measured, ts: map<string, seq<int>>) {
    && "bc1" in ts && r.startBlock < |ts["bc1"]| && 0 <= ts["bc1"][r.startBlock] <= r.finalTime
    && forall c | c in ts :: Chain(ts[c])
  }

  function ScanName(group: seq<string>): string
    requires group != []
  {
    if "bc1" in group then "bc1" else group[0]
  }

  ghost function Lo(r: Measured, ts: map<string, seq<int>>): int
    requires WellPlaced(r, ts)
  {
    WindowStart(ts["bc1"][r.startBlock], r.margin)
  }

  /** The blocks of a group that count: on bc1 those of the run; elsewhere those of the time window, or
      the nearest block if the window does not reach the chain. */
  ghost predicate Counts(r: Measured, ts: map<string, seq<int>>, group: seq<string>, k: nat)
    requires WellPlaced(r, ts) && group != [] && ScanName(group) in ts
  {
    var (t, lo, hi) := (ts[ScanName(group)], Lo(r, ts), r.finalTime + r.margin);
    if "bc1" in group then r.startBlock <= k <= r.finalBlock
    else k < |t| && (if t[|t| - 1] < lo then k == |t| - 1 else if hi < t[0] then k == 0 else InWindow(t, lo, hi, k))
  }

  /** The bounds spelled out: on a chain that the window reaches, the blocks that count are those from
      `margin` before the run's first block, but not before time zero, to `margin` after its end. */
  lemma CountsPlainly(r: Measured, ts: map<string, seq<int>>, group: seq<string>, k: nat)
    requires WellPlaced(r, ts) && group != [] && ScanName(group) in ts
    ensures "bc1" in group ==> ScanName(group) == "bc1" && (Counts(r, ts, group, k) <==> r.startBlock <= k <= r.finalBlock)
    ensures "bc1" !in group ==> ScanName(group) == group[0]
    ensures var (t, start) := (ts[ScanName(group)], ts["bc1"][r.startBlock]);
            "bc1" !in group && t[0] <= r.finalTime + r.margin && 0 <= t[|t| - 1] && start - r.margin <= t[|t| - 1] ==>
              (Counts(r, ts, group, k) <==> k < |t| && 0 <= t[k] && start - r.margin <= t[k] <= r.finalTime + r.margin)
  {
  }

  ghost predicate ScansRight(scan: Scan, r: Measured, ts: map<string, seq<int>>, group: seq<string>)
    requires WellPlaced(r, ts) && group != [] && ScanName(group) in ts
  {
    scan.name == ScanName(group) && forall k: nat :: scan.from <= k <= scan.to <==> Counts(r, ts, group, k)
  }

  method ScanGroup(r: Measured, ts: map<string, seq<int>>, group: seq<string>) returns (scan: Scan)
    requires WellPlaced(r, ts) && group != [] && ScanName(group) in ts
    ensures ScansRight(scan, r, ts, group)
  {
    var name := ScanName(group);
    if "bc1" in group {
      scan := Scan(name, r.startBlock, r.finalBlock);
    } else {
      var from, to := ScanRange(ts[name], ts["bc1"][r.startBlock], r.finalTime, r.margin);
      scan := Scan(name, from, to);
    }
  }

  ghost predicate AllScanRight(r: Measured, ts: map<string, seq<int>>, scanned: seq<seq<string>>, scans: seq<Scan>) {
    && WellPlaced(r, ts) && |scans| == |scanned|
    && forall i | 0 <= i < |scanned| :: scanned[i] != [] && ScanName(scanned[i]) in ts && ScansRight(scans[i], r, ts, scanned[i])
  }

  lemma OneMoreScan(r: Measured, ts: map<string, seq<int>>, gasOf: (string, nat) -> seq<GasTx>,
                    scanned: seq<seq<string>>, scans: seq<Scan>, group: seq<string>, scan: Scan)
    requires AllScanRight(r, ts, scanned, scans)
    requires group != [] && ScanName(group) in ts && ScansRight(scan, r, ts, group)
    ensures AllScanRight(r, ts, scanned + [group], scans + [scan])
    ensures AllScanned(gasOf, scans + [scan]) == AllScanned(gasOf, scans) + Scanned(gasOf, scan)
  {
    assert (scans + [scan])[..|scans|] == scans;
  }

  /** MAIN RESULT.  The scan of all chains goes through each group of equal fingerprints once, by bc1 if
      that is in it, reads exactly the blocks that count, and collects their transactions. */
  method ScanAll(r: Measured, chains: seq<string>, fingerprint: map<string, string>, ts: map<string, seq<int>>,
                 gasOf: (string, nat) -> seq<GasTx>)
    returns (all: seq<GasTx>, scans: seq<Scan>, groups: map<string, seq<string>>, order: seq<string>,
             ghost scanned: seq<seq<string>>)
    requires forall i | 0 <= i < |chains| :: chains[i] in fingerprint && chains[i] in ts
    requires forall i, j | 0 <= i < j < |chains| :: chains[i] != chains[j]
    requires WellPlaced(r, ts)
    ensures Grouped(groups, chains, fingerprint) && Orders(order, groups)
    ensures |scanned| == |order| && forall i | 0 <= i < |order| :: scanned[i] == groups[order[i]]
    ensures AllScanRight(r, ts, scanned, scans) && all == AllScanned(gasOf, scans)
  {
    groups, order := GroupChains(chains, fingerprint);
    all, scans, scanned := [], [], [];
    for n := 0 to |order|
      invariant all == AllScanned(gasOf, scans) && AllScanRight(r, ts, scanned, scans)
      invariant |scanned| == n && forall i | 0 <= i < n :: scanned[i] == groups[order[i]]
    {
      var group := groups[order[n]];
      assert order[n] in groups && ScanName(group) in groups[order[n]];
      assert ScanName(group) in chains;
      var scan := ScanGroup(r, ts, group);
      var txs := ScanChain(gasOf, scan);
      OneMoreScan(r, ts, gasOf, scanned, scans, group, scan);
      all, scans, scanned := all + txs, scans + [scan], scanned + [group];
    }
  }

  // ---------------------------------------------------------------- totals

  datatype GasTx = GasTx(gas: nat, category: string, paperCategory: string, chain: string)

  function SumOf(txs: seq<GasTx>, counts: GasTx -> bool): nat {
    if txs == [] then 0
    else SumOf(txs[..|txs| - 1], counts) + (if counts(txs[|txs| - 1]) then txs[|txs| - 1].gas else 0)
  }

  /** A breakdown gives each key exactly the gas of its transactions, and adds up to the whole. */
  ghost predicate Breaks(m: map<string, nat>, txs: seq<GasTx>, key: GasTx -> string) {
    && Total<nat>(m, Held) == SumOf(txs, t => true)
    && (forall k | k in m :: m[k] == SumOf(txs, t => key(t) == k))
    && (forall k | k !in m :: SumOf(txs, t => key(t) == k) == 0)
  }

  function Plus(m: map<string, nat>, k: string, n: nat): map<string, nat> {
    m[k := (if k in m then m[k] else 0) + n]
  }

  lemma PlusBreaks(m: map<string, nat>, txs: seq<GasTx>, key: GasTx -> string, t: GasTx)
    requires Breaks(m, txs, key)
    ensures Breaks(Plus(m, key(t), t.gas), txs + [t], key)
  {
    var all := txs + [t];
    assert all[..|all| - 1] == txs;
    var k := key(t);
    Written<nat>(m, Held, k, (if k in m then m[k] else 0) + t.gas);
  }

  /** Total and breakdowns of the same transactions. */
  ghost predicate Accounts(txs: seq<GasTx>, total: nat, byCategory: map<string, nat>, byPaper: map<string, nat>, byChain: map<string, nat>) {
    && total == SumOf(txs, t => true)
    && Breaks(byCategory, txs, (t: GasTx) => t.category)
    && Breaks(byPaper, txs, (t: GasTx) => t.paperCategory)
    && Breaks(byChain, txs, (t: GasTx) => t.chain)
  }

  lemma OneMoreTx(txs: seq<GasTx>, i: nat, total: nat, c: map<string, nat>, p: map<string, nat>, h: map<string, nat>)
    requires i < |txs| && Accounts(txs[..i], total, c, p, h)
    ensures var t := txs[i];
            Accounts(txs[..i + 1], total + t.gas, Plus(c, t.category, t.gas), Plus(p, t.paperCategory, t.gas), Plus(h, t.chain, t.gas))
  {
    var t := txs[i];
    PlusBreaks(c, txs[..i], (t: GasTx) => t.category, t);
    PlusBreaks(p, txs[..i], (t: GasTx) => t.paperCategory, t);
    PlusBreaks(h, txs[..i], (t: GasTx) => t.chain, t);
    assert txs[..i + 1] == txs[..i] + [t];
    assert (txs[..i] + [t])[..i] == txs[..i];
  }

  /** MAIN RESULT.  The total is the sum over categories, over paper categories and over chains, and
      every entry of a breakdown is the gas of exactly its transactions. */
  method Aggregate(txs: seq<GasTx>)
    returns (total: nat, categoryGas: map<string, nat>, paperGas: map<string, nat>, chainGas: map<string, nat>)
    ensures Accounts(txs, total, categoryGas, paperGas, chainGas)
    ensures "bridge_gas" in paperGas && "state_lock_unlock_gas" in paperGas && "integrated_execution_gas" in paperGas
    ensures "bc1" in chainGas && "bc2" in chainGas && "bc3" in chainGas
  {
    total, categoryGas := 0, map[];
    paperGas := map["bridge_gas" := 0, "state_lock_unlock_gas" := 0, "integrated_execution_gas" := 0];
    chainGas := map["bc1" := 0, "bc2" := 0, "bc3" := 0];
    ThreeZeroes("bridge_gas", "state_lock_unlock_gas", "integrated_execution_gas");
    ThreeZeroes("bc1", "bc2", "bc3");
    for i := 0 to |txs|
      invariant Accounts(txs[..i], total, categoryGas, paperGas, chainGas)
      invariant "bridge_gas" in paperGas && "state_lock_unlock_gas" in paperGas && "integrated_execution_gas" in paperGas
      invariant "bc1" in chainGas && "bc2" in chainGas && "bc3" in chainGas
    {
      OneMoreTx(txs, i, total, categoryGas, paperGas, chainGas);
      var t := txs[i];
      total := total + t.gas;
      categoryGas := Plus(categoryGas, t.category, t.gas);
      paperGas := Plus(paperGas, t.paperCategory, t.gas);
      chainGas := Plus(chainGas, t.chain, t.gas);
    }
    assert txs[..|txs|] == txs;
  }

  lemma ThreeZeroes(a: string, b: string, c: string)
    ensures Total<nat>(map[a := 0, b := 0, c := 0], Held) == 0
  {
    var m: map<string, nat> := map[];
    Written<nat>(m, Held, a, 0);
    Written<nat>(m[a := 0], Held, b, 0);
    Written<nat>(m[a := 0][b := 0], Held, c, 0);
    assert map[a := 0, b := 0, c := 0] == m[a := 0][b := 0][c := 0];
  }

  // ---------------------------------------------------------------- gas of the counted blocks

  /** The gas of kind `kind` in the first `n` blocks of a chain that are wanted. */
  ghost function BlocksGas(gasOf: (string, nat) -> seq<GasTx>, name: string, wanted: nat -> bool, kind: GasTx -> bool, n: nat): nat {
    if n == 0 then 0
    else BlocksGas(gasOf, name, wanted, kind, n - 1) + if wanted(n - 1) then SumOf(gasOf(name, n - 1), kind) else 0
  }

  lemma {:induction false} SumOfConcat(a: seq<GasTx>, b: seq<GasTx>, kind: GasTx -> bool)
    ensures SumOf(a + b, kind) == SumOf(a, kind) + SumOf(b, kind)
  {
    if b == [] {
      assert a + b == a;
    } else {
      var init := b[..|b| - 1];
      SumOfConcat(a, init, kind);
      assert (a + b)[..|a + b| - 1] == a + init;
    }
  }

  lemma {:induction false} RangeGas(gasOf: (string, nat) -> seq<GasTx>, scan: Scan, wanted: nat -> bool, kind: GasTx -> bool, n: nat)
    requires n <= scan.to + 1 && forall k: nat :: scan.from <= k <= scan.to <==> wanted(k)
    ensures SumOf(InRange(gasOf, scan, n), kind) == BlocksGas(gasOf, scan.name, wanted, kind, n)
  {
    if n > 0 {
      RangeGas(gasOf, scan, wanted, kind, n - 1);
      if n > scan.from {
        SumOfConcat(InRange(gasOf, scan, n - 1), gasOf(scan.name, n - 1), kind);
      } else {
        assert !wanted(n - 1);
      }
    }
  }

  /** Blocks after the last wanted one add nothing. */
  lemma {:induction false} NoMoreGas(gasOf: (string, nat) -> seq<GasTx>, name: string, wanted: nat -> bool, kind: GasTx -> bool, m: nat, n: nat)
    requires m <= n && forall k: nat | k >= m :: !wanted(k)
    ensures BlocksGas(gasOf, name, wanted, kind, n) == BlocksGas(gasOf, name, wanted, kind, m)
  {
    if m < n {
      NoMoreGas(gasOf, name, wanted, kind, m, n - 1);
    }
  }

  ghost function Wanted(r: Measured, ts: map<string, seq<int>>, group: seq<string>): nat -> bool
    requires WellPlaced(r, ts) && group != [] && ScanName(group) in ts
  {
    (k: nat) => Counts(r, ts, group, k)
  }

  /** The gas of kind `kind` in the blocks of a group that count, block by block. */
  ghost function GroupGas(r: Measured, ts: map<string, seq<int>>, gasOf: (string, nat) -> seq<GasTx>,
                          group: seq<string>, kind: GasTx -> bool): nat
    requires WellPlaced(r, ts) && group != [] && ScanName(group) in ts
  {
    BlocksGas(gasOf, ScanName(group), Wanted(r, ts, group), kind,
              if "bc1" in group then r.finalBlock + 1 else |ts[ScanName(group)]|)
  }

  lemma ScanGas(r: Measured, ts: map<string, seq<int>>, gasOf: (string, nat) -> seq<GasTx>, group: seq<string>, kind: GasTx -> bool, scan: Scan)
    requires WellPlaced(r, ts) && group != [] && ScanName(group) in ts && ScansRight(scan, r, ts, group)
    ensures SumOf(Scanned(gasOf, scan), kind) == GroupGas(r, ts, gasOf, group, kind)
  {
    var wanted := Wanted(r, ts, group);
    var n := if "bc1" in group then r.finalBlock + 1 else |ts[ScanName(group)]|;
    RangeGas(gasOf, scan, wanted, kind, scan.to + 1);
    assert scan.from <= scan.to ==> wanted(scan.to);
    if n <= scan.to + 1 {
      NoMoreGas(gasOf, scan.name, wanted, kind, n, scan.to + 1);
    } else {
      NoMoreGas(gasOf, scan.name, wanted, kind, scan.to + 1, n);
    }
  }

  ghost function GroupsGas(r: Measured, ts: map<string, seq<int>>, gasOf: (string, nat) -> seq<GasTx>,
                           scanned: seq<seq<string>>, kind: GasTx -> bool): nat
    requires WellPlaced(r, ts) && forall i | 0 <= i < |scanned| :: scanned[i] != [] && ScanName(scanned[i]) in ts
  {
    if scanned == [] then 0
    else GroupsGas(r, ts, gasOf, scanned[..|scanned| - 1], kind) + GroupGas(r, ts, gasOf, scanned[|scanned| - 1], kind)
  }

  /** MAIN RESULT.  Of any kind of transactions, the scan collects exactly the gas of the blocks that
      count, each block of each group once. */
  lemma {:induction false} EachBlockCountsOnce(r: Measured, ts: map<string, seq<int>>, gasOf: (string, nat) -> seq<GasTx>,
                                               scanned: seq<seq<string>>, scans: seq<Scan>, kind: GasTx -> bool)
    requires AllScanRight(r, ts, scanned, scans)
    ensures SumOf(AllScanned(gasOf, scans), kind) == GroupsGas(r, ts, gasOf, scanned, kind)
  {
    if scanned != [] {
      var n := |scanned| - 1;
      EachBlockCountsOnce(r, ts, gasOf, scanned[..n], scans[..n], kind);
      ScanGas(r, ts, gasOf, scanned[n], kind, scans[n]);
      SumOfConcat(AllScanned(gasOf, scans[..n]), Scanned(gasOf, scans[n]), kind);
    }
  }
}
