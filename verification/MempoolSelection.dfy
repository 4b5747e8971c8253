/** Block selection: the greedy walk down the priority queue under a count and a gas cap. */
module MempoolSelection {
  import opened Bytes
  import opened Transactions
  import opened Sorting
  import opened Blocks
  import opened MempoolQueue
  import opened MempoolSpec
  import opened MempoolInvariants
  import opened MempoolRuns
  import opened MempoolBounds

  predicate AllPooled(hs: seq<Hash>, txs: map<Hash, Entry>) {
    forall i :: 0 <= i < |hs| ==> hs[i] in txs
  }

  function TxsOf(hs: seq<Hash>, txs: map<Hash, Entry>): (r: seq<TransactionData>)
    requires AllPooled(hs, txs)
    ensures |r| == |hs|
  {
    if hs == [] then [] else TxsOf(hs[..|hs| - 1], txs) + [txs[hs[|hs| - 1]].tx]
  }

  function GasOf(hs: seq<Hash>, txs: map<Hash, Entry>): nat
    requires AllPooled(hs, txs)
  {
    if hs == [] then 0 else GasOf(hs[..|hs| - 1], txs) + txs[hs[|hs| - 1]].tx.gasLimit
  }

  lemma {:induction false} GasOfIsTotalGas(hs: seq<Hash>, txs: map<Hash, Entry>)
    requires AllPooled(hs, txs)
    ensures TotalGas(TxsOf(hs, txs)) == GasOf(hs, txs)
  {
    if hs != [] {
      GasOfIsTotalGas(hs[..|hs| - 1], txs);
      assert TxsOf(hs, txs)[..|hs| - 1] == TxsOf(hs[..|hs| - 1], txs);
    }
  }

  lemma GasOfAppend(hs: seq<Hash>, h: Hash, txs: map<Hash, Entry>)
    requires AllPooled(hs, txs) && h in txs
    ensures AllPooled(hs + [h], txs)
    ensures TxsOf(hs + [h], txs) == TxsOf(hs, txs) + [txs[h].tx]
    ensures GasOf(hs + [h], txs) == GasOf(hs, txs) + txs[h].tx.gasLimit
  {
    assert (hs + [h])[..|hs|] == hs;
  }

  // ----- The selection -----

  /** The running total is an unsigned 64-bit sum. */
  predicate Takes(chosen: seq<Hash>, h: Hash, txs: map<Hash, Entry>, maxCount: nat, cap: U64)
    requires AllPooled(chosen, txs)
  {
    |chosen| < maxCount && h in txs && Wrap64(GasOf(chosen, txs) + txs[h].tx.gasLimit) <= cap
  }

  /** The hashes `get_transactions_for_block` takes while popping the entries of `q`. */
  function Chosen(q: seq<QueueEntry>, txs: map<Hash, Entry>, maxCount: nat, cap: U64): (hs: seq<Hash>)
    ensures AllPooled(hs, txs) && |hs| <= maxCount
  {
    if q == [] then []
    else
      var before := Chosen(q[..|q| - 1], txs, maxCount, cap);
      var h := q[|q| - 1].hash;
      if Takes(before, h, txs, maxCount, cap) then before + [h] else before
  }

  lemma {:induction false} ChosenGrows(q: seq<QueueEntry>, i: nat, txs: map<Hash, Entry>, maxCount: nat, cap: U64)
    requires i <= |q|
    ensures Chosen(q[..i], txs, maxCount, cap) <= Chosen(q, txs, maxCount, cap)
  {
    if i == |q| {
      assert q[..i] == q;
    } else {
      ChosenGrows(q[..|q| - 1], i, txs, maxCount, cap);
      assert q[..|q| - 1][..i] == q[..i];
    }
  }

  /** Once the count is reached the rest of the queue adds nothing, so the loop may stop there. */
  lemma ChosenFull(q: seq<QueueEntry>, i: nat, txs: map<Hash, Entry>, maxCount: nat, cap: U64)
    requires i <= |q| && |Chosen(q[..i], txs, maxCount, cap)| == maxCount
    ensures Chosen(q, txs, maxCount, cap) == Chosen(q[..i], txs, maxCount, cap)
  {
    ChosenGrows(q, i, txs, maxCount, cap);
  }

  /** What the loop has accumulated after popping the first `i` entries. */
  ghost predicate SelectedSoFar(q: seq<QueueEntry>, i: nat, txs: map<Hash, Entry>, maxCount: nat, cap: U64,
                                result: seq<TransactionData>, total: U64)
    requires i <= |q|
  {
    var chosen := Chosen(q[..i], txs, maxCount, cap);
    |result| == |chosen| && result == TxsOf(chosen, txs) && total == Wrap64(GasOf(chosen, txs))
  }

  /** One iteration of the loop, with its wrapping running total. */
  lemma SelectStep(q: seq<QueueEntry>, i: nat, txs: map<Hash, Entry>, maxCount: nat, cap: U64,
                   result: seq<TransactionData>, total: U64, tx: TransactionData)
    requires i < |q| && q[i].hash in txs && tx == txs[q[i].hash].tx && |result| < maxCount
    requires SelectedSoFar(q, i, txs, maxCount, cap, result, total)
    ensures if Wrap64(total + tx.gasLimit) <= cap
            then SelectedSoFar(q, i + 1, txs, maxCount, cap, result + [tx], Wrap64(total + tx.gasLimit))
            else SelectedSoFar(q, i + 1, txs, maxCount, cap, result, total)
  {
    assert q[..i + 1][..i] == q[..i];
    var before := Chosen(q[..i], txs, maxCount, cap);
    ModAdd(GasOf(before, txs), tx.gasLimit);
    GasOfAppend(before, q[i].hash, txs);
  }

  lemma SkipStale(q: seq<QueueEntry>, i: nat, txs: map<Hash, Entry>, maxCount: nat, cap: U64,
                  result: seq<TransactionData>, total: U64)
    requires i < |q| && q[i].hash !in txs && SelectedSoFar(q, i, txs, maxCount, cap, result, total)
    ensures SelectedSoFar(q, i + 1, txs, maxCount, cap, result, total)
  {
    assert q[..i + 1][..i] == q[..i];
  }

  lemma SelectDone(q: seq<QueueEntry>, i: nat, txs: map<Hash, Entry>, maxCount: nat, cap: U64,
                   result: seq<TransactionData>, total: U64)
    requires i <= |q| && SelectedSoFar(q, i, txs, maxCount, cap, result, total)
    requires i == |q| || |result| >= maxCount
    ensures result == TxsOf(Chosen(q, txs, maxCount, cap), txs)
  {
    if i == |q| {
      assert q[..i] == q;
    } else {
      ChosenFull(q, i, txs, maxCount, cap);
    }
  }

  /** The loop of `get_transactions_for_block` over a copy of the queue. */
  method SelectLoop(queue: seq<QueueEntry>, txs: map<Hash, Entry>, maxCount: nat, cap: U64)
      returns (result: seq<TransactionData>)
    ensures result == TxsOf(Chosen(queue, txs, maxCount, cap), txs)
  {
    result := [];
    var total: U64 := 0;
    var temp := queue;
    ghost var i := 0;
    while temp != [] && |result| < maxCount
      invariant i <= |queue| && temp == queue[i..]
      invariant SelectedSoFar(queue, i, txs, maxCount, cap, result, total)
      decreases |temp|
    {
      var h := temp[0].hash;
      if h in txs {
        var tx := txs[h].tx;
        SelectStep(queue, i, txs, maxCount, cap, result, total, tx);
        if Wrap64(total + tx.gasLimit) <= cap {
          result := result + [tx];
          total := Wrap64(total + tx.gasLimit);
        }
      } else {
        SkipStale(queue, i, txs, maxCount, cap, result, total);
      }
      temp, i := temp[1..], i + 1;
    }
    SelectDone(queue, i, txs, maxCount, cap, result, total);
  }

  // ----- Properties of the selection from an exact queue -----

  /** The queue positions of the choices. */
  function Positions(q: seq<QueueEntry>, txs: map<Hash, Entry>, maxCount: nat, cap: U64): (at: seq<nat>)
    ensures |at| == |Chosen(q, txs, maxCount, cap)|
  {
    if q == [] then []
    else
      var before := Positions(q[..|q| - 1], txs, maxCount, cap);
      if Takes(Chosen(q[..|q| - 1], txs, maxCount, cap), q[|q| - 1].hash, txs, maxCount, cap)
      then before + [|q| - 1] else before
  }

  predicate Increasing(at: seq<nat>, bound: nat) {
    && (forall i :: 0 <= i < |at| ==> at[i] < bound)
    && (forall i, j :: 0 <= i < j < |at| ==> at[i] < at[j])
  }

  lemma {:induction false} PositionsIncrease(q: seq<QueueEntry>, txs: map<Hash, Entry>, maxCount: nat, cap: U64)
    ensures Increasing(Positions(q, txs, maxCount, cap), |q|)
  {
    hide Takes;
    if q != [] {
      PositionsIncrease(q[..|q| - 1], txs, maxCount, cap);
    }
  }

  lemma {:induction false} PositionsPoint(q: seq<QueueEntry>, txs: map<Hash, Entry>, maxCount: nat, cap: U64, i: nat)
    requires i < |Chosen(q, txs, maxCount, cap)|
    ensures Positions(q, txs, maxCount, cap)[i] < |q|
    ensures q[Positions(q, txs, maxCount, cap)[i]].hash == Chosen(q, txs, maxCount, cap)[i]
  {
    hide Takes;
    var init := q[..|q| - 1];
    if i < |Chosen(init, txs, maxCount, cap)| {
      PositionsPoint(init, txs, maxCount, cap, i);
    }
  }

  /** The choices made among the first `n` entries are the ones positioned there. */
  lemma {:induction false} PositionsSplit(q: seq<QueueEntry>, n: nat, txs: map<Hash, Entry>, maxCount: nat, cap: U64, i: nat)
    requires n <= |q| && i < |Chosen(q, txs, maxCount, cap)|
    ensures i < |Chosen(q[..n], txs, maxCount, cap)| <==> Positions(q, txs, maxCount, cap)[i] < n
  {
    hide Takes;
    if n == |q| {
      assert q[..n] == q;
      PositionsIncrease(q, txs, maxCount, cap);
    } else {
      var init := q[..|q| - 1];
      assert init[..n] == q[..n];
      ChosenGrows(init, n, txs, maxCount, cap);
      if i < |Chosen(init, txs, maxCount, cap)| {
        PositionsSplit(init, n, txs, maxCount, cap, i);
      }
    }
  }

  /** From an exact queue no transaction is chosen twice, and each choice outranks the next. */
  lemma ChosenInRankOrder(p: Pool, maxCount: nat, cap: U64, i: nat, j: nat)
    requires QueueExact(p) && i < j < |Chosen(p.queue, p.transactions, maxCount, cap)|
    ensures var c := Chosen(p.queue, p.transactions, maxCount, cap);
            c[i] != c[j] && Above(QueueEntryOf(p.transactions, c[i]), QueueEntryOf(p.transactions, c[j]))
  {
    RankedIsRanking(Scores(p.transactions));
    RankingHashesDistinct(p.queue, Scores(p.transactions));
    var at := Positions(p.queue, p.transactions, maxCount, cap);
    PositionsIncrease(p.queue, p.transactions, maxCount, cap);
    PositionsPoint(p.queue, p.transactions, maxCount, cap, i);
    PositionsPoint(p.queue, p.transactions, maxCount, cap, j);
    assert p.queue[at[i]] in p.queue && p.queue[at[j]] in p.queue;
  }

  /** No pooled gas limit can carry a total within the cap past 2^64. */
  ghost predicate NoWrap(txs: map<Hash, Entry>, cap: U64) {
    forall h :: h in txs ==> txs[h].tx.gasLimit + cap < TWO64
  }

  lemma {:induction false} ChosenWithinCap(q: seq<QueueEntry>, txs: map<Hash, Entry>, maxCount: nat, cap: U64)
    requires NoWrap(txs, cap)
    ensures GasOf(Chosen(q, txs, maxCount, cap), txs) <= cap
  {
    if q != [] {
      var before, h := Chosen(q[..|q| - 1], txs, maxCount, cap), q[|q| - 1].hash;
      ChosenWithinCap(q[..|q| - 1], txs, maxCount, cap);
      if h in txs {
        GasOfAppend(before, h, txs);
      }
    }
  }

  lemma {:induction false} GasOfPrefix(hs: seq<Hash>, k: nat, txs: map<Hash, Entry>)
    requires AllPooled(hs, txs) && k <= |hs|
    ensures GasOf(hs[..k], txs) <= GasOf(hs, txs)
  {
    if k == |hs| {
      assert hs[..k] == hs;
    } else {
      GasOfPrefix(hs[..|hs| - 1], k, txs);
      assert hs[..|hs| - 1][..k] == hs[..k];
      assert hs == hs[..|hs| - 1] + [hs[|hs| - 1]];
      GasOfAppend(hs[..|hs| - 1], hs[|hs| - 1], txs);
    }
  }

  lemma TakenIsChosen(q: seq<QueueEntry>, n: nat, txs: map<Hash, Entry>, maxCount: nat, cap: U64)
    requires n < |q| && Takes(Chosen(q[..n], txs, maxCount, cap), q[n].hash, txs, maxCount, cap)
    ensures q[n].hash in Chosen(q, txs, maxCount, cap)
  {
    var before := Chosen(q[..n], txs, maxCount, cap);
    assert q[..n + 1][..n] == q[..n];
    ChosenGrows(q, n + 1, txs, maxCount, cap);
    assert Chosen(q, txs, maxCount, cap)[|before|] == q[n].hash;
  }

  lemma NotTakenAt(q: seq<QueueEntry>, n: nat, txs: map<Hash, Entry>, maxCount: nat, cap: U64)
    requires n < |q| && NoWrap(txs, cap) && q[n].hash in txs
    requires q[n].hash !in Chosen(q, txs, maxCount, cap) && |Chosen(q, txs, maxCount, cap)| < maxCount
    ensures GasOf(Chosen(q[..n], txs, maxCount, cap), txs) + txs[q[n].hash].tx.gasLimit > cap
  {
    ChosenGrows(q, n, txs, maxCount, cap);
    ChosenWithinCap(q[..n], txs, maxCount, cap);
    if Takes(Chosen(q[..n], txs, maxCount, cap), q[n].hash, txs, maxCount, cap) {
      TakenIsChosen(q, n, txs, maxCount, cap);
    }
  }

  /** The choices made before position `n` of an exact queue are exactly those outranking its entry. */
  lemma RankOfChoice(p: Pool, maxCount: nat, cap: U64, n: nat, i: nat)
    requires QueueExact(p) && n < |p.queue| && i < |Chosen(p.queue, p.transactions, maxCount, cap)|
    requires Chosen(p.queue, p.transactions, maxCount, cap)[i] != p.queue[n].hash
    ensures i < |Chosen(p.queue[..n], p.transactions, maxCount, cap)| <==>
            Above(QueueEntryOf(p.transactions, Chosen(p.queue, p.transactions, maxCount, cap)[i]), p.queue[n])
  {
    hide Chosen, Positions, Above, Score;
    var q := p.queue;
    RankedIsRanking(Scores(p.transactions));
    PositionsSplit(q, n, p.transactions, maxCount, cap, i);
    PositionsPoint(q, p.transactions, maxCount, cap, i);
    var m := Positions(q, p.transactions, maxCount, cap)[i];
    assert q[m] in q;
    AboveTotal(q[m], q[n]);
  }

  /**
   Greedy and maximal: if the count cap was not reached, a pooled transaction was passed over only
   because the `k` choices that outrank it already left too little gas for it; so it does not fit
   on top of the whole selection either.
   */
  lemma PassedOverForGas(p: Pool, maxCount: nat, cap: U64, h: Hash) returns (k: nat)
    requires QueueExact(p) && NoWrap(p.transactions, cap)
    requires h in p.transactions && h !in Chosen(p.queue, p.transactions, maxCount, cap)
    requires |Chosen(p.queue, p.transactions, maxCount, cap)| < maxCount
    ensures k <= |Chosen(p.queue, p.transactions, maxCount, cap)|
    ensures forall i :: 0 <= i < |Chosen(p.queue, p.transactions, maxCount, cap)| ==>
              (i < k <==> Above(QueueEntryOf(p.transactions, Chosen(p.queue, p.transactions, maxCount, cap)[i]),
                                QueueEntryOf(p.transactions, h)))
    ensures GasOf(Chosen(p.queue, p.transactions, maxCount, cap)[..k], p.transactions)
            + p.transactions[h].tx.gasLimit > cap
    ensures GasOf(Chosen(p.queue, p.transactions, maxCount, cap), p.transactions)
            + p.transactions[h].tx.gasLimit > cap
  {
    hide Chosen, Above, Score, GasOf, NoWrap;
    var q, txs := p.queue, p.transactions;
    RankedIsRanking(Scores(txs));
    assert QueueEntryOf(txs, h) in q;
    var n :| 0 <= n < |q| && q[n] == QueueEntryOf(txs, h);
    var c := Chosen(q, txs, maxCount, cap);
    k := |Chosen(q[..n], txs, maxCount, cap)|;
    forall i | 0 <= i < |c|
      ensures i < k <==> Above(QueueEntryOf(txs, c[i]), QueueEntryOf(txs, h))
    {
      RankOfChoice(p, maxCount, cap, n, i);
    }
    ChosenGrows(q, n, txs, maxCount, cap);
    assert c[..k] == Chosen(q[..n], txs, maxCount, cap);
    NotTakenAt(q, n, txs, maxCount, cap);
    GasOfPrefix(c, k, txs);
  }

  lemma CoveredIsMaximal(p: Pool, maxCount: nat, cap: U64, h: Hash)
    requires QueueCovers(p) && NoWrap(p.transactions, cap)
    requires h in p.transactions && h !in Chosen(p.queue, p.transactions, maxCount, cap)
    requires |Chosen(p.queue, p.transactions, maxCount, cap)| < maxCount
    ensures GasOf(Chosen(p.queue, p.transactions, maxCount, cap), p.transactions)
            + p.transactions[h].tx.gasLimit > cap
  {
    hide Chosen, Score, GasOf, NoWrap, Sorted;
    var q, txs := p.queue, p.transactions;
    assert QueueEntryOf(txs, h) in q;
    var n :| 0 <= n < |q| && q[n] == QueueEntryOf(txs, h);
    var c, before := Chosen(q, txs, maxCount, cap), Chosen(q[..n], txs, maxCount, cap);
    ChosenGrows(q, n, txs, maxCount, cap);
    assert c[..|before|] == before;
    NotTakenAt(q, n, txs, maxCount, cap);
    GasOfPrefix(c, |before|, txs);
  }

  /**
   In every run, stale entries or not: when the count cap was not reached, no pooled transaction that
   was left out fits on top of the selection.
   */
  lemma MaximalOverRuns(config: Config, ops: seq<Op>, hashOf: HashFn, maxCount: nat, cap: U64, h: Hash)
    requires var p := MempoolSpec.Run(EmptyPool(config), ops, hashOf);
             && NoWrap(p.transactions, cap)
             && h in p.transactions && h !in Chosen(p.queue, p.transactions, maxCount, cap)
             && |Chosen(p.queue, p.transactions, maxCount, cap)| < maxCount
    ensures var p := MempoolSpec.Run(EmptyPool(config), ops, hashOf);
            GasOf(Chosen(p.queue, p.transactions, maxCount, cap), p.transactions) + p.transactions[h].tx.gasLimit > cap
  {
    hide MempoolSpec.Run, Chosen, NoWrap, QueueCovers, GasOf;
    QueueCoversOverRuns(config, ops, hashOf);
    CoveredIsMaximal(MempoolSpec.Run(EmptyPool(config), ops, hashOf), maxCount, cap, h);
  }

  // ----- What stale entries and wrapping totals do -----

  /** The hashes of the queue entries whose transaction is still pooled. */
  function Live(q: seq<QueueEntry>, txs: map<Hash, Entry>): (hs: seq<Hash>)
    ensures AllPooled(hs, txs) && |hs| <= |q|
  {
    if q == [] then []
    else
      var h := q[|q| - 1].hash;
      if h in txs then Live(q[..|q| - 1], txs) + [h] else Live(q[..|q| - 1], txs)
  }

  /** With the largest cap and no count cap, everything live is taken: every wrapped total passes. */
  lemma {:induction false} EverythingIsTaken(q: seq<QueueEntry>, txs: map<Hash, Entry>, maxCount: nat)
    requires maxCount >= |q|
    ensures Chosen(q, txs, maxCount, MAX_U64) == Live(q, txs)
  {
    if q != [] {
      EverythingIsTaken(q[..|q| - 1], txs, maxCount);
    }
  }

  ghost predicate NeverDuplicates(q: seq<QueueEntry>, txs: map<Hash, Entry>) {
    forall maxCount: nat, cap: U64 :: NoRepeats(Chosen(q, txs, maxCount, cap))
  }

  lemma {:induction false} ChosenWithinLive(q: seq<QueueEntry>, txs: map<Hash, Entry>, maxCount: nat, cap: U64, h: Hash)
    requires h in Chosen(q, txs, maxCount, cap)
    ensures h in Live(q, txs)
  {
    var before := Chosen(q[..|q| - 1], txs, maxCount, cap);
    if h in before {
      ChosenWithinLive(q[..|q| - 1], txs, maxCount, cap, h);
    }
  }

  lemma DistinctAppend(hs: seq<Hash>, h: Hash)
    ensures NoRepeats(hs + [h]) <==> NoRepeats(hs) && h !in hs
  {
    var r := hs + [h];
    if NoRepeats(r) {
      assert forall i :: 0 <= i < |hs| ==> hs[i] == r[i];
      assert r[|hs|] == h;
    }
  }

  lemma {:induction false} ChosenDistinct(q: seq<QueueEntry>, txs: map<Hash, Entry>, maxCount: nat, cap: U64)
    requires NoRepeats(Live(q, txs))
    ensures NoRepeats(Chosen(q, txs, maxCount, cap))
  {
    if q != [] {
      var init, h := q[..|q| - 1], q[|q| - 1].hash;
      DistinctAppend(Live(init, txs), h);
      ChosenDistinct(init, txs, maxCount, cap);
      DistinctAppend(Chosen(init, txs, maxCount, cap), h);
      if h in txs && h in Chosen(init, txs, maxCount, cap) {
        ChosenWithinLive(init, txs, maxCount, cap, h);
      }
    }
  }

  /** No selection repeats a transaction if and only if no pooled hash has two queue entries. */
  lemma NeverDuplicatesIff(q: seq<QueueEntry>, txs: map<Hash, Entry>)
    ensures NeverDuplicates(q, txs) <==> NoRepeats(Live(q, txs))
  {
    if NeverDuplicates(q, txs) {
      EverythingIsTaken(q, txs, |q|);
      assert NoRepeats(Chosen(q, txs, |q|, MAX_U64));
    }
    if NoRepeats(Live(q, txs)) {
      forall maxCount: nat, cap: U64
        ensures NoRepeats(Chosen(q, txs, maxCount, cap))
      {
        ChosenDistinct(q, txs, maxCount, cap);
      }
    }
  }

  ghost predicate AlwaysWithinCap(q: seq<QueueEntry>, txs: map<Hash, Entry>) {
    forall maxCount: nat, cap: U64 :: GasOf(Chosen(q, txs, maxCount, cap), txs) <= cap
  }

  lemma {:induction false} SmallPoolWithinCap(q: seq<QueueEntry>, txs: map<Hash, Entry>, maxCount: nat, cap: U64)
    requires GasOf(Live(q, txs), txs) < TWO64
    ensures GasOf(Chosen(q, txs, maxCount, cap), txs) <= cap
    ensures GasOf(Chosen(q, txs, maxCount, cap), txs) <= GasOf(Live(q, txs), txs)
  {
    if q != [] {
      var init, h := q[..|q| - 1], q[|q| - 1].hash;
      if h in txs {
        GasOfAppend(Live(init, txs), h, txs);
        GasOfAppend(Chosen(init, txs, maxCount, cap), h, txs);
      }
      SmallPoolWithinCap(init, txs, maxCount, cap);
    }
  }

  /**
   Running totals wrap at 2^64, so a selection can exceed the cap. Every selection of a pool
   respects its cap if and only if the gas limits of all live entries sum to less than 2^64.
   */
  lemma AlwaysWithinCapIff(q: seq<QueueEntry>, txs: map<Hash, Entry>)
    ensures AlwaysWithinCap(q, txs) <==> GasOf(Live(q, txs), txs) < TWO64
  {
    if AlwaysWithinCap(q, txs) {
      EverythingIsTaken(q, txs, |q|);
      assert GasOf(Chosen(q, txs, |q|, MAX_U64), txs) <= MAX_U64;
    }
    if GasOf(Live(q, txs), txs) < TWO64 {
      forall maxCount: nat, cap: U64
        ensures GasOf(Chosen(q, txs, maxCount, cap), txs) <= cap
      {
        SmallPoolWithinCap(q, txs, maxCount, cap);
      }
    }
  }

  // ----- Filled blocks validate -----

  lemma {:induction false} ChosenGasFits(q: seq<QueueEntry>, txs: map<Hash, Entry>, maxCount: nat, cap: U64, limit: U64)
    requires cap <= limit
    ensures GasFits(TxsOf(Chosen(q, txs, maxCount, cap), txs), limit)
  {
    if q != [] {
      var before, h := Chosen(q[..|q| - 1], txs, maxCount, cap), q[|q| - 1].hash;
      ChosenGasFits(q[..|q| - 1], txs, maxCount, cap, limit);
      if Takes(before, h, txs, maxCount, cap) {
        GasOfAppend(before, h, txs);
        GasOfIsTotalGas(before + [h], txs);
        var filled := TxsOf(before, txs);
        assert (filled + [txs[h].tx])[..|filled|] == filled;
      }
    }
  }

  /** The transactions are listed in the order of their hashes. */
  lemma {:induction false} TxsOfAt(hs: seq<Hash>, txs: map<Hash, Entry>, i: nat)
    requires AllPooled(hs, txs) && i < |hs|
    ensures TxsOf(hs, txs)[i] == txs[hs[i]].tx
  {
    if i < |hs| - 1 {
      TxsOfAt(hs[..|hs| - 1], txs, i);
    }
  }

  /**
   A block filled with a selection passes `validate_transactions` whenever its gas limit is at least
   the cap: both sides keep the same wrapping totals, so this needs no bound on the gas limits and
   no assumption on the queue.
   */
  lemma FilledBlockValidates(p: Pool, maxCount: nat, cap: U64, limit: U64)
    requires PooledValid(p, MAX_U64) && cap <= limit
    ensures AllValid(TxsOf(Chosen(p.queue, p.transactions, maxCount, cap), p.transactions))
    ensures GasFits(TxsOf(Chosen(p.queue, p.transactions, maxCount, cap), p.transactions), limit)
  {
    ChosenGasFits(p.queue, p.transactions, maxCount, cap, limit);
    var c := Chosen(p.queue, p.transactions, maxCount, cap);
    forall i | 0 <= i < |c|
      ensures IsValid(TxsOf(c, p.transactions)[i])
    {
      TxsOfAt(c, p.transactions, i);
    }
  }

  /** So in every run whatsoever, a block filled from the pool passes, if its gas limit is at least the cap. */
  lemma FilledBlocksValidateOverRuns(config: Config, ops: seq<Op>, hashOf: HashFn, maxCount: nat, cap: U64, limit: U64)
    requires cap <= limit
    ensures var p := MempoolSpec.Run(EmptyPool(config), ops, hashOf);
            var txs := TxsOf(Chosen(p.queue, p.transactions, maxCount, cap), p.transactions);
            AllValid(txs) && GasFits(txs, limit)
  {
    hide PooledValid, AllValid, GasFits;
    EmptyPooledValid(config);
    PooledValidOverRuns(EmptyPool(config), ops, hashOf, MAX_U64);
    FilledBlockValidates(MempoolSpec.Run(EmptyPool(config), ops, hashOf), maxCount, cap, limit);
  }

  lemma EmptyPooledValid(config: Config)
    ensures PooledValid(EmptyPool(config), MAX_U64)
  {
  }

  // ----- The top of the queue -----

  /** The hashes `get_top_transactions` returns. */
  function Top(q: seq<QueueEntry>, txs: map<Hash, Entry>, count: nat): (hs: seq<Hash>)
    ensures AllPooled(hs, txs)
  {
    var live := Live(q, txs);
    if count < |live| then live[..count] else live
  }

  lemma {:induction false} LiveGrows(q: seq<QueueEntry>, i: nat, txs: map<Hash, Entry>)
    requires i <= |q|
    ensures Live(q[..i], txs) <= Live(q, txs)
  {
    if i == |q| {
      assert q[..i] == q;
    } else {
      LiveGrows(q[..|q| - 1], i, txs);
      assert q[..|q| - 1][..i] == q[..i];
    }
  }

  /** The loop of `get_top_transactions` returns the first live entries of the queue. */
  method TopLoop(queue: seq<QueueEntry>, txs: map<Hash, Entry>, count: nat) returns (result: seq<TransactionData>)
    ensures result == TxsOf(Top(queue, txs, count), txs)
    ensures var pooled := |PooledPlaces(queue, txs, |queue|)|; |result| == if count < pooled then count else pooled
  {
    hide PooledPlaces, Top, GasOf;
    TopCount(queue, txs, count);
    result := [];
    var temp := queue;
    ghost var i := 0;
    while temp != [] && |result| < count
      invariant i <= |queue| && temp == queue[i..] && |result| <= count
      invariant result == TxsOf(Live(queue[..i], txs), txs)
      decreases |temp|
    {
      var h := temp[0].hash;
      assert queue[..i + 1][..i] == queue[..i];
      if h in txs {
        GasOfAppend(Live(queue[..i], txs), h, txs);
        result := result + [txs[h].tx];
      }
      temp, i := temp[1..], i + 1;
    }
    TopReached(queue, txs, count, i);
  }

  lemma TopReached(q: seq<QueueEntry>, txs: map<Hash, Entry>, count: nat, i: nat)
    requires i <= |q| && |Live(q[..i], txs)| <= count
    requires i == |q| || |Live(q[..i], txs)| == count
    ensures Top(q, txs, count) == Live(q[..i], txs)
  {
    LiveGrows(q, i, txs);
    if i == |q| {
      assert q[..i] == q;
    }
  }

  /** The places before `k` whose transaction is still pooled. */
  function PooledPlaces(q: seq<QueueEntry>, txs: map<Hash, Entry>, k: nat): set<int>
    requires k <= |q|
  {
    set i | 0 <= i < k && q[i].hash in txs
  }

  lemma OnePlaceMore(q: seq<QueueEntry>, txs: map<Hash, Entry>, k: nat)
    requires k < |q|
    ensures |PooledPlaces(q, txs, k + 1)| == |PooledPlaces(q, txs, k)| + if q[k].hash in txs then 1 else 0
  {
    var before := PooledPlaces(q, txs, k);
    assert PooledPlaces(q, txs, k + 1) == if q[k].hash in txs then before + {k} else before;
  }

  lemma {:induction false} LiveCount(q: seq<QueueEntry>, txs: map<Hash, Entry>, k: nat)
    requires k <= |q|
    ensures |Live(q[..k], txs)| == |PooledPlaces(q, txs, k)|
  {
    if k == 0 {
      assert PooledPlaces(q, txs, 0) == {};
    } else {
      LiveCount(q, txs, k - 1);
      OnePlaceMore(q, txs, k - 1);
      assert q[..k][..k - 1] == q[..k - 1];
    }
  }

  lemma {:induction false} LiveAt(q: seq<QueueEntry>, txs: map<Hash, Entry>, n: nat, i: nat) returns (k: nat)
    requires n <= |q| && i < |Live(q[..n], txs)|
    ensures k < n && q[k].hash in txs && q[k].hash == Live(q[..n], txs)[i] && |PooledPlaces(q, txs, k)| == i
  {
    assert n > 0;
    assert q[..n][..n - 1] == q[..n - 1];
    if i < |Live(q[..n - 1], txs)| {
      k := LiveAt(q, txs, n - 1, i);
    } else {
      k := n - 1;
      LiveCount(q, txs, n - 1);
    }
  }

  /** From any queue: as many as were asked for, or all entries whose transaction is still pooled. */
  lemma TopCount(q: seq<QueueEntry>, txs: map<Hash, Entry>, count: nat)
    ensures var pooled := |PooledPlaces(q, txs, |q|)|; |Top(q, txs, count)| == if count < pooled then count else pooled
  {
    LiveCount(q, txs, |q|);
    assert q[..|q|] == q;
  }

  /** The `i`-th is the entry that has `i` such entries before it. */
  lemma TopAt(q: seq<QueueEntry>, txs: map<Hash, Entry>, count: nat, i: nat) returns (k: nat)
    requires i < |Top(q, txs, count)|
    ensures k < |q| && q[k].hash in txs && q[k].hash == Top(q, txs, count)[i] && |PooledPlaces(q, txs, k)| == i
  {
    assert q[..|q|] == q;
    k := LiveAt(q, txs, |q|, i);
  }

  /**
   From an exact queue, the lesser of `count` and the pool's size, in falling order of score and, at
   one score, of hash; everything pooled when `count` reaches the pool's size.
   */
  lemma TopInOrder(p: Pool, count: nat)
    requires QueueExact(p)
    ensures var top := Top(p.queue, p.transactions, count);
            && |top| == (if count < |p.transactions| then count else |p.transactions|)
            && (forall i, j :: 0 <= i < j < |top| ==>
                  var s, t := Score(p.transactions[top[i]].priority), Score(p.transactions[top[j]].priority);
                  s > t || (s == t && LexLess(top[j], top[i])))
            && (count >= |p.transactions| ==> forall h :: h in p.transactions ==> h in top)
  {
    hide Score;
    var q, txs, top := p.queue, p.transactions, Top(p.queue, p.transactions, count);
    RankedIsRanking(Scores(txs));
    ScoresCount(txs);
    assert forall k :: 0 <= k < |q| ==> q[k] in q;
    LiveIsQueue(q, txs);
    assert forall k :: 0 <= k < |top| ==> top[k] == q[k].hash;
    forall i, j | 0 <= i < j < |top|
      ensures var s, t := Score(txs[top[i]].priority), Score(txs[top[j]].priority);
              s > t || (s == t && LexLess(top[j], top[i]))
    {
      assert Above(q[i], q[j]);
    }
    if count >= |txs| {
      forall h | h in txs
        ensures h in top
      {
        assert QueueEntryOf(txs, h) in q;
        var n :| 0 <= n < |q| && q[n] == QueueEntryOf(txs, h);
        assert top[n] == h;
      }
    }
  }

  lemma {:induction false} LiveIsQueue(q: seq<QueueEntry>, txs: map<Hash, Entry>)
    requires forall i :: 0 <= i < |q| ==> q[i].hash in txs
    ensures |Live(q, txs)| == |q| && forall i :: 0 <= i < |q| ==> Live(q, txs)[i] == q[i].hash
  {
    if q != [] {
      LiveIsQueue(q[..|q| - 1], txs);
    }
  }

  /** From an exact queue, the top `count` are the best: whatever is not among them is outranked by all of them. */
  lemma TopIsBest(p: Pool, count: nat, h: Hash, i: nat)
    requires QueueExact(p) && h in p.transactions && h !in Top(p.queue, p.transactions, count)
    requires i < |Top(p.queue, p.transactions, count)|
    ensures |Top(p.queue, p.transactions, count)| == count
    ensures Above(QueueEntryOf(p.transactions, Top(p.queue, p.transactions, count)[i]), QueueEntryOf(p.transactions, h))
  {
    var q, txs := p.queue, p.transactions;
    RankedIsRanking(Scores(txs));
    assert forall k :: 0 <= k < |q| ==> q[k] in q;
    LiveIsQueue(q, txs);
    assert QueueEntryOf(txs, h) in q;
    var n :| 0 <= n < |q| && q[n] == QueueEntryOf(txs, h);
    assert forall k :: 0 <= k < |Top(q, txs, count)| ==> Top(q, txs, count)[k] == q[k].hash;
    assert q[i] in q;
  }
}
