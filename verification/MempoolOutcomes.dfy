/**
 What the mempool's calls do, in numbers: counts, bytes, fees, ages and scores written out, over
 every run and for every hash function.
 */
module MempoolOutcomes {
  import opened Bytes
  import opened Transactions
  import opened MempoolSpec
  import opened MempoolInvariants
  import opened MempoolRuns
  import opened MempoolBounds
  import opened MempoolDangling

  // ----- Validation and sizes -----

  /** What a transaction must be like, apart from its nonce, to be accepted under a configuration. */
  predicate WellFormed(config: Config, tx: TransactionData) {
    && HasNonzeroByte(tx.from) && tx.gasLimit >= 21000
    && 1 <= tx.gasPrice && config.minFeePerGas <= tx.gasPrice <= config.maxFeePerGas
    && |tx.payload| <= 130_976
    && (if HasNonzeroByte(tx.to) then tx.value >= 1 else |tx.payload| >= 1)
  }

  lemma WellFormedIff(config: Config, tx: TransactionData)
    ensures IsValid(tx) && FeeInRange(config, tx) && !IsTooLarge(tx) <==> WellFormed(config, tx)
  {
    hide IsValid, IsTooLarge, HasNonzeroByte;
    ValidIff(tx);
    TooLargeIff(tx);
  }

  /** The byte total: nothing for the empty pool, and 96 bytes and its payload for each transaction. */
  lemma TotalBytesLaw(txs: map<Hash, Entry>, h: Hash, e: Entry)
    requires h !in txs
    ensures TotalBytes(map[]) == 0
    ensures TotalBytes(txs[h := e]) == TotalBytes(txs) + 96 + |e.tx.payload|
  {
    TotalBytesWithout(txs[h := e], h);
    assert txs[h := e] - {h} == txs;
  }

  /** An entry keeps the first clock reading and is scored by the time between both. */
  lemma EntryScore(tx: TransactionData, t0: U64, t1: U64)
    requires t0 <= t1
    ensures NewEntry(tx, t0, t1).tx == tx && NewEntry(tx, t0, t1).added == t0
    ensures var bytes := 96 + |tx.payload|;
            Score(NewEntry(tx, t0, t1).priority) * (if bytes > 1000 then bytes as real else 1000.0) * 3600.0
            == tx.gasPrice as real * (3600 + t1 - t0) as real * 1000.0
  {
    UnsignedDifference(t1, t0);
    ScoreLaw(NewEntry(tx, t0, t1).priority);
  }

  // ----- Counts fit 64 bits in every run -----

  lemma PutCount(txs: map<Hash, Entry>, hs: set<Hash>, h: Hash, e: Entry)
    ensures |txs - hs| <= |txs| && |(txs - hs)[h := e]| <= |txs - hs| + 1
  {
    ShrunkCount(txs, hs);
    GrownCount(txs - hs, h, e);
  }

  lemma AddCountFits(p: Pool, tx: TransactionData, t0: U64, t1: U64, hashOf: HashFn)
    requires |p.transactions| < TWO64
    ensures |Add(p, tx, t0, t1, hashOf).0.transactions| < TWO64
  {
    hide Evicted, RemoveSet, TotalBytes, Score, Validates;
    AddCases(p, tx, t0, t1, hashOf);
    RoomIsSweep(p);
    PutCount(p.transactions, Swept(p), hashOf(tx), NewEntry(tx, t0, t1));
  }

  lemma ReplaceCountFits(p: Pool, tx: TransactionData, t0: U64, t1: U64, hashOf: HashFn)
    requires |p.transactions| < TWO64
    ensures |Replace(p, tx, t0, t1, hashOf).0.transactions| < TWO64
  {
    hide Score, Validates, Underpriced;
    if Displaced(p, tx).Some? {
      ShrunkCount(p.transactions, {Displaced(p, tx).value});
      PutCount(p.transactions, {Displaced(p, tx).value}, hashOf(tx), NewEntry(tx, t0, t1));
    }
  }

  lemma SweepCountFits(p: Pool, hs: set<Hash>)
    requires |p.transactions| < TWO64
    ensures |RemoveSet(p, hs).transactions| < TWO64
  {
    RemoveSetContents(p, hs);
    ShrunkCount(p.transactions, hs);
  }

  lemma StepCountFits(p: Pool, op: Op, hashOf: HashFn)
    requires |p.transactions| < TWO64
    ensures |Step(p, op, hashOf).transactions| < TWO64
  {
    hide Add, Replace, RemoveSet, Evicted, Expired;
    match op {
      case AddOp(tx, t0, t1) => AddCountFits(p, tx, t0, t1, hashOf);
      case RemoveOp(h) => ShrunkCount(p.transactions, {h});
      case ReplaceOp(tx, t0, t1) => ReplaceCountFits(p, tx, t0, t1, hashOf);
      case EvictExpiredOp(now) => SweepCountFits(p, Expired(p.transactions, now));
      case EvictLowFeeOp => SweepCountFits(p, Evicted(p));
      case ClearOp =>
      case SetConfigOp(_) =>
    }
  }

  lemma {:induction false} CountFitsOverRuns(config: Config, ops: seq<Op>, hashOf: HashFn)
    ensures |Run(EmptyPool(config), ops, hashOf).transactions| < TWO64
  {
    hide Step;
    if ops != [] {
      CountFitsOverRuns(config, ops[..|ops| - 1], hashOf);
      StepCountFits(Run(EmptyPool(config), ops[..|ops| - 1], hashOf), ops[|ops| - 1], hashOf);
    }
  }

  // ----- Fee eviction -----

  /**
   A fee eviction of `n` transactions: below the threshold it changes nothing; from the threshold on
   it leaves four fifths of the maximum, rounded down, or nothing if `n` was less than that.
   */
  lemma EvictionInNumbers(p: Pool)
    requires |p.transactions| < TWO64
    ensures var n, max := |p.transactions|, p.config.maxTransactions;
            if n as real < max as real * p.config.evictionThresholdRatio then EvictLowFee(p) == p
            else
              |EvictLowFee(p).transactions| ==
              if n >= (max as real * 0.8).Floor then (max as real * 0.8).Floor else 0
  {
    hide EvictLowFee, TargetCount;
    if |p.transactions| as real < p.config.maxTransactions as real * p.config.evictionThresholdRatio {
      BelowThreshold(p);
    } else {
      FromThreshold(p);
      TargetIsFloor(p.config);
    }
  }

  lemma BelowThreshold(p: Pool)
    requires |p.transactions| as real < p.config.maxTransactions as real * p.config.evictionThresholdRatio
    ensures EvictLowFee(p) == p
  {
  }

  /** What a fee eviction makes of a pool: the law of `EvictionInNumbers` for a before and an after. */
  ghost predicate EvictedInNumbers(before: Pool, after: Pool) {
    var n, max := |before.transactions|, before.config.maxTransactions;
    if n as real < max as real * before.config.evictionThresholdRatio then after == before
    else
      |after.transactions| == if n >= (max as real * 0.8).Floor then (max as real * 0.8).Floor else 0
  }

  /** A fee eviction either does nothing or removes the lowest-ranked transactions. */
  lemma EvictionCases(p: Pool)
    ensures EvictLowFee(p) == if EvictionFires(p) then RemoveSet(p, ToEvict(p)) else p
  {
    hide ToEvict, EvictionFires;
  }

  lemma EvictsLowest(p: Pool)
    ensures ToEvict(p) == Lowest(p.transactions, ExcessCount(p))
  {
  }

  lemma FromThreshold(p: Pool)
    requires |p.transactions| < TWO64
    requires |p.transactions| as real >= p.config.maxTransactions as real * p.config.evictionThresholdRatio
    ensures |EvictLowFee(p).transactions| == LeftOf(p)
  {
    hide EvictLowFee, LeftOf;
    FeeEvictionLeaves(p);
  }

  /** Of two transactions that scored differently it keeps the better, of two with one score the larger hash. */
  predicate Outscores(txs: map<Hash, Entry>, g: Hash, h: Hash)
    requires g in txs && h in txs
  {
    var s, t := Score(txs[g].priority), Score(txs[h].priority);
    s > t || (s == t && LexLess(h, g))
  }

  lemma EvictionKeepsBest(p: Pool, kept: Hash, lost: Hash)
    requires kept in EvictLowFee(p).transactions
    ensures kept in p.transactions && EvictLowFee(p).transactions[kept] == p.transactions[kept]
    ensures lost in p.transactions && lost !in EvictLowFee(p).transactions ==> Outscores(p.transactions, kept, lost)
  {
    RemoveSetContents(p, Evicted(p));
    if lost in p.transactions && lost !in EvictLowFee(p).transactions {
      KeptOutrankEvicted(p.transactions, ExcessCount(p), kept, lost);
    }
  }

  /** Both laws for every reachable pool. */
  lemma EvictionOverRuns(config: Config, ops: seq<Op>, hashOf: HashFn)
    ensures var p := Run(EmptyPool(config), ops, hashOf);
            var n, max := |p.transactions|, p.config.maxTransactions;
            if n as real < max as real * p.config.evictionThresholdRatio then EvictLowFee(p) == p
            else
              |EvictLowFee(p).transactions| ==
              if n >= (max as real * 0.8).Floor then (max as real * 0.8).Floor else 0
  {
    hide MempoolSpec.Run, EvictLowFee;
    CountFitsOverRuns(config, ops, hashOf);
    EvictionInNumbers(Run(EmptyPool(config), ops, hashOf));
  }

  /** An age sweep keeps what is at most 3600 s old, and what lies so far ahead of the clock that its age wraps to that. */
  lemma ExpiryInNumbers(p: Pool, now: U64, h: Hash)
    ensures h in EvictExpired(p, now).transactions <==>
            h in p.transactions &&
            if now >= p.transactions[h].added then now - p.transactions[h].added <= 3600
            else p.transactions[h].added - now >= TWO64 - 3600
    ensures h in EvictExpired(p, now).transactions ==> EvictExpired(p, now).transactions[h] == p.transactions[h]
  {
    RemoveSetContents(p, Expired(p.transactions, now));
    if h in p.transactions {
      ExpiredIff(p.transactions[h], now);
    }
  }

  // ----- Adding -----

  /** The pool is below both of its limits. */
  ghost predicate HasRoom(txs: map<Hash, Entry>, config: Config) {
    |txs| < config.maxTransactions && TotalBytes(txs) < config.maxSizeBytes
  }

  /** All nonces of the sender, pooled or dangling, lie below the transaction's. */
  ghost predicate ComesNext(p: Pool, dangling: Slots, tx: TransactionData) {
    && (forall h :: h in p.transactions && p.transactions[h].tx.from == tx.from ==> p.transactions[h].tx.nonce < tx.nonce)
    && (forall n: U64 :: (tx.from, n) in dangling ==> n < tx.nonce)
  }

  lemma ComesNextIff(p: Pool, dangling: Slots, tx: TransactionData)
    requires Indexed(p, dangling)
    ensures NonceIsNext(p, tx) <==> ComesNext(p, dangling, tx)
  {
    hide Indexed, NonceIsNext;
    NonceIsNextWithDangling(p, dangling, tx);
  }

  lemma AddInNumbers(p: Pool, dangling: Slots, tx: TransactionData, t0: U64, t1: U64, hashOf: HashFn)
    requires Indexed(p, dangling)
    ensures var (p', error) := Add(p, tx, t0, t1, hashOf);
            var h, e, kept := hashOf(tx), NewEntry(tx, t0, t1), EvictLowFee(p).transactions;
            if h in p.transactions then (p', error) == (p, TransactionExists)
            else if !(WellFormed(p.config, tx) && ComesNext(p, dangling, tx)) then (p', error) == (p, InvalidTransaction)
            else if HasRoom(p.transactions, p.config) then error == Success && p'.transactions == p.transactions[h := e]
            else if HasRoom(kept, p.config) then error == Success && p'.transactions == kept[h := e]
            else error == PoolFull && p'.transactions == kept
  {
    hide Indexed, NonceIsNext, ComesNext, WellFormed, IsValid, FeeInRange, IsTooLarge, EvictLowFee, Score;
    WellFormedIff(p.config, tx);
    ComesNextIff(p, dangling, tx);
    EvictionKeepsConfig(p);
    hide TotalBytes;
  }

  /**
   The outcome of an addition in every run. A known hash, a transaction that is not well-formed or
   one that does not come next in its sender's nonces changes nothing. Below both limits the
   transaction is entered and nothing is lost. At a limit there is a fee eviction first, and the
   transaction is entered if that left the pool below both limits.
   */
  lemma AddInNumbersOverRuns(config: Config, ops: seq<Op>, tx: TransactionData, t0: U64, t1: U64, hashOf: HashFn)
    ensures var p := Run(EmptyPool(config), ops, hashOf);
            var (p', error) := Add(p, tx, t0, t1, hashOf);
            var h, e, kept := hashOf(tx), NewEntry(tx, t0, t1), EvictLowFee(p).transactions;
            if h in p.transactions then (p', error) == (p, TransactionExists)
            else if !(WellFormed(p.config, tx) && ComesNext(p, Dangling(EmptyPool(config), ops, hashOf), tx)) then
              (p', error) == (p, InvalidTransaction)
            else if HasRoom(p.transactions, p.config) then error == Success && p'.transactions == p.transactions[h := e]
            else if HasRoom(kept, p.config) then error == Success && p'.transactions == kept[h := e]
            else error == PoolFull && p'.transactions == kept
  {
    hide MempoolSpec.Run, Dangling, Indexed, ComesNext, WellFormed, HasRoom, EvictLowFee, Add;
    IndexAccountedOverRuns(config, ops, hashOf);
    AddInNumbers(Run(EmptyPool(config), ops, hashOf), Dangling(EmptyPool(config), ops, hashOf), tx, t0, t1, hashOf);
  }

  // ----- Filling an empty pool -----

  /** Additions only, each well-formed, no hash twice, the nonces of each sender rising. */
  ghost predicate Steady(ops: seq<Op>, config: Config, hashOf: HashFn) {
    && (forall i :: 0 <= i < |ops| ==> ops[i].AddOp? && WellFormed(config, ops[i].tx))
    && (forall i, j :: 0 <= i < j < |ops| ==> hashOf(ops[i].tx) != hashOf(ops[j].tx))
    && (forall i, j :: 0 <= i < j < |ops| && ops[i].tx.from == ops[j].tx.from ==> ops[i].tx.nonce < ops[j].tx.nonce)
  }

  /** The sizes of the transactions offered, 96 bytes and the payload each. */
  function OfferedBytes(ops: seq<Op>): nat
    requires forall i :: 0 <= i < |ops| ==> ops[i].AddOp?
  {
    if ops == [] then 0 else OfferedBytes(ops[..|ops| - 1]) + 96 + |ops[|ops| - 1].tx.payload|
  }

  /** The pool holds exactly what was offered. */
  ghost predicate HoldsAll(p: Pool, ops: seq<Op>, hashOf: HashFn)
    requires forall i :: 0 <= i < |ops| ==> ops[i].AddOp?
  {
    && |p.transactions| == |ops| && TotalBytes(p.transactions) == OfferedBytes(ops)
    && p.transactions.Keys == OfferedHashes(ops, hashOf)
    && (forall i :: 0 <= i < |ops| ==> Holds(p.transactions, ops[i], hashOf))
  }

  function OfferedHashes(ops: seq<Op>, hashOf: HashFn): set<Hash>
    requires forall i :: 0 <= i < |ops| ==> ops[i].AddOp?
  {
    if ops == [] then {} else OfferedHashes(ops[..|ops| - 1], hashOf) + {hashOf(ops[|ops| - 1].tx)}
  }

  lemma {:induction false} OfferedBy(ops: seq<Op>, hashOf: HashFn, h: Hash) returns (i: nat)
    requires forall i :: 0 <= i < |ops| ==> ops[i].AddOp?
    requires h in OfferedHashes(ops, hashOf)
    ensures i < |ops| && hashOf(ops[i].tx) == h
  {
    i := |ops| - 1;
    if hashOf(ops[i].tx) != h {
      i := OfferedBy(ops[..|ops| - 1], hashOf, h);
    }
  }

  predicate Holds(txs: map<Hash, Entry>, op: Op, hashOf: HashFn)
    requires op.AddOp?
  {
    hashOf(op.tx) in txs && txs[hashOf(op.tx)] == NewEntry(op.tx, op.t0, op.t1)
  }

  lemma SteadyPrefix(ops: seq<Op>, config: Config, hashOf: HashFn)
    requires ops != [] && Steady(ops, config, hashOf)
    ensures Steady(ops[..|ops| - 1], config, hashOf)
  {
    var init := ops[..|ops| - 1];
    assert forall i :: 0 <= i < |init| ==> init[i] == ops[i];
  }

  lemma NextOffered(p: Pool, ops: seq<Op>, config: Config, hashOf: HashFn)
    requires ops != [] && Steady(ops, config, hashOf)
    requires HoldsAll(p, ops[..|ops| - 1], hashOf)
    ensures hashOf(ops[|ops| - 1].tx) !in p.transactions && ComesNext(p, map[], ops[|ops| - 1].tx)
  {
    var init, tx := ops[..|ops| - 1], ops[|ops| - 1].tx;
    forall h | h in p.transactions
      ensures h != hashOf(tx)
    {
      var i := OfferedBy(init, hashOf, h);
      assert init[i] == ops[i];
    }
    forall h | h in p.transactions && p.transactions[h].tx.from == tx.from
      ensures p.transactions[h].tx.nonce < tx.nonce
    {
      var i := OfferedBy(init, hashOf, h);
      assert init[i] == ops[i] && Holds(p.transactions, init[i], hashOf);
    }
  }

  lemma HoldsOneMore(p: Pool, p': Pool, ops: seq<Op>, hashOf: HashFn)
    requires ops != [] && forall i :: 0 <= i < |ops| ==> ops[i].AddOp?
    requires HoldsAll(p, ops[..|ops| - 1], hashOf)
    requires var op := ops[|ops| - 1];
             && hashOf(op.tx) !in p.transactions
             && p'.transactions == p.transactions[hashOf(op.tx) := NewEntry(op.tx, op.t0, op.t1)]
    ensures HoldsAll(p', ops, hashOf)
  {
    var init, op := ops[..|ops| - 1], ops[|ops| - 1];
    var h, e := hashOf(op.tx), NewEntry(op.tx, op.t0, op.t1);
    OneMoreHash(p.transactions, p'.transactions, h, e);
    TotalBytesLaw(p.transactions, h, e);
    hide TotalBytes, NewEntry;
    forall i | 0 <= i < |ops|
      ensures Holds(p'.transactions, ops[i], hashOf)
    {
      assert i < |init| ==> init[i] == ops[i] && Holds(p.transactions, init[i], hashOf);
    }
  }

  lemma OneMoreHash(txs: map<Hash, Entry>, txs': map<Hash, Entry>, h: Hash, e: Entry)
    requires h !in txs && txs' == txs[h := e]
    ensures txs'.Keys == txs.Keys + {h} && |txs'| == |txs| + 1
  {
    assert txs'.Keys == txs.Keys + {h};
  }

  lemma {:induction false} NothingDangles(p: Pool, ops: seq<Op>, hashOf: HashFn)
    requires forall i :: 0 <= i < |ops| ==> ops[i].AddOp?
    ensures Dangling(p, ops, hashOf) == map[]
  {
    if ops != [] {
      NothingDangles(p, ops[..|ops| - 1], hashOf);
    }
  }

  /**
   An empty pool takes up to `max_transactions` transactions in a row and keeps every one of them, as
   long as the sizes of all but the last sum to less than its byte limit.
   */
  lemma {:induction false} FillsToMaximum(config: Config, ops: seq<Op>, hashOf: HashFn)
    requires Steady(ops, config, hashOf) && |ops| <= config.maxTransactions
    requires ops != [] ==> OfferedBytes(ops[..|ops| - 1]) < config.maxSizeBytes
    ensures HoldsAll(Run(EmptyPool(config), ops, hashOf), ops, hashOf)
    ensures Run(EmptyPool(config), ops, hashOf).config == config
  {
    if ops != [] {
      var init, op := ops[..|ops| - 1], ops[|ops| - 1];
      SteadyPrefix(ops, config, hashOf);
      var p := Run(EmptyPool(config), init, hashOf);
      FillsToMaximum(config, init, hashOf);
      NextOffered(p, ops, config, hashOf);
      NothingDangles(EmptyPool(config), init, hashOf);
      AddInNumbersOverRuns(config, init, op.tx, op.t0, op.t1, hashOf);
      StepKeepsConfig(p, op, hashOf);
      hide Steady, HoldsAll, ComesNext, WellFormed, Add;
      assert HasRoom(p.transactions, config);
      HoldsOneMore(p, Step(p, op, hashOf), ops, hashOf);
    }
  }

  // ----- Replacing -----

  /**
   The outcome of a replacement in every run. Nothing pooled under the sender and nonce, or a fee
   below 11/10 of the pooled one: no change. A transaction that is not well-formed, or a nonce of the
   sender above it: the old one is lost. Otherwise exactly that one is exchanged.
   */
  lemma ReplaceInNumbersOverRuns(config: Config, ops: seq<Op>, tx: TransactionData, t0: U64, t1: U64, hashOf: HashFn)
    ensures var p := Run(EmptyPool(config), ops, hashOf);
            var (p', error) := Replace(p, tx, t0, t1, hashOf);
            var slot := Slot(p.nonces, tx.from, tx.nonce);
            if slot.None? || slot.value !in p.transactions then (p', error) == (p, InvalidTransaction)
            else if 10 * tx.gasPrice < 11 * p.transactions[slot.value].tx.gasPrice then (p', error) == (p, ReplaceUnderpriced)
            else if WellFormed(p.config, tx) && !HasLaterNonce(p, tx)
                    && AboveDangling(Dangling(EmptyPool(config), ops, hashOf), tx) then
              && error == Success
              && p'.transactions == (p.transactions - {slot.value})[hashOf(tx) := NewEntry(tx, t0, t1)]
            else
              error == InvalidTransaction && p'.transactions == p.transactions - {slot.value} && p'.queue == p.queue
  {
    hide MempoolSpec.Run, Dangling, AboveDangling, HasLaterNonce, WellFormed, IsValid, FeeInRange, IsTooLarge, Replace;
    var p := Run(EmptyPool(config), ops, hashOf);
    WellFormedIff(p.config, tx);
    ReplaceOutcomeOverRuns(config, ops, tx, t0, t1, hashOf);
    if Displaced(p, tx).Some? {
      FeeComparison(p.transactions[Displaced(p, tx).value].tx, tx);
    }
  }

  lemma FeeComparison(prior: TransactionData, tx: TransactionData)
    ensures Underpriced(prior, tx) <==> 10 * tx.gasPrice < 11 * prior.gasPrice
  {
  }
}
