/** Capacity, fee eviction, ageing and the replacement fee ratchet, over every mempool run. */
module MempoolBounds {
  import opened Bytes
  import opened Powers
  import opened Results
  import opened Transactions
  import opened MempoolQueue
  import opened MempoolSpec
  import opened MempoolInvariants
  import opened MempoolRuns

  // ----- Sizes of maps -----

  lemma ShrunkCount(txs: map<Hash, Entry>, hs: set<Hash>)
    ensures |txs - hs| <= |txs|
    ensures hs <= txs.Keys ==> |txs - hs| == |txs| - |hs|
  {
    assert (txs - hs).Keys == txs.Keys - hs;
    SubsetCount(txs.Keys - hs, txs.Keys);
    if hs <= txs.Keys {
      assert txs.Keys == (txs.Keys - hs) + hs;
    }
  }

  lemma SubsetCount<T>(a: set<T>, b: set<T>)
    requires a <= b
    ensures |a| <= |b|
  {
    assert b == a + (b - a);
  }

  lemma GrownCount(txs: map<Hash, Entry>, h: Hash, e: Entry)
    ensures |txs[h := e]| <= |txs| + 1
  {
    assert txs[h := e].Keys == txs.Keys + {h};
    if h in txs {
      assert txs.Keys + {h} == txs.Keys;
    }
  }

  lemma {:induction false} TotalBytesWithout(txs: map<Hash, Entry>, h: Hash)
    requires h in txs
    ensures TotalBytes(txs) == Size(txs[h].tx) + TotalBytes(txs - {h})
    decreases |txs|
  {
    var g :| g in txs && TotalBytes(txs) == Size(txs[g].tx) + TotalBytes(txs - {g});
    if g != h {
      ShrunkCount(txs, {g});
      ShrunkCount(txs, {h});
      TotalBytesWithout(txs - {g}, h);
      TotalBytesWithout(txs - {h}, g);
      assert txs - {g} - {h} == txs - {h} - {g};
    }
  }

  lemma TotalBytesWith(txs: map<Hash, Entry>, h: Hash, e: Entry)
    ensures TotalBytes(txs[h := e]) <= TotalBytes(txs) + Size(e.tx)
  {
    TotalBytesWithout(txs[h := e], h);
    assert txs[h := e] - {h} == txs - {h};
    if h in txs {
      TotalBytesWithout(txs, h);
    } else {
      assert txs - {h} == txs;
    }
  }

  lemma {:induction false} TotalBytesShrinks(txs: map<Hash, Entry>, hs: set<Hash>)
    ensures TotalBytes(txs - hs) <= TotalBytes(txs)
    decreases hs
  {
    if hs == {} {
      assert txs - hs == txs;
    } else {
      var h :| h in hs;
      TotalBytesShrinks(txs, hs - {h});
      var rest := txs - (hs - {h});
      assert rest - {h} == txs - hs;
      if h in rest {
        TotalBytesWithout(rest, h);
      } else {
        assert rest - {h} == rest;
      }
    }
  }

  // ----- Capacity over runs -----

  predicate FixedConfig(ops: seq<Op>) {
    forall i :: 0 <= i < |ops| ==> !ops[i].SetConfigOp?
  }

  ghost predicate Succeeds(p: Pool, op: Op, hashOf: HashFn) {
    op.ReplaceOp? && Replace(p, op.tx, op.t0, op.t1, hashOf).1 == Success
  }

  /** The number of replacements in the run that went through. */
  ghost function Replacements(p: Pool, ops: seq<Op>, hashOf: HashFn): nat {
    if ops == [] then 0
    else
      Replacements(p, ops[..|ops| - 1], hashOf)
      + if Succeeds(Run(p, ops[..|ops| - 1], hashOf), ops[|ops| - 1], hashOf) then 1 else 0
  }

  /** Bytes exceed the limit by less than `k` transactions of the maximal size, 128 KiB. */
  ghost predicate BytesBelow(p: Pool, k: nat) {
    TotalBytes(p.transactions) < p.config.maxSizeBytes + MAX_TRANSACTION_SIZE * k
  }

  lemma LargestBytes(k: nat)
    ensures MAX_TRANSACTION_SIZE * (1 + k) == MAX_TRANSACTION_SIZE * k + MAX_TRANSACTION_SIZE
  {
  }

  ghost predicate WithinBounds(p: Pool, replacements: nat) {
    |p.transactions| <= p.config.maxTransactions && BytesBelow(p, 1 + replacements)
  }

  lemma SweepBounds(p: Pool, hs: set<Hash>, k: nat)
    requires WithinBounds(p, k)
    ensures WithinBounds(RemoveSet(p, hs), k)
  {
    RemoveSetContents(p, hs);
    ShrunkCount(p.transactions, hs);
    TotalBytesShrinks(p.transactions, hs);
  }

  lemma PutBounds(p: Pool, p': Pool, h: Hash, e: Entry, k: nat)
    requires p'.config == p.config && p'.transactions == p.transactions[h := e] && !IsTooLarge(e.tx)
    requires |p.transactions| < p.config.maxTransactions && BytesBelow(p, k)
    ensures WithinBounds(p', k)
  {
    GrownCount(p.transactions, h, e);
    TotalBytesWith(p.transactions, h, e);
    LargestBytes(k);
  }

  lemma NotFullBounds(p: Pool, k: nat)
    requires !IsFull(p)
    ensures |p.transactions| < p.config.maxTransactions && BytesBelow(p, k)
  {
  }

  lemma AddBounds(p: Pool, tx: TransactionData, t0: U64, t1: U64, hashOf: HashFn, k: nat)
    requires WithinBounds(p, k)
    ensures WithinBounds(Add(p, tx, t0, t1, hashOf).0, k)
  {
    var room, p' := MakeRoom(p), Add(p, tx, t0, t1, hashOf).0;
    RoomIsSweep(p);
    SweepBounds(p, Swept(p), k);
    AddCases(p, tx, t0, t1, hashOf);
    if p' != p && p' != room {
      NotFullBounds(room, k);
      PutBounds(room, p', hashOf(tx), NewEntry(tx, t0, t1), k);
    }
  }

  lemma WithoutOldBounds(p: Pool, h: Hash, k: nat)
    requires WithinBounds(p, k) && h in p.transactions
    ensures WithinBounds(WithoutOld(p, h), k)
    ensures |WithoutOld(p, h).transactions| < p.config.maxTransactions
  {
    ShrunkCount(p.transactions, {h});
    TotalBytesShrinks(p.transactions, {h});
  }

  lemma ReplaceBounds(p: Pool, tx: TransactionData, t0: U64, t1: U64, hashOf: HashFn, k: nat)
    requires WithinBounds(p, k)
    ensures WithinBounds(Replace(p, tx, t0, t1, hashOf).0,
                         if Replace(p, tx, t0, t1, hashOf).1 == Success then k + 1 else k)
  {
    hide BytesBelow;
    var (p', error) := Replace(p, tx, t0, t1, hashOf);
    if p' != p {
      var h := Displaced(p, tx).value;
      var q := WithoutOld(p, h);
      WithoutOldBounds(p, h, k);
      if error == Success {
        PutBounds(q, p', hashOf(tx), NewEntry(tx, t0, t1), k + 1);
      }
    }
  }

  lemma RemoveBounds(p: Pool, h: Hash, k: nat)
    requires WithinBounds(p, k)
    ensures WithinBounds(Remove(p, h), k)
  {
    ShrunkCount(p.transactions, {h});
    TotalBytesShrinks(p.transactions, {h});
  }

  lemma StepBounds(p: Pool, op: Op, hashOf: HashFn, k: nat)
    requires WithinBounds(p, k) && !op.SetConfigOp?
    ensures WithinBounds(Step(p, op, hashOf), if Succeeds(p, op, hashOf) then k + 1 else k)
  {
    match op {
      case AddOp(tx, t0, t1) => AddBounds(p, tx, t0, t1, hashOf, k);
      case RemoveOp(h) => RemoveBounds(p, h, k);
      case ReplaceOp(tx, t0, t1) => ReplaceBounds(p, tx, t0, t1, hashOf, k);
      case EvictExpiredOp(now) => SweepBounds(p, Expired(p.transactions, now), k);
      case EvictLowFeeOp => SweepBounds(p, Evicted(p), k);
      case ClearOp => EmptyBounds(p.config, k);
    }
  }

  lemma EmptyBounds(config: Config, k: nat)
    ensures WithinBounds(EmptyPool(config), k)
  {
  }

  lemma StepKeepsConfig(p: Pool, op: Op, hashOf: HashFn)
    requires !op.SetConfigOp?
    ensures Step(p, op, hashOf).config == p.config
  {
    match op {
      case AddOp(tx, t0, t1) =>
        AddCases(p, tx, t0, t1, hashOf);
        RoomIsSweep(p);
      case EvictExpiredOp(now) => RemoveSetContents(p, Expired(p.transactions, now));
      case EvictLowFeeOp => RemoveSetContents(p, Evicted(p));
      case RemoveOp(_) =>
      case ReplaceOp(_, _, _) =>
      case ClearOp =>
    }
  }

  lemma {:induction false} ConfigOverRuns(p: Pool, ops: seq<Op>, hashOf: HashFn)
    requires FixedConfig(ops)
    ensures Run(p, ops, hashOf).config == p.config
  {
    if ops != [] {
      ConfigOverRuns(p, ops[..|ops| - 1], hashOf);
      StepKeepsConfig(Run(p, ops[..|ops| - 1], hashOf), ops[|ops| - 1], hashOf);
    }
  }

  lemma {:induction false} BoundsOverRuns(config: Config, ops: seq<Op>, hashOf: HashFn)
    requires FixedConfig(ops)
    ensures WithinBounds(Run(EmptyPool(config), ops, hashOf), Replacements(EmptyPool(config), ops, hashOf))
  {
    hide Step, WithinBounds, Succeeds, EmptyPool;
    if ops == [] {
      EmptyBounds(config, 0);
    } else {
      var p, init, op := EmptyPool(config), ops[..|ops| - 1], ops[|ops| - 1];
      BoundsOverRuns(config, init, hashOf);
      StepBounds(Run(p, init, hashOf), op, hashOf, Replacements(p, init, hashOf));
      assert Run(p, ops, hashOf) == Step(Run(p, init, hashOf), op, hashOf);
    }
  }

  /**
   Under a fixed configuration the pool never holds more than `max_transactions`, and its bytes
   exceed `max_size_bytes` by less than one maximal transaction plus one for each replacement that
   went through, since a replacement does not look at the pool's size.
   */
  lemma CapacityOverRuns(config: Config, ops: seq<Op>, hashOf: HashFn)
    requires FixedConfig(ops)
    ensures |Run(EmptyPool(config), ops, hashOf).transactions| <= config.maxTransactions
    ensures TotalBytes(Run(EmptyPool(config), ops, hashOf).transactions)
          < config.maxSizeBytes + MAX_TRANSACTION_SIZE * (1 + Replacements(EmptyPool(config), ops, hashOf))
  {
    hide Run, Replacements, TotalBytes;
    BoundsOverRuns(config, ops, hashOf);
    ConfigOverRuns(EmptyPool(config), ops, hashOf);
  }

  // ----- Validity over runs -----

  /** Every pooled transaction is valid, not too large and priced at most `hi`. */
  ghost predicate PooledValid(p: Pool, hi: nat) {
    forall h :: h in p.transactions ==> Pooled(p.transactions[h].tx, hi)
  }

  predicate Pooled(tx: TransactionData, hi: nat) {
    IsValid(tx) && !IsTooLarge(tx) && tx.gasPrice <= hi
  }

  /** No configuration of the run allows a fee above `hi`. */
  predicate FeesCapped(ops: seq<Op>, hi: nat) {
    forall i :: 0 <= i < |ops| && ops[i].SetConfigOp? ==> ops[i].config.maxFeePerGas <= hi
  }

  lemma PutPooledValid(p: Pool, p': Pool, h: Hash, e: Entry, hi: nat)
    requires PooledValid(p, hi) && Pooled(e.tx, hi) && p'.transactions == p.transactions[h := e]
    ensures PooledValid(p', hi)
  {
  }

  lemma SweepPooledValid(p: Pool, hs: set<Hash>, hi: nat)
    requires PooledValid(p, hi)
    ensures PooledValid(RemoveSet(p, hs), hi)
  {
    RemoveSetContents(p, hs);
  }

  lemma AddPooledValid(p: Pool, tx: TransactionData, t0: U64, t1: U64, hashOf: HashFn, hi: nat)
    requires PooledValid(p, hi) && p.config.maxFeePerGas <= hi
    ensures PooledValid(Add(p, tx, t0, t1, hashOf).0, hi)
  {
    var room, p' := MakeRoom(p), Add(p, tx, t0, t1, hashOf).0;
    AddCases(p, tx, t0, t1, hashOf);
    RoomIsSweep(p);
    SweepPooledValid(p, Swept(p), hi);
    if p' != p && p' != room {
      PutPooledValid(room, p', hashOf(tx), NewEntry(tx, t0, t1), hi);
    }
  }

  lemma ReplacePooledValid(p: Pool, tx: TransactionData, t0: U64, t1: U64, hashOf: HashFn, hi: nat)
    requires PooledValid(p, hi) && p.config.maxFeePerGas <= hi
    ensures PooledValid(Replace(p, tx, t0, t1, hashOf).0, hi)
  {
    var (p', error) := Replace(p, tx, t0, t1, hashOf);
    if error == Success {
      var q := WithoutOld(p, Displaced(p, tx).value);
      assert Validates(q, tx);
      PutPooledValid(q, p', hashOf(tx), NewEntry(tx, t0, t1), hi);
    }
  }

  lemma StepPooledValid(p: Pool, op: Op, hashOf: HashFn, hi: nat)
    requires PooledValid(p, hi) && p.config.maxFeePerGas <= hi
    requires op.SetConfigOp? ==> op.config.maxFeePerGas <= hi
    ensures PooledValid(Step(p, op, hashOf), hi) && Step(p, op, hashOf).config.maxFeePerGas <= hi
  {
    if !op.SetConfigOp? {
      StepKeepsConfig(p, op, hashOf);
    }
    match op {
      case AddOp(tx, t0, t1) => AddPooledValid(p, tx, t0, t1, hashOf, hi);
      case RemoveOp(h) =>
      case ReplaceOp(tx, t0, t1) => ReplacePooledValid(p, tx, t0, t1, hashOf, hi);
      case EvictExpiredOp(now) => SweepPooledValid(p, Expired(p.transactions, now), hi);
      case EvictLowFeeOp => SweepPooledValid(p, Evicted(p), hi);
      case ClearOp =>
      case SetConfigOp(_) =>
    }
  }

  /** In every run all pooled transactions are valid and priced within what some configuration allowed. */
  lemma {:induction false} PooledValidOverRuns(p: Pool, ops: seq<Op>, hashOf: HashFn, hi: nat)
    requires PooledValid(p, hi) && p.config.maxFeePerGas <= hi && FeesCapped(ops, hi)
    ensures PooledValid(Run(p, ops, hashOf), hi) && Run(p, ops, hashOf).config.maxFeePerGas <= hi
  {
    if ops != [] {
      assert FeesCapped(ops[..|ops| - 1], hi);
      PooledValidOverRuns(p, ops[..|ops| - 1], hashOf, hi);
      StepPooledValid(Run(p, ops[..|ops| - 1], hashOf), ops[|ops| - 1], hashOf, hi);
    }
  }

  // ----- Fee eviction -----

  lemma {:induction false} HashesOfDistinct(q: seq<QueueEntry>)
    requires forall i, j :: 0 <= i < j < |q| ==> q[i].hash != q[j].hash
    ensures |HashesOf(q)| == |q|
  {
    if q != [] {
      HashesOfDistinct(q[1..]);
      assert q == [q[0]] + q[1..];
      assert HashesOf(q) == {q[0].hash} + HashesOf(q[1..]);
      assert q[0].hash !in HashesOf(q[1..]);
    }
  }

  lemma RankingHashesDistinct(q: seq<QueueEntry>, scores: map<Hash, real>)
    requires IsRanking(q, scores)
    ensures forall i, j :: 0 <= i < j < |q| ==> q[i].hash != q[j].hash
  {
    StrictIsSortedDistinct(q);
    forall i, j | 0 <= i < j < |q|
      ensures q[i].hash != q[j].hash
    {
      assert q[i] in q && q[j] in q;
    }
  }

  lemma TailHashes(q: seq<QueueEntry>, scores: map<Hash, real>, from: nat)
    requires IsRanking(q, scores) && from <= |q|
    ensures HashesOf(q[from..]) <= scores.Keys
    ensures |HashesOf(q[from..])| == |q| - from
  {
    RankingHashesDistinct(q, scores);
    HashesOfDistinct(q[from..]);
    forall e | e in q[from..]
      ensures e.hash in scores
    {
      assert e in q;
    }
  }

  lemma ScoresCount(txs: map<Hash, Entry>)
    ensures |Scores(txs)| == |txs|
  {
    assert |Scores(txs).Keys| == |txs.Keys|;
  }

  /** Evicting `count` transactions evicts exactly that many pooled ones, or all of them. */
  lemma LowestCount(txs: map<Hash, Entry>, count: nat)
    ensures Lowest(txs, count) <= txs.Keys
    ensures |Lowest(txs, count)| == if count < |txs| then count else |txs|
  {
    hide HashesOf, IsRanking, Ranked, Scores;
    ScoresCount(txs);
    RankedIsRanking(Scores(txs));
    TailHashes(Ranked(Scores(txs)), Scores(txs), if count < |txs| then |txs| - count else 0);
  }

  /** A transaction that survives outranks every one that is evicted. */
  lemma KeptOutrankEvicted(txs: map<Hash, Entry>, count: nat, kept: Hash, evicted: Hash)
    requires kept in txs && kept !in Lowest(txs, count) && evicted in Lowest(txs, count)
    ensures evicted in txs
    ensures Above(QueueEntryOf(txs, kept), QueueEntryOf(txs, evicted))
    ensures Score(txs[kept].priority) >= Score(txs[evicted].priority)
  {
    var ranking := Ranked(Scores(txs));
    RankedIsRanking(Scores(txs));
    var from := if count < |txs| then |txs| - count else 0;
    ScoresCount(txs);
    var e :| e in ranking[from..] && e.hash == evicted;
    assert e in ranking;
    assert QueueEntryOf(txs, kept) in ranking;
    TailIsBelow(ranking, from, QueueEntryOf(txs, kept), e);
  }

  /** In a strictly sorted queue, what lies outside a tail outranks what lies inside it. */
  lemma TailIsBelow(q: seq<QueueEntry>, from: nat, x: QueueEntry, y: QueueEntry)
    requires StrictlySorted(q) && from <= |q|
    requires x in q && x !in q[from..] && y in q[from..]
    ensures Above(x, y)
  {
    assert q == q[..from] + q[from..];
    var i :| 0 <= i < from && q[i] == x;
    var j :| from <= j < |q| && q[j] == y;
  }

  lemma EvictionCount(p: Pool, hs: set<Hash>)
    requires hs <= p.transactions.Keys
    ensures |RemoveSet(p, hs).transactions| == |p.transactions| - |hs|
  {
    RemoveSetContents(p, hs);
    ShrunkCount(p.transactions, hs);
  }

  lemma UnsignedDifference(a: nat, b: nat)
    requires a < TWO64 && b < TWO64
    ensures Wrap64(a - b) == if a >= b then a - b else a - b + TWO64
  {
  }

  lemma LeftAfterEviction(n: nat, target: nat, count: nat)
    requires n < TWO64 && target < TWO64 && count == Wrap64(n - target)
    ensures n - (if count < n then count else n) == if n >= target then target else 0
  {
    UnsignedDifference(n, target);
  }

  /** The target count is four fifths of the maximum, rounded down. */
  lemma TargetIsFloor(config: Config)
    ensures TargetCount(config) == (config.maxTransactions as real * 0.8).Floor
  {
    var m: nat := config.maxTransactions;
    assert m * 4 == 5 * (m * 4 / 5) + m * 4 % 5;
    var t, x := m * 4 / 5, m as real * 0.8;
    assert t as real <= x < t as real + 1.0;
  }

  lemma LowestLeaves(p: Pool, n: nat, target: nat)
    requires n == |p.transactions| && n < TWO64 && target < TWO64
    ensures |RemoveSet(p, Lowest(p.transactions, Wrap64(n - target))).transactions| == if n >= target then target else 0
  {
    var count := Wrap64(n - target);
    LowestCount(p.transactions, count);
    EvictionCount(p, Lowest(p.transactions, count));
    LeftAfterEviction(n, target, count);
  }

  function LeftOf(p: Pool): nat {
    if |p.transactions| >= TargetCount(p.config) then TargetCount(p.config) else 0
  }

  lemma TargetFits(config: Config)
    ensures TargetCount(config) <= config.maxTransactions < TWO64
  {
  }

  lemma ToEvictLeaves(p: Pool)
    requires |p.transactions| < TWO64
    ensures |RemoveSet(p, ToEvict(p)).transactions| == LeftOf(p)
  {
    TargetFits(p.config);
    var n, target := |p.transactions|, TargetCount(p.config);
    assert ToEvict(p) == Lowest(p.transactions, Wrap64(n - target));
    LowestLeaves(p, n, target);
  }

  /**
   A fee eviction that fires leaves the target count, four fifths of the maximum, when the pool
   holds at least that many; with fewer the count to evict wraps around and the pool is emptied.
   */
  lemma FeeEvictionLeaves(p: Pool)
    requires EvictionFires(p) && |p.transactions| < TWO64
    ensures |EvictLowFee(p).transactions| == LeftOf(p)
  {
    ToEvictLeaves(p);
  }

  lemma ThresholdReachesTarget(n: nat, max: nat, ratio: real)
    requires ratio >= 0.8 && n as real >= max as real * ratio
    ensures n >= max * 4 / 5
  {
    var m := max as real;
    assert m * ratio >= m * 0.8;
    assert 5.0 * n as real >= 4.0 * m;
  }

  /** With a threshold ratio of at least 0.8 the wrap-around cannot happen. */
  lemma FeeEvictionHitsTarget(p: Pool)
    requires EvictionFires(p) && |p.transactions| < TWO64
    requires p.config.evictionThresholdRatio >= 0.8
    ensures |EvictLowFee(p).transactions| == TargetCount(p.config)
  {
    ThresholdReachesTarget(|p.transactions|, p.config.maxTransactions, p.config.evictionThresholdRatio);
    FeeEvictionLeaves(p);
  }

  /**
   With a ratio between 0.8 and 1, an addition to a pool full by count, or left above its maximum by
   a reconfiguration, finds room by count.
   */
  lemma CountNeverBlocks(p: Pool)
    requires TWO64 > |p.transactions| >= p.config.maxTransactions > 0
    requires 0.8 <= p.config.evictionThresholdRatio <= 1.0
    ensures |MakeRoom(p).transactions| == TargetCount(p.config) < p.config.maxTransactions
  {
    FiresWhenFull(p);
    assert MakeRoom(p) == EvictLowFee(p);
    FeeEvictionHitsTarget(p);
  }

  lemma FiresWhenFull(p: Pool)
    requires |p.transactions| >= p.config.maxTransactions && p.config.evictionThresholdRatio <= 1.0
    ensures EvictionFires(p)
  {
    AtMostItself(|p.transactions| as real, p.config.maxTransactions as real, p.config.evictionThresholdRatio);
  }

  lemma AtMostItself(n: real, m: real, ratio: real)
    requires n >= m >= 0.0 && ratio <= 1.0
    ensures n >= m * ratio
  {
    assert m * ratio <= m * 1.0;
  }

  // ----- Ageing -----

  /** The latest clock reading of the run. */
  function ClockAfter(ops: seq<Op>): nat {
    if ops == [] then 0
    else
      match ops[|ops| - 1]
      case AddOp(_, _, t1) => t1
      case ReplaceOp(_, _, t1) => t1
      case EvictExpiredOp(now) => now
      case _ => ClockAfter(ops[..|ops| - 1])
  }

  /** No clock reading of the run is earlier than one before it. */
  predicate MonotoneClock(ops: seq<Op>) {
    ops == [] ||
    (MonotoneClock(ops[..|ops| - 1]) &&
     match ops[|ops| - 1]
     case AddOp(_, t0, t1) => ClockAfter(ops[..|ops| - 1]) <= t0 <= t1
     case ReplaceOp(_, t0, t1) => ClockAfter(ops[..|ops| - 1]) <= t0 <= t1
     case EvictExpiredOp(now) => ClockAfter(ops[..|ops| - 1]) <= now
     case _ => true)
  }

  predicate InNonceOrder(e: Entry, f: Entry) {
    e.tx.from == f.tx.from && e.tx.nonce < f.tx.nonce ==> e.added <= f.added
  }

  /** The transactions of one sender entered the pool in nonce order, none later than `clock`. */
  ghost predicate TimeOrdered(txs: map<Hash, Entry>, clock: nat) {
    && (forall h :: h in txs ==> txs[h].added <= clock)
    && (forall g, h :: g in txs && h in txs ==> InNonceOrder(txs[g], txs[h]))
  }

  lemma NewestKeepsTimeOrder(p: Pool, h: Hash, e: Entry, clock: nat, now: nat)
    requires Listed(p.transactions, p.nonces) && NonceIsNext(p, e.tx)
    requires TimeOrdered(p.transactions, clock) && clock <= e.added <= now
    ensures TimeOrdered(p.transactions[h := e], now)
  {
    forall g | g in p.transactions
      ensures InNonceOrder(e, p.transactions[g])
    {
      assert Slot(p.nonces, p.transactions[g].tx.from, p.transactions[g].tx.nonce) == Some(g);
    }
  }

  lemma SweptTimeOrdered(txs: map<Hash, Entry>, hs: set<Hash>, clock: nat, now: nat)
    requires TimeOrdered(txs, clock) && clock <= now
    ensures TimeOrdered(txs, now) && TimeOrdered(txs - hs, now)
  {
  }

  lemma AddTimeOrdered(p: Pool, tx: TransactionData, t0: U64, t1: U64, hashOf: HashFn, clock: nat)
    requires Listed(p.transactions, p.nonces) && TimeOrdered(p.transactions, clock) && clock <= t0 <= t1
    ensures TimeOrdered(Add(p, tx, t0, t1, hashOf).0.transactions, t1)
  {
    hide Listed, Score, RemoveSet, Evicted, IsFull;
    AddCases(p, tx, t0, t1, hashOf);
    RoomIsSweep(p);
    RoomListed(p, tx);
    SweptTimeOrdered(p.transactions, Swept(p), clock, t1);
    if Add(p, tx, t0, t1, hashOf).1 == Success {
      SweptTimeOrdered(p.transactions, Swept(p), clock, clock);
      hide TimeOrdered;
      NewestKeepsTimeOrder(MakeRoom(p), hashOf(tx), NewEntry(tx, t0, t1), clock, t1);
    }
  }

  lemma ReplaceTimeOrdered(p: Pool, tx: TransactionData, t0: U64, t1: U64, hashOf: HashFn, clock: nat)
    requires Listed(p.transactions, p.nonces) && TimeOrdered(p.transactions, clock) && clock <= t0 <= t1
    ensures TimeOrdered(Replace(p, tx, t0, t1, hashOf).0.transactions, t1)
  {
    hide Listed;
    if Displaced(p, tx).Some? {
      var prior := Displaced(p, tx).value;
      DropKeepsListed(p.transactions, p.nonces, prior);
      if Replace(p, tx, t0, t1, hashOf).1 == Success {
        NewestKeepsTimeOrder(WithoutOld(p, prior), hashOf(tx), NewEntry(tx, t0, t1), clock, t1);
      }
    }
  }

  lemma StepTimeOrdered(p: Pool, op: Op, hashOf: HashFn, clock: nat, now: nat)
    requires Listed(p.transactions, p.nonces) && TimeOrdered(p.transactions, clock) && clock <= now
    requires op.AddOp? || op.ReplaceOp? ==> clock <= op.t0 <= op.t1 == now
    ensures TimeOrdered(Step(p, op, hashOf).transactions, now)
  {
    match op {
      case AddOp(tx, t0, t1) => AddTimeOrdered(p, tx, t0, t1, hashOf, clock);
      case RemoveOp(h) =>
      case ReplaceOp(tx, t0, t1) => ReplaceTimeOrdered(p, tx, t0, t1, hashOf, clock);
      case EvictExpiredOp(t) => RemoveSetContents(p, Expired(p.transactions, t));
      case EvictLowFeeOp => RemoveSetContents(p, Evicted(p));
      case ClearOp =>
      case SetConfigOp(_) =>
    }
  }

  /**
   With a clock that does not go back, nonce order and time order agree for each sender in every
   reachable pool, although an eviction can run between nonce validation and insertion, and whatever
   the hash function: colliding replacements do not disturb it.
   */
  lemma {:induction false} TimeOrderedOverRuns(config: Config, ops: seq<Op>, hashOf: HashFn)
    requires MonotoneClock(ops)
    ensures TimeOrdered(Run(EmptyPool(config), ops, hashOf).transactions, ClockAfter(ops))
  {
    if ops != [] {
      var init := ops[..|ops| - 1];
      TimeOrderedOverRuns(config, init, hashOf);
      EmptyListed(config);
      ListedOverRuns(EmptyPool(config), init, hashOf);
      StepTimeOrdered(Run(EmptyPool(config), init, hashOf), ops[|ops| - 1], hashOf, ClockAfter(init), ClockAfter(ops));
    }
  }

  /** Ages are unsigned: an entry is also swept when the clock reads earlier than its timestamp. */
  lemma ExpiredIff(e: Entry, now: U64)
    ensures IsExpired(e, now) <==>
            now > e.added + MAX_AGE_SECONDS || (now < e.added && e.added - now < TWO64 - MAX_AGE_SECONDS)
  {
    UnsignedDifference(now, e.added);
  }

  /** An age sweep removes exactly what is older than 3600 s, and of each sender only its lowest nonces. */
  lemma SweepTakesOldest(p: Pool, now: U64, clock: nat, gone: Hash, kept: Hash)
    requires Listed(p.transactions, p.nonces) && TimeOrdered(p.transactions, clock) && clock <= now
    requires gone in p.transactions && kept in p.transactions
    ensures kept in EvictExpired(p, now).transactions <==> now - p.transactions[kept].added <= MAX_AGE_SECONDS
    ensures gone !in EvictExpired(p, now).transactions && kept in EvictExpired(p, now).transactions &&
            p.transactions[gone].tx.from == p.transactions[kept].tx.from ==>
            p.transactions[gone].tx.nonce < p.transactions[kept].tx.nonce
  {
    RemoveSetContents(p, Expired(p.transactions, now));
    ExpiredIff(p.transactions[kept], now);
    ExpiredIff(p.transactions[gone], now);
    assert InNonceOrder(p.transactions[kept], p.transactions[gone]);
  }

  /** So it is with the sweep of every reachable pool, whatever the hash function. */
  lemma SweepTakesOldestOverRuns(config: Config, ops: seq<Op>, hashOf: HashFn, now: U64, gone: Hash, kept: Hash)
    requires MonotoneClock(ops) && ClockAfter(ops) <= now
    requires var txs := Run(EmptyPool(config), ops, hashOf).transactions; gone in txs && kept in txs
    ensures var p := Run(EmptyPool(config), ops, hashOf);
            var left := EvictExpired(p, now).transactions;
            && (kept in left <==> now - p.transactions[kept].added <= MAX_AGE_SECONDS)
            && (gone !in left && kept in left && p.transactions[gone].tx.from == p.transactions[kept].tx.from ==>
                p.transactions[gone].tx.nonce < p.transactions[kept].tx.nonce)
  {
    hide MempoolSpec.Run, MonotoneClock, ClockAfter, Listed, TimeOrdered, EvictExpired;
    EmptyListed(config);
    ListedOverRuns(EmptyPool(config), ops, hashOf);
    TimeOrderedOverRuns(config, ops, hashOf);
    SweepTakesOldest(Run(EmptyPool(config), ops, hashOf), now, ClockAfter(ops), gone, kept);
  }

  // ----- The replacement ratchet -----

  /** The fee of the transaction pooled under a sender and nonce. */
  ghost function SlotFee(p: Pool, a: Address, n: U64): Option<U64> {
    if Occupied(p.transactions, a, n) then Some(p.transactions[Occupant(p.transactions, a, n)].tx.gasPrice) else None
  }

  lemma FeeOfOccupant(p: Pool, h: Hash, a: Address, n: U64)
    requires Listed(p.transactions, p.nonces) && SitsAt(p.transactions, h, a, n)
    ensures SlotFee(p, a, n) == Some(p.transactions[h].tx.gasPrice)
  {
    SlotsAreExclusive(p.transactions, p.nonces, Occupant(p.transactions, a, n), h);
  }

  ghost predicate Raises(p: Pool, op: Op, a: Address, n: U64, hashOf: HashFn) {
    Succeeds(p, op, hashOf) && op.tx.from == a && op.tx.nonce == n
  }

  /** Whatever still sits in the slot after a step that put nothing there sat there before. */
  lemma SameOccupant(p: Pool, p': Pool, a: Address, n: U64)
    requires Listed(p.transactions, p.nonces) && Listed(p'.transactions, p'.nonces)
    requires SlotFee(p', a, n).Some?
    requires forall h :: SitsAt(p'.transactions, h, a, n) ==> h in p.transactions && p.transactions[h] == p'.transactions[h]
    ensures SlotFee(p', a, n) == SlotFee(p, a, n)
  {
    var h := Occupant(p'.transactions, a, n);
    FeeOfOccupant(p', h, a, n);
    FeeOfOccupant(p, h, a, n);
  }

  lemma AddKeepsFee(p: Pool, op: Op, a: Address, n: U64, hashOf: HashFn)
    requires op.AddOp? && Listed(p.transactions, p.nonces)
    requires SlotFee(p, a, n).Some? && SlotFee(Step(p, op, hashOf), a, n).Some?
    ensures SlotFee(Step(p, op, hashOf), a, n) == SlotFee(p, a, n)
  {
    StepListed(p, op, hashOf);
    AddCases(p, op.tx, op.t0, op.t1, hashOf);
    RoomIsSweep(p);
    var p' := Step(p, op, hashOf);
    assert Slot(p.nonces, a, n) == Some(Occupant(p.transactions, a, n));
    hide Listed, Add, IsFull, RemoveSet, SlotFee, Evicted;
    forall h | SitsAt(p'.transactions, h, a, n)
      ensures h in p.transactions && p.transactions[h] == p'.transactions[h]
    {
      if p' != p && p' != MakeRoom(p) {
        assert a == op.tx.from ==> n < op.tx.nonce;
      }
    }
    SameOccupant(p, p', a, n);
  }

  lemma ReplaceKeepsFee(p: Pool, op: Op, a: Address, n: U64, hashOf: HashFn)
    requires op.ReplaceOp? && Listed(p.transactions, p.nonces)
    requires SlotFee(Step(p, op, hashOf), a, n).Some?
    requires !Raises(p, op, a, n, hashOf)
    ensures SlotFee(Step(p, op, hashOf), a, n) == SlotFee(p, a, n)
  {
    hide Listed, SlotFee, Validates, Underpriced;
    StepListed(p, op, hashOf);
    SameOccupant(p, Step(p, op, hashOf), a, n);
  }

  lemma SweepKeepsFee(p: Pool, hs: set<Hash>, a: Address, n: U64)
    requires Listed(p.transactions, p.nonces)
    requires SlotFee(RemoveSet(p, hs), a, n).Some?
    ensures SlotFee(RemoveSet(p, hs), a, n) == SlotFee(p, a, n)
  {
    hide Listed, SlotFee, RemoveSet;
    RemoveSetListed(p, hs);
    RemoveSetContents(p, hs);
    SameOccupant(p, RemoveSet(p, hs), a, n);
  }

  lemma RemoveKeepsFee(p: Pool, h: Hash, a: Address, n: U64)
    requires Listed(p.transactions, p.nonces)
    requires SlotFee(Remove(p, h), a, n).Some?
    ensures SlotFee(Remove(p, h), a, n) == SlotFee(p, a, n)
  {
    hide Listed, SlotFee;
    RemoveKeepsListed(p, h);
    SameOccupant(p, Remove(p, h), a, n);
  }

  lemma ReplaceRaisesFee(p: Pool, op: Op, hashOf: HashFn)
    requires Succeeds(p, op, hashOf) && Listed(p.transactions, p.nonces)
    ensures SlotFee(p, op.tx.from, op.tx.nonce).Some? && SlotFee(Step(p, op, hashOf), op.tx.from, op.tx.nonce).Some?
    ensures 10 * SlotFee(Step(p, op, hashOf), op.tx.from, op.tx.nonce).value
         >= 11 * SlotFee(p, op.tx.from, op.tx.nonce).value
  {
    hide Listed, SlotFee, Validates;
    DisplacedSits(p, op.tx, op.t0, op.t1, hashOf);
    StepListed(p, op, hashOf);
    FeeOfOccupant(p, Displaced(p, op.tx).value, op.tx.from, op.tx.nonce);
    FeeOfOccupant(Step(p, op, hashOf), hashOf(op.tx), op.tx.from, op.tx.nonce);
  }

  lemma StepRatchet(p: Pool, op: Op, a: Address, n: U64, hashOf: HashFn)
    requires Listed(p.transactions, p.nonces)
    requires SlotFee(p, a, n).Some? && SlotFee(Step(p, op, hashOf), a, n).Some?
    ensures if Raises(p, op, a, n, hashOf)
            then 10 * SlotFee(Step(p, op, hashOf), a, n).value >= 11 * SlotFee(p, a, n).value
            else SlotFee(Step(p, op, hashOf), a, n) == SlotFee(p, a, n)
  {
    hide Listed, Add, Replace, Remove, RemoveSet, Evicted, Expired;
    match op {
      case AddOp(_, _, _) => AddKeepsFee(p, op, a, n, hashOf);
      case RemoveOp(h) => RemoveKeepsFee(p, h, a, n);
      case ReplaceOp(tx, t0, t1) =>
        if Raises(p, op, a, n, hashOf) {
          ReplaceRaisesFee(p, op, hashOf);
        } else {
          ReplaceKeepsFee(p, op, a, n, hashOf);
        }
      case EvictExpiredOp(now) =>
        SweepKeepsFee(p, Expired(p.transactions, now), a, n);
      case EvictLowFeeOp =>
        SweepKeepsFee(p, Evicted(p), a, n);
      case SetConfigOp(_) =>
        ConfigKeepsFee(p, op.config, a, n);
      case ClearOp =>
    }
  }

  lemma ConfigKeepsFee(p: Pool, config: Config, a: Address, n: U64)
    requires Listed(p.transactions, p.nonces) && SlotFee(p.(config := config), a, n).Some?
    ensures SlotFee(p.(config := config), a, n) == SlotFee(p, a, n)
  {
    hide SlotFee;
    SameOccupant(p, p.(config := config), a, n);
  }

  /** Underpriced means below 1.1 times the old fee. */
  lemma UnderpricedIff(previous: TransactionData, tx: TransactionData)
    ensures Underpriced(previous, tx) <==> tx.gasPrice as real < previous.gasPrice as real * 1.1
  {
    var x: nat, y: nat := tx.gasPrice, previous.gasPrice;
    assert 10 * x < 11 * y <==> 10.0 * x as real < 11.0 * y as real;
  }

  /** The slot holds some transaction in every state of the run. */
  ghost predicate OccupiedThroughout(p: Pool, ops: seq<Op>, a: Address, n: U64, hashOf: HashFn) {
    SlotFee(Run(p, ops, hashOf), a, n).Some? &&
    (ops == [] || OccupiedThroughout(p, ops[..|ops| - 1], a, n, hashOf))
  }

  /** The number of replacements of this slot that went through. */
  ghost function Raised(p: Pool, ops: seq<Op>, a: Address, n: U64, hashOf: HashFn): nat {
    if ops == [] then 0
    else
      Raised(p, ops[..|ops| - 1], a, n, hashOf)
      + if Raises(Run(p, ops[..|ops| - 1], hashOf), ops[|ops| - 1], a, n, hashOf) then 1 else 0
  }

  lemma RatchetArithmetic(start: nat, before: nat, after: nat, x: nat, y: nat)
    requires before * x >= start * y && 10 * after >= 11 * before
    ensures after * (10 * x) >= start * (11 * y)
  {
    MulMonotone(11 * before, 10 * after, x);
    assert after * (10 * x) == (10 * after) * x;
    assert (11 * before) * x == 11 * (before * x);
    assert start * (11 * y) == 11 * (start * y);
  }

  /** `fee` has grown to `fee'` by at least (11/10)^k. */
  predicate GrownBy(fee: nat, fee': nat, k: nat) {
    fee' * Pow(10, k) >= fee * Pow(11, k)
  }

  lemma GrownByOneMore(start: nat, before: nat, after: nat, k: nat)
    requires GrownBy(start, before, k) && 10 * after >= 11 * before
    ensures GrownBy(start, after, k + 1)
  {
    RatchetArithmetic(start, before, after, Pow(10, k), Pow(11, k));
  }

  /** What the run predicates say of the last step. */
  lemma LastStep(p: Pool, ops: seq<Op>, init: seq<Op>, q: Pool, op: Op, a: Address, n: U64, hashOf: HashFn)
    requires ops != [] && init == ops[..|ops| - 1] && q == Run(p, init, hashOf) && op == ops[|ops| - 1]
    requires OccupiedThroughout(p, ops, a, n, hashOf)
    ensures Run(p, ops, hashOf) == Step(q, op, hashOf)
    ensures OccupiedThroughout(p, init, a, n, hashOf)
    ensures SlotFee(q, a, n).Some? && SlotFee(Step(q, op, hashOf), a, n).Some?
    ensures Raised(p, ops, a, n, hashOf)
         == Raised(p, init, a, n, hashOf) + if Raises(q, op, a, n, hashOf) then 1 else 0
  {
    hide Step, SlotFee, Raises;
  }

  /**
   After `k` successful replacements of one slot its fee has grown by at least (11/10)^k, whatever
   the hash function. Every reachable pool is `Listed`.
   */
  lemma {:induction false} FeeRatchet(p: Pool, ops: seq<Op>, a: Address, n: U64, hashOf: HashFn)
    requires Listed(p.transactions, p.nonces) && OccupiedThroughout(p, ops, a, n, hashOf)
    ensures SlotFee(p, a, n).Some? && SlotFee(Run(p, ops, hashOf), a, n).Some?
    ensures GrownBy(SlotFee(p, a, n).value, SlotFee(Run(p, ops, hashOf), a, n).value, Raised(p, ops, a, n, hashOf))
  {
    hide Step, Listed, SlotFee, Raises;
    if ops != [] {
      var init := ops[..|ops| - 1];
      var q, op := Run(p, init, hashOf), ops[|ops| - 1];
      LastStep(p, ops, init, q, op, a, n, hashOf);
      hide MempoolSpec.Run, OccupiedThroughout, Raised, GrownBy;
      FeeRatchet(p, init, a, n, hashOf);
      ListedOverRuns(p, init, hashOf);
      StepRatchet(q, op, a, n, hashOf);
      if Raises(q, op, a, n, hashOf) {
        GrownByOneMore(SlotFee(p, a, n).value, SlotFee(q, a, n).value,
                       SlotFee(Step(q, op, hashOf), a, n).value, Raised(p, init, a, n, hashOf));
      }
    }
  }

  lemma TenMore(k: nat, x: nat)
    ensures (10 + k) * (10 * x) == 10 * ((9 + k) * x) + 10 * x
  {
    assert (10 + k) * (10 * x) == 10 * ((10 + k) * x);
    assert (10 + k) * x == (9 + k) * x + x;
  }

  lemma {:induction false} Bernoulli(k: nat)
    ensures 10 * Pow(11, k) >= (10 + k) * Pow(10, k)
  {
    if k > 0 {
      Bernoulli(k - 1);
      var x, y := Pow(10, k - 1), Pow(11, k - 1);
      assert Pow(10, k) == 10 * x && Pow(11, k) == 11 * y;
      hide Pow;
      MulMonotone(10, 9 + k, x);
      TenMore(k, x);
    }
  }

  lemma OccupantPrice(p: Pool, a: Address, n: U64, hi: nat)
    requires PooledValid(p, hi) && SlotFee(p, a, n).Some?
    ensures 1 <= SlotFee(p, a, n).value <= hi
  {
    assert Pooled(p.transactions[Occupant(p.transactions, a, n)].tx, hi);
  }

  /**
   Hence one slot is replaced at most log(hi / first) / log(1.1) times while no configuration allows
   fees above `hi`, and so at most `10 * (hi - 1)` times.
   */
  lemma ReplacementsAreBounded(p: Pool, ops: seq<Op>, a: Address, n: U64, hashOf: HashFn, hi: nat)
    requires Listed(p.transactions, p.nonces) && OccupiedThroughout(p, ops, a, n, hashOf)
    requires PooledValid(p, hi) && p.config.maxFeePerGas <= hi && FeesCapped(ops, hi)
    ensures SlotFee(p, a, n).Some? && 1 <= SlotFee(p, a, n).value
    ensures GrownBy(SlotFee(p, a, n).value, hi, Raised(p, ops, a, n, hashOf))
    ensures Raised(p, ops, a, n, hashOf) <= 10 * (hi - 1)
  {
    hide MempoolSpec.Run, Raised, Listed, OccupiedThroughout, GrownBy, SlotFee, PooledValid, FeesCapped;
    FeeRatchet(p, ops, a, n, hashOf);
    PooledValidOverRuns(p, ops, hashOf, hi);
    OccupantPrice(p, a, n, hi);
    OccupantPrice(Run(p, ops, hashOf), a, n, hi);
    RatchetBound(SlotFee(p, a, n).value, SlotFee(Run(p, ops, hashOf), a, n).value, hi, Raised(p, ops, a, n, hashOf));
  }

  /**
   In every run with the default highest fee of 1000000, and whatever the hash function, one slot is
   replaced at most 144 times for as long as it stays occupied.
   */
  lemma DefaultFeesBoundReplacements(
      config: Config, before: seq<Op>, ops: seq<Op>, a: Address, n: U64, hashOf: HashFn)
    requires config.maxFeePerGas <= 1_000_000 && FeesCapped(before, 1_000_000) && FeesCapped(ops, 1_000_000)
    requires OccupiedThroughout(Run(EmptyPool(config), before, hashOf), ops, a, n, hashOf)
    ensures Raised(Run(EmptyPool(config), before, hashOf), ops, a, n, hashOf) <= 144
  {
    assert PooledValid(EmptyPool(config), 1_000_000);
    hide MempoolSpec.Run, Raised, OccupiedThroughout, GrownBy, SlotFee, PooledValid, Listed, FeesCapped;
    EmptyListed(config);
    ListedOverRuns(EmptyPool(config), before, hashOf);
    PooledValidOverRuns(EmptyPool(config), before, hashOf, 1_000_000);
    var p := Run(EmptyPool(config), before, hashOf);
    var k := Raised(p, ops, a, n, hashOf);
    ReplacementsAreBounded(p, ops, a, n, hashOf, 1_000_000);
    if k > 144 {
      GrownByFewer(SlotFee(p, a, n).value, 1_000_000, 145, k);
      AtMost144(SlotFee(p, a, n).value);
    }
  }

  /** What cannot grow that far cannot grow further. */
  lemma {:induction false} GrownByFewer(fee: nat, fee': nat, j: nat, k: nat)
    requires j <= k && GrownBy(fee, fee', k)
    ensures GrownBy(fee, fee', j)
  {
    if j < k {
      var x, y := Pow(10, k - 1), Pow(11, k - 1);
      assert fee' * (10 * x) == 10 * (fee' * x);
      assert fee * (11 * y) == 11 * (fee * y);
      GrownByFewer(fee, fee', j, k - 1);
    }
  }

  lemma PowOf145(b: nat, p5: nat)
    requires Pow(b, 5) == p5
    ensures var p10 := p5 * p5; var p20 := p10 * p10; var p40 := p20 * p20;
            Pow(b, 145) == (p5 * p20) * (p40 * (p40 * p40))
  {
    hide Pow;
    PowAdd(b, 5, 5);
    PowAdd(b, 10, 10);
    PowAdd(b, 20, 20);
    PowAdd(b, 40, 40);
    PowAdd(b, 5, 20);
    PowAdd(b, 40, 80);
    PowAdd(b, 25, 120);
  }

  lemma MillionfoldWithin145()
    ensures 1_000_000 * Pow(10, 145) < Pow(11, 145)
  {
    FifthPowers();
    hide Pow;
    PowOf145(10, 100_000);
    PowOf145(11, 161_051);
  }

  lemma FifthPowers()
    ensures Pow(10, 5) == 100_000 && Pow(11, 5) == 161_051
  {
  }

  lemma AtMost144(fee: nat)
    requires fee >= 1
    ensures !GrownBy(fee, 1_000_000, 145)
  {
    hide Pow;
    MillionfoldWithin145();
    MulMonotone(1, fee, Pow(11, 145));
  }

  lemma RatchetBound(first: nat, last: nat, max: nat, k: nat)
    requires 1 <= first && last <= max && GrownBy(first, last, k)
    ensures GrownBy(first, max, k)
    ensures k <= 10 * (max - 1)
  {
    var x, y := Pow(10, k), Pow(11, k);
    Bernoulli(k);
    MulMonotone(last, max, x);
    MulMonotone(1, first, y);
    assert (10 * max) * x == 10 * (max * x);
    assert (10 * max) * x >= (10 + k) * x;
    MulCancel(10 + k, 10 * max, x);
  }

  lemma MulCancel(a: nat, b: nat, x: nat)
    requires x > 0 && a * x <= b * x
    ensures a <= b
  {
    if b < a {
      MulMonotone(b + 1, a, x);
    }
  }
}
