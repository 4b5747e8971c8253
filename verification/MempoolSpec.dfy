/**
 The mempool's state and what each public call does to it (`mempool/src/mempool_impl.cpp`), as
 functions of the state. Clock readings are arguments: `t0` is the reading stored as the added
 timestamp, `t1` the later reading taken while the priority is computed.
 */
module MempoolSpec {
  import opened Bytes
  import opened Results
  import opened Transactions
  import opened MempoolQueue

  datatype MempoolError = Success | TransactionExists | InvalidTransaction | PoolFull | ReplaceUnderpriced

  datatype Config = Config(
    maxSizeBytes: U64, maxTransactions: U64, minFeePerGas: U64, maxFeePerGas: U64, evictionThresholdRatio: real)

  datatype Priority = Priority(feePerGas: U64, ageSeconds: U64, sizeBytes: nat)

  /** `TransactionPriority::calculate_score`. */
  function Score(p: Priority): real {
    var ageBonus := 1.0 + p.ageSeconds as real / 3600.0;
    var sizePenalty := p.sizeBytes as real / 1000.0;
    (p.feePerGas as real * ageBonus) / (if sizePenalty > 1.0 then sizePenalty else 1.0)
  }

  /** The score times the size, but at least 1000 bytes, is the fee raised by one part in 3600 per second of age. */
  lemma ScoreLaw(p: Priority)
    ensures Score(p) * (if p.sizeBytes > 1000 then p.sizeBytes as real else 1000.0) * 3600.0
         == p.feePerGas as real * (3600 + p.ageSeconds) as real * 1000.0
  {
    var fee, age: real := p.feePerGas as real, p.ageSeconds as real;
    var penalty := if p.sizeBytes as real / 1000.0 > 1.0 then p.sizeBytes as real / 1000.0 else 1.0;
    assert Score(p) * penalty == fee * (1.0 + age / 3600.0);
    assert penalty * 1000.0 == if p.sizeBytes > 1000 then p.sizeBytes as real else 1000.0;
    assert (1.0 + age / 3600.0) * 3600.0 == 3600.0 + age;
    assert (3600 + p.ageSeconds) as real == 3600.0 + age;
    Regroup(Score(p), penalty, fee, 1.0 + age / 3600.0);
  }

  lemma Regroup(s: real, q: real, f: real, b: real)
    requires s * q == f * b
    ensures s * (q * 1000.0) * 3600.0 == f * (b * 3600.0) * 1000.0
  {
    assert s * (q * 1000.0) * 3600.0 == (s * q) * 1000.0 * 3600.0;
    assert f * (b * 3600.0) * 1000.0 == (f * b) * 1000.0 * 3600.0;
  }

  datatype Entry = Entry(tx: TransactionData, priority: Priority, added: U64)

  type Index = map<Address, map<U64, Hash>>

  datatype Pool = Pool(config: Config, transactions: map<Hash, Entry>, nonces: Index, queue: seq<QueueEntry>)

  /** The transaction hash, opaque here. */
  type HashFn = TransactionData -> Hash

  const MAX_AGE_SECONDS: nat := 3600

  function EmptyPool(config: Config): Pool {
    Pool(config, map[], map[], [])
  }

  // ----- The nonce index -----

  function Slot(nonces: Index, a: Address, n: U64): Option<Hash> {
    if a in nonces && n in nonces[a] then Some(nonces[a][n]) else None
  }

  /** `update_account_nonce`. */
  function UpdateSlot(nonces: Index, a: Address, n: U64, h: Hash): Index {
    var inner: map<U64, Hash> := if a in nonces then nonces[a] else map[];
    nonces[a := inner[n := h]]
  }

  /** `remove_account_nonce`: an account left without nonces is erased. */
  function DropSlot(nonces: Index, a: Address, n: U64): Index {
    if a !in nonces then nonces
    else
      var inner := nonces[a] - {n};
      if inner == map[] then nonces - {a} else nonces[a := inner]
  }

  // ----- Scores and sizes -----

  function Scores(txs: map<Hash, Entry>): (s: map<Hash, real>)
    ensures s.Keys == txs.Keys
  {
    map h | h in txs :: Score(txs[h].priority)
  }

  ghost function TotalBytes(txs: map<Hash, Entry>): nat
    decreases |txs|
  {
    if txs == map[] then 0
    else
      var h :| h in txs;
      assert (txs - {h}).Keys == txs.Keys - {h};
      Size(txs[h].tx) + TotalBytes(txs - {h})
  }

  ghost predicate IsFull(p: Pool) {
    |p.transactions| >= p.config.maxTransactions || TotalBytes(p.transactions) >= p.config.maxSizeBytes
  }

  // ----- Validation -----

  /** `validate_nonce`: no pooled nonce of the sender reaches the new one. */
  ghost predicate NonceIsNext(p: Pool, tx: TransactionData) {
    forall n: U64 :: Slot(p.nonces, tx.from, n).Some? ==> n < tx.nonce
  }

  predicate FeeInRange(config: Config, tx: TransactionData) {
    config.minFeePerGas <= tx.gasPrice <= config.maxFeePerGas
  }

  ghost predicate Validates(p: Pool, tx: TransactionData) {
    IsValid(tx) && FeeInRange(p.config, tx) && NonceIsNext(p, tx) && !IsTooLarge(tx)
  }

  // ----- The operations -----

  function NewEntry(tx: TransactionData, t0: U64, t1: U64): Entry {
    Entry(tx, Priority(tx.gasPrice, Wrap64(t1 - t0), Size(tx)), t0)
  }

  /** A transaction added within one clock reading scores its fee per 1000 bytes, at least 1000 counted, without age bonus. */
  lemma FreshScore(tx: TransactionData, now: U64)
    ensures Score(NewEntry(tx, now, now).priority) * (if Size(tx) > 1000 then Size(tx) as real else 1000.0)
         == tx.gasPrice as real * 1000.0
    ensures NewEntry(tx, now, now).added == now
  {
    ScoreLaw(NewEntry(tx, now, now).priority);
  }

  ghost function Remove(p: Pool, h: Hash): Pool {
    if h !in p.transactions then p
    else
      var tx := p.transactions[h].tx;
      var txs := p.transactions - {h};
      Pool(p.config, txs, DropSlot(p.nonces, tx.from, tx.nonce), Ranked(Scores(txs)))
  }

  /** Removing several hashes one after the other; `RemoveSetStep` shows the order does not matter. */
  ghost function RemoveSet(p: Pool, hs: set<Hash>): Pool {
    if hs == {} then p
    else
      var h :| h in hs;
      Remove(RemoveSet(p, hs - {h}), h)
  }

  /** An unsigned 64-bit age: it wraps when the clock was set back. */
  predicate IsExpired(e: Entry, now: U64) {
    Wrap64(now - e.added) > MAX_AGE_SECONDS
  }

  function Expired(txs: map<Hash, Entry>, now: U64): set<Hash> {
    set h | h in txs && IsExpired(txs[h], now)
  }

  ghost function EvictExpired(p: Pool, now: U64): Pool {
    RemoveSet(p, Expired(p.transactions, now))
  }

  function HashesOf(q: seq<QueueEntry>): set<Hash> {
    set e | e in q :: e.hash
  }

  /** `select_transactions_to_evict`: the `count` lowest-ranked hashes, or all of them. */
  ghost function Lowest(txs: map<Hash, Entry>, count: nat): set<Hash> {
    var ranking := Ranked(Scores(txs));
    HashesOf(ranking[if count < |ranking| then |ranking| - count else 0..])
  }

  function TargetCount(config: Config): nat {
    config.maxTransactions * 4 / 5
  }

  /** The fill level from which `evict_low_fee_transactions` acts. */
  predicate EvictionFires(p: Pool) {
    |p.transactions| as real >= p.config.maxTransactions as real * p.config.evictionThresholdRatio
  }

  /** How many transactions to evict: an unsigned 64-bit difference. */
  function ExcessCount(p: Pool): U64 {
    Wrap64(|p.transactions| - TargetCount(p.config))
  }

  ghost function ToEvict(p: Pool): set<Hash> {
    Lowest(p.transactions, ExcessCount(p))
  }

  /** What a fee eviction takes out. */
  ghost function Evicted(p: Pool): set<Hash> {
    if EvictionFires(p) then ToEvict(p) else {}
  }

  ghost function EvictLowFee(p: Pool): Pool {
    RemoveSet(p, Evicted(p))
  }

  ghost function Insert(p: Pool, h: Hash, e: Entry): Pool {
    Pool(p.config, p.transactions[h := e], UpdateSlot(p.nonces, e.tx.from, e.tx.nonce, h),
         Enqueue(p.queue, QueueEntry(Score(e.priority), h)))
  }

  /** Adding to a full pool first evicts. */
  ghost function MakeRoom(p: Pool): Pool {
    if IsFull(p) then EvictLowFee(p) else p
  }

  ghost function Add(p: Pool, tx: TransactionData, t0: U64, t1: U64, hashOf: HashFn): (Pool, MempoolError) {
    if hashOf(tx) in p.transactions then (p, TransactionExists)
    else if !Validates(p, tx) then (p, InvalidTransaction)
    else if IsFull(MakeRoom(p)) then (MakeRoom(p), PoolFull)
    else (Insert(MakeRoom(p), hashOf(tx), NewEntry(tx, t0, t1)), Success)
  }

  /** `check_replacement_policy`: a new fee below 11/10 of the old one is refused. */
  predicate Underpriced(prior: TransactionData, tx: TransactionData) {
    10 * tx.gasPrice < 11 * prior.gasPrice
  }

  /** The pool between taking the old transaction out and validating the new one. */
  function WithoutOld(p: Pool, h: Hash): Pool
    requires h in p.transactions
  {
    var tx := p.transactions[h].tx;
    p.(transactions := p.transactions - {h}, nonces := DropSlot(p.nonces, tx.from, tx.nonce))
  }

  ghost function PutNew(p: Pool, h: Hash, e: Entry): Pool {
    Pool(p.config, p.transactions[h := e], UpdateSlot(p.nonces, e.tx.from, e.tx.nonce, h),
         Ranked(Scores(p.transactions[h := e])))
  }

  ghost function Replace(p: Pool, tx: TransactionData, t0: U64, t1: U64, hashOf: HashFn): (Pool, MempoolError) {
    var slot := Slot(p.nonces, tx.from, tx.nonce);
    if slot.None? || slot.value !in p.transactions then (p, InvalidTransaction)
    else if Underpriced(p.transactions[slot.value].tx, tx) then (p, ReplaceUnderpriced)
    else if !Validates(WithoutOld(p, slot.value), tx) then (WithoutOld(p, slot.value), InvalidTransaction)
    else (PutNew(WithoutOld(p, slot.value), hashOf(tx), NewEntry(tx, t0, t1)), Success)
  }

  // ----- Steps and runs -----

  datatype Op =
    | AddOp(tx: TransactionData, t0: U64, t1: U64)
    | RemoveOp(hash: Hash)
    | ReplaceOp(tx: TransactionData, t0: U64, t1: U64)
    | EvictExpiredOp(now: U64)
    | EvictLowFeeOp
    | ClearOp
    | SetConfigOp(config: Config)

  ghost function Step(p: Pool, op: Op, hashOf: HashFn): Pool {
    match op
    case AddOp(tx, t0, t1) => Add(p, tx, t0, t1, hashOf).0
    case RemoveOp(h) => Remove(p, h)
    case ReplaceOp(tx, t0, t1) => Replace(p, tx, t0, t1, hashOf).0
    case EvictExpiredOp(now) => EvictExpired(p, now)
    case EvictLowFeeOp => EvictLowFee(p)
    case ClearOp => EmptyPool(p.config)
    case SetConfigOp(config) => p.(config := config)
  }

  ghost function Run(p: Pool, ops: seq<Op>, hashOf: HashFn): Pool {
    if ops == [] then p else Step(Run(p, ops[..|ops| - 1], hashOf), ops[|ops| - 1], hashOf)
  }
}
