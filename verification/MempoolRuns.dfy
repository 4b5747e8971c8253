/** Theorems about every run of the mempool: the nonce index, the queue and the effect of a replacement. */
module MempoolRuns {
  import opened Bytes
  import opened Results
  import opened Transactions
  import opened MempoolQueue
  import opened MempoolSpec
  import opened MempoolInvariants

  // ----- Adding -----

  /** Sweeping transactions out never makes a validated nonce conflict again. */
  lemma SweptNonceIsNext(p: Pool, hs: set<Hash>, tx: TransactionData)
    requires NonceIsNext(p, tx)
    ensures NonceIsNext(RemoveSet(p, hs), tx)
  {
    forall n: U64 | Slot(RemoveSet(p, hs).nonces, tx.from, n).Some?
      ensures n < tx.nonce
    {
      RemoveSetSlots(p, hs, tx.from, n);
    }
  }

  ghost function Swept(p: Pool): set<Hash> {
    if IsFull(p) then Evicted(p) else {}
  }

  lemma RoomIsSweep(p: Pool)
    ensures MakeRoom(p) == RemoveSet(p, Swept(p))
    ensures MakeRoom(p).config == p.config && MakeRoom(p).transactions == p.transactions - Swept(p)
  {
    RemoveSetContents(p, Swept(p));
  }

  lemma RoomConsistent(p: Pool, tx: TransactionData, hashOf: HashFn)
    requires Consistent(p, hashOf)
    ensures Consistent(MakeRoom(p), hashOf)
    ensures NonceIsNext(p, tx) ==> NonceIsNext(MakeRoom(p), tx)
  {
    RoomIsSweep(p);
    RemoveSetConsistent(p, Swept(p), hashOf);
    if NonceIsNext(p, tx) {
      SweptNonceIsNext(p, Swept(p), tx);
    }
  }

  lemma RoomQueue(p: Pool)
    ensures QueueCovers(p) ==> QueueCovers(MakeRoom(p))
    ensures QueueExact(p) ==> QueueExact(MakeRoom(p))
  {
    RoomIsSweep(p);
    RemoveSetQueue(p, Swept(p));
  }

  /** The three ways an addition can leave the pool. */
  lemma AddCases(p: Pool, tx: TransactionData, t0: U64, t1: U64, hashOf: HashFn)
    ensures var p' := Add(p, tx, t0, t1, hashOf).0;
            || p' == p
            || p' == MakeRoom(p)
            || (&& p' == Insert(MakeRoom(p), hashOf(tx), NewEntry(tx, t0, t1))
                && hashOf(tx) !in p.transactions && Validates(p, tx) && !IsFull(MakeRoom(p)))
  {
  }

  lemma InsertConsistent(p: Pool, e: Entry, hashOf: HashFn)
    requires Consistent(p, hashOf) && hashOf(e.tx) !in p.transactions && NonceIsNext(p, e.tx)
    ensures Consistent(Insert(p, hashOf(e.tx), e), hashOf)
  {
    PutKeepsIndex(p.transactions, p.nonces, hashOf(e.tx), e);
  }

  lemma AddConsistent(p: Pool, tx: TransactionData, t0: U64, t1: U64, hashOf: HashFn)
    requires Consistent(p, hashOf)
    ensures Consistent(Add(p, tx, t0, t1, hashOf).0, hashOf)
  {
    AddCases(p, tx, t0, t1, hashOf);
    RoomIsSweep(p);
    RoomConsistent(p, tx, hashOf);
    if Add(p, tx, t0, t1, hashOf).1 == Success {
      InsertConsistent(MakeRoom(p), NewEntry(tx, t0, t1), hashOf);
    }
  }

  /** The sender has no pooled transaction with this nonce or a later one. */
  ghost predicate ExtendsSender(p: Pool, tx: TransactionData) {
    forall h :: h in p.transactions && p.transactions[h].tx.from == tx.from ==> p.transactions[h].tx.nonce < tx.nonce
  }

  lemma NonceIsNextIff(p: Pool, tx: TransactionData)
    requires IndexAgrees(p.transactions, p.nonces)
    ensures NonceIsNext(p, tx) <==> ExtendsSender(p, tx)
  {
    if NonceIsNext(p, tx) {
      forall h | h in p.transactions && p.transactions[h].tx.from == tx.from
        ensures p.transactions[h].tx.nonce < tx.nonce
      {
        assert Slot(p.nonces, tx.from, p.transactions[h].tx.nonce) == Some(h);
      }
    } else {
      var n: U64 :| Slot(p.nonces, tx.from, n).Some? && n >= tx.nonce;
      assert SitsAt(p.transactions, Slot(p.nonces, tx.from, n).value, tx.from, n);
    }
  }

  /**
   The outcome of an addition, case by case, in terms of the pooled transactions alone: a pooled hash
   or an unacceptable transaction changes nothing; otherwise a pool at one of its limits is swept
   first, and the transaction is entered, and nothing else changed, unless a limit is still reached.
   */
  lemma AddOutcome(p: Pool, tx: TransactionData, t0: U64, t1: U64, hashOf: HashFn)
    requires IndexAgrees(p.transactions, p.nonces)
    ensures var (p', error) := Add(p, tx, t0, t1, hashOf);
            if hashOf(tx) in p.transactions then (p', error) == (p, TransactionExists)
            else if !(IsValid(tx) && FeeInRange(p.config, tx) && !IsTooLarge(tx) && ExtendsSender(p, tx)) then
              (p', error) == (p, InvalidTransaction)
            else
              var hasRoom := |p.transactions| < p.config.maxTransactions && TotalBytes(p.transactions) < p.config.maxSizeBytes;
              var kept := if hasRoom then p.transactions else EvictLowFee(p).transactions;
              if |kept| < p.config.maxTransactions && TotalBytes(kept) < p.config.maxSizeBytes then
                error == Success && p'.transactions == kept[hashOf(tx) := NewEntry(tx, t0, t1)]
              else error == PoolFull && p'.transactions == kept
  {
    hide TotalBytes, EvictLowFee, Score;
    NonceIsNextIff(p, tx);
    EvictionKeepsConfig(p);
  }

  lemma EvictionKeepsConfig(p: Pool)
    ensures EvictLowFee(p).config == p.config
  {
    RemoveSetContents(p, Evicted(p));
  }

  // ----- Replacing -----

  /** The pooled transaction a replacement would displace. */
  function Displaced(p: Pool, tx: TransactionData): Option<Hash> {
    var slot := Slot(p.nonces, tx.from, tx.nonce);
    if slot.Some? && slot.value in p.transactions then slot else None
  }

  /** The replacement's hash is new to the pool, or is the displaced transaction's own. */
  predicate CollisionFree(p: Pool, tx: TransactionData, hashOf: HashFn) {
    hashOf(tx) in p.transactions ==> Displaced(p, tx) == Some(hashOf(tx))
  }

  /** The old transaction is gone before the new one is refused. */
  ghost predicate FailsLate(p: Pool, tx: TransactionData) {
    && Displaced(p, tx).Some?
    && !Underpriced(p.transactions[Displaced(p, tx).value].tx, tx)
    && !Validates(WithoutOld(p, Displaced(p, tx).value), tx)
  }

  /** Some other transaction of the sender has a higher nonce than the displaced one. */
  ghost predicate HasLaterNonce(p: Pool, tx: TransactionData) {
    exists h :: h in p.transactions && p.transactions[h].tx.from == tx.from && p.transactions[h].tx.nonce > tx.nonce
  }

  lemma NonceIsNextWithoutOld(p: Pool, tx: TransactionData)
    requires IndexAgrees(p.transactions, p.nonces) && Displaced(p, tx).Some?
    ensures NonceIsNext(WithoutOld(p, Displaced(p, tx).value), tx) <==> !HasLaterNonce(p, tx)
  {
    var prior := Displaced(p, tx).value;
    var q := WithoutOld(p, prior);
    assert SitsAt(p.transactions, prior, tx.from, tx.nonce);
    DropKeepsIndex(p.transactions, p.nonces, prior);
    SlotsAfterDrop(p.nonces, tx.from, tx.nonce);
    if HasLaterNonce(p, tx) {
      var h :| h in p.transactions && p.transactions[h].tx.from == tx.from && p.transactions[h].tx.nonce > tx.nonce;
      assert Slot(q.nonces, tx.from, p.transactions[h].tx.nonce) == Some(h);
    } else {
      forall n: U64 | Slot(q.nonces, tx.from, n).Some?
        ensures n < tx.nonce
      {
        var h := Slot(q.nonces, tx.from, n).value;
        assert SitsAt(q.transactions, h, tx.from, n);
      }
    }
  }

  /**
   The outcome of a replacement, case by case, from facts a caller can check beforehand. Nothing
   pooled under the sender and nonce, or too low a fee: no change. A fee out of range, an invalid or
   oversized transaction, or any later nonce of the sender in the pool: the old transaction is lost,
   its queue entry stays. Otherwise exactly that one transaction is exchanged.
   */
  lemma ReplaceOutcome(p: Pool, tx: TransactionData, t0: U64, t1: U64, hashOf: HashFn)
    requires IndexAgrees(p.transactions, p.nonces)
    ensures Displaced(p, tx).None? ==> Replace(p, tx, t0, t1, hashOf) == (p, InvalidTransaction)
    ensures Displaced(p, tx).Some? ==>
              var prior := Displaced(p, tx).value;
              var (p', error) := Replace(p, tx, t0, t1, hashOf);
              if Underpriced(p.transactions[prior].tx, tx) then (p', error) == (p, ReplaceUnderpriced)
              else if IsValid(tx) && FeeInRange(p.config, tx) && !IsTooLarge(tx) && !HasLaterNonce(p, tx) then
                error == Success && p'.transactions == (p.transactions - {prior})[hashOf(tx) := NewEntry(tx, t0, t1)]
              else
                error == InvalidTransaction && p'.transactions == p.transactions - {prior} && p'.queue == p.queue
  {
    if Displaced(p, tx).Some? {
      NonceIsNextWithoutOld(p, tx);
    }
  }

  lemma CollisionFreeKeepsIndex(p: Pool, tx: TransactionData, t0: U64, t1: U64, hashOf: HashFn)
    requires Consistent(p, hashOf) && Replace(p, tx, t0, t1, hashOf).1 == Success
    requires CollisionFree(p, tx, hashOf)
    ensures Consistent(Replace(p, tx, t0, t1, hashOf).0, hashOf)
  {
    var prior := Displaced(p, tx).value;
    var q := WithoutOld(p, prior);
    assert SitsAt(p.transactions, prior, tx.from, tx.nonce);
    DropKeepsIndex(p.transactions, p.nonces, prior);
    SlotsAfterDrop(p.nonces, tx.from, tx.nonce);
    PutKeepsIndex(q.transactions, q.nonces, hashOf(tx), NewEntry(tx, t0, t1));
  }

  lemma CollisionBreaksIndex(p: Pool, tx: TransactionData, t0: U64, t1: U64, hashOf: HashFn)
    requires IndexAgrees(p.transactions, p.nonces) && Replace(p, tx, t0, t1, hashOf).1 == Success
    requires !CollisionFree(p, tx, hashOf)
    ensures !IndexAgrees(Replace(p, tx, t0, t1, hashOf).0.transactions, Replace(p, tx, t0, t1, hashOf).0.nonces)
  {
    var h, p' := hashOf(tx), Replace(p, tx, t0, t1, hashOf).0;
    assert SitsAt(p.transactions, Displaced(p, tx).value, tx.from, tx.nonce);
    SlotsAfterDrop(p.nonces, tx.from, tx.nonce);
    SlotsAfterUpdate(DropSlot(p.nonces, tx.from, tx.nonce), tx.from, tx.nonce, h);
    var other := p.transactions[h].tx;
    assert Slot(p'.nonces, other.from, other.nonce) == Some(h);
    assert !SitsAt(p'.transactions, h, other.from, other.nonce);
  }

  /**
   A replacement whose hash is already pooled under another nonce overwrites that entry. So a
   successful replacement keeps the index exact if and only if there is no such collision.
   */
  lemma ReplaceConsistentIff(p: Pool, tx: TransactionData, t0: U64, t1: U64, hashOf: HashFn)
    requires Consistent(p, hashOf) && Replace(p, tx, t0, t1, hashOf).1 == Success
    ensures Consistent(Replace(p, tx, t0, t1, hashOf).0, hashOf) <==> CollisionFree(p, tx, hashOf)
  {
    if CollisionFree(p, tx, hashOf) {
      CollisionFreeKeepsIndex(p, tx, t0, t1, hashOf);
    } else {
      CollisionBreaksIndex(p, tx, t0, t1, hashOf);
    }
  }

  lemma ReplaceConsistent(p: Pool, tx: TransactionData, t0: U64, t1: U64, hashOf: HashFn)
    requires Consistent(p, hashOf) && CollisionFree(p, tx, hashOf)
    ensures Consistent(Replace(p, tx, t0, t1, hashOf).0, hashOf)
  {
    if Replace(p, tx, t0, t1, hashOf).1 == Success {
      ReplaceConsistentIff(p, tx, t0, t1, hashOf);
    } else if FailsLate(p, tx) {
      DropKeepsIndex(p.transactions, p.nonces, Displaced(p, tx).value);
    }
  }

  // ----- Every pooled transaction is listed, in every run -----

  lemma RoomListed(p: Pool, tx: TransactionData)
    requires Listed(p.transactions, p.nonces)
    ensures Listed(MakeRoom(p).transactions, MakeRoom(p).nonces)
    ensures NonceIsNext(p, tx) ==> NonceIsNext(MakeRoom(p), tx)
  {
    RoomIsSweep(p);
    RemoveSetListed(p, Swept(p));
    if NonceIsNext(p, tx) {
      SweptNonceIsNext(p, Swept(p), tx);
    }
  }

  lemma AddListed(p: Pool, tx: TransactionData, t0: U64, t1: U64, hashOf: HashFn)
    requires Listed(p.transactions, p.nonces)
    ensures var p' := Add(p, tx, t0, t1, hashOf).0; Listed(p'.transactions, p'.nonces)
  {
    hide Listed;
    var room := MakeRoom(p);
    AddCases(p, tx, t0, t1, hashOf);
    RoomListed(p, tx);
    if Add(p, tx, t0, t1, hashOf).1 == Success {
      PutKeepsListed(room.transactions, room.nonces, hashOf(tx), NewEntry(tx, t0, t1));
    }
  }

  /** A replacement succeeds only when the transaction its slot names sits there. */
  lemma DisplacedSits(p: Pool, tx: TransactionData, t0: U64, t1: U64, hashOf: HashFn)
    requires Replace(p, tx, t0, t1, hashOf).1 == Success
    ensures Displaced(p, tx).Some? && SitsAt(p.transactions, Displaced(p, tx).value, tx.from, tx.nonce)
    ensures Slot(WithoutOld(p, Displaced(p, tx).value).nonces, tx.from, tx.nonce).None?
  {
    var prior := p.transactions[Displaced(p, tx).value].tx;
    SlotsAfterDrop(p.nonces, prior.from, prior.nonce);
    assert NonceIsNext(WithoutOld(p, Displaced(p, tx).value), tx);
  }

  lemma ReplaceListed(p: Pool, tx: TransactionData, t0: U64, t1: U64, hashOf: HashFn)
    requires Listed(p.transactions, p.nonces)
    ensures var p' := Replace(p, tx, t0, t1, hashOf).0; Listed(p'.transactions, p'.nonces)
  {
    hide Listed, Validates, Underpriced;
    if Displaced(p, tx).Some? {
      var prior := Displaced(p, tx).value;
      var q := WithoutOld(p, prior);
      DropKeepsListed(p.transactions, p.nonces, prior);
      if Replace(p, tx, t0, t1, hashOf).1 == Success {
        DisplacedSits(p, tx, t0, t1, hashOf);
        PutKeepsListed(q.transactions, q.nonces, hashOf(tx), NewEntry(tx, t0, t1));
      }
    }
  }

  lemma StepListed(p: Pool, op: Op, hashOf: HashFn)
    requires Listed(p.transactions, p.nonces)
    ensures Listed(Step(p, op, hashOf).transactions, Step(p, op, hashOf).nonces)
  {
    hide Add, Replace, Remove, RemoveSet, Evicted, Expired;
    match op {
      case AddOp(tx, t0, t1) => AddListed(p, tx, t0, t1, hashOf);
      case RemoveOp(h) => RemoveKeepsListed(p, h);
      case ReplaceOp(tx, t0, t1) => ReplaceListed(p, tx, t0, t1, hashOf);
      case EvictExpiredOp(now) => RemoveSetListed(p, Expired(p.transactions, now));
      case EvictLowFeeOp => RemoveSetListed(p, Evicted(p));
      case ClearOp =>
      case SetConfigOp(_) =>
    }
  }

  /** In every run, whatever the hash function, every pooled transaction is listed under its sender and nonce. */
  lemma {:induction false} ListedOverRuns(p: Pool, ops: seq<Op>, hashOf: HashFn)
    requires Listed(p.transactions, p.nonces)
    ensures Listed(Run(p, ops, hashOf).transactions, Run(p, ops, hashOf).nonces)
  {
    hide Listed, Step;
    if ops != [] {
      ListedOverRuns(p, ops[..|ops| - 1], hashOf);
      StepListed(Run(p, ops[..|ops| - 1], hashOf), ops[|ops| - 1], hashOf);
    }
  }

  /** In every run, whatever the hash function, no two pooled transactions share a sender and nonce. */
  lemma OneOccupantOverRuns(config: Config, ops: seq<Op>, hashOf: HashFn, g: Hash, h: Hash)
    requires var txs := Run(EmptyPool(config), ops, hashOf).transactions;
             g in txs && h in txs && txs[g].tx.from == txs[h].tx.from && txs[g].tx.nonce == txs[h].tx.nonce
    ensures g == h
  {
    hide MempoolSpec.Run, Listed;
    EmptyListed(config);
    ListedOverRuns(EmptyPool(config), ops, hashOf);
    var p := Run(EmptyPool(config), ops, hashOf);
    SlotsAreExclusive(p.transactions, p.nonces, g, h);
  }

  lemma EmptyListed(config: Config)
    ensures Listed(EmptyPool(config).transactions, EmptyPool(config).nonces)
  {
  }

  // ----- The index over runs -----

  ghost predicate NoCollisions(p: Pool, ops: seq<Op>, hashOf: HashFn) {
    ops == [] ||
    (NoCollisions(p, ops[..|ops| - 1], hashOf) &&
     (ops[|ops| - 1].ReplaceOp? ==> CollisionFree(Run(p, ops[..|ops| - 1], hashOf), ops[|ops| - 1].tx, hashOf)))
  }

  lemma StepConsistent(p: Pool, op: Op, hashOf: HashFn)
    requires Consistent(p, hashOf)
    requires op.ReplaceOp? ==> CollisionFree(p, op.tx, hashOf)
    ensures Consistent(Step(p, op, hashOf), hashOf)
  {
    match op {
      case AddOp(tx, t0, t1) => AddConsistent(p, tx, t0, t1, hashOf);
      case RemoveOp(h) => RemoveKeepsIndex(p, h);
      case ReplaceOp(tx, t0, t1) => ReplaceConsistent(p, tx, t0, t1, hashOf);
      case EvictExpiredOp(now) => RemoveSetConsistent(p, Expired(p.transactions, now), hashOf);
      case EvictLowFeeOp => RemoveSetConsistent(p, Evicted(p), hashOf);
      case ClearOp =>
      case SetConfigOp(_) =>
    }
  }

  /** In every run without colliding replacements the nonce index is the exact inverse of the pool. */
  lemma {:induction false} IndexExactOverRuns(config: Config, ops: seq<Op>, hashOf: HashFn)
    requires NoCollisions(EmptyPool(config), ops, hashOf)
    ensures Consistent(Run(EmptyPool(config), ops, hashOf), hashOf)
  {
    if ops != [] {
      IndexExactOverRuns(config, ops[..|ops| - 1], hashOf);
      StepConsistent(Run(EmptyPool(config), ops[..|ops| - 1], hashOf), ops[|ops| - 1], hashOf);
    }
  }

  function SubmittedBy(op: Op): set<TransactionData> {
    if op.AddOp? || op.ReplaceOp? then {op.tx} else {}
  }

  /** The transactions offered to the pool in a run. */
  function Submitted(ops: seq<Op>): set<TransactionData> {
    if ops == [] then {} else Submitted(ops[..|ops| - 1]) + SubmittedBy(ops[|ops| - 1])
  }

  ghost predicate DrawnFrom(p: Pool, txs: set<TransactionData>) {
    forall h :: h in p.transactions ==> p.transactions[h].tx in txs
  }

  lemma StepDrawnFrom(p: Pool, op: Op, hashOf: HashFn, txs: set<TransactionData>)
    requires DrawnFrom(p, txs)
    ensures DrawnFrom(Step(p, op, hashOf), txs + SubmittedBy(op))
  {
    match op {
      case AddOp(tx, t0, t1) => AddDrawnFrom(p, tx, t0, t1, hashOf, txs);
      case EvictExpiredOp(now) => RemoveSetContents(p, Expired(p.transactions, now));
      case EvictLowFeeOp => RemoveSetContents(p, Evicted(p));
      case RemoveOp(_) =>
      case ReplaceOp(tx, t0, t1) => ReplaceDrawnFrom(p, tx, t0, t1, hashOf, txs);
      case ClearOp =>
      case SetConfigOp(_) =>
    }
  }

  lemma AddDrawnFrom(p: Pool, tx: TransactionData, t0: U64, t1: U64, hashOf: HashFn, txs: set<TransactionData>)
    requires DrawnFrom(p, txs)
    ensures DrawnFrom(Add(p, tx, t0, t1, hashOf).0, txs + {tx})
  {
    AddCases(p, tx, t0, t1, hashOf);
    RoomIsSweep(p);
    assert DrawnFrom(MakeRoom(p), txs);
  }

  lemma ReplaceDrawnFrom(p: Pool, tx: TransactionData, t0: U64, t1: U64, hashOf: HashFn, txs: set<TransactionData>)
    requires DrawnFrom(p, txs)
    ensures DrawnFrom(Replace(p, tx, t0, t1, hashOf).0, txs + {tx})
  {
  }

  lemma {:induction false} DrawnFromSubmitted(config: Config, ops: seq<Op>, hashOf: HashFn)
    ensures DrawnFrom(Run(EmptyPool(config), ops, hashOf), Submitted(ops))
  {
    if ops != [] {
      DrawnFromSubmitted(config, ops[..|ops| - 1], hashOf);
      StepDrawnFrom(Run(EmptyPool(config), ops[..|ops| - 1], hashOf), ops[|ops| - 1], hashOf, Submitted(ops[..|ops| - 1]));
    }
  }

  /** Distinct transactions of the set have distinct hashes. */
  ghost predicate DistinctHashes(txs: set<TransactionData>, hashOf: HashFn) {
    forall x, y :: x in txs && y in txs && hashOf(x) == hashOf(y) ==> x == y
  }

  lemma DistinctIsCollisionFree(p: Pool, tx: TransactionData, hashOf: HashFn, txs: set<TransactionData>)
    requires DistinctHashes(txs, hashOf) && Consistent(p, hashOf) && DrawnFrom(p, txs) && tx in txs
    ensures CollisionFree(p, tx, hashOf)
  {
    var h := hashOf(tx);
    if h in p.transactions {
      assert p.transactions[h].tx == tx;
    }
  }

  /** If no two transactions submitted in the run share a hash, nothing collides and the index stays exact. */
  lemma {:induction false} IndexExactWithDistinctHashes(config: Config, ops: seq<Op>, hashOf: HashFn)
    requires DistinctHashes(Submitted(ops), hashOf)
    ensures NoCollisions(EmptyPool(config), ops, hashOf)
    ensures Consistent(Run(EmptyPool(config), ops, hashOf), hashOf)
  {
    if ops != [] {
      var init, op := ops[..|ops| - 1], ops[|ops| - 1];
      var p := Run(EmptyPool(config), init, hashOf);
      IndexExactWithDistinctHashes(config, init, hashOf);
      DrawnFromSubmitted(config, init, hashOf);
      if op.ReplaceOp? {
        DistinctIsCollisionFree(p, op.tx, hashOf, Submitted(ops));
      }
      StepConsistent(p, op, hashOf);
    }
  }

  // ----- The queue over runs -----

  lemma AddCovers(p: Pool, tx: TransactionData, t0: U64, t1: U64, hashOf: HashFn)
    requires QueueCovers(p)
    ensures QueueCovers(Add(p, tx, t0, t1, hashOf).0)
  {
    AddCases(p, tx, t0, t1, hashOf);
    RoomIsSweep(p);
    RoomQueue(p);
    if Add(p, tx, t0, t1, hashOf).1 == Success {
      InsertCovers(MakeRoom(p), hashOf(tx), NewEntry(tx, t0, t1));
    }
  }

  lemma AddExact(p: Pool, tx: TransactionData, t0: U64, t1: U64, hashOf: HashFn)
    requires QueueExact(p)
    ensures QueueExact(Add(p, tx, t0, t1, hashOf).0)
  {
    AddCases(p, tx, t0, t1, hashOf);
    RoomIsSweep(p);
    RoomQueue(p);
    if Add(p, tx, t0, t1, hashOf).1 == Success {
      InsertExact(MakeRoom(p), hashOf(tx), NewEntry(tx, t0, t1));
    }
  }

  lemma ReplaceQueue(p: Pool, tx: TransactionData, t0: U64, t1: U64, hashOf: HashFn)
    ensures QueueCovers(p) ==> QueueCovers(Replace(p, tx, t0, t1, hashOf).0)
    ensures QueueExact(p) && !FailsLate(p, tx) ==> QueueExact(Replace(p, tx, t0, t1, hashOf).0)
  {
    if Replace(p, tx, t0, t1, hashOf).1 == Success {
      ExactCovers(Replace(p, tx, t0, t1, hashOf).0);
    }
  }

  /** A late failure leaves the displaced transaction's entry behind: the queue is no longer the pool. */
  lemma LateFailureLeavesStaleEntry(p: Pool, tx: TransactionData, t0: U64, t1: U64, hashOf: HashFn)
    requires QueueExact(p) && FailsLate(p, tx)
    ensures !QueueExact(Replace(p, tx, t0, t1, hashOf).0)
  {
    var h, p' := Displaced(p, tx).value, Replace(p, tx, t0, t1, hashOf).0;
    RankedIsRanking(Scores(p.transactions));
    RankedIsRanking(Scores(p'.transactions));
    assert QueueEntryOf(p.transactions, h) in p.queue;
  }

  lemma StepCovers(p: Pool, op: Op, hashOf: HashFn)
    requires QueueCovers(p)
    ensures QueueCovers(Step(p, op, hashOf))
  {
    match op {
      case AddOp(tx, t0, t1) => AddCovers(p, tx, t0, t1, hashOf);
      case RemoveOp(h) => RemoveQueue(p, h);
      case ReplaceOp(tx, t0, t1) => ReplaceQueue(p, tx, t0, t1, hashOf);
      case EvictExpiredOp(now) => RemoveSetQueue(p, Expired(p.transactions, now));
      case EvictLowFeeOp => RemoveSetQueue(p, Evicted(p));
      case ClearOp =>
      case SetConfigOp(_) =>
    }
  }

  /** Exactly the late-failing replacements take the queue away from the pool. */
  lemma StepExactIff(p: Pool, op: Op, hashOf: HashFn)
    requires QueueExact(p)
    ensures QueueExact(Step(p, op, hashOf)) <==> !(op.ReplaceOp? && FailsLate(p, op.tx))
  {
    match op {
      case AddOp(tx, t0, t1) => AddExact(p, tx, t0, t1, hashOf);
      case RemoveOp(h) => RemoveQueue(p, h);
      case ReplaceOp(tx, t0, t1) =>
        ReplaceQueue(p, tx, t0, t1, hashOf);
        if FailsLate(p, tx) {
          LateFailureLeavesStaleEntry(p, tx, t0, t1, hashOf);
        }
      case EvictExpiredOp(now) => RemoveSetQueue(p, Expired(p.transactions, now));
      case EvictLowFeeOp => RemoveSetQueue(p, Evicted(p));
      case ClearOp =>
      case SetConfigOp(_) =>
    }
  }

  /** In every run, each pooled transaction has a queue entry carrying its score. */
  lemma {:induction false} QueueCoversOverRuns(config: Config, ops: seq<Op>, hashOf: HashFn)
    ensures QueueCovers(Run(EmptyPool(config), ops, hashOf))
  {
    if ops != [] {
      QueueCoversOverRuns(config, ops[..|ops| - 1], hashOf);
      StepCovers(Run(EmptyPool(config), ops[..|ops| - 1], hashOf), ops[|ops| - 1], hashOf);
    }
  }

  ghost predicate NoLateFailures(p: Pool, ops: seq<Op>, hashOf: HashFn) {
    ops == [] ||
    (NoLateFailures(p, ops[..|ops| - 1], hashOf) &&
     !(ops[|ops| - 1].ReplaceOp? && FailsLate(Run(p, ops[..|ops| - 1], hashOf), ops[|ops| - 1].tx)))
  }

  /** In every run without late-failing replacements, the queue is exactly the pool, in rank order. */
  lemma {:induction false} QueueExactOverRuns(config: Config, ops: seq<Op>, hashOf: HashFn)
    requires NoLateFailures(EmptyPool(config), ops, hashOf)
    ensures QueueExact(Run(EmptyPool(config), ops, hashOf))
  {
    if ops != [] {
      QueueExactOverRuns(config, ops[..|ops| - 1], hashOf);
      StepExactIff(Run(EmptyPool(config), ops[..|ops| - 1], hashOf), ops[|ops| - 1], hashOf);
    }
  }
}
