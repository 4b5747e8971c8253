/**
 What colliding replacements do to the nonce index. Over every run and for every hash function the
 index is the inverse of the pool plus the slots left dangling by colliding replacements since the
 pool was last cleared.
 */
module MempoolDangling {
  import opened Bytes
  import opened Results
  import opened Transactions
  import opened MempoolSpec
  import opened MempoolInvariants
  import opened MempoolRuns
  import opened MempoolBounds

  /** Slots, by sender and nonce, and the hash each of them wrongly names. */
  type Slots = map<(Address, U64), Hash>

  /** The replacement goes through and takes the hash of a pooled transaction other than the one it displaces. */
  ghost predicate Overwrites(p: Pool, op: Op, hashOf: HashFn) {
    op.ReplaceOp? && Succeeds(p, op, hashOf) && !CollisionFree(p, op.tx, hashOf)
  }

  /** What a step makes of the dangling slots: an overwritten transaction leaves its own behind. */
  ghost function DanglingAfter(p: Pool, op: Op, hashOf: HashFn, dangling: Slots): Slots {
    if op.ClearOp? then map[]
    else if Overwrites(p, op, hashOf) then
      var lost := p.transactions[hashOf(op.tx)].tx;
      dangling[(lost.from, lost.nonce) := hashOf(op.tx)]
    else dangling
  }

  ghost function Dangling(p: Pool, ops: seq<Op>, hashOf: HashFn): Slots {
    if ops == [] then map[]
    else
      var init := ops[..|ops| - 1];
      DanglingAfter(Run(p, init, hashOf), ops[|ops| - 1], hashOf, Dangling(p, init, hashOf))
  }

  /** A dangling slot is set and nobody sits there. */
  ghost predicate Dangles(txs: map<Hash, Entry>, nonces: Index, dangling: Slots) {
    forall a: Address, n: U64 :: (a, n) in dangling ==>
      Slot(nonces, a, n) == Some(dangling[(a, n)]) && !Occupied(txs, a, n)
  }

  /** Any other slot that is set names the transaction that sits there. */
  ghost predicate Named(txs: map<Hash, Entry>, nonces: Index, dangling: Slots) {
    forall a: Address, n: U64 :: Slot(nonces, a, n).Some? && (a, n) !in dangling ==>
      SitsAt(txs, Slot(nonces, a, n).value, a, n)
  }

  predicate NoEmptyAccounts(nonces: Index) {
    forall a :: a in nonces ==> nonces[a] != map[]
  }

  /** The index is the inverse of the pool plus the dangling slots. */
  ghost predicate Accounted(txs: map<Hash, Entry>, nonces: Index, dangling: Slots) {
    Listed(txs, nonces) && Dangles(txs, nonces, dangling) && Named(txs, nonces, dangling) && NoEmptyAccounts(nonces)
  }

  // ----- Dropping and putting -----

  lemma DropAccounts(txs: map<Hash, Entry>, nonces: Index, h: Hash, dangling: Slots)
    requires Accounted(txs, nonces, dangling) && h in txs
    ensures Accounted(txs - {h}, DropSlot(nonces, txs[h].tx.from, txs[h].tx.nonce), dangling)
  {
    var a, n := txs[h].tx.from, txs[h].tx.nonce;
    var nonces' := DropSlot(nonces, a, n);
    DropKeepsListed(txs, nonces, h);
    SlotsAfterDrop(nonces, a, n);
    assert SitsAt(txs, h, a, n);
    forall b: Address, m: U64 | (b, m) in dangling
      ensures Slot(nonces', b, m) == Some(dangling[(b, m)]) && !Occupied(txs - {h}, b, m)
    {
      if g :| SitsAt(txs - {h}, g, b, m) {
        assert SitsAt(txs, g, b, m);
      }
    }
  }

  /** What is put into an empty slot under a pooled hash leaves the slot of that hash dangling. */
  function Left(txs: map<Hash, Entry>, h: Hash, dangling: Slots): Slots {
    if h in txs then dangling[(txs[h].tx.from, txs[h].tx.nonce) := h] else dangling
  }

  lemma PutAccounts(txs: map<Hash, Entry>, nonces: Index, h: Hash, e: Entry, dangling: Slots)
    requires Accounted(txs, nonces, dangling) && Slot(nonces, e.tx.from, e.tx.nonce).None?
    ensures Accounted(txs[h := e], UpdateSlot(nonces, e.tx.from, e.tx.nonce, h), Left(txs, h, dangling))
  {
    PutKeepsListed(txs, nonces, h, e);
    SlotsAfterUpdate(nonces, e.tx.from, e.tx.nonce, h);
    PutDangles(txs, nonces, h, e, dangling);
    PutNames(txs, nonces, h, e, dangling);
  }

  lemma PutDangles(txs: map<Hash, Entry>, nonces: Index, h: Hash, e: Entry, dangling: Slots)
    requires Listed(txs, nonces) && Dangles(txs, nonces, dangling) && Slot(nonces, e.tx.from, e.tx.nonce).None?
    ensures Dangles(txs[h := e], UpdateSlot(nonces, e.tx.from, e.tx.nonce, h), Left(txs, h, dangling))
  {
    var txs', nonces', left := txs[h := e], UpdateSlot(nonces, e.tx.from, e.tx.nonce, h), Left(txs, h, dangling);
    SlotsAfterUpdate(nonces, e.tx.from, e.tx.nonce, h);
    forall a: Address, n: U64 | (a, n) in left
      ensures Slot(nonces', a, n) == Some(left[(a, n)]) && !Occupied(txs', a, n)
    {
      if g :| SitsAt(txs', g, a, n) && g != h {
        assert SitsAt(txs, g, a, n);
      }
    }
  }

  lemma PutNames(txs: map<Hash, Entry>, nonces: Index, h: Hash, e: Entry, dangling: Slots)
    requires Listed(txs, nonces) && Named(txs, nonces, dangling)
    ensures Named(txs[h := e], UpdateSlot(nonces, e.tx.from, e.tx.nonce, h), Left(txs, h, dangling))
  {
    SlotsAfterUpdate(nonces, e.tx.from, e.tx.nonce, h);
  }

  // ----- Steps -----

  ghost predicate Indexed(p: Pool, dangling: Slots) {
    Accounted(p.transactions, p.nonces, dangling)
  }

  lemma RemoveAccounts(p: Pool, h: Hash, dangling: Slots)
    requires Indexed(p, dangling)
    ensures Indexed(Remove(p, h), dangling)
  {
    hide Accounted;
    if h in p.transactions {
      DropAccounts(p.transactions, p.nonces, h, dangling);
    }
  }

  lemma {:induction false} SweepAccounts(p: Pool, hs: set<Hash>, dangling: Slots)
    requires Indexed(p, dangling)
    ensures Indexed(RemoveSet(p, hs), dangling)
  {
    hide Indexed;
    if hs != {} {
      var h :| h in hs;
      RemoveSetStep(p, hs, h);
      SweepAccounts(p, hs - {h}, dangling);
      RemoveAccounts(RemoveSet(p, hs - {h}), h, dangling);
    }
  }

  lemma AddAccounts(p: Pool, tx: TransactionData, t0: U64, t1: U64, hashOf: HashFn, dangling: Slots)
    requires Indexed(p, dangling)
    ensures Indexed(Add(p, tx, t0, t1, hashOf).0, dangling)
  {
    hide Accounted, Evicted, IsFull, Score;
    var room := MakeRoom(p);
    AddCases(p, tx, t0, t1, hashOf);
    RoomIsSweep(p);
    SweepAccounts(p, Swept(p), dangling);
    if Add(p, tx, t0, t1, hashOf).1 == Success {
      SweptNonceIsNext(p, Swept(p), tx);
      PutAccounts(room.transactions, room.nonces, hashOf(tx), NewEntry(tx, t0, t1), dangling);
    }
  }

  lemma ReplaceAccounts(p: Pool, op: Op, hashOf: HashFn, dangling: Slots)
    requires op.ReplaceOp? && Indexed(p, dangling)
    ensures Indexed(Step(p, op, hashOf), DanglingAfter(p, op, hashOf, dangling))
  {
    hide Accounted, Validates, Underpriced, Score;
    if Displaced(p, op.tx).Some? {
      var prior := Displaced(p, op.tx).value;
      var q := WithoutOld(p, prior);
      DropAccounts(p.transactions, p.nonces, prior, dangling);
      if Succeeds(p, op, hashOf) {
        DisplacedSits(p, op.tx, op.t0, op.t1, hashOf);
        PutAccounts(q.transactions, q.nonces, hashOf(op.tx), NewEntry(op.tx, op.t0, op.t1), dangling);
      }
    }
  }

  lemma StepAccounts(p: Pool, op: Op, hashOf: HashFn, dangling: Slots)
    requires Indexed(p, dangling)
    ensures Indexed(Step(p, op, hashOf), DanglingAfter(p, op, hashOf, dangling))
  {
    hide Accounted, Add, Replace, Remove, RemoveSet, Evicted, Expired;
    match op {
      case AddOp(tx, t0, t1) => AddAccounts(p, tx, t0, t1, hashOf, dangling);
      case RemoveOp(h) => RemoveAccounts(p, h, dangling);
      case ReplaceOp(_, _, _) => ReplaceAccounts(p, op, hashOf, dangling);
      case EvictExpiredOp(now) => SweepAccounts(p, Expired(p.transactions, now), dangling);
      case EvictLowFeeOp => SweepAccounts(p, Evicted(p), dangling);
      case ClearOp => EmptyAccounts(p.config);
      case SetConfigOp(_) =>
    }
  }

  lemma EmptyAccounts(config: Config)
    ensures Indexed(EmptyPool(config), map[])
  {
  }

  // ----- Runs -----

  /**
   In every run, whatever the hash function: each pooled transaction is listed under its sender and
   nonce, the dangling slots are set with nobody there, and there is nothing else in the index.
   */
  lemma {:induction false} IndexAccountedOverRuns(config: Config, ops: seq<Op>, hashOf: HashFn)
    ensures Indexed(Run(EmptyPool(config), ops, hashOf), Dangling(EmptyPool(config), ops, hashOf))
  {
    hide Indexed, Step, DanglingAfter;
    var empty := EmptyPool(config);
    if ops == [] {
      EmptyAccounts(config);
    } else {
      var init := ops[..|ops| - 1];
      IndexAccountedOverRuns(config, init, hashOf);
      StepAccounts(Run(empty, init, hashOf), ops[|ops| - 1], hashOf, Dangling(empty, init, hashOf));
    }
  }

  lemma AgreesIffNothingDangles(p: Pool, dangling: Slots)
    requires Indexed(p, dangling)
    ensures IndexAgrees(p.transactions, p.nonces) <==> dangling == map[]
  {
    if dangling != map[] {
      var slot :| slot in dangling;
      assert slot == (slot.0, slot.1);
      DanglingDisagrees(p, dangling, slot.0, slot.1);
    }
  }

  lemma DanglingDisagrees(p: Pool, dangling: Slots, a: Address, n: U64)
    requires Indexed(p, dangling) && (a, n) in dangling
    ensures !IndexAgrees(p.transactions, p.nonces)
  {
    assert Slot(p.nonces, a, n).Some? && !SitsAt(p.transactions, Slot(p.nonces, a, n).value, a, n);
  }

  /** In every run the index is the exact inverse of the pool if and only if no slot dangles. */
  lemma IndexExactOverRunsIff(config: Config, ops: seq<Op>, hashOf: HashFn)
    ensures var p := Run(EmptyPool(config), ops, hashOf);
            IndexAgrees(p.transactions, p.nonces) <==> Dangling(EmptyPool(config), ops, hashOf) == map[]
  {
    hide MempoolSpec.Run, Dangling, Indexed, IndexAgrees;
    IndexAccountedOverRuns(config, ops, hashOf);
    AgreesIffNothingDangles(Run(EmptyPool(config), ops, hashOf), Dangling(EmptyPool(config), ops, hashOf));
  }

  // ----- What a dangling slot does -----

  predicate NeverClears(ops: seq<Op>) {
    forall i :: 0 <= i < |ops| ==> !ops[i].ClearOp?
  }

  lemma StepKeepsDangling(p: Pool, op: Op, hashOf: HashFn, dangling: Slots, slot: (Address, U64))
    requires Indexed(p, dangling) && !op.ClearOp? && slot in dangling
    ensures slot in DanglingAfter(p, op, hashOf, dangling)
    ensures DanglingAfter(p, op, hashOf, dangling)[slot] == dangling[slot]
  {
    if Overwrites(p, op, hashOf) {
      var h := hashOf(op.tx);
      var lost := p.transactions[h].tx;
      assert SitsAt(p.transactions, h, lost.from, lost.nonce);
      assert (slot.0, slot.1) == slot;
    }
  }

  /** A slot left dangling dangles, and names the same hash, until the pool is cleared. */
  lemma {:induction false} DanglingIsForever(
      config: Config, before: seq<Op>, ops: seq<Op>, hashOf: HashFn, slot: (Address, U64))
    requires NeverClears(ops) && slot in Dangling(EmptyPool(config), before, hashOf)
    ensures slot in Dangling(EmptyPool(config), before + ops, hashOf)
    ensures Dangling(EmptyPool(config), before + ops, hashOf)[slot] == Dangling(EmptyPool(config), before, hashOf)[slot]
  {
    hide MempoolSpec.Run, Indexed, DanglingAfter;
    if ops == [] {
      assert before + ops == before;
    } else {
      var init, all := ops[..|ops| - 1], before + ops;
      assert all[..|all| - 1] == before + init && all[|all| - 1] == ops[|ops| - 1];
      DanglingIsForever(config, before, init, hashOf, slot);
      IndexAccountedOverRuns(config, before + init, hashOf);
      StepKeepsDangling(Run(EmptyPool(config), before + init, hashOf), ops[|ops| - 1], hashOf,
                        Dangling(EmptyPool(config), before + init, hashOf), slot);
    }
  }

  /** Every dangling nonce of the sender lies below the transaction's. */
  ghost predicate AboveDangling(dangling: Slots, tx: TransactionData) {
    forall n: U64 :: (tx.from, n) in dangling ==> n < tx.nonce
  }

  lemma NonceIsNextWithDangling(p: Pool, dangling: Slots, tx: TransactionData)
    requires Indexed(p, dangling)
    ensures NonceIsNext(p, tx) <==> ExtendsSender(p, tx) && AboveDangling(dangling, tx)
  {
    if NonceIsNext(p, tx) {
      forall h | h in p.transactions && p.transactions[h].tx.from == tx.from
        ensures p.transactions[h].tx.nonce < tx.nonce
      {
        assert Slot(p.nonces, tx.from, p.transactions[h].tx.nonce) == Some(h);
      }
    } else {
      var n: U64 :| Slot(p.nonces, tx.from, n).Some? && n >= tx.nonce;
      if (tx.from, n) !in dangling {
        assert SitsAt(p.transactions, Slot(p.nonces, tx.from, n).value, tx.from, n);
      }
    }
  }

  /**
   The outcome of an addition in every run and for every hash function. A dangling slot keeps every
   transaction of its sender with that nonce or a lower one out.
   */
  lemma AddOutcomeOverRuns(config: Config, ops: seq<Op>, tx: TransactionData, t0: U64, t1: U64, hashOf: HashFn)
    ensures var p := Run(EmptyPool(config), ops, hashOf);
            var (p', error) := Add(p, tx, t0, t1, hashOf);
            if hashOf(tx) in p.transactions then (p', error) == (p, TransactionExists)
            else if !(IsValid(tx) && FeeInRange(p.config, tx) && !IsTooLarge(tx) && ExtendsSender(p, tx)
                      && AboveDangling(Dangling(EmptyPool(config), ops, hashOf), tx)) then
              (p', error) == (p, InvalidTransaction)
            else
              var hasRoom := |p.transactions| < p.config.maxTransactions && TotalBytes(p.transactions) < p.config.maxSizeBytes;
              var kept := if hasRoom then p.transactions else EvictLowFee(p).transactions;
              if |kept| < p.config.maxTransactions && TotalBytes(kept) < p.config.maxSizeBytes then
                error == Success && p'.transactions == kept[hashOf(tx) := NewEntry(tx, t0, t1)]
              else error == PoolFull && p'.transactions == kept
  {
    hide MempoolSpec.Run, Dangling, Indexed, NonceIsNext, ExtendsSender, AboveDangling, IsValid, FeeInRange;
    hide TotalBytes, EvictLowFee, Score;
    var p := Run(EmptyPool(config), ops, hashOf);
    IndexAccountedOverRuns(config, ops, hashOf);
    NonceIsNextWithDangling(p, Dangling(EmptyPool(config), ops, hashOf), tx);
    EvictionKeepsConfig(p);
  }

  lemma LaterNonceWithDangling(p: Pool, dangling: Slots, tx: TransactionData)
    requires Indexed(p, dangling) && Displaced(p, tx).Some?
    ensures NonceIsNext(WithoutOld(p, Displaced(p, tx).value), tx) <==>
            !HasLaterNonce(p, tx) && AboveDangling(dangling, tx)
  {
    hide Accounted;
    var prior := Displaced(p, tx).value;
    var q := WithoutOld(p, prior);
    DropAccounts(p.transactions, p.nonces, prior, dangling);
    NonceIsNextWithDangling(q, dangling, tx);
    DisplacedOrDangling(p, dangling, tx);
    if AboveDangling(dangling, tx) {
      OthersExtend(p, dangling, tx);
    }
  }

  /** The transaction a slot names sits there, unless the slot dangles. */
  lemma DisplacedOrDangling(p: Pool, dangling: Slots, tx: TransactionData)
    requires Indexed(p, dangling) && Displaced(p, tx).Some?
    ensures SitsAt(p.transactions, Displaced(p, tx).value, tx.from, tx.nonce) <==> (tx.from, tx.nonce) !in dangling
  {
  }

  /** Without the displaced transaction the sender's nonces are all lower if and only if none was higher. */
  lemma OthersExtend(p: Pool, dangling: Slots, tx: TransactionData)
    requires Indexed(p, dangling) && Displaced(p, tx).Some? && (tx.from, tx.nonce) !in dangling
    ensures ExtendsSender(WithoutOld(p, Displaced(p, tx).value), tx) <==> !HasLaterNonce(p, tx)
  {
    var prior := Displaced(p, tx).value;
    var q := WithoutOld(p, prior);
    assert SitsAt(p.transactions, prior, tx.from, tx.nonce);
    if HasLaterNonce(p, tx) {
      var h :| h in p.transactions && p.transactions[h].tx.from == tx.from && p.transactions[h].tx.nonce > tx.nonce;
      assert h in q.transactions;
    } else {
      forall h | h in q.transactions && q.transactions[h].tx.from == tx.from
        ensures q.transactions[h].tx.nonce < tx.nonce
      {
        if q.transactions[h].tx.nonce == tx.nonce {
          SlotsAreExclusive(p.transactions, p.nonces, h, prior);
        }
      }
    }
  }

  /**
   The outcome of a replacement in every run and for every hash function. A dangling slot may still
   name a pooled transaction: a replacement that goes through it takes that transaction, which sits
   elsewhere, out of the pool and then fails.
   */
  lemma ReplaceOutcomeOverRuns(config: Config, ops: seq<Op>, tx: TransactionData, t0: U64, t1: U64, hashOf: HashFn)
    ensures var p := Run(EmptyPool(config), ops, hashOf);
            Displaced(p, tx).None? ==> Replace(p, tx, t0, t1, hashOf) == (p, InvalidTransaction)
    ensures var p := Run(EmptyPool(config), ops, hashOf);
            Displaced(p, tx).Some? ==>
              var prior := Displaced(p, tx).value;
              var (p', error) := Replace(p, tx, t0, t1, hashOf);
              if Underpriced(p.transactions[prior].tx, tx) then (p', error) == (p, ReplaceUnderpriced)
              else if IsValid(tx) && FeeInRange(p.config, tx) && !IsTooLarge(tx) && !HasLaterNonce(p, tx)
                      && AboveDangling(Dangling(EmptyPool(config), ops, hashOf), tx) then
                error == Success && p'.transactions == (p.transactions - {prior})[hashOf(tx) := NewEntry(tx, t0, t1)]
              else
                error == InvalidTransaction && p'.transactions == p.transactions - {prior} && p'.queue == p.queue
  {
    hide MempoolSpec.Run, Dangling, Indexed, NonceIsNext, AboveDangling, HasLaterNonce, Underpriced, Score;
    var p := Run(EmptyPool(config), ops, hashOf);
    IndexAccountedOverRuns(config, ops, hashOf);
    if Displaced(p, tx).Some? {
      LaterNonceWithDangling(p, Dangling(EmptyPool(config), ops, hashOf), tx);
    }
  }
}
