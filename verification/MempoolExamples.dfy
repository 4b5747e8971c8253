/** Concrete runs in which a mempool property stated elsewhere with a condition fails without it. */
module MempoolExamples {
  import opened Bytes
  import opened Results
  import opened Transactions
  import opened Hashes
  import opened MempoolQueue
  import opened MempoolSpec
  import opened MempoolInvariants
  import opened MempoolRuns
  import opened MempoolBounds
  import opened MempoolSelection

  const ROOMY: Config := Config(100000, 10, 1, 1000, 0.9)

  function Account(b: Byte): Address {
    seq(20, _ => b)
  }

  function Transfer(to: Byte, gasPrice: U64, nonce: U64): TransactionData {
    TransactionData(Account(1), Account(to), 1, 21000, gasPrice, [], nonce)
  }

  /** `Transaction::calculate_hash` with the shipped digest. */
  function ShippedHash(d: TransactionData): Hash {
    PrefixDigest(Preimage(d))
  }

  /** The shipped hash is the sender followed by twelve bytes of the receiver. */
  lemma ShippedHashPrefix(d: TransactionData)
    ensures ShippedHash(d) == d.from + d.to[..12]
  {
    var rest := Preimage(d)[40..];
    assert Preimage(d) == d.from + (d.to + rest);
  }

  /** A transfer that asks for an enormous gas limit. */
  function Bulky(to: Byte, nonce: U64): TransactionData {
    Transfer(to, 10, nonce).(gasLimit := 0x8000_0000_0000_0000)
  }

  lemma TransferIsAcceptable(to: Byte, gasPrice: U64, nonce: U64)
    requires to > 0 && 1 <= gasPrice <= 1000
    ensures IsValid(Transfer(to, gasPrice, nonce)) && FeeInRange(ROOMY, Transfer(to, gasPrice, nonce))
    ensures !IsTooLarge(Transfer(to, gasPrice, nonce))
  {
    assert Account(1)[0] == 1 && Account(to)[0] == to;
  }

  lemma BulkyIsAcceptable(to: Byte, nonce: U64)
    requires to > 0
    ensures IsValid(Bulky(to, nonce)) && FeeInRange(ROOMY, Bulky(to, nonce)) && !IsTooLarge(Bulky(to, nonce))
  {
    TransferIsAcceptable(to, 10, nonce);
  }

  /** Adding a transfer that follows the sender's pooled nonces to a pool with room. */
  lemma AddTransfer(p: Pool, tx: TransactionData, hashOf: HashFn)
    requires !IsFull(p)
    requires IsValid(tx) && FeeInRange(p.config, tx) && !IsTooLarge(tx)
    requires hashOf(tx) !in p.transactions && NonceIsNext(p, tx)
    ensures Step(p, AddOp(tx, 0, 0), hashOf) == Insert(p, hashOf(tx), NewEntry(tx, 0, 0))
  {
  }

  lemma OneEntryPool(h: Hash, e: Entry)
    ensures |map[h := e]| == 1 && TotalBytes(map[h := e]) == Size(e.tx)
  {
    var txs := map[h := e];
    TotalBytesWithout(txs, h);
    assert txs - {h} == map[];
  }

  lemma RunOfTwo(p: Pool, a: Op, b: Op, hashOf: HashFn)
    ensures Run(p, [a, b], hashOf) == Step(Step(p, a, hashOf), b, hashOf)
  {
    assert [a, b][..1] == [a];
    assert [a][..0] == [];
    assert Run(p, [a], hashOf) == Step(p, a, hashOf);
  }

  lemma RunOfThree(p: Pool, a: Op, b: Op, c: Op, hashOf: HashFn)
    ensures Run(p, [a, b, c], hashOf) == Step(Step(Step(p, a, hashOf), b, hashOf), c, hashOf)
  {
    assert [a, b, c][..2] == [a, b];
    RunOfTwo(p, a, b, hashOf);
  }

  lemma FirstTransfer(tx: TransactionData, hashOf: HashFn)
    requires IsValid(tx) && FeeInRange(ROOMY, tx) && !IsTooLarge(tx)
    ensures Step(EmptyPool(ROOMY), AddOp(tx, 0, 0), hashOf) == Alone(tx, hashOf)
  {
    AddTransfer(EmptyPool(ROOMY), tx, hashOf);
  }

  /** The pool holding one freshly added transaction. */
  function Alone(tx: TransactionData, hashOf: HashFn): Pool {
    var e := NewEntry(tx, 0, 0);
    Pool(ROOMY, map[hashOf(tx) := e], map[tx.from := map[tx.nonce := hashOf(tx)]],
         [QueueEntry(Score(e.priority), hashOf(tx))])
  }

  // ----- A collision under the shipped hash -----

  /**
   Under the shipped hash a transfer of nonce 2 re-targeted at the receiver of nonce 1 takes the
   hash of nonce 1: replacing it leaves two nonces listed for one pooled transaction.
   */
  lemma ShippedHashBreaksIndex() returns (ops: seq<Op>)
    ensures var p := Run(EmptyPool(ROOMY), ops, ShippedHash); !IndexAgrees(p.transactions, p.nonces)
  {
    var first, second, third := Transfer(2, 10, 1), Transfer(3, 10, 2), Transfer(2, 11, 2);
    ops := [AddOp(first, 0, 0), AddOp(second, 0, 0), ReplaceOp(third, 0, 0)];
    RunOfThree(EmptyPool(ROOMY), ops[0], ops[1], ops[2], ShippedHash);
    TransferIsAcceptable(2, 10, 1);
    FirstTransfer(first, ShippedHash);
    SecondTransfer();
    TwoTransfersAgree();
    ThirdTransferCollides();
    CollidingReplacement(TwoTransfers(), third, ShippedHash);
  }

  lemma TransferHashes()
    ensures ShippedHash(Transfer(2, 10, 1)) == ShippedHash(Transfer(2, 11, 2)) != ShippedHash(Transfer(3, 10, 2))
  {
    ShippedHashPrefix(Transfer(2, 10, 1));
    ShippedHashPrefix(Transfer(2, 11, 2));
    ShippedHashPrefix(Transfer(3, 10, 2));
    assert ShippedHash(Transfer(2, 10, 1))[20] == 2;
    assert ShippedHash(Transfer(3, 10, 2))[20] == 3;
  }

  /** The pool holding transfers of nonces 1 and 2. */
  ghost function TwoTransfers(): Pool {
    Insert(Alone(Transfer(2, 10, 1), ShippedHash), ShippedHash(Transfer(3, 10, 2)), NewEntry(Transfer(3, 10, 2), 0, 0))
  }

  lemma SecondTransferFollows()
    ensures NonceIsNext(Alone(Transfer(2, 10, 1), ShippedHash), Transfer(3, 10, 2))
    ensures Slot(Alone(Transfer(2, 10, 1), ShippedHash).nonces, Account(1), 2).None?
  {
  }

  lemma SecondTransfer()
    ensures Step(Alone(Transfer(2, 10, 1), ShippedHash), AddOp(Transfer(3, 10, 2), 0, 0), ShippedHash) == TwoTransfers()
  {
    var first, second := Transfer(2, 10, 1), Transfer(3, 10, 2);
    TransferHashes();
    OneEntryPool(ShippedHash(first), NewEntry(first, 0, 0));
    TransferIsAcceptable(3, 10, 2);
    SecondTransferFollows();
    AddTransfer(Alone(first, ShippedHash), second, ShippedHash);
  }

  lemma TwoTransfersAgree()
    ensures IndexAgrees(TwoTransfers().transactions, TwoTransfers().nonces)
  {
    var first, second := Transfer(2, 10, 1), Transfer(3, 10, 2);
    var p := Alone(first, ShippedHash);
    TransferHashes();
    SecondTransferFollows();
    AloneAgrees(first, ShippedHash);
    PutKeepsIndex(p.transactions, p.nonces, ShippedHash(second), NewEntry(second, 0, 0));
  }

  lemma AloneAgrees(tx: TransactionData, hashOf: HashFn)
    ensures IndexAgrees(Alone(tx, hashOf).transactions, Alone(tx, hashOf).nonces)
  {
    PutKeepsIndex(map[], map[], hashOf(tx), NewEntry(tx, 0, 0));
  }

  /** What the replacement below meets in the pool. */
  ghost predicate Collides(p: Pool, tx: TransactionData, hashOf: HashFn) {
    && Displaced(p, tx).Some? && !Underpriced(p.transactions[Displaced(p, tx).value].tx, tx)
    && IsValid(tx) && FeeInRange(p.config, tx) && !IsTooLarge(tx) && !HasLaterNonce(p, tx)
    && hashOf(tx) in p.transactions && hashOf(tx) != Displaced(p, tx).value
  }

  lemma CollidingReplacement(p: Pool, tx: TransactionData, hashOf: HashFn)
    requires IndexAgrees(p.transactions, p.nonces) && Collides(p, tx, hashOf)
    ensures var p' := Step(p, ReplaceOp(tx, 0, 0), hashOf); !IndexAgrees(p'.transactions, p'.nonces)
  {
    hide IndexAgrees, IsValid, FeeInRange, IsTooLarge, HasLaterNonce, Replace, Underpriced;
    ReplaceOutcome(p, tx, 0, 0, hashOf);
    CollisionBreaksIndex(p, tx, 0, 0, hashOf);
  }

  lemma ThirdTransferCollides()
    ensures Collides(TwoTransfers(), Transfer(2, 11, 2), ShippedHash)
  {
    TransferHashes();
    TransferIsAcceptable(2, 11, 2);
    assert Displaced(TwoTransfers(), Transfer(2, 11, 2)) == Some(ShippedHash(Transfer(3, 10, 2)));
  }

  /**
   The slot of nonce 1 now names the transfer of nonce 2. A fourth call that means to replace nonce 1
   takes that transfer out and then fails: the pool is empty, though no transfer was removed or evicted.
   */
  lemma DanglingSlotLosesTransaction() returns (ops: seq<Op>)
    ensures |ops| == 4 && ops[0].AddOp? && ops[1].AddOp? && ops[2].ReplaceOp? && ops[3].ReplaceOp?
    ensures Replace(Run(EmptyPool(ROOMY), ops[..3], ShippedHash), ops[3].tx, 0, 0, ShippedHash).1 == InvalidTransaction
    ensures Run(EmptyPool(ROOMY), ops, ShippedHash).transactions == map[]
  {
    var first, second, third := Transfer(2, 10, 1), Transfer(3, 10, 2), Transfer(2, 11, 2);
    var init := [AddOp(first, 0, 0), AddOp(second, 0, 0), ReplaceOp(third, 0, 0)];
    ops := init + [ReplaceOp(Transfer(4, 13, 1), 0, 0)];
    assert ops[..3] == init;
    RunOfThree(EmptyPool(ROOMY), init[0], init[1], init[2], ShippedHash);
    TransferIsAcceptable(2, 10, 1);
    FirstTransfer(first, ShippedHash);
    SecondTransfer();
    ThirdTransferTakesHash();
    FourthTransferFails(Run(EmptyPool(ROOMY), init, ShippedHash));
  }

  /** One transfer, of nonce 2, named by the slots of nonces 1 and 2. */
  ghost predicate NamedTwice(p: Pool) {
    var h := ShippedHash(Transfer(2, 11, 2));
    && p.transactions == map[h := NewEntry(Transfer(2, 11, 2), 0, 0)]
    && Slot(p.nonces, Account(1), 1) == Some(h) && Slot(p.nonces, Account(1), 2) == Some(h)
  }

  lemma ThirdTransferTakesHash()
    ensures NamedTwice(Step(TwoTransfers(), ReplaceOp(Transfer(2, 11, 2), 0, 0), ShippedHash))
  {
    TwoTransfersAgree();
    ThirdTransferCollides();
    TransferHashes();
    TwoTransfersContents();
    hide TwoTransfers, ShippedHash, Transfer, Collides;
    TakesHash(TwoTransfers());
  }

  lemma TwoTransfersContents()
    ensures var p := TwoTransfers();
            var g, h := ShippedHash(Transfer(2, 10, 1)), ShippedHash(Transfer(3, 10, 2));
            && p.transactions == map[g := NewEntry(Transfer(2, 10, 1), 0, 0), h := NewEntry(Transfer(3, 10, 2), 0, 0)]
            && Slot(p.nonces, Account(1), 1) == Some(g) && Slot(p.nonces, Account(1), 2) == Some(h)
  {
    hide ShippedHash;
  }

  lemma TakesHash(p: Pool)
    requires IndexAgrees(p.transactions, p.nonces) && Collides(p, Transfer(2, 11, 2), ShippedHash)
    requires var g, h := ShippedHash(Transfer(2, 11, 2)), ShippedHash(Transfer(3, 10, 2));
             && g != h && Slot(p.nonces, Account(1), 1) == Some(g) && Slot(p.nonces, Account(1), 2) == Some(h)
             && p.transactions == map[g := NewEntry(Transfer(2, 10, 1), 0, 0), h := NewEntry(Transfer(3, 10, 2), 0, 0)]
    ensures NamedTwice(Step(p, ReplaceOp(Transfer(2, 11, 2), 0, 0), ShippedHash))
  {
    hide ShippedHash, IndexAgrees, HasLaterNonce, Score;
    var tx, h := Transfer(2, 11, 2), ShippedHash(Transfer(3, 10, 2));
    ReplaceOutcome(p, tx, 0, 0, ShippedHash);
    assert p.transactions - {h} == map[ShippedHash(tx) := NewEntry(Transfer(2, 10, 1), 0, 0)];
    SlotsAfterDrop(p.nonces, Account(1), 2);
    SlotsAfterUpdate(DropSlot(p.nonces, Account(1), 2), Account(1), 2, ShippedHash(tx));
    hide DropSlot, UpdateSlot, Slot;
  }

  lemma FourthTransferFails(p: Pool)
    requires NamedTwice(p)
    ensures var (p', error) := Replace(p, Transfer(4, 13, 1), 0, 0, ShippedHash);
            error == InvalidTransaction && p'.transactions == map[]
  {
    var tx, h := Transfer(4, 13, 1), ShippedHash(Transfer(2, 11, 2));
    SlotsAfterDrop(p.nonces, Account(1), 2);
    assert Slot(WithoutOld(p, h).nonces, Account(1), 1).Some?;
    assert !NonceIsNext(WithoutOld(p, h), tx);
  }

  // ----- A stale entry -----

  /**
   A replacement priced above the maximum fails late; adding the lost transaction again leaves it
   with two queue entries, and a block selection contains it twice, whatever the hash function.
   */
  lemma StaleEntryDuplicates(hashOf: HashFn) returns (ops: seq<Op>)
    ensures var p := Run(EmptyPool(ROOMY), ops, hashOf);
            Chosen(p.queue, p.transactions, 2, 42000) == [hashOf(Transfer(2, 10, 1)), hashOf(Transfer(2, 10, 1))]
  {
    var tx, dear := Transfer(2, 10, 1), Transfer(2, 1001, 1);
    ops := [AddOp(tx, 0, 0), ReplaceOp(dear, 0, 0), AddOp(tx, 0, 0)];
    RunOfThree(EmptyPool(ROOMY), ops[0], ops[1], ops[2], hashOf);
    TransferIsAcceptable(2, 10, 1);
    FirstTransfer(tx, hashOf);
    LateFailure(tx, dear, hashOf);
    var p := EmptyPool(ROOMY).(queue := Alone(tx, hashOf).queue);
    AddTransfer(p, tx, hashOf);
    TwiceChosen(tx, hashOf);
  }

  lemma LateFailure(tx: TransactionData, dear: TransactionData, hashOf: HashFn)
    requires tx.from == dear.from && tx.nonce == dear.nonce && tx.gasPrice == 10 && dear.gasPrice == 1001
    ensures Step(Alone(tx, hashOf), ReplaceOp(dear, 0, 0), hashOf) == EmptyPool(ROOMY).(queue := Alone(tx, hashOf).queue)
  {
    var p, h := Alone(tx, hashOf), hashOf(tx);
    assert p.transactions - {h} == map[];
    assert p.nonces[tx.from] - {tx.nonce} == map[];
    assert p.nonces - {tx.from} == map[];
  }

  lemma TwiceChosen(tx: TransactionData, hashOf: HashFn)
    requires tx.gasLimit == 21000
    ensures var p := Insert(EmptyPool(ROOMY).(queue := Alone(tx, hashOf).queue), hashOf(tx), NewEntry(tx, 0, 0));
            Chosen(p.queue, p.transactions, 2, 42000) == [hashOf(tx), hashOf(tx)]
  {
    hide Score, Enqueue, Above, Chosen;
    var e := QueueEntry(Score(NewEntry(tx, 0, 0).priority), hashOf(tx));
    QueueOfTwo(e, e);
    EntryChosenTwice(e, map[hashOf(tx) := NewEntry(tx, 0, 0)]);
  }

  lemma EntryChosenTwice(e: QueueEntry, txs: map<Hash, Entry>)
    requires e.hash in txs && txs[e.hash].tx.gasLimit == 21000
    ensures Chosen([e, e], txs, 2, 42000) == [e.hash, e.hash]
  {
    var h := e.hash;
    assert [e, e][..1] == [e] && [e][..0] == [];
    assert Chosen([], txs, 2, 42000) == [];
    assert Chosen([e], txs, 2, 42000) == [h];
    assert [h][..0] == [];
    assert GasOf([h], txs) == 21000;
  }

  // ----- An eviction that empties the pool -----

  /** A threshold of three tenths of three transactions: one is enough for an eviction to fire. */
  const EAGER: Config := Config(100000, 3, 1, 1000, 0.3)

  /**
   The pool holds one transaction and its target is two: the count to evict wraps around and the
   eviction takes that one too, whatever the hash function.
   */
  lemma EvictionEmptiesPool(hashOf: HashFn) returns (ops: seq<Op>)
    ensures |ops| == 2 && ops[0].AddOp? && ops[1] == EvictLowFeeOp
    ensures |Run(EmptyPool(EAGER), ops[..1], hashOf).transactions| == 1
    ensures |Run(EmptyPool(EAGER), ops, hashOf).transactions| == 0
  {
    var tx := Transfer(2, 10, 1);
    var empty := EmptyPool(EAGER);
    ops := [AddOp(tx, 0, 0), EvictLowFeeOp];
    RunOfTwo(empty, ops[0], ops[1], hashOf);
    assert ops[..1] == [ops[0]] && [ops[0]][..0] == [];
    TransferIsAcceptable(2, 10, 1);
    AddTransfer(empty, tx, hashOf);
    var p := Insert(empty, hashOf(tx), NewEntry(tx, 0, 0));
    OneEntryPool(hashOf(tx), NewEntry(tx, 0, 0));
    assert p.transactions == map[hashOf(tx) := NewEntry(tx, 0, 0)];
    FeeEvictionLeaves(p);
  }

  // ----- A selection above its cap -----

  /**
   Two transactions with gas limit 2^63: their sum wraps to zero, so a selection capped at 2^63
   takes both and holds twice its cap, under every hash function that tells the two apart.
   */
  lemma SelectionExceedsCap(hashOf: HashFn) returns (ops: seq<Op>)
    requires hashOf(Bulky(2, 1)) != hashOf(Bulky(3, 2))
    ensures var p := Run(EmptyPool(ROOMY), ops, hashOf);
            GasOf(Chosen(p.queue, p.transactions, 2, 0x8000_0000_0000_0000), p.transactions) == 2 * 0x8000_0000_0000_0000
  {
    var first, second := Bulky(2, 1), Bulky(3, 2);
    ops := [AddOp(first, 0, 0), AddOp(second, 0, 0)];
    RunOfTwo(EmptyPool(ROOMY), ops[0], ops[1], hashOf);
    BulkyIsAcceptable(2, 1);
    BulkyIsAcceptable(3, 2);
    FirstTransfer(first, hashOf);
    SecondBulky(hashOf);
    TwoBulkyChosen(hashOf);
  }

  /** The shipped hash is one of them. */
  lemma ShippedSelectionExceedsCap() returns (ops: seq<Op>)
    ensures var p := Run(EmptyPool(ROOMY), ops, ShippedHash);
            GasOf(Chosen(p.queue, p.transactions, 2, 0x8000_0000_0000_0000), p.transactions) == 2 * 0x8000_0000_0000_0000
  {
    ShippedHashPrefix(Bulky(2, 1));
    ShippedHashPrefix(Bulky(3, 2));
    assert ShippedHash(Bulky(2, 1))[20] == 2;
    assert ShippedHash(Bulky(3, 2))[20] == 3;
    ops := SelectionExceedsCap(ShippedHash);
  }

  lemma SecondBulky(hashOf: HashFn)
    requires hashOf(Bulky(2, 1)) != hashOf(Bulky(3, 2))
    ensures Step(Alone(Bulky(2, 1), hashOf), AddOp(Bulky(3, 2), 0, 0), hashOf) == TwoBulky(hashOf)
  {
    var first, second := Bulky(2, 1), Bulky(3, 2);
    OneEntryPool(hashOf(first), NewEntry(first, 0, 0));
    BulkyIsAcceptable(3, 2);
    AddTransfer(Alone(first, hashOf), second, hashOf);
  }

  ghost function TwoBulky(hashOf: HashFn): Pool {
    Insert(Alone(Bulky(2, 1), hashOf), hashOf(Bulky(3, 2)), NewEntry(Bulky(3, 2), 0, 0))
  }

  lemma TwoBulkyChosen(hashOf: HashFn)
    requires hashOf(Bulky(2, 1)) != hashOf(Bulky(3, 2))
    ensures var p := TwoBulky(hashOf);
            GasOf(Chosen(p.queue, p.transactions, 2, 0x8000_0000_0000_0000), p.transactions) == 2 * 0x8000_0000_0000_0000
  {
    var p, x := TwoBulky(hashOf), Alone(Bulky(2, 1), hashOf).queue[0];
    var y := QueueEntry(Score(NewEntry(Bulky(3, 2), 0, 0).priority), hashOf(Bulky(3, 2)));
    QueueOfTwo(x, y);
    BothChosen(x, y, p.transactions);
    BothChosen(y, x, p.transactions);
  }

  lemma QueueOfTwo(x: QueueEntry, y: QueueEntry)
    ensures Enqueue([x], y) == if Above(y, x) then [y, x] else [x, y]
  {
    assert [x][1..] == [];
    assert Enqueue([], y) == [y];
  }

  lemma BothChosen(a: QueueEntry, b: QueueEntry, txs: map<Hash, Entry>)
    requires a.hash in txs && txs[a.hash].tx.gasLimit == 0x8000_0000_0000_0000
    requires b.hash in txs && txs[b.hash].tx.gasLimit == 0x8000_0000_0000_0000
    ensures GasOf(Chosen([a, b], txs, 2, 0x8000_0000_0000_0000), txs) == 2 * 0x8000_0000_0000_0000
  {
    var cap := 0x8000_0000_0000_0000;
    assert [a, b][..1] == [a] && [a][..0] == [];
    assert Chosen([], txs, 2, cap) == [];
    assert Chosen([a], txs, 2, cap) == [a.hash];
    assert [a.hash][..0] == [];
    assert GasOf([a.hash], txs) == cap;
    assert Chosen([a, b], txs, 2, cap) == [a.hash, b.hash];
    assert [a.hash, b.hash][..1] == [a.hash];
  }
}
