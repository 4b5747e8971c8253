/**
 The mempool object. Its methods follow `MempoolImpl` statement by statement, loops included, and
 each is proved to do to the three structures exactly what `MempoolSpec` says.
 */
module MempoolImpl {
  import opened Bytes
  import opened Results
  import opened Transactions
  import opened Sorting
  import opened MempoolQueue
  import opened MempoolSpec
  import opened MempoolInvariants
  import opened MempoolRuns
  import opened MempoolBounds
  import opened MempoolSelection
  import opened MempoolOutcomes

  /** The size loop of `get_stats`, in any iteration order. */
  method SumSizes(txs: map<Hash, Entry>) returns (total: nat)
    ensures total == TotalBytes(txs)
  {
    total := 0;
    var rest := txs.Keys;
    ghost var left := txs;
    while rest != {}
      invariant left.Keys == rest && forall h :: h in left ==> h in txs && left[h] == txs[h]
      invariant total + TotalBytes(left) == TotalBytes(txs)
      decreases rest
    {
      var h :| h in rest;
      TotalBytesWithout(left, h);
      total := total + Size(txs[h].tx);
      rest, left := rest - {h}, left - {h};
    }
  }

  /** `get_account_nonce`: the highest nonce listed for the account, if any. */
  method HighestNonce(nonces: Index, a: Address) returns (highest: Option<U64>)
    ensures highest.None? <==> a !in nonces || nonces[a] == map[]
    ensures highest.Some? ==> highest.value in nonces[a] && forall n :: n in nonces[a] ==> n <= highest.value
  {
    if a !in nonces || nonces[a] == map[] {
      return None;
    }
    var rest := nonces[a].Keys;
    var best :| best in rest;
    rest := rest - {best};
    while rest != {}
      invariant rest <= nonces[a].Keys && best in nonces[a]
      invariant forall n :: n in nonces[a] && n !in rest ==> n <= best
      decreases rest
    {
      var n :| n in rest;
      if best < n {
        best := n;
      }
      rest := rest - {n};
    }
    highest := Some(best);
  }

  /** The collecting loop of `evict_transactions_by_age`. */
  method CollectExpired(txs: map<Hash, Entry>, now: U64) returns (found: seq<Hash>)
    ensures (set h | h in found) == Expired(txs, now) && NoRepeats(found)
  {
    found := [];
    var rest := txs.Keys;
    while rest != {}
      invariant rest <= txs.Keys && NoRepeats(found)
      invariant forall h :: h in found <==> h in txs && h !in rest && IsExpired(txs[h], now)
      decreases rest
    {
      var h :| h in rest;
      if IsExpired(txs[h], now) {
        found := found + [h];
      }
      rest := rest - {h};
    }
  }

  /** `select_transactions_to_evict`: score everything, sort, take the `count` lowest. */
  method CollectLowest(txs: map<Hash, Entry>, count: nat) returns (found: seq<Hash>)
    ensures (set h | h in found) == Lowest(txs, count) && NoRepeats(found)
  {
    var candidates := RebuildLoop(Scores(txs));
    RankedIsRanking(Scores(txs));
    RankingHashesDistinct(candidates, Scores(txs));
    found := TakeFromEnd(candidates, if count < |candidates| then count else |candidates|);
  }

  method TakeFromEnd(q: seq<QueueEntry>, bound: nat) returns (found: seq<Hash>)
    requires bound <= |q| && forall i, j :: 0 <= i < j < |q| ==> q[i].hash != q[j].hash
    ensures (set h | h in found) == HashesOf(q[|q| - bound..]) && NoRepeats(found)
  {
    found := [];
    for i := 0 to bound
      invariant |found| == i
      invariant forall k :: 0 <= k < i ==> found[k] == q[|q| - 1 - k].hash
    {
      found := found + [q[|q| - 1 - i].hash];
    }
    LowestFromEnd(q, bound, found);
  }

  lemma LowestFromEnd(q: seq<QueueEntry>, bound: nat, found: seq<Hash>)
    requires bound == |found| <= |q|
    requires forall k :: 0 <= k < bound ==> found[k] == q[|q| - 1 - k].hash
    ensures (set h | h in found) == HashesOf(q[|q| - bound..])
  {
    var tail := q[|q| - bound..];
    forall h
      ensures h in found <==> h in HashesOf(tail)
    {
      if h in found {
        var k :| 0 <= k < bound && found[k] == h;
        assert tail[bound - 1 - k] in tail;
      }
      if h in HashesOf(tail) {
        var e :| e in tail && e.hash == h;
        var j :| 0 <= j < bound && tail[j] == e;
        assert found[bound - 1 - j] == h;
      }
    }
  }

  class Mempool {
    const hashOf: HashFn
    var config: Config
    var transactions: map<Hash, Entry>
    var accountNonces: Index
    var priorityQueue: seq<QueueEntry>

    function View(): Pool
      reads this
    {
      Pool(config, transactions, accountNonces, priorityQueue)
    }

    constructor (config: Config, hashOf: HashFn)
      ensures View() == EmptyPool(config) && this.hashOf == hashOf
      ensures this.config == config && transactions == map[] && accountNonces == map[] && priorityQueue == []
    {
      this.hashOf := hashOf;
      this.config := config;
      transactions, accountNonces, priorityQueue := map[], map[], [];
    }

    method SetConfig(config: Config)
      modifies this
      ensures View() == Step(old(View()), SetConfigOp(config), hashOf)
      ensures View() == old(View()).(config := config)
    {
      this.config := config;
    }

    // ----- Helpers -----

    method IsPoolFull() returns (full: bool)
      ensures full == IsFull(View())
      ensures full == (|transactions| >= config.maxTransactions || TotalBytes(transactions) >= config.maxSizeBytes)
    {
      full := |transactions| >= config.maxTransactions;
      if !full {
        var bytes := SumSizes(transactions);
        full := bytes >= config.maxSizeBytes;
      }
    }

    method ValidateTransaction(tx: TransactionData) returns (ok: bool)
      ensures ok == Validates(View(), tx)
      ensures ok == (WellFormed(config, tx) && forall n: U64 :: Slot(accountNonces, tx.from, n).Some? ==> n < tx.nonce)
    {
      WellFormedIff(config, tx);
      if !IsValid(tx) || !FeeInRange(config, tx) {
        return false;
      }
      var highest := HighestNonce(accountNonces, tx.from);
      if highest.Some? && highest.value >= tx.nonce {
        assert Slot(accountNonces, tx.from, highest.value).Some?;
        return false;
      }
      ok := !IsTooLarge(tx);
    }

    method UpdateAccountNonce(a: Address, n: U64, h: Hash)
      modifies this`accountNonces
      ensures accountNonces == UpdateSlot(old(accountNonces), a, n, h)
    {
      var inner: map<U64, Hash> := if a in accountNonces then accountNonces[a] else map[];
      accountNonces := accountNonces[a := inner[n := h]];
    }

    method RemoveAccountNonce(a: Address, n: U64)
      modifies this`accountNonces
      ensures accountNonces == DropSlot(old(accountNonces), a, n)
    {
      if a in accountNonces {
        var inner := accountNonces[a] - {n};
        accountNonces := if inner == map[] then accountNonces - {a} else accountNonces[a := inner];
      }
    }

    method RebuildPriorityQueue()
      modifies this`priorityQueue
      ensures priorityQueue == Ranked(Scores(transactions))
    {
      priorityQueue := RebuildLoop(Scores(transactions));
    }

    // ----- Public operations -----

    method AddTransaction(tx: TransactionData, t0: U64, t1: U64) returns (error: MempoolError)
      modifies this
      ensures (View(), error) == Add(old(View()), tx, t0, t1, hashOf)
      ensures error == Success && |old(transactions)| < config.maxTransactions
              && TotalBytes(old(transactions)) < config.maxSizeBytes ==>
              transactions == old(transactions)[hashOf(tx) := NewEntry(tx, t0, t1)]
    {
      hide TotalBytes, Score, EvictLowFee, EvictedInNumbers, Validates, WellFormed, Enqueue;
      var h := hashOf(tx);
      if h in transactions {
        return TransactionExists;
      }
      var valid := ValidateTransaction(tx);
      if !valid {
        return InvalidTransaction;
      }
      var full := IsPoolFull();
      if full {
        EvictionKeepsConfig(View());
        EvictLowFeeTransactions();
        full := IsPoolFull();
        if full {
          return PoolFull;
        }
      }
      var entry := NewEntry(tx, t0, t1);
      UpdateAccountNonce(tx.from, tx.nonce, h);
      transactions := transactions[h := entry];
      priorityQueue := Enqueue(priorityQueue, QueueEntry(Score(entry.priority), h));
      error := Success;
    }

    method RemoveTransaction(h: Hash) returns (error: MempoolError)
      modifies this
      ensures View() == Remove(old(View()), h)
      ensures error == if h in old(transactions) then Success else InvalidTransaction
    {
      if h !in transactions {
        return InvalidTransaction;
      }
      var tx := transactions[h].tx;
      RemoveAccountNonce(tx.from, tx.nonce);
      transactions := transactions - {h};
      RebuildPriorityQueue();
      error := Success;
    }

    method ReplaceTransaction(tx: TransactionData, t0: U64, t1: U64) returns (error: MempoolError)
      modifies this
      ensures (View(), error) == Replace(old(View()), tx, t0, t1, hashOf)
    {
      if tx.from !in accountNonces || tx.nonce !in accountNonces[tx.from] {
        return InvalidTransaction;
      }
      var h := accountNonces[tx.from][tx.nonce];
      if h !in transactions {
        return InvalidTransaction;
      }
      var previous := transactions[h].tx;
      if Underpriced(previous, tx) {
        return ReplaceUnderpriced;
      }
      RemoveAccountNonce(previous.from, previous.nonce);
      transactions := transactions - {h};
      assert View() == WithoutOld(old(View()), h);
      var valid := ValidateTransaction(tx);
      if !valid {
        return InvalidTransaction;
      }
      UpdateAccountNonce(tx.from, tx.nonce, hashOf(tx));
      transactions := transactions[hashOf(tx) := NewEntry(tx, t0, t1)];
      RebuildPriorityQueue();
      error := Success;
    }

    /** The removal loop that ends both evictions. */
    method RemoveAll(hashes: seq<Hash>)
      requires NoRepeats(hashes)
      modifies this
      ensures View() == RemoveSet(old(View()), set h | h in hashes)
    {
      ghost var done: set<Hash> := {};
      for i := 0 to |hashes|
        invariant done == set h | h in hashes[..i]
        invariant View() == RemoveSet(old(View()), done)
      {
        var h := hashes[i];
        assert h !in hashes[..i];
        RemoveSetStep(old(View()), done + {h}, h);
        assert done + {h} - {h} == done;
        var _ := RemoveTransaction(h);
        assert hashes[..i + 1] == hashes[..i] + [h];
        done := done + {h};
      }
      assert hashes[..|hashes|] == hashes;
    }

    method EvictExpiredTransactions(now: U64)
      modifies this
      ensures View() == EvictExpired(old(View()), now)
    {
      var found := CollectExpired(transactions, now);
      RemoveAll(found);
    }

    /** `evict_transactions_by_fee`. */
    method EvictTransactionsByFee(count: nat)
      modifies this
      ensures View() == RemoveSet(old(View()), Lowest(old(transactions), count))
    {
      var found := CollectLowest(transactions, count);
      RemoveAll(found);
    }

    method EvictLowFeeTransactions()
      modifies this
      ensures View() == EvictLowFee(old(View()))
      ensures |old(transactions)| < TWO64 ==> EvictedInNumbers(old(View()), View())
    {
      if |transactions| < TWO64 {
        EvictionInNumbers(View());
      }
      assert |transactions| < TWO64 ==> EvictedInNumbers(View(), EvictLowFee(View()));
      hide EvictLowFee, EvictedInNumbers, ToEvict;
      EvictionCases(View());
      assert ToEvict(View()) == Lowest(transactions, ExcessCount(View())) by {
        EvictsLowest(View());
      }
      if !EvictionFires(View()) {
        return;
      }
      EvictTransactionsByFee(ExcessCount(View()));
    }

    method Clear()
      modifies this
      ensures View() == Step(old(View()), ClearOp, hashOf)
      ensures transactions == map[] && accountNonces == map[] && priorityQueue == [] && config == old(config)
    {
      transactions, accountNonces := map[], map[];
      while priorityQueue != []
        decreases |priorityQueue|
        invariant transactions == map[] && accountNonces == map[] && config == old(config)
      {
        priorityQueue := priorityQueue[1..];
      }
    }

    method GetTransactionsForBlock(maxCount: nat, maxGasLimit: U64) returns (result: seq<TransactionData>)
      ensures result == TxsOf(Chosen(priorityQueue, transactions, maxCount, maxGasLimit), transactions)
    {
      result := SelectLoop(priorityQueue, transactions, maxCount, maxGasLimit);
    }

    method GetTopTransactions(count: nat) returns (result: seq<TransactionData>)
      ensures result == TxsOf(Top(priorityQueue, transactions, count), transactions)
      ensures var pooled := |PooledPlaces(priorityQueue, transactions, |priorityQueue|)|;
              |result| == if count < pooled then count else pooled
    {
      TopCount(priorityQueue, transactions, count);
      result := TopLoop(priorityQueue, transactions, count);
    }
  }
}
