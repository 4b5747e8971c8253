/** What every mempool step keeps: the nonce index, the queue, the validity and order of the entries. */
module MempoolInvariants {
  import opened Bytes
  import opened Results
  import opened MempoolQueue
  import opened MempoolSpec

  // ----- The index is an exact inverse of the pool -----

  predicate SitsAt(txs: map<Hash, Entry>, h: Hash, a: Address, n: U64) {
    h in txs && txs[h].tx.from == a && txs[h].tx.nonce == n
  }

  ghost predicate Occupied(txs: map<Hash, Entry>, a: Address, n: U64) {
    exists h :: SitsAt(txs, h, a, n)
  }

  ghost function Occupant(txs: map<Hash, Entry>, a: Address, n: U64): (h: Hash)
    requires Occupied(txs, a, n)
    ensures SitsAt(txs, h, a, n)
  {
    var h :| SitsAt(txs, h, a, n);
    h
  }

  /** Every pooled transaction is listed under its sender and nonce. */
  ghost predicate Listed(txs: map<Hash, Entry>, nonces: Index) {
    forall h :: h in txs ==> Slot(nonces, txs[h].tx.from, txs[h].tx.nonce) == Some(h)
  }

  ghost predicate IndexAgrees(txs: map<Hash, Entry>, nonces: Index) {
    && Listed(txs, nonces)
    && (forall a: Address, n: U64 :: Slot(nonces, a, n).Some? ==> SitsAt(txs, Slot(nonces, a, n).value, a, n))
    && (forall a :: a in nonces ==> nonces[a] != map[])
  }

  lemma SlotsAfterUpdate(nonces: Index, a: Address, n: U64, h: Hash)
    ensures forall b: Address, m: U64 :: Slot(UpdateSlot(nonces, a, n, h), b, m) ==
              if b == a && m == n then Some(h) else Slot(nonces, b, m)
  {
  }

  lemma SlotsAfterDrop(nonces: Index, a: Address, n: U64)
    ensures forall b: Address, m: U64 :: Slot(DropSlot(nonces, a, n), b, m) ==
              if b == a && m == n then None else Slot(nonces, b, m)
  {
    if a in nonces {
      assert forall m: U64 :: m in nonces[a] && m != n ==> m in nonces[a] - {n};
    }
  }

  lemma DropKeepsListed(txs: map<Hash, Entry>, nonces: Index, h: Hash)
    requires Listed(txs, nonces) && h in txs
    ensures Listed(txs - {h}, DropSlot(nonces, txs[h].tx.from, txs[h].tx.nonce))
  {
    SlotsAfterDrop(nonces, txs[h].tx.from, txs[h].tx.nonce);
  }

  /** A transaction put into an empty slot may take a pooled hash: the overwritten transaction is gone. */
  lemma PutKeepsListed(txs: map<Hash, Entry>, nonces: Index, h: Hash, e: Entry)
    requires Listed(txs, nonces) && Slot(nonces, e.tx.from, e.tx.nonce).None?
    ensures Listed(txs[h := e], UpdateSlot(nonces, e.tx.from, e.tx.nonce, h))
  {
    SlotsAfterUpdate(nonces, e.tx.from, e.tx.nonce, h);
  }

  lemma DropKeepsIndex(txs: map<Hash, Entry>, nonces: Index, h: Hash)
    requires IndexAgrees(txs, nonces) && h in txs
    ensures IndexAgrees(txs - {h}, DropSlot(nonces, txs[h].tx.from, txs[h].tx.nonce))
  {
    SlotsAfterDrop(nonces, txs[h].tx.from, txs[h].tx.nonce);
  }

  lemma PutKeepsIndex(txs: map<Hash, Entry>, nonces: Index, h: Hash, e: Entry)
    requires IndexAgrees(txs, nonces) && h !in txs && Slot(nonces, e.tx.from, e.tx.nonce).None?
    ensures IndexAgrees(txs[h := e], UpdateSlot(nonces, e.tx.from, e.tx.nonce, h))
  {
    SlotsAfterUpdate(nonces, e.tx.from, e.tx.nonce, h);
  }

  /** Two pooled transactions never share a sender and a nonce. */
  lemma SlotsAreExclusive(txs: map<Hash, Entry>, nonces: Index, g: Hash, h: Hash)
    requires Listed(txs, nonces) && g in txs && h in txs
    requires txs[g].tx.from == txs[h].tx.from && txs[g].tx.nonce == txs[h].tx.nonce
    ensures g == h
  {
  }

  // ----- Removal of a set -----

  lemma DropsCommute(nonces: Index, a: Address, n: U64, b: Address, m: U64)
    ensures DropSlot(DropSlot(nonces, a, n), b, m) == DropSlot(DropSlot(nonces, b, m), a, n)
  {
    if a == b && a in nonces {
      assert nonces[a] - {n} - {m} == nonces[a] - {m} - {n};
    }
  }

  lemma RemovalsCommute(p: Pool, g: Hash, h: Hash)
    ensures Remove(Remove(p, g), h) == Remove(Remove(p, h), g)
  {
    if g in p.transactions && h in p.transactions && g != h {
      var x, y := p.transactions[g].tx, p.transactions[h].tx;
      assert p.transactions - {g} - {h} == p.transactions - {h} - {g};
      DropsCommute(p.nonces, x.from, x.nonce, y.from, y.nonce);
    }
  }

  /** A set of removals may end with any of its members. */
  lemma {:induction false} RemoveSetStep(p: Pool, hs: set<Hash>, h: Hash)
    requires h in hs
    ensures RemoveSet(p, hs) == Remove(RemoveSet(p, hs - {h}), h)
  {
    var g :| g in hs && RemoveSet(p, hs) == Remove(RemoveSet(p, hs - {g}), g);
    if g != h {
      RemoveSetStep(p, hs - {g}, h);
      RemoveSetStep(p, hs - {h}, g);
      assert hs - {g} - {h} == hs - {h} - {g};
      RemovalsCommute(RemoveSet(p, hs - {g} - {h}), h, g);
    }
  }

  // ----- The queue -----

  function QueueEntryOf(txs: map<Hash, Entry>, h: Hash): QueueEntry
    requires h in txs
  {
    QueueEntry(Score(txs[h].priority), h)
  }

  /** Every pooled transaction has an entry with its score. */
  ghost predicate QueueCovers(p: Pool) {
    && Sorted(p.queue)
    && (forall h :: h in p.transactions ==> QueueEntryOf(p.transactions, h) in p.queue)
  }

  /** The queue is the pool: one entry per pooled transaction and nothing else. */
  ghost predicate QueueExact(p: Pool) {
    p.queue == Ranked(Scores(p.transactions))
  }

  lemma ExactCovers(p: Pool)
    requires QueueExact(p)
    ensures QueueCovers(p)
  {
    RankedIsRanking(Scores(p.transactions));
    StrictIsSortedDistinct(p.queue);
  }

  lemma RemoveQueue(p: Pool, h: Hash)
    ensures QueueCovers(p) ==> QueueCovers(Remove(p, h))
    ensures QueueExact(p) || h in p.transactions ==> QueueExact(Remove(p, h))
  {
    if h in p.transactions {
      ExactCovers(Remove(p, h));
    }
  }

  lemma InsertCovers(p: Pool, h: Hash, e: Entry)
    requires h !in p.transactions && QueueCovers(p)
    ensures QueueCovers(Insert(p, h, e))
  {
    var entry := QueueEntry(Score(e.priority), h);
    var p' := Insert(p, h, e);
    EnqueueSorted(p.queue, entry);
    forall g | g in p'.transactions
      ensures QueueEntryOf(p'.transactions, g) in p'.queue
    {
      EnqueueMembers(p.queue, entry, QueueEntryOf(p'.transactions, g));
    }
  }

  lemma InsertExact(p: Pool, h: Hash, e: Entry)
    requires h !in p.transactions && QueueExact(p)
    ensures QueueExact(Insert(p, h, e))
  {
    RankedGrows(Scores(p.transactions), h, Score(e.priority));
    assert Scores(p.transactions[h := e]) == Scores(p.transactions)[h := Score(e.priority)];
  }

  // ----- The pool's consistency, and sweeps -----

  ghost predicate Consistent(p: Pool, hashOf: HashFn) {
    && IndexAgrees(p.transactions, p.nonces)
    && (forall h :: h in p.transactions ==> hashOf(p.transactions[h].tx) == h)
  }

  /** A sweep takes out exactly the given hashes. */
  lemma {:induction false} RemoveSetContents(p: Pool, hs: set<Hash>)
    ensures RemoveSet(p, hs).config == p.config
    ensures RemoveSet(p, hs).transactions == p.transactions - hs
  {
    if hs != {} {
      var h :| h in hs;
      RemoveSetStep(p, hs, h);
      RemoveSetContents(p, hs - {h});
      assert p.transactions - (hs - {h}) - {h} == p.transactions - hs;
    }
  }

  /** A sweep keeps the queue's coverage and exactness. */
  lemma {:induction false} RemoveSetQueue(p: Pool, hs: set<Hash>)
    ensures QueueCovers(p) ==> QueueCovers(RemoveSet(p, hs))
    ensures QueueExact(p) ==> QueueExact(RemoveSet(p, hs))
  {
    if hs != {} {
      var h :| h in hs;
      RemoveSetStep(p, hs, h);
      RemoveSetQueue(p, hs - {h});
      RemoveQueue(RemoveSet(p, hs - {h}), h);
    }
  }

  /** A sweep only empties slots, whatever the index. */
  lemma {:induction false} RemoveSetSlots(p: Pool, hs: set<Hash>, a: Address, n: U64)
    ensures Slot(RemoveSet(p, hs).nonces, a, n).Some? ==> Slot(RemoveSet(p, hs).nonces, a, n) == Slot(p.nonces, a, n)
  {
    if hs != {} {
      var h :| h in hs;
      RemoveSetStep(p, hs, h);
      RemoveSetSlots(p, hs - {h}, a, n);
      var q := RemoveSet(p, hs - {h});
      if h in q.transactions {
        SlotsAfterDrop(q.nonces, q.transactions[h].tx.from, q.transactions[h].tx.nonce);
      }
    }
  }

  lemma {:induction false} RemoveSetListed(p: Pool, hs: set<Hash>)
    requires Listed(p.transactions, p.nonces)
    ensures Listed(RemoveSet(p, hs).transactions, RemoveSet(p, hs).nonces)
  {
    if hs != {} {
      var h :| h in hs;
      RemoveSetStep(p, hs, h);
      RemoveSetListed(p, hs - {h});
      RemoveKeepsListed(RemoveSet(p, hs - {h}), h);
    }
  }

  lemma RemoveKeepsListed(p: Pool, h: Hash)
    requires Listed(p.transactions, p.nonces)
    ensures Listed(Remove(p, h).transactions, Remove(p, h).nonces)
  {
    if h in p.transactions {
      DropKeepsListed(p.transactions, p.nonces, h);
    }
  }

  lemma {:induction false} RemoveSetIndex(p: Pool, hs: set<Hash>)
    requires IndexAgrees(p.transactions, p.nonces)
    ensures IndexAgrees(RemoveSet(p, hs).transactions, RemoveSet(p, hs).nonces)
  {
    if hs != {} {
      var h :| h in hs;
      RemoveSetStep(p, hs, h);
      RemoveSetIndex(p, hs - {h});
      RemoveKeepsIndex(RemoveSet(p, hs - {h}), h);
    }
  }

  lemma RemoveKeepsIndex(p: Pool, h: Hash)
    requires IndexAgrees(p.transactions, p.nonces)
    ensures IndexAgrees(Remove(p, h).transactions, Remove(p, h).nonces)
  {
    if h in p.transactions {
      DropKeepsIndex(p.transactions, p.nonces, h);
    }
  }

  lemma RemoveSetConsistent(p: Pool, hs: set<Hash>, hashOf: HashFn)
    requires Consistent(p, hashOf)
    ensures Consistent(RemoveSet(p, hs), hashOf)
  {
    RemoveSetIndex(p, hs);
    RemoveSetContents(p, hs);
  }
}
