/**
 Which queue entries outlive their transactions. Over every run the queue is the ranking of the pool
 plus the entries left by late-failing replacements since the queue was last rebuilt.
 */
module MempoolStale {
  import opened Bytes
  import opened Sorting
  import opened MempoolQueue
  import opened MempoolSpec
  import opened MempoolInvariants
  import opened MempoolRuns
  import opened MempoolBounds
  import opened MempoolSelection

  /** The step takes something out or puts a replacement in, and so ranks the pool afresh. */
  ghost predicate Rebuilds(p: Pool, op: Op, hashOf: HashFn) {
    match op
    case AddOp(tx, _, _) => hashOf(tx) !in p.transactions && Validates(p, tx) && Swept(p) != {}
    case RemoveOp(h) => h in p.transactions
    case ReplaceOp(_, _, _) => Succeeds(p, op, hashOf)
    case EvictExpiredOp(now) => Expired(p.transactions, now) != {}
    case EvictLowFeeOp => Evicted(p) != {}
    case ClearOp => true
    case SetConfigOp(_) => false
  }

  /** What a step makes of the stale entries. */
  ghost function StaleAfter(p: Pool, op: Op, hashOf: HashFn, stale: multiset<QueueEntry>): multiset<QueueEntry> {
    if Rebuilds(p, op, hashOf) then multiset{}
    else if op.ReplaceOp? && FailsLate(p, op.tx) then
      stale + multiset{QueueEntryOf(p.transactions, Displaced(p, op.tx).value)}
    else stale
  }

  /** The entries left by late-failing replacements since the last rebuild. */
  ghost function Stale(p: Pool, ops: seq<Op>, hashOf: HashFn): multiset<QueueEntry> {
    if ops == [] then multiset{}
    else
      var init := ops[..|ops| - 1];
      StaleAfter(Run(p, init, hashOf), ops[|ops| - 1], hashOf, Stale(p, init, hashOf))
  }

  ghost function Ranking(txs: map<Hash, Entry>): multiset<QueueEntry> {
    multiset(Ranked(Scores(txs)))
  }

  ghost predicate Conserved(p: Pool, stale: multiset<QueueEntry>) {
    multiset(p.queue) == Ranking(p.transactions) + stale
  }

  // ----- Steps -----

  lemma ExactIsConserved(p: Pool)
    requires QueueExact(p)
    ensures Conserved(p, multiset{})
  {
  }

  lemma RankingGrows(txs: map<Hash, Entry>, h: Hash, e: Entry)
    requires h !in txs
    ensures Ranking(txs[h := e]) == Ranking(txs) + multiset{QueueEntry(Score(e.priority), h)}
  {
    var s := Score(e.priority);
    assert Scores(txs[h := e]) == Scores(txs)[h := s];
    RankedGrows(Scores(txs), h, s);
    EnqueueContents(Ranked(Scores(txs)), QueueEntry(s, h));
  }

  lemma InsertConserves(p: Pool, h: Hash, e: Entry, stale: multiset<QueueEntry>)
    requires h !in p.transactions && Conserved(p, stale)
    ensures Conserved(Insert(p, h, e), stale)
  {
    RankingGrows(p.transactions, h, e);
    EnqueueContents(p.queue, QueueEntry(Score(e.priority), h));
  }

  lemma WithoutOldConserves(p: Pool, h: Hash, stale: multiset<QueueEntry>)
    requires h in p.transactions && Conserved(p, stale)
    ensures Conserved(WithoutOld(p, h), stale + multiset{QueueEntryOf(p.transactions, h)})
  {
    hide Ranking, DropSlot, Score;
    var txs := p.transactions;
    RankingShrinks(txs, h);
    Regrouped(Ranking(txs - {h}), QueueEntryOf(txs, h), stale);
  }

  lemma RankingShrinks(txs: map<Hash, Entry>, h: Hash)
    requires h in txs
    ensures Ranking(txs) == Ranking(txs - {h}) + multiset{QueueEntryOf(txs, h)}
  {
    hide Ranking, Score;
    var rest := txs - {h};
    assert rest[h := txs[h]] == txs;
    RankingGrows(rest, h, txs[h]);
  }

  lemma Regrouped(ranking: multiset<QueueEntry>, e: QueueEntry, stale: multiset<QueueEntry>)
    ensures ranking + multiset{e} + stale == ranking + (stale + multiset{e})
  {
  }

  /** A sweep rebuilds the queue unless it has nothing to take. */
  lemma SweepConserves(p: Pool, hs: set<Hash>, stale: multiset<QueueEntry>)
    requires hs <= p.transactions.Keys && Conserved(p, stale)
    ensures Conserved(RemoveSet(p, hs), if hs == {} then stale else multiset{})
    ensures hs != {} ==> QueueExact(RemoveSet(p, hs))
  {
    if hs != {} {
      var h :| h in hs;
      RemoveSetStep(p, hs, h);
      RemoveSetContents(p, hs - {h});
      RemoveQueue(RemoveSet(p, hs - {h}), h);
      ExactIsConserved(RemoveSet(p, hs));
    }
  }

  lemma RemoveConserves(p: Pool, h: Hash, stale: multiset<QueueEntry>)
    requires Conserved(p, stale)
    ensures Conserved(Remove(p, h), if h in p.transactions then multiset{} else stale)
  {
    if h in p.transactions {
      ExactIsConserved(Remove(p, h));
    }
  }

  lemma ConfigConserves(p: Pool, config: Config, stale: multiset<QueueEntry>)
    requires Conserved(p, stale)
    ensures Conserved(p.(config := config), stale)
  {
  }

  lemma ExpiredArePooled(p: Pool, now: U64)
    ensures Expired(p.transactions, now) <= p.transactions.Keys
  {
  }

  lemma EvictedArePooled(p: Pool)
    ensures Evicted(p) <= p.transactions.Keys && Swept(p) <= p.transactions.Keys
  {
    LowestCount(p.transactions, ExcessCount(p));
  }

  lemma AddConserves(p: Pool, op: Op, hashOf: HashFn, stale: multiset<QueueEntry>)
    requires op.AddOp? && Conserved(p, stale)
    ensures Conserved(Step(p, op, hashOf), StaleAfter(p, op, hashOf, stale))
  {
    hide Conserved, Insert, IsFull, Validates, Evicted, RemoveSet;
    EvictedArePooled(p);
    RoomIsSweep(p);
    SweepConserves(p, Swept(p), stale);
    if Add(p, op.tx, op.t0, op.t1, hashOf).1 == Success {
      InsertConserves(MakeRoom(p), hashOf(op.tx), NewEntry(op.tx, op.t0, op.t1), if Swept(p) == {} then stale else multiset{});
    }
  }

  lemma ReplaceConserves(p: Pool, op: Op, hashOf: HashFn, stale: multiset<QueueEntry>)
    requires op.ReplaceOp? && Conserved(p, stale)
    ensures Conserved(Step(p, op, hashOf), StaleAfter(p, op, hashOf, stale))
  {
    hide Conserved, Validates, Underpriced;
    var (p', error) := Replace(p, op.tx, op.t0, op.t1, hashOf);
    if error == Success {
      ExactIsConserved(p');
    } else if FailsLate(p, op.tx) {
      WithoutOldConserves(p, Displaced(p, op.tx).value, stale);
    }
  }

  lemma StepConserves(p: Pool, op: Op, hashOf: HashFn, stale: multiset<QueueEntry>)
    requires Conserved(p, stale)
    ensures Conserved(Step(p, op, hashOf), StaleAfter(p, op, hashOf, stale))
  {
    hide Conserved, Add, Replace, Remove, RemoveSet, Evicted, Expired, Validates, Swept;
    match op {
      case AddOp(_, _, _) => AddConserves(p, op, hashOf, stale);
      case RemoveOp(h) => RemoveConserves(p, h, stale);
      case ReplaceOp(_, _, _) => ReplaceConserves(p, op, hashOf, stale);
      case EvictExpiredOp(now) =>
        ExpiredArePooled(p, now);
        SweepConserves(p, Expired(p.transactions, now), stale);
      case EvictLowFeeOp =>
        EvictedArePooled(p);
        SweepConserves(p, Evicted(p), stale);
      case ClearOp => ExactIsConserved(EmptyPool(p.config));
      case SetConfigOp(config) => ConfigConserves(p, config, stale);
    }
  }

  // ----- Runs -----

  /** In every run the queue holds the ranking of the pool and, beside it, exactly the stale entries. */
  lemma {:induction false} QueueConservedOverRuns(config: Config, ops: seq<Op>, hashOf: HashFn)
    ensures Conserved(Run(EmptyPool(config), ops, hashOf), Stale(EmptyPool(config), ops, hashOf))
  {
    hide Conserved, Step, StaleAfter;
    var empty := EmptyPool(config);
    if ops == [] {
      ExactIsConserved(empty);
    } else {
      var init := ops[..|ops| - 1];
      QueueConservedOverRuns(config, init, hashOf);
      StepConserves(Run(empty, init, hashOf), ops[|ops| - 1], hashOf, Stale(empty, init, hashOf));
    }
  }

  // ----- What stale entries do to selections -----

  lemma {:induction false} LiveMembers(q: seq<QueueEntry>, txs: map<Hash, Entry>, h: Hash)
    ensures h in Live(q, txs) <==> h in txs && exists i :: 0 <= i < |q| && q[i].hash == h
  {
    if q != [] {
      var init := q[..|q| - 1];
      LiveMembers(init, txs, h);
      assert forall i :: 0 <= i < |init| ==> init[i] == q[i];
      assert (exists i :: 0 <= i < |q| && q[i].hash == h) <==>
             q[|q| - 1].hash == h || exists i :: 0 <= i < |init| && init[i].hash == h;
    }
  }

  /** No two entries share the hash of a pooled transaction. */
  predicate OneEntryEach(q: seq<QueueEntry>, txs: map<Hash, Entry>) {
    forall i, j :: 0 <= i < j < |q| && q[i].hash in txs ==> q[i].hash != q[j].hash
  }

  lemma {:induction false} LiveDistinctIff(q: seq<QueueEntry>, txs: map<Hash, Entry>)
    ensures NoRepeats(Live(q, txs)) <==> OneEntryEach(q, txs)
  {
    if q != [] {
      var init, h := q[..|q| - 1], q[|q| - 1].hash;
      LiveDistinctIff(init, txs);
      LiveMembers(init, txs, h);
      DistinctAppend(Live(init, txs), h);
      OneEntryEachAppend(q, txs);
    }
  }

  lemma OneEntryEachAppend(q: seq<QueueEntry>, txs: map<Hash, Entry>)
    requires q != []
    ensures var init, h := q[..|q| - 1], q[|q| - 1].hash;
            OneEntryEach(q, txs) <==>
            OneEntryEach(init, txs) && (h in txs ==> forall i :: 0 <= i < |init| ==> init[i].hash != h)
  {
    var init, h := q[..|q| - 1], q[|q| - 1].hash;
    assert forall i :: 0 <= i < |init| ==> init[i] == q[i];
  }

  /** The ranking of the pool holds one entry per pooled hash. */
  lemma RankingHolds(txs: map<Hash, Entry>, e: QueueEntry)
    ensures Ranking(txs)[e] == if e.hash in txs && e == QueueEntryOf(txs, e.hash) then 1 else 0
  {
    var r := Ranked(Scores(txs));
    RankedIsRanking(Scores(txs));
    StrictIsSortedDistinct(r);
    assert e in r <==> e in multiset(r);
    if e in r {
      var i :| 0 <= i < |r| && r[i] == e;
      AtMostOnce(r, i);
    }
  }

  /** An entry held twice sits at two places. */
  lemma TwoPlaces(q: seq<QueueEntry>, e: QueueEntry) returns (i: nat, j: nat)
    requires multiset(q)[e] >= 2
    ensures i < j < |q| && q[i] == e == q[j]
  {
    assert e in multiset(q);
    i :| 0 <= i < |q| && q[i] == e && e !in q[..i] by {
      FirstPlace(q, e);
    }
    var after := q[i + 1..];
    assert q == q[..i] + [e] + after;
    assert e in multiset(after);
    var k :| 0 <= k < |after| && after[k] == e;
    j := i + 1 + k;
  }

  lemma {:induction false} FirstPlace(q: seq<QueueEntry>, e: QueueEntry)
    requires e in q
    ensures exists i :: 0 <= i < |q| && q[i] == e && e !in q[..i]
  {
    if e in q[..|q| - 1] {
      var init := q[..|q| - 1];
      FirstPlace(init, e);
      var i :| 0 <= i < |init| && init[i] == e && e !in init[..i];
      assert init[..i] == q[..i];
    } else {
      assert q[|q| - 1] == e;
    }
  }

  ghost predicate NoneIsPooled(stale: multiset<QueueEntry>, txs: map<Hash, Entry>) {
    forall e :: e in stale ==> e.hash !in txs
  }

  lemma PooledStaleRepeats(p: Pool, stale: multiset<QueueEntry>, e: QueueEntry)
    requires Conserved(p, stale) && e in stale && e.hash in p.transactions
    ensures !OneEntryEach(p.queue, p.transactions)
  {
    var r := QueueEntryOf(p.transactions, e.hash);
    RankingHolds(p.transactions, r);
    assert multiset(p.queue)[r] == Ranking(p.transactions)[r] + stale[r];
    if e == r {
      var i, j := TwoPlaces(p.queue, r);
      assert p.queue[i].hash == p.queue[j].hash;
    } else {
      assert r in multiset(p.queue) && e in multiset(p.queue);
      var i :| 0 <= i < |p.queue| && p.queue[i] == r;
      var j :| 0 <= j < |p.queue| && p.queue[j] == e;
      if i < j {
        assert p.queue[i].hash == p.queue[j].hash;
      } else {
        assert p.queue[j].hash == p.queue[i].hash;
      }
    }
  }

  lemma UnpooledStaleIsHarmless(p: Pool, stale: multiset<QueueEntry>)
    requires Conserved(p, stale) && NoneIsPooled(stale, p.transactions)
    ensures OneEntryEach(p.queue, p.transactions)
  {
    forall i, j | 0 <= i < j < |p.queue| && p.queue[i].hash in p.transactions
      ensures p.queue[i].hash != p.queue[j].hash
    {
      HeldOnce(p, stale, i, j);
    }
  }

  lemma HeldOnce(p: Pool, stale: multiset<QueueEntry>, i: nat, j: nat)
    requires Conserved(p, stale) && NoneIsPooled(stale, p.transactions)
    requires i < j < |p.queue| && p.queue[i].hash in p.transactions
    ensures p.queue[i].hash != p.queue[j].hash
  {
    hide Ranking;
    var a, b := p.queue[i], p.queue[j];
    assert a in multiset(p.queue) && b in multiset(p.queue);
    assert multiset(p.queue)[a] == Ranking(p.transactions)[a] + stale[a];
    assert multiset(p.queue)[b] == Ranking(p.transactions)[b] + stale[b];
    RankingHolds(p.transactions, a);
    RankingHolds(p.transactions, b);
    Twice(p.queue, i, j);
  }

  /**
   In every run, no block selection of the pool repeats a transaction if and only if none of the
   entries left by late-failing replacements since the last rebuild names a pooled transaction.
   */
  lemma NeverDuplicatesOverRunsIff(config: Config, ops: seq<Op>, hashOf: HashFn)
    ensures var p := Run(EmptyPool(config), ops, hashOf);
            NeverDuplicates(p.queue, p.transactions) <==>
            NoneIsPooled(Stale(EmptyPool(config), ops, hashOf), p.transactions)
  {
    hide MempoolSpec.Run, Stale, Conserved, NeverDuplicates, OneEntryEach, Live;
    var p, stale := Run(EmptyPool(config), ops, hashOf), Stale(EmptyPool(config), ops, hashOf);
    QueueConservedOverRuns(config, ops, hashOf);
    NeverDuplicatesIff(p.queue, p.transactions);
    LiveDistinctIff(p.queue, p.transactions);
    if NoneIsPooled(stale, p.transactions) {
      UnpooledStaleIsHarmless(p, stale);
    } else {
      var e :| e in stale && e.hash in p.transactions;
      PooledStaleRepeats(p, stale, e);
    }
  }

  /** In every run, the queue is exactly the ranking of the pool if and only if nothing stale is left. */
  lemma QueueExactOverRunsIff(config: Config, ops: seq<Op>, hashOf: HashFn)
    ensures QueueExact(Run(EmptyPool(config), ops, hashOf)) <==> Stale(EmptyPool(config), ops, hashOf) == multiset{}
  {
    hide MempoolSpec.Run, Stale, Ranked, QueueCovers;
    var p, stale := Run(EmptyPool(config), ops, hashOf), Stale(EmptyPool(config), ops, hashOf);
    QueueConservedOverRuns(config, ops, hashOf);
    QueueCoversOverRuns(config, ops, hashOf);
    if stale == multiset{} {
      NothingStaleIsExact(p);
    }
  }

  lemma NothingStaleIsExact(p: Pool)
    requires QueueCovers(p) && Conserved(p, multiset{})
    ensures QueueExact(p)
  {
    var r := Ranked(Scores(p.transactions));
    RankedIsRanking(Scores(p.transactions));
    SamePopOrder(p.queue, r, Scores(p.transactions));
  }

  lemma SamePopOrder(q: seq<QueueEntry>, r: seq<QueueEntry>, scores: map<Hash, real>)
    requires Sorted(q) && IsRanking(r, scores) && multiset(q) == multiset(r)
    ensures q == r
  {
    StrictIsSortedDistinct(r);
    forall i, j | 0 <= i < j < |q|
      ensures q[i] != q[j]
    {
      assert q[i] in multiset(r);
      var k :| 0 <= k < |r| && r[k] == q[i];
      AtMostOnce(r, k);
      Twice(q, i, j);
    }
    SortedDistinctIsStrict(q);
    assert forall e :: e in q <==> e in multiset(q);
    assert forall e :: e in r <==> e in multiset(r);
    RankingUnique(q, r, scores);
  }
}
