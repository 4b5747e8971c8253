/**
 The mempool's priority queue, kept as the sequence in which it would be popped, and rankings: the
 one order in which a set of scored transactions can come out of it.
 */
module MempoolQueue {
  import opened Bytes
  import opened Sorting

  /** `std::pair<double, Hash>`; scores are exact reals. */
  datatype QueueEntry = QueueEntry(score: real, hash: Hash)

  /** The pair order, larger first: by score, ties by the lexicographic order of the hashes. */
  predicate Above(a: QueueEntry, b: QueueEntry) {
    a.score > b.score || (a.score == b.score && LexLess(b.hash, a.hash))
  }

  lemma AboveTotal(a: QueueEntry, b: QueueEntry)
    ensures a == b || Above(a, b) || Above(b, a)
    ensures !(Above(a, b) && Above(b, a))
    ensures !Above(a, a)
  {
    LexTotal(a.hash, b.hash);
    LexIrreflexive(a.hash);
  }

  lemma AboveTransitive(a: QueueEntry, b: QueueEntry, c: QueueEntry)
    requires Above(a, b) && Above(b, c)
    ensures Above(a, c)
  {
    if a.score == b.score == c.score {
      LexTransitive(c.hash, b.hash, a.hash);
    }
  }

  /** The first entry need not be popped after the second. */
  predicate PopsBefore(a: QueueEntry, b: QueueEntry) {
    !Above(b, a)
  }

  lemma PopsInTotalOrder()
    ensures TotalOrder(PopsBefore)
  {
    forall a, b
      ensures PopsBefore(a, b) || PopsBefore(b, a)
    {
      AboveTotal(a, b);
    }
    forall a, b, c | PopsBefore(a, b) && PopsBefore(b, c)
      ensures PopsBefore(a, c)
    {
      AboveTotal(a, b);
      AboveTotal(b, c);
      if Above(a, b) && Above(b, c) {
        AboveTransitive(a, b, c);
        AboveTotal(a, c);
      }
    }
  }

  predicate Sorted(q: seq<QueueEntry>) {
    Ordered(q, PopsBefore)
  }

  /** `priority_queue::emplace` on the pop order. */
  function Enqueue(q: seq<QueueEntry>, e: QueueEntry): (r: seq<QueueEntry>)
    ensures |r| == |q| + 1
  {
    InsertInOrder(q, e, PopsBefore)
  }

  lemma EnqueueContents(q: seq<QueueEntry>, e: QueueEntry)
    ensures multiset(Enqueue(q, e)) == multiset(q) + multiset{e}
  {
    InsertHolds(q, e, PopsBefore);
  }

  lemma EnqueueMembers(q: seq<QueueEntry>, e: QueueEntry, x: QueueEntry)
    ensures x in Enqueue(q, e) <==> x in q || x == e
  {
    EnqueueContents(q, e);
    assert x in multiset(Enqueue(q, e)) <==> x in Enqueue(q, e);
  }

  lemma EnqueueSorted(q: seq<QueueEntry>, e: QueueEntry)
    requires Sorted(q)
    ensures Sorted(Enqueue(q, e))
  {
    PopsInTotalOrder();
    InsertOrdered(q, e, PopsBefore);
  }

  // ----- Rankings -----

  predicate StrictlySorted(q: seq<QueueEntry>) {
    forall i, j :: 0 <= i < j < |q| ==> Above(q[i], q[j])
  }

  /** `q` lists every scored hash once, best first. */
  ghost predicate IsRanking(q: seq<QueueEntry>, scores: map<Hash, real>) {
    && StrictlySorted(q)
    && (forall e :: e in q <==> e.hash in scores && scores[e.hash] == e.score)
  }

  lemma SortedDistinctIsStrict(q: seq<QueueEntry>)
    requires Sorted(q) && NoRepeats(q)
    ensures StrictlySorted(q)
  {
    forall i, j | 0 <= i < j < |q|
      ensures Above(q[i], q[j])
    {
      AboveTotal(q[i], q[j]);
      assert PopsBefore(q[i], q[j]);
    }
  }

  lemma StrictIsSortedDistinct(q: seq<QueueEntry>)
    requires StrictlySorted(q)
    ensures Sorted(q) && NoRepeats(q)
  {
    forall i, j | 0 <= i < j < |q|
      ensures q[i] != q[j] && !Above(q[j], q[i])
    {
      AboveTotal(q[i], q[j]);
    }
  }

  /** Emplacing one more scored hash into a ranking gives the ranking of the larger set. */
  lemma EnqueueRanks(q: seq<QueueEntry>, scores: map<Hash, real>, h: Hash, s: real)
    requires IsRanking(q, scores) && h !in scores
    ensures IsRanking(Enqueue(q, QueueEntry(s, h)), scores[h := s])
  {
    var e := QueueEntry(s, h);
    StrictIsSortedDistinct(q);
    assert e !in q;
    EnqueueSorted(q, e);
    InsertNoRepeats(q, e, PopsBefore);
    SortedDistinctIsStrict(Enqueue(q, e));
    forall x
      ensures x in Enqueue(q, e) <==> x.hash in scores[h := s] && scores[h := s][x.hash] == x.score
    {
      EnqueueMembers(q, e, x);
    }
  }

  ghost function SomeKey(scores: map<Hash, real>): Hash
    requires scores != map[]
    ensures SomeKey(scores) in scores
  {
    var h :| h in scores;
    h
  }

  lemma WithoutKey(scores: map<Hash, real>, h: Hash)
    requires h in scores
    ensures |scores - {h}| == |scores| - 1
    ensures (scores - {h})[h := scores[h]] == scores
  {
    assert (scores - {h}).Keys == scores.Keys - {h};
  }

  /** The ranking of a scored set, by emplacing its members in some order. */
  ghost function Ranked(scores: map<Hash, real>): seq<QueueEntry>
    decreases |scores|
  {
    if scores == map[] then []
    else
      var h := SomeKey(scores);
      WithoutKey(scores, h);
      Enqueue(Ranked(scores - {h}), QueueEntry(scores[h], h))
  }

  lemma {:induction false} RankedIsRanking(scores: map<Hash, real>)
    ensures IsRanking(Ranked(scores), scores)
    ensures |Ranked(scores)| == |scores|
    decreases |scores|
  {
    if scores != map[] {
      var h := SomeKey(scores);
      WithoutKey(scores, h);
      RankedIsRanking(scores - {h});
      EnqueueRanks(Ranked(scores - {h}), scores - {h}, h, scores[h]);
    }
  }

  lemma RankingTail(q: seq<QueueEntry>, scores: map<Hash, real>)
    requires IsRanking(q, scores) && q != []
    ensures IsRanking(q[1..], scores - {q[0].hash})
  {
    StrictIsSortedDistinct(q);
    assert q == [q[0]] + q[1..];
    assert q[0] in q;
    forall e
      ensures e in q[1..] <==> e.hash in scores - {q[0].hash} && (scores - {q[0].hash})[e.hash] == e.score
    {
      assert e in q <==> e == q[0] || e in q[1..];
    }
  }

  /** A scored set has exactly one ranking, whatever order its members were emplaced in. */
  lemma {:induction false} RankingUnique(p: seq<QueueEntry>, q: seq<QueueEntry>, scores: map<Hash, real>)
    requires IsRanking(p, scores) && IsRanking(q, scores)
    ensures p == q
  {
    if q != [] {
      assert q[0] in p;
    }
    if p != [] {
      assert p[0] in q;
      AboveTotal(p[0], q[0]);
      RankingTail(p, scores);
      RankingTail(q, scores);
      RankingUnique(p[1..], q[1..], scores - {p[0].hash});
    }
  }

  lemma RankedGrows(scores: map<Hash, real>, h: Hash, s: real)
    requires h !in scores
    ensures Ranked(scores[h := s]) == Enqueue(Ranked(scores), QueueEntry(s, h))
  {
    RankedIsRanking(scores);
    RankedIsRanking(scores[h := s]);
    EnqueueRanks(Ranked(scores), scores, h, s);
    RankingUnique(Ranked(scores[h := s]), Enqueue(Ranked(scores), QueueEntry(s, h)), scores[h := s]);
  }

  /** `rebuild_priority_queue`: emplacing every pooled hash in any iteration order yields the ranking. */
  method RebuildLoop(scores: map<Hash, real>) returns (q: seq<QueueEntry>)
    ensures q == Ranked(scores)
  {
    q := [];
    var rest := scores.Keys;
    ghost var done: map<Hash, real> := map[];
    while rest != {}
      invariant rest <= scores.Keys
      invariant done == map h | h in scores && h !in rest :: scores[h]
      invariant IsRanking(q, done)
      decreases rest
    {
      var h :| h in rest;
      EnqueueRanks(q, done, h, scores[h]);
      q := Enqueue(q, QueueEntry(scores[h], h));
      rest, done := rest - {h}, done[h := scores[h]];
    }
    assert done == scores;
    RankedIsRanking(scores);
    RankingUnique(q, Ranked(scores), scores);
  }
}
