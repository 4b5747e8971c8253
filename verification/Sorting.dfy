/** Sorting by an order given as a function: of keys, endpoints, peers by recency and queue entries. */
module Sorting {

  ghost predicate TotalOrder<T(!new)>(atMost: (T, T) -> bool) {
    && (forall a, b :: atMost(a, b) || atMost(b, a))
    && (forall a, b, c :: atMost(a, b) && atMost(b, c) ==> atMost(a, c))
  }

  predicate Ordered<T>(xs: seq<T>, atMost: (T, T) -> bool) {
    forall i, j :: 0 <= i < j < |xs| ==> atMost(xs[i], xs[j])
  }

  function InsertInOrder<T>(xs: seq<T>, x: T, atMost: (T, T) -> bool): (ys: seq<T>)
    ensures |ys| == |xs| + 1
  {
    if xs == [] || !atMost(xs[0], x) then [x] + xs else [xs[0]] + InsertInOrder(xs[1..], x, atMost)
  }

  lemma {:induction false} InsertHolds<T>(xs: seq<T>, x: T, atMost: (T, T) -> bool)
    ensures multiset(InsertInOrder(xs, x, atMost)) == multiset(xs) + multiset{x}
  {
    if xs != [] && atMost(xs[0], x) {
      InsertHolds(xs[1..], x, atMost);
      assert xs == [xs[0]] + xs[1..];
    }
  }

  lemma OrderedCons<T>(x: T, xs: seq<T>, atMost: (T, T) -> bool)
    requires Ordered(xs, atMost) && forall y :: y in xs ==> atMost(x, y)
    ensures Ordered([x] + xs, atMost)
  {
  }

  lemma HeadIsLeast<T>(xs: seq<T>, y: T, atMost: (T, T) -> bool)
    requires Ordered(xs, atMost) && xs != [] && y in xs[1..]
    ensures atMost(xs[0], y)
  {
    var i :| 0 <= i < |xs[1..]| && xs[1..][i] == y;
    assert xs[i + 1] == y;
  }

  lemma {:induction false} InsertOrdered<T(!new)>(xs: seq<T>, x: T, atMost: (T, T) -> bool)
    requires TotalOrder(atMost) && Ordered(xs, atMost)
    ensures Ordered(InsertInOrder(xs, x, atMost), atMost)
  {
    if xs != [] {
      if atMost(xs[0], x) {
        var rest := InsertInOrder(xs[1..], x, atMost);
        InsertOrdered(xs[1..], x, atMost);
        InsertHolds(xs[1..], x, atMost);
        forall y | y in rest
          ensures atMost(xs[0], y)
        {
          assert y in multiset(rest);
          if y != x {
            HeadIsLeast(xs, y, atMost);
          }
        }
        OrderedCons(xs[0], rest, atMost);
      } else {
        forall y | y in xs
          ensures atMost(x, y)
        {
          if y != xs[0] {
            HeadIsLeast(xs, y, atMost);
          }
        }
        OrderedCons(x, xs, atMost);
      }
    }
  }

  method Sort<T(!new)>(xs: seq<T>, atMost: (T, T) -> bool) returns (sorted: seq<T>)
    requires TotalOrder(atMost)
    ensures Ordered(sorted, atMost) && multiset(sorted) == multiset(xs)
  {
    hide TotalOrder, Ordered, InsertInOrder;
    sorted := [];
    NothingOrdered(atMost);
    for i := 0 to |xs|
      invariant Ordered(sorted, atMost) && multiset(sorted) == multiset(xs[..i])
    {
      InsertOrdered(sorted, xs[i], atMost);
      InsertHolds(sorted, xs[i], atMost);
      assert xs[..i + 1] == xs[..i] + [xs[i]];
      sorted := InsertInOrder(sorted, xs[i], atMost);
    }
    assert xs[..|xs|] == xs;
  }

  lemma NothingOrdered<T>(atMost: (T, T) -> bool)
    ensures Ordered([], atMost)
  {
  }

  /** The elements of a set in some order, each once. */
  method Elements<T(==)>(s: set<T>) returns (xs: seq<T>)
    ensures multiset(xs) == multiset(s)
  {
    xs := [];
    var rest := s;
    while rest != {}
      invariant rest <= s && multiset(xs) == multiset(s - rest)
      decreases rest
    {
      var x :| x in rest;
      assert s - (rest - {x}) == s - rest + {x};
      xs := xs + [x];
      rest := rest - {x};
    }
    assert s - rest == s;
  }

  lemma Twice<T>(xs: seq<T>, i: nat, j: nat)
    requires i < j < |xs|
    ensures xs[i] == xs[j] ==> multiset(xs)[xs[i]] >= 2
  {
    assert xs == xs[..i] + [xs[i]] + xs[i + 1..j] + [xs[j]] + xs[j + 1..];
  }

  predicate NoRepeats<T(==)>(xs: seq<T>) {
    forall i, j :: 0 <= i < j < |xs| ==> xs[i] != xs[j]
  }

  lemma EachOnce<T>(xs: seq<T>, s: set<T>)
    requires multiset(xs) == multiset(s)
    ensures forall x :: x in xs <==> x in s
    ensures NoRepeats(xs)
  {
    assert forall x :: x in xs <==> x in multiset(xs);
    forall i, j | 0 <= i < j < |xs|
      ensures xs[i] != xs[j]
    {
      Twice(xs, i, j);
    }
  }

  lemma AtMostOnce<T>(xs: seq<T>, i: nat)
    requires NoRepeats(xs) && i < |xs|
    ensures multiset(xs)[xs[i]] == 1
  {
    var before, after := xs[..i], xs[i + 1..];
    assert xs == before + [xs[i]] + after;
    assert xs[i] !in before && xs[i] !in after;
  }

  lemma InsertNoRepeats<T>(xs: seq<T>, x: T, atMost: (T, T) -> bool)
    requires NoRepeats(xs) && x !in xs
    ensures NoRepeats(InsertInOrder(xs, x, atMost))
  {
    hide InsertInOrder;
    var ys := InsertInOrder(xs, x, atMost);
    InsertHolds(xs, x, atMost);
    forall i, j | 0 <= i < j < |ys|
      ensures ys[i] != ys[j]
    {
      Twice(ys, i, j);
      assert ys[i] in multiset(ys);
      if ys[i] != x {
        assert ys[i] in xs;
        var k :| 0 <= k < |xs| && xs[k] == ys[i];
        AtMostOnce(xs, k);
      }
    }
  }
}
