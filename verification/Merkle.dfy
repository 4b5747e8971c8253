/**
 Merkle roots. One top-down definition of the tree, generic in the pair function, and the two
 level-by-level loops of the source (`Block::calculate_merkle_root`, `crypto::Hash::hash_many`)
 proved equal to it.
 */
module Merkle {
  import opened Transactions
  import opened Bytes
  import opened Powers
  import opened Results
  import opened Hashes

  /** `d` levels are the fewest that cover `n` leaves. */
  predicate IsHeight(n: nat, d: nat) {
    n <= Pow(2, d) && (d > 0 ==> Pow(2, d - 1) < n)
  }

  function SearchHeight(n: nat, d: nat): (h: nat)
    requires d > 0 ==> Pow(2, d - 1) < n
    ensures IsHeight(n, h)
    decreases n - Pow(2, d)
  {
    if n <= Pow(2, d) then d else SearchHeight(n, d + 1)
  }

  /** The number of levels above `n` leaves, the rounded-up binary logarithm. */
  function CeilLog2(n: nat): (d: nat)
    ensures IsHeight(n, d)
  {
    SearchHeight(n, 0)
  }

  lemma Halves(d: nat)
    requires d > 0
    ensures Pow(2, d) == 2 * Pow(2, d - 1)
  {
  }

  lemma {:induction false} Pow2Monotone(c: nat, d: nat)
    requires c <= d
    ensures Pow(2, c) <= Pow(2, d)
  {
    if c < d {
      Pow2Monotone(c, d - 1);
    }
  }

  lemma HeightUnique(n: nat, c: nat, d: nat)
    requires IsHeight(n, c) && IsHeight(n, d)
    ensures c == d
  {
    if c < d {
      Pow2Monotone(c, d - 1);
    } else if d < c {
      Pow2Monotone(d, c - 1);
    }
  }

  /** Pairing up a level of `n` nodes takes away exactly one level. */
  lemma HeightOfHalf(n: nat, m: nat)
    requires n > 1 && m == (n + 1) / 2
    ensures CeilLog2(n) > 0 && IsHeight(m, CeilLog2(n) - 1)
    ensures CeilLog2(m) == CeilLog2(n) - 1
  {
    assert IsHeight(m, CeilLog2(n) - 1);
    HeightUnique(m, CeilLog2(m), CeilLog2(n) - 1);
  }

  lemma HeightOfOne()
    ensures CeilLog2(1) == 0
  {
    HeightUnique(1, CeilLog2(1), 0);
  }

  // ----- The tree -----

  /**
   The tree of height `d` over at most `2^d` leaves: the left subtree takes the first `2^(d-1)` of
   them; when nothing is left for the right subtree, the left one is paired with itself.
   */
  function Tree<T>(xs: seq<T>, d: nat, pair: (T, T) -> T): T
    requires 1 <= |xs| <= Pow(2, d)
    decreases d
  {
    if d == 0 then xs[0]
    else
      var half := Pow(2, d - 1);
      if |xs| <= half then
        var t := Tree(xs, d - 1, pair);
        pair(t, t)
      else
        pair(Tree(xs[..half], d - 1, pair), Tree(xs[half..], d - 1, pair))
  }

  /** The root over any list of leaves; no leaves give `zero`. */
  function Root<T>(xs: seq<T>, zero: T, pair: (T, T) -> T): T {
    if xs == [] then zero
    else Tree(xs, CeilLog2(|xs|), pair)
  }

  /** One level of the bottom-up construction; an odd last element is paired with itself. */
  function PairUp<T>(xs: seq<T>, pair: (T, T) -> T): (ys: seq<T>)
    ensures |ys| == (|xs| + 1) / 2
  {
    if |xs| == 0 then []
    else if |xs| == 1 then [pair(xs[0], xs[0])]
    else [pair(xs[0], xs[1])] + PairUp(xs[2..], pair)
  }

  lemma {:induction false} PairUpSplit<T>(xs: seq<T>, k: nat, pair: (T, T) -> T)
    requires 2 * k <= |xs|
    ensures PairUp(xs, pair) == PairUp(xs[..2 * k], pair) + PairUp(xs[2 * k..], pair)
  {
    if k > 0 {
      PairUpSplit(xs[2..], k - 1, pair);
      assert xs[2..][..2 * (k - 1)] == xs[..2 * k][2..];
      assert xs[2..][2 * (k - 1)..] == xs[2 * k..];
    }
  }

  lemma TreeSplits<T>(xs: seq<T>, d: nat, pair: (T, T) -> T)
    requires d > 0 && Pow(2, d - 1) < |xs| <= Pow(2, d)
    ensures Tree(xs, d, pair)
         == pair(Tree(xs[..Pow(2, d - 1)], d - 1, pair), Tree(xs[Pow(2, d - 1)..], d - 1, pair))
  {
  }

  lemma TreeDoubles<T>(xs: seq<T>, d: nat, pair: (T, T) -> T)
    requires d > 0 && 1 <= |xs| <= Pow(2, d - 1)
    ensures |xs| <= Pow(2, d) && Tree(xs, d, pair) == pair(Tree(xs, d - 1, pair), Tree(xs, d - 1, pair))
  {
  }

  /** The step of `TreeOfPairs` when both subtrees hold leaves. */
  lemma TreeOfPairsSplit<T>(xs: seq<T>, d: nat, pair: (T, T) -> T)
    requires d > 1 && Pow(2, d - 1) < |xs| <= Pow(2, d)
    requires var l := xs[..Pow(2, d - 1)]; Tree(l, d - 1, pair) == Tree(PairUp(l, pair), d - 2, pair)
    requires var r := xs[Pow(2, d - 1)..]; Tree(r, d - 1, pair) == Tree(PairUp(r, pair), d - 2, pair)
    ensures Tree(xs, d, pair) == Tree(PairUp(xs, pair), d - 1, pair)
  {
    var k, ys := Pow(2, d - 2), PairUp(xs, pair);
    Halves(d);
    Halves(d - 1);
    hide Tree, PairUp, Pow;
    PairUpSplit(xs, k, pair);
    assert ys[..k] == PairUp(xs[..2 * k], pair) && ys[k..] == PairUp(xs[2 * k..], pair);
    TreeSplits(xs, d, pair);
    TreeSplits(ys, d - 1, pair);
  }

  /** And when only the left one does. */
  lemma TreeOfPairsDouble<T>(xs: seq<T>, d: nat, pair: (T, T) -> T)
    requires d > 1 && 1 <= |xs| <= Pow(2, d - 1)
    requires Tree(xs, d - 1, pair) == Tree(PairUp(xs, pair), d - 2, pair)
    ensures |xs| <= Pow(2, d) && Tree(xs, d, pair) == Tree(PairUp(xs, pair), d - 1, pair)
  {
    TreeDoubles(xs, d, pair);
    TreeDoubles(PairUp(xs, pair), d - 1, pair);
  }

  lemma TreeOfOnePair<T>(xs: seq<T>, pair: (T, T) -> T)
    requires 1 <= |xs| <= 2
    ensures |xs| <= Pow(2, 1) && |PairUp(xs, pair)| <= Pow(2, 0)
    ensures Tree(xs, 1, pair) == Tree(PairUp(xs, pair), 0, pair)
  {
    assert PairUp(xs, pair) == [Tree(xs, 1, pair)];
  }

  /** Pairing up one level turns a tree of height `d` into a tree of height `d - 1` with the same root. */
  lemma {:induction false} TreeOfPairs<T>(xs: seq<T>, d: nat, pair: (T, T) -> T)
    requires d > 0 && 1 <= |xs| <= Pow(2, d)
    ensures Tree(xs, d, pair) == Tree(PairUp(xs, pair), d - 1, pair)
  {
    hide Tree, PairUp;
    if d == 1 {
      TreeOfOnePair(xs, pair);
    } else {
      Halves(d);
      Halves(d - 1);
      hide Pow;
      if |xs| <= Pow(2, d - 1) {
        TreeOfPairs(xs, d - 1, pair);
        TreeOfPairsDouble(xs, d, pair);
      } else {
        TreeOfPairs(xs[..Pow(2, d - 1)], d - 1, pair);
        TreeOfPairs(xs[Pow(2, d - 1)..], d - 1, pair);
        TreeOfPairsSplit(xs, d, pair);
      }
    }
  }

  lemma RootIsTree<T>(xs: seq<T>, zero: T, d: nat, pair: (T, T) -> T)
    requires xs != [] && IsHeight(|xs|, d)
    ensures Root(xs, zero, pair) == Tree(xs, d, pair)
  {
    HeightUnique(|xs|, d, CeilLog2(|xs|));
  }

  lemma RootOfPairs<T>(xs: seq<T>, zero: T, pair: (T, T) -> T)
    requires |xs| > 1
    ensures Root(PairUp(xs, pair), zero, pair) == Root(xs, zero, pair)
  {
    hide Root, Tree, PairUp, Pow, CeilLog2;
    var d, ys := CeilLog2(|xs|), PairUp(xs, pair);
    HeightOfHalf(|xs|, |ys|);
    TreeOfPairs(xs, d, pair);
    RootIsTree(xs, zero, d, pair);
    RootIsTree(ys, zero, d - 1, pair);
  }

  /** No leaf gives the zero hash and one leaf gives itself. */
  lemma RootOfFew<T>(xs: seq<T>, zero: T, pair: (T, T) -> T)
    requires |xs| <= 1
    ensures Root(xs, zero, pair) == if xs == [] then zero else xs[0]
  {
    HeightOfOne();
  }

  /** The nodes `k` levels above the leaves. */
  function Level<T>(leaves: seq<T>, k: nat, pair: (T, T) -> T): seq<T> {
    if k == 0 then leaves else PairUp(Level(leaves, k - 1, pair), pair)
  }

  lemma {:induction false} LevelSize<T>(leaves: seq<T>, d: nat, k: nat, pair: (T, T) -> T)
    requires 1 <= |leaves| <= Pow(2, d) && k <= d
    ensures 1 <= |Level(leaves, k, pair)| <= Pow(2, d - k)
  {
    if k > 0 {
      LevelSize(leaves, d, k - 1, pair);
    }
  }

  /** The tree over the leaves is the lower tree over any of its levels. */
  lemma {:induction false} TreeOfLevel<T>(leaves: seq<T>, d: nat, k: nat, pair: (T, T) -> T)
    requires 1 <= |leaves| <= Pow(2, d) && k <= d
    ensures 1 <= |Level(leaves, k, pair)| <= Pow(2, d - k)
    ensures Tree(leaves, d, pair) == Tree(Level(leaves, k, pair), d - k, pair)
  {
    hide Tree, PairUp, Pow;
    LevelSize(leaves, d, k, pair);
    if k > 0 {
      TreeOfLevel(leaves, d, k - 1, pair);
      TreeOfPairs(Level(leaves, k - 1, pair), d - k + 1, pair);
    }
  }

  /** Node `k` of the next level pairs nodes `2k` and `2k + 1`, or node `2k` with itself at the end. */
  lemma {:induction false} PairUpAt<T>(xs: seq<T>, k: nat, pair: (T, T) -> T)
    requires 2 * k < |xs|
    ensures PairUp(xs, pair)[k] == pair(xs[2 * k], xs[if 2 * k + 1 < |xs| then 2 * k + 1 else 2 * k])
  {
    if k > 0 {
      PairUpAt(xs[2..], k - 1, pair);
    }
  }

  /** The inner loop of the source: one pass over a level, two nodes at a time. */
  method PairLoop<T>(level: seq<T>, pair: (T, T) -> T) returns (next: seq<T>)
    ensures next == PairUp(level, pair)
  {
    hide PairUp;
    ghost var pairs := PairUp(level, pair);
    next := [];
    var i := 0;
    while i < |level|
      invariant i == 2 * |next| && |next| <= |pairs|
      invariant next == pairs[..|next|]
    {
      PairUpAt(level, |next|, pair);
      if i + 1 < |level| {
        next := next + [pair(level[i], level[i + 1])];
      } else {
        next := next + [pair(level[i], level[i])];
      }
      i := i + 2;
    }
  }

  /**
   The loop of `Block::calculate_merkle_root`. It computes the tree's root in exactly
   `ceil(log2 n)` levels and at most `n - 1 + ceil(log2 n)` calls of the pair function.
   */
  method MerkleLoop<T>(leaves: seq<T>, zero: T, pair: (T, T) -> T)
      returns (root: T, ghost levels: nat, ghost pairings: nat)
    ensures root == Root(leaves, zero, pair)
    ensures leaves != [] ==> levels == CeilLog2(|leaves|)
    ensures leaves != [] ==> |leaves| - 1 <= pairings <= |leaves| - 1 + levels
  {
    levels, pairings := 0, 0;
    if |leaves| == 0 {
      return zero, 0, 0;
    }
    if |leaves| == 1 {
      return leaves[0], 0, 0;
    }
    var hashes := leaves;
    while |hashes| > 1
      invariant |hashes| >= 1
      invariant Root(hashes, zero, pair) == Root(leaves, zero, pair)
      invariant levels + CeilLog2(|hashes|) == CeilLog2(|leaves|)
      invariant |leaves| - |hashes| <= pairings <= |leaves| - |hashes| + levels
      decreases |hashes|
    {
      var next := PairLoop(hashes, pair);
      RootOfPairs(hashes, zero, pair);
      HeightOfHalf(|hashes|, |next|);
      levels, pairings := levels + 1, pairings + |next|;
      hashes := next;
    }
    root := hashes[0];
  }

  // ----- A pair function that can fail -----

  function Lift<T, E>(pair: (T, T) -> Result<T, E>): (Result<T, E>, Result<T, E>) -> Result<T, E> {
    (a: Result<T, E>, b: Result<T, E>) =>
      if a.Err? then a else if b.Err? then b else pair(a.value, b.value)
  }

  function Oks<T, E>(xs: seq<T>): (ys: seq<Result<T, E>>)
    ensures |ys| == |xs|
  {
    seq(|xs|, i requires 0 <= i < |xs| => Ok(xs[i]))
  }

  predicate AllOk<T, E>(xs: seq<Result<T, E>>) {
    forall i :: 0 <= i < |xs| ==> xs[i].Ok?
  }

  /** The nodes `k` levels above the leaves, a failed pairing being a failed node. */
  function Attempted<T, E>(leaves: seq<T>, k: nat, pair: (T, T) -> Result<T, E>): seq<Result<T, E>> {
    Level(Oks(leaves), k, Lift(pair))
  }

  /**
   The first `k` levels are made of successes; in the level above them node `i` fails with `error`,
   and no node before it does.
   */
  ghost predicate FirstFailure<T, E>(leaves: seq<T>, k: nat, i: nat, error: E, pair: (T, T) -> Result<T, E>) {
    && AllOk(Attempted(leaves, k, pair))
    && i < |Attempted(leaves, k + 1, pair)|
    && AllOk(Attempted(leaves, k + 1, pair)[..i])
    && Attempted(leaves, k + 1, pair)[i] == Err(error)
  }

  /** A failed node anywhere in a level makes the whole tree fail. */
  lemma {:induction false} FailureSpreads<T, E>(
      xs: seq<Result<T, E>>, d: nat, pair: (T, T) -> Result<T, E>, k: nat)
    requires 1 <= |xs| <= Pow(2, d) && k < |xs| && xs[k].Err?
    ensures Tree(xs, d, Lift(pair)).Err?
  {
    if d > 0 {
      var half := Pow(2, d - 1);
      if |xs| <= half {
        FailureSpreads(xs, d - 1, pair, k);
      } else if k < half {
        FailureSpreads(xs[..half], d - 1, pair, k);
        TreeSplits(xs, d, Lift(pair));
      } else {
        FailureSpreads(xs[half..], d - 1, pair, k - half);
        TreeSplits(xs, d, Lift(pair));
      }
    }
  }

  lemma RootFails<T, E>(xs: seq<Result<T, E>>, zero: T, pair: (T, T) -> Result<T, E>, k: nat)
    requires k < |xs| && xs[k].Err?
    ensures Root(xs, Ok(zero), Lift(pair)).Err?
  {
    hide Tree, Pow, CeilLog2;
    FailureSpreads(xs, CeilLog2(|xs|), pair, k);
  }

  /** Pairing two successes is the pairing itself. */
  lemma LiftedPair<T, E>(level: seq<T>, k: nat, pair: (T, T) -> Result<T, E>)
    requires 2 * k < |level|
    ensures PairUp(Oks(level), Lift(pair))[k]
         == pair(level[2 * k], level[if 2 * k + 1 < |level| then 2 * k + 1 else 2 * k])
  {
    hide PairUp;
    PairUpAt(Oks(level), k, Lift(pair));
  }

  /**
   One level of `hash_many`: the next level, or the error of the first pairing that fails, after
   which no pairing is made.
   */
  method HashLevel<T, E>(level: seq<T>, pair: (T, T) -> Result<T, E>)
      returns (next: Result<seq<T>, E>, ghost calls: nat)
    ensures next.Ok? ==> Oks(next.value) == PairUp(Oks(level), Lift(pair)) && calls == |next.value|
    ensures next.Err? ==>
              && 0 < calls <= (|level| + 1) / 2
              && PairUp(Oks(level), Lift(pair))[calls - 1] == Err(next.error)
              && AllOk(PairUp(Oks(level), Lift(pair))[..calls - 1])
  {
    hide PairUp, Lift;
    ghost var pairs := PairUp(Oks(level), Lift(pair));
    var nodes: seq<T> := [];
    var i := 0;
    calls := 0;
    while i < |level|
      invariant calls == |nodes| && i == 2 * calls && calls <= |pairs|
      invariant pairs[..calls] == Oks(nodes)
    {
      LiftedPair(level, calls, pair);
      var node := if i + 1 < |level| then pair(level[i], level[i + 1]) else pair(level[i], level[i]);
      calls := calls + 1;
      if node.Err? {
        return Err(node.error), calls;
      }
      nodes := nodes + [node.value];
      i := i + 2;
    }
    next := Ok(nodes);
  }

  /**
   The loop of `hash_many`, which stops at the first pairing that fails. It succeeds exactly when
   every node of the tree does, with the tree's root, in exactly `ceil(log2 n)` levels and at most
   `n - 1 + ceil(log2 n)` pairings; otherwise it stops within an earlier level, and its error is that
   of the first pairing to fail.
   */
  method HashMany<T, E>(hashes: seq<T>, zero: T, pair: (T, T) -> Result<T, E>)
      returns (root: Result<T, E>, ghost levels: nat, ghost pairings: nat)
    ensures root.Ok? <==> Root(Oks(hashes), Ok(zero), Lift(pair)).Ok?
    ensures root.Ok? ==> root == Root(Oks(hashes), Ok(zero), Lift(pair))
    ensures hashes == [] ==> root == Ok(zero) && pairings == 0
    ensures root.Ok? && hashes != [] ==> levels == CeilLog2(|hashes|) && |hashes| - 1 <= pairings
    ensures root.Err? ==> levels < CeilLog2(|hashes|)
    ensures root.Err? ==> exists i :: FirstFailure(hashes, levels, i, root.error, pair)
    ensures hashes != [] ==> pairings <= |hashes| - 1 + levels
  {
    hide Root, Tree, PairUp, Lift, CeilLog2, FirstFailure;
    levels, pairings := 0, 0;
    if |hashes| == 0 {
      RootOfFew(Oks(hashes), Ok(zero), Lift(pair));
      return Ok(zero), 0, 0;
    }
    if |hashes| == 1 {
      RootOfFew(Oks(hashes), Ok(zero), Lift(pair));
      HeightOfOne();
      return Ok(hashes[0]), 0, 0;
    }
    var level := hashes;
    while |level| > 1
      invariant |level| >= 1
      invariant Root(Oks(level), Ok(zero), Lift(pair)) == Root(Oks(hashes), Ok(zero), Lift(pair))
      invariant Oks(level) == Attempted(hashes, levels, pair)
      invariant levels + CeilLog2(|level|) == CeilLog2(|hashes|)
      invariant |hashes| - |level| <= pairings <= |hashes| - |level| + levels
      decreases |level|
    {
      var next, calls := HashLevel(level, pair);
      RootOfPairs(Oks(level), Ok(zero), Lift(pair));
      HeightOfHalf(|level|, (|level| + 1) / 2);
      pairings := pairings + calls;
      if next.Err? {
        RootFails(PairUp(Oks(level), Lift(pair)), zero, pair, calls - 1);
        FailsAt(hashes, level, levels, calls - 1, next.error, pair);
        return Err(next.error), levels, pairings;
      }
      level, levels := next.value, levels + 1;
    }
    RootOfFew(Oks(level), Ok(zero), Lift(pair));
    HeightOfOne();
    root := Ok(level[0]);
  }

  lemma FailsAt<T, E>(leaves: seq<T>, level: seq<T>, k: nat, i: nat, error: E, pair: (T, T) -> Result<T, E>)
    requires Oks(level) == Attempted(leaves, k, pair)
    requires i < |PairUp(Oks(level), Lift(pair))| && PairUp(Oks(level), Lift(pair))[i] == Err(error)
    requires AllOk(PairUp(Oks(level), Lift(pair))[..i])
    ensures FirstFailure(leaves, k, i, error, pair)
  {
    hide PairUp, Lift;
    assert AllOk<T, E>(Oks(level));
  }

  lemma {:induction false} TotalPairing<T(!new), E>(
      xs: seq<T>, d: nat, pair: (T, T) -> Result<T, E>, total: (T, T) -> T)
    requires 1 <= |xs| <= Pow(2, d)
    requires NeverFails(pair, total)
    ensures Tree(Oks(xs), d, Lift(pair)) == Ok(Tree(xs, d, total))
  {
    if d > 0 {
      var half := Pow(2, d - 1);
      if |xs| <= half {
        TotalPairing(xs, d - 1, pair, total);
      } else {
        TotalPairing(xs[..half], d - 1, pair, total);
        TotalPairing(xs[half..], d - 1, pair, total);
        assert Oks<T, E>(xs)[..half] == Oks(xs[..half]);
        assert Oks<T, E>(xs)[half..] == Oks(xs[half..]);
      }
    }
  }

  ghost predicate NeverFails<T(!new), E>(pair: (T, T) -> Result<T, E>, total: (T, T) -> T) {
    forall a, b :: pair(a, b) == Ok(total(a, b))
  }

  /** When every pairing succeeds, `hash_many` and `Block::calculate_merkle_root` compute the same root. */
  lemma LoopsAgree<T(!new), E>(xs: seq<T>, zero: T, pair: (T, T) -> Result<T, E>, total: (T, T) -> T)
    requires NeverFails(pair, total)
    ensures Root(Oks(xs), Ok(zero), Lift(pair)) == Ok(Root(xs, zero, total))
  {
    hide Tree, NeverFails;
    if xs != [] {
      TotalPairing(xs, CeilLog2(|xs|), pair, total);
    }
  }

  // ----- What a root commits to -----

  ghost predicate InjectivePair<T(!new)>(pair: (T, T) -> T) {
    forall a, b, c, d :: pair(a, b) == pair(c, d) ==> a == c && b == d
  }

  /** The `2^d` leaves of the tree once every self-pairing is written out. */
  function Expand<T>(xs: seq<T>, d: nat): (ys: seq<T>)
    requires 1 <= |xs| <= Pow(2, d)
    ensures |ys| == Pow(2, d)
    decreases d
  {
    if d == 0 then [xs[0]]
    else
      var half := Pow(2, d - 1);
      if |xs| <= half then Expand(xs, d - 1) + Expand(xs, d - 1)
      else Expand(xs[..half], d - 1) + Expand(xs[half..], d - 1)
  }

  lemma ExpandUnfolds<T>(xs: seq<T>, d: nat)
    requires d > 0 && 1 <= |xs| <= Pow(2, d)
    ensures Pow(2, d) == 2 * Pow(2, d - 1)
    ensures |xs| <= Pow(2, d - 1) ==> Expand(xs, d) == Expand(xs, d - 1) + Expand(xs, d - 1)
    ensures |xs| > Pow(2, d - 1) ==>
              Expand(xs, d) == Expand(xs[..Pow(2, d - 1)], d - 1) + Expand(xs[Pow(2, d - 1)..], d - 1)
  {
  }

  lemma SamePrefix<T>(xs: seq<T>, ys: seq<T>)
    requires xs <= ys && |xs| == |ys|
    ensures xs == ys
  {
  }

  lemma PrefixAppends<T>(l: seq<T>, r: seq<T>, longer: seq<T>)
    requires r <= longer
    ensures l + r <= l + longer
  {
    assert longer == r + longer[|r|..];
    assert l + longer == l + r + longer[|r|..];
  }

  lemma {:induction false} ExpandStartsWithLeaves<T>(xs: seq<T>, d: nat)
    requires 1 <= |xs| <= Pow(2, d)
    ensures xs <= Expand(xs, d)
  {
    if d > 0 {
      var half := Pow(2, d - 1);
      ExpandUnfolds(xs, d);
      hide Expand, Pow;
      if |xs| <= half {
        ExpandStartsWithLeaves(xs, d - 1);
      } else {
        var l, r := xs[..half], xs[half..];
        ExpandStartsWithLeaves(l, d - 1);
        ExpandStartsWithLeaves(r, d - 1);
        PrefixAppends(l, r, Expand(r, d - 1));
        SamePrefix(l, Expand(l, d - 1));
        assert xs == l + r;
      }
    }
  }

  lemma TreeOfAppend<T>(l: seq<T>, r: seq<T>, d: nat, pair: (T, T) -> T)
    requires d > 0 && |l| == |r| == Pow(2, d - 1)
    ensures |l + r| == Pow(2, d) && Tree(l + r, d, pair) == pair(Tree(l, d - 1, pair), Tree(r, d - 1, pair))
  {
    hide Tree;
    assert (l + r)[..|l|] == l && (l + r)[|l|..] == r;
    TreeSplits(l + r, d, pair);
  }

  lemma {:induction false} TreeOfExpansion<T>(xs: seq<T>, d: nat, pair: (T, T) -> T)
    requires 1 <= |xs| <= Pow(2, d)
    ensures Tree(Expand(xs, d), d, pair) == Tree(xs, d, pair)
  {
    if d > 0 {
      hide Tree;
      var half := Pow(2, d - 1);
      ExpandUnfolds(xs, d);
      hide Expand, Pow;
      if |xs| <= half {
        TreeDoubles(xs, d, pair);
        TreeOfExpansion(xs, d - 1, pair);
        TreeOfAppend(Expand(xs, d - 1), Expand(xs, d - 1), d, pair);
      } else {
        var l, r := xs[..half], xs[half..];
        TreeSplits(xs, d, pair);
        TreeOfExpansion(l, d - 1, pair);
        TreeOfExpansion(r, d - 1, pair);
        TreeOfAppend(Expand(l, d - 1), Expand(r, d - 1), d, pair);
      }
    }
  }

  lemma {:induction false} FullTreesInjective<T(!new)>(xs: seq<T>, ys: seq<T>, d: nat, pair: (T, T) -> T)
    requires InjectivePair(pair)
    requires |xs| == |ys| == Pow(2, d)
    requires Tree(xs, d, pair) == Tree(ys, d, pair)
    ensures xs == ys
  {
    if d > 0 {
      var half := Pow(2, d - 1);
      FullTreesInjective(xs[..half], ys[..half], d - 1, pair);
      FullTreesInjective(xs[half..], ys[half..], d - 1, pair);
      assert xs == xs[..half] + xs[half..] && ys == ys[..half] + ys[half..];
    }
  }

  /**
   Exactly what a root commits to: with an injective pair function, two leaf lists of one height
   share their root if and only if they are the same list once self-pairings are written out.
   */
  lemma RootCommitsToExpansion<T(!new)>(xs: seq<T>, ys: seq<T>, d: nat, pair: (T, T) -> T)
    requires InjectivePair(pair)
    requires 1 <= |xs| <= Pow(2, d) && 1 <= |ys| <= Pow(2, d)
    ensures Tree(xs, d, pair) == Tree(ys, d, pair) <==> Expand(xs, d) == Expand(ys, d)
  {
    TreeOfExpansion(xs, d, pair);
    TreeOfExpansion(ys, d, pair);
    if Tree(xs, d, pair) == Tree(ys, d, pair) {
      FullTreesInjective(Expand(xs, d), Expand(ys, d), d, pair);
    }
  }

  /**
   And for any two lists: they share their root if and only if the lower tree, self-pairings written
   out, is the matching level of the higher one, self-pairings written out.
   */
  lemma RootsAgreeIff<T(!new)>(xs: seq<T>, ys: seq<T>, zero: T, pair: (T, T) -> T)
    requires InjectivePair(pair) && xs != [] && ys != [] && CeilLog2(|xs|) <= CeilLog2(|ys|)
    ensures var c, d := CeilLog2(|xs|), CeilLog2(|ys|);
            && 1 <= |Level(ys, d - c, pair)| <= Pow(2, c)
            && (Root(xs, zero, pair) == Root(ys, zero, pair) <==> Expand(xs, c) == Expand(Level(ys, d - c, pair), c))
  {
    hide Tree, Expand, Level, Pow, CeilLog2, InjectivePair;
    var c, d := CeilLog2(|xs|), CeilLog2(|ys|);
    TreeOfLevel(ys, d, d - c, pair);
    RootCommitsToExpansion(xs, Level(ys, d - c, pair), c, pair);
  }

  /** Leaf lists of equal length with the same root are equal. */
  lemma RootInjectiveAtEqualLength<T(!new)>(xs: seq<T>, ys: seq<T>, zero: T, pair: (T, T) -> T)
    requires InjectivePair(pair)
    requires |xs| == |ys| && Root(xs, zero, pair) == Root(ys, zero, pair)
    ensures xs == ys
  {
    if xs != [] {
      var d := CeilLog2(|xs|);
      RootCommitsToExpansion(xs, ys, d, pair);
      ExpandStartsWithLeaves(xs, d);
      ExpandStartsWithLeaves(ys, d);
    }
  }

  /** At unequal lengths the root does not identify the list: every odd list of three or more
      leaves has the root of that list with its last leaf repeated, whatever the pair function. */
  lemma RepeatedLastLeaf<T>(xs: seq<T>, zero: T, pair: (T, T) -> T)
    requires |xs| >= 3 && |xs| % 2 == 1
    ensures Root(xs, zero, pair) == Root(xs + [xs[|xs| - 1]], zero, pair)
  {
    var ys := xs + [xs[|xs| - 1]];
    var k := |xs| / 2;
    PairUpSplit(xs, k, pair);
    PairUpSplit(ys, k, pair);
    assert xs[..2 * k] == ys[..2 * k];
    assert PairUp(xs, pair) == PairUp(ys, pair);
    RootOfPairs(xs, zero, pair);
    RootOfPairs(ys, zero, pair);
  }

  // ----- The shipped pair function -----

  lemma LeadingHalfOfPair(l: Hash, r: Hash)
    ensures CombineHashes(l, r)[..16] == l[..16]
  {
  }

  lemma {:induction false} LeadingHalf(xs: seq<Hash>, d: nat)
    requires 1 <= |xs| <= Pow(2, d)
    ensures Tree(xs, d, CombineHashes)[..16] == xs[0][..16]
  {
    if d > 0 {
      var half := Pow(2, d - 1);
      if |xs| <= half {
        LeadingHalf(xs, d - 1);
        LeadingHalfOfPair(Tree(xs, d - 1, CombineHashes), Tree(xs, d - 1, CombineHashes));
      } else {
        LeadingHalf(xs[..half], d - 1);
        TreeSplits(xs, d, CombineHashes);
        LeadingHalfOfPair(Tree(xs[..half], d - 1, CombineHashes), Tree(xs[half..], d - 1, CombineHashes));
      }
    }
  }

  /**
   With the shipped `combine_hashes` the root is the leading half of the first leaf followed by the
   leading half of leaf `2^(ceil(log2 n) - 1)`; no other leaf has any influence.
   */
  lemma ShippedRoot(xs: seq<Hash>, zero: Hash)
    requires |xs| >= 2
    ensures Pow(2, CeilLog2(|xs|) - 1) < |xs|
    ensures Root(xs, zero, CombineHashes) == xs[0][..16] + xs[Pow(2, CeilLog2(|xs|) - 1)][..16]
  {
    var d := CeilLog2(|xs|);
    var half := Pow(2, d - 1);
    LeadingHalf(xs[..half], d - 1);
    LeadingHalf(xs[half..], d - 1);
    var l, r := Tree(xs[..half], d - 1, CombineHashes), Tree(xs[half..], d - 1, CombineHashes);
    assert Root(xs, zero, CombineHashes) == CombineHashes(l, r);
  }

  /** Hence two lists have the same shipped root exactly when those two half-leaves agree. */
  lemma ShippedRootCollides(xs: seq<Hash>, ys: seq<Hash>, zero: Hash)
    requires |xs| >= 2 && |ys| >= 2
    ensures Pow(2, CeilLog2(|xs|) - 1) < |xs| && Pow(2, CeilLog2(|ys|) - 1) < |ys|
    ensures Root(xs, zero, CombineHashes) == Root(ys, zero, CombineHashes) <==>
            xs[0][..16] == ys[0][..16] &&
            xs[Pow(2, CeilLog2(|xs|) - 1)][..16] == ys[Pow(2, CeilLog2(|ys|) - 1)][..16]
  {
    ShippedRoot(xs, zero);
    ShippedRoot(ys, zero);
    var a, b := xs[0][..16], xs[Pow(2, CeilLog2(|xs|) - 1)][..16];
    var c, d := ys[0][..16], ys[Pow(2, CeilLog2(|ys|) - 1)][..16];
    if a + b == c + d {
      SplitEqual(a, c, b, d);
    }
  }
}
