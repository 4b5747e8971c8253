/** The sliding-window error rate limiter (`monitoring::ErrorRateLimiter`) and retries with backoff. */
module RateLimiter {
  import opened Powers
  import opened Results

  // ----- The limiter and its reference -----

  /** Times and the window are in milliseconds; rates are errors per second. */
  datatype Event = Error(at: int) | Ask(at: int)

  function Prune(times: seq<int>, start: int): seq<int> {
    if times != [] && times[0] < start then Prune(times[1..], start) else times
  }

  /** The limiter's deque after a run. */
  function Deque(window: int, es: seq<Event>): seq<int> {
    if es == [] then []
    else
      var before := Deque(window, es[..|es| - 1]);
      match es[|es| - 1]
      case Error(at) => before + [at]
      case Ask(at) => Prune(before, at - window)
  }

  /** `n` errors per window against the limit; a zero window yields no number at or below it. */
  predicate WithinRate(n: nat, window: int, maxRate: real) {
    window != 0 && n as real / (window as real / 1000.0) <= maxRate
  }

  /** `n` errors in `window` milliseconds are 1000 n / window per second; a zero window allows nothing. */
  lemma WithinRateIff(n: nat, window: int, maxRate: real)
    ensures window == 0 ==> !WithinRate(n, window, maxRate)
    ensures window > 0 ==> (WithinRate(n, window, maxRate) <==> 1000.0 * n as real <= maxRate * window as real)
    ensures window < 0 ==> (WithinRate(n, window, maxRate) <==> 1000.0 * n as real >= maxRate * window as real)
  {
    if window != 0 {
      var w, rate := window as real / 1000.0, n as real / (window as real / 1000.0);
      assert rate * w == n as real;
      assert maxRate * window as real == 1000.0 * (maxRate * w);
      if window > 0 {
        SameSide(rate, maxRate, w);
      } else {
        SameSide(maxRate, rate, -w);
        assert maxRate * -w == -(maxRate * w) && rate * -w == -(rate * w);
      }
    }
  }

  lemma SameSide(a: real, b: real, w: real)
    requires w > 0.0
    ensures a <= b <==> a * w <= b * w
  {
    if a <= b {
      assert (b - a) * w >= 0.0;
    } else {
      assert (a - b) * w > 0.0;
    }
  }

  /** What `should_allow_operation` answers at time `now` after a run. */
  predicate Allows(window: int, maxRate: real, es: seq<Event>, now: int) {
    WithinRate(|Prune(Deque(window, es), now - window)|, window, maxRate)
  }

  /** Every error of the run, whether or not the limiter still remembers it. */
  function History(es: seq<Event>): seq<int> {
    if es == [] then []
    else History(es[..|es| - 1]) + if es[|es| - 1].Error? then [es[|es| - 1].at] else []
  }

  function CountSince(times: seq<int>, start: int): nat {
    if times == [] then 0
    else CountSince(times[..|times| - 1], start) + if times[|times| - 1] >= start then 1 else 0
  }

  predicate Monotone(es: seq<Event>) {
    forall i, j :: 0 <= i < j < |es| ==> es[i].at <= es[j].at
  }

  // ----- The deque is the part of the history that can still matter -----

  lemma {:induction false} CountAppend(a: seq<int>, b: seq<int>, start: int)
    ensures CountSince(a + b, start) == CountSince(a, start) + CountSince(b, start)
  {
    if b == [] {
      assert a + b == a;
    } else {
      CountAppend(a, b[..|b| - 1], start);
      assert (a + b)[..|a + b| - 1] == a + b[..|b| - 1];
    }
  }

  predicate AllBelow(times: seq<int>, start: int) {
    forall i :: 0 <= i < |times| ==> times[i] < start
  }

  predicate Ascending(times: seq<int>) {
    forall i, j :: 0 <= i < j < |times| ==> times[i] <= times[j]
  }

  lemma {:induction false} CountBelow(times: seq<int>, start: int)
    requires AllBelow(times, start)
    ensures CountSince(times, start) == 0
  {
    if times != [] {
      CountBelow(times[..|times| - 1], start);
    }
  }

  lemma {:induction false} CountAll(times: seq<int>, start: int)
    requires forall i :: 0 <= i < |times| ==> times[i] >= start
    ensures CountSince(times, start) == |times|
  {
    if times != [] {
      CountAll(times[..|times| - 1], start);
    }
  }

  /** Pruning cuts off exactly the entries before the window, since the deque is in time order. */
  lemma {:induction false} PruneCuts(times: seq<int>, start: int) returns (k: nat)
    requires Ascending(times)
    ensures k <= |times| && Prune(times, start) == times[k..] && AllBelow(times[..k], start)
    ensures forall i :: k <= i < |times| ==> times[i] >= start
  {
    if times != [] && times[0] < start {
      var j := PruneCuts(times[1..], start);
      k := j + 1;
      assert times[1..][j..] == times[k..];
      assert forall i :: 0 < i < k ==> times[i] == times[1..][..j][i - 1];
      assert forall i :: k <= i < |times| ==> times[i] == times[1..][i - 1];
    } else {
      k := 0;
    }
  }

  lemma PruneCounts(times: seq<int>, start: int)
    requires Ascending(times)
    ensures |Prune(times, start)| == CountSince(times, start)
  {
    var k := PruneCuts(times, start);
    assert times == times[..k] + times[k..];
    CountAppend(times[..k], times[k..], start);
    CountBelow(times[..k], start);
    CountAll(times[k..], start);
  }

  /** The history is a forgotten part, all before `cut`, followed by the deque. */
  ghost predicate Remembers(history: seq<int>, deque: seq<int>, cut: int) {
    exists prior :: history == prior + deque && AllBelow(prior, cut)
  }

  predicate BoundedBy(times: seq<int>, now: int) {
    forall i :: 0 <= i < |times| ==> times[i] <= now
  }

  function Now(es: seq<Event>): int
    requires es != []
  {
    es[|es| - 1].at
  }

  /** What holds of the history and the deque at time `now`. */
  ghost predicate Tracks(history: seq<int>, deque: seq<int>, window: int, now: int) {
    Ascending(deque) && BoundedBy(deque, now) && Remembers(history, deque, now - window)
  }

  lemma LaterTracks(history: seq<int>, deque: seq<int>, window: int, before: int, now: int)
    requires Tracks(history, deque, window, before) && before <= now
    ensures Tracks(history, deque, window, now)
  {
    var prior :| history == prior + deque && AllBelow(prior, before - window);
    assert AllBelow(prior, now - window);
  }

  lemma RecordTracks(history: seq<int>, deque: seq<int>, window: int, now: int)
    requires Tracks(history, deque, window, now)
    ensures Tracks(history + [now], deque + [now], window, now)
  {
    var prior :| history == prior + deque && AllBelow(prior, now - window);
    assert history + [now] == prior + (deque + [now]);
  }

  lemma AskTracks(history: seq<int>, deque: seq<int>, window: int, now: int)
    requires Tracks(history, deque, window, now)
    ensures Tracks(history, Prune(deque, now - window), window, now)
  {
    hide Prune;
    var prior :| history == prior + deque && AllBelow(prior, now - window);
    var k := PruneCuts(deque, now - window);
    assert deque == deque[..k] + deque[k..];
    assert history == (prior + deque[..k]) + deque[k..];
    assert AllBelow(prior + deque[..k], now - window);
  }

  lemma EmptyTracks(window: int, now: int)
    ensures Tracks([], [], window, now)
  {
    var none: seq<int> := [];
    assert none == none + none;
  }

  lemma {:induction false} DequeInvariant(window: int, es: seq<Event>)
    requires Monotone(es) && es != []
    ensures Tracks(History(es), Deque(window, es), window, Now(es))
  {
    hide Tracks, Prune;
    var init, now := es[..|es| - 1], Now(es);
    if init == [] {
      EmptyTracks(window, now);
    } else {
      DequeInvariant(window, init);
      LaterTracks(History(init), Deque(window, init), window, Now(init), now);
    }
    assert Tracks(History(init), Deque(window, init), window, now);
    if es[|es| - 1].Error? {
      RecordTracks(History(init), Deque(window, init), window, now);
    } else {
      AskTracks(History(init), Deque(window, init), window, now);
      assert History(es) == History(init);
    }
  }

  /**
   At every moment of every run with a clock that does not go back, the limiter's answer is the one
   obtained by counting, over the complete error history, the errors inside the current window.
   */
  lemma LimiterCountsWindow(window: int, maxRate: real, es: seq<Event>, now: int)
    requires Monotone(es) && (es != [] ==> Now(es) <= now)
    ensures Allows(window, maxRate, es, now) <==>
            WithinRate(CountSince(History(es), now - window), window, maxRate)
  {
    hide Deque, History, WithinRate, Prune;
    var deque, history := Deque(window, es), History(es);
    if es == [] {
      NothingYet(window);
      EmptyTracks(window, now);
    } else {
      DequeInvariant(window, es);
      LaterTracks(history, deque, window, Now(es), now);
    }
    TrackedCount(history, deque, window, now);
  }

  /** The errors of a run from a time on, by their places in the run. */
  function ErrorsSince(es: seq<Event>, start: int): set<int> {
    set i | 0 <= i < |es| && es[i].Error? && es[i].at >= start
  }

  lemma {:induction false} CountIsErrors(es: seq<Event>, start: int)
    ensures CountSince(History(es), start) == |ErrorsSince(es, start)|
  {
    if es == [] {
      assert ErrorsSince(es, start) == {};
    } else {
      var init, e := es[..|es| - 1], es[|es| - 1];
      CountIsErrors(init, start);
      var before := ErrorsSince(init, start);
      assert ErrorsSince(es, start) == if e.Error? && e.at >= start then before + {|es| - 1} else before;
      if e.Error? {
        assert History(es)[..|History(es)| - 1] == History(init);
      } else {
        assert History(es) == History(init);
      }
    }
  }

  /**
   In numbers, for a positive window: an operation is allowed exactly when 1000 times the errors of
   the run no older than the window is at most the rate times the window.
   */
  lemma WindowRule(window: int, maxRate: real, es: seq<Event>, now: int)
    requires window > 0 && Monotone(es) && (es != [] ==> Now(es) <= now)
    ensures Allows(window, maxRate, es, now) <==>
            1000.0 * |ErrorsSince(es, now - window)| as real <= maxRate * window as real
  {
    hide Allows, WithinRate, Monotone, History, CountSince;
    LimiterCountsWindow(window, maxRate, es, now);
    CountIsErrors(es, now - window);
    WithinRateIff(CountSince(History(es), now - window), window, maxRate);
  }

  lemma NothingYet(window: int)
    ensures Deque(window, []) == [] && History([]) == []
  {
  }

  lemma TrackedCount(history: seq<int>, deque: seq<int>, window: int, now: int)
    requires Tracks(history, deque, window, now)
    ensures |Prune(deque, now - window)| == CountSince(history, now - window)
  {
    var prior :| history == prior + deque && AllBelow(prior, now - window);
    CountAppend(prior, deque, now - window);
    CountBelow(prior, now - window);
    PruneCounts(deque, now - window);
  }

  /** Without its last event a monotone run is monotone and ends no later than that event. */
  lemma MonotoneBefore(es: seq<Event>, e: Event)
    requires Monotone(es + [e])
    ensures Monotone(es) && (es != [] ==> Now(es) <= e.at)
  {
    assert forall i :: 0 <= i < |es| ==> es[i] == (es + [e])[i];
    assert (es + [e])[|es|] == e;
  }

  lemma DequeAfter(window: int, es: seq<Event>, e: Event)
    ensures Deque(window, es + [e])
         == if e.Error? then Deque(window, es) + [e.at] else Prune(Deque(window, es), e.at - window)
  {
    assert (es + [e])[..|es|] == es;
  }

  class ErrorRateLimiter {
    const maxErrorRate: real
    const windowSize: int
    var errorTimes: seq<int>
    ghost var events: seq<Event>

    /** The deque is what the run so far leaves in it. */
    ghost predicate Valid()
      reads this
    {
      errorTimes == Deque(windowSize, events)
    }

    constructor (maxErrorRate: real, windowSize: int)
      ensures Valid() && events == []
      ensures this.maxErrorRate == maxErrorRate && this.windowSize == windowSize
    {
      this.maxErrorRate, this.windowSize := maxErrorRate, windowSize;
      errorTimes, events := [], [];
    }

    /** Allowed exactly when the errors of the whole run that lie inside the window are few enough. */
    method ShouldAllowOperation(now: int) returns (allowed: bool)
      requires Valid()
      modifies this
      ensures Valid() && events == old(events) + [Ask(now)]
      ensures allowed == Allows(windowSize, maxErrorRate, old(events), now)
      ensures Monotone(events) ==>
              allowed == WithinRate(CountSince(History(old(events)), now - windowSize), windowSize, maxErrorRate)
    {
      hide Deque, History, WithinRate, CountSince, Monotone;
      var windowStart := now - windowSize;
      while errorTimes != [] && errorTimes[0] < windowStart
        invariant Prune(errorTimes, windowStart) == Prune(old(errorTimes), windowStart)
        invariant events == old(events)
        decreases |errorTimes|
      {
        errorTimes := errorTimes[1..];
      }
      allowed := WithinRate(|errorTimes|, windowSize, maxErrorRate);
      DequeAfter(windowSize, events, Ask(now));
      events := events + [Ask(now)];
      if Monotone(events) {
        MonotoneBefore(old(events), Ask(now));
        LimiterCountsWindow(windowSize, maxErrorRate, old(events), now);
      }
    }

    method RecordError(now: int)
      requires Valid()
      modifies this
      ensures Valid() && events == old(events) + [Error(now)]
    {
      errorTimes := errorTimes + [now];
      DequeAfter(windowSize, events, Error(now));
      events := events + [Error(now)];
    }
  }

  // ----- Retrying -----

  /** A delay scaled and cut to whole milliseconds, toward zero. */
  function Scale(delay: int, multiplier: real): int {
    var x := delay as real * multiplier;
    if x >= 0.0 then x.Floor else -((-x).Floor)
  }

  function Delay(initial: int, multiplier: real, k: nat): int {
    if k == 0 then initial else Scale(Delay(initial, multiplier, k - 1), multiplier)
  }

  function PowReal(x: real, k: nat): real {
    if k == 0 then 1.0 else x * PowReal(x, k - 1)
  }

  lemma ScaleBounds(delay: int, multiplier: real)
    requires delay >= 0 && multiplier >= 1.0
    ensures delay <= Scale(delay, multiplier)
    ensures Scale(delay, multiplier) as real <= delay as real * multiplier
  {
    var d := delay as real;
    assert d * multiplier >= d * 1.0;
  }

  /** A scaled delay is the product with its fraction cut off. */
  lemma ScaleTruncates(delay: int, multiplier: real)
    ensures var x, s := delay as real * multiplier, Scale(delay, multiplier) as real;
            (x >= 0.0 ==> s <= x < s + 1.0) && (x < 0.0 ==> s - 1.0 < x <= s)
  {
  }

  /** With a whole multiplier nothing is cut off: the delays are exactly geometric. */
  lemma {:induction false} BackoffExact(initial: nat, m: nat, k: nat)
    ensures Delay(initial, m as real, k) == initial * Pow(m, k)
  {
    if k > 0 {
      var x := Pow(m, k - 1);
      assert Pow(m, k) == m * x;
      assert Delay(initial, m as real, k) == Scale(Delay(initial, m as real, k - 1), m as real);
      hide Pow, Delay, Scale;
      BackoffExact(initial, m, k - 1);
      ScaleByWhole(initial * x, m);
      OneFactorMore(initial, m, x);
    }
  }

  lemma OneFactorMore(a: nat, m: nat, x: nat)
    ensures (a * x) * m == a * (m * x)
  {
  }

  lemma ScaleByWhole(d: nat, m: nat)
    ensures Scale(d, m as real) == d * m
  {
    assert d as real * m as real == (d * m) as real;
  }

  lemma ScaledBound(d: real, initial: real, p: real, x: real)
    requires d <= initial * p && x >= 0.0
    ensures d * x <= initial * (x * p)
  {
    var bound := initial * p;
    assert d * x <= bound * x;
    assert (initial * p) * x == initial * (x * p);
  }

  /** With a multiplier of at least one the delays never shrink and stay below the exact geometric backoff. */
  lemma {:induction false} BackoffGrows(initial: nat, multiplier: real, k: nat)
    requires multiplier >= 1.0
    ensures 0 <= Delay(initial, multiplier, k) <= Delay(initial, multiplier, k + 1)
    ensures Delay(initial, multiplier, k) as real <= initial as real * PowReal(multiplier, k)
  {
    hide Scale;
    if k > 0 {
      BackoffGrows(initial, multiplier, k - 1);
      var d, p := Delay(initial, multiplier, k - 1), PowReal(multiplier, k - 1);
      ScaleBounds(d, multiplier);
      ScaledBound(d as real, initial as real, p, multiplier);
    }
    ScaleBounds(Delay(initial, multiplier, k), multiplier);
  }

  /**
   `retry_with_backoff`: the first success among the attempts is returned and nothing is tried after
   it; there is one pause, of the backed-off length, between two attempts and none after the last.
   */
  method RetryWithBackoff<T>(maxAttempts: int, initial: int, multiplier: real, attempt: nat -> Option<T>)
      returns (result: Option<T>, calls: nat, pauses: seq<int>)
    ensures forall k :: 0 <= k < calls - 1 ==> attempt(k).None?
    ensures result.Some? ==> 0 < calls <= maxAttempts && result == attempt(calls - 1)
    ensures result.None? ==> calls == (if maxAttempts > 0 then maxAttempts else 0) && (calls > 0 ==> attempt(calls - 1).None?)
    ensures |pauses| == if calls > 0 then calls - 1 else 0
    ensures forall k :: 0 <= k < |pauses| ==> pauses[k] == Delay(initial, multiplier, k)
  {
    var delay := initial;
    pauses, calls := [], 0;
    while calls < maxAttempts
      invariant 0 <= calls && (calls > 0 ==> calls <= maxAttempts)
      invariant forall k :: 0 <= k < calls ==> attempt(k).None?
      invariant |pauses| == if calls < maxAttempts then calls else if calls > 0 then calls - 1 else 0
      invariant forall k :: 0 <= k < |pauses| ==> pauses[k] == Delay(initial, multiplier, k)
      invariant calls < maxAttempts ==> delay == Delay(initial, multiplier, calls)
    {
      result := attempt(calls);
      calls := calls + 1;
      if result.Some? {
        return;
      }
      if calls - 1 < maxAttempts - 1 {
        pauses := pauses + [delay];
        delay := Scale(delay, multiplier);
      }
    }
    result := None;
  }
}
