/** The circuit breaker (`recovery::CircuitBreaker` in `core/error_utils.hpp`) as a timed state machine. */
module CircuitBreaker {

  const INT_MAX: int := 0x7FFF_FFFF
  const INT_MIN: int := -0x8000_0000

  /** The value a 32-bit atomic counter holds after `n` increments from zero. */
  function WrapInt(n: nat): int {
    (n + 0x8000_0000) % 0x1_0000_0000 - 0x8000_0000
  }

  datatype State = Closed | Open | HalfOpen

  /** How the guarded callee ends. */
  datatype Ending = Succeeds | Fails | Throws

  datatype Breaker = Breaker(threshold: int, timeout: int, failureCount: int, lastFailure: int, state: State)

  /** One public call: `start` is the clock when it arrives, `end` when a failure is recorded. */
  datatype Event = Execute(start: int, outcome: Ending, end: int) | Reset

  function New(threshold: int, timeout: int, now: int): Breaker {
    Breaker(threshold, timeout, 0, now, Closed)
  }

  /** Whether a call arriving at `start` reaches the callee. */
  predicate Admits(b: Breaker, start: int) {
    b.state != Open || start - b.lastFailure >= b.timeout
  }

  function Increment(count: int): int {
    if count == INT_MAX then INT_MIN else count + 1
  }

  function OnFailure(b: Breaker, now: int): Breaker {
    var count := Increment(b.failureCount);
    b.(failureCount := count, lastFailure := now, state := if count >= b.threshold then Open else b.state)
  }

  /** An open breaker turns half-open when it admits a call. */
  function Probe(b: Breaker): Breaker {
    if b.state == Open then b.(state := HalfOpen) else b
  }

  function Step(b: Breaker, e: Event): Breaker {
    match e
    case Reset => b.(state := Closed, failureCount := 0)
    case Execute(start, outcome, end) =>
      if !Admits(b, start) then b
      else
        match outcome
        case Succeeds => b.(state := Closed, failureCount := 0)
        case Fails => OnFailure(Probe(b), end)
        case Throws => Probe(b)
  }

  function Run(b: Breaker, es: seq<Event>): Breaker {
    if es == [] then b else Step(Run(b, es[..|es| - 1]), es[|es| - 1])
  }

  // ----- What the state means -----

  /** The number of admitted calls that failed since the last success or reset. */
  function Failures(b: Breaker, es: seq<Event>): nat {
    if es == [] then 0
    else
      var before, e := Run(b, es[..|es| - 1]), es[|es| - 1];
      if e.Reset? then 0
      else if !Admits(before, e.start) || e.outcome == Throws then Failures(b, es[..|es| - 1])
      else if e.outcome == Succeeds then 0
      else 1 + Failures(b, es[..|es| - 1])
  }

  /** The last call that reached the callee threw, and it was a probe of a breaker that was not closed. */
  predicate ProbeThrew(b: Breaker, es: seq<Event>) {
    es != [] &&
    var before, e := Run(b, es[..|es| - 1]), es[|es| - 1];
    if e.Reset? then false
    else if !Admits(before, e.start) then ProbeThrew(b, es[..|es| - 1])
    else e.outcome == Throws && before.state != Closed
  }

  function Meaning(threshold: int, failures: nat, probeThrew: bool): State {
    if probeThrew then HalfOpen
    else if failures == 0 then Closed
    else if WrapInt(failures) >= threshold then Open
    else if failures <= INT_MAX then Closed
    else HalfOpen
  }

  predicate Meant(b: Breaker, failures: nat, probeThrew: bool) {
    && b.failureCount == WrapInt(failures)
    && b.state == Meaning(b.threshold, failures, probeThrew)
    && (probeThrew ==> failures > 0 && (WrapInt(failures) >= b.threshold || failures > INT_MAX))
  }

  lemma WrapNext(n: nat)
    ensures WrapInt(n + 1) == Increment(WrapInt(n))
    ensures n <= INT_MAX ==> WrapInt(n) == n
    ensures INT_MIN <= WrapInt(n) <= INT_MAX
  {
  }

  lemma FailureKeepsMeaning(b: Breaker, failures: nat, probeThrew: bool, now: int)
    requires b.threshold <= INT_MAX && Meant(b, failures, probeThrew)
    ensures Meant(OnFailure(Probe(b), now), failures + 1, false)
  {
    hide WrapInt;
    WrapNext(failures);
    WrapNext(failures + 1);
  }

  lemma StepMeaning(b: Breaker, e: Event, failures: nat, probeThrew: bool)
    requires b.threshold <= INT_MAX && Meant(b, failures, probeThrew)
    ensures match e
            case Reset => Meant(Step(b, e), 0, false)
            case Execute(start, outcome, _) =>
              if !Admits(b, start) then Step(b, e) == b
              else match outcome
                case Succeeds => Meant(Step(b, e), 0, false)
                case Fails => Meant(Step(b, e), failures + 1, false)
                case Throws => Meant(Step(b, e), failures, b.state != Closed)
  {
    hide WrapInt;
    WrapNext(0);
    WrapNext(failures);
    if e.Execute? {
      FailureKeepsMeaning(b, failures, probeThrew, e.end);
    }
  }

  /**
   In every run, whatever the threshold, the timeout and the clock: the state is a function of the
   admitted failures since the last success or reset, and of whether the last probe threw.
   */
  lemma {:induction false} StateMeaning(threshold: int, timeout: int, now: int, es: seq<Event>)
    requires threshold <= INT_MAX
    ensures var b := New(threshold, timeout, now);
            && Run(b, es).threshold == threshold && Run(b, es).timeout == timeout
            && Meant(Run(b, es), Failures(b, es), ProbeThrew(b, es))
  {
    hide WrapInt, Meant;
    var b := New(threshold, timeout, now);
    if es == [] {
      NewMeaning(b);
    } else {
      var init := es[..|es| - 1];
      StateMeaning(threshold, timeout, now, init);
      StepMeaning(Run(b, init), es[|es| - 1], Failures(b, init), ProbeThrew(b, init));
    }
  }

  lemma NewMeaning(b: Breaker)
    requires b.failureCount == 0 && b.state == Closed
    ensures Meant(b, 0, false)
  {
    WrapNext(0);
  }

  /**
   Between calls the breaker is open exactly when at least one and at least `threshold` admitted
   calls failed since the last success or reset, and otherwise closed, as long as no callee threw and
   the failures since then stay below 2^31.
   */
  lemma OpenIffThresholdReached(threshold: int, timeout: int, now: int, es: seq<Event>)
    requires threshold <= INT_MAX
    ensures var b := New(threshold, timeout, now);
            var f := Failures(b, es);
            !ProbeThrew(b, es) && f <= INT_MAX ==>
            Run(b, es).state == if f > 0 && f >= threshold then Open else Closed
  {
    StateMeaning(threshold, timeout, now, es);
    WrapNext(Failures(New(threshold, timeout, now), es));
  }

  /** The breaker rests half-open exactly after a throwing probe, or once the counter has wrapped below the threshold. */
  lemma HalfOpenIff(threshold: int, timeout: int, now: int, es: seq<Event>)
    requires threshold <= INT_MAX
    ensures var b := New(threshold, timeout, now);
            Run(b, es).state == HalfOpen <==>
            ProbeThrew(b, es) || (Failures(b, es) > INT_MAX && WrapInt(Failures(b, es)) < threshold)
  {
    hide WrapInt;
    StateMeaning(threshold, timeout, now, es);
  }

  /** A breaker opened by one failure and probed by a callee that throws admits every call from then on. */
  lemma ThrowingProbeLeavesDoorOpen(now: int, timeout: nat, start: int)
    ensures Run(New(1, timeout, now), [Execute(now, Fails, now), Execute(now + timeout, Throws, now + timeout)]).state == HalfOpen
    ensures Admits(Run(New(1, timeout, now), [Execute(now, Fails, now), Execute(now + timeout, Throws, now + timeout)]), start)
  {
    var b, fail, throw := New(1, timeout, now), Execute(now, Fails, now), Execute(now + timeout, Throws, now + timeout);
    assert [fail, throw][..1] == [fail] && [fail][..0] == [];
    assert Run(b, [fail]) == Step(b, fail);
  }

  /** A run of `n` failing calls, each a timeout after the one before, so that all of them are admitted. */
  function SpacedFailures(timeout: nat, now: int, n: nat): seq<Event> {
    if n == 0 then []
    else SpacedFailures(timeout, now, n - 1) + [Execute(now + n * timeout, Fails, now + n * timeout)]
  }

  lemma {:induction false} SpacedFailuresCount(threshold: int, timeout: nat, now: int, n: nat)
    ensures var b, es := New(threshold, timeout, now), SpacedFailures(timeout, now, n);
            && Failures(b, es) == n && !ProbeThrew(b, es)
            && Run(b, es).lastFailure == now + n * timeout && Run(b, es).timeout == timeout
  {
    if n > 0 {
      var b, es := New(threshold, timeout, now), SpacedFailures(timeout, now, n);
      var init := SpacedFailures(timeout, now, n - 1);
      var at := now + n * timeout;
      assert es[..|es| - 1] == init && es[|es| - 1] == Execute(at, Fails, at);
      hide SpacedFailures;
      SpacedFailuresCount(threshold, timeout, now, n - 1);
      OneTimeoutMore(n, timeout);
      OneFailureMore(b, es, init, at);
    }
  }

  lemma OneTimeoutMore(n: nat, timeout: nat)
    requires n > 0
    ensures n * timeout == (n - 1) * timeout + timeout
  {
  }

  /** A failing call at least a timeout after the last failure is admitted and counted. */
  lemma OneFailureMore(b: Breaker, es: seq<Event>, init: seq<Event>, at: int)
    requires es != [] && es[..|es| - 1] == init && es[|es| - 1] == Execute(at, Fails, at)
    requires at - Run(b, init).lastFailure >= Run(b, init).timeout
    ensures Failures(b, es) == Failures(b, init) + 1 && !ProbeThrew(b, es)
    ensures Run(b, es).lastFailure == at && Run(b, es).timeout == Run(b, init).timeout
  {
  }

  /**
   After 2^31 such failures the counter has wrapped and the breaker rests half-open, admitting every
   call, whatever its threshold above the smallest `int`.
   */
  lemma WrappedCounterLeavesDoorOpen(threshold: int, timeout: nat, now: int, n: nat, start: int)
    requires INT_MIN < threshold <= INT_MAX && n == INT_MAX + 1
    ensures var b := Run(New(threshold, timeout, now), SpacedFailures(timeout, now, n));
            b.state == HalfOpen && Admits(b, start)
  {
    hide SpacedFailures, Run, Failures, ProbeThrew;
    SpacedFailuresCount(threshold, timeout, now, n);
    HalfOpenIff(threshold, timeout, now, SpacedFailures(timeout, now, n));
  }

  // ----- What one call does -----

  /** The call finds the breaker not open, or the last failure at least a timeout ago. */
  predicate Reaches(b: Breaker, start: int) {
    b.state == Closed || b.state == HalfOpen || b.lastFailure + b.timeout <= start
  }

  /**
   One call after any run from a new breaker. Before the timeout has passed an open breaker turns
   the call away and nothing changes. From then on, and whenever it is not open, the callee is
   reached: a success closes the breaker and clears its counter, a failure counts, is stamped with
   its time and opens the breaker at the threshold, and an exception leaves an open one half-open.
   */
  lemma CallOutcome(threshold: int, timeout: int, now: int, es: seq<Event>, start: int, outcome: Ending, end: int)
    requires threshold <= INT_MAX
    ensures var idle := New(threshold, timeout, now);
            var b := Run(idle, es);
            var b' := Step(b, Execute(start, outcome, end));
            var count := WrapInt(Failures(idle, es) + 1);
            && b.threshold == threshold && b.timeout == timeout
            && (!Reaches(b, start) ==> b' == b)
            && (Reaches(b, start) && outcome == Succeeds ==> b' == Breaker(threshold, timeout, 0, b.lastFailure, Closed))
            && (Reaches(b, start) && outcome == Fails ==>
                  && b'.failureCount == count && b'.lastFailure == end
                  && b'.state == if count >= threshold then Open else if b.state == Closed then Closed else HalfOpen)
            && (Reaches(b, start) && outcome == Throws ==>
                  b' == Breaker(threshold, timeout, b.failureCount, b.lastFailure,
                                if b.state == Closed then Closed else HalfOpen))
  {
    hide Run, Failures, ProbeThrew, WrapInt;
    StateMeaning(threshold, timeout, now, es);
    WrapNext(Failures(New(threshold, timeout, now), es));
  }

  /** When the last call that reached its callee and failed did so; the start of the run if none did. */
  function FailedAt(b: Breaker, es: seq<Event>): int {
    if es == [] then b.lastFailure
    else
      var init, e := es[..|es| - 1], es[|es| - 1];
      if e.Execute? && e.outcome == Fails && Reaches(Run(b, init), e.start) then e.end else FailedAt(b, init)
  }

  lemma {:induction false} LastFailureOverRuns(b: Breaker, es: seq<Event>)
    ensures Run(b, es).lastFailure == FailedAt(b, es)
  {
    if es != [] {
      LastFailureOverRuns(b, es[..|es| - 1]);
    }
  }

  // ----- How often an open breaker is probed -----

  /**
   A stretch of a run without resets, in which time does not go back and every call that is admitted
   fails. What a rejected call would have done plays no part.
   */
  predicate OnlyFailures(b: Breaker, es: seq<Event>) {
    es == [] ||
    var init, e := es[..|es| - 1], es[|es| - 1];
    && OnlyFailures(b, init) && e.Execute? && Latest(b, init) <= e.start
    && (Admits(Run(b, init), e.start) ==> e.outcome == Fails && e.start <= e.end)
  }

  /** The last clock reading: the end of an admitted call, the arrival of a rejected one. */
  function Latest(b: Breaker, es: seq<Event>): int {
    if es == [] || es[|es| - 1].Reset? then b.lastFailure
    else
      var e := es[|es| - 1];
      if Admits(Run(b, es[..|es| - 1]), e.start) then e.end else e.start
  }

  function Admitted(b: Breaker, es: seq<Event>): nat {
    if es == [] then 0
    else
      Admitted(b, es[..|es| - 1])
      + if es[|es| - 1].Execute? && Admits(Run(b, es[..|es| - 1]), es[|es| - 1].start) then 1 else 0
  }

  /** The breaker is open and its counter can take `n` more failures without wrapping. */
  predicate StaysOpen(b: Breaker, n: nat) {
    b.state == Open && b.failureCount + n <= INT_MAX && b.failureCount >= b.threshold
  }

  /** `c` is `b` after `k` further admitted failures, each at least a timeout after the one before. */
  predicate Spaced(b: Breaker, c: Breaker, k: nat) {
    && c.state == Open && c.timeout == b.timeout && c.threshold == b.threshold
    && c.failureCount == b.failureCount + k
    && b.lastFailure + k * b.timeout <= c.lastFailure
  }

  lemma OneMoreFailure(b: Breaker, c: Breaker, k: nat, e: Event)
    requires e.Execute? && (Admits(c, e.start) ==> e.outcome == Fails && e.start <= e.end)
    requires StaysOpen(b, if Admits(c, e.start) then k + 1 else k) && Spaced(b, c, k)
    ensures Spaced(b, Step(c, e), if Admits(c, e.start) then k + 1 else k)
  {
    assert (k + 1) * b.timeout == k * b.timeout + b.timeout;
  }

  lemma {:induction false} ProbesAreSpaced(b: Breaker, es: seq<Event>)
    requires StaysOpen(b, Admitted(b, es)) && OnlyFailures(b, es)
    ensures Spaced(b, Run(b, es), Admitted(b, es))
    ensures Run(b, es).lastFailure <= Latest(b, es)
  {
    hide Spaced;
    if es == [] {
      StartsSpaced(b);
    } else {
      var init, e := es[..|es| - 1], es[|es| - 1];
      ProbesAreSpaced(b, init);
      OneMoreFailure(b, Run(b, init), Admitted(b, init), e);
    }
  }

  lemma StartsSpaced(b: Breaker)
    requires b.state == Open
    ensures Spaced(b, b, 0)
  {
  }

  /**
   Once open since `lastFailure`, with no success or reset since, at most one call per timeout gets
   through: a call arriving at `start` that is admitted as the `k`-th one arrives at least `k`
   timeouts after the breaker opened.
   */
  lemma AdmissionsAreBounded(b: Breaker, es: seq<Event>, start: int)
    requires StaysOpen(b, Admitted(b, es)) && OnlyFailures(b, es)
    requires Latest(b, es) <= start
    ensures Admitted(b, es) * b.timeout <= start - b.lastFailure
    ensures Admits(Run(b, es), start) ==> (Admitted(b, es) + 1) * b.timeout <= start - b.lastFailure
  {
    hide Run, Admitted, Latest, OnlyFailures;
    ProbesAreSpaced(b, es);
    assert (Admitted(b, es) + 1) * b.timeout == Admitted(b, es) * b.timeout + b.timeout;
  }

  /** So it is after every run from a new breaker that leaves it open, while the failures stay below 2^31. */
  lemma OpenBreakerIsProbedSlowly(
      threshold: int, timeout: int, now: int, before: seq<Event>, es: seq<Event>, start: int)
    requires threshold <= INT_MAX
    requires var idle := New(threshold, timeout, now);
             var b := Run(idle, before);
             && b.state == Open && OnlyFailures(b, es) && Latest(b, es) <= start
             && Failures(idle, before) + Admitted(b, es) <= INT_MAX
    ensures var b := Run(New(threshold, timeout, now), before);
            && Admitted(b, es) * timeout <= start - b.lastFailure
            && (Admits(Run(b, es), start) ==> (Admitted(b, es) + 1) * timeout <= start - b.lastFailure)
  {
    hide Run, Admitted, Latest, OnlyFailures, Failures, ProbeThrew, WrapInt;
    StateMeaning(threshold, timeout, now, before);
    WrapNext(Failures(New(threshold, timeout, now), before));
    AdmissionsAreBounded(Run(New(threshold, timeout, now), before), es, start);
  }

  // ----- The breaker object -----

  class Guard {
    const failureThreshold: int
    const timeout: int
    var failureCount: int
    var lastFailureTime: int
    var state: State

    function View(): Breaker
      reads this
    {
      Breaker(failureThreshold, timeout, failureCount, lastFailureTime, state)
    }

    constructor (threshold: int, timeout: int, now: int)
      ensures View() == New(threshold, timeout, now)
      ensures state == Closed && failureCount == 0 && lastFailureTime == now
    {
      failureThreshold, this.timeout := threshold, timeout;
      failureCount, lastFailureTime, state := 0, now, Closed;
    }

    /** `execute`: `admitted` says whether the callee was called at all. */
    method Execute(start: int, outcome: Ending, end: int) returns (admitted: bool)
      modifies this
      ensures View() == Step(old(View()), Event.Execute(start, outcome, end))
      ensures admitted == Admits(old(View()), start)
      ensures admitted <==> old(state) != Open || start >= old(lastFailureTime) + timeout
    {
      if state == Open {
        if start - lastFailureTime >= timeout {
          state := HalfOpen;
        } else {
          return false;
        }
      }
      match outcome {
        case Succeeds => OnSuccess();
        case Fails => RecordFailure(end);
        case Throws =>
      }
      admitted := true;
    }

    method Reset()
      modifies this
      ensures View() == Step(old(View()), Event.Reset)
      ensures state == Closed && failureCount == 0 && lastFailureTime == old(lastFailureTime)
    {
      state := Closed;
      failureCount := 0;
    }

    method OnSuccess()
      modifies this`failureCount, this`state
      ensures failureCount == 0 && state == Closed
    {
      failureCount := 0;
      state := Closed;
    }

    method RecordFailure(now: int)
      modifies this
      ensures View() == OnFailure(old(View()), now)
      ensures failureCount == (if old(failureCount) == INT_MAX then INT_MIN else old(failureCount) + 1)
      ensures lastFailureTime == now && state == if failureCount >= failureThreshold then Open else old(state)
    {
      failureCount := Increment(failureCount);
      lastFailureTime := now;
      if failureCount >= failureThreshold {
        state := Open;
      }
    }
  }
}
