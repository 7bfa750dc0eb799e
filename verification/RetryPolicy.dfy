/**
  Backoff delays in nanoseconds. Float arithmetic is taken as exact, cut to integers where the code converts,
  and each random number is an argument.
 */
module RetryPolicy {
  import opened TimerModel

  const DONE: int := -1
  const NO_INTERVAL: int := 0
  const NO_MAXIMUM_ATTEMPTS: int := 0

  datatype ExponentialRetryPolicy = ExponentialRetryPolicy(
    initialInterval: int, coefficient: real, maximumInterval: int, expirationInterval: int, maximumAttempts: int)

  /** The first interval times the coefficient to the power of the attempts. */
  function Interval(p: ExponentialRetryPolicy, numAttempts: int): real
    requires p.coefficient > 0.0 || numAttempts >= 0
    decreases if numAttempts < 0 then -numAttempts + 1 else numAttempts
  {
    if numAttempts == 0 then p.initialInterval as real
    else if numAttempts > 0 then p.coefficient * Interval(p, numAttempts - 1)
    else Interval(p, numAttempts + 1) / p.coefficient
  }

  function Min(x: real, y: real): real {
    if x < y then x else y
  }

  /** Go's conversion to an integer. */
  function Trunc(x: real): int {
    if x >= 0.0 then x.Floor else -((-x).Floor)
  }

  /** The interval capped by the maximum interval and by what remains until expiration. */
  function Limited(p: ExponentialRetryPolicy, elapsed: int, interval: real): real {
    var capped := if p.maximumInterval != NO_INTERVAL then Min(interval, p.maximumInterval as real) else interval;
    if p.expirationInterval != NO_INTERVAL then
      Min((if p.expirationInterval < elapsed then 0 else p.expirationInterval - elapsed) as real, capped)
    else capped
  }

  function JitterPortion(x: real): int {
    if Trunc(0.2 * x) < 1 then 1 else Trunc(0.2 * x)
  }

  function Jittered(x: real, random: nat): int {
    Trunc(x * 0.8 + (random % JitterPortion(x)) as real)
  }

  /** The delay once the exponential interval is known. */
  function DelayFor(p: ExponentialRetryPolicy, elapsed: int, numAttempts: int, interval: real, random: nat): int {
    if p.maximumAttempts != NO_MAXIMUM_ATTEMPTS && numAttempts >= p.maximumAttempts then DONE
    else if p.expirationInterval != NO_INTERVAL && elapsed > p.expirationInterval then DONE
    else if interval <= 0.0 then DONE
    else if Trunc(Limited(p, elapsed, interval)) < p.initialInterval then DONE
    else Jittered(Limited(p, elapsed, interval), random)
  }

  function ComputeNextDelay(p: ExponentialRetryPolicy, elapsed: int, numAttempts: int, random: nat): int
    requires p.coefficient > 0.0 || numAttempts >= 0
  {
    DelayFor(p, elapsed, numAttempts, Interval(p, numAttempts), random)
  }

  /** Jitter keeps a delay between four fifths of its interval and the interval. */
  lemma JitterBounds(x: real, random: nat)
    requires x >= 1.0
    ensures (0.8 * x).Floor <= Jittered(x, random) <= x.Floor
  {
    var portion := JitterPortion(x);
    var r := random % portion;
    assert 0 <= r <= portion - 1;
    if portion > 1 {
      assert portion as real <= 0.2 * x;
      assert r as real <= 0.2 * x;
    }
    assert x * 0.8 + r as real >= 0.8 * x;
  }

  lemma {:induction false} IntervalsGrow(p: ExponentialRetryPolicy, n: nat)
    requires p.initialInterval > 0 && p.coefficient >= 1.0
    ensures Interval(p, n) >= p.initialInterval as real
  {
    if n > 0 {
      IntervalsGrow(p, n - 1);
      var before := Interval(p, n - 1);
      assert p.coefficient * before >= 1.0 * before;
    }
  }

  /** The intervals of a policy: the first one, then each the coefficient times the one before. */
  ghost predicate AreIntervals(p: ExponentialRetryPolicy, x: seq<real>) {
    && |x| >= 1 && x[0] == p.initialInterval as real
    && forall i :: 0 < i < |x| ==> x[i] == p.coefficient * x[i - 1]
  }

  lemma {:induction false} IntervalIs(p: ExponentialRetryPolicy, x: seq<real>, n: nat)
    requires AreIntervals(p, x) && n < |x|
    ensures x[n] == Interval(p, n)
  {
    if n > 0 {
      IntervalIs(p, x, n - 1);
    }
  }

  /** An interval cut by the maximum interval and by the time that remains. */
  ghost predicate IsCut(p: ExponentialRetryPolicy, elapsed: int, interval: real, m: real) {
    && m <= interval
    && (p.maximumInterval != NO_INTERVAL ==> m <= p.maximumInterval as real)
    && (p.expirationInterval != NO_INTERVAL ==> m <= (p.expirationInterval - elapsed) as real)
    && (m == interval
        || (p.maximumInterval != NO_INTERVAL && m == p.maximumInterval as real)
        || (p.expirationInterval != NO_INTERVAL && m == (p.expirationInterval - elapsed) as real))
  }

  lemma CutExactly(p: ExponentialRetryPolicy, elapsed: int, interval: real, m: real)
    requires p.initialInterval > 0 && IsCut(p, elapsed, interval, m)
    ensures Trunc(Limited(p, elapsed, interval)) >= p.initialInterval <==> m >= p.initialInterval as real
    ensures m >= p.initialInterval as real ==> Limited(p, elapsed, interval) == m
  {
    var limited := Limited(p, elapsed, interval);
    assert Trunc(limited) >= p.initialInterval <==> limited >= p.initialInterval as real;
  }

  lemma DelayForExactly(p: ExponentialRetryPolicy, elapsed: int, n: int, interval: real, m: real, random: nat)
    requires p.initialInterval > 0 && IsCut(p, elapsed, interval, m)
    ensures DelayFor(p, elapsed, n, interval, random) != DONE
            <==> (p.maximumAttempts == NO_MAXIMUM_ATTEMPTS || n < p.maximumAttempts) && m >= p.initialInterval as real
    ensures DelayFor(p, elapsed, n, interval, random) != DONE ==>
              DelayFor(p, elapsed, n, interval, random) == Jittered(m, random)
              && (0.8 * m).Floor <= DelayFor(p, elapsed, n, interval, random) <= m.Floor
  {
    CutExactly(p, elapsed, interval, m);
    if m >= p.initialInterval as real {
      JitterBounds(m, random);
    }
  }

  /**
    Delays follow the intervals. Attempt n is granted one exactly while attempts last and its interval, cut by the
    maximum and the remaining time, is no shorter than the first; the delay lies between four fifths of that cut
    interval and all of it.
   */
  lemma DelayFollowsIntervals(p: ExponentialRetryPolicy, elapsed: int, x: seq<real>, n: nat, m: real, random: nat)
    requires p.initialInterval > 0 && AreIntervals(p, x) && n < |x| && IsCut(p, elapsed, x[n], m)
    ensures ComputeNextDelay(p, elapsed, n, random) != DONE
            <==> (p.maximumAttempts == NO_MAXIMUM_ATTEMPTS || n < p.maximumAttempts) && m >= p.initialInterval as real
    ensures ComputeNextDelay(p, elapsed, n, random) != DONE ==>
              (0.8 * m).Floor <= ComputeNextDelay(p, elapsed, n, random) <= m.Floor
  {
    IntervalIs(p, x, n);
    DelayForExactly(p, elapsed, n, x[n], m, random);
  }

  /** A delay is granted exactly while attempts, time and the caps leave room for a first interval. */
  lemma DoneExactly(p: ExponentialRetryPolicy, elapsed: int, numAttempts: nat, random: nat)
    requires p.initialInterval > 0 && p.coefficient >= 1.0
    ensures ComputeNextDelay(p, elapsed, numAttempts, random) != DONE
            <==> (p.maximumAttempts == NO_MAXIMUM_ATTEMPTS || numAttempts < p.maximumAttempts)
                 && (p.maximumInterval == NO_INTERVAL || p.initialInterval <= p.maximumInterval)
                 && (p.expirationInterval == NO_INTERVAL || elapsed + p.initialInterval <= p.expirationInterval)
    ensures ComputeNextDelay(p, elapsed, numAttempts, random) != DONE ==>
              && (0.8 * p.initialInterval as real).Floor <= ComputeNextDelay(p, elapsed, numAttempts, random)
              && (p.maximumInterval != NO_INTERVAL ==>
                    ComputeNextDelay(p, elapsed, numAttempts, random) <= p.maximumInterval)
              && (p.expirationInterval != NO_INTERVAL ==>
                    elapsed + ComputeNextDelay(p, elapsed, numAttempts, random) <= p.expirationInterval)
  {
    IntervalsGrow(p, numAttempts);
    var interval := Interval(p, numAttempts);
    var capped := if p.maximumInterval != NO_INTERVAL then Min(interval, p.maximumInterval as real) else interval;
    var m := if p.expirationInterval != NO_INTERVAL then Min((p.expirationInterval - elapsed) as real, capped) else capped;
    DelayForExactly(p, elapsed, numAttempts, interval, m, random);
    if m >= p.initialInterval as real {
      assert 0.8 * m >= 0.8 * p.initialInterval as real;
    }
  }

  /** The random part is a whole number below a fifth of the interval; every such number can come up. */
  lemma JitterIsExact(x: real, random: nat)
    requires x >= 1.0
    ensures Jittered(x, random) == (0.8 * x).Floor
            || (0.8 * x).Floor < Jittered(x, random) < (0.8 * x).Floor + (0.2 * x).Floor
    ensures random < (0.2 * x).Floor ==> Jittered(x, random) == (0.8 * x).Floor + random
  {
    var portion := JitterPortion(x);
    var r := random % portion;
    assert random < portion ==> r == random;
    FloorAdds(0.8 * x, r);
  }

  lemma FloorAdds(x: real, n: int)
    ensures (x + n as real).Floor == x.Floor + n
  {
    var f := x.Floor;
    assert f as real <= x < f as real + 1.0;
  }

  /** Without a positive first interval no delay is granted. */
  lemma NoFirstInterval(p: ExponentialRetryPolicy, elapsed: int, random: nat)
    requires p.initialInterval <= 0
    ensures ComputeNextDelay(p, elapsed, 0, random) == DONE
  {
  }

  lemma ShrunkInterval(interval: int, coefficient: real)
    requires interval > 0 && coefficient < 1.0
    ensures interval as real * coefficient < interval as real
  {
  }

  lemma ShortIntervalStops(p: ExponentialRetryPolicy, elapsed: int, n: int, interval: real, random: nat)
    requires p.initialInterval > 0 && interval < p.initialInterval as real
    ensures DelayFor(p, elapsed, n, interval, random) == DONE
  {
    var limited := Limited(p, elapsed, interval);
    assert limited <= interval;
    assert Trunc(limited) < p.initialInterval;
  }

  /** A coefficient below 1 leaves room for one delay. */
  lemma ShrinkingStops(p: ExponentialRetryPolicy, elapsed: int, random: nat)
    requires p.initialInterval > 0 && p.coefficient < 1.0
    ensures ComputeNextDelay(p, elapsed, 1, random) == DONE
  {
    ShrunkInterval(p.initialInterval, p.coefficient);
    assert Interval(p, 1) == p.coefficient * Interval(p, 0);
    ShortIntervalStops(p, elapsed, 1, Interval(p, 1), random);
  }

  /** A nanosecond before it expires, a policy whose first interval is a nanosecond grants a delay cut to zero. */
  lemma LastNanosecond(p: ExponentialRetryPolicy, numAttempts: nat, random: nat)
    requires p.initialInterval == 1 && p.coefficient >= 1.0 && p.expirationInterval >= 1
    requires p.maximumInterval == NO_INTERVAL || p.maximumInterval >= 1
    requires p.maximumAttempts == NO_MAXIMUM_ATTEMPTS
    ensures ComputeNextDelay(p, p.expirationInterval - 1, numAttempts, random) == 0
  {
    IntervalsGrow(p, numAttempts);
    assert Limited(p, p.expirationInterval - 1, Interval(p, numAttempts)) == 1.0;
    assert JitterPortion(1.0) == 1;
  }

  // ---------- phases ----------

  function PhasesDelay(policies: seq<ExponentialRetryPolicy>, elapsed: int, numAttempts: int, random: nat): int
    requires forall i :: 0 <= i < |policies| ==> policies[i].coefficient > 0.0
  {
    if policies == [] then DONE
    else
      var next := ComputeNextDelay(policies[0], elapsed, numAttempts, random);
      if next != DONE then next
      else PhasesDelay(policies[1..], elapsed, numAttempts - policies[0].maximumAttempts, random)
  }

  /** MultiPhasesRetryPolicy.ComputeNextDelay. */
  method ComputePhasesDelay(policies: seq<ExponentialRetryPolicy>, elapsed: int, numAttempts: int, random: nat)
    returns (delay: int)
    requires forall i :: 0 <= i < |policies| ==> policies[i].coefficient > 0.0
    ensures delay == PhasesDelay(policies, elapsed, numAttempts, random)
  {
    var previousStageRetryCount := 0;
    for i := 0 to |policies|
      invariant PhasesDelay(policies, elapsed, numAttempts, random)
                == PhasesDelay(policies[i..], elapsed, numAttempts - previousStageRetryCount, random)
    {
      var next := ComputeNextDelay(policies[i], elapsed, numAttempts - previousStageRetryCount, random);
      if next != DONE {
        return next;
      }
      previousStageRetryCount := previousStageRetryCount + policies[i].maximumAttempts;
      assert policies[i..][1..] == policies[i + 1..];
    }
    return DONE;
  }

  /** Attempts used up by the first k phases. */
  function AttemptsBefore(policies: seq<ExponentialRetryPolicy>, k: nat): int
    requires k <= |policies|
  {
    if k == 0 then 0 else policies[0].maximumAttempts + AttemptsBefore(policies[1..], k - 1)
  }

  /** Phases as the constructor's check and sensible intervals leave them; only the last may be unlimited. */
  ghost predicate WellFormed(policies: seq<ExponentialRetryPolicy>) {
    forall i :: 0 <= i < |policies| ==>
      && policies[i].expirationInterval == NO_INTERVAL && policies[i].initialInterval > 0
      && policies[i].coefficient >= 1.0
      && (policies[i].maximumInterval == NO_INTERVAL || policies[i].initialInterval <= policies[i].maximumInterval)
      && policies[i].maximumAttempts >= 0
      && (i < |policies| - 1 ==> policies[i].maximumAttempts != NO_MAXIMUM_ATTEMPTS)
  }

  /** The phase whose range of attempts holds n. */
  ghost predicate InPhase(policies: seq<ExponentialRetryPolicy>, k: nat, n: int) {
    && k < |policies|
    && AttemptsBefore(policies, k) <= n
    && (policies[k].maximumAttempts == NO_MAXIMUM_ATTEMPTS || n < AttemptsBefore(policies, k) + policies[k].maximumAttempts)
  }

  /**
    Attempt n is served by the phase whose cumulative range holds it, counting from the start of that phase,
    with a delay between four fifths of that phase's interval, cut by its maximum, and the interval itself.
   */
  lemma {:induction false} ServedByItsPhase(policies: seq<ExponentialRetryPolicy>, elapsed: int, n: int, random: nat,
                                            k: nat, x: seq<real>, m: real)
    requires WellFormed(policies) && n >= 0 && InPhase(policies, k, n)
    requires AreIntervals(policies[k], x) && n - AttemptsBefore(policies, k) < |x|
    requires IsCut(policies[k], elapsed, x[n - AttemptsBefore(policies, k)], m)
    ensures PhasesDelay(policies, elapsed, n, random)
            == ComputeNextDelay(policies[k], elapsed, n - AttemptsBefore(policies, k), random) != DONE
    ensures (0.8 * m).Floor <= PhasesDelay(policies, elapsed, n, random) <= m.Floor
    decreases k
  {
    var p := policies[0];
    if k == 0 {
      DoneExactly(p, elapsed, n, random);
      DelayFollowsIntervals(p, elapsed, x, n, m, random);
    } else {
      AttemptsNotNegative(policies[1..], k - 1);
      assert n >= p.maximumAttempts;
      ServedByItsPhase(policies[1..], elapsed, n - p.maximumAttempts, random, k - 1, x, m);
    }
  }

  lemma {:induction false} AttemptsNotNegative(policies: seq<ExponentialRetryPolicy>, k: nat)
    requires WellFormed(policies) && k <= |policies|
    ensures AttemptsBefore(policies, k) >= 0
  {
    if k > 0 {
      AttemptsNotNegative(policies[1..], k - 1);
    }
  }

  /** An attempt in no phase's range gets no delay: all phases are limited and used up. */
  lemma {:induction false} NoPhaseLeft(policies: seq<ExponentialRetryPolicy>, elapsed: int, n: int, random: nat)
    requires WellFormed(policies) && n >= 0
    requires forall k: nat :: !InPhase(policies, k, n)
    ensures PhasesDelay(policies, elapsed, n, random) == DONE
  {
    if policies != [] {
      assert !InPhase(policies, 0, n);
      var rest, n' := policies[1..], n - policies[0].maximumAttempts;
      forall k: nat ensures !InPhase(rest, k, n') {
        assert !InPhase(policies, k + 1, n);
      }
      NoPhaseLeft(rest, elapsed, n', random);
    }
  }

  lemma {:induction false} AttemptsGrow(policies: seq<ExponentialRetryPolicy>, j: nat, k: nat)
    requires WellFormed(policies) && j < k <= |policies|
    ensures AttemptsBefore(policies, j) + policies[j].maximumAttempts <= AttemptsBefore(policies, k)
    decreases k
  {
    if j == 0 {
      AttemptsNotNegative(policies[1..], k - 1);
    } else {
      AttemptsGrow(policies[1..], j - 1, k - 1);
    }
  }

  lemma PhaseIsUnique(policies: seq<ExponentialRetryPolicy>, j: nat, k: nat, n: int)
    requires WellFormed(policies) && InPhase(policies, j, n) && InPhase(policies, k, n)
    ensures j == k
  {
    if j < k {
      AttemptsGrow(policies, j, k);
    } else if k < j {
      AttemptsGrow(policies, k, j);
    }
  }

  class Retrier {
    const policy: ExponentialRetryPolicy
    var currentAttempt: int
    var startTime: int

    constructor (policy: ExponentialRetryPolicy, now: int)
      ensures this.policy == policy && currentAttempt == 0 && startTime == now
    {
      this.policy := policy;
      currentAttempt := 0;
      startTime := now;
    }

    /** Computes from the attempts so far, then counts this one. */
    method NextBackOff(now: int, random: nat) returns (delay: int)
      requires policy.coefficient > 0.0 || currentAttempt >= 0
      modifies this`currentAttempt
      ensures delay == ComputeNextDelay(policy, now - startTime, old(currentAttempt), random)
      ensures currentAttempt == old(currentAttempt) + 1
    {
      delay := ComputeNextDelay(policy, now - startTime, currentAttempt, random);
      currentAttempt := currentAttempt + 1;
    }
  }
}
