/**
  The runs of ThrottleRetry.Do: which sequences of attempts it can make, how long they take, and exactly which
  policies keep them short.
 */
module RetryRuns {
  import opened TimerModel
  import opened RetryPolicy

  datatype Error = Error(code: int)

  /** An execution of the operation and how it ended; None is success. */
  datatype Attempt = Attempt(start: int, end: int, result: Option<Error>)

  /** Everything the loop does not decide, by attempt: what the operation does, waiting overshoot, cancellation, randomness. */
  datatype Environment = Environment(
    outcome: int -> Option<Error>, duration: int -> int, slack: int -> int, cancelled: int -> bool,
    random: int -> int, throttleRandom: int -> int)

  ghost predicate Physical(env: Environment) {
    forall i: int :: env.duration(i) >= 0 && env.slack(i) >= 0 && env.random(i) >= 0 && env.throttleRandom(i) >= 0
  }

  datatype ThrottleRetry = ThrottleRetry(
    policy: ExponentialRetryPolicy, throttlePolicy: ExponentialRetryPolicy,
    isRetryable: Error -> bool, isThrottle: Error -> bool)

  function Max(a: int, b: int): int {
    if a < b then b else a
  }

  /** How many of these failures asked for throttling. */
  function Throttles(tr: ThrottleRetry, trace: seq<Attempt>): nat {
    if trace == [] then 0
    else
      var last := trace[|trace| - 1];
      Throttles(tr, trace[..|trace| - 1]) + if last.result.Some? && tr.isThrottle(last.result.value) then 1 else 0
  }

  /** The wait after a failure: the retry delay, or the throttle delay if the error asks for it and it is longer. */
  function Wait(tr: ThrottleRetry, elapsed: int, attempts: nat, throttled: nat, err: Error, random: nat, throttleRandom: nat): int {
    var delay := ComputeNextDelay(tr.policy, elapsed, attempts, random);
    if delay == DONE || !tr.isThrottle(err) then delay
    else LongerGranted(delay, ComputeNextDelay(tr.throttlePolicy, elapsed, throttled, throttleRandom))
  }

  function LongerGranted(delay: int, throttleBackOff: int): int {
    if throttleBackOff != DONE && throttleBackOff > delay then throttleBackOff else delay
  }

  /** The count is the number of attempts that failed and asked for throttling. */
  lemma {:induction false} ThrottlesExactly(tr: ThrottleRetry, trace: seq<Attempt>)
    ensures Throttles(tr, trace)
            == |set i | 0 <= i < |trace| && trace[i].result.Some? && tr.isThrottle(trace[i].result.value)|
  {
    if trace != [] {
      var n, init := |trace| - 1, trace[..|trace| - 1];
      ThrottlesExactly(tr, init);
      var all := set i | 0 <= i < |trace| && trace[i].result.Some? && tr.isThrottle(trace[i].result.value);
      var before := set i | 0 <= i < n && init[i].result.Some? && tr.isThrottle(init[i].result.value);
      if trace[n].result.Some? && tr.isThrottle(trace[n].result.value) {
        assert all == before + {n};
      } else {
        assert all == before;
      }
    }
  }

  /** The wait is granted when the retry delay is, and is the longer of the granted delays that apply. */
  lemma WaitIsTheLonger(tr: ThrottleRetry, elapsed: int, attempts: nat, throttled: nat, err: Error, random: nat, tRandom: nat)
    ensures var wait := Wait(tr, elapsed, attempts, throttled, err, random, tRandom);
            var retry := ComputeNextDelay(tr.policy, elapsed, attempts, random);
            var throttle := ComputeNextDelay(tr.throttlePolicy, elapsed, throttled, tRandom);
            && (wait == DONE <==> retry == DONE)
            && (retry != DONE ==>
                  && wait >= retry && (wait == retry || wait == throttle)
                  && (tr.isThrottle(err) && throttle != DONE ==> wait >= throttle)
                  && (!tr.isThrottle(err) || throttle == DONE ==> wait == retry))
  {
  }

  /** The wait after attempt number |before|. */
  ghost function WaitAfter(tr: ThrottleRetry, env: Environment, begin: int, before: seq<Attempt>, failed: Attempt): int
    requires Physical(env) && failed.result.Some?
  {
    var i := |before|;
    Wait(tr, failed.end - begin, i, Throttles(tr, before), failed.result.value, env.random(i), env.throttleRandom(i))
  }

  /** A retry follows a retryable failure that was granted a wait. */
  ghost predicate Follows(tr: ThrottleRetry, env: Environment, begin: int, before: seq<Attempt>, failed: Attempt, retry: int)
    requires Physical(env)
  {
    && failed.result.Some? && tr.isRetryable(failed.result.value)
    && var wait := WaitAfter(tr, env, begin, before, failed);
       wait != DONE && retry == failed.end + wait + env.slack(|before|)
  }

  ghost predicate Observes(env: Environment, trace: seq<Attempt>) {
    forall i :: 0 <= i < |trace| ==>
      trace[i].result == env.outcome(i) && trace[i].end == trace[i].start + env.duration(i)
  }

  ghost predicate FollowsAt(tr: ThrottleRetry, env: Environment, begin: int, trace: seq<Attempt>, i: int)
    requires Physical(env) && 0 < i < |trace|
  {
    Follows(tr, env, begin, trace[..i - 1], trace[i - 1], trace[i].start)
  }

  /** What Do may produce: each attempt but the first follows the failure before it. */
  ghost predicate IsExecution(tr: ThrottleRetry, env: Environment, begin: int, trace: seq<Attempt>)
    requires Physical(env)
  {
    && (trace != [] ==> trace[0].start == begin)
    && Observes(env, trace)
    && forall i :: 0 < i < |trace| ==> FollowsAt(tr, env, begin, trace, i)
  }

  /** The attempt that comes after these, if it starts now. */
  function Upcoming(env: Environment, trace: seq<Attempt>, now: int): Attempt {
    Attempt(now, now + env.duration(|trace|), env.outcome(|trace|))
  }

  lemma Appended(tr: ThrottleRetry, env: Environment, begin: int, trace: seq<Attempt>, a: Attempt)
    requires Physical(env)
    requires trace != [] && IsExecution(tr, env, begin, trace)
    requires Follows(tr, env, begin, trace[..|trace| - 1], trace[|trace| - 1], a.start)
    requires a.result == env.outcome(|trace|) && a.end == a.start + env.duration(|trace|)
    ensures IsExecution(tr, env, begin, trace + [a])
  {
    var longer := trace + [a];
    forall i | 0 < i < |longer|
      ensures FollowsAt(tr, env, begin, longer, i)
    {
      assert longer[..i - 1] == trace[..i - 1];
      assert i < |trace| ==> FollowsAt(tr, env, begin, trace, i);
    }
  }

  lemma OneMoreThrottle(tr: ThrottleRetry, trace: seq<Attempt>, a: Attempt)
    ensures (trace + [a])[..|trace|] == trace
    ensures Throttles(tr, trace + [a])
            == Throttles(tr, trace) + if a.result.Some? && tr.isThrottle(a.result.value) then 1 else 0
  {
    assert (trace + [a])[..|trace|] == trace;
  }

  /** The wait is granted exactly when the retry policy grants a delay, and is never shorter than it. */
  lemma FailedFirst(tr: ThrottleRetry, env: Environment, begin: int, trace: seq<Attempt>, i: nat)
    requires Physical(env) && IsExecution(tr, env, begin, trace) && 0 < i < |trace|
    ensures ComputeNextDelay(tr.policy, trace[i - 1].end - begin, i - 1, env.random(i - 1)) != DONE
    ensures trace[i - 1].result.Some? && tr.isRetryable(trace[i - 1].result.value)
  {
    assert FollowsAt(tr, env, begin, trace, i);
  }

  // ---------- with a deadline ----------

  /** The shortest wait the policy can ask for. */
  function ShortestWait(p: ExponentialRetryPolicy): int {
    (0.8 * p.initialInterval as real).Floor
  }

  /** A deadline, and waits of at least a nanosecond that do not shrink. */
  predicate Expires(p: ExponentialRetryPolicy) {
    p.expirationInterval > 0 && p.initialInterval >= 2 && p.coefficient >= 1.0
  }

  /** A throttle policy that bounds the waits it asks for. */
  predicate BoundsWaits(p: ExponentialRetryPolicy) {
    p.initialInterval > 0 && p.coefficient >= 1.0 && p.maximumInterval > 0
  }

  /** The latest a retry may start, if waits do not overshoot. */
  function Deadline(tr: ThrottleRetry): int {
    Max(tr.policy.expirationInterval,
        tr.policy.expirationInterval - tr.policy.initialInterval + tr.throttlePolicy.maximumInterval)
  }

  /** A retry starts after at least the shortest wait and within the deadline. */
  ghost predicate InTime(tr: ThrottleRetry, begin: int, failed: Attempt, retry: int, slack: int) {
    && retry >= failed.end + ShortestWait(tr.policy)
    && failed.end - begin <= tr.policy.expirationInterval - tr.policy.initialInterval
    && (BoundsWaits(tr.throttlePolicy) ==> retry - begin <= Deadline(tr) + slack)
  }

  /** A granted wait is at least the shortest one and keeps within the deadline. */
  lemma WaitInTime(tr: ThrottleRetry, elapsed: int, attempts: nat, throttled: nat, err: Error, random: nat, tRandom: nat)
    requires Expires(tr.policy)
    requires Wait(tr, elapsed, attempts, throttled, err, random, tRandom) != DONE
    ensures 1 <= ShortestWait(tr.policy) <= Wait(tr, elapsed, attempts, throttled, err, random, tRandom)
    ensures elapsed <= tr.policy.expirationInterval - tr.policy.initialInterval
    ensures BoundsWaits(tr.throttlePolicy) ==>
              elapsed + Wait(tr, elapsed, attempts, throttled, err, random, tRandom) <= Deadline(tr)
  {
    DoneExactly(tr.policy, elapsed, attempts, random);
    if BoundsWaits(tr.throttlePolicy) {
      DoneExactly(tr.throttlePolicy, elapsed, throttled, tRandom);
    }
    assert 0.8 * tr.policy.initialInterval as real >= 1.0;
  }

  lemma FollowsInTime(tr: ThrottleRetry, env: Environment, begin: int, before: seq<Attempt>, failed: Attempt, retry: int)
    requires Physical(env) && Expires(tr.policy)
    requires Follows(tr, env, begin, before, failed, retry)
    ensures InTime(tr, begin, failed, retry, env.slack(|before|))
    ensures ShortestWait(tr.policy) >= 1
  {
    WaitInTime(tr, failed.end - begin, |before|, Throttles(tr, before), failed.result.value,
               env.random(|before|), env.throttleRandom(|before|));
  }

  /** A retry comes after at least the shortest wait, and no later than the deadline and its overshoot. */
  lemma RetriesAreInTime(tr: ThrottleRetry, env: Environment, begin: int, trace: seq<Attempt>, i: nat)
    requires Physical(env) && Expires(tr.policy)
    requires IsExecution(tr, env, begin, trace) && 0 < i < |trace|
    ensures InTime(tr, begin, trace[i - 1], trace[i].start, env.slack(i - 1))
    ensures ShortestWait(tr.policy) >= 1
  {
    assert FollowsAt(tr, env, begin, trace, i);
    FollowsInTime(tr, env, begin, trace[..i - 1], trace[i - 1], trace[i].start);
  }

  /** n retries that each wait at least w take at least n * w. */
  lemma {:induction false} RetriesTakeTime(tr: ThrottleRetry, env: Environment, begin: int, trace: seq<Attempt>, w: nat, n: nat)
    requires Physical(env) && IsExecution(tr, env, begin, trace) && n < |trace|
    requires forall i :: 0 < i < |trace| ==> trace[i].start >= trace[i - 1].end + w
    ensures trace[n].start - begin >= n * w
  {
    if n > 0 {
      RetriesTakeTime(tr, env, begin, trace, w, n - 1);
      assert n * w == (n - 1) * w + w;
    }
  }

  /** The operation runs at most (E - I) / w + 2 times, w being the shortest wait. */
  lemma AttemptBound(tr: ThrottleRetry, env: Environment, begin: int, trace: seq<Attempt>)
    requires Physical(env) && Expires(tr.policy)
    requires IsExecution(tr, env, begin, trace) && |trace| >= 2
    ensures ShortestWait(tr.policy) >= 1
    ensures |trace| <= (tr.policy.expirationInterval - tr.policy.initialInterval) / ShortestWait(tr.policy) + 2
  {
    var n, w := |trace| - 2, ShortestWait(tr.policy);
    RetriesAreInTime(tr, env, begin, trace, n + 1);
    forall i | 0 < i < |trace| ensures trace[i].start >= trace[i - 1].end + w {
      RetriesAreInTime(tr, env, begin, trace, i);
    }
    RetriesTakeTime(tr, env, begin, trace, w, n);
    DivideBound(n, w, tr.policy.expirationInterval - tr.policy.initialInterval);
  }

  lemma DivideBound(n: nat, w: int, room: int)
    requires w >= 1 && n * w <= room
    ensures n <= room / w
  {
    var q := room / w;
    assert room < q * w + w;
    assert n * w < (q + 1) * w;
    MultiplyOrder(n, q + 1, w);
  }

  lemma MultiplyOrder(a: int, b: int, w: int)
    requires w >= 1 && a * w < b * w
    ensures a < b
  {
  }

  /** A limited policy grants at most that many retries. */
  lemma AttemptsAreLimited(tr: ThrottleRetry, env: Environment, begin: int, trace: seq<Attempt>)
    requires Physical(env) && IsExecution(tr, env, begin, trace)
    requires tr.policy.maximumAttempts != NO_MAXIMUM_ATTEMPTS
    ensures |trace| <= Max(tr.policy.maximumAttempts, 0) + 1
  {
    if |trace| >= 2 {
      FailedFirst(tr, env, begin, trace, |trace| - 1);
    }
  }

  // ---------- which loops end ----------

  /** The caps never leave room for a first interval. */
  predicate NoRoom(p: ExponentialRetryPolicy) {
    || (p.maximumInterval != NO_INTERVAL && p.maximumInterval < p.initialInterval)
    || (p.expirationInterval != NO_INTERVAL && p.expirationInterval < p.initialInterval)
  }

  /** The policies whose retry loops end by themselves. */
  predicate Ending(p: ExponentialRetryPolicy) {
    || p.initialInterval <= 0 || p.coefficient < 1.0
    || p.maximumAttempts != NO_MAXIMUM_ATTEMPTS
    || NoRoom(p)
    || (p.expirationInterval > 0 && p.initialInterval >= 2)
  }

  /** The most attempts such a policy allows. */
  function MaximumRuns(p: ExponentialRetryPolicy): (n: nat)
    requires Ending(p)
    ensures n >= 1
  {
    if p.initialInterval <= 0 then 1
    else if p.coefficient < 1.0 then 2
    else if NoRoom(p) then 1
    else if p.maximumAttempts != NO_MAXIMUM_ATTEMPTS then Max(p.maximumAttempts, 0) + 1
    else
      assert 0.8 * p.initialInterval as real >= 1.0;
      (p.expirationInterval - p.initialInterval) / ShortestWait(p) + 2
  }

  lemma RefusedAtOnce(p: ExponentialRetryPolicy, elapsed: nat, random: nat)
    requires p.initialInterval <= 0 || (p.coefficient >= 1.0 && NoRoom(p))
    ensures ComputeNextDelay(p, elapsed, 0, random) == DONE
  {
    if p.initialInterval <= 0 {
      NoFirstInterval(p, elapsed, random);
    } else {
      DoneExactly(p, elapsed, 0, random);
    }
  }

  lemma RunsAreBounded(tr: ThrottleRetry, env: Environment, begin: int, trace: seq<Attempt>)
    requires Physical(env) && IsExecution(tr, env, begin, trace) && Ending(tr.policy)
    ensures |trace| <= MaximumRuns(tr.policy)
  {
    var p := tr.policy;
    if p.initialInterval <= 0 || (p.coefficient >= 1.0 && NoRoom(p)) {
      if |trace| >= 2 {
        RefusedAtOnce(p, trace[0].end - begin, env.random(0));
        FailedFirst(tr, env, begin, trace, 1);
      }
    } else if p.coefficient < 1.0 {
      if |trace| >= 3 {
        ShrinkingStops(p, trace[1].end - begin, env.random(1));
        FailedFirst(tr, env, begin, trace, 2);
      }
    } else if p.maximumAttempts != NO_MAXIMUM_ATTEMPTS {
      AttemptsAreLimited(tr, env, begin, trace);
    } else if |trace| >= 2 {
      AttemptBound(tr, env, begin, trace);
    }
  }

  /** Without a deadline and without limits every environment that keeps failing has runs of every length. */
  lemma {:induction false} NoDeadlineNeverEnds(tr: ThrottleRetry, env: Environment, begin: int, n: nat)
    requires Physical(env) && !Ending(tr.policy) && tr.policy.expirationInterval == NO_INTERVAL
    requires forall i: int :: env.outcome(i).Some? && tr.isRetryable(env.outcome(i).value)
    ensures exists trace: seq<Attempt> :: |trace| == n && IsExecution(tr, env, begin, trace)
  {
    if n == 0 {
      assert IsExecution(tr, env, begin, []);
    } else if n == 1 {
      assert IsExecution(tr, env, begin, [Upcoming(env, [], begin)]);
    } else {
      NoDeadlineNeverEnds(tr, env, begin, n - 1);
      var trace: seq<Attempt> :| |trace| == n - 1 && IsExecution(tr, env, begin, trace);
      var before, last := trace[..n - 2], trace[n - 2];
      DoneExactly(tr.policy, last.end - begin, n - 2, env.random(n - 2));
      var now := last.end + WaitAfter(tr, env, begin, before, last) + env.slack(n - 2);
      Appended(tr, env, begin, trace, Upcoming(env, trace, now));
      assert |trace + [Upcoming(env, trace, now)]| == n;
    }
  }

  /** An operation that always fails with this error, the first time slowly and then at once. */
  function Failing(error: Error, first: int): Environment {
    Environment(_ => Some(error), i => if i == 0 then first else 0, _ => 0, _ => false, _ => 0, _ => 0)
  }

  /**
    A deadline does not end a loop whose first interval is one nanosecond: if the first attempt lasts until a
    nanosecond before it, all later waits are cut to zero and runs of every length fit into that nanosecond.
   */
  lemma ZeroWaitsNeverEnd(tr: ThrottleRetry, begin: int, error: Error, n: nat)
    requires !Ending(tr.policy) && tr.policy.expirationInterval >= 1
    requires tr.isRetryable(error) && !tr.isThrottle(error)
    ensures var last := begin + tr.policy.expirationInterval - 1;
            IsExecution(tr, Failing(error, tr.policy.expirationInterval - 1), begin,
                        seq(n, i => Attempt(if i == 0 then begin else last, last, Some(error))))
  {
    var first := tr.policy.expirationInterval - 1;
    var env := Failing(error, first);
    var trace := seq(n, i => Attempt(if i == 0 then begin else begin + first, begin + first, Some(error)));
    forall i | 0 < i < n
      ensures FollowsAt(tr, env, begin, trace, i)
    {
      LastNanosecond(tr.policy, i - 1, 0);
      assert |trace[..i - 1]| == i - 1;
    }
  }

  ghost predicate NoneLonger(tr: ThrottleRetry, env: Environment, begin: int, n: nat)
    requires Physical(env)
  {
    forall trace :: IsExecution(tr, env, begin, trace) ==> |trace| <= n
  }

  /** In this environment the loop ends by itself. */
  ghost predicate Bounded(tr: ThrottleRetry, env: Environment, begin: int)
    requires Physical(env)
  {
    exists n: nat :: NoneLonger(tr, env, begin, n)
  }

  ghost predicate AlwaysEnds(tr: ThrottleRetry) {
    forall env, begin :: Physical(env) ==> Bounded(tr, env, begin)
  }

  lemma EndingEnds(tr: ThrottleRetry)
    requires Ending(tr.policy)
    ensures AlwaysEnds(tr)
  {
    forall env, begin | Physical(env) ensures Bounded(tr, env, begin) {
      var n := MaximumRuns(tr.policy);
      forall trace | IsExecution(tr, env, begin, trace) ensures |trace| <= n {
        RunsAreBounded(tr, env, begin, trace);
      }
      assert NoneLonger(tr, env, begin, n);
    }
  }

  lemma OthersDoNot(tr: ThrottleRetry, error: Error)
    requires !Ending(tr.policy) && tr.isRetryable(error)
    requires tr.policy.initialInterval == 1 ==> !tr.isThrottle(error)
    ensures !AlwaysEnds(tr)
  {
    var first := Max(0, tr.policy.expirationInterval - 1);
    var env := Failing(error, first);
    assert Physical(env);
    forall n: nat ensures !NoneLonger(tr, env, 0, n) {
      if tr.policy.expirationInterval == NO_INTERVAL {
        NoDeadlineNeverEnds(tr, env, 0, n + 1);
      } else {
        ZeroWaitsNeverEnd(tr, 0, error, n + 1);
      }
    }
    assert !Bounded(tr, env, 0);
  }

  /**
    A loop with a retryable error ends by itself in every environment exactly when its policy is an ending one.
    With a first interval of one nanosecond that error must not ask for throttling.
   */
  lemma RetryEndsExactly(tr: ThrottleRetry)
    requires exists e :: tr.isRetryable(e) && (tr.policy.initialInterval == 1 ==> !tr.isThrottle(e))
    ensures AlwaysEnds(tr) <==> Ending(tr.policy)
  {
    if Ending(tr.policy) {
      EndingEnds(tr);
    } else {
      var e :| tr.isRetryable(e) && (tr.policy.initialInterval == 1 ==> !tr.isThrottle(e));
      OthersDoNot(tr, e);
    }
  }

  /** A policy ends every loop it is used in, whatever is retried and throttled, exactly when it is an ending one. */
  lemma PolicyEndsExactly(p: ExponentialRetryPolicy)
    ensures (forall tr: ThrottleRetry :: tr.policy == p ==> AlwaysEnds(tr)) <==> Ending(p)
  {
    if Ending(p) {
      forall tr: ThrottleRetry | tr.policy == p ensures AlwaysEnds(tr) {
        EndingEnds(tr);
      }
    } else {
      var tr := ThrottleRetry(p, p, _ => true, _ => false);
      OthersDoNot(tr, Error(0));
      assert tr.policy == p && !AlwaysEnds(tr);
    }
  }

  /** The throttle delays never run out and last at least a nanosecond, and every retry takes one. */
  ghost predicate ThrottlesForever(tr: ThrottleRetry) {
    && (forall e :: tr.isRetryable(e) ==> tr.isThrottle(e))
    && var t := tr.throttlePolicy;
       t.initialInterval >= 2 && t.coefficient >= 1.0 && t.maximumAttempts == NO_MAXIMUM_ATTEMPTS
       && t.expirationInterval == NO_INTERVAL && !NoRoom(t)
  }

  lemma ThrottledWait(tr: ThrottleRetry, env: Environment, begin: int, trace: seq<Attempt>, i: nat)
    requires Physical(env) && IsExecution(tr, env, begin, trace) && ThrottlesForever(tr) && 0 < i < |trace|
    ensures trace[i].start >= trace[i - 1].end + 1
  {
    assert FollowsAt(tr, env, begin, trace, i);
    var throttled := Throttles(tr, trace[..i - 1]);
    DoneExactly(tr.throttlePolicy, trace[i - 1].end - begin, throttled, env.throttleRandom(i - 1));
    assert 0.8 * tr.throttlePolicy.initialInterval as real >= 1.0;
  }

  /** If all retryable errors are throttled for good, a deadline ends the loop even with a first interval of a nanosecond. */
  lemma ThrottlingEndsIt(tr: ThrottleRetry, env: Environment, begin: int, trace: seq<Attempt>)
    requires Physical(env) && IsExecution(tr, env, begin, trace) && ThrottlesForever(tr)
    requires tr.policy.expirationInterval >= 1
    ensures |trace| <= tr.policy.expirationInterval + 2
  {
    if |trace| >= 2 {
      var n := |trace| - 2;
      forall i | 0 < i < |trace| ensures trace[i].start >= trace[i - 1].end + 1 {
        ThrottledWait(tr, env, begin, trace, i);
      }
      RetriesTakeTime(tr, env, begin, trace, 1, n);
      FailedFirst(tr, env, begin, trace, n + 1);
    }
  }
}
