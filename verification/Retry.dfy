/** ThrottleRetry.Do: the retry loop with its two retriers and its choice of error. */
module Retry {
  import opened TimerModel
  import opened RetryPolicy
  import opened RetryRuns

  /** What Do does between two attempts: count, ask both retriers, and pick the longer wait. */
  method NextWait(tr: ThrottleRetry, env: Environment, r: Retrier, t: Retrier, begin: int, trace: seq<Attempt>, failed: Attempt)
    returns (next: int)
    requires Physical(env) && failed.result.Some?
    requires r != t && r.policy == tr.policy && t.policy == tr.throttlePolicy && r.startTime == t.startTime == begin
    requires r.currentAttempt == |trace| && t.currentAttempt == Throttles(tr, trace)
    modifies r`currentAttempt, t`currentAttempt
    ensures next == WaitAfter(tr, env, begin, trace, failed)
    ensures r.currentAttempt == |trace| + 1
    ensures next != DONE ==>
              t.currentAttempt == Throttles(tr, trace) + if tr.isThrottle(failed.result.value) then 1 else 0
  {
    var i := |trace|;
    next := r.NextBackOff(failed.end, env.random(i));
    if next == DONE || !tr.isThrottle(failed.result.value) {
      return;
    }
    var throttleBackOff := t.NextBackOff(failed.end, env.throttleRandom(i));
    next := LongerGranted(next, throttleBackOff);
  }

  /** Why the last attempt was the last. */
  ghost predicate Stops(tr: ThrottleRetry, env: Environment, begin: int, before: seq<Attempt>, last: Attempt)
    requires Physical(env)
  {
    || last.result.None?
    || !tr.isRetryable(last.result.value)
    || WaitAfter(tr, env, begin, before, last) == DONE
    || env.cancelled(|before|)
  }

  /** What holds before each attempt: counting the one to come, this is an execution. */
  ghost predicate Progress(tr: ThrottleRetry, env: Environment, begin: int, trace: seq<Attempt>, now: int, err: Option<Error>, throttled: int)
    requires Physical(env)
  {
    && IsExecution(tr, env, begin, trace + [Upcoming(env, trace, now)])
    && throttled == Throttles(tr, trace)
    && if trace == [] then err == None else err.Some? && err == trace[|trace| - 1].result
  }

  /** Attempt n is no reason to retry, or the caller cancels while waiting after it. */
  predicate LetsGo(tr: ThrottleRetry, env: Environment, n: nat) {
    env.outcome(n).None? || !tr.isRetryable(env.outcome(n).value) || env.cancelled(n)
  }

  /** The loop ends by its policy, by throttling every retry up to a deadline, or because it is let go. */
  ghost predicate Terminates(tr: ThrottleRetry, env: Environment) {
    || Ending(tr.policy)
    || (ThrottlesForever(tr) && tr.policy.expirationInterval >= 1)
    || exists n: nat :: LetsGo(tr, env, n)
  }

  ghost function Limit(tr: ThrottleRetry, env: Environment): int
    requires Terminates(tr, env)
  {
    if Ending(tr.policy) then MaximumRuns(tr.policy)
    else if ThrottlesForever(tr) && tr.policy.expirationInterval >= 1 then tr.policy.expirationInterval + 2
    else
      var n: nat :| LetsGo(tr, env, n);
      n + 1
  }

  lemma WithinLimit(tr: ThrottleRetry, env: Environment, begin: int, trace: seq<Attempt>)
    requires Physical(env) && IsExecution(tr, env, begin, trace) && Terminates(tr, env)
    requires forall i: nat :: i < |trace| - 1 ==> !LetsGo(tr, env, i)
    ensures |trace| <= Limit(tr, env)
  {
    if Ending(tr.policy) {
      RunsAreBounded(tr, env, begin, trace);
    } else if ThrottlesForever(tr) && tr.policy.expirationInterval >= 1 {
      ThrottlingEndsIt(tr, env, begin, trace);
    }
  }

  /** A granted wait leads to the next attempt. */
  lemma RetryProgresses(tr: ThrottleRetry, env: Environment, begin: int, trace: seq<Attempt>, a: Attempt, prevErr: Option<Error>,
                        throttled: int, now: int)
    requires Physical(env)
    requires Progress(tr, env, begin, trace, a.start, prevErr, throttled) && a == Upcoming(env, trace, a.start)
    requires Follows(tr, env, begin, trace, a, now)
    ensures Progress(tr, env, begin, trace + [a], now, a.result, Throttles(tr, trace + [a]))
  {
    OneMoreThrottle(tr, trace, a);
    Appended(tr, env, begin, trace + [a], Upcoming(env, trace + [a], now));
    assert a == (trace + [a])[|trace|];
  }

  /** How Do may end: with the last attempt's result, or the failure before it if both failed. */
  ghost predicate Ends(tr: ThrottleRetry, env: Environment, begin: int, trace: seq<Attempt>, result: Option<Error>)
    requires Physical(env)
  {
    && trace != [] && IsExecution(tr, env, begin, trace)
    && (forall i: nat :: i < |trace| - 1 ==> !LetsGo(tr, env, i))
    && var last := |trace| - 1;
       && Stops(tr, env, begin, trace[..last], trace[last])
       && result == if trace[last].result.None? || last == 0 then trace[last].result else trace[last - 1].result
  }

  lemma EndsOnResult(tr: ThrottleRetry, env: Environment, begin: int, trace: seq<Attempt>, a: Attempt, prevErr: Option<Error>, throttled: int)
    requires Physical(env)
    requires Progress(tr, env, begin, trace, a.start, prevErr, throttled) && a == Upcoming(env, trace, a.start)
    requires Stops(tr, env, begin, trace, a)
    requires forall i: nat :: i < |trace| ==> !LetsGo(tr, env, i)
    ensures Ends(tr, env, begin, trace + [a], if a.result.Some? && prevErr.Some? then prevErr else a.result)
  {
    OneMoreThrottle(tr, trace, a);
  }

  /**
    Runs the operation until it succeeds, its error is not retryable, the policy gives up, or the caller cancels
    while waiting. With two or more failures the error returned is the one before the last.
   */
  method Do(tr: ThrottleRetry, env: Environment, begin: int) returns (result: Option<Error>, trace: seq<Attempt>)
    requires Physical(env) && Terminates(tr, env)
    ensures Ends(tr, env, begin, trace, result)
  {
    var r := new Retrier(tr.policy, begin);
    var t := new Retrier(tr.throttlePolicy, begin);
    var now := begin;
    var err, prevErr: Option<Error> := None, None;
    trace := [];
    while true
      invariant fresh(r) && fresh(t) && r != t && r.policy == tr.policy && t.policy == tr.throttlePolicy
      invariant r.startTime == t.startTime == begin && r.currentAttempt == |trace| && t.currentAttempt >= 0
      invariant Progress(tr, env, begin, trace, now, err, t.currentAttempt)
      invariant forall k: nat :: k < |trace| ==> !LetsGo(tr, env, k)
      decreases Limit(tr, env) - |trace|
    {
      prevErr := err;
      var before := trace;
      var i := |trace|;
      ghost var throttled := t.currentAttempt;
      var attempt := Upcoming(env, trace, now);
      WithinLimit(tr, env, begin, trace + [attempt]);
      trace := trace + [attempt];
      now := attempt.end;
      err := attempt.result;
      if err.None? || !tr.isRetryable(err.value) {
        EndsOnResult(tr, env, begin, before, attempt, prevErr, throttled);
        return (if err.Some? && prevErr.Some? then prevErr else err), trace;
      }
      OneMoreThrottle(tr, before, attempt);
      var next := NextWait(tr, env, r, t, begin, before, attempt);
      if next == DONE || env.cancelled(i) {
        EndsOnResult(tr, env, begin, before, attempt, prevErr, throttled);
        return (if err.Some? && prevErr.Some? then prevErr else err), trace;
      }
      now := now + next + env.slack(i);
      RetryProgresses(tr, env, begin, before, attempt, prevErr, throttled, now);
    }
  }
}
