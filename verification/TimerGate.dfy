/**
  The local timer gate: a runtime timer that remembers the earliest requested deadline, a goroutine that
  proxies its expiry, and a signal channel with room for one signal. Updates, the expiry, the two halves of
  the goroutine's relay, consumption and Stop interleave freely.
 */
module TimerGate {
  import opened TimerModel

  /**
    deadline: the armed runtime timer. expired: its value sits in the timer's channel, not yet received.
    relaying: the goroutine received the value and has not sent yet. signal: fireChan holds a signal.
    since: the times requested since the timer was last idle. owed: those requested since a signal was last
    consumed or Stop was called. The last two are history; the code does not keep them.
   */
  datatype Gate = Gate(
    deadline: Option<int>, expired: bool, relaying: bool, signal: bool,
    nextWakeupTime: int, since: set<int>, owed: set<int>)

  const NEW_GATE := Gate(None, false, false, false, GO_ZERO_TIME, {}, {})

  /** With synchronous timer channels (Go 1.23) Stop also takes back an expiry nobody received. */
  predicate Live(sync: bool, g: Gate) {
    g.deadline.Some? || (sync && g.expired)
  }

  function Stopped(sync: bool, g: Gate): Gate {
    g.(deadline := None, expired := if sync then false else g.expired)
  }

  function AfterUpdate(sync: bool, g: Gate, t: int): Gate {
    var kept := Live(sync, g) && g.nextWakeupTime < t;
    var next := if kept then g.nextWakeupTime else t;
    var since := if Live(sync, g) then g.since + {t} else {t};
    Stopped(sync, g).(deadline := Some(next), nextWakeupTime := next, since := since, owed := g.owed + {t})
  }

  function AfterStop(sync: bool, g: Gate): Gate {
    Stopped(sync, g).(owed := {}, since := {})
  }

  /** The runtime timer fires; its channel holds one value and drops another. */
  function AfterExpiry(g: Gate): Gate {
    g.(deadline := None, expired := true)
  }

  function AfterReceive(g: Gate): Gate {
    g.(expired := false, relaying := true)
  }

  /** The non-blocking send: a signal already waiting swallows this one. */
  function AfterSend(g: Gate): Gate {
    g.(relaying := false, signal := true)
  }

  function AfterConsume(g: Gate): Gate {
    g.(signal := false, owed := {})
  }

  datatype Step = Request(time: int) | Cancel | Fire | Take | Relay | Observe

  ghost predicate Next(sync: bool, now: int, g: Gate, step: Step, g': Gate) {
    match step
    case Request(t) => g' == AfterUpdate(sync, g, t)
    case Cancel => g' == AfterStop(sync, g)
    case Fire => g.deadline.Some? && g.deadline.value <= now && g' == AfterExpiry(g)
    case Take => g.expired && !g.relaying && g' == AfterReceive(g)
    case Relay => g.relaying && g' == AfterSend(g)
    case Observe => g.signal && g' == AfterConsume(g)
  }

  /** A wake-up no later than t is on its way or already waiting. */
  predicate Covers(g: Gate, t: int) {
    g.signal || g.relaying || g.expired || (g.deadline.Some? && g.deadline.value <= t)
  }

  ghost predicate IsLeast(m: int, s: set<int>) {
    m in s && forall t :: t in s ==> m <= t
  }

  ghost predicate Inv(sync: bool, g: Gate) {
    && (g.deadline.Some? ==> g.deadline.value == g.nextWakeupTime)
    && (sync && g.expired ==> g.deadline.None?)
    && (Live(sync, g) ==> IsLeast(g.nextWakeupTime, g.since))
    && (forall t :: t in g.owed ==>
          g.signal || g.relaying || (!sync && g.expired) || (Live(sync, g) && t in g.since))
  }

  lemma StepKeepsInv(sync: bool, now: int, g: Gate, step: Step, g': Gate)
    requires Inv(sync, g) && Next(sync, now, g, step, g')
    ensures Inv(sync, g')
  {
  }

  /** A run over a clock that may do anything: only the expiry looks at it. */
  ghost predicate IsRun(sync: bool, run: seq<Gate>, steps: seq<Step>, clock: seq<int>) {
    && |run| == |steps| + 1 && |clock| == |steps|
    && run[0] == NEW_GATE
    && forall i :: 0 <= i < |steps| ==> Next(sync, clock[i], run[i], steps[i], run[i + 1])
  }

  lemma {:induction false} InvAt(sync: bool, run: seq<Gate>, steps: seq<Step>, clock: seq<int>, i: nat)
    requires IsRun(sync, run, steps, clock) && i < |run|
    ensures Inv(sync, run[i])
  {
    if i > 0 {
      InvAt(sync, run, steps, clock, i - 1);
      StepKeepsInv(sync, clock[i - 1], run[i - 1], steps[i - 1], run[i]);
    }
  }

  /**
    No wake-up is lost: after Update(t) at step i, and until a signal is consumed or Stop is called, the timer
    is armed at or before t, or has expired undelivered, or a signal waits. An armed timer is armed at the
    earliest time requested since the gate was last idle.
   */
  lemma NoLostWakeup(sync: bool, run: seq<Gate>, steps: seq<Step>, clock: seq<int>, i: nat, j: nat)
    requires IsRun(sync, run, steps, clock) && i < j < |run|
    requires steps[i].Request?
    requires forall k :: i < k < j ==> !steps[k].Observe? && !steps[k].Cancel?
    ensures Covers(run[j], steps[i].time)
    ensures run[j].deadline.Some? ==> IsLeast(run[j].deadline.value, run[j].since)
  {
    OwedStays(sync, run, steps, clock, i, j);
    InvAt(sync, run, steps, clock, j);
  }

  lemma {:induction false} OwedStays(sync: bool, run: seq<Gate>, steps: seq<Step>, clock: seq<int>, i: nat, j: nat)
    requires IsRun(sync, run, steps, clock) && i < j < |run|
    requires steps[i].Request?
    requires forall k :: i < k < j ==> !steps[k].Observe? && !steps[k].Cancel?
    ensures steps[i].time in run[j].owed
  {
    if i + 1 < j {
      OwedStays(sync, run, steps, clock, i, j - 1);
    }
  }

  /** What was asked between two points of a run. */
  ghost predicate Asked(steps: seq<Step>, p: nat, j: nat, t: int) {
    exists k :: p <= k < j <= |steps| && steps[k] == Request(t)
  }

  /** From p on the timer was never idle again, and it is armed at the earliest time asked for since. */
  ghost predicate ArmedSince(sync: bool, run: seq<Gate>, steps: seq<Step>, p: nat, j: nat) {
    && p < j < |run| == |steps| + 1
    && !(run[p].deadline.Some? || (sync && run[p].expired))
    && (forall k :: p < k <= j ==> run[k].deadline.Some? || (sync && run[k].expired))
    && Asked(steps, p, j, run[j].nextWakeupTime)
    && (forall k :: p <= k < j && steps[k].Request? ==> run[j].nextWakeupTime <= steps[k].time)
  }

  /** In every run an armed timer is armed at the earliest time anyone asked for since it was last idle. */
  lemma {:induction false} ArmedAtEarliestRequest(sync: bool, run: seq<Gate>, steps: seq<Step>, clock: seq<int>, j: nat)
    requires IsRun(sync, run, steps, clock) && j < |run|
    requires run[j].deadline.Some? || (sync && run[j].expired)
    ensures exists p: nat :: ArmedSince(sync, run, steps, p, j)
    ensures run[j].deadline.Some? ==> run[j].deadline.value == run[j].nextWakeupTime
  {
    InvAt(sync, run, steps, clock, j);
    assert j > 0;
    var g, g', step := run[j - 1], run[j], steps[j - 1];
    assert Next(sync, clock[j - 1], g, step, g');
    if g.deadline.Some? || (sync && g.expired) {
      ArmedAtEarliestRequest(sync, run, steps, clock, j - 1);
      var p: nat :| ArmedSince(sync, run, steps, p, j - 1);
      var k :| p <= k < j - 1 && steps[k] == Request(g.nextWakeupTime);
      assert Asked(steps, p, j, g'.nextWakeupTime) by {
        assert step.Request? && g'.nextWakeupTime == step.time ==> steps[j - 1] == Request(g'.nextWakeupTime);
        assert steps[k] == Request(g.nextWakeupTime);
      }
      assert ArmedSince(sync, run, steps, p, j);
    } else {
      assert steps[j - 1] == Request(g'.nextWakeupTime);
      assert ArmedSince(sync, run, steps, j - 1, j);
    }
  }

  predicate SameKind(a: Step, b: Step) {
    match a
    case Request(_) => b.Request?
    case Cancel => b.Cancel?
    case Fire => b.Fire?
    case Take => b.Take?
    case Relay => b.Relay?
    case Observe => b.Observe?
  }

  /** How often a kind of step was taken. */
  function Times(steps: seq<Step>, kind: Step): nat {
    if steps == [] then 0 else Times(steps[..|steps| - 1], kind) + if SameKind(kind, steps[|steps| - 1]) then 1 else 0
  }

  /** One expiry for each request at most, one relay for each expiry, one signal consumed for each relay. */
  ghost predicate NoneSpurious(g: Gate, steps: seq<Step>) {
    && Times(steps, Fire) + (if g.deadline.Some? then 1 else 0) <= Times(steps, Request(0))
    && Times(steps, Take) + (if g.expired then 1 else 0) <= Times(steps, Fire)
    && Times(steps, Relay) + (if g.relaying then 1 else 0) == Times(steps, Take)
    && Times(steps, Observe) + (if g.signal then 1 else 0) <= Times(steps, Relay)
  }

  lemma StepKeepsCounts(sync: bool, now: int, g: Gate, steps: seq<Step>, step: Step, g': Gate)
    requires NoneSpurious(g, steps) && Next(sync, now, g, step, g')
    ensures NoneSpurious(g', steps + [step])
  {
    CountOne(steps, step, Request(0));
    CountOne(steps, step, Fire);
    CountOne(steps, step, Take);
    CountOne(steps, step, Relay);
    CountOne(steps, step, Observe);
  }

  lemma CountOne(steps: seq<Step>, step: Step, kind: Step)
    ensures Times(steps + [step], kind) == Times(steps, kind) + if SameKind(kind, step) then 1 else 0
  {
    assert (steps + [step])[..|steps|] == steps;
  }

  /** No wake-up is spurious: every signal stems from an expiry of its own, and every expiry from a request of its own. */
  lemma {:induction false} NoSpuriousWakeup(sync: bool, run: seq<Gate>, steps: seq<Step>, clock: seq<int>, j: nat)
    requires IsRun(sync, run, steps, clock) && j < |run|
    ensures NoneSpurious(run[j], steps[..j])
  {
    if j > 0 {
      NoSpuriousWakeup(sync, run, steps, clock, j - 1);
      StepKeepsCounts(sync, clock[j - 1], run[j - 1], steps[..j - 1], steps[j - 1], run[j]);
      assert steps[..j] == steps[..j - 1] + [steps[j - 1]];
    }
  }

  /** The invariant in the form the reader needs. */
  lemma OwedIsCovered(sync: bool, g: Gate, t: int)
    requires Inv(sync, g) && t in g.owed
    ensures Covers(g, t)
  {
  }

  class LocalTimerGateImpl {
    const sync: bool
    var isActive: bool
    var deadline: Option<int>
    var expired: bool
    var relaying: bool
    var fireChan: bool
    var nextWakeupTime: int
    ghost var since: set<int>
    ghost var owed: set<int>

    ghost function View(): Gate reads this {
      Gate(deadline, expired, relaying, fireChan, nextWakeupTime, since, owed)
    }

    constructor (sync: bool)
      ensures View() == NEW_GATE && this.sync == sync
    {
      this.sync := sync;
      isActive, deadline, expired, relaying, fireChan := false, None, false, false, false;
      nextWakeupTime, since, owed := GO_ZERO_TIME, {}, {};
    }

    /** Stops the runtime timer and tells whether that kept it from firing. */
    method StopTimer() returns (wasLive: bool)
      modifies this`deadline, this`expired
      ensures wasLive == Live(sync, old(View()))
      ensures View() == Stopped(sync, old(View()))
    {
      wasLive := deadline.Some? || (sync && expired);
      deadline := None;
      if sync {
        expired := false;
      }
    }

    /** Returns whether the deadline was (re)set to nextTime. */
    method Update(nextTime: int) returns (changed: bool)
      modifies this
      ensures View() == AfterUpdate(sync, old(View()), nextTime)
      ensures changed == !((old(deadline).Some? || (sync && old(expired))) && old(nextWakeupTime) < nextTime)
      ensures deadline == Some(nextWakeupTime) && nextWakeupTime == if changed then nextTime else old(nextWakeupTime)
      ensures nextWakeupTime <= nextTime
      ensures fireChan == old(fireChan) && relaying == old(relaying) && expired == (!sync && old(expired))
      ensures isActive
    {
      isActive := true;
      var wasLive := StopTimer();
      since := if wasLive then since + {nextTime} else {nextTime};
      owed := owed + {nextTime};
      if wasLive && nextWakeupTime < nextTime {
        deadline := Some(nextWakeupTime);
        return false;
      }
      nextWakeupTime := nextTime;
      deadline := Some(nextTime);
      return true;
    }

    method Stop()
      modifies this
      ensures View() == AfterStop(sync, old(View())) && !isActive
      ensures deadline == None && fireChan == old(fireChan) && relaying == old(relaying)
      ensures expired == (!sync && old(expired)) && nextWakeupTime == old(nextWakeupTime)
    {
      isActive := false;
      var _ := StopTimer();
      since, owed := {}, {};
    }

    /** The goroutine's receive from the timer channel. */
    method TakeExpiry()
      requires expired && !relaying
      modifies this
      ensures View() == AfterReceive(old(View())) && !isActive
      ensures relaying && !expired && deadline == old(deadline) && fireChan == old(fireChan)
    {
      expired := false;
      relaying := true;
      isActive := false;
    }

    /** The goroutine's send, which drops the signal when one is waiting. */
    method RelaySignal()
      requires relaying
      modifies this
      ensures View() == AfterSend(old(View()))
      ensures fireChan && !relaying && deadline == old(deadline) && expired == old(expired)
    {
      relaying := false;
      if !fireChan {
        fireChan := true;
      }
    }
  }
}
