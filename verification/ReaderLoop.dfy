/**
  The reader's run loop against a changing table: reads, hand-overs and new-timer notices on the reader's
  side, the timer gate's own steps, and rows coming and going at any moment, also between the two queries and
  also by instances that do not tell this reader.
 */
module ReaderLoop {
  import opened TimerModel
  import opened SortedTable
  import opened BatchReader
  import G = TimerGate

  /** Waiting in select; reading with the clock value taken; looking further because nothing was near. */
  datatype Phase = Waiting | Reading(now: int) | LookingFurther(now: int)

  /**
    notices: times of inserted rows the reader has not been told of. handed: rows sent to the loading channel.
    lookAhead: the wake-up time of the last finished read; exact: that time came from successful queries.
    polls, notified and silent are history: the reads so far, the notices received since the current read began,
    and the rows inserted without a notice since the last successful query.
   */
  datatype State = State(
    gate: G.Gate, clock: int, rows: set<Offset>, notices: seq<int>,
    cursor: Offset, buffer: seq<Offset>, handed: seq<Offset>, phase: Phase,
    lookAhead: Option<int>, exact: bool, polls: seq<Poll>, notified: set<int>,
    silent: set<Offset>)

  datatype Step =
    | Tick(now: int) | Insert(row: Offset) | SilentInsert(row: Offset) | Remove(row: Offset)
    | GateFire | GateTake | GateRelay
    | StartRead | Query | QueryFails | QueryFurther(succeeds: bool)
    | TakeNotice | HandOver

  ghost predicate Init(sync: bool, start: Offset, s: State) {
    s == State(G.AfterUpdate(sync, G.NEW_GATE, s.clock), s.clock, s.rows, [],
               start, [], [], Waiting, None, false, [], {}, {})
  }

  function Arm(sync: bool, gate: G.Gate, t: Option<int>): G.Gate {
    if t.Some? then G.AfterUpdate(sync, gate, t.value) else gate
  }

  ghost predicate Next(cfg: ReaderConfig, sync: bool, s: State, step: Step, s': State) {
    match step
    case Tick(now) => s.clock <= now && s' == s.(clock := now)
    case Insert(r) => s' == s.(rows := s.rows + {r}, notices := s.notices + [r.time], silent := s.silent - {r})
    case SilentInsert(r) => s' == s.(rows := s.rows + {r}, silent := s.silent + ({r} - s.rows))
    case Remove(r) => s' == s.(rows := s.rows - {r})
    case GateFire => G.Next(sync, s.clock, s.gate, G.Fire, s'.gate) && s' == s.(gate := s'.gate)
    case GateTake => G.Next(sync, s.clock, s.gate, G.Take, s'.gate) && s' == s.(gate := s'.gate)
    case GateRelay => G.Next(sync, s.clock, s.gate, G.Relay, s'.gate) && s' == s.(gate := s'.gate)
    case StartRead =>
      && s.phase.Waiting? && s.buffer == [] && s.gate.signal
      && s' == s.(gate := G.AfterConsume(s.gate), phase := Reading(s.clock), notified := {})
    case Query =>
      && s.phase.Reading?
      && var now := s.phase.now;
         var polled := s.(polls := s.polls + [Poll(s.rows, now)], silent := {});
         if NothingNear(cfg, s.rows, s.cursor, now) then s' == polled.(phase := LookingFurther(now))
         else
           var t := FirstFuture(Page(cfg, s.rows, s.cursor, now), now);
           s' == polled.(buffer := ReadyRows(cfg, s.rows, s.cursor, now),
                         cursor := AfterRead(cfg, s.rows, s.cursor, now),
                         gate := Arm(sync, s.gate, t), lookAhead := t, exact := t.Some?, phase := Waiting)
    case QueryFails =>
      s.phase.Reading? && s' == s.(lookAhead := None, exact := false, phase := Waiting)
    case QueryFurther(ok) =>
      && s.phase.LookingFurther?
      && var t := FurtherLook(cfg, if ok then Some(s.rows) else None, s.cursor, s.phase.now);
         s' == s.(gate := G.AfterUpdate(sync, s.gate, t), lookAhead := Some(t), exact := ok, phase := Waiting,
                  silent := if ok then {} else s.silent)
    case TakeNotice =>
      && s.phase.Waiting? && s.notices != []
      && s' == s.(gate := G.AfterUpdate(sync, s.gate, s.notices[0]), notices := s.notices[1..],
                  notified := s.notified + {s.notices[0]})
    case HandOver =>
      && s.phase.Waiting? && s.buffer != []
      && s' == s.(handed := s.handed + [s.buffer[0]], buffer := s.buffer[1..])
  }

  ghost predicate IsRun(cfg: ReaderConfig, sync: bool, start: Offset, run: seq<State>, steps: seq<Step>) {
    && |run| == |steps| + 1
    && Init(sync, start, run[0])
    && forall i :: 0 <= i < |steps| ==> Next(cfg, sync, run[i], steps[i], run[i + 1])
  }

  /** Some wake-up at or before t has been asked of the gate, or of the reader by a notice under way. */
  ghost predicate Awaited(s: State, t: int) {
    (exists w :: w in s.gate.owed && w <= t) || (exists w :: w in s.notices && w <= t)
  }

  /** How far ahead of its clock a read may set the gate. */
  function Horizon(cfg: ReaderConfig): int {
    if cfg.minLookAhead < cfg.maxLookAhead then cfg.maxLookAhead else cfg.minLookAhead
  }

  /** The wake-up time of a finished read lies within the horizon of that read's clock value. */
  ghost predicate HorizonInv(cfg: ReaderConfig, s: State) {
    && (s.phase.LookingFurther? ==> s.polls != [] && s.polls[|s.polls| - 1].now == s.phase.now)
    && (s.phase.Waiting? && s.lookAhead.Some? ==>
          s.polls != [] && s.lookAhead.value <= s.polls[|s.polls| - 1].now + Horizon(cfg))
  }

  ghost predicate WakeInv(sync: bool, s: State) {
    && G.Inv(sync, s.gate)
    && (s.phase.Waiting? && s.lookAhead.Some? ==> s.lookAhead.value in s.gate.owed)
    && s.notified <= s.gate.owed
    && (s.phase.Waiting? && s.exact ==>
          forall r :: r in s.rows && Less(s.cursor, r) && r !in s.silent ==> Awaited(s, r.time))
  }

  ghost predicate OutputInv(cfg: ReaderConfig, start: Offset, s: State) {
    && s.handed + s.buffer == Output(cfg, start, s.polls)
    && s.cursor == Cursor(cfg, start, s.polls)
    && (!s.phase.Waiting? ==> s.buffer == [])
  }

  lemma ArmCovers(sync: bool, gate: G.Gate, t: int)
    requires G.Inv(sync, gate)
    ensures G.Inv(sync, G.AfterUpdate(sync, gate, t))
    ensures G.AfterUpdate(sync, gate, t).owed == gate.owed + {t}
  {
    G.StepKeepsInv(sync, 0, gate, G.Request(t), G.AfterUpdate(sync, gate, t));
  }

  lemma QueryKeepsWakeInv(cfg: ReaderConfig, sync: bool, s: State, s': State)
    requires WakeInv(sync, s) && Next(cfg, sync, s, Query, s')
    ensures WakeInv(sync, s')
  {
    var now := s.phase.now;
    var page := Page(cfg, s.rows, s.cursor, now);
    if page != [] && FirstFuture(page, now).Some? {
      var hi := EndOf(now + cfg.minLookAhead);
      var t := FirstFuture(page, now).value;
      RangeGetIsPage(s.rows, s.cursor, hi, cfg.batchLimit);
      FutureIsNext(s.rows, s.cursor, hi, cfg.batchLimit, page, now);
      ArmCovers(sync, s.gate, t);
      assert s'.gate.owed == s.gate.owed + {t} && t in s'.gate.owed;
      forall r | r in s'.rows && Less(s'.cursor, r) ensures Awaited(s', r.time) {
        assert t <= r.time;
      }
    }
  }

  lemma NoticeKeepsWakeInv(cfg: ReaderConfig, sync: bool, s: State, s': State)
    requires WakeInv(sync, s) && Next(cfg, sync, s, TakeNotice, s')
    ensures WakeInv(sync, s')
  {
    ArmCovers(sync, s.gate, s.notices[0]);
    forall t | Awaited(s, t) ensures Awaited(s', t) {
      if w :| w in s.notices && w <= t {
        assert w in s'.gate.owed || w in s'.notices;
      }
    }
  }

  lemma InsertKeepsWakeInv(cfg: ReaderConfig, sync: bool, s: State, r: Offset, s': State)
    requires WakeInv(sync, s) && Next(cfg, sync, s, Insert(r), s')
    ensures WakeInv(sync, s')
  {
    assert s'.notices[|s.notices|] == r.time && r.time in s'.notices;
    assert Awaited(s', r.time);
    forall t | Awaited(s, t) ensures Awaited(s', t) {
      if w :| w in s.notices && w <= t {
        assert w in s'.notices;
      }
    }
  }

  lemma StepKeepsWakeInv(cfg: ReaderConfig, sync: bool, s: State, step: Step, s': State)
    requires WakeInv(sync, s) && Next(cfg, sync, s, step, s')
    ensures WakeInv(sync, s')
  {
    match step
    case Insert(r) => InsertKeepsWakeInv(cfg, sync, s, r, s');
    case GateFire => G.StepKeepsInv(sync, s.clock, s.gate, G.Fire, s'.gate);
    case GateTake => G.StepKeepsInv(sync, s.clock, s.gate, G.Take, s'.gate);
    case GateRelay => G.StepKeepsInv(sync, s.clock, s.gate, G.Relay, s'.gate);
    case StartRead => G.StepKeepsInv(sync, s.clock, s.gate, G.Observe, s'.gate);
    case Query => QueryKeepsWakeInv(cfg, sync, s, s');
    case QueryFurther(ok) =>
      ArmCovers(sync, s.gate, s'.lookAhead.value);
      FurtherLookIsEarliest(cfg, s.rows, s.cursor, s.phase.now);
      assert s'.lookAhead.value in s'.gate.owed;
    case TakeNotice => NoticeKeepsWakeInv(cfg, sync, s, s');
    case _ =>
  }

  lemma FutureWithinLookAhead(cfg: ReaderConfig, rows: set<Offset>, cursor: Offset, now: int)
    ensures var t := FirstFuture(Page(cfg, rows, cursor, now), now);
            t.Some? ==> t.value <= now + cfg.minLookAhead
  {
    var page, hi := Page(cfg, rows, cursor, now), EndOf(now + cfg.minLookAhead);
    if FirstFuture(page, now).Some? {
      RangeGetIsPage(rows, cursor, hi, cfg.batchLimit);
      FutureIsNext(rows, cursor, hi, cfg.batchLimit, page, now);
    }
  }

  lemma StepKeepsHorizonInv(cfg: ReaderConfig, sync: bool, s: State, step: Step, s': State)
    requires HorizonInv(cfg, s) && Next(cfg, sync, s, step, s')
    ensures HorizonInv(cfg, s')
  {
    match step
    case Query => FutureWithinLookAhead(cfg, s.rows, s.cursor, s.phase.now);
    case QueryFurther(ok) => FurtherLookIsEarliest(cfg, s.rows, s.cursor, s.phase.now);
    case _ =>
  }

  lemma QueryKeepsOutputInv(cfg: ReaderConfig, sync: bool, start: Offset, s: State, s': State)
    requires OutputInv(cfg, start, s) && Next(cfg, sync, s, Query, s')
    ensures OutputInv(cfg, start, s')
  {
    var poll := Poll(s.rows, s.phase.now);
    var polls := s.polls + [poll];
    assert polls[..|polls| - 1] == s.polls && polls[|polls| - 1] == poll;
    assert s.handed + s.buffer == s.handed;
    if NothingNear(cfg, s.rows, s.cursor, s.phase.now) {
      assert ReadyRows(cfg, s.rows, s.cursor, s.phase.now) == [];
    }
  }

  lemma StepKeepsOutputInv(cfg: ReaderConfig, sync: bool, start: Offset, s: State, step: Step, s': State)
    requires OutputInv(cfg, start, s) && Next(cfg, sync, s, step, s')
    ensures OutputInv(cfg, start, s')
  {
    match step
    case Query => QueryKeepsOutputInv(cfg, sync, start, s, s');
    case HandOver => HandOne(s.handed, s.buffer);
    case _ =>
  }

  lemma HandOne(handed: seq<Offset>, buffer: seq<Offset>)
    requires buffer != []
    ensures handed + [buffer[0]] + buffer[1..] == handed + buffer
  {
    assert buffer == [buffer[0]] + buffer[1..];
  }

  lemma {:induction false} InvAt(cfg: ReaderConfig, sync: bool, start: Offset, run: seq<State>, steps: seq<Step>, i: nat)
    requires IsRun(cfg, sync, start, run, steps) && i < |run|
    ensures WakeInv(sync, run[i]) && HorizonInv(cfg, run[i]) && OutputInv(cfg, start, run[i])
  {
    if i > 0 {
      InvAt(cfg, sync, start, run, steps, i - 1);
      StepKeepsWakeInv(cfg, sync, run[i - 1], steps[i - 1], run[i]);
      StepKeepsHorizonInv(cfg, sync, run[i - 1], steps[i - 1], run[i]);
      StepKeepsOutputInv(cfg, sync, start, run[i - 1], steps[i - 1], run[i]);
    }
  }

  /**
    The reader never oversleeps. Whenever it waits, the gate wakes it by the last look-ahead and by every
    notice received since. If that look-ahead came from the store, then once all notices are delivered the
    gate wakes it by the time of every row beyond the cursor but those inserted without telling it.
   */
  lemma NeverOversleeps(cfg: ReaderConfig, sync: bool, start: Offset, run: seq<State>, steps: seq<Step>, i: nat)
    requires IsRun(cfg, sync, start, run, steps) && i < |run|
    requires run[i].phase.Waiting?
    ensures run[i].lookAhead.Some? ==> G.Covers(run[i].gate, run[i].lookAhead.value)
    ensures forall t :: t in run[i].notified ==> G.Covers(run[i].gate, t)
    ensures run[i].exact && run[i].notices == [] ==>
              forall r :: r in run[i].rows && Less(run[i].cursor, r) && r !in run[i].silent ==>
                G.Covers(run[i].gate, r.time)
  {
    InvAt(cfg, sync, start, run, steps, i);
    var s := run[i];
    forall t | t in s.gate.owed ensures G.Covers(s.gate, t) {
      G.OwedIsCovered(sync, s.gate, t);
    }
    if s.exact && s.notices == [] {
      forall r | r in s.rows && Less(s.cursor, r) && r !in s.silent ensures G.Covers(s.gate, r.time) {
        assert Awaited(s, r.time);
        var w :| w in s.gate.owed && w <= r.time;
        assert G.Covers(s.gate, w);
      }
    }
  }

  /**
    Rows that other instances insert without telling the reader wait no longer than the look-ahead: while an
    armed reader waits, the gate wakes it by the clock of its last read plus the larger look-ahead, and so by
    that or by its own time for every row there is.
   */
  lemma LookAheadBoundsTheSleep(cfg: ReaderConfig, sync: bool, start: Offset, run: seq<State>, steps: seq<Step>, i: nat)
    requires IsRun(cfg, sync, start, run, steps) && i < |run|
    requires run[i].phase.Waiting? && run[i].lookAhead.Some?
    ensures run[i].polls != []
    ensures var bound := run[i].polls[|run[i].polls| - 1].now + Horizon(cfg);
            && G.Covers(run[i].gate, bound)
            && forall r :: r in run[i].rows ==> G.Covers(run[i].gate, if r.time < bound then bound else r.time)
  {
    InvAt(cfg, sync, start, run, steps, i);
    G.OwedIsCovered(sync, run[i].gate, run[i].lookAhead.value);
  }

  /** What the channel has received, followed by what waits to be sent, is the output of the reads so far. */
  lemma HandsOverItsOutput(cfg: ReaderConfig, sync: bool, start: Offset, run: seq<State>, steps: seq<Step>, i: nat)
    requires IsRun(cfg, sync, start, run, steps) && i < |run|
    ensures Sorted(run[i].handed + run[i].buffer)
    ensures forall r :: r in run[i].handed + run[i].buffer ==> Leq(start, r) && Leq(r, run[i].cursor)
    ensures run[i].handed + run[i].buffer != [] ==> run[i].polls != []
    ensures run[i].handed + run[i].buffer != [] && GrowsBeyondCursor(cfg, start, run[i].polls) ==>
              Dedup(run[i].handed + run[i].buffer)
              == InOrder(InRange(run[i].polls[|run[i].polls| - 1].rows, start, run[i].cursor))
  {
    InvAt(cfg, sync, start, run, steps, i);
    OutputIsOrdered(cfg, start, run[i].polls);
    if run[i].handed + run[i].buffer != [] && GrowsBeyondCursor(cfg, start, run[i].polls) {
      OutputIsTheTable(cfg, start, run[i].polls);
    }
  }

  // ---------- the unarmed reader ----------

  /** No timer armed, no expiry on its way, no signal. */
  predicate GateIdle(g: G.Gate) {
    g.deadline.None? && !g.expired && !g.relaying && !g.signal
  }

  /** Nothing will make the reader read: the gate is idle and no notice is under way. */
  predicate Dormant(s: State) {
    s.phase.Waiting? && s.notices == [] && GateIdle(s.gate)
  }

  lemma DormantStep(cfg: ReaderConfig, sync: bool, s: State, step: Step, s': State)
    requires Dormant(s) && Next(cfg, sync, s, step, s') && !step.Insert?
    ensures Dormant(s') && s'.cursor == s.cursor && s'.handed + s'.buffer == s.handed + s.buffer
  {
    if step.HandOver? {
      HandOne(s.handed, s.buffer);
    }
  }

  /** Only an announced insert ends this sleep: until then, whatever else happens, no row is read. */
  lemma {:induction false} SleepLasts(cfg: ReaderConfig, sync: bool, start: Offset, run: seq<State>, steps: seq<Step>, i: nat, j: nat)
    requires IsRun(cfg, sync, start, run, steps) && i <= j < |run|
    requires Dormant(run[i]) && forall k :: i <= k < j ==> !steps[k].Insert?
    ensures Dormant(run[j]) && run[j].cursor == run[i].cursor
    ensures run[j].handed + run[j].buffer == run[i].handed + run[i].buffer
    decreases j
  {
    if i < j {
      SleepLasts(cfg, sync, start, run, steps, i, j - 1);
      DormantStep(cfg, sync, run[j - 1], steps[j - 1], run[j]);
    }
  }

  lemma ArmIdle(sync: bool, g: G.Gate, t: int, x: int)
    requires GateIdle(g)
    ensures G.Covers(G.AfterUpdate(sync, g, t), x) <==> t <= x
  {
  }

  lemma CoversExactly(cfg: ReaderConfig, sync: bool, s: State, s': State)
    requires Next(cfg, sync, s, Query, s') && GateIdle(s.gate)
    requires !NothingNear(cfg, s.rows, s.cursor, s.phase.now)
    ensures var page, now := Page(cfg, s.rows, s.cursor, s.phase.now), s.phase.now;
            (forall r :: r in s'.rows && Less(s'.cursor, r) ==> G.Covers(s'.gate, r.time))
            <==> |Ready(page, now)| < |page| || (forall r :: r in s'.rows ==> !Less(s'.cursor, r))
  {
    var now := s.phase.now;
    var page, hi := Page(cfg, s.rows, s.cursor, now), EndOf(now + cfg.minLookAhead);
    RangeGetIsPage(s.rows, s.cursor, hi, cfg.batchLimit);
    if |Ready(page, now)| < |page| {
      FutureIsNext(s.rows, s.cursor, hi, cfg.batchLimit, page, now);
      forall r | r in s'.rows && Less(s'.cursor, r) ensures G.Covers(s'.gate, r.time) {
        ArmIdle(sync, s.gate, page[|Ready(page, now)|].time, r.time);
      }
    } else {
      assert s'.gate == s.gate;
    }
  }

  lemma SomeFuture(page: seq<Offset>, now: int)
    ensures |Ready(page, now)| < |page| <==> exists p :: p in page && p.time > now
  {
    if |Ready(page, now)| < |page| {
      assert page[|Ready(page, now)|] in page;
    }
  }

  /**
    A read from an idle gate that finds rows makes the gate wake for every row left exactly when its page holds
    a row of the future, or nothing is left; otherwise the reader sleeps.
   */
  lemma WakesForEveryRowExactly(cfg: ReaderConfig, sync: bool, s: State, s': State)
    requires Next(cfg, sync, s, Query, s') && GateIdle(s.gate)
    requires !NothingNear(cfg, s.rows, s.cursor, s.phase.now)
    ensures var page, now := Page(cfg, s.rows, s.cursor, s.phase.now), s.phase.now;
            (forall r :: r in s'.rows && Less(s'.cursor, r) ==> G.Covers(s'.gate, r.time))
            <==> (exists p :: p in page && p.time > now) || (forall r :: r in s'.rows ==> !Less(s'.cursor, r))
    ensures s.notices == [] ==>
              (Dormant(s') <==> forall p :: p in Page(cfg, s.rows, s.cursor, s.phase.now) ==> p.time <= s.phase.now)
  {
    CoversExactly(cfg, sync, s, s');
    SomeFuture(Page(cfg, s.rows, s.cursor, s.phase.now), s.phase.now);
  }

  /** If a read from an idle gate leaves a due row behind, its page was full of due rows, and the reader sleeps. */
  lemma LeftoverMeansSleep(cfg: ReaderConfig, sync: bool, s: State, s': State, r: Offset)
    requires cfg.batchLimit >= 1 && cfg.minLookAhead >= 0
    requires Next(cfg, sync, s, Query, s') && GateIdle(s.gate) && s.notices == []
    requires r in s.rows && r.time <= s.phase.now && Less(s'.cursor, r)
    ensures Dormant(s')
  {
    var now := s.phase.now;
    var page, hi := Page(cfg, s.rows, s.cursor, now), EndOf(now + cfg.minLookAhead);
    RangeGetIsPage(s.rows, s.cursor, hi, cfg.batchLimit);
    LeftBehind(s.rows, s.cursor, hi, cfg.batchLimit, page, now, r);
    assert Ready(page, now) == page && page != [];
  }

  /**
    A backlog larger than the limit stops after its first page: a due row that a read from an idle gate leaves
    behind is not handed over before the reader is told of another insert, however long that takes.
   */
  lemma BacklogWaitsForANotice(cfg: ReaderConfig, sync: bool, start: Offset, run: seq<State>, steps: seq<Step>, i: nat, j: nat, r: Offset)
    requires cfg.batchLimit >= 1 && cfg.minLookAhead >= 0
    requires IsRun(cfg, sync, start, run, steps) && i < j < |run|
    requires steps[i].Query? && run[i].phase.Reading? && GateIdle(run[i].gate) && run[i].notices == []
    requires r in run[i].rows && r.time <= run[i].phase.now && Less(run[i + 1].cursor, r)
    requires forall k :: i < k < j ==> !steps[k].Insert?
    ensures Dormant(run[j]) && run[j].cursor == run[i + 1].cursor
    ensures r !in run[j].handed + run[j].buffer
  {
    LeftoverMeansSleep(cfg, sync, run[i], run[i + 1], r);
    SleepLasts(cfg, sync, start, run, steps, i + 1, j);
    HandsOverItsOutput(cfg, sync, start, run, steps, j);
  }

  lemma ExtendRun(cfg: ReaderConfig, sync: bool, start: Offset, run: seq<State>, steps: seq<Step>, step: Step, s': State)
    requires IsRun(cfg, sync, start, run, steps) && Next(cfg, sync, run[|run| - 1], step, s')
    ensures IsRun(cfg, sync, start, run + [s'], steps + [step])
  {
    var run', steps' := run + [s'], steps + [step];
    forall i | 0 <= i < |steps'| ensures Next(cfg, sync, run'[i], steps'[i], run'[i + 1]) {
      if i < |steps| {
        assert run'[i] == run[i] && run'[i + 1] == run[i + 1] && steps'[i] == steps[i];
      }
    }
  }

  /** The reader signalled at the start of its run, about to query. */
  lemma FirstSignal(cfg: ReaderConfig, sync: bool, start: Offset, rows: set<Offset>, clock: int)
    returns (run: seq<State>, steps: seq<Step>)
    ensures IsRun(cfg, sync, start, run, steps)
    ensures forall i :: 0 <= i < |steps| ==> !steps[i].QueryFails? && !steps[i].QueryFurther?
    ensures var s := run[|run| - 1];
            && s.phase == Reading(clock) && s.clock == clock && s.rows == rows && s.cursor == start
            && s.buffer == [] && s.notices == [] && s.handed == []
            && GateIdle(s.gate)
  {
    var s := State(G.AfterUpdate(sync, G.NEW_GATE, clock), clock, rows, [], start, [], [], Waiting, None, false, [], {}, {});
    run, steps := [s], [];
    var fired := s.(gate := G.AfterExpiry(s.gate));
    ExtendRun(cfg, sync, start, run, steps, GateFire, fired);
    run, steps := run + [fired], steps + [GateFire];
    var taken := fired.(gate := G.AfterReceive(fired.gate));
    ExtendRun(cfg, sync, start, run, steps, GateTake, taken);
    run, steps := run + [taken], steps + [GateTake];
    var relayed := taken.(gate := G.AfterSend(taken.gate));
    ExtendRun(cfg, sync, start, run, steps, GateRelay, relayed);
    run, steps := run + [relayed], steps + [GateRelay];
    var reading := relayed.(gate := G.AfterConsume(relayed.gate), phase := Reading(clock));
    ExtendRun(cfg, sync, start, run, steps, StartRead, reading);
    run, steps := run + [reading], steps + [StartRead];
  }

  /** From the moment of the query: the one row in reach is due, is read, and nothing is armed. */
  lemma ReadsOneRow(cfg: ReaderConfig, sync: bool, s: State, row: Offset) returns (s': State)
    requires cfg.batchLimit >= 1 && s.phase.Reading? && row.time <= s.phase.now
    requires InRange(s.rows, s.cursor, EndOf(s.phase.now + cfg.minLookAhead)) == {row}
    ensures Next(cfg, sync, s, Query, s')
    ensures s' == s.(polls := s.polls + [Poll(s.rows, s.phase.now)], buffer := [row], cursor := row,
                     lookAhead := None, exact := false, phase := Waiting, silent := {})
  {
    SortedUnique([row], InOrder({row}));
    assert Page(cfg, s.rows, s.cursor, s.phase.now) == [row];
    s' := s.(polls := s.polls + [Poll(s.rows, s.phase.now)], buffer := [row], cursor := row,
             lookAhead := None, exact := false, phase := Waiting, silent := {});
  }

  /**
    A read that finds only ready rows leaves the gate unarmed: from any start there is a run, with working
    queries throughout, that ends asleep while a row in the table is overdue.
   */
  lemma SleepsThroughADueRow(cfg: ReaderConfig, sync: bool, start: Offset) returns (run: seq<State>, steps: seq<Step>)
    requires cfg.batchLimit >= 1 && cfg.minLookAhead >= 0
    ensures IsRun(cfg, sync, start, run, steps)
    ensures forall i :: 0 <= i < |steps| ==> !steps[i].QueryFails? && !steps[i].QueryFurther?
    ensures var s := run[|run| - 1];
            Dormant(s) && s.buffer == [] && exists r :: r in s.rows && Less(s.cursor, r) && r.time <= s.clock
  {
    var a := Offset(start.time + 1, ZERO_UUID);
    var b := Offset(a.time + cfg.minLookAhead + 1, ZERO_UUID);
    var rows := {a, b};
    run, steps := FirstSignal(cfg, sync, start, rows, a.time);
    var s := run[|run| - 1];
    assert InRange(rows, start, EndOf(a.time + cfg.minLookAhead)) == {a};
    var read := ReadsOneRow(cfg, sync, s, a);
    ExtendRun(cfg, sync, start, run, steps, Query, read);
    run, steps := run + [read], steps + [Query];
    var sent := read.(handed := [a], buffer := []);
    ExtendRun(cfg, sync, start, run, steps, HandOver, sent);
    run, steps := run + [sent], steps + [HandOver];
    var late := sent.(clock := b.time);
    ExtendRun(cfg, sync, start, run, steps, Tick(b.time), late);
    run, steps := run + [late], steps + [Tick(b.time)];
    assert b in late.rows && Less(late.cursor, b) && b.time <= late.clock;
  }
}
