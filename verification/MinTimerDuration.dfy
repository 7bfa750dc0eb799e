/**
  How large the minimum timer duration has to be. The comment at its configuration asks for more than the clock
  skew; the exact bound also counts how long an insert may take to land once its execute_at was chosen.
 */
module MinTimerDuration {
  import opened TimerModel
  import opened SortedTable
  import opened BatchReader
  import opened Pipeline
  import C = CassandraStore

  lemma ExtendRun(cfg: Config, run: seq<State>, steps: seq<Step>, step: Step, s': State)
    requires IsRun(cfg, run, steps) && Next(cfg, run[|run| - 1], step, s')
    ensures IsRun(cfg, run + [s'], steps + [step])
  {
    var run', steps' := run + [s'], steps + [step];
    forall i | 0 <= i < |steps'| ensures Next(cfg, run'[i], steps'[i], run'[i + 1]) {
      if i < |steps| {
        assert run'[i] == run[i] && run'[i + 1] == run[i + 1] && steps'[i] == steps[i];
      }
    }
  }

  /** Two rows at the earliest time an insert decided at the start may ask for. */
  function OnTime(cfg: Config): Offset {
    Offset(ZERO_TIMESTAMP + cfg.minTimer, 1)
  }

  function Late(cfg: Config): Offset {
    Offset(ZERO_TIMESTAMP + cfg.minTimer, 0)
  }

  function Slow(cfg: Config): Insert {
    Insert(0, ZERO_TIMESTAMP, Late(cfg), None)
  }

  function Clocks(cfg: Config): map<nat, int> {
    map[0 := ZERO_TIMESTAMP + cfg.maxLatency, 1 := ZERO_TIMESTAMP + cfg.maxLatency + cfg.maxSkew]
  }

  /** One insert has landed; the other is decided, and node 1's clock runs ahead while it is on its way. */
  lemma OneLandsOneIsSlow(cfg: Config) returns (run: seq<State>, steps: seq<Step>)
    ensures IsRun(cfg, run, steps)
    ensures var s := run[|run| - 1];
            && s.clocks == Clocks(cfg) && s.shard == None && s.rows == {OnTime(cfg)} && s.completed == {}
            && Slow(cfg) in s.inserts && s.claims == map[] && s.owners == map[] && s.deletes == {}
  {
    var start := map[0 := ZERO_TIMESTAMP, 1 := ZERO_TIMESTAMP];
    var quick := Insert(0, ZERO_TIMESTAMP, OnTime(cfg), None);
    var s := State(start, None, {}, {}, {}, map[], map[], {}, {});
    assert 0 in start;
    run, steps := [s], [];
    var s1 := s.(inserts := {quick});
    ExtendRun(cfg, run, steps, Decide(quick), s1);
    run, steps := run + [s1], steps + [Decide(quick)];
    var s2 := s1.(rows := {OnTime(cfg)});
    assert {} - {} + {quick.key} == {OnTime(cfg)};
    ExtendRun(cfg, run, steps, LandInsert(quick), s2);
    run, steps := run + [s2], steps + [LandInsert(quick)];
    var s3 := s2.(inserts := {quick, Slow(cfg)});
    ExtendRun(cfg, run, steps, Decide(Slow(cfg)), s3);
    run, steps := run + [s3], steps + [Decide(Slow(cfg))];
    var s4 := s3.(clocks := Clocks(cfg));
    ExtendRun(cfg, run, steps, Tick(Clocks(cfg)), s4);
    run, steps := run + [s4], steps + [Tick(Clocks(cfg))];
  }

  lemma ReadsTheOneRow(cfg: Config, now: int)
    requires cfg.reader.batchLimit >= 1 && cfg.reader.minLookAhead >= 0
    requires OnTime(cfg).time <= now
    ensures ReadyRows(cfg.reader, {OnTime(cfg)}, DEFAULT_METADATA, now) == [OnTime(cfg)]
  {
    var hi := EndOf(now + cfg.reader.minLookAhead);
    assert InRange({OnTime(cfg)}, DEFAULT_METADATA, hi) == {OnTime(cfg)};
    SortedUnique([OnTime(cfg)], InOrder({OnTime(cfg)}));
  }

  /** Node 1 claims the shard and hands over the row that is there. */
  lemma HandsOverTheOneRow(cfg: Config) returns (run: seq<State>, steps: seq<Step>)
    requires cfg.reader.batchLimit >= 1 && cfg.reader.minLookAhead >= 0
    requires cfg.minTimer <= cfg.maxSkew + cfg.maxLatency
    ensures IsRun(cfg, run, steps)
    ensures var s := run[|run| - 1];
            && s.clocks == Clocks(cfg) && s.rows == {OnTime(cfg)} && s.completed == {}
            && Slow(cfg) in s.inserts && s.deletes == {}
            && s.owners == map[0 := Owner(1, 1, None, OnTime(cfg), [], {OnTime(cfg)}, {}, {}, None)]
  {
    run, steps := OneLandsOneIsSlow(cfg);
    var s := run[|run| - 1];
    var s1 := s.(claims := map[0 := None]);
    ExtendRun(cfg, run, steps, ReadShard(0), s1);
    run, steps := run + [s1], steps + [ReadShard(0)];
    var (shard, result) := C.Claim(None, None, "", Clocks(cfg)[1]);
    var w := Owner(1, 1, None, DEFAULT_METADATA, [], {}, {}, {}, None);
    var s2 := WithOwner(s1.(shard := shard), 0, w);
    ExtendRun(cfg, run, steps, ClaimShard(0, 1, ""), s2);
    run, steps := run + [s2], steps + [ClaimShard(0, 1, "")];
    var now := Clocks(cfg)[1];
    var s3 := WithOwner(s2, 0, w.(reading := Some(now)));
    ExtendRun(cfg, run, steps, StartRead(0), s3);
    run, steps := run + [s3], steps + [StartRead(0)];
    ReadsTheOneRow(cfg, now);
    var w4 := w.(buffer := [OnTime(cfg)], cursor := OnTime(cfg));
    var s4 := WithOwner(s3, 0, w4);
    ExtendRun(cfg, run, steps, FinishRead(0), s4);
    run, steps := run + [s4], steps + [FinishRead(0)];
    assert {} + {w4.buffer[0]} == {OnTime(cfg)} && w4.buffer[1..] == [];
    var s5 := WithOwner(s4, 0, w4.(handed := {OnTime(cfg)}, buffer := []));
    ExtendRun(cfg, run, steps, HandOver(0), s5);
    run, steps := run + [s5], steps + [HandOver(0)];
  }

  /** The row completes, the queue announces it, and a range delete up to it is on its way. */
  lemma SendsTheDelete(cfg: Config) returns (run: seq<State>, steps: seq<Step>)
    requires cfg.reader.batchLimit >= 1 && cfg.reader.minLookAhead >= 0
    requires cfg.minTimer <= cfg.maxSkew + cfg.maxLatency
    ensures IsRun(cfg, run, steps)
    ensures var s := run[|run| - 1];
            && s.clocks == Clocks(cfg) && s.rows == {OnTime(cfg)} && s.completed == {OnTime(cfg)}
            && Slow(cfg) in s.inserts && s.deletes == {OnTime(cfg)}
            && 0 in s.owners && s.owners[0].cursor == OnTime(cfg)
            && s.owners[0].handed == {OnTime(cfg)} && s.owners[0].buffer == []
  {
    run, steps := HandsOverTheOneRow(cfg);
    var s := run[|run| - 1];
    var a := OnTime(cfg);
    var w := s.owners[0];
    var w1 := w.(done := {a});
    var s1 := WithOwner(s.(completed := {a}), 0, w1);
    ExtendRun(cfg, run, steps, Complete(0, a), s1);
    run, steps := run + [s1], steps + [Complete(0, a)];
    var w2 := w1.(announced := {a});
    var s2 := WithOwner(s1, 0, w2);
    ExtendRun(cfg, run, steps, Announce(0, a), s2);
    run, steps := run + [s2], steps + [Announce(0, a)];
    var s3 := WithOwner(s2, 0, w2.(received := Some(a)));
    ExtendRun(cfg, run, steps, Receive(0, a), s3);
    run, steps := run + [s3], steps + [Receive(0, a)];
    var s4 := s3.(deletes := {a});
    ExtendRun(cfg, run, steps, SendDelete(0), s4);
    run, steps := run + [s4], steps + [SendDelete(0)];
  }

  /** With too short a minimum duration, the slow insert lands behind an announced offset and is range-deleted. */
  lemma LosesTheSlowInsert(cfg: Config) returns (run: seq<State>, steps: seq<Step>)
    requires cfg.reader.batchLimit >= 1 && cfg.reader.minLookAhead >= 0
    requires cfg.minTimer <= cfg.maxSkew + cfg.maxLatency
    ensures IsRun(cfg, run, steps)
    ensures !DeletesOnlyCompleted(run, steps) && !ReadersSkipNothing(run) && !OffsetsStaySafe(run)
  {
    run, steps := SendsTheDelete(cfg);
    var s4 := run[|run| - 1];
    var a, b := OnTime(cfg), Late(cfg);
    var s5 := s4.(rows := {a, b});
    ExtendRun(cfg, run, steps, LandInsert(Slow(cfg)), s5);
    run, steps := run + [s5], steps + [LandInsert(Slow(cfg))];
    var s6 := s5.(rows := {});
    assert InRange(s5.rows, TABLE_START, a) == {a, b};
    assert s5.rows - {a, b} == {};
    ExtendRun(cfg, run, steps, LandDelete(a, {a, b}), s6);
    run, steps := run + [s6], steps + [LandDelete(a, {a, b})];
    var i := |steps| - 1;
    assert steps[i].LandDelete? && run[i] == s5 && run[i + 1] == s6;
    assert b in run[i].rows - run[i + 1].rows && b !in run[i].completed;
    assert 0 in s5.owners && b in s5.rows && Leq(b, s5.owners[0].cursor) && !SkipsNothing(s5, s5.owners[0]);
    assert a in s5.deletes && Leq(b, a) && !Safe(s5, a);
  }

  /**
    With any number of instances and owners, each of these holds in every run if and only if the minimum timer
    duration exceeds clock skew plus insert latency: range deletes remove completed rows only; no reader skips a
    live row; no offset that is stored, read or sent has a live row behind it.
   */
  lemma MinTimerDurationIsExact(cfg: Config)
    requires cfg.reader.batchLimit >= 1 && cfg.reader.minLookAhead >= 0
    ensures (forall run, steps :: IsRun(cfg, run, steps) ==> DeletesOnlyCompleted(run, steps))
            <==> cfg.maxSkew + cfg.maxLatency < cfg.minTimer
    ensures (forall run, steps :: IsRun(cfg, run, steps) ==> ReadersSkipNothing(run))
            <==> cfg.maxSkew + cfg.maxLatency < cfg.minTimer
    ensures (forall run, steps :: IsRun(cfg, run, steps) ==> OffsetsStaySafe(run))
            <==> cfg.maxSkew + cfg.maxLatency < cfg.minTimer
  {
    if cfg.maxSkew + cfg.maxLatency < cfg.minTimer {
      forall run, steps | IsRun(cfg, run, steps)
        ensures DeletesOnlyCompleted(run, steps) && ReadersSkipNothing(run) && OffsetsStaySafe(run)
      {
        RangeDeletesAreSafe(cfg, run, steps);
        HandoverIsSafe(cfg, run, steps);
      }
    } else {
      var run, steps := LosesTheSlowInsert(cfg);
    }
  }
}
