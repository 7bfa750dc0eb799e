/** One read of the batch reader: a page from the cursor, its ready rows, and the time to wake up next. */
module BatchReader {
  import opened TimerModel
  import opened SortedTable

  datatype ReaderConfig = ReaderConfig(minLookAhead: int, maxLookAhead: int, batchLimit: nat)

  ghost function Page(cfg: ReaderConfig, rows: set<Offset>, cursor: Offset, now: int): seq<Offset> {
    RangeGet(rows, cursor, EndOf(now + cfg.minLookAhead), cfg.batchLimit)
  }

  /** The first index from i on whose row lies in the future. */
  function FutureIndex(page: seq<Offset>, now: int, i: nat): (n: nat)
    requires i <= |page|
    ensures i <= n <= |page|
    ensures forall j :: i <= j < n ==> page[j].time <= now
    ensures n < |page| ==> page[n].time > now
    decreases |page| - i
  {
    if i == |page| || page[i].time > now then i else FutureIndex(page, now, i + 1)
  }

  /** The rows before the first one in the future. */
  function Ready(page: seq<Offset>, now: int): seq<Offset> {
    page[..FutureIndex(page, now, 0)]
  }

  function FirstFuture(page: seq<Offset>, now: int): Option<int> {
    var n := FutureIndex(page, now, 0);
    if n < |page| then Some(page[n].time) else None
  }

  function LastOf(cursor: Offset, ready: seq<Offset>): Offset {
    if ready == [] then cursor else ready[|ready| - 1]
  }

  ghost function ReadyRows(cfg: ReaderConfig, rows: set<Offset>, cursor: Offset, now: int): seq<Offset> {
    Ready(Page(cfg, rows, cursor, now), now)
  }

  ghost function AfterRead(cfg: ReaderConfig, rows: set<Offset>, cursor: Offset, now: int): Offset {
    LastOf(cursor, ReadyRows(cfg, rows, cursor, now))
  }

  /** findNextWakeupTimeWithMaxLookAhead; rows is None when its query fails. */
  ghost function FurtherLook(cfg: ReaderConfig, rows: Option<set<Offset>>, cursor: Offset, now: int): int {
    if rows.None? then now + cfg.maxLookAhead
    else
      var page := RangeGet(rows.value, cursor, EndOf(now + cfg.maxLookAhead), 1);
      if page != [] then page[0].time else now + cfg.maxLookAhead
  }

  /** Case 1 of the reader: nothing within the near look-ahead. */
  ghost predicate NothingNear(cfg: ReaderConfig, rows: set<Offset>, cursor: Offset, now: int) {
    Page(cfg, rows, cursor, now) == []
  }

  /** The wake-up time of a read whose two queries saw first and second. */
  ghost function LookAhead(cfg: ReaderConfig, first: set<Offset>, second: Option<set<Offset>>, cursor: Offset, now: int)
    : Option<int>
  {
    if NothingNear(cfg, first, cursor, now) then Some(FurtherLook(cfg, second, cursor, now))
    else FirstFuture(Page(cfg, first, cursor, now), now)
  }

  class BatchReaderImpl {
    const cfg: ReaderConfig
    var lastReadOffset: Offset

    constructor (cfg: ReaderConfig, metadata: Offset)
      ensures this.cfg == cfg && lastReadOffset == metadata
    {
      this.cfg := cfg;
      lastReadOffset := metadata;
    }

    method FindNextWakeupTime(now: int, rows: Option<set<Offset>>) returns (t: int)
      ensures t == FurtherLook(cfg, rows, lastReadOffset, now)
      ensures rows.None? ==> t == now + cfg.maxLookAhead
    {
      if rows.None? {
        return now + cfg.maxLookAhead;
      }
      var timers := QueryRange(rows.value, lastReadOffset, EndOf(now + cfg.maxLookAhead), 1);
      if |timers| > 0 {
        return timers[0].time;
      }
      return now + cfg.maxLookAhead;
    }

    /** The row loop: collects the ready rows, moving the cursor with each, and stops at the first future one. */
    method TakeReady(timers: seq<Offset>, now: int) returns (ready: seq<Offset>, lookAhead: Option<int>)
      modifies this`lastReadOffset
      ensures ready == Ready(timers, now) && lookAhead == FirstFuture(timers, now)
      ensures lastReadOffset == LastOf(old(lastReadOffset), ready)
    {
      ready, lookAhead := [], None;
      var i := 0;
      while i < |timers|
        invariant 0 <= i <= |timers| && |ready| == i
        invariant ready == timers[..i] && forall j :: 0 <= j < i ==> timers[j].time <= now
        invariant lookAhead.None?
        invariant lastReadOffset == LastOf(old(lastReadOffset), ready)
      {
        if timers[i].time > now {
          lookAhead := Some(timers[i].time);
          break;
        }
        ready := ready + [timers[i]];
        lastReadOffset := timers[i];
        i := i + 1;
      }
    }

    /** first is what the retried query saw, None after the retries ran out; second is for the further look. */
    method ReadTimersAndLookAhead(now: int, first: Option<set<Offset>>, second: Option<set<Offset>>)
      returns (ready: seq<Offset>, lookAhead: Option<int>)
      modifies this`lastReadOffset
      ensures first.None? ==> ready == [] && lookAhead == None && lastReadOffset == old(lastReadOffset)
      ensures first.Some? ==>
                && ready == ReadyRows(cfg, first.value, old(lastReadOffset), now)
                && lookAhead == LookAhead(cfg, first.value, second, old(lastReadOffset), now)
                && lastReadOffset == AfterRead(cfg, first.value, old(lastReadOffset), now)
    {
      if first.None? {
        return [], None;
      }
      var timers := QueryRange(first.value, lastReadOffset, EndOf(now + cfg.minLookAhead), cfg.batchLimit);
      ready, lookAhead := TakeReady(timers, now);
      if lookAhead.None? && |ready| == 0 {
        var t := FindNextWakeupTime(now, second);
        lookAhead := Some(t);
      }
    }
  }

  /** The ready rows of a page are the sorted, gapless run of rows from the cursor to the last of them. */
  lemma ReadyIsGapless(rows: set<Offset>, cursor: Offset, hi: Offset, limit: nat, page: seq<Offset>, now: int)
    requires IsPage(rows, cursor, hi, limit, page)
    ensures StrictlySorted(Ready(page, now))
    ensures forall r :: r in Ready(page, now) ==> r in rows && Leq(cursor, r)
    ensures Ready(page, now) != [] ==>
              forall r :: r in Ready(page, now) ==> Leq(r, LastOf(cursor, Ready(page, now)))
    ensures Ready(page, now) != [] ==>
              forall r :: r in rows && Leq(cursor, r) && Leq(r, LastOf(cursor, Ready(page, now)))
                          ==> r in Ready(page, now)
  {
    var ready := Ready(page, now);
    assert forall r :: r in ready ==> r in page;
    if ready != [] {
      var last := ready[|ready| - 1];
      assert last == page[|ready| - 1] && last in page;
      forall r | r in rows && Leq(cursor, r) && Leq(r, last)
        ensures r in ready
      {
        assert r in page;
        var j :| 0 <= j < |page| && page[j] == r;
        assert j < |ready|;
        assert ready[j] == r;
      }
    }
  }

  /** What a read hands over. */
  lemma ReadIsGapless(cfg: ReaderConfig, rows: set<Offset>, cursor: Offset, now: int)
    ensures var ready := ReadyRows(cfg, rows, cursor, now);
            var cursor' := AfterRead(cfg, rows, cursor, now);
            && StrictlySorted(ready)
            && (forall r :: r in ready ==> r in rows && r.time <= now && Leq(cursor, r) && Leq(r, cursor'))
            && (ready != [] ==> cursor' in ready)
            && Leq(cursor, cursor')
            && (ready != [] ==> forall r :: r in rows && Leq(cursor, r) && Leq(r, cursor') ==> r in ready)
  {
    var hi := EndOf(now + cfg.minLookAhead);
    RangeGetIsPage(rows, cursor, hi, cfg.batchLimit);
    ReadyIsGapless(rows, cursor, hi, cfg.batchLimit, Page(cfg, rows, cursor, now), now);
    var ready := ReadyRows(cfg, rows, cursor, now);
    if ready != [] {
      assert ready[|ready| - 1] in ready;
    }
  }

  /** The first future row of a page comes before everything that is neither ready nor before the cursor. */
  lemma FutureIsNext(rows: set<Offset>, cursor: Offset, hi: Offset, limit: nat, page: seq<Offset>, now: int)
    requires IsPage(rows, cursor, hi, limit, page)
    requires |Ready(page, now)| < |page|
    ensures page[|Ready(page, now)|].time <= hi.time
    ensures forall r :: r in rows && Less(LastOf(cursor, Ready(page, now)), r)
                        ==> page[|Ready(page, now)|].time <= r.time
  {
    var n := |Ready(page, now)|;
    assert page[n] in page;
    forall r | r in rows && Less(LastOf(cursor, Ready(page, now)), r)
      ensures page[n].time <= r.time
    {
      if r in page {
        var j :| 0 <= j < |page| && page[j] == r;
        assert n > 0 ==> page[n - 1] == LastOf(cursor, Ready(page, now));
        assert n <= j;
      } else {
        assert n > 0 ==> Leq(cursor, page[n - 1]) by {
          assert n > 0 ==> page[n - 1] in page;
        }
        assert Leq(r, hi) ==> Less(page[n], r);
      }
    }
  }

  /**
    On a store that does not change between the two queries, a wake-up time lies in the future, no later than
    the larger look-ahead and no later than any row left unread.
   */
  lemma LookAheadMissesNothing(cfg: ReaderConfig, rows: set<Offset>, cursor: Offset, now: int)
    requires cfg.batchLimit >= 1 && cfg.minLookAhead >= 0 && cfg.maxLookAhead > 0
    ensures var t := LookAhead(cfg, rows, Some(rows), cursor, now);
            t.Some? ==>
              && now < t.value
              && (t.value <= now + cfg.minLookAhead || t.value <= now + cfg.maxLookAhead)
              && forall r :: r in rows && Less(AfterRead(cfg, rows, cursor, now), r) ==> t.value <= r.time
  {
    var hi := EndOf(now + cfg.minLookAhead);
    RangeGetIsPage(rows, cursor, hi, cfg.batchLimit);
    var page := Page(cfg, rows, cursor, now);
    if page == [] {
      FurtherLookMissesNothing(cfg, rows, cursor, now);
    } else if |Ready(page, now)| < |page| {
      FutureIsNext(rows, cursor, hi, cfg.batchLimit, page, now);
    }
  }

  /** The one-row query finds the earliest row there is from the cursor on, or gives up at its horizon. */
  lemma FurtherLookIsEarliest(cfg: ReaderConfig, rows: set<Offset>, cursor: Offset, now: int)
    ensures var t := FurtherLook(cfg, Some(rows), cursor, now);
            && t <= now + cfg.maxLookAhead
            && (forall r :: r in rows && Leq(cursor, r) ==> t <= r.time)
            && (t == now + cfg.maxLookAhead || exists r :: r in rows && Leq(cursor, r) && r.time == t)
  {
    RangeGetIsPage(rows, cursor, EndOf(now + cfg.maxLookAhead), 1);
    var page := RangeGet(rows, cursor, EndOf(now + cfg.maxLookAhead), 1);
    if page != [] {
      assert page[0] in page;
    }
  }

  /** In case 1 no row the further look can find was returned before: they all lie beyond the near look-ahead. */
  lemma FurtherLookMissesNothing(cfg: ReaderConfig, rows: set<Offset>, cursor: Offset, now: int)
    requires cfg.batchLimit >= 1
    requires NothingNear(cfg, rows, cursor, now)
    ensures forall r :: r in rows && Leq(cursor, r) ==>
              FurtherLook(cfg, Some(rows), cursor, now) <= r.time && now + cfg.minLookAhead < r.time
    ensures FurtherLook(cfg, Some(rows), cursor, now) <= now + cfg.maxLookAhead
    ensures var t := FurtherLook(cfg, Some(rows), cursor, now);
            t == now + cfg.maxLookAhead || now + cfg.minLookAhead < t
  {
    RangeGetIsPage(rows, cursor, EndOf(now + cfg.minLookAhead), cfg.batchLimit);
    FurtherLookIsEarliest(cfg, rows, cursor, now);
  }

  /** A read yields no wake-up time exactly when every row of a nonempty page was ready. */
  lemma UnarmedExactly(cfg: ReaderConfig, first: set<Offset>, second: Option<set<Offset>>, cursor: Offset, now: int)
    ensures LookAhead(cfg, first, second, cursor, now).None?
            <==> Page(cfg, first, cursor, now) != [] && forall r :: r in Page(cfg, first, cursor, now) ==> r.time <= now
  {
    var page := Page(cfg, first, cursor, now);
    var ready := Ready(page, now);
    if |ready| < |page| {
      assert page[|ready|] in page;
    }
  }

  // ---------- draining ----------

  /** The rows that are due and lie beyond the cursor. */
  function Backlog(rows: set<Offset>, cursor: Offset, now: int): set<Offset> {
    set r | r in rows && Less(cursor, r) && r.time <= now
  }

  ghost function AfterReads(cfg: ReaderConfig, rows: set<Offset>, cursor: Offset, now: int, k: nat): Offset {
    if k == 0 then cursor
    else AfterRead(cfg, rows, AfterReads(cfg, rows, cursor, now, k - 1), now)
  }

  /** A row that is due but not ready lies beyond a page full of ready rows. */
  lemma LeftBehind(rows: set<Offset>, cursor: Offset, hi: Offset, limit: nat, page: seq<Offset>, now: int, r: Offset)
    requires IsPage(rows, cursor, hi, limit, page) && now <= hi.time && hi == EndOf(hi.time)
    requires r in rows && r.time <= now && Less(LastOf(cursor, Ready(page, now)), r)
    ensures |page| == limit && Ready(page, now) == page
  {
    var n := |Ready(page, now)|;
    if n < |page| {
      FutureIsNext(rows, cursor, hi, limit, page, now);
    }
    assert Leq(cursor, r) by {
      assert n > 0 ==> page[n - 1] in page;
    }
  }

  /** The boundary row may take one place of a full page; the rest of the page leaves the backlog. */
  lemma FullPageCounts(before: set<Offset>, after: set<Offset>, cursor: Offset, ready: seq<Offset>)
    requires StrictlySorted(ready) && after <= before
    requires forall r :: r in ready && r != cursor ==> r in before && r !in after
    ensures |after| <= |before| - (|ready| - 1)
  {
    DistinctCount(ready);
    var taken := (set p | p in ready) - {cursor};
    CardinalityOfSubset(taken, before - after);
    CardinalityOfSubset(after, before);
  }

  lemma ReadyLeavesBacklog(cfg: ReaderConfig, rows: set<Offset>, cursor: Offset, now: int)
    ensures var cursor' := AfterRead(cfg, rows, cursor, now);
            && StrictlySorted(ReadyRows(cfg, rows, cursor, now))
            && Backlog(rows, cursor', now) <= Backlog(rows, cursor, now)
            && forall r :: r in ReadyRows(cfg, rows, cursor, now) && r != cursor ==>
                 r in Backlog(rows, cursor, now) && r !in Backlog(rows, cursor', now)
  {
    ReadIsGapless(cfg, rows, cursor, now);
  }

  lemma ReadShrinksBacklog(cfg: ReaderConfig, rows: set<Offset>, cursor: Offset, now: int)
    requires cfg.batchLimit >= 2 && cfg.minLookAhead >= 0
    ensures var left := |Backlog(rows, AfterRead(cfg, rows, cursor, now), now)|;
            left == 0 || left <= |Backlog(rows, cursor, now)| - (cfg.batchLimit - 1)
  {
    var hi := EndOf(now + cfg.minLookAhead);
    var cursor' := AfterRead(cfg, rows, cursor, now);
    ReadyLeavesBacklog(cfg, rows, cursor, now);
    if Backlog(rows, cursor', now) != {} {
      var r :| r in Backlog(rows, cursor', now);
      RangeGetIsPage(rows, cursor, hi, cfg.batchLimit);
      LeftBehind(rows, cursor, hi, cfg.batchLimit, Page(cfg, rows, cursor, now), now, r);
      FullPageCounts(Backlog(rows, cursor, now), Backlog(rows, cursor', now), cursor, ReadyRows(cfg, rows, cursor, now));
    }
  }

  lemma {:induction false} DistinctCount(s: seq<Offset>)
    requires StrictlySorted(s)
    ensures |set p | p in s| == |s|
  {
    if s != [] {
      var init := s[..|s| - 1];
      DistinctCount(init);
      assert s == init + [s[|s| - 1]];
      assert (set p | p in s) == (set p | p in init) + {s[|s| - 1]};
    }
  }

  lemma {:induction false} CardinalityOfSubset<T>(a: set<T>, b: set<T>)
    requires a <= b
    ensures |a| <= |b| && |b - a| == |b| - |a|
  {
    assert b == a + (b - a);
  }

  /** With a limit L of at least 2, k reads with k * (L - 1) >= n hand over a backlog of n rows. */
  lemma {:induction false} DrainBound(cfg: ReaderConfig, rows: set<Offset>, cursor: Offset, now: int, k: nat)
    requires cfg.batchLimit >= 2 && cfg.minLookAhead >= 0
    ensures var left := |Backlog(rows, AfterReads(cfg, rows, cursor, now, k), now)|;
            left == 0 || left <= |Backlog(rows, cursor, now)| - k * (cfg.batchLimit - 1)
    ensures k * (cfg.batchLimit - 1) >= |Backlog(rows, cursor, now)| ==>
              Backlog(rows, AfterReads(cfg, rows, cursor, now, k), now) == {}
  {
    if k > 0 {
      DrainBound(cfg, rows, cursor, now, k - 1);
      ReadShrinksBacklog(cfg, rows, AfterReads(cfg, rows, cursor, now, k - 1), now);
      assert k * (cfg.batchLimit - 1) == (k - 1) * (cfg.batchLimit - 1) + (cfg.batchLimit - 1);
      if Backlog(rows, AfterReads(cfg, rows, cursor, now, k - 1), now) == {} {
        ReadIsGapless(cfg, rows, AfterReads(cfg, rows, cursor, now, k - 1), now);
        assert Backlog(rows, AfterReads(cfg, rows, cursor, now, k), now) == {};
      }
    }
  }

  /** While rows are due, a read advances the cursor unless its one place goes to the row at the cursor. */
  lemma ReadAdvancesExactly(cfg: ReaderConfig, rows: set<Offset>, cursor: Offset, now: int)
    requires cfg.minLookAhead >= 0
    requires Backlog(rows, cursor, now) != {}
    ensures Less(cursor, AfterRead(cfg, rows, cursor, now))
            <==> cfg.batchLimit >= 2 || (cfg.batchLimit == 1 && cursor !in rows)
  {
    var hi := EndOf(now + cfg.minLookAhead);
    var page := Page(cfg, rows, cursor, now);
    var ready := Ready(page, now);
    RangeGetIsPage(rows, cursor, hi, cfg.batchLimit);
    ReadIsGapless(cfg, rows, cursor, now);
    var r :| r in Backlog(rows, cursor, now);
    assert Leq(cursor, hi) && Leq(r, hi);
    if cfg.batchLimit >= 2 {
      ReadShrinksBacklog(cfg, rows, cursor, now);
    } else if cfg.batchLimit == 1 && cursor in rows {
      assert page != [] ==> page[0] in page && !Less(page[0], cursor);
      assert cursor in page;
      assert page == [cursor];
    } else if cfg.batchLimit == 1 {
      assert r in page || page != [];
      assert page[0] in page;
    }
  }

  // ---------- whole runs ----------

  /** What one read of a run found: the table then, and the reader's clock. */
  datatype Poll = Poll(rows: set<Offset>, now: int)

  ghost function Cursor(cfg: ReaderConfig, start: Offset, polls: seq<Poll>): Offset {
    if polls == [] then start
    else
      var last := polls[|polls| - 1];
      AfterRead(cfg, last.rows, Cursor(cfg, start, polls[..|polls| - 1]), last.now)
  }

  /** Everything handed to the loading channel by these reads, in order. */
  ghost function Output(cfg: ReaderConfig, start: Offset, polls: seq<Poll>): seq<Offset> {
    if polls == [] then []
    else
      var init := polls[..|polls| - 1];
      var last := polls[|polls| - 1];
      Output(cfg, start, init) + ReadyRows(cfg, last.rows, Cursor(cfg, start, init), last.now)
  }

  lemma AppendKeepsOrder(before: seq<Offset>, ready: seq<Offset>, c: Offset)
    requires Sorted(before) && StrictlySorted(ready)
    requires forall r :: r in before ==> Leq(r, c)
    requires forall r :: r in ready ==> Leq(c, r)
    ensures Sorted(before + ready)
  {
    forall i, j | 0 <= i < j < |before + ready|
      ensures Leq((before + ready)[i], (before + ready)[j])
    {
      assert i < |before| ==> before[i] in before;
      assert j >= |before| ==> ready[j - |before|] in ready;
    }
  }

  /** Output is ordered whatever happens to the table, and a row read again is the one at the cursor. */
  lemma {:induction false} OutputIsOrdered(cfg: ReaderConfig, start: Offset, polls: seq<Poll>)
    ensures Sorted(Output(cfg, start, polls))
    ensures forall r :: r in Output(cfg, start, polls) ==> Leq(start, r) && Leq(r, Cursor(cfg, start, polls))
    ensures Leq(start, Cursor(cfg, start, polls))
    ensures Output(cfg, start, polls) == [] ==> Cursor(cfg, start, polls) == start
    ensures polls != [] ==>
              var init := polls[..|polls| - 1];
              var last := polls[|polls| - 1];
              forall r :: r in Output(cfg, start, init)
                          && r in ReadyRows(cfg, last.rows, Cursor(cfg, start, init), last.now)
                          ==> r == Cursor(cfg, start, init)
  {
    if polls != [] {
      var init, last := polls[..|polls| - 1], polls[|polls| - 1];
      OutputIsOrdered(cfg, start, init);
      var c := Cursor(cfg, start, init);
      ReadIsGapless(cfg, last.rows, c, last.now);
      var before, ready := Output(cfg, start, init), ReadyRows(cfg, last.rows, c, last.now);
      AppendKeepsOrder(before, ready, c);
    }
  }

  /** Drops consecutive copies. */
  function Dedup(s: seq<Offset>): seq<Offset> {
    if |s| <= 1 then s
    else if s[0] == s[1] then Dedup(s[1..])
    else [s[0]] + Dedup(s[1..])
  }

  lemma {:induction false} DedupSorts(s: seq<Offset>)
    requires Sorted(s)
    ensures StrictlySorted(Dedup(s))
    ensures forall k :: k in Dedup(s) <==> k in s
  {
    if |s| > 1 {
      DedupSorts(s[1..]);
      assert s == [s[0]] + s[1..];
      if s[0] != s[1] {
        forall k | k in s[1..] ensures Less(s[0], k) {
          var j :| 0 <= j < |s[1..]| && s[1..][j] == k;
          assert k == s[j + 1] && Leq(s[1], s[j + 1]);
        }
        var rest := Dedup(s[1..]);
        assert forall i :: 0 <= i < |rest| ==> rest[i] in s[1..];
      } else {
        assert s[0] == s[1..][0];
      }
    }
  }

  /** Nothing was removed and whatever was added lies beyond the cursor. */
  ghost predicate AddsBeyond(before: set<Offset>, after: set<Offset>, cursor: Offset) {
    before <= after && forall r :: r in after && r !in before ==> Less(cursor, r)
  }

  ghost predicate GrowsBeyondCursor(cfg: ReaderConfig, start: Offset, polls: seq<Poll>) {
    forall i :: 0 < i < |polls| ==> AddsBeyond(polls[i - 1].rows, polls[i].rows, Cursor(cfg, start, polls[..i]))
  }

  lemma GrowsPrefix(cfg: ReaderConfig, start: Offset, polls: seq<Poll>)
    requires |polls| >= 2 && GrowsBeyondCursor(cfg, start, polls)
    ensures var init := polls[..|polls| - 1];
            && GrowsBeyondCursor(cfg, start, init)
            && AddsBeyond(init[|init| - 1].rows, polls[|polls| - 1].rows, Cursor(cfg, start, init))
  {
    var init := polls[..|polls| - 1];
    forall i | 0 < i < |init|
      ensures AddsBeyond(init[i - 1].rows, init[i].rows, Cursor(cfg, start, init[..i]))
    {
      assert init[..i] == polls[..i];
      assert AddsBeyond(polls[i - 1].rows, polls[i].rows, Cursor(cfg, start, polls[..i]));
    }
    assert AddsBeyond(polls[|init| - 1].rows, polls[|init|].rows, Cursor(cfg, start, polls[..|init|]));
  }

  lemma ExtendRows(previous: set<Offset>, rows: set<Offset>, start: Offset, c: Offset, c': Offset,
                   before: seq<Offset>, ready: seq<Offset>)
    requires Leq(start, c) && Leq(c, c')
    requires before == [] ==> c == start
    requires before != [] ==> forall r :: r in before <==> r in previous && Leq(start, r) && Leq(r, c)
    requires before != [] ==> AddsBeyond(previous, rows, c)
    requires forall r :: r in ready ==> r in rows && Leq(c, r) && Leq(r, c')
    requires ready == [] ==> c' == c
    requires ready != [] ==> forall r :: r in rows && Leq(c, r) && Leq(r, c') ==> r in ready
    requires before + ready != []
    ensures forall r :: r in before + ready <==> r in InRange(rows, start, c')
  {
  }

  lemma {:induction false} OutputRows(cfg: ReaderConfig, start: Offset, polls: seq<Poll>)
    requires polls != [] && GrowsBeyondCursor(cfg, start, polls)
    requires Output(cfg, start, polls) != []
    ensures forall r :: r in Output(cfg, start, polls)
                        <==> r in InRange(polls[|polls| - 1].rows, start, Cursor(cfg, start, polls))
  {
    var init, last := polls[..|polls| - 1], polls[|polls| - 1];
    var c := Cursor(cfg, start, init);
    var before := Output(cfg, start, init);
    OutputIsOrdered(cfg, start, init);
    ReadIsGapless(cfg, last.rows, c, last.now);
    var previous := if init == [] then {} else init[|init| - 1].rows;
    if before != [] {
      GrowsPrefix(cfg, start, polls);
      OutputRows(cfg, start, init);
    }
    ExtendRows(previous, last.rows, start, c, AfterRead(cfg, last.rows, c, last.now),
               before, ReadyRows(cfg, last.rows, c, last.now));
  }

  /**
    On a store without deletions, the output without repeats is exactly the table from the start offset to the
    cursor, in order.
   */
  lemma OutputIsTheTable(cfg: ReaderConfig, start: Offset, polls: seq<Poll>)
    requires polls != [] && GrowsBeyondCursor(cfg, start, polls)
    requires Output(cfg, start, polls) != []
    ensures Dedup(Output(cfg, start, polls))
            == InOrder(InRange(polls[|polls| - 1].rows, start, Cursor(cfg, start, polls)))
  {
    OutputIsOrdered(cfg, start, polls);
    OutputRows(cfg, start, polls);
    DedupSorts(Output(cfg, start, polls));
    SortedUnique(Dedup(Output(cfg, start, polls)),
                 InOrder(InRange(polls[|polls| - 1].rows, start, Cursor(cfg, start, polls))));
  }
}
