/**
  The DynamoDB store's range reads and deletes over its string-ordered index. A query cuts at its limit before
  its filter drops the shard record, which shares the index with the timers.
 */
module DynamoStore {
  import opened TimerModel
  import opened SortedTable
  import opened TimerKey
  import opened Chronology

  /** An item of one shard: its key in the index, its primary sort key, and whether it is a timer row. */
  datatype Item = Item(indexKey: string, sortKey: string, isTimer: bool)

  predicate InBounds(item: Item, lower: string, upper: string) {
    !StrLess(item.indexKey, lower) && !StrLess(upper, item.indexKey)
  }

  /** For a timer's item, lying between formatted bounds means lying between them by (milliseconds, uuid bytes). */
  lemma BoundsAreTupleBounds(item: Item, t: Civil, u: seq<Byte>, lo: Civil, loUuid: seq<Byte>, hi: Civil, hiUuid: seq<Byte>)
    requires Valid(t) && Valid(lo) && Valid(hi) && |u| == 16 && |loUuid| == 16 && |hiUuid| == 16
    requires item.indexKey == FormatExecuteAtWithUuid(t, UuidText(u))
    ensures !StrLess(item.indexKey, FormatExecuteAtWithUuid(lo, UuidText(loUuid)))
            <==> MillisSince(lo) < MillisSince(t) || (MillisSince(lo) == MillisSince(t) && !LexLess(u, loUuid))
    ensures !StrLess(FormatExecuteAtWithUuid(hi, UuidText(hiUuid)), item.indexKey)
            <==> MillisSince(t) < MillisSince(hi) || (MillisSince(t) == MillisSince(hi) && !LexLess(hiUuid, u))
  {
    KeysSortByTime(t, u, lo, loUuid);
    KeysSortByTime(hi, hiUuid, t, u);
  }

  /** The items of the index between the bounds, in index order. */
  function Between(index: seq<Item>, lower: string, upper: string): seq<Item> {
    if index == [] then []
    else (if InBounds(index[0], lower, upper) then [index[0]] else []) + Between(index[1..], lower, upper)
  }

  /** The filter on row_type. */
  function Timers(s: seq<Item>): (t: seq<Item>)
    ensures |t| <= |s|
  {
    if s == [] then []
    else (if s[0].isTimer then [s[0]] else []) + Timers(s[1..])
  }

  /** What a query takes before its filter; a limit that is not positive is not sent. */
  function Cut(index: seq<Item>, lower: string, upper: string, limit: int): seq<Item> {
    var range := Between(index, lower, upper);
    if limit > 0 then Take(range, limit) else range
  }

  /** A query page: limit counts items before the filter. */
  function Query(index: seq<Item>, lower: string, upper: string, limit: int): seq<Item> {
    Timers(Cut(index, lower, upper, limit))
  }

  // ---------- positions ----------

  /** These are the items at some positions of a sequence, in order. */
  ghost predicate Picks(s: seq<Item>, at: seq<nat>, r: seq<Item>) {
    && |at| == |r|
    && (forall i, j :: 0 <= i < j < |at| ==> at[i] < at[j])
    && (forall i :: 0 <= i < |at| ==> at[i] < |s| && r[i] == s[at[i]])
  }

  /** The key of the item at a position is neither below the lower nor above the upper bound. */
  ghost predicate KeyWithin(index: seq<Item>, lower: string, upper: string, q: nat) {
    q < |index| && !StrLess(index[q].indexKey, lower) && !StrLess(upper, index[q].indexKey)
  }

  ghost predicate TimerWithin(index: seq<Item>, lower: string, upper: string, q: nat) {
    KeyWithin(index, lower, upper, q) && index[q].isTimer
  }

  lemma MoveUp(at: seq<nat>) returns (moved: seq<nat>)
    ensures |moved| == |at| && forall i :: 0 <= i < |at| ==> moved[i] == at[i] + 1
    ensures forall q: nat :: q in moved <==> q > 0 && q - 1 in at
  {
    moved := seq(|at|, i requires 0 <= i < |at| => at[i] + 1);
    forall q: nat ensures q in moved <==> q > 0 && q - 1 in at {
      if q > 0 && q - 1 in at {
        var i :| 0 <= i < |at| && at[i] == q - 1;
        assert moved[i] == q;
      }
    }
  }

  /** Positions of the tail, moved behind the head, with the head's own in front or not. */
  lemma Prepend(s: seq<Item>, at: seq<nat>, r: seq<Item>, keep: bool) returns (all: seq<nat>)
    requires s != [] && Picks(s[1..], at, r)
    ensures Picks(s, all, (if keep then [s[0]] else []) + r)
    ensures forall q: nat :: q in all <==> (q == 0 && keep) || (q > 0 && q - 1 in at)
  {
    var moved := MoveUp(at);
    all := (if keep then [0] else []) + moved;
  }

  /** A range read takes exactly the items with a key within the bounds, each as often as it is there, in index order. */
  lemma {:induction false} BetweenExactly(index: seq<Item>, lower: string, upper: string) returns (at: seq<nat>)
    ensures Picks(index, at, Between(index, lower, upper))
    ensures forall q: nat :: q in at <==> KeyWithin(index, lower, upper, q)
  {
    if index == [] {
      at := [];
    } else {
      var rest := BetweenExactly(index[1..], lower, upper);
      at := Prepend(index, rest, Between(index[1..], lower, upper), InBounds(index[0], lower, upper));
      forall q: nat ensures q in at <==> KeyWithin(index, lower, upper, q) {
        if q > 0 {
          assert q - 1 in rest <==> KeyWithin(index[1..], lower, upper, q - 1);
        }
      }
    }
  }

  lemma {:induction false} TimersExactly(s: seq<Item>) returns (at: seq<nat>)
    ensures Picks(s, at, Timers(s))
    ensures forall q: nat :: q in at <==> q < |s| && s[q].isTimer
  {
    if s == [] {
      at := [];
    } else {
      var rest := TimersExactly(s[1..]);
      at := Prepend(s, rest, Timers(s[1..]), s[0].isTimer);
      forall q: nat ensures q in at <==> q < |s| && s[q].isTimer {
        if q > 0 {
          assert q - 1 in rest <==> q - 1 < |s[1..]| && s[1..][q - 1].isTimer;
        }
      }
    }
  }

  lemma Compose(s: seq<Item>, outer: seq<nat>, mid: seq<Item>, inner: seq<nat>, r: seq<Item>) returns (at: seq<nat>)
    requires Picks(s, outer, mid) && Picks(mid, inner, r)
    ensures Picks(s, at, r)
    ensures forall j :: 0 <= j < |outer| && j in inner ==> outer[j] in at
    ensures forall q :: q in at ==> exists j :: 0 <= j < |outer| && j in inner && outer[j] == q
  {
    at := seq(|inner|, i requires 0 <= i < |inner| => outer[inner[i]]);
    forall j | 0 <= j < |outer| && j in inner ensures outer[j] in at {
      var i :| 0 <= i < |inner| && inner[i] == j;
      assert at[i] == outer[j];
    }
    forall q | q in at ensures exists j :: 0 <= j < |outer| && j in inner && outer[j] == q {
      var i :| 0 <= i < |at| && at[i] == q;
      assert inner[i] in inner && outer[inner[i]] == q;
    }
  }

  /** The timers of a range, by their positions in the index. */
  lemma TimersBetweenExactly(index: seq<Item>, lower: string, upper: string) returns (at: seq<nat>)
    ensures Picks(index, at, Timers(Between(index, lower, upper)))
    ensures forall q: nat :: q in at <==> TimerWithin(index, lower, upper, q)
  {
    var range := Between(index, lower, upper);
    var outer := BetweenExactly(index, lower, upper);
    var inner := TimersExactly(range);
    at := Compose(index, outer, range, inner, Timers(range));
    forall q: nat ensures q in at <==> TimerWithin(index, lower, upper, q) {
      if q in at {
        var j :| 0 <= j < |outer| && j in inner && outer[j] == q;
        assert outer[j] in outer;
      }
      if TimerWithin(index, lower, upper, q) {
        assert q in outer;
        var j :| 0 <= j < |outer| && outer[j] == q;
        assert j in inner;
      }
    }
  }

  /** The index holds no two items within the bounds that are no timers. */
  ghost predicate OneRecord(index: seq<Item>, lower: string, upper: string) {
    forall p: nat, q: nat ::
      KeyWithin(index, lower, upper, p) && !index[p].isTimer && KeyWithin(index, lower, upper, q) && !index[q].isTimer
      ==> p == q
  }

  lemma {:induction false} FewRecords(s: seq<Item>)
    requires forall i, j :: 0 <= i < j < |s| ==> s[i].isTimer || s[j].isTimer
    ensures |s| - |Timers(s)| <= 1
  {
    if s != [] {
      if s[0].isTimer {
        FewRecords(s[1..]);
      } else {
        AllTimers(s[1..]);
      }
    }
  }

  lemma OneRecordInRange(index: seq<Item>, lower: string, upper: string)
    requires OneRecord(index, lower, upper)
    ensures |Between(index, lower, upper)| - |Timers(Between(index, lower, upper))| <= 1
  {
    var range := Between(index, lower, upper);
    var at := BetweenExactly(index, lower, upper);
    forall i, j | 0 <= i < j < |range| ensures range[i].isTimer || range[j].isTimer {
      assert at[i] in at && at[j] in at;
      assert KeyWithin(index, lower, upper, at[i]) && KeyWithin(index, lower, upper, at[j]);
    }
    FewRecords(range);
  }

  /** These positions hold timers within the bounds only, and a timer within them left out comes after a full page. */
  ghost predicate IsTimerPage(index: seq<Item>, lower: string, upper: string, at: seq<nat>, limit: nat) {
    && (forall q :: q in at ==> TimerWithin(index, lower, upper, q))
    && (forall q: nat :: TimerWithin(index, lower, upper, q) && q !in at ==>
          |at| == limit && forall p :: p in at ==> p < q)
  }

  lemma PrefixIsPage(index: seq<Item>, lower: string, upper: string, n: nat) returns (at: seq<nat>)
    ensures Picks(index, at, Take(Timers(Between(index, lower, upper)), n))
    ensures IsTimerPage(index, lower, upper, at, n)
  {
    var all := TimersBetweenExactly(index, lower, upper);
    at := Take(all, n);
    assert forall q :: q in at ==> q in all;
    forall q: nat | TimerWithin(index, lower, upper, q) && q !in at
      ensures |at| == n && forall p :: p in at ==> p < q
    {
      assert q in all;
      var j :| 0 <= j < |all| && all[j] == q;
      assert forall i :: 0 <= i < |at| ==> at[i] == all[i] && at[i] in at;
    }
  }

  // ---------- reading ----------

  lemma {:induction false} TimersSplit(a: seq<Item>, b: seq<Item>)
    ensures Timers(a + b) == Timers(a) + Timers(b)
  {
    if a == [] {
      assert a + b == b;
    } else {
      TimersSplit(a[1..], b);
      assert (a + b)[0] == a[0] && (a + b)[1..] == a[1..] + b;
      var head := if a[0].isTimer then [a[0]] else [];
      assert head + (Timers(a[1..]) + Timers(b)) == head + Timers(a[1..]) + Timers(b);
    }
  }

  /** Filtering a cut range gives a start of the filtered range. */
  lemma CutThenFilter(range: seq<Item>, n: nat)
    ensures var t := Timers(Take(range, n));
            && |t| <= |Timers(range)| && t == Timers(range)[..|t|]
            && (n <= |range| ==> |t| >= n - (|range| - |Timers(range)|))
            && (n >= |range| ==> t == Timers(range))
  {
    if n <= |range| {
      TimersSplit(range[..n], range[n..]);
      assert range == range[..n] + range[n..];
    }
  }

  /** Reading one item more than asked makes up for one shard record, wherever it stands in the range. */
  lemma OverReadIsExact(index: seq<Item>, lower: string, upper: string, limit: nat)
    requires |Between(index, lower, upper)| - |Timers(Between(index, lower, upper))| <= 1
    ensures Take(Query(index, lower, upper, limit + 1), limit)
            == Take(Timers(Between(index, lower, upper)), limit)
  {
    CutThenFilter(Between(index, lower, upper), limit + 1);
  }

  lemma {:induction false} FullExactly(s: seq<Item>)
    ensures |Timers(s)| == |s| <==> forall i :: 0 <= i < |s| ==> s[i].isTimer
  {
    if s != [] {
      FullExactly(s[1..]);
      assert s[0].isTimer && (forall i :: 0 <= i < |s[1..]| ==> s[1..][i].isTimer)
             <==> forall i :: 0 <= i < |s| ==> s[i].isTimer by {
        assert forall i :: 0 < i < |s| ==> s[i] == s[1..][i - 1];
      }
    }
  }

  lemma CutExactly(range: seq<Item>, limit: nat)
    requires |range| > limit && |range| - |Timers(range)| <= 1
    ensures (forall i :: 0 <= i < limit ==> range[i].isTimer) ==> Timers(range[..limit]) == Take(Timers(range), limit)
    ensures !(forall i :: 0 <= i < limit ==> range[i].isTimer) ==>
              |Timers(range)| >= limit > 0 && Timers(range[..limit]) == Take(Timers(range), limit - 1)
  {
    var first, rest := range[..limit], range[limit..];
    assert range == first + rest;
    TimersSplit(first, rest);
    FullExactly(first);
    assert forall i :: 0 <= i < limit ==> range[i] == first[i];
    assert Timers(range)[..|Timers(first)|] == Timers(first);
  }

  /**
    Without reading one more, a limited query is exact when the shard record is not among the items it cuts to,
    or it cuts nothing; in all other cases it returns one timer less.
   */
  lemma LimitedQueryExactly(index: seq<Item>, lower: string, upper: string, limit: int)
    requires limit > 0
    requires |Between(index, lower, upper)| - |Timers(Between(index, lower, upper))| <= 1
    ensures var range := Between(index, lower, upper);
            var exact := |range| <= limit || forall i :: 0 <= i < limit ==> range[i].isTimer;
            && (Query(index, lower, upper, limit) == Take(Timers(range), limit) <==> exact)
            && (!exact ==> |Timers(range)| >= limit && Query(index, lower, upper, limit) == Take(Timers(range), limit - 1))
  {
    var range := Between(index, lower, upper);
    if |range| > limit {
      CutExactly(range, limit);
    } else {
      assert Take(range, limit) == range && Take(Timers(range), limit) == Timers(range);
    }
  }

  /** The item loop: it appends first and then stops at the limit, so a limit of 0 still yields one item. */
  method CollectUpTo(items: seq<Item>, limit: nat) returns (timers: seq<Item>)
    ensures timers == Take(items, if limit == 0 then 1 else limit)
  {
    timers := [];
    var i := 0;
    while i < |items|
      invariant 0 <= i <= |items|
      invariant timers == items[..i]
      invariant i == 0 || i < limit
    {
      timers := timers + [items[i]];
      i := i + 1;
      if |timers| >= limit {
        break;
      }
    }
  }

  /** RangeGetTimers: over-reads by one, then stops once the limit is reached. */
  method RangeGetTimers(index: seq<Item>, lower: string, upper: string, limit: nat) returns (timers: seq<Item>)
    ensures limit >= 1 && |Between(index, lower, upper)| - |Timers(Between(index, lower, upper))| <= 1
            ==> timers == Take(Timers(Between(index, lower, upper)), limit)
    ensures timers <= Timers(Between(index, lower, upper))
    ensures |timers| <= if limit == 0 then 1 else limit
    ensures exists at ::
              && Picks(index, at, timers) && (forall q :: q in at ==> TimerWithin(index, lower, upper, q))
              && (limit >= 1 && OneRecord(index, lower, upper) ==> IsTimerPage(index, lower, upper, at, limit))
  {
    var items := Query(index, lower, upper, limit + 1);
    timers := CollectUpTo(items, limit);
    CutThenFilter(Between(index, lower, upper), limit + 1);
    if limit >= 1 && OneRecord(index, lower, upper) {
      OneRecordInRange(index, lower, upper);
      var _ := PrefixIsPage(index, lower, upper, limit);
    } else {
      assert timers == Take(Timers(Between(index, lower, upper)), |timers|);
      var _ := PrefixIsPage(index, lower, upper, |timers|);
    }
  }

  // ---------- deletion ----------

  function Without(index: seq<Item>, gone: seq<Item>): seq<Item> {
    if index == [] then []
    else (if index[0] in gone then [] else [index[0]]) + Without(index[1..], gone)
  }

  /** What a deletion leaves: the items not asked for, each as often as it was there, in index order. */
  lemma {:induction false} WithoutExactly(index: seq<Item>, gone: seq<Item>) returns (at: seq<nat>)
    ensures Picks(index, at, Without(index, gone))
    ensures forall q: nat :: q in at <==> q < |index| && index[q] !in gone
  {
    if index == [] {
      at := [];
    } else {
      var rest := WithoutExactly(index[1..], gone);
      at := Prepend(index, rest, Without(index[1..], gone), index[0] !in gone);
      forall q: nat ensures q in at <==> q < |index| && index[q] !in gone {
        if q > 0 {
          assert q - 1 in rest <==> q - 1 < |index[1..]| && index[1..][q - 1] !in gone;
        }
      }
    }
  }

  /** Ascending positions before q of items within the bounds. */
  ghost predicate AllBefore(index: seq<Item>, lower: string, upper: string, before: seq<nat>, q: nat) {
    && (forall i, j :: 0 <= i < j < |before| ==> before[i] < before[j])
    && (forall p :: p in before ==> p < q && KeyWithin(index, lower, upper, p))
  }

  lemma TimersIn(s: seq<Item>, x: Item)
    ensures x in Timers(s) <==> x in s && x.isTimer
  {
    var at := TimersExactly(s);
    if x in Timers(s) {
      var i :| 0 <= i < |Timers(s)| && Timers(s)[i] == x;
      assert at[i] in at && s[at[i]] == x;
    }
    if x in s && x.isTimer {
      var q :| 0 <= q < |s| && s[q] == x;
      assert q in at;
      var i :| 0 <= i < |at| && at[i] == q;
      assert Timers(s)[i] == x;
    }
  }

  lemma FoundIsWithin(index: seq<Item>, lower: string, upper: string, limit: int, q: nat)
    requires q < |index| && index[q] in Query(index, lower, upper, limit)
    ensures TimerWithin(index, lower, upper, q)
  {
    var at := BetweenExactly(index, lower, upper);
    var cut := Cut(index, lower, upper, limit);
    TimersIn(cut, index[q]);
    var i :| 0 <= i < |cut| && cut[i] == index[q];
    assert at[i] in at && index[at[i]] == index[q];
    assert KeyWithin(index, lower, upper, at[i]);
  }

  /** A timer within the bounds that a query does not find comes after limit items within them. */
  lemma MissedComesLater(index: seq<Item>, lower: string, upper: string, limit: int, q: nat)
    requires TimerWithin(index, lower, upper, q) && index[q] !in Query(index, lower, upper, limit)
    ensures limit > 0 && exists before: seq<nat> :: |before| == limit && AllBefore(index, lower, upper, before, q)
  {
    var at := BetweenExactly(index, lower, upper);
    var cut := Cut(index, lower, upper, limit);
    TimersIn(cut, index[q]);
    assert q in at;
    var j :| 0 <= j < |at| && at[j] == q;
    assert forall i :: 0 <= i < |cut| ==> index[at[i]] == cut[i] && cut[i] in cut;
    PrefixIsBefore(index, lower, upper, at, limit, j);
    assert |at[..limit]| == limit;
  }

  lemma PrefixIsBefore(index: seq<Item>, lower: string, upper: string, at: seq<nat>, n: nat, j: nat)
    requires n <= j < |at| && forall a, b :: 0 <= a < b < |at| ==> at[a] < at[b]
    requires forall q: nat :: q in at ==> KeyWithin(index, lower, upper, q)
    ensures AllBefore(index, lower, upper, at[..n], at[j])
  {
    var before := at[..n];
    forall p | p in before ensures p < at[j] && KeyWithin(index, lower, upper, p) {
      var i :| 0 <= i < n && before[i] == p;
      assert at[i] in at;
    }
  }

  /** The positions that stay when some of what a query found is deleted. */
  ghost predicate Stays(index: seq<Item>, lower: string, upper: string, limit: int, all: bool, at: seq<nat>, left: seq<Item>) {
    && Picks(index, at, left)
    && (forall q: nat :: q < |index| && q !in at ==> TimerWithin(index, lower, upper, q))
    && (all ==> forall q :: q in at && TimerWithin(index, lower, upper, q) ==>
          limit > 0 && exists before: seq<nat> :: |before| == limit && AllBefore(index, lower, upper, before, q))
  }

  lemma DeletionStays(index: seq<Item>, lower: string, upper: string, limit: int, all: bool, gone: seq<Item>) returns (at: seq<nat>)
    requires forall x :: x in gone ==> x in Query(index, lower, upper, limit)
    requires all ==> gone == Query(index, lower, upper, limit)
    ensures Stays(index, lower, upper, limit, all, at, Without(index, gone))
  {
    at := WithoutExactly(index, gone);
    forall q: nat | q < |index| && q !in at ensures TimerWithin(index, lower, upper, q) {
      FoundIsWithin(index, lower, upper, limit, q);
    }
    if all {
      forall q | q in at && TimerWithin(index, lower, upper, q)
        ensures limit > 0 && exists before: seq<nat> :: |before| == limit && AllBefore(index, lower, upper, before, q)
      {
        MissedComesLater(index, lower, upper, limit, q);
      }
    }
  }

  lemma {:induction false} WithoutTwice(index: seq<Item>, a: seq<Item>, b: seq<Item>)
    ensures Without(Without(index, a), b) == Without(index, a + b)
  {
    if index != [] {
      WithoutTwice(index[1..], a, b);
      var rest := Without(index[1..], a);
      if index[0] in a {
        assert Without(index, a) == rest;
      } else {
        assert Without(index, a) == [index[0]] + rest;
        assert ([index[0]] + rest)[0] == index[0] && ([index[0]] + rest)[1..] == rest;
      }
    }
  }

  lemma {:induction false} WithoutNothing(index: seq<Item>)
    ensures Without(index, []) == index
  {
    if index != [] {
      WithoutNothing(index[1..]);
    }
  }

  const BATCH_SIZE: nat := 25

  class DynamoDBTimerStore {
    var index: seq<Item>

    constructor (items: seq<Item>)
      ensures index == items
    {
      index := items;
    }

    /** BatchWriteItem over some of the queried items. */
    method BatchDelete(items: seq<Item>)
      modifies this`index
      ensures index == Without(old(index), items)
    {
      index := Without(index, items);
    }

    /** Deletes the items in chunks until goodBatches batch writes have succeeded and one more is needed. */
    method DeleteInBatches(items: seq<Item>, goodBatches: nat) returns (out: Outcome, deletedCount: nat)
      modifies this`index
      ensures out.Done? <==> |items| <= goodBatches * 25
      ensures out.Done? ==> index == Without(old(index), items) && deletedCount == |items|
      ensures out.Failed? ==> index == Without(old(index), items[..goodBatches * 25])
    {
      WithoutNothing(index);
      var batches := 0;
      deletedCount := 0;
      while deletedCount < |items|
        invariant deletedCount <= |items| && batches <= goodBatches
        invariant deletedCount == batches * BATCH_SIZE
                  || (deletedCount == |items| && deletedCount < batches * BATCH_SIZE)
        invariant index == Without(old(index), items[..deletedCount])
        decreases |items| - deletedCount
      {
        if batches == goodBatches {
          return Failed(Generic), 0;
        }
        var end := deletedCount + BATCH_SIZE;
        if end > |items| {
          end := |items|;
        }
        WithoutTwice(old(index), items[..deletedCount], items[deletedCount..end]);
        assert items[..deletedCount] + items[deletedCount..end] == items[..end];
        BatchDelete(items[deletedCount..end]);
        deletedCount := end;
        batches := batches + 1;
      }
      assert items[..|items|] == items;
      out := Done;
    }

    /**
      Queries once and deletes what it found in chunks. goodBatches is how many batch writes succeed: when a
      later one would be needed, the chunks before it are gone and an error is returned.
     */
    method RangeDeleteWithLimit(lower: string, upper: string, limit: int, goodBatches: nat)
      returns (out: Outcome, deletedCount: nat)
      modifies this`index
      ensures var found := Query(old(index), lower, upper, limit);
              && (out.Done? <==> |found| <= goodBatches * 25)
              && (out.Done? ==> index == Without(old(index), found) && deletedCount == |found|)
              && (out.Failed? ==> index == Without(old(index), found[..goodBatches * 25]))
      ensures exists at :: Stays(old(index), lower, upper, limit, out.Done?, at, index)
    {
      var items := Query(index, lower, upper, limit);
      out, deletedCount := DeleteInBatches(items, goodBatches);
      ghost var gone := if out.Done? then items else items[..goodBatches * 25];
      assert forall x :: x in gone ==> x in items;
      ghost var at := DeletionStays(old(index), lower, upper, limit, out.Done?, gone);
    }
  }

  ghost predicate IndexSorted(index: seq<Item>) {
    forall i, j :: 0 <= i < j < |index| ==> !StrLess(index[j].indexKey, index[i].indexKey)
  }

  /** The shard record sits at the very key every range delete starts from, so it leads the range. */
  lemma {:induction false} ShardRecordLeads(index: seq<Item>, lower: string, upper: string, shard: Item)
    requires IndexSorted(index) && shard in index && shard.indexKey == lower && !StrLess(upper, lower)
    requires forall i :: i in index && i != shard ==> i.indexKey != lower
    ensures Between(index, lower, upper) != [] && Between(index, lower, upper)[0] == shard
  {
    StrLessIrreflexive(lower);
    if index[0] != shard {
      var j :| 0 <= j < |index| && index[j] == shard;
      assert !StrLess(index[j].indexKey, index[0].indexKey);
      StrLessTotal(index[0].indexKey, lower);
      ShardRecordLeads(index[1..], lower, upper, shard);
    }
  }

  lemma {:induction false} StrLessTotal(a: string, b: string)
    ensures StrLess(a, b) || StrLess(b, a) || a == b
  {
    if a != "" && b != "" && a[0] == b[0] {
      StrLessTotal(a[1..], b[1..]);
      assert a == [a[0]] + a[1..] && b == [b[0]] + b[1..];
    }
  }

  /**
    A limited delete from the start of the table spends one place on the shard record: it takes one timer less
    than its limit allows, and with a limit of 1 it never deletes anything.
   */
  lemma DeleteLosesOnePlace(index: seq<Item>, lower: string, upper: string, limit: int, shard: Item)
    requires IndexSorted(index) && shard in index && !shard.isTimer
    requires shard.indexKey == lower && !StrLess(upper, lower)
    requires forall i :: i in index && i != shard ==> i.isTimer && i.indexKey != lower
    requires forall i, j :: 0 <= i < j < |index| ==> index[i] != index[j]
    requires limit > 0
    ensures Query(index, lower, upper, limit) == Take(Timers(Between(index, lower, upper)), limit - 1)
    ensures Timers(Between(index, lower, upper)) != [] ==>
              (Query(index, lower, upper, limit) != [] <==> limit >= 2)
  {
    var range := Between(index, lower, upper);
    ShardRecordLeads(index, lower, upper, shard);
    BetweenDistinct(index, lower, upper);
    BetweenIn(index, lower, upper);
    assert forall i :: 0 <= i < |range| ==> range[i] in range;
    OneLeader(range, shard, limit);
  }

  lemma TakeTail(range: seq<Item>, limit: int)
    requires range != [] && limit > 0
    ensures Take(range, limit) != [] && Take(range, limit)[0] == range[0]
    ensures Take(range, limit)[1..] == Take(range[1..], limit - 1)
  {
  }

  /** A range whose first item alone is no timer. */
  lemma OneLeader(range: seq<Item>, shard: Item, limit: int)
    requires range != [] && range[0] == shard && !shard.isTimer && limit > 0
    requires forall i :: 0 < i < |range| ==> range[i].isTimer
    ensures Timers(range) == range[1..]
    ensures Timers(Take(range, limit)) == Take(range[1..], limit - 1)
  {
    var rest := range[1..];
    AllTimers(rest);
    AllTimers(Take(rest, limit - 1));
    TakeTail(range, limit);
  }

  lemma {:induction false} BetweenIn(index: seq<Item>, lower: string, upper: string)
    ensures forall i :: i in Between(index, lower, upper) ==> i in index
  {
    if index != [] {
      BetweenIn(index[1..], lower, upper);
    }
  }

  lemma {:induction false} AllTimers(s: seq<Item>)
    requires forall i :: 0 <= i < |s| ==> s[i].isTimer
    ensures Timers(s) == s
  {
    if s != [] {
      AllTimers(s[1..]);
    }
  }

  lemma {:induction false} BetweenDistinct(index: seq<Item>, lower: string, upper: string)
    requires forall i, j :: 0 <= i < j < |index| ==> index[i] != index[j]
    ensures forall i, j :: 0 <= i < j < |Between(index, lower, upper)| ==>
              Between(index, lower, upper)[i] != Between(index, lower, upper)[j]
  {
    if index != [] {
      BetweenDistinct(index[1..], lower, upper);
      BetweenIn(index[1..], lower, upper);
      var rest := Between(index[1..], lower, upper);
      assert forall j :: 0 <= j < |rest| ==> rest[j] in index[1..];
    }
  }
}
