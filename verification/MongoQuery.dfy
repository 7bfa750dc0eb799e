/** The MongoDB store's range queries: the filter documents it builds, what they select, and the page they return. */
module MongoQuery {
  import opened TimerModel
  import opened SortedTable

  datatype Field = TimerExecuteAt | TimerUuid

  datatype Operator = Eq | Gt | Lt | Gte | Lte

  /** A filter document over the two position fields. */
  datatype Condition =
    | Compare(field: Field, op: Operator, value: int)
    | All(parts: seq<Condition>)
    | Any(parts: seq<Condition>)

  function FieldOf(k: Offset, f: Field): int {
    match f
    case TimerExecuteAt => k.time
    case TimerUuid => k.uuid
  }

  predicate Holds(op: Operator, a: int, b: int) {
    match op
    case Eq => a == b
    case Gt => a > b
    case Lt => a < b
    case Gte => a >= b
    case Lte => a <= b
  }

  predicate Matches(c: Condition, k: Offset) {
    match c
    case Compare(f, op, v) => Holds(op, FieldOf(k, f), v)
    case All(parts) => forall i :: 0 <= i < |parts| ==> Matches(parts[i], k)
    case Any(parts) => exists i :: 0 <= i < |parts| && Matches(parts[i], k)
  }

  /** buildRangeCondition: the tuple comparison spelled out field by field. It panics on other operators. */
  function BuildRangeCondition(op: Operator, o: Offset): Condition
    requires op == Gte || op == Lte
  {
    var strict := if op == Gte then Gt else Lt;
    Any([Compare(TimerExecuteAt, strict, o.time),
         All([Compare(TimerExecuteAt, Eq, o.time), Compare(TimerUuid, op, o.uuid)])])
  }

  function RangeFilter(lo: Offset, hi: Offset): Condition {
    All([BuildRangeCondition(Gte, lo), BuildRangeCondition(Lte, hi)])
  }

  lemma ConditionIsTupleOrder(o: Offset, k: Offset)
    ensures Matches(BuildRangeCondition(Gte, o), k) <==> Leq(o, k)
    ensures Matches(BuildRangeCondition(Lte, o), k) <==> Leq(k, o)
  {
    var gte, lte := BuildRangeCondition(Gte, o), BuildRangeCondition(Lte, o);
    assert Matches(gte.parts[0], k) <==> k.time > o.time;
    assert Matches(lte.parts[0], k) <==> k.time < o.time;
    var ge, le := gte.parts[1], lte.parts[1];
    assert Matches(ge.parts[0], k) <==> k.time == o.time;
    assert Matches(le.parts[0], k) <==> k.time == o.time;
    assert Matches(ge.parts[1], k) <==> k.uuid >= o.uuid;
    assert Matches(le.parts[1], k) <==> k.uuid <= o.uuid;
    assert Matches(ge, k) <==> k.time == o.time && k.uuid >= o.uuid;
    assert Matches(le, k) <==> k.time == o.time && k.uuid <= o.uuid;
  }

  /** The two conditions together select exactly the positions between the bounds, both included. */
  lemma FilterIsRange(lo: Offset, hi: Offset, k: Offset)
    ensures Matches(RangeFilter(lo, hi), k) <==> Leq(lo, k) && Leq(k, hi)
  {
    ConditionIsTupleOrder(lo, k);
    ConditionIsTupleOrder(hi, k);
    var f := RangeFilter(lo, hi);
    assert Matches(f.parts[0], k) <==> Leq(lo, k);
    assert Matches(f.parts[1], k) <==> Leq(k, hi);
  }

  /** A find's limit: zero means none, and a negative one counts like a positive one. */
  function FindLimit(s: seq<Offset>, limit: int): seq<Offset> {
    if limit == 0 then s else Take(s, if limit < 0 then -limit else limit)
  }

  /** Where a bound falls in a sorted sequence: how many elements come before it. */
  function IndexOf(s: seq<Offset>, o: Offset, inclusive: bool, i: nat): (n: nat)
    requires i <= |s|
    ensures i <= n <= |s|
    ensures forall j :: i <= j < n ==> Less(s[j], o) || (inclusive && s[j] == o)
    ensures n < |s| ==> !Less(s[n], o) && !(inclusive && s[n] == o)
    decreases |s| - i
  {
    if i < |s| && (Less(s[i], o) || (inclusive && s[i] == o)) then IndexOf(s, o, inclusive, i + 1) else i
  }

  /** The range between two bounds is a contiguous slice of the sorted table. */
  lemma RangeIsSlice(rows: set<Offset>, lo: Offset, hi: Offset) returns (a: nat, b: nat)
    ensures a <= b <= |InOrder(rows)|
    ensures InOrder(InRange(rows, lo, hi)) == InOrder(rows)[a..b]
    ensures forall i :: 0 <= i < a ==> Less(InOrder(rows)[i], lo)
    ensures forall i :: b <= i < |InOrder(rows)| ==> Less(hi, InOrder(rows)[i])
  {
    var all := InOrder(rows);
    a, b := IndexOf(all, lo, false, 0), IndexOf(all, hi, true, 0);
    if b < a {
      assert Less(all[b], lo) && Less(hi, all[b]);
      b := a;
    }
    forall i | b <= i < |all| ensures Less(hi, all[i]) {
      var n := IndexOf(all, hi, true, 0);
      assert n <= i && Leq(all[n], all[i]);
    }
    SliceIsRange(rows, all, lo, hi, a, b);
    SortedUnique(InOrder(InRange(rows, lo, hi)), all[a..b]);
  }

  lemma SliceIsRange(rows: set<Offset>, all: seq<Offset>, lo: Offset, hi: Offset, a: nat, b: nat)
    requires Enumerates(all, rows) && a <= b <= |all|
    requires forall i :: 0 <= i < a ==> Less(all[i], lo)
    requires forall i :: b <= i < |all| ==> Less(hi, all[i])
    requires a == b || (!Less(all[a], lo) && Leq(all[b - 1], hi))
    ensures StrictlySorted(all[a..b])
    ensures forall k :: k in all[a..b] <==> k in InRange(rows, lo, hi)
  {
    var slice := all[a..b];
    forall k | k in slice ensures k in InRange(rows, lo, hi) {
      var j :| 0 <= j < |slice| && slice[j] == k;
      assert all[a + j] == k && k in all;
      assert Leq(all[a], all[a + j]) && Leq(all[a + j], all[b - 1]);
    }
    forall k | k in InRange(rows, lo, hi) ensures k in slice {
      assert k in all;
      var i :| 0 <= i < |all| && all[i] == k;
      assert slice[i - a] == k;
    }
  }

  lemma FindLimitIsPage(rows: set<Offset>, lo: Offset, hi: Offset, limit: int)
    ensures var page := FindLimit(InOrder(InRange(rows, lo, hi)), limit);
            && (limit == 0 ==>
                  StrictlySorted(page) && forall k :: k in page <==> k in rows && Leq(lo, k) && Leq(k, hi))
            && (limit != 0 ==> IsPage(rows, lo, hi, if limit < 0 then -limit else limit, page))
  {
    RangeGetIsPage(rows, lo, hi, if limit < 0 then -limit else limit);
  }

  /** The cursor's loop over the sorted documents. */
  method ReadSorted(found: set<Offset>, limit: int) returns (page: seq<Offset>)
    ensures page == FindLimit(InOrder(found), limit)
  {
    ghost var all := InOrder(found);
    page := [];
    var rest := found;
    while rest != {} && (limit == 0 || |page| < if limit < 0 then -limit else limit)
      invariant limit != 0 ==> |page| <= if limit < 0 then -limit else limit
      invariant all == page + InOrder(rest)
      decreases rest
    {
      var m := Least(rest);
      LeastLeads(m, rest);
      page := page + [m];
      rest := rest - {m};
    }
  }

  /** Filters the collection, sorts and cuts. */
  method RangeGetTimers(rows: set<Offset>, lo: Offset, hi: Offset, limit: int) returns (page: seq<Offset>)
    ensures page == FindLimit(InOrder(InRange(rows, lo, hi)), limit)
    ensures limit == 0 ==>
              StrictlySorted(page) && forall k :: k in page <==> k in rows && Leq(lo, k) && Leq(k, hi)
    ensures limit != 0 ==> IsPage(rows, lo, hi, if limit < 0 then -limit else limit, page)
  {
    var filter := RangeFilter(lo, hi);
    var found := set k | k in rows && Matches(filter, k);
    assert found == InRange(rows, lo, hi) by {
      forall k ensures k in found <==> k in InRange(rows, lo, hi) {
        FilterIsRange(lo, hi, k);
      }
    }
    page := ReadSorted(found, limit);
    FindLimitIsPage(rows, lo, hi, limit);
  }

  /** The page is the start of the slice of the sorted table between the bounds, all of it if the limit allows. */
  lemma PageIsStartOfSlice(rows: set<Offset>, lo: Offset, hi: Offset, limit: int) returns (a: nat, b: nat, end: nat)
    ensures a <= end <= b <= |InOrder(rows)|
    ensures FindLimit(InOrder(InRange(rows, lo, hi)), limit) == InOrder(rows)[a..end]
    ensures forall i :: 0 <= i < a ==> Less(InOrder(rows)[i], lo)
    ensures forall i :: a <= i < b ==> Leq(lo, InOrder(rows)[i]) && Leq(InOrder(rows)[i], hi)
    ensures forall i :: b <= i < |InOrder(rows)| ==> Less(hi, InOrder(rows)[i])
    ensures end == b || end - a == limit || end - a == -limit
    ensures limit != 0 ==> end - a <= if limit < 0 then -limit else limit
  {
    var all := InOrder(rows);
    a, b := RangeIsSlice(rows, lo, hi);
    var slice := all[a..b];
    forall i | a <= i < b ensures Leq(lo, all[i]) && Leq(all[i], hi) {
      assert slice[i - a] == all[i] && all[i] in slice;
    }
    var most := if limit < 0 then -limit else limit;
    end := if limit == 0 || b - a <= most then b else a + most;
    StartOfSlice(all, a, b, end);
  }

  lemma StartOfSlice<T>(s: seq<T>, a: nat, b: nat, end: nat)
    requires a <= end <= b <= |s|
    ensures s[a..b][..end - a] == s[a..end]
  {
  }
}
