/** Ordered reads of a timer table: the rows of a range, sorted, cut to a limit. */
module SortedTable {
  import opened TimerModel

  ghost predicate StrictlySorted(s: seq<Offset>) {
    forall i, j :: 0 <= i < j < |s| ==> Less(s[i], s[j])
  }

  ghost predicate Sorted(s: seq<Offset>) {
    forall i, j :: 0 <= i < j < |s| ==> Leq(s[i], s[j])
  }

  lemma {:induction false} LeastExists(s: set<Offset>)
    requires s != {}
    ensures exists m :: m in s && forall k :: k in s ==> Leq(m, k)
  {
    var x :| x in s;
    if s == {x} {
      assert forall k :: k in s ==> Leq(x, k);
    } else {
      LeastExists(s - {x});
      var l :| l in s - {x} && forall k :: k in s - {x} ==> Leq(l, k);
      var m := if Less(l, x) then l else x;
      assert m in s && forall k :: k in s ==> k == x || k in s - {x};
      assert forall k :: k in s ==> Leq(m, k);
    }
  }

  function Least(s: set<Offset>): (m: Offset)
    requires s != {}
    ensures m in s && forall k :: k in s ==> Leq(m, k)
  {
    LeastExists(s);
    var m :| m in s && forall k :: k in s ==> Leq(m, k);
    m
  }

  /** A strictly sorted sequence is determined by its elements. */
  lemma {:induction false} SortedUnique(a: seq<Offset>, b: seq<Offset>)
    requires StrictlySorted(a) && StrictlySorted(b)
    requires forall k :: k in a <==> k in b
    ensures a == b
  {
    assert forall i :: 0 <= i < |a| ==> a[i] in b;
    assert forall i :: 0 <= i < |b| ==> b[i] in a;
    if a != [] && b != [] {
      assert a[0] == b[0];
      forall k ensures k in a[1..] <==> k in b[1..] {
        if k in a[1..] {
          assert k in b && k != b[0];
        }
        if k in b[1..] {
          assert k in a && k != a[0];
        }
      }
      SortedUnique(a[1..], b[1..]);
      assert a == [a[0]] + a[1..] && b == [b[0]] + b[1..];
    }
  }

  ghost predicate Enumerates(r: seq<Offset>, s: set<Offset>) {
    StrictlySorted(r) && |r| == |s| && forall k :: k in r <==> k in s
  }

  lemma LeastFirst(m: Offset, rest: seq<Offset>, s: set<Offset>)
    requires m in s && forall k :: k in s ==> Leq(m, k)
    requires Enumerates(rest, s - {m})
    ensures Enumerates([m] + rest, s)
  {
    var r := [m] + rest;
    assert forall i :: 0 <= i < |rest| ==> rest[i] in rest;
    forall i, j | 0 <= i < j < |r| ensures Less(r[i], r[j]) {
      assert r[j] == rest[j - 1] && r[j] in rest;
      assert i > 0 ==> r[i] == rest[i - 1];
    }
  }

  lemma {:induction false} OrderExists(s: set<Offset>)
    ensures exists r :: Enumerates(r, s)
  {
    if s == {} {
      assert Enumerates([], s);
    } else {
      var m := Least(s);
      OrderExists(s - {m});
      var r :| Enumerates(r, s - {m});
      LeastFirst(m, r, s);
    }
  }

  /** The rows of a set in ascending order. */
  ghost function InOrder(s: set<Offset>): (r: seq<Offset>)
    ensures Enumerates(r, s)
  {
    OrderExists(s);
    var r :| Enumerates(r, s);
    r
  }

  function InRange(rows: set<Offset>, lo: Offset, hi: Offset): set<Offset> {
    set k | k in rows && Leq(lo, k) && Leq(k, hi)
  }

  function Take<T>(s: seq<T>, n: nat): seq<T> {
    if n <= |s| then s[..n] else s
  }

  /** RangeGetTimers of every store: both bounds inclusive, ordered by (execute_at, uuid), at most limit rows. */
  ghost function RangeGet(rows: set<Offset>, lo: Offset, hi: Offset, limit: nat): seq<Offset> {
    Take(InOrder(InRange(rows, lo, hi)), limit)
  }

  /** A page is the sorted start of its range: a row of the range that is missing lies after a full page. */
  ghost predicate IsPage(rows: set<Offset>, lo: Offset, hi: Offset, limit: nat, page: seq<Offset>) {
    && StrictlySorted(page)
    && |page| <= limit
    && (forall k :: k in page ==> k in rows && Leq(lo, k) && Leq(k, hi))
    && (forall k :: k in rows && Leq(lo, k) && Leq(k, hi) && k !in page ==>
          |page| == limit && forall p :: p in page ==> Less(p, k))
  }

  lemma RangeGetIsPage(rows: set<Offset>, lo: Offset, hi: Offset, limit: nat)
    ensures IsPage(rows, lo, hi, limit, RangeGet(rows, lo, hi, limit))
  {
    var all := InOrder(InRange(rows, lo, hi));
    var page := RangeGet(rows, lo, hi, limit);
    assert forall k :: k in page ==> k in all;
    assert forall j {:trigger all[j]} :: 0 <= j < |page| ==> all[j] in page by {
      assert forall j :: 0 <= j < |page| ==> page[j] == all[j];
    }
    forall k | k in rows && Leq(lo, k) && Leq(k, hi) && k !in page
      ensures |page| == limit && forall p :: p in page ==> Less(p, k)
    {
      assert k in all;
      var i :| 0 <= i < |all| && all[i] == k;
    }
  }

  lemma LeastLeads(m: Offset, rest: set<Offset>)
    requires m in rest && forall k :: k in rest ==> Leq(m, k)
    ensures InOrder(rest) == [m] + InOrder(rest - {m})
  {
    LeastFirst(m, InOrder(rest - {m}), rest);
    SortedUnique([m] + InOrder(rest - {m}), InOrder(rest));
  }

  /** A page is complete when it is full or nothing remains. */
  lemma PageIsComplete(all: seq<Offset>, page: seq<Offset>, remaining: set<Offset>, limit: nat)
    requires all == page + InOrder(remaining) && |page| <= limit
    requires |page| == limit || remaining == {}
    ensures page == Take(all, limit)
  {
  }

  /** Answers a range query by picking the least remaining row until the page is full. */
  method QueryRange(rows: set<Offset>, lo: Offset, hi: Offset, limit: nat) returns (page: seq<Offset>)
    ensures page == RangeGet(rows, lo, hi, limit)
  {
    page := [];
    var remaining := InRange(rows, lo, hi);
    ghost var all := InOrder(remaining);
    while |page| < limit && remaining != {}
      invariant |page| <= limit
      invariant all == page + InOrder(remaining)
      decreases remaining
    {
      var m := Least(remaining);
      LeastLeads(m, remaining);
      page := page + [m];
      remaining := remaining - {m};
    }
    PageIsComplete(all, page, remaining, limit);
  }
}
