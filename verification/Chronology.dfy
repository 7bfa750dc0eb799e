/** Time as one count of milliseconds, made from the lengths of the months: what the order of the sort keys means. */
module Chronology {
  import opened TimerModel
  import opened TimerKey

  /** Days of a year before the first of a month; of the whole year for month 13. */
  function DaysBeforeMonth(month: int, year: int): int
    requires month >= 1
    decreases month, year
  {
    if month == 1 then 0 else DaysBeforeMonth(month - 1, year) + DaysIn(month - 1, year)
  }

  /** Days from January 1 of year 0. */
  function DaysBeforeYear(year: nat): int {
    if year == 0 then 0 else DaysBeforeYear(year - 1) + DaysBeforeMonth(13, year - 1)
  }

  function DayNumber(year: int, month: int, day: int): int
    requires year >= 0 && month >= 1
  {
    DaysBeforeYear(year) + DaysBeforeMonth(month, year) + day - 1
  }

  /** Whole milliseconds from the start of year 0. */
  function MillisSince(t: Civil): int
    requires Valid(t)
  {
    (((DayNumber(t.year, t.month, t.day) * 24 + t.hour) * 60 + t.minute) * 60 + t.second) * 1000 + t.nanos / 1_000_000
  }

  predicate IsLeap(year: int) {
    year % 4 == 0 && (year % 100 != 0 || year % 400 == 0)
  }

  /** The months have their usual lengths: the closed form of the days before each. */
  lemma {:induction false} MonthsAreGregorian(month: int, year: int)
    requires 1 <= month <= 13
    ensures DaysBeforeMonth(month, year)
            == (367 * month - 362) / 12 - if month <= 2 then 0 else if IsLeap(year) then 1 else 2
    decreases month
  {
    if month > 1 {
      MonthsAreGregorian(month - 1, year);
    }
  }

  /** A year has 366 days every fourth year, but not every hundredth, though again every four hundredth. */
  lemma YearLength(year: int)
    ensures DaysBeforeMonth(13, year) == 365 + if IsLeap(year) then 1 else 0
  {
    MonthsAreGregorian(13, year);
  }

  // ---------- order ----------

  lemma {:induction false} MonthsAscend(m: int, n: int, year: int)
    requires 1 <= m < n
    ensures DaysBeforeMonth(m, year) + DaysIn(m, year) <= DaysBeforeMonth(n, year)
    decreases n
  {
    if m < n - 1 {
      MonthsAscend(m, n - 1, year);
    }
  }

  lemma {:induction false} DaysNotNegative(month: int, year: int)
    requires month >= 1
    ensures DaysBeforeMonth(month, year) >= 0
    decreases month
  {
    if month > 1 {
      DaysNotNegative(month - 1, year);
    }
  }

  lemma {:induction false} YearsAscend(x: nat, y: nat)
    requires x < y
    ensures DaysBeforeYear(x) + DaysBeforeMonth(13, x) <= DaysBeforeYear(y)
    decreases y
  {
    if x < y - 1 {
      YearsAscend(x, y - 1);
      DaysNotNegative(13, y - 1);
    }
  }

  lemma DayInYear(year: nat, month: int, day: int)
    requires 1 <= month <= 12 && 1 <= day <= DaysIn(month, year)
    ensures 0 <= DaysBeforeMonth(month, year) + day - 1 < DaysBeforeMonth(13, year)
  {
    if month < 13 {
      MonthsAscend(month, 13, year);
    }
    MonthsAreGregorian(month, year);
  }

  predicate DateLess(s: Civil, t: Civil) {
    s.year < t.year || (s.year == t.year && (s.month < t.month || (s.month == t.month && s.day < t.day)))
  }

  lemma EarlierDay(s: Civil, t: Civil)
    requires Valid(s) && Valid(t) && DateLess(s, t)
    ensures DayNumber(s.year, s.month, s.day) < DayNumber(t.year, t.month, t.day)
  {
    DayInYear(s.year, s.month, s.day);
    DayInYear(t.year, t.month, t.day);
    if s.year < t.year {
      YearsAscend(s.year, t.year);
    } else if s.month < t.month {
      MonthsAscend(s.month, t.month, s.year);
    }
  }

  /** A digit of a mixed radix below the digits before it. */
  lemma LowerDigit(high: int, low: int, high': int, low': int, radix: int)
    requires 0 <= low < radix && 0 <= low' < radix && radix in {24, 60, 1000}
    ensures high * radix + low < high' * radix + low' <==> high < high' || (high == high' && low < low')
    ensures high * radix + low == high' * radix + low' <==> high == high' && low == low'
  {
  }

  lemma FieldsInOrder(s: Civil, t: Civil)
    requires Valid(s) && Valid(t)
    ensures LexLess(Fields(s), Fields(t))
            <==> DateLess(s, t)
                 || (s.year == t.year && s.month == t.month && s.day == t.day
                     && (s.hour < t.hour || (s.hour == t.hour
                         && (s.minute < t.minute || (s.minute == t.minute
                             && (s.second < t.second || (s.second == t.second
                                 && s.nanos / 1_000_000 < t.nanos / 1_000_000)))))))
  {
    var a, b := Fields(s), Fields(t);
    assert a[1..][0] == s.month && b[1..][0] == t.month;
    assert a[1..][1..] == a[2..] && b[1..][1..] == b[2..];
    assert a[2..][1..] == a[3..] && b[2..][1..] == b[3..];
    assert a[3..][1..] == a[4..] && b[3..][1..] == b[4..];
    assert a[4..][1..] == a[5..] && b[4..][1..] == b[5..];
    assert a[5..][1..] == a[6..] && b[5..][1..] == b[6..];
    assert a[6..][1..] == [] && b[6..][1..] == [];
    assert !LexLess([], []);
    assert LexLess(a[6..], b[6..]) <==> a[6] < b[6];
    assert LexLess(a[5..], b[5..]) <==> a[5] < b[5] || (a[5] == b[5] && LexLess(a[6..], b[6..]));
    assert LexLess(a[4..], b[4..]) <==> a[4] < b[4] || (a[4] == b[4] && LexLess(a[5..], b[5..]));
    assert LexLess(a[3..], b[3..]) <==> a[3] < b[3] || (a[3] == b[3] && LexLess(a[4..], b[4..]));
    assert LexLess(a[2..], b[2..]) <==> a[2] < b[2] || (a[2] == b[2] && LexLess(a[3..], b[3..]));
    assert LexLess(a[1..], b[1..]) <==> a[1] < b[1] || (a[1] == b[1] && LexLess(a[2..], b[2..]));
  }

  /** The fields of two times compare as their counts of milliseconds. */
  lemma FieldsAreTime(s: Civil, t: Civil)
    requires Valid(s) && Valid(t)
    ensures LexLess(Fields(s), Fields(t)) <==> MillisSince(s) < MillisSince(t)
    ensures Fields(s) == Fields(t) <==> MillisSince(s) == MillisSince(t)
  {
    FieldsInOrder(s, t);
    if DateLess(s, t) {
      EarlierDay(s, t);
    } else if DateLess(t, s) {
      EarlierDay(t, s);
    }
    var d, e := DayNumber(s.year, s.month, s.day), DayNumber(t.year, t.month, t.day);
    LowerDigit(d, s.hour, e, t.hour, 24);
    var h, h' := d * 24 + s.hour, e * 24 + t.hour;
    LowerDigit(h, s.minute, h', t.minute, 60);
    var m, m' := h * 60 + s.minute, h' * 60 + t.minute;
    LowerDigit(m, s.second, m', t.second, 60);
    LowerDigit(m * 60 + s.second, s.nanos / 1_000_000, m' * 60 + t.second, t.nanos / 1_000_000, 1000);
    FieldsEqual(s, t);
  }

  lemma FieldsEqual(s: Civil, t: Civil)
    requires Valid(s) && Valid(t)
    ensures Fields(s) == Fields(t) <==>
            !DateLess(s, t) && !DateLess(t, s) && s.hour == t.hour && s.minute == t.minute && s.second == t.second
            && s.nanos / 1_000_000 == t.nanos / 1_000_000
  {
    var a, b := Fields(s), Fields(t);
    assert a == b <==> forall i :: 0 <= i < 7 ==> a[i] == b[i];
  }

  /** Keys sort by time in milliseconds, and within a millisecond by the bytes of the uuid. */
  lemma KeysSortByTime(s: Civil, u: seq<Byte>, t: Civil, v: seq<Byte>)
    requires Valid(s) && Valid(t) && |u| == 16 && |v| == 16
    ensures StrLess(FormatExecuteAtWithUuid(s, UuidText(u)), FormatExecuteAtWithUuid(t, UuidText(v)))
            <==> MillisSince(s) < MillisSince(t) || (MillisSince(s) == MillisSince(t) && LexLess(u, v))
    ensures FormatExecuteAtWithUuid(s, UuidText(u)) == FormatExecuteAtWithUuid(t, UuidText(v))
            <==> MillisSince(s) == MillisSince(t) && u == v
  {
    KeyOrder(s, u, t, v);
    LexLessSplit(Fields(s), Fields(t), u, v);
    FieldsAreTime(s, t);
  }
}
