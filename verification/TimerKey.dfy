/**
  The composite sort key of the DynamoDB store: a fixed-width UTC timestamp with milliseconds, '#', and the
  canonical text of the timer's uuid. Times are given by their UTC calendar fields.
 */
module TimerKey {
  import opened TimerModel

  datatype Civil = Civil(year: int, month: int, day: int, hour: int, minute: int, second: int, nanos: int)

  function DaysIn(month: int, year: int): int {
    if month == 2 then (if year % 4 == 0 && (year % 100 != 0 || year % 400 == 0) then 29 else 28)
    else if month in {4, 6, 9, 11} then 30 else 31
  }

  /** A UTC time with a year of at most four digits. */
  predicate Valid(t: Civil) {
    && 0 <= t.year <= 9999 && 1 <= t.month <= 12 && 1 <= t.day <= DaysIn(t.month, t.year)
    && 0 <= t.hour < 24 && 0 <= t.minute < 60 && 0 <= t.second < 60 && 0 <= t.nanos < 1_000_000_000
  }

  function TruncateToMillis(t: Civil): Civil {
    t.(nanos := t.nanos - t.nanos % 1_000_000)
  }

  /** The fields that count, most significant first; their lexicographic order is the order of time in milliseconds. */
  function Fields(t: Civil): seq<int> {
    [t.year, t.month, t.day, t.hour, t.minute, t.second, t.nanos / 1_000_000]
  }

  type Byte = b: int | 0 <= b < 256

  // ---------- orders ----------

  predicate LexLess(a: seq<int>, b: seq<int>) {
    b != [] && (a == [] || a[0] < b[0] || (a[0] == b[0] && LexLess(a[1..], b[1..])))
  }

  /** The order of string keys in the index. */
  predicate StrLess(a: string, b: string) {
    b != "" && (a == "" || a[0] < b[0] || (a[0] == b[0] && StrLess(a[1..], b[1..])))
  }

  lemma {:induction false} StrLessSplit(a: string, b: string, x: string, y: string)
    requires |a| == |b|
    ensures StrLess(a + x, b + y) <==> StrLess(a, b) || (a == b && StrLess(x, y))
  {
    if a == "" {
      assert a + x == x && b + y == y;
    } else {
      StrLessSplit(a[1..], b[1..], x, y);
      assert (a + x)[1..] == a[1..] + x && (b + y)[1..] == b[1..] + y;
      assert a == b <==> a[0] == b[0] && a[1..] == b[1..] by {
        assert a == [a[0]] + a[1..] && b == [b[0]] + b[1..];
      }
    }
  }

  lemma {:induction false} StrLessIrreflexive(s: string)
    ensures !StrLess(s, s)
  {
    if s != "" {
      StrLessIrreflexive(s[1..]);
    }
  }

  /** Equally long fields, a separator, and the rest. */
  lemma FieldOrder(a: string, b: string, separator: string, x: string, y: string)
    requires |a| == |b|
    ensures StrLess(a + separator + x, b + separator + y) <==> StrLess(a, b) || (a == b && StrLess(x, y))
    ensures a + separator + x == b + separator + y <==> a == b && x == y
  {
    var p, q := separator + x, separator + y;
    assert a + separator + x == a + p && b + separator + y == b + q;
    StrLessSplit(a, b, p, q);
    StrLessSplit(separator, separator, x, y);
    StrLessIrreflexive(separator);
    assert (a + p)[..|a|] == a && (b + q)[..|a|] == b;
    assert (a + p)[|a| + |separator|..] == x && (b + q)[|a| + |separator|..] == y;
  }

  lemma {:induction false} LexLessSplit(a: seq<int>, b: seq<int>, x: seq<int>, y: seq<int>)
    requires |a| == |b|
    ensures LexLess(a + x, b + y) <==> LexLess(a, b) || (a == b && LexLess(x, y))
  {
    if a == [] {
      assert a + x == x && b + y == y;
    } else {
      LexLessSplit(a[1..], b[1..], x, y);
      assert (a + x)[1..] == a[1..] + x && (b + y)[1..] == b[1..] + y;
      assert a == b <==> a[0] == b[0] && a[1..] == b[1..] by {
        assert a == [a[0]] + a[1..] && b == [b[0]] + b[1..];
      }
    }
  }

  // ---------- digits ----------

  datatype Base = Decimal | Hex

  function Radix(base: Base): int {
    if base == Decimal then 10 else 16
  }

  function Digit(d: int): (c: char)
    requires 0 <= d < 16
  {
    if d < 10 then ('0' as int + d) as char else ('a' as int + d - 10) as char
  }

  /** The value of a lower-case digit, -1 for any other character. */
  function DigitValue(base: Base, c: char): (d: int)
    ensures d < Radix(base)
  {
    if '0' <= c <= '9' then c as int - '0' as int
    else if base == Hex && 'a' <= c <= 'f' then c as int - 'a' as int + 10
    else -1
  }

  function Power(base: Base, w: nat): int {
    if w == 0 then 1 else Radix(base) * Power(base, w - 1)
  }

  /** n with exactly w digits. */
  function Pad(base: Base, n: int, w: nat): (s: string)
    requires 0 <= n < Power(base, w)
    ensures |s| == w
  {
    if w == 0 then ""
    else Pad(base, n / Radix(base), w - 1) + [Digit(n % Radix(base))]
  }

  /** Equally wide numbers sort as text the way they sort as numbers. */
  lemma {:induction false} PadOrder(base: Base, n: int, m: int, w: nat)
    requires 0 <= n < Power(base, w) && 0 <= m < Power(base, w)
    ensures StrLess(Pad(base, n, w), Pad(base, m, w)) <==> n < m
    ensures Pad(base, n, w) == Pad(base, m, w) <==> n == m
  {
    if w > 0 {
      var r := Radix(base);
      PadOrder(base, n / r, m / r, w - 1);
      var (p, q) := (Pad(base, n / r, w - 1), Pad(base, m / r, w - 1));
      var (c, d) := (Digit(n % r), Digit(m % r));
      StrLessSplit(p, q, [c], [d]);
      assert p + [c] == q + [d] <==> p == q && c == d by {
        assert (p + [c])[..w - 1] == p && (q + [d])[..w - 1] == q;
        assert (p + [c])[w - 1] == c && (q + [d])[w - 1] == d;
      }
    }
  }

  // ---------- the timestamp ----------

  /** A numeric field of a layout and the literal text after it. */
  datatype Slot = Slot(width: nat, separator: string)

  /** Go's layout 2006-01-02T15:04:05.000Z. */
  const LAYOUT: seq<Slot> := [Slot(4, "-"), Slot(2, "-"), Slot(2, "T"), Slot(2, ":"), Slot(2, ":"), Slot(2, "."), Slot(3, "Z")]

  ghost predicate Fits(values: seq<int>, slots: seq<Slot>) {
    |values| == |slots| && forall i :: 0 <= i < |slots| ==> 0 <= values[i] < Power(Decimal, slots[i].width)
  }

  function Render(values: seq<int>, slots: seq<Slot>): string
    requires Fits(values, slots)
  {
    if slots == [] then ""
    else Pad(Decimal, values[0], slots[0].width) + slots[0].separator + Render(values[1..], slots[1..])
  }

  lemma {:induction false} RenderOrder(v: seq<int>, w: seq<int>, slots: seq<Slot>)
    requires Fits(v, slots) && Fits(w, slots)
    ensures |Render(v, slots)| == |Render(w, slots)|
    ensures StrLess(Render(v, slots), Render(w, slots)) <==> LexLess(v, w)
    ensures Render(v, slots) == Render(w, slots) <==> v == w
  {
    if slots != [] {
      var s := slots[0];
      RenderOrder(v[1..], w[1..], slots[1..]);
      PadOrder(Decimal, v[0], w[0], s.width);
      FieldOrder(Pad(Decimal, v[0], s.width), Pad(Decimal, w[0], s.width), s.separator,
                 Render(v[1..], slots[1..]), Render(w[1..], slots[1..]));
      assert v == [v[0]] + v[1..] && w == [w[0]] + w[1..];
    }
  }

  lemma FieldsFit(t: Civil)
    requires Valid(t)
    ensures Fits(Fields(t), LAYOUT)
  {
    assert Power(Decimal, 2) == 100 && Power(Decimal, 3) == 1000 && Power(Decimal, 4) == 10000;
  }

  function FormatTime(t: Civil): string
    requires Valid(t)
  {
    FieldsFit(t);
    Render(Fields(t), LAYOUT)
  }

  // ---------- the uuid ----------

  function HexText(bytes: seq<Byte>): (s: string)
    ensures |s| == 2 * |bytes|
  {
    if bytes == [] then ""
    else
      assert Power(Hex, 2) == 256;
      Pad(Hex, bytes[0], 2) + HexText(bytes[1..])
  }

  /** uuid.String: groups of 4, 2, 2, 2 and 6 bytes. */
  function UuidText(u: seq<Byte>): (s: string)
    requires |u| == 16
    ensures |s| == 36
  {
    HexText(u[..4]) + "-" + (HexText(u[4..6]) + "-" + (HexText(u[6..8]) + "-" + (HexText(u[8..10]) + "-" + HexText(u[10..]))))
  }

  lemma {:induction false} HexOrder(a: seq<Byte>, b: seq<Byte>)
    requires |a| == |b|
    ensures StrLess(HexText(a), HexText(b)) <==> LexLess(a, b)
    ensures HexText(a) == HexText(b) <==> a == b
  {
    if a != [] {
      assert Power(Hex, 2) == 256;
      HexOrder(a[1..], b[1..]);
      PadOrder(Hex, a[0], b[0], 2);
      var x, y := Pad(Hex, a[0], 2), Pad(Hex, b[0], 2);
      StrLessSplit(x, y, HexText(a[1..]), HexText(b[1..]));
      assert HexText(a)[..2] == x && HexText(b)[..2] == y;
      assert HexText(a)[2..] == HexText(a[1..]) && HexText(b)[2..] == HexText(b[1..]);
      assert a == [a[0]] + a[1..] && b == [b[0]] + b[1..];
    }
  }

  /** One group, a separator, and the rest. */
  lemma GroupOrder(p: string, q: string, a: seq<int>, b: seq<int>, separator: string,
                   x: string, y: string, c: seq<int>, d: seq<int>)
    requires |p| == |q| && |a| == |b|
    requires (StrLess(p, q) <==> LexLess(a, b)) && (p == q <==> a == b)
    requires (StrLess(x, y) <==> LexLess(c, d)) && (x == y <==> c == d)
    ensures StrLess(p + separator + x, q + separator + y) <==> LexLess(a + c, b + d)
    ensures p + separator + x == q + separator + y <==> a + c == b + d
  {
    FieldOrder(p, q, separator, x, y);
    LexLessSplit(a, b, c, d);
    assert (a + c)[..|a|] == a && (b + d)[..|a|] == b && (a + c)[|a|..] == c && (b + d)[|a|..] == d;
  }

  lemma HexGroupOrder(u: seq<Byte>, v: seq<Byte>, lo: nat, hi: nat, x: string, y: string)
    requires |u| == |v| && lo <= hi <= |u|
    requires (StrLess(x, y) <==> LexLess(u[hi..], v[hi..])) && (x == y <==> u[hi..] == v[hi..])
    ensures StrLess(HexText(u[lo..hi]) + "-" + x, HexText(v[lo..hi]) + "-" + y) <==> LexLess(u[lo..], v[lo..])
    ensures HexText(u[lo..hi]) + "-" + x == HexText(v[lo..hi]) + "-" + y <==> u[lo..] == v[lo..]
  {
    HexOrder(u[lo..hi], v[lo..hi]);
    var p, q := HexText(u[lo..hi]), HexText(v[lo..hi]);
    GroupOrder(p, q, u[lo..hi], v[lo..hi], "-", x, y, u[hi..], v[hi..]);
    assert u[lo..] == u[lo..hi] + u[hi..] && v[lo..] == v[lo..hi] + v[hi..];
  }

  /** Canonical uuid texts sort as the bytes do. */
  lemma UuidOrder(u: seq<Byte>, v: seq<Byte>)
    requires |u| == 16 && |v| == 16
    ensures StrLess(UuidText(u), UuidText(v)) <==> LexLess(u, v)
    ensures UuidText(u) == UuidText(v) <==> u == v
  {
    var x4, y4 := HexText(u[10..]), HexText(v[10..]);
    HexOrder(u[10..], v[10..]);
    HexGroupOrder(u, v, 8, 10, x4, y4);
    var x3, y3 := HexText(u[8..10]) + "-" + x4, HexText(v[8..10]) + "-" + y4;
    HexGroupOrder(u, v, 6, 8, x3, y3);
    var x2, y2 := HexText(u[6..8]) + "-" + x3, HexText(v[6..8]) + "-" + y3;
    HexGroupOrder(u, v, 4, 6, x2, y2);
    HexGroupOrder(u, v, 0, 4, HexText(u[4..6]) + "-" + x2, HexText(v[4..6]) + "-" + y2);
    assert u[0..] == u && v[0..] == v && u[..4] == u[0..4] && v[..4] == v[0..4];
  }

  // ---------- the composite key ----------

  function FormatExecuteAtWithUuid(t: Civil, uuid: string): string
    requires Valid(t)
  {
    FormatTime(t) + "#" + uuid
  }

  /** String order of keys is the order of (time in milliseconds, uuid bytes). */
  lemma KeyOrder(s: Civil, u: seq<Byte>, t: Civil, v: seq<Byte>)
    requires Valid(s) && Valid(t) && |u| == 16 && |v| == 16
    ensures StrLess(FormatExecuteAtWithUuid(s, UuidText(u)), FormatExecuteAtWithUuid(t, UuidText(v)))
            <==> LexLess(Fields(s) + u, Fields(t) + v)
    ensures FormatExecuteAtWithUuid(s, UuidText(u)) == FormatExecuteAtWithUuid(t, UuidText(v))
            <==> Fields(s) == Fields(t) && u == v
  {
    FieldsFit(s);
    FieldsFit(t);
    RenderOrder(Fields(s), Fields(t), LAYOUT);
    UuidOrder(u, v);
    GroupOrder(FormatTime(s), FormatTime(t), Fields(s), Fields(t), "#", UuidText(u), UuidText(v), u, v);
    assert Fields(s) + u == Fields(t) + v <==> Fields(s) == Fields(t) && u == v by {
      assert (Fields(s) + u)[..7] == Fields(s) && (Fields(t) + v)[..7] == Fields(t);
      assert (Fields(s) + u)[7..] == u && (Fields(t) + v)[7..] == v;
    }
  }

  // ---------- parsing ----------

  /** The number a text of digits denotes, -1 if some character is no digit. */
  function ReadNumber(base: Base, s: string): (n: int)
    ensures n >= -1
  {
    if s == "" then 0
    else
      var high := ReadNumber(base, s[..|s| - 1]);
      var d := DigitValue(base, s[|s| - 1]);
      if high < 0 || d < 0 then -1 else Radix(base) * high + d
  }

  lemma {:induction false} ReadPad(base: Base, n: int, w: nat)
    requires 0 <= n < Power(base, w)
    ensures ReadNumber(base, Pad(base, n, w)) == n
  {
    if w > 0 {
      HighDigits(base, n, Power(base, w - 1));
      ReadPad(base, n / Radix(base), w - 1);
      ReadOneMore(base, Pad(base, n / Radix(base), w - 1), n % Radix(base));
    }
  }

  lemma HighDigits(base: Base, n: int, bound: int)
    requires 0 <= n < Radix(base) * bound
    ensures 0 <= n / Radix(base) < bound && 0 <= n % Radix(base) < Radix(base)
    ensures Radix(base) * (n / Radix(base)) + n % Radix(base) == n
  {
    if base == Decimal {
      assert n / 10 < bound;
    } else {
      assert n / 16 < bound;
    }
  }

  lemma ReadOneMore(base: Base, high: string, d: int)
    requires ReadNumber(base, high) >= 0 && 0 <= d < Radix(base)
    ensures ReadNumber(base, high + [Digit(d)]) == Radix(base) * ReadNumber(base, high) + d
  {
    assert (high + [Digit(d)])[..|high|] == high;
  }

  lemma DigitStep(base: Base, high: int, d: int, bound: int)
    requires 0 <= high < bound && 0 <= d < Radix(base)
    ensures 0 <= Radix(base) * high + d < Radix(base) * bound
    ensures (Radix(base) * high + d) / Radix(base) == high && (Radix(base) * high + d) % Radix(base) == d
  {
    if base == Decimal {
      assert 10 * high + d < 10 * bound;
    } else {
      assert 16 * high + d < 16 * bound;
    }
  }

  lemma {:induction false} PadRead(base: Base, s: string)
    requires ReadNumber(base, s) >= 0
    ensures ReadNumber(base, s) < Power(base, |s|)
    ensures Pad(base, ReadNumber(base, s), |s|) == s
  {
    if s != "" {
      var init, c := s[..|s| - 1], s[|s| - 1];
      PadRead(base, init);
      var high, d := ReadNumber(base, init), DigitValue(base, c);
      DigitStep(base, high, d, Power(base, |init|));
      assert Digit(d) == c;
      assert s == init + [c];
    }
  }

  /** Reads a text by a layout, all of it. */
  function ReadSlots(s: string, slots: seq<Slot>): Option<seq<int>>
    decreases |slots|
  {
    if slots == [] then (if s == "" then Some([]) else None)
    else
      var w, e := slots[0].width, slots[0].width + |slots[0].separator|;
      if |s| < e || s[w..e] != slots[0].separator || ReadNumber(Decimal, s[..w]) < 0 then None
      else
        match ReadSlots(s[e..], slots[1..])
        case None => None
        case Some(rest) => Some([ReadNumber(Decimal, s[..w])] + rest)
  }

  lemma {:induction false} ReadRender(v: seq<int>, slots: seq<Slot>)
    requires Fits(v, slots)
    ensures ReadSlots(Render(v, slots), slots) == Some(v)
  {
    if slots != [] {
      ReadRender(v[1..], slots[1..]);
      var field, sep, rest := Pad(Decimal, v[0], slots[0].width), slots[0].separator, Render(v[1..], slots[1..]);
      ReadPad(Decimal, v[0], slots[0].width);
      var s := field + sep + rest;
      assert s[..|field|] == field && s[|field|..|field| + |sep|] == sep && s[|field| + |sep|..] == rest;
      assert v == [v[0]] + v[1..];
    }
  }

  lemma {:induction false} RenderRead(s: string, slots: seq<Slot>)
    requires ReadSlots(s, slots).Some?
    ensures Fits(ReadSlots(s, slots).value, slots)
    ensures Render(ReadSlots(s, slots).value, slots) == s
  {
    if slots != [] {
      var w, e := slots[0].width, slots[0].width + |slots[0].separator|;
      RenderRead(s[e..], slots[1..]);
      PadRead(Decimal, s[..w]);
      assert s == s[..w] + s[w..e] + s[e..];
      var v := ReadSlots(s, slots).value;
      assert v[1..] == ReadSlots(s[e..], slots[1..]).value;
    }
  }

  function CivilOf(v: seq<int>): Option<Civil> {
    if |v| != 7 then None
    else
      var t := Civil(v[0], v[1], v[2], v[3], v[4], v[5], v[6] * 1_000_000);
      if Valid(t) then Some(t) else None
  }

  lemma FieldsOfCivil(v: seq<int>)
    requires CivilOf(v).Some?
    ensures Valid(CivilOf(v).value) && Fields(CivilOf(v).value) == v
  {
    assert |v| == 7;
  }

  function ReadTime(s: string, layout: seq<Slot>): Option<Civil> {
    match ReadSlots(s, layout)
    case None => None
    case Some(v) => CivilOf(v)
  }

  /**
    Go's parser is more lenient than its layout: it takes a one-digit hour, a comma before the milliseconds,
    and a sign for their first digit, a minus before zeros only. This is the text they are taken for.
   */
  function Normalized(s: string): string {
    var padded := if |s| == 23 && s[12] == ':' then s[..11] + "0" + s[11..] else s;
    if |padded| != 24 then padded
    else
      var point := if padded[19] == ',' then '.' else padded[19];
      var first := if padded[20] == '+' || (padded[20] == '-' && padded[21..23] == "00") then '0' else padded[20];
      padded[..19] + [point, first] + padded[21..]
  }

  /** No hour to pad, no comma, no sign. */
  predicate Canonical(s: string) {
    |s| == 24 && s[19] == '.' && s[20] != '+' && s[20] != '-'
  }

  /** time.Parse with the layout of the key. */
  function ParseTime(s: string): Option<Civil> {
    ReadTime(Normalized(s), LAYOUT)
  }

  function OffsetOf(slots: seq<Slot>, k: nat): nat
    requires k <= |slots|
  {
    if k == 0 then 0 else slots[0].width + |slots[0].separator| + OffsetOf(slots[1..], k - 1)
  }

  /** The field and the literal of a slot stand at this place of a text. */
  predicate StandsAt(s: string, o: nat, slot: Slot) {
    var w, e := o + slot.width, o + slot.width + |slot.separator|;
    e <= |s| && ReadNumber(Decimal, s[o..w]) >= 0 && s[w..e] == slot.separator
  }

  lemma StandsLater(s: string, e: nat, o: nat, slot: Slot)
    requires e <= |s| && StandsAt(s[e..], o, slot)
    ensures StandsAt(s, e + o, slot)
  {
    var rest := s[e..];
    var w, e' := o + slot.width, o + slot.width + |slot.separator|;
    assert rest[o..w] == s[e + o..e + w];
    assert rest[w..e'] == s[e + w..e + e'];
  }

  /** A text that reads by a layout has every field and literal where the layout says, and nothing more. */
  lemma {:induction false} ReadsSlotBySlot(s: string, slots: seq<Slot>, k: nat)
    requires ReadSlots(s, slots).Some? && k <= |slots|
    ensures k < |slots| ==> StandsAt(s, OffsetOf(slots, k), slots[k])
    ensures k == |slots| ==> |s| == OffsetOf(slots, k)
    decreases k
  {
    if k > 0 {
      var e := slots[0].width + |slots[0].separator|;
      ReadsSlotBySlot(s[e..], slots[1..], k - 1);
      if k < |slots| {
        StandsLater(s, e, OffsetOf(slots[1..], k - 1), slots[k]);
      }
    } else if slots != [] {
      assert s[0..slots[0].width] == s[..slots[0].width];
    }
  }

  lemma {:induction false} StartsWithDigit(s: string)
    requires s != "" && ReadNumber(Decimal, s) >= 0
    ensures DigitValue(Decimal, s[0]) >= 0
  {
    if |s| > 1 {
      StartsWithDigit(s[..|s| - 1]);
    }
  }

  lemma LayoutOffsets()
    ensures OffsetOf(LAYOUT, 5) == 17 && OffsetOf(LAYOUT, 6) == 20 && OffsetOf(LAYOUT, 7) == 24
  {
    var l := LAYOUT;
    assert OffsetOf(l[6..], 1) == 4 + OffsetOf(l[7..], 0) == 4;
    assert OffsetOf(l[5..], 0) == 0 && OffsetOf(l[5..], 1) == 3 && OffsetOf(l[5..], 2) == 7;
    assert OffsetOf(l[4..], 1) == 3 && OffsetOf(l[4..], 2) == 6 && OffsetOf(l[4..], 3) == 10;
    assert OffsetOf(l[3..], 2) == 6 && OffsetOf(l[3..], 3) == 9 && OffsetOf(l[3..], 4) == 13;
    assert OffsetOf(l[2..], 3) == 9 && OffsetOf(l[2..], 4) == 12 && OffsetOf(l[2..], 5) == 16;
    assert OffsetOf(l[1..], 4) == 12 && OffsetOf(l[1..], 5) == 15 && OffsetOf(l[1..], 6) == 19;
  }

  lemma ReadsCanonicalBy(s: string, slots: seq<Slot>)
    requires |slots| == 7 && slots[5] == Slot(2, ".") && slots[6] == Slot(3, "Z")
    requires OffsetOf(slots, 5) == 17 && OffsetOf(slots, 6) == 20 && OffsetOf(slots, 7) == 24
    requires ReadSlots(s, slots).Some?
    ensures Canonical(s)
  {
    ReadsSlotBySlot(s, slots, 5);
    ReadsSlotBySlot(s, slots, 6);
    ReadsSlotBySlot(s, slots, 7);
    StartsWithDigit(s[20..23]);
    assert s[19..20][0] == s[19] && s[20..23][0] == s[20];
  }

  /** What reads by the layout is canonical. */
  lemma ReadsCanonical(s: string)
    requires ReadTime(s, LAYOUT).Some?
    ensures Canonical(s)
  {
    LayoutOffsets();
    ReadsCanonicalBy(s, LAYOUT);
  }

  lemma CanonicalStays(s: string)
    requires Canonical(s)
    ensures Normalized(s) == s
  {
  }

  /** The lenient reading leaves a text alone exactly when it is canonical. */
  lemma NormalizedExactly(s: string)
    requires Canonical(Normalized(s))
    ensures Normalized(s) == s <==> Canonical(s)
  {
    if Canonical(s) {
      CanonicalStays(s);
    }
  }

  predicate IsHexChar(c: char) {
    '0' <= c <= '9' || 'a' <= c <= 'f' || 'A' <= c <= 'F'
  }

  /** Hex digits with dashes where uuid.Parse wants them; what follows the 36th character is not looked at. */
  predicate IsGrouped(s: string) {
    && |s| >= 36
    && forall i :: 0 <= i < 36 ==> if i in {8, 13, 18, 23} then s[i] == '-' else IsHexChar(s[i])
  }

  function Lower(c: char): char {
    if 'A' <= c <= 'Z' then (c as int + 32) as char else c
  }

  /** uuid.Parse accepts the canonical form, one with a urn:uuid: prefix, one in any pair of brackets, or bare digits. */
  predicate UuidParses(s: string) {
    if |s| == 36 then IsGrouped(s)
    else if |s| == 45 then (forall i :: 0 <= i < 9 ==> Lower(s[i]) == "urn:uuid:"[i]) && IsGrouped(s[9..])
    else if |s| == 38 then IsGrouped(s[1..])
    else |s| == 32 && forall i :: 0 <= i < 32 ==> IsHexChar(s[i])
  }

  datatype ParseResult = Parsed(executeAt: Civil, uuid: string) | MissingSeparator | BadTimestamp | BadUuid

  function ParseAt(composite: string, hash: int): ParseResult
    requires -1 <= hash < |composite|
  {
    if hash == -1 then MissingSeparator
    else if ParseTime(composite[..hash]).None? then BadTimestamp
    else if !UuidParses(composite[hash + 1..]) then BadUuid
    else Parsed(ParseTime(composite[..hash]).value, composite[hash + 1..])
  }

  ghost predicate IsFirstHash(s: string, hash: int) {
    && -1 <= hash < |s|
    && (hash >= 0 ==> s[hash] == '#' && '#' !in s[..hash])
    && (hash == -1 ==> '#' !in s)
  }

  /** Splits at the first '#', parses the time, and keeps the uuid's text if it is one. */
  method ParseExecuteAtWithUuid(composite: string) returns (result: ParseResult)
    ensures exists hash :: IsFirstHash(composite, hash) && result == ParseAt(composite, hash)
    ensures result.MissingSeparator? <==> '#' !in composite
    ensures forall hash: nat :: hash < |composite| && composite[hash] == '#' && '#' !in composite[..hash] ==>
              var (time, uuid) := (composite[..hash], composite[hash + 1..]);
              && (result.BadTimestamp? <==> ParseTime(time).None?)
              && (result.BadUuid? <==> ParseTime(time).Some? && !UuidParses(uuid))
              && (result.Parsed? ==> result.uuid == uuid && Some(result.executeAt) == ParseTime(time))
  {
    var hashIndex := -1;
    for i := 0 to |composite|
      invariant hashIndex == -1 && '#' !in composite[..i]
    {
      if composite[i] == '#' {
        hashIndex := i;
        break;
      }
      assert composite[..i + 1] == composite[..i] + [composite[i]];
    }
    assert composite[..|composite|] == composite;
    assert IsFirstHash(composite, hashIndex);
    if hashIndex == -1 {
      return MissingSeparator;
    }
    var time, uuid := composite[..hashIndex], composite[hashIndex + 1..];
    var executeAt := ParseTime(time);
    if executeAt.None? {
      return BadTimestamp;
    }
    if !UuidParses(uuid) {
      return BadUuid;
    }
    return Parsed(executeAt.value, uuid);
  }

  lemma {:induction false} HexTextIsHex(bytes: seq<Byte>)
    ensures forall i :: 0 <= i < |HexText(bytes)| ==> IsHexChar(HexText(bytes)[i])
  {
    if bytes != [] {
      HexTextIsHex(bytes[1..]);
      assert Power(Hex, 2) == 256;
      var p := Pad(Hex, bytes[0], 2);
      assert p == Pad(Hex, bytes[0] / 16, 1) + [Digit(bytes[0] % 16)];
      assert Pad(Hex, bytes[0] / 16, 1) == [Digit(bytes[0] / 16 % 16)];
      assert forall i :: 0 <= i < 2 ==> IsHexChar(p[i]);
    }
  }

  lemma UuidTextParses(u: seq<Byte>)
    requires |u| == 16
    ensures UuidParses(UuidText(u))
  {
    HexTextIsHex(u[..4]);
    HexTextIsHex(u[4..6]);
    HexTextIsHex(u[6..8]);
    HexTextIsHex(u[8..10]);
    HexTextIsHex(u[10..]);
  }

  lemma {:induction false} RenderHasNoHash(v: seq<int>, slots: seq<Slot>)
    requires Fits(v, slots)
    requires forall i :: 0 <= i < |slots| ==> '#' !in slots[i].separator
    ensures '#' !in Render(v, slots)
  {
    if slots != [] {
      RenderHasNoHash(v[1..], slots[1..]);
      PadHasNoHash(v[0], slots[0].width);
    }
  }

  lemma {:induction false} PadHasNoHash(n: int, w: nat)
    requires 0 <= n < Power(Decimal, w)
    ensures '#' !in Pad(Decimal, n, w)
  {
    if w > 0 {
      PadHasNoHash(n / 10, w - 1);
    }
  }

  lemma FirstHashAfter(a: string, b: string, hash: int)
    requires '#' !in a && IsFirstHash(a + "#" + b, hash)
    ensures hash == |a|
  {
    var s := a + "#" + b;
    assert s[|a|] == '#' && s[|a|] in s;
    assert s[..|a|] == a;
    var before := s[..hash];
    assert forall j :: 0 <= j < |before| ==> s[j] == before[j] && before[j] in before;
  }

  lemma CivilOfFields(t: Civil)
    requires Valid(t)
    ensures CivilOf(Fields(t)) == Some(TruncateToMillis(t))
  {
  }

  lemma ReadsItsRendering(v: seq<int>, layout: seq<Slot>)
    requires Fits(v, layout)
    requires forall i :: 0 <= i < |layout| ==> '#' !in layout[i].separator
    ensures '#' !in Render(v, layout)
    ensures ReadTime(Render(v, layout), layout) == CivilOf(v)
  {
    RenderHasNoHash(v, layout);
    ReadRender(v, layout);
  }

  lemma ParseJoined(time: string, uuid: string, hash: int)
    requires '#' !in time && ParseTime(time).Some? && UuidParses(uuid)
    requires IsFirstHash(time + "#" + uuid, hash)
    ensures ParseAt(time + "#" + uuid, hash) == Parsed(ParseTime(time).value, uuid)
  {
    var key := time + "#" + uuid;
    FirstHashAfter(time, uuid, hash);
    assert key[..hash] == time && key[hash + 1..] == uuid;
  }

  /** Parsing a formatted key gives the time cut to milliseconds and the uuid text unchanged. */
  lemma ParseUndoesFormat(t: Civil, u: seq<Byte>, hash: int)
    requires Valid(t) && |u| == 16
    requires IsFirstHash(FormatExecuteAtWithUuid(t, UuidText(u)), hash)
    ensures ParseAt(FormatExecuteAtWithUuid(t, UuidText(u)), hash) == Parsed(TruncateToMillis(t), UuidText(u))
  {
    FieldsFit(t);
    var layout := LAYOUT;
    ReadsItsRendering(Fields(t), layout);
    CivilOfFields(t);
    ReadsCanonical(FormatTime(t));
    CanonicalStays(FormatTime(t));
    UuidTextParses(u);
    ParseJoined(FormatTime(t), UuidText(u), hash);
  }

  lemma RenderUndoesRead(s: string, layout: seq<Slot>)
    requires ReadTime(s, layout).Some?
    ensures var t := ReadTime(s, layout).value;
            Valid(t) && Fits(Fields(t), layout) && Render(Fields(t), layout) == s
  {
    RenderRead(s, layout);
    FieldsOfCivil(ReadSlots(s, layout).value);
  }

  lemma FormatJoins(t: Civil, layout: seq<Slot>, time: string, key: string, hash: nat)
    requires hash < |key| && key[hash] == '#' && layout == LAYOUT
    requires Valid(t) && Fits(Fields(t), layout) && Render(Fields(t), layout) == time
    ensures FormatExecuteAtWithUuid(t, key[hash + 1..]) == key <==> time == key[..hash]
  {
    assert key == key[..hash] + "#" + key[hash + 1..];
    var formatted := time + "#" + key[hash + 1..];
    if formatted == key {
      assert |time| == hash;
      assert formatted[..hash] == time;
    }
  }

  lemma ParsedParts(key: string, hash: int, layout: seq<Slot>)
    requires IsFirstHash(key, hash) && ParseAt(key, hash).Parsed? && layout == LAYOUT
    ensures 0 <= hash && ReadTime(Normalized(key[..hash]), layout) == Some(ParseAt(key, hash).executeAt)
    ensures ParseAt(key, hash).uuid == key[hash + 1..]
  {
  }

  /** Formatting what was parsed gives the key back exactly when its timestamp was written canonically. */
  lemma FormatUndoesParse(key: string, hash: int, t: Civil, uuid: string)
    requires IsFirstHash(key, hash) && ParseAt(key, hash) == Parsed(t, uuid)
    ensures hash >= 0 && Valid(t)
    ensures FormatExecuteAtWithUuid(t, uuid) == key <==> Canonical(key[..hash])
  {
    var layout := LAYOUT;
    ParsedParts(key, hash, layout);
    var time := Normalized(key[..hash]);
    RenderUndoesRead(time, layout);
    FormatJoins(t, layout, time, key, hash);
    ReadsCanonical(time);
    NormalizedExactly(key[..hash]);
  }
}
