/** The sort key character by character: where each digit of a timestamp and of a uuid stands. */
module KeyText {
  import opened TimerModel
  import opened TimerKey

  const DIGITS := "0123456789abcdef"

  /** The last decimal digit of a number. */
  function D(n: nat): char {
    DIGITS[n % 10]
  }

  /** The last hexadecimal digit of a number. */
  function H(n: nat): char {
    DIGITS[n % 16]
  }

  lemma DigitIs(d: int)
    requires 0 <= d < 16
    ensures Digit(d) == DIGITS[d]
  {
    assert d == 0 || d == 1 || d == 2 || d == 3 || d == 4 || d == 5 || d == 6 || d == 7
           || d == 8 || d == 9 || d == 10 || d == 11 || d == 12 || d == 13 || d == 14 || d == 15;
  }

  lemma PadStep(n: nat, w: nat)
    requires n < Power(Decimal, w + 1)
    ensures n / 10 < Power(Decimal, w)
    ensures Pad(Decimal, n, w + 1) == Pad(Decimal, n / 10, w) + [D(n)]
  {
    DigitIs(n % 10);
  }

  lemma Powers()
    ensures Power(Decimal, 1) == 10 && Power(Decimal, 2) == 100 && Power(Decimal, 3) == 1000 && Power(Decimal, 4) == 10000
  {
  }

  lemma Two(n: nat)
    requires n < Power(Decimal, 2)
    ensures Pad(Decimal, n, 2) == [D(n / 10), D(n)]
  {
    PadStep(n, 1);
    PadStep(n / 10, 0);
  }

  lemma Three(n: nat)
    requires n < Power(Decimal, 3)
    ensures Pad(Decimal, n, 3) == [D(n / 100), D(n / 10), D(n)]
  {
    PadStep(n, 2);
    Two(n / 10);
    assert n / 10 / 10 == n / 100;
  }

  lemma Four(n: nat)
    requires n < Power(Decimal, 4)
    ensures Pad(Decimal, n, 4) == [D(n / 1000), D(n / 100), D(n / 10), D(n)]
  {
    PadStep(n, 3);
    Three(n / 10);
    assert n / 10 / 100 == n / 1000 && n / 10 / 10 == n / 100;
  }

  lemma RenderSlot(v: seq<int>, slots: seq<Slot>)
    requires Fits(v, slots) && slots != []
    ensures Fits(v[1..], slots[1..])
    ensures Render(v, slots) == Pad(Decimal, v[0], slots[0].width) + slots[0].separator + Render(v[1..], slots[1..])
  {
  }

  /** The first three slots of a layout. */
  lemma RenderThree(v: seq<int>, slots: seq<Slot>)
    requires Fits(v, slots) && |slots| >= 3
    ensures Fits(v[3..], slots[3..])
    ensures forall i :: 0 <= i < 3 ==> 0 <= v[i] < Power(Decimal, slots[i].width)
    ensures Render(v, slots)
            == Pad(Decimal, v[0], slots[0].width) + slots[0].separator
               + (Pad(Decimal, v[1], slots[1].width) + slots[1].separator
                  + (Pad(Decimal, v[2], slots[2].width) + slots[2].separator + Render(v[3..], slots[3..])))
  {
    RenderSlot(v, slots);
    RenderSlot(v[1..], slots[1..]);
    assert v[1..][1..] == v[2..] && slots[1..][1..] == slots[2..];
    RenderSlot(v[2..], slots[2..]);
    assert v[2..][1..] == v[3..] && slots[2..][1..] == slots[3..];
  }

  lemma DateText(v: seq<int>, slots: seq<Slot>)
    requires |slots| >= 3 && Fits(v, slots)
    requires slots[0] == Slot(4, "-") && slots[1] == Slot(2, "-") && slots[2] == Slot(2, "T")
    ensures Fits(v[3..], slots[3..]) && v[0] >= 0 && v[1] >= 0 && v[2] >= 0
    ensures Render(v, slots)
            == [D(v[0] / 1000), D(v[0] / 100), D(v[0] / 10), D(v[0]), '-', D(v[1] / 10), D(v[1]), '-',
                D(v[2] / 10), D(v[2]), 'T'] + Render(v[3..], slots[3..])
  {
    RenderThree(v, slots);
    Four(v[0]);
    Two(v[1]);
    Two(v[2]);
    JoinDate(Pad(Decimal, v[0], 4), Pad(Decimal, v[1], 2), Pad(Decimal, v[2], 2), Render(v[3..], slots[3..]));
  }

  lemma JoinDate(y: string, m: string, d: string, rest: string)
    requires |y| == 4 && |m| == 2 && |d| == 2
    ensures y + "-" + (m + "-" + (d + "T" + rest))
            == [y[0], y[1], y[2], y[3], '-', m[0], m[1], '-', d[0], d[1], 'T'] + rest
  {
  }

  lemma ClockText(v: seq<int>, slots: seq<Slot>)
    requires |slots| == 4 && Fits(v, slots)
    requires slots[0] == Slot(2, ":") && slots[1] == Slot(2, ":") && slots[2] == Slot(2, ".") && slots[3] == Slot(3, "Z")
    ensures v[0] >= 0 && v[1] >= 0 && v[2] >= 0 && v[3] >= 0
    ensures Render(v, slots)
            == [D(v[0] / 10), D(v[0]), ':', D(v[1] / 10), D(v[1]), ':', D(v[2] / 10), D(v[2]), '.',
                D(v[3] / 100), D(v[3] / 10), D(v[3]), 'Z']
  {
    RenderThree(v, slots);
    Two(v[0]);
    Two(v[1]);
    Two(v[2]);
    RenderSlot(v[3..], slots[3..]);
    Three(v[3]);
    assert v[3..][1..] == [] && slots[3..][1..] == [];
  }

  /** A timestamp reads year, month, day, hour, minute, second, millisecond, each in its fixed place. */
  lemma TimestampText(t: Civil)
    requires Valid(t)
    ensures FormatTime(t)
            == [D(t.year / 1000), D(t.year / 100), D(t.year / 10), D(t.year), '-',
                D(t.month / 10), D(t.month), '-', D(t.day / 10), D(t.day), 'T',
                D(t.hour / 10), D(t.hour), ':', D(t.minute / 10), D(t.minute), ':',
                D(t.second / 10), D(t.second), '.',
                D(t.nanos / 100_000_000), D(t.nanos / 10_000_000), D(t.nanos / 1_000_000), 'Z']
  {
    FieldsFit(t);
    var v, slots := Fields(t), LAYOUT;
    DateText(v, slots);
    ClockText(v[3..], slots[3..]);
    Millis(t.nanos);
  }

  lemma Millis(nanos: nat)
    ensures nanos / 1_000_000 / 100 == nanos / 100_000_000 && nanos / 1_000_000 / 10 == nanos / 10_000_000
  {
  }

  // ---------- reading timestamps ----------

  lemma ReadsWholeMillis(s: string, layout: seq<Slot>)
    requires ReadTime(s, layout).Some?
    ensures ReadTime(s, layout).value.nanos % 1_000_000 == 0
  {
    var v := ReadSlots(s, layout).value;
    MillisAreWhole(v);
  }

  lemma MillisAreWhole(v: seq<int>)
    requires CivilOf(v).Some?
    ensures CivilOf(v).value.nanos % 1_000_000 == 0
  {
  }

  lemma ReadsItsText(t: Civil, layout: seq<Slot>)
    requires Valid(t) && t.nanos % 1_000_000 == 0 && Fits(Fields(t), layout)
    requires forall i :: 0 <= i < |layout| ==> '#' !in layout[i].separator
    ensures ReadTime(Render(Fields(t), layout), layout) == Some(t)
  {
    ReadsItsRendering(Fields(t), layout);
    CivilOfFields(t);
    WholeMillisStay(t);
  }

  lemma WholeMillisStay(t: Civil)
    requires t.nanos % 1_000_000 == 0
    ensures TruncateToMillis(t) == t
  {
  }

  lemma ReadTimeExactly(s: string, layout: seq<Slot>, t: Civil)
    requires Valid(t) ==> Fits(Fields(t), layout)
    requires forall i :: 0 <= i < |layout| ==> '#' !in layout[i].separator
    ensures ReadTime(s, layout) == Some(t)
            <==> Valid(t) && t.nanos % 1_000_000 == 0 && Render(Fields(t), layout) == s
  {
    if ReadTime(s, layout) == Some(t) {
      RenderUndoesRead(s, layout);
      ReadsWholeMillis(s, layout);
    } else if Valid(t) && t.nanos % 1_000_000 == 0 {
      ReadsItsText(t, layout);
    }
  }

  lemma ParsesByLayout(s: string, layout: seq<Slot>)
    requires layout == LAYOUT
    ensures ParseTime(s) == ReadTime(Normalized(s), layout)
  {
  }

  lemma FormatsByLayout(t: Civil, layout: seq<Slot>)
    requires Valid(t) && layout == LAYOUT
    ensures Fits(Fields(t), layout) && FormatTime(t) == Render(Fields(t), layout)
  {
    FieldsFit(t);
  }

  lemma LayoutHasNoHash(layout: seq<Slot>)
    requires layout == LAYOUT
    ensures forall i :: 0 <= i < |layout| ==> '#' !in layout[i].separator
  {
  }

  /** A timestamp is read exactly when, leniencies aside, it is the text of a time of whole milliseconds; then as that time. */
  lemma ParseTimeExactly(s: string, t: Civil)
    ensures ParseTime(s) == Some(t) <==> Valid(t) && t.nanos % 1_000_000 == 0 && FormatTime(t) == Normalized(s)
  {
    var layout := LAYOUT;
    ParsesByLayout(s, layout);
    LayoutHasNoHash(layout);
    if Valid(t) {
      FormatsByLayout(t, layout);
    }
    ReadTimeExactly(Normalized(s), layout, t);
  }

  /** The leniencies: with a one-digit hour, a comma, a plus sign, or a minus sign before zeros, a timestamp is read like itself. */
  lemma LenientTimes(t: Civil)
    requires Valid(t)
    ensures |FormatTime(t)| == 24 && Normalized(FormatTime(t)) == FormatTime(t)
    ensures var text := FormatTime(t);
            && Normalized(text[19 := ',']) == text
            && (text[11] == '0' ==> Normalized(text[..11] + text[12..]) == text)
            && (text[20] == '0' ==> Normalized(text[20 := '+']) == text)
            && (text[20] == text[21] == text[22] == '0' ==> Normalized(text[20 := '-']) == text)
  {
    TimestampText(t);
    DigitIs(t.nanos / 100_000_000 % 10);
    CanonicalForms(FormatTime(t));
  }

  lemma CanonicalForms(text: string)
    requires |text| == 24 && text[13] == ':' && text[19] == '.' && text[20] != '+' && text[20] != '-'
    ensures Normalized(text) == text && Normalized(text[19 := ',']) == text
    ensures text[11] == '0' ==> Normalized(text[..11] + text[12..]) == text
    ensures text[20] == '0' ==> Normalized(text[20 := '+']) == text
    ensures text[20] == text[21] == text[22] == '0' ==> Normalized(text[20 := '-']) == text
  {
    OneDigitHour(text);
    Signs(text);
  }

  lemma OneDigitHour(text: string)
    requires Canonical(text) && |text| == 24 && text[13] == ':'
    ensures text[11] == '0' ==> Normalized(text[..11] + text[12..]) == text
  {
    if text[11] == '0' {
      var short := text[..11] + text[12..];
      assert short[12] == ':' && short[..11] + "0" + short[11..] == text;
      CanonicalStays(text);
    }
  }

  lemma Signs(text: string)
    requires Canonical(text)
    ensures text[20] == '0' ==> Normalized(text[20 := '+']) == text
    ensures text[20] == text[21] == text[22] == '0' ==> Normalized(text[20 := '-']) == text
  {
  }

  // ---------- reading uuids ----------

  function Lowered(s: string): (l: string)
    ensures |l| == |s|
    ensures forall i :: 0 <= i < |s| ==> l[i] == Lower(s[i])
  {
    seq(|s|, i requires 0 <= i < |s| => Lower(s[i]))
  }

  function HexValue(c: char): int
    requires IsHexChar(c)
  {
    if '0' <= c <= '9' then c as int - '0' as int else if 'a' <= c <= 'f' then c as int - 'a' as int + 10 else c as int - 'A' as int + 10
  }

  /** Pairs of hexadecimal digits as bytes. */
  function BytesOf(s: string): (b: seq<Byte>)
    requires |s| % 2 == 0 && forall i :: 0 <= i < |s| ==> IsHexChar(s[i])
    ensures |b| == |s| / 2
  {
    if s == "" then [] else [16 * HexValue(s[0]) + HexValue(s[1])] + BytesOf(s[2..])
  }

  lemma HexPair(b: Byte)
    ensures b < Power(Hex, 2) && Pad(Hex, b, 2) == [H(b / 16), H(b)]
  {
    assert Power(Hex, 2) == 256 && Power(Hex, 1) == 16;
    assert Pad(Hex, b, 2) == Pad(Hex, b / 16, 1) + [Digit(b % 16)];
    assert Pad(Hex, b / 16, 1) == [Digit(b / 16 % 16)];
    DigitIs(b % 16);
    DigitIs(b / 16 % 16);
  }

  lemma LowerDigitIs(c: char)
    requires IsHexChar(c)
    ensures 0 <= HexValue(c) < 16 && Lower(c) == H(HexValue(c))
  {
    DigitIs(HexValue(c));
  }

  lemma HexTextStep(bytes: seq<Byte>)
    requires bytes != []
    ensures HexText(bytes) == [H(bytes[0] / 16), H(bytes[0])] + HexText(bytes[1..])
  {
    HexPair(bytes[0]);
  }

  lemma PairIs(high: nat, low: nat)
    requires high < 16 && low < 16
    ensures H((16 * high + low) / 16) == H(high) && H(16 * high + low) == H(low)
  {
    var n := 16 * high + low;
    assert n / 16 == high;
    assert n % 16 == low;
  }

  lemma PairText(c: char, d: char, b: Byte)
    requires IsHexChar(c) && IsHexChar(d) && b == 16 * HexValue(c) + HexValue(d)
    ensures H(b / 16) == Lower(c) && H(b) == Lower(d)
  {
    LowerDigitIs(c);
    LowerDigitIs(d);
    PairIs(HexValue(c), HexValue(d));
  }

  lemma FirstPair(bytes: seq<Byte>, c: char, d: char)
    requires bytes != [] && IsHexChar(c) && IsHexChar(d) && bytes[0] == 16 * HexValue(c) + HexValue(d)
    ensures HexText(bytes) == [Lower(c), Lower(d)] + HexText(bytes[1..])
  {
    HexTextStep(bytes);
    PairText(c, d, bytes[0]);
  }

  lemma {:induction false} BytesReadBack(s: string)
    requires |s| % 2 == 0 && forall i :: 0 <= i < |s| ==> IsHexChar(s[i])
    ensures HexText(BytesOf(s)) == Lowered(s)
  {
    if s == "" {
      assert Lowered(s) == "";
    } else {
      BytesReadBack(s[2..]);
      FirstPair(BytesOf(s), s[0], s[1]);
      assert BytesOf(s)[1..] == BytesOf(s[2..]);
      assert Lowered(s) == [Lower(s[0]), Lower(s[1])] + Lowered(s[2..]);
    }
  }

  /** Each byte of a uuid gives two lower-case digits. */
  lemma {:induction false} HexTextAt(bytes: seq<Byte>, i: nat)
    requires i < |bytes|
    ensures HexText(bytes)[2 * i] == H(bytes[i] / 16) && HexText(bytes)[2 * i + 1] == H(bytes[i])
  {
    HexPair(bytes[0]);
    if i > 0 {
      HexTextAt(bytes[1..], i - 1);
      assert HexText(bytes)[2..] == HexText(bytes[1..]);
    }
  }

  /** Hyphens before bytes 4, 6, 8 and 10. */
  function HyphensBefore(i: nat): nat {
    if i < 4 then 0 else if i < 6 then 1 else if i < 8 then 2 else if i < 10 then 3 else 4
  }

  lemma UuidGroups(u: seq<Byte>)
    requires |u| == 16
    ensures var t := UuidText(u);
            && t[..8] == HexText(u[..4]) && t[9..13] == HexText(u[4..6]) && t[14..18] == HexText(u[6..8])
            && t[19..23] == HexText(u[8..10]) && t[24..] == HexText(u[10..])
            && t[8] == t[13] == t[18] == t[23] == '-'
  {
  }

  lemma ByteIn(t: string, from: nat, to: nat, bytes: seq<Byte>, i: nat)
    requires from <= to <= |t| && t[from..to] == HexText(bytes) && i < |bytes|
    ensures to == from + 2 * |bytes|
    ensures t[from + 2 * i] == H(bytes[i] / 16) && t[from + 2 * i + 1] == H(bytes[i])
  {
    HexTextAt(bytes, i);
    assert t[from..to][2 * i] == t[from + 2 * i] && t[from..to][2 * i + 1] == t[from + 2 * i + 1];
  }

  /** The text of a uuid: its bytes in order as pairs of digits, with four hyphens at their places. */
  lemma UuidTextAt(u: seq<Byte>, i: nat)
    requires |u| == 16 && i < 16
    ensures var p := 2 * i + HyphensBefore(i);
            UuidText(u)[p] == H(u[i] / 16) && UuidText(u)[p + 1] == H(u[i])
    ensures UuidText(u)[8] == UuidText(u)[13] == UuidText(u)[18] == UuidText(u)[23] == '-'
  {
    UuidGroups(u);
    var t := UuidText(u);
    if i < 4 {
      ByteIn(t, 0, 8, u[..4], i);
    } else if i < 6 {
      ByteIn(t, 9, 13, u[4..6], i - 4);
    } else if i < 8 {
      ByteIn(t, 14, 18, u[6..8], i - 6);
    } else if i < 10 {
      ByteIn(t, 19, 23, u[8..10], i - 8);
    } else {
      ByteIn(t, 24, 36, u[10..], i - 10);
    }
  }

  lemma GroupedText(s: string)
    requires |s| == 36 && IsGrouped(s)
    ensures exists u: seq<Byte> :: |u| == 16 && Lowered(s) == UuidText(u)
  {
    var (a, b, c, d, e) := (BytesOf(s[..8]), BytesOf(s[9..13]), BytesOf(s[14..18]), BytesOf(s[19..23]), BytesOf(s[24..]));
    BytesReadBack(s[..8]);
    BytesReadBack(s[9..13]);
    BytesReadBack(s[14..18]);
    BytesReadBack(s[19..23]);
    BytesReadBack(s[24..]);
    LoweredGroups(s);
    var u := Joined(a, b, c, d, e);
    GroupsOf(u, a, b, c, d, e);
  }

  function Joined(a: seq<Byte>, b: seq<Byte>, c: seq<Byte>, d: seq<Byte>, e: seq<Byte>): (u: seq<Byte>)
    requires |a| == 4 && |b| == |c| == |d| == 2 && |e| == 6
    ensures |u| == 16 && u[..4] == a && u[4..6] == b && u[6..8] == c && u[8..10] == d && u[10..] == e
  {
    a + b + c + d + e
  }

  lemma LoweredGroups(s: string)
    requires |s| == 36 && IsGrouped(s)
    ensures Lowered(s)
            == Lowered(s[..8]) + "-" + (Lowered(s[9..13]) + "-" + (Lowered(s[14..18]) + "-"
                 + (Lowered(s[19..23]) + "-" + Lowered(s[24..]))))
  {
  }

  lemma GroupsOf(u: seq<Byte>, a: seq<Byte>, b: seq<Byte>, c: seq<Byte>, d: seq<Byte>, e: seq<Byte>)
    requires |u| == 16 && u[..4] == a && u[4..6] == b && u[6..8] == c && u[8..10] == d && u[10..] == e
    ensures UuidText(u)
            == HexText(a) + "-" + (HexText(b) + "-" + (HexText(c) + "-" + (HexText(d) + "-" + HexText(e))))
  {
  }

  lemma TextIsGrouped(s: string, u: seq<Byte>)
    requires |s| >= 36 && |u| == 16 && Lowered(s[..36]) == UuidText(u)
    ensures IsGrouped(s)
  {
    UuidTextParses(u);
    forall i | 0 <= i < 36 ensures if i in {8, 13, 18, 23} then s[i] == '-' else IsHexChar(s[i]) {
      assert UuidText(u)[i] == Lower(s[..36][i]);
    }
  }

  /** The text of a uuid in any case, possibly as a urn, within any two characters, or without hyphens. */
  ghost predicate IsTextOf(s: string, u: seq<Byte>)
    requires |u| == 16
  {
    || Lowered(s) == UuidText(u)
    || Lowered(s) == "urn:uuid:" + UuidText(u)
    || (|s| == 38 && Lowered(s[1..37]) == UuidText(u))
    || Lowered(s) == HexText(u)
  }

  lemma TextParses(s: string, u: seq<Byte>)
    requires |u| == 16 && IsTextOf(s, u)
    ensures UuidParses(s)
  {
    if Lowered(s) == UuidText(u) {
      assert s[..36] == s;
      TextIsGrouped(s, u);
    } else if Lowered(s) == "urn:uuid:" + UuidText(u) {
      assert Lowered(s[9..][..36]) == Lowered(s)[9..];
      TextIsGrouped(s[9..], u);
      assert forall i :: 0 <= i < 9 ==> Lowered(s)[i] == "urn:uuid:"[i];
    } else if |s| == 38 && Lowered(s[1..37]) == UuidText(u) {
      assert s[1..][..36] == s[1..37];
      TextIsGrouped(s[1..], u);
    } else {
      HexTextIsHex(u);
      assert forall i :: 0 <= i < 32 ==> HexText(u)[i] == Lower(s[i]);
    }
  }

  lemma ParsesIsText(s: string)
    requires UuidParses(s)
    ensures exists u: seq<Byte> :: |u| == 16 && IsTextOf(s, u)
  {
    if |s| == 36 {
      GroupedText(s);
    } else if |s| == 45 {
      UrnText(s);
    } else if |s| == 38 {
      assert IsGrouped(s[1..37]);
      GroupedText(s[1..37]);
      var u: seq<Byte> :| |u| == 16 && Lowered(s[1..37]) == UuidText(u);
      assert IsTextOf(s, u);
    } else {
      BytesReadBack(s);
      assert IsTextOf(s, BytesOf(s));
    }
  }

  lemma UrnText(s: string)
    requires |s| == 45 && UuidParses(s)
    ensures exists u: seq<Byte> :: |u| == 16 && IsTextOf(s, u)
  {
    var rest := s[9..];
    GroupedText(rest);
    var u: seq<Byte> :| |u| == 16 && Lowered(rest) == UuidText(u);
    assert Lowered(s) == "urn:uuid:" + Lowered(rest);
    assert IsTextOf(s, u);
  }

  /** A text is taken for a uuid exactly when it is the text of one. */
  lemma UuidParsesExactly(s: string)
    ensures UuidParses(s) <==> exists u: seq<Byte> :: |u| == 16 && IsTextOf(s, u)
  {
    if UuidParses(s) {
      ParsesIsText(s);
    }
    if u: seq<Byte> :| |u| == 16 && IsTextOf(s, u) {
      TextParses(s, u);
    }
  }
}
