/**
 * A date/time value as PHP's `DateTimeInterface` presents it to the format
 * routine (broken-down calendar fields of the local time plus the UTC
 * offset), its W3C rendering (`DateTimeInterface::W3C`, the pattern
 * `Y-m-d\TH:i:sP`), and the reading of such a rendering back.
 */
module DateTimes {
  import opened Wrappers
  import opened Decimal

  /**
   * Local calendar date and wall-clock time down to the microsecond (the
   * `u` field; a record's creation time has one), and the offset of the
   * local time from UTC in seconds (east positive), as `getOffset()`
   * reports it.
   */
  datatype DateTime = DateTime(
    year: int, month: nat, day: nat,
    hour: nat, minute: nat, second: nat, microsecond: nat,
    offset: int)

  predicate IsLeapYear(y: int) {
    y % 4 == 0 && (y % 100 != 0 || y % 400 == 0)
  }

  /** Days in a month of the proleptic Gregorian calendar. */
  function DaysInMonth(y: int, m: nat): (n: nat)
    requires 1 <= m <= 12
    ensures 28 <= n <= 31
  {
    if m == 2 then (if IsLeapYear(y) then 29 else 28)
    else if m == 4 || m == 6 || m == 9 || m == 11 then 30
    else 31
  }

  /** The fields denote a real calendar day and time of day. */
  predicate Valid(d: DateTime) {
    && 1 <= d.month <= 12
    && 1 <= d.day <= DaysInMonth(d.year, d.month)
    && d.hour < 24 && d.minute < 60 && d.second < 60
    && d.microsecond < 1000000
  }

  /** Seconds in one hour of UTC offset. */
  const HourSeconds := 3600

  /** An offset of whole minutes whose hours fit in two digits. */
  predicate RenderableOffset(offset: int) {
    offset % 60 == 0 && -100 * HourSeconds < offset < 100 * HourSeconds
  }

  /**
   * The dates whose W3C text has the fixed 25-character form: a year of
   * four digits and an offset of whole minutes below 100 hours.
   */
  predicate Renderable(d: DateTime) {
    Valid(d) && 0 <= d.year < 10000 && RenderableOffset(d.offset)
  }

  // ---------------------------------------------------------------------
  // Rendering

  /** The `Y` field: at least four digits, a minus sign before years before year 0. */
  function YearText(y: int): (s: string)
    ensures 0 <= y < 10000 ==> |s| == 4 && AllDigits(s) && ValueOf(s) == y
  {
    if y < 0 then "-" + PadLeft(-y, 4) else PadLeft(y, 4)
  }

  /** The `Y-m-d` part of the rendering. */
  function DateText(d: DateTime): (s: string)
    ensures |s| >= 10
  {
    YearText(d.year) + "-" + PadLeft(d.month, 2) + "-" + PadLeft(d.day, 2)
  }

  /** The `H:i:s` part of the rendering. */
  function TimeText(d: DateTime): (s: string)
    ensures |s| >= 8
  {
    PadLeft(d.hour, 2) + ":" + PadLeft(d.minute, 2) + ":" + PadLeft(d.second, 2)
  }

  /** The `P` field: sign, hours and minutes of the offset; leftover seconds are dropped. */
  function OffsetText(offset: int): (s: string)
    ensures |s| >= 6 && (s[0] == '-' <==> offset < 0)
  {
    var a := if offset < 0 then -offset else offset;
    [if offset < 0 then '-' else '+'] + PadLeft(a / HourSeconds, 2) + ":"
      + PadLeft((a % HourSeconds) / 60, 2)
  }

  /** The W3C rendering `Y-m-d\TH:i:sP`, e.g. "2024-01-15T10:30:00+00:00". */
  function W3C(d: DateTime): (s: string)
    ensures |s| >= 25
  {
    DateText(d) + "T" + TimeText(d) + OffsetText(d.offset)
  }

  // ---------------------------------------------------------------------
  // Layout of the 25-character form

  predicate DateShaped(a: string) {
    |a| == 10 && AllDigits(a[0..4]) && a[4] == '-' && AllDigits(a[5..7])
      && a[7] == '-' && AllDigits(a[8..10])
  }

  predicate TimeShaped(t: string) {
    |t| == 8 && AllDigits(t[0..2]) && t[2] == ':' && AllDigits(t[3..5])
      && t[5] == ':' && AllDigits(t[6..8])
  }

  predicate OffsetShaped(o: string) {
    |o| == 6 && (o[0] == '+' || o[0] == '-') && AllDigits(o[1..3])
      && o[3] == ':' && AllDigits(o[4..6])
  }

  /** The character layout of a 25-character W3C date-time with numeric offset. */
  predicate W3CShaped(s: string) {
    |s| == 25 && DateShaped(s[..10]) && s[10] == 'T'
      && TimeShaped(s[11..19]) && OffsetShaped(s[19..])
  }

  // ---------------------------------------------------------------------
  // Reading back

  function ReadDate(a: string): (r: (int, nat, nat))
    requires DateShaped(a)
  {
    (ValueOf(a[0..4]), ValueOf(a[5..7]), ValueOf(a[8..10]))
  }

  function ReadTime(t: string): (r: (nat, nat, nat))
    requires TimeShaped(t)
  {
    (ValueOf(t[0..2]), ValueOf(t[3..5]), ValueOf(t[6..8]))
  }

  /** The offset in seconds, or None for minutes above 59 and for "-00:00". */
  function ReadOffset(o: string): (r: Option<int>)
    requires OffsetShaped(o)
    ensures r.Some? ==> RenderableOffset(r.value)
  {
    var magnitude := ValueOf(o[1..3]) * HourSeconds + ValueOf(o[4..6]) * 60;
    if ValueOf(o[4..6]) >= 60 || (o[0] == '-' && magnitude == 0) then None
    else Some(if o[0] == '-' then -magnitude else magnitude)
  }

  /**
   * Reads a W3C date-time back. Only the texts that `W3C` produces for
   * renderable dates are accepted; in particular "-00:00" (which RFC 3339
   * reserves for an unknown local offset) is refused.
   */
  function ParseW3C(s: string): (r: Option<DateTime>)
    ensures r.Some? ==> W3CShaped(s) && Renderable(r.value)
  {
    if !W3CShaped(s) then None
    else
      var (y, m, dd) := ReadDate(s[..10]);
      var (hh, mi, ss) := ReadTime(s[11..19]);
      match ReadOffset(s[19..])
      case None => None
      case Some(offset) =>
        var d := DateTime(y, m, dd, hh, mi, ss, 0, offset);
        if Valid(d) then Some(d) else None
  }

  // ---------------------------------------------------------------------
  // Lemmas

  /** The parts of a text `x + sep1 + y + sep2 + z`, found back by position. */
  lemma {:induction false} Join3(x: string, sep1: char, y: string, sep2: char, z: string)
    ensures var s := x + [sep1] + y + [sep2] + z;
      && |s| == |x| + |y| + |z| + 2
      && s[..|x|] == x && s[|x|] == sep1
      && s[|x| + 1..|x| + 1 + |y|] == y && s[|x| + 1 + |y|] == sep2
      && s[|x| + 2 + |y|..] == z
  {
    var s := x + [sep1] + y + [sep2] + z;
    assert s[..|x|] == x;
    assert s[|x| + 1..|x| + 1 + |y|] == y;
    assert s[|x| + 2 + |y|..] == z;
  }

  /** A text cut at two separator positions is the concatenation of its parts. */
  lemma {:induction false} Split3(s: string, i: nat, j: nat)
    requires i < j < |s|
    ensures s == s[..i] + [s[i]] + s[i + 1..j] + [s[j]] + s[j + 1..]
  {
    var t := s[..i] + [s[i]] + s[i + 1..j] + [s[j]] + s[j + 1..];
    assert |t| == |s|;
    forall k | 0 <= k < |s| ensures t[k] == s[k] {
      if k < i { assert t[k] == s[..i][k]; }
      else if k == i { }
      else if k < j { assert t[k] == s[i + 1..j][k - i - 1]; }
      else if k == j { }
      else { assert t[k] == s[j + 1..][k - j - 1]; }
    }
  }

  lemma DatePieces(d: DateTime)
    requires Renderable(d)
    ensures DateShaped(DateText(d)) && ReadDate(DateText(d)) == (d.year, d.month, d.day)
  {
    assert Pow10(2) == 100 && Pow10(4) == 10000;
    var y, m, dd := YearText(d.year), PadLeft(d.month, 2), PadLeft(d.day, 2);
    Join3(y, '-', m, '-', dd);
    var a := DateText(d);
    assert a[0..4] == y && a[5..7] == m && a[8..10] == dd;
  }

  lemma TimePieces(d: DateTime)
    requires Valid(d)
    ensures TimeShaped(TimeText(d)) && ReadTime(TimeText(d)) == (d.hour, d.minute, d.second)
  {
    assert Pow10(2) == 100;
    var h, m, sec := PadLeft(d.hour, 2), PadLeft(d.minute, 2), PadLeft(d.second, 2);
    Join3(h, ':', m, ':', sec);
    var t := TimeText(d);
    assert t[0..2] == h && t[3..5] == m && t[6..8] == sec;
  }

  /** Hours and minutes of an offset of whole minutes give the offset back. */
  lemma OffsetArithmetic(a: nat)
    requires a % 60 == 0
    ensures (a / HourSeconds) * HourSeconds + ((a % HourSeconds) / 60) * 60 == a
  {
  }

  /** Splitting hours and minutes is undone by recombining them. */
  lemma OffsetSplit(hh: nat, mm: nat)
    requires mm < 60
    ensures var a := hh * HourSeconds + mm * 60; a / HourSeconds == hh && (a % HourSeconds) / 60 == mm
  {
  }

  /** The parts of a text `[c] + y + [sep] + z`, found back by position. */
  lemma {:induction false} Join2(c: char, y: string, sep: char, z: string)
    ensures var s := [c] + y + [sep] + z;
      && |s| == |y| + |z| + 2 && s[0] == c
      && s[1..1 + |y|] == y && s[1 + |y|] == sep && s[2 + |y|..] == z
  {
    var s := [c] + y + [sep] + z;
    assert s[1..1 + |y|] == y;
    assert s[2 + |y|..] == z;
  }

  /** The hours and minutes the `P` field shows for a renderable offset. */
  lemma OffsetFields(offset: int)
    requires RenderableOffset(offset)
    ensures var a := if offset < 0 then -offset else offset;
      && a / HourSeconds < 100 && (a % HourSeconds) / 60 < 60
      && (a / HourSeconds) * HourSeconds + ((a % HourSeconds) / 60) * 60 == a
  {
    var a := if offset < 0 then -offset else offset;
    assert a % 60 == 0;
    OffsetArithmetic(a);
  }

  /** An offset text built from a sign, hours and minutes reads back to that offset. */
  lemma ReadOffsetOf(negative: bool, hh: nat, mm: nat)
    requires hh < 100 && mm < 60
    requires negative ==> hh * HourSeconds + mm * 60 != 0
    ensures var o := [if negative then '-' else '+'] + PadLeft(hh, 2) + ":" + PadLeft(mm, 2);
      var magnitude := hh * HourSeconds + mm * 60;
      OffsetShaped(o) && ReadOffset(o) == Some(if negative then -magnitude else magnitude)
  {
    var ht, mt := PadLeft(hh, 2), PadLeft(mm, 2);
    assert |ht| == 2 && |mt| == 2 by { assert Pow10(2) == 100; }
    var sign := if negative then '-' else '+';
    var o := [sign] + ht + ":" + mt;
    Join2(sign, ht, ':', mt);
    assert o[1..3] == ht && o[4..6] == mt;
  }

  lemma OffsetPieces(offset: int)
    requires RenderableOffset(offset)
    ensures OffsetShaped(OffsetText(offset)) && ReadOffset(OffsetText(offset)) == Some(offset)
  {
    var a := if offset < 0 then -offset else offset;
    var hh, mm := a / HourSeconds, (a % HourSeconds) / 60;
    OffsetFields(offset);
    OffsetTextOf(offset, offset < 0, hh, mm);
    ReadOffsetOf(offset < 0, hh, mm);
  }

  /** A text built from shaped parts is shaped, and splitting it returns the parts. */
  lemma SplitPieces(a: string, t: string, o: string)
    requires DateShaped(a) && TimeShaped(t) && OffsetShaped(o)
    ensures var s := a + "T" + t + o;
      W3CShaped(s) && s[..10] == a && s[11..19] == t && s[19..] == o
  {
    var s := a + "T" + t + o;
    assert s[..10] == a && s[11..19] == t && s[19..] == o;
  }

  /** A renderable date is rendered in the 25-character layout. */
  lemma W3CShape(d: DateTime)
    requires Renderable(d)
    ensures W3CShaped(W3C(d))
  {
    DatePieces(d);
    TimePieces(d);
    OffsetPieces(d.offset);
    SplitPieces(DateText(d), TimeText(d), OffsetText(d.offset));
  }

  /**
   * Reading back the rendering of a renderable date gives the date cut to
   * the whole second: the rendering has no fraction of a second.
   */
  lemma ParseW3CInvertsW3C(d: DateTime)
    requires Renderable(d)
    ensures ParseW3C(W3C(d)) == Some(d.(microsecond := 0))
  {
    DatePieces(d);
    TimePieces(d);
    OffsetPieces(d.offset);
    SplitPieces(DateText(d), TimeText(d), OffsetText(d.offset));
  }

  lemma DateReadBack(a: string, d: DateTime)
    requires DateShaped(a) && ReadDate(a) == (d.year, d.month, d.day)
    ensures DateText(d) == a
  {
    PadLeftValueOf(a[0..4]);
    PadLeftValueOf(a[5..7]);
    PadLeftValueOf(a[8..10]);
    Split3(a, 4, 7);
    assert a[..4] == a[0..4] && a[8..] == a[8..10];
  }

  lemma TimeReadBack(t: string, d: DateTime)
    requires TimeShaped(t) && ReadTime(t) == (d.hour, d.minute, d.second)
    ensures TimeText(d) == t
  {
    PadLeftValueOf(t[0..2]);
    PadLeftValueOf(t[3..5]);
    PadLeftValueOf(t[6..8]);
    Split3(t, 2, 5);
    assert t[..2] == t[0..2] && t[6..] == t[6..8];
  }

  /** The text of an offset given by its sign and its hours and minutes. */
  lemma OffsetTextOf(offset: int, negative: bool, hh: nat, mm: nat)
    requires mm < 60
    requires negative ==> hh * HourSeconds + mm * 60 != 0
    requires offset == if negative then -(hh * HourSeconds + mm * 60) else hh * HourSeconds + mm * 60
    ensures OffsetText(offset) == [if negative then '-' else '+'] + PadLeft(hh, 2) + ":" + PadLeft(mm, 2)
  {
    OffsetSplit(hh, mm);
  }

  /** The sign, hours and minutes of a shaped offset text, padded again, give the text. */
  lemma OffsetFieldsReadBack(o: string)
    requires OffsetShaped(o)
    ensures [if o[0] == '-' then '-' else '+'] + PadLeft(ValueOf(o[1..3]), 2) + ":"
      + PadLeft(ValueOf(o[4..6]), 2) == o
  {
    PadLeftValueOf(o[1..3]);
    PadLeftValueOf(o[4..6]);
    assert o == [o[0]] + o[1..3] + [o[3]] + o[4..6];
  }

  lemma OffsetReadBack(o: string)
    requires OffsetShaped(o) && ReadOffset(o).Some?
    ensures OffsetText(ReadOffset(o).value) == o
  {
    assert Pow10(2) == 100;
    OffsetTextOf(ReadOffset(o).value, o[0] == '-', ValueOf(o[1..3]), ValueOf(o[4..6]));
    OffsetFieldsReadBack(o);
  }

  /** The fields of a date read back from `s` come from the three parts of `s`. */
  lemma ParsedFields(s: string)
    requires ParseW3C(s).Some?
    ensures var d := ParseW3C(s).value;
      && W3CShaped(s)
      && ReadDate(s[..10]) == (d.year, d.month, d.day)
      && ReadTime(s[11..19]) == (d.hour, d.minute, d.second)
      && ReadOffset(s[19..]) == Some(d.offset)
  {
  }

  /** A 25-character text is its date part, the 'T', its time part and its offset part. */
  lemma SplitW3C(s: string)
    requires W3CShaped(s)
    ensures s == s[..10] + "T" + s[11..19] + s[19..]
  {
    assert s == s[..10] + [s[10]] + s[11..19] + s[19..];
  }

  /** Rendering a date that was read back gives the text that was read. */
  lemma W3CInvertsParseW3C(s: string)
    requires ParseW3C(s).Some?
    ensures W3C(ParseW3C(s).value) == s
  {
    var d := ParseW3C(s).value;
    ParsedFields(s);
    assert DateText(d) == s[..10] by { DateReadBack(s[..10], d); }
    assert TimeText(d) == s[11..19] by { TimeReadBack(s[11..19], d); }
    assert OffsetText(d.offset) == s[19..] by { OffsetReadBack(s[19..]); }
    SplitW3C(s);
  }

  lemma YearExample()
    ensures YearText(2024) == "2024"
  {
    assert Digits(2) == "2";
    assert Digits(20) == "20";
    assert Digits(202) == "202";
    assert Digits(2024) == "2024";
  }

  lemma DateExample()
    ensures DateText(DateTime(2024, 1, 15, 10, 30, 0, 0, 0)) == "2024-01-15"
  {
    YearExample();
    assert PadLeft(1, 2) == "01";
    assert PadLeft(15, 2) == "15";
  }

  lemma TimeExample()
    ensures TimeText(DateTime(2024, 1, 15, 10, 30, 0, 0, 0)) == "10:30:00"
  {
    assert PadLeft(10, 2) == "10";
    assert PadLeft(30, 2) == "30";
    assert PadLeft(0, 2) == "00";
  }

  lemma OffsetExample()
    ensures OffsetText(0) == "+00:00"
  {
    assert PadLeft(0, 2) == "00";
  }

  /** The documented example of the timestamp format. */
  lemma W3CExample()
    ensures W3C(DateTime(2024, 1, 15, 10, 30, 0, 0, 0)) == "2024-01-15T10:30:00+00:00"
  {
    DateExample();
    TimeExample();
    OffsetExample();
  }

  /**
   * Distinct renderable dates with the same fraction of a second get
   * distinct W3C texts; without that condition they need not (see
   * `SameSecondExample`).
   */
  lemma W3CInjective(d1: DateTime, d2: DateTime)
    requires Renderable(d1) && Renderable(d2)
    requires d1.microsecond == d2.microsecond
    requires W3C(d1) == W3C(d2)
    ensures d1 == d2
  {
    ParseW3CInvertsW3C(d1);
    ParseW3CInvertsW3C(d2);
  }

  /** The fraction of a second does not reach the W3C text. */
  lemma W3CDropsMicroseconds(d: DateTime, u: nat)
    ensures W3C(d.(microsecond := u)) == W3C(d)
  {
  }

  /** Two distinct times within one second get the same W3C text. */
  lemma SameSecondExample()
    ensures var d1 := DateTime(2024, 1, 15, 10, 30, 0, 0, 0);
      var d2 := DateTime(2024, 1, 15, 10, 30, 0, 500000, 0);
      d1 != d2 && W3C(d1) == W3C(d2) == "2024-01-15T10:30:00+00:00"
  {
    W3CExample();
    W3CDropsMicroseconds(DateTime(2024, 1, 15, 10, 30, 0, 0, 0), 500000);
  }
}
