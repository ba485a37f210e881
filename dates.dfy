/**
 * Calendar dates, the instants a pandas timestamp can hold, and the
 * `YYYY-MM-DD` rendering (ISO 8601 extended calendar-date format,
 * section 4.1.2.2 of ISO 8601:2004) that `strftime('%Y-%m-%d')` produces.
 */
module Dates {
  import opened Wrappers

  /** Decimal digit characters. */
  predicate IsDigit(c: char) { '0' <= c <= '9' }

  function Pow10(n: nat): (r: nat)
    ensures r >= 1
  {
    if n == 0 then 1 else 10 * Pow10(n - 1)
  }

  /** `n` written in exactly `width` decimal digits, with leading zeros. */
  function Digits(n: nat, width: nat): (r: string)
    requires n < Pow10(width)
    ensures |r| == width
    ensures forall i :: 0 <= i < |r| ==> IsDigit(r[i])
  {
    if width == 0 then ""
    else
      assert n / 10 < Pow10(width - 1);
      Digits(n / 10, width - 1) + [('0' as int + n % 10) as char]
  }

  /** The number a string of decimal digits denotes. */
  function Value(s: string): (n: nat)
    requires forall i :: 0 <= i < |s| ==> IsDigit(s[i])
    ensures n < Pow10(|s|)
  {
    if s == [] then 0
    else
      var p := s[..|s| - 1];
      assert forall i :: 0 <= i < |p| ==> IsDigit(p[i]) by {
        forall i | 0 <= i < |p| ensures IsDigit(p[i]) { assert p[i] == s[i]; }
      }
      assert IsDigit(s[|s| - 1]);
      10 * Value(p) + (s[|s| - 1] as int - '0' as int)
  }

  lemma {:induction false} ValueOfDigits(n: nat, width: nat)
    requires n < Pow10(width)
    ensures Value(Digits(n, width)) == n
  {
    if width > 0 {
      var d := Digits(n, width);
      assert d[..width - 1] == Digits(n / 10, width - 1);
      ValueOfDigits(n / 10, width - 1);
    }
  }

  lemma {:induction false} DigitsOfValue(s: string)
    requires forall i :: 0 <= i < |s| ==> IsDigit(s[i])
    ensures Digits(Value(s), |s|) == s
  {
    if s != [] {
      var p := s[..|s| - 1];
      DigitsOfValue(p);
      var n := Value(s);
      assert n / 10 == Value(p) && n % 10 == s[|s| - 1] as int - '0' as int;
      assert s == p + [s[|s| - 1]];
    }
  }

  datatype CalendarDate = CalendarDate(year: int, month: int, day: int)

  /** Gregorian leap years. */
  predicate IsLeapYear(y: int)
  {
    y % 4 == 0 && (y % 100 != 0 || y % 400 == 0)
  }

  function DaysInMonth(y: int, m: int): (n: int)
    requires 1 <= m <= 12
    ensures 28 <= n <= 31
    ensures n == 29 <==> m == 2 && IsLeapYear(y)
  {
    if m == 2 then (if IsLeapYear(y) then 29 else 28)
    else if m == 4 || m == 6 || m == 9 || m == 11 then 30
    else 31
  }

  predicate IsCalendarDate(d: CalendarDate)
  {
    1 <= d.month <= 12 && 1 <= d.day <= DaysInMonth(d.year, d.month)
  }

  const NanosPerDay: int := 86_400_000_000_000

  /** A date with the time of day in nanoseconds, as a pandas timestamp stores it. */
  datatype Instant = Instant(date: CalendarDate, nanosOfDay: int)

  /** Chronological order of instants. */
  predicate NotAfter(a: Instant, b: Instant)
  {
    a.date.year < b.date.year
    || (a.date.year == b.date.year && a.date.month < b.date.month)
    || (a.date.year == b.date.year && a.date.month == b.date.month && a.date.day < b.date.day)
    || (a.date == b.date && a.nanosOfDay <= b.nanosOfDay)
  }

  /** The bounds of a 64-bit nanosecond timestamp: 1677-09-21 00:12:43.145224193 to 2262-04-11 23:47:16.854775807. */
  const Earliest: Instant := Instant(CalendarDate(1677, 9, 21), 763_145_224_193)
  const Latest: Instant := Instant(CalendarDate(2262, 4, 11), 85_636_854_775_807)

  predicate IsTimestamp(t: Instant)
  {
    IsCalendarDate(t.date) && 0 <= t.nanosOfDay < NanosPerDay
    && NotAfter(Earliest, t) && NotAfter(t, Latest)
  }

  type Timestamp = t: Instant | IsTimestamp(t) witness Instant(CalendarDate(1970, 1, 1), 0)

  /**
   * A `YYYY-MM-DD` text whose midnight is itself a timestamp: the texts that
   * `to_datetime` reads back as a date (on 1677-09-21 midnight lies before
   * the earliest timestamp, so that day is not one of them).
   */
  predicate IsTimestampDay(s: string)
  {
    ParseIso(s).Some? && IsTimestamp(Instant(ParseIso(s).value, 0))
  }

  /** Every timestamp lies in a four-digit year. */
  lemma TimestampYears(t: Timestamp)
    ensures 1677 <= t.date.year <= 2262
  {
    assert NotAfter(Earliest, t) && NotAfter(t, Latest);
  }

  /** The shape `DDDD-DD-DD`. */
  predicate IsIsoShape(s: string)
  {
    |s| == 10 && s[4] == '-' && s[7] == '-'
    && forall i :: 0 <= i < 10 && i != 4 && i != 7 ==> IsDigit(s[i])
  }

  /** `strftime('%Y-%m-%d')`: the date part only, the time of day is dropped. */
  function FormatIso(t: Timestamp): (r: string)
    ensures IsIsoShape(r)
  {
    TimestampYears(t);
    var y := Digits(t.date.year, 4);
    var m := Digits(t.date.month, 2);
    var d := Digits(t.date.day, 2);
    var r := y + "-" + m + "-" + d;
    assert forall i :: 0 <= i < 4 ==> r[i] == y[i];
    assert forall i :: 5 <= i < 7 ==> r[i] == m[i - 5];
    assert forall i :: 8 <= i < 10 ==> r[i] == d[i - 8];
    r
  }

  /** Reads a `DDDD-DD-DD` string back as a calendar date; None when the shape or the date is wrong. */
  function ParseIso(s: string): (r: Option<CalendarDate>)
    ensures r.Some? ==> IsIsoShape(s) && IsCalendarDate(r.value)
  {
    if !IsIsoShape(s) then None
    else
      var d := CalendarDate(Value(s[..4]), Value(s[5..7]), Value(s[8..]));
      if IsCalendarDate(d) then Some(d) else None
  }

  /** The rendering splits back into its three fields. */
  lemma FormatFields(t: Timestamp)
    ensures 0 <= t.date.year && t.date.year < Pow10(4) && 0 <= t.date.month < Pow10(2) && 0 <= t.date.day < Pow10(2)
    ensures FormatIso(t)[..4] == Digits(t.date.year, 4)
    ensures FormatIso(t)[5..7] == Digits(t.date.month, 2)
    ensures FormatIso(t)[8..] == Digits(t.date.day, 2)
  {
    TimestampYears(t);
    var y := Digits(t.date.year, 4);
    var m := Digits(t.date.month, 2);
    var d := Digits(t.date.day, 2);
    assert FormatIso(t) == y + "-" + m + "-" + d;
  }

  /** The date part of every timestamp survives formatting and parsing. */
  lemma ParseFormat(t: Timestamp)
    ensures ParseIso(FormatIso(t)) == Some(t.date)
  {
    FormatFields(t);
    ValueOfDigits(t.date.year, 4);
    ValueOfDigits(t.date.month, 2);
    ValueOfDigits(t.date.day, 2);
  }

  /** A string of the shape `DDDD-DD-DD` is its three digit groups joined by dashes. */
  lemma IsoParts(s: string)
    requires IsIsoShape(s)
    ensures forall i :: 0 <= i < 4 ==> IsDigit(s[..4][i])
    ensures forall i :: 0 <= i < 2 ==> IsDigit(s[5..7][i]) && IsDigit(s[8..][i])
    ensures s == s[..4] + "-" + s[5..7] + "-" + s[8..]
  {
    assert forall i :: 0 <= i < 4 ==> s[..4][i] == s[i];
    assert forall i :: 0 <= i < 2 ==> s[5..7][i] == s[5 + i] && s[8..][i] == s[8 + i];
  }

  /** A parsed string is exactly the rendering of the date it denotes. */
  lemma FormatParse(s: string, t: Timestamp)
    requires ParseIso(s) == Some(t.date)
    ensures FormatIso(t) == s
  {
    IsoParts(s);
    DigitsOfValue(s[..4]);
    DigitsOfValue(s[5..7]);
    DigitsOfValue(s[8..]);
    TimestampYears(t);
    assert FormatIso(t) == Digits(t.date.year, 4) + "-" + Digits(t.date.month, 2) + "-" + Digits(t.date.day, 2);
  }

  /** Two timestamps render alike exactly when they fall on the same day. */
  lemma FormatIdentifiesDay(a: Timestamp, b: Timestamp)
    ensures FormatIso(a) == FormatIso(b) <==> a.date == b.date
  {
    ParseFormat(a);
    ParseFormat(b);
    if a.date == b.date {
      FormatParse(FormatIso(a), b);
    }
  }

  /**
   * The rendered date of a timestamp reads back as a date on every day but
   * the first: on 1677-09-21 only the instants after 00:12:43 are timestamps.
   */
  lemma RenderedDayReadsBack(t: Timestamp)
    ensures IsTimestampDay(FormatIso(t)) <==> t.date != Earliest.date
  {
    ParseFormat(t);
    var midnight := Instant(t.date, 0);
    assert NotAfter(midnight, Latest);
    if t.date != Earliest.date {
      assert NotAfter(Earliest, midnight);
    }
  }

  /** For example, a timestamp on 5 January 2024 renders as `2024-01-05`. */
  lemma FormatExample()
    ensures FormatIso(Instant(CalendarDate(2024, 1, 5), 0)) == "2024-01-05"
  {
  }
}
