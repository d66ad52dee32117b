/**
 * The date and time labels shown above each entry, and the same-day test
 * that decides whether an entry repeats the date of the one before it.
 * A point in time is an abstract calendar record, read the way the
 * JavaScript `Date` getters read it (month counted from 0).
 */
module Formats {
  import opened Wrappers
  import opened Text

  type MonthIndex = m: int | 0 <= m < 12
  type DayOfMonth = d: int | 1 <= d <= 31 witness 1
  type Hour = h: int | 0 <= h < 24
  type Sexagesimal = x: int | 0 <= x < 60

  /** What `getFullYear`, `getMonth`, `getDate`, `getHours`, `getMinutes` and `getSeconds` return. */
  datatype Instant = Instant(
    year: int,
    month: MonthIndex,
    day: DayOfMonth,
    hours: Hour,
    minutes: Sexagesimal,
    seconds: Sexagesimal)

  const MonthNames: seq<string> :=
    ["Jan", "Feb", "Mar", "Apr", "May", "Jun", "Jul", "Aug", "Sep", "Oct", "Nov", "Dec"]

  /** Twelve distinct three-letter names without a space or a slash. */
  lemma MonthNamesDistinct(m1: MonthIndex, m2: MonthIndex)
    ensures |MonthNames| == 12 && |MonthNames[m1]| == 3 && ' ' !in MonthNames[m1] && '/' !in MonthNames[m1]
    ensures MonthNames[m1] == MonthNames[m2] <==> m1 == m2
  {
  }

  // ---------------------------------------------------------------------------
  // Date labels
  // ---------------------------------------------------------------------------

  /** Where the month name, the day and the year sit in a long date label. */
  lemma LongDateLayout(m: string, day: string, y: string)
    requires |m| == 3
    ensures var r := m + " " + day + ", " + y;
      && |r| == |day| + |y| + 6 && r[..3] == m && r[3] == ' '
      && r[4..4 + |day|] == day && r[4 + |day|..6 + |day|] == ", " && r[6 + |day|..] == y
  {
    var r := m + " " + day + ", " + y;
    assert r[4..4 + |day|] == day;
    assert r[4 + |day|..6 + |day|] == ", ";
  }

  /** The first date format: month name, day and year, as in "Mar 5, 2024". */
  function LongDate(d: Instant): (r: string)
    ensures |r| >= 7 && r[..3] == MonthNames[d.month] && r[3] == ' '
    ensures |IntString(d.year)| < |r| && r[|r| - |IntString(d.year)|..] == IntString(d.year)
  {
    MonthNamesDistinct(d.month, d.month);
    LongDateLayout(MonthNames[d.month], DecimalString(d.day), IntString(d.year));
    MonthNames[d.month] + " " + DecimalString(d.day) + ", " + IntString(d.year)
  }

  /** Read back, the long date label gives the month name, then the day of the month, then the year. */
  lemma LongDateReads(d: Instant)
    ensures var r, n := LongDate(d), if d.day < 10 then 1 else 2;
      && |r| >= 7 + n && r[..3] == MonthNames[d.month] && r[3] == ' '
      && IsDigits(r[4..4 + n]) && DigitsValue(r[4..4 + n]) == d.day
      && r[4 + n..6 + n] == ", " && r[6 + n..] == IntString(d.year)
  {
    var r, ds := LongDate(d), DecimalString(d.day);
    MonthNamesDistinct(d.month, d.month);
    LongDateLayout(MonthNames[d.month], ds, IntString(d.year));
    DecimalStringDenotes(d.day);
    DigitsAt(r, 4, 4 + |ds|, ds, d.day);
  }

  /** The second date format: "MM/DD/YYYY" with month counted from 1 and two-digit month and day. */
  function NumericDate(d: Instant): (r: string)
    ensures |r| >= 7 && r[2] == '/' && r[5] == '/' && r[6..] == IntString(d.year)
  {
    TwoCharFieldsLayout(TwoDigits(d.month + 1), TwoDigits(d.day), IntString(d.year), '/');
    TwoDigits(d.month + 1) + "/" + TwoDigits(d.day) + "/" + IntString(d.year)
  }

  /** Read back, the numeric date label gives the month counted from 1, then the day of the month. */
  lemma NumericDateReads(d: Instant)
    ensures var r := NumericDate(d);
      && IsDigits(r[0..2]) && DigitsValue(r[0..2]) == d.month + 1
      && IsDigits(r[3..5]) && DigitsValue(r[3..5]) == d.day
  {
    var r, mm, dd := NumericDate(d), TwoDigits(d.month + 1), TwoDigits(d.day);
    TwoCharFieldsLayout(mm, dd, IntString(d.year), '/');
    TwoDigitsDenotes(d.month + 1);
    TwoDigitsDenotes(d.day);
    DigitsAt(r, 0, 2, mm, d.month + 1);
    DigitsAt(r, 3, 5, dd, d.day);
  }

  const DateFormatCount: nat := 2

  /**
   * `dateFormats[index](d)`: every date label ends with the year, and the
   * label shows which format produced it (a slash after the month).
   */
  function FormatDate(index: nat, d: Instant): (r: string)
    requires index < DateFormatCount
    ensures |r| >= 7 && |IntString(d.year)| < |r| && r[|r| - |IntString(d.year)|..] == IntString(d.year)
    ensures r[2] == '/' <==> index == 1
  {
    if index == 0 then
      var r := LongDate(d);
      MonthNamesDistinct(d.month, d.month);
      assert r[2] in r[..3];
      r
    else
      NumericDate(d)
  }

  /** Both instants fall on the same calendar day. */
  predicate SameCalendarDay(a: Instant, b: Instant) {
    a.year == b.year && a.month == b.month && a.day == b.day
  }

  /**
   * `isSameDay(date1, date2)`: false when either date is missing (`null`),
   * otherwise whether the two fall on one calendar day.
   */
  function IsSameDay(date1: Option<Instant>, date2: Option<Instant>): (r: bool)
    ensures date1.None? || date2.None? ==> !r
    ensures date1.Some? && date2.Some? ==> (r <==> SameCalendarDay(date1.value, date2.value))
  {
    if date1.None? || date2.None? then false
    else
      date1.value.year == date2.value.year
      && date1.value.month == date2.value.month
      && date1.value.day == date2.value.day
  }

  lemma IsSameDaySymmetric(date1: Option<Instant>, date2: Option<Instant>)
    ensures IsSameDay(date1, date2) == IsSameDay(date2, date1)
  {
  }

  lemma IsSameDayTransitive(date1: Option<Instant>, date2: Option<Instant>, date3: Option<Instant>)
    requires IsSameDay(date1, date2) && IsSameDay(date2, date3)
    ensures IsSameDay(date1, date3)
  {
  }

  /** A long date label splits back into its month name, day and year. */
  lemma LongDateFields(m: string, d: string, y: string, m': string, d': string, y': string)
    requires ' ' !in m && ' ' !in m' && ',' !in d && ',' !in d'
    requires m + " " + d + ", " + y == m' + " " + d' + ", " + y'
    ensures m == m' && d == d' && y == y'
  {
    assert m + " " + d + ", " + y == m + " " + (d + ", " + y);
    assert m' + " " + d' + ", " + y' == m' + " " + (d' + ", " + y');
    SplitAtSeparator(m, " ", d + ", " + y, m', d' + ", " + y');
    SplitAtSeparator(d, ", ", y, d', y');
  }

  /** The long date label names the calendar day exactly: equal labels, equal days. */
  lemma LongDateIdentifiesDay(a: Instant, b: Instant)
    ensures LongDate(a) == LongDate(b) <==> SameCalendarDay(a, b)
  {
    if LongDate(a) == LongDate(b) {
      var da, db := DecimalString(a.day), DecimalString(b.day);
      MonthNamesDistinct(a.month, b.month);
      MonthNamesDistinct(b.month, a.month);
      DigitsExclude(da, ',');
      DigitsExclude(db, ',');
      LongDateFields(MonthNames[a.month], da, IntString(a.year), MonthNames[b.month], db, IntString(b.year));
      DecimalStringInjective(a.day, b.day);
      IntStringInjective(a.year, b.year);
    }
  }

  /** The numeric date label names the calendar day exactly: equal labels, equal days. */
  lemma NumericDateIdentifiesDay(a: Instant, b: Instant)
    ensures NumericDate(a) == NumericDate(b) <==> SameCalendarDay(a, b)
  {
    if NumericDate(a) == NumericDate(b) {
      NumericDateReads(a);
      NumericDateReads(b);
      IntStringInjective(a.year, b.year);
    }
  }

  /** Whatever the chosen date format, two dates get the same label exactly when `isSameDay` holds of them. */
  lemma DateLabelMatchesSameDay(index: nat, a: Instant, b: Instant)
    requires index < DateFormatCount
    ensures FormatDate(index, a) == FormatDate(index, b) <==> IsSameDay(Some(a), Some(b))
  {
    if index == 0 {
      LongDateIdentifiesDay(a, b);
    } else {
      NumericDateIdentifiesDay(a, b);
    }
  }

  // ---------------------------------------------------------------------------
  // Time labels
  // ---------------------------------------------------------------------------

  /** The first time format: "HH:MM:SS" on the 24-hour clock, every field two digits. */
  function Clock24(d: Instant): (r: string)
    ensures |r| == 8 && r[2] == ':' && r[5] == ':'
  {
    var hh, mm, ss := TwoDigits(d.hours), TwoDigits(d.minutes), TwoDigits(d.seconds);
    TwoCharFieldsLayout(hh, mm, ss, ':');
    hh + ":" + mm + ":" + ss
  }

  /** Read back, the 24-hour label gives the hours, the minutes and the seconds, in that order. */
  lemma Clock24Reads(d: Instant)
    ensures var r := Clock24(d);
      && IsDigits(r[0..2]) && DigitsValue(r[0..2]) == d.hours
      && IsDigits(r[3..5]) && DigitsValue(r[3..5]) == d.minutes
      && IsDigits(r[6..8]) && DigitsValue(r[6..8]) == d.seconds
  {
    var r, hh, mm, ss := Clock24(d), TwoDigits(d.hours), TwoDigits(d.minutes), TwoDigits(d.seconds);
    TwoCharFieldsLayout(hh, mm, ss, ':');
    TwoDigitsDenotes(d.hours);
    TwoDigitsDenotes(d.minutes);
    TwoDigitsDenotes(d.seconds);
    DigitsAt(r, 0, 2, hh, d.hours);
    DigitsAt(r, 3, 5, mm, d.minutes);
    DigitsAt(r, 6, 8, ss, d.seconds);
  }

  /** `(hours % 12) || 12`: the hour on a 12-hour dial. */
  function Hour12(hours: Hour): (r: int)
    ensures 1 <= r <= 12
    ensures (r == 12) <==> (hours == 0 || hours == 12)
  {
    if hours % 12 == 0 then 12 else hours % 12
  }

  /** `hours >= 12 ? 'PM' : 'AM'`. */
  function Meridiem(hours: Hour): (r: string)
    ensures |r| == 2 && (r == "AM" || r == "PM")
    ensures r == "PM" <==> hours >= 12
  {
    if hours >= 12 then "PM" else "AM"
  }

  /** The hour of the day a 12-hour reading and its suffix denote. */
  function From12Hour(h12: int, suffix: string): int {
    h12 % 12 + if suffix == "PM" then 12 else 0
  }

  /** The 12-hour reading and its suffix together recover the hour of the day. */
  lemma Hour12RoundTrip(hours: Hour)
    ensures From12Hour(Hour12(hours), Meridiem(hours)) == hours
    ensures Meridiem(hours) == "PM" <==> hours >= 12
  {
  }

  /** Where the hour, the minutes, the seconds and the suffix sit in a 12-hour label. */
  lemma Clock12Layout(h: string, m: string, sec: string, x: string)
    requires |m| == 2 && |sec| == 2
    ensures var r, n := h + ":" + m + ":" + sec + " " + x, |h|;
      && |r| == n + 7 + |x| && r[..n] == h && r[n] == ':' && r[n + 1..n + 3] == m
      && r[n + 3] == ':' && r[n + 4..n + 6] == sec && r[n + 6] == ' ' && r[n + 7..] == x
  {
    var r, n := h + ":" + m + ":" + sec + " " + x, |h|;
    assert r[n + 1..n + 3] == m;
    assert r[n + 4..n + 6] == sec;
  }

  /** The second time format: "H:MM:SS AM" on the 12-hour clock; the hour is not padded. */
  function Clock12(d: Instant): (r: string)
    ensures |r| >= 10 && r[|r| - 3] == ' ' && r[|r| - 2..] == Meridiem(d.hours)
  {
    var hours := Hour12(d.hours);
    Clock12Layout(DecimalString(hours), TwoDigits(d.minutes), TwoDigits(d.seconds), Meridiem(d.hours));
    DecimalString(hours) + ":" + TwoDigits(d.minutes) + ":" + TwoDigits(d.seconds) + " " + Meridiem(d.hours)
  }

  /**
   * Read back, the 12-hour label gives the hour on the 12-hour dial (one digit
   * below 10), the minutes, the seconds and the suffix, in that order.
   */
  lemma Clock12Reads(d: Instant)
    ensures var r, n := Clock12(d), if Hour12(d.hours) < 10 then 1 else 2;
      && |r| == n + 9 && IsDigits(r[0..n]) && DigitsValue(r[0..n]) == Hour12(d.hours) && r[n] == ':'
      && IsDigits(r[n + 1..n + 3]) && DigitsValue(r[n + 1..n + 3]) == d.minutes && r[n + 3] == ':'
      && IsDigits(r[n + 4..n + 6]) && DigitsValue(r[n + 4..n + 6]) == d.seconds
      && r[n + 6] == ' ' && r[n + 7..] == Meridiem(d.hours)
  {
    var r, h := Clock12(d), DecimalString(Hour12(d.hours));
    var mm, ss := TwoDigits(d.minutes), TwoDigits(d.seconds);
    var n := |h|;
    Clock12Layout(h, mm, ss, Meridiem(d.hours));
    DecimalStringDenotes(Hour12(d.hours));
    TwoDigitsDenotes(d.minutes);
    TwoDigitsDenotes(d.seconds);
    DigitsAt(r, 0, n, h, Hour12(d.hours));
    DigitsAt(r, n + 1, n + 3, mm, d.minutes);
    DigitsAt(r, n + 4, n + 6, ss, d.seconds);
  }

  const TimeFormatCount: nat := 2

  /** `timeFormats[index](d)`: the label shows which format produced it (only the 24-hour one is eight characters long). */
  function FormatTime(index: nat, d: Instant): (r: string)
    requires index < TimeFormatCount
    ensures |r| >= 8
    ensures |r| == 8 <==> index == 0
  {
    if index == 0 then Clock24(d) else Clock12(d)
  }

  /** Both instants show the same hour, minute and second. */
  predicate SameTimeOfDay(a: Instant, b: Instant) {
    a.hours == b.hours && a.minutes == b.minutes && a.seconds == b.seconds
  }

  /** The 24-hour label names the clock time exactly: equal labels, equal times. */
  lemma Clock24IdentifiesTime(a: Instant, b: Instant)
    ensures Clock24(a) == Clock24(b) <==> SameTimeOfDay(a, b)
  {
    if Clock24(a) == Clock24(b) {
      Clock24Reads(a);
      Clock24Reads(b);
    }
  }

  /** The 12-hour label names the clock time exactly: the suffix tells the two halves of the day apart. */
  lemma Clock12IdentifiesTime(a: Instant, b: Instant)
    ensures Clock12(a) == Clock12(b) <==> SameTimeOfDay(a, b)
  {
    if Clock12(a) == Clock12(b) {
      var r := Clock12(a);
      Clock12Reads(a);
      Clock12Reads(b);
      // both labels have the same length, so the hour field has the same width in both
      var n := if Hour12(a.hours) < 10 then 1 else 2;
      assert n == if Hour12(b.hours) < 10 then 1 else 2;
      assert Hour12(a.hours) == DigitsValue(r[0..n]) == Hour12(b.hours);
      assert Meridiem(a.hours) == r[n + 7..] == Meridiem(b.hours);
      Hour12RoundTrip(a.hours);
      Hour12RoundTrip(b.hours);
    }
  }

  /** Whatever the chosen time format, two instants get the same label exactly when their clock times agree. */
  lemma TimeLabelMatchesClockTime(index: nat, a: Instant, b: Instant)
    requires index < TimeFormatCount
    ensures FormatTime(index, a) == FormatTime(index, b) <==> SameTimeOfDay(a, b)
  {
    if index == 0 {
      Clock24IdentifiesTime(a, b);
    } else {
      Clock12IdentifiesTime(a, b);
    }
  }
}
