/**
 * Local calendar arithmetic as the ECMAScript `Date` constructor performs it
 * (MakeDay, MakeTime, MakeDate and TimeClip, section 21.4.1 of ECMA-262), and
 * the day boundaries that date-fns computes. A time value is a number of
 * milliseconds of local wall-clock time since 1970-01-01 00:00: no time-zone
 * offset and no daylight-saving shift is applied.
 */
module Calendar {
  import opened Wrappers

  const MsPerMinute: int := 60000
  const MsPerHour: int := 3600000
  const MsPerDay: int := 86400000

  /** The largest magnitude of a valid time value (TimeClip). */
  const MaxTimeValue: int := 8640000000000000

  predicate IsLeapYear(y: int) {
    y % 4 == 0 && (y % 100 != 0 || y % 400 == 0)
  }

  function DaysInYear(y: int): int {
    if IsLeapYear(y) then 366 else 365
  }

  /** DayFromYear of ECMA-262: the day number of January 1st of year `y`. */
  function DayFromYear(y: int): int {
    365 * (y - 1970) + (y - 1969) / 4 - (y - 1901) / 100 + (y - 1601) / 400
  }

  /** Days of year `y` before month `m` (0 is January). */
  function DaysBeforeMonth(y: int, m: int): int
    requires 0 <= m <= 12
  {
    [0, 31, 59, 90, 120, 151, 181, 212, 243, 273, 304, 334, 365][m]
      + (if m >= 2 && IsLeapYear(y) then 1 else 0)
  }

  function DaysInMonth(y: int, m: int): int
    requires 0 <= m < 12
  {
    DaysBeforeMonth(y, m + 1) - DaysBeforeMonth(y, m)
  }

  /** MakeDay: a month outside 0..11 carries into the year, and a day past the
      end of the month runs on into the following ones. */
  function MakeDay(year: int, month: int, date: int): int {
    var ym := year + month / 12;
    var mn := month % 12;
    DayFromYear(ym) + DaysBeforeMonth(ym, mn) + date - 1
  }

  function MakeTime(hour: int, minute: int): int {
    hour * MsPerHour + minute * MsPerMinute
  }

  function MakeDate(day: int, time: int): int {
    day * MsPerDay + time
  }

  /** `new Date(year, monthIndex, day, hours, minutes)` on integer arguments: a
      year in 0..99 stands for 1900 + year, and a time value outside TimeClip's
      range is an invalid date (`None`). */
  function DateValue(year: int, monthIndex: int, day: int, hours: int, minutes: int): Option<int> {
    var fullYear := if 0 <= year <= 99 then 1900 + year else year;
    var t := MakeDate(MakeDay(fullYear, monthIndex, day), MakeTime(hours, minutes));
    if -MaxTimeValue <= t <= MaxTimeValue then Some(t) else None
  }

  /** date-fns `startOfDay`. */
  function StartOfDay(t: int): int {
    t - t % MsPerDay
  }

  /** date-fns `endOfDay`: 23:59:59.999 of the same day. */
  function EndOfDay(t: int): int {
    StartOfDay(t) + MsPerDay - 1
  }

  /** date-fns `subDays`. */
  function SubDays(t: int, n: int): int {
    t - n * MsPerDay
  }

  /** `startOfDay` is a midnight at or before `t`, and `endOfDay` the last
      millisecond of the same day. */
  lemma DayBounds(t: int)
    ensures StartOfDay(t) % MsPerDay == 0
    ensures StartOfDay(t) <= t <= EndOfDay(t)
    ensures EndOfDay(t) - StartOfDay(t) + 1 == MsPerDay
  {
  }

  /** A midnight is its own start of day, and stays a midnight `n` days back. */
  lemma MidnightStart(t: int, n: int)
    requires t % MsPerDay == 0
    ensures StartOfDay(t) == t
    ensures SubDays(t, n) % MsPerDay == 0
  {
    var q := t / MsPerDay;
    assert SubDays(t, n) == (q - n) * MsPerDay;
  }

  // ---------------------------------------------------------------------------
  // Calendar components and their order
  // ---------------------------------------------------------------------------

  /** The arguments of the `Date` constructor: month is 0-based. */
  datatype Civil = Civil(year: int, month: int, day: int, hour: int, minute: int)

  /** Components that name an actual minute, so that no carry happens. */
  predicate ValidCivil(c: Civil) {
    && 0 <= c.month < 12
    && 1 <= c.day <= DaysInMonth(c.year, c.month)
    && 0 <= c.hour < 24
    && 0 <= c.minute < 60
  }

  function DayNumber(c: Civil): int {
    MakeDay(c.year, c.month, c.day)
  }

  function CivilTime(c: Civil): int {
    MakeDate(DayNumber(c), MakeTime(c.hour, c.minute))
  }

  /** Lexicographic order of (year, month, day, hour, minute). */
  predicate CivilBefore(a: Civil, b: Civil) {
    || a.year < b.year
    || (a.year == b.year && a.month < b.month)
    || (a.year == b.year && a.month == b.month && a.day < b.day)
    || (a.year == b.year && a.month == b.month && a.day == b.day && a.hour < b.hour)
    || (a.year == b.year && a.month == b.month && a.day == b.day && a.hour == b.hour && a.minute < b.minute)
  }

  lemma LeapStep4(y: int)
    ensures (y - 1968) / 4 - (y - 1969) / 4 == if y % 4 == 0 then 1 else 0
  {
    var q, r := y / 4, y % 4;
    assert y - 1968 == 4 * (q - 492) + r;
  }

  lemma LeapStep100(y: int)
    ensures (y - 1900) / 100 - (y - 1901) / 100 == if y % 100 == 0 then 1 else 0
  {
    var q, r := y / 100, y % 100;
    assert y - 1900 == 100 * (q - 19) + r;
  }

  lemma LeapStep400(y: int)
    ensures (y - 1600) / 400 - (y - 1601) / 400 == if y % 400 == 0 then 1 else 0
  {
    var q, r := y / 400, y % 400;
    assert y - 1600 == 400 * (q - 4) + r;
  }

  lemma YearLength(y: int)
    ensures DayFromYear(y + 1) == DayFromYear(y) + DaysInYear(y)
  {
    LeapStep4(y);
    LeapStep100(y);
    LeapStep400(y);
    assert DayFromYear(y + 1) - DayFromYear(y)
      == 365 + ((y - 1968) / 4 - (y - 1969) / 4) - ((y - 1900) / 100 - (y - 1901) / 100)
        + ((y - 1600) / 400 - (y - 1601) / 400);
    LeapDivides(y);
  }

  /** A multiple of 400 is one of 100, and a multiple of 100 one of 4. */
  lemma LeapDivides(y: int)
    ensures y % 400 == 0 ==> y % 100 == 0
    ensures y % 100 == 0 ==> y % 4 == 0
  {
    if y % 400 == 0 {
      var t := 4 * (y / 400);
      assert y == 100 * t;
    }
    if y % 100 == 0 {
      var t := 25 * (y / 100);
      assert y == 4 * t;
    }
  }

  lemma {:induction false} DayFromYearGrows(y1: int, y2: int)
    requires y1 < y2
    ensures DayFromYear(y1) + DaysInYear(y1) <= DayFromYear(y2)
    decreases y2 - y1
  {
    YearLength(y1);
    if y1 + 1 < y2 {
      DayFromYearGrows(y1 + 1, y2);
    }
  }

  lemma MonthLength(y: int, m: int)
    requires 0 <= m < 12
    ensures 28 <= DaysInMonth(y, m) <= 31
  {
  }

  lemma {:induction false} DaysBeforeMonthGrows(y: int, m1: int, m2: int)
    requires 0 <= m1 < m2 <= 12
    ensures DaysBeforeMonth(y, m1) + DaysInMonth(y, m1) <= DaysBeforeMonth(y, m2)
    decreases m2 - m1
  {
    if m1 + 1 < m2 {
      MonthLength(y, m1 + 1);
      DaysBeforeMonthGrows(y, m1 + 1, m2);
    }
  }

  /** With an in-range month nothing carries into the year. */
  lemma DayNumberOfValid(c: Civil)
    requires ValidCivil(c)
    ensures DayNumber(c) == DayFromYear(c.year) + DaysBeforeMonth(c.year, c.month) + c.day - 1
  {
    assert c.month / 12 == 0 && c.month % 12 == c.month;
  }

  lemma DaysBeforeYearEnd(y: int)
    ensures DaysBeforeMonth(y, 12) == DaysInYear(y)
  {
  }

  /** A valid date lies inside its year. */
  lemma DayInYear(c: Civil)
    requires ValidCivil(c)
    ensures DayFromYear(c.year) <= DayNumber(c) < DayFromYear(c.year) + DaysInYear(c.year)
  {
    DayNumberOfValid(c);
    DaysBeforeYearEnd(c.year);
    if c.month < 11 {
      DaysBeforeMonthGrows(c.year, c.month, 12);
    }
    assert DaysBeforeMonth(c.year, 0) == 0;
  }

  lemma DayNumberOrder(a: Civil, b: Civil)
    requires ValidCivil(a) && ValidCivil(b)
    requires a.year < b.year || (a.year == b.year && (a.month < b.month || (a.month == b.month && a.day < b.day)))
    ensures DayNumber(a) < DayNumber(b)
  {
    DayInYear(a);
    DayInYear(b);
    if a.year < b.year {
      DayFromYearGrows(a.year, b.year);
    } else {
      DayNumberOfValid(a);
      DayNumberOfValid(b);
      if a.month < b.month {
        DaysBeforeMonthGrows(a.year, a.month, b.month);
      }
    }
  }

  /** The time value of valid components follows their lexicographic order, so
      distinct valid components never give the same instant. */
  lemma CivilTimeOrder(a: Civil, b: Civil)
    requires ValidCivil(a) && ValidCivil(b)
    ensures CivilBefore(a, b) <==> CivilTime(a) < CivilTime(b)
    ensures a == b <==> CivilTime(a) == CivilTime(b)
  {
    if a.year < b.year || (a.year == b.year && (a.month < b.month || (a.month == b.month && a.day < b.day))) {
      DayNumberOrder(a, b);
    } else if b.year < a.year || (a.year == b.year && (b.month < a.month || (a.month == b.month && b.day < a.day))) {
      DayNumberOrder(b, a);
    }
    var da, db := DayNumber(a), DayNumber(b);
    var ta, tb := MakeTime(a.hour, a.minute), MakeTime(b.hour, b.minute);
    assert 0 <= ta < MsPerDay && 0 <= tb < MsPerDay;
    if da < db {
      assert da * MsPerDay + MsPerDay <= db * MsPerDay;
    } else if db < da {
      assert db * MsPerDay + MsPerDay <= da * MsPerDay;
    }
  }

  lemma StartOfDayOffset(d: int, tod: int)
    requires 0 <= tod < MsPerDay
    ensures StartOfDay(MakeDate(d, tod)) == d * MsPerDay
  {
    assert (d * MsPerDay + tod) % MsPerDay == tod;
  }

  /** A valid instant starts its day at its day number. */
  lemma StartOfCivilDay(c: Civil)
    requires ValidCivil(c)
    ensures StartOfDay(CivilTime(c)) == DayNumber(c) * MsPerDay
  {
    StartOfDayOffset(DayNumber(c), MakeTime(c.hour, c.minute));
  }
}
