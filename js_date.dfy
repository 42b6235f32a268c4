/** The part of ECMAScript's `Date` that `new Date(year, monthIndex, day)` and
    `new Date(0)` use, in whole days. A date's time value is kept as the
    number of days since 1970-01-01 (the epoch); every date the page builds
    is at midnight, so the time of day is always zero. `InvalidDate` is the
    NaN time value. Dafny's `/` and `%` by a positive constant are floor
    division and a non-negative remainder, as the ECMAScript `floor` and
    `modulo` of the date algorithms are. */
module JsDate {

  datatype DateValue = InvalidDate | DateAt(day: int)

  /** `new Date(0)`. */
  const Epoch: DateValue := DateAt(0)

  /** TimeClip keeps time values of at most 8.64e15 ms, that is 1e8 days,
      either side of the epoch. */
  const MaxDay: int := 100000000

  /** The Date constructor's MakeFullYear: years 0 to 99 mean 1900 to 1999. */
  function MakeFullYear(y: int): (full: int)
    ensures 0 <= y <= 99 ==> 1900 <= full <= 1999 && full % 100 == y
    ensures !(0 <= y <= 99) ==> full == y
  {
    if 0 <= y <= 99 then 1900 + y else y
  }

  predicate InLeapYear(y: int) {
    y % 4 == 0 && (y % 100 != 0 || y % 400 == 0)
  }

  function DaysInYear(y: int): int {
    if InLeapYear(y) then 366 else 365
  }

  /** Day number of the first day of year `y` (ECMAScript DayFromYear). */
  function DayFromYear(y: int): int {
    365 * (y - 1970) + (y - 1969) / 4 - (y - 1901) / 100 + (y - 1601) / 400
  }

  function DaysInMonth(y: int, m: int): int
    requires 0 <= m < 12
  {
    if m == 1 then (if InLeapYear(y) then 29 else 28)
    else if m == 3 || m == 5 || m == 8 || m == 10 then 30
    else 31
  }

  /** Days in year `y` before the first of month `m` (0 is January). */
  function MonthStart(y: int, m: int): int
    requires 0 <= m < 12
  {
    [0, 31, 59, 90, 120, 151, 181, 212, 243, 273, 304, 334][m]
      + (if m >= 2 && InLeapYear(y) then 1 else 0)
  }

  /** ECMAScript MakeDay: month and day overflow carry into the next month
      and year (`MakeDay(2023, 1, 31)` is 3 March 2023). */
  function MakeDay(year: int, month: int, date: int): (day: int)
    ensures IsCalendarDate(year, month, date) ==> DayFromYear(year) <= day < DayFromYear(year + 1)
  {
    var ym := year + month / 12;
    var mn := month % 12;
    CalendarDayInYear(year, month, date);
    DayFromYear(ym) + MonthStart(ym, mn) + date - 1
  }

  lemma CalendarDayInYear(y: int, m: int, d: int)
    ensures IsCalendarDate(y, m, d) ==>
      DayFromYear(y) <= DayFromYear(y + m / 12) + MonthStart(y + m / 12, m % 12) + d - 1 < DayFromYear(y + 1)
  {
    if IsCalendarDate(y, m, d) {
      assert m / 12 == 0 && m % 12 == m;
      MonthFits(y, m);
      DayFromYearNext(y);
    }
  }

  /** `new Date(year, monthIndex, day)` for integer arguments. A valid result
      lies within TimeClip's range; a real calendar day of a four-digit year
      is that day, and years 0 to 99 stand for 1900 to 1999. */
  function NewDate(year: int, monthIndex: int, day: int): (d: DateValue)
    ensures d.DateAt? ==> -MaxDay <= d.day <= MaxDay
    ensures 100 <= year <= 9999 && IsCalendarDate(year, monthIndex, day) ==>
      d == DateAt(MakeDay(year, monthIndex, day))
    ensures 0 <= year <= 99 && IsCalendarDate(1900 + year, monthIndex, day) ==>
      d == DateAt(MakeDay(1900 + year, monthIndex, day))
  {
    InClipRange(year, monthIndex, day);
    InClipRange(1900 + year, monthIndex, day);
    var t := MakeDay(MakeFullYear(year), monthIndex, day);
    if -MaxDay <= t <= MaxDay then DateAt(t) else InvalidDate
  }

  /** Days of four-digit years lie well within the range TimeClip keeps. */
  lemma InClipRange(y: int, m: int, d: int)
    ensures 100 <= y <= 9999 && IsCalendarDate(y, m, d) ==> -MaxDay <= MakeDay(y, m, d) <= MaxDay
  {
    if 100 <= y <= 9999 && IsCalendarDate(y, m, d) {
      DayFromYearGrows(y, 10000);
      if y > 100 {
        DayFromYearGrows(100, y);
      }
    }
  }

  /** A real calendar day: month 0 to 11, day within the month. */
  predicate IsCalendarDate(y: int, m: int, d: int) {
    0 <= m < 12 && 1 <= d <= DaysInMonth(y, m)
  }

  /** `(y1, m1, d1)` comes strictly before `(y2, m2, d2)` in the calendar. */
  predicate CalendarBefore(y1: int, m1: int, d1: int, y2: int, m2: int, d2: int) {
    y1 < y2 || (y1 == y2 && (m1 < m2 || (m1 == m2 && d1 < d2)))
  }

  /** Each year is as long as the gap to the next year's first day. */
  lemma DayFromYearNext(y: int)
    ensures DayFromYear(y + 1) == DayFromYear(y) + DaysInYear(y)
  {
    FloorStep4(y - 1969);
    FloorStep100(y - 1901);
    FloorStep400(y - 1601);
    ShiftedRemainders(y);
    LeapDivisors(y);
    var c4 := if y % 4 == 0 then 1 else 0;
    var c100 := if y % 100 == 0 then 1 else 0;
    var c400 := if y % 400 == 0 then 1 else 0;
    assert DaysInYear(y) == 365 + c4 - c100 + c400;
    assert DayFromYear(y + 1) == 365 * (y - 1969) + (y - 1968) / 4 - (y - 1900) / 100 + (y - 1600) / 400;
    assert (y - 1968) / 4 == (y - 1969) / 4 + c4;
    assert (y - 1900) / 100 == (y - 1901) / 100 + c100;
    assert (y - 1600) / 400 == (y - 1601) / 400 + c400;
  }

  lemma ShiftedRemainders(y: int)
    ensures (y - 1968) % 4 == y % 4
    ensures (y - 1900) % 100 == y % 100
    ensures (y - 1600) % 400 == y % 400
  {
    Unique4(y - 1968, y / 4 - 492, y % 4);
    Unique100(y - 1900, y / 100 - 19, y % 100);
    Unique400(y - 1600, y / 400 - 4, y % 400);
  }

  /** Floor division and remainder are the unique quotient and remainder. */
  lemma Unique4(x: int, q: int, r: int)
    requires x == 4 * q + r && 0 <= r < 4
    ensures x / 4 == q && x % 4 == r
  {
  }

  lemma Unique100(x: int, q: int, r: int)
    requires x == 100 * q + r && 0 <= r < 100
    ensures x / 100 == q && x % 100 == r
  {
  }

  lemma Unique400(x: int, q: int, r: int)
    requires x == 400 * q + r && 0 <= r < 400
    ensures x / 400 == q && x % 400 == r
  {
  }

  lemma FloorStep4(x: int)
    ensures (x + 1) / 4 == x / 4 + (if (x + 1) % 4 == 0 then 1 else 0)
  {
  }

  lemma FloorStep100(x: int)
    ensures (x + 1) / 100 == x / 100 + (if (x + 1) % 100 == 0 then 1 else 0)
  {
  }

  lemma FloorStep400(x: int)
    ensures (x + 1) / 400 == x / 400 + (if (x + 1) % 400 == 0 then 1 else 0)
  {
  }

  lemma LeapDivisors(y: int)
    ensures y % 400 == 0 ==> y % 100 == 0
    ensures y % 100 == 0 ==> y % 4 == 0
  {
  }

  /** Every day of year `y1` comes before the first day of a later year. */
  lemma {:induction false} DayFromYearGrows(y1: int, y2: int)
    requires y1 < y2
    ensures DayFromYear(y1) + DaysInYear(y1) <= DayFromYear(y2)
    decreases y2 - y1
  {
    DayFromYearNext(y1);
    if y1 + 1 < y2 {
      DayFromYearGrows(y1 + 1, y2);
    }
  }

  /** The days of a year are numbered from its first day, within its length. */
  lemma WithinYear(y: int, m: int, d: int)
    requires IsCalendarDate(y, m, d)
    ensures MakeDay(y, m, d) == DayFromYear(y) + MonthStart(y, m) + d - 1
    ensures DayFromYear(y) <= MakeDay(y, m, d) < DayFromYear(y) + DaysInYear(y)
  {
    assert m / 12 == 0 && m % 12 == m;
    MonthFits(y, m);
  }

  lemma MonthFits(y: int, m: int)
    requires 0 <= m < 12
    ensures 0 <= MonthStart(y, m) && MonthStart(y, m) + DaysInMonth(y, m) <= DaysInYear(y)
  {
  }

  /** Within one year, a later month starts after every day of an earlier one. */
  lemma MonthsOrdered(y: int, m1: int, d1: int, m2: int)
    requires IsCalendarDate(y, m1, d1) && m1 < m2 < 12
    ensures MonthStart(y, m1) + d1 - 1 < MonthStart(y, m2)
  {
  }

  /** On real calendar days, day numbers are ordered exactly as the calendar
      is, so comparing `(year, month, day)` keys and comparing the dates the
      page builds agree. */
  lemma CalendarOrder(y1: int, m1: int, d1: int, y2: int, m2: int, d2: int)
    requires IsCalendarDate(y1, m1, d1) && IsCalendarDate(y2, m2, d2)
    ensures CalendarBefore(y1, m1, d1, y2, m2, d2) <==> MakeDay(y1, m1, d1) < MakeDay(y2, m2, d2)
    ensures (y1, m1, d1) == (y2, m2, d2) <==> MakeDay(y1, m1, d1) == MakeDay(y2, m2, d2)
  {
    if CalendarBefore(y1, m1, d1, y2, m2, d2) {
      EarlierDay(y1, m1, d1, y2, m2, d2);
    } else if CalendarBefore(y2, m2, d2, y1, m1, d1) {
      EarlierDay(y2, m2, d2, y1, m1, d1);
    }
  }

  lemma EarlierDay(y1: int, m1: int, d1: int, y2: int, m2: int, d2: int)
    requires IsCalendarDate(y1, m1, d1) && IsCalendarDate(y2, m2, d2)
    requires CalendarBefore(y1, m1, d1, y2, m2, d2)
    ensures MakeDay(y1, m1, d1) < MakeDay(y2, m2, d2)
  {
    WithinYear(y1, m1, d1);
    WithinYear(y2, m2, d2);
    if y1 < y2 {
      DayFromYearGrows(y1, y2);
    } else if m1 < m2 {
      MonthsOrdered(y1, m1, d1, m2);
    }
  }

  /** The day after the last of a month is the first of the next month. */
  lemma DayOverflow(y: int, m: int)
    requires 0 <= m < 12
    ensures MakeDay(y, m, DaysInMonth(y, m) + 1) == (if m < 11 then MakeDay(y, m + 1, 1) else MakeDay(y + 1, 0, 1))
  {
    assert m / 12 == 0 && m % 12 == m;
    if m < 11 {
      assert (m + 1) / 12 == 0 && (m + 1) % 12 == m + 1;
      MonthStartNext(y, m);
    } else {
      assert MonthStart(y, 11) + DaysInMonth(y, 11) == DaysInYear(y);
      DayFromYearNext(y);
    }
  }

  lemma MonthStartNext(y: int, m: int)
    requires 0 <= m < 11
    ensures MonthStart(y, m + 1) == MonthStart(y, m) + DaysInMonth(y, m)
  {
  }

  /** At day granularity, the first of January 1970 is day 0, the day of
      `new Date(0)` (the local time-zone offset is not modelled). */
  lemma EpochIsFirstOfJanuary1970()
    ensures NewDate(1970, 0, 1) == Epoch
  {
  }
}
