/** Local civil time in the fixed time zone the term table is written in.

    An instant is a day index plus the seconds elapsed since local midnight.
    Day 0 is 0001-01-01 of the proleptic Gregorian calendar, which is a
    Monday, so the weekday of a day is simply its index modulo 7.
 */
module Civil {

  /** Seconds since local midnight. */
  type Second = s: nat | s < 86400

  /** 0 is Monday, 1 is Tuesday, ..., 6 is Sunday. */
  type DayOfWeek = w: nat | w < 7

  const Monday: DayOfWeek := 0

  datatype Instant = Instant(day: int, sec: Second)

  /** The first instant of a day. */
  function Midnight(day: int): Instant {
    Instant(day, 0)
  }

  /** `a <= b` on instants: by day first, then by time of day. */
  predicate Le(a: Instant, b: Instant) {
    a.day < b.day || (a.day == b.day && a.sec <= b.sec)
  }

  /** `a < b` on instants. */
  predicate Lt(a: Instant, b: Instant) {
    Le(a, b) && a != b
  }

  function Weekday(day: int): DayOfWeek {
    day % 7
  }

  /** The Monday of the week that contains `day`. */
  function MondayOnOrBefore(day: int): (m: int)
    ensures Weekday(m) == Monday
    ensures m <= day < m + 7
  {
    day - Weekday(day)
  }

  /** The first Monday that is not earlier than `day`. */
  function MondayOnOrAfter(day: int): (m: int)
    ensures Weekday(m) == Monday
    ensures day <= m < day + 7
  {
    if Weekday(day) == Monday then day else day + (7 - Weekday(day))
  }

  /** Monday-based week index: days 7k .. 7k+6 form week k. */
  function WeekIndex(day: int): int {
    day / 7
  }

  /** `Le` is a total order on instants. */
  lemma LeTotalOrder(a: Instant, b: Instant, c: Instant)
    ensures Le(a, a)
    ensures Le(a, b) && Le(b, a) ==> a == b
    ensures Le(a, b) && Le(b, c) ==> Le(a, c)
    ensures Le(a, b) || Le(b, a)
  {
  }

  /** There is exactly one Monday in any seven consecutive days; this is
      the one `MondayOnOrBefore` finds. */
  lemma MondayOnOrBeforeUnique(day: int, m: int)
    requires Weekday(m) == Monday
    requires m <= day < m + 7
    ensures m == MondayOnOrBefore(day)
  {
    var m' := MondayOnOrBefore(day);
    assert m == 7 * (m / 7);
    assert m' == 7 * (m' / 7);
  }

  /** The same uniqueness for the Monday reached going forward. */
  lemma MondayOnOrAfterUnique(day: int, m: int)
    requires Weekday(m) == Monday
    requires day <= m < day + 7
    ensures m == MondayOnOrAfter(day)
  {
    var m' := MondayOnOrAfter(day);
    assert m == 7 * (m / 7);
    assert m' == 7 * (m' / 7);
  }

  /** The week index counts Mondays: week k starts on day 7k, so two days
      share a week index exactly when they share a Monday. */
  lemma WeekIndexIsMonday(day: int)
    ensures 7 * WeekIndex(day) == MondayOnOrBefore(day)
  {
  }

  /** The Gregorian leap-year rule. */
  predicate IsLeapYear(y: int) {
    (y % 4 == 0 && y % 100 != 0) || y % 400 == 0
  }

  function DaysInMonth(y: int, m: int): nat
    requires 1 <= m <= 12
  {
    if m == 2 then (if IsLeapYear(y) then 29 else 28)
    else if m == 4 || m == 6 || m == 9 || m == 11 then 30
    else 31
  }

  predicate ValidDate(y: int, m: int, d: int) {
    1 <= m <= 12 && 1 <= d <= DaysInMonth(y, m)
  }

  /** Day index of the calendar date y-m-d (proleptic Gregorian), counting
      from 0001-01-01. Years are shifted to start in March so that the leap
      day is the last day of the shifted year; eras are 400 years long. */
  function DayNumber(y: int, m: int, d: int): int
    requires ValidDate(y, m, d)
  {
    var y' := if m <= 2 then y - 1 else y;
    var era := y' / 400;
    var yoe := y' - era * 400;
    var mp := (m + 9) % 12;
    var doy := (153 * mp + 2) / 5 + d - 1;
    var doe := yoe * 365 + yoe / 4 - yoe / 100 + doy;
    era * 146097 + doe - 306
  }

  /** The epoch is 0001-01-01 and it is a Monday; consecutive days of a
      month get consecutive indices, and a sample of month and year ends
      roll over by exactly one day. */
  lemma DayNumberFacts()
    ensures DayNumber(1, 1, 1) == 0 && Weekday(DayNumber(1, 1, 1)) == Monday
    ensures forall y, m, d :: ValidDate(y, m, d) && d < DaysInMonth(y, m) ==>
      DayNumber(y, m, d + 1) == DayNumber(y, m, d) + 1
    ensures DayNumber(2023, 12, 1) + 1 == DayNumber(2023, 12, 2)
    ensures DayNumber(2024, 2, 29) + 1 == DayNumber(2024, 3, 1)
    ensures DayNumber(2023, 2, 28) + 1 == DayNumber(2023, 3, 1)
    ensures DayNumber(2024, 12, 31) + 1 == DayNumber(2025, 1, 1)
  {
  }
}
