/** Calendar dates (java.time.LocalDate), instants (LocalDateTime) and Period.between(..).getYears(). */
module Dates {

  datatype Date = Date(year: int, month: int, day: int)

  predicate IsLeapYear(y: int)
  {
    y % 4 == 0 && (y % 100 != 0 || y % 400 == 0)
  }

  function DaysInMonth(y: int, m: int): int
  {
    if m == 2 then (if IsLeapYear(y) then 29 else 28)
    else if m == 4 || m == 6 || m == 9 || m == 11 then 30
    else 31
  }

  predicate IsCalendarDate(d: Date)
  {
    1 <= d.month <= 12 && 1 <= d.day <= DaysInMonth(d.year, d.month)
  }

  /** A LocalDate is always a real calendar date. */
  type LocalDate = d: Date | IsCalendarDate(d) witness Date(1970, 1, 1)

  /** A LocalDateTime reading; the core only stores and copies these. */
  datatype DateTime = DateTime(date: LocalDate, nanoOfDay: nat)

  /** Chronological order: a is on or before b (LocalDate.compareTo(b) <= 0). */
  predicate OnOrBefore(a: Date, b: Date)
  {
    a.year < b.year || (a.year == b.year && (a.month < b.month || (a.month == b.month && a.day <= b.day)))
  }

  /** Strictly before (LocalDate.isBefore). */
  predicate Before(a: Date, b: Date)
  {
    OnOrBefore(a, b) && a != b
  }

  /** Java's long division, which truncates toward zero. */
  function JavaDiv(a: int, b: int): int
    requires b > 0
  {
    if a >= 0 then a / b else -((-a) / b)
  }

  /**
   * Period.between(start, end).getYears(), following LocalDate.until: the difference in proleptic
   * months, corrected by one when the day of month goes the other way, divided by 12 toward zero.
   */
  function PeriodYears(start: LocalDate, end: LocalDate): int
  {
    var totalMonths := (end.year * 12 + end.month - 1) - (start.year * 12 + start.month - 1);
    var days := end.day - start.day;
    var months :=
      if totalMonths > 0 && days < 0 then totalMonths - 1
      else if totalMonths < 0 && days > 0 then totalMonths + 1
      else totalMonths;
    JavaDiv(months, 12)
  }

  /** The month and day of `a` fall earlier in the year than those of `b`. */
  predicate EarlierInYear(a: Date, b: Date)
  {
    a.month < b.month || (a.month == b.month && a.day < b.day)
  }

  /** Whole years elapsed: the year difference, less one if the anniversary has not yet come. */
  lemma WholeYearsElapsed(birth: LocalDate, today: LocalDate)
    requires OnOrBefore(birth, today)
    ensures PeriodYears(birth, today)
            == today.year - birth.year - (if EarlierInYear(today, birth) then 1 else 0)
  {
    var k := today.year - birth.year;
    var totalMonths := (today.year * 12 + today.month - 1) - (birth.year * 12 + birth.month - 1);
    assert totalMonths == 12 * k + (today.month - birth.month);
    var days := today.day - birth.day;
    var months := if totalMonths > 0 && days < 0 then totalMonths - 1 else totalMonths;
    var q := k - (if EarlierInYear(today, birth) then 1 else 0);
    assert 12 * q <= months < 12 * q + 12;
    DivideByTwelve(months, q);
  }

  lemma DivideByTwelve(a: int, q: int)
    requires 0 <= 12 * q <= a < 12 * q + 12
    ensures JavaDiv(a, 12) == q
  {
  }

  /** Age is monotone: one more day never makes anyone younger. */
  lemma PeriodYearsMonotone(birth: LocalDate, d1: LocalDate, d2: LocalDate)
    requires OnOrBefore(birth, d1) && OnOrBefore(d1, d2)
    ensures PeriodYears(birth, d1) <= PeriodYears(birth, d2)
  {
    WholeYearsElapsed(birth, d1);
    WholeYearsElapsed(birth, d2);
  }

  /** A birth date of 2000-01-01 gives 24 whole years on 2024-06-01. */
  lemma PeriodYearsExample()
    ensures PeriodYears(Date(2000, 1, 1), Date(2024, 6, 1)) == 24
    ensures PeriodYears(Date(2006, 6, 2), Date(2024, 6, 1)) == 17
    ensures PeriodYears(Date(2006, 6, 1), Date(2024, 6, 1)) == 18
  {
  }

  /** For a future date the count is negative and rounds toward zero: 2030-06-15 is -6 years from 2024-06-01. */
  lemma PeriodYearsFutureExample()
    ensures PeriodYears(Date(2030, 6, 15), Date(2024, 6, 1)) == -6
  {
  }

  /** Before the start date the count of whole years is never positive. */
  lemma PeriodYearsBeforeStart(start: LocalDate, end: LocalDate)
    requires Before(end, start)
    ensures PeriodYears(start, end) <= 0
  {
    var totalMonths := (end.year * 12 + end.month - 1) - (start.year * 12 + start.month - 1);
    assert totalMonths <= 0;
  }
}
