/**
  Calendar dates of the ISO (proleptic Gregorian) calendar, as java.time.LocalDate
  represents them: a year, a month and a day of the month. The view model compares
  dates (isAfter, isBefore), steps back a number of days (minusDays) and years
  (minusYears), and builds dates from their fields (LocalDate.of).

  DayIndex numbers the days consecutively; it is the reference against which
  the ordering and the day arithmetic are proved.
*/
module Calendar {

  datatype Date = Date(year: int, month: int, day: int)

  /** The year range of LocalDate (Year.MIN_VALUE and Year.MAX_VALUE). */
  const MinYear: int := -999_999_999
  const MaxYear: int := 999_999_999

  predicate IsLeapYear(y: int) {
    y % 4 == 0 && (y % 100 != 0 || y % 400 == 0)
  }

  function DaysInMonth(y: int, m: int): (n: int)
    requires 1 <= m <= 12
    ensures 28 <= n <= 31
    ensures n == 29 <==> m == 2 && IsLeapYear(y)
  {
    if m == 2 then (if IsLeapYear(y) then 29 else 28)
    else if m == 4 || m == 6 || m == 9 || m == 11 then 30
    else 31
  }

  function DaysInYear(y: int): int {
    if IsLeapYear(y) then 366 else 365
  }

  /** The month and day exist in the year (what LocalDate.of checks besides the year range). */
  predicate WellFormed(d: Date) {
    1 <= d.month <= 12 && 1 <= d.day <= DaysInMonth(d.year, d.month)
  }

  /** A value LocalDate can hold. */
  predicate ValidDate(d: Date) {
    WellFormed(d) && MinYear <= d.year <= MaxYear
  }

  /** a.isBefore(b): LocalDate compares year, then month, then day. */
  predicate Before(a: Date, b: Date) {
    a.year < b.year
    || (a.year == b.year && a.month < b.month)
    || (a.year == b.year && a.month == b.month && a.day < b.day)
  }

  /** a.isAfter(b) */
  predicate After(a: Date, b: Date) {
    Before(b, a)
  }

  /** The day before d. */
  function PrevDay(d: Date): (r: Date)
    requires WellFormed(d)
  {
    if d.day > 1 then Date(d.year, d.month, d.day - 1)
    else if d.month > 1 then Date(d.year, d.month - 1, DaysInMonth(d.year, d.month - 1))
    else Date(d.year - 1, 12, 31)
  }

  /** d.minusDays(n), one day at a time. */
  function MinusDays(d: Date, n: nat): (r: Date)
    requires WellFormed(d)
    ensures WellFormed(r)
    decreases n
  {
    if n == 0 then d
    else
      PrevDayWellFormed(d);
      MinusDays(PrevDay(d), n - 1)
  }

  /** d.minusYears(n): the same month, the day clamped to the length of that month. */
  function MinusYears(d: Date, n: nat): (r: Date)
    requires WellFormed(d)
    ensures WellFormed(r)
    ensures r.year == d.year - n && r.month == d.month
    ensures r.day == d.day || (r.day < d.day && r.day == DaysInMonth(r.year, r.month))
  {
    var y := d.year - n;
    var last := DaysInMonth(y, d.month);
    Date(y, d.month, if d.day <= last then d.day else last)
  }

  // ---------------------------------------------------------------------------
  // The day index: a consecutive numbering of all days (0000-01-01 is day 0).

  /** Number of days from 0000-01-01 to the first day of year y (negative for y < 0). */
  function DaysBeforeYear(y: int): int {
    365 * y + (y + 3) / 4 - (y + 99) / 100 + (y + 399) / 400
  }

  /** Number of days of year y before the first day of month m. */
  function DaysBeforeMonth(y: int, m: int): (n: int)
    requires 1 <= m <= 12
  {
    var common :=
      if m == 1 then 0 else if m == 2 then 31 else if m == 3 then 59
      else if m == 4 then 90 else if m == 5 then 120 else if m == 6 then 151
      else if m == 7 then 181 else if m == 8 then 212 else if m == 9 then 243
      else if m == 10 then 273 else if m == 11 then 304 else 334;
    if m > 2 && IsLeapYear(y) then common + 1 else common
  }

  function DayIndex(d: Date): int
    requires WellFormed(d)
  {
    DaysBeforeYear(d.year) + DaysBeforeMonth(d.year, d.month) + d.day - 1
  }

  lemma PrevDayWellFormed(d: Date)
    requires WellFormed(d)
    ensures WellFormed(PrevDay(d))
  {
  }

  /** One more year adds that year's length to the day count. */
  lemma DaysBeforeNextYear(y: int)
    ensures DaysBeforeYear(y + 1) == DaysBeforeYear(y) + DaysInYear(y)
  {
    QuarterStep(y);
    CenturyStep(y);
    QuadricentennialStep(y);
  }

  lemma QuarterStep(y: int)
    ensures (y + 4) / 4 == (y + 3) / 4 + (if y % 4 == 0 then 1 else 0)
  {
  }

  lemma CenturyStep(y: int)
    ensures (y + 100) / 100 == (y + 99) / 100 + (if y % 100 == 0 then 1 else 0)
  {
  }

  lemma QuadricentennialStep(y: int)
    ensures (y + 400) / 400 == (y + 399) / 400 + (if y % 400 == 0 then 1 else 0)
  {
  }

  lemma DaysBeforeMonthNext(y: int, m: int)
    requires 1 <= m < 12
    ensures DaysBeforeMonth(y, m + 1) == DaysBeforeMonth(y, m) + DaysInMonth(y, m)
  {
  }

  /** The day of the year of a well-formed date lies within its year. */
  lemma DayOfYearBounds(d: Date)
    requires WellFormed(d)
    ensures 0 <= DaysBeforeMonth(d.year, d.month) + d.day - 1 < DaysInYear(d.year)
  {
  }

  /** The day before a date has the index one less. */
  lemma PrevDayIndex(d: Date)
    requires WellFormed(d)
    ensures WellFormed(PrevDay(d)) && DayIndex(PrevDay(d)) == DayIndex(d) - 1
  {
    if d.day == 1 && d.month == 1 {
      DaysBeforeNextYear(d.year - 1);
    } else if d.day == 1 {
      DaysBeforeMonthNext(d.year, d.month - 1);
    }
  }

  /** minusDays(n) moves exactly n days back. */
  lemma {:induction false} MinusDaysIndex(d: Date, n: nat)
    requires WellFormed(d)
    ensures DayIndex(MinusDays(d, n)) == DayIndex(d) - n
    decreases n
  {
    if n > 0 {
      PrevDayIndex(d);
      MinusDaysIndex(PrevDay(d), n - 1);
    }
  }

  /** minusDays(n) moves back at most n years, and never forward. */
  lemma {:induction false} MinusDaysYear(d: Date, n: nat)
    requires WellFormed(d)
    ensures d.year - n <= MinusDays(d, n).year <= d.year
    decreases n
  {
    if n > 0 {
      PrevDayWellFormed(d);
      MinusDaysYear(PrevDay(d), n - 1);
    }
  }

  /** Years further apart are further apart in days. */
  lemma {:induction false} DaysBeforeYearMonotone(y1: int, y2: int)
    requires y1 < y2
    ensures DaysBeforeYear(y1) + DaysInYear(y1) <= DaysBeforeYear(y2)
    decreases y2 - y1
  {
    DaysBeforeNextYear(y1);
    if y1 + 1 < y2 {
      DaysBeforeYearMonotone(y1 + 1, y2);
    }
  }

  lemma DaysBeforeMonthMonotone(y: int, m1: int, m2: int)
    requires 1 <= m1 < m2 <= 12
    ensures DaysBeforeMonth(y, m1) + DaysInMonth(y, m1) <= DaysBeforeMonth(y, m2)
  {
  }

  /** isBefore is the order of the day index. */
  lemma BeforeIffIndexLess(a: Date, b: Date)
    requires WellFormed(a) && WellFormed(b)
    ensures Before(a, b) <==> DayIndex(a) < DayIndex(b)
  {
    if a.year < b.year {
      DayOfYearBounds(a);
      DayOfYearBounds(b);
      DaysBeforeYearMonotone(a.year, b.year);
    } else if b.year < a.year {
      DayOfYearBounds(a);
      DayOfYearBounds(b);
      DaysBeforeYearMonotone(b.year, a.year);
    } else if a.month < b.month {
      DaysBeforeMonthMonotone(a.year, a.month, b.month);
    } else if b.month < a.month {
      DaysBeforeMonthMonotone(a.year, b.month, a.month);
    }
  }

  /** Two well-formed dates with the same index are the same date. */
  lemma DayIndexInjective(a: Date, b: Date)
    requires WellFormed(a) && WellFormed(b)
    ensures DayIndex(a) == DayIndex(b) <==> a == b
  {
    BeforeIffIndexLess(a, b);
    BeforeIffIndexLess(b, a);
  }
}
