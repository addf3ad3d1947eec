/** Proleptic Gregorian dates as Python's `datetime.date` has them: years
    1..9999, the Gregorian leap rule, and day ordinals (0001-01-01 is day 1). */
module Calendar {
  import opened Wrappers

  datatype Date = Date(year: int, month: int, day: int)

  const MinYear := 1
  const MaxYear := 9999

  predicate IsLeapYear(y: int)
  {
    y % 4 == 0 && (y % 100 != 0 || y % 400 == 0)
  }

  function DaysInMonth(y: int, m: int): (n: int)
    requires 1 <= m <= 12
    ensures 28 <= n <= 31
  {
    if m == 2 then (if IsLeapYear(y) then 29 else 28)
    else if m == 4 || m == 6 || m == 9 || m == 11 then 30
    else 31
  }

  function DaysInYear(y: int): int
  {
    if IsLeapYear(y) then 366 else 365
  }

  /** A calendar-valid (year, month, day): what `strptime(value, "%Y-%m-%d")`
      accepts once the text is split into its three numbers. */
  predicate ValidDate(d: Date)
  {
    MinYear <= d.year <= MaxYear && 1 <= d.month <= 12 && 1 <= d.day <= DaysInMonth(d.year, d.month)
  }

  type CalendarDate = d: Date | ValidDate(d) witness Date(1, 1, 1)

  /** Days of the non-leap year before the first of each month. */
  const CumulativeDays: seq<int> := [0, 31, 59, 90, 120, 151, 181, 212, 243, 273, 304, 334]

  function DaysBeforeYear(y: int): int
    requires y >= 1
  {
    var p := y - 1;
    365 * p + p / 4 - p / 100 + p / 400
  }

  function DaysBeforeMonth(y: int, m: int): int
    requires 1 <= m <= 12
  {
    CumulativeDays[m - 1] + (if m > 2 && IsLeapYear(y) then 1 else 0)
  }

  function Ordinal(d: CalendarDate): int
  {
    DaysBeforeYear(d.year) + DaysBeforeMonth(d.year, d.month) + d.day
  }

  datatype DateError = YearOutOfRange | DayOutOfRange

  /** `d.replace(year=y)`: raises when y leaves 1..9999 or the day does not
      exist in that year (29 February of a common year). */
  function Replace(d: CalendarDate, y: int): (r: Result<CalendarDate, DateError>)
    ensures r.Success? ==> r.value == Date(y, d.month, d.day)
  {
    if !(MinYear <= y <= MaxYear) then Failure(YearOutOfRange)
    else if d.day > DaysInMonth(y, d.month) then Failure(DayOutOfRange)
    else Success(Date(y, d.month, d.day))
  }

  /** Only 29 February depends on the year: it exists exactly in leap years. */
  lemma LeapDayValid(y: int)
    requires MinYear <= y <= MaxYear
    ensures ValidDate(Date(y, 2, 29)) <==> IsLeapYear(y)
  {
  }

  /** Replacing the year of 29 February fails exactly when the target year is
      not a leap year (or out of range); every other date moves to any year in range. */
  lemma ReplaceFails(d: CalendarDate, y: int)
    ensures Replace(d, y).Failure? <==>
              !(MinYear <= y <= MaxYear) || (d.month == 2 && d.day == 29 && !IsLeapYear(y))
  {
  }

  lemma DivStep(p: int)
    requires p >= 0
    ensures (p + 1) / 4 - p / 4 == (if (p + 1) % 4 == 0 then 1 else 0)
    ensures (p + 1) / 100 - p / 100 == (if (p + 1) % 100 == 0 then 1 else 0)
    ensures (p + 1) / 400 - p / 400 == (if (p + 1) % 400 == 0 then 1 else 0)
  {
  }

  /** A year contributes its own length to the running day count. */
  lemma DaysBeforeNextYear(y: int)
    requires y >= 1
    ensures DaysBeforeYear(y + 1) == DaysBeforeYear(y) + DaysInYear(y)
  {
    DivStep(y - 1);
    Divides(y);
    var p := y - 1;
    calc {
      DaysBeforeYear(y + 1) - DaysBeforeYear(y);
      365 + (y / 4 - p / 4) - (y / 100 - p / 100) + (y / 400 - p / 400);
    }
  }

  lemma Divides(y: int)
    ensures y % 400 == 0 ==> y % 100 == 0
    ensures y % 100 == 0 ==> y % 4 == 0
  {
    if y % 400 == 0 {
      var q := y / 400;
      assert y == 100 * (4 * q);
    }
    if y % 100 == 0 {
      var q := y / 100;
      assert y == 4 * (25 * q);
    }
  }

  lemma MonthStep(y: int, m: int)
    requires 1 <= m < 12
    ensures DaysBeforeMonth(y, m + 1) == DaysBeforeMonth(y, m) + DaysInMonth(y, m)
  {
  }

  /** Within a year the day of the year runs from 1 to the length of the year. */
  lemma DayOfYearBounds(d: CalendarDate)
    ensures 1 <= DaysBeforeMonth(d.year, d.month) + d.day <= DaysInYear(d.year)
  {
  }

  /** Later in the year means a larger day of the year. */
  lemma DayOfYearMonotone(y: int, m1: int, d1: int, m2: int, d2: int)
    requires ValidDate(Date(y, m1, d1)) && ValidDate(Date(y, m2, d2))
    requires m1 < m2 || (m1 == m2 && d1 < d2)
    ensures DaysBeforeMonth(y, m1) + d1 < DaysBeforeMonth(y, m2) + d2
  {
    if m1 < m2 {
      MonthStep(y, m1);
      assert DaysBeforeMonth(y, m1 + 1) <= DaysBeforeMonth(y, m2);
    }
  }

  /** Two dates of one year have the same ordinal only if they are the same date. */
  lemma OrdinalInjectiveInYear(a: CalendarDate, b: CalendarDate)
    requires a.year == b.year && Ordinal(a) == Ordinal(b)
    ensures a == b
  {
    if a.month < b.month || (a.month == b.month && a.day < b.day) {
      DayOfYearMonotone(a.year, a.month, a.day, b.month, b.day);
    } else if b.month < a.month || (a.month == b.month && b.day < a.day) {
      DayOfYearMonotone(a.year, b.month, b.day, a.month, a.day);
    }
  }

  /** The ordinal of a date lies inside the block of days of its year. */
  lemma OrdinalInYear(d: CalendarDate)
    ensures DaysBeforeYear(d.year) < Ordinal(d) <= DaysBeforeYear(d.year + 1)
  {
    DayOfYearBounds(d);
    DaysBeforeNextYear(d.year);
  }

  /** The same month and day one year later is one year-length further on:
      the length of this year up to February, of the next year from March. */
  lemma OrdinalNextYear(a: CalendarDate, b: CalendarDate)
    requires b == Date(a.year + 1, a.month, a.day)
    ensures Ordinal(b) - Ordinal(a) == (if a.month <= 2 then DaysInYear(a.year) else DaysInYear(b.year))
    ensures 365 <= Ordinal(b) - Ordinal(a) <= 366
  {
    DaysBeforeNextYear(a.year);
  }
}
