/**
 * Proleptic Gregorian calendar dates and months, as Python's datetime has them
 * (years 1 through 9999), with the one piece of date arithmetic the application
 * performs: stepping back one day from the first day of a month.
 */
module Calendar {

  datatype Date = Date(year: int, month: int, day: int)

  datatype YearMonth = YearMonth(year: int, month: int)

  predicate IsLeapYear(y: int) {
    y % 4 == 0 && (y % 100 != 0 || y % 400 == 0)
  }

  function DaysInMonth(y: int, m: int): (n: int)
    requires 1 <= m <= 12
    ensures 28 <= n <= 31
    ensures n == 29 <==> m == 2 && IsLeapYear(y)
  {
    if m == 2 then (if IsLeapYear(y) then 29 else 28)
    else if m == 4 || m == 6 || m == 9 || m == 11 then 30
    else 31
  }

  /** A real calendar date in the range Python's datetime accepts. */
  predicate ValidDate(d: Date) {
    1 <= d.year <= 9999 && 1 <= d.month <= 12 && 1 <= d.day <= DaysInMonth(d.year, d.month)
  }

  predicate ValidYearMonth(ym: YearMonth) {
    1 <= ym.year <= 9999 && 1 <= ym.month <= 12
  }

  /** Chronological order of dates (datetime comparison). */
  predicate DateLe(a: Date, b: Date) {
    a.year < b.year || (a.year == b.year && (a.month < b.month || (a.month == b.month && a.day <= b.day)))
  }

  predicate DateLt(a: Date, b: Date) {
    DateLe(a, b) && a != b
  }

  /** Number of months since the start of year 0: consecutive months differ by one. */
  function MonthIndex(ym: YearMonth): int {
    ym.year * 12 + ym.month - 1
  }

  /**
   * The day before `d` (datetime minus timedelta(days=1)). The result is the
   * immediate predecessor of `d` among real dates: nothing valid lies strictly between.
   * 0001-01-01 has no predecessor in datetime's range.
   */
  function DayBefore(d: Date): (r: Date)
    requires ValidDate(d) && d != Date(1, 1, 1)
    ensures ValidDate(r) && DateLt(r, d)
    ensures forall x :: ValidDate(x) && DateLt(r, x) ==> DateLe(d, x)
  {
    if d.day > 1 then Date(d.year, d.month, d.day - 1)
    else if d.month > 1 then Date(d.year, d.month - 1, DaysInMonth(d.year, d.month - 1))
    else Date(d.year - 1, 12, 31)
  }

  /**
   * The month before `ym`, computed as the application does: the month of the
   * day before the first day of `ym`.
   */
  function PreviousMonth(ym: YearMonth): (r: YearMonth)
    requires ValidYearMonth(ym) && ym != YearMonth(1, 1)
    ensures ValidYearMonth(r)
    ensures ym.month > 1 ==> r == YearMonth(ym.year, ym.month - 1)
    ensures ym.month == 1 ==> r == YearMonth(ym.year - 1, 12)
    ensures MonthIndex(r) + 1 == MonthIndex(ym)
  {
    var lastDay := DayBefore(Date(ym.year, ym.month, 1));
    YearMonth(lastDay.year, lastDay.month)
  }

  /** The previous month is the month that the last day before `ym` belongs to, and that day is its last. */
  lemma PreviousMonthEndsTheDayBefore(ym: YearMonth)
    requires ValidYearMonth(ym) && ym != YearMonth(1, 1)
    ensures var p := PreviousMonth(ym);
            DayBefore(Date(ym.year, ym.month, 1)) == Date(p.year, p.month, DaysInMonth(p.year, p.month))
  {
  }
}
