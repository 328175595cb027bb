/** An independent description of the proleptic Gregorian calendar: leap years,
    month lengths and the day that follows a given day. The day-number formula of
    the sidereal pipeline is checked against it. */
module Calendar {

  /** A calendar date; `month` is 1..12 and `day` 1..31 when the date is valid. */
  datatype Date = Date(year: int, month: int, day: int)

  /** A Gregorian leap year: divisible by 4, and not by 100 unless also by 400. */
  predicate IsLeapYear(year: int) {
    year % 4 == 0 && (year % 100 != 0 || year % 400 == 0)
  }

  /** Number of days in `month` of `year`. */
  function DaysInMonth(year: int, month: int): (n: int)
    requires 1 <= month <= 12
    ensures 28 <= n <= 31
    ensures month == 2 ==> (n == 29 <==> IsLeapYear(year))
    ensures month != 2 ==> (n == 30 <==> month in {4, 6, 9, 11})
  {
    if month == 2 then (if IsLeapYear(year) then 29 else 28)
    else if month == 4 || month == 6 || month == 9 || month == 11 then 30
    else 31
  }

  predicate Valid(d: Date) {
    1 <= d.month <= 12 && 1 <= d.day <= DaysInMonth(d.year, d.month)
  }

  /** Strict chronological order on dates. */
  predicate Before(d: Date, e: Date) {
    d.year < e.year
    || (d.year == e.year && d.month < e.month)
    || (d.year == e.year && d.month == e.month && d.day < e.day)
  }

  /** The calendar day after `d`. */
  function NextDay(d: Date): (e: Date)
    requires Valid(d)
    ensures Valid(e)
    ensures Before(d, e)
    ensures e.year == d.year || (e.year == d.year + 1 && e.month == 1 && e.day == 1)
  {
    if d.day < DaysInMonth(d.year, d.month) then Date(d.year, d.month, d.day + 1)
    else if d.month < 12 then Date(d.year, d.month + 1, 1)
    else Date(d.year + 1, 1, 1)
  }

  /** The date `n` days after `d`. */
  function AddDays(d: Date, n: nat): (e: Date)
    requires Valid(d)
    ensures Valid(e)
    ensures e.year >= d.year
    ensures n > 0 ==> Before(d, e)
    decreases n
  {
    if n == 0 then d else AddDays(NextDay(d), n - 1)
  }
}
