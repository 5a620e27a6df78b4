/**
 * Local calendar dates and times, standing for the JavaScript `Date`
 * the scraper reads the clock into, and the timestamps it produces.
 */
module Calendar {

  datatype Date = Date(year: int, month: int, day: int)

  /** A local date and time of day, as `new Date()` would report through its getters. */
  datatype DateTime = DateTime(date: Date, hour: int, minute: int, second: int, millis: int)

  /**
   * A publication or creation timestamp as the scraper stores it: either
   * `toISOString()` of a `Date` whose local fields are `at` (the conversion
   * to UTC is not modelled), or a string passed through as is.
   */
  datatype Stamp = Iso(at: DateTime) | Literal(text: string)

  /** Leap years of the proleptic Gregorian calendar that `Date` uses. */
  predicate IsLeapYear(y: int) {
    y % 4 == 0 && (y % 100 != 0 || y % 400 == 0)
  }

  function DaysInMonth(y: int, m: int): (n: int)
    requires 1 <= m <= 12
    ensures 28 <= n <= 31
  {
    if m == 2 then (if IsLeapYear(y) then 29 else 28)
    else if m == 4 || m == 6 || m == 9 || m == 11 then 30
    else 31
  }

  predicate ValidDate(d: Date) {
    1 <= d.month <= 12 && 1 <= d.day <= DaysInMonth(d.year, d.month)
  }

  /** The calendar day after `d`. */
  function NextDay(d: Date): (n: Date)
    requires ValidDate(d)
    ensures ValidDate(n)
  {
    if d.day < DaysInMonth(d.year, d.month) then Date(d.year, d.month, d.day + 1)
    else if d.month < 12 then Date(d.year, d.month + 1, 1)
    else Date(d.year + 1, 1, 1)
  }

  /**
   * `date.setDate(date.getDate() - 1)`: the calendar day before `d`,
   * crossing month and year boundaries; the day after it is `d` again.
   */
  function PreviousDay(d: Date): (p: Date)
    requires ValidDate(d)
    ensures ValidDate(p)
    ensures NextDay(p) == d
  {
    if d.day > 1 then Date(d.year, d.month, d.day - 1)
    else if d.month > 1 then Date(d.year, d.month - 1, DaysInMonth(d.year, d.month - 1))
    else Date(d.year - 1, 12, 31)
  }

  /** Going forward one day and back one day returns to the same date. */
  lemma PreviousOfNext(d: Date)
    requires ValidDate(d)
    ensures PreviousDay(NextDay(d)) == d
  {
  }

  /** Distinct dates have distinct previous days. */
  lemma PreviousDayInjective(a: Date, b: Date)
    requires ValidDate(a) && ValidDate(b)
    requires PreviousDay(a) == PreviousDay(b)
    ensures a == b
  {
    assert NextDay(PreviousDay(a)) == a;
  }
}
