/** Calendar dates as Python's `datetime.date` has them: the proleptic
    Gregorian calendar over years 1 to 9999, compared chronologically. */
module Dates {
  import opened Wrappers

  datatype Date = Date(year: int, month: int, day: int)

  /** `datetime.MINYEAR` and `datetime.MAXYEAR`. */
  const MinYear: int := 1
  const MaxYear: int := 9999

  predicate IsLeapYear(y: int) {
    y % 4 == 0 && (y % 100 != 0 || y % 400 == 0)
  }

  function DaysInMonth(y: int, m: int): (n: int)
    requires 1 <= m <= 12
    ensures 28 <= n <= 31
    ensures n == 29 <==> m == 2 && IsLeapYear(y)
  {
    if m == 2 then (if IsLeapYear(y) then 29 else 28)
    else if m == 4 || m == 6 || m == 9 || m == 11 then 30
    else 31
  }

  /** The dates `datetime.date(year, month, day)` accepts without raising. */
  predicate ValidDate(d: Date) {
    && MinYear <= d.year <= MaxYear
    && 1 <= d.month <= 12
    && 1 <= d.day <= DaysInMonth(d.year, d.month)
  }

  /** `a < b` on dates: chronological order, which for valid dates is the
      lexicographic order of (year, month, day). */
  predicate Before(a: Date, b: Date) {
    a.year < b.year
    || (a.year == b.year && a.month < b.month)
    || (a.year == b.year && a.month == b.month && a.day < b.day)
  }

  /** Same month and day, whatever the year. */
  predicate SameDayOfYear(a: Date, b: Date) {
    a.month == b.month && a.day == b.day
  }

  /** Before is a strict total order. */
  lemma BeforeTotal(a: Date, b: Date)
    ensures !(Before(a, b) && Before(b, a))
    ensures a == b || Before(a, b) || Before(b, a)
  {
  }

  lemma BeforeTransitive(a: Date, b: Date, c: Date)
    requires Before(a, b) && Before(b, c)
    ensures Before(a, c)
  {
  }

  /** `d.replace(year=y)`: the same month and day in year y, or None where
      Python raises ValueError (a 29 February moved to a common year, or a
      year outside 1..9999). */
  function ReplaceYear(d: Date, y: int): (r: Option<Date>)
    ensures r.Some? ==> ValidDate(r.value) && r.value.year == y && SameDayOfYear(r.value, d)
    ensures ValidDate(d) ==>
      (r.None? <==> y < MinYear || MaxYear < y || (d.month == 2 && d.day == 29 && !IsLeapYear(y)))
  {
    var moved := Date(y, d.month, d.day);
    if ValidDate(moved) then Some(moved) else None
  }

  /** English month names, the C locale's `strftime('%B')`. */
  function MonthName(m: int): (s: string)
    requires 1 <= m <= 12
    ensures |s| >= 3
  {
    ["January", "February", "March", "April", "May", "June", "July",
     "August", "September", "October", "November", "December"][m - 1]
  }
}
