/** Calendar dates as java.time.LocalDate treats them: proleptic Gregorian
    (year, month, day) triples, compared chronologically. */
module Dates {

  datatype Date = Date(year: int, month: int, day: int)

  /** IsoChronology.isLeapYear. */
  predicate IsLeapYear(y: int) {
    y % 4 == 0 && (y % 100 != 0 || y % 400 == 0)
  }

  function DaysInMonth(y: int, m: int): (n: int)
    ensures 28 <= n <= 31
  {
    if m == 2 then (if IsLeapYear(y) then 29 else 28)
    else if m == 4 || m == 6 || m == 9 || m == 11 then 30
    else 31
  }

  /** A date LocalDate can represent (the year range is not bounded here). */
  predicate Valid(d: Date) {
    1 <= d.month <= 12 && 1 <= d.day <= DaysInMonth(d.year, d.month)
  }

  /** LocalDate.isBefore: earlier year, or same year and earlier month, or
      same month and earlier day. */
  predicate Before(a: Date, b: Date) {
    || a.year < b.year
    || (a.year == b.year && a.month < b.month)
    || (a.year == b.year && a.month == b.month && a.day < b.day)
  }

  /** Before is a strict total order on dates. */
  lemma BeforeIsStrictTotalOrder(a: Date, b: Date, c: Date)
    ensures !Before(a, a)
    ensures Before(a, b) ==> !Before(b, a)
    ensures Before(a, b) && Before(b, c) ==> Before(a, c)
    ensures a == b || Before(a, b) || Before(b, a)
  {
  }

  /** The day before, as LocalDate.minusDays(1) computes it. */
  function PrevDay(d: Date): (r: Date)
    requires Valid(d)
    ensures Valid(r) && Before(r, d)
  {
    if d.day > 1 then Date(d.year, d.month, d.day - 1)
    else if d.month > 1 then Date(d.year, d.month - 1, DaysInMonth(d.year, d.month - 1))
    else Date(d.year - 1, 12, 31)
  }

  /** The day after, as LocalDate.plusDays(1) computes it. */
  function NextDay(d: Date): (r: Date)
    requires Valid(d)
    ensures Valid(r) && Before(d, r)
  {
    if d.day < DaysInMonth(d.year, d.month) then Date(d.year, d.month, d.day + 1)
    else if d.month < 12 then Date(d.year, d.month + 1, 1)
    else Date(d.year + 1, 1, 1)
  }

  /** Stepping back a day and forward again, or forward and back, returns to
      the same date. */
  lemma PrevNextRoundTrip(d: Date)
    requires Valid(d)
    ensures NextDay(PrevDay(d)) == d
    ensures PrevDay(NextDay(d)) == d
  {
  }

  /** No valid date lies strictly between a date and the day before it. */
  lemma PrevDayIsAdjacent(d: Date, x: Date)
    requires Valid(d) && Valid(x)
    ensures Before(PrevDay(d), x) <==> !Before(x, d)
  {
  }

  /** LocalDate.minusDays(n), one day at a time. */
  function MinusDays(d: Date, n: nat): (r: Date)
    requires Valid(d)
    ensures Valid(r)
    ensures n > 0 ==> Before(r, d)
    decreases n
  {
    if n == 0 then d
    else
      var p := PrevDay(d);
      var r := MinusDays(p, n - 1);
      BeforeIsStrictTotalOrder(r, p, d);
      r
  }
}
