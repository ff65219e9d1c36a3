/**
 * Proleptic Gregorian calendar: valid days, their order, the next day, the
 * continuous daily range between two days, and calendar months numbered
 * consecutively.  This is the date arithmetic that the daily reindexing and
 * the monthly resampling of the series loader rely on.
 */
module Calendar {

  datatype Ymd = Ymd(year: int, month: int, day: int)

  predicate IsLeapYear(y: int) {
    y % 4 == 0 && (y % 100 != 0 || y % 400 == 0)
  }

  function DaysInMonth(y: int, m: int): (n: int)
    requires 1 <= m <= 12
    ensures 28 <= n <= 31
    ensures n == 29 <==> m == 2 && IsLeapYear(y)
  {
    if m == 2 then (if IsLeapYear(y) then 29 else 28)
    else if m == 4 || m == 6 || m == 9 || m == 11 then 30
    else 31
  }

  predicate IsValid(d: Ymd) {
    1 <= d.month <= 12 && 1 <= d.day <= DaysInMonth(d.year, d.month)
  }

  /** A day of the calendar; every parsed timestamp is one of these. */
  type Date = d: Ymd | IsValid(d) witness Ymd(1970, 1, 1)

  /** Chronological (lexicographic) order on days. */
  predicate Before(a: Ymd, b: Ymd) {
    a.year < b.year ||
    (a.year == b.year && (a.month < b.month || (a.month == b.month && a.day < b.day)))
  }

  predicate NotAfter(a: Ymd, b: Ymd) {
    a == b || Before(a, b)
  }

  /** The day after `d`, rolling over month and year ends (29 February in leap years). */
  function NextDay(d: Date): (e: Date)
    ensures Before(d, e)
  {
    if d.day < DaysInMonth(d.year, d.month) then Ymd(d.year, d.month, d.day + 1)
    else if d.month < 12 then Ymd(d.year, d.month + 1, 1)
    else Ymd(d.year + 1, 1, 1)
  }

  /** No valid day lies strictly between a day and the next one. */
  lemma NextDayIsSuccessor(d: Date, e: Date)
    requires Before(d, e)
    ensures NotAfter(NextDay(d), e)
  {
  }

  /**
   * The continuous daily calendar from `lo` to `hi`, both included
   * (what a daily date range between the earliest and latest day holds).
   */
  function DateRange(lo: Date, hi: Date): (r: seq<Date>)
    requires NotAfter(lo, hi)
    ensures |r| > 0 && r[0] == lo && r[|r| - 1] == hi
    ensures forall i :: 0 < i < |r| ==> r[i] == NextDay(r[i - 1])
    decreases hi.year - lo.year, 12 - lo.month, 31 - lo.day
  {
    if lo == hi then [lo]
    else
      NextDayIsSuccessor(lo, hi);
      [lo] + DateRange(NextDay(lo), hi)
  }

  /** A sequence of days in which each day is followed by the next calendar day. */
  predicate Consecutive(days: seq<Date>) {
    forall i :: 0 < i < |days| ==> days[i] == NextDay(days[i - 1])
  }

  /** In a consecutive sequence, later positions hold later days. */
  lemma {:induction false} ConsecutiveIncreasing(days: seq<Date>, i: int, j: int)
    requires Consecutive(days)
    requires 0 <= i < j < |days|
    ensures Before(days[i], days[j])
  {
    if j > i + 1 {
      ConsecutiveIncreasing(days, i, j - 1);
    }
  }

  /** The daily calendar misses no day: every valid day between its ends is in it. */
  lemma {:induction false} DateRangeCovers(lo: Date, hi: Date, d: Date)
    requires NotAfter(lo, hi)
    requires NotAfter(lo, d) && NotAfter(d, hi)
    ensures d in DateRange(lo, hi)
    decreases hi.year - lo.year, 12 - lo.month, 31 - lo.day
  {
    if d != lo {
      NextDayIsSuccessor(lo, d);
      NextDayIsSuccessor(lo, hi);
      DateRangeCovers(NextDay(lo), hi, d);
    }
  }

  /** A calendar month. */
  datatype YearMonth = YearMonth(year: int, month: int)

  function MonthOf(d: Date): YearMonth {
    YearMonth(d.year, d.month)
  }

  /** Months numbered consecutively: January of year 0 is 0, each next month adds one. */
  function MonthIndex(m: YearMonth): int {
    m.year * 12 + (m.month - 1)
  }

  /** The month with a given consecutive number. */
  function MonthAt(i: int): (m: YearMonth)
    ensures 1 <= m.month <= 12
    ensures MonthIndex(m) == i
  {
    YearMonth(i / 12, i % 12 + 1)
  }

  lemma MonthAtIndex(m: YearMonth)
    requires 1 <= m.month <= 12
    ensures MonthAt(MonthIndex(m)) == m
  {
    var i := MonthIndex(m);
    assert i == m.year * 12 + (m.month - 1);
    assert i / 12 == m.year;
  }

  /** Going to the next day stays in the same month or moves to the next one. */
  lemma NextDayMonth(d: Date)
    ensures MonthIndex(MonthOf(NextDay(d))) == MonthIndex(MonthOf(d))
         || MonthIndex(MonthOf(NextDay(d))) == MonthIndex(MonthOf(d)) + 1
  {
  }

  /** Chronological order never puts a later month before an earlier one. */
  lemma BeforeMonthIndex(a: Date, b: Date)
    requires NotAfter(a, b)
    ensures MonthIndex(MonthOf(a)) <= MonthIndex(MonthOf(b))
  {
  }
}
