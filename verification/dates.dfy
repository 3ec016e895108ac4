/**
 * Calendar dates as Python's `datetime` sees them: proleptic-Gregorian day
 * numbers (`date.toordinal()`, 0001-01-01 is day 1), Monday-based weekdays
 * (`weekday() == (ordinal + 6) % 7`), and `timedelta` arithmetic as plain
 * integer addition.
 */
module Dates {
  import opened Wrappers

  /** A date, as its ordinal day number. */
  type Date = int

  /** `datetime.MINYEAR` and `datetime.MAXYEAR`. */
  const MinYear: int := 1
  const MaxYear: int := 9999

  const Monday: int := 0
  const Thursday: int := 3
  const Friday: int := 4
  const Saturday: int := 5
  const Sunday: int := 6

  const Week: int := 7

  predicate IsLeap(y: int) {
    y % 4 == 0 && (y % 100 != 0 || y % 400 == 0)
  }

  function DaysInMonth(y: int, m: int): int
    requires 1 <= m <= 12
  {
    if m == 2 then (if IsLeap(y) then 29 else 28)
    else if m == 4 || m == 6 || m == 9 || m == 11 then 30
    else 31
  }

  /** Days of year `y` before the first of month `m` (`_days_before_month`). */
  function DaysBeforeMonth(y: int, m: int): int
    requires 1 <= m <= 12
  {
    [0, 31, 59, 90, 120, 151, 181, 212, 243, 273, 304, 334][m - 1]
    + (if m > 2 && IsLeap(y) then 1 else 0)
  }

  /** Days before 1 January of year `y` (`_days_before_year`). */
  function DaysBeforeYear(y: int): int {
    var p := y - 1;
    365 * p + p / 4 - p / 100 + p / 400
  }

  /** The arguments `datetime(y, m, d)` accepts without raising `ValueError`. */
  predicate ValidDate(y: int, m: int, d: int) {
    MinYear <= y <= MaxYear && 1 <= m <= 12 && 1 <= d <= DaysInMonth(y, m)
  }

  /** The ordinal of year/month/day (`_ymd2ord`). */
  function Ymd(y: int, m: int, d: int): Date
    requires 1 <= m <= 12
  {
    DaysBeforeYear(y) + DaysBeforeMonth(y, m) + d
  }

  /** `datetime(y, m, d)`: the date, or `None` where the constructor raises `ValueError`. */
  function MakeDate(y: int, m: int, d: int): (r: Option<Date>)
    ensures r.Some? <==> ValidDate(y, m, d)
    ensures r.Some? ==> r.value == Ymd(y, m, d)
  {
    if ValidDate(y, m, d) then Some(Ymd(y, m, d)) else None
  }

  /** `date.weekday()`: 0 is Monday, 6 is Sunday. */
  function Weekday(d: Date): (w: int)
    ensures 0 <= w <= 6
  {
    (d + 6) % 7
  }

  /** `d.year == y`: the date lies between 1 January of `y` and 1 January of `y + 1`. */
  predicate InYear(d: Date, y: int) {
    Ymd(y, 1, 1) <= d < Ymd(y + 1, 1, 1)
  }

  // ------------------------------------------------------------------ lemmas

  /** Shifting a date by whole weeks keeps its weekday. */
  lemma WeekdayShift(d: Date, k: int)
    ensures Weekday(d + 7 * k) == Weekday(d)
  {
  }

  /** Moving `k` days advances the weekday by `k`, counted modulo seven. */
  lemma WeekdayOffset(d: Date, k: int)
    ensures Weekday(d + k) == (Weekday(d) + k) % 7
  {
    var q := (d + 6) / 7;
    assert d + 6 == 7 * q + Weekday(d);
    assert d + k + 6 == 7 * q + (Weekday(d) + k);
  }

  /** Two dates with the same weekday are a whole number of weeks apart. */
  lemma SameWeekday(a: Date, b: Date)
    requires Weekday(a) == Weekday(b)
    ensures (a - b) % 7 == 0
  {
    var qa, qb := (a + 6) / 7, (b + 6) / 7;
    assert a + 6 == 7 * qa + Weekday(a);
    assert b + 6 == 7 * qb + Weekday(b);
    assert a - b == 7 * (qa - qb);
  }

  /** A year is 365 days long, 366 if it is a leap year. */
  lemma YearLength(y: int)
    ensures Ymd(y + 1, 1, 1) == Ymd(y, 1, 1) + (if IsLeap(y) then 366 else 365)
  {
    var p := y - 1;
    assert y / 4 == p / 4 + (if y % 4 == 0 then 1 else 0);
    assert y / 100 == p / 100 + (if y % 100 == 0 then 1 else 0);
    assert y / 400 == p / 400 + (if y % 400 == 0 then 1 else 0);
  }

  /** New Year's Day follows 31 December, and so lies one week after Christmas Day. */
  lemma NewYearAfterChristmas(y: int)
    ensures Ymd(y + 1, 1, 1) == Ymd(y, 12, 31) + 1
    ensures Ymd(y + 1, 1, 1) == Ymd(y, 12, 25) + Week
  {
    YearLength(y);
  }

  /** Each year adds at least 365 days to New Year's Day, so New Years move forward with the
      year. */
  lemma {:induction false} NewYearsApart(a: int, b: int)
    requires a <= b
    ensures Ymd(a, 1, 1) + 365 * (b - a) <= Ymd(b, 1, 1)
    decreases b - a
  {
    if a < b {
      NewYearsApart(a, b - 1);
      YearLength(b - 1);
    }
  }

  /** A valid date lies in its own year. */
  lemma YmdInYear(y: int, m: int, d: int)
    requires ValidDate(y, m, d)
    ensures InYear(Ymd(y, m, d), y)
  {
    NewYearAfterChristmas(y);
  }
}
