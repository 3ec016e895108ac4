/**
 * The date helpers of the scraping scripts (`helpers.py`): a second copy of
 * Butcher's Easter algorithm and of the two exclusive-of-self weekday locators.
 * Each is written out as that file has it and shown to agree with the
 * calendar engine's own definition, so everything proved there carries over.
 */
module Helpers {
  import opened Wrappers
  import opened Dates
  import opened ChristianHolidays

  /** The `(month, day)` that `get_easter` passes to `datetime`: March 22..31 or April 1..25,
      the same pair as the calendar engine's `calc_easter` for every integer year. */
  function GetEasterMonthDay(year: int): (md: (int, int))
    ensures md.0 == 3 || md.0 == 4
    ensures md.0 == 3 ==> 22 <= md.1 <= 31
    ensures md.0 == 4 ==> 1 <= md.1 <= 25
    ensures md == EasterMonthDay(year)
  {
    var a := year % 19;
    var b := year / 100;
    var c := year % 100;
    var d := (19 * a + b - b / 4 - ((b - (b + 8) / 25 + 1) / 3) + 15) % 30;
    var e := (32 + 2 * (b % 4) + 2 * (c / 4) - d - (c % 4)) % 7;
    var f := d + e - 7 * ((a + 11 * d + 22 * e) / 451) + 114;
    assert f == ButcherF(year);
    (f / 31, f % 31 + 1)
  }

  /** `get_easter(year)`: `datetime(year, month, day)`, which fails only for a year outside
      `datetime`'s range; otherwise a Sunday between 22 March and 25 April. */
  function GetEaster(year: int): (r: Option<Date>)
    ensures r.Some? <==> MinYear <= year <= MaxYear
    ensures r.Some? ==> Ymd(year, 3, 22) <= r.value <= Ymd(year, 4, 25)
    ensures r == CalcEaster(year)
  {
    var md := GetEasterMonthDay(year);
    MakeDate(year, md.0, md.1)
  }

  /** `get_easter` always lands on a Sunday. */
  lemma GetEasterIsSunday(year: int)
    requires MinYear <= year <= MaxYear
    ensures GetEaster(year).Some? && Weekday(GetEaster(year).value) == Sunday
  {
    CalcEasterIsSunday(year);
  }

  /** `get_last_weekday(in_date, weekday)`: the latest day strictly before `d` with the weekday,
      a full week back when `d` already has it. */
  function GetLastWeekday(d: Date, weekday: int): (r: Date)
    ensures 0 <= weekday <= 6 ==> Weekday(r) == weekday && d - Week <= r < d
    ensures 0 <= weekday <= 6 && Weekday(d) == weekday ==> r == d - Week
    ensures r == LastWeekday(d, weekday)
  {
    var closest := d + (weekday - Weekday(d));
    if closest < d then closest else closest - Week
  }

  /** `get_next_weekday(in_date, weekday)`: the earliest day strictly after `d` with the weekday,
      a full week on when `d` already has it. */
  function GetNextWeekday(d: Date, weekday: int): (r: Date)
    ensures 0 <= weekday <= 6 ==> Weekday(r) == weekday && d < r <= d + Week
    ensures 0 <= weekday <= 6 && Weekday(d) == weekday ==> r == d + Week
    ensures r == NextWeekday(d, weekday)
  {
    var closest := d - (Weekday(d) - weekday);
    if closest > d then closest else closest + Week
  }

  /** Moving the input by whole weeks moves both helpers' answers by the same amount. */
  lemma HelperLocatorsShiftByWeeks(d: Date, weekday: int, k: int)
    ensures GetLastWeekday(d + 7 * k, weekday) == GetLastWeekday(d, weekday) + 7 * k
    ensures GetNextWeekday(d + 7 * k, weekday) == GetNextWeekday(d, weekday) + 7 * k
  {
    LocatorsShiftByWeeks(d, weekday, k);
  }
}
