# Lutheran church year and Bach cantata tables, in Dafny

A model of the calendar engine behind the Bach cantata collection, and of the small cleaning
steps around it. The engine computes, for a year, the date of every feast of the Lutheran church
year. The movable feasts hang on Easter or Christmas; the saints' days are fixed. The cleaning
steps turn the scraped BWV and instrumentation tables into typed rows.

Dates are Python's proleptic Gregorian ordinals (1 January of year 1 is day 1; `weekday()` is
`(ordinal + 6) % 7` with Monday = 0). All date arithmetic is therefore `+`, `-` and `<` on
integers. Years whose fixed days the engine can build with `'%Y-%m-%d'` (1000 to 9999) are
*supported years*.

| file | module | what it holds |
|---|---|---|
| `wrappers.dfy` | `Wrappers` | `Option` and `Result` |
| `dates.dfy` | `Dates` | `datetime`'s ordinals, validity and weekday |
| `strings.dfy` | `Strings` | `str(n)`, `upper`/`lower`/`capitalize`, `rstrip`, `split`/`join`, `in` |
| `christian_holidays.py` primitives → `christian_holidays.dfy` | `ChristianHolidays` | `last_weekday`, `next_weekday`, Butcher's `calc_easter`, `calc_christmas`, `int_to_roman` |
| `helpers.dfy` | `Helpers` | the second copy of Easter and the two locators |
| `church_year.dfy` | `ChurchYear` | the `ChurchYear` enum as a closed datatype: 70 members, names, titles, labels, `generate_data_for_church_year_enum` |
| `feast_groups.dfy` | `FeastGroups` | the ten group calculators (`__advents` … `__static_dates`) |
| `holiday_dispatch.dfy` | `HolidayDispatch` | `dates_for_holiday`, `calc_dates_for` and `main` |
| `lutheran_calendar.dfy` | `LutheranCalendar` | the variant calendar: `EventType`, `get_static_dates`, `get_dynamic_dates`, the sort |
| `cantatas_holidays.dfy` | `CantatasHolidays` | the feast → cantata table and the inner merge of `main` |
| `cantata_cleaning.dfy` | `CantataCleaning` | `clean_cantatas` (the same body appears in `instruments.py` and `wiki/all.cantatas.py`) |
| `instruments.dfy` | `InstrumentParsing` | the per-cell and per-token parsing of `process_instrument_group` |
| `playground.dfy` | `Playground` | the third Easter copy, the 1950–2041 loop and the BWV search |

Design choices:

- The module-level pandas frames (`events`, `df`, `df_cantatas`) are sequences of rows. They are
  passed in and returned. An "append" is `old + new`, and its contract says the old rows stay.
- A group calculator's dictionary is a `map<Feast, Date>`. `dict.get` is `Wrappers.Get`.
- `datetime(...)`, `pd.to_datetime(...)` and `astype(int)` raise on bad input: a date that does
  not exist, a day outside the nanosecond Timestamp range, an empty string, a number too large
  for an int64. Here they return `None` or `Failure`, so the error paths are modelled and not
  excluded by preconditions.
- The generate-then-filter loops of `__epiphany` and `__trinity` are one generic function,
  `FeastGroups.Enumerate`. It takes keys, one date per key and an optional strict cut-off.
  Its lemmas give the per-key iff and the "kept keys form a prefix" property.
- `clean_cantatas` is modelled as its five column operations, in order. A separate row-at-a-time
  reference (`CleanRef`, built from a per-row `Verdict`) is proved equal to it. The order and
  subsequence properties are stated against that reference.

## Model

| member | source | states |
|---|---|---|
| Dates.MakeDate | data.collecting/bach-cantatas/src/christian_holidays.py:72 | `datetime(y, m, d)` yields a date exactly when month and day are valid for the year and the year is 1..9999, and then it is that day's ordinal |
| Dates.WeekdayOffset | data.collecting/bach-cantatas/src/christian_holidays.py:32 | moving `k` days moves `weekday()` forward by `k` modulo 7, which is what `weekday - in_date.weekday()` relies on |
| Dates.SameWeekday | data.collecting/bach-cantatas/src/christian_holidays.py:32-35 | two days with the same weekday are a whole number of weeks apart |
| Dates.YearLength | data.collecting/bach-cantatas/src/christian_holidays.py:230-231 | a year has 365 days, or 366 in a Gregorian leap year |
| Dates.NewYearAfterChristmas | data.collecting/bach-cantatas/src/christian_holidays.py:230-231 | 1 January of the next year is the day after 31 December and exactly one week after 25 December |
| Dates.YmdInYear | data.collecting/bach-cantatas/src/christian_holidays.py:231 | a valid `datetime(y, m, d)` has `.year == y` |
| ChristianHolidays.LastWeekday | data.collecting/bach-cantatas/src/christian_holidays.py:23-35 | for weekday 0..6 the result has that weekday and lies in `[d-7, d-1]`; it is `d-7` when `d` already has the weekday; no later day before `d` has it |
| ChristianHolidays.NextWeekday | data.collecting/bach-cantatas/src/christian_holidays.py:38-50 | for weekday 0..6 the result has that weekday and lies in `[d+1, d+7]`; it is `d+7` when `d` already has the weekday; no earlier day after `d` has it |
| ChristianHolidays.LastWeekdayUnique | data.collecting/bach-cantatas/src/christian_holidays.py:32-35 | any day in `[d-7, d-1]` with the weekday is the answer, so the locator is fully characterised by its contract |
| ChristianHolidays.LocatorsShiftByWeeks | data.collecting/bach-cantatas/src/christian_holidays.py:23-50 | moving the input by `k` weeks moves both locators' answers by `k` weeks, for any weekday argument |
| ChristianHolidays.ButcherF | data.collecting/bach-cantatas/src/christian_holidays.py:63-68 | Butcher's `f` lies in 114..148 for every integer year |
| ChristianHolidays.EasterMonthDay | data.collecting/bach-cantatas/src/christian_holidays.py:69-70 | `month = f // 31` is 3 or 4; in March the day is 22..31, in April 1..25, so `datetime` accepts the pair |
| ChristianHolidays.CalcEaster | data.collecting/bach-cantatas/src/christian_holidays.py:53-72 | a date exists exactly for the years `datetime` holds, and it lies between 22 March and 25 April of that year |
| ChristianHolidays.EasterIsSunday | data.collecting/bach-cantatas/src/christian_holidays.py:53-72 | for every year, Butcher's month and day fall on a Sunday of the proleptic Gregorian calendar |
| ChristianHolidays.CalcEasterIsSunday | data.collecting/bach-cantatas/src/christian_holidays.py:54-60 | the doc-comment's promise: `calc_easter` returns a Sunday |
| ChristianHolidays.CalcChristmas | data.collecting/bach-cantatas/src/christian_holidays.py:75-85 | 25 December lies in its year, one week before the next New Year's Day |
| ChristianHolidays.LastChristmasIsSaturday | data.collecting/bach-cantatas/src/christian_holidays.py:230-231 | 25 December 9999 is a Saturday, so the Sunday after it is still in 9999 and `next_weekday` never leaves `datetime`'s range |
| ChristianHolidays.LocatorsInRangeAround | data.collecting/bach-cantatas/src/christian_holidays.py:32-35 | a day with a week of `datetime`s on either side can be given to both locators without `OverflowError` |
| ChristianHolidays.SupportedYearInRange | data.collecting/bach-cantatas/src/christian_holidays.py:13-20 | a supported year lies more than two weeks after the first ordinal, and the next New Year is at most that of 9999 |
| ChristianHolidays.ChristmasLocatorsInRange | data.collecting/bach-cantatas/src/christian_holidays.py:201 | both locators can be given 25 December of any supported year, 9999 included, without `OverflowError` |
| ChristianHolidays.EpiphanyLocatorInRange | data.collecting/web.scraping/lutherancalendar.py:73 | `next_weekday` can be given 6 January of any supported year without `OverflowError` |
| ChristianHolidays.EasterLocatorsInRange | data.collecting/bach-cantatas/src/christian_holidays.py:331-332 | `last_weekday` can be given Easter, and Exaudi six weeks later, of any supported year without `OverflowError` |
| ChristianHolidays.PyIndex | data.collecting/bach-cantatas/src/christian_holidays.py:103 | `xs[i]` succeeds exactly for `-len(xs) <= i < len(xs)` |
| ChristianHolidays.IntToRoman | data.collecting/bach-cantatas/src/christian_holidays.py:88-108 | `int_to_roman` returns a string exactly for `-4000 <= num < 4000` and raises `IndexError` otherwise |
| ChristianHolidays.IntToRomanParts | data.collecting/bach-cantatas/src/christian_holidays.py:103-108 | for 0..3999 the numeral is the thousands, hundreds, tens and ones table entries in turn |
| ChristianHolidays.OnesValues | data.collecting/bach-cantatas/src/christian_holidays.py:101 | the `k`-th ones entry denotes `k` and starts with I or V |
| ChristianHolidays.TensValues | data.collecting/bach-cantatas/src/christian_holidays.py:100 | the `k`-th tens entry denotes `10k`, starts with X or L and ends in a letter worth at least 10 |
| ChristianHolidays.HundredsValues | data.collecting/bach-cantatas/src/christian_holidays.py:99 | the `k`-th hundreds entry denotes `100k`, starts with C or D and ends in a letter worth at least 100 |
| ChristianHolidays.ThousandsValues | data.collecting/bach-cantatas/src/christian_holidays.py:98 | the `k`-th thousands entry denotes `1000k` |
| ChristianHolidays.IntToRomanValue | data.collecting/bach-cantatas/src/christian_holidays.py:98-108 | for 0..3999, reading the numeral back with the subtractive rule gives the number |
| ChristianHolidays.IntToRomanZero | data.collecting/bach-cantatas/src/christian_holidays.py:98-108 | `int_to_roman(0)` is the empty string |
| ChristianHolidays.IntToRomanRoundTrip | data.collecting/bach-cantatas/src/christian_holidays.py:88-108 | for 0..3999 the numeral reads back as the number, and it is empty exactly for 0 |
| ChristianHolidays.IntToRomanLetters | data.collecting/bach-cantatas/src/christian_holidays.py:98-108 | every character of the numeral is one of I, V, X, L, C, D, M |
| ChristianHolidays.IntToRomanEndsInLetter | data.collecting/bach-cantatas/src/christian_holidays.py:98-108 | a positive numeral is non-empty and ends in a Roman letter, so `rstrip` leaves it intact |
| Helpers.GetEasterMonthDay | data.collecting/web.scraping/helpers.py:15-22 | month 3 or 4 with a valid day, and the same pair as `calc_easter` in the engine for every year |
| Helpers.GetEaster | data.collecting/web.scraping/helpers.py:6-24 | defined exactly for `datetime`'s years, between 22 March and 25 April, and equal to the engine's `calc_easter` |
| Helpers.GetEasterIsSunday | data.collecting/web.scraping/helpers.py:7-14 | `get_easter` returns a Sunday |
| Helpers.GetLastWeekday | data.collecting/web.scraping/helpers.py:27-42 | weekday `w` in `[d-7, d-1]`, exactly `d-7` when `d` is already a `w`, and the same as `last_weekday` |
| Helpers.GetNextWeekday | data.collecting/web.scraping/helpers.py:45-60 | weekday `w` in `[d+1, d+7]`, exactly `d+7` when `d` is already a `w`, and the same as `next_weekday` |
| Helpers.HelperLocatorsShiftByWeeks | data.collecting/web.scraping/helpers.py:39-60 | shifting the input by whole weeks shifts both helpers' answers by the same amount |
| FeastGroups.EnumerateDomain | data.collecting/bach-cantatas/src/christian_holidays.py:426-429 | the generate-then-filter loop assigns only its own keys |
| FeastGroups.EnumerateAt | data.collecting/bach-cantatas/src/christian_holidays.py:426-429 | key `i` is assigned exactly when its date passes the strict cut-off, and then it holds that date |
| FeastGroups.EnumeratePrefix | data.collecting/bach-cantatas/src/christian_holidays.py:280-283 | with non-decreasing dates, an earlier key is kept whenever a later one is: the kept keys form a prefix |
| FeastGroups.EnumerateWeekly | data.collecting/bach-cantatas/src/christian_holidays.py:280-283 | with one date per week from `first`, key `i` is kept iff `first + 7i` is before the cut-off, with that date |
| FeastGroups.Advent4 | data.collecting/bach-cantatas/src/christian_holidays.py:200-201 | the fourth Sunday in Advent is a Sunday between 18 and 24 December |
| FeastGroups.AdventBeforeKeys | data.collecting/bach-cantatas/src/christian_holidays.py:196-206 | `__advents` assigns the four Advent members and nothing else |
| FeastGroups.AdventBeforeDates | data.collecting/bach-cantatas/src/christian_holidays.py:203-206 | from a Sunday, Advent `k` is `4 - k` weeks earlier and every one is a Sunday |
| FeastGroups.AdventDates | data.collecting/bach-cantatas/src/christian_holidays.py:185-208 | exactly the four Advent keys; Advent IV is the Sunday strictly before Christmas; Advent `k` = Advent IV − `(4-k)` weeks; all Sundays |
| FeastGroups.ChristmasDaysDates | data.collecting/bach-cantatas/src/christian_holidays.py:224-228 | Christmas 1..3 are placed on three consecutive days from the given Christmas, and nothing else |
| FeastGroups.ChristmasDates | data.collecting/bach-cantatas/src/christian_holidays.py:210-234 | Christmas 1..3 are 25, 26 and 27 December; Christmas 4 is present iff 25 December is not a Sunday, and then it is the Sunday within the week after |
| FeastGroups.NewYearDates | data.collecting/bach-cantatas/src/christian_holidays.py:236-254 | exactly New Year 1 on 1 January and New Year 2 the day after, both in the year |
| FeastGroups.EpiphanyKeys | data.collecting/bach-cantatas/src/christian_holidays.py:272-274 | the loop's keys are `EPIPHANY_2` … `EPIPHANY_7`, distinct and in order |
| FeastGroups.LaterEpiphanyDates | data.collecting/bach-cantatas/src/christian_holidays.py:280-283 | the loop keeps Epiphany `k` iff `6 Jan + (k-1)` weeks is strictly before its cut-off, with that date |
| FeastGroups.LaterEpiphanyDomain | data.collecting/bach-cantatas/src/christian_holidays.py:280-283 | the loop places only Epiphany 2..7 |
| FeastGroups.EpiphanyDates | data.collecting/bach-cantatas/src/christian_holidays.py:256-285 | Epiphany 1 is 6 January; Epiphany `k` (2..7) is present iff `6 Jan + (k-1)` weeks < Easter − 9 weeks, and then it is that date |
| FeastGroups.EpiphanyPrefix | data.collecting/bach-cantatas/src/christian_holidays.py:280-283 | if Epiphany `k` is present then so is every Epiphany `j <= k`, and Epiphany 2 is present in every supported year (Septuagesima is never before 18 January) |
| FeastGroups.ShrovetideDates | data.collecting/bach-cantatas/src/christian_holidays.py:287-311 | exactly three keys: Quinquagesima = Easter − 7 weeks, Sexagesima one and Septuagesima two weeks earlier, all Sundays |
| FeastGroups.HolyWeekAroundDates | data.collecting/bach-cantatas/src/christian_holidays.py:329-343 | around a Sunday: Palm Sunday a week before, Good Friday and Holy Saturday the two days before, Easter Monday and Tuesday the two days after |
| FeastGroups.HolyWeekDates | data.collecting/bach-cantatas/src/christian_holidays.py:313-345 | exactly six keys: Easter is a Sunday; Palm Sunday, Good Friday (a Friday), Holy Saturday (a Saturday), Easter 2 and 3 at −7, −2, −1, +1 and +2 days |
| FeastGroups.AfterEasterSundays | data.collecting/bach-cantatas/src/christian_holidays.py:366-373 | six distinct Sundays, without Ascension |
| FeastGroups.SundaysAfterEasterKeys | data.collecting/bach-cantatas/src/christian_holidays.py:375-376 | the loop places exactly its six Sundays |
| FeastGroups.SundaysAfterEasterDates | data.collecting/bach-cantatas/src/christian_holidays.py:375-376 | the `i`-th Sunday after Easter is `i + 1` weeks after it and is a Sunday |
| FeastGroups.AscensionDate | data.collecting/bach-cantatas/src/christian_holidays.py:378 | the Thursday strictly before Easter + 6 weeks is Easter + 39 days |
| FeastGroups.AfterEasterAroundKeys | data.collecting/bach-cantatas/src/christian_holidays.py:364-380 | `__after_easter` places its six Sundays and Ascension, and nothing else |
| FeastGroups.AfterEasterDates | data.collecting/bach-cantatas/src/christian_holidays.py:347-380 | the six Sundays at +1..+6 weeks; Ascension is a Thursday, Exaudi − 3 = Easter + 39 |
| FeastGroups.WhitDates | data.collecting/bach-cantatas/src/christian_holidays.py:382-403 | exactly three keys: Whit Sunday = Easter + 7 weeks (a Sunday), Whit Monday and Tuesday the two days after |
| FeastGroups.TrinityKeys | data.collecting/bach-cantatas/src/christian_holidays.py:423-424 | the loop's keys are `TRINITY_1` … `TRINITY_28`, distinct and in order |
| FeastGroups.TrinityDomain | data.collecting/bach-cantatas/src/christian_holidays.py:426-429 | the loop places only Trinity 1..28 |
| FeastGroups.TrinitySundayDates | data.collecting/bach-cantatas/src/christian_holidays.py:426-429 | Trinity `k` is present iff Whit Sunday + `k` weeks is strictly before the cut-off, with that date |
| FeastGroups.TrinityDates | data.collecting/bach-cantatas/src/christian_holidays.py:405-431 | Trinity `k` is present iff Easter + `(7+k)` weeks < Advent IV − 3 weeks, and then it is that date |
| FeastGroups.WeeksFromEasterToAdvent | data.collecting/bach-cantatas/src/christian_holidays.py:416-421 | Easter and Advent IV are a whole number of weeks apart, between 34 and 39 |
| FeastGroups.TrinityCount | data.collecting/bach-cantatas/src/christian_holidays.py:426-429 | the number of Trinity keys kept is 23..28, and Trinity `k` is kept exactly for `k` up to that number |
| FeastGroups.AnnunciationFacts | data.collecting/bach-cantatas/src/christian_holidays.py:444-447 | Annunciation is 25 March when that is strictly before Palm Sunday, else Easter + 8 days (a Monday); it is never before 25 March |
| FeastGroups.StaticDates | data.collecting/bach-cantatas/src/christian_holidays.py:433-456 | exactly the six fixed keys: 2 July, 31 October, 2 February, 24 June, 29 September, and Annunciation as above |
| ChurchYear.Members | data.collecting/bach-cantatas/src/christian_holidays.py:482-536 | iterating `ChurchYear` gives 70 members, the `i`-th being the `i`-th declared |
| ChurchYear.MemberAtIsMember | data.collecting/bach-cantatas/src/christian_holidays.py:482-536 | the declaration order lists only members, each at its own position |
| ChurchYear.PositionOfMember | data.collecting/bach-cantatas/src/christian_holidays.py:482-536 | every member is listed, at its position |
| ChurchYear.MembersExactlyOnce | data.collecting/bach-cantatas/src/christian_holidays.py:482-536 | a feast is listed iff it is a member, and no member is listed twice |
| ChurchYear.FixedFeast | data.collecting/bach-cantatas/src/christian_holidays.py:502-534 | a stem names at most one un-numbered member, and that member has that name |
| ChurchYear.IndexedFeast | data.collecting/bach-cantatas/src/christian_holidays.py:485-527 | a stem and a number name at most one numbered member, whose name is the stem followed by `str(n)` |
| ChurchYear.ParseName | data.collecting/bach-cantatas/src/christian_holidays.py:482-536 | a lookup by name finds only a member with exactly that name |
| ChurchYear.ParseNameOfName | data.collecting/bach-cantatas/src/christian_holidays.py:482-536 | looking a member up by its own name finds that member |
| ChurchYear.NameInjective | data.collecting/bach-cantatas/src/christian_holidays.py:482-536 | different members have different names, so a join on `ident` cannot confuse two members |
| ChurchYear.Labels | data.collecting/bach-cantatas/src/christian_holidays.py:485-534 | a member's first label is its season; the temporal-cycle label is present iff the season is not Static; no member carries the sanctoral label |
| ChurchYear.GenerateData | data.collecting/bach-cantatas/src/christian_holidays.py:541-552 | raises exactly when `count > 4000` (the numeral table runs out); otherwise `max(count, 0)` entries, the `i`-th built from index `i` |
| ChurchYear.FirstGeneratedTitle | data.collecting/bach-cantatas/src/christian_holidays.py:546 | for index 0 the right-stripped title is the capitalised word alone |
| ChurchYear.LaterGeneratedTitle | data.collecting/bach-cantatas/src/christian_holidays.py:546 | for a positive index the title keeps the blank and the numeral |
| ChurchYear.GeneratedParts | data.collecting/bach-cantatas/src/christian_holidays.py:545-548 | the generated entry is the upper-case stem with `str(i + 1)`, the numbered title and the labels |
| ChurchYear.WordForms | data.collecting/bach-cantatas/src/christian_holidays.py:545-546 | `'epiphany'` and `'trinity'` upper-case to `EPIPHANY_`/`TRINITY_` stems and capitalise to `Epiphany`/`Trinity` |
| ChurchYear.GeneratedEpiphany | data.collecting/bach-cantatas/src/christian_holidays.py:495-500 | the `i`-th generated Epiphany entry is the declared entry of `EPIPHANY_{i+1}` |
| ChurchYear.GeneratedTrinity | data.collecting/bach-cantatas/src/christian_holidays.py:522-527 | the `i`-th generated Trinity entry is the declared entry of `TRINITY_{i+1}` |
| ChurchYear.LiteralHead | data.collecting/bach-cantatas/src/christian_holidays.py:485-494 | the literal block before the Epiphany run holds only Advent, Christmas and New Year entries |
| ChurchYear.LiteralMiddle | data.collecting/bach-cantatas/src/christian_holidays.py:502-520 | the literal block between the Epiphany and Trinity runs holds only Shrovetide, Holy Week, after-Easter and Whit entries |
| ChurchYear.LiteralTail | data.collecting/bach-cantatas/src/christian_holidays.py:529-534 | the saints' days come last, each with the static label alone |
| ChurchYear.EpiphanyRun | data.collecting/bach-cantatas/src/christian_holidays.py:495-500 | the generated Epiphany block sits at positions 10..16 of the enum |
| ChurchYear.TrinityRun | data.collecting/bach-cantatas/src/christian_holidays.py:522-527 | the generated Trinity block sits at positions 36..63 of the enum |
| ChurchYear.ChurchYearEnum | data.collecting/bach-cantatas/src/christian_holidays.py:478-538 | the enum has 70 entries, the `i`-th being the name, title and labels of the `i`-th member; looking each entry's name up gives back that member, and its first label is the member's season |
| HolidayDispatch.RouteBeforeLent | data.collecting/bach-cantatas/src/christian_holidays.py:144-151 | Advent, Christmas, New Year and Epiphany members are caught by their own name test |
| HolidayDispatch.RouteShrovetide | data.collecting/bach-cantatas/src/christian_holidays.py:152-153 | the three pre-Lent Sundays fall through the name tests and are caught by the Shrovetide label |
| HolidayDispatch.RouteHolyDays | data.collecting/bach-cantatas/src/christian_holidays.py:154-155 | Palm Sunday, Good Friday and Holy Saturday are caught by the Holy Week label |
| HolidayDispatch.RouteEaster | data.collecting/bach-cantatas/src/christian_holidays.py:154-155 | the Easter days are caught by the Holy Week label |
| HolidayDispatch.RouteAfterEaster | data.collecting/bach-cantatas/src/christian_holidays.py:156-157 | the Sundays after Easter and Ascension are caught by the After Easter label |
| HolidayDispatch.RouteWhit | data.collecting/bach-cantatas/src/christian_holidays.py:158-159 | Whit members are caught by `'WHIT_'` |
| HolidayDispatch.RouteTrinity | data.collecting/bach-cantatas/src/christian_holidays.py:160-161 | Trinity members are caught by `'TRINITY_'` |
| HolidayDispatch.RouteStatic | data.collecting/bach-cantatas/src/christian_holidays.py:165-166 | the saints' days fall through every earlier test and are caught by the Static label |
| HolidayDispatch.RouteIsSeason | data.collecting/bach-cantatas/src/christian_holidays.py:142-168 | the first matching `case` for any feast is its own season's calculator; the fall-through `case _` is never reached |
| HolidayDispatch.Calculator | data.collecting/bach-cantatas/src/christian_holidays.py:143-166 | the bound calculator of a season accepts every year that season can compute and returns that season's dictionary |
| HolidayDispatch.CalcDatesFor | data.collecting/bach-cantatas/src/christian_holidays.py:172-183 | the appended value is a date exactly when the calculator placed the member, and then it is that date |
| HolidayDispatch.AdventGroupHoldsItsSeason | data.collecting/bach-cantatas/src/christian_holidays.py:185-208 | `__advents` places only Advent members |
| HolidayDispatch.ChristmasGroupHoldsItsSeason | data.collecting/bach-cantatas/src/christian_holidays.py:210-234 | `__christmas` places only Christmas members |
| HolidayDispatch.NewYearGroupHoldsItsSeason | data.collecting/bach-cantatas/src/christian_holidays.py:236-254 | `__new_year` places only New Year members |
| HolidayDispatch.EpiphanyGroupHoldsItsSeason | data.collecting/bach-cantatas/src/christian_holidays.py:256-285 | `__epiphany` places only Epiphany members |
| HolidayDispatch.ShrovetideGroupHoldsItsSeason | data.collecting/bach-cantatas/src/christian_holidays.py:287-311 | `__shrovetide` places only Shrovetide members |
| HolidayDispatch.HolyWeekGroupHoldsItsSeason | data.collecting/bach-cantatas/src/christian_holidays.py:313-345 | `__holy_week` places only Holy Week members |
| HolidayDispatch.AfterEasterGroupHoldsItsSeason | data.collecting/bach-cantatas/src/christian_holidays.py:347-380 | `__after_easter` places only After Easter members |
| HolidayDispatch.WhitGroupHoldsItsSeason | data.collecting/bach-cantatas/src/christian_holidays.py:382-403 | `__whit` places only Whit members |
| HolidayDispatch.TrinityGroupHoldsItsSeason | data.collecting/bach-cantatas/src/christian_holidays.py:405-431 | `__trinity` places only Trinity members |
| HolidayDispatch.StaticGroupHoldsItsSeason | data.collecting/bach-cantatas/src/christian_holidays.py:433-456 | `__static_dates` places only Static members |
| HolidayDispatch.GroupHoldsItsSeason | data.collecting/bach-cantatas/src/christian_holidays.py:185-456 | every calculator places only members of its own season |
| HolidayDispatch.GroupKeysRouteHome | data.collecting/bach-cantatas/src/christian_holidays.py:142-183 | every key a calculator returns is a member that the dispatch routes back to that calculator, so `.get(holiday.name)` can find it |
| HolidayDispatch.RunYears | data.collecting/bach-cantatas/src/christian_holidays.py:142-170 | one entry per year of the range, the `k`-th being `calc_dates_for` of year `start + k` |
| HolidayDispatch.DatesForHoliday | data.collecting/bach-cantatas/src/christian_holidays.py:131-170 | the existing dates stay; exactly one element is appended per year, the member's date in its season's dictionary or `None` |
| HolidayDispatch.AlwaysDated | data.collecting/bach-cantatas/src/christian_holidays.py:185-456 | every member other than Christmas 4, Epiphany 2..7 and the Trinity Sundays is dated in every supported year |
| HolidayDispatch.SupportedIsComputable | data.collecting/bach-cantatas/src/christian_holidays.py:20 | a four-digit year is accepted by every calculator |
| HolidayDispatch.MemberRow | data.collecting/bach-cantatas/src/christian_holidays.py:560-562 | the row of one member: its name as `ident`, title, labels and the dates of the years |
| HolidayDispatch.HolidayRows | data.collecting/bach-cantatas/src/christian_holidays.py:558-564 | one row per member, in declaration order |
| HolidayDispatch.ChurchYearFrame | data.collecting/bach-cantatas/src/christian_holidays.py:558-564 | `main`: 70 rows, each with the member's name, title, labels and a one-element list holding its 2022 date or `None` |
| LutheranCalendar.EventBwvsSacred | data.collecting/web.scraping/lutherancalendar.py:11-36 | every BWV an event lists is 1..199 and not 198 |
| LutheranCalendar.StaticRows | data.collecting/web.scraping/lutherancalendar.py:44-49 | six rows, all dated in the given year |
| LutheranCalendar.GetStaticDates | data.collecting/web.scraping/lutherancalendar.py:42-51 | succeeds exactly for the years 1678 to 2261 and otherwise raises `OutOfBoundsDatetime`; on success the frame is the old rows followed by `StaticRows(year)`, so an appended row exists exactly for CHR1–CHR3, NYD1, NYD2 and EPH0, each on its fixed day, and every appended day is in the year and a nanosecond Timestamp |
| LutheranCalendar.StaticTimestampYears | data.collecting/web.scraping/lutherancalendar.py:51 | the six static days of a year all lie in pandas' Timestamp range exactly when the year is 1678 to 2261; the first and last midnights it holds are 1677-09-22 and 2262-04-11 |
| LutheranCalendar.StaticRowsMembers | data.collecting/web.scraping/lutherancalendar.py:44-49 | the rows are exactly CHR1–CHR3 on 25–27 December, NYD1/NYD2 on 1/2 January and EPH0 on 6 January |
| LutheranCalendar.EpiphanyRowsMembers | data.collecting/web.scraping/lutherancalendar.py:75-78 | the loop holds a row exactly for each key whose date `eph1 + (k+1)` weeks is strictly before the cut-off |
| LutheranCalendar.KindDatePartition | data.collecting/web.scraping/lutherancalendar.py:69-93 | only CHR4, EPH2–EPH4 and the ten fixed events ever get a row here |
| LutheranCalendar.RowsFromMembers | data.collecting/web.scraping/lutherancalendar.py:69-93 | the appended rows are exactly the events with a date, each on its date |
| LutheranCalendar.DynamicRowsMembers | data.collecting/web.scraping/lutherancalendar.py:54-93 | a row is appended by `get_dynamic_dates(year)` exactly when its event has that date in that year |
| LutheranCalendar.EventDateAdvent | data.collecting/web.scraping/lutherancalendar.py:55-58 | ADV4 is the Sunday strictly before 25 December and ADV1 is three weeks earlier |
| LutheranCalendar.AnchorDates | data.collecting/web.scraping/lutherancalendar.py:80-91 | ADV1, ADV4, CHR4, EPH1 and EAS1 are dated from their anchors as the appends say |
| LutheranCalendar.EventDateChristmas | data.collecting/web.scraping/lutherancalendar.py:69-71 | CHR4 has a row exactly when the Sunday strictly after 25 December is still in the year, and then on that Sunday |
| LutheranCalendar.LoopDates | data.collecting/web.scraping/lutherancalendar.py:75-78 | EPH2–EPH4 are `eph1` + 1..3 weeks, each present iff strictly before Septuagesima |
| LutheranCalendar.EventDateEpiphany | data.collecting/web.scraping/lutherancalendar.py:73-78 | EPH1 is the Sunday strictly after 6 January and always present; EPH2–EPH4 follow weekly, each kept iff strictly before SEPT |
| LutheranCalendar.EasterDates | data.collecting/web.scraping/lutherancalendar.py:59-67 | PALM, ESTO, SEXA, SEPT, EAS2 and EAS3 lie −1, −7, −8, −9 weeks and +1, +2 days from Easter |
| LutheranCalendar.StaticAndDynamicDisjoint | data.collecting/web.scraping/lutherancalendar.py:42-93 | no event is appended by both functions |
| LutheranCalendar.StaticAgreesWithEngine | data.collecting/web.scraping/lutherancalendar.py:44-48 | CHR1–CHR3 and NYD1/NYD2 fall on the engine's Christmas and New Year days |
| LutheranCalendar.EpiphanyAgreesWithEngine | data.collecting/web.scraping/lutherancalendar.py:49 | EPH0 is the engine's `EPIPHANY_1` |
| LutheranCalendar.AdventAgreesWithEngine | data.collecting/web.scraping/lutherancalendar.py:55-58 | ADV1 and ADV4 are the engine's first and fourth Sundays in Advent |
| LutheranCalendar.ChristmasSundayAgreesWithEngine | data.collecting/web.scraping/lutherancalendar.py:69-71 | CHR4 is present exactly when the engine places `CHRISTMAS_4`, on the same day |
| LutheranCalendar.ShrovetideAgreesWithEngine | data.collecting/web.scraping/lutherancalendar.py:62-65 | SEPT, SEXA and ESTO are the engine's pre-Lent Sundays |
| LutheranCalendar.HolyWeekAgreesWithEngine | data.collecting/web.scraping/lutherancalendar.py:59-67 | PALM and EAS1–EAS3 are the engine's Holy Week days |
| LutheranCalendar.InsertPermutes | data.collecting/web.scraping/lutherancalendar.py:95 | inserting a row into a frame adds exactly that row and loses none |
| LutheranCalendar.InsertSorted | data.collecting/web.scraping/lutherancalendar.py:95 | inserting a row into a date-sorted frame keeps it sorted and adds exactly that row |
| LutheranCalendar.SortByDateCorrect | data.collecting/web.scraping/lutherancalendar.py:95 | `sort_values(by="Date")` returns the same rows (as a multiset) in ascending date order |
| LutheranCalendar.GetDynamicDates | data.collecting/web.scraping/lutherancalendar.py:54-96 | the frame is the old rows followed by `DynamicRows(year)`, at least ten of them: an appended row exists exactly for each event that has a date that year, on that date; the printed frame is that frame sorted by date |
| LutheranCalendar.LutheranMain | data.collecting/web.scraping/lutherancalendar.py:99-101 | the script prints the static and dynamic rows of 2022, in ascending date order |
| CantatasHolidays.TrinityBwvs | data.collecting/bach-cantatas/src/cantatas_holidays.py:38-65 | one BWV list for each of `TRINITY_1` … `TRINITY_28` |
| CantatasHolidays.KeysAreMembers | data.collecting/bach-cantatas/src/cantatas_holidays.py:7-72 | a feast is a key of `cantatas` exactly when it is a member other than Advent II/III, Epiphany 6/7, Good Friday and Holy Saturday |
| CantatasHolidays.KeyBwvsSacred | data.collecting/bach-cantatas/src/cantatas_holidays.py:8-71 | every key maps to a non-empty list of BWV numbers in 1..199, none 198 |
| CantatasHolidays.TrinityBwvsSacred | data.collecting/bach-cantatas/src/cantatas_holidays.py:38-65 | the same for each Sunday after Trinity |
| CantatasHolidays.KeysFromMembers | data.collecting/bach-cantatas/src/cantatas_holidays.py:7-72 | the keys from a position on are exactly the keys declared there or later |
| CantatasHolidays.CantataKeysOrdered | data.collecting/bach-cantatas/src/cantatas_holidays.py:7-72 | the dictionary's keys stand in strictly increasing declaration order, so none repeats |
| CantatasHolidays.CantataKeysCount | data.collecting/bach-cantatas/src/cantatas_holidays.py:7-72 | the dictionary has 64 keys |
| CantatasHolidays.MatchesMembers | data.collecting/bach-cantatas/src/cantatas_holidays.py:85 | a left row matches a right row exactly when they share `ident`, and carries its `bwv` |
| CantatasHolidays.InnerJoinMembers | data.collecting/bach-cantatas/src/cantatas_holidays.py:85 | a merged row exists exactly for a holiday row and a cantata row with the same `ident` |
| CantatasHolidays.MatchesKeysFrom | data.collecting/bach-cantatas/src/cantatas_holidays.py:82-85 | a member's row matches one cantata row if it is a key and none otherwise |
| CantatasHolidays.CantatasMain | data.collecting/bach-cantatas/src/cantatas_holidays.py:75-86 | the merged frame has 64 rows; the `k`-th is the `k`-th key's holiday row (2022 dates, even when `None`) with its BWV list unchanged |
| CantatasHolidays.MergedRows | data.collecting/bach-cantatas/src/cantatas_holidays.py:81-85 | for any frame with one row per member, the merge gives each key exactly one row, in dictionary order |
| CantatasHolidays.UnlistedNeverMerged | data.collecting/bach-cantatas/src/cantatas_holidays.py:85 | Advent II/III, Epiphany 6/7, Good Friday and Holy Saturday share no `ident` with any key, so they never reach the output |
| CantataCleaning.LeadingZeros | data.collecting/web.scraping/instruments.py:96 | the length of the `'0'` run that starts the text |
| CantataCleaning.DropZeroRunBlank | data.collecting/web.scraping/instruments.py:96 | `re.sub('^0+\s', '', s)`: when one or more zeros and then a whitespace start `s`, they are removed; otherwise `s` is unchanged |
| CantataCleaning.LStripZeros | data.collecting/web.scraping/instruments.py:98 | `lstrip('0')` leaves a suffix, removes only zeros, and leaves no leading zero |
| CantataCleaning.ToInt | data.collecting/web.scraping/instruments.py:100 | the int64 conversion of a digit string fails exactly when the string is empty (`ValueError`) or its value is 2^63 or more (`OverflowError`); otherwise it gives the decimal value, which is below 2^63 |
| CantataCleaning.StripColumn | data.collecting/web.scraping/instruments.py:96 | the prefix removal keeps one row per row |
| CantataCleaning.NumericRows | data.collecting/web.scraping/instruments.py:97 | only rows whose BWV is numeric survive |
| CantataCleaning.LStripColumn | data.collecting/web.scraping/instruments.py:98 | the zero-stripping keeps one row per row |
| CantataCleaning.LStripKeepsDigits | data.collecting/web.scraping/instruments.py:97-98 | after stripping, every BWV is still a digit string, so `astype(int)` sees only digits |
| CantataCleaning.Stripped | data.collecting/web.scraping/instruments.py:96-98 | after the first three steps every BWV is a digit string |
| CantataCleaning.CleanCantatasCons | data.collecting/web.scraping/instruments.py:95-101 | the column pipeline on a row in front of others is that row's verdict applied to the pipeline on the rest |
| CantataCleaning.SelectUnique | data.collecting/web.scraping/instruments.py:95-101 | any function that is empty on no rows and steps row by row with a verdict is the row-at-a-time selection |
| CantataCleaning.CleanCantatasIsRef | data.collecting/web.scraping/instruments.py:94-103 | `clean_cantatas` as five column operations equals the row-at-a-time reference |
| CantataCleaning.SelectFails | data.collecting/web.scraping/instruments.py:100 | the selection fails exactly when some row raises, and then with the message of the first row that raises |
| CantataCleaning.RaisesIffUnconvertible | data.collecting/web.scraping/instruments.py:96-100 | a row raises exactly when its BWV, after the prefix removal, is numeric and either made only of zeros (with `int('')`'s message) or worth 2^63 or more (with the overflow message) |
| CantataCleaning.LeadingZerosValue | data.collecting/web.scraping/instruments.py:98 | zeros in front of a number do not change its value |
| CantataCleaning.LStripValue | data.collecting/web.scraping/instruments.py:98-100 | `lstrip('0')` keeps a number's value, so the overflow test may be read on the BWV before stripping |
| CantataCleaning.CleanCantatasFails | data.collecting/web.scraping/wiki/all.cantatas.py:53-57 | `clean_cantatas` raises exactly when some row has a numeric BWV that is all zeros or too large for an int64; the error is that of the first such row |
| CantataCleaning.DecimalValuePositive | data.collecting/web.scraping/instruments.py:98-100 | a non-empty digit string without a leading zero is at least 1 |
| CantataCleaning.KeptIsSacred | data.collecting/web.scraping/instruments.py:100-101 | a kept row has a BWV in 1..199, not 198, and its other cells unchanged |
| CantataCleaning.KeptIndices | data.collecting/web.scraping/instruments.py:97-101 | the kept row indices lie within the input |
| CantataCleaning.SelectFromAligned | data.collecting/web.scraping/instruments.py:97-101 | on success the output rows are the kept rows at strictly increasing input indices |
| CantataCleaning.KeptIndicesComplete | data.collecting/web.scraping/instruments.py:97-101 | every kept row's index is listed |
| CantataCleaning.CleanCantatasSelects | data.collecting/web.scraping/wiki/all.cantatas.py:52-60 | on success every BWV is in 1..199 and not 198, and the output is exactly the kept rows in input order, nothing added |
| CantataCleaning.ZeroBlankExample | data.collecting/web.scraping/playground.py:40-44 | `re.sub('^0+\s', '', '00 4')` is `'4'`, and such a row is kept as BWV 4 |
| CantataCleaning.LeadingZeroExample | data.collecting/web.scraping/instruments.py:96-98 | `'017'` has no blank after its zero, so only `lstrip` applies and the row is kept as BWV 17 |
| CantataCleaning.FuneralOdeExample | data.collecting/web.scraping/instruments.py:101 | BWV 198 is dropped |
| CantataCleaning.AllZeroExample | data.collecting/web.scraping/wiki/all.cantatas.py:53-57 | `'0 0'` loses its prefix, the `'0'` left strips to `''`, and `int` raises |
| CantataCleaning.DecimalValueAtLeast | data.collecting/web.scraping/instruments.py:100 | a digit string of `k + 1` digits without a leading zero is worth at least 10^k |
| CantataCleaning.Pow10Exceeds | data.collecting/web.scraping/instruments.py:100 | 10^19 is at least 2^63 |
| CantataCleaning.TooLargeExample | data.collecting/web.scraping/instruments.py:97-100 | a twenty-digit BWV such as `'99999999999999999999'` passes the numeric filter and then raises the overflow error |
| InstrumentParsing.RemoveParens | data.collecting/web.scraping/instruments.py:134 | deleting `[()]` keeps every other character and never lengthens the text |
| InstrumentParsing.RemoveParensConcat | data.collecting/web.scraping/instruments.py:134 | deleting parentheses works piece by piece |
| InstrumentParsing.RemoveParensKeeps | data.collecting/web.scraping/instruments.py:134 | text without parentheses is unchanged |
| InstrumentParsing.RemoveParensIdempotent | data.collecting/web.scraping/instruments.py:134 | deleting the parentheses twice is deleting them once |
| InstrumentParsing.LeadingDigits | data.collecting/web.scraping/instruments.py:135 | `(^\d+)` matches the maximal run of digits at the start |
| InstrumentParsing.LeadingDigitsOfConcat | data.collecting/web.scraping/instruments.py:135-136 | digits followed by text that does not start with a digit: the run is exactly those digits |
| InstrumentParsing.ParseToken | data.collecting/web.scraping/instruments.py:133-136 | keeps the BWV; quantity then instrument spell the token without parentheses; the quantity is a non-empty digit run, present iff the token starts with a digit; the instrument does not start with a digit |
| InstrumentParsing.ParseTokenUnique | data.collecting/web.scraping/instruments.py:135-136 | any split of the stripped token into digits and a rest not starting with a digit is the parse |
| InstrumentParsing.CellRows | data.collecting/web.scraping/instruments.py:133-136 | one row per blank-separated token (blanks + 1), each tagged with the cell's BWV, no instrument holding a blank or parenthesis |
| InstrumentParsing.RemoveParensJoin | data.collecting/web.scraping/instruments.py:133-134 | deleting parentheses commutes with joining on a blank |
| InstrumentParsing.CellRowsRecover | data.collecting/web.scraping/instruments.py:133-136 | joining the rows' texts with blanks gives the cell without parentheses: no token is lost or reordered |
| InstrumentParsing.LowerCell | data.collecting/web.scraping/instruments.py:130 | `str.lower` keeps null cells null and lower-cases the others |
| InstrumentParsing.LowerColumn | data.collecting/web.scraping/instruments.py:130 | only the instrument column changes; BWVs and other cells stay |
| InstrumentParsing.FilledCellsAt | data.collecting/web.scraping/instruments.py:131 | a row with a non-null cell contributes its pair between the pairs of the rows before and after it |
| InstrumentParsing.FilledCellsFrom | data.collecting/web.scraping/instruments.py:131 | every pair comes from a table row whose cell is not null |
| InstrumentParsing.FlattenConcat | data.collecting/web.scraping/instruments.py:137 | concatenating the parts of two runs of cells is the parts of the combined run |
| InstrumentParsing.FlattenTagged | data.collecting/web.scraping/instruments.py:132-137 | when each cell's parse tags its rows with its BWV, every output row carries one of the cells' BWVs |
| InstrumentParsing.FlattenAt | data.collecting/web.scraping/instruments.py:132-137 | each cell's rows sit as one block right after the rows of the cells before it |
| InstrumentParsing.GroupRowsConcat | data.collecting/web.scraping/instruments.py:131-137 | the rows of two stacked tables are the rows of each in turn |
| InstrumentParsing.GroupRowsAt | data.collecting/web.scraping/instruments.py:131-137 | a non-null cell's token rows appear as one block, right after the rows of the earlier table rows |
| InstrumentParsing.GroupRowsTagged | data.collecting/web.scraping/instruments.py:131-137 | every output row carries the BWV of a table row whose cell is not null |
| InstrumentParsing.AppendParsed | data.collecting/web.scraping/instruments.py:132-137 | the loop's `pd.concat` leaves the earlier rows and appends every cell's rows in order |
| InstrumentParsing.LoweredTagged | data.collecting/web.scraping/instruments.py:130-131 | lower-casing keeps which cells are null, so rows still come from non-null cells of the original table |
| InstrumentParsing.ProcessInstrumentGroup | data.collecting/web.scraping/instruments.py:127-137 | the column is lower-cased; the earlier output rows stay; the new rows are every non-null cell's token rows in table order, each with the BWV of a non-null row |
| Strings.Decimal | data.collecting/bach-cantatas/src/christian_holidays.py:545 | `str(n)` is a non-empty digit string with no leading zero unless `n` is 0 |
| Strings.DecimalRoundTrip | data.collecting/bach-cantatas/src/christian_holidays.py:545 | reading `str(n)` back gives `n` |
| Strings.DecimalInjective | data.collecting/bach-cantatas/src/christian_holidays.py:545 | different numbers print differently, so `NAME_1` … `NAME_count` are distinct |
| Strings.Upper | data.collecting/bach-cantatas/src/christian_holidays.py:545 | `upper()` keeps the length and upper-cases each character |
| Strings.Capitalize | data.collecting/bach-cantatas/src/christian_holidays.py:546 | `capitalize()` upper-cases the first character and lower-cases the rest |
| Strings.Lower | data.collecting/web.scraping/instruments.py:130 | `lower()` keeps the length and lower-cases each character |
| Strings.RStripSpec | data.collecting/bach-cantatas/src/christian_holidays.py:546 | `rstrip()` keeps a prefix that ends in a non-blank and drops only whitespace |
| Strings.RStripOneBlank | data.collecting/bach-cantatas/src/christian_holidays.py:546 | a text ending in a visible character loses exactly one appended blank |
| Strings.Split | data.collecting/web.scraping/instruments.py:133 | `split(' ')` gives at least one field and no field holds the separator |
| Strings.SplitJoin | data.collecting/web.scraping/instruments.py:133 | joining the fields with the separator gives the text back |
| Strings.SplitCount | data.collecting/web.scraping/instruments.py:133 | there is one field more than there are separators |
| Playground.EasterMonthDay | data.collecting/web.scraping/playground.py:19-26 | month 3 or 4, and a day that is valid for it |
| Playground.EasterMonthDayAgrees | data.collecting/web.scraping/playground.py:19-28 | the same `(month, day)` as `get_easter` and the engine's `calc_easter`, for every year |
| Playground.CalcEaster | data.collecting/web.scraping/playground.py:10-28 | `date(year, month, day)` exists exactly for `date`'s years, between 22 March and 25 April |
| Playground.CalcEasterAgrees | data.collecting/web.scraping/playground.py:10-28 | all three copies of the algorithm return the same date |
| Playground.CalcEasterIsSunday | data.collecting/web.scraping/playground.py:11-17 | the doc-comment's promise: the date is a Sunday |
| Dates.NewYearsApart | data.collecting/web.scraping/playground.py:51 | each year adds at least 365 days to New Year's Day, so New Years move forward with the year |
| Playground.EasterIncreasing | data.collecting/web.scraping/playground.py:51-52 | a later year's Easter is a later date |
| Playground.ListYears | data.collecting/web.scraping/playground.py:51-53 | one date per year of `range(start, end)`, in year order |
| Playground.EasterDates | data.collecting/web.scraping/playground.py:48-53 | the loop yields 92 dates, the `k`-th being Easter of `1950 + k`, all Sundays, strictly increasing |
| Playground.SearchFrom | data.collecting/web.scraping/playground.py:35-36 | the first match from an index on, or `None` when there is none from there |
| Playground.Search | data.collecting/web.scraping/playground.py:35-36 | `regexp.search` finds the leftmost case-insensitive match of `what` not followed by a digit, and `None` exactly when there is none |
| Playground.SearchFindsMatch | data.collecting/web.scraping/playground.py:35-36 | whenever some index matches, the search succeeds at or before it |
| Playground.Mismatch | data.collecting/web.scraping/playground.py:35 | a position where a character differs from `what` ignoring case is no match |
| Playground.MatchAfter | data.collecting/web.scraping/playground.py:35 | a piece equal to `what` up to case, not followed by a digit, matches |
| Playground.TestRegexp | data.collecting/web.scraping/playground.py:31-37 | the search for `'bwv 4'` in the sample title succeeds, so `'matched'` is printed |
| Playground.LookaheadExample | data.collecting/web.scraping/playground.py:35 | `'bwv 4'` is not found in `'BWV 40'`: the look-ahead rejects a following digit |

## Left out

- I/O: printing, `pprint`, `strftime`, CSV export, `read_html`, the HTTP requests and the
  scraping functions (`make_request`, `get_instruments_for_cantatas`, `get_all_sources`,
  `get_all_pages`, `get_main_image_for_cantata`, `get_movements`, and the other scraping scripts).
  The models return the values that would be printed or written.
- `date_from_str` / `get_date_from_str` parsing: dates are built directly from year, month and
  day. The four-digit requirement of `%Y` becomes the supported-year precondition (1000..9999).
- The reference URLs of the enum members and seasons, and the Python `Enum` machinery
  (metaclass, `__members__`, `vars(t)` beyond `ident`, `title`, `labels` and `dates`). The enum is
  a closed datatype whose declaration order, names, titles and labels are modelled.
- `main()` in `christian_holidays.py` mutates the enum's singleton members, so a second call
  appends a second date to each list. The model covers one call. No idempotence is claimed.
- `pd.to_numeric(..., errors='coerce')` also accepts signs, decimal points, exponents and
  surrounding blanks. The model's numeric test accepts non-empty ASCII digit strings only.
  Non-string BWV cells (`str(x)` of a number) are not modelled.
- `str.lower`, `str.upper`, `str.capitalize`, `\d` and the regex `(?i)` flag are modelled on ASCII.
  Unicode case folding and Unicode digits are out.
- `Playground.Search` treats `what` as literal text. Regex metacharacters inside `what` are not
  interpreted.
- `Playground.TestRegexp`: proves that a match exists, at or before index 28. It does not pin the
  exact match index, which the script does not use either.
- `sort_values` uses an unstable sort. `LutheranCalendar.SortByDateCorrect` therefore states
  only "sorted by date and the same rows". The order of rows that share a date is not fixed.
- The constant `Instrument` / `InstrumentGroup` tables in `instruments.py`, `spotify.py`, the
  `supabase.tsx` page and the `EventType` links are data or UI that no modelled function reads.
- `instruments.py`'s `__main__` calls `process_instrument_group` with the global frames. Here the
  frame and the accumulated rows are parameters and results of `ProcessInstrumentGroup`. The
  sequence of five calls is not modelled separately.
- `wiki/all.cantatas.py` as a whole does not compile (its `main` has only comments). Only its
  `clean_cantatas` is modelled; its body is the same as in `instruments.py`.
- The deep copy in both `clean_cantatas` functions is implicit: the model is a pure function
  over immutable sequences, so the caller's table cannot change.
- `lutherancalendar.py` computes `adv2`, `adv3`, `hols` and `goof` but never appends them, and the
  matching `EventType` members are commented out. The model has no such members. So
  `KindDatePartition` states that no other event gets a row.

- ChristianHolidays.LastWeekday: the model is total on ordinals. Python raises `OverflowError`
  when `closest`, or the day a week before it, falls outside `datetime`'s range. That case is
  stated as `LastWeekdayInRange`, and the `...LocatorsInRange` lemmas prove that every call from a
  supported year stays inside the range.
- ChristianHolidays.NextWeekday: the same, with `NextWeekdayInRange`.
- Helpers.GetLastWeekday: the same as `ChristianHolidays.LastWeekday`, which it equals.
- Helpers.GetNextWeekday: the same as `ChristianHolidays.NextWeekday`, which it equals.
- LutheranCalendar.GetStaticDates: every failure carries `OutOfBoundsError`. For years outside
  1000..9999 the strings `f'{year}-12-25'` and the like are not four-digit dates, and pandas may
  report a parse error instead; that error is folded into the same message.
- LutheranCalendar.GetDynamicDates: pandas' Timestamp range is not modelled for the datetimes it
  appends. In the script, `get_static_dates` has already raised for any year outside 1678..2261.
- CantataCleaning.ToInt: `astype(int)` is taken to be int64, as on 64-bit Linux and macOS. On
  platforms where it is int32 the overflow bound would be 2^31.

## Where the description and the code differ

The model follows the code in each case.

- The Trinity loop numbers its keys from Whit Sunday: `TRINITY_k` is Easter + `(7 + k)` weeks.
  `TRINITY_1` is therefore Trinity Sunday itself. 23 to 28 keys are kept per year
  (`FeastGroups.TrinityCount`), where counting only the Sundays *after* Trinity would give 22 to 27.
  The cantata table agrees with the code: its `TRINITY_1` lists the Trinity Sunday cantatas
  129, 165, 176 and 194.
- Ascension is the Thursday strictly before Exaudi, i.e. Easter + 39 days, three days before
  Exaudi (`FeastGroups.AscensionDate`). It is not ten days before.
- `EPIPHANY_k` for k ≥ 2 is 6 January + `(k-1)` weeks, which is not necessarily a Sunday. The
  variant calendar instead starts from the Sunday after 6 January. The two are kept separate.
- The fixed feasts carry only the Static label. No member carries the sanctoral-cycle label
  (`ChurchYear.Labels`).
