/**
 * `ChristianHoliday.dates_for_holiday` and `calc_dates_for`: for each year of a range, pick the
 * group calculator by testing the member's name and the title of its first label, in a fixed
 * order, and append the date the calculator's dictionary holds under the member's name (or
 * `None`); and `main`, which does this for every member over `range(2022, 2023)`.
 */
module HolidayDispatch {
  import opened Wrappers
  import opened Strings
  import opened Dates
  import opened ChristianHolidays
  import opened ChurchYear
  import opened FeastGroups

  // ---------------------------------------------------------------- routing

  /** The calculator `dates_for_holiday` runs for a member: the first `case` whose guard holds,
      testing substrings of the name and of the first label's title; `None` is `case _: pass`. */
  function Route(f: Feast): Option<Season> {
    var name := Name(f);
    var head := LabelHead(Labels(f)[0]);
    if Contains(name, "ADVENT_") then Some(AdventSeason)
    else if Contains(name, "CHRISTMAS_") then Some(ChristmasSeason)
    else if Contains(name, "NEW_YEAR_") then Some(NewYearSeason)
    else if Contains(name, "EPIPHANY_") then Some(EpiphanySeason)
    else if Contains(head, SeasonTitle(Shrovetide)) then Some(Shrovetide)
    else if Contains(head, SeasonTitle(HolyWeek)) then Some(HolyWeek)
    else if Contains(head, SeasonTitle(AfterEaster)) then Some(AfterEaster)
    else if Contains(name, "WHIT_") then Some(WhitSeason)
    else if Contains(name, "TRINITY_") then Some(TrinitySeason)
    else if Contains(head, SeasonTitle(Static)) then Some(Static)
    else None
  }

  /** A numbered name contains its stem. */
  lemma NumberedHasStem(stem: string, n: nat)
    ensures Contains(stem + Decimal(n), stem)
  {
    PrefixOfConcat(stem, Decimal(n));
    PrefixIsContained(stem + Decimal(n), stem);
  }

  /** A numbered name cannot contain a pattern with a letter its stem lacks. */
  lemma NumberedLacks(stem: string, n: nat, p: string, k: int)
    requires 0 <= k < |p| && !IsDigit(p[k]) && p[k] !in stem
    ensures !Contains(stem + Decimal(n), p)
  {
    NonDigitInConcat(stem, Decimal(n), p[k]);
    AbsentCharNotContained(stem + Decimal(n), p, k);
  }

  /** A title contains itself. */
  lemma HasItself(s: string)
    ensures Contains(s, s)
  {
    PrefixIsContained(s, s);
  }

  /** A name without an underscore matches none of the name tests. */
  lemma NoUnderscore(s: string)
    requires '_' !in s
    ensures !Contains(s, "ADVENT_") && !Contains(s, "CHRISTMAS_") && !Contains(s, "NEW_YEAR_")
    ensures !Contains(s, "EPIPHANY_") && !Contains(s, "WHIT_") && !Contains(s, "TRINITY_")
  {
    AbsentCharNotContained(s, "ADVENT_", 6);
    AbsentCharNotContained(s, "CHRISTMAS_", 9);
    AbsentCharNotContained(s, "NEW_YEAR_", 8);
    AbsentCharNotContained(s, "EPIPHANY_", 8);
    AbsentCharNotContained(s, "WHIT_", 4);
    AbsentCharNotContained(s, "TRINITY_", 7);
  }

  /** Advent, Christmas, New Year and Epiphany members are caught by their names. */
  lemma RouteBeforeLent(f: Feast)
    requires f.Advent? || f.Christmas? || f.NewYear? || f.Epiphany?
    ensures Route(f) == Some(SeasonOf(f))
  {
    match f
    case Advent(n) =>
      NumberedHasStem("ADVENT_", n);
    case Christmas(n) =>
      NumberedHasStem("CHRISTMAS_", n);
      NumberedLacks("CHRISTMAS_", n, "ADVENT_", 2);
    case NewYear(n) =>
      NumberedHasStem("NEW_YEAR_", n);
      NumberedLacks("NEW_YEAR_", n, "ADVENT_", 2);
      NumberedLacks("NEW_YEAR_", n, "CHRISTMAS_", 0);
    case Epiphany(n) =>
      NumberedHasStem("EPIPHANY_", n);
      NumberedLacks("EPIPHANY_", n, "ADVENT_", 2);
      NumberedLacks("EPIPHANY_", n, "CHRISTMAS_", 0);
      NumberedLacks("EPIPHANY_", n, "NEW_YEAR_", 2);
  }

  /** The Shrovetide Sundays are caught by their label. */
  lemma RouteShrovetide(f: Feast)
    requires f == Septuagesima || f == Sexagesima || f == Quinquagesima
    ensures Route(f) == Some(SeasonOf(f))
  {
    NoUnderscore(Name(f));
    HasItself(SeasonTitle(Shrovetide));
  }

  /** A two-word Holy Week name matches none of the name tests before Lent. */
  lemma HolyDayNameTests(name: string)
    requires name == "PALM_SUNDAY" || name == "GOOD_FRIDAY" || name == "HOLY_SATURDAY"
    ensures !Contains(name, "ADVENT_") && !Contains(name, "CHRISTMAS_")
    ensures !Contains(name, "NEW_YEAR_") && !Contains(name, "EPIPHANY_")
  {
    AbsentCharNotContained(name, "ADVENT_", 2);
    AbsentCharNotContained(name, "CHRISTMAS_", 0);
    AbsentCharNotContained(name, "NEW_YEAR_", 2);
    AbsentCharNotContained(name, "EPIPHANY_", 0);
  }

  /** The Holy Week days with a two-word name are caught by their label. */
  lemma RouteHolyDays(f: Feast)
    requires f == PalmSunday || f == GoodFriday || f == HolySaturday
    ensures Route(f) == Some(SeasonOf(f))
  {
    HolyDayNameTests(Name(f));
    HasItself(SeasonTitle(HolyWeek));
  }

  /** An Easter day's name matches none of the name tests before Lent. */
  lemma EasterNameTests(n: nat)
    ensures !Contains(Name(Easter(n)), "ADVENT_") && !Contains(Name(Easter(n)), "CHRISTMAS_")
    ensures !Contains(Name(Easter(n)), "NEW_YEAR_") && !Contains(Name(Easter(n)), "EPIPHANY_")
  {
    NumberedLacks("EASTER_", n, "ADVENT_", 2);
    NumberedLacks("EASTER_", n, "CHRISTMAS_", 0);
    NumberedLacks("EASTER_", n, "NEW_YEAR_", 2);
    NumberedLacks("EASTER_", n, "EPIPHANY_", 1);
  }

  /** The Easter days are caught by their label. */
  lemma RouteEaster(n: nat)
    ensures Route(Easter(n)) == Some(HolyWeek)
  {
    EasterNameTests(n);
    HasItself(SeasonTitle(HolyWeek));
  }

  /** The one name after Easter with an underscore matches none of the name tests. */
  lemma MisericordiasNameTests(name: string)
    requires name == "MISERICORDIAS_DOMINI"
    ensures !Contains(name, "ADVENT_") && !Contains(name, "CHRISTMAS_")
    ensures !Contains(name, "NEW_YEAR_") && !Contains(name, "EPIPHANY_")
  {
    AbsentCharNotContained(name, "ADVENT_", 2);
    AbsentCharNotContained(name, "CHRISTMAS_", 1);
    AbsentCharNotContained(name, "NEW_YEAR_", 2);
    AbsentCharNotContained(name, "EPIPHANY_", 1);
  }

  /** The title "After Easter" contains itself and neither earlier label test. */
  lemma AfterEasterTitleTests()
    ensures Contains(SeasonTitle(AfterEaster), SeasonTitle(AfterEaster))
    ensures !Contains(SeasonTitle(AfterEaster), SeasonTitle(Shrovetide))
    ensures !Contains(SeasonTitle(AfterEaster), SeasonTitle(HolyWeek))
  {
    var head := SeasonTitle(AfterEaster);
    AbsentCharNotContained(head, SeasonTitle(Shrovetide), 0);
    AbsentCharNotContained(head, SeasonTitle(HolyWeek), 0);
    HasItself(head);
  }

  /** The Sundays after Easter and Ascension are caught by their label. */
  lemma RouteAfterEaster(f: Feast)
    requires SeasonOf(f) == AfterEaster
    ensures Route(f) == Some(AfterEaster)
  {
    if f == MisericordiasDomini {
      MisericordiasNameTests(Name(f));
    } else {
      NoUnderscore(Name(f));
    }
    AfterEasterTitleTests();
  }

  /** A Whit name matches none of the name tests before it and does match its own. */
  lemma WhitNameTests(n: nat)
    ensures !Contains(Name(Whit(n)), "ADVENT_") && !Contains(Name(Whit(n)), "CHRISTMAS_")
    ensures !Contains(Name(Whit(n)), "NEW_YEAR_") && !Contains(Name(Whit(n)), "EPIPHANY_")
    ensures Contains(Name(Whit(n)), "WHIT_")
  {
    NumberedLacks("WHIT_", n, "ADVENT_", 2);
    NumberedLacks("WHIT_", n, "CHRISTMAS_", 0);
    NumberedLacks("WHIT_", n, "NEW_YEAR_", 0);
    NumberedLacks("WHIT_", n, "EPIPHANY_", 1);
    NumberedHasStem("WHIT_", n);
  }

  /** The Whit title is neither of the Easter label tests. */
  lemma WhitTitleTests()
    ensures !Contains(SeasonTitle(WhitSeason), SeasonTitle(Shrovetide))
    ensures !Contains(SeasonTitle(WhitSeason), SeasonTitle(HolyWeek))
    ensures !Contains(SeasonTitle(WhitSeason), SeasonTitle(AfterEaster))
  {
  }

  /** Whit members are caught by their names. */
  lemma RouteWhit(n: nat)
    ensures Route(Whit(n)) == Some(WhitSeason)
  {
    WhitNameTests(n);
    WhitTitleTests();
  }

  /** A Trinity name matches none of the name tests before it and does match its own. */
  lemma TrinityNameTests(n: nat)
    ensures !Contains(Name(Trinity(n)), "ADVENT_") && !Contains(Name(Trinity(n)), "CHRISTMAS_")
    ensures !Contains(Name(Trinity(n)), "NEW_YEAR_") && !Contains(Name(Trinity(n)), "EPIPHANY_")
    ensures !Contains(Name(Trinity(n)), "WHIT_") && Contains(Name(Trinity(n)), "TRINITY_")
  {
    NumberedLacks("TRINITY_", n, "ADVENT_", 2);
    NumberedLacks("TRINITY_", n, "CHRISTMAS_", 0);
    NumberedLacks("TRINITY_", n, "NEW_YEAR_", 2);
    NumberedLacks("TRINITY_", n, "EPIPHANY_", 1);
    NumberedLacks("TRINITY_", n, "WHIT_", 0);
    NumberedHasStem("TRINITY_", n);
  }

  /** The Trinity title is none of the Easter label tests. */
  lemma TrinityTitleTests()
    ensures !Contains(SeasonTitle(TrinitySeason), SeasonTitle(Shrovetide))
    ensures !Contains(SeasonTitle(TrinitySeason), SeasonTitle(HolyWeek))
    ensures !Contains(SeasonTitle(TrinitySeason), SeasonTitle(AfterEaster))
  {
  }

  /** Trinity members are caught by their names. */
  lemma RouteTrinity(n: nat)
    ensures Route(Trinity(n)) == Some(TrinitySeason)
  {
    TrinityNameTests(n);
    TrinityTitleTests();
  }

  /** The saints' days fall through every name test and are caught by the static label. */
  lemma RouteStatic(f: Feast)
    requires SeasonOf(f) == Static
    ensures Route(f) == Some(Static)
  {
    NoUnderscore(Name(f));
    HasItself(SeasonTitle(Static));
  }

  /** Every feast is routed to the calculator of its own season: no member falls through to
      `case _`, and none is caught by an earlier season's test. */
  lemma RouteIsSeason(f: Feast)
    ensures Route(f) == Some(SeasonOf(f))
  {
    match SeasonOf(f)
    case AdventSeason | ChristmasSeason | NewYearSeason | EpiphanySeason => RouteBeforeLent(f);
    case Shrovetide => RouteShrovetide(f);
    case HolyWeek =>
      if f.Easter? { RouteEaster(f.n); } else { RouteHolyDays(f); }
    case AfterEaster => RouteAfterEaster(f);
    case WhitSeason => RouteWhit(f.n);
    case TrinitySeason => RouteTrinity(f.n);
    case Static => RouteStatic(f);
  }

  // ------------------------------------------------------------ calculators

  /** The years a season's calculator accepts: those that only compute Easter need a year
      `datetime` can hold; those that parse a fixed day need a four-digit year. */
  predicate Computable(s: Season, year: int) {
    match s
    case Shrovetide | HolyWeek | AfterEaster | WhitSeason => MinYear <= year <= MaxYear
    case _ => SupportedYear(year)
  }

  /** The dictionary the season's calculator returns for a year. */
  function SeasonGroup(s: Season, year: int): Group
    requires Computable(s, year)
  {
    match s
    case AdventSeason => AdventGroup(year)
    case ChristmasSeason => ChristmasGroup(year)
    case NewYearSeason => NewYearGroup(year)
    case EpiphanySeason => EpiphanyGroup(year)
    case Shrovetide => ShrovetideGroup(year)
    case HolyWeek => HolyWeekGroup(year)
    case AfterEaster => AfterEasterGroup(year)
    case WhitSeason => WhitGroup(year)
    case TrinitySeason => TrinityGroup(year)
    case Static => StaticGroup(year)
  }

  /** The calculator as the bound method `dates_for_holiday` hands to `calc_dates_for`. */
  function Calculator(s: Season): (run: int --> Group)
    ensures forall year :: Computable(s, year) ==> run.requires(year) && run(year) == SeasonGroup(s, year)
  {
    (year: int) requires Computable(s, year) => SeasonGroup(s, year)
  }

  /** `calc_dates_for(method_to_run, holiday, year)`: the value appended for one year, `dict.get`
      on the member's name in the calculator's dictionary. */
  function CalcDatesFor(methodToRun: int --> Group, f: Feast, year: int): (r: Option<Date>)
    requires methodToRun.requires(year)
    ensures r.Some? <==> f in methodToRun(year)
    ensures r.Some? ==> r.value == methodToRun(year)[f]
  {
    Get(methodToRun(year), f)
  }

  // Each calculator places only members of its own season.

  lemma AdventGroupHoldsItsSeason(year: int)
    requires SupportedYear(year)
    ensures forall f :: f in AdventGroup(year) ==> IsMember(f) && SeasonOf(f) == AdventSeason
  {
    AdventDates(year);
  }

  lemma ChristmasGroupHoldsItsSeason(year: int)
    requires SupportedYear(year)
    ensures forall f :: f in ChristmasGroup(year) ==> IsMember(f) && SeasonOf(f) == ChristmasSeason
  {
    ChristmasDates(year);
  }

  lemma NewYearGroupHoldsItsSeason(year: int)
    requires SupportedYear(year)
    ensures forall f :: f in NewYearGroup(year) ==> IsMember(f) && SeasonOf(f) == NewYearSeason
  {
    NewYearDates(year);
  }

  lemma EpiphanyGroupHoldsItsSeason(year: int)
    requires SupportedYear(year)
    ensures forall f :: f in EpiphanyGroup(year) ==> IsMember(f) && SeasonOf(f) == EpiphanySeason
  {
    EpiphanyDates(year);
  }

  lemma ShrovetideGroupHoldsItsSeason(year: int)
    requires MinYear <= year <= MaxYear
    ensures forall f :: f in ShrovetideGroup(year) ==> IsMember(f) && SeasonOf(f) == Shrovetide
  {
    ShrovetideDates(year);
  }

  lemma HolyWeekGroupHoldsItsSeason(year: int)
    requires MinYear <= year <= MaxYear
    ensures forall f :: f in HolyWeekGroup(year) ==> IsMember(f) && SeasonOf(f) == HolyWeek
  {
    HolyWeekDates(year);
  }

  lemma AfterEasterGroupHoldsItsSeason(year: int)
    requires MinYear <= year <= MaxYear
    ensures forall f :: f in AfterEasterGroup(year) ==> IsMember(f) && SeasonOf(f) == AfterEaster
  {
    AfterEasterDates(year);
  }

  lemma WhitGroupHoldsItsSeason(year: int)
    requires MinYear <= year <= MaxYear
    ensures forall f :: f in WhitGroup(year) ==> IsMember(f) && SeasonOf(f) == WhitSeason
  {
    WhitDates(year);
  }

  lemma TrinityGroupHoldsItsSeason(year: int)
    requires SupportedYear(year)
    ensures forall f :: f in TrinityGroup(year) ==> IsMember(f) && SeasonOf(f) == TrinitySeason
  {
    TrinityDomain(EasterDate(year) + 7 * Week, Advent4(year) - 3 * Week);
  }

  lemma StaticGroupHoldsItsSeason(year: int)
    requires SupportedYear(year)
    ensures forall f :: f in StaticGroup(year) ==> IsMember(f) && SeasonOf(f) == Static
  {
    StaticDates(year);
  }

  /** Every calculator places only members of its own season. */
  lemma GroupHoldsItsSeason(s: Season, year: int)
    requires Computable(s, year)
    ensures forall f :: f in SeasonGroup(s, year) ==> IsMember(f) && SeasonOf(f) == s
  {
    match s
    case AdventSeason => AdventGroupHoldsItsSeason(year);
    case ChristmasSeason => ChristmasGroupHoldsItsSeason(year);
    case NewYearSeason => NewYearGroupHoldsItsSeason(year);
    case EpiphanySeason => EpiphanyGroupHoldsItsSeason(year);
    case Shrovetide => ShrovetideGroupHoldsItsSeason(year);
    case HolyWeek => HolyWeekGroupHoldsItsSeason(year);
    case AfterEaster => AfterEasterGroupHoldsItsSeason(year);
    case WhitSeason => WhitGroupHoldsItsSeason(year);
    case TrinitySeason => TrinityGroupHoldsItsSeason(year);
    case Static => StaticGroupHoldsItsSeason(year);
  }

  /** The dispatch and the calculators agree: whatever a calculator places is routed back to that
      calculator, so `dict.get` on the member's name can find it. */
  lemma GroupKeysRouteHome(s: Season, year: int, f: Feast)
    requires Computable(s, year) && f in SeasonGroup(s, year)
    ensures IsMember(f) && Route(f) == Some(s)
  {
    GroupHoldsItsSeason(s, year);
    RouteIsSeason(f);
  }

  // --------------------------------------------------------------- the loop

  /** The number of years in `range(start, stop)`. */
  function RangeLength(start: int, stop: int): nat {
    if start < stop then stop - start else 0
  }

  /** The loop of `dates_for_holiday`: `calc_dates_for` once per year of `range(start, stop)`,
      with the calculator the dispatch chose. */
  method RunYears(run: int --> Group, f: Feast, start: int, stop: int)
    returns (column: seq<Option<Date>>)
    requires forall year :: start <= year < stop ==> run.requires(year)
    ensures |column| == RangeLength(start, stop)
    ensures forall k :: 0 <= k < |column| ==> column[k] == CalcDatesFor(run, f, start + k)
  {
    column := [];
    var year := start;
    while year < stop
      invariant year == start || start <= year <= stop
      invariant |column| == RangeLength(start, year)
      invariant forall k :: 0 <= k < |column| ==> column[k] == CalcDatesFor(run, f, start + k)
      decreases stop - year
    {
      column := column + [CalcDatesFor(run, f, year)];
      year := year + 1;
    }
  }

  /** `dates_for_holiday(holiday, range(start, stop))` on a member whose `dates` list is `dates`:
      one value appended per year, the date the member's own season places it on that year, or
      `None` when the calculator leaves it out. */
  method DatesForHoliday(dates: seq<Option<Date>>, f: Feast, start: int, stop: int)
    returns (r: seq<Option<Date>>)
    requires forall year :: start <= year < stop ==> Computable(SeasonOf(f), year)
    ensures |r| == |dates| + RangeLength(start, stop) && r[..|dates|] == dates
    ensures forall j :: |dates| <= j < |r| ==> r[j] == Get(SeasonGroup(SeasonOf(f), start + (j - |dates|)), f)
  {
    var route := Route(f);
    RouteIsSeason(f);
    var run := Calculator(route.value);
    var column := RunYears(run, f, start, stop);
    r := dates + column;
    assert r[..|dates|] == dates;
    forall j | |dates| <= j < |r| ensures r[j] == Get(SeasonGroup(SeasonOf(f), start + (j - |dates|)), f) {
      assert r[j] == column[j - |dates|];
    }
  }

  /** The members a calculator can leave out in some year: the Sunday after Christmas, the
      Sundays after Epiphany and the Sundays after Trinity. */
  predicate MayBeUndated(f: Feast) {
    f == Christmas(4) || (f.Epiphany? && f.n >= 2) || f.Trinity?
  }

  /** Every other member gets a date in every year: its entry is never `None`. */
  lemma AlwaysDated(f: Feast, year: int)
    requires IsMember(f) && SupportedYear(year) && !MayBeUndated(f)
    ensures f in SeasonGroup(SeasonOf(f), year)
  {
    match SeasonOf(f)
    case AdventSeason => AdventDates(year);
    case ChristmasSeason => ChristmasDates(year);
    case NewYearSeason => NewYearDates(year);
    case EpiphanySeason => EpiphanyDates(year);
    case Shrovetide => ShrovetideDates(year);
    case HolyWeek => HolyWeekDates(year);
    case AfterEaster => AfterEasterDates(year);
    case WhitSeason => WhitDates(year);
    case TrinitySeason => assert false;
    case Static => StaticDates(year);
  }

  // ------------------------------------------------------------------ main

  /** One row of the frame `main` builds from `vars(member)`; the links are not modelled. */
  datatype HolidayRow = HolidayRow(ident: string, title: string, labels: seq<Label>, dates: seq<Option<Date>>)

  /** A four-digit year is one every calculator accepts. */
  lemma SupportedIsComputable(s: Season, year: int)
    requires SupportedYear(year)
    ensures Computable(s, year)
  {
  }

  /** The row `main` produces for member `f` over `range(start, stop)`: the member's ident,
      title and labels, and one entry per year, the member's date in its season's group. */
  function RowOf(f: Feast, start: int, stop: int): HolidayRow
    requires IsMember(f)
    requires forall year :: start <= year < stop ==> SupportedYear(year)
  {
    HolidayRow(Name(f), Title(f), Labels(f),
      seq(RangeLength(start, stop), k requires 0 <= k < RangeLength(start, stop) =>
        SupportedIsComputable(SeasonOf(f), start + k);
        Get(SeasonGroup(SeasonOf(f), start + k), f)))
  }

  /** One iteration of `main`: `member.ident = member.name`, then `dates_for_holiday` on the
      member's empty dates list. */
  method MemberRow(member: Feast, start: int, stop: int) returns (row: HolidayRow)
    requires IsMember(member)
    requires forall year :: start <= year < stop ==> SupportedYear(year)
    ensures row == RowOf(member, start, stop)
  {
    var dates := DatesForHoliday([], member, start, stop);
    row := HolidayRow(Name(member), Title(member), Labels(member), dates);
    assert dates == RowOf(member, start, stop).dates;
  }

  /** `main` over `range(start, stop)`: every member in declaration order, its `ident` set to
      its name, its dates computed from an empty list. */
  method HolidayRows(start: int, stop: int) returns (rows: seq<HolidayRow>)
    requires forall year :: start <= year < stop ==> SupportedYear(year)
    ensures |rows| == MemberCount
    ensures forall i :: 0 <= i < MemberCount ==>
      IsMember(MemberAt(i)) && rows[i] == RowOf(MemberAt(i), start, stop)
  {
    rows := [];
    var i := 0;
    while i < MemberCount
      invariant 0 <= i <= MemberCount && |rows| == i
      invariant forall j :: 0 <= j < i ==>
        IsMember(MemberAt(j)) && rows[j] == RowOf(MemberAt(j), start, stop)
    {
      MemberAtIsMember(i);
      var row := MemberRow(MemberAt(i), start, stop);
      rows := rows + [row];
      i := i + 1;
    }
  }

  /** `main`: one year, 2022, so each member's dates list holds exactly that year's entry. */
  method ChurchYearFrame() returns (rows: seq<HolidayRow>)
    ensures |rows| == MemberCount
    ensures forall i :: 0 <= i < MemberCount ==>
      IsMember(MemberAt(i))
      && rows[i].ident == Name(MemberAt(i)) && rows[i].title == Title(MemberAt(i))
      && rows[i].labels == Labels(MemberAt(i))
      && rows[i].dates == [Get(SeasonGroup(SeasonOf(MemberAt(i)), 2022), MemberAt(i))]
  {
    rows := HolidayRows(2022, 2023);
  }
}
