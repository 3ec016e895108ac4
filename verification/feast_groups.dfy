/**
 * The per-year group calculators of `ChristianHoliday` (`__advents`, `__christmas`,
 * `__new_year`, `__epiphany`, `__shrovetide`, `__holy_week`, `__after_easter`, `__whit`,
 * `__trinity`, `__static_dates`). Each builds a dictionary from member names to dates; here
 * the dictionary is keyed by the member itself.
 */
module FeastGroups {
  import opened Wrappers
  import opened Dates
  import opened ChristianHolidays
  import opened ChurchYear

  /** A group calculator's result: the date of every member the group places in the year. */
  type Group = map<Feast, Date>

  predicate Distinct(keys: seq<Feast>) {
    forall i, j :: 0 <= i < j < |keys| ==> keys[i] != keys[j]
  }

  /** A date passes the optional strict cut-off. */
  predicate Before(d: Date, cutoff: Option<Date>) {
    cutoff.None? || d < cutoff.value
  }

  /** The dates `first`, `first + 1 week`, ... that a loop computes from its index. */
  function Weekly(first: Date, n: nat): (ds: seq<Date>)
    ensures |ds| == n
  {
    seq(n, i requires 0 <= i < n => first + 7 * i)
  }

  /** The dates `first`, `first + 1 day`, ... that a loop computes from its index. */
  function Daily(first: Date, n: nat): (ds: seq<Date>)
    ensures |ds| == n
  {
    seq(n, i requires 0 <= i < n => first + i)
  }

  /** The loops `for index, key in enumerate(keys): ret_val[key] = date`, with `dates[index]` the
      date computed from the index and the assignment guarded by `date < cutoff` where a cut-off
      is given. */
  function Enumerate(keys: seq<Feast>, dates: seq<Date>, cutoff: Option<Date>): (m: Group)
    requires |dates| == |keys|
    decreases |keys|
  {
    if |keys| == 0 then map[]
    else
      var last := |keys| - 1;
      var m := Enumerate(keys[..last], dates[..last], cutoff);
      if Before(dates[last], cutoff) then m[keys[last] := dates[last]] else m
  }

  /** Only the loop's keys are assigned. */
  lemma {:induction false} EnumerateDomain(keys: seq<Feast>, dates: seq<Date>, cutoff: Option<Date>)
    requires |dates| == |keys|
    ensures forall f :: f in Enumerate(keys, dates, cutoff) ==> f in keys
    decreases |keys|
  {
    if |keys| > 0 {
      var last := |keys| - 1;
      EnumerateDomain(keys[..last], dates[..last], cutoff);
      assert forall f :: f in keys[..last] ==> f in keys;
    }
  }

  /** For distinct keys, a key is assigned exactly when its date passes the cut-off, and then it
      holds that date. */
  lemma {:induction false} EnumerateAt(keys: seq<Feast>, dates: seq<Date>, cutoff: Option<Date>)
    requires |dates| == |keys| && Distinct(keys)
    ensures forall i :: 0 <= i < |keys| ==> (keys[i] in Enumerate(keys, dates, cutoff) <==> Before(dates[i], cutoff))
    ensures forall i :: 0 <= i < |keys| && keys[i] in Enumerate(keys, dates, cutoff) ==>
      Enumerate(keys, dates, cutoff)[keys[i]] == dates[i]
    decreases |keys|
  {
    if |keys| > 0 {
      var last := |keys| - 1;
      var ks, ds := keys[..last], dates[..last];
      EnumerateAt(ks, ds, cutoff);
      EnumerateDomain(ks, ds, cutoff);
      forall i | 0 <= i < last ensures ks[i] == keys[i] && ds[i] == dates[i] && keys[i] != keys[last] {
      }
    }
  }

  /** With increasing dates and a cut-off, the keys that survive form a prefix of `keys`. */
  lemma EnumeratePrefix(keys: seq<Feast>, dates: seq<Date>, cutoff: Date, i: int, j: int)
    requires |dates| == |keys| && Distinct(keys) && 0 <= i <= j < |keys| && dates[i] <= dates[j]
    requires keys[j] in Enumerate(keys, dates, Some(cutoff))
    ensures keys[i] in Enumerate(keys, dates, Some(cutoff))
  {
    EnumerateAt(keys, dates, Some(cutoff));
  }

  /** The weekly loops: with distinct keys, `keys[i]` is placed exactly when `first + i` weeks
      passes the cut-off, and then on that date. */
  lemma EnumerateWeekly(keys: seq<Feast>, first: Date, cutoff: Option<Date>)
    requires Distinct(keys)
    ensures var m := Enumerate(keys, Weekly(first, |keys|), cutoff);
      forall i :: 0 <= i < |keys| ==>
        (keys[i] in m <==> Before(first + 7 * i, cutoff)) && (keys[i] in m ==> m[keys[i]] == first + 7 * i)
  {
    var ds := Weekly(first, |keys|);
    EnumerateAt(keys, ds, cutoff);
    forall i | 0 <= i < |keys| ensures ds[i] == first + 7 * i {
    }
  }

  // ------------------------------------------------------------------ Advent

  /** The fourth Sunday in Advent: the Sunday strictly before Christmas Day. */
  function Advent4(year: int): (r: Date)
    requires SupportedYear(year)
    ensures Weekday(r) == Sunday && Ymd(year, 12, 18) <= r <= Ymd(year, 12, 24)
  {
    LastWeekday(CalcChristmas(year), Sunday)
  }

  /** The Advent members `__advents` enumerates: those named `ADVENT…` without the last. */
  function AdventKeys(): seq<Feast> {
    [Advent(1), Advent(2), Advent(3)]
  }

  /** The dictionary `__advents` builds back from the fourth Sunday `adv4`. */
  function AdventBefore(adv4: Date): Group {
    var keys := AdventKeys();
    Enumerate(keys, Weekly(adv4 - 7 * |keys|, |keys|), None)[Advent(4) := adv4]
  }

  /** `__advents(year)`. */
  function AdventGroup(year: int): Group
    requires SupportedYear(year)
  {
    AdventBefore(Advent4(year))
  }

  /** All four Sundays in Advent are placed, and nothing else. */
  lemma AdventBeforeKeys(adv4: Date)
    ensures AdventBefore(adv4).Keys == {Advent(1), Advent(2), Advent(3), Advent(4)}
  {
    var keys := AdventKeys();
    EnumerateWeekly(keys, adv4 - 7 * |keys|, None);
    EnumerateDomain(keys, Weekly(adv4 - 7 * |keys|, |keys|), None);
  }

  /** Back from a Sunday: the four Sundays, one week apart. */
  lemma AdventBeforeDates(adv4: Date)
    requires Weekday(adv4) == Sunday
    ensures var m := AdventBefore(adv4);
      m.Keys == {Advent(1), Advent(2), Advent(3), Advent(4)}
      && m[Advent(4)] == adv4
      && (forall k :: 1 <= k <= 4 ==> m[Advent(k)] == adv4 - 7 * (4 - k))
      && (forall k :: 1 <= k <= 4 ==> Weekday(m[Advent(k)]) == Sunday)
  {
    var keys := AdventKeys();
    AdventBeforeKeys(adv4);
    EnumerateWeekly(keys, adv4 - 7 * |keys|, None);
    assert Advent(1) == keys[0] && Advent(2) == keys[1] && Advent(3) == keys[2];
    WeekdayShift(adv4, -3);
    WeekdayShift(adv4, -2);
    WeekdayShift(adv4, -1);
  }

  /** The four Sundays in Advent: the fourth is the Sunday strictly before Christmas Day, and the
      others lie three, two and one weeks before it. */
  lemma AdventDates(year: int)
    requires SupportedYear(year)
    ensures var m := AdventGroup(year);
      m.Keys == {Advent(1), Advent(2), Advent(3), Advent(4)}
      && m[Advent(4)] == Advent4(year)
      && (forall k :: 1 <= k <= 4 ==> m[Advent(k)] == m[Advent(4)] - 7 * (4 - k))
      && (forall k :: 1 <= k <= 4 ==> Weekday(m[Advent(k)]) == Sunday)
  {
    AdventBeforeDates(Advent4(year));
  }

  // --------------------------------------------------------------- Christmas

  function ChristmasKeys(): seq<Feast> {
    [Christmas(2), Christmas(3)]
  }

  /** Christmas Day `christmas1` and the loop over the two days after it. */
  function ChristmasDays(christmas1: Date): Group {
    var keys := ChristmasKeys();
    map[Christmas(1) := christmas1] + Enumerate(keys, Daily(christmas1 + 1, |keys|), None)
  }

  /** `__christmas(year)`: the Sunday after Christmas is added when it falls in the same year. */
  function ChristmasGroup(year: int): Group
    requires SupportedYear(year)
  {
    var christmas1 := CalcChristmas(year);
    var christmas4 := NextWeekday(christmas1, Sunday);
    if InYear(christmas4, year) then ChristmasDays(christmas1)[Christmas(4) := christmas4]
    else ChristmasDays(christmas1)
  }

  /** The three days of Christmas are placed on consecutive days, and nothing else. */
  lemma ChristmasDaysDates(c: Date)
    ensures var m := ChristmasDays(c);
      m.Keys == {Christmas(1), Christmas(2), Christmas(3)}
      && m[Christmas(1)] == c && m[Christmas(2)] == c + 1 && m[Christmas(3)] == c + 2
  {
    var keys := ChristmasKeys();
    var ds := Daily(c + 1, |keys|);
    EnumerateAt(keys, ds, None);
    EnumerateDomain(keys, ds, None);
    assert ds[0] == c + 1 && ds[1] == c + 2;
  }

  /** Christmas Day and the two days after it are always placed; the Sunday after Christmas is
      placed exactly when Christmas Day is not itself a Sunday, since otherwise that Sunday is
      1 January of the next year. */
  lemma ChristmasDates(year: int)
    requires SupportedYear(year)
    ensures var m := ChristmasGroup(year); var c := CalcChristmas(year);
      {Christmas(1), Christmas(2), Christmas(3)} <= m.Keys
      && m.Keys <= {Christmas(1), Christmas(2), Christmas(3), Christmas(4)}
      && c == Ymd(year, 12, 25)
      && m[Christmas(1)] == c && m[Christmas(2)] == c + 1 && m[Christmas(3)] == c + 2
      && (Christmas(4) in m <==> Weekday(c) != Sunday)
      && (Christmas(4) in m ==> Weekday(m[Christmas(4)]) == Sunday && c < m[Christmas(4)] < c + Week)
  {
    var c := CalcChristmas(year);
    ChristmasDaysDates(c);
    WeekdayShift(c, 1);
  }

  // ---------------------------------------------------------------- New Year

  /** `__new_year(year)`. */
  function NewYearGroup(year: int): Group
    requires SupportedYear(year)
  {
    map[NewYear(1) := Ymd(year, 1, 1), NewYear(2) := Ymd(year, 1, 2)]
  }

  /** New Year's Day and the day after it, both in the given year. */
  lemma NewYearDates(year: int)
    requires SupportedYear(year)
    ensures var m := NewYearGroup(year);
      m.Keys == {NewYear(1), NewYear(2)}
      && m[NewYear(1)] == Ymd(year, 1, 1) && m[NewYear(2)] == m[NewYear(1)] + 1
      && InYear(m[NewYear(1)], year) && InYear(m[NewYear(2)], year)
  {
    YmdInYear(year, 1, 1);
    YmdInYear(year, 1, 2);
  }

  // ---------------------------------------------------------------- Epiphany

  /** The Epiphany members `__epiphany` enumerates: those named `EPIPHANY…` without the first. */
  function EpiphanyKeys(): (keys: seq<Feast>)
    ensures |keys| == 6 && Distinct(keys)
    ensures forall i :: 0 <= i < 6 ==> keys[i] == Epiphany(i + 2)
  {
    seq(6, i requires 0 <= i < 6 => Epiphany(i + 2))
  }

  /** The loop of `__epiphany(year)`, from 6 January and the cut-off Septuagesima. */
  function LaterEpiphanies(epiphany1: Date, septuagesima: Date): Group {
    var keys := EpiphanyKeys();
    Enumerate(keys, Weekly(epiphany1 + Week, |keys|), Some(septuagesima))
  }

  /** `__epiphany(year)`: the cut-off is Septuagesima, nine weeks before Easter. */
  function EpiphanyGroup(year: int): Group
    requires SupportedYear(year)
  {
    var epiphany1 := Ymd(year, 1, 6);
    map[Epiphany(1) := epiphany1] + LaterEpiphanies(epiphany1, EasterDate(year) - 9 * Week)
  }

  /** `EPIPHANY_k`, for `k` from 2, is `k - 1` weeks after 6 January, placed exactly when that is
      strictly before the cut-off; nothing else is placed. */
  lemma LaterEpiphanyDates(epiphany1: Date, septuagesima: Date)
    ensures var later := LaterEpiphanies(epiphany1, septuagesima);
      (forall f :: f in later ==> f.Epiphany? && 2 <= f.n <= 7)
      && (forall k :: 2 <= k <= 7 ==> (Epiphany(k) in later <==> epiphany1 + 7 * (k - 1) < septuagesima))
      && (forall k :: 2 <= k <= 7 && Epiphany(k) in later ==> later[Epiphany(k)] == epiphany1 + 7 * (k - 1))
  {
    var keys := EpiphanyKeys();
    LaterEpiphanyDomain(epiphany1, septuagesima);
    EnumerateWeekly(keys, epiphany1 + Week, Some(septuagesima));
    forall k | 2 <= k <= 7 ensures Epiphany(k) == keys[k - 2] {
    }
  }

  /** The loop places only `EPIPHANY_2` to `EPIPHANY_7`. */
  lemma LaterEpiphanyDomain(epiphany1: Date, septuagesima: Date)
    ensures forall f :: f in LaterEpiphanies(epiphany1, septuagesima) ==> f.Epiphany? && 2 <= f.n <= 7
  {
    var keys := EpiphanyKeys();
    EnumerateDomain(keys, Weekly(epiphany1 + Week, |keys|), Some(septuagesima));
    forall f | f in LaterEpiphanies(epiphany1, septuagesima) ensures f.Epiphany? && 2 <= f.n <= 7 {
      var i :| 0 <= i < |keys| && keys[i] == f;
    }
  }

  /** `EPIPHANY_1` is 6 January; `EPIPHANY_k` is 6 January plus `k - 1` weeks, placed exactly when
      that is strictly before Septuagesima; nothing else is placed. */
  lemma EpiphanyDates(year: int)
    requires SupportedYear(year)
    ensures var m := EpiphanyGroup(year);
      (forall f :: f in m ==> f.Epiphany? && 1 <= f.n <= 7)
      && Epiphany(1) in m && m[Epiphany(1)] == Ymd(year, 1, 6)
      && (forall k :: 2 <= k <= 7 ==>
           (Epiphany(k) in m <==> Ymd(year, 1, 6) + 7 * (k - 1) < EasterDate(year) - 9 * Week))
      && (forall k :: 2 <= k <= 7 && Epiphany(k) in m ==> m[Epiphany(k)] == Ymd(year, 1, 6) + 7 * (k - 1))
  {
    var epiphany1 := Ymd(year, 1, 6);
    var septuagesima := EasterDate(year) - 9 * Week;
    var later := LaterEpiphanies(epiphany1, septuagesima);
    LaterEpiphanyDates(epiphany1, septuagesima);
    assert EpiphanyGroup(year) == map[Epiphany(1) := epiphany1] + later;
  }

  /** The placed Sundays after Epiphany form a prefix, and `EPIPHANY_2` is always placed: Easter is
      never before 22 March, so Septuagesima is never before 18 January. */
  lemma EpiphanyPrefix(year: int, j: int, k: int)
    requires SupportedYear(year) && 1 <= j <= k <= 7
    ensures Epiphany(k) in EpiphanyGroup(year) ==> Epiphany(j) in EpiphanyGroup(year)
    ensures Epiphany(2) in EpiphanyGroup(year)
  {
    EpiphanyDates(year);
  }

  // -------------------------------------------------------------- Shrovetide

  /** `__shrovetide(year)`. */
  function ShrovetideGroup(year: int): Group
    requires MinYear <= year <= MaxYear
  {
    var easter := EasterDate(year);
    var quinquagesima := easter - 7 * Week;
    var sexagesima := quinquagesima - Week;
    var septuagesima := quinquagesima - 2 * Week;
    map[Sexagesima := sexagesima, Septuagesima := septuagesima, Quinquagesima := quinquagesima]
  }

  /** Quinquagesima is seven weeks before Easter, Sexagesima and Septuagesima one and two weeks
      before it, and all three are Sundays. */
  lemma ShrovetideDates(year: int)
    requires MinYear <= year <= MaxYear
    ensures var m := ShrovetideGroup(year);
      m.Keys == {Septuagesima, Sexagesima, Quinquagesima}
      && m[Quinquagesima] == EasterDate(year) - 7 * Week
      && m[Sexagesima] == m[Quinquagesima] - Week && m[Septuagesima] == m[Quinquagesima] - 2 * Week
      && Weekday(m[Septuagesima]) == Sunday && Weekday(m[Sexagesima]) == Sunday
      && Weekday(m[Quinquagesima]) == Sunday
  {
    var easter := EasterDate(year);
    CalcEasterIsSunday(year);
    WeekdayShift(easter, -7);
    WeekdayShift(easter, -8);
    WeekdayShift(easter, -9);
  }

  // --------------------------------------------------------------- Holy Week

  /** The dictionary `__holy_week` builds around Easter Sunday `easter`. */
  function HolyWeekAround(easter: Date): Group {
    map[
      PalmSunday := easter - Week,
      GoodFriday := LastWeekday(easter, Friday),
      HolySaturday := LastWeekday(easter, Saturday),
      Easter(1) := easter,
      Easter(2) := easter + 1,
      Easter(3) := easter + 2
    ]
  }

  /** `__holy_week(year)`. */
  function HolyWeekGroup(year: int): Group
    requires MinYear <= year <= MaxYear
  {
    HolyWeekAround(EasterDate(year))
  }

  /** Around a Sunday, Good Friday and Holy Saturday are the two days just before it. */
  lemma HolyWeekAroundDates(e: Date)
    requires Weekday(e) == Sunday
    ensures var m := HolyWeekAround(e);
      m.Keys == {PalmSunday, GoodFriday, HolySaturday, Easter(1), Easter(2), Easter(3)}
      && m[Easter(1)] == e
      && m[PalmSunday] == e - Week && Weekday(m[PalmSunday]) == Sunday
      && m[GoodFriday] == e - 2 && Weekday(m[GoodFriday]) == Friday
      && m[HolySaturday] == e - 1 && Weekday(m[HolySaturday]) == Saturday
      && m[Easter(2)] == e + 1 && m[Easter(3)] == e + 2
  {
    WeekdayShift(e, -1);
    WeekdayOffset(e, -2);
    WeekdayOffset(e, -1);
    LastWeekdayUnique(e, Friday, e - 2);
    LastWeekdayUnique(e, Saturday, e - 1);
  }

  /** Palm Sunday a week before Easter, Easter Sunday, Monday and Tuesday; because Easter is a
      Sunday, Good Friday and Holy Saturday are the two days just before it. */
  lemma HolyWeekDates(year: int)
    requires MinYear <= year <= MaxYear
    ensures var m := HolyWeekGroup(year); var e := EasterDate(year);
      m.Keys == {PalmSunday, GoodFriday, HolySaturday, Easter(1), Easter(2), Easter(3)}
      && m[Easter(1)] == e && Weekday(e) == Sunday
      && m[PalmSunday] == e - Week && Weekday(m[PalmSunday]) == Sunday
      && m[GoodFriday] == e - 2 && Weekday(m[GoodFriday]) == Friday
      && m[HolySaturday] == e - 1 && Weekday(m[HolySaturday]) == Saturday
      && m[Easter(2)] == e + 1 && m[Easter(3)] == e + 2
  {
    CalcEasterIsSunday(year);
    HolyWeekAroundDates(EasterDate(year));
  }

  // ------------------------------------------------------------ After Easter

  /** The Sundays `__after_easter` enumerates, in order. */
  function AfterEasterSundays(): (keys: seq<Feast>)
    ensures |keys| == 6 && Distinct(keys) && Ascension !in keys
  {
    [Quasimodogeniti, MisericordiasDomini, Jubilate, Cantate, Rogate, Exaudi]
  }

  /** The loop of `__after_easter`: the Sundays one, two, ... six weeks after Easter `easter`. */
  function SundaysAfterEaster(easter: Date): Group {
    var keys := AfterEasterSundays();
    Enumerate(keys, Weekly(easter + Week, |keys|), None)
  }

  /** The dictionary `__after_easter` builds: the Sundays, then Ascension, the Thursday before
      Exaudi. */
  function AfterEasterAround(easter: Date): Group {
    SundaysAfterEaster(easter)[Ascension := LastWeekday(easter + 6 * Week, Thursday)]
  }

  /** `__after_easter(year)`. */
  function AfterEasterGroup(year: int): Group
    requires MinYear <= year <= MaxYear
  {
    AfterEasterAround(EasterDate(year))
  }

  /** The loop places exactly its six Sundays. */
  lemma SundaysAfterEasterKeys(e: Date)
    ensures forall f :: f in SundaysAfterEaster(e) <==> f in AfterEasterSundays()
  {
    var keys := AfterEasterSundays();
    EnumerateDomain(keys, Weekly(e + Week, |keys|), None);
    EnumerateAt(keys, Weekly(e + Week, |keys|), None);
  }

  /** The `i`-th Sunday of the loop is placed `i + 1` weeks after Easter and is a Sunday. */
  lemma SundaysAfterEasterDates(e: Date)
    requires Weekday(e) == Sunday
    ensures var m := SundaysAfterEaster(e); var sundays := AfterEasterSundays();
      forall i :: 0 <= i < 6 ==> sundays[i] in m && m[sundays[i]] == e + 7 * (i + 1) && Weekday(m[sundays[i]]) == Sunday
  {
    var keys := AfterEasterSundays();
    var m := SundaysAfterEaster(e);
    EnumerateWeekly(keys, e + Week, None);
    forall i | 0 <= i < 6 ensures Weekday(m[keys[i]]) == Sunday {
      WeekdayShift(e, i + 1);
    }
  }

  /** After a Sunday, the Thursday strictly before the sixth Sunday is 39 days on. */
  lemma AscensionDate(e: Date)
    requires Weekday(e) == Sunday
    ensures var a := LastWeekday(e + 6 * Week, Thursday); a == e + 39 && Weekday(a) == Thursday
  {
    WeekdayOffset(e, 39);
    LastWeekdayUnique(e + 6 * Week, Thursday, e + 39);
  }

  /** `__after_easter` places its six Sundays and Ascension, and nothing else. */
  lemma AfterEasterAroundKeys(e: Date)
    ensures forall f :: f in AfterEasterAround(e) <==> f in AfterEasterSundays() || f == Ascension
  {
    SundaysAfterEasterKeys(e);
  }

  /** After a Sunday `e`: the six following Sundays and Ascension, three days before the sixth. */
  lemma AfterEasterAroundDates(e: Date)
    requires Weekday(e) == Sunday
    ensures var m := AfterEasterAround(e); var sundays := AfterEasterSundays();
      (forall f :: f in m <==> f in sundays || f == Ascension)
      && (forall i :: 0 <= i < 6 ==> m[sundays[i]] == e + 7 * (i + 1) && Weekday(m[sundays[i]]) == Sunday)
      && m[Ascension] == m[Exaudi] - 3 == e + 39 && Weekday(m[Ascension]) == Thursday
  {
    var sundays := AfterEasterSundays();
    AfterEasterAroundKeys(e);
    SundaysAfterEasterDates(e);
    AscensionDate(e);
    assert sundays[5] == Exaudi;
  }

  /** The six Sundays after Easter, one week apart, and Ascension, the Thursday strictly before
      Exaudi: 39 days after Easter. */
  lemma AfterEasterDates(year: int)
    requires MinYear <= year <= MaxYear
    ensures var m := AfterEasterGroup(year); var e := EasterDate(year); var sundays := AfterEasterSundays();
      (forall f :: f in m <==> f in sundays || f == Ascension)
      && (forall i :: 0 <= i < 6 ==> m[sundays[i]] == e + 7 * (i + 1) && Weekday(m[sundays[i]]) == Sunday)
      && m[Ascension] == m[Exaudi] - 3 == e + 39 && Weekday(m[Ascension]) == Thursday
  {
    CalcEasterIsSunday(year);
    AfterEasterAroundDates(EasterDate(year));
  }

  // -------------------------------------------------------------------- Whit

  /** `__whit(year)`. */
  function WhitGroup(year: int): Group
    requires MinYear <= year <= MaxYear
  {
    var whit1 := EasterDate(year) + 7 * Week;
    map[Whit(1) := whit1, Whit(2) := whit1 + 1, Whit(3) := whit1 + 2]
  }

  /** Whit Sunday seven weeks after Easter, Whit Monday and Whit Tuesday. */
  lemma WhitDates(year: int)
    requires MinYear <= year <= MaxYear
    ensures var m := WhitGroup(year);
      m.Keys == {Whit(1), Whit(2), Whit(3)}
      && m[Whit(1)] == EasterDate(year) + 7 * Week && Weekday(m[Whit(1)]) == Sunday
      && m[Whit(2)] == m[Whit(1)] + 1 && m[Whit(3)] == m[Whit(1)] + 2
  {
    CalcEasterIsSunday(year);
    WeekdayShift(EasterDate(year), 7);
  }

  // ----------------------------------------------------------------- Trinity

  /** The Trinity members `__trinity` enumerates: every member named `TRINITY_…`. */
  function TrinityKeys(): (keys: seq<Feast>)
    ensures |keys| == 28 && Distinct(keys)
    ensures forall i :: 0 <= i < 28 ==> keys[i] == Trinity(i + 1)
  {
    seq(28, i requires 0 <= i < 28 => Trinity(i + 1))
  }

  /** The loop of `__trinity`: the dates start one week after Whit Sunday `whit1` and stop at the
      cut-off `end`. */
  function TrinitySundays(whit1: Date, end: Date): Group {
    var keys := TrinityKeys();
    Enumerate(keys, Weekly(whit1 + Week, |keys|), Some(end))
  }

  /** `__trinity(year)`: the cut-off is three weeks before the fourth Sunday in Advent. */
  function TrinityGroup(year: int): Group
    requires SupportedYear(year)
  {
    TrinitySundays(EasterDate(year) + 7 * Week, Advent4(year) - 3 * Week)
  }

  /** The loop places only Trinity members. */
  lemma TrinityDomain(whit1: Date, end: Date)
    ensures forall f :: f in TrinitySundays(whit1, end) ==> f.Trinity? && 1 <= f.n <= 28
  {
    var keys := TrinityKeys();
    EnumerateDomain(keys, Weekly(whit1 + Week, |keys|), Some(end));
    forall f | f in TrinitySundays(whit1, end) ensures f.Trinity? && 1 <= f.n <= 28 {
      var i :| 0 <= i < |keys| && keys[i] == f;
    }
  }

  /** `TRINITY_k` is `k` weeks after Whit Sunday, placed exactly when that is strictly before the
      cut-off. */
  lemma TrinitySundayDates(whit1: Date, end: Date)
    ensures var m := TrinitySundays(whit1, end);
      (forall k :: 1 <= k <= 28 ==> (Trinity(k) in m <==> whit1 + 7 * k < end))
      && (forall k :: 1 <= k <= 28 && Trinity(k) in m ==> m[Trinity(k)] == whit1 + 7 * k)
  {
    var keys := TrinityKeys();
    EnumerateWeekly(keys, whit1 + Week, Some(end));
    forall k | 1 <= k <= 28 ensures Trinity(k) == keys[k - 1] {
    }
  }

  /** `TRINITY_k` is Easter plus `7 + k` weeks, placed exactly when that is strictly before the
      Sunday three weeks before the fourth in Advent; nothing else is placed. */
  lemma TrinityDates(year: int)
    requires SupportedYear(year)
    ensures var m := TrinityGroup(year);
      (forall f :: f in m ==> f.Trinity? && 1 <= f.n <= 28)
      && (forall k :: 1 <= k <= 28 ==>
           (Trinity(k) in m <==> EasterDate(year) + 7 * (7 + k) < Advent4(year) - 3 * Week))
      && (forall k :: 1 <= k <= 28 && Trinity(k) in m ==> m[Trinity(k)] == EasterDate(year) + 7 * (7 + k))
  {
    var whit1, end := EasterDate(year) + 7 * Week, Advent4(year) - 3 * Week;
    TrinityDomain(whit1, end);
    TrinitySundayDates(whit1, end);
  }

  /** Easter and the fourth Sunday in Advent are a whole number of weeks apart, between 34 and 39. */
  lemma WeeksFromEasterToAdvent(year: int)
    requires SupportedYear(year)
    ensures (Advent4(year) - EasterDate(year)) % 7 == 0
    ensures 34 * Week <= Advent4(year) - EasterDate(year) <= 39 * Week
  {
    var e, a := EasterDate(year), Advent4(year);
    CalcEasterIsSunday(year);
    SameWeekday(a, e);
    assert Ymd(year, 12, 18) - Ymd(year, 4, 25) == 237;
    assert Ymd(year, 12, 24) - Ymd(year, 3, 22) == 277;
  }

  /** How many Trinity members `__trinity` places: eleven fewer than the weeks from Easter to the
      fourth Sunday in Advent. */
  function TrinityKept(year: int): int
    requires SupportedYear(year)
  {
    (Advent4(year) - EasterDate(year)) / Week - 11
  }

  /** Between 23 and 28 Trinity members are placed, and they are a prefix: `TRINITY_1` up to
      `TRINITY_c` for `c` the count. */
  lemma TrinityCount(year: int)
    requires SupportedYear(year)
    ensures 23 <= TrinityKept(year) <= 28
    ensures forall k :: 1 <= k <= 28 ==> (Trinity(k) in TrinityGroup(year) <==> k <= TrinityKept(year))
  {
    WeeksFromEasterToAdvent(year);
    TrinityDates(year);
  }

  // ------------------------------------------------------------------ Static

  /** The fixed feasts `__static_dates` lists, in order. */
  function StaticKeys(): seq<Feast> {
    [Visitation, Reformation, Candlemas, Annunciation, John, Michaelmas]
  }

  /** Annunciation from 25 March and Easter: 25 March, or Easter plus eight days when 25 March is
      not strictly before Palm Sunday. */
  function AnnunciationDate(march25: Date, easter: Date): Date {
    var palmSunday := easter - Week;
    if march25 >= palmSunday then easter + Week + 1 else march25
  }

  /** `__static_dates(year)`. */
  function StaticGroup(year: int): Group
    requires SupportedYear(year)
  {
    var enums := StaticKeys();
    map[
      enums[0] := Ymd(year, 7, 2),
      enums[1] := Ymd(year, 10, 31),
      enums[2] := Ymd(year, 2, 2),
      enums[3] := AnnunciationDate(Ymd(year, 3, 25), EasterDate(year)),
      enums[4] := Ymd(year, 6, 24),
      enums[5] := Ymd(year, 9, 29)
    ]
  }

  /** Annunciation is 25 March when that is strictly before Palm Sunday and otherwise the Monday
      after Quasimodogeniti; since Easter is never before 22 March, it is never before 25 March. */
  lemma AnnunciationFacts(march25: Date, e: Date)
    requires Weekday(e) == Sunday && march25 - 3 <= e
    ensures var a := AnnunciationDate(march25, e);
      a >= march25
      && (march25 < e - Week ==> a == march25)
      && (march25 >= e - Week ==> a == e + 8 && Weekday(a) == Monday)
  {
    WeekdayOffset(e, 8);
  }

  /** Visitation 2 July, Reformation 31 October, Candlemas 2 February, St John 24 June,
      Michaelmas 29 September; Annunciation is 25 March when that is strictly before Palm Sunday
      and otherwise the Monday after Quasimodogeniti, so it is never before 25 March. */
  lemma StaticDates(year: int)
    requires SupportedYear(year)
    ensures var m := StaticGroup(year); var e := EasterDate(year); var march25 := Ymd(year, 3, 25);
      m.Keys == {Visitation, Reformation, Candlemas, Annunciation, John, Michaelmas}
      && m[Visitation] == Ymd(year, 7, 2) && m[Reformation] == Ymd(year, 10, 31)
      && m[Candlemas] == Ymd(year, 2, 2) && m[John] == Ymd(year, 6, 24)
      && m[Michaelmas] == Ymd(year, 9, 29)
      && m[Annunciation] >= march25
      && (march25 < e - Week ==> m[Annunciation] == march25)
      && (march25 >= e - Week ==> m[Annunciation] == e + 8 && Weekday(m[Annunciation]) == Monday)
  {
    CalcEasterIsSunday(year);
    AnnunciationFacts(Ymd(year, 3, 25), EasterDate(year));
  }
}
