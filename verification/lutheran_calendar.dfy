/**
 * The variant calendar of `lutherancalendar.py`: a module-level frame of
 * `(Date, Event Type)` rows that `get_static_dates` and `get_dynamic_dates`
 * append to, for the feasts of `EventType` that have a cantata, and the frame
 * sorted by date that `get_dynamic_dates` prints.
 */
module LutheranCalendar {
  import opened Wrappers
  import opened Dates
  import opened ChristianHolidays
  import opened Helpers
  import CY = ChurchYear
  import FG = FeastGroups

  /** The members of `EventType` (the commented-out ones do not exist). */
  datatype EventType =
    | Adv1 | Adv4
    | Chr1 | Chr2 | Chr3 | Chr4
    | Nyd1 | Nyd2
    | Eph0 | Eph1 | Eph2 | Eph3 | Eph4
    | Sept | Sexa | Esto | Palm
    | Eas1 | Eas2 | Eas3

  /** The member's `name`, which is what a row's `Event Type` column holds. */
  function EventName(t: EventType): string {
    match t
    case Adv1 => "ADV1" case Adv4 => "ADV4"
    case Chr1 => "CHR1" case Chr2 => "CHR2" case Chr3 => "CHR3" case Chr4 => "CHR4"
    case Nyd1 => "NYD1" case Nyd2 => "NYD2"
    case Eph0 => "EPH0" case Eph1 => "EPH1" case Eph2 => "EPH2" case Eph3 => "EPH3" case Eph4 => "EPH4"
    case Sept => "SEPT" case Sexa => "SEXA" case Esto => "ESTO" case Palm => "PALM"
    case Eas1 => "EAS1" case Eas2 => "EAS2" case Eas3 => "EAS3"
  }

  /** The `title` of the member's value. */
  function EventTitle(t: EventType): string {
    match t
    case Adv1 => "Advent I" case Adv4 => "Advent IV"
    case Chr1 => "Christmas Day" case Chr2 => "Saint Stephen's Day"
    case Chr3 => "Third day of Christmas" case Chr4 => "Sunday after Christmas"
    case Nyd1 => "New Year's Day" case Nyd2 => "New Year's Day I"
    case Eph0 => "Epiphany" case Eph1 => "Epiphany I" case Eph2 => "Epiphany II"
    case Eph3 => "Epiphany III" case Eph4 => "Epiphany IV"
    case Sept => "Septuagesima" case Sexa => "Sexagesima" case Esto => "Quinquagesima"
    case Palm => "Palm Sunday"
    case Eas1 => "Easter" case Eas2 => "Easter Monday" case Eas3 => "Easter Tuesday"
  }

  /** The `bwv` list of the member's value. */
  function EventBwvs(t: EventType): seq<int> {
    match t
    case Adv1 => [36, 61, 62] case Adv4 => [132]
    case Chr1 => [63, 91, 110, 191] case Chr2 => [40, 57, 121]
    case Chr3 => [64, 133, 151] case Chr4 => [28, 122, 152]
    case Nyd1 => [16, 41, 143, 171, 190] case Nyd2 => [58, 153]
    case Eph0 => [65, 123] case Eph1 => [32, 124, 154] case Eph2 => [3, 13, 155]
    case Eph3 => [72, 73, 111, 156] case Eph4 => [14, 81]
    case Sept => [84, 92, 144] case Sexa => [18, 126, 181] case Esto => [22, 23, 127, 159]
    case Palm => [182]
    case Eas1 => [4, 31] case Eas2 => [6, 66] case Eas3 => []
  }

  /** Every cantata an event lists is a sacred one: BWV 1..199 without 198. */
  lemma EventBwvsSacred(t: EventType)
    ensures forall b :: b in EventBwvs(t) ==> 1 <= b < 200 && b != 198
  {
  }

  /** A row of the `events` frame. */
  datatype EventRow = EventRow(date: Date, kind: EventType)

  // ---------------------------------------------------------- static dates

  /** The rows `get_static_dates(year)` appends: the three Christmas days, the two New Year days
      and Epiphany, each on its fixed day of `year`. */
  function StaticRows(year: int): (rows: seq<EventRow>)
    requires SupportedYear(year)
    ensures |rows| == 6
    ensures forall i :: 0 <= i < 6 ==> InYear(rows[i].date, year)
  {
    YmdInYear(year, 12, 25);
    YmdInYear(year, 12, 26);
    YmdInYear(year, 12, 27);
    YmdInYear(year, 1, 1);
    YmdInYear(year, 1, 2);
    YmdInYear(year, 1, 6);
    [EventRow(Ymd(year, 12, 25), Chr1), EventRow(Ymd(year, 12, 26), Chr2),
     EventRow(Ymd(year, 12, 27), Chr3), EventRow(Ymd(year, 1, 1), Nyd1),
     EventRow(Ymd(year, 1, 2), Nyd2), EventRow(Ymd(year, 1, 6), Eph0)]
  }

  /** The first and last midnights a nanosecond `Timestamp` can hold: pandas' range runs from
      1677-09-21 00:12:43 to 2262-04-11 23:47:16. */
  const TimestampFirst: Date := Ymd(1677, 9, 22)
  const TimestampLast: Date := Ymd(2262, 4, 11)

  predicate InTimestampRange(d: Date) {
    TimestampFirst <= d <= TimestampLast
  }

  /** The message of the `OutOfBoundsDatetime` that `pd.to_datetime` raises. */
  const OutOfBoundsError: string := "Out of bounds nanosecond timestamp"

  /** The six static days of a year are all Timestamps exactly for the years 1678 to 2261. */
  lemma StaticTimestampYears(year: int)
    requires SupportedYear(year)
    ensures (forall i :: 0 <= i < 6 ==> InTimestampRange(StaticRows(year)[i].date))
      <==> 1678 <= year <= 2261
  {
    var rows := StaticRows(year);
    NewYearAfterChristmas(year);
    NewYearAfterChristmas(2262);
    NewYearsApart(1677, 1678);
    if year < 1678 {
      NewYearsApart(year, 1677);
      assert !InTimestampRange(rows[3].date);
    } else if year > 2261 {
      NewYearsApart(2262, year);
      assert !InTimestampRange(rows[0].date);
    } else {
      NewYearsApart(1678, year);
      NewYearsApart(year + 1, 2262);
    }
  }

  /** `get_static_dates(year)` on the frame `events`: six rows appended, nothing else changed;
      the conversion `pd.to_datetime(events["Date"])` raises when one of them is not a
      Timestamp, which is the case outside the years 1678 to 2261. */
  function GetStaticDates(events: seq<EventRow>, year: int): (r: Result<seq<EventRow>, string>)
    ensures r.Success? <==> 1678 <= year <= 2261
    ensures r.Failure? ==> r.error == OutOfBoundsError
    ensures r.Success? ==> |r.value| == |events| + 6 && r.value[..|events|] == events
    ensures r.Success? ==>
      forall i :: |events| <= i < |r.value| ==> InYear(r.value[i].date, year) && InTimestampRange(r.value[i].date)
    ensures r.Success? ==> SupportedYear(year) && r.value == events + StaticRows(year)
    ensures r.Success? ==>
      forall row :: row in r.value[|events|..] <==> StaticDate(year, row.kind) == Some(row.date)
  {
    if SupportedYear(year) && forall i :: 0 <= i < 6 ==> InTimestampRange(StaticRows(year)[i].date) then
      StaticTimestampYears(year);
      StaticRowsMembers(year);
      assert (events + StaticRows(year))[|events|..] == StaticRows(year);
      Success(events + StaticRows(year))
    else
      if SupportedYear(year) then StaticTimestampYears(year); Failure(OutOfBoundsError)
      else Failure(OutOfBoundsError)
  }

  // --------------------------------------------------------- dynamic dates

  /** The loop over `EPH2, EPH3, EPH4` from position `i` on: the key at position `k` is dated
      `k + 1` weeks after `eph1` and kept only when strictly before Septuagesima. */
  function EpiphanyRows(keys: seq<EventType>, eph1: Date, sept: Date, i: nat): seq<EventRow>
    requires i <= |keys|
    decreases |keys| - i
  {
    if i == |keys| then []
    else
      var date := eph1 + Week * (i + 1);
      (if date < sept then [EventRow(date, keys[i])] else []) + EpiphanyRows(keys, eph1, sept, i + 1)
  }

  /** The rows of the Epiphany loop are exactly the keys whose date falls before the cut-off. */
  lemma {:induction false} EpiphanyRowsMembers(keys: seq<EventType>, eph1: Date, sept: Date, i: nat)
    requires i <= |keys|
    ensures forall row :: row in EpiphanyRows(keys, eph1, sept, i) <==>
      exists k :: i <= k < |keys| && row == EventRow(eph1 + Week * (k + 1), keys[k])
        && eph1 + Week * (k + 1) < sept
    ensures |EpiphanyRows(keys, eph1, sept, i)| <= |keys| - i
    decreases |keys| - i
  {
    if i < |keys| {
      EpiphanyRowsMembers(keys, eph1, sept, i + 1);
    }
  }

  /** The keys of the Epiphany loop. */
  function LaterEpiphanyKeys(): seq<EventType> {
    [Eph2, Eph3, Eph4]
  }

  /** The rows appended after the optional Sunday after Christmas and the Epiphany loop, all
      hung on the fourth Sunday in Advent, Easter and the first Sunday after Epiphany. */
  function FixedRows(adv4: Date, eas1: Date, eph1: Date): seq<EventRow> {
    var palm := eas1 - Week;
    var esto := palm - 6 * Week;
    var sexa := esto - Week;
    var sept := sexa - Week;
    [EventRow(adv4 - 3 * Week, Adv1), EventRow(adv4, Adv4), EventRow(eas1, Eas1),
     EventRow(palm, Palm), EventRow(esto, Esto), EventRow(sexa, Sexa), EventRow(sept, Sept),
     EventRow(eph1, Eph1), EventRow(eas1 + 1, Eas2), EventRow(eas1 + 2, Eas3)]
  }

  /** The rows of `get_dynamic_dates` from its computed dates: `chr4` is the Sunday after
      Christmas when it is still in the year. */
  function RowsFrom(chr4: Option<Date>, adv4: Date, eas1: Date, eph1: Date): seq<EventRow> {
    (if chr4.Some? then [EventRow(chr4.value, Chr4)] else [])
    + EpiphanyRows(LaterEpiphanyKeys(), eph1, eas1 - 9 * Week, 0)
    + FixedRows(adv4, eas1, eph1)
  }

  /** The rows `get_dynamic_dates(year)` appends, in the order it appends them: the Sunday after
      Christmas when it is still in `year`, the kept Epiphany Sundays, then the fixed list. Holy
      Saturday and Good Friday are computed there and never appended. */
  function DynamicRows(year: int): seq<EventRow>
    requires SupportedYear(year)
  {
    var adv4 := GetLastWeekday(Ymd(year, 12, 25), Sunday);
    var eas1 := GetEaster(year).value;
    var chr4 := GetNextWeekday(Ymd(year, 12, 25), Sunday);
    var eph1 := GetNextWeekday(Ymd(year, 1, 6), Sunday);
    RowsFrom(if InYear(chr4, year) then Some(chr4) else None, adv4, eas1, eph1)
  }

  /** The date `RowsFrom` gives event `t`, or `None` when it appends no row for it. */
  function KindDate(t: EventType, chr4: Option<Date>, adv4: Date, e: Date, eph1: Date): Option<Date> {
    var sept := e - 9 * Week;
    match t
    case Adv1 => Some(adv4 - 3 * Week)
    case Adv4 => Some(adv4)
    case Chr4 => chr4
    case Eph1 => Some(eph1)
    case Eph2 => if eph1 + Week < sept then Some(eph1 + Week) else None
    case Eph3 => if eph1 + 2 * Week < sept then Some(eph1 + 2 * Week) else None
    case Eph4 => if eph1 + 3 * Week < sept then Some(eph1 + 3 * Week) else None
    case Sept => Some(sept)
    case Sexa => Some(e - 8 * Week)
    case Esto => Some(e - 7 * Week)
    case Palm => Some(e - Week)
    case Eas1 => Some(e)
    case Eas2 => Some(e + 1)
    case Eas3 => Some(e + 2)
    case _ => None
  }

  /** The events of the fixed list. */
  predicate FixedKind(t: EventType) {
    t in {Adv1, Adv4, Eas1, Palm, Esto, Sexa, Sept, Eph1, Eas2, Eas3}
  }

  /** The events of the Epiphany loop. */
  predicate LoopKind(t: EventType) {
    t == Eph2 || t == Eph3 || t == Eph4
  }

  /** Only Chr4, the loop's events and the fixed list's events ever have a date here. */
  lemma KindDatePartition(t: EventType, chr4: Option<Date>, adv4: Date, e: Date, eph1: Date)
    ensures KindDate(t, chr4, adv4, e, eph1).Some? ==> t == Chr4 || LoopKind(t) || FixedKind(t)
  {
  }

  /** The fixed list holds a row exactly when it names the row's event on that event's date. */
  lemma FixedRowMember(row: EventRow, chr4: Option<Date>, adv4: Date, e: Date, eph1: Date)
    ensures row in FixedRows(adv4, e, eph1) <==>
      FixedKind(row.kind) && KindDate(row.kind, chr4, adv4, e, eph1) == Some(row.date)
  {
  }

  /** The Epiphany loop holds a row exactly when it is EPH2..EPH4 on that event's date. */
  lemma LoopRowMember(row: EventRow, chr4: Option<Date>, adv4: Date, e: Date, eph1: Date)
    ensures row in EpiphanyRows(LaterEpiphanyKeys(), eph1, e - 9 * Week, 0) <==>
      LoopKind(row.kind) && KindDate(row.kind, chr4, adv4, e, eph1) == Some(row.date)
  {
    var keys := LaterEpiphanyKeys();
    EpiphanyRowsMembers(keys, eph1, e - 9 * Week, 0);
    assert keys[0] == Eph2 && keys[1] == Eph3 && keys[2] == Eph4;
    if LoopKind(row.kind) && KindDate(row.kind, chr4, adv4, e, eph1) == Some(row.date) {
      var k := if row.kind == Eph2 then 0 else if row.kind == Eph3 then 1 else 2;
      assert row == EventRow(eph1 + Week * (k + 1), keys[k]);
    }
  }

  /** One row is appended exactly when its event has that date. */
  lemma RowFromMember(row: EventRow, chr4: Option<Date>, adv4: Date, e: Date, eph1: Date)
    ensures row in RowsFrom(chr4, adv4, e, eph1) <==> KindDate(row.kind, chr4, adv4, e, eph1) == Some(row.date)
  {
    var chr := if chr4.Some? then [EventRow(chr4.value, Chr4)] else [];
    var epi := EpiphanyRows(LaterEpiphanyKeys(), eph1, e - 9 * Week, 0);
    var fixed := FixedRows(adv4, e, eph1);
    assert RowsFrom(chr4, adv4, e, eph1) == chr + epi + fixed;
    assert row in chr + epi + fixed <==> row in chr || row in epi || row in fixed;
    assert row in chr <==> row.kind == Chr4 && chr4 == Some(row.date);
    FixedRowMember(row, chr4, adv4, e, eph1);
    LoopRowMember(row, chr4, adv4, e, eph1);
    KindDatePartition(row.kind, chr4, adv4, e, eph1);
  }

  /** The appended rows are exactly the events with a date, each on that date. */
  lemma RowsFromMembers(chr4: Option<Date>, adv4: Date, e: Date, eph1: Date)
    ensures forall row :: row in RowsFrom(chr4, adv4, e, eph1) <==>
      KindDate(row.kind, chr4, adv4, e, eph1) == Some(row.date)
  {
    forall row ensures row in RowsFrom(chr4, adv4, e, eph1) <==>
      KindDate(row.kind, chr4, adv4, e, eph1) == Some(row.date)
    {
      RowFromMember(row, chr4, adv4, e, eph1);
    }
  }

  /** The optional Sunday after Christmas of `year`: kept when it still falls in `year`. */
  function Chr4Of(year: int): Option<Date>
    requires SupportedYear(year)
  {
    var chr4 := GetNextWeekday(Ymd(year, 12, 25), Sunday);
    if InYear(chr4, year) then Some(chr4) else None
  }

  /** The date `get_dynamic_dates(year)` gives event `t`, or `None` when it appends no row for
      it: the events of `get_static_dates`, and the optional Sundays when they are left out. */
  function EventDate(year: int, t: EventType): Option<Date>
    requires SupportedYear(year)
  {
    KindDate(t, Chr4Of(year), LastWeekday(Ymd(year, 12, 25), Sunday), EasterDate(year),
      NextWeekday(Ymd(year, 1, 6), Sunday))
  }

  /** `get_dynamic_dates(year)` appends one row for each event with a date, on that date, and no
      other row. */
  lemma DynamicRowsMembers(year: int)
    requires SupportedYear(year)
    ensures forall row :: row in DynamicRows(year) <==> EventDate(year, row.kind) == Some(row.date)
  {
    RowsFromMembers(Chr4Of(year), LastWeekday(Ymd(year, 12, 25), Sunday), EasterDate(year),
      NextWeekday(Ymd(year, 1, 6), Sunday));
  }

  /** Advent: ADV4 is the Sunday strictly before Christmas Day and ADV1 three weeks before it;
      the second and third Sundays are not events. */
  lemma EventDateAdvent(year: int)
    requires SupportedYear(year)
    ensures EventDate(year, Adv4) == Some(LastWeekday(Ymd(year, 12, 25), Sunday))
    ensures Weekday(EventDate(year, Adv4).value) == Sunday
    ensures Ymd(year, 12, 25) - Week <= EventDate(year, Adv4).value < Ymd(year, 12, 25)
    ensures EventDate(year, Adv1) == Some(LastWeekday(Ymd(year, 12, 25), Sunday) - 3 * Week)
  {
  }

  /** The dates `RowsFrom` gives the events hung directly on its anchors. */
  lemma AnchorDates(chr4: Option<Date>, adv4: Date, e: Date, eph1: Date)
    ensures KindDate(Adv4, chr4, adv4, e, eph1) == Some(adv4)
    ensures KindDate(Adv1, chr4, adv4, e, eph1) == Some(adv4 - 3 * Week)
    ensures KindDate(Chr4, chr4, adv4, e, eph1) == chr4
    ensures KindDate(Eph1, chr4, adv4, e, eph1) == Some(eph1)
    ensures KindDate(Eas1, chr4, adv4, e, eph1) == Some(e)
  {
  }

  /** The Sunday after Christmas is an event exactly when it still falls in `year`. */
  lemma EventDateChristmas(year: int)
    requires SupportedYear(year)
    ensures var c := Ymd(year, 12, 25); var chr4 := NextWeekday(c, Sunday);
      Weekday(chr4) == Sunday && c < chr4 <= c + Week
      && (EventDate(year, Chr4).Some? <==> InYear(chr4, year))
      && (EventDate(year, Chr4).Some? ==> EventDate(year, Chr4).value == chr4)
  {
    AnchorDates(Chr4Of(year), LastWeekday(Ymd(year, 12, 25), Sunday), EasterDate(year),
      NextWeekday(Ymd(year, 1, 6), Sunday));
  }

  /** EPH2..EPH4 are one to three weeks after EPH1, each dated only when strictly before
      Septuagesima, nine weeks before Easter. */
  lemma LoopDates(chr4: Option<Date>, adv4: Date, e: Date, eph1: Date)
    ensures var sept := e - 9 * Week;
      (KindDate(Eph2, chr4, adv4, e, eph1).Some? <==> eph1 + Week < sept)
      && (KindDate(Eph3, chr4, adv4, e, eph1).Some? <==> eph1 + 2 * Week < sept)
      && (KindDate(Eph4, chr4, adv4, e, eph1).Some? <==> eph1 + 3 * Week < sept)
      && (KindDate(Eph2, chr4, adv4, e, eph1).Some? ==> KindDate(Eph2, chr4, adv4, e, eph1).value == eph1 + Week)
      && (KindDate(Eph3, chr4, adv4, e, eph1).Some? ==> KindDate(Eph3, chr4, adv4, e, eph1).value == eph1 + 2 * Week)
      && (KindDate(Eph4, chr4, adv4, e, eph1).Some? ==> KindDate(Eph4, chr4, adv4, e, eph1).value == eph1 + 3 * Week)
  {
  }

  /** EPH1 is the Sunday strictly after 6 January; EPH2..EPH4 follow at one-week steps and are
      events only when strictly before Septuagesima. */
  lemma EventDateEpiphany(year: int)
    requires SupportedYear(year)
    ensures var j := Ymd(year, 1, 6); var eph1 := EventDate(year, Eph1);
      var sept := EasterDate(year) - 9 * Week;
      eph1.Some? && Weekday(eph1.value) == Sunday && j < eph1.value <= j + Week
      && (EventDate(year, Eph2).Some? <==> eph1.value + Week < sept)
      && (EventDate(year, Eph3).Some? <==> eph1.value + 2 * Week < sept)
      && (EventDate(year, Eph4).Some? <==> eph1.value + 3 * Week < sept)
      && (EventDate(year, Eph2).Some? ==> EventDate(year, Eph2).value == eph1.value + Week)
      && (EventDate(year, Eph3).Some? ==> EventDate(year, Eph3).value == eph1.value + 2 * Week)
      && (EventDate(year, Eph4).Some? ==> EventDate(year, Eph4).value == eph1.value + 3 * Week)
  {
    var chr4, adv4, e, eph1 := Chr4Of(year), LastWeekday(Ymd(year, 12, 25), Sunday), EasterDate(year),
      NextWeekday(Ymd(year, 1, 6), Sunday);
    AnchorDates(chr4, adv4, e, eph1);
    LoopDates(chr4, adv4, e, eph1);
  }

  /** How many days from Easter Sunday each event hung on Easter falls: Palm Sunday a week
      before, Quinquagesima six weeks before Palm Sunday, Sexagesima and Septuagesima one and two
      weeks earlier still, Easter Monday and Tuesday the two days after. */
  function EasterOffset(t: EventType): Option<int> {
    match t
    case Sept => Some(-63) case Sexa => Some(-56) case Esto => Some(-49) case Palm => Some(-7)
    case Eas1 => Some(0) case Eas2 => Some(1) case Eas3 => Some(2)
    case _ => None
  }

  /** Every event with an Easter offset is dated that many days from the Easter anchor. */
  lemma EasterDates(t: EventType, chr4: Option<Date>, adv4: Date, e: Date, eph1: Date)
    requires EasterOffset(t).Some?
    ensures KindDate(t, chr4, adv4, e, eph1) == Some(e + EasterOffset(t).value)
  {
  }

  /** The day `get_static_dates(year)` gives event `t`, or `None` for an event it does not
      append. */
  function StaticDate(year: int, t: EventType): Option<Date>
    requires SupportedYear(year)
  {
    match t
    case Chr1 => Some(Ymd(year, 12, 25)) case Chr2 => Some(Ymd(year, 12, 26))
    case Chr3 => Some(Ymd(year, 12, 27)) case Nyd1 => Some(Ymd(year, 1, 1))
    case Nyd2 => Some(Ymd(year, 1, 2)) case Eph0 => Some(Ymd(year, 1, 6))
    case _ => None
  }

  /** `get_static_dates(year)` appends one row for each of its events, on that event's day, and
      no other row. */
  lemma StaticRowsMembers(year: int)
    requires SupportedYear(year)
    ensures forall row :: row in StaticRows(year) <==> StaticDate(year, row.kind) == Some(row.date)
  {
  }

  /** Each event is appended by at most one of the two functions. */
  lemma StaticAndDynamicDisjoint(year: int)
    requires SupportedYear(year)
    ensures forall t :: StaticDate(year, t).Some? ==> EventDate(year, t).None?
  {
  }

  // ------------------------------------------------- agreement with the engine

  /** Christmas Day, the two days after it and the two New Year days fall where the calendar
      engine's `__christmas` and `__new_year` put them. */
  lemma StaticAgreesWithEngine(year: int)
    requires SupportedYear(year)
    ensures var c := FG.ChristmasGroup(year); var n := FG.NewYearGroup(year);
      StaticDate(year, Chr1) == Some(c[CY.Christmas(1)])
      && StaticDate(year, Chr2) == Some(c[CY.Christmas(2)])
      && StaticDate(year, Chr3) == Some(c[CY.Christmas(3)])
      && StaticDate(year, Nyd1) == Some(n[CY.NewYear(1)])
      && StaticDate(year, Nyd2) == Some(n[CY.NewYear(2)])
  {
    FG.ChristmasDates(year);
    FG.NewYearDates(year);
    assert Ymd(year, 12, 26) == Ymd(year, 12, 25) + 1 && Ymd(year, 12, 27) == Ymd(year, 12, 25) + 2;
  }

  /** Epiphany itself is the engine's first Epiphany, 6 January. */
  lemma EpiphanyAgreesWithEngine(year: int)
    requires SupportedYear(year)
    ensures StaticDate(year, Eph0) == Some(FG.EpiphanyGroup(year)[CY.Epiphany(1)])
  {
    FG.EpiphanyDates(year);
  }

  /** The first and fourth Sundays in Advent are the engine's. */
  lemma AdventAgreesWithEngine(year: int)
    requires SupportedYear(year)
    ensures CY.Advent(1) in FG.AdventGroup(year) && CY.Advent(4) in FG.AdventGroup(year)
    ensures EventDate(year, Adv1) == Some(FG.AdventGroup(year)[CY.Advent(1)])
    ensures EventDate(year, Adv4) == Some(FG.AdventGroup(year)[CY.Advent(4)])
  {
    var adv4 := LastWeekday(Ymd(year, 12, 25), Sunday);
    assert FG.AdventGroup(year) == FG.AdventBefore(adv4);
    FG.AdventBeforeDates(adv4);
    EventDateAdvent(year);
  }

  /** The Sunday after Christmas is an event exactly when the engine places it, on the same day. */
  lemma ChristmasSundayAgreesWithEngine(year: int)
    requires SupportedYear(year)
    ensures EventDate(year, Chr4).Some? <==> CY.Christmas(4) in FG.ChristmasGroup(year)
    ensures EventDate(year, Chr4).Some? ==> EventDate(year, Chr4).value == FG.ChristmasGroup(year)[CY.Christmas(4)]
  {
    FG.ChristmasDates(year);
  }

  /** Septuagesima, Sexagesima and Quinquagesima are the engine's `__shrovetide` days. */
  lemma ShrovetideAgreesWithEngine(year: int)
    requires SupportedYear(year)
    ensures EventDate(year, Sept) == Some(FG.ShrovetideGroup(year)[CY.Septuagesima])
    ensures EventDate(year, Sexa) == Some(FG.ShrovetideGroup(year)[CY.Sexagesima])
    ensures EventDate(year, Esto) == Some(FG.ShrovetideGroup(year)[CY.Quinquagesima])
  {
    var e := EasterDate(year);
    assert FG.ShrovetideGroup(year) == map[CY.Sexagesima := e - 8 * Week, CY.Septuagesima := e - 9 * Week,
      CY.Quinquagesima := e - 7 * Week];
    EasterDates(Sept, Chr4Of(year), LastWeekday(Ymd(year, 12, 25), Sunday), e, NextWeekday(Ymd(year, 1, 6), Sunday));
    EasterDates(Sexa, Chr4Of(year), LastWeekday(Ymd(year, 12, 25), Sunday), e, NextWeekday(Ymd(year, 1, 6), Sunday));
    EasterDates(Esto, Chr4Of(year), LastWeekday(Ymd(year, 12, 25), Sunday), e, NextWeekday(Ymd(year, 1, 6), Sunday));
  }

  /** Around the same Easter Sunday, Palm Sunday and the three days of Easter fall where the
      engine's `__holy_week` puts them. */
  lemma HolyWeekAgreesAt(chr4: Option<Date>, adv4: Date, e: Date, eph1: Date)
    ensures KindDate(Palm, chr4, adv4, e, eph1) == Some(FG.HolyWeekAround(e)[CY.PalmSunday])
    ensures KindDate(Eas1, chr4, adv4, e, eph1) == Some(FG.HolyWeekAround(e)[CY.Easter(1)])
    ensures KindDate(Eas2, chr4, adv4, e, eph1) == Some(FG.HolyWeekAround(e)[CY.Easter(2)])
    ensures KindDate(Eas3, chr4, adv4, e, eph1) == Some(FG.HolyWeekAround(e)[CY.Easter(3)])
  {
  }

  /** Palm Sunday and the three days of Easter are the engine's `__holy_week` days. */
  lemma HolyWeekAgreesWithEngine(year: int)
    requires SupportedYear(year)
    ensures EventDate(year, Palm) == Some(FG.HolyWeekGroup(year)[CY.PalmSunday])
    ensures EventDate(year, Eas1) == Some(FG.HolyWeekGroup(year)[CY.Easter(1)])
    ensures EventDate(year, Eas2) == Some(FG.HolyWeekGroup(year)[CY.Easter(2)])
    ensures EventDate(year, Eas3) == Some(FG.HolyWeekGroup(year)[CY.Easter(3)])
  {
    HolyWeekAgreesAt(Chr4Of(year), LastWeekday(Ymd(year, 12, 25), Sunday), EasterDate(year),
      NextWeekday(Ymd(year, 1, 6), Sunday));
  }

  // --------------------------------------------------------------- sorting

  predicate SortedByDate(rows: seq<EventRow>) {
    forall i, j :: 0 <= i < j < |rows| ==> rows[i].date <= rows[j].date
  }

  /** Places `row` before the first row of `sorted` that is not earlier than it. */
  function Insert(row: EventRow, sorted: seq<EventRow>): seq<EventRow>
    decreases |sorted|
  {
    if |sorted| == 0 || row.date <= sorted[0].date then [row] + sorted
    else [sorted[0]] + Insert(row, sorted[1..])
  }

  /** Every row after the head of a sorted frame is not earlier than the head. */
  lemma SortedHead(sorted: seq<EventRow>)
    requires |sorted| > 0 && SortedByDate(sorted)
    ensures forall y :: y in sorted[1..] ==> sorted[0].date <= y.date
  {
    forall y | y in sorted[1..] ensures sorted[0].date <= y.date {
      var i :| 0 <= i < |sorted[1..]| && sorted[1..][i] == y;
      assert sorted[i + 1] == y;
    }
  }

  /** A row not later than every row of a sorted frame can go in front of it. */
  lemma ConsSorted(x: EventRow, r: seq<EventRow>)
    requires SortedByDate(r)
    requires forall k :: 0 <= k < |r| ==> x.date <= r[k].date
    ensures SortedByDate([x] + r)
  {
    forall i, j | 0 <= i < j < |[x] + r| ensures ([x] + r)[i].date <= ([x] + r)[j].date {
      if i > 0 {
        assert ([x] + r)[i] == r[i - 1];
      }
      assert ([x] + r)[j] == r[j - 1];
    }
  }

  /** Inserting adds exactly the row. */
  lemma {:induction false} InsertPermutes(row: EventRow, sorted: seq<EventRow>)
    ensures multiset(Insert(row, sorted)) == multiset([row] + sorted)
    decreases |sorted|
  {
    if |sorted| > 0 && row.date > sorted[0].date {
      var s0, rest := sorted[0], sorted[1..];
      InsertPermutes(row, rest);
      assert sorted == [s0] + rest;
      calc {
        multiset(Insert(row, sorted));
        multiset([s0] + Insert(row, rest));
        multiset([s0]) + multiset([row] + rest);
        multiset([row] + ([s0] + rest));
      }
    }
  }

  /** Inserting into a sorted frame keeps it sorted, adds exactly the row, and puts in front
      either the row or the frame's old head. */
  lemma {:induction false} InsertSorted(row: EventRow, sorted: seq<EventRow>)
    requires SortedByDate(sorted)
    ensures SortedByDate(Insert(row, sorted))
    ensures multiset(Insert(row, sorted)) == multiset([row] + sorted)
    ensures |Insert(row, sorted)| > 0
    ensures Insert(row, sorted)[0] == row || (|sorted| > 0 && Insert(row, sorted)[0] == sorted[0])
    decreases |sorted|
  {
    InsertPermutes(row, sorted);
    if |sorted| == 0 || row.date <= sorted[0].date {
      ConsSorted(row, sorted);
    } else {
      var s0, rest := sorted[0], sorted[1..];
      assert SortedByDate(rest);
      InsertSorted(row, rest);
      var r := Insert(row, rest);
      assert Insert(row, sorted) == [s0] + r;
      SortedHead(sorted);
      forall k | 0 <= k < |r| ensures s0.date <= r[k].date {
        assert r[k] in multiset([row] + rest);
      }
      ConsSorted(s0, r);
    }
  }

  /** `sort_values(by="Date")`, here as an insertion sort. */
  function SortByDate(rows: seq<EventRow>): seq<EventRow>
    decreases |rows|
  {
    if |rows| == 0 then [] else Insert(rows[0], SortByDate(rows[1..]))
  }

  /** The sorted frame is in ascending date order and holds exactly the rows of the frame. */
  lemma {:induction false} SortByDateCorrect(rows: seq<EventRow>)
    ensures SortedByDate(SortByDate(rows))
    ensures multiset(SortByDate(rows)) == multiset(rows)
    decreases |rows|
  {
    if |rows| > 0 {
      SortByDateCorrect(rows[1..]);
      InsertSorted(rows[0], SortByDate(rows[1..]));
      assert rows == [rows[0]] + rows[1..];
    }
  }

  /** `get_dynamic_dates(year)` on the frame `events`: the frame after the appends, and the
      sorted copy it prints. */
  function GetDynamicDates(events: seq<EventRow>, year: int): (r: (seq<EventRow>, seq<EventRow>))
    requires SupportedYear(year)
    ensures |r.0| >= |events| + 10 && r.0[..|events|] == events
    ensures r.0 == events + DynamicRows(year)
    ensures forall row :: row in r.0[|events|..] <==> EventDate(year, row.kind) == Some(row.date)
    ensures SortedByDate(r.1) && multiset(r.1) == multiset(r.0)
  {
    var after := events + DynamicRows(year);
    DynamicRowsMembers(year);
    assert after[|events|..] == DynamicRows(year);
    SortByDateCorrect(after);
    (after, SortByDate(after))
  }

  /** The script's `__main__`: static then dynamic dates of 2022 on an empty frame. */
  function LutheranMain(): (printed: seq<EventRow>)
    ensures SortedByDate(printed)
    ensures multiset(printed) == multiset(StaticRows(2022) + DynamicRows(2022))
  {
    var events := GetStaticDates([], 2022).value;
    assert events == StaticRows(2022);
    GetDynamicDates(events, 2022).1
  }
}
