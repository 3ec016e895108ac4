/**
 * The `ChurchYear` enum of `christian_holidays.py`: its seventy members in
 * declaration order, each with its member name, title and labels, the
 * `LabelCalendarSeason` / `LabelCalendarCycle` label enums, and
 * `generate_data_for_church_year_enum`, which produces the numbered Epiphany
 * and Trinity members.
 */
module ChurchYear {
  import opened Wrappers
  import opened Strings
  import ChristianHolidays

  // ----------------------------------------------------------------- labels

  /** `LabelCalendarSeason`; a member's first label names its season. */
  datatype Season =
    | AdventSeason | ChristmasSeason | NewYearSeason | EpiphanySeason | Shrovetide
    | HolyWeek | AfterEaster | WhitSeason | TrinitySeason | Static

  /** The first component of the season's value, the season's title. */
  function SeasonTitle(s: Season): string {
    match s
    case AdventSeason => "Advent"
    case ChristmasSeason => "Christmas"
    case NewYearSeason => "New Year"
    case EpiphanySeason => "Epiphany"
    case Shrovetide => "Shrovetide"
    case HolyWeek => "Holy Week"
    case AfterEaster => "After Easter"
    case WhitSeason => "Whit"
    case TrinitySeason => "Trinity"
    case Static => "Static"
  }

  /** `LabelCalendarCycle`. */
  datatype Cycle = TemporalCycle | SanctoralCycle

  function CycleTitle(c: Cycle): string {
    match c
    case TemporalCycle => "Temporal Cycle"
    case SanctoralCycle => "Sanctoral Cycle"
  }

  /** A label as stored in a member's `labels` list: a season's value (a tuple whose first
      component is the title) or a cycle's value (a plain string). */
  datatype Label = SeasonLabel(season: Season) | CycleLabel(cycle: Cycle)

  /** `label[0]`: the title of a season label, the first character of a cycle label. */
  function LabelHead(l: Label): string {
    match l
    case SeasonLabel(s) => SeasonTitle(s)
    case CycleLabel(c) => CycleTitle(c)[..1]
  }

  /** The labels of a movable feast: its season, then the temporal cycle. */
  function TemporalLabels(s: Season): seq<Label> {
    [SeasonLabel(s), CycleLabel(TemporalCycle)]
  }

  // ---------------------------------------------------------------- members

  /** A `ChurchYear` member. Numbered members carry their number; only the numbers listed by
      `IsMember` exist in the enum. */
  datatype Feast =
    | Advent(n: nat) | Christmas(n: nat) | NewYear(n: nat) | Epiphany(n: nat)
    | Septuagesima | Sexagesima | Quinquagesima
    | PalmSunday | GoodFriday | HolySaturday | Easter(n: nat)
    | Quasimodogeniti | MisericordiasDomini | Jubilate | Cantate | Rogate | Ascension | Exaudi
    | Whit(n: nat) | Trinity(n: nat)
    | Visitation | Reformation | Candlemas | Annunciation | John | Michaelmas

  /** The feasts the enum declares: four Advents, four Christmas days, two New Year days, seven
      Epiphanies, three Easter days, three Whit days and twenty-eight Trinity Sundays. */
  predicate IsMember(f: Feast) {
    match f
    case Advent(n) => 1 <= n <= 4
    case Christmas(n) => 1 <= n <= 4
    case NewYear(n) => 1 <= n <= 2
    case Epiphany(n) => 1 <= n <= 7
    case Easter(n) => 1 <= n <= 3
    case Whit(n) => 1 <= n <= 3
    case Trinity(n) => 1 <= n <= 28
    case _ => true
  }

  const MemberCount: nat := 70

  /** The `i`-th member in declaration order. */
  function MemberAt(i: int): Feast
    requires 0 <= i < MemberCount
  {
    if i < 4 then Advent(i + 1)
    else if i < 8 then Christmas(i - 3)
    else if i < 10 then NewYear(i - 7)
    else if i < 17 then Epiphany(i - 9)
    else if i == 17 then Septuagesima
    else if i == 18 then Sexagesima
    else if i == 19 then Quinquagesima
    else if i == 20 then PalmSunday
    else if i == 21 then GoodFriday
    else if i == 22 then HolySaturday
    else if i < 26 then Easter(i - 22)
    else if i == 26 then Quasimodogeniti
    else if i == 27 then MisericordiasDomini
    else if i == 28 then Jubilate
    else if i == 29 then Cantate
    else if i == 30 then Rogate
    else if i == 31 then Ascension
    else if i == 32 then Exaudi
    else if i < 36 then Whit(i - 32)
    else if i < 64 then Trinity(i - 35)
    else if i == 64 then Visitation
    else if i == 65 then Reformation
    else if i == 66 then Candlemas
    else if i == 67 then Annunciation
    else if i == 68 then John
    else Michaelmas
  }

  /** Iterating `ChurchYear`: every member once, in declaration order. */
  function Members(): (ms: seq<Feast>)
    ensures |ms| == MemberCount
    ensures forall i :: 0 <= i < MemberCount ==> ms[i] == MemberAt(i)
  {
    seq(MemberCount, i requires 0 <= i < MemberCount => MemberAt(i))
  }

  /** Where a feast stands in declaration order. */
  function Position(f: Feast): int {
    match f
    case Advent(n) => n - 1
    case Christmas(n) => n + 3
    case NewYear(n) => n + 7
    case Epiphany(n) => n + 9
    case Septuagesima => 17
    case Sexagesima => 18
    case Quinquagesima => 19
    case PalmSunday => 20
    case GoodFriday => 21
    case HolySaturday => 22
    case Easter(n) => n + 22
    case Quasimodogeniti => 26
    case MisericordiasDomini => 27
    case Jubilate => 28
    case Cantate => 29
    case Rogate => 30
    case Ascension => 31
    case Exaudi => 32
    case Whit(n) => n + 32
    case Trinity(n) => n + 35
    case Visitation => 64
    case Reformation => 65
    case Candlemas => 66
    case Annunciation => 67
    case John => 68
    case Michaelmas => 69
  }

  /** The declaration order lists members only, and each at its own position. */
  lemma MemberAtIsMember(i: int)
    requires 0 <= i < MemberCount
    ensures IsMember(MemberAt(i)) && Position(MemberAt(i)) == i
  {
  }

  /** Every member is listed, at its position. */
  lemma PositionOfMember(f: Feast)
    requires IsMember(f)
    ensures 0 <= Position(f) < MemberCount && MemberAt(Position(f)) == f
  {
  }

  /** A feast is listed exactly when it is a member, and no member is listed twice. */
  lemma MembersExactlyOnce()
    ensures forall f :: f in Members() <==> IsMember(f)
    ensures forall i, j :: 0 <= i < j < MemberCount ==> Members()[i] != Members()[j]
  {
    var ms := Members();
    forall f | IsMember(f) ensures f in ms {
      PositionOfMember(f);
      assert ms[Position(f)] == f;
    }
    forall f | f in ms ensures IsMember(f) {
      var i :| 0 <= i < |ms| && ms[i] == f;
      MemberAtIsMember(i);
    }
    forall i, j | 0 <= i < j < MemberCount ensures ms[i] != ms[j] {
      MemberAtIsMember(i);
      MemberAtIsMember(j);
    }
  }

  // ------------------------------------------------------------------ names

  /** The member's `name`: the upper-case stem, and `_` with the number for numbered feasts. */
  function Name(f: Feast): string {
    match f
    case Advent(n) => "ADVENT_" + Decimal(n)
    case Christmas(n) => "CHRISTMAS_" + Decimal(n)
    case NewYear(n) => "NEW_YEAR_" + Decimal(n)
    case Epiphany(n) => "EPIPHANY_" + Decimal(n)
    case Septuagesima => "SEPTUAGESIMA"
    case Sexagesima => "SEXAGESIMA"
    case Quinquagesima => "QUINQUAGESIMA"
    case PalmSunday => "PALM_SUNDAY"
    case GoodFriday => "GOOD_FRIDAY"
    case HolySaturday => "HOLY_SATURDAY"
    case Easter(n) => "EASTER_" + Decimal(n)
    case Quasimodogeniti => "QUASIMODOGENITI"
    case MisericordiasDomini => "MISERICORDIAS_DOMINI"
    case Jubilate => "JUBILATE"
    case Cantate => "CANTATE"
    case Rogate => "ROGATE"
    case Ascension => "ASCENSION"
    case Exaudi => "EXAUDI"
    case Whit(n) => "WHIT_" + Decimal(n)
    case Trinity(n) => "TRINITY_" + Decimal(n)
    case Visitation => "VISITATION"
    case Reformation => "REFORMATION"
    case Candlemas => "CANDLEMAS"
    case Annunciation => "ANNUNCIATION"
    case John => "JOHN"
    case Michaelmas => "MICHAELMAS"
  }

  /** The feast whose name consists of a stem alone. */
  function FixedFeast(s: string): (r: Option<Feast>)
    ensures r.Some? ==> IsMember(r.value) && Name(r.value) == s
  {
    if s == "SEPTUAGESIMA" then Some(Septuagesima)
    else if s == "SEXAGESIMA" then Some(Sexagesima)
    else if s == "QUINQUAGESIMA" then Some(Quinquagesima)
    else if s == "PALM_SUNDAY" then Some(PalmSunday)
    else if s == "GOOD_FRIDAY" then Some(GoodFriday)
    else if s == "HOLY_SATURDAY" then Some(HolySaturday)
    else if s == "QUASIMODOGENITI" then Some(Quasimodogeniti)
    else if s == "MISERICORDIAS_DOMINI" then Some(MisericordiasDomini)
    else if s == "JUBILATE" then Some(Jubilate)
    else if s == "CANTATE" then Some(Cantate)
    else if s == "ROGATE" then Some(Rogate)
    else if s == "ASCENSION" then Some(Ascension)
    else if s == "EXAUDI" then Some(Exaudi)
    else if s == "VISITATION" then Some(Visitation)
    else if s == "REFORMATION" then Some(Reformation)
    else if s == "CANDLEMAS" then Some(Candlemas)
    else if s == "ANNUNCIATION" then Some(Annunciation)
    else if s == "JOHN" then Some(John)
    else if s == "MICHAELMAS" then Some(Michaelmas)
    else None
  }

  /** The numbered feast with the given stem and number, if the enum declares it. */
  function IndexedFeast(stem: string, n: nat): (r: Option<Feast>)
    ensures r.Some? ==> IsMember(r.value) && Name(r.value) == stem + Decimal(n)
  {
    if stem == "ADVENT_" && 1 <= n <= 4 then Some(Advent(n))
    else if stem == "CHRISTMAS_" && 1 <= n <= 4 then Some(Christmas(n))
    else if stem == "NEW_YEAR_" && 1 <= n <= 2 then Some(NewYear(n))
    else if stem == "EPIPHANY_" && 1 <= n <= 7 then Some(Epiphany(n))
    else if stem == "EASTER_" && 1 <= n <= 3 then Some(Easter(n))
    else if stem == "WHIT_" && 1 <= n <= 3 then Some(Whit(n))
    else if stem == "TRINITY_" && 1 <= n <= 28 then Some(Trinity(n))
    else None
  }

  /** `ChurchYear[s]`: the member named `s`, or `None` where the lookup raises `KeyError`. */
  function ParseName(s: string): (r: Option<Feast>)
    ensures r.Some? ==> IsMember(r.value) && Name(r.value) == s
  {
    var k := TrailingDigits(s);
    var stem, digits := s[..|s| - k], s[|s| - k..];
    assert s == stem + digits;
    assert AllDigits(digits) by {
      forall i | 0 <= i < k ensures IsDigit(digits[i]) { assert digits[i] == s[|s| - k + i]; }
    }
    if k == 0 then FixedFeast(s)
    else
      var n := DecimalValue(digits);
      if Decimal(n) == digits then IndexedFeast(stem, n) else None
  }

  /** A feast without a number is found by its name alone. */
  lemma FixedFeastOfName(f: Feast)
    requires !(f.Advent? || f.Christmas? || f.NewYear? || f.Epiphany? || f.Easter? || f.Whit? || f.Trinity?)
    ensures FixedFeast(Name(f)) == Some(f)
    ensures |Name(f)| > 0 && !IsDigit(Name(f)[|Name(f)| - 1])
  {
    if f.Septuagesima? || f.Sexagesima? || f.Quinquagesima? || f.PalmSunday? || f.GoodFriday? || f.HolySaturday? {
      FixedNamesBeforeEaster(f);
    } else if f.Visitation? || f.Reformation? || f.Candlemas? || f.Annunciation? || f.John? || f.Michaelmas? {
      FixedNamesOfSaints(f);
    } else {
      FixedNamesAfterEaster(f);
    }
  }

  lemma FixedNamesBeforeEaster(f: Feast)
    requires f.Septuagesima? || f.Sexagesima? || f.Quinquagesima? || f.PalmSunday? || f.GoodFriday? || f.HolySaturday?
    ensures FixedFeast(Name(f)) == Some(f)
    ensures |Name(f)| > 0 && !IsDigit(Name(f)[|Name(f)| - 1])
  {
    match f
    case Septuagesima =>
    case Sexagesima =>
    case Quinquagesima =>
    case PalmSunday =>
    case GoodFriday =>
    case HolySaturday =>
  }

  lemma FixedNamesAfterEaster(f: Feast)
    requires f.Quasimodogeniti? || f.MisericordiasDomini? || f.Jubilate? || f.Cantate? || f.Rogate? || f.Ascension? || f.Exaudi?
    ensures FixedFeast(Name(f)) == Some(f)
    ensures |Name(f)| > 0 && !IsDigit(Name(f)[|Name(f)| - 1])
  {
    match f
    case Quasimodogeniti =>
    case MisericordiasDomini =>
    case Jubilate =>
    case Cantate =>
    case Rogate =>
    case Ascension =>
    case Exaudi =>
  }

  lemma FixedNamesOfSaints(f: Feast)
    requires f.Visitation? || f.Reformation? || f.Candlemas? || f.Annunciation? || f.John? || f.Michaelmas?
    ensures FixedFeast(Name(f)) == Some(f)
    ensures |Name(f)| > 0 && !IsDigit(Name(f)[|Name(f)| - 1])
  {
    match f
    case Visitation => FixedNameOfSaint(f);
    case Reformation => FixedNameOfSaint(f);
    case Candlemas => FixedNameOfSaint(f);
    case Annunciation => FixedNameOfLaterSaint(f);
    case John => FixedNameOfLaterSaint(f);
    case Michaelmas => FixedNameOfLaterSaint(f);
  }

  lemma FixedNameOfSaint(f: Feast)
    requires f.Visitation? || f.Reformation? || f.Candlemas?
    ensures FixedFeast(Name(f)) == Some(f)
    ensures |Name(f)| > 0 && !IsDigit(Name(f)[|Name(f)| - 1])
  {
  }

  lemma FixedNameOfLaterSaint(f: Feast)
    requires f.Annunciation? || f.John? || f.Michaelmas?
    ensures FixedFeast(Name(f)) == Some(f)
    ensures |Name(f)| > 0 && !IsDigit(Name(f)[|Name(f)| - 1])
  {
  }

  /** A name that does not end in a digit is looked up as a bare stem. */
  lemma ParseStem(s: string)
    requires |s| > 0 && !IsDigit(s[|s| - 1])
    ensures ParseName(s) == FixedFeast(s)
  {
    assert TrailingDigits(s) == 0;
  }

  /** A stem followed by a number parses as the numbered feast with that stem. */
  lemma ParseIndexed(stem: string, n: nat, f: Feast)
    requires |stem| > 0 && !IsDigit(stem[|stem| - 1])
    requires IndexedFeast(stem, n) == Some(f)
    ensures ParseName(stem + Decimal(n)) == Some(f)
  {
    var s := stem + Decimal(n);
    var r := ParseName(s);
    TrailingDigitsOfConcat(stem, Decimal(n));
    assert s[..|s| - |Decimal(n)|] == stem;
    assert s[|s| - |Decimal(n)|..] == Decimal(n);
    DecimalRoundTrip(n);
    assert r == IndexedFeast(stem, n);
  }

  /** Looking a member up by its own name finds that member. */
  lemma ParseNameOfName(f: Feast)
    requires IsMember(f)
    ensures ParseName(Name(f)) == Some(f)
  {
    match f
    case Advent(n) => ParseIndexed("ADVENT_", n, f);
    case Christmas(n) => ParseIndexed("CHRISTMAS_", n, f);
    case NewYear(n) => ParseIndexed("NEW_YEAR_", n, f);
    case Epiphany(n) => ParseIndexed("EPIPHANY_", n, f);
    case Easter(n) => ParseIndexed("EASTER_", n, f);
    case Whit(n) => ParseIndexed("WHIT_", n, f);
    case Trinity(n) => ParseIndexed("TRINITY_", n, f);
    case _ => ParseFixedName(f);
  }

  lemma ParseFixedName(f: Feast)
    requires !(f.Advent? || f.Christmas? || f.NewYear? || f.Epiphany? || f.Easter? || f.Whit? || f.Trinity?)
    ensures ParseName(Name(f)) == Some(f)
  {
    FixedFeastOfName(f);
    ParseStem(Name(f));
  }

  /** Different members have different names. */
  lemma NameInjective(f: Feast, g: Feast)
    requires IsMember(f) && IsMember(g) && Name(f) == Name(g)
    ensures f == g
  {
    ParseNameOfName(f);
    ParseNameOfName(g);
  }

  // ----------------------------------------------------------------- titles

  /** The numeral `int_to_roman(i)` for a small index. */
  function Roman(i: nat): string
    requires i < 4000
  {
    ChristianHolidays.IntToRoman(i).value
  }

  /** The title of the `n`-th numbered member: the bare word for the first, the word and the
      numeral of `n - 1` for the later ones. */
  function NumberedTitle(word: string, n: nat): string
    requires 1 <= n <= 4000
  {
    if n == 1 then word else word + " " + Roman(n - 1)
  }

  /** The member's `title`. */
  function Title(f: Feast): string
    requires IsMember(f)
  {
    match f
    case Advent(n) => ["Advent I", "Advent II", "Advent III", "Advent IV"][n - 1]
    case Christmas(n) =>
      ["Christmas Day", "Saint Stephen's Day", "Third day of Christmas", "Sunday after Christmas"][n - 1]
    case NewYear(n) => ["New Year's Day", "New Year's Day I"][n - 1]
    case Epiphany(n) => NumberedTitle("Epiphany", n)
    case Septuagesima => "Septuagesima"
    case Sexagesima => "Sexagesima"
    case Quinquagesima => "Quinquagesima"
    case PalmSunday => "Palm Sunday"
    case GoodFriday => "Good Friday"
    case HolySaturday => "Holy Saturday"
    case Easter(n) => ["Easter", "Easter Monday", "Easter Tuesday"][n - 1]
    case Quasimodogeniti => "Second Sunday of Easter (Quasimodogeniti)"
    case MisericordiasDomini => "Third Sunday of Easter (Misericordias Domini)"
    case Jubilate => "Fourth Sunday of Easter (Jubilate)"
    case Cantate => "Fifth Sunday of Easter (Cantate)"
    case Rogate => "Sixth Sunday of Easter (Rogate)"
    case Ascension => "Holy Thursday (Ascension)"
    case Exaudi => "Sunday after the Ascension (Exaudi)"
    case Whit(n) => ["Whit Sunday (Pentecost)", "Whit Monday", "Whit Tuesday"][n - 1]
    case Trinity(n) => NumberedTitle("Trinity", n)
    case Visitation => "Visitation"
    case Reformation => "Reformation Day"
    case Candlemas => "Candlemas"
    case Annunciation => "Annunciation"
    case John => "Nativity of Saint John the Baptist"
    case Michaelmas => "Michaelmas"
  }

  // ---------------------------------------------------------------- seasons

  /** The season whose label comes first in the member's `labels`. */
  function SeasonOf(f: Feast): Season {
    match f
    case Advent(_) => AdventSeason
    case Christmas(_) => ChristmasSeason
    case NewYear(_) => NewYearSeason
    case Epiphany(_) => EpiphanySeason
    case Septuagesima | Sexagesima | Quinquagesima => Shrovetide
    case PalmSunday | GoodFriday | HolySaturday | Easter(_) => HolyWeek
    case Quasimodogeniti | MisericordiasDomini | Jubilate | Cantate | Rogate | Ascension | Exaudi =>
      AfterEaster
    case Whit(_) => WhitSeason
    case Trinity(_) => TrinitySeason
    case Visitation | Reformation | Candlemas | Annunciation | John | Michaelmas => Static
  }

  /** The member's `labels`: season and temporal cycle for movable feasts, the static label alone
      for fixed saints' days. */
  function Labels(f: Feast): (ls: seq<Label>)
    ensures |ls| >= 1 && ls[0] == SeasonLabel(SeasonOf(f))
    ensures CycleLabel(SanctoralCycle) !in ls
    ensures CycleLabel(TemporalCycle) in ls <==> SeasonOf(f) != Static
  {
    if SeasonOf(f) == Static then [SeasonLabel(Static)] else TemporalLabels(SeasonOf(f))
  }

  // ------------------------------------------------------- the enum's table

  /** One `(name, (title, link, labels))` entry of the table the enum is built from; the links
      are not modelled. */
  datatype EnumEntry = EnumEntry(name: string, title: string, labels: seq<Label>)

  /** The entry the enum declares for a member. */
  function EntryOf(f: Feast): EnumEntry
    requires IsMember(f)
  {
      EnumEntry(Name(f), Title(f), Labels(f))
  }

  /** The entry `generate_data_for_church_year_enum` makes at loop index `i`. */
  function GeneratedEntry(name: string, labels: seq<Label>, i: nat): EnumEntry
    requires i < 4000
  {
      EnumEntry(Upper(name) + "_" + Decimal(i + 1),
              RStrip(Capitalize(name) + " " + ChristianHolidays.IntToRoman(i).value),
              labels)
  }

  /** `[f(0), ..., f(n - 1)]`, built by appending as the Python loop does. */
  function Tabulate<T>(f: nat --> T, n: nat): seq<T>
    requires forall i :: 0 <= i < n ==> f.requires(i)
  {
    if n == 0 then [] else Tabulate(f, n - 1) + [f(n - 1)]
  }

  lemma {:induction false} TabulateAt<T>(f: nat --> T, n: nat)
    requires forall i :: 0 <= i < n ==> f.requires(i)
    ensures |Tabulate(f, n)| == n
    ensures forall i :: 0 <= i < n ==> Tabulate(f, n)[i] == f(i)
  {
    if n > 0 {
      TabulateAt(f, n - 1);
    }
  }

  /** `generate_data_for_church_year_enum(count, name, link, labels)`: one entry per index below
      `count`; `int_to_roman` raises `IndexError` once the index reaches 4000. */
  method GenerateData(count: int, name: string, labels: seq<Label>) returns (r: Option<seq<EnumEntry>>)
    ensures r.None? <==> count > 4000
    ensures r.Some? ==> |r.value| == (if count < 0 then 0 else count) <= 4000
    ensures r.Some? ==> forall i :: 0 <= i < |r.value| ==> r.value[i] == GeneratedEntry(name, labels, i)
  {
    var entry := (i: nat) requires i < 4000 => GeneratedEntry(name, labels, i);
    var index := 0;
    var acc: seq<EnumEntry> := [];
    while index < count && index < 4000
      invariant 0 <= index <= (if count < 0 then 0 else count) && index <= 4000
      invariant acc == Tabulate(entry, index)
    {
      acc := acc + [entry(index)];
      index := index + 1;
    }
    if index < count {
      return None;
    }
    TabulateAt(entry, index);
    return Some(acc);
  }

  /** `rstrip` keeps a word, a blank and a word that ends in a visible character. */
  lemma RStripJoined(word: string, r: string)
    requires |r| > 0 && !IsWhitespace(r[|r| - 1])
    ensures RStrip(word + " " + r) == word + " " + r
  {
    var t := word + " " + r;
    assert t[|t| - 1] == r[|r| - 1];
    RStripOneBlank(t);
  }

  /** `rstrip` drops the blank before an empty numeral. */
  lemma RStripEmptyTail(word: string, r: string)
    requires |word| > 0 && !IsWhitespace(word[|word| - 1]) && r == ""
    ensures RStrip(word + " " + r) == word
  {
    assert word + " " + r == word + " ";
    RStripOneBlank(word);
  }

  /** `(capitalized + ' ' + int_to_roman(0)).rstrip()` is the bare word. */
  lemma FirstGeneratedTitle(word: string)
    requires |word| > 0 && !IsWhitespace(word[|word| - 1])
    ensures RStrip(word + " " + Roman(0)) == word
  {
    ChristianHolidays.IntToRomanZero();
    RStripEmptyTail(word, Roman(0));
  }

  /** For a positive index the generated title is the word, a blank and the numeral. */
  lemma LaterGeneratedTitle(word: string, i: nat)
    requires 0 < i < 4000
    ensures RStrip(word + " " + Roman(i)) == word + " " + Roman(i)
  {
    ChristianHolidays.IntToRomanEndsInLetter(i);
    RStripJoined(word, Roman(i));
  }

  /** What a generated entry holds, given the upper-case and capitalised forms of its word. */
  lemma GeneratedParts(name: string, stem: string, word: string, labels: seq<Label>, i: nat)
    requires Upper(name) + "_" == stem && Capitalize(name) == word && i < 4000
    requires |word| > 0 && !IsWhitespace(word[|word| - 1])
    ensures GeneratedEntry(name, labels, i) ==
      EnumEntry(stem + Decimal(i + 1), NumberedTitle(word, i + 1), labels)
  {
    assert Upper(name) + "_" + Decimal(i + 1) == stem + Decimal(i + 1);
    if i == 0 {
      FirstGeneratedTitle(word);
    } else {
      LaterGeneratedTitle(word, i);
    }
  }

  /** The word forms `generate_data_for_church_year_enum` derives from `'epiphany'` and
      `'trinity'`. */
  lemma WordForms()
    ensures Upper("epiphany") + "_" == "EPIPHANY_" && Capitalize("epiphany") == "Epiphany"
    ensures Upper("trinity") + "_" == "TRINITY_" && Capitalize("trinity") == "Trinity"
    ensures !IsWhitespace("Epiphany"[7]) && !IsWhitespace("Trinity"[6])
  {
  }

  /** The numbered members' entries, written with their stem and numbered title. */
  lemma NumberedEntries(i: nat)
    ensures i < 7 ==>
      EntryOf(Epiphany(i + 1))
      == EnumEntry("EPIPHANY_" + Decimal(i + 1), NumberedTitle("Epiphany", i + 1), TemporalLabels(EpiphanySeason))
    ensures i < 28 ==>
      EntryOf(Trinity(i + 1))
      == EnumEntry("TRINITY_" + Decimal(i + 1), NumberedTitle("Trinity", i + 1), TemporalLabels(TrinitySeason))
  {
  }

  /** The generated names and titles are those of the numbered Epiphany members. */
  lemma GeneratedEpiphany(i: nat)
    requires i < 7
    ensures GeneratedEntry("epiphany", TemporalLabels(EpiphanySeason), i) == EntryOf(Epiphany(i + 1))
  {
    var labels := TemporalLabels(EpiphanySeason);
    var e := EnumEntry("EPIPHANY_" + Decimal(i + 1), NumberedTitle("Epiphany", i + 1), labels);
    WordForms();
    GeneratedParts("epiphany", "EPIPHANY_", "Epiphany", labels, i);
    assert GeneratedEntry("epiphany", labels, i) == e;
    NumberedEntries(i);
  }

  /** The generated names and titles are those of the numbered Trinity members. */
  lemma GeneratedTrinity(i: nat)
    requires i < 28
    ensures GeneratedEntry("trinity", TemporalLabels(TrinitySeason), i) == EntryOf(Trinity(i + 1))
  {
    var labels := TemporalLabels(TrinitySeason);
    var e := EnumEntry("TRINITY_" + Decimal(i + 1), NumberedTitle("Trinity", i + 1), labels);
    WordForms();
    GeneratedParts("trinity", "TRINITY_", "Trinity", labels, i);
    assert GeneratedEntry("trinity", labels, i) == e;
    NumberedEntries(i);
  }

  /** `es` holds the entries of the members from position `lo` on, in declaration order. */
  predicate ListsMembers(es: seq<EnumEntry>, lo: int) {
    0 <= lo && lo + |es| <= MemberCount
    && forall i :: 0 <= i < |es| ==> es[i] == EntryOf(MemberAt(lo + i))
  }

  /** The entries the enum lists literally: those of the members at positions `lo` up to `hi`. */
  function LiteralEntries(lo: int, hi: int): (es: seq<EnumEntry>)
    requires 0 <= lo <= hi <= MemberCount
    ensures |es| == hi - lo && ListsMembers(es, lo)
  {
    seq(hi - lo, i requires 0 <= i < hi - lo => EntryOf(MemberAt(lo + i)))
  }

  /** The literal block before the Epiphany run holds Advent, Christmas and New Year. */
  lemma LiteralHead()
    ensures forall i :: 0 <= i < 10 ==>
      LiteralEntries(0, 10)[i].labels[0]
      in {SeasonLabel(AdventSeason), SeasonLabel(ChristmasSeason), SeasonLabel(NewYearSeason)}
  {
    var a := LiteralEntries(0, 10);
    forall i | 0 <= i < 10
      ensures a[i].labels[0] in {SeasonLabel(AdventSeason), SeasonLabel(ChristmasSeason), SeasonLabel(NewYearSeason)}
    {
      assert a[i] == EntryOf(MemberAt(i));
      assert SeasonOf(MemberAt(i)) in {AdventSeason, ChristmasSeason, NewYearSeason};
    }
  }

  /** The literal block between the Epiphany and Trinity runs holds Shrovetide, Holy Week,
      the Sundays after Easter and Whit. */
  lemma LiteralMiddle()
    ensures forall i :: 0 <= i < 19 ==>
      LiteralEntries(17, 36)[i].labels[0]
      in {SeasonLabel(Shrovetide), SeasonLabel(HolyWeek), SeasonLabel(AfterEaster), SeasonLabel(WhitSeason)}
  {
    var b := LiteralEntries(17, 36);
    forall i | 0 <= i < 19
      ensures b[i].labels[0] in {SeasonLabel(Shrovetide), SeasonLabel(HolyWeek), SeasonLabel(AfterEaster), SeasonLabel(WhitSeason)}
    {
      assert b[i] == EntryOf(MemberAt(17 + i));
      assert SeasonOf(MemberAt(17 + i)) in {Shrovetide, HolyWeek, AfterEaster, WhitSeason};
    }
  }

  /** The saints' days come last, each with the static label alone. */
  lemma LiteralTail()
    ensures forall i :: 0 <= i < 6 ==> LiteralEntries(64, 70)[i].labels == [SeasonLabel(Static)]
  {
    var c := LiteralEntries(64, 70);
    forall i | 0 <= i < 6 ensures c[i].labels == [SeasonLabel(Static)] {
      assert c[i] == EntryOf(MemberAt(64 + i));
      assert SeasonOf(MemberAt(64 + i)) == Static;
    }
  }

  lemma ListsMembersConcat(a: seq<EnumEntry>, b: seq<EnumEntry>, lo: int)
    requires ListsMembers(a, lo) && ListsMembers(b, lo + |a|)
    ensures ListsMembers(a + b, lo)
  {
    forall i | 0 <= i < |a + b| ensures (a + b)[i] == EntryOf(MemberAt(lo + i)) {
      if i >= |a| {
        assert (a + b)[i] == b[i - |a|];
      }
    }
  }

  /** The generated Epiphany run holds the entries of the numbered Epiphany members. */
  lemma EpiphanyRun(e: seq<EnumEntry>)
    requires |e| == 7
    requires forall i :: 0 <= i < |e| ==> e[i] == GeneratedEntry("epiphany", TemporalLabels(EpiphanySeason), i)
    ensures ListsMembers(e, 10)
  {
    forall i | 0 <= i < 7 ensures e[i] == EntryOf(MemberAt(10 + i)) {
      assert MemberAt(10 + i) == Epiphany(i + 1);
      GeneratedEpiphany(i);
    }
  }

  /** The generated Trinity run holds the entries of the numbered Trinity members. */
  lemma TrinityRun(t: seq<EnumEntry>)
    requires |t| == 28
    requires forall i :: 0 <= i < |t| ==> t[i] == GeneratedEntry("trinity", TemporalLabels(TrinitySeason), i)
    ensures ListsMembers(t, 36)
  {
    forall i | 0 <= i < 28 ensures t[i] == EntryOf(MemberAt(36 + i)) {
      assert MemberAt(36 + i) == Trinity(i + 1);
      GeneratedTrinity(i);
    }
  }

  /** `get_church_year_enum()`: the literal entries with the generated Epiphany and Trinity runs
      spliced in after New Year and after Whit. The generated runs agree with the members'
      names, titles and labels, so the whole table lists every member's entry in declaration
      order. */
  method ChurchYearEnum() returns (entries: seq<EnumEntry>)
    ensures |entries| == MemberCount
    ensures forall i :: 0 <= i < MemberCount ==> entries[i] == EntryOf(MemberAt(i))
    ensures forall i :: 0 <= i < MemberCount ==> ParseName(entries[i].name) == Some(MemberAt(i))
    ensures forall i :: 0 <= i < MemberCount ==>
      |entries[i].labels| > 0 && entries[i].labels[0] == SeasonLabel(SeasonOf(MemberAt(i)))
  {
    var epiphany := GenerateData(7, "epiphany", TemporalLabels(EpiphanySeason));
    var trinity := GenerateData(28, "trinity", TemporalLabels(TrinitySeason));
    var e, t := epiphany.value, trinity.value;
    EpiphanyRun(e);
    TrinityRun(t);
    var a, b, c := LiteralEntries(0, 10), LiteralEntries(17, 36), LiteralEntries(64, 70);
    ListsMembersConcat(t, c, 36);
    ListsMembersConcat(b, t + c, 17);
    ListsMembersConcat(e, b + (t + c), 10);
    ListsMembersConcat(a, e + (b + (t + c)), 0);
    entries := a + (e + (b + (t + c)));
    forall i | 0 <= i < MemberCount ensures ParseName(entries[i].name) == Some(MemberAt(i)) {
      MemberAtIsMember(i);
      ParseNameOfName(MemberAt(i));
    }
  }
}
