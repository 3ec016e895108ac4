/**
 * The date primitives of `christian_holidays.py`: the exclusive-of-self
 * weekday locators, Butcher's Easter algorithm, Christmas, and the Roman
 * numerals used in feast titles.
 */
module ChristianHolidays {
  import opened Wrappers
  import opened Dates

  /** The years for which `date_from_str` can build `f'{year}-12-25'` and the other fixed days:
      `%Y` needs exactly four digits. */
  predicate SupportedYear(year: int) {
    1000 <= year <= MaxYear
  }

  // --------------------------------------------------------------- locators

  /** `last_weekday(in_date, weekday)`: the latest day strictly before `d` with the given weekday.
      When `d` already has that weekday the result is a full week earlier. */
  function LastWeekday(d: Date, weekday: int): (r: Date)
    ensures 0 <= weekday <= 6 ==> Weekday(r) == weekday && d - Week <= r < d
    ensures 0 <= weekday <= 6 && Weekday(d) == weekday ==> r == d - Week
    ensures 0 <= weekday <= 6 ==>
      forall x :: r < x < d ==> Weekday(x) != weekday
  {
    var closest := d + (weekday - Weekday(d));
    if closest < d then closest else closest - Week
  }

  /** `next_weekday(in_date, weekday)`: the earliest day strictly after `d` with the given weekday.
      When `d` already has that weekday the result is a full week later. */
  function NextWeekday(d: Date, weekday: int): (r: Date)
    ensures 0 <= weekday <= 6 ==> Weekday(r) == weekday && d < r <= d + Week
    ensures 0 <= weekday <= 6 && Weekday(d) == weekday ==> r == d + Week
    ensures 0 <= weekday <= 6 ==>
      forall x :: d < x < r ==> Weekday(x) != weekday
  {
    var closest := d - (Weekday(d) - weekday);
    if closest > d then closest else closest + Week
  }

  /** The week before `d` holds exactly one day with each weekday, so `last_weekday` is pinned
      down by its weekday and range. */
  lemma LastWeekdayUnique(d: Date, weekday: int, r: Date)
    requires 0 <= weekday <= 6 && d - Week <= r < d && Weekday(r) == weekday
    ensures LastWeekday(d, weekday) == r
  {
    SameWeekday(LastWeekday(d, weekday), r);
  }

  /** Both locators commute with a shift by whole weeks, for every weekday argument. */
  lemma LocatorsShiftByWeeks(d: Date, weekday: int, k: int)
    ensures LastWeekday(d + 7 * k, weekday) == LastWeekday(d, weekday) + 7 * k
    ensures NextWeekday(d + 7 * k, weekday) == NextWeekday(d, weekday) + 7 * k
  {
    WeekdayShift(d, k);
  }

  // ----------------------------------------------------------------- Easter

  /** The quantity `f` of Butcher's algorithm, from which `calc_easter` reads month and day. */
  function ButcherF(year: int): (f: int)
    ensures 114 <= f <= 148
  {
    var a := year % 19;
    var b := year / 100;
    var c := year % 100;
    var d := (19 * a + b - b / 4 - ((b - (b + 8) / 25 + 1) / 3) + 15) % 30;
    var e := (32 + 2 * (b % 4) + 2 * (c / 4) - d - (c % 4)) % 7;
    var q := (a + 11 * d + 22 * e) / 451;
    assert 0 <= q <= 1;
    assert q == 1 ==> d >= 28;
    assert q == 0 ==> d + e <= 34;
    d + e - 7 * q + 114
  }

  /** The `(month, day)` that `calc_easter` passes to `datetime`: always a real day between
      22 March and 25 April, for every integer year. */
  function EasterMonthDay(year: int): (md: (int, int))
    ensures md.0 == 3 ==> 22 <= md.1 <= 31
    ensures md.0 == 4 ==> 1 <= md.1 <= 25
    ensures md.0 == 3 || md.0 == 4
  {
    var f := ButcherF(year);
    (f / 31, f % 31 + 1)
  }

  /** `calc_easter(year)`: `datetime(year, month, day)`, which raises only when the year itself is
      outside `datetime`'s range. */
  function CalcEaster(year: int): (r: Option<Date>)
    ensures r.Some? <==> MinYear <= year <= MaxYear
    ensures r.Some? ==> Ymd(year, 3, 22) <= r.value <= Ymd(year, 4, 25)
  {
    var md := EasterMonthDay(year);
    MakeDate(year, md.0, md.1)
  }

  /** Easter of a year `datetime` can represent. */
  function EasterDate(year: int): (r: Date)
    requires MinYear <= year <= MaxYear
    ensures Ymd(year, 3, 22) <= r <= Ymd(year, 4, 25)
  {
    CalcEaster(year).value
  }

  /** The ordinal of Butcher's date is `f - 33` days after the leap-adjusted start of the year. */
  lemma EasterOrdinal(year: int)
    ensures var md := EasterMonthDay(year);
      Ymd(year, md.0, md.1)
      == DaysBeforeYear(year) + (if IsLeap(year) then 1 else 0) + ButcherF(year) - 33
  {
  }

  /** Leap days up to and including year `y`, counted with the Gregorian rule. */
  lemma LeapDaysThrough(y: int)
    ensures DaysBeforeYear(y) + (if IsLeap(y) then 1 else 0) == 365 * (y - 1) + y / 4 - y / 100 + y / 400
  {
    var p := y - 1;
    assert y / 4 == p / 4 + (if y % 4 == 0 then 1 else 0);
    assert y / 100 == p / 100 + (if y % 100 == 0 then 1 else 0);
    assert y / 400 == p / 400 + (if y % 400 == 0 then 1 else 0);
  }

  /** The leap terms of `y` expressed through its century `b` and year-in-century `c`. */
  lemma CenturySplit(y: int)
    ensures y == 100 * (y / 100) + y % 100
    ensures y / 4 == 25 * (y / 100) + (y % 100) / 4
    ensures y / 400 == (y / 100) / 4
  {
  }

  /** The week arithmetic behind Butcher's `e`: with `y = 100 b + c`, `b = 4 bq + br` and
      `c = 4 cq + cr`, adding `e` to the year's leap-adjusted day count lands on a Sunday. */
  lemma SundayCongruence(bq: int, br: int, cq: int, cr: int, d: int, e: int, t: int, q: int)
    requires 32 + 2 * br + 2 * cq - d - cr == 7 * t + e
    ensures var b := 4 * bq + br; var y := 100 * b + 4 * cq + cr;
      (365 * (y - 1) + (25 * b + cq) - b + bq + (d + e - 7 * q + 114) - 33 + 6) % 7 == 6
  {
    var b := 4 * bq + br;
    var y := 100 * b + 4 * cq + cr;
    var total := 365 * (y - 1) + (25 * b + cq) - b + bq + (d + e - 7 * q + 114) - 33 + 6;
    var k := 20871 * bq + 5218 * br + 209 * cq + 52 * cr - t - q - 36;
    assert total == 7 * k + 6;
  }

  /** Butcher's date is a Sunday, for every year: the doc-comment's promise holds. */
  lemma {:induction false} EasterIsSunday(year: int)
    ensures var md := EasterMonthDay(year); Weekday(Ymd(year, md.0, md.1)) == Sunday
  {
    var y := year;
    var a := y % 19;
    var b := y / 100;
    var c := y % 100;
    var d := (19 * a + b - b / 4 - ((b - (b + 8) / 25 + 1) / 3) + 15) % 30;
    var e0 := 32 + 2 * (b % 4) + 2 * (c / 4) - d - (c % 4);
    var e := e0 % 7;
    var q := (a + 11 * d + 22 * e) / 451;
    var f := ButcherF(y);
    assert f == d + e - 7 * q + 114;
    EasterOrdinal(y);
    LeapDaysThrough(y);
    CenturySplit(y);
    assert b == 4 * (b / 4) + b % 4 && c == 4 * (c / 4) + c % 4;
    assert e0 == 7 * (e0 / 7) + e;
    SundayCongruence(b / 4, b % 4, c / 4, c % 4, d, e, e0 / 7, q);
  }

  /** `calc_easter` always answers with a Sunday. */
  lemma CalcEasterIsSunday(year: int)
    requires MinYear <= year <= MaxYear
    ensures Weekday(EasterDate(year)) == Sunday
  {
    EasterIsSunday(year);
  }

  // -------------------------------------------------------------- Christmas

  /** `calc_christmas(year)`: 25 December, one week before the next New Year's Day. */
  function CalcChristmas(year: int): (r: Date)
    requires SupportedYear(year)
    ensures InYear(r, year) && r + Week == Ymd(year + 1, 1, 1)
  {
    NewYearAfterChristmas(year);
    Ymd(year, 12, 25)
  }

  /** 25 December of the last year `datetime` can hold is a Saturday, so the Sunday after it is
      still in that year and `next_weekday` never leaves `datetime`'s range. */
  lemma LastChristmasIsSaturday()
    ensures Weekday(CalcChristmas(MaxYear)) == Saturday
    ensures NextWeekday(CalcChristmas(MaxYear), Sunday) == CalcChristmas(MaxYear) + 1
  {
  }

  /** The ordinals `datetime` can hold: 1 January of year 1 to 31 December 9999. */
  predicate InDateRange(d: Date) {
    Ymd(MinYear, 1, 1) <= d <= Ymd(MaxYear, 12, 31)
  }

  /** `last_weekday(d, weekday)` completes without `OverflowError`: the day `closest` it first
      computes is a `datetime`, and so is the day a week earlier when that is taken. */
  predicate LastWeekdayInRange(d: Date, weekday: int) {
    var closest := d + (weekday - Weekday(d));
    InDateRange(closest) && (closest < d || InDateRange(closest - Week))
  }

  /** `next_weekday(d, weekday)` completes without `OverflowError`, in the same sense. */
  predicate NextWeekdayInRange(d: Date, weekday: int) {
    var closest := d - (Weekday(d) - weekday);
    InDateRange(closest) && (closest > d || InDateRange(closest + Week))
  }

  /** A day with a week of `datetime`s on either side can be given to both locators. */
  lemma LocatorsInRangeAround(d: Date, weekday: int)
    requires 0 <= weekday <= 6 && InDateRange(d - Week) && InDateRange(d + Week)
    ensures LastWeekdayInRange(d, weekday) && NextWeekdayInRange(d, weekday)
  {
  }

  /** A supported year lies well inside `datetime`'s range: its New Year is more than a week
      after the first ordinal, and the next New Year at most that of 9999. */
  lemma SupportedYearInRange(year: int)
    requires SupportedYear(year) && year < MaxYear
    ensures Ymd(MinYear, 1, 1) + 2 * Week <= Ymd(year, 1, 1)
    ensures Ymd(year + 1, 1, 1) <= Ymd(MaxYear, 1, 1)
  {
    NewYearsApart(MinYear, year);
    NewYearsApart(year + 1, MaxYear);
  }

  /** Both locators can be given Christmas Day of a supported year, 9999 included, where 25
      December is a Saturday. */
  lemma ChristmasLocatorsInRange(year: int)
    requires SupportedYear(year)
    ensures LastWeekdayInRange(Ymd(year, 12, 25), Sunday) && NextWeekdayInRange(Ymd(year, 12, 25), Sunday)
  {
    NewYearAfterChristmas(year);
    if year < MaxYear {
      SupportedYearInRange(year);
      LocatorsInRangeAround(Ymd(year, 12, 25), Sunday);
    } else {
      LastChristmasIsSaturday();
    }
  }

  /** `next_weekday` can be given 6 January of a supported year. */
  lemma EpiphanyLocatorInRange(year: int)
    requires SupportedYear(year)
    ensures NextWeekdayInRange(Ymd(year, 1, 6), Sunday)
  {
    NewYearsApart(MinYear, year);
    NewYearAfterChristmas(year);
    if year < MaxYear {
      SupportedYearInRange(year);
    }
    LocatorsInRangeAround(Ymd(year, 1, 6), Sunday);
  }

  /** `last_weekday` can be given Easter and Exaudi, six weeks later, of a supported year. */
  lemma EasterLocatorsInRange(year: int)
    requires SupportedYear(year)
    ensures LastWeekdayInRange(EasterDate(year), Friday) && LastWeekdayInRange(EasterDate(year), Saturday)
    ensures LastWeekdayInRange(EasterDate(year) + 6 * Week, Thursday)
  {
    var e := EasterDate(year);
    NewYearsApart(MinYear, year);
    NewYearAfterChristmas(year);
    if year < MaxYear {
      SupportedYearInRange(year);
    }
    assert Ymd(year, 4, 25) + 8 * Week < Ymd(year, 12, 31);
    LocatorsInRangeAround(e, Friday);
    LocatorsInRangeAround(e, Saturday);
    LocatorsInRangeAround(e + 6 * Week, Thursday);
  }

  // --------------------------------------------------------- Roman numerals

  const Thousands: seq<string> := ["", "M", "MM", "MMM"]
  const Hundreds: seq<string> := ["", "C", "CC", "CCC", "CD", "D", "DC", "DCC", "DCCC", "CM"]
  const Tens: seq<string> := ["", "X", "XX", "XXX", "XL", "L", "LX", "LXX", "LXXX", "XC"]
  const Ones: seq<string> := ["", "I", "II", "III", "IV", "V", "VI", "VII", "VIII", "IX"]

  /** Python's `xs[i]`: negative indices count from the end; out of range raises `IndexError`. */
  function PyIndex<T>(xs: seq<T>, i: int): (r: Option<T>)
    ensures r.Some? <==> -|xs| <= i < |xs|
  {
    if 0 <= i < |xs| then Some(xs[i])
    else if -|xs| <= i < 0 then Some(xs[|xs| + i])
    else None
  }

  /** `int_to_roman(num)`: the four table lookups concatenated. Only the thousands lookup can fail,
      so it raises exactly when `num` is 4000 or more or below -4000. */
  function IntToRoman(num: int): (r: Option<string>)
    ensures r.Some? <==> -4000 <= num < 4000
  {
    match PyIndex(Thousands, num / 1000)
    case None => None
    case Some(th) =>
      Some(th + Hundreds[(num % 1000) / 100] + Tens[(num % 100) / 10] + Ones[num % 10])
  }

  /** The value of a Roman letter. */
  function LetterValue(ch: char): int {
    match ch
    case 'I' => 1
    case 'V' => 5
    case 'X' => 10
    case 'L' => 50
    case 'C' => 100
    case 'D' => 500
    case 'M' => 1000
    case _ => 0
  }

  /** The value a Roman numeral denotes, read independently of the tables: a letter counts
      negatively when a larger one follows it. */
  function RomanValue(s: string): int
    decreases |s|
  {
    if |s| == 0 then 0
    else if |s| >= 2 && LetterValue(s[0]) < LetterValue(s[1]) then RomanValue(s[1..]) - LetterValue(s[0])
    else RomanValue(s[1..]) + LetterValue(s[0])
  }

  /** Reading a concatenation adds the parts, when the left part does not end below where the
      right part starts. */
  lemma {:induction false} RomanValueConcat(u: string, v: string)
    requires |u| == 0 || |v| == 0 || LetterValue(u[|u| - 1]) >= LetterValue(v[0])
    ensures RomanValue(u + v) == RomanValue(u) + RomanValue(v)
    decreases |u|
  {
    if |u| == 0 {
      assert u + v == v;
    } else if |v| > 0 {
      assert (u + v)[0] == u[0];
      assert (u + v)[1..] == u[1..] + v;
      if |u| >= 2 {
        assert (u + v)[1] == u[1];
      } else {
        assert (u + v)[1] == v[0];
        assert u[1..] == "";
      }
      RomanValueConcat(u[1..], v);
    } else {
      assert u + v == u;
    }
  }

  lemma OnesValues(k: int)
    requires 0 <= k <= 9
    ensures RomanValue(Ones[k]) == k
    ensures |Ones[k]| > 0 ==> LetterValue(Ones[k][0]) == 1 || LetterValue(Ones[k][0]) == 5
  {
    var s := Ones[k];
    if |s| >= 1 { assert s[1..] == Ones[k][1..]; }
    if k == 3 { assert s[1..] == "II"; assert s[2..] == "I"; }
    if k == 7 { assert s[1..] == "II"; assert s[2..] == "I"; }
    if k == 8 {
      assert s[1..] == "III"; assert s[2..] == "II"; assert s[3..] == "I";
    }
    if k == 2 { assert s[1..] == "I"; }
    if k == 4 || k == 9 { assert s[1..][1..] == ""; }
    if k == 6 { assert s[1..] == "I"; }
  }

  lemma TensValues(k: int)
    requires 0 <= k <= 9
    ensures RomanValue(Tens[k]) == 10 * k
    ensures |Tens[k]| > 0 ==> LetterValue(Tens[k][0]) == 10 || LetterValue(Tens[k][0]) == 50
    ensures |Tens[k]| > 0 ==> LetterValue(Tens[k][|Tens[k]| - 1]) >= 10
  {
    var s := Tens[k];
    if k == 2 { assert s[1..] == "X"; }
    if k == 3 { assert s[1..] == "XX"; assert s[2..] == "X"; }
    if k == 4 || k == 9 { assert s[1..][1..] == ""; }
    if k == 6 { assert s[1..] == "X"; }
    if k == 7 { assert s[1..] == "XX"; assert s[2..] == "X"; }
    if k == 8 { assert s[1..] == "XXX"; assert s[2..] == "XX"; assert s[3..] == "X"; }
  }

  lemma HundredsValues(k: int)
    requires 0 <= k <= 9
    ensures RomanValue(Hundreds[k]) == 100 * k
    ensures |Hundreds[k]| > 0 ==> LetterValue(Hundreds[k][0]) == 100 || LetterValue(Hundreds[k][0]) == 500
    ensures |Hundreds[k]| > 0 ==> LetterValue(Hundreds[k][|Hundreds[k]| - 1]) >= 100
  {
    var s := Hundreds[k];
    if k == 2 { assert s[1..] == "C"; }
    if k == 3 { assert s[1..] == "CC"; assert s[2..] == "C"; }
    if k == 4 || k == 9 { assert s[1..][1..] == ""; }
    if k == 6 { assert s[1..] == "C"; }
    if k == 7 { assert s[1..] == "CC"; assert s[2..] == "C"; }
    if k == 8 { assert s[1..] == "CCC"; assert s[2..] == "CC"; assert s[3..] == "C"; }
  }

  lemma ThousandsValues(k: int)
    requires 0 <= k <= 3
    ensures RomanValue(Thousands[k]) == 1000 * k
    ensures |Thousands[k]| > 0 ==> LetterValue(Thousands[k][|Thousands[k]| - 1]) == 1000
  {
    var s := Thousands[k];
    if k == 2 { assert s[1..] == "M"; }
    if k == 3 { assert s[1..] == "MM"; assert s[2..] == "M"; }
  }

  /** The first letter of a concatenation comes from its left part unless that is empty. */
  lemma FirstOfConcat(u: string, v: string)
    requires |u + v| > 0
    ensures (u + v)[0] == if |u| > 0 then u[0] else v[0]
  {
  }

  /** Reading four table entries one after the other adds their values. */
  lemma {:induction false} FourPartsValue(a: string, b: string, c: string, d: string)
    requires |a| > 0 ==> LetterValue(a[|a| - 1]) == 1000
    requires |b| > 0 ==> LetterValue(b[0]) <= 500 && LetterValue(b[|b| - 1]) >= 100
    requires |c| > 0 ==> LetterValue(c[0]) <= 50 && LetterValue(c[|c| - 1]) >= 10
    requires |d| > 0 ==> LetterValue(d[0]) <= 5
    ensures RomanValue(a + (b + (c + d))) == RomanValue(a) + RomanValue(b) + RomanValue(c) + RomanValue(d)
  {
    var cd := c + d;
    RomanValueConcat(c, d);
    if |cd| > 0 { FirstOfConcat(c, d); }
    var bcd := b + cd;
    RomanValueConcat(b, cd);
    if |bcd| > 0 { FirstOfConcat(b, cd); }
    RomanValueConcat(a, bcd);
  }

  /** `int_to_roman(n)` for 0..3999 is the thousands, hundreds, tens and ones entries in turn. */
  lemma IntToRomanParts(n: int)
    requires 0 <= n <= 3999
    ensures IntToRoman(n)
      == Some(Thousands[n / 1000] + Hundreds[(n % 1000) / 100] + Tens[(n % 100) / 10] + Ones[n % 10])
  {
  }

  /** A number below 4000 is its thousands, hundreds, tens and ones digits. */
  lemma DecimalPlaces(n: int)
    requires 0 <= n <= 3999
    ensures 0 <= n / 1000 <= 3 && 0 <= (n % 1000) / 100 <= 9
    ensures n == 1000 * (n / 1000) + 100 * ((n % 1000) / 100) + 10 * ((n % 100) / 10) + n % 10
  {
    var r1 := n % 1000;
    assert n == 1000 * (n / 1000) + r1;
    assert r1 == 100 * (r1 / 100) + r1 % 100;
    assert r1 % 100 == n % 100;
    assert n % 100 == 10 * ((n % 100) / 10) + n % 10;
  }

  /** For 0..3999 the numeral denotes the number it was made from. */
  lemma IntToRomanValue(n: int)
    requires 0 <= n <= 3999
    ensures IntToRoman(n).Some? && RomanValue(IntToRoman(n).value) == n
  {
    var th, h, t, o := n / 1000, (n % 1000) / 100, (n % 100) / 10, n % 10;
    DecimalPlaces(n);
    var a, b, c, d := Thousands[th], Hundreds[h], Tens[t], Ones[o];
    IntToRomanParts(n);
    assert a + b + c + d == a + (b + (c + d));
    ThousandsValues(th);
    HundredsValues(h);
    TensValues(t);
    OnesValues(o);
    FourPartsValue(a, b, c, d);
  }

  /** Zero has the empty numeral: every table starts with "". */
  lemma IntToRomanZero()
    ensures IntToRoman(0) == Some("")
  {
    IntToRomanParts(0);
    assert Thousands[0] == "" && Hundreds[0] == "" && Tens[0] == "" && Ones[0] == "";
    assert Thousands[0] + Hundreds[0] + Tens[0] + Ones[0] == "";
  }

  /** For 0..3999 the numeral denotes the number it was made from; 0 gives the empty numeral. */
  lemma IntToRomanRoundTrip(n: int)
    requires 0 <= n <= 3999
    ensures IntToRoman(n).Some? && RomanValue(IntToRoman(n).value) == n
    ensures IntToRoman(n) == Some("") <==> n == 0
  {
    IntToRomanValue(n);
    if n == 0 {
      IntToRomanZero();
    }
  }

  predicate IsRomanLetter(c: char) { LetterValue(c) > 0 }

  predicate RomanLetters(s: string) {
    forall k :: 0 <= k < |s| ==> IsRomanLetter(s[k])
  }

  /** Every character `int_to_roman` produces for 0..3999 is one of I, V, X, L, C, D, M. */
  lemma IntToRomanLetters(n: int)
    requires 0 <= n <= 3999
    ensures IntToRoman(n).Some? && RomanLetters(IntToRoman(n).value)
  {
    DecimalPlaces(n);
    IntToRomanParts(n);
    assert forall j :: 0 <= j < 4 ==> RomanLetters(Thousands[j]);
    assert forall j :: 0 <= j < 10 ==> RomanLetters(Hundreds[j]);
    assert forall j :: 0 <= j < 10 ==> RomanLetters(Tens[j]);
    assert forall j :: 0 <= j < 10 ==> RomanLetters(Ones[j]);
  }

  /** A positive numeral below 4000 is non-empty and ends in a Roman letter. */
  lemma IntToRomanEndsInLetter(n: int)
    requires 0 < n <= 3999
    ensures IntToRoman(n).Some? && |IntToRoman(n).value| > 0
    ensures IsRomanLetter(IntToRoman(n).value[|IntToRoman(n).value| - 1])
  {
    IntToRomanRoundTrip(n);
    IntToRomanLetters(n);
  }
}
