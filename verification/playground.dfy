/**
 * `playground.py`: a third copy of Butcher's Easter algorithm, the loop that
 * lists Easter for the years 1950 to 2041, and a trial of the case-insensitive
 * "BWV number not followed by a digit" search. Printing and `strftime` are
 * left out: the loop returns the dates it would print.
 */
module Playground {
  import opened Wrappers
  import opened Dates
  import opened Strings
  import ChristianHolidays
  import Helpers

  // ------------------------------------------------------------- Easter

  /** `month = f // 31` and `day = f % 31 + 1` as this file computes them: March 22..31 or
      April 1..25, the same pair as the other two copies give for every integer year. */
  function EasterMonthDay(year: int): (md: (int, int))
    ensures md.0 == 3 || md.0 == 4
    ensures md.0 == 3 ==> 22 <= md.1 <= 31
    ensures md.0 == 4 ==> 1 <= md.1 <= 25
  {
    var a := year % 19;
    var b := year / 100;
    var c := year % 100;
    var d := (19 * a + b - b / 4 - ((b - (b + 8) / 25 + 1) / 3) + 15) % 30;
    var e := (32 + 2 * (b % 4) + 2 * (c / 4) - d - (c % 4)) % 7;
    var f := d + e - 7 * ((a + 11 * d + 22 * e) / 451) + 114;
    assert f == ChristianHolidays.ButcherF(year);
    (f / 31, f % 31 + 1)
  }

  /** All three copies of the algorithm give the same `(month, day)` for every integer year. */
  lemma EasterMonthDayAgrees(year: int)
    ensures EasterMonthDay(year) == ChristianHolidays.EasterMonthDay(year)
    ensures EasterMonthDay(year) == Helpers.GetEasterMonthDay(year)
  {
    assert EasterMonthDay(year).0 == ChristianHolidays.ButcherF(year) / 31;
  }

  /** `calc_easter(year)`: `date(year, month, day)`, which fails only for a year outside
      `date`'s range; otherwise a day between 22 March and 25 April, the same as `get_easter`
      and the calendar engine's `calc_easter`. */
  function CalcEaster(year: int): (r: Option<Date>)
    ensures r.Some? <==> MinYear <= year <= MaxYear
    ensures r.Some? ==> Ymd(year, 3, 22) <= r.value <= Ymd(year, 4, 25)
  {
    var md := EasterMonthDay(year);
    MakeDate(year, md.0, md.1)
  }

  /** The three copies of `calc_easter` / `get_easter` return the same date for every year. */
  lemma CalcEasterAgrees(year: int)
    ensures CalcEaster(year) == ChristianHolidays.CalcEaster(year)
    ensures CalcEaster(year) == Helpers.GetEaster(year)
  {
    EasterMonthDayAgrees(year);
  }

  /** The doc-comment's promise: the date is a Sunday. */
  lemma CalcEasterIsSunday(year: int)
    requires MinYear <= year <= MaxYear
    ensures CalcEaster(year).Some? && Weekday(CalcEaster(year).value) == Sunday
  {
    CalcEasterAgrees(year);
    ChristianHolidays.CalcEasterIsSunday(year);
  }

  /** Easter moves forward with the year: a later year's Easter is a later date. */
  lemma EasterIncreasing(y1: int, y2: int)
    requires MinYear <= y1 < y2 <= MaxYear
    ensures CalcEaster(y1).Some? && CalcEaster(y2).Some?
    ensures CalcEaster(y1).value < CalcEaster(y2).value
  {
    NewYearsApart(y1, y2);
    assert Ymd(y1, 4, 25) <= Ymd(y1, 1, 1) + 115;
    assert Ymd(y2, 1, 1) + 80 <= Ymd(y2, 3, 22);
  }

  const StartInterval: int := 1950
  const EndInterval: int := 2042

  /** `for year in range(start, end): easter(year)`: one date per year, in year order. */
  method ListYears(easter: int -> Option<Date>, start: int, end: int) returns (dates: seq<Date>)
    requires start <= end
    requires forall y :: start <= y < end ==> easter(y).Some?
    ensures |dates| == end - start
    ensures forall k :: 0 <= k < |dates| ==> easter(start + k) == Some(dates[k])
  {
    dates := [];
    var year := start;
    while year < end
      invariant start <= year <= end
      invariant |dates| == year - start
      invariant forall k :: 0 <= k < |dates| ==> easter(start + k) == Some(dates[k])
    {
      dates := dates + [easter(year).value];
      year := year + 1;
    }
  }

  /** The main loop over `range(start_interval, end_interval)`: one Easter per year from 1950
      to 2041, in year order, so the dates are Sundays and strictly increasing. */
  method EasterDates() returns (dates: seq<Date>)
    ensures |dates| == EndInterval - StartInterval
    ensures forall k :: 0 <= k < |dates| ==> CalcEaster(StartInterval + k) == Some(dates[k])
    ensures forall k :: 0 <= k < |dates| ==> Weekday(dates[k]) == Sunday
    ensures forall k, l :: 0 <= k < l < |dates| ==> dates[k] < dates[l]
  {
    dates := ListYears(CalcEaster, StartInterval, EndInterval);
    forall k | 0 <= k < |dates| ensures Weekday(dates[k]) == Sunday {
      CalcEasterIsSunday(StartInterval + k);
    }
    forall k, l | 0 <= k < l < |dates| ensures dates[k] < dates[l] {
      EasterIncreasing(StartInterval + k, StartInterval + l);
    }
  }

  // ------------------------------------------------------------- search

  /** `re.compile('(?i)%s(?![0-9])' % what)` matches at index `i` of `text`, for a `what` without
      regex metacharacters: the next `|what|` characters equal `what` up to ASCII case, and no
      digit follows them. */
  predicate MatchAt(text: string, what: string, i: int) {
    0 <= i && i + |what| <= |text| && Lower(text[i..i + |what|]) == Lower(what)
    && (i + |what| == |text| || !IsDigit(text[i + |what|]))
  }

  /** `regexp.search(text)` from index `i` on: the first index that matches, or `None`. */
  function SearchFrom(text: string, what: string, i: nat): (r: Option<nat>)
    requires i <= |text|
    ensures r.Some? ==> i <= r.value && MatchAt(text, what, r.value)
    ensures r.Some? ==> forall j :: i <= j < r.value ==> !MatchAt(text, what, j)
    ensures r.None? ==> forall j :: i <= j ==> !MatchAt(text, what, j)
    decreases |text| - i
  {
    if MatchAt(text, what, i) then Some(i)
    else if i == |text| then None
    else SearchFrom(text, what, i + 1)
  }

  /** `regexp.search(text)`: the leftmost match, and `None` exactly when there is none. */
  function Search(text: string, what: string): (r: Option<nat>)
    ensures r.Some? ==> MatchAt(text, what, r.value) && forall j :: 0 <= j < r.value ==> !MatchAt(text, what, j)
    ensures r.None? <==> forall j :: !MatchAt(text, what, j)
  {
    SearchFrom(text, what, 0)
  }

  /** The search finds a match whenever there is one, and none to the left of it. */
  lemma SearchFindsMatch(text: string, what: string, i: int)
    requires MatchAt(text, what, i)
    ensures Search(text, what).Some? && Search(text, what).value <= i
  {
  }

  /** A position whose `k`-th character differs from `what`'s, ignoring case, is no match. */
  lemma Mismatch(text: string, what: string, i: nat, k: nat)
    requires i + |what| <= |text| && k < |what|
    requires LowerChar(text[i + k]) != LowerChar(what[k])
    ensures !MatchAt(text, what, i)
  {
    assert text[i..i + |what|][k] == text[i + k];
  }

  /** A text made of `pre`, then a piece equal to `what` up to case, then text that does not
      start with a digit, matches right after `pre`. */
  lemma MatchAfter(pre: string, w: string, post: string, what: string)
    requires Lower(w) == Lower(what)
    requires |post| > 0 ==> !IsDigit(post[0])
    ensures MatchAt(pre + w + post, what, |pre|)
  {
    var text := pre + w + post;
    assert |w| == |what|;
    assert text[|pre|..|pre| + |w|] == w;
    if |post| > 0 {
      assert text[|pre| + |w|] == post[0];
    }
  }

  /** The sample title of `test_regexp`, cut where "BWV 4" stands. */
  const TitleHead: string := "Christ lag in Todes Banden, "
  const TitleTail: string := ": Versus IV: Es war ein wunderlicher Krieg"
  const SampleTitle: string := TitleHead + "BWV 4" + TitleTail
  const SampleWhat: string := "bwv 4"

  /** `test_regexp()`: the search for "bwv 4" succeeds on the sample title, so "matched" is
      printed; the match is at the latest the "BWV 4" that follows "Banden, ", at index 28. */
  lemma TestRegexp()
    ensures Search(SampleTitle, SampleWhat).Some?
    ensures Search(SampleTitle, SampleWhat).value <= 28
  {
    var w := "BWV 4";
    assert Lower(w) == Lower(SampleWhat) by {
      assert Lower(w)[0] == 'b' && Lower(w)[1] == 'w' && Lower(w)[2] == 'v';
    }
    assert TitleTail[0] == ':';
    MatchAfter(TitleHead, w, TitleTail, SampleWhat);
    assert |TitleHead| == 28;
    SearchFindsMatch(SampleTitle, SampleWhat, 28);
  }

  /** The look-ahead at work: "bwv 4" is not found in "BWV 40", where a digit follows. */
  lemma LookaheadExample()
    ensures Search("BWV 40", "bwv 4").None?
  {
    forall j ensures !MatchAt("BWV 40", "bwv 4", j) {
      if j == 1 {
        Mismatch("BWV 40", "bwv 4", 1, 0);
      } else if j == 0 {
        assert IsDigit("BWV 40"[5]);
      }
    }
  }
}
