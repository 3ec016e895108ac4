/**
 * `clean_cantatas`, which `instruments.py` and `wiki/all.cantatas.py` define
 * with the same text: it takes the scraped table of cantatas, removes a
 * leading "zeros and one blank" prefix from the BWV cell, drops rows whose
 * BWV is not a number, strips the remaining leading zeros, converts to `int`
 * and keeps the sacred cantatas (BWV below 200, except 198). The conversion
 * is to 64-bit integers, so a number of 2^63 or more raises as well.
 *
 * The pipeline is modelled one column operation at a time, as pandas runs it,
 * and shown equal to a one-row-at-a-time reference from which the promised
 * properties follow. Values are immutable, so the deep copy the function
 * starts with is implicit: the caller's rows are never changed.
 */
module CantataCleaning {
  import opened Wrappers
  import opened Strings

  /** A row of the scraped table: the text of its `BWV` cell and its other cells. */
  datatype ScrapedRow = ScrapedRow(bwv: string, cells: seq<Option<string>>)

  /** A row of the cleaned table: the BWV number and the other cells, unchanged. */
  datatype CleanRow = CleanRow(bwv: int, cells: seq<Option<string>>)

  /** The message of the `ValueError` that `int('')` raises. */
  const EmptyIntError: string := "invalid literal for int() with base 10: ''"

  /** The message of the `OverflowError` raised when a number does not fit an int64. */
  const OverflowIntError: string := "Python int too large to convert to C long"

  /** 2^63: the int64 values `astype(int)` converts to lie below it. */
  const Int64Bound: int := 0x8000_0000_0000_0000

  // ------------------------------------------------------------ one cell

  /** The length of the run of '0' that starts `s`. */
  function LeadingZeros(s: string): (n: nat)
    ensures n <= |s|
    ensures forall i :: 0 <= i < n ==> s[i] == '0'
    ensures n < |s| ==> s[n] != '0'
    decreases |s|
  {
    if |s| > 0 && s[0] == '0' then 1 + LeadingZeros(s[1..]) else 0
  }

  /** The pattern `^0+\s` matches the first `k + 1` characters of `s`: at least one '0', then
      one whitespace character. */
  predicate ZeroRunBlank(s: string, k: int) {
    1 <= k < |s| && (forall i :: 0 <= i < k ==> s[i] == '0') && IsWhitespace(s[k])
  }

  /** `re.sub('^0+\s', '', s)`: the pattern is anchored, so it matches at most once, at the
      start; a match is removed and anything else is left alone. */
  function DropZeroRunBlank(s: string): (r: string)
    ensures forall k :: ZeroRunBlank(s, k) ==> r == s[k + 1..]
    ensures (forall k :: !ZeroRunBlank(s, k)) ==> r == s
  {
    var z := LeadingZeros(s);
    if 1 <= z < |s| && IsWhitespace(s[z]) then
      assert ZeroRunBlank(s, z);
      s[z + 1..]
    else
      s
  }

  /** `str.lstrip('0')`: the suffix of `s` left after its leading zeros. */
  function LStripZeros(s: string): (r: string)
    ensures |r| <= |s| && r == s[|s| - |r|..]
    ensures forall i :: 0 <= i < |s| - |r| ==> s[i] == '0'
    ensures |r| > 0 ==> r[0] != '0'
  {
    s[LeadingZeros(s)..]
  }

  /** The BWV texts `pd.to_numeric(..., errors='coerce')` turns into a number: non-empty
      strings of decimal digits. */
  predicate IsNumeric(s: string) {
    |s| > 0 && AllDigits(s)
  }

  /** The int64 conversion of a string of digits: its decimal value, a `ValueError` when it is
      empty, or an `OverflowError` when the value does not fit 64 bits. */
  function ToInt(s: string): (r: Result<int, string>)
    requires AllDigits(s)
    ensures r.Failure? <==> s == "" || DecimalValue(s) >= Int64Bound
    ensures r.Failure? ==> r.error == if s == "" then EmptyIntError else OverflowIntError
    ensures r.Success? ==> r.value == DecimalValue(s) && 0 <= r.value < Int64Bound
  {
    if s == "" then Failure(EmptyIntError)
    else if DecimalValue(s) >= Int64Bound then Failure(OverflowIntError)
    else Success(DecimalValue(s))
  }

  /** The filter `(df['BWV'] < 200) & (df['BWV'] != 198)`: the sacred cantatas. */
  predicate Sacred(n: int) {
    n < 200 && n != 198
  }

  // ------------------------------------------------------------ pipeline

  /** `df['BWV'].apply(lambda x: re.sub('^0+\s', '', str(x)))`. */
  function StripColumn(rows: seq<ScrapedRow>): (r: seq<ScrapedRow>)
    ensures |r| == |rows|
  {
    seq(|rows|, i requires 0 <= i < |rows| => rows[i].(bwv := DropZeroRunBlank(rows[i].bwv)))
  }

  /** `df[pd.to_numeric(df['BWV'], errors='coerce').notnull()]`: the numeric rows, in order. */
  function NumericRows(rows: seq<ScrapedRow>): (r: seq<ScrapedRow>)
    ensures forall i :: 0 <= i < |r| ==> IsNumeric(r[i].bwv)
    decreases |rows|
  {
    if |rows| == 0 then []
    else (if IsNumeric(rows[0].bwv) then [rows[0]] else []) + NumericRows(rows[1..])
  }

  /** `df['BWV'].str.lstrip('0')`. */
  function LStripColumn(rows: seq<ScrapedRow>): (r: seq<ScrapedRow>)
    ensures |r| == |rows|
  {
    seq(|rows|, i requires 0 <= i < |rows| => rows[i].(bwv := LStripZeros(rows[i].bwv)))
  }

  /** `df['BWV'].astype(int)`: every cell converted, or the first conversion's error. */
  function IntColumn(rows: seq<ScrapedRow>): (r: Result<seq<CleanRow>, string>)
    requires forall i :: 0 <= i < |rows| ==> AllDigits(rows[i].bwv)
    decreases |rows|
  {
    if |rows| == 0 then Success([])
    else
      var head := ToInt(rows[0].bwv);
      if head.Failure? then Failure(head.error)
      else
        var tail := IntColumn(rows[1..]);
        if tail.Failure? then tail
        else Success([CleanRow(head.value, rows[0].cells)] + tail.value)
  }

  /** `df[(df['BWV'] < 200) & (df['BWV'] != 198)]`. */
  function SacredRows(rows: seq<CleanRow>): (r: seq<CleanRow>)
    decreases |rows|
  {
    if |rows| == 0 then []
    else (if Sacred(rows[0].bwv) then [rows[0]] else []) + SacredRows(rows[1..])
  }

  /** Stripping leading zeros keeps a digit string a digit string. */
  lemma LStripKeepsDigits(rows: seq<ScrapedRow>)
    requires forall i :: 0 <= i < |rows| ==> IsNumeric(rows[i].bwv)
    ensures forall i :: 0 <= i < |LStripColumn(rows)| ==> AllDigits(LStripColumn(rows)[i].bwv)
  {
    forall i | 0 <= i < |rows| ensures AllDigits(LStripColumn(rows)[i].bwv) {
      var s := rows[i].bwv;
      assert LStripColumn(rows)[i].bwv == s[|s| - |LStripZeros(s)|..];
    }
  }

  /** The first three steps: prefix removed, non-numeric rows dropped, leading zeros stripped. */
  function Stripped(rows: seq<ScrapedRow>): (r: seq<ScrapedRow>)
    ensures forall i :: 0 <= i < |r| ==> AllDigits(r[i].bwv)
  {
    var numeric := NumericRows(StripColumn(rows));
    LStripKeepsDigits(numeric);
    LStripColumn(numeric)
  }

  /** The last two steps: the conversion to `int`, then the sacred filter. */
  function Converted(rows: seq<ScrapedRow>): Result<seq<CleanRow>, string>
    requires forall i :: 0 <= i < |rows| ==> AllDigits(rows[i].bwv)
  {
    var converted := IntColumn(rows);
    if converted.Failure? then Failure(converted.error) else Success(SacredRows(converted.value))
  }

  /** `clean_cantatas(df)`: the five column operations in the order the function applies them. */
  function CleanCantatas(rows: seq<ScrapedRow>): Result<seq<CleanRow>, string> {
    Converted(Stripped(rows))
  }

  // ----------------------------------------------------------- reference

  /** What the cleaning does to one row: drops it, keeps it as a clean row, or raises. */
  datatype Verdict = Dropped | Kept(row: CleanRow) | Raises(error: string)

  /** The fate of one row: a BWV that is not a number after the prefix is removed is dropped;
      one that is all zeros, or too large for an int64, raises; otherwise its value is kept when
      sacred. */
  function VerdictOf(r: ScrapedRow): Verdict {
    var t := DropZeroRunBlank(r.bwv);
    if !IsNumeric(t) then Dropped
    else
      var u := LStripZeros(t);
      if u == "" then Raises(EmptyIntError)
      else
        var n := DecimalValue(u);
        if n >= Int64Bound then Raises(OverflowIntError)
        else if Sacred(n) then Kept(CleanRow(n, r.cells)) else Dropped
  }

  /** One row's fate put in front of the outcome for the rows after it: a raise wins, then a
      raise further on, then the row is kept or left out. */
  function Step(v: Verdict, tail: Result<seq<CleanRow>, string>): Result<seq<CleanRow>, string> {
    if v.Raises? then Failure(v.error)
    else if tail.Failure? then tail
    else if v.Kept? then Success([v.row] + tail.value)
    else tail
  }

  /** The cleaning one row at a time, given each row's fate: any row that raises makes the
      whole call raise; otherwise the kept rows, in order. */
  function Select(verdict: ScrapedRow -> Verdict, rows: seq<ScrapedRow>): Result<seq<CleanRow>, string>
    decreases |rows|
  {
    if |rows| == 0 then Success([]) else Step(verdict(rows[0]), Select(verdict, rows[1..]))
  }

  /** The reference: the row-at-a-time selection with the cleaning's own verdict. */
  function CleanRef(rows: seq<ScrapedRow>): Result<seq<CleanRow>, string> {
    Select(VerdictOf, rows)
  }

  // -------------------------------------------------------------- fusion

  lemma StripColumnCons(r: ScrapedRow, rest: seq<ScrapedRow>)
    ensures StripColumn([r] + rest) == [r.(bwv := DropZeroRunBlank(r.bwv))] + StripColumn(rest)
  {
    var a, b := StripColumn([r] + rest), [r.(bwv := DropZeroRunBlank(r.bwv))] + StripColumn(rest);
    assert |a| == |b|;
    forall i | 0 <= i < |a| ensures a[i] == b[i] {
      if i > 0 {
        assert ([r] + rest)[i] == rest[i - 1];
      }
    }
  }

  lemma {:induction false} NumericRowsConcat(a: seq<ScrapedRow>, b: seq<ScrapedRow>)
    ensures NumericRows(a + b) == NumericRows(a) + NumericRows(b)
    decreases |a|
  {
    if |a| == 0 {
      assert a + b == b;
    } else {
      var head := if IsNumeric(a[0].bwv) then [a[0]] else [];
      assert (a + b)[0] == a[0] && (a + b)[1..] == a[1..] + b;
      NumericRowsConcat(a[1..], b);
      assert NumericRows(a + b) == head + NumericRows(a[1..] + b);
      assert head + (NumericRows(a[1..]) + NumericRows(b)) == (head + NumericRows(a[1..])) + NumericRows(b);
    }
  }

  lemma LStripColumnConcat(a: seq<ScrapedRow>, b: seq<ScrapedRow>)
    ensures LStripColumn(a + b) == LStripColumn(a) + LStripColumn(b)
  {
    var l, r := LStripColumn(a + b), LStripColumn(a) + LStripColumn(b);
    assert |l| == |r|;
    forall i | 0 <= i < |l| ensures l[i] == r[i] {
      if i < |a| {
        assert (a + b)[i] == a[i];
      } else {
        assert (a + b)[i] == b[i - |a|];
      }
    }
  }

  lemma {:induction false} SacredRowsConcat(a: seq<CleanRow>, b: seq<CleanRow>)
    ensures SacredRows(a + b) == SacredRows(a) + SacredRows(b)
    decreases |a|
  {
    if |a| == 0 {
      assert a + b == b;
    } else {
      var head := if Sacred(a[0].bwv) then [a[0]] else [];
      assert (a + b)[0] == a[0] && (a + b)[1..] == a[1..] + b;
      SacredRowsConcat(a[1..], b);
      assert SacredRows(a + b) == head + SacredRows(a[1..] + b);
      assert head + (SacredRows(a[1..]) + SacredRows(b)) == (head + SacredRows(a[1..])) + SacredRows(b);
    }
  }

  /** What the first three steps make of one row: nothing, or the row with its BWV text
      cleaned. */
  function StrippedHead(r: ScrapedRow): seq<ScrapedRow> {
    var t := DropZeroRunBlank(r.bwv);
    if IsNumeric(t) then [r.(bwv := LStripZeros(t))] else []
  }

  /** The first three steps work row by row. */
  lemma StrippedCons(r: ScrapedRow, rest: seq<ScrapedRow>)
    ensures Stripped([r] + rest) == StrippedHead(r) + Stripped(rest)
  {
    var s := r.(bwv := DropZeroRunBlank(r.bwv));
    StripColumnCons(r, rest);
    var head := if IsNumeric(s.bwv) then [s] else [];
    var tail := NumericRows(StripColumn(rest));
    NumericRowsConcat([s], StripColumn(rest));
    assert [s][1..] == [];
    assert NumericRows([s]) == head;
    LStripColumnConcat(head, tail);
    if IsNumeric(s.bwv) {
      assert LStripColumn(head) == [s.(bwv := LStripZeros(s.bwv))];
    } else {
      assert LStripColumn(head) == [];
    }
  }

  /** The last two steps on a cleaned row in front of others. */
  lemma ConvertedCons(z: ScrapedRow, zs: seq<ScrapedRow>)
    requires AllDigits(z.bwv) && forall i :: 0 <= i < |zs| ==> AllDigits(zs[i].bwv)
    ensures Converted([z] + zs) ==
      if z.bwv == "" then Failure(EmptyIntError)
      else if DecimalValue(z.bwv) >= Int64Bound then Failure(OverflowIntError)
      else if Converted(zs).Failure? then Converted(zs)
      else if Sacred(DecimalValue(z.bwv)) then Success([CleanRow(DecimalValue(z.bwv), z.cells)] + Converted(zs).value)
      else Converted(zs)
  {
    assert ([z] + zs)[0] == z && ([z] + zs)[1..] == zs;
    if z.bwv != "" && DecimalValue(z.bwv) < Int64Bound && IntColumn(zs).Success? {
      var c := CleanRow(DecimalValue(z.bwv), z.cells);
      assert IntColumn([z] + zs) == Success([c] + IntColumn(zs).value);
      SacredRowsConcat([c], IntColumn(zs).value);
      assert [c][1..] == [];
      assert SacredRows([c]) == if Sacred(c.bwv) then [c] else [];
      var tail := SacredRows(IntColumn(zs).value);
      assert Converted([z] + zs) == Success(SacredRows([c]) + tail);
      if !Sacred(c.bwv) {
        assert SacredRows([c]) + tail == tail;
      }
    }
  }

  /** The pipeline on a row in front of others: that row's verdict, then the rest. */
  lemma CleanCantatasCons(r: ScrapedRow, rest: seq<ScrapedRow>)
    ensures CleanCantatas([r] + rest) == Step(VerdictOf(r), CleanCantatas(rest))
  {
    StrippedCons(r, rest);
    var h := StrippedHead(r);
    if h == [] {
      assert Stripped([r] + rest) == Stripped(rest);
    } else {
      ConvertedCons(h[0], Stripped(rest));
      assert Stripped([r] + rest) == [h[0]] + Stripped(rest);
    }
  }

  /** The selection is the only function on row lists that maps the empty list to an empty
      success and takes one row at a time in the manner of `Step`. */
  lemma {:induction false} SelectUnique(verdict: ScrapedRow -> Verdict,
                                        f: seq<ScrapedRow> -> Result<seq<CleanRow>, string>,
                                        rows: seq<ScrapedRow>)
    requires f([]) == Success([])
    requires forall r, rest :: f([r] + rest) == Step(verdict(r), f(rest))
    ensures f(rows) == Select(verdict, rows)
    decreases |rows|
  {
    if |rows| == 0 {
      assert rows == [];
    } else {
      var r, rest := rows[0], rows[1..];
      SelectUnique(verdict, f, rest);
      assert rows == [r] + rest;
      assert f([r] + rest) == Step(verdict(r), f(rest));
    }
  }

  /** The pipeline and the one-row-at-a-time reference agree on every input. */
  lemma CleanCantatasIsRef(rows: seq<ScrapedRow>)
    ensures CleanCantatas(rows) == CleanRef(rows)
  {
    assert NumericRows(StripColumn([])) == [];
    forall r, rest ensures CleanCantatas([r] + rest) == Step(VerdictOf(r), CleanCantatas(rest)) {
      CleanCantatasCons(r, rest);
    }
    SelectUnique(VerdictOf, CleanCantatas, rows);
  }

  // ---------------------------------------------------------- properties

  /** A row whose BWV is a number made only of zeros, which `int('')` rejects. */
  predicate AllZeroBwv(r: ScrapedRow) {
    IsNumeric(DropZeroRunBlank(r.bwv)) && LStripZeros(DropZeroRunBlank(r.bwv)) == ""
  }

  /** A row whose BWV is a number of 2^63 or more, which does not fit an int64. */
  predicate TooLargeBwv(r: ScrapedRow) {
    IsNumeric(DropZeroRunBlank(r.bwv)) && DecimalValue(DropZeroRunBlank(r.bwv)) >= Int64Bound
  }

  /** A row whose BWV passes the numeric filter but fails the conversion to `int`. */
  predicate Unconvertible(r: ScrapedRow) {
    AllZeroBwv(r) || TooLargeBwv(r)
  }

  /** The selection raises exactly when some row's verdict is to raise, and then with the
      message of the first such row. */
  lemma {:induction false} SelectFails(verdict: ScrapedRow -> Verdict, rows: seq<ScrapedRow>)
    ensures Select(verdict, rows).Failure? <==> exists i :: 0 <= i < |rows| && verdict(rows[i]).Raises?
    ensures Select(verdict, rows).Failure? ==>
      exists i :: 0 <= i < |rows| && verdict(rows[i]).Raises?
        && (forall j :: 0 <= j < i ==> !verdict(rows[j]).Raises?)
        && Select(verdict, rows).error == verdict(rows[i]).error
    decreases |rows|
  {
    if |rows| > 0 {
      SelectFails(verdict, rows[1..]);
      if exists i :: 0 <= i < |rows| - 1 && verdict(rows[1..][i]).Raises? {
        var i :| 0 <= i < |rows| - 1 && verdict(rows[1..][i]).Raises?;
        assert verdict(rows[i + 1]).Raises?;
      }
      if exists i :: 0 <= i < |rows| && verdict(rows[i]).Raises? {
        var i :| 0 <= i < |rows| && verdict(rows[i]).Raises?;
        if i > 0 {
          assert rows[1..][i - 1] == rows[i];
        }
      }
      if Select(verdict, rows).Failure? && !verdict(rows[0]).Raises? {
        var i :| 0 <= i < |rows| - 1 && verdict(rows[1..][i]).Raises?
          && (forall j :: 0 <= j < i ==> !verdict(rows[1..][j]).Raises?)
          && Select(verdict, rows[1..]).error == verdict(rows[1..][i]).error;
        forall j | 0 <= j < i + 1 ensures !verdict(rows[j]).Raises? {
          if j > 0 {
            assert rows[j] == rows[1..][j - 1];
          }
        }
        assert rows[i + 1] == rows[1..][i];
      }
    }
  }

  /** Leading zeros do not change the value of a number. */
  lemma {:induction false} LeadingZerosValue(z: string, u: string)
    requires forall i :: 0 <= i < |z| ==> z[i] == '0'
    requires AllDigits(u)
    ensures AllDigits(z + u) && DecimalValue(z + u) == DecimalValue(u)
    decreases |z| + |u|
  {
    var s := z + u;
    assert AllDigits(s) by {
      forall i | 0 <= i < |s| ensures IsDigit(s[i]) {
        if i >= |z| {
          assert s[i] == u[i - |z|];
        }
      }
    }
    if |u| > 0 {
      assert s[..|s| - 1] == z + u[..|u| - 1];
      assert s[|s| - 1] == u[|u| - 1];
      LeadingZerosValue(z, u[..|u| - 1]);
    } else if |z| > 0 {
      assert s == z;
      assert s[..|s| - 1] == z[..|z| - 1] + u;
      LeadingZerosValue(z[..|z| - 1], u);
    }
  }

  /** `lstrip('0')` keeps the value of a number. */
  lemma LStripValue(s: string)
    requires AllDigits(s)
    ensures AllDigits(LStripZeros(s)) && DecimalValue(LStripZeros(s)) == DecimalValue(s)
  {
    var n := LeadingZeros(s);
    assert s == s[..n] + s[n..];
    LeadingZerosValue(s[..n], s[n..]);
  }

  /** A row raises exactly when its BWV is a number the conversion rejects: `int('')`'s
      `ValueError` for an all-zero one, the `OverflowError` for one of 2^63 or more. */
  lemma RaisesIffUnconvertible(r: ScrapedRow)
    ensures VerdictOf(r).Raises? <==> Unconvertible(r)
    ensures VerdictOf(r).Raises? ==>
      VerdictOf(r).error == if AllZeroBwv(r) then EmptyIntError else OverflowIntError
  {
    var t := DropZeroRunBlank(r.bwv);
    if !IsNumeric(t) {
      assert VerdictOf(r) == Dropped;
    } else {
      var u := LStripZeros(t);
      LStripValue(t);
      if u == "" {
        assert VerdictOf(r) == Raises(EmptyIntError);
      } else if DecimalValue(u) >= Int64Bound {
        assert VerdictOf(r) == Raises(OverflowIntError);
      } else {
        assert !TooLargeBwv(r);
      }
    }
  }

  /** `clean_cantatas` raises exactly when some numeric BWV is all zeros (such as "000", or
      "0 0", whose prefix removal leaves "0") or too large for an int64; the error is that of
      the first such row. */
  lemma CleanCantatasFails(rows: seq<ScrapedRow>)
    ensures CleanCantatas(rows).Failure? <==> exists i :: 0 <= i < |rows| && Unconvertible(rows[i])
    ensures CleanCantatas(rows).Failure? ==>
      exists i :: 0 <= i < |rows| && Unconvertible(rows[i])
        && (forall j :: 0 <= j < i ==> !Unconvertible(rows[j]))
        && CleanCantatas(rows).error == if AllZeroBwv(rows[i]) then EmptyIntError else OverflowIntError
  {
    CleanCantatasIsRef(rows);
    SelectFails(VerdictOf, rows);
    forall i | 0 <= i < |rows|
      ensures VerdictOf(rows[i]).Raises? <==> Unconvertible(rows[i])
      ensures VerdictOf(rows[i]).Raises? ==>
        VerdictOf(rows[i]).error == if AllZeroBwv(rows[i]) then EmptyIntError else OverflowIntError
    {
      RaisesIffUnconvertible(rows[i]);
    }
  }

  /** A digit string without a leading zero has a positive value. */
  lemma {:induction false} DecimalValuePositive(s: string)
    requires |s| > 0 && AllDigits(s) && s[0] != '0'
    ensures DecimalValue(s) >= 1
    decreases |s|
  {
    if |s| > 1 {
      DecimalValuePositive(s[..|s| - 1]);
    }
  }

  /** A kept row carries a sacred BWV, between 1 and 199 and not 198, and the row's other
      cells unchanged. */
  lemma KeptIsSacred(r: ScrapedRow)
    requires VerdictOf(r).Kept?
    ensures 1 <= VerdictOf(r).row.bwv <= 199 && VerdictOf(r).row.bwv != 198
    ensures VerdictOf(r).row.cells == r.cells
  {
    var u := LStripZeros(DropZeroRunBlank(r.bwv));
    var t := DropZeroRunBlank(r.bwv);
    assert u == t[|t| - |u|..];
    DecimalValuePositive(u);
  }

  /** `Select` of the rows from index `i` on, by index. */
  function SelectFrom(verdict: ScrapedRow -> Verdict, rows: seq<ScrapedRow>, i: nat): Result<seq<CleanRow>, string>
    requires i <= |rows|
    decreases |rows| - i
  {
    if i == |rows| then Success([]) else Step(verdict(rows[i]), SelectFrom(verdict, rows, i + 1))
  }

  lemma {:induction false} SelectFromSlice(verdict: ScrapedRow -> Verdict, rows: seq<ScrapedRow>, i: nat)
    requires i <= |rows|
    ensures SelectFrom(verdict, rows, i) == Select(verdict, rows[i..])
    decreases |rows| - i
  {
    if i < |rows| {
      assert rows[i..][0] == rows[i] && rows[i..][1..] == rows[i + 1..];
      SelectFromSlice(verdict, rows, i + 1);
    }
  }

  /** The indices, from `i` on, of the rows the verdict keeps, in increasing order. */
  function KeptIndices(verdict: ScrapedRow -> Verdict, rows: seq<ScrapedRow>, i: nat): (idx: seq<nat>)
    requires i <= |rows|
    ensures forall k :: 0 <= k < |idx| ==> i <= idx[k] < |rows|
    decreases |rows| - i
  {
    if i == |rows| then []
    else (if verdict(rows[i]).Kept? then [i] else []) + KeptIndices(verdict, rows, i + 1)
  }

  /** Output rows and input rows as the selection pairs them: the `k`-th output row is the
      kept form of input row `idx[k]`. */
  predicate Paired(verdict: ScrapedRow -> Verdict, rows: seq<ScrapedRow>, out: seq<CleanRow>, idx: seq<nat>) {
    |out| == |idx|
    && forall k :: 0 <= k < |idx| ==> idx[k] < |rows| && verdict(rows[idx[k]]) == Kept(out[k])
  }

  /** Strictly increasing indices. */
  predicate Ascending(idx: seq<nat>) {
    forall a, b :: 0 <= a < b < |idx| ==> idx[a] < idx[b]
  }

  lemma PairedCons(verdict: ScrapedRow -> Verdict, rows: seq<ScrapedRow>, i: nat, out: seq<CleanRow>, idx: seq<nat>)
    requires i < |rows| && verdict(rows[i]).Kept? && Paired(verdict, rows, out, idx)
    ensures Paired(verdict, rows, [verdict(rows[i]).row] + out, [i] + idx)
  {
    var out', idx' := [verdict(rows[i]).row] + out, [i] + idx;
    forall k | 0 < k < |idx'| ensures idx'[k] == idx[k - 1] && out'[k] == out[k - 1] {
    }
  }

  lemma AscendingCons(i: nat, idx: seq<nat>)
    requires Ascending(idx) && forall k :: 0 <= k < |idx| ==> i < idx[k]
    ensures Ascending([i] + idx)
  {
    var idx' := [i] + idx;
    forall k | 0 < k < |idx'| ensures idx'[k] == idx[k - 1] {
    }
  }

  /** On success from index `i`, the output is the kept rows from `i` on, in input order. */
  lemma {:induction false} SelectFromAligned(verdict: ScrapedRow -> Verdict, rows: seq<ScrapedRow>, i: nat)
    requires i <= |rows| && SelectFrom(verdict, rows, i).Success?
    ensures Paired(verdict, rows, SelectFrom(verdict, rows, i).value, KeptIndices(verdict, rows, i))
    ensures Ascending(KeptIndices(verdict, rows, i))
    decreases |rows| - i
  {
    if i < |rows| {
      SelectFromAligned(verdict, rows, i + 1);
      if verdict(rows[i]).Kept? {
        PairedCons(verdict, rows, i, SelectFrom(verdict, rows, i + 1).value, KeptIndices(verdict, rows, i + 1));
        AscendingCons(i, KeptIndices(verdict, rows, i + 1));
      }
    }
  }

  /** Every row from index `i` on that the verdict keeps has its index listed. */
  lemma {:induction false} KeptIndicesComplete(verdict: ScrapedRow -> Verdict, rows: seq<ScrapedRow>, i: nat, j: nat)
    requires i <= j < |rows| && verdict(rows[j]).Kept?
    ensures j in KeptIndices(verdict, rows, i)
    decreases j - i
  {
    var head := if verdict(rows[i]).Kept? then [i] else [];
    assert KeptIndices(verdict, rows, i) == head + KeptIndices(verdict, rows, i + 1);
    if i < j {
      KeptIndicesComplete(verdict, rows, i + 1, j);
    } else {
      assert head == [j];
    }
  }

  /** `clean_cantatas` on success: every BWV sacred, and the rows an order-preserving
      selection of the input rows, with nothing added and every kept row present. */
  lemma CleanCantatasSelects(rows: seq<ScrapedRow>)
    requires CleanCantatas(rows).Success?
    ensures forall k :: 0 <= k < |CleanCantatas(rows).value| ==>
      (1 <= CleanCantatas(rows).value[k].bwv <= 199 && CleanCantatas(rows).value[k].bwv != 198)
    ensures Paired(VerdictOf, rows, CleanCantatas(rows).value, KeptIndices(VerdictOf, rows, 0))
    ensures Ascending(KeptIndices(VerdictOf, rows, 0))
    ensures forall j :: 0 <= j < |rows| && VerdictOf(rows[j]).Kept? ==> j in KeptIndices(VerdictOf, rows, 0)
  {
    CleanCantatasIsRef(rows);
    SelectFromSlice(VerdictOf, rows, 0);
    assert rows[0..] == rows;
    SelectFromAligned(VerdictOf, rows, 0);
    var out, idx := CleanCantatas(rows).value, KeptIndices(VerdictOf, rows, 0);
    forall k | 0 <= k < |out| ensures 1 <= out[k].bwv <= 199 && out[k].bwv != 198 {
      KeptIsSacred(rows[idx[k]]);
    }
    forall j | 0 <= j < |rows| && VerdictOf(rows[j]).Kept? ensures j in idx {
      KeptIndicesComplete(VerdictOf, rows, 0, j);
    }
  }

  // ------------------------------------------------------------- examples

  /** "00 4": the prefix "00 " goes and the row is kept as BWV 4. */
  lemma ZeroBlankExample()
    ensures DropZeroRunBlank("00 4") == "4"
    ensures VerdictOf(ScrapedRow("00 4", [])) == Kept(CleanRow(4, []))
  {
    assert ZeroRunBlank("00 4", 2);
    assert "00 4"[3..] == "4";
    assert LeadingZeros("4") == 0;
    assert LStripZeros("4") == "4";
  }

  /** "017": no blank follows the zero, so only `lstrip` removes it, giving BWV 17. */
  lemma LeadingZeroExample()
    ensures DropZeroRunBlank("017") == "017"
    ensures VerdictOf(ScrapedRow("017", [])) == Kept(CleanRow(17, []))
  {
    assert LeadingZeros("017") == 1;
    assert "017"[1..] == "17";
    assert DecimalValue("17") == 17 by {
      assert "17"[..1] == "1";
    }
  }

  /** BWV 198, the funeral ode, is dropped. */
  lemma FuneralOdeExample()
    ensures VerdictOf(ScrapedRow("198", [])) == Dropped
  {
    assert DropZeroRunBlank("198") == "198";
    assert DecimalValue("198") == 198 by {
      assert "198"[..2] == "19" && "19"[..1] == "1";
    }
  }

  /** "0 0": the prefix "0 " goes, the "0" left is numeric and strips to "", so `int` raises. */
  lemma AllZeroExample()
    ensures VerdictOf(ScrapedRow("0 0", [])) == Raises(EmptyIntError)
  {
    assert ZeroRunBlank("0 0", 1);
    assert DropZeroRunBlank("0 0") == "0";
  }

  /** 10^k. */
  function Pow10(k: nat): (p: nat)
    ensures p >= 1
  {
    if k == 0 then 1 else 10 * Pow10(k - 1)
  }

  lemma {:induction false} Pow10Add(a: nat, b: nat)
    ensures Pow10(a + b) == Pow10(a) * Pow10(b)
    decreases a
  {
    if a > 0 {
      Pow10Add(a - 1, b);
      assert Pow10(a + b) == 10 * (Pow10(a - 1) * Pow10(b));
    }
  }

  /** 10^19 exceeds 2^63, so a twenty-digit number does not fit an int64. */
  lemma Pow10Exceeds()
    ensures Pow10(19) >= Int64Bound
  {
    Pow10Add(1, 1);
    Pow10Add(2, 2);
    Pow10Add(4, 4);
    Pow10Add(8, 8);
    Pow10Add(16, 2);
    Pow10Add(18, 1);
  }

  /** A digit string of `k + 1` digits without a leading zero is worth at least 10^k. */
  lemma {:induction false} DecimalValueAtLeast(s: string)
    requires |s| > 0 && AllDigits(s) && s[0] != '0'
    ensures DecimalValue(s) >= Pow10(|s| - 1)
    decreases |s|
  {
    if |s| > 1 {
      DecimalValueAtLeast(s[..|s| - 1]);
    }
  }

  /** A twenty-digit BWV without a leading zero passes the numeric filter but overflows the
      int64 conversion. */
  lemma TooLargeExample(s: string)
    requires |s| == 20 && AllDigits(s) && s[0] != '0' && !IsWhitespace(s[1])
    ensures VerdictOf(ScrapedRow(s, [])) == Raises(OverflowIntError)
  {
    assert LeadingZeros(s) == 0;
    assert DropZeroRunBlank(s) == s;
    assert LStripZeros(s) == s;
    DecimalValueAtLeast(s);
    Pow10Exceeds();
  }
}
