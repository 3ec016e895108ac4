/**
 * The small part of Python's `str` behaviour the model needs: substring tests
 * (`p in s`), prefixes, `str(n)` for naturals, `rstrip`, `split(' ')` and the
 * `\s` class, with `upper`, `lower`, `capitalize` and `\d` restricted to ASCII.
 */
module Strings {

  // ---------------------------------------------------------------- classes

  /** `\d` restricted to ASCII. */
  predicate IsDigit(c: char) { '0' <= c <= '9' }

  /** Python's `str.isspace`, which is also what the regex class `\s` matches in a `str`
      pattern: the ASCII controls 9..13 and 28..31, the space, and the Unicode spaces. */
  predicate IsWhitespace(c: char) {
    var n := c as int;
    9 <= n <= 13 || 28 <= n <= 32 || n == 0x85 || n == 0xA0 || n == 0x1680
    || 0x2000 <= n <= 0x200A || n == 0x2028 || n == 0x2029 || n == 0x202F || n == 0x205F
    || n == 0x3000
  }

  predicate AllDigits(s: string) {
    forall i :: 0 <= i < |s| ==> IsDigit(s[i])
  }

  // ------------------------------------------------------------- substrings

  /** `p` occurs in `s` starting at index `i`. */
  predicate OccursAt(s: string, p: string, i: int) {
    0 <= i && i + |p| <= |s| && s[i..i + |p|] == p
  }

  /** Python's `p in s`. */
  predicate Contains(s: string, p: string) {
    exists i :: 0 <= i <= |s| - |p| && OccursAt(s, p, i)
  }

  predicate StartsWith(s: string, p: string) {
    |p| <= |s| && s[..|p|] == p
  }

  lemma PrefixIsContained(s: string, p: string)
    requires StartsWith(s, p)
    ensures Contains(s, p)
  {
    assert OccursAt(s, p, 0);
  }

  /** A pattern with a character that `s` lacks cannot occur in `s`. */
  lemma AbsentCharNotContained(s: string, p: string, k: int)
    requires 0 <= k < |p| && p[k] !in s
    ensures !Contains(s, p)
  {
  }

  /** A character that is not a digit is in `a + ds`, for digits `ds`, only if it is in `a`. */
  lemma NonDigitInConcat(a: string, ds: string, c: char)
    requires AllDigits(ds) && !IsDigit(c)
    ensures c in a + ds <==> c in a
  {
  }

  lemma PrefixOfConcat(a: string, b: string)
    ensures StartsWith(a + b, a)
  {
    assert (a + b)[..|a|] == a;
  }

  // ------------------------------------------------------------- `str(n)`

  function DigitChar(d: int): char
    requires 0 <= d <= 9
  {
    "0123456789"[d]
  }

  function DigitValue(c: char): int
    requires IsDigit(c)
  {
    c as int - '0' as int
  }

  /** Python's `str(n)` for a natural number: decimal digits without leading zeros. */
  function Decimal(n: nat): (s: string)
    ensures |s| >= 1 && AllDigits(s)
    ensures s[0] != '0' || n == 0
    decreases n
  {
    if n < 10 then [DigitChar(n)] else Decimal(n / 10) + [DigitChar(n % 10)]
  }

  /** The value of a digit string read in base ten (`int(s)` for ASCII digits). */
  function DecimalValue(s: string): (n: nat)
    requires AllDigits(s)
    decreases |s|
  {
    if |s| == 0 then 0 else 10 * DecimalValue(s[..|s| - 1]) + DigitValue(s[|s| - 1])
  }

  lemma {:induction false} DecimalRoundTrip(n: nat)
    ensures DecimalValue(Decimal(n)) == n
    decreases n
  {
    if n >= 10 {
      var s := Decimal(n);
      assert s[..|s| - 1] == Decimal(n / 10);
      DecimalRoundTrip(n / 10);
    }
  }

  /** Different naturals print differently. */
  lemma DecimalInjective(n: nat, m: nat)
    requires Decimal(n) == Decimal(m)
    ensures n == m
  {
    DecimalRoundTrip(n);
    DecimalRoundTrip(m);
  }

  /** The length of the run of digits that ends `s`. */
  function TrailingDigits(s: string): (k: nat)
    ensures k <= |s|
    ensures forall i :: |s| - k <= i < |s| ==> IsDigit(s[i])
    ensures k < |s| ==> !IsDigit(s[|s| - k - 1])
    decreases |s|
  {
    if |s| > 0 && IsDigit(s[|s| - 1]) then 1 + TrailingDigits(s[..|s| - 1]) else 0
  }

  /** Appending digits to a stem that does not end in one: the trailing run is exactly the digits. */
  lemma {:induction false} TrailingDigitsOfConcat(stem: string, ds: string)
    requires AllDigits(ds)
    requires |stem| == 0 || !IsDigit(stem[|stem| - 1])
    ensures TrailingDigits(stem + ds) == |ds|
    decreases |ds|
  {
    var s := stem + ds;
    if |ds| == 0 {
      assert s == stem;
    } else {
      assert s[..|s| - 1] == stem + ds[..|ds| - 1];
      assert s[|s| - 1] == ds[|ds| - 1];
      TrailingDigitsOfConcat(stem, ds[..|ds| - 1]);
    }
  }

  // ------------------------------------------------------------ case maps

  function UpperChar(c: char): char {
    if 'a' <= c <= 'z' then (c as int - 32) as char else c
  }

  function LowerChar(c: char): char {
    if 'A' <= c <= 'Z' then (c as int + 32) as char else c
  }

  /** Python's `str.upper` on ASCII. */
  function Upper(s: string): (r: string)
    ensures |r| == |s|
    ensures forall i :: 0 <= i < |s| ==> r[i] == UpperChar(s[i])
  {
    seq(|s|, i requires 0 <= i < |s| => UpperChar(s[i]))
  }

  /** Python's `str.lower` on ASCII. */
  function Lower(s: string): (r: string)
    ensures |r| == |s|
    ensures forall i :: 0 <= i < |s| ==> r[i] == LowerChar(s[i])
  {
    seq(|s|, i requires 0 <= i < |s| => LowerChar(s[i]))
  }

  /** Python's `str.capitalize` on ASCII: first character upper case, the rest lower case. */
  function Capitalize(s: string): (r: string)
    ensures |r| == |s|
    ensures forall i :: 0 <= i < |s| ==> r[i] == if i == 0 then UpperChar(s[0]) else LowerChar(s[i])
  {
    seq(|s|, i requires 0 <= i < |s| => if i == 0 then UpperChar(s[0]) else LowerChar(s[i]))
  }

  // ---------------------------------------------------------------- rstrip

  /** Python's `str.rstrip()` with no argument: drops trailing whitespace. */
  function RStrip(s: string): string
    decreases |s|
  {
    if |s| > 0 && IsWhitespace(s[|s| - 1]) then RStrip(s[..|s| - 1]) else s
  }

  /** `rstrip` keeps a prefix that ends in a visible character and drops only whitespace. */
  lemma {:induction false} RStripSpec(s: string)
    ensures |RStrip(s)| <= |s| && RStrip(s) == s[..|RStrip(s)|]
    ensures |RStrip(s)| > 0 ==> !IsWhitespace(RStrip(s)[|RStrip(s)| - 1])
    ensures forall i :: |RStrip(s)| <= i < |s| ==> IsWhitespace(s[i])
    decreases |s|
  {
    if |s| > 0 && IsWhitespace(s[|s| - 1]) {
      RStripSpec(s[..|s| - 1]);
    }
  }

  /** `rstrip` drops a single trailing blank and keeps a string that already ends in a visible
      character. */
  lemma RStripOneBlank(t: string)
    requires |t| > 0 && !IsWhitespace(t[|t| - 1])
    ensures RStrip(t) == t
    ensures RStrip(t + " ") == t
  {
    assert (t + " ")[..|t + " "| - 1] == t;
  }

  // ----------------------------------------------------------------- split

  /** The number of leading characters of `s` that differ from `sep`. */
  function FieldLength(s: string, sep: char): (n: nat)
    ensures n <= |s|
    ensures forall i :: 0 <= i < n ==> s[i] != sep
    ensures n < |s| ==> s[n] == sep
    decreases |s|
  {
    if |s| == 0 || s[0] == sep then 0 else 1 + FieldLength(s[1..], sep)
  }

  /** Python's `s.split(sep)` with an explicit one-character separator: every occurrence splits, so
      adjacent separators give empty fields and the result is never empty. */
  function Split(s: string, sep: char): (r: seq<string>)
    ensures |r| >= 1
    ensures forall i :: 0 <= i < |r| ==> sep !in r[i]
    decreases |s|
  {
    var n := FieldLength(s, sep);
    if n == |s| then [s] else [s[..n]] + Split(s[n + 1..], sep)
  }

  /** `sep.join(parts)`. */
  function Join(parts: seq<string>, sep: char): string
    decreases |parts|
  {
    if |parts| == 0 then ""
    else if |parts| == 1 then parts[0]
    else parts[0] + [sep] + Join(parts[1..], sep)
  }

  /** Splitting loses nothing: joining the fields with the separator gives the input back. */
  lemma {:induction false} SplitJoin(s: string, sep: char)
    ensures Join(Split(s, sep), sep) == s
    decreases |s|
  {
    var n := FieldLength(s, sep);
    if n < |s| {
      var rest := Split(s[n + 1..], sep);
      SplitJoin(s[n + 1..], sep);
      assert Split(s, sep) == [s[..n]] + rest;
      assert s == s[..n] + [sep] + s[n + 1..];
    }
  }

  /** The number of fields is one more than the number of separators. */
  function Count(s: string, c: char): nat
    decreases |s|
  {
    if |s| == 0 then 0 else (if s[0] == c then 1 else 0) + Count(s[1..], c)
  }

  lemma CountConcat(a: string, b: string, c: char)
    ensures Count(a + b, c) == Count(a, c) + Count(b, c)
    decreases |a|
  {
    if |a| > 0 {
      assert (a + b)[0] == a[0];
      assert (a + b)[1..] == a[1..] + b;
      CountConcat(a[1..], b, c);
    } else {
      assert a + b == b;
    }
  }

  lemma CountAbsent(s: string, c: char)
    requires c !in s
    ensures Count(s, c) == 0
    decreases |s|
  {
    if |s| > 0 {
      assert c !in s[1..];
      CountAbsent(s[1..], c);
    }
  }

  lemma {:induction false} SplitCount(s: string, sep: char)
    ensures |Split(s, sep)| == Count(s, sep) + 1
    decreases |s|
  {
    var n := FieldLength(s, sep);
    assert sep !in s[..n];
    CountAbsent(s[..n], sep);
    if n == |s| {
      assert s[..n] == s;
    } else {
      SplitCount(s[n + 1..], sep);
      assert s == s[..n] + ([sep] + s[n + 1..]);
      CountConcat(s[..n], [sep] + s[n + 1..], sep);
      assert ([sep] + s[n + 1..])[1..] == s[n + 1..];
    }
  }
}
