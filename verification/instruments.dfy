/**
 * `process_instrument_group` in `instruments.py`: for one instrument column
 * of the cleaned cantata table it lower-cases the column, and for every row
 * whose cell is not null it splits the text on single blanks and appends one
 * row per token to `df_cantatas`. Each row holds the cantata's BWV, the token
 * with its parentheses deleted and its leading digits cut off (the
 * instrument), and those digits (the quantity), or null when there are none.
 *
 * The two module-level frames the function reads and rebinds become a
 * parameter and two results. Lower-casing and `\d` are the ASCII ones.
 */
module InstrumentParsing {
  import opened Wrappers
  import opened Strings
  import opened CantataCleaning

  /** One row of `df_cantatas`: the cantata, the instrument name, and the count written in
      front of it, if any. */
  datatype Part = Part(bwv: int, instrument: string, quantity: Option<string>)

  predicate IsParen(c: char) { c == '(' || c == ')' }

  // ---------------------------------------------------------- one token

  /** `str.replace('[()]', '', regex=True)`: every parenthesis deleted, the other characters
      kept in order. */
  function RemoveParens(s: string): (r: string)
    ensures |r| <= |s|
    ensures forall c :: c in r <==> c in s && !IsParen(c)
    decreases |s|
  {
    if |s| == 0 then ""
    else
      assert s == [s[0]] + s[1..];
      (if IsParen(s[0]) then "" else [s[0]]) + RemoveParens(s[1..])
  }

  lemma {:induction false} RemoveParensConcat(a: string, b: string)
    ensures RemoveParens(a + b) == RemoveParens(a) + RemoveParens(b)
    decreases |a|
  {
    if |a| == 0 {
      assert a + b == b;
    } else {
      var head := if IsParen(a[0]) then "" else [a[0]];
      assert (a + b)[0] == a[0] && (a + b)[1..] == a[1..] + b;
      RemoveParensConcat(a[1..], b);
      assert head + (RemoveParens(a[1..]) + RemoveParens(b)) == (head + RemoveParens(a[1..])) + RemoveParens(b);
    }
  }

  /** Text without parentheses is left as it is. */
  lemma {:induction false} RemoveParensKeeps(s: string)
    requires forall i :: 0 <= i < |s| ==> !IsParen(s[i])
    ensures RemoveParens(s) == s
    decreases |s|
  {
    if |s| > 0 {
      RemoveParensKeeps(s[1..]);
      assert s == [s[0]] + s[1..];
    }
  }

  /** Deleting the parentheses a second time changes nothing. */
  lemma RemoveParensIdempotent(s: string)
    ensures RemoveParens(RemoveParens(s)) == RemoveParens(s)
  {
    var r := RemoveParens(s);
    forall i | 0 <= i < |r| ensures !IsParen(r[i]) {
      assert r[i] in r;
    }
    RemoveParensKeeps(r);
  }

  /** The length of the run of digits that starts `s`, which `(^\d+)` matches. */
  function LeadingDigits(s: string): (k: nat)
    ensures k <= |s|
    ensures forall i :: 0 <= i < k ==> IsDigit(s[i])
    ensures k < |s| ==> !IsDigit(s[k])
    decreases |s|
  {
    if |s| == 0 || !IsDigit(s[0]) then 0 else 1 + LeadingDigits(s[1..])
  }

  /** Digits followed by text that does not start with a digit: the run is exactly the digits. */
  lemma {:induction false} LeadingDigitsOfConcat(q: string, rest: string)
    requires AllDigits(q)
    requires |rest| > 0 ==> !IsDigit(rest[0])
    ensures LeadingDigits(q + rest) == |q|
    decreases |q|
  {
    if |q| == 0 {
      assert q + rest == rest;
    } else {
      assert (q + rest)[0] == q[0] && (q + rest)[1..] == q[1..] + rest;
      LeadingDigitsOfConcat(q[1..], rest);
    }
  }

  /** The text a quantity contributes: its digits, or nothing for a null cell. */
  function QuantityText(q: Option<string>): string {
    if q.Some? then q.value else ""
  }

  /** What a row says about its token: the quantity's digits followed by the instrument. */
  function PartText(p: Part): string {
    QuantityText(p.quantity) + p.instrument
  }

  /** The row made from one token of a cell of cantata `bwv`: `str.extract(r'(^\d+)')` gives
      the quantity (null without a match) and `str.replace(r'(^\d+)', '')` the instrument, both
      after the parentheses are gone. The two pieces put together give the token back without its
      parentheses; the quantity is a non-empty digit string, and the instrument does not start
      with a digit. */
  function ParseToken(bwv: int, tok: string): (p: Part)
    ensures p.bwv == bwv
    ensures PartText(p) == RemoveParens(tok)
    ensures p.quantity.Some? ==> |p.quantity.value| > 0 && AllDigits(p.quantity.value)
    ensures |p.instrument| > 0 ==> !IsDigit(p.instrument[0])
    ensures p.quantity.Some? <==> |RemoveParens(tok)| > 0 && IsDigit(RemoveParens(tok)[0])
    ensures forall c :: c in p.instrument ==> c in tok && !IsParen(c)
  {
    var s := RemoveParens(tok);
    var k := LeadingDigits(s);
    assert s == s[..k] + s[k..];
    forall c | c in s[k..] ensures c in s {
      var j :| 0 <= j < |s[k..]| && s[k..][j] == c;
      assert s[k + j] == c;
    }
    Part(bwv, s[k..], if k == 0 then None else Some(s[..k]))
  }

  /** The split is the only one of its kind: whenever the token without parentheses is some
      digits followed by text that does not start with a digit, those are the quantity and the
      instrument. */
  lemma ParseTokenUnique(bwv: int, tok: string, q: string, rest: string)
    requires AllDigits(q)
    requires |rest| > 0 ==> !IsDigit(rest[0])
    requires q + rest == RemoveParens(tok)
    ensures ParseToken(bwv, tok) == Part(bwv, rest, if q == "" then None else Some(q))
  {
    LeadingDigitsOfConcat(q, rest);
    assert (q + rest)[..|q|] == q && (q + rest)[|q|..] == rest;
  }

  // ----------------------------------------------------------- one cell

  /** `row[2].split(' ')` parsed token by token: one row per token, in order, each tagged with
      the cell's BWV; there is one more row than the cell has blanks, and no instrument holds a
      blank or a parenthesis. */
  function CellRows(bwv: int, cell: string): (rows: seq<Part>)
    ensures |rows| == Count(cell, ' ') + 1
    ensures forall i :: 0 <= i < |rows| ==> rows[i].bwv == bwv
    ensures forall i :: 0 <= i < |rows| ==> ' ' !in rows[i].instrument && '(' !in rows[i].instrument && ')' !in rows[i].instrument
  {
    var toks := Split(cell, ' ');
    SplitCount(cell, ' ');
    seq(|toks|, i requires 0 <= i < |toks| => ParseToken(bwv, toks[i]))
  }

  function PartTexts(rows: seq<Part>): (ts: seq<string>)
    ensures |ts| == |rows|
  {
    seq(|rows|, i requires 0 <= i < |rows| => PartText(rows[i]))
  }

  function RemoveParensAll(parts: seq<string>): (ts: seq<string>)
    ensures |ts| == |parts|
  {
    seq(|parts|, i requires 0 <= i < |parts| => RemoveParens(parts[i]))
  }

  /** Deleting parentheses commutes with joining on a character that is not one. */
  lemma {:induction false} RemoveParensJoin(parts: seq<string>, sep: char)
    requires !IsParen(sep)
    ensures RemoveParens(Join(parts, sep)) == Join(RemoveParensAll(parts), sep)
    decreases |parts|
  {
    if |parts| > 1 {
      RemoveParensJoin(parts[1..], sep);
      assert RemoveParensAll(parts[1..]) == RemoveParensAll(parts)[1..];
      RemoveParensConcat(parts[0] + [sep], Join(parts[1..], sep));
      RemoveParensConcat(parts[0], [sep]);
      assert RemoveParens([sep]) == [sep] by {
        assert [sep][1..] == "";
      }
    }
  }

  /** Nothing of the cell but its parentheses is lost: joining the rows' texts with blanks gives
      the cell back without them. */
  lemma CellRowsRecover(bwv: int, cell: string)
    ensures Join(PartTexts(CellRows(bwv, cell)), ' ') == RemoveParens(cell)
  {
    var toks := Split(cell, ' ');
    assert PartTexts(CellRows(bwv, cell)) == RemoveParensAll(toks);
    SplitJoin(cell, ' ');
    RemoveParensJoin(toks, ' ');
  }

  // ---------------------------------------------------------- the column

  /** Every row of the table has the instrument column `col`. */
  predicate HasColumn(frame: seq<CleanRow>, col: nat) {
    forall i :: 0 <= i < |frame| ==> col < |frame[i].cells|
  }

  function LowerCell(c: Option<string>): (r: Option<string>)
    ensures r.Some? <==> c.Some?
    ensures c.Some? ==> r.value == Lower(c.value)
  {
    match c
    case None => None
    case Some(t) => Some(Lower(t))
  }

  /** `df[instrument] = df[instrument].str.lower()`: that column lower-cased, null cells kept
      null, and nothing else changed. */
  function LowerColumn(frame: seq<CleanRow>, col: nat): (r: seq<CleanRow>)
    requires HasColumn(frame, col)
    ensures |r| == |frame| && HasColumn(r, col)
    ensures forall i :: 0 <= i < |r| ==> r[i].bwv == frame[i].bwv && |r[i].cells| == |frame[i].cells|
    ensures forall i, j :: 0 <= i < |r| && 0 <= j < |r[i].cells| && j != col ==> r[i].cells[j] == frame[i].cells[j]
    ensures forall i :: 0 <= i < |r| ==> r[i].cells[col] == LowerCell(frame[i].cells[col])
  {
    seq(|frame|, i requires 0 <= i < |frame| && HasColumn(frame, col) =>
      frame[i].(cells := frame[i].cells[col := LowerCell(frame[i].cells[col])]))
  }

  /** `df[df[instrument].notnull()][['BWV', instrument]]`: the BWV and text of every table row
      whose cell is not null, in table order. */
  function FilledCells(frame: seq<CleanRow>, col: nat): seq<(int, string)>
    requires HasColumn(frame, col)
    decreases |frame|
  {
    if |frame| == 0 then []
    else
      var head := match frame[0].cells[col] case None => [] case Some(t) => [(frame[0].bwv, t)];
      head + FilledCells(frame[1..], col)
  }

  lemma {:induction false} FilledCellsConcat(a: seq<CleanRow>, b: seq<CleanRow>, col: nat)
    requires HasColumn(a, col) && HasColumn(b, col)
    ensures HasColumn(a + b, col)
    ensures FilledCells(a + b, col) == FilledCells(a, col) + FilledCells(b, col)
    decreases |a|
  {
    assert HasColumn(a + b, col) by {
      forall i | 0 <= i < |a + b| ensures col < |(a + b)[i].cells| {
        if i < |a| { assert (a + b)[i] == a[i]; } else { assert (a + b)[i] == b[i - |a|]; }
      }
    }
    if |a| == 0 {
      assert a + b == b;
    } else {
      var head := match a[0].cells[col] case None => [] case Some(t) => [(a[0].bwv, t)];
      assert (a + b)[0] == a[0] && (a + b)[1..] == a[1..] + b;
      FilledCellsConcat(a[1..], b, col);
      assert head + (FilledCells(a[1..], col) + FilledCells(b, col)) == (head + FilledCells(a[1..], col)) + FilledCells(b, col);
    }
  }

  /** A row whose cell is not null contributes its pair, between the pairs of the rows before it
      and those of the rows after it. */
  lemma FilledCellsAt(frame: seq<CleanRow>, col: nat, i: nat)
    requires HasColumn(frame, col) && i < |frame| && frame[i].cells[col].Some?
    ensures HasColumn(frame[..i], col) && HasColumn(frame[i + 1..], col)
    ensures FilledCells(frame, col) ==
      FilledCells(frame[..i], col) + [(frame[i].bwv, frame[i].cells[col].value)] + FilledCells(frame[i + 1..], col)
  {
    assert frame == frame[..i] + ([frame[i]] + frame[i + 1..]);
    FilledCellsConcat([frame[i]], frame[i + 1..], col);
    FilledCellsConcat(frame[..i], [frame[i]] + frame[i + 1..], col);
    assert ([frame[i]] + frame[i + 1..])[1..] == frame[i + 1..];
    assert [frame[i]][1..] == [];
  }

  /** The BWV and text of a row whose cell is not null. */
  predicate FilledIn(c: (int, string), frame: seq<CleanRow>, col: nat)
    requires HasColumn(frame, col)
  {
    exists i :: 0 <= i < |frame| && frame[i].cells[col] == Some(c.1) && frame[i].bwv == c.0
  }

  /** Every pair comes from a row of the table whose cell is not null. */
  lemma {:induction false} FilledCellsFrom(frame: seq<CleanRow>, col: nat)
    requires HasColumn(frame, col)
    ensures forall k :: 0 <= k < |FilledCells(frame, col)| ==> FilledIn(FilledCells(frame, col)[k], frame, col)
    decreases |frame|
  {
    if |frame| > 0 {
      var head := match frame[0].cells[col] case None => [] case Some(t) => [(frame[0].bwv, t)];
      var tail := FilledCells(frame[1..], col);
      assert FilledCells(frame, col) == head + tail;
      FilledCellsFrom(frame[1..], col);
      forall k | 0 <= k < |head + tail| ensures FilledIn((head + tail)[k], frame, col) {
        if k < |head| {
          assert (head + tail)[k] == head[k];
          assert frame[0].cells[col] == Some(head[k].1) && frame[0].bwv == head[k].0;
        } else {
          assert (head + tail)[k] == tail[k - |head|];
          assert FilledIn(tail[k - |head|], frame[1..], col);
          var i: int :| 0 <= i < |frame[1..]| && frame[1..][i].cells[col] == Some(tail[k - |head|].1)
            && frame[1..][i].bwv == tail[k - |head|].0;
          assert frame[i + 1] == frame[1..][i];
        }
      }
    }
  }

  /** `pd.concat` of the rows that `parse` makes of each pair, in order. */
  function Flatten(parse: (int, string) -> seq<Part>, cells: seq<(int, string)>): seq<Part>
    decreases |cells|
  {
    if |cells| == 0 then [] else parse(cells[0].0, cells[0].1) + Flatten(parse, cells[1..])
  }

  lemma {:induction false} FlattenConcat(parse: (int, string) -> seq<Part>, a: seq<(int, string)>, b: seq<(int, string)>)
    ensures Flatten(parse, a + b) == Flatten(parse, a) + Flatten(parse, b)
    decreases |a|
  {
    if |a| == 0 {
      assert a + b == b;
    } else {
      var head := parse(a[0].0, a[0].1);
      assert (a + b)[0] == a[0] && (a + b)[1..] == a[1..] + b;
      FlattenConcat(parse, a[1..], b);
      assert head + (Flatten(parse, a[1..]) + Flatten(parse, b)) == (head + Flatten(parse, a[1..])) + Flatten(parse, b);
    }
  }

  /** Part `p` carries the BWV of one of the pairs. */
  predicate BwvAmong(p: Part, cells: seq<(int, string)>) {
    exists k :: 0 <= k < |cells| && p.bwv == cells[k].0
  }

  /** When every row `parse` makes carries the BWV it was given, every flattened row carries the
      BWV of one of the pairs. */
  lemma {:induction false} FlattenTagged(parse: (int, string) -> seq<Part>, cells: seq<(int, string)>)
    requires forall b, t, k :: 0 <= k < |parse(b, t)| ==> parse(b, t)[k].bwv == b
    ensures forall j :: 0 <= j < |Flatten(parse, cells)| ==> BwvAmong(Flatten(parse, cells)[j], cells)
    decreases |cells|
  {
    if |cells| > 0 {
      var head: seq<Part>, tail: seq<Part> := parse(cells[0].0, cells[0].1), Flatten(parse, cells[1..]);
      assert Flatten(parse, cells) == head + tail;
      FlattenTagged(parse, cells[1..]);
      forall j | 0 <= j < |head + tail| ensures BwvAmong((head + tail)[j], cells) {
        if j < |head| {
          assert (head + tail)[j] == head[j] && head[j].bwv == cells[0].0;
        } else {
          assert (head + tail)[j] == tail[j - |head|];
          assert BwvAmong(tail[j - |head|], cells[1..]);
          var k: int :| 0 <= k < |cells[1..]| && tail[j - |head|].bwv == cells[1..][k].0;
          assert cells[k + 1] == cells[1..][k];
        }
      }
    }
  }

  /** The rows that the loop over `df[df[instrument].notnull()]` concatenates, in table order. */
  function GroupRows(frame: seq<CleanRow>, col: nat): seq<Part>
    requires HasColumn(frame, col)
  {
    Flatten(CellRows, FilledCells(frame, col))
  }

  /** Splitting the table splits its rows: the rows from each table row stay together, in
      order. */
  lemma GroupRowsConcat(a: seq<CleanRow>, b: seq<CleanRow>, col: nat)
    requires HasColumn(a, col) && HasColumn(b, col)
    ensures HasColumn(a + b, col)
    ensures GroupRows(a + b, col) == GroupRows(a, col) + GroupRows(b, col)
  {
    FilledCellsConcat(a, b, col);
    FlattenConcat(CellRows, FilledCells(a, col), FilledCells(b, col));
  }

  /** The rows of one pair sit, as a block, right after the rows of the pairs before it. */
  lemma FlattenAt(parse: (int, string) -> seq<Part>, pre: seq<(int, string)>, c: (int, string), post: seq<(int, string)>)
    ensures var before, block := Flatten(parse, pre), parse(c.0, c.1);
      |before| + |block| <= |Flatten(parse, pre + [c] + post)| &&
      Flatten(parse, pre + [c] + post)[|before|..|before| + |block|] == block
  {
    FlattenConcat(parse, pre + [c], post);
    FlattenConcat(parse, pre, [c]);
    assert |[c][1..]| == 0;
    var before, block, after := Flatten(parse, pre), parse(c.0, c.1), Flatten(parse, post);
    assert Flatten(parse, [c]) == block + [];
    assert Flatten(parse, pre + [c] + post) == before + block + after;
    assert (before + block + after)[|before|..|before| + |block|] == block;
  }

  /** A table row whose cell is not null gives a run of rows, one per token of its cell, right
      after the rows of the table rows before it. */
  lemma GroupRowsAt(frame: seq<CleanRow>, col: nat, i: nat)
    requires HasColumn(frame, col) && i < |frame| && frame[i].cells[col].Some?
    ensures HasColumn(frame[..i], col)
    ensures var before := GroupRows(frame[..i], col);
      var cell := CellRows(frame[i].bwv, frame[i].cells[col].value);
      |before| + |cell| <= |GroupRows(frame, col)| &&
      GroupRows(frame, col)[|before|..|before| + |cell|] == cell
  {
    var c: (int, string) := (frame[i].bwv, frame[i].cells[col].value);
    FilledCellsAt(frame, col, i);
    FlattenAt(CellRows, FilledCells(frame[..i], col), c, FilledCells(frame[i + 1..], col));
  }

  /** Part `p` carries the BWV of a table row whose cell is not null. */
  predicate FromFilledRow(p: Part, frame: seq<CleanRow>, col: nat)
    requires HasColumn(frame, col)
  {
    exists i :: 0 <= i < |frame| && frame[i].cells[col].Some? && p.bwv == frame[i].bwv
  }

  /** Every row produced carries the BWV of a table row whose cell is not null. */
  lemma GroupRowsTagged(frame: seq<CleanRow>, col: nat)
    requires HasColumn(frame, col)
    ensures forall j :: 0 <= j < |GroupRows(frame, col)| ==> FromFilledRow(GroupRows(frame, col)[j], frame, col)
  {
    var cells, rows := FilledCells(frame, col), GroupRows(frame, col);
    FlattenTagged(CellRows, cells);
    FilledCellsFrom(frame, col);
    forall j | 0 <= j < |rows| ensures FromFilledRow(rows[j], frame, col) {
      assert BwvAmong(rows[j], cells);
      var k: int :| 0 <= k < |cells| && rows[j].bwv == cells[k].0;
      assert FilledIn(cells[k], frame, col);
      var i: int :| 0 <= i < |frame| && frame[i].cells[col] == Some(cells[k].1) && frame[i].bwv == cells[k].0;
      assert frame[i].cells[col].Some? && rows[j].bwv == frame[i].bwv;
    }
  }

  /** The loop of `process_instrument_group` over the rows of `in_df`: `acc` followed by the rows
      `parse` makes of each pair, in order. */
  method AppendParsed(parse: (int, string) -> seq<Part>, cells: seq<(int, string)>, acc: seq<Part>)
    returns (out: seq<Part>)
    ensures out == acc + Flatten(parse, cells)
  {
    out := acc;
    var i := 0;
    while i < |cells|
      invariant 0 <= i <= |cells|
      invariant out == acc + Flatten(parse, cells[..i])
    {
      var tmp := parse(cells[i].0, cells[i].1);
      assert cells[..i + 1] == cells[..i] + [cells[i]];
      FlattenConcat(parse, cells[..i], [cells[i]]);
      assert Flatten(parse, [cells[i]]) == tmp + [] by {
        assert |[cells[i]][1..]| == 0;
      }
      assert (acc + Flatten(parse, cells[..i])) + tmp == acc + (Flatten(parse, cells[..i]) + tmp);
      out := out + tmp;
      i := i + 1;
    }
    assert cells[..i] == cells;
  }

  /** Lower-casing a column keeps which of its cells are null and the BWVs. */
  lemma LoweredTagged(frame: seq<CleanRow>, col: nat)
    requires HasColumn(frame, col)
    ensures forall j :: 0 <= j < |GroupRows(LowerColumn(frame, col), col)| ==>
      FromFilledRow(GroupRows(LowerColumn(frame, col), col)[j], frame, col)
  {
    var lowered := LowerColumn(frame, col);
    var added := GroupRows(lowered, col);
    GroupRowsTagged(lowered, col);
    forall j | 0 <= j < |added| ensures FromFilledRow(added[j], frame, col) {
      assert FromFilledRow(added[j], lowered, col);
      var k: int :| 0 <= k < |lowered| && lowered[k].cells[col].Some? && added[j].bwv == lowered[k].bwv;
      assert frame[k].cells[col].Some? && added[j].bwv == frame[k].bwv;
    }
  }

  /** `process_instrument_group(instrument)`: lower-cases column `col` of the table and appends
      to `acc` the rows of every non-null cell, in table order. The rows already in `acc` are
      kept, and each new row carries the BWV of a table row whose cell is not null. */
  method ProcessInstrumentGroup(frame: seq<CleanRow>, col: nat, acc: seq<Part>)
    returns (lowered: seq<CleanRow>, out: seq<Part>)
    requires HasColumn(frame, col)
    ensures lowered == LowerColumn(frame, col)
    ensures out == acc + GroupRows(lowered, col)
    ensures |acc| <= |out| && out[..|acc|] == acc
    ensures forall j :: |acc| <= j < |out| ==> FromFilledRow(out[j], frame, col)
  {
    lowered := LowerColumn(frame, col);
    var cells := FilledCells(lowered, col);
    out := AppendParsed(CellRows, cells, acc);
    LoweredTagged(frame, col);
    var added := GroupRows(lowered, col);
    assert forall j :: |acc| <= j < |out| ==> out[j] == added[j - |acc|];
  }
}
