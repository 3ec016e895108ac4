/**
 * The cantata table of `cantatas_holidays.py`: which of Bach's church cantatas
 * (by BWV number) belong to which member of `ChurchYear`, and the script's
 * `main`, an inner merge of the calendar engine's 2022 frame with that table
 * on the `ident` column.
 */
module CantatasHolidays {
  import opened Wrappers
  import opened ChristianHolidays
  import opened ChurchYear
  import opened HolidayDispatch

  // ------------------------------------------------------------------ table

  /** The cantatas of the first to twenty-eighth Sunday after Trinity. */
  function TrinityBwvs(): (t: seq<seq<int>>)
    ensures |t| == 28
  {
    [[129, 165, 176, 194], [20, 39, 75], [2, 76], [21, 135], [24, 177, 185], [88, 93], [9, 170],
     [54, 107, 186, 187], [45, 136, 178], [94, 105, 168], [46, 101, 102], [113, 179, 199],
     [35, 137], [33, 77, 164], [17, 25, 78], [51, 99, 138], [8, 27, 95, 161], [47, 114, 148],
     [96, 169], [5, 48, 56], [49, 162, 180], [38, 98, 109, 188], [55, 89, 115], [52, 139, 163],
     [26, 60], [90, 116], [70], [140]]
  }

  /** `cantatas[f]`: the BWV numbers listed for `f`, or `None` when `f` is not a key. */
  function KeyBwvs(f: Feast): Option<seq<int>> {
    match f
    case Advent(n) => if n == 1 then Some([36, 61, 62]) else if n == 4 then Some([132]) else None
    case Christmas(n) =>
      if n == 1 then Some([63, 91, 110, 191]) else if n == 2 then Some([40, 57, 121])
      else if n == 3 then Some([64, 133, 151]) else if n == 4 then Some([28, 122, 152]) else None
    case NewYear(n) =>
      if n == 1 then Some([16, 41, 143, 171, 190]) else if n == 2 then Some([58, 153]) else None
    case Epiphany(n) =>
      if n == 1 then Some([65, 123]) else if n == 2 then Some([32, 124, 154])
      else if n == 3 then Some([3, 13, 155]) else if n == 4 then Some([72, 73, 111, 156])
      else if n == 5 then Some([14, 81]) else None
    case Septuagesima => Some([84, 92, 144])
    case Sexagesima => Some([18, 126, 181])
    case Quinquagesima => Some([22, 23, 127, 159])
    case PalmSunday => Some([182])
    case GoodFriday => None
    case HolySaturday => None
    case Easter(n) =>
      if n == 1 then Some([4, 31]) else if n == 2 then Some([6, 66])
      else if n == 3 then Some([134, 145, 158]) else None
    case Quasimodogeniti => Some([42, 67])
    case MisericordiasDomini => Some([85, 104, 112])
    case Jubilate => Some([12, 103, 146])
    case Cantate => Some([108, 166])
    case Rogate => Some([86, 87])
    case Ascension => Some([11, 37, 43, 128])
    case Exaudi => Some([44, 183])
    case Whit(n) =>
      if n == 1 then Some([34, 59, 74, 172]) else if n == 2 then Some([68, 173, 174])
      else if n == 3 then Some([175, 184]) else None
    case Trinity(n) => if 1 <= n <= 28 then Some(TrinityBwvs()[n - 1]) else None
    case Visitation => Some([10, 147])
    case Reformation => Some([79, 80])
    case Candlemas => Some([82, 83, 125])
    case Annunciation => Some([1])
    case John => Some([7, 30, 167])
    case Michaelmas => Some([19, 50, 130, 149])
  }

  /** The `bwv` cell of a key's row in the cantata frame. */
  function Bwvs(f: Feast): seq<int> {
    if KeyBwvs(f).Some? then KeyBwvs(f).value else []
  }

  /** The six members the table has no entry for. */
  predicate Unlisted(f: Feast) {
    f == Advent(2) || f == Advent(3) || f == Epiphany(6) || f == Epiphany(7)
    || f == GoodFriday || f == HolySaturday
  }

  /** A key of the table: a member of the church year other than the six unlisted ones. */
  predicate IsKey(f: Feast) {
    IsMember(f) && !Unlisted(f)
  }

  /** The table lists exactly the keys. */
  lemma KeysAreMembers(f: Feast)
    ensures KeyBwvs(f).Some? <==> IsKey(f)
  {
    if f.Advent? || f.Christmas? || f.NewYear? || f.Epiphany? {
      ChristmasCycleKeys(f);
    } else if f.Easter? || f.Whit? || f.Trinity? {
      EasterCycleKeys(f);
    }
  }

  /** The same for the numbered feasts of the Christmas cycle. */
  lemma ChristmasCycleKeys(f: Feast)
    requires f.Advent? || f.Christmas? || f.NewYear? || f.Epiphany?
    ensures KeyBwvs(f).Some? <==> IsKey(f)
  {
  }

  /** The same for the numbered feasts of the Easter cycle. */
  lemma EasterCycleKeys(f: Feast)
    requires f.Easter? || f.Whit? || f.Trinity?
    ensures KeyBwvs(f).Some? <==> IsKey(f)
  {
  }

  /** Every listed feast has at least one cantata, and every number is a sacred cantata's:
      BWV 1..199, never 198 (the funeral ode). */
  lemma KeyBwvsSacred(f: Feast)
    ensures KeyBwvs(f).Some? ==> |KeyBwvs(f).value| > 0
    ensures KeyBwvs(f).Some? ==> forall b :: b in KeyBwvs(f).value ==> 1 <= b <= 199 && b != 198
  {
    if f.Trinity? && 1 <= f.n <= 28 {
      TrinityBwvsSacred(f.n - 1);
    }
  }

  /** The same for the Sundays after Trinity, one at a time. */
  lemma TrinityBwvsSacred(i: int)
    requires 0 <= i < 28
    ensures |TrinityBwvs()[i]| > 0
    ensures forall b :: b in TrinityBwvs()[i] ==> 1 <= b <= 199 && b != 198
  {
  }

  // --------------------------------------------------------------- key order

  /** The table's keys among the members from position `i` on, in declaration order: the
      order the dictionary literal lists them in. */
  function KeysFrom(i: nat): seq<Feast>
    requires i <= MemberCount
    decreases MemberCount - i
  {
    if i == MemberCount then []
    else (if IsKey(MemberAt(i)) then [MemberAt(i)] else []) + KeysFrom(i + 1)
  }

  /** The keys of `cantatas`, in the order the dictionary holds them. */
  function CantataKeys(): seq<Feast> {
    KeysFrom(0)
  }

  /** One step of the filter: the member at `i` is put in front when it is a key and
      skipped otherwise. */
  lemma KeysFromStep(i: nat)
    requires i < MemberCount
    ensures IsKey(MemberAt(i)) ==> KeysFrom(i) == [MemberAt(i)] + KeysFrom(i + 1)
    ensures !IsKey(MemberAt(i)) ==> KeysFrom(i) == KeysFrom(i + 1)
  {
  }

  /** The member at position `i` is the one feast whose declaration position is `i`. */
  lemma AtPosition(i: nat, f: Feast)
    requires i < MemberCount
    ensures f == MemberAt(i) <==> IsMember(f) && Position(f) == i
  {
    MemberAtIsMember(i);
    if IsMember(f) {
      PositionOfMember(f);
    }
  }

  /** A feast is among the keys from position `i` on exactly when it is a key declared at `i`
      or later. */
  lemma {:induction false} KeysFromHas(i: nat, f: Feast)
    requires i <= MemberCount
    ensures f in KeysFrom(i) <==> IsKey(f) && i <= Position(f)
    decreases MemberCount - i
  {
    if i < MemberCount {
      KeysFromHas(i + 1, f);
      AtPosition(i, f);
      KeysFromStep(i);
      if IsKey(MemberAt(i)) {
        InCons(f, MemberAt(i), KeysFrom(i + 1));
      }
    } else if IsKey(f) {
      PositionOfMember(f);
    }
  }

  /** Membership in a list with one more element in front. */
  lemma InCons(f: Feast, m: Feast, rest: seq<Feast>)
    ensures f in [m] + rest <==> f == m || f in rest
  {
  }

  /** The keys from position `i` on are exactly the table's keys declared at `i` or later. */
  lemma KeysFromMembers(i: nat)
    requires i <= MemberCount
    ensures forall f :: f in KeysFrom(i) <==> IsKey(f) && i <= Position(f)
  {
    forall f ensures f in KeysFrom(i) <==> IsKey(f) && i <= Position(f) {
      KeysFromHas(i, f);
    }
  }

  /** Feasts listed in strictly increasing declaration order. */
  predicate Increasing(ks: seq<Feast>) {
    forall a, b :: 0 <= a < b < |ks| ==> Position(ks[a]) < Position(ks[b])
  }

  /** A feast declared before everything in an increasing list keeps it increasing in front. */
  lemma ConsIncreasing(m: Feast, rest: seq<Feast>, p: int)
    requires Increasing(rest)
    requires Position(m) < p
    requires forall k :: 0 <= k < |rest| ==> p <= Position(rest[k])
    ensures Increasing([m] + rest)
  {
    var ks := [m] + rest;
    forall a, b | 0 <= a < b < |ks| ensures Position(ks[a]) < Position(ks[b]) {
      assert ks[b] == rest[b - 1];
      if a > 0 {
        assert ks[a] == rest[a - 1];
      }
    }
  }

  /** Every key from position `i` on is declared at `i` or later. */
  lemma KeysAfter(i: nat)
    requires i <= MemberCount
    ensures forall k :: 0 <= k < |KeysFrom(i)| ==> i <= Position(KeysFrom(i)[k])
  {
    var ks := KeysFrom(i);
    forall k | 0 <= k < |ks| ensures i <= Position(ks[k]) {
      assert ks[k] in ks;
      KeysFromHas(i, ks[k]);
    }
  }

  /** The keys from position `i` on stand in declaration order. */
  lemma {:induction false} KeysFromIncreasing(i: nat)
    requires i <= MemberCount
    ensures Increasing(KeysFrom(i))
    decreases MemberCount - i
  {
    if i < MemberCount {
      KeysFromIncreasing(i + 1);
      KeysFromStep(i);
      if IsKey(MemberAt(i)) {
        MemberAtIsMember(i);
        KeysAfter(i + 1);
        ConsIncreasing(MemberAt(i), KeysFrom(i + 1), i + 1);
      }
    }
  }

  /** The keys stand in strictly increasing declaration order, so each occurs once. */
  lemma CantataKeysOrdered()
    ensures forall a, b :: 0 <= a < b < |CantataKeys()| ==> Position(CantataKeys()[a]) < Position(CantataKeys()[b])
  {
    KeysFromIncreasing(0);
  }

  /** A stretch of members that are all keys contributes all of its members. */
  lemma {:induction false} KeysFromRun(i: nat, j: nat)
    requires i <= j <= MemberCount
    requires forall k :: i <= k < j ==> IsKey(MemberAt(k))
    ensures |KeysFrom(i)| == (j - i) + |KeysFrom(j)|
    decreases j - i
  {
    if i < j {
      KeysFromRun(i + 1, j);
    }
  }

  /** The member at position `k` is a key unless it is one of the six unlisted ones, which
      stand at positions 1, 2, 15, 16, 21 and 22. */
  lemma KeyAt(k: int)
    requires 0 <= k < MemberCount
    ensures IsKey(MemberAt(k)) <==> !(k == 1 || k == 2 || k == 15 || k == 16 || k == 21 || k == 22)
  {
    MemberAtIsMember(k);
  }

  /** Up to Holy Week the table skips the second and third Advent, the sixth and seventh
      Epiphany, Good Friday and Holy Saturday. */
  lemma KeysBeforeEaster()
    ensures |KeysFrom(0)| == 17 + |KeysFrom(23)|
  {
    SkipTwo(1);
    SkipTwo(15);
    SkipTwo(21);
    KeysSpan(0, 1);
    KeysSpan(3, 15);
    KeysSpan(17, 21);
  }

  /** A stretch of positions clear of the six unlisted ones contributes all of its members. */
  lemma KeysSpan(i: nat, j: nat)
    requires i <= j <= MemberCount
    requires j <= 1 || (3 <= i && j <= 15) || (17 <= i && j <= 21) || 23 <= i
    ensures |KeysFrom(i)| == (j - i) + |KeysFrom(j)|
  {
    forall k | i <= k < j ensures IsKey(MemberAt(k)) {
      KeyAt(k);
    }
    KeysFromRun(i, j);
  }

  /** Positions `i` and `i + 1` hold unlisted members when `i` is 1, 15 or 21. */
  lemma SkipTwo(i: nat)
    requires i == 1 || i == 15 || i == 21
    ensures KeysFrom(i) == KeysFrom(i + 2)
  {
    KeyAt(i);
    KeyAt(i + 1);
    KeysFromStep(i);
    KeysFromStep(i + 1);
  }

  /** The dictionary has 64 keys. */
  lemma CantataKeysCount()
    ensures |CantataKeys()| == 64
  {
    KeysBeforeEaster();
    KeysSpan(23, MemberCount);
  }

  // ------------------------------------------------------------------ merge

  /** `df_cantatas`: one `(ident, bwv)` row per key of `keys`, in order. */
  function FrameOf(keys: seq<Feast>): seq<(string, seq<int>)>
    decreases |keys|
  {
    if |keys| == 0 then [] else [(Name(keys[0]), Bwvs(keys[0]))] + FrameOf(keys[1..])
  }

  /** The cantata frame of the script: the table's rows in dictionary order. */
  function CantataFrame(): seq<(string, seq<int>)> {
    FrameOf(CantataKeys())
  }

  /** A row of the merged frame: the holiday's columns followed by its `bwv` list. */
  datatype MergedRow = MergedRow(holiday: HolidayRow, bwv: seq<int>)

  /** The right-hand rows sharing the left row's `ident`, in right-hand order. */
  function Matches(l: HolidayRow, right: seq<(string, seq<int>)>): seq<MergedRow>
    decreases |right|
  {
    if |right| == 0 then []
    else (if right[0].0 == l.ident then [MergedRow(l, right[0].1)] else []) + Matches(l, right[1..])
  }

  /** `pd.merge(left, right, how='inner')` on the one shared column `ident`: each left row, in
      left order, followed by its matches. */
  function InnerJoin(left: seq<HolidayRow>, right: seq<(string, seq<int>)>): seq<MergedRow>
    decreases |left|
  {
    if |left| == 0 then [] else Matches(left[0], right) + InnerJoin(left[1..], right)
  }

  /** A match pairs the left row with the `bwv` of a right row carrying its `ident`. */
  lemma {:induction false} MatchesMembers(l: HolidayRow, right: seq<(string, seq<int>)>)
    ensures forall x :: x in Matches(l, right) <==> x.holiday == l && (l.ident, x.bwv) in right
    decreases |right|
  {
    if |right| > 0 {
      MatchesMembers(l, right[1..]);
      assert right == [right[0]] + right[1..];
    }
  }

  /** The merged frame holds exactly the pairs of a left row and a right row that agree on
      `ident`. */
  lemma {:induction false} InnerJoinMembers(left: seq<HolidayRow>, right: seq<(string, seq<int>)>)
    ensures forall x :: x in InnerJoin(left, right) <==> x.holiday in left && (x.holiday.ident, x.bwv) in right
    decreases |left|
  {
    if |left| > 0 {
      InnerJoinMembers(left[1..], right);
      MatchesMembers(left[0], right);
      assert left == [left[0]] + left[1..];
    }
  }

  /** Matching against two frames in turn is matching against their concatenation. */
  lemma {:induction false} MatchesConcat(l: HolidayRow, r1: seq<(string, seq<int>)>, r2: seq<(string, seq<int>)>)
    ensures Matches(l, r1 + r2) == Matches(l, r1) + Matches(l, r2)
    decreases |r1|
  {
    if |r1| > 0 {
      MatchesConcat(l, r1[1..], r2);
      assert (r1 + r2)[0] == r1[0] && (r1 + r2)[1..] == r1[1..] + r2;
    } else {
      assert r1 + r2 == r2;
    }
  }

  /** When the member at `i` is a key, matching from `i` is matching its row, then the rest. */
  lemma MatchesHead(l: HolidayRow, m: Feast, i: nat)
    requires i < MemberCount && m == MemberAt(i) && IsKey(m)
    ensures Matches(l, FrameOf(KeysFrom(i))) ==
      (if Name(m) == l.ident then [MergedRow(l, Bwvs(m))] else []) + Matches(l, FrameOf(KeysFrom(i + 1)))
  {
    var rest := FrameOf(KeysFrom(i + 1));
    assert KeysFrom(i) == [m] + KeysFrom(i + 1);
    assert FrameOf(KeysFrom(i)) == [(Name(m), Bwvs(m))] + rest;
    MatchesConcat(l, [(Name(m), Bwvs(m))], rest);
    assert Matches(l, [(Name(m), Bwvs(m))]) == if Name(m) == l.ident then [MergedRow(l, Bwvs(m))] else [];
  }

  /** Against the cantata frame from position `i` on, the row of member `f` matches once when
      `f` is a key declared at `i` or later, and not at all otherwise. */
  lemma {:induction false} MatchesKeysFrom(l: HolidayRow, f: Feast, i: nat)
    requires IsMember(f) && l.ident == Name(f)
    requires i <= MemberCount
    ensures Matches(l, FrameOf(KeysFrom(i))) ==
      if IsKey(f) && i <= Position(f) then [MergedRow(l, Bwvs(f))] else []
    decreases MemberCount - i
  {
    PositionOfMember(f);
    if i < MemberCount {
      MatchesKeysFrom(l, f, i + 1);
      var m := MemberAt(i);
      MemberAtIsMember(i);
      var rest := FrameOf(KeysFrom(i + 1));
      if IsKey(m) {
        MatchesHead(l, m, i);
        if Name(m) == Name(f) {
          NameInjective(m, f);
        } else {
          assert m != f;
        }
      } else {
        assert KeysFrom(i) == KeysFrom(i + 1);
        assert m != f || !IsKey(f);
      }
    } else {
      assert FrameOf(KeysFrom(i)) == [];
    }
  }

  /** The reference for the merge: the rows of `rows` from position `i` on whose member is a
      key, each with that key's list, in order. */
  function PickedFrom(rows: seq<HolidayRow>, i: nat): seq<MergedRow>
    requires |rows| == MemberCount && i <= MemberCount
    decreases MemberCount - i
  {
    if i == MemberCount then []
    else
      (if IsKey(MemberAt(i)) then [MergedRow(rows[i], Bwvs(MemberAt(i)))] else [])
      + PickedFrom(rows, i + 1)
  }

  /** Merging a frame that holds one row per member, in declaration order, keeps exactly the rows
      of the table's keys, in order, each followed by its list. */
  lemma {:induction false} InnerJoinFrom(rows: seq<HolidayRow>, i: nat)
    requires |rows| == MemberCount && i <= MemberCount
    requires forall j :: 0 <= j < MemberCount ==> rows[j].ident == Name(MemberAt(j))
    ensures InnerJoin(rows[i..], CantataFrame()) == PickedFrom(rows, i)
    decreases MemberCount - i
  {
    if i < MemberCount {
      InnerJoinFrom(rows, i + 1);
      assert rows[i..][1..] == rows[i + 1..];
      MemberAtIsMember(i);
      MatchesKeysFrom(rows[i], MemberAt(i), 0);
    }
  }

  /** `ps` carries, at each index, the row of `rows` at the position of the key `ks` holds there,
      followed by that key's list. */
  predicate Aligned(ks: seq<Feast>, ps: seq<MergedRow>, rows: seq<HolidayRow>) {
    |ps| == |ks|
    && forall k :: 0 <= k < |ks| ==>
      (0 <= Position(ks[k]) < |rows| && ps[k] == MergedRow(rows[Position(ks[k])], Bwvs(ks[k])))
  }

  /** Alignment survives putting one more key and its row in front. */
  lemma AlignedCons(m: Feast, ks: seq<Feast>, row: MergedRow, ps: seq<MergedRow>, rows: seq<HolidayRow>)
    requires Aligned(ks, ps, rows)
    requires 0 <= Position(m) < |rows| && row == MergedRow(rows[Position(m)], Bwvs(m))
    ensures Aligned([m] + ks, [row] + ps, rows)
  {
    var ks', ps' := [m] + ks, [row] + ps;
    forall k | 0 < k < |ks'| ensures ks'[k] == ks[k - 1] && ps'[k] == ps[k - 1] {
    }
  }

  /** The `k`-th kept row is the row of the `k`-th key from position `i` on. */
  lemma {:induction false} PickedFromAt(rows: seq<HolidayRow>, i: nat)
    requires |rows| == MemberCount && i <= MemberCount
    ensures Aligned(KeysFrom(i), PickedFrom(rows, i), rows)
    decreases MemberCount - i
  {
    if i < MemberCount {
      PickedFromAt(rows, i + 1);
      var m := MemberAt(i);
      MemberAtIsMember(i);
      if IsKey(m) {
        AlignedCons(m, KeysFrom(i + 1), MergedRow(rows[i], Bwvs(m)), PickedFrom(rows, i + 1), rows);
      }
    }
  }

  /** The script's `main`: the 2022 frame of the engine merged with the cantata frame. Each of
      the 64 keys gives one row, in declaration order, carrying the engine's row for that
      member and its list of cantatas. */
  method CantatasMain() returns (df: seq<MergedRow>)
    ensures |df| == 64 && |CantataKeys()| == 64
    ensures forall k :: 0 <= k < 64 ==>
      (IsMember(CantataKeys()[k])
       && df[k] == MergedRow(RowOf(CantataKeys()[k], 2022, 2023), Bwvs(CantataKeys()[k])))
  {
    var holidays := HolidayRows(2022, 2023);
    df := InnerJoin(holidays, CantataFrame());
    MergedRows(holidays, 2022, 2023);
  }

  /** Merging the engine's frame over any supported range gives one row per key, in
      declaration order, each the engine's row of that key followed by its list. */
  lemma MergedRows(rows: seq<HolidayRow>, start: int, stop: int)
    requires forall year :: start <= year < stop ==> SupportedYear(year)
    requires |rows| == MemberCount
    requires forall i :: 0 <= i < MemberCount ==>
      IsMember(MemberAt(i)) && rows[i] == RowOf(MemberAt(i), start, stop)
    ensures |InnerJoin(rows, CantataFrame())| == 64 && |CantataKeys()| == 64
    ensures forall k :: 0 <= k < 64 ==>
      (IsMember(CantataKeys()[k])
       && InnerJoin(rows, CantataFrame())[k] == MergedRow(RowOf(CantataKeys()[k], start, stop), Bwvs(CantataKeys()[k])))
  {
    RowIdents(rows, start, stop);
    MergeAligned(rows);
    CantataKeysCount();
    KeyRows(rows, InnerJoin(rows, CantataFrame()), start, stop);
  }

  /** Each row of the engine's frame carries its member's name as `ident`. */
  lemma RowIdents(rows: seq<HolidayRow>, start: int, stop: int)
    requires forall year :: start <= year < stop ==> SupportedYear(year)
    requires |rows| == MemberCount
    requires forall i :: 0 <= i < MemberCount ==>
      IsMember(MemberAt(i)) && rows[i] == RowOf(MemberAt(i), start, stop)
    ensures forall j :: 0 <= j < MemberCount ==> rows[j].ident == Name(MemberAt(j))
  {
  }

  /** Merging a frame that holds one row per member, in declaration order, lines its rows up
      with the keys. */
  lemma MergeAligned(rows: seq<HolidayRow>)
    requires |rows| == MemberCount
    requires forall j :: 0 <= j < MemberCount ==> rows[j].ident == Name(MemberAt(j))
    ensures Aligned(CantataKeys(), InnerJoin(rows, CantataFrame()), rows)
  {
    InnerJoinFrom(rows, 0);
    assert rows[0..] == rows;
    PickedFromAt(rows, 0);
  }

  /** Aligned with the keys over a frame holding each member's row in declaration order, the
      `k`-th merged row is the engine's row of the `k`-th key with that key's list. */
  lemma KeyRows(rows: seq<HolidayRow>, ps: seq<MergedRow>, start: int, stop: int)
    requires forall year :: start <= year < stop ==> SupportedYear(year)
    requires |rows| == MemberCount
    requires forall i :: 0 <= i < MemberCount ==>
      IsMember(MemberAt(i)) && rows[i] == RowOf(MemberAt(i), start, stop)
    requires Aligned(CantataKeys(), ps, rows)
    ensures forall k :: 0 <= k < |ps| ==>
      (IsMember(CantataKeys()[k])
       && ps[k] == MergedRow(RowOf(CantataKeys()[k], start, stop), Bwvs(CantataKeys()[k])))
  {
    forall k | 0 <= k < |ps|
      ensures IsMember(CantataKeys()[k])
      && ps[k] == MergedRow(RowOf(CantataKeys()[k], start, stop), Bwvs(CantataKeys()[k]))
    {
      var f := CantataKeys()[k];
      assert f in CantataKeys();
      KeysFromHas(0, f);
      PositionOfMember(f);
    }
  }

  /** No unlisted member reaches the merged frame: its `ident` is no key's name. */
  lemma UnlistedNeverMerged(f: Feast)
    requires IsMember(f) && Unlisted(f)
    ensures forall k :: k in CantataKeys() ==> Name(k) != Name(f)
  {
    KeysFromMembers(0);
    forall k | k in CantataKeys() ensures Name(k) != Name(f) {
      KeysAreMembers(k);
      if Name(k) == Name(f) {
        NameInjective(k, f);
      }
    }
  }
}
