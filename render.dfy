/** The current renderer (forgehub/render.py): the `DataLevelMap` class,
    rendering a level sequence or a text backwards from an end date, and
    the 7-row text picture of a map. */
module ForgeRender {
  import opened Wrappers
  import opened PyDict
  import opened Calendar
  import opened Glyphs
  import Text

  datatype KeyError = KeyError

  /** The `ValueError` of `__str__`, naming the offending level. */
  datatype InvalidLevel = InvalidLevel(level: int)

  /** What `render` may be handed: a `str`, or any other object. */
  datatype PyObject = Str(s: string) | NonStr

  datatype RenderError =
    | TypeError                   // the object is not a string
    | Unsupported(c: char)        // a character without a glyph

  // ---------------------------------------------------------------------
  // The 7-row picture: levels dealt column by column onto 7 rows.

  /** The character `__str__` draws for a level, None for an invalid one. */
  function LevelChar(level: int): Option<char>
  {
    match level
    case 0 => Some(' ')
    case 1 => Some('-')
    case 2 => Some('=')
    case 3 => Some('H')
    case 4 => Some('#')
    case _ => None
  }

  predicate ValidLevels(levels: seq<int>)
  {
    forall k :: 0 <= k < |levels| ==> LevelChar(levels[k]).Some?
  }

  /** How many of `n` dealt items land on row `i`. */
  function RowLen(n: nat, i: nat): nat
  {
    n / 7 + (if i < n % 7 then 1 else 0)
  }

  /** Item `j` of row `i` exists exactly when `7j + i` is a position. */
  lemma RowLenBound(n: nat, i: nat, j: nat)
    requires i < 7
    ensures j < RowLen(n, i) <==> 7 * j + i < n
  {
    var q, r := n / 7, n % 7;
    assert n == 7 * q + r;
    if j < q {
      assert 7 * j + i < 7 * q;
    } else if j > q {
      assert 7 * j >= 7 * q + 7;
    }
  }

  /** Deal `cs` round-robin onto 7 rows: row `i` holds `cs[i], cs[i + 7],
      cs[i + 14], ...`. */
  function Deal(cs: seq<char>): (rows: seq<string>)
    ensures |rows| == 7
  {
    seq(7, i requires 0 <= i < 7 =>
      seq(RowLen(|cs|, i), j requires 0 <= j < RowLen(|cs|, i) =>
        RowLenBound(|cs|, i, j); cs[7 * j + i]))
  }

  /** Dealing one more item appends it to row `|cs| % 7`. */
  lemma DealSnoc(cs: seq<char>, c: char)
    ensures Deal(cs + [c]) == Deal(cs)[|cs| % 7 := Deal(cs)[|cs| % 7] + [c]]
  {
    var n := |cs|;
    var q, r := n / 7, n % 7;
    assert n == 7 * q + r;
    var a, b := Deal(cs + [c]), Deal(cs)[r := Deal(cs)[r] + [c]];
    forall i | 0 <= i < 7 ensures a[i] == b[i] {
      if r < 6 {
        assert (n + 1) / 7 == q && (n + 1) % 7 == r + 1;
      } else {
        assert (n + 1) / 7 == q + 1 && (n + 1) % 7 == 0;
      }
      assert |a[i]| == |b[i]|;
      forall j | 0 <= j < |a[i]| ensures a[i][j] == b[i][j] {
        RowLenBound(n, i, j);
        RowLenBound(n + 1, i, j);
      }
    }
  }

  /** The characters of valid levels. */
  function Chars(levels: seq<int>): (cs: seq<char>)
    requires ValidLevels(levels)
    ensures |cs| == |levels|
  {
    seq(|levels|, k requires 0 <= k < |levels| => LevelChar(levels[k]).value)
  }

  /** The first invalid level, if any. */
  function FirstInvalid(levels: seq<int>): Option<int>
  {
    if levels == [] then None
    else if LevelChar(levels[0]).None? then Some(levels[0])
    else FirstInvalid(levels[1..])
  }

  lemma {:induction false} FirstInvalidNone(levels: seq<int>)
    ensures FirstInvalid(levels).None? <==> ValidLevels(levels)
  {
    if levels != [] {
      FirstInvalidNone(levels[1..]);
      assert forall k :: 1 <= k < |levels| ==> levels[k] == levels[1..][k - 1];
    }
  }

  /** `__str__` of a map whose levels, in date order, are `levels`. */
  function Show(levels: seq<int>): (r: Result<string, InvalidLevel>)
    ensures r.Ok? <==> ValidLevels(levels)
    ensures r.Err? ==> r.error.level in levels && !(0 <= r.error.level <= 4)
  {
    FirstInvalidNone(levels);
    FirstInvalidIsInvalid(levels);
    match FirstInvalid(levels)
    case Some(l) => Err(InvalidLevel(l))
    case None =>
      Ok(Text.Join(Deal(Chars(levels)), '\n'))
  }

  /** The picture has 7 lines; line `i` holds `n / 7` characters, one more
      when `i < n % 7`, and its `j`-th character draws level `7j + i`; it
      fails exactly when some level is outside 0..4, naming the first one
      in date order. */
  lemma ShowRows(levels: seq<int>)
    ensures Show(levels).Err? <==> exists k :: 0 <= k < |levels| && !(0 <= levels[k] <= 4)
    ensures Show(levels).Err? ==> Show(levels).error.level in levels
    ensures Show(levels).Err? ==> !(0 <= Show(levels).error.level <= 4)
    ensures Show(levels).Err? ==>
      exists k :: && 0 <= k < |levels| && Show(levels).error.level == levels[k]
                  && forall m :: 0 <= m < k ==> 0 <= levels[m] <= 4
    ensures Show(levels).Ok? ==>
      var rows := Text.Split(Show(levels).value, '\n');
      var n := |levels|;
      && |rows| == 7
      && (forall i :: 0 <= i < 7 ==> |rows[i]| == n / 7 + (if i < n % 7 then 1 else 0))
      && (forall i, j :: 0 <= i < 7 && 0 <= j < |rows[i]| ==>
            7 * j + i < n && rows[i][j] == LevelChar(levels[7 * j + i]).value)
  {
    FirstInvalidNone(levels);
    FirstInvalidIsInvalid(levels);
    if FirstInvalid(levels).Some? {
      var k := FirstInvalidAt(levels);
    }
    if FirstInvalid(levels).None? {
      var rows := Deal(Chars(levels));
      forall i | 0 <= i < 7 ensures '\n' !in rows[i] {
        forall j | 0 <= j < |rows[i]| ensures rows[i][j] != '\n' {
          RowLenBound(|levels|, i, j);
        }
      }
      Text.SplitJoin(rows, '\n');
      forall i, j | 0 <= i < 7 && 0 <= j < |rows[i]|
        ensures 7 * j + i < |levels| && rows[i][j] == LevelChar(levels[7 * j + i]).value
      {
        RowLenBound(|levels|, i, j);
      }
    }
  }

  /** The first invalid level is the one at the least invalid position. */
  lemma {:induction false} FirstInvalidAt(levels: seq<int>) returns (k: nat)
    requires FirstInvalid(levels).Some?
    ensures k < |levels| && FirstInvalid(levels).value == levels[k]
    ensures forall m :: 0 <= m < k ==> LevelChar(levels[m]).Some?
  {
    if LevelChar(levels[0]).None? {
      k := 0;
    } else {
      var k' := FirstInvalidAt(levels[1..]);
      k := k' + 1;
      assert forall m :: 1 <= m < k ==> levels[m] == levels[1..][m - 1];
    }
  }

  lemma {:induction false} FirstInvalidIsInvalid(levels: seq<int>)
    ensures FirstInvalid(levels).Some? ==>
      FirstInvalid(levels).value in levels && LevelChar(FirstInvalid(levels).value).None?
  {
    if levels != [] && LevelChar(levels[0]).Some? {
      FirstInvalidIsInvalid(levels[1..]);
    }
  }

  // ---------------------------------------------------------------------
  // Levels placed on consecutive days.

  function Zeros(n: nat): seq<int>
  {
    seq(n, _ => 0)
  }

  /** `levels` laid on the `|levels|` days ending at `end`: level `k` on day
      `end - (|levels| - 1 - k)`, the days inserted newest first. */
  function Placed(levels: seq<int>, end: Day): (d: Dict)
    ensures |d.keys| == |levels|
    ensures forall day :: day in d.values ==> end - |levels| < day <= end
  {
    var n := |levels|;
    var keys := seq(n, i requires 0 <= i < n => end - i);
    var values := map day | day in keys :: levels[n - 1 - (end - day)];
    RawDict(keys, values)
  }

  /** Placing one older level before a placement inserts its day last. */
  lemma PlacedPrepend(levels: seq<int>, v: int, end: Day)
    ensures Insert(Placed(levels, end), end - |levels|, v) == Placed([v] + levels, end)
  {
    var a, b := Insert(Placed(levels, end), end - |levels|, v), Placed([v] + levels, end);
    PlacedPrependKeys(levels, v, end);
    PlacedPrependValues(levels, v, end);
    assert a == RawDict(a.keys, a.values);
  }

  lemma PlacedPrependKeys(levels: seq<int>, v: int, end: Day)
    ensures end - |levels| !in Placed(levels, end).values
    ensures Placed(levels, end).keys + [end - |levels|] == Placed([v] + levels, end).keys
  {
    var n := |levels|;
    var p, b := Placed(levels, end), Placed([v] + levels, end);
    var a := p.keys + [end - n];
    assert |a| == |b.keys|;
    forall i | 0 <= i < |a| ensures a[i] == b.keys[i] {
    }
  }

  lemma PlacedPrependValues(levels: seq<int>, v: int, end: Day)
    ensures Placed(levels, end).values[end - |levels| := v] == Placed([v] + levels, end).values
  {
    var n := |levels|;
    var p, b := Placed(levels, end), Placed([v] + levels, end);
    var a := p.values[end - n := v];
    forall day ensures day in a <==> day in b.values {
      if end - n <= day <= end {
        assert b.keys[end - day] == day;
        if day != end - n {
          assert p.keys[end - day] == day;
        }
      }
    }
    forall day | day in a ensures a[day] == b.values[day] {
      if day != end - n {
        assert a[day] == levels[n - 1 - (end - day)];
      }
    }
  }

  lemma {:induction false} DistinctSeqCard(keys: seq<int>)
    requires forall i, j :: 0 <= i < j < |keys| ==> keys[i] != keys[j]
    ensures |set k | k in keys| == |keys|
  {
    if keys != [] {
      var last := keys[|keys| - 1];
      var init := keys[..|keys| - 1];
      DistinctSeqCard(init);
      assert (set k | k in keys) == (set k | k in init) + {last};
      assert last !in (set k | k in init);
    }
  }

  /** A placement covers exactly the `|levels|` consecutive days ending at
      `end`, lists them newest first, and puts level `k` on day
      `end - (|levels| - 1 - k)`, so the first level is the oldest. */
  lemma PlacedDays(levels: seq<int>, end: Day)
    ensures var d := Placed(levels, end);
      && |d.values| == |levels|
      && (forall day :: day in d.values <==> end - |levels| < day <= end)
      && (forall i :: 0 <= i < |d.keys| ==> d.keys[i] == end - i)
      && (forall k :: 0 <= k < |levels| ==> d.values[end - (|levels| - 1 - k)] == levels[k])
  {
    var d := Placed(levels, end);
    DistinctSeqCard(d.keys);
    forall day | end - |levels| < day <= end ensures day in d.values {
      assert d.keys[end - day] == day;
    }
  }

  /** Sorting a placement by date gives back the placed levels. */
  lemma PlacedDateSorted(levels: seq<int>, end: Day)
    ensures DateSortedLevels(Placed(levels, end)) == levels
  {
    var d := Placed(levels, end);
    var items := Items(d);
    var n := |levels|;
    assert StrictlyDescending(items);
    SortDescending(items);
    var sorted := SortByDate(items);
    forall k | 0 <= k < n ensures sorted[k].1 == levels[k] {
      ReverseAt(items, k);
    }
  }

  // ---------------------------------------------------------------------
  // Text rendering.

  /** Consecutive blocks, each 7 blank days followed by one glyph. */
  function Blocks(glyphs: seq<seq<int>>): (levels: seq<int>)
    requires forall k :: 0 <= k < |glyphs| ==> |glyphs[k]| == 21
    ensures |levels| == 28 * |glyphs|
  {
    if glyphs == [] then [] else Zeros(7) + glyphs[0] + Blocks(glyphs[1..])
  }

  /** Block `i` starts at `28 * i`: 7 zeros, then glyph `i`. */
  lemma {:induction false} BlocksLayout(glyphs: seq<seq<int>>, i: nat)
    requires forall k :: 0 <= k < |glyphs| ==> |glyphs[k]| == 21
    requires i < |glyphs|
    ensures forall p :: 28 * i <= p < 28 * i + 7 ==> Blocks(glyphs)[p] == 0
    ensures forall p :: 28 * i + 7 <= p < 28 * i + 28 ==> Blocks(glyphs)[p] == glyphs[i][p - 28 * i - 7]
  {
    if i > 0 {
      BlocksLayout(glyphs[1..], i - 1);
      var rest := Blocks(glyphs[1..]);
      assert forall p :: 28 <= p < 28 * |glyphs| ==> Blocks(glyphs)[p] == rest[p - 28];
    }
  }

  /** The levels of a text, oldest first: each character contributes a
      blank week of 7 zero days followed by its 21 glyph levels. */
  function TextLevels(s: string): (levels: seq<int>)
    requires forall k :: 0 <= k < |s| ==> Supported(s[k])
    ensures |levels| == 28 * |s|
  {
    Blocks(seq(|s|, k requires 0 <= k < |s| => GlyphOf(s[k])))
  }

  /** The text's levels are its first character's block, then the rest's. */
  lemma TextLevelsCons(s: string)
    requires forall k :: 0 <= k < |s| ==> Supported(s[k])
    requires s != []
    ensures TextLevels(s) == Zeros(7) + GlyphOf(s[0]) + TextLevels(s[1..])
  {
    var glyphs := seq(|s|, k requires 0 <= k < |s| => GlyphOf(s[k]));
    assert glyphs[1..] == seq(|s| - 1, k requires 0 <= k < |s| - 1 => GlyphOf(s[1..][k]));
  }

  /** Walking back over character `i` adds its block in front. */
  lemma TextLevelsStep(s: string, i: nat)
    requires i < |s|
    requires forall k :: i <= k < |s| ==> Supported(s[k])
    ensures TextLevels(s[i..]) == Zeros(7) + (GlyphOf(s[i]) + TextLevels(s[i + 1..]))
  {
    assert s[i..][1..] == s[i + 1..];
    TextLevelsCons(s[i..]);
  }

  /** The index of the last character without a glyph: the first one met
      when the text is walked from its end. */
  function LastUnsupported(s: string): (r: Option<nat>)
    ensures r.None? <==> forall k :: 0 <= k < |s| ==> Supported(s[k])
    ensures r.Some? ==> r.value < |s| && !Supported(s[r.value])
    ensures r.Some? ==> forall k :: r.value < k < |s| ==> Supported(s[k])
  {
    if s == [] then None
    else if !Supported(s[|s| - 1]) then Some(|s| - 1)
    else LastUnsupported(s[..|s| - 1])
  }

  /** `TextRenderer.render`: a `TypeError` for a non-string, a `ValueError`
      for the first unsupported character met from the end, and otherwise
      the text's levels placed so that the last day is the end date
      (`end_date`, or the last week end before `now`). */
  function TextRendering(obj: PyObject, endDate: Option<Day>, now: Day): (r: Result<Dict, RenderError>)
    ensures r.Ok? <==> obj.Str? && forall k :: 0 <= k < |obj.s| ==> Supported(obj.s[k])
    ensures obj.NonStr? ==> r == Err(TypeError)
    ensures r.Ok? ==> |r.value.keys| == 28 * |obj.s|
  {
    match obj
    case NonStr => Err(TypeError)
    case Str(s) =>
      match LastUnsupported(s)
      case Some(k) => Err(Unsupported(s[k]))
      case None => Ok(Placed(TextLevels(s), endDate.GetOr(LastWeekEnd(now))))
  }

  /** The day `o` days before the last day of the 28-day block of character
      `i` of an `n`-character text rendered up to `end`. */
  function CellDay(end: Day, n: nat, i: nat, o: nat): Day
  {
    end - 28 * (n - 1 - i) - o
  }

  /** Blocks placed up to `end`: block `i` of `n` is the 28 days ending
      `28(n - 1 - i)` days before `end`, its newest 21 days the glyph, in
      order, and the 7 days before them blank. */
  lemma {:induction false} PlacedBlocks(glyphs: seq<seq<int>>, end: Day)
    requires forall k :: 0 <= k < |glyphs| ==> |glyphs[k]| == 21
    ensures var d := Placed(Blocks(glyphs), end);
      var n := |glyphs|;
      && |d.values| == 28 * n
      && (forall day :: day in d.values <==> end - 28 * n < day <= end)
      && (forall i, o :: 0 <= i < n && 0 <= o < 28 ==>
            d.values[CellDay(end, n, i, o)] == if o < 21 then glyphs[i][20 - o] else 0)
  {
    var levels := Blocks(glyphs);
    var n := |glyphs|;
    PlacedDays(levels, end);
    forall i, o | 0 <= i < n && 0 <= o < 28
      ensures Placed(levels, end).values[CellDay(end, n, i, o)] == if o < 21 then glyphs[i][20 - o] else 0
    {
      PlacedCell(glyphs, end, i, o);
    }
  }

  /** One day of a placed block: `o` days before the block's last day. */
  lemma {:induction false} PlacedCell(glyphs: seq<seq<int>>, end: Day, i: nat, o: nat)
    requires forall k :: 0 <= k < |glyphs| ==> |glyphs[k]| == 21
    requires i < |glyphs| && o < 28
    ensures CellDay(end, |glyphs|, i, o) in Placed(Blocks(glyphs), end).values
    ensures Placed(Blocks(glyphs), end).values[CellDay(end, |glyphs|, i, o)]
      == if o < 21 then glyphs[i][20 - o] else 0
  {
    var levels := Blocks(glyphs);
    var n := |glyphs|;
    BlockOffsets(n, i);
    var p := 28 * i + 27 - o;
    assert CellDay(end, n, i, o) == end - (|levels| - 1 - p);
    PlacedAt(levels, end, p);
    BlockAt(glyphs, i, o);
  }

  /** Level `p` of a placement sits `|levels| - 1 - p` days before its end. */
  lemma PlacedAt(levels: seq<int>, end: Day, p: nat)
    requires p < |levels|
    ensures end - (|levels| - 1 - p) in Placed(levels, end).values
    ensures Placed(levels, end).values[end - (|levels| - 1 - p)] == levels[p]
  {
    PlacedDays(levels, end);
  }

  /** Day `o` back from the end of block `i` holds the glyph's level
      `20 - o`, or a blank in the block's first week. */
  lemma BlockAt(glyphs: seq<seq<int>>, i: nat, o: nat)
    requires forall k :: 0 <= k < |glyphs| ==> |glyphs[k]| == 21
    requires i < |glyphs| && o < 28
    ensures 28 * i + 27 - o < |Blocks(glyphs)|
    ensures Blocks(glyphs)[28 * i + 27 - o] == if o < 21 then glyphs[i][20 - o] else 0
  {
    BlockOffsets(|glyphs|, i);
    BlocksLayout(glyphs, i);
    var p := 28 * i + 27 - o;
    if o < 21 {
      assert p - 28 * i - 7 == 20 - o;
    }
  }

  /** The arithmetic of block offsets. */
  lemma BlockOffsets(n: nat, i: nat)
    requires i < n
    ensures 28 * i + 28 <= 28 * n
    ensures 28 * (n - 1 - i) == 28 * n - 28 * i - 28
  {
  }

  /** A rendered text of `n` characters covers the `28n` consecutive days
      ending at the end date, in one 28-day block per character with the
      first character oldest, so the text reads left to right. The newest 21
      days of a block carry its character's glyph, in order, and the 7 days
      before them are blank. */
  lemma RenderTextLayout(s: string, endDate: Option<Day>, now: Day)
    requires forall k :: 0 <= k < |s| ==> Supported(s[k])
    ensures var r := TextRendering(Str(s), endDate, now);
      var end := endDate.GetOr(LastWeekEnd(now));
      var n := |s|;
      && r.Ok?
      && |r.value.values| == 28 * n
      && (forall day :: day in r.value.values <==> end - 28 * n < day <= end)
      && (forall i, o :: 0 <= i < n && 0 <= o < 28 ==>
            r.value.values[CellDay(end, n, i, o)] == if o < 21 then GlyphOf(s[i])[20 - o] else 0)
  {
    PlacedBlocks(seq(|s|, k requires 0 <= k < |s| => GlyphOf(s[k])), endDate.GetOr(LastWeekEnd(now)));
  }

  /** Rendering fails, with no map, exactly on a non-string or a text with
      an unsupported character, and then names the last such character. */
  lemma RenderTextRejects(obj: PyObject, endDate: Option<Day>, now: Day)
    ensures TextRendering(obj, endDate, now).Err? <==>
      obj.NonStr? || exists k :: 0 <= k < |obj.s| && !Supported(obj.s[k])
    ensures obj.NonStr? ==> TextRendering(obj, endDate, now) == Err(TypeError)
    ensures obj.Str? && TextRendering(obj, endDate, now).Err? ==>
      exists k :: 0 <= k < |obj.s| && TextRendering(obj, endDate, now).error == Unsupported(obj.s[k])
        && !Supported(obj.s[k]) && forall m :: k < m < |obj.s| ==> Supported(obj.s[m])
  {
  }

  // ---------------------------------------------------------------------
  // The mutable map.

  /** `DataLevelMap`: a date to data level dict updated in place. */
  class DataLevelMap {
    var dateToDataLevel: Dict

    constructor ()
      ensures dateToDataLevel == Empty()
    {
      dateToDataLevel := Empty();
    }

    /** `__setitem__`. */
    method Set(key: Day, value: int)
      modifies this
      ensures dateToDataLevel == Insert(old(dateToDataLevel), key, value)
    {
      dateToDataLevel := Insert(dateToDataLevel, key, value);
    }

    /** `__getitem__`: the level of a stored date, a `KeyError` otherwise. */
    function Get(item: Day): (r: Result<int, KeyError>)
      reads this
      ensures r.Ok? <==> item in dateToDataLevel.values
      ensures r.Ok? ==> r.value == dateToDataLevel.values[item]
    {
      if item in dateToDataLevel.values then Ok(dateToDataLevel.values[item]) else Err(KeyError)
    }

    /** `items()`: the (date, level) pairs in insertion order. */
    function Items(): seq<(Day, int)>
      reads this
    {
      PyDict.Items(dateToDataLevel)
    }

    /** `scale_to_boundaries`: replace the dict by the comprehension that
        maps every level through `boundaries`; an `IndexError` leaves the
        map as it was. */
    method ScaleToBoundaries(boundaries: seq<int>) returns (r: Outcome<IndexError>)
      modifies this
      ensures r.Pass? <==> Scalable(boundaries, old(dateToDataLevel))
      ensures r.Pass? ==> dateToDataLevel == Scale(boundaries, old(dateToDataLevel)).value
      ensures r.Fail? ==> dateToDataLevel == old(dateToDataLevel)
    {
      var scaled := Scale(boundaries, dateToDataLevel);
      if scaled.Err? {
        return Fail(scaled.error);
      }
      dateToDataLevel := scaled.value;
      r := Pass;
    }

    /** `__str__`: pop the date-sorted levels one at a time onto 7 rows in
        turn, until the list runs out; an invalid level raises. */
    method ToString() returns (r: Result<string, InvalidLevel>)
      ensures r == Show(DateSortedLevels(dateToDataLevel))
    {
      var sortedDataLevels := DateSortedLevels(dateToDataLevel);
      r := DrawCalendar(sortedDataLevels);
    }
  }

  /** The loop of `__str__`: pop the levels one at a time onto 7 rows in
      turn, until the list runs out; an invalid level raises. */
  method DrawCalendar(levels: seq<int>) returns (r: Result<string, InvalidLevel>)
    ensures r == Show(levels)
  {
    var calendar: seq<string> := ["", "", "", "", "", "", ""];
    var sortedDataLevels := levels;
    ghost var drawn: seq<char> := [];
    assert Deal(drawn) == calendar;
    var exhausted := false;
    while !exhausted
      invariant Drawing(levels, drawn, sortedDataLevels, calendar)
      invariant !exhausted ==> |drawn| % 7 == 0
      invariant exhausted ==> sortedDataLevels == []
      decreases |sortedDataLevels|, !exhausted
    {
      ghost var before, week := |sortedDataLevels|, |drawn|;
      var i := 0;
      while i < 7 && !exhausted
        invariant 0 <= i <= 7
        invariant |sortedDataLevels| <= before
        invariant !exhausted ==> |sortedDataLevels| == before - i
        invariant Drawing(levels, drawn, sortedDataLevels, calendar)
        invariant !exhausted ==> |drawn| == week + i
        invariant exhausted ==> sortedDataLevels == []
        decreases 7 - i, !exhausted
      {
        if sortedDataLevels == [] {
          exhausted := true;
        } else {
          var level := sortedDataLevels[0];
          var drawnAs := LevelChar(level);
          if drawnAs.None? {
            DrawingStops(levels, drawn, sortedDataLevels, calendar);
            return Err(InvalidLevel(level));
          }
          var c := drawnAs.value;
          WeekDay(week, i);
          DrawOne(levels, drawn, sortedDataLevels, calendar, c);
          sortedDataLevels := sortedDataLevels[1..];
          calendar := calendar[i := calendar[i] + [c]];
          drawn := drawn + [c];
          i := i + 1;
        }
      }
      WeekDay(week, 0);
    }
    DrawingDone(levels, drawn, calendar);
    r := Ok(Text.Join(calendar, '\n'));
  }

  /** Day `i` of a week starting at a multiple of 7 falls on row `i`. */
  lemma WeekDay(week: nat, i: nat)
    requires week % 7 == 0 && i < 7
    ensures (week + i) % 7 == i && (week + 7) % 7 == 0
  {
  }

  /** Part way through `__str__`: the levels drawn so far are the first of
      all the sorted levels, each valid, dealt onto the rows; the rest are
      still to pop. */
  ghost predicate Drawing(all: seq<int>, drawn: seq<char>, rest: seq<int>, calendar: seq<string>)
  {
    && |drawn| + |rest| == |all|
    && rest == all[|drawn|..]
    && (forall k :: 0 <= k < |drawn| ==> LevelChar(all[k]) == Some(drawn[k]))
    && calendar == Deal(drawn)
  }

  /** Popping a valid level appends its character to row `|drawn| % 7`. */
  lemma DrawOne(all: seq<int>, drawn: seq<char>, rest: seq<int>, calendar: seq<string>, c: char)
    requires Drawing(all, drawn, rest, calendar)
    requires rest != [] && LevelChar(rest[0]) == Some(c)
    ensures |drawn| % 7 < |calendar|
    ensures Drawing(all, drawn + [c], rest[1..], calendar[|drawn| % 7 := calendar[|drawn| % 7] + [c]])
  {
    DealSnoc(drawn, c);
    assert all[|drawn|] == rest[0];
    assert all[|drawn + [c]|..] == rest[1..];
  }

  /** Popping an invalid level: it is the first invalid one. */
  lemma DrawingStops(all: seq<int>, drawn: seq<char>, rest: seq<int>, calendar: seq<string>)
    requires Drawing(all, drawn, rest, calendar)
    requires rest != [] && LevelChar(rest[0]).None?
    ensures Show(all) == Err(InvalidLevel(rest[0]))
  {
    FirstInvalidPrefix(all, |drawn|);
    assert all[|drawn|..][0] == rest[0];
  }

  /** Every level drawn: the rows are those of the picture. */
  lemma DrawingDone(all: seq<int>, drawn: seq<char>, calendar: seq<string>)
    requires Drawing(all, drawn, [], calendar)
    ensures Show(all) == Ok(Text.Join(calendar, '\n'))
  {
    FirstInvalidPrefix(all, |all|);
    FirstInvalidNone(all);
    assert drawn == Chars(all);
  }

  /** Past a prefix of valid levels, the first invalid level is the first
      invalid level of the rest. */
  lemma {:induction false} FirstInvalidPrefix(levels: seq<int>, p: nat)
    requires p <= |levels|
    requires forall k :: 0 <= k < p ==> LevelChar(levels[k]).Some?
    ensures FirstInvalid(levels) == FirstInvalid(levels[p..])
  {
    if p > 0 {
      FirstInvalidPrefix(levels[1..], p - 1);
      assert levels[1..][p - 1..] == levels[p..];
    }
  }

  /** The loop both renderers share: walk `levels` from the last, putting
      each on the current date and stepping one day back. Placed before an
      existing placement `tail`, the map becomes the placement of
      `levels + tail`. */
  method StepBack(m: DataLevelMap, levels: seq<int>, date: Day, ghost end: Day, ghost tail: seq<int>)
    returns (next: Day)
    requires m.dateToDataLevel == Placed(tail, end)
    requires date == end - |tail|
    modifies m
    ensures m.dateToDataLevel == Placed(levels + tail, end)
    ensures next == date - |levels|
  {
    next := date;
    var i := |levels|;
    while i > 0
      invariant 0 <= i <= |levels|
      invariant next == date - (|levels| - i)
      invariant m.dateToDataLevel == Placed(levels[i..] + tail, end)
    {
      i := i - 1;
      PlacedStepBack(levels, i, tail, end);
      m.Set(next, levels[i]);
      next := next - 1;
    }
  }

  /** One step of the walk back: level `i` goes on the day before the
      placement of the levels after it. */
  lemma PlacedStepBack(levels: seq<int>, i: nat, tail: seq<int>, end: Day)
    requires i < |levels|
    ensures Insert(Placed(levels[i + 1..] + tail, end), end - (|levels| - i - 1 + |tail|), levels[i])
      == Placed(levels[i..] + tail, end)
  {
    PlacedPrepend(levels[i + 1..] + tail, levels[i], end);
    assert [levels[i]] + (levels[i + 1..] + tail) == levels[i..] + tail;
  }

  /** `render_data_levels`: the levels placed on the days ending at
      `end_date`, or at the last week end before `now`. */
  method RenderDataLevels(levels: seq<int>, endDate: Option<Day>, now: Day) returns (m: DataLevelMap)
    ensures fresh(m)
    ensures m.dateToDataLevel == Placed(levels, endDate.GetOr(LastWeekEnd(now)))
  {
    var date := if endDate.Some? then endDate.value else LastWeekEnd(now);
    m := new DataLevelMap();
    assert Placed([], date) == Empty();
    var _ := StepBack(m, levels, date, date, []);
    assert levels + [] == levels;
  }

  /** `TextRenderer.render`: characters from last to first, each one's
      glyph from its last level to its first, then 7 blank days, one day
      back per level. */
  method RenderText(obj: PyObject, endDate: Option<Day>, now: Day) returns (r: Result<DataLevelMap, RenderError>)
    ensures r.Ok? <==> TextRendering(obj, endDate, now).Ok?
    ensures r.Ok? ==> fresh(r.value) && r.value.dateToDataLevel == TextRendering(obj, endDate, now).value
    ensures r.Err? ==> r.error == TextRendering(obj, endDate, now).error
  {
    if obj.NonStr? {
      return Err(TypeError);
    }
    var s := obj.s;
    var date := if endDate.Some? then endDate.value else LastWeekEnd(now);
    ghost var end := date;
    var m := new DataLevelMap();
    assert Placed([], end) == Empty();
    var i := |s|;
    while i > 0
      invariant 0 <= i <= |s|
      invariant forall k :: i <= k < |s| ==> Supported(s[k])
      invariant date == end - 28 * (|s| - i)
      invariant fresh(m)
      invariant m.dateToDataLevel == Placed(TextLevels(s[i..]), end)
    {
      i := i - 1;
      var c := s[i];
      var glyph := Glyph(c);
      if glyph.None? {
        RenderingStopsAt(s, i, endDate, now);
        return Err(Unsupported(c));
      }
      var dataLevels := glyph.value;
      ghost var tail := TextLevels(s[i + 1..]);
      date := StepBack(m, dataLevels, date, end, tail);
      date := StepBack(m, Zeros(7), date, end, dataLevels + tail);
      TextLevelsStep(s, i);
    }
    RenderingPlaces(s, endDate, now);
    r := Ok(m);
  }

  /** The last unsupported character met walking back stops the rendering
      with its error. */
  lemma RenderingStopsAt(s: string, i: nat, endDate: Option<Day>, now: Day)
    requires i < |s| && !Supported(s[i])
    requires forall k :: i < k < |s| ==> Supported(s[k])
    ensures TextRendering(Str(s), endDate, now) == Err(Unsupported(s[i]))
  {
    assert LastUnsupported(s) == Some(i);
  }

  /** A text of supported characters renders as the placement of its
      levels. */
  lemma RenderingPlaces(s: string, endDate: Option<Day>, now: Day)
    requires forall k :: 0 <= k < |s| ==> Supported(s[k])
    ensures s[0..] == s
    ensures TextRendering(Str(s), endDate, now) == Ok(Placed(TextLevels(s), endDate.GetOr(LastWeekEnd(now))))
  {
  }
}
