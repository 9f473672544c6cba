/** The first renderer (render.py): a text drawn into a plain dict from the
    last week end backwards, its characters taken in reading order. */
module LegacyRender {
  import opened Wrappers
  import opened PyDict
  import opened Calendar
  import opened Glyphs
  import opened ForgeRender

  /** The index of the first character without a glyph. */
  function FirstUnsupported(s: string): (r: Option<nat>)
    ensures r.None? <==> forall k :: 0 <= k < |s| ==> Supported(s[k])
    ensures r.Some? ==> r.value < |s| && !Supported(s[r.value])
    ensures r.Some? ==> forall k :: 0 <= k < r.value ==> Supported(s[k])
  {
    if s == [] then None
    else if !Supported(s[0]) then Some(0)
    else
      var rest := FirstUnsupported(s[1..]);
      if rest.Some? then Some(rest.value + 1) else None
  }

  /** The glyphs of the first `i` characters, the latest first. */
  function Backwards(s: string, i: nat): (glyphs: seq<seq<int>>)
    requires i <= |s|
    requires forall k :: 0 <= k < i ==> Supported(s[k])
    ensures |glyphs| == i
    ensures forall k :: 0 <= k < i ==> |glyphs[k]| == 21
  {
    seq(i, k requires 0 <= k < i => GlyphOf(s[i - 1 - k]))
  }

  /** The text with its characters in the opposite order. */
  function Mirrored(s: string): (m: string)
    ensures |m| == |s|
  {
    seq(|s|, k requires 0 <= k < |s| => s[|s| - 1 - k])
  }

  /** `TextRenderer.render` of render.py: a `TypeError` for a non-string, a
      `ValueError` for the first unsupported character, and otherwise the
      blocks of the characters, the first character newest, placed up to
      the last week end before `now`. The `starting_date` argument plays no
      part. */
  function LegacyRendering(obj: PyObject, now: Day): (r: Result<Dict, RenderError>)
    ensures r.Ok? <==> obj.Str? && forall k :: 0 <= k < |obj.s| ==> Supported(obj.s[k])
    ensures obj.NonStr? ==> r == Err(TypeError)
  {
    match obj
    case NonStr => Err(TypeError)
    case Str(s) =>
      match FirstUnsupported(s)
      case Some(k) => Err(Unsupported(s[k]))
      case None => Ok(Placed(Blocks(Backwards(s, |s|)), LastWeekEnd(now)))
  }

  /** Walking forward over character `i` adds its block in front. */
  lemma BackwardsStep(s: string, i: nat)
    requires i < |s|
    requires forall k :: 0 <= k <= i ==> Supported(s[k])
    ensures Blocks(Backwards(s, i + 1)) == Zeros(7) + (GlyphOf(s[i]) + Blocks(Backwards(s, i)))
  {
    assert Backwards(s, i + 1)[1..] == Backwards(s, i);
  }

  /** The inner loops of render.py: walk `levels` from the last, putting
      each on the current date of the dict and stepping one day back. */
  method StepBackDict(d: Dict, levels: seq<int>, date: Day, ghost end: Day, ghost tail: seq<int>)
    returns (d': Dict, next: Day)
    requires d == Placed(tail, end)
    requires date == end - |tail|
    ensures d' == Placed(levels + tail, end)
    ensures next == date - |levels|
  {
    d', next := d, date;
    var i := |levels|;
    while i > 0
      invariant 0 <= i <= |levels|
      invariant next == date - (|levels| - i)
      invariant d' == Placed(levels[i..] + tail, end)
    {
      i := i - 1;
      PlacedStepBack(levels, i, tail, end);
      d' := Insert(d', next, levels[i]);
      next := next - 1;
    }
  }

  /** The loop of render.py: characters in reading order, each one's glyph
      from its last level to its first, then 7 blank days, one day back per
      level, starting from the last week end whatever `startingDate` is. */
  method Render(obj: PyObject, startingDate: Day, now: Day) returns (r: Result<Dict, RenderError>)
    ensures r == LegacyRendering(obj, now)
  {
    if obj.NonStr? {
      return Err(TypeError);
    }
    var s := obj.s;
    var date := LastWeekEnd(now);
    ghost var end := date;
    var dataLevelMap := Empty();
    assert Placed([], end) == Empty();
    var i := 0;
    while i < |s|
      invariant 0 <= i <= |s|
      invariant forall k :: 0 <= k < i ==> Supported(s[k])
      invariant date == end - 28 * i
      invariant dataLevelMap == Placed(Blocks(Backwards(s, i)), end)
    {
      var c := s[i];
      var glyph := Glyph(c);
      if glyph.None? {
        return Err(Unsupported(c));
      }
      var dataLevels := glyph.value;
      ghost var tail := Blocks(Backwards(s, i));
      dataLevelMap, date := StepBackDict(dataLevelMap, dataLevels, date, end, tail);
      dataLevelMap, date := StepBackDict(dataLevelMap, Zeros(7), date, end, dataLevels + tail);
      BackwardsStep(s, i);
      i := i + 1;
    }
    r := Ok(dataLevelMap);
  }

  /** The first renderer draws a text as the current one draws it mirrored,
      anchored at the last week end: the first character lands on the
      newest days, so the picture reads right to left. */
  lemma LegacyMirrorsCurrent(s: string, startingDate: Day, now: Day)
    requires forall k :: 0 <= k < |s| ==> Supported(s[k])
    ensures LegacyRendering(Str(s), now) == TextRendering(Str(Mirrored(s)), None, now)
  {
    var m := Mirrored(s);
    assert forall k :: 0 <= k < |m| ==> Supported(m[k]);
    assert Backwards(s, |s|) == seq(|m|, k requires 0 <= k < |m| => GlyphOf(m[k]));
  }

  /** The day `o` days before the newest day of the block of character
      `i`, counting blocks back from `end`. */
  function LegacyCellDay(end: Day, i: nat, o: nat): Day
  {
    end - 28 * i - o
  }

  /** Blocks listed latest first, placed up to `end`: the `i`-th from the
      end of the list ends `28i` days before `end`. */
  lemma PlacedBackwards(glyphs: seq<seq<int>>, end: Day)
    requires forall k :: 0 <= k < |glyphs| ==> |glyphs[k]| == 21
    ensures forall i, o :: 0 <= i < |glyphs| && 0 <= o < 28 ==>
      LegacyCellDay(end, i, o) in Placed(Blocks(glyphs), end).values &&
      Placed(Blocks(glyphs), end).values[LegacyCellDay(end, i, o)]
        == if o < 21 then glyphs[|glyphs| - 1 - i][20 - o] else 0
  {
    var n := |glyphs|;
    PlacedBlocks(glyphs, end);
    forall i, o | 0 <= i < n && 0 <= o < 28
      ensures LegacyCellDay(end, i, o) in Placed(Blocks(glyphs), end).values &&
        Placed(Blocks(glyphs), end).values[LegacyCellDay(end, i, o)]
        == if o < 21 then glyphs[n - 1 - i][20 - o] else 0
    {
      assert LegacyCellDay(end, i, o) == CellDay(end, n, n - 1 - i, o);
    }
  }

  /** Character `i` of an `n`-character text occupies the 28 days ending
      `28i` days before the last week end: the glyph on the newest 21 of
      them, in order, and the 7 days before it blank. */
  lemma LegacyLayout(s: string, now: Day)
    requires forall k :: 0 <= k < |s| ==> Supported(s[k])
    ensures var r := LegacyRendering(Str(s), now);
      var end := LastWeekEnd(now);
      var n := |s|;
      && r.Ok?
      && |r.value.values| == 28 * n
      && (forall day :: day in r.value.values <==> end - 28 * n < day <= end)
      && (forall i, o :: 0 <= i < n && 0 <= o < 28 ==>
            r.value.values[LegacyCellDay(end, i, o)] == if o < 21 then GlyphOf(s[i])[20 - o] else 0)
  {
    var glyphs := Backwards(s, |s|);
    PlacedBlocks(glyphs, LastWeekEnd(now));
    PlacedBackwards(glyphs, LastWeekEnd(now));
  }

  /** Rendering fails exactly on a non-string or a text with an unsupported
      character, and then names the first such character. */
  lemma LegacyRejects(obj: PyObject, now: Day)
    ensures LegacyRendering(obj, now).Err? <==>
      obj.NonStr? || exists k :: 0 <= k < |obj.s| && !Supported(obj.s[k])
    ensures obj.NonStr? ==> LegacyRendering(obj, now) == Err(TypeError)
    ensures obj.Str? && LegacyRendering(obj, now).Err? ==>
      exists k :: 0 <= k < |obj.s| && LegacyRendering(obj, now).error == Unsupported(obj.s[k])
        && !Supported(obj.s[k]) && forall m :: 0 <= m < k ==> Supported(obj.s[m])
  {
  }
}
