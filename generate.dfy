/** The pattern authoring tool (tools/generate.py): reads a picture drawn
    with the characters " -=H#" on at most 7 lines, column by column, into
    data levels, and prints them as a Python tuple, 7 values per line. It
    reads back what `DataLevelMap.__str__` draws. */
module Generate {
  import opened Wrappers
  import opened Text
  import opened ForgeRender
  import PyDict
  import Glyphs

  datatype GenError =
    | TooManyLines             // more than 7 source lines: a message, no tuple
    | InvalidLevelChar(c: char) // `DataLevel(c)` raises `ValueError`

  // ---------------------------------------------------------------------
  // Characters to levels.

  /** `int(DataLevel(c))`: " -=H#" are the levels 0 to 4; any other
      character is no `DataLevel`. */
  function DataLevelOf(c: char): (r: Option<int>)
    ensures r.Some? <==> c in " -=H#"
    ensures r.Some? ==> 0 <= r.value <= 4
  {
    match c
    case ' ' => Some(0)
    case '-' => Some(1)
    case '=' => Some(2)
    case 'H' => Some(3)
    case '#' => Some(4)
    case _ => None
  }

  /** Reading a character is the inverse of drawing a level. */
  lemma DataLevelOfInvertsLevelChar(c: char, level: int)
    ensures DataLevelOf(c) == Some(level) <==> LevelChar(level) == Some(c)
    ensures DataLevelOf(c).Some? <==> c in " -=H#"
  {
  }

  /** `tuple(map(lambda s: int(DataLevel(s)), linear))`: every character
      read as its level, or a `ValueError` naming the first character that
      is no level. */
  function Levels(linear: string): (r: Result<seq<int>, GenError>)
    ensures r.Ok? <==> forall k :: 0 <= k < |linear| ==> linear[k] in " -=H#"
    ensures r.Ok? ==> |r.value| == |linear|
    ensures r.Ok? ==> forall k :: 0 <= k < |linear| ==> Some(r.value[k]) == DataLevelOf(linear[k])
    ensures r.Err? ==> exists i :: && 0 <= i < |linear| && r.error == InvalidLevelChar(linear[i])
                                  && linear[i] !in " -=H#"
                                  && forall k :: 0 <= k < i ==> linear[k] in " -=H#"
  {
    if linear == [] then Ok([])
    else match DataLevelOf(linear[0])
      case None => Err(InvalidLevelChar(linear[0]))
      case Some(level) =>
        match Levels(linear[1..])
        case Err(e) => Err(e)
        case Ok(rest) => Ok([level] + rest)
  }

  /** Reading the drawing of valid levels gives the levels back. */
  lemma {:induction false} LevelsOfChars(levels: seq<int>)
    requires ValidLevels(levels)
    ensures Levels(Chars(levels)) == Ok(levels)
  {
    if levels != [] {
      var rest := levels[1..];
      LevelsOfChars(rest);
      assert Chars(levels)[1..] == Chars(rest);
      DataLevelOfInvertsLevelChar(Chars(levels)[0], levels[0]);
      assert levels == [levels[0]] + rest;
    }
  }

  // ---------------------------------------------------------------------
  // `zip(*lines)`: the lines read column by column.

  /** The length of the shortest line. */
  function MinLen(lines: seq<string>): (m: nat)
    requires |lines| > 0
    ensures forall i :: 0 <= i < |lines| ==> m <= |lines[i]|
    ensures exists i :: 0 <= i < |lines| && m == |lines[i]|
  {
    if |lines| == 1 then |lines[0]|
    else
      var rest := MinLen(lines[1..]);
      if |lines[0]| <= rest then |lines[0]| else rest
  }

  /** Column `c`: character `c` of every line, top to bottom. */
  function Column(lines: seq<string>, c: nat): (col: string)
    requires forall i :: 0 <= i < |lines| ==> c < |lines[i]|
    ensures |col| == |lines|
  {
    seq(|lines|, i requires 0 <= i < |lines| => lines[i][c])
  }

  /** Columns `c` to `m - 1`, one after another. */
  function Columns(lines: seq<string>, c: nat, m: nat): string
    requires c <= m
    requires forall i :: 0 <= i < |lines| ==> m <= |lines[i]|
    decreases m - c
  {
    if c == m then [] else Column(lines, c) + Columns(lines, c + 1, m)
  }

  /** `"".join("".join(week) for week in zip(*lines))`: `zip` stops at the
      shortest line, and no lines give nothing. */
  function Linearize(lines: seq<string>): (r: string)
    ensures |r| == if lines == [] then 0 else MinLen(lines) * |lines|
  {
    if lines == [] then []
    else
      ColumnsLength(lines, 0, MinLen(lines));
      Columns(lines, 0, MinLen(lines))
  }

  lemma {:induction false} ColumnsLength(lines: seq<string>, c: nat, m: nat)
    requires c <= m
    requires forall i :: 0 <= i < |lines| ==> m <= |lines[i]|
    ensures |Columns(lines, c, m)| == (m - c) * |lines|
    decreases m - c
  {
    if c < m {
      ColumnsLength(lines, c + 1, m);
      var d := m - c;
      assert d * |lines| == |lines| + (d - 1) * |lines|;
    }
  }

  /** Character `i` of column `col` sits at `(col - c) * |lines| + i` among
      columns `c` to `m - 1`. */
  lemma {:induction false} ColumnsAt(lines: seq<string>, c: nat, m: nat, col: nat, i: nat)
    requires c <= col < m
    requires i < |lines|
    requires forall k :: 0 <= k < |lines| ==> m <= |lines[k]|
    ensures (col - c) * |lines| + i < |Columns(lines, c, m)|
    ensures Columns(lines, c, m)[(col - c) * |lines| + i] == lines[i][col]
    decreases m - c
  {
    var r := |lines|;
    var head, rest := Column(lines, c), Columns(lines, c + 1, m);
    assert Columns(lines, c, m) == head + rest;
    if col == c {
      assert (col - c) * r + i == i;
      assert head[i] == lines[i][col];
    } else {
      ColumnsAt(lines, c + 1, m, col, i);
      var d := col - c;
      MulStep(d, r);
      var at := (d - 1) * r + i;
      assert (col - c) * r + i == r + at;
      assert (head + rest)[r + at] == rest[at];
    }
  }

  lemma MulStep(d: nat, r: nat)
    requires d >= 1
    ensures d * r == r + (d - 1) * r
  {
  }

  /** Read column by column, character `i` of column `col` of the lines
      is at `col * |lines| + i`, and the text is `|lines|` times the
      shortest length long. */
  lemma {:induction false} LinearizeColumnMajor(lines: seq<string>, col: nat, i: nat)
    requires |lines| > 0
    requires col < MinLen(lines) && i < |lines|
    ensures |Linearize(lines)| == MinLen(lines) * |lines|
    ensures col * |lines| + i < |Linearize(lines)|
    ensures Linearize(lines)[col * |lines| + i] == lines[i][col]
  {
    var m, r := MinLen(lines), |lines|;
    ColumnsLength(lines, 0, m);
    ColumnsAt(lines, 0, m, col, i);
    assert (m - 0) * r == m * r;
    assert (col - 0) * r == col * r;
  }

  /** The tool's reading of a source, up to the tuple it prints. */
  function Mapped(source: string): (r: Result<seq<int>, GenError>)
    ensures |SplitLines(source)| > 7 ==> r == Err(TooManyLines)
    ensures var lines := SplitLines(source);
      r.Ok? ==> |lines| <= 7 && |r.value| == if lines == [] then 0 else MinLen(lines) * |lines|
  {
    var lines := SplitLines(source);
    if |lines| > 7 then Err(TooManyLines) else Levels(Linearize(lines))
  }

  /** The columns `zip` keeps, up to the shortest line, hold only level
      characters; characters past the shortest line are never read. */
  predicate Readable(lines: seq<string>)
  {
    lines == [] ||
    forall col, i :: 0 <= col < MinLen(lines) && 0 <= i < |lines| ==> lines[i][col] in " -=H#"
  }

  /** A position among `m` columns of `r` characters is one column and
      one line. */
  lemma ColumnMajorSplit(p: nat, r: nat, m: nat) returns (col: nat, i: nat)
    requires r > 0 && p < m * r
    ensures col < m && i < r && p == col * r + i
  {
    col, i := p / r, p % r;
  }

  /** The linear text holds only level characters exactly when the columns
      `zip` keeps do. */
  lemma LinearReadable(lines: seq<string>)
    ensures (forall k :: 0 <= k < |Linearize(lines)| ==> Linearize(lines)[k] in " -=H#") <==> Readable(lines)
  {
    if lines != [] && MinLen(lines) > 0 {
      if forall k :: 0 <= k < |Linearize(lines)| ==> Linearize(lines)[k] in " -=H#" {
        ReadableFromLinear(lines);
      }
      if Readable(lines) {
        LinearFromReadable(lines);
      }
    }
  }

  lemma ReadableFromLinear(lines: seq<string>)
    requires lines != []
    requires forall k :: 0 <= k < |Linearize(lines)| ==> Linearize(lines)[k] in " -=H#"
    ensures Readable(lines)
  {
    forall col, i | 0 <= col < MinLen(lines) && 0 <= i < |lines| ensures lines[i][col] in " -=H#" {
      LinearizeColumnMajor(lines, col, i);
    }
  }

  lemma LinearFromReadable(lines: seq<string>)
    requires lines != [] && MinLen(lines) > 0
    requires Readable(lines)
    ensures forall k :: 0 <= k < |Linearize(lines)| ==> Linearize(lines)[k] in " -=H#"
  {
    var m, r := MinLen(lines), |lines|;
    LinearizeColumnMajor(lines, 0, 0);
    forall k | 0 <= k < |Linearize(lines)| ensures Linearize(lines)[k] in " -=H#" {
      var col, i := ColumnMajorSplit(k, r, m);
      LinearizeColumnMajor(lines, col, i);
    }
  }

  /** The tool refuses a source exactly when it has more than 7 lines, or
      a character that is no level in the columns `zip` keeps, and then it
      names such a character. */
  lemma {:induction false} MappedFails(source: string)
    ensures var lines := SplitLines(source);
      && (Mapped(source).Err? <==> |lines| > 7 || !Readable(lines))
      && (|lines| > 7 ==> Mapped(source) == Err(TooManyLines))
      && (|lines| <= 7 && Mapped(source).Err? ==>
            exists col, i :: && 0 <= i < |lines| && 0 <= col < MinLen(lines)
                             && Mapped(source).error == InvalidLevelChar(lines[i][col])
                             && lines[i][col] !in " -=H#")
  {
    var lines := SplitLines(source);
    if |lines| <= 7 {
      LinearReadable(lines);
      var linear := Linearize(lines);
      if Levels(linear).Err? {
        var p :| 0 <= p < |linear| && Levels(linear).error == InvalidLevelChar(linear[p]) && linear[p] !in " -=H#";
        LinearizeColumnMajor(lines, 0, 0);
        var col, i := ColumnMajorSplit(p, |lines|, MinLen(lines));
        LinearizeColumnMajor(lines, col, i);
      }
    }
  }

  /** An accepted source of `r` lines gives `r` levels per kept column:
      line `i` of column `col` is value `col * r + i`. */
  lemma MappedValues(source: string, col: nat, i: nat)
    requires Mapped(source).Ok?
    requires 0 <= i < |SplitLines(source)| && col < MinLen(SplitLines(source))
    ensures |Mapped(source).value| == MinLen(SplitLines(source)) * |SplitLines(source)|
    ensures 0 <= col * |SplitLines(source)| + i < |Mapped(source).value|
    ensures col < |SplitLines(source)[i]|
    ensures Some(Mapped(source).value[col * |SplitLines(source)| + i]) == DataLevelOf(SplitLines(source)[i][col])
  {
    var lines := SplitLines(source);
    var linear := Linearize(lines);
    assert Mapped(source) == Levels(linear);
    LinearizeColumnMajor(lines, col, i);
    LevelsAt(linear, col * |lines| + i);
  }

  /** `zip` stops at the shortest line, so a character past it is never
      read: the `x` of `" x"` over `" "` does not make the source fail. */
  lemma ZipDropsLongerTail()
    ensures Mapped(" x\n ") == Ok([0, 0])
  {
    var lines := SplitLines(" x\n ");
    assert " x\n " == " x" + ['\n'] + " ";
    SplitPrefix(" x", '\n', " ");
    SplitWithoutSeparator(" ", '\n');
    assert lines == [" x", " "];
    assert MinLen(lines) == 1;
    assert Column(lines, 0) == "  ";
    assert Columns(lines, 1, 1) == [];
    assert Linearize(lines) == "  ";
    LevelsOfBlanks();
  }

  /** Two blanks read as two level-0 days. */
  lemma LevelsOfBlanks()
    ensures Levels("  ") == Ok([0, 0])
  {
    var zeros := [0, 0];
    assert ValidLevels(zeros);
    assert Chars(zeros) == "  ";
    LevelsOfChars(zeros);
  }

  /** The level read from position `p` of an accepted drawing. */
  lemma LevelsAt(linear: string, p: nat)
    requires Levels(linear).Ok? && p < |linear|
    ensures p < |Levels(linear).value| && Some(Levels(linear).value[p]) == DataLevelOf(linear[p])
  {
  }

  // ---------------------------------------------------------------------
  // Printing: `(v, v, ...)` with a newline after every 7th comma.

  /** Python `sep.join(parts)` for a separator string. */
  function JoinWith(parts: seq<string>, sep: string): string
  {
    if |parts| == 0 then []
    else if |parts| == 1 then parts[0]
    else parts[0] + sep + JoinWith(parts[1..], sep)
  }

  /** `f"({', '.join(str(n) for n in data_level)})"`. */
  function OneLine(levels: seq<int>): (r: string)
    ensures |r| >= 2 && r[0] == '(' && r[|r| - 1] == ')'
  {
    "(" + JoinWith(seq(|levels|, k requires 0 <= k < |levels| => IntToString(levels[k])), ", ") + ")"
  }

  predicate Increasing(ps: seq<nat>)
  {
    forall i, j :: 0 <= i < j < |ps| ==> ps[i] < ps[j]
  }

  /** `[m.start() for m in re.finditer(",", s)]`: the comma positions, in
      order. */
  function CommaPositions(s: string): (ps: seq<nat>)
    ensures Increasing(ps)
    ensures forall j :: 0 <= j < |ps| ==> ps[j] < |s| && s[ps[j]] == ','
  {
    if s == [] then []
    else
      var init := CommaPositions(s[..|s| - 1]);
      if s[|s| - 1] == ',' then init + [|s| - 1] else init
  }

  /** Every comma of the text is listed. */
  lemma {:induction false} CommaPositionsComplete(s: string, p: nat)
    requires p < |s| && s[p] == ','
    ensures p in CommaPositions(s)
  {
    if p < |s| - 1 {
      CommaPositionsComplete(s[..|s| - 1], p);
    }
  }

  /** `ps[6::7]`: the 7th, 14th, ... element. */
  function EverySeventh(ps: seq<nat>): (e: seq<nat>)
    ensures |e| == |ps| / 7
    ensures forall k :: 0 <= k < |e| ==> e[k] == ps[7 * k + 6]
  {
    if |ps| < 7 then []
    else
      var rest := EverySeventh(ps[7..]);
      assert forall k :: 0 <= k < |rest| ==> rest[k] == ps[7 * (k + 1) + 6];
      [ps[6]] + rest
  }

  /** `s` with a newline inserted right after each position of `qs`. */
  function Wrapped(s: string, qs: seq<nat>): (w: string)
    requires Increasing(qs)
    requires forall k :: 0 <= k < |qs| ==> qs[k] < |s|
    ensures |w| == |s| + |qs|
    decreases |qs|
  {
    if qs == [] then s
    else
      var q := qs[|qs| - 1];
      Wrapped(s[..q + 1], qs[..|qs| - 1]) + "\n" + s[q + 1..]
  }

  /** The positions after which the printed tuple breaks: its 7th, 14th, ...
      comma. */
  function Breaks(s: string): (qs: seq<nat>)
    ensures Increasing(qs)
    ensures forall k :: 0 <= k < |qs| ==> qs[k] < |s| && s[qs[k]] == ','
    ensures |qs| == |CommaPositions(s)| / 7
  {
    var ps := CommaPositions(s);
    var e := EverySeventh(ps);
    assert forall i, j :: 0 <= i < j < |e| ==> 7 * i + 6 < 7 * j + 6;
    e
  }

  /** What `display_data_level` prints. */
  function Displayed(levels: seq<int>, oneline: bool): (r: string)
    ensures |r| == |OneLine(levels)| + if oneline then 0 else |CommaPositions(OneLine(levels))| / 7
  {
    var s := OneLine(levels);
    if oneline then s else Wrapped(s, Breaks(s))
  }

  /** Wrapping ends with the text after the last break, unchanged. */
  lemma {:induction false} WrappedUnfold(s: string, qs: seq<nat>)
    requires Increasing(qs)
    requires forall k :: 0 <= k < |qs| ==> qs[k] < |s|
    requires qs != []
    ensures qs[|qs| - 1] < |s|
    ensures Increasing(qs[..|qs| - 1])
    ensures forall k :: 0 <= k < |qs| - 1 ==> qs[k] < qs[|qs| - 1] + 1
    ensures Wrapped(s, qs) == Wrapped(s[..qs[|qs| - 1] + 1], qs[..|qs| - 1]) + "\n" + s[qs[|qs| - 1] + 1..]
  {
  }

  lemma Assoc3(a: string, b: string, c: string, d: string)
    ensures a + b + (c + d) == (a + b + c) + d
  {
  }

  lemma {:induction false} WrappedExtend(s: string, qs: seq<nat>, m: nat)
    requires Increasing(qs)
    requires forall k :: 0 <= k < |qs| ==> qs[k] < m
    requires m <= |s|
    ensures Wrapped(s, qs) == Wrapped(s[..m], qs) + s[m..]
  {
    var t := s[..m];
    if qs == [] {
      assert s == t + s[m..];
    } else {
      WrappedUnfold(s, qs);
      WrappedUnfold(t, qs);
      var q := qs[|qs| - 1];
      var init := qs[..|qs| - 1];
      assert t[..q + 1] == s[..q + 1];
      assert s[q + 1..] == t[q + 1..] + s[m..];
      Assoc3(Wrapped(s[..q + 1], init), "\n", t[q + 1..], s[m..]);
    }
  }

  /** `s` with newlines inserted after its first `n` breaks only. */
  function WrappedUpTo(s: string, qs: seq<nat>, n: nat): (w: string)
    requires Increasing(qs)
    requires forall k :: 0 <= k < |qs| ==> qs[k] < |s|
    requires n <= |qs|
    ensures |w| == |s| + n
  {
    assert forall i, j :: 0 <= i < j < n ==> qs[..n][i] == qs[i] && qs[..n][j] == qs[j];
    Wrapped(s, qs[..n])
  }

  /** Inserting a newline right after break `offset`, shifted by the
      `offset` newlines already inserted, wraps at one more break. */
  lemma {:induction false} InsertBreak(s: string, qs: seq<nat>, offset: nat)
    requires Increasing(qs)
    requires forall k :: 0 <= k < |qs| ==> qs[k] < |s|
    requires offset < |qs|
    ensures var w := WrappedUpTo(s, qs, offset); var at := offset + qs[offset] + 1;
      && at <= |w|
      && WrappedUpTo(s, qs, offset + 1) == w[..at] + "\n" + w[at..]
  {
    var pre, i := qs[..offset], qs[offset];
    assert WrappedUpTo(s, qs, offset) == Wrapped(s, pre);
    WrappedExtend(s, pre, i + 1);
    var head := Wrapped(s[..i + 1], pre);
    assert |head| == i + 1 + offset;
    var w := Wrapped(s, pre);
    assert w[..offset + i + 1] == head && w[offset + i + 1..] == s[i + 1..];
    WrappedUnfold(s, qs[..offset + 1]);
    assert qs[..offset + 1][..offset] == pre;
  }

  /** Wrapping at all the breaks, one at a time, is wrapping at the whole
      list. */
  lemma WrappedUpToAll(s: string, qs: seq<nat>)
    requires Increasing(qs)
    requires forall k :: 0 <= k < |qs| ==> qs[k] < |s|
    ensures WrappedUpTo(s, qs, |qs|) == Wrapped(s, qs)
  {
    assert qs[..|qs|] == qs;
  }

  /** `display_data_level`: build the one-line text, then, unless one line
      is asked for, insert a newline after every 7th comma, each insertion
      shifting the later positions by one. */
  method DisplayDataLevel(levels: seq<int>, oneline: bool) returns (out: string)
    ensures out == Displayed(levels, oneline)
  {
    var stringBuilder := OneLine(levels);
    if oneline {
      return stringBuilder;
    }
    ghost var s := stringBuilder;
    var newlines := Breaks(stringBuilder);
    for offset := 0 to |newlines|
      invariant stringBuilder == WrappedUpTo(s, newlines, offset)
    {
      var i := newlines[offset];
      InsertBreak(s, newlines, offset);
      stringBuilder := stringBuilder[..offset + i + 1] + "\n" + stringBuilder[offset + i + 1..];
    }
    WrappedUpToAll(s, newlines);
    out := stringBuilder;
  }

  /** Piece `k` of `s` cut after each position of `qs`. */
  function Cut(s: string, qs: seq<nat>, k: nat): string
    requires Increasing(qs)
    requires forall j :: 0 <= j < |qs| ==> qs[j] < |s|
    requires k <= |qs|
  {
    var from := if k == 0 then 0 else qs[k - 1] + 1;
    var to := if k == |qs| then |s| else qs[k] + 1;
    s[from..to]
  }

  /** Cutting a prefix that ends right after the last position keeps the
      pieces before it. */
  lemma {:induction false} CutPrefix(s: string, qs: seq<nat>, k: nat)
    requires Increasing(qs) && |qs| > 0
    requires forall j :: 0 <= j < |qs| ==> qs[j] < |s|
    requires k < |qs|
    ensures Cut(s[..qs[|qs| - 1] + 1], qs[..|qs| - 1], k) == Cut(s, qs, k)
  {
  }

  /** Splitting a wrapped text at its newlines: the lines of the text
      before the last break, then the rest after it. */
  lemma {:induction false} WrappedSplitStep(s: string, qs: seq<nat>)
    requires '\n' !in s
    requires Increasing(qs) && qs != []
    requires forall k :: 0 <= k < |qs| ==> qs[k] < |s|
    ensures var q := qs[|qs| - 1];
      && q < |s| && Increasing(qs[..|qs| - 1])
      && (forall k :: 0 <= k < |qs| - 1 ==> qs[k] < q + 1)
      && '\n' !in s[..q + 1]
      && Split(Wrapped(s, qs), '\n') == Split(Wrapped(s[..q + 1], qs[..|qs| - 1]), '\n') + [s[q + 1..]]
  {
    var q := qs[|qs| - 1];
    WrappedUnfold(s, qs);
    var head, tail := s[..q + 1], s[q + 1..];
    assert '\n' !in head && '\n' !in tail;
    SplitConcat(Wrapped(head, qs[..|qs| - 1]), '\n', tail);
    SplitWithoutSeparator(tail, '\n');
  }

  /** A text wrapped at `n` breaks has `n + 1` lines. */
  lemma {:induction false} WrappedLineCount(s: string, qs: seq<nat>)
    requires '\n' !in s
    requires Increasing(qs)
    requires forall k :: 0 <= k < |qs| ==> qs[k] < |s|
    ensures |Split(Wrapped(s, qs), '\n')| == |qs| + 1
    decreases |qs|
  {
    if qs == [] {
      SplitWithoutSeparator(s, '\n');
    } else {
      WrappedSplitStep(s, qs);
      WrappedLineCount(s[..qs[|qs| - 1] + 1], qs[..|qs| - 1]);
    }
  }

  /** The last line of a wrapped text is the text after the last break. */
  lemma {:induction false} WrappedLastLine(s: string, qs: seq<nat>)
    requires '\n' !in s
    requires Increasing(qs) && qs != []
    requires forall j :: 0 <= j < |qs| ==> qs[j] < |s|
    ensures |Split(Wrapped(s, qs), '\n')| == |qs| + 1
    ensures Split(Wrapped(s, qs), '\n')[|qs|] == s[qs[|qs| - 1] + 1..]
  {
    var q := qs[|qs| - 1];
    WrappedSplitStep(s, qs);
    WrappedLineCount(s[..q + 1], qs[..|qs| - 1]);
  }

  /** Line `k` of a wrapped text is piece `k` of the text cut after each
      break. */
  lemma {:induction false} WrappedLine(s: string, qs: seq<nat>, k: nat)
    requires '\n' !in s
    requires Increasing(qs)
    requires forall j :: 0 <= j < |qs| ==> qs[j] < |s|
    requires k <= |qs|
    ensures k < |Split(Wrapped(s, qs), '\n')|
    ensures Split(Wrapped(s, qs), '\n')[k] == Cut(s, qs, k)
    decreases |qs|
  {
    if qs == [] {
      SplitWithoutSeparator(s, '\n');
    } else if k == |qs| {
      WrappedLastLine(s, qs);
    } else {
      var n := |qs|;
      var q := qs[n - 1];
      var head, init := s[..q + 1], qs[..n - 1];
      WrappedSplitStep(s, qs);
      WrappedLine(head, init, k);
      CutPrefix(s, qs, k);
      var before := Split(Wrapped(head, init), '\n');
      assert Split(Wrapped(s, qs), '\n') == before + [s[q + 1..]];
      assert before[k] == Cut(s, qs, k);
    }
  }

  /** The lines of a wrapped text are the pieces of the text cut right
      after each break position, one more line than breaks. */
  lemma {:induction false} WrappedLines(s: string, qs: seq<nat>)
    requires '\n' !in s
    requires Increasing(qs)
    requires forall k :: 0 <= k < |qs| ==> qs[k] < |s|
    ensures |Split(Wrapped(s, qs), '\n')| == |qs| + 1
    ensures forall k :: 0 <= k <= |qs| ==> Split(Wrapped(s, qs), '\n')[k] == Cut(s, qs, k)
  {
    WrappedLineCount(s, qs);
    forall k | 0 <= k <= |qs| ensures Split(Wrapped(s, qs), '\n')[k] == Cut(s, qs, k) {
      WrappedLine(s, qs, k);
    }
  }

  /** Each comma of the one-line text separates two values: there is one
      fewer comma than values. */
  lemma {:induction false} OneLineCommas(levels: seq<int>)
    requires |levels| >= 1
    ensures |CommaPositions(OneLine(levels))| == |levels| - 1
  {
    var parts := seq(|levels|, k requires 0 <= k < |levels| => IntToString(levels[k]));
    JoinWithCommas(parts);
    CommaCountConcat("(", JoinWith(parts, ", "));
    CommaCountConcat("(" + JoinWith(parts, ", "), ")");
  }

  /** Joining comma-free parts with ", " yields one comma per separator. */
  lemma {:induction false} JoinWithCommas(parts: seq<string>)
    requires |parts| >= 1
    requires forall k :: 0 <= k < |parts| ==> ',' !in parts[k]
    ensures |CommaPositions(JoinWith(parts, ", "))| == |parts| - 1
  {
    CommaFree(parts[0]);
    if |parts| > 1 {
      JoinWithCommas(parts[1..]);
      CommaCountConcat(parts[0], ", " + JoinWith(parts[1..], ", "));
      CommaCountConcat(", ", JoinWith(parts[1..], ", "));
      assert parts[0] + ", " + JoinWith(parts[1..], ", ") == parts[0] + (", " + JoinWith(parts[1..], ", "));
      assert |CommaPositions(", ")| == 1 by {
        assert ", "[..1] == ",";
        assert ","[..0] == [];
      }
    }
  }

  lemma {:induction false} CommaFree(s: string)
    requires ',' !in s
    ensures CommaPositions(s) == []
  {
    if s != [] {
      CommaFree(s[..|s| - 1]);
    }
  }

  /** Commas of a concatenation are those of both halves. */
  lemma {:induction false} CommaCountConcat(a: string, b: string)
    ensures |CommaPositions(a + b)| == |CommaPositions(a)| + |CommaPositions(b)|
    decreases |b|
  {
    if b != [] {
      var b' := b[..|b| - 1];
      CommaCountConcat(a, b');
      assert (a + b)[..|a + b| - 1] == a + b';
    } else {
      assert a + b == a;
    }
  }

  /** The one-line text has no newline. */
  lemma {:induction false} OneLineFlat(levels: seq<int>)
    ensures '\n' !in OneLine(levels)
  {
    var parts := seq(|levels|, k requires 0 <= k < |levels| => IntToString(levels[k]));
    NoNewlineInJoin(parts);
  }

  /** Every piece but the last ends at its break position, a comma. */
  lemma {:induction false} CutEndsInComma(s: string, qs: seq<nat>, k: nat)
    requires Increasing(qs)
    requires forall j :: 0 <= j < |qs| ==> qs[j] < |s| && s[qs[j]] == ','
    requires k < |qs|
    ensures |Cut(s, qs, k)| > 0 && Cut(s, qs, k)[|Cut(s, qs, k)| - 1] == ','
  {
    if k > 0 {
      assert qs[k - 1] < qs[k];
    }
  }

  /** `n` values print on `(n - 1) / 7 + 1` lines, each but the last ending
      at a comma. */
  lemma {:induction false} DisplayedLines(levels: seq<int>)
    requires |levels| >= 1
    ensures var lines := Split(Displayed(levels, false), '\n');
      && |lines| == (|levels| - 1) / 7 + 1
      && (forall k :: 0 <= k < |lines| - 1 ==> |lines[k]| > 0 && lines[k][|lines[k]| - 1] == ',')
  {
    var s := OneLine(levels);
    var qs := Breaks(s);
    OneLineCommas(levels);
    OneLineFlat(levels);
    WrappedLines(s, qs);
    var lines := Split(Wrapped(s, qs), '\n');
    assert |qs| == |CommaPositions(s)| / 7;
    forall k | 0 <= k < |lines| - 1 ensures |lines[k]| > 0 && lines[k][|lines[k]| - 1] == ',' {
      CutEndsInComma(s, qs, k);
    }
  }

  /** A glyph's 21 values print as 3 lines, the first two broken after a
      comma. */
  lemma GlyphPrintsOnThreeLines(levels: seq<int>)
    requires |levels| == 21
    ensures var lines := Split(Displayed(levels, false), '\n');
      && |lines| == 3
      && (forall k :: 0 <= k < 2 ==> |lines[k]| > 0 && lines[k][|lines[k]| - 1] == ',')
  {
    DisplayedLines(levels);
  }

  lemma {:induction false} NoNewlineInJoin(parts: seq<string>)
    requires forall k :: 0 <= k < |parts| ==> '\n' !in parts[k]
    ensures '\n' !in JoinWith(parts, ", ")
  {
    if |parts| > 1 {
      NoNewlineInJoin(parts[1..]);
    }
  }

  /** The break positions are exactly the commas preceded by a multiple of
      7 commas: the 7th, the 14th, and so on. */
  lemma BreaksAreEverySeventhComma(s: string)
    ensures forall k :: 0 <= k < |Breaks(s)| ==> Breaks(s)[k] == CommaPositions(s)[7 * k + 6]
    ensures |Breaks(s)| == |CommaPositions(s)| / 7
  {
  }

  // ---------------------------------------------------------------------
  // The tool.

  /** `main`: split the source into lines, refuse more than 7, read the
      lines column by column into levels and print them. It fails exactly
      when there are more than 7 lines or a character that is no level in
      the columns `zip` keeps. */
  method Generate(source: string, oneline: bool) returns (r: Result<string, GenError>)
    ensures var lines := SplitLines(source); r.Err? <==> |lines| > 7 || !Readable(lines)
    ensures |SplitLines(source)| > 7 ==> r == Err(TooManyLines)
    ensures var lines := SplitLines(source);
      r.Err? && |lines| <= 7 ==>
        exists col, i :: && 0 <= i < |lines| && 0 <= col < MinLen(lines)
                         && r.error == InvalidLevelChar(lines[i][col]) && lines[i][col] !in " -=H#"
    ensures r.Err? <==> Mapped(source).Err?
    ensures r.Err? ==> r.error == Mapped(source).error
    ensures r.Ok? ==> r.value == Displayed(Mapped(source).value, oneline)
  {
    MappedFails(source);
    var sourceLines := SplitLines(source);
    if |sourceLines| > 7 {
      return Err(TooManyLines);
    }
    var linear := Linearize(sourceLines);
    var mapped := Levels(linear);
    if mapped.Err? {
      return Err(mapped.error);
    }
    var out := DisplayDataLevel(mapped.value, oneline);
    r := Ok(out);
  }

  // ---------------------------------------------------------------------
  // Reading a picture back.

  /** The rows of the picture hold no newline and, for `7k` levels, `k`
      characters each. */
  lemma {:induction false} DealRows(cs: seq<char>)
    requires |cs| % 7 == 0
    requires '\n' !in cs
    ensures forall i :: 0 <= i < 7 ==> |Deal(cs)[i]| == |cs| / 7 && '\n' !in Deal(cs)[i]
  {
    var rows := Deal(cs);
    forall i | 0 <= i < 7 ensures '\n' !in rows[i] {
      forall j | 0 <= j < |rows[i]| ensures rows[i][j] != '\n' {
        RowLenBound(|cs|, i, j);
      }
    }
  }

  /** Reading `7k` dealt characters column by column gives them back. */
  lemma {:induction false} LinearizeDeal(cs: seq<char>)
    requires |cs| % 7 == 0 && |cs| > 0
    requires '\n' !in cs
    ensures Linearize(Deal(cs)) == cs
  {
    var rows := Deal(cs);
    DealRows(cs);
    var k := |cs| / 7;
    assert |rows[0]| == k;
    assert MinLen(rows) == k;
    forall p | 0 <= p < |cs| ensures p < |Linearize(rows)| && Linearize(rows)[p] == cs[p] {
      var col, i := p / 7, p % 7;
      assert p == col * 7 + i;
      LinearizeColumnMajor(rows, col, i);
      RowLenBound(|cs|, i, col);
    }
    LinearizeColumnMajor(rows, 0, 0);
  }

  /** The picture of no levels is 6 newlines, which reads as no levels. */
  lemma {:induction false} EmptyPictureReadsBack()
    ensures Mapped(Join(Deal([]), '\n')) == Ok([])
  {
    var rows := Deal([]);
    assert forall i :: 0 <= i < 7 ==> rows[i] == [];
    var text := Join(rows, '\n');
    SplitJoin(rows, '\n');
    JoinOfEmpties(rows, '\n');
    assert text[|text| - 1] == '\n';
    var lines := SplitLines(text);
    assert lines == rows[..6];
    assert |lines[0]| == 0;
    assert Linearize(lines) == [];
  }

  /** Joining empty parts gives only separators, one fewer than parts. */
  lemma {:induction false} JoinOfEmpties(parts: seq<string>, sep: char)
    requires |parts| >= 1
    requires forall i :: 0 <= i < |parts| ==> parts[i] == []
    ensures |Join(parts, sep)| == |parts| - 1
    ensures forall i :: 0 <= i < |parts| - 1 ==> Join(parts, sep)[i] == sep
  {
    if |parts| > 1 {
      JoinOfEmpties(parts[1..], sep);
      assert Join(parts, sep) == [sep] + Join(parts[1..], sep);
    }
  }

  /** The picture of `7k` valid levels, split into lines and read column by
      column, gives the levels back. */
  lemma {:induction false} PictureReadsBack(levels: seq<int>)
    requires ValidLevels(levels)
    requires |levels| % 7 == 0
    ensures Show(levels).Ok?
    ensures Mapped(Show(levels).value) == Ok(levels)
  {
    FirstInvalidNone(levels);
    var cs := Chars(levels);
    assert '\n' !in cs;
    LevelsOfChars(levels);
    if levels == [] {
      EmptyPictureReadsBack();
    } else {
      var rows := Deal(cs);
      DealRows(cs);
      SplitLinesJoin(rows);
      LinearizeDeal(cs);
    }
  }

  /** The levels of a rendered text are all valid. */
  lemma {:induction false} BlocksValid(glyphs: seq<seq<int>>)
    requires forall k :: 0 <= k < |glyphs| ==> |glyphs[k]| == 21
    requires forall k, j :: 0 <= k < |glyphs| && 0 <= j < 21 ==> 0 <= glyphs[k][j] <= 4
    ensures ValidLevels(Blocks(glyphs))
  {
    if glyphs != [] {
      BlocksValid(glyphs[1..]);
    }
  }

  /** Drawing a rendered text with `__str__` and reading the picture with
      the tool gives the text's level sequence back, oldest first. */
  lemma {:induction false} RenderedPictureReadsBack(s: string, endDate: Option<Calendar.Day>, now: Calendar.Day)
    requires forall k :: 0 <= k < |s| ==> Glyphs.Supported(s[k])
    ensures var d := TextRendering(Str(s), endDate, now).value;
      && Show(PyDict.DateSortedLevels(d)).Ok?
      && Mapped(Show(PyDict.DateSortedLevels(d)).value) == Ok(TextLevels(s))
  {
    var end := endDate.GetOr(Calendar.LastWeekEnd(now));
    var glyphs := seq(|s|, k requires 0 <= k < |s| => Glyphs.GlyphOf(s[k]));
    BlocksValid(glyphs);
    PlacedDateSorted(TextLevels(s), end);
    PictureReadsBack(TextLevels(s));
  }
}
