/** The fixed font: each supported character maps to 21 data levels, a
    grid of 7 weekday rows by 3 week columns stored column by column (the
    first column's 7 days, then the second's, then the third's). Both
    renderer versions use this same table of 52 characters: upper-case
    letters, digits, some punctuation and space. */
module Glyphs {
  import opened Wrappers

  /** The levels the table uses: blank, the one intermediate shade of ':'
      and full. */
  type GlyphLevel = l: int | l == 0 || l == 3 || l == 4

  /** The glyph of `c`, or None when `c` has no entry (a `KeyError` in the
      source, which the renderers turn into a `ValueError`). Every glyph
      has exactly 21 levels, and each is 0, 3 or 4, so each level is a
      valid index into a 5-entry boundary table. */
  function Glyph(c: char): (g: Option<seq<int>>)
    ensures g.Some? ==> |g.value| == 21
    ensures g.Some? ==> forall k :: 0 <= k < |g.value| ==> g.value[k] in {0, 3, 4}
  {
    var g := if 'A' <= c <= 'M' then LettersAToM(c)
      else if 'N' <= c <= 'Z' then LettersNToZ(c)
      else if '0' <= c <= '9' then Digits(c)
      else if c in "(){}: " then BracketsAndSpace(c)
      else Marks(c);
    match g
    case Some(levels) => Some(levels)
    case None => None
  }

  predicate Supported(c: char)
  {
    Glyph(c).Some?
  }

  /** The 21 levels of a supported character. */
  function GlyphOf(c: char): (g: seq<int>)
    requires Supported(c)
    ensures |g| == 21
    ensures forall k :: 0 <= k < |g| ==> 0 <= g[k] <= 4
  {
    Glyph(c).value
  }

  /** The glyphs of the letters A to M. */
  function LettersAToM(c: char): (g: Option<seq<GlyphLevel>>)
    ensures g.Some? ==> |g.value| == 21
  {
    match c
    case 'A' => Some([0, 4, 4, 4, 4, 4, 0,
                      0, 4, 0, 0, 4, 0, 0,
                      0, 4, 4, 4, 4, 4, 0])
    case 'B' => Some([0, 4, 4, 4, 4, 4, 0,
                      0, 4, 0, 4, 0, 4, 0,
                      0, 0, 4, 4, 4, 0, 0])
    case 'C' => Some([0, 4, 4, 4, 4, 4, 0,
                      0, 4, 0, 0, 0, 4, 0,
                      0, 4, 4, 0, 4, 4, 0])
    case 'D' => Some([0, 4, 4, 4, 4, 4, 0,
                      0, 4, 0, 0, 0, 4, 0,
                      0, 0, 4, 4, 4, 0, 0])
    case 'E' => Some([0, 4, 4, 4, 4, 4, 0,
                      0, 4, 0, 4, 0, 4, 0,
                      0, 4, 0, 0, 0, 4, 0])
    case 'F' => Some([0, 4, 4, 4, 4, 4, 0,
                      0, 4, 0, 4, 0, 0, 0,
                      0, 4, 0, 0, 0, 0, 0])
    case 'G' => Some([0, 4, 4, 4, 4, 4, 0,
                      0, 4, 0, 0, 0, 4, 0,
                      0, 4, 0, 4, 4, 4, 0])
    case 'H' => Some([0, 4, 4, 4, 4, 4, 0,
                      0, 0, 0, 4, 0, 0, 0,
                      0, 4, 4, 4, 4, 4, 0])
    case 'I' => Some([0, 4, 0, 0, 0, 4, 0,
                      0, 4, 4, 4, 4, 4, 0,
                      0, 4, 0, 0, 0, 4, 0])
    case 'J' => Some([0, 4, 0, 0, 4, 4, 0,
                      0, 4, 0, 0, 0, 4, 0,
                      0, 4, 4, 4, 4, 4, 0])
    case 'K' => Some([0, 4, 4, 4, 4, 4, 0,
                      0, 0, 0, 4, 0, 0, 0,
                      0, 4, 4, 0, 4, 4, 0])
    case 'L' => Some([0, 4, 4, 4, 4, 4, 0,
                      0, 0, 0, 0, 0, 4, 0,
                      0, 0, 0, 0, 0, 4, 0])
    case 'M' => Some([0, 4, 4, 4, 4, 4, 0,
                      0, 0, 4, 4, 0, 0, 0,
                      0, 4, 4, 4, 4, 4, 0])
    case _ => None
  }

  /** The glyphs of the letters N to Z. */
  function LettersNToZ(c: char): (g: Option<seq<GlyphLevel>>)
    ensures g.Some? ==> |g.value| == 21
  {
    match c
    case 'N' => Some([0, 4, 4, 4, 4, 4, 0,
                      0, 0, 4, 4, 4, 0, 0,
                      0, 4, 4, 4, 4, 4, 0])
    case 'O' => Some([0, 4, 4, 4, 4, 4, 0,
                      0, 4, 0, 0, 0, 4, 0,
                      0, 4, 4, 4, 4, 4, 0])
    case 'P' => Some([0, 4, 4, 4, 4, 4, 0,
                      0, 4, 0, 4, 0, 0, 0,
                      0, 4, 4, 4, 0, 0, 0])
    case 'Q' => Some([0, 4, 4, 4, 4, 0, 0,
                      0, 4, 0, 0, 4, 4, 0,
                      0, 4, 4, 4, 4, 4, 0])
    case 'R' => Some([0, 4, 4, 4, 4, 4, 0,
                      0, 4, 0, 4, 0, 0, 0,
                      0, 4, 4, 0, 4, 4, 0])
    case 'S' => Some([0, 4, 4, 4, 0, 4, 0,
                      0, 4, 0, 4, 0, 4, 0,
                      0, 4, 0, 4, 4, 4, 0])
    case 'T' => Some([0, 4, 0, 0, 0, 0, 0,
                      0, 4, 4, 4, 4, 4, 0,
                      0, 4, 0, 0, 0, 0, 0])
    case 'U' => Some([0, 4, 4, 4, 4, 4, 0,
                      0, 0, 0, 0, 0, 4, 0,
                      0, 4, 4, 4, 4, 4, 0])
    case 'V' => Some([0, 4, 4, 4, 4, 0, 0,
                      0, 0, 0, 0, 0, 4, 0,
                      0, 4, 4, 4, 4, 0, 0])
    case 'W' => Some([0, 4, 4, 4, 4, 4, 0,
                      0, 0, 0, 4, 4, 0, 0,
                      0, 4, 4, 4, 4, 4, 0])
    case 'X' => Some([0, 4, 4, 0, 4, 4, 0,
                      0, 0, 0, 4, 0, 0, 0,
                      0, 4, 4, 0, 4, 4, 0])
    case 'Y' => Some([0, 4, 4, 4, 0, 0, 0,
                      0, 0, 0, 4, 4, 4, 0,
                      0, 4, 4, 4, 0, 0, 0])
    case 'Z' => Some([0, 4, 0, 0, 4, 4, 0,
                      0, 4, 0, 4, 0, 4, 0,
                      0, 4, 4, 0, 0, 4, 0])
    case _ => None
  }

  /** The glyphs of the digits. */
  function Digits(c: char): (g: Option<seq<GlyphLevel>>)
    ensures g.Some? ==> |g.value| == 21
  {
    match c
    case '0' => Some([0, 4, 4, 4, 4, 4, 0,
                      0, 4, 0, 0, 0, 4, 0,
                      0, 4, 4, 4, 4, 4, 0])
    case '1' => Some([0, 4, 0, 0, 0, 4, 0,
                      0, 4, 4, 4, 4, 4, 0,
                      0, 0, 0, 0, 0, 4, 0])
    case '2' => Some([0, 4, 0, 4, 4, 4, 0,
                      0, 4, 0, 4, 0, 4, 0,
                      0, 4, 4, 4, 0, 4, 0])
    case '3' => Some([0, 4, 0, 0, 0, 4, 0,
                      0, 4, 0, 4, 0, 4, 0,
                      0, 4, 4, 4, 4, 4, 0])
    case '4' => Some([0, 4, 4, 4, 0, 0, 0,
                      0, 0, 0, 4, 0, 0, 0,
                      0, 4, 4, 4, 4, 4, 0])
    case '5' => Some([0, 4, 4, 4, 0, 4, 0,
                      0, 4, 0, 4, 0, 4, 0,
                      0, 4, 0, 4, 4, 4, 0])
    case '6' => Some([0, 4, 4, 4, 4, 4, 0,
                      0, 4, 0, 4, 0, 4, 0,
                      0, 4, 0, 4, 4, 4, 0])
    case '7' => Some([0, 4, 0, 0, 0, 0, 0,
                      0, 4, 0, 4, 4, 4, 0,
                      0, 4, 4, 0, 0, 0, 0])
    case '8' => Some([0, 4, 4, 4, 4, 4, 0,
                      0, 4, 0, 4, 0, 4, 0,
                      0, 4, 4, 4, 4, 4, 0])
    case '9' => Some([0, 4, 4, 4, 0, 0, 0,
                      0, 4, 0, 4, 0, 0, 0,
                      0, 4, 4, 4, 4, 4, 0])
    case _ => None
  }

  /** The glyphs of punctuation marks and operators. */
  function Marks(c: char): (g: Option<seq<GlyphLevel>>)
    ensures g.Some? ==> |g.value| == 21
  {
    match c
    case '?' => Some([0, 4, 0, 0, 0, 0, 0,
                      0, 4, 0, 4, 0, 4, 0,
                      0, 0, 4, 0, 0, 0, 0])
    case '!' => Some([0, 0, 0, 0, 0, 0, 0,
                      0, 4, 4, 4, 0, 4, 0,
                      0, 0, 0, 0, 0, 0, 0])
    case '_' => Some([0, 0, 0, 0, 0, 4, 0,
                      0, 0, 0, 0, 0, 4, 0,
                      0, 0, 0, 0, 0, 4, 0])
    case '+' => Some([0, 0, 4, 0, 0, 0, 4,
                      4, 4, 0, 0, 0, 4, 0,
                      0, 0, 0, 0, 0, 0, 0])
    case '-' => Some([0, 0, 0, 0, 0, 0, 4,
                      4, 4, 0, 0, 0, 0, 0,
                      0, 0, 0, 0, 0, 0, 0])
    case '%' => Some([0, 4, 0, 0, 4, 4, 0,
                      0, 0, 0, 4, 0, 0, 0,
                      0, 4, 4, 0, 0, 4, 0])
    case '=' => Some([0, 0, 4, 0, 4, 0, 0,
                      0, 0, 4, 0, 4, 0, 0,
                      0, 0, 4, 0, 4, 0, 0])
    case '<' => Some([0, 0, 0, 4, 0, 0, 0,
                      0, 0, 4, 0, 4, 0, 0,
                      0, 0, 4, 0, 4, 0, 0])
    case '>' => Some([0, 0, 4, 0, 4, 0, 0,
                      0, 0, 4, 0, 4, 0, 0,
                      0, 0, 0, 4, 0, 0, 0])
    case '^' => Some([0, 0, 4, 0, 0, 0, 0,
                      4, 0, 0, 0, 0, 0, 0,
                      4, 0, 0, 0, 0, 0, 0])
    case _ => None
  }

  /** The glyphs of brackets, the colon and space. */
  function BracketsAndSpace(c: char): (g: Option<seq<GlyphLevel>>)
    ensures g.Some? ==> |g.value| == 21
  {
    match c
    case '(' => Some([0, 0, 4, 4, 4, 0, 0,
                      0, 4, 0, 0, 0, 4, 0,
                      0, 4, 0, 0, 0, 4, 0])
    case ')' => Some([0, 4, 0, 0, 0, 4, 0,
                      0, 4, 0, 0, 0, 4, 0,
                      0, 0, 4, 4, 4, 0, 0])
    case '{' => Some([0, 0, 0, 4, 0, 0, 0,
                      0, 4, 4, 0, 4, 4, 0,
                      0, 4, 0, 0, 0, 4, 0])
    case '}' => Some([0, 4, 0, 0, 0, 4, 0,
                      0, 4, 4, 0, 4, 4, 0,
                      0, 0, 0, 4, 0, 0, 0])
    case ' ' => Some([0, 0, 0, 0, 0, 0, 0,
                      0, 0, 0, 0, 0, 0, 0,
                      0, 0, 0, 0, 0, 0, 0])
    case ':' => Some([0, 0, 0, 0, 0, 0, 0,
                      0, 0, 3, 0, 4, 0, 0,
                      0, 0, 0, 0, 0, 0, 0])
    case _ => None
  }
}
