/** Python string helpers the modelled code relies on: `str.split` with a
    one-character separator, `sep.join`, `str.splitlines` and `str(int)`. */
module Text {

  /** Python `s.split(sep)` for a one-character separator: always at least
      one piece, and an empty piece on each side of every separator. */
  function Split(s: string, sep: char): (r: seq<string>)
    ensures |r| >= 1
  {
    if s == [] then [[]]
    else
      var rest := Split(s[1..], sep);
      if s[0] == sep then [[]] + rest
      else [[s[0]] + rest[0]] + rest[1..]
  }

  /** Python `sep.join(parts)`. */
  function Join(parts: seq<string>, sep: char): (r: string)
    ensures |parts| >= 1 ==> |r| >= |parts| - 1 && |r| >= |parts[0]| && r[..|parts[0]|] == parts[0]
  {
    if |parts| == 0 then []
    else if |parts| == 1 then parts[0]
    else
      var r := parts[0] + [sep] + Join(parts[1..], sep);
      assert r[..|parts[0]|] == parts[0];
      r
  }

  /** The piece after the last separator: `s.split(sep)[-1]`. */
  function LastPiece(s: string, sep: char): (q: string)
    ensures |q| <= |s| && q == s[|s| - |q|..] && sep !in q
    ensures |q| < |s| ==> s[|s| - |q| - 1] == sep
  {
    LastPieceIsLongestSuffix(s, sep);
    var parts := Split(s, sep);
    parts[|parts| - 1]
  }

  /** The piece before the first separator: `s.split(sep)[0]`. */
  function FirstPiece(s: string, sep: char): (p: string)
    ensures |p| <= |s| && p == s[..|p|] && sep !in p
    ensures |p| < |s| ==> s[|p|] == sep
  {
    FirstPieceIsLongestPrefix(s, sep);
    Split(s, sep)[0]
  }

  /** Python `s.splitlines()`, with '\n' as the only line boundary: the
      pieces between newlines, where a final newline ends the last line
      instead of starting an empty one. */
  function SplitLines(s: string): (lines: seq<string>)
    ensures forall k :: 0 <= k < |lines| ==> '\n' !in lines[k]
  {
    SplitPiecesLackSeparator(s, '\n');
    if s == [] then []
    else
      var parts := Split(s, '\n');
      if s[|s| - 1] == '\n' then parts[..|parts| - 1] else parts
  }

  function DigitChar(d: int): char
    requires 0 <= d < 10
  {
    "0123456789"[d]
  }

  /** Python `str(n)` for a non-negative integer. */
  function NatToString(n: nat): (r: string)
    ensures |r| >= 1
    ensures forall k :: 0 <= k < |r| ==> '0' <= r[k] <= '9'
    decreases n
  {
    if n < 10 then [DigitChar(n)]
    else NatToString(n / 10) + [DigitChar(n % 10)]
  }

  /** Python `str(i)`. */
  function IntToString(i: int): (r: string)
    ensures forall k :: 0 <= k < |r| ==> r[k] == '-' || '0' <= r[k] <= '9'
  {
    if i < 0 then "-" + NatToString(-i) else NatToString(i)
  }

  /** Python `"%0*d" % (width, n)` for a non-negative integer. */
  function ZeroPad(n: nat, width: nat): (r: string)
    ensures |r| >= width
    ensures forall k :: 0 <= k < |r| ==> '0' <= r[k] <= '9'
  {
    var digits := NatToString(n);
    if |digits| >= width then digits
    else seq(width - |digits|, _ => '0') + digits
  }

  // ---------------------------------------------------------------------
  // Split and Join are inverse to each other.

  /** Joining the pieces of a split gives the original text back. */
  lemma {:induction false} JoinSplit(s: string, sep: char)
    ensures Join(Split(s, sep), sep) == s
  {
    if s != [] {
      JoinSplit(s[1..], sep);
      var rest := Split(s[1..], sep);
      if s[0] == sep {
        assert Split(s, sep) == [[]] + rest;
        assert Join([[]] + rest, sep) == [] + [sep] + Join(rest, sep);
      } else {
        if |rest| == 1 {
          assert Split(s, sep) == [[s[0]] + rest[0]];
        } else {
          assert Split(s, sep) == [[s[0]] + rest[0]] + rest[1..];
          assert rest == [rest[0]] + rest[1..];
          assert Join(rest, sep) == rest[0] + [sep] + Join(rest[1..], sep);
        }
      }
    }
  }

  /** No piece of a split contains the separator. */
  lemma {:induction false} SplitPiecesLackSeparator(s: string, sep: char)
    ensures forall k :: 0 <= k < |Split(s, sep)| ==> sep !in Split(s, sep)[k]
  {
    if s != [] {
      SplitPiecesLackSeparator(s[1..], sep);
    }
  }

  /** Splitting text that does not contain the separator gives one piece. */
  lemma {:induction false} SplitWithoutSeparator(s: string, sep: char)
    requires sep !in s
    ensures Split(s, sep) == [s]
  {
    if s != [] {
      SplitWithoutSeparator(s[1..], sep);
      assert s == [s[0]] + s[1..];
    }
  }

  /** A separator-free head splits off as the first piece. */
  lemma {:induction false} SplitPrefix(a: string, sep: char, b: string)
    requires sep !in a
    ensures Split(a + [sep] + b, sep) == [a] + Split(b, sep)
  {
    if a == [] {
      assert [] + [sep] + b == [sep] + b;
      assert ([sep] + b)[1..] == b;
    } else {
      assert (a + [sep] + b)[1..] == a[1..] + [sep] + b;
      SplitPrefix(a[1..], sep, b);
      assert [a[0]] + a[1..] == a;
    }
  }

  /** A separator splits the text into the pieces before it and after it. */
  lemma {:induction false} SplitConcat(a: string, sep: char, b: string)
    ensures Split(a + [sep] + b, sep) == Split(a, sep) + Split(b, sep)
  {
    if a == [] {
      assert [] + [sep] + b == [sep] + b;
      assert ([sep] + b)[1..] == b;
    } else {
      assert (a + [sep] + b)[1..] == a[1..] + [sep] + b;
      SplitConcat(a[1..], sep, b);
    }
  }

  /** Splitting a join of separator-free parts gives the parts back. */
  lemma {:induction false} SplitJoin(parts: seq<string>, sep: char)
    requires |parts| >= 1
    requires forall k :: 0 <= k < |parts| ==> sep !in parts[k]
    ensures Split(Join(parts, sep), sep) == parts
  {
    if |parts| == 1 {
      SplitWithoutSeparator(parts[0], sep);
    } else {
      SplitJoin(parts[1..], sep);
      SplitPrefix(parts[0], sep, Join(parts[1..], sep));
      assert parts == [parts[0]] + parts[1..];
    }
  }

  /** A join ends with its last part. */
  lemma {:induction false} JoinEndsWithLast(parts: seq<string>, sep: char)
    requires |parts| >= 1
    ensures var j := Join(parts, sep); var l := parts[|parts| - 1];
      |j| >= |l| && j[|j| - |l|..] == l
  {
    if |parts| > 1 {
      JoinEndsWithLast(parts[1..], sep);
    }
  }

  /** The lines of a newline join of newline-free lines, the last of them
      non-empty, are those lines. */
  lemma SplitLinesJoin(lines: seq<string>)
    requires |lines| >= 1 && |lines[|lines| - 1]| >= 1
    requires forall k :: 0 <= k < |lines| ==> '\n' !in lines[k]
    ensures SplitLines(Join(lines, '\n')) == lines
  {
    var j := Join(lines, '\n');
    var l := lines[|lines| - 1];
    JoinEndsWithLast(lines, '\n');
    assert j[|j| - 1] == l[|l| - 1];
    assert l[|l| - 1] in l;
    SplitJoin(lines, '\n');
  }

  // ---------------------------------------------------------------------
  // The first and the last piece.

  /** `s.split(sep)[0]` is the longest separator-free prefix of `s`. */
  lemma {:induction false} FirstPieceIsLongestPrefix(s: string, sep: char)
    ensures var p := Split(s, sep)[0];
      && |p| <= |s| && p == s[..|p|] && sep !in p
      && (|p| < |s| ==> s[|p|] == sep)
  {
    if sep !in s {
      SplitWithoutSeparator(s, sep);
      assert s[..|s|] == s;
    } else {
      var i := FirstSeparator(s, sep);
      assert s == s[..i] + [sep] + s[i + 1..];
      SplitConcat(s[..i], sep, s[i + 1..]);
      SplitWithoutSeparator(s[..i], sep);
    }
  }

  /** `s.split(sep)[-1]` is the longest separator-free suffix of `s`. */
  lemma {:induction false} LastPieceIsLongestSuffix(s: string, sep: char)
    ensures var q := Split(s, sep)[|Split(s, sep)| - 1];
      && |q| <= |s| && q == s[|s| - |q|..] && sep !in q
      && (|q| < |s| ==> s[|s| - |q| - 1] == sep)
  {
    if sep !in s {
      SplitWithoutSeparator(s, sep);
    } else {
      var i := LastSeparator(s, sep);
      assert s == s[..i] + [sep] + s[i + 1..];
      SplitConcat(s[..i], sep, s[i + 1..]);
      SplitWithoutSeparator(s[i + 1..], sep);
    }
  }

  /** The position of the first separator of a text that holds one. */
  lemma {:induction false} FirstSeparator(s: string, sep: char) returns (i: nat)
    requires sep in s
    ensures i < |s| && s[i] == sep && sep !in s[..i]
  {
    if s[0] == sep {
      i := 0;
    } else {
      var j := FirstSeparator(s[1..], sep);
      i := j + 1;
      assert s[..i] == [s[0]] + s[1..][..j];
    }
  }

  /** The position of the last separator of a text that holds one. */
  lemma {:induction false} LastSeparator(s: string, sep: char) returns (i: nat)
    requires sep in s
    ensures i < |s| && s[i] == sep && sep !in s[i + 1..]
  {
    var n := |s|;
    if s[n - 1] == sep {
      i := n - 1;
    } else {
      assert s == s[..n - 1] + [s[n - 1]];
      i := LastSeparator(s[..n - 1], sep);
      assert s[i + 1..] == s[..n - 1][i + 1..] + [s[n - 1]];
    }
  }

  /** The last piece equals a separator-free word exactly when the text is
      that word or ends with the separator followed by it. */
  lemma LastPieceIs(s: string, sep: char, w: string)
    requires sep !in w
    ensures LastPiece(s, sep) == w <==>
      (s == w || (|s| > |w| && s[|s| - |w| - 1] == sep && s[|s| - |w|..] == w))
  {
  }

  /** A word containing the separator is never the last piece. */
  lemma LastPieceLacksSeparator(s: string, sep: char, w: string)
    requires sep in w
    ensures LastPiece(s, sep) != w
  {
  }

  // ---------------------------------------------------------------------
  // Reading decimal text back: Python `int(s)` on a text of digits.

  predicate AllDigits(s: string)
  {
    forall k :: 0 <= k < |s| ==> '0' <= s[k] <= '9'
  }

  /** Python `int(s)` for a non-empty text of decimal digits. */
  function DecimalValue(s: string): (n: nat)
    requires |s| >= 1 && AllDigits(s)
  {
    var last := s[|s| - 1] as int - '0' as int;
    if |s| == 1 then last else 10 * DecimalValue(s[..|s| - 1]) + last
  }

  function Pow10(w: nat): (p: nat)
    ensures p >= 1
  {
    if w == 0 then 1 else 10 * Pow10(w - 1)
  }

  lemma DigitValue(d: int)
    requires 0 <= d < 10
    ensures DigitChar(d) as int - '0' as int == d
  {
    var digits := "0123456789";
    assert digits[0] == '0' && digits[1] == '1' && digits[2] == '2' && digits[3] == '3'
      && digits[4] == '4' && digits[5] == '5' && digits[6] == '6' && digits[7] == '7'
      && digits[8] == '8' && digits[9] == '9';
  }

  /** `int(str(n)) == n`, and `str(n)` has no leading zero. */
  lemma {:induction false} NatToStringValue(n: nat)
    ensures DecimalValue(NatToString(n)) == n
    ensures NatToString(n)[0] == '0' ==> n == 0
    decreases n
  {
    if n < 10 {
      DigitValue(n);
    } else {
      NatToStringValue(n / 10);
      DigitValue(n % 10);
      var r := NatToString(n);
      assert r[..|r| - 1] == NatToString(n / 10);
      assert r[0] == NatToString(n / 10)[0];
    }
  }

  /** A number below `10^w` takes at most `w` digits. */
  lemma {:induction false} NatToStringLength(n: nat, w: nat)
    requires w >= 1 && n < Pow10(w)
    ensures |NatToString(n)| <= w
    decreases n
  {
    if n >= 10 {
      NatToStringLength(n / 10, w - 1);
    }
  }

  /** `int(str(i)) == i`: the text has a leading `-` exactly for a negative
      number, and the digits after it read as its magnitude. */
  lemma IntToStringValue(i: int)
    ensures var r := IntToString(i);
      && |r| >= 1 && (r[0] == '-' <==> i < 0)
      && (i >= 0 ==> AllDigits(r) && DecimalValue(r) == i)
      && (i < 0 ==> |r| >= 2 && AllDigits(r[1..]) && DecimalValue(r[1..]) == -i)
  {
    if i < 0 {
      NatToStringValue(-i);
      assert IntToString(i)[1..] == NatToString(-i);
    } else {
      NatToStringValue(i);
    }
  }

  /** Zeros in front do not change the value. */
  lemma {:induction false} LeadingZeros(z: string, s: string)
    requires |s| >= 1 && AllDigits(s)
    requires forall k :: 0 <= k < |z| ==> z[k] == '0'
    ensures AllDigits(z + s) && DecimalValue(z + s) == DecimalValue(s)
    decreases |s|
  {
    var t := z + s;
    if |s| == 1 {
      if z != [] {
        assert t[..|t| - 1] == z;
        ZerosValue(z);
      }
    } else {
      LeadingZeros(z, s[..|s| - 1]);
      assert t[..|t| - 1] == z + s[..|s| - 1];
    }
  }

  lemma {:induction false} ZerosValue(z: string)
    requires |z| >= 1 && forall k :: 0 <= k < |z| ==> z[k] == '0'
    ensures AllDigits(z) && DecimalValue(z) == 0
    decreases |z|
  {
    if |z| > 1 {
      ZerosValue(z[..|z| - 1]);
    }
  }

  /** `int("%0*d" % (width, n)) == n`, and the text is `width` long unless
      the number needs more digits. */
  lemma ZeroPadValue(n: nat, width: nat)
    ensures DecimalValue(ZeroPad(n, width)) == n
    ensures |ZeroPad(n, width)| == if |NatToString(n)| >= width then |NatToString(n)| else width
  {
    NatToStringValue(n);
    var digits := NatToString(n);
    if |digits| < width {
      LeadingZeros(seq(width - |digits|, _ => '0'), digits);
    }
  }
}

