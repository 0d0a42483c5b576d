/**
 * Line structure of text: Python's `str.splitlines()` (without `keepends`)
 * and the `"\n".join(...)` that puts lines back together.
 */
module Lines {
  import opened Strings

  /** The characters `str.splitlines()` treats as line boundaries. */
  predicate IsLineBreak(c: char) {
    || c == '\n' || c == '\r'
    || c == '\U{0B}' || c == '\U{0C}'                    // vertical tab, form feed
    || c == '\U{1C}' || c == '\U{1D}' || c == '\U{1E}'   // file, group, record separators
    || c == '\U{85}' || c == '\U{2028}' || c == '\U{2029}'
  }

  predicate NoBreaks(s: string) {
    forall j :: 0 <= j < |s| ==> !IsLineBreak(s[j])
  }

  /** Index of the first line boundary in `s`, or `|s|` when there is none. */
  function LineEnd(s: string): (i: nat)
    ensures i <= |s| && NoBreaks(s[..i])
    ensures i < |s| ==> IsLineBreak(s[i])
  {
    if s == [] || IsLineBreak(s[0]) then 0
    else
      var k := LineEnd(s[1..]);
      assert s[..k + 1] == [s[0]] + s[1..][..k];
      1 + k
  }

  /** Length of the boundary starting at `i`: "\r\n" is one boundary of two characters. */
  function BreakLength(s: string, i: nat): (n: nat)
    requires i < |s| && IsLineBreak(s[i])
    ensures 1 <= n <= |s| - i
    ensures n == 2 <==> s[i] == '\r' && i + 1 < |s| && s[i + 1] == '\n'
  {
    if s[i] == '\r' && i + 1 < |s| && s[i + 1] == '\n' then 2 else 1
  }

  /**
   * `s.splitlines()`: the text between boundaries; a final segment counts
   * only when it is not empty.
   */
  function SplitLines(s: string): (lines: seq<string>)
    ensures forall k :: 0 <= k < |lines| ==> NoBreaks(lines[k])
    ensures lines == [] <==> s == []
    decreases |s|
  {
    if s == [] then []
    else
      var i := LineEnd(s);
      if i == |s| then [s]
      else [s[..i]] + SplitLines(s[i + BreakLength(s, i)..])
  }

  /** `sep.join(xs)`. */
  function Join(xs: seq<string>, sep: string): string {
    if xs == [] then []
    else if |xs| == 1 then xs[0]
    else xs[0] + sep + Join(xs[1..], sep)
  }

  /** Every line followed by its own "\n" (the shape of a file that ends in a newline). */
  function Terminated(xs: seq<string>): string {
    if xs == [] then [] else xs[0] + "\n" + Terminated(xs[1..])
  }

  predicate AllNoBreaks(xs: seq<string>) {
    forall k :: 0 <= k < |xs| ==> NoBreaks(xs[k])
  }

  /** Text whose only line boundaries are "\n". */
  predicate OnlyNewlines(s: string) {
    forall j :: 0 <= j < |s| && IsLineBreak(s[j]) ==> s[j] == '\n'
  }

  /**
   * A boundary as `splitlines` reads it in front of `rest`: "\r\n", or a
   * single boundary character, except a "\r" that has a "\n" right after it.
   */
  predicate IsBoundary(b: string, rest: string) {
    || b == "\r\n"
    || (|b| == 1 && IsLineBreak(b[0]) && !(b[0] == '\r' && rest != [] && rest[0] == '\n'))
  }

  /** The first boundary of `line + b + rest` is `b`, whole. */
  lemma LineEndBefore(line: string, b: string, rest: string)
    requires NoBreaks(line) && IsBoundary(b, rest)
    ensures LineEnd(line + b + rest) == |line|
    ensures BreakLength(line + b + rest, |line|) == |b|
  {
    var s := line + b + rest;
    assert s[|line|] == b[0];
    if |b| == 1 && rest != [] {
      assert s[|line| + 1] == rest[0];
    }
  }

  /**
   * A boundary-free line followed by any boundary is the first line of the
   * text, and the lines after it are the lines of the rest.
   */
  lemma SplitLinesBreak(line: string, b: string, rest: string)
    requires NoBreaks(line) && IsBoundary(b, rest)
    ensures SplitLines(line + b + rest) == [line] + SplitLines(rest)
  {
    var s := line + b + rest;
    LineEndBefore(line, b, rest);
    assert s[..|line|] == line;
    assert s[|line| + |b|..] == rest;
  }

  /** A non-empty boundary-free text is a single line. */
  lemma SplitLinesSingle(line: string)
    requires NoBreaks(line) && line != []
    ensures SplitLines(line) == [line]
  {
  }

  /** Splitting text whose every line ends in "\n" gives the lines back. */
  lemma {:induction false} SplitTerminated(xs: seq<string>)
    requires AllNoBreaks(xs)
    ensures SplitLines(Terminated(xs)) == xs
  {
    if xs != [] {
      SplitLinesBreak(xs[0], "\n", Terminated(xs[1..]));
      assert AllNoBreaks(xs[1..]) by {
        forall k | 0 <= k < |xs| - 1 ensures NoBreaks(xs[1..][k]) {
          assert xs[1..][k] == xs[k + 1];
        }
      }
      SplitTerminated(xs[1..]);
      assert xs == [xs[0]] + xs[1..];
    }
  }

  /** Joining with an empty last line leaves every line followed by its own "\n". */
  lemma {:induction false} JoinEmptyLast(xs: seq<string>)
    requires xs != []
    ensures Join(xs + [""], "\n") == Terminated(xs)
  {
    if |xs| == 1 {
      assert (xs + [""])[1..] == [""];
    } else {
      assert (xs + [""])[1..] == xs[1..] + [""];
      JoinEmptyLast(xs[1..]);
    }
  }

  /**
   * Splitting the "\n"-join of lines gives them back, provided the last
   * line is not empty (an empty last line leaves only a trailing "\n",
   * which `splitlines` does not report as a line).
   */
  lemma {:induction false} SplitLinesJoin(xs: seq<string>)
    requires AllNoBreaks(xs)
    requires xs == [] || xs[|xs| - 1] != []
    ensures SplitLines(Join(xs, "\n")) == xs
  {
    if |xs| == 1 {
      assert NoBreaks(xs[0]);
      SplitLinesSingle(xs[0]);
    } else if |xs| > 1 {
      var rest := Join(xs[1..], "\n");
      assert Join(xs, "\n") == xs[0] + "\n" + rest;
      assert NoBreaks(xs[0]);
      SplitLinesBreak(xs[0], "\n", rest);
      assert AllNoBreaks(xs[1..]) by {
        forall k | 0 <= k < |xs| - 1 ensures NoBreaks(xs[1..][k]) {
          assert xs[1..][k] == xs[k + 1];
        }
      }
      assert xs[1..][|xs| - 2] == xs[|xs| - 1];
      SplitLinesJoin(xs[1..]);
      assert xs == [xs[0]] + xs[1..];
    }
  }

  /** Rejoining the lines of "\n"-separated text gives the text back, up to its final "\n". */
  lemma {:induction false} JoinSplit(s: string)
    requires OnlyNewlines(s)
    ensures Join(SplitLines(s), "\n") + (if s != [] && s[|s| - 1] == '\n' then "\n" else "") == s
    decreases |s|
  {
    if s != [] {
      var i := LineEnd(s);
      if i == |s| {
        assert s[..i] == s;
      } else {
        var rest := s[i + 1..];
        assert s == s[..i] + "\n" + rest;
        if rest != [] {
          assert rest[|rest| - 1] == s[|s| - 1];
          JoinSplit(rest);
        }
      }
    }
  }

  /**
   * Reference count of line boundaries: the positions holding a boundary
   * character, except a "\n" right after a "\r" (the two form one boundary).
   */
  function Boundaries(s: string, afterCr: bool): nat {
    if s == [] then 0
    else (if IsLineBreak(s[0]) && !(afterCr && s[0] == '\n') then 1 else 0) + Boundaries(s[1..], s[0] == '\r')
  }

  /** A boundary-free prefix holds no boundary. */
  lemma {:induction false} BoundariesSkipLine(line: string, tail: string)
    requires NoBreaks(line)
    ensures Boundaries(line + tail, false) == Boundaries(tail, false)
  {
    if line != [] {
      assert (line + tail)[0] == line[0];
      assert (line + tail)[1..] == line[1..] + tail;
      BoundariesSkipLine(line[1..], tail);
    } else {
      assert line + tail == tail;
    }
  }

  /** Every boundary, "\r\n" included, counts once. */
  lemma BoundariesBreak(b: string, rest: string)
    requires IsBoundary(b, rest)
    ensures Boundaries(b + rest, false) == 1 + Boundaries(rest, false)
  {
    var s := b + rest;
    assert s[0] == b[0];
    if b == "\r\n" {
      assert s[1..] == "\n" + rest;
      assert ("\n" + rest)[1..] == rest;
    } else {
      assert s[1..] == rest;
      if rest != [] {
        assert rest[0] != '\n' || b[0] != '\r';
      }
    }
  }

  /** A line and the boundary after it hold exactly one boundary. */
  lemma BoundariesLine(line: string, b: string, rest: string)
    requires NoBreaks(line) && IsBoundary(b, rest)
    ensures Boundaries(line + b + rest, false) == 1 + Boundaries(rest, false)
  {
    assert line + b + rest == line + (b + rest);
    BoundariesSkipLine(line, b + rest);
    BoundariesBreak(b, rest);
  }

  /** The first boundary of non-empty text and what surrounds it. */
  lemma FirstBoundary(s: string) returns (line: string, b: string, rest: string)
    requires s != [] && LineEnd(s) < |s|
    ensures s == line + b + rest && NoBreaks(line) && IsBoundary(b, rest) && b != []
    ensures SplitLines(s) == [line] + SplitLines(rest)
    ensures IsLineBreak(b[|b| - 1])
  {
    var i := LineEnd(s);
    var n := BreakLength(s, i);
    line, b, rest := s[..i], s[i..i + n], s[i + n..];
    assert s == line + b + rest;
    if n == 1 && rest != [] {
      assert rest[0] == s[i + 1];
    }
  }

  /**
   * The number of lines `splitlines` gives is the number of boundaries
   * ("\r\n" counted once), plus one when text follows the last boundary.
   */
  lemma {:induction false} LineCount(s: string)
    ensures |SplitLines(s)| == Boundaries(s, false) + (if s != [] && !IsLineBreak(s[|s| - 1]) then 1 else 0)
    decreases |s|
  {
    if s != [] {
      if LineEnd(s) == |s| {
        assert s[..|s|] == s;
        BoundariesSkipLine(s, []);
        assert s + [] == s;
      } else {
        var line, b, rest := FirstBoundary(s);
        BoundariesLine(line, b, rest);
        if rest != [] {
          assert rest[|rest| - 1] == s[|s| - 1];
        } else {
          assert s[|s| - 1] == b[|b| - 1];
        }
        LineCount(rest);
      }
    }
  }

  /** "\r\n" between two lines is one boundary. */
  lemma CrLfBetween(first: string, second: string)
    requires NoBreaks(first) && NoBreaks(second) && second != []
    ensures SplitLines(first + "\r\n" + second) == [first, second]
  {
    SplitLinesBreak(first, "\r\n", second);
    SplitLinesSingle(second);
  }

  /** "\r\r" between two lines is two boundaries, with an empty line between them. */
  lemma CrCrBetween(first: string, second: string)
    requires NoBreaks(first) && NoBreaks(second) && second != []
    ensures SplitLines(first + "\r\r" + second) == [first, "", second]
  {
    var tail := "\r" + second;
    assert first + "\r\r" + second == first + "\r" + tail;
    SplitLinesBreak(first, "\r", tail);
    LoneCr(second);
  }

  /** A "\r" with no "\n" after it is a boundary of its own: an empty line comes before `second`. */
  lemma LoneCr(second: string)
    requires NoBreaks(second) && second != []
    ensures SplitLines("\r" + second) == ["", second]
  {
    assert "\r" + second == [] + "\r" + second;
    SplitLinesBreak([], "\r", second);
    SplitLinesSingle(second);
  }

  /** The first line is empty exactly when the text starts with a boundary. */
  lemma FirstLine(s: string)
    requires s != []
    ensures SplitLines(s)[0] == [] <==> IsLineBreak(s[0])
  {
  }
}
