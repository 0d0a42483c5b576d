/**
 * `FileProcessor.process_text`: the report built from decoded text for one
 * of the operations word_count, line_numbers, reverse_lines and uppercase,
 * or a pass-through under a header naming any other operation.
 */
module Transform {
  import opened Strings
  import opened Lines
  import opened Words
  import opened Format

  const WordCount: string := "word_count"
  const LineNumbers: string := "line_numbers"
  const ReverseLines: string := "reverse_lines"
  const Uppercase: string := "uppercase"

  predicate IsKnownOperation(operation: string) {
    operation == WordCount || operation == LineNumbers || operation == ReverseLines || operation == Uppercase
  }

  const StatisticsHeader: string := "=== FILE STATISTICS ===\n"
  const OriginalHeader: string := "=== ORIGINAL CONTENT ===\n"
  const LineNumbersHeader: string := "=== CONTENT WITH LINE NUMBERS ===\n"
  const ReversedHeader: string := "=== CONTENT WITH REVERSED LINE ORDER ===\n"
  const UppercaseHeader: string := "=== CONTENT IN UPPERCASE ===\n"

  function UnknownHeader(operation: string): string {
    "=== PROCESSED CONTENT (unknown operation: " + operation + ") ===\n"
  }

  /** The four figures of the word_count report. */
  datatype Statistics = Statistics(lines: nat, words: nat, characters: nat, nonSpace: nat)

  /**
   * Lines are `len(content.splitlines())`, words the maximal non-whitespace
   * runs, characters `len(content)`, and the last figure drops only the
   * ' ' characters (tabs and newlines still count).
   */
  function ComputeStatistics(content: string): (st: Statistics)
    ensures st.words == WordStarts(content, true)
    ensures st.characters == |content|
    ensures st.nonSpace == |content| - Count(content, ' ')
    ensures st.nonSpace <= st.characters
    ensures st.lines == 0 <==> content == []
  {
    SplitCount(content);
    Statistics(|SplitLines(content)|, |Split(content)|, |content|, |RemoveAll(content, ' ')|)
  }

  function StatisticsReport(st: Statistics, content: string): string {
    Figures(st) + (OriginalHeader + content + "\n")
  }

  /** The report up to the header of the original content. */
  function Figures(st: Statistics): string {
    StatisticsHeader
    + "Lines: " + NatToString(st.lines) + "\n"
    + "Words: " + NatToString(st.words) + "\n"
    + "Characters: " + NatToString(st.characters) + "\n"
    + "Characters (no spaces): " + NatToString(st.nonSpace) + "\n"
    + "\n"
  }

  /** Entry `i` of the line_numbers report: `f"{i+1:3d}: {line}"`. */
  function NumberedLine(i: nat, line: string): string {
    PadLeft(NatToString(i + 1), 3) + ": " + line
  }

  function NumberLines(lines: seq<string>): seq<string> {
    seq(|lines|, i requires 0 <= i < |lines| => NumberedLine(i, lines[i]))
  }

  /** The slice `xs[::-1]`. */
  function Reverse<T>(xs: seq<T>): seq<T> {
    seq(|xs|, i requires 0 <= i < |xs| => xs[|xs| - 1 - i])
  }

  /** `process_text(content, operation)`. */
  function ProcessText(content: string, operation: string): string {
    var lines := SplitLines(content);
    if operation == WordCount then
      StatisticsReport(ComputeStatistics(content), content)
    else if operation == LineNumbers then
      LineNumbersHeader + Join(NumberLines(lines), "\n")
    else if operation == ReverseLines then
      ReversedHeader + Join(Reverse(lines), "\n")
    else if operation == Uppercase then
      UppercaseHeader + Upper(content)
    else
      UnknownHeader(operation) + content
  }

  // ---------------------------------------------------------------- word_count

  /**
   * The word_count report gives the figures of `ComputeStatistics` in
   * decimal and ends with the original content, verbatim, after its header.
   */
  lemma WordCountReport(content: string)
    ensures var r := ProcessText(content, WordCount);
      var tail := OriginalHeader + content + "\n";
      && r == Figures(Statistics(|SplitLines(content)|, WordStarts(content, true), |content|, |content| - Count(content, ' '))) + tail
      && r[|r| - |tail|..] == tail
  {
    var st := ComputeStatistics(content);
    assert ProcessText(content, WordCount) == StatisticsReport(st, content);
    assert st == Statistics(|SplitLines(content)|, WordStarts(content, true), |content|, |content| - Count(content, ' '));
  }

  // -------------------------------------------------------------- line_numbers

  lemma NumberedLineNoBreaks(i: nat, line: string)
    requires NoBreaks(line)
    ensures NoBreaks(NumberedLine(i, line)) && NumberedLine(i, line) != []
  {
    var p := PadLeft(NatToString(i + 1), 3);
    assert forall j :: 0 <= j < |p| ==> p[j] == ' ' || IsDigit(p[j]) by {
      forall j | 0 <= j < |p| ensures p[j] == ' ' || IsDigit(p[j]) {
        var d := NatToString(i + 1);
        if j >= |p| - |d| {
          assert p[j] == p[|p| - |d|..][j - (|p| - |d|)];
        }
      }
    }
    var e := NumberedLine(i, line);
    forall j | 0 <= j < |e| ensures !IsLineBreak(e[j]) {
      if j < |p| {
        assert e[j] == p[j];
      } else if j < |p| + 2 {
        assert e[j] == ": "[j - |p|];
      } else {
        assert e[j] == line[j - |p| - 2];
      }
    }
  }

  /**
   * The line_numbers report, read back with `splitlines`, has exactly one
   * entry per line of the content, and entry `i` is the number `i + 1`
   * right-aligned in three columns, then ": ", then line `i` unchanged.
   */
  lemma LineNumbersLines(content: string)
    ensures var r := ProcessText(content, LineNumbers);
      && r[..|LineNumbersHeader|] == LineNumbersHeader
      && var body := r[|LineNumbersHeader|..];
         var lines := SplitLines(content);
         && |SplitLines(body)| == |lines|
         && forall i :: 0 <= i < |lines| ==>
              SplitLines(body)[i] == PadLeft(NatToString(i + 1), 3) + ": " + lines[i]
  {
    var lines := SplitLines(content);
    var entries := NumberLines(lines);
    forall k | 0 <= k < |entries| ensures NoBreaks(entries[k]) && entries[k] != [] {
      NumberedLineNoBreaks(k, lines[k]);
    }
    SplitLinesJoin(entries);
    var r := ProcessText(content, LineNumbers);
    assert r[|LineNumbersHeader|..] == Join(entries, "\n");
  }

  lemma {:induction false} NatToStringShort(n: nat)
    requires n < 1000
    ensures |NatToString(n)| <= 3
  {
    if n >= 10 {
      NatToStringShort(n / 10);
      if n < 100 {
        assert n / 10 < 10;
      }
    }
  }

  /**
   * Each numbered entry can be taken apart again: stripping the alignment
   * spaces from its number field gives `str(i + 1)`, the field is exactly
   * three columns while `i + 1 <= 999`, and after ": " comes the line.
   */
  lemma NumberedLineParts(i: nat, line: string)
    ensures var e := NumberedLine(i, line);
      var w := |PadLeft(NatToString(i + 1), 3)|;
      && w + 2 <= |e|
      && StripLeadingSpaces(e[..w]) == NatToString(i + 1)
      && e[w..w + 2] == ": "
      && e[w + 2..] == line
      && (i < 999 ==> w == 3)
  {
    var d := NatToString(i + 1);
    var p := PadLeft(d, 3);
    var e := NumberedLine(i, line);
    assert e[..|p|] == p;
    StripPadLeft(d, 3);
    if i < 999 {
      NatToStringShort(i + 1);
    }
  }

  lemma LineNumbersText(content: string)
    ensures ProcessText(content, LineNumbers) == LineNumbersHeader + Join(NumberLines(SplitLines(content)), "\n")
  {
  }

  // ------------------------------------------------------------- reverse_lines

  /** Reversal is its own inverse. */
  lemma ReverseReverse<T>(xs: seq<T>)
    ensures Reverse(Reverse(xs)) == xs
  {
  }

  /** Reversal reorders the lines and neither drops nor adds one. */
  lemma {:induction false} ReversePermutes<T>(xs: seq<T>)
    ensures multiset(Reverse(xs)) == multiset(xs)
  {
    if xs != [] {
      var m := |xs|;
      var init := xs[..m - 1];
      assert Reverse(xs) == [xs[m - 1]] + Reverse(init);
      ReversePermutes(init);
      assert xs == init + [xs[m - 1]];
    }
  }

  /**
   * Unless the content starts with a line boundary (an empty first line),
   * splitting the body of the reverse_lines report gives the content's lines
   * in reverse order, and reversing those gives the content's lines back.
   */
  lemma ReverseLinesRoundTrip(content: string)
    requires content == [] || !IsLineBreak(content[0])
    ensures var r := ProcessText(content, ReverseLines);
      var body := r[|ReversedHeader|..];
      && SplitLines(body) == Reverse(SplitLines(content))
      && Reverse(SplitLines(body)) == SplitLines(content)
  {
    var lines := SplitLines(content);
    if content != [] {
      FirstLine(content);
    }
    SplitLinesJoin(Reverse(lines));
    ReverseReverse(lines);
    var r := ProcessText(content, ReverseLines);
    assert r[|ReversedHeader|..] == Join(Reverse(lines), "\n");
  }

  /**
   * When the content starts with a line boundary, its first line is empty;
   * in the reverse_lines report that line becomes a trailing "\n", so
   * splitting the body gives the reversed lines without their last (empty) one.
   */
  lemma ReverseLinesLeadingBlank(content: string)
    requires content != [] && IsLineBreak(content[0])
    ensures var r := ProcessText(content, ReverseLines);
      var body := r[|ReversedHeader|..];
      var lines := SplitLines(content);
      && lines[0] == []
      && SplitLines(body) == Reverse(lines)[..|lines| - 1]
  {
    var lines := SplitLines(content);
    FirstLine(content);
    var m := |lines|;
    var rev := Reverse(lines);
    var init := rev[..m - 1];
    assert rev == init + [""];
    var r := ProcessText(content, ReverseLines);
    assert r[|ReversedHeader|..] == Join(rev, "\n");
    if m > 1 {
      JoinEmptyLast(init);
      assert AllNoBreaks(init) by {
        forall k | 0 <= k < |init| ensures NoBreaks(init[k]) {
          assert init[k] == lines[m - 1 - k];
        }
      }
      SplitTerminated(init);
    }
  }

  // ----------------------------------------------------------------- uppercase

  /**
   * The uppercase report is its header then text of the content's length
   * with no lower-case letter, equal to the content up to case; upper-casing
   * that body again changes nothing.
   */
  lemma UppercaseReport(content: string)
    ensures var r := ProcessText(content, Uppercase);
      && r[..|UppercaseHeader|] == UppercaseHeader
      && var body := r[|UppercaseHeader|..];
         && |body| == |content|
         && Lower(body) == Lower(content)
         && ProcessText(body, Uppercase) == r
  {
    var r := ProcessText(content, Uppercase);
    assert r[|UppercaseHeader|..] == Upper(content);
    UpperKeepsText(content);
    UpperIdempotent(content);
  }

  // ----------------------------------------------------------------- other

  /** Any other operation returns a header naming it, then the content unmodified. */
  lemma UnknownPassThrough(content: string, operation: string)
    requires !IsKnownOperation(operation)
    ensures var r := ProcessText(content, operation);
      var h := "=== PROCESSED CONTENT (unknown operation: ";
      && |r| == |UnknownHeader(operation)| + |content|
      && r[|h|..|h| + |operation|] == operation
      && r[|UnknownHeader(operation)|..] == content
  {
  }

  // ---------------------------------------------------------------- examples

  /** `"a b\nc\n"` has 2 lines, 3 words, 6 characters, 5 of them not spaces. */
  lemma StatisticsExample()
    ensures ComputeStatistics("a b\nc\n") == Statistics(2, 3, 6, 5)
  {
    ExampleLineCount();
    ExampleWordStarts();
    ExampleSpaceCount();
  }

  lemma ExampleLineCount()
    ensures |SplitLines("a b\nc\n")| == 2
  {
    SplitTerminated(["a b", "c"]);
    assert Terminated(["a b", "c"]) == "a b\nc\n";
  }

  lemma ExampleWordStarts()
    ensures WordStarts("a b\nc\n", true) == 3
  {
    assert WordStarts("\n", false) == 0;
    assert WordStarts("c\n", true) == 1;
    assert WordStarts("\nc\n", false) == 1;
    assert WordStarts("b\nc\n", true) == 2;
    assert WordStarts(" b\nc\n", false) == 2;
  }

  lemma ExampleSpaceCount()
    ensures Count("a b\nc\n", ' ') == 1
  {
    assert Count("\n", ' ') == 0;
    assert Count("c\n", ' ') == 0;
    assert Count("\nc\n", ' ') == 0;
    assert Count("b\nc\n", ' ') == 0;
    assert Count(" b\nc\n", ' ') == 1;
  }

  /** `"x\ny\n"` numbers as "  1: x" and "  2: y". */
  lemma LineNumbersExample()
    ensures ProcessText("x\ny\n", LineNumbers) == LineNumbersHeader + "  1: x\n  2: y"
  {
    var content := "x\ny\n";
    assert SplitLines(content) == ["x", "y"] by {
      SplitTerminated(["x", "y"]);
      assert Terminated(["x", "y"]) == content;
    }
    ExampleNumbering();
    ExampleJoin();
    LineNumbersText(content);
  }

  lemma ExampleJoin()
    ensures Join(["  1: x", "  2: y"], "\n") == "  1: x\n  2: y"
  {
  }

  lemma ExampleNumbering()
    ensures NumberLines(["x", "y"]) == ["  1: x", "  2: y"]
  {
    ExampleNumberedLine(0, "x", '1');
    ExampleNumberedLine(1, "y", '2');
    assert "  " + ['1'] + ": " + "x" == "  1: x";
    assert "  " + ['2'] + ": " + "y" == "  2: y";
  }

  lemma ExampleNumberedLine(i: nat, line: string, digit: char)
    requires i < 9 && digit == DigitChar(i + 1)
    ensures NumberedLine(i, line) == "  " + [digit] + ": " + line
  {
    assert NatToString(i + 1) == [digit];
    assert Spaces(2) == "  ";
  }

  /** `"1\n2\n3"` reverses to the lines "3", "2", "1". */
  lemma ReverseLinesExample()
    ensures ProcessText("1\n2\n3", ReverseLines) == ReversedHeader + "3\n2\n1"
  {
    var lines := ["1", "2", "3"];
    SplitLinesJoin(lines);
    assert Join(lines, "\n") == "1\n2\n3";
    assert Reverse(lines) == ["3", "2", "1"];
  }
}
