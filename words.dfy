/** Python's `str.split()` with no separator: the maximal runs of non-whitespace. */
module Words {
  import opened Lines

  /** The characters `str.split()` treats as whitespace (those for which `str.isspace()` holds). */
  predicate IsSpace(c: char) {
    || c == ' ' || c == '\t' || c == '\n' || c == '\r'
    || c == '\U{0B}' || c == '\U{0C}'
    || ('\U{1C}' <= c <= '\U{1F}')
    || c == '\U{85}' || c == '\U{A0}' || c == '\U{1680}'
    || ('\U{2000}' <= c <= '\U{200A}')
    || c == '\U{2028}' || c == '\U{2029}' || c == '\U{202F}' || c == '\U{205F}' || c == '\U{3000}'
  }

  predicate NoSpaces(s: string) {
    forall j :: 0 <= j < |s| ==> !IsSpace(s[j])
  }

  /** Length of the non-whitespace prefix of `s`. */
  function RunLength(s: string): (n: nat)
    ensures n <= |s| && NoSpaces(s[..n])
    ensures n < |s| ==> IsSpace(s[n])
  {
    if s == [] || IsSpace(s[0]) then 0
    else
      var k := RunLength(s[1..]);
      assert s[..k + 1] == [s[0]] + s[1..][..k];
      1 + k
  }

  /** `s.split()`: every word is a non-empty run containing no whitespace. */
  function Split(s: string): (words: seq<string>)
    ensures forall k :: 0 <= k < |words| ==> words[k] != [] && NoSpaces(words[k])
    decreases |s|
  {
    if s == [] then []
    else if IsSpace(s[0]) then Split(s[1..])
    else
      var n := RunLength(s);
      [s[..n]] + Split(s[n..])
  }

  /**
   * Reference count of words: the positions holding a non-whitespace
   * character that starts the text or follows whitespace.
   */
  function WordStarts(s: string, afterSpace: bool): nat {
    if s == [] then 0
    else (if afterSpace && !IsSpace(s[0]) then 1 else 0) + WordStarts(s[1..], IsSpace(s[0]))
  }

  /** Inside a word no new word starts; the count resumes after the word's end. */
  lemma {:induction false} SkipRun(t: string, k: nat)
    requires k <= |t| && NoSpaces(t[..k])
    requires k == |t| || IsSpace(t[k])
    ensures WordStarts(t, false) == WordStarts(t[k..], true)
  {
    if k > 0 {
      assert !IsSpace(t[..k][0]);
      assert t[1..][..k - 1] == t[..k][1..];
      SkipRun(t[1..], k - 1);
      assert t[1..][k - 1..] == t[k..];
    }
  }

  /** The number of words `split()` returns is the number of word starts. */
  lemma {:induction false} SplitCount(s: string)
    ensures |Split(s)| == WordStarts(s, true)
    decreases |s|
  {
    if s != [] {
      if IsSpace(s[0]) {
        SplitCount(s[1..]);
      } else {
        var n := RunLength(s);
        assert s[1..][..n - 1] == s[..n][1..];
        SkipRun(s[1..], n - 1);
        assert s[1..][n - 1..] == s[n..];
        SplitCount(s[n..]);
      }
    }
  }

  /** Splitting words joined by single spaces gives the words back. */
  lemma {:induction false} SplitJoinedWords(ws: seq<string>)
    requires forall k :: 0 <= k < |ws| ==> ws[k] != [] && NoSpaces(ws[k])
    ensures Split(Join(ws, " ")) == ws
  {
    if |ws| == 1 {
      SplitWord(ws[0], []);
      assert ws[0] + [] == ws[0];
    } else if |ws| > 1 {
      var rest := Join(ws[1..], " ");
      assert Join(ws, " ") == ws[0] + (" " + rest);
      SplitWord(ws[0], " " + rest);
      assert Split(" " + rest) == Split(rest) by {
        assert (" " + rest)[1..] == rest;
      }
      assert forall k :: 0 <= k < |ws| - 1 ==> ws[1..][k] == ws[k + 1];
      SplitJoinedWords(ws[1..]);
      assert ws == [ws[0]] + ws[1..];
    }
  }

  /** A word followed by nothing or by whitespace is the first word of the text. */
  lemma SplitWord(w: string, tail: string)
    requires w != [] && NoSpaces(w)
    requires tail == [] || IsSpace(tail[0])
    ensures Split(w + tail) == [w] + Split(tail)
  {
    var s := w + tail;
    RunWhole(w, tail);
    assert s[0] == w[0];
    assert s[..|w|] == w;
    assert s[|w|..] == tail;
  }

  /** A whole word followed by nothing or by whitespace is one run. */
  lemma {:induction false} RunWhole(w: string, tail: string)
    requires NoSpaces(w)
    requires tail == [] || IsSpace(tail[0])
    ensures RunLength(w + tail) == |w|
  {
    if w == [] {
      assert w + tail == tail;
    } else {
      assert (w + tail)[0] == w[0];
      assert (w + tail)[1..] == w[1..] + tail;
      RunWhole(w[1..], tail);
    }
  }
}
