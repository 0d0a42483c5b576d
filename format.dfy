/**
 * Character-level formatting used by the reports: `str(n)` for a natural
 * number, the `{:3d}` right alignment, `str.upper()` (ASCII case mapping) and
 * `str.replace(' ', '')`.
 */
module Format {
  import opened Strings

  predicate IsDigit(c: char) { '0' <= c <= '9' }

  predicate AllDigits(s: string) {
    forall j :: 0 <= j < |s| ==> IsDigit(s[j])
  }

  function DigitChar(d: nat): (c: char)
    requires d < 10
    ensures IsDigit(c)
  {
    ('0' as int + d) as char
  }

  function DigitValue(c: char): (d: nat)
    requires IsDigit(c)
    ensures d < 10 && DigitChar(d) == c
  {
    c as int - '0' as int
  }

  /** `str(n)`: the decimal digits of `n`, with no leading zero except for `n == 0`. */
  function NatToString(n: nat): (s: string)
    ensures s != [] && AllDigits(s)
    ensures s[0] == '0' ==> n == 0 && |s| == 1
    decreases n
  {
    if n < 10 then [DigitChar(n)] else NatToString(n / 10) + [DigitChar(n % 10)]
  }

  /** The value of a string of decimal digits. */
  function ParseDigits(s: string): nat
    requires AllDigits(s)
  {
    if s == [] then 0 else 10 * ParseDigits(s[..|s| - 1]) + DigitValue(s[|s| - 1])
  }

  /** Reading back the digits `str(n)` produced gives `n`. */
  lemma {:induction false} ParseNatToString(n: nat)
    ensures ParseDigits(NatToString(n)) == n
    decreases n
  {
    var s := NatToString(n);
    if n >= 10 {
      assert s[..|s| - 1] == NatToString(n / 10);
      ParseNatToString(n / 10);
    }
  }

  function Spaces(n: nat): (s: string)
    ensures |s| == n && forall j :: 0 <= j < n ==> s[j] == ' '
  {
    seq(n, _ => ' ')
  }

  /** Right alignment in a field of `width` columns, as `{:3d}` does for width 3. */
  function PadLeft(s: string, width: nat): (r: string)
    ensures |r| == if |s| < width then width else |s|
    ensures r[|r| - |s|..] == s
    ensures forall j :: 0 <= j < |r| - |s| ==> r[j] == ' '
  {
    if |s| < width then Spaces(width - |s|) + s else s
  }

  /** `s.lstrip(' ')`. */
  function StripLeadingSpaces(s: string): (r: string)
    ensures r == [] || r[0] != ' '
    ensures |r| <= |s| && r == s[|s| - |r|..]
  {
    if s != [] && s[0] == ' ' then StripLeadingSpaces(s[1..]) else s
  }

  /** Padding is undone by stripping the leading spaces, for text that does not itself start with one. */
  lemma {:induction false} StripPadLeft(s: string, width: nat)
    requires s == [] || s[0] != ' '
    ensures StripLeadingSpaces(PadLeft(s, width)) == s
  {
    StripSpaces(PadLeft(s, width), if |s| < width then width - |s| else 0);
  }

  lemma {:induction false} StripSpaces(t: string, k: nat)
    requires k <= |t| && forall j :: 0 <= j < k ==> t[j] == ' '
    requires k == |t| || t[k] != ' '
    ensures StripLeadingSpaces(t) == t[k..]
  {
    if k > 0 {
      StripSpaces(t[1..], k - 1);
      assert t[1..][k - 1..] == t[k..];
    }
  }

  predicate IsLower(c: char) { 'a' <= c <= 'z' }

  predicate IsUpper(c: char) { 'A' <= c <= 'Z' }

  function UpperChar(c: char): char {
    if IsLower(c) then (c as int - 32) as char else c
  }

  function LowerChar(c: char): char {
    if IsUpper(c) then (c as int + 32) as char else c
  }

  /** `s.upper()` under ASCII case mapping. */
  function Upper(s: string): (r: string)
    ensures |r| == |s|
    ensures forall j :: 0 <= j < |r| ==> !IsLower(r[j])
  {
    seq(|s|, j requires 0 <= j < |s| => UpperChar(s[j]))
  }

  /** `s.lower()` under ASCII case mapping; used to say what upper-casing keeps. */
  function Lower(s: string): (r: string)
    ensures |r| == |s|
    ensures forall j :: 0 <= j < |r| ==> !IsUpper(r[j])
  {
    seq(|s|, j requires 0 <= j < |s| => LowerChar(s[j]))
  }

  /** Upper-casing twice is upper-casing once. */
  lemma UpperIdempotent(s: string)
    ensures Upper(Upper(s)) == Upper(s)
  {
  }

  /** Upper-casing changes only the case of letters: both texts have the same lower-case form. */
  lemma UpperKeepsText(s: string)
    ensures Lower(Upper(s)) == Lower(s)
  {
  }

  /** Upper-casing leaves every character that is not an ASCII lower-case letter in place. */
  lemma UpperFixesNonLetters(s: string, j: nat)
    requires j < |s| && !IsLower(s[j])
    ensures Upper(s)[j] == s[j]
  {
  }

  /** `s.replace(c, '')`. */
  function RemoveAll(s: string, c: char): (r: string)
    ensures c !in r
    ensures |r| == |s| - Count(s, c)
  {
    if s == [] then []
    else if s[0] == c then RemoveAll(s[1..], c)
    else [s[0]] + RemoveAll(s[1..], c)
  }

  /** Removing `c` keeps every other character as often as it occurred. */
  lemma {:induction false} RemoveAllKeepsOthers(s: string, c: char, d: char)
    requires d != c
    ensures Count(RemoveAll(s, c), d) == Count(s, d)
  {
    if s != [] {
      RemoveAllKeepsOthers(s[1..], c, d);
      if s[0] != c {
        assert ([s[0]] + RemoveAll(s[1..], c))[1..] == RemoveAll(s[1..], c);
      }
    }
  }
}
