/**
 * The few string operations of Python's `str` that the editor relies on:
 * `strip()`, `lower()`, `startswith()` and the substring test `sub in s`.
 * Strings are sequences of Unicode scalar values, as in Python 3.
 */
module Text {

  /** Python's `str.isspace()`: the characters `strip()` removes when called without arguments. */
  predicate IsSpace(ch: char) {
    || ('\t' <= ch <= '\r')                 // \t \n \v \f \r
    || ('\U{1C}' <= ch <= '\U{1F}')         // file, group, record and unit separators
    || ch == ' ' || ch == '\U{85}' || ch == '\U{A0}' || ch == '\U{1680}'
    || ('\U{2000}' <= ch <= '\U{200A}')
    || ch == '\U{2028}' || ch == '\U{2029}' || ch == '\U{202F}' || ch == '\U{205F}'
    || ch == '\U{3000}'
  }

  predicate AllSpace(s: string) {
    forall i :: 0 <= i < |s| ==> IsSpace(s[i])
  }

  /** Non-empty, and neither starting nor ending with whitespace. */
  predicate Trimmed(s: string) {
    s != [] && !IsSpace(s[0]) && !IsSpace(s[|s| - 1])
  }

  /**
   * Python's `s.strip()`: whitespace is dropped from both ends. The result is empty exactly when
   * `s` holds whitespace only, and otherwise neither starts nor ends with whitespace.
   */
  function Strip(s: string): (r: string)
    ensures |r| <= |s|
    ensures r == [] <==> AllSpace(s)
    ensures r != [] ==> Trimmed(r)
    decreases |s|
  {
    if |s| > 0 && IsSpace(s[0]) then
      assert forall i :: 0 < i < |s| ==> s[i] == s[1..][i - 1];
      Strip(s[1..])
    else if |s| > 0 && IsSpace(s[|s| - 1]) then
      assert forall i :: 0 <= i < |s| - 1 ==> s[i] == s[..|s| - 1][i];
      Strip(s[..|s| - 1])
    else s
  }

  /**
   * What `Strip` keeps is the slice of `s` starting at `a`, and everything before and after that
   * slice is whitespace.
   */
  lemma {:induction false} StripIsSlice(s: string) returns (a: nat)
    ensures SliceAt(s, a, Strip(s))
    ensures forall i :: 0 <= i < a ==> IsSpace(s[i])
    ensures forall i :: a + |Strip(s)| <= i < |s| ==> IsSpace(s[i])
    decreases |s|
  {
    var r := Strip(s);
    if |s| > 0 && IsSpace(s[0]) {
      var b := StripIsSlice(s[1..]);
      a := b + 1;
      assert s[1..][b..b + |r|] == s[a..a + |r|];
      forall i | 0 < i < |s| ensures s[i] == s[1..][i - 1] { }
    } else if |s| > 0 && IsSpace(s[|s| - 1]) {
      var t := s[..|s| - 1];
      a := StripIsSlice(t);
      assert t[a..a + |r|] == s[a..a + |r|];
      forall i | 0 <= i < |t| ensures s[i] == t[i] { }
    } else {
      a := 0;
      assert s[0..|r|] == r;
    }
  }

  /** Stripping a stripped text changes nothing. */
  lemma StripIsStripped(s: string)
    ensures Strip(Strip(s)) == Strip(s)
  {
  }

  /** `r` occurs in `s` starting at position `a`. */
  predicate SliceAt(s: string, a: nat, r: string) {
    a + |r| <= |s| && s[a..a + |r|] == r
  }

  /** Python's `str.lower()` restricted to ASCII: `A`..`Z` become `a`..`z`, everything else is kept. */
  function LowerChar(ch: char): (r: char)
    ensures !('A' <= r <= 'Z')
    ensures ('A' <= ch <= 'Z') || r == ch
  {
    if 'A' <= ch <= 'Z' then (ch as int + 32) as char else ch
  }

  function Lower(s: string): (r: string)
    ensures |r| == |s|
    ensures forall i :: 0 <= i < |s| ==> r[i] == LowerChar(s[i])
  {
    if s == [] then [] else [LowerChar(s[0])] + Lower(s[1..])
  }

  /** Lower-casing twice is lower-casing once. */
  lemma LowerIdempotent(s: string)
    ensures Lower(Lower(s)) == Lower(s)
  {
    assert forall i :: 0 <= i < |s| ==> LowerChar(LowerChar(s[i])) == LowerChar(s[i]);
  }

  /** Python's `s.startswith(prefix)`. */
  predicate StartsWith(s: string, prefix: string) {
    |prefix| <= |s| && s[..|prefix|] == prefix
  }

  /** Python's `sub in s`: `sub` occurs at some position of `s`. */
  predicate Contains(s: string, sub: string) {
    exists i :: 0 <= i <= |s| && StartsWith(s[i..], sub)
  }

  /** A prefix of `s` is contained in it (position 0 is a witness). */
  lemma StartsWithContains(s: string, sub: string)
    requires StartsWith(s, sub)
    ensures Contains(s, sub)
  {
    assert s[0..] == s;
  }

  /** Nothing longer than `s` is contained in it. */
  lemma LongerNotContained(s: string, sub: string)
    requires |sub| > |s|
    ensures !Contains(s, sub)
  {
  }
}
