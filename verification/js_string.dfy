/**
  The few JavaScript string primitives the page's logic relies on:
  `String.prototype.trim` and `String.prototype.replace` with a string
  pattern and an empty replacement. Strings are sequences of characters.
 */
module JsString {

  /** The ECMAScript WhiteSpace and LineTerminator code points: exactly what `trim` strips. */
  const Whitespace: set<char> := {
    '\t', '\n', '\U{000B}', '\U{000C}', '\r', ' ', '\U{00A0}', '\U{1680}',
    '\U{2000}', '\U{2001}', '\U{2002}', '\U{2003}', '\U{2004}', '\U{2005}',
    '\U{2006}', '\U{2007}', '\U{2008}', '\U{2009}', '\U{200A}',
    '\U{2028}', '\U{2029}', '\U{202F}', '\U{205F}', '\U{3000}', '\U{FEFF}'
  }

  predicate IsWhitespace(c: char) {
    c in Whitespace
  }

  predicate AllWhitespace(s: string) {
    forall k :: 0 <= k < |s| ==> IsWhitespace(s[k])
  }

  /** The first non-blank of `s` at or after `from`, or `|s|` when there is none. */
  function SkipBlanks(s: string, from: nat): (i: nat)
    requires from <= |s|
    ensures from <= i <= |s|
    ensures forall k :: from <= k < i ==> IsWhitespace(s[k])
    ensures i < |s| ==> !IsWhitespace(s[i])
    decreases |s| - from
  {
    if from < |s| && IsWhitespace(s[from]) then SkipBlanks(s, from + 1) else from
  }

  /** Where the run of blanks that ends at `to` starts: one past the last non-blank of `s[..to]`, or 0. */
  function SkipBlanksBack(s: string, to: nat): (j: nat)
    requires to <= |s|
    ensures j <= to
    ensures forall k :: j <= k < to ==> IsWhitespace(s[k])
    ensures j > 0 ==> !IsWhitespace(s[j - 1])
  {
    if to > 0 && IsWhitespace(s[to - 1]) then SkipBlanksBack(s, to - 1) else to
  }

  /** Strips leading whitespace. */
  function TrimStart(s: string): string {
    s[SkipBlanks(s, 0)..]
  }

  /** Strips trailing whitespace. */
  function TrimEnd(s: string): string {
    s[..SkipBlanksBack(s, |s|)]
  }

  /** `s.trim()`: it only ever removes characters, and a string it does not shorten is returned as is. */
  function Trim(s: string): (r: string)
    ensures |r| <= |s|
    ensures |r| == |s| ==> r == s
  {
    TrimEnd(TrimStart(s))
  }

  /** Where the text kept by `trim` starts in `s`. */
  function TrimOffset(s: string): (i: nat)
    ensures i <= |s|
  {
    SkipBlanks(s, 0)
  }

  /** `trim` cuts `s` into a blank part, the kept part and another blank part. */
  lemma TrimSplits(s: string)
    ensures TrimOffset(s) + |Trim(s)| <= |s|
    ensures Trim(s) == s[TrimOffset(s)..TrimOffset(s) + |Trim(s)|]
    ensures AllWhitespace(s[..TrimOffset(s)]) && AllWhitespace(s[TrimOffset(s) + |Trim(s)|..])
  {
    var i := SkipBlanks(s, 0);
    var t := s[i..];
    var j := SkipBlanksBack(t, |t|);
    assert Trim(s) == s[i..i + j];
    assert forall k :: 0 <= k < i ==> s[..i][k] == s[k];
    assert s[i + j..] == t[j..];
  }

  /** The text `trim` keeps neither starts nor ends with a blank. */
  lemma TrimKeepsNoBlankEnds(s: string)
    ensures Trim(s) != [] ==> !IsWhitespace(Trim(s)[0]) && !IsWhitespace(Trim(s)[|Trim(s)| - 1])
  {
    var i := SkipBlanks(s, 0);
    var t := s[i..];
    var j := SkipBlanksBack(t, |t|);
    if j > 0 {
      assert Trim(s)[0] == t[0] && Trim(s)[j - 1] == t[j - 1];
    }
  }

  /** A trimmed string is empty exactly when the input is blank (`!s.trim()` in the source). */
  lemma TrimEmptyIffBlank(s: string)
    ensures Trim(s) == [] <==> AllWhitespace(s)
  {
    var i := SkipBlanks(s, 0);
    var t := s[i..];
    var j := SkipBlanksBack(t, |t|);
    if Trim(s) != [] && i < |s| {
      assert !IsWhitespace(s[i]);
    }
  }

  /** Trimming twice is trimming once. */
  lemma TrimIdempotent(s: string)
    ensures Trim(Trim(s)) == Trim(s)
  {
    var r := Trim(s);
    TrimKeepsNoBlankEnds(s);
    assert SkipBlanks(r, 0) == 0;
    assert TrimStart(r) == r;
    assert SkipBlanksBack(r, |r|) == |r|;
    assert TrimEnd(r) == r;
  }

  /** `pat` occurs in `s` starting at index `i`. */
  predicate OccursAt(s: string, pat: string, i: int) {
    0 <= i <= |s| - |pat| && s[i..i + |pat|] == pat
  }

  /** `s.indexOf(pat, from)`, for `from` within `s`: the least index at or after `from` where `pat` occurs, or -1. */
  function IndexFrom(s: string, pat: string, from: nat): (r: int)
    requires from <= |s|
    ensures r == -1 || (from <= r && OccursAt(s, pat, r))
    ensures forall i :: from <= i && (r == -1 || i < r) ==> !OccursAt(s, pat, i)
    decreases |s| - from
  {
    if |s| - from < |pat| then -1
    else if s[from..from + |pat|] == pat then from
    else IndexFrom(s, pat, from + 1)
  }

  /** `s.indexOf(pat)`. */
  function IndexOf(s: string, pat: string): (r: int)
    ensures r == -1 || OccursAt(s, pat, r)
    ensures forall i :: 0 <= i && (r == -1 || i < r) ==> !OccursAt(s, pat, i)
  {
    IndexFrom(s, pat, 0)
  }

  /** `s.replace(pat, '')`: removes the first occurrence of `pat`, if any. */
  function RemoveFirst(s: string, pat: string): (r: string)
    ensures |r| == if IndexOf(s, pat) < 0 then |s| else |s| - |pat|
    ensures r == s <==> IndexOf(s, pat) < 0 || pat == ""
  {
    var i := IndexOf(s, pat);
    if i < 0 then s else s[..i] + s[i + |pat|..]
  }

  /** Removing a pattern that starts the string removes exactly that prefix. */
  lemma RemoveLeading(pat: string, rest: string)
    ensures RemoveFirst(pat + rest, pat) == rest
  {
    var s := pat + rest;
    assert OccursAt(s, pat, 0) by { assert s[0..|pat|] == pat; }
    assert s[|pat|..] == rest;
  }

  /** `replace` acts at the leftmost occurrence: the text before it and after it are kept. */
  lemma RemoveAtFirstOccurrence(s: string, pat: string, i: nat)
    requires OccursAt(s, pat, i)
    requires forall j :: 0 <= j < i ==> !OccursAt(s, pat, j)
    ensures RemoveFirst(s, pat) == s[..i] + s[i + |pat|..]
  {
    assert IndexOf(s, pat) == i;
  }

  /** Removing a pattern that does not occur leaves the string as it is. */
  lemma RemoveAbsent(s: string, pat: string)
    requires forall i :: 0 <= i <= |s| - |pat| ==> !OccursAt(s, pat, i)
    ensures RemoveFirst(s, pat) == s
  {
  }
}
