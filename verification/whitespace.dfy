/**
 * `String.prototype.trim`: removal of leading and trailing white space and
 * line terminators, as ECMAScript defines them (sections 12.2 and 12.3 of
 * ECMA-262: tab, vertical tab, form feed, the byte order mark, every
 * character of Unicode category Zs, line feed, carriage return, and the
 * line and paragraph separators).
 */
module Whitespace {

  predicate IsWhitespace(c: char) {
    || c == '\t' || c == '\U{000B}' || c == '\U{000C}' || c == '\U{FEFF}'
    || c == ' ' || c == '\U{00A0}' || c == '\U{1680}' || ('\U{2000}' <= c <= '\U{200A}')
    || c == '\U{202F}' || c == '\U{205F}' || c == '\U{3000}'
    || c == '\n' || c == '\r' || c == '\U{2028}' || c == '\U{2029}'
  }

  /** Every character of `s` is white space. */
  predicate IsBlank(s: string) {
    forall i :: 0 <= i < |s| ==> IsWhitespace(s[i])
  }

  /** How many white-space characters `s` starts with. */
  function LeadingWhitespace(s: string): (n: nat)
    ensures n <= |s|
    ensures IsBlank(s[..n])
    ensures n < |s| ==> !IsWhitespace(s[n])
  {
    if |s| > 0 && IsWhitespace(s[0]) then
      var m := LeadingWhitespace(s[1..]);
      assert s[..1 + m] == [s[0]] + s[1..][..m];
      1 + m
    else 0
  }

  /** How many white-space characters `s` ends with. */
  function TrailingWhitespace(s: string): (n: nat)
    ensures n <= |s|
    ensures IsBlank(s[|s| - n..])
    ensures n < |s| ==> !IsWhitespace(s[|s| - n - 1])
  {
    if |s| > 0 && IsWhitespace(s[|s| - 1]) then
      var init := s[..|s| - 1];
      var m := TrailingWhitespace(init);
      assert s[|s| - (1 + m)..] == init[|init| - m..] + [s[|s| - 1]];
      1 + m
    else 0
  }

  /** `s.trim()`: the slice of `s` left once the white space at both ends
      is cut away; it neither starts nor ends with white space. */
  function Trim(s: string): (t: string)
    ensures exists a, b :: 0 <= a <= b <= |s| && t == s[a..b] && IsBlank(s[..a]) && IsBlank(s[b..])
    ensures |t| > 0 ==> !IsWhitespace(t[0]) && !IsWhitespace(t[|t| - 1])
  {
    var a := LeadingWhitespace(s);
    var rest := s[a..];
    var n := TrailingWhitespace(rest);
    var b := |s| - n;
    assert rest[..|rest| - n] == s[a..b];
    assert rest[|rest| - n..] == s[b..];
    rest[..|rest| - n]
  }

  /** A trimmed string is empty exactly when the original is all white space. */
  lemma TrimEmptyIffBlank(s: string)
    ensures Trim(s) == "" <==> IsBlank(s)
  {
    var a := LeadingWhitespace(s);
    var rest := s[a..];
    var n := TrailingWhitespace(rest);
    assert Trim(s) == rest[..|rest| - n];
    if n == |rest| {
      assert s == s[..a] + rest;
      assert rest == rest[|rest| - n..];
    } else {
      assert s[a + |rest| - n - 1] == rest[|rest| - n - 1];
    }
  }

  /** Leading white space, when there is any, starts at the first character. */
  lemma LeadingStartsAtFront(s: string)
    ensures LeadingWhitespace(s) > 0 ==> IsWhitespace(s[0])
  {
    var n := LeadingWhitespace(s);
    if n > 0 {
      assert s[..n][0] == s[0];
    }
  }

  /** Trailing white space, when there is any, ends at the last character. */
  lemma TrailingEndsAtBack(s: string)
    ensures TrailingWhitespace(s) > 0 ==> IsWhitespace(s[|s| - 1])
  {
    var n := TrailingWhitespace(s);
    if n > 0 {
      assert s[|s| - n..][n - 1] == s[|s| - 1];
    }
  }

  /** Trimming twice is trimming once. */
  lemma TrimIdempotent(s: string)
    ensures Trim(Trim(s)) == Trim(s)
  {
    var t := Trim(s);
    LeadingStartsAtFront(t);
    TrailingEndsAtBack(t);
  }
}
