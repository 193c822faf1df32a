/**
 * Character classes and case folding shared by the text scanners. The
 * scanners model JavaScript regular expressions without the `u` flag, where
 * `\d` is 0-9 and `\b` separates [A-Za-z0-9_] from everything else. Under the
 * `i` flag no non-ASCII character folds onto an ASCII one; every letter of
 * the patterns modelled here is ASCII, so comparing under ASCII case folding
 * alone accepts exactly the same text.
 */
module TextScan {

  predicate IsDigit(c: char)
  {
    '0' <= c <= '9'
  }

  predicate IsWordChar(c: char)
  {
    ('a' <= c <= 'z') || ('A' <= c <= 'Z') || IsDigit(c) || c == '_'
  }

  function Upper(c: char): char
  {
    if 'a' <= c <= 'z' then (c as int - 32) as char else c
  }

  /** String.prototype.toUpperCase restricted to the characters a size token can hold. */
  function UpperString(s: string): (u: string)
    ensures |u| == |s|
  {
    seq(|s|, i requires 0 <= i < |s| => Upper(s[i]))
  }

  /** `word` occurs at position p of `text`, ignoring ASCII case. */
  predicate MatchesAt(text: string, p: nat, word: string)
  {
    p + |word| <= |text| && forall j :: 0 <= j < |word| ==> Upper(text[p + j]) == Upper(word[j])
  }

  /** `\b` at position i: a word character on exactly one side. */
  predicate AtWordBoundary(text: string, i: nat)
    requires i <= |text|
  {
    (i > 0 && IsWordChar(text[i - 1])) != (i < |text| && IsWordChar(text[i]))
  }
}
