/**
 * Character classes that Python's `str` methods and `re` patterns rely on.
 * Whitespace is Python's own list; digits, word characters and case folding
 * are restricted to ASCII.
 */
module Chars {

  /** `c.isspace()`, which is also the `\s` class of a `str` pattern. */
  predicate IsSpace(c: char) {
    c == ' ' || '\t' <= c <= '\r' || '\U{1C}' <= c <= '\U{1F}' ||
    c == '\U{85}' || c == '\U{A0}' || c == '\U{1680}' ||
    '\U{2000}' <= c <= '\U{200A}' || c == '\U{2028}' || c == '\U{2029}' ||
    c == '\U{202F}' || c == '\U{205F}' || c == '\U{3000}'
  }

  /** The `\d` class. */
  predicate IsDigit(c: char) {
    '0' <= c <= '9'
  }

  /** The `\w` class. */
  predicate IsWordChar(c: char) {
    'a' <= c <= 'z' || 'A' <= c <= 'Z' || IsDigit(c) || c == '_'
  }

  /** The case folding `re.IGNORECASE` applies before comparing characters. */
  function FoldCase(c: char): (f: char)
    ensures !('A' <= f <= 'Z')
  {
    if 'A' <= c <= 'Z' then (c as int + 32) as char else c
  }

  predicate SameIgnoringCase(a: char, b: char) {
    FoldCase(a) == FoldCase(b)
  }

  /** Folding twice is folding once. */
  lemma FoldCaseIdempotent(c: char)
    ensures FoldCase(FoldCase(c)) == FoldCase(c)
  {
  }

  /**
   * Two characters are equal ignoring case exactly when they are equal, or
   * one is an upper-case ASCII letter and the other its lower-case form.
   */
  lemma SameIgnoringCaseIff(a: char, b: char)
    ensures SameIgnoringCase(a, b) <==>
      a == b || ('A' <= a <= 'Z' && b as int == a as int + 32) || ('A' <= b <= 'Z' && a as int == b as int + 32)
  {
  }

  /** Case folding keeps characters inside the word class, and a non-word character matches only itself. */
  lemma SameIgnoringCaseClass(a: char, b: char)
    ensures SameIgnoringCase(a, b) && IsWordChar(b) ==> IsWordChar(a)
    ensures SameIgnoringCase(a, b) && !IsWordChar(b) ==> a == b
  {
  }

  /** Every whitespace character is a plain space, and no two whitespace characters are adjacent. */
  predicate SingleSpaced(s: string) {
    (forall k | 0 <= k < |s| && IsSpace(s[k]) :: s[k] == ' ') && NoAdjacentSpaces(s)
  }

  /** A character put in front of single-spaced text keeps it single-spaced when it is not whitespace, or a space before non-whitespace. */
  lemma SingleSpacedCons(c: char, rest: string)
    requires SingleSpaced(rest)
    requires IsSpace(c) ==> c == ' ' && (rest == [] || !IsSpace(rest[0]))
    ensures SingleSpaced([c] + rest)
  {
    var r := [c] + rest;
    forall k | 0 < k < |r| ensures r[k] == rest[k - 1] {
    }
  }

  /** No two whitespace characters stand next to each other. */
  predicate NoAdjacentSpaces(s: string) {
    forall j, k | 0 <= j < |s| && 0 <= k < |s| && k == j + 1 :: !(IsSpace(s[j]) && IsSpace(s[k]))
  }

  /** Each whitespace character of `s` written as a plain space. */
  function Blanked(s: string): string {
    seq(|s|, k requires 0 <= k < |s| => if IsSpace(s[k]) then ' ' else s[k])
  }

  /** No whitespace at either end. */
  predicate Trimmed(s: string) {
    s == [] || (!IsSpace(s[0]) && !IsSpace(s[|s| - 1]))
  }

  /** Every character is whitespace (the empty string included). */
  predicate IsBlank(s: string) {
    forall k | 0 <= k < |s| :: IsSpace(s[k])
  }
}
