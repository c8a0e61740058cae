/**
 * `clean_response`: the four substitutions of `clean_patterns` in order,
 * then `.replace('..', '.')`, `.replace('  ', ' ')` and `.strip()`.
 */
module Cleaner {
  import opened Chars
  import opened PyStr
  import opened PyRe

  /** `clean_patterns`, in the order the loop applies them. */
  const CleanPatterns: seq<Pattern> := [SourceCitation, PageNumber, GaleEncyclopedia, WhitespaceRun]

  /** The text after substituting each pattern of `ps` in turn, first to last. */
  function SubAll(ps: seq<Pattern>, s: string): (r: string)
    ensures |r| <= |s|
    decreases |ps|
  {
    if ps == [] then s else Sub(ps[|ps| - 1], SubAll(ps[..|ps| - 1], s))
  }

  /** What `clean_response(text)` returns. */
  function Cleaned(text: string): (r: string)
    ensures |r| <= |text|
  {
    Strip(Replace(Replace(SubAll(CleanPatterns, text), "..", "."), "  ", " "))
  }

  /** `clean_response`: the loop over the patterns rebinds `text` once per pattern. */
  method CleanResponse(text: string) returns (r: string)
    ensures r == Cleaned(text)
    ensures |r| <= |text| && Trimmed(r) && SingleSpaced(r)
  {
    var t := text;
    for n := 0 to |CleanPatterns|
      invariant t == SubAll(CleanPatterns[..n], text)
    {
      assert CleanPatterns[..n + 1][..n] == CleanPatterns[..n];
      t := Sub(CleanPatterns[n], t);
    }
    assert CleanPatterns[..|CleanPatterns|] == CleanPatterns;
    t := Replace(Replace(t, "..", "."), "  ", " ");
    r := Strip(t);
    CleanedIsTidy(text);
  }

  /** The four substitutions, spelled out. */
  lemma SubAllCleanPatterns(s: string)
    ensures SubAll(CleanPatterns, s) ==
            Sub(WhitespaceRun, Sub(GaleEncyclopedia, Sub(PageNumber, Sub(SourceCitation, s))))
  {
    var ps3 := CleanPatterns[..3];
    var ps2 := ps3[..2];
    var ps1 := ps2[..1];
    assert ps3 == [SourceCitation, PageNumber, GaleEncyclopedia];
    assert ps2 == [SourceCitation, PageNumber];
    assert ps1 == [SourceCitation] && ps1[..0] == [];
    assert SubAll(CleanPatterns, s) == Sub(WhitespaceRun, SubAll(ps3, s));
    assert SubAll(ps3, s) == Sub(GaleEncyclopedia, SubAll(ps2, s));
    assert SubAll(ps2, s) == Sub(PageNumber, SubAll(ps1, s));
    assert SubAll(ps1, s) == Sub(SourceCitation, s);
  }

  /** The `\s+` substitution, applied last, leaves single spacing. */
  lemma SubstitutedSingleSpaced(text: string)
    ensures SingleSpaced(SubAll(CleanPatterns, text))
  {
    SubAllCleanPatterns(text);
    WhitespaceSubSingleSpaced(Sub(GaleEncyclopedia, Sub(PageNumber, Sub(SourceCitation, text))), 0);
  }

  /** `.replace('  ', ' ')` never changes anything: the `\s+` pass left no two adjacent spaces, and `.replace('..', '.')` cannot create any. */
  lemma DoubleSpaceReplaceIsRedundant(text: string)
    ensures Replace(Replace(SubAll(CleanPatterns, text), "..", "."), "  ", " ") ==
            Replace(SubAll(CleanPatterns, text), "..", ".")
  {
    var t := SubAll(CleanPatterns, text);
    SubstitutedSingleSpaced(text);
    ReplaceKeepsSingleSpaced(t, "..", ".");
    DoubleSpaceReplaceIsNoOp(Replace(t, "..", "."));
  }

  /** The result has no whitespace at either end, no whitespace but plain spaces, and never two whitespace characters in a row. */
  lemma CleanedIsTidy(text: string)
    ensures Trimmed(Cleaned(text)) && SingleSpaced(Cleaned(text))
  {
    var t := SubAll(CleanPatterns, text);
    SubstitutedSingleSpaced(text);
    ReplaceKeepsSingleSpaced(t, "..", ".");
    DoubleSpaceReplaceIsRedundant(text);
    StripKeepsSingleSpaced(Replace(t, "..", "."));
  }

  /** Without a `(` there is no citation to remove. */
  lemma NoParenNoCitation(s: string)
    requires forall k | 0 <= k < |s| :: s[k] != '('
    ensures Sub(SourceCitation, s) == s
  {
    forall k, e | 0 <= k < e <= |s| ensures !Matches(SourceCitation, s, k, e) {
      SameIgnoringCaseClass(s[k + 0], SourceOpen[0]);
    }
    SubNoMatch(SourceCitation, s);
  }

  /** Without the word `page` in any case there is no page marker to remove. */
  lemma NoPageWordNoPageNumber(s: string)
    requires forall k | 0 <= k < |s| :: !LiteralAt(s, k, PageWord)
    ensures Sub(PageNumber, s) == s
  {
    SubNoMatch(PageNumber, s);
  }

  /** Without the heading `gale encyclopedia` in any case there is nothing to cut to the end of a line. */
  lemma NoHeadingNoCut(s: string)
    requires forall k | 0 <= k < |s| :: !LiteralAt(s, k, GaleHeading)
    ensures Sub(GaleEncyclopedia, s) == s
  {
    SubNoMatch(GaleEncyclopedia, s);
  }

  /**
   * Input with no `(`, no `page` and no `gale encyclopedia` (in any case) is
   * only whitespace-collapsed, has `..` halved from the left, and is trimmed.
   */
  lemma CleanedPlainText(s: string)
    requires forall k | 0 <= k < |s| :: s[k] != '('
    requires forall k | 0 <= k < |s| :: !LiteralAt(s, k, PageWord)
    requires forall k | 0 <= k < |s| :: !LiteralAt(s, k, GaleHeading)
    ensures Cleaned(s) == Strip(Replace(Sub(WhitespaceRun, s), "..", "."))
  {
    SubAllCleanPatterns(s);
    NoParenNoCitation(s);
    NoPageWordNoPageNumber(s);
    NoHeadingNoCut(s);
    DoubleSpaceReplaceIsRedundant(s);
  }

  /** Whitespace-only text holds no `(`, no `page` and no `gale encyclopedia`. */
  lemma BlankHasNoMarkers(s: string)
    requires IsBlank(s)
    ensures forall k | 0 <= k < |s| :: s[k] != '('
    ensures forall k | 0 <= k < |s| :: !LiteralAt(s, k, PageWord) && !LiteralAt(s, k, GaleHeading)
  {
    forall k | 0 <= k < |s| ensures !LiteralAt(s, k, PageWord) && !LiteralAt(s, k, GaleHeading) {
      SameIgnoringCaseClass(s[k + 0], PageWord[0]);
      SameIgnoringCaseClass(s[k + 0], GaleHeading[0]);
    }
  }

  /** What `\s+` leaves of blank text, `""` or `" "`, ends up empty. */
  lemma CollapsedBlankSettles(c: string)
    requires c == "" || c == " "
    ensures Strip(Replace(c, "..", ".")) == ""
  {
    ReplaceWithoutPeriod(c);
    StripEmptyIffBlank(c);
  }

  /** Empty or all-whitespace input yields the empty string. */
  lemma CleanedBlank(s: string)
    requires IsBlank(s)
    ensures Cleaned(s) == ""
  {
    BlankHasNoMarkers(s);
    CleanedPlainText(s);
    WhitespaceSubBlank(s);
    CollapsedBlankSettles(Sub(WhitespaceRun, s));
  }
}
