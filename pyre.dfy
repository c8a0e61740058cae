/**
 * `re.sub(pattern, ' ', text, flags=re.IGNORECASE)` for the four patterns of
 * the response cleaner. Each pattern is described twice: declaratively by
 * `Matches` (which spans are matches, and which end the greedy or lazy
 * quantifier picks) and operationally by the scanner `MatchAt`.
 */
module PyRe {
  import opened Chars
  import opened Wrappers

  /** The cleaner's patterns, `\(Source:.*?\)`, `\bPage\s\d+`, `\bGALE ENCYCLOPEDIA.*` and `\s+`. */
  datatype Pattern = SourceCitation | PageNumber | GaleEncyclopedia | WhitespaceRun

  const SourceOpen: string := "(Source:"
  const PageWord: string := "Page"
  const GaleHeading: string := "GALE ENCYCLOPEDIA"

  /** The `.` class: any character except a newline. */
  predicate IsDotChar(c: char) {
    c != '\n'
  }

  /** A character the lazy `.*?` of `\(Source:.*?\)` steps over before the closing `)`. */
  predicate InLazyBody(c: char) {
    IsDotChar(c) && c != ')'
  }

  /** `\b` at index `i`: word characters on exactly one side. */
  predicate WordBoundary(s: string, i: nat) {
    (0 < i <= |s| && IsWordChar(s[i - 1])) != (i < |s| && IsWordChar(s[i]))
  }

  /** The literal `lit` occurs at index `i`, ignoring case. */
  predicate LiteralAt(s: string, i: nat, lit: string) {
    i + |lit| <= |s| && forall k | 0 <= k < |lit| :: SameIgnoringCase(s[i + k], lit[k])
  }

  /**
   * `s[i..e]` is what the pattern matches when the regex engine tries it at
   * index `i`: for the lazy `.*?` the shortest span that ends in `)`, for the
   * greedy `\d+`, `.*` and `\s+` the longest run.
   */
  predicate Matches(p: Pattern, s: string, i: nat, e: nat) {
    i < e <= |s| &&
    match p
    case SourceCitation =>
      LiteralAt(s, i, SourceOpen) && i + |SourceOpen| < e && s[e - 1] == ')' &&
      forall k | i + |SourceOpen| <= k < e - 1 :: InLazyBody(s[k])
    case PageNumber =>
      WordBoundary(s, i) && LiteralAt(s, i, PageWord) && i + |PageWord| + 1 < e &&
      IsSpace(s[i + |PageWord|]) &&
      (forall k | i + |PageWord| + 1 <= k < e :: IsDigit(s[k])) &&
      (e == |s| || !IsDigit(s[e]))
    case GaleEncyclopedia =>
      WordBoundary(s, i) && LiteralAt(s, i, GaleHeading) && i + |GaleHeading| <= e &&
      (forall k | i + |GaleHeading| <= k < e :: IsDotChar(s[k])) &&
      (e == |s| || !IsDotChar(s[e]))
    case WhitespaceRun =>
      (forall k | i <= k < e :: IsSpace(s[k])) &&
      (e == |s| || !IsSpace(s[e]))
  }

  /** End of the longest run of `inRun` characters starting at `j`. */
  function RunEnd(s: string, j: nat, inRun: char -> bool): (e: nat)
    requires j <= |s|
    ensures j <= e <= |s|
    ensures forall k | j <= k < e :: inRun(s[k])
    ensures e == |s| || !inRun(s[e])
    decreases |s| - j
  {
    if j == |s| || !inRun(s[j]) then j else RunEnd(s, j + 1, inRun)
  }

  /** Tries the pattern at index `i`: the end of the match there, if there is one. */
  function MatchAt(p: Pattern, s: string, i: nat): (r: Option<nat>)
    requires i <= |s|
    ensures r.Some? ==> Matches(p, s, i, r.value)
    ensures forall e: nat | Matches(p, s, i, e) :: r == Some(e)
  {
    match p
    case SourceCitation => CitationAt(s, i)
    case PageNumber => PageNumberAt(s, i)
    case GaleEncyclopedia => HeadingAt(s, i)
    case WhitespaceRun => WhitespaceRunAt(s, i)
  }

  /** `\(Source:` followed by the shortest run of non-newline characters up to a `)`. */
  function CitationAt(s: string, i: nat): (r: Option<nat>)
    requires i <= |s|
    ensures r.Some? ==> Matches(SourceCitation, s, i, r.value)
    ensures forall e: nat | Matches(SourceCitation, s, i, e) :: r == Some(e)
  {
    if LiteralAt(s, i, SourceOpen) then
      var e := RunEnd(s, i + |SourceOpen|, InLazyBody);
      if e < |s| && s[e] == ')' then Some(e + 1) else None
    else None
  }

  /** `\bPage`, one whitespace character, then every digit that follows. */
  function PageNumberAt(s: string, i: nat): (r: Option<nat>)
    requires i <= |s|
    ensures r.Some? ==> Matches(PageNumber, s, i, r.value)
    ensures forall e: nat | Matches(PageNumber, s, i, e) :: r == Some(e)
  {
    if WordBoundary(s, i) && LiteralAt(s, i, PageWord) && i + |PageWord| < |s| && IsSpace(s[i + |PageWord|]) then
      var e := RunEnd(s, i + |PageWord| + 1, IsDigit);
      if i + |PageWord| + 1 < e then Some(e) else None
    else None
  }

  /** `\bGALE ENCYCLOPEDIA` and the rest of its line. */
  function HeadingAt(s: string, i: nat): (r: Option<nat>)
    requires i <= |s|
    ensures r.Some? ==> Matches(GaleEncyclopedia, s, i, r.value)
    ensures forall e: nat | Matches(GaleEncyclopedia, s, i, e) :: r == Some(e)
  {
    if WordBoundary(s, i) && LiteralAt(s, i, GaleHeading) then
      Some(RunEnd(s, i + |GaleHeading|, IsDotChar))
    else None
  }

  /** The whole whitespace run starting at `i`. */
  function WhitespaceRunAt(s: string, i: nat): (r: Option<nat>)
    requires i <= |s|
    ensures r.Some? ==> Matches(WhitespaceRun, s, i, r.value)
    ensures forall e: nat | Matches(WhitespaceRun, s, i, e) :: r == Some(e)
  {
    if i < |s| && IsSpace(s[i]) then Some(RunEnd(s, i + 1, IsSpace)) else None
  }

  /**
   * The output of `re.sub(p, ' ', s)` produced from index `i` on: a match
   * found at `i` becomes one space and the scan resumes at its end;
   * otherwise `s[i]` is copied and the scan moves one character on. The
   * whole of `s` stays visible, so `\b` can look at `s[i - 1]`.
   */
  function SubFrom(p: Pattern, s: string, i: nat): (r: string)
    requires i <= |s|
    ensures |r| <= |s| - i
    decreases |s| - i
  {
    if i == |s| then []
    else
      match MatchAt(p, s, i)
      case Some(e) => " " + SubFrom(p, s, e)
      case None => [s[i]] + SubFrom(p, s, i + 1)
  }

  /** `re.sub(p, ' ', s, flags=re.IGNORECASE)`. */
  function Sub(p: Pattern, s: string): (r: string)
    ensures |r| <= |s|
  {
    SubFrom(p, s, 0)
  }

  /**
   * While no match starts, `re.sub` copies the text: from `i` up to `j` the
   * output is `s[i..j]`, whatever matches may start later.
   */
  lemma SubCopies(p: Pattern, s: string, i: nat, j: nat)
    requires i <= j <= |s|
    requires forall k, e | i <= k < j && k < e <= |s| :: !Matches(p, s, k, e)
    ensures SubFrom(p, s, i) == s[i..j] + SubFrom(p, s, j)
  {
    forall k | i <= k < j ensures MatchAt(p, s, k).None? {
    }
    CopiesWhileNoMatch(p, s, i, j);
  }

  /** The scan's own view of `SubCopies`: the scanner finds nothing from `i` up to `j`. */
  lemma {:induction false} CopiesWhileNoMatch(p: Pattern, s: string, i: nat, j: nat)
    requires i <= j <= |s|
    requires forall k | i <= k < j :: MatchAt(p, s, k).None?
    ensures SubFrom(p, s, i) == s[i..j] + SubFrom(p, s, j)
    decreases j - i
  {
    if i < j {
      calc {
        SubFrom(p, s, i);
        { ScanCopies(p, s, i); }
        [s[i]] + SubFrom(p, s, i + 1);
        { CopiesWhileNoMatch(p, s, i + 1, j); }
        [s[i]] + (s[i + 1..j] + SubFrom(p, s, j));
        { assert [s[i]] + s[i + 1..j] == s[i..j]; }
        s[i..j] + SubFrom(p, s, j);
      }
    }
  }

  /** Where the scanner finds nothing, one character is copied. */
  lemma ScanCopies(p: Pattern, s: string, i: nat)
    requires i < |s| && MatchAt(p, s, i).None?
    ensures SubFrom(p, s, i) == [s[i]] + SubFrom(p, s, i + 1)
  {
  }

  /** Where no match starts at all, `re.sub` returns the text unchanged. */
  lemma SubNoMatch(p: Pattern, s: string)
    requires forall k, e | 0 <= k < e <= |s| :: !Matches(p, s, k, e)
    ensures Sub(p, s) == s
  {
    SubCopies(p, s, 0, |s|);
  }

  /**
   * Leftmost, non-overlapping replacement: when the first match at or after
   * `i` starts at `j` and ends at `e`, the text before it is copied, the
   * match becomes one space, and scanning resumes at `e`.
   */
  lemma SubLeftmost(p: Pattern, s: string, i: nat, j: nat, e: nat)
    requires i <= j
    requires Matches(p, s, j, e)
    requires forall k, e' | i <= k < j && k < e' <= |s| :: !Matches(p, s, k, e')
    ensures SubFrom(p, s, i) == s[i..j] + " " + SubFrom(p, s, e)
  {
    SubCopies(p, s, i, j);
    MatchReplaced(p, s, j, e);
  }

  /** A match at `i` ending at `e` becomes one space, and the scan resumes at `e`. */
  lemma MatchReplaced(p: Pattern, s: string, i: nat, e: nat)
    requires Matches(p, s, i, e)
    ensures SubFrom(p, s, i) == " " + SubFrom(p, s, e)
  {
  }

  /** Where no match starts at `i`, `s[i]` is copied and the scan moves on by one. */
  lemma NoMatchCopies(p: Pattern, s: string, i: nat)
    requires i < |s|
    requires forall e' | i < e' <= |s| :: !Matches(p, s, i, e')
    ensures SubFrom(p, s, i) == [s[i]] + SubFrom(p, s, i + 1)
  {
  }

  /**
   * `re.sub(r'\s+', ' ', s)` leaves single spacing, and its output starts
   * with whitespace exactly when its input does.
   */
  lemma {:induction false} WhitespaceSubSingleSpaced(s: string, i: nat)
    requires i <= |s|
    ensures SingleSpaced(SubFrom(WhitespaceRun, s, i))
    ensures i < |s| ==> SubFrom(WhitespaceRun, s, i) != [] &&
                        (IsSpace(SubFrom(WhitespaceRun, s, i)[0]) <==> IsSpace(s[i]))
    decreases |s| - i
  {
    if i < |s| {
      match MatchAt(WhitespaceRun, s, i)
      case Some(e) =>
        WhitespaceSubSingleSpaced(s, e);
        SingleSpacedCons(' ', SubFrom(WhitespaceRun, s, e));
        assert SubFrom(WhitespaceRun, s, i) == [' '] + SubFrom(WhitespaceRun, s, e);
      case None =>
        WhitespaceSubSingleSpaced(s, i + 1);
        SingleSpacedCons(s[i], SubFrom(WhitespaceRun, s, i + 1));
        assert SubFrom(WhitespaceRun, s, i) == [s[i]] + SubFrom(WhitespaceRun, s, i + 1);
    }
  }

  /**
   * Where no two whitespace characters are adjacent, every `\s+` match is a
   * single character: the pass writes each whitespace character as a space
   * and copies everything else.
   */
  lemma {:induction false} WhitespaceSubIsolated(s: string, i: nat)
    requires i <= |s|
    requires NoAdjacentSpaces(s)
    ensures SubFrom(WhitespaceRun, s, i) == Blanked(s)[i..]
    decreases |s| - i
  {
    if i < |s| {
      WhitespaceSubIsolated(s, i + 1);
      if IsSpace(s[i]) {
        assert Matches(WhitespaceRun, s, i, i + 1);
        MatchReplaced(WhitespaceRun, s, i, i + 1);
      } else {
        NoMatchCopies(WhitespaceRun, s, i);
      }
      assert Blanked(s)[i..] == [Blanked(s)[i]] + Blanked(s)[i + 1..];
    }
  }

  /** Whitespace-only text collapses to one space, or stays empty. */
  lemma WhitespaceSubBlank(s: string)
    requires IsBlank(s)
    ensures Sub(WhitespaceRun, s) == if s == [] then "" else " "
  {
    if s != [] {
      SubLeftmost(WhitespaceRun, s, 0, 0, |s|);
    }
  }

  /** The characters at which a match of `p` can begin. */
  predicate CanStart(p: Pattern, c: char) {
    match p
    case SourceCitation => c == '('
    case PageNumber => c == 'p' || c == 'P'
    case GaleEncyclopedia => c == 'g' || c == 'G'
    case WhitespaceRun => IsSpace(c)
  }

  /** A match begins only where its pattern can begin. */
  lemma MatchStart(p: Pattern, s: string, i: nat, e: nat)
    requires Matches(p, s, i, e)
    ensures CanStart(p, s[i])
  {
    match p
    case SourceCitation => SameIgnoringCaseClass(s[i + 0], SourceOpen[0]);
    case PageNumber => assert SameIgnoringCase(s[i + 0], PageWord[0]);
    case GaleEncyclopedia => assert SameIgnoringCase(s[i + 0], GaleHeading[0]);
    case WhitespaceRun =>
  }
}
