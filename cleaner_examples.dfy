/**
 * Concrete inputs for `clean_response`, among them the ones showing that
 * double periods can survive, that a citation broken across lines or a
 * page marker split by a blank line is not removed, and that cleaning twice
 * can differ from cleaning once; and the general lemmas about `re.sub` they
 * are built from.
 */
module CleanerExamples {
  import opened Chars
  import opened PyStr
  import opened PyRe
  import opened Cleaner

  /** No character of `t` can begin a match of `p` (a recursive form that literals unfold). */
  predicate NoStartIn(p: Pattern, t: string) {
    t == [] || (!CanStart(p, t[0]) && NoStartIn(p, t[1..]))
  }

  lemma {:induction false} NoStartInAll(p: Pattern, t: string)
    requires NoStartIn(p, t)
    ensures forall k | 0 <= k < |t| :: !CanStart(p, t[k])
    decreases |t|
  {
    if t != [] {
      NoStartInAll(p, t[1..]);
      assert forall k | 1 <= k < |t| :: t[k] == t[1..][k - 1];
    }
  }

  /** Text in which no match can begin comes through `re.sub` unchanged. */
  lemma Unchanged(p: Pattern, t: string)
    requires NoStartIn(p, t)
    ensures Sub(p, t) == t
  {
    NoStartInAll(p, t);
    forall k, e | 0 <= k < e <= |t| ensures !Matches(p, t, k, e) {
      if Matches(p, t, k, e) {
        MatchStart(p, t, k, e);
      }
    }
    SubNoMatch(p, t);
  }

  /** Between `i` and `j`, where no match can begin, `re.sub` copies the text. */
  lemma PlainSpan(p: Pattern, s: string, i: nat, j: nat)
    requires i <= j <= |s|
    requires forall k | i <= k < j :: !CanStart(p, s[k])
    ensures SubFrom(p, s, i) == s[i..j] + SubFrom(p, s, j)
  {
    forall k, e | i <= k < j && k < e <= |s| ensures !Matches(p, s, k, e) {
      if Matches(p, s, k, e) {
        MatchStart(p, s, k, e);
      }
    }
    SubCopies(p, s, i, j);
  }

  /** From `d` on, where no match can begin, `re.sub` copies the text. */
  lemma PlainTail(p: Pattern, s: string, d: nat)
    requires d <= |s|
    requires forall k | d <= k < |s| :: !CanStart(p, s[k])
    ensures SubFrom(p, s, d) == s[d..]
  {
    PlainSpan(p, s, d, |s|);
  }

  /** Text shorter than `GALE ENCYCLOPEDIA` cannot hold the heading. */
  lemma ShortTextNoHeading(t: string)
    requires |t| < |GaleHeading|
    ensures Sub(GaleEncyclopedia, t) == t
  {
    SubNoMatch(GaleEncyclopedia, t);
  }

  /** A match covering the head `m`, followed by text where no match can begin. */
  lemma MatchedThenPlain(p: Pattern, m: string, u: string)
    requires Matches(p, m + u, 0, |m|)
    requires NoStartIn(p, u)
    ensures Sub(p, m + u) == " " + u
  {
    var s := m + u;
    NoStartInAll(p, u);
    forall k | |m| <= k < |s| ensures !CanStart(p, s[k]) {
      assert s[k] == u[k - |m|];
    }
    MatchReplaced(p, s, 0, |m|);
    PlainTail(p, s, |m|);
    assert s[|m|..] == u;
  }

  /** Where `u + w + v` has whitespace: exactly in `w`, which is one whole run. */
  lemma RunBetweenWordsShape(u: string, w: string, v: string)
    requires forall k | 0 <= k < |u| :: !IsSpace(u[k])
    requires w != [] && IsBlank(w)
    requires forall k | 0 <= k < |v| :: !IsSpace(v[k])
    ensures forall k | 0 <= k < |u| :: !CanStart(WhitespaceRun, (u + w + v)[k])
    ensures forall k | |u| + |w| <= k < |u + w + v| :: !CanStart(WhitespaceRun, (u + w + v)[k])
    ensures Matches(WhitespaceRun, u + w + v, |u|, |u| + |w|)
  {
    var s, j, e := u + w + v, |u|, |u| + |w|;
    forall k | 0 <= k < j ensures !CanStart(WhitespaceRun, s[k]) {
      assert s[k] == u[k];
    }
    forall k | e <= k < |s| ensures !CanStart(WhitespaceRun, s[k]) {
      assert s[k] == v[k - e];
    }
    forall k | j <= k < e ensures IsSpace(s[k]) {
      assert s[k] == w[k - j];
    }
  }

  /** A whitespace run between two parts without whitespace becomes one space. */
  lemma RunBetweenWords(u: string, w: string, v: string)
    requires forall k | 0 <= k < |u| :: !IsSpace(u[k])
    requires w != [] && IsBlank(w)
    requires forall k | 0 <= k < |v| :: !IsSpace(v[k])
    ensures Sub(WhitespaceRun, u + w + v) == u + " " + v
  {
    var s, j, e := u + w + v, |u|, |u| + |w|;
    assert s[0..j] == u;
    assert s[e..] == v;
    RunBetweenWordsShape(u, w, v);
    calc {
      Sub(WhitespaceRun, s);
    == { PlainSpan(WhitespaceRun, s, 0, j); }
      u + SubFrom(WhitespaceRun, s, j);
    == { MatchReplaced(WhitespaceRun, s, j, e); }
      u + (" " + SubFrom(WhitespaceRun, s, e));
    == { PlainTail(WhitespaceRun, s, e); }
      u + (" " + v);
    }
  }

  /** `clean_response` stage by stage. */
  lemma Stages(s: string, a: string, b: string, c: string, d: string, e: string)
    requires Sub(SourceCitation, s) == a && Sub(PageNumber, a) == b
    requires Sub(GaleEncyclopedia, b) == c && Sub(WhitespaceRun, c) == d
    requires Replace(d, "..", ".") == e
    ensures Cleaned(s) == Strip(e)
  {
    SubAllCleanPatterns(s);
    DoubleSpaceReplaceIsRedundant(s);
  }

  /** `'...'` keeps two periods: the replace halves `..` once and moves past it. */
  lemma TriplePeriodKeepsTwo()
    ensures Cleaned("...") == ".."
  {
    var s := "...";
    assert Sub(SourceCitation, s) == s by { Unchanged(SourceCitation, s); }
    assert Sub(PageNumber, s) == s by { Unchanged(PageNumber, s); }
    assert Sub(GaleEncyclopedia, s) == s by { Unchanged(GaleEncyclopedia, s); }
    assert Sub(WhitespaceRun, s) == s by { Unchanged(WhitespaceRun, s); }
    assert Replace(s, "..", ".") == ".." by {
      assert OccursAt(s, "..", 0);
      ReplaceLeftmost(s, "..", ".", 0);
      assert s[2..] == ".";
      assert Replace(".", "..", ".") == ".";
    }
    Stages(s, s, s, s, s, "..");
    StripTrimmed("..");
  }

  /** `Page`, one whitespace character and the digits go; letters glued to the digits stay. */
  lemma PageDigitsOnlyRemoved()
    ensures Sub(PageNumber, "Page 12abc") == " abc"
  {
    MatchedThenPlain(PageNumber, "Page 12", "abc");
    assert "Page 12" + "abc" == "Page 12abc";
  }

  /** `\s` is a single whitespace character: a blank line between `Page` and the number defeats the rule. */
  lemma PageSplitByBlankLineKept()
    ensures Sub(PageNumber, "Page\n\n4") == "Page\n\n4"
  {
  }

  /** `\b` before `Page`: a word character right before it defeats the rule. */
  lemma PageInsideWordKept()
    ensures Sub(PageNumber, "xPage 4") == "xPage 4"
  {
  }

  /** The citation rule ignores case. */
  lemma CitationAnyCaseRemoved()
    ensures Sub(SourceCitation, "(source: x) ok") == "  ok"
  {
    MatchedThenPlain(SourceCitation, "(source: x)", " ok");
    assert "(source: x)" + " ok" == "(source: x) ok";
  }

  /** The heading rule ignores case and removes up to the end of its line only. */
  lemma HeadingCutToLineEnd()
    ensures Sub(GaleEncyclopedia, "Gale Encyclopedia x\nb") == " \nb"
  {
    assert "Gale Encyclopedia x" + "\nb" == "Gale Encyclopedia x\nb";
    HeadingLineMatched();
    MatchedThenPlain(GaleEncyclopedia, "Gale Encyclopedia x", "\nb");
  }

  /** A literal found in `m` is still found once text is appended. */
  lemma LiteralAtExtend(m: string, u: string, i: nat, lit: string)
    requires LiteralAt(m, i, lit)
    ensures LiteralAt(m + u, i, lit)
  {
    forall k | 0 <= k < |lit| ensures SameIgnoringCase((m + u)[i + k], lit[k]) {
      assert (m + u)[i + k] == m[i + k];
    }
  }

  /** Two literals found one after the other make their concatenation found. */
  lemma LiteralAtConcat(s: string, i: nat, l1: string, l2: string)
    requires LiteralAt(s, i, l1) && LiteralAt(s, i + |l1|, l2)
    ensures LiteralAt(s, i, l1 + l2)
  {
    forall k | 0 <= k < |l1 + l2| ensures SameIgnoringCase(s[i + k], (l1 + l2)[k]) {
      if k >= |l1| {
        assert s[i + k] == s[i + |l1| + (k - |l1|)];
      }
    }
  }

  /** `Gale ` equals `GALE ` ignoring case. */
  lemma MixedCaseGale()
    ensures LiteralAt("Gale Encyclopedia", 0, "GALE ")
  {
  }

  /** `Encyclopedia` equals `ENCYCLOPEDIA` ignoring case. */
  lemma MixedCaseEncyclopedia()
    ensures LiteralAt("Gale Encyclopedia", 5, "ENCYCLOPEDIA")
  {
  }

  /** `Gale Encyclopedia` equals the heading literal ignoring case. */
  lemma MixedCaseHeading()
    ensures LiteralAt("Gale Encyclopedia", 0, GaleHeading)
  {
    MixedCaseGale();
    MixedCaseEncyclopedia();
    LiteralAtConcat("Gale Encyclopedia", 0, "GALE ", "ENCYCLOPEDIA");
    assert "GALE " + "ENCYCLOPEDIA" == GaleHeading;
  }

  /** The heading, in mixed case, matches up to the newline. */
  lemma HeadingLineMatched()
    ensures Matches(GaleEncyclopedia, "Gale Encyclopedia x\nb", 0, 19)
  {
    assert "Gale Encyclopedia" + " x\nb" == "Gale Encyclopedia x\nb";
    MixedCaseHeading();
    LiteralAtExtend("Gale Encyclopedia", " x\nb", 0, GaleHeading);
  }

  /** `'..'` becomes `'.'`. */
  lemma TwoPeriodsKeepOne()
    ensures Cleaned("..") == "."
  {
    var s := "..";
    assert Sub(SourceCitation, s) == s by { Unchanged(SourceCitation, s); }
    assert Sub(PageNumber, s) == s by { Unchanged(PageNumber, s); }
    assert Sub(GaleEncyclopedia, s) == s by { Unchanged(GaleEncyclopedia, s); }
    assert Sub(WhitespaceRun, s) == s by { Unchanged(WhitespaceRun, s); }
    assert Replace(s, "..", ".") == "." by {
      assert OccursAt(s, "..", 0);
      ReplaceLeftmost(s, "..", ".", 0);
      assert s[2..] == [];
    }
    Stages(s, s, s, s, s, ".");
    StripTrimmed(".");
  }

  /** `'....'` becomes `'..'`: each pair is halved once. */
  lemma FourPeriodsKeepTwo()
    ensures Cleaned("....") == ".."
  {
    var s := "....";
    assert Sub(SourceCitation, s) == s by { Unchanged(SourceCitation, s); }
    assert Sub(PageNumber, s) == s by { Unchanged(PageNumber, s); }
    assert Sub(GaleEncyclopedia, s) == s by { Unchanged(GaleEncyclopedia, s); }
    assert Sub(WhitespaceRun, s) == s by { Unchanged(WhitespaceRun, s); }
    assert Replace(s, "..", ".") == ".." by {
      assert OccursAt(s, "..", 0);
      ReplaceLeftmost(s, "..", ".", 0);
      assert s[2..] == "..";
      assert OccursAt("..", "..", 0);
      ReplaceLeftmost("..", "..", ".", 0);
      assert ".."[2..] == [];
    }
    Stages(s, s, s, s, s, "..");
    StripTrimmed("..");
  }

  /** Cleaning is not idempotent: cleaning the output again can shorten it further. */
  lemma CleaningTwiceDiffers()
    ensures Cleaned(Cleaned("....")) != Cleaned("....")
  {
    FourPeriodsKeepTwo();
    TwoPeriodsKeepOne();
  }

  /**
   * A newline after `(Source:` with no `)` before it stops the lazy `.*?`:
   * with no other `(` in the text, the citation rule removes nothing.
   */
  lemma NewlineBeforeCloseKept(s: string, n: nat)
    requires |SourceOpen| <= n < |s| && s[n] == '\n'
    requires forall k | |SourceOpen| <= k < n :: s[k] != ')'
    requires forall k | 1 <= k < |s| :: s[k] != '('
    ensures Sub(SourceCitation, s) == s
  {
    assert !InLazyBody(s[n]);
    forall e | 0 < e <= |s| ensures !Matches(SourceCitation, s, 0, e) {
      if e - 1 < n {
        assert e - 1 < |SourceOpen| || s[e - 1] != ')';
      }
    }
    NoMatchCopies(SourceCitation, s, 0);
    PlainTail(SourceCitation, s, 1);
    assert [s[0]] + s[1..] == s;
  }

  /** The lazy `.*?` does not cross a newline: a citation broken across lines stays. */
  lemma CitationAcrossNewlineKept()
    ensures Sub(SourceCitation, "(Source:\n)") == "(Source:\n)"
  {
    NewlineBeforeCloseKept("(Source:\n)", 8);
  }

  /** The citation broken across lines survives `re.sub`. */
  lemma BrokenCitationKept()
    ensures Sub(SourceCitation, "(Source: a\nb)") == "(Source: a\nb)"
  {
    NewlineBeforeCloseKept("(Source: a\nb)", 10);
  }

  /** The broken citation has no two adjacent whitespace characters. */
  lemma BrokenCitationNoAdjacentSpaces()
    ensures NoAdjacentSpaces("(Source: a\nb)")
  {
  }

  /** Writing each whitespace character of the broken citation as a space joins its lines. */
  lemma BrokenCitationBlanked()
    ensures Blanked("(Source: a\nb)") == "(Source: a b)"
  {
  }

  /** In the broken citation each lone whitespace character becomes a space. */
  lemma BrokenCitationSpaced()
    ensures Sub(WhitespaceRun, "(Source: a\nb)") == "(Source: a b)"
  {
    BrokenCitationNoAdjacentSpaces();
    WhitespaceSubIsolated("(Source: a\nb)", 0);
    BrokenCitationBlanked();
  }

  /** The joined citation has no period. */
  lemma JoinedCitationNoPeriod()
    ensures Replace("(Source: a b)", "..", ".") == "(Source: a b)"
  {
    ReplaceWithoutPeriod("(Source: a b)");
  }

  /** The joined citation has no surrounding whitespace. */
  lemma JoinedCitationTrimmed()
    ensures Strip("(Source: a b)") == "(Source: a b)"
  {
    StripTrimmed("(Source: a b)");
  }

  /** No page marker in the broken citation: it has no `p` at all. */
  lemma BrokenCitationNoPage()
    ensures Sub(PageNumber, "(Source: a\nb)") == "(Source: a\nb)"
  {
    PlainTail(PageNumber, "(Source: a\nb)", 0);
  }

  /** `clean_response` keeps a citation broken across lines, joining its lines with a space. */
  lemma CitationAcrossNewlineSurvives()
    ensures Cleaned("(Source: a\nb)") == "(Source: a b)"
  {
    var s, t := "(Source: a\nb)", "(Source: a b)";
    BrokenCitationKept();
    BrokenCitationNoPage();
    ShortTextNoHeading(s);
    BrokenCitationSpaced();
    JoinedCitationNoPeriod();
    JoinedCitationTrimmed();
    Stages(s, s, s, s, t, t);
  }

  /** A blank line between `Page` and the number collapses to one space. */
  lemma PageSplitSpaced()
    ensures Sub(WhitespaceRun, "Page\n\n4") == "Page 4"
  {
    RunBetweenWords("Page", "\n\n", "4");
    assert "Page" + "\n\n" + "4" == "Page\n\n4";
  }

  /** No citation and no heading in the split page marker. */
  lemma PageSplitNoCitationOrHeading()
    ensures Sub(SourceCitation, "Page\n\n4") == "Page\n\n4"
    ensures Sub(GaleEncyclopedia, "Page\n\n4") == "Page\n\n4"
  {
    Unchanged(SourceCitation, "Page\n\n4");
    ShortTextNoHeading("Page\n\n4");
  }

  /** `Page 4` has no period. */
  lemma JoinedPageNoPeriod()
    ensures Replace("Page 4", "..", ".") == "Page 4"
  {
    ReplaceWithoutPeriod("Page 4");
  }

  /** `Page 4` has no surrounding whitespace. */
  lemma JoinedPageTrimmed()
    ensures Strip("Page 4") == "Page 4"
  {
    StripTrimmed("Page 4");
  }

  /** `clean_response` keeps a page marker split by a blank line, as `Page 4`. */
  lemma PageSplitByBlankLineSurvives()
    ensures Cleaned("Page\n\n4") == "Page 4"
  {
    var s, t := "Page\n\n4", "Page 4";
    PageSplitNoCitationOrHeading();
    PageSplitByBlankLineKept();
    PageSplitSpaced();
    JoinedPageNoPeriod();
    JoinedPageTrimmed();
    Stages(s, s, s, s, t, t);
  }

  /** `Page 4` on its own is one whole match. */
  lemma PageMarkerSubstituted()
    ensures Sub(PageNumber, "Page 4") == " "
  {
    MatchedThenPlain(PageNumber, "Page 4", "");
    assert "Page 4" + "" == "Page 4";
  }

  /** What is left of a page marker is one space, which the later stages keep. */
  lemma LoneSpaceKept()
    ensures Sub(GaleEncyclopedia, " ") == " "
    ensures Sub(WhitespaceRun, " ") == " "
    ensures Replace(" ", "..", ".") == " "
  {
    ShortTextNoHeading(" ");
    WhitespaceSubBlank(" ");
    ReplaceWithoutPeriod(" ");
  }

  /** A page marker on its own cleans to nothing. */
  lemma PageMarkerRemoved()
    ensures Cleaned("Page 4") == ""
  {
    Unchanged(SourceCitation, "Page 4");
    PageMarkerSubstituted();
    LoneSpaceKept();
    Stages("Page 4", "Page 4", " ", " ", " ", " ");
    StripEmptyIffBlank(" ");
  }

  /** Cleaning is not idempotent on text holding a pattern either: a second pass removes the rejoined page marker. */
  lemma CleaningTwiceRemovesRejoinedPage()
    ensures Cleaned(Cleaned("Page\n\n4")) != Cleaned("Page\n\n4")
    ensures Cleaned(Cleaned("Page\n\n4")) == ""
  {
    PageSplitByBlankLineSurvives();
    PageMarkerRemoved();
  }
}
