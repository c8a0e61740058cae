/**
 * The two `str` methods the cleaner calls: `replace` with a non-empty
 * pattern and `strip` with no argument, together with the whitespace shapes
 * the cleaner's output is proved to have.
 */
module PyStr {
  import opened Chars

  /** `pat` occurs in `s` starting at index `k`. */
  predicate OccursAt(s: string, pat: string, k: nat) {
    k + |pat| <= |s| && s[k..k + |pat|] == pat
  }

  /**
   * `s.replace(pat, rep)`: occurrences of `pat` are found from the left and
   * do not overlap; each becomes `rep`, everything else is copied.
   */
  function Replace(s: string, pat: string, rep: string): (r: string)
    requires pat != []
    ensures |rep| <= |pat| ==> |r| <= |s|
    decreases |s|
  {
    if s == [] then []
    else if pat <= s then rep + Replace(s[|pat|..], pat, rep)
    else [s[0]] + Replace(s[1..], pat, rep)
  }

  lemma OccursInSuffix(s: string, pat: string, d: nat, k: nat)
    requires d <= |s|
    ensures OccursAt(s[d..], pat, k) <==> OccursAt(s, pat, d + k)
  {
    if d + k + |pat| <= |s| {
      assert s[d..][k..k + |pat|] == s[d + k..d + k + |pat|];
    }
  }

  /** Text with no occurrence of `pat` comes back unchanged. */
  lemma {:induction false} ReplaceAbsent(s: string, pat: string, rep: string)
    requires pat != []
    requires forall k | 0 <= k < |s| :: !OccursAt(s, pat, k)
    ensures Replace(s, pat, rep) == s
    decreases |s|
  {
    if s != [] {
      assert !OccursAt(s, pat, 0);
      forall k | 0 <= k < |s[1..]| ensures !OccursAt(s[1..], pat, k) {
        OccursInSuffix(s, pat, 1, k);
      }
      ReplaceAbsent(s[1..], pat, rep);
    }
  }

  /**
   * The leftmost occurrence is the one replaced: text before it is copied,
   * and the scan resumes right after it.
   */
  lemma {:induction false} ReplaceLeftmost(s: string, pat: string, rep: string, j: nat)
    requires pat != []
    requires OccursAt(s, pat, j)
    requires forall k | 0 <= k < j :: !OccursAt(s, pat, k)
    ensures Replace(s, pat, rep) == s[..j] + rep + Replace(s[j + |pat|..], pat, rep)
    decreases j
  {
    if j == 0 {
      ReplaceAtStart(s, pat, rep);
      assert s[..j] + rep == rep;
    } else {
      var t := s[1..];
      LeftmostInTail(s, pat, j);
      calc {
        Replace(s, pat, rep);
        { ReplaceSkipsFirst(s, pat, rep); }
        [s[0]] + Replace(t, pat, rep);
        { ReplaceLeftmost(t, pat, rep, j - 1); }
        [s[0]] + (t[..j - 1] + rep + Replace(t[j - 1 + |pat|..], pat, rep));
        { ShiftedSplit(s, j, |pat|, rep, pat); }
        s[..j] + rep + Replace(s[j + |pat|..], pat, rep);
      }
    }
  }

  /** Where `pat` starts the text, `replace` writes `rep` and continues after it. */
  lemma ReplaceAtStart(s: string, pat: string, rep: string)
    requires pat != [] && OccursAt(s, pat, 0)
    ensures Replace(s, pat, rep) == rep + Replace(s[|pat|..], pat, rep)
  {
    assert pat <= s;
  }

  /** Where `pat` does not start the text, `replace` copies the first character. */
  lemma ReplaceSkipsFirst(s: string, pat: string, rep: string)
    requires pat != [] && s != [] && !OccursAt(s, pat, 0)
    ensures Replace(s, pat, rep) == [s[0]] + Replace(s[1..], pat, rep)
  {
    assert !(pat <= s);
  }

  /** Splitting `s[1..]` at `j - 1` and prefixing `s[0]` is splitting `s` at `j`. */
  lemma ShiftedSplit(s: string, j: nat, n: nat, rep: string, pat: string)
    requires 0 < j && j + n <= |s| && pat != []
    ensures [s[0]] + (s[1..][..j - 1] + rep + Replace(s[1..][j - 1 + n..], pat, rep)) ==
            s[..j] + rep + Replace(s[j + n..], pat, rep)
  {
    assert s[1..][j - 1 + n..] == s[j + n..];
    assert [s[0]] + s[1..][..j - 1] == s[..j];
  }

  /** The leftmost occurrence, seen from the second character on. */
  lemma LeftmostInTail(s: string, pat: string, j: nat)
    requires 0 < j && OccursAt(s, pat, j)
    requires forall k | 0 <= k < j :: !OccursAt(s, pat, k)
    ensures OccursAt(s[1..], pat, j - 1)
    ensures forall k | 0 <= k < j - 1 :: !OccursAt(s[1..], pat, k)
  {
    OccursInSuffix(s, pat, 1, j - 1);
    forall k | 0 <= k < j - 1 ensures !OccursAt(s[1..], pat, k) {
      OccursInSuffix(s, pat, 1, k);
    }
  }

  lemma SingleSpacedSlice(s: string, a: nat, r: string)
    requires a + |r| <= |s| && r == s[a..a + |r|]
    requires SingleSpaced(s)
    ensures SingleSpaced(r)
  {
    forall k | 0 <= k < |r| && IsSpace(r[k])
      ensures r[k] == ' ' && (k + 1 < |r| ==> !IsSpace(r[k + 1]))
    {
      assert r[k] == s[a + k];
    }
  }

  /**
   * Replacing a whitespace-free pattern by a non-empty whitespace-free text
   * keeps single spacing, and the result starts with whitespace exactly when
   * the input does.
   */
  lemma {:induction false} ReplaceKeepsSingleSpaced(s: string, pat: string, rep: string)
    requires pat != [] && rep != []
    requires forall k | 0 <= k < |pat| :: !IsSpace(pat[k])
    requires forall k | 0 <= k < |rep| :: !IsSpace(rep[k])
    requires SingleSpaced(s)
    ensures SingleSpaced(Replace(s, pat, rep))
    ensures s != [] ==> Replace(s, pat, rep) != [] && (IsSpace(Replace(s, pat, rep)[0]) <==> IsSpace(s[0]))
    decreases |s|
  {
    if s != [] {
      var r := Replace(s, pat, rep);
      if pat <= s {
        var t := s[|pat|..];
        SingleSpacedSlice(s, |pat|, s[|pat|..]);
        ReplaceKeepsSingleSpaced(t, pat, rep);
        var rt := Replace(t, pat, rep);
        assert r == rep + rt;
        assert !IsSpace(s[0]) by { assert s[0] == pat[0]; }
        forall k | 0 <= k < |r| && IsSpace(r[k])
          ensures r[k] == ' ' && (k + 1 < |r| ==> !IsSpace(r[k + 1]))
        {
          assert k >= |rep|;
          assert r[k] == rt[k - |rep|];
        }
      } else {
        var t := s[1..];
        SingleSpacedSlice(s, 1, s[1..]);
        ReplaceKeepsSingleSpaced(t, pat, rep);
        var rt := Replace(t, pat, rep);
        assert r == [s[0]] + rt;
        forall k | 0 <= k < |r| && IsSpace(r[k])
          ensures r[k] == ' ' && (k + 1 < |r| ==> !IsSpace(r[k + 1]))
        {
          if k == 0 {
            if 1 < |r| {
              assert t != [] && !IsSpace(t[0]);
            }
          } else {
            assert r[k] == rt[k - 1];
          }
        }
      }
    }
  }

  /** In single-spaced text, replacing two spaces by one changes nothing. */
  lemma DoubleSpaceReplaceIsNoOp(s: string)
    requires SingleSpaced(s)
    ensures Replace(s, "  ", " ") == s
  {
    forall k | 0 <= k < |s| ensures !OccursAt(s, "  ", k) {
      if k + 2 <= |s| {
        assert s[k..k + 2] != "  " by {
          assert s[k..k + 2][0] == s[k] && s[k..k + 2][1] == s[k + 1];
          if IsSpace(s[k]) {
            assert !IsSpace(s[k + 1]);
          }
        }
      }
    }
    ReplaceAbsent(s, "  ", " ");
  }

  /** Drops leading whitespace. */
  function TrimStart(s: string): (r: string)
    ensures |r| <= |s| && r == s[|s| - |r|..]
    ensures forall k | 0 <= k < |s| - |r| :: IsSpace(s[k])
    ensures r == [] || !IsSpace(r[0])
    decreases |s|
  {
    if s != [] && IsSpace(s[0]) then TrimStart(s[1..]) else s
  }

  /** Drops trailing whitespace. */
  function TrimEnd(s: string): (r: string)
    ensures |r| <= |s| && r == s[..|r|]
    ensures forall k | |r| <= k < |s| :: IsSpace(s[k])
    ensures r == [] || !IsSpace(r[|r| - 1])
    decreases |s|
  {
    if s != [] && IsSpace(s[|s| - 1]) then TrimEnd(s[..|s| - 1]) else s
  }

  /** Index where `s.strip()` begins: the number of leading whitespace characters. */
  function StripStart(s: string): (a: nat)
    ensures a <= |s|
  {
    |s| - |TrimStart(s)|
  }

  /**
   * `s.strip()`: the slice of `s` left after removing whitespace from both
   * ends; everything removed is whitespace and what is left does not start
   * or end with whitespace.
   */
  function Strip(s: string): (r: string)
    ensures StripStart(s) + |r| <= |s| && r == s[StripStart(s)..StripStart(s) + |r|]
    ensures forall k | 0 <= k < StripStart(s) :: IsSpace(s[k])
    ensures forall k | StripStart(s) + |r| <= k < |s| :: IsSpace(s[k])
    ensures Trimmed(r)
  {
    var t := TrimStart(s);
    var r := TrimEnd(t);
    assert r == s[|s| - |t|..][..|r|];
    forall k | |s| - |t| + |r| <= k < |s| ensures IsSpace(s[k]) {
      assert s[k] == t[k - (|s| - |t|)];
    }
    r
  }

  /** `s.strip()` is empty exactly when `s` is blank. */
  lemma StripEmptyIffBlank(s: string)
    ensures Strip(s) == [] <==> IsBlank(s)
  {
  }

  /** Stripping single-spaced text leaves it single-spaced. */
  lemma StripKeepsSingleSpaced(s: string)
    requires SingleSpaced(s)
    ensures SingleSpaced(Strip(s))
  {
    SingleSpacedSlice(s, StripStart(s), Strip(s));
  }

  /** Text already trimmed is left as it is by `strip()`. */
  lemma StripTrimmed(s: string)
    requires Trimmed(s)
    ensures Strip(s) == s
  {
    if s != [] {
      assert StripStart(s) == 0;
    }
  }

  /** Text without a period is left as it is by `.replace('..', '.')`. */
  lemma ReplaceWithoutPeriod(s: string)
    requires '.' !in s
    ensures Replace(s, "..", ".") == s
  {
    forall k | 0 <= k < |s| ensures !OccursAt(s, "..", k) {
      if k + 2 <= |s| {
        assert s[k..k + 2][0] == s[k];
      }
    }
    ReplaceAbsent(s, "..", ".");
  }
}
