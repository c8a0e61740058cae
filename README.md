# Medical chatbot reply cleaning, in Dafny

This project models the answer path of a small Flask medical chatbot.

`clean_response` post-processes the language model's answer:
- four case-insensitive regular-expression substitutions, applied in order, each replacing a match with one space:
  - `\(Source:.*?\)`, a source citation;
  - `\bPage\s\d+`, a page marker;
  - `\bGALE ENCYCLOPEDIA.*`, an encyclopedia heading cut to the end of its line;
  - `\s+`, a whitespace run;
- then `.replace('..', '.')`, then `.replace('  ', ' ')`, then `.strip()`.

The `/get` route `chat` handles the question:
- it trims the posted `msg`;
- it refuses a blank question with a fixed message;
- otherwise it asks the retrieval chain and returns the cleaned answer;
- it answers any failure with a fixed apology.

Modules:
- `Chars`: the character classes `\s`, `\d`, `\w`, and ASCII case folding. It also defines the "trimmed" and "single-spaced" shapes of a string.
- `PyStr`: Python's `str.replace` (left to right, non-overlapping) and `str.strip`.
- `PyRe`: the four patterns. Each has two forms:
  - `Matches`, a declarative statement of which span the regex engine matches at an index. The lazy `.*?` gives the shortest span and the greedy `\d+`, `.*` and `\s+` give the longest.
  - `MatchAt`, the scanner, proved equivalent to `Matches`.

  `SubFrom` and `Sub` model `re.sub`: a leftmost, non-overlapping scan over the whole string, so `\b` sees the character before the match.
- `Cleaner`: the pattern list, the specification function `Cleaned`, and the method `CleanResponse`. Like the source, the method loops over the patterns and rebinds the text once per pattern.
- `CleanerExamples`: concrete inputs that show the edge cases of the rules.
- `ChatRoute`: the `chat` branching. The retrieval chain is a function parameter.

Three consequences of the code:
- Two consecutive periods can survive. `'...'` cleans to `'..'` (`CleanerExamples.TriplePeriodKeepsTwo`), because `str.replace` does not rescan its own output.
- Cleaning twice can differ from cleaning once, even for input free of the target patterns. `'....'` cleans to `'..'`, and `'..'` cleans to `'.'` (`CleanerExamples.CleaningTwiceDiffers`). On text with a pattern, `'Page\n\n4'` cleans to `'Page 4'`, which cleans to `''` (`CleanerExamples.CleaningTwiceRemovesRejoinedPage`).
- Pattern-free input is not only trimmed. It is also whitespace-collapsed and has its `..` halved (`Cleaner.CleanedPlainText`).

## Model

| member | source | states |
|---|---|---|
| Cleaner.CleanResponse | app.py:62-76 | The loop over the four patterns, the two replaces and the strip compute `Cleaned(text)`. The result is no longer than the input, has no whitespace at either end, and holds no whitespace other than single spaces. |
| Cleaner.Cleaned | app.py:62-76 | The cleaned text is never longer than the input. |
| Cleaner.SubAll | app.py:71-72 | Each substitution pass never lengthens the text, so neither does the whole sequence. |
| Cleaner.SubAllCleanPatterns | app.py:64-72 | The loop applies the citation, page, heading and whitespace substitutions in exactly that order. |
| Cleaner.SubstitutedSingleSpaced | app.py:68-72 | After the last pass (`\s+`), every whitespace character is a plain space and no two whitespace characters are adjacent. |
| Cleaner.DoubleSpaceReplaceIsRedundant | app.py:75 | `.replace('  ', ' ')` never changes the text. The `\s+` pass left no double space, and `.replace('..', '.')` creates none. |
| Cleaner.CleanedIsTidy | app.py:68-76 | For every input, the result has no leading or trailing whitespace, no whitespace other than `' '`, and no two consecutive whitespace characters. |
| Cleaner.NoParenNoCitation | app.py:65 | Text without `(` has no source citation to remove. |
| Cleaner.NoPageWordNoPageNumber | app.py:66 | Text without `page` in any case has no page marker to remove. |
| Cleaner.NoHeadingNoCut | app.py:67 | Text without `gale encyclopedia` in any case has no heading to cut. |
| Cleaner.CleanedPlainText | app.py:64-76 | Input with no `(`, no `page` and no `gale encyclopedia` is only whitespace-collapsed, has `..` halved from the left, and is trimmed. |
| Cleaner.BlankHasNoMarkers | app.py:65-67 | Whitespace-only text cannot hold the start of a citation, a page marker or a heading. |
| Cleaner.CollapsedBlankSettles | app.py:75-76 | The one space or empty string left of blank text comes out of `.replace('..', '.')` and the strip as `""`. |
| Cleaner.CleanedBlank | app.py:64-76 | Empty or whitespace-only input cleans to `""`. |
| PyRe.MatchAt | app.py:65-68 | The scanner finds a match at an index exactly when `Matches` holds, and it ends where `Matches` says. The citation ends at the first `)` before any newline. The page marker is `page` at a word boundary, exactly one whitespace character and all the digits that follow. The heading runs to the end of its line. A whitespace run is maximal. |
| PyRe.CitationAt | app.py:65 | The citation scanner's result is `Some(e)` exactly when `s[i..e]` is the shortest `(Source:` … `)` span with no newline. |
| PyRe.PageNumberAt | app.py:66 | The page scanner's result is `Some(e)` exactly when `s[i..e]` is `page` at a word boundary, one whitespace character and all the digits that follow. |
| PyRe.HeadingAt | app.py:67 | The heading scanner's result is `Some(e)` exactly when `s[i..e]` is the heading at a word boundary with the rest of its line. |
| PyRe.WhitespaceRunAt | app.py:68 | The whitespace scanner's result is `Some(e)` exactly when `s[i..e]` is a maximal whitespace run. |
| PyRe.RunEnd | app.py:65-68 | The greedy run end: every character before it belongs to the run, and the character at it does not. |
| PyRe.Sub | app.py:72 | `re.sub` with one space never lengthens the text, because every match is at least one character long. |
| PyRe.SubFrom | app.py:72 | The scan from any index produces no more characters than remain. |
| PyRe.SubCopies | app.py:72 | While no match starts, `re.sub` copies the text unchanged and in order. |
| PyRe.CopiesWhileNoMatch | app.py:72 | While the scanner finds nothing from `i` up to `j`, the output from `i` is `s[i..j]` followed by the output from `j`. |
| PyRe.ScanCopies | app.py:72 | Where the scanner finds nothing, `re.sub` copies that one character and moves on. |
| PyRe.SubNoMatch | app.py:72 | Text in which the pattern matches nowhere comes back unchanged. |
| PyRe.SubLeftmost | app.py:72 | Leftmost, non-overlapping replacement: the text before the first match is copied, the match becomes one space, and scanning resumes after the match. |
| PyRe.MatchReplaced | app.py:72 | A match found at the scan position becomes one space, and scanning resumes at its end. |
| PyRe.NoMatchCopies | app.py:72 | Where no match starts, one character is copied and the scan moves on by one. |
| PyRe.WhitespaceSubSingleSpaced | app.py:68-72 | After the `\s+` substitution, every whitespace character is a plain space and none is followed by another whitespace character. |
| PyRe.WhitespaceSubIsolated | app.py:68-72 | Where no two whitespace characters are adjacent, the `\s+` substitution writes each whitespace character as one space and copies every other character. |
| PyRe.WhitespaceSubBlank | app.py:68-72 | Whitespace-only text collapses to one space, or stays empty. |
| PyRe.MatchStart | app.py:65-68 | A match can begin only at `(`, at `p`/`P`, at `g`/`G`, or at whitespace, depending on the pattern. |
| PyStr.Replace | app.py:75 | `str.replace` with a replacement no longer than the pattern never lengthens the text. |
| PyStr.OccursInSuffix | app.py:75 | An occurrence in a suffix is an occurrence in the whole string, shifted by the suffix's offset, and conversely. |
| PyStr.ReplaceAbsent | app.py:75 | `str.replace` leaves text without the pattern unchanged. |
| PyStr.ReplaceLeftmost | app.py:75 | `str.replace` copies up to the leftmost occurrence, writes the replacement, and continues after the whole occurrence. |
| PyStr.ReplaceAtStart | app.py:75 | Where the pattern starts the text, `str.replace` writes the replacement and continues after the whole occurrence. |
| PyStr.ReplaceSkipsFirst | app.py:75 | Where the pattern does not start the text, `str.replace` copies the first character and continues with the rest. |
| PyStr.LeftmostInTail | app.py:75 | The leftmost occurrence at `j > 0` is the leftmost occurrence at `j - 1` in the text after the first character. |
| PyStr.SingleSpacedSlice | app.py:75-76 | Every contiguous slice of single-spaced text is single-spaced. |
| PyStr.ReplaceKeepsSingleSpaced | app.py:75 | Replacing a whitespace-free pattern by non-empty whitespace-free text keeps text single-spaced and keeps whether it starts with whitespace. |
| PyStr.DoubleSpaceReplaceIsNoOp | app.py:75 | `.replace('  ', ' ')` leaves single-spaced text unchanged. |
| PyStr.ReplaceWithoutPeriod | app.py:75 | `.replace('..', '.')` leaves text without a period unchanged. |
| PyStr.TrimStart | app.py:76 | Leading trim removes exactly the whitespace prefix, and the result does not start with whitespace. |
| PyStr.TrimEnd | app.py:76 | Trailing trim removes exactly the whitespace suffix, and the result does not end with whitespace. |
| PyStr.Strip | app.py:76 | `str.strip` returns a contiguous slice of its input, everything cut from either end is whitespace, and the result has no whitespace at either end. |
| PyStr.StripEmptyIffBlank | app.py:89-90 | Stripping gives `""` exactly when the text is empty or all whitespace. |
| PyStr.StripKeepsSingleSpaced | app.py:76 | Stripping keeps text single-spaced. |
| PyStr.StripTrimmed | app.py:76 | Stripping text with no whitespace at either end leaves it unchanged. |
| Chars.FoldCase | app.py:65-67 | No folded character is an upper-case ASCII letter. |
| Chars.FoldCaseIdempotent | app.py:65-67 | Folding twice is the same as folding once. |
| Chars.SameIgnoringCaseIff | app.py:65-67 | Under `re.IGNORECASE`, two characters match exactly when they are equal, or one is an upper-case ASCII letter and the other is that letter in lower case. |
| Chars.SingleSpacedCons | app.py:68-72 | Putting a non-whitespace character, or a space before non-whitespace, in front of single-spaced text keeps it single-spaced. |
| Chars.SameIgnoringCaseClass | app.py:66-67 | A character equal to a word character ignoring case is a word character. A character equal to a non-word character ignoring case is that same character. |
| CleanerExamples.TriplePeriodKeepsTwo | app.py:75 | `'...'` cleans to `'..'`: two consecutive periods can remain. |
| CleanerExamples.TwoPeriodsKeepOne | app.py:75 | `'..'` cleans to `'.'`. |
| CleanerExamples.FourPeriodsKeepTwo | app.py:75 | `'....'` cleans to `'..'`. |
| CleanerExamples.CleaningTwiceDiffers | app.py:62-76 | Cleaning is not idempotent, even on text free of the target patterns. |
| CleanerExamples.NewlineBeforeCloseKept | app.py:65-72 | With a newline after `(Source:` and no `)` before it, and no other `(`, the citation substitution removes nothing. |
| CleanerExamples.BrokenCitationKept | app.py:65 | The citation substitution leaves `'(Source: a\nb)'` unchanged. |
| CleanerExamples.BrokenCitationSpaced | app.py:68 | The `\s+` substitution turns `'(Source: a\nb)'` into `'(Source: a b)'`. |
| CleanerExamples.CitationAcrossNewlineSurvives | app.py:62-76 | A citation broken across lines survives cleaning with its lines joined: `'(Source: a\nb)'` cleans to `'(Source: a b)'`. |
| CleanerExamples.CitationAcrossNewlineKept | app.py:65 | The lazy `.*?` does not cross a newline, so `'(Source:\n)'` keeps its citation. |
| CleanerExamples.PageDigitsOnlyRemoved | app.py:66 | `Page 12abc` loses `Page 12`, and `abc` stays. |
| CleanerExamples.PageSplitByBlankLineKept | app.py:66 | `\s` is one whitespace character, so `Page\n\n4` is not a page marker. |
| CleanerExamples.PageSplitSpaced | app.py:68 | The `\s+` substitution turns `'Page\n\n4'` into `'Page 4'`. |
| CleanerExamples.PageSplitByBlankLineSurvives | app.py:62-76 | A page marker split by a blank line survives cleaning, rejoined: `'Page\n\n4'` cleans to `'Page 4'`. |
| CleanerExamples.PageMarkerSubstituted | app.py:66 | `'Page 4'` is one whole page-marker match and becomes one space. |
| CleanerExamples.PageMarkerRemoved | app.py:62-76 | A page marker on its own cleans to `''`. |
| CleanerExamples.CleaningTwiceRemovesRejoinedPage | app.py:62-76 | Cleaning is not idempotent on text with a pattern either: cleaning `'Page\n\n4'` twice gives `''`, once gives `'Page 4'`. |
| CleanerExamples.PageInsideWordKept | app.py:66 | `\b` requires a word boundary, so `xPage 4` is kept. |
| CleanerExamples.CitationAnyCaseRemoved | app.py:65 | `(source: x)` is removed despite its case. |
| CleanerExamples.HeadingCutToLineEnd | app.py:67 | A heading is cut to the end of its line, and the next line is kept. |
| CleanerExamples.MatchedThenPlain | app.py:72 | A match covering the head of the text becomes one space. The rest, where no match can begin, is copied. |
| CleanerExamples.PlainTail | app.py:72 | From an index on which no character can begin a match, `re.sub` copies the rest of the text unchanged. |
| CleanerExamples.PlainSpan | app.py:72 | Over a span where no character can begin a match, `re.sub` copies the span and continues after it. |
| CleanerExamples.Unchanged | app.py:72 | Text in which no character can begin a match comes back unchanged. |
| CleanerExamples.ShortTextNoHeading | app.py:67 | Text shorter than `GALE ENCYCLOPEDIA` has no heading to cut. |
| CleanerExamples.RunBetweenWords | app.py:68 | A non-empty whitespace run between two whitespace-free parts becomes exactly one space, and both parts are kept. |
| CleanerExamples.LiteralAtExtend | app.py:65-67 | A literal matched ignoring case at an index still matches there once text is appended. |
| CleanerExamples.LiteralAtConcat | app.py:65-67 | Two literals matched ignoring case one right after the other make their concatenation match. |
| CleanerExamples.MixedCaseHeading | app.py:67 | `Gale Encyclopedia` matches the heading literal `GALE ENCYCLOPEDIA` ignoring case. |
| CleanerExamples.HeadingLineMatched | app.py:67 | In `'Gale Encyclopedia x\nb'` the heading pattern matches from the start up to the newline. |
| CleanerExamples.Stages | app.py:64-76 | `clean_response` is the four substitutions in order, then `.replace('..', '.')`, then `.strip()`; the `'  '` replace changes nothing. |
| ChatRoute.Chat | app.py:87-97 | A missing `msg` field gives the apology. A blank question gives exactly the validation message. A chain failure gives the apology. Otherwise the reply is `clean_response` of the answer, and that reply is tidy and no longer than the answer. |
| ChatRoute.BlankIgnoresChain | app.py:89-91 | A blank question gets the validation message whatever the chain would do. The chain is not consulted. |
| ChatRoute.ReplyDependsOnTrimmedQuestion | app.py:89-93 | For a given chain behaviour, the reply depends on `msg` only through `msg.strip()`, because the chain is invoked with the stripped `query`. |
| ChatRoute.AnsweredReplyIsCleanedAnswer | app.py:93-94 | An answered question gets the cleaned answer, and a whitespace-only answer gives `""`. |

## Left out

- The Flask application, the `/` route, `render_template` and `app.run`: web plumbing.
- Loading `.env` and the API keys: I/O.
- The embedding download, the Pinecone store and the retriever: foreign services.
- The prompt template and the chain wiring: library calls. The retrieval chain becomes the parameter `chain: string -> ChainOutcome` of `ChatRoute.Chat`.
- The HuggingFace model configuration: remote inference and floating-point sampling parameters.
- ChatRoute.Chat: the form lookup becomes an `Option`. A chain that raises and a result without an `answer` key are one outcome, `Failed`. Other exceptions cannot arise on strings and are not modelled.
- Chars.IsDigit, Chars.IsWordChar, Chars.FoldCase: `\d`, `\w` and `re.IGNORECASE` are modelled on ASCII. Python's Unicode digits, Unicode word characters and Unicode case folding (for example `ſ` matching `s`) are not. `\s` and `str.strip` use Python's full whitespace set.
- PyStr.Replace: requires a non-empty pattern. The source never calls it with an empty one.
- ChatRoute.Chat: the chain is modelled as a deterministic function of the question. The hosted model samples at temperature 0.4, so repeated requests with the same question can get different answers; that is not captured.
- CleanerExamples: the members about one fixed input make no general claim. They are TriplePeriodKeepsTwo, TwoPeriodsKeepOne, FourPeriodsKeepTwo, CleaningTwiceDiffers, PageDigitsOnlyRemoved, PageSplitByBlankLineKept, PageSplitSpaced, PageSplitNoCitationOrHeading, JoinedPageNoPeriod, JoinedPageTrimmed, PageSplitByBlankLineSurvives, PageMarkerSubstituted, LoneSpaceKept, PageMarkerRemoved, CleaningTwiceRemovesRejoinedPage, PageInsideWordKept, CitationAnyCaseRemoved, MixedCaseGale, MixedCaseEncyclopedia, MixedCaseHeading, HeadingLineMatched, HeadingCutToLineEnd, CitationAcrossNewlineKept, BrokenCitationKept, BrokenCitationNoAdjacentSpaces, BrokenCitationBlanked, BrokenCitationSpaced, BrokenCitationNoPage, JoinedCitationNoPeriod, JoinedCitationTrimmed and CitationAcrossNewlineSurvives. The general lemmas of that module hold for all inputs that meet their requires: NoStartInAll, Unchanged, PlainSpan, PlainTail, ShortTextNoHeading, MatchedThenPlain, LiteralAtExtend, LiteralAtConcat, RunBetweenWordsShape, RunBetweenWords, Stages and NewlineBeforeCloseKept.
