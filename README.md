# Resume ranking by file name

The results screen of the resume screener (`ResultsPage` in `src/App.js`)
ranks uploaded resumes against a job description by their file names only.
When at least one resume and a job description are present, its effect does
the first three of these things; the screen's table does the fourth:

1. It turns every file name into keywords. It strips one trailing `.pdf` in
   any case, lower-cases the rest, and splits it on runs of whitespace, `-`,
   `_` and `.`.
2. For each resume it counts the resume keywords that occur among the job
   description's keywords (`matchCount`). It scores the resume
   `min(100, 50 + 10 * matchCount)` and attaches one of three suggestion
   strings.
3. It sorts the records by descending score. The sort is stable, so equal
   scores keep upload order.
4. In the rank column, rows 0-2 show a gold, silver or bronze medal in place
   of the rank, and later rows show the number `index + 1`.

The project has four modules, one per stage:

- `Tokenizer` (`tokenizer.dfy`): `StripPdf`, `ToLower`, `Split` and their
  composition `Tokenize`. `Split` has a round-trip partner `Join`.
- `Scorer` (`scorer.dfy`): `Hits`/`MatchCount`, `Score`, `Suggestion`, and the
  per-resume record `ScoreResume`/`ScoreAll`.
- `Ranker` (`ranker.dfy`):
  - the reference stable sort `SortByScore`;
  - the in-place insertion sort `SortInPlace`/`InsertAt` on an array, proved
    equal to it;
  - the rank and medal cells `Rows`.
- `Results` (`results.dfy`):
  - the guarded effect (`Ranking`, `ScoreResumes`);
  - the state it leaves behind (`StateAfterEffect`);
  - what the screen shows (`ResultsPage`);
  - the worked examples `backend-engineer.pdf`, `backend_engineer_resume.pdf`
    and `random_cv.pdf`.

The tokenizer keeps empty tokens, as the code does. A name that starts or ends
with a separator (after `.pdf` is removed) yields a leading or trailing `""`
token. An empty name yields `[""]`. Two empty tokens therefore "match" each
other, as they do in the code.

`Array.prototype.sort` is modelled by an insertion sort. `SortedStableUnique`
shows this costs nothing: any list that is sorted by non-increasing score and
keeps every score's records in input order is `SortByScore` of the input. So
every stable sort with this comparator gives the same result.

## Model

| member | source | states |
|---|---|---|
| Tokenizer.IsWhitespace | src/App.js:85 | the `\s` set: ECMAScript's WhiteSpace and LineTerminator code points; space, tab, LF and CR are in it; no letter, digit, `-`, `_` or `.` is |
| Tokenizer.IsSeparator | src/App.js:85 | the split class: every `\s` character and `-`, `_`, `.` separate |
| Tokenizer.WordCharsNeverSeparate | src/App.js:85 | no ASCII letter or digit is a separator |
| Tokenizer.LowerChar | src/App.js:84 | an upper-case ASCII letter moves to its lower-case letter (+32); every other character is unchanged |
| Tokenizer.ToLower | src/App.js:84 | same length, no upper-case ASCII letter left, upper-case letters lowered, every other character unchanged in place |
| Tokenizer.ToLowerKeepsSeparators | src/App.js:84-85 | lower-casing does not change which positions hold separators |
| Tokenizer.ToLowerIdempotent | src/App.js:84 | lower-casing twice is lower-casing once |
| Tokenizer.ToLowerNoUpper | src/App.js:84 | a string with no upper-case ASCII letter is left unchanged |
| Tokenizer.EndsWithPdf | src/App.js:83 | the test is true iff the name has at least four characters and its last four spell `.pdf` with each letter in either case |
| Tokenizer.StripPdf | src/App.js:83 | a name ending in `.pdf` in any case loses exactly those four characters; any other name is unchanged |
| Tokenizer.StripPdfRoundTrip | src/App.js:83 | stripping undoes appending any case variant of `.pdf` |
| Tokenizer.StripPdfOnlyOnce | src/App.js:83 | only one extension is removed: `base.pdf.PDF` becomes `base.pdf`, which still ends in `.pdf` |
| Tokenizer.DropSeparators | src/App.js:85 | skips exactly the maximal run of leading separators: the result is a suffix that does not start with a separator, and every skipped character is one |
| Tokenizer.Split | src/App.js:85 | a split always has at least one piece |
| Tokenizer.SplitPieces | src/App.js:85 | every character of every piece comes from the string and is not a separator |
| Tokenizer.SplitFirstEmpty | src/App.js:85 | the first piece is empty iff the string is empty or starts with a separator |
| Tokenizer.SplitLastEmpty | src/App.js:85 | the last piece is empty iff the string is empty or ends with a separator |
| Tokenizer.SplitLastEmptyAfterSeparator | src/App.js:85 | the last-piece property for a string that starts with a separator |
| Tokenizer.SplitLastEmptyLongTail | src/App.js:85 | the last-piece property for a string that starts with a word and has more pieces after it |
| Tokenizer.SplitLastEmptyOnePiece | src/App.js:85 | a string that starts with a word and has no cut after it ends in a non-empty piece and not in a separator |
| Tokenizer.SplitWhole | src/App.js:85 | a single piece iff the string has no separator; that piece is then the whole string |
| Tokenizer.SplitWellFormed | src/App.js:85 | the pieces are well formed: none holds a separator, and only the first and last can be empty |
| Tokenizer.SplitPrepend | src/App.js:85 | a separator-free prefix extends the first piece only |
| Tokenizer.SplitAfterSeparator | src/App.js:85 | one separator in front opens an empty first piece |
| Tokenizer.Join | src/App.js:85 | the first piece is a prefix of the joined string (inverse of the split) |
| Tokenizer.WellFormedTail | src/App.js:85 | dropping the first piece of a well-formed list keeps it well formed |
| Tokenizer.RunCollapses | src/App.js:85 | a run of separators, whatever its characters, cuts only once: a second separator after the first opens no further piece |
| Tokenizer.SplitJoin | src/App.js:85 | round trip: splitting well-formed pieces joined by any separator gives the pieces back |
| Tokenizer.RemoveSeparators | src/App.js:85 | the non-separator characters of a string: no longer than it and separator-free |
| Tokenizer.RemoveSeparatorsDrop | src/App.js:85 | skipping leading separators does not change the non-separator text |
| Tokenizer.SplitKeepsText | src/App.js:85 | the pieces glued together are the string without its separators: splitting loses nothing else and keeps order |
| Tokenizer.Tokenize | src/App.js:82-85 | tokenizing never yields an empty list |
| Tokenizer.TokenShape | src/App.js:88-91 | tokens: at least one, no separator in any, no upper-case letter, only the first or last can be empty |
| Tokenizer.TokenizeWhole | src/App.js:83-85 | a name without separators once `.pdf` is removed is one token, the lower-cased name |
| Tokenizer.TokenizeLeadingSeparator | src/App.js:89-91 | a leading separator gives a leading empty token, which is kept |
| Tokenizer.TokenizeTrailingSeparator | src/App.js:89-91 | a trailing separator before `.pdf` gives a trailing empty token, which is kept |
| Tokenizer.JoinNoUpper | src/App.js:84 | joining lower-case pieces with a non-letter separator gives a lower-case string |
| Tokenizer.TokenizeJoined | src/App.js:82-85 | lower-case well-formed words joined by a separator, followed by any case of `.pdf`, tokenize back to those words |
| Scorer.Hits | src/App.js:93 | the filter keeps at most as many tokens as the resume has |
| Scorer.HitsCounts | src/App.js:93 | each resume token is kept as often as it occurs in the resume if the job description contains it at all, and never otherwise |
| Scorer.MatchCountBounds | src/App.js:93 | 0 <= matchCount <= number of resume tokens; equal to it iff every token is in the job description; 0 iff none is |
| Scorer.MatchCountAppend | src/App.js:93 | the count is additive over concatenated token lists |
| Scorer.MatchCountOnlyMembership | src/App.js:93 | only which words the job description contains matters, not how often |
| Scorer.MatchCountRepeats | src/App.js:93 | k copies of a job-description word count k times |
| Scorer.MatchCount | src/App.js:93 | the count never exceeds the number of resume tokens |
| Scorer.Min | src/App.js:94 | the result is one of the two arguments and no greater than either |
| Scorer.Score | src/App.js:94 | 50 <= score <= 100; 100 exactly from 5 matches on; 50 + 10*matchCount below that |
| Scorer.ScoreBounds | src/App.js:94 | 50 <= score <= 100, a multiple of 10, 100 iff matchCount >= 5, 50 + 10*matchCount below that, 50 for no match |
| Scorer.ScoreMonotone | src/App.js:94 | the score never decreases as matchCount grows, and strictly increases below saturation |
| Scorer.Suggestion | src/App.js:102-107 | one of the three labels; the excellent label iff score >= 90; the good label iff 70 <= score < 90; the tailoring label iff score < 70 |
| Scorer.SuggestionByMatchCount | src/App.js:94-107 | at least 4 matches give "Excellent match!", 2 or 3 give "Good match…", at most 1 gives "Consider tailoring…" |
| Scorer.Keywords | src/App.js:82-85 | the job description always has at least one keyword |
| Scorer.ScoreResume | src/App.js:88-108 | the record keeps the file's name and link, its score is `Score(matchCount)` in [50, 100], and its suggestion is the label of that score |
| Scorer.ScoreAll | src/App.js:87-108 | one record per resume, the i-th record scoring the i-th resume |
| Scorer.NoKeywordsNoMatch | src/App.js:93-107 | an empty keyword list gives score 50 and the tailoring label |
| Ranker.WithScore | src/App.js:109 | the records with a given score, in order, no more than the input |
| Ranker.Insert | src/App.js:109 | inserting one record adds exactly one |
| Ranker.SortByScore | src/App.js:109 | the reference sort keeps the length |
| Ranker.InsertPermutes | src/App.js:109 | insertion adds exactly the inserted record to the multiset |
| Ranker.SortByScorePermutes | src/App.js:109 | the sort is a permutation of its input |
| Ranker.SortByScoreMembers | src/App.js:109 | every sorted record is an input record and vice versa |
| Ranker.WithScoreAppend | src/App.js:109 | the per-score filter distributes over concatenation |
| Ranker.InsertSorted | src/App.js:109 | inserting into a sorted list keeps it sorted by non-increasing score |
| Ranker.InsertTies | src/App.js:109 | insertion puts the new record after every earlier record of its score |
| Ranker.SortByScoreSorted | src/App.js:109 | the sort result is ordered by non-increasing score |
| Ranker.SortByScoreStable | src/App.js:109 | stability: for every score, the records with that score keep their input order |
| Ranker.WithScoreNonEmpty | src/App.js:109 | the filter for the score of any record of the list is non-empty |
| Ranker.WithScoreFrom | src/App.js:109 | a non-empty filter for a score means some record of the list has that score |
| Ranker.WithScoreHead | src/App.js:109 | a non-empty list has a non-empty filter for its first record's score |
| Ranker.SortedStableUnique | src/App.js:109 | two lists both sorted by non-increasing score with the same per-score orders are equal |
| Ranker.StableSortIsSortByScore | src/App.js:109 | any stable descending sort of the input is the reference sort |
| Ranker.Names | src/App.js:98-99 | the names of the records, one per record |
| Ranker.InsertNames | src/App.js:109 | insertion adds exactly the new record's name to the multiset of names |
| Ranker.SortByScoreNames | src/App.js:109 | the sort keeps the multiset of names |
| Ranker.InsertPosition | src/App.js:109 | insertion puts the new record after the records scoring at least as much and before the trailing lower-scoring ones |
| Ranker.ShiftStep | src/App.js:109 | one shift of the insertion loop moves the hole one place to the left |
| Ranker.HoleFill | src/App.js:109 | filling the hole with the key gives the prefix, the key and the shifted suffix |
| Ranker.InsertAt | src/App.js:109 | in place: the array becomes the reference insertion of `a[i]` into the sorted prefix, followed by the untouched suffix |
| Ranker.SortByScorePrefix | src/App.js:109 | one more input record means one more insertion |
| Ranker.SortByScoreSpec | src/App.js:109 | the reference sort is sorted, stable and a permutation |
| Ranker.SortInPlace | src/App.js:109 | in place: the array becomes the reference sort of its old contents, so it is sorted, stable and a permutation |
| Ranker.RankCellAt | src/App.js:144-146 | gold iff row 0, silver iff row 1, bronze iff row 2; a number exactly from row 3 on, and that number is index + 1 |
| Ranker.Rows | src/App.js:141-146 | one row per record, in order, each showing its record |
| Ranker.RankCells | src/App.js:141-146 | rows 0-2 show a gold, silver or bronze medal in place of the rank; later rows show index + 1; `RankOf` reads a medal as rank 1-3, so every row stands for rank index + 1 |
| Ranker.RanksContiguous | src/App.js:141-146 | the ranks run 1..N in steps of one, and no two rows share a cell |
| Results.Ranking | src/App.js:80-109 | no ranking exactly when there are no resumes or no job description; otherwise one record per resume |
| Results.ScoreResumes | src/App.js:80-109 | none exactly when there are no resumes or there is no job description; otherwise one record per resume with the same names, sorted, stable |
| Results.FileNames | src/App.js:99 | one name per uploaded file |
| Results.ScoreAllNames | src/App.js:87-99 | the mapped records carry the uploaded names in upload order |
| Results.SortedScoresInRange | src/App.js:94-109 | every ranked record has a score in [50, 100] |
| Results.RankingInvariant | src/App.js:80-109 | with resumes and a job description: one record per resume, the same multiset of names, in-range scores, sorted |
| Results.StateAfterEffect | src/App.js:80-111 | the guard keeps the previous state; otherwise the new state is exactly the sorted, scored ranking |
| Results.StateAfterEffectRanked | src/App.js:80-111 | with resumes and a job description the stored state has one record per resume, the uploaded names, scores in [50, 100], non-increasing scores and ties in upload order |
| Results.ResultsPage | src/App.js:118-141 | the empty-state message is shown iff there are no resumes |
| Results.MissingJobDescriptionShowsEmptyTable | src/App.js:80-141 | resumes without a job description give a table with no rows, not the message |
| Results.TokenizeLowerWords | src/App.js:82-91 | non-empty lower-case words joined by a separator and ending in `.pdf` tokenize back to those words |
| Results.JoinTwo | src/App.js:85 | joining two pieces puts one separator between them |
| Results.JoinThree | src/App.js:85 | joining three pieces puts one separator between neighbours |
| Results.PdfIsPdf | src/App.js:83 | `.pdf` itself is a `.pdf` extension |
| Results.JobDescriptionKeywords | src/App.js:82-85 | `backend-engineer.pdf` gives `backend`, `engineer` |
| Results.ResumeKeywords | src/App.js:88-91 | `backend_engineer_resume.pdf` gives `backend`, `engineer`, `resume` |
| Results.RandomCvKeywords | src/App.js:88-91 | `random_cv.pdf` gives `random`, `cv` |
| Results.TwoKeywordsMatch | src/App.js:93 | two of those three resume tokens match |
| Results.ScenarioGoodMatch | src/App.js:88-108 | `backend_engineer_resume.pdf` against `backend-engineer.pdf` scores 70 with "Good match. Add more relevant keywords." |
| Results.ScenarioNoMatch | src/App.js:88-108 | `random_cv.pdf` against `backend-engineer.pdf` scores 50 with "Consider tailoring your resume to the job title." |
| Results.ScenarioSaturated | src/App.js:94-104 | five or more matches give 100 and "Excellent match!" |
| Results.EqualScoresKeepUploadOrder | src/App.js:109-146 | two equal-scored resumes keep upload order and get gold then silver |

## Left out

- React components, routing, navigation state and alerts: UI glue outside the ranking pipeline.
- `URL.createObjectURL` and the cleanup with `URL.revokeObjectURL` (src/App.js:96, 113-115): these are browser calls. A link is modelled as the opaque handle `ObjectUrl(id)` of the file it was made for.
- The `useState` / `useEffect` / `useMemo` lifecycle and re-renders: `StateAfterEffect` models only the state one run of the effect leaves behind.
- File contents, `File` objects and the `accept=".pdf"` filter: only a file's name takes part. An `UploadedFile` is a name with an identity.
- Tokenizer.ToLower: lower-cases the ASCII letters A-Z only. The full Unicode case mapping of `String.prototype.toLowerCase` is not modelled. Neither are its length-changing mappings, such as `İ`.
- Tokenizer.IsWhitespace: `\s` is the fixed set of ECMAScript WhiteSpace and LineTerminator code points. Changes to Unicode's `Zs` category after the set was written are not tracked.
- Strings are sequences of Unicode scalar values, not UTF-16 code units. Names holding unpaired surrogates are not modelled.
- JSX table rendering and icons (src/App.js:127-165): only the rank cell of each row is modelled (`Rows`).
- `Array.prototype.sort` is whatever stable algorithm the engine uses. The model uses an insertion sort. `StableSortIsSortByScore` shows that every stable sort with this comparator gives the same list.
