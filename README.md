# Core-course rankings: a Dafny model

This project models the transformation at the heart of the graduate exit
survey's ranking script (`src/analyze_rankings.py`, `main()`). The script
loads the survey sheet, reads each core course's display name from the label
row and coerces the ranking cells to numbers. It then averages each course's
ranks, skipping missing cells, sorts the courses by mean rank and builds the
results table (Course ID, Course Name, Mean Rank).

The model is split into five modules:

- `Options` (`options.dfy`): `Option` and `Result`.
- `CourseNames` (`course_names.dfy`): display names. This covers Python's `in`,
  `str.split(" - ")[-1]` and `str.strip()` on the label text, plus the
  whitespace classes that `str.isspace` recognises.
- `MeanRank` (`mean_rank.dfy`): the mean of one coerced column. Missing cells
  are skipped, and a column with no number has no mean (NaN).
- `MeanOrder` (`mean_order.dfy`): the ordering used by `sort_values()`.
  - It is ascending, with a missing mean last.
  - An insertion sort stands in for the library sort. Only what the library
    promises is stated: a sorted permutation.
  - The model proves that the Mean Rank column does not depend on how ties are
    ordered.
- `AnalyzeRankings` (`analyze_rankings.dfy`): the sheet and the pipeline.
  - The sheet is a `Frame`: columns keyed by identifier, row 0 being the label
    row.
  - The name loop (`BuildNameMap`) and the coercion loop (`CoerceRankData`) are
    methods with loop invariants.
  - `RankCourses` and `Analyze` are methods that return either the results
    table or the error the script raises first.

Errors, in the order the script meets them:
- `EmptyFrame`: `df.iloc[0]` on a sheet with no rows raises `IndexError`.
- `MissingColumn(col)`: a core column that is absent raises `KeyError`.
- `LabelNotText(col)`: a label cell that is a number or empty makes
  `" - " in full_text` raise `TypeError`.

A sheet with only the label row is not an error: every mean is then missing.

Two points where the code's behaviour is narrower than its comments suggest:
- **Split point.** The comment at `src/analyze_rankings.py:33` says the name
  is the part after the last `" - "`. The code at line 35 takes
  `split(" - ")[-1]`, and Python cuts left to right at non-overlapping
  occurrences. The two agree whenever no two `" - "` in the label overlap
  (`CourseNames.DisplayNameAfterLastSeparator`). When they do overlap, the
  code's answer is the one modelled: `"Tax - - Audit"` yields `"- Audit"`,
  not `"Audit"` (`CourseNames.DisplayNameOverlapExample`).
- **Ties.** `sort_values()` at line 53 uses its default algorithm, quicksort,
  which does not promise any order among equal means. The model therefore
  promises only a sorted permutation. It proves instead that every valid
  ordering gives the same Mean Rank column
  (`AnalyzeRankings.ResultsAgreeUpToTies`).

## Model

| member | source | states |
|---|---|---|
| CourseNames.Contains | src/analyze_rankings.py:34 | `sep in s`: some index of `s` starts a copy of `sep` |
| CourseNames.FindFrom | src/analyze_rankings.py:34 | the result is an occurrence of the separator at or after `start` with none between `start` and it; no result means no occurrence at or after `start` |
| CourseNames.Find | src/analyze_rankings.py:34 | `" - " in text` holds exactly when a leftmost occurrence is found, and nothing occurs before it |
| CourseNames.FirstCutLeftmost | src/analyze_rankings.py:35 | the leftmost occurrence in a text is also the leftmost in the prefix that ends with it |
| CourseNames.Split | src/analyze_rankings.py:35 | `str.split`: joining the pieces with the separator gives back the text, no piece holds the separator, there are several pieces exactly when the separator occurs, and each cut is at the leftmost occurrence after the previous cut |
| CourseNames.JoinSnoc | src/analyze_rankings.py:35 | a join of several pieces is the join of all but the last, then the separator, then the last piece |
| CourseNames.JoinEndsWithLast | src/analyze_rankings.py:35 | the last piece ends the joined text and, when there are several pieces, follows a separator |
| CourseNames.LastSegment | src/analyze_rankings.py:35 | `split(sep)[-1]` holds no separator and is a suffix of the text; it follows a separator when one occurs and is the whole text otherwise |
| CourseNames.OccursInSuffix | src/analyze_rankings.py:35 | the occurrences of the separator in a suffix are those of the text, shifted |
| CourseNames.LastSegmentAfterFirstCut | src/analyze_rankings.py:35 | `split(sep)[-1]` of a text is `split(sep)[-1]` of what follows its leftmost occurrence |
| CourseNames.SuffixKeepsLastOccurrence | src/analyze_rankings.py:35 | cutting off a prefix that ends before the last occurrence keeps that occurrence last and keeps occurrences apart |
| CourseNames.LastSegmentAfterLastOccurrence | src/analyze_rankings.py:33-35 | when no two occurrences of the separator overlap, `split(sep)[-1]` is exactly the text after the last occurrence |
| CourseNames.IsSpace | src/analyze_rankings.py:38 | the characters `strip()` removes: those for which Python's `isspace` holds (0x09-0x0D, 0x1C-0x20, 0x85, 0xA0, 0x1680, 0x2000-0x200A, 0x2028, 0x2029, 0x202F, 0x205F, 0x3000) |
| CourseNames.TrimStartSpec | src/analyze_rankings.py:38 | lstrip removes a run of whitespace from the front and the result does not start with whitespace |
| CourseNames.TrimEndSpec | src/analyze_rankings.py:38 | rstrip removes a run of whitespace from the back and the result does not end with whitespace |
| CourseNames.Trim | src/analyze_rankings.py:38 | `strip()` as `lstrip` then `rstrip`, each dropping `IsSpace` characters one at a time from its end |
| CourseNames.TrimSpec | src/analyze_rankings.py:38 | `strip()` leaves a piece of the text with only whitespace around it, and the piece has no whitespace at either end |
| CourseNames.TrimIdempotent | src/analyze_rankings.py:38 | stripping twice is stripping once |
| CourseNames.TrimPadded | src/analyze_rankings.py:38 | text without whitespace at its ends, padded with whitespace, strips back to itself |
| CourseNames.DisplayName | src/analyze_rankings.py:34-38 | the name of a label: `split(" - ")[-1]` when `" - "` occurs, the whole text otherwise, then stripped |
| CourseNames.DisplayNameAfterSeparator | src/analyze_rankings.py:34-38 | with `" - "` in the label, the name is the stripped last piece, which follows a separator and holds none |
| CourseNames.DisplayNameAfterLastSeparator | src/analyze_rankings.py:33-38 | when no two `" - "` in the label overlap, the name is the stripped text after the last `" - "` |
| CourseNames.DisplayNameFallback | src/analyze_rankings.py:36-38 | without `" - "`, the name is the whole label stripped |
| CourseNames.DisplayNameIsTrimmedLastSegment | src/analyze_rankings.py:34-38 | the fallback branch agrees with taking the last piece, so the name is always the stripped last piece |
| CourseNames.DisplayNameStripped | src/analyze_rankings.py:38 | a display name neither starts nor ends with whitespace |
| CourseNames.DisplayNameHasNoSeparator | src/analyze_rankings.py:34-38 | a display name never holds `" - "` and is a piece of its label text |
| CourseNames.DisplayNameOfOneSplit | src/analyze_rankings.py:31-38 | a label `p - q` with no dash in `p` and no `" - "` in `q` has name `strip(q)` |
| CourseNames.DisplayNameExample | src/analyze_rankings.py:31-35 | `"Please rank - Advanced Tax"` has name `"Advanced Tax"` |
| CourseNames.DisplayNameFallbackExample | src/analyze_rankings.py:36-38 | `"  Ethics "` has name `"Ethics"` |
| CourseNames.DisplayNameOverlapExample | src/analyze_rankings.py:33-35 | split points do not overlap: `"Tax - - Audit"` has name `"- Audit"` |
| MeanRank.Numbers | src/analyze_rankings.py:53 | the numbers of a column are no more than its cells and are empty exactly when every cell is missing |
| MeanRank.Mean | src/analyze_rankings.py:53 | the mean is missing (NaN) exactly when the column holds no number |
| MeanRank.MeanSkipsMissing | src/analyze_rankings.py:47-53 | a missing cell anywhere leaves the mean unchanged: it is skipped, not counted as zero |
| MeanRank.MeanWithinBounds | src/analyze_rankings.py:51-53 | ranks within [lo, hi] give a mean within [lo, hi] |
| MeanRank.MeanExample | src/analyze_rankings.py:47-53 | the coerced column 1, 2, missing, 3 has mean 2 |
| MeanOrder.MeanLeIsTotalOrder | src/analyze_rankings.py:53 | the sort order is total, reflexive, transitive and antisymmetric on means, with NaN last |
| MeanOrder.Insert | src/analyze_rankings.py:53 | inserting a course into a sorted order gives a sorted order with that course added |
| MeanOrder.SortByMean | src/analyze_rankings.py:53 | `sort_values()`: the result is a permutation of the courses, sorted ascending by mean with missing means last |
| MeanOrder.SortedMeansUnique | src/analyze_rankings.py:53 | any two sorted permutations of the same courses list the same means index by index |
| AnalyzeRankings.ColumnName | src/analyze_rankings.py:30-38 | one loop step succeeds exactly when the column exists with a text label, and its value is that label's display name; otherwise it gives `KeyError` or `TypeError` for that column |
| AnalyzeRankings.NameMap | src/analyze_rankings.py:28-38 | `col_to_name` after the loop has visited the first `n` columns: each maps to the display name of its label, later entries overwriting earlier ones |
| AnalyzeRankings.NameMapKeys | src/analyze_rankings.py:28-38 | `col_to_name` is keyed by exactly the columns visited |
| AnalyzeRankings.NameMapValues | src/analyze_rankings.py:28-38 | every entry of `col_to_name` is the display name of its column's label |
| AnalyzeRankings.BuildNameMap | src/analyze_rankings.py:26-38 | the name loop fails on an empty sheet, or at the first column whose label cannot be read with that column's error; otherwise it returns the full name map |
| AnalyzeRankings.Coerce | src/analyze_rankings.py:49 | `to_numeric(errors='coerce')` on one cell: a number stays, an empty cell is NaN, text is whatever `parse` reads (NaN when it reads nothing) |
| AnalyzeRankings.ToNumeric | src/analyze_rankings.py:49 | `to_numeric` on a column: each cell coerced, in place and in order |
| AnalyzeRankings.CoerceRankData | src/analyze_rankings.py:45-49 | `rank_data` holds for each core column, and nothing else, the coerced cells below the label row |
| AnalyzeRankings.ColumnMean | src/analyze_rankings.py:45-53 | the mean rank of a column: the mean of its coerced cells from row 1 on, skipping NaN |
| AnalyzeRankings.MeanRanks | src/analyze_rankings.py:53 | `rank_data.mean()`: for each column of the coerced data, its mean |
| AnalyzeRankings.CoercedMean | src/analyze_rankings.py:49-53 | the mean of a coerced column equals the column's mean rank over the sheet |
| AnalyzeRankings.IsResultsTable | src/analyze_rankings.py:53-60 | what the results table promises: each column of `cols` as often as listed, with its display name and mean rank, in ascending order of mean with NaN last |
| AnalyzeRankings.OrderKeyed | src/analyze_rankings.py:53-58 | every course of the sorted index has a name and a mean |
| AnalyzeRankings.RowsFormResultsTable | src/analyze_rankings.py:53-60 | rows built from the sorted index, names and means form a results table: each core column as often as in the list, its name, its mean, sorted |
| AnalyzeRankings.Rows | src/analyze_rankings.py:56-60 | the results frame: one row per course of the sorted index, in that order, with its name from `col_to_name` and its mean |
| AnalyzeRankings.RankCourses | src/analyze_rankings.py:26-60 | the pipeline succeeds exactly when the sheet has rows and every label is readable; otherwise it fails with the first error; on success the result is a results table |
| AnalyzeRankings.Analyze | src/analyze_rankings.py:22-60 | `main()` over the eight core columns: success, errors and results table as above, with exactly eight rows and no course twice |
| AnalyzeRankings.ResultsAgreeUpToTies | src/analyze_rankings.py:53-60 | two results tables for the same sheet have the same Mean Rank column, whatever the order of ties |
| AnalyzeRankings.CoreColumnsDistinct | src/analyze_rankings.py:22 | the eight core column identifiers are different |
| AnalyzeRankings.ResultsListEachColumnOnce | src/analyze_rankings.py:53-60 | over distinct columns, the results table has one row per column, with no column twice and no other column |

## Left out

- Loading the sheet is not modelled. `pd.read_excel` (line 19) and its load failures are out of scope; the loaded sheet is the `Frame` parameter.
- The output directory (line 13), the CSV file (line 66) and the bar chart (lines 69 onward) are not modelled; they are file and graphics I/O.
- Console output (lines 16, 40-42, 62-63, 67) is not modelled.
- `pd.to_numeric`'s reading of text cells is the parameter `parse`, because the library's number grammar is not part of this model. Number cells stay numbers and empty cells are missing.
- Spreadsheet cells are text, number or empty. Dates, booleans and other cell types are not modelled.
- Arithmetic is on exact reals, not IEEE doubles. NaN is `None`. Floating-point rounding in the mean is not modelled.
- MeanOrder.SortByMean: states only a sorted permutation, without stability, because the default `sort_values()` algorithm does not promise any order among ties. The insertion sort used happens to keep tied courses in column order.
- The `KeyError` that `df.iloc[1:][core_cols]` (line 45) could raise cannot occur: the name loop has already rejected a missing core column at line 30.
