# Marine economy preprocessing, in Dafny

This project models the preprocessing section of `marine.py` (lines 11-28).
That section cleans the marine-economy table before anything is printed or
plotted:

1. It normalises the column headers (line 11).
2. It coerces `year` and `data_value` to numbers (lines 14-15).
3. It drops the rows where either does not parse (line 18).
4. It drops repeated rows (line 21).
5. It strips and lower-cases the six categorical columns (lines 24-25).
6. It keeps only the rows of magnitude `"actual"` (line 28).

The project also models the key set of the category-by-year pivot (line 67).

## Layout

- `wrappers.dfy`: `Option`, `Result` and `Outcome`.
- `text.dfy`: the string operations.
  - `Strip` is Python's `str.strip()`. `IsStripOf` defines it independently.
  - `Lower` is `str.lower()`. `ReplaceSpaces` is `str.replace(' ', '_')`.
  - `NormalizeName` is the header rewrite of line 11. `NormalizeText` is the cell rewrite of line 25.
- `selection.dfy`: order-preserving selection.
  - pandas' `dropna`, `drop_duplicates` and boolean-mask indexing all return the rows at the positions a test accepts, in order.
  - `Kept` gives those positions and `Select` gives the rows.
- `table.dfy`: the table and each transformation as a function on rows.
  - A row is a sequence of cells, positionally aligned with the header list.
  - A cell is text, a number or NaN.
  - `Locate` is `df[name]`. It fails when the name is missing (pandas raises `KeyError`). It also fails when the name is ambiguous: several headers then carry it, and `to_numeric` and `.str` reject the frame pandas returns.
- `marine.dfy`: the section as a whole.
  - `Cleaned` is lines 11-28 as one function of the loaded frame. It returns the cleaned frame or the first failing lookup.
  - Class `DataFrame` holds the frame `df` as the script mutates it. Lines 11, 14-15 and 24-25 assign into the frame in place; they are its methods `RenameColumns`, `ToNumericColumn` and `NormalizeCategories`, the last with a loop over the six column names. The frame-returning steps of lines 18, 21 and 28 are assigned to its rows. `Clean` runs the whole section and is proved to end in the state `Cleaned` describes.
  - `CleanedDedupLast` and the method `DataFrame.CleanDedupLast` are the section with line 21 moved after lines 24-25 (see Findings).
- `dedup_order.dfy`: the consequence of running line 21 before lines 24-25.
  - It builds a concrete two-row frame that the section turns into a frame holding one row twice.
  - It proves that, with the duplicate removal last, the result is free of duplicates.

Choices made in the model:

- `pd.to_numeric(errors='coerce')` is a parameter `parse: string -> Option<real>`. `None` stands for text that does not parse, and also for text that parses to NaN.
- Whitespace is the ASCII part of Python's `str.isspace`. Lower-casing is ASCII lower-casing.

The duplicate-freedom of the cleaned table and snake-case headers are both
described as intended. The model follows the code, which provides neither:
- Line 11 replaces only the space character, so tabs and punctuation inside a header survive. `NormalizeName` only promises no spaces, no surrounding whitespace and no upper case.
- Line 21 runs before normalisation, so the final table can hold duplicates. This is proved by `DedupOrder.CleanedKeepsCaseVariants` and `DedupOrder.FishingExample`.

## Model

| member | source | states |
|---|---|---|
| Text.TrimBoth | marine.py:11 | cutting leading and then trailing whitespace leaves a slice without whitespace at its ends, with only whitespace cut on either side (`IsStripOf`) |
| Text.Strip | marine.py:11 | `str.strip()`: the result is a strip of the input in the sense of `IsStripOf`, and an input with no whitespace at its ends is returned unchanged |
| Text.StripOfUnique | marine.py:11 | a string has only one strip in the sense of `IsStripOf`, so `Strip` is the only function meeting that definition |
| Text.TrimStripped | marine.py:11 | trimming either end of a string without whitespace at its ends changes nothing |
| Text.LowerChar | marine.py:11 | one character of `str.lower()`: an upper-case ASCII letter becomes the letter 32 code points above it, every other character is unchanged, and no upper-case letter comes out |
| Text.Lower | marine.py:11 | `str.lower()`: same length; each upper-case letter becomes the letter 32 code points above it, at the same position; every other character is unchanged; no upper-case letter is left; lower-case input is returned as is |
| Text.LowerKeepsStripped | marine.py:11 | lower-casing a string with no whitespace at its ends keeps it so |
| Text.ReplaceSpaces | marine.py:11 | `str.replace(' ', '_')`: same length, each space becomes an underscore at the same position, every other character unchanged, no space left |
| Text.ReplaceSpacesKeeps | marine.py:11 | replacing spaces keeps a stripped lower-case string stripped and lower-case |
| Text.NormalizeName | marine.py:11 | a rewritten header contains no space, has no whitespace at either end, and has no upper-case letter |
| Text.NormalizeNames | marine.py:11 | the header list keeps its length and order, and each header is rewritten on its own |
| Text.NormalizeNameFixes | marine.py:11 | a header that is already stripped, lower-case and free of spaces is left unchanged |
| Text.NormalizeNameIdempotent | marine.py:11 | rewriting a rewritten header changes nothing |
| Text.NormalizeText | marine.py:25 | a normalised cell text has no whitespace at its ends and no upper-case letter |
| Text.NormalizeTextIdempotent | marine.py:25 | normalising normalised text changes nothing |
| Text.NormalizeTextSameUpToCase | marine.py:25 | two cells normalise to the same text exactly when their stripped texts have one length and agree letter by letter once lower-cased (`SameUpToCase`) |
| Text.NormalizeTextCollapsesVariants | marine.py:25 | "Fishing " and "fishing" are the same up to case once stripped, so both normalise to "fishing" |
| Selection.Kept | marine.py:18 | the kept positions are valid positions of the input, in strictly increasing order, and there are no more of them than input rows |
| Selection.Select | marine.py:18 | the rows a test accepts, in their original order; its contract is carried by `Selection.SelectAt` (the input's rows at the `Kept` positions) and `Selection.SelectSubset` |
| Selection.KeptExactly | marine.py:18 | a position is kept exactly when the test accepts its row given the rows before it |
| Selection.SelectAt | marine.py:18 | the selected rows are the input's rows at the kept positions, in order |
| Selection.SelectSubset | marine.py:18 | every selected row comes from the input |
| Selection.SelectAll | marine.py:18 | a test that accepts every row selects the whole input |
| Selection.SelectKeepsNoDuplicates | marine.py:28 | filtering a duplicate-free sequence leaves it duplicate-free |
| Selection.DedupHasNoDuplicates | marine.py:21 | `drop_duplicates` leaves no two equal rows |
| Selection.DedupKeepsFirstOccurrences | marine.py:21 | a value is in the result exactly when it is in the input, and a position is kept exactly when it holds the first occurrence of its value |
| Selection.FilterExactly | marine.py:28 | a boolean mask keeps a position exactly when its row passes, every row kept passes, and the result is no longer than the input |
| Table.Locate | marine.py:14 | a successful `df[name]` yields a column that has that name |
| Table.LocateExactly | marine.py:14 | on success no other header has the name; it fails as missing exactly when no header has it, and as ambiguous exactly when two headers do; the error names the column looked up |
| Table.LocateDistinct | marine.py:14 | with no repeated headers, every header is found at its own position |
| Table.SetColumn | marine.py:14 | assigning a column rewrites that column of every row and leaves the row count, the row order and every other cell unchanged |
| Table.ToNumeric | marine.py:14 | coercion gives no text: a text cell becomes the number it parses to, or NaN exactly when it does not parse; numbers and NaN stay |
| Table.CoerceColumn | marine.py:14-15 | after coercion the column holds no text, and every other cell is unchanged |
| Table.NormalizeCell | marine.py:25 | a text cell stays text and becomes stripped lower-case text; other cells are left alone |
| Table.NormalizeCellIdempotent | marine.py:25 | normalising a cell twice is normalising it once |
| Table.SelectRectangular | marine.py:18 | dropping rows keeps every row as wide as the header list |
| Table.DropIncomplete | marine.py:18 | `dropna(subset=[year, data_value])` as a mask selection; its contract is carried by `Table.DropIncompleteExactly` |
| Table.DropDuplicates | marine.py:21 | `drop_duplicates()` keeping first occurrences; its contract is carried by `Table.DropDuplicatesExactly` |
| Table.NormalizeTextColumns | marine.py:24-25 | the loop over the six column names, failing at the first name that does not locate one column; its contract is carried by `Table.NormalizeTextColumnsEffect` and `Table.NormalizeTextColumnsFailure` |
| Table.KeepActual | marine.py:28 | the `magnitude == 'actual'` mask followed by `reset_index(drop=True)`; its contract is carried by `Table.KeepActualExactly` |
| Table.DropIncompleteExactly | marine.py:14-18 | for any loaded cells, a row survives coercion and `dropna` exactly when both its year and value cells are `Present`: a number already, or text that parses; survivors hold numbers in both columns; the result is the coerced rows at strictly increasing kept positions, so survivors keep their relative order |
| Table.LoadedNumberSurvives | marine.py:14-18 | a year `read_csv` already loaded as a number survives beside a value text that parses, as the row of the two numbers |
| Table.DropDuplicatesExactly | marine.py:21 | no two equal rows remain; a row value is in the result exactly when it is in the input; position `i` is kept exactly when it is the first occurrence of its row; order is preserved |
| Table.NormalizeTextColumnsEffect | marine.py:24-25 | the loop succeeds exactly when each name locates one column; it then changes only the cells of the named columns, each to its normalised form, and keeps every row |
| Table.NormalizeTextColumnsFailure | marine.py:24-25 | a failing loop reports the lookup of the first name that does not locate one column, after every earlier name located one |
| Table.KeepActualExactly | marine.py:28 | a row is kept exactly when its magnitude cell is the text "actual"; every kept row is an input row with that magnitude; the result is no longer than the input and is the input's rows at strictly increasing kept positions, so order is preserved |
| Table.Groups | marine.py:67 | every pivot group holds at least one value |
| Table.GroupsKeys | marine.py:67 | the pivot has a (category, year) cell exactly when some row has that category and year |
| Marine.NumericColumnsAreNotText | marine.py:24 | the loop of line 24 names neither `year` nor `data_value` |
| Marine.RequiredColumnsShape | marine.py:14-28 | the section looks up `year`, then `data_value`, then the six categorical columns, `magnitude` among them |
| Marine.NumericComplete | marine.py:14-18 | the coercion of both numeric columns followed by `dropna`; the result stays rectangular, and `Marine.NumericCompleteRows` and `Table.DropIncompleteExactly` carry the rest of its contract |
| Marine.NumericUnique | marine.py:14-21 | the above followed by `drop_duplicates`; the result stays rectangular, and `Marine.NumericUniqueRows` and `Table.DropDuplicatesExactly` carry the rest of its contract |
| Marine.CleanedRenamed | marine.py:14-28 | lines 14-28 on renamed headers; its contract is carried by `Marine.CleanedSucceedsExactly`, `Marine.CleanedFailsFirst` and `Marine.CleanedRenamedRows` |
| Marine.Cleaned | marine.py:11-28 | the whole section on the loaded frame; its contract is carried by `Marine.CleanedFailsExactly` and `Marine.CleanedRows`, and `Marine.DataFrame.Clean` is proved to compute it in place |
| Marine.CleanedDedupLastRenamed | marine.py:14-28 | corrected order on renamed headers: `drop_duplicates` after lines 24-25; its contract is carried by `DedupOrder.CleanedDedupLastRenamedIsClean` |
| Marine.CleanedDedupLast | marine.py:11-28 | corrected order on the loaded frame; its contract is carried by `DedupOrder.CleanedDedupLastIsClean`, and `Marine.DataFrame.CleanDedupLast` is proved to compute it in place |
| Marine.CleanedByLookups | marine.py:14-28 | the section fails with the error of the first failing lookup among `year`, `data_value` and the loop's columns, and succeeds otherwise |
| Marine.CleanedSucceedsByLookups | marine.py:14-28 | the section succeeds exactly when `year`, `data_value` and every categorical column each locate one column |
| Marine.CleanedSucceedsExactly | marine.py:14-28 | the section succeeds exactly when every column it looks up locates one renamed header |
| Marine.CleanedFailsFirst | marine.py:14-28 | a failing section reports the first column, in lookup order, that is missing or ambiguous; every column before it was found |
| Marine.CleanedFailsExactly | marine.py:11-28 | the whole section on the loaded frame fails exactly when a looked-up column is missing or ambiguous after renaming, and it reports the first such column |
| Marine.NumericCompleteRows | marine.py:14-18 | after coercion and `dropna`, every row holds numbers under `year` and `data_value`, and no row is added |
| Marine.NumericUniqueRows | marine.py:14-21 | the same still holds after `drop_duplicates` |
| Marine.NormalizedRows | marine.py:24-25 | after the loop, the numeric cells are still numbers, every categorical cell is in normal form, and no row is added or removed |
| Marine.KeepActualClean | marine.py:28 | filtering rows that are clean apart from their magnitude leaves only clean rows (numbers, "actual", normal categorical cells) |
| Marine.CleanedRenamedRows | marine.py:14-28 | every row that lines 14-28 leave is clean, the headers are kept, and no row is added |
| Marine.CleanedRows | marine.py:11-28 | every row of the cleaned frame is clean, its headers are the rewritten ones, and it has no more rows than the loaded frame |
| Marine.DataFrame.constructor | marine.py:6 | the frame starts with the loaded headers and rows |
| Marine.DataFrame.RenameColumns | marine.py:11 | assigning `df.columns` rewrites every header in place and leaves the rows alone |
| Marine.DataFrame.ToNumericColumn | marine.py:14-15 | a found column is coerced in place; a missing or ambiguous one reports the lookup error and changes nothing |
| Marine.DataFrame.NormalizeCategories | marine.py:24-25 | the loop over column names leaves the rows `NormalizeTextColumns` describes, or stops with the error of the first name that does not locate one column |
| Marine.DataFrame.DropIncompleteRows | marine.py:14-18 | the two columns are coerced, then the rows missing either number are dropped; the method fails with the first failing lookup of `year` and `data_value` |
| Marine.DataFrame.DropRepeatedRows | marine.py:21 | the rows become `DropDuplicates` of the old rows; the headers are unchanged |
| Marine.DataFrame.DropUnusableRows | marine.py:14-21 | the two columns are coerced, then incomplete and repeated rows are dropped; the method fails with the first failing lookup of `year` and `data_value` |
| Marine.DataFrame.KeepActualRows | marine.py:24-28 | the loop then the magnitude filter leave `KeepActual` of the normalised rows; the method fails at the loop's error, or at a missing or ambiguous `magnitude` |
| Marine.DataFrame.Clean | marine.py:11-28 | running the section on the frame leaves exactly the frame `Cleaned` gives for the old state, or reports the error `Cleaned` gives |
| Marine.DataFrame.DedupActualRows | marine.py:21-28 | corrected order: the loop, then `drop_duplicates`, then the magnitude filter leave `KeepActual` of the deduplicated normalised rows; the errors are those of `KeepActualRows` |
| Marine.DataFrame.CleanDedupLast | marine.py:11-28 | corrected order: running it on the frame leaves exactly the frame `CleanedDedupLast` gives for the old state, or reports the error `CleanedDedupLast` gives |
| DedupOrder.SnakeCaseIsNormal | marine.py:11 | a header of lower-case letters and underscores is left unchanged by line 11 |
| DedupOrder.SnakeCaseNamesAreNormal | marine.py:11 | a header list of such headers is left unchanged by line 11 |
| DedupOrder.SnakeCaseTextIsNormal | marine.py:25 | such text is left unchanged by line 25 |
| DedupOrder.RequiredColumnsNormal | marine.py:11 | the headers the section looks up are unchanged by line 11 |
| DedupOrder.RequiredColumnsDistinct | marine.py:14-28 | the headers the section looks up are pairwise distinct |
| DedupOrder.RequiredLookups | marine.py:14-28 | under exactly those headers, every lookup finds its own position |
| DedupOrder.RequiredColumnsInOrder | marine.py:14-28 | those headers satisfy `InRequiredOrder` |
| DedupOrder.ActualIsNormal | marine.py:25 | the text "actual" is unchanged by line 25 |
| DedupOrder.NormalizedPair | marine.py:24-25 | two rows whose named cells normalise to those of a row `n`, and whose other cells equal those of `n`, both become `n` |
| DedupOrder.OrderedNormalizedPair | marine.py:24-25 | the same under headers in the required order |
| DedupOrder.PairComplete | marine.py:14-18 | two rows whose year and value parse both survive coercion and `dropna`, with those cells parsed |
| DedupOrder.DistinctPairUnique | marine.py:21 | `drop_duplicates` keeps both of two different rows |
| DedupOrder.VariantsNormalize | marine.py:24-25 | two rows that agree in year and value and whose categorical cells normalise alike become two copies of one row |
| DedupOrder.VariantStages | marine.py:14-25 | case variants both survive lines 14-21 when their categories differ, and lines 24-25 turn them into two copies of one row of magnitude "actual" |
| DedupOrder.AllActual | marine.py:28 | a frame whose rows all have magnitude "actual" is kept whole by line 28 |
| DedupOrder.OneActual | marine.py:21-28 | deduplication then the magnitude filter leave one copy of a doubled row of magnitude "actual" |
| DedupOrder.CleanedKeepsCaseVariants | marine.py:21-25 | as written: two loaded rows that differ only in their category, whose stripped texts are the same up to case (`CaseVariants`), end as two equal rows of the cleaned frame, which is therefore not duplicate-free |
| DedupOrder.CleanedDedupLastRenamedIsClean | marine.py:14-28 | with `drop_duplicates` after the normalisation, lines 14-28 leave no two equal rows, and every row is clean |
| DedupOrder.CleanedDedupLastIsClean | marine.py:11-28 | with `drop_duplicates` after the normalisation, the cleaned frame has no two equal rows, and every row is clean |
| DedupOrder.CleanedDedupLastCollapsesCaseVariants | marine.py:21-25 | with `drop_duplicates` after the normalisation, the same two rows leave a single row |
| DedupOrder.SurveyRowsAreVariants | marine.py:21-25 | two survey rows whose category texts are the same up to case once stripped are case variants |
| DedupOrder.FishingRowsAreVariants | marine.py:25 | the survey rows with categories "Fishing " and "fishing" differ, and yet they differ only in what line 25 normalises away |
| DedupOrder.FishingExample | marine.py:21-25 | on the two-row survey frame, the section as written succeeds with a repeated row, while the corrected order leaves one row |

## Left out

- Loading the CSV file (line 6) is input. The model starts from a frame of headers and rows already in memory (`DataFrame.constructor`).
- Printing `head`, `info` and `describe` (lines 31-38) is output only. The statistics of `describe` are floating-point computations.
- All plotting (lines 43-74) is foreign library calls. Only the key set of the pivot at line 67 is modelled (`Table.Groups`). The means it computes are floating-point arithmetic.
- The number grammar of `pd.to_numeric` is a parameter. Apart from the survey example (`DedupOrder.FishingExample`), which assumes that "2010" and "5" parse, no property depends on which strings parse.
- Numbers are `real`. pandas' `int64`/`float64` widths, rounding and infinities are not represented.
- Text handling is ASCII only. Python's Unicode whitespace and Unicode case mapping are not modelled.
- Table.NormalizeCell: leaves a number or NaN cell unchanged. `astype(str)` would first turn it into its text form ("nan", "5.0"). The model treats the categorical columns as text as loaded.
- Marine.DataFrame.NormalizeCategories, Marine.DataFrame.DropIncompleteRows, Marine.DataFrame.DropUnusableRows, Marine.DataFrame.KeepActualRows, Marine.DataFrame.Clean, Marine.DataFrame.DedupActualRows, Marine.DataFrame.CleanDedupLast: after a failed lookup only the error is stated, not the rows. The script stops with `KeyError` there, and nothing reads the frame afterwards.
- Table.Locate: a header list with a repeated name makes every lookup of that name fail. pandas raises at different points for the different operations; only the fact of failure and the name are kept.
- The index pandas keeps with each row is not modelled. Rows are renumbered from zero, as `reset_index(drop=True)` at line 28 does.

## Findings

| source | as written | input that shows it | evidently intended | confidence | as-written member | corrected member |
|---|---|---|---|---|---|---|
| marine.py:21-25 | `drop_duplicates` (line 21) runs before the categorical columns are stripped and lower-cased (lines 24-25), so rows that become equal only after normalisation both stay | two rows identical except for category "Fishing " and "fishing" (the frame `DedupOrder.FishingFrame`) | the comment "Remove duplicate rows" suggests a final table without duplicates, which needs deduplication after normalisation | medium, not executed | DedupOrder.CleanedKeepsCaseVariants, DedupOrder.FishingExample | Marine.CleanedDedupLast, DedupOrder.CleanedDedupLastIsClean, Marine.DataFrame.CleanDedupLast |
