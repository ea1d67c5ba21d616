# Table merge engine — a Dafny model

This project models the engine of a browser tool that compares two spreadsheets side by side. All of it lives in `src/App.tsx`. The modelled steps are:

- **Header detection.** Within the first 50 rows of a sheet, the header is the earliest row with the most cells that are strings containing an ASCII letter.
- **Column naming.** Header cells are stringified and trimmed. A repeated text gets an occurrence suffix: `X`, `X-2`, `X-3`.
- **Outline extraction.** Each worksheet `<row>` element carries a row number, an outline level and a hidden flag. These become a map from header-relative row number to group information.
- **Base rows.** Each merged row starts with `Level_1..Level_K` columns and a `LevelValue` column (`..1`, `...2`, …) taken from the first file's outline.
- **Merging.** This runs a positional pass over `max(|Left|, |Right|)` positions, with key lookups:
  - a Left row is always emitted and is filled from the Right row with the same key;
  - a Right row is emitted on its own only when its key is absent from Left.

  Selected fields become `Left.<field>` and `Right.<field>` columns. `Level_*` and `LevelValue` fields keep their names.
- **Headers.** The headers are `Level_1..Level_K`, then `LevelValue`, then the selected fields in file order.
- **Range expansion.** In up to two chosen columns, a cell like `R1-R3, C5` becomes `R1,R2,R3,C5`. Descending ranges also expand, and the original prefix is kept.
- **Difference filter.** A merged row is kept only if some `Left.f` column of the selection order differs from its `Right.f` column after trimming.
- **Export projection.** Each exported row gets `Compare_Left.f` and `Compare_Right.f` copies for every paired non-key field. The sheet's columns are the selection order followed by those copies.
- **Selection order.** The list of prefixed selected columns is recomputed whenever the selection changes.

The modules follow the pipeline:

- `Text` covers string helpers and JavaScript's `trim`, `split` and `join`.
- `Cells` covers cell values and rows.
- `HeaderDetection`, `ColumnNaming`, `Outline`, `Hierarchy`, `RangeExpansion`, `Alignment`, `Merge` and `Export` each model one step.

A cell is `Str`, `Num` (an integer), `Bool` or `Empty`. `Empty` is JavaScript's `undefined`, the value read for a column a row does not have. A row is a `map<string, Cell>`.

The header row is sparse: a missing header cell is a hole (`None`). `map` skips holes, so a hole gets no name and is not counted. Every later loop over a file's field list skips holes too, so the field lists of the merge state hold only the present names.

The component state that the merge and export actions read is a `Session` value. Each action returns what the component would store as a `Result`. An `alert` or a crash of the source becomes an error value.

The loops of the source are methods. Each method is proved equal to a specification function, and the properties are lemmas about those functions.

Where the documented behaviour of the tool and its code disagree, the model follows the code:

- **Output length.** The output can be shorter than `max(|Left|, |Right|)`. The difference filter drops rows. A Right row whose key appears anywhere in Left is never emitted, even when it has no positional partner. `Alignment.KnownRightKeysAddNothing` and `Merge.MergeOutcomeProperties` state the real bound.
- **Unique names.** Column names are not always unique. A header `X, X, X-2` yields `X, X-2, X-2` (`ColumnNaming.SuffixMayCollide`). Names are unique only among repeats of one text (`ColumnNaming.RepeatsGetDistinctNames`).
- **Pairing.** Left and Right columns are paired only by identical field names (`Left.f` with `Right.f`). The code has no mapping table.
- **Hierarchy lookup.** `createBaseRow` is called with the number of rows emitted so far, not with the source row's index. After a Right-only row, the hierarchy cells of later rows come from the outline entry and the Left row at that output position. `Hierarchy.BaseRow` and `Alignment.RowFor` follow this.
- **Outline presence.** When the first file has an outline, the header gets `K = max level + 1` level columns. An empty outline gives no level columns. With no outline, the header still has one `Level_1` column, but the base rows are empty.

## Model

| member | source | states |
|---|---|---|
| HeaderDetection.Score | src/App.tsx:128-131 | the significant-cell count is at most the row length, and zero exactly when no cell is a string with an ASCII letter |
| HeaderDetection.WindowSize | src/App.tsx:121-124 | only the first 50 rows, or fewer if the sheet is shorter, are examined |
| HeaderDetection.DetectHeader | src/App.tsx:133-142 | the returned index is the earliest row in the window with a strictly maximal significant-cell count (0 when every score is 0), and it is below 50 |
| HeaderDetection.HeaderIndexUnique | src/App.tsx:133-142 | the header index is uniquely determined by the grid |
| HeaderDetection.NoTextMeansRowZero | src/App.tsx:133-142 | if no row of the window has a significant cell, the header is row 0 |
| HeaderDetection.RowsBelowWindowIgnored | src/App.tsx:121-124 | appending rows below a full 50-row window never changes which row is the header |
| ColumnNaming.HeaderTexts | src/App.tsx:144-145 | each present header cell becomes its trimmed string (`""` for an empty string, 0, false or undefined); a hole stays a hole |
| ColumnNaming.NameColumns | src/App.tsx:144-156 | the names of a header row are its texts, the k-th repeat (k ≥ 2) of a text X becoming "X-k"; holes get no name and are not counted |
| ColumnNaming.NameTexts | src/App.tsx:146-156 | the counting loop gives each text its occurrence number among the texts seen so far |
| ColumnNaming.FirstOccurrenceUnchanged | src/App.tsx:151-153 | the first occurrence of a text keeps the text unchanged |
| ColumnNaming.RepeatsGetDistinctNames | src/App.tsx:147-155 | two occurrences of the same text always get different names |
| ColumnNaming.HolesUnnamed | src/App.tsx:145-147 | a column gets a name exactly when its header cell is present |
| ColumnNaming.HoleNotCounted | src/App.tsx:145-156 | inserting a hole leaves every other column's name as it was, and the hole gets no name |
| ColumnNaming.DistinctTextsUnchanged | src/App.tsx:146-156 | when all present header texts differ, the names are exactly the texts, holes included |
| ColumnNaming.SuffixMayCollide | src/App.tsx:146-156 | for every X, texts X, X, X-2 yield names X, X-2, X-2, so names need not be unique |
| ColumnNaming.DisambiguatedInjective | src/App.tsx:148-150 | different occurrence counts of one text yield different names |
| Outline.ExtractGroupingInfo | src/App.tsx:214-235 | the loop over the row elements builds exactly the grouping map of the whole row list |
| Outline.ExtractedGrouping | src/App.tsx:214-235 | a key k is in the map exactly when some row has number k + headerOffset (rows at or above the offset are skipped); its entry comes from the last such row, with the outline level (0 when absent), the group [k] and the hidden flag "1" |
| Outline.GroupingUpToMeans | src/App.tsx:217-232 | after any prefix of the rows, the map holds exactly the entries for that prefix, later rows overwriting earlier ones |
| Outline.GroupingKeysPositive | src/App.tsx:219-225 | every key of the grouping map is at least 1 |
| Outline.MaxLevelOver | src/App.tsx:282-284 | the maximum outline level over a non-empty key set bounds every level and is attained |
| Outline.ComputeLevelCount | src/App.tsx:282-284 | the number of level columns is max level + 1 (0 for an empty outline), and every non-negative level is below it |
| Hierarchy.LevelHeaderInjective | src/App.tsx:284 | different level numbers give different `Level_j` column names |
| Hierarchy.LevelBlanksHas | src/App.tsx:287-289 | every `Level_j` column with 1 ≤ j ≤ K starts blank |
| Hierarchy.LevelBlanksOnly | src/App.tsx:287-289 | the blank row holds no other column |
| Hierarchy.BlankLevels | src/App.tsx:287-289 | the loop builds exactly the blank `Level_1..Level_K` row |
| Hierarchy.CreateBaseRow | src/App.tsx:277-314 | the base row for output position p is the specified hierarchy row |
| Hierarchy.BaseRowColumns | src/App.tsx:277-314 | a base row is empty without an outline; otherwise its only columns are `Level_1..Level_K` and `LevelValue` |
| Hierarchy.BaseRowLevels | src/App.tsx:287-300 | column `Level_j` holds the number j when the outline entry p+2 has level j-1, and is blank otherwise |
| Hierarchy.BaseRowLevelValue | src/App.tsx:292-310 | `LevelValue` is level+2 dots then level+1 when the outline entry p+2 exists with a non-negative level; without an entry it is "..1" exactly when Left row p has a non-blank key; otherwise it is absent |
| Alignment.ColumnForInjective | src/App.tsx:356-362 | on one side, different fields give different columns |
| Alignment.SidesShareOnlyLevelFields | src/App.tsx:358-372 | a Left column equals a Right column only for the same `Level_*`/`LevelValue` field |
| Alignment.PrefixedNotLevel | src/App.tsx:361 | a `Left.`/`Right.` column is never mistaken for a hierarchy field |
| Alignment.KeyIndexKeys | src/App.tsx:336-337 | a key is in a table's lookup map exactly when some row of the table has that key value |
| Alignment.KeyIndexLast | src/App.tsx:336-337 | the row stored under a key is the last row with that key |
| Alignment.CopyFields | src/App.tsx:356-375 | copying one side's selected fields into a row gives the specified overlay |
| Alignment.OverlaySets | src/App.tsx:356-375 | every selected field of the side is written with the source value, or "" when there is no source row |
| Alignment.OverlayKeepsOthers | src/App.tsx:356-375 | columns not written by the side are left as they were |
| Alignment.OverlayColumns | src/App.tsx:356-375 | an overlay adds no column other than the side's selected fields |
| Alignment.MergeRows | src/App.tsx:343-407 | the positional loop emits one row per entry of the merge plan, in order, each built from its origin and its output position |
| Alignment.PlanMembers | src/App.tsx:346-406 | the plan contains every Left row and exactly the Right rows whose key is absent from Left |
| Alignment.PlanSorted | src/App.tsx:346-406 | plan entries are ordered by position, the Left row of a position before its Right-only row |
| Alignment.RightOnlyFollowsLeft | src/App.tsx:350-406 | when position i has both a Left row and a Right-only row, the Right-only row is emitted right after the Left row |
| Alignment.PlanLength | src/App.tsx:340-406 | the output has \|Left\| rows plus one per Right row whose key is absent from Left |
| Alignment.KnownRightKeysAddNothing | src/App.tsx:380 | when every Right key occurs in Left, the output has exactly \|Left\| rows, however long Right is |
| Alignment.LeftRowOwnFields | src/App.tsx:356-364 | a row from Left i has each selected non-hierarchy Left field f as `Left.f` with Left i's value |
| Alignment.LeftRowMatchedFields | src/App.tsx:367-375 | a row from Left i carries each selected Right field from the Right row with the same key, or "" when there is none |
| Alignment.RightOnlyRowFields | src/App.tsx:380-403 | a Right-only row has "" in every selected Left column (a selected Left `Level_*`/`LevelValue` field only when the Right side does not select the same field, which then overwrites it) and Right j's value in every selected Right column |
| Alignment.RowColumns | src/App.tsx:343-407 | every column of a merged row is a hierarchy column or a selected field's column |
| Alignment.HierarchyKept | src/App.tsx:351-381 | columns the fields do not overwrite keep the base row's value |
| Merge.SelectedOrderMembers | src/App.tsx:54-72 | the selection order holds exactly the prefixed selected fields of each file (`Left.` for the first, `Right.` for the others) |
| Merge.PrefixedMembers | src/App.tsx:62-67 | prefixing maps every selected field, and only those, to its column |
| Merge.LeftEntriesFromFirstFile | src/App.tsx:54-72 | every `Left.` entry of the selection order is `Left.f` for a field f selected in the first file |
| Merge.ColumnStartsLeft | src/App.tsx:62-67 | a column starts with `Left.` exactly when it comes from the first file and is not a hierarchy field |
| Merge.ChosenMembers | src/App.tsx:417 | a file's header fields are exactly its fields that are also selected |
| Merge.AssembleHeaders | src/App.tsx:410-427 | the headers are K level columns (K from the first file's outline, 1 without one), then `LevelValue`, then each file's selected fields, prefixed, in file order |
| Merge.DataHeadersHas | src/App.tsx:416-425 | every selected field of every file has its column among the headers |
| Merge.RowsFollowPlan | src/App.tsx:343-407 | the rows produced by the loop are the merged rows |
| Merge.RowKeysInHeaders | src/App.tsx:343-427 | every column of every merged row appears in the headers |
| Merge.ExpandCell | src/App.tsx:432-443 | expanding one column rewrites that cell only when it is a string containing '-' |
| Merge.ProcessRanges | src/App.tsx:430-446 | the post-process applies the first then the second column's expansion to every row, and does nothing when neither column is chosen |
| Merge.ExpandColumnEffect | src/App.tsx:432-443 | expansion changes no row's column set, and no cell other than the chosen one, which becomes the expanded string |
| Merge.ExpandColumnIdempotent | src/App.tsx:432-443 | expanding a column twice is the same as once |
| Merge.ExpandStable | src/App.tsx:432-443 | a cell already in expanded form is left unchanged |
| Merge.ChangedMeans | src/App.tsx:449-458 | a row is kept exactly when some `Left.` column of the selection order has a trimmed value different from its `Right.` counterpart (missing values count as "") |
| Merge.FilterMembers | src/App.tsx:449-459 | the filtered rows are exactly the input rows that changed |
| Merge.FilterConcat | src/App.tsx:449-459 | filtering distributes over concatenation, so row order is kept |
| Merge.FilterShorter | src/App.tsx:449-459 | filtering never adds rows |
| Merge.FilterIdempotent | src/App.tsx:449-459 | filtering a filtered list changes nothing |
| Merge.NoLeftColumnsNoRows | src/App.tsx:449-459 | with no `Left.` column selected, the filter drops every row |
| Merge.MergeTables | src/App.tsx:316-464 | the action fails, or returns preview and headers, exactly as specified by the merge outcome |
| Merge.MergeOutcomeProperties | src/App.tsx:316-464 | the merge succeeds exactly when there are two tables, a key field, and complete field state; then the preview has at most \|Left\| + (Right-only rows) rows, every row differs somewhere, and every column of a row is a header |
| RangeExpansion.LetterRun | src/App.tsx:569-570 | the prefix match stops at the first non-letter |
| RangeExpansion.ParseRefPrinted | src/App.tsx:569-577 | parsing a printed reference (letters then a number) gives back its prefix and number |
| RangeExpansion.LetterRunOfPrefix | src/App.tsx:569-570 | the letter prefix of letters followed by a digit is exactly those letters |
| RangeExpansion.ExpandRanges | src/App.tsx:560-601 | the loop computes the specified expansion of the cell text |
| RangeExpansion.PushPart | src/App.tsx:564-597 | processing one comma-separated part appends exactly that part's expansion |
| RangeExpansion.PushAscending | src/App.tsx:580-583 | an ascending range appends prefix+start … prefix+end |
| RangeExpansion.PushDescending | src/App.tsx:584-587 | a descending range appends prefix+start down to prefix+end |
| RangeExpansion.EnumerateSteps | src/App.tsx:579-588 | a range from a to b has \|b-a\|+1 entries, the k-th being the prefix followed by a±k |
| RangeExpansion.RangeExpands | src/App.tsx:565-588 | `Pa-Pb` with a letter prefix P expands to P+a … P+b, and text after a second '-' is ignored |
| RangeExpansion.ExpandTrimmedRange | src/App.tsx:566-588 | when both sides of a part parse with the same prefix, the part becomes their enumeration |
| RangeExpansion.NoRangeOnlyTrims | src/App.tsx:565-596 | without a '-', every part is only trimmed |
| RangeExpansion.TokensWithoutRange | src/App.tsx:564-597 | parts without '-' are each kept trimmed |
| RangeExpansion.TrimmedWithoutRangeUnchanged | src/App.tsx:560-601 | a text without '-' whose parts are already trimmed is returned unchanged |
| RangeExpansion.ExpandedTokens | src/App.tsx:599 | splitting the result at commas gives back the expanded tokens, since no token contains a comma |
| RangeExpansion.ExpandedIdempotent | src/App.tsx:560-601 | expanding an expanded text changes nothing |
| RangeExpansion.TokenStable | src/App.tsx:560-601 | each token produced expands to itself |
| Export.KeyFieldPairs | src/App.tsx:477-480 | each key field becomes `Left.` + key for the first file's name and `Right.` + key for any other |
| Export.ComparePairs | src/App.tsx:483-491 | the loop collects the specified list of compare pairs in selection order |
| Export.PairsMembers | src/App.tsx:483-491 | a pair is collected exactly when its left is a `Left.` column of the order that is not a key column, and its right is the matching `Right.` column, also in the order |
| Export.PairsConcat | src/App.tsx:483-491 | pairs are collected in order: the pairs of a concatenation are the concatenated pairs |
| Export.CompareHeadersAt | src/App.tsx:507-509 | the compare headers are two per pair, `Compare_` + left then `Compare_` + right |
| Export.CompareHeadersFrom | src/App.tsx:507-509 | every compare header is `Compare_` followed by a column of some pair |
| Export.WidenRow | src/App.tsx:494-503 | the widened row is the specified copy of the row |
| Export.WidenedAt | src/App.tsx:494-503 | a widened row keeps every original cell and sets each `Compare_c` column to the row's value of c |
| Export.WidenRows | src/App.tsx:494-504 | every preview row is widened, in order |
| Export.DownloadMergedFile | src/App.tsx:467-518 | the export fails or yields a sheet exactly as specified by the export outcome |
| Export.ExportCells | src/App.tsx:494-518 | in sheet row i, a column whose header recurs further right is blank, since the writer fills only the last column with a given key. A selected column named like a compare column is blank too. Every other selected column shows preview row i's value, and each compare pair's two columns show the row's Left and Right value |
| Export.OrderCell | src/App.tsx:511-518 | a selected column shows the preview row's own cell unless its header recurs further right; it is blank when a compare column takes over its name |
| Export.CompareHeaderCells | src/App.tsx:494-518 | unless its header recurs further right, each of pair k's two cells holds the row's Left or Right value of that pair |
| Export.ExportOutcomeProperties | src/App.tsx:467-491 | the export succeeds exactly when the preview is non-empty and there is a first file (or no key field); no key column is ever paired |
| Text.TrimIdempotent | src/App.tsx:146 | trimming twice is trimming once |
| Text.JoinSplit | src/App.tsx:561 | joining the pieces of a split at a separator gives back the text |
| Text.SplitJoin | src/App.tsx:599 | splitting a join of separator-free pieces gives back the pieces |
| Text.NatToStringInjective | src/App.tsx:295 | different numbers print differently |

## Left out

- HeaderDetection.WindowSize: the cell grid is taken to start at sheet row 1. When a sheet's used range starts lower, the source stops its scan at absolute row 50 (`Math.min(range.e.r, 49)`), which is fewer than 50 grid rows. It also reuses the grid-relative header index as an absolute row for the data range and the outline offset, so "key 1 is the row below the header" no longer holds. The model has no range start row.
- **React state and hooks.** The component state is passed in as a `Session` value, and each action returns what it would store. The shared `saveMergedData`/`clearData` context and the logging effect are not modelled.
- **File reading.** FileReader, XLSX workbook parsing, JSZip and the worksheet XML parser are not modelled. The cell grid and the parsed `<row>` attributes are inputs. So are the sheet's data rows, which the model takes as rows keyed by the detected names.
- **Styling and saving.** ExcelJS column widths, fills, borders and the `saveAs` download are not modelled. The export ends with the sheet's headers and rows.
- **User interface.** Alerts and console logging are modelled only as error values. Field, key, sheet and column-selection toggles, the rendered tables, and the documentation and navigation components are not modelled.
- RangeExpansion.ParseRef: reads a designator's number exactly, as an unbounded natural number. The source's `parseInt` yields a double, which is exact only below 2^53. Above that the source rounds the number, and `i++` can stop advancing, so a range like `R9007199254740992-R9007199254740993` never ends there. From 10^21 upward the source also prints `${prefix}${i}` in exponent form (`R1e+21`). The model agrees with the source whenever both designator numbers of a range are below 2^53.
- RangeExpansion.ExpandRanges: inherits the `ParseRef` gap. For designator numbers of 2^53 or more it returns the exact enumeration, always terminates, and prints plain decimals, where the source rounds, may loop forever, or prints exponents.
- **Number format.** Cell numbers are integers. Floating point, `NaN` from `parseInt` of a malformed attribute, and number-to-string formatting beyond integers are not modelled.
- **Object-property quirks.** JavaScript objects used as maps are modelled as Dafny maps. Prototype properties such as `toString` are not modelled.
- Export.KeyFieldPairs: returns a set, not the list in `Object.entries` order, because the source only asks whether a column is among them.
- **Null preview.** A null preview state is treated like an empty one; both give the "no data" error.
- **Crashes.** When `mergeTables` would throw because `files`, `fields` or `selectedFields` entries are missing, the model returns the `StateMissing` error up front. In that case the source likewise stores nothing.
- **Hidden and parent attributes.** The outline's `hidden` flag is kept but used nowhere downstream. The optional `parent` attribute is never set by the source.
