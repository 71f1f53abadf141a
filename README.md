# Music-streaming listener analysis: the table-cleaning and feature pipeline

The analysis script loads one table of music-streaming listeners, cleans it, derives a few
columns and then prints statistics and draws charts. This project models the deterministic
table work in Dafny and proves what it guarantees. The printing and plotting are not modelled.

- **Column-name cleaning** (`ColumnNames`): a regex deletes every character that is neither a
  word character nor whitespace. A second replacement then turns each space, and only the
  space, into `_`.
- **Imputation** (`Imputation`, `Modes`): each numeric column is filled with its median, and
  each object (string) column with `mode()[0]`. `mode()[0]` is the most frequent present
  string; among ties it is the first in sorted order. A string column with no present value has
  no mode, and the loop stops there with an error. The object columns before it stay filled.
  The median is a parameter (a function of the column). `None` stands for the NaN median of an
  all-missing column, and filling with NaN changes nothing.
- **De-duplication** (`Dedup`): `drop_duplicates` keeps the first of each group of equal rows.
  It compares whole rows, and two missing cells count as equal.
- **Derived columns** (`Features`): `High_Engagement` is `Discover_Weekly_Engagement_ > 70` and
  `Heavy_Liker` is `Number_of_Songs_Liked > 50`. Both comparisons are strict, a missing
  value compares false and a boolean compares as 0 or 1. A categorical column, or a string
  column with a present value, cannot be compared and raises `TypeError`; a string column
  whose cells are all missing gives all false. `Age_Group` is `pd.cut` over the right-closed
  intervals (10,18], (18,25], (25,35], (35,50] and (50,65]; a boolean age is binned as 0 or 1,
  and a string or categorical one raises `TypeError`. Ages outside (10,65] get no group; in particular an age
  above 65 gets none, although the last label reads "Senior (51+)". The script assigns
  `Age_Group` twice (lines 62 and 129), and the second assignment reproduces the first.
- **Top-5-country filter** (`Countries`): `value_counts().nlargest(5)` picks the five most
  frequent present countries, and `isin` keeps exactly the rows whose country is among them,
  in their original order.
- **The frame** (`Frames.Frame`): a class whose fields (column names, column kinds, rows) the
  methods update in place, as the script does to `df`. Each method is specified by the pure
  function in the modules above. `Script.Run` runs the steps in the script's order and is proved equal to `Script.Pipeline`,
  the same steps composed as functions.

A table (`Tables.Table`) is a sequence of rows. Each cell is an `Option<Value>`, where `None`
is a missing value. Numbers are exact reals.

The script creates four distinct new columns: `High_Engagement`, `Stream_Minutes_Normalized`,
`Heavy_Liker` and `Age_Group`. `Age_Group` is assigned twice.

## Model

| member | source | states |
|---|---|---|
| `ColumnNames.IsWordChar` | datasetAnalysis.py.py:10 | the regex class `\w`, taken as ASCII: letters, digits and `_` |
| `ColumnNames.IsSpaceChar` | datasetAnalysis.py.py:10 | the regex class `\s`, taken as ASCII: space, tab, newline, vertical tab, form feed and carriage return |
| `ColumnNames.Kept` | datasetAnalysis.py.py:10 | the characters `[^\w\s]` does not delete: word or whitespace characters |
| `ColumnNames.RemovePunctuation` | datasetAnalysis.py.py:10 | the result holds only word and whitespace characters and is no longer than the input |
| `ColumnNames.ReplaceSpaces` | datasetAnalysis.py.py:10 | same length; each space becomes `_`, every other character stays |
| `ColumnNames.CleanName` | datasetAnalysis.py.py:10 | the cleaned name has no space and no character outside word/whitespace |
| `ColumnNames.CleanNames` | datasetAnalysis.py.py:10 | every column name is cleaned, position by position |
| `ColumnNames.CleanNameFixedPoints` | datasetAnalysis.py.py:10 | a name is unchanged by cleaning iff it holds only word and non-space whitespace characters |
| `ColumnNames.CleanNameIdempotent` | datasetAnalysis.py.py:10 | cleaning twice equals cleaning once |
| `ColumnNames.CleanNameKeepsWordChars` | datasetAnalysis.py.py:10 | the word characters of the original are a subsequence of the cleaned name |
| `Imputation.FillColumn` | datasetAnalysis.py.py:31 | `fillna` puts the fill value in exactly the missing cells of the column; present cells and other columns are unchanged |
| `Imputation.NumFill` | datasetAnalysis.py.py:31 | the median fill is present iff the median is a number, and fits a numeric column |
| `Imputation.ImputedNumeric` | datasetAnalysis.py.py:29-31 | names and kinds unchanged; every cell is its original or, for a missing numeric cell, the column's median |
| `Imputation.ImputedNumericSpec` | datasetAnalysis.py.py:29-31 | present values and non-numeric columns are kept; a numeric column with a present value has no missing cell afterwards |
| `Modes.LexLess` | datasetAnalysis.py.py:36 | Python's string order by code point, which `mode()` sorts its result by before `[0]` takes the first |
| `Modes.LexLessTransitive` | datasetAnalysis.py.py:36 | the string order used to sort modes is transitive |
| `Modes.LexLessTotal` | datasetAnalysis.py.py:36 | any two different strings are ordered one way or the other |
| `Modes.BestOf` | datasetAnalysis.py.py:36 | the chosen candidate ranks before every other candidate (more frequent, or as frequent and sorting first) |
| `Modes.Mode` | datasetAnalysis.py.py:36 | no mode iff no values; otherwise a value of maximal frequency that sorts first among ties |
| `Modes.FirstModeUnique` | datasetAnalysis.py.py:36 | any value meeting that description is the one `Mode` returns |
| `Imputation.TextFill` | datasetAnalysis.py.py:36 | the object fill is present iff the column has a present string |
| `Imputation.ImputedObjectUpTo` | datasetAnalysis.py.py:34-36 | the object columns before position n are filled with their first mode; nothing else changes |
| `Imputation.ObjectFillStep` | datasetAnalysis.py.py:35-36 | one loop turn fills column n from its unchanged original cells |
| `Imputation.FirstEmptyObject` | datasetAnalysis.py.py:34-36 | finds the first object column without a present string, and no earlier one exists |
| `Imputation.EmptyObjectColumnAllMissing` | datasetAnalysis.py.py:36 | such a column has only missing cells |
| `Imputation.ImputeObject` | datasetAnalysis.py.py:34-36 | fails iff some object column has no present value; otherwise fills every object column |
| `Imputation.ImputeObjectSpec` | datasetAnalysis.py.py:34-40 | after success no object cell is missing, present cells are kept, and each filled cell is the column's first mode |
| `Dedup.Dedup` | datasetAnalysis.py.py:43 | the result has the same elements as the input, no two equal, and is no longer |
| `Dedup.FirstOccurrences` | datasetAnalysis.py.py:43 | increasing positions; i is listed iff `s[i]` does not occur before i |
| `Dedup.DedupKeepsFirstOccurrences` | datasetAnalysis.py.py:43 | de-duplication is exactly the first occurrences, in original order |
| `Dedup.DedupOfDistinct` | datasetAnalysis.py.py:43 | input without duplicates is unchanged |
| `Dedup.DedupIdempotent` | datasetAnalysis.py.py:43 | de-duplicating twice equals once |
| `Tables.ColumnIndex` | datasetAnalysis.py.py:49 | lookup by label: absent iff the name is absent, otherwise the first position holding it |
| `Tables.WithColumn` | datasetAnalysis.py.py:49 | `df[name] = values` replaces the existing column or appends one; the column then holds the values and every other column is unchanged |
| `Tables.AssignedOnlyKeeps` | datasetAnalysis.py.py:49-62 | after assigning one column, any other column looked up by its name is at the same position with the same kind and cells |
| `Tables.AssignedOnlyKeepsAt` | datasetAnalysis.py.py:49-62 | after assigning one column, every column of another name keeps its position, name, kind and cells |
| `Features.AsNumber` | datasetAnalysis.py.py:49 | a number compares as itself, a boolean as 0 or 1, and a string, label or missing cell as no number |
| `Features.Exceeds` | datasetAnalysis.py.py:49 | the `> threshold` comparison of one cell: false for a missing cell, a string or a label; for a number, whether it is strictly above; for a boolean, whether 0 or 1 is strictly above |
| `Features.Comparable` | datasetAnalysis.py.py:49 | when the comparison can be evaluated on a column: always for numbers and booleans, never for a categorical, and for an object column only when every cell is missing |
| `Features.AssignFlag` | datasetAnalysis.py.py:49 | KeyError iff the source column is missing; TypeError iff it is categorical, or an object column with a present cell; otherwise the target column is boolean and each row's flag says whether the value (a boolean as 0/1) is strictly above the threshold. For a numeric source that means present and above; an all-missing object column gives all false. The column list grows by the target only when it was absent, and every other column keeps its kind and cells |
| `Features.CutFrom` | datasetAnalysis.py.py:62 | the returned interval contains the value, and no earlier interval does |
| `Features.Cut` | datasetAnalysis.py.py:62 | `pd.cut` of one value: the returned interval (bins[k], bins[k+1]] contains the value and no earlier one does; no interval iff none contains it |
| `Features.CutExact` | datasetAnalysis.py.py:62 | with increasing edges, x falls in interval k iff `bins[k] < x <= bins[k+1]` |
| `Features.CutOutside` | datasetAnalysis.py.py:62 | no interval iff x is at most the first edge or above the last |
| `Features.CutMonotone` | datasetAnalysis.py.py:62 | a larger value never falls in an earlier interval |
| `Features.AgeBins` | datasetAnalysis.py.py:60 | the bin edges 10, 18, 25, 35, 50, 65 |
| `Features.AgeLabels` | datasetAnalysis.py.py:61 | the five labels, one per interval, in order |
| `Features.AgeBinsIncreasing` | datasetAnalysis.py.py:60-61 | the age edges increase and there is one label per interval |
| `Features.AgeGroup` | datasetAnalysis.py.py:60-62 | a group, when given, is one of the five labels |
| `Features.AgeGroupExact` | datasetAnalysis.py.py:60-62 | an age gets label k iff `AgeBins[k] < age <= AgeBins[k+1]` |
| `Features.AgeGroupOutside` | datasetAnalysis.py.py:60-62 | no group iff age <= 10 or age > 65 |
| `Features.AgeGroupMonotone` | datasetAnalysis.py.py:60-62 | an older age never gets an earlier label |
| `Features.AgeGroupCell` | datasetAnalysis.py.py:62 | the group cell fits a categorical column, and a cell with no number (missing, string or label) gets no group |
| `Features.Binnable` | datasetAnalysis.py.py:62 | the Age kinds `pd.cut` accepts, numbers and booleans; any other kind is the TypeError case |
| `Features.AssignAgeGroup` | datasetAnalysis.py.py:60-62 | KeyError iff Age is missing; TypeError iff Age holds strings or categories; otherwise each row's Age_Group is the group of its Age, a boolean being binned as 0/1. The column list grows by Age_Group only when it was absent, and every other column keeps its kind and cells |
| `Features.BooleanAgesUngrouped` | datasetAnalysis.py.py:62 | a boolean Age column, binned as 0 or 1, gives every row a missing group |
| `Features.AssignAgeGroupConsistent` | datasetAnalysis.py.py:60-62 | after the assignment, every row's group agrees with its age |
| `Features.ConsistentAgeGroupsFixed` | datasetAnalysis.py.py:127-129 | a table whose groups agree with its ages is unchanged by the assignment |
| `Features.AssignAgeGroupIdempotent` | datasetAnalysis.py.py:127-129 | the second assignment yields the same table as the first |
| `Tables.Present` | datasetAnalysis.py.py:206 | the present values of a column: each one as often as it occurs there, and nothing else |
| `Tables.PresentTexts` | datasetAnalysis.py.py:36 | the present strings of a column, the values `mode()` counts: every one of them and nothing else |
| `Tables.PresentTextsCounts` | datasetAnalysis.py.py:36 | each present string occurs among them as often as it occurs in the column |
| `Countries.MostFrequent` | datasetAnalysis.py.py:206 | a candidate of maximal frequency |
| `Countries.TopK` | datasetAnalysis.py.py:206 | k distinct candidates (all of them if fewer); none left out is more frequent than one chosen |
| `Countries.Top5` | datasetAnalysis.py.py:206 | at most 5 distinct present values; all of them if fewer than 5; each chosen one at least as frequent as each unchosen one |
| `Countries.IsIn` | datasetAnalysis.py.py:207 | `isin` on one cell: a present value in the selection; a missing cell is never selected |
| `Countries.MatchingRows` | datasetAnalysis.py.py:207 | increasing positions; i is listed iff row i's country is selected |
| `Countries.KeepRows` | datasetAnalysis.py.py:207 | every kept row is an input row with a selected country, and every such input row is kept |
| `Countries.KeepRowsInOrder` | datasetAnalysis.py.py:207 | the filter is exactly the matching rows in original order |
| `Countries.TopCountryRows` | datasetAnalysis.py.py:206-207 | KeyError iff there is no Country column; otherwise same columns and the rows of the top-5 countries |
| `Frames.Frame.constructor` | datasetAnalysis.py.py:7 | the frame holds the loaded table |
| `Frames.Frame.CleanColumnNames` | datasetAnalysis.py.py:10 | names replaced by their cleaned forms, kinds and rows unchanged |
| `Frames.Frame.FillNumeric` | datasetAnalysis.py.py:29-31 | the loop leaves the frame equal to `ImputedNumeric` of the old frame |
| `Frames.Frame.FillObject` | datasetAnalysis.py.py:34-36 | on success the frame equals `ImputeObject` of the old frame; on failure the columns before the first empty one are filled and the error names it |
| `Frames.Frame.DropDuplicates` | datasetAnalysis.py.py:43 | rows become `Dedup` of the old rows; names and kinds unchanged |
| `Frames.Frame.AddFlag` | datasetAnalysis.py.py:49 | the frame becomes `AssignFlag`'s result, or is unchanged with its error |
| `Frames.Frame.AddAgeGroup` | datasetAnalysis.py.py:62 | the frame becomes `AssignAgeGroup`'s result, or is unchanged with its error |
| `Script.ImputedNumericSettled` | datasetAnalysis.py.py:29-40 | with a median that is a number whenever the column holds one, every numeric column ends complete or all-missing |
| `Script.ImputeObjectSettles` | datasetAnalysis.py.py:34-40 | object imputation completes the object columns and keeps numeric ones settled |
| `Script.SubsetOfRowsSettled` | datasetAnalysis.py.py:43 | dropping rows keeps object columns complete and numeric columns settled |
| `Script.WithColumnSettled` | datasetAnalysis.py.py:49 | assigning a boolean or categorical column keeps both properties |
| `Script.AssignFlagSettled` | datasetAnalysis.py.py:57 | so does each flag assignment |
| `Script.AssignAgeGroupSettled` | datasetAnalysis.py.py:62 | so does the age-group assignment |
| `Script.Renamed` | datasetAnalysis.py.py:10 | the table with every name cleaned and its kinds and rows unchanged |
| `Script.Cleaned` | datasetAnalysis.py.py:10-43 | lines 10-43 as one function: cleaned names, numeric then object imputation, then de-duplication; at an object column without a mode, the table filled so far and the error; the table is valid |
| `Script.Derived` | datasetAnalysis.py.py:49-129 | the High_Engagement flag (> 70), the Heavy_Liker flag (> 50), then the age groups twice; at the first failing assignment, the table so far and its error; the table is valid |
| `Script.Pipeline` | datasetAnalysis.py.py:7-207 | `Cleaned`, then `Derived`, then the top-5-country rows, stopping at the first error; on success both tables are valid |
| `Script.DerivedSteps` | datasetAnalysis.py.py:49-129 | a successful derivation is the two flag assignments and one age-group assignment, as the second assignment changes nothing |
| `Script.DerivedEngagement` | datasetAnalysis.py.py:49 | after the derivation, High_Engagement is boolean and each row holds whether its input Discover_Weekly_Engagement_ exceeds 70 |
| `Script.DerivedHeavyLiker` | datasetAnalysis.py.py:57 | after the derivation, Heavy_Liker is boolean and each row holds whether its input Number_of_Songs_Liked exceeds 50 |
| `Script.DerivedAgeGroups` | datasetAnalysis.py.py:60-62 | after the derivation, Age_Group agrees with Age in every row and the input's names are a prefix of the result's |
| `Script.DerivedKeepsInput` | datasetAnalysis.py.py:49-129 | every input column not named High_Engagement, Heavy_Liker or Age_Group keeps its position, name, kind and cells |
| `Script.Clean` | datasetAnalysis.py.py:10-43 | the frame and error the method leaves are exactly `Cleaned` of the old frame; on success the names are cleaned, no object cell is missing, numeric columns are settled when the median is a number for every column holding one (`Imputation.MedianDefined`), and no two rows are equal |
| `Script.Derive` | datasetAnalysis.py.py:49-129 | the frame and error the method leaves are exactly `Derived` of the old frame; on success, complete object columns and settled numeric columns stay so |
| `Script.Run` | datasetAnalysis.py.py:7-207 | the result is exactly `Pipeline` of the loaded table; on success the final frame starts with the cleaned names, has both flags, no missing object cell and consistent age groups |

## Left out

- Reading the CSV file (lines 6-7) is file input. The model starts from the loaded table (`Frames.Frame.constructor`, `Script.Run`).
- All `print`, `head`, `info`, `describe` and `nunique` output (lines 17-26, 38-40, 65-75) is reporting only. The check at lines 38-40 is stated as `Script.ObjectComplete` and `Script.NumericSettled` instead.
- Every chart (lines 77-221, apart from the filter at 206-207) is rendering.
- The `Stream_Minutes_Normalized` column (lines 52-54) needs a floating-point mean and standard deviation. `Script.Derive` does not add it.
- Script.Run: errors raised by lines outside the model are not modelled, so `Run` can return `Ok` where the script stops. Line 53 raises KeyError without a `Minutes_Streamed_Per_Day` column, or TypeError when that column holds strings or categories. The chart code between lines 63 and 205 raises on missing columns.
- Imputation.ImputedNumeric: the median value itself is a parameter. The float averaging inside `median()` is not modelled; `Imputation.MedianDefined` states only that a column with a present number has a numeric median.
- The `select_dtypes` dtype inference (lines 29, 34) is replaced by a kind given for each column.
- ColumnNames.CleanName: `\w` and `\s` are the ASCII classes. Python also keeps non-ASCII letters and digits and a few more Unicode spaces, which the model deletes.
- Countries.Top5: the order among equally frequent countries in `value_counts().nlargest` is library-defined. The model takes the first-appearing one, and its contract states only facts that hold under any tie-break.
- Tables.ColumnIndex: duplicate column names, which cleaning can produce, are not modelled. A lookup uses the first column with the name, whereas pandas would return several columns.
- Features.AssignFlag: a cell of an object column is always a string here. pandas object columns that mix numbers with strings are not modelled.
- Features.AssignAgeGroup: an object or categorical Age column always raises TypeError. What pd.cut does with such a column whose cells are all missing is not modelled.
- Numbers are exact reals. Floating-point rounding is not modelled, and NaN appears only as a missing cell.
- The row index labels that `drop_duplicates` and the filter keep are not modelled.
