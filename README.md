# Ehyd groundwater pipeline: a verified Dafny model of its data core

`Ehyd/main.py` builds training data for a groundwater forecast from the
Austrian eHYD station exports. This project models the parts of that
script that decide what data a station ends up with:

- **Reading the station files** (`to_dataframe`, module `Werte`):
  - which files and lines are read;
  - how the two timestamp layouts (`Timestamps`) and the measured values (`Numbers`) are parsed;
  - which rows are skipped: gaps (`Lücke`), flagged values and malformed lines;
  - where the loop stops;
  - how each series is keyed by the station number;
  - how the station coordinates are matched.
- **Selecting stations** by a list of names (`filter_dataframes_by_points`, `KeyFilter`).
- **Nearest neighbours** (`find_nearest_coordinates` and `add_nearest_coordinates_column`, `Nearest`): the `k` nearest stations of another network, merged as a list column.
- **The SARIMA order grid search** of `fill_missing_values_with_sarima` (`GridSearch`). The AIC of each fit is an input.
- **Lag and rolling-mean features** (`add_lag_and_rolling_mean`, `Features`). These are added in place to a frame (`Frames.Frame`).
- **Zero padding** of a monthly frame onto a calendar (`zero_padding`, `Padding`).
- **Cutting the time axis** into input and target windows (`create_windows`, `Windows`).

Modelling choices:

- **Parameters instead of I/O.** The directory listing, file contents and station tables are values passed in. The global `filtered_gw_coordinates` and the table to merge into are parameters too.
- **Exceptions become results.** What the script does on an exception appears as an error value (`Result`), or as a skipped line or file.
- **A few places where code and docstrings disagree.** The model follows the code:
  - The docstring of `filter_dataframes_by_points` says `points_list` is the path of a CSV file. The code only tests `name in points_list`, and the script passes it a list of column names (line 199). The model takes a list of names.
  - The comment at line 706 gives 672 windows for 720 months, a window of 12 and a horizon of 26. The code yields 683; `Windows.ScriptWindowCount` proves this.

## Model

| member | source | states |
|---|---|---|
| Werte.ReadLine | Ehyd/main.py:93-120 | The loop body on one non-blank line takes exactly the branch `Classify` gives: it stops on a line with no `;`, skips a bad date, a flagged value or a bad number, keeps anything else |
| Werte.ParseDataLines | Ehyd/main.py:91-121 | The data loop collects `KeptRows(lines)`: the rows of kept lines, in order, up to the first line that cannot be split |
| Werte.ReadFile | Ehyd/main.py:71-124 | The series one file stores is `FileSeries` of it: none for a file that is not `.csv`, has no "Werte:" line, says "Invalid" there or keeps no row; otherwise its kept rows but the last |
| Werte.ToDataframe | Ehyd/main.py:66-136 | The dictionary is the one built by storing, file after file, each file's series under its key. The coordinates are the bare column-less frame exactly when no series was stored; otherwise they are the rows of the station table whose number is a digit-only key of that dictionary |
| Werte.WerteLine | Ehyd/main.py:78 | Gives the first line starting with "Werte:", or none exactly when no line does |
| Werte.StationKey | Ehyd/main.py:125 | The key is six characters long (fewer for short names) |
| Werte.StationKeyOf | Ehyd/main.py:125 | A file named `<prefix><six characters>.csv` is keyed by those six characters |
| Werte.Matching | Ehyd/main.py:130-131 | Each station row occurs in the result as often as in the table when its number is among the keys, never otherwise |
| Werte.MatchingAppend | Ehyd/main.py:131 | The filter keeps the table's row order: the matches of two stretches of rows are those of the first, then those of the second |
| Werte.MatchingOne | Ehyd/main.py:131 | A single row is kept exactly when its number is among the keys |
| Werte.BlankAndStopLines | Ehyd/main.py:93-120 | A line is skipped as blank exactly when it is all whitespace. It stops the loop exactly when it is not blank and holds no `;` |
| Werte.KeptRowsAppend | Ehyd/main.py:92-120 | The rows of two stretches read in turn are those of the first, then those of the second unless the first stopped the loop |
| Werte.StopIgnoresRest | Ehyd/main.py:119-120 | Nothing after a line that cannot be split is read |
| Werte.ClassifyOf | Ehyd/main.py:95-104 | A line whose first field holds a readable timestamp is decided by its second field alone |
| Werte.GapValue | Ehyd/main.py:106-118 | A value field that strips to `Lücke` is kept as NaN: the marker is rewritten before the keyword test |
| Werte.GapKeptAsNaN | Ehyd/main.py:95-118 | A line with a readable timestamp and a gap value gives a kept row with that date and NaN |
| Werte.FlaggedNeverKept | Ehyd/main.py:106-110 | A line whose value field holds `F` or `K` is never kept |
| Werte.DecimalCommaValue | Ehyd/main.py:106-118 | A value field that reads `digits,digits` once stripped is kept as the decimal number it denotes |
| Werte.FileWithWerte | Ehyd/main.py:71-124 | A `.csv` file is read from the line after its first "Werte:" line. It yields nothing when that line says "Invalid" or no row is kept. Otherwise it yields all kept rows but the last |
| Werte.NoWerteNoEntry | Ehyd/main.py:71-80 | A file that is not a `.csv` file, or has no "Werte:" line, yields no entry |
| Werte.EntriesKeys | Ehyd/main.py:122-127 | A key is in the dictionary exactly when some file produced a series under it |
| Werte.EntriesLastWriter | Ehyd/main.py:122-127 | A key holds the series of the last file that produced it |
| Timestamps.ParseLayout | Ehyd/main.py:99-102 | A layout only accepts a real calendar date in years 1 to 9999 |
| Timestamps.ParseStamp | Ehyd/main.py:98-104 | The fallback from the long layout to the short one only yields valid dates |
| Timestamps.ParseFormatStamp | Ehyd/main.py:98-104 | `dd.mm.yyyy hh:mm:ss` and `dd.mm.yyyy hh:mm` both parse back to their date |
| Timestamps.ParseDateClock | Ehyd/main.py:98-104 | A valid date, a blank and a time of either layout parse to that date |
| Timestamps.ClockShortOf | Ehyd/main.py:99-102 | A time without seconds fails the long layout and passes the short one |
| Timestamps.DatePartOf | Ehyd/main.py:99 | `%d.%m.%Y` and the blank read a formatted date back |
| Numbers.ParseDecimal | Ehyd/main.py:114 | `float("a.b")` of plain digit strings is `a + b / 10^len(b)` |
| Numbers.ParseNaN | Ehyd/main.py:106-114 | The text `NaN` that replaces a gap marker reads as NaN |
| Text.StripKeepsChar | Ehyd/main.py:106 | Stripping whitespace neither adds nor removes any character that is not whitespace |
| Text.Strip | Ehyd/main.py:93 | The stripped text starts and ends with non-whitespace, and is empty exactly when the text is all whitespace |
| Text.Split | Ehyd/main.py:95 | Splitting gives one field exactly when the separator is absent, and then that field is the whole text |
| Text.SplitAtFirst | Ehyd/main.py:95 | The first field ends at the first separator |
| Text.ReplaceAllKeepsChar | Ehyd/main.py:106 | Rewriting `Lücke` to `NaN` keeps every `F` and `K` and adds none |
| Text.ReplaceSingle | Ehyd/main.py:114 | Rewriting the one decimal comma gives the same text with a point |
| KeyFilter.FilterByPoints | Ehyd/main.py:175 | A station is kept exactly when it is in the dictionary and in the list, with its series unchanged |
| KeyFilter.FilterIdempotent | Ehyd/main.py:175 | Filtering twice by the same list changes nothing more |
| KeyFilter.FilterSubmap | Ehyd/main.py:175 | The result is a sub-dictionary |
| KeyFilter.FilterBySetOfPoints | Ehyd/main.py:175 | Only the set of names in the list matters |
| KeyFilter.FilterTwice | Ehyd/main.py:175 | Filtering by two lists in turn is filtering by their common names |
| KeyFilter.FilterAll | Ehyd/main.py:175 | Listing every station keeps the whole dictionary |
| Nearest.Insert | Ehyd/main.py:282 | Inserting a later row keeps the ranking strictly ordered by distance, then by position, and adds exactly that row |
| Nearest.Ranking | Ehyd/main.py:282 | The first `n` rows, each once, ordered by distance and, among equal distances, by position |
| Nearest.NearestRows | Ehyd/main.py:282 | `nsmallest(k)` gives `min(k, n)` rows in that order. Every row left out is farther than, or as far as and later than, every row taken |
| Nearest.FindNearest | Ehyd/main.py:277-283 | Gives `min(k, n)` rows: row `i` is the candidate at the `i`-th position that `nsmallest` picks from the distances |
| Nearest.NearestOrder | Ehyd/main.py:277-283 | The rows returned are sorted by distance, and none is farther than a row left out |
| Nearest.NearestTies | Ehyd/main.py:282 | Of two rows at equal distance, one taken and one left out, the taken one comes first |
| Nearest.NeighbourLists | Ehyd/main.py:294-300 | One result per station of interest, in order: its number and the numbers of its nearest candidates |
| Nearest.AddNearestCoordinatesColumn | Ehyd/main.py:288-319 | `TypeError` when there are stations of interest but the candidates are the column-less frame. `KeyError` without stations of interest, or without `hzbnr01` in the table. `ValueError` when the new column is itself named `hzbnr01` and the table has rows: the list column then takes the key's place and pandas refuses to merge an integer key with it. Otherwise the inner merge of the table with the neighbour lists (no rows for a table without rows) |
| Nearest.MatchesOfMembers | Ehyd/main.py:311 | A left row's merged rows are exactly its joins with the results of its number |
| Nearest.InnerMergeMembers | Ehyd/main.py:311 | A merged row is exactly the join of some left row with some result of the same number |
| Nearest.MatchesOfUnique | Ehyd/main.py:311 | A left row whose number has one result gets exactly one merged row |
| Nearest.MatchesOfNone | Ehyd/main.py:311 | A left row whose number has no result is dropped |
| Nearest.InnerMergeOneEach | Ehyd/main.py:311 | When each left row's number has exactly one result, the merge keeps the left rows in order and adds each its own list |
| Nearest.JoinedKeepsLists | Ehyd/main.py:311 | Merging never loses an earlier list column: a clashing name moves to the `_x` suffix |
| GridSearch.SeasonalOrders | Ehyd/main.py:445 | One seasonal order per order triple |
| GridSearch.GridAt | Ehyd/main.py:452-453 | Pass `j` of the inner loop within pass `i` of the outer loop tries order `i` with seasonal order `j` |
| GridSearch.BestUpTo | Ehyd/main.py:447-466 | The running best is the first position of the smallest AIC so far, or none exactly when every fit so far failed |
| GridSearch.SearchOrders | Ehyd/main.py:441-466 | The nested loops end with the pair `Best` picks |
| GridSearch.SearchStep | Ehyd/main.py:461-464 | A pair replaces the running best exactly when its AIC is strictly smaller |
| GridSearch.FirstMinimumUnique | Ehyd/main.py:461-464 | Only one position is the first of the smallest AICs |
| GridSearch.BestIsFirstMinimum | Ehyd/main.py:461-464 | The search settles on a position exactly when it is the first of the smallest AICs |
| GridSearch.BestFitsBest | Ehyd/main.py:447-471 | The chosen pair fits at least as well as every pair that could be fitted, and strictly better than those tried before it |
| GridSearch.NoBestWhenAllFail | Ehyd/main.py:447-471 | No pair is chosen exactly when every fit fails |
| GridSearch.OrdersInProductOrder | Ehyd/main.py:443-444 | `itertools.product` lists the triples in lexicographic order: position `i` holds the binary digits of `i` |
| GridSearch.OrderAtCode | Ehyd/main.py:443-444 | Every triple of zeros and ones is among the orders |
| GridSearch.GridComplete | Ehyd/main.py:443-453 | Every order and seasonal order with entries 0 or 1 and period 12 is tried |
| GridSearch.GridDistinct | Ehyd/main.py:443-453 | No pair is tried twice |
| Frames.Position | Ehyd/main.py:582-587 | A column name is found exactly when it is in the frame, at a position that holds it |
| Frames.Assign | Ehyd/main.py:584-587 | `df[name] = col` appends the name when it is new, keeps the names otherwise, and the column then reads `col` |
| Frames.AssignKeepsOthers | Ehyd/main.py:584-587 | Assigning one column leaves every other column as it was |
| Frames.AssignedWellFormed | Ehyd/main.py:584-587 | Assigning a column of the right length keeps all columns equally long and the names distinct |
| Frames.PositionOfDistinct | Ehyd/main.py:582 | With distinct names, looking a frame's column name up finds that column |
| Frames.Frame.Get | Ehyd/main.py:584 | Reading a column gives the frame's column of that name |
| Frames.Frame.Set | Ehyd/main.py:584-587 | Writing a column changes the frame to the assigned table and keeps the index |
| Features.AddLagAndRollingMean | Ehyd/main.py:580-588 | A frame without columns raises `IndexError` and is left alone. Otherwise the frame is rewritten in place to `Features` of its old contents, and the function returns the frame itself |
| Features.LagCell | Ehyd/main.py:584 | Row `t` of `lag_1` is row `t-1` of the first column, NaN at the first row |
| Features.LaggedMean | Ehyd/main.py:587 | Row `t` of the rolling column is the mean of the `w` values of the first column just before `t`. It is NaN when `t < w`, when a value is NaN, or when `w` is 0 |
| Features.FeaturesColumns | Ehyd/main.py:580-588 | The first column is kept, `lag_1` and the rolling column hold the lag and its rolling mean, every other column is untouched |
| Features.FeaturesNames | Ehyd/main.py:584-587 | The old names stay in place, followed by `lag_1` and the rolling column where new |
| Features.FirstColumnNamedLag | Ehyd/main.py:582-587 | A first column named `lag_1` is overwritten first, so the rolling mean is taken of the column shifted twice |
| Padding.ZeroPadding | Ehyd/main.py:596-616 | Rewrites the caller's index to periods. It raises `ValueError` on an empty index. Otherwise it gives a new frame on the first days of the months of the join plan, with the padded columns |
| Padding.PeriodMonths | Ehyd/main.py:598-599 | One period per index entry |
| Padding.MaxOf | Ehyd/main.py:605 | The maximum is an entry and no entry exceeds it |
| Padding.Positions | Ehyd/main.py:611 | The rows of one month, all of them, in increasing order |
| Padding.JoinPlan | Ehyd/main.py:605-611 | Every output row lies in the range of months and takes its values from a row of its month |
| Padding.PaddedCells | Ehyd/main.py:611 | Every cell of the padded frame is a number: the row's value with NaN as 0, or 0 for a month without a row |
| Padding.RowKept | Ehyd/main.py:611 | Every input row inside the range of months appears in the output |
| Padding.MonthPresent | Ehyd/main.py:605-611 | Every month of the range appears in the output |
| Padding.SourcelessMeansMissing | Ehyd/main.py:611 | An output row without a source is a month missing from the input |
| Padding.SourceIffPresent | Ehyd/main.py:611 | An output row has a source exactly when its month is in the input |
| Padding.DroppedBeforeStart | Ehyd/main.py:605-611 | An input row appears in the output exactly when its month is not before the start month |
| Padding.PlanAscending | Ehyd/main.py:605-611 | The output rows are in month order |
| Padding.AscendingAppend | Ehyd/main.py:605-611 | The rows of one month followed by ascending later months stay in month order |
| Padding.PositionsPair | Ehyd/main.py:611 | A month held by two input rows yields both, in input order |
| Padding.DistinctCalendar | Ehyd/main.py:605-611 | With one row per month, the output has exactly one row per month of the range, in order |
| Padding.OneSlotPerMonth | Ehyd/main.py:611 | With one row per month, each month gets exactly one output row |
| Padding.MonthStartOf | Ehyd/main.py:614 | `to_timestamp()` of a month is its first day |
| Windows.CreateWindows | Ehyd/main.py:692-701 | There are `T - w - h + 1` pairs, or none when `T < w + h`. Pair `i` has input `data[i:i+w]` and target `data[i+w:i+w+h]` |
| Windows.Contiguous | Ehyd/main.py:696-699 | The input and target windows of a pair are `w + h` consecutive steps |
| Windows.LastTargetEndsAtLastStep | Ehyd/main.py:696-699 | The last target window ends at the last step |
| Windows.CoveringPair | Ehyd/main.py:696-699 | Every step lies in some pair's windows |
| Windows.TooShortNoWindows | Ehyd/main.py:696 | A series shorter than `w + h` gives no pairs |
| Windows.ScriptWindowCount | Ehyd/main.py:704-706 | 720 months, a window of 12 and a horizon of 26 give 683 pairs |

## Left out

- **File system and globals.**
  - Reading files, the directory listing, `station_coordinates` and `pd.read_csv` are left out. File names and lines are inputs, in listing order.
  - The outer `try`/`except` around a file is left out. In the model, only reading the file, or the superscript key below, can raise.
  - `to_global`, `globals()`, `date_to_index` and the `print` calls are left out.
- **Number precision.** `np.float32` rounding, and the `float32` coordinates, are left out. Values are exact reals.
- Werte.IntKeys: keys are tested with ASCII digits only. `str.isdigit` accepts more than that, in two ways the model does not follow:
  - Other decimal digits, such as the Arabic-Indic `٣`, pass `isdigit`, and `int` reads them. The source then matches such a station; the model drops it.
  - The Latin-1 superscripts `¹²³` pass `isdigit`, but `int` raises on them. The outer `except` then skips the coordinate update of that file and of every later one, because the key stays in the dictionary. The function returns the coordinates from before that file.
- Werte.GapMarker: the model reads the gap marker as `Lücke`, with `ü` being U+00FC, as a file decoded as Latin-1 spells it. The text of `Ehyd/main.py` at lines 51 and 106 holds U+FFFD in its place, evidently `ü` lost to a wrong decoding of the script itself. Taken literally, that marker never occurs in a Latin-1 file. The rewrite would then never fire, and a gap row would be dropped by the number parse instead of kept as NaN.
- Nearest.NearestRows: ties are broken by position for every `k`. `Series.nsmallest` does this for `k < n`. For `k >= n` it sorts with `sort_values()`, whose default quicksort promises no order among equal distances.
- **Square root.** `distance.euclidean` takes a square root; the model uses the squared distance instead. The root is increasing, so both put the rows in the same order.
- Werte.ToDataframe: when no series is stored, the model returns the column-less frame as `Columnless`. The script's next use of it, `groundwater_coordinates['hzbnr01']` at line 202, then raises `KeyError`; that line is not part of this model.
- **Default table.** The `df_to_merge=None` default, which reads the global `data`, is left out. The table to merge into is always passed.
- **Merged columns.**
  - The merge keeps only the number and the list columns of each row; other columns of `df_to_merge` are left out.
  - Suffix clashes beyond `_x`/`_y` are left out.
  - Pandas' left-then-right column order is left out: columns are a map.
- **Frame structure.** Duplicate column names in a frame, and index alignment on assignment, are left out. Frames modelled in place have distinct names and a column per index entry.
- **Dictionary order.** Dictionaries are maps, so their insertion order is left out.
- **SARIMA numerics.**
  - Fitting, forecasting and the final fill with `combine_first` are left out.
  - A fit that raises, or whose AIC is not below infinity (NaN, infinity), is `None`.
  - GridSearch.SearchOrders covers one series; the loop over the dictionary is left out.
- **Other script parts.** `resample().mean()`, `get_monthly_vals`, the LSTM model, its training and the plots are left out. They are numeric or library code.
- **Window layout.** Windows slice along the time axis. The station and feature axes of the 3-D array are one opaque element per time step.

