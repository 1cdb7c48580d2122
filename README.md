# Portfolio macro analyzer: a verified model of its data core

This project models in Dafny the data core of `MacroTrendExplorer` in
`portfolio-macro-analyzer.py`. The core has four parts:

- **Collection of the downloaded series.** The explorer holds a fixed table of five instruments: display name and
  provider symbol. It downloads each one. It keeps the histories that came back non-empty, labelled with their display
  names. A failed download, or one that returned nothing, is skipped.
- **The series aligner.** The kept series are outer-joined on their dates and sorted by date. Gaps are then repaired by a
  forward fill followed by a back fill. Finally every row that still has a missing cell is dropped. Without any series
  the result is the empty table.
- **The risk metric calculator.** For each column of the aligned table it computes the total return, the annualized
  volatility, the maximum drawdown against the running maximum, and a Sharpe ratio against a fixed 4% risk-free rate. It
  gives one row per column, in column order, and no rows for an empty table.
- **The chart normalization.** Every price becomes its percentage change from the first row of its column.

Calendar days are integers. Prices are exact reals. A missing number (NaN in the original) is `None`.

Modules, one per file:

| file | module | contents |
|---|---|---|
| `wrappers.dfy` | `Wrappers` | `Option` |
| `frames.dfy` | `Frames` | observations, series, joined rows, the aligned price table |
| `sources.dfy` | `Sources` | the instrument table, the collection loop, the whole fetch pipeline |
| `join.dfy` | `Join` | the outer join and the date sort |
| `fill.dfy` | `Fill` | forward and back fill |
| `aligner.dfy` | `Aligner` | `dropna` and the aligner as a whole |
| `risk.dfy` | `Risk` | the risk metrics |
| `normalization.dfy` | `Normalization` | the chart transform |

The loops of the original are methods, each proved equal to a specification function:

- the loop that appends downloaded frames;
- the in-place `sort_index` and `dropna`;
- the loop over the columns that appends one row of statistics per column.

The properties are proved about those functions.

## Model

| member | source | states |
|---|---|---|
| `Sources.Collected` | portfolio-macro-analyzer.py:46-67 | the collected list is never longer than the instrument table |
| `Sources.CollectedOrigins` | portfolio-macro-analyzer.py:47-66 | each collected series is the history of a usable download, labelled with its instrument's display name; the source instruments are strictly increasing, so instrument order is kept |
| `Sources.CollectedComplete` | portfolio-macro-analyzer.py:49-66 | every download that returned a non-empty history is in the collected list |
| `Sources.CollectedEmpty` | portfolio-macro-analyzer.py:46-69 | nothing is collected exactly when no download is usable |
| `Sources.CollectedLabels` | portfolio-macro-analyzer.py:47-64 | distinct instrument names give distinct column labels, and no collected series is empty |
| `Sources.CollectSeries` | portfolio-macro-analyzer.py:46-67 | the `df_list.append` loop returns exactly the collected list |
| `Sources.FetchLongTermData` | portfolio-macro-analyzer.py:31-75 | the fetched table is the aligner's result on the collected series; its columns are their names; it has no rows exactly when no download was usable; its dates are exactly the union of the downloaded dates |
| `Frames.Column` | portfolio-macro-analyzer.py:84 | `data[col]` has one price per row, the row's price in that column |
| `Join.Lookup` | portfolio-macro-analyzer.py:70 | a joined cell is present exactly when its series was observed that day, and then holds that day's price |
| `Join.AddDates` | portfolio-macro-analyzer.py:70 | the accumulated dates gain exactly the dates of one series, without duplicates |
| `Join.JoinDates` | portfolio-macro-analyzer.py:70 | the joined index is exactly the union of all series' dates, without duplicates |
| `Join.OuterJoin` | portfolio-macro-analyzer.py:70 | the outer join has one row per date of the union, each date once, and each row holds every series' price for its day |
| `Join.InsertByDate` | portfolio-macro-analyzer.py:71 | inserting a row into the sorted rows gives one row more |
| `Join.InsertByDatePermutes` | portfolio-macro-analyzer.py:71 | one insertion step adds the row to the multiset of rows and nothing else |
| `Join.InsertByDateAscending` | portfolio-macro-analyzer.py:71 | inserting a row with a new date into ascending rows keeps them ascending |
| `Join.InsertByDateSkips` | portfolio-macro-analyzer.py:71 | insertion passes over a prefix of rows dated no later than the new row |
| `Join.SortByDate` | portfolio-macro-analyzer.py:71 | the specification of `sort_index`: sorting keeps the number of rows (its permutation and ascending order are the two lemmas below) |
| `Join.SortByDatePermutes` | portfolio-macro-analyzer.py:71 | sorting is a permutation of the rows |
| `Join.SortByDateAscending` | portfolio-macro-analyzer.py:71 | rows with distinct dates come out in strictly ascending date order |
| `Join.SortIndex` | portfolio-macro-analyzer.py:71 | the in-place sort computes the date-sorted rows |
| `Fill.Patch` | portfolio-macro-analyzer.py:72 | known cells stay; missing cells take the fallback |
| `Fill.Missing` | portfolio-macro-analyzer.py:72 | the initial carry has every cell missing |
| `Fill.FFill` | portfolio-macro-analyzer.py:72 | forward fill keeps the shape and the dates and never changes a known cell |
| `Fill.BFill` | portfolio-macro-analyzer.py:72 | back fill keeps the shape and the dates and never changes a known cell |
| `Fill.FillGaps` | portfolio-macro-analyzer.py:72 | `ffill().bfill()` keeps the number of rows, their width and their dates |
| `Fill.FillGapsKeepsKnown` | portfolio-macro-analyzer.py:72 | gap repair never changes a known cell |
| `Fill.FFillBeforeKnown` | portfolio-macro-analyzer.py:72 | before a column's first known cell, forward fill leaves the incoming carry |
| `Fill.FFillAfterKnown` | portfolio-macro-analyzer.py:72 | after a known cell, forward fill copies it down until the next known cell |
| `Fill.BFillBeforeKnown` | portfolio-macro-analyzer.py:72 | back fill copies a known cell upward over the missing cells above it |
| `Fill.BFillAfterKnown` | portfolio-macro-analyzer.py:72 | back fill leaves missing a cell with no known cell below it |
| `Fill.FillGapsAfterKnown` | portfolio-macro-analyzer.py:72 | after repair, a cell after a known one holds the latest known value |
| `Fill.FillGapsBeforeFirst` | portfolio-macro-analyzer.py:72 | after repair, a cell before a column's first known cell holds that first value |
| `Fill.LastKnown` | portfolio-macro-analyzer.py:72 | finds the latest known cell at or before a row, or none, with no known cell in between |
| `Fill.FillGapsColumn` | portfolio-macro-analyzer.py:72-73 | a column with any known cell has no missing cell after repair; a column with none stays missing everywhere |
| `Fill.FirstKnownFrom` | portfolio-macro-analyzer.py:72 | finds the first known cell of a column that has one |
| `Aligner.Prices` | portfolio-macro-analyzer.py:73 | a complete row's prices are its cells |
| `Aligner.DropIncomplete` | portfolio-macro-analyzer.py:73 | the specification of `dropna`: it never adds rows (which rows it keeps is the lemma below) |
| `Aligner.DropIncompleteKeeps` | portfolio-macro-analyzer.py:73 | `dropna` keeps exactly the complete rows, in their order |
| `Aligner.DropIncompleteAllComplete` | portfolio-macro-analyzer.py:73 | with every row complete, `dropna` keeps them all |
| `Aligner.DropIncompleteNoneComplete` | portfolio-macro-analyzer.py:73 | with no row complete, `dropna` removes all rows |
| `Aligner.DropIncompleteShape` | portfolio-macro-analyzer.py:73 | `dropna` keeps the width, keeps the date order and keeps only dates it was given |
| `Aligner.DropNa` | portfolio-macro-analyzer.py:73 | the in-place `dropna` computes the complete rows |
| `Aligner.LatestWitness` | portfolio-macro-analyzer.py:72 | the as-of price is that of the last observation on or before the day |
| `Aligner.LatestNone` | portfolio-macro-analyzer.py:72 | with no as-of price, every observation is later than the day |
| `Aligner.AsOfObserved` | portfolio-macro-analyzer.py:72 | on an observed day the aligned value is that day's price |
| `Aligner.AsOfIsObserved` | portfolio-macro-analyzer.py:72 | every aligned value is an observed price |
| `Aligner.LatestIsObserved` | portfolio-macro-analyzer.py:72 | every as-of price is an observed price |
| `Aligner.SortedJoin` | portfolio-macro-analyzer.py:70-71 | the sorted join has one cell per series in every row |
| `Aligner.SortedJoinFacts` | portfolio-macro-analyzer.py:70-71 | the sorted join is ascending, has one row per date of the union, and each row is the joined row of its day |
| `Aligner.SortedJoinMembers` | portfolio-macro-analyzer.py:71 | every sorted row is a joined row |
| `Aligner.SortedJoinCovers` | portfolio-macro-analyzer.py:71 | every joined row is among the sorted rows |
| `Aligner.Names` | portfolio-macro-analyzer.py:64-70 | the table's columns are the series' names, in series order |
| `Aligner.SortedJoinColumn` | portfolio-macro-analyzer.py:70-71 | each cell of a column of the sorted join is its series' price on that day, and each observed day is a row |
| `Aligner.NotObservedBetween` | portfolio-macro-analyzer.py:72 | no observation lies between the as-of observation and the day |
| `Aligner.FilledCellAfterFirst` | portfolio-macro-analyzer.py:72 | from a column's first observation on, a filled cell is the latest price on or before its day |
| `Aligner.FilledCellBeforeFirst` | portfolio-macro-analyzer.py:72 | before a column's first observation, a filled cell is the first price |
| `Aligner.FilledCellNoData` | portfolio-macro-analyzer.py:72 | a series without observations leaves its column missing |
| `Aligner.FilledCell` | portfolio-macro-analyzer.py:70-72 | after `ffill().bfill()` every cell is the as-of value of its series on its row's day |
| `Aligner.FilledShape` | portfolio-macro-analyzer.py:70-72 | the filled rows keep the join's width, its ascending dates and only dates of the union |
| `Aligner.AlignShape` | portfolio-macro-analyzer.py:69-75 | the aligned table has the series' names as columns, one price per column, strictly ascending dates, all from the union |
| `Aligner.AlignComplete` | portfolio-macro-analyzer.py:69-74 | when every series has data, no row is dropped: the dates are exactly the union, and each price is the as-of value of its series |
| `Aligner.AlignCompleteDates` | portfolio-macro-analyzer.py:69-74 | when every series has data, the aligned dates are exactly the union of the series' dates |
| `Aligner.AlignCompleteRows` | portfolio-macro-analyzer.py:72-73 | when every series has data, the aligned rows are the sorted join's dates with the as-of prices |
| `Aligner.FilledComplete` | portfolio-macro-analyzer.py:72 | when every series has data, every filled row is complete |
| `Aligner.AlignEmptyColumn` | portfolio-macro-analyzer.py:72-73 | a series without observations makes `dropna` remove every row |
| `Aligner.AlignPositive` | portfolio-macro-analyzer.py:72 | positive observed prices give an all-positive table |
| `Aligner.AlignSpec` | portfolio-macro-analyzer.py:69-75 | the aligner's specification: its columns are the series' names, and without series it is the empty table |
| `Aligner.Align` | portfolio-macro-analyzer.py:69-75 | the aligner's loop-based steps compute the specified table, with its shape, its emptiness and its as-of contents |
| `Risk.TotalReturn` | portfolio-macro-analyzer.py:85 | the first price grown by the total return is the last price |
| `Risk.TotalReturnSign` | portfolio-macro-analyzer.py:85 | for positive prices the total return is above -1, positive exactly when the last price is above the first, and 0 exactly when they are equal |
| `Risk.DailyReturns` | portfolio-macro-analyzer.py:86 | one return per consecutive pair of prices; each price grown by its return is the next price |
| `Risk.SquaredDeviations` | portfolio-macro-analyzer.py:87 | the sum of squared deviations is non-negative |
| `Risk.SampleVariance` | portfolio-macro-analyzer.py:87 | the sample variance exists exactly for two or more values, and is non-negative |
| `Risk.SquaredDeviationsZero` | portfolio-macro-analyzer.py:87 | the squared deviations are zero exactly when every value equals the centre |
| `Risk.FlatIffAtMean` | portfolio-macro-analyzer.py:87 | values are all equal exactly when each equals their mean |
| `Risk.IsVolatility` | portfolio-macro-analyzer.py:86-87 | the volatility, given by its square: a value meeting the definition is defined, not NaN, exactly when there are at least three prices |
| `Risk.VolatilityUnique` | portfolio-macro-analyzer.py:86-87 | at most one value meets the definition, so it stands for the square root of 252 times the sample variance |
| `Risk.VolatilityZero` | portfolio-macro-analyzer.py:86-87 | the volatility is zero exactly when all daily returns are equal |
| `Risk.RunningMax` | portfolio-macro-analyzer.py:89 | the running maximum has one value per price |
| `Risk.RunningMaxFacts` | portfolio-macro-analyzer.py:89 | the running maximum starts at the first price, never decreases, and is at least each day's price |
| `Risk.RunningMaxAttained` | portfolio-macro-analyzer.py:89 | the running maximum on a day is the price of some day up to it |
| `Risk.RunningMaxBounds` | portfolio-macro-analyzer.py:89 | no earlier price exceeds the running maximum |
| `Risk.Fall` | portfolio-macro-analyzer.py:90 | the fall of a positive price below a top lies in (-1, 0], and is 0 exactly at the top |
| `Risk.Drawdown` | portfolio-macro-analyzer.py:90 | each drawdown lies in (-1, 0], and is 0 exactly at the running maximum |
| `Risk.MinOf` | portfolio-macro-analyzer.py:91 | the minimum is an element and is no larger than any element |
| `Risk.MaxDrawdown` | portfolio-macro-analyzer.py:91 | the maximum drawdown lies in (-1, 0], is the drawdown of some day, and no day's drawdown is lower |
| `Risk.MaxDrawdownRange` | portfolio-macro-analyzer.py:89-91 | the maximum drawdown lies in (-1, 0], and is 0 exactly when the price never falls below its running maximum |
| `Risk.AtRunningMaxIffNondecreasing` | portfolio-macro-analyzer.py:89-91 | a price always at its running maximum is exactly a non-decreasing price |
| `Risk.Sharpe` | portfolio-macro-analyzer.py:81-93 | no Sharpe ratio for a NaN volatility, 0 for a zero volatility, and otherwise the ratio times the volatility plus 4% is the total return |
| `Risk.ColumnsPositive` | portfolio-macro-analyzer.py:84 | every column of an all-positive table is positive |
| `Risk.ColumnMetrics` | portfolio-macro-analyzer.py:84-101 | one column's statistics: its name and volatility; a total return above -1, positive or 0 exactly as the last price is above or equal to the first; a maximum drawdown in (-1, 0], 0 exactly when the price never falls below its running maximum; the Sharpe ratio of that return and volatility, missing exactly when the volatility is and 0 when it is 0 |
| `Risk.Metrics` | portfolio-macro-analyzer.py:77-103 | the metrics table: no rows for an empty table, else one row per column, in column order, with the column's name and volatility |
| `Risk.CalculateRiskMetrics` | portfolio-macro-analyzer.py:77-103 | the loop over the columns computes the metrics table |
| `Risk.MetricsRows` | portfolio-macro-analyzer.py:77-103 | no rows for an empty table, else one per column in column order, with the column's name, volatility, total return and maximum drawdown, a drawdown in (-1, 0] and the matching Sharpe ratio |
| `Risk.RowFacts` | portfolio-macro-analyzer.py:84-101 | one column's row of the metrics table carries its name, its volatility, its total return and maximum drawdown, a drawdown in (-1, 0] and the matching Sharpe ratio |
| `Risk.MetricsVolatility` | portfolio-macro-analyzer.py:86-98 | each row's volatility is that of its column, present exactly when the table has at least three rows |
| `Risk.ConstantPrices` | portfolio-macro-analyzer.py:85-93 | a constant price has total return 0 and maximum drawdown 0; with at least three prices its volatility is 0, and so is its Sharpe ratio |
| `Risk.ConstantTotalReturn` | portfolio-macro-analyzer.py:85 | a constant price has total return 0 |
| `Risk.ConstantNoDrawdown` | portfolio-macro-analyzer.py:89-91 | a constant price has maximum drawdown 0 |
| `Risk.ConstantVolatility` | portfolio-macro-analyzer.py:86-87 | a constant price with at least three days has volatility 0 |
| `Risk.ReturnZero` | portfolio-macro-analyzer.py:86 | a price that does not move has daily return 0 |
| `Normalization.Percent` | portfolio-macro-analyzer.py:145 | the base grown by the percentage is the price |
| `Normalization.Normalize` | portfolio-macro-analyzer.py:144-145 | normalization keeps the column labels, the number of rows, their dates and their width |
| `Normalization.Denormalize` | portfolio-macro-analyzer.py:144-145 | growing the normalized cells keeps the shape and the dates |
| `Normalization.NormalizeRoundTrip` | portfolio-macro-analyzer.py:144-145 | the first row's prices restore the original table from the normalized one |
| `Normalization.PercentOfBase` | portfolio-macro-analyzer.py:145 | the base's change from itself is 0 |
| `Normalization.FirstRowZero` | portfolio-macro-analyzer.py:144-145 | every cell of the first normalized row is 0, so a one-row table normalizes to zeros |
| `Normalization.PercentOrder` | portfolio-macro-analyzer.py:145 | with a positive base, normalization keeps the order of prices and their equality, both ways |
| `Normalization.PercentSign` | portfolio-macro-analyzer.py:145 | with a positive base, the change is positive exactly above the base and 0 exactly at it |
| `Normalization.LastRowIsTotalReturn` | portfolio-macro-analyzer.py:144-145 | the last normalized value of a column is 100 times its total return |

## Left out

- The provider call `yf.download` and the exception handling around it (lines 48-49 and 67) are not modelled. Their place
  is taken by a parameter: one outcome per instrument, either a failure (`None`) or the returned observations.
- The provider's frame shapes are not modelled: MultiIndex columns, `xs('Close')`, the `iloc[:, 0]` fallbacks and
  time-zone stripping (lines 53-65). A download is taken to be already one closing-price column with strictly increasing
  calendar days.
- The wall clock and the 730-day window (lines 37-44) are not modelled. They only bound the dates the provider returns.
- The one-hour result cache (line 35) is not modelled.
- Floating point is not modelled. Prices are exact reals, and NaN appears only where the code produces it: the missing
  cells of the join, and a volatility from fewer than two returns (`None`). Infinities from dividing by zero are not
  modelled.
- The square root inside the volatility (line 87) is not computed. The volatility of column `c` is an input `vols[c]`.
  `Risk.CalculateRiskMetrics` accepts any such inputs, one per column, and copies each into its column's row. Only
  `Risk.MetricsVolatility` assumes `Risk.VolatilitiesOf`, which says each `vols[c]` is the non-negative number whose
  square is 252 times the sample variance of the column's daily returns; `Risk.VolatilityUnique` shows that number is
  the only one.
- The risk metrics require strictly positive prices, and normalization requires a first row with no zero price. In the
  original, a zero there gives an infinite or NaN result, which is not modelled.
- A NaN price inside a downloaded history is not modelled: a download is a sequence of real prices. In the original,
  after `pd.concat` (line 70) such a NaN looks like a gap of the join, so `ffill().bfill()` (line 72) fills it from the
  neighbouring days and the row survives `dropna` (line 73). Only a download that is non-empty but entirely NaN makes
  `dropna` empty the table.
- `Sources.FetchLongTermData`: its third `ensures`, no rows exactly when no download is usable, is not claimed for
  downloads that are non-empty but entirely NaN; those would leave the original's table empty as well.
- `Risk.DailyReturns`: compounding of the daily returns, namely that the product of `(1 + r)` over all returns equals
  last price divided by first price, is not proved.
- The Streamlit page, the KPI widgets, the chart and the table formatting (lines 1-17 and 105 on) are not modelled.
- The `fetch_long_term_data` wrapper (lines 31-33) only forwards to the cached function; `Sources.FetchLongTermData` models both.
