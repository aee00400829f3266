# Tips dashboard: filter pipeline, selector options and plot choice

The dashboard loads the restaurant tips table once, offers a day selector,
a time selector and a tip-range slider in the sidebar, shows the rows that
pass the selections, and draws one of three charts of them. This project
models the logic of that script:

- `table.dfy`, module `Table`: a table row with all its columns, the pandas
  boolean mask (`frame[mask]`) as `Where`, the positions a mask accepts, and
  `Series.unique()` as `Unique`, with the laws the dashboard relies on
  (membership, order, masks compose, commute and are idempotent, first
  appearance order of unique values).
- `app.dfy`, module `App`: the selector option lists (`"All"` followed by
  the column's distinct values), the largest tip and the slider it
  configures, the filter pipeline as a method that reassigns the filtered
  table once per active filter, the one-pass filtered table it is proved
  equal to, and the if / elif / else that picks the chart.

The loaded table and the values the widgets return are parameters: the
table is a `seq<Row>`, the selections are a day string, a time string and a
`(lower, upper)` pair. Tips and bills are `real`, since the script only
compares them and takes their maximum.

The model follows what the script does, also where a stricter design of
the dashboard would behave differently:

- The script validates no tip range. A range with its lower end above its
  upper end is not rejected and not swapped: it yields the empty table
  (`App.InvertedRangeIsEmpty`). A range outside `[0, largest tip]` filters
  like any other.
- An unknown plot type is not an error: the script's `else` branch draws
  the boxplot for every string that is not one of the first two menu
  entries (`App.ChoosePlot`).
- If a day or time value in the table is literally `"All"`, it is offered
  twice, and choosing it does not filter on that column.

## Model

| member | source | states |
|---|---|---|
| `Table.Where` | app.py:42-51 | a boolean mask keeps a row exactly when the row is in the table and the mask holds for it, and never lengthens the table |
| `Table.Positions` | app.py:42-51 | the accepted positions are ascending, each within the table and accepted, and every accepted position is listed |
| `Table.WherePicksPositions` | app.py:42-51 | the masked table is exactly the rows at the accepted positions, taken in ascending order: relative order is kept and nothing else is kept |
| `Table.WhereAll` | app.py:48-51 | a mask that accepts every row returns the table unchanged |
| `Table.WhereNone` | app.py:48-51 | a mask that accepts no row returns the empty table, not an error |
| `Table.WhereWhere` | app.py:42-51 | masking with one mask and then another equals masking once with their conjunction |
| `Table.WhereCommutes` | app.py:42-51 | the order of two successive masks does not change the result |
| `Table.WhereIdempotent` | app.py:42-51 | re-applying a mask to its own result changes nothing |
| `Table.Unique` | app.py:23 | `unique()` holds exactly the values of the column, each once |
| `Table.UniqueInFirstAppearanceOrder` | app.py:23 | `unique()` lists values in order of first appearance: an earlier value occurs before any occurrence of a later one |
| `App.SelectorOptions` | app.py:21-30 | the option list starts with `"All"`, then holds each value of the column that occurs in the table, each once |
| `App.OptionsInFirstAppearanceOrder` | app.py:21-30 | after `"All"` the options follow the table order of first appearance |
| `App.MaxTip` | app.py:33 | the largest tip bounds every row's tip and is the tip of some row; an empty table has none |
| `App.TipSliderFor` | app.py:33-37 | the slider runs from 0.0 to the largest tip and starts at that whole range |
| `App.ApplyFilters` | app.py:40-51 | the step-by-step pipeline equals the one-pass filter: a row is kept iff the day matches when day is not "All", the time matches when time is not "All", and the tip lies in the closed range |
| `App.FilteredViewKeepsOrder` | app.py:40-51 | the filtered table is the rows of the loaded table at ascending positions, and a position is among them iff its row passes every active selection |
| `App.DefaultSelectionKeepsTable` | app.py:33-51 | with "All", "All" and the slider's initial range the filtered table is the whole table, given no negative tip |
| `App.InvertedRangeIsEmpty` | app.py:48-51 | a lower bound above the upper bound yields the empty table |
| `App.PointRangeKeepsEqualTips` | app.py:48-51 | the range [x, x] keeps exactly the rows whose tip is x |
| `App.FilteredViewIdempotent` | app.py:40-51 | filtering the filtered table again with the same selections changes nothing |
| `App.OfferedValueMatches` | app.py:21-51 | every non-"All" option offered by a selector keeps at least one row under the slider's initial range |
| `App.TwoRowExample` | app.py:40-51 | on a two-row table, a day selection, a tip range and an absent day give the first row, the second row and nothing |
| `App.ChoosePlot` | app.py:77-90 | "Histogram - Total Bill" draws a 20-bin histogram of total_bill, "Scatterplot - Total Bill vs Tip" a scatter of total_bill against tip, and every other string a boxplot of tip grouped by day |
| `App.MenuEntriesDrawTheirCharts` | app.py:70-90 | the three menu entries draw the three charts their labels name, all different |

## Left out

- Reading `tips.csv` (app.py:10): file I/O; the loaded table is a parameter.
- Every Streamlit call (title, sidebar, selectbox, slider, dataframe, json, pyplot, footer): user interface; the values the widgets return are parameters, and the slider's own checks of its arguments belong to Streamlit.
- The JSON view (app.py:63): a serialisation round trip through pandas and the `json` library with no logic of the script's own.
- Drawing the charts, titles and axis labels (app.py:75-94): matplotlib and pandas rendering; only the choice of chart and the columns it maps are modelled.
- Floating-point semantics of `tip` and `total_bill`, including NaN cells: the script only compares tips and takes their maximum, so they are `real`.
- App.MaxTip: the NaN that pandas returns for the maximum of an empty column is modelled as no value, and the slider is then absent rather than whatever Streamlit would do with a NaN bound.
- The copy at app.py:40: tables are values here, so the loaded table is unchanged by construction rather than by copying.
