# Tourism infrastructure dashboard: the data transforms, in Dafny

`visualization_app.py` is a Streamlit dashboard over a table of towns: for
each town its region (`refArea`, a URI), a tourism index, its numbers of
hotels and restaurants, and a flag saying whether restaurants exist. Under
the widget and chart calls sits a small pipeline, and this project models
that pipeline:

- it cleans the region column by keeping `x.split("/")[-1]` of every string
  (line 15), and applies the same expression again at lines 92, 120 and 129;
- it ranks towns by their total number of hotels and keeps the top `n`
  (lines 27-32);
- it makes three row selections: towns with hotels (lines 64-67), towns with
  hotels or restaurants (line 88), and rows of the selected regions (line 120);
- it counts the restaurant flag's values and names the pie slices (lines 70, 74);
- it keeps a region selection in the session state. The selection starts as
  "all", has "select all" and "clear all" buttons, and is rebuilt from one
  checkbox per region on every rerun (lines 92-117);
- it computes the insight under the bubble chart only when rows remain
  (lines 137-141).

The table is an already-loaded `seq<Record>`. Module `Sequences` holds the
generic operations that stand for the dataframe calls: boolean-mask
filtering, `groupby(...).sum()` and sorting by value in descending order;
`head(n)` is a slice of the ranking inside `TopTowns`. Module `RegionText` holds `split`, `split("/")[-1]` and
Python's string order. Module `Dashboard` holds the records and every chart
input. Module `Session` holds the selection state as a class whose checkbox
pass is a loop.

Points where the model follows the code rather than a looser reading of the dashboard:

- The code sorts with pandas' default sort, which is not stable. So no order
  among towns with equal totals is claimed.
- The number of towns `n` comes from a slider limited to 5..20. The model
  accepts any `n`.
- The selection state of the code covers regions only (no towns, no index
  range, no toggle of one member). A single toggle is what the checkbox
  answer expresses.
- The "no data" case of the insight is the `else` branch at line 150.

## Model

| member | source | states |
|---|---|---|
| RegionText.Split | visualization_app.py:15 | `s.split(sep)` yields at least one piece and no piece contains the separator |
| RegionText.JoinSplit | visualization_app.py:15 | joining the pieces of a split with the separator gives back the original string |
| RegionText.LastSegment | visualization_app.py:15 | `s.split("/")[-1]` is a suffix of `s` with no slash, and is either all of `s` or stands right after a slash |
| RegionText.LastSegmentUnique | visualization_app.py:15 | those three properties determine the result: any slash-free suffix that is all of `s` or follows a slash equals `split("/")[-1]` |
| RegionText.NoSlashUnchanged | visualization_app.py:15 | a string without a slash comes back unchanged |
| RegionText.LastSegmentIdempotent | visualization_app.py:92 | taking the last segment of a last segment changes nothing |
| RegionText.LastSegmentOfUri | visualization_app.py:15 | the last segment of "http://example.org/Beirut" is "Beirut" |
| RegionText.CleanArea | visualization_app.py:15 | non-string cells pass through untouched; a string becomes its slash-free suffix that is either the whole string or follows a slash, i.e. the part after the last `/` (unique by LastSegmentUnique); a slash-free string is unchanged |
| RegionText.CleanAreaIdempotent | visualization_app.py:15 | cleaning a cell twice equals cleaning it once |
| RegionText.LessIrreflexive | visualization_app.py:92 | no string sorts before itself |
| RegionText.LessTransitive | visualization_app.py:92 | string order is transitive |
| RegionText.LessTotal | visualization_app.py:92 | of two different strings, one sorts before the other |
| RegionText.InsertUnique | visualization_app.py:92 | inserting into a strictly ascending list keeps it strictly ascending and adds exactly the inserted value |
| RegionText.SortedUnique | visualization_app.py:92 | `sorted(...unique())` is strictly ascending and holds exactly the values of its input |
| Sequences.Filter | visualization_app.py:65 | `df[mask]` is an order-preserving subsequence whose elements all pass the mask, and it keeps every passing element as often as it occurs |
| Sequences.FilterIdempotent | visualization_app.py:120 | applying the same mask twice equals applying it once |
| Sequences.FilterAllPass | visualization_app.py:67 | a mask every row passes returns the table unchanged |
| Sequences.SubsequenceKeepsOrder | visualization_app.py:108-114 | an order between all earlier and later elements carries over to any subsequence |
| Sequences.Accumulate | visualization_app.py:28-29 | adding one row to the group totals adds its value to its key's total and adds its key to the key set |
| Sequences.Totals | visualization_app.py:28-29 | `groupby(key)[col].sum()` has each key once, the same keys as its input, per-key sums equal to the input's, and the same grand total |
| Sequences.Insert | visualization_app.py:30 | inserting adds exactly one element (as a multiset) and keeps a descending list descending |
| Sequences.InsertKeepsTotals | visualization_app.py:30 | inserting keeps every key's total and key distinctness, and adds the new element's key and value |
| Sequences.SortDescending | visualization_app.py:30 | `sort_values(ascending=False)` is a permutation of its input with values in non-increasing order |
| Sequences.SortKeepsTotals | visualization_app.py:30 | sorting keeps the keys, their distinctness, each key's total and the grand total |
| Sequences.PrefixSumBounded | visualization_app.py:31 | with non-negative values, a prefix sums to at most the whole |
| Dashboard.CleanRegions | visualization_app.py:15 | each row's region becomes CleanArea of its raw value, i.e. the part after the last `/` of a string; after cleaning, no string region holds a slash, every other column is unchanged, string cells stay strings, and an already-clean table comes back as it was |
| Dashboard.CleanRegionsIdempotent | visualization_app.py:15 | cleaning the column twice equals cleaning it once |
| Dashboard.RecleaningAgrees | visualization_app.py:92 | after line 15, applying `split("/")[-1]` again to a stored region returns that region |
| Dashboard.PrefixOfRanking | visualization_app.py:31 | a town left out of a prefix of a descending ranking has a total no larger than any total kept |
| Dashboard.RankedTowns | visualization_app.py:27-30 | the grouped and sorted totals list every town of the table once, in non-increasing order, each with the sum of its rows' hotels |
| Dashboard.TopTowns | visualization_app.py:27-32 | the top-`n` list holds min(n, #towns) distinct towns with non-increasing totals; each total is the sum of that town's hotels; every town appears when `n` covers them all; a town left out has a total no larger than any total listed |
| Dashboard.RankedEntries | visualization_app.py:27-30 | each ranked entry names a town of the table and carries that town's hotel sum |
| Dashboard.TopTownsSumBounded | visualization_app.py:27-32 | with non-negative hotel counts, the listed totals sum to at most the table's total hotels |
| Dashboard.RestaurantBase | visualization_app.py:64-67 | "All Towns" is the table unchanged; "Only Towns with Hotels" keeps exactly the rows with hotels > 0, in order |
| Dashboard.BubbleBase | visualization_app.py:88 | `chart_df` keeps exactly the rows with hotels > 0 or restaurants > 0, in order |
| Dashboard.ValueCounts | visualization_app.py:70 | one entry per observed flag value; each count is that value's number of rows and positive; counts do not increase; they sum to the number of non-missing flags |
| Dashboard.PositionalLabels | visualization_app.py:74 | as written: there are as many names as counts; two categories get the two fixed names by position, any other number gets the raw categories |
| Dashboard.MoreFrequentFirst | visualization_app.py:70 | with categories 0 and 1 and more rows in category 1, `value_counts()` lists category 1 first, with its count |
| Dashboard.PositionalLabelsMislabel | visualization_app.py:74 | with two towns that have restaurants and one that has none, the "has" category comes first and is named "No Restaurants" |
| Dashboard.PieLabels | visualization_app.py:74 | as intended: there are as many names as counts, and with two categories each is named after its own category value |
| Dashboard.PieLabelsFollowCategory | visualization_app.py:74 | with categories {0, 1}, category 1 is "Has Restaurants" and 0 is "No Restaurants", whatever their counts |
| Dashboard.SlicesSum | visualization_app.py:73 | the slice sizes sum to the sum of the counts |
| Dashboard.RestaurantPie | visualization_app.py:64-77 | as written: one slice per observed category in the order of `value_counts()`, each sized by its category's row count, positive and non-increasing; the sizes sum to the number of non-missing flags of the chosen rows; with two categories the first slice is "No Restaurants" and the second "Has Restaurants", otherwise each slice is named by its raw category |
| Dashboard.RestaurantPieMislabel | visualization_app.py:70-74 | as written: on flags 1, 1, 0 the drawn pie's first slice is the two towns with restaurants, named "No Restaurants" |
| Dashboard.IntendedRestaurantPie | visualization_app.py:64-77 | as intended: one slice per observed category in the order of `value_counts()`, each sized by its category's row count and positive, summing to the non-missing flags; with categories {0, 1} every slice is named after its own category (1 "Has Restaurants", 0 "No Restaurants"), ties included, so each named slice is sized by its own category's count |
| Dashboard.PieSlices | visualization_app.py:70-73 | slices built on `value_counts()` are one per observed category, each keeps its name and is sized by its category's row count, positive, and the sizes sum to the non-missing flags |
| Dashboard.TwoCategorySlices | visualization_app.py:70-74 | as intended: with categories {0, 1} and the PieLabels names, each slice is named after its own category and sized by the row count of the category its name denotes |
| Dashboard.RegionColumn | visualization_app.py:92 | `apply(lambda x: x.split("/")[-1])` fails exactly when some region cell is not a string, and otherwise yields each row's region |
| Dashboard.AvailableRegions | visualization_app.py:92 | `available_regions` fails exactly when a region cell is not a string; otherwise it is strictly ascending and holds exactly the regions of the chart rows |
| Dashboard.RegionFilter | visualization_app.py:120 | keeps exactly the rows whose cleaned region is in the selection, in order |
| Dashboard.RegionFilterIdempotent | visualization_app.py:120 | filtering again with the same selection changes nothing |
| Dashboard.FullSelectionKeepsAll | visualization_app.py:92-120 | with every available region selected, the region filter keeps every chart row |
| Dashboard.MaxHotels | visualization_app.py:141 | `max()` is at least every row's hotels and is the hotels of some row |
| Dashboard.ArgMaxHotels | visualization_app.py:140 | `idxmax()` is the first row with the most hotels |
| Dashboard.Mean | visualization_app.py:138-139 | `mean()` of a non-empty column: the mean times the row count is the column's sum |
| Dashboard.MeanAtMost | visualization_app.py:139-141 | when every row has at most `m` hotels, the mean number of hotels is at most `m` |
| Dashboard.MaxAtArgMax | visualization_app.py:140-141 | `max()` of the hotel column is the hotels of the row `idxmax()` picks |
| Dashboard.InsightMaxIsMax | visualization_app.py:137-141 | on a non-empty view the insight's maximum is `max()` of the hotel column |
| Dashboard.SumHotelsBounded | visualization_app.py:139 | if every row has at most `m` hotels, the sum is at most count times `m` |
| Dashboard.BubbleInsight | visualization_app.py:137-151 | "no data" exactly when no row remains; otherwise the means times the row count give the sums, the named town is the first with the most hotels, that maximum bounds every row and is at least the mean |
| Dashboard.BubbleView | visualization_app.py:88-120 | the rows behind the bubble chart are, in the order of the table, exactly the rows with a hotel or a restaurant that lie in a selected region, each as often as in the table |
| Session.CheckedRegions | visualization_app.py:108-114 | the rebuilt list is an order-preserving subsequence of `available_regions` holding exactly the regions whose box is ticked |
| Session.CheckedRegionsAscending | visualization_app.py:108-117 | from a strictly ascending `available_regions`, the rebuilt selection is strictly ascending |
| Session.SelectAllThenUntouched | visualization_app.py:101-117 | after select-all, boxes left as drawn give back every available region |
| Session.UntouchedPassIsStable | visualization_app.py:108-117 | a second pass with boxes left as drawn reproduces the selection |
| Session.ClearThenTickOne | visualization_app.py:104-117 | clear-all followed by ticking one available region selects exactly that region |
| Session.RegionSelection.constructor | visualization_app.py:94 | a new session holds no selection yet |
| Session.RegionSelection.Start | visualization_app.py:95-96 | the first run sets the selection to all available regions; later runs leave it as it is |
| Session.RegionSelection.SelectAll | visualization_app.py:101-102 | the selection becomes the full available list |
| Session.RegionSelection.ClearAll | visualization_app.py:104-105 | the selection becomes empty |
| Session.RegionSelection.ApplyCheckboxes | visualization_app.py:107-117 | the loop's result, stored as the selection, is CheckedRegions of the previous selection |
| Session.RegionSelection.Rerun | visualization_app.py:94-117 | one rerun: start, then the buttons, then the checkboxes; the result is what line 120 filters with |
| Session.FirstRerunShowsAll | visualization_app.py:95-117 | on the first rerun with no box touched, every available region is shown |

## Left out

- CSV loading (line 10) and dropping columns (line 14) are file I/O and schema handling. The model starts from a loaded table.
- Streamlit widgets, layout, dividers and markdown text (lines 6-7, 17-22, 25-26, 43-62, 80-84, 90, 99-113, 122, 143-151) are not modelled. The model keeps only their effect on the data: the slider's `n`, the view choice, the button states and what each checkbox returns.
- Plotly figure construction (lines 34-41, 72-78, 124-134) is a foreign charting library.
- The "Show raw data" preview (lines 18-20) changes no data.
- TopTowns: no order among towns with equal totals is claimed, because pandas' default sort is not stable. `groupby` also orders its groups by town name before sorting, and that order is not modelled.
- ValueCounts: no order among categories with equal counts is claimed.
- BubbleInsight: the means are exact rational quotients of sums over the row count. Floating-point rounding and the `:.2f`/`:.1f` formatting are left out.
- RegionFilter: a row whose region cell is not a string is dropped instead of raising. That case cannot be reached, because line 92 (AvailableRegions) has already failed on such a row.
- The pie labels for a number of categories other than two are `Raw(c)`. That stands for `str(c)`; turning an integer into text is not modelled.
- NaN semantics of pandas `sum`, `mean`, `max` and `idxmax` are left out. Hotel and restaurant counts are integers, the tourism index is a `real` that cannot be missing (so `mean()` skipping missing values does not arise), and a missing flag is `None`, which value counts skip.
- The checkbox widget state (`key=f"region_{region}"`) is kept by Streamlit, outside the script. The model takes it as the parameter `answer(region, checked)`.
- The region coordinate table, the treemap and the tourism-index range scatter belong to the repository's other dashboard file. That file is not part of this model.

## Findings

| source | as written | input that shows it | evidently intended | confidence | as-written member | corrected member |
|---|---|---|---|---|---|---|
| visualization_app.py:74 | With exactly two categories, the first count is named "No Restaurants" and the second "Has Restaurants". `value_counts()` orders categories by frequency, so the names follow frequency rather than category. | Flags 1, 1, 0: the counts are [(1, 2), (0, 1)], and the towns with restaurants are named "No Restaurants". | Each slice is named after its own category: 0 is "No Restaurants", 1 is "Has Restaurants". | medium (not executed; it holds whenever towns with restaurants outnumber those without) | Dashboard.RestaurantPieMislabel | Dashboard.IntendedRestaurantPie |
