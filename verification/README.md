# Nobel Prize dashboard core, in Dafny

This project models the data core of a Streamlit dashboard over the Nobel Prize award table
(`app.py`). One row is a laureate–award pairing: award year, category, sex, birth country,
laureate id and the `is_shared` flag. The model covers:

- `filter_data`: an inclusive year range, a category list where the empty list means "no
  restriction", and a gender and a country selector that each accept the sentinel `"All"`. The
  gender selector is lowercased before it is compared.
- `calculate_stats`: the total number of prizes, the distinct laureates, the distinct birth
  countries and the gender split.
- The tables behind every chart: prizes per category; the top 10/20/5 birth countries; laureates
  per (year, sex); solo against shared prizes; prizes per decade; and categories within the five
  leading countries.

The modules follow the dataflow of the program:

- `Seqs`: the pandas primitives. A boolean mask becomes `Where`, counting becomes `Count`, a column
  after `dropna` becomes `Column`, and `nunique` becomes `NUnique`.
- `Keys`: group keys and Python's ordering on them.
- `Tally`: grouped counts. `GroupSizes` is `groupby(...).size()`, `ValueCounts` is
  `value_counts()`, and `Take` is `head(n)`.
- `Records` and `Filter`: the row type and `filter_data`.
- `Stats`: `calculate_stats`.
- `Views`: the chart tables.
- `Dashboard`: one render, from the filtered table to every view.
- `Scenarios`: the unit tests' sample table and its assertions.

A table is a `seq<Record>`. A missing cell is `None`. A pandas result indexed by value (a `Series`
or a `dict`) is a list of `Entry(key, count)` with distinct keys. `CountOf(r, k)` reads such a list
the way `.get(k, 0)` does. The three kinds of group key (integer, string, pair) share one `Key`
type, so one tally and one sort serve every view. `KeyLess` is Python's order on them: integers
numerically, strings lexicographically by code point, and pairs lexicographically.

## Model

| member | source | states |
|---|---|---|
| Seqs.Where | app.py:31-34 | a boolean mask keeps exactly the elements satisfying the predicate, in their original order (a subsequence), as many as satisfy it; an all-true mask is the identity and an all-false mask is empty |
| Seqs.Column | app.py:55-57 | a column after `dropna`: one value per row with a present value, each value occurring once per such row and nothing else |
| Seqs.NUnique | app.py:55-56 | `nunique` is the size of the set of values and never exceeds the number of values |
| Seqs.WhereCommute | app.py:30-46 | two masks applied one after the other give the same rows in either order |
| Seqs.WhereNarrowing | app.py:30-46 | a mask that implies another selects a subsequence of what the other selects |
| Seqs.CountWhere | app.py:258-260 | counting a predicate among the rows a mask kept counts the conjunction over all rows |
| Seqs.CountDisjoint | app.py:214-216 | counts of two exclusive predicates add up to the count of their disjunction |
| Keys.KeyLessTransitive | app.py:171 | the key order used by `sort_index` and `groupby` is transitive |
| Keys.KeyLessTotal | app.py:171 | the key order is total: two distinct keys are always ordered one way or the other |
| Keys.KeyLessIrreflexive | app.py:171 | no key sorts before itself |
| Tally.Tally | app.py:57 | counting a column gives one entry per distinct value with exactly that value's number of occurrences; the counts sum to the column length |
| Tally.SortBy | app.py:171 | sorting a count is a permutation of its entries |
| Tally.SortSorted | app.py:171 | with distinct keys and a comparison that orders any two different keys, the sort is ordered under that comparison |
| Tally.SortKeys | app.py:171 | sorting keeps the keys distinct |
| Tally.SortCounts | app.py:171 | sorting keeps every key's count and the total |
| Tally.GroupSizes | app.py:195-197 | `groupby(...).size()`: keys strictly ascending, exactly the present values, each with its number of rows, summing to the rows with a present value |
| Tally.ValueCounts | app.py:57 | `value_counts()`: exactly the present values with their number of rows, counts non-increasing, equal counts ordered by the row where each value first occurs |
| Tally.RankedByCount | app.py:183 | a count sorted by rank has non-increasing counts and breaks ties by first appearance |
| Tally.FirstIndexFirstRow | app.py:183 | a value that comes earlier in the column than another first occurs in an earlier row of the table |
| Tally.TakeOmits | app.py:183 | a key `head(n)` leaves out of a ranked count means `n` entries were kept, the last counting at least as much as the omitted key |
| Tally.SameEntries | app.py:171 | two counts agreeing on every key's count hold the same entries |
| Records.Lower | app.py:42 | `str.lower` keeps the length and lowercases each ASCII capital, leaving every other character as it is |
| Filter.ByYear | app.py:31-34 | the year mask keeps exactly the rows with `min <= award_year <= max`, in order |
| Filter.ByCategory | app.py:37-38 | an empty list keeps every row; otherwise exactly the rows whose category is in the list |
| Filter.ByGender | app.py:41-42 | `"All"` keeps every row; otherwise exactly the rows whose sex equals the lowercased selector (a missing sex never matches) |
| Filter.ByCountry | app.py:45-46 | `"All"` keeps every row; otherwise exactly the rows whose birth country equals the selector (a missing country never matches) |
| Filter.FilterData | app.py:26-48 | a row is kept exactly when all four predicates hold; the result is a subsequence of the input and no longer than it |
| Filter.StagesAreMasks | app.py:36-46 | a stage the code skips (empty list, `"All"`) selects the same rows as applying its predicate |
| Filter.FilterIsConjunction | app.py:26-48 | the four successive masks equal the single mask of their conjunction |
| Filter.FilterOrderIrrelevant | app.py:30-46 | applying the stages in reverse order gives the same table |
| Filter.FilterEmptyYearRange | app.py:31-34 | a range with `min > max` selects nothing |
| Filter.EmptyCategoriesMeanAll | app.py:37-38 | an empty category list selects the same rows as a list naming every category present |
| Filter.FilterIdentity | app.py:26-48 | a covering range, covering (or empty) categories and `"All"` for gender and country return the table unchanged |
| Filter.FilterAbsentCategory | app.py:37-38 | a non-empty category list naming no present category selects nothing, without an error |
| Filter.GenderCaseInsensitive | app.py:41-42 | two gender selectors that lowercase alike select the same rows |
| Filter.GenderSelectorsLowercase | app.py:42 | the selectors `"Female"` and `"Male"` lowercase to the stored values `"female"` and `"male"` |
| Filter.FilterNarrowing | app.py:26-48 | narrowing any parameter (sub-range, sub-list of a non-empty list, a specific gender or country instead of `"All"`) yields a subsequence of the wider result |
| Stats.TotalLaureates | app.py:55 | the number of distinct non-missing laureate ids, at most the number of rows |
| Stats.CountriesCount | app.py:56 | the number of distinct non-missing birth countries, at most the number of rows |
| Stats.GenderSplit | app.py:57 | each sex value maps to its number of rows; no key appears twice; the keys are exactly the present sex values; the counts sum to the rows with a sex; an empty table gives an empty split |
| Stats.CalculateStats | app.py:51-59 | total prizes is the row count; distinct laureates and countries are the set sizes and at most the total; the gender split has distinct keys, exactly the present sex values, each with its exact count; an empty table gives zeros and an empty split |
| Views.CategoryCounts | app.py:171 | categories ascending, exactly the present ones, each with its number of rows, summing to the row count |
| Views.CategoryCountsReorderValueCounts | app.py:171 | `sort_index` only reorders `value_counts()`: the same entries |
| Views.Decade | app.py:226-228 | the decade is a multiple of ten with `decade <= year < decade + 10`, with floor division also for negative years |
| Views.DecadeUnique | app.py:226-228 | a multiple of ten whose ten-year span holds the year is that year's decade |
| Views.DecadeCounts | app.py:225-231 | decades strictly ascending multiples of ten, exactly the decades of the rows; each counts the rows with a year in its span; the counts sum to the row count |
| Views.GenderByYear | app.py:195-197 | (year, sex) keys ascending, exactly the present pairs, each counting its rows; rows without a sex drop out, so the counts sum to the rows with a sex |
| Views.SharingSplit | app.py:214-216 | the solo slice counts rows with `is_shared == 0`, the shared slice those with `is_shared == 1`, together at most the row count |
| Views.SharingSplitCoversAll | app.py:214-216 | when every row is marked 0 or 1, the two slices sum to the row count |
| Views.SharingAndDecades | app.py:209-231 | the sharing pie and the decade bars exist exactly when the `is_shared` column exists, with the exact slice counts and decade total; the panels are the sharing split and the per-decade counts of the same rows |
| Views.TopCountries | app.py:183 | at most `n` distinct countries, each present with its exact positive count, counts non-increasing, ties ordered by the row where each country first occurs; a present country left out means the list is full and the last listed count is at least its count |
| Views.TopCountriesPrefix | app.py:246-247 | the top-`m` list is the beginning of the top-`n` list for `m <= n` |
| Views.TopCountriesListed | app.py:255-257 | every listed country occurs in the table with its exact, positive number of rows |
| Views.TopCountriesUnlisted | app.py:183 | an occurring country that is not listed has no more rows than the last one listed, and the list is full |
| Views.CategoryByTopCountries | app.py:255-267 | (country, category) keys ascending, exactly the pairs of the rows born in a top-5 country; each pair counts its rows for a top-5 country and 0 otherwise; the counts sum to the rows born in a top-5 country |
| Views.CountCategoryInTop | app.py:258-267 | counting a (country, category) pair among the `isin(top_5)` rows is the pair's count when the country is in the top 5, else 0 |
| Dashboard.Render | app.py:101-267 | the filtered rows are exactly the matching ones, in table order and as many as match; every summary figure and chart table is the corresponding view of those rows; total prizes equals the row count and the category total; the gender line chart and the gender split count the same rows; the sharing and decade panels exist exactly with `is_shared`; a gender selection leaves only the selected sex in the split |
| Dashboard.RenderCountriesAgree | app.py:246-247 | the top-10 chart is the first ten rows of the top-20 table, and each respects its size |
| Dashboard.FemaleShare | app.py:123-126 | the women count and the women-plus-men count read from the gender split (0 when absent) are the numbers of rows with those sexes |
| Scenarios.YearRangeScenario | tests/test_app.py:26-30 | on the sample table, years 1902 to 1904 keep three rows, all inside the range |
| Scenarios.CategoryScenario | tests/test_app.py:32-35 | Physics keeps two rows, all Physics |
| Scenarios.GenderScenario | tests/test_app.py:37-40 | `"Female"` keeps two rows, all with sex `"female"` |
| Scenarios.CountryScenario | tests/test_app.py:42-45 | Germany keeps one row, born in Germany |
| Scenarios.AbsentCategoryScenario | tests/test_app.py:64-68 | Economics keeps nothing |
| Scenarios.AllCategoriesScenario | tests/test_app.py:71-75 | listing every sample category returns the whole sample |
| Scenarios.StatsScenario | tests/test_app.py:48-61 | five prizes, five laureates, five countries, three men and two women |
| Scenarios.SharingScenario | tests/conftest.py:30 | the sample's `is_shared` column gives three solo and two shared prizes |
| Scenarios.SampleLaureates | tests/conftest.py:22 | the sample holds five distinct laureate ids |
| Scenarios.SampleCountries | tests/conftest.py:14 | the sample holds five distinct birth countries |

## Left out

- The page configuration, the sidebar widgets, the tabs, metrics, captions and the control flow of `main` (app.py:9-14, 63-286) are user interface. `Dashboard.Render` keeps only the data flow from the selections to the tables.
- The Plotly figures (app.py:172-276) are drawing only. Each chart's input table is modelled.
- `load_data` and its cache (app.py:17-23) are file I/O. The model starts from a loaded table whose `award_year` is already an integer. The source does not check for missing columns or raise any load error of its own; a missing file surfaces only as the pandas exception.
- The CSV export (app.py:155) and the displayed column selection (app.py:142-152) are output formatting.
- Dashboard.FemaleShare: gives the numerator and denominator of the "Female %" metric, not the floating-point percentage or its one-decimal formatting (app.py:126-127).
- The columns `known_name`, `motivation` and `prize_amount` are not modelled. The core only passes them through.
- Records.Lower: lowercases ASCII letters only. Python's `str.lower` also maps non-ASCII capitals, but the selectors the dashboard offers are ASCII.
- Tally.ValueCounts: equal counts are ordered by first appearance in the column. This is the usual outcome of pandas' stable count sort, but pandas does not promise that tie order.
- Views.SharingSplit: models `is_shared` as an integer cell holding 0 or 1 (or another integer). A boolean `is_shared` column is not modelled: on a boolean index pandas may read `get(0, 0)` and `get(1, 0)` (app.py:214-216) by position rather than by label.
- Column presence is modelled only for `is_shared`, as the `hasSharedColumn` flag. The other columns the core reads are always present in the model.
- `tests/test_integration.py` exercises the running web application and is not part of this model.
