# Portugal wildfire dashboard: the aggregation layer

The dashboard (`f.py`) is a single script that loads three tables, computes a
few aggregates and hands them to map, chart and widget libraries. This project
models the aggregates and proves what they promise:

- **Choropleth bins** (`Binning`): six boundaries
  `min + i * (max - min) / 5`, `i = 0..5`, over the per-region `Burned_Are`
  column, the classes of the burned-area map.
- **Yearly filter** (`YearFilter`): the rows of the yearly series whose `Year`
  the user picked in the multiselect, which by default holds every year of the
  series.
- **Region panel** (`RegionSummary`): the sums of `Burned_Are` and `of_Fires`
  over every row of the per-region table whose `Region` is the selected one.
- **Region selectors** (`RegionSelector`, `Strings`): the list of choices of the
  two sidebar select boxes (unique regions, for one of them preceded by `''`),
  sorted in place, and the position each box starts on.

`Tables` holds the records (`YearRecord(year, area)`,
`RegionRow(region, burned, fires)`) and boolean-mask row selection
`Where(rows, mask)`, the `df[mask]` both filters use. Each filter builds its
mask (`YearMask` for `Year.isin(selected)`, `RegionMask` for
`Region == region`) and selects through `Where`. Sums of an empty selection are
zero, as with `Series.sum()`.

The string order is Python's `str` comparison: lexicographic by code point,
with a proper prefix before any longer string. `Strings.Sort` is an insertion
sort on an `array<string>` that sorts in place, as `list.sort()` does. Its
contract is the result `list.sort()` guarantees: sorted, and a permutation of
the input. The algorithm is not CPython's. Stability does not matter here,
because equal strings are indistinguishable.

`display_state_filter` (`f.py:80-84`) is defined but never called by the
script. It is modelled all the same.

The select box's answer comes from the user. `DisplayFireFilters` takes it as a
parameter `pick`, which is `None` while the box is still on its default entry.
When the table is empty, there is no entry to select. The model then selects
nothing and shows zero totals, which is what the masked sums give when no row
matches.

## Model

| member | source | states |
|---|---|---|
| `Binning.Min` | f.py:21 | the minimum is a value of the column and no value is smaller |
| `Binning.Max` | f.py:22 | the maximum is a value of the column and no value is larger |
| `Binning.Bins` | f.py:20-24 | exactly 6 boundaries; the first is the column's minimum, the last its maximum; consecutive boundaries are exactly `(max - min) / 5` apart |
| `Binning.StepIsWidth` | f.py:23-24 | boundary `i + 1` exceeds boundary `i` by one interval width, for every `i` |
| `Binning.BinsOrdered` | f.py:23-24 | boundaries never decrease, and `bins[i] < bins[j]` for `i < j` if and only if max > min |
| `Binning.BinsDegenerate` | f.py:21-24 | when every burned area equals `v`, all six boundaries equal `v` |
| `Binning.BinsCoverColumn` | f.py:21-24 | every burned area lies within one of the five intervals `[bins[k], bins[k+1]]` |
| `Tables.Where` | f.py:116 | `df[mask]` has exactly as many rows as the mask has true entries; `WhereSelects` characterises which rows and in what order |
| `Tables.WhereSelects` | f.py:116 | `df[mask]` is the order-preserving subsequence of exactly the rows whose mask entry is true: kept positions increase, each is true, every true one is kept |
| `Tables.WhereAll` | f.py:116 | an all-true mask returns the table unchanged |
| `Tables.WhereNone` | f.py:116 | an all-false mask returns the empty table |
| `Tables.WhereAppend` | f.py:91-92 | selecting from two stacked tables stacks the two selections |
| `YearFilter.FilterYears` | f.py:116 | with the mask `YearMask` (`Year.isin(selected)`), the chart shows no more records than the series holds; every record shown has a selected year, and every record with a selected year is shown |
| `YearFilter.FilterYearsSelects` | f.py:116 | the filtered series is the order-preserving subsequence of the records, and a record is kept if and only if its year is selected |
| `YearFilter.FilterYearsNone` | f.py:116 | the empty selection gives the empty series |
| `YearFilter.FilterYearsDefault` | f.py:109-116 | the default selection `AllYears`, the set of years of the series, gives the whole series, unchanged and in order |
| `YearFilter.FilterYearsSuperset` | f.py:116 | any selection containing every year of the series gives the whole series |
| `YearFilter.FilterYearsAppend` | f.py:116 | filtering stacked series filters each part and stacks the results |
| `YearFilter.FilterYearsTwice` | f.py:116 | filtering by one selection and then another equals filtering by their intersection |
| `RegionSummary.Summarize` | f.py:91-92 | the sums over the rows picked by `RegionMask` (`Region == region`) equal an independent row-by-row tally that adds each matching row's burned area and fires |
| `RegionSummary.TotalsAppend` | f.py:91-92 | the sums of two stacked tables are the sums of each, added |
| `RegionSummary.SummarizeAppend` | f.py:91-92 | a region's figures over two stacked tables are the sums of its figures over each, so duplicate rows add up |
| `RegionSummary.SummarizeMissing` | f.py:91-92 | a region that no row names gets (0, 0) |
| `RegionSummary.SummarizeSnoc` | f.py:91-92 | appending a row adds its burned area and fires to its own region's figures only |
| `RegionSummary.SummarizeIgnoresOthers` | f.py:91-92 | rows of other regions leave a region's figures unchanged |
| `RegionSummary.SummarizeSingle` | f.py:91-92 | a region named by exactly one row gets exactly that row's burned area and fires figure |
| `RegionSummary.PanelsPartitionTable` | f.py:88-92 | summed over a duplicate-free list of names covering every region, the figures equal the totals of the whole table |
| `RegionSummary.SummarizeExample` | f.py:91-92 | with rows Alentejo (100, 5) and Algarve (50, 2), Alentejo gets (100, 5) and a missing name gets (0, 0) |
| `Strings.StrLeReflexive` | f.py:82 | every string is ordered at or below itself |
| `Strings.StrLeTotal` | f.py:82 | any two strings are comparable, so the sort order is total |
| `Strings.StrLeTransitive` | f.py:89 | the string order is transitive |
| `Strings.Sort` | f.py:89 | sorting in place leaves the array in ascending order and a permutation of what it held |
| `RegionSelector.Unique` | f.py:81 | `unique()` is duplicate-free and holds exactly the values of the column |
| `RegionSelector.IndexOf` | f.py:83 | `list.index(x)` is a position holding `x`, and no earlier position holds `x` |
| `RegionSelector.DistinctMultiset` | f.py:81-82 | a list is duplicate-free if and only if no value occurs in it more than once |
| `RegionSelector.DisplayStateFilter` | f.py:80-84 | the choices are `''` plus the unique regions, sorted, and `''` comes first. The index is always in range. For a non-empty region name on the list, the index is its first position; otherwise it is 0. The list is duplicate-free if and only if no region is named `''` |
| `RegionSelector.DisplayFireFilters` | f.py:87-92 | the choices are sorted, duplicate-free and exactly the values of the `Region` column (`Regions`). Untouched, the box selects the last choice, which no region exceeds. The panel shows the selected region's sums, and nothing is selected and (0, 0) shown for an empty table |
| `RegionSelector.PanelsCoverTable` | f.py:88-92 | the panels of all the regions the fire selector offers add up to the totals of the whole table: every row is shown under exactly one choice |

## Left out

- Loading the GeoJSON and the two CSV files (`f.py:8-13`): file I/O through geopandas and pandas. The model starts from the loaded columns.
- Assigning a coordinate reference system when the boundaries carry none (`f.py:17-18`): a geopandas call.
- Region centroids and the label markers on the map (`f.py:56-64`): floating-point geometry inside shapely.
- All rendering: the folium map, choropleth and border layers (`f.py:27-54`), the plotly charts (`f.py:15`, `f.py:119-128`, `f.py:140-150`), and the Streamlit widgets, columns and HTML (`f.py:65-78`, `f.py:93-104`, `f.py:107-108`, `f.py:151`). The multiselect call itself (`f.py:111`) is a widget; its default, every year of the series, is modelled by `AllYears`. The select box's answer is a parameter of `DisplayFireFilters`.
- Binning.Bins: the arithmetic is over `real`. With IEEE-754 doubles, the last boundary can differ from the maximum in the last bit, so a value could fall just outside the last interval. The model does not capture this.
- Binning.Bins: requires a non-empty column without missing values. pandas would give NaN boundaries for an empty column, and would skip NaN values in `min`, `max` and `sum`. NaN is not modelled.
- RegionSummary.Summarize: `of_Fires` and `Burned_Are` are both modelled as `real`, since `of_Fires` is a per-km² ratio and so fractional. Floating-point rounding of the sums is not modelled.
- RegionSelector.DisplayFireFilters: a missing `Region` value (NaN) in the table makes Python's sort at `f.py:89` fail. The model's regions are always strings, so this failure is not modelled.
- RegionSelector.DisplayStateFilter: `state_name` is a string, and `''` stands for every falsy value (`None` is not modelled). A missing `Region` value (NaN), which makes Python's sort fail, is not modelled either.
- The `'{:,}'` thousands-separator formatting of the two panel figures (`f.py:95`, `f.py:101`): Python format-spec behaviour.
- The monthly CO table (`f.py:130-136`): constant data with no logic.
