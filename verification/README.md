# GenAI Education Dashboard: query layer

This project models the pure query layer of the dashboard in `src/utils.py`. The layer has four operations:

- `apply_filters`: narrows the survey table by up to eight categorical selections.
- `calculate_kpis`: reduces a table to the headline indicator dictionary.
- `get_filter_options`: builds the sidebar's dropdown choices.
- `get_theme_colors`: picks a colour palette.

The model is split into these modules:

- `Records` (`records.dfy`): the table.
  - One `Row` per institution and survey quarter.
  - Categorical cells that pandas can hold as NaN are `Option<string>`.
  - The year is an `int` and the metrics are exact `real`s.
- `Filters` and `FilterLaws` (`filters.dfy`): the filter step.
  - `ApplyFilters` applies the eight `isin` checks in the source's order.
  - A `None` or empty selection skips its check.
  - A missing cell never passes an active check.
  - `Select` is a one-pass reference definition. The laws relate `ApplyFilters` to it.
- `Kpis` and `KpiLaws` (`kpis.dfy`): the indicator dictionary.
  - The result is a `map<KpiName, Kpi>`. Each `Kpi` holds a value and an optional delta; `None` is the "no data" delta.
  - The empty table gives the eight zero entries. A non-empty table gives all twelve.
- `Ordering` (`ordering.dfy`): sorting for the dropdown lists.
  - Python's string order is modelled as code-point lexicographic order.
  - Sorting is insertion into a strictly sorted list, generic in a strict total order.
  - Two strictly sorted lists with the same elements are proved equal.
- `FilterOptions` and `FilterOptionLaws` (`options.dfy`): the dropdown lists.
- `Theme` and `ThemeLaws` (`theme.dfy`): the two palettes.
- `Scenario` (`examples.dfy`): a worked example.
  - A three-row table is filtered to Europe.
  - The lemmas prove the remaining rows, their mean adoption and their year-over-year delta.
- `Wrappers` (`wrappers.dfy`): the `Option` type.

## Model

| member | source | states |
|---|---|---|
| Filters.ApplyFilters | src/utils.py:150-189 | The result is a subsequence of the input, in input order, and no longer than the input. A row is kept exactly when it is in the input and passes every active selection. |
| Filters.With | src/utils.py:150-160 | Setting one keyword argument changes that dimension's selection and leaves the other seven as they were. |
| Filters.KeepIsIn | src/utils.py:165-187 | One `isin` mask keeps exactly the rows whose cell is present and listed, and is no longer than its input. |
| Filters.Narrow | src/utils.py:165-187 | One step of `apply_filters` keeps exactly the rows that pass its check; an inactive selection passes every row. |
| Filters.ApplyInOrderIsSelect | src/utils.py:163-189 | Applying the checks one after another in any order equals the one-pass selection over the set of dimensions checked. |
| Filters.NarrowThenSelect | src/utils.py:165-166 | A single `isin` step followed by the remaining checks equals one pass with that dimension added. |
| Filters.SelectMembers | src/utils.py:165-187 | A row survives the one-pass selection exactly when it is in the input and passes every check. |
| Filters.SelectIsSubsequence | src/utils.py:165-187 | Masking rows never reorders or invents rows. |
| Filters.SelectNothing | src/utils.py:163 | With no checks, the copy equals the input. |
| Filters.SubsequenceNoLonger | src/utils.py:165-187 | A subsequence is no longer than the sequence it comes from. |
| Filters.EveryDimension | src/utils.py:165-187 | The eight checks of the source cover every filterable dimension. |
| FilterLaws.ApplyFiltersIsSelect | src/utils.py:150-189 | `apply_filters` equals the one-pass reference selection. |
| FilterLaws.NoSelectionKeepsAll | src/utils.py:163-189 | When no selection is active, the input comes back unchanged. |
| FilterLaws.EmptySelectionIsNoSelection | src/utils.py:165 | An empty list and `None` have the same effect: the dimension is unfiltered, not emptied. |
| FilterLaws.SelectionIsASet | src/utils.py:166 | Only the members of a selection matter, not their order or repetition. |
| FilterLaws.ApplyFiltersIdempotent | src/utils.py:150-189 | Filtering an already filtered table with the same selections changes nothing. |
| FilterLaws.CheckOrderIrrelevant | src/utils.py:163-189 | Any order of the checks that covers all eight dimensions gives the source's result. |
| FilterLaws.CoveringOrder | src/utils.py:163-189 | An order that lists every dimension checks the whole dimension set. |
| FilterLaws.SelectCongruent | src/utils.py:165-187 | Two one-pass selections that agree on every row give the same rows. |
| FilterLaws.SelectSelect | src/utils.py:165-187 | Two successive selections equal one selection by the conjunction of their checks. |
| FilterLaws.IntersectRow | src/utils.py:165-169 | With region and country both selected, a row passes exactly when both its region and its country are listed. |
| FilterLaws.RegionAndCountryIntersect | src/utils.py:165-169 | Region and country selections intersect. Filtering by both equals filtering by region then country, and by country then region. |
| FilterLaws.CoveringCountriesAreRedundant | src/utils.py:168-169 | A country selection that lists the country of every otherwise surviving row changes nothing. |
| Records.Observed | src/utils.py:137 | `dropna` keeps exactly the present values of a column and is no longer than the column. |
| Ordering.LexLessIsStrictTotalOrder | src/utils.py:137 | Python's string comparison, used by `sorted`, is irreflexive, transitive and total. |
| Ordering.LexLessIrreflexive | src/utils.py:137 | No string sorts before itself. |
| Ordering.LexLessTransitive | src/utils.py:137 | String order is transitive. |
| Ordering.LexLessConnected | src/utils.py:137 | Of two different strings, one sorts before the other. |
| Ordering.LexLessFirstDifference | src/utils.py:137-145 | The string order used by `sorted` puts `a` before `b` exactly when `a` is a proper prefix of `b`, or `a` has the smaller code point where they first differ. This is Python's `str` order, stated without recursion. |
| Ordering.Insert | src/utils.py:137 | Inserting into a strictly sorted list keeps it strictly sorted and adds exactly the new value. |
| Ordering.SortedUnique | src/utils.py:137 | `sorted(unique(xs))` is strictly ascending and holds exactly the values of `xs`. |
| Ordering.HeadIsLeast | src/utils.py:137 | The head of a strictly sorted list is below every other element. |
| Ordering.SameMembersSameEmptiness | src/utils.py:137 | Lists with the same members are empty together. |
| Ordering.StrictlySortedUnique | src/utils.py:137 | Two strictly sorted lists with the same members are equal. |
| FilterOptions.ObservedChoices | src/utils.py:137-140 | A data-derived option list is strictly ascending and holds exactly the values present in its column. |
| FilterOptions.YearChoices | src/utils.py:146 | The year options are strictly ascending and hold exactly the years occurring in the table. |
| FilterOptions.GetFilterOptions | src/utils.py:134-147 | Region, country, type, discipline and quarter list their present values, ascending and without repeats. The years do the same. Size, funding and stance are the fixed lists of 4, 3 and 4 entries, whatever the data. |
| FilterOptionLaws.ChoicesAreDetermined | src/utils.py:137-145 | Any ascending, repeat-free list of exactly the present values is the option list: it depends on the set of values alone. |
| FilterOptionLaws.ChoicesIgnoreRowOrder | src/utils.py:137-145 | Tables with the same rows, in any order or multiplicity, offer the same options. |
| FilterOptionLaws.SortedListSize | src/utils.py:138 | A repeat-free list is as long as the set of its elements. |
| FilterOptionLaws.CountryChoicesMatchCountryCount | src/utils.py:138 | The country dropdown has exactly as many entries as the `total_countries` count over the same table. |
| FilterOptionLaws.YearChoicesMatchDeltas | src/utils.py:146 | The deltas are defined exactly when 2023 and 2024 are both among the year options. |
| FilterOptionLaws.AllChoicesRow | src/utils.py:137 | Under a selection of every present value of a column, a row passes exactly when its cell is present. |
| FilterOptionLaws.AllChoicesKeepPresentCells | src/utils.py:137 | Selecting every option of a data-derived column keeps exactly the rows whose cell is present. A column with no present value offers an empty list, and selecting it filters nothing. |
| FilterOptionLaws.SomePresentCells | src/utils.py:137 | When the column has a present value, selecting all its options keeps exactly the rows whose cell is present. |
| FilterOptionLaws.NoPresentCells | src/utils.py:137 | When the column has no present value, its option list is empty, and selecting it returns the table unchanged. |
| Kpis.CalculateKpis | src/utils.py:196-270 | An empty table gives exactly the eight listed keys, each worth 0 with no delta. Any other table gives all twelve keys. |
| Kpis.Dictionary | src/utils.py:221-270 | The non-empty dictionary has exactly the twelve keys the source returns. |
| Kpis.Summarize | src/utils.py:206-270 | For a non-empty table, the institution count is between 1 and the row count. The country count is at most the row count, and at least 1 exactly when some country is present. Each percentage lies in [0, 100]. It is 0 exactly when no row passes its test and 100 exactly when every row does. Each delta is present exactly when both 2023 and 2024 occur. |
| Kpis.Distinct | src/utils.py:223 | `nunique` counts a set holding exactly the column's values, no larger than the column. |
| Kpis.Mean | src/utils.py:231 | `mean` times the row count gives back the column sum: every row weighs the same. |
| Kpis.InstitutionCount | src/utils.py:223 | `total_institutions` is the number of distinct institution ids. It is at most the row count, and at least 1 for a non-empty table. |
| Kpis.CountryCount | src/utils.py:227 | `total_countries` is the number of distinct present countries. It is at most the row count, and at least 1 exactly when some row has a country. |
| Kpis.CountWhere | src/utils.py:255-259 | The count of rows meeting a test is at most the row count. It equals the row count exactly when every row passes, and 0 exactly when none does. |
| Kpis.Percent | src/utils.py:255-259 | The mean of a boolean column times 100 lies in [0, 100]. It is 100 exactly when every row passes and 0 exactly when none does. |
| Kpis.RowsOfYear | src/utils.py:213-214 | A year subset is no longer than the table. |
| Kpis.RowsOfYearMembers | src/utils.py:213-214 | The year subset holds exactly the table's rows of that year. |
| Kpis.YearPresence | src/utils.py:207-216 | A year occurs in the `year` column exactly when its subset is non-empty. |
| Kpis.YearOverYear | src/utils.py:207-219 | A delta is present exactly when both 2023 and 2024 occur in the table. |
| KpiLaws.DistinctCountKpis | src/utils.py:222-229 | Over a non-empty table, `total_institutions` is the number of distinct institution ids and `total_countries` the number of distinct present countries, neither with a delta. The first lies in [1, n] and the second in [0, n]. The second is at least 1 exactly when some row has a country. |
| KpiLaws.HighAdoptionKpi | src/utils.py:258-261 | `high_adoption_pct` lies in [0, 100]. It is 100 exactly when every adoption rate is at least 45, with 45 itself counting. |
| KpiLaws.IntegratedPolicyKpi | src/utils.py:254-257 | `integrated_policy_pct` lies in [0, 100]. It is 0 exactly when no stance is exactly "Integrated"; a missing stance counts as not integrated. |
| KpiLaws.PercentageKpis | src/utils.py:254-261 | Each percentage entry is 100 times the number of rows passing its test, divided by the row count. The tests are adoption of at least 45 and a stance of exactly "Integrated". |
| KpiLaws.CountWhereAppend | src/utils.py:255-259 | Counts of passing rows add up over a concatenation of tables. With the one-row cases fixed by `Kpis.CountWhere`, this pins the count. |
| KpiLaws.DeltaKpis | src/utils.py:207-270 | Only the adoption, literacy and incident entries can carry a delta. Each carries one exactly when both 2023 and 2024 occur, so "no data" is never confused with a zero change. |
| KpiLaws.DeltaValue | src/utils.py:212-241 | The adoption, literacy and incident deltas are the year-over-year changes of their own columns. |
| KpiLaws.SumWithinRange | src/utils.py:231 | With every value in [lo, hi], a column sum lies between `n * lo` and `n * hi`. |
| KpiLaws.MeanWithinRange | src/utils.py:231 | A mean lies within the range of its values. |
| KpiLaws.AverageKpiWithinRange | src/utils.py:230-253 | Every averaged KPI lies between the smallest and largest value of its column. |
| KpiLaws.AverageKpiValue | src/utils.py:230-269 | Every averaged entry is its column's sum over all rows divided by the row count: a plain per-row mean. |
| KpiLaws.SumAppend | src/utils.py:231 | Column sums add up over a concatenation of tables. |
| KpiLaws.MeanOfConcatenation | src/utils.py:231 | The mean of two tables put together is the row-count-weighted mean of their means, so each row weighs the same. |
| KpiLaws.YearOverYearValue | src/utils.py:212-219 | With both years present, both subsets are non-empty. The delta is the 2024 subset's mean minus the 2023 subset's. |
| KpiLaws.YearOverYearWithinSpread | src/utils.py:217-219 | A delta lies within plus or minus the spread of its column. |
| KpiLaws.RowsOfYearAppend | src/utils.py:213-214 | The year subset of a concatenation is the concatenation of the year subsets. |
| KpiLaws.NoRowsOfYear | src/utils.py:213-214 | A table without a year has an empty subset for it. |
| KpiLaws.YearOverYearIgnoresOtherYears | src/utils.py:207-219 | Adding rows of years other than 2023 and 2024 changes no delta, the "no data" case included. |
| Theme.ThemeColors | src/utils.py:82-84 | A known theme name gives its own palette and any other name the dark one. The result always defines all fifteen colour roles, with transparent chart backgrounds. |
| ThemeLaws.LightOnlyByName | src/utils.py:82-84 | The light palette is chosen exactly for the name "light"; every other name gets the dark palette. |
| ThemeLaws.PalettesDifferOutsideBackgrounds | src/utils.py:17-52 | The two palettes differ in every role except the two transparent chart backgrounds. |
| Scenario.EuropeOnlyRow | src/utils.py:165-166 | Under a Europe-only selection, a row passes exactly when its region is Europe. |
| Scenario.EuropeFilter | src/utils.py:165-166 | Filtering the three-row table to Europe keeps its two Europe rows, in order. |
| Scenario.EuropeSelect | src/utils.py:165-166 | The one-pass selection of the three-row table keeps the two Europe rows. |
| Scenario.EuropeInstitutions | src/utils.py:223 | Two rows of one institution hold one distinct id. |
| Scenario.AdoptionOfOne | src/utils.py:231 | A one-row column sums and averages to its value. |
| Scenario.EuropeAdoptionMean | src/utils.py:231 | Adoption rates of 40 and 60 average to 50. |
| Scenario.EuropeAdoptionDelta | src/utils.py:212-217 | A 2023 row at 40 and a 2024 row at 60 give an adoption delta of 20. |
| Scenario.EuropeKpis | src/utils.py:221-233 | The Europe rows give one institution and average adoption 50, with delta 20. |
| Scenario.ThresholdIsInclusive | src/utils.py:259 | A single row at exactly 45 adoption gives a high-adoption share of 100. |
| Scenario.StanceMatchIsExact | src/utils.py:255 | Rows whose stance is "integrated" in lower case, or missing, give an integrated share of 0. |
| Scenario.EmptyTableKpis | src/utils.py:199-204 | The empty table's dictionary has eight entries, with `total_institutions` at 0 and no delta. |

## Left out

- `load_data` is left out: it reads a CSV from disk, converts column types and reports errors to the UI. The model starts from the loaded rows.
- `format_number` and `get_download_filename` are left out. They are presentation helpers outside the query layer.
- `app.py` and `src/charts.py` are left out: the page layout, the Streamlit widgets, the Plotly charts, and the correlation and group-by aggregation they draw from the filtered rows.
- The colour maps for regions, policy stances and institution types are left out. The dashboard's filters and KPIs never read them.
- Floating point: every metric is an exact real, so rounding in `mean` and in the percentage products is not modelled.
- Missing metric values: pandas' `mean` skips NaN, but the model's metrics are always present. Missing years are not modelled either: every row's year is an integer.
- Kpis.InstitutionCount: every row is assumed to carry an institution id. `load_data` neither supplies nor checks the id, and `nunique` skips NaN. If every id were missing, the source's count would be 0, so the `>= 1` bound holds only under this assumption about the data.
- The empty table's entries are worth `0` (a Python `int`) in the source; the model stores `0.0` like every other value.
- On an empty table, the code returns eight entries worth 0. There is no country count and no training, maturity or infrastructure average. The model follows the code.
- Kpis.YearOverYear: the source also checks `len(...) > 0` on both year subsets. That check cannot fail once both years occur; the model keeps it and proves it redundant (`Kpis.YearPresence`).
- The cached decorator on `load_data` and any Streamlit session state are not modelled.
