# Solar irradiance country comparison — verified model

This project models the statistics core of a small solar-irradiance dashboard
in Dafny. The dashboard merges measurement tables from several countries
(Benin, Sierra Leone, Togo). It then compares the countries on three
irradiance channels: GHI (global horizontal), DNI (direct normal) and DHI
(diffuse horizontal). The core lives in `app/utils.py` and does four things:

- **summary table** (`calculate_statistics`): one row per country, in order
  of first appearance. Each row holds the mean, median, minimum and maximum
  of the metric over the present readings, plus a count of all the
  country's rows.
- **test selection** (`perform_statistical_tests`): for each of GHI, DNI
  and DHI, it keeps the selected countries that have data. With fewer than
  two such groups it reports "Insufficient data". Otherwise it runs ANOVA
  when every group passes the normality test and Kruskal-Wallis when one
  does not. The result is significant when the p-value is below 0.05.
- **ranking** (`get_country_ranking`): the countries ordered by mean,
  highest first. Countries without data come last.
- **filter** (`filter_by_country`): the rows of the selected countries, in
  table order.

A table is a `seq<Row>`. Each row holds a country label and three readings
of type `Option<real>`, where `None` is a missing (NaN) cell. Arithmetic is
exact (`real`). The Shapiro-Wilk, ANOVA and Kruskal-Wallis computations are
outside the model. They are passed in as oracles (`StatTests.Oracles`) that
map groups of readings to a p-value, and that p-value may be NaN. As in
Python, a NaN p-value compares false both ways.

Modules: `Wrappers` (Option), `Seqs` (order-preserving filter, duplicates),
`Frame` (rows, column selection, distinct labels), `Describe` (statistics
that skip missing cells), `Summary`, `StatTests`, `Ranking`,
`CountryFilter`.

The two routines that loop in the source are methods with loop invariants.
`Summary.CalculateStatistics` loops over countries and appends rows.
`StatTests.PerformStatisticalTests` loops over metrics and fills the result
map. Its per-metric body is `TestMetric`, which calls two methods:
`CollectGroups` (the loop over countries that appends groups) and
`ChooseTest`. Each method is
proved against a specification function (`Summary.SummaryTable`,
`StatTests.Qualifying`, `StatTests.Decide`, `StatTests.Compare`), and the
properties are proved about those functions. The ranking and the filter are
single expressions in the source, so they are pure functions here.

Three facts about the code shape the model:
- `perform_statistical_tests` has no variance-homogeneity gate, no effect
  size and no post-hoc step. It returns only the test name, the p-value and
  the significance flag for each metric.
- `get_country_ranking` returns means only. The `ci_low` and `ci_high`
  fields that app/main.py:217 reads are never produced.
- The summary `Count` is `len` of the country's column, so it covers every
  row of the country, missing readings included.

## Model

| member | source | states |
|---|---|---|
| `Summary.CalculateStatistics` | app/utils.py:39-59 | the table is the summary of each distinct country label, one row each and no other rows; countries appear without duplicates, all labels of the table are covered, and rows are ordered by each country's first row in the table |
| `Summary.DistinctCountries` | app/utils.py:45 | a table whose country column is the distinct labels has no duplicate country, covers exactly the table's labels, and follows first-appearance order |
| `Frame.Distinct` | app/utils.py:45 | the distinct labels contain no duplicate and contain exactly the labels occurring in the table |
| `Frame.DistinctFirstAppearance` | app/utils.py:45 | the distinct labels are listed in the order of each label's first occurrence |
| `Frame.Column` | app/utils.py:46 | the selected column of a country has one cell per row carrying the label, missing cells included |
| `Frame.ColumnIsSelection` | app/utils.py:46 | a country's column is the metric projection of the rows whose label equals the country, in row order |
| `Frame.ColumnCount` | app/utils.py:46 | each cell value occurs in a country's column exactly as often as the country's rows carry it |
| `Frame.ColumnCells` | app/utils.py:46 | a cell is in a country's column exactly when some row with that label carries it |
| `Summary.CountIncludesMissing` | app/utils.py:55 | `Count` is the number of rows with the label, missing readings included, and is at least the number of present readings |
| `Summary.SummaryBounds` | app/utils.py:50-54 | the mean, median, minimum and maximum are present exactly when a row of the country has a present reading; then min <= mean <= max and min <= median <= max |
| `Summary.Readings` | app/utils.py:46-54 | the statistics are computed from exactly the present cells of the country's rows: a reading is used exactly when such a row carries it, and as many times as such rows carry it |
| `Summary.HasReading` | app/utils.py:50-54 | a country has statistics exactly when one of its rows has a present cell |
| `Summary.MissingRowOnlyCounts` | app/utils.py:46-55 | inserting a row with a missing reading at any position raises its country's count by one and leaves mean, median, min and max unchanged |
| `Describe.Present` | app/utils.py:74 | dropping the missing cells never yields more readings than cells |
| `Describe.PresentCount` | app/utils.py:74 | each reading survives dropping the missing cells exactly as often as a cell holds it |
| `Describe.Mean` | app/utils.py:50 | the mean is missing exactly when the column has no present reading, and otherwise lies between the least and the greatest present reading |
| `Describe.Median` | app/utils.py:51 | the median is missing exactly when the column has no present reading, and otherwise lies between the least and the greatest present reading |
| `Describe.Min` | app/utils.py:53 | the minimum is missing exactly when the column has no present reading, and otherwise is a present reading no greater than any other |
| `Describe.Max` | app/utils.py:54 | the maximum is missing exactly when the column has no present reading, and otherwise is a present reading no less than any other |
| `Describe.PresentMembers` | app/utils.py:50-54 | a reading is among the present readings exactly when a non-missing cell holds it |
| `Describe.MinOf` | app/utils.py:53 | the minimum is one of the readings and is no greater than any reading |
| `Describe.MaxOf` | app/utils.py:54 | the maximum is one of the readings and is no less than any reading |
| `Describe.SortAsc` | app/utils.py:51 | the median's ordering step returns the readings ascending and as a permutation of the input |
| `Describe.MeanOfBetween` | app/utils.py:50-54 | the mean of a non-empty sample lies between its minimum and its maximum |
| `Describe.MedianOfBetween` | app/utils.py:51-54 | the median of a non-empty sample lies between its minimum and its maximum |
| `Describe.MissingCellIgnored` | app/utils.py:50-54 | a missing cell inserted at any position changes none of mean, median, minimum and maximum |
| `StatTests.PerformStatisticalTests` | app/utils.py:61-106 | the result has exactly the keys GHI, DNI and DHI, and each holds the verdict of the decision table on that metric's qualifying groups |
| `StatTests.TestMetric` | app/utils.py:70-104 | the verdict for one metric is the comparison of the selected countries on that metric |
| `StatTests.CollectGroups` | app/utils.py:70-77 | the collected country names are the qualifying countries in selection order, and the groups are their present readings |
| `StatTests.ChooseTest` | app/utils.py:79-104 | the verdict computed from the normality p-values is the one the decision table prescribes |
| `StatTests.Decide` | app/utils.py:79-104 | insufficient data exactly when fewer than two groups, then no p-value and not significant; ANOVA exactly when at least two groups and every normality p-value exceeds 0.05, with the ANOVA p-value; otherwise Kruskal-Wallis with its p-value; significant exactly when the p-value is below 0.05 |
| `StatTests.Qualifying` | app/utils.py:73-77 | the qualifying countries are no more than the selected ones, and a country qualifies exactly when it is selected and has a present reading |
| `StatTests.QualifyingCountries` | app/utils.py:73-77 | the groups come from a subsequence of the selected countries; a selected country contributes exactly when one of its rows has a present reading, and then as many times as it was selected |
| `StatTests.GroupReadings` | app/utils.py:74-76 | each group holds exactly its country's present readings of the metric, each as many times as the country's rows carry it |
| `StatTests.Compare` | app/utils.py:70-104 | a metric has insufficient data exactly when fewer than two selected countries have a present reading, and then no p-value and not significant; otherwise a p-value is reported and significance means it is below 0.05 |
| `StatTests.CountryWithoutDataIgnored` | app/utils.py:73-77 | selecting one more country with no present reading changes no verdict |
| `StatTests.OraclesConsulted` | app/utils.py:79-98 | with fewer than two groups the verdict depends on no test; with ANOVA chosen it does not depend on Kruskal-Wallis, and the reverse |
| `Ranking.CountryMeans` | app/utils.py:112 | the grouped means list each distinct country once, and each carries the mean of that country's column |
| `Ranking.SortByMean` | app/utils.py:112 | sorting by mean yields a descending order with missing means last, and a permutation of the entries |
| `Ranking.GetCountryRanking` | app/utils.py:108-113 | the ranking is descending by mean with missing means last, and is a permutation of the per-country means |
| `Ranking.RankingEntries` | app/utils.py:112 | the ranking holds exactly the per-country means, with no entry twice |
| `Ranking.RankingMeans` | app/utils.py:112 | every ranked country carries the mean of its present readings |
| `Ranking.RankingNoRepeats` | app/utils.py:112 | no country is ranked twice |
| `Ranking.RankingCovers` | app/utils.py:112 | exactly the countries of the table are ranked |
| `Ranking.RankingOrder` | app/utils.py:112 | present means never increase down the ranking, and after a missing mean every mean is missing |
| `Ranking.InsertByMean` | app/utils.py:112 | inserting into a descending ranking keeps it descending and adds exactly the one entry |
| `CountryFilter.FilterByCountry` | app/utils.py:119 | the filtered table is no longer than the table and holds exactly its rows whose country is selected |
| `CountryFilter.FilterByCountryKeeps` | app/utils.py:115-119 | the filter keeps a row exactly when its country is selected, as often as in the table, and keeps the original relative order |
| `CountryFilter.FilterByCountryIdempotent` | app/utils.py:119 | filtering the filtered table again changes nothing |
| `CountryFilter.FilteredColumn` | app/utils.py:119 | a selected country keeps its whole column after filtering; an unselected one has none |
| `CountryFilter.FilteredSummary` | app/utils.py:119 | a selected country's summary is the same on the filtered table as on the whole table |

## Left out

- `load_data` (app/utils.py:7-37): file-existence checks and CSV reading are I/O. A table is given as a sequence of rows.
- The statistical tests themselves (Shapiro-Wilk, one-way ANOVA, Kruskal-Wallis): they are foreign numerical computations. They appear as oracle functions, and the model promises nothing about their p-values. Their exceptions are not modelled either; for example, Shapiro-Wilk rejects groups of fewer than three readings.
- `Std_Dev` (app/utils.py:52): it needs a square root, so the summary row has no standard-deviation field.
- Summary.CalculateStatistics: takes one of the three metrics GHI, DNI and DHI, whereas the source accepts any column name; the rows carry only these three readings.
- Ranking.GetCountryRanking: takes one of the metrics GHI, DNI and DHI, whereas the source accepts any column name, and the metric is always passed explicitly, so the default `metric='GHI'` (app/utils.py:108) is not modelled. The order among equal means is left open, as in the source. The grouped means start from first-appearance order rather than sorted labels, which only affects ties. The result is a sequence of (country, mean) entries rather than a labelled series.
- The summary table and the test results are sequences and maps of records rather than data frames and dictionaries.
- The normality p-values and the list of qualifying country names are computed but not returned, as in the source.
- StatTests.PerformStatisticalTests: the per-metric body is split into `TestMetric`, `CollectGroups` and `ChooseTest`, whereas the source writes it inline. An insufficient-data verdict is produced by returning early from `ChooseTest` rather than by `continue`; the results are the same.
- Floating-point rounding: all arithmetic is exact.
- The dashboard scripts (app/main.py, app/dashboard.py), the cleaning script (scripts/cleaning.py) and the EDA helpers (scripts/eda_utils.py) are not part of this model: they are page layout, charts and numeric wrappers.
