# Ski-resort dashboard: the query core

A Dafny model of the data core of a small Dash dashboard over a table of ski
resorts. The table is loaded once. Four per-country rank columns are attached
to it. After that, every view is a pure function of the table and the current
control values:

- **Ranking at load time** (`Ranking`). For each of the metrics highest point,
  price, total slopes and snow cannons, every resort is ranked in descending
  order among the resorts of its own country. Ties get the average of the
  positions they share, as pandas' default `rank` does. Ranks are stored
  doubled (`2*rank = 2*greater + equal + 1`) so that half ranks such as 2.5
  stay integers.
- **Map filter** (`MapView`). The resorts strictly under the price ceiling
  whose night-skiing, summer-skiing and snowpark flags equal the three toggles.
- **Dropdown options** (`CountryOptions`). The distinct continents of the
  table, and the distinct countries of a continent, in order of first
  appearance (pandas' `unique`).
- **Country chart** (`CountryReport`). The guard that declines to update when
  no country but a column is chosen. Otherwise the chosen country's resorts,
  sorted by the chosen column, largest first.
- **Report card** (`ReportCard`). The resort named by the chart's hover
  payload, and its four ranks truncated to whole numbers. This fails unless
  exactly one row carries that name. The payload starts out naming Hemsedal.

`Sequences` holds the shared order notions: subsequence, distinctness, first
appearance, and a descending sort by an integer key. `Outcomes` holds the
`Option` and `Result` types.

Behaviour of the code worth knowing:

- Ties share the average of their positions: two resorts tied for second
  place both get rank 2.5.
- The report guard is `(not country) and column`. So an unset country together
  with an unset column is *not* suppressed. The callback goes on and raises,
  because pandas' query rejects the unset country (`Raises`).
- The country options keep first-appearance order in the table.
- The chart sort is pandas' default `sort_values`, which is not stable. The model
  promises only a permutation with non-increasing keys.
- Resort names are not checked for uniqueness at load time. The report card
  fails at lookup when a name matches zero rows or several rows, and a row
  held twice counts as two matches.
- Every query and boolean mask keeps the matching rows in table order, each
  as often as the table holds it. One generic filter, `Sequences.Filter`,
  models all of them.

## Model

| member | source | states |
|---|---|---|
| Ranking.Peers | main.py:13-16 | the group a rank is taken in is the table's resorts of that country in table order, each held as often as in the table and no other resort |
| Ranking.Assign | main.py:10-17 | the loaded table keeps every record in place; row i gets, for each metric, the doubled average rank of its value among its own country's values, and every rank lies between 1 and the size of the row's country group |
| Ranking.GroupValuesMembership | main.py:13-16 | a value is in a country's ranked column iff some resort of that country has it |
| Ranking.RankInRange | main.py:13-16 | a value that occurs in a column of n values has a rank between 1 and n |
| Ranking.RankOrder | main.py:13-16 | descending ranking: the larger of two present values has the strictly smaller rank, and ranks are equal iff values are equal |
| Ranking.RankIsMeanPosition | main.py:13-16 | after sorting the column in descending order, the 1-based positions of the tied copies of a value average to its rank, which is pandas' "average" tie rule |
| Ranking.DistinctRanksArePermutation | main.py:13-16 | with no ties, the ranks of a column are exactly 1..n |
| Ranking.RankIgnoresOtherCountries | main.py:13-16 | inserting, deleting or replacing rows of other countries leaves a resort's rank unchanged |
| Ranking.RanksInRange | main.py:13-16 | every resort's rank lies between 1 and the number of resorts of its country |
| Ranking.AssignedRankOrder | main.py:12-17 | within a country, one stored rank is smaller than another iff that resort's metric value is larger, and ranks are equal iff values are equal |
| Ranking.AssignedRankIsMeanPosition | main.py:12-17 | every stored rank is the mean sorted position of its tied block within its country |
| Ranking.CountryRanksAreColumnRanks | main.py:12-17 | the set of ranks stored for a country's rows is the set of ranks of the values of its column |
| Ranking.AssignedDistinctRanks | main.py:12-17 | a country whose resorts all differ on a metric gets the ranks 1..n, each once |
| Sequences.Insert | main.py:182 | inserting into a descending-sorted sequence keeps it sorted and adds exactly one element |
| Sequences.SortDesc | main.py:182 | the sort returns a permutation of its input whose keys never increase |
| Sequences.Filter | main.py:141-144 | a filter keeps, in their original order, exactly the elements that pass its test |
| Sequences.FilterCount | main.py:141-144 | a filter keeps every passing element as often as the input holds it, and no other element |
| MapView.SnowMap | main.py:141-144 | the map shows an order-preserving subsequence of the table that holds every admitted row as often as the table does and no other row |
| MapView.InitialMap | main.py:41-67 | the first map shows, in table order and at table multiplicity, exactly the resorts under 150 with no night skiing, no summer skiing and no snowpark |
| MapView.RaisingCeilingKeepsResorts | main.py:141 | the map for a lower ceiling is a subsequence of the map for a higher one |
| MapView.ZeroCeilingShowsNothing | main.py:141-144 | a ceiling of 0 over positively priced resorts shows nothing |
| CountryOptions.ContinentRows | main.py:165 | the query keeps, in table order, every row of the continent as often as the table holds it, and no other row |
| CountryOptions.ContinentCountries | main.py:165-166 | the list `unique` reads is the country of each of the continent's rows, in table order, so a country occurs iff some row has it together with the chosen continent |
| CountryOptions.Unique | main.py:166 | the result has the same elements as the input, no repeats, in first-appearance order |
| CountryOptions.CountryDropdown | main.py:164-166 | a country is offered iff it has a resort on the chosen continent, each country once, in first-appearance order |
| CountryOptions.ContinentDropdown | main.py:93 | each continent of the table is offered once, in first-appearance order |
| CountryOptions.FirstAppearanceListIsUnique | main.py:166 | two lists with the same elements, no repeats and first-appearance order are equal, so `Unique`'s contract fixes its output |
| CountryReport.ParseColumn | main.py:12-16 | a recognised header names a column whose header it is |
| CountryReport.ParseColumnName | main.py:12-16 | every sortable column is found again under its own header |
| CountryReport.CountryRows | main.py:180 | the query keeps, in table order, every row of the country as often as the table has it, and no other row |
| CountryReport.BarInfo | main.py:175-182 | "no update" exactly when the country is unset and the column set; otherwise a missing or unrecognised column raises; otherwise the bars are a permutation of the country's rows sorted by the column, largest first |
| CountryReport.ChartShowsExactlyTheCountry | main.py:180-182 | a row has a bar iff it is in the table and belongs to the chosen country |
| CountryReport.RankGroupIsCountryRows | main.py:12-17 | the group a resort is ranked in is the loaded table's rows of its country in table order, the rows its country chart draws, so the rank bound is the number of that country's rows |
| ReportCard.HoveredResort | main.py:198 | the name is the first custom datum of the first hovered point; an empty point list fails with `NoPoint`, and an empty custom-data list fails with `NoCustomData` |
| ReportCard.TruncatedHalf | main.py:202-205 | `int` of a doubled rank halves it with truncation toward zero |
| ReportCard.Named | main.py:200 | the lookup keeps, in table order, every row that carries the name as often as the table holds it, and no other row |
| ReportCard.ReportCardFor | main.py:197-207 | a card exists iff the payload names a resort held by exactly one row; it shows that row's name and truncated ranks, and otherwise reports how many rows matched |
| ReportCard.InitialCard | main.py:114-115 | the first card is Hemsedal's, and it exists iff exactly one row is named Hemsedal |
| ReportCard.UniqueNameMatchesOnce | main.py:200-205 | with unique names, a name matches exactly one row iff it occurs, and never more than one |
| ReportCard.DuplicateRowHasNoCard | main.py:200-205 | in any table that holds a row two or more times, hovering that row gives no card: the lookup matches at least as many rows as the copies, and the error reports that count |
| ReportCard.CardRanksInRange | main.py:202-205 | every displayed rank of a card from the loaded table lies between 1 and the resort's country size |
| ReportCard.HoveringABarShowsItsCard | main.py:185-205 | with unique names, pointing at any bar of a country chart yields that resort's card |

## Left out

- Reading the CSV file and its encoding (main.py:11). The table is a given sequence of records.
- The Dash application, the stylesheet and theme, the layout tree, the callback wiring and the server start (main.py:20-92, 94-113, 116-128, 131-138, 160-163, 167-174, 190-196, 210-211). These are UI and transport.
- Plotly figure construction: the density map and the bar chart styling. Only the rows handed to them are modelled.
- The titles built by string interpolation (main.py:140, 179).
- Latitude and longitude. They are floats that only the map drawing uses.
- Floating-point metrics and missing values. Metrics and prices are integers, and no value is missing.
- The metric picker's option list `select_dtypes("number").columns[3:]` (main.py:107). It depends on the CSV header, which is not available.
- CountryReport.BarInfo: the modelled record has only the four metrics and their rank columns, so the model answers `Raises` for every other header. The real callback sorts by any column the table has, for example `Latitude` (main.py:147), and raises only for a header the table lacks.
- Dropdowns that are cleared to `None` are modelled as the empty string. pandas' query raises on a `None` country or continent. The model covers this for the country: an unset country with an unset column raises, and an unset country with a set column never reaches the query. A `None` continent is not modelled separately: the model offers the countries of rows whose continent is empty, which is no country in a table whose every row names its continent.
- CountryReport.BarInfo: does not fix an order among bars with equal keys, because pandas' default sort is not stable.
- ReportCard.HoveredResort: only the first point of a multi-point hover payload is read, as the code does. Malformed payloads without the `points` or `customdata` keys are not modelled.
