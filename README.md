# School-district absenteeism search, modelled in Dafny

The widget in `school-search/script.js` loads a CSV of school districts with
six yearly chronic-absenteeism rates each, offers type-ahead suggestions as
the user types a district name, and shows the chosen district's rates as a
table (newest year first) and a line chart (oldest year first).

This project models the two pieces of logic in that script that do not
depend on the browser:

- **The search box** (`Search`): on every input event the raw value is
  lower-cased; a query shorter than two characters hides the list; otherwise
  every row whose `clean_name` is truthy and whose lower-cased name contains
  the query is a match, and the first five matches, in dataset order, are
  shown. `OnInput` returns `Hidden`, `Shown(items)` or `Threw`.
- **The result projection** (`Projection`): `DisplayResult` walks a reversed
  copy of the fixed year list to build the table rows (`BuildTable`), then
  walks the year list itself to push the chart labels and data points
  (`BuildChartSeries`). The two loops and the specification sequences they
  produce are stated for any year list; `YearsKeyMapShape` pins down the six
  years the script uses. A rate that is the
  text `NA`, `null` or `undefined` shows as `N/A` in the table and as a
  `null` gap in the chart; any other value is shown as its text followed by
  `%`, and charted unchanged.

Modules: `Cells` (parsed cell values, rows, number printing), `Text`
(ASCII lower-casing, substring search), `Sequences` (subsequences,
reversal), `Search` and `Projection`.

A row is a map from column name to cell; reading a column the row lacks
gives `Undefined`, as JavaScript property access does. A cell is what the
CSV parser's dynamic typing yields: `Num`, `Text`, or `Null` for an empty
field.

The filter calls `toLowerCase` on any truthy `clean_name`. A non-zero
number there has no such method, so the callback throws a TypeError and the
whole input handler aborts; the model records this as
`FilterResult.TypeError` and `Outcome.Threw`. A year value counts as missing
when it is the text `NA`, `null` (an empty CSV field) or `undefined` (a
column the row lacks), exactly the three cases the script tests.

Rows are values, so two identical CSV rows are equal in the model; the
filter still keeps one entry per matching position, and the contracts state
the number of kept rows (`CountMatches`) as well as which rows they are.

## Model

| member | source | states |
|---|---|---|
| `Cells.NatToString` | school-search/script.js:93 | the decimal text of a natural number is non-empty, all digits and has no leading zero |
| `Cells.IntToString` | school-search/script.js:93 | the text of an integer starts with `-` exactly for negatives, followed by digits with no leading zero (so 12 prints as `12`, never `012`) |
| `Cells.ParseNatToString` | school-search/script.js:93 | reading the printed digits back gives the original natural number |
| `Cells.IntToStringRoundTrip` | school-search/script.js:93 | printing an integer is lossless: parsing the text gives the integer back |
| `Cells.CellText` | school-search/script.js:93 | no ensures; the text a cell contributes to the string concatenation that appends `%`: a number's decimal text (`IntToString`), a string itself, and `null` or `undefined` spelled out; `DisplayValueSentinel` and `NumericDisplayRoundTrip` state what the table shows through it |
| `Cells.Record.Get` | school-search/script.js:92 | no ensures; reading a column of a row (also at :38 and :105), a missing column reading as `undefined`; `TableShape`, `ChartShape` and `SpringfieldExample` state what the table and chart read through it |
| `Cells.Truthy` | school-search/script.js:38 | no ensures; JavaScript truthiness of the name cell guarding the search: zero, the empty string, `null` and `undefined` are falsy; `FilterSpec`, `OnInput` and `NumericNameThrows` state its effect on the filter |
| `Cells.IsSentinel` | school-search/script.js:93 | no ensures; the missing-value test, shared with :107: the text `NA`, `null` or `undefined`; `DisplayValueSentinel` and `DataPointSentinel` state it |
| `Text.Lower` | school-search/script.js:29 | lower-casing keeps the length, turns each ASCII letter `A`-`Z` into its lower-case counterpart, leaves no upper-case ASCII letter and changes no other character |
| `Text.LowerIdempotent` | school-search/script.js:38 | lower-casing an already lower-cased query changes nothing |
| `Text.Contains` | school-search/script.js:38 | no ensures; `includes` as a scan from the left; `ContainsIff` states that it holds exactly when the needle occurs at some index |
| `Text.ContainsIff` | school-search/script.js:38 | the left-to-right `includes` scan holds exactly when the needle occurs at some index of the haystack |
| `Sequences.PrefixIsSubsequence` | school-search/script.js:43 | taking a prefix (the `slice(0, 5)`) of a subsequence keeps it a subsequence |
| `Sequences.Reversed` | school-search/script.js:91 | the reversed copy has the same length as the year list |
| `Sequences.ReversedIndex` | school-search/script.js:91 | entry `k` of the reversed copy is entry `n-1-k` of the original |
| `Search.TestRow` | school-search/script.js:38 | no ensures; the filter callback's verdict on one row: a falsy name skips it, a truthy non-string name throws, a string name is kept exactly when its lower-cased form contains the query; `FilterSpec`, `NumericNameThrows` and `SuggestionsContainQuery` state its effect |
| `Search.Filter` | school-search/script.js:37-39 | no ensures; `FilterSpec`, `FilterAppend` and `FilterKeepsAll` state it |
| `Search.FilterSpec` | school-search/script.js:37-39 | the filter throws exactly when some row's name is truthy and not a string; otherwise its result is a subsequence of the data, holds only matching rows, holds every matching row, and has exactly as many entries as there are matching positions |
| `Search.FilterAppend` | school-search/script.js:37-39 | filtering the concatenation of two row lists throws exactly when filtering either list throws, and otherwise gives the concatenation of their filtered lists |
| `Search.FilterKeepsAll` | school-search/script.js:37-39 | when every row matches, the filter keeps every row, identical copies included |
| `Search.OnInput` | school-search/script.js:28-55 | a query under 2 characters hides the list; the handler throws exactly when some row's name is a truthy non-string; the list is hidden exactly when the query is short or no row matches; a shown list has min(5, number of matching rows) entries, at least 1, is a subsequence of the data, and each has a non-empty string name whose lower-cased form contains the lower-cased query; a list of fewer than 5 holds every matching row |
| `Search.FirstSuggestions` | school-search/script.js:43 | no ensures; taking at most the first five matches; `FirstSuggestionsOfMatches` and `LaterRowsIgnored` state it |
| `Search.FirstSuggestionsOfMatches` | school-search/script.js:41-43 | the first five of a non-empty match list number exactly min(5, number of matching rows), form a subsequence of the data, are all matching rows, and when fewer than five they include every matching row |
| `Search.SuggestionsContainQuery` | school-search/script.js:37-43 | each suggestion's lower-cased name holds the lower-cased query at some index |
| `Search.QueryCaseInsensitive` | school-search/script.js:29 | the outcome depends only on the lower-cased query |
| `Search.LaterRowsIgnored` | school-search/script.js:43 | once the leading rows hold five matches, rows appended after them leave the suggestions unchanged unless they make the filter throw |
| `Search.RepeatedRowsShownSeparately` | school-search/script.js:37-43 | six identical matching rows yield five suggestions, one per copy |
| `Search.NumericNameThrows` | school-search/script.js:37-39 | one row whose name is a non-zero number makes every search of 2 or more characters throw |
| `Projection.DisplayResult` | school-search/script.js:70-111 | over the fixed year list, the table rows equal `TableRows`, and the chart labels and points equal `ChartLabels` and `ChartPoints` |
| `Projection.BuildTable` | school-search/script.js:88-101 | the loop over a reversed copy of the year list yields exactly `TableRows`: row `j` is the label and displayed rate of year `n-1-j` |
| `Projection.BuildChartSeries` | school-search/script.js:104-111 | starting from the two empty arrays of :86-87, the loop pushing one label and one data point per year yields exactly `ChartLabels` and `ChartPoints`, entry `i` from year `i` |
| `Projection.DisplayValue` | school-search/script.js:93 | no ensures; `DisplayValueSentinel` and `NumericDisplayRoundTrip` state it |
| `Projection.DataPoint` | school-search/script.js:107 | no ensures; `DataPointSentinel` states it |
| `Projection.DisplayValueSentinel` | school-search/script.js:93 | a table cell is `N/A` exactly for `NA`, `null` or `undefined`; otherwise it ends in `%` preceded by the value's text |
| `Projection.NumericDisplayRoundTrip` | school-search/script.js:93 | a numeric rate's cell is its text plus `%`, and that text parses back to the rate |
| `Projection.DataPointSentinel` | school-search/script.js:107 | a chart point is `null` exactly for the sentinel and the stored value otherwise; a sentinel never becomes 0 |
| `Projection.YearsKeyMapShape` | school-search/script.js:77-84 | the year list has 6 entries, its chart labels run 2019-2020 up to 2024-2025, and each label is its column key with a dash after the fourth digit |
| `Projection.TableShape` | school-search/script.js:88-101 | the table has one row per year; row `j` shows the label and rate of year `n-1-j`, so the table's labels are the chart's labels reversed |
| `Projection.TableYearsNewestFirst` | school-search/script.js:77-101 | for the script's year list the table has 6 rows labelled 2024-2025, 2023-2024, ..., 2019-2020 in that order |
| `Projection.ChartShape` | school-search/script.js:104-111 | the chart has one label and one point per year; entry `i` of both belongs to year `i` |
| `Projection.TableMirrorsChart` | school-search/script.js:86-111 | table row `j` carries chart label `n-1-j`, reads `N/A` exactly when chart point `n-1-j` is a gap, and otherwise shows that point's text plus `%` |
| `Projection.SpringfieldExample` | school-search/script.js:91-111 | a district with 12 for 2024-2025 and `NA` for 2019-2020 gets ("2024-2025", "12%") first and ("2019-2020", "N/A") last in the table, and null first and 12 last in the chart |

## Left out

- Loading the CSV (`Papa.parse` with download, header and dynamic typing) and its failure alert: asynchronous I/O in a foreign library. The loaded data is a parameter of `OnInput`, already typed.
- Boolean cells: the parser's conversion of `true`/`false` text to booleans is not modelled; a cell is a number, a text, `null` or `undefined`.
- All DOM work: clearing and filling the suggestion list, the `hidden` class, creating suggestion elements and their click handlers, the outside-click dismissal, `selectDistrict` filling the search box, the result heading, and writing the table into the page. `OnInput` returns what the list ends up showing instead: `Hidden` (emptied and hidden), `Shown(items)` (visible with those items) or `Threw` (emptied before the filter aborted, its visibility left as it was).
- The HTML markup of each table row: the table is a sequence of (year label, displayed rate) pairs.
- `updateChart` and the Chart.js configuration, including destroying the previous chart: a foreign library call and styling constants.
- Cells.IntToString: rates are modelled as integers (`Num` holds an `int`), so a fractional rate such as `12.5` cannot be represented, and JavaScript's printing of fractional and exponent-form numbers and of NaN is not modelled; `Projection.SpringfieldExample` therefore uses 12.
- Text.Lower: lower-cases ASCII letters only; full Unicode case mapping, which can change a string's length, is not modelled.
- Search.OnInput: the query length is counted in characters, not in UTF-16 code units.
