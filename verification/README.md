# Regulatory data audit: a Dafny model of its core

The application is a single-page React tool for auditing staff spreadsheets.
An operator uploads a workbook. The uploader checks the columns of the decoded
rows. The application shell then groups the rows into operational regions by
their `SourceSheet` tag, counts the distinct employee numbers in each region,
and flags rows that carry no region. Two views read the result:

- the dashboard: distinct identity numbers, the five most frequent
  nationalities, and the number of distinct companies;
- the regional report: the ledger of one region, three figures about it, and a
  search box.

This project models that core in Dafny and proves what it promises:

- `seqs.dfy` (module `Seqs`): the JavaScript array and `Set` idioms the code is
  built from. These are `map`, `filter`, `Array.from(new Set(xs))` (insertion
  order) and `new Set(xs).size`, with their order and counting facts.
- `strings.dfy` (module `Strings`): `toLowerCase` (ASCII), `includes`, `String(n)`
  for integers (with its parse-back), and `join`.
- `types.dfy` (module `Types`): the record shapes. A cell is `Text`, `Number` or
  `Missing` (`undefined`), so that `1` and `"1"` stay apart as `===` and `Set`
  keep them apart. Truthiness and `String(cell)` are defined on cells.
- `file_uploader.dfy` (module `FileUploader`): the required-column check on
  the decoded rows.
- `app.dfy` (module `App`): the validation aggregate `handleDataLoaded`
  computes, and the session as a class. Its fields are `step`, `data` and
  `validation`. Its methods are load, upload, reset, the navigation buttons and
  the summary's proceed button.
- `dashboard.dfy` (module `DashboardView`): the dashboard figures. The
  nationality `reduce` is a fold over a keyed list of entries, followed by a
  stable descending sort and a cut to five.
- `report_view.dfy` (module `ReportView`): the report's initial region, its
  figures and its search filter, with the search both as written and corrected.

The upload navigation button (App.tsx:72) changes the step and nothing else.
The only place that clears the loaded rows and the validation result is reset
(App.tsx:50-54). `App.Session.Navigate` therefore keeps the rows and the
result for every target.

## Model

| member | source | states |
|---|---|---|
| FileUploader.RequiredColumnsAreDistinct | components/FileUploader.tsx:34-38 | the required list holds exactly eleven names, none twice |
| FileUploader.AbsentColumns | components/FileUploader.tsx:42 | the missing list holds exactly the required names that are not keys of the first row, in required-list order (a subsequence of the list) |
| FileUploader.NoAbsentColumnsIff | components/FileUploader.tsx:42-43 | nothing is reported missing if and only if the first row has every required key |
| FileUploader.CheckRows | components/FileUploader.tsx:40-54 | rejection for emptiness exactly when there are no rows; acceptance exactly when the first row has every required key, and then the rows pass through unchanged; any other rejection carries the non-empty list of missing names |
| FileUploader.OnlyFirstRowChecked | components/FileUploader.tsx:41-42 | once the first row passes, any later rows whatsoever are accepted unchanged |
| FileUploader.PresentEmptyValueAccepted | components/FileUploader.tsx:42 | a required key that is present with an empty value is not reported missing |
| FileUploader.DescribeNamesEachMissingColumn | components/FileUploader.tsx:43-44 | a first row lacking a required column is rejected, and the error text names that column |
| FileUploader.Describe | components/FileUploader.tsx:44-49 | the text shown for a rejection: the empty-file message, or the missing-columns prefix followed by the names joined by ", " (its property is `DescribeNamesEachMissingColumn`) |
| FileUploader.ToEmployee | components/FileUploader.tsx:54 | the cast to an employee keeps the ID#, EMP#, MRN and SourceSheet cells as decoded, reads an absent SourceSheet as falsy, and keeps the text of every text column (NAME (ENG), NAME (AR), G, NATIONALITY, COMPANY, POSITION, LOCATION) |
| Strings.JoinContainsEach | components/FileUploader.tsx:44 | every part joined with a separator can be found in the joined text |
| Types.JsString | components/Dashboard.tsx:18 | `String(cell)`: a text cell gives its text, an absent cell gives "undefined", and a number gives a text that parses back to it |
| Strings.DecimalStringInjective | components/Dashboard.tsx:18 | different integers print to different texts |
| Strings.Lower | components/ReportView.tsx:38 | lower-casing keeps the length, folds each character and leaves no capital letter |
| Strings.LowerIdempotent | components/ReportView.tsx:38 | lower-casing twice is lower-casing once |
| Seqs.Distinct | App.tsx:18 | `Array.from(new Set(xs))` has no duplicates, holds exactly the values of `xs`, and is no longer than `xs` |
| Seqs.DistinctFirstSeenOrder | App.tsx:18 | the de-duplicated values appear in the order in which they are first seen |
| Seqs.FilterMultiplicity | components/ReportView.tsx:39-44 | a filter keeps every passing element exactly as many times as it occurs, and no other element |
| Seqs.FilterCountsPositions | App.tsx:25 | the length of a filter is the number of positions whose element passes |
| Seqs.SetSize | App.tsx:26 | `new Set(xs).size` is the cardinality of the value set, at most the length, and at least one for a non-empty input |
| App.RegionNames | App.tsx:18 | the region names are pairwise distinct, are exactly the truthy SourceSheet values present, and follow first-seen order |
| App.References | App.tsx:19-22 | `regions[i]` has id `i + 1` and the i-th region name |
| App.RowsForRegion | components/Dashboard.tsx:42-44 | a region's rows are a subsequence of the data holding only rows with that tag, as long as the number of positions that hold it: so every such row, as often as it occurs, in the original order |
| App.Headcount | App.tsx:25-29 | a region's count is the cardinality of the set of EMP# cells among its rows; it is at most the row count and at least one when the tag occurs |
| App.Table | App.tsx:24-31 | the table has one entry per region name, in the same order, each carrying the region's headcount |
| App.UntaggedRows | App.tsx:34 | the flagged rows are a subsequence of the data holding only rows with a falsy SourceSheet, and their number is the number of such positions: so every untagged row, in order, and the count the finding reports |
| App.UntaggedMessage | App.tsx:36 | the finding's text contains the number of flagged rows |
| App.Errors | App.tsx:33-37 | the error list is empty if and only if every row is tagged; otherwise it is the one finding for the flagged rows |
| App.Validate | App.tsx:15-45 | the validation result: table names are the region names; ids are 1-based; `totalRegions` is the number of regions; each count is its headcount; `isValid` holds iff there are no errors iff every row is tagged; at most one error, containing the flagged-row count |
| App.HeadcountBounds | App.tsx:25-29 | every table entry counts at least one and at most its region's row count |
| App.RowsPartitionIntoRegions | App.tsx:18-34 | a row is untagged exactly when no table entry carries its tag, and otherwise exactly one entry does |
| App.ValidationCoversEveryRow | App.tsx:18-34 | the region row lists and the untagged rows together account for every row exactly once |
| App.Session.constructor | App.tsx:11-13 | a new session is on the upload step with no rows and no result |
| App.Session.Load | App.tsx:15-47 | loading stores the rows and their validation and moves to the validation step |
| App.Session.UploadFile | components/FileUploader.tsx:40-54 | a rejected sheet leaves the session as it was and yields the error; an accepted one is loaded |
| App.Session.Reset | App.tsx:50-54 | reset returns to the upload step with no rows and no result |
| App.Session.Navigate | App.tsx:71-96 | a disabled button does nothing; an enabled one changes the step only. Upload is always enabled; validation needs a result; dashboard and report need a valid result. Rows and result are never changed |
| App.Session.CanNavigate | App.tsx:72-93 | whether a navigation button is enabled: upload always; validation when there is a result; dashboard and report when the result is valid (its use is `Navigate`) |
| App.Session.Shown | App.tsx:110-119 | the screen the main area renders for the step, blank when the step's guard fails (its property is `ShownScreenIsGuarded`) |
| App.Session.Proceed | App.tsx:112 | the summary's proceed button (shown only without errors) moves from validation to dashboard and changes nothing else |
| App.ShownScreenIsGuarded | App.tsx:110-119 | in every reachable state the main area shows a screen; the dashboard and report only show a valid result computed from the rows held |
| DashboardView.TotalEmployees | components/Dashboard.tsx:18 | the employee total is the number of distinct `String(ID#)` keys, at most the row count and at least one for non-empty data |
| DashboardView.AbsentIdsCountOnce | components/Dashboard.tsx:18 | rows without an ID# all collapse to one key |
| DashboardView.NumberAndTextIdsMerge | components/Dashboard.tsx:18 | a numeric ID and the same number written as text count once |
| DashboardView.DistinctNumericIdsCountTwice | components/Dashboard.tsx:18 | different numeric IDs count separately |
| DashboardView.CompanyCount | components/Dashboard.tsx:117 | the company figure is the number of distinct COMPANY values, at most the row count |
| DashboardView.Bump | components/Dashboard.tsx:22 | one reduce step adds one to the entry of its key, or appends that key with count one; no other entry changes |
| DashboardView.TotalBump | components/Dashboard.tsx:22 | each reduce step adds exactly one to the sum of the counts |
| DashboardView.Tally | components/Dashboard.tsx:21-24 | the nationality entries name each distinct value once, in first-seen order, and carry its number of occurrences |
| DashboardView.TallyCountsEveryRow | components/Dashboard.tsx:21-24 | the counts sum to the number of values folded |
| DashboardView.NationalityCountsCoverEveryRow | components/Dashboard.tsx:21-24 | the nationality counts sum to the number of rows |
| DashboardView.NationalityCountsInFirstSeenOrder | components/Dashboard.tsx:21-27 | the entries list the nationalities in the order the rows first show them |
| DashboardView.Insert | components/Dashboard.tsx:28 | an insertion step adds exactly the one entry |
| DashboardView.SortByValueDesc | components/Dashboard.tsx:28 | the sort is a permutation and its values are non-increasing |
| DashboardView.SortIsStable | components/Dashboard.tsx:28 | for every value, the entries holding it keep their relative order |
| DashboardView.SortedTally | components/Dashboard.tsx:21-28 | the sorted counts: one entry per distinct nationality, distinct names, non-increasing, each equal to its occurrence count and at least one |
| DashboardView.TopEntries | components/Dashboard.tsx:28-29 | the first five entries of the sorted counts (its properties are `TopEntriesCounts` and `TopEntriesAreTop`, carried to the chart by the two rows below) |
| DashboardView.NationalityData | components/Dashboard.tsx:26-29 | the chart data: the top entries of the nationality column (its properties are the two rows below) |
| DashboardView.NationalityDataCounts | components/Dashboard.tsx:26-29 | the chart data has min(5, number of nationalities) entries with distinct names, non-increasing values, each its row count and at least one |
| DashboardView.NationalityDataIsTop | components/Dashboard.tsx:26-29 | no nationality left off the chart occurs more often than the last one shown |
| ReportView.InitialRegion | components/ReportView.tsx:14 | the first table name when there is one and it is truthy, otherwise the empty text (its properties are the two rows below) |
| ReportView.InitialRegionIsFirstTaggedRow | components/ReportView.tsx:14 | after validation the report opens on the tag of the first tagged row, and that row is in the opened ledger |
| ReportView.InitialRegionWithoutRegions | components/ReportView.tsx:14 | with no tagged row the report opens on the empty name |
| ReportView.IsSupervisory | components/ReportView.tsx:30-31 | a position is supervisory when its lower-cased text contains "supervisor", "lead" or "manager" (counted by `Stats`) |
| ReportView.Stats | components/ReportView.tsx:27-34 | total is the ledger length; locations is the number of distinct LOCATION values, between one (non-empty ledger) and total; supervisors is the number of ledger positions holding a supervisory title, at most total, zero iff no position is supervisory, and total iff all are |
| ReportView.LedgerStatsCoverHeadcount | components/ReportView.tsx:33 | for each region of the table, the ledger total is at least its deduplicated count, which is at least one, and there is at least one location |
| ReportView.Matches | components/ReportView.tsx:40-43 | the guarded row test: lower-cased name, EMP# text (when present), ID# text (when present) or lower-cased nationality contains the term (used by `Search`) |
| ReportView.Search | components/ReportView.tsx:36-45 | an empty term keeps the ledger; any term keeps a subsequence no longer than the ledger; a non-empty term keeps exactly the rows whose name, EMP#, ID# or nationality matches the lower-cased term, each as many times as it occurs |
| ReportView.SearchIgnoresTermCase | components/ReportView.tsx:38 | a term and its lower-cased form select the same rows |
| ReportView.SearchStaysInRegion | components/ReportView.tsx:23-25 | every row the search returns is a row of the selected region |
| ReportView.CapitalIdNeverMatches | components/ReportView.tsx:42 | ID# is not folded: for every row whose ID# is written in capitals and every non-empty term, the ID# never contains the lower-cased term, so the row matches only through its name, EMP# or nationality |
| ReportView.MatchesAsWritten | components/ReportView.tsx:40-43 | the row test as written: the name first, then `EMP#.toString()`, which throws on an absent EMP# (properties in the two rows below) |
| ReportView.FilterAsWritten | components/ReportView.tsx:39-44 | the filter as written, which throws when the test throws on any row |
| ReportView.SearchAsWritten | components/ReportView.tsx:36-45 | `filteredData` as written: the ledger for an empty term, else the filter as written on the lower-cased term |
| ReportView.SearchAsWrittenFails | components/ReportView.tsx:39-44 | the search as written throws exactly when the term is non-empty and some ledger row lacks an EMP# and has a name that does not match |
| ReportView.SearchAsWrittenAgrees | components/ReportView.tsx:39-44 | when every ledger row has an EMP#, the search as written equals the corrected search |
| ReportView.SearchAsWrittenThrowsOnAbsentEmpNumber | components/ReportView.tsx:41 | one row named "x" without EMP# and the term "zz": the search as written throws, and the corrected search returns no rows |

## Left out

- The file reading, the workbook decoding and its error path are not modelled. These are asynchronous I/O and a foreign library. The model starts from the decoded rows as a sequence of maps from column name to cell.
- The `loading` and `error` flags of the uploader, and the `expandedRegion` flag of the dashboard, are not modelled. They are UI state. `App.Session.UploadFile` returns the rejection instead of storing it.
- The messages are English stand-ins for the Arabic texts. The model keeps only that the missing-columns text names every missing column and that the integrity finding contains the flagged-row count.
- The average per region (`avgPerRegion`) is not modelled. It is floating-point division and `toFixed` formatting, and it becomes `Infinity`/`NaN` with no region.
- `window.print()` export, the random report reference and the date formatting are not modelled. These are browser side effects and nondeterministic.
- The markup of every view is not modelled, and neither is components/ValidationSummary.tsx beyond its proceed button. That button is rendered only when there are no errors (line 79 and lines 89-95), and `App.Session.Proceed` guards on the same condition.
- The selected region and the search term are inputs of the report functions. The region buttons that change the selection are not modelled.
- Cells are integers or text. Fractional numbers, booleans, dates and `null` that the decoder could yield are not modelled.
- `Types.JsString`: a numeric cell is an unbounded integer, while JavaScript numbers are doubles. Beyond 2^53 two different IDs in the source can round to one number and fall into one `Set` key (`DashboardView.TotalEmployees`, `App.Headcount`). From 1e21 on, `String(n)` switches to exponent form, which `Strings.DecimalString` does not produce. The model counts such cells as distinct and prints them in plain digits.
- `FileUploader.ToEmployee` reads the text columns as text. In the model, an absent text column reads as "" and a numeric one as its decimal text. In the source these would be `undefined` or a number at run time:
  - the nationality key of an absent NATIONALITY would be "undefined";
  - `POSITION.toLowerCase()` and `"NAME (ENG)".toLowerCase()` would throw on an absent value.

  The model assumes these columns hold text, as their declared types say.
- `DashboardView.Tally` keeps every key in first-seen order. `Object.entries` lists integer-like keys (for example a nationality written as "123") first, in ascending numeric order. That ordering is not modelled, so the tie order among equal counts can differ for such keys.
- `DashboardView.NationalityCountsInFirstSeenOrder`: for the same reason this lemma holds for the model and not for the source when a nationality is integer-like. `Object.entries` (components/Dashboard.tsx:26) would list such keys before the others.
- `Strings.Lower` folds ASCII letters only. `toLowerCase` applies full Unicode case mapping, and that is not modelled.

## Findings

| source | as written | input that shows it | evidently intended | confidence | as-written member | corrected member |
|---|---|---|---|---|---|---|
| components/ReportView.tsx:41 | the search calls `emp["EMP#"].toString()` without optional chaining, so a ledger row with no EMP# whose name does not contain the term makes the filter throw; ID# and NATIONALITY on the next lines are guarded with `?.` | a ledger holding one row named "x" with no EMP# cell (a blank cell after the first row is omitted by the decoder and the column check only inspects the first row), search term "zz" | guard EMP# as ID# is guarded: an absent EMP# does not match and the search goes on | not executed | ReportView.SearchAsWrittenThrowsOnAbsentEmpNumber | ReportView.Search |
