# Well shutdown dashboard — a verified model of its table pipeline

The dashboard (`app.py`) is a Streamlit page over an Excel log of well shutdowns. Under its
widgets and PDF code sits a small table pipeline, and this project models that pipeline in
Dafny:

- **Loading** (`load_data`) strips the header names and drops 22 columns by position. It then
  fills the missing Site, Well, ShutdownReason and Alert cells with fixed sentinels, puts each
  downtime into one of four buckets, and derives a `YYYY-MM` month key from the shutdown
  timestamp. A missing downtime, or one outside the bins (-1, 1e6], gets no bucket. A missing
  timestamp gives the key `"NaT"`.
- **Filtering** narrows a copy of the table step by step. There are four equality selectors,
  each switched off by its "All …" entry. An inclusive shutdown date range applies only when
  two dates were picked.
- **Aggregating** computes three things from the filtered rows:
  - the five KPI tiles;
  - the ten wells with the most summed downtime;
  - the number of shutdowns per month key.
- **The per-well report** takes one well's rows from the *unfiltered* table. It gives their
  count, total, average and longest downtime, the monthly counts, the downtime per reason, and
  the latest twenty events projected to five columns.

Modules, one file each:

| module | file | contents |
|---|---|---|
| `Wrappers` | `wrappers.dfy` | `Option`, `Result` |
| `Text` | `text.dfy` | Python's `str.strip` whitespace set and stripping; code-point string order |
| `Sequences` | `sequences.dfy` | subsequence, sorting by a total preorder, `head(n)`, de-duplication |
| `Calendar` | `calendar.dfy` | 64-bit nanosecond timestamps; calendar day; proleptic Gregorian year and month; the month key |
| `Table` | `table.dfy` | the normalised row (`Event`), column keys, boolean-mask selection `Where` |
| `Ingest` | `ingest.dfy` | `load_data` |
| `Filter` | `filter.dfy` | the filter block and the default date range |
| `Aggregate` | `aggregate.dfy` | KPIs, group keys, per-group sums, top wells, monthly trend |
| `Report` | `report.dfy` | the per-well report data |

Modelling choices:

- Timestamps are pandas' `datetime64[ns]`: signed 64-bit counts of nanoseconds since
  1970-01-01. The calendar day is their floor division by the nanoseconds in a day.
- The parsed values of `pd.to_datetime` / `pd.to_numeric` arrive as `Option`s. `None` stands for
  a blank or unparsable cell.
- Downtime is a `real`.
- `sort_values` is not stable, so the model sorts with a generic insertion sort under a total
  preorder. Nothing is claimed about the order of ties.
- `groupby` and `sorted(...unique())` produce each distinct key once, in code-point order.

The comment at app.py:79 promises that the drop happens "only if they exist (safe)". The code
does not do that:

- `df.columns[cols_to_drop]` indexes positions 2, 4 and 8 to 27, and fails on a sheet with
  fewer than 28 columns.
- `errors="ignore"` only covers labels that are missing.

The model follows the code. `Ingest.LoadData` returns `TooFewColumns` in that case. After the
drop it reads the seven columns in the order app.py:85-93 reads them, and fails on the first
read that raises:

- `MissingColumn` when the column is absent (pandas raises `KeyError`);
- `DuplicateColumn` when one of the three parsed columns (shutdown, start-up, downtime) is held
  by two labels. This happens when two headers differ only in surrounding whitespace, so that
  the strip makes them equal. The lookup then selects a table, and `pd.to_datetime` raises a
  `ValueError` on it, `pd.to_numeric` a `TypeError`.

Because `df.drop` removes by label, the drop is modelled by label. On a sheet whose stripped
headers are distinct, `Ingest.DropDistinctColumns` proves that it removes exactly the 22
positions and keeps the others in order, and `Ingest.DistinctHeadersOnlyMiss` proves that the
load can then fail only on a missing column.

## Model

| member | source | states |
|---|---|---|
| `Text.Strip` | app.py:69 | the result has no surrounding whitespace, is no longer than the input, and is the slice left after the leading run of whitespace |
| `Text.StripUnique` | app.py:69 | whatever whitespace surrounds a trimmed name, stripping gives back exactly that name |
| `Text.StripIdempotent` | app.py:69 | stripping a stripped name changes nothing |
| `Text.StrLeTotal` | app.py:246 | Python's string order compares any two strings |
| `Text.StrLeTransitive` | app.py:246 | Python's string order is transitive |
| `Text.StrLeAntisymmetric` | app.py:246 | two strings ordered both ways are equal, so the group keys' order is a total order |
| `Text.StrLeReflexive` | app.py:246 | every string is ordered before or equal to itself |
| `Text.StrLtPrefix` | app.py:103 | a common prefix keeps the order of two strings |
| `Text.StrLtAppend` | app.py:103 | of two equally long strings, the smaller stays smaller whatever follows each |
| `Sequences.SortBy` | app.py:216 | the result is a permutation of the input, sorted under the given total preorder |
| `Sequences.Head` | app.py:216 | `head(n)` keeps the first `min(n, len)` elements |
| `Sequences.HeadOfSorted` | app.py:216 | `head(n)` of a sorted sequence is sorted and takes only elements of the sequence |
| `Sequences.HeadKeepsFirst` | app.py:216 | after sorting, everything `head(n)` keeps comes before everything it leaves out |
| `Sequences.Distinct` | app.py:215 | the distinct values: no duplicates, the same elements as the input, no longer than it |
| `Sequences.NoDuplicatesCardinality` | app.py:203 | a duplicate-free sequence has as many distinct values as elements |
| `Calendar.Day` | app.py:186-187 | `.dt.date` is the floor of the timestamp divided by a day, within pandas' representable range |
| `Calendar.DayMonotone` | app.py:186-187 | a later timestamp never falls on an earlier day |
| `Calendar.MonthsFillYear` | app.py:103 | the months of a year add up to its length in days |
| `Calendar.YearAndOrdinal` | app.py:103 | a day count splits into a year and a day of that year that add back up to it |
| `Calendar.MonthOf` | app.py:103 | a day of the year lies inside the month found for it |
| `Calendar.YearMonth` | app.py:103 | the period of a timestamp is the calendar month whose days contain the timestamp's day, with a year in pandas' range 1677..2262 and a month in 1..12 |
| `Calendar.MonthsInOrder` | app.py:103 | an earlier month ends no later than a later month starts |
| `Calendar.DigitsRoundTrip` | app.py:103 | the zero-padded digits of a number read back as that number |
| `Calendar.DigitsOrdered` | app.py:103 | zero-padded digits of equal width order as the numbers do |
| `Calendar.MonthLabelsOrdered` | app.py:103 | `YYYY-MM` labels order as their months do |
| `Calendar.MonthKey` | app.py:103 | `to_period("M").astype(str)` is `"NaT"` exactly when the timestamp is missing; otherwise it is seven characters with `-` in position 4 |
| `Calendar.MonthKeySpells` | app.py:103 | the key spells the year and then the month of the timestamp's calendar month |
| `Calendar.LaterMonthLaterTime` | app.py:103 | a timestamp in an earlier month is earlier |
| `Calendar.MonthKeyOrdered` | app.py:103 | a later timestamp never has a smaller key, so the trend's key order is time order |
| `Calendar.MonthKeySameMonth` | app.py:103 | two timestamps share a key exactly when they fall in the same calendar month |
| `Table.Where` | app.py:172 | a boolean mask keeps exactly the rows satisfying it, in their original order |
| `Table.WhereCounts` | app.py:172 | a mask keeps every copy of a satisfying row and no copy of any other |
| `Table.WhereConcat` | app.py:172 | masking distributes over concatenation |
| `Table.WhereCommutes` | app.py:171-181 | applying two masks in either order gives the same rows |
| `Table.WhereAll` | app.py:169-188 | masking by a list of conditions keeps exactly the rows satisfying all of them, in order |
| `Table.WhereAllCounts` | app.py:169-188 | masking by a list of conditions keeps every copy of a row satisfying all of them and no copy of any other |
| `Table.WhereNarrows` | app.py:169-188 | narrowing by one more mask equals masking by the extended condition list |
| `Ingest.StripHeaders` | app.py:69 | every header is stripped and the count is unchanged |
| `Ingest.StripHeadersIdempotent` | app.py:69 | stripping the headers twice is stripping them once |
| `Ingest.Without` | app.py:80 | dropping labels keeps, in order, every copy of a column whose label is not dropped and no copy of one that is |
| `Ingest.DropColumns` | app.py:76-80 | `df.drop(df.columns[positions])` keeps, in order, every copy of each column whose label is not found at a dropped position, and nothing else |
| `Ingest.DroppedLabelAt` | app.py:76-80 | with distinct headers a label is dropped exactly when it stands at position 2, 4 or 8 to 27 |
| `Ingest.DropByPosition` | app.py:76-80 | when labels are dropped exactly at those positions, the drop keeps positions 0, 1, 3, 5, 6, 7 and 28 onward, in order |
| `Ingest.DropDistinctColumns` | app.py:76-80 | with distinct headers the drop removes exactly positions 2, 4 and 8 to 27 (22 columns) and keeps the rest in order |
| `Ingest.ReadError` | app.py:85-93 | an absent column raises a missing-column error; a present but unreadable one is a parsed column held by two labels |
| `Ingest.FirstFault` | app.py:85-93 | no error exactly when every column read by name is present and each parsed one is held by one label; otherwise the error of the first read, in reading order, that raises |
| `Ingest.DistinctHeadersOnlyMiss` | app.py:69-93 | when the stripped headers are distinct, loading can fail only on a missing column |
| `Ingest.CutIndex` | app.py:96-100 | `pd.cut` with right-closed bins finds the bin containing the value, and none outside the bins |
| `Ingest.Bucket` | app.py:96-100 | (-1,1] is "0–1 hr", (1,5] is "1–5 hrs", (5,24] is "5–24 hrs", (24,1e6] is ">24 hrs"; a missing value or one outside (-1,1e6] has no bucket |
| `Ingest.Normalize` | app.py:85-103 | after loading, the four categorical cells are present (the original value or its sentinel), parsed values pass through, the month key is "NaT" exactly for a missing shutdown, a bucket implies a value in (-1,1e6], and the bucket and month key are those `Bucket` and `MonthKey` give for the row's downtime and shutdown |
| `Ingest.DeriveColumns` | app.py:90-103 | the column assignments give one row per raw row, equal to its normalisation |
| `Ingest.LoadData` | app.py:64-105 | fails with `TooFewColumns` exactly when there are fewer than 28 headers; otherwise fails with the error of the first column read that raises (absent, or parsed and duplicated); otherwise it succeeds with one normalised row per input row |
| `Filter.Matches` | app.py:171-188 | with every selector on "All" and no two dates every row matches; with two dates a row without a shutdown timestamp never matches; a chosen well admits only that well's rows |
| `Filter.Selected` | app.py:169-188 | the filtered table is an order-preserving subsequence holding every copy of each row matching every active selector and, when two dates were picked, the date range, and no copy of any other row |
| `Filter.ConditionsMatch` | app.py:171-188 | a row satisfies the masks the filter block applies exactly when it matches the selection |
| `Filter.ApplyFilters` | app.py:169-188 | narrowing a copy selector by selector yields exactly the selected rows |
| `Filter.SelectedIdempotent` | app.py:169-188 | filtering the filtered table again changes nothing |
| `Filter.EarliestShutdown` | app.py:152 | `min()` skips missing timestamps: none when no timestamp is present, otherwise a present timestamp not above any other |
| `Filter.LatestShutdown` | app.py:153 | `max()` skips missing timestamps: none when no timestamp is present, otherwise a present timestamp not below any other |
| `Filter.DefaultDates` | app.py:152-162 | the page stops exactly when no shutdown has a timestamp; otherwise the default range holds two ordered days covering every dated row, each the day of some row's shutdown |
| `Filter.Dated` | app.py:184-188 | every copy of each row with a shutdown timestamp, in order, and nothing else |
| `Filter.DefaultSelectionShowsDated` | app.py:152-188 | with every selector on "All" and the default range, the filter keeps exactly the rows with a shutdown timestamp |
| `Aggregate.ReportedCount` | app.py:201 | the number of present downtimes is at most the row count, and 0 exactly when none is present |
| `Aggregate.ReportedCountConcat` | app.py:201 | the number of present downtimes is additive over concatenation |
| `Aggregate.ReportedCountAll` | app.py:201 | every row is counted exactly when every row reports its downtime |
| `Aggregate.TotalConcat` | app.py:200 | the downtime sum is additive over concatenation |
| `Aggregate.TotalOfOne` | app.py:200 | one row adds its downtime when present and nothing when missing; with `TotalConcat` this fixes every sum |
| `Aggregate.TotalOfUnreported` | app.py:200 | with no downtime present the sum is 0 |
| `Aggregate.MeanDowntime` | app.py:201 | the average is missing exactly when no downtime is present |
| `Aggregate.MeanTimesCount` | app.py:201 | the average times the number of present values is the total |
| `Aggregate.LongestDowntime` | app.py:297 | `max()` is missing exactly when no downtime is present; otherwise it is some row's value and no value exceeds it |
| `Aggregate.ReportedWeightIsCount` | app.py:201 | the number of present downtimes, counted in the reals, equals the count `.mean()` divides by |
| `Aggregate.TotalAtMost` | app.py:200-201 | values none above a bound sum to at most the bound counted once per present value |
| `Aggregate.BoundSumIsProduct` | app.py:201 | the bound counted once per present value is the bound times the number of present values |
| `Aggregate.MeanAtMostLongest` | app.py:296-297 | when the average is present, so is the longest, and the average does not exceed it |
| `Aggregate.Over24Count` | app.py:202 | the ">24h" count counts only present downtimes; it is 0 exactly when no row is above 24 hours, and equals the present count exactly when every present downtime is above 24 hours |
| `Aggregate.Over24Concat` | app.py:202 | the ">24h" count is additive over concatenation |
| `Aggregate.AffectedWells` | app.py:203 | the number of distinct wells is at most the row count, and 0 exactly for an empty table |
| `Aggregate.DashboardKpis` | app.py:199-203 | the tiles are the row count, total, average, ">24h" count and distinct wells of the same rows; ">24h" and wells are at most the row count; wells is 0 only for an empty table; the average is missing exactly when no downtime is, and then the total is 0 |
| `Aggregate.NullSafeKpis` | app.py:199-203 | downtimes 10, missing and 30 give 3 shutdowns, a total of 40, an average of 20 and one shutdown above 24 h |
| `Aggregate.GroupKeys` | app.py:215 | `groupby` keys: each value present in the column exactly once, strictly ascending |
| `Aggregate.GroupKeysCount` | app.py:203 | there are as many well groups as distinct wells |
| `Aggregate.GroupOfConcat` | app.py:215 | a group's size and downtime sum are additive over blocks of rows, and a key no row carries has an empty group |
| `Aggregate.CountsPartition` | app.py:246 | the group sizes over keys covering every row once add up to the row count |
| `Aggregate.DowntimePartition` | app.py:215 | the group sums over keys covering every row once add up to the whole downtime |
| `Aggregate.GroupTotalsAddUp` | app.py:307-309 | the per-group downtime totals add up to the total downtime |
| `Aggregate.RankedWells` | app.py:214-216 | one total per distinct well, each equal to that well's summed downtime, sorted largest first |
| `Aggregate.TopWells` | app.py:214-217 | the chart has `min(10, distinct wells)` bars |
| `Aggregate.TopWellsBars` | app.py:214-217 | each bar is a distinct well occurring in the rows, carrying its summed downtime, and the totals do not increase |
| `Aggregate.TopWellsAreLargest` | app.py:216 | a well left off the chart has no more downtime than any bar shown |
| `Aggregate.LeftOutNotLarger` | app.py:216 | a total the ranking leaves out of its first ten is no larger than any kept |
| `Aggregate.MonthlyCounts` | app.py:246 | one point per distinct month key, in the order of the group keys, the counts adding up to the row count |
| `Aggregate.MonthlyCountsOrdered` | app.py:246 | the monthly points come in strictly ascending key order |
| `Aggregate.MonthlyCountsCover` | app.py:246 | every row's month key has a point in the trend |
| `Aggregate.MonthlyCountsFromRows` | app.py:246 | every point of the trend is the month key of some row |
| `Aggregate.MonthlyCountsTotal` | app.py:246 | each point counts the rows of its key, and none is empty |
| `Aggregate.UndatedMonth` | app.py:103 | for loaded rows, the "NaT" group holds exactly the rows without a shutdown timestamp |
| `Report.LatestEvents` | app.py:414-416 | twenty rows or all when fewer, sorted latest first with missing timestamps last, drawn from the input without repeating any row more often than it occurs |
| `Report.LatestEventsShown` | app.py:414-416 | every row shown is a row of the input, and each is no earlier than the next |
| `Report.LatestEventsFirst` | app.py:414-416 | no row left out is later than one shown |
| `Report.Lines` | app.py:416-422 | one five-column line per row, projecting that row |
| `Report.WellReport` | app.py:285-311 | the report fails exactly when the well has no row in the unfiltered table; otherwise it holds, for exactly that well's rows, their count, null-safe total, mean and maximum downtime, monthly counts, per-reason totals and the lines of the latest events |
| `Report.PickedWellHasReport` | app.py:278-287 | every well offered by the report picker has rows, so its report succeeds |
| `Report.WellReportFigures` | app.py:294-311 | the count is the number of the well's rows; the monthly counts add up to it; the per-reason totals add up to the total downtime; average and longest are both present or both missing, and the average does not exceed the longest |
| `Report.WellReportEventCount` | app.py:414-416 | the event table has `min(20, n)` lines |
| `Report.WellReportEventRows` | app.py:414-422 | each line shows a row of the selected well |
| `Report.WellReportEventOrder` | app.py:414-416 | lines run from the latest shutdown down, missing timestamps last |
| `Report.WellReportEventsLatest` | app.py:414-416 | none of the well's rows left out is later than a line shown |

## Left out

- The Streamlit page is left out: configuration, CSS, widgets, messages, `st.stop` control flow and `@st.cache_data` memoisation. The stops appear only as the error results `LoadError`, `FilterError.NoValidDates` and `ReportError.NoDataForWell`.
- Reading the workbook with openpyxl and writing the filtered export are file I/O and are left out.
- `pd.to_datetime` and `pd.to_numeric` parsing is pandas' own behaviour; each raw row carries the parsed results as `Option`s.
- Plotly figures, Kaleido image export, temporary files and the ReportLab PDF layout are rendering through foreign libraries. Only the data they are given is modelled.
- The float formatting of the KPI strings is left out, and downtime is an exact `real`. This means no floating-point rounding is modelled in sums or averages.
- Tie order in `sort_values` is left out. pandas' default sort is not stable, so the model claims nothing about the relative order of equal totals or equal timestamps.
- The columns left out of the model are not carried: the sheet's other columns, including duplicate labels kept after the drop. `Event` holds only the columns the page reads and derives.
- Ingest.LoadData: when the strip leaves two Site, Well, ShutdownReason or Alert columns with one label, pandas fills both copies and the load goes on; the model keeps one value per row for each of these columns, so the copies are not carried.
- Headers repeated exactly are renamed by `read_excel` ("X", "X.1") before `load_data` sees them; the model starts from the header names as read.
- `Report.Lines`: the report's `astype(str)` of the two timestamps is not modelled; lines keep the timestamps themselves.
- The row-count caption, the reason pie over filtered rows, the event log sorted by shutdown for display (app.py:258-262) and the unsorted filtered Excel download (app.py:264-272) only display or export rows that the model already computes (app.py:190-192, 233-272).
