# DailyTracker in Dafny

DailyTracker is a desktop tracker for personal daily metrics. Each calendar
day has at most one record, which holds:

- the time the user fell asleep;
- body weight;
- a 1–10 rating;
- steps;
- calories eaten;
- a free-text note.

The user enters a day through a form. The records appear in a table that can
be filtered by year, month or date range. The program imports records from
CSV (its own template and its full export), exports them as CSV or JSON,
charts one column over time, and reads its settings from a JSON configuration
tree. A stand-alone script converts a legacy sleep column, stored as an
hour offset from midnight, into the template layout.

This project models that core:

| module | file | models |
|---|---|---|
| `Common` | common.dfy | dates, times of day, the date order, `MapSeq` |
| `Text` | text.dfy | `str.strip`, `str.split`/`join`, substring search, Python's `int()`/`float()` on text, truncation |
| `Strptime` | strptime.dfy | the `strptime` formats `%Y-%m-%d`, `%H:%M`, `%H:%M:%S` and the matching `strftime`/`str(timedelta)` texts |
| `RecordStore` | record_store.dfy | `DatabaseManager`: the `daily_records` table as a class whose `rows` field the methods update (insert-or-update by date, update by id, delete by id, queries) |
| `ImportExport` | import_export.dfy | `DataManager`: CSV import in its two dialects, export selection, CSV and JSON cells |
| `ChartAxis` | chart_axis.dfy | `ChartManager`: which points are plotted, the x-axis plan, titles and labels |
| `ConfigTree` | config_tree.dfy | `ConfigManager`: dotted-path `get`/`set` on the JSON tree |
| `SleepConverter` | sleep_converter.dfy | `convert_sleep_data.py`: hour offsets to `HH:MM`, and the converted CSV |
| `TrackerForm` | tracker_form.dfy | `DailyTrackerApp`: form validation, the table's text, form loading, filters, and the form actions |

The `daily_records` table is modelled as a `map` from date to row (the
date column is UNIQUE), held in the `rows` field of a `Store` object together
with the AUTO_INCREMENT counter. Each SQL statement the source sends is
written as the change it makes to that map:

- `INSERT … ON DUPLICATE KEY UPDATE` is `Upsert`;
- `UPDATE … WHERE id` is `UpdateWhereId`;
- `DELETE … WHERE id` is `DeleteWhereId`;
- each `SELECT` chooses a set of dates, and `Collect` lists their records in
  date order.

A failed connection is the `reachable` parameter. The form and the dialogs
hand their text to the model as parameters.

The source's own test table for the sleep converter (convert_sleep_data.py:131-139)
expects `"23:26"` for an offset of −0.43 hours. The code computes `"23:34"`,
which agrees with the code's own comment. `SleepConverter.ConversionExamples`
proves `"23:34"`, because the model follows the code.

## Model

| member | source | states |
|---|---|---|
| Text.StripEmptyIffBlank | data_manager.py:391-392 | `strip()` yields the empty string exactly when the text is empty or only white space |
| Text.StripIdempotent | data_manager.py:391-392 | stripping twice is stripping once |
| Text.Strip | data_manager.py:391-392 | `strip()` never lengthens the text, and its result is empty or starts and ends with a non-space character |
| Text.ParseInt | main.py:344-348 | `int()` refuses a blank text |
| Text.NegativeNeedsMinus | main.py:344-348 | `int()` returns a negative number only for a text whose stripped form starts with `-` |
| Text.ParseFloat | data_manager.py:326 | `float()` refuses a blank text |
| Text.Split | config_manager.py:53 | `split('.')` gives at least one piece and none of the pieces holds the separator |
| Text.JoinSplit | config_manager.py:53 | joining the pieces of a split with the separator gives back the text |
| Text.SplitJoin | config_manager.py:53 | splitting the join of separator-free pieces gives back the pieces |
| Text.Contains | data_manager.py:385 | `in` on strings holds exactly when the pattern occurs at some position |
| Text.Truncate | data_manager.py:333 | `int()` of a float truncates toward zero: the result is no farther from zero than the input, and less than one away from it |
| Text.DigitsParse | main.py:500 | a non-empty string of digits parses as the natural number it spells |
| Text.Pad2ParsesBack | convert_sleep_data.py:44 | the `%02d` text of any integer has at least two characters and reads back through `int()` as that integer |
| Strptime.ParseDate | data_manager.py:395 | a date `%Y-%m-%d` returns is always a real calendar date (month 1..12, day within the month) |
| Strptime.ParseTimeHM | main.py:402 | `%H:%M` returns only a valid time whose second is 0 |
| Strptime.ParseTimeHMS | data_manager.py:402 | `%H:%M:%S` returns only a valid time of day |
| Strptime.DateRoundTrip | data_manager.py:70 | parsing the `YYYY-MM-DD` text of any valid date with a four-digit year gives back that date |
| Strptime.ClockRoundTrip | main.py:160 | `%H:%M` parses the zero-padded text of any hour 0..23 and minute 0..59 as that time, second 0 |
| Strptime.TimedeltaRoundTrip | data_manager.py:71 | parsing `str(timedelta)` of any valid time with `%H:%M:%S` gives back the time |
| Strptime.FormatDate | data_manager.py:70 | `strftime('%Y-%m-%d')` is the year digits followed by `-MM-DD`: six characters beyond the year, dashes at the two separator positions |
| Strptime.TimedeltaText | data_manager.py:71 | `str(timedelta)` is `H:MM:SS`: at least seven characters with colons at the two separator positions |
| Strptime.TimedeltaTextParts | data_manager.py:71 | `str(timedelta)` of a time of day is its hour, a colon, the padded minute, a colon and the padded second |
| Strptime.HmsParsesBack | data_manager.py:402 | `%H:%M:%S` reads an unpadded hour with padded minute and second back as that time |
| Strptime.ClockHourOutOfRange | convert_sleep_data.py:44 | `%H:%M` refuses a two-digit clock text whose hour is 24 or more |
| RecordStore.Store.constructor | database_manager.py:52-81 | the table starts empty, the next id is 1, and the store invariant (valid dates, unique ids all below the next id) holds |
| RecordStore.Store.InsertRecord | database_manager.py:83-109 | an unreachable database changes nothing and reports failure; otherwise the table becomes the upsert of the row by its date, and the next id advances on every successful upsert, also when the date was already stored |
| RecordStore.Store.UpdateRecord | database_manager.py:156-186 | succeeds exactly when the database is reachable and some argument is not None; then the table is the update by id with the non-None arguments, otherwise unchanged |
| RecordStore.Store.BuildSetClause | database_manager.py:165-170 | the loop builds the SET clause of `SetClause` |
| RecordStore.Store.DeleteRecord | database_manager.py:188-203 | when reachable, the rows with the id are removed and no other row changes; otherwise nothing changes |
| RecordStore.Store.Collect | database_manager.py:121-127 | the result lists each selected date's record exactly once, strictly ordered by date in the requested direction |
| RecordStore.Store.GetAllRecords | database_manager.py:111-132 | every row, ascending by date when `order.upper()` is `ASC`, descending otherwise; nothing when unreachable |
| RecordStore.Store.GetAllRecordsDesc | database_manager.py:134-136 | every row, newest date first |
| RecordStore.Store.GetRecordsByDateRange | database_manager.py:138-154 | exactly the rows whose date lies in the closed range, oldest first |
| RecordStore.Store.GetRecordsByYearMonth | database_manager.py:240-270 | exactly the rows of the year, or of the month within it, oldest first |
| RecordStore.Store.GetRecordByDate | database_manager.py:223-238 | the row stored for that date when there is one, None otherwise |
| RecordStore.Store.GetColumnData | database_manager.py:205-221 | exactly the rows whose column is not null, as (date, value) pairs, strictly ascending by date; nothing when unreachable |
| RecordStore.Store.ProjectColumn | database_manager.py:212-216 | the k-th pair is the k-th fetched row's date and its value in the column |
| RecordStore.Upsert | database_manager.py:90-101 | after the upsert the table holds the row's values for its date; no other date changes and no date is lost |
| RecordStore.UpsertTwiceLastWins | database_manager.py:93-99 | two saves of the same date leave the second save's values |
| RecordStore.SetClause | database_manager.py:165-170 | the SET clause is never longer than the argument list (which arguments it holds is `SetClauseMembers`) |
| RecordStore.SetClauseMembers | database_manager.py:167-170 | a column is in the SET clause exactly when its argument is not None |
| RecordStore.NoneArgumentsSkipped | database_manager.py:167-173 | an update with only None arguments assigns nothing |
| RecordStore.ArgValue | database_manager.py:164-169 | an argument gives its column no value exactly when it is None |
| RecordStore.AssignColumn | database_manager.py:174-177 | one assignment sets its own column to its value and leaves every other column |
| RecordStore.AssignAllUntouched | database_manager.py:174-177 | assignments to other columns leave a column as it was |
| RecordStore.SetClauseAppend | database_manager.py:164-169 | the SET list of two argument lists is the two SET lists in order |
| RecordStore.ClauseKeepsUnsetColumn | database_manager.py:164-177 | a column with no non-None argument keeps its value under the SET list |
| RecordStore.ClauseSetsGivenColumn | database_manager.py:164-177 | a column with a non-None argument takes that argument's value (the last one, were there several) under the SET list |
| RecordStore.UpdateKeepsUnsetColumn | database_manager.py:164-177 | after `update_record` every row keeps each column that no argument sets to a non-None value |
| RecordStore.UpdateSetsGivenColumn | database_manager.py:164-177 | after `update_record` the row with that id holds each non-None argument's value in its column |
| RecordStore.UpdateWhereId | database_manager.py:175 | no date is added or lost, every id is kept, and rows with another id are unchanged (what the matched row's columns become is stated by `UpdateKeepsUnsetColumn` and `UpdateSetsGivenColumn`) |
| RecordStore.DeleteWhereId | database_manager.py:195 | the result holds exactly the rows whose id differs, unchanged |
| RecordStore.RangeKeys | database_manager.py:145 | a date is selected exactly when it lies between the bounds, inclusive |
| RecordStore.HalfOpenKeys | database_manager.py:254 | a date is selected exactly when it is at or after the start and before the end |
| RecordStore.MonthBoundsSelectMonth | database_manager.py:247-255 | the bounds for a year and month select exactly that month's dates |
| RecordStore.YearBoundsSelectYear | database_manager.py:256-261 | the bounds for a year select exactly that year's dates |
| RecordStore.OutOfRangeMonthSelectsNothing | database_manager.py:247-255 | for a month outside 1..12 (other than 0) the bounds `f"{year}-{month:02d}-01"` and the next month's, compared as (year, month, day), hold no valid date, so the query returns nothing |
| RecordStore.Upper | database_manager.py:123 | the result, which decides `order.upper() == "ASC"`, maps each character through the upper-case map of the ASCII letters, dotless i and long s |
| RecordStore.CollectStep | database_manager.py:124 | appending the first remaining date's record keeps the partial result a correctly ordered listing |
| RecordStore.ColumnSeries | database_manager.py:212 | the pairs of a listing of the non-null rows are exactly those rows' dates and values, ascending |
| RecordStore.UpsertKeepsIdsUnique | database_manager.py:60-62 | an upsert with a fresh next id keeps the ids unique |
| RecordStore.SameIdsKeepIdsUnique | database_manager.py:175-195 | a change that keeps every remaining row's id, as update and delete by id do, keeps the ids unique |
| ImportExport.DetectDialect | data_manager.py:381-385 | the template layout is chosen exactly when the stripped first line contains the template header |
| ImportExport.TemplateHeaderDetected | data_manager.py:337-342 | a file that starts with the template the program writes is read in the template layout |
| ImportExport.DictRowLookup | data_manager.py:387-388 | a header's cell is the cell in its position, or None past the end of a short row |
| ImportExport.ParseSleepTime | data_manager.py:397-407 | a blank sleep cell is None, and a parsed time is always a valid time of day |
| ImportExport.ParseOptionalFloat | data_manager.py:323-328 | a missing cell reads as None (the values it reads are given by `OptionalFloatOfTrimmed`, `WeightCellReadBack`) |
| ImportExport.ParseOptionalInt | data_manager.py:330-335 | an integer is read exactly when the float is, and is its truncation |
| ImportExport.ParseRow | data_manager.py:389-414 | a parsed row has a valid date, and that date is what its stripped date cell parses to |
| ImportExport.BlankDateSkipped | data_manager.py:391-393 | a row whose date cell is blank is skipped |
| ImportExport.SkippedIffStrippedBlank | data_manager.py:391-393 | a row is skipped exactly when its date cell is present and strips to nothing |
| ImportExport.NumbersNeverFailRow | data_manager.py:409-413 | the numeric cells never make a row fail |
| ImportExport.ParseRowStores | data_manager.py:389-414 | a row with a good date, sleep cell and note cell is stored |
| ImportExport.StoredFields | data_manager.py:409-414 | the stored note is None exactly when the note cell is blank and is the stripped cell otherwise; a missing weight, rating, steps or calories cell stores None |
| ImportExport.BadDateFails | data_manager.py:395 | a non-blank date cell that is not a date counts as an error |
| ImportExport.EveryDatedRowCounted | data_manager.py:426-432 | successes plus errors equal the rows with a non-blank date |
| ImportExport.ImportTouchesOnlyStoredDates | data_manager.py:417-425 | the import changes no date that none of the stored rows carries |
| ImportExport.ImportLastRowWins | data_manager.py:417-425 | a date's final values are those of the last stored row carrying it |
| ImportExport.YearExportSelectsYear | data_manager.py:246-250 | the year export holds exactly the records of that year |
| ImportExport.CsvCells | data_manager.py:66-80 | an exported CSV line has eight cells, and a value cell is empty exactly when the value is falsy (None, 0, 00:00:00 or empty) |
| ImportExport.JsonObject | data_manager.py:296-310 | an exported JSON object has exactly the eight column keys, and a value is null exactly when it is falsy |
| ImportExport.JsonTextsAgree | data_manager.py:298-307 | the JSON id is the record's id, the JSON date is the CSV date cell and reads back as the record's date, and a truthy note is the record's note and the CSV note cell |
| ImportExport.JsonSleepAgrees | data_manager.py:301 | a truthy JSON sleep time is the CSV sleep cell and reads back as the record's sleep time |
| ImportExport.JsonNumbersAgree | data_manager.py:302-305 | a truthy JSON weight is the record's weight as a float and the number the CSV weight cell reads back as; each truthy count is the record's count and what its CSV cell reads back as |
| ImportExport.CsvAndJsonBlankAlike | data_manager.py:68-79 | a CSV cell is empty exactly when the JSON value is null |
| ImportExport.IntTextAsFloat | data_manager.py:333 | the text `str(n)` of an integer reads back as n through `float()` |
| ImportExport.HundredthsTextAsFloat | data_manager.py:326 | the text of a weight in hundredths reads back as that weight |
| ImportExport.DateCellReadBack | data_manager.py:70 | an exported date cell imports as the same date |
| ImportExport.SleepCellReadBack | data_manager.py:71 | an exported sleep cell imports as the same time, or None when it was missing or midnight |
| ImportExport.TimedeltaTextReadBack | data_manager.py:402 | the `str(timedelta)` text of a time parses back as that time |
| ImportExport.WeightCellReadBack | data_manager.py:72 | an exported weight cell imports as the same weight, or None when the weight was falsy |
| ImportExport.IntCellReadBack | data_manager.py:73 | an exported rating, steps or calories cell imports as the same integer, or None when it was falsy |
| ImportExport.SleepCell | data_manager.py:71 | the exported sleep cell is empty exactly when the stored time is falsy |
| ImportExport.WeightCell | data_manager.py:72 | the exported weight cell is empty exactly when the weight is falsy |
| ImportExport.IntCell | data_manager.py:73-75 | a rating, steps or calories cell is empty exactly when the value is falsy |
| ImportExport.NoteCell | data_manager.py:76 | the note cell is empty exactly when the note is falsy, and otherwise is the note itself |
| ImportExport.TemplateColumnsRead | data_manager.py:339 | the template header names the columns the importer reads, in the order date, sleep, weight, rating, steps, calories, note |
| ImportExport.TemplateLineCells | data_manager.py:339-342 | a seven-cell line read under the template header gives each column its own cell |
| ImportExport.NatCell | data_manager.py:330-335 | the decimal text of a positive integer reads back as that integer |
| ImportExport.TrimmedDecimalCell | data_manager.py:323-328 | a decimal text starting and ending with a digit reads as its value |
| ImportExport.TenthsAsFloat | data_manager.py:323-328 | a weight written with one decimal reads back as that weight |
| ImportExport.ClockCellParses | data_manager.py:397-407 | an `HH:MM` sleep cell is read by the second format as that time with second 0 |
| ImportExport.TemplateRowImport | data_manager.py:389-414 | a row with a valid date, a one-decimal weight, positive whole counts and a trimmed note is stored with exactly those values and the parsed sleep cell |
| ImportExport.ExampleLineImport | data_manager.py:339-342 | a template line of that shape imports as those values |
| ImportExport.TemplateExamplesImport | data_manager.py:337-342 | each of the three example lines the template ships imports as the date and values it spells out; the second one's empty sleep cell is stored as None |
| ImportExport.ExportedRowCells | data_manager.py:436-437 | read under the export header, each column the importer reads holds the matching exported cell |
| ImportExport.ImportOfExportedCells | data_manager.py:437-463 | a row carrying an exported record's cells parses as that record's date and values, falsy ones read as None and the note stripped |
| ImportExport.ExportThenImport | data_manager.py:437-463 | the exported CSV line of a record, read under the export header, imports back as that record's date and values |
| ImportExport.FirstSleepFormat | data_manager.py:400-402 | trimmed text accepted by `%H:%M:%S` is read in that format |
| ImportExport.OptionalFloatOfTrimmed | data_manager.py:326 | a trimmed cell that `float()` accepts reads as that float |
| ImportExport.DataManager.constructor | data_manager.py:11-12 | the manager works on the given store |
| ImportExport.DataManager.ImportFromCsv | data_manager.py:375-489 | the dialect comes from the first line; the store ends as the replay of the rows' outcomes; the counts are the stored and the failed rows; the import reports success exactly when some row was stored |
| ImportExport.DataManager.ImportRow | data_manager.py:437-481 | one pass of the loop extends the replay and both counts by one row |
| ImportExport.DataManager.StoreRow | data_manager.py:466-477 | a parsed row is upserted by date and draws the next id when the insert succeeds; a failed row or a failed insert counts as an error |
| ImportExport.DataManager.GetRecordsByYear | data_manager.py:246-250 | the records from January 1 to December 31 of the year, ascending; nothing when unreachable |
| ImportExport.DataManager.SelectForExport | data_manager.py:14-43 | a cancelled dialog cancels; a year outside 1..9999 is refused; otherwise the records the mode selects, ascending, or nothing found |
| ChartAxis.Kept | chart_manager.py:33-34 | no more points are kept than given (which ones is `KeptMembers`) |
| ChartAxis.KeptMembers | chart_manager.py:33-34 | a point is kept exactly when it is in the data and its value is not None |
| ChartAxis.FilterAligned | chart_manager.py:32-34 | the plotted date and value lists have the kept points' length and the j-th date stays paired with the j-th value |
| ChartAxis.NothingKeptIffAllNone | chart_manager.py:36-38 | the no-data message is shown exactly when every value is None |
| ChartAxis.Min | chart_manager.py:86 | `min(dates)` is a member of the dates and no later than any of them |
| ChartAxis.Max | chart_manager.py:87 | `max(dates)` is a member of the dates and no earlier than any of them |
| ChartAxis.XAxisPlan | chart_manager.py:80-123 | the axis is left alone exactly when there are no dates; otherwise labels are rotated 45 degrees, right-aligned |
| ChartAxis.Span | chart_manager.py:88 | every date lies between the earliest date and the earliest plus the span |
| ChartAxis.PlanCases | chart_manager.py:90-123 | up to 60 days: day ticks, every day up to 30 days and every second day beyond, `%m-%d`, label size 8 except 7 for 15..30 days; beyond 60: `%Y-%m` with daily minor ticks |
| ChartAxis.PlanIgnoresOrder | chart_manager.py:86-88 | the plan depends only on which dates are plotted, not their order |
| ChartAxis.DailyTicksBounded | chart_manager.py:90-104 | at most 31 tick days lie between the first and last plotted date, and the interval is 2 whenever daily ticks there would exceed 31 |
| ChartAxis.DefaultTitle | chart_manager.py:44-52 | every default title ends with the trend suffix, and an unknown column's title is its name plus that suffix |
| ChartAxis.ChartTitle | chart_manager.py:52 | a non-empty given title is used; an absent or empty one gives the default title |
| ChartAxis.YLabelFallsBackToColumn | chart_manager.py:57-64 | the y label is the column name exactly when the column is not one of the known ones |
| ChartAxis.ChartOutcome | chart_manager.py:17-67 | the no-data message appears exactly when every value is None; otherwise the chart plots the kept points in order with a title and tick plan |
| ChartAxis.CreateLineChart | chart_manager.py:17-67 | no data gives the no-data message; a drawn chart has equally many dates and values, at least one, the x label `日期`, a non-empty title and a tick plan |
| ChartAxis.PlanForRange | chart_manager.py:90-123 | day ticks exactly up to 60 days: interval 1 up to 30 days and 2 beyond, `%m-%d`, label size 7 for 15..30 days and 8 otherwise; beyond 60 days month ticks, `%Y-%m`, sizes 10/8/2 and daily minor ticks of size 4/1; always rotated 45 degrees, right-aligned |
| ChartAxis.FullSeriesPlottedWhole | chart_manager.py:32-41 | a series with no None values is plotted whole |
| ChartAxis.KeptAll | chart_manager.py:33-34 | filtering a list with no None values keeps it unchanged |
| ConfigTree.Keys | config_manager.py:53 | a key path has at least one segment |
| ConfigTree.Lookup | config_manager.py:56-60 | the empty path reads the node itself; a non-empty path reads something only through a dict holding its first key; one key reads that entry or nothing |
| ConfigTree.Update | config_manager.py:64-74 | `set` always leaves a dict at the root |
| ConfigTree.LookupAfterUpdate | config_manager.py:64-74 | reading a path just written gives the value written |
| ConfigTree.UpdateKeepsOtherPaths | config_manager.py:64-74 | a path that parts from the written one reads what it read before |
| ConfigTree.UpdateIntermediates | config_manager.py:69-72 | every dict on the written path holds the next segment; a new one holds only it, an old one keeps its other entries |
| ConfigTree.Descend | config_manager.py:69-72 | every dict the walk reaches still satisfies the condition for writing the rest of the path |
| ConfigTree.DescendStep | config_manager.py:69-72 | one more step of the walk enters the child of the current segment |
| ConfigTree.SingleSegment | config_manager.py:79 | a path without dots is one segment |
| ConfigTree.ConfigManager.constructor | config_manager.py:5-37 | the configuration is the file's content when it loads, the defaults otherwise |
| ConfigTree.ConfigManager.Get | config_manager.py:51-62 | the value under the path when it leads to one, the default otherwise |
| ConfigTree.ConfigManager.Set | config_manager.py:64-75 | the configuration becomes the tree with the value stored under the path |
| ConfigTree.ConfigManager.GetDatabaseConfig | config_manager.py:77-79 | the `database` block, or the default block when there is none |
| ConfigTree.GetAfterSet | config_manager.py:51-75 | after `set`, `get` of that path returns the value, and paths that part from it are unchanged |
| SleepConverter.ClockFields | convert_sleep_data.py:29-41 | fields exist exactly for a present offset; hour*60+minute is the minute count (or 1440 minus it when negative), minute in 0..59 |
| SleepConverter.ConvertSleepTime | convert_sleep_data.py:12-47 | a missing offset gives an empty string (the text of a present one is given by `ExampleText` and `OffsetIsClock`) |
| SleepConverter.ConvertedFieldsPadded | convert_sleep_data.py:43-44 | both `%02d` fields of a converted offset have at least two characters and read back as the hour and minute |
| SleepConverter.ClockStringDigits | convert_sleep_data.py:44 | for hour and minute below 100 the text is the two digits of the hour, a colon and the two digits of the minute |
| SleepConverter.ClockTextImports | convert_sleep_data.py:44 | a converted text with an hour below 24 imports as that clock time |
| SleepConverter.OffsetIsClock | convert_sleep_data.py:32-44 | an offset in [-24, 24) that does not round to -0 minutes imports as the time at that minute of the day |
| SleepConverter.NegativeZeroGivesHour24 | convert_sleep_data.py:32-37 | a small negative offset gives `"24:00"`, which the importer reads as no sleep time |
| SleepConverter.ClockHourRejected | convert_sleep_data.py:34-37 | a converted text with an hour from 24 to 99 is dropped by the importer |
| SleepConverter.ConversionExamples | convert_sleep_data.py:131-139 | -0.43 gives `"23:34"` and 0.5 gives `"00:30"` |
| SleepConverter.Wrap | convert_sleep_data.py:32-37 | wrapping keeps presence, sign and minute of the day, and puts a negative count in 1..1440 |
| SleepConverter.ConvertSleepTimeWrapped | convert_sleep_data.py:12-47 | the corrected conversion: a missing offset gives an empty string (present ones: `WrappedBeforeMidnightIsClock`, `WrappedAgrees`) |
| SleepConverter.WrappedBeforeMidnightIsClock | convert_sleep_data.py:32-37 | every negative offset, -0 minutes and those beyond a day included, imports as the time at its minute of the day |
| SleepConverter.WrappedAgrees | convert_sleep_data.py:32-41 | the corrected conversion agrees with the original wherever the original gives a clock time |
| SleepConverter.TemplateLineImport | convert_sleep_data.py:85-93 | a template line with only date and sleep set is skipped without a date, and otherwise imports with its parsed sleep and nothing else |
| SleepConverter.LineWith | convert_sleep_data.py:71-93 | a line takes the year 2025 exactly when the date cell holds a '-', copies the weight, carries the given sleep cell and leaves rating, steps, calories and note empty |
| SleepConverter.ConvertRow | convert_sleep_data.py:69-95 | the line leaves rating, steps, calories and note empty, copies the weight, has a date exactly when the row's date holds a `-`, and has an empty sleep cell when the row has no offset |
| SleepConverter.ConvertedSleepImport | convert_sleep_data.py:79 | the sleep cell `convert_sleep_time` writes imports as the time at the offset's minute of the day for an offset of 1 to 1440 minutes before midnight or under 1440 after it; a missing offset imports as None, and a negative offset that rounds to 0 minutes is written `"24:00"` and imports as None |
| SleepConverter.ConvertRowBlankColumns | convert_sleep_data.py:79-93 | a converted line leaves rating, steps, calories and note empty and carries `convert_sleep_time` of the offset; the corrected line differs only in the sleep cell, and not at all where the original already gives a clock time |
| SleepConverter.ConvertedRowImport | convert_sleep_data.py:69-95 | a converted line without a date is skipped; one that imports has no rating, steps, calories or note, the time at the offset's minute of the day for an offset within a day of midnight, and None for a missing offset |
| SleepConverter.NegativeZeroRowLosesSleep | convert_sleep_data.py:79 | a row whose negative offset rounds to 0 minutes is written with the sleep cell `"24:00"` and imports without a sleep time |
| SleepConverter.WrappedRowImport | convert_sleep_data.py:32-37 | with the corrected conversion every negative offset, and every non-negative one under a day, imports as the time at its minute of the day |
| SleepConverter.ConvertSleepData | convert_sleep_data.py:66-95 | one template line per legacy row, in order, each the row's conversion as written |
| TrackerForm.DurationShown | main.py:163-166 | a duration shows as at least `HH:MM` (its exact text is `DurationShownIsClock`) |
| TrackerForm.DurationShownIsClock | main.py:161-166 | the form shows a stored time as its `HH:MM` text |
| TrackerForm.ClockTextParses | main.py:402 | the form's sleep text parses back as the stored time with seconds zeroed |
| TrackerForm.SeparatorSplits | main.py:498-499 | a text containing the separator splits into at least two parts |
| TrackerForm.ReformattedText | main.py:496-506 | text without a colon is shown as it is, and the result is empty exactly when the text is |
| TrackerForm.TableSleepText | main.py:483-506 | the sleep cell is empty exactly when the delivered value is falsy |
| TrackerForm.FormSleepText | main.py:152-173 | the form's sleep text is empty exactly when the value is falsy, and equals the table's text for a time or a duration |
| TrackerForm.SleepShapesAgree | main.py:483-506 | a time, a duration and a `str(timedelta)` text of the same non-midnight time all show as its `HH:MM` text |
| TrackerForm.TimedeltaTextReformatted | main.py:496-502 | the reformatted `str(timedelta)` text is the clock text |
| TrackerForm.TimedeltaPieces | main.py:498-501 | `str(timedelta)` splits at its colons into three pieces, the first two reading as the hour and the minute |
| TrackerForm.NoteShown | main.py:517 | an empty or missing note shows as an empty cell; a note up to 50 characters as itself; a longer one as its first 50 characters and `...` |
| TrackerForm.RoundTenths | main.py:513 | rounding hundredths to tenths lands within half a tenth, and a tie goes to the even tenth |
| TrackerForm.WeightShown | main.py:513 | the weight cell is empty exactly when the weight is falsy |
| TrackerForm.WeightShownNearest | main.py:513 | the shown weight reads back as a value within half a tenth of the stored one |
| TrackerForm.DisplayRow | main.py:508-518 | a table row has eight cells, the first the record's id, and a value cell is empty exactly when the value is falsy |
| TrackerForm.FormFor | main.py:148-206 | the form carries the selected date; with no record every field is empty; with a record each field is empty exactly when the stored value is falsy, and a shown note is the stored note |
| TrackerForm.FloatEntry | main.py:444-453 | a field is empty exactly when it strips to nothing |
| TrackerForm.IntEntry | main.py:455-464 | a field is empty exactly when it strips to nothing, and refused exactly when `float()` refuses it |
| TrackerForm.SleepEntry | main.py:397-405 | an entered sleep time is a valid time with second 0 |
| TrackerForm.EntriesMatchImporter | main.py:444-464 | a form field and an imported cell with the same text give the same number, for floats and for integers |
| TrackerForm.ValidateForm | main.py:391-420 | an accepted form has a rating in 1..10 or none, a valid sleep time with second 0, and a non-empty stripped note or none |
| TrackerForm.Decide | main.py:397-420 | an accepted decision has an allowed rating, the entered sleep time, and a note that is None exactly when blank |
| TrackerForm.DecideAccepts | main.py:407-420 | the decision accepts given values exactly when every entry is that value, the rating is allowed, and the note matches |
| TrackerForm.AcceptedIff | main.py:397-415 | a form is accepted exactly when no field is refused and the rating is in 1..10 or empty |
| TrackerForm.AcceptedValues | main.py:407-420 | an accepted form saves the parsed value of each field |
| TrackerForm.BlankStoredAsNone | main.py:444-464 | a blank field of an accepted form is stored as None |
| TrackerForm.BadSleepTimeRefused | main.py:400-405 | a sleep text that is neither blank nor `%H:%M` refuses the form |
| TrackerForm.Resubmitted | main.py:175-206 | the values a loaded and resubmitted record gets are those an export and import would give, apart from sleep |
| TrackerForm.LoadThenSubmit | main.py:142-209 | the form loaded from a stored record is accepted and saves the resubmitted values |
| TrackerForm.FormAccepted | main.py:391-420 | a form whose every field enters the given values, with an allowed rating, is accepted with those values |
| TrackerForm.NoteFieldResubmits | main.py:203-206 | the loaded note field submits as the stored note |
| TrackerForm.SleepFieldResubmits | main.py:152-171 | the loaded sleep field enters the stored time with seconds zeroed, or nothing when it was falsy |
| TrackerForm.WeightFieldResubmits | main.py:175-180 | the loaded weight field enters the stored weight, or nothing when it was falsy |
| TrackerForm.IntFieldResubmits | main.py:182-201 | the loaded rating, steps and calories fields enter the stored integers, or nothing when they were falsy |
| TrackerForm.ModeValue | main.py:239-256 | `按年月` maps to the year-month mode and `按日期范围` to the date-range mode, each exactly; every other label maps to the year mode |
| TrackerForm.PlanFilter | main.py:338-357 | year mode: a query for the parsed year, or refused when the year is not a number; year-month mode: a query for the parsed year and month, refused when either is not a number; date-range mode: refused exactly when the end precedes the start, otherwise a query for that range |
| TrackerForm.TrackerApp.ShowQuery | main.py:338-357 | the filter is marked applied and the table shows the queried rows, which are exactly the stored rows the plan selects, ascending; nothing when the store is unreachable |
| TrackerForm.TrackerApp.constructor | main.py:10-24 | the app starts unfiltered with an empty table and no record loaded |
| TrackerForm.TrackerApp.UpdateTable | main.py:475-520 | the table becomes one display row per record, in order |
| TrackerForm.TrackerApp.ApplyFilter | main.py:338-377 | a refused filter changes nothing; otherwise the table shows the records the query selects, ascending, and the filter counts as applied |
| TrackerForm.TrackerApp.ResetFilter | main.py:379-389 | the table is emptied and no filter counts as applied |
| TrackerForm.TrackerApp.LoadDataForDate | main.py:142-214 | the form is filled from the day's record and remembers its id, or is emptied when there is none |
| TrackerForm.TrackerApp.RefreshAfterChange | main.py:435-436 | under an applied filter the table is re-filtered and shows the display rows of the records the filter's query selects, ascending; otherwise nothing changes; the loaded record id and the filter flag are kept |
| TrackerForm.TrackerApp.SaveAccepted | main.py:423-436 | the day's values are upserted when reachable and the next id advances; only after a save under an applied filter is the table re-filtered, as in `RefreshAfterChange` |
| TrackerForm.TrackerApp.SubmitRecord | main.py:391-442 | a refused form changes nothing; an accepted one upserts the day's values when reachable and advances the next id; only after a save under an applied filter is the table re-filtered, then showing the display rows of the records the filter's query selects, ascending; the loaded record id and the filter flag are kept |
| TrackerForm.TrackerApp.DeleteSelected | main.py:559-577 | a selected, confirmed record is deleted by id when reachable, and nothing else in the store changes; only then, under an applied filter, is the table re-filtered, showing the display rows of the records the filter's query selects, ascending; the loaded record id and the filter flag are kept |
| TrackerForm.TableRowsMatchRecords | main.py:481-520 | the table has one row per record, and row i is the display of record i |

## Left out

- The Tkinter interface is not modelled: windows, widgets, the calendar picker and message boxes. Only the values the form and the dialogs hand over, and the resulting state, are modelled. `show_message` affects only whether a box appears.
- The MySQL connection is not modelled: the driver, SQL text, the `created_at`/`updated_at` timestamps, and database creation. A failed connection is the `reachable` parameter.
- RecordStore.Store.GetColumnData: takes one of the six data columns. The source pastes any column name into the query, and an unknown one makes the query fail and return an empty list.
- RecordStore.Store.InsertRecord: follows InnoDB, which draws an AUTO_INCREMENT value for every `INSERT ... ON DUPLICATE KEY UPDATE`, also when it updates. Other engines and lock modes may not. Values outside `INT` or outside `DECIMAL(5,2)` (beyond ±999.99), which MySQL in strict mode refuses, are stored as given, so `ok == reachable` does not capture that refusal.
- RecordStore.Store.UpdateRecord: takes only the six data columns as keyword arguments. The source's `**kwargs` also accepts `date=` (which moves a record, or fails on the UNIQUE date), `id=` (which changes an id) and unknown names (the statement fails and it returns False). The guarantee that no date is added or lost and that ids are kept holds only under this restriction.
- RecordStore.Store.GetRecordsByYearMonth: compares its bounds as (year, month, day) triples. MySQL reads a year below 100 as a two-digit year (`"25-01-01"` is 2025), so the model selects year 25 where MySQL selects 2025. For year 9999 the end bound `"10000-01-01"` is not a date MySQL reads, so the model selects all of 9999 where MySQL's result is not modelled. How MySQL compares a DATE with a bound whose month is outside 1..12 is not modelled either.
- RecordStore.Upper: maps only the ASCII letters, dotless i and long s, one character each. Python's `upper()` maps other letters too and can change the length (`ß` becomes `SS`). No other character upper-cases to `A`, `S` or `C` alone, so whether the result equals `ASC` is unaffected.
- ImportExport.JsonObject: its own contract gives the keys and which values are null. The values themselves are stated by `JsonTextsAgree`, `JsonSleepAgrees` and `JsonNumbersAgree`. `float()` of a DECIMAL is taken as the exact decimal, with no binary rounding.
- ChartAxis.Kept: its own contract bounds only the length. Which points are kept, and in what order, is stated by `KeptMembers` and `FilterAligned`.
- RecordStore.SetClause: its own contract bounds only the length. Which arguments it holds is stated by `SetClauseMembers`.
- ImportExport.ParseOptionalFloat: its own contract covers only the missing cell. The values it reads are stated by `OptionalFloatOfTrimmed`, `WeightCellReadBack` and `EntriesMatchImporter`.
- SleepConverter.ConvertSleepTime: its own contract covers only the missing offset. The text of a present offset is stated by `ExampleText`, `OffsetIsClock` and `NegativeZeroGivesHour24`.
- SleepConverter.ConvertSleepTimeWrapped: its own contract covers only the missing offset. Present offsets are covered by `WrappedBeforeMidnightIsClock` and `WrappedAgrees`.
- TrackerForm.DurationShown: its own contract gives only a lower bound on the length. The text is stated by `DurationShownIsClock`.
- RecordStore.Store.constructor: starts from an empty table. The source's `CREATE TABLE IF NOT EXISTS` may find a table that already holds rows.
- DECIMAL(5,2) rounding on insert is not modelled: weights are assumed to be stored as given, and the round trips assume hundredths.
- File I/O is not modelled: reading the CSV, writing CSV and JSON, `save_config` after `set`, writing the template file, and file names.
- pandas `read_csv` in convert_sleep_data.py is not modelled. The sleep column is an `Offset` value, and `round()` on the minute count is given as an integer.
- Text.ParseFloat: accepts only an optional sign, digits and an optional fraction. Python also accepts exponents, `inf`, `nan` and underscores.
- Text.ParseInt: accepts only an optional sign and ASCII digits. Python's `int()` also accepts underscores between digits (`int(" 2_025 ")` is 2025) and non-ASCII digits, so a filter year or month written that way is refused in the model and accepted by the source.
- CSV quoting is not modelled, nor is Unicode beyond ASCII white space and case.
- Chart dates are day numbers. Matplotlib drawing is not modelled: locators, rotation and colours.
- `_edit_record` only shows a message, so it is not modelled.
- TrackerForm.TrackerApp.DeleteSelected: takes the selection as a parameter. The source reads it from the widget.
- ConfigTree.ConfigManager.Set: requires `Settable`. The source raises `TypeError` when a segment on the path is not a dict.
- ConfigTree.ConfigManager.Set: rebuilds the dicts on the path rather than mutating them in place, so the aliasing of `default_config.copy()` (a shallow copy) is not modelled.

## Findings

| source | as written | input that shows it | evidently intended | confidence | as-written member | corrected member |
|---|---|---|---|---|---|---|
| convert_sleep_data.py:32-37 | a negative offset that rounds to 0 minutes gets 24 added to its hour and becomes `"24:00"`, which `%H:%M` refuses on import, so the sleep time is lost | `hours_offset = -0.001` | wrap modulo one day, giving `"00:00"` | not executed | SleepConverter.NegativeZeroRowLosesSleep | SleepConverter.WrappedRowImport |
