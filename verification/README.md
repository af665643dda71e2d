# BeeHiveMonitorApp sensor pipeline, modelled in Dafny

BeeHiveMonitorApp records the entries and exits counted at a beehive, together
with temperature, humidity and light readings, in one SQLite table
(`sensor_data`). This project models the core of that pipeline:

- **the store** (`api/database.js`): opening the database once, inserting a
  reading with the camelCase/snake_case fallbacks, the two range queries, the
  retention setting, and the clean-up that deletes rows older than the
  retention cutoff;
- **the activity chart** (`components/BeeActivityChart.js`): choosing the
  aggregation level from the selected period, truncating each reading to its
  5-minute, hour, day, Sunday-based week or month bucket, summing per bucket,
  sorting the points, and choosing which axis positions get a label;
- **the summary card** (`components/AggregateCard.js`): totals and the peak
  row;
- **the reading card** (`components/DataCard.js`): what each field shows;
- **the history screen** (`components/screens/HistoryScreen.js`): the picker
  and the fetch of the chosen range;
- **the daily background task** (`services/backgroundTaskService.js`): clean,
  fetch today's rows, send one report, and the registration guard.

The `dataHora` column is TEXT. Both queries compare it with `BETWEEN` and the
clean-up with `<`, so the model uses SQLite's BINARY text order. Times are
ECMAScript time values, which are whole milliseconds. Local time is a fixed
zone at UTC−3. `Date` constructors and setters follow MakeDay/MakeDate of
ECMA-262 (section 21.4.1). `toISOString` and `new Date(text)` are modelled on
the 24-character form `YYYY-MM-DDTHH:mm:ss.sssZ`.

Modules, one per concern:

| file | module | models |
|---|---|---|
| outcomes.dfy | Outcomes | `Option`, `Result` |
| calendar.dfy | Calendar | day/year/month arithmetic of ECMA-262 |
| js_date.dfy | JsDate | `Date` getters, setters and local-time constructor |
| text_order.dfy | TextOrder | SQLite BINARY collation on text |
| decimal.dfy | Decimal | decimal digits, integer to text and back |
| iso_text.dfy | IsoText | `toISOString` and parsing it back |
| js_values.dfy | JsValues | payload values, `\|\|`, `??`, template text |
| store.dfy | SensorStore | table, `getDb`, `insertSensorData` |
| queries.dfy | StoreQueries | `getSensorDataByRange`, `getSensorDataByDate` |
| retention.dfy | Retention | retention setting, `cleanOldData` |
| buckets.dfy | Buckets | `getAggregationLevel`, bucket starts |
| aggregation.dfy | Aggregation | `aggregateData` |
| labels.dfy | SmartLabels | `generateSmartLabels` |
| summary.dfy | ActivitySummary | `AggregateCard` |
| data_card.dfy | DataCard | `DataCard` |
| history.dfy | HistoryScreen | `HistoryScreen` state and fetch |
| daily_report.dfy | DailyReport | background task and its registration |

## Model

| member | source | states |
|---|---|---|
| SensorStore.GetDb | api/database.js:8-20 | A cached handle is returned unchanged. Otherwise the opened handle is cached and returned. A failed open caches nothing and fails. |
| SensorStore.GetDbStable | api/database.js:8-20 | Once `getDb` has succeeded, every later call returns the same handle, whatever a later open would give. |
| SensorStore.GetDbRetries | api/database.js:8-20 | A failed open leaves the cache empty, so the next call tries to open again. |
| SensorStore.EmptyStoreValid | api/database.js:27-37 | A freshly created table satisfies the table invariant: ids below `nextId` and strictly increasing in table order. |
| SensorStore.RowOf | api/database.js:29-36 | The model makes a row exactly when both counts are integral numbers, the five REAL values are neither null nor undefined, and `dataHora` is text or an integral number. Every null or undefined value is refused, as NOT NULL refuses it. |
| SensorStore.InsertBound | api/database.js:53-77 | Without a database the insert fails with no change. Otherwise it succeeds exactly when `RowOf` makes a row from the bound values: integral counts, present REAL values, and a text or integral stamp. It then appends one row under the next rowid and returns that id. |
| SensorStore.BoundOf | api/database.js:60-69 | No contract of its own; its meaning, the `\|\|` choice per column, is stated by `SensorStore.InsertStoresPayload`, and its value on a zero count by `SensorStore.ZeroCountRefused`. |
| SensorStore.Insert | api/database.js:53-77 | No contract of its own; it binds `BoundOf(data)` into `InsertBound`. `SensorStore.InsertStoresPayload`, `SensorStore.InsertWithoutDb` and `SensorStore.ZeroCountRefused` state what it stores and when it fails. |
| SensorStore.InsertAppends | api/database.js:58-72 | An insert keeps every earlier row in place and appends one row. The new id is larger than every earlier id, and the table invariant is kept. |
| SensorStore.InsertStoresPayload | api/database.js:60-69 | Each stored column holds the payload's camelCase value when it is truthy, else the snake_case one. Light and `dataHora` have no fallback. |
| SensorStore.InsertWithoutDb | api/database.js:54-56 | Inserting without a database instance always fails. |
| SensorStore.ZeroCountRefused | api/database.js:61-62 | A reading whose camelCase count is 0 and which has no snake_case count is refused: `0 \|\| undefined` binds undefined into an INTEGER NOT NULL column. |
| SensorStore.ZeroCountStored | api/database.js:61-62 | With `??` in place of `\|\|`, a well-formed camelCase reading with a zero count is stored with that zero. |
| SensorStore.InsertNullishKeepsPresentValues | api/database.js:60-69 | With `??` fallbacks, every count or climate value present in the payload is stored as given. |
| JsValues.Or | api/database.js:61-66 | `a \|\| b` is one of its operands, and it is truthy exactly when one of them is. |
| JsValues.Coalesce | api/database.js:61-66 | `a ?? b` is one of its operands, and it is nullish exactly when both are. |
| JsValues.OrCoalesceDiffer | api/database.js:61-66 | `\|\|` and `??` agree exactly when the first operand is truthy or nullish, or both operands are equal. |
| JsValues.OrDropsZero | api/database.js:61-62 | `\|\|` drops a zero count in favour of the fallback, and `??` keeps it. |
| JsValues.NumTextReadsBack | components/DataCard.js:27-32 | The text of an integral number reads back as that number. |
| StoreQueries.SelectBetweenExactly | api/database.js:125-128 | The WHERE clause keeps exactly the table rows whose `dataHora` lies between the bounds in text order, both included. |
| StoreQueries.SelectBetween | api/database.js:125-128 | The WHERE clause never returns more rows than the table holds. Which rows it keeps is stated by `StoreQueries.SelectBetweenExactly`. |
| StoreQueries.SortByStampSorted | api/database.js:126 | `ORDER BY dataHora ASC` yields rows ascending in text order. |
| StoreQueries.SortByStamp | api/database.js:126 | `ORDER BY` is a permutation of its input: every row kept as often as it occurs. That the result is ascending is `StoreQueries.SortByStampSorted`. |
| StoreQueries.QueryExactly | api/database.js:125-128 | The query result is sorted. It is a permutation of the matching rows, keeping each as often as in the table, and holds nothing else. |
| StoreQueries.Query | api/database.js:125-128 | No contract of its own; the WHERE clause then the ORDER BY. `StoreQueries.QueryExactly` and `StoreQueries.QueryInstants` state its result. |
| StoreQueries.ByRange | api/database.js:105-134 | No database, an invalid start and an invalid end each fail with their own error, in that order of checking. The query succeeds exactly when all three are present. |
| StoreQueries.QueryInstants | api/database.js:119-128 | With four-digit-year bounds, a row whose stamp parses is selected exactly when its instant lies between the two instants. |
| StoreQueries.ByRangeSelectsInstants | api/database.js:105-134 | A range fetch returns exactly the table rows stamped from the start instant to the end instant, both included. |
| StoreQueries.ReversedRangeEmpty | api/database.js:119-128 | A range whose end is before its start returns no rows, not an error. |
| StoreQueries.ByDate | api/database.js:79-102 | No database and an invalid date fail with their own errors. A result exists only for a database and a valid date. |
| StoreQueries.ByDateBounds | api/database.js:88-96 | The by-date query asks for the rows between the ISO text of the local midnight starting the day and the text of 23:59:59.999. |
| StoreQueries.ByDateSelectsLocalDay | api/database.js:79-102 | A by-date fetch returns exactly the table rows stamped during the given instant's local calendar day. |
| StoreQueries.SameLocalDay | api/database.js:88-91 | An instant lies between the two `setHours` bounds exactly when it falls on the same local day. |
| Retention.GetRetentionSetting | api/database.js:136-144 | The setting is never empty. It is the stored value, or '1_week' when nothing usable is stored or the read throws. |
| Retention.SetRetentionSetting | api/database.js:146-153 | A failing write leaves the stored setting as it was. |
| Retention.RetentionRoundTrip | api/database.js:136-153 | Reading back a setting just written gives the value written. An empty value reads back as '1_week'. |
| Retention.CutoffOneDay | api/database.js:165-167 | '1_day' puts the cutoff exactly 24 hours before now. |
| Retention.CutoffOneWeek | api/database.js:168-170 | '1_week' puts the cutoff 7 days before now. So does every unrecognised value, through the default branch at lines 174-176. |
| Retention.CutoffOneMonth | api/database.js:171-173 | '1_month' puts the cutoff back by the length of the previous calendar month. |
| Retention.Cutoff | api/database.js:161-177 | No contract of its own; the switch on the retention setting. `Retention.CutoffOneDay`, `Retention.CutoffOneWeek` and `Retention.CutoffOneMonth` give its value for every setting. |
| Retention.SweepExactly | api/database.js:179 | The DELETE keeps exactly the rows whose `dataHora` is not below the cutoff text. |
| Retention.Sweep | api/database.js:179 | The DELETE never leaves more rows than there were. Which rows it keeps is stated by `Retention.SweepExactly`, and the count by `Retention.SweepCount`. |
| Retention.SweepCount | api/database.js:179-181 | The reported change count plus the rows kept equals the rows before. |
| Retention.SweepIdempotent | api/database.js:179 | Deleting again with the same cutoff changes nothing and counts zero. |
| Retention.SweepKeepsValid | api/database.js:179 | Deleting rows keeps the table invariant. |
| Retention.CleanOldData | api/database.js:156-186 | Without a database the clean fails. A successful clean keeps the next rowid, and its change count plus the rows left equals the rows before. |
| Retention.CleanRemovesOlder | api/database.js:156-186 | The clean deletes exactly the rows older than the retention cutoff's ISO text, reports how many, and keeps the table invariant. |
| Retention.CleanKeepsInstants | api/database.js:156-186 | With a four-digit-year cutoff, a row whose stamp parses survives exactly when its instant is at or after the cutoff. |
| Retention.CleanTwiceRemovesNothing | api/database.js:156-186 | Cleaning twice at the same instant deletes nothing the second time. |
| JsDate.SetDateMovesDays | api/database.js:165-170 | `setDate(getDate() - k)` moves the instant back exactly k days, with no daylight saving in the zone. |
| JsDate.TimeClip | api/database.js:83-85 | A time value is valid, and a Date built from it is not an Invalid Date, exactly when it lies within the ±8.64e15 ms range. A valid value is kept as it is. |
| JsDate.NewLocalDate | services/backgroundTaskService.js:10 | No contract of its own; ECMA-262's MakeDay/MakeDate on local fields, with years 0 to 99 read as 1900 to 1999. `JsDate.NewLocalDateOfOwnDate` and `Buckets.BucketIsTruncation` give its value. |
| JsDate.SetDate | api/database.js:165-170 | No contract of its own; `JsDate.SetDateMovesDays` states that moving the day of the month by k moves the instant by k days. |
| JsDate.SetMonth | api/database.js:171-173 | No contract of its own; `JsDate.SetMonthBackMovesPreviousMonthLength`, `JsDate.MonthBackSameDay` and `JsDate.MonthBackOverflows` state the effect of going back one month. |
| JsDate.SetHours | api/database.js:88-91 | No contract of its own; `JsDate.SetHoursBracketsDay` states that the two calls give the first and last millisecond of the local day. |
| JsDate.SetMonthBackMovesPreviousMonthLength | api/database.js:171-173 | `setMonth(getMonth() - 1)` moves back by the number of days in the previous month. |
| JsDate.MonthBackSameDay | api/database.js:171-173 | When the previous month has the current day of month, the cutoff falls on that day, one month earlier, at the same local time. |
| JsDate.MonthBackOverflows | api/database.js:171-173 | When it does not (March 31 back to February), the date rolls over into the current month: March 31 gives March 3, or March 2 in a leap year. |
| JsDate.SetHoursBracketsDay | api/database.js:88-91 | `setHours(0,0,0,0)` and `setHours(23,59,59,999)` give the first and last millisecond of the local day. |
| JsDate.NewLocalDateOfOwnDate | services/backgroundTaskService.js:9-10 | Building a Date from an instant's own year, month and day gives that local day's midnight. |
| JsDate.LocalDayBounds | api/database.js:88-91 | Every instant lies within its local day: from its midnight to 24 hours later. |
| IsoText.ParseOfIso | components/BeeActivityChart.js:77-78 | Parsing the ISO text of a four-digit-year instant gives that instant back. |
| IsoText.IsoOfParse | components/BeeActivityChart.js:77-78 | Any text that parses is the ISO text of its own instant. So a stored stamp that parses is canonical. |
| IsoText.IsoTextOrderIsTimeOrder | api/database.js:125-128 | For four-digit years, ISO texts compare in text order exactly as their instants compare. This holds for both `<` and `<=`. |
| IsoText.IsoYearsAreTimeValues | api/database.js:120-121 | Instants with four-digit years are valid time values. |
| IsoText.ParseIso | components/BeeActivityChart.js:77-78 | Any instant parsed from text is a valid time value. `IsoText.ParseOfIso` and `IsoText.IsoOfParse` make it the inverse of `ToIsoString`. |
| IsoText.ToIsoString | api/database.js:120-121 | No contract of its own; `IsoText.ParseOfIso` makes it the inverse of `ParseIso`, and `IsoText.IsoTextOrderIsTimeOrder` makes its text order the time order. |
| Decimal.ReadIntText | services/backgroundTaskService.js:21 | The decimal text of an integer reads back as that integer. |
| Decimal.IntTextInjective | services/backgroundTaskService.js:21 | Different integers have different decimal texts. |
| Buckets.LevelFor | components/BeeActivityChart.js:50-69 | The level chosen is always one the chart knows. The time-of-day format goes with exactly minutes and hours, and the month-year format with exactly months. |
| Buckets.LevelForMatchesQuotients | components/BeeActivityChart.js:50-69 | The integer thresholds choose the same level as the source's divisions into hours, days and 365.25-day years. |
| Buckets.LevelForMonotone | components/BeeActivityChart.js:50-69 | A longer period never gets a finer level. A reversed period gets 5-minute buckets. |
| Buckets.Bucket | components/BeeActivityChart.js:83-115 | No contract of its own; a new local Date from the instant's own fields with the finer fields zeroed. `Buckets.BucketIsTruncation`, `Buckets.MinuteBucket`, `Buckets.HourBucket`, `Buckets.DayBucket`, `Buckets.BucketBrackets` and `Buckets.BucketDefined` state its value. |
| Buckets.TruncateBounds | components/BeeActivityChart.js:83-115 | A bucket start is at or before the instant. For fixed widths the instant is less than one width later. A week bucket starts at a Sunday midnight within 7 days before. A month bucket starts at the first of the month. |
| Buckets.TruncateWeek | components/BeeActivityChart.js:100-105 | The week bucket starts at the local Sunday midnight of the instant's week. |
| Buckets.TruncateMonth | components/BeeActivityChart.js:106-110 | The month bucket starts at local midnight on the first of the instant's month. |
| Buckets.TruncateIdempotent | components/BeeActivityChart.js:83-115 | Truncating a bucket start again gives the same start. |
| Buckets.BucketIsTruncation | components/BeeActivityChart.js:83-115 | Outside years 0 to 99, the bucket start built from local fields is the local-time truncation of the instant. |
| Buckets.MinuteBucket | components/BeeActivityChart.js:84-89 | The minute level starts the bucket at the local 5-minute boundary. |
| Buckets.HourBucket | components/BeeActivityChart.js:90-94 | The hour level starts the bucket at the local hour. |
| Buckets.DayBucket | components/BeeActivityChart.js:95-99 | The day level, and any unknown level through the default branch at lines 111-114, starts the bucket at local midnight. |
| Buckets.BucketIdempotent | components/BeeActivityChart.js:83-115 | A bucket start falls in its own bucket. |
| Buckets.BucketBrackets | components/BeeActivityChart.js:83-115 | Every reading lies in its bucket: at or after the start and before the bucket's end. |
| Buckets.BucketDefined | components/BeeActivityChart.js:83-115 | A four-digit-year instant always has a valid bucket start. |
| Buckets.RemappedYearBucket | components/BeeActivityChart.js:83-115 | A local year 0 to 99, which the Date constructor remaps to 1900-1999, still yields a valid bucket start. |
| Aggregation.PlacementNeverInvalid | components/BeeActivityChart.js:76-115 | A stored row is never put into an Invalid Date bucket. Rows whose `dataHora` does not parse are skipped. |
| Aggregation.ReadingsOf | components/BeeActivityChart.js:76-78 | As many readings as rows. `Aggregation.ReadingAt` states what the reading at each position holds: the row's counts and its bucket, or no bucket exactly when its `dataHora` does not parse. |
| Aggregation.AccumulateDefined | components/BeeActivityChart.js:76-129 | The per-key accumulation completes exactly when no reading falls into an Invalid Date bucket. |
| Aggregation.AccumulateKeySums | components/BeeActivityChart.js:117-129 | Each key's group holds the sum of the entries and of the exits of exactly the readings bucketed under that key. |
| Aggregation.Accumulate | components/BeeActivityChart.js:76-129 | No contract of its own; the `forEach` over the readings. `Aggregation.AccumulateDefined` and `Aggregation.AccumulateKeySums` state when it completes and what each group holds. |
| Aggregation.AddToGroupsSums | components/BeeActivityChart.js:117-128 | Adding one reading to the groups raises the groups' total entries and exits by the reading's counts. |
| Aggregation.AddToGroups | components/BeeActivityChart.js:117-128 | One reading adds at most one group. `Aggregation.AddToGroupsSums`, `Aggregation.AddToGroupsKeys` and `Aggregation.AddToGroupsKeySums` state its sums and keys. |
| Aggregation.AddToGroupsKeySums | components/BeeActivityChart.js:126-127 | Adding a reading raises the sums of its own key's group by its counts and leaves every other key's sums unchanged. |
| Aggregation.AddToGroupsKeys | components/BeeActivityChart.js:117-124 | Adding a reading adds its key and nothing else. Keys stay distinct, and each key stays the ISO text of its group's date. |
| Aggregation.DistinctKeysDistinctDates | components/BeeActivityChart.js:117-124 | Groups with distinct keys that are the ISO texts of their dates have distinct dates. |
| Aggregation.SortByDateAscending | components/BeeActivityChart.js:131-137 | Sorting points with distinct dates makes them strictly ascending by date. |
| Aggregation.SortByDateSums | components/BeeActivityChart.js:131-137 | Sorting keeps the total entries and exits. |
| Aggregation.SortByDate | components/BeeActivityChart.js:137 | The sort is a permutation of the points. `Aggregation.SortByDateAscending` states that it orders them. |
| Aggregation.PointsOf | components/BeeActivityChart.js:131-136 | The `map` yields exactly one point per group. What each point holds is stated by `Aggregation.AggregatePointOrigin` and `Aggregation.AggregatePointSums`. |
| Aggregation.ReadingAt | components/BeeActivityChart.js:76-78 | Each row becomes one reading with its counts. It is skipped exactly when its `dataHora` does not parse, and otherwise placed in its bucket. |
| Aggregation.StoredReadings | components/BeeActivityChart.js:76-115 | Readings made from rows are keyed by their bucket start's ISO text, and none falls into an Invalid Date bucket. |
| Aggregation.AggregateOfRows | components/BeeActivityChart.js:71-72 | Aggregating rows never throws. Missing or empty data gives no points. |
| Aggregation.Aggregate | components/BeeActivityChart.js:71-138 | No contract of its own; `Aggregation.AggregateOfRows`, `Aggregation.AggregateConservesSums`, `Aggregation.AggregateAscending`, `Aggregation.AggregatePointOrigin`, `Aggregation.AggregatePointSums` and `Aggregation.AggregateCoversReading` state its result. |
| Aggregation.AggregateConservesSums | components/BeeActivityChart.js:71-138 | The points' total entries and exits equal those of the readings that were bucketed. |
| Aggregation.AggregateAscending | components/BeeActivityChart.js:131-137 | The points are strictly ascending by date, and there are no more points than bucketed readings. |
| Aggregation.AggregatePointOrigin | components/BeeActivityChart.js:117-124 | Every point is the bucket of at least one reading. No empty buckets are made up. |
| Aggregation.AggregatePointSums | components/BeeActivityChart.js:117-129 | Each point's counts are the sums over exactly the readings in its bucket. |
| Aggregation.AggregateCoversReading | components/BeeActivityChart.js:117-137 | Every bucketed reading has a point for its bucket. |
| SmartLabels.LabelStep | components/BeeActivityChart.js:153 | The step is at least one. A zero maximum gives the infinite step of `n / 0`. |
| SmartLabels.SmartLabelMask | components/BeeActivityChart.js:140-167 | One entry per point. The first and last points are always labelled. Up to the maximum every point is labelled. Above it, a point is labelled exactly when it is first, last or a multiple of the step. |
| SmartLabels.LabelGaps | components/BeeActivityChart.js:153-164 | With a positive maximum, every point has a labelled point less than one step before it. |
| SmartLabels.DefaultLabelGaps | components/BeeActivityChart.js:140-164 | With the chart's default maximum of six, used by the call at line 214, more than six points give a step of `n / 6`, and every point has a labelled point less than one step before it. |
| ActivitySummary.TotalsAppend | components/AggregateCard.js:10-11 | The totals of two row lists joined are the sums of their totals. |
| ActivitySummary.FirstPeakUnique | components/AggregateCard.js:13-22 | At most one row is the first row of greatest activity. |
| ActivitySummary.PeakIndex | components/AggregateCard.js:13-22 | The scan picks no row exactly when no row's activity exceeds -1. Otherwise it picks the first row of greatest activity. |
| ActivitySummary.PeakLineOf | components/AggregateCard.js:24-27 | The peak line is 'N/A' exactly when no row was picked or its stamp is empty. It shows an instant exactly when the stamp parses, and that instant is the parsed one. |
| ActivitySummary.Summarize | components/AggregateCard.js:5-27 | There is no card for missing or empty data. Otherwise the card holds the entry and exit totals and the peak line of the first row of greatest activity. |
| ActivitySummary.ChartKeepsCardTotals | components/BeeActivityChart.js:71-138 | When every stamp parses, the chart's points sum to the card's totals. |
| DataCard.SafeDisplay | components/DataCard.js:27-32 | null, undefined and the empty string show 'N/A'. Any other value shows its text followed by the suffix. |
| DataCard.DateOf | components/DataCard.js:9-12 | A text stamp gives the instant it parses to. Any instant given is a valid time value. |
| DataCard.CardOf | components/DataCard.js:4-61 | No card without data. The card shows the instant of `dataHora` and the light value with no fallback. |
| DataCard.FieldText | components/DataCard.js:41-61 | No contract of its own; a field's camelCase value when truthy, else its snake_case one, shown by `SafeDisplay`. `DataCard.CamelCaseWins` and `DataCard.CardShowsBindings` state it for every line. |
| DataCard.ZeroCountShowsNotAvailable | components/DataCard.js:41-43 | A zero camelCase count with no snake_case key shows 'N/A', not 0. |
| DataCard.CamelCaseWins | components/DataCard.js:41-58 | A truthy camelCase field is shown in preference to its snake_case one. |
| DataCard.ShownCountReadsBack | components/DataCard.js:27-32 | A count shown on the card reads back as that count once the suffix is removed. |
| DataCard.CardShowsBindings | components/DataCard.js:41-61 | Each line of the card shows the value the insert binds for that column, from the same camelCase/snake_case pair: the counts and the light bare, the two temperatures with "°C" and the two humidities with "%"; the time line shows the bound stamp. |
| DataCard.CardShowsStoredRow | components/DataCard.js:4-61 | For a payload the insert stored, the card's counts read back as the stored row's counts. A text stamp shows the instant of the stored `dataHora`. |
| HistoryScreen.ShowPicker | components/screens/HistoryScreen.js:24-27 | Opening the picker records its target and leaves the dates and rows unchanged. |
| HistoryScreen.HidePicker | components/screens/HistoryScreen.js:29-32 | Closing the picker clears its target and leaves the dates and rows unchanged. |
| HistoryScreen.Confirm | components/screens/HistoryScreen.js:34-48 | The picker always closes. An invalid pick raises an alert and sets nothing. A valid pick sets the start date when the target is 'start', and the end date for any other target. |
| HistoryScreen.RangeToFetch | components/screens/HistoryScreen.js:51-60 | The fetch goes ahead exactly when both dates are set and the start is before the end. Otherwise it raises the missing-dates or the invalid-range alert. |
| HistoryScreen.Fetch | components/screens/HistoryScreen.js:51-72 | A query is made exactly when the range checks pass, and every range queried starts before it ends. Without a query nothing changes. The dates and picker are never changed. |
| HistoryScreen.FetchReplacesOrKeeps | components/screens/HistoryScreen.js:62-71 | A successful fetch shows the query's rows. Without a connection the old rows stay and an error alert is raised. |
| HistoryScreen.FetchShowsRange | components/screens/HistoryScreen.js:51-72 | A successful fetch shows exactly the table rows stamped from the start date to the end date. |
| HistoryScreen.RunQueriesForwardRanges | components/screens/HistoryScreen.js:24-72 | Whatever the user does, every range queried starts strictly before it ends, and the screen only shows rows of the table. |
| HistoryScreen.StepShowsStoredRows | components/screens/HistoryScreen.js:24-72 | One user event keeps the screen showing only table rows, and any range it queries runs forward. |
| HistoryScreen.Step | components/screens/HistoryScreen.js:24-72 | No contract of its own; one user event dispatched to `ShowPicker`, `HidePicker`, `Confirm` or `Fetch`. `HistoryScreen.StepShowsStoredRows` states what it preserves. |
| HistoryScreen.Run | components/screens/HistoryScreen.js:24-72 | No contract of its own; the events in order. `HistoryScreen.RunQueriesForwardRanges` states what holds over any sequence. |
| DailyReport.ReportFor | services/backgroundTaskService.js:17-25 | The report always has the daily title. Its body is the no-activity text exactly when there are no rows, and otherwise the summary of the totals. |
| DailyReport.TodaysRows | services/backgroundTaskService.js:13-16 | A failed clean fails the run before anything is fetched. |
| DailyReport.RunTask | services/backgroundTaskService.js:7-32 | A run returns NewData exactly when it sends one notification, and Failed exactly when it sends none. Every notification has the daily title. A failure to open, clean or fetch gives Failed. Success sends the report for today's rows. |
| DailyReport.TodayIsLocalMidnight | services/backgroundTaskService.js:9-10 | "Today" is the local midnight that starts now's day. |
| DailyReport.Today | services/backgroundTaskService.js:10 | No contract of its own; `DailyReport.TodayIsLocalMidnight` states that it is the local midnight starting now's day. |
| DailyReport.TodaysRowsExactly | services/backgroundTaskService.js:9-16 | The report counts exactly the table rows that survive the clean's cutoff and were stamped during now's local day. |
| DailyReport.SweptTable | services/backgroundTaskService.js:13-16 | The clean succeeds whenever its cutoff is a date, and today's rows are fetched from the cleaned table. |
| DailyReport.SummaryBodyInjective | services/backgroundTaskService.js:21 | The report text determines both totals. |
| DailyReport.SummaryBody | services/backgroundTaskService.js:21 | No contract of its own; `DailyReport.SummaryBodyInjective` states that the text determines both totals, and `Decimal.ReadIntText` that each total reads back. |
| DailyReport.RegisterTask | services/backgroundTaskService.js:34-49 | An existing registration is kept. The registration changes exactly when none existed and neither call throws, and it then becomes the daily one. |
| DailyReport.RegisterTaskIdempotent | services/backgroundTaskService.js:34-49 | Registering a second time changes nothing. |

## Left out

- The MQTT connector (`api/mqttService.js`), push notifications and all rendering are outside this core. Notifications are a sink that never fails, and the run returns what it sent.
- Locale formatting is not modelled: `toLocaleString`, `toLocaleDateString`, `toLocaleTimeString`, the card titles, the axis label text and the peak's display text. The model keeps the instant that would be formatted. A blank axis position is `false` in the label mask.
- Time zone: local time is a fixed UTC−3 zone with no daylight saving. The engine's zone is otherwise unknown.
- Clocks: `new Date()` in the task and the separate `new Date()` inside `cleanOldData` are the parameters `now` and `sweepNow` of `DailyReport.RunTask`.
- Storage: the retention setting read (`AsyncStorage`) is a parameter, `Option<Option<string>>`, where `None` means the read threw. The open of the database is the parameter `open` of `SensorStore.GetDb`.
- SensorStore.RowOf / SensorStore.InsertBound: SQLite type affinity is not modelled. The table is not STRICT, so its NOT NULL columns refuse only null. SQLite would store a count given as numeric text ("5" becomes 5), as a fractional number or as a boolean, and a stamp given as a fractional number or a boolean (stored as its text). The model refuses such an insert. Payloads from the sensor carry integral counts and an ISO text stamp, and for those the model and SQLite agree.
- Row ids are the next rowid with no gaps, so AUTOINCREMENT's reuse rules are not modelled.
- `initDb` is reduced to the NOT NULL constraints of its DDL and an empty table. The index on `dataHora` has no observable effect on results.
- `ORDER BY dataHora ASC` does not fix the order of rows with equal stamps. The model keeps table order among equal stamps, and its contracts state only sortedness and the permutation.
- Floating point: `Buckets.LevelFor` compares the millisecond span with exact integer thresholds. `Buckets.LevelForMatchesQuotients` proves that these agree with the source's real-number quotients.
- Sensor readings other than the counts are kept as opaque payload values. Fractional numbers are kept as their text.
- `new Date(text)` accepts only the 24-character ISO form that `toISOString` produces. Other accepted forms, such as date-only, offsets or a missing `Z`, are read as Invalid Date.
- DataCard.DateOf: a fractional number gives None, where `new Date(x)` would truncate it to a time value.
- Decimal.IntText: numbers of 1e21 and above, which JavaScript prints in exponent notation, are printed in plain digits.
- Buckets.BucketIsTruncation: instants whose local year is 0 to 99 are only proved to have a valid bucket (`Buckets.RemappedYearBucket`). The constructor's remapping of such years to 1900-1999 is modelled, but its bucket start is not characterised.
- Aggregation: the per-group `count` field is dropped, as the output mapping at `components/BeeActivityChart.js:131-136` drops it. `item.numEntradas || 0` is the stored integer, since a stored row always has integer counts.
- ActivitySummary.Summarize: the card title built from `startDate` and `endDate` is locale text and is not modelled.
- DataCard.CardOf: the `isLatest` caption changes only a label and is not modelled.
- A '1_month' cutoff that clamps to the shorter month (March 31 to February 28) is not what the code does. `setMonth(getMonth() - 1)` overflows, so March 31 gives March 3 (`JsDate.MonthBackOverflows`).
- A peak tie is not broken by the earliest timestamp. The card scans the rows in the order given and keeps the first strict maximum (`ActivitySummary.PeakIndex`). Rows from the store arrive sorted by stamp, so there the first row is also the earliest.
- An empty row set does not give a card with zero totals and no peak. The card renders nothing (`ActivitySummary.Summarize` returns None).

## Findings

| source | as written | input that shows it | evidently intended | confidence | as-written member | corrected member |
|---|---|---|---|---|---|---|
| api/database.js:61-62 | `data.numSaidas \|\| data.num_saidas` binds undefined when the camelCase count is 0 and no snake_case key is present. The INTEGER NOT NULL column then refuses the row, and a legitimate reading of zero exits is lost. | payload `{numSaidas: 0, numEntradas: 3, humidadeInterna: 50, humidadeExterna: 60, temperaturaInterna: 30, temperaturaExterna: 25, luminosidade: 100, dataHora: "2024-05-01T12:00:00.000Z"}` | fall back only on a missing value (`??`), so that a zero count is stored as 0 | medium, not executed | SensorStore.ZeroCountRefused | SensorStore.ZeroCountStored |
