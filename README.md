# Fitbit3 record-level rules in Dafny

Fitbit3 is a set of pandas scripts plus a dashboard. It loads Fitbit tables
(daily activity, minute sleep, heart rate, weight log, hourly steps, calories
and intensity) and a weather CSV from SQLite. It cleans, joins and groups
them, then plots or regresses the result. This project models the
record-level rules underneath those plots and regressions.

- A table is a sequence of Dafny records, or column names plus rows of cells.
- A time of day is a whole number of seconds since midnight.
- A failing pandas step is an explicit `None` or `Failure`. Examples are a
  `ValueError` from `astype(int)` or `pd.to_datetime`, a `KeyError` on a
  missing column, and the `ValueError` for a bad session number.
- The quantiles and medians pandas computes are parameters. A NaN median is
  `None`.

Modules:

- `Frames` holds the pandas building blocks the scripts share:
  - filtering and counting;
  - `groupby(...).sum()` over group keys, with key order as pandas gives it;
  - `nunique`;
  - a sort by an integer key, promised only to be sorted and a permutation;
  - the inner merge;
  - the interquartile fences.
- `Clock` holds `str.split(':')` and its inverse `Join`, decimal digits, the
  `strptime` formats `"%I:%M:%S %p"` and `"%m/%d/%Y"`, and an absolute
  instant for a date and a time of day.
- `DivideTheDay` models scripts/divide_the_day.py:
  - the 12-hour to 24-hour conversion, as a method on the caller's frame;
  - the six four-hour `TimeBlock` labels of `pd.cut(right=False)`, also a
    method on the caller's frame;
  - the per-block mean with `observed=False`.
- `WeatherAnalysis` models scripts/weather_analysis.py:
  - `match_weather_df`, as a method on the weather frame;
  - the two merges and the block filter of `run_regression`;
  - the default blocks of `plot_general_weather_analysis`;
  - the round trip between the weather frame's 12-hour text and the 24-hour
    conversion applied to the merged frame.
- `Sessions` holds the session segmentation shared by both `plot_heart_rate`
  functions: parse, sort, `diff().fillna(0)`, `(gap > threshold).cumsum() + 1`,
  `nunique`, the range check, then selection. The numbering is a loop with
  its invariant.
- `Graphs` and `Part3Graphs` instantiate the segmentation with gaps of 600 s
  and 300 s. `Graphs` adds the per-log sleep duration. `Part3Graphs` adds the
  time-sorted hourly intensity.
- `Part4Wrangling` models scripts/part4_wrangling.py:
  - IQR outlier detection and the outlier removal on minute_sleep;
  - `fillna` of WeightKg and dropping `Fat`, as methods on the fetched table;
  - the duplicate count of `check_duplicates`.
- `Part4` models part4.py: `fill_missing_values` on the caller's frame,
  `detect_outliers` and `choose_statistic`.
- `SleepAnalysis` models scripts/sleep_analysis_2.py: the two group-by
  counts, the `TotalActiveMinutes` column, and the merge and projection of
  `prepare_merged_data`.
- `Part1` models part1.py: `count_unique_users` and `compute_total_distance`.

Where the general description of the repository and the code differ, the
model follows the code:

- Filling missing values does not always leave no nulls. The median of a
  column with no values is NaN, and filling with NaN changes nothing
  (`FillNaFacts`, `FilledColumnComplete`).
- No script removes duplicate rows. `check_duplicates` only counts them, so
  no uniqueness of `(user, date)` is assumed anywhere.
- The weather join is not keyed on a date and an hour. It is keyed on the
  text `ActivityHour` (`h:MM:SS`), `Date` and `TimeOfDay`.

## Model

| member | source | states |
|---|---|---|
| Frames.Count | scripts/part4_wrangling.py:46 | the number of rows a predicate selects is at most the row count, and zero exactly when no row is selected |
| Frames.Filter | scripts/graphs.py:65 | a boolean mask keeps exactly the rows that satisfy it, as many as `Count` says |
| Frames.FilterMultiplicity | scripts/graphs.py:65 | a mask keeps each satisfying row as often as it occurs in the input, and no other row |
| Frames.SelectWhere | scripts/part3_graphs.py:23-28 | a column of the rows that satisfy a condition: one entry per selected row, so each value occurs as often as there are selected rows holding it |
| Frames.FilterAppend | scripts/graphs.py:65 | masking a concatenation masks each part |
| Frames.SumOverKeysIsSumIn | part1.py:17 | adding the group sums of distinct keys counts every row with one of those keys exactly once |
| Frames.SumInCoversAll | part1.py:17 | when every row's key is a group key, the group sums cover the whole column |
| Frames.Distinct | scripts/sleep_analysis_2.py:29 | the distinct values: no repeats, and the same values as the input |
| Frames.NUniqueAtMost | part1.py:14 | `nunique` never exceeds the number of values |
| Frames.NUniqueOfNoDups | scripts/graphs.py:78 | without repeats `nunique` is the length |
| Frames.SortBy | scripts/graphs.py:71 | `sort_values`: the result is ascending in the key and a permutation of the input |
| Frames.GroupKeys | part1.py:17 | groupby keys: strictly ascending, exactly the values present, each once |
| Frames.InnerJoin | scripts/weather_analysis.py:19 | an inner merge holds exactly the combinations of a left row and a right row whose keys are equal, with one output row per matching pair (the row count is the number of such pairs) |
| Frames.MatchRow | scripts/weather_analysis.py:19 | one left row's output: as many rows as right rows with its key, and exactly their combinations |
| Frames.MatchRowIsFilter | scripts/weather_analysis.py:19 | one left row's output is each right row with its key, once and in right's order, combined with it |
| Frames.InnerJoinAppend | scripts/weather_analysis.py:19 | the merge is left-major: the output of a + b is the output of a followed by that of b |
| Frames.InnerJoinOfOne | scripts/weather_analysis.py:19 | a single left row yields exactly its matching block |
| Frames.IqrBounds | scripts/part4_wrangling.py:41-45 | the fences Q1 − 1.5·IQR and Q3 + 1.5·IQR are centred on the quartiles' midpoint, 4·IQR apart, and enclose both quartiles when Q1 ≤ Q3 |
| Clock.Split | scripts/divide_the_day.py:23 | `str.split(':')` gives at least one field and no field holds the separator |
| Clock.JoinSplit | scripts/divide_the_day.py:23 | joining the fields with the separator gives the string back |
| Clock.SplitJoin | scripts/divide_the_day.py:23 | splitting a join of separator-free fields gives the fields back |
| Clock.SplitHead | scripts/divide_the_day.py:23 | the first field is the text before the first separator |
| Clock.ParseNat | scripts/divide_the_day.py:23 | `astype(int)` succeeds exactly on a non-empty string of decimal digits |
| Clock.ParseShowNat | scripts/weather_analysis.py:37 | reading back the decimal text of a number gives the number |
| Clock.ShowNatLength | scripts/weather_analysis.py:31 | decimal text without padding: one digit below 10, two up to 99, four for years 1000 to 9999 |
| Clock.Pad2 | scripts/weather_analysis.py:33 | `%M` and `%S` give two digits that read back as the value |
| Clock.Meridiem | scripts/graphs.py:68 | `%p` accepts AM or PM in any letter case and nothing else, and reads PM exactly for a leading P or p |
| Clock.StrptimeHour | scripts/graphs.py:68 | `%I` with `%p`: the 24-hour hour is below 24 and is 12 or more exactly for PM |
| Clock.ParseClock | scripts/graphs.py:68 | `"%I:%M:%S %p"` succeeds exactly for three fields with hour 1 to 12, minute and second 0 to 59 and AM/PM; the result is less than a day in seconds |
| Clock.ParseClockFields | scripts/graphs.py:68 | three valid fields joined by ':' parse to hour·3600 + minute·60 + second of the 24-hour hour |
| Clock.ParseDate | scripts/graphs.py:30-33 | `"%m/%d/%Y"` only yields valid calendar dates |
| Clock.MarchYearLength | scripts/graphs.py:30-33 | a March-based year has 366 days exactly when its February has a 29th |
| Clock.DaysFromCivilNextDay | scripts/graphs.py:30-33 | the day number of the next calendar day is one more, across month ends, February 29th and year ends |
| Clock.InstantNextDay | scripts/graphs.py:30-33 | a time of day on the next date is 86400 s later than the same time on the date, so a log running past midnight is measured across it |
| DivideTheDay.ParseHourReadsFirstField | scripts/divide_the_day.py:23 | the parsed hour is the integer before the first ':' |
| DivideTheDay.ParseHourWithoutColon | scripts/divide_the_day.py:23 | a time without ':' is read whole |
| DivideTheDay.To24Hour | scripts/divide_the_day.py:24-25 | a TimeOfDay other than AM/PM leaves the hour alone; for 1 to 12 with AM/PM the result is 0 to 23 and is 12 or more exactly for PM |
| DivideTheDay.To24HourAgreesWithStrptime | scripts/divide_the_day.py:24-25 | the two `np.where` steps agree with strptime's `%I %p` |
| DivideTheDay.Cut | scripts/divide_the_day.py:32-36 | `pd.cut(right=False)`: a value inside the bins gets the label of the half-open bin holding it, and a value outside gets NaN |
| DivideTheDay.TimeBlockOfHour | scripts/divide_the_day.py:30-36 | hour h in 0 to 23 gets label number h / 4, the block [4k, 4k+4); any other hour gets NaN |
| DivideTheDay.TimeLabelsDistinct | scripts/divide_the_day.py:30 | the six labels differ, so the blocks partition the day |
| DivideTheDay.HourColumn | scripts/divide_the_day.py:23-25 | the Hour column exists exactly when every time parses; it keeps the row count and holds each row's 24-hour hour |
| DivideTheDay.ConvertTimeToTwentyFourHours | scripts/divide_the_day.py:22-27 | on the caller's frame, only the Hour column is set, to `HourColumn`; on a parse error nothing changes |
| DivideTheDay.BlockColumnRows | scripts/divide_the_day.py:32-36 | the TimeBlock column keeps the row count and gives each row the label of its hour, or NaN |
| DivideTheDay.ConvertedHoursHaveBlocks | scripts/divide_the_day.py:22-38 | every converted 12-hour time with AM/PM lands in a block |
| DivideTheDay.AssignTimeBlocks | scripts/divide_the_day.py:29-38 | on the caller's frame, only TimeBlock is set, from Hour; without Hour (KeyError) nothing changes |
| DivideTheDay.AveragePerTimeBlock | scripts/divide_the_day.py:40-44 | one row per label, in label order, empty blocks included; NaN exactly for an empty block; otherwise mean × size = block sum |
| DivideTheDay.BlockKeysDistinct | scripts/divide_the_day.py:41 | the group keys of the average are the six labels, each once |
| DivideTheDay.BlockSumsCoverColumn | scripts/divide_the_day.py:41 | for hours in 0 to 23 the block sums add up to the column total: each row lies in exactly one block |
| WeatherAnalysis.To12Hour | scripts/weather_analysis.py:34-36 | an hour 0 to 23 becomes 1 to 12, and hours 1 to 12 are unchanged |
| WeatherAnalysis.TimeOfDayOf | scripts/weather_analysis.py:38-39 | TimeOfDay is AM or PM, and PM exactly when the hour is 12 or more |
| WeatherAnalysis.To12HourRoundTrip | scripts/weather_analysis.py:119 | converting the produced 12-hour hour and TimeOfDay back to 24 hours returns the original hour |
| WeatherAnalysis.To24HourRoundTrip | scripts/divide_the_day.py:23-25 | for 1 to 12 with AM/PM the 24-hour hour converts back to the same pair, so the conversion is a bijection onto 0 to 23 |
| WeatherAnalysis.MinuteSecond | scripts/weather_analysis.py:33 | `":%M:%S"` is six characters with ':' in positions 0 and 3 |
| WeatherAnalysis.ActivityHourParses | scripts/weather_analysis.py:34-37 | the produced ActivityHour's first field is the 12-hour hour, and converting it with the TimeOfDay gives back the timestamp's hour |
| WeatherAnalysis.ActivityHourIsClockTime | scripts/weather_analysis.py:31-39 | ActivityHour with TimeOfDay parses under `"%I:%M:%S %p"` to the timestamp's time of day |
| WeatherAnalysis.FormatDateRoundTrip | scripts/weather_analysis.py:31 | the unpadded m/d/Y date parses back under `"%m/%d/%Y"` to the same date |
| WeatherAnalysis.ActivityHourColumn | scripts/weather_analysis.py:37 | the ActivityHour column keeps the row count |
| WeatherAnalysis.MatchedColumnsReadBack | scripts/weather_analysis.py:29-41 | each row's ActivityHour, TimeOfDay and Date read back to its original datetime |
| WeatherAnalysis.MatchWeatherDf | scripts/weather_analysis.py:29-41 | on the datetimes load_weather_data gives, ActivityHour becomes the 12-hour text and Date and TimeOfDay are added, the helper columns are gone again and temp/precip are untouched |
| WeatherAnalysis.MatchedColumns | scripts/weather_analysis.py:31-39 | the step-by-step columns (Hour copied, 12 for midnight, Hour - 12 past noon; AM, then PM from noon) are exactly the Date, ActivityHour and TimeOfDay columns of the datetimes, with Hour the datetime hour and the 12-hour value in 1..12 |
| WeatherAnalysis.MatchWeather | scripts/weather_analysis.py:29-41 | one weather row per timestamp, holding that timestamp's ActivityHour, Date and TimeOfDay columns with its temperature and precipitation |
| WeatherAnalysis.MatchWeatherReadsBack | scripts/weather_analysis.py:29-41 | each matched weather row's ActivityHour with TimeOfDay parses to its timestamp's time of day, and its Date to its date |
| WeatherAnalysis.MergeFitbitData | scripts/weather_analysis.py:18-19 | exactly the calories/steps pairs that agree on Id, ActivityHour, Date and TimeOfDay, one row per such pair |
| WeatherAnalysis.MergeFitbitAndWeatherData | scripts/weather_analysis.py:43-44 | exactly the pairs that agree on ActivityHour, Date and TimeOfDay, one row per such pair, with no Id, so every user's row of an hour gets that hour's weather (and repeated weather hours repeat it) |
| WeatherAnalysis.AnalysisRows | scripts/weather_analysis.py:119 | Hour and TimeBlock on the merged frame exist exactly when every ActivityHour parses, one per merged row |
| WeatherAnalysis.PipelineRecoversWeatherHour | scripts/weather_analysis.py:117-119 | on the merged frame every hour parses, each row's Hour is the hour of a weather timestamp, and its block is label Hour / 4 |
| WeatherAnalysis.RegressionRows | scripts/weather_analysis.py:46-51 | with blocks given, only rows of a selected block stay, each as often as in the input; without blocks every row stays as it is; the result is None (no model) exactly when no row stays |
| WeatherAnalysis.GeneralPlotRows | scripts/weather_analysis.py:60-63 | without blocks the daytime blocks 8-12, 12-16 and 16-20 are used, otherwise the given ones; each row of a used block stays as often as it occurs |
| WeatherAnalysis.DefaultBlocksAreDaytime | scripts/weather_analysis.py:61-62 | the default blocks hold exactly the hours 8 to 19 |
| Sessions.Breaks | scripts/graphs.py:74-75 | the number of gaps above the threshold up to sample i is at most i + 1 |
| Sessions.SessionNumbers | scripts/graphs.py:75 | one session number per sample |
| Sessions.NumberSessions | scripts/graphs.py:74-75 | the running cumulative counter computes `SessionNumbers` |
| Sessions.SessionNumbersAreNumbering | scripts/graphs.py:74-75 | numbers start at 1 and step by 0 or 1, by one exactly where the gap exceeds the threshold; the first gap is 0 |
| Sessions.NumberingMonotone | scripts/graphs.py:75 | session numbers never decrease |
| Sessions.NumberingBounds | scripts/graphs.py:75-78 | every number lies between 1 and the last one |
| Sessions.NumberingAttains | scripts/graphs.py:75-78 | every number from 1 to the last one occurs |
| Sessions.TotalSessions | scripts/graphs.py:78 | `nunique` of the numbers is the last number, or 0 without samples |
| Sessions.Select | scripts/graphs.py:85 | the selected samples are samples of the day |
| Sessions.SelectRange | scripts/graphs.py:85 | selecting the samples of a number that occupies positions lo..hi gives exactly that slice |
| Sessions.SessionIsRun | scripts/graphs.py:85 | a valid session is a non-empty contiguous run of the sorted samples |
| Sessions.ParseTimes | scripts/graphs.py:68 | the time column parses exactly when every row parses, row by row |
| Sessions.SortByTime | scripts/graphs.py:71 | samples are sorted ascending by time and are a permutation of the parsed ones |
| Sessions.ExerciseSession | scripts/graphs.py:63-85 | the pipeline computes `ExerciseSessionOf` |
| Sessions.ExerciseSessionFacts | scripts/graphs.py:74-85 | n < 1 or n above the number of sessions raises, and without samples every n does; otherwise the session is a non-empty, time-ordered run of the day's samples |
| Sessions.SelectedRun | scripts/graphs.py:85 | the selected session is non-empty, a slice of the sorted samples, and sorted |
| Graphs.UserDay | scripts/graphs.py:65 | only rows with the requested Id and Date are considered, each as often as it occurs |
| Graphs.PlotHeartRate | scripts/graphs.py:63-85 | plot_heart_rate is the segmentation with a 600-second gap over the user's day |
| Graphs.PlotHeartRateFacts | scripts/graphs.py:65-85 | a day without samples rejects every session; a plotted session has a number from 1 to the total and is a non-empty, time-ordered set of the user's rows of that date |
| Graphs.SleepInstants | scripts/graphs.py:30-33 | the datetime column exists exactly when every row parses; each row keeps its logId and its instant is its parsed date and time of day |
| Graphs.InstantsOf | scripts/graphs.py:36 | the datetimes of one log are exactly those of its rows |
| Graphs.Earliest | scripts/graphs.py:36 | `min` is an element and no larger than any other |
| Graphs.Latest | scripts/graphs.py:36 | `max` is an element and no smaller than any other |
| Graphs.DurationOf | scripts/graphs.py:36-37 | a log's duration runs from its earliest to its latest minute, both of which occur; in hours it is (max − min)/3600 and never negative |
| Graphs.DurationsOf | scripts/graphs.py:36-37 | one row per logId, in ascending logId order, each spanning its log |
| Graphs.SleepDurations | scripts/graphs.py:30-37 | exists exactly when every datetime parses; then one row per log, each log once, running from that log's earliest to its latest parsed instant, so no duration is negative |
| Part3Graphs.FetchHeartRate | scripts/part3_graphs.py:23-33 | the query returns the Time, TimeOfDay and Value of the rows with the given Id and Date, one sample per matching row, so a sample occurs as often as matching rows hold it |
| Part3Graphs.PlotHeartRate | scripts/part3_graphs.py:23-53 | plot_heart_rate is the segmentation with a 300-second gap over the fetched rows |
| Part3Graphs.PlotHeartRateFacts | scripts/part3_graphs.py:36-53 | consecutive samples in time order share a session exactly when they are at most 300 s apart; a session number raises exactly when it is below 1, there are no rows, or it exceeds the last session; a plotted session is non-empty and fetched |
| Part3Graphs.FetchIntensity | scripts/part3_graphs.py:84-95 | the query returns the ActivityHour, TimeOfDay and TotalIntensity of the rows with the given Id and Date, one sample per matching row |
| Part3Graphs.PlotTotalIntensity | scripts/part3_graphs.py:98-101 | exists exactly when every time parses; the rows are in ascending parsed-time order and are a permutation of the fetched rows |
| Part4Wrangling.ColumnIndex | scripts/part4_wrangling.py:74 | a column is found exactly when the name is among the columns, at its first position |
| Part4Wrangling.OutliersFrom | scripts/part4_wrangling.py:46 | the outlier rows, with their labels, are exactly the rows whose value is outside the fences |
| Part4Wrangling.DetectOutliers | scripts/part4_wrangling.py:40-47 | a row is returned exactly when its value is below Q1 − 1.5·IQR or above Q3 + 1.5·IQR, with its own label; missing values never are |
| Part4Wrangling.KeepUnlistedIsFilter | scripts/part4_wrangling.py:98 | dropping the listed labels is the mask of the rows not listed |
| Part4Wrangling.LabelsOfOutliers | scripts/part4_wrangling.py:96-98 | a label is among the outliers' index exactly when that row's value is an outlier |
| Part4Wrangling.RemoveMinuteSleepOutliers | scripts/part4_wrangling.py:92-105 | without a "value" column the table is saved back unchanged; otherwise the reported count is initial minus final |
| Part4Wrangling.RemoveMinuteSleepOutliersKeepsInliers | scripts/part4_wrangling.py:96-98 | the rows kept are exactly the non-outlier rows, in their original order |
| Part4Wrangling.RemovedAreTheOutliers | scripts/part4_wrangling.py:96-100 | the count removed equals the number of outliers detected |
| Part4Wrangling.CountComplement | scripts/part4_wrangling.py:98-100 | the rows a mask keeps and the rows it drops add up to all rows |
| Part4Wrangling.FilledRows | scripts/part4_wrangling.py:76 | fillna changes only the column: missing cells become the median, others stay, and a NaN median changes nothing |
| Part4Wrangling.FilledColumnComplete | scripts/part4_wrangling.py:74-76 | after filling with a real median nothing is missing in the column, and filling again changes nothing |
| Part4Wrangling.DroppedRows | scripts/part4_wrangling.py:86 | dropping a column removes exactly that cell from each row and keeps the others in order |
| Part4Wrangling.Table.FillNa | scripts/part4_wrangling.py:76 | the in-place fillna replaces the rows by `FilledRows` and keeps the names and the table's shape |
| Part4Wrangling.Table.DropColumn | scripts/part4_wrangling.py:86 | the in-place drop removes the name and the cells of one column and keeps the names distinct |
| Part4Wrangling.FillMissingWeight | scripts/part4_wrangling.py:71-80 | with a WeightKg column its missing values become the median and nothing else changes; without it the table is unchanged |
| Part4Wrangling.WithoutName | scripts/part4_wrangling.py:86 | the other names, each still once, and one name fewer exactly when the name was present |
| Part4Wrangling.RemoveFatColumn | scripts/part4_wrangling.py:82-90 | only "Fat" goes, with its cells; without "Fat" nothing changes |
| Part4Wrangling.DuplicateCount | scripts/part4_wrangling.py:31-32 | the duplicate count is at most the row count |
| Part4Wrangling.DuplicateCountIsRowsLessDistinct | scripts/part4_wrangling.py:31-32 | the rows equal to an earlier row number the rows less the distinct rows |
| Part4.WeightLog.FillMissingValues | part4.py:17-19 | the caller's WeightKg column is replaced by `FillNa` of itself |
| Part4.FillNa | part4.py:18 | length kept, present weights kept, each missing weight replaced by the median |
| Part4.FillNaFacts | part4.py:17-19 | with a real median no weight is missing; filling twice equals filling once; a NaN median changes nothing |
| Part4.DetectOutliers | part4.py:32-44 | the fences are the IQR bounds; the count is at most the number of weights, and zero exactly when every present weight is within the fences |
| Part4.DetectOutliersCountsOutside | part4.py:41-42 | the count is the number of weights strictly outside the fences, missing ones excluded |
| Part4.QuartileRangeHasNoOutliers | part4.py:38-42 | weights between Q1 and Q3 are never outliers |
| Part4.ChooseStatistic | part4.py:47-51 | the median text exactly when num_outliers > 0, otherwise the mean text |
| Part4.MedianChosenForOutliers | part4.py:41-51 | the median is recommended exactly when some weight lies outside the fences |
| SleepAnalysis.AsleepLogIds | scripts/sleep_analysis_2.py:18 | the logIds of the rows with value = 1 |
| SleepAnalysis.AsleepMinutesByLogId | scripts/sleep_analysis_2.py:14-22 | one row per logId with an asleep minute, each once, carrying its count of value = 1 minutes (so at least 1), in descending order of that count |
| SleepAnalysis.GroupedLogFacts | scripts/sleep_analysis_2.py:16-19 | before ordering, the groups are the asleep logIds, each once, with counts of at least 1 |
| SleepAnalysis.PermutedLogFacts | scripts/sleep_analysis_2.py:20 | ordering by count keeps the same logIds, counts and distinctness |
| SleepAnalysis.AsleepDays | scripts/sleep_analysis_2.py:28-29 | the (Id, Date) pairs of the rows with value = 1 |
| SleepAnalysis.SleepMinutesPerDay | scripts/sleep_analysis_2.py:24-31 | one row per (Id, Date) with an asleep minute, each once, carrying its count of value = 1 minutes, so at least 1 |
| SleepAnalysis.DayMinutesFacts | scripts/sleep_analysis_2.py:26-29 | the counts are at least 1 and no (Id, Date) is repeated |
| SleepAnalysis.WithActiveMinutes | scripts/sleep_analysis_2.py:34-41 | every row kept, in order, with TotalActiveMinutes = VeryActive + FairlyActive + LightlyActive |
| SleepAnalysis.ActiveMinutesBound | scripts/sleep_analysis_2.py:36-40 | the total is at least each part when no part is negative, and sedentary minutes do not enter it |
| SleepAnalysis.ParseSleepDates | scripts/sleep_analysis_2.py:45 | `to_datetime` of Date succeeds exactly when every row parses |
| SleepAnalysis.ParseActivityDates | scripts/sleep_analysis_2.py:46 | `to_datetime` of ActivityDate succeeds exactly when every row parses |
| SleepAnalysis.PrepareMergedData | scripts/sleep_analysis_2.py:44-61 | exactly the sleep/activity pairs with equal Id and equal parsed dates, one row per such pair, projected onto the eight listed columns in order; None when a date does not parse |
| SleepAnalysis.MergedRowsAreConsistent | scripts/sleep_analysis_2.py:36-61 | every merged row has at least one asleep minute, a total equal to the sum of its three parts, and the sedentary minutes of that user's activity row of the same day |
| Part1.CountUniqueUsers | part1.py:13-14 | the number of different Ids among the rows; no more users than rows, and none only for an empty table |
| Part1.Totals | part1.py:17 | each key with the sum of its rows' TotalDistance |
| Part1.ComputeTotalDistance | part1.py:16-17 | one row per distinct Id, ascending by Id, with that user's summed TotalDistance |
| Part1.SumOfTotals | part1.py:17 | adding up the per-user rows gives the sum of the group sums |
| Part1.TotalDistanceIsConserved | part1.py:17 | the per-user totals add up to the distance of the whole table |
| Part1.TotalDistanceHasOneRowPerUser | part1.py:13-17 | the per-user table has as many rows as `count_unique_users` |

## Left out

- The model follows the behaviour of pandas 2.2 to 2.x: the inner-merge row order of 2.2 and later, and in-place updates through chained calls as they work before copy-on-write.
- Floating point. TotalDistance, WeightKg, the minute-sleep value, the outlier fences and the block means are float64 in pandas and exact `real`s here; rounding is not modelled. So these statements hold exactly only for reals: the sum identities (Frames.SumOverKeysIsSumIn, Part1.SumOfTotals, Part1.TotalDistanceIsConserved, DivideTheDay.BlockSumsCoverColumn), mean × size = sum in DivideTheDay.AveragePerTimeBlock, and the fence identities of Frames.IqrBounds and the outlier comparisons against them. In float64, per-user sums need not add up bit for bit to the column sum, and `Q1 - 1.5 * IQR` is rounded.
- Database and CSV I/O. This covers `load_data`, `load_data_from_database`, `fetch_table_data`, `save_table_data`, `create_modified_database` and `load_weather_data`. Tables are parameters; what is written back is the modelled table.
- All plotting and printing. This covers matplotlib, seaborn, the dashboard UI in dashboard/app.py, `plot_weight_distribution`, and the figures of both `plot_heart_rate` functions.
- OLS regressions, their summaries, residual diagnostics and `calculate_statistics`. These are floating-point numerics in external libraries. Only the row filtering before a regression is modelled.
- Numerics for `quantile`, `median` and `mean`. Q1, Q3 and the median are parameters. Averages are stated through mean × size = sum.
- `check_missing_values` and `check_outliers`. They only report counts per table. `check_duplicates` is modelled by its count; the loop over tables and its printing are left out.
- `int(nth_exercise)` in scripts/graphs.py:63. The session number is taken as an integer.
- `astype(int)` on text with a sign, spaces or non-ASCII digits. Only ASCII digit strings parse.
- For `pd.to_datetime` and `strptime`, only the exact formats given are modelled. The model does not cover:
  - whitespace;
  - the format inference for `prepare_merged_data`'s dates. That is modelled as `"%m/%d/%Y"`, the format of the database's dates.
- strftime's platform flags (`%-m`, `%#m`). The unpadded date is specified directly.
- Datetimes outside pandas' Timestamp range (years 1677 to 2262).
- Calling `match_weather_df` on a frame whose ActivityHour is already text. pd.to_datetime would then infer some other format; the scripts only call it on the datetimes `load_weather_data` returns.
- Weather columns other than temp and precip. They pass through the merge untouched.
- Text cells in numeric columns of part4_wrangling. A text cell is never an outlier and is not filled.
- Frames.SortBy: pandas' default sort is not stable. The model sorts stably, but promises only ascending order and a permutation. The relative order of equal keys is left unmodelled.
- Frames.InnerJoin: `pd.merge` row order is modelled as left-major, with each left row's matches in right's order. This is what pandas 2.2 and later produce for an inner merge (earlier versions grouped the output by key in order of first appearance); it is stated by the Frames lemmas, not by the contracts of the members that call the join.
- SleepAnalysis.SleepMinutesPerDay: SQL gives no order without ORDER BY. The model returns first-appearance order and promises none.
- SleepAnalysis.AsleepMinutesByLogId: the order of equal counts is not specified.
- Some in-place column changes are modelled as values, and the model does not track the caller's frame afterwards:
  - the datetime column `plot_sleep_duration_histogram` adds to its argument;
  - `prepare_merged_data` overwrites the date columns of the caller's sleep and activity frames with parsed dates; later readers of those frames see datetimes, which the model does not track;
  - `TotalActiveMinutes`, added to a frame the function itself read.
- Part4Wrangling.FillMissingWeight: assumes pandas before copy-on-write, where the chained `fillna(inplace=True)` updates the frame.
- The per-user weather view and the daily averages in `plot_general_weather_analysis` are plotting. Only its choice of rows is modelled.
- scripts/sleep_analysis_modified.py and scripts/part3_wonbin.py repeat rules modelled here around I/O. They are not part of this model.
