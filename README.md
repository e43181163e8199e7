# Meditation dashboard pipeline, modelled in Dafny

This project models the data pipeline behind a personal meditation dashboard.

1. **Daily log.** Hand-written habit phases `(start, end, hours per day)` are expanded into one row per day of each phase's inclusive date range. The rows are then grouped by their `YYYY-MM-DD` date text, and the hours of a date are summed (`convert_daily.py`).
2. **Retreats.** Each hand-written retreat record `{Name, Start, Days, Lat, Lon, Kind}` gets `End = Start + Days` calendar days. Both dates are written as `YYYY-MM-DD` text, and every other field is copied through (`convert_retreats.py`).
3. **Dashboard** (`meditation_dashboard.py`):
   - reads both tables back into dates;
   - expands every retreat into one 12-hour row per day of `[Start, End)`;
   - concatenates those rows with the daily log;
   - sums the result into calendar-month buckets labelled by the first of the month (`resample("MS")`), empty months included;
   - derives a cumulative total, a 6-month trailing mean, the life total and the average hours per year;
   - recomputes `Duration_Days` as `End - Start` when the column is missing.

Modules:

- `Calendar` (calendar.dfy): the proleptic Gregorian calendar for years 1 to 9999. Dates map to day numbers (day 0 is 0001-01-01) and back. It provides adding days and month numbering, and each month's first day and length as a half-open day range.
- `DateText` (date_text.dfy): the `YYYY-MM-DD` text form, that is the full-date production of section 5.6 of RFC 3339 with the day limits of its section 5.7. It has formatting, strict parsing and the round trips between them. It also has code-point-by-code-point text order, and the fact that text order is date order for these fixed-width dates.
- `Sums` (sums.dfy): sums of hours columns, and `Times` (n additions of a value).
- `Wrappers` (wrappers.dfy): `Option` and `Result`.
- `ConvertDaily` (convert_daily.dfy): the phase loop and the group-by-date sum.
- `ConvertRetreats` (convert_retreats.dfy): the retreat conversion loop.
- `Dashboard` (dashboard.dfy): parsing, retreat expansion, concatenation, monthly buckets, cumulative total, trailing mean and headline figures.

Modelling choices:

- **Loops become methods.** The scripts' append loops are methods with loop invariants: `ConvertDaily.AppendDays`, `ConvertDaily.ExpandPhases`, `ConvertRetreats.ProcessRetreats`, `Dashboard.AppendSpan` and `Dashboard.ExpandRetreats`. Each is proved equal to a function over sequences, and that function's properties are proved as lemmas.
- **Whole-column pandas expressions become functions.** This covers `groupby().sum()`, `concat`, `resample().sum()`, `cumsum`, `rolling(6).mean()`, the total and the yearly average.
- **Hours are `real`.** Every hours value in the data is exact (0.25, 1, 2, 12.0), so the model's arithmetic is exact.
- **Failures are values.** A date text that is not a date, an end date outside the calendar, or a daily expansion without rows is a `Failure`/`None` value, not an exception.

Behaviour of the code that the model keeps:

- A phase whose start is after its end yields no rows and raises no error (`pd.date_range` with start after end is empty, convert_daily.py:20).
- A phase list whose expansion has no row at all stops the daily conversion: the table built from an empty list has no `Date` column, so the group-by at convert_daily.py:34 fails.
- Negative hours are accepted; nothing checks the sign.
- A retreat with `Days < 1` yields no retreat rows (the range at meditation_dashboard.py:25 is empty).
- Every retreat day counts 12.0 hours, whatever the retreat's `Kind` (meditation_dashboard.py:30).
- Monthly resampling emits every month from the earliest to the latest row, empty months included, each with 0 hours when it has no rows (meditation_dashboard.py:46).
- The dashboard has no grouping by location and no per-(month, kind) rollup.

## Model

| member | source | states |
|---|---|---|
| Calendar.NextDay | convert_retreats.py:37 | Adding one day to a date gives the next day, the first of the next month or the first of the next year, with February's length following the leap-year rule |
| Calendar.AddDays | convert_retreats.py:37 | `d + n days` is a valid date whose day number is exactly n more than d's |
| Calendar.FromDayToDay | meditation_dashboard.py:17-19 | A valid date converted to a day number and back is the same date |
| Calendar.ToDayOrder | meditation_dashboard.py:17-19 | Day numbers order dates exactly by (year, month, day) |
| Calendar.ToDayInjective | meditation_dashboard.py:17-19 | Two valid dates have the same day number only if they are the same date |
| Calendar.DaysBeforeYearClosedForm | convert_retreats.py:37 | The year-by-year day count equals the Gregorian closed form 365(y-1) + (y-1)/4 - (y-1)/100 + (y-1)/400 |
| Calendar.ToDayBounds | meditation_dashboard.py:17-19 | A valid date's day number lies inside its own year and inside the representable range |
| Calendar.MonthStartIsFirstDay | meditation_dashboard.py:46 | The month-start label, counted month by month, is the day number of the first day of that month |
| Calendar.MonthTiles | meditation_dashboard.py:46 | Each month is a non-empty half-open day range, and the next month starts where it ends |
| Calendar.MonthIndexRange | meditation_dashboard.py:46 | A day belongs to month k if and only if it lies in [MonthStart(k), MonthEnd(k)) |
| Calendar.MonthStartMonotone | meditation_dashboard.py:46 | Later months start strictly later, and no earlier than the end of any earlier month |
| Calendar.MonthIndexMonotone | meditation_dashboard.py:46 | A later day never belongs to an earlier month |
| DateText.Format | convert_daily.py:25 | `strftime("%Y-%m-%d")`: the text of a date is always ten characters, four digits, a dash, two digits, a dash, two digits |
| DateText.Parse | meditation_dashboard.py:17-19 | A text is read as a date only when it has the `YYYY-MM-DD` layout and names a calendar date (month 1 to 12, day within the month, leap years included) |
| DateText.ParseFormat | convert_retreats.py:41-42 | A date formatted as `YYYY-MM-DD` parses back to the same date |
| DateText.FormatParse | meditation_dashboard.py:17-19 | Any text that parses is exactly the formatted form of the date it denotes |
| DateText.FormatInjective | convert_daily.py:25 | Two dates have the same text if and only if they are the same date |
| DateText.FormatOrder | convert_daily.py:34 | For these 4-digit-year dates, text order is chronological order, in both directions |
| DateText.DigitsOrder | convert_daily.py:25 | Zero-padded numerals of one width sort as text like the numbers they denote |
| DateText.LexTotal | convert_daily.py:34 | Text order is total and antisymmetric: two different keys are ordered one way and only one way |
| DateText.LexTransitive | convert_daily.py:34 | Text order is transitive |
| DateText.DayTextOrder | convert_daily.py:25 | Different days have different texts, and text order is day order |
| DateText.DayTextParse | convert_daily.py:25 | The text written for a day reads back as that day |
| ConvertDaily.PhaseRows | convert_daily.py:18-27 | A phase yields rows exactly when both of its dates are dates; otherwise the error names its start or end text, one that is not a date |
| ConvertDaily.PhaseRowsKeys | convert_daily.py:20 | A phase's rows name exactly the dates from its start to its end, both included |
| ConvertDaily.PhaseRowsSpec | convert_daily.py:20-27 | A phase yields DayTotal rows: consecutive days from its start, both ends included, in strictly ascending text order, each with the phase's hours |
| ConvertDaily.RangeRows | convert_daily.py:20-27 | A date range of `count` days yields exactly `count` rows |
| ConvertDaily.RangeRowsSpec | convert_daily.py:20-27 | Row i of a date range is day first + i, carries the range's hours, and the texts strictly ascend |
| ConvertDaily.RangeRowsKeys | convert_daily.py:20 | A text occurs in a date range if and only if it parses to a day inside the range |
| ConvertDaily.RangeRowsTotal | convert_daily.py:20-27 | A date range of n days at h hours holds n times h hours |
| ConvertDaily.ExpandAll | convert_daily.py:18-27 | When the expansion fails, its error is the error of one of the phases |
| ConvertDaily.ExpandAllSucceeds | convert_daily.py:18-20 | Expanding all phases succeeds if and only if every phase's dates are dates |
| ConvertDaily.ExpandAllFirstFailure | convert_daily.py:18-20 | Once a prefix of the phases fails, the whole expansion fails with that same error |
| ConvertDaily.ExpandAllOnDate | convert_daily.py:18-27 | Before grouping, a date's rows hold the summed hours of the phases whose inclusive range contains it |
| ConvertDaily.ExpandAllKeys | convert_daily.py:18-27 | Before grouping, a text occurs if and only if it is a date covered by some phase |
| ConvertDaily.ExpandAllTotal | convert_daily.py:18-27 | The expanded rows carry each phase's day count times its hours, and nothing more |
| ConvertDaily.ExpandAllEmpty | convert_daily.py:18-30 | The expansion has no row at all exactly when every phase starts after it ends, in particular when there are no phases |
| ConvertDaily.AppendDays | convert_daily.py:23-27 | The day loop appends exactly the inclusive date range's rows to the list |
| ConvertDaily.ExpandPhases | convert_daily.py:18-27 | The phase loop produces exactly the phase-by-phase expansion, or the first bad date text |
| ConvertDaily.InsertRowSorted | convert_daily.py:34 | Adding a row to a strictly sorted table keeps it strictly sorted, and adds exactly the row's date to its keys |
| ConvertDaily.InsertRowSumOn | convert_daily.py:34 | Adding a row adds its hours to its own date's total and to no other date's |
| ConvertDaily.InsertRowTotal | convert_daily.py:34 | Adding a row adds its hours to the grand total |
| ConvertDaily.GroupSum | convert_daily.py:34 | The grouped table is strictly sorted by date text and has exactly the input's dates as keys |
| ConvertDaily.GroupSumConserves | convert_daily.py:34 | Grouping keeps every date's total and the grand total |
| ConvertDaily.SumOnSorted | convert_daily.py:34 | In a table with one row per date, a row's hours are that date's total |
| ConvertDaily.GroupSumSpec | convert_daily.py:34 | After grouping, each date appears exactly once, in ascending order, with the sum of every input row of that date; the total is unchanged |
| ConvertDaily.BuildDailyLog | convert_daily.py:18-34 | The script succeeds if and only if every phase's dates are dates and the expansion has at least one row; with no row it fails with NoRows. Its output is the non-empty grouped expansion: no duplicate dates, each date's hours the sum over the phases covering it, and the total equal to the phases' days times hours |
| ConvertDaily.DailyLogDates | convert_daily.py:25-34 | The log has a row for a date if and only if some phase covers it, and its rows run in chronological order |
| ConvertRetreats.ProcessRetreat | convert_retreats.py:36-47 | A record converts exactly when its start is a date and start + Days lies in the calendar |
| ConvertRetreats.ProcessRetreatSpec | convert_retreats.py:39-47 | A converted record keeps the start text. Its start and end parse, exactly Days apart; Duration_Days is Days; Name, Lat, Lon and Kind are copied |
| ConvertRetreats.ProcessRetreatEnd | convert_retreats.py:37 | The end text denotes the date whose day number is the start's plus Days, month and year carries included |
| ConvertRetreats.EndAfterStart | convert_retreats.py:37 | For Days >= 1 the end is strictly after the start, both as a date and as text |
| ConvertRetreats.ProcessRetreats | convert_retreats.py:35-47 | Exactly one output record per input record, in order; otherwise the error of the first record that cannot be converted |
| Dashboard.ParseDaily | meditation_dashboard.py:19 | The daily dates read back exactly when every text is a date, giving one in-range row per log row |
| Dashboard.ParseDailyRows | meditation_dashboard.py:19 | A read-back daily row is the day its text names, with the hours unchanged and the daily tag |
| Dashboard.ParseDailyTotal | meditation_dashboard.py:19 | Reading the dates back keeps the log's total hours |
| Dashboard.ParseRetreat | meditation_dashboard.py:17-18 | A retreat reads back exactly when both of its dates are dates, with both days in range |
| Dashboard.ParseRetreats | meditation_dashboard.py:17-18 | The retreats read back exactly when each one does, one span per record in order |
| Dashboard.RetreatRoundTrip | meditation_dashboard.py:17-18 | What the conversion writes reads back as the same start day, with the end exactly Days later, Duration_Days equal to Days and the other fields unchanged |
| Dashboard.FillDurations | meditation_dashboard.py:112-113 | The fallback keeps the number of retreats |
| Dashboard.FallbackAgrees | meditation_dashboard.py:112-113 | Where each Duration_Days already equals End - Start, the fallback gives the same table as the stored column |
| Dashboard.ConvertedDurations | meditation_dashboard.py:112-113 | Retreats written by the conversion read back with Duration_Days equal to End - Start |
| Dashboard.ConvertedFallback | meditation_dashboard.py:112-113 | For a retreats file the conversion wrote, the fallback recomputes exactly the stored Duration_Days column |
| Dashboard.SpanRows | meditation_dashboard.py:25-32 | A retreat yields End - Start rows (none unless End is after Start), each dated in [Start, End) with 12.0 hours and the retreat tag |
| Dashboard.SpanRowsSpec | meditation_dashboard.py:25-32 | A retreat's rows are its days Start, ..., End - 1, End excluded, each with 12.0 hours and the retreat tag |
| Dashboard.SpanRowsTotal | meditation_dashboard.py:25-32 | A retreat contributes 12 hours per day of [Start, End) |
| Dashboard.RetreatDayCount | meditation_dashboard.py:25 | A converted retreat read back expands to exactly Duration_Days rows, or none if that is not positive |
| Dashboard.RetreatRows | meditation_dashboard.py:22-32 | All retreats together yield one row per retreat day, summed over the retreats |
| Dashboard.RetreatRowsTotal | meditation_dashboard.py:22-32 | All expanded retreats carry 12 hours for every retreat day and nothing else |
| Dashboard.RetreatRowsInRange | meditation_dashboard.py:22-32 | Every expanded retreat row lies inside the calendar |
| Dashboard.AppendSpan | meditation_dashboard.py:25-32 | The day loop appends exactly the retreat's half-open day range |
| Dashboard.ExpandRetreats | meditation_dashboard.py:22-34 | The retreat loop yields every retreat's days, retreat after retreat |
| Dashboard.Combine | meditation_dashboard.py:39 | The concatenation holds every daily row and every retreat row, none lost and none added |
| Dashboard.CombineSpec | meditation_dashboard.py:39 | The concatenation is the daily rows followed by the retreat rows; it adds their hours and stays in range |
| Dashboard.Min | meditation_dashboard.py:46 | The result is one of the values and no greater than any |
| Dashboard.Max | meditation_dashboard.py:46 | The result is one of the values and no smaller than any |
| Dashboard.Resample | meditation_dashboard.py:46 | The monthly table is empty exactly when there are no rows |
| Dashboard.ResampleIsBuckets | meditation_dashboard.py:46 | No rows give no buckets; otherwise one bucket per month from the earliest row's month to the latest's |
| Dashboard.ResampleLabels | meditation_dashboard.py:46 | Every label is the first day of a month; labels are consecutive months; the first and last are the months of the earliest and latest rows |
| Dashboard.ResampleBins | meditation_dashboard.py:46 | Bucket i is labelled with the first day of month FirstMonth + i and holds exactly the hours of the rows dated in that month |
| Dashboard.ResampleRowBucket | meditation_dashboard.py:46 | Every row falls in the bucket of its own calendar month |
| Dashboard.ResampleEmptyMonth | meditation_dashboard.py:46 | A month in range with no rows still gets a bucket, holding 0 hours |
| Dashboard.ResampleConserves | meditation_dashboard.py:46 | The buckets' hours sum to the rows' total |
| Dashboard.ResampleAscending | meditation_dashboard.py:46 | The bucket labels strictly increase |
| Dashboard.HoursBetweenSplit | meditation_dashboard.py:46 | The hours of adjacent day ranges add up to the hours of their union |
| Dashboard.CumSum | meditation_dashboard.py:49 | The cumulative column starts at the first month's hours and each entry adds its month's hours to the entry before |
| Dashboard.RunningTotalsArePrefixSums | meditation_dashboard.py:49 | Running totals from a start value are that value plus the prefix sums |
| Dashboard.CumSumIsPrefixSum | meditation_dashboard.py:49 | Cumulative Hours[i] is the sum of Hours[0..i] |
| Dashboard.CumSumMonotone | meditation_dashboard.py:49 | With no negative hours, the cumulative column never decreases |
| Dashboard.CumSumLast | meditation_dashboard.py:49 | The cumulative column ends at the column's total |
| Dashboard.RollingMeanFromCumSum | meditation_dashboard.py:52 | The 6-month mean at i >= 5 is the mean of Hours[i-5..i], i.e. the rise of the cumulative column over those six buckets, divided by 6 |
| Dashboard.RollingMeanBounds | meditation_dashboard.py:52 | A 6-month mean lies between any lower and upper bound of the hours |
| Dashboard.TotalHours | meditation_dashboard.py:61 | Total Life Hours is where the cumulative column ends |
| Dashboard.AvgPerYear | meditation_dashboard.py:66-67 | The average is undefined exactly for an empty table or a zero label span; otherwise, times the years between the earliest and latest label (days / 365.25), it gives the total |
| Dashboard.TotalHoursOfCombined | meditation_dashboard.py:61 | Total Life Hours is the daily rows' hours plus the retreat rows' hours |
| Dashboard.CumulativeEndsAtTotal | meditation_dashboard.py:49-61 | The cumulative chart ends at the Total Life Hours figure, which is the combined rows' total |
| Dashboard.AvgPerYearAscending | meditation_dashboard.py:66-67 | On a table in date order, the average exists if and only if there are at least two labels; times the years between first and last label it gives the total |
| Dashboard.AvgPerYearOfResample | meditation_dashboard.py:66-67 | On the monthly table, the average exists if and only if there are at least two months; times the years between first and last label it gives the total |
| Dashboard.AscendingSpan | meditation_dashboard.py:66 | In a table in date order, max label minus min label is last minus first, and it is zero exactly for a single label |
| Dashboard.PipelineTotal | meditation_dashboard.py:61 | From the two exported tables to the life total: the daily log's hours plus 12 hours for every retreat day |

## Left out

- CSV reading and writing, the `FileNotFoundError` path, `print`, Streamlit widgets, Plotly charts and the map are not modelled. The model takes and returns sequences.
- The "Total Retreats" metric (meditation_dashboard.py:63) is only the number of retreat records, shown on screen. It is not modelled.
- Number formatting (`:,.0f`) is display only and not modelled. Hours are exact reals, not IEEE doubles.
- pandas timestamps cover only about the years 1677 to 2262. The model's calendar covers years 1 to 9999 and does not reproduce that narrower window.
- ConvertDaily.PhaseRows, ConvertRetreats.ProcessRetreat: `pd.date_range` (convert_daily.py:20) and `pd.to_datetime` (convert_retreats.py:36) accept many other date spellings, such as `2012-3-1`, and the scripts then write the date back in `YYYY-MM-DD` form (convert_daily.py:25, convert_retreats.py:41). The model accepts only strict `YYYY-MM-DD` and fails on any other spelling. ConvertRetreats.ProcessRetreatSpec's promise that the start text is kept unchanged relies on this: with a looser parser it would hold only for text already in `YYYY-MM-DD` form. Dashboard.ParseDaily and Dashboard.ParseRetreat read only what the scripts write, which is always strict.
- Dashboard.Resample: requires every row's day to lie in the calendar. Rows read back by ParseDaily and ParseRetreats always do.
- Dashboard.AvgPerYear: the code divides by a zero year span for a single month and for an empty table, giving a non-finite value: infinity for a non-zero total, NaN for a zero total and NaN for an empty table. The model returns None in these cases instead of modelling non-finite floating-point values.
- Lat and Lon are only copied; they are opaque reals. `Type` is a two-value tag, since nothing downstream reads it.
- Exceptions are not modelled. A date text that is not a date, or an end date beyond year 9999, is a Failure or None value.
- Grouping compares date keys code point by code point. Locale collation is not modelled.
