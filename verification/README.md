# PowerSmart consumption pipeline in Dafny

PowerSmart is a single Streamlit script that turns a household's electricity
data into an hourly year profile and a dashboard. This project models the
data pipeline of that script as pure functions over sequences, with exact
`real` arithmetic in place of floats.

- **Upload dispatch** (`Ingest`): a file is read as a time series first. When
  that gives nothing, it is read again as a load-profile table.
- **Time-series reader** (`Columns`, `Canonical`), `cargar_datos_masivos`:
  - column names are lower-cased and stripped;
  - the timestamp and power columns are the first alias present;
  - rows without a parseable stamp are dropped;
  - a median above 1000 switches the column from W to kW;
  - the readings are sorted, one is kept per stamp, and the result is
    forward-filled onto an hourly grid.
- **Load-profile reader** (`LoadProfile`), `cargar_perfil_desde_archivo`:
  - header names are stripped and cut at the first dot;
  - each usable row becomes an appliance rule on the hours flagged 1;
  - the rules are synthesised into a year profile.
- **Appliance synthesis** (`Synthesis`), `generar_perfil_manual`: a
  zero-filled hourly index of a calendar year. Every rule adds its kW on
  its weekdays and hours.
- **Manual form** (`HourSelection`):
  - the daytime slider splits 0..23 into two pick lists;
  - the picks become one sorted hour list;
  - a submission without hours adds nothing.
- **Scenario adjustment** (`Scenario`): a seasonal multiplier per scenario
  name. A day/night rescaling then gives the daytime window a target share
  of the total energy. A side without energy is multiplied by 0.
- **Dashboard numbers** (`Metrics`):
  - the average day (`groupby(hour).mean()`);
  - daily peak, mean, and 30-day and 365-day energy;
  - annual total, peak and mean;
  - the day and night charts;
  - the annual and daily load-duration curves.
- **Monthly bill** (`Billing`): total and mean over the positive months, and
  the months ordered for the bar chart.

Shared definitions:

- `Calendar` holds the clock: seconds since 1970-01-01, hour of day, weekday
  with Monday = 0, and Gregorian years.
- `Series` holds samples and sums.
- `Sorting` holds orderings, median and mean.

Timestamps are naive local time in seconds. Dafny's `/` and `%` are floor
division and modulus for the positive divisors used, which matches pandas
for stamps before 1970 as well.

Four behaviours of the readers are worth stating on their own:

- A non-numeric power cell stays missing (`None`) after the hourly grid is
  laid. `asfreq(method='ffill')` fills only the grid points it adds, not
  missing values already present.
- The timestamp aliases are tried in the order `timestamp`, `fecha`,
  `time`, `date`, and the power aliases in the order `potencia_kw`, `kw`,
  `power_kw`, `potencia_w`, `w`, `consumo`.
- A load-profile row is skipped when its name is missing, when its power is
  not numeric or zero, or when no hour is flagged.
- A column name carried by two columns makes either reader return nothing:
  the lookup yields a frame instead of a column, and pandas raises.

## Model

| member | source | states |
|---|---|---|
| Calendar.HourOf | app.py:144 | the hour of day lies in 0..23 and is the hour whose 3600-second slot holds the stamp's second of the day |
| Calendar.HourAfter | app.py:136-144 | one hour later on the grid the hour of day advances by one, modulo 24 |
| Calendar.WeekdayAfter | app.py:143 | `k` whole days later the weekday has advanced by `k` modulo 7 and the hour of day is the same; 1970-01-01 is a Thursday (weekday 3) |
| Calendar.DaysInYearIsCalendarLength | app.py:136 | the days between 1 January of a year and of the next are 366 for a Gregorian leap year and 365 otherwise |
| Calendar.Year2024 | app.py:136 | 2024 has 366 days and 1 January 2024 is a Monday (weekday 0) |
| Sorting.SortDesc | app.py:392 | the result is a permutation of the input, in non-increasing order |
| Sorting.SortedDistinct | app.py:253 | the result is strictly increasing and holds exactly the values of the input |
| Sorting.Median | app.py:130 | there is no median (NaN) exactly when there are no values |
| Sorting.MedianOfSorted | app.py:130 | on values in order the median is the middle value, or the mean of the two middle values for an even count |
| Sorting.MedianOfPermutation | app.py:130 | the median depends on the values only, not on their order |
| Sorting.SortedUnique | app.py:130 | two non-increasing orderings of the same values are equal |
| Sorting.MedianWithinRange | app.py:130 | a nonempty list has a median, and it lies between the smallest and the largest value |
| Sorting.Mean | app.py:376 | the mean taken once per element gives the sum |
| Sorting.MeanWithinRange | app.py:376 | the mean lies between the smallest and the largest value |
| Columns.StripIsIdempotent | app.py:125 | a stripped name has no whitespace at either end, and stripping it again changes nothing |
| Columns.NormaliseNameIsIdempotent | app.py:125 | normalising a normalised header name gives it back |
| Columns.BeforeDot | app.py:152 | the result is the longest dot-free prefix of the name |
| Columns.FirstPresent | app.py:126-127 | none exactly when no alias is a column name; otherwise the first alias in priority order that is a column name |
| Canonical.ChooseColumns | app.py:125-129 | fails with MissingColumns exactly when no timestamp alias or no power alias is among the normalised names; succeeds exactly when both are present and each chosen name is carried by one column; an AmbiguousColumn error names a chosen alias carried by two or more columns; on success the two columns carry the first-priority aliases |
| Canonical.StampedRows | app.py:129 | the positions of exactly the rows whose stamp parses, in strictly increasing table order |
| Canonical.StampedReadings | app.py:129 | one reading per row whose stamp parses, in table order: the k-th reading is the stamp and power of the k-th such row |
| Canonical.ToKilowatts | app.py:130 | stamps and length are kept, and a value is present after the unit step exactly when it was before |
| Canonical.PresentAppend | app.py:130 | the values the median is taken over are every present value once, in order: the values of a list in two parts are those of the first part followed by those of the second |
| Canonical.PresentOfOne | app.py:130 | a single reading contributes its value, or nothing when it is NaN |
| Canonical.WattsDetection | app.py:130 | values are divided by 1000 only when some value exceeds 1000, always when every present value does, and otherwise kept |
| Canonical.InsertNew | app.py:131 | inserting into an ascending series keeps it ascending, adds the stamp, and leaves a series that already holds the stamp unchanged |
| Canonical.SortKeepFirst | app.py:131 | the result is strictly ascending, has exactly the input's stamps, and each kept reading is the first in input order with its stamp |
| Canonical.FillForward | app.py:131 | an hourly grid from the first stamp to the last; every point carries the latest reading at or before it, and a reading on the grid is kept unchanged |
| Canonical.LatestIsExact | app.py:131 | on an ascending series the latest reading at or before a reading's own stamp is that reading |
| Canonical.AlignedReadingsKept | app.py:131 | every reading whose stamp lies on the hourly grid appears at its grid position unchanged |
| Canonical.CleanedKeepsFirstRow | app.py:129-131 | every cleaned reading is the first table row carrying its stamp, with that row's power after the unit step |
| Canonical.Canonicalize | app.py:121-132 | fails exactly when the columns cannot be chosen, with the column error; otherwise the forward-filled hourly grid of the cleaned readings: empty exactly when no row survives cleaning, from the first stamp to within an hour below the last, each point carrying the latest reading at or before it and every on-grid reading kept |
| Synthesis.EmptyYear | app.py:136-137 | 8760 or 8784 zero samples, one per hour from the year's first midnight |
| Synthesis.AddRule | app.py:138-145 | stamps are kept and each sample gains the rule's kW exactly at the weekdays and hours the rule runs; a rule without hours adds nothing |
| Synthesis.Overlay | app.py:138-145 | the stamps are kept and each sample gains the summed demand of the rules that run at its weekday and hour |
| Synthesis.Synthesize | app.py:134-146 | the profile is empty exactly when there are no rules; otherwise one sample per hour of the year, each equal to the independently defined total demand at that hour |
| Synthesis.SynthesisIsAdditive | app.py:138-145 | the profile of two rule lists together is the hour-by-hour sum of their separate profiles |
| Synthesis.IdleRuleChangesNothing | app.py:142 | appending a rule without hours leaves the profile unchanged |
| Synthesis.LampScenario2024 | app.py:134-146 | five 10 W lamps at 18, 19 and 20 h every day of 2024 give 8784 samples, 0.05 kW at those hours and 0 elsewhere |
| LoadProfile.ProfileNames | app.py:152 | each header becomes its stripped text cut at the first dot |
| LoadProfile.HourColumns | app.py:154 | the listed hour columns are labelled hours in increasing order, each with the position of its first column |
| LoadProfile.HourColumnsCover | app.py:154 | every hour whose label is a column name has a listed column |
| LoadProfile.ProfileLayout | app.py:152-159 | MissingColumns exactly when `Carga` or `Potencia (W)` is missing; a layout exactly when each of them and each hour label is carried by at most one column (a repeated name makes the row lookups raise); otherwise AmbiguousColumn naming a repeated column; the layout points at the two columns and lists the hour columns |
| LoadProfile.FlaggedHours | app.py:159 | an hour is listed exactly when one of its columns reads as 1 in the row |
| LoadProfile.RowRule | app.py:157-160 | a row is skipped exactly when its name is missing, its power is not numeric or zero, or no hour is flagged; otherwise the rule has count 1, seven days and exactly the flagged hours |
| LoadProfile.RowsToRules | app.py:156-160 | every rule comes from a usable row, every usable row gives its rule, and none are produced exactly when no row is usable |
| LoadProfile.RowsToRulesAppend | app.py:156-160 | one rule per usable row, in table order: the rules of a table in two parts are those of the first part followed by those of the second |
| LoadProfile.RowsToRulesOfOne | app.py:157-160 | a single row gives exactly its own rule, or none when it is skipped |
| LoadProfile.LoadProfileTable | app.py:148-164 | the layout's error when there is no layout; NoUsableRows exactly when there is a layout and no row is usable; success exactly when there is a layout and some row is usable, and then the nonempty year profile of the rows' rules |
| LoadProfile.RuleHoursAreFlaggedColumns | app.py:154-159 | with the hour columns listed for a header, hour g is flagged in a row exactly when the label of g is a column name and the first column with that label reads 1 |
| Ingest.Ingest | app.py:223-230 | a time series exactly when the whole file reads as one with rows, and then the forward-filled hourly grid of its cleaned readings; else a profile exactly when the table after the preamble reads as a load profile, and then that profile; else not recognised |
| HourSelection.RangeMembers | app.py:246-247 | `range(lo, hi)` is strictly increasing and holds exactly lo..hi-1 |
| HourSelection.DayOptions | app.py:246 | strictly increasing, and holds exactly the hours start..end |
| HourSelection.NightOptions | app.py:247 | strictly increasing, and holds exactly the hours of 0..23 outside start..end |
| HourSelection.OptionsPartitionTheDay | app.py:244-247 | for a slider position the two lists have 24 hours between them and every hour is in exactly one |
| HourSelection.FinalHours | app.py:252-253 | strictly increasing; all 24 hours when the whole day is ticked, otherwise exactly the picked hours |
| HourSelection.AddAppliance | app.py:251-256 | the rule is appended with its final hours; the list is unchanged exactly when the whole day is not ticked and nothing was picked |
| HourSelection.NoHoursOnlyWithoutPicks | app.py:254 | the final hour list is empty exactly when the whole day is not ticked and both pick lists are empty |
| Scenario.SeasonNamed | app.py:359-361 | "Verano / Seca", "Invierno / Lluvias" and "Vacaciones" select their scenarios, and every other name selects none |
| Scenario.Seasonal | app.py:358-361 | stamps are kept, and each value is multiplied by its scenario's factor for its hour; "Normal" leaves the series unchanged |
| Scenario.DrySummerDay | app.py:359 | a constant 1 kW day under "Verano / Seca" reads 1.38 kW in 14..21 h and 1.20 kW otherwise |
| Scenario.TotalSplits | app.py:363-365 | daytime and nighttime energy add up to the total |
| Scenario.RescaleRows | app.py:370-371 | each row is multiplied by the daytime factor inside the window's hours and by the nighttime factor outside them |
| Scenario.RescaleEnergy | app.py:370-371 | the daytime energy is multiplied by the daytime factor and the nighttime energy by the nighttime factor |
| Scenario.RedistributeAsWritten | app.py:363-371 | the code as written: stamps are kept, every row is scaled by the factor of its side of the window's hours, with both factors computed from the `between_time` daytime energy, and a side whose `between_time` energy is not positive ends at zero |
| Scenario.Redistribute | app.py:363-371 | stamps are kept, every row is scaled by the factor of its side, computed from the daytime energy of the same rows, and a side with no positive energy ends at zero |
| Scenario.ShareArithmetic | app.py:366-369 | with energy on both sides, each factor times its side's energy gives that side's target |
| Scenario.RedistributeHitsShare | app.py:363-371 | with energy on both sides, the daytime hours end with exactly pct% of the total, the night with the rest, and the total is kept |
| Scenario.RedistributeAtCurrentShare | app.py:363-371 | a target equal to the current daytime share leaves the series unchanged |
| Scenario.AsWrittenAgreesOnWholeHours | app.py:364-371 | with stamps and window on whole hours and start <= end, measuring with `between_time` gives the same series as measuring by hour |
| Scenario.AsWrittenMissesShare | app.py:363-371 | on the hourly grid 05:00, 06:00, 07:00 at 1 kW with the window 06:15-18:00 and a 50% target, the code as written grows the total from 3 to 3.75 and gives the daytime hours 80% instead of 50% |
| Scenario.Adjust | app.py:358-371 | the seasonal step and the redistribution keep the stamps |
| Scenario.AdjustHitsShare | app.py:358-371 | after the whole adjustment the daytime hours hold the target share of the seasonally scaled total, which is kept |
| Metrics.HourCountCounts | app.py:374 | an hour has a positive sample count exactly when some sample falls in it |
| Metrics.HourlyProfile | app.py:374 | each row is an hour that occurs, with the mean power of that hour's samples |
| Metrics.ProfileInHourOrder | app.py:374 | the rows come in strictly increasing hour order |
| Metrics.ProfileRowIffHourPresent | app.py:374 | there is a row for hour g exactly when some sample falls in hour g |
| Metrics.ProfileOfNonEmpty | app.py:374 | a nonempty series has a nonempty average day |
| Metrics.ProfileWeightsGiveTotal | app.py:374 | each row's mean times its sample count, summed over the rows, is the total energy of the series |
| Metrics.FullDayProfile | app.py:374 | a series of at least 24 consecutive hours has all 24 rows, hour k at position k |
| Metrics.ProfileMetrics | app.py:376-377 | the peak dominates every row and is one of them, the mean repeated over the rows gives the daily energy, and month and year are 30 and 365 days |
| Metrics.DailyMeanWithinProfile | app.py:376 | the daily mean lies between the smallest hourly mean and the peak |
| Metrics.Annual | app.py:379 | the annual total is the series' total, the peak dominates every sample and is one of them, and the mean repeated over the samples gives the total |
| Metrics.AnnualMeanWithinSeries | app.py:379 | the annual mean lies between the smallest sample and the peak |
| Metrics.DayRows | app.py:382-383 | the day chart holds exactly the profile rows whose hour is in start.hour..end.hour |
| Metrics.NightRows | app.py:383 | the night chart holds exactly the other rows |
| Metrics.DayRowsAppend | app.py:382-383 | the day chart keeps the rows in the order of the average day: the day rows of a profile in two parts are those of the first part followed by those of the second |
| Metrics.NightRowsAppend | app.py:382-383 | the same order-keeping for the night chart |
| Metrics.DayNightOfOne | app.py:382-383 | a single row goes to the day chart exactly when its hour is in start.hour..end.hour, and to the night chart otherwise |
| Metrics.DayNightSplit | app.py:382-383 | the two charts share out the rows, and their energies add up to the profile's |
| Metrics.LoadDuration | app.py:392-394 | the values are a permutation of the input in non-increasing order; point i carries (i+1)/n*100, so the percentages are strictly increasing, in (0, 100], and end at 100 |
| Metrics.PercentIncreasing | app.py:392 | `k/n*100` is strictly increasing in k, positive, at most 100, and 100 at k = n |
| Metrics.LoadDurationStartsAtPeak | app.py:392-396 | the curve starts at the largest value, the peak the chart marks |
| Billing.PositiveMonths | app.py:278 | exactly the months with consumption above zero |
| Billing.PositiveMonthsAppend | app.py:278 | an order-preserving filter: the positive months of a bill in two parts are those of the first part followed by those of the second |
| Billing.PositiveMonthOfOne | app.py:278 | a single month is kept exactly when its consumption is above zero |
| Billing.PositiveTotals | app.py:278-281 | the kept months' consumption and number equal the month-by-month reference total and count of the positive months |
| Billing.Summarize | app.py:278-282 | no summary exactly when no month is positive; otherwise the total is the reference total of the positive months, the count is their reference number, and the mean times the count gives the total |
| Billing.SummaryOf | app.py:281 | the mean taken once per month gives the total |
| Billing.SummaryMeanWithinMonths | app.py:281 | the monthly mean lies between the smallest and the largest positive month |
| Billing.SummaryTotalPositive | app.py:279-281 | the total of a summarised bill is positive |
| Billing.ChartOrder | app.py:283 | a permutation of the months by decreasing consumption |
| Billing.ChartValuesSorted | app.py:283 | the chart's consumption values, bar by bar, are the bill's values in the non-increasing order `Sorting.SortDesc` gives |
| Billing.ChartStartsAtLargest | app.py:283 | the first bar is the month of highest consumption |

## Left out

- The Streamlit interface is not modelled: widgets, tabs, CSS, session state, caching, toasts and warnings. Form and slider values become parameters. The time slider is a range slider, so the window has start <= end.
- Reading files is not modelled. `read_csv`/`read_excel`, the seven skipped preamble rows, `to_datetime`, `to_numeric` and `isna` are foreign calls. Each cell arrives already carrying its text, number and stamp. An upload is the pair of tables the two readers see.
- A header that is not text makes `col.lower()` raise in the time-series reader. The model takes headers as strings, so it does not model that failure.
- The current year (`date.today().year`) is a parameter of the load-profile reader.
- PDF, PNG and chart rendering, the dataset export, the chatbot script and the heatmap pivot (app.py:388-390) are presentation only.
- Canonical.SortKeepFirst: models a stable sort. pandas' default `sort_index` is not stable for long inputs, so with repeated stamps the reading kept may differ from the first one in file order.
- LoadProfile.ProfileLayout: a repeated `Carga`, `Potencia (W)` or hour label is reported as AmbiguousColumn before any row is read. The program raises at the first row that reaches the repeated lookup, or shows the "no valid data" warning when no row does. In both cases it returns nothing, as the model does; only the warning is not modelled.
- Scenario.Adjust: composes the corrected `Scenario.Redistribute`, which measures daytime by the window's hours. The program measures it with `between_time` (app.py:364). The two agree when every stamp is on the hour and the window is a pair of whole hours (`Scenario.AsWrittenAgreesOnWholeHours`). Otherwise they differ, as in the Findings row. With the default 06:00-18:00 window and stamps at half past the hour, 18:30 is outside `between_time` but is rescaled as daytime.
- Canonical.ToKilowatts: values are exact reals. Float rounding in `/ 1000` and in every other sum and quotient is not modelled, so the equalities proved hold only approximately in the script.
- Missing power values (NaN) are carried through the time-series reader as `None`. The later stages take samples with a value, so pandas' NaN skipping in sums, means and maxima is not modelled.
- Columns.LowerChar: lower-cases ASCII capitals and the Kelvin sign only. Other characters are kept, and that changes no comparison against the ASCII aliases.
- Synthesis.LampScenario2024: states the hourly values. The annual total of 54.9 kWh is not proved.
- Metrics.Daily: the dashboard record of a series. Its properties are stated on `Metrics.ProfileMetrics` and `Metrics.DailyMeanWithinProfile`.

## Findings

| source | as written | input that shows it | evidently intended | confidence | as-written member | corrected member |
|---|---|---|---|---|---|---|
| app.py:363-371 | daytime energy is measured with `between_time(start, end)` on times of day, but the rows rescaled as daytime are those with hour in `start.hour..end.hour` | an hourly series of 1 kW at 05:00, 06:00 and 07:00, window 06:15-18:00 (a 15-minute slider step), 50% target: 06:00 is not measured as daytime but is scaled as daytime, so the total grows from 3 to 3.75 kWh and the daytime hours get 80% | measure daytime energy on the same rows that are rescaled as daytime, so the target share is reached and the total kept | not executed | Scenario.RedistributeAsWritten, Scenario.AsWrittenMissesShare | Scenario.Redistribute, Scenario.RedistributeHitsShare |
