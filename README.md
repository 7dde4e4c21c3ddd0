# Wearable sensor simulator — windowed statistics, modelled in Dafny

The simulator receives one sensor sample per second for a single user. Each
sample holds a heart rate, a respiration rate and an activity level. It
keeps three tables:

- the per-second sample table (`df`);
- a 15-minute table (`res_df`). It gains one row each time the sample count
  reaches a multiple of 900. That row summarises the last 900 samples: the
  user id and first timestamp of the window, its last timestamp, and the
  avg, max and min of each metric;
- an hourly table. It is built after the run from the 15-minute table
  alone, four rows at a time. The user id and start come from the first
  child row and the end from the fourth. The max is the largest child max,
  the min is the smallest child min, and the avg is the unweighted mean of
  the four child averages.

The model is split into these modules:

- `Stats` (stats.dfy): sums, extrema and exact means of columns.
- `Records` (records.dfy): the sample row and the summary row. One `Stat`
  holds the `avg_x`/`max_x`/`min_x` columns of one metric. `hr` maps to
  `*_hr`, `rr` to `*_rr`, and `activity` to `*_activity`.
- `Windowing` (windowing.dfy): the 15-minute level.
- `Rollup` (rollup.dfy): the hourly level.
- `HourExactness` (rollup.dfy): here every 15-minute row summarises exactly
  900 samples. So the hourly rollup equals the summary taken directly over
  the hour's 3600 samples.
- `Simulation` (simulator.dfy): the `Simulator` class, which has the two
  tables as `seq` fields, and the two-hour driver.

The class keeps one invariant, `Valid()`: the 15-minute table is always
`Segments(df)`, the summary of every complete 900-sample window of the
sample table, in order.

**Behaviour on a 15-minute table whose length is not a multiple of four.**
The 15-minute level never summarises an unfinished window, so one might
expect the hourly level to drop a trailing partial hour in the same way.
The code does not drop it. Its loop starts a block at every
multiple of four below the length, and in a short last block it reads row 3
of a slice with fewer than four rows. That read raises a `KeyError`
(simulate.py:84-89). The model follows the code: `ProcessForHourly` returns
`Failure(IncompleteHour(start, rows))` exactly when the length is not a
multiple of four. The two-hour driver always produces eight rows, so it
never reaches this case.

## Model

| member | source | states |
|---|---|---|
| Simulation.Simulator.constructor | simulate.py:8-18 | both tables start empty, and the 15-minute table is the summary of the (empty) sample table |
| Simulation.Simulator.GetSensorData | simulate.py:25-38 | the sample for second `time` is always user 1, carries timestamp `time`, and holds the poll's heart rate, respiration rate and activity |
| Simulation.SensorRun | simulate.py:122-123 | the driver's sample stream: n samples, sample i of user 1 with timestamp `initialTime + i` |
| Simulation.Simulator.ProcessData | simulate.py:40-63 | the sample is appended. When the new count is a multiple of 900, exactly one row is appended, summarising the last 900 samples; otherwise the 15-minute table is unchanged. Earlier rows of both tables never change, and the invariant `resDf == Segments(df)` is kept |
| Simulation.Simulator.ProcessForHourly | simulate.py:66-102 | succeeds iff the table length is a multiple of four, with result `HourlyRollup` of the table. On failure it reports the short last block: it starts at `len - len % 4` and holds `len % 4` rows |
| Simulation.Simulator.RunSimulation | simulate.py:116-127 | appends 7200 samples; second i carries timestamp `initialTime + i`, user 1 and the sensor's i-th readings. The hourly result is the rollup of the 15-minute table, and on a fresh simulator it succeeds over 8 rows |
| Simulation.RunSegments | simulate.py:120-124 | a fresh two-hour run gives 8 fifteen-minute rows; row k is user 1, spans `initialTime + 900k` to `initialTime + 900k + 899`, and keeps min <= avg <= max |
| Simulation.RunHourMatchesSamples | simulate.py:122-127 | a fresh two-hour run gives 2 hourly rows, and row j equals the summary taken directly over seconds 3600j to 3600j+3599 |
| Simulation.RunHours | simulate.py:122-127 | hourly row j of a fresh run is user 1, spans `initialTime + 3600j` to `initialTime + 3600j + 3599`, and keeps min <= avg <= max |
| Simulation.WindowInSensorRange | simulate.py:35-37 | if every sample of a window lies in the sensor's ranges, every min and max of its summary does too |
| Simulation.RunInSensorRange | simulate.py:32-38 | with the sensor's draw ranges (heart rate 30-179, respiration 8-39, activity 0-99), every min and max of every 15-minute and hourly row lies in those ranges |
| Windowing.SummarizeWindow | simulate.py:47-61 | user_id and seg_start come from the window's first sample and seg_end from its last; every metric keeps min <= avg <= max |
| Windowing.SummarizeWindowStats | simulate.py:52-60 | per metric: max and min are readings of the window that bound every reading, and avg is the exact sum divided by the window length |
| Windowing.ColumnStatOfWindow | simulate.py:52-60 | the avg/max/min of a metric's column satisfy that meaning and are ordered |
| Windowing.ColumnStat | simulate.py:52-60 | the avg, max and min of one metric's column keep min <= avg <= max |
| Windowing.Windows | simulate.py:46-47 | a table of n rows has n / 900 complete `tail(900)` windows, each of exactly 900 rows; an unfinished last window is not one |
| Windowing.Segments | simulate.py:45-63 | the contents of `res_df` after n samples: n / 900 rows, one per complete window |
| Windowing.WindowAt | simulate.py:46-47 | complete window k is exactly samples 900k to 900k+899 |
| Windowing.WindowsSnoc | simulate.py:45-47 | one more sample completes a window exactly when the count becomes a multiple of 900; that window is the last 900 samples, and earlier windows are unchanged |
| Windowing.SegmentAt | simulate.py:46-61 | a table of n samples has n / 900 segments, and segment k summarises samples 900k to 900k+899 |
| Windowing.SegmentsSnoc | simulate.py:45-63 | appending one sample appends the summary of the last 900 samples when the count becomes a multiple of 900, and nothing otherwise; earlier segments are unchanged |
| Windowing.SegmentsWellFormed | simulate.py:48-51 | segment k keeps min <= avg <= max; its user_id and seg_start come from sample 900k, and its seg_end from sample 900k+899 |
| Windowing.SummariesSnoc | simulate.py:63 | one more window appends exactly its summary to the list of summaries |
| Rollup.RollupStat | simulate.py:90-98 | the rolled-up max is one of the child maxes and the rolled-up min one of the child mins |
| Rollup.Blocks | simulate.py:84-85 | a table of m rows has m / 4 complete `iloc[i:i+4]` blocks, each of exactly four rows |
| Rollup.RollupBlock | simulate.py:86-89 | user_id and seg_start of the hourly row come from child 0, seg_end from child 3 |
| Rollup.RollupBlockStats | simulate.py:90-98 | per metric: max is a child max no child max exceeds, min is a child min no child min undercuts, and avg is the unweighted mean of the four child averages |
| Rollup.RollupStatOfBlock | simulate.py:90-98 | the rolled-up Stat of any non-empty block has that meaning |
| Rollup.RollupKeepsOrdered | simulate.py:90-98 | if every child keeps min <= avg <= max, so does the hourly row |
| Rollup.HourlyRollup | simulate.py:83-101 | a table of m rows (m a multiple of four) rolls up to m / 4 hourly rows, so an empty table gives an empty one |
| Rollup.BlockAt | simulate.py:85 | block j is exactly rows 4j to 4j+3 |
| Rollup.HourAt | simulate.py:84-100 | hourly row j is built from 15-minute rows 4j to 4j+3 |
| Rollup.BlocksExtend | simulate.py:85 | four more rows add exactly one block, made of those four rows |
| Rollup.RollupAllSnoc | simulate.py:100 | one more block appends exactly its hourly row |
| Rollup.HourlyRollupExtend | simulate.py:84-101 | each loop step appends exactly one row, the rollup of the next four segments, and leaves earlier rows unchanged |
| Rollup.HourlyKeepsOrdered | simulate.py:83-101 | min <= avg <= max in every 15-minute row carries to every hourly row |
| HourExactness.HourMatchesRawSamples | simulate.py:86-98 | for an hour of 3600 samples, the hourly row rolled up from its four segments equals the summary taken directly over the 3600 samples |
| HourExactness.HourStatMatches | simulate.py:90-98 | per metric, the largest of four maxima, the smallest of four minima and the mean of four equal-size means give the max, min and mean of the whole hour |
| HourExactness.HourHeaderMatches | simulate.py:87-89 | the first segment's user and start and the fourth segment's end are the hour's first and last sample |
| HourExactness.SegmentsOfHour | simulate.py:46-51 | segments 4j to 4j+3 of a long run are the segments of that run's hour j |
| Stats.MaxIsLargest | simulate.py:53 | `Max` returns an element of the column that no element exceeds |
| Stats.MinIsSmallest | simulate.py:54 | `Min` returns an element of the column that no element undercuts |
| Stats.MeanBetweenExtrema | simulate.py:52-54 | the mean of a column lies between its min and its max |
| Stats.MeanRBetween | simulate.py:90 | a mean of averages that all lie in [lo, hi] lies in [lo, hi] |
| Stats.SumAppend | simulate.py:52 | the sum of two joined columns is the sum of their sums |
| Stats.SumBounds | simulate.py:52 | readings in [lo, hi] give a sum in [n·lo, n·hi] |
| Stats.SumRBounds | simulate.py:90 | averages in [lo, hi] give a sum in [n·lo, n·hi] |
| Stats.MaxConcat | simulate.py:91 | the max of two joined columns is the larger of their maxima |
| Stats.MinConcat | simulate.py:92 | the min of two joined columns is the smaller of their minima |
| Stats.MaxOfFour | simulate.py:91 | the largest of four maxima is the max of the four columns joined |
| Stats.MinOfFour | simulate.py:92 | the smallest of four minima is the min of the four columns joined |
| Stats.MeanOfFourEqualMeans | simulate.py:90 | for four columns of one length, the unweighted mean of their means is the mean of the joined column |

## Left out

- Random sensor draws (simulate.py:35-37): the readings are a parameter
  `sensor: nat -> SensorPoll`. The draw ranges are stated as
  `InSensorRange` and used only as a hypothesis.
- The wall clock (simulate.py:120): the start time is the `initialTime`
  parameter.
- Writing the JSON and CSV files (simulate.py:136-141) and the script entry
  point (simulate.py:144-145): these are I/O.
- Column dtypes and rounding. The `astype` calls at simulate.py:11 and
  78-82 only set the dtypes of the empty frames the constructor and
  `process_for_hourly` start from. The casts at simulate.py:130 and 133,
  with the mapping defined at simulate.py:19-23, and
  `round_decimal_points` (simulate.py:104-114, 131, 134) run after the
  rollup; they turn the integral columns into int and round the float
  columns to two decimals. The model's tables are the values before those
  steps, which is also what `process_for_hourly` reads.
- float64 in `res_df`: each 15-minute row is appended from one dict that
  mixes integer and float values, so pandas holds its integral columns
  (`user_id`, `seg_start`, `seg_end`, `max_x`, `min_x`) as float64 until
  simulate.py:130. The model keeps them as exact integers, which agree with
  the float64 values only below 2^53. Averages are exact rationals (`real`),
  so float64 rounding in the means is not modelled either.
- pandas mechanics: DataFrame construction and index resets. Tables are
  sequences of records, and an out-of-range row read is the explicit
  `IncompleteHour` failure.
- Simulation.Simulator.RunSimulation: its contract states the new sample
  table (`old(df) + SensorRun(initialTime, sensor, 7200)`), keeps `Valid()`,
  ties the result to `HourlyRollup(resDf)` and, for a fresh simulator,
  promises success over 8 rows. The per-row facts about a fresh run
  (timestamps, user, exactness of the hourly rows) are not repeated in it;
  they are proved as the lemmas `RunSegments`, `RunHours` and
  `RunHourMatchesSamples` about the same specification functions.
