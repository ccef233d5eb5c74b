# Feature extraction and hyperparameter search, modelled in Dafny

This project models two parts of a limit-order-book trading simulator.

The first is the offline feature-engineering pass. It loads two event
tables (the "full channel" order-book events and the "ticker" trade
events), appends derived columns, and saves both tables. The derived
columns are:

- trailing-window rolling mean, sample variance and sample standard
  deviation;
- the signed order size and the order-flow imbalance over the last ten
  events;
- the cancellation ratio;
- the bid/ask spread;
- a one-hot encoding of the hour of day into a predeclared set of hour
  columns.

The second is the driver of the hyperparameter search for the PPO
(Proximal Policy Optimization) policy. Each trial overwrites five entries
of the global configuration, runs, and returns its reward together with
its arguments. The driver enumerates two phases of trial combinations,
drops the trials that failed, and ranks the rest by descending reward.

Files:

- `frames.dfy`: the table. A `Frame` is a row count, the ordered column
  names and a map from column name to cells. A `Cell` is a number, a
  boolean or `Missing` (NaN). Column assignment (overwrite in place or
  append) and column drop are defined here. `Extends(f, r)` says that `r`
  keeps the rows of `f`, its columns and their order.
- `rolling.dfy`: pandas' trailing-window aggregates with `min_periods=1`.
  Undefined values are skipped. A mean or sum needs one defined value and
  a sample variance (ddof 1) needs two. Also here: `bfill()`, and lemmas on
  window shape, causality, bounds, non-negativity and back-filling.
- `decimal.dfy`: the decimal rendering of an integer used in the derived
  column names, and its injectivity.
- `features.dfy`: the five column transforms, the two pipelines, and the
  gate of the top level (no load, no save).
- `hypertuning.dfy`: the configuration object and the trial evaluator's
  prologue, the trial schedule, the sequential run with abort on a missing
  preset, the filter, the ranking, and the search as a whole.
- `wrappers.dfy`: `Option`.

How the code handles errors, and how the model follows it:

- Every transform wraps its pandas code in a `try` that logs and carries
  on. The table is then left as it was when the exception was raised.
- In `add_cancellation_ratio`, a missing `reason_canceled` raises after
  the helper column `type_received_adjusted` was added, so the helper
  stays in the table.
- In `encode_hour_of_day`, a missing `hour_of_day` column or an undefined
  hour ends the row loop. The zero fill and the rows already marked
  remain.
- In `evaluate_hyperparameters`, the preset lookup
  `FEATURE_WEIGHTS_CONFIGS[key]` sits before the `try`. A missing preset
  therefore reaches `tune_hyperparameters`, which ends without writing a
  table (`Evaluation.Raised`, `Tune` is `None`).

Where the code does not match the natural reading:

- The std and var columns are not causal. `bfill()` copies a later value
  into an earlier undefined row: with a window of at least 2, row 0 of the
  var column equals row 1 (`VarColumnFirstRows`).
- With a window of 1, every std and var cell stays undefined
  (`UnitWindowSpreadUndefined`).
- The model follows the code in both cases.
- The numeric literals in the phase-1 combination list of
  `tune_hyperparameters` are never used. Both phase-1 trials read the
  current configuration.

## Model

| member | source | states |
|---|---|---|
| Decimal.IntToStringInjective | webapp/backend/trading_env/extract_features.py:25 | distinct windows render as distinct decimal strings |
| Features.TargetNameInjective | webapp/backend/trading_env/extract_features.py:25 | two (window, op) pairs with recognised ops give the same name `{column}_{w}_{op}` only if the pairs are equal |
| Features.NotATarget | webapp/backend/trading_env/extract_features.py:25 | a name that does not start with `column` is not among the derived names of `column` |
| Features.PairsCoverConfig | webapp/backend/trading_env/extract_features.py:23-24 | the nested loops visit exactly the pairs (w, op) with w in ROLLING_WINDOWS and op in OPERATIONS |
| Rolling.RollingAggregate | webapp/backend/trading_env/extract_features.py:28-32 | `rolling(window=w, min_periods=1)` yields one aggregate per row |
| Rolling.BackFill | webapp/backend/trading_env/extract_features.py:30-32 | `bfill()` keeps the length of the series |
| Features.StatColumn | webapp/backend/trading_env/extract_features.py:27-32 | the column for one (window, op) pair has one cell per row |
| Features.AddStat | webapp/backend/trading_env/extract_features.py:25-34 | one loop iteration keeps the row count, every existing column and the column order |
| Features.AddStatsExtends | webapp/backend/trading_env/extract_features.py:23-35 | the whole loop over (window, op) pairs keeps the rows, the existing columns and their order |
| Features.CalculateRollingStats | webapp/backend/trading_env/extract_features.py:10-35 | `calculate_rolling_stats` keeps the row count and a well-formed table |
| Features.RollingStatsColumns | webapp/backend/trading_env/extract_features.py:23-35 | with `column` present, the new key set is the old one plus exactly one `{column}_{w}_{op}` per window w >= 1 and recognised op; each holds that op's statistic of `column`; other columns are unchanged; without `column` the table is unchanged |
| Rolling.WindowLength | webapp/backend/trading_env/extract_features.py:28 | the window ending at row i holds min(i + 1, w) rows |
| Rolling.RollingIsCausal | webapp/backend/trading_env/extract_features.py:28 | a rolling aggregate at row i depends only on rows 0 .. i |
| Rolling.MeanOfCompleteColumn | webapp/backend/trading_env/extract_features.py:28 | on a column with no undefined cell, the rolling mean is defined at every row and equals the sum of rows max(0, i-w+1) .. i divided by their count |
| Features.MeanColumnDefined | webapp/backend/trading_env/extract_features.py:28 | the stored mean column at row i is that window mean |
| Rolling.MeanWithinBounds | webapp/backend/trading_env/extract_features.py:28 | a defined rolling mean lies within any bounds that hold for the defined values of its window |
| Rolling.VarianceNonNegative | webapp/backend/trading_env/extract_features.py:31-32 | every defined rolling sample variance is at least 0 |
| Features.VarColumnNonNegative | webapp/backend/trading_env/extract_features.py:31-32 | every defined cell of the back-filled var column is at least 0 |
| Rolling.VarianceUndefinedForUnitWindow | webapp/backend/trading_env/extract_features.py:30-32 | with window 1, the rolling sample variance is undefined at every row |
| Features.UnitWindowSpreadUndefined | webapp/backend/trading_env/extract_features.py:29-32 | with window 1, every cell of the std and var columns is NaN after `bfill()` |
| Rolling.BackFillIsNextDefined | webapp/backend/trading_env/extract_features.py:30-32 | `bfill()` sets row i to the first defined value at row i or below |
| Rolling.BackFillKeepsDefined | webapp/backend/trading_env/extract_features.py:30-32 | `bfill()` leaves defined values unchanged |
| Rolling.BackFillOfUndefined | webapp/backend/trading_env/extract_features.py:30-32 | a series with no defined value stays undefined after `bfill()` |
| Rolling.BackFillUndefinedOnlyAtTail | webapp/backend/trading_env/extract_features.py:30-32 | after `bfill()`, a row with a defined value at or below it is defined |
| Rolling.BackFilledVariance | webapp/backend/trading_env/extract_features.py:31-32 | with w >= 2 and two defined leading values, row 0 of the variance is undefined, row 1 is the sample variance of the first two values, and `bfill()` makes row 0 equal row 1 |
| Rolling.BackFilledVarianceOfCompleteColumn | webapp/backend/trading_env/extract_features.py:32 | on a column with no undefined value and w >= 2, the back-filled rolling variance at every row i >= 1 is the sample variance of rows max(0, i-w+1) .. i, a window of two or more values |
| Features.VarColumnValue | webapp/backend/trading_env/extract_features.py:31-32 | the stored var column at every row i >= 1 of such a column is that sample variance (ddof 1) |
| Features.VarColumnFirstRows | webapp/backend/trading_env/extract_features.py:31-32 | the stored var column has row 0 equal to row 1, which is the sample variance of the first two values |
| Features.StdIsRootOfVar | webapp/backend/trading_env/extract_features.py:29-32 | row by row, the std column is the square root of the var column, and the two are undefined at the same rows |
| Features.CalculateOrderFlowImbalance | webapp/backend/trading_env/extract_features.py:38-53 | `calculate_order_flow_imbalance` keeps the rows, the existing columns and their order |
| Features.SignedSize | webapp/backend/trading_env/extract_features.py:49 | the signed size is `size` on a buy and `-size` on a sell, with the same magnitude as `size` |
| Rolling.TotalWithinAbsTotal | webapp/backend/trading_env/extract_features.py:50 | the absolute value of a window sum is at most the sum of the absolute values |
| Features.ImbalanceBound | webapp/backend/trading_env/extract_features.py:49-50 | on any `size` and `side_buy` columns, a defined imbalance at row i has absolute value at most the total absolute size over rows max(0, i-9) .. i |
| Features.OrderFlowImbalanceColumns | webapp/backend/trading_env/extract_features.py:48-53 | the step writes exactly `signed_size` and `order_flow_imbalance` when `size` and `side_buy` exist, and changes nothing otherwise |
| Features.OrderFlowImbalanceSpec | webapp/backend/trading_env/extract_features.py:48-53 | `signed_size` is ±size by side; `order_flow_imbalance[i]` is the sum of signed sizes over rows max(0, i-9) .. i, with absolute value at most the sum of absolute sizes there; other columns are unchanged; without an input column the table is unchanged |
| Features.AddCancellationRatio | webapp/backend/trading_env/extract_features.py:56-72 | `add_cancellation_ratio` keeps the row count and a well-formed table, and without `type_received` changes nothing |
| Features.ReplaceZero | webapp/backend/trading_env/extract_features.py:67 | a cell equal to 0 (a numeric zero, or `False` compared with `==` in an object column) becomes 1, every other cell is kept, and no result is 0 |
| Features.AdjustedColumn | webapp/backend/trading_env/extract_features.py:67 | `replace(0, 1)` leaves a bool column as it is and replaces each zero cell of any other column by 1; the adjusted count is 0 exactly at a `False` of a bool column |
| Features.Quotient | webapp/backend/trading_env/extract_features.py:68 | the quotient is finite exactly when both cells are defined and the denominator is not zero, and then times the denominator gives the numerator |
| Features.CancellationRatioSpec | webapp/backend/trading_env/extract_features.py:66-69 | with both inputs, `cancel_to_received_ratio[i]` is `reason_canceled[i]` divided by a numeric `type_received[i]` (by 1 when that is 0) or by 1 for a boolean count, except that a `False` in a bool column gives no finite ratio; the helper column is gone |
| Features.RatioColumnOfTable | webapp/backend/trading_env/extract_features.py:66-69 | with both inputs, the table's ratio column is the quotient column of `reason_canceled` and the adjusted `type_received`, and the helper is gone |
| Features.RatioCell | webapp/backend/trading_env/extract_features.py:67-68 | each row of that quotient column, by the kind of count cell and the count column's dtype |
| Features.FalseCountRatioUndefined | webapp/backend/trading_env/extract_features.py:67-68 | the count column `[False]` (bool dtype) with cancellations `[True]` gives the ratio column `[NaN]`, not a finite ratio |
| Features.ObjectFalseCountDivides | webapp/backend/trading_env/extract_features.py:67-68 | the count column `[False, NaN]` (object dtype) with cancellations `[True, True]` gives the ratio column `[1.0, NaN]`: there `False` is replaced by 1 |
| Features.IntendedColumn | webapp/backend/trading_env/extract_features.py:67 | the intended replacement turns every zero count into 1 whatever the dtype, so no adjusted count is 0 |
| Features.IntendedRatioDefined | webapp/backend/trading_env/extract_features.py:67-68 | with the intended replacement every row with defined inputs has a finite ratio, equal to the code's everywhere but at a `False` of a bool column |
| Features.CancellationRatioPreserves | webapp/backend/trading_env/extract_features.py:66-69 | every column other than the ratio and the helper (including `type_received`) is unchanged; if the helper name was free, the table is only extended |
| Features.CancellationRatioPartialFailure | webapp/backend/trading_env/extract_features.py:66-71 | without `reason_canceled`, the helper column is left behind, equal to `type_received` except that zero cells of a non-bool column became 1 (it is 0 exactly at a `False` of a bool column), and no ratio is added; without `type_received` the table is unchanged |
| Features.CancellationRatioKeys | webapp/backend/trading_env/extract_features.py:66-72 | every input column but the helper survives, and the ratio exists whenever both inputs do |
| Frames.Drop | webapp/backend/trading_env/extract_features.py:69 | dropping a column removes exactly that key and keeps the rows and the table's validity |
| Features.MarketSpread | webapp/backend/trading_env/extract_features.py:85-89 | the spread step keeps the rows, the existing columns and their order, and changes nothing when a quote column is missing or both are bool columns |
| Features.MarketSpreadSpec | webapp/backend/trading_env/extract_features.py:85-89 | with both quotes, not both bool columns, `spread[i] + best_bid[i] == best_ask[i]` on rows where both are defined and NaN otherwise, other columns unchanged; otherwise the subtraction raises and the table is unchanged |
| Frames.Assign | webapp/backend/trading_env/extract_features.py:104 | `data[name] = col` sets exactly that key, keeps the column order when the name exists and appends it otherwise |
| Features.ZeroFill | webapp/backend/trading_env/extract_features.py:103-104 | the zero-fill loop keeps the row count and a well-formed table |
| Features.ZeroFillExtends | webapp/backend/trading_env/extract_features.py:103-104 | the zero fill only overwrites or appends columns |
| Features.ZeroColsSpec | webapp/backend/trading_env/extract_features.py:103-104 | setting each predeclared hour to all zeros, one after another, yields exactly the old keys plus the hours, every hour all zeros and every other column unchanged |
| Features.ZeroFillColumns | webapp/backend/trading_env/extract_features.py:103-104 | after the zero fill, the keys are the old ones plus every predeclared hour, every hour column is all zeros, and other columns are unchanged |
| Features.FillHourColumns | webapp/backend/trading_env/extract_features.py:103-104 | the first loop yields the zero-filled table |
| Features.HourOf | webapp/backend/trading_env/extract_features.py:107 | `int(row['hour_of_day'])` fails exactly on an undefined cell |
| Features.MarkedRows | webapp/backend/trading_env/extract_features.py:106-111 | the row loop keeps the row count, the column names and their order, and the key set |
| Features.Encoded | webapp/backend/trading_env/extract_features.py:92-112 | `encode_hour_of_day` keeps the row count |
| Features.MarkRow | webapp/backend/trading_env/extract_features.py:106-109 | one pass of the row loop turns the columns marked up to row i into those marked up to row i + 1 |
| Features.MarkHours | webapp/backend/trading_env/extract_features.py:106-111 | the row loop writes 1 into `hour_h` at each row, up to the first row where reading the hour raises, whenever the table has that column |
| Features.EncodeHourOfDay | webapp/backend/trading_env/extract_features.py:92-112 | the whole encoder equals the zero fill followed by the row marking |
| Features.HourEncodingShape | webapp/backend/trading_env/extract_features.py:102-112 | after encoding, every predeclared hour column exists and no other column is added; rows and column order are kept; columns that are not hour columns keep their values |
| Features.HourEncodingColumns | webapp/backend/trading_env/extract_features.py:106-109 | at a row whose hour h was read, the predeclared column named `hour_h` holds 1 and every other predeclared column 0; at rows the loop did not reach, all hold 0 |
| Features.HourEncodingOneHot | webapp/backend/trading_env/extract_features.py:106-109 | at most one predeclared hour column is 1 per row, and a row whose hour names no predeclared column has all of them at 0 |
| Features.HourEncodingCompletes | webapp/backend/trading_env/extract_features.py:106-107 | when `hour_of_day` exists, is not predeclared and is defined everywhere, every row is encoded with `int(hour_of_day[j])` |
| Features.FullChannelFeatures | webapp/backend/trading_env/extract_features.py:115-131 | `extract_full_channel_features` keeps the row count and a well-formed table |
| Features.ExtractFullChannelFeatures | webapp/backend/trading_env/extract_features.py:115-131 | the full-channel pipeline is rolling stats of price, then of size, then imbalance, cancellation ratio and hour encoding |
| Features.FlowAndRatioColumns | webapp/backend/trading_env/extract_features.py:128-129 | imbalance followed by the cancellation ratio keeps every column but the helper, and adds the imbalance and the ratio when their inputs exist |
| Features.FullChannelSchema | webapp/backend/trading_env/extract_features.py:115-131 | the full-channel table keeps its rows and gains the rolling columns of price and size, the imbalance, the ratio and every hour column when their inputs exist; if the helper name is free, the input's columns and their order are kept |
| Features.TickerFeatures | webapp/backend/trading_env/extract_features.py:134-148 | `extract_ticker_features` keeps the row count |
| Features.ExtractTickerFeatures | webapp/backend/trading_env/extract_features.py:134-148 | the ticker pipeline is spread, then rolling stats of last_size, then hour encoding |
| Features.TickerSchema | webapp/backend/trading_env/extract_features.py:134-148 | the ticker table keeps its rows and column order and gains the spread (both quotes, not both bool columns), the last_size rolling columns and every hour column when their inputs exist |
| Features.ExtractFeatures | webapp/backend/trading_env/extract_features.py:151-180 | nothing is saved exactly when loading failed; otherwise the saved tables are the outputs of both pipelines |
| Hypertuning.Configured | ppo/hypertuning.py:17-21 | the prologue leaves the preset table and the paths unchanged |
| Hypertuning.Evaluate | ppo/hypertuning.py:14-47 | a trial raises exactly when its preset key is missing |
| Hypertuning.ConfiguredWritesFive | ppo/hypertuning.py:17-21 | the prologue sets learning rate, batch size, epochs, spoofing threshold and feature weights (to the named preset) and leaves every other configuration field unchanged |
| Hypertuning.EvaluateResult | ppo/hypertuning.py:21-47 | the trial raises exactly when the preset key is missing; a successful trial returns the reward computed under the new configuration followed by its five arguments in order; a failed one returns None |
| Hypertuning.Config.EvaluateHyperparameters | ppo/hypertuning.py:14-47 | the method changes only the five fields, to the configured settings, and returns the evaluation of the trial under them |
| Hypertuning.Phase2 | ppo/hypertuning.py:68-77 | phase 2 lists ten combinations |
| Hypertuning.Schedule | ppo/hypertuning.py:53-82 | the search schedules twelve trials |
| Hypertuning.ScheduleShape | ppo/hypertuning.py:53-82 | twelve trials: two phase-1 trials on the current settings with keys `default` and `no_rolling_stats`, then the ten listed tuples in order, all with key `default` |
| Hypertuning.PhaseOneReadsInitialSettings | ppo/hypertuning.py:58-64 | the first trial writes back the values it read, so the second phase-1 trial sees the initial scalar settings |
| Hypertuning.RunTrials | ppo/hypertuning.py:58-82 | without an abort there is one result per scheduled trial, and no trial changes the preset table |
| Hypertuning.RunTrialsAbortSticks | ppo/hypertuning.py:58-82 | once a trial raises, no later trial runs and the state no longer changes |
| Hypertuning.RunTrialsAborts | ppo/hypertuning.py:58-82 | the search aborts exactly when some scheduled trial names a preset the configuration lacks |
| Hypertuning.RunTrialsRows | ppo/hypertuning.py:58-82 | without an abort, the i-th returned row echoes the i-th scheduled combination |
| Hypertuning.DropFailed | ppo/hypertuning.py:85 | filtering never lengthens the list |
| Hypertuning.DropFailedMembers | ppo/hypertuning.py:85 | a row is in the filtered list exactly when some trial returned it |
| Hypertuning.DropFailedLength | ppo/hypertuning.py:85 | the filtered length equals the number of trials that returned a row |
| Hypertuning.DropFailedConcat | ppo/hypertuning.py:85 | filtering the two phases' results gives the phase-1 rows followed by the phase-2 rows |
| Hypertuning.SortByReward | ppo/hypertuning.py:88-89 | sorting keeps the number of rows |
| Hypertuning.SortByRewardSpec | ppo/hypertuning.py:88-89 | the ranked table is a permutation of the filtered rows and is ordered by non-increasing reward |
| Hypertuning.Config.TuneHyperparameters | ppo/hypertuning.py:49-89 | running the schedule trial by trial on the configuration object produces `Tune` of the initial settings and leaves the configuration as the sequential run does |
| Hypertuning.Tune | ppo/hypertuning.py:49-89 | a produced table has at most twelve rows |
| Hypertuning.TuneSpec | ppo/hypertuning.py:49-89 | a table is produced exactly when both phase-1 presets exist; it is a permutation of the filtered rows, non-increasing in reward, at most twelve rows, containing exactly the returned rows, each echoing a scheduled combination |
| Hypertuning.TuneAllSucceed | ppo/hypertuning.py:49-89 | with both presets present and no failed trial, the table has exactly twelve rows in non-increasing reward order |

## Left out

- Loading and saving (`load_csv_data`, `save_data`, the CSV and HTML writes of the results table) are file I/O. `ExtractFeatures` takes the loaded tables (or their absence) as a parameter and returns what would be saved. A save failure is only logged, so it is not modelled.
- Logging is not modelled.
- The trial body (environment, policy network, optimizer, training, checkpoint load, evaluation, plots) is foreign machine-learning code. It is the parameter `run`, which maps the configuration it reads to a reward or to None when it raised.
- `joblib.Parallel` dispatch is modelled as a sequential run in submission order. Worker processes, their private copies of the configuration and the race on the shared checkpoint file are not modelled.
- The configuration lists `ROLLING_WINDOWS`, `OPERATIONS`, `HOURS` and `FEATURE_WEIGHTS_CONFIGS` live in configuration modules that are not part of this model. They enter as parameters (`FeatureConfig`, `Settings`).
- Floating point is modelled as exact reals. Rounding is left out. NaN input cells are `Missing`. A division by zero, which gives an infinity or NaN, is recorded as `Missing`, so the model does not tell infinity from NaN.
- StatColumn: the square root inside `std()` is the parameter `sqrt`, so the model relates std to var through `sqrt` and states nothing about its numerics.
- SideSign: a `side_buy` cell that is not a boolean is treated as undefined. pandas would leave a number in a numeric column in place and multiply by it; only in an object column would `replace` also map 1 and 0.
- Cells are numbers, booleans or NaN. A column's dtype is read off its cells: a nonempty column of booleans only is a bool column (`BoolDtype`), and any other column is numeric or object. This decides `replace(0, 1)` and the subtraction of two quote columns. String-typed columns, other dtype conversions and the errors they raise are not modelled.
- `data.at[index, ...]` is modelled with row positions, as for a default index. Tables with duplicate index labels are not modelled.
- The tables are values: each step returns the new table, and aliasing of the caller's DataFrame by the in-place updates is not modelled.
- The `is None` checks on the two pipelines' results cannot fire, because the pipelines always return a table. `ExtractFeatures` therefore saves whenever loading succeeds.
- SortByReward: the order among rows with equal reward is that of a stable sort. pandas' default sort does not promise any particular order for ties.
- The configuration files, the frontend type declaration `webapp/frontend/src/types/order.ts` (no logic) and the training modules are not part of this model.

## Findings

| source | as written | input that shows it | evidently intended | confidence | as-written member | corrected member |
|---|---|---|---|---|---|---|
| webapp/backend/trading_env/extract_features.py:67-68 | `replace(0, 1)` only replaces values the column's dtype can hold, so a bool `type_received` keeps `False`, and the division by it gives infinity or NaN | `type_received = [False]` (bool column), `reason_canceled = [True]` | every zero count, `False` included, is replaced by 1 whatever the dtype, so the ratio is finite wherever both inputs are defined | medium; rests on pandas' `replace` semantics for bool columns, not executed | Features.FalseCountRatioUndefined | Features.IntendedRatioDefined |

The pipeline functions model the code as written (`AdjustedColumn`).
`IntendedColumn` states the intended replacement, and
`IntendedRatioDefined` shows that it agrees with the code except at a
`False` of a bool column. In an object column (booleans mixed with NaN
or numbers) the code already replaces `False`, as
`ObjectFalseCountDivides` shows.
