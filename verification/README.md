# Fiber, vibration and auxiliary sensor data: loaders and alignment

This project models the data-preparation functions of `Example/functions.py`
and proves what they promise.

- **Loaders** read groups of a hierarchical array store and turn them into tables:
  - `load_fiber_data` reads `fibers_<n>`: a timestamp dataset `0` and one dataset per requested sensor.
  - `load_vibration_data` reads `vibration_<n>`: datasets `Timestamp` and `Data`.
  - `load_other` reads an arbitrary group whose optional `__time_UTC__s__` dataset holds timestamps.

  The store is an immutable value. It holds group names in stored order, and each
  group holds its dataset keys in stored order. A table is an ordered list of named
  columns. Column dictionaries follow Python `dict` insertion order: re-storing a
  name keeps its position. Each loader is a function returning
  `Result<Table, LoadError>`. `load_fiber_data` is also a method with the source's
  loop, proved equal to that function.
- **Fiber fusion** (`process_fibers`) renames the sensor columns of two fiber
  frames. It then joins every fiber-1 row to the nearest fiber-2 row within 1 ms,
  drops `f_sensor_2_5`, and drops every row that still holds a missing value.
  Instants are integer nanoseconds and cells are `Option<V>`. The join is modelled
  as pandas' nearest as-of join: the backward and the forward candidate, each kept
  only within the tolerance, the backward one winning a tie. A two-pointer sweep
  method computes the same matches.
- **Vibration reconstruction** (`process_vibration`) puts three channels side by
  side. It then rebuilds the first channel's timestamps from its sparse anchors:
  every row gets its block's anchor instant plus its position in the block divided
  by the sample rate. The rule is stated as the source's grouping does it: a
  running count of anchors, the first timestamp per group, a per-group counter.
  It is proved equal to a last-anchor characterisation, and a single-scan method
  is proved against it. Instants are exact `real` seconds.

Files: `common.dfy` (Option, Result, Distinct, Sorted), `strings.dfy` (Python
`str()` of integers), `array_store.dfy` (the three loaders), `fiber_aligner.dfy`
(`process_fibers`), `vibration_reconstructor.dfy` (`process_vibration`).

## Model

| member | source | states |
|---|---|---|
| ArrayStore.LoadFiberData | Example/functions.py:17-65 | The loop over the requested sensors returns exactly the result of the loader specification `FiberTable`, error or table |
| ArrayStore.FiberTableSucceeds | Example/functions.py:27-60 | Loading a fiber group succeeds if and only if the group, its dataset `0` and every requested sensor dataset exist and each sensor has as many values as there are timestamps |
| ArrayStore.FiberTableErrors | Example/functions.py:27-57 | A missing `fibers_<n>` is reported, with the store's group names, exactly when the group is absent. A missing `0` is reported exactly when the group exists without it. Otherwise the first requested sensor that is missing or of the wrong length decides the error |
| ArrayStore.FiberTableShape | Example/functions.py:42-63 | On success the table is `timestamp` followed by one `sensor_<n>` column per requested sensor, in request order, each holding that sensor's dataset. A repeated sensor appears once, at its first position. Every column is as long as the timestamps and no name repeats |
| ArrayStore.OneSensorIsList | Example/functions.py:17-18 | A bare sensor number loads the same table, or raises the same error, as the one-element list |
| ArrayStore.SensorColumnNameInjective | Example/functions.py:46-60 | Distinct sensor numbers give distinct `sensor_<n>` column names |
| Strings.IntToStringInjective | Example/functions.py:24-60 | Python's decimal rendering of integers is injective, so group, dataset and column names built from numbers do not collide |
| ArrayStore.VibrationTable | Example/functions.py:83-111 | Reports a missing `vibration_<n>` exactly when the group is absent. Reports a missing dataset exactly when `Timestamp` or `Data` is absent. Reports a length mismatch, with both lengths, exactly when both exist with unequal lengths. Succeeds exactly when both exist with equal lengths, and then returns `[timestamp, data]` holding the two arrays unchanged |
| ArrayStore.OtherTableErrors | Example/functions.py:128-164 | A missing group is reported, with the store's group names, exactly when it is absent. An empty group is reported exactly when it has no datasets. "No data columns" is reported exactly when the timestamp dataset is its only one. Ragged columns are reported exactly when the group has other datasets and the merged columns differ in length. A successful table is rectangular and non-empty |
| ArrayStore.OtherTableWithTimestamp | Example/functions.py:141-162 | With `__time_UTC__s__` present, the table is a `timestamp` column holding it, then every other dataset in stored key order. The timestamp key itself is no column |
| ArrayStore.OtherTableWithoutTimestamp | Example/functions.py:146-164 | Without `__time_UTC__s__`, the table is every dataset in stored key order, and it has a `timestamp` column only if a dataset is named so |
| ArrayStore.OtherTableTimestampOverwritten | Example/functions.py:155-162 | A dataset literally named `timestamp` takes the first column's place and replaces the timestamps, because the dictionary merge keeps the key's position |
| ArrayStore.PutPresent | Example/functions.py:60 | Storing a column under a name the table already holds replaces that column in place |
| ArrayStore.PutFresh | Example/functions.py:60 | Storing a column under a new name appends it |
| ArrayStore.PutAllFresh | Example/functions.py:159-162 | Merging columns with names new to the table appends them in order |
| ArrayStore.LoadedTablesAreRectangular | Example/functions.py:63-164 | Every table a loader returns has columns of equal length and no repeated column name, which is the shape a data frame needs |
| FiberAligner.MatchIsNearestWithinTolerance | Example/functions.py:194-201 | On sorted fiber-2 instants, the join picks a fiber-2 row whose instant is nearest to the fiber-1 instant and at most 1 ms (1,000,000 ns) away. It picks none exactly when every fiber-2 row is farther than 1 ms |
| FiberAligner.NearestMatches | Example/functions.py:194-201 | The two-pointer sweep over sorted instants yields, for every fiber-1 row, the join's match |
| FiberAligner.ProcessFibers | Example/functions.py:171-205 | Fails with a missing-column error exactly when the joined frame has no `f_sensor_2_5`. On success the frame has no `f_sensor_2_5`, one cell per column in every row, no null cell, and at most as many rows as fiber 1 |
| FiberAligner.SensorColumnsRenamed | Example/functions.py:171-203 | When both frames' value columns are sensor columns, the fusion fails exactly when fiber 2 has no `sensor_5`. On success the columns are fiber 1's renamed `f_sensor_1_<k>` followed by fiber 2's renamed `f_sensor_2_<k>`, without `f_sensor_2_5` |
| FiberAligner.RenamedSidesDisjoint | Example/functions.py:172-201 | Renamed sensor columns of the two fibers never share a name, so the join adds no `_x`/`_y` suffix. Only fiber 2's `sensor_5` becomes `f_sensor_2_5` |
| FiberAligner.FiveSensorColumns | Example/functions.py:171-203 | Two five-sensor frames fuse to the columns `f_sensor_1_1` to `f_sensor_1_5` followed by `f_sensor_2_1` to `f_sensor_2_4` |
| FiberAligner.FusedRowsFollowFiber1 | Example/functions.py:194-203 | The fused rows are fiber-1 rows at strictly increasing positions, each keeping its instant, so the fused instants stay sorted |
| FiberAligner.FusedRowsUseNearest | Example/functions.py:194-203 | When the joined frame has `f_sensor_2_5` and another fiber-2 column survives, the fusion succeeds and every fused row's instant has a fiber-2 match that is nearest to it and at most 1 ms away |
| FiberAligner.FusedRowCells | Example/functions.py:194-203 | Under the same conditions there is one fused row per surviving fiber-1 row, and each is that row's instant with the fiber-1 cells followed by the matched fiber-2 row's cells, minus `f_sensor_2_5` |
| FiberAligner.UnmatchedRowsDropped | Example/functions.py:194-203 | A fiber-1 row with no fiber-2 row within 1 ms is absent from the result |
| FiberAligner.BoundaryMatches | Example/functions.py:194-201 | Left instants 0, 5, 10 ms against right instants 1, 4, 9 ms: all three rows match, since a 1 ms difference is within the tolerance |
| VibrationReconstructor.ProcessVibration | Example/functions.py:211-251 | Returns one row per row of channel 101. Each row holds the grouping-defined rebuilt timestamp and channel 101's sample. It also holds channels 102 and 103's samples at the same position, or a missing value past their end |
| VibrationReconstructor.ReconstructedFromLastAnchor | Example/functions.py:233-247 | The rebuilt timestamp is missing before the first anchor. Otherwise it is the last anchor's instant plus the distance to that anchor divided by the sample rate |
| VibrationReconstructor.AnchoredRow | Example/functions.py:233-244 | A row after anchor j with no anchor in between lies in block `anchors before j + 1`, has sample index `i - j`, and has the anchor's instant as block start |
| VibrationReconstructor.RowBeforeFirstAnchor | Example/functions.py:233-244 | A row before any anchor lies in block 0, has sample index equal to its position, and has no block start |
| VibrationReconstructor.AnchorKeepsInstant | Example/functions.py:238-247 | An anchor row keeps its own instant |
| VibrationReconstructor.NoTimestampBeforeFirstAnchor | Example/functions.py:233-247 | A rebuilt timestamp is missing if and only if no timestamp is present at or before the row |
| VibrationReconstructor.IncreasingWithinBlock | Example/functions.py:233-247 | With a positive sample rate, rebuilt timestamps strictly increase within a block |
| VibrationReconstructor.NextSampleOneIntervalLater | Example/functions.py:233-247 | The row after a rebuilt row, if it has no timestamp of its own, is rebuilt one sample interval (`1 / sample_rate`) later |
| VibrationReconstructor.DefaultRateSpacing | Example/functions.py:211-247 | At the default rate of 25000 samples per second, consecutive samples of a block are 40 microseconds apart |
| VibrationReconstructor.QuarterSecondBlock | Example/functions.py:233-247 | An anchor at 0 s, three unstamped rows and an anchor at 1 s at 4 samples per second rebuild to 0, 0.25, 0.5, 0.75 and 1 s |

## Left out

- Opening the store is not modelled; the store is a value supplied by the caller. This covers the path argument and the read-only mode.
- Exception messages are not modelled beyond the error kind, the group and dataset involved, the two lengths of a mismatch and the list of available groups. A missing group is Python's `KeyError` and every other error kind a `ValueError`; the model keeps the kinds apart but does not name the exception classes.
- DataFrame construction checks only that the arrays have equal lengths (`RaggedColumns`). Fiber and vibration datasets already pass that check. Dtype inference, multi-dimensional datasets and the row index are not modelled.
- `pd.to_datetime` is not modelled. Fiber instants are taken as integer nanoseconds and vibration instants as real seconds. Timestamp ranges and integer overflow are not modelled.
- VibrationReconstructor.Reconstructed: uses exact real division, so the floating-point division `sample_index / sample_rate` and the rounding of the offset to whole nanoseconds are not modelled.
- VibrationReconstructor.ProcessVibration: requires a non-zero sample rate. What pandas does with a zero rate (a floating-point division by zero) is not modelled. The method builds the resulting rows; it does not update a frame column by column in place, and the temporary `block_start` and `sample_index` columns exist only as the functions `BlockStart` and `SampleIndex`.
- Samples of the three channels are opaque values; a missing sample of channel 101 stays whatever value the caller gives.
- `process_fibers` takes its frames as rows already converted. pandas' own checks that the join keys are sorted are `Sorted` preconditions, not error results.
- FiberAligner.ProcessFibers: the columns besides `timestamp` are the frames' value columns. A value column named `timestamp` is not modelled.
- FiberAligner.FusedRowsUseNearest, FiberAligner.FusedRowCells and FiberAligner.UnmatchedRowsDropped: require that some fiber-2 column other than `f_sensor_2_5` survives the drop. If fiber 2 holds only that column, an unmatched fiber-1 row carries no null and is kept. `ProcessFibers` models that case, but these lemmas do not cover it.
- The repeated `import pandas as pd` carries no logic.

## Notes on the source

- The tolerance of the fiber join is inclusive: a fiber-2 row exactly 1 ms away still matches (`FiberAligner.BoundaryMatches`).
- Row i of channels 102 and 103 is attached to row i of channel 101 by index alignment. A shorter channel leaves missing values and a longer one is cut off.
- Repeated sensor numbers in a fiber request collapse to one column at the first occurrence, because the column dictionary keeps one entry per name.
