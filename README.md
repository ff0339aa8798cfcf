# Flight-data preparation core, modelled in Dafny

This project models the table-level core of a flight-data ETL pipeline for
flight-data-recorder recordings. The pipeline reads recordings whose `index` column
holds epoch seconds and puts them on a regular time grid (`resample_df`). It smooths selected signals with a
Butterworth low-pass filter (`low_pass_filter`). It then derives features:

- the shortest-angle yaw error between the heading `psi` and the reference heading
  `yaw_reff` (`yaw_error_corrected`);
- the row boundaries of waypoint segments (`index_wp`);
- a row-major matrix of chosen columns (`df_to_array`).

The project has four modules:

- `Frame` (`frame.dfy`) models the pandas DataFrame. It is a class with an ordered list
  of distinct column names, one vector of cells per name and a shared row count. A cell
  is a number or NaN. `SetColumn` models `df[name] = col` and `Values` models
  `.iloc[:, 0:].values`. `Result`/`Error` carry the `KeyError`, `ValueError` and `TypeError`
  the code can raise.
- `Uniq` (`uniq.dfy`) covers first occurrences in a sequence:
  - the ascending row indices that `np.unique(..., return_index=True)[1]` followed by
    `sort()` yields;
  - the distinct values in first-occurrence order that repeated column assignments
    leave behind.
- `Preprocessing` (`preprocessing.dfy`) covers `function/preprocessing.py`:
  - the yaw error, as in-place normalisation of two arrays followed by the per-row
    loop;
  - `index_wp`;
  - `df_to_array`.
- `FilePrep` (`file_prep.dfy`) covers `function/file_prep.py`:
  - `resample_df`, which mutates its argument and returns a new table. Each bin of
    `freq` seconds takes the first non-missing entry of every column.
  - `low_pass_filter`, modelled as its two loops: filter every named column into
    storage, then write the results back. The filter itself is a parameter.

In `index_wp`, `pop(0)` drops the leading row 0, so waypoint ids `[1, 1, 2, 2, 2, 3, 3]`
give `[2, 5, 7]` (`Preprocessing.WaypointBoundariesExample`).

## Model

| member | source | states |
|---|---|---|
| Frame.Without | function/file_prep.py:51 | making `date_time` the index removes exactly that name from the columns and keeps the rest distinct |
| Frame.WithoutAt | function/file_prep.py:51 | in a list of distinct names, removing the name at position `k` closes the gap and keeps the other names in their order |
| Frame.DataFrame.Empty | function/preprocessing.py:59 | `pd.DataFrame()` has no columns and no rows |
| Frame.DataFrame.SetColumn | function/preprocessing.py:61-62 | `df[name] = col` overwrites an existing column in place or appends a new one at the right; the first column sets the row count; the table stays well formed |
| Frame.DataFrame.Values | function/preprocessing.py:64 | `.iloc[:, 0:].values` has one row per table row and one entry per column, in column order; entry `(r, j)` is row `r` of column `j` |
| Uniq.FirstIdx | function/preprocessing.py:113-115 | the sorted first-occurrence indices are strictly ascending and in range; an index is included exactly when no earlier row holds the same value |
| Uniq.FirstIdxCount | function/preprocessing.py:113 | there is one first-occurrence index per distinct value |
| Uniq.Dedup | function/preprocessing.py:60-62 | the columns left after assigning the names of a list in order are distinct, and are exactly the names of the list |
| Uniq.DedupAtFirstIdx | function/preprocessing.py:60-62 | the `j`-th surviving name is the name at the `j`-th first-occurrence position of the list |
| Preprocessing.Normalize | function/preprocessing.py:76-82 | a heading of 180 or more loses exactly one turn, a smaller one is kept; a heading in [0, 360) lands in [-180, 180) |
| Preprocessing.NormalizeHeadings | function/preprocessing.py:76-82 | the loop replaces every element of the array by its normalised value |
| Preprocessing.Wrapped | function/preprocessing.py:89-93 | the alternative difference is one turn away, and gains a turn exactly when the difference is at most 0 |
| Preprocessing.Shortest | function/preprocessing.py:95-98 | the chosen difference is the direct or the alternative one and has the smaller magnitude; a tie keeps the direct one |
| Preprocessing.YawError | function/preprocessing.py:85-98 | the yaw error of a row is the difference of the normalised headings or that difference the other way round the circle, whichever has the smaller magnitude |
| Preprocessing.Turns | function/preprocessing.py:85-98 | the yaw error differs from `psi - yaw_reff` by a whole number of turns, at most two either way |
| Preprocessing.YawErrorInRange | function/preprocessing.py:69-98 | headings in [0, 360) give a yaw error in [-180, 180] |
| Preprocessing.YawErrorShortest | function/preprocessing.py:69-98 | for headings in [0, 360), no other representative `psi - yaw_reff + 360 k` of the angle has a smaller magnitude than the yaw error |
| Preprocessing.YawErrorBothEnds | function/preprocessing.py:95-98 | both ends -180 and 180 are reached, through the `<=` tie rule, and two sample values |
| Preprocessing.YawErrorCorrected | function/preprocessing.py:69-102 | both input arrays are normalised in place; the fresh output holds, row by row, the yaw error of the original headings |
| Preprocessing.ListInsert | function/preprocessing.py:120 | `list.insert` adds one element: before the end it lands at position `i` with the elements before it kept and the rest shifted right by one; past the end it appends |
| Preprocessing.WaypointBoundaries | function/preprocessing.py:105-123 | the boundaries are empty exactly for an empty table; otherwise they are ascending, end with the row count, and hold exactly the nonzero first-occurrence rows plus the row count |
| Preprocessing.WaypointBoundariesCount | function/preprocessing.py:113-121 | there is one boundary per distinct waypoint id |
| Preprocessing.SingleWaypoint | function/preprocessing.py:113-121 | a single waypoint id gives the one boundary `len(df)` |
| Preprocessing.WaypointBoundariesExample | function/preprocessing.py:113-121 | ids `[1,1,2,2,2,3,3]` give `[2, 5, 7]` |
| Preprocessing.IndexWp | function/preprocessing.py:105-123 | the unique/sort/insert/pop steps compute exactly `WaypointBoundaries` |
| Preprocessing.DfToArray | function/preprocessing.py:51-66 | succeeds exactly when every name exists, and otherwise reports the first missing one; the matrix has one column per distinct name in first-occurrence order, and no rows for an empty list |
| FilePrep.BucketBounds | function/file_prep.py:52 | bin `k` of `resample(freq)` is the interval `[k*freq, (k+1)*freq)` |
| FilePrep.BucketMonotone | function/file_prep.py:52 | a later timestamp never falls into an earlier bin |
| FilePrep.BucketShift | function/file_prep.py:52 | moving a timestamp on by `i` whole bins moves its bin on by `i` |
| FilePrep.BucketCount | function/file_prep.py:52 | the output has no rows exactly when the input has none; every input row's bin is in range; the last bin is occupied |
| FilePrep.FirstNonNull | function/file_prep.py:52 | the search finds the earliest row in the bin with a number, or reports that there is none |
| FilePrep.BinFirst | function/file_prep.py:52 | `first()` on a bin is NaN exactly when the bin holds no number in that column; otherwise it is the earliest such number |
| FilePrep.ResampleColumn | function/file_prep.py:52-53 | a resampled column has one entry per bin, from the first to the last occupied bin |
| FilePrep.ResampleFirstRow | function/file_prep.py:52-53 | in a column without NaN, the output row of an occupied bin is the bin's first input row |
| FilePrep.ResampleRowBound | function/file_prep.py:52-53 | there are at most `ceil((last - first) / freq) + 1` output rows |
| FilePrep.SpacedBuckets | function/file_prep.py:52 | timestamps `t0 + i*freq` ascend, and row `i` lies `i` bins after the bin of `t0` |
| FilePrep.ResampleUniformGrid | function/file_prep.py:52-53 | samples exactly `freq` apart, at any phase, fall one per bin and come back unchanged |
| FilePrep.Times | function/file_prep.py:41-47 | converting a column of numbers keeps its length and reads each timestamp off its row |
| FilePrep.ResampleAll | function/file_prep.py:51-53 | resampling every column but `date_time` gives a well-formed table with one row per bin |
| FilePrep.ResampleDf | function/file_prep.py:37-55 | a missing `index` column raises `KeyError` and a NaN timestamp raises `ValueError`, both with `df` unchanged; otherwise `df` gains the `date_time` column; a recording without rows then raises `TypeError`, and every other recording gives the resampled table (timestamps outside the range of `datetime` are not modelled) |
| FilePrep.NormalCutoff | function/file_prep.py:65-67 | the normalised cutoff lies strictly between 0 and 1, the range `butter` accepts, exactly when the cutoff lies strictly between 0 and the Nyquist frequency `fs / 2` |
| FilePrep.StandardCutoffValid | function/file_prep.py:77-82 | order 5, 30 Hz and cutoff 3.667 Hz give a normalised cutoff strictly between 0 and 1 |
| FilePrep.Filtered | function/file_prep.py:86-93 | the named columns are replaced by their filtered values and all other columns are kept |
| FilePrep.FilteredSameNames | function/file_prep.py:86-93 | only the set of names matters, not their order or repetition |
| FilePrep.TwoPhaseMatchesInPlace | function/file_prep.py:86-93 | for distinct names, storing the results first agrees with filtering column by column in place |
| FilePrep.LowPassFilter | function/file_prep.py:58-95 | a missing column raises `KeyError` at the first missing name, with `df` unchanged; otherwise every named column of `df` is filtered once, and the columns and row count stay the same |

## Left out

- `df_corr` is not part of this model. It rests on pandas correlation (`df.corr()`),
  rounding to two decimals and NaN handling, which need floating point.
- `unzip_and_rename`, `processing_mat_file_to_csv`, `concat_csv` and
  `prepare_dataset.py` are file I/O and orchestration. They are not part of this model.
- `butter` and `lfilter` are floating-point signal processing. `LowPassFilter` takes
  the filter as a parameter `lowpass(params, column)` that keeps a column's length.
  Only the design arithmetic of `butter_lowpass` (`NormalCutoff`) is modelled.
- Floating-point rounding: every float is an exact `real`.
- `Times`: `datetime.fromtimestamp` converts to local wall-clock time, with time zone
  and daylight saving. The model keeps timestamps as epoch seconds, and the `date_time`
  column holds those seconds.
- `Bucket`: pandas anchors the bins of `resample` at midnight of the first day
  (`origin='start_day'`), while the model anchors them at the epoch. The two agree
  whenever `freq` divides both a day and the local UTC offset, as the pipeline's
  `'4S'` does.
- `ResampleDf` takes `freq` as a positive number of seconds, not a pandas frequency
  string.
- `ResampleDf` requires the timestamps to be sorted. For unsorted input, pandas first
  sorts the rows stably by time; that case is not modelled.
- `ResampleDf` accepts every real timestamp. In the source, a timestamp outside the
  range of `datetime` (years 1 to 9999) makes `datetime.fromtimestamp` raise
  `ValueError` or `OverflowError`. Depending on the pandas version, a timestamp outside
  the `datetime64[ns]` range (about 1677 to 2262) instead leaves a non-datetime index,
  and then `resample` raises `TypeError`. The model returns the resampled table in both
  cases, because both bounds depend on the platform and the library version.
- `YawErrorCorrected`: headings are reals without NaN. Attaching the result to the
  frame as `df['yaw_error']` and returning the frame are not modelled.
- `YawErrorCorrected`: `psi` and `yaw_reff` are modelled as separate arrays. The
  normalisation writing through `.values` into the caller's columns is modelled as the
  in-place update of those arrays.
- `IndexWp` works on the `num_wp` column as a sequence of reals without NaN.
  - It does not model the `KeyError` for a missing `x_wp`, `y_wp` or `num_wp` column.
  - The unused list `xx` and the `print` are not modelled.
  - `np.unique` orders its values by value. The model computes the first-occurrence
    indices directly, since the code sorts them by row afterwards.
- `DfToArray` returns the matrix as a value, not a view that shares storage with a
  table.
