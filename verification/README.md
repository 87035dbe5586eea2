# NEST fluorescence analysis, modelled in Dafny

NEST measures the fluorescence of bacterial samples photographed over time. Three
steps of its pipeline are modelled here:

- **Circular crop** (`circle_crop.py`). The largest disc centred in an image is kept.
  Every pixel outside it is set to 0 in a copy, and the copy is cut down to the disc's
  bounding square. The model is a value-level specification on `Image` and
  array-based methods proved against it: copy the buffer, zero it outside the mask
  in place, slice a window.
- **Per-image measurement** (`analyze_fluorescence.py`).
  - The file name gives the time point, sample type (`SA` treated, `Ctr` control),
    cfu and replicate.
  - The time point becomes an `h:mm` label on a 30-minute grid.
  - The image is scored by a robust mean: zero pixels are dropped, the values
    between the linearly interpolated 25th and 75th percentiles are kept, and their
    mean is taken. When no value is kept, the mean of all non-zero pixels is taken
    instead.
  - The batch loop keeps one record per image that parses and scores, then sorts
    the table by time label (as text), sample type (as text), cfu and replicate.
- **Plot data preparation** (`plot_fluorescence.py`).
  - Time labels are read back as hours.
  - The control rows at each hour are averaged into a baseline.
  - Each SA row gets its distance ("delta") from the baseline at its hour.
  - The deltas are averaged per (hour, cfu) group.

Modules:

| module | file | contents |
|---|---|---|
| `Wrappers` | `wrappers.dfy` | `Option` |
| `PyText` | `pytext.dfy` | Python's `int()`, decimal formatting, `str.split`, `str.replace(pat, '')` and string `<` |
| `Metadata` | `metadata.dfy` | `parse_filename`, `time_point_to_string` |
| `RobustMean` | `robust_mean.dfy` | `calculate_robust_mean` |
| `Batch` | `batch.dfy` | the record collection and sort of `process_circle_images` |
| `CircleCrop` | `circle_crop.dfy` | `create_circular_mask`, `crop_circle_from_image` |
| `PlotPrep` | `plot_prep.dfy` | `convert_time_to_hours`, baseline, merge, delta and group mean |

Modelling choices:

- Numbers are exact: pixel values are `nat` and intensities, percentiles and hours are `real`.
- Pandas' NaN and a failed load are `None`.
- Python's `//` and `%` have a positive divisor everywhere they are used, so they agree with Dafny's.
- The mask's `sqrt(dx² + dy²) <= r` is the exact integer test `0 <= r && dx² + dy² <= r²`.

## Model

| member | source | states |
|---|---|---|
| `Metadata.ParseFilename` | analyze_fluorescence.py:69-81 | a name read as a control always has cfu 0 |
| `Metadata.ParseFilenameSound` | analyze_fluorescence.py:52-81 | a parsed name, with every `.tif` removed, has the SA shape and the record holds its group values; or it has no SA shape, it has the Ctr shape, and the record holds its group values with cfu 0 (the SA grammar is tried first) |
| `Metadata.ParseFilenameNone` | analyze_fluorescence.py:52-84 | a name is rejected exactly when, once `.tif` is removed, it has neither shape |
| `Metadata.MatchSASound` | analyze_fluorescence.py:55-56 | every string the SA matcher accepts is `T`, a maximal digit run, `_SA_`, a maximal digit run, `_`, a maximal digit run, then anything; the result is the decimal values of the three runs |
| `Metadata.MatchSAComplete` | analyze_fluorescence.py:55-61 | every string of that shape is accepted, with the decimal values of its runs |
| `Metadata.MatchCtrSound` | analyze_fluorescence.py:70-71 | every string the Ctr matcher accepts is `T`, a maximal digit run, `_Ctr_`, a maximal digit run, then anything; the result is the values of the two runs |
| `Metadata.MatchCtrComplete` | analyze_fluorescence.py:70-75 | every string of the Ctr shape is accepted, with the values of its runs |
| `Metadata.ParseSAName` | analyze_fluorescence.py:52-67 | an SA-shaped name whose trailing text holds no `.`, followed by `.tif`, parses to its time point, SA, cfu and replicate |
| `Metadata.ParseCtrName` | analyze_fluorescence.py:52-81 | a Ctr-shaped name whose trailing text holds no `.`, followed by `.tif`, fails the SA grammar and parses to its time point, Ctr, cfu 0 and replicate |
| `Metadata.ExampleSA` | analyze_fluorescence.py:48 | `T23_SA_1_3.tif` parses to time point 23, SA, cfu 1, replicate 3 |
| `Metadata.ExampleCtr` | analyze_fluorescence.py:49 | `T01_Ctr_1.tif` parses to time point 1, Ctr, cfu 0, replicate 1; the leading zero is read as decimal |
| `Metadata.ExampleTrailingText` | analyze_fluorescence.py:70-81 | matching is anchored only at the start: `T2_Ctr_4_extra.tif` parses |
| `Metadata.ExampleInnerTif` | analyze_fluorescence.py:52 | every `.tif` is removed, not only the extension: `T7.tif_SA_5_2.tif` parses as `T7_SA_5_2` |
| `Metadata.ExampleUnrecognised` | analyze_fluorescence.py:83-84 | a name matching neither grammar gives `None` |
| `Metadata.RemoveTifSplits` | analyze_fluorescence.py:52 | removing `.tif` from `x + ".tif" + y` is removing it from `x` and from `y` separately |
| `Metadata.RemoveExtension` | analyze_fluorescence.py:52 | a name without `.` followed by `.tif` loses exactly the extension |
| `PyText.RemoveAbsent` | analyze_fluorescence.py:52 | `replace('.tif', '')` leaves a name in which `.tif` does not occur unchanged |
| `Metadata.TimeLabelFields` | analyze_fluorescence.py:86-94 | the label of `t` is `(t - 1) div 2`, a colon, then `00` for odd `t` and `30` for even `t`: the minutes field is always `00` or `30` |
| `Metadata.PointLabel` | analyze_fluorescence.py:91-94 | time point `2k + 1` is labelled `k` hours 0 minutes, time point `2k + 2` is `k` hours 30 minutes |
| `Metadata.TimeLabelsFirstFour` | analyze_fluorescence.py:89 | T1 to T4 are labelled `0:00`, `0:30`, `1:00`, `1:30` |
| `Metadata.TimeLabelTenHours` | analyze_fluorescence.py:91-94 | T21 is labelled `10:00` |
| `PyText.ZeroPad2` | analyze_fluorescence.py:94 | `{mins:02d}` is all digits and reads back as `mins`; it is exactly two characters below 10 and the plain decimal spelling's length otherwise |
| `PyText.ParseDigits` | analyze_fluorescence.py:59-61 | `int()` of a digit group is its decimal value |
| `RobustMean.NonZero` | analyze_fluorescence.py:25 | the non-zero pixels keep every positive value with its multiplicity, contain no 0, and are empty exactly when every pixel is 0 |
| `RobustMean.SortAsc` | analyze_fluorescence.py:32-33 | the values the percentiles are read from are sorted and a permutation of the input |
| `RobustMean.Percentile` | analyze_fluorescence.py:32-33 | the interpolated percentile lies between the smallest and largest values and between the values at the rank's floor and the next index; it equals the value at the floor when the rank is whole or at the last index |
| `RobustMean.Between` | analyze_fluorescence.py:36 | the filter keeps each value in `[p25, p75]` with its multiplicity and drops every other value |
| `RobustMean.KeptBetweenQuartiles` | analyze_fluorescence.py:36 | every kept value lies in `[p25, p75]` |
| `RobustMean.RobustInRange` | analyze_fluorescence.py:32-43 | the robust mean of the non-zero values, with or without the fallback, lies between the smallest and largest of them |
| `RobustMean.RobustOfPermutation` | analyze_fluorescence.py:25-43 | the robust mean depends only on the multiset of non-zero values |
| `RobustMean.CalculateRobustMean` | analyze_fluorescence.py:24-43 | `None` exactly when the image is missing or all its pixels are 0; otherwise the result lies between the smallest and largest non-zero pixel |
| `RobustMean.RobustMeanWithinQuartiles` | analyze_fluorescence.py:32-43 | when some value is kept, the result is the mean of the kept values and lies in `[p25, p75]` |
| `RobustMean.FallbackIff` | analyze_fluorescence.py:38-40 | the fallback to all non-zero pixels happens exactly when there are two non-zero pixels and they differ |
| `RobustMean.ThreeOrMoreKeepSome` | analyze_fluorescence.py:32-40 | with three or more non-zero values some value is kept |
| `RobustMean.TwoDistinctValues` | analyze_fluorescence.py:38-40 | two distinct non-zero pixels `a`, `b` score `(a + b) / 2` |
| `RobustMean.ZeroPixelsIgnored` | analyze_fluorescence.py:24-25 | inserting a zero pixel anywhere does not change the result |
| `RobustMean.OrderIrrelevant` | analyze_fluorescence.py:25-43 | the result depends only on the multiset of pixels |
| `RobustMean.SameNonZeroSameResult` | analyze_fluorescence.py:25-43 | two images with the same non-zero pixels, counted with multiplicity, have the same result |
| `RobustMean.MeanBounds` | analyze_fluorescence.py:40-42 | a mean lies within any bounds that hold for each value |
| `Batch.RecordFor` | analyze_fluorescence.py:115-135 | an image yields a record exactly when its name parses and its robust mean exists; the record holds the name, the formatted time label, the parsed fields and the mean |
| `Batch.Contribution` | analyze_fluorescence.py:115-122 | an image adds at most one row, none exactly when it has no record |
| `Batch.RecordsOfAt` | analyze_fluorescence.py:111-135 | entry `i` of the per-image results is what image `i` yields: its record or `None` |
| `Batch.CollectCount` | analyze_fluorescence.py:111-135 | a record occurs in the collection exactly as many times as there are listed images that yield it |
| `Batch.CollectLength` | analyze_fluorescence.py:111-135 | the collection has one row per listed image that yields a record: the number of images minus the rejected ones |
| `Batch.CollectSound` | analyze_fluorescence.py:111-135 | every collected record is the record of some listed image |
| `Batch.CollectComplete` | analyze_fluorescence.py:111-135 | every listed image that has a record contributes it |
| `Batch.ProcessCircleImages` | analyze_fluorescence.py:100-145 | no images gives the early return; images but no record is the failure of sorting an empty table; otherwise the table is in key order and a permutation of the collected records |
| `Batch.SortTable` | analyze_fluorescence.py:145 | the sort returns the same rows in key order |
| `Batch.KeyLeTotalPreorder` | analyze_fluorescence.py:145 | the four-column key order is total and transitive |
| `Batch.KeyTrichotomy` | analyze_fluorescence.py:145 | two records are ordered one way, the other way, or have the same key, and never both ways |
| `Batch.KeyLtTransitive` | analyze_fluorescence.py:145 | the column-by-column key comparison is transitive |
| `Batch.InKeyOrderPairwise` | analyze_fluorescence.py:145 | a table in key order is ordered between any two rows, not only neighbours |
| `Batch.TableRowsSound` | analyze_fluorescence.py:125-135 | every row of the table comes from a listed image that parsed and scored, with the time label of its time point |
| `Batch.TextualTimeOrder` | analyze_fluorescence.py:145 | time labels sort as text: `10:00` (T21) sorts before `1:30` (T4) |
| `PyText.StrLtTransitive` | analyze_fluorescence.py:145 | Python's string order is transitive |
| `PyText.StrLtTotal` | analyze_fluorescence.py:145 | any two strings are equal or ordered one way |
| `CircleCrop.CircularMask` | circle_crop.py:7-18 | the mask has `h` rows of `w` cells, true exactly on the pixels at distance at most `r` from the centre; a missing centre or radius takes its default |
| `CircleCrop.DefaultMaskIsCropMask` | circle_crop.py:9-12 | the mask's default centre `(int(w/2), int(h/2))` and radius equal the centre and radius the crop computes |
| `CircleCrop.RadiusBounds` | circle_crop.py:31-34 | the radius is `min(w//2, h//2)`, non-negative, and the square `[cx - r, cx + r) x [cy - r, cy + r)` lies inside the image |
| `CircleCrop.Masked` | circle_crop.py:44-45 | the masked copy has the image's shape; pixels under the mask keep their value and the rest are 0 |
| `CircleCrop.Window` | circle_crop.py:53 | the slice is `n` by `n`, and its pixel `(i, j)` is the image pixel `(y0 + i, x0 + j)` |
| `CircleCrop.CropCircle` | circle_crop.py:28-53 | the crop is `2r` by `2r` |
| `CircleCrop.CropPixels` | circle_crop.py:37-53 | in the crop the disc is centred at `(r, r)`; inside it every pixel is the matching source pixel, outside it every pixel is 0 |
| `CircleCrop.CropIdempotent` | circle_crop.py:31-53 | cropping a crop gives centre `(r, r)`, radius `r` and the identical grid |
| `CircleCrop.CropDropsBoundary` | circle_crop.py:48-53 | the image pixels in the disc but outside the half-open crop are exactly those of `(cx + r, cy)` and `(cx, cy + r)` that lie inside the image (neither, for a square with even sides) |
| `CircleCrop.CopyImage` | circle_crop.py:44 | `img.copy()` is a fresh buffer with the same pixels |
| `CircleCrop.ApplyMask` | circle_crop.py:45 | `masked_img[~mask] = 0` in place turns the buffer into its masked image |
| `CircleCrop.CopyWindow` | circle_crop.py:53 | the slice is a fresh buffer holding the window of the source |
| `CircleCrop.CropCircleFromImage` | circle_crop.py:28-53 | copying, masking in place and slicing return a fresh buffer holding exactly the crop of the source image |
| `PlotPrep.ConvertTimeToHours` | plot_fluorescence.py:7-13 | a result exists exactly when the label splits at `:` into exactly two fields that `int()` accepts |
| `PlotPrep.ConvertFields` | plot_fluorescence.py:9-11 | two integer fields around one colon give hours plus minutes / 60 |
| `PlotPrep.LabelReadsBack` | plot_fluorescence.py:9-11 | a label made of a formatted integer, a colon and two-digit minutes reads back as hours plus minutes / 60 |
| `PlotPrep.TimeRoundTrip` | plot_fluorescence.py:7-11 | the label of every time point `t` (from `time_point_to_string`) reads back as `(t - 1) / 2` hours |
| `PyText.ParseIntToDecimal` | plot_fluorescence.py:10 | `int()` of a formatted integer is that integer |
| `PyText.ParseNegated` | plot_fluorescence.py:10 | `int()` of a minus sign followed by digits is the negated decimal value |
| `PyText.SurroundingSpace` | plot_fluorescence.py:10 | `int()` skips a space before and a line end after a digit run and reads its decimal value |
| `PyText.LeadingNonDigit` | plot_fluorescence.py:10 | `int()` rejects a field whose first character is neither whitespace, a sign nor a digit |
| `PyText.ExampleFileSeparator` | plot_fluorescence.py:10 | `int()` does not skip a leading file separator (U+001C), so it rejects that field |
| `PlotPrep.RejectedHoursField` | plot_fluorescence.py:9-13 | a label whose hours field `int()` rejects has no hours (the `except` branch) |
| `PlotPrep.ExampleFileSeparatorLabel` | plot_fluorescence.py:9-13 | a label led by U+001C, such as U+001C followed by `1:30`, has no hours |
| `PyText.Split` | plot_fluorescence.py:10 | `split(':')` gives at least one field, no field holds a colon, and joining the fields with colons gives back the label |
| `PyText.SplitTwoFields` | plot_fluorescence.py:10 | a label with exactly one colon splits into the two sides |
| `PlotPrep.AddHours` | plot_fluorescence.py:23 | each row gets the hours of its own label |
| `PlotPrep.CtrValuesMembers` | plot_fluorescence.py:26 | the values averaged for the baseline at an hour are exactly the intensities of the control rows at that hour |
| `PlotPrep.CtrValuesCount` | plot_fluorescence.py:26 | every control row at the hour is averaged once: a value occurs as many times as there are control rows at that hour with that intensity |
| `PlotPrep.CtrBaseline` | plot_fluorescence.py:26-27 | the baseline at an hour is missing exactly when no control row is at that hour; otherwise it is the mean of their intensities |
| `PlotPrep.BaselineCountsEveryRow` | plot_fluorescence.py:26-27 | control rows with equal intensities each count: intensities 10, 10 and 20 at one hour give the baseline 40/3 |
| `PlotPrep.SARows` | plot_fluorescence.py:30 | the SA rows: only SA rows, and every SA row exactly as many times as it occurs in the table |
| `PlotPrep.SARowsConcat` | plot_fluorescence.py:30 | the filter keeps table order: the SA rows of two tables one after the other are those of the first followed by those of the second |
| `PlotPrep.MergeRow` | plot_fluorescence.py:33-36 | a merged row keeps its SA row and hours and gets the baseline at its hour; its delta is present exactly when that baseline is, and delta plus baseline is its intensity |
| `PlotPrep.Merge` | plot_fluorescence.py:33-36 | the merged table has one row per SA row, entry `i` being SA row `i` merged with the baseline at its hour; with `SARows` and `SARowsConcat` this is every SA row once, in table order |
| `PlotPrep.GroupDeltasMembers` | plot_fluorescence.py:39 | the values averaged for an (hour, cfu) group are exactly the present deltas of its rows |
| `PlotPrep.GroupDeltasCount` | plot_fluorescence.py:39 | every row of a group with a delta is averaged once: a delta occurs as many times as there are rows of the group with that delta |
| `PlotPrep.GroupMean` | plot_fluorescence.py:39 | a group's mean is missing exactly when none of its rows has a delta; otherwise it is the mean of the present deltas |
| `PlotPrep.PlotMeans` | plot_fluorescence.py:39 | there is one group per (hour, cfu) among rows whose hours are known, and each group's value is its mean |
| `PlotPrep.OffsetInvariant` | plot_fluorescence.py:26-39 | adding the same amount to every intensity leaves every delta, every group and every group mean unchanged |
| `PlotPrep.Average` | plot_fluorescence.py:26-27 | the mean times the count is the total |

## Left out

- Image and file I/O: `cv2.imread` and `cv2.imwrite`, `glob`, `os.makedirs` and path building. A loaded image is an input (a grid or a pixel sequence), a failed load is `None`, and a directory listing is a sequence of names with their pixels.
- `cv2.cvtColor` BGR to grey, and the colour branch of the masking: images are single-channel. The colour branch applies the same per-pixel rule.
- Batch.RecordFor: the mean is stored unrounded, because `round(mean, 2)` on binary floats is not modelled.
- Floating point in general: means, percentiles and hours are exact reals.
- The standard deviation column of the aggregation, and all plotting, styling and saving.
- CSV writing and reading. The table read back is taken to be the table written, so `PlotPrep.AddHours` starts from the records.
- Progress and summary prints, the single-image smoke tests, the interactive confirmation, and the `process_all_images` counting loop.
- Batch.SortTable: does not state that the sort is stable (rows with equal keys keep their order), only that the result is sorted and a permutation.
- `\d` and `int()` accept non-ASCII Unicode digits; the model accepts ASCII digits only.
- Batch.ProcessCircleImages: sorting an empty result list raises an error because the empty table has no key columns. This is modelled as the outcome `NoRecords`, not as an exception.
- PlotPrep.AddHours: a label that does not read back gives `None`, like NaN. Pandas' `groupby` drops a NaN hour, so no baseline has a NaN key and a NaN-hour SA row finds no baseline in the merge; that is modelled, but NaN arithmetic is not.
