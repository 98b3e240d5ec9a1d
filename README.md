# Coverage analysis, modelled in Dafny

`CoverageAnalysis.py` reads the signal level off a coloured mobile-coverage
map (a GeoTIFF). Each pixel's colour is classified as the nearest of four
legend colours, and each colour stands for a signal level in dBm: -80, -90,
-100 and -108. Optionally, the level is interpolated towards the next legend
level. In CSV mode the program reads rows of latitude and longitude, and
processes them in chunks of 20. It writes one output row per input row:
the stripped coordinates and the level, or `Null` cells when there is no
result.

The model has six modules:

- `Wrappers`: `Option` and `Result`.
- `Legend`: the `RGB_TO_DBM` table, the dictionary lookup, and the
  nearest-colour classifier `get_closest_rgb`. Python's `min` keeps the
  first of several equally near keys, and the model does the same.
- `Interpolation`: `interpolate_rsrp_value`. The `ValueError` for an
  unknown method is an `Err` result.
- `Resolver`: `get_coverage_level`.
  - As a function, `CoverageLevel`.
  - As a method, `GetCoverageLevel`. It runs the source's scan over the
    sorted levels as a loop (`FindNextLevel`).
  - The reprojection and the raster's index function are one parameter,
    `locate`. It maps the coordinate text to a pixel index. `None` stands
    for the `ValueError` that `float()` raises on bad text.
  - The raster is a grid of RGB triples.
- `Builtins`: the Python built-ins the pipeline relies on: `str.strip`,
  `str.lower` as the header check uses it, and `int()` on a number
  (truncation toward zero).
- `Pipeline`:
  - `process_row`, as a function.
  - `process_csv_chunk` and `write_batch`, as methods that update a progress
    bar object and a CSV writer object.
  - The CSV mode of `main` from the header row on: the header check, and the
    loop that buffers 20 rows at a time. It is proved to write the header
    row, then the formatted result of every data row, in order.

Levels are `real` numbers, because the interpolation divides. The three
colour channels are unbounded integers.

Two behaviours of the code worth knowing:

- When no legend level lies strictly between the current level and -80,
  the interpolation target stays at MIN_COVERAGE (-108)
  (`CoverageAnalysis.py:101`). So "average" turns -90 into -99.
- A row without a result is written as three `Null` cells
  (`CoverageAnalysis.py:135-136`).

## Model

| member | source | states |
|---|---|---|
| Legend.SqDist | CoverageAnalysis.py:54 | The key `min` ranks legend colours by. It is never negative, and zero exactly when the two colours are equal. |
| Legend.LevelOf | CoverageAnalysis.py:93 | `RGB_TO_DBM.get(c)`: `None` exactly when no legend entry has colour `c`. Otherwise an entry with colour `c` has the returned level. |
| Legend.LegendWellFormed | CoverageAnalysis.py:15-27 | The four legend colours are pairwise distinct. White is none of them. Every level lies between MIN_COVERAGE and MAX_COVERAGE. |
| Legend.LevelOfEntry | CoverageAnalysis.py:22-27 | Looking up a legend colour gives that entry's own level. |
| Legend.NearestAmong | CoverageAnalysis.py:54 | `min` over the first `n` keys gives an index at minimal distance. Every earlier index is strictly farther, so the first minimum wins. |
| Legend.ClosestRgb | CoverageAnalysis.py:49-54 | No colour exactly for white. Otherwise it is the colour of the first nearest legend entry, and that colour has a level in the table. |
| Legend.FirstNearestUnique | CoverageAnalysis.py:54 | At most one index is the first nearest one, so the classifier's result is determined. |
| Legend.ExactLegendColor | CoverageAnalysis.py:49-54 | A pixel painted in a legend colour is classified as that colour. |
| Legend.Levels | CoverageAnalysis.py:102 | `RGB_TO_DBM.values()` in table order is -80, -90, -100, -108. |
| Legend.SortedLevels | CoverageAnalysis.py:102 | `sorted(RGB_TO_DBM.values())` is in ascending order and is a permutation of the table's levels. |
| Interpolation.InterpolateRsrpValue | CoverageAnalysis.py:56-66 | The definition of `interpolate_rsrp_value`. It has no contract of its own; it is characterised by FailsExactlyOnUnknownMethod, DegenerateReturnsMin, LinearHitsEndpoints, LinearMonotonic, LinearStaysBetween and AverageIsMidpoint. |
| Interpolation.FailsExactlyOnUnknownMethod | CoverageAnalysis.py:56-66 | An error is raised exactly when the interval is non-empty and the method is given but is neither "linear" nor "average". |
| Interpolation.DegenerateReturnsMin | CoverageAnalysis.py:58-59 | An empty interval, or no method, returns `min_rsrp` whatever the other arguments are. |
| Interpolation.LinearHitsEndpoints | CoverageAnalysis.py:61-62 | Linear interpolation maps `min_val` to `min_rsrp` and `max_val` to `max_rsrp`. |
| Interpolation.LinearMonotonic | CoverageAnalysis.py:61-62 | Linear interpolation is non-decreasing in the current value when the levels move the same way as the end values, and non-increasing when they move the opposite way, whichever end value is larger. |
| Interpolation.LinearStaysBetween | CoverageAnalysis.py:61-62 | A current value between the two end values gives a level between the two end levels. |
| Interpolation.AverageIsMidpoint | CoverageAnalysis.py:63-64 | "average" does not depend on the current value, and lies equally far from both levels. |
| Resolver.FirstBetween | CoverageAnalysis.py:102-105 | The scan's stopping point: the first index holding a value strictly inside the bounds, or none when no such value exists. |
| Resolver.NextLevel | CoverageAnalysis.py:100-105 | The definition of the next level after the scan. It has no contract of its own; it is characterised by NextLevelIsLeastAbove and NextLevels, and FindNextLevel computes it. |
| Resolver.NextLevelIsLeastAbove | CoverageAnalysis.py:100-105 | The next level is the least legend level strictly between the current level and -80. It is MIN_COVERAGE when no such level exists. |
| Resolver.FindNextLevel | CoverageAnalysis.py:100-105 | The loop over the sorted levels, with its `break`, computes exactly that next level. |
| Resolver.CoverageLevel | CoverageAnalysis.py:68-112 | The definition of `get_coverage_level`. It has no contract of its own; it is characterised by UninterpolatedOutcome, UnparsableCoordinatesRaise, OutOfBoundsIsNoCoverage, WhiteIsNoCoverage, StrongestIsExact, InterpolationInputs and the interpolation lemmas below, and GetCoverageLevel computes it. |
| Resolver.GetCoverageLevel | CoverageAnalysis.py:68-112 | The step-by-step resolver returns what `CoverageLevel` defines for every input, errors included. |
| Resolver.UnparsableCoordinatesRaise | CoverageAnalysis.py:29-31 | Coordinate text that does not parse raises, whatever the interpolation. The raise happens before the `try` block. |
| Resolver.OutOfBoundsIsNoCoverage | CoverageAnalysis.py:74-77 | A pixel outside the raster gives no coverage, and the result depends only on the raster's extent. |
| Resolver.WhiteIsNoCoverage | CoverageAnalysis.py:83-84 | A white pixel gives no coverage, whatever the interpolation. |
| Resolver.Classified | CoverageAnalysis.py:86-93 | For a classified pixel, the classifier picks that entry's colour, and the lookup finds that entry's level. |
| Resolver.StrongestIsExact | CoverageAnalysis.py:95-96 | A pixel classified as the -80 colour gives exactly -80 in every mode. |
| Resolver.UninterpolatedIsLegendLevel | CoverageAnalysis.py:109 | Without interpolation, the level is that of the classified legend entry. |
| Resolver.UninterpolatedOutcome | CoverageAnalysis.py:68-112 | Without interpolation, the resolver raises exactly when the text does not parse. It gives a level exactly when the pixel is classified, and the level is the classified entry's. |
| Resolver.InterpolationInputs | CoverageAnalysis.py:98-106 | With interpolation, the arguments passed are: the lower bound (-80 in place of -108), the next level, and the classified level. |
| Resolver.NextLevels | CoverageAnalysis.py:100-105 | The scan gives -108 after -80, -108 after -90, and -90 after -100. |
| Resolver.WeakestInterpolatesToStrongest | CoverageAnalysis.py:100-107 | With interpolation, a pixel classified as -108 resolves to -80 in any mode. |
| Resolver.AverageFromMinus90 | CoverageAnalysis.py:98-107 | "average" turns -90 into -99. |
| Resolver.AverageFromMinus100 | CoverageAnalysis.py:98-107 | "average" turns -100 into -95. |
| Resolver.LinearInterpolationKeepsLevel | CoverageAnalysis.py:98-107 | "linear" leaves -90 and -100 unchanged. |
| Resolver.UnknownModeRaises | CoverageAnalysis.py:106 | Any other non-empty mode raises for -90 and -100. |
| Builtins.Strip | CoverageAnalysis.py:116 | `str.strip()` gives a slice of the input with only whitespace around it and none at its ends. It is empty exactly when the input is all whitespace. |
| Builtins.StripUnpadded | CoverageAnalysis.py:116 | Text with no whitespace at either end is unchanged by stripping. |
| Builtins.Lower | CoverageAnalysis.py:217 | The definition of `str.lower()` on ASCII letters. It has no contract of its own; LowerMatchesIgnoringCase characterises it. |
| Builtins.LowerMatchesIgnoringCase | CoverageAnalysis.py:217 | `s.lower()` equals a lower-case word exactly when `s` spells it up to ASCII case. |
| Builtins.TruncateTowardZero | CoverageAnalysis.py:141 | `int()` on a number gives the nearest integer toward zero, on both signs. |
| Builtins.TruncateWhole | CoverageAnalysis.py:141 | `int()` leaves whole levels unchanged. |
| Pipeline.CoordinateFields | CoverageAnalysis.py:116 | The comprehension never yields more fields than it is given, and none of them is empty. |
| Pipeline.CoordinatePair | CoverageAnalysis.py:116-119 | There are two coordinates exactly when the row's first two fields are both non-blank. They are then those fields, stripped. |
| Pipeline.ProcessRow | CoverageAnalysis.py:114-130 | The definition of `process_row`. It has no contract of its own; it is characterised by CoordinatePair, ProcessRowOutcome and ClassifiedRow. |
| Pipeline.ProcessRowOutcome | CoverageAnalysis.py:114-130 | `process_row` gives a result exactly when the row has two non-blank fields whose joined text lands on a classified pixel. |
| Pipeline.ClassifiedRow | CoverageAnalysis.py:121-126 | The result is then the two stripped fields and the classified entry's level. |
| Pipeline.FormatRow | CoverageAnalysis.py:134-143 | The definition of the row `write_batch` writes for one result. It has no contract of its own; RowOutput characterises it on `process_row`'s results, and WriteBatch computes it. |
| Pipeline.FormatBatch | CoverageAnalysis.py:132-143 | The rows `write_batch` writes: `FormatRow` of each result, in order. It has no contract of its own; WriteBatch computes it, and OutputOfConcat relates it across chunks. |
| Pipeline.RowOutput | CoverageAnalysis.py:132-143 | A row without a result is written as three `Null` cells. Any other row is written as its stripped coordinates and a legend level as an integer. |
| Pipeline.HeaderOk | CoverageAnalysis.py:217 | The definition of the header check. It has no contract of its own; HeaderCheck characterises it. |
| Pipeline.HeaderCheck | CoverageAnalysis.py:217 | The header is accepted exactly when its first two fields spell "latitude" and "longitude" in any mix of ASCII case. |
| Pipeline.TwoRowExample | CoverageAnalysis.py:114-161 | Coordinates on a pixel of the -80 colour produce their text and -80. A row with a blank field produces the three `Null` cells. |
| Pipeline.ProgressBar.constructor | CoverageAnalysis.py:222-223 | The bar starts at zero with the given total. |
| Pipeline.ProcessRows | CoverageAnalysis.py:145-161 | The results `process_csv_chunk` returns: `ProcessRow` of each row, in order. It has no contract of its own; ProcessCsvChunk computes it. |
| Pipeline.ProcessCsvChunk | CoverageAnalysis.py:145-161 | One result per row, in order: the results are `process_row` of each row. The bar advances once per row. |
| Pipeline.WriteBatch | CoverageAnalysis.py:132-143 | Appends exactly the formatted rows of the results, in order, and nothing else. |
| Pipeline.ProcessAndWrite | CoverageAnalysis.py:234-236 | Processing and then writing one chunk extends the output by that chunk's rows. |
| Pipeline.OutputOfConcat | CoverageAnalysis.py:231-242 | The output of two runs of rows, one after the other, is the output of their concatenation. |
| Pipeline.ProcessDataRows | CoverageAnalysis.py:231-242 | The chunk loop writes the output of every data row in order, and advances the bar once per row. The chunks concatenate to the data. Each chunk has 1 to 20 rows, and all chunks but the last have exactly 20. |
| Pipeline.RunBatch | CoverageAnalysis.py:213-242 | An empty file or a rejected header stops the run before any output. Otherwise the output is the header row, then every data row's output in order, and the bar's total and final count equal the number of data rows. |

## Left out

- `transform_coordinates` and `get_pixel_location` (reprojection through
  `rasterio.warp` and the raster's affine index) are not modelled. They
  are the `locate` parameter: any function from the coordinate text to a
  pixel index, or `None` for text that does not parse as two floats.
- `get_rgb_values` reads the three bands. It is modelled as indexing a
  grid of colours.
- Legend.SqDist: the channels are unbounded integers. Any wrap-around of
  numpy's 8-bit arithmetic on the pixel values is not modelled. It depends
  on the numpy version.
- Levels are exact reals, not IEEE doubles. Rounding in the linear
  formula is not modelled.
- `str.lower` is modelled on ASCII letters only. This does not weaken the
  header check: no other character lowers to a letter of "latitude" or
  "longitude". The Kelvin sign lowers to "k", and the dotted capital I
  lowers to two characters.
- The single-coordinate mode of `main` (lines 186-194) is not modelled.
  Its only effect is a printed message.
- Not modelled: argument parsing, the file-access checks, the output file
  name, progress-bar rendering and all printed diagnostics.
- The CSV reader and writer are sequences of rows. Quoting and encoding
  are not modelled.
- An empty input file makes `next(csv_reader)` raise `StopIteration`. The
  model ends the run with `EmptyInput` and produces no output.
- Pipeline.WriteBatch: the branch for a string third field other than
  "Null" is not modelled, nor is its `ValueError` message. `process_row`
  only produces numeric levels, so that branch is never taken.
- Two `except` handlers are not modelled, because no model input reaches
  them: the `IndexError`/`KeyError`/`TypeError` handler of
  `get_coverage_level`, and the generic handler of `process_row`.
- The handler of `process_csv_chunk` is not modelled as a separate path.
  Only the diagnostic `print` at line 118, which is outside
  `process_row`'s `try` block, could raise into it. That happens only for
  a row that gives `None` anyway, and the handler also appends `None` and
  advances the bar, so the result is the same.
- The `--interpolation` option is parsed but never passed on: neither
  call of `get_coverage_level` in `main` passes it. So the pipeline
  resolves without interpolation, as the program does. The interpolating
  resolver is modelled and proved on its own.
