# jpeg-diff-rs luminance diff engine, in Dafny

This project models the integer core of jpeg-diff-rs. The tool compares a reference
image with one or more other images of the same size and reports the largest
per-pixel average luminance difference.

- **Luma** (`luma.dfy`): `get_luminance_value`, a fixed-point luma
  `(R*299 + G*587 + B*114) / 1000` computed in `i32`. These are the BT.601 weights
  of ITU-R Recommendation BT.601, scaled by 1000.
- **Rasters** (`rasters.dfy`): an `RgbImage` is width, height and a flat RGB8 buffer
  of width·height·3 bytes. Pixel (x, y) sits at byte offset (y·width + x)·3.
- **Metric** (`metric.dfy`): the sum of per-pixel absolute luma differences, as the
  loops of `load_image` compute it (x outer, y inner). Its properties are proved
  here: bound, identity, symmetry, zero-iff-same-luma, triangle inequality and
  independence from traversal order.
- **Engine** (`engine.dfy`): `load_image`. Each of the two files is opened and then
  decoded; this is abstracted as `ImageFile`. Widths are then checked, then heights,
  then the nested loops run. `Accumulate` is the loop with an exact accumulator.
  `AccumulateU32` is the loop as written, with a wrapping `u32`.
- **Orchestrator** (`orchestrator.dfy`): `run`. The first file is the reference.
  Each later file is compared with it in order, and the first failure is returned
  (`?`). A running maximum is kept with the `f32` comparison `max > calculated`.
- **Validation** (`validation.dfy`): `validate_files` accepts exactly the strings
  that `parse::<usize>` accepts. That is an optional `+`, then at least one ASCII
  digit, with a value of at most 2^64 − 1.

A panic of the source is modelled as `Failure(Panic(reason))`. An `io::Error`
returned by `?` is modelled as `Failure(IoError)`.

Facts about the source that the model keeps:
- The weights are BT.601's 299/587/114 over 1000.
- The division by 1000 happens per pixel, before the difference.
- An empty file list panics at `files[0]`.
- A reference alone returns `Ok(0)` without opening any file.
- Different widths or heights panic.

## Model

| member | source | states |
|---|---|---|
| `Luma.WeightedSum` | src/lib.rs:62 | the weighted channel sum lies in 0..255000, so the source's `i32` arithmetic never overflows |
| `Luma.Luminance` | src/lib.rs:61-63 | luma is between 0 and 255 and is the floor of the weighted sum divided by 1000 (truncating `i32` division of a non-negative value) |
| `Luma.LuminanceOfGray` | src/lib.rs:62 | a gray pixel (v, v, v) has luma exactly v, because the weights add up to the divisor; black gives 0 and white gives 255 |
| `Luma.LuminanceMonotone` | src/lib.rs:62 | luma never decreases when channels grow |
| `Luma.LuminanceLipschitz` | src/lib.rs:62 | pixels whose channels differ by at most k have lumas that differ by at most k |
| `Rasters.PixelAt` | src/lib.rs:50-51 | `get_pixel(x, y)` is the three bytes at offset (y · width + x) · 3, which lie inside the buffer |
| `Metric.PixelDelta` | src/lib.rs:50-52 | the per-pixel term `(lum1 - lum2).abs()` is at most 255 |
| `Metric.DiffBound` | src/lib.rs:47-54 | the summed difference is at most 255 · width · height |
| `Metric.DiffSelf` | src/lib.rs:47-54 | a raster compared with itself sums to 0 |
| `Metric.DiffSymmetric` | src/lib.rs:50-52 | the sum is the same with the two rasters swapped |
| `Metric.DiffZeroIff` | src/lib.rs:47-54 | the sum is 0 if and only if every pixel has the same luma in both rasters |
| `Metric.DiffTriangle` | src/lib.rs:47-54 | diff(a, c) ≤ diff(a, b) + diff(b, c) |
| `Metric.DiffUniform` | src/lib.rs:47-54 | when every pixel differs by the same d, the sum is d · width · height |
| `Metric.DiffInBufferOrder` | src/lib.rs:48-53 | the column-by-column loop order equals the sum over the two buffers zipped triple by triple in memory order, so each pixel is counted exactly once |
| `Engine.Decode` | src/lib.rs:29-38 | a file yields its raster exactly when it opens and decodes; an open failure is the `io::Error` returned by `?`, a decode failure is the panic |
| `Engine.Comparison` | src/lib.rs:27-58 | a successful `load_image` has diff ≤ 255 · count |
| `Engine.Accumulate` | src/lib.rs:47-54 | the nested loops return exactly the sum of the per-pixel differences over all x < width and y < height |
| `Engine.AccumulateU32` | src/lib.rs:47-54 | with the source's `u32` accumulator the loops return that sum modulo 2^32 |
| `Engine.LoadImage` | src/lib.rs:27-58 | `load_image` opens and decodes file 1, then file 2, fails on different widths and then on different heights, and otherwise returns (sum, width · height) |
| `Engine.DimensionGuard` | src/lib.rs:40-45 | two decoded rasters compare if and only if their dimensions match; a width mismatch is reported before a height mismatch, and nothing is summed |
| `Engine.ComparisonCountsPixels` | src/lib.rs:56 | on success both files decoded to rasters of equal dimensions, the diff is their summed difference, and the count is width · height of either one |
| `Engine.ComparisonIdentity` | src/lib.rs:27-58 | comparing a raster with itself yields (0, width · height) |
| `Engine.ComparisonSymmetric` | src/lib.rs:27-58 | swapping two decoded rasters changes neither the result nor the failure reason |
| `Engine.NoWrapWhenSmall` | src/lib.rs:47 | while 255 · width · height < 2^32, the `u32` accumulator agrees with the exact sum |
| `Engine.WrapsOnLargeImage` | src/lib.rs:47-52 | for 5000 × 5000 white against black, the exact sum is 6,375,000,000 and the `u32` sum is 2,080,032,704 |
| `Orchestrator.Quotient` | src/lib.rs:21 | the ratio is NaN exactly for a zero pixel count, and otherwise a non-negative number whose product with the count is the diff |
| `Orchestrator.Greater` | src/lib.rs:22 | the `f32` comparison `max > calculated` is false whenever either side is NaN, and otherwise the order of the reals |
| `Orchestrator.Keep` | src/lib.rs:22 | the new running maximum is one of the two values: the larger of two numbers, and the new value whenever either side is NaN |
| `Orchestrator.Run` | src/lib.rs:14-25 | the loop of `run` returns what the fold over the comparisons specifies: an empty list panics (`files[0]`), the first failed comparison ends the run, and otherwise the running `f32`-style maximum is returned |
| `Orchestrator.RunOnlyReference` | src/lib.rs:15-24 | with only the reference, `run` returns 0 |
| `Orchestrator.RunFailsFast` | src/lib.rs:19-20 | the first failing comparison's error is the result, whatever files follow it |
| `Orchestrator.RunSucceedsIff` | src/lib.rs:19-24 | `run` returns a value if and only if every file compares successfully with the reference |
| `Orchestrator.RunIsMaximum` | src/lib.rs:18-24 | when every comparison succeeds on rasters with at least one pixel, the result is ≥ 0, ≥ every per-file ratio, and equal to one of them (0 for the reference alone) |
| `Orchestrator.RunOrderIrrelevant` | src/lib.rs:18-24 | when every comparison succeeds on rasters with at least one pixel, permuting the compared files does not change the result |
| `Orchestrator.RunForgetsBeforeEmptyRaster` | src/lib.rs:21-22 | a zero-pixel comparison (NaN) discards every earlier maximum: the result is NaN if it is last, otherwise the result of the files after it alone |
| `Validation.ParseUsize` | src/lib.rs:8 | an accepted value never exceeds `usize::MAX` |
| `Validation.ValidateFiles` | src/lib.rs:7-12 | `Ok` exactly when the string parses as a `usize`; otherwise the error is exactly `Value have to be a number, not "<input>".` |
| `Validation.ValidateAcceptsDecimal` | src/lib.rs:7-12 | the decimal rendering of n, with or without a leading `+`, parses back to n and is accepted exactly when n ≤ 2^64 − 1 |
| `Validation.ParseIgnoresLeadingZero` | src/lib.rs:8 | a leading zero changes neither acceptance nor the value |
| `Validation.ValidateRejectsNonDigit` | src/lib.rs:8-10 | a string with a non-digit anywhere except a leading `+` is rejected (a minus sign, whitespace) |
| `Validation.ValidateRejectsEmpty` | src/lib.rs:8-10 | the empty string and a lone `+` are rejected |

## Findings

| source | as written | input that shows it | evidently intended | confidence | as-written member | corrected member |
|---|---|---|---|---|---|---|
| src/lib.rs:47-52 | `diff` is a `u32` and `diff += …` runs past 2^32 for large images. A release build wraps; a debug build panics | a 5000 × 5000 all-white image against an all-black one: exact sum 6,375,000,000, `u32` result 2,080,032,704, reported average ≈ 83.2 instead of 255 | an accumulator wide enough for 255 · width · height (e.g. `u64`), giving the exact sum | high (not executed) | `Engine.AccumulateU32`, with `Engine.WrapsOnLargeImage` | `Engine.Accumulate`, with `Metric.DiffBound` (used by `LoadImage` and `Run`) |

## Left out

- Opening and decoding files (`ImageReader::open`, `decode`, `into_rgb8`) are not modelled. Each file is an `ImageFile`: it cannot be opened (an `io::Error` returned by `?`), cannot be decoded (a panic), or yields an RGB8 raster.
- Engine.LoadImage: the pixel count is the exact product width · height. The source multiplies in `u32`, which wraps only for images of at least 2^32 pixels (a buffer of at least 12 GiB). The model does not represent that wrap.
- Engine.LoadImage: a debug build panics on `u32` overflow of `diff`. The corrected model uses an exact accumulator, and `AccumulateU32` models only the release build's wrap-around.
- Orchestrator.Quotient: the `f32` conversion and division are modelled as exact real division, so `f32` rounding is not captured. A zero pixel count (0 / 0) gives NaN, and NaN's comparison behaviour is modelled. Infinity cannot arise because the diff is 0 whenever the count is 0, given the exact pixel count (see the `Engine.LoadImage` line).
- Panics are modelled as failure values. Their abort semantics (unwinding, process exit) are not.
- `usize` is taken to be 64 bits wide.
- `src/main.rs` is not part of this model: it parses arguments, prints and panics on error.
