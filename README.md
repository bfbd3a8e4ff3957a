# Pixel filters of fabric.js image processing, modelled in Dafny

This project models the CPU paths of three image filters. Each one rewrites
the RGBA byte buffer of an `ImageData` in place. The buffer holds 4 samples
per pixel, row-major; pixel (i, j) of a frame of width w starts at
`(i * 4) * w + j * 4`.

- **MinMaxvalue** (`minmax.dfy`, module `MinMaxValue`). It snapshots the
  buffer. For every pixel it scans a square window of the snapshot's red
  channel, clamped into the frame, and writes the window's minimum (mode
  "min") or maximum (mode "max") into red, green and blue.
- **AutoHistogramFilter** helpers:
  - `histogram.dfy`, module `AutoHistogram`: the 256-bin red histogram,
    its cumulative sums (`buildcdf`), their normalisation (`normalizecdf`)
    and the `equalize` remap pass;
  - `tonecurve.dfy`, module `CatmullRom`: the Catmull-Rom tone curve, with
    its tangent construction, the cubic Hermite basis, the segment search
    of `getValue` and its bisection.
- **BlackWhiteThreshold** (`blackwhite.dfy`, module `BlackWhiteThreshold`).
  Each pixel becomes black when its rounded weighted luma is below the
  threshold, and white otherwise.
- `pixels.dfy` (module `Pixels`) holds the buffer layout the three filters
  share: the `Byte` sample type and the offset arithmetic.

Each pass is a `method` over an `array<Byte>`. It is proved to leave the
buffer equal to a specification function of the buffer it started with. The
lemmas then state, on that function, what the filter does to each pixel.

The histogram, cumulative-sum and normalisation loops are methods over
sequences. Each is proved equal to a function, and the properties are lemmas
about that function. Exact integers replace JavaScript's doubles where the
code only handles small integers. Dafny's `real` replaces them in the
normalisation, the remap and the tone curve.

### Where the code's behaviour differs from the filters' stated intent

The model follows the code. On these points the code does not do what the
filters' documentation and naming suggest:

- **Window radius.** The radius is `(blocksize / 2).toFixed(0)`. It rounds
  halves up, to `(blocksize + 1) / 2`, rather than flooring.
  - Blocksize 1 gives radius 1, a real 2-by-2 window (`RadiusOfSmallBlocks`).
  - Only blocksize 0 gives radius 0. With radius 0, "min" writes 255 and
    "max" writes 0 everywhere (`EmptyWindow`); it does not leave the buffer
    as it was.
- **Neutral state.** `isNeutralState` claims blocksize 1 changes nothing;
  it does change images. See Findings.
- **Pixels with red 0.** A pixel whose red is 0 is not passed through
  unchanged. Its ratio `cI / 0` is infinite (`ZeroRedPixel`): red stays
  0, and green and blue become 255 when they are not 0.
- **Flat images.** An image whose reds all equal one v in 1 .. 254 is not
  left unchanged. Its cumulative share at v is the whole frame, so every red
  becomes 255 before the curve (`BrightestRedSaturates`). For v = 255 the
  ratio is 1 and the image is unchanged before the curve.
- **Query outside the curve.** A tone-curve query outside the control
  points' x range returns `undefined` (`NoSegment`). It is not clamped to an
  endpoint.
- **Curves with one point.** The constructor throws on a single control
  point; `NewCurve` returns `None`. With no point at all it builds an empty
  curve.
- **Histogram region.** `histogram` reads from offset 0 whatever `x1` and
  `y1` are. It counts the first `(x2 - x1) * (y2 - y1)` pixels of the
  buffer. `equalize` calls it for the whole frame.

## Model

| member | source | states |
|---|---|---|
| Pixels.IdxIsLinear | fabric.Image.filters.MinMaxvalue.js:85 | the model's pixel offset is the filters' `(i * 4) * jLen + (j * 4)` |
| Pixels.IdxInFrame | fabric.Image.filters.MinMaxvalue.js:83-85 | the four samples of every in-frame pixel lie inside the `w * h * 4` buffer, starting at a multiple of 4 |
| Pixels.IdxSplit | fabric.Image.filters.MinMaxvalue.js:85 | the offset of channel c of pixel (i, j) decomposes back into row i, column j and channel c |
| Pixels.RowColInFrame | fabric.Image.filters.MinMaxvalue.js:83-85 | every offset of the buffer is channel `k % 4` of an in-frame pixel, so the two loops reach every sample |
| Pixels.PixelDone | fabric.Image.filters.MinMaxvalue.js:83-119 | once a pixel's four samples match the target, the matching prefix grows by four and nothing after it has moved |
| MinMaxValue.Radius | fabric.Image.filters.MinMaxvalue.js:74-75 | the radius is an integer nearest to blocksize / 2, and the larger one on a tie |
| MinMaxValue.RadiusOfSmallBlocks | fabric.Image.filters.MinMaxvalue.js:74-75 | radius 0 exactly for blocksize 0; blocksizes 1, 2 and 3 give radii 1, 1 and 2 |
| MinMaxValue.ModeOf | fabric.Image.filters.MinMaxvalue.js:106-117 | the mode dispatches to "min" exactly for the string "min", to "max" exactly for "max", and to neither for every other string |
| MinMaxValue.Clamp | fabric.Image.filters.MinMaxvalue.js:94-95 | a window coordinate is pulled into [0, hi]: unchanged inside, 0 below, hi above |
| MinMaxValue.WindowIndex | fabric.Image.filters.MinMaxvalue.js:94-98 | every read offset of the scan is inside the buffer |
| MinMaxValue.WindowReadsRed | fabric.Image.filters.MinMaxvalue.js:94-98 | every read offset is a red sample of the pixel at the clamped row and column |
| MinMaxValue.ScanRow | fabric.Image.filters.MinMaxvalue.js:92-103 | one pass of the inner window loop folds the row's 2r samples into both accumulators |
| MinMaxValue.ScanWindow | fabric.Image.filters.MinMaxvalue.js:87-104 | the accumulators end as the window minimum and maximum of the snapshot's red channel |
| MinMaxValue.RowMinIsMinimum | fabric.Image.filters.MinMaxvalue.js:92-101 | a row fold is a lower bound of the row's samples and, when non-empty, equal to one of them |
| MinMaxValue.BlockMinIsMinimum | fabric.Image.filters.MinMaxvalue.js:90-101 | the fold over rows is a lower bound of every window sample and is attained |
| MinMaxValue.WinMinIsMinimum | fabric.Image.filters.MinMaxvalue.js:87-101 | minValue is the minimum red over the clamped window: no sample is below it, some sample equals it, and an empty window leaves 255 |
| MinMaxValue.RowMaxIsMaximum | fabric.Image.filters.MinMaxvalue.js:92-101 | a row fold is an upper bound of the row's samples and, when non-empty, equal to one of them |
| MinMaxValue.BlockMaxIsMaximum | fabric.Image.filters.MinMaxvalue.js:90-101 | the fold over rows is an upper bound of every window sample and is attained |
| MinMaxValue.WinMaxIsMaximum | fabric.Image.filters.MinMaxvalue.js:87-101 | maxValue is the maximum red over the clamped window: no sample is above it, some sample equals it, and an empty window leaves 0 |
| MinMaxValue.ApplyTo2d | fabric.Image.filters.MinMaxvalue.js:65-121 | the buffer ends as the filter applied to the snapshot taken before any write, independent of scan order |
| MinMaxValue.FilterRow | fabric.Image.filters.MinMaxvalue.js:84-118 | after row i the rows up to i are filtered and every later sample still holds its snapshot value |
| MinMaxValue.FilterPixel | fabric.Image.filters.MinMaxvalue.js:85-117 | the pixel's four samples become those of the filtered buffer, so red, green and blue get the mode's window value; every other sample is left alone |
| MinMaxValue.FilteredPixel | fabric.Image.filters.MinMaxvalue.js:106-117 | in the filtered buffer, R, G and B of each pixel hold the mode's window value, and alpha is the original alpha |
| MinMaxValue.FilteredIsGray | fabric.Image.filters.MinMaxvalue.js:106-116 | in "min" and "max" mode every pixel ends with R = G = B |
| MinMaxValue.AlphaUnchanged | fabric.Image.filters.MinMaxvalue.js:106-117 | no alpha sample is ever changed |
| MinMaxValue.OtherModeIsIdentity | fabric.Image.filters.MinMaxvalue.js:106-117 | a mode other than "min" and "max" leaves the buffer exactly as it was |
| MinMaxValue.OwnPixelInWindow | fabric.Image.filters.MinMaxvalue.js:90-101 | with radius at least 1 the window holds the pixel itself, so its red lies between the window minimum and maximum |
| MinMaxValue.MinLowersMaxRaises | fabric.Image.filters.MinMaxvalue.js:100-117 | with radius at least 1, "min" never raises and "max" never lowers a pixel's red |
| MinMaxValue.EmptyWindow | fabric.Image.filters.MinMaxvalue.js:87-90 | with radius 0 "min" writes 255 and "max" writes 0 into every colour sample |
| MinMaxValue.WindowCoversLeftNeighbour | fabric.Image.filters.MinMaxvalue.js:90-101 | the radius-1 window of a pixel reaches the pixel on its left |
| MinMaxValue.MinMaxConfig.IsNeutralState | fabric.Image.filters.MinMaxvalue.js:126-128 | a configuration the test, as written, calls neutral still has radius 1, a 2-by-2 window |
| MinMaxValue.NeutralStateChangesImage | fabric.Image.filters.MinMaxvalue.js:126-128 | a configuration the test calls neutral darkens pixel (0, 1) of any 2-by-1 image whose left red is darker |
| MinMaxValue.MinMaxConfig.IsNoOp | fabric.Image.filters.MinMaxvalue.js:106-117 | the corrected test holds exactly when the mode dispatches to neither the "min" nor the "max" branch |
| MinMaxValue.NoOpIsNeutral | fabric.Image.filters.MinMaxvalue.js:106-117 | under the corrected test the filter leaves every image unchanged |
| MinMaxValue.SinglePixelChanges | fabric.Image.filters.MinMaxvalue.js:87-117 | in a one-pixel frame "min" changes a pixel with red 0 and green 255, and "max" one with red 255 and green 0, at every radius |
| MinMaxValue.NotNoOpChangesSomeImage | fabric.Image.filters.MinMaxvalue.js:106-117 | when the corrected test fails, some image is changed, whatever the blocksize: the test is exact |
| CatmullRom.NewCurve | fabric.Image.filters.AutoHistogramFilter.js:10-24 | the curve keeps the points and one tangent per point: one-sided half-differences at the ends, centred ones inside; a single point fails |
| CatmullRom.TangentsPointRight | fabric.Image.filters.AutoHistogramFilter.js:16-24 | with strictly increasing x every tangent has positive x |
| CatmullRom.DefaultTangents | fabric.Image.filters.AutoHistogramFilter.js:124-127 | the default points (0, 0) and (255, 255) get tangents (127.5, 127.5) at both ends |
| CatmullRom.H00 | fabric.Image.filters.AutoHistogramFilter.js:26-28 | h00 is 1 at t = 0 and 0 at t = 1 |
| CatmullRom.H10 | fabric.Image.filters.AutoHistogramFilter.js:30-32 | h10 is 0 at both ends |
| CatmullRom.H01 | fabric.Image.filters.AutoHistogramFilter.js:34-36 | h01 is 0 at t = 0 and 1 at t = 1 |
| CatmullRom.H11 | fabric.Image.filters.AutoHistogramFilter.js:38-40 | h11 is 0 at both ends |
| CatmullRom.PositionWeightsSumToOne | fabric.Image.filters.AutoHistogramFilter.js:26-36 | h00 + h01 = 1 for every t |
| CatmullRom.SegmentPoint | fabric.Image.filters.AutoHistogramFilter.js:65-70 | the segment's point is its left end at t = 0 and its right end at t = 1 |
| CatmullRom.DiagonalSegment | fabric.Image.filters.AutoHistogramFilter.js:69-70 | a segment whose ends and tangents lie on the diagonal stays on it for every t |
| CatmullRom.FindSegment | fabric.Image.filters.AutoHistogramFilter.js:44-45 | the search yields the first segment holding x, and nothing exactly when no segment holds x |
| CatmullRom.RangeIsCovered | fabric.Image.filters.AutoHistogramFilter.js:44-45 | with non-decreasing x, every x between the first and last point lies in some segment |
| CatmullRom.Round | fabric.Image.filters.AutoHistogramFilter.js:87 | `Math.round` gives the integer within one half of v, the upper one on a tie |
| CatmullRom.Level | fabric.Image.filters.AutoHistogramFilter.js:87 | `clamp(Math.round(y), 0, 255)` is within one half of y inside [-0.5, 255.5), 0 below and 255 above |
| CatmullRom.GetValue | fabric.Image.filters.AutoHistogramFilter.js:42-91 | undefined exactly when no segment holds x; a level it returns is the clamped, rounded y at a t in [0, 1] whose curve x is within 0.01 of x, on the first segment holding x |
| CatmullRom.RoundNear | fabric.Image.filters.AutoHistogramFilter.js:87 | a y within 0.01 of a level rounds and clamps to that level |
| CatmullRom.DefaultCurveIsIdentity | fabric.Image.filters.AutoHistogramFilter.js:124-127 | every value the default curve accepts for a level 0 .. 255 is that level |
| AutoHistogram.HistogramStep | fabric.Image.filters.AutoHistogramFilter.js:240-241 | a read inside the buffer adds one to the bin of the red it sees, and a read past the end adds nothing |
| AutoHistogram.Histogram | fabric.Image.filters.AutoHistogramFilter.js:223-246 | the bins count the reds of the first `(x2 - x1) * (y2 - y1)` pixels, with reads starting at offset 0 whatever x1 and y1 are |
| AutoHistogram.EmptyBins | fabric.Image.filters.AutoHistogramFilter.js:232-234 | the histogram starts as 256 zero bins |
| AutoHistogram.CountRow | fabric.Image.filters.AutoHistogramFilter.js:238-242 | the column loop adds the reds of the next `x2 - x1` pixels and advances idx by 4 per pixel |
| AutoHistogram.HistogramSum | fabric.Image.filters.AutoHistogramFilter.js:236-243 | the bins add up to the number of reads that land inside the buffer |
| AutoHistogram.ReadsInside | fabric.Image.filters.AutoHistogramFilter.js:237-242 | a region that fits in the buffer has all of its reads inside it |
| AutoHistogram.HistogramCountsPixels | fabric.Image.filters.AutoHistogramFilter.js:223-245 | for a region that fits in the buffer, the bins add up to `(x2 - x1) * (y2 - y1)` |
| AutoHistogram.CountSeen | fabric.Image.filters.AutoHistogramFilter.js:240-241 | the bin of a red some read sees is positive |
| AutoHistogram.CountUnseen | fabric.Image.filters.AutoHistogramFilter.js:240-241 | the bin of a red no read sees is empty |
| AutoHistogram.BuildCdf | fabric.Image.filters.AutoHistogramFilter.js:249-259 | entry i of the result is the sum of bins 0 .. i |
| AutoHistogram.CdfSteps | fabric.Image.filters.AutoHistogramFilter.js:254-256 | `cdf[0] = hist[0]` and `cdf[i] = cdf[i - 1] + hist[i]` |
| AutoHistogram.CdfLast | fabric.Image.filters.AutoHistogramFilter.js:249-258 | the last entry is the sum of all bins |
| AutoHistogram.CdfNonDecreasing | fabric.Image.filters.AutoHistogramFilter.js:255-256 | the cumulative sums never decrease |
| AutoHistogram.EffectiveScale | fabric.Image.filters.AutoHistogramFilter.js:264 | a zero scale becomes 1 and any other scale is kept |
| AutoHistogram.NormalizeCdf | fabric.Image.filters.AutoHistogramFilter.js:261-272 | with a positive total, entry i is `cdf[i] / total * scale`; a zero total yields no table |
| AutoHistogram.NormalizedLast | fabric.Image.filters.AutoHistogramFilter.js:266-269 | the last normalised entry is the scale |
| AutoHistogram.NormalizedNonDecreasing | fabric.Image.filters.AutoHistogramFilter.js:268-269 | with a positive scale, normalising keeps the entries non-decreasing |
| AutoHistogram.NormalizedWithinScale | fabric.Image.filters.AutoHistogramFilter.js:268-269 | with a positive scale, every normalised entry lies in [0, scale] |
| AutoHistogram.Quantize | fabric.Image.filters.AutoHistogramFilter.js:194 | `Math.round(clamp(v, 0, 255))` is within one half of v inside [0, 255], 255 above and 0 below |
| AutoHistogram.QuantizeMono | fabric.Image.filters.AutoHistogramFilter.js:194 | clamping and rounding never reverse the order of two values |
| AutoHistogram.Clamp | fabric.Image.filters.AutoHistogramFilter.js:216-218 | for lower <= upper the result lies in [lower, upper]: v itself inside, lower below, upper above |
| AutoHistogram.RemapChannel | fabric.Image.filters.AutoHistogramFilter.js:191-196 | for a red lev > 0 the red sample, scaled by `cI / lev`, becomes the quantised table entry cI; for red 0 a zero sample stays 0 and a non-zero one becomes 255 exactly when cI > 0 |
| AutoHistogram.Equalize | fabric.Image.filters.AutoHistogramFilter.js:168-214 | the buffer ends as its remap through the normalised cumulative histogram of the whole frame and then the curve; an empty frame is left alone |
| AutoHistogram.RemapPass | fabric.Image.filters.AutoHistogramFilter.js:177-204 | the in-place pass equals the per-pixel remap applied to the buffer it started with |
| AutoHistogram.EqualizePixel | fabric.Image.filters.AutoHistogramFilter.js:184-201 | R, G and B of one pixel are scaled by the ratio of its own red, rounded, clamped and passed through the curve; alpha is read but not written |
| AutoHistogram.EqualizedPixel | fabric.Image.filters.AutoHistogramFilter.js:184-201 | all three colour samples of a pixel use the same ratio, the table entry of its red over its red, and alpha is kept |
| AutoHistogram.TableEntry | fabric.Image.filters.AutoHistogramFilter.js:170-174 | table entry v is the share of the frame's pixels with red at most v, times 255 |
| AutoHistogram.RedBecomesTableEntry | fabric.Image.filters.AutoHistogramFilter.js:191-199 | a pixel with red lev > 0 gets the curve of `round(clamp(ncdf[lev], 0, 255))` as its red |
| AutoHistogram.ZeroRedPixel | fabric.Image.filters.AutoHistogramFilter.js:191-199 | a pixel with red 0 gets the curve of 0 in red, and in green and blue the curve of 255 when the sample is not 0, else of 0 |
| AutoHistogram.BrightestRedSaturates | fabric.Image.filters.AutoHistogramFilter.js:170-199 | a pixel holding the frame's largest red v > 0 gets the curve of 255 as its red |
| AutoHistogram.RedOrderKept | fabric.Image.filters.AutoHistogramFilter.js:170-199 | with a non-decreasing curve, a pixel whose red is at least another's does not end up with a darker red |
| BlackWhiteThreshold.EffectiveThreshold | fabric.Image.filters.BlackWhiteThreshold.js:79 | a zero threshold becomes 127 and any other threshold is kept |
| BlackWhiteThreshold.Luma | fabric.Image.filters.BlackWhiteThreshold.js:76 | the luma is the integer nearest to `0.3 r + 0.59 g + 0.11 b`, halves up, and lies in [0, 255] |
| BlackWhiteThreshold.Binarize | fabric.Image.filters.BlackWhiteThreshold.js:81 | the value is 0 or 255, and 0 exactly when the luma is below the threshold |
| BlackWhiteThreshold.ApplyTo2d | fabric.Image.filters.BlackWhiteThreshold.js:63-89 | the in-place pass equals the per-pixel map applied to the buffer it started with, under threshold `threshold \|\| 127` |
| BlackWhiteThreshold.BinarizeRow | fabric.Image.filters.BlackWhiteThreshold.js:73-86 | after row i the rows up to i are done, the later samples are untouched, and the threshold stays equivalent |
| BlackWhiteThreshold.BinarizePixel | fabric.Image.filters.BlackWhiteThreshold.js:74-85 | the pixel's R, G and B get one black-or-white value from its own samples; alpha and every other sample are left alone |
| BlackWhiteThreshold.BlackWhitePixel | fabric.Image.filters.BlackWhiteThreshold.js:76-85 | in the output, R, G and B of a pixel hold the binarised luma of its original samples and alpha is kept |
| BlackWhiteThreshold.PixelIsBlackOrWhite | fabric.Image.filters.BlackWhiteThreshold.js:81-85 | every pixel ends with R = G = B, either 0 or 255, and 0 exactly when its luma is below the threshold |
| BlackWhiteThreshold.AlphaKept | fabric.Image.filters.BlackWhiteThreshold.js:77 | no alpha sample is changed |
| BlackWhiteThreshold.WhiteIsUpwardClosed | fabric.Image.filters.BlackWhiteThreshold.js:81 | a pixel whose luma is at least that of a pixel turning white turns white too |
| BlackWhiteThreshold.BlackIsFixed | fabric.Image.filters.BlackWhiteThreshold.js:81 | a black pixel stays black under any positive threshold |
| BlackWhiteThreshold.WhiteIsFixed | fabric.Image.filters.BlackWhiteThreshold.js:81 | a white pixel stays white under any threshold up to 255 |
| BlackWhiteThreshold.BinarizedIsFixed | fabric.Image.filters.BlackWhiteThreshold.js:81-85 | a pixel the filter produced maps to itself under the same threshold |
| BlackWhiteThreshold.BlackWhiteIdempotent | fabric.Image.filters.BlackWhiteThreshold.js:72-86 | running the filter twice with the same threshold gives the same buffer as running it once |

## Left out

- The WebGL path is infrastructure of the host toolkit and has no CPU
  semantics to model. This covers the fragment shader strings,
  `getUniformLocations` and `sendUniformData` in all three files.
- `createClass`, `fromObject`, `type` and `mainParameter` are framework
  registration and serialisation code.
- `sortpoints` is never called. It keys on `a[0]`, while the curve reads
  `.x`.
- The `isNeutralState` of AutoHistogramFilter and of BlackWhiteThreshold
  tests a `blocksize` those filters never define, so it is always false.
- `applyTo2d` of AutoHistogramFilter is not modelled as written, because
  its wiring cannot run:
  - the file does not parse (`functiont` at line 168);
  - it reads `options.points` instead of the filter's `points`;
  - its default points are `[x, y]` arrays, while the curve reads `.x` and
    `.y`.

  `Equalize` instead models `equalize` with the curve passed in as a
  function from sample to sample. That parameter stands for the lookup that
  `CatmullRom.GetValue` models; the model does not derive it from
  `GetValue`, so the two are not connected by a proof.
- The `num_bins` argument of the three helpers is fixed at its default,
  256.
- Floating point is replaced by exact arithmetic:
  - doubles become `int` in the histogram and the luma;
  - doubles become `real` in the normalisation, the remap and the curve;
  - rounding errors and halves that land just below `.5` are not
    modelled.
- BlackWhiteThreshold.Luma: the weighted sum is exact hundredths. In
  doubles, a colour such as (0, 21, 1) sums to 12.499999999999998, which
  `toFixed(0)` rounds to 12 rather than 13. Agreement at such ties is not
  claimed.
- AutoHistogram.Histogram: the bin formula `Math.floor((v / 255) * 255)`
  is taken to be v. It is the identity in doubles for every sample value
  0 .. 255.
- AutoHistogram.NormalizeCdf: a zero total yields `None` instead of 256
  NaN entries. That only happens for a frame with no pixel, which the remap
  pass does not visit.
- `||` defaulting is modelled for the value 0 only (`EffectiveScale` and
  `EffectiveThreshold`). Other falsy values (`NaN`, `undefined`, `""`,
  `false`) are outside the numeric parameter types.
- BlackWhiteThreshold.EffectiveThreshold: only integer thresholds are
  modelled. The luma is an integer, so a fractional threshold t would
  behave as its ceiling.
- MinMaxValue.Radius: only natural-number blocksizes are modelled;
  fractional or negative ones are not.
- CatmullRom.GetValue: the source's `while (!found)` has no bound. The
  model runs at most `fuel` rounds and then returns `OutOfFuel`.
  Convergence of the bisection is not proved.
- An `undefined` that `getValue` returns is stored as 0 by the
  Uint8ClampedArray. That store is up to the curve function passed to
  `Equalize`.
- For red 0, the remap uses the IEEE results instead of excluding the case:
  `0 * Infinity` is NaN, which is stored as 0, and `c * Infinity` for
  c > 0 clamps to 255. The pixel's own red is counted in bin 0, so cI is
  positive there.

## Findings

| source | as written | input that shows it | evidently intended | confidence | as-written member | corrected member |
|---|---|---|---|---|---|---|
| fabric.Image.filters.MinMaxvalue.js:126-128 | `isNeutralState` reports that blocksize 1 leaves the image unchanged, but the radius is `(1 / 2).toFixed(0)` = 1, a 2-by-2 window | a 2-by-1 image with reds 0 and 100, blocksize 1, mode "min": pixel (0, 1) becomes 0 | report neutral exactly when no image can change, that is when the mode is neither "min" nor "max" | not executed | MinMaxValue.NeutralStateChangesImage | MinMaxValue.NotNoOpChangesSomeImage |
