# Image analysis and reconstruction engine, in Dafny

This project models the pixel engine of the Image-prossing web app: `services/imageAnalyzer.ts`
and the run/cancel protocol of `drawReconstruction` in `components/ImageAnalysisDisplay.tsx`.

- **Analysis** (`analyzeImage`, module `Analyzer`). The input is a decoded RGBA buffer of
  `width * height * 4` bytes. The output has three parts:
  - the image properties;
  - a 256-entry histogram per colour channel, counted over every pixel;
  - a palette of the ten most frequent colour buckets. The buckets come from every
    `max(1, floor(pixelCount / 20000))`-th pixel, with each channel shifted right by 4. They are
    sorted stably by descending count and written back as `#rrggbb` at the bucket floor.
- **Hex helpers** (`componentToHex`, `rgbToHex`, `hexToRgb`, module `Hex`). This is an
  encoder/decoder pair for `#rrggbb` strings. Decoding an encoded colour gives it back for every
  byte triple; encoding a decoded string gives it back for lower-case `#rrggbb` strings, the
  only ones `rgbToHex` produces (an upper-case or `#`-less string decodes but re-encodes to its
  canonical form, in the source as well).
- **Reconstructors** (modules `Mosaic`, `Circles`, `PaletteReconstruction`). Each one is an
  imperative loop. Its effects on the outside world form one trace (module `Canvas`):
  - drawing commands (`FillRect`, `FillCircle`, `PutImage`);
  - `onProgress` values;
  - `Yield` markers, one per `await yieldToBrowser()`.

  `isCancelled()` is an oracle indexed by the number of yields the run has passed. Between two
  yields a run executes synchronously, so every poll in between gets the same answer. Each loop
  method is proved equal to a specification function. Tiling, colours, progress and
  cancellation are proved about those functions. The palette reconstructor converts its pixel
  `array` in place, as the source does.
- **Controller** (module `Controller`). The class `ReconstructionController` has the fields
  `currentId` (the source's `animationFrameId.current`), `isAnimating` and `progress`. Its
  methods are `DrawReconstruction` (the request), `SetProgress` (the `onProgress` callback) and
  `Finish` (the `finally` block). A pure state machine over the same three values states the
  properties that span several events.

## Model

| member | source | states |
|---|---|---|
| `Hex.ToBase16` | services/imageAnalyzer.ts:4 | `toString(16)` gives at least one digit, and every digit is lower-case hex |
| `Hex.HexToRgb` | services/imageAnalyzer.ts:12-19 | returns a colour exactly when the string matches `^#?[0-9a-fA-F]{6}$`; that colour's channels are bytes; any other string gives `null` |
| `Hex.ComponentToHexDigits` | services/imageAnalyzer.ts:3-6 | for a byte, `componentToHex` gives exactly its two base-16 digits, high digit first and zero-padded |
| `Hex.RgbToHexShape` | services/imageAnalyzer.ts:8-10 | for byte channels, `rgbToHex` gives `#` followed by exactly six lower-case hex digits |
| `Hex.HexRoundTrip` | services/imageAnalyzer.ts:8-19 | `hexToRgb(rgbToHex(r, g, b)) == [r, g, b]` for all byte channels |
| `Hex.HexRoundTripString` | services/imageAnalyzer.ts:8-19 | re-encoding a decoded lower-case `#rrggbb` string gives back the same string |
| `Analyzer.ComputeHistogram` | services/imageAnalyzer.ts:44-57 | the three counting loops and the entry loop give 256 entries; entry `i` has intensity `i` and, per channel, the number of pixels with value `i` |
| `Analyzer.Counts` | services/imageAnalyzer.ts:44-52 | after `p` pixels the counting array of a channel has exactly 256 slots |
| `Analyzer.CountsTally` | services/imageAnalyzer.ts:44-52 | after `p` pixels, slot `v` of a channel's counting array is the number of the first `p` pixels with value `v` in that channel |
| `Analyzer.TallyStep` | services/imageAnalyzer.ts:49-51 | one `values[data[i]]++` keeps the tally: the slot of the new value goes up by one and no other slot changes |
| `Analyzer.Bump` | services/imageAnalyzer.ts:49-51 | `values[v]++` on the array: slot `v` goes up by one, and every other slot is unchanged |
| `Analyzer.CountPixel` | services/imageAnalyzer.ts:48-52 | one pass of the counting loop takes all three channel arrays from the counts of `p` pixels to those of `p + 1` |
| `Analyzer.TalliesMakeHistogram` | services/imageAnalyzer.ts:54-57 | three complete tallies, copied entry by entry, make the histogram of the buffer |
| `Analyzer.ChannelTotalPrefix` | services/imageAnalyzer.ts:44-57 | the first `n` histogram counts of a channel add up to the number of pixels whose value in that channel is below `n` |
| `Analyzer.HistogramEntries` | services/imageAnalyzer.ts:54-57 | entry `i` is `{intensity: i, r: rValues[i], g: gValues[i], b: bValues[i]}`, for exactly 256 entries |
| `Analyzer.HistogramTotals` | services/imageAnalyzer.ts:44-57 | for each channel, the histogram counts add up to the number of pixels `data.length / 4` |
| `Analyzer.SampleRate` | services/imageAnalyzer.ts:60 | the sampling stride is at least 1 |
| `Analyzer.SamplesCount` | services/imageAnalyzer.ts:60-62 | the sampling loop visits `ceil(pixelCount / sampleRate)` pixels: `0, sr, 2sr, …` |
| `Analyzer.SamplesFromPixels` | services/imageAnalyzer.ts:62-66 | every sampled key is the quantized colour of some pixel at or after the start |
| `Pixels.Steps` | services/imageAnalyzer.ts:62 | the stride loop visits only indices in `[start, n)` |
| `Pixels.StepsCount` | services/imageAnalyzer.ts:62 | the stride loop from `v` to `n` by `d` makes `ceil((n - v) / d)` visits, none when `v >= n` |
| `Pixels.StepsAt` | services/imageAnalyzer.ts:62 | visit `t` of the stride loop is at `v + t * d` |
| `Analyzer.FirstSeen` | services/imageAnalyzer.ts:66-70 | the key order of `colorMap` holds each sampled bucket once, with no other keys, in first-insertion order |
| `Analyzer.CollectBuckets` | services/imageAnalyzer.ts:59-70 | the `colorMap` loop gives, in key-insertion order, each sampled bucket with its number of occurrences among the samples |
| `Analyzer.VisitPixel` | services/imageAnalyzer.ts:62-68 | one pass of the sampling loop advances `i` by `4 * sampleRate` and keeps the invariant: the map holds the count of every key among the samples so far, in first-insertion order |
| `Analyzer.FirstSeenDistinct` | services/imageAnalyzer.ts:66-70 | the key order of `colorMap` lists no key twice |
| `Analyzer.KeyCountsAdd` | services/imageAnalyzer.ts:67 | one more sample adds one to the total count exactly when its key is already listed |
| `Analyzer.BucketKeysInRange` | services/imageAnalyzer.ts:62-66 | every bucket key component lies in 0..15 and comes from some pixel |
| `Analyzer.BucketsTotal` | services/imageAnalyzer.ts:66-68 | the bucket counts add up to the number of samples |
| `Analyzer.BucketCountsTotal` | services/imageAnalyzer.ts:60-68 | the bucket counts add up to `ceil(pixelCount / sampleRate)` |
| `Analyzer.InsertByCountSpec` | services/imageAnalyzer.ts:70 | one insertion step of the stable descending sort: the counts stay ordered, exactly the new bucket is added, and it goes after all buckets with the same count |
| `Analyzer.SortByCountSpec` | services/imageAnalyzer.ts:70 | the sort is a permutation, its counts do not increase, and buckets with equal counts keep their original (first-seen) order |
| `Analyzer.SortByCountPerm` | services/imageAnalyzer.ts:70 | the sort keeps exactly the buckets it is given, with their multiplicities |
| `Analyzer.SortByCountOrdered` | services/imageAnalyzer.ts:70 | the sorted counts do not increase |
| `Analyzer.SortByCountStable` | services/imageAnalyzer.ts:70 | for each count, the buckets with that count keep their relative order |
| `Analyzer.PaletteOf` | services/imageAnalyzer.ts:70-76 | the palette has `min(#buckets, 10)` entries |
| `Analyzer.AnalyzeImage` | services/imageAnalyzer.ts:38-78 | properties are `{width, height, width * height}`; the histogram is the histogram of the buffer; the palette is the top ten sorted buckets |
| `Analyzer.PaletteItemHex` | services/imageAnalyzer.ts:72-75 | a bucket's hex string is lower-case `#rrggbb` and decodes to `(16r, 16g, 16b)`, the bucket floor |
| `Analyzer.PaletteShape` | services/imageAnalyzer.ts:70-76 | at most 10 entries; counts do not increase; every channel is a multiple of 16 and at most 240 |
| `Analyzer.PaletteIsTopBuckets` | services/imageAnalyzer.ts:62-76 | entry `i` is sorted bucket `i`; its count is the number of samples in that bucket; no bucket left out has a larger count |
| `Analyzer.EmptyImagePalette` | services/imageAnalyzer.ts:60-76 | an image with no pixels gives an empty palette |
| `Analyzer.SolidImagePalette` | services/imageAnalyzer.ts:59-76 | a one-colour image gives exactly one entry: that colour's bucket floor, with count `ceil(pixelCount / sampleRate)` |
| `Analyzer.SolidBuckets` | services/imageAnalyzer.ts:59-68 | a one-colour image with at least one pixel gives a single bucket: that colour's key, counted `ceil(pixelCount / sampleRate)` times |
| `Analyzer.PaletteOfSingle` | services/imageAnalyzer.ts:70-76 | a single bucket gives a one-entry palette made from that bucket |
| `Mosaic.ChannelSums` | services/imageAnalyzer.ts:115-121 | the accumulation loop returns the sum of each colour channel over the tile |
| `Mosaic.PixelSumsAppend` | services/imageAnalyzer.ts:117-121 | channel sums over two runs of whole pixels add up |
| `Mosaic.TileTotalsAreCrop` | services/imageAnalyzer.ts:110-121 | the cropped tile holds `w * h` pixels, and its channel sums are the sums over the tile's pixels in the image |
| `Mosaic.DrawTile` | services/imageAnalyzer.ts:110-131 | the body of the inner loop gives the tile's specified fill: one `fillRect` with the floor-mean colour when the tile has pixels, nothing otherwise |
| `Mosaic.DrawRow` | services/imageAnalyzer.ts:109-135 | the inner loop gives the specified fills of tile row `y`, in column order |
| `Mosaic.PaintRow` | services/imageAnalyzer.ts:109-138 | one uncancelled pass of the outer loop appends the row's fills, the report `(currentRow + 1) / totalRows` and a yield, and keeps the loop invariant |
| `Mosaic.MeanColorSpec` | services/imageAnalyzer.ts:123-127 | each channel of a tile's colour is the floor of its mean: a byte `m` with `m * n <= sum < m * n + n` |
| `Mosaic.SolidMean` | services/imageAnalyzer.ts:123-127 | the mean colour of a one-colour tile is that colour |
| `Mosaic.ReconstructAsMosaic` | services/imageAnalyzer.ts:104-139 | the nested loops produce exactly the trace of the mosaic specification |
| `Mosaic.TileGeometry` | services/imageAnalyzer.ts:107-111 | a tile at `(tx * blockSize, ty * blockSize)` with `w = min(blockSize, W - x)` and `h = min(blockSize, H - y)` is non-empty, inside the image, and holds exactly the pixels whose coordinates divided by `blockSize` are `(tx, ty)`; so tiles are disjoint and cover every pixel |
| `Pixels.CropLength` | services/imageAnalyzer.ts:113-114 | `getImageData(x, y, w, h)` of a region inside the image holds exactly `w * h` whole pixels |
| `Pixels.SolidCrop` | services/imageAnalyzer.ts:113-114 | a crop of a one-colour image is one-colour |
| `Pixels.CeilDivQuotient` | services/imageAnalyzer.ts:104 | `Math.ceil(n / d)` is `(n + d - 1) / d` on naturals |
| `Pixels.FloorDivQuotient` | services/imageAnalyzer.ts:125-127 | `Math.floor(a / n)` is the natural quotient `a / n` |
| `Mosaic.TileFilled` | services/imageAnalyzer.ts:112-131 | `getImageData` of a tile always returns pixels, so every tile is filled with its mean colour |
| `Mosaic.RowTiles` | services/imageAnalyzer.ts:109-135 | a tile row is `ceil(W / blockSize)` fills in column order; fill `tx` is the tile at column `tx * blockSize` |
| `Mosaic.MosaicRunShape` | services/imageAnalyzer.ts:104-139 | the run completes exactly when no poll before a row said cancelled, after `ceil(H / blockSize)` rows; it yields once per row; after row `k` it reports `k / totalRows`; it draws or reports nothing once cancelled |
| `Mosaic.MosaicSteps` | services/imageAnalyzer.ts:104-139 | rows run from the start until the first poll that says cancelled; the run yields once per row run; it completes exactly when all rows ran |
| `Mosaic.MosaicYields` | services/imageAnalyzer.ts:136-138 | the trace yields exactly once per row run |
| `Mosaic.MosaicReports` | services/imageAnalyzer.ts:136-137 | the reports are `k / totalRows` for each row `k` run, in order |
| `Mosaic.MosaicRespects` | services/imageAnalyzer.ts:108-138 | from each row on, the trace draws and reports nothing once the run has been cancelled |
| `Mosaic.MosaicProgress` | services/imageAnalyzer.ts:104-139 | reports increase strictly and lie in `(0, 1]`; `1` is reported exactly when the run completed on an image with at least one row |
| `Mosaic.SolidMosaic` | services/imageAnalyzer.ts:107-131 | in a one-colour image every tile is filled with exactly that colour, for any `blockSize` |
| `Circles.BatchSize` | services/imageAnalyzer.ts:162 | the batch size `ceil(numCircles / 200)` is at least 1 whenever a trial runs (with no circles the loop never consults it) |
| `Circles.CircleTrials` | services/imageAnalyzer.ts:162-187 | the trial loop produces exactly the trace of the trials specification |
| `Circles.ReconstructAsCircles` | services/imageAnalyzer.ts:159-188 | the method clears the canvas to `#111827`, runs the trials, and then reports `1` if they all ran, without polling again |
| `Circles.ReconstructAsCirclesGuarded` | services/imageAnalyzer.ts:183-188 | the same, with the final report guarded by one more poll |
| `Circles.BrightnessRange` | services/imageAnalyzer.ts:174 | luma brightness of a byte colour lies in `[0, 1]` |
| `Circles.RadiusBetween` | services/imageAnalyzer.ts:174-175 | the radius lies between `minRadius` and `maxRadius`, and equals `minRadius` when the two are equal |
| `Circles.RadiusExtremes` | services/imageAnalyzer.ts:175 | black gives `minRadius` and white gives `maxRadius` |
| `Circles.CircleDrawnWhenNonNegative` | services/imageAnalyzer.ts:175-181 | with non-negative radius bounds no circle is skipped |
| `Circles.ColorAtPixel` | services/imageAnalyzer.ts:171-172 | the 1×1 `getImageData` at `(x, y)` reads pixel `y * W + x` |
| `Circles.SampledCircleFacts` | services/imageAnalyzer.ts:167-180 | every circle drawn is centred inside the image, has the colour of the pixel under its centre, and has a non-negative radius between the bounds |
| `Circles.CirclesDrawn` | services/imageAnalyzer.ts:159-181 | the first effect clears the canvas; after it, every drawing is the circle of a centre the run reached |
| `Circles.TrialsDrawn` | services/imageAnalyzer.ts:164-181 | every drawing of the trial loop belongs to a trial the loop ran |
| `Circles.TrialsDrawSampled` | services/imageAnalyzer.ts:167-181 | every circle the trial loop draws is the sampled circle of a centre it reached |
| `Circles.CirclesRunShape` | services/imageAnalyzer.ts:164-187 | at most `numCircles` trials; all of them exactly when no poll said cancelled; yields counted; nothing drawn or reported once cancelled |
| `Circles.CirclesReportsAre` | services/imageAnalyzer.ts:162-188 | the reports are `i / numCircles` for each checkpoint `i % batchSize == 0` reached, then `1` if the run completed |
| `Circles.CirclesProgress` | services/imageAnalyzer.ts:162-188 | reports increase strictly and lie in `[0, 1]`; `1` is reported exactly when every trial ran; every checkpoint reached is reported, and nothing else is |
| `Canvas.BatchedReportsRise` | services/imageAnalyzer.ts:183-188 | batched reports, with a final `1` when the run completed, increase strictly, lie in `[0, 1]`, and contain `1` exactly when the run completed |
| `Canvas.BatchedReportsCheckpoints` | services/imageAnalyzer.ts:183-188 | every checkpoint reached is reported, and every other report is the final `1` |
| `Canvas.CheckpointFractionsRise` | services/imageAnalyzer.ts:240-242 | the checkpoint reports `k / total` rise strictly and stay in `[from / total, 1)` |
| `Canvas.CheckpointFractionsContain` | services/imageAnalyzer.ts:240-242 | every checkpoint `k` passed is reported as `k / total` |
| `Canvas.CheckpointFractionsOnly` | services/imageAnalyzer.ts:240-242 | every checkpoint report comes from some checkpoint passed |
| `Circles.CirclesGuardedRespects` | services/imageAnalyzer.ts:183-188 | with the guard, a run draws and reports nothing once it has been cancelled |
| `Canvas.FramedRespects` | services/imageAnalyzer.ts:183-188 | an opening drawing and a final non-yielding tail around a run that respects cancellation still respect it, as long as the tail is emitted only when the run was not cancelled |
| `Circles.CirclesGuardedReports` | services/imageAnalyzer.ts:183-188 | the guarded run equals the run as written unless the run was cancelled after its last checkpoint; in that case it is the opening clear and the trials only, without the final `1` |
| `Circles.UnpolledExampleTrace` | services/imageAnalyzer.ts:164-188 | the exact trace of a one-circle run superseded during its first yield |
| `Circles.CirclesFinalReportUnpolled` | services/imageAnalyzer.ts:183-188 | as written, a superseded run can still report `1` |
| `PaletteReconstruction.ParsePalette` | services/imageAnalyzer.ts:209 | `map(hexToRgb).filter(Boolean)` keeps at most the palette's length, and only byte colours |
| `PaletteReconstruction.ParsePaletteColors` | services/imageAnalyzer.ts:209 | a colour is parsed exactly when some palette entry decodes to it |
| `PaletteReconstruction.ParsePaletteOfHex` | services/imageAnalyzer.ts:209 | a palette of well-formed hex strings parses entry by entry, with nothing dropped |
| `PaletteReconstruction.NearestIsFirstNearest` | services/imageAnalyzer.ts:213-226 | the scan selects a colour of minimal distance, strictly nearer than every earlier one; it is the only such index |
| `PaletteReconstruction.NearestOfMember` | services/imageAnalyzer.ts:213-226 | a palette colour is its own nearest colour |
| `PaletteReconstruction.FindClosestColor` | services/imageAnalyzer.ts:213-226 | the `minDistance`/`closestColor` loop with strict `<` returns the first nearest palette colour |
| `PaletteReconstruction.ConvertRow` | services/imageAnalyzer.ts:233-239 | one row's inner loop converts exactly that row's pixels in place |
| `PaletteReconstruction.ConvertPixelAt` | services/imageAnalyzer.ts:234-238 | one pass of the inner loop takes the buffer from the first `n` pixels converted to the first `n + 1` (the meaning of a converted prefix is `ConvertedPixel`) |
| `PaletteReconstruction.ConvertRows` | services/imageAnalyzer.ts:228-245 | the row loop produces exactly the rows specification's trace, and leaves the buffer with the rows it finished converted |
| `PaletteReconstruction.ReconstructWithPalette` | services/imageAnalyzer.ts:209-247 | the whole operation, in place: its trace and final buffer match the specification; an empty parsed palette gives no output |
| `PaletteReconstruction.ReconstructWithPaletteGuarded` | services/imageAnalyzer.ts:240-247 | the same, with the final `putImageData`/`onProgress(1)` guarded by one more poll |
| `PaletteReconstruction.ConvertedPixel` | services/imageAnalyzer.ts:233-239 | a converted pixel has its first nearest palette colour; an unconverted pixel keeps its colour; alpha bytes never change |
| `PaletteReconstruction.ConvertedInPalette` | services/imageAnalyzer.ts:209-239 | every converted pixel's colour is the colour of some palette entry, and is the first at minimal Euclidean distance from the original colour |
| `PaletteReconstruction.ConvertedIdempotent` | services/imageAnalyzer.ts:233-239 | converting an already-converted image changes nothing |
| `PaletteReconstruction.PaletteRunShape` | services/imageAnalyzer.ts:231-245 | at most `H` rows; all of them exactly when no poll said cancelled; nothing drawn or reported once cancelled |
| `PaletteReconstruction.RowsSteps` | services/imageAnalyzer.ts:231-245 | rows run until the first poll that says cancelled; the yields are counted; the run completes exactly when all rows ran |
| `PaletteReconstruction.RowsRespect` | services/imageAnalyzer.ts:231-245 | the row loop draws and reports nothing once the run has been cancelled |
| `PaletteReconstruction.RowsReports` | services/imageAnalyzer.ts:240-244 | the row loop reports `y / totalRows` for each row `y` with `y % 10 == 0` that ran, in order |
| `PaletteReconstruction.PaletteOutcome` | services/imageAnalyzer.ts:231-247 | the final image is the original with the pixels of the rows run converted; a completed run has converted every pixel; the final `putImageData` and `onProgress(1)` follow only a completed run, and in the guarded variant only if the last poll also said not cancelled |
| `PaletteReconstruction.PaletteReportsAre` | services/imageAnalyzer.ts:240-247 | the reports are `y / H` for each row `y % 10 == 0` converted, then `1` after the last row |
| `PaletteReconstruction.PaletteProgress` | services/imageAnalyzer.ts:211-247 | an empty palette reports nothing; otherwise reports increase strictly within `[0, 1]`, `1` exactly when all rows were converted, every tenth row is reported, and nothing else is |
| `PaletteReconstruction.PaletteGuardedRespects` | services/imageAnalyzer.ts:240-247 | with the guard, a run draws and reports nothing once it has been cancelled |
| `PaletteReconstruction.PaletteGuardedDiffers` | services/imageAnalyzer.ts:240-247 | the guarded run equals the run as written unless the run was cancelled after its last checkpoint; in that case it omits the final output |
| `PaletteReconstruction.BlackPaletteParses` | services/imageAnalyzer.ts:209 | the one-entry palette `#000000` parses to black |
| `PaletteReconstruction.UnpolledPaletteTrace` | services/imageAnalyzer.ts:231-247 | the exact trace of a one-pixel run superseded during its first yield |
| `PaletteReconstruction.PaletteFinalOutputUnpolled` | services/imageAnalyzer.ts:240-247 | as written, a superseded run can still put its buffer and report `1` |
| `Controller.ReconstructionController.constructor` | components/ImageAnalysisDisplay.tsx:52-57 | initial state: run id 0, not animating, progress 0 |
| `Controller.ReconstructionController.DrawReconstruction` | components/ImageAnalysisDisplay.tsx:59-89 | a non-replay request while animating changes nothing. Any other request installs a fresh run id, and every earlier id is then cancelled, even when the request bails out because the image or canvas is not ready. A ready request sets `isAnimating` and progress 0 and dispatches on the style with that style's settings |
| `Controller.ReconstructionController.SetProgress` | components/ImageAnalysisDisplay.tsx:84-88 | a renderer's report sets the progress and nothing else |
| `Controller.ReconstructionController.Finish` | components/ImageAnalysisDisplay.tsx:92-97 | the current run's end sets `isAnimating = false` and progress 1; a superseded run's end changes nothing |
| `Controller.ApplyAppend` | components/ImageAnalysisDisplay.tsx:59-97 | applying two event sequences one after the other is applying their concatenation |
| `Controller.CurrentIdGrows` | components/ImageAnalysisDisplay.tsx:62-66 | the current run id never decreases |
| `Controller.SupersededStaysCancelled` | components/ImageAnalysisDisplay.tsx:62-66 | a superseded run stays cancelled whatever happens afterwards |
| `Controller.SupersededFinishIgnored` | components/ImageAnalysisDisplay.tsx:92-97 | a superseded run's `finally` block leaves the state unchanged, whatever happened in between |
| `Controller.Reports` | components/ImageAnalysisDisplay.tsx:84-88 | a run's reports become one `setProgress` event per value, in order |
| `Controller.ReportsKeepRun` | components/ImageAnalysisDisplay.tsx:84-88 | progress reports keep the run id and `isAnimating`; the progress is the last value reported |
| `Controller.UninterruptedRun` | components/ImageAnalysisDisplay.tsx:59-97 | a ready request that nothing supersedes starts animating at 0; after any reports, its end leaves the state idle at progress 1 |
| `Controller.AfterYieldsGrows` | components/ImageAnalysisDisplay.tsx:62-66 | the run id after more yields is never smaller |
| `Controller.CancelledForGood` | components/ImageAnalysisDisplay.tsx:62-66 | once `isCancelled()` answers true to a run, it answers true for good, which the reconstructors' oracles rely on |
| `Controller.StaleReportReachesNewRun` | components/ImageAnalysisDisplay.tsx:84-97 | `setProgress` is not tied to a run: a superseded run's report of `1` shows up as the progress of the newer run while it is still animating |

## Left out

- Image loading and decoding (`new Image`, `onload`/`onerror`, canvases, `drawImage`,
  `getImageData` of the whole image) are not modelled. Each operation takes the decoded RGBA
  bytes, with `width` and `height`. The `onerror` rejection of `analyzeImage` is therefore
  not modelled either.
- Mosaic tiles and the circle pixel are read with `getImageData`. This is modelled as a crop of
  the decoded buffer (`Pixels.Crop`). The per-tile and per-circle `try/catch` is modelled only
  where an error is certain: a negative radius makes `arc` throw, so that circle is not drawn.
  Transient surface errors are not modelled.
- `requestAnimationFrame` scheduling is a `Yield` marker in the trace. `isCancelled()` is an
  oracle over the number of yields passed. `Controller.CancelledForGood` shows that the
  controller's answers are monotone in that number.
- `Math.random()` centres are the parameter `positions`, and each centre must lie inside the
  image. Floating point is Dafny `real`, so brightness and radius are exact. The palette
  distance is the squared integer distance, which gives the same first nearest colour as
  `Math.sqrt` of it.
- `Date.now()` run ids are a generation counter. The source's timestamps can coincide for two
  requests in the same millisecond. The second request would then fail to cancel the first;
  the model does not show this.
- `cancelAnimationFrame(animationFrameId.current)` is not modelled. It is passed a run id, not
  a frame handle, so it has no effect.
- Resizing and clearing the visible canvas before a run (`canvas.width = …`, `clearRect`) is
  not part of the trace.
- The readiness checks of `drawReconstruction` (image loaded, non-zero height, canvas and 2D
  context present) are one boolean parameter `ready`.
- Canvas pixel values are not modelled: there is no model of what `fillRect`, `arc` and
  `putImageData` do to the canvas. The trace records the commands only.
- Mosaic: `blockSize` must be at least 1. With 0 the source's loop never ends.
- The React state, effects, sliders and buttons, and the other components and `App.tsx`, are
  not part of this model. `types.ts` contributes only the datatypes `HistogramDataPoint`,
  `ColorPaletteItem`, `ImageProperties` and `AnalysisResult`.

## Findings

| source | as written | input that shows it | evidently intended | confidence | as-written member | corrected member |
|---|---|---|---|---|---|---|
| services/imageAnalyzer.ts:183-188 | after the last trial's checkpoint and yield, the loop ends and `onProgress(1)` runs without polling `isCancelled()` | a 1×1 image and one circle; a newer run starts during the yield after circle 0; the superseded run still reports `1` | a superseded run reports nothing after being cancelled | medium, not executed | `Circles.CirclesFinalReportUnpolled` | `Circles.CirclesGuardedRespects` |
| services/imageAnalyzer.ts:240-247 | after the last row's checkpoint and yield, the loop ends and `putImageData` and `onProgress(1)` run without polling `isCancelled()` | a 1×1 image and the palette `#000000`; a newer run starts during the yield after row 0; the superseded run still draws its buffer over the canvas and reports `1` | a superseded run draws and reports nothing after being cancelled | medium, not executed | `PaletteReconstruction.PaletteFinalOutputUnpolled` | `PaletteReconstruction.PaletteGuardedRespects` |

The `onProgress` callback is `setProgress` itself, with no run-id check. So in both cases the
newer run's progress jumps to 1 while it is still animating (`Controller.StaleReportReachesNewRun`).
