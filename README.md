# JPureThermal per-frame analyser, modelled in Dafny

JPureThermal shows the video of a PureThermal (FLIR Lepton) thermal camera fed through a GStreamer
`AppSink`. Each frame's analysis runs inside the sink's `newSample` callback, in three near-duplicate
listeners:

- `PureThermalAppSinkListener` works on 16-bit samples. It converts each sample `u` to degrees Celsius,
  `(u - 27315) * 0.01`, and tracks the frame's minimum and maximum. It moves its display range
  `[pixMin, pixMax]` a quarter of the way toward those extremes. It then rebuilds 128 equal-width
  bucket edges over the range and refills three counts:
  - a histogram;
  - a row projection (row x bucket);
  - a column projection (bucket x column, with the bucket index inverted).

  Every projection cell is capped at 16. A frames-per-second counter resets after every second.
- `GstVideoComponentTest.AppSinkListener` does the same on 8-bit samples `u / 256`, with these
  differences:
  - its range starts at [0, 1] and moves 1/32 of the way;
  - its pass reads exactly the pixel count of bytes rather than the whole buffer;
  - it skips a buffer that fails to map;
  - its projections are not capped.
- `GstVideoComponentThermal.AppSinkListener` converts 16-bit samples into its image. It counts them
  into a 512-bucket histogram over fixed edges: from -10 degrees, in steps of 60/512 degrees. Every
  count starts each frame at 1.

Each listener is a class whose fields are the listener's state. In the test and thermal components,
some state belongs to the enclosing component; those fields are merged into the listener class here:
the dimensions in both, and the display range and pixel count in the test component. The loops
work in place on `array`/`array2` fields. Each method is proved against specification functions:
- `InBucket` is the half-open bucket rule `[e[k], e[k+1])`, whose scan stops before the top bucket;
- `RowCount`, `ColCount` and `GridCount` count values per bucket;
- `TowardMin` and `TowardMax` are the one-pole range update;
- `FrameMin` and `FrameMax` are the extremes;
- `Tick` is the FPS counter step.

Lemmas about these functions state what the analysis guarantees: the top bucket stays empty,
histogram totals, agreement between the projections and the histogram, ordered ranges and
increasing edges, and the counter's behaviour over a run of frames.

How the model represents the source:
- Each callback's inputs are parameters: the frame's width and height from the caps, the samples as
  unsigned integers, and the clock reading in milliseconds.
- Java `double` is Dafny `real`.
- `Double.MIN_VALUE` and `Double.MAX_VALUE` are their literal values. `Double.MIN_VALUE` is the
  smallest *positive* double, so a frame's maximum never drops below it.
- Some frames end the callback with an exception part-way through. This happens when a 16-bit frame
  carries more samples than the image has cells, or when an 8-bit buffer is shorter than the pixel
  count. The model returns `completed = false` for such frames and states exactly the state the
  exception leaves behind.

## Model

| member | source | states |
|---|---|---|
| Calibration.Celsius | JPureThermal/src/jpurethermal/PureThermalAppSinkListener.java:73-74 | a 16-bit sample becomes a temperature in [-273.15, 382.20] from which the sample is recovered (floor of t*100 plus 27315) |
| Calibration.Intensity | JPureThermal/src/tests/GstVideoComponentTest.java:169-170 | an 8-bit sample becomes a value in [0, 255/256] from which the byte is recovered (floor of v*256) |
| Calibration.FrameMax | JPureThermal/src/jpurethermal/PureThermalAppSinkListener.java:75 | the running maximum after n samples, folding the strict > test from a start value |
| Calibration.FrameMin | JPureThermal/src/jpurethermal/PureThermalAppSinkListener.java:76 | the running minimum after n samples, folding the strict < test from a start value |
| Calibration.FrameMaxIsMaximum | JPureThermal/src/jpurethermal/PureThermalAppSinkListener.java:75 | the running maximum bounds the start value and every scanned value from above, and equals one of them |
| Calibration.FrameMinIsMinimum | JPureThermal/src/jpurethermal/PureThermalAppSinkListener.java:76 | the running minimum bounds the start value and every scanned value from below, and equals one of them |
| Calibration.ScannedExtremes | JPureThermal/src/jpurethermal/PureThermalAppSinkListener.java:68-76 | on a non-empty frame min <= max, min is below Double.MAX_VALUE, and max is never below the positive Double.MIN_VALUE |
| Calibration.FlatIndex | JPureThermal/src/jpurethermal/PureThermalAppSinkListener.java:77 | flat index i addresses exactly the cell (i / W, i % W), so distinct samples land in distinct cells |
| Calibration.FlatInRange | JPureThermal/src/jpurethermal/PureThermalAppSinkListener.java:77 | every cell of an H x W image has a flat index below H * W |
| Calibration.Scan | JPureThermal/src/jpurethermal/PureThermalAppSinkListener.java:72-78 | after the pass, each cell at flat index below n holds its own sample's value and every other cell is unchanged; the returned extremes are the running min/max over those n samples |
| Calibration.Store | JPureThermal/src/jpurethermal/GstVideoComponentThermal.java:146-149 | after the pass, each cell at flat index below n holds its sample in degrees Celsius and every other cell is unchanged |
| DisplayRange.TowardMax | JPureThermal/src/jpurethermal/PureThermalAppSinkListener.java:82-83 | both branches compute pixMax + (max - pixMax)/k; the result lies between the old value and its target, the distance to the target shrinks by (k-1)/k, and the value stays put iff it already equals the target |
| DisplayRange.TowardMin | JPureThermal/src/jpurethermal/PureThermalAppSinkListener.java:84-85 | both branches compute pixMin + (min - pixMin)/k; the result lies between the old value and its target, the distance to the target shrinks by (k-1)/k, and the value stays put iff it already equals the target |
| DisplayRange.RangeStaysOrdered | JPureThermal/src/jpurethermal/PureThermalAppSinkListener.java:82-85 | an ordered range updated with ordered frame extremes stays ordered, and with k > 1 a non-empty range stays non-empty |
| Binning.Edges | JPureThermal/src/jpurethermal/PureThermalAppSinkListener.java:88-91 | N edges, edge i being lo + i * (hi - lo) / N |
| Binning.InBucket | JPureThermal/src/jpurethermal/PureThermalAppSinkListener.java:105-106 | the bucket test: k below N - 1 (the loop bound) and e[k] <= v < e[k + 1] |
| Binning.RowCount | JPureThermal/src/jpurethermal/PureThermalAppSinkListener.java:104-107 | the number of a row's first n values in bucket k, at most n |
| Binning.ColCount | JPureThermal/src/jpurethermal/PureThermalAppSinkListener.java:103-109 | the number of a column's first n values in bucket k, at most n |
| Binning.GridCount | JPureThermal/src/jpurethermal/PureThermalAppSinkListener.java:103-107 | the number of values in the first n rows in bucket k |
| Binning.Bump | JPureThermal/src/jpurethermal/PureThermalAppSinkListener.java:108-109 | a guarded increment grows a cell by at most 1, only on a hit, never once the cell has reached the cap, and always on a hit without a cap |
| Binning.EdgesIncreasing | JPureThermal/src/jpurethermal/PureThermalAppSinkListener.java:88-91 | the equal-width edges pixMin + i*(pixMax-pixMin)/N are strictly increasing iff pixMin < pixMax |
| Binning.CollapsedRangeHasNoBucket | JPureThermal/src/jpurethermal/PureThermalAppSinkListener.java:105-106 | when pixMax <= pixMin no value satisfies the bucket test for any k |
| Binning.BucketUnique | JPureThermal/src/jpurethermal/PureThermalAppSinkListener.java:105-106 | over increasing edges a value passes the bucket test for at most one k |
| Binning.GridCountZero | JPureThermal/src/jpurethermal/PureThermalAppSinkListener.java:105 | a bucket that no value can enter has count 0 over any rows of the image |
| Binning.TopBucketEmpty | JPureThermal/src/jpurethermal/PureThermalAppSinkListener.java:105 | the top bucket, which the k loop never reaches, has count 0 in the histogram, in every row and in every column |
| Binning.CollapsedRangeCountsNothing | JPureThermal/src/jpurethermal/PureThermalAppSinkListener.java:88-91 | over edges built from pixMax <= pixMin every bucket count of the image is 0 |
| Binning.BumpCapped | JPureThermal/src/jpurethermal/PureThermalAppSinkListener.java:108-109 | one guarded increment of a cell holding min(n, 16) leaves min(n + hit, 16), and without a cap n + hit |
| Binning.CellStep | JPureThermal/src/jpurethermal/PureThermalAppSinkListener.java:106-109 | counting cell (r, c) advances row r's capped count past column c and column c's capped count past row r |
| Binning.Ramp | JPureThermal/src/jpurethermal/PureThermalAppSinkListener.java:57-60 | a fresh pixel scale of length n holding 0, 1, ..., n - 1 |
| Binning.Fill | JPureThermal/src/jpurethermal/PureThermalAppSinkListener.java:94 | every entry of the array holds the fill value |
| Binning.FillRows | JPureThermal/src/jpurethermal/PureThermalAppSinkListener.java:95-100 | every cell of the grid holds the fill value |
| Binning.FillEdges | JPureThermal/src/jpurethermal/PureThermalAppSinkListener.java:88-91 | the edge array equals the N equal-width edges from lo over [lo, hi) |
| Binning.BinPixel | JPureThermal/src/jpurethermal/PureThermalAppSinkListener.java:105-110 | one value is added to the histogram at its bucket, to row r of the row projection at its bucket and to column c of the column projection at the inverted bucket, each projection cell under the ceiling; nothing else changes |
| Binning.BinCell | JPureThermal/src/jpurethermal/PureThermalAppSinkListener.java:104-111 | after cell (r, c), the histogram includes row r up to column c, row r of the row projection holds the capped counts of its first c + 1 cells, column c of the column projection holds the capped counts of its first r + 1 cells, and other rows and columns are unchanged |
| Binning.AccumulateRow | JPureThermal/src/jpurethermal/PureThermalAppSinkListener.java:104-112 | after row r, the histogram includes rows 0..r, the row projection holds the capped counts of rows 0..r (later rows still 0), and each column-projection cell holds its column's capped count over rows 0..r |
| Binning.AccumulateRows | JPureThermal/src/jpurethermal/PureThermalAppSinkListener.java:103-113 | starting from zeroed projections, the histogram gains each bucket's image count, and each projection cell holds its row's or column's count in its bucket (inverted for columns), under the ceiling |
| Binning.Accumulate | JPureThermal/src/tests/GstVideoComponentTest.java:200-210 | the triple loop over the image array: the histogram gains each bucket's image count, and each projection cell holds its row's or column's count in its bucket (inverted for columns), under the ceiling |
| Binning.BinValue | JPureThermal/src/jpurethermal/GstVideoComponentThermal.java:156-159 | one value is added to the histogram at every bucket below the top whose half-open range holds it (over increasing edges at most one, by BucketUnique) |
| Binning.AccumulateHistogram | JPureThermal/src/jpurethermal/GstVideoComponentThermal.java:154-161 | each histogram entry gains the number of image cells in its bucket |
| BinningTotals.BucketSumBelow | JPureThermal/src/jpurethermal/PureThermalAppSinkListener.java:105-107 | over increasing edges the first m buckets hold a value once if e[0] <= v < e[m] and never otherwise |
| BinningTotals.CountedOnce | JPureThermal/src/jpurethermal/PureThermalAppSinkListener.java:105-107 | over increasing edges a value is counted exactly once if it lies in [e[0], e[N-1]) and not at all otherwise |
| BinningTotals.RowInRange | JPureThermal/src/jpurethermal/PureThermalAppSinkListener.java:104 | a row has no more in-range values than values |
| BinningTotals.RowBucketTotal | JPureThermal/src/tests/GstVideoComponentTest.java:205 | summed over all buckets, a row's counts equal the number of its values in [e[0], e[N-1]) |
| BinningTotals.GridTotal | JPureThermal/src/jpurethermal/PureThermalAppSinkListener.java:103-107 | summed over all buckets, the image's counts equal the number of its cells in [e[0], e[N-1]) |
| BinningTotals.InRangeAtMostAll | JPureThermal/src/jpurethermal/PureThermalAppSinkListener.java:103-104 | at most H * W cells are in range |
| BinningTotals.HistogramSum | JPureThermal/src/jpurethermal/GstVideoComponentThermal.java:152-161 | a histogram whose entries are a base value plus the bucket counts sums to N * base plus the counts' total |
| BinningTotals.CountsSum | JPureThermal/src/jpurethermal/PureThermalAppSinkListener.java:94-107 | a histogram of bucket counts alone sums to the counts' total |
| BinningTotals.HistogramTotal | JPureThermal/src/jpurethermal/PureThermalAppSinkListener.java:94-107 | over increasing edges, a histogram zeroed and then filled sums to the number of cells in [e[0], e[N-1]), at most H * W |
| BinningTotals.ProjectionsAgree | JPureThermal/src/tests/GstVideoComponentTest.java:204-206 | counting a bucket column by column gives the same number as counting it row by row |
| BinningTotals.ColumnOfRowCounts | JPureThermal/src/tests/GstVideoComponentTest.java:205 | a grid column holding each row's count in bucket k sums to the image's count in bucket k |
| BinningTotals.RowOfColumnCounts | JPureThermal/src/tests/GstVideoComponentTest.java:206 | a grid row holding each column's count in bucket k sums to the total of those column counts |
| FrameRate.Tick | JPureThermal/src/jpurethermal/PureThermalAppSinkListener.java:125-132 | fps drops to 0 iff more than 1000 ms have passed since the last reset, and then the reset time is now; otherwise the frame is counted and the reset time stays put |
| FrameRate.RunAppend | JPureThermal/src/jpurethermal/PureThermalAppSinkListener.java:125-132 | running the counter over two stretches of frames one after the other equals running it over both together |
| FrameRate.RunWithinWindow | JPureThermal/src/jpurethermal/PureThermalAppSinkListener.java:126-131 | frames all within a second of the last reset are all counted and the reset time does not move |
| FrameRate.RunResetTime | JPureThermal/src/jpurethermal/PureThermalAppSinkListener.java:126-129 | the reset time never moves back and is always the start time or one of the frame times |
| FrameRate.CountsSinceReset | JPureThermal/src/jpurethermal/PureThermalAppSinkListener.java:126-131 | after a reset at frame i followed only by frames within a second, the counter holds frame i's time and the number of frames after it (frame i itself is not counted) |
| PureThermal.Scanned | JPureThermal/src/jpurethermal/PureThermalAppSinkListener.java:72-77 | the extremes take in all samples when they fit in W * H + 1, otherwise exactly W * H + 1 of them (the write of sample W * H is the one that fails) |
| PureThermal.EdgesStayIncreasing | JPureThermal/src/jpurethermal/PureThermalAppSinkListener.java:82-91 | after a non-empty frame a range with pixMin < pixMax keeps pixMin < pixMax, so the 128 rebuilt edges are strictly increasing |
| PureThermal.EmptyFrameInvertsRange | JPureThermal/src/jpurethermal/PureThermalAppSinkListener.java:68-85 | after a frame with no samples the range is inverted (pixMax below pixMin) iff the old range was narrower than a third of Double.MAX_VALUE - Double.MIN_VALUE |
| PureThermal.EmptyFrameCountsNothing | JPureThermal/src/jpurethermal/PureThermalAppSinkListener.java:68-107 | after such an empty frame the rebuilt edges give a zero count in every bucket |
| PureThermal.PureThermalAppSinkListener.TopBucketAndCap | JPureThermal/src/jpurethermal/PureThermalAppSinkListener.java:105-109 | after binning, histogramY[127], horProjection[r][127] and vertProjection[0][c] are 0, and every projection cell lies in [0, 16] |
| PureThermal.PureThermalAppSinkListener.HistogramAccounts | JPureThermal/src/jpurethermal/PureThermalAppSinkListener.java:94-107 | after binning with pixMin < pixMax the histogram sums to the number of cells in [pixMin, edge 127), at most W * H; with pixMax <= pixMin it is all zeros |
| PureThermal.PureThermalAppSinkListener.constructor | JPureThermal/src/jpurethermal/PureThermalAppSinkListener.java:17-36 | initial state: no dimensions, range [0, 10], extremes at Double.MAX_VALUE / Double.MIN_VALUE, zero fps at the start time, 8 x 8 image |
| PureThermal.PureThermalAppSinkListener.ResizeScales | JPureThermal/src/jpurethermal/PureThermalAppSinkListener.java:57-60 | fresh pixel scales of lengths H and W holding their own indices |
| PureThermal.PureThermalAppSinkListener.ResizeGrids | JPureThermal/src/jpurethermal/PureThermalAppSinkListener.java:52-56 | new dimensions, and fresh, distinct, zeroed arrays: image H x W, row projection H x 128, column projection 128 x W |
| PureThermal.PureThermalAppSinkListener.Reallocate | JPureThermal/src/jpurethermal/PureThermalAppSinkListener.java:51-61 | after a dimension change every dimension-dependent array is fresh, zeroed and shaped for the new W x H, and the listener is valid |
| PureThermal.PureThermalAppSinkListener.ScanFrame | JPureThermal/src/jpurethermal/PureThermalAppSinkListener.java:67-78 | each cell with a sample holds its temperature and the others are unchanged; min and max are the extremes of the samples taken in; every written cell lies between them; the pass completes iff the samples fit in W * H |
| PureThermal.PureThermalAppSinkListener.AdaptRange | JPureThermal/src/jpurethermal/PureThermalAppSinkListener.java:82-85 | the range ends move a quarter of the way toward the frame's extremes |
| PureThermal.PureThermalAppSinkListener.Bin | JPureThermal/src/jpurethermal/PureThermalAppSinkListener.java:88-113 | edges over the current range, histogram = per-bucket image counts, projection cells = per-row and per-column counts capped at 16 |
| PureThermal.PureThermalAppSinkListener.CountFrame | JPureThermal/src/jpurethermal/PureThermalAppSinkListener.java:125-132 | the counter takes one Tick at the given time |
| PureThermal.PureThermalAppSinkListener.Refresh | JPureThermal/src/jpurethermal/PureThermalAppSinkListener.java:80-132 | range update, then binning over the new range, then one counter Tick |
| PureThermal.PureThermalAppSinkListener.Analyse | JPureThermal/src/jpurethermal/PureThermalAppSinkListener.java:63-132 | a completed pass updates the image, range, histogram, projections and counter as specified; an overlong frame updates the image and extremes but leaves the range, counts and counter as they were |
| PureThermal.PureThermalAppSinkListener.NewSample | JPureThermal/src/jpurethermal/PureThermalAppSinkListener.java:43-135 | a whole frame: arrays are replaced iff the dimensions change, then every effect of Analyse on the resulting arrays |
| GstVideoComponentTest.Fetched | JPureThermal/src/tests/GstVideoComponentTest.java:168-169 | the pass reads min(available, pixCount) bytes, and reads all pixCount iff the buffer holds them |
| GstVideoComponentTest.AppSinkListener.TopBucketEmpty | JPureThermal/src/tests/GstVideoComponentTest.java:192-206 | after binning, histogramY[127], horProjection[r][127] and vertProjection[0][c] are 0 |
| GstVideoComponentTest.AppSinkListener.ProjectionTotals | JPureThermal/src/tests/GstVideoComponentTest.java:200-210 | uncapped projections agree with the histogram: column k of the row projection and row 127 - k of the column projection both sum to histogramY[k] |
| GstVideoComponentTest.AppSinkListener.HistogramAccounts | JPureThermal/src/tests/GstVideoComponentTest.java:192-210 | after binning with pixMin < pixMax the histogram sums to the number of cells in [pixMin, edge 127), at most W * H; with pixMax <= pixMin it is all zeros |
| GstVideoComponentTest.AppSinkListener.constructor | JPureThermal/src/tests/GstVideoComponentTest.java:122-133 | initial state: no dimensions and pixel count 0, range [0, 1], extremes at Double.MAX_VALUE / Double.MIN_VALUE, zero fps at the start time |
| GstVideoComponentTest.AppSinkListener.ResizeScales | JPureThermal/src/tests/GstVideoComponentTest.java:154-157 | fresh pixel scales of lengths H and W holding their own indices |
| GstVideoComponentTest.AppSinkListener.ResizeGrids | JPureThermal/src/tests/GstVideoComponentTest.java:148-153 | new dimensions, pixCount = H * W, and fresh, distinct, zeroed arrays shaped for them |
| GstVideoComponentTest.AppSinkListener.Reallocate | JPureThermal/src/tests/GstVideoComponentTest.java:147-158 | after a dimension change every dimension-dependent array is fresh, zeroed and shaped, pixCount = H * W, and the listener is valid |
| GstVideoComponentTest.AppSinkListener.ScanFrame | JPureThermal/src/tests/GstVideoComponentTest.java:164-175 | each cell with a byte holds its intensity and the others are unchanged; min and max are the extremes of the bytes read; the pass completes iff the buffer holds pixCount bytes |
| GstVideoComponentTest.AppSinkListener.AdaptRange | JPureThermal/src/tests/GstVideoComponentTest.java:178-181 | the range ends move 1/32 of the way toward the frame's extremes |
| GstVideoComponentTest.AppSinkListener.Bin | JPureThermal/src/tests/GstVideoComponentTest.java:184-210 | edges over the current range, histogram = per-bucket image counts, projection cells = exact per-row and per-column counts |
| GstVideoComponentTest.AppSinkListener.CountFrame | JPureThermal/src/tests/GstVideoComponentTest.java:222-229 | the counter takes one Tick at the given time |
| GstVideoComponentTest.AppSinkListener.Refresh | JPureThermal/src/tests/GstVideoComponentTest.java:178-210 | range update, then binning over the new range |
| GstVideoComponentTest.AppSinkListener.Analyse | JPureThermal/src/tests/GstVideoComponentTest.java:164-214 | a completed pass updates the image, range, histogram and projections as specified; a short buffer updates the image prefix and extremes but leaves range and counts as they were |
| GstVideoComponentTest.AppSinkListener.Consume | JPureThermal/src/tests/GstVideoComponentTest.java:160-229 | an unmapped buffer changes only the counter; a mapped one is analysed; the counter ticks iff the pass did not stop short |
| GstVideoComponentTest.AppSinkListener.NewSample | JPureThermal/src/tests/GstVideoComponentTest.java:139-232 | a whole frame: arrays are replaced iff the dimensions change, then every effect of Consume on the resulting arrays |
| GstVideoComponentTest.AppSinkListener.NewPreroll | JPureThermal/src/tests/GstVideoComponentTest.java:235-261 | the same resize rule as a frame, and nothing else: range, histogram, extremes and counter are outside its frame |
| GstVideoComponentThermal.AppSinkListener.BaseCountFloor | JPureThermal/src/jpurethermal/GstVideoComponentThermal.java:152-158 | after counting every entry is at least 1 and histogramY[511] is exactly 1 |
| GstVideoComponentThermal.AppSinkListener.HistogramAccounts | JPureThermal/src/jpurethermal/GstVideoComponentThermal.java:120-161 | after counting the histogram sums to 512 plus the number of cells in [-10, edge 511), at most 512 + W * H |
| GstVideoComponentThermal.AppSinkListener.constructor | JPureThermal/src/jpurethermal/GstVideoComponentThermal.java:110-125 | the 512 edges are -10 + i * 60/512, with no dimensions and zero fps at the start time |
| GstVideoComponentThermal.AppSinkListener.ResizeImage | JPureThermal/src/jpurethermal/GstVideoComponentThermal.java:135-139 | new dimensions and a fresh zeroed H x W image; only those fields change |
| GstVideoComponentThermal.AppSinkListener.StoreFrame | JPureThermal/src/jpurethermal/GstVideoComponentThermal.java:145-149 | each cell with a sample holds its temperature and the others are unchanged; the pass completes iff the samples fit in W * H |
| GstVideoComponentThermal.AppSinkListener.Count | JPureThermal/src/jpurethermal/GstVideoComponentThermal.java:152-161 | each entry holds 1 plus the number of image cells in its bucket of the fixed edges |
| GstVideoComponentThermal.AppSinkListener.CountFrame | JPureThermal/src/jpurethermal/GstVideoComponentThermal.java:168-175 | the counter takes one Tick at the given time |
| GstVideoComponentThermal.AppSinkListener.NewSample | JPureThermal/src/jpurethermal/GstVideoComponentThermal.java:128-178 | a whole frame: the image is replaced iff the dimensions change and then holds the samples; a completed pass recounts the histogram and ticks the counter; an overlong frame leaves both as they were; the edges are never written |
| GstVideoComponentThermal.AppSinkListener.NewPreroll | JPureThermal/src/jpurethermal/GstVideoComponentThermal.java:181-191 | the same resize rule as a frame, and nothing else |

## Left out

- GStreamer itself is not modelled: pulling the sample, parsing the caps, mapping the buffer into a
  `ByteBuffer` or `ShortBuffer` view (including its byte order), `unmap` and `dispose`. A frame is
  given as its width, its height and its samples as unsigned integers.
- The width and height are taken to be positive, as the video caps deliver them; `newPreroll` has no
  such requirement.
- The chart datasets (`DefaultDataSet.set` and the getters) hand arrays to a charting library that is
  not part of this model. The FPS line printed to standard output is left out as well.
- `System.currentTimeMillis` is left out: each clock reading is a parameter.
- IEEE-754 rounding is not modelled: doubles are reals. `Double.MIN_VALUE` and `Double.MAX_VALUE` are
  kept as their literal values.
- Java `int` overflow of `h * w` and `long` overflow of the clock are not modelled; integers are
  unbounded.
- Delivery of callbacks on GStreamer threads, and concurrent readers of the arrays, are not modelled.
- A Java `double[][]` is modelled as a rectangular `array2`. The source only ever allocates these
  arrays rectangular, so no row is ever shared or jagged.
- A sample count different from W * H is not rejected by the code.
  - Fewer samples leave the remaining cells as they were.
  - In the 16-bit listeners, more samples end the callback with an out-of-bounds write at sample W * H.
    That write happens after the earlier cells are written (and, in `PureThermalAppSinkListener`,
    after the sample has entered the extremes).
  - In the 8-bit listener, a buffer shorter than the pixel count ends the callback at the first
    missing byte.
  - The model returns `completed = false` with the state the exception leaves behind. It does not
    raise an error.
- In `PureThermalAppSinkListener` a frame with no samples leaves min at `Double.MAX_VALUE` and max at
  `Double.MIN_VALUE`. The range update then lifts pixMin by a quarter of `Double.MAX_VALUE` and pulls
  pixMax toward 0, which inverts the range. That frame and many after it count nothing. The model
  computes this exactly (`EmptyFrameInvertsRange`, `EmptyFrameCountsNothing`), and so
  `ScannedExtremes` and `EdgesStayIncreasing` require at least one sample. In the test component an
  empty mapped buffer with a non-zero pixel count stops the pass at its first byte, so the range is
  not updated.
- PureThermal.PureThermalAppSinkListener.NewSample and GstVideoComponentThermal.AppSinkListener.NewSample:
  the null check on the `ShortBuffer` view never fails, because `asShortBuffer` never returns null.
  A null `ByteBuffer` from `map` would end the callback with a `NullPointerException`; that case is
  not modelled. In the test component the `ByteBuffer` itself is checked, and an unmapped buffer is
  modelled (`MappedBuffer.Unmapped`).
- The initial display range differs between the listeners: `[0, 10]` in `PureThermalAppSinkListener`
  and `[0, 1]` in the test component. Each class keeps its own.
