/** The 8-bit test listener: on every frame it reads the first W * H bytes as intensities
    u / 256, pulls its display range 1/32 of the way toward the frame's extremes, rebuilds
    128 equal-width bucket edges over that range, and refills the histogram and the two
    projection grids, whose cells are not capped. The range and the pixel count belong to
    the enclosing component in the source; here they are fields of the listener. */
module GstVideoComponentTest {
  import opened Calibration
  import opened DisplayRange
  import opened Binning
  import opened FrameRate
  import opened BinningTotals

  /** Number of histogram buckets, edges and projection rows or columns. */
  const HistogramResolution: nat := 128

  /** The top bucket, which the scan over k never reaches. */
  const TopBucket: nat := HistogramResolution - 1

  /** The display range moves 1/RangeDivisor of the way toward the frame's extremes. */
  const RangeDivisor: nat := 32

  /** What mapping a frame's buffer yields: nothing (a null byte buffer), or its bytes as
      unsigned values. */
  datatype MappedBuffer = Unmapped | Mapped(bytes: seq<int>)

  /** Number of bytes the pass reads when the image has pixCount cells and the buffer holds
      `available` bytes: all pixCount when they are there; otherwise the read of byte number
      `available` fails and the pass stops after the bytes it did read. */
  function Fetched(available: nat, pixCount: nat): (n: nat)
    ensures n <= available && n <= pixCount
    ensures n == pixCount <==> pixCount <= available
    ensures n == available || n == pixCount
  {
    if pixCount <= available then pixCount else available
  }

  class AppSinkListener {
    var bufferWidth: nat
    var bufferHeight: nat
    var pixCount: nat
    var pixMin: real
    var pixMax: real
    var lastTimeMs: int
    var nowTimeMs: int
    var fps: nat
    var histogramX: array<real>
    var histogramY: array<real>
    var image: array2<real>
    var horProjection: array2<real>
    var vertProjection: array2<real>
    var vertPixelScale: array<real>
    var horPixelScale: array<real>
    var min: real
    var max: real

    /** The arrays fit the current dimensions: the image is H x W, the row projection
        H x 128, the column projection 128 x W, and the pixel scales count 0 .. H - 1 and
        0 .. W - 1. */
    predicate Shaped()
      reads this, vertPixelScale, horPixelScale
    {
      image.Length0 == bufferHeight && image.Length1 == bufferWidth
      && horProjection.Length0 == bufferHeight && horProjection.Length1 == HistogramResolution
      && vertProjection.Length0 == HistogramResolution && vertProjection.Length1 == bufferWidth
      && vertPixelScale.Length == bufferHeight && horPixelScale.Length == bufferWidth
      && (forall i :: 0 <= i < bufferHeight ==> vertPixelScale[i] == i as real)
      && (forall i :: 0 <= i < bufferWidth ==> horPixelScale[i] == i as real)
    }

    /** What the binning leaves: edges over the display range, the histogram holding each
        bucket's count over the whole image, row-projection cell (r, k) row r's count in
        bucket k, and column-projection cell (j, c) column c's count in bucket 127 - j. */
    ghost predicate Binned()
      reads this`pixMin, this`pixMax, this`bufferWidth, this`bufferHeight, this`image
      reads this`histogramX, this`histogramY, this`horProjection, this`vertProjection
      reads image, histogramX, histogramY, horProjection, vertProjection
    {
      histogramX.Length == HistogramResolution && histogramY.Length == HistogramResolution
      && horProjection.Length0 == bufferHeight && horProjection.Length1 == HistogramResolution
      && vertProjection.Length0 == HistogramResolution && vertProjection.Length1 == bufferWidth
      && image.Length0 == bufferHeight && image.Length1 == bufferWidth
      && histogramX[..] == Edges(pixMin, pixMax, HistogramResolution)
      && (forall k :: 0 <= k < HistogramResolution ==>
            histogramY[k] == GridCount(Grid(image), bufferHeight, histogramX[..], k) as real)
      && (forall r, k :: 0 <= r < bufferHeight && 0 <= k < HistogramResolution ==>
            horProjection[r, k] == Capped(RowCount(Grid(image)[r], bufferWidth, histogramX[..], k), Unbounded) as real)
      && (forall j, c :: 0 <= j < HistogramResolution && 0 <= c < bufferWidth ==>
            vertProjection[j, c]
              == Capped(ColCount(Grid(image), c, bufferHeight, histogramX[..], HistogramResolution - 1 - j), Unbounded) as real)
    }

    /** After binning, the top bucket is empty everywhere: histogram entry 127, column 127
        of the row projection and row 0 of the column projection are 0. */
    lemma TopBucketEmpty()
      requires Binned()
      ensures histogramY[TopBucket] == 0.0
      ensures forall r :: 0 <= r < bufferHeight ==> horProjection[r, TopBucket] == 0.0
      ensures forall c :: 0 <= c < bufferWidth ==> vertProjection[0, c] == 0.0
    {
      var px, e := Grid(image), histogramX[..];
      GridCountZero(px, bufferHeight, e, TopBucket);
      forall r | 0 <= r < bufferHeight
        ensures horProjection[r, TopBucket] == 0.0
      {
        RowCountZero(px[r], bufferWidth, e, TopBucket);
      }
      forall c | 0 <= c < bufferWidth
        ensures vertProjection[0, c] == 0.0
      {
        ColCountZero(px, c, bufferHeight, e, TopBucket);
      }
    }

    /** Without a cap the three views agree: column k of the row projection and row 127 - k
        of the column projection both add up to histogram entry k. */
    lemma ProjectionTotals()
      requires Binned()
      ensures forall k :: 0 <= k < HistogramResolution ==>
        ColumnTotal(horProjection, k, bufferHeight) == histogramY[k]
      ensures forall k :: 0 <= k < HistogramResolution ==>
        RowTotal(vertProjection, TopBucket - k, bufferWidth) == histogramY[k]
    {
      var px, e := Grid(image), histogramX[..];
      forall k | 0 <= k < HistogramResolution
        ensures ColumnTotal(horProjection, k, bufferHeight) == histogramY[k]
        ensures RowTotal(vertProjection, TopBucket - k, bufferWidth) == histogramY[k]
      {
        ColumnOfRowCounts(horProjection, px, e, k, bufferHeight);
        ProjectionsAgree(px, bufferHeight, bufferWidth, e, k);
        RowOfColumnCounts(vertProjection, TopBucket - k, px, e, k, bufferWidth);
      }
    }

    /** After binning over a range with pixMin < pixMax the histogram adds up to the number of
        image cells in [pixMin, edge 127), at most W * H; over a range with pixMax <= pixMin
        it is all zeros. */
    lemma HistogramAccounts()
      requires Binned()
      ensures pixMin < pixMax ==>
        Sum(histogramY[..]) == GridInRange(Grid(image), bufferHeight, pixMin, histogramX[TopBucket]) as real
      ensures pixMin < pixMax ==> Sum(histogramY[..]) <= (bufferHeight * bufferWidth) as real
      ensures pixMax <= pixMin ==> forall k :: 0 <= k < HistogramResolution ==> histogramY[k] == 0.0
    {
      var px, e := Grid(image), histogramX[..];
      if pixMin < pixMax {
        EdgesIncreasing(pixMin, pixMax, HistogramResolution);
        HistogramTotal(histogramY[..], px, bufferWidth, e);
      } else {
        forall k | 0 <= k < HistogramResolution
          ensures histogramY[k] == 0.0
        {
          CollapsedRangeCountsNothing(px, pixMin, pixMax, HistogramResolution, k);
        }
      }
    }

    /** The two 128-entry histogram arrays, separate from each other. */
    predicate Histograms()
      reads this`histogramX, this`histogramY
    {
      histogramX.Length == HistogramResolution && histogramY.Length == HistogramResolution
      && histogramX != histogramY
    }

    /** The histogram arrays, separate arrays throughout, the pixel count of the current
        dimensions, and arrays shaped for those dimensions once a frame has set them. */
    predicate Valid()
      reads this, vertPixelScale, horPixelScale
    {
      Histograms()
      && histogramX != vertPixelScale && histogramX != horPixelScale
      && histogramY != vertPixelScale && histogramY != horPixelScale
      && image != horProjection && image != vertProjection && horProjection != vertProjection
      && pixCount == bufferHeight * bufferWidth
      && ((bufferWidth == 0 && bufferHeight == 0) || Shaped())
    }

    /** The field initialisers of the listener and of the component, with the clock reading
        passed in. */
    constructor (startMs: int)
      ensures Valid() && bufferWidth == 0 && bufferHeight == 0 && pixCount == 0
      ensures pixMin == 0.0 && pixMax == 1.0
      ensures lastTimeMs == startMs && nowTimeMs == startMs && fps == 0
      ensures min == DoubleMaxValue && max == DoubleMinValue
      ensures image.Length0 == 8 && image.Length1 == 8
    {
      bufferWidth, bufferHeight, pixCount := 0, 0, 0;
      pixMin, pixMax := 0.0, 1.0;
      lastTimeMs := startMs;
      nowTimeMs := startMs;
      fps := 0;
      histogramX := new real[HistogramResolution](_ => 0.0);
      histogramY := new real[HistogramResolution](_ => 0.0);
      image := new real[8, 8]((_, _) => 0.0);
      horProjection := new real[8, 8]((_, _) => 0.0);
      vertProjection := new real[8, 8]((_, _) => 0.0);
      vertPixelScale := new real[8](_ => 0.0);
      horPixelScale := new real[8](_ => 0.0);
      min, max := DoubleMaxValue, DoubleMinValue;
    }

    /** Fresh pixel scales 0 .. h - 1 and 0 .. w - 1. */
    method ResizeScales(w: nat, h: nat)
      modifies this`vertPixelScale, this`horPixelScale
      ensures fresh(vertPixelScale) && fresh(horPixelScale)
      ensures vertPixelScale.Length == h && horPixelScale.Length == w
      ensures forall i :: 0 <= i < h ==> vertPixelScale[i] == i as real
      ensures forall i :: 0 <= i < w ==> horPixelScale[i] == i as real
    {
      vertPixelScale := Ramp(h);
      horPixelScale := Ramp(w);
    }

    /** New dimensions and pixel count, and fresh zeroed image and projection grids. */
    method ResizeGrids(w: nat, h: nat)
      modifies this`bufferWidth, this`bufferHeight, this`pixCount
      modifies this`image, this`horProjection, this`vertProjection
      ensures bufferWidth == w && bufferHeight == h && pixCount == h * w
      ensures fresh(image) && fresh(horProjection) && fresh(vertProjection)
      ensures image != horProjection && image != vertProjection && horProjection != vertProjection
      ensures image.Length0 == h && image.Length1 == w
      ensures horProjection.Length0 == h && horProjection.Length1 == HistogramResolution
      ensures vertProjection.Length0 == HistogramResolution && vertProjection.Length1 == w
      ensures forall r, c :: 0 <= r < h && 0 <= c < w ==> image[r, c] == 0.0
      ensures forall r, k :: 0 <= r < h && 0 <= k < HistogramResolution ==> horProjection[r, k] == 0.0
      ensures forall j, c :: 0 <= j < HistogramResolution && 0 <= c < w ==> vertProjection[j, c] == 0.0
    {
      bufferHeight, bufferWidth := h, w;
      pixCount := h * w;
      image := new real[h, w]((_, _) => 0.0);
      vertProjection := new real[HistogramResolution, w]((_, _) => 0.0);
      horProjection := new real[h, HistogramResolution]((_, _) => 0.0);
    }

    /** New dimensions, shared by both callbacks: fresh zeroed arrays in the new shapes and
        fresh pixel scales; the range, the histogram arrays, the extremes and the counter are
        kept. */
    method Reallocate(w: nat, h: nat)
      requires Histograms()
      modifies this`bufferWidth, this`bufferHeight, this`pixCount
      modifies this`image, this`horProjection, this`vertProjection, this`vertPixelScale, this`horPixelScale
      ensures Valid() && Shaped() && bufferWidth == w && bufferHeight == h
      ensures fresh(image) && fresh(horProjection) && fresh(vertProjection)
      ensures fresh(vertPixelScale) && fresh(horPixelScale)
      ensures forall r, c :: 0 <= r < h && 0 <= c < w ==> image[r, c] == 0.0
      ensures forall r, k :: 0 <= r < h && 0 <= k < HistogramResolution ==> horProjection[r, k] == 0.0
      ensures forall j, c :: 0 <= j < HistogramResolution && 0 <= c < w ==> vertProjection[j, c] == 0.0
    {
      ResizeScales(w, h);
      ResizeGrids(w, h);
    }

    /** The pass over the first pixCount bytes: byte i becomes u / 256 in row i / W,
        column i % W, and enters the extremes, which restart at Double.MAX_VALUE and
        Double.MIN_VALUE. A buffer shorter than pixCount ends the pass at its first missing
        byte, with the bytes before it stored and counted; `completed` is false then. */
    method ScanFrame(bytes: seq<int>) returns (completed: bool, lo: real, hi: real)
      requires Valid() && 0 < bufferWidth && 0 < bufferHeight && AllSamples(Gray8, bytes)
      modifies image
      ensures Valid()
      ensures completed <==> pixCount <= |bytes|
      ensures forall r, c :: 0 <= r < bufferHeight && 0 <= c < bufferWidth ==>
        image[r, c] == if Flat(r, c, bufferWidth) < |bytes| then Intensity(bytes[Flat(r, c, bufferWidth)])
                       else old(image[r, c])
      ensures lo == FrameMin(Gray8, bytes, Fetched(|bytes|, pixCount), DoubleMaxValue)
      ensures hi == FrameMax(Gray8, bytes, Fetched(|bytes|, pixCount), DoubleMinValue)
      ensures forall r, c :: 0 <= r < bufferHeight && 0 <= c < bufferWidth && Flat(r, c, bufferWidth) < |bytes| ==>
        lo <= image[r, c] <= hi
    {
      var w := bufferWidth;
      var n := Fetched(|bytes|, pixCount);
      lo, hi := Scan(image, Gray8, bytes, n, DoubleMaxValue, DoubleMinValue);
      completed := pixCount <= |bytes|;
      FrameMaxIsMaximum(Gray8, bytes, n, DoubleMinValue);
      FrameMinIsMinimum(Gray8, bytes, n, DoubleMaxValue);
      forall r, c | 0 <= r < bufferHeight && 0 <= c < w
        ensures Flat(r, c, w) < pixCount
      {
        FlatInRange(r, c, w, bufferHeight);
      }
    }

    /** Both ends of the display range move 1/32 of the way toward the frame's extremes,
        each written as the two branches of the source. */
    method AdaptRange()
      modifies this`pixMin, this`pixMax
      ensures pixMax == TowardMax(old(pixMax), max, RangeDivisor)
      ensures pixMin == TowardMin(old(pixMin), min, RangeDivisor)
    {
      if max > pixMax {
        pixMax := pixMax + (max - pixMax) / 32.0;
      } else {
        pixMax := pixMax - (pixMax - max) / 32.0;
      }
      if min < pixMin {
        pixMin := pixMin - (pixMin - min) / 32.0;
      } else {
        pixMin := pixMin + (min - pixMin) / 32.0;
      }
    }

    /** Edges over the display range, zeroed counts, and the triple loop that counts every
        image cell into the histogram, into its row of the row projection and into its
        column of the column projection (bucket k at row 127 - k). */
    method Bin()
      requires Valid() && Shaped()
      modifies histogramX, histogramY, horProjection, vertProjection
      ensures Binned()
    {
      FillEdges(histogramX, pixMin, pixMax);
      Fill(histogramY, 0.0);
      FillRows(horProjection, 0.0);
      FillRows(vertProjection, 0.0);
      Accumulate(image, histogramX, histogramY, horProjection, vertProjection, Unbounded);
    }

    /** The frame counter, with the clock reading passed in. */
    method CountFrame(nowMs: int)
      modifies this`nowTimeMs, this`lastTimeMs, this`fps
      ensures nowTimeMs == nowMs
      ensures Counter(lastTimeMs, fps) == Tick(Counter(old(lastTimeMs), old(fps)), nowMs)
    {
      nowTimeMs := nowMs;
      if nowTimeMs > lastTimeMs + 1000 {
        lastTimeMs := nowTimeMs;
        fps := 0;
      } else {
        fps := fps + 1;
      }
    }

    /** What a completed pass is followed by: the range update and the binning. */
    method Refresh()
      requires Valid() && Shaped()
      modifies this`pixMin, this`pixMax, horProjection, vertProjection, histogramX, histogramY
      ensures Valid()
      ensures pixMax == TowardMax(old(pixMax), max, RangeDivisor)
      ensures pixMin == TowardMin(old(pixMin), min, RangeDivisor)
      ensures Binned()
    {
      AdaptRange();
      Bin();
    }

    /** Everything a mapped buffer goes through once the arrays fit the dimensions. A buffer
        shorter than pixCount stops the pass, leaving the range, the histogram and the
        projections as they were. */
    method Analyse(bytes: seq<int>) returns (completed: bool)
      requires Valid() && 0 < bufferWidth && 0 < bufferHeight && AllSamples(Gray8, bytes)
      modifies this`min, this`max, this`pixMin, this`pixMax
      modifies image, horProjection, vertProjection, histogramX, histogramY
      ensures Valid()
      ensures completed <==> pixCount <= |bytes|
      ensures forall r, c :: 0 <= r < bufferHeight && 0 <= c < bufferWidth ==>
        image[r, c] == if Flat(r, c, bufferWidth) < |bytes| then Intensity(bytes[Flat(r, c, bufferWidth)])
                       else old(image[r, c])
      ensures min == FrameMin(Gray8, bytes, Fetched(|bytes|, pixCount), DoubleMaxValue)
      ensures max == FrameMax(Gray8, bytes, Fetched(|bytes|, pixCount), DoubleMinValue)
      ensures completed ==> pixMax == TowardMax(old(pixMax), max, RangeDivisor)
      ensures completed ==> pixMin == TowardMin(old(pixMin), min, RangeDivisor)
      ensures completed ==> Binned()
      ensures !completed ==> pixMin == old(pixMin) && pixMax == old(pixMax)
      ensures !completed ==> unchanged(histogramX, histogramY, horProjection, vertProjection)
    {
      completed, min, max := ScanFrame(bytes);
      if completed {
        Refresh();
      }
    }

    /** A frame's buffer once the arrays fit the dimensions: a mapped buffer is analysed, an
        unmapped one skipped, and the frame counted unless the pass stopped short. */
    method Consume(buffer: MappedBuffer, nowMs: int) returns (completed: bool)
      requires Valid() && 0 < bufferWidth && 0 < bufferHeight
      requires buffer.Mapped? ==> AllSamples(Gray8, buffer.bytes)
      modifies this`min, this`max, this`pixMin, this`pixMax, this`nowTimeMs, this`lastTimeMs, this`fps
      modifies image, horProjection, vertProjection, histogramX, histogramY
      ensures Valid()
      ensures completed <==> buffer.Unmapped? || pixCount <= |buffer.bytes|
      ensures buffer.Unmapped? ==> unchanged(image) && min == old(min) && max == old(max)
      ensures buffer.Mapped? ==> forall r, c :: 0 <= r < bufferHeight && 0 <= c < bufferWidth ==>
        image[r, c] == if Flat(r, c, bufferWidth) < |buffer.bytes| then Intensity(buffer.bytes[Flat(r, c, bufferWidth)])
                       else old(image[r, c])
      ensures buffer.Mapped? ==> min == FrameMin(Gray8, buffer.bytes, Fetched(|buffer.bytes|, pixCount), DoubleMaxValue)
      ensures buffer.Mapped? ==> max == FrameMax(Gray8, buffer.bytes, Fetched(|buffer.bytes|, pixCount), DoubleMinValue)
      ensures buffer.Mapped? && completed ==> pixMax == TowardMax(old(pixMax), max, RangeDivisor)
      ensures buffer.Mapped? && completed ==> pixMin == TowardMin(old(pixMin), min, RangeDivisor)
      ensures buffer.Mapped? && completed ==> Binned()
      ensures buffer.Unmapped? || !completed ==> pixMin == old(pixMin) && pixMax == old(pixMax)
      ensures buffer.Unmapped? || !completed ==> unchanged(histogramX, histogramY, horProjection, vertProjection)
      ensures completed ==> nowTimeMs == nowMs
      ensures completed ==> Counter(lastTimeMs, fps) == Tick(Counter(old(lastTimeMs), old(fps)), nowMs)
      ensures !completed ==> nowTimeMs == old(nowTimeMs) && lastTimeMs == old(lastTimeMs) && fps == old(fps)
    {
      match buffer {
        case Unmapped =>
          completed := true;
        case Mapped(bytes) =>
          completed := Analyse(bytes);
      }
      if completed {
        CountFrame(nowMs);
      }
    }

    /** One frame of w x h 8-bit samples arriving at time nowMs. `completed` is false when the
        mapped buffer holds fewer than w * h bytes: the pass then stops at the first missing
        byte and leaves the range, the histogram, the projections and the counter as they
        were. */
    method NewSample(w: nat, h: nat, buffer: MappedBuffer, nowMs: int) returns (completed: bool)
      requires Valid() && 0 < w && 0 < h
      requires buffer.Mapped? ==> AllSamples(Gray8, buffer.bytes)
      modifies this, image, horProjection, vertProjection, histogramX, histogramY
      ensures Valid() && Shaped() && bufferWidth == w && bufferHeight == h && pixCount == h * w
      ensures histogramX == old(histogramX) && histogramY == old(histogramY)
      ensures old(bufferHeight) == h && old(bufferWidth) == w ==>
        image == old(image) && horProjection == old(horProjection) && vertProjection == old(vertProjection)
        && vertPixelScale == old(vertPixelScale) && horPixelScale == old(horPixelScale)
      ensures old(bufferHeight) != h || old(bufferWidth) != w ==>
        fresh(image) && fresh(horProjection) && fresh(vertProjection) && fresh(vertPixelScale) && fresh(horPixelScale)
      ensures completed <==> buffer.Unmapped? || h * w <= |buffer.bytes|
      ensures forall r, c :: 0 <= r < h && 0 <= c < w ==>
        image[r, c] == if buffer.Mapped? && Flat(r, c, w) < |buffer.bytes| then Intensity(buffer.bytes[Flat(r, c, w)])
                       else if old(bufferHeight) == h && old(bufferWidth) == w then old(image[r, c])
                       else 0.0
      ensures buffer.Unmapped? ==> min == old(min) && max == old(max)
      ensures buffer.Mapped? ==> min == FrameMin(Gray8, buffer.bytes, Fetched(|buffer.bytes|, h * w), DoubleMaxValue)
      ensures buffer.Mapped? ==> max == FrameMax(Gray8, buffer.bytes, Fetched(|buffer.bytes|, h * w), DoubleMinValue)
      ensures buffer.Mapped? && completed ==> pixMax == TowardMax(old(pixMax), max, RangeDivisor)
      ensures buffer.Mapped? && completed ==> pixMin == TowardMin(old(pixMin), min, RangeDivisor)
      ensures buffer.Mapped? && completed ==> Binned()
      ensures buffer.Unmapped? || !completed ==> pixMin == old(pixMin) && pixMax == old(pixMax)
      ensures buffer.Unmapped? || !completed ==> unchanged(histogramX, histogramY)
      ensures buffer.Unmapped? || !completed ==> forall r, k :: 0 <= r < h && 0 <= k < HistogramResolution ==>
        horProjection[r, k] == if old(bufferHeight) == h && old(bufferWidth) == w then old(horProjection[r, k]) else 0.0
      ensures buffer.Unmapped? || !completed ==> forall j, c :: 0 <= j < HistogramResolution && 0 <= c < w ==>
        vertProjection[j, c] == if old(bufferHeight) == h && old(bufferWidth) == w then old(vertProjection[j, c]) else 0.0
      ensures completed ==> nowTimeMs == nowMs
      ensures completed ==> Counter(lastTimeMs, fps) == Tick(Counter(old(lastTimeMs), old(fps)), nowMs)
      ensures !completed ==> nowTimeMs == old(nowTimeMs) && lastTimeMs == old(lastTimeMs) && fps == old(fps)
    {
      if h != bufferHeight || w != bufferWidth {
        Reallocate(w, h);
      }
      completed := Consume(buffer, nowMs);
    }

    /** The preroll callback: it reallocates for new dimensions exactly as a frame does, and
        its buffer is mapped and unmapped without being read. */
    method NewPreroll(w: nat, h: nat)
      requires Valid()
      modifies this`bufferWidth, this`bufferHeight, this`pixCount
      modifies this`image, this`horProjection, this`vertProjection, this`vertPixelScale, this`horPixelScale
      ensures Valid() && bufferWidth == w && bufferHeight == h && pixCount == h * w
      ensures (w == 0 && h == 0) || Shaped()
      ensures old(bufferHeight) == h && old(bufferWidth) == w ==>
        image == old(image) && horProjection == old(horProjection) && vertProjection == old(vertProjection)
        && vertPixelScale == old(vertPixelScale) && horPixelScale == old(horPixelScale)
      ensures old(bufferHeight) != h || old(bufferWidth) != w ==>
        fresh(image) && fresh(horProjection) && fresh(vertProjection) && fresh(vertPixelScale) && fresh(horPixelScale)
      ensures old(bufferHeight) != h || old(bufferWidth) != w ==>
        (forall r, c :: 0 <= r < h && 0 <= c < w ==> image[r, c] == 0.0)
        && (forall r, k :: 0 <= r < h && 0 <= k < HistogramResolution ==> horProjection[r, k] == 0.0)
        && (forall j, c :: 0 <= j < HistogramResolution && 0 <= c < w ==> vertProjection[j, c] == 0.0)
    {
      if h != bufferHeight || w != bufferWidth {
        Reallocate(w, h);
      }
    }
  }
}
