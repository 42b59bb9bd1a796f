/** The 16-bit thermal listener: on every frame it converts the samples to degrees Celsius,
    pulls its display range a quarter of the way toward the frame's extremes, rebuilds 128
    equal-width bucket edges over that range, and refills the histogram and the two
    projection grids, whose cells stop at 16. */
module PureThermal {
  import opened Calibration
  import opened DisplayRange
  import opened Binning
  import opened FrameRate
  import opened BinningTotals

  /** Number of histogram buckets, edges and projection rows or columns. */
  const HistogramResolution: nat := 128

  /** The top bucket, which the scan over k never reaches. */
  const TopBucket: nat := HistogramResolution - 1

  /** Largest value a projection cell reaches. */
  const ProjectionCap: nat := 16

  /** The display range moves 1/RangeDivisor of the way toward the frame's extremes. */
  const RangeDivisor: nat := 4

  /** Number of samples a frame feeds into the extremes when the image has `cells` cells:
      all of them when they fit; otherwise the pass stops, with an out-of-bounds write, right
      after the extremes have taken in sample number `cells`. */
  function Scanned(count: nat, cells: nat): (n: nat)
    ensures n <= count
    ensures n <= cells + 1
    ensures n == count <==> count <= cells + 1
  {
    if count <= cells then count else cells + 1
  }

  /** Over a non-empty frame the extremes are ordered, so a display range with lo < hi keeps
      lo < hi after the update, and the 128 edges built from it rise strictly. */
  lemma EdgesStayIncreasing(samples: seq<int>, n: nat, lo: real, hi: real)
    requires AllSamples(Gray16, samples) && 0 < n <= |samples| && lo < hi
    ensures TowardMin(lo, FrameMin(Gray16, samples, n, DoubleMaxValue), RangeDivisor)
          < TowardMax(hi, FrameMax(Gray16, samples, n, DoubleMinValue), RangeDivisor)
    ensures Increasing(Edges(TowardMin(lo, FrameMin(Gray16, samples, n, DoubleMaxValue), RangeDivisor),
                             TowardMax(hi, FrameMax(Gray16, samples, n, DoubleMinValue), RangeDivisor),
                             HistogramResolution))
  {
    var mn, mx := FrameMin(Gray16, samples, n, DoubleMaxValue), FrameMax(Gray16, samples, n, DoubleMinValue);
    ScannedExtremes(Gray16, samples, n);
    RangeStaysOrdered(lo, hi, mn, mx, RangeDivisor);
    EdgesIncreasing(TowardMin(lo, mn, RangeDivisor), TowardMax(hi, mx, RangeDivisor), HistogramResolution);
  }

  /** A frame with no samples leaves the extremes at their restart values, min at
      Double.MAX_VALUE and max at the tiny positive Double.MIN_VALUE. The range update then
      lifts pixMin by a quarter of Double.MAX_VALUE and pulls pixMax toward 0, so it inverts
      the range exactly when the range was narrower than a third of that gap: in practice
      always. */
  lemma EmptyFrameInvertsRange(lo: real, hi: real)
    ensures TowardMax(hi, FrameMax(Gray16, [], 0, DoubleMinValue), RangeDivisor)
          < TowardMin(lo, FrameMin(Gray16, [], 0, DoubleMaxValue), RangeDivisor)
        <==> 3.0 * (hi - lo) < DoubleMaxValue - DoubleMinValue
  {
    var up := TowardMin(lo, DoubleMaxValue, RangeDivisor);
    var down := TowardMax(hi, DoubleMinValue, RangeDivisor);
    assert 4.0 * (up - down) == DoubleMaxValue - DoubleMinValue - 3.0 * (hi - lo);
  }

  /** After such an empty frame the 128 edges are built over the inverted range, so the
      binning that follows counts nothing in any bucket. */
  lemma EmptyFrameCountsNothing(lo: real, hi: real, px: seq<seq<real>>, k: int)
    requires 3.0 * (hi - lo) < DoubleMaxValue - DoubleMinValue
    ensures GridCount(px, |px|, Edges(TowardMin(lo, FrameMin(Gray16, [], 0, DoubleMaxValue), RangeDivisor),
                                      TowardMax(hi, FrameMax(Gray16, [], 0, DoubleMinValue), RangeDivisor),
                                      HistogramResolution), k) == 0
  {
    EmptyFrameInvertsRange(lo, hi);
    CollapsedRangeCountsNothing(px, TowardMin(lo, DoubleMaxValue, RangeDivisor),
                                TowardMax(hi, DoubleMinValue, RangeDivisor), HistogramResolution, k);
  }

  class PureThermalAppSinkListener {
    var bufferWidth: nat
    var bufferHeight: nat
    var pixMin: real
    var pixMax: real
    var lastTimeMs: int
    var nowTimeMs: int
    var fps: nat
    var histogramX: array<real>
    var histogramY: array<real>
    var image: array2<real>
    var horProjection: array2<real>
    var vertProjection: array2<real>
    var vertPixelScale: array<real>
    var horPixelScale: array<real>
    var min: real
    var max: real

    /** The arrays fit the current dimensions: the image is H x W, the row projection
        H x 128, the column projection 128 x W, and the pixel scales count 0 .. H - 1 and
        0 .. W - 1. */
    predicate Shaped()
      reads this, vertPixelScale, horPixelScale
    {
      image.Length0 == bufferHeight && image.Length1 == bufferWidth
      && horProjection.Length0 == bufferHeight && horProjection.Length1 == HistogramResolution
      && vertProjection.Length0 == HistogramResolution && vertProjection.Length1 == bufferWidth
      && vertPixelScale.Length == bufferHeight && horPixelScale.Length == bufferWidth
      && (forall i :: 0 <= i < bufferHeight ==> vertPixelScale[i] == i as real)
      && (forall i :: 0 <= i < bufferWidth ==> horPixelScale[i] == i as real)
    }

    /** What the binning leaves: edges over the display range, the histogram holding each
        bucket's count over the whole image, row-projection cell (r, k) row r's count in
        bucket k, and column-projection cell (j, c) column c's count in bucket 127 - j, both
        capped at 16. */
    ghost predicate Binned()
      reads this`pixMin, this`pixMax, this`bufferWidth, this`bufferHeight, this`image
      reads this`histogramX, this`histogramY, this`horProjection, this`vertProjection
      reads image, histogramX, histogramY, horProjection, vertProjection
    {
      histogramX.Length == HistogramResolution && histogramY.Length == HistogramResolution
      && horProjection.Length0 == bufferHeight && horProjection.Length1 == HistogramResolution
      && vertProjection.Length0 == HistogramResolution && vertProjection.Length1 == bufferWidth
      && image.Length0 == bufferHeight && image.Length1 == bufferWidth
      && histogramX[..] == Edges(pixMin, pixMax, HistogramResolution)
      && (forall k :: 0 <= k < HistogramResolution ==>
            histogramY[k] == GridCount(Grid(image), bufferHeight, histogramX[..], k) as real)
      && (forall r, k :: 0 <= r < bufferHeight && 0 <= k < HistogramResolution ==>
            horProjection[r, k] == Capped(RowCount(Grid(image)[r], bufferWidth, histogramX[..], k), AtMost(ProjectionCap)) as real)
      && (forall j, c :: 0 <= j < HistogramResolution && 0 <= c < bufferWidth ==>
            vertProjection[j, c]
              == Capped(ColCount(Grid(image), c, bufferHeight, histogramX[..], HistogramResolution - 1 - j), AtMost(ProjectionCap)) as real)
    }

    /** After binning, the top bucket is empty everywhere: histogram entry 127, column 127
        of the row projection and row 0 of the column projection are 0; and no projection
        cell exceeds 16. */
    lemma TopBucketAndCap()
      requires Binned()
      ensures histogramY[TopBucket] == 0.0
      ensures forall r :: 0 <= r < bufferHeight ==> horProjection[r, TopBucket] == 0.0
      ensures forall c :: 0 <= c < bufferWidth ==> vertProjection[0, c] == 0.0
      ensures forall r, k :: 0 <= r < bufferHeight && 0 <= k < HistogramResolution ==>
        0.0 <= horProjection[r, k] <= ProjectionCap as real
      ensures forall j, c :: 0 <= j < HistogramResolution && 0 <= c < bufferWidth ==>
        0.0 <= vertProjection[j, c] <= ProjectionCap as real
    {
      var px, e := Grid(image), histogramX[..];
      GridCountZero(px, bufferHeight, e, TopBucket);
      forall r | 0 <= r < bufferHeight
        ensures horProjection[r, TopBucket] == 0.0
      {
        RowCountZero(px[r], bufferWidth, e, TopBucket);
      }
      forall c | 0 <= c < bufferWidth
        ensures vertProjection[0, c] == 0.0
      {
        ColCountZero(px, c, bufferHeight, e, TopBucket);
      }
    }

    /** After binning over a range with pixMin < pixMax the histogram adds up to the number of
        image cells in [pixMin, edge 127), at most W * H; over a range with pixMax <= pixMin
        it is all zeros. */
    lemma HistogramAccounts()
      requires Binned()
      ensures pixMin < pixMax ==>
        Sum(histogramY[..]) == GridInRange(Grid(image), bufferHeight, pixMin, histogramX[TopBucket]) as real
      ensures pixMin < pixMax ==> Sum(histogramY[..]) <= (bufferHeight * bufferWidth) as real
      ensures pixMax <= pixMin ==> forall k :: 0 <= k < HistogramResolution ==> histogramY[k] == 0.0
    {
      var px, e := Grid(image), histogramX[..];
      if pixMin < pixMax {
        EdgesIncreasing(pixMin, pixMax, HistogramResolution);
        HistogramTotal(histogramY[..], px, bufferWidth, e);
      } else {
        forall k | 0 <= k < HistogramResolution
          ensures histogramY[k] == 0.0
        {
          CollapsedRangeCountsNothing(px, pixMin, pixMax, HistogramResolution, k);
        }
      }
    }

    /** The two 128-entry histogram arrays, separate from each other. */
    predicate Histograms()
      reads this`histogramX, this`histogramY
    {
      histogramX.Length == HistogramResolution && histogramY.Length == HistogramResolution
      && histogramX != histogramY
    }

    /** The histogram arrays, separate arrays throughout, and arrays shaped for the
        dimensions once a frame has set them. */
    predicate Valid()
      reads this, vertPixelScale, horPixelScale
    {
      Histograms()
      && histogramX != vertPixelScale && histogramX != horPixelScale
      && histogramY != vertPixelScale && histogramY != horPixelScale
      && image != horProjection && image != vertProjection && horProjection != vertProjection
      && ((bufferWidth == 0 && bufferHeight == 0) || Shaped())
    }

    /** The field initialisers, with the clock reading passed in. */
    constructor (startMs: int)
      ensures Valid() && bufferWidth == 0 && bufferHeight == 0
      ensures pixMin == 0.0 && pixMax == 10.0
      ensures lastTimeMs == startMs && nowTimeMs == startMs && fps == 0
      ensures min == DoubleMaxValue && max == DoubleMinValue
      ensures image.Length0 == 8 && image.Length1 == 8
    {
      bufferWidth, bufferHeight := 0, 0;
      pixMin, pixMax := 0.0, 10.0;
      lastTimeMs := startMs;
      nowTimeMs := startMs;
      fps := 0;
      histogramX := new real[HistogramResolution](_ => 0.0);
      histogramY := new real[HistogramResolution](_ => 0.0);
      image := new real[8, 8]((_, _) => 0.0);
      horProjection := new real[8, 8]((_, _) => 0.0);
      vertProjection := new real[8, 8]((_, _) => 0.0);
      vertPixelScale := new real[8](_ => 0.0);
      horPixelScale := new real[8](_ => 0.0);
      min, max := DoubleMaxValue, DoubleMinValue;
    }

    /** Fresh pixel scales 0 .. h - 1 and 0 .. w - 1. */
    method ResizeScales(w: nat, h: nat)
      modifies this`vertPixelScale, this`horPixelScale
      ensures fresh(vertPixelScale) && fresh(horPixelScale)
      ensures vertPixelScale.Length == h && horPixelScale.Length == w
      ensures forall i :: 0 <= i < h ==> vertPixelScale[i] == i as real
      ensures forall i :: 0 <= i < w ==> horPixelScale[i] == i as real
    {
      vertPixelScale := Ramp(h);
      horPixelScale := Ramp(w);
    }

    /** Fresh zeroed image and projection grids for w x h frames. */
    method ResizeGrids(w: nat, h: nat)
      modifies this`bufferWidth, this`bufferHeight, this`image, this`horProjection, this`vertProjection
      ensures bufferWidth == w && bufferHeight == h
      ensures fresh(image) && fresh(horProjection) && fresh(vertProjection)
      ensures image != horProjection && image != vertProjection && horProjection != vertProjection
      ensures image.Length0 == h && image.Length1 == w
      ensures horProjection.Length0 == h && horProjection.Length1 == HistogramResolution
      ensures vertProjection.Length0 == HistogramResolution && vertProjection.Length1 == w
      ensures forall r, c :: 0 <= r < h && 0 <= c < w ==> image[r, c] == 0.0
      ensures forall r, k :: 0 <= r < h && 0 <= k < HistogramResolution ==> horProjection[r, k] == 0.0
      ensures forall j, c :: 0 <= j < HistogramResolution && 0 <= c < w ==> vertProjection[j, c] == 0.0
    {
      bufferHeight, bufferWidth := h, w;
      image := new real[h, w]((_, _) => 0.0);
      vertProjection := new real[HistogramResolution, w]((_, _) => 0.0);
      horProjection := new real[h, HistogramResolution]((_, _) => 0.0);
    }

    /** New dimensions: fresh zeroed arrays in the new shapes and fresh pixel scales; the
        range, the histogram arrays, the extremes and the counter are kept. */
    method Reallocate(w: nat, h: nat)
      requires Histograms()
      modifies this`bufferWidth, this`bufferHeight, this`image, this`horProjection, this`vertProjection
      modifies this`vertPixelScale, this`horPixelScale
      ensures Valid() && Shaped() && bufferWidth == w && bufferHeight == h
      ensures fresh(image) && fresh(horProjection) && fresh(vertProjection)
      ensures fresh(vertPixelScale) && fresh(horPixelScale)
      ensures forall r, c :: 0 <= r < h && 0 <= c < w ==> image[r, c] == 0.0
      ensures forall r, k :: 0 <= r < h && 0 <= k < HistogramResolution ==> horProjection[r, k] == 0.0
      ensures forall j, c :: 0 <= j < HistogramResolution && 0 <= c < w ==> vertProjection[j, c] == 0.0
    {
      ResizeScales(w, h);
      ResizeGrids(w, h);
    }

    /** The conversion pass over every sample of the buffer: sample i becomes
        (u - 27315) * 0.01 degrees in row i / W, column i % W, and enters the extremes, which
        restart at Double.MAX_VALUE and Double.MIN_VALUE. A frame with more than W * H samples
        ends the pass with an out-of-bounds write at sample W * H, after that sample has
        entered the extremes; `completed` is false then. */
    method ScanFrame(samples: seq<int>) returns (completed: bool, lo: real, hi: real)
      requires Valid() && 0 < bufferWidth && 0 < bufferHeight && AllSamples(Gray16, samples)
      modifies image
      ensures Valid()
      ensures completed <==> |samples| <= bufferHeight * bufferWidth
      ensures forall r, c :: 0 <= r < bufferHeight && 0 <= c < bufferWidth ==>
        image[r, c] == if Flat(r, c, bufferWidth) < |samples| then Celsius(samples[Flat(r, c, bufferWidth)])
                       else old(image[r, c])
      ensures lo == FrameMin(Gray16, samples, Scanned(|samples|, bufferHeight * bufferWidth), DoubleMaxValue)
      ensures hi == FrameMax(Gray16, samples, Scanned(|samples|, bufferHeight * bufferWidth), DoubleMinValue)
      ensures forall r, c :: 0 <= r < bufferHeight && 0 <= c < bufferWidth && Flat(r, c, bufferWidth) < |samples| ==>
        lo <= image[r, c] <= hi
      ensures DoubleMinValue <= hi
    {
      var w, cells := bufferWidth, bufferHeight * bufferWidth;
      var n := if |samples| <= cells then |samples| else cells;
      lo, hi := Scan(image, Gray16, samples, n, DoubleMaxValue, DoubleMinValue);
      completed := |samples| <= cells;
      if !completed {
        var v := Celsius(samples[cells]);
        if v > hi { hi := v; }
        if v < lo { lo := v; }
      }
      var m := Scanned(|samples|, cells);
      FrameMaxIsMaximum(Gray16, samples, m, DoubleMinValue);
      FrameMinIsMinimum(Gray16, samples, m, DoubleMaxValue);
      forall r, c | 0 <= r < bufferHeight && 0 <= c < w
        ensures Flat(r, c, w) < cells
      {
        FlatInRange(r, c, w, bufferHeight);
      }
    }

    /** Both ends of the display range move a quarter of the way toward the frame's
        extremes, each written as the two branches of the source. */
    method AdaptRange()
      modifies this`pixMin, this`pixMax
      ensures pixMax == TowardMax(old(pixMax), max, RangeDivisor)
      ensures pixMin == TowardMin(old(pixMin), min, RangeDivisor)
    {
      if max > pixMax {
        pixMax := pixMax + (max - pixMax) / 4.0;
      } else {
        pixMax := pixMax - (pixMax - max) / 4.0;
      }
      if min < pixMin {
        pixMin := pixMin - (pixMin - min) / 4.0;
      } else {
        pixMin := pixMin + (min - pixMin) / 4.0;
      }
    }

    /** Edges over the display range, zeroed counts, and the triple loop that counts every
        image cell into the histogram and, capped at 16, into its row of the row projection
        and its column of the column projection (bucket k at row 127 - k). */
    method Bin()
      requires Valid() && Shaped()
      modifies histogramX, histogramY, horProjection, vertProjection
      ensures Binned()
    {
      FillEdges(histogramX, pixMin, pixMax);
      Fill(histogramY, 0.0);
      FillRows(horProjection, 0.0);
      FillRows(vertProjection, 0.0);
      Accumulate(image, histogramX, histogramY, horProjection, vertProjection, AtMost(ProjectionCap));
    }

    /** The frame counter, with the clock reading passed in. */
    method CountFrame(nowMs: int)
      modifies this`nowTimeMs, this`lastTimeMs, this`fps
      ensures nowTimeMs == nowMs
      ensures Counter(lastTimeMs, fps) == Tick(Counter(old(lastTimeMs), old(fps)), nowMs)
    {
      nowTimeMs := nowMs;
      if nowTimeMs > lastTimeMs + 1000 {
        lastTimeMs := nowTimeMs;
        fps := 0;
      } else {
        fps := fps + 1;
      }
    }

    /** What a completed conversion pass is followed by: the range update, the binning and
        the frame counter. */
    method Refresh(nowMs: int)
      requires Valid() && Shaped()
      modifies this`pixMin, this`pixMax, this`nowTimeMs, this`lastTimeMs, this`fps
      modifies horProjection, vertProjection, histogramX, histogramY
      ensures Valid()
      ensures pixMax == TowardMax(old(pixMax), max, RangeDivisor)
      ensures pixMin == TowardMin(old(pixMin), min, RangeDivisor)
      ensures Binned()
      ensures nowTimeMs == nowMs
      ensures Counter(lastTimeMs, fps) == Tick(Counter(old(lastTimeMs), old(fps)), nowMs)
    {
      AdaptRange();
      Bin();
      CountFrame(nowMs);
    }

    /** Everything a frame does once the arrays fit its dimensions. On a frame of more than
        W * H samples the conversion pass stops with an out-of-bounds write, leaving the
        range, the histogram, the projections and the counter as they were. */
    method Analyse(samples: seq<int>, nowMs: int) returns (completed: bool)
      requires Valid() && 0 < bufferWidth && 0 < bufferHeight && AllSamples(Gray16, samples)
      modifies this`min, this`max, this`pixMin, this`pixMax, this`nowTimeMs, this`lastTimeMs, this`fps
      modifies image, horProjection, vertProjection, histogramX, histogramY
      ensures Valid()
      ensures completed <==> |samples| <= bufferHeight * bufferWidth
      ensures forall r, c :: 0 <= r < bufferHeight && 0 <= c < bufferWidth ==>
        image[r, c] == if Flat(r, c, bufferWidth) < |samples| then Celsius(samples[Flat(r, c, bufferWidth)])
                       else old(image[r, c])
      ensures min == FrameMin(Gray16, samples, Scanned(|samples|, bufferHeight * bufferWidth), DoubleMaxValue)
      ensures max == FrameMax(Gray16, samples, Scanned(|samples|, bufferHeight * bufferWidth), DoubleMinValue)
      ensures completed ==> pixMax == TowardMax(old(pixMax), max, RangeDivisor)
      ensures completed ==> pixMin == TowardMin(old(pixMin), min, RangeDivisor)
      ensures completed ==> Binned()
      ensures completed ==> nowTimeMs == nowMs
      ensures completed ==> Counter(lastTimeMs, fps) == Tick(Counter(old(lastTimeMs), old(fps)), nowMs)
      ensures !completed ==> pixMin == old(pixMin) && pixMax == old(pixMax)
      ensures !completed ==> nowTimeMs == old(nowTimeMs) && lastTimeMs == old(lastTimeMs) && fps == old(fps)
      ensures !completed ==> unchanged(histogramX, histogramY, horProjection, vertProjection)
    {
      completed, min, max := ScanFrame(samples);
      if !completed {
        return;
      }
      Refresh(nowMs);
    }

    /** One frame of w x h 16-bit samples arriving at time nowMs. `completed` is false when the
        frame carries more than w * h samples: the pass then stops with an out-of-bounds write
        and leaves the range, the histogram, the projections and the counter as they were. */
    method NewSample(w: nat, h: nat, samples: seq<int>, nowMs: int) returns (completed: bool)
      requires Valid() && 0 < w && 0 < h && AllSamples(Gray16, samples)
      modifies this, image, horProjection, vertProjection, histogramX, histogramY
      ensures Valid() && Shaped() && bufferWidth == w && bufferHeight == h
      ensures histogramX == old(histogramX) && histogramY == old(histogramY)
      ensures old(bufferHeight) == h && old(bufferWidth) == w ==>
        image == old(image) && horProjection == old(horProjection) && vertProjection == old(vertProjection)
        && vertPixelScale == old(vertPixelScale) && horPixelScale == old(horPixelScale)
      ensures old(bufferHeight) != h || old(bufferWidth) != w ==>
        fresh(image) && fresh(horProjection) && fresh(vertProjection) && fresh(vertPixelScale) && fresh(horPixelScale)
      ensures completed <==> |samples| <= h * w
      ensures forall r, c :: 0 <= r < h && 0 <= c < w ==>
        image[r, c] == if Flat(r, c, w) < |samples| then Celsius(samples[Flat(r, c, w)])
                       else if old(bufferHeight) == h && old(bufferWidth) == w then old(image[r, c])
                       else 0.0
      ensures min == FrameMin(Gray16, samples, Scanned(|samples|, h * w), DoubleMaxValue)
      ensures max == FrameMax(Gray16, samples, Scanned(|samples|, h * w), DoubleMinValue)
      ensures completed ==> pixMax == TowardMax(old(pixMax), max, RangeDivisor)
      ensures completed ==> pixMin == TowardMin(old(pixMin), min, RangeDivisor)
      ensures completed ==> Binned()
      ensures completed ==> nowTimeMs == nowMs
      ensures completed ==> Counter(lastTimeMs, fps) == Tick(Counter(old(lastTimeMs), old(fps)), nowMs)
      ensures !completed ==> pixMin == old(pixMin) && pixMax == old(pixMax)
      ensures !completed ==> nowTimeMs == old(nowTimeMs) && lastTimeMs == old(lastTimeMs) && fps == old(fps)
      ensures !completed ==> unchanged(histogramX, histogramY)
      ensures !completed ==> forall r, k :: 0 <= r < h && 0 <= k < HistogramResolution ==>
        horProjection[r, k] == if old(bufferHeight) == h && old(bufferWidth) == w then old(horProjection[r, k]) else 0.0
      ensures !completed ==> forall j, c :: 0 <= j < HistogramResolution && 0 <= c < w ==>
        vertProjection[j, c] == if old(bufferHeight) == h && old(bufferWidth) == w then old(vertProjection[j, c]) else 0.0
    {
      if h != bufferHeight || w != bufferWidth {
        Reallocate(w, h);
      }
      completed := Analyse(samples, nowMs);
    }
  }
}
