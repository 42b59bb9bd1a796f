/** The 512-bucket thermal listener: on every frame it converts the 16-bit samples to degrees
    Celsius into the image, and recounts a histogram over fixed edges from -10 degrees in
    steps of 60/512 degrees, every bucket starting from 1. It keeps no display range, no
    extremes and no projections. The dimensions belong to the enclosing component in the
    source; here they are fields of the listener. */
module GstVideoComponentThermal {
  import opened Calibration
  import opened Binning
  import opened FrameRate
  import opened BinningTotals

  /** Number of histogram buckets and edges. */
  const HistogramLength: nat := 512

  /** The top bucket, which the scan over k never reaches. */
  const TopBucket: nat := HistogramLength - 1

  /** The lowest edge, in degrees Celsius. */
  const LowEdge: real := -10.0

  /** The width of all 512 buckets together: `stepSize = 60.0 / 512`. */
  const Span: real := 60.0

  /** Every histogram entry starts each frame at this value: `Arrays.fill(histogramY, 1)`. */
  const BaseCount: nat := 1

  class AppSinkListener {
    var bufferWidth: nat
    var bufferHeight: nat
    var lastTimeMs: int
    var nowTimeMs: int
    var fps: nat
    var histogramX: array<real>
    var histogramY: array<real>
    var image: array2<real>

    /** Two separate 512-entry histogram arrays, the fixed edges from -10 in steps of 60/512,
        and an image of the current dimensions once a frame has set them. */
    predicate Valid()
      reads this, histogramX
    {
      histogramX.Length == HistogramLength && histogramY.Length == HistogramLength
      && histogramX != histogramY
      && histogramX[..] == Edges(LowEdge, LowEdge + Span, HistogramLength)
      && ((bufferWidth == 0 && bufferHeight == 0)
          || (image.Length0 == bufferHeight && image.Length1 == bufferWidth))
    }

    /** What the counting leaves: each histogram entry holds 1 plus the number of image cells
        in its bucket. */
    ghost predicate Counted()
      reads this`bufferWidth, this`bufferHeight, this`image, this`histogramX, this`histogramY
      reads image, histogramX, histogramY
    {
      histogramX.Length == HistogramLength && histogramY.Length == HistogramLength
      && image.Length0 == bufferHeight && image.Length1 == bufferWidth
      && forall k :: 0 <= k < HistogramLength ==>
           histogramY[k] == (BaseCount + GridCount(Grid(image), bufferHeight, histogramX[..], k)) as real
    }

    /** After counting no entry is below 1, and the top bucket, which no value reaches, is
        exactly 1. */
    lemma BaseCountFloor()
      requires Counted()
      ensures forall k :: 0 <= k < HistogramLength ==> histogramY[k] >= BaseCount as real
      ensures histogramY[TopBucket] == BaseCount as real
    {
      GridCountZero(Grid(image), bufferHeight, histogramX[..], TopBucket);
    }

    /** After counting the histogram adds up to 512 plus the number of image cells in
        [-10, edge 511), at most 512 + W * H. */
    lemma HistogramAccounts()
      requires Valid() && Counted()
      ensures Sum(histogramY[..])
           == (HistogramLength * BaseCount + GridInRange(Grid(image), bufferHeight, LowEdge, histogramX[TopBucket])) as real
      ensures Sum(histogramY[..]) <= (HistogramLength * BaseCount + bufferHeight * bufferWidth) as real
    {
      var px, e := Grid(image), histogramX[..];
      HistogramSum(histogramY[..], BaseCount, px, e);
      EdgesIncreasing(LowEdge, LowEdge + Span, HistogramLength);
      GridTotal(px, bufferHeight, e);
      InRangeAtMostAll(px, bufferHeight, bufferWidth, e[0], e[TopBucket]);
    }

    /** The field initialisers and the constructor's edge loop
        `histogramX[i] = -10.0 + stepSize * i` with `stepSize = 60.0 / 512`, with the clock
        reading passed in. */
    constructor (startMs: int)
      ensures Valid() && bufferWidth == 0 && bufferHeight == 0
      ensures lastTimeMs == startMs && nowTimeMs == startMs && fps == 0
      ensures histogramX[..] == Edges(LowEdge, LowEdge + Span, HistogramLength)
      ensures forall k :: 0 <= k < HistogramLength ==> histogramY[k] == 0.0
      ensures image.Length0 == 8 && image.Length1 == 8
    {
      bufferWidth, bufferHeight := 0, 0;
      lastTimeMs := startMs;
      nowTimeMs := startMs;
      fps := 0;
      var edges := new real[HistogramLength](_ => 0.0);
      var stepSize := Span / edges.Length as real;
      for i := 0 to edges.Length
        invariant forall j :: 0 <= j < i ==> edges[j] == Edge(LowEdge, LowEdge + Span, HistogramLength, j)
      {
        edges[i] := LowEdge + stepSize * i as real;
      }
      histogramX := edges;
      histogramY := new real[HistogramLength](_ => 0.0);
      image := new real[8, 8]((_, _) => 0.0);
    }

    /** New dimensions, shared by both callbacks: a fresh zeroed image in the new shape; the
        histogram and the counter are kept. */
    method ResizeImage(w: nat, h: nat)
      modifies this`bufferWidth, this`bufferHeight, this`image
      ensures bufferWidth == w && bufferHeight == h
      ensures fresh(image) && image.Length0 == h && image.Length1 == w
      ensures forall r, c :: 0 <= r < h && 0 <= c < w ==> image[r, c] == 0.0
    {
      bufferHeight, bufferWidth := h, w;
      image := new real[h, w]((_, _) => 0.0);
    }

    /** The conversion pass over every sample of the buffer: sample i becomes
        (u - 27315) * 0.01 degrees in row i / W, column i % W. A frame with more than W * H
        samples ends the pass with an out-of-bounds write at sample W * H, every cell written;
        `completed` is false then. */
    method StoreFrame(samples: seq<int>) returns (completed: bool)
      requires Valid() && 0 < bufferWidth && 0 < bufferHeight && AllSamples(Gray16, samples)
      modifies image
      ensures completed <==> |samples| <= bufferHeight * bufferWidth
      ensures forall r, c :: 0 <= r < bufferHeight && 0 <= c < bufferWidth ==>
        image[r, c] == if Flat(r, c, bufferWidth) < |samples| then Celsius(samples[Flat(r, c, bufferWidth)])
                       else old(image[r, c])
    {
      var w, cells := bufferWidth, bufferHeight * bufferWidth;
      completed := |samples| <= cells;
      Store(image, samples, if completed then |samples| else cells);
      forall r, c | 0 <= r < bufferHeight && 0 <= c < w
        ensures Flat(r, c, w) < cells
      {
        FlatInRange(r, c, w, bufferHeight);
      }
    }

    /** Every entry reset to 1, then the double loop adding each image cell to its bucket. */
    method Count()
      requires Valid() && image.Length0 == bufferHeight && image.Length1 == bufferWidth
      modifies histogramY
      ensures Counted()
    {
      Fill(histogramY, BaseCount as real);
      AccumulateHistogram(image, histogramX, histogramY);
    }

    /** The frame counter, with the clock reading passed in. */
    method CountFrame(nowMs: int)
      modifies this`nowTimeMs, this`lastTimeMs, this`fps
      ensures nowTimeMs == nowMs
      ensures Counter(lastTimeMs, fps) == Tick(Counter(old(lastTimeMs), old(fps)), nowMs)
    {
      nowTimeMs := nowMs;
      if nowTimeMs > lastTimeMs + 1000 {
        lastTimeMs := nowTimeMs;
        fps := 0;
      } else {
        fps := fps + 1;
      }
    }

    /** One frame of w x h 16-bit samples arriving at time nowMs. `completed` is false when the
        frame carries more than w * h samples: the pass then stops with an out-of-bounds write
        and leaves the histogram and the counter as they were. */
    method NewSample(w: nat, h: nat, samples: seq<int>, nowMs: int) returns (completed: bool)
      requires Valid() && 0 < w && 0 < h && AllSamples(Gray16, samples)
      modifies this`bufferWidth, this`bufferHeight, this`image, this`nowTimeMs, this`lastTimeMs, this`fps
      modifies image, histogramY
      ensures Valid() && bufferWidth == w && bufferHeight == h && image.Length0 == h && image.Length1 == w
      ensures old(bufferHeight) == h && old(bufferWidth) == w ==> image == old(image)
      ensures old(bufferHeight) != h || old(bufferWidth) != w ==> fresh(image)
      ensures completed <==> |samples| <= h * w
      ensures forall r, c :: 0 <= r < h && 0 <= c < w ==>
        image[r, c] == if Flat(r, c, w) < |samples| then Celsius(samples[Flat(r, c, w)])
                       else if old(bufferHeight) == h && old(bufferWidth) == w then old(image[r, c])
                       else 0.0
      ensures completed ==> Counted()
      ensures completed ==> nowTimeMs == nowMs
      ensures completed ==> Counter(lastTimeMs, fps) == Tick(Counter(old(lastTimeMs), old(fps)), nowMs)
      ensures !completed ==> unchanged(histogramY)
      ensures !completed ==> nowTimeMs == old(nowTimeMs) && lastTimeMs == old(lastTimeMs) && fps == old(fps)
    {
      if h != bufferHeight || w != bufferWidth {
        ResizeImage(w, h);
      }
      completed := StoreFrame(samples);
      if completed {
        Count();
        CountFrame(nowMs);
      }
    }

    /** The preroll callback: it reallocates the image for new dimensions exactly as a frame
        does, and its buffer is mapped and unmapped without being read. */
    method NewPreroll(w: nat, h: nat)
      requires Valid()
      modifies this`bufferWidth, this`bufferHeight, this`image
      ensures Valid() && bufferWidth == w && bufferHeight == h
      ensures old(bufferHeight) == h && old(bufferWidth) == w ==> image == old(image)
      ensures old(bufferHeight) != h || old(bufferWidth) != w ==>
        fresh(image) && image.Length0 == h && image.Length1 == w
        && forall r, c :: 0 <= r < h && 0 <= c < w ==> image[r, c] == 0.0
    {
      if h != bufferHeight || w != bufferWidth {
        ResizeImage(w, h);
      }
    }
  }
}
