/** Conversion of raw camera samples into pixel values, the per-frame extremes, and the
    single pass that stores a frame into the image array while it tracks those extremes. */
module Calibration {

  /** The two sample layouts the listeners read: 16-bit centi-kelvin thermal samples
      (read through a ShortBuffer) and 8-bit intensities (read byte by byte). */
  datatype SampleFormat = Gray16 | Gray8

  /** One more than the largest unsigned value a sample of the format carries. */
  function SampleLimit(fmt: SampleFormat): nat
  {
    match fmt
    case Gray16 => 0x1_0000
    case Gray8 => 0x100
  }

  /** `Short.toUnsignedInt` / `Byte.toUnsignedInt` produce exactly these values. */
  predicate IsSample(fmt: SampleFormat, u: int)
  {
    0 <= u < SampleLimit(fmt)
  }

  predicate AllSamples(fmt: SampleFormat, samples: seq<int>)
  {
    forall i :: 0 <= i < |samples| ==> IsSample(fmt, samples[i])
  }

  /** Java's `Double.MIN_VALUE`: the smallest POSITIVE double, as Java writes it. */
  const DoubleMinValue: real := 4.9e-324

  /** Java's `Double.MAX_VALUE`, as Java writes it. */
  const DoubleMaxValue: real := 1.7976931348623157e308

  /** A 16-bit sample counts hundredths of a kelvin; `(u - 27315) * 0.01` is degrees Celsius. */
  function Celsius(u: int): (t: real)
    requires IsSample(Gray16, u)
    ensures -273.15 <= t <= 382.20
    ensures (t * 100.0).Floor + 27315 == u
  {
    (u - 27315) as real * 0.01
  }

  /** An 8-bit sample divided by 256: an intensity in [0, 255/256]. */
  function Intensity(u: int): (v: real)
    requires IsSample(Gray8, u)
    ensures 0.0 <= v <= 255.0 / 256.0
    ensures (v * 256.0).Floor == u
  {
    u as real / 256.0
  }

  function Convert(fmt: SampleFormat, u: int): real
    requires IsSample(fmt, u)
  {
    match fmt
    case Gray16 => Celsius(u)
    case Gray8 => Intensity(u)
  }

  /** The running maximum after the first n samples, starting from `start`:
      `if (pixValue > max) max = pixValue;` applied sample by sample. */
  function FrameMax(fmt: SampleFormat, samples: seq<int>, n: nat, start: real): real
    requires AllSamples(fmt, samples) && n <= |samples|
  {
    if n == 0 then start
    else
      var m := FrameMax(fmt, samples, n - 1, start);
      var v := Convert(fmt, samples[n - 1]);
      if v > m then v else m
  }

  /** The running minimum after the first n samples, starting from `start`:
      `if (pixValue < min) min = pixValue;` applied sample by sample. */
  function FrameMin(fmt: SampleFormat, samples: seq<int>, n: nat, start: real): real
    requires AllSamples(fmt, samples) && n <= |samples|
  {
    if n == 0 then start
    else
      var m := FrameMin(fmt, samples, n - 1, start);
      var v := Convert(fmt, samples[n - 1]);
      if v < m then v else m
  }

  /** The running maximum is an upper bound of the start value and of every scanned value,
      and it is one of them. */
  lemma {:induction false} FrameMaxIsMaximum(fmt: SampleFormat, samples: seq<int>, n: nat, start: real)
    requires AllSamples(fmt, samples) && n <= |samples|
    ensures start <= FrameMax(fmt, samples, n, start)
    ensures forall i :: 0 <= i < n ==> Convert(fmt, samples[i]) <= FrameMax(fmt, samples, n, start)
    ensures FrameMax(fmt, samples, n, start) == start
         || exists i :: 0 <= i < n && FrameMax(fmt, samples, n, start) == Convert(fmt, samples[i])
  {
    if n > 0 {
      FrameMaxIsMaximum(fmt, samples, n - 1, start);
    }
  }

  /** The running minimum is a lower bound of the start value and of every scanned value,
      and it is one of them. */
  lemma {:induction false} FrameMinIsMinimum(fmt: SampleFormat, samples: seq<int>, n: nat, start: real)
    requires AllSamples(fmt, samples) && n <= |samples|
    ensures FrameMin(fmt, samples, n, start) <= start
    ensures forall i :: 0 <= i < n ==> FrameMin(fmt, samples, n, start) <= Convert(fmt, samples[i])
    ensures FrameMin(fmt, samples, n, start) == start
         || exists i :: 0 <= i < n && FrameMin(fmt, samples, n, start) == Convert(fmt, samples[i])
  {
    if n > 0 {
      FrameMinIsMinimum(fmt, samples, n - 1, start);
    }
  }

  /** The extremes a listener holds after scanning a non-empty frame bracket every scanned
      value, and since `max` starts at the positive `Double.MIN_VALUE`, it never drops below
      that constant, even on a frame whose every temperature is negative. */
  lemma {:induction false} ScannedExtremes(fmt: SampleFormat, samples: seq<int>, n: nat)
    requires AllSamples(fmt, samples) && 0 < n <= |samples|
    ensures FrameMin(fmt, samples, n, DoubleMaxValue) <= FrameMax(fmt, samples, n, DoubleMinValue)
    ensures 0.0 < DoubleMinValue <= FrameMax(fmt, samples, n, DoubleMinValue)
    ensures FrameMin(fmt, samples, n, DoubleMaxValue) < DoubleMaxValue
  {
    FrameMaxIsMaximum(fmt, samples, n, DoubleMinValue);
    FrameMinIsMinimum(fmt, samples, n, DoubleMaxValue);
    var v := Convert(fmt, samples[0]);
    assert FrameMin(fmt, samples, n, DoubleMaxValue) <= v <= FrameMax(fmt, samples, n, DoubleMinValue);
  }

  lemma MulMonotone(a: int, b: int, w: nat)
    requires a <= b
    ensures a * w <= b * w
  {
    assert b * w - a * w == (b - a) * w;
  }

  /** Row-major addressing: cell (r, c) of a w-column image holds the sample at flat index
      r * w + c. */
  function Flat(r: nat, c: nat, w: nat): nat
  {
    r * w + c
  }

  /** Flat index i is row i / w, column i % w, and no other cell. */
  lemma FlatIndex(i: nat, w: nat, r: nat, c: nat)
    requires c < w
    ensures Flat(r, c, w) == i <==> r == i / w && c == i % w
  {
    var q, m := i / w, i % w;
    assert i == q * w + m && 0 <= m < w;
    if r * w + c == i {
      if r > q {
        MulMonotone(q + 1, r, w);
      } else if r < q {
        MulMonotone(r + 1, q, w);
      }
    }
  }

  /** Every cell of an h-row, w-column image has a flat index below h * w. */
  lemma FlatInRange(r: nat, c: nat, w: nat, h: nat)
    requires r < h && c < w
    ensures Flat(r, c, w) < h * w
  {
    MulMonotone(r + 1, h, w);
  }

  lemma RowOfFlatIndex(i: nat, w: nat, h: nat)
    requires 0 < w && i < h * w
    ensures i / w < h
  {
    if i / w >= h {
      MulMonotone(h, i / w, w);
    }
  }

  /** One pass over the first n samples: the i-th value goes to row i / W, column i % W of
      `img` and is folded into the running extremes, which start at (mn0, mx0). Cells at flat
      index n or beyond keep what they held. */
  method Scan(img: array2<real>, fmt: SampleFormat, samples: seq<int>, n: nat, mn0: real, mx0: real)
    returns (mn: real, mx: real)
    requires AllSamples(fmt, samples)
    requires 0 < img.Length1 && n <= |samples| && n <= img.Length0 * img.Length1
    modifies img
    ensures forall r, c :: 0 <= r < img.Length0 && 0 <= c < img.Length1 ==>
      img[r, c] == if Flat(r, c, img.Length1) < n then Convert(fmt, samples[Flat(r, c, img.Length1)]) else old(img[r, c])
    ensures mn == FrameMin(fmt, samples, n, mn0)
    ensures mx == FrameMax(fmt, samples, n, mx0)
  {
    var w := img.Length1;
    mn, mx := mn0, mx0;
    var i := 0;
    while i < n
      invariant 0 <= i <= n
      invariant mn == FrameMin(fmt, samples, i, mn0)
      invariant mx == FrameMax(fmt, samples, i, mx0)
      invariant forall r, c :: 0 <= r < img.Length0 && 0 <= c < w ==>
        img[r, c] == if Flat(r, c, w) < i then Convert(fmt, samples[Flat(r, c, w)]) else old(img[r, c])
    {
      var v := Convert(fmt, samples[i]);
      if v > mx { mx := v; }
      if v < mn { mn := v; }
      RowOfFlatIndex(i, w, img.Length0);
      img[i / w, i % w] := v;
      forall r, c | 0 <= r < img.Length0 && 0 <= c < w
        ensures Flat(r, c, w) == i <==> r == i / w && c == i % w
      {
        FlatIndex(i, w, r, c);
      }
      i := i + 1;
    }
  }

  /** The same pass without the extremes, as the 512-bucket listener writes it. */
  method Store(img: array2<real>, samples: seq<int>, n: nat)
    requires AllSamples(Gray16, samples)
    requires 0 < img.Length1 && n <= |samples| && n <= img.Length0 * img.Length1
    modifies img
    ensures forall r, c :: 0 <= r < img.Length0 && 0 <= c < img.Length1 ==>
      img[r, c] == if Flat(r, c, img.Length1) < n then Celsius(samples[Flat(r, c, img.Length1)]) else old(img[r, c])
  {
    var w := img.Length1;
    var i := 0;
    while i < n
      invariant 0 <= i <= n
      invariant forall r, c :: 0 <= r < img.Length0 && 0 <= c < w ==>
        img[r, c] == if Flat(r, c, w) < i then Celsius(samples[Flat(r, c, w)]) else old(img[r, c])
    {
      RowOfFlatIndex(i, w, img.Length0);
      img[i / w, i % w] := Celsius(samples[i]);
      forall r, c | 0 <= r < img.Length0 && 0 <= c < w
        ensures Flat(r, c, w) == i <==> r == i / w && c == i % w
      {
        FlatIndex(i, w, r, c);
      }
      i := i + 1;
    }
  }
}
