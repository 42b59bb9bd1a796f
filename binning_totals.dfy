/** Sums over buckets, rows and columns: what the histogram and the projection grids add up
    to, and how they agree with each other. */
module BinningTotals {
  import opened Binning

  /** Number of buckets among the first m that hold v. */
  function BucketSum(e: seq<real>, v: real, m: nat): nat
  {
    if m == 0 then 0 else BucketSum(e, v, m - 1) + Hit(e, v, m - 1)
  }

  /** Over rising edges, the buckets below m hold v exactly once if e[0] <= v < e[m], and
      not at all otherwise. */
  lemma {:induction false} BucketSumBelow(e: seq<real>, v: real, m: nat)
    requires Increasing(e) && m < |e|
    ensures BucketSum(e, v, m) == if e[0] <= v < e[m] then 1 else 0
  {
    if m > 0 {
      BucketSumBelow(e, v, m - 1);
      if m - 1 > 0 {
        assert e[0] < e[m - 1];
      }
    }
  }

  /** Over rising edges, a value is counted in exactly one bucket when
      e[0] <= v < e[|e| - 1] and in none otherwise: values in the top bucket's range and
      beyond, and values below e[0], are simply not counted. */
  lemma CountedOnce(e: seq<real>, v: real)
    requires Increasing(e) && 0 < |e|
    ensures BucketSum(e, v, |e|) == if e[0] <= v < e[|e| - 1] then 1 else 0
  {
    BucketSumBelow(e, v, |e| - 1);
    assert !InBucket(e, v, |e| - 1);
  }

  /** Number of the first n values of a row with lo <= v < hi. */
  function RowInRange(row: seq<real>, n: nat, lo: real, hi: real): (r: nat)
    requires n <= |row|
    ensures r <= n
  {
    if n == 0 then 0
    else RowInRange(row, n - 1, lo, hi) + if lo <= row[n - 1] < hi then 1 else 0
  }

  /** Number of values in the first r rows of px with lo <= v < hi. */
  function GridInRange(px: seq<seq<real>>, r: nat, lo: real, hi: real): nat
    requires r <= |px|
  {
    if r == 0 then 0 else GridInRange(px, r - 1, lo, hi) + RowInRange(px[r - 1], |px[r - 1]|, lo, hi)
  }

  /** The sum over the first m buckets of a row's counts. */
  function RowBucketSum(row: seq<real>, n: nat, e: seq<real>, m: nat): nat
    requires n <= |row|
  {
    if m == 0 then 0 else RowBucketSum(row, n, e, m - 1) + RowCount(row, n, e, m - 1)
  }

  lemma {:induction false} RowBucketSumStep(row: seq<real>, n: nat, e: seq<real>, m: nat)
    requires n < |row|
    ensures RowBucketSum(row, n + 1, e, m) == RowBucketSum(row, n, e, m) + BucketSum(e, row[n], m)
  {
    if m > 0 {
      RowBucketSumStep(row, n, e, m - 1);
    }
  }

  /** The row projection of an uncapped listener sums, along row r, to the number of that
      row's values in [e[0], e[|e| - 1]). */
  lemma {:induction false} RowBucketTotal(row: seq<real>, n: nat, e: seq<real>)
    requires Increasing(e) && 0 < |e| && n <= |row|
    ensures RowBucketSum(row, n, e, |e|) == RowInRange(row, n, e[0], e[|e| - 1])
  {
    if n > 0 {
      RowBucketTotal(row, n - 1, e);
      RowBucketSumStep(row, n - 1, e, |e|);
      CountedOnce(e, row[n - 1]);
    } else {
      RowBucketSumZero(row, e, |e|);
    }
  }

  lemma {:induction false} RowBucketSumZero(row: seq<real>, e: seq<real>, m: nat)
    ensures RowBucketSum(row, 0, e, m) == 0
  {
    if m > 0 {
      RowBucketSumZero(row, e, m - 1);
    }
  }

  /** The sum over the first m buckets of the grid counts of the first r rows. */
  function GridBucketSum(px: seq<seq<real>>, r: nat, e: seq<real>, m: nat): nat
    requires r <= |px|
  {
    if m == 0 then 0 else GridBucketSum(px, r, e, m - 1) + GridCount(px, r, e, m - 1)
  }

  lemma {:induction false} GridBucketSumStep(px: seq<seq<real>>, r: nat, e: seq<real>, m: nat)
    requires r < |px|
    ensures GridBucketSum(px, r + 1, e, m) == GridBucketSum(px, r, e, m) + RowBucketSum(px[r], |px[r]|, e, m)
  {
    if m > 0 {
      GridBucketSumStep(px, r, e, m - 1);
    }
  }

  lemma {:induction false} GridBucketSumZero(px: seq<seq<real>>, e: seq<real>, m: nat)
    ensures GridBucketSum(px, 0, e, m) == 0
  {
    if m > 0 {
      GridBucketSumZero(px, e, m - 1);
    }
  }

  /** Over rising edges the bucket counts add up to the number of pixels in
      [e[0], e[|e| - 1]): every such pixel once, every other pixel not at all. */
  lemma {:induction false} GridTotal(px: seq<seq<real>>, r: nat, e: seq<real>)
    requires Increasing(e) && 0 < |e| && r <= |px|
    ensures GridBucketSum(px, r, e, |e|) == GridInRange(px, r, e[0], e[|e| - 1])
  {
    if r > 0 {
      GridTotal(px, r - 1, e);
      GridBucketSumStep(px, r - 1, e, |e|);
      RowBucketTotal(px[r - 1], |px[r - 1]|, e);
    } else {
      GridBucketSumZero(px, e, |e|);
    }
  }

  /** The counted pixels are at most all H * W of them; the histogram total can fall short. */
  lemma {:induction false} InRangeAtMostAll(px: seq<seq<real>>, r: nat, w: nat, lo: real, hi: real)
    requires Rectangular(px, w) && r <= |px|
    ensures GridInRange(px, r, lo, hi) <= r * w
  {
    if r > 0 {
      InRangeAtMostAll(px, r - 1, w, lo, hi);
      assert r * w == (r - 1) * w + w;
    }
  }

  /** Sum of a sequence of histogram values. */
  function Sum(s: seq<real>): real
  {
    if s == [] then 0.0 else Sum(s[..|s| - 1]) + s[|s| - 1]
  }

  /** A histogram whose bucket k holds base + (count of bucket k) sums to
      |hist| * base plus the counts' sum. */
  lemma {:induction false} HistogramSum(hist: seq<real>, base: nat, px: seq<seq<real>>, e: seq<real>)
    requires forall k :: 0 <= k < |hist| ==> hist[k] == (base + GridCount(px, |px|, e, k)) as real
    ensures Sum(hist) == (|hist| * base + GridBucketSum(px, |px|, e, |hist|)) as real
  {
    if hist != [] {
      var m := |hist| - 1;
      var prefix := hist[..m];
      HistogramSum(prefix, base, px, e);
      assert Sum(hist) == Sum(prefix) + hist[m];
      assert (m + 1) * base == m * base + base;
    }
  }

  /** A histogram holding bucket counts alone sums to the counts' sum. */
  lemma CountsSum(hist: seq<real>, px: seq<seq<real>>, e: seq<real>)
    requires forall k :: 0 <= k < |hist| ==> hist[k] == GridCount(px, |px|, e, k) as real
    ensures Sum(hist) == GridBucketSum(px, |px|, e, |hist|) as real
  {
    HistogramSum(hist, 0, px, e);
  }

  /** A histogram of counts (zeroed before the frame, as the 128-bucket listeners do) over
      rising edges sums to the number of pixels in [e[0], e[|e| - 1]), at most all of them. */
  lemma HistogramTotal(hist: seq<real>, px: seq<seq<real>>, w: nat, e: seq<real>)
    requires Increasing(e) && |hist| == |e| > 0 && Rectangular(px, w)
    requires forall k :: 0 <= k < |hist| ==> hist[k] == GridCount(px, |px|, e, k) as real
    ensures Sum(hist) == GridInRange(px, |px|, e[0], e[|e| - 1]) as real
    ensures Sum(hist) <= (|px| * w) as real
  {
    CountsSum(hist, px, e);
    GridTotal(px, |px|, e);
    InRangeAtMostAll(px, |px|, w, e[0], e[|e| - 1]);
  }

  /** Sum over the first cs columns of the column counts of the first r rows. */
  function ColSum(px: seq<seq<real>>, r: nat, e: seq<real>, k: int, cs: nat): nat
    requires r <= |px| && forall c :: 0 <= c < cs ==> HasColumn(px, c)
  {
    if cs == 0 then 0 else ColSum(px, r, e, k, cs - 1) + ColCount(px, cs - 1, r, e, k)
  }

  lemma {:induction false} ColSumStep(px: seq<seq<real>>, r: nat, e: seq<real>, k: int, cs: nat)
    requires r < |px| && cs <= |px[r]| && forall c :: 0 <= c < cs ==> HasColumn(px, c)
    ensures ColSum(px, r + 1, e, k, cs) == ColSum(px, r, e, k, cs) + RowCount(px[r], cs, e, k)
  {
    if cs > 0 {
      ColSumStep(px, r, e, k, cs - 1);
    }
  }

  lemma {:induction false} ColSumZero(px: seq<seq<real>>, e: seq<real>, k: int, cs: nat)
    requires forall c :: 0 <= c < cs ==> HasColumn(px, c)
    ensures ColSum(px, 0, e, k, cs) == 0
  {
    if cs > 0 {
      ColSumZero(px, e, k, cs - 1);
    }
  }

  /** Counting bucket k's pixels row by row (the row projection's column k, i.e. the
      histogram) or column by column (the column projection's row |e| - 1 - k) gives the
      same number. */
  lemma {:induction false} ProjectionsAgree(px: seq<seq<real>>, r: nat, w: nat, e: seq<real>, k: int)
    requires Rectangular(px, w) && r <= |px|
    ensures forall c :: 0 <= c < w ==> HasColumn(px, c)
    ensures ColSum(px, r, e, k, w) == GridCount(px, r, e, k)
  {
    assert forall c :: 0 <= c < w ==> HasColumn(px, c);
    if r > 0 {
      ProjectionsAgree(px, r - 1, w, e, k);
      ColSumStep(px, r - 1, e, k, w);
    } else {
      ColSumZero(px, e, k, w);
    }
  }

  /** Sum of column k of a grid over its first n rows. */
  ghost function ColumnTotal(g: array2<real>, k: int, n: nat): real
    reads g
    requires n <= g.Length0 && 0 <= k < g.Length1
  {
    if n == 0 then 0.0 else ColumnTotal(g, k, n - 1) + g[n - 1, k]
  }

  /** Sum of row j of a grid over its first n columns. */
  ghost function RowTotal(g: array2<real>, j: int, n: nat): real
    reads g
    requires 0 <= j < g.Length0 && n <= g.Length1
  {
    if n == 0 then 0.0 else RowTotal(g, j, n - 1) + g[j, n - 1]
  }

  /** A grid column holding, row by row, each row's count in bucket k adds up to the count of
      bucket k over those rows. */
  lemma {:induction false} ColumnOfRowCounts(g: array2<real>, px: seq<seq<real>>, e: seq<real>, k: int, n: nat)
    requires n <= g.Length0 && n <= |px| && 0 <= k < g.Length1
    requires forall r :: 0 <= r < n ==> g[r, k] == RowCount(px[r], |px[r]|, e, k) as real
    ensures ColumnTotal(g, k, n) == GridCount(px, n, e, k) as real
  {
    if n > 0 {
      ColumnOfRowCounts(g, px, e, k, n - 1);
    }
  }

  /** A grid row holding, column by column, each column's count in bucket k adds up to the
      sum of those column counts. */
  lemma {:induction false} RowOfColumnCounts(g: array2<real>, j: int, px: seq<seq<real>>, e: seq<real>, k: int, n: nat)
    requires 0 <= j < g.Length0 && n <= g.Length1
    requires forall c :: 0 <= c < n ==> HasColumn(px, c)
    requires forall c :: 0 <= c < n ==> g[j, c] == ColCount(px, c, |px|, e, k) as real
    ensures RowTotal(g, j, n) == ColSum(px, |px|, e, k, n) as real
  {
    if n > 0 {
      RowOfColumnCounts(g, j, px, e, k, n - 1);
    }
  }
}
