/** Bucket edges, the half-open bucket rule, the counts a histogram and the two projection
    grids are meant to hold, and the loops that fill them in place. */
module Binning {

  /** Edge i of n equal-width buckets from lo: `lo + stepSize * i` with
      `stepSize = (hi - lo) / n`. */
  function Edge(lo: real, hi: real, n: nat, i: int): real
    requires n > 0
  {
    lo + (hi - lo) / n as real * i as real
  }

  function Edges(lo: real, hi: real, n: nat): (e: seq<real>)
    requires n > 0
    ensures |e| == n
    ensures forall i :: 0 <= i < n ==> e[i] == Edge(lo, hi, n, i)
  {
    seq(n, i requires 0 <= i < n => Edge(lo, hi, n, i))
  }

  predicate Increasing(e: seq<real>)
  {
    forall i, j :: 0 <= i < j < |e| ==> e[i] < e[j]
  }

  /** Bucket k holds the values v with e[k] <= v < e[k + 1]. The scan over k stops at
      |e| - 1, so only k + 1 < |e| qualifies: the top bucket is never filled, and values
      below e[0] or at or above e[|e| - 1] fall in no bucket. */
  predicate InBucket(e: seq<real>, v: real, k: int)
  {
    0 <= k && k + 1 < |e| && e[k] <= v < e[k + 1]
  }

  function Hit(e: seq<real>, v: real, k: int): nat
  {
    if InBucket(e, v, k) then 1 else 0
  }

  /** Equal-width edges rise strictly exactly when the range is non-empty. */
  lemma EdgesIncreasing(lo: real, hi: real, n: nat)
    requires n >= 2
    ensures Increasing(Edges(lo, hi, n)) <==> lo < hi
  {
    var e := Edges(lo, hi, n);
    var step := (hi - lo) / n as real;
    if lo < hi {
      assert step > 0.0;
      forall i, j | 0 <= i < j < n
        ensures e[i] < e[j]
      {
        assert e[j] - e[i] == step * (j - i) as real;
        assert step * (j - i) as real > 0.0;
      }
    } else {
      assert e[1] - e[0] == step <= 0.0;
    }
  }

  /** When pixMax <= pixMin no value lies in any bucket. */
  lemma CollapsedRangeHasNoBucket(lo: real, hi: real, n: nat, v: real, k: int)
    requires n > 0 && hi <= lo
    ensures !InBucket(Edges(lo, hi, n), v, k)
  {
    if 0 <= k && k + 1 < n {
      var e := Edges(lo, hi, n);
      assert e[k + 1] - e[k] == (hi - lo) / n as real <= 0.0;
    }
  }

  /** With rising edges a value lies in at most one bucket, so the scan counts it at most once. */
  lemma BucketUnique(e: seq<real>, v: real, j: int, k: int)
    requires Increasing(e) && InBucket(e, v, j) && InBucket(e, v, k)
    ensures j == k
  {
  }

  /** Number of the first n values of a row that lie in bucket k. */
  function RowCount(row: seq<real>, n: nat, e: seq<real>, k: int): (count: nat)
    requires n <= |row|
    ensures count <= n
  {
    if n == 0 then 0 else RowCount(row, n - 1, e, k) + Hit(e, row[n - 1], k)
  }

  /** Every row of px has a column c. */
  predicate HasColumn(px: seq<seq<real>>, c: nat)
  {
    forall r :: 0 <= r < |px| ==> c < |px[r]|
  }

  /** All rows of px have w values. */
  predicate Rectangular(px: seq<seq<real>>, w: nat)
  {
    forall r :: 0 <= r < |px| ==> |px[r]| == w
  }

  /** Number of the first n rows whose value in column c lies in bucket k. */
  function ColCount(px: seq<seq<real>>, c: nat, n: nat, e: seq<real>, k: int): (count: nat)
    requires n <= |px| && HasColumn(px, c)
    ensures count <= n
  {
    if n == 0 then 0 else ColCount(px, c, n - 1, e, k) + Hit(e, px[n - 1][c], k)
  }

  /** Number of values in the first n rows of px that lie in bucket k. */
  function GridCount(px: seq<seq<real>>, n: nat, e: seq<real>, k: int): nat
    requires n <= |px|
  {
    if n == 0 then 0 else GridCount(px, n - 1, e, k) + RowCount(px[n - 1], |px[n - 1]|, e, k)
  }

  lemma {:induction false} RowCountZero(row: seq<real>, n: nat, e: seq<real>, k: int)
    requires n <= |row| && forall v :: !InBucket(e, v, k)
    ensures RowCount(row, n, e, k) == 0
  {
    if n > 0 {
      RowCountZero(row, n - 1, e, k);
      assert !InBucket(e, row[n - 1], k);
    }
  }

  lemma {:induction false} ColCountZero(px: seq<seq<real>>, c: nat, n: nat, e: seq<real>, k: int)
    requires n <= |px| && HasColumn(px, c) && forall v :: !InBucket(e, v, k)
    ensures ColCount(px, c, n, e, k) == 0
  {
    if n > 0 {
      ColCountZero(px, c, n - 1, e, k);
      assert !InBucket(e, px[n - 1][c], k);
    }
  }

  lemma {:induction false} GridCountZero(px: seq<seq<real>>, n: nat, e: seq<real>, k: int)
    requires n <= |px| && forall v :: !InBucket(e, v, k)
    ensures GridCount(px, n, e, k) == 0
  {
    if n > 0 {
      GridCountZero(px, n - 1, e, k);
      RowCountZero(px[n - 1], |px[n - 1]|, e, k);
    }
  }

  /** The top bucket |e| - 1 is never filled: in the histogram, in any row of the row
      projection, or in any column of the column projection. */
  lemma TopBucketEmpty(px: seq<seq<real>>, e: seq<real>, r: nat, c: nat)
    requires 0 < |e| && r < |px| && HasColumn(px, c)
    ensures GridCount(px, |px|, e, |e| - 1) == 0
    ensures RowCount(px[r], |px[r]|, e, |e| - 1) == 0
    ensures ColCount(px, c, |px|, e, |e| - 1) == 0
  {
    GridCountZero(px, |px|, e, |e| - 1);
    RowCountZero(px[r], |px[r]|, e, |e| - 1);
    ColCountZero(px, c, |px|, e, |e| - 1);
  }

  /** When pixMax <= pixMin every bucket count is zero. */
  lemma CollapsedRangeCountsNothing(px: seq<seq<real>>, lo: real, hi: real, n: nat, k: int)
    requires n > 0 && hi <= lo
    ensures GridCount(px, |px|, Edges(lo, hi, n), k) == 0
  {
    forall v
      ensures !InBucket(Edges(lo, hi, n), v, k)
    {
      CollapsedRangeHasNoBucket(lo, hi, n, v, k);
    }
    GridCountZero(px, |px|, Edges(lo, hi, n), k);
  }

  /** The per-cell ceiling of a projection grid: none, or a cap such as 16. */
  datatype Ceiling = Unbounded | AtMost(limit: nat)

  /** What a projection cell holds after n matching pixels, the ceiling applied. */
  function Capped(n: nat, ceiling: Ceiling): nat
  {
    match ceiling
    case Unbounded => n
    case AtMost(m) => if n < m then n else m
  }

  /** One guarded increment of a projection cell: `if (cell < 16) cell++` under a cap,
      plain `cell++` without one. */
  function Bump(x: real, hit: bool, ceiling: Ceiling): (y: real)
    ensures x <= y <= x + 1.0
    ensures !hit ==> y == x
    ensures ceiling.AtMost? && x >= ceiling.limit as real ==> y == x
    ensures ceiling.Unbounded? ==> y == if hit then x + 1.0 else x
  {
    if hit && (ceiling.Unbounded? || x < ceiling.limit as real) then x + 1.0 else x
  }

  /** Guarded increments, one per matching pixel, starting from 0, leave min(count, cap). */
  lemma BumpCapped(n: nat, hit: bool, ceiling: Ceiling)
    ensures Bump(Capped(n, ceiling) as real, hit, ceiling) == Capped(n + if hit then 1 else 0, ceiling) as real
  {
  }

  /** Counting the cell at row r, column c moves row r's count past column c and column c's
      count past row r, each by one guarded increment. */
  lemma CellStep(px: seq<seq<real>>, r: nat, c: nat, e: seq<real>, k: int, ceiling: Ceiling)
    requires r < |px| && c < |px[r]| && HasColumn(px, c)
    ensures Bump(Capped(RowCount(px[r], c, e, k), ceiling) as real, InBucket(e, px[r][c], k), ceiling)
         == Capped(RowCount(px[r], c + 1, e, k), ceiling) as real
    ensures Bump(Capped(ColCount(px, c, r, e, k), ceiling) as real, InBucket(e, px[r][c], k), ceiling)
         == Capped(ColCount(px, c, r + 1, e, k), ceiling) as real
  {
    BumpCapped(RowCount(px[r], c, e, k), InBucket(e, px[r][c], k), ceiling);
    BumpCapped(ColCount(px, c, r, e, k), InBucket(e, px[r][c], k), ceiling);
  }

  /** The image as rows of values. */
  ghost function Grid(img: array2<real>): (px: seq<seq<real>>)
    reads img
    ensures |px| == img.Length0
    ensures forall r :: 0 <= r < |px| ==> |px[r]| == img.Length1
    ensures forall r, c :: 0 <= r < img.Length0 && 0 <= c < img.Length1 ==> px[r][c] == img[r, c]
  {
    seq(img.Length0, r requires 0 <= r < img.Length0 reads img =>
      seq(img.Length1, c requires 0 <= c < img.Length1 reads img => img[r, c]))
  }

  /** A fresh array holding 0, 1, ..., n - 1: a pixel scale. */
  method Ramp(n: nat) returns (a: array<real>)
    ensures fresh(a) && a.Length == n
    ensures forall i :: 0 <= i < n ==> a[i] == i as real
  {
    a := new real[n](_ => 0.0);
    for i := 0 to n
      invariant forall j :: 0 <= j < i ==> a[j] == j as real
    {
      a[i] := i as real;
    }
  }

  /** `Arrays.fill(a, v)`. */
  method Fill(a: array<real>, v: real)
    modifies a
    ensures forall i :: 0 <= i < a.Length ==> a[i] == v
  {
    for i := 0 to a.Length
      invariant forall j :: 0 <= j < i ==> a[j] == v
    {
      a[i] := v;
    }
  }

  /** `Arrays.fill` on every row of a grid. */
  method FillRows(g: array2<real>, v: real)
    modifies g
    ensures forall i, j :: 0 <= i < g.Length0 && 0 <= j < g.Length1 ==> g[i, j] == v
  {
    for i := 0 to g.Length0
      invariant forall i', j :: 0 <= i' < i && 0 <= j < g.Length1 ==> g[i', j] == v
    {
      for j := 0 to g.Length1
        invariant forall i', j' :: 0 <= i' < i && 0 <= j' < g.Length1 ==> g[i', j'] == v
        invariant forall j' :: 0 <= j' < j ==> g[i, j'] == v
      {
        g[i, j] := v;
      }
    }
  }

  /** The edge loop: `stepSize = (hi - lo) / a.length; a[i] = lo + stepSize * i`. */
  method FillEdges(a: array<real>, lo: real, hi: real)
    requires a.Length > 0
    modifies a
    ensures a[..] == Edges(lo, hi, a.Length)
  {
    var stepSize := (hi - lo) / a.Length as real;
    for i := 0 to a.Length
      invariant forall j :: 0 <= j < i ==> a[j] == Edge(lo, hi, a.Length, j)
    {
      a[i] := lo + stepSize * i as real;
    }
  }

  /** The bucket scan of one pixel value v at row r, column c: for every k below
      |e| - 1 with e[k] <= v < e[k + 1], count v in the histogram at k, in row r of the
      row projection at k, and in column c of the column projection at the inverted
      bucket |e| - 1 - k. */
  method BinPixel(v: real, r: nat, c: nat, e: array<real>, ghost es: seq<real>, hist: array<real>,
                  hor: array2<real>, vert: array2<real>, ceiling: Ceiling)
    requires es == e[..]
    requires 0 < e.Length && hist.Length == e.Length && hor.Length1 == e.Length && vert.Length0 == e.Length
    requires r < hor.Length0 && c < vert.Length1
    requires e != hist && hor != vert
    modifies hist, hor, vert
    ensures forall k :: 0 <= k < hist.Length ==> hist[k] == old(hist[k]) + Hit(es, v, k) as real
    ensures forall i, k :: 0 <= i < hor.Length0 && 0 <= k < hor.Length1 ==>
      hor[i, k] == if i == r then Bump(old(hor[i, k]), InBucket(es, v, k), ceiling) else old(hor[i, k])
    ensures forall j, x :: 0 <= j < vert.Length0 && 0 <= x < vert.Length1 ==>
      vert[j, x] == if x == c then Bump(old(vert[j, x]), InBucket(es, v, e.Length - 1 - j), ceiling) else old(vert[j, x])
  {
    var n := e.Length;
    var k := 0;
    while k < n - 1
      invariant 0 <= k <= n - 1
      invariant forall k' :: 0 <= k' < n ==>
        hist[k'] == old(hist[k']) + (if k' < k then Hit(es, v, k') else 0) as real
      invariant forall i, k' :: 0 <= i < hor.Length0 && 0 <= k' < n ==>
        hor[i, k'] == if i == r && k' < k then Bump(old(hor[i, k']), InBucket(es, v, k'), ceiling) else old(hor[i, k'])
      invariant forall j, x :: 0 <= j < n && 0 <= x < vert.Length1 ==>
        vert[j, x] == if x == c && n - 1 - j < k then Bump(old(vert[j, x]), InBucket(es, v, n - 1 - j), ceiling) else old(vert[j, x])
    {
      if v >= e[k] && v < e[k + 1] {
        hist[k] := hist[k] + 1.0;
        if ceiling.Unbounded? || hor[r, k] < ceiling.limit as real {
          hor[r, k] := hor[r, k] + 1.0;
        }
        if ceiling.Unbounded? || vert[n - 1 - k, c] < ceiling.limit as real {
          vert[n - 1 - k, c] := vert[n - 1 - k, c] + 1.0;
        }
      }
      k := k + 1;
    }
  }

  /** The cell at row r, column c of the triple loop: row r's counts move past column c,
      column c's counts past row r, and the other cells keep their values. */
  method BinCell(img: array2<real>, ghost px: seq<seq<real>>, r: nat, c: nat, e: array<real>, ghost es: seq<real>,
                 ghost h0: seq<real>, hist: array<real>, hor: array2<real>, vert: array2<real>, ceiling: Ceiling)
    requires |px| == img.Length0 && Rectangular(px, img.Length1) && es == e[..] && |h0| == hist.Length
    requires 0 < e.Length && hist.Length == e.Length && hor.Length1 == e.Length && vert.Length0 == e.Length
    requires r < img.Length0 && c < img.Length1 && hor.Length0 == img.Length0 && vert.Length1 == img.Length1
    requires img[r, c] == px[r][c]
    requires e != hist && img != hor && img != vert && hor != vert
    requires forall k :: 0 <= k < hist.Length ==>
      hist[k] == h0[k] + (GridCount(px, r, es, k) + RowCount(px[r], c, es, k)) as real
    requires forall k :: 0 <= k < hor.Length1 ==> hor[r, k] == Capped(RowCount(px[r], c, es, k), ceiling) as real
    requires forall j :: 0 <= j < vert.Length0 ==> vert[j, c] == Capped(ColCount(px, c, r, es, e.Length - 1 - j), ceiling) as real
    modifies hist, hor, vert
    ensures forall k :: 0 <= k < hist.Length ==>
      hist[k] == h0[k] + (GridCount(px, r, es, k) + RowCount(px[r], c + 1, es, k)) as real
    ensures forall k :: 0 <= k < hor.Length1 ==> hor[r, k] == Capped(RowCount(px[r], c + 1, es, k), ceiling) as real
    ensures forall j :: 0 <= j < vert.Length0 ==> vert[j, c] == Capped(ColCount(px, c, r + 1, es, e.Length - 1 - j), ceiling) as real
    ensures forall i, k :: 0 <= i < hor.Length0 && 0 <= k < hor.Length1 && i != r ==> hor[i, k] == old(hor[i, k])
    ensures forall j, x :: 0 <= j < vert.Length0 && 0 <= x < vert.Length1 && x != c ==> vert[j, x] == old(vert[j, x])
  {
    var v := img[r, c];
    assert v == px[r][c];
    BinPixel(v, r, c, e, es, hist, hor, vert, ceiling);
    forall k | 0 <= k < e.Length
      ensures Bump(Capped(RowCount(px[r], c, es, k), ceiling) as real, InBucket(es, v, k), ceiling)
           == Capped(RowCount(px[r], c + 1, es, k), ceiling) as real
      ensures Bump(Capped(ColCount(px, c, r, es, k), ceiling) as real, InBucket(es, v, k), ceiling)
           == Capped(ColCount(px, c, r + 1, es, k), ceiling) as real
    {
      CellStep(px, r, c, es, k, ceiling);
    }
  }

  /** One row r of the triple loop: the columns of row r, each scanned over the buckets.
      The projections hold the counts of the rows above r, the rows below still zero;
      afterwards they include row r. */
  method AccumulateRow(img: array2<real>, ghost px: seq<seq<real>>, r: nat, e: array<real>, ghost es: seq<real>,
                       ghost h0: seq<real>, hist: array<real>, hor: array2<real>, vert: array2<real>, ceiling: Ceiling)
    requires |px| == img.Length0 && Rectangular(px, img.Length1) && es == e[..] && |h0| == hist.Length
    requires 0 < e.Length && hist.Length == e.Length && hor.Length1 == e.Length && vert.Length0 == e.Length
    requires r < img.Length0 && hor.Length0 == img.Length0 && vert.Length1 == img.Length1
    requires forall c :: 0 <= c < img.Length1 ==> img[r, c] == px[r][c]
    requires e != hist && img != hor && img != vert && hor != vert
    requires forall k :: 0 <= k < hist.Length ==> hist[k] == h0[k] + GridCount(px, r, es, k) as real
    requires forall i, k :: 0 <= i < hor.Length0 && 0 <= k < hor.Length1 ==>
      hor[i, k] == if i < r then Capped(RowCount(px[i], img.Length1, es, k), ceiling) as real else 0.0
    requires forall j, x :: 0 <= j < vert.Length0 && 0 <= x < vert.Length1 ==>
      vert[j, x] == Capped(ColCount(px, x, r, es, e.Length - 1 - j), ceiling) as real
    modifies hist, hor, vert
    ensures forall k :: 0 <= k < hist.Length ==> hist[k] == h0[k] + GridCount(px, r + 1, es, k) as real
    ensures forall i, k :: 0 <= i < hor.Length0 && 0 <= k < hor.Length1 ==>
      hor[i, k] == if i < r + 1 then Capped(RowCount(px[i], img.Length1, es, k), ceiling) as real else 0.0
    ensures forall j, x :: 0 <= j < vert.Length0 && 0 <= x < vert.Length1 ==>
      vert[j, x] == Capped(ColCount(px, x, r + 1, es, e.Length - 1 - j), ceiling) as real
  {
    var n, w := e.Length, img.Length1;
    var c := 0;
    while c < w
      invariant 0 <= c <= w
      invariant forall k :: 0 <= k < n ==> hist[k] == h0[k] + (GridCount(px, r, es, k) + RowCount(px[r], c, es, k)) as real
      invariant forall i, k :: 0 <= i < hor.Length0 && 0 <= k < n ==>
        hor[i, k] == if i == r then Capped(RowCount(px[r], c, es, k), ceiling) as real else old(hor[i, k])
      invariant forall j, x :: 0 <= j < n && 0 <= x < w ==>
        vert[j, x] == Capped(ColCount(px, x, if x < c then r + 1 else r, es, n - 1 - j), ceiling) as real
    {
      BinCell(img, px, r, c, e, es, h0, hist, hor, vert, ceiling);
      c := c + 1;
    }
    assert |px[r]| == w;
  }

  /** The loop over the rows of the triple loop, on the image's rows px and the edges es. */
  method AccumulateRows(img: array2<real>, ghost px: seq<seq<real>>, e: array<real>, ghost es: seq<real>,
                        hist: array<real>, hor: array2<real>, vert: array2<real>, ceiling: Ceiling)
    requires |px| == img.Length0 && Rectangular(px, img.Length1) && es == e[..]
    requires forall i, c :: 0 <= i < img.Length0 && 0 <= c < img.Length1 ==> img[i, c] == px[i][c]
    requires 0 < e.Length && hist.Length == e.Length && hor.Length1 == e.Length && vert.Length0 == e.Length
    requires hor.Length0 == img.Length0 && vert.Length1 == img.Length1
    requires e != hist && img != hor && img != vert && hor != vert
    requires forall i, k :: 0 <= i < hor.Length0 && 0 <= k < hor.Length1 ==> hor[i, k] == 0.0
    requires forall j, x :: 0 <= j < vert.Length0 && 0 <= x < vert.Length1 ==> vert[j, x] == 0.0
    modifies hist, hor, vert
    ensures forall k :: 0 <= k < hist.Length ==> hist[k] == old(hist[k]) + GridCount(px, |px|, es, k) as real
    ensures forall i, k :: 0 <= i < hor.Length0 && 0 <= k < hor.Length1 ==>
      hor[i, k] == Capped(RowCount(px[i], img.Length1, es, k), ceiling) as real
    ensures forall j, x :: 0 <= j < vert.Length0 && 0 <= x < vert.Length1 ==>
      vert[j, x] == Capped(ColCount(px, x, |px|, es, e.Length - 1 - j), ceiling) as real
  {
    var n, h, w := e.Length, img.Length0, img.Length1;
    ghost var h0 := hist[..];
    var r := 0;
    while r < h
      invariant 0 <= r <= h
      invariant forall k :: 0 <= k < n ==> hist[k] == h0[k] + GridCount(px, r, es, k) as real
      invariant forall i, k :: 0 <= i < h && 0 <= k < n ==>
        hor[i, k] == if i < r then Capped(RowCount(px[i], w, es, k), ceiling) as real else 0.0
      invariant forall j, x :: 0 <= j < n && 0 <= x < w ==>
        vert[j, x] == Capped(ColCount(px, x, r, es, n - 1 - j), ceiling) as real
    {
      AccumulateRow(img, px, r, e, es, h0, hist, hor, vert, ceiling);
      r := r + 1;
    }
  }

  /** The triple loop over rows, columns and buckets, on zeroed projection grids: the
      histogram gains each bucket's count, each row-projection cell (r, k) holds row r's
      count in bucket k, and each column-projection cell (j, c) holds column c's count in
      the inverted bucket |e| - 1 - j, both under the ceiling. */
  method Accumulate(img: array2<real>, e: array<real>, hist: array<real>,
                    hor: array2<real>, vert: array2<real>, ceiling: Ceiling)
    requires 0 < e.Length && hist.Length == e.Length && hor.Length1 == e.Length && vert.Length0 == e.Length
    requires hor.Length0 == img.Length0 && vert.Length1 == img.Length1
    requires e != hist && img != hor && img != vert && hor != vert
    requires forall i, k :: 0 <= i < hor.Length0 && 0 <= k < hor.Length1 ==> hor[i, k] == 0.0
    requires forall j, x :: 0 <= j < vert.Length0 && 0 <= x < vert.Length1 ==> vert[j, x] == 0.0
    modifies hist, hor, vert
    ensures forall k :: 0 <= k < hist.Length ==>
      hist[k] == old(hist[k]) + GridCount(Grid(img), img.Length0, e[..], k) as real
    ensures forall i, k :: 0 <= i < hor.Length0 && 0 <= k < hor.Length1 ==>
      hor[i, k] == Capped(RowCount(Grid(img)[i], img.Length1, e[..], k), ceiling) as real
    ensures forall j, x :: 0 <= j < vert.Length0 && 0 <= x < vert.Length1 ==>
      vert[j, x] == Capped(ColCount(Grid(img), x, img.Length0, e[..], e.Length - 1 - j), ceiling) as real
  {
    AccumulateRows(img, Grid(img), e, e[..], hist, hor, vert, ceiling);
  }

  /** The bucket scan of one pixel value for the histogram alone. */
  method BinValue(v: real, e: array<real>, hist: array<real>)
    requires hist.Length == e.Length && e != hist
    modifies hist
    ensures forall k :: 0 <= k < hist.Length ==> hist[k] == old(hist[k]) + Hit(e[..], v, k) as real
  {
    var n := e.Length;
    var k := 0;
    while k < n - 1
      invariant 0 <= k <= if n == 0 then 0 else n - 1
      invariant forall k' :: 0 <= k' < n ==>
        hist[k'] == old(hist[k']) + (if k' < k then Hit(e[..], v, k') else 0) as real
    {
      if v >= e[k] && v < e[k + 1] {
        hist[k] := hist[k] + 1.0;
      }
      k := k + 1;
    }
  }

  /** The double loop over rows and columns adding each pixel to the histogram. */
  method AccumulateHistogram(img: array2<real>, e: array<real>, hist: array<real>)
    requires hist.Length == e.Length && e != hist
    modifies hist
    ensures forall k :: 0 <= k < hist.Length ==>
      hist[k] == old(hist[k]) + GridCount(Grid(img), img.Length0, e[..], k) as real
  {
    ghost var px := Grid(img);
    var n, h, w := e.Length, img.Length0, img.Length1;
    var r := 0;
    while r < h
      invariant 0 <= r <= h
      invariant forall k :: 0 <= k < n ==> hist[k] == old(hist[k]) + GridCount(px, r, e[..], k) as real
    {
      var c := 0;
      while c < w
        invariant 0 <= c <= w
        invariant forall k :: 0 <= k < n ==>
          hist[k] == old(hist[k]) + (GridCount(px, r, e[..], k) + RowCount(px[r], c, e[..], k)) as real
      {
        BinValue(img[r, c], e, hist);
        c := c + 1;
      }
      r := r + 1;
    }
  }
}
