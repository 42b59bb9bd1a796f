/** The adaptive display range [pixMin, pixMax]: once per frame each end is pulled a fixed
    fraction 1/k of the way toward that frame's extreme (k is 4 in one listener, 32 in another). */
module DisplayRange {

  /** The `pixMax` update as the listeners write it, in two branches:
      grow by (max - pixMax) / k when the frame's max is above, otherwise shrink by
      (pixMax - max) / k. Both branches are the one-pole step cur + (target - cur) / k. */
  function TowardMax(cur: real, target: real, k: nat): (r: real)
    requires k >= 1
    ensures r == cur + (target - cur) / k as real
    ensures cur <= r <= target || target <= r <= cur
    ensures r - target == (cur - target) * (k - 1) as real / k as real
    ensures r == cur <==> target == cur
  {
    if target > cur then cur + (target - cur) / k as real
    else cur - (cur - target) / k as real
  }

  /** The `pixMin` update as the listeners write it, with the opposite branch test:
      shrink by (pixMin - min) / k when the frame's min is below, otherwise grow by
      (min - pixMin) / k. It is the same one-pole step as `TowardMax`. */
  function TowardMin(cur: real, target: real, k: nat): (r: real)
    requires k >= 1
    ensures r == cur + (target - cur) / k as real
    ensures cur <= r <= target || target <= r <= cur
    ensures r - target == (cur - target) * (k - 1) as real / k as real
    ensures r == cur <==> target == cur
  {
    if target < cur then cur - (cur - target) / k as real
    else cur + (target - cur) / k as real
  }

  /** Dividing by a positive d and multiplying back gives the value itself. */
  lemma DivScale(x: real, d: real)
    requires d > 0.0
    ensures (x / d) * d == x
  {
  }

  /** A positive factor does not change the sign of a product. */
  lemma PositiveFactor(x: real, d: real)
    requires d > 0.0
    ensures x * d >= 0.0 ==> x >= 0.0
    ensures x * d > 0.0 ==> x > 0.0
  {
    if x < 0.0 {
      assert x * d < 0.0;
    }
  }

  /** The product of two non-negative factors is non-negative, and positive when both are. */
  lemma NonNegativeProduct(x: real, y: real)
    requires x >= 0.0 && y >= 0.0
    ensures x * y >= 0.0
    ensures x > 0.0 && y > 0.0 ==> x * y > 0.0
  {
  }

  /** A frame whose extremes are ordered (min <= max, true of every frame with at least one
      sample) cannot invert an ordered range, and with k > 1 it keeps a non-empty range
      non-empty: the edges built from it then stay strictly increasing from frame to frame. */
  lemma RangeStaysOrdered(lo: real, hi: real, mn: real, mx: real, k: nat)
    requires k >= 1 && lo <= hi && mn <= mx
    ensures TowardMin(lo, mn, k) <= TowardMax(hi, mx, k)
    ensures k > 1 && lo < hi ==> TowardMin(lo, mn, k) < TowardMax(hi, mx, k)
  {
    var kr := k as real;
    var p, q := (mx - hi) / kr, (mn - lo) / kr;
    var gap := TowardMax(hi, mx, k) - TowardMin(lo, mn, k);
    assert gap == (hi - lo) + (p - q);
    DivScale(mx - hi, kr);
    DivScale(mn - lo, kr);
    assert (p - q) * kr == p * kr - q * kr == (mx - mn) - (hi - lo);
    assert gap * kr == (hi - lo) * (kr - 1.0) + (mx - mn);
    NonNegativeProduct(hi - lo, kr - 1.0);
    PositiveFactor(gap, kr);
  }
}
