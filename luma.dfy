/** The fixed-point luma of one RGB8 pixel (`get_luminance_value`).

    The weights are those of ITU-R Recommendation BT.601 (0.299, 0.587, 0.114)
    scaled by 1000; they add up to the divisor exactly. */
module Luma {

  /** An 8-bit channel value, Rust's `u8`. */
  type Byte = x: int | 0 <= x < 0x100

  /** One pixel of an RGB8 raster, `image::Rgb<u8>`: channels R, G, B. */
  datatype Rgb = Rgb(r: Byte, g: Byte, b: Byte)

  const RED_WEIGHT: nat := 299
  const GREEN_WEIGHT: nat := 587
  const BLUE_WEIGHT: nat := 114
  const DIVISOR: nat := 1000

  function Abs(x: int): nat {
    if x < 0 then -x else x
  }

  /** The weighted channel sum, computed in `i32` by the source. It never exceeds
      255 * 1000, far below 2^31, so the `i32` arithmetic is exact. */
  function WeightedSum(p: Rgb): (s: int)
    ensures 0 <= s <= 255 * DIVISOR < 0x8000_0000
  {
    p.r * RED_WEIGHT + p.g * GREEN_WEIGHT + p.b * BLUE_WEIGHT
  }

  /** The luma of a pixel. Rust's `i32` division truncates toward zero; the sum is
      never negative, so this is the floor of the sum over the divisor, which is
      what Dafny's `/` computes for a non-negative dividend. */
  function Luminance(p: Rgb): (l: int)
    ensures 0 <= l <= 255
    ensures l * DIVISOR <= WeightedSum(p) < (l + 1) * DIVISOR
  {
    WeightedSum(p) / DIVISOR
  }

  /** A gray pixel keeps its level: black is 0 and white is exactly 255, because
      the three weights add up to the divisor. */
  lemma LuminanceOfGray(v: Byte)
    ensures Luminance(Rgb(v, v, v)) == v
  {
    assert WeightedSum(Rgb(v, v, v)) == v * DIVISOR;
  }

  /** Luma never decreases when any channel grows and the others stay or grow. */
  lemma LuminanceMonotone(p: Rgb, q: Rgb)
    requires p.r <= q.r && p.g <= q.g && p.b <= q.b
    ensures Luminance(p) <= Luminance(q)
  {
    assert WeightedSum(p) <= WeightedSum(q);
  }

  /** Two pixels whose channels differ by at most k have lumas that differ by at
      most k: the weighted sum is an average, and flooring keeps the bound. */
  lemma LuminanceLipschitz(p: Rgb, q: Rgb, k: nat)
    requires Abs(p.r - q.r) <= k && Abs(p.g - q.g) <= k && Abs(p.b - q.b) <= k
    ensures Abs(Luminance(p) - Luminance(q)) <= k
  {
    var s, t := WeightedSum(p), WeightedSum(q);
    assert s - t <= k * DIVISOR && t - s <= k * DIVISOR;
    var lp, lq := Luminance(p), Luminance(q);
    assert lp * DIVISOR - lq * DIVISOR < (k + 1) * DIVISOR;
    assert lq * DIVISOR - lp * DIVISOR < (k + 1) * DIVISOR;
  }
}
