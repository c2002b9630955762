/** Integer views of the float-and-cast expressions of the image previewer.

    Every scaled quantity in the program is computed as
    `((a as f32 / b as f32) * c as f32) as u32` (or the same product with the
    factors swapped). This module models that expression once, as exact
    floor division on `nat`, plus the two effects of Rust's float-to-int
    cast that exact arithmetic does not give for free: saturation at
    `u32::MAX`, and the special values produced by a zero divisor
    (`x / 0.0` is `+inf` for `x > 0` and `NaN` for `x == 0`; `NaN as u32` is
    0 and `+inf as u32` is `u32::MAX`). The rounding error of `f32` itself is
    NOT modelled: the exact quotient stands in for the float one.
 */
module Cast {

  const U16_MAX: nat := 0xFFFF
  const U32_MAX: nat := 0xFFFF_FFFF

  /** `q as u32` for a float holding the non-negative whole number `q`. */
  function Saturate(q: nat): (r: nat)
    ensures r <= U32_MAX
    ensures r <= q
    ensures q <= U32_MAX ==> r == q
    ensures q > U32_MAX ==> r == U32_MAX
  {
    if q <= U32_MAX then q else U32_MAX
  }

  /** `((a as f32 / b as f32) * c as f32) as u32` with exact arithmetic.
      For a positive divisor the result is the floor of a*c/b, saturated
      (`TruncScaleFloor`); for a zero divisor it is 0 (NaN) or u32::MAX (+inf). */
  function TruncScale(a: nat, b: nat, c: nat): (r: nat)
    ensures r <= U32_MAX
    ensures b == 0 ==> (r == 0 <==> a == 0 || c == 0)
    ensures b == 0 && r != 0 ==> r == U32_MAX
  {
    if b == 0 then
      if a == 0 || c == 0 then 0 else U32_MAX
    else
      Saturate(a * c / b)
  }

  /** For a positive divisor, TruncScale(a, b, c) is a lower bound of
      a*c/b, and equals its floor unless it saturated. */
  lemma TruncScaleFloor(a: nat, b: nat, c: nat)
    requires b > 0
    ensures TruncScale(a, b, c) * b <= a * c
    ensures TruncScale(a, b, c) < U32_MAX ==> a * c < (TruncScale(a, b, c) + 1) * b
  {
    SaturatedQuotient(a * c, b);
  }

  /** The defining inequalities of floor division. */
  lemma FloorDivBounds(n: nat, d: nat)
    requires d > 0
    ensures (n / d) * d <= n < (n / d + 1) * d
  {
  }

  /** A saturated quotient is still a lower bound, and is the floor when
      it is not saturated. */
  lemma SaturatedQuotient(n: nat, d: nat)
    requires d > 0
    ensures Saturate(n / d) * d <= n
    ensures Saturate(n / d) < U32_MAX ==> n < (Saturate(n / d) + 1) * d
  {
    var q := n / d;
    FloorDivBounds(n, d);
    assert q * d <= n;
    if q > U32_MAX {
      MulMonotone(U32_MAX, q, d);
    }
  }

  lemma MulMonotone(x: nat, y: nat, k: nat)
    requires x <= y
    ensures x * k <= y * k
  {
  }

  /** The clamp `if n < dim { n } else { dim - 1 }` on u32. The source only
      reaches it with `dim > 0`; at `dim == 0` the subtraction would underflow. */
  function Clamp(n: nat, dim: nat): (r: nat)
    requires dim > 0
    ensures r < dim
    ensures r <= n
    ensures n < dim ==> r == n
    ensures n >= dim ==> r == dim - 1
  {
    if n < dim then n else dim - 1
  }
}
