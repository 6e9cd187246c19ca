/** The two numeric primitives the renderer leans on: `std::clamp` and the truncating
    `static_cast<int>` from a floating-point value. */
module Numeric {

  /** `std::clamp(v, lo, hi)` on integers. */
  function ClampInt(v: int, lo: int, hi: int): (r: int)
    requires lo <= hi
    ensures lo <= r <= hi
    ensures lo <= v <= hi ==> r == v
    ensures v < lo ==> r == lo
    ensures hi < v ==> r == hi
  {
    if v < lo then lo else if hi < v then hi else v
  }

  /** `std::clamp(v, lo, hi)` on (exact) reals. */
  function ClampReal(v: real, lo: real, hi: real): (r: real)
    requires lo <= hi
    ensures lo <= r <= hi
    ensures lo <= v <= hi ==> r == v
    ensures v < lo ==> r == lo
    ensures hi < v ==> r == hi
  {
    if v < lo then lo else if hi < v then hi else v
  }

  /** Clamping preserves order: a larger input never gives a smaller output. */
  lemma ClampRealMonotone(a: real, b: real, lo: real, hi: real)
    requires lo <= hi && a <= b
    ensures ClampReal(a, lo, hi) <= ClampReal(b, lo, hi)
  {
  }

  lemma MulNonNegative(a: real, b: real)
    requires 0.0 <= a && 0.0 <= b
    ensures 0.0 <= a * b
  {
  }

  lemma MulPositive(a: real, b: real)
    requires 0.0 < a && 0.0 < b
    ensures 0.0 < a * b
  {
  }

  /** `static_cast<int>(x)`: conversion toward zero. The result is the integer nearest
      to `x` on the side of zero, so it never has a larger magnitude than `x`. */
  function Trunc(x: real): (r: int)
    ensures 0.0 <= x ==> 0 <= r && r as real <= x < r as real + 1.0
    ensures x < 0.0 ==> r <= 0 && r as real - 1.0 < x <= r as real
  {
    if 0.0 <= x then x.Floor else -((-x).Floor)
  }

  /** Truncation preserves order. */
  lemma TruncMonotone(a: real, b: real)
    requires a <= b
    ensures Trunc(a) <= Trunc(b)
  {
  }
}
