/** Per-cell tone mapping (`get_luminance`, `apply_gamma_correction`,
    the contrast/brightness clamp and `apply_perceptual_mapping` in ascii_art.cpp),
    over exact reals in place of `float`. */
module Tone {
  import opened Numeric
  import opened Images

  /** Relative luminance with the ITU-R BT.601 weights 0.299, 0.587 and 0.114,
      each channel scaled from 0..255 to 0..1. Black gives 0, white gives 1, and a grey
      pixel gives its common value scaled, so it agrees with the one-channel branch. */
  function Luminance(r: Byte, g: Byte, b: Byte): (l: real)
    ensures 0.0 <= l <= 1.0
    ensures r == g == b ==> l == r as real / 255.0
    ensures l == 0.0 <==> r == 0 && g == 0 && b == 0
    ensures l == 1.0 <==> r == 255 && g == 255 && b == 255
  {
    0.299 * r as real / 255.0 + 0.587 * g as real / 255.0 + 0.114 * b as real / 255.0
  }

  /** Luminance never decreases when any one channel grows. */
  lemma LuminanceMonotone(r: Byte, g: Byte, b: Byte, r': Byte, g': Byte, b': Byte)
    requires r <= r' && g <= g' && b <= b'
    ensures Luminance(r, g, b) <= Luminance(r', g', b')
  {
  }

  /** The clamping branches of `apply_gamma_correction`: exactly 0 at or below 0 and exactly 1
      at or above 1; strictly inside the unit interval the value goes through `curve(value, gamma)`,
      which stands for `std::pow(value, 1 / gamma)`. */
  function Gamma(value: real, gamma: real, curve: (real, real) -> real): (r: real)
    ensures value <= 0.0 ==> r == 0.0
    ensures value >= 1.0 ==> r == 1.0
    ensures 0.0 < value < 1.0 ==> r == curve(value, gamma)
  {
    if value <= 0.0 then 0.0
    else if value >= 1.0 then 1.0
    else curve(value, gamma)
  }

  /** Linear contrast and additive brightness, clamped back into the unit interval. Inside the
      interval the adjustment is exact; outside it saturates at the nearer end. */
  function AdjustContrast(value: real, contrast: real, brightness: real): (r: real)
    ensures 0.0 <= r <= 1.0
    ensures 0.0 <= value * contrast + brightness <= 1.0 ==> r == value * contrast + brightness
    ensures value * contrast + brightness < 0.0 ==> r == 0.0
    ensures value * contrast + brightness > 1.0 ==> r == 1.0
  {
    ClampReal(value * contrast + brightness, 0.0, 1.0)
  }

  /** With non-negative contrast, a brighter input never comes out darker. */
  lemma AdjustContrastMonotone(a: real, b: real, contrast: real, brightness: real)
    requires a <= b && 0.0 <= contrast
    ensures AdjustContrast(a, contrast, brightness) <= AdjustContrast(b, contrast, brightness)
  {
    assert a * contrast <= b * contrast;
    ClampRealMonotone(a * contrast + brightness, b * contrast + brightness, 0.0, 1.0);
  }

  /** The cubic smoothstep polynomial `3x^2 - 2x^3`. */
  function Cubic(x: real): real
  {
    3.0 * x * x - 2.0 * x * x * x
  }

  /** On the unit interval the cubic stays inside the unit interval:
      `3x^2 - 2x^3 = x^2 (3 - 2x)` and `1 - (3x^2 - 2x^3) = (1 - x)^2 (1 + 2x)`. */
  lemma CubicInUnit(x: real)
    requires 0.0 <= x <= 1.0
    ensures 0.0 <= Cubic(x) <= 1.0
  {
    assert Cubic(x) == x * x * (3.0 - 2.0 * x);
    MulNonNegative(x, x);
    MulNonNegative(x * x, 3.0 - 2.0 * x);
    assert 1.0 - Cubic(x) == (1.0 - x) * (1.0 - x) * (1.0 + 2.0 * x);
    MulNonNegative(1.0 - x, 1.0 - x);
    MulNonNegative((1.0 - x) * (1.0 - x), 1.0 + 2.0 * x);
  }

  /** `apply_perceptual_mapping`: smoothstep, clamped into the unit interval. It fixes 0 and 1
      and on the unit interval the clamp never changes the cubic's value. */
  function Smoothstep(x: real): (r: real)
    ensures 0.0 <= r <= 1.0
    ensures 0.0 <= x <= 1.0 ==> r == Cubic(x)
    ensures x == 0.0 ==> r == 0.0
    ensures x == 1.0 ==> r == 1.0
  {
    if 0.0 <= x <= 1.0 then CubicInUnit(x); ClampReal(Cubic(x), 0.0, 1.0)
    else ClampReal(Cubic(x), 0.0, 1.0)
  }

  lemma CubicDifference(a: real, b: real)
    ensures Cubic(b) - Cubic(a) == (b - a) * (3.0 * (a + b) - 2.0 * (a * a + a * b + b * b))
  {
    assert b * b - a * a == (b - a) * (a + b);
    assert b * b * b - a * a * a == (b - a) * (a * a + a * b + b * b);
  }

  /** Smoothstep is non-decreasing on the unit interval:
      `f(b) - f(a) = (b - a) (3(a + b) - 2(a^2 + ab + b^2))` and the second factor is
      non-negative there because `a^2 <= a`, `b^2 <= b` and `2ab <= a + b`. */
  lemma SmoothstepMonotone(a: real, b: real)
    requires 0.0 <= a <= b <= 1.0
    ensures Smoothstep(a) <= Smoothstep(b)
  {
    var s := 3.0 * (a + b) - 2.0 * (a * a + a * b + b * b);
    CubicDifference(a, b);
    SlopeFactorNonNegative(a, b);
    MulNonNegative(b - a, s);
  }

  /** The second factor of the cubic's difference is non-negative on the unit interval. */
  lemma SlopeFactorNonNegative(a: real, b: real)
    requires 0.0 <= a <= 1.0 && 0.0 <= b <= 1.0
    ensures 0.0 <= 3.0 * (a + b) - 2.0 * (a * a + a * b + b * b)
  {
    MulNonNegative(a, 1.0 - a);
    MulNonNegative(b, 1.0 - b);
    MulNonNegative(a, 1.0 - b);
    assert a * a <= a && b * b <= b && a * b <= a;
  }
}
