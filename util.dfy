// lib_cgtools.Util: the tolerance tests and the quick normal shading used
// by the early labs.  The timing helpers start/finish are not modelled.
module Util {
  import opened Numerics
  import opened Linalg

  /** Util.EPSILON. */
  const Epsilon: real := 0.001

  predicate IsZero(a: real)
  {
    Abs(a) < Epsilon
  }

  predicate AreEqual(a: real, b: real)
  {
    IsZero(a - b)
  }

  /** The fixed light direction of shade, normalize(direction(1, 1, 0.5)). */
  function ShadeLight(lib: Lib): Vec3
  {
    Normalize(lib, Vec3(1.0, 1.0, 0.5))
  }

  /** shade(normal, color): a null normal leaves the colour as it is. */
  function Shade(lib: Lib, normal: Option<Vec3>, color: Color): Color
  {
    match normal
    case None => color
    case Some(n) =>
      ColorAdd(ColorScale(0.1, color), ColorScale(0.9 * Max(0.0, Dot(ShadeLight(lib), n)), color))
  }

  lemma IsZeroBand(a: real)
    ensures IsZero(a) <==> -Epsilon < a < Epsilon
  {
  }

  /** areEqual is the tolerance test on the difference, in either order. */
  lemma AreEqualSymmetric(a: real, b: real)
    ensures AreEqual(a, b) <==> AreEqual(b, a)
    ensures AreEqual(a, b) <==> -Epsilon < a - b < Epsilon
    ensures AreEqual(a, a)
  {
  }

  lemma ShadeNull(lib: Lib, color: Color)
    ensures Shade(lib, None, color) == color
  {
  }

  /**
   * The ambient tenth is never lost: every channel of a shaded non-negative
   * colour is at least 0.1 times the channel, and the diffuse part is never
   * negative.
   */
  lemma ShadeAtLeastAmbient(lib: Lib, n: Vec3, color: Color)
    requires 0.0 <= color.r && 0.0 <= color.g && 0.0 <= color.b
    ensures var s := Shade(lib, Some(n), color);
      0.1 * color.r <= s.r && 0.1 * color.g <= s.g && 0.1 * color.b <= s.b
  {
    var k := 0.9 * Max(0.0, Dot(ShadeLight(lib), n));
    MulMono(color.r, 0.0, k);
    MulMono(color.g, 0.0, k);
    MulMono(color.b, 0.0, k);
  }
}
