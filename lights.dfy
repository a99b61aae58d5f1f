// The two DirectLight implementations: a point light with inverse-square
// falloff and a directional light.  isVisible needs the scene and is in
// module Raytracing (Raytracing.IsVisible).
module Lights {
  import opened Numerics
  import opened Linalg
  import opened Rays

  datatype Light =
    | PointLight(position: Vec3, color: Color)
    | DirectionalLight(direction: Vec3, color: Color)

  /** The start offset of every shadow ray. */
  const ShadowEpsilon: real := 0.000001

  function DirectionToSource(lib: Lib, light: Light, p: Vec3): Vec3
  {
    match light
    case PointLight(position, _) => Normalize(lib, Sub(position, p))
    case DirectionalLight(direction, _) => Normalize(lib, Neg(direction))
  }

  function IncomingLight(lib: Lib, light: Light, p: Vec3): Color
  {
    match light
    case PointLight(position, color) =>
      var d := Length(lib, Sub(position, p));
      ColorScale(Div(1.0, d * d), color)
    case DirectionalLight(_, color) => color
  }

  /** From p towards the source: up to the light, or up to Double.MAX_VALUE. */
  function ShadowRay(lib: Lib, light: Light, p: Vec3): Ray
  {
    match light
    case PointLight(position, _) =>
      Ray(p, DirectionToSource(lib, light, p), ShadowEpsilon, Finite(Length(lib, Sub(position, p))))
    case DirectionalLight(_, _) =>
      Ray(p, DirectionToSource(lib, light, p), ShadowEpsilon, Finite(MaxDouble))
  }

  // ---------------------------------------------------------------------

  /** A directional light looks the same from every point. */
  lemma DirectionalUniform(lib: Lib, direction: Vec3, color: Color, p: Vec3, q: Vec3)
    ensures var l := DirectionalLight(direction, color);
      DirectionToSource(lib, l, p) == DirectionToSource(lib, l, q) == Neg(Normalize(lib, direction))
      && IncomingLight(lib, l, p) == IncomingLight(lib, l, q) == color
  {
    NormalizeNeg(lib, direction);
  }

  /** Inverse-square falloff: the received light times the squared distance is the light's colour. */
  lemma PointLightFalloff(lib: Lib, position: Vec3, color: Color, p: Vec3)
    requires SqrtLaws(lib)
    requires p != position
    ensures var l := PointLight(position, color);
      var d2 := Dot(Sub(position, p), Sub(position, p));
      0.0 < d2 && ColorScale(d2, IncomingLight(lib, l, p)) == color
  {
    var v := Sub(position, p);
    assert v != Zero;
    LengthPositive(lib, v);
    var d := Length(lib, v);
    var k := Div(1.0, d * d);
    assert k * (d * d) == 1.0;
    var l := PointLight(position, color);
    assert IncomingLight(lib, l, p) == ColorScale(k, color);
    assert (d * d) * (k * color.r) == (k * (d * d)) * color.r;
    assert (d * d) * (k * color.g) == (k * (d * d)) * color.g;
    assert (d * d) * (k * color.b) == (k * (d * d)) * color.b;
  }

  /**
   * Every shadow ray starts 1e-6 along and has a finite far bound, so it can
   * never reach a shape that is only hit at infinity.
   */
  lemma ShadowRayShape(lib: Lib, light: Light, p: Vec3)
    ensures var r := ShadowRay(lib, light, p);
      r.origin == p && r.direction == DirectionToSource(lib, light, p)
      && r.tMin == ShadowEpsilon && r.tMax.Finite?
      && (light.DirectionalLight? ==> r.tMax.value == MaxDouble)
  {
  }

  /** The shadow ray of a point light ends exactly at the light. */
  lemma ShadowRayEndsAtLight(lib: Lib, position: Vec3, color: Color, p: Vec3)
    requires SqrtLaws(lib)
    requires p != position
    ensures var r := ShadowRay(lib, PointLight(position, color), p);
      r.tMax.Finite? && PointAt(r, r.tMax.value) == position
      && (IsValid(r, r.tMax.value) <==> ShadowEpsilon <= r.tMax.value)
  {
    var v := Sub(position, p);
    assert v != Zero;
    LengthPositive(lib, v);
    var d := Length(lib, v);
    var n := Normalize(lib, v);
    assert n.x * d == v.x && n.y * d == v.y && n.z * d == v.z;
    assert Scale(d, n) == v;
  }
}
