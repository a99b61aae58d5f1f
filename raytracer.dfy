// The scene record, light visibility, and the recursive shader of the last
// lab (H_beschleunigung Raytracer).  Radiance is the specification of
// getRadiance; the method GetRadiance follows the code, with its loop over
// the lights, and is proved to compute Radiance.  The camera that turns a
// pixel into a ray is outside the model: GetColor takes the ray.
module Raytracing {
  import opened Numerics
  import opened Linalg
  import opened Rays
  import opened Randomness
  import opened Lights
  import opened Materials
  import opened Shapes

  datatype Scene = Scene(shapes: Shape, lights: seq<Light>)

  /** DirectLight.isVisible: the shadow ray towards the light meets nothing. */
  predicate IsVisible(lib: Lib, light: Light, p: Vec3, shapes: Shape)
  {
    Intersect(lib, shapes, ShadowRay(lib, light, p)).None?
  }

  /** The start offset of reflected rays. */
  const ReflectionEpsilon: real := 0.000001

  /** getColor's trace depth. */
  const MaxDepth: nat := 4

  function Sum3(a: Color, b: Color, c: Color): Color
  {
    ColorAdd(ColorAdd(a, b), c)
  }

  function Sum4(a: Color, b: Color, c: Color, d: Color): Color
  {
    ColorAdd(ColorAdd(ColorAdd(a, b), c), d)
  }

  /** The direct light of the given lights at a hit, counting only the lights visible from the hit point. */
  function DirectSum(lib: Lib, shapes: Shape, toViewer: Vec3, hit: Hit, lights: seq<Light>): Color
  {
    if lights == [] then Black
    else
      var acc := DirectSum(lib, shapes, toViewer, hit, lights[..|lights| - 1]);
      var light := lights[|lights| - 1];
      if IsVisible(lib, light, hit.point, shapes) then ColorAdd(acc, DirectLightReflection(lib, hit.material, toViewer, hit, light))
      else acc
  }

  /** The direct light of all the given lights, shadows ignored. */
  function UnshadowedSum(lib: Lib, toViewer: Vec3, hit: Hit, lights: seq<Light>): Color
  {
    if lights == [] then Black
    else ColorAdd(UnshadowedSum(lib, toViewer, hit, lights[..|lights| - 1]),
                  DirectLightReflection(lib, hit.material, toViewer, hit, lights[|lights| - 1]))
  }

  /** The ray getRadiance follows from a hit point: from 1e-6 to +infinity. */
  function ReflectedRay(p: Vec3, d: Vec3): Ray
  {
    Ray(p, d, ReflectionEpsilon, Infinity)
  }

  /**
   * getRadiance(ray, depth) with the random draws made explicit: the colour
   * and the stream left over.
   */
  function Radiance(lib: Lib, scene: Scene, bg: Color, ray: Ray, depth: nat, s: Stream): (r: (Color, Stream))
    ensures |r.1| <= |s|
    decreases depth, 1
  {
    if depth == 0 then (Black, s)
    else match Intersect(lib, scene.shapes, ray)
      case None => (bg, s)
      case Some(hit) => HitRadiance(lib, scene, bg, ray, hit, depth, s)
  }

  /**
   * The rest of getRadiance once the ray has hit: ambient, direct light,
   * emission and, unless the material sends no ray or a black fraction, the
   * weighted radiance one level down.  The viewing direction handed to the
   * material is the ray direction itself.
   */
  function HitRadiance(lib: Lib, scene: Scene, bg: Color, ray: Ray, hit: Hit, depth: nat, s: Stream): (r: (Color, Stream))
    requires 0 < depth
    ensures |r.1| <= |s|
    decreases depth, 0
  {
    var m := hit.material;
    var ambient := AmbientReflection(m, bg, hit);
    var direct := DirectSum(lib, scene.shapes, ray.direction, hit, scene.lights);
    var emission := Emission(m, hit);
    var (dir, s1) := ReflectionDirection(lib, m, ray.direction, hit, s);
    match dir
    case None => (Sum3(direct, ambient, emission), s1)
    case Some(d) =>
      var fraction := ReflectionFraction(m, hit);
      if fraction == Black then (Sum4(direct, ambient, Black, emission), s1)
      else
        var (c, s2) := Radiance(lib, scene, bg, ReflectedRay(hit.point, d), depth - 1, s1);
        (Sum4(direct, ambient, ColorMul(fraction, c), emission), s2)
  }

  /** getRadiance, following the code. */
  method GetRadiance(lib: Lib, scene: Scene, bg: Color, ray: Ray, depth: nat, s: Stream) returns (c: Color, rest: Stream)
    ensures (c, rest) == Radiance(lib, scene, bg, ray, depth, s)
    decreases depth
  {
    if depth == 0 {
      return Black, s;
    }
    var closest := Intersect(lib, scene.shapes, ray);
    if closest.None? {
      return bg, s;
    }
    var hit := closest.value;
    var m := hit.material;
    var ambient := AmbientReflection(m, bg, hit);
    var total := Black;
    var i := 0;
    while i < |scene.lights|
      invariant 0 <= i <= |scene.lights|
      invariant total == DirectSum(lib, scene.shapes, ray.direction, hit, scene.lights[..i])
    {
      var light := scene.lights[i];
      var shadowHit := Intersect(lib, scene.shapes, ShadowRay(lib, light, hit.point));
      assert scene.lights[..i + 1][..i] == scene.lights[..i];
      if shadowHit.None? {
        total := ColorAdd(total, DirectLightReflection(lib, m, ray.direction, hit, light));
      }
      i := i + 1;
    }
    assert scene.lights[..i] == scene.lights;
    var emission := Emission(m, hit);
    var (dir, s1) := ReflectionDirection(lib, m, ray.direction, hit, s);
    if dir.None? {
      return Sum3(total, ambient, emission), s1;
    }
    var fraction := ReflectionFraction(m, hit);
    var reflection := Black;
    rest := s1;
    if fraction != Black {
      var incoming;
      incoming, rest := GetRadiance(lib, scene, bg, ReflectedRay(hit.point, dir.value), depth - 1, s1);
      reflection := ColorMul(fraction, incoming);
    }
    c := Sum4(total, ambient, reflection, emission);
  }

  /** getColor: the radiance of a camera ray at depth 4. */
  method GetColor(lib: Lib, scene: Scene, bg: Color, ray: Ray, s: Stream) returns (c: Color, rest: Stream)
    ensures (c, rest) == Radiance(lib, scene, bg, ray, MaxDepth, s)
  {
    c, rest := GetRadiance(lib, scene, bg, ray, MaxDepth, s);
  }

  // ---------------------------------------------------------------------
  // Lemmas

  /** The background never blocks a light: every shadow ray has a finite far bound. */
  lemma BackgroundNeverOccludes(lib: Lib, light: Light, p: Vec3, material: Material)
    ensures IsVisible(lib, light, p, Background(material))
  {
    ShadowRayShape(lib, light, p);
    BackgroundNeedsInfiniteRay(lib, material, ShadowRay(lib, light, p));
  }

  /** With every light visible, the direct light is the unshadowed sum. */
  lemma {:induction false} DirectSumAllVisible(lib: Lib, shapes: Shape, toViewer: Vec3, hit: Hit, lights: seq<Light>)
    requires forall i :: 0 <= i < |lights| ==> IsVisible(lib, lights[i], hit.point, shapes)
    ensures DirectSum(lib, shapes, toViewer, hit, lights) == UnshadowedSum(lib, toViewer, hit, lights)
    decreases |lights|
  {
    if lights != [] {
      var pre := lights[..|lights| - 1];
      assert forall i :: 0 <= i < |pre| ==> pre[i] == lights[i];
      DirectSumAllVisible(lib, shapes, toViewer, hit, pre);
    }
  }

  /** With no light visible, there is no direct light. */
  lemma {:induction false} DirectSumNoneVisible(lib: Lib, shapes: Shape, toViewer: Vec3, hit: Hit, lights: seq<Light>)
    requires forall i :: 0 <= i < |lights| ==> !IsVisible(lib, lights[i], hit.point, shapes)
    ensures DirectSum(lib, shapes, toViewer, hit, lights) == Black
    decreases |lights|
  {
    if lights != [] {
      var pre := lights[..|lights| - 1];
      assert forall i :: 0 <= i < |pre| ==> pre[i] == lights[i];
      DirectSumNoneVisible(lib, shapes, toViewer, hit, pre);
    }
  }

  /** A scene that is only a background lights every hit by all its lights. */
  lemma BackgroundSceneUnshadowed(lib: Lib, material: Material, toViewer: Vec3, hit: Hit, lights: seq<Light>)
    ensures DirectSum(lib, Background(material), toViewer, hit, lights) == UnshadowedSum(lib, toViewer, hit, lights)
  {
    forall i | 0 <= i < |lights|
      ensures IsVisible(lib, lights[i], hit.point, Background(material))
    {
      BackgroundNeverOccludes(lib, lights[i], hit.point, material);
    }
    DirectSumAllVisible(lib, Background(material), toViewer, hit, lights);
  }

  /** Depth 0 is black and consumes no draws, whatever the scene. */
  lemma RadianceDepthZero(lib: Lib, scene: Scene, bg: Color, ray: Ray, s: Stream)
    ensures Radiance(lib, scene, bg, ray, 0, s) == (Black, s)
  {
  }

  /** A ray that meets nothing sees the background colour. */
  lemma RadianceMiss(lib: Lib, scene: Scene, bg: Color, ray: Ray, depth: nat, s: Stream)
    requires 0 < depth && Intersect(lib, scene.shapes, ray).None?
    ensures Radiance(lib, scene, bg, ray, depth, s) == (bg, s)
  {
  }

  /** The colour of a hit without its reflection term. */
  function LocalColor(lib: Lib, scene: Scene, bg: Color, ray: Ray, hit: Hit): Color
  {
    Sum3(DirectSum(lib, scene.shapes, ray.direction, hit, scene.lights),
         AmbientReflection(hit.material, bg, hit), Emission(hit.material, hit))
  }

  /**
   * Phong and Emitter surfaces never recurse: the colour is direct plus
   * ambient plus emission at every positive depth, and no draw is made.
   */
  lemma RadianceNoReflection(lib: Lib, scene: Scene, bg: Color, ray: Ray, depth: nat, s: Stream)
    requires 0 < depth
    requires var h := Intersect(lib, scene.shapes, ray); h.Some? && (h.value.material.Phong? || h.value.material.Emitter?)
    ensures Radiance(lib, scene, bg, ray, depth, s)
      == (LocalColor(lib, scene, bg, ray, Intersect(lib, scene.shapes, ray).value), s)
  {
    var hit := Intersect(lib, scene.shapes, ray).value;
    assert ReflectionDirection(lib, hit.material, ray.direction, hit, s) == (None, s);
  }

  /** A black reflection fraction stops the recursion: the result does not depend on the depth left. */
  lemma RadianceBlackFraction(lib: Lib, scene: Scene, bg: Color, ray: Ray, d1: nat, d2: nat, s: Stream)
    requires 0 < d1 && 0 < d2
    requires var h := Intersect(lib, scene.shapes, ray);
      h.Some? && ReflectionFraction(h.value.material, h.value) == Black
    ensures Radiance(lib, scene, bg, ray, d1, s) == Radiance(lib, scene, bg, ray, d2, s)
  {
  }

  /** At depth 1 the reflected ray contributes nothing: the colour of a hit is its local colour. */
  lemma RadianceLastBounce(lib: Lib, scene: Scene, bg: Color, ray: Ray, hit: Hit, s: Stream)
    requires Intersect(lib, scene.shapes, ray) == Some(hit)
    ensures Radiance(lib, scene, bg, ray, 1, s).0 == LocalColor(lib, scene, bg, ray, hit)
  {
    assert Radiance(lib, scene, bg, ray, 1, s) == HitRadiance(lib, scene, bg, ray, hit, 1, s);
    var (dir, s1) := ReflectionDirection(lib, hit.material, ray.direction, hit, s);
    if dir.Some? {
      var fraction := ReflectionFraction(hit.material, hit);
      var reflected := Radiance(lib, scene, bg, ReflectedRay(hit.point, dir.value), 0, s1);
      assert reflected.0 == Black;
      BlackTermVanishes(DirectSum(lib, scene.shapes, ray.direction, hit, scene.lights),
                        AmbientReflection(hit.material, bg, hit), Emission(hit.material, hit), fraction);
    }
  }

  lemma BlackTermVanishes(a: Color, b: Color, c: Color, f: Color)
    ensures Sum4(a, b, Black, c) == Sum3(a, b, c)
    ensures Sum4(a, b, ColorMul(f, Black), c) == Sum3(a, b, c)
  {
  }

  /**
   * A mirror with a non-black coefficient recurses along its reflected ray,
   * one level down, and weights that radiance by the coefficient.
   */
  lemma RadianceMirror(lib: Lib, scene: Scene, bg: Color, ray: Ray, hit: Hit, depth: nat, s: Stream)
    requires 0 < depth
    requires Intersect(lib, scene.shapes, ray) == Some(hit)
    requires hit.material.Mirror? && hit.material.coefficient != Black
    ensures var (d, s1) := MirrorDirection(lib, hit.material.scatterFactor, ray.direction, hit.normal, s);
      var (c, s2) := Radiance(lib, scene, bg, ReflectedRay(hit.point, d), depth - 1, s1);
      Radiance(lib, scene, bg, ray, depth, s)
        == (ColorAdd(DirectSum(lib, scene.shapes, ray.direction, hit, scene.lights), ColorMul(hit.material.coefficient, c)), s2)
  {
    var m := hit.material;
    var (d, s1) := MirrorDirection(lib, m.scatterFactor, ray.direction, hit.normal, s);
    assert ReflectionDirection(lib, m, ray.direction, hit, s) == (Some(d), s1);
    assert ReflectionFraction(m, hit) == m.coefficient;
    assert AmbientReflection(m, bg, hit) == Black && Emission(m, hit) == Black;
    var (c, s2) := Radiance(lib, scene, bg, ReflectedRay(hit.point, d), depth - 1, s1);
    BlackTermsVanish(DirectSum(lib, scene.shapes, ray.direction, hit, scene.lights), ColorMul(m.coefficient, c));
    assert Radiance(lib, scene, bg, ray, depth, s) == HitRadiance(lib, scene, bg, ray, hit, depth, s);
  }

  lemma BlackTermsVanish(a: Color, b: Color)
    ensures Sum4(a, Black, b, Black) == ColorAdd(a, b)
  {
  }
}
