// The Material interface and its four implementations (Phong, Diffuse,
// Mirror, Emitter) with the five queries the shader asks, and the Hit
// record a shape returns.  Random draws come from an explicit stream and
// the queries that draw return the rest of it.
module Materials {
  import opened Numerics
  import opened Linalg
  import opened Rays
  import opened Randomness
  import opened Samplers
  import opened Lights

  datatype Material =
    | Phong(kAmbient: Sampler, kDiffuse: Sampler, kSpecular: Sampler, shininess: real)
    | Diffuse(albedo: Sampler, emission: Sampler)
    | Mirror(coefficient: Color, scatterFactor: real)
    | Emitter(emission: Sampler)

  /** A hit: its parameter (infinite for the background), point, normal, material and texture coordinates. */
  datatype Hit = Hit(t: Bound, point: Vec3, normal: Vec3, material: Material, u: real, v: real)

  /** v - 2 (v . n) n, the reflection used by the specular term and by the mirror. */
  function Reflect(v: Vec3, n: Vec3): Vec3
  {
    Sub(v, Scale(2.0 * Dot(v, n), n))
  }

  // ---------------------------------------------------------------------
  // The five queries

  function AmbientReflection(m: Material, ambientLight: Color, hit: Hit): Color
  {
    match m
    case Phong(kAmbient, _, _, _) => ColorMul(SampleColor(kAmbient, hit.u, hit.v), ambientLight)
    case _ => Black
  }

  /** Phong's diffuse term kd * light * max(0, N . L). */
  function PhongDiffuse(m: Material, normal: Vec3, toLight: Vec3, lightColor: Color, hit: Hit): Color
    requires m.Phong?
  {
    ColorScale(Max(0.0, Dot(normal, toLight)), ColorMul(SampleColor(m.kDiffuse, hit.u, hit.v), lightColor))
  }

  /** Phong's specular term pow(max(0, R . V), shininess) * light * ks with R the reflected light direction. */
  function PhongSpecular(lib: Lib, m: Material, toLight: Vec3, normal: Vec3, toViewer: Vec3, lightColor: Color, hit: Hit): Color
    requires m.Phong?
  {
    var reflected := Reflect(toLight, normal);
    var factor := lib.pow(Max(0.0, Dot(reflected, toViewer)), m.shininess);
    ColorScale(factor, ColorMul(lightColor, SampleColor(m.kSpecular, hit.u, hit.v)))
  }

  function DirectLightReflection(lib: Lib, m: Material, toViewer: Vec3, hit: Hit, light: Light): Color
  {
    match m
    case Phong(_, _, _, _) =>
      var toLight := DirectionToSource(lib, light, hit.point);
      var lightColor := IncomingLight(lib, light, hit.point);
      ColorAdd(PhongDiffuse(m, hit.normal, toLight, lightColor, hit),
               PhongSpecular(lib, m, toLight, hit.normal, Normalize(lib, toViewer), lightColor, hit))
    case _ => Black
  }

  function Emission(m: Material, hit: Hit): Color
  {
    match m
    case Diffuse(_, emission) => SampleColor(emission, hit.u, hit.v)
    case Emitter(emission) => SampleColor(emission, hit.u, hit.v)
    case _ => Black
  }

  function ReflectionFraction(m: Material, hit: Hit): Color
  {
    match m
    case Diffuse(albedo, _) => SampleColor(albedo, hit.u, hit.v)
    case Mirror(coefficient, _) => coefficient
    case _ => Black
  }

  /** Diffuse's candidate: three draws mapped to random() * 2 - 1, and the rest of the stream. */
  function DiffuseCandidate(s: Stream): Vec3
  {
    Vec3(At(s, 0) * 2.0 - 1.0, At(s, 1) * 2.0 - 1.0, At(s, 2) * 2.0 - 1.0)
  }

  predicate InCube(c: Vec3)
  {
    -1.0 <= c.x < 1.0 && -1.0 <= c.y < 1.0 && -1.0 <= c.z < 1.0
  }

  lemma CandidateInCube(s: Stream)
    ensures UnitValues(s) ==> InCube(DiffuseCandidate(s))
  {
    if UnitValues(s) {
      AtUnit(s, 0);
      AtUnit(s, 1);
      AtUnit(s, 2);
    }
  }

  lemma DropUnit(s: Stream, k: nat)
    ensures UnitValues(s) ==> UnitValues(Drop(s, k))
  {
    if UnitValues(s) && k <= |s| {
      forall i | 0 <= i < |s| - k
        ensures 0.0 <= Drop(s, k)[i] < 1.0
      {
        assert Drop(s, k)[i] == s[k + i];
      }
    }
  }

  /**
   * The rejection loop of Diffuse.getReflectionDirection: candidates shorter
   * than 1 are drawn again.  A stream that has run dry repeats the candidate
   * (-1, -1, -1); should even that be rejected the loop gives up with None.
   * The accepted candidate has length at least 1 and lies in [-1, 1)^3.
   */
  function DiffuseSample(lib: Lib, s: Stream): (r: (Option<Vec3>, Stream))
    ensures r.0.Some? ==> Length(lib, r.0.value) >= 1.0
    ensures r.0.Some? && UnitValues(s) ==> InCube(r.0.value)
    ensures |r.1| <= |s|
    ensures UnitValues(s) ==> UnitValues(r.1)
    decreases |s|
  {
    var c := DiffuseCandidate(s);
    CandidateInCube(s);
    DropUnit(s, 3);
    if Length(lib, c) < 1.0 then
      if s == [] then (None, []) else DiffuseSample(lib, Drop(s, 3))
    else
      (Some(c), Drop(s, 3))
  }

  /** getReflectionDirection for Diffuse: normalize(candidate + normal). */
  function DiffuseDirection(lib: Lib, normal: Vec3, s: Stream): (Option<Vec3>, Stream)
  {
    var (c, rest) := DiffuseSample(lib, s);
    match c
    case None => (None, rest)
    case Some(candidate) => (Some(Normalize(lib, Add(candidate, normal))), rest)
  }

  /**
   * Mirror.getReflectionDirection: the reflection of the viewing direction,
   * perturbed by three draws scaled by the scatter factor when that is
   * positive; a perturbed direction below the surface falls back to the
   * unperturbed, unnormalised reflection.
   */
  function MirrorDirection(lib: Lib, scatterFactor: real, toViewer: Vec3, normal: Vec3, s: Stream): (Vec3, Stream)
  {
    var reflected := Reflect(toViewer, normal);
    var scatter := if scatterFactor > 0.0 then Scale(scatterFactor, Vec3(At(s, 0), At(s, 1), At(s, 2))) else Zero;
    var rest := if scatterFactor > 0.0 then Drop(s, 3) else s;
    var scattered := Normalize(lib, Add(reflected, scatter));
    if Dot(scattered, normal) < 0.0 then (reflected, rest) else (scattered, rest)
  }

  /** getReflectionDirection: None stands for the null of Phong and Emitter. */
  function ReflectionDirection(lib: Lib, m: Material, toViewer: Vec3, hit: Hit, s: Stream): (r: (Option<Vec3>, Stream))
    ensures |r.1| <= |s|
    ensures (m.Phong? || m.Emitter?) ==> r == (None, s)
    ensures m.Mirror? ==> r.0.Some?
  {
    match m
    case Phong(_, _, _, _) => (None, s)
    case Emitter(_) => (None, s)
    case Diffuse(_, _) => DiffuseDirection(lib, hit.normal, s)
    case Mirror(_, scatterFactor) =>
      var (d, rest) := MirrorDirection(lib, scatterFactor, toViewer, hit.normal, s);
      (Some(d), rest)
  }

  // ---------------------------------------------------------------------
  // What each material answers

  /** Phong reflects ambient light and never emits or reflects a ray. */
  lemma PhongQueries(lib: Lib, m: Material, ambientLight: Color, toViewer: Vec3, hit: Hit, s: Stream)
    requires m.Phong?
    ensures AmbientReflection(m, ambientLight, hit) == ColorMul(SampleColor(m.kAmbient, hit.u, hit.v), ambientLight)
    ensures Emission(m, hit) == Black && ReflectionFraction(m, hit) == Black
    ensures ReflectionDirection(lib, m, toViewer, hit, s) == (None, s)
  {
  }

  /** An emitter only emits: no ray is reflected, and nothing of the lights or the ambient light comes back. */
  lemma EmitterQueries(lib: Lib, emission: Sampler, ambientLight: Color, toViewer: Vec3, hit: Hit, light: Light, s: Stream)
    ensures var m := Emitter(emission);
      Emission(m, hit) == SampleColor(emission, hit.u, hit.v)
      && ReflectionDirection(lib, m, toViewer, hit, s) == (None, s)
      && ReflectionFraction(m, hit) == Black
      && AmbientReflection(m, ambientLight, hit) == Black
      && DirectLightReflection(lib, m, toViewer, hit, light) == Black
  {
  }

  /** Diffuse answers only through its samplers, whatever the directions. */
  lemma DiffuseQueries(lib: Lib, albedo: Sampler, emission: Sampler, ambientLight: Color, toViewer: Vec3, hit: Hit, light: Light)
    ensures var m := Diffuse(albedo, emission);
      ReflectionFraction(m, hit) == SampleColor(albedo, hit.u, hit.v)
      && Emission(m, hit) == SampleColor(emission, hit.u, hit.v)
      && AmbientReflection(m, ambientLight, hit) == Black
      && DirectLightReflection(lib, m, toViewer, hit, light) == Black
  {
  }

  lemma MirrorQueries(lib: Lib, coefficient: Color, scatterFactor: real, ambientLight: Color, toViewer: Vec3, hit: Hit, light: Light)
    ensures var m := Mirror(coefficient, scatterFactor);
      ReflectionFraction(m, hit) == coefficient
      && Emission(m, hit) == Black
      && AmbientReflection(m, ambientLight, hit) == Black
      && DirectLightReflection(lib, m, toViewer, hit, light) == Black
  {
  }

  // ---------------------------------------------------------------------
  // Diffuse rejection sampling

  /** sqrt(3) >= 1: the candidate (-1, -1, -1) of a dry stream is accepted. */
  lemma DryCandidateAccepted(lib: Lib, s: Stream)
    requires SqrtLaws(lib)
    requires s == []
    ensures Length(lib, DiffuseCandidate(s)) >= 1.0
  {
    assert DiffuseCandidate(s) == Vec3(-1.0, -1.0, -1.0);
    assert Dot(DiffuseCandidate(s), DiffuseCandidate(s)) == 3.0;
    SqrtAtMost(lib, 3.0, 1.0);
  }

  /** With a lawful square root the rejection loop always ends with a direction. */
  lemma {:induction false} DiffuseAlwaysReflects(lib: Lib, s: Stream)
    requires SqrtLaws(lib)
    ensures DiffuseSample(lib, s).0.Some?
    decreases |s|
  {
    if s == [] {
      DryCandidateAccepted(lib, s);
    } else if Length(lib, DiffuseCandidate(s)) < 1.0 {
      DiffuseAlwaysReflects(lib, Drop(s, 3));
    }
  }

  /** The direction is normalize(c + normal) for the accepted candidate c. */
  lemma DiffuseDirectionFromCandidate(lib: Lib, normal: Vec3, s: Stream)
    requires SqrtLaws(lib)
    ensures var c := DiffuseSample(lib, s).0;
      c.Some? && DiffuseDirection(lib, normal, s).0 == Some(Normalize(lib, Add(c.value, normal)))
      && Length(lib, c.value) >= 1.0
  {
    DiffuseAlwaysReflects(lib, s);
  }

  // ---------------------------------------------------------------------
  // Reflection

  /** Reflecting about a unit normal flips the normal component. */
  lemma ReflectNormalComponent(v: Vec3, n: Vec3)
    requires Dot(n, n) == 1.0
    ensures Dot(Reflect(v, n), n) == -Dot(v, n)
  {
    var k := 2.0 * Dot(v, n);
    assert Dot(Reflect(v, n), n) == Dot(v, n) - k * Dot(n, n);
  }

  /** Reflecting twice about a unit normal gives the vector back. */
  lemma ReflectTwice(v: Vec3, n: Vec3)
    requires Dot(n, n) == 1.0
    ensures Reflect(Reflect(v, n), n) == v
  {
    ReflectNormalComponent(v, n);
    var r := Reflect(v, n);
    assert Reflect(r, n) == Sub(r, Scale(-2.0 * Dot(v, n), n));
  }

  /** Reflection keeps the length. */
  lemma ReflectKeepsLength(v: Vec3, n: Vec3)
    requires Dot(n, n) == 1.0
    ensures Dot(Reflect(v, n), Reflect(v, n)) == Dot(v, v)
  {
    var k := 2.0 * Dot(v, n);
    var r := Reflect(v, n);
    assert Dot(r, r) == Dot(v, v) - 2.0 * k * Dot(v, n) + k * k * Dot(n, n);
  }

  /**
   * The shader hands the incoming ray direction d to the materials as
   * to_viewer.  For the specular term the two sign errors cancel: with the
   * light direction L, (L - 2(L.n)n) . normalize(d) is the textbook
   * (2(L.n)n - L) . normalize(-d).
   */
  lemma SpecularSignsCancel(lib: Lib, toLight: Vec3, n: Vec3, d: Vec3)
    ensures Dot(Reflect(toLight, n), Normalize(lib, d))
      == Dot(Neg(Reflect(toLight, n)), Normalize(lib, Neg(d)))
  {
    var r, w := Reflect(toLight, n), Normalize(lib, d);
    NormalizeNeg(lib, d);
    NegDot(r, w);
  }

  lemma NegDot(a: Vec3, b: Vec3)
    ensures Dot(Neg(a), Neg(b)) == Dot(a, b)
  {
  }

  /** A light behind the surface adds no diffuse term. */
  lemma PhongLightBehind(m: Material, normal: Vec3, toLight: Vec3, lightColor: Color, hit: Hit)
    requires m.Phong?
    requires Dot(normal, toLight) <= 0.0
    ensures PhongDiffuse(m, normal, toLight, lightColor, hit) == Black
  {
  }

  /** The diffuse term of non-negative colours is never negative. */
  lemma PhongDiffuseNonNegative(m: Material, normal: Vec3, toLight: Vec3, lightColor: Color, hit: Hit)
    requires m.Phong?
    requires var k := SampleColor(m.kDiffuse, hit.u, hit.v);
      0.0 <= k.r && 0.0 <= k.g && 0.0 <= k.b && 0.0 <= lightColor.r && 0.0 <= lightColor.g && 0.0 <= lightColor.b
    ensures var c := PhongDiffuse(m, normal, toLight, lightColor, hit);
      0.0 <= c.r && 0.0 <= c.g && 0.0 <= c.b
  {
    var k := SampleColor(m.kDiffuse, hit.u, hit.v);
    var cos := Max(0.0, Dot(normal, toLight));
    MulMono(k.r, 0.0, lightColor.r);
    MulMono(k.g, 0.0, lightColor.g);
    MulMono(k.b, 0.0, lightColor.b);
    MulMono(cos, 0.0, k.r * lightColor.r);
    MulMono(cos, 0.0, k.g * lightColor.g);
    MulMono(cos, 0.0, k.b * lightColor.b);
  }

  // ---------------------------------------------------------------------
  // Mirror

  /** Without scatter nothing is drawn, and the reflection comes back normalised unless that points below. */
  lemma MirrorWithoutScatter(lib: Lib, scatterFactor: real, toViewer: Vec3, normal: Vec3, s: Stream)
    requires scatterFactor <= 0.0
    ensures var (d, rest) := MirrorDirection(lib, scatterFactor, toViewer, normal, s);
      var r := Reflect(toViewer, normal);
      rest == s && d == (if Dot(Normalize(lib, r), normal) < 0.0 then r else Normalize(lib, r))
  {
    assert Add(Reflect(toViewer, normal), Zero) == Reflect(toViewer, normal);
  }

  /** With scatter three values are drawn. */
  lemma MirrorScatterDraws(lib: Lib, scatterFactor: real, toViewer: Vec3, normal: Vec3, s: Stream)
    requires scatterFactor > 0.0
    ensures MirrorDirection(lib, scatterFactor, toViewer, normal, s).1 == Drop(s, 3)
  {
  }

  /**
   * A ray arriving against a unit normal leaves the mirror on the outside:
   * the perturbed direction if it points out, else the plain reflection.
   */
  lemma MirrorLeavesSurface(lib: Lib, scatterFactor: real, toViewer: Vec3, normal: Vec3, s: Stream)
    requires Dot(normal, normal) == 1.0 && Dot(toViewer, normal) <= 0.0
    ensures Dot(MirrorDirection(lib, scatterFactor, toViewer, normal, s).0, normal) >= 0.0
  {
    ReflectNormalComponent(toViewer, normal);
  }
}
