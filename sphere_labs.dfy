// The sphere intersection of two earlier labs, which pick a different root
// than the last lab's Shapes.SphereIntersect: B_raytracing_start falls back
// to the farther root, D_beleuchtung_schatten tests the roots against the
// open interval (tMin, tMax).  Both use the same quadratic as Shapes.
module SphereLabs {
  import opened Numerics
  import opened Linalg
  import opened Rays
  import opened Shapes

  /** The hit records of those labs: t, point, normal, and a colour (B) or material (D). */
  datatype LabHit<A> = LabHit(t: real, point: Vec3, normal: Vec3, attribute: A)

  /** The farther root, max(t1, t2). */
  function FarRoot(lib: Lib, center: Vec3, radius: real, ray: Ray): real
  {
    var a, b := QuadA(ray), QuadB(center, ray);
    var sq := lib.sqrt(Discriminant(center, radius, ray));
    Max(Div(-b + sq, 2.0 * a), Div(-b - sq, 2.0 * a))
  }

  /** The root B settles on: the nearer one, or the farther one if the nearer is behind the origin. */
  function RootB(lib: Lib, center: Vec3, radius: real, ray: Ray): real
  {
    var near := NearRoot(lib, center, radius, ray);
    if near < 0.0 then FarRoot(lib, center, radius, ray) else near
  }

  function HitB(center: Vec3, radius: real, color: Color, ray: Ray, t: real): LabHit<Color>
  {
    var p := PointAt(ray, t);
    LabHit(t, p, DivVec(Sub(p, center), radius), color)
  }

  /**
   * B_raytracing_start Sphere.intersect.  A tangent ray (zero
   * discriminant) hits at -b / 2a with neither a sign nor a range check.
   * A zero direction, for which the code divides by zero, gives no hit.
   */
  function SphereIntersectB(lib: Lib, center: Vec3, radius: real, color: Color, ray: Ray): (r: Option<LabHit<Color>>)
    ensures Discriminant(center, radius, ray) < 0.0 ==> r.None?
    ensures r.Some? && Discriminant(center, radius, ray) > 0.0 ==>
      var t := RootB(lib, center, radius, ray);
      r.value == HitB(center, radius, color, ray, t) && 0.0 <= t && IsValid(ray, t)
    ensures QuadA(ray) != 0.0 && Discriminant(center, radius, ray) == 0.0 ==>
      r == Some(HitB(center, radius, color, ray, TangentRoot(center, ray)))
  {
    var a := QuadA(ray);
    var disc := Discriminant(center, radius, ray);
    if a == 0.0 then None
    else if disc > 0.0 then
      var t := RootB(lib, center, radius, ray);
      if t < 0.0 then None
      else if IsValid(ray, t) then Some(HitB(center, radius, color, ray, t))
      else None
    else if disc == 0.0 then Some(HitB(center, radius, color, ray, TangentRoot(center, ray)))
    else None
  }

  /** Strict tMin < t < tMax, the test D applies to each root. */
  predicate InsideOpen(ray: Ray, t: real)
  {
    ray.tMin < t && (ray.tMax.Infinity? || t < ray.tMax.value)
  }

  /** D's first candidate (-b - sqrt(disc)) / 2a and second candidate (-b + sqrt(disc)) / 2a. */
  function FirstRootD(lib: Lib, center: Vec3, radius: real, ray: Ray): real
  {
    Div(-QuadB(center, ray) - lib.sqrt(Discriminant(center, radius, ray)), 2.0 * QuadA(ray))
  }

  function SecondRootD(lib: Lib, center: Vec3, radius: real, ray: Ray): real
  {
    Div(-QuadB(center, ray) + lib.sqrt(Discriminant(center, radius, ray)), 2.0 * QuadA(ray))
  }

  /** The candidate D keeps, -1 when neither root is inside the open interval. */
  function RootD(lib: Lib, center: Vec3, radius: real, ray: Ray): real
  {
    var t1, t2 := FirstRootD(lib, center, radius, ray), SecondRootD(lib, center, radius, ray);
    if InsideOpen(ray, t1) then t1 else if InsideOpen(ray, t2) then t2 else -1.0
  }

  /**
   * D_beleuchtung_schatten Sphere.intersect: the normal is normalised.  A
   * zero direction, for which every candidate is NaN or infinite in the code,
   * gives no hit.
   */
  function SphereIntersectD<M>(lib: Lib, center: Vec3, radius: real, material: M, ray: Ray): (r: Option<LabHit<M>>)
    ensures Discriminant(center, radius, ray) < 0.0 ==> r.None?
    ensures r.Some? ==> QuadA(ray) != 0.0 && 0.0 <= Discriminant(center, radius, ray)
    ensures r.Some? ==>
      var t := r.value.t;
      t == RootD(lib, center, radius, ray) && InsideOpen(ray, t) && 0.0 <= t
      && r.value.point == PointAt(ray, t)
      && r.value.normal == Normalize(lib, Sub(r.value.point, center)) && r.value.attribute == material
  {
    var disc := Discriminant(center, radius, ray);
    if disc < 0.0 then None
    else if QuadA(ray) == 0.0 then None
    else
      var t := RootD(lib, center, radius, ray);
      if t < 0.0 then None
      else
        var p := PointAt(ray, t);
        Some(LabHit(t, p, Normalize(lib, Sub(p, center)), material))
  }

  // ---------------------------------------------------------------------
  // Lemmas

  lemma DivMono(x: real, y: real, w: real)
    requires 0.0 < w && x <= y
    ensures Div(x, w) <= Div(y, w)
  {
    assert (Div(y, w) - Div(x, w)) * w == y - x;
    PositiveFactor(Div(y, w) - Div(x, w), w);
  }

  /** With a positive discriminant, B reports the smallest root that is not behind the origin, or nothing. */
  lemma SphereBSmallestAhead(lib: Lib, center: Vec3, radius: real, color: Color, ray: Ray)
    requires Discriminant(center, radius, ray) > 0.0
    requires SphereIntersectB(lib, center, radius, color, ray).Some?
    ensures var t := SphereIntersectB(lib, center, radius, color, ray).value.t;
      var near, far := NearRoot(lib, center, radius, ray), FarRoot(lib, center, radius, ray);
      0.0 <= t && (0.0 <= near ==> t == near) && (near < 0.0 ==> t == far)
      && (0.0 <= near ==> t <= near) && (0.0 <= far ==> t <= far)
  {
  }

  /** Both roots behind the origin give no hit. */
  lemma SphereBBothBehind(lib: Lib, center: Vec3, radius: real, color: Color, ray: Ray)
    requires Discriminant(center, radius, ray) > 0.0
    requires NearRoot(lib, center, radius, ray) < 0.0 && FarRoot(lib, center, radius, ray) < 0.0
    ensures SphereIntersectB(lib, center, radius, color, ray).None?
  {
  }

  /**
   * Where the last lab gives up because the nearer root is behind the
   * origin (a ray starting inside the sphere), B reports the farther one.
   */
  lemma SphereBInsideDiffers(lib: Lib, center: Vec3, radius: real, color: Color, material: Materials.Material, ray: Ray)
    requires QuadA(ray) != 0.0 && Discriminant(center, radius, ray) > 0.0
    requires NearRoot(lib, center, radius, ray) < 0.0 <= FarRoot(lib, center, radius, ray)
    requires IsValid(ray, FarRoot(lib, center, radius, ray))
    ensures SphereIntersect(lib, center, radius, material, ray).None?
    ensures SphereIntersectB(lib, center, radius, color, ray) == Some(HitB(center, radius, color, ray, FarRoot(lib, center, radius, ray)))
  {
  }

  /** When the nearer root is not behind the origin, B and the last lab agree on whether and where the ray hits. */
  lemma SphereBAgreesAhead(lib: Lib, center: Vec3, radius: real, color: Color, material: Materials.Material, ray: Ray)
    requires Discriminant(center, radius, ray) > 0.0 && 0.0 <= NearRoot(lib, center, radius, ray)
    ensures SphereIntersectB(lib, center, radius, color, ray).Some? <==> SphereIntersect(lib, center, radius, material, ray).Some?
    ensures SphereIntersectB(lib, center, radius, color, ray).Some? ==>
      SphereIntersectB(lib, center, radius, color, ray).value.t == SphereIntersect(lib, center, radius, material, ray).value.t.value
  {
  }

  /** D's first candidate is never beyond its second, so D prefers the nearer root. */
  lemma SphereDFirstIsNearer(lib: Lib, center: Vec3, radius: real, ray: Ray)
    requires SqrtLaws(lib)
    requires QuadA(ray) != 0.0 && Discriminant(center, radius, ray) >= 0.0
    ensures FirstRootD(lib, center, radius, ray) <= SecondRootD(lib, center, radius, ray)
  {
    var b, sq := QuadB(center, ray), lib.sqrt(Discriminant(center, radius, ray));
    DotSelf(ray.direction);
    DivMono(-b - sq, -b + sq, 2.0 * QuadA(ray));
  }

  /** D hits exactly when a candidate lies strictly inside the range and is not behind the origin. */
  lemma SphereDHitsIff<M>(lib: Lib, center: Vec3, radius: real, material: M, ray: Ray)
    requires QuadA(ray) != 0.0 && Discriminant(center, radius, ray) >= 0.0
    ensures var t1, t2 := FirstRootD(lib, center, radius, ray), SecondRootD(lib, center, radius, ray);
      SphereIntersectD(lib, center, radius, material, ray).Some?
      <==> (InsideOpen(ray, t1) && 0.0 <= t1) || (!InsideOpen(ray, t1) && InsideOpen(ray, t2) && 0.0 <= t2)
  {
  }

  /** Both of D's candidates solve the sphere's quadratic. */
  lemma RootDSolves(lib: Lib, center: Vec3, radius: real, ray: Ray, t: real)
    requires SqrtLaws(lib)
    requires QuadA(ray) != 0.0 && 0.0 <= Discriminant(center, radius, ray)
    requires t == FirstRootD(lib, center, radius, ray) || t == SecondRootD(lib, center, radius, ray)
    ensures QuadA(ray) * t * t + QuadB(center, ray) * t + QuadC(center, radius, ray) == 0.0
  {
    var a, b, c := QuadA(ray), QuadB(center, ray), QuadC(center, radius, ray);
    var sq := lib.sqrt(Discriminant(center, radius, ray));
    assert sq * sq == b * b - 4.0 * a * c;
    QuadraticRoot(a, b, c, sq, t);
  }

  /** A D hit lies on the sphere and, for a non-zero radius, carries a unit normal. */
  lemma SphereDHitOnSurface<M>(lib: Lib, center: Vec3, radius: real, material: M, ray: Ray)
    requires SqrtLaws(lib)
    requires SphereIntersectD(lib, center, radius, material, ray).Some?
    ensures var h := SphereIntersectD(lib, center, radius, material, ray).value;
      Dot(Sub(h.point, center), Sub(h.point, center)) == radius * radius
      && (radius != 0.0 ==> Dot(h.normal, h.normal) == 1.0)
  {
    var h := SphereIntersectD(lib, center, radius, material, ray).value;
    var pv := Sub(h.point, center);
    assert Dot(pv, pv) == radius * radius by {
      assert h.t == FirstRootD(lib, center, radius, ray) || h.t == SecondRootD(lib, center, radius, ray);
      RootDSolves(lib, center, radius, ray, h.t);
      RootOnSphere(center, radius, ray, h.t);
    }
    if radius != 0.0 {
      assert pv != Zero by {
        SquareZero(radius);
        DotSelf(pv);
      }
      NormalizeIsUnit(lib, pv);
    }
  }
}
