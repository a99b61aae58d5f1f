// The Shape interface of the last lab (H_beschleunigung): sphere, disc and
// rectangle in the XZ plane, the background, and a transformed group of
// shapes, each with its bounding box and its ray intersection.  The
// mutable Group object itself is in module Groups; a Group shape here is
// the frozen contents of such an object.
module Shapes {
  import opened Numerics
  import opened Linalg
  import opened Rays
  import opened Boxes
  import opened BoxIntersection
  import opened Materials
  import opened Util

  datatype Shape =
    | Sphere(center: Vec3, radius: real, material: Material)
    | DiscXZ(anchor: Vec3, radius: real, material: Material)
    | RectXZ(anchor: Vec3, xHalf: real, zHalf: real, material: Material)
    | Background(material: Material)
    | Group(forms: seq<Shape>, matrix: Matrix, inverse: Matrix, transposedInverse: Matrix, box: Box)

  /** new RectXZ(anchor, x_size, z_size, material) keeps the half sizes. */
  function MakeRect(anchor: Vec3, xSize: real, zSize: real, material: Material): (s: Shape)
    ensures s.RectXZ? && s.xHalf * 2.0 == xSize && s.zHalf * 2.0 == zSize
  {
    RectXZ(anchor, xSize / 2.0, zSize / 2.0, material)
  }

  /** The fixed normal of disc and rectangle. */
  const Up: Vec3 := Vec3(0.0, 1.0, 0.0)

  /** The box each constructor computes; a group keeps the box it has grown. */
  function Bounds(s: Shape): Box
  {
    match s
    case Sphere(c, r, _) => Box(Vec3(c.x - r, c.y - r, c.z - r), Vec3(c.x + r, c.y + r, c.z + r))
    case DiscXZ(a, r, _) => Box(Vec3(a.x - r, a.y - 10.0, a.z - r), Vec3(a.x + r, a.y + 10.0, a.z + r))
    case RectXZ(a, xh, zh, _) => Box(Vec3(a.x - xh, a.y, a.z - zh), Vec3(a.x + xh, a.y, a.z + zh))
    case Background(_) => Infinite
    case Group(_, _, _, _, box) => box
  }

  // ---------------------------------------------------------------------
  // Sphere

  /** The quadratic a t^2 + b t + c of origin + t direction on the sphere. */
  function QuadA(ray: Ray): real
  {
    Dot(ray.direction, ray.direction)
  }

  function QuadB(center: Vec3, ray: Ray): real
  {
    2.0 * Dot(Sub(ray.origin, center), ray.direction)
  }

  function QuadC(center: Vec3, radius: real, ray: Ray): real
  {
    Dot(Sub(ray.origin, center), Sub(ray.origin, center)) - radius * radius
  }

  function Discriminant(center: Vec3, radius: real, ray: Ray): real
  {
    var b := QuadB(center, ray);
    b * b - 4.0 * QuadA(ray) * QuadC(center, radius, ray)
  }

  /** The nearer of the two roots of a positive discriminant, min(t1, t2). */
  function NearRoot(lib: Lib, center: Vec3, radius: real, ray: Ray): real
  {
    var a, b := QuadA(ray), QuadB(center, ray);
    var sq := lib.sqrt(Discriminant(center, radius, ray));
    Min(Div(-b + sq, 2.0 * a), Div(-b - sq, 2.0 * a))
  }

  /** The double root -b / 2a of a zero discriminant. */
  function TangentRoot(center: Vec3, ray: Ray): real
  {
    Div(-QuadB(center, ray), 2.0 * QuadA(ray))
  }

  /** The hit record at t: normal (p - center) / radius, and the polar texture coordinates. */
  function SphereHitAt(lib: Lib, center: Vec3, radius: real, material: Material, ray: Ray, t: real): Hit
  {
    var p := PointAt(ray, t);
    var pv := Sub(p, center);
    var theta := Pi - lib.acos(Div(pv.y, radius));
    var phi := Pi + lib.atan2(pv.x, pv.z);
    Hit(Finite(t), p, DivVec(pv, radius), material, phi / (2.0 * Pi), theta / Pi)
  }

  /**
   * Sphere.intersect.  A positive discriminant gives the nearer root, which
   * must be non-negative and valid; a zero discriminant gives -b / 2a, which
   * only has to be non-negative.  A zero direction (a == 0), for which the
   * code divides by zero, gives no hit.
   */
  function SphereIntersect(lib: Lib, center: Vec3, radius: real, material: Material, ray: Ray): (r: Option<Hit>)
    ensures Discriminant(center, radius, ray) < 0.0 ==> r.None?
    ensures r.Some? ==> QuadA(ray) != 0.0 && Discriminant(center, radius, ray) >= 0.0
    ensures r.Some? && Discriminant(center, radius, ray) > 0.0 ==>
      r.value == SphereHitAt(lib, center, radius, material, ray, NearRoot(lib, center, radius, ray))
      && 0.0 <= NearRoot(lib, center, radius, ray) && IsValid(ray, NearRoot(lib, center, radius, ray))
    ensures r.Some? && Discriminant(center, radius, ray) == 0.0 ==>
      r.value == SphereHitAt(lib, center, radius, material, ray, TangentRoot(center, ray))
      && 0.0 <= TangentRoot(center, ray)
  {
    var a := QuadA(ray);
    var disc := Discriminant(center, radius, ray);
    if a == 0.0 then None
    else if disc > 0.0 then
      var t := NearRoot(lib, center, radius, ray);
      if t < 0.0 then None
      else if IsValid(ray, t) then Some(SphereHitAt(lib, center, radius, material, ray, t))
      else None
    else if disc == 0.0 then
      var t := TangentRoot(center, ray);
      if t < 0.0 then None else Some(SphereHitAt(lib, center, radius, material, ray, t))
    else None
  }

  // ---------------------------------------------------------------------
  // Disc and rectangle in the plane y = anchor.y

  /** The parameter where the ray meets the plane y = height. */
  function PlaneT(height: real, ray: Ray): real
  {
    Div(height - ray.origin.y, ray.direction.y)
  }

  /**
   * DiscXZ.intersect.  A ray parallel to the plane, for which the code
   * divides by zero, gives no hit.
   */
  function DiscIntersect(lib: Lib, anchor: Vec3, radius: real, material: Material, ray: Ray): (r: Option<Hit>)
    ensures r.Some? ==>
      var t := PlaneT(anchor.y, ray);
      ray.direction.y != 0.0 && IsValid(ray, t)
      && r.value.t == Finite(t) && r.value.point == PointAt(ray, t)
      && Length(lib, Sub(anchor, r.value.point)) <= radius
      && r.value.normal == Up && r.value.material == material
  {
    if ray.direction.y == 0.0 then None
    else
      var t := PlaneT(anchor.y, ray);
      if !IsValid(ray, t) then None
      else
        var p := PointAt(ray, t);
        if Length(lib, Sub(anchor, p)) > radius then None
        else
          var rd := Sub(p, anchor);
          var u := Div(rd.x + radius, radius + radius);
          var v := 1.0 - Div(rd.z + radius, radius + radius);
          Some(Hit(Finite(t), p, Up, material, u, v))
  }

  /** RectXZ.intersect: a ray with |direction.y| < 1e-3 counts as parallel. */
  function RectIntersect(anchor: Vec3, xHalf: real, zHalf: real, material: Material, ray: Ray): (r: Option<Hit>)
    ensures IsZero(ray.direction.y) ==> r.None?
    ensures r.Some? ==>
      var t := PlaneT(anchor.y, ray);
      IsValid(ray, t) && r.value.t == Finite(t) && r.value.point == PointAt(ray, t)
      && Abs(r.value.point.x - anchor.x) <= xHalf && Abs(r.value.point.z - anchor.z) <= zHalf
      && r.value.normal == Up && r.value.material == material
  {
    if IsZero(ray.direction.y) then None
    else
      var t := PlaneT(anchor.y, ray);
      if !IsValid(ray, t) then None
      else
        var p := PointAt(ray, t);
        if Abs(p.x - anchor.x) > xHalf || Abs(p.z - anchor.z) > zHalf then None
        else
          var rd := Sub(p, anchor);
          var u := Div(rd.x + xHalf, xHalf * 2.0);
          var v := 1.0 - Div(rd.z + zHalf, zHalf * 2.0);
          Some(Hit(Finite(t), p, Up, material, u, v))
  }

  // ---------------------------------------------------------------------
  // Background

  /**
   * Background.intersect: only a ray without a far bound hits it, at
   * t = +infinity.  The hit point pointAt(+infinity) is not a real point;
   * the model records the ray direction in its place.
   */
  function BackgroundIntersect(material: Material, ray: Ray): (r: Option<Hit>)
    ensures r.Some? <==> ray.tMax.Infinity?
    ensures r.Some? ==>
      r.value.t == Infinity && r.value.normal == Neg(ray.direction)
      && r.value.material == material && r.value.u == 0.0 && r.value.v == 0.0
  {
    if ray.tMax.Finite? then None
    else Some(Hit(Infinity, ray.direction, Neg(ray.direction), material, 0.0, 0.0))
  }

  // ---------------------------------------------------------------------
  // Group

  /** hit.t() < closestHit.t() on doubles, where the background's t is +infinity. */
  predicate Before(a: Bound, b: Bound)
  {
    match a
    case Infinity => false
    case Finite(x) => b.Infinity? || x < b.value
  }

  /** One step of the loop over the children: a strictly nearer hit replaces the closest one. */
  function Closer(closest: Option<Hit>, hit: Option<Hit>): Option<Hit>
  {
    if hit.Some? && (closest.None? || Before(hit.value.t, closest.value.t)) then hit else closest
  }

  /** The loop over the children's hits, in order. */
  function Nearest(hits: seq<Option<Hit>>): Option<Hit>
  {
    if hits == [] then None else Closer(Nearest(hits[..|hits| - 1]), hits[|hits| - 1])
  }

  /** The ray in the group's own coordinates; its parameter range is the caller's. */
  function LocalRay(lib: Lib, inverse: Matrix, ray: Ray): (r: Ray)
    ensures r.tMin == ray.tMin && r.tMax == ray.tMax
  {
    Ray(lib.transformPoint(inverse, ray.origin), lib.transformDirection(inverse, ray.direction), ray.tMin, ray.tMax)
  }

  /** The winning hit back in the caller's coordinates: t, material and u, v pass through. */
  function BackTransform(lib: Lib, matrix: Matrix, transposedInverse: Matrix, h: Hit): (r: Hit)
    ensures r.t == h.t && r.material == h.material && r.u == h.u && r.v == h.v
  {
    Hit(h.t, lib.transformPoint(matrix, h.point), Normalize(lib, lib.transformDirection(transposedInverse, h.normal)),
        h.material, h.u, h.v)
  }

  /** Shape.intersect for every shape. */
  function Intersect(lib: Lib, s: Shape, ray: Ray): Option<Hit>
    decreases s
  {
    match s
    case Sphere(center, radius, material) => SphereIntersect(lib, center, radius, material, ray)
    case DiscXZ(anchor, radius, material) => DiscIntersect(lib, anchor, radius, material, ray)
    case RectXZ(anchor, xHalf, zHalf, material) => RectIntersect(anchor, xHalf, zHalf, material, ray)
    case Background(material) => BackgroundIntersect(material, ray)
    case Group(forms, matrix, inverse, transposedInverse, box) =>
      var local := LocalRay(lib, inverse, ray);
      if !IntersectFixed(box, local) then None
      else
        var hits := seq(|forms|, i requires 0 <= i < |forms| => Intersect(lib, forms[i], local));
        match Nearest(hits)
        case None => None
        case Some(h) => Some(BackTransform(lib, matrix, transposedInverse, h))
  }

  /** The children's hits on the local ray, in order. */
  function ChildHits(lib: Lib, forms: seq<Shape>, local: Ray): (hits: seq<Option<Hit>>)
    ensures |hits| == |forms|
    ensures forall i :: 0 <= i < |forms| ==> hits[i] == Intersect(lib, forms[i], local)
  {
    seq(|forms|, i requires 0 <= i < |forms| => Intersect(lib, forms[i], local))
  }

  // ---------------------------------------------------------------------
  // Algebra behind the sphere

  /** Both roots of a quadratic with a non-zero leading coefficient solve it. */
  lemma QuadraticRoot(a: real, b: real, c: real, sq: real, t: real)
    requires a != 0.0 && sq * sq == b * b - 4.0 * a * c
    requires t == Div(-b + sq, 2.0 * a) || t == Div(-b - sq, 2.0 * a)
    ensures a * t * t + b * t + c == 0.0
  {
    assert t * (2.0 * a) == -b + sq || t * (2.0 * a) == -b - sq;
    var u := 2.0 * a * t + b;
    assert u == sq || u == -sq;
    assert u * u == sq * sq;
    assert u * u == 4.0 * a * (a * t * t + b * t + c) + b * b - 4.0 * a * c;
    assert (4.0 * a) * (a * t * t + b * t + c) == 0.0;
    ProductZero(4.0 * a, a * t * t + b * t + c);
  }

  /** |p + t d|^2 expanded in t. */
  lemma DotExpand(p: Vec3, d: Vec3, t: real)
    ensures Dot(Add(p, Scale(t, d)), Add(p, Scale(t, d))) == Dot(p, p) + t * (2.0 * Dot(p, d)) + t * t * Dot(d, d)
  {
    assert (p.x + t * d.x) * (p.x + t * d.x) == p.x * p.x + t * (2.0 * p.x * d.x) + t * t * (d.x * d.x);
    assert (p.y + t * d.y) * (p.y + t * d.y) == p.y * p.y + t * (2.0 * p.y * d.y) + t * t * (d.y * d.y);
    assert (p.z + t * d.z) * (p.z + t * d.z) == p.z * p.z + t * (2.0 * p.z * d.z) + t * t * (d.z * d.z);
  }

  /** A root of the sphere's quadratic is a point of the sphere. */
  lemma RootOnSphere(center: Vec3, radius: real, ray: Ray, t: real)
    requires QuadA(ray) * t * t + QuadB(center, ray) * t + QuadC(center, radius, ray) == 0.0
    ensures Dot(Sub(PointAt(ray, t), center), Sub(PointAt(ray, t), center)) == radius * radius
  {
    var oc := Sub(ray.origin, center);
    assert Sub(PointAt(ray, t), center) == Add(oc, Scale(t, ray.direction));
    DotExpand(oc, ray.direction, t);
  }

  /** Squaring is strictly increasing on the non-negative reals. */
  lemma SquareStrict(a: real, b: real)
    requires 0.0 <= a < b
    ensures a * a < b * b
  {
    assert (b - a) * (b + a) == b * b - a * a;
    ProductPositive(b - a, b + a);
  }

  /** x^2 <= r^2 with r >= 0 puts x in [-r, r]. */
  lemma SquareBound(x: real, r: real)
    requires 0.0 <= r && x * x <= r * r
    ensures -r <= x <= r
  {
    if x > r {
      SquareStrict(r, x);
    } else if x < -r {
      SquareStrict(r, -x);
    }
  }

  /** A factor of a non-negative product with a positive number is non-negative. */
  lemma PositiveFactor(q: real, w: real)
    requires 0.0 < w && 0.0 <= q * w
    ensures 0.0 <= q
  {
    if q < 0.0 {
      ProductPositive(-q, w);
    }
  }

  /** A ratio x / w with 0 <= x <= w lies in the unit interval. */
  lemma UnitRatio(x: real, w: real)
    requires 0.0 <= x <= w
    ensures 0.0 <= Div(x, w) <= 1.0
  {
    if w != 0.0 {
      var q := Div(x, w);
      assert q * w == x;
      PositiveFactor(q, w);
      assert (1.0 - q) * w == w - x;
      PositiveFactor(1.0 - q, w);
    }
  }

  // ---------------------------------------------------------------------
  // Sphere properties

  lemma NearRootSolves(lib: Lib, center: Vec3, radius: real, ray: Ray, t: real)
    requires SqrtLaws(lib)
    requires QuadA(ray) != 0.0 && Discriminant(center, radius, ray) > 0.0
    requires t == NearRoot(lib, center, radius, ray)
    ensures QuadA(ray) * t * t + QuadB(center, ray) * t + QuadC(center, radius, ray) == 0.0
  {
    var a, b, c := QuadA(ray), QuadB(center, ray), QuadC(center, radius, ray);
    var sq := lib.sqrt(Discriminant(center, radius, ray));
    assert sq * sq == b * b - 4.0 * a * c;
    QuadraticRoot(a, b, c, sq, t);
  }

  lemma TangentRootSolves(center: Vec3, radius: real, ray: Ray, t: real)
    requires QuadA(ray) != 0.0 && Discriminant(center, radius, ray) == 0.0
    requires t == TangentRoot(center, ray)
    ensures QuadA(ray) * t * t + QuadB(center, ray) * t + QuadC(center, radius, ray) == 0.0
  {
    var a, b, c := QuadA(ray), QuadB(center, ray), QuadC(center, radius, ray);
    QuadraticRoot(a, b, c, 0.0, t);
  }

  /** Every sphere hit has t >= 0 and lies on the sphere. */
  lemma SphereHitOnSurface(lib: Lib, center: Vec3, radius: real, material: Material, ray: Ray)
    requires SqrtLaws(lib)
    requires SphereIntersect(lib, center, radius, material, ray).Some?
    ensures var h := SphereIntersect(lib, center, radius, material, ray).value;
      h.t.Finite? && 0.0 <= h.t.value && h.point == PointAt(ray, h.t.value)
      && h.normal == DivVec(Sub(h.point, center), radius) && h.material == material
      && Dot(Sub(h.point, center), Sub(h.point, center)) == radius * radius
  {
    var h := SphereIntersect(lib, center, radius, material, ray).value;
    var t := h.t.value;
    if Discriminant(center, radius, ray) > 0.0 {
      assert h == SphereHitAt(lib, center, radius, material, ray, NearRoot(lib, center, radius, ray));
      NearRootSolves(lib, center, radius, ray, t);
    } else {
      assert h == SphereHitAt(lib, center, radius, material, ray, TangentRoot(center, ray));
      TangentRootSolves(center, radius, ray, t);
    }
    HitAtOnSurface(lib, center, radius, material, ray, t);
  }

  /** The hit built at a root of the quadratic lies on the sphere. */
  lemma HitAtOnSurface(lib: Lib, center: Vec3, radius: real, material: Material, ray: Ray, t: real)
    requires QuadA(ray) * t * t + QuadB(center, ray) * t + QuadC(center, radius, ray) == 0.0
    ensures var h := SphereHitAt(lib, center, radius, material, ray, t);
      h.t == Finite(t) && h.point == PointAt(ray, t)
      && h.normal == DivVec(Sub(h.point, center), radius) && h.material == material
      && Dot(Sub(h.point, center), Sub(h.point, center)) == radius * radius
  {
    RootOnSphere(center, radius, ray, t);
  }

  /** A vector of length |r| divided by r is a unit vector. */
  lemma DivideToUnit(pv: Vec3, r: real)
    requires r != 0.0 && Dot(pv, pv) == r * r
    ensures Dot(DivVec(pv, r), DivVec(pv, r)) == 1.0
  {
    var n := DivVec(pv, r);
    assert n.x * r == pv.x && n.y * r == pv.y && n.z * r == pv.z;
    assert (n.x * r) * (n.x * r) == n.x * n.x * (r * r);
    assert (n.y * r) * (n.y * r) == n.y * n.y * (r * r);
    assert (n.z * r) * (n.z * r) == n.z * n.z * (r * r);
    assert (Dot(n, n) - 1.0) * (r * r) == 0.0;
    SquareZero(r);
    ProductZero(Dot(n, n) - 1.0, r * r);
  }

  /** The normal (p - center) / radius of a hit has unit length. */
  lemma SphereNormalUnit(lib: Lib, center: Vec3, radius: real, material: Material, ray: Ray)
    requires SqrtLaws(lib) && radius != 0.0
    requires SphereIntersect(lib, center, radius, material, ray).Some?
    ensures var n := SphereIntersect(lib, center, radius, material, ray).value.normal;
      Dot(n, n) == 1.0
  {
    var h := SphereIntersect(lib, center, radius, material, ray).value;
    SphereHitOnSurface(lib, center, radius, material, ray);
    DivideToUnit(Sub(h.point, center), radius);
  }

  /** Of two roots with the nearer one negative the sphere reports nothing, even if the farther one is ahead. */
  lemma SphereNearRootBehind(lib: Lib, center: Vec3, radius: real, material: Material, ray: Ray)
    requires Discriminant(center, radius, ray) > 0.0 && NearRoot(lib, center, radius, ray) < 0.0
    ensures SphereIntersect(lib, center, radius, material, ray).None?
  {
  }

  /** A positive discriminant with a non-negative nearer root hits exactly when that root is valid. */
  lemma SphereRangeChecked(lib: Lib, center: Vec3, radius: real, material: Material, ray: Ray)
    requires QuadA(ray) != 0.0 && Discriminant(center, radius, ray) > 0.0
    requires 0.0 <= NearRoot(lib, center, radius, ray)
    ensures SphereIntersect(lib, center, radius, material, ray).Some? <==> IsValid(ray, NearRoot(lib, center, radius, ray))
  {
  }

  /** A tangent ray hits at -b / 2a whenever that is not behind the origin, valid or not. */
  lemma SphereTangentUnchecked(lib: Lib, center: Vec3, radius: real, material: Material, ray: Ray)
    requires QuadA(ray) != 0.0 && Discriminant(center, radius, ray) == 0.0
    ensures SphereIntersect(lib, center, radius, material, ray).Some? <==> 0.0 <= TangentRoot(center, ray)
  {
  }

  /** Points of a sphere of radius r >= 0 lie in its box. */
  lemma SphereBoundsCover(center: Vec3, radius: real, material: Material, p: Vec3)
    requires 0.0 <= radius
    requires Dot(Sub(p, center), Sub(p, center)) <= radius * radius
    ensures Contains(Bounds(Sphere(center, radius, material)), p)
  {
    var pv := Sub(p, center);
    SquareZero(pv.x);
    SquareZero(pv.y);
    SquareZero(pv.z);
    SquareBound(pv.x, radius);
    SquareBound(pv.y, radius);
    SquareBound(pv.z, radius);
  }

  // ---------------------------------------------------------------------
  // Disc and rectangle properties

  /** The hit point of a non-parallel ray lies in the plane. */
  lemma PlanePoint(height: real, ray: Ray)
    requires ray.direction.y != 0.0
    ensures PointAt(ray, PlaneT(height, ray)).y == height
  {
    var t := PlaneT(height, ray);
    assert t * ray.direction.y == height - ray.origin.y;
  }

  /** With a non-parallel ray and a valid t the disc accepts exactly the points within (or at) its radius. */
  lemma DiscAcceptsRadius(lib: Lib, anchor: Vec3, radius: real, material: Material, ray: Ray)
    requires ray.direction.y != 0.0 && IsValid(ray, PlaneT(anchor.y, ray))
    ensures DiscIntersect(lib, anchor, radius, material, ray).Some?
        <==> Length(lib, Sub(anchor, PointAt(ray, PlaneT(anchor.y, ray)))) <= radius
  {
  }

  /** A disc hit lies in the disc's box and has u, v in the unit interval. */
  lemma DiscHitFacts(lib: Lib, anchor: Vec3, radius: real, material: Material, ray: Ray)
    requires SqrtLaws(lib)
    requires DiscIntersect(lib, anchor, radius, material, ray).Some?
    ensures var h := DiscIntersect(lib, anchor, radius, material, ray).value;
      Contains(Bounds(DiscXZ(anchor, radius, material)), h.point)
      && 0.0 <= h.u <= 1.0 && 0.0 <= h.v <= 1.0
  {
    var h := DiscIntersect(lib, anchor, radius, material, ray).value;
    var off := Sub(anchor, h.point);
    assert h.point.y == anchor.y by {
      PlanePoint(anchor.y, ray);
    }
    assert 0.0 <= radius && -radius <= off.x <= radius && -radius <= off.z <= radius by {
      OffsetWithin(lib, off, radius);
    }
    var rd := Sub(h.point, anchor);
    assert 0.0 <= h.u <= 1.0 by {
      UnitRatio(rd.x + radius, radius + radius);
    }
    assert 0.0 <= h.v <= 1.0 by {
      UnitRatio(rd.z + radius, radius + radius);
    }
  }

  /** An offset of length at most r is within r in every coordinate. */
  lemma OffsetWithin(lib: Lib, off: Vec3, r: real)
    requires SqrtLaws(lib) && Length(lib, off) <= r
    ensures 0.0 <= r && -r <= off.x <= r && -r <= off.z <= r
  {
    DotSelf(off);
    assert 0.0 <= r;
    SqrtAtMost(lib, Dot(off, off), r);
    SquareZero(off.x);
    SquareZero(off.y);
    SquareZero(off.z);
    SquareBound(off.x, r);
    SquareBound(off.z, r);
  }

  /** A rectangle hit lies in the (flat) rectangle box and has u, v in the unit interval. */
  lemma RectHitFacts(anchor: Vec3, xHalf: real, zHalf: real, material: Material, ray: Ray)
    requires RectIntersect(anchor, xHalf, zHalf, material, ray).Some?
    ensures var h := RectIntersect(anchor, xHalf, zHalf, material, ray).value;
      Contains(Bounds(RectXZ(anchor, xHalf, zHalf, material)), h.point)
      && h.point.y == anchor.y
      && 0.0 <= h.u <= 1.0 && 0.0 <= h.v <= 1.0
  {
    var h := RectIntersect(anchor, xHalf, zHalf, material, ray).value;
    PlanePoint(anchor.y, ray);
    var rd := Sub(h.point, anchor);
    UnitRatio(rd.x + xHalf, xHalf * 2.0);
    UnitRatio(rd.z + zHalf, zHalf * 2.0);
  }

  /** The box of a rectangle is flat in y at the anchor's height and spans the half sizes. */
  lemma RectBoundsFlat(anchor: Vec3, xSize: real, zSize: real, material: Material)
    ensures var b := Bounds(MakeRect(anchor, xSize, zSize, material));
      b.Box? && b.min.y == anchor.y == b.max.y
      && b.max.x - b.min.x == xSize && b.max.z - b.min.z == zSize
  {
  }

  // ---------------------------------------------------------------------
  // Background property

  /** A shadow-like ray with a finite far bound never meets the background. */
  lemma BackgroundNeedsInfiniteRay(lib: Lib, material: Material, ray: Ray)
    ensures Intersect(lib, Background(material), ray).None? <==> ray.tMax.Finite?
    ensures Bounds(Background(material)) == Infinite
  {
  }

  // ---------------------------------------------------------------------
  // The nearest hit of a sequence

  lemma BeforeOrder(a: Bound, b: Bound, c: Bound)
    ensures !Before(a, a)
    ensures Before(a, b) || Before(b, a) || a == b
    ensures Before(a, b) && !Before(c, b) ==> Before(a, c)
  {
  }

  /**
   * Hit i is the one the loop keeps: no other hit is strictly nearer, and
   * every earlier hit is strictly farther.
   */
  predicate Winner(hits: seq<Option<Hit>>, i: int)
  {
    0 <= i < |hits| && hits[i].Some?
    && (forall j :: 0 <= j < |hits| && hits[j].Some? ==> !Before(hits[j].value.t, hits[i].value.t))
    && (forall j :: 0 <= j < i && hits[j].Some? ==> Before(hits[i].value.t, hits[j].value.t))
  }

  /** There is at most one winner. */
  lemma WinnerUnique(hits: seq<Option<Hit>>, i: int, k: int)
    requires Winner(hits, i) && Winner(hits, k)
    ensures i == k
  {
  }

  /** The fold finds nothing exactly when no hit is present, and otherwise finds the winner. */
  lemma {:induction false} NearestSpec(hits: seq<Option<Hit>>)
    ensures Nearest(hits).None? <==> forall i :: 0 <= i < |hits| ==> hits[i].None?
    ensures Nearest(hits).Some? ==> exists i :: Winner(hits, i) && hits[i] == Nearest(hits)
    decreases |hits|
  {
    if hits != [] {
      var n := |hits| - 1;
      var pre, last := hits[..n], hits[n];
      NearestSpec(pre);
      assert forall j :: 0 <= j < n ==> pre[j] == hits[j];
      var best := Nearest(pre);
      if best.None? {
        if last.Some? {
          assert Winner(hits, n);
        }
      } else {
        var i :| Winner(pre, i) && pre[i] == best;
        var h := best.value;
        if last.Some? && Before(last.value.t, h.t) {
          forall j | 0 <= j < n && hits[j].Some?
            ensures Before(last.value.t, hits[j].value.t)
          {
            BeforeOrder(last.value.t, h.t, hits[j].value.t);
          }
          forall j | 0 <= j < |hits| && hits[j].Some?
            ensures !Before(hits[j].value.t, last.value.t)
          {
            if j < n {
              BeforeOrder(last.value.t, h.t, hits[j].value.t);
              BeforeOrder(hits[j].value.t, last.value.t, last.value.t);
              BeforeOrder(last.value.t, hits[j].value.t, last.value.t);
            } else {
              BeforeOrder(last.value.t, last.value.t, last.value.t);
            }
          }
          assert Winner(hits, n);
        } else {
          assert Winner(hits, i);
        }
      }
    }
  }

  // ---------------------------------------------------------------------
  // Group properties

  /**
   * A group hit exists exactly when the box test on the local ray passes
   * and some child hits; it is then the winner among the children's hits,
   * moved back to the caller's coordinates.
   */
  lemma GroupIntersectSpec(lib: Lib, forms: seq<Shape>, matrix: Matrix, inverse: Matrix,
                           transposedInverse: Matrix, box: Box, ray: Ray)
    ensures var local := LocalRay(lib, inverse, ray);
      Intersect(lib, Group(forms, matrix, inverse, transposedInverse, box), ray).None?
      <==> (!IntersectFixed(box, local) || forall i :: 0 <= i < |forms| ==> Intersect(lib, forms[i], local).None?)
    ensures var local := LocalRay(lib, inverse, ray);
      var r := Intersect(lib, Group(forms, matrix, inverse, transposedInverse, box), ray);
      r.Some? ==>
        exists i :: (Winner(ChildHits(lib, forms, local), i)
          && r.value == BackTransform(lib, matrix, transposedInverse, ChildHits(lib, forms, local)[i].value))
  {
    var local := LocalRay(lib, inverse, ray);
    var hits := seq(|forms|, i requires 0 <= i < |forms| => Intersect(lib, forms[i], local));
    assert hits == ChildHits(lib, forms, local);
    NearestSpec(hits);
  }

  /**
   * The box test never discards a child hit at a valid t whose point lies in
   * the group's box.
   */
  lemma GroupKeepsBoxedHits(lib: Lib, forms: seq<Shape>, matrix: Matrix, inverse: Matrix,
                            transposedInverse: Matrix, box: Box, ray: Ray, i: int)
    requires 0 <= i < |forms|
    requires var h := Intersect(lib, forms[i], LocalRay(lib, inverse, ray));
      h.Some? && h.value.t.Finite? && IsValid(LocalRay(lib, inverse, ray), h.value.t.value)
      && h.value.point == PointAt(LocalRay(lib, inverse, ray), h.value.t.value)
      && Contains(box, h.value.point)
    ensures Intersect(lib, Group(forms, matrix, inverse, transposedInverse, box), ray).Some?
  {
    var local := LocalRay(lib, inverse, ray);
    var h := Intersect(lib, forms[i], local).value;
    IntersectFixedConservative(box, local, h.t.value);
    GroupIntersectSpec(lib, forms, matrix, inverse, transposedInverse, box, ray);
  }

  /** The group case of Intersect with the children's hits named. */
  lemma GroupUnfold(lib: Lib, forms: seq<Shape>, matrix: Matrix, inverse: Matrix,
                    transposedInverse: Matrix, box: Box, ray: Ray)
    ensures var local := LocalRay(lib, inverse, ray);
      Intersect(lib, Group(forms, matrix, inverse, transposedInverse, box), ray)
      == if !IntersectFixed(box, local) then None
         else match Nearest(ChildHits(lib, forms, local))
           case None => None
           case Some(h) => Some(BackTransform(lib, matrix, transposedInverse, h))
  {
    var local := LocalRay(lib, inverse, ray);
    var hits := seq(|forms|, i requires 0 <= i < |forms| => Intersect(lib, forms[i], local));
    assert hits == ChildHits(lib, forms, local);
  }

  /** A bounded primitive: a disc, a rectangle, or a sphere of non-negative radius. */
  predicate Primitive(s: Shape)
  {
    s.DiscXZ? || s.RectXZ? || (s.Sphere? && 0.0 <= s.radius)
  }

  /**
   * A hit of a disc, a rectangle, or a sphere met at two points lies at a
   * valid t on the ray and inside the shape's box: the boxes the
   * constructors compute are conservative.
   */
  lemma PrimitiveHitInBounds(lib: Lib, s: Shape, ray: Ray)
    requires SqrtLaws(lib) && Primitive(s)
    requires s.Sphere? ==> Discriminant(s.center, s.radius, ray) > 0.0
    requires Intersect(lib, s, ray).Some?
    ensures var h := Intersect(lib, s, ray).value;
      h.t.Finite? && IsValid(ray, h.t.value) && h.point == PointAt(ray, h.t.value)
      && Contains(Bounds(s), h.point)
  {
    match s
    case DiscXZ(anchor, radius, material) =>
      DiscHitFacts(lib, anchor, radius, material, ray);
    case RectXZ(anchor, xHalf, zHalf, material) =>
      RectHitFacts(anchor, xHalf, zHalf, material, ray);
    case Sphere(center, radius, material) =>
      SphereHitOnSurface(lib, center, radius, material, ray);
      var h := Intersect(lib, s, ray).value;
      SphereBoundsCover(center, radius, material, h.point);
  }
}
