// BoundingBox.intersect (H_beschleunigung/BoundingBox.java): the early
// accepts, then the slab test with reciprocal directions.  The slab test is
// modelled with the double semantics it relies on (ExtendedReals), and next
// to it stands a corrected slab test that the rest of the model uses.
module BoxIntersection {
  import opened Numerics
  import opened Linalg
  import opened Rays
  import opened ExtendedReals
  import opened Boxes

  /** ray.isValid applied to a double that may be infinite or NaN. */
  predicate ValidX(ray: Ray, t: XReal)
  {
    match t
    case Fin(v) => IsValid(ray, v)
    case PosInf => ray.tMax.Infinity?
    case NegInf => false
    case NaN => false
  }

  /** The early accepts: the everything box, and a box holding the point at tMin or at tMax. */
  predicate FastAccept(b: Box, ray: Ray)
  {
    b == Everything
    || Contains(b, PointAt(ray, ray.tMin))
    || (ray.tMax.Finite? && Contains(b, PointAt(ray, ray.tMax.value)))
  }

  /** Entry and exit parameter of one slab as the code computes them: (lo - o) * (1 / d). */
  function SlabAxis(lo: real, hi: real, o: real, d: real): (XReal, XReal)
  {
    var inv := Recip(d);
    var t1 := Times(lo - o, inv);
    var t2 := Times(hi - o, inv);
    (JMin(t1, t2), JMax(t1, t2))
  }

  /**
   * tmax >= tmin && ray.isValid(tmin), where tmin folds the slab entries
   * with Math.max and tmax folds the slab exits with Math.min, x then y then z.
   */
  predicate Combine(x: (XReal, XReal), y: (XReal, XReal), z: (XReal, XReal), ray: Ray)
  {
    var tmin := JMax(JMax(x.0, y.0), z.0);
    var tmax := JMin(JMin(x.1, y.1), z.1);
    Le(tmin, tmax) && ValidX(ray, tmin)
  }

  function SlabTest(lo: Vec3, hi: Vec3, ray: Ray): bool
  {
    var o, d := ray.origin, ray.direction;
    Combine(SlabAxis(lo.x, hi.x, o.x, d.x), SlabAxis(lo.y, hi.y, o.y, d.y), SlabAxis(lo.z, hi.z, o.z, d.z), ray)
  }

  /**
   * BoundingBox.intersect as written.  A point at parameter +infinity is never
   * inside a finite box, so the tMax accept only applies to a finite tMax; the
   * infinite box contains every point and is accepted by the tMin test.
   */
  function Intersect(b: Box, ray: Ray): bool
  {
    if FastAccept(b, ray) then true
    else match b
      case Infinite => true
      case Box(lo, hi) => SlabTest(lo, hi, ray)
  }

  /**
   * One slab in the corrected test: a direction component of zero leaves the
   * slab unconstrained when the origin lies inside it and empty otherwise.
   */
  function SlabAxisFixed(lo: real, hi: real, o: real, d: real): (XReal, XReal)
  {
    if d == 0.0 then
      (if lo <= o <= hi then (NegInf, PosInf) else (PosInf, NegInf))
    else
      (Fin(Min((lo - o) / d, (hi - o) / d)), Fin(Max((lo - o) / d, (hi - o) / d)))
  }

  function SlabTestFixed(lo: Vec3, hi: Vec3, ray: Ray): bool
  {
    var o, d := ray.origin, ray.direction;
    Combine(SlabAxisFixed(lo.x, hi.x, o.x, d.x), SlabAxisFixed(lo.y, hi.y, o.y, d.y), SlabAxisFixed(lo.z, hi.z, o.z, d.z), ray)
  }

  /** The corrected culling test, used by Group. */
  function IntersectFixed(b: Box, ray: Ray): bool
  {
    if FastAccept(b, ray) then true
    else match b
      case Infinite => true
      case Box(lo, hi) => SlabTestFixed(lo, hi, ray)
  }

  predicate NonZeroComponents(v: Vec3)
  {
    v.x != 0.0 && v.y != 0.0 && v.z != 0.0
  }

  /** The largest slab entry and the smallest slab exit, in real arithmetic. */
  function Entry(lo: Vec3, hi: Vec3, ray: Ray): real
  {
    var o, d := ray.origin, ray.direction;
    Max(Max(Min(Div(lo.x - o.x, d.x), Div(hi.x - o.x, d.x)), Min(Div(lo.y - o.y, d.y), Div(hi.y - o.y, d.y))),
        Min(Div(lo.z - o.z, d.z), Div(hi.z - o.z, d.z)))
  }

  function Exit(lo: Vec3, hi: Vec3, ray: Ray): real
  {
    var o, d := ray.origin, ray.direction;
    Min(Min(Max(Div(lo.x - o.x, d.x), Div(hi.x - o.x, d.x)), Max(Div(lo.y - o.y, d.y), Div(hi.y - o.y, d.y))),
        Max(Div(lo.z - o.z, d.z), Div(hi.z - o.z, d.z)))
  }

  // ---------------------------------------------------------------------

  /** The early accepts answer true without the slab test. */
  lemma IntersectFastAccepts(b: Box, ray: Ray)
    ensures Contains(b, PointAt(ray, ray.tMin)) ==> Intersect(b, ray) && IntersectFixed(b, ray)
    ensures ray.tMax.Finite? && Contains(b, PointAt(ray, ray.tMax.value)) ==> Intersect(b, ray) && IntersectFixed(b, ray)
    ensures Intersect(Everything, ray) && Intersect(Infinite, ray)
  {
  }

  lemma SlabAxisAgrees(lo: real, hi: real, o: real, d: real)
    requires d != 0.0
    ensures SlabAxis(lo, hi, o, d) == SlabAxisFixed(lo, hi, o, d)
    ensures SlabAxis(lo, hi, o, d) == (Fin(Min(Div(lo - o, d), Div(hi - o, d))), Fin(Max(Div(lo - o, d), Div(hi - o, d))))
  {
    var t1, t2 := (lo - o) / d, (hi - o) / d;
    assert (lo - o) * (1.0 / d) == t1;
    assert (hi - o) * (1.0 / d) == t2;
    assert Times(lo - o, Recip(d)) == Fin(t1);
    assert Times(hi - o, Recip(d)) == Fin(t2);
    assert JMin(Fin(t1), Fin(t2)) == Fin(Min(t1, t2));
    assert JMax(Fin(t1), Fin(t2)) == Fin(Max(t1, t2));
  }

  /** On finite values the fold is the real maximum of the entries and minimum of the exits. */
  lemma CombineFinite(a: real, b: real, c: real, p: real, q: real, r: real, ray: Ray)
    ensures Combine((Fin(a), Fin(p)), (Fin(b), Fin(q)), (Fin(c), Fin(r)), ray)
      <==> Max(Max(a, b), c) <= Min(Min(p, q), r) && IsValid(ray, Max(Max(a, b), c))
  {
    assert JMax(JMax(Fin(a), Fin(b)), Fin(c)) == Fin(Max(Max(a, b), c));
    assert JMin(JMin(Fin(p), Fin(q)), Fin(r)) == Fin(Min(Min(p, q), r));
  }

  /** Without zero direction components the two tests agree. */
  lemma IntersectAgrees(b: Box, ray: Ray)
    requires NonZeroComponents(ray.direction)
    ensures Intersect(b, ray) == IntersectFixed(b, ray)
  {
    var o, d := ray.origin, ray.direction;
    if b.Box? {
      SlabAxisAgrees(b.min.x, b.max.x, o.x, d.x);
      SlabAxisAgrees(b.min.y, b.max.y, o.y, d.y);
      SlabAxisAgrees(b.min.z, b.max.z, o.z, d.z);
    }
  }

  /**
   * Without zero direction components and early accepts, intersect answers
   * tmax >= tmin && isValid(tmin) for the real entry and exit parameters.
   */
  lemma IntersectSlabFormula(b: Box, ray: Ray)
    requires b.Box? && NonZeroComponents(ray.direction) && !FastAccept(b, ray)
    ensures Intersect(b, ray) <==> Entry(b.min, b.max, ray) <= Exit(b.min, b.max, ray) && IsValid(ray, Entry(b.min, b.max, ray))
  {
    var o, d, lo, hi := ray.origin, ray.direction, b.min, b.max;
    SlabAxisAgrees(lo.x, hi.x, o.x, d.x);
    SlabAxisAgrees(lo.y, hi.y, o.y, d.y);
    SlabAxisAgrees(lo.z, hi.z, o.z, d.z);
    CombineFinite(Min(Div(lo.x - o.x, d.x), Div(hi.x - o.x, d.x)), Min(Div(lo.y - o.y, d.y), Div(hi.y - o.y, d.y)),
      Min(Div(lo.z - o.z, d.z), Div(hi.z - o.z, d.z)),
      Max(Div(lo.x - o.x, d.x), Div(hi.x - o.x, d.x)), Max(Div(lo.y - o.y, d.y), Div(hi.y - o.y, d.y)),
      Max(Div(lo.z - o.z, d.z), Div(hi.z - o.z, d.z)), ray);
  }

  // ---------------------------------------------------------------------
  // The corrected test never culls a ray that has a valid point in the box.

  lemma DivOrder(x: real, d: real, s: real)
    requires d != 0.0
    ensures d > 0.0 ==> (x / d <= s <==> x <= s * d) && (s <= x / d <==> s * d <= x)
    ensures d < 0.0 ==> (x / d <= s <==> s * d <= x) && (s <= x / d <==> x <= s * d)
  {
    var q := x / d;
    assert q * d == x;
    assert s * d - x == (s - q) * d;
    if d > 0.0 {
      if s > q {
        ProductPositive(s - q, d);
      } else if s < q {
        ProductPositive(q - s, d);
        assert (q - s) * d == -((s - q) * d);
      }
    } else {
      if s > q {
        ProductPositive(s - q, -d);
        assert (s - q) * (-d) == -((s - q) * d);
      } else if s < q {
        ProductPositive(q - s, -d);
        assert (q - s) * (-d) == (s - q) * d;
      }
    }
  }

  /** A parameter whose point lies in the slab lies between the slab's entry and exit. */
  lemma AxisContains(lo: real, hi: real, o: real, d: real, t: real)
    requires lo <= o + t * d <= hi
    ensures Le(SlabAxisFixed(lo, hi, o, d).0, Fin(t)) && Le(Fin(t), SlabAxisFixed(lo, hi, o, d).1)
  {
    if d != 0.0 {
      DivOrder(lo - o, d, t);
      DivOrder(hi - o, d, t);
    }
  }

  /** Conversely, every parameter between entry and exit has its point in the slab. */
  lemma AxisConvex(lo: real, hi: real, o: real, d: real, s: real)
    requires lo <= hi
    requires Le(SlabAxisFixed(lo, hi, o, d).0, Fin(s)) && Le(Fin(s), SlabAxisFixed(lo, hi, o, d).1)
    ensures lo <= o + s * d <= hi
  {
    if d != 0.0 {
      DivOrder(lo - o, d, s);
      DivOrder(hi - o, d, s);
      DivOrder(lo - o, d, (hi - o) / d);
    }
  }

  lemma FixedAxisNotNaN(lo: real, hi: real, o: real, d: real)
    ensures !SlabAxisFixed(lo, hi, o, d).0.NaN? && !SlabAxisFixed(lo, hi, o, d).1.NaN?
  {
  }

  /** Folding with Math.max and Math.min on NaN-free values: the join and meet. */
  lemma FoldBounds(a: XReal, b: XReal, c: XReal, t: XReal)
    requires !a.NaN? && !b.NaN? && !c.NaN?
    ensures Le(JMax(JMax(a, b), c), t) <==> Le(a, t) && Le(b, t) && Le(c, t)
    ensures Le(t, JMin(JMin(a, b), c)) <==> Le(t, a) && Le(t, b) && Le(t, c)
  {
  }

  predicate Around(axis: (XReal, XReal), t: real)
  {
    Le(axis.0, Fin(t)) && Le(Fin(t), axis.1)
  }

  /**
   * If every slab holds a valid t, the fold accepts, unless its entry lies
   * before tMin, in which case every slab holds tMin as well.
   */
  lemma CombineAround(x: (XReal, XReal), y: (XReal, XReal), z: (XReal, XReal), ray: Ray, t: real)
    requires !x.0.NaN? && !x.1.NaN? && !y.0.NaN? && !y.1.NaN? && !z.0.NaN? && !z.1.NaN?
    requires IsValid(ray, t) && Around(x, t) && Around(y, t) && Around(z, t)
    ensures Combine(x, y, z, ray) || (Around(x, ray.tMin) && Around(y, ray.tMin) && Around(z, ray.tMin))
  {
    var tmin := JMax(JMax(x.0, y.0), z.0);
    var tmax := JMin(JMin(x.1, y.1), z.1);
    FoldBounds(x.0, y.0, z.0, Fin(t));
    FoldBounds(x.1, y.1, z.1, Fin(t));
    LeTransitive(tmin, Fin(t), tmax);
    if !ValidX(ray, tmin) {
      assert Le(tmin, Fin(ray.tMin));
      FoldBounds(x.0, y.0, z.0, Fin(ray.tMin));
      LeTransitive(Fin(ray.tMin), Fin(t), x.1);
      LeTransitive(Fin(ray.tMin), Fin(t), y.1);
      LeTransitive(Fin(ray.tMin), Fin(t), z.1);
    }
  }

  /**
   * What one slab contributes: the parameter t of a point p inside the slab
   * lies between entry and exit, and the point q of any other parameter s
   * that does lies in the slab too.
   */
  lemma AxisFacts(axis: (XReal, XReal), lo: real, hi: real, o: real, d: real, t: real, p: real, s: real, q: real)
    requires axis == SlabAxisFixed(lo, hi, o, d)
    requires p == o + t * d && q == o + s * d && lo <= p <= hi
    ensures !axis.0.NaN? && !axis.1.NaN? && Around(axis, t)
    ensures Around(axis, s) ==> lo <= q <= hi
  {
    AxisContains(lo, hi, o, d, t);
    if Around(SlabAxisFixed(lo, hi, o, d), s) {
      AxisConvex(lo, hi, o, d, s);
    }
  }

  /** The three slabs together: the corrected fold accepts t, or tMin lies in every slab. */
  lemma SlabsAround(x: (XReal, XReal), y: (XReal, XReal), z: (XReal, XReal), ray: Ray, t: real, lo: Vec3, hi: Vec3, q: Vec3)
    requires !x.0.NaN? && !x.1.NaN? && !y.0.NaN? && !y.1.NaN? && !z.0.NaN? && !z.1.NaN?
    requires IsValid(ray, t) && Around(x, t) && Around(y, t) && Around(z, t)
    requires Around(x, ray.tMin) ==> lo.x <= q.x <= hi.x
    requires Around(y, ray.tMin) ==> lo.y <= q.y <= hi.y
    requires Around(z, ray.tMin) ==> lo.z <= q.z <= hi.z
    ensures Combine(x, y, z, ray) || (VLe(lo, q) && VLe(q, hi))
  {
    CombineAround(x, y, z, ray, t);
  }

  /** One axis of the box, read off the ray. */
  function RayAxis(lo: Vec3, hi: Vec3, ray: Ray, a: Axis): (XReal, XReal)
  {
    SlabAxisFixed(Coord(lo, a), Coord(hi, a), Coord(ray.origin, a), Coord(ray.direction, a))
  }

  lemma RayAxisFacts(lo: Vec3, hi: Vec3, ray: Ray, t: real, a: Axis)
    requires Coord(lo, a) <= Coord(PointAt(ray, t), a) <= Coord(hi, a)
    ensures !RayAxis(lo, hi, ray, a).0.NaN? && !RayAxis(lo, hi, ray, a).1.NaN? && Around(RayAxis(lo, hi, ray, a), t)
    ensures Around(RayAxis(lo, hi, ray, a), ray.tMin) ==> Coord(lo, a) <= Coord(PointAt(ray, ray.tMin), a) <= Coord(hi, a)
  {
    var o, d := Coord(ray.origin, a), Coord(ray.direction, a);
    AxisFacts(RayAxis(lo, hi, ray, a), Coord(lo, a), Coord(hi, a), o, d, t, Coord(PointAt(ray, t), a), ray.tMin, Coord(PointAt(ray, ray.tMin), a));
  }

  /** The corrected slab test accepts a valid t inside the box, or tMin is inside too. */
  lemma SlabFixedAround(lo: Vec3, hi: Vec3, ray: Ray, t: real)
    requires IsValid(ray, t) && VLe(lo, PointAt(ray, t)) && VLe(PointAt(ray, t), hi)
    ensures SlabTestFixed(lo, hi, ray) || (VLe(lo, PointAt(ray, ray.tMin)) && VLe(PointAt(ray, ray.tMin), hi))
  {
    RayAxisFacts(lo, hi, ray, t, X);
    RayAxisFacts(lo, hi, ray, t, Y);
    RayAxisFacts(lo, hi, ray, t, Z);
    SlabsAround(RayAxis(lo, hi, ray, X), RayAxis(lo, hi, ray, Y), RayAxis(lo, hi, ray, Z), ray, t, lo, hi, PointAt(ray, ray.tMin));
  }

  /** Culling is conservative: a valid parameter whose point is in the box is never rejected. */
  lemma IntersectFixedConservative(b: Box, ray: Ray, t: real)
    requires IsValid(ray, t) && Contains(b, PointAt(ray, t))
    ensures IntersectFixed(b, ray)
  {
    if b.Box? {
      SlabFixedAround(b.min, b.max, ray, t);
    }
  }

  /** With non-zero direction components the code's own test is conservative too. */
  lemma IntersectConservative(b: Box, ray: Ray, t: real)
    requires NonZeroComponents(ray.direction)
    requires IsValid(ray, t) && Contains(b, PointAt(ray, t))
    ensures Intersect(b, ray)
  {
    IntersectFixedConservative(b, ray, t);
    IntersectAgrees(b, ray);
  }

  /**
   * The code's test can cull a ray that runs inside a face plane of the box:
   * the zero component makes (min.z - origin.z) * (1/0) the product 0 * inf,
   * which is NaN, and NaN makes tmax >= tmin false.  Here the unit box and a
   * ray along the plane z = 0 that enters the box at t = 1.
   */
  lemma FacePlaneRayCulled()
    ensures var b := Box(Zero, Vec3(1.0, 1.0, 1.0));
      var ray := Ray(Vec3(-1.0, 0.5, 0.0), Vec3(1.0, 0.0, 0.0), 0.000001, Infinity);
      IsValid(ray, 1.5) && Contains(b, PointAt(ray, 1.5))
      && !Intersect(b, ray) && IntersectFixed(b, ray)
  {
    var b := Box(Zero, Vec3(1.0, 1.0, 1.0));
    var ray := Ray(Vec3(-1.0, 0.5, 0.0), Vec3(1.0, 0.0, 0.0), 0.000001, Infinity);
    assert SlabAxis(0.0, 1.0, 0.0, 0.0).0 == NaN;
    IntersectFixedConservative(b, ray, 1.5);
  }
}
