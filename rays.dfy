// The ray record (origin, direction, tMin, tMax) of the later labs, with its
// unnormalised affine pointAt, and the guarded pointAt of the early lab C.
module Rays {
  import opened Numerics
  import opened Linalg

  /** An upper parameter bound: a finite double or Double.POSITIVE_INFINITY. */
  datatype Bound = Finite(value: real) | Infinity

  datatype Ray = Ray(origin: Vec3, direction: Vec3, tMin: real, tMax: Bound)

  /** origin + t * direction: the direction is used as given, not normalised. */
  function PointAt(ray: Ray, t: real): Vec3
  {
    Add(ray.origin, Scale(t, ray.direction))
  }

  /** The closed-interval test tMin <= t <= tMax. */
  predicate IsValid(ray: Ray, t: real)
  {
    t >= ray.tMin && (ray.tMax.Infinity? || t <= ray.tMax.value)
  }

  /** Moving t by s moves the point by s times the raw direction. */
  lemma PointAtAffine(ray: Ray, s: real, t: real)
    ensures PointAt(ray, s + t) == Add(PointAt(ray, s), Scale(t, ray.direction))
    ensures PointAt(ray, 0.0) == ray.origin
    ensures Sub(PointAt(ray, t), ray.origin) == Scale(t, ray.direction)
  {
  }

  /** Both ends of [tMin, tMax] are valid parameters when the range is non-empty. */
  lemma ValidEndpoints(ray: Ray)
    ensures IsValid(ray, ray.tMin) <==> (ray.tMax.Infinity? || ray.tMin <= ray.tMax.value)
    ensures ray.tMax.Finite? ==> (IsValid(ray, ray.tMax.value) <==> ray.tMin <= ray.tMax.value)
  {
  }

  /** An empty range admits no parameter at all. */
  lemma EmptyRangeInvalid(ray: Ray, t: real)
    requires ray.tMax.Finite? && ray.tMin > ray.tMax.value
    ensures !IsValid(ray, t)
  {
  }

  /**
   * Lab C's pointAt: null unless t is valid and non-negative; otherwise the
   * point at distance t along the normalised direction.
   */
  function GuardedPointAt(lib: Lib, ray: Ray, t: real): Option<Vec3>
  {
    if IsValid(ray, t) && t >= 0.0 then
      Some(Add(Scale(t, Normalize(lib, ray.direction)), ray.origin))
    else
      None
  }

  /** The guard: a point comes back exactly for valid, non-negative t. */
  lemma GuardedPointAtDefined(lib: Lib, ray: Ray, t: real)
    ensures GuardedPointAt(lib, ray, t).Some? <==> IsValid(ray, t) && 0.0 <= t
  {
  }

  /** With a non-zero direction the guarded point lies at distance t from the origin. */
  lemma GuardedPointAtDistance(lib: Lib, ray: Ray, t: real)
    requires SqrtLaws(lib)
    requires ray.direction != Zero
    requires IsValid(ray, t) && 0.0 <= t
    ensures GuardedPointAt(lib, ray, t).Some?
    ensures Length(lib, Sub(GuardedPointAt(lib, ray, t).value, ray.origin)) == t
  {
    var p := GuardedPointAt(lib, ray, t).value;
    assert Sub(p, ray.origin) == Scale(t, Normalize(lib, ray.direction));
    ScaledUnitLength(lib, t, ray.direction);
  }
}
