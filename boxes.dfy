// The axis-aligned bounding box of lab H (H_beschleunigung/BoundingBox.java).
// Every operation builds a new box.  Besides ordinary boxes the model has the
// box of a Background, whose corners are the infinities (-inf,-inf,-inf) and
// (+inf,+inf,+inf); extending anything by it gives it back, since Math.min
// and Math.max keep an infinity.
module Boxes {
  import opened Numerics
  import opened Linalg
  import opened Rays
  import opened ExtendedReals

  datatype Box = Box(min: Vec3, max: Vec3) | Infinite

  /** BoundingBox.everything: the corners -MAX_VALUE and +MAX_VALUE. */
  const Everything: Box := Box(Vec3(-MaxDouble, -MaxDouble, -MaxDouble), Vec3(MaxDouble, MaxDouble, MaxDouble))

  /** BoundingBox.empty: built with size -MAX_VALUE, so min = +MAX and max = -MAX. */
  const Empty: Box := Box(Vec3(MaxDouble, MaxDouble, MaxDouble), Vec3(-MaxDouble, -MaxDouble, -MaxDouble))

  function VMin(a: Vec3, b: Vec3): Vec3 { Vec3(Min(a.x, b.x), Min(a.y, b.y), Min(a.z, b.z)) }

  function VMax(a: Vec3, b: Vec3): Vec3 { Vec3(Max(a.x, b.x), Max(a.y, b.y), Max(a.z, b.z)) }

  /** Componentwise a <= b. */
  predicate VLe(a: Vec3, b: Vec3) { a.x <= b.x && a.y <= b.y && a.z <= b.z }

  /** extend(bb): componentwise min of the mins and max of the maxes. */
  function Extend(a: Box, b: Box): Box
  {
    if a.Infinite? || b.Infinite? then Infinite else Box(VMin(a.min, b.min), VMax(a.max, b.max))
  }

  /** extend(p): the box grown to take in the point p. */
  function ExtendPoint(a: Box, p: Vec3): Box
  {
    if a.Infinite? then Infinite else Box(VMin(a.min, p), VMax(a.max, p))
  }

  /** contains(Point): min <= p <= max in every coordinate, both ends closed. */
  predicate Contains(a: Box, p: Vec3)
  {
    a.Infinite? || (VLe(a.min, p) && VLe(p, a.max))
  }

  /** contains(BoundingBox); a finite box never contains the infinite one. */
  predicate ContainsBox(a: Box, b: Box)
  {
    a.Infinite? || (b.Box? && VLe(a.min, b.min) && VLe(b.max, a.max))
  }

  /** A box whose minimum corner lies below its maximum corner. */
  predicate Ordered(b: Box)
  {
    b.Infinite? || VLe(b.min, b.max)
  }

  /** A box whose corners are finite doubles, i.e. lie in [-MAX_VALUE, MAX_VALUE]. */
  predicate InDoubleRange(b: Box)
  {
    b.Box? && VLe(Everything.min, b.min) && VLe(b.min, Everything.max)
    && VLe(Everything.min, b.max) && VLe(b.max, Everything.max)
  }

  // ---------------------------------------------------------------------
  // extend and contains form a join semi-lattice

  lemma ExtendContainsBoth(a: Box, b: Box)
    ensures ContainsBox(Extend(a, b), a) && ContainsBox(Extend(a, b), b)
  {
  }

  /** Extend is the least upper bound for contains(BoundingBox). */
  lemma ExtendLeast(a: Box, b: Box, c: Box)
    ensures ContainsBox(c, Extend(a, b)) <==> ContainsBox(c, a) && ContainsBox(c, b)
  {
  }

  lemma ExtendLaws(a: Box, b: Box, c: Box)
    ensures Extend(a, b) == Extend(b, a)
    ensures Extend(Extend(a, b), c) == Extend(a, Extend(b, c))
    ensures Extend(a, a) == a
  {
  }

  /** empty is the identity of extend for every box made of finite doubles. */
  lemma EmptyIsIdentity(b: Box)
    requires b.Infinite? || InDoubleRange(b)
    ensures Extend(Empty, b) == b && Extend(b, Empty) == b
  {
  }

  /** everything contains every box made of finite doubles. */
  lemma EverythingContains(b: Box)
    requires InDoubleRange(b)
    ensures ContainsBox(Everything, b)
  {
  }

  lemma ExtendPointContains(a: Box, p: Vec3)
    ensures Contains(ExtendPoint(a, p), p)
    ensures ContainsBox(ExtendPoint(a, p), a)
  {
  }

  lemma ContainsBoxOrder(a: Box, b: Box, c: Box)
    ensures ContainsBox(a, a)
    ensures ContainsBox(a, b) && ContainsBox(b, c) ==> ContainsBox(a, c)
  {
  }

  /** A point in an inner box is in every box containing it. */
  lemma ContainsPointMonotone(a: Box, b: Box, p: Vec3)
    requires ContainsBox(a, b) && Contains(b, p)
    ensures Contains(a, p)
  {
  }

  // ---------------------------------------------------------------------
  // transform

  /**
   * The eight corners of a finite box, in the order transform visits them:
   * corner k takes max in x when bit 2 of k is set, in y when bit 1 is, in
   * z when bit 0 is, and min otherwise.
   */
  function Corners(b: Box): (r: seq<Vec3>)
    requires b.Box?
    ensures |r| == 8
    ensures forall k :: 0 <= k < 8 ==> r[k] == Vec3(if k >= 4 then b.max.x else b.min.x,
                                                  if k % 4 >= 2 then b.max.y else b.min.y,
                                                  if k % 2 == 1 then b.max.z else b.min.z)
  {
    var lo, hi := b.min, b.max;
    [lo, Vec3(lo.x, lo.y, hi.z), Vec3(lo.x, hi.y, lo.z), Vec3(lo.x, hi.y, hi.z),
     Vec3(hi.x, lo.y, lo.z), Vec3(hi.x, lo.y, hi.z), Vec3(hi.x, hi.y, lo.z), hi]
  }

  /** empty, extended by the first n points of ps in order. */
  function ExtendAll(ps: seq<Vec3>, n: nat): Box
    requires n <= |ps|
  {
    if n == 0 then Empty else ExtendPoint(ExtendAll(ps, n - 1), ps[n - 1])
  }

  /**
   * transform(xform): empty extended by the eight corners, each mapped
   * through the matrix. The infinite box has no finite corners; it stays infinite.
   */
  function TransformBox(lib: Lib, b: Box, xform: Matrix): Box
  {
    if b.Infinite? then Infinite else ExtendAll(TransformedCorners(lib, b, xform), 8)
  }

  /** multiply(xform, corner) for each of the eight corners. */
  function TransformedCorners(lib: Lib, b: Box, xform: Matrix): (r: seq<Vec3>)
    requires b.Box?
    ensures |r| == 8 && forall k :: 0 <= k < 8 ==> r[k] == lib.transformPoint(xform, Corners(b)[k])
  {
    var cs := Corners(b);
    seq(8, k requires 0 <= k < 8 => lib.transformPoint(xform, cs[k]))
  }

  /**
   * Extending empty by the eight corners of an ordered box of finite doubles
   * gives the box back: the corners span exactly the box, so transform by
   * the identity changes nothing.
   */
  lemma CornersSpan(b: Box)
    requires Ordered(b) && InDoubleRange(b)
    ensures ExtendAll(Corners(b), 8) == b
  {
    var cs := Corners(b);
    var lo, hi := b.min, b.max;
    assert ExtendAll(cs, 1) == Box(lo, lo);
    assert ExtendAll(cs, 2) == Box(lo, Vec3(lo.x, lo.y, hi.z));
    assert ExtendAll(cs, 3) == Box(lo, Vec3(lo.x, hi.y, hi.z));
    assert ExtendAll(cs, 4) == Box(lo, Vec3(lo.x, hi.y, hi.z));
    assert ExtendAll(cs, 5) == Box(lo, hi);
    assert ExtendAll(cs, 6) == Box(lo, hi);
    assert ExtendAll(cs, 7) == Box(lo, hi);
  }

  lemma {:induction false} ExtendAllContains(ps: seq<Vec3>, n: nat)
    requires n <= |ps|
    ensures ExtendAll(ps, n).Box?
    ensures forall k :: 0 <= k < n ==> Contains(ExtendAll(ps, n), ps[k])
  {
    if n > 0 {
      ExtendAllContains(ps, n - 1);
      ExtendPointContains(ExtendAll(ps, n - 1), ps[n - 1]);
      forall k | 0 <= k < n - 1
        ensures Contains(ExtendAll(ps, n), ps[k])
      {
        ContainsPointMonotone(ExtendAll(ps, n), ExtendAll(ps, n - 1), ps[k]);
      }
    }
  }

  lemma {:induction false} ExtendAllLeast(ps: seq<Vec3>, n: nat, c: Box)
    requires n <= |ps|
    requires ContainsBox(c, Empty)
    requires forall k :: 0 <= k < n ==> Contains(c, ps[k])
    ensures ContainsBox(c, ExtendAll(ps, n))
  {
    if n > 0 {
      ExtendAllLeast(ps, n - 1, c);
    }
  }

  /** The transformed box holds the image of every corner of the original box. */
  lemma TransformBoxCoversCorners(lib: Lib, b: Box, xform: Matrix)
    requires b.Box?
    ensures TransformBox(lib, b, xform).Box?
    ensures forall k :: 0 <= k < 8 ==> Contains(TransformBox(lib, b, xform), lib.transformPoint(xform, Corners(b)[k]))
  {
    ExtendAllContains(TransformedCorners(lib, b, xform), 8);
  }

  /** ... and it is the smallest such box: any box holding the eight images (and empty) holds it. */
  lemma TransformBoxLeast(lib: Lib, b: Box, xform: Matrix, c: Box)
    requires b.Box? && ContainsBox(c, Empty)
    requires forall k :: 0 <= k < 8 ==> Contains(c, lib.transformPoint(xform, Corners(b)[k]))
    ensures ContainsBox(c, TransformBox(lib, b, xform))
  {
    ExtendAllLeast(TransformedCorners(lib, b, xform), 8, c);
  }

  // ---------------------------------------------------------------------
  // bisection

  datatype Axis = X | Y | Z

  function Coord(v: Vec3, a: Axis): real
  {
    match a
    case X => v.x
    case Y => v.y
    case Z => v.z
  }

  function WithCoord(v: Vec3, a: Axis, c: real): Vec3
  {
    match a
    case X => Vec3(c, v.y, v.z)
    case Y => Vec3(v.x, c, v.z)
    case Z => Vec3(v.x, v.y, c)
  }

  /** size2 = max/2 - min/2, half the extent of the box. */
  function HalfSize(b: Box): Vec3
    requires b.Box?
  {
    Sub(DivVec(b.max, 2.0), DivVec(b.min, 2.0))
  }

  /** The cut axis: the largest half-extent, ties going to x and then to y. */
  function SplitAxis(b: Box): Axis
    requires b.Box?
  {
    var h := HalfSize(b);
    if h.x >= h.y && h.x >= h.z then X
    else if h.y >= h.x && h.y >= h.z then Y
    else Z
  }

  function SplitLeft(b: Box): Box
    requires b.Box?
  {
    var a := SplitAxis(b);
    Box(b.min, WithCoord(b.max, a, Coord(b.min, a) + Coord(HalfSize(b), a)))
  }

  function SplitRight(b: Box): Box
    requires b.Box?
  {
    var a := SplitAxis(b);
    Box(WithCoord(b.min, a, Coord(b.min, a) + Coord(HalfSize(b), a)), b.max)
  }

  lemma SplitAxisLongest(b: Box)
    requires b.Box?
    ensures var h := HalfSize(b); var c := Coord(h, SplitAxis(b));
      c >= h.x && c >= h.y && c >= h.z
    ensures SplitAxis(b) == Y ==> HalfSize(b).y > HalfSize(b).x
    ensures SplitAxis(b) == Z ==> HalfSize(b).z > HalfSize(b).x && HalfSize(b).z > HalfSize(b).y
  {
  }

  /** The halves share the outer corners and meet at the midpoint of the cut axis. */
  lemma SplitHalves(b: Box, other: Axis)
    requires b.Box?
    ensures SplitLeft(b).min == b.min && SplitRight(b).max == b.max
    ensures var a := SplitAxis(b);
      Coord(SplitLeft(b).max, a) == Coord(SplitRight(b).min, a) == (Coord(b.min, a) + Coord(b.max, a)) / 2.0
    ensures other != SplitAxis(b) ==>
      Coord(SplitLeft(b).max, other) == Coord(b.max, other) && Coord(SplitRight(b).min, other) == Coord(b.min, other)
  {
  }

  lemma SplitContained(b: Box)
    requires b.Box? && Ordered(b)
    ensures ContainsBox(b, SplitLeft(b)) && ContainsBox(b, SplitRight(b))
    ensures Ordered(SplitLeft(b)) && Ordered(SplitRight(b))
  {
  }

  /** Together the halves make up the box again. */
  lemma SplitCovers(b: Box)
    requires b.Box? && Ordered(b)
    ensures Extend(SplitLeft(b), SplitRight(b)) == b
  {
  }

  // ---------------------------------------------------------------------
  // size, center and scale

  function Size(b: Box): Vec3
    requires b.Box?
  {
    Sub(b.max, b.min)
  }

  /** interpolate(max, min, 0.5): the midpoint of the two corners. */
  function Center(b: Box): Vec3
    requires b.Box?
  {
    Add(Scale(0.5, b.max), Scale(0.5, b.min))
  }

  /** Corners moved to c + factor * (corner - c), c the center. */
  function ScaleBox(b: Box, factor: real): Box
    requires b.Box?
  {
    var c := Center(b);
    Box(Add(Scale(factor, Sub(b.min, c)), c), Add(Scale(factor, Sub(b.max, c)), c))
  }

  lemma CenterInside(b: Box)
    requires b.Box? && Ordered(b)
    ensures Contains(b, Center(b))
  {
  }

  /** Scaling keeps the center and multiplies the size by the factor. */
  lemma ScaleBoxGeometry(b: Box, factor: real)
    requires b.Box?
    ensures Center(ScaleBox(b, factor)) == Center(b)
    ensures Size(ScaleBox(b, factor)) == Scale(factor, Size(b))
    ensures ScaleBox(b, 1.0) == b
  {
  }

  lemma ScaleIntervalGrows(lo: real, hi: real, factor: real)
    requires lo <= hi && factor >= 1.0
    ensures var m := 0.5 * hi + 0.5 * lo;
      factor * (lo - m) + m <= lo && hi <= factor * (hi - m) + m
  {
    var m := 0.5 * hi + 0.5 * lo;
    MulMono(m - lo, 1.0, factor);
    MulMono(hi - m, 1.0, factor);
    assert factor * (lo - m) == -((m - lo) * factor);
    assert factor * (hi - m) == (hi - m) * factor;
  }

  /** A factor of at least one grows an ordered box around itself. */
  lemma ScaleBoxGrows(b: Box, factor: real)
    requires b.Box? && Ordered(b) && factor >= 1.0
    ensures ContainsBox(ScaleBox(b, factor), b)
  {
    ScaleIntervalGrows(b.min.x, b.max.x, factor);
    ScaleIntervalGrows(b.min.y, b.max.y, factor);
    ScaleIntervalGrows(b.min.z, b.max.z, factor);
  }
}
