// The mutable Group of the last lab: a list of shapes, a transformation
// with its cached inverse and transposed inverse, and a bounding box grown
// by every add.  AsShape freezes the current contents as a Shapes.Shape,
// and the intersect loop is proved to agree with Shapes.Intersect on it.
module Groups {
  import opened Numerics
  import opened Linalg
  import opened Rays
  import opened Boxes
  import opened BoxIntersection
  import opened Materials
  import opened Shapes

  /** The box the adds grow: empty extended by each child's box in turn. */
  function BoundsOf(forms: seq<Shape>): Box
  {
    if forms == [] then Empty else Extend(BoundsOf(forms[..|forms| - 1]), Bounds(forms[|forms| - 1]))
  }

  /** The grown box contains the box of every child. */
  lemma {:induction false} BoundsOfContains(forms: seq<Shape>, i: int)
    requires 0 <= i < |forms|
    ensures ContainsBox(BoundsOf(forms), Bounds(forms[i]))
    decreases |forms|
  {
    var n := |forms| - 1;
    var pre := forms[..n];
    ExtendContainsBoth(BoundsOf(pre), Bounds(forms[n]));
    if i < n {
      assert pre[i] == forms[i];
      BoundsOfContains(pre, i);
      ContainsBoxOrder(BoundsOf(forms), BoundsOf(pre), Bounds(forms[i]));
    }
  }

  /** The grown box is the least box containing empty and every child's box. */
  lemma {:induction false} BoundsOfLeast(forms: seq<Shape>, c: Box)
    requires ContainsBox(c, Empty)
    requires forall i :: 0 <= i < |forms| ==> ContainsBox(c, Bounds(forms[i]))
    ensures ContainsBox(c, BoundsOf(forms))
    decreases |forms|
  {
    if forms != [] {
      var n := |forms| - 1;
      var pre := forms[..n];
      assert forall i :: 0 <= i < |pre| ==> pre[i] == forms[i];
      BoundsOfLeast(pre, c);
      ExtendLeast(BoundsOf(pre), Bounds(forms[n]), c);
    }
  }

  class Group {
    const lib: Lib
    var forms: seq<Shape>
    var matrix: Matrix
    var inverseMatrix: Matrix
    var transposedInverseMatrix: Matrix
    var boundingBox: Box

    /** The cached matrices belong to matrix, and the box is the one the adds have grown. */
    ghost predicate Valid()
      reads this
    {
      inverseMatrix == lib.invert(matrix)
      && transposedInverseMatrix == lib.transpose(inverseMatrix)
      && boundingBox == BoundsOf(forms)
    }

    /** new Group(matrix): no children and the empty box. */
    constructor (lib: Lib, matrix: Matrix)
      ensures this.lib == lib && this.matrix == matrix && forms == [] && boundingBox == Empty
      ensures Valid()
    {
      this.lib := lib;
      this.forms := [];
      this.matrix := matrix;
      this.inverseMatrix := lib.invert(matrix);
      this.transposedInverseMatrix := lib.transpose(lib.invert(matrix));
      this.boundingBox := Empty;
    }

    /** add(shape): append it and grow the box by its bounds. */
    method Add(shape: Shape)
      requires Valid()
      modifies this
      ensures forms == old(forms) + [shape]
      ensures boundingBox == Extend(old(boundingBox), Bounds(shape))
      ensures matrix == old(matrix) && inverseMatrix == old(inverseMatrix)
      ensures transposedInverseMatrix == old(transposedInverseMatrix)
      ensures Valid()
    {
      forms := forms + [shape];
      boundingBox := Extend(boundingBox, Bounds(shape));
      assert forms[..|forms| - 1] == old(forms);
    }

    /** setTransformation(n): matrix := n * matrix, with fresh inverse and transposed inverse. */
    method SetTransformation(n: Matrix)
      requires Valid()
      modifies this
      ensures matrix == lib.multiply(n, old(matrix))
      ensures inverseMatrix == lib.invert(matrix)
      ensures transposedInverseMatrix == lib.transpose(inverseMatrix)
      ensures forms == old(forms) && boundingBox == old(boundingBox)
      ensures Valid()
    {
      matrix := lib.multiply(n, matrix);
      inverseMatrix := lib.invert(matrix);
      transposedInverseMatrix := lib.transpose(inverseMatrix);
    }

    /** bounds(): the box contains the box of every child. */
    function GroupBounds(): (b: Box)
      requires Valid()
      reads this
      ensures forall i :: 0 <= i < |forms| ==> ContainsBox(b, Bounds(forms[i]))
    {
      forall i | 0 <= i < |forms|
        ensures ContainsBox(boundingBox, Bounds(forms[i]))
      {
        BoundsOfContains(forms, i);
      }
      boundingBox
    }

    /** The group's current contents as a shape value. */
    function AsShape(): (s: Shape)
      reads this
      ensures s.Group? && s.forms == forms && s.box == boundingBox
    {
      Shapes.Group(forms, matrix, inverseMatrix, transposedInverseMatrix, boundingBox)
    }

    /** intersect(ray): box test on the local ray, then the loop keeping the strictly nearest child hit. */
    method Intersect(ray: Ray) returns (r: Option<Hit>)
      ensures r == Shapes.Intersect(lib, AsShape(), ray)
    {
      var local := LocalRay(lib, inverseMatrix, ray);
      GroupUnfold(lib, forms, matrix, inverseMatrix, transposedInverseMatrix, boundingBox, ray);
      if !IntersectFixed(boundingBox, local) {
        return None;
      }
      ghost var hits := ChildHits(lib, forms, local);
      var closest: Option<Hit> := None;
      var i := 0;
      while i < |forms|
        invariant 0 <= i <= |forms|
        invariant closest == Nearest(hits[..i])
      {
        var hit := Shapes.Intersect(lib, forms[i], local);
        assert hits[..i + 1][..i] == hits[..i];
        if hit.Some? && (closest.None? || Before(hit.value.t, closest.value.t)) {
          closest := hit;
        }
        i := i + 1;
      }
      assert hits[..i] == hits;
      if closest.Some? {
        r := Some(BackTransform(lib, matrix, transposedInverseMatrix, closest.value));
      } else {
        r := None;
      }
    }
  }

  /**
   * A group built by add never culls a hit of a disc, a rectangle, or a
   * sphere met at two points: such a hit lies in the child's box, which
   * the group's box contains.
   */
  lemma GroupKeepsPrimitiveHits(g: Group, ray: Ray, i: int)
    requires g.Valid() && SqrtLaws(g.lib)
    requires 0 <= i < |g.forms| && Primitive(g.forms[i])
    requires var local := LocalRay(g.lib, g.inverseMatrix, ray);
      var s := g.forms[i];
      (s.Sphere? ==> Discriminant(s.center, s.radius, local) > 0.0)
      && Shapes.Intersect(g.lib, s, local).Some?
    ensures Shapes.Intersect(g.lib, g.AsShape(), ray).Some?
  {
    var local := LocalRay(g.lib, g.inverseMatrix, ray);
    var s := g.forms[i];
    PrimitiveHitInBounds(g.lib, s, local);
    var h := Shapes.Intersect(g.lib, s, local).value;
    BoundsOfContains(g.forms, i);
    ContainsPointMonotone(g.boundingBox, Bounds(s), h.point);
    GroupKeepsBoxedHits(g.lib, g.forms, g.matrix, g.inverseMatrix, g.transposedInverseMatrix, g.boundingBox, ray, i);
  }
}
