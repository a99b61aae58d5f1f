// Points, directions, colours and the parts of lib_cgtools.Vector and
// lib_cgtools.Matrix the model needs.  Points and directions share one
// vector type, as their arithmetic does in the library.
module Linalg {
  import opened Numerics

  datatype Vec3 = Vec3(x: real, y: real, z: real)

  const Zero: Vec3 := Vec3(0.0, 0.0, 0.0)

  function Add(a: Vec3, b: Vec3): Vec3 { Vec3(a.x + b.x, a.y + b.y, a.z + b.z) }

  function Sub(a: Vec3, b: Vec3): Vec3 { Vec3(a.x - b.x, a.y - b.y, a.z - b.z) }

  function Scale(k: real, v: Vec3): Vec3 { Vec3(k * v.x, k * v.y, k * v.z) }

  function Neg(v: Vec3): Vec3 { Vec3(-v.x, -v.y, -v.z) }

  function Dot(a: Vec3, b: Vec3): real { a.x * b.x + a.y * b.y + a.z * b.z }

  /** Componentwise division, the library's divide(v, k). */
  function DivVec(v: Vec3, k: real): Vec3 { Vec3(Div(v.x, k), Div(v.y, k), Div(v.z, k)) }

  /** A 4x4 matrix of lib_cgtools, its sixteen entries row by row. */
  datatype Matrix = Matrix(entries: seq<real>)

  /**
   * The routines of java.lang.Math and lib_cgtools that are outside this
   * model, passed in as values: the square root, Math.pow with a real
   * exponent, the arc cosine and two-argument arc tangent, and the matrix
   * product, inverse, transpose and the application of a matrix to a point
   * and to a direction.
   */
  datatype Lib = Lib(
    sqrt: real -> real,
    pow: (real, real) -> real,
    acos: real -> real,
    atan2: (real, real) -> real,
    multiply: (Matrix, Matrix) -> Matrix,
    invert: Matrix -> Matrix,
    transpose: Matrix -> Matrix,
    transformPoint: (Matrix, Vec3) -> Vec3,
    transformDirection: (Matrix, Vec3) -> Vec3)

  /** The two facts about Math.sqrt the proofs use. */
  ghost predicate SqrtLaws(lib: Lib)
  {
    forall q :: 0.0 <= q ==> 0.0 <= lib.sqrt(q) && lib.sqrt(q) * lib.sqrt(q) == q
  }

  function Length(lib: Lib, v: Vec3): real { lib.sqrt(Dot(v, v)) }

  /** normalize(v) = v / length(v); the zero vector stays zero (see Div). */
  function Normalize(lib: Lib, v: Vec3): Vec3 { DivVec(v, Length(lib, v)) }

  datatype Color = Color(r: real, g: real, b: real)

  const Black: Color := Color(0.0, 0.0, 0.0)
  const White: Color := Color(1.0, 1.0, 1.0)

  function ColorAdd(a: Color, b: Color): Color { Color(a.r + b.r, a.g + b.g, a.b + b.b) }

  /** The componentwise product of two colours. */
  function ColorMul(a: Color, b: Color): Color { Color(a.r * b.r, a.g * b.g, a.b * b.b) }

  function ColorScale(k: real, c: Color): Color { Color(k * c.r, k * c.g, k * c.b) }

  function ColorDiv(c: Color, k: real): Color { Color(Div(c.r, k), Div(c.g, k), Div(c.b, k)) }

  lemma ProductZero(a: real, b: real)
    requires a * b == 0.0
    ensures a == 0.0 || b == 0.0
  {
  }

  lemma ProductPositive(a: real, b: real)
    requires 0.0 < a && 0.0 < b
    ensures 0.0 < a * b
  {
  }

  lemma SquareZero(a: real)
    ensures 0.0 <= a * a
    ensures a * a == 0.0 <==> a == 0.0
  {
    if a * a == 0.0 {
      ProductZero(a, a);
    }
    if a < 0.0 {
      ProductPositive(-a, -a);
    }
  }

  /** Multiplying by a non-negative factor keeps an order. */
  lemma MulMono(c: real, a: real, b: real)
    requires 0.0 <= c && a <= b
    ensures c * a <= c * b
  {
    assert c * b - c * a == c * (b - a);
    assert 0.0 <= c * (b - a);
  }

  lemma DotSelf(v: Vec3)
    ensures 0.0 <= Dot(v, v)
    ensures Dot(v, v) == 0.0 <==> v == Zero
  {
    SquareZero(v.x);
    SquareZero(v.y);
    SquareZero(v.z);
  }

  /** The square root of a non-negative number is the only non-negative root. */
  lemma SqrtUnique(lib: Lib, q: real, s: real)
    requires SqrtLaws(lib)
    requires 0.0 <= s && s * s == q
    ensures lib.sqrt(q) == s
  {
    var w := lib.sqrt(q);
    assert 0.0 <= w && w * w == q;
    assert (w - s) * (w + s) == 0.0;
    ProductZero(w - s, w + s);
  }

  /** sqrt(q) <= r exactly when q <= r*r, for non-negative q and r. */
  lemma SqrtAtMost(lib: Lib, q: real, r: real)
    requires SqrtLaws(lib)
    requires 0.0 <= q && 0.0 <= r
    ensures lib.sqrt(q) <= r <==> q <= r * r
  {
    var w := lib.sqrt(q);
    assert 0.0 <= w && w * w == q;
    if w <= r {
      MulMono(w, w, r);
      MulMono(r, w, r);
      assert w * r == r * w;
    } else {
      var d := w - r;
      ProductPositive(d, w + r);
      assert d * (w + r) == w * w - r * r;
      assert r * r < q;
    }
  }

  lemma LengthPositive(lib: Lib, v: Vec3)
    requires SqrtLaws(lib)
    requires v != Zero
    ensures 0.0 < Length(lib, v)
    ensures Length(lib, v) * Length(lib, v) == Dot(v, v)
  {
    DotSelf(v);
  }

  /** A normalised non-zero vector has unit length. */
  lemma NormalizeIsUnit(lib: Lib, v: Vec3)
    requires SqrtLaws(lib)
    requires v != Zero
    ensures Dot(Normalize(lib, v), Normalize(lib, v)) == 1.0
    ensures Length(lib, Normalize(lib, v)) == 1.0
  {
    var l := Length(lib, v);
    LengthPositive(lib, v);
    var n := Normalize(lib, v);
    assert n.x * l == v.x && n.y * l == v.y && n.z * l == v.z;
    calc {
      Dot(n, n) * (l * l);
      (n.x * l) * (n.x * l) + (n.y * l) * (n.y * l) + (n.z * l) * (n.z * l);
      Dot(v, v);
      1.0 * (l * l);
    }
    assert Dot(n, n) == 1.0 by {
      assert (Dot(n, n) - 1.0) * (l * l) == 0.0;
      SquareZero(l);
    }
    SqrtUnique(lib, 1.0, 1.0);
  }

  /** Scaling a unit direction by t >= 0 moves by exactly t. */
  lemma ScaledUnitLength(lib: Lib, t: real, v: Vec3)
    requires SqrtLaws(lib)
    requires 0.0 <= t && v != Zero
    ensures Length(lib, Scale(t, Normalize(lib, v))) == t
  {
    var n := Normalize(lib, v);
    NormalizeIsUnit(lib, v);
    assert Dot(Scale(t, n), Scale(t, n)) == (t * t) * Dot(n, n);
    assert Dot(Scale(t, n), Scale(t, n)) == t * t;
    SqrtUnique(lib, t * t, t);
  }

  lemma NormalizeNeg(lib: Lib, v: Vec3)
    ensures Normalize(lib, Neg(v)) == Neg(Normalize(lib, v))
  {
    var l := Length(lib, v);
    assert Length(lib, Neg(v)) == l by {
      DotNeg(v);
    }
    DivNeg(v.x, l);
    DivNeg(v.y, l);
    DivNeg(v.z, l);
  }

  lemma DotNeg(v: Vec3)
    ensures Dot(Neg(v), Neg(v)) == Dot(v, v)
  {
    assert (-v.x) * (-v.x) == v.x * v.x;
    assert (-v.y) * (-v.y) == v.y * v.y;
    assert (-v.z) * (-v.z) == v.z * v.z;
  }

  lemma DivNeg(x: real, y: real)
    ensures Div(-x, y) == -Div(x, y)
  {
    if y != 0.0 {
      assert (Div(-x, y) + Div(x, y)) * y == 0.0;
      ProductZero(Div(-x, y) + Div(x, y), y);
    }
  }
}
