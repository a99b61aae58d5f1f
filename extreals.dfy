// Just enough of IEEE-754 double semantics for the slab test of
// BoundingBox.intersect, whose reciprocals of zero direction components
// produce infinities and whose 0 * infinity products produce NaN.
module ExtendedReals {
  import opened Numerics
  import opened Linalg

  datatype XReal = NegInf | Fin(v: real) | PosInf | NaN

  /** 1.0 / d.  A zero component is read as +0.0, whose reciprocal is +infinity. */
  function Recip(d: real): XReal
  {
    if d == 0.0 then PosInf else Fin(1.0 / d)
  }

  /** The product a * x of a finite double a and a double x. */
  function Times(a: real, x: XReal): XReal
  {
    match x
    case Fin(v) => Fin(a * v)
    case NaN => NaN
    case PosInf => if a > 0.0 then PosInf else if a < 0.0 then NegInf else NaN
    case NegInf => if a > 0.0 then NegInf else if a < 0.0 then PosInf else NaN
  }

  /** a <= b on doubles: false whenever either side is NaN. */
  predicate Le(a: XReal, b: XReal)
  {
    !a.NaN? && !b.NaN? && (a.NegInf? || b.PosInf? || (a.Fin? && b.Fin? && a.v <= b.v))
  }

  /** Math.min: NaN if either argument is NaN, otherwise the smaller one. */
  function JMin(a: XReal, b: XReal): XReal
  {
    if a.NaN? || b.NaN? then NaN else if Le(a, b) then a else b
  }

  /** Math.max: NaN if either argument is NaN, otherwise the larger one. */
  function JMax(a: XReal, b: XReal): XReal
  {
    if a.NaN? || b.NaN? then NaN else if Le(a, b) then b else a
  }

  /** Le is a total order on the non-NaN values. */
  lemma LeTotalOnNumbers(a: XReal, b: XReal)
    requires !a.NaN? && !b.NaN?
    ensures Le(a, b) || Le(b, a)
  {
  }

  lemma LeTransitive(a: XReal, b: XReal, c: XReal)
    requires Le(a, b) && Le(b, c)
    ensures Le(a, c)
  {
  }

  /** Math.min and Math.max on non-NaN values are the lattice meet and join. */
  lemma MinMaxBounds(a: XReal, b: XReal)
    requires !a.NaN? && !b.NaN?
    ensures Le(JMin(a, b), a) && Le(JMin(a, b), b)
    ensures Le(a, JMax(a, b)) && Le(b, JMax(a, b))
    ensures JMin(a, b) == a || JMin(a, b) == b
    ensures JMax(a, b) == a || JMax(a, b) == b
  {
  }

  /** Math.min and Math.max propagate NaN. */
  lemma NaNPropagates(a: XReal)
    ensures JMin(NaN, a) == NaN && JMin(a, NaN) == NaN
    ensures JMax(NaN, a) == NaN && JMax(a, NaN) == NaN
    ensures !Le(NaN, a) && !Le(a, NaN)
  {
  }
}
