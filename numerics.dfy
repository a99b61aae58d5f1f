// Scalar helpers shared by the whole model.  Java doubles are modelled as
// mathematical reals; where the code relies on an IEEE special value the
// model says so next to the definition that stands in for it.
module Numerics {

  datatype Option<T> = None | Some(value: T)

  /** Java's Double.MAX_VALUE, the largest finite double: (2^53 - 1) * 2^971. */
  const MaxDouble: real := 179769313486231570814527423731704356798070567525844996598917476803157260780028538760589558632766878171540458953514382464234321326889464182768467546703537516986049910576551282076245490090389328944075868508455133942304583236903222948165808559332123348274797826204144723168738177180919299881250404026184124858368.0

  /** Java's Math.PI. */
  const Pi: real := 3.141592653589793

  function Min(a: real, b: real): (r: real)
    ensures r <= a && r <= b && (r == a || r == b)
  {
    if a <= b then a else b
  }

  function Max(a: real, b: real): (r: real)
    ensures a <= r && b <= r && (r == a || r == b)
  {
    if a >= b then a else b
  }

  function Abs(a: real): (r: real)
    ensures 0.0 <= r && (r == a || r == -a)
  {
    if a < 0.0 then -a else a
  }

  /**
   * Division.  A double division by zero yields an infinity or NaN, which a
   * real cannot hold; the model fixes the quotient to 0 in that case and
   * every property that depends on a quotient requires a non-zero divisor.
   */
  function Div(x: real, y: real): (r: real)
    ensures y != 0.0 ==> r * y == x
  {
    if y == 0.0 then 0.0 else x / y
  }
}
