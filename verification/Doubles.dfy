/** Doubles as far as the modelled code tells them apart: it only asks whether they are finite,
    and converts some to int. */
module Doubles {

  datatype Double = Finite(value: real) | Infinity | NotANumber {
    function OrZero(): real { if Finite? then value else 0.0 }
  }

  /** n is x without its fraction, whatever the sign. */
  predicate IsWholePart(n: int, x: real) {
    (x >= 0.0 ==> n as real <= x < n as real + 1.0) && (x <= 0.0 ==> n as real - 1.0 < x <= n as real)
  }

  /** Conversion of a double to int. */
  function Truncate(x: real): (n: int)
    ensures IsWholePart(n, x)
  {
    if x >= 0.0 then x.Floor else -((-x).Floor)
  }
}
