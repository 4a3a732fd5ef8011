/** The outcome of IEEE 754 double arithmetic, kept only as far as needed to
    state what the engine does when a count it divides by is zero. Rounding is
    not modelled: a finite result is the exact rational. */
module Float {
  datatype Double = Finite(value: real) | NaN | PlusInfinity | MinusInfinity

  /** Division of doubles: 0/0 is NaN, x/0 is an infinity of x's sign. */
  function Divide(num: real, den: real): (r: Double)
    ensures r.Finite? <==> den != 0.0
    ensures r.Finite? ==> r.value * den == num
    ensures r.NaN? <==> num == 0.0 && den == 0.0
    ensures r.PlusInfinity? <==> num > 0.0 && den == 0.0
  {
    if den != 0.0 then Finite(num / den)
    else if num == 0.0 then NaN
    else if num > 0.0 then PlusInfinity
    else MinusInfinity
  }

  /** Addition of doubles: NaN absorbs everything, and so does the sum of
      two opposite infinities. */
  function Plus(a: Double, b: Double): (r: Double)
    ensures a.NaN? || b.NaN? ==> r.NaN?
    ensures a.Finite? && b.Finite? ==> r.Finite?
  {
    match (a, b)
    case (NaN, _) => NaN
    case (_, NaN) => NaN
    case (Finite(x), Finite(y)) => Finite(x + y)
    case (Finite(_), _) => b
    case (_, Finite(_)) => a
    case _ => if a == b then a else NaN
  }
}
