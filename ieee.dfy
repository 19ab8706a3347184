/**
 * The part of IEEE 754 double arithmetic that the engine's divisions can reach: a quotient whose
 * divisor is zero is an infinity or NaN rather than an error. Finite values are exact reals;
 * rounding and overflow are not modelled.
 */
module Ieee {
  datatype Double = Finite(v: real) | PosInf | NegInf | NaN

  /** Sign of a non-NaN value: 1, 0 or -1. */
  function Sign(a: Double): int
    requires !a.NaN?
  {
    match a
    case Finite(v) => if v > 0.0 then 1 else if v < 0.0 then -1 else 0
    case PosInf => 1
    case NegInf => -1
  }

  /** A signed infinity, or NaN for sign 0. */
  function Infinity(sign: int): Double {
    if sign > 0 then PosInf else if sign < 0 then NegInf else NaN
  }

  function Add(a: Double, b: Double): (r: Double)
    ensures a.Finite? && b.Finite? ==> r == Finite(a.v + b.v)
    ensures a.NaN? || b.NaN? ==> r.NaN?
  {
    match (a, b)
    case (NaN, _) => NaN
    case (_, NaN) => NaN
    case (Finite(x), Finite(y)) => Finite(x + y)
    case (PosInf, NegInf) => NaN
    case (NegInf, PosInf) => NaN
    case (PosInf, _) => PosInf
    case (NegInf, _) => NegInf
    case (_, PosInf) => PosInf
    case (_, NegInf) => NegInf
  }

  function Mul(a: Double, b: Double): (r: Double)
    ensures a.Finite? && b.Finite? ==> r == Finite(a.v * b.v)
    ensures a.NaN? || b.NaN? ==> r.NaN?
  {
    if a.NaN? || b.NaN? then NaN
    else if a.Finite? && b.Finite? then Finite(a.v * b.v)
    else Infinity(Sign(a) * Sign(b))
  }

  function Div(a: Double, b: Double): (r: Double)
    ensures a.Finite? && b.Finite? && b.v != 0.0 ==> r == Finite(a.v / b.v)
    ensures a.Finite? && b == Finite(0.0) ==> r == Infinity(Sign(a))
    ensures a.NaN? || b.NaN? ==> r.NaN?
  {
    if a.NaN? || b.NaN? then NaN
    else if a.Finite? && b.Finite? then
      if b.v != 0.0 then Finite(a.v / b.v) else Infinity(Sign(a))
    else if a.Finite? then Finite(0.0)
    else if b.Finite? then Infinity(Sign(a) * (if b.v < 0.0 then -1 else 1))
    else NaN
  }

  /** Math.floor: infinities and NaN are their own floor. */
  function Floor(a: Double): (r: Double)
    ensures a.Finite? ==> r == Finite(a.v.Floor as real)
    ensures !a.Finite? ==> r == a
  {
    if a.Finite? then Finite(a.v.Floor as real) else a
  }

  /** The comparison a < b; false as soon as one side is NaN. */
  predicate Less(a: Double, b: Double) {
    match (a, b)
    case (NaN, _) => false
    case (_, NaN) => false
    case (Finite(x), Finite(y)) => x < y
    case (NegInf, NegInf) => false
    case (NegInf, _) => true
    case (_, PosInf) => !a.PosInf?
    case _ => false
  }

  /** The comparison a <= b; false as soon as one side is NaN. */
  predicate LessEq(a: Double, b: Double) {
    !a.NaN? && !b.NaN? && !Less(b, a)
  }

  lemma {:induction false} ComparisonsWithNaNFail(a: Double, b: Double)
    requires a.NaN? || b.NaN?
    ensures !Less(a, b) && !LessEq(a, b)
  {
    match (a, b)
    case (NaN, _) =>
    case (_, NaN) =>
  }

  lemma {:induction false} LessEqOnFinite(x: real, y: real)
    ensures LessEq(Finite(x), Finite(y)) <==> x <= y
  {
    assert Less(Finite(y), Finite(x)) <==> y < x;
  }
}
