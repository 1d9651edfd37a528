/**
  Extended reals for log-probabilities.  A log-density is either a finite
  real or negative infinity (the log of a zero density); positive infinity
  and NaN never arise in the model because densities are finite reals.
 */
module LogValues {

  datatype LogValue = NegInf | Fin(v: real)

  /** Sum of two log values; negative infinity absorbs everything. */
  function Add(a: LogValue, b: LogValue): (r: LogValue)
    ensures r.Fin? <==> a.Fin? && b.Fin?
    ensures r.Fin? ==> r.v == a.v + b.v
  {
    match (a, b)
    case (Fin(x), Fin(y)) => Fin(x + y)
    case _ => NegInf
  }

  /**
    The log of a density value, with `ln` the (uninterpreted) natural
    logarithm on positive reals.  A zero density has log negative infinity.
   */
  function Log(ln: real -> real, d: real): (r: LogValue)
    ensures r.Fin? <==> d > 0.0
    ensures r.Fin? ==> r.v == ln(d)
  {
    if d > 0.0 then Fin(ln(d)) else NegInf
  }
}
