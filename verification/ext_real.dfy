/**
 Extended reals. The simulator keeps times (and wall coordinates) in a
 floating-point type where "never" is written as +infinity and an open
 boundary as +/-infinity; this module models that type exactly, without
 rounding and without NaN.
 */
module ExtReal {

  /** A real number or one of the two infinities. */
  datatype Ext = NegInf | Fin(r: real) | PosInf

  /** The order `<=` of the extended reals. */
  predicate Le(a: Ext, b: Ext) {
    match (a, b)
    case (NegInf, _) => true
    case (_, PosInf) => true
    case (Fin(x), Fin(y)) => x <= y
    case _ => false
  }

  /** The strict order `<`. */
  predicate Lt(a: Ext, b: Ext) {
    !Le(b, a)
  }

  /** The smaller of two values (`std::min`). */
  function Min(a: Ext, b: Ext): (m: Ext)
    ensures Le(m, a) && Le(m, b)
    ensures m == a || m == b
  {
    if Lt(b, a) then b else a
  }

  /** The larger of two values (`std::max`). */
  function Max(a: Ext, b: Ext): (m: Ext)
    ensures Le(a, m) && Le(b, m)
    ensures m == a || m == b
  {
    if Lt(a, b) then b else a
  }

  /** `x + e` for a finite `x`; the infinities absorb. */
  function Shift(x: real, e: Ext): (r: Ext)
    ensures r.Fin? <==> e.Fin?
    ensures e.Fin? ==> r.r == x + e.r
  {
    match e
    case NegInf => NegInf
    case Fin(y) => Fin(x + y)
    case PosInf => PosInf
  }

  /** `e - x` for a finite `x`; the infinities absorb. */
  function Minus(e: Ext, x: real): (r: Ext)
    ensures r.Fin? <==> e.Fin?
    ensures e.Fin? ==> r.r == e.r - x
  {
    Shift(-x, e)
  }
}
