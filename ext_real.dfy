/** IEEE-754 double arithmetic without rounding: a value is NaN, an infinity
    or an exact real. Only what the embedding and the prediction use is
    defined: addition, multiplication, division, square root and the `>`
    comparison, with the IEEE rules for NaN, infinities and division by zero.
    Zero is unsigned (+0). */
module ExtReal {

  datatype Ext = NaN | NegInf | Fin(val: real) | PosInf

  /** -1, 0 or 1: the sign of a non-NaN value. */
  function Sign(a: Ext): (s: int)
    requires !a.NaN?
    ensures -1 <= s <= 1
    ensures s == 0 <==> a == Fin(0.0)
  {
    match a
    case NegInf => -1
    case PosInf => 1
    case Fin(x) => if x > 0.0 then 1 else if x < 0.0 then -1 else 0
  }

  function Add(a: Ext, b: Ext): (r: Ext)
    ensures a.Fin? && b.Fin? ==> r == Fin(a.val + b.val)
    ensures r.NaN? <==> a.NaN? || b.NaN? || (a.PosInf? && b.NegInf?) || (a.NegInf? && b.PosInf?)
  {
    match (a, b)
    case (NaN, _) => NaN
    case (_, NaN) => NaN
    case (PosInf, NegInf) => NaN
    case (NegInf, PosInf) => NaN
    case (PosInf, _) => PosInf
    case (_, PosInf) => PosInf
    case (NegInf, _) => NegInf
    case (_, NegInf) => NegInf
    case (Fin(x), Fin(y)) => Fin(x + y)
  }

  function Mul(a: Ext, b: Ext): (r: Ext)
    ensures a.Fin? && b.Fin? ==> r == Fin(a.val * b.val)
    ensures r.NaN? <==> a.NaN? || b.NaN? || (!a.Fin? && b == Fin(0.0)) || (a == Fin(0.0) && !b.Fin?)
  {
    if a.NaN? || b.NaN? then NaN
    else if a.Fin? && b.Fin? then Fin(a.val * b.val)
    else if Sign(a) == 0 || Sign(b) == 0 then NaN
    else if Sign(a) == Sign(b) then PosInf
    else NegInf
  }

  /** a / b; a finite non-zero value or an infinity divided by +0 is the
      infinity of its sign, 0 / 0 and inf / inf are NaN. */
  function Div(a: Ext, b: Ext): (r: Ext)
    ensures a.Fin? && b.Fin? && b.val != 0.0 ==> r == Fin(a.val / b.val)
    ensures r.NaN? <==> a.NaN? || b.NaN? || (a == Fin(0.0) && b == Fin(0.0)) || (!a.Fin? && !b.Fin?)
  {
    if a.NaN? || b.NaN? then NaN
    else if a.Fin? && b.Fin? then
      if b.val != 0.0 then Fin(a.val / b.val)
      else if a.val == 0.0 then NaN
      else if a.val > 0.0 then PosInf
      else NegInf
    else if a.Fin? then Fin(0.0)
    else if b.Fin? then
      if Sign(b) >= 0 then a else if a.PosInf? then NegInf else PosInf
    else NaN
  }

  /** The square root of a non-negative real, given by the platform; the
      model asks nothing of it. */
  type SqrtFn = real -> real

  function Sqrt(a: Ext, sqrt: SqrtFn): (r: Ext)
    ensures r.NaN? <==> a.NaN? || a.NegInf? || (a.Fin? && a.val < 0.0)
  {
    match a
    case NaN => NaN
    case NegInf => NaN
    case PosInf => PosInf
    case Fin(x) => if x < 0.0 then NaN else Fin(sqrt(x))
  }

  /** a > b; every comparison with NaN is false. */
  predicate Gt(a: Ext, b: Ext) {
    if a.NaN? || b.NaN? then false
    else if a.Fin? && b.Fin? then a.val > b.val
    else (a.PosInf? && !b.PosInf?) || (b.NegInf? && !a.NegInf?)
  }

  /** `>` is a strict order on the non-NaN values and never holds with NaN. */
  lemma GtOrder(a: Ext, b: Ext, c: Ext)
    ensures a.NaN? || b.NaN? ==> !Gt(a, b)
    ensures !Gt(a, a)
    ensures Gt(a, b) ==> !Gt(b, a)
    ensures Gt(a, b) && Gt(b, c) ==> Gt(a, c)
  {
  }
}
