/** Double-precision values as the modelled code sees them: a finite value,
    one of the two infinities, or NaN. Arithmetic follows IEEE 754 on the
    extended reals; rounding, overflow and the sign of zero are not modelled
    (zero is treated as +0). */
module Numbers {

  datatype Num = Fin(v: real) | PosInf | NegInf | NaN

  /** Sign of a non-NaN value: 1, -1, or 0 for a finite zero. */
  function Sign(a: Num): (s: int)
    requires !a.NaN?
    ensures -1 <= s <= 1
    ensures s == 0 <==> a == Fin(0.0)
    ensures a.Fin? ==> (s > 0 <==> a.v > 0.0) && (s < 0 <==> a.v < 0.0)
  {
    match a
    case Fin(x) => if x > 0.0 then 1 else if x < 0.0 then -1 else 0
    case PosInf => 1
    case NegInf => -1
  }

  /** The infinity with the given (non-zero) sign. */
  function InfOfSign(s: int): (r: Num)
    requires s != 0
    ensures r.PosInf? || r.NegInf?
    ensures Sign(r) == (if s > 0 then 1 else -1)
  {
    if s > 0 then PosInf else NegInf
  }

  /** The sign of a product, from the signs of its factors. */
  function ProductSign(s: int, t: int): int {
    if s == 0 || t == 0 then 0 else if (s > 0) == (t > 0) then 1 else -1
  }

  /** `x > 0` on a double: false for NaN, true for +inf. */
  predicate Positive(a: Num) {
    !a.NaN? && Sign(a) > 0
  }

  function Neg(a: Num): (r: Num)
    ensures r.NaN? <==> a.NaN?
    ensures r.Fin? <==> a.Fin?
    ensures a.Fin? ==> r.v == -a.v
    ensures !a.NaN? ==> Sign(r) == -Sign(a)
  {
    match a
    case Fin(x) => Fin(-x)
    case PosInf => NegInf
    case NegInf => PosInf
    case NaN => NaN
  }

  function Add(a: Num, b: Num): (r: Num)
    ensures r.Fin? <==> a.Fin? && b.Fin?
    ensures r.Fin? ==> r.v == a.v + b.v
    ensures r.NaN? <==> a.NaN? || b.NaN? || (a.PosInf? && b.NegInf?) || (a.NegInf? && b.PosInf?)
    ensures !r.NaN? && !r.Fin? ==> r == (if a.Fin? then b else a)
  {
    if a.NaN? || b.NaN? then NaN
    else if a.Fin? && b.Fin? then Fin(a.v + b.v)
    else if a.Fin? then b
    else if b.Fin? || a == b then a
    else NaN
  }

  function Sub(a: Num, b: Num): (r: Num)
    ensures r.Fin? <==> a.Fin? && b.Fin?
    ensures r.Fin? ==> r.v == a.v - b.v
    ensures r.NaN? <==> a.NaN? || b.NaN? || (a.PosInf? && b.PosInf?) || (a.NegInf? && b.NegInf?)
    ensures !r.NaN? && !r.Fin? ==> r == (if a.Fin? then Neg(b) else a)
  {
    Add(a, Neg(b))
  }

  function Mul(a: Num, b: Num): (r: Num)
    ensures r.Fin? <==> a.Fin? && b.Fin?
    ensures r.Fin? ==> r.v == a.v * b.v
    ensures r.NaN? <==> a.NaN? || b.NaN? || (!a.Fin? && b == Fin(0.0)) || (a == Fin(0.0) && !b.Fin?)
    ensures !r.NaN? ==> Sign(r) == ProductSign(Sign(a), Sign(b))
  {
    if a.NaN? || b.NaN? then NaN
    else if a.Fin? && b.Fin? then Fin(a.v * b.v)
    else if Sign(a) == 0 || Sign(b) == 0 then NaN
    else InfOfSign(ProductSign(Sign(a), Sign(b)))
  }

  function Div(a: Num, b: Num): (r: Num)
    ensures a.Fin? && b.Fin? && b.v != 0.0 ==> r == Fin(a.v / b.v)
    ensures r.Fin? ==> !a.NaN? && !b.NaN? && b != Fin(0.0)
    ensures r.NaN? <==> a.NaN? || b.NaN? || (a == Fin(0.0) && b == Fin(0.0)) || (!a.Fin? && !b.Fin?)
    ensures a.Fin? && !b.Fin? && !b.NaN? ==> r == Fin(0.0)
    ensures a.Fin? && a.v != 0.0 && b == Fin(0.0) ==> r == InfOfSign(Sign(a))
    ensures !a.Fin? && !a.NaN? && b.Fin? ==> r == InfOfSign(ProductSign(Sign(a), if b.v < 0.0 then -1 else 1))
  {
    if a.NaN? || b.NaN? then NaN
    else if a.Fin? && b.Fin? then
      if b.v != 0.0 then Fin(a.v / b.v)
      else if a.v == 0.0 then NaN
      else InfOfSign(Sign(a))
    else if b.Fin? then InfOfSign(ProductSign(Sign(a), if b.v < 0.0 then -1 else 1))
    else if a.Fin? then Fin(0.0)
    else NaN
  }

  /** NaN absorbs every arithmetic operation, on either side. */
  lemma NaNAbsorbs(a: Num)
    ensures Add(NaN, a).NaN? && Add(a, NaN).NaN?
    ensures Sub(NaN, a).NaN? && Sub(a, NaN).NaN?
    ensures Mul(NaN, a).NaN? && Mul(a, NaN).NaN?
    ensures Div(NaN, a).NaN? && Div(a, NaN).NaN?
  {
  }
}
