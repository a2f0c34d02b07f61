/** Spreadsheet and data-frame cells, and the conversions the modelled code
    applies to them: `str()`, `pd.to_numeric(..., errors='coerce')` and
    `astype(float)`. */
module Cells {
  import opened Numbers
  import opened Outcomes

  /** A cell as pandas hands it over: missing (None or NaN), a string, a
      finite number or an infinity. Booleans and dates are not modelled. */
  datatype Cell = Blank | Text(s: string) | Number(x: real) | Infinite(negative: bool)

  /** The conversions that belong to Python and pandas rather than to the
      modelled code: `str()` of a finite float, the parse `to_numeric` applies
      to a string (NaN when it does not parse), and `float()` of a string
      (None when it raises). */
  datatype Conv = Conv(show: real -> string, parse: string -> Num, toFloat: string -> Option<Num>)

  /** `str(cell)`: a missing cell prints as "nan". */
  function Render(conv: Conv, c: Cell): string {
    match c
    case Blank => "nan"
    case Text(s) => s
    case Number(x) => conv.show(x)
    case Infinite(negative) => if negative then "-inf" else "inf"
  }

  /** `pd.to_numeric(cell, errors='coerce')`. */
  function ToNumeric(conv: Conv, c: Cell): Num {
    match c
    case Blank => NaN
    case Text(s) => conv.parse(s)
    case Number(x) => Fin(x)
    case Infinite(negative) => if negative then NegInf else PosInf
  }

  /** The cell pandas stores for a float: NaN is the missing value. */
  function FromNum(n: Num): Cell {
    match n
    case Fin(x) => Number(x)
    case PosInf => Infinite(false)
    case NegInf => Infinite(true)
    case NaN => Blank
  }

  /** A cell of a numeric column. */
  predicate IsNumeric(c: Cell) {
    !c.Text?
  }

  /** Storing a float and converting it back gives the float; a numeric cell
      is the float it converts to. */
  lemma FromNumRoundTrip(conv: Conv, n: Num, c: Cell)
    ensures ToNumeric(conv, FromNum(n)) == n
    ensures IsNumeric(c) ==> FromNum(ToNumeric(conv, c)) == c
    ensures IsNumeric(FromNum(n)) && (FromNum(n).Blank? <==> n.NaN?)
  {
  }

  /** `astype(float)` on one non-missing cell; None when `float()` raises. */
  function AsFloat(conv: Conv, c: Cell): Option<Num> {
    match c
    case Blank => Some(NaN)
    case Text(s) => conv.toFloat(s)
    case Number(x) => Some(Fin(x))
    case Infinite(negative) => Some(if negative then NegInf else PosInf)
  }
}
