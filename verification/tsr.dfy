/** The TSR transform: for one simulated scenario (revenue, EBITDA margin,
    EV/EBITDA multiple) and the fixed base anchors, the five compound annual
    growth rates, the dividend return and the total shareholder return. */
module Tsr {
  import opened Numbers

  /** Base-year anchors (revenue, EBITDA margin, EV/EBITDA, enterprise value,
      net debt, shares) and terminal-year assumptions (dividend yield, net
      debt, shares), as read from the configuration. */
  datatype Anchors = Anchors(
    r0: real, m0: real, e0: real, ev0: real, d0: real, s0: real,
    y1: real, d1: real, s1: real)

  /** One simulated scenario: the three driver columns of one row. */
  datatype Drivers = Drivers(revenue: Num, margin: Num, multiple: Num)

  /** A scenario with the columns the transform appends. */
  datatype Enriched = Enriched(
    drivers: Drivers,
    cagrRevenue: Num, cagrMargin: Num, cagrMultiple: Num,
    cagrMktcapEv: Num, cagrShares: Num,
    dividendReturn: Num, tsr: Num)

  /** `x ** (1/years)` as the floating-point library evaluates it. Its
      internals are not modelled; only the laws below are assumed. */
  type RootFn = (Num, real) -> Num

  /** The power of one is one, and NaN stays NaN. */
  ghost predicate RootLaws(root: RootFn) {
    && (forall y: real :: root(Fin(1.0), y) == Fin(1.0))
    && (forall y: real :: root(NaN, y) == NaN)
  }

  /** The anchor-only arithmetic is done on plain Python floats, which raise
      ZeroDivisionError on a zero divisor (`1/years`, `cap0/EV0`, `cap0/S0`,
      `S1/S0`) and on zero to a negative power, and turn complex for a
      negative base under a fractional power: `(S1/S0)**(1/years)` is real
      when the ratio is positive, when it is zero and the horizon positive,
      and when it is negative and `1/years` is a whole number. A zero S1 is
      allowed: `cap1/S1` divides a column, which gives infinities or NaN. */
  predicate ScalarsDefined(b: Anchors, years: real) {
    && years != 0.0 && b.ev0 != 0.0 && b.s0 != 0.0
    && (|| b.s1 / b.s0 > 0.0
        || (b.s1 / b.s0 == 0.0 && years > 0.0)
        || (b.s1 / b.s0 < 0.0 && IsWhole(1.0 / years)))
  }

  /** A float with no fractional part. */
  predicate IsWhole(x: real) {
    x.Floor as real == x
  }

  function Cagr(root: RootFn, ratio: Num, years: real): Num {
    Sub(root(ratio, years), Fin(1.0))
  }

  /** `1 + x` on a column. */
  function OnePlus(x: Num): Num {
    Add(Fin(1.0), x)
  }

  function RevenueRatio(b: Anchors, row: Drivers): Num { Div(row.revenue, Fin(b.r0)) }
  function MarginRatio(b: Anchors, row: Drivers): Num { Div(row.margin, Fin(b.m0)) }
  function MultipleRatio(b: Anchors, row: Drivers): Num { Div(row.multiple, Fin(b.e0)) }

  /** Terminal enterprise value EV1 = E1 * R1 * M1. */
  function Ev1(row: Drivers): Num {
    Mul(Mul(row.multiple, row.revenue), row.margin)
  }

  /** Base-year market capitalisation cap0 = EV0 - D0. */
  function Cap0(b: Anchors): real {
    b.ev0 - b.d0
  }

  /** Terminal market capitalisation cap1 = EV1 - D1. */
  function Cap1(b: Anchors, row: Drivers): Num {
    Sub(Ev1(row), Fin(b.d1))
  }

  /** `(cap1/EV1) / (cap0/EV0)`: the change in the equity share of EV. */
  function MktcapEvRatio(b: Anchors, row: Drivers): Num
    requires b.ev0 != 0.0
  {
    Div(Div(Cap1(b, row), Ev1(row)), Fin(Cap0(b) / b.ev0))
  }

  function SharesRatio(b: Anchors): real
    requires b.s0 != 0.0
  {
    b.s1 / b.s0
  }

  /** `(Y1 * (cap1/S1)) / (cap0/S0)`. */
  function DividendReturn(b: Anchors, row: Drivers): Num
    requires b.s0 != 0.0
  {
    Div(Mul(Fin(b.y1), Div(Cap1(b, row), Fin(b.s1))), Fin(Cap0(b) / b.s0))
  }

  /** The transform of one row. Every appended column is a function of this
      row and the anchors alone, and the driver columns are kept. */
  function Transform(root: RootFn, b: Anchors, years: real, row: Drivers): (e: Enriched)
    requires ScalarsDefined(b, years)
    ensures e.drivers == row
  {
    var cagrRevenue := Cagr(root, RevenueRatio(b, row), years);
    var cagrMargin := Cagr(root, MarginRatio(b, row), years);
    var cagrMultiple := Cagr(root, MultipleRatio(b, row), years);
    var cagrMktcapEv := Cagr(root, MktcapEvRatio(b, row), years);
    var cagrShares := Cagr(root, Fin(SharesRatio(b)), years);
    var dividendReturn := DividendReturn(b, row);
    Enriched(row, cagrRevenue, cagrMargin, cagrMultiple, cagrMktcapEv, cagrShares, dividendReturn,
             TotalReturn(cagrRevenue, cagrMargin, cagrMultiple, cagrMktcapEv, cagrShares, dividendReturn))
  }

  /** `(1+c1)(1+c2)(1+c3)(1+c4)(1+c5) - 1 + dividend`, multiplied left to right. */
  function TotalReturn(c1: Num, c2: Num, c3: Num, c4: Num, c5: Num, dividend: Num): Num {
    var growth := Mul(Mul(Mul(Mul(OnePlus(c1), OnePlus(c2)), OnePlus(c3)), OnePlus(c4)), OnePlus(c5));
    Add(Sub(growth, Fin(1.0)), dividend)
  }

  /** The transform of a whole table: one enriched row per input row, in the
      same order, each depending only on its own input row. */
  function ComputeTsr(root: RootFn, b: Anchors, years: real, rows: seq<Drivers>): (out: seq<Enriched>)
    requires ScalarsDefined(b, years)
    ensures |out| == |rows|
    ensures forall i :: 0 <= i < |rows| ==> out[i].drivers == rows[i]
    ensures forall i :: 0 <= i < |rows| ==> out[i] == Transform(root, b, years, rows[i])
  {
    if rows == [] then []
    else [Transform(root, b, years, rows[0])] + ComputeTsr(root, b, years, rows[1..])
  }

  /** The five annualised growth factors `ratio ** (1/years)` of a row. */
  datatype Factors = Factors(revenue: Num, margin: Num, multiple: Num, mktcapEv: Num, shares: Num)

  function GrowthFactors(root: RootFn, b: Anchors, years: real, row: Drivers): Factors
    requires ScalarsDefined(b, years)
  {
    Factors(root(RevenueRatio(b, row), years), root(MarginRatio(b, row), years),
            root(MultipleRatio(b, row), years), root(MktcapEvRatio(b, row), years),
            root(Fin(SharesRatio(b)), years))
  }

  predicate FactorsFinite(f: Factors) {
    f.revenue.Fin? && f.margin.Fin? && f.multiple.Fin? && f.mktcapEv.Fin? && f.shares.Fin?
  }

  /** The product of the five growth factors, as plain reals. */
  function Compounded(f: Factors): real
    requires FactorsFinite(f)
  {
    f.revenue.v * f.margin.v * f.multiple.v * f.mktcapEv.v * f.shares.v
  }

  /** Adding one back to each CAGR recovers its growth factor, and the TSR is
      the product of the five growth factors, less one, plus the dividend
      return: finite exactly when the dividend return is. */
  lemma {:induction false} TsrIsCompoundedGrowth(root: RootFn, b: Anchors, years: real, row: Drivers)
    requires ScalarsDefined(b, years)
    requires FactorsFinite(GrowthFactors(root, b, years, row))
    ensures var e := Transform(root, b, years, row);
            var f := GrowthFactors(root, b, years, row);
            && OnePlus(e.cagrRevenue) == f.revenue
            && OnePlus(e.cagrMargin) == f.margin
            && OnePlus(e.cagrMultiple) == f.multiple
            && OnePlus(e.cagrMktcapEv) == f.mktcapEv
            && OnePlus(e.cagrShares) == f.shares
            && e.tsr == Add(Fin(Compounded(f) - 1.0),
                            e.dividendReturn)
  {
    var e, f := Transform(root, b, years, row), GrowthFactors(root, b, years, row);
    OnePlusCagr(root, RevenueRatio(b, row), years);
    OnePlusCagr(root, MarginRatio(b, row), years);
    OnePlusCagr(root, MultipleRatio(b, row), years);
    OnePlusCagr(root, MktcapEvRatio(b, row), years);
    OnePlusCagr(root, Fin(SharesRatio(b)), years);
    assert e.cagrRevenue == Sub(f.revenue, Fin(1.0)) && e.cagrMargin == Sub(f.margin, Fin(1.0))
        && e.cagrMultiple == Sub(f.multiple, Fin(1.0)) && e.cagrMktcapEv == Sub(f.mktcapEv, Fin(1.0))
        && e.cagrShares == Sub(f.shares, Fin(1.0));
    EnrichedOfFactors(e, f);
  }

  /** A row whose CAGRs are its growth factors less one has the compounded
      TSR of those factors. */
  lemma EnrichedOfFactors(e: Enriched, f: Factors)
    requires FactorsFinite(f)
    requires e.cagrRevenue == Sub(f.revenue, Fin(1.0)) && e.cagrMargin == Sub(f.margin, Fin(1.0))
    requires e.cagrMultiple == Sub(f.multiple, Fin(1.0)) && e.cagrMktcapEv == Sub(f.mktcapEv, Fin(1.0))
    requires e.cagrShares == Sub(f.shares, Fin(1.0))
    requires e.tsr == TotalReturn(e.cagrRevenue, e.cagrMargin, e.cagrMultiple, e.cagrMktcapEv, e.cagrShares,
                                  e.dividendReturn)
    ensures e.tsr == Add(Fin(Compounded(f) - 1.0),
                         e.dividendReturn)
  {
    TotalReturnOfFactors(f.revenue, f.margin, f.multiple, f.mktcapEv, f.shares, e.dividendReturn);
  }

  /** The total return of five finite growth factors, as a plain product. */
  lemma TotalReturnOfFactors(g1: Num, g2: Num, g3: Num, g4: Num, g5: Num, dividend: Num)
    requires g1.Fin? && g2.Fin? && g3.Fin? && g4.Fin? && g5.Fin?
    ensures TotalReturn(Sub(g1, Fin(1.0)), Sub(g2, Fin(1.0)), Sub(g3, Fin(1.0)),
                        Sub(g4, Fin(1.0)), Sub(g5, Fin(1.0)), dividend)
            == Add(Fin(g1.v * g2.v * g3.v * g4.v * g5.v - 1.0), dividend)
  {
    assert OnePlus(Sub(g1, Fin(1.0))) == g1;
    assert OnePlus(Sub(g2, Fin(1.0))) == g2;
    assert OnePlus(Sub(g3, Fin(1.0))) == g3;
    assert OnePlus(Sub(g4, Fin(1.0))) == g4;
    assert OnePlus(Sub(g5, Fin(1.0))) == g5;
    GrowthProduct(g1, g2, g3, g4, g5);
  }

  /** The product of five finite values is the finite product. */
  lemma GrowthProduct(a: Num, b: Num, c: Num, d: Num, e: Num)
    requires a.Fin? && b.Fin? && c.Fin? && d.Fin? && e.Fin?
    ensures Mul(Mul(Mul(Mul(a, b), c), d), e) == Fin(a.v * b.v * c.v * d.v * e.v)
  {
  }

  /** A finite growth factor survives the `- 1` and `1 +` round trip. */
  lemma OnePlusCagr(root: RootFn, ratio: Num, years: real)
    requires root(ratio, years).Fin?
    ensures OnePlus(Cagr(root, ratio, years)) == root(ratio, years)
  {
  }

  /** With a zero terminal dividend yield the dividend return is exactly zero
      when cap1 is finite and cap0 and S1 are not zero; otherwise it is NaN
      (`0 * (cap1/0)` is `0 * inf` or `0 * NaN`). */
  lemma ZeroYieldDividend(b: Anchors, row: Drivers)
    requires b.s0 != 0.0
    requires b.y1 == 0.0
    ensures DividendReturn(b, row) == Fin(0.0) <==> Cap1(b, row).Fin? && Cap0(b) != 0.0 && b.s1 != 0.0
    ensures DividendReturn(b, row) != Fin(0.0) ==> DividendReturn(b, row).NaN?
  {
  }

  /** With a zero terminal dividend yield and finite growth factors, the TSR
      is exactly the compounded growth less one, or NaN when S1 is zero. */
  lemma ZeroYieldTsr(root: RootFn, b: Anchors, years: real, row: Drivers)
    requires ScalarsDefined(b, years)
    requires b.y1 == 0.0 && Cap0(b) != 0.0 && Cap1(b, row).Fin?
    requires FactorsFinite(GrowthFactors(root, b, years, row))
    ensures var f := GrowthFactors(root, b, years, row);
            Transform(root, b, years, row).tsr
              == if b.s1 != 0.0 then Fin(Compounded(f) - 1.0) else NaN
  {
    ZeroYieldDividend(b, row);
    TsrIsCompoundedGrowth(root, b, years, row);
  }

  /** `cagr_shares` depends on the anchors and the horizon only. */
  lemma SharesCagrIgnoresRow(root: RootFn, b: Anchors, years: real, row1: Drivers, row2: Drivers)
    requires ScalarsDefined(b, years)
    ensures Transform(root, b, years, row1).cagrShares == Transform(root, b, years, row2).cagrShares
  {
  }

  lemma DivSelf(x: real)
    requires x != 0.0
    ensures x / x == 1.0
  {
  }

  /** A scenario that repeats the base revenue, margin and multiple has zero
      revenue, margin and multiple CAGRs (the base values must be non-zero:
      0/0 is NaN). */
  lemma BaseRowHasZeroCagrs(root: RootFn, b: Anchors, years: real)
    requires RootLaws(root)
    requires ScalarsDefined(b, years)
    requires b.r0 != 0.0 && b.m0 != 0.0 && b.e0 != 0.0
    ensures var e := Transform(root, b, years, Drivers(Fin(b.r0), Fin(b.m0), Fin(b.e0)));
            e.cagrRevenue == Fin(0.0) && e.cagrMargin == Fin(0.0) && e.cagrMultiple == Fin(0.0)
  {
    var row := Drivers(Fin(b.r0), Fin(b.m0), Fin(b.e0));
    DivSelf(b.r0);
    DivSelf(b.m0);
    DivSelf(b.e0);
    assert RevenueRatio(b, row) == Fin(1.0);
    assert MarginRatio(b, row) == Fin(1.0);
    assert MultipleRatio(b, row) == Fin(1.0);
  }

  /** A NaN driver makes the TSR NaN. */
  lemma NaNDriverGivesNaNTsr(root: RootFn, b: Anchors, years: real, row: Drivers)
    requires RootLaws(root)
    requires ScalarsDefined(b, years)
    requires row.revenue.NaN? || row.margin.NaN? || row.multiple.NaN?
    ensures Transform(root, b, years, row).tsr.NaN?
  {
    var e := Transform(root, b, years, row);
    if row.revenue.NaN? {
      assert RevenueRatio(b, row).NaN?;
      assert OnePlus(e.cagrRevenue).NaN?;
    } else if row.margin.NaN? {
      assert MarginRatio(b, row).NaN?;
      assert OnePlus(e.cagrMargin).NaN?;
    } else {
      assert MultipleRatio(b, row).NaN?;
      assert OnePlus(e.cagrMultiple).NaN?;
    }
  }

  /** For a finite scenario with non-zero EV1 and cap0, the market-cap/EV
      ratio is `(1 - D1/EV1) / (1 - D0/EV0)`: the change in the share of
      enterprise value that belongs to equity holders. */
  lemma MktcapEvIsEquityShareChange(b: Anchors, row: Drivers)
    requires b.ev0 != 0.0 && Cap0(b) != 0.0
    requires row.revenue.Fin? && row.margin.Fin? && row.multiple.Fin?
    requires Ev1(row).v != 0.0
    ensures Ev1(row) == Fin(row.multiple.v * row.revenue.v * row.margin.v)
    ensures MktcapEvRatio(b, row)
              == Fin((1.0 - b.d1 / Ev1(row).v) / (1.0 - b.d0 / b.ev0))
  {
    var ev1 := Ev1(row).v;
    EquityShare(ev1, b.d1);
    EquityShare(b.ev0, b.d0);
  }

  /** `(x - d) / x == 1 - d / x` for non-zero `x`. */
  lemma EquityShare(x: real, d: real)
    requires x != 0.0
    ensures (x - d) / x == 1.0 - d / x
  {
    calc {
      (x - d) / x;
      x / x - d / x;
      1.0 - d / x;
    }
  }
}
