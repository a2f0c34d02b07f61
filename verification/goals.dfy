/** The goal-seek engine: for each requested probability `p`, the target TSR
    is the `1 - p` quantile of the simulated TSR column, and the engine looks
    for the probability level `p_in` at which the TSR of the row made of the
    three drivers' `1 - p_in` quantiles meets that target. */
module Goals {
  import opened Numbers
  import opened Outcomes
  import opened Tsr

  /** `Series.quantile(level)` for a level in [0, 1] (linear interpolation,
      NaN skipped). Its internals are not modelled. */
  type QuantileFn = (seq<Num>, real) -> Num

  /** What scipy's `brentq(f, a, b, xtol)` does: return a root, or raise. */
  datatype Solve = Converged(x: real) | Raised(error: PyError)

  type BrentFn = (real -> Num, real, real, real) -> Solve

  predicate Between(x: real, a: real, b: real) {
    (a <= x <= b) || (b <= x <= a)
  }

  /** A returned root lies in the bracket it was given. */
  ghost predicate BrentLaws(brent: BrentFn) {
    forall f: real -> Num, a: real, b: real, xtol: real ::
      brent(f, a, b, xtol).Converged? ==> Between(brent(f, a, b, xtol).x, a, b)
  }

  /** The numerical library functions the engine calls. */
  datatype Library = Library(root: RootFn, quantile: QuantileFn, brent: BrentFn)

  /** The arguments of `find_equal_p` other than the requested probabilities:
      the enriched simulation table, the anchors, the horizon and `tol`. */
  datatype Problem = Problem(table: seq<Enriched>, base: Anchors, years: real, tol: real)

  /** One result row, keyed by the requested probability `p`. */
  datatype GoalRow = GoalRow(
    p: real,
    revenue: Num, pRevenue: Num,
    margin: Num, pMargin: Num,
    multiple: Num, pMultiple: Num,
    marketCap: Num, sharePrice: Num,
    tsr: Num, probability: Num)

  function RevenueColumn(t: seq<Enriched>): seq<Num> { seq(|t|, i requires 0 <= i < |t| => t[i].drivers.revenue) }
  function MarginColumn(t: seq<Enriched>): seq<Num> { seq(|t|, i requires 0 <= i < |t| => t[i].drivers.margin) }
  function MultipleColumn(t: seq<Enriched>): seq<Num> { seq(|t|, i requires 0 <= i < |t| => t[i].drivers.multiple) }
  function TsrColumn(t: seq<Enriched>): seq<Num> { seq(|t|, i requires 0 <= i < |t| => t[i].tsr) }

  /** pandas refuses a quantile level outside [0, 1] with a ValueError. */
  function Quantile(lib: Library, column: seq<Num>, level: real): (r: Result<Num, PyError>)
    ensures r.Ok? <==> 0.0 <= level <= 1.0
    ensures r.Err? ==> r.error == ValueError
    ensures r.Ok? ==> r.value == lib.quantile(column, level)
  {
    if 0.0 <= level <= 1.0 then Ok(lib.quantile(column, level)) else Err(ValueError)
  }

  /** The synthetic row of the three drivers' quantiles at one level. */
  function QuantileRow(lib: Library, t: seq<Enriched>, level: real): (r: Result<Drivers, PyError>)
    ensures r.Ok? <==> 0.0 <= level <= 1.0
    ensures r.Err? ==> r.error == ValueError
    ensures r.Ok? ==> && r.value.revenue == lib.quantile(RevenueColumn(t), level)
                      && r.value.margin == lib.quantile(MarginColumn(t), level)
                      && r.value.multiple == lib.quantile(MultipleColumn(t), level)
  {
    if 0.0 <= level <= 1.0 then
      Ok(Drivers(lib.quantile(RevenueColumn(t), level), lib.quantile(MarginColumn(t), level),
                 lib.quantile(MultipleColumn(t), level)))
    else Err(ValueError)
  }

  /** `np.clip(x, lo, hi)`, that is `min(max(x, lo), hi)`, which yields `hi`
      when the bounds cross. */
  function Clip(x: real, lo: real, hi: real): (r: real)
    ensures lo <= hi ==> lo <= r <= hi
    ensures lo <= x <= hi ==> r == x
    ensures x < lo <= hi ==> r == lo
    ensures lo <= hi < x ==> r == hi
    ensures hi < lo ==> r == hi
  {
    var m := if x < lo then lo else x;
    if m > hi then hi else m
  }

  /** The quantile level at which `tsr_at(p)` reads the driver columns. */
  function ProbeLevel(tol: real, p: real): real {
    1.0 - Clip(p, tol, 1.0 - tol)
  }

  /** `np.isnan(x) or np.isinf(x)` collapses to NaN. */
  function FiniteOrNaN(x: Num): (r: Num)
    ensures r.Fin? || r.NaN?
    ensures r.Fin? <==> x.Fin?
    ensures x.Fin? ==> r == x
  {
    if x.Fin? then x else NaN
  }

  /** `tsr_at(p)`: the TSR of the row of driver quantiles at the clamped
      level, with NaN for any non-finite TSR. It raises only when the level
      falls outside [0, 1]. */
  function TsrAt(lib: Library, pr: Problem, p: real): (r: Result<Num, PyError>)
    requires ScalarsDefined(pr.base, pr.years)
    ensures r.Ok? <==> 0.0 <= ProbeLevel(pr.tol, p) <= 1.0
    ensures r.Err? ==> r.error == ValueError
    ensures r.Ok? ==> r.value.Fin? || r.value.NaN?
    ensures r.Ok? ==> var level := ProbeLevel(pr.tol, p);
                      var row := Drivers(lib.quantile(RevenueColumn(pr.table), level),
                                         lib.quantile(MarginColumn(pr.table), level),
                                         lib.quantile(MultipleColumn(pr.table), level));
                      var tsr := Transform(lib.root, pr.base, pr.years, row).tsr;
                      && (tsr.Fin? ==> r.value == tsr)
                      && (!tsr.Fin? ==> r.value.NaN?)
  {
    match QuantileRow(lib, pr.table, ProbeLevel(pr.tol, p))
    case Err(e) => Err(e)
    case Ok(row) => Ok(FiniteOrNaN(Transform(lib.root, pr.base, pr.years, row).tsr))
  }

  /** When the growth factors of the probed row are finite, `tsr_at` is the
      compounded growth of that row less one plus its dividend return, or NaN
      when that sum is not finite. */
  lemma {:induction false} TsrAtIsCompoundedGrowth(lib: Library, pr: Problem, p: real)
    requires ScalarsDefined(pr.base, pr.years)
    requires 0.0 <= ProbeLevel(pr.tol, p) <= 1.0
    requires FactorsFinite(GrowthFactors(lib.root, pr.base, pr.years,
                                         QuantileRow(lib, pr.table, ProbeLevel(pr.tol, p)).value))
    ensures var row := QuantileRow(lib, pr.table, ProbeLevel(pr.tol, p)).value;
            var f := GrowthFactors(lib.root, pr.base, pr.years, row);
            var tsr := Add(Fin(Compounded(f) - 1.0), Transform(lib.root, pr.base, pr.years, row).dividendReturn);
            TsrAt(lib, pr, p) == Ok(if tsr.Fin? then tsr else NaN)
  {
    var row := QuantileRow(lib, pr.table, ProbeLevel(pr.tol, p)).value;
    TsrIsCompoundedGrowth(lib.root, pr.base, pr.years, row);
  }

  /** With `tol` in [0, 1] every probe level is a valid quantile level. */
  lemma TsrAtNeverRaises(lib: Library, pr: Problem, p: real)
    requires ScalarsDefined(pr.base, pr.years)
    requires 0.0 <= pr.tol <= 1.0
    ensures TsrAt(lib, pr, p).Ok?
  {
  }

  /** `tsr_at` as a total function of the probe, for `tol` in [0, 1]. */
  function TsrAtValue(lib: Library, pr: Problem, p: real): (r: Num)
    requires ScalarsDefined(pr.base, pr.years)
    requires 0.0 <= pr.tol <= 1.0
    ensures r.Fin? || r.NaN?
  {
    TsrAtNeverRaises(lib, pr, p);
    TsrAt(lib, pr, p).value
  }

  /** `lambda x: tsr_at(x) - target`, the function handed to brentq. */
  function Objective(lib: Library, pr: Problem, target: Num): real -> Num
    requires ScalarsDefined(pr.base, pr.years)
    requires 0.0 <= pr.tol <= 1.0
  {
    x => Sub(TsrAtValue(lib, pr, x), target)
  }

  /** Both values strictly positive, or both strictly negative. */
  predicate SameStrictSign(fa: Num, fb: Num)
    requires !fa.NaN? && !fb.NaN?
  {
    (Sign(fa) > 0 && Sign(fb) > 0) || (Sign(fa) < 0 && Sign(fb) < 0)
  }

  /** The bracket test `not (isnan(fa) or isnan(fb) or fa * fb > 0)`, with
      the product test written as a sign test (`ProductTestIsSignTest`). */
  predicate Bracketed(fa: Num, fb: Num) {
    !(fa.NaN? || fb.NaN? || SameStrictSign(fa, fb))
  }

  /** The `try` block of `find_equal_p`: the solved probability `p_in`, NaN
      when the root is not bracketed or a ValueError was raised. Any other
      exception from brentq escapes. */
  function SolveProbability(lib: Library, pr: Problem, target: Num): (r: Result<Num, PyError>)
    requires ScalarsDefined(pr.base, pr.years)
    ensures r.Err? ==> r.error != ValueError
    ensures r.Ok? ==> r.value.Fin? || r.value.NaN?
    ensures r.Ok? && r.value.Fin? ==> 0.0 <= pr.tol <= 1.0
  {
    SolveBetween(lib, pr, target, TsrAt(lib, pr, pr.tol), TsrAt(lib, pr, 1.0 - pr.tol))
  }

  /** The solve once `tsr_at` has been evaluated at both ends of the search,
      `ta` at `tol` and `tb` at `1 - tol`. */
  function SolveBetween(lib: Library, pr: Problem, target: Num, ta: Result<Num, PyError>,
                        tb: Result<Num, PyError>): (r: Result<Num, PyError>)
    requires ScalarsDefined(pr.base, pr.years)
    requires ta.Ok? && tb.Ok? ==> 0.0 <= pr.tol <= 1.0
    ensures r.Err? ==> r.error != ValueError
    ensures r.Ok? ==> r.value.Fin? || r.value.NaN?
    ensures r.Ok? && r.value.Fin? ==> ta.Ok? && tb.Ok?
  {
    if ta.Err? || tb.Err? then Ok(NaN)
    else
      var fa := Sub(ta.value, target);
      var fb := Sub(tb.value, target);
      if !Bracketed(fa, fb) then Ok(NaN)
      else
        match lib.brent(Objective(lib, pr, target), pr.tol, 1.0 - pr.tol, pr.tol)
        case Converged(x) => Ok(Fin(x))
        case Raised(e) => if e == ValueError then Ok(NaN) else Err(e)
  }

  /** The thresholds of a solved row: the driver quantiles at `1 - pIn`, the
      market capitalisation EV - net debt they imply and the share price
      market capitalisation / shares. */
  predicate ThresholdsAt(lib: Library, pr: Problem, row: GoalRow, pIn: real) {
    && row.revenue == lib.quantile(RevenueColumn(pr.table), 1.0 - pIn)
    && row.margin == lib.quantile(MarginColumn(pr.table), 1.0 - pIn)
    && row.multiple == lib.quantile(MultipleColumn(pr.table), 1.0 - pIn)
    && row.marketCap == Sub(Mul(Mul(row.multiple, row.revenue), row.margin), Fin(pr.base.d1))
    && row.sharePrice == Div(row.marketCap, Fin(pr.base.s1))
  }

  /** The thresholds of an unsolved row are all NaN. */
  predicate NoThresholds(row: GoalRow) {
    row.revenue.NaN? && row.margin.NaN? && row.multiple.NaN? && row.marketCap.NaN? && row.sharePrice.NaN?
  }

  /** The result row for an unsolvable probability. */
  function Unsolved(p: Num, requested: real, target: Num): GoalRow {
    GoalRow(requested, NaN, p, NaN, p, NaN, p, NaN, NaN, target, p)
  }

  /** The part of one iteration after the `try`: NaN everywhere when `p_in`
      is NaN, otherwise the threshold quantiles at `1 - p_in`, the implied
      market capitalisation and the share price. */
  function ResultRow(lib: Library, pr: Problem, p: real, target: Num, pIn: Num): (r: Result<GoalRow, PyError>)
    requires pIn.Fin? || pIn.NaN?
    ensures r.Ok? ==> r.value.p == p && r.value.tsr == target && r.value.probability == pIn
    ensures r.Ok? ==> && r.value.pRevenue == pIn && r.value.pMargin == pIn && r.value.pMultiple == pIn
    ensures pIn.NaN? ==> r.Ok?
    ensures r.Ok? && pIn.NaN? ==> NoThresholds(r.value)
    ensures pIn.Fin? ==> (r.Ok? <==> 0.0 <= 1.0 - pIn.v <= 1.0)
    ensures r.Ok? && pIn.Fin? ==> ThresholdsAt(lib, pr, r.value, pIn.v)
  {
    if pIn.NaN? then Ok(Unsolved(pIn, p, target))
    else
      match QuantileRow(lib, pr.table, 1.0 - pIn.v)
      case Err(e) => Err(e)
      case Ok(thr) =>
        var marketCap := Sub(Mul(Mul(thr.multiple, thr.revenue), thr.margin), Fin(pr.base.d1));
        Ok(GoalRow(p, thr.revenue, pIn, thr.margin, pIn, thr.multiple, pIn,
                   marketCap, Div(marketCap, Fin(pr.base.s1)), target, pIn))
  }

  /** One iteration of the loop over requested probabilities. The target
      quantile is taken outside the `try`, so a requested probability outside
      [0, 1] raises. */
  function SolveOne(lib: Library, pr: Problem, p: real): (r: Result<GoalRow, PyError>)
    requires ScalarsDefined(pr.base, pr.years)
    ensures r.Ok? ==> r.value.p == p
    ensures r.Ok? ==> 0.0 <= p <= 1.0 && r.value.tsr == lib.quantile(TsrColumn(pr.table), 1.0 - p)
    ensures r.Ok? ==> && r.value.pRevenue == r.value.probability
                      && r.value.pMargin == r.value.probability
                      && r.value.pMultiple == r.value.probability
    ensures r.Ok? ==> r.value.probability.Fin? || r.value.probability.NaN?
    ensures r.Ok? && r.value.probability.NaN? ==> NoThresholds(r.value)
    ensures r.Ok? && r.value.probability.Fin? ==> ThresholdsAt(lib, pr, r.value, r.value.probability.v)
    ensures !(0.0 <= p <= 1.0) ==> r == Err(ValueError)
    ensures r.Ok? ==> SolveProbability(lib, pr, r.value.tsr) == Ok(r.value.probability)
  {
    match Quantile(lib, TsrColumn(pr.table), 1.0 - p)
    case Err(e) => Err(e)
    case Ok(target) =>
      match SolveProbability(lib, pr, target)
      case Err(e) => Err(e)
      case Ok(pIn) => ResultRow(lib, pr, p, target, pIn)
  }

  /** `find_equal_p`: one row per requested probability, in request order,
      or the first exception that escapes. An empty request list fails when
      the empty frame is indexed by `p_tsr`. */
  method FindEqualP(lib: Library, pr: Problem, probs: seq<real>) returns (r: Result<seq<GoalRow>, PyError>)
    requires ScalarsDefined(pr.base, pr.years)
    ensures |probs| == 0 ==> r == Err(KeyError)
    ensures r.Ok? ==> |r.value| == |probs|
    ensures r.Ok? ==> forall i :: 0 <= i < |probs| ==> SolveOne(lib, pr, probs[i]) == Ok(r.value[i])
    ensures r.Ok? ==> forall i :: 0 <= i < |probs| ==> r.value[i].p == probs[i]
    ensures |probs| > 0 ==>
              (r.Ok? <==> forall i :: 0 <= i < |probs| ==> SolveOne(lib, pr, probs[i]).Ok?)
    ensures r.Err? && |probs| > 0 ==>
              exists i :: 0 <= i < |probs| && SolveOne(lib, pr, probs[i]) == Err(r.error)
                          && forall j :: 0 <= j < i ==> SolveOne(lib, pr, probs[j]).Ok?
  {
    var out: seq<GoalRow> := [];
    var k := 0;
    while k < |probs|
      invariant 0 <= k <= |probs|
      invariant |out| == k
      invariant forall i :: 0 <= i < k ==> SolveOne(lib, pr, probs[i]) == Ok(out[i])
    {
      var row := SolveOne(lib, pr, probs[k]);
      if row.Err? {
        assert SolveOne(lib, pr, probs[k]) == Err(row.error);
        assert forall j :: 0 <= j < k ==> SolveOne(lib, pr, probs[j]).Ok?;
        return Err(row.error);
      }
      out := out + [row.value];
      k := k + 1;
    }
    if |out| == 0 {
      return Err(KeyError);
    }
    assert forall i :: 0 <= i < |probs| ==> SolveOne(lib, pr, probs[i]) == Ok(out[i]);
    return Ok(out);
  }

  // ----- Properties -----

  /** On non-NaN values `fa * fb > 0` holds exactly when both are strictly
      positive or both strictly negative (`inf * 0` is NaN, so not > 0). */
  lemma ProductTestIsSignTest(fa: Num, fb: Num)
    requires !fa.NaN? && !fb.NaN?
    ensures Positive(Mul(fa, fb)) <==> SameStrictSign(fa, fb)
  {
    if fa.Fin? && fb.Fin? {
      assert Mul(fa, fb).v == fa.v * fb.v;
      if fa.v > 0.0 && fb.v > 0.0 {
        assert fa.v * fb.v > 0.0;
      } else if fa.v < 0.0 && fb.v < 0.0 {
        assert fa.v * fb.v > 0.0;
      } else {
        assert fa.v * fb.v <= 0.0;
      }
    }
  }

  /** The bracket test is the source's test; for finite values it is
      `fa * fb <= 0`, so a zero at either end counts as bracketed; NaN at
      either end, or two ends of the same strict sign, are rejected. */
  lemma BracketedMeaning(fa: Num, fb: Num)
    ensures Bracketed(fa, fb) <==> !(fa.NaN? || fb.NaN? || Positive(Mul(fa, fb)))
    ensures fa.Fin? && fb.Fin? ==> (Bracketed(fa, fb) <==> fa.v * fb.v <= 0.0)
    ensures fa == Fin(0.0) && !fb.NaN? ==> Bracketed(fa, fb)
  {
    if !fa.NaN? && !fb.NaN? {
      ProductTestIsSignTest(fa, fb);
      if fa.Fin? && fb.Fin? {
        assert Positive(Mul(fa, fb)) <==> fa.v * fb.v > 0.0;
      }
    }
  }

  /** Probes are clamped: with `tol` in (0, 1/2] every quantile level read by
      `tsr_at` lies in [tol, 1 - tol], so never at 0 or 1, and probes beyond
      either end evaluate exactly as the end itself. */
  lemma {:induction false} ProbesAreClamped(lib: Library, pr: Problem, p: real)
    requires ScalarsDefined(pr.base, pr.years)
    requires 0.0 < pr.tol <= 0.5
    ensures 0.0 < pr.tol <= ProbeLevel(pr.tol, p) <= 1.0 - pr.tol < 1.0
    ensures p <= pr.tol ==> TsrAt(lib, pr, p) == TsrAt(lib, pr, pr.tol)
    ensures p >= 1.0 - pr.tol ==> TsrAt(lib, pr, p) == TsrAt(lib, pr, 1.0 - pr.tol)
    ensures TsrAt(lib, pr, p) == TsrAt(lib, pr, Clip(p, pr.tol, 1.0 - pr.tol))
  {
    var c := Clip(p, pr.tol, 1.0 - pr.tol);
    assert ProbeLevel(pr.tol, c) == ProbeLevel(pr.tol, p);
    SameLevelSameTsr(lib, pr, p, c);
    if p <= pr.tol {
      assert ProbeLevel(pr.tol, pr.tol) == ProbeLevel(pr.tol, p);
      SameLevelSameTsr(lib, pr, p, pr.tol);
    }
    if p >= 1.0 - pr.tol {
      assert ProbeLevel(pr.tol, 1.0 - pr.tol) == ProbeLevel(pr.tol, p);
      SameLevelSameTsr(lib, pr, p, 1.0 - pr.tol);
    }
  }

  /** `tsr_at` depends on its argument only through the probe level. */
  lemma SameLevelSameTsr(lib: Library, pr: Problem, p: real, q: real)
    requires ScalarsDefined(pr.base, pr.years)
    requires ProbeLevel(pr.tol, p) == ProbeLevel(pr.tol, q)
    ensures TsrAt(lib, pr, p) == TsrAt(lib, pr, q)
  {
  }

  /** A ValueError never escapes the solve, and a solved `p_in` lies between
      `tol` and `1 - tol` (in [tol, 1 - tol] for the usual `tol` <= 1/2). */
  lemma SolvedProbabilityInWindow(lib: Library, pr: Problem, target: Num)
    requires ScalarsDefined(pr.base, pr.years)
    requires BrentLaws(lib.brent)
    ensures var r := SolveProbability(lib, pr, target);
            r.Ok? && r.value.Fin? ==> Between(r.value.v, pr.tol, 1.0 - pr.tol)
    ensures var r := SolveProbability(lib, pr, target);
            r.Ok? && r.value.Fin? && pr.tol <= 0.5 ==> pr.tol <= r.value.v <= 1.0 - pr.tol
  {
    var r := SolveProbability(lib, pr, target);
    SolveDecision(lib, pr, target);
    if r.Ok? && r.value.Fin? {
      ConvergedInBracket(lib.brent, Objective(lib, pr, target), pr.tol, 1.0 - pr.tol, pr.tol, r.value.v);
    }
  }

  /** A root brentq converged to lies in its bracket. */
  lemma ConvergedInBracket(brent: BrentFn, f: real -> Num, a: real, b: real, xtol: real, x: real)
    requires BrentLaws(brent) && brent(f, a, b, xtol) == Converged(x)
    ensures Between(x, a, b)
  {
    assert brent(f, a, b, xtol).Converged?;
  }

  /** The decision: `p_in` is solved only when both ends evaluate, neither is
      NaN, `fa * fb > 0` fails and brentq converges; an unbracketed or
      NaN-ended search gives NaN. */
  lemma SolveDecision(lib: Library, pr: Problem, target: Num)
    requires ScalarsDefined(pr.base, pr.years)
    ensures var ta := TsrAt(lib, pr, pr.tol);
            var tb := TsrAt(lib, pr, 1.0 - pr.tol);
            var r := SolveProbability(lib, pr, target);
            && (ta.Err? || tb.Err? ==> r == Ok(NaN))
            && (ta.Ok? && tb.Ok? && !Bracketed(Sub(ta.value, target), Sub(tb.value, target)) ==> r == Ok(NaN))
            && (r.Ok? && r.value.Fin? ==>
                  ta.Ok? && tb.Ok? && Bracketed(Sub(ta.value, target), Sub(tb.value, target))
                  && lib.brent(Objective(lib, pr, target), pr.tol, 1.0 - pr.tol, pr.tol)
                       == Converged(r.value.v))
  {
    var ta := TsrAt(lib, pr, pr.tol);
    var tb := TsrAt(lib, pr, 1.0 - pr.tol);
    BetweenDecision(lib, pr, target, ta, tb);
  }

  /** `SolveDecision` for given end values. */
  lemma BetweenDecision(lib: Library, pr: Problem, target: Num, ta: Result<Num, PyError>,
                        tb: Result<Num, PyError>)
    requires ScalarsDefined(pr.base, pr.years)
    requires ta.Ok? && tb.Ok? ==> 0.0 <= pr.tol <= 1.0
    ensures var r := SolveBetween(lib, pr, target, ta, tb);
            && (ta.Err? || tb.Err? ==> r == Ok(NaN))
            && (ta.Ok? && tb.Ok? && !Bracketed(Sub(ta.value, target), Sub(tb.value, target)) ==> r == Ok(NaN))
            && (r.Ok? && r.value.Fin? ==>
                  ta.Ok? && tb.Ok? && Bracketed(Sub(ta.value, target), Sub(tb.value, target))
                  && lib.brent(Objective(lib, pr, target), pr.tol, 1.0 - pr.tol, pr.tol)
                       == Converged(r.value.v))
  {
    if ta.Ok? && tb.Ok? {
      var fa := Sub(ta.value, target);
      var fb := Sub(tb.value, target);
      if Bracketed(fa, fb) {
        match lib.brent(Objective(lib, pr, target), pr.tol, 1.0 - pr.tol, pr.tol)
        case Converged(x) =>
        case Raised(e) =>
      }
    }
  }

  /** A NaN target (an all-NaN TSR column, say) is never solvable. */
  lemma NaNTargetUnsolvable(lib: Library, pr: Problem)
    requires ScalarsDefined(pr.base, pr.years)
    ensures SolveProbability(lib, pr, NaN) == Ok(NaN)
  {
  }

  /** Degenerate drivers: when every driver quantile is the same at both
      probe levels, the two ends of the search agree, so the root is
      bracketed only if the target is hit exactly. */
  lemma DegenerateDriversRarelySolvable(lib: Library, pr: Problem, target: Num)
    requires ScalarsDefined(pr.base, pr.years)
    requires 0.0 <= pr.tol <= 1.0
    requires QuantileRow(lib, pr.table, ProbeLevel(pr.tol, pr.tol))
               == QuantileRow(lib, pr.table, ProbeLevel(pr.tol, 1.0 - pr.tol))
    ensures var fa := Sub(TsrAtValue(lib, pr, pr.tol), target);
            SolveProbability(lib, pr, target) == Ok(NaN) || fa == Fin(0.0)
  {
    var ta := TsrAt(lib, pr, pr.tol);
    var tb := TsrAt(lib, pr, 1.0 - pr.tol);
    SameRowSameTsr(lib, pr, pr.tol, 1.0 - pr.tol);
    TsrAtNeverRaises(lib, pr, pr.tol);
    var fa := Sub(ta.value, target);
    assert fa == Sub(TsrAtValue(lib, pr, pr.tol), target);
    if !fa.NaN? && fa != Fin(0.0) {
      assert SameStrictSign(fa, fa);
      BetweenDecision(lib, pr, target, ta, tb);
    }
  }

  /** Probe levels that give the same quantile row give the same `tsr_at`. */
  lemma SameRowSameTsr(lib: Library, pr: Problem, p: real, q: real)
    requires ScalarsDefined(pr.base, pr.years)
    requires QuantileRow(lib, pr.table, ProbeLevel(pr.tol, p)) == QuantileRow(lib, pr.table, ProbeLevel(pr.tol, q))
    ensures TsrAt(lib, pr, p) == TsrAt(lib, pr, q)
  {
  }

  /** Only a requested probability outside [0, 1] or a non-ValueError from
      brentq makes a solve raise: the threshold quantiles at `1 - p_in` are
      always in range. */
  lemma SolveOneRaises(lib: Library, pr: Problem, p: real)
    requires ScalarsDefined(pr.base, pr.years)
    requires BrentLaws(lib.brent)
    ensures SolveOne(lib, pr, p).Err? <==>
              !(0.0 <= p <= 1.0)
              || SolveProbability(lib, pr, lib.quantile(TsrColumn(pr.table), 1.0 - p)).Err?
  {
    if 0.0 <= p <= 1.0 {
      SolvedProbabilityInWindow(lib, pr, lib.quantile(TsrColumn(pr.table), 1.0 - p));
    }
  }

  /** The share price can be reproduced from the returned thresholds:
      `(multiple * revenue * margin - D1) / S1`. */
  lemma SharePriceFromThresholds(lib: Library, pr: Problem, p: real, g: GoalRow)
    requires ScalarsDefined(pr.base, pr.years)
    requires SolveOne(lib, pr, p) == Ok(g)
    requires g.revenue.Fin? && g.margin.Fin? && g.multiple.Fin?
    ensures g.probability.Fin?
    ensures g.marketCap == Fin(g.multiple.v * g.revenue.v * g.margin.v - pr.base.d1)
    ensures pr.base.s1 != 0.0 ==> g.sharePrice == Fin((g.multiple.v * g.revenue.v * g.margin.v - pr.base.d1) / pr.base.s1)
    ensures pr.base.s1 == 0.0 ==> !g.sharePrice.Fin?
  {
    assert !NoThresholds(g);
    assert ThresholdsAt(lib, pr, g, g.probability.v);
    PriceOfThresholds(g, pr.base.d1, pr.base.s1);
  }

  /** The market capitalisation and share price of finite thresholds. */
  lemma PriceOfThresholds(g: GoalRow, d1: real, s1: real)
    requires g.revenue.Fin? && g.margin.Fin? && g.multiple.Fin?
    requires g.marketCap == Sub(Mul(Mul(g.multiple, g.revenue), g.margin), Fin(d1))
    requires g.sharePrice == Div(g.marketCap, Fin(s1))
    ensures g.marketCap == Fin(g.multiple.v * g.revenue.v * g.margin.v - d1)
    ensures s1 != 0.0 ==> g.sharePrice == Fin((g.multiple.v * g.revenue.v * g.margin.v - d1) / s1)
    ensures s1 == 0.0 ==> !g.sharePrice.Fin?
  {
    if s1 != 0.0 {
      FiniteSharePrice(g.multiple, g.revenue, g.margin, d1, s1);
    } else {
      FiniteSharePrice(g.multiple, g.revenue, g.margin, d1, 1.0);
    }
  }

  /** `thr_mult * thr_rev * thr_marg - D1`, and that over `S1`, on finite
      thresholds. */
  lemma FiniteSharePrice(multiple: Num, revenue: Num, margin: Num, d1: real, s1: real)
    requires multiple.Fin? && revenue.Fin? && margin.Fin? && s1 != 0.0
    ensures var cap := Sub(Mul(Mul(multiple, revenue), margin), Fin(d1));
            && cap == Fin(multiple.v * revenue.v * margin.v - d1)
            && Div(cap, Fin(s1)) == Fin((multiple.v * revenue.v * margin.v - d1) / s1)
  {
  }
}
