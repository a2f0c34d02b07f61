# integration_FP core in Dafny

This project models the computational core of integration_FP, a tool that values
a company from simulated revenue, EBITDA-margin and EV/EBITDA scenarios and
gathers broker forecasts from Refinitiv. It models five parts:

- **The TSR transform** (`compute_tsr`, module `Tsr`). Each scenario row gets
  five compound annual growth rates (revenue, margin, multiple, market-cap/EV,
  shares), a dividend return and a total shareholder return.
- **The goal-seek engine** (`find_equal_p`, module `Goals`). For each requested
  probability `p`, it takes the target TSR as the `1 - p` quantile of the
  simulated TSR column. It clamps probes into `[tol, 1 - tol]` and tests the
  bracket. It either solves for `p_in` or reports NaN everywhere. From a
  solved `p_in` it derives the driver thresholds, the market capitalisation
  and the share price.
- **The summary-sheet reader** (`read_summary_from_excel` after the sheet is
  loaded, module `ReadSummary`). It finds the `Summary Statistics - <ticker>`
  block and the `Statistic` header, and collects the statistic rows. It then
  resolves the three metric columns, with a fallback, and reads the median
  and the 10th and 90th percentiles. A lookup tries an exact match first,
  then a case-insensitive partial one.
- **Broker overrides and consolidation** (`apply_broker_overrides` and
  `consolidate_refinitiv_data`, modules `Brokers` and `Consolidate`).
  - Broker names are upper-cased, stripped and de-masked through the fixed
    `PERMISSION DENIED <id>` table.
  - Columns that mostly parse as numbers are converted.
  - Rows are grouped by ticker, broker and (when present) estimate date. Each
    other column keeps the first non-missing value of its group.
- **The summary-statistic rule** of `create_multi_metric_forecast_summary`
  (module `ForecastSummary`). Missing values and zeros are dropped. A series
  that does not convert to floats, or has no non-zero value, gives None.
  Margins and dividend yields are scaled to percent in the returned tables.

Supporting modules:

| module | what it models |
|---|---|
| `Outcomes` | `Option`, `Result` and the Python exceptions that can escape |
| `Numbers` | doubles as `Fin(real) \| PosInf \| NegInf \| NaN`, with IEEE-754 `+ - * /` on the extended reals |
| `Cells` | data-frame cells and the `str()`, `to_numeric` and `float()` conversions |
| `Text` | Python's `strip`, `split`, `upper`, `lower` and substring `in` |
| `Search` | "first position that qualifies" |
| `Frames` | a DataFrame as a sequence of labelled columns of one height |

Library numerics are parameters of the model, never implemented:

- `x ** (1/years)`;
- `Series.quantile`;
- `scipy.optimize.brentq`;
- `np.median` and `np.percentile`;
- `str()` of a float and the float parsers.

Lemmas that need a law about one of these take it as a `requires`. For
example, `RootLaws` says the power of 1 is 1 and NaN stays NaN, and
`BrentLaws` says a root brentq returns lies in its bracket.

## Model

| member | source | states |
|---|---|---|
| Numbers.Add | integration_FP/src/tsr.py:44 | double addition: finite exactly when both operands are, with the real sum; NaN exactly for a NaN operand or opposite infinities; any other infinite sum is the infinite operand |
| Numbers.Sub | integration_FP/src/tsr.py:24-26 | double subtraction: finite exactly when both operands are, with the real difference; NaN exactly for a NaN operand or like infinities; any other infinite result is the infinite minuend, or the negated subtrahend when the minuend is finite |
| Numbers.Mul | integration_FP/src/tsr.py:29 | double product: finite exactly when both factors are; NaN exactly for a NaN factor or infinity times zero; otherwise the sign is the product of the signs |
| Numbers.Div | integration_FP/src/tsr.py:24-26 | double division: the real quotient for a finite non-zero divisor; NaN for 0/0, inf/inf or a NaN operand; zero for finite over infinite; a non-zero finite over zero is the infinity of the dividend's sign; an infinity over a finite value is the infinity of the product of the signs (zero counted as +0) |
| Numbers.NaNAbsorbs | integration_FP/src/tsr.py:24-44 | NaN on either side of any arithmetic operation gives NaN |
| Tsr.Transform | integration_FP/src/tsr.py:20-44 | the transformed row keeps its three driver columns unchanged |
| Tsr.ComputeTsr | integration_FP/src/tsr.py:5-46 | one enriched row per input row, in input order; each depends only on its own row, the anchors and the horizon |
| Tsr.TsrIsCompoundedGrowth | integration_FP/src/tsr.py:24-44 | `1 + cagr` recovers each of the five growth factors; the TSR is their product, less one, plus the dividend return |
| Tsr.TotalReturnOfFactors | integration_FP/src/tsr.py:38-44 | the left-to-right product of the five `1 + (factor - 1)` terms, less one, plus the dividend, is the plain real product less one plus the dividend |
| Tsr.OnePlusCagr | integration_FP/src/tsr.py:24-26 | a finite growth factor survives the `- 1` then `1 +` round trip |
| Tsr.ZeroYieldDividend | integration_FP/src/tsr.py:35 | with a zero dividend yield and a non-zero S0, the dividend return is exactly 0 when cap1 is finite and cap0 and S1 are non-zero, and NaN otherwise |
| Tsr.ZeroYieldTsr | integration_FP/src/tsr.py:35-44 | with a zero yield and finite factors, the TSR is exactly the compounded growth less one, and NaN when S1 is zero |
| Tsr.SharesCagrIgnoresRow | integration_FP/src/tsr.py:34 | `cagr_shares` is the same for every scenario row |
| Tsr.BaseRowHasZeroCagrs | integration_FP/src/tsr.py:24-26 | a row equal to the base revenue, margin and multiple (all non-zero) has zero revenue, margin and multiple CAGRs |
| Tsr.NaNDriverGivesNaNTsr | integration_FP/src/tsr.py:20-44 | a NaN driver makes the TSR NaN |
| Tsr.MktcapEvIsEquityShareChange | integration_FP/src/tsr.py:29-32 | EV1 is E1·R1·M1; the market-cap/EV ratio is `(1 - D1/EV1) / (1 - D0/EV0)`, the change in equity's share of enterprise value |
| Goals.Quantile | integration_FP/src/goals.py:37 | a quantile level outside [0, 1] raises ValueError; inside, the library's quantile is returned |
| Goals.QuantileRow | integration_FP/src/goals.py:24-28 | the synthetic driver row holds the revenue, margin and multiple quantiles at the level, in that order; it exists exactly when the level is in [0, 1], and raises ValueError otherwise |
| Goals.Clip | integration_FP/src/goals.py:23 | `np.clip` keeps a value inside ordered bounds, fixes values already inside, sends values below to `lo` and above to `hi`, and returns `hi` when the bounds cross |
| Goals.FiniteOrNaN | integration_FP/src/goals.py:31-33 | a finite TSR passes through; NaN and both infinities become NaN |
| Goals.TsrAt | integration_FP/src/goals.py:21-33 | `tsr_at` raises (ValueError) only for a probe level outside [0, 1]; otherwise it is the TSR the transform computes for the row of the three driver quantiles at `1 - clip(p, tol, 1 - tol)`, passed through when finite and NaN otherwise |
| Goals.TsrAtIsCompoundedGrowth | integration_FP/src/goals.py:21-33 | when the probed row's growth factors are finite, `tsr_at` is the product of the five growth factors less one plus the dividend return, or NaN when that is not finite |
| Goals.TsrAtNeverRaises | integration_FP/src/goals.py:23-28 | with `tol` in [0, 1], `tsr_at` never raises |
| Goals.ProbesAreClamped | integration_FP/src/goals.py:21-28 | for `tol` in (0, 1/2], every probe level lies in [tol, 1 - tol]; probes beyond an end evaluate as that end; `tsr_at(p) == tsr_at(clip(p))` |
| Goals.SameLevelSameTsr | integration_FP/src/goals.py:21-29 | `tsr_at` depends on its argument only through the clamped level |
| Goals.ProductTestIsSignTest | integration_FP/src/goals.py:44 | on non-NaN values, `fa * fb > 0` holds exactly when both are strictly positive or both strictly negative |
| Goals.BracketedMeaning | integration_FP/src/goals.py:44-47 | the bracket test is `not (isnan(fa) or isnan(fb) or fa*fb > 0)`; for finite ends it is `fa*fb <= 0`, so a zero end counts as bracketed |
| Goals.SolveProbability | integration_FP/src/goals.py:39-49 | a ValueError never escapes the solve; `p_in` is finite or NaN; a finite `p_in` needs `tol` in [0, 1] |
| Goals.SolveBetween | integration_FP/src/goals.py:41-49 | after both end evaluations, no ValueError escapes; a finite `p_in` needs both ends to have evaluated |
| Goals.SolveDecision | integration_FP/src/goals.py:39-49 | `p_in` is NaN when an end raises or the ends are not bracketed; a finite `p_in` means bracketed ends and the value brentq converged to |
| Goals.BetweenDecision | integration_FP/src/goals.py:41-49 | the same decision, for given end values |
| Goals.SolvedProbabilityInWindow | integration_FP/src/goals.py:39-49 | a solved `p_in` lies between `tol` and `1 - tol` |
| Goals.NaNTargetUnsolvable | integration_FP/src/goals.py:37-45 | a NaN target is never solvable |
| Goals.DegenerateDriversRarelySolvable | integration_FP/src/goals.py:39-47 | when the driver quantiles are equal at both probe ends, the solve gives NaN unless the target is hit exactly |
| Goals.ResultRow | integration_FP/src/goals.py:51-73 | a NaN `p_in` gives a row that is NaN in every threshold, cap and price; otherwise thresholds at `1 - p_in`, cap `mult·rev·marg - D1` and price `cap / S1`; in both, `p_revenue`, `p_margin` and `p_multiple` equal `Probability`, and `TSR` is the target |
| Goals.SolveOne | integration_FP/src/goals.py:36-73 | one loop iteration: `p` outside [0, 1] raises ValueError; otherwise the row carries `p`, the target quantile, and as `p_in` (in all four probability fields) exactly what the solve for that target returned, with NaN or solved thresholds accordingly |
| Goals.SolveOneRaises | integration_FP/src/goals.py:36-59 | an iteration raises exactly when `p` is outside [0, 1] or brentq raises something other than ValueError |
| Goals.FindEqualP | integration_FP/src/goals.py:35-75 | one row per requested probability, in request order, each the iteration's row; the first escaping exception otherwise; KeyError for an empty request list |
| Goals.SharePriceFromThresholds | integration_FP/src/goals.py:54-59 | for finite returned thresholds, the market cap is `mult·rev·marg - D1`; the share price is that over `S1` for a non-zero S1, and not finite for a zero S1 |
| Goals.PriceOfThresholds | integration_FP/src/goals.py:58-59 | the double arithmetic of cap and price on finite thresholds: the real cap, the real quotient for a non-zero `S1`, an infinity or NaN for a zero one |
| Goals.FiniteSharePrice | integration_FP/src/goals.py:58-59 | on finite thresholds the double arithmetic of cap and price is the real arithmetic |
| Cells.FromNumRoundTrip | integration_FP/src/fetch_refinitiv_data.py:109-111 | storing a float in a cell and converting back gives the float; a numeric cell is the float it converts to |
| Text.Strip | integration_FP/read_summary.py:53 | `strip()` gives a slice with no whitespace at either end, having removed only whitespace |
| Text.StripOfStripped | integration_FP/read_summary.py:53 | a string with no whitespace at its ends is its own strip |
| Text.StripIdempotent | integration_FP/src/fetch_refinitiv_data.py:129 | stripping twice is stripping once |
| Text.UpperIdempotent | integration_FP/src/fetch_refinitiv_data.py:129 | upper-casing twice is upper-casing once |
| Text.UpperOfStrip | integration_FP/src/fetch_refinitiv_data.py:129 | `.upper().strip()` output is a fixed point of `upper` |
| Text.Words | integration_FP/read_summary.py:65 | `split()` yields non-empty words with no whitespace in them |
| Text.WordsSplit | integration_FP/read_summary.py:65 | `split()` reads the string as its words in order: only whitespace before the first, between two consecutive ones and after the last, and each word a maximal run of non-whitespace |
| Text.SplitUnique | integration_FP/read_summary.py:65 | a string reads as whitespace-separated words in one way only |
| Text.SplitIsWords | integration_FP/read_summary.py:65 | any reading of a string as whitespace-separated words is its `split()` |
| Text.ContainsMeansOccurs | integration_FP/read_summary.py:19 | the substring test holds exactly when the needle occurs at some offset |
| Search.FirstFrom | integration_FP/read_summary.py:18-21 | the first qualifying position in a range, or none exactly when none qualifies |
| Search.IndexOf | integration_FP/read_summary.py:91-92 | the first position holding `x`, or none exactly when `x` is absent |
| ReadSummary.TitleRow | integration_FP/read_summary.py:8-14 | the first row whose first cell is exactly `Summary Statistics - <ticker>`, or none exactly when no row has it |
| ReadSummary.HeaderRow | integration_FP/read_summary.py:16-25 | the first row in `[start+1, min(start+10, n))` whose first cell mentions `Statistic`, else `start+1` |
| ReadSummary.QualifyingMembers | integration_FP/read_summary.py:35-40 | the kept rows are exactly the rows whose first cell is present and names Median, 10th or 90th Percentile |
| ReadSummary.ScanEnd | integration_FP/read_summary.py:35-43 | the scan ends at the first empty first cell after something was kept, or at the window's end |
| ReadSummary.ScanStops | integration_FP/read_summary.py:41-43 | an empty first cell after a kept row ends the scan with what was kept |
| ReadSummary.CollectRows | integration_FP/read_summary.py:30-43 | the loop with its `break` collects the statistic rows before the scan's end |
| ReadSummary.NothingCollectedIff | integration_FP/read_summary.py:35-46 | nothing is collected exactly when the window holds no statistic row |
| ReadSummary.RunCollected | integration_FP/read_summary.py:35-43 | a run of statistic rows opening the window and closed by an empty first cell is exactly what is collected |
| ReadSummary.MakeTable | integration_FP/read_summary.py:48-53 | the table is indexed by the `Statistic` column; its column names are the other stripped header cells, and its body the other cells, in order |
| ReadSummary.ColumnNames | integration_FP/read_summary.py:49-53 | the column names are the header cells other than the `Statistic` one, each `str()`-ed and stripped, in order |
| ReadSummary.ResolveColumn | integration_FP/read_summary.py:60-71 | an exact column name wins; otherwise the first column that mentions the period and one of the target's first two words; none exactly when neither exists |
| ReadSummary.AvailableColumns | integration_FP/read_summary.py:55-71 | three entries, resolved for Revenue, EBITDA Margin and EV/EBITDA in that order |
| ReadSummary.PartialMatch | integration_FP/read_summary.py:94-97 | the first index entry containing the statistic name, ignoring case; none exactly when no entry does |
| ReadSummary.SafeGet | integration_FP/read_summary.py:86-99 | NaN for a missing column or a statistic matched neither exactly nor partially; an exact match reads that row's cell; otherwise the first row whose label contains the statistic, ignoring case, is read; any non-NaN value comes from that column |
| ReadSummary.BelowHeaderOutcome | integration_FP/read_summary.py:27-76 | ValueError when the window holds no statistic row; otherwise KeyError exactly when the header has no `Statistic` cell, TypeError exactly when it has one but a resolved column name labels two columns, and a result exactly when neither happens |
| ReadSummary.RepeatedTargetRaises | integration_FP/read_summary.py:58-76 | a target metric whose name labels two columns makes `pd.to_numeric` raise TypeError |
| ReadSummary.ReadOutcome | integration_FP/read_summary.py:8-28 | a sheet with no columns, or a title on the last row, raises IndexError; a missing title raises ValueError; otherwise the read continues below the chosen header |
| ReadSummary.BlockTableStats | integration_FP/read_summary.py:48-118 | the table built from a written block, padded with empty columns, yields the written values as the three triples when each target name is written once |
| ReadSummary.ReadPlacedBlock | integration_FP/read_summary.py:8-118 | a block found at its title row, in a sheet any number of empty columns wider than the block, reads back to the values written in it when each target name is written once |
| ReadSummary.WrittenBlockReadsBack | integration_FP/src/fetch_refinitiv_data.py:226-237 | a summary block in the writer's layout, after rows without its title, before a row with an empty first cell and with empty columns to its right, reads back as the median/p10/p90 written under each target metric, when each target name is written once |
| Brokers.Replace | integration_FP/src/fetch_refinitiv_data.py:131 | `Series.replace(key, value)` replaces a whole value equal to the key and leaves every other value alone |
| Brokers.LookupMeaning | integration_FP/src/fetch_refinitiv_data.py:53-86 | the table lookup returns the value of the first entry keyed by the name, and fails exactly when no key equals it |
| Brokers.ReplaceAllNoKey | integration_FP/src/fetch_refinitiv_data.py:130-131 | a name equal to no key passes the whole replace loop unchanged |
| Brokers.ReplaceAllIsLookup | integration_FP/src/fetch_refinitiv_data.py:130-131 | when no value is also a key, the chain of replaces is a single dictionary lookup |
| Brokers.OverridesSound | integration_FP/src/fetch_refinitiv_data.py:53-86 | in the source's table no broker name is a key, and every broker name is upper-case and stripped |
| Brokers.Normalize | integration_FP/src/fetch_refinitiv_data.py:129 | `.astype(str).str.upper().str.strip()` leaves an upper-case string with no whitespace at its ends |
| Brokers.OverrideMeaning | integration_FP/src/fetch_refinitiv_data.py:130-131 | a name that is a key becomes its table value; any other name is unchanged |
| Brokers.ApplyWith | integration_FP/src/fetch_refinitiv_data.py:127-132 | without a `Broker Name` column the frame is returned as is; otherwise only that column changes, to object dtype, each cell normalised and overridden |
| Brokers.BrokerCellStable | integration_FP/src/fetch_refinitiv_data.py:129-131 | an overridden cell is an upper-case stripped string, and overriding it again leaves it unchanged |
| Brokers.BrokerNamesClean | integration_FP/src/fetch_refinitiv_data.py:127-132 | after the overrides every broker cell is an upper-case, stripped string |
| Brokers.ApplyIdempotent | integration_FP/src/fetch_refinitiv_data.py:127-132 | for a table in which no value is a key, applying the overrides twice is applying them once |
| Brokers.OverridesIdempotent | integration_FP/src/fetch_refinitiv_data.py:53-132 | the source's overrides are idempotent and leave upper-case broker names |
| Brokers.BmoAt | integration_FP/src/fetch_refinitiv_data.py:71-72 | BMO Capital's masked name is found at its own entry, not at BofA's shorter key |
| Brokers.BofaAt | integration_FP/src/fetch_refinitiv_data.py:71 | BofA's masked name "PERMISSION DENIED 32" is found at its own entry and maps to BOFA |
| Brokers.ApplyStable | integration_FP/src/fetch_refinitiv_data.py:127-132 | a frame whose broker column is already of object dtype and holds only names the overrides leave alone is returned unchanged |
| Brokers.MaskedNameResolved | integration_FP/src/fetch_refinitiv_data.py:53-131 | "PERMISSION DENIED 32848" becomes "BMO CAPITAL", not "BOFA" plus a suffix |
| Brokers.PrefixKeyResolved | integration_FP/src/fetch_refinitiv_data.py:53-131 | "PERMISSION DENIED 32" becomes "BOFA" |
| Consolidate.DefaultKeys | integration_FP/src/fetch_refinitiv_data.py:95-98 | the default keys are Ticker and Broker Name, followed by Estimate Date exactly when the frame has it; the keys are distinct |
| Consolidate.Missing | integration_FP/src/fetch_refinitiv_data.py:100 | the missing keys are exactly the keys the frame lacks |
| Consolidate.ConsolidateWith | integration_FP/src/fetch_refinitiv_data.py:94-125 | ValueError exactly when some key column is absent, or when an explicit empty key list meets a frame with rows; never any other error |
| Consolidate.Present | integration_FP/src/fetch_refinitiv_data.py:110 | the count of non-missing cells is zero exactly when every cell is missing |
| Consolidate.Coerced | integration_FP/src/fetch_refinitiv_data.py:109 | `to_numeric(errors='coerce')` makes every cell numeric and keeps the value each cell converts to |
| Consolidate.Convert | integration_FP/src/fetch_refinitiv_data.py:106-112 | a column ends up numeric exactly when it was, or when more than half of it parses; the name, the length and the converted values are kept |
| Consolidate.ConvertAll | integration_FP/src/fetch_refinitiv_data.py:106-114 | every column is converted in place; the labels are kept, and so is well-formedness |
| Consolidate.Leaders | integration_FP/src/fetch_refinitiv_data.py:124 | the groups are the rows that first show each complete key, in increasing row order |
| Consolidate.Members | integration_FP/src/fetch_refinitiv_data.py:124 | a group's rows are exactly the rows with its key, in row order |
| Consolidate.FirstPresent | integration_FP/src/fetch_refinitiv_data.py:120-122 | `dropna().iloc[0]` / `'first'`: the earliest present cell, missing exactly when all are missing |
| Consolidate.Aggregated | integration_FP/src/fetch_refinitiv_data.py:119-124 | an aggregated column keeps its label and dtype and holds, per group, the first present cell among the group's rows |
| Consolidate.AggregatedColumnsMeaning | integration_FP/src/fetch_refinitiv_data.py:116-122 | the aggregation dictionary lists every non-key column exactly once, numeric columns before metadata columns |
| Consolidate.LeadersDistinct | integration_FP/src/fetch_refinitiv_data.py:124 | no two groups share a key |
| Consolidate.LeadersCover | integration_FP/src/fetch_refinitiv_data.py:124 | every row with a complete key belongs to some group |
| Consolidate.FirstPicked | integration_FP/src/fetch_refinitiv_data.py:120 | the first present cell among increasing rows is the cell of the least row that has one |
| Consolidate.FirstOfGroup | integration_FP/src/fetch_refinitiv_data.py:119-124 | a group's value in a column is the cell of its first row that has one, and missing when none has |
| Consolidate.GroupedKeys | integration_FP/src/fetch_refinitiv_data.py:124 | the grouped frame has one row per distinct complete key of the input |
| Consolidate.GroupedValues | integration_FP/src/fetch_refinitiv_data.py:119-124 | each aggregated value of the grouped frame is the first present value of its column among the rows with that row's key |
| Consolidate.ConsolidatedRows | integration_FP/src/fetch_refinitiv_data.py:94-125 | the result has one row per distinct complete key of the converted input; each other value is the first present value the key's rows have in the input column of that name |
| Consolidate.ColumnSources | integration_FP/src/fetch_refinitiv_data.py:116-124 | the result's columns are the keys in key order, then the aggregated input columns with their post-conversion dtypes |
| Consolidate.ConsolidatedColumns | integration_FP/src/fetch_refinitiv_data.py:104-124 | keys first, then every other input column exactly once; numeric ones before the rest; a column numeric exactly when it was or more than half of it parses |
| ForecastSummary.DropNaKeeps | integration_FP/src/fetch_refinitiv_data.py:287 | `dropna()` keeps every present cell, in order and as often as it occurs, and nothing else |
| ForecastSummary.AsFloats | integration_FP/src/fetch_refinitiv_data.py:288-292 | `astype(float)` fails exactly when some cell does not convert; otherwise each cell's float, in order |
| ForecastSummary.NonZeroKeeps | integration_FP/src/fetch_refinitiv_data.py:298 | `values[values != 0]` keeps every value other than zero (NaN and infinities included), in order and as often as it occurs |
| ForecastSummary.UnparsableMeaning | integration_FP/src/fetch_refinitiv_data.py:288-292 | converting the present cells fails exactly when one of them does not convert |
| ForecastSummary.AllZeroMeaning | integration_FP/src/fetch_refinitiv_data.py:297-301 | no non-zero value remains exactly when every present cell converts to zero |
| ForecastSummary.WrittenIsStatistic | integration_FP/src/fetch_refinitiv_data.py:239-263 | a written cell is None exactly when a present cell does not convert or every present value is zero; otherwise it is the statistic of the non-zero estimates |
| ForecastSummary.ReturnedIsScaled | integration_FP/src/fetch_refinitiv_data.py:286-316 | every returned value is the written one, multiplied by 100 for a Margin or Dividend Yield metric |
| ForecastSummary.ReturnedValue | integration_FP/src/fetch_refinitiv_data.py:286-316 | the returned statistic is None exactly when a present cell does not convert or no present value is non-zero |
| ForecastSummary.ZerosIgnored | integration_FP/src/fetch_refinitiv_data.py:249-252 | inserting a zero or a missing cell anywhere changes neither the written nor the returned statistic |
| ForecastSummary.ReturnedIsScaledWritten | integration_FP/src/fetch_refinitiv_data.py:311-313 | the returned statistic is the written one, multiplied by 100 for a Margin or Dividend Yield metric |
| ForecastSummary.PresentKeeps | integration_FP/src/fetch_refinitiv_data.py:204 | `valid_cols` is the display columns the frame has, in display order |
| ForecastSummary.Unique | integration_FP/src/fetch_refinitiv_data.py:187 | `unique()` lists every ticker value exactly once, in order of first appearance |
| ForecastSummary.TickerRows | integration_FP/src/fetch_refinitiv_data.py:190 | a ticker's rows, in increasing order, are exactly those whose ticker cell equals it; a missing ticker matches no row |
| ForecastSummary.MetricCells | integration_FP/src/fetch_refinitiv_data.py:287 | the metric's cells in the ticker's rows, or nothing when the frame lacks the metric |
| ForecastSummary.ReturnedSummary | integration_FP/src/fetch_refinitiv_data.py:283-317 | rows Median, 10th and 90th Percentile; the cell of each metric is None when the ticker's cells have no statistic, otherwise that statistic of the non-zero estimates, in percent for margins and yields |
| ForecastSummary.WrittenSummary | integration_FP/src/fetch_refinitiv_data.py:196-263 | the sheet's three statistic rows: a metric is written exactly when it is one of the display columns and the frame has it (`valid_cols`), otherwise its cell stays empty; a written cell is None when the ticker's cells have no statistic, and that statistic of the non-zero estimates otherwise |
| ForecastSummary.SummariesAgree | integration_FP/src/fetch_refinitiv_data.py:239-316 | for each metric the sheet shows, the returned value is the written one, scaled to percent for margins and yields; a metric the sheet skips has an empty written cell |
| ForecastSummary.Summaries | integration_FP/src/fetch_refinitiv_data.py:278-324 | KeyError exactly when there is no Ticker column; otherwise one summary per distinct ticker value, in order of first appearance, each the returned summary of that ticker |

## Left out

- Refinitiv access is left out: the session, `rd.get_data`, the per-metric fetchers and the module-level script of `fetch_refinitiv_data.py`. All are network I/O.
- Excel loading and writing (`pd.read_excel`, openpyxl) is left out, and so are CSV export and every `print`. These are file and console I/O. The reader starts from the loaded grid of cells.
- The writer's layout is left out: the forecast panel, row counters, gaps and the `0.0%` number format. So is the `Forecast Panel` entry of the returned dictionary, which is only a column selection. Only the summary block the reader consumes is modelled (`ReadSummary.Block`).
- `format_dates`, `config.py` and `run_analysis.py` are left out. They are date formatting and wiring. Also, `config.py` reads a workbook at import, and the simulator it calls is not part of this model.
- Floating-point rounding, overflow and the sign of zero are not modelled. Doubles are IEEE values on the extended reals.
- The numeric library routines are parameters, not implementations: fractional power, `Series.quantile`, brentq, `np.median`, `np.percentile`, `str()` of a float and the float parsers. Only the laws a lemma needs are assumed, as preconditions.
- Tsr.ComputeTsr: `requires ScalarsDefined`. On plain Python floats the anchor arithmetic raises ZeroDivisionError for a zero horizon, EV0 or S0, and for a zero S1 under a negative horizon (zero to a negative power). It turns complex for a negative S1/S0 when `1/years` is not a whole number. The model excludes exactly those inputs rather than modelling the exception; a zero S1 with a positive horizon is modelled.
- Tsr.Transform: `requires ScalarsDefined`, for the same reason.
- Goals.SolveOne: a requested probability, and `tol`, are reals, so a NaN probability cannot be expressed. For NaN, `tsr_s.quantile(1 - p)` at src/goals.py line 37 raises `ValueError` in pandas, and that case is not modelled.
- Consolidate.Leaders: groups are listed in order of first appearance. pandas `groupby` sorts them by key, and that ordering is library behaviour not modelled. The contracts state which rows exist, not their order.
- Consolidate.AggregatedColumns: key columns are kept out of the aggregation dictionary. In the source, a numeric key column is also listed among `numeric_cols`. What pandas then does with an aggregation of a grouping key is library behaviour not modelled.
- Consolidate.FirstPresent: pandas `'first'` on metadata columns is modelled as the first non-missing value, the same rule as the numeric lambda.
- The bare `except: pass` around `to_numeric(errors='coerce')` is left out. With coercion on, the model treats that call as not raising.
- Cells: booleans, dates and other Python objects are not modelled. A missing cell renders as "nan" whether it was None or NaN.
- Text.Upper: case mapping covers ASCII letters only. Python's full Unicode case mapping is not modelled.
- Text.Lower: likewise ASCII letters only, so the case-insensitive statistic match is exact only for ASCII labels.
- ReadSummary.SafeGet: a statistic label that sits on more than one collected row makes pandas' `.at` return a Series of all those values. The model reads the first such row.
- ReadSummary.MakeTable: a header row with two cells equal to `Statistic` is indexed by the first of them. What pandas' `set_index` does with a repeated label is not modelled.
- Consolidate.ConsolidateWith: a key list that names a column twice is grouped as given. What pandas' `groupby` and `reset_index` do with a repeated key is not modelled.
- Frames.WellFormed: every frame is assumed to have distinct column labels. Duplicate labels make pandas return a frame, not a series, for `df[name]`.
- The in-place mutation of the caller's frame by `apply_broker_overrides` and `consolidate_refinitiv_data` is left out. The model returns the new frame.
- ForecastSummary.WrittenValue: the `else: value = None` branch after the three statistic names is not modelled. The statistic is one of exactly three values, so the branch cannot be reached.

## Edge behaviour of the goal-seek

These are readings of src/goals.py as written; the model follows them.

- Three exceptions escape `find_equal_p`. Only a `ValueError` raised inside the `try` of lines 40-49 becomes `p_in = NaN`.
  - A requested probability outside [0, 1] raises. Its target quantile is taken at line 37, before the `try` (`Goals.SolveOne`).
  - Any exception from brentq other than `ValueError` propagates past the `except ValueError` of line 48 (`Goals.SolveOneRaises`).
  - An empty request list builds an empty frame, and `set_index("p_tsr")` at line 75 raises `KeyError` (`Goals.FindEqualP`).
- The bracket test at line 44 rejects only NaN ends and `fa * fb > 0`. The comment at line 45 calls the rejected case "No valid solution". So a zero at either end, where `fa * fb == 0`, is accepted and handed to brentq (`Goals.BracketedMeaning`).
- When `p_in` is NaN, lines 51-53 set the thresholds, market capitalisation and share price to NaN, as the comment at line 52 says. The row still carries `TSR` = target (line 71) and is keyed by `p` (lines 62 and 75) (`Goals.ResultRow`).
- When the drivers' quantiles are the same at both ends, `fa == fb`. Line 44 then rejects the bracket unless the target is hit exactly (`Goals.DegenerateDriversRarelySolvable`).
