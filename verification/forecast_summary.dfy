/** The summary statistics of `create_multi_metric_forecast_summary`: per
    ticker and metric, the median and the 10th and 90th percentiles of the
    brokers' non-zero estimates, both as written to the sheet and as
    returned, where margins and yields are scaled to percent. */
module ForecastSummary {
  import opened Outcomes
  import opened Numbers
  import opened Text
  import opened Cells
  import opened Frames
  import Consolidate
  import Brokers
  import opened Search

  /** The rows of the summary table, in `stats_measures` order. */
  datatype Stat = Median | Percentile10 | Percentile90

  const StatsMeasures: seq<Stat> := [Median, Percentile10, Percentile90]

  function StatName(s: Stat): string {
    match s
    case Median => "Median"
    case Percentile10 => "10th Percentile"
    case Percentile90 => "90th Percentile"
  }

  /** `np.median` and `np.percentile(values, q)`, left abstract. */
  datatype Numpy = Numpy(median: seq<Num> -> Num, percentile: (seq<Num>, real) -> Num)

  /** The statistic a summary row asks for. */
  function Measure(np: Numpy, s: Stat, xs: seq<Num>): Num {
    match s
    case Median => np.median(xs)
    case Percentile10 => np.percentile(xs, 10.0)
    case Percentile90 => np.percentile(xs, 90.0)
  }

  /** A cell that is not missing. */
  predicate IsPresent(c: Cell) {
    !c.Blank?
  }

  /** `dropna()`: the cells that are not missing, in their order, each
      occurrence once. */
  function DropNa(cells: seq<Cell>): (d: seq<Cell>)
    ensures |d| <= |cells|
    ensures forall c :: c in d <==> c in cells && !c.Blank?
    decreases |cells|
  {
    if |cells| == 0 then []
    else DropNa(cells[..|cells| - 1]) + if cells[|cells| - 1].Blank? then [] else [cells[|cells| - 1]]
  }

  /** `dropna()` keeps every present cell, in order and with its
      multiplicity, and nothing else. */
  lemma {:induction false} DropNaKeeps(cells: seq<Cell>)
    ensures DropNa(cells) == Kept(cells, IsPresent)
  {
    if |cells| > 0 {
      DropNaKeeps(cells[..|cells| - 1]);
      KeptSnoc(cells, IsPresent);
    }
  }

  /** `astype(float)` on the whole series: None when any cell fails to
      convert. */
  function AsFloats(conv: Conv, cells: seq<Cell>): (r: Option<seq<Num>>)
    ensures r.None? <==> exists k :: 0 <= k < |cells| && AsFloat(conv, cells[k]).None?
    ensures r.Some? ==> |r.value| == |cells| && forall k :: 0 <= k < |cells| ==> AsFloat(conv, cells[k]) == Some(r.value[k])
    decreases |cells|
  {
    if |cells| == 0 then Some([])
    else
      var front := AsFloats(conv, cells[..|cells| - 1]);
      var last := AsFloat(conv, cells[|cells| - 1]);
      assert forall k :: 0 <= k < |cells| - 1 ==> cells[..|cells| - 1][k] == cells[k];
      if front.None? || last.None? then None else Some(front.value + [last.value])
  }

  /** `values[values != 0]`: NaN and the infinities are not zero, so they
      stay. */
  function NonZero(xs: seq<Num>): (ys: seq<Num>)
    ensures |ys| <= |xs|
    ensures forall k :: 0 <= k < |ys| ==> ys[k] != Fin(0.0) && ys[k] in xs
    ensures forall x :: x in xs && x != Fin(0.0) ==> x in ys
    decreases |xs|
  {
    if |xs| == 0 then []
    else
      var front := NonZero(xs[..|xs| - 1]);
      assert xs == xs[..|xs| - 1] + [xs[|xs| - 1]];
      front + if xs[|xs| - 1] == Fin(0.0) then [] else [xs[|xs| - 1]]
  }

  predicate IsNonZero(x: Num) {
    x != Fin(0.0)
  }

  /** The zero filter keeps every non-zero value, in order and with its
      multiplicity, which the median and the percentiles depend on. */
  lemma {:induction false} NonZeroKeeps(xs: seq<Num>)
    ensures NonZero(xs) == Kept(xs, IsNonZero)
  {
    if |xs| > 0 {
      NonZeroKeeps(xs[..|xs| - 1]);
      KeptSnoc(xs, IsNonZero);
    }
  }

  /** A metric shown as a percentage: its name contains "Margin" or
      "Dividend Yield". */
  predicate IsPercent(metric: string) {
    Contains("Margin", metric) || Contains("Dividend Yield", metric)
  }

  /** A summary cell as the sheet receives it: None when the values do not
      all convert or none of them is non-zero, the statistic of the
      non-zero ones otherwise. */
  function WrittenValue(conv: Conv, np: Numpy, s: Stat, cells: seq<Cell>): Option<Num> {
    match AsFloats(conv, DropNa(cells))
    case None => None
    case Some(values) =>
      var filtered := NonZero(values);
      if |filtered| == 0 then None else Some(Measure(np, s, filtered))
  }

  /** A summary cell as the returned frame holds it: the same rule, with the
      empty series caught first, and the statistic multiplied by 100 for a
      percentage metric. */
  function ReturnedValue(conv: Conv, np: Numpy, s: Stat, metric: string, cells: seq<Cell>): (r: Option<Num>)
    ensures r.None? <==> NoStatistic(conv, cells)
  {
    NoStatisticMeaning(conv, cells);
    match AsFloats(conv, DropNa(cells))
    case None => None
    case Some(values) =>
      if |values| == 0 then None
      else
        var filtered := NonZero(values);
        if |filtered| == 0 then None
        else
          var value := Measure(np, s, filtered);
          Some(if IsPercent(metric) then Mul(value, Fin(100.0)) else value)
  }

  /** The non-zero floats of the present cells, when they all convert. */
  function Estimates(conv: Conv, cells: seq<Cell>): seq<Num> {
    match AsFloats(conv, DropNa(cells))
    case None => []
    case Some(values) => NonZero(values)
  }

  /** What a summary cell stands for: nothing when a present cell does not
      convert or no present cell is non-zero, otherwise the statistic of the
      non-zero estimates. */
  function Statistic(conv: Conv, np: Numpy, s: Stat, cells: seq<Cell>): Option<Num> {
    if NoStatistic(conv, cells) then None else Some(Measure(np, s, Estimates(conv, cells)))
  }

  /** The value written to the sheet is the statistic the cells stand for. */
  lemma WrittenIsStatistic(conv: Conv, np: Numpy)
    ensures forall s, cells :: WrittenValue(conv, np, s, cells) == Statistic(conv, np, s, cells)
  {
    forall s, cells ensures WrittenValue(conv, np, s, cells) == Statistic(conv, np, s, cells) {
      NoStatisticMeaning(conv, cells);
    }
  }

  /** A present cell that `float()` rejects. */
  predicate Unparsable(conv: Conv, cells: seq<Cell>) {
    exists k :: 0 <= k < |cells| && !cells[k].Blank? && AsFloat(conv, cells[k]).None?
  }

  /** Every present cell converts to zero (or there is none). */
  predicate AllZero(conv: Conv, cells: seq<Cell>) {
    forall k :: 0 <= k < |cells| && !cells[k].Blank? ==> AsFloat(conv, cells[k]) == Some(Fin(0.0))
  }

  /** The statistic is None exactly when a present cell does not convert or
      no present cell is non-zero. */
  predicate NoStatistic(conv: Conv, cells: seq<Cell>) {
    Unparsable(conv, cells) || AllZero(conv, cells)
  }

  /** `astype(float)` of the present cells fails exactly when one of them
      does not convert. */
  lemma UnparsableMeaning(conv: Conv, cells: seq<Cell>)
    ensures AsFloats(conv, DropNa(cells)).None? <==> Unparsable(conv, cells)
  {
    var d := DropNa(cells);
    if Unparsable(conv, cells) {
      var k :| 0 <= k < |cells| && !cells[k].Blank? && AsFloat(conv, cells[k]).None?;
      assert cells[k] in d;
    } else {
      forall k | 0 <= k < |d| ensures AsFloat(conv, d[k]).Some? {
        assert d[k] in cells;
      }
    }
  }

  /** Once they convert, no present value is non-zero exactly when every
      present cell converts to zero. */
  lemma AllZeroMeaning(conv: Conv, cells: seq<Cell>)
    requires AsFloats(conv, DropNa(cells)).Some?
    ensures |NonZero(AsFloats(conv, DropNa(cells)).value)| == 0 <==> AllZero(conv, cells)
  {
    var d := DropNa(cells);
    var values := AsFloats(conv, d).value;
    if |NonZero(values)| == 0 {
      forall k | 0 <= k < |cells| && !cells[k].Blank? ensures AsFloat(conv, cells[k]) == Some(Fin(0.0)) {
        assert cells[k] in d;
        var i :| 0 <= i < |d| && d[i] == cells[k];
        assert values[i] in values;
      }
    } else {
      var v := NonZero(values)[0];
      var i :| 0 <= i < |values| && values[i] == v;
      assert d[i] in cells;
      var k :| 0 <= k < |cells| && cells[k] == d[i];
    }
  }

  lemma NoStatisticMeaning(conv: Conv, cells: seq<Cell>)
    ensures AsFloats(conv, DropNa(cells)).None? <==> Unparsable(conv, cells)
    ensures AsFloats(conv, DropNa(cells)).Some? ==>
              (|NonZero(AsFloats(conv, DropNa(cells)).value)| == 0 <==> AllZero(conv, cells))
  {
    UnparsableMeaning(conv, cells);
    if AsFloats(conv, DropNa(cells)).Some? {
      AllZeroMeaning(conv, cells);
    }
  }

  lemma {:induction false} DropNaAppend(a: seq<Cell>, b: seq<Cell>)
    ensures DropNa(a + b) == DropNa(a) + DropNa(b)
    decreases |b|
  {
    if |b| > 0 {
      var b' := b[..|b| - 1];
      assert (a + b)[..|a + b| - 1] == a + b';
      DropNaAppend(a, b');
    } else {
      assert a + b == a;
    }
  }

  lemma {:induction false} AsFloatsAppend(conv: Conv, a: seq<Cell>, b: seq<Cell>)
    ensures var r := AsFloats(conv, a + b);
            && (r.Some? <==> AsFloats(conv, a).Some? && AsFloats(conv, b).Some?)
            && (r.Some? ==> r.value == AsFloats(conv, a).value + AsFloats(conv, b).value)
    decreases |b|
  {
    if |b| > 0 {
      var b' := b[..|b| - 1];
      assert (a + b)[..|a + b| - 1] == a + b';
      AsFloatsAppend(conv, a, b');
      if AsFloats(conv, a + b).Some? {
        assert AsFloats(conv, a + b).value == AsFloats(conv, a + b').value + [AsFloats(conv, a + b).value[|a + b| - 1]];
      }
    } else {
      assert a + b == a;
    }
  }

  lemma {:induction false} NonZeroAppend(a: seq<Num>, b: seq<Num>)
    ensures NonZero(a + b) == NonZero(a) + NonZero(b)
    decreases |b|
  {
    if |b| > 0 {
      var b' := b[..|b| - 1];
      assert (a + b)[..|a + b| - 1] == a + b';
      NonZeroAppend(a, b');
    } else {
      assert a + b == a;
    }
  }

  lemma SplitDropNa(cells: seq<Cell>, k: nat, z: Cell)
    requires k <= |cells|
    ensures DropNa(cells) == DropNa(cells[..k]) + DropNa(cells[k..])
    ensures DropNa(cells[..k] + [z] + cells[k..]) == DropNa(cells[..k]) + DropNa([z]) + DropNa(cells[k..])
  {
    var x, y := cells[..k], cells[k..];
    assert cells == x + y;
    DropNaAppend(x, y);
    DropNaAround(x, z, y);
  }

  lemma DropNaAround(x: seq<Cell>, z: Cell, y: seq<Cell>)
    ensures DropNa(x + [z] + y) == DropNa(x) + DropNa([z]) + DropNa(y)
  {
    DropNaAppend(x + [z], y);
    DropNaAppend(x, [z]);
  }

  lemma ZeroCellFloats(conv: Conv, z: Cell)
    requires z.Blank? || z == Number(0.0)
    ensures AsFloats(conv, DropNa([z])).Some? && NonZero(AsFloats(conv, DropNa([z])).value) == []
  {
    assert [z][..0] == [];
    if !z.Blank? {
      assert DropNa([z]) == [z];
      assert [z][..0] == [];
      assert AsFloats(conv, [z]).value == [Fin(0.0)];
      assert [Fin(0.0)][..0] == [];
    }
  }

  lemma NonZeroAround(vx: seq<Num>, vz: seq<Num>, vy: seq<Num>)
    requires NonZero(vz) == []
    ensures NonZero(vx + vz + vy) == NonZero(vx + vy)
  {
    NonZeroAppend(vx, vy);
    NonZeroAppend(vx + vz, vy);
    NonZeroAppend(vx, vz);
  }

  lemma FloatsAround(conv: Conv, dx: seq<Cell>, dz: seq<Cell>, dy: seq<Cell>)
    requires AsFloats(conv, dz).Some? && NonZero(AsFloats(conv, dz).value) == []
    ensures var a, b := AsFloats(conv, dx + dy), AsFloats(conv, dx + dz + dy);
            && (a.Some? <==> b.Some?)
            && (a.Some? ==> NonZero(a.value) == NonZero(b.value) && (|a.value| == 0 ==> |NonZero(b.value)| == 0))
  {
    AsFloatsAppend(conv, dx, dy);
    AsFloatsAppend(conv, dx + dz, dy);
    AsFloatsAppend(conv, dx, dz);
    if AsFloats(conv, dx).Some? && AsFloats(conv, dy).Some? {
      NonZeroAround(AsFloats(conv, dx).value, AsFloats(conv, dz).value, AsFloats(conv, dy).value);
    }
  }

  /** The cells a statistic is taken from, split around position `k`, with
      a zero or a missing cell inserted there. */
  lemma InsertedCells(conv: Conv, cells: seq<Cell>, k: nat, z: Cell)
    requires k <= |cells| && (z.Blank? || z == Number(0.0))
    ensures var a, b := AsFloats(conv, DropNa(cells)), AsFloats(conv, DropNa(cells[..k] + [z] + cells[k..]));
            && (a.Some? <==> b.Some?)
            && (a.Some? ==> NonZero(a.value) == NonZero(b.value) && (|a.value| == 0 ==> |NonZero(b.value)| == 0))
  {
    SplitDropNa(cells, k, z);
    ZeroCellFloats(conv, z);
    FloatsAround(conv, DropNa(cells[..k]), DropNa([z]), DropNa(cells[k..]));
  }

  /** Zeros and missing values do not move a statistic: inserting either
      anywhere leaves the written and the returned value as they were. */
  lemma ZerosIgnored(conv: Conv, np: Numpy, s: Stat, metric: string, cells: seq<Cell>, k: nat, z: Cell)
    requires k <= |cells| && (z.Blank? || z == Number(0.0))
    ensures WrittenValue(conv, np, s, cells[..k] + [z] + cells[k..]) == WrittenValue(conv, np, s, cells)
    ensures ReturnedValue(conv, np, s, metric, cells[..k] + [z] + cells[k..]) == ReturnedValue(conv, np, s, metric, cells)
  {
    InsertedCells(conv, cells, k, z);
    SameNonZeroSameValue(conv, np, s, metric, cells, cells[..k] + [z] + cells[k..]);
  }

  /** Two cell lists that parse alike and keep the same non-zero values
      give the same written and returned statistic. */
  lemma SameNonZeroSameValue(conv: Conv, np: Numpy, s: Stat, metric: string, cells: seq<Cell>, other: seq<Cell>)
    requires var a, b := AsFloats(conv, DropNa(cells)), AsFloats(conv, DropNa(other));
             && (a.Some? <==> b.Some?)
             && (a.Some? ==> NonZero(a.value) == NonZero(b.value) && (|a.value| == 0 ==> |NonZero(b.value)| == 0))
    ensures WrittenValue(conv, np, s, other) == WrittenValue(conv, np, s, cells)
    ensures ReturnedValue(conv, np, s, metric, other) == ReturnedValue(conv, np, s, metric, cells)
  {
  }

  /** The returned value is the written one, scaled to percent for a
      margin or a yield. */
  lemma ReturnedIsScaledWritten(conv: Conv, np: Numpy, s: Stat, metric: string, cells: seq<Cell>)
    ensures var w := WrittenValue(conv, np, s, cells);
            ReturnedValue(conv, np, s, metric, cells)
              == if w.None? then None else Some(if IsPercent(metric) then Mul(w.value, Fin(100.0)) else w.value)
  {
  }

  /** `display_cols` for a period label such as "CY2026". */
  function DisplayColumns(poa: string): seq<string> {
    [ Consolidate.TickerColumn, Brokers.BrokerColumn, "Analyst Name",
      "Revenue " + poa, "EBITDA " + poa, "Price", "Net Debt " + poa,
      "Shares Outstanding " + poa, "EBITDA Margin " + poa, "EV/EBITDA " + poa,
      poa + " Dividend Yield", "EBITDA (12M Fwd)" ]
  }

  /** Whether a label names a column of the frame. */
  function InFrame(f: Frame): string -> bool {
    c => Has(f, c)
  }

  /** The labels of `wanted` that name a column of the frame, in the order
      of `wanted`. */
  function Present(f: Frame, wanted: seq<string>): (v: seq<string>)
    ensures forall c :: c in v <==> c in wanted && Has(f, c)
    decreases |wanted|
  {
    if |wanted| == 0 then []
    else Present(f, wanted[..|wanted| - 1]) + if Has(f, wanted[|wanted| - 1]) then [wanted[|wanted| - 1]] else []
  }

  /** `valid_cols` keeps the display order: the wanted labels the frame
      has, in the order they are wanted. */
  lemma {:induction false} PresentKeeps(f: Frame, wanted: seq<string>)
    ensures Present(f, wanted) == Kept(wanted, InFrame(f))
  {
    if |wanted| > 0 {
      PresentKeeps(f, wanted[..|wanted| - 1]);
      KeptSnoc(wanted, InFrame(f));
    }
  }

  /** `valid_cols`: the display columns the frame has. */
  function ValidCols(f: Frame, poa: string): seq<string> {
    Present(f, DisplayColumns(poa))
  }

  /** `df[col].unique()`: the distinct cells in order of first appearance;
      the missing value counts once. */
  function Unique(cells: seq<Cell>): (u: seq<Cell>)
    ensures forall c :: c in u <==> c in cells
    ensures forall a, b :: 0 <= a < b < |u| ==> u[a] != u[b]
    ensures forall a, b :: 0 <= a < b < |u| ==> FirstSeen(cells, u[a]) < FirstSeen(cells, u[b])
    decreases |cells|
  {
    if |cells| == 0 then []
    else
      var init, last := cells[..|cells| - 1], cells[|cells| - 1];
      var front := Unique(init);
      assert cells == init + [last];
      forall c | c in init ensures FirstSeen(cells, c) == FirstSeen(init, c) {
        FirstSeenPrefix(init, last, c);
      }
      if last in front then front
      else
        FirstSeenNew(init, last);
        front + [last]
  }

  /** The position where `c` first occurs in `cells`. */
  function FirstSeen(cells: seq<Cell>, c: Cell): nat
    requires c in cells
  {
    IndexOf(cells, c).value
  }

  /** Appending leaves the first occurrence of an earlier element alone. */
  lemma FirstSeenPrefix(init: seq<Cell>, last: Cell, c: Cell)
    requires c in init
    ensures FirstSeen(init + [last], c) == FirstSeen(init, c)
  {
    var cells := init + [last];
    assert cells[FirstSeen(init, c)] == c;
  }

  /** An element new to `init` first occurs after every element of `init`. */
  lemma FirstSeenNew(init: seq<Cell>, last: Cell)
    requires last !in init
    ensures FirstSeen(init + [last], last) == |init|
    ensures forall c :: c in init ==> FirstSeen(init + [last], c) < |init|
  {
    var cells := init + [last];
    forall c | c in init ensures FirstSeen(cells, c) < |init| {
      FirstSeenPrefix(init, last, c);
    }
    assert cells[|init|] == last;
  }

  /** The rows of `df[df[col_ticker] == ticker]`. A missing ticker equals
      nothing, not even itself. */
  function TickerRows(f: Frame, ticker: Cell): (rows: seq<nat>)
    requires WellFormed(f) && Has(f, Consolidate.TickerColumn)
    ensures forall k :: 0 <= k < |rows| ==> rows[k] < f.height
    ensures forall a, b :: 0 <= a < b < |rows| ==> rows[a] < rows[b]
    ensures forall r :: 0 <= r < f.height ==>
              (r in rows <==> !ticker.Blank? && Get(f, Consolidate.TickerColumn).cells[r] == ticker)
  {
    var col := Get(f, Consolidate.TickerColumn);
    var p := (r: nat) => r < f.height && !ticker.Blank? && col.cells[r] == ticker;
    assert forall r: nat :: p(r) <==> r < f.height && !ticker.Blank? && col.cells[r] == ticker;
    Where(f.height, p)
  }

  /** `ticker_data.get(metric, pd.Series())`: the metric's cells in the
      ticker's rows, none when the frame has no such column. */
  function MetricCells(f: Frame, rows: seq<nat>, metric: string): (cells: seq<Cell>)
    requires WellFormed(f) && forall k :: 0 <= k < |rows| ==> rows[k] < f.height
    ensures Has(f, metric) ==> cells == Pick(Get(f, metric).cells, rows)
    ensures !Has(f, metric) ==> cells == []
  {
    if Has(f, metric) then Pick(Get(f, metric).cells, rows) else []
  }

  /** One row of a summary table: the statistic's name and one value per
      metric. */
  datatype SummaryRow = SummaryRow(statistic: string, values: seq<Option<Num>>)

  /** The summary table of one ticker as the function returns it. */
  function ReturnedSummary(conv: Conv, np: Numpy, f: Frame, metrics: seq<string>, ticker: Cell): (t: seq<SummaryRow>)
    requires WellFormed(f) && Has(f, Consolidate.TickerColumn)
    ensures |t| == |StatsMeasures|
    ensures forall i :: 0 <= i < |t| ==> t[i].statistic == StatName(StatsMeasures[i]) && |t[i].values| == |metrics|
    ensures forall i, j :: 0 <= i < |t| && 0 <= j < |metrics| ==>
              t[i].values[j] == Scaled(metrics[j], Statistic(conv, np, StatsMeasures[i], MetricCells(f, TickerRows(f, ticker), metrics[j])))
  {
    var rows := TickerRows(f, ticker);
    WrittenIsStatistic(conv, np);
    ReturnedIsScaled(conv, np);
    seq(|StatsMeasures|, i requires 0 <= i < |StatsMeasures| =>
      SummaryRow(StatName(StatsMeasures[i]),
                 seq(|metrics|, j requires 0 <= j < |metrics| =>
                   ReturnedValue(conv, np, StatsMeasures[i], metrics[j], MetricCells(f, rows, metrics[j])))))
  }

  /** The summary table of one ticker as the sheet receives it: a metric
      that is not among `valid_cols` (the display columns the frame has) is
      skipped and its cell stays empty. */
  function WrittenSummary(conv: Conv, np: Numpy, f: Frame, metrics: seq<string>, poa: string, ticker: Cell): (t: seq<SummaryRow>)
    requires WellFormed(f) && Has(f, Consolidate.TickerColumn)
    ensures |t| == |StatsMeasures|
    ensures forall i :: 0 <= i < |t| ==> t[i].statistic == StatName(StatsMeasures[i]) && |t[i].values| == |metrics|
    ensures forall i, j :: 0 <= i < |t| && 0 <= j < |metrics| ==>
              t[i].values[j] == if metrics[j] in DisplayColumns(poa) && Has(f, metrics[j])
                                then Statistic(conv, np, StatsMeasures[i], MetricCells(f, TickerRows(f, ticker), metrics[j]))
                                else None
  {
    var rows := TickerRows(f, ticker);
    var valid := ValidCols(f, poa);
    assert forall c :: c in valid <==> c in DisplayColumns(poa) && Has(f, c);
    WrittenIsStatistic(conv, np);
    seq(|StatsMeasures|, i requires 0 <= i < |StatsMeasures| =>
      SummaryRow(StatName(StatsMeasures[i]),
                 seq(|metrics|, j requires 0 <= j < |metrics| =>
                   if metrics[j] in valid then WrittenValue(conv, np, StatsMeasures[i], MetricCells(f, rows, metrics[j])) else None)))
  }

  /** Every returned value is the written one, scaled. */
  lemma ReturnedIsScaled(conv: Conv, np: Numpy)
    ensures forall s, metric, cells :: ReturnedValue(conv, np, s, metric, cells) == Scaled(metric, WrittenValue(conv, np, s, cells))
  {
    forall s, metric, cells ensures ReturnedValue(conv, np, s, metric, cells) == Scaled(metric, WrittenValue(conv, np, s, cells)) {
      ReturnedIsScaledWritten(conv, np, s, metric, cells);
    }
  }

  /** The percent scaling of the returned table. */
  function Scaled(metric: string, w: Option<Num>): Option<Num> {
    if w.None? then None else Some(if IsPercent(metric) then Mul(w.value, Fin(100.0)) else w.value)
  }

  /** The returned table and the sheet agree: for a metric the sheet shows,
      the returned value is the written one scaled to percent where the
      metric is a margin or a yield; a metric the sheet skips has an empty
      cell there. */
  lemma SummariesAgree(conv: Conv, np: Numpy, f: Frame, metrics: seq<string>, poa: string, ticker: Cell)
    requires WellFormed(f) && Has(f, Consolidate.TickerColumn)
    ensures var returned, written := ReturnedSummary(conv, np, f, metrics, ticker), WrittenSummary(conv, np, f, metrics, poa, ticker);
            forall i, j :: 0 <= i < |StatsMeasures| && 0 <= j < |metrics| ==>
              if metrics[j] in ValidCols(f, poa) then returned[i].values[j] == Scaled(metrics[j], written[i].values[j])
              else written[i].values[j].None?
  {
    var rows := TickerRows(f, ticker);
    forall i, j | 0 <= i < |StatsMeasures| && 0 <= j < |metrics| && metrics[j] in ValidCols(f, poa)
      ensures ReturnedSummary(conv, np, f, metrics, ticker)[i].values[j]
              == Scaled(metrics[j], WrittenSummary(conv, np, f, metrics, poa, ticker)[i].values[j])
    {
      ReturnedIsScaledWritten(conv, np, StatsMeasures[i], metrics[j], MetricCells(f, rows, metrics[j]));
    }
  }

  /** `summary_dfs`: one summary table per distinct ticker, in order of
      first appearance; KeyError when the frame has no ticker column. */
  function Summaries(conv: Conv, np: Numpy, f: Frame, metrics: seq<string>): (r: Result<seq<(Cell, seq<SummaryRow>)>, PyError>)
    requires WellFormed(f)
    ensures r.Err? <==> !Has(f, Consolidate.TickerColumn)
    ensures r.Err? ==> r.error == KeyError
    ensures r.Ok? ==>
              && (forall a, b :: 0 <= a < b < |r.value| ==> r.value[a].0 != r.value[b].0)
              && (forall c :: c in Get(f, Consolidate.TickerColumn).cells <==> exists k :: 0 <= k < |r.value| && r.value[k].0 == c)
              && (forall k :: 0 <= k < |r.value| ==> r.value[k].1 == ReturnedSummary(conv, np, f, metrics, r.value[k].0))
    ensures r.Ok? ==>
              var tickers := Unique(Get(f, Consolidate.TickerColumn).cells);
              |r.value| == |tickers| && forall k :: 0 <= k < |r.value| ==> r.value[k].0 == tickers[k]
  {
    if !Has(f, Consolidate.TickerColumn) then Err(KeyError)
    else
      var tickers := Unique(Get(f, Consolidate.TickerColumn).cells);
      var summarize := (c: Cell) => ReturnedSummary(conv, np, f, metrics, c);
      Ok(Tagged(tickers, summarize))
  }

  /** Each ticker paired with what `g` gives for it, in order. */
  function Tagged(xs: seq<Cell>, g: Cell -> seq<SummaryRow>): (r: seq<(Cell, seq<SummaryRow>)>)
    ensures |r| == |xs|
    ensures forall k :: 0 <= k < |xs| ==> r[k] == (xs[k], g(xs[k]))
    ensures forall a, b :: 0 <= a < b < |xs| && xs[a] != xs[b] ==> r[a].0 != r[b].0
    ensures forall x :: x in xs <==> exists k :: 0 <= k < |r| && r[k].0 == x
  {
    var r := seq(|xs|, k requires 0 <= k < |xs| => (xs[k], g(xs[k])));
    assert forall x :: x in xs ==> exists k :: 0 <= k < |r| && r[k].0 == x by {
      forall x | x in xs ensures exists k :: 0 <= k < |r| && r[k].0 == x {
        var k :| 0 <= k < |xs| && xs[k] == x;
        assert r[k].0 == x;
      }
    }
    r
  }
}
