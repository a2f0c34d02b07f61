/** `read_summary_from_excel` after the sheet has been loaded: locate the
    summary block of one ticker in a grid of cells, resolve its three metric
    columns and read the median, 10th and 90th percentile of each. */
module ReadSummary {
  import opened Numbers
  import opened Outcomes
  import opened Text
  import opened Cells
  import opened Search

  type Row = seq<Cell>

  /** The sheet as loaded without a header row: rows of one common width. */
  datatype Sheet = Sheet(width: nat, rows: seq<Row>)

  predicate WellFormed(g: Sheet) {
    forall i :: 0 <= i < |g.rows| ==> |g.rows[i]| == g.width
  }

  function Min(a: int, b: int): int { if a <= b then a else b }

  function FirstCell(row: Row): Cell {
    if |row| > 0 then row[0] else Blank
  }

  /** The first-column cell of row `i`. */
  function Lead(rows: seq<Row>, i: nat): Cell {
    if i < |rows| then FirstCell(rows[i]) else Blank
  }

  // ---------------------------------------------------------------------------
  // Locating the block

  function Title(ticker: string): string {
    "Summary Statistics - " + ticker
  }

  /** The first row whose first cell is exactly the block title. */
  function TitleRow(g: Sheet, ticker: string): (r: Option<nat>)
    ensures r.Some? ==> r.value < |g.rows| && Lead(g.rows, r.value) == Text(Title(ticker))
    ensures r.Some? ==> forall k :: 0 <= k < r.value ==> Lead(g.rows, k) != Text(Title(ticker))
    ensures r.None? <==> forall k :: 0 <= k < |g.rows| ==> Lead(g.rows, k) != Text(Title(ticker))
  {
    var p := (i: nat) => Lead(g.rows, i) == Text(Title(ticker));
    assert forall i: nat :: p(i) <==> Lead(g.rows, i) == Text(Title(ticker));
    FirstFrom(p, 0, |g.rows|)
  }

  /** Whether the first cell of row `i` mentions "Statistic". */
  predicate HeaderLike(conv: Conv, g: Sheet, i: nat) {
    Contains("Statistic", Render(conv, Lead(g.rows, i)))
  }

  /** The header row: the first of the nine rows after the title that
      mentions "Statistic", or else the row right after the title. */
  function HeaderRow(conv: Conv, g: Sheet, start: nat): (h: nat)
    requires start < |g.rows|
    ensures start < h <= |g.rows|
    ensures var hi := Min(start + 10, |g.rows|);
            || (h < hi && HeaderLike(conv, g, h)
                && forall k :: start < k < h ==> !HeaderLike(conv, g, k))
            || (h == start + 1 && forall k :: start < k < hi ==> !HeaderLike(conv, g, k))
  {
    var p := (i: nat) => HeaderLike(conv, g, i);
    assert forall i: nat :: p(i) <==> HeaderLike(conv, g, i);
    match FirstFrom(p, start + 1, Min(start + 10, |g.rows|))
    case Some(i) => i
    case None => start + 1
  }

  // ---------------------------------------------------------------------------
  // Collecting the statistic rows

  /** Whether a string names one of the three statistics. */
  predicate MentionsStat(s: string) {
    Contains("Median", s) || Contains("10th Percentile", s) || Contains("90th Percentile", s)
  }

  /** A row the scan collects: its first cell is present and names a statistic. */
  predicate IsStatRow(conv: Conv, row: Row) {
    !FirstCell(row).Blank? && MentionsStat(Render(conv, FirstCell(row)))
  }

  /** The statistic rows of `rows`, in order. */
  function Qualifying(conv: Conv, rows: seq<Row>): (out: seq<Row>)
    ensures |out| <= |rows|
  {
    if |rows| == 0 then []
    else
      var last := rows[|rows| - 1];
      Qualifying(conv, rows[..|rows| - 1]) + (if IsStatRow(conv, last) then [last] else [])
  }

  /** The collected rows are exactly the statistic rows of the range. */
  lemma {:induction false} QualifyingMembers(conv: Conv, rows: seq<Row>)
    ensures forall r :: r in Qualifying(conv, rows) <==> r in rows && IsStatRow(conv, r)
  {
    if |rows| > 0 {
      var init := rows[..|rows| - 1];
      QualifyingMembers(conv, init);
      assert rows == init + [rows[|rows| - 1]];
    }
  }

  /** Row `k` ends the scan started at `lo`: its first cell is empty and a
      statistic row has already been collected. */
  predicate StopsAt(conv: Conv, rows: seq<Row>, lo: nat, k: nat) {
    lo <= k < |rows| && Lead(rows, k).Blank? && |Qualifying(conv, rows[lo..k])| > 0
  }

  /** Where the scan of `[lo, hi)` ends. */
  function ScanEnd(conv: Conv, rows: seq<Row>, lo: nat, hi: nat): (e: nat)
    requires lo <= hi <= |rows|
    ensures lo <= e <= hi
    ensures forall k :: lo <= k < e ==> !StopsAt(conv, rows, lo, k)
    ensures e < hi ==> StopsAt(conv, rows, lo, e)
  {
    var p := (k: nat) => StopsAt(conv, rows, lo, k);
    assert forall k: nat :: p(k) <==> StopsAt(conv, rows, lo, k);
    match FirstFrom(p, lo, hi)
    case Some(k) => k
    case None => hi
  }

  /** The rows the scan collects: the statistic rows before its end. */
  function Collected(conv: Conv, rows: seq<Row>, lo: nat, hi: nat): seq<Row>
    requires lo <= hi <= |rows|
  {
    Qualifying(conv, rows[lo..ScanEnd(conv, rows, lo, hi)])
  }

  /** Every collected row is a row of the sheet, so it has the sheet's width. */
  lemma CollectedWidth(conv: Conv, g: Sheet, lo: nat, hi: nat)
    requires WellFormed(g) && lo <= hi <= |g.rows|
    ensures var found := Collected(conv, g.rows, lo, hi);
            forall i :: 0 <= i < |found| ==> |found[i]| == g.width
  {
    var part := g.rows[lo..ScanEnd(conv, g.rows, lo, hi)];
    QualifyingMembers(conv, part);
    assert forall r :: r in part ==> r in g.rows;
    assert forall i :: 0 <= i < |Qualifying(conv, part)| ==> Qualifying(conv, part)[i] in Qualifying(conv, part);
  }

  /** Extending the scanned range by one row extends the collected rows by
      that row exactly when it is a statistic row. */
  lemma QualifyingStep(conv: Conv, rows: seq<Row>, lo: nat, i: nat)
    requires lo <= i < |rows|
    ensures Qualifying(conv, rows[lo..i + 1])
            == Qualifying(conv, rows[lo..i]) + (if IsStatRow(conv, rows[i]) then [rows[i]] else [])
  {
    assert rows[lo..i + 1][..i - lo] == rows[lo..i];
  }

  /** Any end that has no stop before it and a stop at it is the scan's end. */
  lemma ScanEndUnique(conv: Conv, rows: seq<Row>, lo: nat, hi: nat, e: nat)
    requires lo <= e <= hi <= |rows|
    requires forall k :: lo <= k < e ==> !StopsAt(conv, rows, lo, k)
    requires e < hi ==> StopsAt(conv, rows, lo, e)
    ensures ScanEnd(conv, rows, lo, hi) == e
  {
  }

  /** A row the scan does not stop at: the scan goes on past it, keeping it
      exactly when it is a statistic row. */
  lemma ScanPasses(conv: Conv, rows: seq<Row>, lo: nat, i: nat)
    requires lo <= i < |rows|
    requires IsStatRow(conv, rows[i]) || !FirstCell(rows[i]).Blank? || |Qualifying(conv, rows[lo..i])| == 0
    ensures !StopsAt(conv, rows, lo, i)
    ensures Qualifying(conv, rows[lo..i + 1])
            == Qualifying(conv, rows[lo..i]) + (if IsStatRow(conv, rows[i]) then [rows[i]] else [])
  {
    QualifyingStep(conv, rows, lo, i);
  }

  /** A row with an empty first cell after something was kept ends the
      scan: what was kept so far is what is collected. */
  lemma ScanStops(conv: Conv, rows: seq<Row>, lo: nat, i: nat, hi: nat)
    requires lo <= i < hi <= |rows|
    requires forall k :: lo <= k < i ==> !StopsAt(conv, rows, lo, k)
    requires FirstCell(rows[i]).Blank? && |Qualifying(conv, rows[lo..i])| > 0
    ensures Collected(conv, rows, lo, hi) == Qualifying(conv, rows[lo..i])
  {
    assert StopsAt(conv, rows, lo, i);
    ScanEndUnique(conv, rows, lo, hi, i);
  }

  /** The scan as a loop: walk `[lo, hi)`, keep the statistic rows and leave
      at the first row with an empty first cell once something was kept. */
  method CollectRows(conv: Conv, rows: seq<Row>, lo: nat, hi: nat) returns (found: seq<Row>)
    requires lo <= hi <= |rows|
    ensures found == Collected(conv, rows, lo, hi)
  {
    found := [];
    var i := lo;
    while i < hi
      invariant lo <= i <= hi
      invariant found == Qualifying(conv, rows[lo..i])
      invariant forall k :: lo <= k < i ==> !StopsAt(conv, rows, lo, k)
    {
      var first := FirstCell(rows[i]);
      if !first.Blank? && MentionsStat(Render(conv, first)) {
        ScanPasses(conv, rows, lo, i);
        found := found + [rows[i]];
      } else if |found| > 0 && first.Blank? {
        ScanStops(conv, rows, lo, i, hi);
        return;
      } else {
        ScanPasses(conv, rows, lo, i);
      }
      i := i + 1;
    }
    ScanEndUnique(conv, rows, lo, hi, hi);
  }

  // ---------------------------------------------------------------------------
  // The summary table

  /** The collected rows indexed by their "Statistic" column, with the other
      header cells, stripped, as column names. */
  datatype Table = Table(index: seq<Cell>, columns: seq<string>, body: seq<Row>)

  function Drop(row: Row, k: nat): (r: Row)
    requires k < |row|
    ensures |r| == |row| - 1
    ensures forall j :: 0 <= j < |r| ==> r[j] == row[if j < k then j else j + 1]
  {
    row[..k] + row[k + 1..]
  }

  /** The column names of the table indexed by column `k`: the other header
      cells, as strings, stripped. */
  function ColumnNames(conv: Conv, headers: Row, k: nat): (names: seq<string>)
    requires k < |headers|
    ensures |names| == |headers| - 1
    ensures forall j :: 0 <= j < |names| ==>
              names[j] == Strip(Render(conv, headers[if j < k then j else j + 1]))
  {
    var rest := Drop(headers, k);
    seq(|rest|, j requires 0 <= j < |rest| => Strip(Render(conv, rest[j])))
  }

  /** The table built from the header row and the collected rows, indexed
      by column `k`. */
  function MakeTable(conv: Conv, headers: Row, rows: seq<Row>, k: nat): (t: Table)
    requires k < |headers|
    requires forall i :: 0 <= i < |rows| ==> |rows[i]| == |headers|
    ensures Shaped(t) && |t.body| == |rows|
    ensures t.columns == ColumnNames(conv, headers, k)
    ensures forall i :: 0 <= i < |rows| ==> t.index[i] == rows[i][k] && |t.body[i]| == |t.columns|
    ensures forall i, j :: 0 <= i < |rows| && 0 <= j < |t.columns| ==>
              t.body[i][j] == rows[i][if j < k then j else j + 1]
  {
    Table(seq(|rows|, i requires 0 <= i < |rows| => rows[i][k]),
          ColumnNames(conv, headers, k),
          seq(|rows|, i requires 0 <= i < |rows| => Drop(rows[i], k)))
  }

  predicate Shaped(t: Table) {
    |t.index| == |t.body| && forall i :: 0 <= i < |t.body| ==> |t.body[i]| == |t.columns|
  }

  // ---------------------------------------------------------------------------
  // Resolving the three metric columns

  /** The three columns asked for, in the order Revenue, Margin, Multiple. */
  function Targets(poa: string): seq<string> {
    ["Revenue " + poa, "EBITDA Margin " + poa, "EV/EBITDA " + poa]
  }

  /** A column that can stand in for `target`: it mentions the period and
      one of the first two words of the target. */
  predicate Similar(c: string, target: string, poa: string) {
    Contains(poa, c) && exists w :: w in FirstTwoWords(target) && Contains(w, c)
  }

  /** The column used for `target`: itself if present, else the first
      similar column, else none. */
  function ResolveColumn(columns: seq<string>, target: string, poa: string): (r: Option<string>)
    ensures target in columns ==> r == Some(target)
    ensures r.Some? ==> r.value in columns
    ensures r.None? <==> target !in columns && forall c :: c in columns ==> !Similar(c, target, poa)
    ensures target !in columns && r.Some? ==>
              exists j :: 0 <= j < |columns| && columns[j] == r.value && Similar(r.value, target, poa)
                          && forall k :: 0 <= k < j ==> !Similar(columns[k], target, poa)
  {
    if target in columns then Some(target)
    else
      var p := (j: nat) => j < |columns| && Similar(columns[j], target, poa);
      assert forall j: nat :: p(j) <==> j < |columns| && Similar(columns[j], target, poa);
      match FirstFrom(p, 0, |columns|)
      case Some(j) => Some(columns[j])
      case None => None
  }

  /** One resolved column (or none) per target, in target order. */
  function AvailableColumns(columns: seq<string>, poa: string): (cols: seq<Option<string>>)
    ensures |cols| == 3
    ensures forall i :: 0 <= i < 3 ==> cols[i] == ResolveColumn(columns, Targets(poa)[i], poa)
  {
    seq(3, i requires 0 <= i < 3 => ResolveColumn(columns, Targets(poa)[i], poa))
  }

  // ---------------------------------------------------------------------------
  // Reading one value

  /** The first index entry that names `stat`, ignoring case. */
  function PartialMatch(conv: Conv, index: seq<Cell>, stat: string): (r: Option<nat>)
    ensures r.Some? ==> r.value < |index| && Contains(Lower(stat), Lower(Render(conv, index[r.value])))
    ensures r.Some? ==> forall k :: 0 <= k < r.value ==> !Contains(Lower(stat), Lower(Render(conv, index[k])))
    ensures r.None? <==> forall k :: 0 <= k < |index| ==> !Contains(Lower(stat), Lower(Render(conv, index[k])))
  {
    var p := (i: nat) => i < |index| && Contains(Lower(stat), Lower(Render(conv, index[i])));
    assert forall i: nat :: p(i) <==> i < |index| && Contains(Lower(stat), Lower(Render(conv, index[i])));
    FirstFrom(p, 0, |index|)
  }

  /** The row of `stat`: an exact index match first, else a partial one. */
  function StatRow(conv: Conv, index: seq<Cell>, stat: string): Option<nat> {
    match IndexOf(index, Text(stat))
    case Some(i) => Some(i)
    case None => PartialMatch(conv, index, stat)
  }

  /** The coerced value of `stat` in column `col`, or NaN. */
  function SafeGet(conv: Conv, t: Table, stat: string, col: Option<string>): (r: Num)
    requires Shaped(t)
    ensures col.None? || col.value !in t.columns ==> r.NaN?
    ensures col.Some? && Text(stat) in t.index && col.value in t.columns ==>
              r == ToNumeric(conv, t.body[IndexOf(t.index, Text(stat)).value][IndexOf(t.columns, col.value).value])
    ensures col.Some? && col.value in t.columns && Text(stat) !in t.index && PartialMatch(conv, t.index, stat).Some? ==>
              r == ToNumeric(conv, t.body[PartialMatch(conv, t.index, stat).value][IndexOf(t.columns, col.value).value])
    ensures Text(stat) !in t.index && PartialMatch(conv, t.index, stat).None? ==> r.NaN?
    ensures !r.NaN? ==> exists i, j :: 0 <= i < |t.body| && 0 <= j < |t.columns|
                                       && t.columns[j] == col.value && r == ToNumeric(conv, t.body[i][j])
  {
    if col.None? then NaN
    else match IndexOf(t.columns, col.value)
    case None => NaN
    case Some(j) =>
      match StatRow(conv, t.index, stat)
      case Some(i) => ToNumeric(conv, t.body[i][j])
      case None => NaN
  }

  // ---------------------------------------------------------------------------
  // The whole read

  datatype Triple = Triple(median: Num, p10: Num, p90: Num)

  /** The result: one triple per metric, under the keys Revenue,
      EBITDA_Margin and EV_EBITDA. */
  datatype Stats = Stats(revenue: Triple, ebitdaMargin: Triple, evEbitda: Triple)

  function ReadTriple(conv: Conv, t: Table, col: Option<string>): Triple
    requires Shaped(t)
  {
    Triple(SafeGet(conv, t, "Median", col),
           SafeGet(conv, t, "10th Percentile", col),
           SafeGet(conv, t, "90th Percentile", col))
  }

  /** Whether the numeric coercion of the resolved columns goes through:
      `summary_data[col]` is a single column, as `pd.to_numeric` needs, unless
      the name labels two or more columns (an empty name is falsy and is
      skipped). */
  predicate Coercible(columns: seq<string>, poa: string) {
    var cols := AvailableColumns(columns, poa);
    forall i :: 0 <= i < 3 ==> cols[i].None? || cols[i].value == "" || multiset(columns)[cols[i].value] <= 1
  }

  /** The three triples read from the table built over `rows`; TypeError
      when a resolved column name labels more than one column. */
  function TableStats(conv: Conv, headers: Row, rows: seq<Row>, k: nat, poa: string): Result<Stats, PyError>
    requires k < |headers|
    requires forall i :: 0 <= i < |rows| ==> |rows[i]| == |headers|
  {
    var t := MakeTable(conv, headers, rows, k);
    if !Coercible(t.columns, poa) then Err(TypeError)
    else
      var cols := AvailableColumns(t.columns, poa);
      Ok(Stats(ReadTriple(conv, t, cols[0]), ReadTriple(conv, t, cols[1]), ReadTriple(conv, t, cols[2])))
  }

  /** The triples read from the rows collected below header row `h`, indexed
      by column `k`. */
  function SheetStats(conv: Conv, g: Sheet, h: nat, k: nat, poa: string): Result<Stats, PyError>
    requires WellFormed(g) && h < |g.rows| && k < g.width
  {
    var found := Collected(conv, g.rows, h + 1, Min(h + 11, |g.rows|));
    CollectedWidth(conv, g, h + 1, Min(h + 11, |g.rows|));
    TableStats(conv, g.rows[h], found, k, poa)
  }

  /** The body of `read_summary_from_excel` on a loaded sheet. */
  function Read(conv: Conv, g: Sheet, ticker: string, poa: string): Result<Stats, PyError>
    requires WellFormed(g)
  {
    if g.width == 0 then Err(IndexError)
    else match TitleRow(g, ticker)
    case None => Err(ValueError)
    case Some(start) => ReadFromTitle(conv, g, start, poa)
  }

  /** The read once the title has been found at row `start`. */
  function ReadFromTitle(conv: Conv, g: Sheet, start: nat, poa: string): Result<Stats, PyError>
    requires WellFormed(g) && g.width > 0 && start < |g.rows|
  {
    var h := HeaderRow(conv, g, start);
    if h == |g.rows| then Err(IndexError) else ReadBelowHeader(conv, g, h, poa)
  }

  /** The read once the header row `h` has been chosen. */
  function ReadBelowHeader(conv: Conv, g: Sheet, h: nat, poa: string): Result<Stats, PyError>
    requires WellFormed(g) && g.width > 0 && h < |g.rows|
  {
    if |Collected(conv, g.rows, h + 1, Min(h + 11, |g.rows|))| == 0 then Err(ValueError)
    else
      match IndexOf(g.rows[h], Text("Statistic"))
      case None => Err(KeyError)
      case Some(k) => SheetStats(conv, g, h, k, poa)
  }

  // ---------------------------------------------------------------------------
  // Properties

  /** Nothing is collected exactly when no row of the window is a statistic
      row: the stop rule never ends the scan before the first one. */
  lemma {:induction false} NothingCollectedIff(conv: Conv, rows: seq<Row>, lo: nat, hi: nat)
    requires lo <= hi <= |rows|
    ensures Collected(conv, rows, lo, hi) == [] <==> forall k :: lo <= k < hi ==> !IsStatRow(conv, rows[k])
  {
    var e := ScanEnd(conv, rows, lo, hi);
    var part := rows[lo..e];
    QualifyingMembers(conv, part);
    if exists k :: lo <= k < hi && IsStatRow(conv, rows[k]) {
      var k :| lo <= k < hi && IsStatRow(conv, rows[k]);
      if k < e {
        assert rows[k] == part[k - lo];
        assert rows[k] in Qualifying(conv, part);
      } else {
        assert StopsAt(conv, rows, lo, e);
      }
    } else if Collected(conv, rows, lo, hi) != [] {
      var r := Collected(conv, rows, lo, hi)[0];
      assert r in part;
    }
  }

  /** Below the header: ValueError when the window holds no statistic row;
      otherwise KeyError exactly when the header has no "Statistic" cell,
      TypeError exactly when it has one but a resolved column name labels
      two columns, and a result exactly when neither happens. */
  lemma BelowHeaderOutcome(conv: Conv, g: Sheet, h: nat, poa: string)
    requires WellFormed(g) && g.width > 0 && h < |g.rows|
    ensures var hi := Min(h + 11, |g.rows|);
            var r := ReadBelowHeader(conv, g, h, poa);
            var header := g.rows[h];
            && ((forall k :: h < k < hi ==> !IsStatRow(conv, g.rows[k])) ==> r == Err(ValueError))
            && ((exists k :: h < k < hi && IsStatRow(conv, g.rows[k])) ==>
                  && (r == Err(KeyError) <==> Text("Statistic") !in header)
                  && (r == Err(TypeError) <==>
                        Text("Statistic") in header
                        && !Coercible(ColumnNames(conv, header, IndexOf(header, Text("Statistic")).value), poa))
                  && (r.Ok? <==>
                        Text("Statistic") in header
                        && Coercible(ColumnNames(conv, header, IndexOf(header, Text("Statistic")).value), poa)))
  {
    NothingCollectedIff(conv, g.rows, h + 1, Min(h + 11, |g.rows|));
  }

  /** A target metric whose name labels two columns makes the coercion
      raise TypeError, whatever else the table holds. */
  lemma RepeatedTargetRaises(conv: Conv, headers: Row, rows: seq<Row>, k: nat, poa: string, i: nat)
    requires k < |headers| && forall r :: 0 <= r < |rows| ==> |rows[r]| == |headers|
    requires i < 3 && multiset(ColumnNames(conv, headers, k))[Targets(poa)[i]] >= 2
    ensures TableStats(conv, headers, rows, k, poa) == Err(TypeError)
  {
    var columns := ColumnNames(conv, headers, k);
    assert Targets(poa)[i] in columns;
    assert AvailableColumns(columns, poa)[i] == Some(Targets(poa)[i]);
    assert |Targets(poa)[i]| > 0;
  }

  /** How the read ends: which exception, or a result. */
  lemma ReadOutcome(conv: Conv, g: Sheet, ticker: string, poa: string)
    requires WellFormed(g)
    ensures g.width == 0 ==> Read(conv, g, ticker, poa) == Err(IndexError)
    ensures g.width > 0 && (forall k :: 0 <= k < |g.rows| ==> Lead(g.rows, k) != Text(Title(ticker)))
            ==> Read(conv, g, ticker, poa) == Err(ValueError)
    ensures g.width > 0 && TitleRow(g, ticker) == Some(|g.rows| - 1)
            ==> Read(conv, g, ticker, poa) == Err(IndexError)
    ensures g.width > 0 && TitleRow(g, ticker).Some? && TitleRow(g, ticker).value + 1 < |g.rows| ==>
              var h := HeaderRow(conv, g, TitleRow(g, ticker).value);
              && h < |g.rows|
              && Read(conv, g, ticker, poa) == ReadBelowHeader(conv, g, h, poa)
  {
  }

  // ---------------------------------------------------------------------------
  // The block the workbook writer lays out reads back

  const StatLabels: seq<string> := ["Median", "10th Percentile", "90th Percentile"]

  /** `pad` empty cells: the columns a wider sheet adds to the block's rows. */
  function Padding(pad: nat): Row {
    seq(pad, _ => Blank)
  }

  /** The title row of a block `width` columns wide. */
  function TitleCells(ticker: string, width: nat): Row {
    [Text(Title(ticker))] + seq(width, _ => Blank)
  }

  /** The header row: "Statistic" followed by the metric names and `pad`
      empty cells. */
  function HeaderCells(names: seq<string>, pad: nat): Row {
    [Text("Statistic")] + seq(|names|, j requires 0 <= j < |names| => Text(names[j])) + Padding(pad)
  }

  /** The row of statistic `i`: its label, the written values and `pad`
      empty cells. */
  function StatCells(i: nat, vals: Row, pad: nat): Row
    requires i < 3
  {
    [Text(StatLabels[i])] + vals + Padding(pad)
  }

  /** The summary block that `create_multi_metric_forecast_summary` writes for
      one ticker: the title, a header row of metric names under "Statistic",
      and one row of values per statistic, in a sheet `pad` columns wider
      than the block. */
  function Block(ticker: string, names: seq<string>, values: seq<Row>, pad: nat): seq<Row>
    requires |values| == 3
  {
    [TitleCells(ticker, |names| + pad), HeaderCells(names, pad),
     StatCells(0, values[0], pad), StatCells(1, values[1], pad), StatCells(2, values[2], pad)]
  }

  /** The values written under `target`, coerced, in statistic order. */
  function WrittenTriple(conv: Conv, names: seq<string>, values: seq<Row>, target: string): Triple
    requires |values| == 3 && forall i :: 0 <= i < 3 ==> |values[i]| == |names|
    requires target in names
  {
    var j := IndexOf(names, target).value;
    Triple(ToNumeric(conv, values[0][j]), ToNumeric(conv, values[1][j]), ToNumeric(conv, values[2][j]))
  }

  /** Every string contains itself. */
  lemma ContainsItself(s: string)
    ensures Contains(s, s)
  {
    assert s[..|s|] == s;
  }

  /** Each statistic row is one the scan collects. */
  lemma StatCellsCollected(conv: Conv, i: nat, vals: Row, pad: nat)
    requires i < 3
    ensures IsStatRow(conv, StatCells(i, vals, pad)) && !FirstCell(StatCells(i, vals, pad)).Blank?
  {
    ContainsItself(StatLabels[i]);
    assert FirstCell(StatCells(i, vals, pad)) == Text(StatLabels[i]);
  }

  /** A sequence of statistic rows is kept whole. */
  lemma {:induction false} AllQualify(conv: Conv, rows: seq<Row>)
    requires forall k :: 0 <= k < |rows| ==> IsStatRow(conv, rows[k])
    ensures Qualifying(conv, rows) == rows
  {
    if |rows| > 0 {
      AllQualify(conv, rows[..|rows| - 1]);
      assert rows == rows[..|rows| - 1] + [rows[|rows| - 1]];
    }
  }

  /** A run of statistic rows starting the window and followed by an empty
      first cell (or the end of the window) is exactly what the scan collects. */
  lemma RunCollected(conv: Conv, rows: seq<Row>, lo: nat, e: nat, hi: nat)
    requires lo < e <= hi <= |rows|
    requires forall k :: lo <= k < e ==> IsStatRow(conv, rows[k])
    requires e < hi ==> Lead(rows, e).Blank?
    ensures Collected(conv, rows, lo, hi) == rows[lo..e]
  {
    AllQualify(conv, rows[lo..e]);
    assert forall k :: lo <= k < e ==> !StopsAt(conv, rows, lo, k);
    ScanEndUnique(conv, rows, lo, hi, e);
  }

  /** Three statistic rows opening the window, then an empty first cell or
      the end of the window: the scan collects exactly those three. */
  lemma RunOfThree(conv: Conv, rows: seq<Row>, lo: nat, hi: nat)
    requires lo + 3 <= hi <= |rows|
    requires IsStatRow(conv, rows[lo]) && IsStatRow(conv, rows[lo + 1]) && IsStatRow(conv, rows[lo + 2])
    requires lo + 3 < hi ==> Lead(rows, lo + 3).Blank?
    ensures Collected(conv, rows, lo, hi) == rows[lo..lo + 3]
  {
    forall k | lo <= k < lo + 3 ensures IsStatRow(conv, rows[k]) {
      if k == lo {} else if k == lo + 1 {} else {}
    }
    RunCollected(conv, rows, lo, lo + 3, hi);
  }

  /** Where the rows of a block placed in a sheet end up. */
  lemma BlockPlacement(ticker: string, names: seq<string>, values: seq<Row>, pad: nat,
                       before: seq<Row>, after: seq<Row>)
    requires |values| == 3
    ensures var rows := before + Block(ticker, names, values, pad) + after;
            var s := |before|;
            && |rows| == s + 5 + |after|
            && rows[s] == TitleCells(ticker, |names| + pad)
            && rows[s + 1] == HeaderCells(names, pad)
            && rows[s + 2] == StatCells(0, values[0], pad)
            && rows[s + 3] == StatCells(1, values[1], pad)
            && rows[s + 4] == StatCells(2, values[2], pad)
            && (|after| > 0 ==> rows[s + 5] == after[0])
            && (forall k :: 0 <= k < s ==> rows[k] == before[k])
  {
    var block := Block(ticker, names, values, pad);
    var rows := before + block + after;
    var s := |before|;
    assert rows[s + 2] == block[2] && rows[s + 3] == block[3] && rows[s + 4] == block[4];
  }

  /** A block between rows of the sheet's width makes a sheet of that width. */
  lemma PlacedWellFormed(ticker: string, names: seq<string>, values: seq<Row>, pad: nat,
                         before: seq<Row>, after: seq<Row>)
    requires |values| == 3 && forall i :: 0 <= i < 3 ==> |values[i]| == |names|
    requires forall k :: 0 <= k < |before| ==> |before[k]| == |names| + 1 + pad
    requires forall k :: 0 <= k < |after| ==> |after[k]| == |names| + 1 + pad
    ensures WellFormed(Sheet(|names| + 1 + pad, before + Block(ticker, names, values, pad) + after))
  {
    var block := Block(ticker, names, values, pad);
    var rows := before + block + after;
    var s := |before|;
    forall i | 0 <= i < |rows| ensures |rows[i]| == |names| + 1 + pad {
      if i < s {
        assert rows[i] == before[i];
      } else if i >= s + 5 {
        assert rows[i] == after[i - s - 5];
      } else {
        assert rows[i] == block[i - s];
      }
    }
  }

  /** The title found first is the block's. */
  lemma PlacedTitleFound(g: Sheet, ticker: string, s: nat)
    requires s < |g.rows| && FirstCell(g.rows[s]) == Text(Title(ticker))
    requires forall k :: 0 <= k < s ==> FirstCell(g.rows[k]) != Text(Title(ticker))
    ensures TitleRow(g, ticker) == Some(s)
  {
    assert Lead(g.rows, s) == Text(Title(ticker));
    assert forall k :: 0 <= k < s ==> Lead(g.rows, k) == FirstCell(g.rows[k]);
  }

  /** A header row right after the title is the one chosen, and its
      "Statistic" label is in the first column. */
  lemma PlacedHeader(conv: Conv, g: Sheet, s: nat, names: seq<string>, pad: nat)
    requires s + 1 < |g.rows| && g.rows[s + 1] == HeaderCells(names, pad)
    ensures HeaderRow(conv, g, s) == s + 1
    ensures IndexOf(g.rows[s + 1], Text("Statistic")) == Some(0)
  {
    assert g.rows[s + 1][0] == Text("Statistic");
    assert Lead(g.rows, s + 1) == Text("Statistic");
    ContainsItself("Statistic");
    assert HeaderLike(conv, g, s + 1);
  }

  function BlockIndex(): seq<Cell> {
    [Text(StatLabels[0]), Text(StatLabels[1]), Text(StatLabels[2])]
  }

  /** The column names of a padded block: the metric names, then "nan" for
      every empty header cell. */
  function PaddedNames(names: seq<string>, pad: nat): seq<string> {
    names + seq(pad, _ => "nan")
  }

  /** The body of a padded block: each row of values followed by empty cells. */
  function PaddedValues(values: seq<Row>, pad: nat): seq<Row>
    requires |values| == 3
  {
    [values[0] + Padding(pad), values[1] + Padding(pad), values[2] + Padding(pad)]
  }

  /** The padded header's column names: the metric names, then "nan" per
      empty cell. */
  lemma PaddedColumns(conv: Conv, names: seq<string>, pad: nat)
    requires forall j :: 0 <= j < |names| ==> Strip(names[j]) == names[j]
    ensures ColumnNames(conv, HeaderCells(names, pad), 0) == PaddedNames(names, pad)
  {
    var cs := ColumnNames(conv, HeaderCells(names, pad), 0);
    var ps := PaddedNames(names, pad);
    assert |cs| == |ps|;
    forall j | 0 <= j < |names| ensures cs[j] == ps[j] {
      NamedColumn(conv, names, pad, j);
    }
    forall j | |names| <= j < |ps| ensures cs[j] == ps[j] {
      BlankColumn(conv, names, pad, j);
    }
  }

  /** The column name of a metric's header cell is the metric name. */
  lemma NamedColumn(conv: Conv, names: seq<string>, pad: nat, j: nat)
    requires j < |names| && Strip(names[j]) == names[j]
    ensures ColumnNames(conv, HeaderCells(names, pad), 0)[j] == names[j]
  {
    assert HeaderCells(names, pad)[j + 1] == Text(names[j]);
  }

  /** The column name of an empty header cell is "nan". */
  lemma BlankColumn(conv: Conv, names: seq<string>, pad: nat, j: nat)
    requires |names| <= j < |names| + pad
    ensures ColumnNames(conv, HeaderCells(names, pad), 0)[j] == "nan"
  {
    assert HeaderCells(names, pad)[j + 1] == Blank;
    StripOfStripped("nan");
  }

  /** A statistic row without its label is its values and padding. */
  lemma StatCellsBody(i: nat, vals: Row, pad: nat)
    requires i < 3
    ensures Drop(StatCells(i, vals, pad), 0) == vals + Padding(pad)
  {
    assert StatCells(i, vals, pad)[1..] == vals + Padding(pad);
  }

  /** The table built from the block has the statistic labels as index,
      the metric names and a "nan" per padding column as columns, and the
      written values, padded, as body. */
  lemma BlockTableShape(conv: Conv, names: seq<string>, values: seq<Row>, pad: nat)
    requires |values| == 3 && forall i :: 0 <= i < 3 ==> |values[i]| == |names|
    requires forall j :: 0 <= j < |names| ==> Strip(names[j]) == names[j]
    ensures var found := [StatCells(0, values[0], pad), StatCells(1, values[1], pad), StatCells(2, values[2], pad)];
            && (forall i :: 0 <= i < |found| ==> |found[i]| == |HeaderCells(names, pad)|)
            && MakeTable(conv, HeaderCells(names, pad), found, 0)
               == Table(BlockIndex(), PaddedNames(names, pad), PaddedValues(values, pad))
  {
    var header := HeaderCells(names, pad);
    var found := [StatCells(0, values[0], pad), StatCells(1, values[1], pad), StatCells(2, values[2], pad)];
    var t := MakeTable(conv, header, found, 0);
    PaddedColumns(conv, names, pad);
    StatCellsBody(0, values[0], pad);
    StatCellsBody(1, values[1], pad);
    StatCellsBody(2, values[2], pad);
    assert t.index == BlockIndex();
    assert t.body == PaddedValues(values, pad);
  }

  /** Each label of the block's index is found by exact match at its own row. */
  lemma BlockIndexRows()
    ensures IndexOf(BlockIndex(), Text("Median")) == Some(0)
    ensures IndexOf(BlockIndex(), Text("10th Percentile")) == Some(1)
    ensures IndexOf(BlockIndex(), Text("90th Percentile")) == Some(2)
  {
    assert StatLabels[0] != StatLabels[1];
    assert StatLabels[0] != StatLabels[2];
    assert StatLabels[1][0] != StatLabels[2][0];
  }

  /** A value present in a prefix is found there first. */
  lemma IndexOfPrefix<T>(a: seq<T>, b: seq<T>, x: T)
    requires x in a
    ensures IndexOf(a + b, x) == IndexOf(a, x)
  {
    var j := IndexOf(a, x).value;
    assert (a + b)[j] == x;
    var j' := IndexOf(a + b, x).value;
    assert j' <= j;
    assert a[j'] == x;
  }

  /** Each target is a metric name written once, and no target reads "nan":
      each resolves to itself and labels a single column of the padded block. */
  lemma PaddedTargets(poa: string, names: seq<string>, pad: nat)
    requires forall i :: 0 <= i < 3 ==> multiset(names)[Targets(poa)[i]] == 1
    ensures var cols := AvailableColumns(PaddedNames(names, pad), poa);
            && Coercible(PaddedNames(names, pad), poa)
            && forall i :: 0 <= i < 3 ==>
                 && Targets(poa)[i] in names
                 && cols[i] == Some(Targets(poa)[i])
                 && IndexOf(PaddedNames(names, pad), Targets(poa)[i]) == IndexOf(names, Targets(poa)[i])
  {
    var nans: seq<string> := seq(pad, _ => "nan");
    forall i | 0 <= i < 3
      ensures Targets(poa)[i] in names && multiset(PaddedNames(names, pad))[Targets(poa)[i]] == 1
      ensures IndexOf(PaddedNames(names, pad), Targets(poa)[i]) == IndexOf(names, Targets(poa)[i])
    {
      var t := Targets(poa)[i];
      assert t in multiset(names);
      assert |t| > 3;
      assert t !in nans;
      IndexOfPrefix(names, nans, t);
    }
  }

  /** The block's values are read from the column bearing each target. */
  lemma BlockTriples(conv: Conv, poa: string, names: seq<string>, values: seq<Row>, pad: nat)
    requires |values| == 3 && forall i :: 0 <= i < 3 ==> |values[i]| == |names|
    requires forall i :: 0 <= i < 3 ==> multiset(names)[Targets(poa)[i]] == 1
    ensures var t := Table(BlockIndex(), PaddedNames(names, pad), PaddedValues(values, pad));
            var cols := AvailableColumns(t.columns, poa);
            && Shaped(t)
            && Coercible(t.columns, poa)
            && forall i :: 0 <= i < 3 ==>
                 && Targets(poa)[i] in names
                 && ReadTriple(conv, t, cols[i]) == WrittenTriple(conv, names, values, Targets(poa)[i])
  {
    var t := Table(BlockIndex(), PaddedNames(names, pad), PaddedValues(values, pad));
    BlockIndexRows();
    PaddedTargets(poa, names, pad);
    forall i, r | 0 <= i < 3 && 0 <= r < 3
      ensures var j := IndexOf(names, Targets(poa)[i]).value; t.body[r][j] == values[r][j]
    {
      var j := IndexOf(names, Targets(poa)[i]).value;
      assert t.body[r] == values[r] + Padding(pad);
    }
  }

  /** The triples read from the block's table are the written ones. */
  lemma BlockTableStats(conv: Conv, poa: string, names: seq<string>, values: seq<Row>, pad: nat)
    requires |values| == 3 && forall i :: 0 <= i < 3 ==> |values[i]| == |names|
    requires forall j :: 0 <= j < |names| ==> Strip(names[j]) == names[j]
    requires forall i :: 0 <= i < 3 ==> multiset(names)[Targets(poa)[i]] == 1
    ensures var found := [StatCells(0, values[0], pad), StatCells(1, values[1], pad), StatCells(2, values[2], pad)];
            && (forall i :: 0 <= i < |found| ==> |found[i]| == |HeaderCells(names, pad)|)
            && (forall i :: 0 <= i < 3 ==> Targets(poa)[i] in names)
            && TableStats(conv, HeaderCells(names, pad), found, 0, poa)
               == Ok(Stats(WrittenTriple(conv, names, values, Targets(poa)[0]),
                           WrittenTriple(conv, names, values, Targets(poa)[1]),
                           WrittenTriple(conv, names, values, Targets(poa)[2])))
  {
    BlockTableShape(conv, names, values, pad);
    BlockTriples(conv, poa, names, values, pad);
  }

  /** Below a header with "Statistic" first, collected rows give the table's
      triples. */
  lemma BelowHeaderStats(conv: Conv, g: Sheet, h: nat, poa: string, found: seq<Row>)
    requires WellFormed(g) && g.width > 0 && h < |g.rows|
    requires IndexOf(g.rows[h], Text("Statistic")) == Some(0)
    requires Collected(conv, g.rows, h + 1, Min(h + 11, |g.rows|)) == found && |found| > 0
    requires forall i :: 0 <= i < |found| ==> |found[i]| == |g.rows[h]|
    ensures ReadBelowHeader(conv, g, h, poa) == TableStats(conv, g.rows[h], found, 0, poa)
  {
  }

  /** Three consecutive rows, as a slice. */
  lemma SliceOfThree(rows: seq<Row>, lo: nat, a: Row, b: Row, c: Row)
    requires lo + 3 <= |rows| && rows[lo] == a && rows[lo + 1] == b && rows[lo + 2] == c
    ensures rows[lo..lo + 3] == [a, b, c]
  {
    var part := rows[lo..lo + 3];
    assert part[0] == a && part[1] == b && part[2] == c;
  }

  /** The three statistic rows placed after the header are what the scan
      below the header collects. */
  lemma PlacedStatRows(conv: Conv, g: Sheet, s: nat, values: seq<Row>, pad: nat)
    requires |values| == 3 && s + 5 <= |g.rows|
    requires g.rows[s + 2] == StatCells(0, values[0], pad)
    requires g.rows[s + 3] == StatCells(1, values[1], pad)
    requires g.rows[s + 4] == StatCells(2, values[2], pad)
    requires s + 5 < |g.rows| ==> Lead(g.rows, s + 5).Blank?
    ensures Collected(conv, g.rows, s + 2, Min(s + 1 + 11, |g.rows|))
            == [StatCells(0, values[0], pad), StatCells(1, values[1], pad), StatCells(2, values[2], pad)]
  {
    StatCellsCollected(conv, 0, values[0], pad);
    StatCellsCollected(conv, 1, values[1], pad);
    StatCellsCollected(conv, 2, values[2], pad);
    RunOfThree(conv, g.rows, s + 2, Min(s + 1 + 11, |g.rows|));
    SliceOfThree(g.rows, s + 2, StatCells(0, values[0], pad), StatCells(1, values[1], pad),
                 StatCells(2, values[2], pad));
  }

  /** A block found at row `s` of a sheet `pad` columns wider than it reads
      back to its values. */
  lemma ReadPlacedBlock(conv: Conv, g: Sheet, ticker: string, poa: string, s: nat,
                        names: seq<string>, values: seq<Row>, pad: nat)
    requires |values| == 3 && forall i :: 0 <= i < 3 ==> |values[i]| == |names|
    requires forall j :: 0 <= j < |names| ==> Strip(names[j]) == names[j]
    requires forall i :: 0 <= i < 3 ==> multiset(names)[Targets(poa)[i]] == 1
    requires WellFormed(g) && g.width == |names| + 1 + pad
    requires TitleRow(g, ticker) == Some(s) && s + 5 <= |g.rows|
    requires g.rows[s + 1] == HeaderCells(names, pad)
    requires g.rows[s + 2] == StatCells(0, values[0], pad)
    requires g.rows[s + 3] == StatCells(1, values[1], pad)
    requires g.rows[s + 4] == StatCells(2, values[2], pad)
    requires s + 5 < |g.rows| ==> Lead(g.rows, s + 5).Blank?
    ensures forall i :: 0 <= i < 3 ==> Targets(poa)[i] in names
    ensures Read(conv, g, ticker, poa)
            == Ok(Stats(WrittenTriple(conv, names, values, Targets(poa)[0]),
                        WrittenTriple(conv, names, values, Targets(poa)[1]),
                        WrittenTriple(conv, names, values, Targets(poa)[2])))
  {
    var found := [StatCells(0, values[0], pad), StatCells(1, values[1], pad), StatCells(2, values[2], pad)];
    PlacedHeader(conv, g, s, names, pad);
    PlacedStatRows(conv, g, s, values, pad);
    BlockTableStats(conv, poa, names, values, pad);
    BelowHeaderStats(conv, g, s + 1, poa, found);
    assert Read(conv, g, ticker, poa) == ReadFromTitle(conv, g, s, poa);
  }

  /** A block in the layout the workbook writer uses reads back to the values
      written in it, whatever rows come before it (without its title) and
      after it (the first with an empty first cell), and however many empty
      columns the sheet adds on its right: the column of each target metric
      supplies the median, 10th and 90th percentile. */
  lemma WrittenBlockReadsBack(conv: Conv, ticker: string, poa: string, names: seq<string>,
                              values: seq<Row>, pad: nat, before: seq<Row>, after: seq<Row>)
    requires |values| == 3 && forall i :: 0 <= i < 3 ==> |values[i]| == |names|
    requires forall j :: 0 <= j < |names| ==> Strip(names[j]) == names[j]
    requires forall i :: 0 <= i < 3 ==> multiset(names)[Targets(poa)[i]] == 1
    requires forall k :: 0 <= k < |before| ==> |before[k]| == |names| + 1 + pad
    requires forall k :: 0 <= k < |after| ==> |after[k]| == |names| + 1 + pad
    requires forall k :: 0 <= k < |before| ==> FirstCell(before[k]) != Text(Title(ticker))
    requires |after| > 0 ==> FirstCell(after[0]).Blank?
    ensures forall i :: 0 <= i < 3 ==> Targets(poa)[i] in names
    ensures var g := Sheet(|names| + 1 + pad, before + Block(ticker, names, values, pad) + after);
            WellFormed(g) && Read(conv, g, ticker, poa)
            == Ok(Stats(WrittenTriple(conv, names, values, Targets(poa)[0]),
                        WrittenTriple(conv, names, values, Targets(poa)[1]),
                        WrittenTriple(conv, names, values, Targets(poa)[2])))
  {
    var g := Sheet(|names| + 1 + pad, before + Block(ticker, names, values, pad) + after);
    var s := |before|;
    BlockPlacement(ticker, names, values, pad, before, after);
    PlacedWellFormed(ticker, names, values, pad, before, after);
    assert FirstCell(g.rows[s]) == Text(Title(ticker));
    PlacedTitleFound(g, ticker, s);
    ReadPlacedBlock(conv, g, ticker, poa, s, names, values, pad);
  }
}
