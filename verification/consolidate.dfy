/** `consolidate_refinitiv_data`: one row per distinct key (ticker, broker
    and, when the frame has one, estimate date), each other column holding
    the first value the group reports. */
module Consolidate {
  import opened Outcomes
  import opened Cells
  import opened Frames
  import opened Search
  import Brokers

  const TickerColumn: string := "Ticker"
  const EstimateDateColumn: string := "Estimate Date"

  /** The key columns when the caller gives none. */
  function DefaultKeys(f: Frame): (keys: seq<string>)
    ensures |keys| >= 2 && keys[..2] == [TickerColumn, Brokers.BrokerColumn]
    ensures EstimateDateColumn in keys <==> Has(f, EstimateDateColumn)
    ensures |keys| <= 3 && forall i, j :: 0 <= i < j < |keys| ==> keys[i] != keys[j]
  {
    [TickerColumn, Brokers.BrokerColumn] + if Has(f, EstimateDateColumn) then [EstimateDateColumn] else []
  }

  /** The keys that name no column of the frame. */
  function Missing(f: Frame, keys: seq<string>): (m: seq<string>)
    ensures forall k :: k in m <==> k in keys && !Has(f, k)
    decreases |keys|
  {
    if |keys| == 0 then []
    else Missing(f, keys[..|keys| - 1]) + if Has(f, keys[|keys| - 1]) then [] else [keys[|keys| - 1]]
  }

  /** `notna().sum()`: the number of cells that are not missing. */
  function Present(cells: seq<Cell>): (n: nat)
    ensures n <= |cells|
    ensures n == 0 <==> forall k :: 0 <= k < |cells| ==> cells[k].Blank?
    decreases |cells|
  {
    if |cells| == 0 then 0
    else Present(cells[..|cells| - 1]) + if cells[|cells| - 1].Blank? then 0 else 1
  }

  /** `pd.to_numeric(column, errors='coerce')`: every cell becomes the float
      it parses to, missing when it does not parse. */
  function Coerced(conv: Conv, cells: seq<Cell>): (d: seq<Cell>)
    ensures |d| == |cells|
    ensures forall k :: 0 <= k < |cells| ==> IsNumeric(d[k]) && ToNumeric(conv, d[k]) == ToNumeric(conv, cells[k])
  {
    seq(|cells|, k requires 0 <= k < |cells| => FromNumRoundTrip(conv, ToNumeric(conv, cells[k]), cells[k]);
                                                 FromNum(ToNumeric(conv, cells[k])))
  }

  /** More than half of the coerced cells are present:
      `temp.notna().mean() > 0.5`. An empty column's mean is NaN, so an empty
      column never qualifies. */
  predicate MostlyParses(conv: Conv, cells: seq<Cell>) {
    2 * Present(Coerced(conv, cells)) > |cells|
  }

  /** One step of the conversion loop: a column of object dtype becomes its
      coerced form when most of it parses, and is kept as it is otherwise. */
  function Convert(conv: Conv, c: Column): (d: Column)
    ensures d.name == c.name && |d.cells| == |c.cells|
    ensures d.numeric <==> c.numeric || MostlyParses(conv, c.cells)
    ensures forall k :: 0 <= k < |c.cells| ==> ToNumeric(conv, d.cells[k]) == ToNumeric(conv, c.cells[k])
    ensures d != c ==> forall k :: 0 <= k < |d.cells| ==> IsNumeric(d.cells[k])
  {
    if !c.numeric && MostlyParses(conv, c.cells) then Column(c.name, true, Coerced(conv, c.cells)) else c
  }

  /** The conversion loop over every column. */
  function ConvertAll(conv: Conv, f: Frame): (g: Frame)
    ensures g.height == f.height && |g.columns| == |f.columns|
    ensures forall i :: 0 <= i < |f.columns| ==> g.columns[i] == Convert(conv, f.columns[i])
    ensures Names(g.columns) == Names(f.columns)
    ensures WellFormed(f) ==> WellFormed(g)
  {
    Frame(f.height, seq(|f.columns|, i requires 0 <= i < |f.columns| => Convert(conv, f.columns[i])))
  }

  /** Every position in `cols` names a column of `g`. */
  predicate ValidColumns(g: Frame, cols: seq<nat>) {
    forall j :: 0 <= j < |cols| ==> cols[j] < |g.columns|
  }

  /** The key of row `r`: its cells in the key columns. */
  function KeyOf(g: Frame, cols: seq<nat>, r: nat): (t: seq<Cell>)
    requires WellFormed(g) && ValidColumns(g, cols) && r < g.height
    ensures |t| == |cols|
    ensures forall j :: 0 <= j < |cols| ==> t[j] == g.columns[cols[j]].cells[r]
  {
    seq(|cols|, j requires 0 <= j < |cols| => g.columns[cols[j]].cells[r])
  }

  /** A key with no missing cell; `groupby` drops the rows whose key has
      one. */
  predicate Complete(t: seq<Cell>) {
    forall j :: 0 <= j < |t| ==> !t[j].Blank?
  }

  /** Row `r` is the first row of its group: its key is complete and no
      earlier row has the same key. */
  predicate Leads(g: Frame, cols: seq<nat>, r: nat)
    requires WellFormed(g) && ValidColumns(g, cols) && r < g.height
  {
    Complete(KeyOf(g, cols, r)) && forall q :: 0 <= q < r ==> KeyOf(g, cols, q) != KeyOf(g, cols, r)
  }

  /** The first row of every group, in row order: one per distinct complete
      key, in order of first appearance. */
  function Leaders(g: Frame, cols: seq<nat>): (l: seq<nat>)
    requires WellFormed(g) && ValidColumns(g, cols)
    ensures forall i :: 0 <= i < |l| ==> l[i] < g.height && Leads(g, cols, l[i])
    ensures forall r :: 0 <= r < g.height && Leads(g, cols, r) ==> r in l
    ensures forall a, b :: 0 <= a < b < |l| ==> l[a] < l[b]
  {
    var p := (r: nat) => r < g.height && Leads(g, cols, r);
    assert forall r: nat :: p(r) <==> r < g.height && Leads(g, cols, r);
    Where(g.height, p)
  }

  /** The rows of the group whose key is that of row `r0`, in row order. */
  function Members(g: Frame, cols: seq<nat>, r0: nat): (m: seq<nat>)
    requires WellFormed(g) && ValidColumns(g, cols) && r0 < g.height
    ensures forall k :: 0 <= k < |m| ==> m[k] < g.height && KeyOf(g, cols, m[k]) == KeyOf(g, cols, r0)
    ensures forall r :: 0 <= r < g.height && KeyOf(g, cols, r) == KeyOf(g, cols, r0) ==> r in m
    ensures forall a, b :: 0 <= a < b < |m| ==> m[a] < m[b]
  {
    var p := (r: nat) => r < g.height && KeyOf(g, cols, r) == KeyOf(g, cols, r0);
    assert forall r: nat :: p(r) <==> r < g.height && KeyOf(g, cols, r) == KeyOf(g, cols, r0);
    Where(g.height, p)
  }

  /** `x.dropna().iloc[0]`, or NaN for a group with no value; pandas'
      `'first'` aggregation picks the same cell. */
  function FirstPresent(cells: seq<Cell>): (c: Cell)
    ensures c.Blank? <==> forall k :: 0 <= k < |cells| ==> cells[k].Blank?
    ensures !c.Blank? ==> exists k :: 0 <= k < |cells| && cells[k] == c && forall q :: 0 <= q < k ==> cells[q].Blank?
    decreases |cells|
  {
    if |cells| == 0 then Blank
    else if !cells[0].Blank? then cells[0]
    else
      var c := FirstPresent(cells[1..]);
      assert forall k :: 1 <= k < |cells| ==> cells[k] == cells[1..][k - 1];
      if !c.Blank? then
        var k :| 0 <= k < |cells[1..]| && cells[1..][k] == c && forall q :: 0 <= q < k ==> cells[1..][q].Blank?;
        assert cells[k + 1] == c && forall q :: 0 <= q < k + 1 ==> cells[q].Blank?;
        c
      else c
  }

  /** One aggregated column: per group, the first value any of its rows
      holds. */
  function Aggregated(g: Frame, cols: seq<nat>, l: seq<nat>, c: Column): (d: Column)
    requires WellFormed(g) && ValidColumns(g, cols) && |c.cells| == g.height
    requires forall i :: 0 <= i < |l| ==> l[i] < g.height
    ensures d.name == c.name && d.numeric == c.numeric && |d.cells| == |l|
    ensures forall i :: 0 <= i < |l| ==> d.cells[i] == FirstPresent(Pick(c.cells, Members(g, cols, l[i])))
  {
    Column(c.name, c.numeric, seq(|l|, i requires 0 <= i < |l| => FirstPresent(Pick(c.cells, Members(g, cols, l[i])))))
  }

  /** A key column of the result: the key cell of each group. */
  function KeyColumn(g: Frame, l: seq<nat>, c: Column): (d: Column)
    requires |c.cells| == g.height && forall i :: 0 <= i < |l| ==> l[i] < g.height
    ensures d.name == c.name && d.numeric == c.numeric && d.cells == Pick(c.cells, l)
  {
    Column(c.name, c.numeric, Pick(c.cells, l))
  }

  /** The result of `groupby(keys, as_index=False).agg(...)`: the key columns,
      then the aggregated ones, one row per group. */
  function Grouped(g: Frame, cols: seq<nat>, aggs: seq<nat>): (h: Frame)
    requires WellFormed(g) && ValidColumns(g, cols) && ValidColumns(g, aggs)
    ensures h.height == |Leaders(g, cols)| && |h.columns| == |cols| + |aggs|
    ensures forall j :: 0 <= j < |cols| ==> h.columns[j] == KeyColumn(g, Leaders(g, cols), g.columns[cols[j]])
    ensures forall j :: 0 <= j < |aggs| ==> h.columns[|cols| + j] == Aggregated(g, cols, Leaders(g, cols), g.columns[aggs[j]])
  {
    var l := Leaders(g, cols);
    Frame(|l|, seq(|cols|, j requires 0 <= j < |cols| => KeyColumn(g, l, g.columns[cols[j]]))
             + seq(|aggs|, j requires 0 <= j < |aggs| => Aggregated(g, cols, l, g.columns[aggs[j]])))
  }

  /** Which part of the aggregation dictionary column `i` falls in: 0 for a
      column numeric from the start, 1 for one the loop converted, 2 for a
      metadata column. Keys fall in none. */
  predicate InPart(f: Frame, g: Frame, keys: seq<string>, part: nat, i: nat)
    requires i < |f.columns| == |g.columns|
  {
    && f.columns[i].name !in keys
    && match part
       case 0 => f.columns[i].numeric
       case 1 => !f.columns[i].numeric && g.columns[i].numeric
       case _ => part == 2 && !g.columns[i].numeric
  }

  /** The columns of one part, in frame order. */
  function Part(f: Frame, g: Frame, keys: seq<string>, part: nat): (xs: seq<nat>)
    requires |g.columns| == |f.columns|
    ensures forall k :: 0 <= k < |xs| ==> xs[k] < |f.columns| && InPart(f, g, keys, part, xs[k])
    ensures forall i :: 0 <= i < |f.columns| && InPart(f, g, keys, part, i) ==> i in xs
    ensures forall a, b :: 0 <= a < b < |xs| ==> xs[a] < xs[b]
  {
    var p := (i: nat) => i < |f.columns| && InPart(f, g, keys, part, i);
    assert forall i: nat :: p(i) <==> i < |f.columns| && InPart(f, g, keys, part, i);
    Where(|f.columns|, p)
  }

  /** The aggregated columns in the order the aggregation dictionary lists
      them: the columns numeric from the start, then those the loop
      converted, then the metadata columns. `g` is the frame after the
      conversion loop. */
  function AggregatedColumns(f: Frame, g: Frame, keys: seq<string>): (aggs: seq<nat>)
    requires |g.columns| == |f.columns|
    ensures ValidColumns(g, aggs)
  {
    var a, b, c := Part(f, g, keys, 0), Part(f, g, keys, 1), Part(f, g, keys, 2);
    assert forall k :: 0 <= k < |a + b + c| ==> (a + b + c)[k] in a || (a + b + c)[k] in b || (a + b + c)[k] in c;
    a + b + c
  }

  /** The part that position `k` of the aggregation list falls in, given the
      sizes of the first two parts. */
  function SegmentOf(n0: nat, n1: nat, k: nat): nat {
    if k < n0 then 0 else if k < n0 + n1 then 1 else 2
  }

  /** Position `k` of the aggregation list is a column of its part, and two
      positions in the same part keep frame order. */
  lemma PartAt(f: Frame, g: Frame, keys: seq<string>, a: nat, b: nat)
    requires |g.columns| == |f.columns|
    requires a <= b < |AggregatedColumns(f, g, keys)|
    ensures var aggs := AggregatedColumns(f, g, keys);
            var n0, n1 := |Part(f, g, keys, 0)|, |Part(f, g, keys, 1)|;
            && aggs[a] < |f.columns| && aggs[b] < |f.columns|
            && InPart(f, g, keys, SegmentOf(n0, n1, a), aggs[a])
            && InPart(f, g, keys, SegmentOf(n0, n1, b), aggs[b])
            && (a < b && SegmentOf(n0, n1, a) == SegmentOf(n0, n1, b) ==> aggs[a] < aggs[b])
  {
    var p0, p1, p2 := Part(f, g, keys, 0), Part(f, g, keys, 1), Part(f, g, keys, 2);
    assert AggregatedColumns(f, g, keys) == p0 + p1 + p2;
    ConcatAt(p0, p1, p2, a);
    ConcatAt(p0, p1, p2, b);
  }

  /** Element `k` of a concatenation of three sequences, by part. */
  lemma ConcatAt(p0: seq<nat>, p1: seq<nat>, p2: seq<nat>, k: nat)
    requires k < |p0| + |p1| + |p2|
    ensures var xs := p0 + p1 + p2;
            && (SegmentOf(|p0|, |p1|, k) == 0 ==> xs[k] == p0[k])
            && (SegmentOf(|p0|, |p1|, k) == 1 ==> xs[k] == p1[k - |p0|])
            && (SegmentOf(|p0|, |p1|, k) == 2 ==> xs[k] == p2[k - |p0| - |p1|])
  {
  }

  /** The three parts of the aggregation cover every non-key column exactly
      once, and the numeric columns come before the metadata ones. */
  lemma AggregatedColumnsMeaning(f: Frame, g: Frame, keys: seq<string>)
    requires |g.columns| == |f.columns|
    requires forall i :: 0 <= i < |f.columns| && f.columns[i].numeric ==> g.columns[i].numeric
    ensures var aggs := AggregatedColumns(f, g, keys);
            && (forall i :: 0 <= i < |f.columns| ==> (i in aggs <==> f.columns[i].name !in keys))
            && (forall a, b :: 0 <= a < b < |aggs| ==> aggs[a] != aggs[b])
            && (forall a, b :: 0 <= a < b < |aggs| && g.columns[aggs[b]].numeric ==> g.columns[aggs[a]].numeric)
  {
    var aggs := AggregatedColumns(f, g, keys);
    forall i | 0 <= i < |f.columns| ensures i in aggs <==> f.columns[i].name !in keys {
      if f.columns[i].name !in keys {
        assert InPart(f, g, keys, 0, i) || InPart(f, g, keys, 1, i) || InPart(f, g, keys, 2, i);
      } else if i in aggs {
        var k :| 0 <= k < |aggs| && aggs[k] == i;
        PartAt(f, g, keys, k, k);
      }
    }
    forall a, b | 0 <= a < b < |aggs|
      ensures aggs[a] != aggs[b]
      ensures g.columns[aggs[b]].numeric ==> g.columns[aggs[a]].numeric
    {
      PartAt(f, g, keys, a, b);
    }
  }

  /** The positions of the key columns, once every key is known to be
      present. */
  function KeyColumns(f: Frame, keys: seq<string>): (cols: seq<nat>)
    requires forall j :: 0 <= j < |keys| ==> Has(f, keys[j])
    ensures |cols| == |keys| && ValidColumns(f, cols)
    ensures forall j :: 0 <= j < |keys| ==> f.columns[cols[j]].name == keys[j]
  {
    seq(|keys|, j requires 0 <= j < |keys| => Find(f, keys[j]).value)
  }

  /** The key columns: the caller's, or the default ones when it gives
      none. */
  function KeysOf(f: Frame, given: Option<seq<string>>): seq<string> {
    if given.None? then DefaultKeys(f) else given.value
  }

  /** `consolidate_refinitiv_data(df, key_columns)`: `given` is the caller's
      key list, None for the default. A missing key column raises
      ValueError, and so does `groupby` when an explicit empty key list
      meets a frame with rows ("No group keys passed!"). */
  function ConsolidateWith(conv: Conv, f: Frame, given: Option<seq<string>>): (r: Result<Frame, PyError>)
    requires WellFormed(f)
    ensures var keys := KeysOf(f, given);
            && (r.Err? <==> (exists k :: k in keys && !Has(f, k)) || (|keys| == 0 && f.height > 0))
            && (r.Err? ==> r.error == ValueError)
  {
    var keys := KeysOf(f, given);
    if |Missing(f, keys)| > 0 then
      assert Missing(f, keys)[0] in Missing(f, keys);
      Err(ValueError)
    else if |keys| == 0 && f.height > 0 then
      Err(ValueError)
    else
      assert forall j :: 0 <= j < |keys| ==> Has(f, keys[j]) by {
        forall j | 0 <= j < |keys| ensures Has(f, keys[j]) {
          assert keys[j] in keys && keys[j] !in Missing(f, keys);
        }
      }
      var g := ConvertAll(conv, f);
      Ok(Grouped(g, KeyColumns(g, keys), AggregatedColumns(f, g, keys)))
  }

  /** No two groups share a key. */
  lemma LeadersDistinct(g: Frame, cols: seq<nat>)
    requires WellFormed(g) && ValidColumns(g, cols)
    ensures var l := Leaders(g, cols);
            forall a, b :: 0 <= a < b < |l| ==> KeyOf(g, cols, l[a]) != KeyOf(g, cols, l[b])
  {
    var l := Leaders(g, cols);
    forall a, b | 0 <= a < b < |l| ensures KeyOf(g, cols, l[a]) != KeyOf(g, cols, l[b]) {
      assert Leads(g, cols, l[b]);
    }
  }

  /** Every row with a complete key belongs to a group: the group led by the
      first row with that key. */
  lemma LeadersCover(g: Frame, cols: seq<nat>, r: nat)
    requires WellFormed(g) && ValidColumns(g, cols) && r < g.height
    requires Complete(KeyOf(g, cols, r))
    ensures exists i :: 0 <= i < |Leaders(g, cols)| && KeyOf(g, cols, Leaders(g, cols)[i]) == KeyOf(g, cols, r)
  {
    var p := (q: nat) => q < g.height && KeyOf(g, cols, q) == KeyOf(g, cols, r);
    assert forall q: nat :: p(q) <==> q < g.height && KeyOf(g, cols, q) == KeyOf(g, cols, r);
    var first := FirstFrom(p, 0, r + 1);
    assert p(r);
    var m := first.value;
    assert Leads(g, cols, m);
    var l := Leaders(g, cols);
    var i :| 0 <= i < |l| && l[i] == m;
  }

  /** Picking cells at increasing rows and taking the first present one
      gives the cell of the least picked row that has one. */
  lemma FirstPicked(cells: seq<Cell>, m: seq<nat>)
    requires forall k :: 0 <= k < |m| ==> m[k] < |cells|
    requires forall a, b :: 0 <= a < b < |m| ==> m[a] < m[b]
    ensures var v := FirstPresent(Pick(cells, m));
            && (v.Blank? <==> forall r :: r in m ==> cells[r].Blank?)
            && (!v.Blank? ==> exists r :: r in m && cells[r] == v && forall q :: q in m && q < r ==> cells[q].Blank?)
  {
    var d := Pick(cells, m);
    var v := FirstPresent(d);
    if !v.Blank? {
      var k :| 0 <= k < |d| && d[k] == v && forall q :: 0 <= q < k ==> d[q].Blank?;
      forall q | q in m && q < m[k] ensures cells[q].Blank? {
        var k' :| 0 <= k' < |m| && m[k'] == q;
        assert k' < k;
        assert d[k'] == cells[q];
      }
    } else {
      forall r | r in m ensures cells[r].Blank? {
        var k :| 0 <= k < |m| && m[k] == r;
        assert d[k] == cells[r];
      }
    }
  }

  /** The value a group gets in one column is the column's cell in the
      first row of the group that has one, and missing when none has. */
  lemma FirstOfGroup(g: Frame, cols: seq<nat>, r0: nat, c: Column)
    requires WellFormed(g) && ValidColumns(g, cols) && r0 < g.height && |c.cells| == g.height
    ensures var v := FirstPresent(Pick(c.cells, Members(g, cols, r0)));
            && (v.Blank? <==> forall r :: 0 <= r < g.height && KeyOf(g, cols, r) == KeyOf(g, cols, r0) ==> c.cells[r].Blank?)
            && (!v.Blank? ==> exists r :: 0 <= r < g.height && KeyOf(g, cols, r) == KeyOf(g, cols, r0) && c.cells[r] == v
                                         && forall q :: 0 <= q < r && KeyOf(g, cols, q) == KeyOf(g, cols, r0) ==> c.cells[q].Blank?)
  {
    var m := Members(g, cols, r0);
    FirstPicked(c.cells, m);
    assert forall r :: r in m <==> 0 <= r < g.height && KeyOf(g, cols, r) == KeyOf(g, cols, r0);
  }

  /** The key of row `i` of a result whose first `m` columns are the key
      columns. */
  function OutKey(h: Frame, m: nat, i: nat): (t: seq<Cell>)
    requires m <= |h.columns| && forall j :: 0 <= j < m ==> i < |h.columns[j].cells|
    ensures |t| == m && forall j :: 0 <= j < m ==> t[j] == h.columns[j].cells[i]
  {
    seq(m, j requires 0 <= j < m => h.columns[j].cells[i])
  }

  /** Row `i` of the grouped frame carries the key of the `i`-th group. */
  lemma GroupedKeyAt(g: Frame, cols: seq<nat>, aggs: seq<nat>, i: nat)
    requires WellFormed(g) && ValidColumns(g, cols) && ValidColumns(g, aggs)
    requires i < |Leaders(g, cols)|
    ensures OutKey(Grouped(g, cols, aggs), |cols|, i) == KeyOf(g, cols, Leaders(g, cols)[i])
  {
    var h := Grouped(g, cols, aggs);
    var l := Leaders(g, cols);
    forall j | 0 <= j < |cols| ensures h.columns[j].cells[i] == KeyOf(g, cols, l[i])[j] {
      assert h.columns[j] == KeyColumn(g, l, g.columns[cols[j]]);
    }
  }

  /** Every column of `h` is as tall as `h` and the first `m` are its key
      columns. */
  predicate Shaped(h: Frame, m: nat) {
    m <= |h.columns| && forall j :: 0 <= j < |h.columns| ==> |h.columns[j].cells| == h.height
  }

  /** `h` has one row per distinct complete key of `g`: no two rows share a
      key, every row's key is complete and occurs in `g`, and every complete
      key of `g` has its row. */
  predicate OneRowPerKey(h: Frame, m: nat, g: Frame, cols: seq<nat>)
    requires Shaped(h, m) && WellFormed(g) && ValidColumns(g, cols)
  {
    && (forall a, b :: 0 <= a < b < h.height ==> OutKey(h, m, a) != OutKey(h, m, b))
    && (forall i :: 0 <= i < h.height ==>
          Complete(OutKey(h, m, i)) && exists r :: 0 <= r < g.height && KeyOf(g, cols, r) == OutKey(h, m, i))
    && (forall r :: 0 <= r < g.height && Complete(KeyOf(g, cols, r)) ==>
          exists i :: 0 <= i < h.height && OutKey(h, m, i) == KeyOf(g, cols, r))
  }

  lemma GroupedShaped(g: Frame, cols: seq<nat>, aggs: seq<nat>)
    requires WellFormed(g) && ValidColumns(g, cols) && ValidColumns(g, aggs)
    ensures Shaped(Grouped(g, cols, aggs), |cols|)
  {
    var h := Grouped(g, cols, aggs);
    forall j | 0 <= j < |h.columns| ensures |h.columns[j].cells| == h.height {
      if j >= |cols| { assert h.columns[j] == Aggregated(g, cols, Leaders(g, cols), g.columns[aggs[j - |cols|]]); }
    }
  }

  /** The grouped frame has one row per distinct complete key of the
      input. */
  lemma GroupedKeys(g: Frame, cols: seq<nat>, aggs: seq<nat>)
    requires WellFormed(g) && ValidColumns(g, cols) && ValidColumns(g, aggs)
    ensures Shaped(Grouped(g, cols, aggs), |cols|)
    ensures OneRowPerKey(Grouped(g, cols, aggs), |cols|, g, cols)
  {
    GroupedShaped(g, cols, aggs);
    var h := Grouped(g, cols, aggs);
    var l := Leaders(g, cols);
    forall i | 0 <= i < h.height ensures OutKey(h, |cols|, i) == KeyOf(g, cols, l[i]) {
      GroupedKeyAt(g, cols, aggs, i);
    }
    LeadersDistinct(g, cols);
    forall r | 0 <= r < g.height && Complete(KeyOf(g, cols, r))
      ensures exists i :: 0 <= i < h.height && OutKey(h, |cols|, i) == KeyOf(g, cols, r)
    {
      LeadersCover(g, cols, r);
    }
  }

  /** `v` is what the group with key `t` gets from a column with these
      cells: the cell of the first row with that key that has one, or a
      missing value when none has. */
  predicate FirstOfKey(g: Frame, cols: seq<nat>, cells: seq<Cell>, t: seq<Cell>, v: Cell)
    requires WellFormed(g) && ValidColumns(g, cols) && |cells| == g.height
  {
    && (v.Blank? <==> forall r :: 0 <= r < g.height && KeyOf(g, cols, r) == t ==> cells[r].Blank?)
    && (!v.Blank? ==> exists r :: 0 <= r < g.height && KeyOf(g, cols, r) == t && cells[r] == v
                                 && forall q :: 0 <= q < r && KeyOf(g, cols, q) == t ==> cells[q].Blank?)
  }

  /** Every non-key column of `h` is a column of `g` by name, and each of
      its values is the first value the rows with that row's key have in
      that column. */
  predicate FirstValues(h: Frame, m: nat, g: Frame, cols: seq<nat>)
    requires Shaped(h, m) && WellFormed(g) && ValidColumns(g, cols)
  {
    forall i, j :: 0 <= i < h.height && m <= j < |h.columns| ==> FirstValueAt(h, m, g, cols, i, j)
  }

  /** The value in row `i` of column `j` of `h` follows the first-present
      rule for the column of `g` with the same label. */
  predicate FirstValueAt(h: Frame, m: nat, g: Frame, cols: seq<nat>, i: nat, j: nat)
    requires Shaped(h, m) && WellFormed(g) && ValidColumns(g, cols)
    requires i < h.height && m <= j < |h.columns|
  {
    Has(g, h.columns[j].name) && FirstOfKey(g, cols, Get(g, h.columns[j].name).cells, OutKey(h, m, i), h.columns[j].cells[i])
  }

  /** A value that follows the first-present rule for column `a` of `g`
      follows it for the column of `g` found by that column's label. */
  lemma FirstValueFrom(h: Frame, m: nat, g: Frame, cols: seq<nat>, i: nat, j: nat, a: nat)
    requires Shaped(h, m) && WellFormed(g) && ValidColumns(g, cols)
    requires i < h.height && m <= j < |h.columns| && a < |g.columns|
    requires h.columns[j].name == g.columns[a].name
    requires FirstOfKey(g, cols, g.columns[a].cells, OutKey(h, m, i), h.columns[j].cells[i])
    ensures FirstValueAt(h, m, g, cols, i, j)
  {
    FindUnique(g, h.columns[j].name, a);
  }

  /** Each aggregated value of the grouped frame is the first present cell
      of its column among the rows with that row's key. */
  lemma GroupedValue(g: Frame, cols: seq<nat>, aggs: seq<nat>, i: nat, j: nat)
    requires WellFormed(g) && ValidColumns(g, cols) && ValidColumns(g, aggs)
    requires i < Grouped(g, cols, aggs).height && |cols| <= j < |cols| + |aggs|
    ensures Shaped(Grouped(g, cols, aggs), |cols|)
    ensures FirstValueAt(Grouped(g, cols, aggs), |cols|, g, cols, i, j)
  {
    var h := Grouped(g, cols, aggs);
    var l := Leaders(g, cols);
    var a := aggs[j - |cols|];
    GroupedShaped(g, cols, aggs);
    GroupedKeyAt(g, cols, aggs, i);
    FirstOfGroup(g, cols, l[i], g.columns[a]);
    FirstValueFrom(h, |cols|, g, cols, i, j, a);
  }

  /** Every value of an aggregated column of the grouped frame follows the
      first-present rule. */
  lemma GroupedValues(g: Frame, cols: seq<nat>, aggs: seq<nat>)
    requires WellFormed(g) && ValidColumns(g, cols) && ValidColumns(g, aggs)
    ensures Shaped(Grouped(g, cols, aggs), |cols|)
    ensures FirstValues(Grouped(g, cols, aggs), |cols|, g, cols)
  {
    GroupedShaped(g, cols, aggs);
    var h := Grouped(g, cols, aggs);
    forall i, j | 0 <= i < h.height && |cols| <= j < |h.columns| ensures FirstValueAt(h, |cols|, g, cols, i, j) {
      GroupedValue(g, cols, aggs, i, j);
    }
  }

  /** `consolidate_refinitiv_data` is the grouping of the converted frame by
      the key columns, aggregating the other columns in dictionary order. */
  lemma ConsolidatedIsGrouped(conv: Conv, f: Frame, given: Option<seq<string>>)
    requires WellFormed(f) && ConsolidateWith(conv, f, given).Ok?
    ensures var keys, g := KeysOf(f, given), ConvertAll(conv, f);
            && (forall j :: 0 <= j < |keys| ==> Has(g, keys[j]))
            && ConsolidateWith(conv, f, given).value == Grouped(g, KeyColumns(g, keys), AggregatedColumns(f, g, keys))
  {
  }

  /** The consolidated frame has one row per distinct complete key of the
      converted input, and each other column holds, per row, the first
      value the rows with that key have in the input column of the same
      name. */
  lemma ConsolidatedRows(conv: Conv, f: Frame, given: Option<seq<string>>)
    requires WellFormed(f) && ConsolidateWith(conv, f, given).Ok?
    ensures var keys, g := KeysOf(f, given), ConvertAll(conv, f);
            var h := ConsolidateWith(conv, f, given).value;
            && (forall j :: 0 <= j < |keys| ==> Has(g, keys[j]))
            && Shaped(h, |keys|)
            && OneRowPerKey(h, |keys|, g, KeyColumns(g, keys))
            && FirstValues(h, |keys|, g, KeyColumns(g, keys))
  {
    var keys, g := KeysOf(f, given), ConvertAll(conv, f);
    ConsolidatedIsGrouped(conv, f, given);
    GroupedKeys(g, KeyColumns(g, keys), AggregatedColumns(f, g, keys));
    GroupedValues(g, KeyColumns(g, keys), AggregatedColumns(f, g, keys));
  }

  /** The key columns come first, in key order, then every other column of
      the input exactly once. */
  predicate Layout(h: Frame, keys: seq<string>, f: Frame) {
    && |keys| <= |h.columns|
    && (forall j :: 0 <= j < |keys| ==> h.columns[j].name == keys[j])
    && (forall i :: 0 <= i < |f.columns| && f.columns[i].name !in keys ==>
          exists j :: |keys| <= j < |h.columns| && h.columns[j].name == f.columns[i].name)
    && (forall j :: |keys| <= j < |h.columns| ==> h.columns[j].name !in keys && Has(f, h.columns[j].name))
    && (forall a, b :: |keys| <= a < b < |h.columns| ==> h.columns[a].name != h.columns[b].name)
  }

  /** After the keys, the numeric columns come before the others, and a
      column is numeric exactly when the input column was or when more than
      half of it parses as numbers. */
  predicate Conversions(conv: Conv, h: Frame, keys: seq<string>, f: Frame)
    requires |keys| <= |h.columns|
    requires forall j :: |keys| <= j < |h.columns| ==> Has(f, h.columns[j].name)
  {
    && (forall a, b :: |keys| <= a < b < |h.columns| && h.columns[b].numeric ==> h.columns[a].numeric)
    && (forall j :: |keys| <= j < |h.columns| ==>
          var c := Get(f, h.columns[j].name);
          h.columns[j].numeric <==> c.numeric || MostlyParses(conv, c.cells))
  }

  /** The columns of `h` are the keys, in order, then the columns `aggs` of
      `f` by name, with the dtypes `g` gives them. */
  predicate ColumnsFrom(h: Frame, keys: seq<string>, f: Frame, g: Frame, aggs: seq<nat>) {
    && |h.columns| == |keys| + |aggs|
    && (forall j :: 0 <= j < |keys| ==> h.columns[j].name == keys[j])
    && (forall j :: 0 <= j < |aggs| ==>
          aggs[j] < |f.columns| && aggs[j] < |g.columns|
          && h.columns[|keys| + j].name == f.columns[aggs[j]].name
          && h.columns[|keys| + j].numeric == g.columns[aggs[j]].numeric)
  }

  /** Grouping `g` by columns labelled `keys` gives the keys and then the
      aggregated columns, labelled as in any frame with `g`'s labels. */
  lemma GroupedColumns(h: Frame, keys: seq<string>, f: Frame, g: Frame, cols: seq<nat>, aggs: seq<nat>)
    requires WellFormed(g) && ValidColumns(g, cols) && ValidColumns(g, aggs)
    requires h == Grouped(g, cols, aggs)
    requires |cols| == |keys| && forall j :: 0 <= j < |keys| ==> g.columns[cols[j]].name == keys[j]
    requires |g.columns| == |f.columns| && forall i :: 0 <= i < |f.columns| ==> g.columns[i].name == f.columns[i].name
    ensures ColumnsFrom(h, keys, f, g, aggs)
  {
    var l := Leaders(g, cols);
    forall j | 0 <= j < |keys| ensures h.columns[j].name == keys[j] {
      assert h.columns[j] == KeyColumn(g, l, g.columns[cols[j]]);
    }
    forall j | 0 <= j < |aggs|
      ensures h.columns[|keys| + j].name == f.columns[aggs[j]].name
      ensures h.columns[|keys| + j].numeric == g.columns[aggs[j]].numeric
    {
      assert h.columns[|cols| + j] == Aggregated(g, cols, l, g.columns[aggs[j]]);
    }
  }

  /** Where each column of the consolidated frame comes from: the keys, in
      order, then the aggregated columns of the input with the dtypes the
      conversion loop gives them. */
  lemma ColumnSources(conv: Conv, f: Frame, given: Option<seq<string>>)
    requires WellFormed(f) && ConsolidateWith(conv, f, given).Ok?
    ensures ColumnsFrom(ConsolidateWith(conv, f, given).value, KeysOf(f, given), f, ConvertAll(conv, f),
                        AggregatedColumns(f, ConvertAll(conv, f), KeysOf(f, given)))
  {
    var keys, g := KeysOf(f, given), ConvertAll(conv, f);
    ConsolidatedIsGrouped(conv, f, given);
    assert forall i :: 0 <= i < |f.columns| ==> g.columns[i].name == Names(g.columns)[i] == Names(f.columns)[i];
    GroupedColumns(ConsolidateWith(conv, f, given).value, keys, f, g, KeyColumns(g, keys), AggregatedColumns(f, g, keys));
  }

  /** A frame whose columns are the keys and then the columns `aggs` of
      `f`, when `aggs` lists every non-key column once, has the layout. */
  lemma LayoutFrom(h: Frame, keys: seq<string>, f: Frame, aggs: seq<nat>)
    requires WellFormed(f) && |h.columns| == |keys| + |aggs|
    requires forall j :: 0 <= j < |keys| ==> h.columns[j].name == keys[j]
    requires forall j :: 0 <= j < |aggs| ==> aggs[j] < |f.columns| && h.columns[|keys| + j].name == f.columns[aggs[j]].name
    requires forall i :: 0 <= i < |f.columns| ==> (i in aggs <==> f.columns[i].name !in keys)
    requires forall a, b :: 0 <= a < b < |aggs| ==> aggs[a] != aggs[b]
    ensures Layout(h, keys, f)
  {
    forall i | 0 <= i < |f.columns| && f.columns[i].name !in keys
      ensures exists j :: |keys| <= j < |h.columns| && h.columns[j].name == f.columns[i].name
    {
      var k :| 0 <= k < |aggs| && aggs[k] == i;
      assert h.columns[|keys| + k].name == f.columns[i].name;
    }
    forall j | |keys| <= j < |h.columns| ensures h.columns[j].name !in keys && Has(f, h.columns[j].name) {
      var i := aggs[j - |keys|];
      assert i in aggs;
      assert Names(f.columns)[i] == h.columns[j].name;
    }
    forall a, b | |keys| <= a < b < |h.columns| ensures h.columns[a].name != h.columns[b].name {
      var ia, ib := aggs[a - |keys|], aggs[b - |keys|];
      assert ia != ib;
      if ia < ib { assert f.columns[ia].name != f.columns[ib].name; }
      else { assert f.columns[ib].name != f.columns[ia].name; }
    }
  }

  /** A frame laid out that way whose flags are those the conversion loop
      gives its source columns, with numeric columns first, follows the
      conversion rule. */
  lemma ConversionsFrom(conv: Conv, h: Frame, keys: seq<string>, f: Frame, g: Frame, aggs: seq<nat>)
    requires WellFormed(f) && |h.columns| == |keys| + |aggs| && Layout(h, keys, f)
    requires |g.columns| == |f.columns|
    requires forall i :: 0 <= i < |f.columns| ==>
               (g.columns[i].numeric <==> f.columns[i].numeric || MostlyParses(conv, f.columns[i].cells))
    requires forall j :: 0 <= j < |aggs| ==>
               aggs[j] < |f.columns| && h.columns[|keys| + j].name == f.columns[aggs[j]].name
               && h.columns[|keys| + j].numeric == g.columns[aggs[j]].numeric
    requires forall a, b :: 0 <= a < b < |aggs| && g.columns[aggs[b]].numeric ==> g.columns[aggs[a]].numeric
    ensures Conversions(conv, h, keys, f)
  {
    NumericFirstFrom(h, |keys|, g, aggs);
    forall j | |keys| <= j < |h.columns|
      ensures var c := Get(f, h.columns[j].name); h.columns[j].numeric <==> c.numeric || MostlyParses(conv, c.cells)
    {
      var i := aggs[j - |keys|];
      FindUnique(f, h.columns[j].name, i);
      assert h.columns[j].numeric == g.columns[i].numeric;
    }
  }

  /** Columns taken in an order that lists numeric ones first stay in that
      order. */
  lemma NumericFirstFrom(h: Frame, m: nat, g: Frame, aggs: seq<nat>)
    requires |h.columns| == m + |aggs| && ValidColumns(g, aggs)
    requires forall j :: 0 <= j < |aggs| ==> h.columns[m + j].numeric == g.columns[aggs[j]].numeric
    requires forall a, b :: 0 <= a < b < |aggs| && g.columns[aggs[b]].numeric ==> g.columns[aggs[a]].numeric
    ensures forall a, b :: m <= a < b < |h.columns| && h.columns[b].numeric ==> h.columns[a].numeric
  {
    forall a, b | m <= a < b < |h.columns| && h.columns[b].numeric ensures h.columns[a].numeric {
      var x, y := a - m, b - m;
      assert h.columns[m + y].numeric == g.columns[aggs[y]].numeric;
      assert g.columns[aggs[x]].numeric;
      assert h.columns[m + x].numeric == g.columns[aggs[x]].numeric;
    }
  }

  /** A frame whose columns come from `f` through the aggregation list, when
      that list covers the non-key columns once with numeric ones first,
      has the layout and follows the conversion rule. */
  lemma LayoutAndConversions(conv: Conv, h: Frame, keys: seq<string>, f: Frame, g: Frame, aggs: seq<nat>)
    requires WellFormed(f) && |g.columns| == |f.columns| && ColumnsFrom(h, keys, f, g, aggs)
    requires forall i :: 0 <= i < |f.columns| ==> (i in aggs <==> f.columns[i].name !in keys)
    requires forall a, b :: 0 <= a < b < |aggs| ==> aggs[a] != aggs[b]
    requires forall a, b :: 0 <= a < b < |aggs| && g.columns[aggs[b]].numeric ==> g.columns[aggs[a]].numeric
    requires forall i :: 0 <= i < |f.columns| ==>
               (g.columns[i].numeric <==> f.columns[i].numeric || MostlyParses(conv, f.columns[i].cells))
    ensures Layout(h, keys, f)
    ensures Conversions(conv, h, keys, f)
  {
    LayoutFrom(h, keys, f, aggs);
    ConversionsFrom(conv, h, keys, f, g, aggs);
  }

  /** The dtypes the conversion loop leaves: numeric exactly when the column
      was or when most of it parses, so never less numeric than before. */
  lemma ConvertedFlags(conv: Conv, f: Frame)
    ensures var g := ConvertAll(conv, f);
            && |g.columns| == |f.columns|
            && (forall i :: 0 <= i < |f.columns| ==>
                  (g.columns[i].numeric <==> f.columns[i].numeric || MostlyParses(conv, f.columns[i].cells)))
            && (forall i :: 0 <= i < |f.columns| && f.columns[i].numeric ==> g.columns[i].numeric)
  {
  }

  /** The columns of the consolidated frame: keys first, in key order, then
      each other input column exactly once; the numeric ones, as the
      conversion loop leaves them, come before the rest. */
  lemma ConsolidatedColumns(conv: Conv, f: Frame, given: Option<seq<string>>)
    requires WellFormed(f) && ConsolidateWith(conv, f, given).Ok?
    ensures Layout(ConsolidateWith(conv, f, given).value, KeysOf(f, given), f)
    ensures Conversions(conv, ConsolidateWith(conv, f, given).value, KeysOf(f, given), f)
  {
    var keys, g := KeysOf(f, given), ConvertAll(conv, f);
    ColumnSources(conv, f, given);
    ConvertedFlags(conv, f);
    AggregatedColumnsMeaning(f, g, keys);
    LayoutAndConversions(conv, ConsolidateWith(conv, f, given).value, keys, f, g, AggregatedColumns(f, g, keys));
  }
}
