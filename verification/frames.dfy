/** A pandas DataFrame as the modelled code uses it: named columns of equal
    height, each either of a numeric dtype or of object dtype. */
module Frames {
  import opened Outcomes
  import opened Cells
  import opened Search

  /** One column: its label, whether pandas counts its dtype as numeric
      (`select_dtypes(include=['number'])`) and its cells. */
  datatype Column = Column(name: string, numeric: bool, cells: seq<Cell>)

  /** The frame's height is kept apart so that a frame without columns still
      has one. */
  datatype Frame = Frame(height: nat, columns: seq<Column>)

  function Names(cols: seq<Column>): (names: seq<string>)
    ensures |names| == |cols|
    ensures forall i :: 0 <= i < |cols| ==> names[i] == cols[i].name
  {
    seq(|cols|, i requires 0 <= i < |cols| => cols[i].name)
  }

  /** Every column is as tall as the frame and no label repeats. */
  predicate WellFormed(f: Frame) {
    && (forall i :: 0 <= i < |f.columns| ==> |f.columns[i].cells| == f.height)
    && (forall i, j :: 0 <= i < j < |f.columns| ==> f.columns[i].name != f.columns[j].name)
  }

  /** `name in df.columns`. */
  predicate Has(f: Frame, name: string) {
    name in Names(f.columns)
  }

  /** The position of the column labelled `name`. */
  function Find(f: Frame, name: string): (r: Option<nat>)
    ensures r.Some? ==> r.value < |f.columns| && f.columns[r.value].name == name
    ensures r.None? <==> !Has(f, name)
  {
    IndexOf(Names(f.columns), name)
  }

  /** In a well-formed frame the column found is the only one with that
      label. */
  lemma FindUnique(f: Frame, name: string, i: nat)
    requires WellFormed(f) && i < |f.columns| && f.columns[i].name == name
    ensures Find(f, name) == Some(i)
  {
    assert Names(f.columns)[i] == name;
  }

  /** `df[name]` on a frame that has the column. */
  function Get(f: Frame, name: string): (c: Column)
    requires Has(f, name)
    ensures c in f.columns && c.name == name
  {
    f.columns[Find(f, name).value]
  }

  /** The frame with column `i` replaced, as `df[name] = ...` does for an
      existing label. */
  function Put(f: Frame, i: nat, c: Column): (g: Frame)
    requires i < |f.columns|
    ensures g.height == f.height && |g.columns| == |f.columns|
    ensures g.columns[i] == c
    ensures forall j :: 0 <= j < |f.columns| && j != i ==> g.columns[j] == f.columns[j]
  {
    Frame(f.height, f.columns[i := c])
  }

  /** Replacing a column by one of the same label keeps the labels, so the
      label still leads to the same position. */
  lemma PutKeepsNames(f: Frame, i: nat, c: Column)
    requires i < |f.columns| && c.name == f.columns[i].name
    ensures Names(Put(f, i, c).columns) == Names(f.columns)
    ensures Find(Put(f, i, c), c.name) == Find(f, c.name)
  {
    assert Names(Put(f, i, c).columns) == Names(f.columns);
  }

  /** Replacing a column by one of the same label and height keeps the frame
      well-formed. */
  lemma PutWellFormed(f: Frame, i: nat, c: Column)
    requires WellFormed(f) && i < |f.columns|
    requires c.name == f.columns[i].name && |c.cells| == f.height
    ensures WellFormed(Put(f, i, c))
    ensures Names(Put(f, i, c).columns) == Names(f.columns)
  {
  }
}
