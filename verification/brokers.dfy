/** `apply_broker_overrides`: broker names are upper-cased and stripped, and
    the names Refinitiv masks as "PERMISSION DENIED <id>" are replaced by the
    broker they stand for. */
module Brokers {
  import opened Outcomes
  import opened Text
  import opened Cells
  import opened Frames

  const BrokerColumn: string := "Broker Name"

  /** The override table, in the dictionary's insertion order: entry `k` is
      `Entry(k)`. */
  function Overrides(): seq<(string, string)> {
    seq(32, k requires 0 <= k < 32 => Entry(k))
  }

  function Entry(k: nat): (string, string)
    requires k < 32
  {
    match k
    case 0 => ("PERMISSION DENIED 1342152", "SBI SECURITIES")
    case 1 => ("PERMISSION DENIED 87408", "ROBERT W. BAIRD & CO")
    case 2 => ("PERMISSION DENIED 937880", "TACHIBANA SECURITIES")
    case 3 => ("PERMISSION DENIED 1120", "JEFFERIES")
    case 4 => ("PERMISSION DENIED 1207112", "MELIUS RESEARCH")
    case 5 => ("PERMISSION DENIED 1424952", "CFRA RESEARCH")
    case 6 => ("PERMISSION DENIED 156648", "IWAICOSMO SECURITIES")
    case 7 => ("PERMISSION DENIED 17472", "RBC CAPITAL MARKETS")
    case 8 => ("PERMISSION DENIED 211744", "CROSS RESEARCH")
    case 9 => ("PERMISSION DENIED 22760", "CLSA")
    case 10 => ("PERMISSION DENIED 23440", "MIZUHO")
    case 11 => ("PERMISSION DENIED 23816", "MORGAN STANLEY")
    case 12 => ("PERMISSION DENIED 25632", "CITIGROUP")
    case 13 => ("PERMISSION DENIED 266912", "KEPLER CHEUVREUX")
    case 14 => ("PERMISSION DENIED 284328", "ARETE RESEARCH SERVICES LLP")
    case 15 => ("PERMISSION DENIED 2880", "HSBC")
    case 16 => ("PERMISSION DENIED 310016", "REDBURN ATLANTIC")
    case 17 => ("PERMISSION DENIED 32", "BOFA")
    case 18 => ("PERMISSION DENIED 32848", "BMO CAPITAL")
    case 19 => ("PERMISSION DENIED 347360", "WOLFE RESEARCH")
    case 20 => ("PERMISSION DENIED 36928", "JP MORGAN")
    case 21 => ("PERMISSION DENIED 392", "DEUTSCHE BANK")
    case 22 => ("PERMISSION DENIED 398136", "BARCLAYS")
    case 23 => ("PERMISSION DENIED 483808", "HAITONG INTERNATIONAL")
    case 24 => ("PERMISSION DENIED 495296", "MIZUHO")
    case 25 => ("PERMISSION DENIED 512368", "SMBC NIKKO")
    case 26 => ("PERMISSION DENIED 54992", "BERNSTEIN")
    case 27 => ("PERMISSION DENIED 662336", "ALPHAVALUE")
    case 28 => ("PERMISSION DENIED 696", "TD COWEN")
    case 29 => ("PERMISSION DENIED 73704", "GOLDMAN SACHS")
    case 30 => ("PERMISSION DENIED 7896", "DAIWA SECURITIES")
    case 31 => ("PERMISSION DENIED 85152", "CANACCORD GENUITY")
  }

  /** `Series.replace(key, value)` on one string: whole-value match only. */
  function Replace(s: string, key: string, value: string): (r: string)
    ensures s == key ==> r == value
    ensures s != key ==> r == s
  {
    if s == key then value else s
  }

  /** The loop over the table: one `replace` per entry, in order, each
      applied to the result of the previous one. */
  function ReplaceAll(s: string, pairs: seq<(string, string)>): string
    decreases |pairs|
  {
    if |pairs| == 0 then s else ReplaceAll(Replace(s, pairs[0].0, pairs[0].1), pairs[1..])
  }

  /** A dictionary lookup: the value of the first entry keyed `s`. */
  function Lookup(s: string, pairs: seq<(string, string)>): Option<string>
    decreases |pairs|
  {
    if |pairs| == 0 then None
    else if pairs[0].0 == s then Some(pairs[0].1)
    else Lookup(s, pairs[1..])
  }

  /** The lookup finds the first entry with the key, and fails exactly when
      there is none. */
  lemma {:induction false} LookupMeaning(s: string, pairs: seq<(string, string)>)
    ensures var r := Lookup(s, pairs);
            && (r.Some? ==> exists i :: 0 <= i < |pairs| && pairs[i] == (s, r.value)
                                        && forall j :: 0 <= j < i ==> pairs[j].0 != s)
            && (r.None? <==> forall i :: 0 <= i < |pairs| ==> pairs[i].0 != s)
    decreases |pairs|
  {
    if |pairs| > 0 && pairs[0].0 != s {
      var rest := pairs[1..];
      LookupMeaning(s, rest);
      assert forall i :: 0 <= i < |rest| ==> rest[i] == pairs[i + 1];
      var r := Lookup(s, rest);
      if r.Some? {
        var i :| 0 <= i < |rest| && rest[i] == (s, r.value) && forall j :: 0 <= j < i ==> rest[j].0 != s;
        assert pairs[i + 1] == (s, r.value);
        assert forall j :: 0 <= j < i + 1 ==> pairs[j].0 != s by {
          forall j | 0 <= j < i + 1 ensures pairs[j].0 != s {
            if j > 0 { assert pairs[j] == rest[j - 1]; }
          }
        }
      } else {
        assert forall i :: 0 <= i < |pairs| ==> pairs[i].0 != s by {
          forall i | 0 <= i < |pairs| ensures pairs[i].0 != s {
            if i > 0 { assert pairs[i] == rest[i - 1]; }
          }
        }
      }
    } else if |pairs| > 0 {
      assert pairs[0] == (s, pairs[0].1);
    }
  }

  /** No value of the table is also one of its keys. */
  predicate ValuesAreNotKeys(pairs: seq<(string, string)>) {
    forall i, j :: 0 <= i < |pairs| && 0 <= j < |pairs| ==> pairs[i].1 != pairs[j].0
  }

  /** A string that is no key passes every `replace` unchanged. */
  lemma {:induction false} ReplaceAllNoKey(s: string, pairs: seq<(string, string)>)
    requires forall i :: 0 <= i < |pairs| ==> pairs[i].0 != s
    ensures ReplaceAll(s, pairs) == s
    decreases |pairs|
  {
    if |pairs| > 0 {
      assert forall i :: 0 <= i < |pairs[1..]| ==> pairs[1..][i] == pairs[i + 1];
      ReplaceAllNoKey(s, pairs[1..]);
    }
  }

  /** When no value is a key, the chain of replacements is one dictionary
      lookup: a key becomes its value and anything else is left alone. */
  lemma {:induction false} ReplaceAllIsLookup(s: string, pairs: seq<(string, string)>)
    requires ValuesAreNotKeys(pairs)
    ensures ReplaceAll(s, pairs) == match Lookup(s, pairs) case Some(v) => v case None => s
    decreases |pairs|
  {
    if |pairs| > 0 {
      var rest := pairs[1..];
      assert forall i :: 0 <= i < |rest| ==> rest[i] == pairs[i + 1];
      if s == pairs[0].0 {
        assert forall i :: 0 <= i < |rest| ==> rest[i].0 != pairs[0].1 by {
          forall i | 0 <= i < |rest| ensures rest[i].0 != pairs[0].1 {
            assert pairs[0].1 != pairs[i + 1].0;
          }
        }
        ReplaceAllNoKey(pairs[0].1, rest);
      } else {
        ReplaceAllIsLookup(s, rest);
      }
    }
  }

  /** Moving a lookup hit to its index: the first entry keyed `s` gives the
      value. */
  lemma {:induction false} LookupAt(s: string, pairs: seq<(string, string)>, i: nat)
    requires i < |pairs| && pairs[i].0 == s
    requires forall j :: 0 <= j < i ==> pairs[j].0 != s
    ensures Lookup(s, pairs) == Some(pairs[i].1)
    decreases i
  {
    if i > 0 {
      var rest := pairs[1..];
      assert forall j :: 0 <= j < i - 1 ==> rest[j] == pairs[j + 1];
      LookupAt(s, rest, i - 1);
    }
  }

  /** A broker name as the overrides leave it: non-empty, upper-case and
      with no whitespace at either end. */
  predicate Clean(v: string) {
    |v| > 0 && !IsSpace(v[0]) && !IsSpace(v[|v| - 1]) && IsUpper(v)
  }

  /** What the idempotence of the overrides rests on: no value is a key and
      every value is already upper-case and stripped. */
  predicate Sound(table: seq<(string, string)>) {
    && ValuesAreNotKeys(table)
    && forall i :: 0 <= i < |table| ==> IsUpper(table[i].1) && Strip(table[i].1) == table[i].1
  }

  /** An entry as the table's entries are: a key starting with 'P' and a
      clean value that does not. */
  predicate GoodEntry(e: (string, string)) {
    |e.0| > 0 && e.0[0] == 'P' && Clean(e.1) && e.1[0] != 'P'
  }

  /** A table of good entries is sound. */
  lemma GoodTableSound(table: seq<(string, string)>)
    requires forall k :: 0 <= k < |table| ==> GoodEntry(table[k])
    ensures Sound(table)
  {
    forall i, j | 0 <= i < |table| && 0 <= j < |table| ensures table[i].1 != table[j].0 {
      assert table[i].1[0] != table[j].0[0];
    }
    forall i | 0 <= i < |table| ensures Strip(table[i].1) == table[i].1 {
      StripOfStripped(table[i].1);
    }
  }

  /** Each broker name of the table is clean; the names are checked two at a
      time. */
  lemma NamesClean0() ensures Clean("SBI SECURITIES") && Clean("ROBERT W. BAIRD & CO") {}
  lemma NamesClean1() ensures Clean("TACHIBANA SECURITIES") && Clean("JEFFERIES") {}
  lemma NamesClean2() ensures Clean("MELIUS RESEARCH") && Clean("CFRA RESEARCH") {}
  lemma NamesClean3() ensures Clean("IWAICOSMO SECURITIES") && Clean("RBC CAPITAL MARKETS") {}
  lemma NamesClean4() ensures Clean("CROSS RESEARCH") && Clean("CLSA") {}
  lemma NamesClean5() ensures Clean("MIZUHO") && Clean("MORGAN STANLEY") {}
  lemma NamesClean6() ensures Clean("CITIGROUP") && Clean("KEPLER CHEUVREUX") {}
  lemma NamesClean7() ensures Clean("ARETE RESEARCH SERVICES LLP") && Clean("HSBC") {}
  lemma NamesClean8() ensures Clean("REDBURN ATLANTIC") && Clean("BOFA") {}
  lemma NamesClean9() ensures Clean("BMO CAPITAL") && Clean("WOLFE RESEARCH") {}
  lemma NamesClean10() ensures Clean("JP MORGAN") && Clean("DEUTSCHE BANK") {}
  lemma NamesClean11() ensures Clean("BARCLAYS") && Clean("HAITONG INTERNATIONAL") {}
  lemma NamesClean12() ensures Clean("MIZUHO") && Clean("SMBC NIKKO") {}
  lemma NamesClean13() ensures Clean("BERNSTEIN") && Clean("ALPHAVALUE") {}
  lemma NamesClean14() ensures Clean("TD COWEN") && Clean("GOLDMAN SACHS") {}
  lemma NamesClean15() ensures Clean("DAIWA SECURITIES") && Clean("CANACCORD GENUITY") {}

  /** The entries of the table are good, four at a time. */
  lemma EntriesGood0()
    ensures forall k :: 0 <= k < 4 ==> GoodEntry(Entry(k))
  {
    NamesClean0();
    NamesClean1();
  }

  lemma EntriesGood1()
    ensures forall k :: 4 <= k < 8 ==> GoodEntry(Entry(k))
  {
    NamesClean2();
    NamesClean3();
  }

  lemma EntriesGood2()
    ensures forall k :: 8 <= k < 12 ==> GoodEntry(Entry(k))
  {
    NamesClean4();
    NamesClean5();
  }

  lemma EntriesGood3()
    ensures forall k :: 12 <= k < 16 ==> GoodEntry(Entry(k))
  {
    NamesClean6();
    NamesClean7();
  }

  lemma EntriesGood4()
    ensures forall k :: 16 <= k < 20 ==> GoodEntry(Entry(k))
  {
    NamesClean8();
    NamesClean9();
  }

  lemma EntriesGood5()
    ensures forall k :: 20 <= k < 24 ==> GoodEntry(Entry(k))
  {
    NamesClean10();
    NamesClean11();
  }

  lemma EntriesGood6()
    ensures forall k :: 24 <= k < 28 ==> GoodEntry(Entry(k))
  {
    NamesClean12();
    NamesClean13();
  }

  lemma EntriesGood7()
    ensures forall k :: 28 <= k < 32 ==> GoodEntry(Entry(k))
  {
    NamesClean14();
    NamesClean15();
  }

  /** The table is sound: its keys all read "PERMISSION DENIED ...", and its
      values are broker names in capitals. */
  lemma OverridesSound()
    ensures Sound(Overrides())
  {
    EntriesGood0(); EntriesGood1(); EntriesGood2(); EntriesGood3();
    EntriesGood4(); EntriesGood5(); EntriesGood6(); EntriesGood7();
    GoodTableSound(Overrides());
  }

  /** `.astype(str).str.upper().str.strip()` on one cell. */
  function Normalize(conv: Conv, c: Cell): (s: string)
    ensures IsUpper(s) && Strip(s) == s
  {
    UpperOfStrip(Render(conv, c));
    StripIdempotent(Upper(Render(conv, c)));
    assert IsUpper(Upper(Strip(Upper(Render(conv, c)))));
    Strip(Upper(Render(conv, c)))
  }

  /** The overridden name is the table's value for a key, and the name itself
      otherwise. */
  lemma OverrideMeaning(table: seq<(string, string)>, s: string)
    requires ValuesAreNotKeys(table)
    ensures Lookup(s, table).Some? ==> ReplaceAll(s, table) == Lookup(s, table).value
    ensures Lookup(s, table).None? ==> ReplaceAll(s, table) == s
  {
    ReplaceAllIsLookup(s, table);
  }

  /** The new cell of the broker column. */
  function BrokerCell(conv: Conv, table: seq<(string, string)>, c: Cell): Cell {
    Text(ReplaceAll(Normalize(conv, c), table))
  }

  /** `apply_broker_overrides` with the override table as a parameter: the
      broker column, when there is one, becomes a column of normalised,
      overridden names; the frame is otherwise left as it was. */
  function ApplyWith(conv: Conv, table: seq<(string, string)>, f: Frame): (g: Frame)
    ensures !Has(f, BrokerColumn) ==> g == f
    ensures g.height == f.height && Names(g.columns) == Names(f.columns)
    ensures WellFormed(f) ==> WellFormed(g)
    ensures forall j :: 0 <= j < |f.columns| && f.columns[j].name != BrokerColumn ==> g.columns[j] == f.columns[j]
    ensures Has(f, BrokerColumn) ==>
              var before := Get(f, BrokerColumn);
              var after := Get(g, BrokerColumn);
              && !after.numeric && |after.cells| == |before.cells|
              && forall k :: 0 <= k < |before.cells| ==> after.cells[k] == BrokerCell(conv, table, before.cells[k])
  {
    match Find(f, BrokerColumn)
    case None => f
    case Some(i) =>
      var col := f.columns[i];
      var cells := seq(|col.cells|, k requires 0 <= k < |col.cells| => BrokerCell(conv, table, col.cells[k]));
      var c := Column(col.name, false, cells);
      PutKeepsNames(f, i, c);
      Put(f, i, c)
  }

  /** `apply_broker_overrides` itself. */
  function Apply(conv: Conv, f: Frame): Frame {
    ApplyWith(conv, Overrides(), f)
  }

  /** Overriding a clean name gives a clean name that no key matches: either
      a value of the table or the name itself. */
  lemma OverriddenClean(table: seq<(string, string)>, s: string)
    requires Sound(table) && IsUpper(s) && Strip(s) == s
    ensures var v := ReplaceAll(s, table);
            IsUpper(v) && Strip(v) == v && ReplaceAll(v, table) == v
  {
    var v := ReplaceAll(s, table);
    LookupMeaning(s, table);
    OverrideMeaning(table, s);
    if Lookup(s, table).Some? {
      var i :| 0 <= i < |table| && table[i] == (s, v);
      assert forall j :: 0 <= j < |table| ==> table[i].1 != table[j].0;
      ReplaceAllNoKey(v, table);
    } else {
      ReplaceAllNoKey(s, table);
    }
  }

  /** Normalising a clean name gives it back. */
  lemma NormalizeClean(conv: Conv, v: string)
    requires IsUpper(v) && Strip(v) == v
    ensures Normalize(conv, Text(v)) == v
  {
    UpperOfUpper(v);
  }

  /** A normalised, overridden name is clean again: upper-case and stripped,
      so normalising it changes nothing, and it is no key, so the table
      leaves it alone. Running the override twice on a cell is running it
      once. */
  lemma BrokerCellStable(conv: Conv, table: seq<(string, string)>, c: Cell)
    requires Sound(table)
    ensures var d := BrokerCell(conv, table, c);
            && d.Text? && IsUpper(d.s) && Strip(d.s) == d.s
            && BrokerCell(conv, table, d) == d
  {
    var s := Normalize(conv, c);
    OverriddenClean(table, s);
    NormalizeClean(conv, ReplaceAll(s, table));
  }

  /** The broker column after the overrides holds clean names only. */
  lemma BrokerNamesClean(conv: Conv, table: seq<(string, string)>, f: Frame)
    requires Sound(table) && Has(f, BrokerColumn)
    ensures var after := Get(ApplyWith(conv, table, f), BrokerColumn);
            forall k :: 0 <= k < |after.cells| ==>
              after.cells[k].Text? && IsUpper(after.cells[k].s) && Strip(after.cells[k].s) == after.cells[k].s
  {
    var before := Get(f, BrokerColumn);
    var after := Get(ApplyWith(conv, table, f), BrokerColumn);
    forall k | 0 <= k < |after.cells|
      ensures after.cells[k].Text? && IsUpper(after.cells[k].s) && Strip(after.cells[k].s) == after.cells[k].s
    {
      BrokerCellStable(conv, table, before.cells[k]);
    }
  }

  /** A frame whose broker column is already of object dtype and holds only
      names the overrides leave alone is left as it is. */
  lemma ApplyStable(conv: Conv, table: seq<(string, string)>, g: Frame, i: nat)
    requires Find(g, BrokerColumn) == Some(i) && !g.columns[i].numeric
    requires forall k :: 0 <= k < |g.columns[i].cells| ==> BrokerCell(conv, table, g.columns[i].cells[k]) == g.columns[i].cells[k]
    ensures ApplyWith(conv, table, g) == g
  {
    var col := g.columns[i];
    var cells := seq(|col.cells|, k requires 0 <= k < |col.cells| => BrokerCell(conv, table, col.cells[k]));
    assert cells == col.cells;
    assert g.columns[i := Column(col.name, false, cells)] == g.columns;
  }

  /** Applying the overrides twice is applying them once. */
  lemma ApplyIdempotent(conv: Conv, table: seq<(string, string)>, f: Frame)
    requires Sound(table)
    ensures ApplyWith(conv, table, ApplyWith(conv, table, f)) == ApplyWith(conv, table, f)
  {
    var g := ApplyWith(conv, table, f);
    match Find(f, BrokerColumn)
    case None =>
    case Some(i) =>
      assert Find(g, BrokerColumn) == Some(i);
      var before, after := f.columns[i], g.columns[i];
      assert after == Get(g, BrokerColumn) && before == Get(f, BrokerColumn);
      forall k | 0 <= k < |after.cells| ensures BrokerCell(conv, table, after.cells[k]) == after.cells[k] {
        BrokerCellStable(conv, table, before.cells[k]);
      }
      ApplyStable(conv, table, g, i);
  }

  /** The source's overrides are idempotent and leave clean broker names. */
  lemma OverridesIdempotent(conv: Conv, f: Frame)
    ensures Apply(conv, Apply(conv, f)) == Apply(conv, f)
    ensures Has(f, BrokerColumn) ==>
              var after := Get(Apply(conv, f), BrokerColumn);
              forall k :: 0 <= k < |after.cells| ==> after.cells[k].Text? && IsUpper(after.cells[k].s)
  {
    OverridesSound();
    ApplyIdempotent(conv, Overrides(), f);
    if Has(f, BrokerColumn) {
      BrokerNamesClean(conv, Overrides(), f);
    }
  }

  /** The first nine keys are neither BMO Capital's nor BofA's. */
  lemma KeysDiffer0()
    ensures forall j :: 0 <= j < 9 ==> Entry(j).0 != "PERMISSION DENIED 32848" && Entry(j).0 != "PERMISSION DENIED 32"
  {
  }

  /** Nor are the next eight, up to BofA's own entry. */
  lemma KeysDiffer1()
    ensures forall j :: 9 <= j < 17 ==> Entry(j).0 != "PERMISSION DENIED 32848" && Entry(j).0 != "PERMISSION DENIED 32"
  {
  }

  /** The table maps BMO Capital's masked name to its entry, the first whose
      key equals it. */
  lemma BmoAt()
    ensures Lookup("PERMISSION DENIED 32848", Overrides()) == Some("BMO CAPITAL")
  {
    var bmo := "PERMISSION DENIED 32848";
    KeysDiffer0();
    KeysDiffer1();
    assert Entry(17).0 != bmo;
    assert forall j :: 0 <= j < 18 ==> Overrides()[j].0 != bmo;
    assert Overrides()[18] == (bmo, "BMO CAPITAL");
    LookupAt(bmo, Overrides(), 18);
  }

  /** The table maps BofA's masked name to its entry. */
  lemma BofaAt()
    ensures Lookup("PERMISSION DENIED 32", Overrides()) == Some("BOFA")
  {
    var bofa := "PERMISSION DENIED 32";
    KeysDiffer0();
    KeysDiffer1();
    assert forall j :: 0 <= j < 17 ==> Overrides()[j].0 != bofa;
    assert Overrides()[17] == (bofa, "BOFA");
    LookupAt(bofa, Overrides(), 17);
  }

  /** A masked name is replaced as a whole: "PERMISSION DENIED 32848" is BMO
      Capital, although BofA's key "PERMISSION DENIED 32" is a prefix of it
      and comes first in the table. */
  lemma MaskedNameResolved(conv: Conv)
    ensures BrokerCell(conv, Overrides(), Text("PERMISSION DENIED 32848")) == Text("BMO CAPITAL")
  {
    var bmo := "PERMISSION DENIED 32848";
    assert IsUpper(bmo);
    StripOfStripped(bmo);
    NormalizeClean(conv, bmo);
    OverridesSound();
    OverrideMeaning(Overrides(), bmo);
    BmoAt();
  }

  /** The shorter masked name "PERMISSION DENIED 32" is BofA. */
  lemma PrefixKeyResolved(conv: Conv)
    ensures BrokerCell(conv, Overrides(), Text("PERMISSION DENIED 32")) == Text("BOFA")
  {
    var bofa := "PERMISSION DENIED 32";
    assert IsUpper(bofa);
    StripOfStripped(bofa);
    NormalizeClean(conv, bofa);
    OverridesSound();
    OverrideMeaning(Overrides(), bofa);
    BofaAt();
  }
}
