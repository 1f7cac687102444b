/**
 * What `get_data` promises about its result, stated on `GetDataSpec` (which
 * `Preparer.GetData` computes): which labels make it fail, which columns and
 * rows survive and in what order, that `X` and `y` stay row-aligned, and
 * what the encoding and the label cast do to the cells.
 */
module PreparerProperties {
  import opened Frames
  import opened Preparer
  import Encoder

  /** The result in terms of the survivors and the kept rows: columns are dropped first, then rows. */
  lemma GetDataShape(df: Table, labels: string, thresh: real, toDrop: Option<seq<string>>)
    requires WellFormed(df)
    requires GetDataSpec(df, labels, thresh, toDrop).Ok?
    ensures labels in Names(df.columns)
    ensures var s := Survivors(df, labels, thresh, toDrop);
      var rows := KeptRows(df, labels, thresh, toDrop);
      var yc := LabelColumn(df, labels);
      && RowsWithin(rows, |df.index|)
      && (forall j :: 0 <= j < |s| ==> |s[j].cells| == |df.index|)
      && |yc.cells| == |df.index|
      && GetDataSpec(df, labels, thresh, toDrop)
           == Ok(Prepared(EncodeAll(Table(Pick(df.index, rows), RestrictAll(s, rows))), CastLabel(Restrict(yc, rows))))
  {
    PrepareColumnsOk(df, labels, thresh, toDrop);
    PrepareColumnsShape(df, labels, thresh, toDrop);
  }

  /**
   * An absent label raises KeyError at line 91; otherwise an absent column to
   * drop raises KeyError at line 92, naming every such column; otherwise
   * there is a result.
   */
  lemma GetDataErrors(df: Table, labels: string, thresh: real, toDrop: Option<seq<string>>)
    requires WellFormed(df)
    ensures labels !in Names(df.columns) ==>
      GetDataSpec(df, labels, thresh, toDrop) == Err(KeyNotFound([labels]))
    ensures labels in Names(df.columns) && MissingNames(df.columns, DropList(toDrop, labels)) != [] ==>
      GetDataSpec(df, labels, thresh, toDrop) == Err(KeyNotFound(MissingNames(df.columns, DropList(toDrop, labels))))
    ensures GetDataSpec(df, labels, thresh, toDrop).Ok? <==>
      labels in Names(df.columns) && MissingNames(df.columns, DropList(toDrop, labels)) == []
  {
    var dl := DropList(toDrop, labels);
    PrepareColumnsOk(df, labels, thresh, toDrop);
    if MissingNames(df.columns, dl) != [] {
      assert MissingNames(df.columns, dl)[0] in MissingNames(df.columns, dl);
    }
  }

  /** Neither the label nor any column asked to be dropped is among the columns of `X`. */
  lemma DroppedColumnsAbsent(df: Table, labels: string, thresh: real, toDrop: Option<seq<string>>)
    requires WellFormed(df)
    requires GetDataSpec(df, labels, thresh, toDrop).Ok?
    ensures labels !in Names(GetDataSpec(df, labels, thresh, toDrop).value.x.columns)
    ensures toDrop.Some? ==>
      forall d :: d in toDrop.value ==> d !in Names(GetDataSpec(df, labels, thresh, toDrop).value.x.columns)
  {
    GetDataShape(df, labels, thresh, toDrop);
    var x := GetDataSpec(df, labels, thresh, toDrop).value.x;
    var s := Survivors(df, labels, thresh, toDrop);
    assert Names(x.columns) == Names(s);
    forall j | 0 <= j < |s|
      ensures Names(s)[j] !in DropList(toDrop, labels)
    {
      assert s[j] in s;
    }
  }

  /** With distinct labels, the label of the column at `m` is first found at `m`. */
  lemma PositionOfDistinct(cols: seq<Column>, m: nat)
    requires DistinctNames(cols) && m < |cols|
    ensures cols[m].name in Names(cols) && PositionOf(cols, cols[m].name) == m
  {
    assert Names(cols)[m] == cols[m].name;
  }

  /** Every position moved one place right. */
  function Shifted(origin: seq<nat>): (r: seq<nat>)
    ensures |r| == |origin| && forall k :: 0 <= k < |r| ==> r[k] == origin[k] + 1
  {
    seq(|origin|, k requires 0 <= k < |origin| => origin[k] + 1)
  }

  /** The positions of the columns that pass `test`. */
  function Passing(cols: seq<Column>, test: ColumnTest): seq<nat> {
    if cols == [] then []
    else
      var rest := Shifted(Passing(cols[1..], test));
      if Passes(cols[0], test) then [0] + rest else rest
  }

  /** The passing positions are valid positions, in increasing order. */
  lemma {:induction false} PassingIncreasing(cols: seq<Column>, test: ColumnTest)
    ensures forall k :: 0 <= k < |Passing(cols, test)| ==> Passing(cols, test)[k] < |cols|
    ensures forall k, l :: 0 <= k < l < |Passing(cols, test)| ==> Passing(cols, test)[k] < Passing(cols, test)[l]
  {
    if cols != [] {
      PassingIncreasing(cols[1..], test);
    }
  }

  /** `Keep` and `Passing` past a first column that passes. */
  lemma UnfoldPassing(cols: seq<Column>, test: ColumnTest)
    requires cols != [] && Passes(cols[0], test)
    ensures Keep(cols, test) == [cols[0]] + Keep(cols[1..], test)
    ensures Passing(cols, test) == [0] + Shifted(Passing(cols[1..], test))
  {
  }

  /** `Keep` and `Passing` past a first column that fails. */
  lemma UnfoldFailing(cols: seq<Column>, test: ColumnTest)
    requires cols != [] && !Passes(cols[0], test)
    ensures Keep(cols, test) == Keep(cols[1..], test)
    ensures Passing(cols, test) == Shifted(Passing(cols[1..], test))
  {
  }

  /** `Keep` returns the input's columns at the passing positions. */
  lemma {:induction false} KeepAt(cols: seq<Column>, test: ColumnTest, k: nat)
    requires k < |Keep(cols, test)|
    ensures k < |Passing(cols, test)| && Passing(cols, test)[k] < |cols|
    ensures Keep(cols, test)[k] == cols[Passing(cols, test)[k]]
    decreases |cols|, 1
  {
    if Passes(cols[0], test) {
      KeepAtPassing(cols, test, k);
    } else {
      KeepAtFailing(cols, test, k);
    }
  }

  lemma {:induction false} KeepAtPassing(cols: seq<Column>, test: ColumnTest, k: nat)
    requires cols != [] && Passes(cols[0], test) && k < |Keep(cols, test)|
    ensures k < |Passing(cols, test)| && Passing(cols, test)[k] < |cols|
    ensures Keep(cols, test)[k] == cols[Passing(cols, test)[k]]
    decreases |cols|, 0
  {
    UnfoldPassing(cols, test);
    if k > 0 {
      var tail := cols[1..];
      KeepAt(tail, test, k - 1);
      var p := Passing(tail, test)[k - 1];
      assert cols[p + 1] == tail[p];
    }
  }

  lemma {:induction false} KeepAtFailing(cols: seq<Column>, test: ColumnTest, k: nat)
    requires cols != [] && !Passes(cols[0], test) && k < |Keep(cols, test)|
    ensures k < |Passing(cols, test)| && Passing(cols, test)[k] < |cols|
    ensures Keep(cols, test)[k] == cols[Passing(cols, test)[k]]
    decreases |cols|, 0
  {
    UnfoldFailing(cols, test);
    var tail := cols[1..];
    KeepAt(tail, test, k);
    var p := Passing(tail, test)[k];
    assert cols[p + 1] == tail[p];
  }

  /** A column lies before another in `Keep`'s result only if it lies before it in the input. */
  lemma KeepKeepsOrder(cols: seq<Column>, test: ColumnTest, i: nat, j: nat)
    requires DistinctNames(cols)
    requires i < j < |Keep(cols, test)|
    ensures Keep(cols, test)[i].name in Names(cols) && Keep(cols, test)[j].name in Names(cols)
    ensures PositionOf(cols, Keep(cols, test)[i].name) < PositionOf(cols, Keep(cols, test)[j].name)
  {
    KeepAt(cols, test, i);
    KeepAt(cols, test, j);
    PassingIncreasing(cols, test);
    var origin := Passing(cols, test);
    PositionOfDistinct(cols, origin[i]);
    PositionOfDistinct(cols, origin[j]);
  }

  /** Which feature columns survive the two column drops, and in what order. */
  lemma SurvivorsMeaning(df: Table, labels: string, thresh: real, toDrop: Option<seq<string>>)
    requires DistinctNames(df.columns)
    ensures var s := Survivors(df, labels, thresh, toDrop);
      && (forall j :: 0 <= j < |df.columns| ==>
            (df.columns[j].name in Names(s) <==>
               && df.columns[j].name != labels
               && !(toDrop.Some? && df.columns[j].name in toDrop.value)
               && (Count(df.columns[j].cells) as real) >= thresh * (|df.index| as real)))
      && (forall i :: 0 <= i < |s| ==> Names(s)[i] in Names(df.columns))
      && (forall i, j :: 0 <= i < j < |s| ==>
            PositionOf(df.columns, Names(s)[i]) < PositionOf(df.columns, Names(s)[j]))
  {
    var test := Both(NotIn(DropList(toDrop, labels)), AtLeast(thresh, |df.index|));
    var s := Survivors(df, labels, thresh, toDrop);
    forall j | 0 <= j < |df.columns|
      ensures df.columns[j].name in Names(s) <==> Passes(df.columns[j], test)
      ensures Passes(df.columns[j], test) <==>
        && df.columns[j].name != labels
        && !(toDrop.Some? && df.columns[j].name in toDrop.value)
        && (Count(df.columns[j].cells) as real) >= thresh * (|df.index| as real)
    {
      var c := df.columns[j];
      if Passes(c, test) {
        assert c in s;
        var i :| 0 <= i < |s| && s[i] == c;
        assert Names(s)[i] == c.name;
      }
      if c.name in Names(s) {
        var i :| 0 <= i < |s| && Names(s)[i] == c.name;
        assert s[i] in df.columns;
        var j' :| 0 <= j' < |df.columns| && df.columns[j'] == s[i];
        assert j' == j;
      }
    }
    forall i | 0 <= i < |s|
      ensures Names(s)[i] in Names(df.columns)
    {
      assert s[i] in df.columns;
      var m :| 0 <= m < |df.columns| && df.columns[m] == s[i];
      assert Names(df.columns)[m] == Names(s)[i];
    }
    forall i, j | 0 <= i < j < |s|
      ensures PositionOf(df.columns, Names(s)[i]) < PositionOf(df.columns, Names(s)[j])
    {
      assert Names(s)[i] == s[i].name && Names(s)[j] == s[j].name;
      KeepKeepsOrder(df.columns, test, i, j);
    }
  }

  /**
   * A feature column is in `X` iff it is neither the label nor asked to be
   * dropped and its present count reaches `thresh` times the original row
   * count; the columns of `X` keep their original relative order.
   */
  lemma SurvivingColumns(df: Table, labels: string, thresh: real, toDrop: Option<seq<string>>)
    requires WellFormed(df)
    requires GetDataSpec(df, labels, thresh, toDrop).Ok?
    ensures var names := Names(GetDataSpec(df, labels, thresh, toDrop).value.x.columns);
      && (forall j :: 0 <= j < |df.columns| ==>
            (df.columns[j].name in names <==>
               && df.columns[j].name != labels
               && !(toDrop.Some? && df.columns[j].name in toDrop.value)
               && (Count(df.columns[j].cells) as real) >= thresh * (|df.index| as real)))
      && (forall i :: 0 <= i < |names| ==> names[i] in Names(df.columns))
      && (forall i, j :: 0 <= i < j < |names| ==>
            PositionOf(df.columns, names[i]) < PositionOf(df.columns, names[j]))
  {
    GetDataShape(df, labels, thresh, toDrop);
    SurvivorsMeaning(df, labels, thresh, toDrop);
  }

  /** The kept rows: those complete in every survivor and in the label, in increasing order. */
  lemma RowsMeaning(df: Table, labels: string, thresh: real, toDrop: Option<seq<string>>)
    requires Rectangular(df) && labels in Names(df.columns)
    ensures var rows := KeptRows(df, labels, thresh, toDrop);
      var s := Survivors(df, labels, thresh, toDrop);
      var yc := LabelColumn(df, labels);
      && yc.name == labels && |yc.cells| == |df.index|
      && (forall j :: 0 <= j < |s| ==> |s[j].cells| == |df.index|)
      && RowsWithin(rows, |df.index|)
      && (forall k, l :: 0 <= k < l < |rows| ==> rows[k] < rows[l])
      && (forall p: nat :: p in rows <==>
            && p < |df.index|
            && yc.cells[p].Some?
            && forall j :: 0 <= j < |s| ==> s[j].cells[p].Some?)
  {
    var s := Survivors(df, labels, thresh, toDrop);
    var yc := LabelColumn(df, labels);
    var cols := s + [yc];
    forall j | 0 <= j < |s|
      ensures |s[j].cells| == |df.index|
    {
      assert s[j] in s;
    }
    forall p: nat | p < |df.index|
      ensures RowComplete(cols, p) <==> yc.cells[p].Some? && forall j :: 0 <= j < |s| ==> s[j].cells[p].Some?
    {
      if yc.cells[p].Some? && forall j :: 0 <= j < |s| ==> s[j].cells[p].Some? {
        forall j | 0 <= j < |cols|
          ensures p < |cols[j].cells| && cols[j].cells[p].Some?
        {
          if j < |s| {
            assert cols[j] == s[j];
          }
        }
      }
      if RowComplete(cols, p) {
        assert cols[|s|] == yc;
        forall j | 0 <= j < |s|
          ensures s[j].cells[p].Some?
        {
          assert cols[j] == s[j];
        }
      }
    }
  }

  /**
   * The rows of `X` and `y` are the original rows that have a value in every
   * surviving feature and in the label, in their original order, with their
   * original index labels.
   */
  lemma KeptRowsExactly(df: Table, labels: string, thresh: real, toDrop: Option<seq<string>>)
    requires WellFormed(df)
    requires GetDataSpec(df, labels, thresh, toDrop).Ok?
    ensures labels in Names(df.columns)
    ensures var rows := KeptRows(df, labels, thresh, toDrop);
      var s := Survivors(df, labels, thresh, toDrop);
      var yc := LabelColumn(df, labels);
      && |yc.cells| == |df.index|
      && (forall j :: 0 <= j < |s| ==> |s[j].cells| == |df.index|)
      && RowsWithin(rows, |df.index|)
      && GetDataSpec(df, labels, thresh, toDrop).value.x.index == Pick(df.index, rows)
      && (forall k, l :: 0 <= k < l < |rows| ==> rows[k] < rows[l])
      && (forall p: nat :: p in rows <==>
            && p < |df.index|
            && yc.cells[p].Some?
            && forall j :: 0 <= j < |s| ==> s[j].cells[p].Some?)
  {
    GetDataShape(df, labels, thresh, toDrop);
    RowsMeaning(df, labels, thresh, toDrop);
  }

  /**
   * The column drop comes before the row drop: a row whose only missing
   * cells lie in columns already removed (asked for, or below the threshold)
   * is kept.
   */
  lemma RowMissingOnlyInDroppedColumnsKept(df: Table, labels: string, thresh: real, toDrop: Option<seq<string>>, p: nat)
    requires Rectangular(df) && labels in Names(df.columns)
    requires p < |df.index|
    requires forall j :: 0 <= j < |df.columns| && df.columns[j].cells[p].None? ==>
      (df.columns[j].name != labels && toDrop.Some? && df.columns[j].name in toDrop.value)
      || (df.columns[j].name != labels && (Count(df.columns[j].cells) as real) < thresh * (|df.index| as real))
    ensures p in KeptRows(df, labels, thresh, toDrop)
  {
    RowsMeaning(df, labels, thresh, toDrop);
    var s := Survivors(df, labels, thresh, toDrop);
    var test := Both(NotIn(DropList(toDrop, labels)), AtLeast(thresh, |df.index|));
    forall j | 0 <= j < |s|
      ensures s[j].cells[p].Some?
    {
      assert s[j] in s;
      var i :| 0 <= i < |df.columns| && df.columns[i] == s[j];
      assert Passes(s[j], test);
      assert Passes(s[j], NotIn(DropList(toDrop, labels))) && Passes(s[j], AtLeast(thresh, |df.index|));
    }
    var pos := PositionOf(df.columns, labels);
    assert df.columns[pos] == LabelColumn(df, labels);
  }

  /** Lines 100-107 on the survivors `s` and label column `yc`, cut down to the complete rows. */
  lemma OutputParts(index: seq<int>, s: seq<Column>, yc: Column)
    requires forall j :: 0 <= j < |s| ==> |s[j].cells| == |index|
    requires |yc.cells| == |index|
    ensures var rows := CompleteRows(s + [yc], |index|);
      && RowsWithin(rows, |yc.cells|)
      && (forall j :: 0 <= j < |s| ==> RowsWithin(rows, |s[j].cells|))
      && (forall k :: 0 <= k < |rows| ==>
            yc.cells[rows[k]].Some? && forall j :: 0 <= j < |s| ==> s[j].cells[rows[k]].Some?)
      && var x := EncodeAll(Table(Pick(index, rows), RestrictAll(s, rows)));
      && var y := CastLabel(Restrict(yc, rows));
      && |x.index| == |rows| && |y.cells| == |rows| && |x.columns| == |s| && y.name == yc.name
      && (forall j :: 0 <= j < |s| ==> |x.columns[j].cells| == |rows|)
      && (forall j, k :: 0 <= j < |s| && 0 <= k < |rows| ==> x.columns[j].cells[k].Some?)
      && (forall k :: 0 <= k < |rows| ==> y.cells[k].Some?)
  {
    var rows := CompleteRows(s + [yc], |index|);
    var cols := s + [yc];
    forall k | 0 <= k < |rows|
      ensures yc.cells[rows[k]].Some? && forall j :: 0 <= j < |s| ==> s[j].cells[rows[k]].Some?
    {
      assert rows[k] in rows;
      assert cols[|s|] == yc;
      forall j | 0 <= j < |s|
        ensures s[j].cells[rows[k]].Some?
      {
        assert cols[j] == s[j];
      }
    }
    var before := RestrictAll(s, rows);
    var x := EncodeAll(Table(Pick(index, rows), before));
    forall j, k | 0 <= j < |s| && 0 <= k < |rows|
      ensures |x.columns[j].cells| == |rows| && x.columns[j].cells[k].Some?
    {
      assert before[j].cells[k] == s[j].cells[rows[k]];
      if IsCategorical(before[j].kind) {
        assert x.columns[j] == Encoder.EncodeColumn(before[j]);
      }
    }
    forall j | 0 <= j < |s|
      ensures |x.columns[j].cells| == |rows|
    {
      if IsCategorical(before[j].kind) {
        assert x.columns[j] == Encoder.EncodeColumn(before[j]);
      }
    }
    var yr := Restrict(yc, rows);
    forall k | 0 <= k < |rows|
      ensures yr.cells[k] == yc.cells[rows[k]]
    {
    }
  }

  /**
   * `X` and `y` have one cell per kept row, every cell present; every
   * survivor and the label have a value at each kept row, and `y` is the
   * label cut down to the kept rows, then cast.
   */
  lemma OutputAligned(df: Table, labels: string, thresh: real, toDrop: Option<seq<string>>)
    requires WellFormed(df)
    requires GetDataSpec(df, labels, thresh, toDrop).Ok?
    ensures labels in Names(df.columns)
    ensures var out := GetDataSpec(df, labels, thresh, toDrop).value;
      var rows := KeptRows(df, labels, thresh, toDrop);
      var s := Survivors(df, labels, thresh, toDrop);
      var yc := LabelColumn(df, labels);
      && |out.x.index| == |rows| && |out.y.cells| == |rows| && |out.x.columns| == |s|
      && out.y.name == labels
      && RowsWithin(rows, |yc.cells|)
      && out.y == CastLabel(Restrict(yc, rows))
      && (forall j :: 0 <= j < |s| ==> |out.x.columns[j].cells| == |rows| && RowsWithin(rows, |s[j].cells|))
      && (forall j, k :: 0 <= j < |s| && 0 <= k < |rows| ==>
            out.x.columns[j].cells[k].Some? && s[j].cells[rows[k]].Some?)
      && (forall k :: 0 <= k < |rows| ==> out.y.cells[k].Some? && yc.cells[rows[k]].Some?)
  {
    GetDataShape(df, labels, thresh, toDrop);
    RowsMeaning(df, labels, thresh, toDrop);
    OutputParts(df.index, Survivors(df, labels, thresh, toDrop), LabelColumn(df, labels));
  }

  /** Lines 100-104 on the survivors `s` and label column `yc`, cut down to the complete rows. */
  lemma EncodedParts(index: seq<int>, s: seq<Column>, yc: Column)
    requires forall j :: 0 <= j < |s| ==> |s[j].cells| == |index|
    requires |yc.cells| == |index|
    ensures var rows := CompleteRows(s + [yc], |index|);
      && (forall j :: 0 <= j < |s| ==> RowsWithin(rows, |s[j].cells|))
      && var x := EncodeAll(Table(Pick(index, rows), RestrictAll(s, rows)));
      && |x.columns| == |s|
      && (forall j :: 0 <= j < |s| ==> x.columns[j].kind == Numeric)
      && (forall j :: 0 <= j < |s| ==>
            x.columns[j] == if s[j].kind == Numeric then Restrict(s[j], rows) else Encoder.EncodeColumn(Restrict(s[j], rows)))
  {
    var rows := CompleteRows(s + [yc], |index|);
    var before := RestrictAll(s, rows);
    var x := EncodeAll(Table(Pick(index, rows), before));
    forall j | 0 <= j < |s|
      ensures x.columns[j] == if s[j].kind == Numeric then Restrict(s[j], rows) else Encoder.EncodeColumn(Restrict(s[j], rows))
    {
      assert before[j] == Restrict(s[j], rows);
      if s[j].kind != Numeric {
        assert x.columns[j] == Encoder.EncodeColumn(before[j]);
      }
    }
  }

  /**
   * Two kept rows of an encoded column get the same code iff they held the
   * same value; every code lies below the number of distinct kept values,
   * and every such integer is used.
   */
  lemma EncodedColumn(c: Column, rows: seq<nat>)
    requires RowsWithin(rows, |c.cells|)
    requires forall k :: 0 <= k < |rows| ==> c.cells[rows[k]].Some?
    ensures var kept := Restrict(c, rows);
      var e := Encoder.EncodeColumn(kept);
      && (forall k :: 0 <= k < |rows| ==>
            e.cells[k].Some? && e.cells[k].value.IntV? && 0 <= e.cells[k].value.i < |Encoder.Present(kept.cells)|)
      && (forall k, l :: 0 <= k < |rows| && 0 <= l < |rows| ==>
            (e.cells[k] == e.cells[l] <==> c.cells[rows[k]] == c.cells[rows[l]]))
      && (forall code :: 0 <= code < |Encoder.Present(kept.cells)| ==>
            exists k :: 0 <= k < |rows| && e.cells[k] == Some(IntV(code)))
  {
    var kept := Restrict(c, rows);
    Encoder.EncodeColumnCodes(kept);
    forall k | 0 <= k < |rows|
      ensures kept.cells[k] == c.cells[rows[k]] && kept.cells[k].Some?
    {
    }
  }

  /**
   * Every column of `X` is numeric afterwards: a numeric survivor is its
   * original cells at the kept rows, a text or boolean survivor those cells
   * encoded.
   */
  lemma FeaturesEncoded(df: Table, labels: string, thresh: real, toDrop: Option<seq<string>>)
    requires WellFormed(df)
    requires GetDataSpec(df, labels, thresh, toDrop).Ok?
    ensures labels in Names(df.columns)
    ensures var x := GetDataSpec(df, labels, thresh, toDrop).value.x;
      var rows := KeptRows(df, labels, thresh, toDrop);
      var s := Survivors(df, labels, thresh, toDrop);
      && |x.columns| == |s|
      && (forall j :: 0 <= j < |s| ==> x.columns[j].kind == Numeric && RowsWithin(rows, |s[j].cells|))
      && (forall j :: 0 <= j < |s| ==>
            x.columns[j] == if s[j].kind == Numeric then Restrict(s[j], rows) else Encoder.EncodeColumn(Restrict(s[j], rows)))
  {
    GetDataShape(df, labels, thresh, toDrop);
    RowsMeaning(df, labels, thresh, toDrop);
    EncodedParts(df.index, Survivors(df, labels, thresh, toDrop), LabelColumn(df, labels));
  }

  /**
   * The codes in the `j`-th column of `X` when that survivor held text or
   * booleans: equal codes exactly for equal original values, all below the
   * number of distinct kept values, and every such integer used.
   */
  lemma FeatureCodes(df: Table, labels: string, thresh: real, toDrop: Option<seq<string>>, j: nat)
    requires WellFormed(df)
    requires GetDataSpec(df, labels, thresh, toDrop).Ok?
    requires j < |Survivors(df, labels, thresh, toDrop)| && Survivors(df, labels, thresh, toDrop)[j].kind != Numeric
    ensures labels in Names(df.columns)
    ensures var x := GetDataSpec(df, labels, thresh, toDrop).value.x;
      var rows := KeptRows(df, labels, thresh, toDrop);
      var c := Survivors(df, labels, thresh, toDrop)[j];
      && j < |x.columns| && RowsWithin(rows, |c.cells|) && |x.columns[j].cells| == |rows|
      && var distinct := |Encoder.Present(Restrict(c, rows).cells)|;
      && (forall k :: 0 <= k < |rows| ==>
            x.columns[j].cells[k].Some? && x.columns[j].cells[k].value.IntV?
            && 0 <= x.columns[j].cells[k].value.i < distinct)
      && (forall k, l :: 0 <= k < |rows| && 0 <= l < |rows| ==>
            (x.columns[j].cells[k] == x.columns[j].cells[l] <==> c.cells[rows[k]] == c.cells[rows[l]]))
      && (forall code :: 0 <= code < distinct ==>
            exists k :: 0 <= k < |rows| && x.columns[j].cells[k] == Some(IntV(code)))
  {
    FeaturesEncoded(df, labels, thresh, toDrop);
    var rows := KeptRows(df, labels, thresh, toDrop);
    var c := Survivors(df, labels, thresh, toDrop)[j];
    forall k | 0 <= k < |rows|
      ensures c.cells[rows[k]].Some?
    {
      RowsMeaning(df, labels, thresh, toDrop);
      assert rows[k] in rows;
    }
    EncodedColumn(c, rows);
  }

  /** Lines 106-107 on the label column `yc`, cut down to the complete rows. */
  lemma LabelParts(index: seq<int>, s: seq<Column>, yc: Column)
    requires forall j :: 0 <= j < |s| ==> |s[j].cells| == |index|
    requires |yc.cells| == |index| && Typed(yc)
    ensures var rows := CompleteRows(s + [yc], |index|);
      && RowsWithin(rows, |yc.cells|)
      && var y := CastLabel(Restrict(yc, rows));
      && (yc.kind == NullableBool ==>
            && y.kind == Numeric && |y.cells| == |rows|
            && forall k :: 0 <= k < |rows| ==>
                 yc.cells[rows[k]].Some? && yc.cells[rows[k]].value.BoolV?
                 && y.cells[k] == Some(IntV(if yc.cells[rows[k]].value.b then 1 else 0)))
      && (yc.kind != NullableBool ==> y == Restrict(yc, rows))
  {
    OutputParts(index, s, yc);
    var rows := CompleteRows(s + [yc], |index|);
    var yr := Restrict(yc, rows);
    forall k | 0 <= k < |rows|
      ensures yr.cells[k] == yc.cells[rows[k]]
    {
    }
  }

  /**
   * A nullable-boolean label becomes 0/1 integers, True as 1 and False as 0;
   * any other label is returned as selected, at the kept rows.
   */
  lemma LabelConverted(df: Table, labels: string, thresh: real, toDrop: Option<seq<string>>)
    requires WellFormed(df)
    requires GetDataSpec(df, labels, thresh, toDrop).Ok?
    ensures labels in Names(df.columns)
    ensures var y := GetDataSpec(df, labels, thresh, toDrop).value.y;
      var rows := KeptRows(df, labels, thresh, toDrop);
      var yc := LabelColumn(df, labels);
      && RowsWithin(rows, |yc.cells|)
      && (yc.kind == NullableBool ==>
            && y.kind == Numeric && |y.cells| == |rows|
            && forall k :: 0 <= k < |rows| ==>
                 yc.cells[rows[k]].Some? && yc.cells[rows[k]].value.BoolV?
                 && y.cells[k] == Some(IntV(if yc.cells[rows[k]].value.b then 1 else 0)))
      && (yc.kind != NullableBool ==> y == Restrict(yc, rows))
  {
    GetDataShape(df, labels, thresh, toDrop);
    RowsMeaning(df, labels, thresh, toDrop);
    var pos := PositionOf(df.columns, labels);
    assert Typed(df.columns[pos]);
    LabelParts(df.index, Survivors(df, labels, thresh, toDrop), LabelColumn(df, labels));
  }
}
