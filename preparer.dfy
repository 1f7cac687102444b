/**
 * `get_data(df, labels, thresh, columns_to_drop)`: separates the label
 * column from the features, drops the extra requested columns, drops every
 * feature column with too few present cells, drops every row with a missing
 * cell among the surviving features and the label, encodes the text and
 * boolean features as integers, and casts a nullable-boolean label to int.
 */
module Preparer {
  import opened Frames
  import Encoder

  /** `t[name]` for one label: the column, or a KeyError. */
  function Select(t: Table, name: string): (r: Result<Column>)
    ensures r.Ok? <==> name in Names(t.columns)
    ensures r.Ok? ==> r.value.name == name && r.value in t.columns
    ensures r.Err? ==> r.error == KeyNotFound([name])
  {
    if name in Names(t.columns) then Ok(t.columns[PositionOf(t.columns, name)])
    else Err(KeyNotFound([name]))
  }

  /** The requested labels that name no column, in the order requested. */
  function MissingNames(cols: seq<Column>, names: seq<string>): (r: seq<string>)
    ensures |r| <= |names|
    ensures forall s :: s in r <==> s in names && s !in Names(cols)
  {
    if names == [] then []
    else
      var rest := MissingNames(cols, names[1..]);
      assert forall s :: s in names <==> s == names[0] || s in names[1..];
      (if names[0] in Names(cols) then [] else [names[0]]) + rest
  }

  /**
   * Missing labels are reported piece by piece, in the order requested and
   * with repeats: with the singleton case fixed by `MissingNames`' own
   * contract, this determines the whole list.
   */
  lemma {:induction false} MissingNamesAppend(cols: seq<Column>, a: seq<string>, b: seq<string>)
    ensures MissingNames(cols, a + b) == MissingNames(cols, a) + MissingNames(cols, b)
    decreases |a|
  {
    if a == [] {
      assert a + b == b;
    } else {
      assert (a + b)[1..] == a[1..] + b;
      MissingNamesAppend(cols, a[1..], b);
    }
  }

  /** The column filters the pipeline applies, as first-order data. */
  datatype ColumnTest =
    | NotIn(names: seq<string>)          // `drop(columns=names)`
    | AtLeast(thresh: real, rows: nat)   // `dropna(axis=1, thresh=thresh * rows)`
    | Categorical                        // `select_dtypes(include=['object', 'string', 'bool'])`
    | Both(first: ColumnTest, second: ColumnTest)

  /** Whether a column has at least `thresh * n` present cells. */
  predicate Dense(c: Column, thresh: real, n: nat) {
    (Count(c.cells) as real) >= thresh * (n as real)
  }

  /** The dtypes `select_dtypes(include=['object', 'string', 'bool'])` picks; BooleanDtype's type is `bool` too. */
  predicate IsCategorical(k: Kind) {
    k == Text || k == Bool || k == NullableBool
  }

  predicate Passes(c: Column, test: ColumnTest) {
    match test
    case NotIn(names) => c.name !in names
    case AtLeast(thresh, n) => Dense(c, thresh, n)
    case Categorical => IsCategorical(c.kind)
    case Both(a, b) => Passes(c, a) && Passes(c, b)
  }

  /** The columns that pass `test`, in their original order. */
  function Keep(cols: seq<Column>, test: ColumnTest): (r: seq<Column>)
    ensures |r| <= |cols|
    ensures forall c :: c in r <==> c in cols && Passes(c, test)
  {
    if cols == [] then []
    else
      var rest := Keep(cols[1..], test);
      if Passes(cols[0], test) then [cols[0]] + rest else rest
  }

  /** The labels handed to `drop` at lines 92-93: the extra columns, then the label. */
  function DropList(toDrop: Option<seq<string>>, labels: string): (r: seq<string>)
    ensures labels in r
    ensures forall s :: s in r <==> s == labels || (toDrop.Some? && s in toDrop.value)
  {
    match toDrop
    case None => [labels]
    case Some(extra) => extra + [labels]
  }

  /** `t.drop(columns=names)`: a KeyError naming every absent label, or the other columns. */
  function Drop(t: Table, names: seq<string>): (r: Result<Table>)
    ensures r.Ok? <==> forall s :: s in names ==> s in Names(t.columns)
    ensures r.Err? ==> r.error == KeyNotFound(MissingNames(t.columns, names))
    ensures r.Ok? ==> r.value.index == t.index
    ensures r.Ok? ==> forall c :: c in r.value.columns <==> c in t.columns && c.name !in names
  {
    var missing := MissingNames(t.columns, names);
    if missing != [] then
      assert missing[0] in missing;
      Err(KeyNotFound(missing))
    else Ok(Table(t.index, Keep(t.columns, NotIn(names))))
  }

  /** `t.dropna(axis=1, thresh=thresh * len(t))`: drops the columns with too few present cells. */
  function DropSparse(t: Table, thresh: real): (r: Table)
    ensures r.index == t.index
    ensures forall c :: c in r.columns <==> c in t.columns && Dense(c, thresh, |t.index|)
  {
    Table(t.index, Keep(t.columns, AtLeast(thresh, |t.index|)))
  }

  /** `pd.concat([t, y], axis=1)` on a frame and a series sharing its index. */
  function Concat(t: Table, y: Column): (r: Table)
    ensures r.index == t.index && Names(r.columns) == Names(t.columns) + [y.name]
    ensures r.columns[..|t.columns|] == t.columns && r.columns[|t.columns|] == y
    ensures Rectangular(t) && |y.cells| == |t.index| ==> Rectangular(r)
  {
    Table(t.index, t.columns + [y])
  }

  /** Row `p` has a value in every column. */
  predicate RowComplete(cols: seq<Column>, p: nat) {
    forall j :: 0 <= j < |cols| ==> p < |cols[j].cells| && cols[j].cells[p].Some?
  }

  /** The complete rows among the first `n`, in increasing order. */
  function CompleteRows(cols: seq<Column>, n: nat): (rows: seq<nat>)
    ensures RowsWithin(rows, n)
    ensures forall k, l :: 0 <= k < l < |rows| ==> rows[k] < rows[l]
    ensures forall p: nat :: p in rows <==> p < n && RowComplete(cols, p)
  {
    if n == 0 then []
    else CompleteRows(cols, n - 1) + (if RowComplete(cols, n - 1) then [n - 1] else [])
  }

  /** `t.dropna()`: keeps the complete rows, in order, with their index labels. */
  function DropIncompleteRows(t: Table): (r: Table)
    requires Rectangular(t)
    ensures Rectangular(r) && Names(r.columns) == Names(t.columns)
    ensures forall j, k :: 0 <= j < |r.columns| && 0 <= k < |r.columns[j].cells| ==> r.columns[j].cells[k].Some?
    ensures var rows := CompleteRows(t.columns, |t.index|);
      && r.index == Pick(t.index, rows) && |r.columns| == |t.columns|
      && forall j :: 0 <= j < |t.columns| ==> r.columns[j] == Restrict(t.columns[j], rows)
  {
    var rows := CompleteRows(t.columns, |t.index|);
    assert forall k :: 0 <= k < |rows| ==> RowComplete(t.columns, rows[k]) by {
      forall k | 0 <= k < |rows|
        ensures RowComplete(t.columns, rows[k])
      {
        assert rows[k] in rows;
      }
    }
    Table(Pick(t.index, rows), RestrictAll(t.columns, rows))
  }

  /** `t[names]` for a list of labels. */
  function SelectAll(t: Table, names: seq<string>): (r: Result<Table>)
    ensures r.Ok? <==> forall s :: s in names ==> s in Names(t.columns)
    ensures r.Ok? ==> r.value.index == t.index && Names(r.value.columns) == names
    ensures r.Ok? ==> forall i :: 0 <= i < |names| ==> r.value.columns[i] in t.columns
  {
    if names == [] then Ok(Table(t.index, []))
    else
      assert forall s :: s in names <==> s == names[0] || s in names[1..];
      var c :- Select(t, names[0]);
      var rest :- SelectAll(t, names[1..]);
      assert Names([c] + rest.columns) == [names[0]] + names[1..];
      Ok(Table(t.index, [c] + rest.columns))
  }

  /** The pair `(X, y)` that `get_data` returns. */
  datatype Prepared = Prepared(x: Table, y: Column)

  /** Lines 91-99: the label split, the column drops, and the joint row drop. */
  function PrepareColumns(df: Table, labels: string, thresh: real, toDrop: Option<seq<string>>): (r: Result<Prepared>)
    requires Rectangular(df)
    ensures r.Ok? ==> labels in Names(df.columns) && forall s :: s in DropList(toDrop, labels) ==> s in Names(df.columns)
    ensures r.Ok? ==> r.value.y.name == labels
  {
    var y :- Select(df, labels);
    var clean :- Drop(df, DropList(toDrop, labels));
    var dense := DropSparse(clean, thresh);
    var combined := Concat(dense, y);
    assert Rectangular(combined);
    var cleaned := DropIncompleteRows(combined);
    var x :- SelectAll(cleaned, Names(dense.columns));
    var y' :- Select(cleaned, labels);
    Ok(Prepared(x, y'))
  }

  /** Lines 103-104 as a whole: every text or boolean column replaced by its codes. */
  function EncodeAll(x: Table): (r: Table)
    ensures r.index == x.index && Names(r.columns) == Names(x.columns)
    ensures forall j :: 0 <= j < |r.columns| ==> r.columns[j].kind == Numeric
    ensures forall j :: 0 <= j < |x.columns| && !IsCategorical(x.columns[j].kind) ==> r.columns[j] == x.columns[j]
    ensures forall j :: 0 <= j < |x.columns| && IsCategorical(x.columns[j].kind) ==>
      r.columns[j] == Encoder.EncodeColumn(x.columns[j])
  {
    Table(x.index, seq(|x.columns|, j requires 0 <= j < |x.columns| =>
      if IsCategorical(x.columns[j].kind) then Encoder.EncodeColumn(x.columns[j]) else x.columns[j]))
  }

  lemma {:induction false} KeepDistinct(cols: seq<Column>, test: ColumnTest)
    requires DistinctNames(cols)
    ensures DistinctNames(Keep(cols, test))
  {
    if cols != [] {
      KeepDistinct(cols[1..], test);
      var rest := Keep(cols[1..], test);
      forall c | c in rest
        ensures c.name != cols[0].name
      {
        var j :| 0 <= j < |cols[1..]| && cols[1..][j] == c;
        assert cols[j + 1] == c;
      }
    }
  }

  /**
   * The loop of lines 101-104: the labels of the text and boolean columns,
   * then one column at a time, looked up by label and overwritten by its codes.
   */
  method EncodeCategorical(x: Table) returns (r: Table)
    requires DistinctNames(x.columns)
    ensures r == EncodeAll(x)
  {
    var toEncode := Names(Keep(x.columns, Categorical));
    KeepDistinct(x.columns, Categorical);
    var kept := Keep(x.columns, Categorical);
    forall j | 0 <= j < |x.columns|
      ensures x.columns[j].name in toEncode <==> IsCategorical(x.columns[j].kind)
    {
      var c := x.columns[j];
      if IsCategorical(c.kind) {
        assert c in kept;
        var i :| 0 <= i < |kept| && kept[i] == c;
        assert toEncode[i] == c.name;
      }
      if c.name in toEncode {
        var i :| 0 <= i < |toEncode| && toEncode[i] == c.name;
        assert kept[i] in x.columns;
        var j' :| 0 <= j' < |x.columns| && x.columns[j'] == kept[i];
        assert j' == j;
      }
    }
    r := x;
    var i := 0;
    while i < |toEncode|
      invariant 0 <= i <= |toEncode|
      invariant r.index == x.index && |r.columns| == |x.columns|
      invariant forall j :: 0 <= j < |x.columns| ==>
        r.columns[j] == if x.columns[j].name in toEncode[..i] then Encoder.EncodeColumn(x.columns[j]) else x.columns[j]
    {
      var name := toEncode[i];
      assert Names(r.columns) == Names(x.columns);
      assert name in Names(x.columns) by {
        var c := Keep(x.columns, Categorical)[i];
        assert c.name == name;
        assert c in x.columns;
        var j :| 0 <= j < |x.columns| && x.columns[j] == c;
        assert Names(x.columns)[j] == name;
      }
      var p := PositionOf(r.columns, name);
      assert name !in toEncode[..i];
      assert r.columns[p] == x.columns[p];
      r := r.(columns := r.columns[p := Encoder.EncodeColumn(r.columns[p])]);
      assert toEncode[..i + 1] == toEncode[..i] + [name];
      i := i + 1;
    }
    assert toEncode[..i] == toEncode;
  }

  /** Line 107, `y.astype(int)` on a nullable-boolean label: True becomes 1, False becomes 0. */
  function CastToInt(y: Column): (r: Column)
    ensures r.name == y.name && r.kind == Numeric && |r.cells| == |y.cells|
    ensures forall k :: 0 <= k < |y.cells| && y.cells[k] == Some(BoolV(true)) ==> r.cells[k] == Some(IntV(1))
    ensures forall k :: 0 <= k < |y.cells| && y.cells[k] == Some(BoolV(false)) ==> r.cells[k] == Some(IntV(0))
    ensures forall k :: 0 <= k < |y.cells| ==> (r.cells[k].None? <==> y.cells[k].None?)
  {
    Column(y.name, Numeric, seq(|y.cells|, k requires 0 <= k < |y.cells| =>
      match y.cells[k]
      case Some(BoolV(b)) => Some(IntV(if b then 1 else 0))
      case other => other))
  }

  /** Lines 106-107: only the nullable `boolean` dtype compares equal to 'boolean'. */
  function CastLabel(y: Column): (r: Column)
    ensures r.name == y.name && |r.cells| == |y.cells|
    ensures y.kind == NullableBool ==> r.kind == Numeric && forall k :: 0 <= k < |y.cells| && y.cells[k].Some? && y.cells[k].value.BoolV? ==>
      r.cells[k] == Some(IntV(if y.cells[k].value.b then 1 else 0))
    ensures y.kind != NullableBool ==> r == y
  {
    if y.kind == NullableBool then CastToInt(y) else y
  }

  /** What `get_data` returns, or the KeyError it raises. */
  function GetDataSpec(df: Table, labels: string, thresh: real := 0.8, toDrop: Option<seq<string>> := None): (r: Result<Prepared>)
    requires Rectangular(df)
    ensures r.Ok? <==> PrepareColumns(df, labels, thresh, toDrop).Ok?
    ensures r.Err? ==> r.error == PrepareColumns(df, labels, thresh, toDrop).error
    ensures r.Ok? ==> r.value.y.name == labels && forall j :: 0 <= j < |r.value.x.columns| ==> r.value.x.columns[j].kind == Numeric
  {
    var p :- PrepareColumns(df, labels, thresh, toDrop);
    Ok(Prepared(EncodeAll(p.x), CastLabel(p.y)))
  }

  /** The feature columns that survive both column drops, in their original order. */
  function Survivors(df: Table, labels: string, thresh: real, toDrop: Option<seq<string>>): seq<Column> {
    Keep(df.columns, Both(NotIn(DropList(toDrop, labels)), AtLeast(thresh, |df.index|)))
  }

  /** The label column (the first one labelled `labels`). */
  function LabelColumn(df: Table, labels: string): Column
    requires labels in Names(df.columns)
  {
    df.columns[PositionOf(df.columns, labels)]
  }

  /** The original rows that survive the row drop: complete in every surviving feature and in the label. */
  function KeptRows(df: Table, labels: string, thresh: real, toDrop: Option<seq<string>>): seq<nat>
    requires labels in Names(df.columns)
  {
    CompleteRows(Survivors(df, labels, thresh, toDrop) + [LabelColumn(df, labels)], |df.index|)
  }

  lemma {:induction false} KeepKeep(cols: seq<Column>, a: ColumnTest, b: ColumnTest)
    ensures Keep(Keep(cols, a), b) == Keep(cols, Both(a, b))
  {
    if cols != [] {
      KeepKeep(cols[1..], a, b);
      if Passes(cols[0], a) {
        assert Keep(cols, a)[1..] == Keep(cols[1..], a);
      } else {
        assert Keep(cols, a) == Keep(cols[1..], a);
      }
    }
  }

  /** In `A + [b]` with distinct labels, selecting the labels of `A` gives back `A`. */
  lemma {:induction false} SelectAllPrefix(index: seq<int>, front: seq<Column>, back: seq<Column>, last: Column)
    requires DistinctNames(front + back + [last])
    ensures SelectAll(Table(index, front + back + [last]), Names(back)) == Ok(Table(index, back))
    decreases |back|
  {
    var t := Table(index, front + back + [last]);
    if back != [] {
      var c := back[0];
      assert Names(t.columns)[|front|] == c.name;
      var p := PositionOf(t.columns, c.name);
      assert t.columns[|front|] == c;
      assert p == |front|;
      assert front + back + [last] == (front + [c]) + back[1..] + [last];
      SelectAllPrefix(index, front + [c], back[1..], last);
      assert Names(back)[1..] == Names(back[1..]);
      assert [c] + back[1..] == back;
    }
  }

  /** Lines 92-95 when every dropped label exists: what is left are the survivors. */
  lemma ColumnStage(df: Table, labels: string, thresh: real, toDrop: Option<seq<string>>)
    requires forall s :: s in DropList(toDrop, labels) ==> s in Names(df.columns)
    ensures Drop(df, DropList(toDrop, labels)).Ok?
    ensures DropSparse(Drop(df, DropList(toDrop, labels)).value, thresh)
      == Table(df.index, Survivors(df, labels, thresh, toDrop))
  {
    KeepKeep(df.columns, NotIn(DropList(toDrop, labels)), AtLeast(thresh, |df.index|));
  }

  /** Two lists of columns with the same labels: one has distinct labels iff the other has. */
  lemma SameNamesDistinct(a: seq<Column>, b: seq<Column>)
    requires Names(a) == Names(b) && DistinctNames(a)
    ensures DistinctNames(b)
  {
    forall i, j | 0 <= i < j < |b|
      ensures b[i].name != b[j].name
    {
      assert Names(a)[i] == b[i].name && Names(a)[j] == b[j].name;
    }
  }

  /** Lines 96-99 on the survivors `s` and the label column `yc`. */
  lemma RowStage(index: seq<int>, s: seq<Column>, yc: Column)
    requires forall j :: 0 <= j < |s| ==> |s[j].cells| == |index|
    requires |yc.cells| == |index|
    requires DistinctNames(s + [yc])
    ensures var rows := CompleteRows(s + [yc], |index|);
      var cleaned := DropIncompleteRows(Concat(Table(index, s), yc));
      && DistinctNames(RestrictAll(s, rows))
      && SelectAll(cleaned, Names(s)) == Ok(Table(Pick(index, rows), RestrictAll(s, rows)))
      && Select(cleaned, yc.name) == Ok(Restrict(yc, rows))
  {
    var rows := CompleteRows(s + [yc], |index|);
    var cleaned := DropIncompleteRows(Concat(Table(index, s), yc));
    var all := RestrictAll(s, rows) + [Restrict(yc, rows)];
    assert cleaned.columns == all by {
      var t := Concat(Table(index, s), yc);
      forall j | 0 <= j < |all|
        ensures cleaned.columns[j] == all[j]
      {
        if j < |s| {
          assert t.columns[j] == t.columns[..|s|][j] == s[j];
        }
      }
    }
    assert Names(all) == Names(s + [yc]);
    SameNamesDistinct(s + [yc], all);
    assert [] + RestrictAll(s, rows) + [Restrict(yc, rows)] == all;
    SelectAllPrefix(cleaned.index, [], RestrictAll(s, rows), Restrict(yc, rows));
    assert Names(RestrictAll(s, rows)) == Names(s);
    assert all[|s|].name == yc.name;
    assert Names(all)[|s|] == yc.name;
    assert PositionOf(all, yc.name) == |s|;
    forall i, j | 0 <= i < j < |s|
      ensures RestrictAll(s, rows)[i].name != RestrictAll(s, rows)[j].name
    {
      assert all[i] == RestrictAll(s, rows)[i] && all[j] == RestrictAll(s, rows)[j];
    }
  }

  /** How the pipeline of lines 91-99 rewrites a frame whose labels are all present. */
  lemma PrepareColumnsShape(df: Table, labels: string, thresh: real, toDrop: Option<seq<string>>)
    requires WellFormed(df)
    requires labels in Names(df.columns)
    requires forall s :: s in DropList(toDrop, labels) ==> s in Names(df.columns)
    ensures var s := Survivors(df, labels, thresh, toDrop);
      var rows := KeptRows(df, labels, thresh, toDrop);
      var yc := LabelColumn(df, labels);
      && RowsWithin(rows, |df.index|)
      && (forall j :: 0 <= j < |s| ==> |s[j].cells| == |df.index|)
      && |yc.cells| == |df.index|
      && DistinctNames(s + [yc])
      && DistinctNames(RestrictAll(s, rows))
      && PrepareColumns(df, labels, thresh, toDrop)
           == Ok(Prepared(Table(Pick(df.index, rows), RestrictAll(s, rows)), Restrict(yc, rows)))
  {
    var dl := DropList(toDrop, labels);
    var s := Survivors(df, labels, thresh, toDrop);
    var yc := LabelColumn(df, labels);
    ColumnStage(df, labels, thresh, toDrop);
    KeepDistinct(df.columns, Both(NotIn(dl), AtLeast(thresh, |df.index|)));
    forall j | 0 <= j < |s|
      ensures s[j].name != yc.name && |s[j].cells| == |df.index|
    {
      assert s[j] in s;
    }
    assert DistinctNames(s + [yc]);
    assert Select(df, labels) == Ok(yc);
    var dense := DropSparse(Drop(df, dl).value, thresh);
    assert dense == Table(df.index, s);
    RowStage(df.index, s, yc);
    var cleaned := DropIncompleteRows(Concat(dense, yc));
    var rows := KeptRows(df, labels, thresh, toDrop);
    assert SelectAll(cleaned, Names(dense.columns)) == Ok(Table(Pick(df.index, rows), RestrictAll(s, rows)));
    assert Select(cleaned, labels) == Ok(Restrict(yc, rows));
  }

  /** The pipeline of lines 91-99 fails exactly when a label it looks up is absent. */
  lemma PrepareColumnsOk(df: Table, labels: string, thresh: real, toDrop: Option<seq<string>>)
    requires WellFormed(df)
    ensures PrepareColumns(df, labels, thresh, toDrop).Ok?
      <==> labels in Names(df.columns) && forall s :: s in DropList(toDrop, labels) ==> s in Names(df.columns)
  {
    if labels in Names(df.columns) && forall s :: s in DropList(toDrop, labels) ==> s in Names(df.columns) {
      PrepareColumnsShape(df, labels, thresh, toDrop);
    }
  }

  /** Lines 90-108 as the source runs them: the pipeline, the encoding loop, the label cast. */
  method GetData(df: Table, labels: string, thresh: real := 0.8, toDrop: Option<seq<string>> := None) returns (r: Result<Prepared>)
    requires WellFormed(df)
    ensures r == GetDataSpec(df, labels, thresh, toDrop)
  {
    var prepared := PrepareColumns(df, labels, thresh, toDrop);
    if prepared.Err? {
      return Err(prepared.error);
    }
    PrepareColumnsOk(df, labels, thresh, toDrop);
    PrepareColumnsShape(df, labels, thresh, toDrop);
    var x := EncodeCategorical(prepared.value.x);
    var y := prepared.value.y;
    if y.kind == NullableBool {
      y := CastToInt(y);
    }
    r := Ok(Prepared(x, y));
  }
}
