/**
 * The table model shared by the column sanitizer and the data preparer:
 * a pandas DataFrame is an index (one label per row) and an ordered list
 * of named columns, each with a dtype and one cell per row; a missing cell
 * (NaN, None, pd.NA) is `None`.
 */
module Frames {

  datatype Option<+T> = None | Some(value: T)

  /** pandas' KeyError, carrying the labels it could not find. */
  datatype Error = KeyNotFound(missing: seq<string>)

  datatype Result<+T> = Ok(value: T) | Err(error: Error) {
    predicate IsFailure() {
      Err?
    }

    function PropagateFailure<U>(): Result<U>
      requires Err?
    {
      Err(error)
    }

    function Extract(): T
      requires Ok?
    {
      value
    }
  }

  /** A cell value: an int or float number, a string, or a boolean. */
  datatype Value = IntV(i: int) | FloatV(x: real) | StrV(s: string) | BoolV(b: bool)

  /**
   * The dtype of a column: a number dtype, an `object`/`string` dtype holding
   * text, numpy's `bool`, or pandas' nullable `boolean` (BooleanDtype).
   */
  datatype Kind = Numeric | Text | Bool | NullableBool

  /** Whether a value may be stored in a column of the given kind. */
  predicate Fits(k: Kind, v: Value) {
    match k
    case Numeric => v.IntV? || v.FloatV?
    case Text => v.StrV?
    case Bool => v.BoolV?
    case NullableBool => v.BoolV?
  }

  datatype Column = Column(name: string, kind: Kind, cells: seq<Option<Value>>)

  datatype Table = Table(index: seq<int>, columns: seq<Column>)

  /** Every column has one cell per index label. */
  predicate Rectangular(t: Table) {
    forall j :: 0 <= j < |t.columns| ==> |t.columns[j].cells| == |t.index|
  }

  predicate DistinctNames(cols: seq<Column>) {
    forall i, j :: 0 <= i < j < |cols| ==> cols[i].name != cols[j].name
  }

  /** Every present cell holds a value of the column's kind. */
  predicate Typed(c: Column) {
    forall k :: 0 <= k < |c.cells| && c.cells[k].Some? ==> Fits(c.kind, c.cells[k].value)
  }

  predicate WellFormed(t: Table) {
    && Rectangular(t)
    && DistinctNames(t.columns)
    && forall j :: 0 <= j < |t.columns| ==> Typed(t.columns[j])
  }

  /** `df.columns`: the column labels in order. */
  function Names(cols: seq<Column>): seq<string> {
    seq(|cols|, j requires 0 <= j < |cols| => cols[j].name)
  }

  /** The position of the first column labelled `name`. */
  function PositionOf(cols: seq<Column>, name: string): (j: nat)
    requires name in Names(cols)
    ensures j < |cols| && cols[j].name == name
    ensures forall i :: 0 <= i < j ==> cols[i].name != name
  {
    if cols[0].name == name then 0
    else
      assert Names(cols) == [cols[0].name] + Names(cols[1..]);
      1 + PositionOf(cols[1..], name)
  }

  /** The number of non-missing cells (`Series.count()`). */
  function Count(cells: seq<Option<Value>>): (r: nat)
    ensures r <= |cells|
  {
    if cells == [] then 0
    else (if cells[0].Some? then 1 else 0) + Count(cells[1..])
  }

  /** Whether every row index in `rows` is a valid row of `n` rows. */
  predicate RowsWithin(rows: seq<nat>, n: nat) {
    forall k :: 0 <= k < |rows| ==> rows[k] < n
  }

  /** The entries of `s` at the given row positions, in the order given. */
  function Pick<T>(s: seq<T>, rows: seq<nat>): (r: seq<T>)
    requires RowsWithin(rows, |s|)
    ensures |r| == |rows|
    ensures forall k :: 0 <= k < |rows| ==> r[k] == s[rows[k]]
  {
    if rows == [] then [] else [s[rows[0]]] + Pick(s, rows[1..])
  }

  /** A column cut down to the given rows; its name and dtype are kept. */
  function Restrict(c: Column, rows: seq<nat>): Column
    requires RowsWithin(rows, |c.cells|)
  {
    c.(cells := Pick(c.cells, rows))
  }

  function RestrictAll(cols: seq<Column>, rows: seq<nat>): (r: seq<Column>)
    requires forall j :: 0 <= j < |cols| ==> RowsWithin(rows, |cols[j].cells|)
    ensures |r| == |cols| && Names(r) == Names(cols)
  {
    seq(|cols|, j requires 0 <= j < |cols| => Restrict(cols[j], rows))
  }

  /**
   * A pandas DataFrame object, for the operations that rename its columns in
   * place. Operations that build new frames work on `Table` values.
   */
  class DataFrame {
    var table: Table

    constructor (t: Table)
      ensures table == t
    {
      table := t;
    }
  }
}
