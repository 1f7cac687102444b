/**
 * `sanitize_column_names`: every `[`, `]`, `<`, `>`, `{` and `}` in a column
 * label becomes `_` (a `str.translate` with `str.maketrans('[]<>{}',
 * '______')`), and the new labels are assigned onto the frame in place.
 */
module Sanitizer {
  import opened Frames

  /** The characters the translation table maps to an underscore. */
  predicate IsBracket(ch: char) {
    ch == '[' || ch == ']' || ch == '<' || ch == '>' || ch == '{' || ch == '}'
  }

  predicate NoBrackets(s: string) {
    forall i :: 0 <= i < |s| ==> !IsBracket(s[i])
  }

  /** One label, translated character by character. */
  function SanitizeName(s: string): (r: string)
    ensures |r| == |s|
    ensures NoBrackets(r)
    ensures forall i :: 0 <= i < |s| && IsBracket(s[i]) ==> r[i] == '_'
    ensures forall i :: 0 <= i < |s| && !IsBracket(s[i]) ==> r[i] == s[i]
  {
    if s == [] then []
    else [if IsBracket(s[0]) then '_' else s[0]] + SanitizeName(s[1..])
  }

  /** A label is left as it is exactly when it holds none of the six characters. */
  lemma SanitizeNameFixedPoint(s: string)
    ensures SanitizeName(s) == s <==> NoBrackets(s)
  {
    if NoBrackets(s) {
      var r := SanitizeName(s);
      assert forall i :: 0 <= i < |s| ==> r[i] == s[i];
    }
  }

  lemma SanitizeNameIdempotent(s: string)
    ensures SanitizeName(SanitizeName(s)) == SanitizeName(s)
  {
    SanitizeNameFixedPoint(SanitizeName(s));
  }

  /** The frame's value after the renaming: only the labels change. */
  function Sanitized(t: Table): (r: Table)
    ensures r.index == t.index && |r.columns| == |t.columns|
    ensures forall j :: 0 <= j < |t.columns| ==>
      && r.columns[j].kind == t.columns[j].kind
      && r.columns[j].cells == t.columns[j].cells
      && r.columns[j].name == SanitizeName(t.columns[j].name)
      && |r.columns[j].name| == |t.columns[j].name|
      && NoBrackets(r.columns[j].name)
  {
    Table(t.index, seq(|t.columns|, j requires 0 <= j < |t.columns| =>
      t.columns[j].(name := SanitizeName(t.columns[j].name))))
  }

  lemma SanitizedIdempotent(t: Table)
    ensures Sanitized(Sanitized(t)) == Sanitized(t)
  {
    var once := Sanitized(t);
    forall j | 0 <= j < |t.columns|
      ensures Sanitized(once).columns[j] == once.columns[j]
    {
      SanitizeNameIdempotent(t.columns[j].name);
    }
  }

  /** Renaming keeps the shape and the cell types, so it keeps a rectangular, typed frame so. */
  lemma SanitizedKeepsShape(t: Table)
    requires Rectangular(t) && forall j :: 0 <= j < |t.columns| ==> Typed(t.columns[j])
    ensures Rectangular(Sanitized(t))
    ensures forall j :: 0 <= j < |t.columns| ==> Typed(Sanitized(t).columns[j])
  {
  }

  /** Two different labels can become the same one, so distinct labels are not kept distinct. */
  lemma SanitizeCanMergeLabels()
    ensures "a[0]" != "a_0_" && SanitizeName("a[0]") == SanitizeName("a_0_")
  {
  }

  /** `df.columns = [...]; return df`: renames in place and returns the same frame. */
  method SanitizeColumnNames(df: DataFrame) returns (r: DataFrame)
    modifies df
    ensures r == df
    ensures df.table == Sanitized(old(df.table))
  {
    df.table := Sanitized(df.table);
    r := df;
  }
}
