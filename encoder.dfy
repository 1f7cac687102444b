/**
 * scikit-learn's `LabelEncoder.fit_transform` on one column: the classes are
 * the distinct values of the column in sorted order, and each value is
 * replaced by its class's position in that order. The position of `v` is
 * the number of distinct values that sort before it, which is how `Code`
 * defines it.
 */
module Encoder {
  import opened Frames

  /** Python's `<` on `str`: lexicographic by code point, a proper prefix first. */
  predicate StrLess(a: string, b: string)
    decreases |a|
  {
    if |a| == 0 then |b| > 0
    else |b| > 0 && (a[0] < b[0] || (a[0] == b[0] && StrLess(a[1..], b[1..])))
  }

  lemma {:induction false} StrLessIrreflexive(a: string)
    ensures !StrLess(a, a)
    decreases |a|
  {
    if |a| > 0 {
      StrLessIrreflexive(a[1..]);
    }
  }

  lemma {:induction false} StrLessTransitive(a: string, b: string, c: string)
    requires StrLess(a, b) && StrLess(b, c)
    ensures StrLess(a, c)
    decreases |a|
  {
    if |a| > 0 && a[0] == b[0] && b[0] == c[0] {
      StrLessTransitive(a[1..], b[1..], c[1..]);
    }
  }

  lemma {:induction false} StrLessTotal(a: string, b: string)
    ensures a == b || StrLess(a, b) || StrLess(b, a)
    decreases |a|
  {
    if |a| > 0 && |b| > 0 && a[0] == b[0] {
      StrLessTotal(a[1..], b[1..]);
      if a[1..] == b[1..] {
        assert a == [a[0]] + a[1..] && b == [b[0]] + b[1..];
      }
    }
  }

  /**
   * The order the encoder sorts by. Within one type it is Python's `<`
   * (False before True for booleans); values of different types are ordered
   * by type, which never matters because a column holds one type.
   */
  function TypeRank(v: Value): nat {
    match v
    case IntV(_) => 0
    case FloatV(_) => 1
    case StrV(_) => 2
    case BoolV(_) => 3
  }

  predicate Less(v: Value, w: Value) {
    if TypeRank(v) != TypeRank(w) then TypeRank(v) < TypeRank(w)
    else match (v, w)
      case (IntV(i), IntV(j)) => i < j
      case (FloatV(x), FloatV(y)) => x < y
      case (StrV(s), StrV(t)) => StrLess(s, t)
      case (BoolV(a), BoolV(b)) => !a && b
      case _ => false
  }

  lemma LessIrreflexive(v: Value)
    ensures !Less(v, v)
  {
    if v.StrV? {
      StrLessIrreflexive(v.s);
    }
  }

  lemma LessTransitive(u: Value, v: Value, w: Value)
    requires Less(u, v) && Less(v, w)
    ensures Less(u, w)
  {
    if u.StrV? && v.StrV? && w.StrV? {
      StrLessTransitive(u.s, v.s, w.s);
    }
  }

  lemma LessTotal(v: Value, w: Value)
    ensures v == w || Less(v, w) || Less(w, v)
  {
    if v.StrV? && w.StrV? {
      StrLessTotal(v.s, w.s);
    }
  }

  /** The classes the encoder is fitted on: the distinct present values. */
  function Present(cells: seq<Option<Value>>): set<Value> {
    set k | 0 <= k < |cells| && cells[k].Some? :: cells[k].value
  }

  /** The values of `d` that sort before `v`. */
  function Below(d: set<Value>, v: Value): (r: set<Value>)
    ensures r <= d
  {
    set w | w in d && Less(w, v)
  }

  /** The code of `v`: its position among the sorted classes `d`. */
  function Code(d: set<Value>, v: Value): nat {
    |Below(d, v)|
  }

  /** `fit_transform` of one column: each value becomes its integer code. */
  function EncodeColumn(c: Column): (r: Column)
    ensures r.name == c.name && r.kind == Numeric && |r.cells| == |c.cells|
    ensures forall k :: 0 <= k < |c.cells| ==> (r.cells[k].Some? <==> c.cells[k].Some?)
    ensures forall k :: 0 <= k < |c.cells| && c.cells[k].Some? ==>
      r.cells[k] == Some(IntV(Code(Present(c.cells), c.cells[k].value)))
  {
    var d := Present(c.cells);
    Column(c.name, Numeric, seq(|c.cells|, k requires 0 <= k < |c.cells| =>
      if c.cells[k].Some? then Some(IntV(Code(d, c.cells[k].value))) else None))
  }

  lemma SubsetCard<T>(a: set<T>, b: set<T>)
    requires a <= b
    ensures |b - a| == |b| - |a|
  {
    assert b * a == a;
  }

  lemma CodeInRange(d: set<Value>, v: Value)
    requires v in d
    ensures Code(d, v) < |d|
  {
    LessIrreflexive(v);
    var below := Below(d, v);
    assert v in d - below;
    SubsetCard(below, d);
  }

  lemma CodeMonotone(d: set<Value>, v: Value, w: Value)
    requires v in d && Less(v, w)
    ensures Code(d, v) < Code(d, w)
  {
    var lo, hi := Below(d, v), Below(d, w);
    forall u | u in lo
      ensures u in hi
    {
      LessTransitive(u, v, w);
    }
    LessIrreflexive(v);
    assert v in hi - lo;
    SubsetCard(lo, hi);
  }

  /** Two classes get the same code exactly when they are the same value. */
  lemma CodeInjective(d: set<Value>, v: Value, w: Value)
    requires v in d && w in d
    ensures Code(d, v) == Code(d, w) <==> v == w
  {
    LessTotal(v, w);
    if Less(v, w) {
      CodeMonotone(d, v, w);
    } else if Less(w, v) {
      CodeMonotone(d, w, v);
    }
  }

  /** The codes of the values in `s`. */
  function Codes(d: set<Value>, s: set<Value>): set<nat> {
    set v | v in s :: Code(d, v)
  }

  lemma {:induction false} CodesCard(d: set<Value>, s: set<Value>)
    requires s <= d
    ensures |Codes(d, s)| == |s|
    decreases s
  {
    if s == {} {
      assert Codes(d, s) == {};
    } else {
      var x :| x in s;
      var rest := s - {x};
      CodesCard(d, rest);
      forall v | v in rest
        ensures Code(d, v) != Code(d, x)
      {
        CodeInjective(d, v, x);
      }
      assert Codes(d, s) == Codes(d, rest) + {Code(d, x)};
    }
  }

  /** The integers in [0, n). */
  function Naturals(n: nat): (r: set<nat>)
    ensures forall k: nat :: k in r <==> k < n
    ensures |r| == n
  {
    if n == 0 then {} else Naturals(n - 1) + {n - 1}
  }

  /** Every integer below the number of classes is the code of some class. */
  lemma CodeOnto(d: set<Value>, k: nat)
    requires k < |d|
    ensures exists v :: v in d && Code(d, v) == k
  {
    var img := Codes(d, d);
    forall c | c in img
      ensures c in Naturals(|d|)
    {
      var v :| v in d && c == Code(d, v);
      CodeInRange(d, v);
    }
    CodesCard(d, d);
    SubsetCard(img, Naturals(|d|));
    assert |Naturals(|d|) - img| == 0;
    assert k in Naturals(|d|);
    assert k in img;
  }

  /**
   * What the encoded column promises, in terms of the column's cells: equal
   * values get equal codes and different values different ones, codes
   * follow the sort order of the values, every code lies in
   * [0, number of classes), and every such integer is used.
   */
  lemma EncodeColumnCodes(c: Column)
    ensures var r := EncodeColumn(c); var d := Present(c.cells);
      && (forall k :: 0 <= k < |c.cells| && c.cells[k].Some? ==>
            r.cells[k].value.IntV? && 0 <= r.cells[k].value.i < |d|)
      && (forall k, l :: 0 <= k < |c.cells| && 0 <= l < |c.cells| && c.cells[k].Some? && c.cells[l].Some? ==>
            (r.cells[k] == r.cells[l] <==> c.cells[k] == c.cells[l]))
      && (forall k, l :: 0 <= k < |c.cells| && 0 <= l < |c.cells| && c.cells[k].Some? && c.cells[l].Some? ==>
            (Less(c.cells[k].value, c.cells[l].value) ==> r.cells[k].value.i < r.cells[l].value.i))
      && (forall code :: 0 <= code < |d| ==>
            exists k :: 0 <= k < |c.cells| && r.cells[k] == Some(IntV(code)))
  {
    var r := EncodeColumn(c);
    var d := Present(c.cells);
    forall k | 0 <= k < |c.cells| && c.cells[k].Some?
      ensures 0 <= r.cells[k].value.i < |d|
    {
      CodeInRange(d, c.cells[k].value);
    }
    forall k, l | 0 <= k < |c.cells| && 0 <= l < |c.cells| && c.cells[k].Some? && c.cells[l].Some?
      ensures r.cells[k] == r.cells[l] <==> c.cells[k] == c.cells[l]
    {
      CodeInjective(d, c.cells[k].value, c.cells[l].value);
    }
    forall k, l | 0 <= k < |c.cells| && 0 <= l < |c.cells| && c.cells[k].Some? && c.cells[l].Some? &&
      Less(c.cells[k].value, c.cells[l].value)
      ensures r.cells[k].value.i < r.cells[l].value.i
    {
      CodeMonotone(d, c.cells[k].value, c.cells[l].value);
    }
    forall code | 0 <= code < |d|
      ensures exists k :: 0 <= k < |c.cells| && r.cells[k] == Some(IntV(code))
    {
      CodeOnto(d, code);
      var v :| v in d && Code(d, v) == code;
      var k :| 0 <= k < |c.cells| && c.cells[k].Some? && c.cells[k].value == v;
      assert r.cells[k] == Some(IntV(code));
    }
  }
}
