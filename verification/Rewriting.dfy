/** What IN and BETWEEN, which the parser rewrites to comparisons, come to on a row. */
module Rewriting {
  import opened Common
  import opened Ast
  import opened Values
  import opened Parsing
  import opened Grammar
  import opened Aggregation
  import opened EvaluatorLaws

  /** Values that can be compared with one another. */
  predicate Alike(v: Value, w: Value) {
    (IsNumber(v) && IsNumber(w)) || (v.Varchar? && w.Varchar?)
  }

  predicate Same(v: Value, w: Value) {
    if IsNumber(v) && IsNumber(w) then NumberOf(v) == NumberOf(w) else v == w
  }

  /** `v` is not above `w`: as a number, or by the first difference of text. */
  ghost predicate AtMost(v: Value, w: Value)
    requires Alike(v, w)
  {
    if IsNumber(v) then NumberOf(v) <= NumberOf(w) else !exists n: nat :: FirstDiffers(w.s, v.s, n)
  }

  lemma NegatedMeans(sc: Scope, e: Expr, negated: bool, row: Row, b: bool)
    requires ScopeOk(sc)
    ensures OnRow(sc, e, row) == Ok(Bool(b)) ==> OnRow(sc, Negated(e, negated), row) == Ok(Bool(b != negated))
    ensures OnRow(sc, e, row) == Ok(Null) ==> OnRow(sc, Negated(e, negated), row) == Ok(Null)
  {
  }

  /** `x [NOT] BETWEEN low AND high`, as it is read, says whether the value lies between the bounds, both included. */
  lemma BetweenMeans(sc: Scope, s: Syntax, row: Row)
    requires ScopeOk(sc) && s.Range? && Bracketed(s)
    requires OnRow(sc, Tree(s.left), row).Ok? && OnRow(sc, Tree(s.low), row).Ok? && OnRow(sc, Tree(s.high), row).Ok?
    ensures var v := OnRow(sc, Tree(s.left), row).value;
      var a, b := OnRow(sc, Tree(s.low), row).value, OnRow(sc, Tree(s.high), row).value;
      && (Alike(v, a) && Alike(v, b) ==>
            OnRow(sc, Tree(s), row) == Ok(Bool((AtMost(a, v) && AtMost(v, b)) != s.negated)))
      && (v == Null || (a == Null && (b == Null || Alike(v, b))) || (b == Null && Alike(v, a)) ==>
            OnRow(sc, Tree(s), row) == Ok(Null))
  {
    var l, low, high := Tree(s.left), Tree(s.low), Tree(s.high);
    var v, a, b := OnRow(sc, l, row).value, OnRow(sc, low, row).value, OnRow(sc, high, row).value;
    var above, below := Binary(l, Ge, low), Binary(l, Le, high);
    var both := Binary(above, And, below);
    assert Tree(s) == Negated(both, s.negated);
    hide Tree;
    hide Bracketed;
    assert OnRow(sc, above, row) == EvalBinary(Ge, v, a) && OnRow(sc, below, row) == EvalBinary(Le, v, b);
    if Alike(v, a) {
      OrderMeans(a, v);
    }
    if Alike(v, b) {
      OrderMeans(v, b);
    }
    if v == Null || a == Null || b == Null {
      if EvalBinary(Ge, v, a).Ok? && EvalBinary(Le, v, b).Ok? {
        assert OnRow(sc, both, row) == EvalBinary(And, EvalBinary(Ge, v, a).value, EvalBinary(Le, v, b).value);
      }
      NegatedMeans(sc, both, s.negated, row, true);
    } else if Alike(v, a) && Alike(v, b) {
      TruthTables(AtMost(a, v), AtMost(v, b));
      assert OnRow(sc, both, row) == Ok(Bool(AtMost(a, v) && AtMost(v, b)));
      NegatedMeans(sc, both, s.negated, row, AtMost(a, v) && AtMost(v, b));
    }
  }

  lemma OrderMeans(v: Value, w: Value)
    requires Alike(v, w)
    ensures EvalBinary(Le, v, w) == Ok(Bool(AtMost(v, w))) && EvalBinary(Ge, w, v) == Ok(Bool(AtMost(v, w)))
  {
    if IsNumber(v) {
      NumbersCompare(Le, v, w);
      NumbersCompare(Ge, w, v);
    } else {
      TextCompares(v.s, w.s);
      TextCompares(w.s, v.s);
    }
  }

  lemma EqualMeans(v: Value, w: Value)
    requires Alike(v, w)
    ensures EvalBinary(Eq, v, w) == Ok(Bool(Same(v, w)))
  {
    if IsNumber(v) {
      NumbersCompare(Eq, v, w);
    } else {
      TextCompares(v.s, w.s);
    }
  }

  /** The items of an IN list have these values on the row. */
  ghost predicate Have(sc: Scope, items: seq<Expr>, row: Row, ws: seq<Value>)
    requires ScopeOk(sc)
  {
    |ws| == |items| && forall i :: 0 <= i < |items| ==> OnRow(sc, items[i], row) == Ok(ws[i])
  }

  ghost function AnyOf(v: Value, ws: seq<Value>): Value {
    if v == Null || Null in ws then Null else Bool(exists i :: 0 <= i < |ws| && Same(v, ws[i]))
  }

  /** `x [NOT] IN (...)`, as it is read, says whether the value is one of the list; a NULL anywhere makes the answer
      NULL, also when another item is equal. */
  lemma InMeans(sc: Scope, s: Syntax, row: Row, ws: seq<Value>)
    requires ScopeOk(sc) && s.Among? && Bracketed(s) && OnRow(sc, Tree(s.left), row).Ok?
    requires Have(sc, Trees(s.items), row, ws)
    requires var v := OnRow(sc, Tree(s.left), row).value; forall w :: w in ws ==> w == Null || v == Null || Alike(v, w)
    ensures var v := OnRow(sc, Tree(s.left), row).value;
      OnRow(sc, Tree(s), row) ==
      if v == Null || Null in ws then Ok(Null)
      else Ok(Bool((exists i :: 0 <= i < |ws| && Same(v, ws[i])) != s.negated))
  {
    var l, items := Tree(s.left), Trees(s.items);
    var v := OnRow(sc, l, row).value;
    AnyMeans(sc, l, items, row, ws);
    NegatedMeans(sc, EqualAny(l, items), s.negated, row, exists i :: 0 <= i < |ws| && Same(v, ws[i]));
  }

  lemma {:induction false} AnyMeans(sc: Scope, l: Expr, items: seq<Expr>, row: Row, ws: seq<Value>)
    requires ScopeOk(sc) && OnRow(sc, l, row).Ok? && items != [] && Have(sc, items, row, ws)
    requires forall w :: w in ws ==> w == Null || OnRow(sc, l, row).value == Null || Alike(OnRow(sc, l, row).value, w)
    ensures OnRow(sc, EqualAny(l, items), row) == Ok(AnyOf(OnRow(sc, l, row).value, ws))
    decreases |items|
  {
    var v, n := OnRow(sc, l, row).value, |items| - 1;
    var last := Binary(l, Eq, items[n]);
    LastMeans(sc, l, items[n], row, ws[n]);
    if n > 0 {
      var before := EqualAny(l, items[..n]);
      AnyMeans(sc, l, items[..n], row, ws[..n]);
      assert EqualAny(l, items) == Binary(before, Or, last);
      OneMore(v, ws, n);
      OrOf(AnyOf(v, ws[..n]), AnyOf(v, [ws[n]]));
      hide EvalBinary;
      hide AnyOf;
      hide EqualAny;
      assert OnRow(sc, Binary(before, Or, last), row) == EvalBinary(Or, AnyOf(v, ws[..n]), AnyOf(v, [ws[n]]));
    } else {
      assert ws == [ws[0]];
    }
  }

  lemma LastMeans(sc: Scope, l: Expr, item: Expr, row: Row, w: Value)
    requires ScopeOk(sc) && OnRow(sc, l, row).Ok? && OnRow(sc, item, row) == Ok(w)
    requires w == Null || OnRow(sc, l, row).value == Null || Alike(OnRow(sc, l, row).value, w)
    ensures OnRow(sc, Binary(l, Eq, item), row) == Ok(AnyOf(OnRow(sc, l, row).value, [w]))
  {
    var v := OnRow(sc, l, row).value;
    assert [w][0] == w;
    if v != Null && w != Null {
      EqualMeans(v, w);
    }
  }

  function OrNull(a: Value, b: Value): Value {
    if a == Null || b == Null then Null else Bool(a == Bool(true) || b == Bool(true))
  }

  lemma OrOf(a: Value, b: Value)
    requires (a == Null || a.Bool?) && (b == Null || b.Bool?)
    ensures EvalBinary(Or, a, b) == Ok(OrNull(a, b))
  {
  }

  lemma OneMore(v: Value, ws: seq<Value>, n: nat)
    requires |ws| == n + 1
    ensures AnyOf(v, ws) == OrNull(AnyOf(v, ws[..n]), AnyOf(v, [ws[n]]))
  {
    assert ws == ws[..n] + [ws[n]];
    assert [ws[n]][0] == ws[n];
    assert forall i :: 0 <= i < n ==> ws[i] == ws[..n][i];
  }
}
