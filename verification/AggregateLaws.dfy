/** What the aggregates come to in numbers and text, and why an accepted one never fails on values of its type. */
module AggregateLaws {
  import opened Common
  import opened Bytes
  import opened Ast
  import opened Values
  import opened Aggregation
  import opened AggregateMeaning
  import opened EvaluatorLaws

  /** The five names, in whatever case. */
  lemma KindsAre(name: string)
    ensures KindOf(name) == Some(Count) <==> Upper(name) == "COUNT"
    ensures KindOf(name) == Some(Sum) <==> Upper(name) == "SUM"
    ensures KindOf(name) == Some(Avg) <==> Upper(name) == "AVG"
    ensures KindOf(name) == Some(Min) <==> Upper(name) == "MIN"
    ensures KindOf(name) == Some(Max) <==> Upper(name) == "MAX"
  {
  }

  lemma KindNamesRound(k: AggKind)
    ensures KindOf(KindName(k)) == Some(k)
  {
    var w := KindName(k);
    assert Upper(w) == w;
  }

  // ---- the values that an aggregate sees ----

  /** The argument has these values on the rows of the group. */
  ghost predicate Gives(sc: Scope, e: Expr, group: seq<Row>, vs: seq<Value>)
    requires ScopeOk(sc)
  {
    |vs| == |group| && forall i :: 0 <= i < |group| ==> OnRow(sc, e, group[i]) == Ok(vs[i])
  }

  function Wrapped(vs: seq<Value>): (r: seq<Option<Value>>)
    ensures |r| == |vs| && forall i :: 0 <= i < |r| ==> r[i] == Some(vs[i])
  {
    seq(|vs|, i requires 0 <= i < |vs| => Some(vs[i]))
  }

  lemma {:induction false} SeenIs(sc: Scope, e: Expr, group: seq<Row>, vs: seq<Value>)
    requires ScopeOk(sc) && Gives(sc, e, group, vs)
    ensures Seen(sc, Exprs([e]), group) == Ok(Wrapped(vs))
  {
    if group != [] {
      assert [e][0] == e;
      SeenIs(sc, e, group[1..], vs[1..]);
      assert Wrapped(vs) == [Some(vs[0])] + Wrapped(vs[1..]);
    } else {
      assert Wrapped(vs) == [];
    }
  }

  lemma {:induction false} StarSeen(sc: Scope, group: seq<Row>)
    requires ScopeOk(sc)
    ensures Seen(sc, Star, group).Ok? && |Seen(sc, Star, group).value| == |group|
    ensures CountOf(Seen(sc, Star, group).value) == |group|
  {
    if group != [] {
      StarSeen(sc, group[1..]);
      var seen := Seen(sc, Star, group).value;
      assert seen == [None] + Seen(sc, Star, group[1..]).value;
      assert seen[1..] == Seen(sc, Star, group[1..]).value;
    }
  }

  /** Which of the values are not NULL. */
  ghost function Present(vs: seq<Value>): set<int> {
    set i | 0 <= i < |vs| && vs[i] != Null
  }

  lemma {:induction false} CountIs(vs: seq<Value>)
    ensures CountOf(Wrapped(vs)) == |Present(vs)| == |NonNull(Wrapped(vs))|
  {
    if vs == [] {
      assert Present(vs) == {};
    } else {
      var n := |vs| - 1;
      CountIs(vs[..n]);
      assert Wrapped(vs) == Wrapped(vs[..n]) + [Some(vs[n])];
      CountMore(Wrapped(vs[..n]), Some(vs[n]));
      PresentLast(vs, n);
      hide Present;
      hide CountOf;
      hide NonNull;
    }
  }

  lemma PresentLast(vs: seq<Value>, n: nat)
    requires |vs| == n + 1
    ensures Present(vs) == Present(vs[..n]) + (if vs[n] == Null then {} else {n}) && n !in Present(vs[..n])
  {
  }

  lemma {:induction false} CountMore(seen: seq<Option<Value>>, x: Option<Value>)
    ensures CountOf(seen + [x]) == CountOf(seen) + if x == Some(Null) then 0 else 1
    ensures NonNull(seen + [x]) == NonNull(seen) + if x.Some? && x.value != Null then [x.value] else []
  {
    var more := seen + [x];
    if seen != [] {
      CountMore(seen[1..], x);
      assert more[1..] == seen[1..] + [x];
      NonNullStep(more);
      NonNullStep(seen);
    } else {
      assert more == [x] && more[1..] == [];
    }
  }

  lemma {:induction false} NonNullMembers(vs: seq<Value>)
    ensures forall v :: v in NonNull(Wrapped(vs)) <==> v in vs && v != Null
  {
    if vs != [] {
      NonNullMembers(vs[1..]);
      assert Wrapped(vs)[1..] == Wrapped(vs[1..]);
      assert vs == [vs[0]] + vs[1..];
    }
  }

  // ---- COUNT ----

  /** The number as an INT: itself when it fits, otherwise equal up to a multiple of 2^32. */
  predicate IsNumberOf(v: Value, n: nat) {
    v.Int? && Congruent(v.i, n) && (n < 0x8000_0000 ==> v.i == n)
  }

  /** COUNT(*) is the number of rows, and COUNT(x) the number of rows on which x is not NULL. */
  lemma CountsRows(sc: Scope, name: string, e: Expr, group: seq<Row>, vs: seq<Value>)
    requires ScopeOk(sc) && Upper(name) == "COUNT" && Gives(sc, e, group, vs)
    ensures var r := Meaning(sc, Call(name, Star), group); r.Ok? && IsNumberOf(r.value, |group|)
    ensures var r := Meaning(sc, Call(name, Exprs([e])), group); r.Ok? && IsNumberOf(r.value, |Present(vs)|)
  {
    KindsAre(name);
    StarSeen(sc, group);
    Wraps(|group|);
    SeenIs(sc, e, group, vs);
    CountIs(vs);
    Wraps(|Present(vs)|);
    hide KindOf;
    assert [e][0] == e;
  }

  // ---- SUM and AVG ----

  predicate NumberOrNull(v: Value) { v == Null || IsNumber(v) }

  /** The sum of the numbers among the values. */
  function Total(vs: seq<Value>): real {
    if vs == [] then 0.0 else (if IsNumber(vs[0]) then NumberOf(vs[0]) else 0.0) + Total(vs[1..])
  }

  lemma {:induction false} SumIs(start: real, vs: seq<Value>)
    requires forall v :: v in vs ==> NumberOrNull(v)
    ensures SumFrom(start, NonNull(Wrapped(vs))) == start + Total(vs)
    decreases |vs|
  {
    if vs != [] {
      var rest := vs[1..];
      assert Wrapped(vs)[1..] == Wrapped(rest);
      SumIs(start + (if IsNumber(vs[0]) then NumberOf(vs[0]) else 0.0), rest);
      NonNullStep(Wrapped(vs));
      if vs[0] != Null {
        assert NonNull(Wrapped(vs))[1..] == NonNull(Wrapped(rest));
      }
    }
  }

  /** The same, when there are only INTs. */
  function WholeTotal(vs: seq<Value>): int {
    if vs == [] then 0 else (if vs[0].Int? then vs[0].i else 0) + WholeTotal(vs[1..])
  }

  lemma {:induction false} WholeIsTotal(vs: seq<Value>)
    requires forall v :: v in vs ==> v == Null || v.Int?
    ensures Total(vs) == WholeTotal(vs) as real
  {
    if vs != [] {
      WholeIsTotal(vs[1..]);
    }
  }

  lemma {:induction false} NoneLeft(vs: seq<Value>)
    requires forall v :: v in vs ==> v == Null
    ensures NonNull(Wrapped(vs)) == []
  {
    if vs != [] {
      assert forall v :: v in vs[1..] ==> v in vs;
      NoneLeft(vs[1..]);
      assert Wrapped(vs)[1..] == Wrapped(vs[1..]);
      assert vs[0] in vs;
    }
  }

  lemma SomeLeft(vs: seq<Value>)
    requires exists v :: v in vs && v != Null
    ensures NonNull(Wrapped(vs)) != []
  {
    NonNullMembers(vs);
    var v :| v in vs && v != Null;
    assert v in NonNull(Wrapped(vs));
  }

  /** An aggregate call means the aggregate of the values its argument has. */
  lemma CallMeans(sc: Scope, name: string, kind: AggKind, e: Expr, group: seq<Row>, vs: seq<Value>)
    requires ScopeOk(sc) && KindOf(name) == Some(kind) && Gives(sc, e, group, vs)
    ensures Meaning(sc, Call(name, Exprs([e])), group) == AggregateOf(kind, IsDouble(sc, e), Wrapped(vs))
  {
    SeenIs(sc, e, group, vs);
    hide KindOf;
    hide IsDouble;
    hide AggregateOf;
    assert [e][0] == e;
  }

  lemma NumbersKept(vs: seq<Value>, doubles: bool)
    requires (forall v :: v in vs ==> NumberOrNull(v)) && (doubles || forall v :: v in vs ==> !v.Double?)
    ensures AllNumbers(NonNull(Wrapped(vs)), doubles) && SumOf(NonNull(Wrapped(vs))) == Total(vs)
    ensures (NonNull(Wrapped(vs)) == []) == forall v :: v in vs ==> v == Null
  {
    NonNullMembers(vs);
    SumIs(0.0, vs);
    if forall v :: v in vs ==> v == Null {
      NoneLeft(vs);
    } else {
      SomeLeft(vs);
    }
  }

  lemma SumOfKept(vs: seq<Value>, doubles: bool)
    requires (forall v :: v in vs ==> NumberOrNull(v)) && (doubles || forall v :: v in vs ==> !v.Double?)
    ensures var r := AggregateOf(Sum, doubles, Wrapped(vs));
      if forall v :: v in vs ==> v == Null then r == Ok(Null)
      else if doubles then r == Ok(Double(Total(vs)))
      else r == Ok(Int(Wrap32(WholeTotal(vs))))
  {
    NumbersKept(vs, doubles);
    if !doubles {
      WholeIsTotal(vs);
      assert Total(vs).Floor == WholeTotal(vs);
    }
    hide Wrap32;
    hide Total;
    hide WholeTotal;
  }

  /** SUM is the sum of the values that are not NULL, as an INT up to multiples of 2^32, and NULL when there are
      none. */
  lemma SumsValues(sc: Scope, name: string, e: Expr, group: seq<Row>, vs: seq<Value>)
    requires ScopeOk(sc) && Upper(name) == "SUM" && Gives(sc, e, group, vs) && forall v :: v in vs ==> NumberOrNull(v)
    requires !IsDouble(sc, e) ==> forall v :: v in vs ==> !v.Double?
    ensures var r := Meaning(sc, Call(name, Exprs([e])), group);
      if forall v :: v in vs ==> v == Null then r == Ok(Null)
      else if IsDouble(sc, e) then r == Ok(Double(Total(vs)))
      else r.Ok? && r.value.Int? && Congruent(r.value.i, WholeTotal(vs))
  {
    KindsAre(name);
    CallMeans(sc, name, Sum, e, group, vs);
    SumOfKept(vs, IsDouble(sc, e));
    Wraps(WholeTotal(vs));
    hide *;
  }

  predicate IsMean(mean: real, n: nat, total: real) { mean * n as real == total }

  /** AVG times the number of values is their sum. */
  lemma AveragesValues(sc: Scope, name: string, e: Expr, group: seq<Row>, vs: seq<Value>)
    requires ScopeOk(sc) && Upper(name) == "AVG" && Gives(sc, e, group, vs) && forall v :: v in vs ==> NumberOrNull(v)
    requires !IsDouble(sc, e) ==> forall v :: v in vs ==> !v.Double?
    ensures var r := Meaning(sc, Call(name, Exprs([e])), group);
      if forall v :: v in vs ==> v == Null then r == Ok(Null)
      else r.Ok? && r.value.Double? && IsMean(r.value.d, |Present(vs)|, Total(vs))
  {
    KindsAre(name);
    CallMeans(sc, name, Avg, e, group, vs);
    AverageOfKept(vs, IsDouble(sc, e));
    hide *;
  }

  lemma AverageOfKept(vs: seq<Value>, doubles: bool)
    requires (forall v :: v in vs ==> NumberOrNull(v)) && (doubles || forall v :: v in vs ==> !v.Double?)
    ensures var r := AggregateOf(Avg, doubles, Wrapped(vs));
      if forall v :: v in vs ==> v == Null then r == Ok(Null)
      else r.Ok? && r.value.Double? && IsMean(r.value.d, |Present(vs)|, Total(vs))
  {
    hide IsMean;
    NumbersKept(vs, doubles);
    CountIs(vs);
    if |Present(vs)| > 0 {
      AverageOf(vs, doubles, Total(vs), |Present(vs)|);
    }
    hide Total;
    hide Present;
  }

  lemma AverageOf(vs: seq<Value>, doubles: bool, total: real, n: nat)
    requires AllNumbers(NonNull(Wrapped(vs)), doubles) && SumOf(NonNull(Wrapped(vs))) == total
    requires |NonNull(Wrapped(vs))| == n > 0
    ensures var r := AggregateOf(Avg, doubles, Wrapped(vs));
      r.Ok? && r.value.Double? && IsMean(r.value.d, n, total)
  {
    TimesBack(total, n as real);
    hide SumOf;
    hide Wrapped;
    hide AllNumbers;
    hide NonNull;
  }

  lemma TimesBack(x: real, y: real)
    requires y != 0.0
    ensures x / y * y == x
  {
  }

  // ---- MIN and MAX ----

  /** All values can be compared with one another. */
  predicate Comparable(vs: seq<Value>) {
    || (forall v :: v in vs ==> NumberOrNull(v))
    || (forall v :: v in vs ==> v == Null || v.Varchar?)
    || (forall v :: v in vs ==> v == Null || v.Bool?)
  }

  lemma {:induction false} ExtremeExists(sign: int, best: Option<Value>, vs: seq<Value>)
    requires Comparable(vs + if best.Some? then [best.value] else []) && Null !in vs && best != Some(Null)
    ensures Extreme(sign, best, vs).Ok?
    decreases |vs|
  {
    if vs != [] {
      var all := vs + if best.Some? then [best.value] else [];
      assert vs[0] in all && forall v :: v in vs[1..] ==> v in all;
      match best
      case None =>
        assert forall v :: v in vs[1..] + [vs[0]] ==> v in all;
        ExtremeExists(sign, Some(vs[0]), vs[1..]);
      case Some(b) =>
        assert b in all;
        var next := if Compare(vs[0], b) == Some(sign) then vs[0] else b;
        assert forall v :: v in vs[1..] + [next] ==> v in all;
        ExtremeExists(sign, Some(next), vs[1..]);
    }
  }

  /** `a` comes before `b`: the smaller number, the text smaller at the first difference, false before true. */
  ghost predicate Less(a: Value, b: Value) {
    || (IsNumber(a) && IsNumber(b) && NumberOf(a) < NumberOf(b))
    || (a.Varchar? && b.Varchar? && exists n: nat :: FirstDiffers(a.s, b.s, n))
    || (a.Bool? && b.Bool? && !a.b && b.b)
  }

  /** MIN is a value of the group that no other one is less than, and MAX one that is less than no other. */
  lemma ExtremesOfValues(sc: Scope, name: string, e: Expr, group: seq<Row>, vs: seq<Value>)
    requires ScopeOk(sc) && Gives(sc, e, group, vs) && Comparable(vs)
    requires Upper(name) == "MIN" || Upper(name) == "MAX"
    ensures var r := Meaning(sc, Call(name, Exprs([e])), group);
      if forall v :: v in vs ==> v == Null then r == Ok(Null)
      else
        && r.Ok? && r.value in vs && r.value != Null
        && forall v :: v in vs && v != Null ==> !(if Upper(name) == "MIN" then Less(v, r.value) else Less(r.value, v))
  {
    KindsAre(name);
    CallMeans(sc, name, if Upper(name) == "MIN" then Min else Max, e, group, vs);
    hide Meaning;
    hide KindOf;
    NonNullMembers(vs);
    var kept, sign := NonNull(Wrapped(vs)), if Upper(name) == "MIN" then -1 else 1;
    assert kept + [] == kept;
    ExtremeExists(sign, None, kept);
    ExtremeIsExtreme(sign, None, kept);
    var m := Extreme(sign, None, kept).value;
    if forall v :: v in vs ==> v == Null {
      NoneLeft(vs);
    } else {
      SomeLeft(vs);
      forall v | v in vs && v != Null ensures !(if sign == -1 then Less(v, m) else Less(m, v)) {
        CompareExactly(v, m);
      }
    }
  }

  // ---- types ----

  predicate HasType(v: Value, t: DataType) {
    match v
    case Null => true
    case Int(_) => t == TInt
    case Varchar(_) => t == TVarchar
    case Bool(_) => t == TBool
    case Double(_) => t == TDouble
  }

  /** The row has values of the columns' types where the expression looks. */
  predicate ColumnsTyped(e: Analyzed, row: Row) {
    match e
    case AColumn(c) => HasType(Get(row, c.index), c.ty)
    case ABinary(left, _, right, _) => ColumnsTyped(left, row) && ColumnsTyped(right, row)
    case AUnary(_, arg, _) => ColumnsTyped(arg, row)
    case AIsNull(arg, _) => ColumnsTyped(arg, row)
    case _ => true
  }

  /** A value that an analyzed expression has on such a row is of the type that the analysis gave it, or NULL. */
  lemma {:induction false} TypesPreserved(sc: Scope, e: Expr, row: Row)
    requires ScopeOk(sc) && AnalyzeExpr(sc, e).Ok? && ColumnsTyped(AnalyzeExpr(sc, e).value, row)
    requires Eval(AnalyzeExpr(sc, e).value, row).Ok?
    ensures var a := AnalyzeExpr(sc, e).value;
      var v := Eval(a, row).value;
      v == Null || (TypeOf(a).Some? && HasType(v, TypeOf(a).value))
    decreases e
  {
    match e
    case Binary(left, op, right) =>
      var l, r := AnalyzeExpr(sc, left).value, AnalyzeExpr(sc, right).value;
      TypesPreserved(sc, left, row);
      TypesPreserved(sc, right, row);
      BinaryTyped(op, Eval(l, row).value, Eval(r, row).value, TypeOf(l), TypeOf(r));
      hide EvalBinary;
      hide BinaryType;
    case Unary(op, arg) => TypesPreserved(sc, arg, row);
    case IsNull(arg, negated) => TypesPreserved(sc, arg, row);
    case _ =>
  }

  lemma BinaryTyped(op: BinaryOp, v: Value, w: Value, t: Option<DataType>, u: Option<DataType>)
    requires v == Null || (t.Some? && HasType(v, t.value))
    requires w == Null || (u.Some? && HasType(w, u.value))
    ensures EvalBinary(op, v, w).Ok? ==> HasType(EvalBinary(op, v, w).value, BinaryType(op, t, u))
  {
  }

  /** The values seen are of the argument's type; none of a bare NULL's. */
  predicate SeenTyped(seen: seq<Option<Value>>, t: Option<DataType>) {
    forall x :: x in seen && x.Some? ==> x.value == Null || (t.Some? && HasType(x.value, t.value))
  }

  lemma {:induction false} KeptTyped(seen: seq<Option<Value>>, t: Option<DataType>)
    requires SeenTyped(seen, t)
    ensures forall v :: v in NonNull(seen) ==> v != Null && t.Some? && HasType(v, t.value)
  {
    if seen != [] {
      assert seen[0] in seen && forall x :: x in seen[1..] ==> x in seen;
      KeptTyped(seen[1..], t);
      NonNullStep(seen);
    }
  }

  /** An aggregate whose type the analysis accepts never fails on values of the argument's type, and its result is of
      the aggregate's type. */
  lemma AcceptedComputes(kind: AggKind, t: Option<DataType>, seen: seq<Option<Value>>)
    requires AggregateType(kind, t).Ok? && SeenTyped(seen, t)
    ensures var r := AggregateOf(kind, t == Some(TDouble), seen);
      r.Ok? && (r.value == Null || HasType(r.value, AggregateType(kind, t).value))
  {
    KeptTyped(seen, t);
    var vs := NonNull(seen);
    if kind == Min || kind == Max {
      var sign := if kind == Min then -1 else 1;
      assert vs + [] == vs;
      if t == Some(TInt) || t == Some(TDouble) {
        assert forall v :: v in vs ==> NumberOrNull(v);
      } else if t == Some(TBool) {
        assert forall v :: v in vs ==> v.Bool?;
      }
      ExtremeExists(sign, None, vs);
      ExtremeIsExtreme(sign, None, vs);
    }
  }

  /** And it is accepted only then: of the types that have values here, every type refused has a value on which the
      aggregate fails. */
  lemma AcceptedExactly(kind: AggKind, t: DataType)
    requires t != TTimestamp
    ensures AggregateType(kind, Some(t)).Ok? <==>
      forall seen :: SeenTyped(seen, Some(t)) ==> AggregateOf(kind, t == TDouble, seen).Ok?
  {
    if AggregateType(kind, Some(t)).Ok? {
      forall seen | SeenTyped(seen, Some(t)) ensures AggregateOf(kind, t == TDouble, seen).Ok? {
        AcceptedComputes(kind, Some(t), seen);
      }
    } else {
      var v := if t == TBool then Bool(true) else Varchar("");
      var seen := [Some(v)];
      assert SeenTyped(seen, Some(t));
      NonNullStep(seen);
      assert v in NonNull(seen);
      assert !AllNumbers(NonNull(seen), t == TDouble);
    }
  }

  // ---- when an expression counts as a GROUP BY key ----

  /** The expression without the names of its columns and without its types. */
  function Bare(e: Analyzed): Analyzed {
    match e
    case AColumn(c) => AColumn(ColumnRef(c.rte, c.index, "", TInt))
    case ABinary(left, op, right, _) => ABinary(Bare(left), op, Bare(right), TInt)
    case AUnary(op, arg, _) => AUnary(op, Bare(arg), TInt)
    case AIsNull(arg, negated) => AIsNull(Bare(arg), negated)
    case _ => e
  }

  /** Two expressions count as the same exactly when only the names and types in them differ, and then they have the
      same value on every row. */
  lemma {:induction false} SameExactly(a: Analyzed, b: Analyzed, row: Row)
    ensures SameExpr(a, b) <==> Bare(a) == Bare(b)
    ensures SameExpr(a, b) ==> Eval(a, row) == Eval(b, row)
    decreases a
  {
    match (a, b)
    case (ABinary(l1, _, r1, _), ABinary(l2, _, r2, _)) =>
      SameExactly(l1, l2, row);
      SameExactly(r1, r2, row);
    case (AUnary(_, e1, _), AUnary(_, e2, _)) => SameExactly(e1, e2, row);
    case (AIsNull(e1, _), AIsNull(e2, _)) => SameExactly(e1, e2, row);
    case _ =>
  }

  /** `inner` is `e` or somewhere in it. */
  ghost predicate Has(e: Expr, inner: Expr)
    decreases e
  {
    || e == inner
    || (match e
        case Binary(left, _, right) => Has(left, inner) || Has(right, inner)
        case Unary(_, arg) => Has(arg, inner)
        case IsNull(arg, _) => Has(arg, inner)
        case Call(_, args) => args.Exprs? && exists i :: 0 <= i < |args.es| && Has(args.es[i], inner)
        case _ => false)
  }

  predicate IsAggregate(e: Expr) { e.Call? && KindOf(e.func).Some? }

  /** The search for aggregates finds one exactly when there is one, at whatever depth. */
  lemma {:induction false} ContainsExactly(e: Expr)
    ensures ContainsAggregate(e) <==> exists inner :: Has(e, inner) && IsAggregate(inner)
    decreases e
  {
    hide KindOf;
    match e
    case Binary(left, _, right) =>
      ContainsExactly(left);
      ContainsExactly(right);
      forall inner | Has(left, inner) || Has(right, inner) ensures Has(e, inner) {
      }
    case Unary(_, arg) =>
      ContainsExactly(arg);
      forall inner | Has(arg, inner) ensures Has(e, inner) {
      }
    case IsNull(arg, _) =>
      ContainsExactly(arg);
      forall inner | Has(arg, inner) ensures Has(e, inner) {
      }
    case Call(name, args) =>
      assert Has(e, e);
      if args.Exprs? {
        forall i | 0 <= i < |args.es|
          ensures ContainsAggregate(args.es[i]) <==>
            exists inner :: Has(args.es[i], inner) && IsAggregate(inner)
        {
          ContainsExactly(args.es[i]);
        }
        forall i, inner | 0 <= i < |args.es| && Has(args.es[i], inner) ensures Has(e, inner) {
        }
      }
    case _ =>
  }
}
