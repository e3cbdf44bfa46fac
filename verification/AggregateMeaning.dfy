/** Extracting aggregates preserves meaning: a rewritten expression on the aggregate's output row has the value
    of the original over the group. */
module AggregateMeaning {
  import opened Common
  import opened Ast
  import opened Values
  import opened Aggregation
  import opened EvaluatorLaws

  // ---- accumulators compute SQL's aggregates ----

  function FoldSeen(s: AggState, seen: seq<Option<Value>>): Result<AggState>
    decreases |seen|
  {
    if seen == [] then Ok(s) else
    match Update(s, seen[0]) case Err => Err case Ok(s') => FoldSeen(s', seen[1..])
  }

  lemma {:induction false} CountFold(n: int, seen: seq<Option<Value>>)
    ensures FoldSeen(CountState(n), seen) == Ok(CountState(n + CountOf(seen)))
    decreases |seen|
  {
    if seen != [] {
      CountFold(if seen[0] == Some(Null) then n else n + 1, seen[1..]);
    }
  }

  lemma NonNullStep(seen: seq<Option<Value>>)
    requires seen != []
    ensures NonNull(seen) == (if seen[0].None? || seen[0].value == Null then NonNull(seen[1..])
                              else [seen[0].value] + NonNull(seen[1..]))
  {
  }

  lemma Numbers(v: Value, rest: seq<Value>, doubles: bool)
    ensures AllNumbers([v] + rest, doubles) <==> (v.Int? || (doubles && v.Double?)) && AllNumbers(rest, doubles)
    ensures forall start :: SumFrom(start, [v] + rest) == SumFrom(start + Number(v), rest)
  {
    assert ([v] + rest)[0] == v && ([v] + rest)[1..] == rest;
    assert v in [v] + rest;
  }

  lemma {:induction false} SumIntFold(sum: int, any: bool, seen: seq<Option<Value>>)
    ensures var vs := NonNull(seen);
      FoldSeen(SumIntState(sum, any), seen) ==
      if AllNumbers(vs, false) then Ok(SumIntState(SumFrom(sum as real, vs).Floor, any || vs != [])) else Err
    decreases |seen|
  {
    if seen != [] {
      NonNullStep(seen);
      if seen[0].None? || seen[0].value == Null {
        SumIntFold(sum, any, seen[1..]);
      } else {
        var v := seen[0].value;
        Numbers(v, NonNull(seen[1..]), false);
        SumIntFold(if v.Int? then sum + v.i else sum, true, seen[1..]);
      }
    }
  }

  lemma {:induction false} SumDoubleFold(sum: real, any: bool, seen: seq<Option<Value>>)
    ensures var vs := NonNull(seen);
      FoldSeen(SumDoubleState(sum, any), seen) ==
      if AllNumbers(vs, true) then Ok(SumDoubleState(SumFrom(sum, vs), any || vs != [])) else Err
    decreases |seen|
  {
    if seen != [] {
      NonNullStep(seen);
      if seen[0].None? || seen[0].value == Null {
        SumDoubleFold(sum, any, seen[1..]);
      } else {
        var v := seen[0].value;
        Numbers(v, NonNull(seen[1..]), true);
        SumDoubleFold(sum + Number(v), true, seen[1..]);
      }
    }
  }

  lemma {:induction false} AvgIntFold(sum: int, count: int, seen: seq<Option<Value>>)
    ensures var vs := NonNull(seen);
      FoldSeen(AvgIntState(sum, count), seen) ==
      if AllNumbers(vs, false) then Ok(AvgIntState(SumFrom(sum as real, vs).Floor, count + |vs|)) else Err
    ensures var vs := NonNull(seen); AllNumbers(vs, false) ==>
      SumFrom(sum as real, vs) == SumFrom(sum as real, vs).Floor as real
    decreases |seen|
  {
    if seen != [] {
      NonNullStep(seen);
      if seen[0].None? || seen[0].value == Null {
        AvgIntFold(sum, count, seen[1..]);
      } else {
        var v := seen[0].value;
        Numbers(v, NonNull(seen[1..]), false);
        AvgIntFold(if v.Int? then sum + v.i else sum, count + 1, seen[1..]);
      }
    }
  }

  predicate IsAverage(r: Result<AggState>, sum: real, count: int) {
    r == Ok(AvgDoubleState(sum, count))
  }

  /** AVG over DOUBLE runs the same sum as SUM, beside a count. */
  lemma {:induction false} AvgDoubleFold(sum: real, any: bool, count: int, seen: seq<Option<Value>>)
    ensures match FoldSeen(SumDoubleState(sum, any), seen)
            case Err => FoldSeen(AvgDoubleState(sum, count), seen).Err?
            case Ok(s) =>
              && s.SumDoubleState?
              && IsAverage(FoldSeen(AvgDoubleState(sum, count), seen), s.dsum, count + |NonNull(seen)|)
    decreases |seen|
  {
    if seen != [] {
      NonNullStep(seen);
      if seen[0].None? || seen[0].value == Null {
        AvgDoubleFold(sum, any, count, seen[1..]);
      } else if Update(SumDoubleState(sum, any), seen[0]).Ok? {
        AvgDoubleFold(Update(SumDoubleState(sum, any), seen[0]).value.dsum, true, count + 1, seen[1..]);
      }
    }
  }

  function ExtremeState(sign: int, cur: Option<Value>): AggState {
    if sign < 0 then MinState(cur) else MaxState(cur)
  }

  lemma {:induction false} ExtremeFold(sign: int, cur: Option<Value>, seen: seq<Option<Value>>)
    requires sign == -1 || sign == 1
    ensures Finalized(FoldSeen(ExtremeState(sign, cur), seen)) == Extreme(sign, cur, NonNull(seen))
    decreases |seen|
  {
    if seen != [] {
      NonNullStep(seen);
      if seen[0].None? || seen[0].value == Null {
        ExtremeFold(sign, cur, seen[1..]);
      } else {
        var v := seen[0].value;
        assert NonNull(seen)[1..] == NonNull(seen[1..]);
        if Better(sign, cur, v).Ok? {
          ExtremeFold(sign, Better(sign, cur, v).value, seen[1..]);
        }
      }
    }
  }

  function Finalized(r: Result<AggState>): Result<Value> {
    match r case Err => Err case Ok(s) => Ok(Finalize(s))
  }

  /** Running the accumulator over the values seen gives SQL's aggregate of them. */
  lemma FoldIsAggregate(a: Aggregate, seen: seq<Option<Value>>)
    ensures Finalized(FoldSeen(Init(a), seen)) == AggregateOf(a.kind, ArgType(a) == Some(TDouble), seen)
  {
    match a.kind
    case Count => CountFold(0, seen);
    case Sum =>
      SumIntFold(0, false, seen);
      SumDoubleFold(0.0, false, seen);
    case Avg =>
      AvgIntFold(0, 0, seen);
      SumDoubleFold(0.0, false, seen);
      AvgDoubleFold(0.0, false, 0, seen);
    case Min => ExtremeFold(-1, None, seen);
    case Max => ExtremeFold(1, None, seen);
  }

  /** MIN and MAX return one of the values, and no value is smaller (larger). */
  lemma {:induction false} ExtremeIsExtreme(sign: int, best: Option<Value>, vs: seq<Value>)
    requires (sign == -1 || sign == 1) && Extreme(sign, best, vs).Ok?
    ensures var m := Extreme(sign, best, vs).value;
      && (if vs == [] && best == None then m == Null else m in vs || best == Some(m))
      && (forall v :: v in vs && v != Null ==> Compare(v, m) != Some(sign))
      && (best.Some? && best.value != Null ==> Compare(best.value, m) != Some(sign))
    decreases |vs|
  {
    if vs == [] {
      if best.Some? {
        NotBeforeItself(best.value);
      }
    } else {
      var next := match best
                  case None => Some(vs[0])
                  case Some(b) => if Compare(vs[0], b) == Some(sign) then Some(vs[0]) else best;
      ExtremeIsExtreme(sign, next, vs[1..]);
      var m := Extreme(sign, best, vs).value;
      if best.Some? {
        Transits(sign, vs[0], best.value, m);
      }
      assert forall v :: v in vs ==> v == vs[0] || v in vs[1..];
    }
  }

  lemma NotBeforeItself(v: Value)
    ensures Compare(v, v) != Some(-1) && Compare(v, v) != Some(1)
  {
  }

  lemma {:induction false} BeforeTransits(a: string, b: string, c: string)
    requires Before(a, b) && Before(b, c)
    ensures Before(a, c)
    decreases |b|
  {
    if a != [] && a[0] == b[0] && b[0] == c[0] {
      BeforeTransits(a[1..], b[1..], c[1..]);
    }
  }

  lemma Transits(sign: int, a: Value, b: Value, m: Value)
    requires (sign == -1 || sign == 1) && Compare(a, b).Some?
    ensures Compare(a, b) != Some(sign) && Compare(b, m) != Some(sign) ==> Compare(a, m) != Some(sign)
    ensures Compare(a, b) == Some(sign) && Compare(a, m) != Some(sign) ==> Compare(b, m) != Some(sign)
  {
    if a.Varchar? && b.Varchar? && m.Varchar? {
      Total(a.s, b.s);
      Total(b.s, m.s);
      Total(a.s, m.s);
      if Before(a.s, m.s) && Before(m.s, b.s) {
        BeforeTransits(a.s, m.s, b.s);
      }
      if Before(a.s, b.s) && Before(b.s, m.s) {
        BeforeTransits(a.s, b.s, m.s);
      }
      if Before(b.s, m.s) && Before(m.s, a.s) {
        BeforeTransits(b.s, m.s, a.s);
      }
      if Before(m.s, b.s) && Before(b.s, a.s) {
        BeforeTransits(m.s, b.s, a.s);
      }
    }
  }

  // ---- analysis keeps the meaning on one row ----

  lemma {:induction false} AnalyzeExprKeeps(sc: Scope, e: Expr, row: Row)
    requires ScopeOk(sc) && AnalyzeExpr(sc, e).Ok?
    ensures Eval(AnalyzeExpr(sc, e).value, row) == OnRow(sc, e, row)
    decreases e
  {
    match e
    case Binary(left, op, right) =>
      AnalyzeExprKeeps(sc, left, row);
      AnalyzeExprKeeps(sc, right, row);
    case Unary(op, arg) => AnalyzeExprKeeps(sc, arg, row);
    case IsNull(arg, negated) => AnalyzeExprKeeps(sc, arg, row);
    case _ =>
  }

  /** Folding a group's rows is folding the values seen in it. */
  lemma {:induction false} FoldRows(sc: Scope, args: Args, a: Aggregate, s: AggState, group: seq<Row>)
    requires ScopeOk(sc) && (args.Exprs? ==> |args.es| == 1)
    requires match args
             case Star => a.arg == StarArg
             case Exprs(es) => AnalyzeExpr(sc, es[0]).Ok? && a.arg == ExprArg(AnalyzeExpr(sc, es[0]).value)
    ensures match Seen(sc, args, group)
            case Err => Fold(a, s, group).Err?
            case Ok(seen) => Fold(a, s, group) == FoldSeen(s, seen)
    decreases |group|
  {
    if group != [] {
      if args.Exprs? {
        AnalyzeExprKeeps(sc, args.es[0], group[0]);
      }
      var v := ArgOn(a.arg, group[0]);
      if v.Ok? {
        if Update(s, v.value).Ok? {
          FoldRows(sc, args, a, Update(s, v.value).value, group[1..]);
        }
        if Seen(sc, args, group[1..]).Ok? {
          var rest := Seen(sc, args, group[1..]).value;
          assert ([v.value] + rest)[0] == v.value && ([v.value] + rest)[1..] == rest;
        }
      }
    }
  }

  // ---- the output rows of an aggregation ----

  function ResultOf(a: Aggregate, group: seq<Row>): Result<Value> {
    Finalized(Fold(a, Init(a), group))
  }

  /** Every row of the group has these key values. */
  ghost predicate KeysAre(keys: seq<Analyzed>, group: seq<Row>, kv: seq<Value>) {
    |kv| == |keys| && forall r, i :: r in group && 0 <= i < |keys| ==> Eval(keys[i], r) == Ok(kv[i])
  }

  /** `out` is the row the aggregation puts out for a group. */
  ghost predicate OutputRow(keys: seq<Analyzed>, aggs: seq<Aggregate>, group: seq<Row>, kv: seq<Value>, out: Row) {
    && KeysAre(keys, group, kv) && |out| == |keys| + |aggs| && out[..|keys|] == kv
    && forall i :: 0 <= i < |aggs| ==> ResultOf(aggs[i], group) == Ok(out[|keys| + i])
  }

  lemma AggregateCall(sc: Scope, e: Expr, a: Aggregate, group: seq<Row>)
    requires ScopeOk(sc) && e.Call? && AnalyzeAggregate(sc, e.func, e.args) == Ok(a)
    ensures ResultOf(a, group) == Meaning(sc, e, group)
  {
    FoldRows(sc, e.args, a, Init(a), group);
    if Seen(sc, e.args, group).Ok? {
      FoldIsAggregate(a, Seen(sc, e.args, group).value);
    }
  }

  /** Aggregates are only ever appended. */
  lemma {:induction false} PostAggAppends(sc: Scope, e: Expr, keys: seq<Analyzed>, aggs: seq<Aggregate>)
    requires ScopeOk(sc) && PostAgg(sc, e, keys, aggs).Ok?
    ensures aggs <= PostAgg(sc, e, keys, aggs).value.1
    decreases e
  {
    match e
    case Binary(left, op, right) =>
      PostAggAppends(sc, left, keys, aggs);
      PostAggAppends(sc, right, keys, PostAgg(sc, left, keys, aggs).value.1);
    case Unary(op, arg) => PostAggAppends(sc, arg, keys, aggs);
    case IsNull(arg, negated) => PostAggAppends(sc, arg, keys, aggs);
    case _ =>
  }

  /** The rewritten expression, evaluated on the row an aggregation puts out for a group, has the value of the
      original over the group: also when later expressions have appended more aggregates (`all`). */
  lemma {:induction false} ExtractionKeeps(sc: Scope, e: Expr, keys: seq<Analyzed>, aggs: seq<Aggregate>,
                                           all: seq<Aggregate>, group: seq<Row>, kv: seq<Value>, out: Row)
    requires ScopeOk(sc) && PostAgg(sc, e, keys, aggs).Ok? && PostAgg(sc, e, keys, aggs).value.1 <= all
    requires OutputRow(keys, all, group, kv, out) && (group != [] || keys == [])
    ensures Eval(PostAgg(sc, e, keys, aggs).value.0, out) == Meaning(sc, e, group)
    decreases e
  {
    match e
    case Lit(_) =>
    case Param(_) =>
    case Column(q, name) =>
      var c := Resolve(sc, q, name).value;
      var pos := KeyPosition(keys, AColumn(c)).value;
      assert group[0] in group && Eval(keys[pos], group[0]) == Ok(kv[pos]);
      assert out[pos] == out[..|keys|][pos];
    case Binary(left, op, right) =>
      var aggs1 := PostAgg(sc, left, keys, aggs).value.1;
      PostAggAppends(sc, right, keys, aggs1);
      ExtractionKeeps(sc, left, keys, aggs, all, group, kv, out);
      ExtractionKeeps(sc, right, keys, aggs1, all, group, kv, out);
    case Unary(op, arg) =>
      ExtractionKeeps(sc, arg, keys, aggs, all, group, kv, out);
    case IsNull(arg, negated) =>
      ExtractionKeeps(sc, arg, keys, aggs, all, group, kv, out);
    case Call(name, args) =>
      if ScalarBuiltin(name, args) == Ok(None) {
        var a := AnalyzeAggregate(sc, name, args).value;
        AggregateCall(sc, e, a, group);
        assert all[|aggs|] == a;
        assert ResultOf(all[|aggs|], group) == Ok(out[|keys| + |aggs|]);
      }
  }

  /** Analysis appends an aggregate exactly when the expression contains one. */
  lemma {:induction false} ExtractsIffContains(sc: Scope, e: Expr, keys: seq<Analyzed>, aggs: seq<Aggregate>)
    requires ScopeOk(sc) && PostAgg(sc, e, keys, aggs).Ok?
    ensures PostAgg(sc, e, keys, aggs).value.1 != aggs <==> ContainsAggregate(e)
    decreases e
  {
    match e
    case Binary(left, op, right) =>
      var aggs1 := PostAgg(sc, left, keys, aggs).value.1;
      ExtractsIffContains(sc, left, keys, aggs);
      ExtractsIffContains(sc, right, keys, aggs1);
      PostAggAppends(sc, left, keys, aggs);
      PostAggAppends(sc, right, keys, aggs1);
    case Unary(op, arg) => ExtractsIffContains(sc, arg, keys, aggs);
    case IsNull(arg, negated) => ExtractsIffContains(sc, arg, keys, aggs);
    case _ =>
  }

  // ---- a whole SELECT list ----

  /** SELECT, HAVING and ORDER BY expressions, analyzed one after another into one list of aggregates. */
  function PostAggAll(sc: Scope, es: seq<Expr>, keys: seq<Analyzed>, aggs: seq<Aggregate>)
    : Result<(seq<Analyzed>, seq<Aggregate>)>
    requires ScopeOk(sc)
  {
    if es == [] then Ok(([], aggs)) else
    match PostAgg(sc, es[0], keys, aggs)
    case Err => Err
    case Ok((x, aggs1)) =>
      match PostAggAll(sc, es[1..], keys, aggs1)
      case Err => Err
      case Ok((xs, aggs2)) => Ok(([x] + xs, aggs2))
  }

  /** All expressions of a SELECT keep their meaning at once, on the rows built from the final list. */
  lemma {:induction false} SelectKeeps(sc: Scope, es: seq<Expr>, keys: seq<Analyzed>, aggs: seq<Aggregate>,
                                       group: seq<Row>, kv: seq<Value>, out: Row, all: seq<Aggregate>)
    requires ScopeOk(sc) && PostAggAll(sc, es, keys, aggs).Ok? && PostAggAll(sc, es, keys, aggs).value.1 <= all
    requires OutputRow(keys, all, group, kv, out) && (group != [] || keys == [])
    ensures aggs <= all && |PostAggAll(sc, es, keys, aggs).value.0| == |es|
    ensures forall i :: 0 <= i < |es| ==>
      Eval(PostAggAll(sc, es, keys, aggs).value.0[i], out) == Meaning(sc, es[i], group)
    decreases |es|
  {
    if es != [] {
      var aggs1 := PostAgg(sc, es[0], keys, aggs).value.1;
      SelectKeeps(sc, es[1..], keys, aggs1, group, kv, out, all);
      PostAggAppends(sc, es[0], keys, aggs);
      ExtractionKeeps(sc, es[0], keys, aggs, all, group, kv, out);
    }
  }
}
