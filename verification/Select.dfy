/** The rest of a SELECT: WHERE, the HAVING filter, and DISTINCT as grouping by every projected expression. */
module SelectQuery {
  import opened Common
  import opened Ast
  import opened Values
  import opened Aggregation
  import opened AggregateMeaning
  import opened HashAggregation

  // ---- the filter ----

  /** A predicate lets a row through when it is true; false and null drop the row, anything else is an error. */
  function Filtered(rows: seq<Row>, p: Analyzed): Result<seq<Row>> {
    if rows == [] then Ok([]) else
    match Filtered(rows[..|rows| - 1], p)
    case Err => Err
    case Ok(kept) => Judge(kept, rows[|rows| - 1], Eval(p, rows[|rows| - 1]))
  }

  function Judge(kept: seq<Row>, row: Row, v: Result<Value>): Result<seq<Row>> {
    if v == Ok(Bool(true)) then Ok(kept + [row])
    else if v == Ok(Bool(false)) || v == Ok(Null) then Ok(kept)
    else Err
  }

  lemma {:induction false} FilteredPrefix(rows: seq<Row>, p: Analyzed, n: nat)
    requires n <= |rows| && Filtered(rows[..n], p).Err?
    ensures Filtered(rows, p).Err?
    decreases |rows| - n
  {
    if n < |rows| {
      assert rows[..n + 1][..n] == rows[..n];
      FilteredPrefix(rows, p, n + 1);
    } else {
      assert rows[..n] == rows;
    }
  }

  /** The filter operator, run until its input ends. */
  method FilterRows(child: seq<Row>, p: Analyzed) returns (r: Result<seq<Row>>)
    ensures r == Filtered(child, p)
  {
    hide Eval;
    var kept: seq<Row> := [];
    var i := 0;
    while i < |child|
      invariant 0 <= i <= |child| && Filtered(child[..i], p) == Ok(kept)
    {
      assert child[..i + 1][..i] == child[..i];
      var v := Eval(p, child[i]);
      if v == Ok(Bool(true)) {
        kept := kept + [child[i]];
      } else if v != Ok(Bool(false)) && v != Ok(Null) {
        FilteredPrefix(child, p, i + 1);
        return Err;
      }
      i := i + 1;
    }
    assert child[..i] == child;
    r := Ok(kept);
  }

  predicate IsTruth(v: Result<Value>) {
    v == Ok(Null) || (v.Ok? && v.value.Bool?)
  }

  // ---- WHERE ----

  /** The rows on which the condition, as it was written, is true. */
  function RowsWhere(sc: Scope, condition: Expr, rows: seq<Row>): seq<Row>
    requires ScopeOk(sc)
  {
    if rows == [] then [] else
      var n := |rows| - 1;
      RowsWhere(sc, condition, rows[..n]) + if OnRow(sc, condition, rows[n]) == Ok(Bool(true)) then [rows[n]] else []
  }

  /** WHERE keeps in order exactly the rows on which the condition is true, and fails exactly when on some row it fails
      or is no truth value. */
  lemma {:induction false} WhereKeeps(sc: Scope, condition: Expr, rows: seq<Row>)
    requires ScopeOk(sc) && AnalyzeExpr(sc, condition).Ok?
    ensures Filtered(rows, AnalyzeExpr(sc, condition).value) ==
      if forall row :: row in rows ==> IsTruth(OnRow(sc, condition, row))
      then Ok(RowsWhere(sc, condition, rows)) else Err
  {
    hide Eval;
    hide OnRow;
    hide AnalyzeExpr;
    if rows != [] {
      var n := |rows| - 1;
      WhereKeeps(sc, condition, rows[..n]);
      AnalyzeExprKeeps(sc, condition, rows[n]);
      assert rows == rows[..n] + [rows[n]];
      var kept := RowsWhere(sc, condition, rows[..n]);
      assert kept + [] == kept;
    }
  }

  // ---- HAVING ----

  predicate AllTruth(sc: Scope, condition: Expr, groups: seq<seq<Row>>)
    requires ScopeOk(sc)
  {
    forall g :: 0 <= g < |groups| ==> IsTruth(Meaning(sc, condition, groups[g]))
  }

  /** The output rows of the groups over which the condition is true. */
  function WhereTrue(sc: Scope, condition: Expr, groups: seq<seq<Row>>, rows: seq<Row>): seq<Row>
    requires ScopeOk(sc) && |groups| == |rows|
  {
    if rows == [] then [] else
      var n := |rows| - 1;
      WhereTrue(sc, condition, groups[..n], rows[..n]) +
      if Meaning(sc, condition, groups[n]) == Ok(Bool(true)) then [rows[n]] else []
  }

  lemma {:induction false} FilterByMeaning(sc: Scope, condition: Expr, p: Analyzed, groups: seq<seq<Row>>,
    rows: seq<Row>)
    requires ScopeOk(sc) && |groups| == |rows|
    requires forall g :: 0 <= g < |rows| ==> Eval(p, rows[g]) == Meaning(sc, condition, groups[g])
    ensures Filtered(rows, p) ==
      if AllTruth(sc, condition, groups)
      then Ok(WhereTrue(sc, condition, groups, rows)) else Err
  {
    hide Eval;
    hide Meaning;
    if rows != [] {
      var n := |rows| - 1;
      FilterByMeaning(sc, condition, p, groups[..n], rows[..n]);
      assert AllTruth(sc, condition, groups) <==>
        AllTruth(sc, condition, groups[..n]) && IsTruth(Meaning(sc, condition, groups[n])) by {
        assert forall g :: 0 <= g < n ==> groups[..n][g] == groups[g];
      }
      var kept := WhereTrue(sc, condition, groups[..n], rows[..n]);
      assert kept + [] == kept;
    }
  }

  /** The groups of a query's output rows. */
  function GroupsOf(keys: seq<Analyzed>, input: seq<Row>, kvs: seq<seq<Value>>): (gs: seq<seq<Row>>)
    ensures |gs| == |kvs| && forall g :: 0 <= g < |kvs| ==> gs[g] == Group(keys, input, kvs[g])
  {
    seq(|kvs|, g requires 0 <= g < |kvs| => Group(keys, input, kvs[g]))
  }

  /** HAVING, end to end: of the rows that the aggregation puts out, the filter keeps in order exactly those of the
      groups over which the original condition is true, and it fails exactly when over some group the condition
      fails or is no truth value. `h` is where the condition stands among the expressions analyzed together. */
  lemma HavingKeeps(sc: Scope, es: seq<Expr>, h: nat, keys: seq<Analyzed>, input: seq<Row>, out: seq<Row>)
    requires ScopeOk(sc) && h < |es| && PostAggAll(sc, es, keys, []).Ok?
    requires var aggs := PostAggAll(sc, es, keys, []).value.1;
      PutOut(keys, aggs, input, GroupKeys(keys, aggs, input), [], out)
    ensures var (xs, aggs) := PostAggAll(sc, es, keys, []).value;
      var groups := GroupsOf(keys, input, GroupKeys(keys, aggs, input));
      && |xs| == |es| && |groups| == |out|
      && Filtered(out, xs[h]) ==
           if AllTruth(sc, es[h], groups)
           then Ok(WhereTrue(sc, es[h], groups, out)) else Err
  {
    hide PutOut;
    var (xs, aggs) := PostAggAll(sc, es, keys, []).value;
    var kvs := GroupKeys(keys, aggs, input);
    var groups := GroupsOf(keys, input, kvs);
    OneRowEach(keys, aggs, input, kvs, out);
    ItemCount(sc, es, keys, []);
    forall g | 0 <= g < |out| ensures Eval(xs[h], out[g]) == Meaning(sc, es[h], groups[g]) {
      QueryKeeps(sc, es, keys, input, g, out);
    }
    FilterByMeaning(sc, es[h], xs[h], groups, out);
  }

  lemma OneRowEach(keys: seq<Analyzed>, aggs: seq<Aggregate>, input: seq<Row>, kvs: seq<seq<Value>>, out: seq<Row>)
    requires PutOut(keys, aggs, input, kvs, [], out)
    ensures |out| == |kvs|
  {
    hide OutputRow;
  }

  lemma {:induction false} ItemCount(sc: Scope, es: seq<Expr>, keys: seq<Analyzed>, aggs: seq<Aggregate>)
    requires ScopeOk(sc) && PostAggAll(sc, es, keys, aggs).Ok?
    ensures |PostAggAll(sc, es, keys, aggs).value.0| == |es|
    decreases |es|
  {
    hide PostAgg;
    if es != [] {
      ItemCount(sc, es[1..], keys, PostAgg(sc, es[0], keys, aggs).value.1);
    }
  }

  // ---- DISTINCT ----

  function AnalyzeAll(sc: Scope, es: seq<Expr>): (r: Result<seq<Analyzed>>)
    requires ScopeOk(sc)
    ensures r.Ok? ==> |r.value| == |es| && forall i :: 0 <= i < |es| ==> AnalyzeExpr(sc, es[i]) == Ok(r.value[i])
  {
    if es == [] then Ok([]) else
    match AnalyzeExpr(sc, es[0])
    case Err => Err
    case Ok(a) => match AnalyzeAll(sc, es[1..]) case Err => Err case Ok(more) => Ok([a] + more)
  }

  /** Every column that the expression mentions is itself a key. */
  predicate ColumnsAreKeys(sc: Scope, e: Expr, keys: seq<Analyzed>)
    requires ScopeOk(sc)
  {
    match e
    case Column(q, name) => Resolve(sc, q, name).Ok? && KeyPosition(keys, AColumn(Resolve(sc, q, name).value)).Some?
    case Binary(left, _, right) => ColumnsAreKeys(sc, left, keys) && ColumnsAreKeys(sc, right, keys)
    case Unary(_, arg) => ColumnsAreKeys(sc, arg, keys)
    case IsNull(arg, _) => ColumnsAreKeys(sc, arg, keys)
    case _ => true
  }

  predicate MentionsColumn(e: Expr) {
    match e
    case Column(_, _) => true
    case Binary(left, _, right) => MentionsColumn(left) || MentionsColumn(right)
    case Unary(_, arg) => MentionsColumn(arg)
    case IsNull(arg, _) => MentionsColumn(arg)
    case _ => false
  }

  /** An expression without aggregates is accepted over output rows exactly when its columns are keys: that the
      whole expression is a key does not help. */
  lemma {:induction false} AcceptedExactly(sc: Scope, e: Expr, keys: seq<Analyzed>, aggs: seq<Aggregate>)
    requires ScopeOk(sc) && !ContainsAggregate(e) && AnalyzeExpr(sc, e).Ok?
    ensures PostAgg(sc, e, keys, aggs).Ok? <==> ColumnsAreKeys(sc, e, keys)
    ensures PostAgg(sc, e, keys, aggs).Ok? ==> PostAgg(sc, e, keys, aggs).value.1 == aggs
    decreases e
  {
    match e
    case Binary(left, _, right) =>
      AcceptedExactly(sc, left, keys, aggs);
      AcceptedExactly(sc, right, keys, aggs);
    case Unary(_, arg) => AcceptedExactly(sc, arg, keys, aggs);
    case IsNull(arg, _) => AcceptedExactly(sc, arg, keys, aggs);
    case _ =>
  }

  /** When SELECT DISTINCT is accepted: its keys are its items, and every column an item mentions must be an item
      of its own. */
  lemma {:induction false} DistinctAccepted(sc: Scope, es: seq<Expr>, keys: seq<Analyzed>)
    requires ScopeOk(sc) && forall i :: 0 <= i < |es| ==> !ContainsAggregate(es[i]) && AnalyzeExpr(sc, es[i]).Ok?
    ensures PostAggAll(sc, es, keys, []).Ok? <==> forall i :: 0 <= i < |es| ==> ColumnsAreKeys(sc, es[i], keys)
    ensures PostAggAll(sc, es, keys, []).Ok? ==> PostAggAll(sc, es, keys, []).value.1 == []
    decreases |es|
  {
    hide PostAgg;
    hide ColumnsAreKeys;
    hide AnalyzeExpr;
    hide ContainsAggregate;
    if es != [] {
      AcceptedExactly(sc, es[0], keys, []);
      DistinctAccepted(sc, es[1..], keys);
      assert forall i :: 1 <= i < |es| ==> es[i] == es[1..][i - 1];
    }
  }

  lemma {:induction false} NoColumnKey(sc: Scope, e: Expr, keys: seq<Analyzed>)
    requires ScopeOk(sc) && |keys| == 1 && !keys[0].AColumn?
    requires AnalyzeExpr(sc, e).Ok?
    ensures ColumnsAreKeys(sc, e, keys) <==> !MentionsColumn(e)
    decreases e
  {
    match e
    case Binary(left, _, right) =>
      NoColumnKey(sc, left, keys);
      NoColumnKey(sc, right, keys);
    case Unary(_, arg) => NoColumnKey(sc, arg, keys);
    case IsNull(arg, _) => NoColumnKey(sc, arg, keys);
    case _ =>
  }

  /** `SELECT DISTINCT e` with one item is accepted exactly when `e` is a column or mentions none. */
  lemma SingleDistinctAccepted(sc: Scope, e: Expr)
    requires ScopeOk(sc) && !ContainsAggregate(e) && AnalyzeExpr(sc, e).Ok?
    ensures PostAgg(sc, e, [AnalyzeExpr(sc, e).value], []).Ok? <==> e.Column? || !MentionsColumn(e)
  {
    var keys := [AnalyzeExpr(sc, e).value];
    AcceptedExactly(sc, e, keys, []);
    if e.Column? {
      assert SameExpr(keys[0], AColumn(Resolve(sc, e.qualifier, e.name).value));
    } else {
      NoColumnKey(sc, e, keys);
    }
  }

  lemma {:induction false} MeaningOnRow(sc: Scope, e: Expr, group: seq<Row>)
    requires ScopeOk(sc) && !ContainsAggregate(e) && group != []
    ensures Meaning(sc, e, group) == OnRow(sc, e, group[0])
    decreases e
  {
    match e
    case Binary(left, _, right) =>
      MeaningOnRow(sc, left, group);
      MeaningOnRow(sc, right, group);
    case Unary(_, arg) => MeaningOnRow(sc, arg, group);
    case IsNull(arg, _) => MeaningOnRow(sc, arg, group);
    case _ =>
  }

  /** SELECT DISTINCT, end to end: the projected rows are the combinations of item values on the input rows, each
      once, in order of first appearance. */
  lemma DistinctRows(sc: Scope, es: seq<Expr>, input: seq<Row>, out: seq<Row>, g: nat, i: nat)
    requires ScopeOk(sc) && es != [] && AnalyzeAll(sc, es).Ok? && forall j :: 0 <= j < |es| ==>
      !ContainsAggregate(es[j])
    requires PostAggAll(sc, es, AnalyzeAll(sc, es).value, []).Ok?
    requires PutOut(AnalyzeAll(sc, es).value, [], input, FirstKeys(AnalyzeAll(sc, es).value, input), [], out)
    requires g < |out| && i < |es|
    ensures var keys := AnalyzeAll(sc, es).value;
      var kvs, xs := FirstKeys(keys, input), PostAggAll(sc, es, keys, []).value.0;
      && |kvs| == |out| && |xs| == |es| && |kvs[g]| == |es|
      && Eval(xs[i], out[g]) == Ok(kvs[g][i])
      && (forall f :: 0 <= f < |out| && f != g ==> kvs[f] != kvs[g])
  {
    hide PutOut;
    hide Eval;
    var keys := AnalyzeAll(sc, es).value;
    var kvs := FirstKeys(keys, input);
    DistinctAccepted(sc, es, keys);
    OneRowEach(keys, [], input, kvs, out);
    ItemCount(sc, es, keys, []);
    KeyHasRows(keys, input, kvs[g]);
    var group := Group(keys, input, kvs[g]);
    QueryKeeps(sc, es, keys, input, g, out);
    MeaningOnRow(sc, es[i], group);
    AnalyzeExprKeeps(sc, es[i], group[0]);
    GroupHasKey(keys, input, kvs[g]);
    assert group[0] in group;
    KeysApart(keys, input);
  }

  /** Every input row's combination is among them. */
  lemma {:induction false} DistinctCovers(keys: seq<Analyzed>, input: seq<Row>, row: Row)
    requires row in input && KeyOf(keys, row).Ok?
    ensures KeyOf(keys, row).value in FirstKeys(keys, input)
  {
    var n := |input| - 1;
    if row != input[n] {
      DistinctCovers(keys, input[..n], row);
    }
  }
}
