/** The aggregation operator and the analyzer's walk, as the program runs them. */
module HashAggregation {
  import opened Common
  import opened Ast
  import opened Values
  import opened Aggregation
  import opened AggregateMeaning

  // ---- the analyzer ----

  class AggregateList {
    var items: seq<Aggregate>

    constructor ()
      ensures items == []
    {
      items := [];
    }

    method Push(a: Aggregate) returns (index: nat)
      modifies this
      ensures items == old(items) + [a] && index == |old(items)|
    {
      index := |items|;
      items := items + [a];
    }
  }

  /** What the walk must have left in the list, and what it must have answered. */
  ghost predicate Walked(was: Result<(Analyzed, seq<Aggregate>)>, r: Result<Analyzed>, items: seq<Aggregate>) {
    match was
    case Err => r == Err
    case Ok((x, aggs)) => r == Ok(x) && items == aggs
  }

  /** Rewrites an expression, pushing each aggregate call it meets onto the list. */
  method AnalyzePostAgg(sc: Scope, e: Expr, keys: seq<Analyzed>, list: AggregateList) returns (r: Result<Analyzed>)
    requires ScopeOk(sc)
    modifies list
    ensures Walked(PostAgg(sc, e, keys, old(list.items)), r, list.items)
    decreases e
  {
    match e {
      case Lit(l) => r := Ok(ALit(l));
      case Column(q, name) =>
        match Resolve(sc, q, name) {
          case Err => r := Err;
          case Ok(c) =>
            match KeyPosition(keys, AColumn(c)) {
              case None => r := Err;
              case Some(pos) => r := Ok(AColumn(ColumnRef(POST_AGG, pos, name, c.ty)));
            }
        }
      case Binary(left, op, right) =>
        var l := AnalyzePostAgg(sc, left, keys, list);
        if l.Err? {
          return Err;
        }
        var rr := AnalyzePostAgg(sc, right, keys, list);
        if rr.Err? {
          return Err;
        }
        r := Ok(ABinary(l.value, op, rr.value, BinaryType(op, TypeOf(l.value), TypeOf(rr.value))));
      case Unary(op, arg) =>
        var a := AnalyzePostAgg(sc, arg, keys, list);
        r := if a.Err? then Err else Ok(AUnary(op, a.value, UnaryType(op)));
      case IsNull(arg, negated) =>
        var a := AnalyzePostAgg(sc, arg, keys, list);
        r := if a.Err? then Err else Ok(AIsNull(a.value, negated));
      case Call(name, args) =>
        match ScalarBuiltin(name, args) {
          case Err => r := Err;
          case Ok(Some(b)) => r := Ok(b);
          case Ok(None) =>
            match AnalyzeAggregate(sc, name, args) {
              case Err => r := Err;
              case Ok(a) =>
                var index := list.Push(a);
                r := Ok(AColumn(ColumnRef(POST_AGG, |keys| + index, KindName(a.kind), a.ty)));
            }
        }
      case Param(_) => r := Err;
    }
  }

  /** Searches one scope's entries; a second hit is an error. */
  method SearchScope(sc: Scope, scope: seq<ScopeEntry>, name: string, before: Option<ColumnRef>)
    returns (r: Result<Option<ColumnRef>>)
    requires EntriesIn(sc, scope)
    ensures r == Search(sc, scope, name, before)
  {
    var hit := before;
    var j := 0;
    while j < |scope|
      invariant 0 <= j <= |scope| && Search(sc, scope[j..], name, hit) == Search(sc, scope, name, before)
    {
      assert scope[j..][1..] == scope[j + 1..];
      match HitIn(sc, scope[j], name) {
        case None =>
        case Some(c) =>
          if hit.Some? {
            return Err;
          }
          hit := Some(c);
      }
      j := j + 1;
    }
    r := Ok(hit);
  }

  lemma {:induction false} SearchAppend(sc: Scope, a: seq<ScopeEntry>, b: seq<ScopeEntry>, name: string,
    hit: Option<ColumnRef>)
    requires EntriesIn(sc, a) && EntriesIn(sc, b)
    ensures EntriesIn(sc, a + b)
    ensures Search(sc, a + b, name, hit) ==
      match Search(sc, a, name, hit) case Err => Err case Ok(h) => Search(sc, b, name, h)
    decreases |a|
  {
    if a == [] {
      assert a + b == b;
    } else {
      assert (a + b)[0] == a[0] && (a + b)[1..] == a[1..] + b;
      var c := HitIn(sc, a[0], name);
      SearchAppend(sc, a[1..], b, name, if c.Some? then c else hit);
    }
  }

  /** The innermost of the first `s + 1` scopes is searched before the others. */
  lemma LastScope(sc: Scope, s: nat, name: string, hit: Option<ColumnRef>)
    requires ScopeOk(sc) && s < |sc.scopes|
    ensures EntriesIn(sc, sc.scopes[s])
    ensures SearchOuter(sc, s + 1, name, hit) ==
      match Search(sc, sc.scopes[s], name, hit) case Err => Err case Ok(h) => SearchOuter(sc, s, name, h)
  {
    assert sc.scopes[..s + 1][..s] == sc.scopes[..s];
    EntriesOk(sc, sc.scopes[..s]);
    SearchAppend(sc, sc.scopes[s], Entries(sc.scopes[..s]), name, hit);
  }

  /** Searching the outermost `s` scopes. */
  function SearchOuter(sc: Scope, s: nat, name: string, hit: Option<ColumnRef>): Result<Option<ColumnRef>>
    requires ScopeOk(sc) && s <= |sc.scopes|
  {
    EntriesOk(sc, sc.scopes[..s]);
    Search(sc, Entries(sc.scopes[..s]), name, hit)
  }

  /** Searches every scope, innermost first, and refuses a second hit. */
  method ResolveUnqualified(sc: Scope, name: string) returns (r: Result<ColumnRef>)
    requires ScopeOk(sc)
    ensures r == Resolve(sc, None, name)
  {
    var hit: Option<ColumnRef> := None;
    var s := |sc.scopes|;
    assert sc.scopes[..s] == sc.scopes;
    while s > 0
      invariant 0 <= s <= |sc.scopes| && SearchOuter(sc, s, name, hit) == SearchOuter(sc, |sc.scopes|, name, None)
    {
      s := s - 1;
      LastScope(sc, s, name, hit);
      var found := SearchScope(sc, sc.scopes[s], name, hit);
      match found {
        case Err => return Err;
        case Ok(h) => hit := h;
      }
    }
    r := match hit case None => Err case Some(c) => Ok(c);
  }

  // ---- the operator ----

  function KeyOf(keys: seq<Analyzed>, row: Row): (r: Result<seq<Value>>)
    ensures r.Ok? ==> |r.value| == |keys| && forall i :: 0 <= i < |keys| ==> Eval(keys[i], row) == Ok(r.value[i])
    ensures r.Err? ==> exists i :: 0 <= i < |keys| && Eval(keys[i], row).Err?
  {
    if keys == [] then Ok([]) else
    match Eval(keys[0], row)
    case Err => Err
    case Ok(v) => match KeyOf(keys[1..], row) case Err => Err case Ok(vs) => Ok([v] + vs)
  }

  /** The rows of one group, in input order. */
  function Group(keys: seq<Analyzed>, rows: seq<Row>, kv: seq<Value>): seq<Row> {
    if rows == [] then []
    else
      Group(keys, rows[..|rows| - 1], kv) +
      if KeyOf(keys, rows[|rows| - 1]) == Ok(kv) then [rows[|rows| - 1]] else []
  }

  /** The keys that occur, in order of first appearance. */
  function FirstKeys(keys: seq<Analyzed>, rows: seq<Row>): seq<seq<Value>> {
    if rows == [] then [] else
    var before := FirstKeys(keys, rows[..|rows| - 1]);
    match KeyOf(keys, rows[|rows| - 1])
    case Err => before
    case Ok(k) => if k in before then before else before + [k]
  }

  /** Without GROUP BY an empty input still makes one group. */
  function GroupKeys(keys: seq<Analyzed>, aggs: seq<Aggregate>, rows: seq<Row>): seq<seq<Value>> {
    if rows == [] && keys == [] && aggs != [] then [[]] else FirstKeys(keys, rows)
  }

  /** No key, argument or accumulator fails on these rows. */
  ghost predicate Computable(keys: seq<Analyzed>, aggs: seq<Aggregate>, rows: seq<Row>) {
    && (forall r :: r in rows ==> KeyOf(keys, r).Ok?)
    && forall kv, i :: kv in FirstKeys(keys, rows) && 0 <= i < |aggs| ==> ResultOf(aggs[i], Group(keys, rows, kv)).Ok?
  }

  lemma {:induction false} FoldAppend(a: Aggregate, s: AggState, g: seq<Row>, h: seq<Row>)
    ensures Fold(a, s, g + h) == match Fold(a, s, g) case Err => Err case Ok(t) => Fold(a, t, h)
    decreases |g|
  {
    if g == [] {
      assert g + h == h;
    } else {
      assert (g + h)[0] == g[0] && (g + h)[1..] == g[1..] + h;
      var v := ArgOn(a.arg, g[0]);
      if v.Ok? && Update(s, v.value).Ok? {
        FoldAppend(a, Update(s, v.value).value, g[1..], h);
      }
    }
  }

  lemma {:induction false} GroupGrows(keys: seq<Analyzed>, a: seq<Row>, b: seq<Row>, kv: seq<Value>)
      returns (rest: seq<Row>)
    ensures Group(keys, a + b, kv) == Group(keys, a, kv) + rest
    decreases |b|
  {
    if b == [] {
      rest := [];
      assert a + b == a;
    } else {
      var n := |b| - 1;
      assert (a + b)[..|a + b| - 1] == a + b[..n] && (a + b)[|a + b| - 1] == b[n];
      rest := GroupGrows(keys, a, b[..n], kv);
      rest := rest + if KeyOf(keys, b[n]) == Ok(kv) then [b[n]] else [];
    }
  }

  lemma {:induction false} KeysGrow(keys: seq<Analyzed>, a: seq<Row>, b: seq<Row>)
    ensures FirstKeys(keys, a) <= FirstKeys(keys, a + b)
    decreases |b|
  {
    if b == [] {
      assert a + b == a;
    } else {
      var n := |b| - 1;
      assert (a + b)[..|a + b| - 1] == a + b[..n];
      KeysGrow(keys, a, b[..n]);
    }
  }

  lemma {:induction false} GroupHasKey(keys: seq<Analyzed>, rows: seq<Row>, kv: seq<Value>)
    requires |kv| == |keys|
    ensures KeysAre(keys, Group(keys, rows, kv), kv)
  {
    if rows != [] {
      GroupHasKey(keys, rows[..|rows| - 1], kv);
    }
  }

  /** An occurring key has rows. */
  lemma {:induction false} KeyHasRows(keys: seq<Analyzed>, rows: seq<Row>, kv: seq<Value>)
    requires kv in FirstKeys(keys, rows)
    ensures Group(keys, rows, kv) != [] && |kv| == |keys|
  {
    var n := |rows| - 1;
    if kv in FirstKeys(keys, rows[..n]) {
      KeyHasRows(keys, rows[..n], kv);
    }
  }

  /** One more row goes to the group of its key only. */
  lemma GroupStep(keys: seq<Analyzed>, rows: seq<Row>, n: nat, key: seq<Value>)
    requires n < |rows| && KeyOf(keys, rows[n]) == Ok(key)
    ensures Group(keys, rows[..n + 1], key) == Group(keys, rows[..n], key) + [rows[n]]
    ensures forall kv :: kv != key ==> Group(keys, rows[..n + 1], kv) == Group(keys, rows[..n], kv)
    ensures FirstKeys(keys, rows[..n + 1]) ==
      if key in FirstKeys(keys, rows[..n]) then FirstKeys(keys, rows[..n]) else FirstKeys(keys, rows[..n]) + [key]
  {
    assert rows[..n + 1][..n] == rows[..n];
  }

  lemma {:induction false} NewKeyNoRows(keys: seq<Analyzed>, rows: seq<Row>, kv: seq<Value>)
    requires kv !in FirstKeys(keys, rows)
    ensures Group(keys, rows, kv) == []
  {
    if rows != [] {
      NewKeyNoRows(keys, rows[..|rows| - 1], kv);
    }
  }

  /** A row whose key, argument or accumulator fails spoils the whole input. */
  lemma NotComputable(keys: seq<Analyzed>, aggs: seq<Aggregate>, rows: seq<Row>, n: nat, kv: seq<Value>, i: nat)
    requires n <= |rows| && kv in FirstKeys(keys, rows[..n]) && i < |aggs|
    requires ResultOf(aggs[i], Group(keys, rows[..n], kv)).Err?
    ensures !Computable(keys, aggs, rows)
  {
    assert rows == rows[..n] + rows[n..];
    KeysGrow(keys, rows[..n], rows[n..]);
    var rest := GroupGrows(keys, rows[..n], rows[n..], kv);
    FoldAppend(aggs[i], Init(aggs[i]), Group(keys, rows[..n], kv), rest);
    assert ResultOf(aggs[i], Group(keys, rows, kv)).Err?;
  }

  /** Accumulator `s` holds what `a` makes of the group so far. */
  ghost predicate Holds(a: Aggregate, s: AggState, group: seq<Row>) {
    Fold(a, Init(a), group) == Ok(s)
  }

  lemma HoldsNext(a: Aggregate, s: AggState, group: seq<Row>, row: Row)
    requires Holds(a, s, group)
    ensures Fold(a, Init(a), group + [row]) == match ArgOn(a.arg, row) case Err => Err case Ok(v) => Update(s, v)
  {
    FoldAppend(a, Init(a), group, [row]);
    assert [row][1..] == [];
  }

  /** The states of one group all hold. */
  ghost predicate AllHold(aggs: seq<Aggregate>, states: seq<AggState>, group: seq<Row>) {
    |states| == |aggs| && forall i :: 0 <= i < |aggs| ==> Holds(aggs[i], states[i], group)
  }

  ghost predicate TableHolds(groupKeys: seq<Analyzed>, aggs: seq<Aggregate>, rows: seq<Row>,
                             keys: seq<seq<Value>>, states: seq<seq<AggState>>)
  {
    |states| == |keys| && forall g :: 0 <= g < |keys| ==> AllHold(aggs, states[g], Group(groupKeys, rows, keys[g]))
  }

  method FindKey(keys: seq<seq<Value>>, key: seq<Value>) returns (found: Option<nat>)
    ensures found.Some? ==> found.value < |keys| && keys[found.value] == key
    ensures found.None? ==> key !in keys
  {
    var g := 0;
    while g < |keys|
      invariant 0 <= g <= |keys| && key !in keys[..g]
    {
      if keys[g] == key {
        return Some(g);
      }
      g := g + 1;
    }
    found := None;
  }

  function InitAll(aggs: seq<Aggregate>): (s: seq<AggState>)
    ensures |s| == |aggs| && forall i :: 0 <= i < |aggs| ==> s[i] == Init(aggs[i])
  {
    seq(|aggs|, i requires 0 <= i < |aggs| => Init(aggs[i]))
  }

  lemma KeyFails(keys: seq<Analyzed>, aggs: seq<Aggregate>, rows: seq<Row>, n: nat)
    requires n < |rows| && KeyOf(keys, rows[n]).Err?
    ensures !Computable(keys, aggs, rows)
  {
    assert rows[n] in rows;
  }

  /** The table after row `n` went into group `g`, which may be new. */
  lemma TableGrows(groupKeys: seq<Analyzed>, aggs: seq<Aggregate>, rows: seq<Row>, n: nat, key: seq<Value>,
                   keys: seq<seq<Value>>, states: seq<seq<AggState>>, more: seq<seq<Value>>, grown: seq<seq<AggState>>,
                   g: nat, s: seq<AggState>)
    requires n < |rows| && KeyOf(groupKeys, rows[n]) == Ok(key) && keys == FirstKeys(groupKeys, rows[..n])
    requires TableHolds(groupKeys, aggs, rows[..n], keys, states)
    requires if key in keys then more == keys && grown == states && g < |keys| && keys[g] == key
             else more == keys + [key] && |grown| == |states| + 1 && grown[..|states|] == states && g == |keys|
    requires AllHold(aggs, s, Group(groupKeys, rows[..n], key) + [rows[n]])
    ensures TableHolds(groupKeys, aggs, rows[..n + 1], more, grown[g := s])
  {
    GroupStep(groupKeys, rows, n, key);
    KeysApart(groupKeys, rows[..n]);
    hide Group;
    hide FirstKeys;
    hide AllHold;
    forall k | 0 <= k < |more| ensures AllHold(aggs, grown[g := s][k], Group(groupKeys, rows[..n + 1], more[k])) {
      if k != g {
        assert more[k] == keys[k] && grown[k] == grown[..|states|][k] == states[k];
      }
    }
  }

  class HashAggregate {
    const groupKeys: seq<Analyzed>
    const aggregates: seq<Aggregate>
    var rows: seq<Row>
    var cursor: nat

    constructor (groupKeys: seq<Analyzed>, aggregates: seq<Aggregate>)
      ensures this.groupKeys == groupKeys && this.aggregates == aggregates && rows == [] && cursor == 0
    {
      this.groupKeys, this.aggregates := groupKeys, aggregates;
      rows, cursor := [], 0;
    }

    /** Adds one row's arguments to the accumulators of its group. */
    method Accumulate(row: Row, states: seq<AggState>, ghost group: seq<Row>) returns (r: Result<seq<AggState>>)
      requires AllHold(aggregates, states, group)
      ensures r.Ok? ==> AllHold(aggregates, r.value, group + [row])
      ensures r.Err? ==> exists i :: 0 <= i < |aggregates| && ResultOf(aggregates[i], group + [row]).Err?
    {
      var out := states;
      var i := 0;
      while i < |aggregates|
        invariant 0 <= i <= |aggregates| == |out|
        invariant forall j :: 0 <= j < i ==> Holds(aggregates[j], out[j], group + [row])
        invariant forall j :: i <= j < |aggregates| ==> out[j] == states[j]
      {
        var agg := aggregates[i];
        HoldsNext(agg, states[i], group, row);
        match ArgOn(agg.arg, row) {
          case Err =>
            assert ResultOf(aggregates[i], group + [row]).Err?;
            return Err;
          case Ok(v) =>
            match Update(out[i], v) {
              case Err =>
                assert ResultOf(aggregates[i], group + [row]).Err?;
                return Err;
              case Ok(s) =>
                out := out[i := s];
            }
        }
        i := i + 1;
      }
      r := Ok(out);
    }

    /** One row more: its key's group is found or made, and its accumulators take the row in. */
    method AddRow(input: seq<Row>, n: nat, keys: seq<seq<Value>>, states: seq<seq<AggState>>)
      returns (r: Result<(seq<seq<Value>>, seq<seq<AggState>>)>)
      requires n < |input| && keys == FirstKeys(groupKeys, input[..n])
      requires TableHolds(groupKeys, aggregates, input[..n], keys, states)
      ensures r.Ok? ==> KeyOf(groupKeys, input[n]).Ok? && r.value.0 == FirstKeys(groupKeys, input[..n + 1])
      ensures r.Ok? ==> TableHolds(groupKeys, aggregates, input[..n + 1], r.value.0, r.value.1)
      ensures r.Err? ==> !Computable(groupKeys, aggregates, input)
    {
      hide FirstKeys;
      hide Group;
      hide Computable;
      var t := input[n];
      match KeyOf(groupKeys, t) {
        case Err =>
          KeyFails(groupKeys, aggregates, input, n);
          return Err;
        case Ok(key) =>
          GroupStep(groupKeys, input, n, key);
          KeysApart(groupKeys, input[..n]);
          ghost var group := Group(groupKeys, input[..n], key);
          var more, grown := keys, states;
          var at := FindKey(keys, key);
          var g;
          match at {
            case Some(i) => g := i;
            case None =>
              NewKeyNoRows(groupKeys, input[..n], key);
              more := keys + [key];
              grown := states + [InitAll(aggregates)];
              g := |keys|;
          }
          assert AllHold(aggregates, grown[g], group);
          var updated := Accumulate(t, grown[g], group);
          match updated {
            case Err =>
              ghost var i :| 0 <= i < |aggregates| && ResultOf(aggregates[i], group + [t]).Err?;
              NotComputable(groupKeys, aggregates, input, n + 1, key, i);
              return Err;
            case Ok(s) =>
              TableGrows(groupKeys, aggregates, input, n, key, keys, states, more, grown, g, s);
              r := Ok((more, grown[g := s]));
          }
      }
    }

    /** Reads all rows into groups and accumulators. */
    method Drain(input: seq<Row>) returns (r: Result<(seq<seq<Value>>, seq<seq<AggState>>)>)
      ensures r.Ok? <==> Computable(groupKeys, aggregates, input)
      ensures r.Ok? ==> r.value.0 == FirstKeys(groupKeys, input)
      ensures r.Ok? ==> TableHolds(groupKeys, aggregates, input, r.value.0, r.value.1)
    {
      hide Computable;
      hide TableHolds;
      NothingHolds(groupKeys, aggregates);
      var keys: seq<seq<Value>>, states: seq<seq<AggState>> := [], [];
      var n := 0;
      assert input[..0] == [];
      while n < |input|
        invariant 0 <= n <= |input| && keys == FirstKeys(groupKeys, input[..n])
        invariant forall r :: r in input[..n] ==> KeyOf(groupKeys, r).Ok?
        invariant TableHolds(groupKeys, aggregates, input[..n], keys, states)
      {
        var next := AddRow(input, n, keys, states);
        if next.Err? {
          return Err;
        }
        keys, states := next.value.0, next.value.1;
        n := n + 1;
      }
      assert input[..n] == input;
      AllComputable(groupKeys, aggregates, input, keys, states);
      r := Ok((keys, states));
    }

    /** Drains the input into groups. Fails exactly when some key, argument or accumulator fails; otherwise puts
        out one row for each group, in order of first appearance. */
    method Build(input: seq<Row>) returns (ok: bool)
      modifies this`rows
      ensures ok <==> Computable(groupKeys, aggregates, input)
      ensures !ok ==> rows == old(rows)
      ensures ok ==> PutOut(groupKeys, aggregates, input, GroupKeys(groupKeys, aggregates, input), old(rows), rows)
      ensures ok && groupKeys == [] && aggregates != [] ==> PutOutTotals(aggregates, input, old(rows), rows)
    {
      hide Computable;
      hide FirstKeys;
      hide Group;
      hide AllHold;
      PutOutNone(groupKeys, aggregates, input, rows);
      var drained := Drain(input);
      if drained.Err? {
        return false;
      }
      var (keys, states) := drained.value;
      KeysFit(groupKeys, input);
      if input == [] && groupKeys == [] && aggregates != [] {
        EmptyInput(groupKeys, aggregates);
        keys, states := [[]], [InitAll(aggregates)];
      }
      hide PutOut;
      var g := 0;
      while g < |keys|
        invariant 0 <= g <= |keys| == |states|
        invariant PutOut(groupKeys, aggregates, input, keys[..g], old(rows), rows)
      {
        assert AllHold(aggregates, states[g], Group(groupKeys, input, keys[g]));
        GroupHasKey(groupKeys, input, keys[g]);
        PutOutOne(groupKeys, aggregates, input, keys[..g], old(rows), rows, keys[g], states[g]);
        assert keys[..g + 1] == keys[..g] + [keys[g]];
        rows := rows + [keys[g] + FinalizeAll(states[g])];
        g := g + 1;
      }
      assert keys[..g] == keys;
      if groupKeys == [] && aggregates != [] {
        OneTotal(aggregates, input, old(rows), rows);
      }
      ok := true;
    }
  }

  /** Without GROUP BY there is exactly one row more, also for an empty input, and it holds the results over the whole
      input. */
  ghost predicate PutOutTotals(aggs: seq<Aggregate>, input: seq<Row>, before: seq<Row>, after: seq<Row>) {
    && |after| == |before| + 1 && after[..|before|] == before && |after[|before|]| == |aggs|
    && forall i :: 0 <= i < |aggs| ==> ResultOf(aggs[i], input) == Ok(after[|before|][i])
  }

  lemma {:induction false} NoKeys(input: seq<Row>)
    ensures Group([], input, []) == input && FirstKeys([], input) == if input == [] then [] else [[]]
  {
    if input != [] {
      var n := |input| - 1;
      NoKeys(input[..n]);
      assert KeyOf([], input[n]) == Ok([]);
      hide KeyOf;
      assert input == input[..n] + [input[n]];
    }
  }

  lemma OneTotal(aggs: seq<Aggregate>, input: seq<Row>, before: seq<Row>, after: seq<Row>)
    requires aggs != [] && PutOut([], aggs, input, GroupKeys([], aggs, input), before, after)
    ensures PutOutTotals(aggs, input, before, after)
  {
    var none: seq<Analyzed> := [];
    NoKeys(input);
    var found := GroupKeys([], aggs, input);
    assert |found| == 1 && found[0] == [];
    var out := after[|before|];
    assert OutputRow(none, aggs, input, [], out);
    forall i | 0 <= i < |aggs| ensures ResultOf(aggs[i], input) == Ok(out[i]) {
      assert ResultOf(aggs[i], input) == Ok(out[|none| + i]);
    }
  }

  /** On an empty table COUNT gives 0 and every other aggregate NULL. */
  lemma EmptyTotals(a: Aggregate)
    ensures ResultOf(a, []) == Ok(if a.kind == Count then Int(0) else Null)
  {
  }

  lemma NothingHolds(groupKeys: seq<Analyzed>, aggs: seq<Aggregate>)
    ensures FirstKeys(groupKeys, []) == [] && TableHolds(groupKeys, aggs, [], [], [])
  {
  }

  lemma EmptyInput(groupKeys: seq<Analyzed>, aggs: seq<Aggregate>)
    ensures FirstKeys(groupKeys, []) == [] && TableHolds(groupKeys, aggs, [], [[]], [InitAll(aggs)])
  {
  }

  lemma KeysFit(groupKeys: seq<Analyzed>, rows: seq<Row>)
    ensures forall kv :: kv in FirstKeys(groupKeys, rows) ==> |kv| == |groupKeys|
  {
    forall kv | kv in FirstKeys(groupKeys, rows) ensures |kv| == |groupKeys| {
      KeyHasRows(groupKeys, rows, kv);
    }
  }

  function FinalizeAll(states: seq<AggState>): (vs: seq<Value>)
    ensures |vs| == |states| && forall i :: 0 <= i < |vs| ==> vs[i] == Finalize(states[i])
  {
    seq(|states|, i requires 0 <= i < |states| => Finalize(states[i]))
  }

  /** `after` is `before` and one output row for each of the keys. */
  ghost predicate PutOut(groupKeys: seq<Analyzed>, aggs: seq<Aggregate>, input: seq<Row>, keys: seq<seq<Value>>,
                         before: seq<Row>, after: seq<Row>)
  {
    && |after| == |before| + |keys| && after[..|before|] == before
    && forall g :: 0 <= g < |keys| ==>
      OutputRow(groupKeys, aggs, Group(groupKeys, input, keys[g]), keys[g], after[|before| + g])
  }

  lemma PutOutNone(groupKeys: seq<Analyzed>, aggs: seq<Aggregate>, input: seq<Row>, rows: seq<Row>)
    ensures PutOut(groupKeys, aggs, input, [], rows, rows)
  {
  }

  lemma PutOutOne(groupKeys: seq<Analyzed>, aggs: seq<Aggregate>, input: seq<Row>, keys: seq<seq<Value>>,
                  before: seq<Row>, rows: seq<Row>, kv: seq<Value>, states: seq<AggState>)
    requires PutOut(groupKeys, aggs, input, keys, before, rows) && |kv| == |groupKeys|
    requires AllHold(aggs, states, Group(groupKeys, input, kv)) && KeysAre(groupKeys, Group(groupKeys, input, kv), kv)
    ensures PutOut(groupKeys, aggs, input, keys + [kv], before, rows + [kv + FinalizeAll(states)])
  {
    hide KeysAre;
    var out := kv + FinalizeAll(states);
    forall i | 0 <= i < |aggs| ensures ResultOf(aggs[i], Group(groupKeys, input, kv)) == Ok(out[|groupKeys| + i]) {
      assert Holds(aggs[i], states[i], Group(groupKeys, input, kv));
    }
    assert OutputRow(groupKeys, aggs, Group(groupKeys, input, kv), kv, out);
    hide OutputRow;
    var after, more := rows + [out], keys + [kv];
    forall g | 0 <= g < |more|
      ensures OutputRow(groupKeys, aggs, Group(groupKeys, input, more[g]), more[g], after[|before| + g])
    {
      if g < |keys| {
        assert OutputRow(groupKeys, aggs, Group(groupKeys, input, keys[g]), keys[g], rows[|before| + g]);
      }
    }
  }

  lemma {:induction false} KeysApart(groupKeys: seq<Analyzed>, rows: seq<Row>)
    ensures forall i, j :: 0 <= i < j < |FirstKeys(groupKeys, rows)| ==>
      FirstKeys(groupKeys, rows)[i] != FirstKeys(groupKeys, rows)[j]
  {
    if rows != [] {
      KeysApart(groupKeys, rows[..|rows| - 1]);
    }
  }

  lemma AllComputable(groupKeys: seq<Analyzed>, aggs: seq<Aggregate>, rows: seq<Row>, keys: seq<seq<Value>>,
    states: seq<seq<AggState>>)
    requires keys == FirstKeys(groupKeys, rows) && (forall r :: r in rows ==> KeyOf(groupKeys, r).Ok?)
    requires TableHolds(groupKeys, aggs, rows, keys, states)
    ensures Computable(groupKeys, aggs, rows)
  {
    forall kv, i | kv in keys && 0 <= i < |aggs| ensures ResultOf(aggs[i], Group(groupKeys, rows, kv)).Ok? {
      var g :| 0 <= g < |keys| && keys[g] == kv;
      assert AllHold(aggs, states[g], Group(groupKeys, rows, kv)) &&
        Holds(aggs[i], states[g][i], Group(groupKeys, rows, kv));
    }
  }

  /** The whole query: each SELECT, HAVING or ORDER BY expression, evaluated on the row put out for a group, has
      the value of the original expression over that group. */
  lemma QueryKeeps(sc: Scope, es: seq<Expr>, keys: seq<Analyzed>, input: seq<Row>, g: nat, out: seq<Row>)
    requires ScopeOk(sc) && PostAggAll(sc, es, keys, []).Ok?
    requires var aggs := PostAggAll(sc, es, keys, []).value.1;
      PutOut(keys, aggs, input, GroupKeys(keys, aggs, input), [], out) && g < |out|
    ensures var (xs, aggs) := PostAggAll(sc, es, keys, []).value;
      |xs| == |es| && forall i :: 0 <= i < |es| ==>
        Eval(xs[i], out[g]) == Meaning(sc, es[i], Group(keys, input, GroupKeys(keys, aggs, input)[g]))
  {
    var aggs := PostAggAll(sc, es, keys, []).value.1;
    var found := GroupKeys(keys, aggs, input);
    var kv := found[g];
    if input != [] || keys != [] || aggs == [] {
      assert kv in FirstKeys(keys, input);
      KeyHasRows(keys, input, kv);
    }
    SelectKeeps(sc, es, keys, [], Group(keys, input, kv), kv, out[g], aggs);
  }
}
