/** Extracting aggregates from SELECT, HAVING and ORDER BY expressions, and computing them by groups. */
module Aggregation {
  import opened Common
  import opened Ast
  import opened Values

  datatype AggKind = Count | Sum | Avg | Min | Max

  datatype AggArg = StarArg | ExprArg(e: Analyzed)

  datatype Aggregate = Aggregate(kind: AggKind, arg: AggArg, ty: DataType)

  // ---- names in scope ----

  datatype OutputColumn = OutputColumn(name: string, ty: DataType)

  datatype Relation = Relation(columns: seq<OutputColumn>, offset: nat)

  datatype ScopeEntry = ScopeEntry(visible: string, rte: nat)

  datatype Scope = Scope(relations: seq<Relation>, scopes: seq<seq<ScopeEntry>>)

  predicate ScopeOk(sc: Scope) {
    forall i, j :: 0 <= i < |sc.scopes| && 0 <= j < |sc.scopes[i]| ==> sc.scopes[i][j].rte < |sc.relations|
  }

  /** The first column of a relation with this name. */
  function FindColumn(cols: seq<OutputColumn>, name: string): (r: Option<nat>)
    ensures r.Some? ==> r.value < |cols| && cols[r.value].name == name
    ensures r.None? <==> forall i :: 0 <= i < |cols| ==> cols[i].name != name
  {
    if cols == [] then None
    else if cols[0].name == name then Some(0)
    else match FindColumn(cols[1..], name) case None => None case Some(i) => Some(i + 1)
  }

  function RefTo(sc: Scope, rte: nat, i: nat, name: string): ColumnRef
    requires rte < |sc.relations| && i < |sc.relations[rte].columns|
  {
    ColumnRef(rte, sc.relations[rte].offset + i, name, sc.relations[rte].columns[i].ty)
  }

  /** Innermost scope first, and in each scope in the order of the FROM clause. */
  function Entries(scopes: seq<seq<ScopeEntry>>): seq<ScopeEntry> {
    if scopes == [] then [] else scopes[|scopes| - 1] + Entries(scopes[..|scopes| - 1])
  }

  predicate EntriesIn(sc: Scope, entries: seq<ScopeEntry>) {
    forall e :: e in entries ==> e.rte < |sc.relations|
  }

  function ResolveQualified(sc: Scope, entries: seq<ScopeEntry>, q: string, name: string): Result<ColumnRef>
    requires EntriesIn(sc, entries)
  {
    if entries == [] then Err
    else if entries[0].visible != q then ResolveQualified(sc, entries[1..], q, name)
    else match FindColumn(sc.relations[entries[0].rte].columns, name)
         case None => Err
         case Some(i) => Ok(RefTo(sc, entries[0].rte, i, name))
  }

  function HitIn(sc: Scope, e: ScopeEntry, name: string): Option<ColumnRef>
    requires e.rte < |sc.relations|
  {
    match FindColumn(sc.relations[e.rte].columns, name)
    case None => None
    case Some(i) => Some(RefTo(sc, e.rte, i, name))
  }

  /** Goes through the entries with the hit so far; a second hit is an error. */
  function Search(sc: Scope, entries: seq<ScopeEntry>, name: string, hit: Option<ColumnRef>): Result<Option<ColumnRef>>
    requires EntriesIn(sc, entries)
    decreases |entries|
  {
    if entries == [] then Ok(hit)
    else match HitIn(sc, entries[0], name)
         case None => Search(sc, entries[1..], name, hit)
         case Some(c) => if hit.Some? then Err else Search(sc, entries[1..], name, Some(c))
  }

  ghost predicate NoHits(sc: Scope, entries: seq<ScopeEntry>, name: string)
    requires EntriesIn(sc, entries)
  {
    forall j :: 0 <= j < |entries| ==> HitIn(sc, entries[j], name) == None
  }

  /** Entry `i` has the column, and no other entry has one of that name. */
  ghost predicate OnlyAt(sc: Scope, entries: seq<ScopeEntry>, name: string, i: int, c: ColumnRef)
    requires EntriesIn(sc, entries)
  {
    && 0 <= i < |entries| && HitIn(sc, entries[i], name) == Some(c)
    && forall j :: 0 <= j < |entries| && j != i ==> HitIn(sc, entries[j], name) == None
  }

  lemma {:induction false} SearchAfterHit(sc: Scope, entries: seq<ScopeEntry>, name: string, c: ColumnRef)
    requires EntriesIn(sc, entries)
    ensures Search(sc, entries, name, Some(c)) == if NoHits(sc, entries, name) then Ok(Some(c)) else Err
    decreases |entries|
  {
    if entries != [] {
      SearchAfterHit(sc, entries[1..], name, c);
      assert forall j :: 0 < j < |entries| ==> entries[j] == entries[1..][j - 1];
    }
  }

  /** A bare name resolves exactly when one entry in scope, and no other, has a column of that name. */
  lemma {:induction false} SearchFindsTheOnlyHit(sc: Scope, entries: seq<ScopeEntry>, name: string, c: ColumnRef)
    requires EntriesIn(sc, entries)
    ensures Search(sc, entries, name, None) == Ok(Some(c)) <==> exists i :: OnlyAt(sc, entries, name, i, c)
    decreases |entries|
  {
    if entries != [] {
      var rest := entries[1..];
      assert forall j :: 0 < j < |entries| ==> entries[j] == rest[j - 1];
      match HitIn(sc, entries[0], name)
      case None =>
        SearchFindsTheOnlyHit(sc, rest, name, c);
        forall i | OnlyAt(sc, rest, name, i, c) ensures OnlyAt(sc, entries, name, i + 1, c) {
        }
        forall i | OnlyAt(sc, entries, name, i, c) ensures OnlyAt(sc, rest, name, i - 1, c) {
          forall j | 0 <= j < |rest| && j != i - 1 ensures HitIn(sc, rest[j], name) == None {
            assert rest[j] == entries[j + 1];
          }
        }
      case Some(d) =>
        SearchAfterHit(sc, rest, name, d);
        if NoHits(sc, rest, name) {
          assert OnlyAt(sc, entries, name, 0, d);
        }
        forall i | OnlyAt(sc, entries, name, i, c) ensures i == 0 && d == c && NoHits(sc, rest, name) {
          forall j | 0 <= j < |rest| ensures HitIn(sc, rest[j], name) == None {
            assert rest[j] == entries[j + 1];
          }
        }
    }
  }

  lemma {:induction false} EntriesOk(sc: Scope, scopes: seq<seq<ScopeEntry>>)
    requires forall i, j :: 0 <= i < |scopes| && 0 <= j < |scopes[i]| ==> scopes[i][j].rte < |sc.relations|
    ensures EntriesIn(sc, Entries(scopes))
  {
    if scopes != [] {
      EntriesOk(sc, scopes[..|scopes| - 1]);
    }
  }

  /** A qualified name looks in the first relation visible under the qualifier; a bare name must fit exactly
      one relation in scope. */
  function Resolve(sc: Scope, qualifier: Option<string>, name: string): Result<ColumnRef>
    requires ScopeOk(sc)
  {
    EntriesOk(sc, sc.scopes);
    var entries := Entries(sc.scopes);
    match qualifier
    case Some(q) => ResolveQualified(sc, entries, q, name)
    case None =>
      match Search(sc, entries, name, None)
      case Ok(Some(c)) => Ok(c)
      case _ => Err
  }

  // ---- functions ----

  function KindOf(name: string): Option<AggKind> {
    var u := Upper(name);
    if u == "COUNT" then Some(Count)
    else if u == "SUM" then Some(Sum)
    else if u == "AVG" then Some(Avg)
    else if u == "MIN" then Some(Min)
    else if u == "MAX" then Some(Max)
    else None
  }

  function KindName(k: AggKind): string {
    match k case Count => "COUNT" case Sum => "SUM" case Avg => "AVG" case Min => "MIN" case Max => "MAX"
  }

  predicate IsNow(name: string) {
    var u := Upper(name);
    u == "NOW" || u == "CURRENT_TIMESTAMP" || u == "TRANSACTION_TIMESTAMP"
  }

  /** `now()` and its synonyms, which take no arguments. `Ok(None)` is any other name. */
  function ScalarBuiltin(name: string, args: Args): Result<Option<Analyzed>> {
    if !IsNow(name) then Ok(None)
    else if args == Exprs([]) then Ok(Some(ANow))
    else Err
  }

  function AggregateType(k: AggKind, arg: Option<DataType>): Result<DataType> {
    match k
    case Count => Ok(TInt)
    case Sum => if arg == Some(TDouble) then Ok(TDouble) else if arg == Some(TInt) || arg == None then Ok(TInt) else Err
    case Avg => if arg == Some(TDouble) || arg == Some(TInt) || arg == None then Ok(TDouble) else Err
    case _ => match arg case Some(t) => Ok(t) case None => Err
  }

  predicate ContainsAggregate(e: Expr) {
    match e
    case Lit(_) => false
    case Column(_, _) => false
    case Param(_) => false
    case Binary(left, _, right) => ContainsAggregate(left) || ContainsAggregate(right)
    case Unary(_, arg) => ContainsAggregate(arg)
    case IsNull(arg, _) => ContainsAggregate(arg)
    case Call(name, args) =>
      KindOf(name).Some? || (args.Exprs? && exists i :: 0 <= i < |args.es| && ContainsAggregate(args.es[i]))
  }

  // ---- analysis ----

  /** Expressions over input rows: no aggregates. */
  function AnalyzeExpr(sc: Scope, e: Expr): Result<Analyzed>
    requires ScopeOk(sc)
  {
    match e
    case Lit(l) => Ok(ALit(l))
    case Column(q, name) => (match Resolve(sc, q, name) case Err => Err case Ok(c) => Ok(AColumn(c)))
    case Binary(left, op, right) =>
      (match AnalyzeExpr(sc, left)
       case Err => Err
       case Ok(l) =>
         match AnalyzeExpr(sc, right)
         case Err => Err
         case Ok(r) => Ok(ABinary(l, op, r, BinaryType(op, TypeOf(l), TypeOf(r)))))
    case Unary(op, arg) =>
      (match AnalyzeExpr(sc, arg) case Err => Err case Ok(a) => Ok(AUnary(op, a, UnaryType(op))))
    case IsNull(arg, negated) =>
      (match AnalyzeExpr(sc, arg) case Err => Err case Ok(a) => Ok(AIsNull(a, negated)))
    case Call(name, args) =>
      (match ScalarBuiltin(name, args)
       case Err => Err
       case Ok(Some(b)) => Ok(b)
       case Ok(None) => Err)
    case Param(_) => Err
  }

  /** Structural equality that ignores names and types. */
  predicate SameExpr(a: Analyzed, b: Analyzed) {
    match (a, b)
    case (ALit(x), ALit(y)) => x == y
    case (AColumn(x), AColumn(y)) => x.rte == y.rte && x.index == y.index
    case (ABinary(l1, o1, r1, _), ABinary(l2, o2, r2, _)) => o1 == o2 && SameExpr(l1, l2) && SameExpr(r1, r2)
    case (AUnary(o1, e1, _), AUnary(o2, e2, _)) => o1 == o2 && SameExpr(e1, e2)
    case (AIsNull(e1, n1), AIsNull(e2, n2)) => n1 == n2 && SameExpr(e1, e2)
    case (ANow, ANow) => true
    case _ => false
  }

  function KeyPosition(keys: seq<Analyzed>, e: Analyzed): (r: Option<nat>)
    ensures r.Some? ==> r.value < |keys| && SameExpr(keys[r.value], e)
    ensures r.None? ==> forall i :: 0 <= i < |keys| ==> !SameExpr(keys[i], e)
  {
    if keys == [] then None
    else if SameExpr(keys[0], e) then Some(0)
    else match KeyPosition(keys[1..], e) case None => None case Some(i) => Some(i + 1)
  }

  /** `usize::MAX`: the relation of columns that exist only after aggregation. */
  const POST_AGG: nat := 0xFFFF_FFFF_FFFF_FFFF

  function AnalyzeAggregate(sc: Scope, name: string, args: Args): Result<Aggregate>
    requires ScopeOk(sc)
  {
    match KindOf(name)
    case None => Err
    case Some(kind) =>
      match args
      case Star => if kind == Count then Ok(Aggregate(Count, StarArg, TInt)) else Err
      case Exprs(es) =>
        if |es| != 1 || ContainsAggregate(es[0]) then Err else
        match AnalyzeExpr(sc, es[0])
        case Err => Err
        case Ok(a) =>
          match AggregateType(kind, TypeOf(a))
          case Err => Err
          case Ok(t) => Ok(Aggregate(kind, ExprArg(a), t))
  }

  /** Expressions over `[keys..., aggregates...]` rows. Every aggregate call is appended to `aggs` and becomes
      a reference to its position. */
  function PostAgg(sc: Scope, e: Expr, keys: seq<Analyzed>, aggs: seq<Aggregate>): Result<(Analyzed, seq<Aggregate>)>
    requires ScopeOk(sc)
  {
    match e
    case Lit(l) => Ok((ALit(l), aggs))
    case Column(q, name) =>
      (match Resolve(sc, q, name)
       case Err => Err
       case Ok(c) =>
         match KeyPosition(keys, AColumn(c))
         case None => Err
         case Some(pos) => Ok((AColumn(ColumnRef(POST_AGG, pos, name, c.ty)), aggs)))
    case Binary(left, op, right) =>
      (match PostAgg(sc, left, keys, aggs)
       case Err => Err
       case Ok((l, aggs1)) =>
         match PostAgg(sc, right, keys, aggs1)
         case Err => Err
         case Ok((r, aggs2)) => Ok((ABinary(l, op, r, BinaryType(op, TypeOf(l), TypeOf(r))), aggs2)))
    case Unary(op, arg) =>
      (match PostAgg(sc, arg, keys, aggs)
       case Err => Err
       case Ok((a, more)) => Ok((AUnary(op, a, UnaryType(op)), more)))
    case IsNull(arg, negated) =>
      (match PostAgg(sc, arg, keys, aggs)
       case Err => Err
       case Ok((a, more)) => Ok((AIsNull(a, negated), more)))
    case Call(name, args) =>
      (match ScalarBuiltin(name, args)
       case Err => Err
       case Ok(Some(b)) => Ok((b, aggs))
       case Ok(None) =>
         match AnalyzeAggregate(sc, name, args)
         case Err => Err
         case Ok(a) => Ok((AColumn(ColumnRef(POST_AGG, |keys| + |aggs|, KindName(a.kind), a.ty)), aggs + [a])))
    case Param(_) => Err
  }

  // ---- what an expression means: of the analysis this uses name resolution and the type of an aggregate's
  // argument, but not the extraction ----

  /** The value of an aggregate-free expression on one input row. */
  function OnRow(sc: Scope, e: Expr, row: Row): Result<Value>
    requires ScopeOk(sc)
  {
    match e
    case Lit(l) => Ok(LiteralValue(l))
    case Column(q, name) => (match Resolve(sc, q, name) case Err => Err case Ok(c) => Ok(Get(row, c.index)))
    case Binary(left, op, right) =>
      (match OnRow(sc, left, row)
       case Err => Err
       case Ok(a) => match OnRow(sc, right, row) case Err => Err case Ok(b) => EvalBinary(op, a, b))
    case Unary(op, arg) => (match OnRow(sc, arg, row) case Err => Err case Ok(a) => EvalUnary(op, a))
    case IsNull(arg, negated) =>
      (match OnRow(sc, arg, row) case Err => Err case Ok(a) => Ok(Bool((a == Null) != negated)))
    case Call(_, _) => Err
    case Param(_) => Err
  }

  /** The values an aggregate sees in a group; `None` for the rows of `COUNT(*)`. */
  function Seen(sc: Scope, args: Args, group: seq<Row>): Result<seq<Option<Value>>>
    requires ScopeOk(sc) && (args.Exprs? ==> |args.es| == 1)
  {
    if group == [] then Ok([]) else
    var first := match args
                 case Star => Ok(None)
                 case Exprs(es) => match OnRow(sc, es[0], group[0]) case Err => Err case Ok(v) => Ok(Some(v));
    match first
    case Err => Err
    case Ok(v) => match Seen(sc, args, group[1..]) case Err => Err case Ok(vs) => Ok([v] + vs)
  }

  function NonNull(vs: seq<Option<Value>>): seq<Value> {
    if vs == [] then []
    else (if vs[0].Some? && vs[0].value != Null then [vs[0].value] else []) + NonNull(vs[1..])
  }

  function CountOf(vs: seq<Option<Value>>): nat {
    if vs == [] then 0 else (if vs[0] == Some(Null) then 0 else 1) + CountOf(vs[1..])
  }

  /** The running sum, from the first value to the last. */
  function SumFrom(start: real, vs: seq<Value>): real
    decreases |vs|
  {
    if vs == [] then start else SumFrom(start + Number(vs[0]), vs[1..])
  }

  function SumOf(vs: seq<Value>): real {
    SumFrom(0.0, vs)
  }

  function Number(v: Value): real {
    match v case Int(i) => i as real case Double(d) => d case _ => 0.0
  }

  /** The smallest (or, for `sign` 1, largest) of the values, the earliest of equals; `Err` if two of them
      cannot be compared on the way. */
  function Extreme(sign: int, best: Option<Value>, vs: seq<Value>): Result<Value>
    decreases |vs|
  {
    if vs == [] then Ok(match best case None => Null case Some(v) => v)
    else match best
         case None => Extreme(sign, Some(vs[0]), vs[1..])
         case Some(b) =>
           match Compare(vs[0], b)
           case None => Err
           case Some(c) => Extreme(sign, Some(if c == sign then vs[0] else b), vs[1..])
  }

  predicate AllNumbers(vs: seq<Value>, doubles: bool) {
    forall v :: v in vs ==> v.Int? || (doubles && v.Double?)
  }

  /** SQL's aggregates over the values seen; `doubles` says the argument's type is DOUBLE. */
  function AggregateOf(kind: AggKind, doubles: bool, seen: seq<Option<Value>>): Result<Value> {
    var vs := NonNull(seen);
    match kind
    case Count => Ok(Int(Wrap32(CountOf(seen))))
    case Sum =>
      if !AllNumbers(vs, doubles) then Err
      else if vs == [] then Ok(Null)
      else if doubles then Ok(Double(SumOf(vs)))
      else Ok(Int(Wrap32(SumOf(vs).Floor)))
    case Avg =>
      if !AllNumbers(vs, doubles) then Err
      else if vs == [] then Ok(Null)
      else Ok(Double(SumOf(vs) / |vs| as real))
    case Min => Extreme(-1, None, vs)
    case Max => Extreme(1, None, vs)
  }

  predicate IsDouble(sc: Scope, e: Expr)
    requires ScopeOk(sc)
  {
    AnalyzeExpr(sc, e).Ok? && TypeOf(AnalyzeExpr(sc, e).value) == Some(TDouble)
  }

  /** The value of an expression over a group: a column has the value it has in any row of the group, an
      aggregate is taken over all its rows. */
  function Meaning(sc: Scope, e: Expr, group: seq<Row>): Result<Value>
    requires ScopeOk(sc)
  {
    match e
    case Lit(l) => Ok(LiteralValue(l))
    case Column(q, name) =>
      (match Resolve(sc, q, name)
       case Err => Err
       case Ok(c) => if group == [] then Err else Ok(Get(group[0], c.index)))
    case Binary(left, op, right) =>
      (match Meaning(sc, left, group)
       case Err => Err
       case Ok(a) => match Meaning(sc, right, group) case Err => Err case Ok(b) => EvalBinary(op, a, b))
    case Unary(op, arg) => (match Meaning(sc, arg, group) case Err => Err case Ok(a) => EvalUnary(op, a))
    case IsNull(arg, negated) =>
      (match Meaning(sc, arg, group) case Err => Err case Ok(a) => Ok(Bool((a == Null) != negated)))
    case Call(name, args) =>
      (match KindOf(name)
       case None => Err
       case Some(kind) =>
         if args.Exprs? && |args.es| != 1 then Err else
         match Seen(sc, args, group)
         case Err => Err
         case Ok(seen) => AggregateOf(kind, args.Exprs? && IsDouble(sc, args.es[0]), seen))
    case Param(_) => Err
  }

  // ---- the accumulators of the hash aggregate ----

  datatype AggState =
    | CountState(n: int)
    | SumIntState(sum: int, any: bool)
    | SumDoubleState(dsum: real, any: bool)
    | AvgIntState(sum: int, count: int)
    | AvgDoubleState(dsum: real, count: int)
    | MinState(cur: Option<Value>)
    | MaxState(cur: Option<Value>)

  function ArgType(a: Aggregate): Option<DataType> {
    match a.arg case StarArg => None case ExprArg(e) => TypeOf(e)
  }

  function Init(a: Aggregate): AggState {
    match a.kind
    case Count => CountState(0)
    case Sum => if ArgType(a) == Some(TDouble) then SumDoubleState(0.0, false) else SumIntState(0, false)
    case Avg => if ArgType(a) == Some(TDouble) then AvgDoubleState(0.0, 0) else AvgIntState(0, 0)
    case Min => MinState(None)
    case Max => MaxState(None)
  }

  function Better(sign: int, cur: Option<Value>, v: Value): Result<Option<Value>> {
    match cur
    case None => Ok(Some(v))
    case Some(b) => match Compare(v, b) case None => Err case Some(c) => Ok(if c == sign then Some(v) else cur)
  }

  /** One more row; `None` is a row of `COUNT(*)`. NULL leaves every accumulator as it was. */
  function Update(s: AggState, arg: Option<Value>): Result<AggState> {
    match arg
    case None => Ok(if s.CountState? then CountState(s.n + 1) else s)
    case Some(Null) => Ok(s)
    case Some(v) =>
      match s
      case CountState(n) => Ok(CountState(n + 1))
      case SumIntState(sum, _) => (match v case Int(i) => Ok(SumIntState(sum + i, true)) case _ => Err)
      case SumDoubleState(sum, _) =>
        (match v
         case Double(d) => Ok(SumDoubleState(sum + d, true))
         case Int(i) => Ok(SumDoubleState(sum + i as real, true))
         case _ => Err)
      case AvgIntState(sum, count) => (match v case Int(i) => Ok(AvgIntState(sum + i, count + 1)) case _ => Err)
      case AvgDoubleState(sum, count) =>
        (match v
         case Double(d) => Ok(AvgDoubleState(sum + d, count + 1))
         case Int(i) => Ok(AvgDoubleState(sum + i as real, count + 1))
         case _ => Err)
      case MinState(cur) => (match Better(-1, cur, v) case Err => Err case Ok(b) => Ok(MinState(b)))
      case MaxState(cur) => (match Better(1, cur, v) case Err => Err case Ok(b) => Ok(MaxState(b)))
  }

  function Finalize(s: AggState): Value {
    match s
    case CountState(n) => Int(Wrap32(n))
    case SumIntState(sum, any) => if any then Int(Wrap32(sum)) else Null
    case SumDoubleState(sum, any) => if any then Double(sum) else Null
    case AvgIntState(sum, count) => if count == 0 then Null else Double(sum as real / count as real)
    case AvgDoubleState(sum, count) => if count == 0 then Null else Double(sum / count as real)
    case MinState(cur) => (match cur case None => Null case Some(v) => v)
    case MaxState(cur) => (match cur case None => Null case Some(v) => v)
  }

  function ArgOn(a: AggArg, row: Row): Result<Option<Value>> {
    match a
    case StarArg => Ok(None)
    case ExprArg(e) => match Eval(e, row) case Err => Err case Ok(v) => Ok(Some(v))
  }

  /** The accumulator after all rows of a group. */
  function Fold(a: Aggregate, s: AggState, group: seq<Row>): Result<AggState>
    decreases |group|
  {
    if group == [] then Ok(s) else
    match ArgOn(a.arg, group[0])
    case Err => Err
    case Ok(v) =>
      match Update(s, v)
      case Err => Err
      case Ok(s') => Fold(a, s', group[1..])
  }
}
