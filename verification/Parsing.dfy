/** The expression parser: seven levels of precedence over a token sequence. Temporal literals are refused. */
module Parsing {
  import opened Common
  import opened Ast
  import opened Lexing

  type Parsed = Result<(Expr, seq<Token>)>

  // ---- the grammar, as functions from tokens to a tree and the tokens left ----

  predicate Starts(ts: seq<Token>, t: Token) {
    ts != [] && ts[0] == t
  }

  function POr(ts: seq<Token>): (r: Parsed)
    ensures r.Ok? ==> |r.value.1| < |ts|
    decreases |ts|, 6
  {
    match PAnd(ts) case Err => Err case Ok((l, rest)) => OrTail(l, rest)
  }

  function OrTail(l: Expr, ts: seq<Token>): (r: Parsed)
    ensures r.Ok? ==> |r.value.1| <= |ts|
    decreases |ts|, 7
  {
    if !Starts(ts, KOr) then Ok((l, ts)) else
    match PAnd(ts[1..]) case Err => Err case Ok((r, rest)) => OrTail(Binary(l, Or, r), rest)
  }

  function PAnd(ts: seq<Token>): (r: Parsed)
    ensures r.Ok? ==> |r.value.1| < |ts|
    decreases |ts|, 5
  {
    match PComparison(ts) case Err => Err case Ok((l, rest)) => AndTail(l, rest)
  }

  function AndTail(l: Expr, ts: seq<Token>): (r: Parsed)
    ensures r.Ok? ==> |r.value.1| <= |ts|
    decreases |ts|, 7
  {
    if !Starts(ts, KAnd) then Ok((l, ts)) else
    match PComparison(ts[1..]) case Err => Err case Ok((r, rest)) => AndTail(Binary(l, And, r), rest)
  }

  function ComparisonOp(t: Token): Option<BinaryOp> {
    match t
    case EqTok => Some(Eq)
    case NeTok => Some(Ne)
    case LtTok => Some(Lt)
    case LeTok => Some(Le)
    case GtTok => Some(Gt)
    case GeTok => Some(Ge)
    case _ => None
  }

  /** `NOT` in front of the keyword, or the keyword itself. */
  predicate Negates(ts: seq<Token>, t: Token) {
    Starts(ts, KNot) && Starts(ts[1..], t)
  }

  function Negated(e: Expr, negate: bool): Expr {
    if negate then Unary(Not, e) else e
  }

  function PComparison(ts: seq<Token>): (r: Parsed)
    ensures r.Ok? ==> |r.value.1| < |ts|
    decreases |ts|, 4
  {
    match PAdditive(ts) case Err => Err case Ok((l, rest)) => ComparisonTail(l, rest)
  }

  /** At most one postfix or comparison after `l`; these do not chain. */
  function ComparisonTail(l: Expr, ts: seq<Token>): (r: Parsed)
    ensures r.Ok? ==> |r.value.1| <= |ts|
    decreases |ts|, 7
  {
    if Starts(ts, KIs) then
      var negated := Starts(ts[1..], KNot);
      var after := if negated then ts[2..] else ts[1..];
      if Starts(after, KNull) then Ok((IsNull(l, negated), after[1..])) else Err
    else if Starts(ts, KIn) then InTail(l, ts[1..], false)
    else if Negates(ts, KIn) then InTail(l, ts[2..], true)
    else if Starts(ts, KBetween) then BetweenTail(l, ts[1..], false)
    else if Negates(ts, KBetween) then BetweenTail(l, ts[2..], true)
    else if ts != [] && ComparisonOp(ts[0]).Some? then
      match PAdditive(ts[1..])
      case Err => Err
      case Ok((r, more)) => Ok((Binary(l, ComparisonOp(ts[0]).value, r), more))
    else Ok((l, ts))
  }

  /** `l IN (a, b, c)` is `l = a OR l = b OR l = c`. */
  function EqualAny(l: Expr, items: seq<Expr>): Expr
    requires items != []
  {
    if |items| == 1 then Binary(l, Eq, items[0])
    else Binary(EqualAny(l, items[..|items| - 1]), Or, Binary(l, Eq, items[|items| - 1]))
  }

  function InTail(l: Expr, ts: seq<Token>, negate: bool): (r: Parsed)
    ensures r.Ok? ==> |r.value.1| < |ts|
    decreases |ts|, 8
  {
    if !Starts(ts, LParen) then Err else
    match PList(ts[1..])
    case Err => Err
    case Ok((items, rest)) => if Starts(rest, RParen) then Ok((Negated(EqualAny(l, items), negate), rest[1..])) else Err
  }

  /** `l BETWEEN a AND b` is `l >= a AND l <= b`. */
  function BetweenTail(l: Expr, ts: seq<Token>, negate: bool): (r: Parsed)
    ensures r.Ok? ==> |r.value.1| < |ts|
    decreases |ts|, 3
  {
    match PAdditive(ts)
    case Err => Err
    case Ok((low, rest)) =>
      if !Starts(rest, KAnd) then Err else
      match PAdditive(rest[1..])
      case Err => Err
      case Ok((high, more)) => Ok((Negated(Binary(Binary(l, Ge, low), And, Binary(l, Le, high)), negate), more))
  }

  /** One or more expressions between commas. */
  function PList(ts: seq<Token>): (r: Result<(seq<Expr>, seq<Token>)>)
    ensures r.Ok? ==> r.value.0 != [] && |r.value.1| < |ts|
    decreases |ts|, 7
  {
    match POr(ts)
    case Err => Err
    case Ok((e, rest)) => ListTail([e], rest)
  }

  function ListTail(es: seq<Expr>, ts: seq<Token>): (r: Result<(seq<Expr>, seq<Token>)>)
    requires es != []
    ensures r.Ok? ==> r.value.0 != [] && |r.value.1| <= |ts|
    decreases |ts|, 8
  {
    if !Starts(ts, Comma) then Ok((es, ts)) else
    match POr(ts[1..])
    case Err => Err
    case Ok((e, rest)) => ListTail(es + [e], rest)
  }

  function PAdditive(ts: seq<Token>): (r: Parsed)
    ensures r.Ok? ==> |r.value.1| < |ts|
    decreases |ts|, 2
  {
    match PMultiplicative(ts) case Err => Err case Ok((l, rest)) => AddTail(l, rest)
  }

  function AddTail(l: Expr, ts: seq<Token>): (r: Parsed)
    ensures r.Ok? ==> |r.value.1| <= |ts|
    decreases |ts|, 7
  {
    if !Starts(ts, Plus) && !Starts(ts, Minus) then Ok((l, ts)) else
    match PMultiplicative(ts[1..])
    case Err => Err
    case Ok((r, rest)) => AddTail(Binary(l, if ts[0] == Plus then Add else Sub, r), rest)
  }

  function PMultiplicative(ts: seq<Token>): (r: Parsed)
    ensures r.Ok? ==> |r.value.1| < |ts|
    decreases |ts|, 1
  {
    match PUnary(ts) case Err => Err case Ok((l, rest)) => MulTail(l, rest)
  }

  function MulTail(l: Expr, ts: seq<Token>): (r: Parsed)
    ensures r.Ok? ==> |r.value.1| <= |ts|
    decreases |ts|, 7
  {
    if !Starts(ts, Asterisk) && !Starts(ts, Slash) then Ok((l, ts)) else
    match PUnary(ts[1..])
    case Err => Err
    case Ok((r, rest)) => MulTail(Binary(l, if ts[0] == Asterisk then Mul else Div, r), rest)
  }

  function PUnary(ts: seq<Token>): (r: Parsed)
    ensures r.Ok? ==> |r.value.1| < |ts|
    decreases |ts|, 0
  {
    if Starts(ts, KNot) then
      match PUnary(ts[1..]) case Err => Err case Ok((e, rest)) => Ok((Unary(Not, e), rest))
    else if Starts(ts, Minus) then
      match PUnary(ts[1..]) case Err => Err case Ok((e, rest)) => Ok((Unary(Neg, e), rest))
    else if ts == [] then Err
    else PPrimary(ts[0], ts[1..])
  }

  function LiteralOf(t: Token): Option<Expr> {
    match t
    case IntTok(n) => if n < I64_LIMIT then Some(Lit(Integer(n))) else None
    case FloatTok(x) => Some(Lit(Float(x)))
    case StrTok(s) => Some(Lit(Str(s)))
    case KNull => Some(Lit(NullLiteral))
    case KTrue => Some(Lit(Boolean(true)))
    case KFalse => Some(Lit(Boolean(false)))
    case ParamTok(n) => Some(Param(n))
    case KCurrentTimestamp => Some(Call("now", Exprs([])))
    case _ => None
  }

  /** A primary that starts with token `t`, before `ts`. */
  function PPrimary(t: Token, ts: seq<Token>): (r: Parsed)
    ensures r.Ok? ==> |r.value.1| <= |ts|
    decreases |ts|, 9
  {
    if LiteralOf(t).Some? then Ok((LiteralOf(t).value, ts))
    else if t.Ident? then
      if Starts(ts, LParen) then
        match PArgs(ts[1..])
        case Err => Err
        case Ok((args, rest)) => if Starts(rest, RParen) then Ok((Call(t.s, args), rest[1..])) else Err
      else if Starts(ts, Dot) then
        if |ts| > 1 && ts[1].Ident? then Ok((Column(Some(t.s), ts[1].s), ts[2..])) else Err
      else Ok((Column(None, t.s), ts))
    else if t == LParen then
      match POr(ts)
      case Err => Err
      case Ok((e, rest)) => if Starts(rest, RParen) then Ok((e, rest[1..])) else Err
    else Err
  }

  function PArgs(ts: seq<Token>): (r: Result<(Args, seq<Token>)>)
    ensures r.Ok? ==> |r.value.1| <= |ts|
    decreases |ts|, 8
  {
    if Starts(ts, Asterisk) then Ok((Star, ts[1..]))
    else if Starts(ts, RParen) then Ok((Exprs([]), ts))
    else match PList(ts) case Err => Err case Ok((es, rest)) => Ok((Exprs(es), rest))
  }

  /** An expression, and nothing after it. */
  function ParseText(s: string): Result<Expr> {
    match Lex(s)
    case Err => Err
    case Ok(ts) =>
      match POr(ts)
      case Err => Err
      case Ok((e, rest)) => if rest == [] then Ok(e) else Err
  }

  // ---- the parser ----

  /** The parser answered what the grammar says, and its cursor stands before the tokens left. */
  ghost predicate Did(want: Parsed, tokens: seq<Token>, r: Result<Expr>, pos: nat) {
    match want
    case Err => r == Err
    case Ok((e, rest)) => r == Ok(e) && pos <= |tokens| && tokens[pos..] == rest
  }

  ghost predicate DidList(want: Result<(seq<Expr>, seq<Token>)>, tokens: seq<Token>, r: Result<seq<Expr>>, pos: nat) {
    match want
    case Err => r == Err
    case Ok((es, rest)) => r == Ok(es) && pos <= |tokens| && tokens[pos..] == rest
  }

  class Parser {
    const tokens: seq<Token>
    var pos: nat

    constructor (tokens: seq<Token>)
      ensures this.tokens == tokens && pos == 0
    {
      this.tokens, pos := tokens, 0;
    }

    predicate At(t: Token)
      requires pos <= |tokens|
      ensures At(t) <==> Starts(tokens[pos..], t)
      reads this
    {
      pos < |tokens| && tokens[pos] == t
    }

    /** The token after the current one. */
    predicate Next(t: Token)
      requires pos < |tokens|
      ensures Next(t) <==> Starts(tokens[pos..][1..], t)
      reads this
    {
      pos + 1 < |tokens| && tokens[pos + 1] == t
    }

    method Bump()
      requires pos < |tokens|
      modifies this`pos
      ensures pos == old(pos) + 1 && tokens[pos..] == tokens[old(pos)..][1..]
    {
      pos := pos + 1;
    }

    method ParseOr() returns (r: Result<Expr>)
      requires pos <= |tokens|
      modifies this`pos
      ensures pos <= |tokens| && Did(POr(tokens[old(pos)..]), tokens, r, pos) && old(pos) <= pos &&
        (r.Ok? ==> old(pos) < pos)
      decreases |tokens| - pos, 6
    {
      var left := ParseAnd();
      if left.Err? {
        return Err;
      }
      var e := left.value;
      ghost var want := POr(tokens[old(pos)..]);
      while At(KOr)
        invariant old(pos) < pos <= |tokens| && OrTail(e, tokens[pos..]) == want
        decreases |tokens| - pos
      {
        Bump();
        var right := ParseAnd();
        if right.Err? {
          return Err;
        }
        e := Binary(e, Or, right.value);
      }
      r := Ok(e);
    }

    method ParseAnd() returns (r: Result<Expr>)
      requires pos <= |tokens|
      modifies this`pos
      ensures pos <= |tokens| && Did(PAnd(tokens[old(pos)..]), tokens, r, pos) && old(pos) <= pos &&
        (r.Ok? ==> old(pos) < pos)
      decreases |tokens| - pos, 5
    {
      var left := ParseComparison();
      if left.Err? {
        return Err;
      }
      var e := left.value;
      ghost var want := PAnd(tokens[old(pos)..]);
      while At(KAnd)
        invariant old(pos) < pos <= |tokens| && AndTail(e, tokens[pos..]) == want
        decreases |tokens| - pos
      {
        Bump();
        var right := ParseComparison();
        if right.Err? {
          return Err;
        }
        e := Binary(e, And, right.value);
      }
      r := Ok(e);
    }

    method ParseComparison() returns (r: Result<Expr>)
      requires pos <= |tokens|
      modifies this`pos
      ensures pos <= |tokens| && Did(PComparison(tokens[old(pos)..]), tokens, r, pos) && old(pos) <= pos &&
        (r.Ok? ==> old(pos) < pos)
      decreases |tokens| - pos, 4
    {
      var left := ParseAdditive();
      if left.Err? {
        return Err;
      }
      r := ParseComparisonTail(left.value);
    }

    /** What may follow the left operand. */
    method ParseComparisonTail(l: Expr) returns (r: Result<Expr>)
      requires pos <= |tokens|
      modifies this`pos
      ensures pos <= |tokens| && Did(ComparisonTail(l, tokens[old(pos)..]), tokens, r, pos) && old(pos) <= pos
      decreases |tokens| - pos, 7
    {
      hide PAdditive;
      hide InTail;
      hide BetweenTail;
      if At(KIs) {
        Bump();
        var negated := At(KNot);
        if negated {
          Bump();
        }
        if !At(KNull) {
          return Err;
        }
        Bump();
        return Ok(IsNull(l, negated));
      }
      if At(KIn) {
        Bump();
        r := ParseIn(l, false);
        return;
      }
      if At(KNot) && Next(KIn) {
        Bump();
        Bump();
        r := ParseIn(l, true);
        return;
      }
      if At(KBetween) {
        Bump();
        r := ParseBetween(l, false);
        return;
      }
      if At(KNot) && Next(KBetween) {
        Bump();
        Bump();
        r := ParseBetween(l, true);
        return;
      }
      if pos == |tokens| || ComparisonOp(tokens[pos]) == None {
        return Ok(l);
      }
      var op := ComparisonOp(tokens[pos]).value;
      Bump();
      var right := ParseAdditive();
      r := if right.Err? then Err else Ok(Binary(l, op, right.value));
    }

    method ParseIn(l: Expr, negate: bool) returns (r: Result<Expr>)
      requires pos <= |tokens|
      modifies this`pos
      ensures pos <= |tokens| && Did(InTail(l, tokens[old(pos)..], negate), tokens, r, pos) && old(pos) <= pos
      decreases |tokens| - pos, 8
    {
      if !At(LParen) {
        return Err;
      }
      Bump();
      var items := ParseList();
      if items.Err? || !At(RParen) {
        return Err;
      }
      Bump();
      var acc := Binary(l, Eq, items.value[0]);
      var i := 1;
      while i < |items.value|
        invariant 0 < i <= |items.value| && acc == EqualAny(l, items.value[..i])
      {
        assert items.value[..i + 1][..i] == items.value[..i];
        acc := Binary(acc, Or, Binary(l, Eq, items.value[i]));
        i := i + 1;
      }
      assert items.value[..i] == items.value;
      r := Ok(if negate then Unary(Not, acc) else acc);
    }

    method ParseBetween(l: Expr, negate: bool) returns (r: Result<Expr>)
      requires pos <= |tokens|
      modifies this`pos
      ensures pos <= |tokens| && Did(BetweenTail(l, tokens[old(pos)..], negate), tokens, r, pos) && old(pos) <= pos
      decreases |tokens| - pos, 3
    {
      var low := ParseAdditive();
      if low.Err? || !At(KAnd) {
        return Err;
      }
      Bump();
      var high := ParseAdditive();
      if high.Err? {
        return Err;
      }
      var combined := Binary(Binary(l, Ge, low.value), And, Binary(l, Le, high.value));
      r := Ok(if negate then Unary(Not, combined) else combined);
    }

    method ParseList() returns (r: Result<seq<Expr>>)
      requires pos <= |tokens|
      modifies this`pos
      ensures pos <= |tokens| && DidList(PList(tokens[old(pos)..]), tokens, r, pos) && old(pos) <= pos
      decreases |tokens| - pos, 7
    {
      var first := ParseOr();
      if first.Err? {
        return Err;
      }
      var es := [first.value];
      ghost var want := PList(tokens[old(pos)..]);
      while At(Comma)
        invariant old(pos) < pos <= |tokens| && es != [] && ListTail(es, tokens[pos..]) == want
        decreases |tokens| - pos
      {
        Bump();
        var e := ParseOr();
        if e.Err? {
          return Err;
        }
        es := es + [e.value];
      }
      r := Ok(es);
    }

    method ParseAdditive() returns (r: Result<Expr>)
      requires pos <= |tokens|
      modifies this`pos
      ensures pos <= |tokens| && Did(PAdditive(tokens[old(pos)..]), tokens, r, pos) && old(pos) <= pos &&
        (r.Ok? ==> old(pos) < pos)
      decreases |tokens| - pos, 2
    {
      var left := ParseMultiplicative();
      if left.Err? {
        return Err;
      }
      var e := left.value;
      ghost var want := PAdditive(tokens[old(pos)..]);
      while At(Plus) || At(Minus)
        invariant old(pos) < pos <= |tokens| && AddTail(e, tokens[pos..]) == want
        decreases |tokens| - pos
      {
        var op := if At(Plus) then Add else Sub;
        Bump();
        var right := ParseMultiplicative();
        if right.Err? {
          return Err;
        }
        e := Binary(e, op, right.value);
      }
      r := Ok(e);
    }

    method ParseMultiplicative() returns (r: Result<Expr>)
      requires pos <= |tokens|
      modifies this`pos
      ensures pos <= |tokens| && Did(PMultiplicative(tokens[old(pos)..]), tokens, r, pos) && old(pos) <= pos &&
        (r.Ok? ==> old(pos) < pos)
      decreases |tokens| - pos, 1
    {
      var left := ParseUnary();
      if left.Err? {
        return Err;
      }
      var e := left.value;
      ghost var want := PMultiplicative(tokens[old(pos)..]);
      while At(Asterisk) || At(Slash)
        invariant old(pos) < pos <= |tokens| && MulTail(e, tokens[pos..]) == want
        decreases |tokens| - pos
      {
        var op := if At(Asterisk) then Mul else Div;
        Bump();
        var right := ParseUnary();
        if right.Err? {
          return Err;
        }
        e := Binary(e, op, right.value);
      }
      r := Ok(e);
    }

    method ParseUnary() returns (r: Result<Expr>)
      requires pos <= |tokens|
      modifies this`pos
      ensures pos <= |tokens| && Did(PUnary(tokens[old(pos)..]), tokens, r, pos) && old(pos) <= pos &&
        (r.Ok? ==> old(pos) < pos)
      decreases |tokens| - pos, 0
    {
      if At(KNot) || At(Minus) {
        var op := if At(KNot) then Not else Neg;
        Bump();
        var inner := ParseUnary();
        r := if inner.Err? then Err else Ok(Unary(op, inner.value));
      } else if pos == |tokens| {
        r := Err;
      } else {
        var t := tokens[pos];
        Bump();
        r := ParsePrimary(t);
      }
    }

    /** The rest of a primary whose first token was `t`. */
    method ParsePrimary(t: Token) returns (r: Result<Expr>)
      requires pos <= |tokens|
      modifies this`pos
      ensures pos <= |tokens| && Did(PPrimary(t, tokens[old(pos)..]), tokens, r, pos) && old(pos) <= pos
      decreases |tokens| - pos, 9
    {
      if LiteralOf(t).Some? {
        return Ok(LiteralOf(t).value);
      }
      if t.Ident? {
        if At(LParen) {
          Bump();
          r := ParseCall(t.s);
          return;
        }
        if At(Dot) {
          if pos + 1 < |tokens| && tokens[pos + 1].Ident? {
            var name := tokens[pos + 1].s;
            Bump();
            Bump();
            return Ok(Column(Some(t.s), name));
          }
          return Err;
        }
        return Ok(Column(None, t.s));
      }
      if t == LParen {
        var e := ParseOr();
        if e.Err? || !At(RParen) {
          return Err;
        }
        Bump();
        return e;
      }
      r := Err;
    }

    /** The arguments of a call, up to and with the closing parenthesis. */
    method ParseCall(name: string) returns (r: Result<Expr>)
      requires pos <= |tokens|
      modifies this`pos
      ensures pos <= |tokens| && Did(CallTail(name, tokens[old(pos)..]), tokens, r, pos) && old(pos) <= pos
      decreases |tokens| - pos, 8
    {
      var args;
      if At(Asterisk) {
        Bump();
        args := Star;
      } else if At(RParen) {
        args := Exprs([]);
      } else {
        var es := ParseList();
        if es.Err? {
          return Err;
        }
        args := Exprs(es.value);
      }
      if !At(RParen) {
        return Err;
      }
      Bump();
      r := Ok(Call(name, args));
    }
  }

  function CallTail(name: string, ts: seq<Token>): Parsed {
    match PArgs(ts)
    case Err => Err
    case Ok((args, rest)) => if Starts(rest, RParen) then Ok((Call(name, args), rest[1..])) else Err
  }

  method ParseExprStr(s: string) returns (r: Result<Expr>)
    ensures r == ParseText(s)
  {
    var lexer := new Lexer(s);
    assert s[0..] == s;
    var tokens := lexer.Tokenize();
    match tokens {
      case Err => return Err;
      case Ok(ts) =>
        var p := new Parser(ts);
        assert ts[0..] == ts;
        r := p.ParseOr();
        if r.Ok? && p.pos < |ts| {
          r := Err;
        }
    }
  }
}
