/** The written form of expressions, with as few parentheses as the precedence of the operators allows, and the parser
    against it: it reads exactly these forms, and reads each as the tree it stands for. */
module Grammar {
  import opened Common
  import opened Ast
  import opened Lexing
  import opened Parsing

  /** An expression as it is written. */
  datatype Syntax =
    | Atom(t: Token)
    | Name(q: Option<string>, name: string)
    | Apply(func: string, args: SyntaxArgs)
    | Paren(inner: Syntax)
    | Prefix(uop: UnaryOp, arg: Syntax)
    | Infix(left: Syntax, op: BinaryOp, right: Syntax)
    | Nullness(arg: Syntax, negated: bool)
    | Among(left: Syntax, items: seq<Syntax>, negated: bool)
    | Range(left: Syntax, low: Syntax, high: Syntax, negated: bool)

  datatype SyntaxArgs = AllRows | Each(es: seq<Syntax>)

  /** From the loosest binding to the tightest. */
  const OR := 0
  const AND := 1
  const COMPARISON := 2
  const SUM := 3
  const PRODUCT := 4
  const PREFIX := 5
  const PRIMARY := 6

  function OpLevel(op: BinaryOp): nat {
    match op
    case Or => OR
    case And => AND
    case Add => SUM
    case Sub => SUM
    case Mul => PRODUCT
    case Div => PRODUCT
    case _ => COMPARISON
  }

  function Level(s: Syntax): nat {
    match s
    case Prefix(_, _) => PREFIX
    case Infix(_, op, _) => OpLevel(op)
    case Nullness(_, _) => COMPARISON
    case Among(_, _, _) => COMPARISON
    case Range(_, _, _, _) => COMPARISON
    case _ => PRIMARY
  }

  /** No operand binds more loosely than its place allows. Operators of one level group to the left, and comparisons do
      not chain. */
  predicate Bracketed(s: Syntax) {
    match s
    case Atom(t) => LiteralOf(t).Some?
    case Name(_, _) => true
    case Apply(_, args) => args.Each? ==> forall i :: 0 <= i < |args.es| ==> Bracketed(args.es[i])
    case Paren(inner) => Bracketed(inner)
    case Prefix(_, arg) => Bracketed(arg) && Level(arg) >= PREFIX
    case Infix(left, op, right) =>
      && Bracketed(left) && Bracketed(right) && Level(right) > OpLevel(op)
      && Level(left) >= (if OpLevel(op) == COMPARISON then SUM else OpLevel(op))
    case Nullness(arg, _) => Bracketed(arg) && Level(arg) >= SUM
    case Among(left, items, _) =>
      && Bracketed(left) && Level(left) >= SUM
      && items != [] && forall i :: 0 <= i < |items| ==> Bracketed(items[i])
    case Range(left, low, high, _) =>
      && Bracketed(left) && Bracketed(low) && Bracketed(high)
      && Level(left) >= SUM && Level(low) >= SUM && Level(high) >= SUM
  }

  function OpToken(op: BinaryOp): Token {
    match op
    case Eq => EqTok
    case Ne => NeTok
    case Lt => LtTok
    case Le => LeTok
    case Gt => GtTok
    case Ge => GeTok
    case And => KAnd
    case Or => KOr
    case Add => Plus
    case Sub => Minus
    case Mul => Asterisk
    case Div => Slash
  }

  function PrefixToken(op: UnaryOp): Token {
    match op case Not => KNot case Neg => Minus
  }

  /** NOT in front of a keyword, or not. */
  function Maybe(negated: bool, t: Token, rest: seq<Token>): seq<Token> {
    if negated then [KNot] + ([t] + rest) else [t] + rest
  }

  /** The tokens of the written form, in front of `rest`. */
  function Text(s: Syntax, rest: seq<Token>): seq<Token>
    decreases s
  {
    match s
    case Atom(t) => [t] + rest
    case Name(None, name) => [Ident(name)] + rest
    case Name(Some(q), name) => [Ident(q)] + ([Dot] + ([Ident(name)] + rest))
    case Apply(f, AllRows) => [Ident(f)] + ([LParen] + ([Asterisk] + ([RParen] + rest)))
    case Apply(f, Each(es)) => [Ident(f)] + ([LParen] + ListText(es, [RParen] + rest))
    case Paren(inner) => [LParen] + Text(inner, [RParen] + rest)
    case Prefix(op, arg) => [PrefixToken(op)] + Text(arg, rest)
    case Infix(left, op, right) => Text(left, [OpToken(op)] + Text(right, rest))
    case Nullness(arg, negated) => Text(arg, [KIs] + Maybe(negated, KNull, rest))
    case Among(left, items, negated) => Text(left, Maybe(negated, KIn, [LParen] + ListText(items, [RParen] + rest)))
    case Range(left, low, high, negated) => Text(left, Maybe(negated, KBetween, Text(low, [KAnd] + Text(high, rest))))
  }

  /** Written forms between commas. */
  function ListText(es: seq<Syntax>, rest: seq<Token>): seq<Token>
    decreases es
  {
    if es == [] then rest else Text(es[0], MoreText(es[1..], rest))
  }

  function MoreText(es: seq<Syntax>, rest: seq<Token>): seq<Token>
    decreases es
  {
    if es == [] then rest else [Comma] + Text(es[0], MoreText(es[1..], rest))
  }

  /** The tree that the written form stands for: parentheses only group, IN and BETWEEN are short for comparisons. */
  function Tree(s: Syntax): Expr
    requires Bracketed(s)
  {
    match s
    case Atom(t) => LiteralOf(t).value
    case Name(q, name) => Column(q, name)
    case Apply(f, AllRows) => Call(f, Star)
    case Apply(f, Each(es)) => Call(f, Exprs(Trees(es)))
    case Paren(inner) => Tree(inner)
    case Prefix(op, arg) => Unary(op, Tree(arg))
    case Infix(left, op, right) => Binary(Tree(left), op, Tree(right))
    case Nullness(arg, negated) => IsNull(Tree(arg), negated)
    case Among(left, items, negated) => Negated(EqualAny(Tree(left), Trees(items)), negated)
    case Range(left, low, high, negated) =>
      Negated(Binary(Binary(Tree(left), Ge, Tree(low)), And, Binary(Tree(left), Le, Tree(high))), negated)
  }

  function Trees(es: seq<Syntax>): (r: seq<Expr>)
    requires forall i :: 0 <= i < |es| ==> Bracketed(es[i])
    ensures |r| == |es|
  {
    if es == [] then [] else [Tree(es[0])] + Trees(es[1..])
  }

  // ---- the levels of the parser ----

  function P(n: nat, ts: seq<Token>): Parsed {
    if n == OR then POr(ts)
    else if n == AND then PAnd(ts)
    else if n == COMPARISON then PComparison(ts)
    else if n == SUM then PAdditive(ts)
    else if n == PRODUCT then PMultiplicative(ts)
    else PUnary(ts)
  }

  function Tail(n: nat, l: Expr, ts: seq<Token>): Parsed {
    if n == OR then OrTail(l, ts)
    else if n == AND then AndTail(l, ts)
    else if n == COMPARISON then ComparisonTail(l, ts)
    else if n == SUM then AddTail(l, ts)
    else if n == PRODUCT then MulTail(l, ts)
    else Ok((l, ts))
  }

  /** The level at which a token carries an expression on; above all levels for a token that ends it. */
  function CarriesOn(t: Token): Option<nat> {
    match t
    case KOr => Some(OR)
    case KAnd => Some(AND)
    case Plus => Some(SUM)
    case Minus => Some(SUM)
    case Asterisk => Some(PRODUCT)
    case Slash => Some(PRODUCT)
    case LParen => Some(PRIMARY)
    case Dot => Some(PRIMARY)
    case KIs => Some(COMPARISON)
    case KIn => Some(COMPARISON)
    case KBetween => Some(COMPARISON)
    case KNot => Some(COMPARISON)
    case _ => if ComparisonOp(t).Some? then Some(COMPARISON) else None
  }

  /** What follows does not carry the expression on at level `n` or a tighter one. */
  predicate Stops(rest: seq<Token>, n: nat) {
    rest != [] && CarriesOn(rest[0]).Some? ==> CarriesOn(rest[0]).value < n
  }

  lemma StepUp(n: nat, ts: seq<Token>, e: Expr, rest: seq<Token>)
    requires n < PREFIX && P(n + 1, ts) == Ok((e, rest))
    ensures P(n, ts) == Tail(n, e, rest)
  {
  }

  lemma TailStops(n: nat, e: Expr, rest: seq<Token>)
    requires Stops(rest, n)
    ensures Tail(n, e, rest) == Ok((e, rest))
  {
  }

  /** What the parser's level `n` gives on the written form in front of `rest`: the tree, and then what the level does
      with `rest`; but after a comparison it looks no further. */
  function Reading(s: Syntax, n: nat, rest: seq<Token>): Parsed
    requires Bracketed(s)
  {
    if n == COMPARISON == Level(s) then Ok((Tree(s), rest)) else Tail(n, Tree(s), rest)
  }

  /** Every written form is read as its tree, at every level that it can stand at. */
  lemma {:induction false} Reads(s: Syntax, n: nat, rest: seq<Token>)
    requires Bracketed(s) && n <= Level(s) && n <= PREFIX && Stops(rest, n + 1)
    ensures P(n, Text(s, rest)) == Reading(s, n, rest)
    decreases s, 2, PREFIX - n
  {
    hide P;
    hide Tail;
    hide Text;
    hide Tree;
    if n < Level(s) && n < PREFIX {
      Reads(s, n + 1, rest);
      TailStops(n + 1, Tree(s), rest);
      StepUp(n, Text(s, rest), Tree(s), rest);
    } else {
      ReadsHere(s, rest);
    }
  }

  /** The same at the tightest level it can stand at. */
  lemma {:induction false} ReadsHere(s: Syntax, rest: seq<Token>)
    requires Bracketed(s) && Stops(rest, Min(Level(s), PREFIX) + 1)
    ensures P(Min(Level(s), PREFIX), Text(s, rest)) == Reading(s, Min(Level(s), PREFIX), rest)
    decreases s, 1
  {
    var ts := Text(s, rest);
    assert P(PREFIX, ts) == PUnary(ts) && P(COMPARISON, ts) == PComparison(ts);
    assert Tail(PREFIX, Tree(s), rest) == Ok((Tree(s), rest));
    hide P;
    hide Tail;
    hide PUnary;
    hide PComparison;
    match s
    case Infix(left, op, right) => ReadsInfix(s, rest);
    case Prefix(op, arg) => ReadsPrefix(s, rest);
    case Nullness(arg, negated) => ReadsNullness(s, rest);
    case Among(left, items, negated) => ReadsAmong(s, rest);
    case Range(left, low, high, negated) => ReadsRange(s, rest);
    case Paren(inner) => ReadsParen(s, rest);
    case Apply(f, args) => ReadsApply(s, rest);
    case Name(q, name) => ReadsName(q, name, rest);
    case Atom(t) => ReadsAtom(t, rest);
  }

  function Min(a: nat, b: nat): nat { if a < b then a else b }

  lemma ReadsAtom(t: Token, rest: seq<Token>)
    requires LiteralOf(t).Some?
    ensures PUnary(Text(Atom(t), rest)) == Ok((Tree(Atom(t)), rest))
  {
    assert ([t] + rest)[0] == t && ([t] + rest)[1..] == rest;
  }

  lemma ReadsName(q: Option<string>, name: string, rest: seq<Token>)
    requires Stops(rest, PRIMARY)
    ensures PUnary(Text(Name(q, name), rest)) == Ok((Column(q, name), rest))
  {
    var last := [Ident(name)] + rest;
    assert last[0] == Ident(name) && last[1..] == rest;
    if q.Some? {
      var after := [Dot] + last;
      var all := [Ident(q.value)] + after;
      assert all[0] == Ident(q.value) && all[1..] == after && after[0] == Dot && after[1] == Ident(name);
      assert after[2..] == rest;
    }
  }

  /** A token in front of others. */
  lemma Front(t: Token, rest: seq<Token>)
    ensures ([t] + rest)[0] == t && ([t] + rest)[1..] == rest && Starts([t] + rest, t)
  {
  }

  lemma {:induction false} ReadsParen(s: Syntax, rest: seq<Token>)
    requires Bracketed(s) && s.Paren?
    ensures PUnary(Text(s, rest)) == Ok((Tree(s), rest))
    decreases s, 0
  {
    var close := [RParen] + rest;
    Front(RParen, rest);
    Reads(s.inner, OR, close);
    TailStops(OR, Tree(s.inner), close);
    Front(LParen, Text(s.inner, close));
    hide POr;
    hide Text;
    hide Tree;
    hide Bracketed;
    ParenStep(Text(s.inner, close), Tree(s.inner), rest);
    TextOfParen(s, rest);
  }

  lemma TextOfParen(s: Syntax, rest: seq<Token>)
    requires Bracketed(s) && s.Paren?
    ensures Text(s, rest) == [LParen] + Text(s.inner, [RParen] + rest) && Tree(s) == Tree(s.inner)
  {
  }

  lemma ParenStep(inner: seq<Token>, e: Expr, rest: seq<Token>)
    requires POr(inner) == Ok((e, [RParen] + rest))
    ensures PUnary([LParen] + inner) == Ok((e, rest))
  {
    Front(LParen, inner);
    Front(RParen, rest);
    hide POr;
  }

  lemma {:induction false} ReadsPrefix(s: Syntax, rest: seq<Token>)
    requires Bracketed(s) && s.Prefix? && Stops(rest, PRIMARY)
    ensures PUnary(Text(s, rest)) == Ok((Tree(s), rest))
    decreases s, 0
  {
    Reads(s.arg, PREFIX, rest);
    var inner := Text(s.arg, rest);
    Front(PrefixToken(s.uop), inner);
    hide Text;
    hide Tree;
    assert PUnary(inner) == Ok((Tree(s.arg), rest));
    PrefixStep(s.uop, inner, Tree(s.arg), rest);
    TextOfPrefix(s, rest);
  }

  lemma TextOfPrefix(s: Syntax, rest: seq<Token>)
    requires Bracketed(s) && s.Prefix?
    ensures Text(s, rest) == [PrefixToken(s.uop)] + Text(s.arg, rest) && Tree(s) == Unary(s.uop, Tree(s.arg))
  {
  }

  lemma PrefixStep(op: UnaryOp, inner: seq<Token>, e: Expr, rest: seq<Token>)
    requires PUnary(inner) == Ok((e, rest))
    ensures PUnary([PrefixToken(op)] + inner) == Ok((Unary(op, e), rest))
  {
    Front(PrefixToken(op), inner);
  }

  /** An operand at sum level, in front of what ends sums. */
  lemma {:induction false} ReadsOperand(s: Syntax, rest: seq<Token>)
    requires Bracketed(s) && Level(s) >= SUM && Stops(rest, SUM)
    ensures PAdditive(Text(s, rest)) == Ok((Tree(s), rest))
    decreases s, 3
  {
    Reads(s, SUM, rest);
    TailStops(SUM, Tree(s), rest);
  }

  lemma {:induction false} ReadsInfix(s: Syntax, rest: seq<Token>)
    requires Bracketed(s) && s.Infix? && Stops(rest, Level(s) + 1)
    ensures P(Level(s), Text(s, rest)) == Reading(s, Level(s), rest)
    decreases s, 0
  {
    var n := OpLevel(s.op);
    var right := Text(s.right, rest);
    var after := [OpToken(s.op)] + right;
    Front(OpToken(s.op), right);
    if n == COMPARISON {
      ReadsOperand(s.left, after);
      ReadsOperand(s.right, rest);
      hide PAdditive;
      hide Text;
      hide Tree;
      ComparisonStep(s.op, Text(s.left, after), Tree(s.left), right, Tree(s.right), rest);
      TextOfInfix(s, rest);
    } else {
      Reads(s.left, n, after);
      Reads(s.right, n + 1, rest);
      TailStops(n + 1, Tree(s.right), rest);
      hide P;
      hide Tail;
      hide Text;
      hide Tree;
      OperatorStep(s.op, Tree(s.left), right, Tree(s.right), rest);
      TextOfInfix(s, rest);
    }
  }

  lemma TextOfInfix(s: Syntax, rest: seq<Token>)
    requires Bracketed(s) && s.Infix?
    ensures Text(s, rest) == Text(s.left, [OpToken(s.op)] + Text(s.right, rest))
    ensures Tree(s) == Binary(Tree(s.left), s.op, Tree(s.right))
  {
  }

  lemma OperatorStep(op: BinaryOp, l: Expr, right: seq<Token>, r: Expr, rest: seq<Token>)
    requires OpLevel(op) != COMPARISON && P(OpLevel(op) + 1, right) == Ok((r, rest))
    ensures Tail(OpLevel(op), l, [OpToken(op)] + right) == Tail(OpLevel(op), Binary(l, op, r), rest)
  {
    Front(OpToken(op), right);
  }

  lemma ComparisonStep(op: BinaryOp, left: seq<Token>, l: Expr, right: seq<Token>, r: Expr, rest: seq<Token>)
    requires OpLevel(op) == COMPARISON
    requires PAdditive(left) == Ok((l, [OpToken(op)] + right)) && PAdditive(right) == Ok((r, rest))
    ensures PComparison(left) == Ok((Binary(l, op, r), rest))
  {
    Front(OpToken(op), right);
    hide PAdditive;
  }

  lemma {:induction false} ReadsNullness(s: Syntax, rest: seq<Token>)
    requires Bracketed(s) && s.Nullness?
    ensures PComparison(Text(s, rest)) == Ok((Tree(s), rest))
    decreases s, 0
  {
    var after := [KIs] + Maybe(s.negated, KNull, rest);
    ReadsOperand(s.arg, after);
    hide PAdditive;
    NullnessStep(s.negated, Tree(s.arg), rest);
  }

  lemma NullnessStep(negated: bool, l: Expr, rest: seq<Token>)
    ensures ComparisonTail(l, [KIs] + Maybe(negated, KNull, rest)) == Ok((IsNull(l, negated), rest))
  {
    Front(KIs, Maybe(negated, KNull, rest));
    Front(KNull, rest);
    Front(KNot, [KNull] + rest);
    var ts := [KIs] + Maybe(negated, KNull, rest);
    assert negated ==> ts[2..] == [KNull] + rest;
  }

  /** After `[NOT] IN` and `[NOT] BETWEEN`. */
  lemma KeywordStep(negated: bool, t: Token, l: Expr, rest: seq<Token>)
    requires t == KIn || t == KBetween
    ensures ComparisonTail(l, Maybe(negated, t, rest)) == if t == KIn then InTail(l, rest, negated)
      else BetweenTail(l, rest, negated)
  {
    Front(t, rest);
    Front(KNot, [t] + rest);
    var ts := Maybe(negated, t, rest);
    assert negated ==> ts[2..] == rest;
    hide InTail;
    hide BetweenTail;
  }

  lemma {:induction false} ReadsRange(s: Syntax, rest: seq<Token>)
    requires Bracketed(s) && s.Range? && Stops(rest, SUM)
    ensures PComparison(Text(s, rest)) == Ok((Tree(s), rest))
    decreases s, 0
  {
    var high := Text(s.high, rest);
    var low := Text(s.low, [KAnd] + high);
    Front(KAnd, high);
    ReadsOperand(s.left, Maybe(s.negated, KBetween, low));
    ReadsOperand(s.low, [KAnd] + high);
    ReadsOperand(s.high, rest);
    hide PAdditive;
    KeywordStep(s.negated, KBetween, Tree(s.left), low);
  }

  lemma {:induction false} ReadsAmong(s: Syntax, rest: seq<Token>)
    requires Bracketed(s) && s.Among?
    ensures PComparison(Text(s, rest)) == Ok((Tree(s), rest))
    decreases s, 0
  {
    var close := [RParen] + rest;
    var list := ListText(s.items, close);
    Front(LParen, list);
    Front(RParen, rest);
    ReadsOperand(s.left, Maybe(s.negated, KIn, [LParen] + list));
    ReadsList(s.items, rest);
    hide PAdditive;
    hide PList;
    KeywordStep(s.negated, KIn, Tree(s.left), [LParen] + list);
  }

  lemma {:induction false} ReadsList(es: seq<Syntax>, rest: seq<Token>)
    requires es != [] && forall i :: 0 <= i < |es| ==> Bracketed(es[i])
    ensures PList(ListText(es, [RParen] + rest)) == Ok((Trees(es), [RParen] + rest))
    decreases es, 3
  {
    var more := MoreText(es[1..], [RParen] + rest);
    ReadsItem(es[0], es[1..], rest);
    ReadsMore([Tree(es[0])], es[1..], rest);
    hide POr;
  }

  /** One item in front of a comma or the closing parenthesis. */
  lemma {:induction false} ReadsItem(e: Syntax, es: seq<Syntax>, rest: seq<Token>)
    requires Bracketed(e)
    ensures POr(Text(e, MoreText(es, [RParen] + rest))) == Ok((Tree(e), MoreText(es, [RParen] + rest)))
    decreases e, 4
  {
    var more := MoreText(es, [RParen] + rest);
    assert more[0] == if es == [] then RParen else Comma;
    Reads(e, OR, more);
    TailStops(OR, Tree(e), more);
  }

  lemma {:induction false} ReadsMore(done: seq<Expr>, es: seq<Syntax>, rest: seq<Token>)
    requires done != [] && forall i :: 0 <= i < |es| ==> Bracketed(es[i])
    ensures ListTail(done, MoreText(es, [RParen] + rest)) == Ok((done + Trees(es), [RParen] + rest))
    decreases es, 3
  {
    if es == [] {
      Front(RParen, rest);
      assert done + Trees(es) == done;
    } else {
      var more := MoreText(es[1..], [RParen] + rest);
      ReadsItem(es[0], es[1..], rest);
      Front(Comma, Text(es[0], more));
      ReadsMore(done + [Tree(es[0])], es[1..], rest);
      assert done + [Tree(es[0])] + Trees(es[1..]) == done + Trees(es);
      hide POr;
    }
  }

  lemma {:induction false} ReadsApply(s: Syntax, rest: seq<Token>)
    requires Bracketed(s) && s.Apply?
    ensures PUnary(Text(s, rest)) == Ok((Tree(s), rest))
    decreases s, 0
  {
    var close := [RParen] + rest;
    Front(RParen, rest);
    match s.args
    case AllRows =>
      Front(Asterisk, close);
      ApplyStep(s.func, Star, [Asterisk] + close, rest);
    case Each(es) =>
      if es == [] {
        ApplyStep(s.func, Exprs([]), close, rest);
      } else {
        ReadsList(es, rest);
        ListFirst(es, close);
        hide PList;
        ApplyStep(s.func, Exprs(Trees(es)), ListText(es, close), rest);
      }
  }

  lemma ApplyStep(name: string, args: Args, inner: seq<Token>, rest: seq<Token>)
    requires PArgs(inner) == Ok((args, [RParen] + rest))
    ensures PUnary([Ident(name)] + ([LParen] + inner)) == Ok((Call(name, args), rest))
  {
    Front(Ident(name), [LParen] + inner);
    Front(LParen, inner);
    Front(RParen, rest);
    hide PArgs;
  }

  /** No written form begins with a star or a closing parenthesis. */
  lemma {:induction false} FirstToken(s: Syntax, rest: seq<Token>)
    requires Bracketed(s)
    ensures Text(s, rest) != [] && !Starts(Text(s, rest), Asterisk) && !Starts(Text(s, rest), RParen)
    decreases s
  {
    match s
    case Infix(left, op, right) => FirstToken(left, [OpToken(op)] + Text(right, rest));
    case Nullness(arg, negated) => FirstToken(arg, [KIs] + Maybe(negated, KNull, rest));
    case Among(left, items, negated) =>
      FirstToken(left, Maybe(negated, KIn, [LParen] + ListText(items, [RParen] + rest)));
    case Range(left, low, high, negated) =>
      FirstToken(left, Maybe(negated, KBetween, Text(low, [KAnd] + Text(high, rest))));
    case _ =>
  }

  lemma ListFirst(es: seq<Syntax>, rest: seq<Token>)
    requires es != [] && Bracketed(es[0])
    ensures !Starts(ListText(es, rest), Asterisk) && !Starts(ListText(es, rest), RParen)
  {
    FirstToken(es[0], MoreText(es[1..], rest));
  }

  // ---- nothing else is read ----

  /** What a parser function read of `ts`, if anything, was `s`. */
  ghost predicate Wrote(s: Syntax, n: nat, r: Parsed, ts: seq<Token>) {
    r.Ok? ==> Bracketed(s) && Level(s) >= n && Tree(s) == r.value.0 && Text(s, r.value.1) == ts
  }

  /** A tail function went on from `l` and made `s` of it. */
  ghost predicate WentOn(l: Syntax, s: Syntax, n: nat, r: Parsed, ts: seq<Token>) {
    r.Ok? ==> Bracketed(s) && Level(s) >= n && Tree(s) == r.value.0 && Text(s, r.value.1) == Text(l, ts)
  }

  lemma Split(ts: seq<Token>, t: Token)
    requires Starts(ts, t)
    ensures ts == [t] + ts[1..]
  {
  }

  lemma {:induction false} OrWritten(ts: seq<Token>) returns (s: Syntax)
    ensures Wrote(s, OR, POr(ts), ts)
    decreases |ts|, 6
  {
    hide PAnd;
    hide OrTail;
    hide Text;
    hide Tree;
    hide Bracketed;
    s := AndWritten(ts);
    if PAnd(ts).Ok? {
      s := OrWentOn(s, PAnd(ts).value.1);
    }
  }

  lemma {:induction false} OrWentOn(l: Syntax, ts: seq<Token>) returns (s: Syntax)
    requires Bracketed(l)
    ensures WentOn(l, s, OR, OrTail(Tree(l), ts), ts)
    decreases |ts|, 7
  {
    hide PAnd;
    s := l;
    if Starts(ts, KOr) {
      var r := AndWritten(ts[1..]);
      if PAnd(ts[1..]).Ok? {
        Split(ts, KOr);
        Joined(l, Or, r, PAnd(ts[1..]).value.1);
        hide Text;
        hide Tree;
        hide Bracketed;
        s := OrWentOn(Infix(l, Or, r), PAnd(ts[1..]).value.1);
      }
    }
  }

  lemma Joined(l: Syntax, op: BinaryOp, r: Syntax, rest: seq<Token>)
    requires Bracketed(l) && Bracketed(r) && Level(r) > OpLevel(op)
    requires Level(l) >= if OpLevel(op) == COMPARISON then SUM else OpLevel(op)
    ensures Bracketed(Infix(l, op, r)) && Level(Infix(l, op, r)) == OpLevel(op)
    ensures Tree(Infix(l, op, r)) == Binary(Tree(l), op, Tree(r))
    ensures Text(Infix(l, op, r), rest) == Text(l, [OpToken(op)] + Text(r, rest))
  {
  }

  lemma {:induction false} AndWritten(ts: seq<Token>) returns (s: Syntax)
    ensures Wrote(s, AND, PAnd(ts), ts)
    decreases |ts|, 5
  {
    hide PComparison;
    hide AndTail;
    hide Text;
    hide Tree;
    hide Bracketed;
    s := ComparisonWritten(ts);
    if PComparison(ts).Ok? {
      s := AndWentOn(s, PComparison(ts).value.1);
    }
  }

  lemma {:induction false} AndWentOn(l: Syntax, ts: seq<Token>) returns (s: Syntax)
    requires Bracketed(l) && Level(l) >= AND
    ensures WentOn(l, s, AND, AndTail(Tree(l), ts), ts)
    decreases |ts|, 7
  {
    hide PComparison;
    s := l;
    if Starts(ts, KAnd) {
      var r := ComparisonWritten(ts[1..]);
      if PComparison(ts[1..]).Ok? {
        Split(ts, KAnd);
        Joined(l, And, r, PComparison(ts[1..]).value.1);
        hide Text;
        hide Tree;
        hide Bracketed;
        s := AndWentOn(Infix(l, And, r), PComparison(ts[1..]).value.1);
      }
    }
  }

  lemma {:induction false} ComparisonWritten(ts: seq<Token>) returns (s: Syntax)
    ensures Wrote(s, COMPARISON, PComparison(ts), ts)
    decreases |ts|, 4
  {
    hide PAdditive;
    hide ComparisonTail;
    hide Text;
    hide Tree;
    hide Bracketed;
    s := SumWritten(ts);
    if PAdditive(ts).Ok? {
      s := ComparisonWentOn(s, PAdditive(ts).value.1);
    }
  }

  lemma {:induction false} ComparisonWentOn(l: Syntax, ts: seq<Token>) returns (s: Syntax)
    requires Bracketed(l) && Level(l) >= SUM
    ensures WentOn(l, s, COMPARISON, ComparisonTail(Tree(l), ts), ts)
    decreases |ts|, 7
  {
    hide PAdditive;
    hide InTail;
    hide BetweenTail;
    s := l;
    if Starts(ts, KIs) {
      s := Nullness(l, Starts(ts[1..], KNot));
      NullnessWritten(l, ts);
    } else if Starts(ts, KIn) {
      s := InWritten(l, ts[1..], false);
      Split(ts, KIn);
    } else if Negates(ts, KIn) {
      s := InWritten(l, ts[2..], true);
      SplitTwo(ts, KIn);
    } else if Starts(ts, KBetween) {
      s := BetweenWritten(l, ts[1..], false);
      Split(ts, KBetween);
    } else if Negates(ts, KBetween) {
      s := BetweenWritten(l, ts[2..], true);
      SplitTwo(ts, KBetween);
    } else if ts != [] && ComparisonOp(ts[0]).Some? {
      var op := ComparisonOp(ts[0]).value;
      var r := SumWritten(ts[1..]);
      if PAdditive(ts[1..]).Ok? {
        assert OpToken(op) == ts[0] && OpLevel(op) == COMPARISON;
        Split(ts, ts[0]);
        Joined(l, op, r, PAdditive(ts[1..]).value.1);
        s := Infix(l, op, r);
      }
    }
  }

  lemma SplitTwo(ts: seq<Token>, t: Token)
    requires Negates(ts, t)
    ensures ts == Maybe(true, t, ts[2..])
  {
    assert ts == [KNot] + ([t] + ts[2..]);
  }

  lemma NullnessWritten(l: Syntax, ts: seq<Token>)
    requires Bracketed(l) && Level(l) >= SUM && Starts(ts, KIs)
    ensures WentOn(l, Nullness(l, Starts(ts[1..], KNot)), COMPARISON, ComparisonTail(Tree(l), ts), ts)
  {
    var after := if Starts(ts[1..], KNot) then ts[2..] else ts[1..];
    if Starts(after, KNull) {
      Split(ts, KIs);
      Split(after, KNull);
      if Starts(ts[1..], KNot) {
        assert ts[1..] == [KNot] + after;
      }
      assert ts == [KIs] + Maybe(Starts(ts[1..], KNot), KNull, after[1..]);
    }
  }

  lemma {:induction false} InWritten(l: Syntax, ts: seq<Token>, negate: bool) returns (s: Syntax)
    requires Bracketed(l) && Level(l) >= SUM
    ensures var r := InTail(Tree(l), ts, negate);
      r.Ok? ==>
        && Bracketed(s) && Level(s) == COMPARISON && Tree(s) == r.value.0
        && Text(s, r.value.1) == Text(l, Maybe(negate, KIn, ts))
    decreases |ts|, 8
  {
    s := l;
    if Starts(ts, LParen) {
      hide PList;
      var items := ListWritten(ts[1..]);
      if PList(ts[1..]).Ok? && Starts(PList(ts[1..]).value.1, RParen) {
        Split(ts, LParen);
        Split(PList(ts[1..]).value.1, RParen);
        s := Among(l, items, negate);
      }
    }
  }

  lemma {:induction false} BetweenWritten(l: Syntax, ts: seq<Token>, negate: bool) returns (s: Syntax)
    requires Bracketed(l) && Level(l) >= SUM
    ensures var r := BetweenTail(Tree(l), ts, negate);
      r.Ok? ==>
        && Bracketed(s) && Level(s) == COMPARISON && Tree(s) == r.value.0
        && Text(s, r.value.1) == Text(l, Maybe(negate, KBetween, ts))
    decreases |ts|, 3
  {
    hide PAdditive;
    s := l;
    var low := SumWritten(ts);
    if PAdditive(ts).Ok? {
      var rest := PAdditive(ts).value.1;
      if Starts(rest, KAnd) {
        var high := SumWritten(rest[1..]);
        Split(rest, KAnd);
        s := Range(l, low, high, negate);
      }
    }
  }

  /** The items of a list that was read. */
  ghost predicate WroteList(items: seq<Syntax>, r: Result<(seq<Expr>, seq<Token>)>, ts: seq<Token>) {
    r.Ok? ==>
      && items != [] && (forall i :: 0 <= i < |items| ==> Bracketed(items[i]))
      && Trees(items) == r.value.0 && ListText(items, r.value.1) == ts
  }

  lemma {:induction false} ListWritten(ts: seq<Token>) returns (items: seq<Syntax>)
    ensures WroteList(items, PList(ts), ts)
    decreases |ts|, 7
  {
    hide POr;
    items := [];
    var first := OrWritten(ts);
    if POr(ts).Ok? {
      var rest := POr(ts).value.1;
      var more := MoreWritten([POr(ts).value.0], rest);
      items := [first] + more;
      assert items[1..] == more;
    }
  }

  lemma {:induction false} MoreWritten(done: seq<Expr>, ts: seq<Token>) returns (items: seq<Syntax>)
    requires done != []
    ensures ListTail(done, ts).Ok? ==>
      && (forall i :: 0 <= i < |items| ==> Bracketed(items[i]))
      && ListTail(done, ts).value.0 == done + Trees(items) && MoreText(items, ListTail(done, ts).value.1) == ts
    decreases |ts|, 8
  {
    hide POr;
    items := [];
    if Starts(ts, Comma) {
      var first := OrWritten(ts[1..]);
      if POr(ts[1..]).Ok? {
        Split(ts, Comma);
        var (e, rest) := POr(ts[1..]).value;
        var more := MoreWritten(done + [e], rest);
        items := [first] + more;
        assert items[1..] == more;
        if ListTail(done + [e], rest).Ok? {
          assert done + [e] + Trees(more) == done + ([e] + Trees(more));
        }
      }
    } else {
      assert done + Trees(items) == done;
    }
  }

  lemma {:induction false} SumWritten(ts: seq<Token>) returns (s: Syntax)
    ensures Wrote(s, SUM, PAdditive(ts), ts)
    decreases |ts|, 2
  {
    hide PMultiplicative;
    hide AddTail;
    hide Text;
    hide Tree;
    hide Bracketed;
    s := ProductWritten(ts);
    if PMultiplicative(ts).Ok? {
      s := SumWentOn(s, PMultiplicative(ts).value.1);
    }
  }

  lemma {:induction false} SumWentOn(l: Syntax, ts: seq<Token>) returns (s: Syntax)
    requires Bracketed(l) && Level(l) >= SUM
    ensures WentOn(l, s, SUM, AddTail(Tree(l), ts), ts)
    decreases |ts|, 7
  {
    hide PMultiplicative;
    s := l;
    if Starts(ts, Plus) || Starts(ts, Minus) {
      var op := if ts[0] == Plus then Add else Sub;
      var r := ProductWritten(ts[1..]);
      if PMultiplicative(ts[1..]).Ok? {
        Split(ts, OpToken(op));
        Joined(l, op, r, PMultiplicative(ts[1..]).value.1);
        hide Text;
        hide Tree;
        hide Bracketed;
        s := SumWentOn(Infix(l, op, r), PMultiplicative(ts[1..]).value.1);
      }
    }
  }

  lemma {:induction false} ProductWritten(ts: seq<Token>) returns (s: Syntax)
    ensures Wrote(s, PRODUCT, PMultiplicative(ts), ts)
    decreases |ts|, 1
  {
    hide PUnary;
    hide MulTail;
    hide Text;
    hide Tree;
    hide Bracketed;
    s := UnaryWritten(ts);
    if PUnary(ts).Ok? {
      s := ProductWentOn(s, PUnary(ts).value.1);
    }
  }

  lemma {:induction false} ProductWentOn(l: Syntax, ts: seq<Token>) returns (s: Syntax)
    requires Bracketed(l) && Level(l) >= PRODUCT
    ensures WentOn(l, s, PRODUCT, MulTail(Tree(l), ts), ts)
    decreases |ts|, 7
  {
    hide PUnary;
    s := l;
    if Starts(ts, Asterisk) || Starts(ts, Slash) {
      var op := if ts[0] == Asterisk then Mul else Div;
      var r := UnaryWritten(ts[1..]);
      if PUnary(ts[1..]).Ok? {
        Split(ts, OpToken(op));
        Joined(l, op, r, PUnary(ts[1..]).value.1);
        hide Text;
        hide Tree;
        hide Bracketed;
        s := ProductWentOn(Infix(l, op, r), PUnary(ts[1..]).value.1);
      }
    }
  }

  lemma {:induction false} UnaryWritten(ts: seq<Token>) returns (s: Syntax)
    ensures Wrote(s, PREFIX, PUnary(ts), ts)
    decreases |ts|, 0
  {
    hide PPrimary;
    s := Atom(KNull);
    if Starts(ts, KNot) || Starts(ts, Minus) {
      var op := if ts[0] == KNot then Not else Neg;
      var arg := UnaryWritten(ts[1..]);
      Split(ts, PrefixToken(op));
      s := Prefix(op, arg);
    } else if ts != [] {
      s := PrimaryWritten(ts[0], ts[1..]);
      Split(ts, ts[0]);
    }
  }

  lemma {:induction false} PrimaryWritten(t: Token, ts: seq<Token>) returns (s: Syntax)
    ensures Wrote(s, PRIMARY, PPrimary(t, ts), [t] + ts)
    decreases |ts|, 9
  {
    hide PArgs;
    hide POr;
    s := Atom(t);
    if t.Ident? {
      if Starts(ts, LParen) {
        var args := ArgsWritten(ts[1..]);
        if PArgs(ts[1..]).Ok? && Starts(PArgs(ts[1..]).value.1, RParen) {
          Split(ts, LParen);
          Split(PArgs(ts[1..]).value.1, RParen);
          s := Apply(t.s, args);
        }
      } else if Starts(ts, Dot) {
        if |ts| > 1 && ts[1].Ident? {
          s := Name(Some(t.s), ts[1].s);
          assert ts == [Dot] + ([ts[1]] + ts[2..]);
        }
      } else {
        s := Name(None, t.s);
      }
    } else if LiteralOf(t) == None && t == LParen {
      var inner := OrWritten(ts);
      if POr(ts).Ok? && Starts(POr(ts).value.1, RParen) {
        Split(POr(ts).value.1, RParen);
        s := Paren(inner);
      }
    }
  }

  function ArgsText(args: SyntaxArgs, rest: seq<Token>): seq<Token> {
    match args case AllRows => [Asterisk] + rest case Each(es) => ListText(es, rest)
  }

  lemma {:induction false} ArgsWritten(ts: seq<Token>) returns (args: SyntaxArgs)
    ensures PArgs(ts).Ok? ==>
      && (args.Each? ==> forall i :: 0 <= i < |args.es| ==> Bracketed(args.es[i]))
      && PArgs(ts).value.0 == (match args case AllRows => Star case Each(es) => Exprs(Trees(es)))
      && ArgsText(args, PArgs(ts).value.1) == ts
    decreases |ts|, 8
  {
    hide PList;
    args := Each([]);
    if Starts(ts, Asterisk) {
      args := AllRows;
      Split(ts, Asterisk);
    } else if !Starts(ts, RParen) {
      var es := ListWritten(ts);
      args := Each(es);
    }
  }

  /** The parser and the written forms: a text is read as a tree exactly when its tokens are a written form of it, with
      as many or as few parentheses as one likes beyond those that precedence demands. */
  lemma ParsesExactly(x: string, e: Expr)
    ensures ParseText(x) == Ok(e) <==> exists s: Syntax :: Bracketed(s) && Tree(s) == e && Lex(x) == Ok(Text(s, []))
  {
    hide Text;
    hide Tree;
    hide Bracketed;
    hide POr;
    hide Lex;
    if ParseText(x) == Ok(e) {
      var s := OrWritten(Lex(x).value);
      assert Bracketed(s) && Tree(s) == e && Lex(x) == Ok(Text(s, []));
    }
    forall s: Syntax | Bracketed(s) && Tree(s) == e && Lex(x) == Ok(Text(s, [])) ensures ParseText(x) == Ok(e) {
      Reads(s, OR, []);
      TailStops(OR, Tree(s), []);
    }
  }
}
