/** The printer of expressions, and why reading its text back gives the same tree. */
module Printing {
  import opened Common
  import opened Ast
  import opened Lexing
  import opened Parsing
  import opened Grammar

  // ---- the printer ----

  predicate NoFloats(e: Expr) {
    match e
    case Lit(l) => !l.Float?
    case Column(_, _) => true
    case Binary(left, _, right) => NoFloats(left) && NoFloats(right)
    case Unary(_, arg) => NoFloats(arg)
    case IsNull(arg, _) => NoFloats(arg)
    case Call(_, args) => args.Exprs? ==> forall i :: 0 <= i < |args.es| ==> NoFloats(args.es[i])
    case Param(_) => true
  }

  function DigitChar(d: nat): (c: char)
    requires d < 10
    ensures IsDigit(c) && DigitValue(c) == d
  {
    '0' + d as char
  }

  function Digits(n: nat): (s: string)
    ensures s != [] && (forall i :: 0 <= i < |s| ==> IsDigit(s[i])) && DigitsValue(s) == n
  {
    if n < 10 then
      var s := [DigitChar(n)];
      assert s[..0] == [];
      s
    else
      var s := Digits(n / 10) + [DigitChar(n % 10)];
      assert s[..|s| - 1] == Digits(n / 10);
      s
  }

  /** Quotes inside a string are doubled. */
  function Escaped(s: string): string {
    if s == [] then [] else (if s[0] == '\'' then "''" else [s[0]]) + Escaped(s[1..])
  }

  function LiteralText(l: Ast.Literal): string
    requires !l.Float?
  {
    match l
    case Integer(n) => if n < 0 then "-" + Digits(0 - n) else Digits(n)
    case Str(s) => "'" + Escaped(s) + "'"
    case Boolean(b) => if b then "TRUE" else "FALSE"
    case NullLiteral => "NULL"
  }

  function OpText(op: BinaryOp): string {
    match op
    case Eq => "="
    case Ne => "<>"
    case Lt => "<"
    case Le => "<="
    case Gt => ">"
    case Ge => ">="
    case And => "AND"
    case Or => "OR"
    case Add => "+"
    case Sub => "-"
    case Mul => "*"
    case Div => "/"
  }

  /** The text of `e` in front of the text `rest`. */
  function Write(e: Expr, rest: string): string
    requires NoFloats(e)
    decreases e
  {
    match e
    case Lit(l) => LiteralText(l) + rest
    case Column(Some(q), name) => q + ("." + (name + rest))
    case Column(None, name) => name + rest
    case Unary(Not, arg) => "(" + ("NOT" + (" " + Write(arg, ")" + rest)))
    case Unary(Neg, arg) => "(" + ("-" + Write(arg, ")" + rest))
    case Binary(left, op, right) => "(" + Write(left, " " + (OpText(op) + (" " + Write(right, ")" + rest))))
    case IsNull(arg, false) => "(" + Write(arg, " " + ("IS" + (" " + ("NULL" + (")" + rest)))))
    case IsNull(arg, true) => "(" + Write(arg, " " + ("IS" + (" " + ("NOT" + (" " + ("NULL" + (")" + rest)))))))
    case Call(name, Star) => name + ("(" + ("*" + (")" + rest)))
    case Call(name, Exprs(es)) => name + ("(" + (if es == [] then ")" + rest else WriteList(es, ")" + rest)))
    case Param(n) => "$" + (Digits(n) + rest)
  }

  function WriteList(es: seq<Expr>, rest: string): string
    requires es != [] && forall i :: 0 <= i < |es| ==> NoFloats(es[i])
    decreases es
  {
    Write(es[0], if |es| == 1 then rest else "," + (" " + WriteList(es[1..], rest)))
  }

  function Show(e: Expr): string
    requires NoFloats(e)
  {
    Write(e, [])
  }

  // ---- the expressions a parser can produce ----

  predicate IsWord(w: string) {
    w != [] && IsWordStart(w[0]) && forall i :: 0 <= i < |w| ==> IsWordChar(w[i])
  }

  predicate IsName(w: string) {
    IsWord(w) && WordToken(w) == Ident(w)
  }

  predicate NoQuotes(s: string) {
    forall i :: 0 <= i < |s| ==> NotQuote(s[i])
  }

  predicate WellFormed(e: Expr) {
    match e
    case Lit(Integer(n)) => n >= 0
    case Lit(Str(s)) => NoQuotes(s)
    case Lit(_) => true
    case Column(q, name) => (q.Some? ==> IsName(q.value)) && IsName(name)
    case Binary(left, _, right) => WellFormed(left) && WellFormed(right)
    case Unary(_, arg) => WellFormed(arg)
    case IsNull(arg, _) => WellFormed(arg)
    case Call(name, args) => IsName(name) && (args.Exprs? ==> forall i :: 0 <= i < |args.es| ==> WellFormed(args.es[i]))
    case Param(n) => n < USIZE_LIMIT
  }

  predicate Producible(e: Expr) {
    WellFormed(e) && NoFloats(e)
  }

  // ---- the tokens of the printed text ----

  function LiteralToken(l: Ast.Literal): Token
    requires !l.Float? && (l.Integer? ==> l.n >= 0)
  {
    match l
    case Integer(n) => IntTok(n)
    case Str(s) => StrTok(s)
    case Boolean(b) => if b then KTrue else KFalse
    case NullLiteral => KNull
  }

  function Tokens(e: Expr, rest: seq<Token>): seq<Token>
    requires Producible(e)
    decreases e
  {
    match e
    case Lit(l) => [LiteralToken(l)] + rest
    case Column(Some(q), name) => [Ident(q)] + ([Dot] + ([Ident(name)] + rest))
    case Column(None, name) => [Ident(name)] + rest
    case Unary(Not, arg) => [LParen] + ([KNot] + Tokens(arg, [RParen] + rest))
    case Unary(Neg, arg) => [LParen] + ([Minus] + Tokens(arg, [RParen] + rest))
    case Binary(left, op, right) => [LParen] + Tokens(left, [OpToken(op)] + Tokens(right, [RParen] + rest))
    case IsNull(arg, false) => [LParen] + Tokens(arg, [KIs] + ([KNull] + ([RParen] + rest)))
    case IsNull(arg, true) => [LParen] + Tokens(arg, [KIs] + ([KNot] + ([KNull] + ([RParen] + rest))))
    case Call(name, Star) => [Ident(name)] + ([LParen] + ([Asterisk] + ([RParen] + rest)))
    case Call(name, Exprs(es)) => [Ident(name)] +
      ([LParen] + (if es == [] then [RParen] + rest else TokenList(es, [RParen] + rest)))
    case Param(n) => [ParamTok(n)] + rest
  }

  function TokenList(es: seq<Expr>, rest: seq<Token>): seq<Token>
    requires es != [] && forall i :: 0 <= i < |es| ==> Producible(es[i])
    decreases es
  {
    Tokens(es[0], if |es| == 1 then rest else [Comma] + TokenList(es[1..], rest))
  }

  // ---- lexing the printed text ----

  /** What may follow an expression in a printed text. */
  predicate Separates(t: string) {
    t == [] || t[0] == ' ' || t[0] == ')' || t[0] == ','
  }

  lemma LexToken(x: string, t: string, tok: Token)
    requires x != [] && !IsSpace(x[0]) && TokenAt(x + t) == Ok((tok, |x|))
    ensures Lex(x + t) == Prepend(tok, Lex(t))
  {
    assert (x + t)[|x|..] == t;
    LexStep(x + t, tok, |x|);
  }

  lemma LexSpace(t: string)
    ensures Lex(" " + t) == Lex(t)
  {
    assert (" " + t)[1..] == t;
  }

  lemma LexMark(c: char, t: string, tok: Token)
    requires c in ['(', ')', ',', '.', '*', '-', '+', '/', '=']
    requires tok == match c
                    case '(' => LParen
                    case ')' => RParen
                    case ',' => Comma
                    case '.' => Dot
                    case '*' => Asterisk
                    case '-' => Minus
                    case '+' => Plus
                    case '/' => Slash
                    case _ => EqTok
    ensures Lex([c] + t) == Prepend(tok, Lex(t))
  {
    assert ([c] + t)[0] == c;
    LexToken([c], t, tok);
  }

  lemma LexWord(w: string, t: string)
    requires IsWord(w) && (t == [] || !IsWordChar(t[0]))
    ensures Lex(w + t) == Prepend(WordToken(w), Lex(t))
  {
    var s := w + t;
    RunLenIs(IsWordChar, s, |w|);
    assert s[..|w|] == w && s[0] == w[0];
    LexToken(w, t, WordToken(w));
  }

  lemma LexInteger(n: nat, t: string)
    requires n < I64_LIMIT && (t == [] || (!IsDigit(t[0]) && t[0] != '.'))
    ensures Lex(Digits(n) + t) == Prepend(IntTok(n), Lex(t))
  {
    var d := Digits(n);
    var s := d + t;
    RunLenIs(IsDigit, s, |d|);
    assert s[..|d|] == d && s[0] == d[0];
    LexToken(d, t, IntTok(n));
  }

  lemma LexParam(n: nat, t: string)
    requires n < USIZE_LIMIT && (t == [] || !IsDigit(t[0]))
    ensures Lex("$" + (Digits(n) + t)) == Prepend(ParamTok(n), Lex(t))
  {
    hide Lex;
    hide TokenAt;
    hide DigitsValue;
    var d := Digits(n);
    var s := ("$" + d) + t;
    assert s == "$" + (d + t) && ("$" + d)[0] == '$';
    ParamAt(n, d, s, t);
    LexToken("$" + d, t, ParamTok(n));
  }

  lemma ParamAt(n: nat, d: string, s: string, t: string)
    requires n < USIZE_LIMIT && (t == [] || !IsDigit(t[0])) && d == Digits(n) && s == "$" + (d + t)
    ensures TokenAt(s) == Ok((ParamTok(n), 1 + |d|))
  {
    hide DigitsValue;
    hide Digits;
    hide RunLen;
    assert s[0] == '$' && s[1..] == d + t;
    RunLenIs(IsDigit, s[1..], |d|);
    assert s[1..1 + |d|] == d;
  }

  lemma {:induction false} EscapedIsSame(s: string)
    requires NoQuotes(s)
    ensures Escaped(s) == s
  {
    if s != [] {
      assert NotQuote(s[0]);
      EscapedIsSame(s[1..]);
    }
  }

  lemma LexString(s: string, t: string)
    requires NoQuotes(s)
    ensures Lex(("'" + s + "'") + t) == Prepend(StrTok(s), Lex(t))
  {
    var x := "'" + s + "'";
    var all := x + t;
    assert all[0] == '\'' && all[1..] == s + ("'" + t);
    RunLenIs(NotQuote, all[1..], |s|);
    assert all[1..|s| + 1] == s;
    LexToken(x, t, StrTok(s));
  }

  lemma UpperSame(w: string)
    requires forall i :: 0 <= i < |w| ==> 'A' <= w[i] <= 'Z'
    ensures Ast.Upper(w) == w && (w != [] ==> IsWord(w))
  {
  }

  lemma WordAnd()
    ensures IsWord("AND") && WordToken("AND") == KAnd
  {
    UpperSame("AND");
  }

  lemma WordOr()
    ensures IsWord("OR") && WordToken("OR") == KOr
  {
    UpperSame("OR");
  }

  lemma WordNot()
    ensures IsWord("NOT") && WordToken("NOT") == KNot
  {
    UpperSame("NOT");
  }

  lemma WordIs()
    ensures IsWord("IS") && WordToken("IS") == KIs
  {
    UpperSame("IS");
  }

  lemma WordNull()
    ensures IsWord("NULL") && WordToken("NULL") == KNull
  {
    UpperSame("NULL");
  }

  lemma WordBool(b: bool)
    ensures var w := if b then "TRUE" else "FALSE"; IsWord(w) && WordToken(w) == if b then KTrue else KFalse
  {
    UpperSame(if b then "TRUE" else "FALSE");
  }

  lemma LexLiteral(l: Ast.Literal, t: string)
    requires WellFormed(Lit(l)) && !l.Float? && Separates(t)
    ensures Lex(LiteralText(l) + t) == Prepend(LiteralToken(l), Lex(t))
  {
    match l
    case Integer(n) => LexInteger(n, t);
    case Str(s) =>
      EscapedIsSame(s);
      LexString(s, t);
    case Boolean(b) =>
      WordBool(b);
      hide WordToken;
      hide IsWord;
      LexWord(if b then "TRUE" else "FALSE", t);
    case NullLiteral =>
      WordNull();
      hide WordToken;
      hide IsWord;
      LexWord("NULL", t);
  }

  /** `t` continues with a space, as it does after every operator. */
  lemma LexOp(op: BinaryOp, t: string)
    requires t != [] && t[0] == ' '
    ensures Lex(OpText(op) + t) == Prepend(OpToken(op), Lex(t))
  {
    match op
    case And =>
      WordAnd();
      hide WordToken;
      hide IsWord;
      LexWord("AND", t);
    case Or =>
      WordOr();
      hide WordToken;
      hide IsWord;
      LexWord("OR", t);
    case Eq => LexMark('=', t, EqTok);
    case Add => LexMark('+', t, Plus);
    case Sub => LexMark('-', t, Minus);
    case Mul => LexMark('*', t, Asterisk);
    case Div => LexMark('/', t, Slash);
    case _ => LexInequality(op, t);
  }

  lemma LexInequality(op: BinaryOp, t: string)
    requires t != [] && t[0] == ' '
    requires op == Ne || op == Lt || op == Le || op == Gt || op == Ge
    ensures Lex(OpText(op) + t) == Prepend(OpToken(op), Lex(t))
  {
    hide Lex;
    hide RunLen;
    hide WordToken;
    var x := OpText(op);
    assert (x + t)[0] == x[0] && (x + t)[1] == if |x| == 2 then x[1] else ' ';
    LexToken(x, t, OpToken(op));
  }

  lemma LexColumn(q: Option<string>, name: string, t: string)
    requires WellFormed(Column(q, name)) && Separates(t)
    ensures Lex(Write(Column(q, name), t)) ==
      match q
      case None => Prepend(Ident(name), Lex(t))
      case Some(qual) => Prepend(Ident(qual), Prepend(Dot, Prepend(Ident(name), Lex(t))))
  {
    hide Lex;
    hide WordToken;
    LexWord(name, t);
    if q.Some? {
      LexMark('.', name + t, Dot);
      LexWord(q.value, "." + (name + t));
    }
  }

  /** The text of an expression lexes to its tokens. */
  lemma {:induction false} LexWrite(e: Expr, t: string, ts: seq<Token>)
    requires Producible(e) && Separates(t) && Lex(t) == Ok(ts)
    ensures Lex(Write(e, t)) == Ok(Tokens(e, ts))
    decreases e
  {
    hide Lex;
    hide WordToken;
    hide IsWord;
    match e
    case Lit(l) => LexLiteral(l, t);
    case Column(q, name) => LexColumn(q, name, t);
    case Param(n) => LexParam(n, t);
    case Unary(op, arg) => LexUnary(e, t, ts);
    case Binary(left, op, right) => LexBinary(e, t, ts);
    case IsNull(arg, negated) => LexIsNull(e, t, ts);
    case Call(name, args) => LexCall(e, t, ts);
  }

  lemma {:induction false} LexUnary(e: Expr, t: string, ts: seq<Token>)
    requires Producible(e) && e.Unary? && Separates(t) && Lex(t) == Ok(ts)
    ensures Lex(Write(e, t)) == Ok(Tokens(e, ts))
    decreases e, 0
  {
    hide Lex;
    hide WordToken;
    hide IsWord;
    LexMark(')', t, RParen);
    LexWrite(e.arg, ")" + t, [RParen] + ts);
    var body := Write(e.arg, ")" + t);
    match e.uop
    case Not =>
      WordNot();
      LexSpace(body);
      LexWord("NOT", " " + body);
      LexMark('(', "NOT" + (" " + body), LParen);
    case Neg =>
      LexMark('-', body, Minus);
      LexMark('(', "-" + body, LParen);
  }

  lemma {:induction false} LexBinary(e: Expr, t: string, ts: seq<Token>)
    requires Producible(e) && e.Binary? && Separates(t) && Lex(t) == Ok(ts)
    ensures Lex(Write(e, t)) == Ok(Tokens(e, ts))
    decreases e, 0
  {
    hide Lex;
    hide WordToken;
    hide IsWord;
    LexMark(')', t, RParen);
    LexWrite(e.right, ")" + t, [RParen] + ts);
    var r := Write(e.right, ")" + t);
    LexSpace(r);
    LexOp(e.op, " " + r);
    LexSpace(OpText(e.op) + (" " + r));
    LexWrite(e.left, " " + (OpText(e.op) + (" " + r)), [OpToken(e.op)] + Tokens(e.right, [RParen] + ts));
    LexMark('(', Write(e.left, " " + (OpText(e.op) + (" " + r))), LParen);
  }

  lemma {:induction false} LexIsNull(e: Expr, t: string, ts: seq<Token>)
    requires Producible(e) && e.IsNull? && Separates(t) && Lex(t) == Ok(ts)
    ensures Lex(Write(e, t)) == Ok(Tokens(e, ts))
    decreases e, 0
  {
    hide Lex;
    hide WordToken;
    hide IsWord;
    WordNull();
    WordNot();
    WordIs();
    LexMark(')', t, RParen);
    LexWord("NULL", ")" + t);
    var tail := "NULL" + (")" + t);
    LexSpace(tail);
    if e.negated {
      LexWord("NOT", " " + tail);
      LexSpace("NOT" + (" " + tail));
      LexWord("IS", " " + ("NOT" + (" " + tail)));
      LexSpace("IS" + (" " + ("NOT" + (" " + tail))));
      LexWrite(e.arg, " " + ("IS" + (" " + ("NOT" + (" " + tail)))), [KIs] + ([KNot] + ([KNull] + ([RParen] + ts))));
      LexMark('(', Write(e.arg, " " + ("IS" + (" " + ("NOT" + (" " + tail))))), LParen);
    } else {
      LexWord("IS", " " + tail);
      LexSpace("IS" + (" " + tail));
      LexWrite(e.arg, " " + ("IS" + (" " + tail)), [KIs] + ([KNull] + ([RParen] + ts)));
      LexMark('(', Write(e.arg, " " + ("IS" + (" " + tail))), LParen);
    }
  }

  lemma {:induction false} LexCall(e: Expr, t: string, ts: seq<Token>)
    requires Producible(e) && e.Call? && Separates(t) && Lex(t) == Ok(ts)
    ensures Lex(Write(e, t)) == Ok(Tokens(e, ts))
    decreases e, 0
  {
    hide Lex;
    hide WordToken;
    hide IsWord;
    LexMark(')', t, RParen);
    match e.args
    case Star =>
      LexMark('*', ")" + t, Asterisk);
      LexMark('(', "*" + (")" + t), LParen);
      LexWord(e.func, "(" + ("*" + (")" + t)));
    case Exprs(es) =>
      if es == [] {
        LexMark('(', ")" + t, LParen);
        LexWord(e.func, "(" + (")" + t));
      } else {
        LexList(es, ")" + t, [RParen] + ts);
        LexMark('(', WriteList(es, ")" + t), LParen);
        LexWord(e.func, "(" + WriteList(es, ")" + t));
      }
  }

  lemma {:induction false} LexList(es: seq<Expr>, t: string, ts: seq<Token>)
    requires es != [] && (forall i :: 0 <= i < |es| ==> Producible(es[i])) && Separates(t) && Lex(t) == Ok(ts)
    ensures (forall i :: 0 <= i < |es| ==> NoFloats(es[i])) && Lex(WriteList(es, t)) == Ok(TokenList(es, ts))
    decreases es
  {
    hide Lex;
    if |es| == 1 {
      LexWrite(es[0], t, ts);
    } else {
      LexList(es[1..], t, ts);
      var more := WriteList(es[1..], t);
      LexSpace(more);
      LexMark(',', " " + more, Comma);
      LexWrite(es[0], "," + (" " + more), [Comma] + TokenList(es[1..], ts));
    }
  }

  // ---- parsing the tokens ----

  /** The written form that the printer chooses: every operation in parentheses. */
  function Written(e: Expr): Syntax
    requires Producible(e)
  {
    match e
    case Lit(l) => Atom(LiteralToken(l))
    case Column(q, name) => Name(q, name)
    case Unary(op, arg) => Paren(Prefix(op, Written(arg)))
    case Binary(left, op, right) => Paren(Infix(Written(left), op, Written(right)))
    case IsNull(arg, negated) => Paren(Nullness(Written(arg), negated))
    case Call(name, Star) => Apply(name, AllRows)
    case Call(name, Exprs(es)) => Apply(name, Each(WrittenAll(es)))
    case Param(n) => Atom(ParamTok(n))
  }

  function WrittenAll(es: seq<Expr>): (r: seq<Syntax>)
    requires forall i :: 0 <= i < |es| ==> Producible(es[i])
    ensures |r| == |es|
  {
    if es == [] then [] else [Written(es[0])] + WrittenAll(es[1..])
  }

  lemma {:induction false} WrittenIs(e: Expr)
    requires Producible(e)
    ensures Bracketed(Written(e)) && Level(Written(e)) == PRIMARY && Tree(Written(e)) == e
    decreases e, 1
  {
    hide IsName;
    hide NoQuotes;
    match e
    case Unary(op, arg) => WrittenIs(arg);
    case Binary(left, op, right) =>
      WrittenIs(left);
      WrittenIs(right);
    case IsNull(arg, negated) => WrittenIs(arg);
    case Call(name, args) =>
      if args.Exprs? {
        WrittenAllAre(args.es);
      }
    case _ =>
  }

  lemma {:induction false} WrittenAllAre(es: seq<Expr>)
    requires forall i :: 0 <= i < |es| ==> Producible(es[i])
    ensures (forall i :: 0 <= i < |es| ==> Bracketed(WrittenAll(es)[i])) && Trees(WrittenAll(es)) == es
    decreases es, 0
  {
    hide Producible;
    hide Bracketed;
    hide Tree;
    if es != [] {
      WrittenIs(es[0]);
      WrittenAllAre(es[1..]);
      assert WrittenAll(es)[1..] == WrittenAll(es[1..]);
    }
  }

  lemma {:induction false} TokensAre(e: Expr, rest: seq<Token>)
    requires Producible(e)
    ensures Tokens(e, rest) == Text(Written(e), rest)
    decreases e, 1
  {
    hide IsName;
    hide NoQuotes;
    var close := [RParen] + rest;
    match e
    case Unary(op, arg) => TokensAre(arg, close);
    case Binary(left, op, right) =>
      TokensAre(right, close);
      TokensAre(left, [OpToken(op)] + Tokens(right, close));
    case IsNull(arg, negated) => TokensAre(arg, [KIs] + Maybe(negated, KNull, close));
    case Call(name, args) =>
      if args.Exprs? && args.es != [] {
        TokenListIs(args.es, close);
      }
    case _ =>
  }

  lemma {:induction false} TokenListIs(es: seq<Expr>, rest: seq<Token>)
    requires es != [] && forall i :: 0 <= i < |es| ==> Producible(es[i])
    ensures TokenList(es, rest) == ListText(WrittenAll(es), rest)
    decreases es, 0
  {
    hide Producible;
    hide Tokens;
    hide Text;
    hide Written;
    var all := WrittenAll(es);
    assert all[0] == Written(es[0]) && all[1..] == WrittenAll(es[1..]);
    if |es| == 1 {
      TokensAre(es[0], rest);
    } else {
      TokenListIs(es[1..], rest);
      TokensAre(es[0], [Comma] + TokenList(es[1..], rest));
    }
  }

  /** The tokens of an expression parse back to it, as one operand. */
  lemma ParseTokens(e: Expr, rest: seq<Token>)
    requires Producible(e) && Stops(rest, PRIMARY)
    ensures PUnary(Tokens(e, rest)) == Ok((e, rest))
  {
    hide PUnary;
    hide Tokens;
    hide Text;
    hide Tree;
    hide Written;
    hide Bracketed;
    hide Producible;
    var ts := Tokens(e, rest);
    WrittenIs(e);
    TokensAre(e, rest);
    Reads(Written(e), PREFIX, rest);
    assert P(PREFIX, ts) == PUnary(ts) && Tail(PREFIX, e, rest) == Ok((e, rest));
  }

  /** Printing and reading back: the text of an expression parses to the same tree, with nothing left over. */
  lemma PrintParse(e: Expr)
    requires Producible(e)
    ensures ParseText(Show(e)) == Ok(e)
  {
    LexWrite(e, [], []);
    WrittenIs(e);
    TokensAre(e, []);
    Reads(Written(e), OR, []);
    TailStops(OR, e, []);
  }

  // ---- everything a parser produces is well formed ----

  predicate TokenOk(t: Token) {
    match t
    case Ident(s) => IsName(s)
    case StrTok(s) => NoQuotes(s)
    case ParamTok(n) => n < USIZE_LIMIT
    case _ => true
  }

  predicate TokensOk(ts: seq<Token>) {
    forall i :: 0 <= i < |ts| ==> TokenOk(ts[i])
  }

  lemma TokenAtOk(s: string)
    requires s != [] && TokenAt(s).Ok?
    ensures TokenOk(TokenAt(s).value.0)
  {
    if IsWordStart(s[0]) {
      WordTokenOk(s[..RunLen(IsWordChar, s)]);
    } else if s[0] == '\'' {
      var n := RunLen(NotQuote, s[1..]);
      var part := s[1..n + 1];
      forall i | 0 <= i < |part| ensures NotQuote(part[i]) {
        assert NotQuote(s[1..][i]);
      }
    }
  }

  lemma WordTokenOk(w: string)
    requires IsWord(w)
    ensures TokenOk(WordToken(w))
  {
    hide OtherKeyword;
    hide TemporalKeyword;
    hide IsWord;
  }

  lemma {:induction false} LexOk(s: string)
    requires Lex(s).Ok?
    ensures TokensOk(Lex(s).value)
    decreases |s|
  {
    hide TokenAt;
    if s != [] {
      if IsSpace(s[0]) {
        LexOk(s[1..]);
      } else {
        TokenAtOk(s);
        LexOk(s[TokenAt(s).value.1..]);
      }
    }
  }

  lemma OkFront(t: Token, rest: seq<Token>)
    ensures TokensOk([t] + rest) <==> TokenOk(t) && TokensOk(rest)
  {
    assert ([t] + rest)[1..] == rest && ([t] + rest)[0] == t;
    if TokensOk([t] + rest) {
      forall i | 0 <= i < |rest| ensures TokenOk(rest[i]) {
        assert TokenOk(([t] + rest)[i + 1]);
      }
    }
  }

  lemma OkMaybe(negated: bool, t: Token, rest: seq<Token>)
    requires TokensOk(Maybe(negated, t, rest))
    ensures TokensOk(rest)
  {
    OkFront(t, rest);
    OkFront(KNot, [t] + rest);
  }

  lemma NowIsName()
    ensures IsName("now")
  {
    assert Ast.Upper("now") == "NOW";
    assert |"NOW"| == 3;
  }

  /** The tree of a form written with the lexer's tokens is well formed. */
  lemma {:induction false} TreeWellFormed(s: Syntax, rest: seq<Token>)
    requires Bracketed(s) && TokensOk(Text(s, rest))
    ensures WellFormed(Tree(s)) && TokensOk(rest)
    decreases s, 1
  {
    hide TokensOk;
    hide IsName;
    match s
    case Atom(t) =>
      OkFront(t, rest);
      NowIsName();
    case Name(q, name) => NameWellFormed(q, name, rest);
    case Apply(f, args) => ApplyWellFormed(s, rest);
    case Paren(inner) =>
      OkFront(LParen, Text(inner, [RParen] + rest));
      TreeWellFormed(inner, [RParen] + rest);
      OkFront(RParen, rest);
    case Prefix(op, arg) =>
      OkFront(PrefixToken(op), Text(arg, rest));
      TreeWellFormed(arg, rest);
    case Infix(left, op, right) =>
      TreeWellFormed(left, [OpToken(op)] + Text(right, rest));
      OkFront(OpToken(op), Text(right, rest));
      TreeWellFormed(right, rest);
    case Nullness(arg, negated) =>
      TreeWellFormed(arg, [KIs] + Maybe(negated, KNull, rest));
      OkFront(KIs, Maybe(negated, KNull, rest));
      OkMaybe(negated, KNull, rest);
    case Among(left, items, negated) => AmongWellFormed(s, rest);
    case Range(left, low, high, negated) => RangeWellFormed(s, rest);
  }

  lemma NameWellFormed(q: Option<string>, name: string, rest: seq<Token>)
    requires TokensOk(Text(Name(q, name), rest))
    ensures WellFormed(Column(q, name)) && TokensOk(rest)
  {
    hide TokensOk;
    hide IsName;
    OkFront(Ident(name), rest);
    if q.Some? {
      OkFront(Dot, [Ident(name)] + rest);
      OkFront(Ident(q.value), [Dot] + ([Ident(name)] + rest));
    }
  }

  lemma {:induction false} ApplyWellFormed(s: Syntax, rest: seq<Token>)
    requires Bracketed(s) && s.Apply? && TokensOk(Text(s, rest))
    ensures WellFormed(Tree(s)) && TokensOk(rest)
    decreases s, 0
  {
    hide TokensOk;
    hide IsName;
    var close := [RParen] + rest;
    OkFront(RParen, rest);
    match s.args
    case AllRows =>
      OkFront(Ident(s.func), [LParen] + ([Asterisk] + close));
      OkFront(LParen, [Asterisk] + close);
      OkFront(Asterisk, close);
    case Each(es) =>
      OkFront(Ident(s.func), [LParen] + ListText(es, close));
      OkFront(LParen, ListText(es, close));
      ListWellFormed(es, close);
  }

  lemma {:induction false} ListWellFormed(es: seq<Syntax>, rest: seq<Token>)
    requires (forall i :: 0 <= i < |es| ==> Bracketed(es[i])) && TokensOk(ListText(es, rest))
    ensures (forall i :: 0 <= i < |es| ==> WellFormed(Trees(es)[i])) && TokensOk(rest)
    decreases es, 2
  {
    hide TokensOk;
    hide WellFormed;
    hide Tree;
    hide Bracketed;
    if es != [] {
      TreeWellFormed(es[0], MoreText(es[1..], rest));
      MoreWellFormed(es[1..], rest);
    }
  }

  lemma {:induction false} MoreWellFormed(es: seq<Syntax>, rest: seq<Token>)
    requires (forall i :: 0 <= i < |es| ==> Bracketed(es[i])) && TokensOk(MoreText(es, rest))
    ensures (forall i :: 0 <= i < |es| ==> WellFormed(Trees(es)[i])) && TokensOk(rest)
    decreases es, 2
  {
    hide TokensOk;
    hide WellFormed;
    hide Tree;
    hide Bracketed;
    if es != [] {
      OkFront(Comma, Text(es[0], MoreText(es[1..], rest)));
      TreeWellFormed(es[0], MoreText(es[1..], rest));
      MoreWellFormed(es[1..], rest);
    }
  }

  lemma {:induction false} AmongWellFormed(s: Syntax, rest: seq<Token>)
    requires Bracketed(s) && s.Among? && TokensOk(Text(s, rest))
    ensures WellFormed(Tree(s)) && TokensOk(rest)
    decreases s, 0
  {
    hide TokensOk;
    hide IsName;
    var close := [RParen] + rest;
    var list := ListText(s.items, close);
    TreeWellFormed(s.left, Maybe(s.negated, KIn, [LParen] + list));
    OkMaybe(s.negated, KIn, [LParen] + list);
    OkFront(LParen, list);
    ListWellFormed(s.items, close);
    OkFront(RParen, rest);
    AnyWellFormed(Tree(s.left), Trees(s.items));
    hide EqualAny;
  }

  lemma {:induction false} AnyWellFormed(l: Expr, items: seq<Expr>)
    requires items != [] && WellFormed(l) && forall i :: 0 <= i < |items| ==> WellFormed(items[i])
    ensures WellFormed(EqualAny(l, items))
  {
    if |items| > 1 {
      AnyWellFormed(l, items[..|items| - 1]);
    }
  }

  lemma {:induction false} RangeWellFormed(s: Syntax, rest: seq<Token>)
    requires Bracketed(s) && s.Range? && TokensOk(Text(s, rest))
    ensures WellFormed(Tree(s)) && TokensOk(rest)
    decreases s, 0
  {
    hide TokensOk;
    hide IsName;
    var high := Text(s.high, rest);
    var low := Text(s.low, [KAnd] + high);
    TreeWellFormed(s.left, Maybe(s.negated, KBetween, low));
    OkMaybe(s.negated, KBetween, low);
    TreeWellFormed(s.low, [KAnd] + high);
    OkFront(KAnd, high);
    TreeWellFormed(s.high, rest);
    var l := Tree(s.left);
    var above, below := Binary(l, Ge, Tree(s.low)), Binary(l, Le, Tree(s.high));
    assert WellFormed(above) && WellFormed(below);
    assert WellFormed(Binary(above, And, below));
  }

  lemma ParsedIsWellFormed(s: string)
    requires ParseText(s).Ok?
    ensures WellFormed(ParseText(s).value)
  {
    LexOk(s);
    var written := OrWritten(Lex(s).value);
    TreeWellFormed(written, []);
  }

  /** Printing and reading back gives the same tree exactly for the trees a parser can produce: no negative
      integers, no quotes inside strings, names that are no keywords, parameters in range. */
  lemma RoundTripsExactly(e: Expr)
    requires NoFloats(e)
    ensures ParseText(Show(e)) == Ok(e) <==> WellFormed(e)
  {
    if WellFormed(e) {
      PrintParse(e);
    } else if ParseText(Show(e)) == Ok(e) {
      ParsedIsWellFormed(Show(e));
    }
  }

  /** Whatever was read from a text survives being printed and read again. */
  lemma ReparsesToItself(s: string)
    requires ParseText(s).Ok? && NoFloats(ParseText(s).value)
    ensures ParseText(Show(ParseText(s).value)) == ParseText(s)
  {
    ParsedIsWellFormed(s);
    PrintParse(ParseText(s).value);
  }
}
