/** SQL expressions as the parser builds them. Temporal literals are not part of this model. */
module Ast {
  import opened Common
  import opened Bytes

  datatype Literal = Integer(n: I64) | Float(x: real) | Str(s: string) | Boolean(b: bool) | NullLiteral

  datatype BinaryOp = Eq | Ne | Lt | Le | Gt | Ge | And | Or | Add | Sub | Mul | Div

  datatype UnaryOp = Not | Neg

  datatype Expr =
    | Lit(lit: Literal)
    | Column(qualifier: Option<string>, name: string)
    | Binary(left: Expr, op: BinaryOp, right: Expr)
    | Unary(uop: UnaryOp, arg: Expr)
    | IsNull(arg: Expr, negated: bool)
    | Call(func: string, args: Args)
    | Param(index: nat)

  datatype Args = Star | Exprs(es: seq<Expr>)

  function UpperChar(c: char): char {
    if 'a' <= c <= 'z' then (c as int - 32) as char else c
  }

  /** ASCII upper case. */
  function Upper(s: string): (u: string)
    ensures |u| == |s|
  {
    seq(|s|, i requires 0 <= i < |s| => UpperChar(s[i]))
  }
}
