/** What the evaluator computes, in terms of numbers, truth values and text. */
module EvaluatorLaws {
  import opened Common
  import opened Bytes
  import opened Ast
  import opened Values

  predicate IsNumber(v: Value) { v.Int? || v.Double? }

  function NumberOf(v: Value): real
    requires IsNumber(v)
  {
    match v case Int(i) => i as real case Double(d) => d
  }

  /** The six relations between numbers. */
  predicate Relates(op: BinaryOp, x: real, y: real) {
    || (op == Eq && x == y) || (op == Ne && x != y)
    || (op == Lt && x < y) || (op == Le && x <= y)
    || (op == Gt && x > y) || (op == Ge && x >= y)
  }

  predicate Comparison(op: BinaryOp) {
    op in {Eq, Ne, Lt, Le, Gt, Ge}
  }

  /** Numbers compare as numbers, whatever mix of INT and DOUBLE they are. */
  lemma NumbersCompare(op: BinaryOp, l: Value, r: Value)
    requires Comparison(op) && IsNumber(l) && IsNumber(r)
    ensures EvalBinary(op, l, r) == Ok(Bool(Relates(op, NumberOf(l), NumberOf(r))))
  {
  }

  /** `a` is a proper prefix of `b`, or smaller at the first place where they differ. */
  ghost predicate FirstDiffers(a: string, b: string, n: nat) {
    n <= |a| && n < |b| && a[..n] == b[..n] && (n == |a| || a[n] < b[n])
  }

  lemma {:induction false} BeforeExactly(a: string, b: string)
    ensures Before(a, b) <==> exists n: nat :: FirstDiffers(a, b, n)
    decreases |a|
  {
    if a == [] {
      assert b != [] ==> FirstDiffers(a, b, 0);
    } else if b != [] {
      if a[0] == b[0] {
        BeforeExactly(a[1..], b[1..]);
        if n: nat :| FirstDiffers(a[1..], b[1..], n) {
          assert a[..n + 1] == [a[0]] + a[1..][..n] && b[..n + 1] == [b[0]] + b[1..][..n];
          assert FirstDiffers(a, b, n + 1);
        }
        if n: nat :| FirstDiffers(a, b, n) {
          assert n > 0;
          var m := n - 1;
          assert a[1..][..m] == a[..n][1..] && b[1..][..m] == b[..n][1..];
          assert FirstDiffers(a[1..], b[1..], m);
        }
      } else {
        assert a[0] < b[0] ==> FirstDiffers(a, b, 0);
        if n: nat :| FirstDiffers(a, b, n) {
          assert n > 0 ==> a[..n][0] == b[..n][0];
        }
      }
    }
  }

  /** Text compares by the first difference. */
  lemma TextCompares(a: string, b: string)
    ensures EvalBinary(Eq, Varchar(a), Varchar(b)) == Ok(Bool(a == b))
    ensures EvalBinary(Ne, Varchar(a), Varchar(b)) == Ok(Bool(a != b))
    ensures EvalBinary(Lt, Varchar(a), Varchar(b)) == Ok(Bool(exists n: nat :: FirstDiffers(a, b, n)))
    ensures EvalBinary(Gt, Varchar(a), Varchar(b)) == Ok(Bool(exists n: nat :: FirstDiffers(b, a, n)))
    ensures EvalBinary(Le, Varchar(a), Varchar(b)) == Ok(Bool(!exists n: nat :: FirstDiffers(b, a, n)))
    ensures EvalBinary(Ge, Varchar(a), Varchar(b)) == Ok(Bool(!exists n: nat :: FirstDiffers(a, b, n)))
  {
    BeforeExactly(a, b);
    BeforeExactly(b, a);
    Total(a, b);
  }

  lemma {:induction false} Total(a: string, b: string)
    ensures Before(a, b) || a == b || Before(b, a)
    ensures !(Before(a, b) && (Before(b, a) || a == b))
    decreases |a|
  {
    if a != [] && b != [] {
      Total(a[1..], b[1..]);
      if a[0] == b[0] && a[1..] == b[1..] {
        assert a == [a[0]] + a[1..] && b == [b[0]] + b[1..];
      }
    }
  }

  /** The exact result of an operation on integers that is not a division. */
  function Exact(op: BinaryOp, a: int, b: int): int
    requires op.Add? || op.Sub? || op.Mul?
  {
    if op.Add? then a + b else if op.Sub? then a - b else a * b
  }

  /** INT arithmetic is exact up to multiples of 2^32, so exact when the result fits. */
  lemma IntegersCompute(op: BinaryOp, a: I32, b: I32)
    requires op.Add? || op.Sub? || op.Mul?
    ensures var r := EvalBinary(op, Int(a), Int(b)); r.Ok? && r.value.Int? && Congruent(r.value.i, Exact(op, a, b))
    ensures -0x8000_0000 <= Exact(op, a, b) < 0x8000_0000 ==> EvalBinary(op, Int(a), Int(b)) == Ok(Int(Exact(op, a, b)))
  {
    var x := Exact(op, a, b);
    Wraps(x);
    assert EvalBinary(op, Int(a), Int(b)) == Ok(Int(Wrap32(x)));
  }

  /** Equal but for a multiple of 2^32. */
  predicate Congruent(x: int, y: int) { (x - y) % 0x1_0000_0000 == 0 }

  lemma Wraps(x: int)
    ensures Congruent(Wrap32(x), x) && (-0x8000_0000 <= x < 0x8000_0000 ==> Wrap32(x) == x)
  {
  }

  /** An integer quotient truncates toward zero; by zero, and where the quotient does not fit, there is none. */
  lemma IntegersDivide(a: I32, b: I32)
    ensures b == 0 || (a == -0x8000_0000 && b == -1) <==> EvalBinary(Div, Int(a), Int(b)) == Err
    ensures var q := EvalBinary(Div, Int(a), Int(b));
      q.Ok? ==> q.value.Int? && Divides(a, b, q.value.i, a - q.value.i * b)
  {
    if b != 0 && !(a == -0x8000_0000 && b == -1) {
      QuotientDivides(a, b);
      Wraps(Quotient(a, b));
    }
  }

  /** `a` is `b` times `q` and a remainder smaller than `b`, of the sign of `a`. */
  predicate Divides(a: int, b: int, q: int, r: int) {
    a == q * b + r && Abs(r) < Abs(b) && (r == 0 || (r < 0) == (a < 0))
  }

  function Abs(x: int): nat { if x < 0 then -x else x }

  lemma QuotientDivides(a: I32, b: I32)
    requires b != 0
    ensures Divides(a, b, Quotient(a, b), a - Quotient(a, b) * b)
    ensures !(a == -0x8000_0000 && b == -1) ==> -0x8000_0000 <= Quotient(a, b) < 0x8000_0000
  {
    hide Quotient;
    hide Divides;
    hide Signed;
    hide Abs;
    var n, r := QuotientParts(a, b);
    SignedParts(a, b, n, r);
    Assemble(a, b, Signed(a, b, n), n * Abs(b), r);
    if !(a == -0x8000_0000 && b == -1) {
      SignedFits(a, b, n);
    }
  }

  lemma QuotientParts(a: int, b: int) returns (n: nat, r: nat)
    requires b != 0
    ensures Abs(a) == n * Abs(b) + r && r < Abs(b) && Quotient(a, b) == Signed(a, b, n)
    ensures n <= Abs(a) && (Abs(a) > 0 && Abs(b) > 1 ==> n < Abs(a))
  {
    hide Quotient;
    hide Signed;
    n, r := Abs(a) / Abs(b), Abs(a) % Abs(b);
    QuotientIs(a, b, Abs(a), Abs(b));
    Euclid(Abs(a), Abs(b));
    Smaller(Abs(a), Abs(b), n, r);
  }

  lemma Assemble(a: int, b: int, q: int, m: nat, r: nat)
    requires Abs(a) == m + r && r < Abs(b) && q * b == if a < 0 then 0 - m else m
    ensures Divides(a, b, q, a - q * b)
  {
  }

  lemma SignedFits(a: I32, b: I32, n: nat)
    requires b != 0 && n <= Abs(a) && (Abs(a) > 0 && Abs(b) > 1 ==> n < Abs(a)) && !(a == -0x8000_0000 && b == -1)
    ensures -0x8000_0000 <= Signed(a, b, n) < 0x8000_0000
  {
  }

  lemma QuotientIs(a: int, b: int, x: nat, y: nat)
    requires b != 0 && x == Abs(a) && y == Abs(b) && y > 0
    ensures Quotient(a, b) == Signed(a, b, x / y)
  {
  }

  function Signed(a: int, b: int, n: nat): int {
    if (a < 0) == (b < 0) then n else 0 - n as int
  }

  lemma Euclid(x: nat, y: nat)
    requires y > 0
    ensures x == x / y * y + x % y && x % y < y
  {
  }

  lemma {:induction false} Smaller(x: nat, y: nat, n: nat, r: nat)
    requires x == n * y + r && y > 0
    ensures n <= x && (x > 0 && y > 1 ==> n < x)
    decreases n
  {
    if n > 0 {
      assert n * y == (n - 1) * y + y;
      assert (n - 1) * y >= 0;
      Smaller(x - y, y, n - 1, r);
    }
  }

  lemma SignedParts(a: int, b: int, n: nat, r: nat)
    requires Abs(a) == n * Abs(b) + r && r < Abs(b)
    ensures Signed(a, b, n) * b == if a < 0 then 0 - n * Abs(b) else n * Abs(b)
  {
  }

  /** DOUBLE arithmetic is that of the numbers; an INT beside a DOUBLE counts as its number. */
  lemma DoublesCompute(op: BinaryOp, l: Value, r: Value)
    requires IsNumber(l) && IsNumber(r) && (l.Double? || r.Double?)
    ensures EvalBinary(Add, l, r) == Ok(Double(NumberOf(l) + NumberOf(r)))
    ensures EvalBinary(Sub, l, r) == Ok(Double(NumberOf(l) - NumberOf(r)))
    ensures EvalBinary(Mul, l, r) == Ok(Double(NumberOf(l) * NumberOf(r)))
    ensures if NumberOf(r) == 0.0 then EvalBinary(Div, l, r) == Err
      else exists q: real :: EvalBinary(Div, l, r) == Ok(Double(q)) && q * NumberOf(r) == NumberOf(l)
  {
    var x, y := NumberOf(l), NumberOf(r);
    assert EvalBinary(Mul, l, r) == DoubleOp(Mul, x, y);
    if y != 0.0 {
      var q := x / y;
      assert EvalBinary(Div, l, r) == Ok(Double(q)) && q * y == x;
    }
  }

  /** Truth values: AND, OR and NOT by their tables, equality, and no order. */
  lemma TruthTables(a: bool, b: bool)
    ensures EvalBinary(And, Bool(true), Bool(b)) == Ok(Bool(b))
    ensures EvalBinary(And, Bool(false), Bool(b)) == Ok(Bool(false))
    ensures EvalBinary(Or, Bool(true), Bool(b)) == Ok(Bool(true)) && EvalBinary(Or, Bool(false), Bool(b)) == Ok(Bool(b))
    ensures EvalBinary(Eq, Bool(a), Bool(b)) == Ok(Bool(a <==> b))
    ensures EvalBinary(Ne, Bool(a), Bool(b)) == Ok(Bool(a <==> !b))
    ensures EvalUnary(Not, Bool(true)) == Ok(Bool(false)) && EvalUnary(Not, Bool(false)) == Ok(Bool(true))
  {
  }

  /** Negation, which has no meaning for the smallest INT: it gives it back. */
  lemma Negates(n: I32)
    ensures n != -0x8000_0000 ==> EvalUnary(Neg, Int(n)) == Ok(Int(0 - n))
    ensures n == -0x8000_0000 ==> EvalUnary(Neg, Int(n)) == Ok(Int(n))
  {
  }

  /** NULL in, NULL out, even beside a value that decides AND or OR. */
  lemma NullsPass(op: BinaryOp, uop: UnaryOp, v: Value)
    ensures EvalBinary(op, Null, v) == Ok(Null) == EvalBinary(op, v, Null) && EvalUnary(uop, Null) == Ok(Null)
  {
  }

  /** The operands for which an operation is there at all. */
  predicate Fits(op: BinaryOp, l: Value, r: Value) {
    || (IsNumber(l) && IsNumber(r) && !op.And? && !op.Or?)
    || (l.Varchar? && r.Varchar? && Comparison(op))
    || (l.Bool? && r.Bool? && op in {And, Or, Eq, Ne})
  }

  /** The only errors are operands of the wrong kind, a zero divisor and the one quotient that does not fit. */
  lemma FailsExactly(op: BinaryOp, l: Value, r: Value)
    requires l != Null && r != Null
    ensures EvalBinary(op, l, r) == Err <==>
      || !Fits(op, l, r)
      || (op.Div? && NumberOf(r) == 0.0)
      || (op.Div? && l == Int(-0x8000_0000) && r == Int(-1))
  {
  }

  lemma UnaryFailsExactly(op: UnaryOp, v: Value)
    requires v != Null
    ensures EvalUnary(op, v) == Err <==> (op.Not? && !v.Bool?) || (op.Neg? && !v.Int?)
  {
  }

  /** An integer literal that fits is itself, and the others wrap; every other literal is its own value. */
  lemma LiteralsAre(n: I64, s: string, x: real, b: bool)
    ensures -0x8000_0000 <= n < 0x8000_0000 ==> LiteralValue(Integer(n)) == Int(n)
    ensures LiteralValue(Integer(n)).Int? && Congruent(LiteralValue(Integer(n)).i, n)
    ensures LiteralValue(Str(s)) == Varchar(s) && LiteralValue(Float(x)) == Double(x)
    ensures LiteralValue(Boolean(b)) == Bool(b) && LiteralValue(NullLiteral) == Null
  {
    Wraps(n);
  }

  // ---- comparing values for MIN and MAX ----

  /** What the comparison of values says of numbers, truth values and text. */
  lemma CompareExactly(a: Value, b: Value)
    ensures IsNumber(a) && IsNumber(b) ==>
      && (Compare(a, b) == Some(-1) <==> NumberOf(a) < NumberOf(b))
      && (Compare(a, b) == Some(1) <==> NumberOf(a) > NumberOf(b))
      && (Compare(a, b) == Some(0) <==> NumberOf(a) == NumberOf(b))
    ensures a.Varchar? && b.Varchar? ==>
      && (Compare(a, b) == Some(-1) <==> exists n: nat :: FirstDiffers(a.s, b.s, n))
      && (Compare(a, b) == Some(1) <==> exists n: nat :: FirstDiffers(b.s, a.s, n))
      && (Compare(a, b) == Some(0) <==> a.s == b.s)
    ensures a.Bool? && b.Bool? ==>
      && (Compare(a, b) == Some(-1) <==> !a.b && b.b)
      && (Compare(a, b) == Some(1) <==> a.b && !b.b)
      && (Compare(a, b) == Some(0) <==> a.b == b.b)
    ensures Compare(a, b) == None <==>
      !((IsNumber(a) && IsNumber(b)) || (a.Varchar? && b.Varchar?) || (a.Bool? && b.Bool?))
  {
    if a.Varchar? && b.Varchar? {
      BeforeExactly(a.s, b.s);
      BeforeExactly(b.s, a.s);
      Total(a.s, b.s);
    }
  }
}
