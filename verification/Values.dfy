/** Runtime values and the evaluator of analyzed expressions. */
module Values {
  import opened Common
  import opened Bytes
  import opened Ast

  datatype Value = Null | Int(i: I32) | Varchar(s: string) | Bool(b: bool) | Double(d: real)

  datatype DataType = TInt | TVarchar | TBool | TDouble | TTimestamp

  type Row = seq<Value>

  datatype ColumnRef = ColumnRef(rte: nat, index: nat, name: string, ty: DataType)

  datatype Analyzed =
    | ALit(lit: Literal)
    | AColumn(col: ColumnRef)
    | ABinary(left: Analyzed, op: BinaryOp, right: Analyzed, ty: DataType)
    | AUnary(uop: UnaryOp, arg: Analyzed, ty: DataType)
    | AIsNull(arg: Analyzed, negated: bool)
    | ANow

  /** Two's complement wrap-around to 32 bits. */
  function Wrap32(x: int): I32 {
    (x + 0x8000_0000) % 0x1_0000_0000 - 0x8000_0000
  }

  function LiteralValue(l: Literal): Value {
    match l
    case Integer(n) => Int(Wrap32(n))
    case Float(x) => Double(x)
    case Str(s) => Varchar(s)
    case Boolean(b) => Bool(b)
    case NullLiteral => Null
  }

  /** A column past the end of the row reads as NULL. */
  function Get(row: Row, index: nat): Value {
    if index < |row| then row[index] else Null
  }

  predicate Before(a: string, b: string) {
    if a == [] then b != []
    else b != [] && (a[0] < b[0] || (a[0] == b[0] && Before(a[1..], b[1..])))
  }

  /** Integer division truncates toward zero. */
  function Quotient(a: int, b: int): int
    requires b != 0
  {
    var q := (if a < 0 then -a else a) / (if b < 0 then -b else b);
    if (a < 0) == (b < 0) then q else -q
  }

  function CompareResult(op: BinaryOp, less: bool, equal: bool): Result<Value> {
    match op
    case Eq => Ok(Bool(equal))
    case Ne => Ok(Bool(!equal))
    case Lt => Ok(Bool(less))
    case Le => Ok(Bool(less || equal))
    case Gt => Ok(Bool(!less && !equal))
    case Ge => Ok(Bool(!less))
    case _ => Err
  }

  /** 32-bit arithmetic wraps around; the one quotient that does not fit stops the query, as does a zero divisor. */
  function IntOp(op: BinaryOp, a: I32, b: I32): Result<Value> {
    match op
    case Add => Ok(Int(Wrap32(a + b)))
    case Sub => Ok(Int(Wrap32(a - b)))
    case Mul => Ok(Int(Wrap32(a * b)))
    case Div => if b == 0 || (a == -0x8000_0000 && b == -1) then Err else Ok(Int(Wrap32(Quotient(a, b))))
    case And => Err
    case Or => Err
    case _ => CompareResult(op, a < b, a == b)
  }

  function DoubleOp(op: BinaryOp, a: real, b: real): Result<Value> {
    match op
    case Add => Ok(Double(a + b))
    case Sub => Ok(Double(a - b))
    case Mul => Ok(Double(a * b))
    case Div => if b == 0.0 then Err else Ok(Double(a / b))
    case And => Err
    case Or => Err
    case _ => CompareResult(op, a < b, a == b)
  }

  function BoolOp(op: BinaryOp, a: bool, b: bool): Result<Value> {
    match op
    case And => Ok(Bool(a && b))
    case Or => Ok(Bool(a || b))
    case Eq => Ok(Bool(a == b))
    case Ne => Ok(Bool(a != b))
    case _ => Err
  }

  /** NULL in, NULL out; an INT meets a DOUBLE as a DOUBLE. */
  function EvalBinary(op: BinaryOp, l: Value, r: Value): Result<Value> {
    match (l, r)
    case (Null, _) => Ok(Null)
    case (_, Null) => Ok(Null)
    case (Int(a), Int(b)) => IntOp(op, a, b)
    case (Int(a), Double(b)) => DoubleOp(op, a as real, b)
    case (Double(a), Int(b)) => DoubleOp(op, a, b as real)
    case (Double(a), Double(b)) => DoubleOp(op, a, b)
    case (Bool(a), Bool(b)) => BoolOp(op, a, b)
    case (Varchar(a), Varchar(b)) => CompareResult(op, Before(a, b), a == b)
    case _ => Err
  }

  function EvalUnary(op: UnaryOp, v: Value): Result<Value> {
    match (op, v)
    case (_, Null) => Ok(Null)
    case (Not, Bool(b)) => Ok(Bool(!b))
    case (Neg, Int(n)) => Ok(Int(Wrap32(0 - n)))
    case _ => Err
  }

  /** A left-over `now()` is an internal error: it is replaced before execution. */
  function Eval(e: Analyzed, row: Row): Result<Value> {
    match e
    case ALit(l) => Ok(LiteralValue(l))
    case AColumn(c) => Ok(Get(row, c.index))
    case ABinary(left, op, right, _) =>
      (match Eval(left, row)
       case Err => Err
       case Ok(a) =>
         match Eval(right, row)
         case Err => Err
         case Ok(b) => EvalBinary(op, a, b))
    case AUnary(op, arg, _) =>
      (match Eval(arg, row)
       case Err => Err
       case Ok(a) => EvalUnary(op, a))
    case AIsNull(arg, negated) =>
      (match Eval(arg, row)
       case Err => Err
       case Ok(a) => Ok(Bool((a == Null) != negated)))
    case ANow => Err
  }

  /** `None` is the type of a NULL literal. */
  function TypeOf(e: Analyzed): Option<DataType> {
    match e
    case ALit(Integer(_)) => Some(TInt)
    case ALit(Float(_)) => Some(TDouble)
    case ALit(Str(_)) => Some(TVarchar)
    case ALit(Boolean(_)) => Some(TBool)
    case ALit(NullLiteral) => None
    case AColumn(c) => Some(c.ty)
    case ABinary(_, _, _, ty) => Some(ty)
    case AUnary(_, _, ty) => Some(ty)
    case AIsNull(_, _) => Some(TBool)
    case ANow => Some(TTimestamp)
  }

  function BinaryType(op: BinaryOp, l: Option<DataType>, r: Option<DataType>): DataType {
    if op.Add? || op.Sub? || op.Mul? || op.Div?
    then if l == Some(TDouble) || r == Some(TDouble) then TDouble else TInt
    else TBool
  }

  function UnaryType(op: UnaryOp): DataType {
    match op
    case Not => TBool
    case Neg => TInt
  }

  /** `None` when two values cannot be compared. */
  function Compare(a: Value, b: Value): Option<int> {
    match (a, b)
    case (Int(x), Int(y)) => Some(Sign(x as real, y as real))
    case (Int(x), Double(y)) => Some(Sign(x as real, y))
    case (Double(x), Int(y)) => Some(Sign(x, y as real))
    case (Double(x), Double(y)) => Some(Sign(x, y))
    case (Bool(x), Bool(y)) => Some(if x == y then 0 else if y then -1 else 1)
    case (Varchar(x), Varchar(y)) => Some(if x == y then 0 else if Before(x, y) then -1 else 1)
    case _ => None
  }

  function Sign(x: real, y: real): int {
    if x < y then -1 else if x == y then 0 else 1
  }
}
