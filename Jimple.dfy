/**
 * The part of the Jimple intermediate representation that the two abstract
 * domains and the program-point numbering inspect.  Units (statements) are
 * identified by their position in the method body.
 */
module Jimple {

  /** A local variable, identified by its name. */
  type Var = string

  /** The declared type of a local, as far as the analysis distinguishes it. */
  datatype LocalType = IntType | LongType | ByteType | ShortType | OtherType

  /** Arithmetic operator symbols of a binary expression; every other symbol is OtherOp. */
  datatype ArithOp = Add | Sub | Mul | Div | OtherOp

  /** The six comparison expressions that guard an `if`. */
  datatype CmpOp = LtExpr | GtExpr | LeExpr | GeExpr | EqExpr | NeExpr

  datatype Value =
    | Local(name: Var)
    | IntConst(n: int)
    | NullConst
      /** A constant of any type but `int` and `null`: `long`, `double`, string or class. */
    | OtherConst
    | NewArray(size: Value)
    | Neg(operand: Value)
    | Binop(op: ArithOp, left: Value, right: Value)
    | ArrayRef(base: Var, index: Value)
      /** An expression no analysis interprets (invocation, cast, length, ...), with the locals it mentions. */
    | OtherExpr(uses: seq<Var>)

  datatype Cond = Cond(op: CmpOp, left: Value, right: Value)

  datatype Stmt =
    | Assign(lhs: Value, rhs: Value)
      /** Binding of a parameter or `this` to a local. */
    | Identity(lhs: Value)
      /** A conditional jump to the unit at position `target`. */
    | If(cond: Cond, target: nat)
      /** Any other statement (invoke, return, goto, ...), with the locals it mentions. */
    | OtherStmt(uses: seq<Var>)

  /** The values held by the value boxes of `v` and of its sub-expressions, `v` first. */
  function Boxes(v: Value): (bs: seq<Value>)
    ensures |bs| > 0 && bs[0] == v
  {
    [v] + match v
          case NewArray(n) => Boxes(n)
          case Neg(a) => Boxes(a)
          case Binop(_, a, b) => Boxes(a) + Boxes(b)
          case ArrayRef(b, i) => [Local(b)] + Boxes(i)
          case OtherExpr(us) => seq(|us|, k requires 0 <= k < |us| => Local(us[k]))
          case _ => []
  }

  /** The values of all use and definition boxes of a statement. */
  function StmtBoxes(s: Stmt): seq<Value> {
    match s
    case Assign(l, r) => Boxes(l) + Boxes(r)
    case Identity(l) => Boxes(l)
    case If(c, _) => Boxes(c.left) + Boxes(c.right)
    case OtherStmt(us) => seq(|us|, k requires 0 <= k < |us| => Local(us[k]))
  }

  // ---------------------------------------------------------------------
  // Concrete meaning of comparisons and integer arithmetic
  // (unbounded integers; Java's 32-bit wrap-around is not modelled)
  // ---------------------------------------------------------------------

  predicate Holds(op: CmpOp, a: int, b: int) {
    match op
    case LtExpr => a < b
    case GtExpr => a > b
    case LeExpr => a <= b
    case GeExpr => a >= b
    case EqExpr => a == b
    case NeExpr => a != b
  }

  function Abs(n: int): nat {
    if n < 0 then -n else n
  }

  /** Java's integer division: the exact quotient truncated toward zero. */
  function JavaDiv(a: int, b: int): int
    requires b != 0
  {
    var q := Abs(a) / Abs(b);
    if (a < 0) == (b < 0) then q else -q
  }

  /** The value of `a op b` on integers; division by zero throws and has no value. */
  function Arith(op: ArithOp, a: int, b: int): int
    requires op != OtherOp && (op == Div ==> b != 0)
  {
    match op
    case Add => a + b
    case Sub => a - b
    case Mul => a * b
    case Div => JavaDiv(a, b)
  }
}
