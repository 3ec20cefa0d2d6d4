/**
 * The integer interval domain of the array-bounds analysis: each tracked
 * integer local is mapped to [lower, upper], with infinite bounds allowed,
 * and the element as a whole may be bottom (an unreachable program point).
 *
 * The analysis-wide window [lowerBound, upperBound], two static fields in
 * the original class, is passed to every operation as `lo` and `hi`.
 */
module Intervals {
  import opened Jimple
  import opened ExtNum

  /** An interval at rest: integer or infinite endpoints. */
  datatype Itv = Itv(lo: Bound, hi: Bound)

  /** An interval as computed in floats, before the constructor normalises it. */
  datatype RawItv = RawItv(lo: XReal, hi: XReal)

  datatype IElem = Bot | Elem(m: map<Var, Itv>)

  const Top: Itv := Itv(NegInf, PosInf)
  const RawTop: RawItv := RawItv(XNegInf, XPosInf)

  function Raw(i: Itv): RawItv {
    RawItv(Embed(i.lo), Embed(i.hi))
  }

  function RawMap(m: map<Var, Itv>): (r: map<Var, RawItv>)
    ensures r.Keys == m.Keys
    ensures forall v :: v in m ==> r[v] == Raw(m[v])
  {
    map v | v in m :: Raw(m[v])
  }

  function Point(c: int): RawItv {
    RawItv(XFin(c as real), XFin(c as real))
  }

  // ---------------------------------------------------------------------
  // Meaning of an element: the integer valuations it admits
  // ---------------------------------------------------------------------

  predicate Contains(i: Itv, n: int) {
    AtLeast(i.lo, n) && AtMost(i.hi, n)
  }

  /** An interval holding at least one integer. */
  predicate NonEmpty(i: Itv) {
    Le(i.lo, i.hi) && i.lo != PosInf && i.hi != NegInf
  }

  predicate RawContains(i: RawItv, n: int) {
    XContains(i.lo, i.hi, n)
  }

  /** The valuation `env` of integer locals lies in a non-bottom element. */
  predicate Admits(e: IElem, env: map<Var, int>) {
    e.Elem? && forall v :: v in e.m ==> v in env && Contains(e.m[v], env[v])
  }

  predicate RawAdmits(m: map<Var, RawItv>, env: map<Var, int>) {
    forall v :: v in m ==> v in env && RawContains(m[v], env[v])
  }

  /** An interval as the constructor leaves it: non-empty, finite bounds inside the window. */
  predicate InWindow(i: Itv, lo: Bound, hi: Bound) {
    Le(i.lo, i.hi) && (i.lo.NegInf? || Le(lo, i.lo)) && (i.hi.PosInf? || Le(i.hi, hi))
  }

  /** Every element the constructor can produce satisfies this. */
  predicate Valid(e: IElem, lo: Bound, hi: Bound) {
    e.Bot? || (Le(lo, hi) && forall v :: v in e.m ==> InWindow(e.m[v], lo, hi))
  }

  // ---------------------------------------------------------------------
  // Constructor: three normalisation steps
  // ---------------------------------------------------------------------

  /** Step 1 test: lower > upper, compared as floats. */
  predicate Inverted(i: RawItv) {
    XLt(i.hi, i.lo)
  }

  /** Step 2: lower rounded up, upper rounded down. */
  function Rounded(i: RawItv): RawItv {
    RawItv(XCeil(i.lo), XFloor(i.hi))
  }

  /** A rounded, non-NaN float as an at-rest bound. */
  function AsBound(x: XReal): Bound {
    match x
    case XNegInf => NegInf
    case XFin(r) => Fin(r.Floor)
    case XPosInf => PosInf
    case NaN => NegInf
  }

  /** Step 3: a lower bound that is not >= lowerBound (NaN included) becomes -inf. */
  function WidenLower(x: XReal, lo: Bound): Bound {
    if XLe(Embed(lo), x) then AsBound(x) else NegInf
  }

  /** Step 3: an upper bound that is not <= upperBound (NaN included) becomes +inf. */
  function WidenUpper(x: XReal, hi: Bound): Bound {
    if XLe(x, Embed(hi)) then AsBound(x) else PosInf
  }

  function Widened(i: RawItv, lo: Bound, hi: Bound): Itv {
    Itv(WidenLower(i.lo, lo), WidenUpper(i.hi, hi))
  }

  lemma {:induction false} WidenedInWindow(i: RawItv, lo: Bound, hi: Bound)
    requires !Inverted(Rounded(i)) && Le(lo, hi)
    ensures InWindow(Widened(Rounded(i), lo, hi), lo, hi)
  {
    var r := Rounded(i);
    var c := Widened(r, lo, hi);
    if XLe(Embed(lo), r.lo) && XLe(r.hi, Embed(hi)) {
      assert XLe(r.lo, r.hi);
      if r.lo.XFin? && r.hi.XFin? {
        assert r.lo.r.Floor as real == r.lo.r;
        assert r.hi.r.Floor as real == r.hi.r;
      }
    }
    if XLe(Embed(lo), r.lo) && r.lo.XFin? {
      assert r.lo.r.Floor as real == r.lo.r;
    }
    if XLe(r.hi, Embed(hi)) && r.hi.XFin? {
      assert r.hi.r.Floor as real == r.hi.r;
    }
  }

  /**
   * The element `new IntervalElement(given)` builds under the window
   * [lo, hi]: bottom if some interval is inverted, before or after rounding,
   * or if the window itself is inverted; otherwise every interval rounded
   * inward, with each bound outside the window widened to infinity.
   */
  function Normalize(given: map<Var, RawItv>, lo: Bound, hi: Bound): (r: IElem)
    ensures Valid(r, lo, hi)
    ensures r.Elem? ==> r.m.Keys == given.Keys
    ensures Lt(hi, lo) ==> r == Bot
  {
    if exists v :: v in given && Inverted(given[v]) then Bot
    else if exists v :: v in given && Inverted(Rounded(given[v])) then Bot
    else if Lt(hi, lo) then Bot
    else
      var m := map v | v in given :: Widened(Rounded(given[v]), lo, hi);
      assert forall v :: v in m ==> InWindow(m[v], lo, hi) by {
        forall v | v in m ensures InWindow(m[v], lo, hi) {
          WidenedInWindow(given[v], lo, hi);
        }
      }
      Elem(m)
  }

  /**
   * The constructor as the source runs it: a loop rejecting inverted
   * intervals, a loop rounding each interval, the window check, and a loop
   * widening each bound outside the window to infinity.
   */
  method NewIntervalElement(given: map<Var, RawItv>, lo: Bound, hi: Bound) returns (e: IElem)
    ensures e == Normalize(given, lo, hi)
  {
    var ordered := CheckOrdered(given);
    if !ordered {
      return Bot;
    }
    var nonEmpty, m := RoundInward(given);
    if !nonEmpty {
      return Bot;
    }
    if Lt(hi, lo) {
      return Bot;
    }
    var result := WidenOutsideWindow(m, lo, hi);
    NormalizeIsWidened(given, lo, hi, result);
    return Elem(result);
  }

  lemma {:induction false} NormalizeIsWidened(given: map<Var, RawItv>, lo: Bound, hi: Bound, result: map<Var, Itv>)
    requires !(exists v :: v in given && Inverted(given[v]))
    requires !(exists v :: v in given && Inverted(Rounded(given[v])))
    requires !Lt(hi, lo)
    requires result.Keys == given.Keys && forall v :: v in given ==> result[v] == Widened(Rounded(given[v]), lo, hi)
    ensures Normalize(given, lo, hi) == Elem(result)
  {
    assert result == map v | v in given :: Widened(Rounded(given[v]), lo, hi);
  }

  /** The constructor's first loop: no interval has lower > upper. */
  method CheckOrdered(given: map<Var, RawItv>) returns (ok: bool)
    ensures ok <==> !(exists v :: v in given && Inverted(given[v]))
  {
    var keys := given.Keys;
    while keys != {}
      invariant keys <= given.Keys
      invariant forall v :: v in given && v !in keys ==> !Inverted(given[v])
      decreases keys
    {
      var v :| v in keys;
      if Inverted(given[v]) {
        return false;
      }
      keys := keys - {v};
    }
    return true;
  }

  /** The constructor's second loop: round each interval inward, stopping at the first that empties. */
  method RoundInward(given: map<Var, RawItv>) returns (ok: bool, m: map<Var, RawItv>)
    ensures ok <==> !(exists v :: v in given && Inverted(Rounded(given[v])))
    ensures ok ==> m.Keys == given.Keys && forall v :: v in given ==> m[v] == Rounded(given[v])
  {
    m := given;
    var keys := given.Keys;
    while keys != {}
      invariant keys <= given.Keys && m.Keys == given.Keys
      invariant forall v :: v in given && v !in keys ==> m[v] == Rounded(given[v]) && !Inverted(m[v])
      invariant forall v :: v in keys ==> m[v] == given[v]
      decreases keys
    {
      var v :| v in keys;
      var rounded := Rounded(m[v]);
      if Inverted(rounded) {
        return false, m;
      }
      m := m[v := rounded];
      keys := keys - {v};
    }
    return true, m;
  }

  /** The constructor's last loop: a bound outside the window becomes -inf or +inf. */
  method WidenOutsideWindow(m: map<Var, RawItv>, lo: Bound, hi: Bound) returns (result: map<Var, Itv>)
    ensures result.Keys == m.Keys && forall v :: v in m ==> result[v] == Widened(m[v], lo, hi)
  {
    result := map[];
    var keys := m.Keys;
    while keys != {}
      invariant keys <= m.Keys
      invariant result.Keys == m.Keys - keys
      invariant forall v :: v in result ==> result[v] == Widened(m[v], lo, hi)
      decreases keys
    {
      var v :| v in keys;
      result := result[v := Widened(m[v], lo, hi)];
      keys := keys - {v};
    }
  }

  /** `clone()` rebuilds the element through the constructor. */
  function Clone(e: IElem, lo: Bound, hi: Bound): IElem {
    if e.Bot? then Bot else Normalize(RawMap(e.m), lo, hi)
  }

  /** `equals`: two bottoms are equal, bottom differs from every map, maps compare entrywise. */
  function Equal(a: IElem, b: IElem): (r: bool)
    ensures r <==> a == b
  {
    if a.Bot? && b.Bot? then true
    else if a.Bot? || b.Bot? then false
    else a.m == b.m
  }

  // ---------------------------------------------------------------------
  // Join
  // ---------------------------------------------------------------------

  function Hull(a: Itv, b: Itv): Itv {
    Itv(Min(a.lo, b.lo), Max(a.hi, b.hi))
  }

  /**
   * `join`: bottom is the identity; otherwise each local of the left
   * operand gets the hull of both intervals, rebuilt by the constructor.
   * The source reads the right operand's interval for every local of the
   * left one, so the left operand's locals must all be tracked on the right.
   */
  function Join(a: IElem, b: IElem, lo: Bound, hi: Bound): (r: IElem)
    requires a.Elem? && b.Elem? ==> a.m.Keys <= b.m.Keys
    ensures a.Bot? ==> r == b
    ensures a.Elem? && b.Bot? ==> r == a
    ensures a.Elem? && b.Elem? ==> Valid(r, lo, hi)
  {
    if a.Bot? then b
    else if b.Bot? then a
    else Normalize(map v | v in a.m :: Raw(Hull(a.m[v], b.m[v])), lo, hi)
  }

  /** `join` as the source runs it: a loop filling a hulls map, then the constructor. */
  method JoinElements(a: IElem, b: IElem, lo: Bound, hi: Bound) returns (r: IElem)
    requires a.Elem? && b.Elem? ==> a.m.Keys <= b.m.Keys
    ensures r == Join(a, b, lo, hi)
  {
    if a.Bot? {
      return b;
    }
    if b.Bot? {
      return a;
    }
    var hulls: map<Var, RawItv> := map[];
    var keys := a.m.Keys;
    while keys != {}
      invariant keys <= a.m.Keys
      invariant hulls.Keys == a.m.Keys - keys
      invariant forall v :: v in hulls ==> hulls[v] == Raw(Hull(a.m[v], b.m[v]))
      decreases keys
    {
      var v :| v in keys;
      var newLower := Min(a.m[v].lo, b.m[v].lo);
      var newUpper := Max(a.m[v].hi, b.m[v].hi);
      hulls := hulls[v := RawItv(Embed(newLower), Embed(newUpper))];
      keys := keys - {v};
    }
    assert hulls == map v | v in a.m :: Raw(Hull(a.m[v], b.m[v]));
    r := NewIntervalElement(hulls, lo, hi);
  }

  // ---------------------------------------------------------------------
  // Interval arithmetic
  // ---------------------------------------------------------------------

  /** Outcome of `getIntervalFromBinOp`: an interval, or one of its two exceptions. */
  datatype ArithResult = Value(itv: RawItv) | DivisionByZero | InvalidOperator

  function Hull4(p1: XReal, p2: XReal, p3: XReal, p4: XReal): RawItv {
    RawItv(XMin(XMin(p1, p2), XMin(p3, p4)), XMax(XMax(p1, p2), XMax(p3, p4)))
  }

  function Hull8(p1: XReal, p2: XReal, p3: XReal, p4: XReal,
                 p5: XReal, p6: XReal, p7: XReal, p8: XReal): RawItv {
    RawItv(XMin(XMin(XMin(p1, p2), XMin(p3, p4)), XMin(XMin(p5, p6), XMin(p7, p8))),
           XMax(XMax(XMax(p1, p2), XMax(p3, p4)), XMax(XMax(p5, p6), XMax(p7, p8))))
  }

  /**
   * `getIntervalFromBinOp` exactly as written: endpoint sums and
   * differences, the hull of the corner products, and for division the hull
   * of the exact corner quotients, with +-1 standing in for a zero endpoint
   * of the divisor.  The quotients are left unrounded, so the constructor
   * later rounds them inward (see `BinOp` for the truncating version).
   */
  function BinOpAsWritten(op: ArithOp, i1: Itv, i2: Itv): (r: ArithResult)
    ensures r.DivisionByZero? <==> op == Div && i2 == Itv(Fin(0), Fin(0))
    ensures r.InvalidOperator? <==> op == OtherOp
  {
    var l1, u1, l2, u2 := Embed(i1.lo), Embed(i1.hi), Embed(i2.lo), Embed(i2.hi);
    var one, minusOne := XFin(1.0), XFin(-1.0);
    match op
    case Add => Value(RawItv(XAdd(l1, l2), XAdd(u1, u2)))
    case Sub => Value(RawItv(XSub(l1, u2), XSub(u1, l2)))
    case Mul => Value(Hull4(XMul(l1, l2), XMul(l1, u2), XMul(u1, l2), XMul(u1, u2)))
    case Div =>
      if i2.lo == Fin(0) && i2.hi == Fin(0) then DivisionByZero
      else if i2.lo == Fin(0) then
        Value(Hull4(XDiv(l1, u2), XDiv(u1, u2), XDiv(l1, one), XDiv(u1, one)))
      else if i2.hi == Fin(0) then
        Value(Hull4(XDiv(l1, l2), XDiv(u1, l2), XDiv(l1, minusOne), XDiv(u1, minusOne)))
      else if Lt(i2.lo, Fin(0)) && Lt(Fin(0), i2.hi) then
        Value(Hull8(XDiv(l1, l2), XDiv(u1, l2), XDiv(l1, u2), XDiv(u1, u2),
                    XDiv(l1, minusOne), XDiv(u1, minusOne), XDiv(l1, one), XDiv(u1, one)))
      else
        Value(Hull4(XDiv(l1, l2), XDiv(u1, l2), XDiv(l1, u2), XDiv(u1, u2)))
    case OtherOp => InvalidOperator
  }

  /**
   * Interval arithmetic as the analysis evidently intends it: as written,
   * except that the bounds of a quotient are truncated toward zero, Java's
   * rounding for integer division, so that every concrete quotient stays
   * inside the result.
   */
  function BinOp(op: ArithOp, i1: Itv, i2: Itv): (r: ArithResult)
    ensures r.DivisionByZero? <==> op == Div && i2 == Itv(Fin(0), Fin(0))
    ensures r.InvalidOperator? <==> op == OtherOp
    ensures op != Div ==> r == BinOpAsWritten(op, i1, i2)
  {
    var w := BinOpAsWritten(op, i1, i2);
    if op == Div && w.Value? then Value(RawItv(XTrunc(w.itv.lo), XTrunc(w.itv.hi))) else w
  }

  // ---------------------------------------------------------------------
  // Narrowing on comparisons
  // ---------------------------------------------------------------------

  /** Outcome of `getIntervalsAfterComparison`: both operands narrowed, or the branch is unreachable. */
  datatype CmpResult = Narrowed(first: Itv, second: Itv) | Unreachable

  function Swap(r: CmpResult): CmpResult {
    if r.Narrowed? then Narrowed(r.second, r.first) else Unreachable
  }

  /**
   * `getIntervalsAfterComparison` as the analysis evidently intends it.
   * For `!=` the source compares boxed `Float` endpoints with `==`, which
   * tests object identity; `CompareAsWritten` models that.  Here the
   * endpoints are compared by value.
   */
  function Compare(op: CmpOp, i1: Itv, i2: Itv): (r: CmpResult)
    decreases op.GtExpr? || op.GeExpr?
    ensures r.Narrowed? ==> Le(i1.lo, r.first.lo) && Le(r.first.hi, i1.hi)
    ensures r.Narrowed? ==> Le(i2.lo, r.second.lo) && Le(r.second.hi, i2.hi)
  {
    match op
    case LtExpr =>
      if Le(i2.hi, i1.lo) then Unreachable
      else Narrowed(Itv(i1.lo, Min(i1.hi, Pred(i2.hi))), Itv(Max(Succ(i1.lo), i2.lo), i2.hi))
    case GtExpr => Swap(Compare(LtExpr, i2, i1))
    case LeExpr =>
      if Lt(i2.hi, i1.lo) then Unreachable
      else Narrowed(Itv(i1.lo, Min(i1.hi, i2.hi)), Itv(Max(i1.lo, i2.lo), i2.hi))
    case GeExpr => Swap(Compare(LeExpr, i2, i1))
    case EqExpr =>
      if Lt(i2.hi, i1.lo) || Lt(i1.hi, i2.lo) then Unreachable
      else
        var meet := Itv(Max(i1.lo, i2.lo), Min(i1.hi, i2.hi));
        Narrowed(meet, meet)
    case NeExpr =>
      if i1.lo == i2.lo && i1.hi == i2.hi && i1.lo == i1.hi then Unreachable
      else if i1.lo == i1.hi && i1.lo == i2.lo then Narrowed(i1, Itv(Succ(i2.lo), i2.hi))
      else if i1.lo == i1.hi && i1.lo == i2.hi then Narrowed(i1, Itv(i2.lo, Pred(i2.hi)))
      else if i2.lo == i2.hi && i2.lo == i1.lo then Narrowed(Itv(Succ(i1.lo), i1.hi), i2)
      else if i2.lo == i2.hi && i2.lo == i1.hi then Narrowed(Itv(i1.lo, Pred(i1.hi)), i2)
      else Narrowed(i1, i2)
  }

  /**
   * `getIntervalsAfterComparison` as written.  In the `!=` case every test
   * that would narrow, or find the branch unreachable, compares the lower
   * and the upper endpoint of one interval with `==` on `Float` objects,
   * that is by identity.  The two endpoints of every interval reaching it
   * were boxed separately: the constructor stores each interval as a new
   * pair of two boxed floats, and a constant operand becomes a new pair
   * boxing the constant twice.  So those tests never hold, even for
   * `x != x`, and `!=` never narrows.
   */
  function CompareAsWritten(op: CmpOp, i1: Itv, i2: Itv): (r: CmpResult)
    ensures op == NeExpr ==> r == Narrowed(i1, i2)
    ensures op != NeExpr ==> r == Compare(op, i1, i2)
  {
    if op == NeExpr then Narrowed(i1, i2) else Compare(op, i1, i2)
  }

  // ---------------------------------------------------------------------
  // Transfer function
  // ---------------------------------------------------------------------

  /**
   * Which version of the two helpers the transfer function uses: the code
   * as written (`BinOpAsWritten`, `CompareAsWritten`), or the intended one
   * with truncating division and `!=` comparing endpoint values (`BinOp`,
   * `Compare`).  The methods below run the code as written; the soundness
   * results hold for the intended version.
   */
  datatype Reading = AsWritten | Intended

  function ArithIn(rd: Reading, op: ArithOp, i1: Itv, i2: Itv): ArithResult {
    if rd.AsWritten? then BinOpAsWritten(op, i1, i2) else BinOp(op, i1, i2)
  }

  function CompareIn(rd: Reading, op: CmpOp, i1: Itv, i2: Itv): CmpResult {
    if rd.AsWritten? then CompareAsWritten(op, i1, i2) else Compare(op, i1, i2)
  }

  /** The operator that holds on a branch: the condition's own on the true edge, its negation otherwise. */
  function BranchOp(op: CmpOp, isTrueBranch: bool): CmpOp {
    if isTrueBranch then op
    else match op
      case LtExpr => GeExpr
      case GtExpr => LeExpr
      case LeExpr => GtExpr
      case GeExpr => LtExpr
      case EqExpr => NeExpr
      case NeExpr => EqExpr
  }

  /** The interval a constant stands for when it is the right operand of `op`. */
  function ConstRight(op: CmpOp, c: int): Itv {
    if op == LtExpr || op == LeExpr then Itv(NegInf, Fin(c))
    else if op == GtExpr || op == GeExpr then Itv(Fin(c), PosInf)
    else Itv(Fin(c), Fin(c))
  }

  /** The interval a constant stands for when it is the left operand of `op`. */
  function ConstLeft(op: CmpOp, c: int): Itv {
    if op == LtExpr || op == LeExpr then Itv(Fin(c), PosInf)
    else if op == GtExpr || op == GeExpr then Itv(NegInf, Fin(c))
    else Itv(Fin(c), Fin(c))
  }

  /**
   * A constant `getValueFromConstant` rejects with an exception: it converts
   * only `int` (and `float`) constants, so `null`, `long`, `double`, string
   * and class constants all fail.
   */
  predicate Unconvertible(v: Value) {
    v.NullConst? || v.OtherConst?
  }

  /** A local next to a constant `getValueFromConstant` rejects, on either side. */
  predicate ConstFails(a: Value, b: Value) {
    (a.Local? && Unconvertible(b)) || (Unconvertible(a) && b.Local?)
  }

  /**
   * The inputs on which `tf_assignment` throws: a binary expression assigned
   * to a tracked local, or any guard, that pairs a local with a constant
   * `getValueFromConstant` rejects reaches that call outside every `try`.
   */
  predicate Throws(e: IElem, s: Stmt) {
    e.Elem? &&
    match s
    case Assign(Local(x), Binop(_, a, b)) => x in e.m && ConstFails(a, b)
    case If(c, _) => ConstFails(c.left, c.right)
    case _ => false
  }

  /** What an assignment does to its tracked target. */
  datatype Update = Keep | Put(itv: RawItv) | ToBot

  function FromArith(r: ArithResult): Update {
    match r
    case Value(i) => Put(i)
    case DivisionByZero => ToBot
    case InvalidOperator => Put(RawTop)
  }

  /** The new interval of a tracked target of `x = rhs`, before normalisation. */
  function RhsUpdate(rd: Reading, m: map<Var, Itv>, rhs: Value): Update
    requires !(rhs.Binop? && ConstFails(rhs.left, rhs.right))
  {
    match rhs
    case IntConst(c) => Put(Point(c))
    case Local(y) => Put(if y in m then Raw(m[y]) else RawTop)
    case Neg(Local(y)) =>
      Put(if y in m then RawItv(XNeg(Embed(m[y].hi)), XNeg(Embed(m[y].lo))) else RawTop)
    case Binop(op, a, b) =>
      if a.Local? && b.Local? then
        (if a.name in m && b.name in m then FromArith(ArithIn(rd, op, m[a.name], m[b.name])) else Put(RawTop))
      else if a.Local? && b.IntConst? then
        (if a.name in m then FromArith(ArithIn(rd, op, m[a.name], Itv(Fin(b.n), Fin(b.n)))) else Put(RawTop))
      else if a.IntConst? && b.Local? then
        (if b.name in m then FromArith(ArithIn(rd, op, Itv(Fin(a.n), Fin(a.n)), m[b.name])) else Put(RawTop))
      else Keep
    case _ => Keep
  }

  /** Assignment to a tracked local `x`: update it, check it, rebuild through the constructor. */
  function AssignTracked(rd: Reading, m: map<Var, Itv>, x: Var, rhs: Value, lo: Bound, hi: Bound): IElem
    requires x in m
    requires !(rhs.Binop? && ConstFails(rhs.left, rhs.right))
  {
    match RhsUpdate(rd, m, rhs)
    case ToBot => Bot
    case Keep => Normalize(RawMap(m), lo, hi)
    case Put(i) => if Inverted(i) then Bot else Normalize(RawMap(m)[x := i], lo, hi)
  }

  /** The sanity check after a guard, then the constructor. */
  function Finish(m: map<Var, Itv>, lo: Bound, hi: Bound): IElem {
    if exists v :: v in m && Lt(m[v].hi, m[v].lo) then Bot else Normalize(RawMap(m), lo, hi)
  }

  /** A guard `left op right` on the edge where `op` holds. */
  function Guard(rd: Reading, m: map<Var, Itv>, op: CmpOp, left: Value, right: Value, lo: Bound, hi: Bound): IElem
    requires !ConstFails(left, right)
  {
    if left.Local? && right.IntConst? then
      if left.name in m then
        match CompareIn(rd, op, m[left.name], ConstRight(op, right.n))
        case Unreachable => Bot
        case Narrowed(f, _) => Finish(m[left.name := f], lo, hi)
      else Finish(m, lo, hi)
    else if left.IntConst? && right.Local? then
      if right.name in m then
        match CompareIn(rd, op, ConstLeft(op, left.n), m[right.name])
        case Unreachable => Bot
        case Narrowed(_, s) => Finish(m[right.name := s], lo, hi)
      else Finish(m, lo, hi)
    else if left.Local? && right.Local? && left.name in m && right.name in m then
      match CompareIn(rd, op, m[left.name], m[right.name])
      case Unreachable => Bot
      case Narrowed(f, s) => Finish(m[left.name := f][right.name := s], lo, hi)
    else Finish(m, lo, hi)
  }

  /**
   * `tf_assignment(stmt, isTrueBranch)`: bottom stays bottom; an assignment
   * to a tracked local updates it; a guard narrows its operands with the
   * operator that holds on the branch; an identity statement sets its local
   * to [-inf, +inf]; anything else is a clone.  `rd` selects the version of
   * the arithmetic and comparison helpers.
   */
  function Transfer(rd: Reading, e: IElem, s: Stmt, isTrueBranch: bool, lo: Bound, hi: Bound): (r: IElem)
    requires !Throws(e, s)
    ensures Valid(r, lo, hi)
    ensures e.Bot? ==> r == Bot
  {
    if e.Bot? then Bot
    else match s
      case Assign(lhs, rhs) =>
        if lhs.Local? && lhs.name in e.m then AssignTracked(rd, e.m, lhs.name, rhs, lo, hi)
        else Clone(e, lo, hi)
      case If(c, _) => Guard(rd, e.m, BranchOp(c.op, isTrueBranch), c.left, c.right, lo, hi)
      case Identity(lhs) =>
        if lhs.Local? then Normalize(RawMap(e.m)[lhs.name := RawTop], lo, hi) else Clone(e, lo, hi)
      case OtherStmt(_) => Clone(e, lo, hi)
  }

  /** The assignment case of `tf_assignment` for a tracked target, as written: copy, put, check, construct. */
  method AssignLocal(m: map<Var, Itv>, x: Var, rhs: Value, lo: Bound, hi: Bound) returns (r: IElem)
    requires x in m
    requires !(rhs.Binop? && ConstFails(rhs.left, rhs.right))
    ensures r == AssignTracked(AsWritten, m, x, rhs, lo, hi)
  {
    var newMap := RawMap(m);
    match RhsUpdate(AsWritten, m, rhs) {
      case ToBot =>
        return Bot;
      case Keep =>
      case Put(i) =>
        newMap := newMap[x := i];
    }
    if Inverted(newMap[x]) {
      return Bot;
    }
    r := NewIntervalElement(newMap, lo, hi);
  }

  /** The sanity loop after a guard: bottom if any interval is inverted, else the constructor. */
  method CheckAndBuild(m: map<Var, Itv>, lo: Bound, hi: Bound) returns (r: IElem)
    ensures r == Finish(m, lo, hi)
  {
    var keys := m.Keys;
    while keys != {}
      invariant keys <= m.Keys
      invariant forall v :: v in m && v !in keys ==> !Lt(m[v].hi, m[v].lo)
      decreases keys
    {
      var v :| v in keys;
      if Lt(m[v].hi, m[v].lo) {
        return Bot;
      }
      keys := keys - {v};
    }
    r := NewIntervalElement(RawMap(m), lo, hi);
  }

  /** The guard case of `tf_assignment`, as written: narrow the tracked operands, then check and construct. */
  method NarrowOnGuard(m: map<Var, Itv>, op: CmpOp, left: Value, right: Value, lo: Bound, hi: Bound) returns (r: IElem)
    requires !ConstFails(left, right)
    ensures r == Guard(AsWritten, m, op, left, right, lo, hi)
  {
    if left.Local? && right.IntConst? && left.name in m {
      var narrowed := CompareAsWritten(op, m[left.name], ConstRight(op, right.n));
      if narrowed.Unreachable? {
        return Bot;
      }
      assert Guard(AsWritten, m, op, left, right, lo, hi) == Finish(m[left.name := narrowed.first], lo, hi);
      r := CheckAndBuild(m[left.name := narrowed.first], lo, hi);
    } else if left.IntConst? && right.Local? && right.name in m {
      var narrowed := CompareAsWritten(op, ConstLeft(op, left.n), m[right.name]);
      if narrowed.Unreachable? {
        return Bot;
      }
      assert Guard(AsWritten, m, op, left, right, lo, hi) == Finish(m[right.name := narrowed.second], lo, hi);
      r := CheckAndBuild(m[right.name := narrowed.second], lo, hi);
    } else if left.Local? && right.Local? && left.name in m && right.name in m {
      var narrowed := CompareAsWritten(op, m[left.name], m[right.name]);
      if narrowed.Unreachable? {
        return Bot;
      }
      assert Guard(AsWritten, m, op, left, right, lo, hi) == Finish(m[left.name := narrowed.first][right.name := narrowed.second], lo, hi);
      r := CheckAndBuild(m[left.name := narrowed.first][right.name := narrowed.second], lo, hi);
    } else {
      assert Guard(AsWritten, m, op, left, right, lo, hi) == Finish(m, lo, hi);
      r := CheckAndBuild(m, lo, hi);
    }
  }

  /** `tf_assignment` as the source runs it, dispatching on the statement; it computes the as-written version. */
  method TfAssignment(e: IElem, s: Stmt, isTrueBranch: bool, lo: Bound, hi: Bound) returns (r: IElem)
    requires !Throws(e, s)
    ensures r == Transfer(AsWritten, e, s, isTrueBranch, lo, hi)
  {
    if e.Bot? {
      return Bot;
    }
    match s {
      case Assign(lhs, rhs) =>
        if lhs.Local? && lhs.name in e.m {
          r := AssignLocal(e.m, lhs.name, rhs, lo, hi);
        } else {
          r := NewIntervalElement(RawMap(e.m), lo, hi);
        }
      case If(c, _) =>
        r := NarrowOnGuard(e.m, BranchOp(c.op, isTrueBranch), c.left, c.right, lo, hi);
      case Identity(lhs) =>
        if lhs.Local? {
          r := NewIntervalElement(RawMap(e.m)[lhs.name := RawTop], lo, hi);
        } else {
          r := NewIntervalElement(RawMap(e.m), lo, hi);
        }
      case OtherStmt(_) =>
        r := NewIntervalElement(RawMap(e.m), lo, hi);
    }
  }
}
