/**
 * Soundness of the interval domain's narrowing, arithmetic and transfer
 * function against the concrete integer semantics of Jimple: every
 * concrete state that can reach a program point along an edge is admitted
 * by the element the analysis computes for that edge.  Also the exact
 * result of an assignment, and where the code as written departs from the
 * intended transfer function.
 */
module IntervalSound {
  import opened Jimple
  import opened ExtNum
  import opened Intervals
  import opened IntervalProps
  import opened ArithSound

  // ---------------------------------------------------------------------
  // Narrowing on comparisons
  // ---------------------------------------------------------------------

  /** On the false edge the negated operator holds exactly when the condition fails. */
  lemma BranchOpMeaning(op: CmpOp, isTrueBranch: bool, a: int, b: int)
    ensures Holds(BranchOp(op, isTrueBranch), a, b) <==> (Holds(op, a, b) == isTrueBranch)
  {
  }

  lemma {:induction false} CompareSoundLt(i1: Itv, i2: Itv, a: int, b: int)
    requires Contains(i1, a) && Contains(i2, b) && a < b
    ensures Compare(LtExpr, i1, i2).Narrowed?
    ensures Contains(Compare(LtExpr, i1, i2).first, a) && Contains(Compare(LtExpr, i1, i2).second, b)
  {
  }

  lemma {:induction false} CompareSoundNe(i1: Itv, i2: Itv, a: int, b: int)
    requires Contains(i1, a) && Contains(i2, b) && a != b
    ensures Compare(NeExpr, i1, i2).Narrowed?
    ensures Contains(Compare(NeExpr, i1, i2).first, a) && Contains(Compare(NeExpr, i1, i2).second, b)
  {
  }

  /**
   * Narrowing is sound: if concrete values of the two operands satisfy the
   * comparison, the branch is reachable and both narrowed intervals keep
   * them.
   */
  lemma {:induction false} CompareSound(op: CmpOp, i1: Itv, i2: Itv, a: int, b: int)
    requires Contains(i1, a) && Contains(i2, b) && Holds(op, a, b)
    ensures Compare(op, i1, i2).Narrowed?
    ensures Contains(Compare(op, i1, i2).first, a) && Contains(Compare(op, i1, i2).second, b)
  {
    match op
    case LtExpr => CompareSoundLt(i1, i2, a, b);
    case GtExpr => CompareSoundLt(i2, i1, b, a);
    case LeExpr =>
    case GeExpr =>
    case EqExpr =>
    case NeExpr => CompareSoundNe(i1, i2, a, b);
  }

  /**
   * `!=` against a single value removes that value when it is an endpoint
   * of the other interval, or makes the branch unreachable when both
   * intervals are that single value.
   */
  lemma {:induction false} CompareNeExcludesPoint(c: int, i2: Itv)
    requires i2.lo == Fin(c) || i2.hi == Fin(c)
    ensures Compare(NeExpr, Itv(Fin(c), Fin(c)), i2).Unreachable? ||
            !Contains(Compare(NeExpr, Itv(Fin(c), Fin(c)), i2).second, c)
  {
  }

  /**
   * As written, `!=` between a single value c and an interval having c as
   * an endpoint keeps c in that interval, while the intended version removes
   * it (or finds the branch unreachable when the interval is [c, c]).
   */
  lemma {:induction false} CompareNeAsWrittenKeepsEndpoint(c: int, i2: Itv)
    requires Contains(i2, c) && (i2.lo == Fin(c) || i2.hi == Fin(c))
    ensures CompareAsWritten(NeExpr, Itv(Fin(c), Fin(c)), i2).Narrowed?
    ensures Contains(CompareAsWritten(NeExpr, Itv(Fin(c), Fin(c)), i2).second, c)
    ensures Compare(NeExpr, Itv(Fin(c), Fin(c)), i2).Unreachable? ||
            !Contains(Compare(NeExpr, Itv(Fin(c), Fin(c)), i2).second, c)
  {
    CompareNeExcludesPoint(c, i2);
  }

  /** The comparison as written is sound too: it narrows less, never wrongly. */
  lemma {:induction false} CompareAsWrittenSound(op: CmpOp, i1: Itv, i2: Itv, a: int, b: int)
    requires Contains(i1, a) && Contains(i2, b) && Holds(op, a, b)
    ensures CompareAsWritten(op, i1, i2).Narrowed?
    ensures Contains(CompareAsWritten(op, i1, i2).first, a) && Contains(CompareAsWritten(op, i1, i2).second, b)
  {
    if op != NeExpr {
      CompareSound(op, i1, i2, a, b);
    }
  }

  lemma {:induction false} CompareInSound(rd: Reading, op: CmpOp, i1: Itv, i2: Itv, a: int, b: int)
    requires Contains(i1, a) && Contains(i2, b) && Holds(op, a, b)
    ensures CompareIn(rd, op, i1, i2).Narrowed?
    ensures Contains(CompareIn(rd, op, i1, i2).first, a) && Contains(CompareIn(rd, op, i1, i2).second, b)
  {
    if rd.AsWritten? {
      CompareAsWrittenSound(op, i1, i2, a, b);
    } else {
      CompareSound(op, i1, i2, a, b);
    }
  }

  /**
   * As written, `!=` on a single value against the same single value keeps
   * the branch reachable and removes nothing, although no pair of values
   * can take it.
   */
  lemma CompareAsWrittenKeepsEqualPoint()
    ensures CompareAsWritten(NeExpr, Itv(Fin(5), Fin(5)), Itv(Fin(5), Fin(5))) == Narrowed(Itv(Fin(5), Fin(5)), Itv(Fin(5), Fin(5)))
    ensures Compare(NeExpr, Itv(Fin(5), Fin(5)), Itv(Fin(5), Fin(5))) == Unreachable
    ensures CompareAsWritten(NeExpr, Itv(Fin(5), Fin(5)), Itv(Fin(5), Fin(9))).second == Itv(Fin(5), Fin(9))
    ensures Compare(NeExpr, Itv(Fin(5), Fin(5)), Itv(Fin(5), Fin(9))).second == Itv(Fin(6), Fin(9))
  {
  }

  // ---------------------------------------------------------------------
  // The sanity check and the constructor after a guard
  // ---------------------------------------------------------------------

  /** Every local of `m` has a value in `env` inside its interval. */
  predicate MapAdmits(m: map<Var, Itv>, env: map<Var, int>) {
    forall v :: v in m ==> v in env && Contains(m[v], env[v])
  }

  lemma {:induction false} ContainsRaw(i: Itv, n: int)
    requires Contains(i, n)
    ensures RawContains(Raw(i), n)
  {
  }

  lemma {:induction false} RawMapAdmits(m: map<Var, Itv>, env: map<Var, int>)
    requires MapAdmits(m, env)
    ensures RawAdmits(RawMap(m), env)
  {
    forall v | v in m ensures RawContains(Raw(m[v]), env[v]) {
      ContainsRaw(m[v], env[v]);
    }
  }

  lemma {:induction false} FinishSound(m: map<Var, Itv>, lo: Bound, hi: Bound, env: map<Var, int>)
    requires Le(lo, hi) && MapAdmits(m, env)
    ensures Admits(Finish(m, lo, hi), env)
  {
    assert !exists v :: v in m && Lt(m[v].hi, m[v].lo);
    RawMapAdmits(m, env);
    NormalizeSound(RawMap(m), lo, hi, env);
  }

  // ---------------------------------------------------------------------
  // Guards
  // ---------------------------------------------------------------------

  /** An operand whose concrete value is known: an integer constant or a local with a value. */
  predicate Evaluable(v: Value, env: map<Var, int>) {
    v.IntConst? || (v.Local? && v.name in env)
  }

  function Eval(v: Value, env: map<Var, int>): int
    requires Evaluable(v, env)
  {
    if v.IntConst? then v.n else env[v.name]
  }

  lemma {:induction false} GuardSound(rd: Reading, m: map<Var, Itv>, op: CmpOp, left: Value, right: Value,
                                      lo: Bound, hi: Bound, env: map<Var, int>)
    requires Le(lo, hi) && MapAdmits(m, env)
    requires Evaluable(left, env) && Evaluable(right, env)
    requires Holds(op, Eval(left, env), Eval(right, env))
    ensures Admits(Guard(rd, m, op, left, right, lo, hi), env)
  {
    if left.Local? && right.IntConst? && left.name in m {
      GuardLocalConstSound(rd, m, op, left.name, right.n, lo, hi, env);
    } else if left.IntConst? && right.Local? && right.name in m {
      GuardConstLocalSound(rd, m, op, left.n, right.name, lo, hi, env);
    } else if left.Local? && right.Local? && left.name in m && right.name in m {
      GuardLocalsSound(rd, m, op, left.name, right.name, lo, hi, env);
    } else {
      assert Guard(rd, m, op, left, right, lo, hi) == Finish(m, lo, hi);
      FinishSound(m, lo, hi, env);
    }
  }

  lemma {:induction false} GuardLocalConstSound(rd: Reading, m: map<Var, Itv>, op: CmpOp, x: Var, c: int,
                                                lo: Bound, hi: Bound, env: map<Var, int>)
    requires Le(lo, hi) && MapAdmits(m, env) && x in m && x in env && Holds(op, env[x], c)
    ensures Admits(Guard(rd, m, op, Local(x), IntConst(c), lo, hi), env)
  {
    var r := CompareIn(rd, op, m[x], ConstRight(op, c));
    CompareInSound(rd, op, m[x], ConstRight(op, c), env[x], c);
    assert r.Narrowed?;
    FinishSound(m[x := r.first], lo, hi, env);
  }

  lemma {:induction false} GuardConstLocalSound(rd: Reading, m: map<Var, Itv>, op: CmpOp, c: int, y: Var,
                                                lo: Bound, hi: Bound, env: map<Var, int>)
    requires Le(lo, hi) && MapAdmits(m, env) && y in m && y in env && Holds(op, c, env[y])
    ensures Admits(Guard(rd, m, op, IntConst(c), Local(y), lo, hi), env)
  {
    var r := CompareIn(rd, op, ConstLeft(op, c), m[y]);
    CompareInSound(rd, op, ConstLeft(op, c), m[y], c, env[y]);
    var narrowed := m[y := r.second];
    assert MapAdmits(narrowed, env);
    FinishSound(narrowed, lo, hi, env);
    assert Guard(rd, m, op, IntConst(c), Local(y), lo, hi) == Finish(narrowed, lo, hi);
  }

  lemma {:induction false} GuardLocalsSound(rd: Reading, m: map<Var, Itv>, op: CmpOp, x: Var, y: Var,
                                            lo: Bound, hi: Bound, env: map<Var, int>)
    requires Le(lo, hi) && MapAdmits(m, env) && x in m && y in m && x in env && y in env
    requires Holds(op, env[x], env[y])
    ensures Admits(Guard(rd, m, op, Local(x), Local(y), lo, hi), env)
  {
    var r := CompareIn(rd, op, m[x], m[y]);
    CompareInSound(rd, op, m[x], m[y], env[x], env[y]);
    var narrowed := m[x := r.first][y := r.second];
    assert MapAdmits(narrowed, env);
    FinishSound(narrowed, lo, hi, env);
    assert Guard(rd, m, op, Local(x), Local(y), lo, hi) == Finish(narrowed, lo, hi);
  }

  /**
   * The transfer function is sound on branches: a valuation admitted before
   * `if (left op right)` that takes the edge labelled `isTrueBranch` is
   * admitted by the element computed for that edge.  This holds for the
   * code as written as well as for the intended version.
   */
  lemma {:induction false} TransferGuardSound(rd: Reading, e: IElem, c: Cond, target: nat, isTrueBranch: bool,
                                              lo: Bound, hi: Bound, env: map<Var, int>)
    requires Valid(e, lo, hi) && Admits(e, env) && !Throws(e, If(c, target))
    requires Evaluable(c.left, env) && Evaluable(c.right, env)
    requires Holds(c.op, Eval(c.left, env), Eval(c.right, env)) == isTrueBranch
    ensures Admits(Transfer(rd, e, If(c, target), isTrueBranch, lo, hi), env)
  {
    BranchOpMeaning(c.op, isTrueBranch, Eval(c.left, env), Eval(c.right, env));
    GuardSound(rd, e.m, BranchOp(c.op, isTrueBranch), c.left, c.right, lo, hi, env);
  }

  // ---------------------------------------------------------------------
  // Assignments
  // ---------------------------------------------------------------------

  /**
   * Every operator the analysis handles gives an interval holding the
   * concrete result, and any other gives top; as written this holds for
   * every operator but division.
   */
  lemma {:induction false} BinOpSound(rd: Reading, op: ArithOp, i1: Itv, i2: Itv, a: int, b: int, n: int)
    requires rd.Intended? || op != Div
    requires Contains(i1, a) && Contains(i2, b)
    requires op != OtherOp ==> (op == Div ==> b != 0) && n == Arith(op, a, b)
    ensures FromArith(ArithIn(rd, op, i1, i2)).Put?
    ensures RawContains(FromArith(ArithIn(rd, op, i1, i2)).itv, n)
  {
    assert ArithIn(rd, op, i1, i2) == BinOp(op, i1, i2);
    match op
    case Add => AddSound(i1, i2, a, b);
    case Sub => SubSound(i1, i2, a, b);
    case Mul => MulSound(i1, i2, a, b);
    case Div => DivSound(i1, i2, a, b);
    case OtherOp =>
  }

  /**
   * `n` is a value the right-hand side `rhs` can take in the valuation
   * `env`, for the forms of right-hand side the transfer function
   * interprets.  An operator the analysis does not handle may produce any
   * value; a division by zero throws and produces none.
   */
  predicate Produces(rhs: Value, env: map<Var, int>, n: int) {
    match rhs
    case IntConst(c) => n == c
    case Local(y) => y in env && n == env[y]
    case Neg(Local(y)) => y in env && n == -env[y]
    case Binop(op, a, b) =>
      (a.Local? || b.Local?) && Evaluable(a, env) && Evaluable(b, env) &&
      (op != OtherOp ==> (op == Div ==> Eval(b, env) != 0) && n == Arith(op, Eval(a, env), Eval(b, env)))
    case _ => false
  }

  /** A division, the one operator whose as-written interval can lose the concrete quotient. */
  predicate IsDivision(rhs: Value) {
    rhs.Binop? && rhs.op == Div
  }

  lemma {:induction false} RhsSound(rd: Reading, m: map<Var, Itv>, rhs: Value, env: map<Var, int>, n: int)
    requires rd.Intended? || !IsDivision(rhs)
    requires MapAdmits(m, env) && Produces(rhs, env, n)
    ensures !(rhs.Binop? && ConstFails(rhs.left, rhs.right))
    ensures RhsUpdate(rd, m, rhs).Put? && RawContains(RhsUpdate(rd, m, rhs).itv, n)
  {
    match rhs
    case IntConst(c) =>
    case Local(y) =>
      if y in m {
        ContainsRaw(m[y], n);
      }
    case Neg(Local(y)) =>
    case Binop(op, a, b) =>
      var x, y := Eval(a, env), Eval(b, env);
      if a.Local? && b.Local? {
        if a.name in m && b.name in m {
          BinOpSound(rd, op, m[a.name], m[b.name], x, y, n);
        }
      } else if a.Local? {
        if a.name in m {
          BinOpSound(rd, op, m[a.name], Itv(Fin(b.n), Fin(b.n)), x, y, n);
        }
      } else {
        if b.name in m {
          BinOpSound(rd, op, Itv(Fin(a.n), Fin(a.n)), m[b.name], x, y, n);
        }
      }
  }

  /** Putting an interval that holds `n` for `x` and rebuilding admits the valuation updated at `x`. */
  lemma {:induction false} PutSound(m: map<Var, Itv>, x: Var, i: RawItv, n: int, lo: Bound, hi: Bound, env: map<Var, int>)
    requires Le(lo, hi) && MapAdmits(m, env) && RawContains(i, n)
    ensures !Inverted(i)
    ensures Admits(Normalize(RawMap(m)[x := i], lo, hi), env[x := n])
  {
    IntervalKeepsIntegers(i, n, lo, hi);
    RawMapAdmits(m, env);
    NormalizeSound(RawMap(m)[x := i], lo, hi, env[x := n]);
  }

  /**
   * The transfer function is sound on assignments to a tracked local: if
   * the valuation before `x = rhs` is admitted and `rhs` takes the value
   * `n`, the valuation after it is admitted.  As written this fails for
   * division only (see `DivAsWrittenLosesQuotient`).
   */
  lemma {:induction false} TransferAssignSound(rd: Reading, e: IElem, x: Var, rhs: Value, lo: Bound, hi: Bound,
                                               env: map<Var, int>, n: int)
    requires rd.Intended? || !IsDivision(rhs)
    requires Valid(e, lo, hi) && Admits(e, env) && x in e.m && Produces(rhs, env, n)
    ensures !Throws(e, Assign(Local(x), rhs))
    ensures Admits(Transfer(rd, e, Assign(Local(x), rhs), true, lo, hi), env[x := n])
  {
    RhsSound(rd, e.m, rhs, env, n);
    PutSound(e.m, x, RhsUpdate(rd, e.m, rhs).itv, n, lo, hi, env);
  }

  /** A parameter or `this` bound to a local: the local becomes [-inf, +inf], whatever its value. */
  lemma {:induction false} TransferIdentitySound(rd: Reading, e: IElem, x: Var, lo: Bound, hi: Bound, env: map<Var, int>, n: int)
    requires Valid(e, lo, hi) && Admits(e, env)
    ensures Transfer(rd, e, Identity(Local(x)), true, lo, hi).Elem?
    ensures Transfer(rd, e, Identity(Local(x)), true, lo, hi).m == e.m[x := Top]
    ensures Admits(Transfer(rd, e, Identity(Local(x)), true, lo, hi), env[x := n])
  {
    TransferIdentityIsTop(rd, e, x, lo, hi);
    var m := e.m[x := Top];
    forall v | v in m ensures v in env[x := n] && Contains(m[v], env[x := n][v]) {
    }
  }

  lemma {:induction false} TransferIdentityIsTop(rd: Reading, e: IElem, x: Var, lo: Bound, hi: Bound)
    requires Valid(e, lo, hi) && e.Elem?
    ensures Transfer(rd, e, Identity(Local(x)), true, lo, hi) == Elem(e.m[x := Top])
  {
    assert Transfer(rd, e, Identity(Local(x)), true, lo, hi) == Normalize(RawMap(e.m)[x := RawTop], lo, hi);
    NormalizeTopAt(e.m, x, lo, hi);
  }

  lemma {:induction false} NormalizeTopAt(m: map<Var, Itv>, x: Var, lo: Bound, hi: Bound)
    requires Valid(Elem(m), lo, hi)
    ensures Normalize(RawMap(m)[x := RawTop], lo, hi) == Elem(m[x := Top])
  {
    assert RawMap(m)[x := RawTop] == RawMap(m[x := Top]);
    assert Valid(Elem(m[x := Top]), lo, hi);
    NormalizeRestMap(m[x := Top], lo, hi);
  }

  /**
   * Statements that neither assign a tracked local nor test a condition
   * leave a valid element unchanged: the clone rebuilds the same element.
   */
  lemma {:induction false} TransferKeepsOtherStatements(rd: Reading, e: IElem, s: Stmt, isTrueBranch: bool, lo: Bound, hi: Bound)
    requires Valid(e, lo, hi)
    requires s.OtherStmt? || (s.Assign? && !(s.lhs.Local? && e.Elem? && s.lhs.name in e.m))
    ensures !Throws(e, s)
    ensures Transfer(rd, e, s, isTrueBranch, lo, hi) == e
  {
    CloneIsIdentity(e, lo, hi);
  }

  // ---------------------------------------------------------------------
  // Assignments: the exact result
  // ---------------------------------------------------------------------

  /**
   * An assignment whose right-hand side yields a raw interval `i` gives
   * bottom exactly when `i` is empty before or after rounding inward;
   * otherwise the target gets `i` rounded, with bounds outside the window
   * widened to infinity, and
   * every other local keeps its interval.
   */
  lemma {:induction false} TransferAssignPut(rd: Reading, e: IElem, x: Var, rhs: Value, lo: Bound, hi: Bound)
    requires Valid(e, lo, hi) && e.Elem? && x in e.m && !Throws(e, Assign(Local(x), rhs))
    requires RhsUpdate(rd, e.m, rhs).Put?
    ensures var i := RhsUpdate(rd, e.m, rhs).itv;
            var r := Transfer(rd, e, Assign(Local(x), rhs), true, lo, hi);
            (r.Bot? <==> Inverted(i) || Inverted(Rounded(i))) &&
            (r.Elem? ==> r.m == e.m[x := Widened(Rounded(i), lo, hi)])
  {
    var i := RhsUpdate(rd, e.m, rhs).itv;
    if !Inverted(i) {
      var given := RawMap(e.m)[x := i];
      assert Transfer(rd, e, Assign(Local(x), rhs), true, lo, hi) == Normalize(given, lo, hi);
      if !Inverted(Rounded(i)) {
        var result := e.m[x := Widened(Rounded(i), lo, hi)];
        forall v | v in given
          ensures !Inverted(given[v]) && !Inverted(Rounded(given[v]))
          ensures result[v] == Widened(Rounded(given[v]), lo, hi)
        {
          if v != x {
            RestIntervalFixed(e.m[v], lo, hi);
          }
        }
        NormalizeIsWidened(given, lo, hi, result);
      } else {
        assert x in given && Inverted(Rounded(given[x]));
      }
    }
  }

  /** An assignment to a tracked local changes no other local's interval. */
  lemma {:induction false} TransferAssignFrame(rd: Reading, e: IElem, x: Var, rhs: Value, lo: Bound, hi: Bound)
    requires Valid(e, lo, hi) && e.Elem? && x in e.m && !Throws(e, Assign(Local(x), rhs))
    ensures var r := Transfer(rd, e, Assign(Local(x), rhs), true, lo, hi);
            r.Elem? ==> r.m.Keys == e.m.Keys && forall v :: v in e.m && v != x ==> r.m[v] == e.m[v]
  {
    match RhsUpdate(rd, e.m, rhs)
    case ToBot =>
    case Keep =>
      NormalizeRestMap(e.m, lo, hi);
    case Put(_) =>
      TransferAssignPut(rd, e, x, rhs, lo, hi);
  }

  /** `x = c` sets x to [c, c], a bound outside the window widened to infinity: exactly [c, c] inside it. */
  lemma {:induction false} TransferAssignConst(rd: Reading, e: IElem, x: Var, c: int, lo: Bound, hi: Bound)
    requires Valid(e, lo, hi) && e.Elem? && x in e.m
    ensures Transfer(rd, e, Assign(Local(x), IntConst(c)), true, lo, hi) == Elem(e.m[x := Widened(Point(c), lo, hi)])
    ensures Le(lo, Fin(c)) && Le(Fin(c), hi) ==>
      Transfer(rd, e, Assign(Local(x), IntConst(c)), true, lo, hi) == Elem(e.m[x := Itv(Fin(c), Fin(c))])
  {
    var i := Itv(Fin(c), Fin(c));
    assert Point(c) == Raw(i);
    RawIsRounded(i);
    TransferAssignPut(rd, e, x, IntConst(c), lo, hi);
    if Le(lo, Fin(c)) && Le(Fin(c), hi) {
      RestIntervalFixed(i, lo, hi);
    }
  }

  /** `x = y` copies y's interval, or sets x to [-inf, +inf] when y is not tracked. */
  lemma {:induction false} TransferAssignCopy(rd: Reading, e: IElem, x: Var, y: Var, lo: Bound, hi: Bound)
    requires Valid(e, lo, hi) && e.Elem? && x in e.m
    ensures y in e.m ==> Transfer(rd, e, Assign(Local(x), Local(y)), true, lo, hi) == Elem(e.m[x := e.m[y]])
    ensures y !in e.m ==> Transfer(rd, e, Assign(Local(x), Local(y)), true, lo, hi) == Elem(e.m[x := Top])
  {
    TransferAssignPut(rd, e, x, Local(y), lo, hi);
    if y in e.m {
      RestIntervalFixed(e.m[y], lo, hi);
    } else {
      RestIntervalFixed(Top, lo, hi);
    }
  }

  /** The interval of `-y` for y in [l, u]: [-u, -l]. */
  function Negated(i: Itv): Itv {
    Itv(Negate(i.hi), Negate(i.lo))
  }

  /**
   * `x = -y` sets x to [-u, -l] for y in [l, u], bounds outside the window
   * widened to infinity
   * (exactly [-u, -l] when that lies inside it), or to [-inf, +inf] when y
   * is not tracked.
   */
  lemma {:induction false} TransferAssignNeg(rd: Reading, e: IElem, x: Var, y: Var, lo: Bound, hi: Bound)
    requires Valid(e, lo, hi) && e.Elem? && x in e.m
    ensures y in e.m ==>
      Transfer(rd, e, Assign(Local(x), Neg(Local(y))), true, lo, hi) == Elem(e.m[x := Widened(Raw(Negated(e.m[y])), lo, hi)])
    ensures y in e.m && InWindow(Negated(e.m[y]), lo, hi) ==>
      Transfer(rd, e, Assign(Local(x), Neg(Local(y))), true, lo, hi) == Elem(e.m[x := Negated(e.m[y])])
    ensures y !in e.m ==> Transfer(rd, e, Assign(Local(x), Neg(Local(y))), true, lo, hi) == Elem(e.m[x := Top])
  {
    TransferAssignPut(rd, e, x, Neg(Local(y)), lo, hi);
    if y in e.m {
      var i := Negated(e.m[y]);
      NegateEmbed(e.m[y].lo);
      NegateEmbed(e.m[y].hi);
      assert RhsUpdate(rd, e.m, Neg(Local(y))).itv == Raw(i);
      RawIsRounded(i);
      assert Le(i.lo, i.hi);
      if InWindow(i, lo, hi) {
        RestIntervalFixed(i, lo, hi);
      }
    } else {
      RestIntervalFixed(Top, lo, hi);
    }
  }

  /**
   * `x = a op b` over two tracked locals: a division by [0, 0] makes the
   * edge unreachable, an operator the analysis does not handle sets x to
   * [-inf, +inf], and any other result interval is rounded inward and
   * widened outside the window, giving bottom exactly when it holds no integer.
   */
  lemma {:induction false} TransferAssignLocals(rd: Reading, e: IElem, x: Var, op: ArithOp, a: Var, b: Var,
                                                lo: Bound, hi: Bound)
    requires Valid(e, lo, hi) && e.Elem? && x in e.m && a in e.m && b in e.m
    ensures var w := ArithIn(rd, op, e.m[a], e.m[b]);
            var r := Transfer(rd, e, Assign(Local(x), Binop(op, Local(a), Local(b))), true, lo, hi);
            (w.DivisionByZero? ==> r == Bot) &&
            (w.InvalidOperator? ==> r == Elem(e.m[x := Top])) &&
            (w.Value? ==> (r.Bot? <==> Inverted(w.itv) || Inverted(Rounded(w.itv))) &&
                          (r.Elem? ==> r.m == e.m[x := Widened(Rounded(w.itv), lo, hi)]))
  {
    var w := ArithIn(rd, op, e.m[a], e.m[b]);
    if !w.DivisionByZero? {
      TransferAssignPut(rd, e, x, Binop(op, Local(a), Local(b)), lo, hi);
      if w.InvalidOperator? {
        RestIntervalFixed(Top, lo, hi);
      }
    }
  }

  // ---------------------------------------------------------------------
  // Where the code as written departs from the intended transfer function
  // ---------------------------------------------------------------------

  /**
   * With x in [7, 7] and y in [1, 1], `x = y / 2` as written makes the
   * whole element bottom: its quotient interval [0.5, 0.5] holds no integer,
   * so the constructor rounds it to an empty interval and the code after the
   * assignment is treated as unreachable, although Java gives x == 0.  The
   * intended version gives x in [0, 0] and keeps y.
   */
  lemma DivAsWrittenLosesQuotient(lo: Bound, hi: Bound)
    requires Le(lo, Fin(0)) && Le(Fin(7), hi)
    ensures BinOpAsWritten(Div, Itv(Fin(1), Fin(1)), Itv(Fin(2), Fin(2))) == Value(RawItv(XFin(0.5), XFin(0.5)))
    ensures BinOp(Div, Itv(Fin(1), Fin(1)), Itv(Fin(2), Fin(2))) == Value(Point(0))
    ensures var e := Elem(map["x" := Itv(Fin(7), Fin(7)), "y" := Itv(Fin(1), Fin(1))]);
            var env := map["x" := 7, "y" := 1];
            var s := Assign(Local("x"), Binop(Div, Local("y"), IntConst(2)));
            Valid(e, lo, hi) && Admits(e, env) && Produces(s.rhs, env, 0) &&
            Transfer(AsWritten, e, s, true, lo, hi) == Bot &&
            Transfer(Intended, e, s, true, lo, hi) == Elem(e.m["x" := Itv(Fin(0), Fin(0))])
  {
    var e := Elem(map["x" := Itv(Fin(7), Fin(7)), "y" := Itv(Fin(1), Fin(1))]);
    assert JavaDiv(1, 2) == 0;
    DivHalfAsWritten(e, lo, hi);
    DivHalfIntended(e, lo, hi);
  }

  lemma {:induction false} DivHalfAsWritten(e: IElem, lo: Bound, hi: Bound)
    requires Le(lo, Fin(0)) && Le(Fin(7), hi)
    requires e == Elem(map["x" := Itv(Fin(7), Fin(7)), "y" := Itv(Fin(1), Fin(1))])
    ensures Valid(e, lo, hi)
    ensures Transfer(AsWritten, e, Assign(Local("x"), Binop(Div, Local("y"), IntConst(2))), true, lo, hi) == Bot
  {
    var rhs := Binop(Div, Local("y"), IntConst(2));
    var half := RawItv(XFin(0.5), XFin(0.5));
    assert RhsUpdate(AsWritten, e.m, rhs) == Put(half);
    assert Rounded(half) == RawItv(XFin(1.0), XFin(0.0));
    TransferAssignPut(AsWritten, e, "x", rhs, lo, hi);
  }

  lemma {:induction false} DivHalfIntended(e: IElem, lo: Bound, hi: Bound)
    requires Le(lo, Fin(0)) && Le(Fin(7), hi)
    requires e == Elem(map["x" := Itv(Fin(7), Fin(7)), "y" := Itv(Fin(1), Fin(1))])
    ensures Transfer(Intended, e, Assign(Local("x"), Binop(Div, Local("y"), IntConst(2))), true, lo, hi) ==
            Elem(e.m["x" := Itv(Fin(0), Fin(0))])
  {
    var rhs := Binop(Div, Local("y"), IntConst(2));
    assert Valid(e, lo, hi);
    assert RhsUpdate(Intended, e.m, rhs) == Put(Point(0));
    TransferAssignConst(Intended, e, "x", 0, lo, hi);
    TransferAssignPut(Intended, e, "x", rhs, lo, hi);
  }

  /**
   * As written, the true edge of `if (x != c)` leaves every valid element
   * unchanged, whatever x's interval: even x in [c, c], where the edge
   * cannot be taken, and x in [c, u], where c could be removed.
   */
  lemma {:induction false} NeGuardAsWrittenKeeps(e: IElem, x: Var, c: int, lo: Bound, hi: Bound, target: nat)
    requires Valid(e, lo, hi) && e.Elem? && x in e.m
    ensures Transfer(AsWritten, e, If(Cond(NeExpr, Local(x), IntConst(c)), target), true, lo, hi) == e
  {
    assert Guard(AsWritten, e.m, NeExpr, Local(x), IntConst(c), lo, hi) == Finish(e.m[x := e.m[x]], lo, hi);
    assert e.m[x := e.m[x]] == e.m;
    NormalizeRestMap(e.m, lo, hi);
  }

  /**
   * The intended true edge of `if (x != c)`: unreachable when x is [c, c];
   * otherwise c is removed when it is an endpoint of x's interval.
   */
  lemma {:induction false} NeGuardIntendedExcludes(e: IElem, x: Var, c: int, lo: Bound, hi: Bound, target: nat)
    requires Valid(e, lo, hi) && e.Elem? && x in e.m
    ensures e.m[x] == Itv(Fin(c), Fin(c)) ==>
      Transfer(Intended, e, If(Cond(NeExpr, Local(x), IntConst(c)), target), true, lo, hi) == Bot
    ensures e.m[x].lo == Fin(c) && e.m[x].hi != Fin(c) ==>
      Transfer(Intended, e, If(Cond(NeExpr, Local(x), IntConst(c)), target), true, lo, hi) == Elem(e.m[x := Itv(Fin(c + 1), e.m[x].hi)])
    ensures e.m[x].hi == Fin(c) && e.m[x].lo != Fin(c) ==>
      Transfer(Intended, e, If(Cond(NeExpr, Local(x), IntConst(c)), target), true, lo, hi) == Elem(e.m[x := Itv(e.m[x].lo, Fin(c - 1))])
  {
    var i := e.m[x];
    if i.lo == Fin(c) && i.hi != Fin(c) {
      NeGuardIntendedNarrows(e, x, c, Itv(Fin(c + 1), i.hi), lo, hi, target);
    } else if i.hi == Fin(c) && i.lo != Fin(c) {
      NeGuardIntendedNarrows(e, x, c, Itv(i.lo, Fin(c - 1)), lo, hi, target);
    }
  }

  lemma {:induction false} NeGuardIntendedNarrows(e: IElem, x: Var, c: int, j: Itv, lo: Bound, hi: Bound, target: nat)
    requires Valid(e, lo, hi) && e.Elem? && x in e.m
    requires Compare(NeExpr, e.m[x], Itv(Fin(c), Fin(c))) == Narrowed(j, Itv(Fin(c), Fin(c)))
    requires InWindow(j, lo, hi)
    ensures Transfer(Intended, e, If(Cond(NeExpr, Local(x), IntConst(c)), target), true, lo, hi) == Elem(e.m[x := j])
  {
    assert Guard(Intended, e.m, NeExpr, Local(x), IntConst(c), lo, hi) == Finish(e.m[x := j], lo, hi);
    NormalizeRestMap(e.m[x := j], lo, hi);
  }
}
