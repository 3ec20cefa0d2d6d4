/**
 * Completeness of comparison narrowing for `<`, `<=`, `==`, `>` and `>=`:
 * on non-empty operands, `Compare` reports an unreachable edge exactly when
 * no pair of contained values satisfies the operator, and each narrowed
 * interval holds exactly the values of its operand that some value of the
 * other operand satisfies the operator with.  Together with `CompareSound`
 * this pins the narrowed intervals down completely.
 */
module NarrowingExact {
  import opened Jimple
  import opened ExtNum
  import opened Intervals
  import opened IntervalProps
  import opened IntervalSound

  /** The integer of a non-empty interval nearest to `n`. */
  function Nearest(i: Itv, n: int): (k: int)
    requires NonEmpty(i)
    ensures Contains(i, k)
    ensures Contains(i, n) ==> k == n
    ensures !AtLeast(i.lo, n) ==> k == i.lo.n
    ensures !AtMost(i.hi, n) ==> k == i.hi.n
  {
    if !AtLeast(i.lo, n) then i.lo.n else if !AtMost(i.hi, n) then i.hi.n else n
  }

  /** Some value of `i1` and some value of `i2` satisfy `op`. */
  ghost predicate Satisfiable(op: CmpOp, i1: Itv, i2: Itv) {
    exists a, b :: Contains(i1, a) && Contains(i2, b) && Holds(op, a, b)
  }

  /** Some value `b` of `i2` makes `a op b` hold. */
  ghost predicate HasRight(op: CmpOp, a: int, i2: Itv) {
    exists b :: Contains(i2, b) && Holds(op, a, b)
  }

  /** Some value `a` of `i1` makes `a op b` hold. */
  ghost predicate HasLeft(op: CmpOp, i1: Itv, b: int) {
    exists a :: Contains(i1, a) && Holds(op, a, b)
  }

  // ---------------------------------------------------------------------
  // One operator and one side at a time
  // ---------------------------------------------------------------------

  lemma {:induction false} LtFirst(i1: Itv, i2: Itv, a: int)
    requires NonEmpty(i1) && NonEmpty(i2) && Compare(LtExpr, i1, i2).Narrowed?
    ensures Contains(Compare(LtExpr, i1, i2).first, a) <==> Contains(i1, a) && HasRight(LtExpr, a, i2)
  {
    var f := Compare(LtExpr, i1, i2).first;
    if Contains(f, a) {
      var b := Nearest(i2, a + 1);
      assert Contains(i2, b) && a < b;
    }
    if Contains(i1, a) && HasRight(LtExpr, a, i2) {
      var b :| Contains(i2, b) && a < b;
      CompareSoundLt(i1, i2, a, b);
    }
  }

  lemma {:induction false} LtSecond(i1: Itv, i2: Itv, b: int)
    requires NonEmpty(i1) && NonEmpty(i2) && Compare(LtExpr, i1, i2).Narrowed?
    ensures Contains(Compare(LtExpr, i1, i2).second, b) <==> Contains(i2, b) && HasLeft(LtExpr, i1, b)
  {
    var s := Compare(LtExpr, i1, i2).second;
    if Contains(s, b) {
      var a := Nearest(i1, b - 1);
      assert Contains(i1, a) && a < b;
    }
    if Contains(i2, b) && HasLeft(LtExpr, i1, b) {
      var a :| Contains(i1, a) && a < b;
      CompareSoundLt(i1, i2, a, b);
    }
  }

  lemma {:induction false} LeFirst(i1: Itv, i2: Itv, a: int)
    requires NonEmpty(i1) && NonEmpty(i2) && Compare(LeExpr, i1, i2).Narrowed?
    ensures Contains(Compare(LeExpr, i1, i2).first, a) <==> Contains(i1, a) && HasRight(LeExpr, a, i2)
  {
    var f := Compare(LeExpr, i1, i2).first;
    if Contains(f, a) {
      var b := Nearest(i2, a);
      assert Contains(i2, b) && a <= b;
    }
    if Contains(i1, a) && HasRight(LeExpr, a, i2) {
      var b :| Contains(i2, b) && a <= b;
      CompareSound(LeExpr, i1, i2, a, b);
    }
  }

  lemma {:induction false} LeSecond(i1: Itv, i2: Itv, b: int)
    requires NonEmpty(i1) && NonEmpty(i2) && Compare(LeExpr, i1, i2).Narrowed?
    ensures Contains(Compare(LeExpr, i1, i2).second, b) <==> Contains(i2, b) && HasLeft(LeExpr, i1, b)
  {
    var s := Compare(LeExpr, i1, i2).second;
    if Contains(s, b) {
      var a := Nearest(i1, b);
      assert Contains(i1, a) && a <= b;
    }
    if Contains(i2, b) && HasLeft(LeExpr, i1, b) {
      var a :| Contains(i1, a) && a <= b;
      CompareSound(LeExpr, i1, i2, a, b);
    }
  }

  /** For `==` both narrowed intervals are the meet of the operands. */
  lemma {:induction false} EqMeet(i1: Itv, i2: Itv, n: int)
    requires NonEmpty(i1) && NonEmpty(i2) && Compare(EqExpr, i1, i2).Narrowed?
    ensures Contains(Compare(EqExpr, i1, i2).first, n) <==> Contains(i1, n) && HasRight(EqExpr, n, i2)
    ensures Contains(Compare(EqExpr, i1, i2).second, n) <==> Contains(i2, n) && HasLeft(EqExpr, i1, n)
  {
    if Contains(i1, n) && Contains(i2, n) {
      assert Holds(EqExpr, n, n);
    }
    if HasRight(EqExpr, n, i2) {
      var b :| Contains(i2, b) && n == b;
    }
    if HasLeft(EqExpr, i1, n) {
      var a :| Contains(i1, a) && a == n;
    }
  }

  /** A reachable edge narrows the left operand to an interval that holds some integer. */
  lemma {:induction false} NarrowedFirstNonEmpty(op: CmpOp, i1: Itv, i2: Itv)
    requires op in {LtExpr, LeExpr, EqExpr}
    requires NonEmpty(i1) && NonEmpty(i2) && Compare(op, i1, i2).Narrowed?
    ensures NonEmpty(Compare(op, i1, i2).first)
  {
    LeTotal(i1.lo, i2.hi);
    LeTotal(i2.lo, i1.hi);
  }

  // ---------------------------------------------------------------------
  // All five operators
  // ---------------------------------------------------------------------

  /** The narrowed left operand is exact for `<`, `<=` and `==`. */
  lemma {:induction false} FirstExact(op: CmpOp, i1: Itv, i2: Itv, a: int)
    requires op in {LtExpr, LeExpr, EqExpr}
    requires NonEmpty(i1) && NonEmpty(i2) && Compare(op, i1, i2).Narrowed?
    ensures Contains(Compare(op, i1, i2).first, a) <==> Contains(i1, a) && HasRight(op, a, i2)
  {
    match op
    case LtExpr => LtFirst(i1, i2, a);
    case LeExpr => LeFirst(i1, i2, a);
    case EqExpr => EqMeet(i1, i2, a);
  }

  /** A reachable edge of `<`, `<=` or `==` has a satisfying pair. */
  lemma {:induction false} NarrowedSatisfiable(op: CmpOp, i1: Itv, i2: Itv)
    requires op in {LtExpr, LeExpr, EqExpr}
    requires NonEmpty(i1) && NonEmpty(i2) && Compare(op, i1, i2).Narrowed?
    ensures Satisfiable(op, i1, i2)
  {
    NarrowedFirstNonEmpty(op, i1, i2);
    var a := Nearest(Compare(op, i1, i2).first, 0);
    FirstExact(op, i1, i2, a);
    var b :| Contains(i2, b) && Holds(op, a, b);
    assert Contains(i1, a) && Contains(i2, b) && Holds(op, a, b);
  }

  /** `>` and `>=` are `<` and `<=` with the operands and the results swapped. */
  lemma {:induction false} SwappedSatisfiable(op: CmpOp, i1: Itv, i2: Itv)
    requires op in {GtExpr, GeExpr}
    ensures var flipped := if op == GtExpr then LtExpr else LeExpr;
            Satisfiable(op, i1, i2) <==> Satisfiable(flipped, i2, i1)
  {
    var flipped := if op == GtExpr then LtExpr else LeExpr;
    if Satisfiable(op, i1, i2) {
      var a, b :| Contains(i1, a) && Contains(i2, b) && Holds(op, a, b);
      assert Holds(flipped, b, a);
    }
    if Satisfiable(flipped, i2, i1) {
      var b, a :| Contains(i2, b) && Contains(i1, a) && Holds(flipped, b, a);
      assert Holds(op, a, b);
    }
  }

  /** `Compare` reports unreachable exactly when no pair of contained values satisfies the operator. */
  lemma {:induction false} UnreachableExact(op: CmpOp, i1: Itv, i2: Itv)
    requires op != NeExpr && NonEmpty(i1) && NonEmpty(i2)
    ensures Compare(op, i1, i2).Unreachable? <==> !Satisfiable(op, i1, i2)
  {
    if Satisfiable(op, i1, i2) {
      var a, b :| Contains(i1, a) && Contains(i2, b) && Holds(op, a, b);
      CompareSound(op, i1, i2, a, b);
    }
    if op in {LtExpr, LeExpr, EqExpr} {
      if Compare(op, i1, i2).Narrowed? {
        NarrowedSatisfiable(op, i1, i2);
      }
    } else {
      var flipped := if op == GtExpr then LtExpr else LeExpr;
      SwappedSatisfiable(op, i1, i2);
      if Compare(flipped, i2, i1).Narrowed? {
        NarrowedSatisfiable(flipped, i2, i1);
      }
    }
  }

  /**
   * The narrowed left operand holds exactly the values of `i1` that some
   * value of `i2` satisfies the operator with.
   */
  lemma {:induction false} NarrowFirstExact(op: CmpOp, i1: Itv, i2: Itv, a: int)
    requires op != NeExpr && NonEmpty(i1) && NonEmpty(i2) && Compare(op, i1, i2).Narrowed?
    ensures Contains(Compare(op, i1, i2).first, a) <==> Contains(i1, a) && HasRight(op, a, i2)
  {
    match op
    case GtExpr =>
      LtSecond(i2, i1, a);
      FlipRight(GtExpr, LtExpr, a, i1, i2);
    case GeExpr =>
      LeSecond(i2, i1, a);
      FlipRight(GeExpr, LeExpr, a, i1, i2);
    case _ => FirstExact(op, i1, i2, a);
  }

  /**
   * The narrowed right operand holds exactly the values of `i2` that some
   * value of `i1` satisfies the operator with.
   */
  lemma {:induction false} NarrowSecondExact(op: CmpOp, i1: Itv, i2: Itv, b: int)
    requires op != NeExpr && NonEmpty(i1) && NonEmpty(i2) && Compare(op, i1, i2).Narrowed?
    ensures Contains(Compare(op, i1, i2).second, b) <==> Contains(i2, b) && HasLeft(op, i1, b)
  {
    match op
    case LtExpr => LtSecond(i1, i2, b);
    case LeExpr => LeSecond(i1, i2, b);
    case EqExpr => EqMeet(i1, i2, b);
    case GtExpr =>
      LtFirst(i2, i1, b);
      FlipLeft(GtExpr, LtExpr, b, i1, i2);
    case GeExpr =>
      LeFirst(i2, i1, b);
      FlipLeft(GeExpr, LeExpr, b, i1, i2);
  }

  /** A right partner for `>`/`>=` is a left partner for `<`/`<=`. */
  lemma {:induction false} FlipRight(op: CmpOp, flipped: CmpOp, a: int, i1: Itv, i2: Itv)
    requires (op == GtExpr && flipped == LtExpr) || (op == GeExpr && flipped == LeExpr)
    ensures HasRight(op, a, i2) <==> HasLeft(flipped, i2, a)
  {
    if HasRight(op, a, i2) {
      var b :| Contains(i2, b) && Holds(op, a, b);
      assert Holds(flipped, b, a);
    }
    if HasLeft(flipped, i2, a) {
      var b :| Contains(i2, b) && Holds(flipped, b, a);
      assert Holds(op, a, b);
    }
  }

  /** A left partner for `>`/`>=` is a right partner for `<`/`<=`. */
  lemma {:induction false} FlipLeft(op: CmpOp, flipped: CmpOp, b: int, i1: Itv, i2: Itv)
    requires (op == GtExpr && flipped == LtExpr) || (op == GeExpr && flipped == LeExpr)
    ensures HasLeft(op, i1, b) <==> HasRight(flipped, b, i1)
  {
    if HasLeft(op, i1, b) {
      var a :| Contains(i1, a) && Holds(op, a, b);
      assert Holds(flipped, b, a);
    }
    if HasRight(flipped, b, i1) {
      var a :| Contains(i1, a) && Holds(flipped, b, a);
      assert Holds(op, a, b);
    }
  }

  // ---------------------------------------------------------------------
  // At the transfer function
  // ---------------------------------------------------------------------

  /**
   * `if (x < 5)` with x in [0, 10], in either reading and under any window
   * holding [0, 10]: the true edge gives [0, 4] and the false edge [5, 10].
   */
  lemma {:induction false} LessThanFiveNarrows(rd: Reading, x: Var, target: nat, lo: Bound, hi: Bound)
    requires Le(lo, Fin(0)) && Le(Fin(10), hi)
    ensures var e := Elem(map[x := Itv(Fin(0), Fin(10))]);
            var s := If(Cond(LtExpr, Local(x), IntConst(5)), target);
            Transfer(rd, e, s, true, lo, hi) == Elem(map[x := Itv(Fin(0), Fin(4))]) &&
            Transfer(rd, e, s, false, lo, hi) == Elem(map[x := Itv(Fin(5), Fin(10))])
  {
    var m := map[x := Itv(Fin(0), Fin(10))];
    GuardAgainstFive(rd, m, x, LtExpr, Itv(Fin(0), Fin(4)), lo, hi);
    GuardAgainstFive(rd, m, x, GeExpr, Itv(Fin(5), Fin(10)), lo, hi);
  }

  /** One edge of `LessThanFiveNarrows`: the guard `x op 5` on its own. */
  lemma {:induction false} GuardAgainstFive(rd: Reading, m: map<Var, Itv>, x: Var, op: CmpOp, after: Itv,
                                            lo: Bound, hi: Bound)
    requires m == map[x := Itv(Fin(0), Fin(10))] && Le(lo, Fin(0)) && Le(Fin(10), hi)
    requires (op == LtExpr && after == Itv(Fin(0), Fin(4))) || (op == GeExpr && after == Itv(Fin(5), Fin(10)))
    ensures Guard(rd, m, op, Local(x), IntConst(5), lo, hi) == Elem(map[x := after])
  {
    var narrowed := CompareIn(rd, op, m[x], ConstRight(op, 5));
    if op == LtExpr {
      assert narrowed == Narrowed(after, Itv(Fin(1), Fin(5)));
    } else {
      assert narrowed == Swap(Compare(LeExpr, Itv(Fin(5), PosInf), m[x]));
      assert narrowed == Narrowed(after, after);
    }
    assert m[x := after] == map[x := after];
    assert Guard(rd, m, op, Local(x), IntConst(5), lo, hi) == Finish(map[x := after], lo, hi);
    NormalizeRestMap(map[x := after], lo, hi);
  }
}
