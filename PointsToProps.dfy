/**
 * Properties of the points-to domain: the join is the least upper bound of
 * compatible elements, and the transfer function is sound for the
 * assignments and `==`/`!=` guards it interprets.
 */
module PointsToProps {
  import opened Jimple
  import opened PointsTo

  // ---------------------------------------------------------------------
  // Order
  // ---------------------------------------------------------------------

  /** A more precise element admits fewer reference valuations. */
  lemma {:induction false} BelowAdmits(a: PElem, b: PElem, env: map<Var, Target>)
    requires Below(a, b) && Admits(a, env)
    ensures Admits(b, env)
  {
    forall v | v in b.pointers ensures v in env && env[v] in b.pointers[v] {
      assert v in a.pointers;
    }
  }

  // ---------------------------------------------------------------------
  // Join
  // ---------------------------------------------------------------------

  /** Two elements `join` accepts: one is bottom, or both have the same universe and locals. */
  predicate Compatible(a: PElem, b: PElem) {
    a.PBot? || b.PBot? || (a.allocUnits == b.allocUnits && a.pointers.Keys == b.pointers.Keys)
  }

  lemma {:induction false} UnionWellFormed(a: map<Var, set<Target>>, b: map<Var, set<Target>>, alloc: set<nat>)
    requires WellFormed(a, alloc) && WellFormed(b, alloc) && a.Keys <= b.Keys
    ensures WellFormed(Union(a, b), alloc)
  {
    forall v | v in Union(a, b) ensures WellFormedSet(Union(a, b)[v], alloc) {
      assert WellFormedSet(a[v], alloc) && WellFormedSet(b[v], alloc);
    }
  }

  /**
   * On valid operands the constructor inside `join` never throws: join fails
   * exactly when the operands are incompatible, and otherwise gives each
   * local the union of its two sets.
   */
  lemma {:induction false} JoinOfValid(a: PElem, b: PElem)
    requires Valid(a) && Valid(b)
    ensures Join(a, b).Ok? <==> Compatible(a, b)
    ensures Join(a, b).Ok? ==> Valid(Join(a, b).value)
    ensures a.Pts? && b.Pts? && Compatible(a, b) ==>
      Join(a, b).value.pointers.Keys == a.pointers.Keys &&
      forall v :: v in a.pointers ==> Join(a, b).value.pointers[v] == a.pointers[v] + b.pointers[v]
  {
    if a.Pts? && b.Pts? && Compatible(a, b) {
      UnionWellFormed(a.pointers, b.pointers, a.allocUnits);
    }
  }

  /** The join lies above both operands. */
  lemma {:induction false} JoinUpperBound(a: PElem, b: PElem)
    requires Valid(a) && Valid(b) && Compatible(a, b)
    ensures Join(a, b).Ok?
    ensures Below(a, Join(a, b).value) && Below(b, Join(a, b).value)
  {
    JoinOfValid(a, b);
  }

  /** Every element above both operands lies above their join. */
  lemma {:induction false} JoinLeast(a: PElem, b: PElem, c: PElem)
    requires Valid(a) && Valid(b) && Compatible(a, b)
    requires Below(a, c) && Below(b, c)
    ensures Join(a, b).Ok? && Below(Join(a, b).value, c)
  {
    JoinOfValid(a, b);
  }

  /** Whatever either operand admits, their join admits. */
  lemma {:induction false} JoinSound(a: PElem, b: PElem, env: map<Var, Target>)
    requires Valid(a) && Valid(b) && Compatible(a, b)
    requires Admits(a, env) || Admits(b, env)
    ensures Join(a, b).Ok? && Admits(Join(a, b).value, env)
  {
    JoinUpperBound(a, b);
    if Admits(a, env) {
      BelowAdmits(a, Join(a, b).value, env);
    } else {
      BelowAdmits(b, Join(a, b).value, env);
    }
  }

  lemma {:induction false} JoinIdempotent(a: PElem)
    requires Valid(a)
    ensures Join(a, a) == Ok(a)
  {
    if a.Pts? {
      var u := Union(a.pointers, a.pointers);
      forall v | v in a.pointers ensures u[v] == a.pointers[v] {
        assert a.pointers[v] + a.pointers[v] == a.pointers[v];
      }
      assert u.Keys == a.pointers.Keys;
      assert u == a.pointers;
    }
  }

  /** Join is commutative, also in which operand pairs it rejects. */
  lemma {:induction false} JoinCommutative(a: PElem, b: PElem)
    ensures Join(a, b) == Join(b, a)
  {
    if a.Pts? && b.Pts? && Compatible(a, b) {
      var ab, ba := Union(a.pointers, b.pointers), Union(b.pointers, a.pointers);
      forall v | v in ab ensures ab[v] == ba[v] {
        assert a.pointers[v] + b.pointers[v] == b.pointers[v] + a.pointers[v];
      }
      assert ab.Keys == ba.Keys;
      assert ab == ba;
    }
  }

  lemma {:induction false} JoinAssociative(a: PElem, b: PElem, c: PElem)
    requires Valid(a) && Valid(b) && Valid(c)
    requires Compatible(a, b) && Compatible(b, c) && Compatible(a, c)
    ensures Join(a, b).Ok? && Join(b, c).Ok?
    ensures Join(Join(a, b).value, c) == Join(a, Join(b, c).value)
  {
    JoinOfValid(a, b);
    JoinOfValid(b, c);
    var ab, bc := Join(a, b).value, Join(b, c).value;
    JoinOfValid(ab, c);
    JoinOfValid(a, bc);
    if a.Pts? && b.Pts? && c.Pts? {
      var l, r := Union(ab.pointers, c.pointers), Union(a.pointers, bc.pointers);
      forall v | v in l ensures l[v] == r[v] {
        assert l[v] == a.pointers[v] + b.pointers[v] + c.pointers[v];
      }
      assert l.Keys == r.Keys;
      assert l == r;
    }
  }

  // ---------------------------------------------------------------------
  // Transfer: what changes
  // ---------------------------------------------------------------------

  /** Statements the domain does not interpret leave the element as it is. */
  lemma {:induction false} TransferUnhandled(e: PElem, at: nat, s: Stmt, isTrueBranch: bool)
    requires Valid(e) && !Throws(s)
    requires s.Identity? || s.OtherStmt? || (s.Assign? && !Tracked(e, s.lhs)) ||
             (s.If? && !(Operand(e, s.cond.left) && Operand(e, s.cond.right))) ||
             (s.If? && s.cond.op !in {EqExpr, NeExpr})
    ensures Transfer(e, at, s, isTrueBranch) == e
  {
  }

  /** An assignment changes at most its target. */
  lemma {:induction false} TransferAssignFrame(e: PElem, at: nat, x: Var, rhs: Value, isTrueBranch: bool, v: Var)
    requires Valid(e) && e.Pts? && v != x && v in e.pointers
    ensures Transfer(e, at, Assign(Local(x), rhs), isTrueBranch).pointers[v] == e.pointers[v]
  {
  }

  /**
   * The new set of an assigned tracked local: a copy of the tracked source
   * local's set, {null}, or this allocation site when the statement is one of
   * the allocation units; otherwise the element is unchanged.  No other local
   * changes.
   */
  lemma {:induction false} TransferAssignExact(e: PElem, at: nat, x: Var, rhs: Value, isTrueBranch: bool)
    requires Valid(e) && e.Pts? && x in e.pointers
    ensures var p := e.pointers;
            Transfer(e, at, Assign(Local(x), rhs), isTrueBranch) ==
              Pts(p[x := if rhs.Local? && rhs.name in p then p[rhs.name]
                         else if rhs.NullConst? then {Null}
                         else if at in e.allocUnits then {Site(at)}
                         else p[x]], e.allocUnits)
  {
    var p := e.pointers;
    if !(rhs.Local? && rhs.name in p) && !rhs.NullConst? && at !in e.allocUnits {
      assert p[x := p[x]] == p;
    }
  }

  /** `Null in s && |s| == 1` is the set {null}. */
  lemma OnlyNull(s: set<Target>)
    ensures (Null in s && |s| == 1) <==> s == {Null}
  {
    if Null in s && |s| == 1 {
      forall t | t in s ensures t == Null {
        SingletonMember(s, t, Null);
      }
    }
  }

  /**
   * On the edge where two tracked locals are equal, the result is bottom
   * exactly when their sets share no target; otherwise both locals get the
   * shared targets and every other local keeps its set.
   */
  lemma {:induction false} MustAliasLocalsExact(e: PElem, at: nat, c: Cond, target: nat, isTrueBranch: bool,
                                                l: Var, r: Var)
    requires Valid(e) && e.Pts? && l in e.pointers && r in e.pointers
    requires c.left == Local(l) && c.right == Local(r) && SameEdge(c.op, isTrueBranch)
    ensures var p := e.pointers;
            var common := p[l] * p[r];
            var res := Transfer(e, at, If(c, target), isTrueBranch);
            (res == PBot <==> common == {}) &&
            (common != {} ==> res == Pts(p[l := common][r := common], e.allocUnits))
  {
  }

  /**
   * On the edge where two tracked locals differ: when exactly one of them is
   * {null}, null is removed from the other's set; when both are {null}, the
   * edge is unreachable; otherwise the element is kept unchanged.
   */
  lemma {:induction false} MayDifferLocalsExact(e: PElem, at: nat, c: Cond, target: nat, isTrueBranch: bool,
                                                l: Var, r: Var)
    requires Valid(e) && e.Pts? && l in e.pointers && r in e.pointers
    requires c.left == Local(l) && c.right == Local(r) && DifferentEdge(c.op, isTrueBranch)
    ensures var p := e.pointers;
            Transfer(e, at, If(c, target), isTrueBranch) ==
              if p[l] == {Null} && p[r] != {Null} then Pts(p[r := p[r] - {Null}], e.allocUnits)
              else if p[r] == {Null} && p[l] != {Null} then Pts(p[l := p[l] - {Null}], e.allocUnits)
              else if p[l] == {Null} && p[r] == {Null} then PBot
              else e
  {
    OnlyNull(e.pointers[l]);
    OnlyNull(e.pointers[r]);
  }

  /** A guard only ever refines the element. */
  lemma {:induction false} TransferGuardNarrows(e: PElem, at: nat, c: Cond, target: nat, isTrueBranch: bool)
    requires Valid(e) && !Throws(If(c, target))
    ensures Below(Transfer(e, at, If(c, target), isTrueBranch), e)
  {
    if e.Pts? && Operand(e, c.left) && Operand(e, c.right) {
      if SameEdge(c.op, isTrueBranch) {
        MustAliasValid(e, c.left, c.right);
      } else if DifferentEdge(c.op, isTrueBranch) {
        MayDifferValid(e, c.left, c.right);
      }
    }
  }

  // ---------------------------------------------------------------------
  // Transfer: soundness against concrete references
  // ---------------------------------------------------------------------

  lemma SingletonMember(s: set<Target>, a: Target, b: Target)
    requires a in s && b in s && |s| == 1
    ensures a == b
  {
    assert s == (s - {a}) + {a};
    assert |s - {a}| == 0;
    assert s - {a} == {};
  }

  /** The reference an operand holds: `null`, or the local's current target. */
  function Ref(env: map<Var, Target>, v: Value): Target
    requires v.NullConst? || (v.Local? && v.name in env)
  {
    if v.NullConst? then Null else env[v.name]
  }

  /** The comparison `a op b` of references has outcome `isTrueBranch`; other operators constrain nothing. */
  predicate RefHolds(op: CmpOp, a: Target, b: Target, isTrueBranch: bool) {
    match op
    case EqExpr => (a == b) == isTrueBranch
    case NeExpr => (a != b) == isTrueBranch
    case _ => true
  }

  /**
   * The reference `x = rhs` stores, when the domain interprets it: a tracked
   * local's target, `null`, or the site of this very allocation statement.
   */
  predicate Stores(e: PElem, at: nat, rhs: Value, env: map<Var, Target>, t: Target)
    requires Admits(e, env)
  {
    if rhs.Local? && rhs.name in e.pointers then t == env[rhs.name]
    else if rhs.NullConst? then t == Null
    else rhs.NewArray? && at in e.allocUnits && t == Site(at)
  }

  /** After `x = rhs`, the element admits the updated valuation. */
  lemma {:induction false} TransferAssignSound(e: PElem, at: nat, x: Var, rhs: Value, isTrueBranch: bool,
                                               env: map<Var, Target>, t: Target)
    requires Valid(e) && Admits(e, env) && x in e.pointers
    requires Stores(e, at, rhs, env, t)
    ensures Admits(Transfer(e, at, Assign(Local(x), rhs), isTrueBranch), env[x := t])
  {
  }

  /**
   * On each edge of an `==`/`!=` guard, every valuation of the element in
   * which the comparison has that edge's outcome is kept; in particular the
   * result is bottom only if no such valuation exists.
   */
  lemma {:induction false} TransferGuardSound(e: PElem, at: nat, c: Cond, target: nat, isTrueBranch: bool,
                                              env: map<Var, Target>)
    requires Valid(e) && Admits(e, env) && !Throws(If(c, target))
    requires Operand(e, c.left) && Operand(e, c.right) ==>
      RefHolds(c.op, Ref(env, c.left), Ref(env, c.right), isTrueBranch)
    ensures Admits(Transfer(e, at, If(c, target), isTrueBranch), env)
  {
    if Operand(e, c.left) && Operand(e, c.right) {
      var l, r := c.left, c.right;
      var p := e.pointers;
      if SameEdge(c.op, isTrueBranch) {
        assert Ref(env, l) == Ref(env, r);
        if !(l.NullConst? && Tracked(e, r)) && !(r.NullConst? && Tracked(e, l)) {
          var common := p[l.name] * p[r.name];
          assert env[l.name] == env[r.name];
          assert env[l.name] in common;
          var q := p[l.name := common][r.name := common];
          forall v | v in q ensures v in env && env[v] in q[v] {
          }
        }
      } else if DifferentEdge(c.op, isTrueBranch) {
        assert Ref(env, l) != Ref(env, r);
        if !(l.NullConst? && Tracked(e, r)) && !(r.NullConst? && Tracked(e, l)) {
          var ls, rs := p[l.name], p[r.name];
          if (Null in ls && |ls| == 1) && (Null !in rs || |rs| > 1) {
            SingletonMember(ls, env[l.name], Null);
            var q := p[r.name := rs - {Null}];
            forall v | v in q ensures v in env && env[v] in q[v] {
            }
          } else if (Null in rs && |rs| == 1) && (Null !in ls || |ls| > 1) {
            SingletonMember(rs, env[r.name], Null);
            var q := p[l.name := ls - {Null}];
            forall v | v in q ensures v in env && env[v] in q[v] {
            }
          } else if Null in ls && |ls| == 1 && Null in rs && |rs| == 1 {
            SingletonMember(ls, env[l.name], Null);
            SingletonMember(rs, env[r.name], Null);
            assert false;
          }
        } else {
          var y := if l.NullConst? then r.name else l.name;
          var ys := p[y];
          if Null in ys && |ys| > 1 {
            var q := p[y := ys - {Null}];
            forall v | v in q ensures v in env && env[v] in q[v] {
            }
          } else if Null in ys {
            assert |ys| == 1;
            SingletonMember(ys, env[y], Null);
            assert false;
          }
        }
      }
    }
  }

  /**
   * A guard against `null` is exact: the result admits precisely the
   * valuations of the element in which the local is (on the equal edge) or
   * is not (on the unequal edge) null.
   */
  lemma {:induction false} GuardAgainstNullExact(e: PElem, at: nat, c: Cond, target: nat, isTrueBranch: bool,
                                                 y: Var, env: map<Var, Target>)
    requires Valid(e) && e.Pts? && y in e.pointers && y in env
    requires c.op in {EqExpr, NeExpr}
    requires (c.left == NullConst && c.right == Local(y)) || (c.left == Local(y) && c.right == NullConst)
    ensures Admits(Transfer(e, at, If(c, target), isTrueBranch), env) <==>
      Admits(e, env) && ((env[y] == Null) <==> SameEdge(c.op, isTrueBranch))
  {
    var s := e.pointers[y];
    var r := Transfer(e, at, If(c, target), isTrueBranch);
    if Admits(r, env) {
      TransferGuardNarrows(e, at, c, target, isTrueBranch);
      BelowAdmits(r, e, env);
      if SameEdge(c.op, isTrueBranch) {
        assert r.pointers[y] == {Null};
      } else if Null in s && |s| > 1 {
        assert r.pointers[y] == s - {Null};
      } else {
        assert Null !in s;
      }
    } else if Admits(e, env) && ((env[y] == Null) <==> SameEdge(c.op, isTrueBranch)) {
      TransferGuardSound(e, at, c, target, isTrueBranch, env);
    }
  }

  // ---------------------------------------------------------------------
  // The `!=` edge as written mutates its receiver
  // ---------------------------------------------------------------------

  /**
   * With `a` exactly {null} and `b` in {null, site 7}, the true edge of
   * `a != b` removes null from the receiver's own set for `b`.  The false
   * edge computed from that receiver is then bottom, although `a == b ==
   * null` is a valuation of the original element on which `a != b` is
   * false, and the transfer from the unchanged element keeps it.
   */
  lemma MayDifferAsWrittenMutatesReceiver()
    ensures var e := Pts(map["a" := {Null}, "b" := {Null, Site(7)}], {7});
            var g := If(Cond(NeExpr, Local("a"), Local("b")), 5);
            var env := map["a" := Null, "b" := Null];
            var after := MayDifferAsWritten(e, Local("a"), Local("b")).1;
            after != e && Valid(after) &&
            Transfer(after, 0, g, false) == PBot &&
            Admits(e, env) && Admits(Transfer(e, 0, g, false), env)
  {
    var e := Pts(map["a" := {Null}, "b" := {Null, Site(7)}], {7});
    var g := If(Cond(NeExpr, Local("a"), Local("b")), 5);
    var env := map["a" := Null, "b" := Null];
    MutatedReceiver(e);
    TransferGuardSound(e, 0, g.cond, 5, false, env);
  }

  /** The receiver after the as-written call, on the example of `MayDifferAsWrittenMutatesReceiver`. */
  lemma MutatedReceiver(e: PElem)
    requires e == Pts(map["a" := {Null}, "b" := {Null, Site(7)}], {7})
    ensures var after := MayDifferAsWritten(e, Local("a"), Local("b")).1;
            after != e && Valid(after) &&
            Transfer(after, 0, If(Cond(NeExpr, Local("a"), Local("b")), 5), false) == PBot
  {
    var b: set<Target> := {Null, Site(7)};
    assert |b| == 2 by {
      assert b == {Null} + {Site(7)};
    }
    var after := MayDifferAsWritten(e, Local("a"), Local("b")).1;
    assert after.pointers["b"] == {Site(7)};
    assert after.pointers["b"] != e.pointers["b"];
    assert {Null} * {Site(7)} == {};
  }
}
