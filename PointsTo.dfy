/**
 * The integer-array points-to domain: each tracked array local is mapped to
 * the non-empty set of places it may point to, `null` or one of the
 * allocation statements in a fixed universe `allocUnits`; the element as a
 * whole may be bottom (an unreachable program point).
 *
 * Statements are identified by their position in the method body, so an
 * allocation site is the position of its `new int[..]` statement.
 */
module PointsTo {
  import opened Jimple

  datatype Target = Null | Site(unit: nat)

  datatype PElem = PBot | Pts(pointers: map<Var, set<Target>>, allocUnits: set<nat>)

  /** The two exceptions the constructor and `join` throw. */
  datatype Error = InvalidPointerMap | IncompatibleJoin

  datatype Result<T> = Ok(value: T) | Err(error: Error)

  // ---------------------------------------------------------------------
  // Meaning of an element
  // ---------------------------------------------------------------------

  /** A set the constructor accepts: non-empty, every member `null` or a known site. */
  predicate WellFormedSet(s: set<Target>, alloc: set<nat>) {
    s != {} && forall t :: t in s && t.Site? ==> t.unit in alloc
  }

  predicate WellFormed(m: map<Var, set<Target>>, alloc: set<nat>) {
    forall v :: v in m ==> WellFormedSet(m[v], alloc)
  }

  /** Every element the constructor can produce satisfies this. */
  predicate Valid(e: PElem) {
    e.PBot? || WellFormed(e.pointers, e.allocUnits)
  }

  /** The concrete reference held by each array local lies in a non-bottom element. */
  predicate Admits(e: PElem, env: map<Var, Target>) {
    e.Pts? && forall v :: v in e.pointers ==> v in env && env[v] in e.pointers[v]
  }

  /** `a` is at least as precise as `b`: bottom, or the same shape with smaller sets. */
  predicate Below(a: PElem, b: PElem) {
    a.PBot? ||
    (b.Pts? && a.allocUnits == b.allocUnits && a.pointers.Keys == b.pointers.Keys &&
     forall v :: v in a.pointers ==> a.pointers[v] <= b.pointers[v])
  }

  // ---------------------------------------------------------------------
  // Constructor
  // ---------------------------------------------------------------------

  /** The validating constructor: the element itself, or `InvalidPointerMap`. */
  function Make(given: map<Var, set<Target>>, alloc: set<nat>): (r: Result<PElem>)
    ensures r.Ok? ==> r.value == Pts(given, alloc) && Valid(r.value)
  {
    if WellFormed(given, alloc) then Ok(Pts(given, alloc)) else Err(InvalidPointerMap)
  }

  /**
   * The constructor as the source runs it: for every local, reject an empty
   * set, then reject every member that is neither `null` nor a known site.
   */
  method NewPointsTo(given: map<Var, set<Target>>, alloc: set<nat>) returns (r: Result<PElem>)
    ensures r == Make(given, alloc)
    ensures r.Err? <==>
      (exists v :: v in given && (given[v] == {} || exists t :: t in given[v] && t.Site? && t.unit !in alloc))
  {
    var keys := given.Keys;
    while keys != {}
      invariant keys <= given.Keys
      invariant forall v :: v in given && v !in keys ==> WellFormedSet(given[v], alloc)
      decreases keys
    {
      var v :| v in keys;
      var units := given[v];
      if units == {} {
        return Err(InvalidPointerMap);
      }
      var rest := units;
      while rest != {}
        invariant rest <= units
        invariant forall t :: t in units && t !in rest && t.Site? ==> t.unit in alloc
        decreases rest
      {
        var t :| t in rest;
        if t.Site? && t.unit !in alloc {
          return Err(InvalidPointerMap);
        }
        rest := rest - {t};
      }
      keys := keys - {v};
    }
    return Ok(Pts(given, alloc));
  }

  /** A constructor call the caller knows to succeed. */
  method Build(m: map<Var, set<Target>>, alloc: set<nat>) returns (e: PElem)
    requires WellFormed(m, alloc)
    ensures e == Pts(m, alloc)
  {
    var built := NewPointsTo(m, alloc);
    e := built.value;
  }

  /** `equals`: two bottoms are equal, bottom differs from every element, the rest compare map and universe. */
  function Equal(a: PElem, b: PElem): (r: bool)
    ensures r <==> a == b
  {
    if a.PBot? && b.PBot? then true
    else if a.PBot? || b.PBot? then false
    else a.pointers == b.pointers && a.allocUnits == b.allocUnits
  }

  // ---------------------------------------------------------------------
  // Join
  // ---------------------------------------------------------------------

  function Union(a: map<Var, set<Target>>, b: map<Var, set<Target>>): map<Var, set<Target>>
    requires a.Keys <= b.Keys
  {
    map v | v in a :: a[v] + b[v]
  }

  /**
   * `join`: bottom is the identity; two elements over different universes or
   * different locals are incompatible; otherwise each local gets the union of
   * both sets, rebuilt by the constructor.
   */
  function Join(a: PElem, b: PElem): (r: Result<PElem>)
    ensures a.PBot? ==> r == Ok(b)
    ensures a.Pts? && b.PBot? ==> r == Ok(a)
  {
    if a.PBot? then Ok(b)
    else if b.PBot? then Ok(a)
    else if a.allocUnits != b.allocUnits || a.pointers.Keys != b.pointers.Keys then Err(IncompatibleJoin)
    else Make(Union(a.pointers, b.pointers), a.allocUnits)
  }

  /** `join` as the source runs it: a loop adding both sets into a fresh map, then the constructor. */
  method JoinElements(a: PElem, b: PElem) returns (r: Result<PElem>)
    ensures r == Join(a, b)
  {
    if a.PBot? {
      return Ok(b);
    }
    if b.PBot? {
      return Ok(a);
    }
    if a.allocUnits != b.allocUnits || a.pointers.Keys != b.pointers.Keys {
      return Err(IncompatibleJoin);
    }
    var newPointerMap: map<Var, set<Target>> := map[];
    var keys := a.pointers.Keys;
    while keys != {}
      invariant keys <= a.pointers.Keys
      invariant newPointerMap.Keys == a.pointers.Keys - keys
      invariant forall v :: v in newPointerMap ==> newPointerMap[v] == a.pointers[v] + b.pointers[v]
      decreases keys
    {
      var v :| v in keys;
      var newUnits: set<Target> := {};
      newUnits := newUnits + a.pointers[v];
      newUnits := newUnits + b.pointers[v];
      newPointerMap := newPointerMap[v := newUnits];
      keys := keys - {v};
    }
    assert newPointerMap == Union(a.pointers, b.pointers);
    r := NewPointsTo(newPointerMap, a.allocUnits);
  }

  // ---------------------------------------------------------------------
  // Transfer function
  // ---------------------------------------------------------------------

  /** A local the element tracks. */
  predicate Tracked(e: PElem, v: Value) {
    e.Pts? && v.Local? && v.name in e.pointers
  }

  /** A guard operand the points-to domain interprets: a tracked local or `null`. */
  predicate Operand(e: PElem, v: Value) {
    Tracked(e, v) || v.NullConst?
  }

  /**
   * The input on which `tf_assignment` throws: an `==` or `!=` guard between
   * two `null` constants reaches the cast of an operand to a local.
   */
  predicate Throws(s: Stmt) {
    s.If? && s.cond.left.NullConst? && s.cond.right.NullConst? && s.cond.op in {EqExpr, NeExpr}
  }

  /** Both sides of `left == right` refer to the same place on this edge. */
  predicate SameEdge(op: CmpOp, isTrueBranch: bool) {
    (op == EqExpr && isTrueBranch) || (op == NeExpr && !isTrueBranch)
  }

  /** The two sides of `left == right` differ on this edge. */
  predicate DifferentEdge(op: CmpOp, isTrueBranch: bool) {
    (op == EqExpr && !isTrueBranch) || (op == NeExpr && isTrueBranch)
  }

  /** An assignment `x = rhs` to a tracked `x`, the statement being the unit at position `at`. */
  function AssignTracked(e: PElem, x: Var, at: nat, rhs: Value): PElem
    requires e.Pts? && x in e.pointers
  {
    var p := e.pointers;
    if rhs.Local? && rhs.name in p then Pts(p[x := p[rhs.name]], e.allocUnits)
    else if rhs.NullConst? then Pts(p[x := {Null}], e.allocUnits)
    else if at in e.allocUnits then Pts(p[x := {Site(at)}], e.allocUnits)
    else e
  }

  /** The edge on which `left` and `right` are equal. */
  function MustAlias(e: PElem, left: Value, right: Value): (r: PElem)
    requires Operand(e, left) && Operand(e, right) && !(left.NullConst? && right.NullConst?)
    ensures Below(r, e)
    ensures r.Pts? && left.NullConst? ==> r.pointers[right.name] == {Null}
    ensures r.Pts? && right.NullConst? ==> r.pointers[left.name] == {Null}
    ensures r.Pts? && left.Local? && right.Local? ==> r.pointers[left.name] == r.pointers[right.name]
  {
    var p := e.pointers;
    if left.NullConst? && Tracked(e, right) then
      if Null in p[right.name] then Pts(p[right.name := {Null}], e.allocUnits) else PBot
    else if right.NullConst? && Tracked(e, left) then
      if Null in p[left.name] then Pts(p[left.name := {Null}], e.allocUnits) else PBot
    else
      var common := p[left.name] * p[right.name];
      if common == {} then PBot
      else Pts(p[left.name := common][right.name := common], e.allocUnits)
  }

  /** The edge on which `left` and `right` differ. */
  function MayDiffer(e: PElem, left: Value, right: Value): (r: PElem)
    requires Operand(e, left) && Operand(e, right) && !(left.NullConst? && right.NullConst?)
    ensures Below(r, e)
    ensures r.Pts? && left.NullConst? ==> Null !in r.pointers[right.name]
    ensures r.Pts? && right.NullConst? ==> Null !in r.pointers[left.name]
  {
    var p := e.pointers;
    if left.NullConst? && Tracked(e, right) then
      var s := p[right.name];
      if Null in s && |s| > 1 then Pts(p[right.name := s - {Null}], e.allocUnits)
      else if Null !in s then e
      else PBot
    else if right.NullConst? && Tracked(e, left) then
      var s := p[left.name];
      if Null in s && |s| > 1 then Pts(p[left.name := s - {Null}], e.allocUnits)
      else if Null !in s then e
      else PBot
    else
      var l, r := p[left.name], p[right.name];
      if (Null in l && |l| == 1) && (Null !in r || |r| > 1) then
        Pts(p[right.name := r - {Null}], e.allocUnits)
      else if (Null in r && |r| == 1) && (Null !in l || |l| > 1) then
        Pts(p[left.name := l - {Null}], e.allocUnits)
      else if Null in l && |l| == 1 && Null in r && |r| == 1 then PBot
      else e
  }

  /**
   * The `!=` edge as written: the result is `MayDiffer`, but when one side is
   * exactly {null} the map copy is shallow and `remove(null)` also empties
   * `null` out of the receiver's own set.  Returns the result and the
   * receiver as it is after the call.
   */
  function MayDifferAsWritten(e: PElem, left: Value, right: Value): (r: (PElem, PElem))
    requires Operand(e, left) && Operand(e, right) && !(left.NullConst? && right.NullConst?)
    ensures r.0 == MayDiffer(e, left, right)
    ensures r.1 == e || r.1 == r.0
  {
    var p := e.pointers;
    if left.NullConst? || right.NullConst? then (MayDiffer(e, left, right), e)
    else
      var l, r := p[left.name], p[right.name];
      if (Null in l && |l| == 1) && (Null !in r || |r| > 1) then
        var after := Pts(p[right.name := r - {Null}], e.allocUnits);
        (after, after)
      else if (Null in r && |r| == 1) && (Null !in l || |l| > 1) then
        var after := Pts(p[left.name := l - {Null}], e.allocUnits);
        (after, after)
      else (MayDiffer(e, left, right), e)
  }

  lemma RemoveNullNonEmpty(s: set<Target>)
    requires s != {} && (Null !in s || |s| > 1)
    ensures s - {Null} != {}
  {
    if Null in s {
      assert s == (s - {Null}) + {Null};
      assert |s| == |s - {Null}| + 1;
    } else {
      assert s - {Null} == s;
    }
  }

  lemma {:induction false} MustAliasValid(e: PElem, left: Value, right: Value)
    requires Valid(e)
    requires Operand(e, left) && Operand(e, right) && !(left.NullConst? && right.NullConst?)
    ensures Below(MustAlias(e, left, right), e) && Valid(MustAlias(e, left, right))
  {
  }

  lemma {:induction false} MayDifferValid(e: PElem, left: Value, right: Value)
    requires Valid(e)
    requires Operand(e, left) && Operand(e, right) && !(left.NullConst? && right.NullConst?)
    ensures Below(MayDiffer(e, left, right), e) && Valid(MayDiffer(e, left, right))
  {
    var p := e.pointers;
    if left.NullConst? && Tracked(e, right) {
      var s := p[right.name];
      if Null in s && |s| > 1 {
        RemoveNullNonEmpty(s);
      }
    } else if right.NullConst? && Tracked(e, left) {
      var s := p[left.name];
      if Null in s && |s| > 1 {
        RemoveNullNonEmpty(s);
      }
    } else {
      var l, r := p[left.name], p[right.name];
      if (Null in l && |l| == 1) && (Null !in r || |r| > 1) {
        RemoveNullNonEmpty(r);
      } else if (Null in r && |r| == 1) && (Null !in l || |l| > 1) {
        RemoveNullNonEmpty(l);
      }
    }
  }

  /**
   * `tf_assignment(stmt, isTrueBranch)`: bottom stays bottom; an assignment
   * to a tracked local copies, nulls or allocates it; an `==`/`!=` guard over
   * tracked locals and `null` narrows on each edge; anything else is a clone,
   * which for an element the constructor built is the element itself.
   */
  function Transfer(e: PElem, at: nat, s: Stmt, isTrueBranch: bool): (r: PElem)
    requires Valid(e) && !Throws(s)
    ensures Valid(r)
    ensures e.PBot? ==> r == PBot
    ensures r.Pts? ==> e.Pts? && r.allocUnits == e.allocUnits && r.pointers.Keys == e.pointers.Keys
  {
    if e.PBot? then PBot
    else match s
      case Assign(lhs, rhs) =>
        if Tracked(e, lhs) then AssignTracked(e, lhs.name, at, rhs) else e
      case If(c, _) =>
        if Operand(e, c.left) && Operand(e, c.right) then
          if SameEdge(c.op, isTrueBranch) then
            MustAliasValid(e, c.left, c.right);
            MustAlias(e, c.left, c.right)
          else if DifferentEdge(c.op, isTrueBranch) then
            MayDifferValid(e, c.left, c.right);
            MayDiffer(e, c.left, c.right)
          else e
        else e
      case _ => e
  }

  /**
   * `tf_assignment` as the source runs it: shallow copies of the map with
   * the new set put in, each handed to the constructor.
   */
  method TfAssignment(e: PElem, at: nat, s: Stmt, isTrueBranch: bool) returns (r: PElem)
    requires Valid(e) && !Throws(s)
    ensures r == Transfer(e, at, s, isTrueBranch)
  {
    if e.PBot? {
      return PBot;
    }
    var p := e.pointers;
    match s {
      case Assign(lhs, rhs) =>
        if Tracked(e, lhs) {
          var x := lhs.name;
          if rhs.Local? && rhs.name in p {
            r := Build(p[x := p[rhs.name]], e.allocUnits);
            return;
          }
          if rhs.NullConst? {
            r := Build(p[x := {Null}], e.allocUnits);
            return;
          }
          if at in e.allocUnits {
            r := Build(p[x := {Site(at)}], e.allocUnits);
            return;
          }
        }
      case If(c, _) =>
        if Operand(e, c.left) && Operand(e, c.right) {
          if SameEdge(c.op, isTrueBranch) {
            MustAliasValid(e, c.left, c.right);
            var narrowed := MustAlias(e, c.left, c.right);
            if narrowed.PBot? {
              return PBot;
            }
            r := Build(narrowed.pointers, e.allocUnits);
            return;
          }
          if DifferentEdge(c.op, isTrueBranch) {
            MayDifferValid(e, c.left, c.right);
            var narrowed := MayDiffer(e, c.left, c.right);
            if narrowed.PBot? {
              return PBot;
            }
            r := Build(narrowed.pointers, e.allocUnits);
            return;
          }
        }
      case Identity(_) =>
      case OtherStmt(_) =>
    }
    r := Build(p, e.allocUnits);
  }
}
