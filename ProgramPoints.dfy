/**
 * The preparation step of the analysis driver: it picks out the integer
 * locals and the statements that mention them, numbers the program point
 * before every unit of the control-flow graph (the entry unit first), and
 * records for every edge between two points the unit that labels it and
 * whether it is the jump edge of an `if`.
 *
 * Units are identified by their position in the body; the graph iterates
 * them in body order.
 */
module ProgramPoints {
  import opened Jimple

  /** A unit of the graph with the positions of its successors, as the graph lists them. */
  datatype Node = Node(stmt: Stmt, succs: seq<nat>)

  /** The graph has its entry unit among its units and every successor is a unit. */
  predicate ValidGraph(g: seq<Node>, entry: nat) {
    entry < |g| && forall u, s :: 0 <= u < |g| && s in g[u].succs ==> s < |g|
  }

  // ---------------------------------------------------------------------
  // Integer locals and the statements that use them
  // ---------------------------------------------------------------------

  /** int, long, byte and short locals are tracked by the interval domain. */
  predicate IsIntegerType(t: LocalType) {
    t == IntType || t == LongType || t == ByteType || t == ShortType
  }

  /** The names of the integer locals, in declaration order. */
  function IntegerLocals(locals: seq<(Var, LocalType)>): (r: seq<Var>)
    ensures |r| <= |locals|
  {
    if |locals| == 0 then []
    else
      var last := locals[|locals| - 1];
      IntegerLocals(locals[..|locals| - 1]) + (if IsIntegerType(last.1) then [last.0] else [])
  }

  predicate IsIntegerLocal(v: Value, ints: seq<Var>) {
    v.Local? && v.name in ints
  }

  /** Some use or definition box of the statement holds an integer local. */
  predicate UsesInteger(s: Stmt, ints: seq<Var>) {
    exists j :: 0 <= j < |StmtBoxes(s)| && IsIntegerLocal(StmtBoxes(s)[j], ints)
  }

  /** The positions below `k` of the units that use an integer local, in body order. */
  function IntStatements(g: seq<Node>, ints: seq<Var>, k: nat): (r: seq<nat>)
    requires k <= |g|
    ensures forall j :: 0 <= j < |r| ==> r[j] < k
  {
    if k == 0 then []
    else IntStatements(g, ints, k - 1) + (if UsesInteger(g[k - 1].stmt, ints) then [k - 1] else [])
  }

  /** The loop over the body's locals, keeping those of an integer type. */
  method CollectIntegerLocals(locals: seq<(Var, LocalType)>) returns (integerLocals: seq<Var>)
    ensures integerLocals == IntegerLocals(locals)
  {
    integerLocals := [];
    for k := 0 to |locals|
      invariant integerLocals == IntegerLocals(locals[..k])
    {
      assert locals[..k + 1][..k] == locals[..k];
      if IsIntegerType(locals[k].1) {
        integerLocals := integerLocals + [locals[k].0];
      }
    }
    assert locals[..|locals|] == locals;
  }

  /** The loop over the units, adding each unit that has a box holding an integer local. */
  method CollectIntStatements(g: seq<Node>, ints: seq<Var>) returns (intStatements: seq<nat>)
    ensures intStatements == IntStatements(g, ints, |g|)
  {
    intStatements := [];
    for u := 0 to |g|
      invariant intStatements == IntStatements(g, ints, u)
    {
      var found := HasIntegerBox(g[u].stmt, ints);
      if found {
        intStatements := intStatements + [u];
      }
    }
  }

  /** The inner loop over a unit's use and definition boxes, stopping at the first integer local. */
  method HasIntegerBox(s: Stmt, ints: seq<Var>) returns (found: bool)
    ensures found == UsesInteger(s, ints)
  {
    var boxes := StmtBoxes(s);
    var j := 0;
    while j < |boxes|
      invariant 0 <= j <= |boxes|
      invariant forall i :: 0 <= i < j ==> !IsIntegerLocal(boxes[i], ints)
    {
      if boxes[j].Local? && boxes[j].name in ints {
        return true;
      }
      j := j + 1;
    }
    return false;
  }

  // ---------------------------------------------------------------------
  // Program points
  // ---------------------------------------------------------------------

  /** The point before unit `u`: 0 for the entry, then 1, 2, ... for the others in body order. */
  function Pt(entry: nat, u: nat): nat {
    if u == entry then 0 else if u < entry then u + 1 else u
  }

  /** The unit whose point is `p`. */
  function UnitAt(entry: nat, p: nat): nat {
    if p == 0 then entry else if p <= entry then p - 1 else p
  }

  /** The successor list of every unit, as a set. */
  method BuildFlow(g: seq<Node>) returns (flow: map<nat, set<nat>>)
    ensures forall u :: u in flow <==> 0 <= u < |g|
    ensures forall u :: 0 <= u < |g| ==> flow[u] == set s | s in g[u].succs
  {
    flow := map[];
    for u := 0 to |g|
      invariant forall w :: w in flow <==> 0 <= w < u
      invariant forall w :: 0 <= w < u ==> flow[w] == set s | s in g[w].succs
    {
      flow := flow[u := {}];
      for k := 0 to |g[u].succs|
        invariant u in flow
        invariant forall w :: w in flow <==> 0 <= w <= u
        invariant forall w :: 0 <= w < u ==> flow[w] == set s | s in g[w].succs
        invariant flow[u] == set s | s in g[u].succs[..k]
      {
        flow := flow[u := flow[u] + {g[u].succs[k]}];
      }
      assert g[u].succs[..|g[u].succs|] == g[u].succs;
    }
  }

  /** The numbering loop: the entry gets 0 and a counter numbers the other units from 1. */
  method NumberPoints(g: seq<Node>, entry: nat) returns (pointBeforeUnit: map<nat, nat>)
    requires entry < |g|
    ensures forall u :: u in pointBeforeUnit <==> 0 <= u < |g|
    ensures forall u :: u in pointBeforeUnit ==> pointBeforeUnit[u] == Pt(entry, u)
  {
    pointBeforeUnit := map[entry := 0];
    var i := 1;
    for u := 0 to |g|
      invariant forall w :: w in pointBeforeUnit <==> 0 <= w < u || w == entry
      invariant forall w :: w in pointBeforeUnit ==> pointBeforeUnit[w] == Pt(entry, w)
      invariant i == if entry < u then u else u + 1
    {
      if u != entry {
        pointBeforeUnit := pointBeforeUnit[u := i];
        i := i + 1;
      }
    }
  }

  /** Points 0 .. n-1 are exactly the points of the n units, one each. */
  lemma {:induction false} PointsAreBijective(n: nat, entry: nat)
    requires entry < n
    ensures Pt(entry, entry) == 0
    ensures forall u :: 0 <= u < n ==> Pt(entry, u) < n && UnitAt(entry, Pt(entry, u)) == u
    ensures forall p :: 0 <= p < n ==> UnitAt(entry, p) < n && Pt(entry, UnitAt(entry, p)) == p
  {
  }

  // ---------------------------------------------------------------------
  // Edges between program points
  // ---------------------------------------------------------------------

  /** The edge from `u` to `s` is the jump edge of an `if`. */
  predicate IsTrueEdge(g: seq<Node>, u: nat, s: nat) {
    u < |g| && g[u].stmt.If? && s == g[u].stmt.target
  }

  /** The point pair `(a, b)` is the image of a CFG edge. */
  predicate IsPointEdge(g: seq<Node>, entry: nat, a: nat, b: nat) {
    a < |g| && b < |g| && UnitAt(entry, a) < |g| && UnitAt(entry, b) in g[UnitAt(entry, a)].succs
  }

  /**
   * What the inner loop leaves for unit `u`: `succPoints` holds the points
   * of u's successors, and each pair (point of u, successor point) is
   * labelled with u and, when it is u's jump edge, marked as a true branch.
   */
  ghost predicate UnitConnected(g: seq<Node>, entry: nat, u: nat, succPoints: set<nat>,
                                enclosingBefore: map<(nat, nat), nat>, enclosingUnit: map<(nat, nat), nat>,
                                trueBefore: set<(nat, nat)>, trueBranches: set<(nat, nat)>)
    requires u < |g|
  {
    (forall q :: q in succPoints <==> 0 <= q < |g| && UnitAt(entry, q) in g[u].succs) &&
    (forall a, b :: (a, b) in enclosingUnit <==>
      (a, b) in enclosingBefore || (a == Pt(entry, u) && b in succPoints)) &&
    (forall a, b :: (a, b) in enclosingUnit ==>
      enclosingUnit[(a, b)] == if a == Pt(entry, u) && b in succPoints then u else enclosingBefore[(a, b)]) &&
    (forall a, b :: (a, b) in trueBranches <==>
      (a, b) in trueBefore || (a == Pt(entry, u) && b in succPoints && IsTrueEdge(g, u, UnitAt(entry, b))))
  }

  /**
   * The inner loop for one unit `u`: for each of its successors s, add the
   * point of s to `succPoints`, label the pair of points with u, and mark
   * the pair as a true branch when u is an `if` whose jump target is s.
   */
  method ConnectUnit(g: seq<Node>, entry: nat, u: nat, succs: set<nat>, pointBeforeUnit: map<nat, nat>,
                     enclosingBefore: map<(nat, nat), nat>, trueBefore: set<(nat, nat)>)
    returns (succPoints: set<nat>, enclosingUnit: map<(nat, nat), nat>, trueBranches: set<(nat, nat)>)
    requires ValidGraph(g, entry) && u < |g|
    requires forall s :: s in succs <==> s in g[u].succs
    requires forall w :: w in pointBeforeUnit <==> 0 <= w < |g|
    requires forall w :: w in pointBeforeUnit ==> pointBeforeUnit[w] == Pt(entry, w)
    ensures UnitConnected(g, entry, u, succPoints, enclosingBefore, enclosingUnit, trueBefore, trueBranches)
  {
    PointsAreBijective(|g|, entry);
    var uPoint := pointBeforeUnit[u];
    succPoints := {};
    enclosingUnit := enclosingBefore;
    trueBranches := trueBefore;
    var rest := succs;
    while rest != {}
      invariant rest <= succs
      invariant forall q :: q in succPoints <==> 0 <= q < |g| && UnitAt(entry, q) in succs && UnitAt(entry, q) !in rest
      invariant forall a, b :: (a, b) in enclosingUnit <==>
        (a, b) in enclosingBefore || (a == uPoint && b in succPoints)
      invariant forall a, b :: (a, b) in enclosingUnit ==>
        enclosingUnit[(a, b)] == if a == uPoint && b in succPoints then u else enclosingBefore[(a, b)]
      invariant forall a, b :: (a, b) in trueBranches <==>
        (a, b) in trueBefore || (a == uPoint && b in succPoints && IsTrueEdge(g, u, UnitAt(entry, b)))
      decreases rest
    {
      var succ :| succ in rest;
      var succPoint := pointBeforeUnit[succ];
      succPoints := succPoints + {succPoint};
      enclosingUnit := enclosingUnit[(uPoint, succPoint) := u];
      if g[u].stmt.If? {
        var isTrueBranch := succ == g[u].stmt.target;
        if isTrueBranch {
          trueBranches := trueBranches + {(uPoint, succPoint)};
        }
      }
      rest := rest - {succ};
    }
  }

  /** What the outer loop has built once the units in `done` are processed. */
  ghost predicate Connected(g: seq<Node>, entry: nat, done: set<nat>, flowPoints: map<nat, set<nat>>,
                            enclosingUnit: map<(nat, nat), nat>, trueBranches: set<(nat, nat)>)
  {
    (forall p :: p in flowPoints <==> 0 <= p < |g| && UnitAt(entry, p) in done) &&
    (forall p, q :: p in flowPoints ==> (q in flowPoints[p] <==> (p, q) in enclosingUnit)) &&
    (forall a, b :: (a, b) in enclosingUnit ==>
      IsPointEdge(g, entry, a, b) && UnitAt(entry, a) in done && enclosingUnit[(a, b)] == UnitAt(entry, a)) &&
    (forall u, s :: 0 <= u < |g| && u in done && s in g[u].succs ==>
      (Pt(entry, u), Pt(entry, s)) in enclosingUnit) &&
    (forall a, b :: (a, b) in trueBranches <==>
      (a, b) in enclosingUnit && IsTrueEdge(g, UnitAt(entry, a), UnitAt(entry, b)))
  }

  /** Processing one more unit keeps `Connected`. */
  lemma {:induction false} ConnectedStep(g: seq<Node>, entry: nat, done: set<nat>, u: nat,
                                  flowPoints: map<nat, set<nat>>, enclosingBefore: map<(nat, nat), nat>,
                                  trueBefore: set<(nat, nat)>, succPoints: set<nat>,
                                  enclosingUnit: map<(nat, nat), nat>, trueBranches: set<(nat, nat)>)
    requires ValidGraph(g, entry) && u < |g| && u !in done
    requires Connected(g, entry, done, flowPoints, enclosingBefore, trueBefore)
    requires UnitConnected(g, entry, u, succPoints, enclosingBefore, enclosingUnit, trueBefore, trueBranches)
    ensures Connected(g, entry, done + {u}, flowPoints[Pt(entry, u) := succPoints], enclosingUnit, trueBranches)
  {
    StepFlowPoints(g, entry, done, u, flowPoints, enclosingBefore, trueBefore, succPoints, enclosingUnit, trueBranches);
    StepEnclosing(g, entry, done, u, flowPoints, enclosingBefore, trueBefore, succPoints, enclosingUnit, trueBranches);
    StepEdges(g, entry, done, u, flowPoints, enclosingBefore, trueBefore, succPoints, enclosingUnit, trueBranches);
    StepTrueBranches(g, entry, done, u, flowPoints, enclosingBefore, trueBefore, succPoints, enclosingUnit, trueBranches);
  }

  lemma {:induction false} StepFlowPoints(g: seq<Node>, entry: nat, done: set<nat>, u: nat,
                                  flowPoints: map<nat, set<nat>>, enclosingBefore: map<(nat, nat), nat>,
                                  trueBefore: set<(nat, nat)>, succPoints: set<nat>,
                                  enclosingUnit: map<(nat, nat), nat>, trueBranches: set<(nat, nat)>)
    requires ValidGraph(g, entry) && u < |g| && u !in done
    requires Connected(g, entry, done, flowPoints, enclosingBefore, trueBefore)
    requires UnitConnected(g, entry, u, succPoints, enclosingBefore, enclosingUnit, trueBefore, trueBranches)
    ensures var fp := flowPoints[Pt(entry, u) := succPoints];
      (forall p :: p in fp <==> 0 <= p < |g| && UnitAt(entry, p) in done + {u}) &&
      (forall p, q :: p in fp ==> (q in fp[p] <==> (p, q) in enclosingUnit))
  {
    PointsAreBijective(|g|, entry);
    var uPoint := Pt(entry, u);
    var fp := flowPoints[uPoint := succPoints];
    forall p ensures p in fp <==> 0 <= p < |g| && UnitAt(entry, p) in done + {u} {
      if p != uPoint && 0 <= p < |g| {
        assert UnitAt(entry, p) != u;
      }
    }
    forall p, q | p in fp ensures q in fp[p] <==> (p, q) in enclosingUnit {
      if p != uPoint {
        assert (p, q) in enclosingUnit <==> (p, q) in enclosingBefore;
      }
    }
  }

  lemma {:induction false} StepEnclosing(g: seq<Node>, entry: nat, done: set<nat>, u: nat,
                                  flowPoints: map<nat, set<nat>>, enclosingBefore: map<(nat, nat), nat>,
                                  trueBefore: set<(nat, nat)>, succPoints: set<nat>,
                                  enclosingUnit: map<(nat, nat), nat>, trueBranches: set<(nat, nat)>)
    requires ValidGraph(g, entry) && u < |g| && u !in done
    requires Connected(g, entry, done, flowPoints, enclosingBefore, trueBefore)
    requires UnitConnected(g, entry, u, succPoints, enclosingBefore, enclosingUnit, trueBefore, trueBranches)
    ensures forall a, b :: (a, b) in enclosingUnit ==>
      IsPointEdge(g, entry, a, b) && UnitAt(entry, a) in done + {u} && enclosingUnit[(a, b)] == UnitAt(entry, a)
  {
    PointsAreBijective(|g|, entry);
    forall a, b | (a, b) in enclosingUnit
      ensures IsPointEdge(g, entry, a, b) && UnitAt(entry, a) in done + {u} && enclosingUnit[(a, b)] == UnitAt(entry, a)
    {
      if a == Pt(entry, u) && b in succPoints {
      } else {
        assert (a, b) in enclosingBefore;
      }
    }
  }

  lemma {:induction false} StepEdges(g: seq<Node>, entry: nat, done: set<nat>, u: nat,
                                  flowPoints: map<nat, set<nat>>, enclosingBefore: map<(nat, nat), nat>,
                                  trueBefore: set<(nat, nat)>, succPoints: set<nat>,
                                  enclosingUnit: map<(nat, nat), nat>, trueBranches: set<(nat, nat)>)
    requires ValidGraph(g, entry) && u < |g| && u !in done
    requires Connected(g, entry, done, flowPoints, enclosingBefore, trueBefore)
    requires UnitConnected(g, entry, u, succPoints, enclosingBefore, enclosingUnit, trueBefore, trueBranches)
    ensures forall v, s :: 0 <= v < |g| && v in done + {u} && s in g[v].succs ==>
      (Pt(entry, v), Pt(entry, s)) in enclosingUnit
  {
    PointsAreBijective(|g|, entry);
    forall v, s | 0 <= v < |g| && v in done + {u} && s in g[v].succs
      ensures (Pt(entry, v), Pt(entry, s)) in enclosingUnit
    {
      if v == u {
        assert Pt(entry, s) in succPoints;
      } else {
        assert (Pt(entry, v), Pt(entry, s)) in enclosingBefore;
      }
    }
  }

  lemma {:induction false} StepTrueBranches(g: seq<Node>, entry: nat, done: set<nat>, u: nat,
                                  flowPoints: map<nat, set<nat>>, enclosingBefore: map<(nat, nat), nat>,
                                  trueBefore: set<(nat, nat)>, succPoints: set<nat>,
                                  enclosingUnit: map<(nat, nat), nat>, trueBranches: set<(nat, nat)>)
    requires ValidGraph(g, entry) && u < |g| && u !in done
    requires Connected(g, entry, done, flowPoints, enclosingBefore, trueBefore)
    requires UnitConnected(g, entry, u, succPoints, enclosingBefore, enclosingUnit, trueBefore, trueBranches)
    ensures forall a, b :: (a, b) in trueBranches <==>
      (a, b) in enclosingUnit && IsTrueEdge(g, UnitAt(entry, a), UnitAt(entry, b))
  {
    PointsAreBijective(|g|, entry);
    forall a, b ensures (a, b) in trueBranches <==>
      (a, b) in enclosingUnit && IsTrueEdge(g, UnitAt(entry, a), UnitAt(entry, b))
    {
      if a == Pt(entry, u) {
        assert UnitAt(entry, a) == u;
      }
    }
  }

  /** One iteration of the outer loop: connect unit `u` and record its successor points. */
  method ConnectNext(g: seq<Node>, entry: nat, ghost done: set<nat>, u: nat, succs: set<nat>,
                     pointBeforeUnit: map<nat, nat>, flowPoints: map<nat, set<nat>>,
                     enclosingUnit: map<(nat, nat), nat>, trueBranches: set<(nat, nat)>)
    returns (flowNext: map<nat, set<nat>>, enclosingNext: map<(nat, nat), nat>, trueNext: set<(nat, nat)>)
    requires ValidGraph(g, entry) && u < |g| && u !in done
    requires forall s :: s in succs <==> s in g[u].succs
    requires forall w :: w in pointBeforeUnit <==> 0 <= w < |g|
    requires forall w :: w in pointBeforeUnit ==> pointBeforeUnit[w] == Pt(entry, w)
    requires Connected(g, entry, done, flowPoints, enclosingUnit, trueBranches)
    ensures Connected(g, entry, done + {u}, flowNext, enclosingNext, trueNext)
  {
    var uPoint := pointBeforeUnit[u];
    var succPoints;
    succPoints, enclosingNext, trueNext := ConnectUnit(g, entry, u, succs, pointBeforeUnit, enclosingUnit, trueBranches);
    ConnectedStep(g, entry, done, u, flowPoints, enclosingUnit, trueBranches, succPoints, enclosingNext, trueNext);
    flowNext := flowPoints[uPoint := succPoints];
  }

  /** Once every unit is processed, `Connected` gives the outer loop's postcondition. */
  lemma {:induction false} ConnectedComplete(g: seq<Node>, entry: nat, done: set<nat>, flowPoints: map<nat, set<nat>>,
                                             enclosingUnit: map<(nat, nat), nat>, trueBranches: set<(nat, nat)>)
    requires ValidGraph(g, entry)
    requires forall u :: 0 <= u < |g| ==> u in done
    requires Connected(g, entry, done, flowPoints, enclosingUnit, trueBranches)
    ensures forall p :: p in flowPoints <==> 0 <= p < |g|
    ensures forall p, q :: p in flowPoints ==> (q in flowPoints[p] <==> (p, q) in enclosingUnit)
    ensures forall a, b :: (a, b) in enclosingUnit ==>
      IsPointEdge(g, entry, a, b) && enclosingUnit[(a, b)] == UnitAt(entry, a)
    ensures forall u, s :: 0 <= u < |g| && s in g[u].succs ==> (Pt(entry, u), Pt(entry, s)) in enclosingUnit
    ensures forall a, b :: (a, b) in trueBranches <==>
      (a, b) in enclosingUnit && IsTrueEdge(g, UnitAt(entry, a), UnitAt(entry, b))
  {
    PointsAreBijective(|g|, entry);
  }

  /**
   * The loop over the units of `flow`, in whatever order the map yields
   * them, recording the successor points of each unit's point.
   */
  method ConnectPoints(g: seq<Node>, entry: nat, flow: map<nat, set<nat>>, pointBeforeUnit: map<nat, nat>)
    returns (flowPoints: map<nat, set<nat>>, enclosingUnit: map<(nat, nat), nat>, trueBranches: set<(nat, nat)>)
    requires ValidGraph(g, entry)
    requires forall u :: u in flow <==> 0 <= u < |g|
    requires forall u, s :: 0 <= u < |g| ==> (s in flow[u] <==> s in g[u].succs)
    requires forall u :: u in pointBeforeUnit <==> 0 <= u < |g|
    requires forall u :: u in pointBeforeUnit ==> pointBeforeUnit[u] == Pt(entry, u)
    ensures forall p :: p in flowPoints <==> 0 <= p < |g|
    ensures forall p, q :: p in flowPoints ==> (q in flowPoints[p] <==> (p, q) in enclosingUnit)
    ensures forall a, b :: (a, b) in enclosingUnit ==>
      IsPointEdge(g, entry, a, b) && enclosingUnit[(a, b)] == UnitAt(entry, a)
    ensures forall u, s :: 0 <= u < |g| && s in g[u].succs ==> (Pt(entry, u), Pt(entry, s)) in enclosingUnit
    ensures forall a, b :: (a, b) in trueBranches <==>
      (a, b) in enclosingUnit && IsTrueEdge(g, UnitAt(entry, a), UnitAt(entry, b))
  {
    flowPoints := map[];
    enclosingUnit := map[];
    trueBranches := {};
    var todo := flow.Keys;
    var done: set<nat> := {};
    while todo != {}
      invariant todo <= flow.Keys
      invariant forall u :: u in done <==> u in flow && u !in todo
      invariant Connected(g, entry, done, flowPoints, enclosingUnit, trueBranches)
      decreases todo
    {
      var u :| u in todo;
      flowPoints, enclosingUnit, trueBranches :=
        ConnectNext(g, entry, done, u, flow[u], pointBeforeUnit, flowPoints, enclosingUnit, trueBranches);
      todo := todo - {u};
      done := done + {u};
    }
    ConnectedComplete(g, entry, done, flowPoints, enclosingUnit, trueBranches);
  }

  /**
   * `doAnalysis` up to its printing: the integer locals, the statements
   * that use them, the point before every unit, and for every CFG edge the
   * pair of points it joins, the unit that labels it and whether it is the
   * jump edge of an `if`.
   */
  method DoAnalysis(locals: seq<(Var, LocalType)>, g: seq<Node>, entry: nat)
    returns (integerLocals: seq<Var>, intStatements: seq<nat>, pointBeforeUnit: map<nat, nat>,
             flowPoints: map<nat, set<nat>>, enclosingUnit: map<(nat, nat), nat>, trueBranches: set<(nat, nat)>)
    requires ValidGraph(g, entry)
    ensures integerLocals == IntegerLocals(locals)
    ensures intStatements == IntStatements(g, integerLocals, |g|)
    ensures forall u :: u in pointBeforeUnit <==> 0 <= u < |g|
    ensures forall u :: u in pointBeforeUnit ==> pointBeforeUnit[u] == Pt(entry, u)
    ensures pointBeforeUnit[entry] == 0
    ensures forall p :: p in flowPoints <==> 0 <= p < |g|
    ensures forall u, s :: 0 <= u < |g| && s in g[u].succs ==>
      Pt(entry, s) in flowPoints[Pt(entry, u)] &&
      (Pt(entry, u), Pt(entry, s)) in enclosingUnit && enclosingUnit[(Pt(entry, u), Pt(entry, s))] == u
    ensures forall p, q :: p in flowPoints && q in flowPoints[p] ==> IsPointEdge(g, entry, p, q)
    ensures forall a, b :: (a, b) in enclosingUnit ==>
      IsPointEdge(g, entry, a, b) && enclosingUnit[(a, b)] == UnitAt(entry, a)
    ensures forall u, s :: 0 <= u < |g| && s in g[u].succs ==>
      ((Pt(entry, u), Pt(entry, s)) in trueBranches <==> IsTrueEdge(g, u, s))
    ensures forall a, b :: (a, b) in trueBranches ==> (a, b) in enclosingUnit
  {
    integerLocals := CollectIntegerLocals(locals);
    intStatements := CollectIntStatements(g, integerLocals);
    var flow := BuildFlow(g);
    pointBeforeUnit := NumberPoints(g, entry);
    flowPoints, enclosingUnit, trueBranches := ConnectPoints(g, entry, flow, pointBeforeUnit);
    PointsAreBijective(|g|, entry);
  }

  /** A name is an integer local exactly when some local of an integer type has it. */
  lemma {:induction false} IntegerLocalsMembers(locals: seq<(Var, LocalType)>, v: Var)
    ensures v in IntegerLocals(locals) <==>
      exists k :: 0 <= k < |locals| && locals[k].0 == v && IsIntegerType(locals[k].1)
  {
    if |locals| > 0 {
      var init := locals[..|locals| - 1];
      IntegerLocalsMembers(init, v);
      if exists k :: 0 <= k < |init| && init[k].0 == v && IsIntegerType(init[k].1) {
        var k :| 0 <= k < |init| && init[k].0 == v && IsIntegerType(init[k].1);
        assert locals[k] == init[k];
      }
      if exists k :: 0 <= k < |locals| && locals[k].0 == v && IsIntegerType(locals[k].1) {
        var k :| 0 <= k < |locals| && locals[k].0 == v && IsIntegerType(locals[k].1);
        if k < |init| {
          assert init[k] == locals[k];
        }
      }
    }
  }

  /**
   * `intStatements` lists, in strictly increasing body order and so each at
   * most once, exactly the units that use an integer local.
   */
  lemma {:induction false} IntStatementsMembers(g: seq<Node>, ints: seq<Var>, k: nat)
    requires k <= |g|
    ensures forall i, j :: 0 <= i < j < |IntStatements(g, ints, k)| ==>
      IntStatements(g, ints, k)[i] < IntStatements(g, ints, k)[j]
    ensures forall u :: u in IntStatements(g, ints, k) <==> 0 <= u < k && UsesInteger(g[u].stmt, ints)
  {
    if k > 0 {
      IntStatementsMembers(g, ints, k - 1);
    }
  }
}
