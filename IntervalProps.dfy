/**
 * Properties of the interval domain: what normalisation keeps and loses,
 * the lattice laws of join, and soundness of the arithmetic, the narrowing
 * and the transfer function against the concrete integer semantics.
 */
module IntervalProps {
  import opened Jimple
  import opened ExtNum
  import opened Intervals

  // ---------------------------------------------------------------------
  // Normalisation
  // ---------------------------------------------------------------------

  /** An interval at rest passes through the three constructor steps unchanged. */
  lemma {:induction false} RestIntervalFixed(i: Itv, lo: Bound, hi: Bound)
    requires InWindow(i, lo, hi)
    ensures !Inverted(Raw(i)) && !Inverted(Rounded(Raw(i)))
    ensures Rounded(Raw(i)) == Raw(i)
    ensures Widened(Raw(i), lo, hi) == i
  {
    if i.lo.Fin? {
      assert Ceil(i.lo.n as real) == i.lo.n;
      assert (i.lo.n as real).Floor == i.lo.n;
    }
    if i.hi.Fin? {
      assert Floor(i.hi.n as real) == i.hi.n;
    }
  }

  /** Integer and infinite bounds are already rounded. */
  lemma {:induction false} RawIsRounded(i: Itv)
    ensures Rounded(Raw(i)) == Raw(i)
    ensures Inverted(Raw(i)) <==> Lt(i.hi, i.lo)
  {
    if i.lo.Fin? {
      assert Ceil(i.lo.n as real) == i.lo.n;
    }
    if i.hi.Fin? {
      assert Floor(i.hi.n as real) == i.hi.n;
    }
  }

  /** Rebuilding a valid map through the constructor gives it back. */
  lemma {:induction false} NormalizeRestMap(m: map<Var, Itv>, lo: Bound, hi: Bound)
    requires Valid(Elem(m), lo, hi)
    ensures Normalize(RawMap(m), lo, hi) == Elem(m)
  {
    var given := RawMap(m);
    forall v | v in given
      ensures !Inverted(given[v]) && !Inverted(Rounded(given[v]))
      ensures Widened(Rounded(given[v]), lo, hi) == m[v]
    {
      RestIntervalFixed(m[v], lo, hi);
    }
    NormalizeIsWidened(given, lo, hi, m);
  }

  /** `clone()` of an element the constructor built is that same element. */
  lemma CloneIsIdentity(e: IElem, lo: Bound, hi: Bound)
    requires Valid(e, lo, hi)
    ensures Clone(e, lo, hi) == e
  {
    if e.Elem? {
      NormalizeRestMap(e.m, lo, hi);
    }
  }

  /** One interval: normalisation keeps every integer of a raw interval. */
  lemma {:induction false} IntervalKeepsIntegers(i: RawItv, n: int, lo: Bound, hi: Bound)
    requires RawContains(i, n)
    ensures !Inverted(i) && !Inverted(Rounded(i))
    ensures Contains(Widened(Rounded(i), lo, hi), n)
  {
    var r := Rounded(i);
    if i.lo.XFin? {
      assert Ceil(i.lo.r) <= n;
    }
    if i.hi.XFin? {
      assert n <= Floor(i.hi.r);
    }
    if r.lo.XFin? {
      assert (r.lo.r).Floor == Ceil(i.lo.r);
    }
    if r.hi.XFin? {
      assert (r.hi.r).Floor == Floor(i.hi.r);
    }
  }

  /**
   * Normalisation loses no integer valuation: with a non-empty window,
   * every valuation inside the raw intervals lies in the element built.
   */
  lemma {:induction false} NormalizeSound(given: map<Var, RawItv>, lo: Bound, hi: Bound, env: map<Var, int>)
    requires Le(lo, hi) && RawAdmits(given, env)
    ensures Admits(Normalize(given, lo, hi), env)
  {
    forall v | v in given
      ensures !Inverted(given[v]) && !Inverted(Rounded(given[v]))
      ensures Contains(Widened(Rounded(given[v]), lo, hi), env[v])
    {
      IntervalKeepsIntegers(given[v], env[v], lo, hi);
    }
  }

  /**
   * Inside the window normalisation is exact: an integer of the window lies
   * in the built interval of a local exactly when it lies in the raw one.
   * Rounding inward drops only non-integers, and widening touches only
   * bounds outside the window.
   */
  lemma {:induction false} NormalizeExact(given: map<Var, RawItv>, lo: Bound, hi: Bound, v: Var, n: int)
    requires v in given && Normalize(given, lo, hi).Elem?
    requires Le(lo, Fin(n)) && Le(Fin(n), hi)
    ensures Contains(Normalize(given, lo, hi).m[v], n) <==> RawContains(given[v], n)
  {
    var g := given[v];
    if RawContains(g, n) {
      IntervalKeepsIntegers(g, n, lo, hi);
    } else {
      var c := Widened(Rounded(g), lo, hi);
      assert Normalize(given, lo, hi).m[v] == c;
      if !(g.lo.NaN? || XLe(g.lo, XFin(n as real))) {
        if g.lo.XFin? {
          assert n < Ceil(g.lo.r);
          assert (Ceil(g.lo.r) as real).Floor == Ceil(g.lo.r);
        }
        assert !AtLeast(c.lo, n);
      } else {
        if g.hi.XFin? {
          assert Floor(g.hi.r) < n;
          assert (Floor(g.hi.r) as real).Floor == Floor(g.hi.r);
        }
        assert !AtMost(c.hi, n);
      }
    }
  }

  /**
   * Normalisation yields bottom only for an inverted window or when some
   * raw interval holds no integer at all.
   */
  lemma {:induction false} NormalizeBotOnlyIfEmpty(given: map<Var, RawItv>, lo: Bound, hi: Bound)
    requires Le(lo, hi) && Normalize(given, lo, hi) == Bot
    ensures exists v :: v in given && forall n: int :: !RawContains(given[v], n)
  {
    if forall v :: v in given ==> exists n: int :: RawContains(given[v], n) {
      var env := map v | v in given :: (var n: int :| RawContains(given[v], n); n);
      NormalizeSound(given, lo, hi, env);
      assert false;
    }
  }

  /**
   * A finite raw interval that holds no integer, such as [0.5, 0.7], makes
   * the whole element bottom once its bounds are rounded inward.
   */
  lemma {:induction false} NormalizeEmptyIsBot(given: map<Var, RawItv>, x: Var, lo: Bound, hi: Bound)
    requires x in given && given[x].lo.XFin? && given[x].hi.XFin?
    requires forall n: int :: !RawContains(given[x], n)
    ensures Normalize(given, lo, hi) == Bot
  {
    var l, u := given[x].lo.r, given[x].hi.r;
    var c := Ceil(l);
    assert !RawContains(given[x], c);
    assert Inverted(Rounded(given[x]));
  }

  // ---------------------------------------------------------------------
  // Join
  // ---------------------------------------------------------------------

  function HullMap(a: map<Var, Itv>, b: map<Var, Itv>): (r: map<Var, Itv>)
    requires a.Keys <= b.Keys
    ensures r.Keys == a.Keys
    ensures forall v :: v in a ==> r[v] == Hull(a[v], b[v])
  {
    map v | v in a :: Hull(a[v], b[v])
  }

  lemma {:induction false} HullInWindow(i: Itv, j: Itv, lo: Bound, hi: Bound)
    requires InWindow(i, lo, hi) && InWindow(j, lo, hi)
    ensures InWindow(Hull(i, j), lo, hi)
  {
    LeTrans(Min(i.lo, j.lo), i.lo, i.hi);
    LeTrans(Min(i.lo, j.lo), i.hi, Max(i.hi, j.hi));
  }

  lemma {:induction false} HullMapValid(a: map<Var, Itv>, b: map<Var, Itv>, lo: Bound, hi: Bound)
    requires Valid(Elem(a), lo, hi) && Valid(Elem(b), lo, hi) && a.Keys <= b.Keys
    ensures Valid(Elem(HullMap(a, b)), lo, hi)
  {
    var h := HullMap(a, b);
    forall v | v in h ensures InWindow(h[v], lo, hi) {
      HullInWindow(a[v], b[v], lo, hi);
    }
  }

  /** The join of two valid elements is exactly the per-local hull; the constructor changes nothing. */
  lemma {:induction false} JoinIsHull(a: IElem, b: IElem, lo: Bound, hi: Bound)
    requires Valid(a, lo, hi) && Valid(b, lo, hi) && a.Elem? && b.Elem? && a.m.Keys <= b.m.Keys
    ensures Join(a, b, lo, hi) == Elem(HullMap(a.m, b.m))
  {
    var h := HullMap(a.m, b.m);
    HullMapValid(a.m, b.m, lo, hi);
    var raw := map v | v in a.m :: Raw(Hull(a.m[v], b.m[v]));
    assert raw == RawMap(h);
    NormalizeRestMap(h, lo, hi);
  }

  lemma {:induction false} JoinIdempotent(a: IElem, lo: Bound, hi: Bound)
    requires Valid(a, lo, hi)
    ensures Join(a, a, lo, hi) == a
  {
    if a.Elem? {
      JoinIsHull(a, a, lo, hi);
      assert HullMap(a.m, a.m) == a.m;
    }
  }

  lemma {:induction false} JoinCommutative(a: IElem, b: IElem, lo: Bound, hi: Bound)
    requires Valid(a, lo, hi) && Valid(b, lo, hi)
    requires a.Elem? && b.Elem? ==> a.m.Keys == b.m.Keys
    ensures Join(a, b, lo, hi) == Join(b, a, lo, hi)
  {
    if a.Elem? && b.Elem? {
      JoinIsHull(a, b, lo, hi);
      JoinIsHull(b, a, lo, hi);
      HullMapCommutative(a.m, b.m);
    }
  }

  lemma {:induction false} HullMapCommutative(a: map<Var, Itv>, b: map<Var, Itv>)
    requires a.Keys == b.Keys
    ensures HullMap(a, b) == HullMap(b, a)
  {
    forall v | v in a ensures Hull(a[v], b[v]) == Hull(b[v], a[v]) {
      LeTotal(a[v].lo, b[v].lo);
      LeTotal(a[v].hi, b[v].hi);
    }
  }

  lemma {:induction false} HullAssociative(i: Itv, j: Itv, k: Itv)
    ensures Hull(Hull(i, j), k) == Hull(i, Hull(j, k))
  {
    LeTotal(i.lo, j.lo); LeTotal(j.lo, k.lo); LeTotal(i.lo, k.lo);
    LeTotal(i.hi, j.hi); LeTotal(j.hi, k.hi); LeTotal(i.hi, k.hi);
  }

  lemma {:induction false} HullMapAssociative(a: map<Var, Itv>, b: map<Var, Itv>, c: map<Var, Itv>)
    requires a.Keys == b.Keys == c.Keys
    ensures HullMap(HullMap(a, b), c) == HullMap(a, HullMap(b, c))
  {
    var ab, bc := HullMap(a, b), HullMap(b, c);
    var left, right := HullMap(ab, c), HullMap(a, bc);
    forall v | v in a ensures left[v] == right[v] {
      HullAssociative(a[v], b[v], c[v]);
    }
  }

  /** Join is associative on elements over the same locals. */
  lemma {:induction false} JoinAssociative(a: IElem, b: IElem, c: IElem, lo: Bound, hi: Bound)
    requires Valid(a, lo, hi) && Valid(b, lo, hi) && Valid(c, lo, hi)
    requires a.Elem? && b.Elem? && c.Elem? && a.m.Keys == b.m.Keys == c.m.Keys
    ensures Join(Join(a, b, lo, hi), c, lo, hi) == Join(a, Join(b, c, lo, hi), lo, hi)
  {
    JoinIsHull(a, b, lo, hi);
    JoinIsHull(b, c, lo, hi);
    var ab, bc := Elem(HullMap(a.m, b.m)), Elem(HullMap(b.m, c.m));
    HullMapValid(a.m, b.m, lo, hi);
    HullMapValid(b.m, c.m, lo, hi);
    JoinIsHull(ab, c, lo, hi);
    JoinIsHull(a, bc, lo, hi);
    HullMapAssociative(a.m, b.m, c.m);
  }

  /** The per-local hull admits whatever either map admits. */
  lemma {:induction false} HullMapAdmits(a: map<Var, Itv>, b: map<Var, Itv>, env: map<Var, int>)
    requires a.Keys <= b.Keys
    requires Admits(Elem(a), env) || Admits(Elem(b), env)
    ensures Admits(Elem(HullMap(a, b)), env)
  {
    var hm := HullMap(a, b);
    forall v | v in hm ensures v in env && Contains(hm[v], env[v]) {
      var h := hm[v];
      if Admits(Elem(a), env) {
        LeTrans(h.lo, a[v].lo, Fin(env[v]));
        LeTrans(Fin(env[v]), a[v].hi, h.hi);
      } else {
        LeTrans(h.lo, b[v].lo, Fin(env[v]));
        LeTrans(Fin(env[v]), b[v].hi, h.hi);
      }
    }
  }

  /** Join is an upper bound: whatever either operand admits, the join admits. */
  lemma {:induction false} JoinUpperBound(a: IElem, b: IElem, lo: Bound, hi: Bound, env: map<Var, int>)
    requires Valid(a, lo, hi) && Valid(b, lo, hi)
    requires a.Elem? && b.Elem? ==> a.m.Keys <= b.m.Keys
    requires Admits(a, env) || Admits(b, env)
    ensures Admits(Join(a, b, lo, hi), env)
  {
    if a.Elem? && b.Elem? {
      JoinIsHull(a, b, lo, hi);
      HullMapAdmits(a.m, b.m, env);
    }
  }
}
