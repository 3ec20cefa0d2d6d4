/**
 * Soundness of `getIntervalFromBinOp`: for every operator it handles, the
 * interval it computes holds every concrete result of the operation on
 * values drawn from the operand intervals, infinite bounds included.  For
 * division this holds of the truncating version `BinOp`; the version as
 * written loses exact quotients that are not integers.
 */
module ArithSound {
  import opened Jimple
  import opened ExtNum
  import opened Intervals

  // ---------------------------------------------------------------------
  // Real arithmetic facts
  // ---------------------------------------------------------------------

  lemma {:induction false} FractionBelowOne(r: int, B: int)
    requires 0 <= r < B
    ensures 0.0 <= r as real / B as real < 1.0
  {
    assert B as real / B as real == 1.0;
    assert (B as real - r as real) / B as real == B as real / B as real - r as real / B as real;
    assert (B as real - r as real) / B as real > 0.0;
  }

  lemma {:induction false} QuotientFloor(A: int, B: int)
    requires 0 <= A && 0 < B
    ensures Floor(A as real / B as real) == A / B
  {
    var q, r := A / B, A % B;
    assert A == q * B + r && 0 <= r < B;
    assert (A as real) == (q as real) * (B as real) + r as real;
    assert A as real / B as real == q as real + r as real / B as real;
    FractionBelowOne(r, B);
  }

  lemma {:induction false} NegDiv(x: real, y: real)
    requires y != 0.0
    ensures (-x) / y == -(x / y) && x / (-y) == -(x / y) && (-x) / (-y) == x / y
  {
  }

  lemma {:induction false} RealQuotientSign(a: int, b: int)
    requires b != 0
    ensures (a < 0) == (b < 0) ==> a as real / b as real == Abs(a) as real / Abs(b) as real
    ensures (a < 0) != (b < 0) ==> a as real / b as real == -(Abs(a) as real / Abs(b) as real)
  {
    NegDiv(Abs(a) as real, Abs(b) as real);
    if a < 0 {
      assert a as real == -(Abs(a) as real);
    } else {
      assert a as real == Abs(a) as real;
    }
    if b < 0 {
      assert b as real == -(Abs(b) as real);
    } else {
      assert b as real == Abs(b) as real;
    }
  }

  /** Java's integer quotient is the exact quotient truncated toward zero. */
  lemma {:induction false} JavaDivIsTrunc(a: int, b: int)
    requires b != 0
    ensures JavaDiv(a, b) == Trunc(a as real / b as real)
  {
    var x := Abs(a) as real / Abs(b) as real;
    QuotientFloor(Abs(a), Abs(b));
    RealQuotientSign(a, b);
    FractionBelowOne(0, Abs(b));
    assert 0.0 <= x;
    if (a < 0) != (b < 0) && x != 0.0 {
      assert Ceil(-x) == -Floor(x);
    }
  }

  lemma {:induction false} MulMono(x: real, y: real, c: real)
    requires x <= y
    ensures 0.0 <= c ==> x * c <= y * c && c * x <= c * y
    ensures c <= 0.0 ==> y * c <= x * c && c * y <= c * x
  {
    assert y * c - x * c == (y - x) * c;
    assert c * y - c * x == c * (y - x);
  }

  lemma {:induction false} DivMonoNum(x: real, y: real, b: real)
    requires x <= y && b != 0.0
    ensures b > 0.0 ==> x / b <= y / b
    ensures b < 0.0 ==> y / b <= x / b
  {
    assert y / b - x / b == (y - x) / b;
  }

  lemma {:induction false} DivMonoDen(a: real, b: real, c: real)
    requires (0.0 < b <= c) || (b <= c < 0.0)
    ensures 0.0 <= a ==> a / c <= a / b
    ensures a <= 0.0 ==> a / b <= a / c
  {
    assert a / b - a / c == a * (c - b) / (b * c);
  }

  // ---------------------------------------------------------------------
  // Hulls of candidate endpoints
  // ---------------------------------------------------------------------

  /** A float lower bound that admits x: NaN, or at most x. */
  predicate Below(c: XReal, x: real) {
    c.NaN? || XLe(c, XFin(x))
  }

  /** A float upper bound that admits x: NaN, or at least x. */
  predicate Above(c: XReal, x: real) {
    c.NaN? || XLe(XFin(x), c)
  }

  lemma {:induction false} MinBelow(p: XReal, q: XReal, x: real)
    ensures Below(p, x) || Below(q, x) ==> Below(XMin(p, q), x)
  {
  }

  lemma {:induction false} MaxAbove(p: XReal, q: XReal, x: real)
    ensures Above(p, x) || Above(q, x) ==> Above(XMax(p, q), x)
  {
  }

  lemma {:induction false} Hull4Contains(p1: XReal, p2: XReal, p3: XReal, p4: XReal, x: real)
    requires Below(p1, x) || Below(p2, x) || Below(p3, x) || Below(p4, x)
    requires Above(p1, x) || Above(p2, x) || Above(p3, x) || Above(p4, x)
    ensures Below(Hull4(p1, p2, p3, p4).lo, x) && Above(Hull4(p1, p2, p3, p4).hi, x)
  {
    MinBelow(p1, p2, x); MinBelow(p3, p4, x);
    MinBelow(XMin(p1, p2), XMin(p3, p4), x);
    MaxAbove(p1, p2, x); MaxAbove(p3, p4, x);
    MaxAbove(XMax(p1, p2), XMax(p3, p4), x);
  }

  lemma {:induction false} Hull8Contains(p1: XReal, p2: XReal, p3: XReal, p4: XReal,
                                         p5: XReal, p6: XReal, p7: XReal, p8: XReal, x: real)
    requires Below(p1, x) || Below(p2, x) || Below(p3, x) || Below(p4, x) ||
             Below(p5, x) || Below(p6, x) || Below(p7, x) || Below(p8, x)
    requires Above(p1, x) || Above(p2, x) || Above(p3, x) || Above(p4, x) ||
             Above(p5, x) || Above(p6, x) || Above(p7, x) || Above(p8, x)
    ensures Below(Hull8(p1, p2, p3, p4, p5, p6, p7, p8).lo, x)
    ensures Above(Hull8(p1, p2, p3, p4, p5, p6, p7, p8).hi, x)
  {
    MinBelow(p1, p2, x); MinBelow(p3, p4, x); MinBelow(p5, p6, x); MinBelow(p7, p8, x);
    MinBelow(XMin(p1, p2), XMin(p3, p4), x);
    MinBelow(XMin(p5, p6), XMin(p7, p8), x);
    MinBelow(XMin(XMin(p1, p2), XMin(p3, p4)), XMin(XMin(p5, p6), XMin(p7, p8)), x);
    MaxAbove(p1, p2, x); MaxAbove(p3, p4, x); MaxAbove(p5, p6, x); MaxAbove(p7, p8, x);
    MaxAbove(XMax(p1, p2), XMax(p3, p4), x);
    MaxAbove(XMax(p5, p6), XMax(p7, p8), x);
    MaxAbove(XMax(XMax(p1, p2), XMax(p3, p4)), XMax(XMax(p5, p6), XMax(p7, p8)), x);
  }

  // ---------------------------------------------------------------------
  // Multiplication
  // ---------------------------------------------------------------------

  /** The operand values lie within their intervals, read as floats. */
  predicate InXItv(i: Itv, a: real) {
    XLe(Embed(i.lo), XFin(a)) && XLe(XFin(a), Embed(i.hi))
  }

  /** Some corner product of the two intervals is at most a*b, or NaN. */
  predicate MulLowCorner(i1: Itv, i2: Itv, x: real) {
    Below(XMul(Embed(i1.lo), Embed(i2.lo)), x) || Below(XMul(Embed(i1.lo), Embed(i2.hi)), x) ||
    Below(XMul(Embed(i1.hi), Embed(i2.lo)), x) || Below(XMul(Embed(i1.hi), Embed(i2.hi)), x)
  }

  /** Some corner product of the two intervals is at least a*b, or NaN. */
  predicate MulHighCorner(i1: Itv, i2: Itv, x: real) {
    Above(XMul(Embed(i1.lo), Embed(i2.lo)), x) || Above(XMul(Embed(i1.lo), Embed(i2.hi)), x) ||
    Above(XMul(Embed(i1.hi), Embed(i2.lo)), x) || Above(XMul(Embed(i1.hi), Embed(i2.hi)), x)
  }

  /**
   * p*q <= a*b, by way of p*b: the first factor moves from p to a and the
   * second from q to b, each move in the direction the other factor's sign
   * allows.
   */
  lemma {:induction false} CornerBelow(p: real, q: real, a: real, b: real)
    requires (p <= a && 0.0 <= b) || (a <= p && b <= 0.0)
    requires (q <= b && 0.0 <= p) || (b <= q && p <= 0.0)
    ensures Below(XMul(XFin(p), XFin(q)), a * b)
  {
    var pq, pb, ab := p * q, p * b, a * b;
    if p <= a && 0.0 <= b { MulMono(p, a, b); } else { MulMono(a, p, b); }
    assert pb <= ab;
    if q <= b && 0.0 <= p { MulMono(q, b, p); } else { MulMono(b, q, p); }
    assert pq <= pb;
    assert XMul(XFin(p), XFin(q)) == XFin(pq);
    assert XLe(XFin(pq), XFin(ab));
  }

  /** p*q >= a*b, by way of p*b. */
  lemma {:induction false} CornerAbove(p: real, q: real, a: real, b: real)
    requires (a <= p && 0.0 <= b) || (p <= a && b <= 0.0)
    requires (b <= q && 0.0 <= p) || (q <= b && p <= 0.0)
    ensures Above(XMul(XFin(p), XFin(q)), a * b)
  {
    var pq, pb, ab := p * q, p * b, a * b;
    if a <= p && 0.0 <= b { MulMono(a, p, b); } else { MulMono(p, a, b); }
    assert ab <= pb;
    if b <= q && 0.0 <= p { MulMono(b, q, p); } else { MulMono(q, b, p); }
    assert pb <= pq;
    assert XMul(XFin(p), XFin(q)) == XFin(pq);
    assert XLe(XFin(ab), XFin(pq));
  }

  lemma {:induction false} MulLowNonNegative(i1: Itv, i2: Itv, a: real, b: real)
    requires InXItv(i1, a) && InXItv(i2, b) && b >= 0.0
    ensures MulLowCorner(i1, i2, a * b)
  {
    var l1, l2, u2 := Embed(i1.lo), Embed(i2.lo), Embed(i2.hi);
    if l1.XFin? && l1.r >= 0.0 {
      if l2.XFin? {
        CornerBelow(l1.r, l2.r, a, b);
      }
    } else if l1.XFin? && u2.XFin? {
      CornerBelow(l1.r, u2.r, a, b);
    }
  }

  lemma {:induction false} MulLowNegative(i1: Itv, i2: Itv, a: real, b: real)
    requires InXItv(i1, a) && InXItv(i2, b) && b < 0.0
    ensures MulLowCorner(i1, i2, a * b)
  {
    var u1, l2, u2 := Embed(i1.hi), Embed(i2.lo), Embed(i2.hi);
    if u1.XFin? && u1.r >= 0.0 {
      if l2.XFin? {
        CornerBelow(u1.r, l2.r, a, b);
      }
    } else if u1.XFin? && u2.XFin? {
      CornerBelow(u1.r, u2.r, a, b);
    }
  }

  lemma {:induction false} MulHighNonNegative(i1: Itv, i2: Itv, a: real, b: real)
    requires InXItv(i1, a) && InXItv(i2, b) && b >= 0.0
    ensures MulHighCorner(i1, i2, a * b)
  {
    var u1, l2, u2 := Embed(i1.hi), Embed(i2.lo), Embed(i2.hi);
    if u1.XFin? && u1.r >= 0.0 {
      if u2.XFin? {
        CornerAbove(u1.r, u2.r, a, b);
      }
    } else if u1.XFin? && l2.XFin? {
      CornerAbove(u1.r, l2.r, a, b);
    }
  }

  lemma {:induction false} MulHighNegative(i1: Itv, i2: Itv, a: real, b: real)
    requires InXItv(i1, a) && InXItv(i2, b) && b < 0.0
    ensures MulHighCorner(i1, i2, a * b)
  {
    var l1, l2, u2 := Embed(i1.lo), Embed(i2.lo), Embed(i2.hi);
    if l1.XFin? && l1.r >= 0.0 {
      if u2.XFin? {
        CornerAbove(l1.r, u2.r, a, b);
      }
    } else if l1.XFin? && l2.XFin? {
      CornerAbove(l1.r, l2.r, a, b);
    }
  }

  function MulHull(i1: Itv, i2: Itv): RawItv {
    var l1, u1, l2, u2 := Embed(i1.lo), Embed(i1.hi), Embed(i2.lo), Embed(i2.hi);
    Hull4(XMul(l1, l2), XMul(l1, u2), XMul(u1, l2), XMul(u1, u2))
  }

  lemma {:induction false} MulHullContains(i1: Itv, i2: Itv, x: real, y: real)
    requires InXItv(i1, x) && InXItv(i2, y)
    ensures Below(MulHull(i1, i2).lo, x * y) && Above(MulHull(i1, i2).hi, x * y)
  {
    if y >= 0.0 {
      MulLowNonNegative(i1, i2, x, y);
      MulHighNonNegative(i1, i2, x, y);
    } else {
      MulLowNegative(i1, i2, x, y);
      MulHighNegative(i1, i2, x, y);
    }
    var l1, u1, l2, u2 := Embed(i1.lo), Embed(i1.hi), Embed(i2.lo), Embed(i2.hi);
    Hull4Contains(XMul(l1, l2), XMul(l1, u2), XMul(u1, l2), XMul(u1, u2), x * y);
  }

  lemma {:induction false} IntInXItv(i: Itv, n: int)
    requires Contains(i, n)
    ensures InXItv(i, n as real)
  {
  }

  lemma {:induction false} ContainsProduct(i: RawItv, a: int, b: int)
    requires Below(i.lo, a as real * b as real) && Above(i.hi, a as real * b as real)
    ensures RawContains(i, a * b)
  {
    assert (a * b) as real == a as real * b as real;
  }

  lemma {:induction false} BinOpMul(i1: Itv, i2: Itv)
    ensures BinOp(Mul, i1, i2) == Value(MulHull(i1, i2))
  {
  }

  lemma {:induction false} MulHullContainsProduct(i1: Itv, i2: Itv, a: int, b: int)
    requires InXItv(i1, a as real) && InXItv(i2, b as real)
    ensures RawContains(MulHull(i1, i2), a * b)
  {
    MulHullContains(i1, i2, a as real, b as real);
    ContainsProduct(MulHull(i1, i2), a, b);
  }

  /** The product interval holds every product of values from the operand intervals. */
  lemma {:induction false} MulSound(i1: Itv, i2: Itv, a: int, b: int)
    requires Contains(i1, a) && Contains(i2, b)
    ensures BinOp(Mul, i1, i2).Value?
    ensures RawContains(BinOp(Mul, i1, i2).itv, a * b)
  {
    IntInXItv(i1, a);
    IntInXItv(i2, b);
    BinOpMul(i1, i2);
    MulHullContainsProduct(i1, i2, a, b);
  }

  // ---------------------------------------------------------------------
  // Addition and subtraction
  // ---------------------------------------------------------------------

  /** The sum interval holds every sum of values from the operand intervals. */
  lemma {:induction false} AddSound(i1: Itv, i2: Itv, a: int, b: int)
    requires Contains(i1, a) && Contains(i2, b)
    ensures BinOp(Add, i1, i2).Value?
    ensures RawContains(BinOp(Add, i1, i2).itv, a + b)
  {
  }

  /** The difference interval holds every difference of values from the operand intervals. */
  lemma {:induction false} SubSound(i1: Itv, i2: Itv, a: int, b: int)
    requires Contains(i1, a) && Contains(i2, b)
    ensures BinOp(Sub, i1, i2).Value?
    ensures RawContains(BinOp(Sub, i1, i2).itv, a - b)
  {
  }

  // ---------------------------------------------------------------------
  // Division
  // ---------------------------------------------------------------------

  /** n/d <= a/b, by way of n/b. */
  lemma {:induction false} QuotBelow(n: real, d: real, a: real, b: real)
    requires (0.0 < d && 0.0 < b) || (d < 0.0 && b < 0.0)
    requires (n <= a && 0.0 < b) || (a <= n && b < 0.0)
    requires (0.0 <= n && b <= d) || (n <= 0.0 && d <= b)
    ensures Below(XDiv(XFin(n), XFin(d)), a / b)
  {
    if 0.0 < b { DivMonoNum(n, a, b); } else { DivMonoNum(a, n, b); }
    if 0.0 <= n && b <= d { DivMonoDen(n, b, d); } else { DivMonoDen(n, d, b); }
    assert XLe(XFin(n / d), XFin(a / b));
  }

  /** n/d >= a/b, by way of n/b. */
  lemma {:induction false} QuotAbove(n: real, d: real, a: real, b: real)
    requires (0.0 < d && 0.0 < b) || (d < 0.0 && b < 0.0)
    requires (a <= n && 0.0 < b) || (n <= a && b < 0.0)
    requires (0.0 <= n && d <= b) || (n <= 0.0 && b <= d)
    ensures Above(XDiv(XFin(n), XFin(d)), a / b)
  {
    if 0.0 < b { DivMonoNum(a, n, b); } else { DivMonoNum(n, a, b); }
    if 0.0 <= n && d <= b { DivMonoDen(n, d, b); } else { DivMonoDen(n, b, d); }
    assert XLe(XFin(a / b), XFin(n / d));
  }

  /** The sign of a quotient. */
  lemma {:induction false} QuotientSign(a: real, b: real)
    requires b != 0.0
    ensures (0.0 <= a && 0.0 < b) || (a <= 0.0 && b < 0.0) ==> 0.0 <= a / b
    ensures (a <= 0.0 && 0.0 < b) || (0.0 <= a && b < 0.0) ==> a / b <= 0.0
  {
    if 0.0 <= a { DivMonoNum(0.0, a, b); } else { DivMonoNum(a, 0.0, b); }
    assert 0.0 / b == 0.0;
  }

  /** Some quotient of a numerator bound by a divisor bound is at most the given value, or NaN. */
  predicate DivLowCorner(n1: XReal, n2: XReal, p: XReal, q: XReal, x: real) {
    Below(XDiv(n1, p), x) || Below(XDiv(n1, q), x) || Below(XDiv(n2, p), x) || Below(XDiv(n2, q), x)
  }

  /** Some quotient of a numerator bound by a divisor bound is at least the given value, or NaN. */
  predicate DivHighCorner(n1: XReal, n2: XReal, p: XReal, q: XReal, x: real) {
    Above(XDiv(n1, p), x) || Above(XDiv(n1, q), x) || Above(XDiv(n2, p), x) || Above(XDiv(n2, q), x)
  }

  /** b lies in [p, q], a range of one sign whose bound nearest zero is finite. */
  predicate DivisorRange(p: XReal, q: XReal, b: real) {
    !p.NaN? && !q.NaN? && XLe(p, XFin(b)) && XLe(XFin(b), q) &&
    ((0.0 < b && p.XFin? && 0.0 < p.r) || (b < 0.0 && q.XFin? && q.r < 0.0))
  }

  lemma {:induction false} DivLowPositive(i1: Itv, p: XReal, q: XReal, a: real, b: real)
    requires InXItv(i1, a) && DivisorRange(p, q, b) && 0.0 < b
    ensures DivLowCorner(Embed(i1.lo), Embed(i1.hi), p, q, a / b)
  {
    var l1 := Embed(i1.lo);
    if l1.XFin? && 0.0 <= l1.r {
      if q.XFin? {
        QuotBelow(l1.r, q.r, a, b);
      } else {
        QuotientSign(a, b);
      }
    } else if l1.XFin? {
      QuotBelow(l1.r, p.r, a, b);
    }
  }

  lemma {:induction false} DivLowNegative(i1: Itv, p: XReal, q: XReal, a: real, b: real)
    requires InXItv(i1, a) && DivisorRange(p, q, b) && b < 0.0
    ensures DivLowCorner(Embed(i1.lo), Embed(i1.hi), p, q, a / b)
  {
    var u1 := Embed(i1.hi);
    if u1.XFin? && 0.0 <= u1.r {
      QuotBelow(u1.r, q.r, a, b);
    } else if u1.XFin? {
      if p.XFin? {
        QuotBelow(u1.r, p.r, a, b);
      } else {
        QuotientSign(a, b);
      }
    }
  }

  lemma {:induction false} DivHighPositive(i1: Itv, p: XReal, q: XReal, a: real, b: real)
    requires InXItv(i1, a) && DivisorRange(p, q, b) && 0.0 < b
    ensures DivHighCorner(Embed(i1.lo), Embed(i1.hi), p, q, a / b)
  {
    var u1 := Embed(i1.hi);
    if u1.XFin? && 0.0 <= u1.r {
      QuotAbove(u1.r, p.r, a, b);
    } else if u1.XFin? {
      if q.XFin? {
        QuotAbove(u1.r, q.r, a, b);
      } else {
        QuotientSign(a, b);
      }
    }
  }

  lemma {:induction false} DivHighNegative(i1: Itv, p: XReal, q: XReal, a: real, b: real)
    requires InXItv(i1, a) && DivisorRange(p, q, b) && b < 0.0
    ensures DivHighCorner(Embed(i1.lo), Embed(i1.hi), p, q, a / b)
  {
    var l1 := Embed(i1.lo);
    if l1.XFin? && 0.0 <= l1.r {
      if p.XFin? {
        QuotAbove(l1.r, p.r, a, b);
      } else {
        QuotientSign(a, b);
      }
    } else if l1.XFin? {
      QuotAbove(l1.r, q.r, a, b);
    }
  }

  lemma {:induction false} DivCorners(i1: Itv, p: XReal, q: XReal, a: real, b: real)
    requires InXItv(i1, a) && DivisorRange(p, q, b)
    ensures DivLowCorner(Embed(i1.lo), Embed(i1.hi), p, q, a / b)
    ensures DivHighCorner(Embed(i1.lo), Embed(i1.hi), p, q, a / b)
  {
    if 0.0 < b {
      DivLowPositive(i1, p, q, a, b);
      DivHighPositive(i1, p, q, a, b);
    } else {
      DivLowNegative(i1, p, q, a, b);
      DivHighNegative(i1, p, q, a, b);
    }
  }

  /** The interval computed as written for a quotient, when the divisor interval is not [0, 0]. */
  function DivHull(i1: Itv, i2: Itv): RawItv
    requires i2 != Itv(Fin(0), Fin(0))
  {
    BinOpAsWritten(Div, i1, i2).itv
  }

  lemma {:induction false} DivHullHoldsQuotient(i1: Itv, i2: Itv, x: real, b: int)
    requires InXItv(i1, x) && Contains(i2, b) && b != 0
    ensures i2 != Itv(Fin(0), Fin(0))
    ensures Below(DivHull(i1, i2).lo, x / b as real) && Above(DivHull(i1, i2).hi, x / b as real)
  {
    var y := b as real;
    var l1, u1, l2, u2 := Embed(i1.lo), Embed(i1.hi), Embed(i2.lo), Embed(i2.hi);
    var one, minusOne := XFin(1.0), XFin(-1.0);
    if i2.lo == Fin(0) {
      DivCorners(i1, one, u2, x, y);
      Hull4Contains(XDiv(l1, u2), XDiv(u1, u2), XDiv(l1, one), XDiv(u1, one), x / y);
    } else if i2.hi == Fin(0) {
      DivCorners(i1, l2, minusOne, x, y);
      Hull4Contains(XDiv(l1, l2), XDiv(u1, l2), XDiv(l1, minusOne), XDiv(u1, minusOne), x / y);
    } else if Lt(i2.lo, Fin(0)) && Lt(Fin(0), i2.hi) {
      if b < 0 {
        DivCorners(i1, l2, minusOne, x, y);
      } else {
        DivCorners(i1, one, u2, x, y);
      }
      Hull8Contains(XDiv(l1, l2), XDiv(u1, l2), XDiv(l1, u2), XDiv(u1, u2),
                    XDiv(l1, minusOne), XDiv(u1, minusOne), XDiv(l1, one), XDiv(u1, one), x / y);
    } else {
      DivCorners(i1, l2, u2, x, y);
      Hull4Contains(XDiv(l1, l2), XDiv(u1, l2), XDiv(l1, u2), XDiv(u1, u2), x / y);
    }
  }

  lemma {:induction false} TruncBelow(c: XReal, r: real)
    requires Below(c, r)
    ensures Below(XTrunc(c), Trunc(r) as real)
  {
    if c.XFin? {
      TruncMonotone(c.r, r);
    }
  }

  lemma {:induction false} TruncAbove(c: XReal, r: real)
    requires Above(c, r)
    ensures Above(XTrunc(c), Trunc(r) as real)
  {
    if c.XFin? {
      TruncMonotone(r, c.r);
    }
  }

  /**
   * The quotient interval, its bounds truncated toward zero, holds every
   * Java quotient of values from the operand intervals; a divisor of zero
   * has no quotient, and the divisor interval [0, 0] is reported as a
   * division by zero.
   */
  lemma {:induction false} DivSound(i1: Itv, i2: Itv, a: int, b: int)
    requires Contains(i1, a) && Contains(i2, b) && b != 0
    ensures BinOp(Div, i1, i2).Value?
    ensures RawContains(BinOp(Div, i1, i2).itv, JavaDiv(a, b))
  {
    IntInXItv(i1, a);
    DivHullHoldsQuotient(i1, i2, a as real, b);
    var w := DivHull(i1, i2);
    var r := a as real / b as real;
    TruncBelow(w.lo, r);
    TruncAbove(w.hi, r);
    JavaDivIsTrunc(a, b);
    assert BinOp(Div, i1, i2) == Value(RawItv(XTrunc(w.lo), XTrunc(w.hi)));
  }

  /**
   * As written, the quotient interval holds the exact real quotient, which
   * for integers that do not divide evenly is not the Java quotient.
   */
  lemma {:induction false} DivAsWrittenHoldsExactQuotient(i1: Itv, i2: Itv, a: int, b: int)
    requires Contains(i1, a) && Contains(i2, b) && b != 0
    ensures BinOpAsWritten(Div, i1, i2).Value?
    ensures Below(BinOpAsWritten(Div, i1, i2).itv.lo, a as real / b as real)
    ensures Above(BinOpAsWritten(Div, i1, i2).itv.hi, a as real / b as real)
  {
    IntInXItv(i1, a);
    DivHullHoldsQuotient(i1, i2, a as real, b);
  }

  // ---------------------------------------------------------------------
  // Tightness of `+`, `-` and `*`
  // ---------------------------------------------------------------------

  /** A finite bound `x` is the value of `a op b` for some `a` in `i1` and `b` in `i2`. */
  ghost predicate Attained(op: ArithOp, i1: Itv, i2: Itv, x: XReal)
    requires op in {Add, Sub, Mul}
  {
    x.XFin? ==> exists a, b :: Contains(i1, a) && Contains(i2, b) && x.r == Arith(op, a, b) as real
  }

  /** A finite value computed from an endpoint of each operand is attained. */
  lemma {:induction false} CornerAttained(op: ArithOp, i1: Itv, i2: Itv, p: Bound, q: Bound, x: XReal)
    requires op in {Add, Sub, Mul} && NonEmpty(i1) && NonEmpty(i2)
    requires (p == i1.lo || p == i1.hi) && (q == i2.lo || q == i2.hi)
    requires x.XFin? ==> p.Fin? && q.Fin? && x.r == Arith(op, p.n, q.n) as real
    ensures Attained(op, i1, i2, x)
  {
    if x.XFin? {
      assert Contains(i1, p.n) && Contains(i2, q.n);
    }
  }

  /** Each finite bound of a sum interval is the sum of two operand values: [l1+l2, u1+u2] is tight. */
  lemma {:induction false} AddTight(i1: Itv, i2: Itv)
    requires NonEmpty(i1) && NonEmpty(i2)
    ensures BinOp(Add, i1, i2).Value?
    ensures Attained(Add, i1, i2, BinOp(Add, i1, i2).itv.lo)
    ensures Attained(Add, i1, i2, BinOp(Add, i1, i2).itv.hi)
  {
    var w := BinOp(Add, i1, i2).itv;
    if w.lo.XFin? {
      assert (i1.lo.n + i2.lo.n) as real == i1.lo.n as real + i2.lo.n as real;
    }
    if w.hi.XFin? {
      assert (i1.hi.n + i2.hi.n) as real == i1.hi.n as real + i2.hi.n as real;
    }
    CornerAttained(Add, i1, i2, i1.lo, i2.lo, w.lo);
    CornerAttained(Add, i1, i2, i1.hi, i2.hi, w.hi);
  }

  /** Each finite bound of a difference interval is attained: [l1-u2, u1-l2] is tight. */
  lemma {:induction false} SubTight(i1: Itv, i2: Itv)
    requires NonEmpty(i1) && NonEmpty(i2)
    ensures BinOp(Sub, i1, i2).Value?
    ensures Attained(Sub, i1, i2, BinOp(Sub, i1, i2).itv.lo)
    ensures Attained(Sub, i1, i2, BinOp(Sub, i1, i2).itv.hi)
  {
    var w := BinOp(Sub, i1, i2).itv;
    if w.lo.XFin? {
      assert (i1.lo.n - i2.hi.n) as real == i1.lo.n as real - i2.hi.n as real;
    }
    if w.hi.XFin? {
      assert (i1.hi.n - i2.lo.n) as real == i1.hi.n as real - i2.lo.n as real;
    }
    CornerAttained(Sub, i1, i2, i1.lo, i2.hi, w.lo);
    CornerAttained(Sub, i1, i2, i1.hi, i2.lo, w.hi);
  }

  /** A finite corner product is the product of two operand values. */
  lemma {:induction false} ProductAttained(i1: Itv, i2: Itv, p: Bound, q: Bound)
    requires NonEmpty(i1) && NonEmpty(i2)
    requires (p == i1.lo || p == i1.hi) && (q == i2.lo || q == i2.hi)
    ensures Attained(Mul, i1, i2, XMul(Embed(p), Embed(q)))
  {
    var x := XMul(Embed(p), Embed(q));
    if x.XFin? {
      assert p.Fin? && q.Fin?;
      assert (p.n * q.n) as real == p.n as real * q.n as real;
    }
    CornerAttained(Mul, i1, i2, p, q, x);
  }

  /** Each finite bound of a product interval is attained: the hull of the corner products is tight. */
  lemma {:induction false} MulTight(i1: Itv, i2: Itv)
    requires NonEmpty(i1) && NonEmpty(i2)
    ensures BinOp(Mul, i1, i2).Value?
    ensures Attained(Mul, i1, i2, BinOp(Mul, i1, i2).itv.lo)
    ensures Attained(Mul, i1, i2, BinOp(Mul, i1, i2).itv.hi)
  {
    ProductAttained(i1, i2, i1.lo, i2.lo);
    ProductAttained(i1, i2, i1.lo, i2.hi);
    ProductAttained(i1, i2, i1.hi, i2.lo);
    ProductAttained(i1, i2, i1.hi, i2.hi);
    var l1, u1, l2, u2 := Embed(i1.lo), Embed(i1.hi), Embed(i2.lo), Embed(i2.hi);
    assert BinOp(Mul, i1, i2) == Value(Hull4(XMul(l1, l2), XMul(l1, u2), XMul(u1, l2), XMul(u1, u2)));
  }
}
