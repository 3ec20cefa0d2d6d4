/**
 * Extended numbers used by the interval domain.
 *
 * An interval endpoint at rest is an integer or an infinity (`Bound`).
 * While a new interval is being computed, the analysis works with Java
 * `float` values; `XReal` models those as exact reals extended with the two
 * infinities and NaN, following IEEE 754 for the operations that can produce
 * an infinity or NaN (signed zero and rounding to 24-bit mantissas are not
 * modelled).
 */
module ExtNum {

  datatype Bound = NegInf | Fin(n: int) | PosInf

  /** The total order -inf < ... < -1 < 0 < 1 < ... < +inf. */
  predicate Le(a: Bound, b: Bound) {
    match (a, b)
    case (NegInf, _) => true
    case (_, PosInf) => true
    case (Fin(x), Fin(y)) => x <= y
    case _ => false
  }

  predicate Lt(a: Bound, b: Bound) {
    !Le(b, a)
  }

  function Min(a: Bound, b: Bound): (r: Bound)
    ensures Le(r, a) && Le(r, b) && (r == a || r == b)
  {
    if Le(a, b) then a else b
  }

  function Max(a: Bound, b: Bound): (r: Bound)
    ensures Le(a, r) && Le(b, r) && (r == a || r == b)
  {
    if Le(a, b) then b else a
  }

  /** `b + 1` in float arithmetic: infinities absorb the increment. */
  function Succ(b: Bound): (r: Bound)
    ensures b.Fin? ==> r == Fin(b.n + 1)
    ensures !b.Fin? ==> r == b
  {
    if b.Fin? then Fin(b.n + 1) else b
  }

  /** `b - 1` in float arithmetic. */
  function Pred(b: Bound): (r: Bound)
    ensures b.Fin? ==> r == Fin(b.n - 1)
    ensures !b.Fin? ==> r == b
  {
    if b.Fin? then Fin(b.n - 1) else b
  }

  /** Negation of a bound: the infinities swap. */
  function Negate(b: Bound): Bound {
    match b
    case NegInf => PosInf
    case Fin(n) => Fin(-n)
    case PosInf => NegInf
  }

  /** The integer n lies on the upper side of a lower bound. */
  predicate AtLeast(b: Bound, n: int) {
    b.NegInf? || (b.Fin? && b.n <= n)
  }

  /** The integer n lies on the lower side of an upper bound. */
  predicate AtMost(b: Bound, n: int) {
    b.PosInf? || (b.Fin? && n <= b.n)
  }

  lemma LeTotal(a: Bound, b: Bound)
    ensures Le(a, b) || Le(b, a)
  {
  }

  lemma LeTrans(a: Bound, b: Bound, c: Bound)
    requires Le(a, b) && Le(b, c)
    ensures Le(a, c)
  {
  }

  datatype XReal = XNegInf | XFin(r: real) | XPosInf | NaN

  function Embed(b: Bound): (x: XReal)
    ensures !x.NaN?
  {
    match b
    case NegInf => XNegInf
    case Fin(n) => XFin(n as real)
    case PosInf => XPosInf
  }

  /** Rank of a non-NaN value among -inf, finite, +inf. */
  function Rank(x: XReal): int {
    match x
    case XNegInf => 0
    case XFin(_) => 1
    case XPosInf => 2
    case NaN => 3
  }

  /** Float `<=`: false whenever NaN is involved. */
  predicate XLe(a: XReal, b: XReal) {
    !a.NaN? && !b.NaN? &&
    (if a.XFin? && b.XFin? then a.r <= b.r else Rank(a) <= Rank(b))
  }

  /** Float `<`: false whenever NaN is involved. */
  predicate XLt(a: XReal, b: XReal) {
    !a.NaN? && !b.NaN? && !XLe(b, a)
  }

  /** `Math.min` on floats: NaN if either argument is NaN. */
  function XMin(a: XReal, b: XReal): (r: XReal)
    ensures !a.NaN? && !b.NaN? ==> XLe(r, a) && XLe(r, b) && (r == a || r == b)
    ensures a.NaN? || b.NaN? ==> r.NaN?
  {
    if a.NaN? || b.NaN? then NaN else if XLe(a, b) then a else b
  }

  /** `Math.max` on floats: NaN if either argument is NaN. */
  function XMax(a: XReal, b: XReal): (r: XReal)
    ensures !a.NaN? && !b.NaN? ==> XLe(a, r) && XLe(b, r) && (r == a || r == b)
    ensures a.NaN? || b.NaN? ==> r.NaN?
  {
    if a.NaN? || b.NaN? then NaN else if XLe(a, b) then b else a
  }

  function XNeg(a: XReal): XReal {
    match a
    case XNegInf => XPosInf
    case XFin(r) => XFin(-r)
    case XPosInf => XNegInf
    case NaN => NaN
  }

  lemma {:induction false} NegateEmbed(b: Bound)
    ensures Embed(Negate(b)) == XNeg(Embed(b))
  {
    if b.Fin? {
      assert (-b.n) as real == -(b.n as real);
    }
  }

  /** -1, 0 or 1 for a non-NaN value. */
  function Sign(a: XReal): int {
    match a
    case XNegInf => -1
    case XPosInf => 1
    case XFin(r) => if r < 0.0 then -1 else if r == 0.0 then 0 else 1
    case NaN => 0
  }

  function InfOfSign(s: int): XReal {
    if s < 0 then XNegInf else XPosInf
  }

  /** Float addition: opposite infinities give NaN. */
  function XAdd(a: XReal, b: XReal): (r: XReal)
    ensures a.XFin? && b.XFin? ==> r == XFin(a.r + b.r)
  {
    match (a, b)
    case (NaN, _) => NaN
    case (_, NaN) => NaN
    case (XFin(x), XFin(y)) => XFin(x + y)
    case (XFin(_), _) => b
    case (_, XFin(_)) => a
    case _ => if a == b then a else NaN
  }

  /** Float subtraction, `a + (-b)`. */
  function XSub(a: XReal, b: XReal): (r: XReal)
    ensures a.XFin? && b.XFin? ==> r == XFin(a.r - b.r)
  {
    XAdd(a, XNeg(b))
  }

  /** Float multiplication: zero times an infinity gives NaN. */
  function XMul(a: XReal, b: XReal): (r: XReal)
    ensures a.XFin? && b.XFin? ==> r == XFin(a.r * b.r)
  {
    if a.NaN? || b.NaN? then NaN
    else if a.XFin? && b.XFin? then XFin(a.r * b.r)
    else if Sign(a) == 0 || Sign(b) == 0 then NaN
    else InfOfSign(Sign(a) * Sign(b))
  }

  /**
   * Float division: infinity over infinity and zero over zero give NaN, a
   * finite value over an infinity gives zero, a non-zero value over zero
   * gives an infinity of its sign.
   */
  function XDiv(a: XReal, b: XReal): (r: XReal)
    ensures a.XFin? && b.XFin? && b.r != 0.0 ==> r == XFin(a.r / b.r)
  {
    if a.NaN? || b.NaN? then NaN
    else if !a.XFin? && !b.XFin? then NaN
    else if a.XFin? && !b.XFin? then XFin(0.0)
    else if !a.XFin? then (if Sign(b) == 0 then a else InfOfSign(Sign(a) * Sign(b)))
    else if b.r != 0.0 then XFin(a.r / b.r)
    else if a.r == 0.0 then NaN
    else InfOfSign(Sign(a))
  }

  /** `Math.ceil` of a real: the least integer not below r. */
  function Ceil(r: real): (n: int)
    ensures r <= n as real < r + 1.0
  {
    -((-r).Floor)
  }

  /** `Math.floor` of a real: the greatest integer not above r. */
  function Floor(r: real): (n: int)
    ensures r - 1.0 < n as real <= r
  {
    r.Floor
  }

  /** Rounding toward zero, Java's rule for integer division. */
  function Trunc(r: real): (n: int)
    ensures 0.0 <= r ==> n == Floor(r)
    ensures r < 0.0 ==> n == Ceil(r)
  {
    if 0.0 <= r then Floor(r) else Ceil(r)
  }

  lemma {:induction false} TruncMonotone(a: real, b: real)
    requires a <= b
    ensures Trunc(a) <= Trunc(b)
  {
    if a < 0.0 && 0.0 <= b {
      assert Trunc(a) <= 0;
    } else if 0.0 <= a {
      assert Floor(a) as real <= a <= b < Floor(b) as real + 1.0;
    } else {
      assert Ceil(a) as real < a + 1.0 <= b + 1.0 <= Ceil(b) as real + 1.0;
    }
  }

  /** `(float) Math.ceil(x)` on a float: infinities and NaN are unchanged. */
  function XCeil(x: XReal): (r: XReal)
    ensures x.XFin? ==> r.XFin? && x.r <= r.r < x.r + 1.0
    ensures !x.XFin? ==> r == x
  {
    if x.XFin? then XFin(Ceil(x.r) as real) else x
  }

  /** `(float) Math.floor(x)` on a float: infinities and NaN are unchanged. */
  function XFloor(x: XReal): (r: XReal)
    ensures x.XFin? ==> r.XFin? && x.r - 1.0 < r.r <= x.r
    ensures !x.XFin? ==> r == x
  {
    if x.XFin? then XFin(Floor(x.r) as real) else x
  }

  /** Truncation toward zero of a float; infinities and NaN are unchanged. */
  function XTrunc(x: XReal): (r: XReal)
    ensures x.XFin? ==> r == XFin(Trunc(x.r) as real)
    ensures !x.XFin? ==> r == x
  {
    if x.XFin? then XFin(Trunc(x.r) as real) else x
  }

  /**
   * The integer n lies within [lo, hi] read as float bounds; a NaN bound
   * excludes nothing, since every comparison with it is false.
   */
  predicate XContains(lo: XReal, hi: XReal, n: int) {
    (lo.NaN? || XLe(lo, XFin(n as real))) && (hi.NaN? || XLe(XFin(n as real), hi))
  }
}
