/**
 * IEEE-754 doubles, reduced to what the colour code branches on: NaN, the two
 * infinities and finite values. Finite values are exact reals: rounding to the
 * nearest double is not modelled, and -0.0 is not told apart from 0.0.
 */
module Float64 {
  datatype F64 = NaN | PosInf | NegInf | Fin(v: real)

  predicate IsInfinite(x: F64) { x.PosInf? || x.NegInf? }

  /** `a <= b` on doubles: false as soon as one operand is NaN. */
  predicate Le(a: F64, b: F64) {
    !a.NaN? && !b.NaN? && (a.NegInf? || b.PosInf? || (a.Fin? && b.Fin? && a.v <= b.v))
  }

  /** `a >= b` on doubles. */
  predicate Ge(a: F64, b: F64) { Le(b, a) }

  /** `a < b` on doubles. */
  predicate Lt(a: F64, b: F64) { !a.NaN? && !b.NaN? && !Le(b, a) }

  /** `a > b` on doubles. */
  predicate Gt(a: F64, b: F64) { Lt(b, a) }

  /** `x` is NaN or not above `r`: what a maximum that skips NaN operands promises. */
  predicate NotAbove(x: F64, r: F64) { x.NaN? || Le(x, r) }

  /** `x` is NaN or not below `r`. */
  predicate NotBelow(x: F64, r: F64) { x.NaN? || Ge(x, r) }

  /** Rust's `f64::max`: a NaN operand is ignored; NaN only when both are NaN. */
  function Max(a: F64, b: F64): (r: F64)
    ensures r == a || r == b
    ensures r.NaN? <==> a.NaN? && b.NaN?
    ensures !r.NaN? ==> NotAbove(a, r) && NotAbove(b, r)
  {
    if a.NaN? then b else if b.NaN? then a else if Ge(a, b) then a else b
  }

  /** Rust's `f64::min`. */
  function Min(a: F64, b: F64): (r: F64)
    ensures r == a || r == b
    ensures r.NaN? <==> a.NaN? && b.NaN?
    ensures !r.NaN? ==> NotBelow(a, r) && NotBelow(b, r)
  {
    if a.NaN? then b else if b.NaN? then a else if Le(a, b) then a else b
  }

  /** Sign of a non-NaN double, zero counting as positive. */
  predicate Positive(x: F64) { x.PosInf? || (x.Fin? && x.v >= 0.0) }

  /** A double times a finite constant `k`, with IEEE special cases (overflow not modelled). */
  function MulBy(a: F64, k: real): (r: F64)
    ensures a.Fin? ==> r == Fin(a.v * k)
    ensures a.NaN? ==> r.NaN?
    ensures IsInfinite(a) && k == 0.0 ==> r.NaN?
    ensures IsInfinite(a) && k > 0.0 ==> r == a
  {
    match a
    case NaN => NaN
    case Fin(_) => Fin(a.v * k)
    case PosInf => if k == 0.0 then NaN else if k > 0.0 then PosInf else NegInf
    case NegInf => if k == 0.0 then NaN else if k > 0.0 then NegInf else PosInf
  }

  /** Unary `-`: the infinities swap, NaN stays NaN. */
  function Neg(a: F64): (r: F64)
    ensures a.Fin? ==> r == Fin(-a.v)
    ensures r.NaN? <==> a.NaN?
    ensures r.PosInf? <==> a.NegInf?
    ensures r.NegInf? <==> a.PosInf?
  {
    match a
    case NaN => NaN
    case PosInf => NegInf
    case NegInf => PosInf
    case Fin(x) => Fin(-x)
  }

  /**
   * `a + b`: NaN when an operand is NaN or the operands are opposite
   * infinities; otherwise an infinite operand absorbs the other (overflow
   * of finite sums is not modelled).
   */
  function Add(a: F64, b: F64): (r: F64)
    ensures a.Fin? && b.Fin? ==> r == Fin(a.v + b.v)
    ensures r.NaN? <==> a.NaN? || b.NaN? || (IsInfinite(a) && IsInfinite(b) && a != b)
    ensures IsInfinite(a) && !r.NaN? ==> r == a
    ensures IsInfinite(b) && !r.NaN? ==> r == b
  {
    if a.NaN? || b.NaN? then NaN
    else if a.Fin? && b.Fin? then Fin(a.v + b.v)
    else if a.Fin? then b
    else if b.Fin? || a == b then a
    else NaN
  }

  /** `a - b`: the sum with `-b`, so equal infinities give NaN. */
  function Sub(a: F64, b: F64): (r: F64)
    ensures a.Fin? && b.Fin? ==> r == Fin(a.v - b.v)
    ensures r.NaN? <==> a.NaN? || b.NaN? || (IsInfinite(a) && a == b)
    ensures IsInfinite(a) && !r.NaN? ==> r == a
    ensures IsInfinite(b) && !r.NaN? ==> r == Neg(b)
  {
    Add(a, Neg(b))
  }

  /**
   * `a * b`: NaN when an operand is NaN or an infinity meets zero; otherwise an
   * infinite operand gives the infinity of the product's sign.
   */
  function Mul(a: F64, b: F64): (r: F64)
    ensures a.Fin? && b.Fin? ==> r == Fin(a.v * b.v)
    ensures r.NaN? <==> a.NaN? || b.NaN? || (IsInfinite(a) && b == Fin(0.0)) || (IsInfinite(b) && a == Fin(0.0))
    ensures (IsInfinite(a) || IsInfinite(b)) && !r.NaN? ==>
      IsInfinite(r) && (r.PosInf? <==> Positive(a) == Positive(b))
  {
    if a.NaN? || b.NaN? then NaN
    else if a.Fin? && b.Fin? then Fin(a.v * b.v)
    else if a == Fin(0.0) || b == Fin(0.0) then NaN
    else if Positive(a) == Positive(b) then PosInf
    else NegInf
  }

  /** `f64::abs`. */
  function AbsF(a: F64): (r: F64)
    ensures a.Fin? ==> r == Fin(Abs(a.v)) && r.v >= 0.0
    ensures r.NaN? <==> a.NaN?
    ensures IsInfinite(a) ==> r.PosInf?
  {
    match a
    case NaN => NaN
    case Fin(x) => Fin(Abs(x))
    case _ => PosInf
  }

  /** `x % y` on doubles for a finite positive `y`: NaN unless `x` is finite. */
  function Rem(x: F64, y: real): (r: F64)
    requires y > 0.0
    ensures x.Fin? ==> r == Fin(FMod(x.v, y))
    ensures !x.Fin? ==> r.NaN?
  {
    if x.Fin? then Fin(FMod(x.v, y)) else NaN
  }

  /** `f64::round` of a finite value: to the nearest integer, halves away from zero. */
  function RoundHalfAway(x: real): (n: int)
    ensures x >= 0.0 ==> n as real - 0.5 <= x < n as real + 0.5
    ensures x < 0.0 ==> n as real - 0.5 < x <= n as real + 0.5
  {
    if x >= 0.0 then (x + 0.5).Floor else -((-x + 0.5).Floor)
  }

  /** `f64::round`: specials are returned unchanged. */
  function Round(x: F64): (r: F64)
    ensures x.Fin? ==> r == Fin(RoundHalfAway(x.v) as real)
    ensures r.Fin? <==> x.Fin?
    ensures !x.Fin? ==> r == x
  {
    if x.Fin? then Fin(RoundHalfAway(x.v) as real) else x
  }

  /** `f64::trunc` of a finite value: toward zero. */
  function Trunc(x: real): (n: int)
    ensures x >= 0.0 ==> n as real <= x < n as real + 1.0
    ensures x < 0.0 ==> n as real - 1.0 < x <= n as real
  {
    if x >= 0.0 then x.Floor else -((-x).Floor)
  }

  /** Rust's saturating `as` cast from `f64` to an unsigned integer with maximum `max`. */
  function CastUnsigned(x: F64, max: nat): (n: nat)
    ensures n <= max
    ensures x.Fin? && 0.0 <= x.v < max as real + 1.0 ==> n == x.v.Floor
    ensures x.NaN? || x.NegInf? ==> n == 0
    ensures x.PosInf? ==> n == max
    ensures x.Fin? && x.v < 0.0 ==> n == 0
    ensures x.Fin? && x.v >= max as real + 1.0 ==> n == max
  {
    match x
    case NaN => 0
    case NegInf => 0
    case PosInf => max
    case Fin(v) => var t := Trunc(v); if t < 0 then 0 else if t > max then max else t
  }

  /** The `%` operator on doubles (C's `fmod`): the remainder keeps the sign of `x`. */
  function FMod(x: real, y: real): (r: real)
    requires y > 0.0
    ensures x >= 0.0 ==> 0.0 <= r < y
    ensures x < 0.0 ==> -y < r <= 0.0
    ensures r == x - (Trunc(x / y) as real) * y
  {
    FModBounds(x, y);
    x - (Trunc(x / y) as real) * y
  }

  lemma FModBounds(x: real, y: real)
    requires y > 0.0
    ensures var r := x - (Trunc(x / y) as real) * y;
      (x >= 0.0 ==> 0.0 <= r < y) && (x < 0.0 ==> -y < r <= 0.0)
  {
    var q := x / y;
    var t := Trunc(q) as real;
    assert x == q * y;
    if x >= 0.0 {
      RemainderBelow(x, y, q, t);
    } else {
      RemainderBelow(-x, y, -q, -t);
    }
  }

  /** With `t <= x/y < t + 1`, the remainder `x - t*y` lies in `[0, y)`. */
  lemma RemainderBelow(x: real, y: real, q: real, t: real)
    requires y > 0.0 && x == q * y && t <= q < t + 1.0
    ensures 0.0 <= x - t * y < y
  {
    var d := q - t;
    ScaleBelow(y, d);
    assert d * y < y;
    assert x - t * y == d * y;
  }

  lemma MulNonNegative(a: real, b: real)
    requires a >= 0.0 && b >= 0.0
    ensures a * b >= 0.0
  {
  }

  /** Scaling a fraction in `[0, 1)` by a positive `y` stays in `[0, y)`. */
  lemma ScaleBelow(y: real, d: real)
    requires y > 0.0 && 0.0 <= d < 1.0
    ensures 0.0 <= d * y < y
  {
    MulNonNegative(d, y);
    MulNonNegative(1.0 - d, y);
    assert y - d * y == (1.0 - d) * y;
  }

  /** `f64::rem_euclid` for a positive modulus: `%`, then shifted into `[0, y)`. */
  function RemEuclid(x: real, y: real): (r: real)
    requires y > 0.0
    ensures 0.0 <= r < y
  {
    var m := FMod(x, y);
    if m < 0.0 then m + y else m
  }

  function Abs(x: real): real { if x < 0.0 then -x else x }

  function MaxReal(a: real, b: real): real { if a >= b then a else b }

  function MinReal(a: real, b: real): real { if a <= b then a else b }

  /** The floor of a real is the integer just below it. */
  lemma FloorIs(x: real, k: int)
    requires k as real <= x < k as real + 1.0
    ensures x.Floor == k
  {
  }

  /**
   * `x % y` is `x - k*y` for the quotient `k` truncated toward zero: with
   * `k*y <= x < (k+1)*y` for a non-negative `x`, and `(k-1)*y < x <= k*y`
   * for a negative one.
   */
  lemma FModIs(x: real, y: real, k: int)
    requires y > 0.0
    requires (x >= 0.0 && (k as real) * y <= x < (k as real + 1.0) * y)
      || (x < 0.0 && (k as real - 1.0) * y < x <= (k as real) * y)
    ensures FMod(x, y) == x - (k as real) * y
  {
    if x >= 0.0 {
      QuotientBetween(x, y, k as real);
      FloorIs(x / y, k);
    } else {
      TruncNegative(x, y, k);
    }
  }

  /** For a negative `x` with `(k-1)*y < x <= k*y`, the quotient `x / y` truncates to `k`. */
  lemma TruncNegative(x: real, y: real, k: int)
    requires y > 0.0 && x < 0.0 && (k as real - 1.0) * y < x <= (k as real) * y
    ensures Trunc(x / y) == k
  {
    var j := -(k as real);
    assert j * y <= -x < (j + 1.0) * y;
    QuotientBetween(-x, y, j);
    FloorIs(-x / y, -k);
    assert x / y == -(-x / y);
  }

  /** Dividing `k*y <= x < (k+1)*y` by a positive `y`. */
  lemma QuotientBetween(x: real, y: real, k: real)
    requires y > 0.0 && k * y <= x < (k + 1.0) * y
    ensures k <= x / y < k + 1.0
  {
    var q := x / y;
    assert x == q * y;
    if q >= k + 1.0 {
      MulNonNegative(q - (k + 1.0), y);
      assert false;
    }
  }

  /** A negative `x` above `-y` is its own remainder. */
  lemma FModSmallNegative(x: real, y: real)
    requires y > 0.0 && -y < x < 0.0
    ensures FMod(x, y) == x
  {
    QuotientBetween(-x, y, 0.0);
    FloorIs(-x / y, 0);
    assert x / y == -(-x / y);
  }

  /** `rem_euclid` is the floor remainder: `x` less a whole number `floor(x / y)` of `y`. */
  lemma RemEuclidFloor(x: real, y: real)
    requires y > 0.0
    ensures RemEuclid(x, y) == x - ((x / y).Floor as real) * y
  {
    var q := x / y;
    var t := Trunc(q) as real;
    assert x == q * y;
    var m := FMod(x, y);
    assert m == x - t * y;
    if m >= 0.0 {
      QuotientBetween(x, y, t);
      FloorIs(q, Trunc(q));
    } else {
      QuotientBetween(x, y, t - 1.0);
      FloorIs(q, Trunc(q) - 1);
    }
  }

  /** `x.rem_euclid(y)` is `x + k*y` for the one whole `k` that lands in `[0, y)`. */
  lemma RemEuclidIs(x: real, y: real, k: int)
    requires y > 0.0 && 0.0 <= x + (k as real) * y < y
    ensures RemEuclid(x, y) == x + (k as real) * y
  {
    RemEuclidFloor(x, y);
    QuotientBetween(x, y, -(k as real));
    FloorIs(x / y, -k);
  }
}
