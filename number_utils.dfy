/** The crate-level numeric helpers (src/number_utils.rs). */
module NumberUtils {
  import opened Float64
  import opened Channels

  /** The largest operand, NaN operands skipped; NaN only when all three are NaN. */
  function GetMax(a: F64, b: F64, c: F64): (r: F64)
    ensures r == a || r == b || r == c
    ensures r.NaN? <==> a.NaN? && b.NaN? && c.NaN?
    ensures !r.NaN? ==> NotAbove(a, r) && NotAbove(b, r) && NotAbove(c, r)
  {
    Max(a, Max(b, c))
  }

  /** The smallest operand, NaN operands skipped; NaN only when all three are NaN. */
  function GetMin(a: F64, b: F64, c: F64): (r: F64)
    ensures r == a || r == b || r == c
    ensures r.NaN? <==> a.NaN? && b.NaN? && c.NaN?
    ensures !r.NaN? ==> NotBelow(a, r) && NotBelow(b, r) && NotBelow(c, r)
  {
    Min(a, Min(b, c))
  }

  /** On finite operands `get_max` and `get_min` are the real maximum and minimum. */
  lemma GetMaxMinFinite(a: real, b: real, c: real)
    ensures GetMax(Fin(a), Fin(b), Fin(c)) == Fin(MaxReal(a, MaxReal(b, c)))
    ensures GetMin(Fin(a), Fin(b), Fin(c)) == Fin(MinReal(a, MinReal(b, c)))
  {
  }

  /**
   * A fraction to a byte: 1.0 and above (and +inf) give 255, 0.0 and below (and
   * -inf) give 0, NaN gives 0, and a fraction in between the nearest integer to
   * `f * 255`, halves rounded up.
   */
  function ToU8Repr(f: F64): (r: u8)
    ensures Ge(f, Fin(1.0)) ==> r == 255
    ensures Le(f, Fin(0.0)) || f.NaN? ==> r == 0
    ensures f.Fin? && 0.0 < f.v < 1.0 ==> r as real - 0.5 <= f.v * 255.0 < r as real + 0.5
  {
    if Ge(f, Fin(1.0)) then 255
    else if Le(f, Fin(0.0)) then 0
    else CastUnsigned(Round(MulBy(f, 255.0)), 255)
  }

  /** The same mapping onto the 16-bit range. */
  function ToU16Repr(f: F64): (r: u16)
    ensures Ge(f, Fin(1.0)) ==> r == 65535
    ensures Le(f, Fin(0.0)) || f.NaN? ==> r == 0
    ensures f.Fin? && 0.0 < f.v < 1.0 ==> r as real - 0.5 <= f.v * 65535.0 < r as real + 0.5
  {
    if Ge(f, Fin(1.0)) then 65535
    else if Le(f, Fin(0.0)) then 0
    else CastUnsigned(Round(MulBy(f, 65535.0)), 65535)
  }

  /** `to_u8_repr` and `to_u16_repr` never reverse the order of two finite doubles. */
  lemma ReprMonotone(a: real, b: real)
    requires a <= b
    ensures ToU8Repr(Fin(a)) <= ToU8Repr(Fin(b))
    ensures ToU16Repr(Fin(a)) <= ToU16Repr(Fin(b))
  {
    if 0.0 < a && b < 1.0 {
      assert a * 255.0 <= b * 255.0;
      assert a * 65535.0 <= b * 65535.0;
    }
  }

  /** `to_u8_repr` inverts channel / 255: every byte survives the trip through a fraction. */
  lemma ToU8ReprOfFraction(c: u8)
    ensures ToU8Repr(Fin(c as real / 255.0)) == c
  {
    var f := Fin(c as real / 255.0);
    if 0 < c < 255 {
      assert f.v * 255.0 == c as real;
      RoundOfInteger(c);
    }
  }

  /** `to_u16_repr` inverts channel / 65535. */
  lemma ToU16ReprOfFraction(c: u16)
    ensures ToU16Repr(Fin(c as real / 65535.0)) == c
  {
    var f := Fin(c as real / 65535.0);
    if 0 < c < 65535 {
      assert f.v * 65535.0 == c as real;
      RoundOfInteger(c);
    }
  }

  lemma RoundOfInteger(n: nat)
    ensures RoundHalfAway(n as real) == n
  {
    FloorIs(n as real + 0.5, n);
  }

  /**
   * Doubles compared within `epsilon`. Exactly one finite operand: unequal. Both
   * non-finite: equal exactly when both are NaN or both are the same infinity.
   * Both finite: equal when closer than `epsilon`.
   */
  function ApproxEqualF64(a: F64, b: F64, epsilon: real): (r: bool)
    ensures a.Fin? != b.Fin? ==> !r
    ensures !a.Fin? && !b.Fin? ==> (r <==> a == b)
    ensures a.Fin? && b.Fin? ==> (r <==> -epsilon < a.v - b.v < epsilon)
  {
    if (a.Fin? && !b.Fin?) || (!a.Fin? && b.Fin?) then false
    else if !a.Fin? && !b.Fin? then
      (a.NaN? && b.NaN?)
      || (IsInfinite(a) && IsInfinite(b)
          && ((Positive(a) && Positive(b)) || (!Positive(a) && !Positive(b))))
    else Abs(a.v - b.v) < epsilon
  }

  /** `approx_equal_f64` does not depend on the order of its operands. */
  lemma ApproxEqualSymmetric(a: F64, b: F64, epsilon: real)
    ensures ApproxEqualF64(a, b, epsilon) == ApproxEqualF64(b, a, epsilon)
  {
  }

  /**
   * Clamping into `[min, max]`: a value at or below `min` (or -inf) gives `min`,
   * one at or above `max` (or +inf) gives `max`, anything in between is kept.
   * NaN passes through, since both comparisons fail for it.
   */
  function ConvertToRange(a: F64, min: real, max: real): (r: F64)
    ensures a.NaN? ==> r == a
    ensures min <= max && !a.NaN? ==> r.Fin? && min <= r.v <= max
    ensures a.Fin? && min <= a.v <= max ==> r == a
    ensures a.NegInf? || (a.Fin? && a.v <= min) ==> r == Fin(min)
    ensures a.PosInf? || (a.Fin? && a.v >= max && a.v > min) ==> r == Fin(max)
  {
    if Le(a, Fin(min)) then Fin(min)
    else if Ge(a, Fin(max)) then Fin(max)
    else a
  }

  /**
   * `y` is `x` moved into `[lo, hi]`: the bound it reaches or passes (an
   * infinity reaching the bound of its sign), or `x` itself when inside.
   */
  predicate ClampsTo(x: F64, lo: real, hi: real, y: real) {
    && lo <= y <= hi
    && (x.NegInf? || (x.Fin? && x.v <= lo) ==> y == lo)
    && (x.PosInf? || (x.Fin? && x.v >= hi) ==> y == hi)
    && (x.Fin? && lo <= x.v <= hi ==> y == x.v)
  }

  /** Values from the unit tests of this file. */
  lemma Examples()
    ensures GetMax(Fin(0.0), NaN, Fin(1.2)) == Fin(1.2)
    ensures GetMax(Fin(0.0), PosInf, Fin(1.0)) == PosInf
    ensures GetMax(NegInf, NegInf, NaN) == NegInf
    ensures GetMin(Fin(0.0), NaN, Fin(1.2)) == Fin(0.0)
    ensures GetMin(PosInf, PosInf, NaN) == PosInf
    ensures ToU8Repr(Fin(0.2)) == 51 && ToU8Repr(Fin(0.5)) == 128
    ensures ToU8Repr(NaN) == 0 && ToU8Repr(NegInf) == 0 && ToU8Repr(PosInf) == 255
    ensures !ApproxEqualF64(Fin(1.01), Fin(1.02), 0.01)
    ensures ApproxEqualF64(Fin(1.01), Fin(1.02), 0.1)
    ensures ApproxEqualF64(NaN, NaN, 0.01) && !ApproxEqualF64(NaN, PosInf, 0.01)
    ensures !ApproxEqualF64(PosInf, NegInf, 0.01)
  {
    RoundOfInteger(51);
    FloorIs(0.5 * 255.0 + 0.5, 128);
  }
}
