/** Numeric helpers of the colour-model layer (src/color_models/number_utils.rs). */
module ColorModelsNumberUtils {
  import opened Float64
  import opened Channels

  /** The largest operand, NaN operands skipped. */
  function GetMax(a: F64, b: F64, c: F64): (r: F64)
    ensures r == a || r == b || r == c
    ensures r.NaN? <==> a.NaN? && b.NaN? && c.NaN?
    ensures !r.NaN? ==> NotAbove(a, r) && NotAbove(b, r) && NotAbove(c, r)
  {
    Max(a, Max(b, c))
  }

  /** The smallest operand, NaN operands skipped. */
  function GetMin(a: F64, b: F64, c: F64): (r: F64)
    ensures r == a || r == b || r == c
    ensures r.NaN? <==> a.NaN? && b.NaN? && c.NaN?
    ensures !r.NaN? ==> NotBelow(a, r) && NotBelow(b, r) && NotBelow(c, r)
  {
    Min(a, Min(b, c))
  }

  /** A byte as a fraction of the channel maximum 255. */
  function AsFloat(a: u8): (r: real)
    ensures 0.0 <= r <= 1.0
    ensures r * 255.0 == a as real
  {
    a as real / 255.0
  }

  /**
   * A fraction to a byte by truncation: 1.0 and above give 255, 0.0 and below
   * give 0, NaN gives 0 (through the saturating cast), and a fraction in between
   * the integer part of `f * 255`, so never more than 254.
   */
  function SaveConvertFloatToByte(f: F64): (r: u8)
    ensures Ge(f, Fin(1.0)) ==> r == 255
    ensures Le(f, Fin(0.0)) || f.NaN? ==> r == 0
    ensures f.Fin? && 0.0 < f.v < 1.0 ==> r as real <= f.v * 255.0 < r as real + 1.0 && r <= 254
  {
    if Ge(f, Fin(1.0)) then 255
    else if Le(f, Fin(0.0)) then 0
    else CastUnsigned(MulBy(f, 255.0), 255)
  }

  /** Every byte survives `as_float` followed by `save_convert_float_to_byte`. */
  lemma SaveConvertOfAsFloat(c: u8)
    ensures SaveConvertFloatToByte(Fin(AsFloat(c))) == c
  {
    if 0 < c < 255 {
      FloorIs(AsFloat(c) * 255.0, c);
    }
  }

  /** Each component converted with `save_convert_float_to_byte`. */
  function ToByteTuple(floats: (F64, F64, F64)): (r: Rgb8)
    ensures r.r == SaveConvertFloatToByte(floats.0)
    ensures r.g == SaveConvertFloatToByte(floats.1)
    ensures r.b == SaveConvertFloatToByte(floats.2)
  {
    Rgb8(SaveConvertFloatToByte(floats.0), SaveConvertFloatToByte(floats.1), SaveConvertFloatToByte(floats.2))
  }

  /** The copy of `approx_equal_f64` kept in this file. */
  function ApproxEqualF64(a: F64, b: F64, epsilon: real): (r: bool)
    ensures a.Fin? != b.Fin? ==> !r
    ensures !a.Fin? && !b.Fin? ==> (r <==> a == b)
    ensures a.Fin? && b.Fin? ==> (r <==> -epsilon < a.v - b.v < epsilon)
  {
    if (a.Fin? && !b.Fin?) || (!a.Fin? && b.Fin?) then false
    else if !a.Fin? && !b.Fin? then
      (a.NaN? && b.NaN?)
      || (IsInfinite(a) && IsInfinite(b)
          && ((Positive(a) && Positive(b)) || (!Positive(a) && !Positive(b))))
    else Abs(a.v - b.v) < epsilon
  }

  /** Values from the unit tests of this file. */
  lemma Examples()
    ensures ToByteTuple((Fin(0.0), Fin(0.5), Fin(1.0))) == Rgb8(0, 127, 255)
    ensures ToByteTuple((Fin(-0.5), Fin(-0.9), Fin(-1042.4))) == Rgb8(0, 0, 0)
    ensures ToByteTuple((Fin(1.5), Fin(1.9), Fin(1042.4))) == Rgb8(255, 255, 255)
    ensures ToByteTuple((PosInf, NegInf, NaN)) == Rgb8(255, 0, 0)
    ensures SaveConvertFloatToByte(Fin(0.2)) == 51
    ensures GetMax(Fin(0.0), NaN, Fin(1.2)) == Fin(1.2)
    ensures GetMin(Fin(0.0), PosInf, Fin(1.0)) == Fin(0.0)
    ensures GetMin(PosInf, PosInf, NaN) == PosInf
  {
    FloorIs(0.5 * 255.0, 127);
    FloorIs(0.2 * 255.0, 51);
  }
}
