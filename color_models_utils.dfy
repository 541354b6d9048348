/** The older numeric helpers of the colour-model layer (src/color_models/utils.rs). */
module ColorModelsUtils {
  import opened Float64
  import opened Channels
  import ColorModelsNumberUtils

  /** The largest operand, NaN operands skipped. */
  function GetMax(a: F64, b: F64, c: F64): (r: F64)
    ensures r == a || r == b || r == c
    ensures r.NaN? <==> a.NaN? && b.NaN? && c.NaN?
    ensures !r.NaN? ==> NotAbove(a, r) && NotAbove(b, r) && NotAbove(c, r)
  {
    Max(a, Max(b, c))
  }

  /** The smallest operand, NaN operands skipped. */
  function GetMin(a: F64, b: F64, c: F64): (r: F64)
    ensures r == a || r == b || r == c
    ensures r.NaN? <==> a.NaN? && b.NaN? && c.NaN?
    ensures !r.NaN? ==> NotBelow(a, r) && NotBelow(b, r) && NotBelow(c, r)
  {
    Min(a, Min(b, c))
  }

  /** A byte as a fraction of `BASE` = 255. */
  function AsFloat(a: u8): (r: real)
    ensures 0.0 <= r <= 1.0
    ensures r * 255.0 == a as real
  {
    a as real / 255.0
  }

  /**
   * A fraction to a byte by truncation. Here only values strictly below 0.0 take
   * the zero branch: 0.0 itself and NaN go through the cast, which gives 0 for both.
   */
  function SaveConvertFloatToByte(f: F64): (r: u8)
    ensures Ge(f, Fin(1.0)) ==> r == 255
    ensures Le(f, Fin(0.0)) || f.NaN? ==> r == 0
    ensures f.Fin? && 0.0 <= f.v < 1.0 ==> r as real <= f.v * 255.0 < r as real + 1.0 && r <= 254
  {
    if Ge(f, Fin(1.0)) then 255
    else if Lt(f, Fin(0.0)) then 0
    else CastUnsigned(MulBy(f, 255.0), 255)
  }

  /** The strict and the non-strict zero test give the same byte on every double. */
  lemma SaveConvertAgrees(f: F64)
    ensures SaveConvertFloatToByte(f) == ColorModelsNumberUtils.SaveConvertFloatToByte(f)
  {
  }

  /** Every byte survives `as_float` followed by `save_convert_float_to_byte`. */
  lemma SaveConvertOfAsFloat(c: u8)
    ensures SaveConvertFloatToByte(Fin(AsFloat(c))) == c
  {
    if c < 255 {
      FloorIs(AsFloat(c) * 255.0, c);
    }
  }

  /** Each component converted with `save_convert_float_to_byte`. */
  function AsByteTuple(floats: (F64, F64, F64)): (r: Rgb8)
    ensures r.r == SaveConvertFloatToByte(floats.0)
    ensures r.g == SaveConvertFloatToByte(floats.1)
    ensures r.b == SaveConvertFloatToByte(floats.2)
  {
    Rgb8(SaveConvertFloatToByte(floats.0), SaveConvertFloatToByte(floats.1), SaveConvertFloatToByte(floats.2))
  }
}
