/**
 * `rgb_to_hsv` of `src/color_converter.rs`: the hexcone hue, saturation and
 * value of the channel fractions, handed to the `from_hsv` of
 * `color_models::hsv`, which clamps the hue into `[0, 360]` rather than
 * wrapping it. A negative hue from red's sector therefore becomes 0.
 */
module ColorConverter {
  import opened Float64
  import opened Channels
  import opened Results
  import opened Hexcone
  import ColorModelsHsv
  import Converter

  /** `rgb_to_hsv` as written, on the fractions `as_tuple_f64` returns. */
  function RgbToHsv(r: real, g: real, b: real): (t: HsvTuple)
    ensures ColorModelsHsv.FromHsv(Fin(RawHue(r, g, b)), Fin(RawSaturation(r, g, b)), Fin(Max3(r, g, b))) == Ok(t)
    ensures RawHue(r, g, b) >= 0.0 ==> t.h == RawHue(r, g, b)
    ensures RawHue(r, g, b) < 0.0 ==> t.h == 0.0
    ensures IsFraction(r) && IsFraction(g) && IsFraction(b) ==>
      t.s == RawSaturation(r, g, b) && t.v == Max3(r, g, b)
  {
    ColorModelsHsv.FromHsv(Fin(RawHue(r, g, b)), Fin(RawSaturation(r, g, b)), Fin(Max3(r, g, b))).value
  }

  /**
   * `rgb_to_hsv` with the hue wrapped before it is clamped: a negative hue
   * from red's sector is moved up by 360 degrees, as the converter of
   * `src/converter.rs` does. It agrees with that converter on every input.
   */
  function RgbToHsvWrapped(r: real, g: real, b: real): (t: HsvTuple)
    ensures 0.0 <= t.h < 360.0
    ensures t.h == RawHue(r, g, b) || t.h == RawHue(r, g, b) + 360.0
    ensures t == Converter.RgbToHsv(r, g, b)
  {
    var hue := RawHue(r, g, b);
    var wrapped := if hue < 0.0 then hue + 360.0 else hue;
    ColorModelsHsv.FromHsv(Fin(wrapped), Fin(RawSaturation(r, g, b)), Fin(Max3(r, g, b))).value
  }

  /** The two differ exactly on the colours whose raw hue is negative: red leading, blue above green. */
  lemma WrappedAgreesIff(r: real, g: real, b: real)
    ensures RgbToHsv(r, g, b) == RgbToHsvWrapped(r, g, b) <==> RawHue(r, g, b) >= 0.0
  {
    if RawHue(r, g, b) < 0.0 {
      assert RgbToHsvWrapped(r, g, b).h != 0.0;
    }
  }

  /** Red with half blue: the raw hue is -30; as written it becomes 0, wrapped it is 330. */
  lemma NegativeHueClamped()
    ensures RawHue(1.0, 0.0, 0.5) == -30.0
    ensures RgbToHsv(1.0, 0.0, 0.5).h == 0.0
    ensures RgbToHsvWrapped(1.0, 0.0, 0.5).h == 330.0
  {
    FModSmallNegative(-0.5, 6.0);
  }

  /** The test module: the five preset colours, whose fractions are 0 and 1. */
  lemma RgbToHsvPresets()
    ensures RgbToHsv(1.0, 1.0, 1.0) == HsvTuple(0.0, 0.0, 1.0)
    ensures RgbToHsv(0.0, 0.0, 0.0) == HsvTuple(0.0, 0.0, 0.0)
    ensures RgbToHsv(1.0, 0.0, 0.0) == HsvTuple(0.0, 1.0, 1.0)
    ensures RgbToHsv(0.0, 1.0, 0.0) == HsvTuple(120.0, 1.0, 1.0)
    ensures RgbToHsv(0.0, 0.0, 1.0) == HsvTuple(240.0, 1.0, 1.0)
  {
    RawHsvPresets();
  }
}
