/**
 * `RGBColor` of `src/color_models/rgb_color.rs`: an 8-bit colour without
 * setters, so it is modelled as its channel triple. Its `from_int` has no
 * guard on the base; `to_hsv` keeps the hue unwrapped.
 */
module ColorModelsRgbColor {
  import opened Channels
  import opened Results
  import opened Float64
  import opened HexCodec
  import opened Hexcone
  import ColorModelsUtils

  const WHITE: Rgb8 := Rgb8(255, 255, 255)
  const BLACK: Rgb8 := Rgb8(0, 0, 0)

  /** `from_rgb_f64`: each fraction clamped and truncated onto 0..255. */
  function FromRgbF64(r: F64, g: F64, b: F64): (c: Rgb8)
    ensures c == ColorModelsUtils.AsByteTuple((r, g, b))
  {
    Rgb8(ColorModelsUtils.SaveConvertFloatToByte(r), ColorModelsUtils.SaveConvertFloatToByte(g),
         ColorModelsUtils.SaveConvertFloatToByte(b))
  }

  /** Every colour survives the trip through its fractions. */
  lemma FromRgbF64OfFractions(c: Rgb8)
    ensures FromRgbF64(Fin(ColorModelsUtils.AsFloat(c.r)), Fin(ColorModelsUtils.AsFloat(c.g)),
                       Fin(ColorModelsUtils.AsFloat(c.b))) == c
  {
    ColorModelsUtils.SaveConvertOfAsFloat(c.r);
    ColorModelsUtils.SaveConvertOfAsFloat(c.g);
    ColorModelsUtils.SaveConvertOfAsFloat(c.b);
  }

  /** Truncation and clamping examples of the test module. */
  lemma FromRgbF64Examples()
    ensures FromRgbF64(Fin(0.5), Fin(0.5), Fin(0.5)) == Rgb8(0x7f, 0x7f, 0x7f)
    ensures FromRgbF64(Fin(0.2), Fin(0.2), Fin(0.2)) == Rgb8(0x33, 0x33, 0x33)
    ensures FromRgbF64(Fin(2.0), Fin(0.0), Fin(0.0)) == Rgb8(0xff, 0, 0)
    ensures FromRgbF64(Fin(-0.5), Fin(-3.0), Fin(0.8)) == Rgb8(0, 0, 0xcc)
  {
    FloorIs(0.5 * 255.0, 127);
    FloorIs(0.2 * 255.0, 51);
    FloorIs(0.8 * 255.0, 204);
  }

  /**
   * `from_hex`: parsed first (a parse error panics); length 6 is read in base
   * 256, length 3 in base 16, any other length panics.
   */
  function FromHex(hex: string): (res: Result<Rgb8, HexError>)
    ensures res.Ok? <==> (|hex| == 6 || |hex| == 3) && ParseU32Hex(hex).Ok?
    ensures ParseU32Hex(hex).Err? ==> res == Err(ParseFailed(ParseU32Hex(hex).error))
    ensures ParseU32Hex(hex).Ok? && |hex| != 6 && |hex| != 3 ==> res == Err(InvalidLength(|hex|))
    ensures |hex| == 6 && AllHexDigits(hex) ==> res.Ok? && PairsOf(hex, res.value)
    ensures |hex| == 3 && AllHexDigits(hex) ==> res.Ok? && NibblesOf(hex, res.value)
  {
    HexForms(hex);
    match ParseU32Hex(hex)
    case Err(kind) => Err(ParseFailed(kind))
    case Ok(value) =>
      if |hex| == 6 then FromIntUnguarded(value, 256)
      else if |hex| == 3 then FromIntUnguarded(value, 16)
      else Err(InvalidLength(|hex|))
  }

  /**
   * `from_int`, with no check on the base: blue, green and red from the low end
   * of `value`, shifting it right by `log2 base` bits in between. Bases 0 and 1
   * panic on `base - 1`.
   */
  method FromInt(value: u32, base: u32) returns (res: Result<Rgb8, HexError>)
    ensures res == FromIntUnguarded(value, base)
  {
    if base < 2 {
      return Err(ArithmeticPanic);
    }
    var factor := 255 / (base - 1);
    var bitMove := Log2Floor(base);
    var v: nat := value;
    var b := (v % base * factor) % 0x100;
    v := v / Pow(2, bitMove);
    var g := (v % base * factor) % 0x100;
    v := v / Pow(2, bitMove);
    var r := (v % base * factor) % 0x100;
    res := Ok(Rgb8(r, g, b));
  }

  /** `from_hex` only ever asks `from_int` for bases 16 and 256, so the missing guard never matters. */
  lemma FromHexBases(hex: string)
    ensures ParseU32Hex(hex).Ok? && |hex| == 6 ==>
      FromHex(hex) == FromIntGuarded(ParseU32Hex(hex).value, 256)
    ensures ParseU32Hex(hex).Ok? && |hex| == 3 ==>
      FromHex(hex) == FromIntGuarded(ParseU32Hex(hex).value, 16)
  {
  }

  /** `to_hex`: six lower-case digits which `from_hex` decodes back to the colour. */
  function ToHex(c: Rgb8): (s: string)
    ensures |s| == 6 && AllLowerHexDigits(s) && PairsOf(s, c)
    ensures FromHex(s) == Ok(c)
  {
    ToHexDecodes(c);
    HexCodec.ToHex(c)
  }

  /** `to_hex_3`: three lower-case digits, each channel's nearest of the 16 levels. */
  function ToHex3(c: Rgb8): (s: string)
    ensures |s| == 3 && AllLowerHexDigits(s)
    ensures DigitValue(s[0]) == Level(c.r) && DigitValue(s[1]) == Level(c.g) && DigitValue(s[2]) == Level(c.b)
  {
    ToHexShort(c)
  }

  /** A colour decoded from three digits shortens back to those digits. */
  lemma ToHex3OfFromHex(hex: string)
    requires |hex| == 3 && AllHexDigits(hex)
    ensures FromHex(hex).Ok? && ToHex3(FromHex(hex).value) == Lower(hex)
  {
    ToHexShortOfDecoded(hex);
  }

  /**
   * `to_hsv`: the raw `(h, s, v)` tuple of the hexcone formula on the channel
   * fractions, the hue not wrapped. The value is the largest fraction. The
   * saturation is `RawSaturation`, the spread over the largest fraction: a
   * fraction, and 0 exactly for grey. The leading channel picks the hue's sector: red
   * `[-60, 60]` (negative when blue exceeds green), green `(60, 180]`, blue
   * `(180, 300)`; grey has hue 0.
   */
  function ToHsv(c: Rgb8): (t: HsvTuple)
    ensures t == RawHsv(c.r as real / 255.0, c.g as real / 255.0, c.b as real / 255.0)
    ensures t.v == Max3(c.r as real, c.g as real, c.b as real) / 255.0
    ensures 0.0 <= t.s <= 1.0 && (t.s == 0.0 <==> c.r == c.g == c.b)
    ensures c.r == c.g == c.b ==> t.h == 0.0
    ensures var r, g, b := c.r as real, c.g as real, c.b as real;
      !(c.r == c.g == c.b) && RedLeads(r, g, b) ==> -60.0 <= t.h <= 60.0 && (t.h >= 0.0 <==> c.g >= c.b)
    ensures var r, g, b := c.r as real, c.g as real, c.b as real;
      !(c.r == c.g == c.b) && GreenLeads(r, g, b) ==> 60.0 < t.h <= 180.0
    ensures var r, g, b := c.r as real, c.g as real, c.b as real;
      !(c.r == c.g == c.b) && BlueLeads(r, g, b) ==> 180.0 < t.h < 300.0
  {
    var r, g, b := ColorModelsUtils.AsFloat(c.r), ColorModelsUtils.AsFloat(c.g), ColorModelsUtils.AsFloat(c.b);
    FractionsHsv(c);
    FractionsHue(c);
    RawHsv(r, g, b)
  }

  /** Dividing by 255 keeps the order of the channels. */
  lemma FractionOrder(c: Rgb8)
    ensures Max3(c.r as real / 255.0, c.g as real / 255.0, c.b as real / 255.0)
      == Max3(c.r as real, c.g as real, c.b as real) / 255.0
    ensures Min3(c.r as real / 255.0, c.g as real / 255.0, c.b as real / 255.0)
      == Min3(c.r as real, c.g as real, c.b as real) / 255.0
  {
  }

  /** `to_hsv` of the preset colours. */
  lemma ToHsvPresets()
    ensures ToHsv(WHITE) == HsvTuple(0.0, 0.0, 1.0)
    ensures ToHsv(BLACK) == HsvTuple(0.0, 0.0, 0.0)
    ensures ToHsv(Rgb8(255, 0, 0)) == HsvTuple(0.0, 1.0, 1.0)
    ensures ToHsv(Rgb8(0, 255, 0)) == HsvTuple(120.0, 1.0, 1.0)
    ensures ToHsv(Rgb8(0, 0, 255)) == HsvTuple(240.0, 1.0, 1.0)
  {
    RawHsvPresets();
  }

  lemma SixExample(hex: string, c: Rgb8)
    requires |hex| == 6 && AllHexDigits(hex)
    requires c.r == DigitValue(hex[0]) * 16 + DigitValue(hex[1])
    requires c.g == DigitValue(hex[2]) * 16 + DigitValue(hex[3])
    requires c.b == DigitValue(hex[4]) * 16 + DigitValue(hex[5])
    ensures FromHex(hex) == Ok(c)
  {
    PairsExample(hex, c, FromHex(hex).value);
  }

  /** Decoding examples of the test module. */
  lemma FromHexExamples()
    ensures FromHex("4115A6") == Ok(Rgb8(65, 21, 166))
    ensures FromHex("39f") == Ok(Rgb8(51, 153, 255))
    ensures FromHex("ab") == Err(InvalidLength(2))
    ensures FromHex("axx") == Err(ParseFailed(InvalidDigit))
  {
    SixExample("4115A6", Rgb8(65, 21, 166));
    ThreeDigitExample();
    RejectedExamples();
  }

  lemma ThreeDigitExample()
    ensures FromHex("39f") == Ok(Rgb8(51, 153, 255))
  {
    assert AllHexDigits("39f");
  }

  lemma RejectedExamples()
    ensures FromHex("ab") == Err(InvalidLength(2))
    ensures FromHex("axx") == Err(ParseFailed(InvalidDigit))
  {
    assert ParseU32Hex("ab") == Ok(0xab);
    assert Accumulate("axx", 1, 10) == Err(InvalidDigit);
  }

  /** `to_hex_3` of a decoded colour: each pair rounded to its nearest level. */
  lemma ToHex3Example()
    ensures FromHex("102030") == Ok(Rgb8(16, 32, 48))
    ensures ToHex3(Rgb8(16, 32, 48)) == "123"
  {
    SixExample("102030", Rgb8(16, 32, 48));
    ShortExample(Rgb8(16, 32, 48), "123");
  }
}
