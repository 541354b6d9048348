/**
 * `RGBColor` of `src/color/rgb_color.rs`: an 8-bit colour without setters,
 * modelled as its channel triple. Unlike the other copies, `from_hex` checks
 * the length before it parses, and the parse happens inside `from_any_hex`.
 */
module ColorRgbColor {
  import opened Channels
  import opened Results
  import opened Float64
  import opened HexCodec
  import opened Hexcone
  import ColorModelsUtils
  import ColorModelsRgb24

  const WHITE: Rgb8 := Rgb8(255, 255, 255)
  const BLACK: Rgb8 := Rgb8(0, 0, 0)

  /** `from_rgb_float`: each fraction clamped and truncated onto 0..255. */
  function FromRgbFloat(r: F64, g: F64, b: F64): (c: Rgb8)
    ensures c == ColorModelsUtils.AsByteTuple((r, g, b))
  {
    Rgb8(ColorModelsUtils.SaveConvertFloatToByte(r), ColorModelsUtils.SaveConvertFloatToByte(g),
         ColorModelsUtils.SaveConvertFloatToByte(b))
  }

  /** Clamping examples of the test module. */
  lemma FromRgbFloatExamples()
    ensures FromRgbFloat(Fin(2.0), Fin(0.0), Fin(0.0)) == Rgb8(255, 0, 0)
    ensures FromRgbFloat(Fin(-0.5), Fin(-3.0), Fin(0.8)) == Rgb8(0, 0, 204)
    ensures FromRgbFloat(Fin(0.5), Fin(0.5), Fin(0.5)) == Rgb8(127, 127, 127)
  {
    FloorIs(0.8 * 255.0, 204);
    FloorIs(0.5 * 255.0, 127);
  }

  /**
   * What `from_any_hex` returns: the factor `255 / (base - 1)` is computed
   * before anything else (bases 0 and 1 panic there), then the parse (an
   * error panics), then the channels are split off the low end of the value.
   */
  function FromAnyHexSpec(hex: string, base: u32): (res: Result<Rgb8, HexError>)
    ensures base < 2 ==> res == Err(ArithmeticPanic)
    ensures base >= 2 && ParseU32Hex(hex).Err? ==> res == Err(ParseFailed(ParseU32Hex(hex).error))
    ensures res.Ok? <==> base >= 2 && ParseU32Hex(hex).Ok?
    ensures res.Ok? ==> res.value == SplitChannels(ParseU32Hex(hex).value, base)
  {
    if base < 2 then Err(ArithmeticPanic)
    else
      match ParseU32Hex(hex)
      case Err(kind) => Err(ParseFailed(kind))
      case Ok(value) => Ok(SplitChannels(value, base))
  }

  /** `from_any_hex`: the factor first, then the parse, then the channel split. */
  method FromAnyHex(hex: string, base: u32) returns (res: Result<Rgb8, HexError>)
    ensures res == FromAnyHexSpec(hex, base)
  {
    if base < 2 {
      return Err(ArithmeticPanic);
    }
    var parsed := ParseU32Hex(hex);
    if parsed.Err? {
      return Err(ParseFailed(parsed.error));
    }
    var c := Split(parsed.value, base);
    res := Ok(c);
  }

  /** The loop-free body of `from_any_hex` after the parse: a mutable copy of the value shifted between channels. */
  method Split(value: nat, base: nat) returns (c: Rgb8)
    requires base >= 2
    ensures c == SplitChannels(value, base)
  {
    var factor := 255 / (base - 1);
    var bitMove := Log2Floor(base);
    var v := value;
    var b := (v % base * factor) % 0x100;
    v := v / Pow(2, bitMove);
    var g := (v % base * factor) % 0x100;
    v := v / Pow(2, bitMove);
    var r := (v % base * factor) % 0x100;
    c := Rgb8(r, g, b);
  }

  /**
   * `from_hex`: a length other than 3 or 6 panics before any parsing; then
   * `from_any_hex` reads 6 digits in base 256 and 3 digits in base 16.
   */
  function FromHex(hex: string): (res: Result<Rgb8, HexError>)
    ensures |hex| != 6 && |hex| != 3 ==> res == Err(InvalidLength(|hex|))
    ensures res.Ok? <==> (|hex| == 6 || |hex| == 3) && ParseU32Hex(hex).Ok?
    ensures (|hex| == 6 || |hex| == 3) && ParseU32Hex(hex).Err? ==>
      res == Err(ParseFailed(ParseU32Hex(hex).error))
    ensures |hex| == 6 && AllHexDigits(hex) ==> res.Ok? && PairsOf(hex, res.value)
    ensures |hex| == 3 && AllHexDigits(hex) ==> res.Ok? && NibblesOf(hex, res.value)
  {
    HexForms(hex);
    if |hex| == 6 then FromAnyHexSpec(hex, 16 * 16)
    else if |hex| == 3 then FromAnyHexSpec(hex, 16)
    else Err(InvalidLength(|hex|))
  }

  /**
   * Checking the length first changes only which panic a bad string causes:
   * the decoded colours, and which strings decode, are those of `RGB24`.
   */
  lemma SameDecodingAsRgb24(hex: string)
    ensures FromHex(hex).Ok? <==> ColorModelsRgb24.FromHex(hex).Ok?
    ensures FromHex(hex).Ok? ==> FromHex(hex) == ColorModelsRgb24.FromHex(hex)
  {
  }

  /** A bad length with bad characters: here a length panic, in `RGB24` a parse panic. */
  lemma LengthCheckedFirst()
    ensures FromHex("abcdefg") == Err(InvalidLength(7))
    ensures ColorModelsRgb24.FromHex("abcdefg") == Err(ParseFailed(InvalidDigit))
  {
    ColorModelsRgb24.FromHexFailures();
  }

  /** `to_hex`: six lower-case digits which `from_hex` decodes back to the colour. */
  function ToHex(c: Rgb8): (s: string)
    ensures |s| == 6 && AllLowerHexDigits(s) && PairsOf(s, c)
    ensures FromHex(s) == Ok(c)
  {
    ToHexDecodes(c);
    HexCodec.ToHex(c)
  }

  /** `to_hex_3`: three lower-case digits, each channel's nearest of the 16 levels. */
  function ToHex3(c: Rgb8): (s: string)
    ensures |s| == 3 && AllLowerHexDigits(s)
    ensures DigitValue(s[0]) == Level(c.r) && DigitValue(s[1]) == Level(c.g) && DigitValue(s[2]) == Level(c.b)
  {
    ToHexShort(c)
  }

  /** Re-encoding a decoded 6-digit string gives the string in lower case. */
  lemma ToHexOfFromHex(hex: string)
    requires |hex| == 6 && AllHexDigits(hex)
    ensures FromHex(hex).Ok? && ToHex(FromHex(hex).value) == Lower(hex)
  {
    ToHexOfDecoded(hex);
  }

  /**
   * `to_hsv`: the raw `(h, s, v)` tuple of the hexcone formula on the channel
   * fractions, the hue not wrapped. The value is the largest fraction. The
   * saturation is `RawSaturation`, the spread over the largest fraction: a
   * fraction, and 0 exactly for grey. The leading channel picks the hue's sector: red
   * `[-60, 60]` (negative when blue exceeds green), green `(60, 180]`, blue
   * `(180, 300)`; grey has hue 0.
   */
  function ToHsv(c: Rgb8): (t: HsvTuple)
    ensures t == RawHsv(c.r as real / 255.0, c.g as real / 255.0, c.b as real / 255.0)
    ensures t.v == Max3(c.r as real, c.g as real, c.b as real) / 255.0
    ensures 0.0 <= t.s <= 1.0 && (t.s == 0.0 <==> c.r == c.g == c.b)
    ensures c.r == c.g == c.b ==> t.h == 0.0
    ensures var r, g, b := c.r as real, c.g as real, c.b as real;
      !(c.r == c.g == c.b) && RedLeads(r, g, b) ==> -60.0 <= t.h <= 60.0 && (t.h >= 0.0 <==> c.g >= c.b)
    ensures var r, g, b := c.r as real, c.g as real, c.b as real;
      !(c.r == c.g == c.b) && GreenLeads(r, g, b) ==> 60.0 < t.h <= 180.0
    ensures var r, g, b := c.r as real, c.g as real, c.b as real;
      !(c.r == c.g == c.b) && BlueLeads(r, g, b) ==> 180.0 < t.h < 300.0
  {
    var r, g, b := ColorModelsUtils.AsFloat(c.r), ColorModelsUtils.AsFloat(c.g), ColorModelsUtils.AsFloat(c.b);
    FractionsHsv(c);
    FractionsHue(c);
    RawHsv(r, g, b)
  }

  /** `to_hsv` of the preset colours. */
  lemma ToHsvPresets()
    ensures ToHsv(WHITE) == HsvTuple(0.0, 0.0, 1.0)
    ensures ToHsv(BLACK) == HsvTuple(0.0, 0.0, 0.0)
    ensures ToHsv(Rgb8(255, 0, 0)) == HsvTuple(0.0, 1.0, 1.0)
    ensures ToHsv(Rgb8(0, 255, 0)) == HsvTuple(120.0, 1.0, 1.0)
    ensures ToHsv(Rgb8(0, 0, 255)) == HsvTuple(240.0, 1.0, 1.0)
  {
    RawHsvPresets();
  }

  /** Decoding examples of the test module. */
  lemma FromHexExamples()
    ensures FromHex("9f3") == Ok(Rgb8(153, 255, 51))
    ensures FromHex("222") == Ok(Rgb8(34, 34, 34))
  {
    assert AllHexDigits("9f3") && AllHexDigits("222");
  }

  /** `to_hex_3` of white and black. */
  lemma ToHex3Examples()
    ensures ToHex3(WHITE) == "fff" && ToHex3(BLACK) == "000"
  {
    ShortExample(WHITE, "fff");
    ShortExample(BLACK, "000");
  }

  /** `to_hex_3` of the three primaries. */
  lemma ToHex3Primaries()
    ensures ToHex3(Rgb8(255, 0, 0)) == "f00" && ToHex3(Rgb8(0, 255, 0)) == "0f0"
    ensures ToHex3(Rgb8(0, 0, 255)) == "00f"
  {
    ShortExample(Rgb8(255, 0, 0), "f00");
    ShortExample(Rgb8(0, 255, 0), "0f0");
    ShortExample(Rgb8(0, 0, 255), "00f");
  }

  lemma ToHex3Gray()
    ensures ToHex3(Rgb8(240, 240, 240)) == "eee"
  {
    ShortOfF0F0F0();
  }
}
