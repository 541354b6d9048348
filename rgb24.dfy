/**
 * `RGB24` of `src/color_models/rgb/rgb24.rs`: a colour with three 8-bit
 * channels, its hex codec (parse first, then choose the base by length; the
 * base is asserted to be 4, 16 or 256) and its setters.
 */
module ColorModelsRgb24 {
  import opened Channels
  import opened Results
  import opened Float64
  import opened HexCodec
  import NumberUtils

  const WHITE: Rgb8 := Rgb8(255, 255, 255)
  const BLACK: Rgb8 := Rgb8(0, 0, 0)

  class Rgb24 {
    var r: u8
    var g: u8
    var b: u8

    /** `RGB24::new`: black. */
    constructor ()
      ensures AsTuple() == BLACK
    {
      r, g, b := 0, 0, 0;
    }

    /** `RGB24::from_rgb`, and `From<(u8, u8, u8)>`. */
    constructor FromRgb(r: u8, g: u8, b: u8)
      ensures AsTuple() == Rgb8(r, g, b)
    {
      this.r, this.g, this.b := r, g, b;
    }

    /** `RGB24::from_rgb_f64`: each fraction clamped to `[0, 1]` and rounded onto 0..255. */
    constructor FromRgbF64(r: F64, g: F64, b: F64)
      ensures AsTuple() == Rgb8(NumberUtils.ToU8Repr(r), NumberUtils.ToU8Repr(g), NumberUtils.ToU8Repr(b))
    {
      this.r := NumberUtils.ToU8Repr(r);
      this.g := NumberUtils.ToU8Repr(g);
      this.b := NumberUtils.ToU8Repr(b);
    }

    /** `as_tuple`. */
    function AsTuple(): Rgb8
      reads this
    {
      Rgb8(r, g, b)
    }

    method SetRed(r': u8)
      modifies this
      ensures AsTuple() == Rgb8(r', old(g), old(b))
    {
      r := r';
    }

    method SetGreen(g': u8)
      modifies this
      ensures AsTuple() == Rgb8(old(r), g', old(b))
    {
      g := g';
    }

    method SetBlue(b': u8)
      modifies this
      ensures AsTuple() == Rgb8(old(r), old(g), b')
    {
      b := b';
    }

    /** `to_hex`: six lower-case digits that `from_hex` decodes back to this colour. */
    function ToHex(): (s: string)
      reads this
      ensures |s| == 6 && AllLowerHexDigits(s)
      ensures PairsOf(s, AsTuple())
      ensures FromHex(s) == Ok(AsTuple())
    {
      HexRoundTrip(AsTuple());
      HexCodec.ToHex(AsTuple())
    }

    /** `to_hex_short`: three lower-case digits, each channel's nearest of 16 levels. */
    function ToHexShort(): (s: string)
      reads this
      ensures |s| == 3 && AllLowerHexDigits(s)
      ensures DigitValue(s[0]) == Level(r) && DigitValue(s[1]) == Level(g) && DigitValue(s[2]) == Level(b)
    {
      HexCodec.ToHexShort(AsTuple())
    }

    /** `PartialEq::eq`: channel by channel. */
    predicate Equals(other: Rgb24)
      reads this, other
      ensures Equals(other) <==> AsTuple() == other.AsTuple()
    {
      r == other.r && g == other.g && b == other.b
    }

    /** `is_white`: equal to `WHITE`. */
    predicate IsWhite()
      reads this
      ensures IsWhite() <==> AsTuple() == WHITE
    {
      r == 255 && g == 255 && b == 255
    }

    /** `is_black`: equal to `BLACK`. */
    predicate IsBlack()
      reads this
      ensures IsBlack() <==> AsTuple() == BLACK
    {
      r == 0 && g == 0 && b == 0
    }
  }

  /**
   * `RGB24::from_hex`. The string is parsed first (a parse error panics); then
   * length 6 is read in base 256, length 3 in base 16, and any other length
   * panics. The channels come back as a triple.
   */
  function FromHex(hex: string): (res: Result<Rgb8, HexError>)
    ensures res.Ok? <==> (|hex| == 6 || |hex| == 3) && ParseU32Hex(hex).Ok?
    ensures ParseU32Hex(hex).Err? ==> res == Err(ParseFailed(ParseU32Hex(hex).error))
    ensures ParseU32Hex(hex).Ok? && |hex| != 6 && |hex| != 3 ==> res == Err(InvalidLength(|hex|))
    ensures |hex| == 6 && AllHexDigits(hex) ==> res.Ok? && PairsOf(hex, res.value)
    ensures |hex| == 3 && AllHexDigits(hex) ==> res.Ok? && NibblesOf(hex, res.value)
  {
    HexForms(hex);
    match ParseU32Hex(hex)
    case Err(kind) => Err(ParseFailed(kind))
    case Ok(value) =>
      if |hex| == 6 then FromIntGuarded(value, 256)
      else if |hex| == 3 then FromIntGuarded(value, 16)
      else Err(InvalidLength(|hex|))
  }

  /**
   * `RGB24::from_int`: asserts the base, then takes blue, green and red from
   * the low end of `value`, shifting it right by `log2 base` bits in between.
   */
  method FromInt(value: u32, base: u32) returns (res: Result<Rgb8, HexError>)
    ensures res == FromIntGuarded(value, base)
  {
    if !(base == 4 || base == 16 || base == 256) {
      return Err(UnsupportedBase(base));
    }
    var factor := 255 / (base - 1);
    var bitMove := Log2Floor(base);
    var v: nat := value;
    var b := (v % base * factor) % 0x100;
    v := v / Pow(2, bitMove);
    var g := (v % base * factor) % 0x100;
    v := v / Pow(2, bitMove);
    var r := (v % base * factor) % 0x100;
    res := Ok(Rgb8(r, g, b));
  }

  /** `from_hex(to_hex(c)) == c` for every colour. */
  lemma HexRoundTrip(c: Rgb8)
    ensures FromHex(ToHex(c)) == Ok(c)
  {
    ToHexDecodes(c);
  }

  /** Encoding a decoded 6-digit string gives that string in lower case. */
  lemma ToHexOfFromHex(hex: string)
    requires |hex| == 6 && AllHexDigits(hex)
    ensures FromHex(hex).Ok? && ToHex(FromHex(hex).value) == Lower(hex)
  {
    ToHexOfDecoded(hex);
  }

  /** Shortening a decoded 3-digit string gives that string in lower case. */
  lemma ToHexShortOfFromHex(hex: string)
    requires |hex| == 3 && AllHexDigits(hex)
    ensures FromHex(hex).Ok? && ToHexShort(FromHex(hex).value) == Lower(hex)
  {
    ToHexShortOfDecoded(hex);
  }

  /** Six-digit examples of the test module: white and black. */
  lemma FromHexSixExamples()
    ensures FromHex("ffffff") == Ok(WHITE) && FromHex("000000") == Ok(BLACK)
  {
    SixExample("ffffff", WHITE);
    SixExample("000000", BLACK);
  }

  /** Six-digit example of the test module with upper-case letters. */
  lemma FromHexMixedExample()
    ensures FromHex("A64115") == Ok(Rgb8(166, 65, 21))
  {
    SixExample("A64115", Rgb8(166, 65, 21));
  }

  lemma SixExample(hex: string, c: Rgb8)
    requires |hex| == 6 && AllHexDigits(hex)
    requires c.r == DigitValue(hex[0]) * 16 + DigitValue(hex[1])
    requires c.g == DigitValue(hex[2]) * 16 + DigitValue(hex[3])
    requires c.b == DigitValue(hex[4]) * 16 + DigitValue(hex[5])
    ensures FromHex(hex) == Ok(c)
  {
    PairsExample(hex, c, FromHex(hex).value);
  }

  lemma ThreeExample(hex: string, c: Rgb8)
    requires |hex| == 3 && AllHexDigits(hex)
    requires c.r == 17 * DigitValue(hex[0]) && c.g == 17 * DigitValue(hex[1]) && c.b == 17 * DigitValue(hex[2])
    ensures FromHex(hex) == Ok(c)
  {
  }

  /** Three-digit examples of the test module: each digit stretched by 17. */
  lemma FromHexThreeExamples()
    ensures FromHex("f39") == Ok(Rgb8(255, 51, 153))
    ensures FromHex("111") == Ok(Rgb8(17, 17, 17))
    ensures FromHex("fff") == Ok(WHITE) && FromHex("000") == Ok(BLACK)
  {
    ThreeExample("f39", Rgb8(255, 51, 153));
    ThreeExample("111", Rgb8(17, 17, 17));
    ThreeExample("fff", WHITE);
    ThreeExample("000", BLACK);
  }

  /** Rejected inputs of the test module: a bad length, a bad character. */
  lemma FromHexFailures()
    ensures FromHex("ab") == Err(InvalidLength(2))
    ensures FromHex("abcdefg") == Err(ParseFailed(InvalidDigit))
    ensures FromHex("axx") == Err(ParseFailed(InvalidDigit))
  {
    assert ParseU32Hex("ab") == Ok(0xab);
    assert Accumulate("abcdefg", 6, 0xabcdef) == Err(InvalidDigit);
    assert Accumulate("axx", 1, 10) == Err(InvalidDigit);
  }

  /** Encoding examples of the test module. */
  lemma ToHexWhite()
    ensures ToHex(WHITE) == "ffffff"
  {
    EncodeExample("ffffff", WHITE);
  }

  lemma ToHexBlack()
    ensures ToHex(BLACK) == "000000"
  {
    EncodeExample("000000", BLACK);
  }

  /** `from_rgb_f64` clamps before it encodes: 2.0 counts as 1.0. */
  lemma FromRgbF64Examples()
    ensures ToHex(Rgb8(NumberUtils.ToU8Repr(Fin(2.0)), NumberUtils.ToU8Repr(Fin(0.0)),
                                NumberUtils.ToU8Repr(Fin(0.0)))) == "ff0000"
  {
    assert NumberUtils.ToU8Repr(Fin(2.0)) == 255 && NumberUtils.ToU8Repr(Fin(0.0)) == 0;
    EncodeExample("ff0000", Rgb8(255, 0, 0));
  }

  /** Negative fractions count as 0.0; 0.8 of 255 is 204 exactly. */
  lemma FromRgbF64BelowZero()
    ensures ToHex(Rgb8(NumberUtils.ToU8Repr(Fin(-0.5)), NumberUtils.ToU8Repr(Fin(-3.0)),
                                NumberUtils.ToU8Repr(Fin(0.8)))) == "0000cc"
  {
    assert NumberUtils.ToU8Repr(Fin(-0.5)) == 0 && NumberUtils.ToU8Repr(Fin(-3.0)) == 0;
    assert NumberUtils.ToU8Repr(Fin(0.8)) == 204;
    EncodeExample("0000cc", Rgb8(0, 0, 204));
  }

  /** A decoded 3-digit string re-encodes with each digit doubled. */
  lemma ToHexOfShortExample()
    ensures FromHex("f39").Ok? && ToHex(FromHex("f39").value) == "ff3399"
  {
    FromHexThreeExamples();
    EncodeFF3399();
  }

  /** Shortening examples of the test module. */
  lemma ToHexShortPresets()
    ensures ToHexShort(WHITE) == "fff" && ToHexShort(BLACK) == "000"
  {
    ShortExample(WHITE, "fff");
    ShortExample(BLACK, "000");
  }

  /** Shortening decoded colours: each channel goes to its nearest level. */
  lemma ToHexShortGray()
    ensures FromHex("f0f0f0") == Ok(Rgb8(240, 240, 240))
    ensures ToHexShort(Rgb8(240, 240, 240)) == "eee"
  {
    SixExample("f0f0f0", Rgb8(240, 240, 240));
    ShortOfF0F0F0();
  }

  lemma ToHexShortMixed()
    ensures FromHex("a0c4ed") == Ok(Rgb8(160, 196, 237))
    ensures ToHexShort(Rgb8(160, 196, 237)) == "9ce"
  {
    SixExample("a0c4ed", Rgb8(160, 196, 237));
    ShortOfA0C4ED();
  }

  /** Base rules of `from_int` from the test module. */
  lemma FromIntExamples()
    ensures FromIntGuarded(0, 4) == Ok(BLACK) && FromIntGuarded(4 * 4 * 4 - 1, 4) == Ok(WHITE)
    ensures FromIntGuarded(0, 16) == Ok(BLACK) && FromIntGuarded(16 * 16 * 16 - 1, 16) == Ok(WHITE)
    ensures FromIntGuarded(0, 256) == Ok(BLACK) && FromIntGuarded(256 * 256 * 256 - 1, 256) == Ok(WHITE)
    ensures FromIntGuarded(0, 3).Err? && FromIntGuarded(0, 9).Err? && FromIntGuarded(0, 12).Err?
  {
    MaxValueIsWhite();
  }
}
