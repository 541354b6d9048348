/**
 * `RGBColor` of `src/color_models/rgb.rs`: the same 8-bit colour as `RGB24`,
 * with the same hex codec (parse first, then choose the base by length; the
 * base is asserted to be 4, 16 or 256) and setters.
 */
module ColorModelsRgb {
  import opened Channels
  import opened Results
  import opened HexCodec

  const WHITE: Rgb8 := Rgb8(255, 255, 255)
  const BLACK: Rgb8 := Rgb8(0, 0, 0)

  class RgbColor {
    var r: u8
    var g: u8
    var b: u8

    /** `RGBColor::new`: black. */
    constructor ()
      ensures AsTuple() == BLACK
    {
      r, g, b := 0, 0, 0;
    }

    /** `RGBColor::from_rgb`, and `From<(u8, u8, u8)>`. */
    constructor FromRgb(r: u8, g: u8, b: u8)
      ensures AsTuple() == Rgb8(r, g, b)
    {
      this.r, this.g, this.b := r, g, b;
    }

    /** `as_tuple`. */
    function AsTuple(): Rgb8
      reads this
    {
      Rgb8(r, g, b)
    }

    method SetRed(r': u8)
      modifies this
      ensures AsTuple() == Rgb8(r', old(g), old(b))
    {
      r := r';
    }

    method SetGreen(g': u8)
      modifies this
      ensures AsTuple() == Rgb8(old(r), g', old(b))
    {
      g := g';
    }

    method SetBlue(b': u8)
      modifies this
      ensures AsTuple() == Rgb8(old(r), old(g), b')
    {
      b := b';
    }

    /** `to_hex`: six lower-case digits that `from_hex` decodes back to this colour. */
    function ToHex(): (s: string)
      reads this
      ensures |s| == 6 && AllLowerHexDigits(s)
      ensures PairsOf(s, AsTuple())
      ensures FromHex(s) == Ok(AsTuple())
    {
      HexRoundTrip(AsTuple());
      HexCodec.ToHex(AsTuple())
    }

    /** `to_hex_short`: three lower-case digits, each channel's nearest of 16 levels. */
    function ToHexShort(): (s: string)
      reads this
      ensures |s| == 3 && AllLowerHexDigits(s)
      ensures DigitValue(s[0]) == Level(r) && DigitValue(s[1]) == Level(g) && DigitValue(s[2]) == Level(b)
    {
      HexCodec.ToHexShort(AsTuple())
    }

    /** `PartialEq::eq`: channel by channel. */
    predicate Equals(other: RgbColor)
      reads this, other
      ensures Equals(other) <==> AsTuple() == other.AsTuple()
    {
      r == other.r && g == other.g && b == other.b
    }

    /** `is_white`: equal to `WHITE`. */
    predicate IsWhite()
      reads this
      ensures IsWhite() <==> AsTuple() == WHITE
    {
      r == 255 && g == 255 && b == 255
    }

    /** `is_black`: equal to `BLACK`. */
    predicate IsBlack()
      reads this
      ensures IsBlack() <==> AsTuple() == BLACK
    {
      r == 0 && g == 0 && b == 0
    }
  }

  /**
   * `RGBColor::from_hex`. The string is parsed first (a parse error panics); then
   * length 6 is read in base 256, length 3 in base 16, and any other length
   * panics. The channels come back as a triple.
   */
  function FromHex(hex: string): (res: Result<Rgb8, HexError>)
    ensures res.Ok? <==> (|hex| == 6 || |hex| == 3) && ParseU32Hex(hex).Ok?
    ensures ParseU32Hex(hex).Err? ==> res == Err(ParseFailed(ParseU32Hex(hex).error))
    ensures ParseU32Hex(hex).Ok? && |hex| != 6 && |hex| != 3 ==> res == Err(InvalidLength(|hex|))
    ensures |hex| == 6 && AllHexDigits(hex) ==> res.Ok? && PairsOf(hex, res.value)
    ensures |hex| == 3 && AllHexDigits(hex) ==> res.Ok? && NibblesOf(hex, res.value)
  {
    HexForms(hex);
    match ParseU32Hex(hex)
    case Err(kind) => Err(ParseFailed(kind))
    case Ok(value) =>
      if |hex| == 6 then FromIntGuarded(value, 256)
      else if |hex| == 3 then FromIntGuarded(value, 16)
      else Err(InvalidLength(|hex|))
  }

  /**
   * `RGBColor::from_int`: asserts the base, then takes blue, green and red from
   * the low end of `value`, shifting it right by `log2 base` bits in between.
   */
  method FromInt(value: u32, base: u32) returns (res: Result<Rgb8, HexError>)
    ensures res == FromIntGuarded(value, base)
  {
    if !(base == 4 || base == 16 || base == 256) {
      return Err(UnsupportedBase(base));
    }
    var factor := 255 / (base - 1);
    var bitMove := Log2Floor(base);
    var v: nat := value;
    var b := (v % base * factor) % 0x100;
    v := v / Pow(2, bitMove);
    var g := (v % base * factor) % 0x100;
    v := v / Pow(2, bitMove);
    var r := (v % base * factor) % 0x100;
    res := Ok(Rgb8(r, g, b));
  }

  /** `from_hex(to_hex(c)) == c` for every colour. */
  lemma HexRoundTrip(c: Rgb8)
    ensures FromHex(ToHex(c)) == Ok(c)
  {
    ToHexDecodes(c);
  }

  /** Encoding a decoded 6-digit string gives that string in lower case. */
  lemma ToHexOfFromHex(hex: string)
    requires |hex| == 6 && AllHexDigits(hex)
    ensures FromHex(hex).Ok? && ToHex(FromHex(hex).value) == Lower(hex)
  {
    ToHexOfDecoded(hex);
  }

  /** Shortening a decoded 3-digit string gives that string in lower case. */
  lemma ToHexShortOfFromHex(hex: string)
    requires |hex| == 3 && AllHexDigits(hex)
    ensures FromHex(hex).Ok? && ToHexShort(FromHex(hex).value) == Lower(hex)
  {
    ToHexShortOfDecoded(hex);
  }

  /** Six-digit examples of the test module: white and black. */
  lemma FromHexSixExamples()
    ensures FromHex("ffffff") == Ok(WHITE) && FromHex("000000") == Ok(BLACK)
  {
    SixExample("ffffff", WHITE);
    SixExample("000000", BLACK);
  }

  /** Six-digit example of the test module with upper-case letters. */
  lemma FromHexMixedExample()
    ensures FromHex("15A641") == Ok(Rgb8(21, 166, 65))
  {
    SixExample("15A641", Rgb8(21, 166, 65));
  }

  lemma SixExample(hex: string, c: Rgb8)
    requires |hex| == 6 && AllHexDigits(hex)
    requires c.r == DigitValue(hex[0]) * 16 + DigitValue(hex[1])
    requires c.g == DigitValue(hex[2]) * 16 + DigitValue(hex[3])
    requires c.b == DigitValue(hex[4]) * 16 + DigitValue(hex[5])
    ensures FromHex(hex) == Ok(c)
  {
    PairsExample(hex, c, FromHex(hex).value);
  }

  lemma ThreeExample(hex: string, c: Rgb8)
    requires |hex| == 3 && AllHexDigits(hex)
    requires c.r == 17 * DigitValue(hex[0]) && c.g == 17 * DigitValue(hex[1]) && c.b == 17 * DigitValue(hex[2])
    ensures FromHex(hex) == Ok(c)
  {
  }

  /** Three-digit examples of the test module: each digit stretched by 17. */
  lemma FromHexThreeExamples()
    ensures FromHex("f39") == Ok(Rgb8(255, 51, 153))
    ensures FromHex("333") == Ok(Rgb8(51, 51, 51))
    ensures FromHex("fff") == Ok(WHITE) && FromHex("000") == Ok(BLACK)
  {
    ThreeExample("f39", Rgb8(255, 51, 153));
    ThreeExample("333", Rgb8(51, 51, 51));
    ThreeExample("fff", WHITE);
    ThreeExample("000", BLACK);
  }

  /** Rejected inputs of the test module: a bad length, a bad character. */
  lemma FromHexFailures()
    ensures FromHex("ab") == Err(InvalidLength(2))
    ensures FromHex("abcdefg") == Err(ParseFailed(InvalidDigit))
    ensures FromHex("axx") == Err(ParseFailed(InvalidDigit))
  {
    assert ParseU32Hex("ab") == Ok(0xab);
    assert Accumulate("abcdefg", 6, 0xabcdef) == Err(InvalidDigit);
    assert Accumulate("axx", 1, 10) == Err(InvalidDigit);
  }

  /** Encoding examples of the test module. */
  lemma ToHexWhite()
    ensures ToHex(WHITE) == "ffffff"
  {
    EncodeExample("ffffff", WHITE);
  }

  lemma ToHexBlack()
    ensures ToHex(BLACK) == "000000"
  {
    EncodeExample("000000", BLACK);
  }

  /** A decoded 3-digit string re-encodes with each digit doubled. */
  lemma ToHexOfShortExample()
    ensures FromHex("f39").Ok? && ToHex(FromHex("f39").value) == "ff3399"
  {
    FromHexThreeExamples();
    EncodeFF3399();
  }

  /** Shortening examples of the test module. */
  lemma ToHexShortPresets()
    ensures ToHexShort(WHITE) == "fff" && ToHexShort(BLACK) == "000"
  {
    ShortExample(WHITE, "fff");
    ShortExample(BLACK, "000");
  }

  /** Shortening decoded colours: each channel goes to its nearest level. */
  lemma ToHexShortSteps()
    ensures FromHex("102030") == Ok(Rgb8(16, 32, 48))
    ensures ToHexShort(Rgb8(16, 32, 48)) == "123"
  {
    SixExample("102030", Rgb8(16, 32, 48));
    ShortExample(Rgb8(16, 32, 48), "123");
  }

  lemma ToHexShortMixed()
    ensures FromHex("a0c4ed") == Ok(Rgb8(160, 196, 237))
    ensures ToHexShort(Rgb8(160, 196, 237)) == "9ce"
  {
    SixExample("a0c4ed", Rgb8(160, 196, 237));
    ShortOfA0C4ED();
  }

  /** Base rules of `from_int` from the test module. */
  lemma FromIntExamples()
    ensures FromIntGuarded(0, 4) == Ok(BLACK) && FromIntGuarded(4 * 4 * 4 - 1, 4) == Ok(WHITE)
    ensures FromIntGuarded(0, 16) == Ok(BLACK) && FromIntGuarded(16 * 16 * 16 - 1, 16) == Ok(WHITE)
    ensures FromIntGuarded(0, 256) == Ok(BLACK) && FromIntGuarded(256 * 256 * 256 - 1, 256) == Ok(WHITE)
    ensures FromIntGuarded(0, 3).Err? && FromIntGuarded(0, 9).Err? && FromIntGuarded(0, 12).Err?
  {
    MaxValueIsWhite();
  }
}
