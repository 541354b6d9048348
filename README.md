# colorful, modelled in Dafny

This project models the core of `colorful`, a small Rust crate of colour
types and colour conversions:

- RGB colours with 8-bit channels (`RGB24`, and the older `RGBColor` copies)
  and with 16-bit channels (`RGB48`, in two copies).
- Their hex codec: `from_hex`, `from_int`, `to_hex` and `to_hex_short` / `to_hex_3`.
- HSV colours: the wrapping `models::HSV` and the clamping
  `color_models::HSVColor`.
- The converters between RGB and HSV and between 8-bit and 16-bit channels.
- The numeric helpers they share: maxima and minima that skip NaN,
  fraction-to-channel rounding and truncation, clamping, and approximate
  equality.

Structs whose setters update them in place become classes with `modifies`
clauses. Structs without setters, and the free functions, become functions
over the value datatypes of `Channels`.

Doubles are modelled by `Float64.F64`: `NaN`, the two infinities, and finite
values as exact reals. The clamping helpers, the `HSV` constructors and
setters, and `hsv_to_rgb` take `F64` operands, so NaN and infinite channels
follow IEEE arithmetic through them (`Converter.HsvToRgb24Doubles`). Functions
named for finite data (`Converter.HsvToRgbFractions`, the RGB-to-HSV
conversions, whose inputs are channels over their maximum) take reals. Every
panic of the code (an `assert!`, an `expect`, an explicit `panic!`, an
arithmetic overflow) is an `Err` of a `Result`, so a contract states when each
panic occurs.

`u32::from_str_radix(_, 16)` and `format!("{:0Nx}", _)` come from the Rust
standard library. `HexCodec` models both as that library documents them. Digit
strings are related to numbers by `HexCodec.HexValue`, and the decoders and
encoders are proved to invert each other.

## Model

| member | source | states |
|---|---|---|
| Float64.Max | src/number_utils.rs:3 | `f64::max` returns one of its operands; NaN only when both are NaN; otherwise no non-NaN operand is above it |
| Float64.Min | src/number_utils.rs:8 | `f64::min` returns one of its operands; NaN only when both are NaN; otherwise no non-NaN operand is below it |
| Float64.RoundHalfAway | src/number_utils.rs:24 | `f64::round` gives the nearest integer, halves away from zero |
| Float64.Round | src/number_utils.rs:24 | `round`: a finite value becomes `RoundHalfAway` of it, the nearest integer with halves away from zero; NaN and the infinities are kept |
| Float64.Trunc | src/color_models/number_utils.rs:31 | truncation toward zero: the integer within 1 of `x`, on the side of zero |
| Float64.CastUnsigned | src/number_utils.rs:24 | the saturating `as` cast: at most `max`; the floor of an in-range value; 0 for NaN, -inf and every finite negative; `max` for +inf and every finite value at or above `max + 1` |
| Float64.MulBy | src/converter.rs:46 | a double times a finite constant, here `1 / 60` for `h / 60.0`: exact on finite values; NaN stays NaN; an infinity keeps its sign |
| Float64.Neg | src/converter.rs:47 | unary minus: finite values negated, infinities swapped, NaN kept |
| Float64.Add | src/converter.rs:52 | the exact sum of finite operands; NaN iff an operand is NaN or the operands are opposite infinities; otherwise an infinite operand is the result |
| Float64.Sub | src/converter.rs:50 | the exact difference of finite operands; NaN iff an operand is NaN or both are the same infinity |
| Float64.Mul | src/converter.rs:45 | the exact product of finite operands; NaN iff an operand is NaN or an infinity meets zero; otherwise an infinite operand gives the infinity of the product's sign |
| Float64.AbsF | src/converter.rs:47 | `abs`: the magnitude of a finite value, +inf for either infinity, NaN kept |
| Float64.Rem | src/converter.rs:47 | `h % 2.0`: `FMod` on finite values, NaN on NaN and the infinities |
| Float64.FMod | src/converter.rs:18 | `%` on doubles: `x` less the quotient truncated toward zero times `y`, so it keeps the sign of the dividend and stays below the divisor in magnitude |
| Float64.FModIs | src/converter.rs:18 | `x % y` is `x - k * y` for the truncated quotient `k`, on both sides of zero |
| Float64.RemEuclid | src/models/hsv.rs:104 | `rem_euclid` with a positive modulus lies in `[0, y)` |
| Float64.RemEuclidFloor | src/models/hsv.rs:104 | `rem_euclid` is `x` less `floor(x / y)` whole multiples of `y` |
| NumberUtils.GetMax | src/number_utils.rs:2-4 | the result is one of the operands; NaN only when all three are; no non-NaN operand exceeds it |
| NumberUtils.GetMin | src/number_utils.rs:7-9 | the result is one of the operands; NaN only when all three are; no non-NaN operand is below it |
| NumberUtils.GetMaxMinFinite | src/number_utils.rs:2-9 | on finite operands `get_max` and `get_min` are the real maximum and minimum |
| NumberUtils.ToU8Repr | src/number_utils.rs:18-26 | 255 at or above 1.0 and for +inf; 0 at or below 0.0, for -inf and for NaN; otherwise the byte nearest to `f * 255` |
| NumberUtils.ToU16Repr | src/number_utils.rs:35-43 | the same mapping onto 0..65535 |
| NumberUtils.ReprMonotone | src/number_utils.rs:18-43 | `to_u8_repr` and `to_u16_repr` never reverse the order of two finite doubles |
| NumberUtils.ToU8ReprOfFraction | src/number_utils.rs:18-26 | every byte `c` is recovered from the fraction `c / 255` |
| NumberUtils.ToU16ReprOfFraction | src/number_utils.rs:35-43 | every 16-bit channel `c` is recovered from `c / 65535` |
| NumberUtils.ApproxEqualF64 | src/number_utils.rs:60-77 | false when exactly one operand is finite; for two non-finite operands, true iff both are NaN or both are the same infinity; for two finite ones, true iff they differ by less than epsilon |
| NumberUtils.ApproxEqualSymmetric | src/number_utils.rs:60-77 | `approx_equal_f64` does not depend on operand order |
| NumberUtils.ConvertToRange | src/number_utils.rs:85-93 | NaN passes through; anything else ends up in `[min, max]`; values inside are kept; at or below `min` (or -inf) gives `min`; at or above `max` (or +inf) gives `max` |
| NumberUtils.Examples | src/number_utils.rs:100-286 | the unit tests' values for `get_max`, `get_min`, `to_u8_repr` and `approx_equal_f64` |
| ColorModelsNumberUtils.GetMax | src/color_models/number_utils.rs:4-6 | as `NumberUtils.GetMax` |
| ColorModelsNumberUtils.GetMin | src/color_models/number_utils.rs:9-11 | as `NumberUtils.GetMin` |
| ColorModelsNumberUtils.AsFloat | src/color_models/number_utils.rs:14-16 | a byte as a fraction in `[0, 1]` that times 255 gives the byte back |
| ColorModelsNumberUtils.SaveConvertFloatToByte | src/color_models/number_utils.rs:25-33 | 255 at or above 1.0; 0 at or below 0.0 and for NaN; otherwise `f * 255` truncated, never above 254 |
| ColorModelsNumberUtils.SaveConvertOfAsFloat | src/color_models/number_utils.rs:14-33 | `save_convert_float_to_byte(as_float(c)) == c` for every byte |
| ColorModelsNumberUtils.ToByteTuple | src/color_models/number_utils.rs:40-46 | each component converted by `save_convert_float_to_byte` |
| ColorModelsNumberUtils.ApproxEqualF64 | src/color_models/number_utils.rs:63-80 | the same three cases as `NumberUtils.ApproxEqualF64` |
| ColorModelsNumberUtils.Examples | src/color_models/number_utils.rs:214-299 | the unit tests' values for `to_byte_tuple`, `save_convert_float_to_byte`, `get_max` and `get_min` |
| ColorModelsUtils.GetMax | src/color_models/utils.rs:4-6 | as `NumberUtils.GetMax` |
| ColorModelsUtils.GetMin | src/color_models/utils.rs:9-11 | as `NumberUtils.GetMin` |
| ColorModelsUtils.AsFloat | src/color_models/utils.rs:14-16 | a byte as a fraction of 255 in `[0, 1]` |
| ColorModelsUtils.SaveConvertFloatToByte | src/color_models/utils.rs:18-26 | 255 at or above 1.0; 0 at or below 0.0 and for NaN; otherwise truncation of `f * 255` |
| ColorModelsUtils.SaveConvertAgrees | src/color_models/utils.rs:18-26 | the strict zero test here and the non-strict one in `number_utils.rs` give the same byte on every double |
| ColorModelsUtils.SaveConvertOfAsFloat | src/color_models/utils.rs:14-26 | every byte survives `as_float` followed by `save_convert_float_to_byte` |
| ColorModelsUtils.AsByteTuple | src/color_models/utils.rs:28-34 | each component converted by `save_convert_float_to_byte` |
| HexCodec.DigitValue | src/color_models/rgb/rgb24.rs:85 | a hex digit's value is below 16 |
| HexCodec.HexChar | src/color_models/rgb/rgb24.rs:141 | `format!` prints a lower-case digit whose value is the number printed |
| HexCodec.HexCharOfLower | src/color_models/rgb/rgb24.rs:141 | every lower-case digit is the one printed for its value |
| HexCodec.ParseU32Hex | src/color_models/rgb/rgb24.rs:84-85 | `from_str_radix(_, 16)`: `Empty` on ""; success iff, after one optional `+`, a non-empty digit string whose value fits in `u32`; then that value; otherwise `InvalidDigit`, or `PosOverflow` for an all-digit string too large |
| HexCodec.AccumulateSpec | src/color_models/rgb/rgb24.rs:84-85 | the digit loop succeeds exactly on digit strings whose value fits and yields that value |
| HexCodec.HexValueBound | src/color_models/rgb/rgb24.rs:84-85 | `k` digits denote less than `16^k` |
| HexCodec.LeadingPlus | src/color_models/rgb/rgb24.rs:84-85 | a leading `+` parses like a leading `0` |
| HexCodec.FixedHex | src/color_models/rgb/rgb24.rs:141 | exactly `w` lower-case digits |
| HexCodec.FormatHexFixed | src/color_models/rgb/rgb24.rs:141 | `{:0w$x}` of a number below `16^w` prints exactly `w` digits |
| HexCodec.FixedHexValue | src/color_models/rgb/rgb24.rs:141 | the printed digits denote the number printed |
| HexCodec.FixedHexOfValue | src/color_models/rgb/rgb24.rs:141 | printing the value of a digit string gives that string in lower case |
| HexCodec.Lower | src/color_models/rgb/rgb24.rs:141 | each digit replaced by the lower-case digit of the same value |
| HexCodec.LowerOfLower | src/color_models/rgb/rgb24.rs:141 | lower-casing a lower-case string changes nothing |
| HexCodec.Pack24 | src/color_models/rgb/rgb24.rs:140 | `(r << 16) + (g << 8) + b` fits in six hex digits |
| HexCodec.ScaledDigitFits | src/color_models/rgb/rgb24.rs:178-185 | a digit below `base` times `255 / (base - 1)` fits a byte, so the `as u8` casts never truncate |
| HexCodec.ShiftIsBase | src/color_models/rgb/rgb24.rs:179 | for bases 4, 16 and 256 the `log2` shift is exactly one digit |
| HexCodec.SplitBase256 | src/color_models/rgb/rgb24.rs:178-187 | base 256 gives the three low bytes of the value, high byte red |
| HexCodec.SplitBase16 | src/color_models/rgb/rgb24.rs:178-187 | base 16 gives the three low nibbles, each stretched by 17 |
| HexCodec.SplitPack24 | src/color_models/rgb/rgb24.rs:140-187 | `from_int(_, 256)` unpacks what `to_hex` packs |
| HexCodec.FromIntGuarded | src/color_models/rgb/rgb24.rs:171-188 | panics iff the base is not 4, 16 or 256; otherwise the three lowest base-`base` digits, blue lowest, each scaled onto 0..255 |
| HexCodec.FromIntUnguarded | src/color_models/rgb_color.rs:160-171 | panics iff the base is 0 or 1 (`base - 1`); agrees with the guarded version on 4, 16 and 256 |
| HexCodec.SplitAsDigits | src/color_models/rgb/rgb24.rs:178-187 | for those bases, shifting by `log2 base` bits is dividing by `base` |
| HexCodec.MaxValueIsWhite | src/color_models/rgb/rgb24.rs:277-286 | `base^3 - 1` decodes to white for each accepted base |
| HexCodec.DecodeSix | src/color_models/rgb/rgb24.rs:87-88 | six digits decode to their three byte pairs |
| HexCodec.ParseSix | src/color_models/rgb/rgb24.rs:84-85 | six digits always parse |
| HexCodec.DecodeThree | src/color_models/rgb/rgb24.rs:89-90 | three digits decode to their digits stretched by 17 |
| HexCodec.ParseThree | src/color_models/rgb/rgb24.rs:84-85 | three digits always parse |
| HexCodec.HexForms | src/color_models/rgb/rgb24.rs:82-94 | six- and three-digit strings parse to their value, and split into their pairs or stretched nibbles |
| HexCodec.ToHex | src/color_models/rgb/rgb24.rs:139-142 | six lower-case digits whose pairs are red, green and blue |
| HexCodec.ToHexDigits | src/color_models/rgb/rgb24.rs:139-142 | `format!("{:06x}", pack)` is those six digits |
| HexCodec.ToHexDecodes | src/color_models/rgb/rgb24.rs:139-187 | parsing `to_hex` output gives the packed number, which splits back to the colour |
| HexCodec.ToHexOfDecoded | src/color_models/rgb/rgb24.rs:82-142 | encoding a decoded six-digit string gives the string in lower case |
| HexCodec.Level | src/color_models/rgb/rgb24.rs:151-153 | the nibble kept for a channel is `(c + 8) / 17`, the nearest of the levels `0, 17, ..., 255` |
| HexCodec.LevelIsNearest | src/color_models/rgb/rgb24.rs:151-153 | `round(c / 255 * 15) as u32` is that nearest level |
| HexCodec.ToHexShort | src/color_models/rgb/rgb24.rs:150-157 | three lower-case digits, the nearest levels of red, green and blue |
| HexCodec.ToHexShortDigits | src/color_models/rgb/rgb24.rs:155-156 | `format!("{:03x}", sum)` is the three level digits |
| HexCodec.LevelOfStretched | src/color_models/rgb/rgb24.rs:151-153 | a channel stretched from a nibble keeps that nibble |
| HexCodec.ToHexShortOfNibbles | src/color_models/rgb/rgb24.rs:150-157 | a colour of three channels stretched from nibbles shortens to those nibbles' digits |
| HexCodec.ShortOfA0C4ED | src/color_models/rgb/rgb24.rs:419 | `(160, 196, 237)` shortens to `9ce` |
| HexCodec.ShortOfF0F0F0 | src/color_models/rgb/rgb24.rs:417 | `(240, 240, 240)` shortens to `eee` |
| HexCodec.EncodeFF3399 | src/color_models/rgb/rgb24.rs:401 | `(255, 51, 153)` encodes as `ff3399` |
| HexCodec.ToHexShortOfDecoded | src/color_models/rgb/rgb24.rs:89-157 | shortening a colour decoded from three digits gives those digits in lower case |
| HexCodec.PairsExample | src/color_models/rgb/rgb24.rs:306-310 | a colour whose pairs match a six-digit string is the one the string names |
| HexCodec.EncodeExample | src/color_models/rgb/rgb24.rs:391-397 | `to_hex` prints the digits of a colour given pair by pair |
| HexCodec.ShortExample | src/color_models/rgb/rgb24.rs:407-420 | `to_hex_short` prints the digits of a colour given level by level |
| Hexcone.Max3 | src/converter.rs:11 | the largest of three finite operands |
| Hexcone.Min3 | src/converter.rs:12 | the smallest of three finite operands |
| Hexcone.RawHue | src/converter.rs:15-23 | 0 for grey; otherwise in red's sector `[-60, 60]`, negative iff blue exceeds green; in green's `(60, 180]`; in blue's `(180, 300)` |
| Hexcone.RedSector | src/converter.rs:18 | in red's sector the `% 6.0` leaves the ratio unchanged, so the hue keeps its sign |
| Hexcone.RawSaturation | src/converter.rs:31 | the spread over the largest channel, 0 when that is 0; for non-negative channels a fraction that is 0 exactly for grey |
| Hexcone.RawHsv | src/converter.rs:11-32 | raw hue, raw saturation, and the largest channel as value |
| Hexcone.ScaledOrder | src/converter.rs:11-23 | dividing the channels by a positive scale keeps the maximum, the minimum, the spread and the leading channel |
| Hexcone.ScaledSectors | src/converter.rs:15-23 | the hue of scaled channels lies in the sector of the leading unscaled channel |
| Hexcone.FractionsHsv | src/converter.rs:11-32 | for an 8-bit colour's fractions: value the largest byte over 255, saturation a fraction that is 0 exactly when the bytes are equal |
| Hexcone.FractionsHue | src/converter.rs:15-23 | for an 8-bit colour's fractions: hue 0 for grey, otherwise in the leading byte's sector, negative in red's only when blue exceeds green |
| Hexcone.RawHsvPresets | src/converter.rs:121-128 | white, black, red, green and blue map to `(0,0,1)`, `(0,0,0)`, `(0,1,1)`, `(120,1,1)` and `(240,1,1)` |
| Converter.RgbToHsv | src/converter.rs:8-35 | `from_hsv` of the raw tuple succeeds; the hue is in `[0, 360)`, equal to the raw hue or, when that is negative, raw hue + 360; for fractions saturation and value are the raw ones |
| Converter.RgbToHsv24 | src/converter.rs:8-35 | on an `RGB24`: hue in `[0, 360)`, saturation and value fractions, value the largest channel over 255 |
| Converter.RgbToHsv48 | src/converter.rs:8-35 | on an `RGB48`: the same with 65535 |
| Converter.RgbToHsvOfRaw | src/converter.rs:8-35 | for fractions with a non-negative raw hue, the result is the raw tuple |
| Converter.RgbToHsv24Presets | src/converter.rs:121-128 | the preset `RGB24` colours convert to the preset HSV colours |
| Converter.RgbToHsv48Presets | src/converter.rs:146-153 | the preset `RGB48` colours convert to the preset HSV colours |
| Converter.CalcHsvDoubles | src/converter.rs:55-73 | on any doubles: three zeros for NaN, the infinities and sectors outside `[0, 6]`; inside, the upper-inclusive sectors `[0, 1]`, `(1, 2]`, ..., `(5, 6]` fix which channel gets the chroma (red in the first and last, green in the second and third, blue in the fourth and fifth), which gets `x` and which stays 0 |
| Converter.CalcHsv | src/converter.rs:55-73 | with a finite chroma and `x` the doubles' result is finite; black outside `[0, 6]`; inside, with `0 <= x <= chroma`, the maximum is the chroma and the minimum 0 |
| Converter.CalcHsvBoundaries | src/converter.rs:55-73 | each integer boundary belongs to the sector below it; -0.5, 6.5, NaN and +inf give black, for any chroma and `x` |
| Converter.SecondComponent | src/converter.rs:47 | for a non-negative hue and chroma, `x` lies in `[0, chroma]` |
| Converter.SecondComponentDoubles | src/converter.rs:47 | on doubles: the finite `x` for finite operands; NaN for a NaN or infinite sector |
| Converter.Chroma | src/converter.rs:45 | `v * s` lies in `[0, v]` for a saturation fraction and non-negative value |
| Converter.HsvToRgbBounds | src/converter.rs:41-53 | every fraction lies between `v - chroma` and `v`; for a hue in `[0, 360)` the largest is `v` and the smallest `v - chroma` |
| Converter.HsvToRgb24 | src/converter.rs:41-53 | `hsv_to_rgb::<RGB24, u8>` on finite channels: each byte between `to_u8_repr(v - v * s)` and `to_u8_repr(v)`; for a hue in `[0, 360)` both ends are reached |
| Converter.HsvToRgb48 | src/converter.rs:41-53 | `hsv_to_rgb::<RGB48, u16>` on finite channels: the same bounds with `to_u16_repr` |
| Converter.RoundedBounds | src/converter.rs:41-53 | the fraction bounds, and the rounded channel bounds for 8 and 16 bits |
| Converter.ChannelsReach | src/number_utils.rs:18-43 | fractions reaching both ends of their range round to channels reaching both rounded ends |
| Converter.ChannelsBetween | src/number_utils.rs:18-43 | rounding keeps fractions between the rounded ends of their range |
| Converter.HsvToRgbDoublesFinite | src/converter.rs:41-53 | on finite stored doubles the IEEE computation gives the finite fractions of `HsvToRgbFractions` |
| Converter.HsvToRgbDoublesHueNotFinite | src/converter.rs:41-53 | a NaN or infinite hue with finite saturation and value gives the grey `v - v * s` in all three fractions |
| Converter.HsvToRgbDoublesNaN | src/converter.rs:41-53 | a NaN saturation or value makes all three fractions NaN |
| Converter.HsvToRgb24Doubles | src/models/hsv.rs:166-168 | `HSV::to_rgb24` on stored doubles: finite channels as `HsvToRgb24`; a NaN or infinite hue gives the grey of the rounded `v - v * s`; a NaN saturation or value gives black |
| Converter.HsvToRgb48Doubles | src/models/hsv.rs:171-173 | `HSV::to_rgb48`: the same three cases with 16-bit channels |
| Converter.EdgeFractions | src/converter.rs:45-52 | at hue `120 * k` the chroma lands on channel `k`, the others are `v - v * s` |
| Converter.GreyFractions | src/converter.rs:45-52 | saturation 0 at hue 0 gives three equal fractions `v` |
| Converter.GreyChannels | src/converter.rs:41-53 | a grey gives three equal channels, the value rounded onto the range |
| Converter.PrimaryChannels | src/converter.rs:41-53 | full saturation at hue `120 * k`: channel `k` is the value rounded, the others 0 |
| Converter.ZeroValueFractions | src/converter.rs:45-52 | value 0 gives black, whatever the hue and saturation |
| Converter.HsvToRgbBlack | src/converter.rs:41-53 | every value-0 tuple converts to `RGB24` and `RGB48` black |
| Converter.HsvToRgbWhitePreset | src/converter.rs:155-176 | HSV white converts to `RGB24` and `RGB48` white |
| Converter.HsvToRgbBlackPreset | src/converter.rs:155-176 | HSV black converts to `RGB24` and `RGB48` black |
| Converter.HsvToRgbPrimaryPresets | src/converter.rs:155-176 | HSV red, green and blue convert to the `RGB24` and `RGB48` primaries |
| Converter.SectorFiveFractions | src/converter.rs:45-52 | hue 330 at full saturation gives `(v, 0, v / 2)` |
| Converter.SectorFiveChannels | src/converter.rs:41-53 | hue 330 at full saturation gives red the value rounded, green 0 and blue half the value rounded |
| Converter.HalfRoundsUp | src/number_utils.rs:24 | `to_u8_repr(0.5)` is 128: 127.5 rounds up |
| Converter.HsvToRgbMagenta | src/converter.rs:163-166 | `(330, 1, 1)` converts to `(255, 0, 128)` |
| Converter.MagentaAccepted | src/converter.rs:163-166 | `from_hsv(330, 1, 1)` keeps the tuple |
| Converter.Rgb24ToRgb48 | src/converter.rs:75-82 | times 257: every channel keeps its fraction of the range |
| Converter.Rgb48ToRgb24 | src/converter.rs:85-92 | each channel is the 16-bit one divided by 257, rounded down |
| Converter.Rgb48ToRgb24OfRgb24ToRgb48 | src/converter.rs:75-92 | down-scaling undoes up-scaling |
| Converter.Rgb24ToRgb48OfRgb48ToRgb24 | src/converter.rs:75-92 | up-scaling a down-scaled colour gives each channel at most its old value, less by under 257 |
| Converter.RescalePresets | src/converter.rs:178-193 | the presets map onto each other in both directions |
| ColorConverter.RgbToHsv | src/color_converter.rs:6-27 | `HSVColor::from_hsv` of the raw tuple succeeds; a non-negative raw hue is kept, a negative one becomes 0; for fractions saturation and value are the raw ones |
| ColorConverter.RgbToHsvWrapped | src/converter.rs:8-35 | the corrected conversion: hue in `[0, 360)`, raw hue or raw hue + 360, and equal to `Converter.RgbToHsv` |
| ColorConverter.WrappedAgreesIff | src/color_converter.rs:13-26 | the as-written and the corrected conversion agree iff the raw hue is non-negative |
| ColorConverter.NegativeHueClamped | src/color_converter.rs:15-26 | fractions `(1, 0, 0.5)` have raw hue -30, which comes out as 0 rather than 330 |
| ColorConverter.RgbToHsvPresets | src/color_converter.rs:35-41 | the five presets convert as the test expects |
| ModelsHsv.FromHsv | src/models/hsv.rs:96-108 | NaN anywhere panics first, then an infinite hue; otherwise the hue is its floor remainder modulo 360 and saturation and value are clamped into `[0, 1]` |
| ModelsHsv.FromHsvIdempotent | src/models/hsv.rs:96-108 | a normalised tuple is kept unchanged |
| ModelsHsv.FromHsvWrapsHue | src/models/hsv.rs:301-309 | -1 becomes 359, 361 becomes 1, 360 becomes 0 |
| ModelsHsv.FromHsvSpecials | src/models/hsv.rs:295-332 | infinite saturation and value are clamped; an infinite hue or a NaN panics |
| ModelsHsv.FromHsvU8 | src/models/hsv.rs:123-129 | never panics; saturation and value are the byte over 255; the hue is the byte scaled to 360, and 255 wraps to 0 |
| ModelsHsv.HueOfByte | src/models/hsv.rs:123-129 | a hue byte scaled onto degrees lies in `[0, 360]`, so only 255 wraps |
| ModelsHsv.FromHsvU8Examples | src/models/hsv.rs:254-264 | the test's three `from_hsv_u8` cases |
| ModelsHsv.ChannelU8 | src/models/hsv.rs:151-153 | the truncating saturating cast of `x / max * 255`: 255 at or above `max`, 0 at or below 0 and for NaN, otherwise the integer part |
| ModelsHsv.ScaleByteBounds | src/models/hsv.rs:151-153 | the scaled value reaches 255 once `x` reaches `max` and stays at or below 0 for `x <= 0` |
| ModelsHsv.TupleU8OfFromHsvU8 | src/models/hsv.rs:123-155 | `as_tuple_u8` inverts `from_hsv_u8` except that hue byte 255 comes back as 0 |
| ModelsHsv.TupleU8Examples | src/models/hsv.rs:267-280 | the test's truncation cases, including `(0, 255, 255)` for hue 360 |
| ModelsHsv.ApproxEqualSymmetric | src/models/hsv.rs:226-231 | `eq` does not depend on operand order |
| ModelsHsv.ApproxEqualOfTuples | src/models/hsv.rs:226-231 | two normalised tuples are `eq` iff every channel differs by less than `EPSILON` |
| ModelsHsv.Hsv.constructor | src/models/hsv.rs:79-81 | `new` is black |
| ModelsHsv.Hsv.Create | src/models/hsv.rs:96-108 | a fresh colour holding the normalised tuple, or the panic |
| ModelsHsv.Hsv.AsTupleU8 | src/models/hsv.rs:148-155 | the truncating byte tuple of the stored doubles |
| ModelsHsv.Hsv.SetH | src/models/hsv.rs:191-193 | stores the hue as given, leaving the other channels |
| ModelsHsv.Hsv.SetS | src/models/hsv.rs:196-198 | stores the saturation as given |
| ModelsHsv.Hsv.SetV | src/models/hsv.rs:201-203 | stores the value as given |
| ModelsHsv.Hsv.Equals | src/models/hsv.rs:226-231 | channel by channel `approx_equal_f64` within `EPSILON` |
| ModelsHsv.Hsv.IsWhite | src/models/hsv.rs:213-215 | all channels finite and within `EPSILON` of `(0, 0, 1)` |
| ModelsHsv.Hsv.IsBlack | src/models/hsv.rs:217-219 | all channels finite and within `EPSILON` of `(0, 0, 0)` |
| ColorModelsHsv.FromHsv | src/color_models/hsv.rs:64-75 | panics iff a channel is NaN; otherwise every channel, the hue included, is clamped into its range |
| ColorModelsHsv.FromHsvIdempotent | src/color_models/hsv.rs:64-75 | a clamped tuple is kept unchanged |
| ColorModelsHsv.FromHsvClamps | src/color_models/hsv.rs:242-266 | below-range and -inf inputs give black, above-range and +inf give `(360, 1, 1)`, NaN panics |
| ColorModelsHsv.FromHsvU8 | src/color_models/hsv.rs:86-92 | never panics; each byte scaled linearly, 255 reaching 360 and 1 |
| ColorModelsHsv.FromHsvU8Examples | src/color_models/hsv.rs:195-208 | the test's three `from_hsv_u8` cases |
| ColorModelsHsv.TupleU8OfFromHsvU8 | src/color_models/hsv.rs:86-111 | `as_tuple_u8` inverts `from_hsv_u8` on every byte triple |
| ColorModelsHsv.TupleU8Examples | src/color_models/hsv.rs:211-224 | the test's truncation cases, including `(255, 255, 255)` for hue 360 |
| ColorModelsHsv.HsvColor.constructor | src/color_models/hsv.rs:51-53 | `new` is black |
| ColorModelsHsv.HsvColor.Create | src/color_models/hsv.rs:64-75 | a fresh colour holding the clamped tuple, or the panic |
| ColorModelsHsv.HsvColor.AsTupleU8 | src/color_models/hsv.rs:105-111 | the truncating byte tuple of the stored doubles |
| ColorModelsHsv.HsvColor.SetH | src/color_models/hsv.rs:129-131 | stores the hue as given |
| ColorModelsHsv.HsvColor.SetS | src/color_models/hsv.rs:134-136 | stores the saturation as given |
| ColorModelsHsv.HsvColor.SetV | src/color_models/hsv.rs:139-141 | stores the value as given |
| ColorModelsHsv.HsvColor.Equals | src/color_models/hsv.rs:164-169 | channel by channel `approx_equal_f64` within `EPSILON` |
| ColorModelsHsv.HsvColor.IsWhite | src/color_models/hsv.rs:151-153 | all channels finite and within `EPSILON` of `(0, 0, 1)` |
| ColorModelsHsv.HsvColor.IsBlack | src/color_models/hsv.rs:155-157 | all channels finite and within `EPSILON` of `(0, 0, 0)` |
| ColorModelsRgb24.Rgb24.constructor | src/color_models/rgb/rgb24.rs:36-38 | `new` is black |
| ColorModelsRgb24.Rgb24.FromRgb | src/color_models/rgb/rgb24.rs:46-48 | `as_tuple` gives the triple back |
| ColorModelsRgb24.Rgb24.FromRgbF64 | src/color_models/rgb/rgb24.rs:61-67 | each fraction clamped and rounded by `to_u8_repr` |
| ColorModelsRgb24.Rgb24.SetRed | src/color_models/rgb/rgb24.rs:112-114 | replaces red only |
| ColorModelsRgb24.Rgb24.SetGreen | src/color_models/rgb/rgb24.rs:117-119 | replaces green only |
| ColorModelsRgb24.Rgb24.SetBlue | src/color_models/rgb/rgb24.rs:122-124 | replaces blue only |
| ColorModelsRgb24.Rgb24.ToHex | src/color_models/rgb/rgb24.rs:139-142 | six lower-case digits naming the channels, which `from_hex` decodes back to this colour |
| ColorModelsRgb24.Rgb24.ToHexShort | src/color_models/rgb/rgb24.rs:150-157 | three lower-case digits, each channel's nearest level |
| ColorModelsRgb24.Rgb24.Equals | src/color_models/rgb/rgb24.rs:216-218 | equal iff all three channels are |
| ColorModelsRgb24.Rgb24.IsWhite | src/color_models/rgb/rgb24.rs:222-224 | iff the channels are `(255, 255, 255)` |
| ColorModelsRgb24.Rgb24.IsBlack | src/color_models/rgb/rgb24.rs:226-228 | iff the channels are `(0, 0, 0)` |
| ColorModelsRgb24.FromHex | src/color_models/rgb/rgb24.rs:82-94 | a parse error panics first; then only lengths 6 and 3 succeed, any other length panics; six digits give their pairs, three their stretched nibbles |
| ColorModelsRgb24.FromInt | src/color_models/rgb/rgb24.rs:171-188 | the shifting loop-free code computes the guarded digit split |
| ColorModelsRgb24.HexRoundTrip | src/color_models/rgb/rgb24.rs:82-142 | `from_hex(to_hex(c)) == c` for every colour |
| ColorModelsRgb24.ToHexOfFromHex | src/color_models/rgb/rgb24.rs:82-142 | `to_hex(from_hex(s))` is `s` in lower case for six-digit `s` |
| ColorModelsRgb24.ToHexShortOfFromHex | src/color_models/rgb/rgb24.rs:82-157 | `to_hex_short(from_hex(s))` is `s` in lower case for three-digit `s` |
| ColorModelsRgb24.FromHexSixExamples | src/color_models/rgb/rgb24.rs:297-303 | `ffffff` and `000000` decode to white and black |
| ColorModelsRgb24.FromHexMixedExample | src/color_models/rgb/rgb24.rs:306-310 | upper-case `A64115` decodes to `(166, 65, 21)` |
| ColorModelsRgb24.SixExample | src/color_models/rgb/rgb24.rs:306-310 | a six-digit string decodes to the colour given pair by pair |
| ColorModelsRgb24.ThreeExample | src/color_models/rgb/rgb24.rs:88-89 | three digits decode to the colour of their stretched nibbles |
| ColorModelsRgb24.FromHexThreeExamples | src/color_models/rgb/rgb24.rs:331-351 | the test's three-digit decodings |
| ColorModelsRgb24.FromHexFailures | src/color_models/rgb/rgb24.rs:314-328 | too short, too long and bad characters panic |
| ColorModelsRgb24.ToHexWhite | src/color_models/rgb/rgb24.rs:391-397 | white encodes as `ffffff` |
| ColorModelsRgb24.ToHexBlack | src/color_models/rgb/rgb24.rs:391-397 | black encodes as `000000` |
| ColorModelsRgb24.FromRgbF64Examples | src/color_models/rgb/rgb24.rs:368-370 | a fraction above 1 is clamped to 1 before encoding |
| ColorModelsRgb24.FromRgbF64BelowZero | src/color_models/rgb/rgb24.rs:373-375 | fractions below 0 are clamped to 0, and 0.8 gives `cc` |
| ColorModelsRgb24.ToHexOfShortExample | src/color_models/rgb/rgb24.rs:400-404 | `f39` re-encodes as `ff3399` |
| ColorModelsRgb24.ToHexShortPresets | src/color_models/rgb/rgb24.rs:407-413 | white and black shorten to `fff` and `000` |
| ColorModelsRgb24.ToHexShortGray | src/color_models/rgb/rgb24.rs:416-420 | `f0f0f0` shortens to `eee` |
| ColorModelsRgb24.ToHexShortMixed | src/color_models/rgb/rgb24.rs:416-420 | `a0c4ed` shortens to `9ce` |
| ColorModelsRgb24.FromIntExamples | src/color_models/rgb/rgb24.rs:277-294 | bases 4, 16 and 256 decode 0 and the maximum; 3, 9 and 12 panic |
| ColorModelsRgb.RgbColor.constructor | src/color_models/rgb.rs:30-32 | `new` is black |
| ColorModelsRgb.RgbColor.FromRgb | src/color_models/rgb.rs:40-42 | `as_tuple` gives the triple back |
| ColorModelsRgb.RgbColor.SetRed | src/color_models/rgb.rs:106-108 | replaces red only |
| ColorModelsRgb.RgbColor.SetGreen | src/color_models/rgb.rs:111-113 | replaces green only |
| ColorModelsRgb.RgbColor.SetBlue | src/color_models/rgb.rs:116-118 | replaces blue only |
| ColorModelsRgb.RgbColor.ToHex | src/color_models/rgb.rs:133-136 | six lower-case digits naming the channels, decoded back by `from_hex` |
| ColorModelsRgb.RgbColor.ToHexShort | src/color_models/rgb.rs:144-151 | three lower-case digits, each channel's nearest level |
| ColorModelsRgb.RgbColor.Equals | src/color_models/rgb.rs:205-207 | equal iff all three channels are |
| ColorModelsRgb.RgbColor.IsWhite | src/color_models/rgb.rs:211-213 | iff the channels are `(255, 255, 255)` |
| ColorModelsRgb.RgbColor.IsBlack | src/color_models/rgb.rs:215-217 | iff the channels are `(0, 0, 0)` |
| ColorModelsRgb.FromHex | src/color_models/rgb.rs:76-88 | parse error first, then lengths 6 and 3 only; pairs or stretched nibbles |
| ColorModelsRgb.FromInt | src/color_models/rgb.rs:160-177 | the guarded digit split |
| ColorModelsRgb.HexRoundTrip | src/color_models/rgb.rs:76-136 | `from_hex(to_hex(c)) == c` for every colour |
| ColorModelsRgb.ToHexOfFromHex | src/color_models/rgb.rs:76-136 | `to_hex(from_hex(s))` is `s` in lower case for six-digit `s` |
| ColorModelsRgb.ToHexShortOfFromHex | src/color_models/rgb.rs:76-151 | `to_hex_short(from_hex(s))` is `s` in lower case for three-digit `s` |
| ColorModelsRgb.FromHexSixExamples | src/color_models/rgb.rs:286-292 | `ffffff` and `000000` decode to white and black |
| ColorModelsRgb.FromHexMixedExample | src/color_models/rgb.rs:295-310 | upper-case `15A641` decodes to `(21, 166, 65)` |
| ColorModelsRgb.SixExample | src/color_models/rgb.rs:295-310 | a six-digit string decodes to the colour given pair by pair |
| ColorModelsRgb.ThreeExample | src/color_models/rgb.rs:82-83 | three digits decode to the colour of their stretched nibbles |
| ColorModelsRgb.FromHexThreeExamples | src/color_models/rgb.rs:329-349 | the test's three-digit decodings |
| ColorModelsRgb.FromHexFailures | src/color_models/rgb.rs:312-327 | too short, too long and bad characters panic |
| ColorModelsRgb.ToHexWhite | src/color_models/rgb.rs:392-398 | white encodes as `ffffff` |
| ColorModelsRgb.ToHexBlack | src/color_models/rgb.rs:392-398 | black encodes as `000000` |
| ColorModelsRgb.ToHexOfShortExample | src/color_models/rgb.rs:401-405 | `f39` re-encodes as `ff3399` |
| ColorModelsRgb.ToHexShortPresets | src/color_models/rgb.rs:408-414 | white and black shorten to `fff` and `000` |
| ColorModelsRgb.ToHexShortSteps | src/color_models/rgb.rs:417-421 | `102030` shortens to `123` |
| ColorModelsRgb.ToHexShortMixed | src/color_models/rgb.rs:417-421 | `a0c4ed` shortens to `9ce` |
| ColorModelsRgb.FromIntExamples | src/color_models/rgb.rs:266-283 | bases 4, 16 and 256 decode 0 and the maximum; other bases panic |
| ColorModelsRgbColor.FromRgbF64 | src/color_models/rgb_color.rs:49-55 | each fraction converted by the truncating `save_convert_float_to_byte` |
| ColorModelsRgbColor.FromRgbF64OfFractions | src/color_models/rgb_color.rs:49-55 | every colour survives the trip through its fractions |
| ColorModelsRgbColor.FromRgbF64Examples | src/color_models/rgb_color.rs:267-286 | 0.5 truncates to `7f`, 0.2 to `33`, and out-of-range fractions are clamped |
| ColorModelsRgbColor.FromHex | src/color_models/rgb_color.rs:70-82 | parse error first, then lengths 6 and 3 only; pairs or stretched nibbles |
| ColorModelsRgbColor.FromInt | src/color_models/rgb_color.rs:160-171 | the unguarded digit split: only bases 0 and 1 panic |
| ColorModelsRgbColor.FromHexBases | src/color_models/rgb_color.rs:70-82 | `from_hex` only uses bases 256 and 16, where the unguarded split equals the guarded one |
| ColorModelsRgbColor.ToHex | src/color_models/rgb_color.rs:139-142 | six lower-case digits naming the channels, decoded back by `from_hex` |
| ColorModelsRgbColor.ToHex3 | src/color_models/rgb_color.rs:150-157 | three lower-case digits, each channel's nearest level |
| ColorModelsRgbColor.ToHex3OfFromHex | src/color_models/rgb_color.rs:70-157 | `to_hex_3(from_hex(s))` is `s` in lower case for three-digit `s` |
| ColorModelsRgbColor.ToHsv | src/color_models/rgb_color.rs:111-131 | the raw hexcone tuple of the fractions `c / 255`; value the largest channel over 255; saturation a fraction, 0 exactly for grey; hue 0 for grey, else in the leading channel's sector (red's `[-60, 60]`, negative iff blue exceeds green; green's `(60, 180]`; blue's `(180, 300)`), not wrapped |
| ColorModelsRgbColor.FractionOrder | src/color_models/rgb_color.rs:116-120 | dividing by 255 keeps the maximum and minimum channel |
| ColorModelsRgbColor.ToHsvPresets | src/color_models/rgb_color.rs:346-357 | the five presets convert as the test expects |
| ColorModelsRgbColor.SixExample | src/color_models/rgb_color.rs:197-210 | a six-digit string decodes to the colour given pair by pair |
| ColorModelsRgbColor.FromHexExamples | src/color_models/rgb_color.rs:197-243 | the test's decodings, and the too-short and bad-character panics |
| ColorModelsRgbColor.ThreeDigitExample | src/color_models/rgb_color.rs:243 | `39f` decodes to `(51, 153, 255)` |
| ColorModelsRgbColor.RejectedExamples | src/color_models/rgb_color.rs:219-229 | `ab` is a length panic and `axx` a parse panic |
| ColorModelsRgbColor.ToHex3Example | src/color_models/rgb_color.rs:339-342 | `102030` shortens to `123` |
| ColorRgbColor.FromRgbFloat | src/color/rgb_color.rs:30-36 | each fraction converted by the truncating `save_convert_float_to_byte` |
| ColorRgbColor.FromRgbFloatExamples | src/color/rgb_color.rs:230-249 | out-of-range fractions are clamped and 0.5 truncates to 127 |
| ColorRgbColor.FromAnyHexSpec | src/color/rgb_color.rs:136-149 | bases 0 and 1 panic before the parse; then a parse error panics; otherwise the channel split of the parsed value |
| ColorRgbColor.FromAnyHex | src/color/rgb_color.rs:136-149 | the imperative body computes that result |
| ColorRgbColor.Split | src/color/rgb_color.rs:142-148 | shifting a mutable copy of the value between channels gives the channel split |
| ColorRgbColor.FromHex | src/color/rgb_color.rs:50-59 | a length other than 6 or 3 panics before any parsing; then pairs or stretched nibbles |
| ColorRgbColor.SameDecodingAsRgb24 | src/color/rgb_color.rs:50-59 | the strings that decode, and the colours they decode to, are those of `RGB24::from_hex` |
| ColorRgbColor.LengthCheckedFirst | src/color/rgb_color.rs:50-59 | `abcdefg` is a length panic here but a parse panic in `RGB24` |
| ColorRgbColor.ToHex | src/color/rgb_color.rs:116-119 | six lower-case digits naming the channels, decoded back by `from_hex` |
| ColorRgbColor.ToHex3 | src/color/rgb_color.rs:127-134 | three lower-case digits, each channel's nearest level |
| ColorRgbColor.ToHexOfFromHex | src/color/rgb_color.rs:50-119 | `to_hex(from_hex(s))` is `s` in lower case for six-digit `s` |
| ColorRgbColor.ToHsv | src/color/rgb_color.rs:88-111 | the raw hexcone tuple of the fractions `c / 255`; value the largest channel over 255; saturation a fraction, 0 exactly for grey; hue 0 for grey, else in the leading channel's sector, not wrapped |
| ColorRgbColor.ToHsvPresets | src/color/rgb_color.rs:309-320 | the five presets convert as the test expects |
| ColorRgbColor.FromHexExamples | src/color/rgb_color.rs:200-210 | `9f3` and `222` decode as the test expects |
| ColorRgbColor.ToHex3Examples | src/color/rgb_color.rs:293-295 | white and black shorten to `fff` and `000` |
| ColorRgbColor.ToHex3Primaries | src/color/rgb_color.rs:296-298 | red, green and blue shorten to `f00`, `0f0` and `00f` |
| ColorRgbColor.ToHex3Gray | src/color/rgb_color.rs:302-305 | `(240, 240, 240)` shortens to `eee` |
| ColorModelsRgb48.Rgb48.constructor | src/color_models/rgb/rgb48.rs:57-59 | `new` is `BLACK` |
| ColorModelsRgb48.Rgb48.FromRgb | src/color_models/rgb/rgb48.rs:67-69 | `as_tuple` gives the triple back |
| ColorModelsRgb48.Rgb48.FromRgbF64 | src/color_models/rgb/rgb48.rs:82-88 | each fraction clamped and rounded by `to_u16_repr` |
| ColorModelsRgb48.Rgb48.SetRed | src/color_models/rgb/rgb48.rs:106-108 | replaces red only |
| ColorModelsRgb48.Rgb48.SetGreen | src/color_models/rgb/rgb48.rs:111-113 | replaces green only |
| ColorModelsRgb48.Rgb48.SetBlue | src/color_models/rgb/rgb48.rs:116-118 | replaces blue only |
| ColorModelsRgb48.Rgb48.Equals | src/color_models/rgb/rgb48.rs:156-158 | equal iff all three channels are |
| ColorModelsRgb48.Rgb48.IsWhite | src/color_models/rgb/rgb48.rs:162-164 | iff the channels are all 65535 |
| ColorModelsRgb48.Rgb48.IsBlack | src/color_models/rgb/rgb48.rs:166-168 | iff the channels are all 0 |
| ColorModelsRgb48.TestExamples | src/color_models/rgb/rgb48.rs:175-214 | a new colour is black, each setter changes one channel, and `from` then `as_tuple` gives `(1, 27, 49)` back |
| ModelsRgb48.Rgb48.Default | src/models/rgb/rgb48.rs:161-163 | the default colour is black |
| ModelsRgb48.Rgb48.FromRgb | src/models/rgb/rgb48.rs:64-123 | `as_tuple` gives the triple back |
| ModelsRgb48.Rgb48.FromRgbF64 | src/models/rgb/rgb48.rs:68-74 | each fraction clamped and rounded by `to_u16_repr` |
| ModelsRgb48.Rgb48.AsTupleF64 | src/models/rgb/rgb48.rs:104-110 | each channel over 65535: fractions in `[0, 1]` that `from_rgb_f64` turns back into this colour |
| ModelsRgb48.Rgb48.ToRgb48 | src/models/rgb/rgb48.rs:24-26 | the 8-bit colour whose channels times 257 lie within 257 below the 16-bit ones |
| ModelsRgb48.Rgb48.ToHsv | src/models/rgb/rgb48.rs:112-114 | `rgb_to_hsv` of the stored channels (`Converter.RgbToHsv48`): hue in `[0, 360)`, saturation a fraction, value the largest channel over 65535 |
| ModelsRgb48.Rgb48.SetR | src/models/rgb/rgb48.rs:88-90 | replaces red only |
| ModelsRgb48.Rgb48.SetG | src/models/rgb/rgb48.rs:92-94 | replaces green only |
| ModelsRgb48.Rgb48.SetB | src/models/rgb/rgb48.rs:96-98 | replaces blue only |
| ModelsRgb48.Rgb48.Equals | src/models/rgb/rgb48.rs:142-144 | equal iff all three channels are |
| ModelsRgb48.Rgb48.IsWhite | src/models/rgb/rgb48.rs:148-150 | iff the channels are all 65535 |
| ModelsRgb48.Rgb48.IsBlack | src/models/rgb/rgb48.rs:152-154 | iff the channels are all 0 |
| ModelsRgb48.SetterExamples | src/models/rgb/rgb48.rs:170-208 | the default colour is black, each setter changes one channel, and `from` then `as_tuple` gives `(1, 27, 49)` back |
| ModelsRgb48.FractionsExamples | src/models/rgb/rgb48.rs:104-110 | `as_tuple_f64` of white is `(1, 1, 1)` and of black `(0, 0, 0)` |

## Left out

- Floating point rounding: finite doubles are exact reals. Results that depend on the nearest representable double are not modelled (for example whether `0.2 * 255.0` rounds to exactly 51). Neither is the sign of `-0.0`, nor overflow to infinity in a product.
- `ColorModelsRgb24.Rgb24.FromRgbF64`: the test at src/color_models/rgb/rgb24.rs:363 expects `from_rgb_f64(0.5, 0.5, 0.5)` to print `7f7f7f`. `to_u8_repr` rounds 127.5 up to 128 (`808080`), and the model follows `to_u8_repr`.
- The X11 colour table test at src/converter.rs:129-143 compares within a tolerance on the doubles of a named-colour list that is not part of this model.
- `RGB24::to_hsv` (src/color_models/rgb/rgb24.rs:160-162) calls `color_converter::rgb_to_hex`, which no file defines. It is not modelled.
- `number_utils::to_byte_repr` and `as_float_tuple` are not part of this model. So `RGBColor::from_rgb_f64` of src/color_models/rgb.rs:55-61 and `as_tuple_f64` of `RGBColor` and `RGB24` are not modelled.
- `number_utils::as_float_tuple_u16` is not part of this model, so `as_tuple_f64` of the colour-model `RGB48` (src/color_models/rgb/rgb48.rs:126-128) is not modelled.
- `crate::color::utils`, imported by src/color/rgb_color.rs, is not part of this model. It is taken to be the same as src/color_models/utils.rs, whose functions `ColorRgbColor` uses.
- `src/color_converter.rs` names `color_models::hsv::HSV` and `color_models::rgb::RGB`. These differ from the names those files declare (`HSVColor`, and the `RGB<T>` trait of the models layer). The model follows the module path: `HSVColor::from_hsv`, which clamps.
- Generic dispatch through the `RGB<T>` trait (`hsv_to_rgb::<T, U>` and `HSV::to_rgb`): the model gives its two instances, `Converter.HsvToRgb24Doubles` for `to_rgb24` and `Converter.HsvToRgb48Doubles` for `to_rgb48`, as functions of the three stored doubles rather than methods of `ModelsHsv.Hsv`.
- `Converter.HsvToRgbFractions`, `Converter.HsvToRgb24` and `Converter.HsvToRgb48` take finite channels only. NaN and infinite channels, which the `HSV` setters of src/models/hsv.rs:191-203 let through, are handled by `Converter.HsvToRgbDoubles`, `Converter.HsvToRgb24Doubles` and `Converter.HsvToRgb48Doubles`.
- Converter.HsvToRgb24Doubles: computes the IEEE result for an infinite saturation or value too, but its contract states nothing about that case (the result depends on the signs through several cancelling infinities).
- Converter.HsvToRgb48Doubles: likewise says nothing about an infinite saturation or value.
- `RGB24` of the models layer (`crate::models::rgb::rgb24`, imported at src/converter.rs:2) is not part of this model. Its `from_rgb_f64` is taken to be `to_u8_repr` on each fraction, as in `RGB48` of the same layer, and its `as_tuple_f64` each channel over 255. The model's RGB24 side of `converter.rs` uses `Channels.Rgb8` with those two readings.
- `rgb_color::MAX_VALUE`, used by `as_float` at src/color_models/number_utils.rs:15, is not part of this model. `ColorModelsNumberUtils.AsFloat` takes it to be 255, the largest byte, the value of `rgb_color::BASE` (src/color_models/rgb_color.rs:17) that the `color_models/utils.rs` copy of `as_float` divides by.
- Getters (`r()`, `red()`, `h()`, ...) are the classes' fields. The preset constants are constants of each module.
- `Display` / `fmt`, the debugging `print!` in `as_tuple_u8`, and the serde derives are output formatting only.
- `HexCodec.Log2Floor`: `(base as f64).log2() as u32` is modelled as the floor of the base-2 logarithm. This is exact for the powers of two that reach it.
- `HexCodec.ParseU32Hex`: follows the standard library's documented behaviour: one optional `+`, no `-` for unsigned types, either letter case, and overflow detected digit by digit.
- The `common_colors` name tables are data, not logic.

## Findings

| source | as written | input that shows it | evidently intended | confidence | as-written member | corrected member |
|---|---|---|---|---|---|---|
| src/color_converter.rs:15-26 | A colour in red's sector with blue above green has a negative raw hue (`%` keeps the sign). `HSVColor::from_hsv` then clamps that hue to 0. | fractions `(1, 0, 0.5)`: raw hue -30, so the result has hue 0 | hue 330, as `src/converter.rs` gives through the wrapping `HSV::from_hsv` | not executed | ColorConverter.NegativeHueClamped | ColorConverter.RgbToHsvWrapped |
