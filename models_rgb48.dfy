/**
 * `RGB48` of `src/models/rgb/rgb48.rs`: a deep colour with three 16-bit
 * channels and setters. Fractions go in through `to_u16_repr` and come out as
 * channel / 65535; the method named `to_rgb48` is the downscale to 8 bits.
 */
module ModelsRgb48 {
  import opened Channels
  import opened Float64
  import opened Hexcone
  import NumberUtils
  import Converter

  class Rgb48 {
    var r: u16
    var g: u16
    var b: u16

    /** `Default::default`: `BLACK`. */
    constructor Default()
      ensures AsTuple() == Converter.BLACK48
    {
      r, g, b := 0, 0, 0;
    }

    /** `from_rgb`, and `From<(u16, u16, u16)>`. */
    constructor FromRgb(r: u16, g: u16, b: u16)
      ensures AsTuple() == Rgb16(r, g, b)
    {
      this.r, this.g, this.b := r, g, b;
    }

    /** `from_rgb_f64`, and `From<(f64, f64, f64)>`: each fraction clamped and rounded onto 0..65535. */
    constructor FromRgbF64(r: F64, g: F64, b: F64)
      ensures AsTuple() == Rgb16(NumberUtils.ToU16Repr(r), NumberUtils.ToU16Repr(g), NumberUtils.ToU16Repr(b))
    {
      this.r := NumberUtils.ToU16Repr(r);
      this.g := NumberUtils.ToU16Repr(g);
      this.b := NumberUtils.ToU16Repr(b);
    }

    /** `as_tuple`. */
    function AsTuple(): Rgb16
      reads this
    {
      Rgb16(r, g, b)
    }

    /** `as_tuple_f64`: each channel over 65535, fractions in `[0, 1]` that `from_rgb_f64` turns back into this colour. */
    function AsTupleF64(): (f: (real, real, real))
      reads this
      ensures f == (r as real / 65535.0, g as real / 65535.0, b as real / 65535.0)
      ensures 0.0 <= f.0 <= 1.0 && 0.0 <= f.1 <= 1.0 && 0.0 <= f.2 <= 1.0
      ensures NumberUtils.ToU16Repr(Fin(f.0)) == r
      ensures NumberUtils.ToU16Repr(Fin(f.1)) == g
      ensures NumberUtils.ToU16Repr(Fin(f.2)) == b
    {
      NumberUtils.ToU16ReprOfFraction(r);
      NumberUtils.ToU16ReprOfFraction(g);
      NumberUtils.ToU16ReprOfFraction(b);
      Fractions16(AsTuple())
    }

    /** `to_rgb48`, which despite its name gives the 8-bit colour: each channel divided by 257. */
    function ToRgb48(): (c: Rgb8)
      reads this
      ensures c.r as int * 257 <= r < (c.r as int + 1) * 257
      ensures c.g as int * 257 <= g < (c.g as int + 1) * 257
      ensures c.b as int * 257 <= b < (c.b as int + 1) * 257
    {
      Converter.Rgb48ToRgb24(AsTuple())
    }

    /** `to_hsv`: the converter's `rgb_to_hsv` on the channel fractions. */
    function ToHsv(): (t: HsvTuple)
      reads this
      ensures t == Converter.RgbToHsv48(AsTuple())
      ensures 0.0 <= t.h < 360.0 && 0.0 <= t.s <= 1.0
      ensures t.v == Max3(r as real, g as real, b as real) / 65535.0
    {
      Converter.RgbToHsv48(AsTuple())
    }

    method SetR(r': u16)
      modifies this
      ensures AsTuple() == Rgb16(r', old(g), old(b))
    {
      r := r';
    }

    method SetG(g': u16)
      modifies this
      ensures AsTuple() == Rgb16(old(r), g', old(b))
    {
      g := g';
    }

    method SetB(b': u16)
      modifies this
      ensures AsTuple() == Rgb16(old(r), old(g), b')
    {
      b := b';
    }

    /** `PartialEq::eq`: channel by channel. */
    predicate Equals(other: Rgb48)
      reads this, other
      ensures Equals(other) <==> AsTuple() == other.AsTuple()
    {
      r == other.r && g == other.g && b == other.b
    }

    /** `is_white`: equal to `WHITE`. */
    predicate IsWhite()
      reads this
      ensures IsWhite() <==> AsTuple() == Converter.WHITE48
    {
      r == 65535 && g == 65535 && b == 65535
    }

    /** `is_black`: equal to `BLACK`. */
    predicate IsBlack()
      reads this
      ensures IsBlack() <==> AsTuple() == Converter.BLACK48
    {
      r == 0 && g == 0 && b == 0
    }
  }

  /**
   * The test module's checks: the default colour is black, each setter on the
   * default colour changes one channel, and `from` then `as_tuple` gives the
   * triple back.
   */
  method SetterExamples() returns (initial: Rgb16, red: Rgb16, green: Rgb16, blue: Rgb16, from: Rgb16)
    ensures initial == Converter.BLACK48
    ensures red == Rgb16(3, 0, 0) && green == Rgb16(0, 42, 0) && blue == Rgb16(0, 0, 127)
    ensures from == Rgb16(1, 27, 49)
  {
    var c := new Rgb48.Default();
    initial := c.AsTuple();
    c.SetR(3);
    red := c.AsTuple();
    c := new Rgb48.Default();
    c.SetG(42);
    green := c.AsTuple();
    c := new Rgb48.Default();
    c.SetB(127);
    blue := c.AsTuple();
    c := new Rgb48.FromRgb(1, 27, 49);
    from := c.AsTuple();
  }

  /** `as_tuple_f64` of white is `(1, 1, 1)` and of black `(0, 0, 0)`. */
  method FractionsExamples() returns (white: (real, real, real), black: (real, real, real))
    ensures white == (1.0, 1.0, 1.0) && black == (0.0, 0.0, 0.0)
  {
    var c := new Rgb48.FromRgb(65535, 65535, 65535);
    white := c.AsTupleF64();
    c := new Rgb48.Default();
    black := c.AsTupleF64();
  }
}
