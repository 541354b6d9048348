/**
 * `RGB48` of `src/color_models/rgb/rgb48.rs`: a deep colour with three 16-bit
 * channels, created black or from integers or fractions, with setters.
 */
module ColorModelsRgb48 {
  import opened Channels
  import opened Float64
  import NumberUtils

  const WHITE: Rgb16 := Rgb16(65535, 65535, 65535)
  const BLACK: Rgb16 := Rgb16(0, 0, 0)
  const RED: Rgb16 := Rgb16(65535, 0, 0)
  const GREEN: Rgb16 := Rgb16(0, 65535, 0)
  const BLUE: Rgb16 := Rgb16(0, 0, 65535)

  class Rgb48 {
    var r: u16
    var g: u16
    var b: u16

    /** `RGB48::new`: `from_rgb(0, 0, 0)`, which is `BLACK`. */
    constructor ()
      ensures AsTuple() == BLACK
    {
      r, g, b := 0, 0, 0;
    }

    /** `from_rgb`, and `From<(u16, u16, u16)>`: `as_tuple` gives the triple back. */
    constructor FromRgb(r: u16, g: u16, b: u16)
      ensures AsTuple() == Rgb16(r, g, b)
    {
      this.r, this.g, this.b := r, g, b;
    }

    /** `from_rgb_f64`, and `From<(f64, f64, f64)>`: each fraction clamped and rounded onto 0..65535. */
    constructor FromRgbF64(r: F64, g: F64, b: F64)
      ensures AsTuple() == Rgb16(NumberUtils.ToU16Repr(r), NumberUtils.ToU16Repr(g), NumberUtils.ToU16Repr(b))
    {
      this.r := NumberUtils.ToU16Repr(r);
      this.g := NumberUtils.ToU16Repr(g);
      this.b := NumberUtils.ToU16Repr(b);
    }

    /** `as_tuple`. */
    function AsTuple(): Rgb16
      reads this
    {
      Rgb16(r, g, b)
    }

    method SetRed(r': u16)
      modifies this
      ensures AsTuple() == Rgb16(r', old(g), old(b))
    {
      r := r';
    }

    method SetGreen(g': u16)
      modifies this
      ensures AsTuple() == Rgb16(old(r), g', old(b))
    {
      g := g';
    }

    method SetBlue(b': u16)
      modifies this
      ensures AsTuple() == Rgb16(old(r), old(g), b')
    {
      b := b';
    }

    /** `PartialEq::eq`: channel by channel. */
    predicate Equals(other: Rgb48)
      reads this, other
      ensures Equals(other) <==> AsTuple() == other.AsTuple()
    {
      r == other.r && g == other.g && b == other.b
    }

    /** `is_white`: equal to `WHITE`. */
    predicate IsWhite()
      reads this
      ensures IsWhite() <==> AsTuple() == WHITE
    {
      r == 65535 && g == 65535 && b == 65535
    }

    /** `is_black`: equal to `BLACK`. */
    predicate IsBlack()
      reads this
      ensures IsBlack() <==> AsTuple() == BLACK
    {
      r == 0 && g == 0 && b == 0
    }
  }

  /** The test module's checks: a new colour is black, each setter changes one channel, `from` then `as_tuple`. */
  method TestExamples() returns (initial: Rgb16, red: Rgb16, green: Rgb16, blue: Rgb16, from: Rgb16)
    ensures initial == BLACK
    ensures red == Rgb16(3, 0, 0) && green == Rgb16(0, 42, 0) && blue == Rgb16(0, 0, 127)
    ensures from == Rgb16(1, 27, 49)
  {
    var c := new Rgb48();
    initial := c.AsTuple();
    c.SetRed(3);
    red := c.AsTuple();
    c := new Rgb48();
    c.SetGreen(42);
    green := c.AsTuple();
    c := new Rgb48();
    c.SetBlue(127);
    blue := c.AsTuple();
    c := new Rgb48.FromRgb(1, 27, 49);
    from := c.AsTuple();
  }
}
