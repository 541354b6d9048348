/**
 * `src/converter.rs`: RGB -> HSV with the hexcone formula, HSV -> RGB with the
 * chroma construction, and the rescaling between 8-bit and 16-bit channels.
 * A colour enters `rgb_to_hsv` through its channel fractions (`as_tuple_f64`)
 * and leaves `hsv_to_rgb` through `from_rgb_f64` of the target type.
 */
module Converter {
  import opened Float64
  import opened Channels
  import opened Results
  import opened Hexcone
  import NumberUtils
  import ModelsHsv

  const WHITE24: Rgb8 := Rgb8(255, 255, 255)
  const BLACK24: Rgb8 := Rgb8(0, 0, 0)
  const RED24: Rgb8 := Rgb8(255, 0, 0)
  const GREEN24: Rgb8 := Rgb8(0, 255, 0)
  const BLUE24: Rgb8 := Rgb8(0, 0, 255)

  const WHITE48: Rgb16 := Rgb16(65535, 65535, 65535)
  const BLACK48: Rgb16 := Rgb16(0, 0, 0)
  const RED48: Rgb16 := Rgb16(65535, 0, 0)
  const GREEN48: Rgb16 := Rgb16(0, 65535, 0)
  const BLUE48: Rgb16 := Rgb16(0, 0, 65535)

  /**
   * `rgb_to_hsv` on the fractions `(r, g, b)`: the hexcone hue, saturation and
   * value handed to `HSV::from_hsv`, which cannot panic on them and wraps a
   * negative hue of red's sector up by 360.
   */
  function RgbToHsv(r: real, g: real, b: real): (t: HsvTuple)
    ensures ModelsHsv.FromHsv(Fin(RawHue(r, g, b)), Fin(RawSaturation(r, g, b)), Fin(Max3(r, g, b))) == Ok(t)
    ensures 0.0 <= t.h < 360.0
    ensures RawHue(r, g, b) >= 0.0 ==> t.h == RawHue(r, g, b)
    ensures RawHue(r, g, b) < 0.0 ==> t.h == RawHue(r, g, b) + 360.0
    ensures IsFraction(r) && IsFraction(g) && IsFraction(b) ==>
      t.s == RawSaturation(r, g, b) && t.v == Max3(r, g, b)
  {
    var hue := RawHue(r, g, b);
    if hue >= 0.0 then
      RemEuclidIs(hue, 360.0, 0);
      ModelsHsv.FromHsv(Fin(hue), Fin(RawSaturation(r, g, b)), Fin(Max3(r, g, b))).value
    else
      RemEuclidIs(hue, 360.0, 1);
      ModelsHsv.FromHsv(Fin(hue), Fin(RawSaturation(r, g, b)), Fin(Max3(r, g, b))).value
  }

  /** `rgb_to_hsv` of an `RGB24`. */
  function RgbToHsv24(c: Rgb8): (t: HsvTuple)
    ensures t == RgbToHsv(Fractions8(c).0, Fractions8(c).1, Fractions8(c).2)
    ensures 0.0 <= t.h < 360.0 && 0.0 <= t.s <= 1.0 && 0.0 <= t.v <= 1.0
    ensures t.v == Max3(c.r as real, c.g as real, c.b as real) / 255.0
  {
    var f := Fractions8(c);
    assert Max3(f.0, f.1, f.2) == Max3(c.r as real, c.g as real, c.b as real) / 255.0;
    RgbToHsv(f.0, f.1, f.2)
  }

  /** `rgb_to_hsv` of an `RGB48`. */
  function RgbToHsv48(c: Rgb16): (t: HsvTuple)
    ensures t == RgbToHsv(Fractions16(c).0, Fractions16(c).1, Fractions16(c).2)
    ensures 0.0 <= t.h < 360.0 && 0.0 <= t.s <= 1.0 && 0.0 <= t.v <= 1.0
    ensures t.v == Max3(c.r as real, c.g as real, c.b as real) / 65535.0
  {
    var f := Fractions16(c);
    assert Max3(f.0, f.1, f.2) == Max3(c.r as real, c.g as real, c.b as real) / 65535.0;
    RgbToHsv(f.0, f.1, f.2)
  }

  /** For fractions whose hexcone hue is not negative, `rgb_to_hsv` is the raw hexcone tuple. */
  lemma RgbToHsvOfRaw(r: real, g: real, b: real)
    requires IsFraction(r) && IsFraction(g) && IsFraction(b) && RawHue(r, g, b) >= 0.0
    ensures RgbToHsv(r, g, b) == RawHsv(r, g, b)
  {
  }

  /** The converter's tests: the preset `RGB24` colours. */
  lemma RgbToHsv24Presets()
    ensures RgbToHsv24(WHITE24) == ModelsHsv.WHITE && RgbToHsv24(BLACK24) == ModelsHsv.BLACK
    ensures RgbToHsv24(RED24) == ModelsHsv.RED && RgbToHsv24(GREEN24) == ModelsHsv.GREEN
    ensures RgbToHsv24(BLUE24) == ModelsHsv.BLUE
  {
    RawHsvPresets();
    RgbToHsvOfRaw(1.0, 1.0, 1.0);
    RgbToHsvOfRaw(0.0, 0.0, 0.0);
    RgbToHsvOfRaw(1.0, 0.0, 0.0);
    RgbToHsvOfRaw(0.0, 1.0, 0.0);
    RgbToHsvOfRaw(0.0, 0.0, 1.0);
  }

  /** The converter's tests: the preset `RGB48` colours. */
  lemma RgbToHsv48Presets()
    ensures RgbToHsv48(WHITE48) == ModelsHsv.WHITE && RgbToHsv48(BLACK48) == ModelsHsv.BLACK
    ensures RgbToHsv48(RED48) == ModelsHsv.RED && RgbToHsv48(GREEN48) == ModelsHsv.GREEN
    ensures RgbToHsv48(BLUE48) == ModelsHsv.BLUE
  {
    RawHsvPresets();
    RgbToHsvOfRaw(1.0, 1.0, 1.0);
    RgbToHsvOfRaw(0.0, 0.0, 0.0);
    RgbToHsvOfRaw(1.0, 0.0, 0.0);
    RgbToHsvOfRaw(0.0, 1.0, 0.0);
    RgbToHsvOfRaw(0.0, 0.0, 1.0);
  }

  /** `a` is the chroma, the second component or zero. */
  predicate OneOf<T(==)>(a: T, chroma: T, x: T, zero: T) { a == chroma || a == x || a == zero }

  /**
   * `calc_hsv` on doubles: the sector `h` in `[0, 6]` places the chroma, the
   * second component `x` and zero, with upper-inclusive sectors `[0, 1]`,
   * `(1, 2]`, ..., `(5, 6]`. NaN, the infinities and anything else outside
   * `[0, 6]` give three zeros.
   */
  function CalcHsvDoubles(h: F64, chroma: F64, x: F64): (t: (F64, F64, F64))
    ensures !(h.Fin? && 0.0 <= h.v <= 6.0) ==> t == (Fin(0.0), Fin(0.0), Fin(0.0))
    ensures OneOf(t.0, chroma, x, Fin(0.0)) && OneOf(t.1, chroma, x, Fin(0.0)) && OneOf(t.2, chroma, x, Fin(0.0))
    ensures h.Fin? && 0.0 <= h.v <= 6.0 ==>
      (t.0 == chroma || t.1 == chroma || t.2 == chroma) && (t.0 == x || t.1 == x || t.2 == x)
    // the channel that leads in each pair of sectors
    ensures h.Fin? && (0.0 <= h.v <= 1.0 || 5.0 < h.v <= 6.0) ==> t.0 == chroma
    ensures h.Fin? && 1.0 < h.v <= 3.0 ==> t.1 == chroma
    ensures h.Fin? && 3.0 < h.v <= 5.0 ==> t.2 == chroma
    // the channel that stays dark
    ensures h.Fin? && 0.0 <= h.v <= 2.0 ==> t.2 == Fin(0.0)
    ensures h.Fin? && 2.0 < h.v <= 4.0 ==> t.0 == Fin(0.0)
    ensures h.Fin? && 4.0 < h.v <= 6.0 ==> t.1 == Fin(0.0)
    // the second component fills the remaining channel
    ensures h.Fin? && 0.0 <= h.v <= 1.0 ==> t.1 == x
    ensures h.Fin? && 1.0 < h.v <= 2.0 ==> t.0 == x
    ensures h.Fin? && 2.0 < h.v <= 3.0 ==> t.2 == x
    ensures h.Fin? && 3.0 < h.v <= 4.0 ==> t.1 == x
    ensures h.Fin? && 4.0 < h.v <= 5.0 ==> t.0 == x
    ensures h.Fin? && 5.0 < h.v <= 6.0 ==> t.2 == x
  {
    if h.NaN? then (Fin(0.0), Fin(0.0), Fin(0.0))
    else if Le(Fin(0.0), h) && Le(h, Fin(1.0)) then (chroma, x, Fin(0.0))
    else if Lt(Fin(1.0), h) && Le(h, Fin(2.0)) then (x, chroma, Fin(0.0))
    else if Lt(Fin(2.0), h) && Le(h, Fin(3.0)) then (Fin(0.0), chroma, x)
    else if Lt(Fin(3.0), h) && Le(h, Fin(4.0)) then (Fin(0.0), x, chroma)
    else if Lt(Fin(4.0), h) && Le(h, Fin(5.0)) then (x, Fin(0.0), chroma)
    else if Lt(Fin(5.0), h) && Le(h, Fin(6.0)) then (chroma, Fin(0.0), x)
    else (Fin(0.0), Fin(0.0), Fin(0.0))
  }

  /**
   * `calc_hsv` with a finite chroma and second component: the result is
   * finite too, and with `0 <= x <= chroma` the chroma is the largest
   * component and zero the smallest.
   */
  function CalcHsv(h: F64, chroma: real, x: real): (t: (real, real, real))
    ensures CalcHsvDoubles(h, Fin(chroma), Fin(x)) == (Fin(t.0), Fin(t.1), Fin(t.2))
    ensures !(h.Fin? && 0.0 <= h.v <= 6.0) ==> t == (0.0, 0.0, 0.0)
    ensures h.Fin? && 0.0 <= h.v <= 6.0 && 0.0 <= x <= chroma ==>
      Max3(t.0, t.1, t.2) == chroma && Min3(t.0, t.1, t.2) == 0.0
    ensures h.Fin? && 0.0 <= h.v <= 6.0 ==> (t.0 == x || t.1 == x || t.2 == x)
  {
    var d := CalcHsvDoubles(h, Fin(chroma), Fin(x));
    (d.0.v, d.1.v, d.2.v)
  }

  /** Which sector each boundary falls into, and the out-of-range cases. */
  lemma CalcHsvBoundaries(c: F64, x: F64)
    ensures CalcHsvDoubles(Fin(0.0), c, x) == (c, x, Fin(0.0)) && CalcHsvDoubles(Fin(1.0), c, x) == (c, x, Fin(0.0))
    ensures CalcHsvDoubles(Fin(2.0), c, x) == (x, c, Fin(0.0)) && CalcHsvDoubles(Fin(3.0), c, x) == (Fin(0.0), c, x)
    ensures CalcHsvDoubles(Fin(4.0), c, x) == (Fin(0.0), x, c) && CalcHsvDoubles(Fin(5.0), c, x) == (x, Fin(0.0), c)
    ensures CalcHsvDoubles(Fin(6.0), c, x) == (c, Fin(0.0), x) && CalcHsvDoubles(Fin(5.5), c, x) == (c, Fin(0.0), x)
    ensures CalcHsvDoubles(Fin(-0.5), c, x) == (Fin(0.0), Fin(0.0), Fin(0.0))
    ensures CalcHsvDoubles(Fin(6.5), c, x) == (Fin(0.0), Fin(0.0), Fin(0.0))
    ensures CalcHsvDoubles(NaN, c, x) == (Fin(0.0), Fin(0.0), Fin(0.0))
    ensures CalcHsvDoubles(PosInf, c, x) == (Fin(0.0), Fin(0.0), Fin(0.0))
  {
  }

  /** The second-largest component: the chroma scaled by the distance of `h` to the nearest odd sector edge. */
  function SecondComponent(chroma: real, h: real): (x: real)
    ensures h >= 0.0 && chroma >= 0.0 ==> 0.0 <= x <= chroma
  {
    var m := FMod(h, 2.0);
    ScaledBelow(chroma, 1.0 - Abs(m - 1.0));
    chroma * (1.0 - Abs(m - 1.0))
  }

  /** A non-negative `c` scaled by a fraction `k` stays in `[0, c]`. */
  lemma ScaledBelow(c: real, k: real)
    ensures c >= 0.0 && 0.0 <= k <= 1.0 ==> 0.0 <= c * k <= c
  {
    if c >= 0.0 && 0.0 <= k <= 1.0 {
      MulNonNegative(c, k);
      MulNonNegative(c, 1.0 - k);
    }
  }

  /**
   * The second component on doubles, `chroma * (1 - |h % 2 - 1|)`: on finite
   * operands `SecondComponent`; NaN when `h` is NaN or infinite.
   */
  function SecondComponentDoubles(chroma: F64, h: F64): (x: F64)
    ensures chroma.Fin? && h.Fin? ==> x == Fin(SecondComponent(chroma.v, h.v))
    ensures !h.Fin? ==> x.NaN?
  {
    Mul(chroma, Sub(Fin(1.0), AbsF(Sub(Rem(h, 2.0), Fin(1.0)))))
  }

  /** The chroma `v * s`: the spread between the largest and the smallest fraction. */
  function Chroma(t: HsvTuple): (c: real)
    ensures 0.0 <= t.s <= 1.0 && 0.0 <= t.v ==> 0.0 <= c <= t.v
  {
    ScaledBelow(t.v, t.s);
    t.v * t.s
  }

  /** `hsv_to_rgb` up to the call of `from_rgb_f64`, on finite channels: the three fractions. */
  function HsvToRgbFractions(t: HsvTuple): (f: (real, real, real))
  {
    var c := Chroma(t);
    var h := t.h / 60.0;
    Lift(CalcHsv(Fin(h), c, SecondComponent(c, h)), t.v - c)
  }

  /**
   * With saturation and value non-negative, every fraction of `hsv_to_rgb`
   * lies between `v - chroma` and `v`; for a hue in `[0, 360)` the fractions
   * reach both ends.
   */
  lemma HsvToRgbBounds(t: HsvTuple)
    requires 0.0 <= t.s && 0.0 <= t.v
    ensures var f := HsvToRgbFractions(t);
      t.v - Chroma(t) <= f.0 <= t.v && t.v - Chroma(t) <= f.1 <= t.v && t.v - Chroma(t) <= f.2 <= t.v
    ensures var f := HsvToRgbFractions(t);
      0.0 <= t.h < 360.0 ==> Max3(f.0, f.1, f.2) == t.v && Min3(f.0, f.1, f.2) == t.v - Chroma(t)
  {
    MulNonNegative(t.v, t.s);
    var h := t.h / 60.0;
    var x := SecondComponent(Chroma(t), h);
    if 0.0 <= t.h {
      assert 0.0 <= x <= Chroma(t);
    }
  }

  lemma NonNegativeProduct(a: real, b: real)
    ensures a >= 0.0 && b >= 0.0 ==> a * b >= 0.0
  {
    if a >= 0.0 && b >= 0.0 {
      MulNonNegative(a, b);
    }
  }

  /**
   * `hsv_to_rgb::<RGB24, u8>` on finite channels: the fractions rounded onto
   * bytes by `to_u8_repr`. With non-negative saturation and value every channel
   * lies between the rounded `v - chroma` and the rounded `v`; for a hue in
   * `[0, 360)` both are reached.
   */
  function HsvToRgb24(t: HsvTuple): (c: Rgb8)
    ensures 0.0 <= t.s && 0.0 <= t.v ==>
      var hi, lo := NumberUtils.ToU8Repr(Fin(t.v)), NumberUtils.ToU8Repr(Fin(t.v - Chroma(t)));
      lo <= c.r <= hi && lo <= c.g <= hi && lo <= c.b <= hi
    ensures 0.0 <= t.s && 0.0 <= t.v && 0.0 <= t.h < 360.0 ==>
      var hi, lo := NumberUtils.ToU8Repr(Fin(t.v)), NumberUtils.ToU8Repr(Fin(t.v - Chroma(t)));
      (c.r == hi || c.g == hi || c.b == hi) && (c.r == lo || c.g == lo || c.b == lo)
  {
    var f := HsvToRgbFractions(t);
    RoundedBounds(t);
    Rgb8(NumberUtils.ToU8Repr(Fin(f.0)), NumberUtils.ToU8Repr(Fin(f.1)), NumberUtils.ToU8Repr(Fin(f.2)))
  }

  /** `hsv_to_rgb::<RGB48, u16>` on finite channels: the fractions rounded onto 16 bits by `to_u16_repr`. */
  function HsvToRgb48(t: HsvTuple): (c: Rgb16)
    ensures 0.0 <= t.s && 0.0 <= t.v ==>
      var hi, lo := NumberUtils.ToU16Repr(Fin(t.v)), NumberUtils.ToU16Repr(Fin(t.v - Chroma(t)));
      lo <= c.r <= hi && lo <= c.g <= hi && lo <= c.b <= hi
    ensures 0.0 <= t.s && 0.0 <= t.v && 0.0 <= t.h < 360.0 ==>
      var hi, lo := NumberUtils.ToU16Repr(Fin(t.v)), NumberUtils.ToU16Repr(Fin(t.v - Chroma(t)));
      (c.r == hi || c.g == hi || c.b == hi) && (c.r == lo || c.g == lo || c.b == lo)
  {
    var f := HsvToRgbFractions(t);
    RoundedBounds(t);
    Rgb16(NumberUtils.ToU16Repr(Fin(f.0)), NumberUtils.ToU16Repr(Fin(f.1)), NumberUtils.ToU16Repr(Fin(f.2)))
  }

  /** The bounds of `HsvToRgb24` and `HsvToRgb48`, on the rounded fractions. */
  lemma RoundedBounds(t: HsvTuple)
    ensures var f, lo, hi := HsvToRgbFractions(t), t.v - Chroma(t), t.v;
      0.0 <= t.s && 0.0 <= t.v ==>
      (lo <= f.0 <= hi && lo <= f.1 <= hi && lo <= f.2 <= hi)
      && (0.0 <= t.h < 360.0 ==> Max3(f.0, f.1, f.2) == hi && Min3(f.0, f.1, f.2) == lo)
    ensures var f, l, h := HsvToRgbFractions(t), NumberUtils.ToU8Repr(Fin(t.v - Chroma(t))), NumberUtils.ToU8Repr(Fin(t.v));
      var r, g, b := NumberUtils.ToU8Repr(Fin(f.0)), NumberUtils.ToU8Repr(Fin(f.1)), NumberUtils.ToU8Repr(Fin(f.2));
      0.0 <= t.s && 0.0 <= t.v ==>
      (l <= r <= h && l <= g <= h && l <= b <= h)
      && (0.0 <= t.h < 360.0 ==> (r == h || g == h || b == h) && (r == l || g == l || b == l))
    ensures var f, l, h := HsvToRgbFractions(t), NumberUtils.ToU16Repr(Fin(t.v - Chroma(t))), NumberUtils.ToU16Repr(Fin(t.v));
      var r, g, b := NumberUtils.ToU16Repr(Fin(f.0)), NumberUtils.ToU16Repr(Fin(f.1)), NumberUtils.ToU16Repr(Fin(f.2));
      0.0 <= t.s && 0.0 <= t.v ==>
      (l <= r <= h && l <= g <= h && l <= b <= h)
      && (0.0 <= t.h < 360.0 ==> (r == h || g == h || b == h) && (r == l || g == l || b == l))
  {
    if 0.0 <= t.s && 0.0 <= t.v {
      var f := HsvToRgbFractions(t);
      HsvToRgbBounds(t);
      ChannelsBetween(f, t.v - Chroma(t), t.v);
      ChannelsReach(f, t.v - Chroma(t), t.v);
    }
  }

  /** When the fractions reach both ends of their range, so do the rounded channels. */
  lemma ChannelsReach(f: (real, real, real), lo: real, hi: real)
    ensures Max3(f.0, f.1, f.2) == hi && Min3(f.0, f.1, f.2) == lo ==>
      var l, h := NumberUtils.ToU8Repr(Fin(lo)), NumberUtils.ToU8Repr(Fin(hi));
      var r, g, b := NumberUtils.ToU8Repr(Fin(f.0)), NumberUtils.ToU8Repr(Fin(f.1)), NumberUtils.ToU8Repr(Fin(f.2));
      (r == h || g == h || b == h) && (r == l || g == l || b == l)
    ensures Max3(f.0, f.1, f.2) == hi && Min3(f.0, f.1, f.2) == lo ==>
      var l, h := NumberUtils.ToU16Repr(Fin(lo)), NumberUtils.ToU16Repr(Fin(hi));
      var r, g, b := NumberUtils.ToU16Repr(Fin(f.0)), NumberUtils.ToU16Repr(Fin(f.1)), NumberUtils.ToU16Repr(Fin(f.2));
      (r == h || g == h || b == h) && (r == l || g == l || b == l)
  {
  }

  /** Rounding keeps three fractions between the rounded ends of their range. */
  lemma ChannelsBetween(f: (real, real, real), lo: real, hi: real)
    requires lo <= f.0 <= hi && lo <= f.1 <= hi && lo <= f.2 <= hi
    ensures var l, h := NumberUtils.ToU8Repr(Fin(lo)), NumberUtils.ToU8Repr(Fin(hi));
      l <= NumberUtils.ToU8Repr(Fin(f.0)) <= h && l <= NumberUtils.ToU8Repr(Fin(f.1)) <= h
      && l <= NumberUtils.ToU8Repr(Fin(f.2)) <= h
    ensures var l, h := NumberUtils.ToU16Repr(Fin(lo)), NumberUtils.ToU16Repr(Fin(hi));
      l <= NumberUtils.ToU16Repr(Fin(f.0)) <= h && l <= NumberUtils.ToU16Repr(Fin(f.1)) <= h
      && l <= NumberUtils.ToU16Repr(Fin(f.2)) <= h
  {
    NumberUtils.ReprMonotone(lo, f.0);
    NumberUtils.ReprMonotone(lo, f.1);
    NumberUtils.ReprMonotone(lo, f.2);
    NumberUtils.ReprMonotone(f.0, hi);
    NumberUtils.ReprMonotone(f.1, hi);
    NumberUtils.ReprMonotone(f.2, hi);
  }

  /**
   * `hsv_to_rgb` up to the call of `from_rgb_f64`, on the three doubles an
   * `HSV` stores, which its setters leave unchecked; the three lemmas below
   * say what it gives for finite channels, for a NaN or infinite hue, and for
   * a NaN saturation or value.
   */
  function HsvToRgbDoubles(hsv: HsvF64): (F64, F64, F64) {
    var chroma := Mul(hsv.v, hsv.s);
    var h := MulBy(hsv.h, 1.0 / 60.0);
    var rgb := CalcHsvDoubles(h, chroma, SecondComponentDoubles(chroma, h));
    Offset(rgb, Sub(hsv.v, chroma))
  }

  /** The offset `m` added to each fraction, as `hsv_to_rgb` does last. */
  function Offset(rgb: (F64, F64, F64), m: F64): (F64, F64, F64) {
    (Add(rgb.0, m), Add(rgb.1, m), Add(rgb.2, m))
  }

  /** Three finite doubles. */
  function Fins(f: (real, real, real)): (F64, F64, F64) {
    (Fin(f.0), Fin(f.1), Fin(f.2))
  }

  /** The offset `m` added to each of three reals. */
  function Lift(f: (real, real, real), m: real): (real, real, real) {
    (f.0 + m, f.1 + m, f.2 + m)
  }

  lemma OffsetFinite(f: (real, real, real), m: real)
    ensures Offset(Fins(f), Fin(m)) == Fins(Lift(f, m))
  {
  }

  lemma OffsetOfLift(f: (real, real, real), m: real, g: (real, real, real))
    requires g == Lift(f, m)
    ensures Offset(Fins(f), Fin(m)) == Fins(g)
  {
    OffsetFinite(f, m);
  }

  lemma DoublesUnfold(hsv: HsvF64)
    ensures var chroma, h := Mul(hsv.v, hsv.s), MulBy(hsv.h, 1.0 / 60.0);
      HsvToRgbDoubles(hsv) == Offset(CalcHsvDoubles(h, chroma, SecondComponentDoubles(chroma, h)), Sub(hsv.v, chroma))
  {
  }

  lemma FractionsUnfold(t: HsvTuple)
    ensures var c, h := Chroma(t), t.h / 60.0;
      HsvToRgbFractions(t) == Lift(CalcHsv(Fin(h), c, SecondComponent(c, h)), t.v - c)
  {
  }

  /** Finite channels give, step by step, the fractions of `HsvToRgbFractions`. */
  lemma HsvToRgbDoublesFinite(t: HsvTuple)
    ensures var g := HsvToRgbFractions(t); HsvToRgbDoubles(Doubles(t)) == (Fin(g.0), Fin(g.1), Fin(g.2))
  {
    DoublesOfFinite(t);
    OffsetOfFinite(t);
  }

  lemma DoublesOfFinite(t: HsvTuple)
    ensures var c := Chroma(t);
      HsvToRgbDoubles(Doubles(t)) == Offset(Fins(CalcHsv(Fin(t.h / 60.0), c, SecondComponent(c, t.h / 60.0))), Fin(t.v - c))
  {
    DoublesUnfold(Doubles(t));
    FiniteSteps(t);
  }

  lemma FiniteSteps(t: HsvTuple)
    ensures var d, c := Doubles(t), Chroma(t); var chroma, hh := Mul(d.v, d.s), MulBy(d.h, 1.0 / 60.0);
      chroma == Fin(c) && hh == Fin(t.h / 60.0)
      && SecondComponentDoubles(chroma, hh) == Fin(SecondComponent(c, t.h / 60.0))
      && Sub(d.v, chroma) == Fin(t.v - c)
  {
  }

  lemma OffsetOfFinite(t: HsvTuple)
    ensures var c := Chroma(t);
      Offset(Fins(CalcHsv(Fin(t.h / 60.0), c, SecondComponent(c, t.h / 60.0))), Fin(t.v - c)) == Fins(HsvToRgbFractions(t))
  {
    FractionsUnfold(t);
    var c := Chroma(t);
    OffsetOfLift(CalcHsv(Fin(t.h / 60.0), c, SecondComponent(c, t.h / 60.0)), t.v - c, HsvToRgbFractions(t));
  }

  /**
   * A NaN or infinite hue makes the second component NaN and misses every
   * sector of `calc_hsv`, so all three fractions are the offset `v - chroma`:
   * a grey.
   */
  lemma HsvToRgbDoublesHueNotFinite(hsv: HsvF64)
    requires !hsv.h.Fin? && hsv.s.Fin? && hsv.v.Fin?
    ensures var m := Fin(hsv.v.v - hsv.v.v * hsv.s.v); HsvToRgbDoubles(hsv) == (m, m, m)
  {
    var chroma := Mul(hsv.v, hsv.s);
    var h := MulBy(hsv.h, 1.0 / 60.0);
    assert !h.Fin?;
    assert CalcHsvDoubles(h, chroma, SecondComponentDoubles(chroma, h)) == (Fin(0.0), Fin(0.0), Fin(0.0));
    assert Sub(hsv.v, chroma) == Fin(hsv.v.v - hsv.v.v * hsv.s.v);
  }

  /** A NaN saturation or value makes the chroma, the offset and so every fraction NaN. */
  lemma HsvToRgbDoublesNaN(hsv: HsvF64)
    requires hsv.s.NaN? || hsv.v.NaN?
    ensures var f := HsvToRgbDoubles(hsv); f.0.NaN? && f.1.NaN? && f.2.NaN?
  {
    assert Sub(hsv.v, Mul(hsv.v, hsv.s)).NaN?;
  }

  /** `HsvToRgb24` rounds the fractions of `HsvToRgbFractions`. */
  lemma Rounded24(t: HsvTuple)
    ensures var f := HsvToRgbFractions(t);
      HsvToRgb24(t) == Rgb8(NumberUtils.ToU8Repr(Fin(f.0)), NumberUtils.ToU8Repr(Fin(f.1)), NumberUtils.ToU8Repr(Fin(f.2)))
  {
  }

  /** `HsvToRgb48` rounds the fractions of `HsvToRgbFractions`. */
  lemma Rounded48(t: HsvTuple)
    ensures var f := HsvToRgbFractions(t);
      HsvToRgb48(t) == Rgb16(NumberUtils.ToU16Repr(Fin(f.0)), NumberUtils.ToU16Repr(Fin(f.1)), NumberUtils.ToU16Repr(Fin(f.2)))
  {
  }

  /**
   * `HSV::to_rgb24`, that is `hsv_to_rgb::<RGB24, u8>` on any stored doubles:
   * finite channels as `HsvToRgb24`; a NaN or infinite hue gives the grey of
   * the rounded `v - v * s`; a NaN saturation or value gives black.
   */
  function HsvToRgb24Doubles(hsv: HsvF64): (c: Rgb8)
    ensures hsv.h.Fin? && hsv.s.Fin? && hsv.v.Fin? ==> c == HsvToRgb24(HsvTuple(hsv.h.v, hsv.s.v, hsv.v.v))
    ensures !hsv.h.Fin? && hsv.s.Fin? && hsv.v.Fin? ==>
      var m := NumberUtils.ToU8Repr(Fin(hsv.v.v - hsv.v.v * hsv.s.v)); c == Rgb8(m, m, m)
    ensures hsv.s.NaN? || hsv.v.NaN? ==> c == BLACK24
  {
    var f := HsvToRgbDoubles(hsv);
    var c := Rgb8(NumberUtils.ToU8Repr(f.0), NumberUtils.ToU8Repr(f.1), NumberUtils.ToU8Repr(f.2));
    if hsv.h.Fin? && hsv.s.Fin? && hsv.v.Fin? then
      var t := HsvTuple(hsv.h.v, hsv.s.v, hsv.v.v);
      assert hsv == Doubles(t);
      HsvToRgbDoublesFinite(t);
      Rounded24(t);
      c
    else if hsv.s.Fin? && hsv.v.Fin? then
      HsvToRgbDoublesHueNotFinite(hsv);
      c
    else if hsv.s.NaN? || hsv.v.NaN? then
      HsvToRgbDoublesNaN(hsv);
      c
    else c
  }

  /** `HSV::to_rgb48`, that is `hsv_to_rgb::<RGB48, u16>` on any stored doubles. */
  function HsvToRgb48Doubles(hsv: HsvF64): (c: Rgb16)
    ensures hsv.h.Fin? && hsv.s.Fin? && hsv.v.Fin? ==> c == HsvToRgb48(HsvTuple(hsv.h.v, hsv.s.v, hsv.v.v))
    ensures !hsv.h.Fin? && hsv.s.Fin? && hsv.v.Fin? ==>
      var m := NumberUtils.ToU16Repr(Fin(hsv.v.v - hsv.v.v * hsv.s.v)); c == Rgb16(m, m, m)
    ensures hsv.s.NaN? || hsv.v.NaN? ==> c == BLACK48
  {
    var f := HsvToRgbDoubles(hsv);
    var c := Rgb16(NumberUtils.ToU16Repr(f.0), NumberUtils.ToU16Repr(f.1), NumberUtils.ToU16Repr(f.2));
    if hsv.h.Fin? && hsv.s.Fin? && hsv.v.Fin? then
      var t := HsvTuple(hsv.h.v, hsv.s.v, hsv.v.v);
      assert hsv == Doubles(t);
      HsvToRgbDoublesFinite(t);
      Rounded48(t);
      c
    else if hsv.s.Fin? && hsv.v.Fin? then
      HsvToRgbDoublesHueNotFinite(hsv);
      c
    else if hsv.s.NaN? || hsv.v.NaN? then
      HsvToRgbDoublesNaN(hsv);
      c
    else c
  }

  /** At hue `120 * k` the chroma lands on channel `k`, the other two stay at `v - chroma`. */
  lemma EdgeFractions(h: real, s: real, v: real, k: int)
    requires 0 <= k <= 2 && h == 120.0 * k as real
    ensures var f := HsvToRgbFractions(HsvTuple(h, s, v));
      f.0 == (if k == 0 then v else v - v * s) &&
      f.1 == (if k == 1 then v else v - v * s) &&
      f.2 == (if k == 2 then v else v - v * s)
  {
    var t := HsvTuple(h, s, v);
    var c := Chroma(t);
    var hh := h / 60.0;
    assert hh == 2.0 * k as real;
    FModIs(hh, 2.0, k);
    var x := SecondComponent(c, hh);
    assert x == 0.0;
    var rgb := CalcHsv(Fin(hh), c, x);
    assert HsvToRgbFractions(t) == (rgb.0 + (v - c), rgb.1 + (v - c), rgb.2 + (v - c));
    if k == 0 {
      assert rgb == (c, 0.0, 0.0);
    } else if k == 1 {
      assert rgb == (0.0, c, 0.0);
    } else {
      assert rgb == (0.0, 0.0, c);
    }
  }

  /** A grey (saturation 0) at hue 0 has every fraction equal to its value. */
  lemma GreyFractions(h: real, s: real, v: real)
    requires h == 0.0 && s == 0.0
    ensures HsvToRgbFractions(HsvTuple(h, s, v)) == (v, v, v)
  {
    var f := HsvToRgbFractions(HsvTuple(h, s, v));
    assert f.0 == v && f.1 == v && f.2 == v by {
      EdgeFractions(h, s, v, 0);
    }
  }

  /** The two ends of the unit interval round to the two ends of either channel range. */
  lemma UnitChannels(a: real)
    requires a == 0.0 || a == 1.0
    ensures NumberUtils.ToU8Repr(Fin(a)) == (if a == 1.0 then 255 else 0)
    ensures NumberUtils.ToU16Repr(Fin(a)) == (if a == 1.0 then 65535 else 0)
  {
  }

  /** A grey at hue 0: every channel is the value rounded onto the channel range. */
  lemma GreyChannels(t: HsvTuple)
    requires t.h == 0.0 && t.s == 0.0
    ensures var b := NumberUtils.ToU8Repr(Fin(t.v)); HsvToRgb24(t) == Rgb8(b, b, b)
    ensures var w := NumberUtils.ToU16Repr(Fin(t.v)); HsvToRgb48(t) == Rgb16(w, w, w)
  {
    assert HsvToRgbFractions(t) == (t.v, t.v, t.v) by {
      GreyFractions(t.h, t.s, t.v);
    }
  }

  /** At hue `120 * k` with full saturation, channel `k` is the value rounded and the others are 0. */
  lemma PrimaryChannels(t: HsvTuple, k: int)
    requires 0 <= k <= 2 && t.h == 120.0 * k as real && t.s == 1.0
    ensures var b := NumberUtils.ToU8Repr(Fin(t.v));
      HsvToRgb24(t) == Rgb8(if k == 0 then b else 0, if k == 1 then b else 0, if k == 2 then b else 0)
    ensures var w := NumberUtils.ToU16Repr(Fin(t.v));
      HsvToRgb48(t) == Rgb16(if k == 0 then w else 0, if k == 1 then w else 0, if k == 2 then w else 0)
  {
    var v := t.v;
    assert HsvToRgbFractions(t) ==
        (if k == 0 then v else 0.0, if k == 1 then v else 0.0, if k == 2 then v else 0.0) by {
      EdgeFractions(t.h, t.s, t.v, k);
    }
    UnitChannels(0.0);
  }

  /** The converter's test: HSV white gives `RGB24` and `RGB48` white. */
  lemma HsvToRgbWhitePreset()
    ensures HsvToRgb24(ModelsHsv.WHITE) == WHITE24 && HsvToRgb48(ModelsHsv.WHITE) == WHITE48
  {
    UnitChannels(1.0);
    GreyChannels(ModelsHsv.WHITE);
  }

  /** Value 0 gives black whatever the hue and saturation: the chroma and the offset both vanish. */
  lemma ZeroValueFractions(t: HsvTuple)
    requires t.v == 0.0
    ensures HsvToRgbFractions(t) == (0.0, 0.0, 0.0)
  {
    var c := Chroma(t);
    assert c == 0.0;
    var h := t.h / 60.0;
    var x := SecondComponent(c, h);
    assert x == 0.0;
    var rgb := CalcHsv(Fin(h), c, x);
    assert rgb == (0.0, 0.0, 0.0);
  }

  /** The converter's test: HSV black gives `RGB24` and `RGB48` black; so does any value-0 tuple. */
  lemma HsvToRgbBlack(t: HsvTuple)
    requires t.v == 0.0
    ensures HsvToRgb24(t) == BLACK24 && HsvToRgb48(t) == BLACK48
  {
    assert HsvToRgbFractions(t) == (0.0, 0.0, 0.0) by {
      ZeroValueFractions(t);
    }
    UnitChannels(0.0);
  }

  /** The converter's test: the HSV black preset gives `RGB24` and `RGB48` black. */
  lemma HsvToRgbBlackPreset()
    ensures HsvToRgb24(ModelsHsv.BLACK) == BLACK24 && HsvToRgb48(ModelsHsv.BLACK) == BLACK48
  {
    HsvToRgbBlack(ModelsHsv.BLACK);
  }

  /** The converter's tests: HSV red, green and blue give the `RGB24` and `RGB48` primaries. */
  lemma HsvToRgbPrimaryPresets()
    ensures HsvToRgb24(ModelsHsv.RED) == RED24 && HsvToRgb48(ModelsHsv.RED) == RED48
    ensures HsvToRgb24(ModelsHsv.GREEN) == GREEN24 && HsvToRgb48(ModelsHsv.GREEN) == GREEN48
    ensures HsvToRgb24(ModelsHsv.BLUE) == BLUE24 && HsvToRgb48(ModelsHsv.BLUE) == BLUE48
  {
    UnitChannels(1.0);
    PrimaryChannels(ModelsHsv.RED, 0);
    PrimaryChannels(ModelsHsv.GREEN, 1);
    PrimaryChannels(ModelsHsv.BLUE, 2);
  }

  /** Hue 330 at full saturation lies in the last sector, halfway: red is the value, blue half of it. */
  lemma SectorFiveFractions(t: HsvTuple)
    requires t.h == 330.0 && t.s == 1.0
    ensures HsvToRgbFractions(t) == (t.v, 0.0, t.v / 2.0)
  {
    var c := Chroma(t);
    assert c == t.v;
    FModIs(5.5, 2.0, 2);
    var x := SecondComponent(c, t.h / 60.0);
    assert x == t.v / 2.0;
    assert CalcHsv(Fin(5.5), c, x) == (c, 0.0, x);
  }

  /** Hue 330 at full saturation: red is the value rounded, green 0, blue half the value rounded. */
  lemma SectorFiveChannels(t: HsvTuple)
    requires t.h == 330.0 && t.s == 1.0
    ensures HsvToRgb24(t) == Rgb8(NumberUtils.ToU8Repr(Fin(t.v)), 0, NumberUtils.ToU8Repr(Fin(t.v / 2.0)))
  {
    SectorFiveFractions(t);
    UnitChannels(0.0);
  }

  /** Half of 255 is 127.5, which `round` takes up to 128. */
  lemma HalfRoundsUp()
    ensures NumberUtils.ToU8Repr(Fin(0.5)) == 128
  {
    FloorIs(0.5 * 255.0 + 0.5, 128);
  }

  /** The converter's test `(330, 1, 1)` -> `(255, 0, 128)`: 0.5 of 255 rounds up to 128. */
  lemma HsvToRgbMagenta(t: HsvTuple)
    requires t.h == 330.0 && t.s == 1.0 && t.v == 1.0
    ensures HsvToRgb24(t) == Rgb8(255, 0, 128)
  {
    SectorFiveChannels(t);
    UnitChannels(1.0);
    HalfRoundsUp();
  }

  /** The hue of that test is accepted by `from_hsv` unchanged. */
  lemma MagentaAccepted()
    ensures ModelsHsv.FromHsv(Fin(330.0), Fin(1.0), Fin(1.0)) == Ok(HsvTuple(330.0, 1.0, 1.0))
  {
    RemEuclidIs(330.0, 360.0, 0);
  }

  /** `rgb24_to_rgb48`: each channel times 257, which keeps its fraction and fits 16 bits. */
  function Rgb24ToRgb48(c: Rgb8): (d: Rgb16)
    ensures Fractions16(d) == Fractions8(c)
  {
    Rgb16(c.r * 257, c.g * 257, c.b * 257)
  }

  /** `rgb48_to_rgb24`: each channel divided by 257, rounding down. */
  function Rgb48ToRgb24(c: Rgb16): (d: Rgb8)
    ensures d.r * 257 <= c.r < (d.r + 1) * 257
    ensures d.g * 257 <= c.g < (d.g + 1) * 257
    ensures d.b * 257 <= c.b < (d.b + 1) * 257
  {
    Rgb8(c.r / 257, c.g / 257, c.b / 257)
  }

  /** Down-scaling undoes up-scaling. */
  lemma Rgb48ToRgb24OfRgb24ToRgb48(c: Rgb8)
    ensures Rgb48ToRgb24(Rgb24ToRgb48(c)) == c
  {
    var d := Rgb48ToRgb24(Rgb24ToRgb48(c));
    Below257(d.r, c.r);
    Below257(d.g, c.g);
    Below257(d.b, c.b);
  }

  lemma Below257(a: nat, b: nat)
    requires a * 257 <= b * 257 < (a + 1) * 257
    ensures a == b
  {
  }

  /** Up-scaling a down-scaled colour never brightens a channel: at most `c`, by less than 257. */
  lemma Rgb24ToRgb48OfRgb48ToRgb24(c: Rgb16)
    ensures var d := Rgb24ToRgb48(Rgb48ToRgb24(c));
      d.r <= c.r < d.r + 257 && d.g <= c.g < d.g + 257 && d.b <= c.b < d.b + 257
  {
  }

  /** The converter's tests: the presets map onto each other in both directions. */
  lemma RescalePresets()
    ensures Rgb24ToRgb48(WHITE24) == WHITE48 && Rgb24ToRgb48(BLACK24) == BLACK48
    ensures Rgb24ToRgb48(RED24) == RED48 && Rgb24ToRgb48(GREEN24) == GREEN48 && Rgb24ToRgb48(BLUE24) == BLUE48
    ensures Rgb48ToRgb24(WHITE48) == WHITE24 && Rgb48ToRgb24(BLACK48) == BLACK24
    ensures Rgb48ToRgb24(RED48) == RED24 && Rgb48ToRgb24(GREEN48) == GREEN24 && Rgb48ToRgb24(BLUE48) == BLUE24
  {
  }
}
