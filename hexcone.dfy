/**
 * The RGB -> HSV hexcone formula that every RGB type of the library repeats
 * verbatim (`to_hsv` of both `RGBColor` copies, `rgb_to_hsv` of both
 * converters), over channel fractions and before the hue is normalised.
 */
module Hexcone {
  import opened Float64
  import opened Channels

  predicate IsFraction(x: real) { 0.0 <= x <= 1.0 }

  /** `get_max` on finite operands. */
  function Max3(a: real, b: real, c: real): (m: real)
    ensures m >= a && m >= b && m >= c
    ensures m == a || m == b || m == c
  {
    MaxReal(a, MaxReal(b, c))
  }

  /** `get_min` on finite operands. */
  function Min3(a: real, b: real, c: real): (m: real)
    ensures m <= a && m <= b && m <= c
    ensures m == a || m == b || m == c
  {
    MinReal(a, MinReal(b, c))
  }

  /** Which channel picks the hue formula: red on ties with either, then green. */
  predicate RedLeads(r: real, g: real, b: real) { r >= b && r >= g }

  predicate GreenLeads(r: real, g: real, b: real) { !RedLeads(r, g, b) && g >= r && g >= b }

  predicate BlueLeads(r: real, g: real, b: real) { !RedLeads(r, g, b) && !GreenLeads(r, g, b) }

  /**
   * The hue in degrees before any wrapping. Grey has hue 0. Otherwise the
   * leading channel chooses a 120-degree sector around 0 (red), 120 (green) or
   * 240 (blue), and the other two channels place the hue inside it; red's sector
   * is computed with Rust's `%`, which keeps the sign, so it runs from -60 to 60.
   */
  function RawHue(r: real, g: real, b: real): (h: real)
    ensures Max3(r, g, b) == Min3(r, g, b) ==> h == 0.0
    ensures Max3(r, g, b) > Min3(r, g, b) && RedLeads(r, g, b) ==>
      -60.0 <= h <= 60.0 && (h >= 0.0 <==> g >= b)
    ensures Max3(r, g, b) > Min3(r, g, b) && GreenLeads(r, g, b) ==> 60.0 < h <= 180.0
    ensures Max3(r, g, b) > Min3(r, g, b) && BlueLeads(r, g, b) ==> 180.0 < h < 300.0
    ensures -60.0 <= h < 300.0
  {
    var delta := Max3(r, g, b) - Min3(r, g, b);
    if delta == 0.0 then 0.0
    else if r >= b && r >= g then
      RedSector(g - b, delta);
      60.0 * FMod((g - b) / delta, 6.0)
    else if g >= r && g >= b then
      Ratio(b - r, delta);
      60.0 * ((b - r) / delta + 2.0)
    else
      Ratio(r - g, delta);
      60.0 * ((r - g) / delta + 4.0)
  }

  /** Bounds on a difference divided by a positive spread. */
  lemma Ratio(a: real, d: real)
    requires d > 0.0
    ensures a <= d ==> a / d <= 1.0
    ensures a < d ==> a / d < 1.0
    ensures -d <= a ==> -1.0 <= a / d
    ensures -d < a ==> -1.0 < a / d
    ensures a >= 0.0 <==> a / d >= 0.0
  {
    var q := a / d;
    assert q * d == a;
    if a < d {
      assert q * d < 1.0 * d;
    }
  }

  /** In red's sector the remainder leaves the ratio unchanged. */
  lemma RedSector(a: real, d: real)
    requires d > 0.0 && -d <= a <= d
    ensures -60.0 <= 60.0 * FMod(a / d, 6.0) <= 60.0
    ensures 60.0 * FMod(a / d, 6.0) >= 0.0 <==> a >= 0.0
  {
    Ratio(a, d);
    var q := a / d;
    if q >= 0.0 {
      FModIs(q, 6.0, 0);
    } else {
      FModSmallNegative(q, 6.0);
    }
  }

  /**
   * The saturation: the spread over the largest channel, 0 when that is 0.
   * For fractions it is a fraction, and 0 exactly for grey.
   */
  function RawSaturation(r: real, g: real, b: real): (s: real)
    ensures Max3(r, g, b) > 0.0 ==> s * Max3(r, g, b) == Max3(r, g, b) - Min3(r, g, b)
    ensures Max3(r, g, b) <= 0.0 ==> s == 0.0
    ensures r >= 0.0 && g >= 0.0 && b >= 0.0 ==>
      0.0 <= s <= 1.0 && (s == 0.0 <==> r == g == b)
  {
    var cMax := Max3(r, g, b);
    var delta := cMax - Min3(r, g, b);
    if cMax > 0.0 then
      Ratio(delta, cMax);
      delta / cMax
    else 0.0
  }

  /** `(hue, saturation, value)` of three channel fractions; the value is the largest. */
  function RawHsv(r: real, g: real, b: real): (t: HsvTuple)
    ensures t.h == RawHue(r, g, b) && t.s == RawSaturation(r, g, b)
    ensures t.v >= r && t.v >= g && t.v >= b && (t.v == r || t.v == g || t.v == b)
  {
    HsvTuple(RawHue(r, g, b), RawSaturation(r, g, b), Max3(r, g, b))
  }

  /**
   * The hue of channels divided by a common scale `k`, stated on the channels
   * themselves: the leading channel picks the sector.
   */
  lemma ScaledSectors(r: real, g: real, b: real, k: real)
    requires k > 0.0
    ensures var h := RawHue(r / k, g / k, b / k);
      Max3(r, g, b) > Min3(r, g, b) && RedLeads(r, g, b) ==> -60.0 <= h <= 60.0 && (h >= 0.0 <==> g >= b)
    ensures var h := RawHue(r / k, g / k, b / k);
      Max3(r, g, b) > Min3(r, g, b) && GreenLeads(r, g, b) ==> 60.0 < h <= 180.0
    ensures var h := RawHue(r / k, g / k, b / k);
      Max3(r, g, b) > Min3(r, g, b) && BlueLeads(r, g, b) ==> 180.0 < h < 300.0
  {
    ScaledOrder(r, g, b, k);
  }

  /** The value and saturation of an 8-bit colour's fractions, with grey stated on the channels. */
  lemma FractionsHsv(c: Rgb8)
    ensures var t := RawHsv(c.r as real / 255.0, c.g as real / 255.0, c.b as real / 255.0);
      t.v == Max3(c.r as real, c.g as real, c.b as real) / 255.0
      && 0.0 <= t.s <= 1.0 && (t.s == 0.0 <==> c.r == c.g == c.b)
  {
    var r, g, b := c.r as real, c.g as real, c.b as real;
    ScaledOrder(r, g, b, 255.0);
    var r', g', b' := r / 255.0, g / 255.0, b / 255.0;
    assert r' == g' == b' <==> c.r == c.g == c.b;
  }

  /** The hue of an 8-bit colour's fractions: the sector of the leading channel, 0 for grey. */
  lemma FractionsHue(c: Rgb8)
    ensures var r, g, b := c.r as real, c.g as real, c.b as real;
      var t := RawHsv(r / 255.0, g / 255.0, b / 255.0);
      (c.r == c.g == c.b ==> t.h == 0.0)
      && (!(c.r == c.g == c.b) && RedLeads(r, g, b) ==> -60.0 <= t.h <= 60.0 && (t.h >= 0.0 <==> c.g >= c.b))
      && (!(c.r == c.g == c.b) && GreenLeads(r, g, b) ==> 60.0 < t.h <= 180.0)
      && (!(c.r == c.g == c.b) && BlueLeads(r, g, b) ==> 180.0 < t.h < 300.0)
  {
    var r, g, b := c.r as real, c.g as real, c.b as real;
    assert (r == g == b <==> c.r == c.g == c.b) && (g >= b <==> c.g >= c.b);
    ScaledHue(r, g, b, 255.0);
  }

  /** The hue of scaled channels, grey written as three equal channels. */
  lemma ScaledHue(r: real, g: real, b: real, k: real)
    requires k > 0.0
    ensures var h := RawHsv(r / k, g / k, b / k).h;
      (r == g == b ==> h == 0.0)
      && (!(r == g == b) && RedLeads(r, g, b) ==> -60.0 <= h <= 60.0 && (h >= 0.0 <==> g >= b))
      && (!(r == g == b) && GreenLeads(r, g, b) ==> 60.0 < h <= 180.0)
      && (!(r == g == b) && BlueLeads(r, g, b) ==> 180.0 < h < 300.0)
  {
    Spread(r, g, b);
    Spread(r / k, g / k, b / k);
    ScaledOrder(r, g, b, k);
    ScaledSectors(r, g, b, k);
  }

  /** Three reals have a spread exactly when they are not all equal. */
  lemma Spread(r: real, g: real, b: real)
    ensures Max3(r, g, b) > Min3(r, g, b) <==> !(r == g == b)
    ensures Max3(r, g, b) == Min3(r, g, b) <==> r == g == b
  {
  }

  /** Dividing three channels by a positive `k` keeps their order, so it keeps the leader. */
  lemma ScaledOrder(r: real, g: real, b: real, k: real)
    requires k > 0.0
    ensures Max3(r / k, g / k, b / k) * k == Max3(r, g, b)
    ensures Min3(r / k, g / k, b / k) * k == Min3(r, g, b)
    ensures Max3(r / k, g / k, b / k) > Min3(r / k, g / k, b / k) <==> Max3(r, g, b) > Min3(r, g, b)
    ensures RedLeads(r / k, g / k, b / k) <==> RedLeads(r, g, b)
    ensures GreenLeads(r / k, g / k, b / k) <==> GreenLeads(r, g, b)
    ensures g / k >= b / k <==> g >= b
  {
    DivOrder(r, g, k);
    DivOrder(g, b, k);
    DivOrder(r, b, k);
    DivOrder(g, r, k);
    DivOrder(b, g, k);
    DivOrder(b, r, k);
    var r', g', b' := r / k, g / k, b / k;
    assert r' * k == r && g' * k == g && b' * k == b;
  }

  /** Dividing by a positive `k` keeps the order of two reals. */
  lemma DivOrder(x: real, y: real, k: real)
    requires k > 0.0
    ensures x / k >= y / k <==> x >= y
    ensures x / k > y / k <==> x > y
  {
    var x', y' := x / k, y / k;
    assert x == x' * k && y == y' * k;
    if x' >= y' {
      MulNonNegative(x' - y', k);
    } else {
      MulNonNegative(y' - x', k);
    }
  }

  /** The five preset colours: white, black, red, green, blue. */
  lemma RawHsvPresets()
    ensures RawHsv(1.0, 1.0, 1.0) == HsvTuple(0.0, 0.0, 1.0)
    ensures RawHsv(0.0, 0.0, 0.0) == HsvTuple(0.0, 0.0, 0.0)
    ensures RawHsv(1.0, 0.0, 0.0) == HsvTuple(0.0, 1.0, 1.0)
    ensures RawHsv(0.0, 1.0, 0.0) == HsvTuple(120.0, 1.0, 1.0)
    ensures RawHsv(0.0, 0.0, 1.0) == HsvTuple(240.0, 1.0, 1.0)
  {
    FModIs(0.0, 6.0, 0);
  }
}
