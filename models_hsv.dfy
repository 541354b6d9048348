/**
 * `HSV` of `src/models/hsv.rs`: hue in degrees, saturation and value as
 * fractions, each stored as a double. `from_hsv` panics on NaN and on an
 * infinite hue, wraps the hue into `[0, 360)` and clamps the other two into
 * `[0, 1]`; the setters store whatever they are given.
 */
module ModelsHsv {
  import opened Float64
  import opened Channels
  import opened Results
  import NumberUtils

  /** Precision of `eq`. */
  const EPSILON: real := 0.0000001

  const H_MAX: real := 360.0

  const WHITE: HsvTuple := HsvTuple(0.0, 0.0, 1.0)
  const BLACK: HsvTuple := HsvTuple(0.0, 0.0, 0.0)
  const RED: HsvTuple := HsvTuple(0.0, 1.0, 1.0)
  const GREEN: HsvTuple := HsvTuple(120.0, 1.0, 1.0)
  const BLUE: HsvTuple := HsvTuple(240.0, 1.0, 1.0)

  /** Why `from_hsv` panics. */
  datatype HsvError = NotANumber | InfiniteHue

  /**
   * `HSV::from_hsv`. NaN anywhere is rejected first, then an infinite hue.
   * The hue becomes its floor remainder modulo 360; saturation and value are
   * clamped into `[0, 1]`, infinities included.
   */
  function FromHsv(h: F64, s: F64, v: F64): (res: Result<HsvTuple, HsvError>)
    ensures h.NaN? || s.NaN? || v.NaN? ==> res == Err(NotANumber)
    ensures !h.NaN? && !s.NaN? && !v.NaN? && IsInfinite(h) ==> res == Err(InfiniteHue)
    ensures res.Ok? <==> h.Fin? && !s.NaN? && !v.NaN?
    ensures res.Ok? ==> 0.0 <= res.value.h < H_MAX
    ensures res.Ok? ==> res.value.h == h.v - ((h.v / H_MAX).Floor as real) * H_MAX
    ensures res.Ok? ==> NumberUtils.ClampsTo(s, 0.0, 1.0, res.value.s)
    ensures res.Ok? ==> NumberUtils.ClampsTo(v, 0.0, 1.0, res.value.v)
  {
    if h.NaN? || s.NaN? || v.NaN? then Err(NotANumber)
    else if !h.Fin? then Err(InfiniteHue)
    else
      RemEuclidFloor(h.v, H_MAX);
      Ok(HsvTuple(RemEuclid(h.v, H_MAX), NumberUtils.ConvertToRange(s, 0.0, 1.0).v,
                  NumberUtils.ConvertToRange(v, 0.0, 1.0).v))
  }

  /** A normalised tuple is left as it is: `from_hsv` is idempotent. */
  lemma FromHsvIdempotent(h: F64, s: F64, v: F64)
    requires FromHsv(h, s, v).Ok?
    ensures var t := FromHsv(h, s, v).value; FromHsv(Fin(t.h), Fin(t.s), Fin(t.v)) == Ok(t)
  {
    var t := FromHsv(h, s, v).value;
    RemEuclidIs(t.h, H_MAX, 0);
  }

  /** Hue wrapping from the test module: -1 is 359, 361 is 1 and 360 is 0. */
  lemma FromHsvWrapsHue()
    ensures FromHsv(Fin(-1.0), Fin(-1.0), Fin(-1.0)) == Ok(HsvTuple(359.0, 0.0, 0.0))
    ensures FromHsv(Fin(361.0), Fin(2.0), Fin(2.0)) == Ok(HsvTuple(1.0, 1.0, 1.0))
    ensures FromHsv(Fin(360.0), Fin(1.0), Fin(1.0)) == Ok(HsvTuple(0.0, 1.0, 1.0))
  {
    RemEuclidIs(-1.0, H_MAX, 1);
    RemEuclidIs(361.0, H_MAX, -1);
    RemEuclidIs(360.0, H_MAX, -1);
  }

  /** Infinite saturation and value are clamped; an infinite hue or a NaN panics. */
  lemma FromHsvSpecials()
    ensures FromHsv(Fin(0.0), NegInf, NegInf) == Ok(BLACK)
    ensures FromHsv(Fin(360.0), PosInf, PosInf) == Ok(RED)
    ensures FromHsv(NegInf, Fin(0.0), Fin(0.0)) == Err(InfiniteHue)
    ensures FromHsv(PosInf, Fin(0.0), Fin(0.0)) == Err(InfiniteHue)
    ensures FromHsv(NaN, Fin(1.0), Fin(1.0)) == Err(NotANumber)
  {
    RemEuclidIs(0.0, H_MAX, 0);
    RemEuclidIs(360.0, H_MAX, -1);
  }

  /**
   * `HSV::from_hsv_u8`: each byte scaled linearly, 255 to 360 degrees and to 1.
   * It never panics; a hue byte of 255 wraps round to 0 degrees.
   */
  function FromHsvU8(h: u8, s: u8, v: u8): (t: HsvTuple)
    ensures FromHsv(Fin(h as real / 255.0 * H_MAX), Fin(s as real / 255.0), Fin(v as real / 255.0)) == Ok(t)
    ensures t.h == (if h == 255 then 0.0 else h as real * H_MAX / 255.0)
    ensures t.s == s as real / 255.0 && t.v == v as real / 255.0
  {
    var hue := h as real / 255.0 * H_MAX;
    HueOfByte(h);
    FromHsv(Fin(hue), Fin(s as real / 255.0), Fin(v as real / 255.0)).value
  }

  /** A hue byte scaled onto degrees lies in `[0, 360]`, so only 255 wraps. */
  lemma HueOfByte(h: u8)
    ensures RemEuclid(h as real / 255.0 * H_MAX, H_MAX) == (if h == 255 then 0.0 else h as real * H_MAX / 255.0)
  {
    if h == 255 {
      RemEuclidIs(h as real / 255.0 * H_MAX, H_MAX, -1);
    } else {
      RemEuclidIs(h as real / 255.0 * H_MAX, H_MAX, 0);
    }
  }

  /** Examples of the test module. */
  lemma FromHsvU8Examples()
    ensures FromHsvU8(0, 0, 0) == BLACK
    ensures Ok(FromHsvU8(51, 51, 51)) == FromHsv(Fin(72.0), Fin(0.2), Fin(0.2))
    ensures Ok(FromHsvU8(255, 255, 255)) == FromHsv(Fin(360.0), Fin(1.0), Fin(1.0))
  {
    RemEuclidIs(72.0, H_MAX, 0);
    FromHsvWrapsHue();
  }

  /**
   * One channel of `as_tuple_u8`: `x / max * 255` cast to `u8`, the cast
   * truncating toward zero and saturating (NaN becomes 0).
   */
  function ChannelU8(x: F64, max: real): (n: u8)
    requires max > 0.0
    ensures Ge(x, Fin(max)) ==> n == 255
    ensures Le(x, Fin(0.0)) || x.NaN? ==> n == 0
    ensures x.Fin? && 0.0 <= x.v <= max ==> n as real <= x.v / max * 255.0 < n as real + 1.0
  {
    var k := 255.0 / max;
    if x.Fin? then ScaleByteBounds(x.v, max); CastUnsigned(MulBy(x, k), 255)
    else CastUnsigned(MulBy(x, k), 255)
  }

  /** `x * (255 / max)` is `x / max * 255`, and at least 255 once `x` reaches `max`. */
  lemma ScaleByteBounds(x: real, max: real)
    requires max > 0.0
    ensures x * (255.0 / max) == x / max * 255.0
    ensures x >= max ==> x / max * 255.0 >= 255.0
    ensures x <= 0.0 ==> x / max * 255.0 <= 0.0
  {
    var q := x / max;
    assert x == q * max;
    if x >= max && q < 1.0 {
      MulNonNegative(1.0 - q, max);
      assert false;
    }
    if x <= 0.0 && q > 0.0 {
      MulNonNegative(q, max);
    }
  }

  /** `as_tuple_u8`: hue over 360 degrees and the two fractions onto 0..255, truncated. */
  function TupleU8(t: HsvF64): (u8, u8, u8) {
    (ChannelU8(t.h, H_MAX), ChannelU8(t.s, 1.0), ChannelU8(t.v, 1.0))
  }

  /** `as_tuple_u8` inverts `from_hsv_u8`, except that hue byte 255 comes back as 0. */
  lemma TupleU8OfFromHsvU8(h: u8, s: u8, v: u8)
    ensures TupleU8(Doubles(FromHsvU8(h, s, v))) == (if h == 255 then 0 else h, s, v)
  {
    var t := FromHsvU8(h, s, v);
    if h != 255 {
      assert t.h / H_MAX * 255.0 == h as real;
      FloorIs(t.h / H_MAX * 255.0, h);
    }
    assert t.s / 1.0 * 255.0 == s as real;
    assert t.v / 1.0 * 255.0 == v as real;
  }

  /** Truncation examples of the test module. */
  lemma TupleU8Examples()
    ensures TupleU8(Doubles(BLACK)) == (0, 0, 0)
    ensures FromHsv(Fin(H_MAX), Fin(1.0), Fin(1.0)).Ok?
      && TupleU8(Doubles(FromHsv(Fin(H_MAX), Fin(1.0), Fin(1.0)).value)) == (0, 255, 255)
    ensures FromHsv(Fin(180.0), Fin(0.5), Fin(0.2)) == Ok(HsvTuple(180.0, 0.5, 0.2))
    ensures TupleU8(HsvF64(Fin(180.0), Fin(0.5), Fin(0.2))) == (127, 127, 51)
  {
    FromHsvWrapsHue();
    RemEuclidIs(180.0, H_MAX, 0);
    FloorIs(180.0 / H_MAX * 255.0, 127);
    FloorIs(0.5 / 1.0 * 255.0, 127);
    FloorIs(0.2 / 1.0 * 255.0, 51);
  }

  /** `eq`: every channel `approx_equal_f64` within `EPSILON`. */
  predicate ApproxEqual(a: HsvF64, b: HsvF64) {
    NumberUtils.ApproxEqualF64(a.h, b.h, EPSILON)
    && NumberUtils.ApproxEqualF64(a.s, b.s, EPSILON)
    && NumberUtils.ApproxEqualF64(a.v, b.v, EPSILON)
  }

  /** `eq` does not depend on the order of its operands. */
  lemma ApproxEqualSymmetric(a: HsvF64, b: HsvF64)
    ensures ApproxEqual(a, b) <==> ApproxEqual(b, a)
  {
    NumberUtils.ApproxEqualSymmetric(a.h, b.h, EPSILON);
    NumberUtils.ApproxEqualSymmetric(a.s, b.s, EPSILON);
    NumberUtils.ApproxEqualSymmetric(a.v, b.v, EPSILON);
  }

  /** Two normalised tuples are equal under `eq` when each channel is within `EPSILON`. */
  lemma ApproxEqualOfTuples(a: HsvTuple, b: HsvTuple)
    ensures ApproxEqual(Doubles(a), Doubles(b)) <==>
      Abs(a.h - b.h) < EPSILON && Abs(a.s - b.s) < EPSILON && Abs(a.v - b.v) < EPSILON
  {
  }

  class Hsv {
    var h: F64
    var s: F64
    var v: F64

    /** `HSV::new`: `from_hsv(0, 0, 0)`, which is black. */
    constructor ()
      ensures AsTuple() == Doubles(BLACK)
      ensures FromHsv(Fin(0.0), Fin(0.0), Fin(0.0)) == Ok(BLACK)
    {
      RemEuclidIs(0.0, H_MAX, 0);
      h, s, v := Fin(0.0), Fin(0.0), Fin(0.0);
    }

    /** `HSV::from_hsv` and `From<(f64, f64, f64)>`: a new colour holding the normalised tuple, or the panic. */
    static method Create(h: F64, s: F64, v: F64) returns (res: Result<Hsv, HsvError>)
      ensures FromHsv(h, s, v).Err? ==> res == Err(FromHsv(h, s, v).error)
      ensures FromHsv(h, s, v).Ok? ==>
        res.Ok? && fresh(res.value) && res.value.AsTuple() == Doubles(FromHsv(h, s, v).value)
    {
      var t := FromHsv(h, s, v);
      if t.Err? {
        return Err(t.error);
      }
      var c := new Hsv();
      c.h, c.s, c.v := Fin(t.value.h), Fin(t.value.s), Fin(t.value.v);
      res := Ok(c);
    }

    /** `as_tuple`. */
    function AsTuple(): HsvF64
      reads this
    {
      HsvF64(h, s, v)
    }

    /** `as_tuple_u8` (its debugging `print!` aside). */
    function AsTupleU8(): (bytes: (u8, u8, u8))
      reads this
      ensures bytes == TupleU8(AsTuple())
    {
      TupleU8(AsTuple())
    }

    /** `set_h`: stored as given, not wrapped. */
    method SetH(h': F64)
      modifies this
      ensures AsTuple() == HsvF64(h', old(s), old(v))
    {
      h := h';
    }

    /** `set_s`: stored as given, not clamped. */
    method SetS(s': F64)
      modifies this
      ensures AsTuple() == HsvF64(old(h), s', old(v))
    {
      s := s';
    }

    /** `set_v`: stored as given, not clamped. */
    method SetV(v': F64)
      modifies this
      ensures AsTuple() == HsvF64(old(h), old(s), v')
    {
      v := v';
    }

    /** `PartialEq::eq`. */
    predicate Equals(other: Hsv)
      reads this, other
      ensures Equals(other) <==> ApproxEqual(AsTuple(), other.AsTuple())
    {
      ApproxEqual(AsTuple(), other.AsTuple())
    }

    /** `is_white`: `eq` to `WHITE`, i.e. finite channels within `EPSILON` of (0, 0, 1). */
    predicate IsWhite()
      reads this
      ensures IsWhite() <==> (h.Fin? && s.Fin? && v.Fin?
        && Abs(h.v) < EPSILON && Abs(s.v) < EPSILON && Abs(v.v - 1.0) < EPSILON)
    {
      ApproxEqual(AsTuple(), Doubles(WHITE))
    }

    /** `is_black`: `eq` to `BLACK`. */
    predicate IsBlack()
      reads this
      ensures IsBlack() <==> (h.Fin? && s.Fin? && v.Fin?
        && Abs(h.v) < EPSILON && Abs(s.v) < EPSILON && Abs(v.v) < EPSILON)
    {
      ApproxEqual(AsTuple(), Doubles(BLACK))
    }
  }
}
