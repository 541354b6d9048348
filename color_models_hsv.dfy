/**
 * `HSVColor` of `src/color_models/hsv.rs`. Unlike `models::HSV` its
 * `from_hsv` clamps the hue into `[0, 360]` instead of wrapping it, so an
 * infinite hue is accepted; only NaN panics. `as_tuple_u8` and `eq` are the
 * same computations as in `models::HSV`.
 */
module ColorModelsHsv {
  import opened Float64
  import opened Channels
  import opened Results
  import NumberUtils
  import ModelsHsv

  const H_MAX: real := 360.0

  const WHITE: HsvTuple := HsvTuple(0.0, 0.0, 1.0)
  const BLACK: HsvTuple := HsvTuple(0.0, 0.0, 0.0)

  /** Why `from_hsv` panics. */
  datatype HsvError = NotANumber

  /** `HSVColor::from_hsv`: NaN panics; every channel is clamped into its range. */
  function FromHsv(h: F64, s: F64, v: F64): (res: Result<HsvTuple, HsvError>)
    ensures res.Err? <==> h.NaN? || s.NaN? || v.NaN?
    ensures res.Err? ==> res.error == NotANumber
    ensures res.Ok? ==> NumberUtils.ClampsTo(h, 0.0, H_MAX, res.value.h)
    ensures res.Ok? ==> NumberUtils.ClampsTo(s, 0.0, 1.0, res.value.s)
    ensures res.Ok? ==> NumberUtils.ClampsTo(v, 0.0, 1.0, res.value.v)
  {
    if h.NaN? || s.NaN? || v.NaN? then Err(NotANumber)
    else Ok(HsvTuple(NumberUtils.ConvertToRange(h, 0.0, H_MAX).v, NumberUtils.ConvertToRange(s, 0.0, 1.0).v,
                     NumberUtils.ConvertToRange(v, 0.0, 1.0).v))
  }

  /** A clamped tuple is left as it is. */
  lemma FromHsvIdempotent(h: F64, s: F64, v: F64)
    requires FromHsv(h, s, v).Ok?
    ensures var t := FromHsv(h, s, v).value; FromHsv(Fin(t.h), Fin(t.s), Fin(t.v)) == Ok(t)
  {
  }

  /** Out-of-range and infinite inputs from the test module, and the NaN panic. */
  lemma FromHsvClamps()
    ensures FromHsv(Fin(-1.0), Fin(-1.0), Fin(-1.0)) == Ok(BLACK)
    ensures FromHsv(Fin(361.0), Fin(2.0), Fin(2.0)) == Ok(HsvTuple(H_MAX, 1.0, 1.0))
    ensures FromHsv(NegInf, NegInf, NegInf) == Ok(BLACK)
    ensures FromHsv(PosInf, PosInf, PosInf) == Ok(HsvTuple(H_MAX, 1.0, 1.0))
    ensures FromHsv(NaN, Fin(1.0), Fin(1.0)) == Err(NotANumber)
  {
  }

  /** `HSVColor::from_hsv_u8`: each byte scaled linearly, 255 to 360 degrees and to 1; never panics. */
  function FromHsvU8(h: u8, s: u8, v: u8): (t: HsvTuple)
    ensures FromHsv(Fin(h as real / 255.0 * H_MAX), Fin(s as real / 255.0), Fin(v as real / 255.0)) == Ok(t)
    ensures t == HsvTuple(h as real * H_MAX / 255.0, s as real / 255.0, v as real / 255.0)
  {
    FromHsv(Fin(h as real / 255.0 * H_MAX), Fin(s as real / 255.0), Fin(v as real / 255.0)).value
  }

  /** Examples of the test module: 255 reaches the maximum of every range. */
  lemma FromHsvU8Examples()
    ensures FromHsvU8(0, 0, 0) == BLACK
    ensures Ok(FromHsvU8(51, 51, 51)) == FromHsv(Fin(72.0), Fin(0.2), Fin(0.2))
    ensures Ok(FromHsvU8(255, 255, 255)) == FromHsv(Fin(H_MAX), Fin(1.0), Fin(1.0))
  {
  }

  /** With the hue clamped rather than wrapped, `as_tuple_u8` inverts `from_hsv_u8` on every input. */
  lemma TupleU8OfFromHsvU8(h: u8, s: u8, v: u8)
    ensures ModelsHsv.TupleU8(Doubles(FromHsvU8(h, s, v))) == (h, s, v)
  {
    var t := FromHsvU8(h, s, v);
    assert t.h / H_MAX * 255.0 == h as real;
    assert t.s / 1.0 * 255.0 == s as real;
    assert t.v / 1.0 * 255.0 == v as real;
  }

  /** Truncation examples of the test module. */
  lemma TupleU8Examples()
    ensures ModelsHsv.TupleU8(Doubles(HsvTuple(H_MAX, 1.0, 1.0))) == (255, 255, 255)
    ensures FromHsv(Fin(180.0), Fin(0.5), Fin(0.2)) == Ok(HsvTuple(180.0, 0.5, 0.2))
    ensures ModelsHsv.TupleU8(Doubles(HsvTuple(180.0, 0.5, 0.2))) == (127, 127, 51)
  {
    FloorIs(180.0 / H_MAX * 255.0, 127);
    FloorIs(0.5 / 1.0 * 255.0, 127);
    FloorIs(0.2 / 1.0 * 255.0, 51);
  }

  class HsvColor {
    var h: F64
    var s: F64
    var v: F64

    /** `HSVColor::new`: `from_hsv(0, 0, 0)`, which is black. */
    constructor ()
      ensures AsTuple() == Doubles(BLACK)
      ensures FromHsv(Fin(0.0), Fin(0.0), Fin(0.0)) == Ok(BLACK)
    {
      h, s, v := Fin(0.0), Fin(0.0), Fin(0.0);
    }

    /** `HSVColor::from_hsv` and `From<(f64, f64, f64)>`: a new colour holding the clamped tuple, or the panic. */
    static method Create(h: F64, s: F64, v: F64) returns (res: Result<HsvColor, HsvError>)
      ensures FromHsv(h, s, v).Err? ==> res == Err(FromHsv(h, s, v).error)
      ensures FromHsv(h, s, v).Ok? ==>
        res.Ok? && fresh(res.value) && res.value.AsTuple() == Doubles(FromHsv(h, s, v).value)
    {
      var t := FromHsv(h, s, v);
      if t.Err? {
        return Err(t.error);
      }
      var c := new HsvColor();
      c.h, c.s, c.v := Fin(t.value.h), Fin(t.value.s), Fin(t.value.v);
      res := Ok(c);
    }

    /** `as_tuple`. */
    function AsTuple(): HsvF64
      reads this
    {
      HsvF64(h, s, v)
    }

    /** `as_tuple_u8`: the same truncating scale as `models::HSV`. */
    function AsTupleU8(): (bytes: (u8, u8, u8))
      reads this
      ensures bytes == ModelsHsv.TupleU8(AsTuple())
    {
      ModelsHsv.TupleU8(AsTuple())
    }

    /** `set_h`: stored as given, not clamped. */
    method SetH(h': F64)
      modifies this
      ensures AsTuple() == HsvF64(h', old(s), old(v))
    {
      h := h';
    }

    /** `set_s`: stored as given, not clamped. */
    method SetS(s': F64)
      modifies this
      ensures AsTuple() == HsvF64(old(h), s', old(v))
    {
      s := s';
    }

    /** `set_v`: stored as given, not clamped. */
    method SetV(v': F64)
      modifies this
      ensures AsTuple() == HsvF64(old(h), old(s), v')
    {
      v := v';
    }

    /** `PartialEq::eq`: `approx_equal_f64` within `EPSILON` channel by channel. */
    predicate Equals(other: HsvColor)
      reads this, other
      ensures Equals(other) <==> ModelsHsv.ApproxEqual(AsTuple(), other.AsTuple())
    {
      ModelsHsv.ApproxEqual(AsTuple(), other.AsTuple())
    }

    /** `is_white`: `eq` to `WHITE`. */
    predicate IsWhite()
      reads this
      ensures IsWhite() <==> (h.Fin? && s.Fin? && v.Fin?
        && Abs(h.v) < ModelsHsv.EPSILON && Abs(s.v) < ModelsHsv.EPSILON && Abs(v.v - 1.0) < ModelsHsv.EPSILON)
    {
      ModelsHsv.ApproxEqual(AsTuple(), Doubles(WHITE))
    }

    /** `is_black`: `eq` to `BLACK`. */
    predicate IsBlack()
      reads this
      ensures IsBlack() <==> (h.Fin? && s.Fin? && v.Fin?
        && Abs(h.v) < ModelsHsv.EPSILON && Abs(s.v) < ModelsHsv.EPSILON && Abs(v.v) < ModelsHsv.EPSILON)
    {
      ModelsHsv.ApproxEqual(AsTuple(), Doubles(BLACK))
    }
  }
}
