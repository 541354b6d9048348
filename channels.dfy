/** Machine integer ranges and the plain value triples the colour types expose. */
module Channels {
  import opened Float64

  type u8 = x: int | 0 <= x < 0x100
  type u16 = x: int | 0 <= x < 0x1_0000
  type u32 = x: int | 0 <= x < 0x1_0000_0000

  const U32_MAX: int := 0xFFFF_FFFF

  /** A 24-bit colour's channels, as `as_tuple` returns them. */
  datatype Rgb8 = Rgb8(r: u8, g: u8, b: u8)

  /** A 48-bit colour's channels. */
  datatype Rgb16 = Rgb16(r: u16, g: u16, b: u16)

  /** Hue in degrees, saturation and value as fractions. */
  datatype HsvTuple = HsvTuple(h: real, s: real, v: real)

  /** The three doubles an HSV value stores; its setters accept any double. */
  datatype HsvF64 = HsvF64(h: F64, s: F64, v: F64)

  /** The stored doubles of a normalised HSV tuple. */
  function Doubles(t: HsvTuple): HsvF64 {
    HsvF64(Fin(t.h), Fin(t.s), Fin(t.v))
  }

  /** The fractions a 24-bit colour presents to the converter (channel / 255). */
  function Fractions8(c: Rgb8): (real, real, real) {
    (c.r as real / 255.0, c.g as real / 255.0, c.b as real / 255.0)
  }

  /** The fractions a 48-bit colour presents to the converter (channel / 65535). */
  function Fractions16(c: Rgb16): (real, real, real) {
    (c.r as real / 65535.0, c.g as real / 65535.0, c.b as real / 65535.0)
  }
}
