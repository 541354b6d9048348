/**
 * Hexadecimal text and the integer packing shared by every RGB type: what
 * `u32::from_str_radix(_, 16)` accepts, what `format!("{:0Nx}", _)` prints, and
 * how `from_int` splits an integer into three channels.
 */
module HexCodec {
  import opened Channels
  import opened Results
  import opened Float64

  /** Why `u32::from_str_radix` rejects a string. */
  datatype IntErrorKind = Empty | InvalidDigit | PosOverflow

  /** Why a hex decoder panics. */
  datatype HexError =
    | ParseFailed(kind: IntErrorKind)
    | InvalidLength(length: nat)
    | UnsupportedBase(base: nat)
    | ArithmeticPanic

  predicate IsHexDigit(c: char) {
    ('0' <= c <= '9') || ('a' <= c <= 'f') || ('A' <= c <= 'F')
  }

  predicate IsLowerHexDigit(c: char) {
    ('0' <= c <= '9') || ('a' <= c <= 'f')
  }

  /** `char::to_digit(16)` on a digit, both letter cases accepted (0 on anything else). */
  function DigitValue(c: char): (d: nat)
    ensures d < 16
  {
    if '0' <= c <= '9' then c as int - '0' as int
    else if 'a' <= c <= 'f' then c as int - 'a' as int + 10
    else if 'A' <= c <= 'F' then c as int - 'A' as int + 10
    else 0
  }

  /** The lower-case digit `format!` prints for `d`. */
  function HexChar(d: nat): (c: char)
    requires d < 16
    ensures IsLowerHexDigit(c) && IsHexDigit(c) && DigitValue(c) == d
  {
    if d < 10 then ('0' as int + d) as char else ('a' as int + d - 10) as char
  }

  /** A lower-case digit is the one `HexChar` prints for its value. */
  lemma HexCharOfLower(c: char)
    requires IsLowerHexDigit(c)
    ensures HexChar(DigitValue(c)) == c
  {
  }

  predicate AllHexDigits(s: string) {
    forall i :: 0 <= i < |s| ==> IsHexDigit(s[i])
  }

  predicate AllLowerHexDigits(s: string) {
    forall i :: 0 <= i < |s| ==> IsLowerHexDigit(s[i])
  }

  function Pow(b: nat, k: nat): (p: nat)
    ensures b >= 1 ==> p >= 1
  {
    if k == 0 then 1 else b * Pow(b, k - 1)
  }

  /** The number a string of hex digits denotes, most significant digit first. */
  function HexValue(s: string): nat {
    if s == [] then 0 else HexValue(s[..|s| - 1]) * 16 + DigitValue(s[|s| - 1])
  }

  /** Appending digits shifts the value of the prefix. */
  lemma {:induction false} HexValueAppend(a: string, b: string)
    requires AllHexDigits(a) && AllHexDigits(b)
    ensures AllHexDigits(a + b)
    ensures HexValue(a + b) == HexValue(a) * Pow(16, |b|) + HexValue(b)
  {
    assert AllHexDigits(a + b) by {
      forall i | 0 <= i < |a + b| ensures IsHexDigit((a + b)[i]) {
        if i < |a| { assert (a + b)[i] == a[i]; } else { assert (a + b)[i] == b[i - |a|]; }
      }
    }
    if b == [] {
      assert a + b == a;
    } else {
      var b' := b[..|b| - 1];
      assert (a + b)[..|a + b| - 1] == a + b';
      assert AllHexDigits(b');
      HexValueAppend(a, b');
      var x := HexValue(a);
      var p := Pow(16, |b'|);
      var d := DigitValue(b[|b| - 1]);
      assert HexValue(a + b) == HexValue(a + b') * 16 + d;
      assert HexValue(a + b') == x * p + HexValue(b');
      assert HexValue(b) == HexValue(b') * 16 + d;
      assert Pow(16, |b|) == 16 * p;
      ShiftSum(x, p, HexValue(b'), d);
    }
  }

  lemma ShiftSum(x: nat, p: nat, y: nat, d: nat)
    ensures (x * p + y) * 16 + d == x * (16 * p) + (y * 16 + d)
  {
  }

  /** A string of `k` digits denotes less than `16^k`. */
  lemma {:induction false} HexValueBound(s: string)
    requires AllHexDigits(s)
    ensures HexValue(s) < Pow(16, |s|)
  {
    if s != [] {
      var s' := s[..|s| - 1];
      assert AllHexDigits(s');
      HexValueBound(s');
    }
  }

  /** A prefix never denotes more than the whole string. */
  lemma {:induction false} HexValuePrefix(s: string, i: nat)
    requires AllHexDigits(s) && i <= |s|
    ensures AllHexDigits(s[..i]) && HexValue(s[..i]) <= HexValue(s)
  {
    assert AllHexDigits(s[..i]) by {
      forall j | 0 <= j < i ensures IsHexDigit(s[..i][j]) { assert s[..i][j] == s[j]; }
    }
    if i < |s| {
      var s' := s[..|s| - 1];
      assert AllHexDigits(s');
      assert s'[..i] == s[..i];
      HexValuePrefix(s', i);
    } else {
      assert s[..i] == s;
    }
  }

  // ---------------------------------------------------------------- parsing

  /** The digits `from_str_radix` reads: a single leading `+` is skipped. */
  function Unsigned(s: string): string {
    if |s| > 0 && s[0] == '+' then s[1..] else s
  }

  /**
   * `u32::from_str_radix(s, 16)`. An empty string is `Empty`; a lone `+` or `-`
   * is `InvalidDigit`; a leading `+` is skipped (a `-` is just an invalid digit
   * for an unsigned type); then the digits are read left to right, and the first
   * non-digit, or the first digit that makes the value exceed `u32::MAX`, ends it.
   */
  function ParseU32Hex(s: string): (r: Result<u32, IntErrorKind>)
    ensures |s| == 0 ==> r == Err(Empty)
    ensures r.Ok? <==> |Unsigned(s)| > 0 && AllHexDigits(Unsigned(s)) && HexValue(Unsigned(s)) <= U32_MAX
    ensures r.Ok? ==> r.value == HexValue(Unsigned(s))
    ensures |s| > 0 && r.Err? ==> r.error != Empty
    ensures |Unsigned(s)| > 0 && AllHexDigits(Unsigned(s)) && r.Err? ==> r.error == PosOverflow
  {
    if |s| == 0 then Err(Empty)
    else if (s[0] == '+' || s[0] == '-') && |s| == 1 then Err(InvalidDigit)
    else
      var digits := if s[0] == '+' then s[1..] else s;
      AccumulateSpec(digits, 0, 0);
      Accumulate(digits, 0, 0)
  }

  /** The digit loop of `from_str_radix`, after `i` digits worth `acc`. */
  function Accumulate(digits: string, i: nat, acc: u32): Result<u32, IntErrorKind>
    requires i <= |digits|
    decreases |digits| - i
  {
    if i == |digits| then Ok(acc)
    else if !IsHexDigit(digits[i]) then Err(InvalidDigit)
    else if acc * 16 + DigitValue(digits[i]) > U32_MAX then Err(PosOverflow)
    else Accumulate(digits, i + 1, acc * 16 + DigitValue(digits[i]))
  }

  /** The loop succeeds exactly on digit strings whose value fits, and yields that value. */
  lemma {:induction false} AccumulateSpec(digits: string, i: nat, acc: u32)
    requires i <= |digits| && AllHexDigits(digits[..i]) && acc == HexValue(digits[..i])
    ensures var r := Accumulate(digits, i, acc);
      (r.Ok? <==> AllHexDigits(digits) && HexValue(digits) <= U32_MAX)
      && (r.Ok? ==> r.value == HexValue(digits))
      && (r.Err? ==> r.error != Empty)
      && (r.Err? && AllHexDigits(digits) ==> r.error == PosOverflow)
    decreases |digits| - i
  {
    if i == |digits| {
      assert digits[..i] == digits;
    } else if !IsHexDigit(digits[i]) {
    } else {
      var next := acc * 16 + DigitValue(digits[i]);
      var p := digits[..i + 1];
      assert p[..|p| - 1] == digits[..i];
      assert AllHexDigits(p) by {
        forall j | 0 <= j < i + 1 ensures IsHexDigit(p[j]) {
          if j < i { assert p[j] == digits[..i][j]; }
        }
      }
      assert HexValue(p) == next;
      if next > U32_MAX {
        if AllHexDigits(digits) {
          HexValuePrefix(digits, i + 1);
        }
      } else {
        AccumulateSpec(digits, i + 1, next);
      }
    }
  }

  // ---------------------------------------------------------------- printing

  /** The digits of `n` without leading zeros, as the lower-case hex format of `format!` prints them. */
  function HexDigits(n: nat): (s: string)
    ensures 1 <= |s|
  {
    if n < 16 then [HexChar(n)] else HexDigits(n / 16) + [HexChar(n % 16)]
  }

  function Zeros(k: nat): (s: string)
    ensures |s| == k
  {
    if k == 0 then [] else Zeros(k - 1) + ['0']
  }

  /** `format!("{:0w$x}", n)`: lower-case digits, padded with zeros to at least `w`. */
  function FormatHex(n: nat, w: nat): string {
    var d := HexDigits(n);
    if |d| < w then Zeros(w - |d|) + d else d
  }

  /** Exactly `w` lower-case digits of `n`, the most significant first. */
  function FixedHex(n: nat, w: nat): (s: string)
    ensures |s| == w && AllLowerHexDigits(s) && AllHexDigits(s)
  {
    if w == 0 then [] else FixedHex(n / 16, w - 1) + [HexChar(n % 16)]
  }

  lemma {:induction false} FixedHexZero(k: nat)
    ensures FixedHex(0, k) == Zeros(k)
  {
    if k > 0 {
      FixedHexZero(k - 1);
    }
  }

  /** A number below `16^w` prints as exactly `w` digits. */
  lemma {:induction false} FormatHexFixed(n: nat, w: nat)
    requires 1 <= w && n < Pow(16, w)
    ensures |HexDigits(n)| <= w
    ensures FormatHex(n, w) == FixedHex(n, w)
  {
    if n < 16 {
      FixedHexZero(w - 1);
      assert FixedHex(n, w) == FixedHex(0, w - 1) + [HexChar(n)];
    } else {
      assert n / 16 < Pow(16, w - 1);
      FormatHexFixed(n / 16, w - 1);
      var d := HexDigits(n / 16);
      if |d| < w - 1 {
        assert Zeros(w - |d| - 1) + d + [HexChar(n % 16)] == Zeros(w - 1 - |d|) + (d + [HexChar(n % 16)]);
      }
    }
  }

  /** `FixedHex` prints the digits of its number. */
  lemma {:induction false} FixedHexValue(n: nat, w: nat)
    requires n < Pow(16, w)
    ensures HexValue(FixedHex(n, w)) == n
  {
    if w > 0 {
      var s := FixedHex(n, w);
      assert s[..|s| - 1] == FixedHex(n / 16, w - 1);
      assert n / 16 < Pow(16, w - 1);
      FixedHexValue(n / 16, w - 1);
    }
  }

  /** Each digit in lower case. */
  function Lower(s: string): (t: string)
    requires AllHexDigits(s)
    ensures |t| == |s| && AllLowerHexDigits(t)
    ensures forall i :: 0 <= i < |s| ==> t[i] == HexChar(DigitValue(s[i]))
  {
    if s == [] then [] else Lower(s[..|s| - 1]) + [HexChar(DigitValue(s[|s| - 1]))]
  }

  /** Printing the value of a digit string gives back the string in lower case. */
  lemma {:induction false} FixedHexOfValue(s: string)
    requires AllHexDigits(s)
    ensures FixedHex(HexValue(s), |s|) == Lower(s)
  {
    if s != [] {
      var s' := s[..|s| - 1];
      assert AllHexDigits(s');
      FixedHexOfValue(s');
    }
  }

  /** Lower-casing a lower-case string changes nothing. */
  lemma LowerOfLower(s: string)
    requires AllLowerHexDigits(s) && AllHexDigits(s)
    ensures Lower(s) == s
  {
    forall i | 0 <= i < |s| ensures Lower(s)[i] == s[i] {
      HexCharOfLower(s[i]);
    }
  }

  // ---------------------------------------------------------------- packing

  /** `(r << 16) + (g << 8) + b`, which always fits in 24 bits. */
  function Pack24(c: Rgb8): (n: nat)
    ensures n < Pow(16, 6)
  {
    assert Pow(16, 6) == 0x100_0000;
    c.r * 0x1_0000 + c.g * 0x100 + c.b
  }

  /** `floor(log2 n)`: the shift `(base as f64).log2() as u32` computes. */
  function Log2Floor(n: nat): nat
    requires n >= 1
  {
    if n < 2 then 0 else 1 + Log2Floor(n / 2)
  }

  /**
   * The body of `from_int`: the lowest digit of `value` in base `base` (shifting
   * by `log2 base` bits between digits) gives blue, the next green, the next red,
   * each scaled by `255 / (base - 1)` and cast to a byte.
   */
  function SplitChannels(value: nat, base: nat): (c: Rgb8)
    requires base >= 2
  {
    var factor := 255 / (base - 1);
    var shift := Pow(2, Log2Floor(base));
    var b := ((value % base) * factor) % 0x100;
    var v1 := value / shift;
    var g := ((v1 % base) * factor) % 0x100;
    var v2 := v1 / shift;
    var r := ((v2 % base) * factor) % 0x100;
    Rgb8(r, g, b)
  }

  /** A digit below `base`, scaled by `255 / (base - 1)`, never exceeds 255: the cast keeps it. */
  lemma ScaledDigitFits(d: nat, base: nat)
    requires base >= 2 && d < base
    ensures d * (255 / (base - 1)) <= 255
  {
    var f := 255 / (base - 1);
    assert f * (base - 1) <= 255;
    assert d * f <= (base - 1) * f by {
      MulMonotone(d, base - 1, f);
    }
  }

  lemma MulMonotone(a: nat, b: nat, f: nat)
    requires a <= b
    ensures a * f <= b * f
  {
  }

  /** For the bases `from_hex` uses, the shift is exactly one digit. */
  lemma ShiftIsBase()
    ensures Pow(2, Log2Floor(4)) == 4
    ensures Pow(2, Log2Floor(16)) == 16
    ensures Pow(2, Log2Floor(256)) == 256
  {
    assert Log2Floor(4) == 2;
    assert Log2Floor(16) == 4;
    assert Log2Floor(256) == 8;
  }

  /** Base 256 takes the three bytes of a 24-bit number, high byte red. */
  lemma SplitBase256(hi: u8, mid: u8, lo: u8, rest: nat)
    ensures SplitChannels(rest * 0x100_0000 + hi * 0x1_0000 + mid * 0x100 + lo, 256) == Rgb8(hi, mid, lo)
  {
    ShiftIsBase();
    var v := rest * 0x100_0000 + hi * 0x1_0000 + mid * 0x100 + lo;
    assert v % 256 == lo;
    assert v / 256 == rest * 0x1_0000 + hi * 0x100 + mid;
    assert (v / 256) / 256 == rest * 0x100 + hi;
  }

  /** Base 16 takes three nibbles and stretches each by 17, so `f` becomes `ff`. */
  lemma SplitBase16(hi: nat, mid: nat, lo: nat, rest: nat)
    requires hi < 16 && mid < 16 && lo < 16
    ensures SplitChannels(rest * 0x1000 + hi * 0x100 + mid * 0x10 + lo, 16) == Rgb8(17 * hi, 17 * mid, 17 * lo)
  {
    ShiftIsBase();
    var v2 := rest * 0x10 + hi;
    var v1 := v2 * 0x10 + mid;
    assert rest * 0x1000 + hi * 0x100 + mid * 0x10 + lo == v1 * 0x10 + lo;
    NibbleStep(v1, lo);
    NibbleStep(v2, mid);
    NibbleStep(rest, hi);
    assert 255 / (16 - 1) == 17;
  }

  /** Dividing by 16 drops the last nibble. */
  lemma NibbleStep(q: nat, d: nat)
    requires d < 16
    ensures (q * 16 + d) / 16 == q && (q * 16 + d) % 16 == d
  {
  }

  /** `from_int` unpacks what `to_hex` packs. */
  lemma SplitPack24(c: Rgb8)
    ensures SplitChannels(Pack24(c), 256) == c
  {
    SplitBase256(c.r, c.g, c.b, 0);
  }

  /**
   * `from_int` of the rgb24 and rgb copies: panics unless `base` is 4, 16 or 256;
   * otherwise the channels are the three lowest base-`base` digits of `value`,
   * blue lowest, each scaled onto 0..255.
   */
  function FromIntGuarded(value: u32, base: u32): (r: Result<Rgb8, HexError>)
    ensures r.Err? <==> base != 4 && base != 16 && base != 256
    ensures r.Err? ==> r.error == UnsupportedBase(base)
    ensures r.Ok? ==> r.value == Rgb8((value / base / base % base) * (255 / (base - 1)),
                                      (value / base % base) * (255 / (base - 1)),
                                      (value % base) * (255 / (base - 1)))
  {
    if base == 4 || base == 16 || base == 256 then
      SplitAsDigits(value, base);
      Ok(SplitChannels(value, base))
    else Err(UnsupportedBase(base))
  }

  /**
   * `from_int` of the colour-model `RGBColor`: no check on `base`; 0 and 1 end in
   * an arithmetic panic (`base - 1` underflows or divides by zero).
   */
  function FromIntUnguarded(value: u32, base: u32): (r: Result<Rgb8, HexError>)
    ensures r.Err? <==> base < 2
    ensures r.Err? ==> r.error == ArithmeticPanic
    ensures (base == 4 || base == 16 || base == 256) ==> r == FromIntGuarded(value, base)
  {
    if base < 2 then Err(ArithmeticPanic) else Ok(SplitChannels(value, base))
  }

  /** For bases that are powers of two the shift by `log2 base` bits divides by `base`. */
  lemma SplitAsDigits(value: nat, base: nat)
    requires base == 4 || base == 16 || base == 256
    ensures SplitChannels(value, base) == Rgb8((value / base / base % base) * (255 / (base - 1)),
                                               (value / base % base) * (255 / (base - 1)),
                                               (value % base) * (255 / (base - 1)))
  {
    ShiftIsBase();
    assert Pow(2, Log2Floor(base)) == base;
    ScaledDigitKept(value % base, base);
    ScaledDigitKept(value / base % base, base);
    ScaledDigitKept(value / base / base % base, base);
  }

  lemma ScaledDigitKept(d: nat, base: nat)
    requires base >= 2 && d < base
    ensures d * (255 / (base - 1)) % 0x100 == d * (255 / (base - 1))
  {
    ScaledDigitFits(d, base);
    ByteMod(d * (255 / (base - 1)));
  }

  lemma ByteMod(n: nat)
    requires n < 0x100
    ensures n % 0x100 == n
  {
  }

  /** `base^3 - 1`, all digits at their maximum, decodes to white for every accepted base. */
  lemma MaxValueIsWhite()
    ensures FromIntGuarded(4 * 4 * 4 - 1, 4) == Ok(Rgb8(255, 255, 255))
    ensures FromIntGuarded(16 * 16 * 16 - 1, 16) == Ok(Rgb8(255, 255, 255))
    ensures FromIntGuarded(256 * 256 * 256 - 1, 256) == Ok(Rgb8(255, 255, 255))
  {
    TopDigits(4 * 4 * 4 - 1, 4);
    TopDigits(16 * 16 * 16 - 1, 16);
    TopDigits(256 * 256 * 256 - 1, 256);
  }

  /** A value whose three digits in base `base` are all `base - 1` decodes to white. */
  lemma TopDigits(v: u32, base: nat)
    requires base == 4 || base == 16 || base == 256
    requires v / base / base % base == base - 1 && v / base % base == base - 1 && v % base == base - 1
    ensures FromIntGuarded(v, base) == Ok(Rgb8(255, 255, 255))
  {
    SplitAsDigits(v, base);
  }

  // ---------------------------------------------------------------- the 6-digit form

  /** The three 2-digit parts of a 6-digit string are digit strings. */
  lemma SixDigitParts(s: string)
    requires |s| == 6 && AllHexDigits(s)
    ensures AllHexDigits(s[0..2]) && AllHexDigits(s[2..4]) && AllHexDigits(s[4..6])
  {
    forall i | 0 <= i < 2 ensures IsHexDigit(s[0..2][i]) && IsHexDigit(s[2..4][i]) && IsHexDigit(s[4..6][i]) {
      assert s[0..2][i] == s[i] && s[2..4][i] == s[i + 2] && s[4..6][i] == s[i + 4];
    }
  }

  /** Two digits denote less than 256. */
  lemma PairBound(s: string)
    requires |s| == 2 && AllHexDigits(s)
    ensures HexValue(s) < 256
  {
    HexValueBound(s);
    assert Pow(16, 2) == 256;
  }

  /** A 6-digit string is three 2-digit channels. */
  lemma SixDigits(s: string)
    requires |s| == 6 && AllHexDigits(s)
    ensures AllHexDigits(s[0..2]) && AllHexDigits(s[2..4]) && AllHexDigits(s[4..6])
    ensures HexValue(s) == HexValue(s[0..2]) * 0x1_0000 + HexValue(s[2..4]) * 0x100 + HexValue(s[4..6])
    ensures HexValue(s[0..2]) < 256 && HexValue(s[2..4]) < 256 && HexValue(s[4..6]) < 256
  {
    SixDigitParts(s);
    PrefixStep(s, 0);
    PrefixStep(s, 1);
    PrefixStep(s, 2);
    PrefixStep(s, 3);
    PrefixStep(s, 4);
    PrefixStep(s, 5);
    assert s[..6] == s;
    TwoDigits(s[0..2]);
    TwoDigits(s[2..4]);
    TwoDigits(s[4..6]);
  }

  /** One more digit of a prefix. */
  lemma PrefixStep(s: string, k: nat)
    requires k < |s|
    ensures HexValue(s[..k + 1]) == HexValue(s[..k]) * 16 + DigitValue(s[k])
  {
    assert s[..k + 1][..k] == s[..k];
  }

  lemma TwoDigits(p: string)
    requires |p| == 2
    ensures HexValue(p) == DigitValue(p[0]) * 16 + DigitValue(p[1])
  {
    PrefixStep(p, 0);
    PrefixStep(p, 1);
    assert p[..0] == [] && p[..2] == p;
  }

  /** A 6-digit string decodes (base 256) to its three channel pairs. */
  lemma DecodeSix(s: string)
    requires |s| == 6 && AllHexDigits(s)
    ensures AllHexDigits(s[0..2]) && AllHexDigits(s[2..4]) && AllHexDigits(s[4..6])
    ensures HexValue(s[0..2]) < 256 && HexValue(s[2..4]) < 256 && HexValue(s[4..6]) < 256
    ensures SplitChannels(HexValue(s), 256)
      == Rgb8(HexValue(s[0..2]), HexValue(s[2..4]), HexValue(s[4..6]))
  {
    SixDigits(s);
    SplitOfPacked(HexValue(s), HexValue(s[0..2]), HexValue(s[2..4]), HexValue(s[4..6]));
  }

  lemma SplitOfPacked(n: nat, hi: u8, mid: u8, lo: u8)
    requires n == hi * 0x1_0000 + mid * 0x100 + lo
    ensures SplitChannels(n, 256) == Rgb8(hi, mid, lo)
  {
    SplitBase256(hi, mid, lo, 0);
    assert 0 * 0x100_0000 + hi * 0x1_0000 + mid * 0x100 + lo == hi * 0x1_0000 + mid * 0x100 + lo;
  }

  /** A 6-digit string is accepted by the parser. */
  lemma ParseSix(s: string)
    requires |s| == 6 && AllHexDigits(s)
    ensures ParseU32Hex(s) == Ok(HexValue(s))
  {
    assert Unsigned(s) == s;
    HexValueBound(s);
    assert Pow(16, 6) == 0x100_0000;
  }

  // ---------------------------------------------------------------- the 3-digit form

  /** A 3-digit string is three digits. */
  lemma ThreeDigits(s: string)
    requires |s| == 3 && AllHexDigits(s)
    ensures HexValue(s) == DigitValue(s[0]) * 0x100 + DigitValue(s[1]) * 0x10 + DigitValue(s[2])
  {
    PrefixStep(s, 0);
    PrefixStep(s, 1);
    PrefixStep(s, 2);
    assert s[..3] == s;
  }

  /** A 3-digit string decodes (base 16) to its digits stretched by 17. */
  lemma DecodeThree(s: string)
    requires |s| == 3 && AllHexDigits(s)
    ensures SplitChannels(HexValue(s), 16)
      == Rgb8(17 * DigitValue(s[0]), 17 * DigitValue(s[1]), 17 * DigitValue(s[2]))
  {
    ThreeDigits(s);
    SplitBase16(DigitValue(s[0]), DigitValue(s[1]), DigitValue(s[2]), 0);
  }

  /** A 3-digit string is accepted by the parser. */
  lemma ParseThree(s: string)
    requires |s| == 3 && AllHexDigits(s)
    ensures ParseU32Hex(s) == Ok(HexValue(s))
  {
    assert Unsigned(s) == s;
    HexValueBound(s);
    assert Pow(16, 3) == 0x1000;
  }

  // ---------------------------------------------------------------- encoders

  /** `to_hex`: six lower-case digits, two per channel, red first. */
  function ToHex(c: Rgb8): (s: string)
    ensures |s| == 6 && AllLowerHexDigits(s) && AllHexDigits(s)
    ensures HexValue(s[0..2]) == c.r && HexValue(s[2..4]) == c.g && HexValue(s[4..6]) == c.b
  {
    ToHexDigits(c);
    FormatHex(Pack24(c), 6)
  }

  lemma ToHexDigits(c: Rgb8)
    ensures var s := FormatHex(Pack24(c), 6);
      |s| == 6 && AllLowerHexDigits(s) && AllHexDigits(s)
      && HexValue(s[0..2]) == c.r && HexValue(s[2..4]) == c.g && HexValue(s[4..6]) == c.b
  {
    FormatHexFixed(Pack24(c), 6);
    var s := FormatHex(Pack24(c), 6);
    FixedHexValue(Pack24(c), 6);
    SixDigits(s);
    var x, y, z := HexValue(s[0..2]), HexValue(s[2..4]), HexValue(s[4..6]);
    SplitBase256(x, y, z, 0);
    SplitBase256(c.r, c.g, c.b, 0);
  }

  /** Decoding `to_hex` output through base 256 gives the colour back. */
  lemma ToHexDecodes(c: Rgb8)
    ensures ParseU32Hex(ToHex(c)) == Ok(Pack24(c))
    ensures SplitChannels(Pack24(c), 256) == c
  {
    var s := ToHex(c);
    ParseSix(s);
    FormatHexFixed(Pack24(c), 6);
    FixedHexValue(Pack24(c), 6);
    SplitPack24(c);
  }

  /** Re-encoding a decoded 6-digit string gives the string in lower case. */
  lemma ToHexOfDecoded(s: string)
    requires |s| == 6 && AllHexDigits(s)
    ensures AllHexDigits(s[0..2]) && AllHexDigits(s[2..4]) && AllHexDigits(s[4..6])
    ensures HexValue(s[0..2]) < 256 && HexValue(s[2..4]) < 256 && HexValue(s[4..6]) < 256
    ensures ToHex(Rgb8(HexValue(s[0..2]), HexValue(s[2..4]), HexValue(s[4..6]))) == Lower(s)
  {
    SixDigits(s);
    var c := Rgb8(HexValue(s[0..2]), HexValue(s[2..4]), HexValue(s[4..6]));
    assert Pack24(c) == HexValue(s);
    FormatHexFixed(HexValue(s), 6);
    FixedHexOfValue(s);
  }

  /**
   * The nibble `to_hex_short` keeps for a channel: `round(c / 255 * 15)`, cast to
   * `u32`. It is `(c + 8) / 17` in integers, and it is the nearest of the sixteen
   * levels `0, 17, ..., 255`.
   */
  function Level(c: u8): (n: nat)
    ensures n == (c + 8) / 17 && n < 16
    ensures forall k :: 0 <= k < 16 ==> LevelDistance(n, c) <= LevelDistance(k, c)
  {
    LevelIsNearest(c);
    CastUnsigned(Round(Fin(c as real / 255.0 * 15.0)), U32_MAX)
  }

  /** How far level `k` (the byte `17 * k`) lies from the byte `c`. */
  function LevelDistance(k: int, c: int): nat {
    if 17 * k >= c then 17 * k - c else c - 17 * k
  }

  lemma LevelIsNearest(c: u8)
    ensures var n := CastUnsigned(Round(Fin(c as real / 255.0 * 15.0)), U32_MAX);
      n == (c + 8) / 17 && n < 16
      && forall k :: 0 <= k < 16 ==> LevelDistance(n, c) <= LevelDistance(k, c)
  {
    var k := (c + 8) / 17;
    var x := c as real / 255.0 * 15.0;
    assert x == c as real / 17.0;
    assert 17 * k <= c + 8 < 17 * k + 17;
    FloorIs(x + 0.5, k);
    assert RoundHalfAway(x) == k;
    assert LevelDistance(k, c) <= 8;
  }

  /** `to_hex_short`: three lower-case digits, the nearest level of each channel. */
  function ToHexShort(c: Rgb8): (s: string)
    ensures |s| == 3 && AllLowerHexDigits(s) && AllHexDigits(s)
    ensures DigitValue(s[0]) == Level(c.r) && DigitValue(s[1]) == Level(c.g) && DigitValue(s[2]) == Level(c.b)
    ensures s == [HexChar(Level(c.r)), HexChar(Level(c.g)), HexChar(Level(c.b))]
  {
    ToHexShortDigits(c);
    FormatHex(Level(c.r) * 0x100 + Level(c.g) * 0x10 + Level(c.b), 3)
  }

  lemma ToHexShortDigits(c: Rgb8)
    ensures var s := FormatHex(Level(c.r) * 0x100 + Level(c.g) * 0x10 + Level(c.b), 3);
      |s| == 3 && AllLowerHexDigits(s) && AllHexDigits(s)
      && s == [HexChar(Level(c.r)), HexChar(Level(c.g)), HexChar(Level(c.b))]
  {
    var n := Level(c.r) * 0x100 + Level(c.g) * 0x10 + Level(c.b);
    assert Pow(16, 3) == 0x1000;
    FormatHexFixed(n, 3);
    ThreeNibbles(n, Level(c.r), Level(c.g), Level(c.b));
  }

  lemma ThreeNibbles(n: nat, x: nat, y: nat, z: nat)
    requires x < 16 && y < 16 && z < 16 && n == x * 0x100 + y * 0x10 + z
    ensures FixedHex(n, 3) == [HexChar(x), HexChar(y), HexChar(z)]
  {
    var m := x * 0x10 + y;
    assert n / 16 == m && n % 16 == z;
    assert m / 16 == x && m % 16 == y;
    assert x / 16 == 0 && x % 16 == x;
    var cx, cy, cz := HexChar(x), HexChar(y), HexChar(z);
    assert FixedHex(x, 1) == [cx];
    assert FixedHex(m, 2) == [cx] + [cy];
    assert FixedHex(n, 3) == [cx] + [cy] + [cz];
  }

  /** A channel stretched from a nibble keeps that nibble as its level. */
  lemma LevelOfStretched(d: nat)
    requires d < 16
    ensures Level(17 * d) == d
  {
  }

  /** Shortening the colour of three stretched nibbles prints those nibbles. */
  lemma ToHexShortOfNibbles(x: nat, y: nat, z: nat)
    requires x < 16 && y < 16 && z < 16
    ensures ToHexShort(Rgb8(17 * x, 17 * y, 17 * z)) == [HexChar(x), HexChar(y), HexChar(z)]
  {
    LevelOfStretched(x);
    LevelOfStretched(y);
    LevelOfStretched(z);
  }

  /** Shortening a colour decoded from 3 digits gives those digits in lower case. */
  lemma ToHexShortOfDecoded(s: string)
    requires |s| == 3 && AllHexDigits(s)
    ensures ToHexShort(Rgb8(17 * DigitValue(s[0]), 17 * DigitValue(s[1]), 17 * DigitValue(s[2]))) == Lower(s)
  {
    ToHexShortOfNibbles(DigitValue(s[0]), DigitValue(s[1]), DigitValue(s[2]));
    LowerOfThree(s);
  }

  lemma LowerOfThree(s: string)
    requires |s| == 3 && AllHexDigits(s)
    ensures Lower(s) == [HexChar(DigitValue(s[0])), HexChar(DigitValue(s[1])), HexChar(DigitValue(s[2]))]
  {
    var l := Lower(s);
    assert l[0] == HexChar(DigitValue(s[0])) && l[1] == HexChar(DigitValue(s[1])) && l[2] == HexChar(DigitValue(s[2]));
  }

  // ---------------------------------------------------------------- what decoders return

  /** The channels a 6-digit string names: its three byte pairs, red first. */
  predicate PairsOf(hex: string, c: Rgb8)
    requires |hex| == 6
  {
    c.r == HexValue(hex[0..2]) && c.g == HexValue(hex[2..4]) && c.b == HexValue(hex[4..6])
  }

  /** The channels a 3-digit string names: each digit stretched by 17. */
  predicate NibblesOf(hex: string, c: Rgb8)
    requires |hex| == 3
  {
    c.r == 17 * DigitValue(hex[0]) && c.g == 17 * DigitValue(hex[1]) && c.b == 17 * DigitValue(hex[2])
  }

  /** What parsing and splitting make of strings of six or three digits. */
  lemma HexForms(hex: string)
    ensures |hex| == 6 && AllHexDigits(hex) ==>
      ParseU32Hex(hex) == Ok(HexValue(hex)) && PairsOf(hex, SplitChannels(HexValue(hex), 256))
    ensures |hex| == 3 && AllHexDigits(hex) ==>
      ParseU32Hex(hex) == Ok(HexValue(hex)) && NibblesOf(hex, SplitChannels(HexValue(hex), 16))
  {
    if |hex| == 6 && AllHexDigits(hex) {
      ParseSix(hex);
      DecodeSix(hex);
    }
    if |hex| == 3 && AllHexDigits(hex) {
      ParseThree(hex);
      DecodeThree(hex);
    }
  }

  /** A leading `+` parses like a leading zero digit. */
  lemma LeadingPlus(s: string)
    requires |s| > 0 && AllHexDigits(s)
    ensures ParseU32Hex(['+'] + s) == ParseU32Hex(['0'] + s)
  {
    assert Unsigned(['+'] + s) == s;
    assert Unsigned(['0'] + s) == ['0'] + s;
    assert AllHexDigits(['0']) && HexValue(['0']) == 0;
    HexValueAppend(['0'], s);
    assert HexValue(['0'] + s) == HexValue(s);
    assert AllHexDigits(Unsigned(['0'] + s));
  }

  // ---------------------------------------------------------------- worked examples

  /** Pairs of digits written out: the colour a 6-digit example names. */
  lemma PairsExample(hex: string, c: Rgb8, d: Rgb8)
    requires |hex| == 6 && AllHexDigits(hex)
    requires c.r == DigitValue(hex[0]) * 16 + DigitValue(hex[1])
    requires c.g == DigitValue(hex[2]) * 16 + DigitValue(hex[3])
    requires c.b == DigitValue(hex[4]) * 16 + DigitValue(hex[5])
    requires PairsOf(hex, d)
    ensures d == c
  {
    TwoDigits(hex[0..2]);
    TwoDigits(hex[2..4]);
    TwoDigits(hex[4..6]);
  }

  /** The six digits `to_hex` prints for a colour given digit by digit. */
  lemma EncodeExample(hex: string, c: Rgb8)
    requires |hex| == 6 && AllLowerHexDigits(hex) && AllHexDigits(hex)
    requires c.r == DigitValue(hex[0]) * 16 + DigitValue(hex[1])
    requires c.g == DigitValue(hex[2]) * 16 + DigitValue(hex[3])
    requires c.b == DigitValue(hex[4]) * 16 + DigitValue(hex[5])
    ensures ToHex(c) == hex
  {
    TwoDigits(hex[0..2]);
    TwoDigits(hex[2..4]);
    TwoDigits(hex[4..6]);
    ToHexOfDecoded(hex);
    assert c == Rgb8(HexValue(hex[0..2]), HexValue(hex[2..4]), HexValue(hex[4..6]));
    LowerOfLower(hex);
  }

  /** The shortening of `#a0c4ed`: the levels 9, 12 and 14. */
  lemma ShortOfA0C4ED()
    ensures ToHexShort(Rgb8(160, 196, 237)) == "9ce"
  {
    ShortExample(Rgb8(160, 196, 237), "9ce");
  }

  /** The shortening of `#f0f0f0`: level 14 for each channel. */
  lemma ShortOfF0F0F0()
    ensures ToHexShort(Rgb8(240, 240, 240)) == "eee"
  {
    ShortExample(Rgb8(240, 240, 240), "eee");
  }

  /** The encoding of the decoded `#f39`. */
  lemma EncodeFF3399()
    ensures ToHex(Rgb8(255, 51, 153)) == "ff3399"
  {
    EncodeExample("ff3399", Rgb8(255, 51, 153));
  }

  /** The three digits `to_hex_short` prints, given level by level. */
  lemma ShortExample(c: Rgb8, hex: string)
    requires |hex| == 3 && AllLowerHexDigits(hex)
    requires DigitValue(hex[0]) == Level(c.r) && DigitValue(hex[1]) == Level(c.g) && DigitValue(hex[2]) == Level(c.b)
    ensures ToHexShort(c) == hex
  {
    HexCharOfLower(hex[0]);
    HexCharOfLower(hex[1]);
    HexCharOfLower(hex[2]);
    assert hex == [hex[0], hex[1], hex[2]];
  }
}
