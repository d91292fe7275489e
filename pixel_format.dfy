/** Android's packed ARGB_8888 colour values, held in a Java `int`, and the
    channel extraction `(value >> s) & 0xFF` that the preprocessing loop applies
    to them. Everything is stated over mathematical integers with the Java
    semantics written out: `>>` is the sign-extending shift and `& 0xFF` keeps
    the low byte of the two's complement representation. */
module PixelFormat {

  /** A Java `int`: a 32-bit two's complement value. */
  type Int32 = x: int | -0x8000_0000 <= x < 0x8000_0000

  /** One colour channel, a byte read as an unsigned value. */
  type Channel = c: int | 0 <= c < 256

  /** Java's `n >> s` on an `int`, for the three distances a packed colour
      uses: the shift copies the sign bit into the vacated positions, which
      makes the result floor(n / 2^s) (section 15.19 of the Java Language
      Specification). Dafny's `/` by a positive divisor rounds towards
      negative infinity as well. */
  function ShiftRight(n: Int32, s: nat): (r: Int32)
    requires s == 8 || s == 16 || s == 24
    ensures r < 0 <==> n < 0
  {
    if s == 8 then n / 0x100
    else if s == 16 then n / 0x1_0000
    else n / 0x100_0000
  }

  /** Java's `x & 0xFF`: the low eight bits of the two's complement
      representation, a value in 0..255 even for negative `x`. */
  function LowByte(x: Int32): (b: Channel)
    ensures (x - b) % 0x100 == 0
  {
    x % 0x100
  }

  /** The low 24 bits of a pixel: everything but the alpha byte. */
  function Rgb24(v: Int32): (u: int)
    ensures 0 <= u < 0x100_0000
  {
    v % 0x100_0000
  }

  /** `(value >> 16) & 0xFF`: bits 16..23, the red channel. */
  function Red(v: Int32): (r: Channel)
    ensures r == Rgb24(v) / 0x1_0000
  {
    ShiftThenMask(v, 0x1_0000);
    LowByte(ShiftRight(v, 16))
  }

  /** `(value >> 8) & 0xFF`: bits 8..15, the green channel. */
  function Green(v: Int32): (g: Channel)
    ensures g == (Rgb24(v) / 0x100) % 0x100
  {
    ShiftThenMask(v, 0x100);
    ShiftThenMask(Rgb24(v), 0x100);
    ModOfMod(v, 0x1_0000);
    LowByte(ShiftRight(v, 8))
  }

  /** `value & 0xFF`: bits 0..7, the blue channel. */
  function Blue(v: Int32): (b: Channel)
    ensures b == Rgb24(v) % 0x100
  {
    ModOfMod(v, 0x100);
    LowByte(v)
  }

  /** `(value >> 24) & 0xFF`: bits 24..31, the alpha channel, which the
      preprocessing never reads. */
  function Alpha(v: Int32): (a: Channel)
    ensures a == (v - Rgb24(v)) / 0x100_0000 % 0x100
  {
    DivUnique(v, 0x100_0000, v / 0x100_0000, Rgb24(v));
    DivUnique(v - Rgb24(v), 0x100_0000, v / 0x100_0000, 0);
    LowByte(ShiftRight(v, 24))
  }

  /** Division by one of the channel strides, with a remainder below the
      stride, has one answer. */
  lemma DivUnique(x: int, m: int, q: int, r: int)
    requires m == 0x100 || m == 0x1_0000 || m == 0x100_0000
    requires 0 <= r < m && x == q * m + r
    ensures x / m == q && x % m == r
  {
    if m == 0x100 {
    } else if m == 0x1_0000 {
    } else {
    }
  }

  /** Shifting right by `m` and then keeping one byte is the same as keeping
      the low `m * 0x100` values and then shifting. */
  lemma ShiftThenMask(x: int, m: int)
    requires m == 0x100 || m == 0x1_0000
    ensures (x / m) % 0x100 == (x % (m * 0x100)) / m
  {
    if m == 0x100 {
    } else {
    }
  }

  /** Dropping the alpha byte leaves the lower bytes as they were. */
  lemma ModOfMod(x: int, m: int)
    requires m == 0x100 || m == 0x1_0000
    ensures (x % 0x100_0000) % m == x % m
  {
    if m == 0x100 {
    } else {
    }
  }

  /** Channel `c` of a pixel in the order the tensor stores them: 0 red,
      1 green, 2 blue. */
  function ChannelOf(v: Int32, c: nat): Channel
    requires c < 3
  {
    if c == 0 then Red(v) else if c == 1 then Green(v) else Blue(v)
  }

  /** The colour int of the ARGB_8888 format: alpha in the top byte, then red,
      green and blue, read back as a signed Java `int`. */
  function Pack(a: Channel, r: Channel, g: Channel, b: Channel): Int32
  {
    var u := a * 0x100_0000 + r * 0x1_0000 + g * 0x100 + b;
    if u < 0x8000_0000 then u else u - 0x1_0000_0000
  }

  /** Unpacking recovers every channel that was packed. */
  lemma UnpackPack(a: Channel, r: Channel, g: Channel, b: Channel)
    ensures Alpha(Pack(a, r, g, b)) == a
    ensures Red(Pack(a, r, g, b)) == r
    ensures Green(Pack(a, r, g, b)) == g
    ensures Blue(Pack(a, r, g, b)) == b
  {
    var v := Pack(a, r, g, b);
    var low := r * 0x1_0000 + g * 0x100 + b;
    var high := if a < 0x80 then a else a - 0x100;
    assert v == high * 0x100_0000 + low;
    DivUnique(v, 0x100_0000, high, low);
    assert Rgb24(v) == low;
    DivUnique(v - low, 0x100_0000, high, 0);
    DivUnique(high, 0x100, if a < 0x80 then 0 else -1, a);
    DivUnique(low, 0x1_0000, r, g * 0x100 + b);
    DivUnique(low, 0x100, r * 0x100 + g, b);
    DivUnique(r * 0x100 + g, 0x100, r, g);
  }

  /** Every Java `int` is the packing of its four channels, so the four
      extractions lose nothing. */
  lemma PackUnpack(v: Int32)
    ensures Pack(Alpha(v), Red(v), Green(v), Blue(v)) == v
  {
    ColourBytes(v);
    AlphaByte(v);
  }

  /** The three colour bytes make up the low 24 bits. */
  lemma ColourBytes(v: Int32)
    ensures Rgb24(v) == Red(v) * 0x1_0000 + Green(v) * 0x100 + Blue(v)
  {
    SplitBytes(Rgb24(v));
  }

  /** A 24-bit value is the sum of its three bytes. */
  lemma SplitBytes(x: int)
    requires 0 <= x < 0x100_0000
    ensures x == (x / 0x1_0000) * 0x1_0000 + ((x / 0x100) % 0x100) * 0x100 + x % 0x100
  {
    var mid := x % 0x1_0000;
    ShiftThenMask(x, 0x100);
    assert x == (x / 0x1_0000) * 0x1_0000 + mid;
    assert mid == (mid / 0x100) * 0x100 + mid % 0x100;
  }

  /** The alpha byte is the top byte of the two's complement representation. */
  lemma AlphaByte(v: Int32)
    ensures v == (if v < 0 then Alpha(v) - 0x100 else Alpha(v)) * 0x100_0000 + Rgb24(v)
  {
    var high := v / 0x100_0000;
    DivUnique(v - Rgb24(v), 0x100_0000, high, 0);
    if v >= 0 {
      DivUnique(high, 0x100, 0, high);
    } else {
      DivUnique(high, 0x100, -1, high + 0x100);
    }
  }

  /** Two pixels whose low 24 bits agree, that is, which differ at most in
      their alpha byte, yield the same red, green and blue. */
  lemma AlphaIgnored(v: Int32, w: Int32)
    requires Rgb24(v) == Rgb24(w)
    ensures Red(v) == Red(w) && Green(v) == Green(w) && Blue(v) == Blue(w)
  {
  }

  /** Changing only the alpha byte of a packed colour changes none of its
      colour channels. */
  lemma {:induction false} AlphaIgnoredPacked(a1: Channel, a2: Channel, r: Channel, g: Channel, b: Channel)
    ensures Red(Pack(a1, r, g, b)) == Red(Pack(a2, r, g, b)) == r
    ensures Green(Pack(a1, r, g, b)) == Green(Pack(a2, r, g, b)) == g
    ensures Blue(Pack(a1, r, g, b)) == Blue(Pack(a2, r, g, b)) == b
  {
    UnpackPack(a1, r, g, b);
    UnpackPack(a2, r, g, b);
  }
}
