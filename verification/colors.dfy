/**
  The packed colour value types: ColorBgr24, ColorBgr32, ColorBgra32 and
  ColorIndexed8. Each struct stores its components at consecutive byte offsets
  (B at 0, G at 1, R at 2, then X or A at 3), so the packed integer that
  equality and hashing use is the little-endian number formed from those bytes.
 */
module Colors {
  import opened Int32Util

  datatype ColorBgr24 = ColorBgr24(b: byte, g: byte, r: byte)

  datatype ColorBgr32 = ColorBgr32(b: byte, g: byte, r: byte, x: byte)

  datatype ColorBgra32 = ColorBgra32(b: byte, g: byte, r: byte, a: byte)

  datatype ColorIndexed8 = ColorIndexed8(value: byte)

  // ---------------------------------------------------------------- ColorBgr24

  /** ColorBgr24.Bgr: `b | g << 8 | r << 16`; the three bytes do not overlap, so OR is addition. */
  function Bgr(c: ColorBgr24): int {
    c.b + c.g * 0x100 + c.r * 0x1_0000
  }

  lemma BgrRange(c: ColorBgr24)
    ensures 0 <= Bgr(c) < 0x100_0000
    ensures Bgr(c) % 0x100 == c.b
    ensures Bgr(c) / 0x100 % 0x100 == c.g
    ensures Bgr(c) / 0x1_0000 == c.r
  {
  }

  /** ColorBgr24.FromBgr. */
  function FromBgr(b: byte, g: byte, r: byte): (c: ColorBgr24)
    ensures c.b == b && c.g == g && c.r == r
  {
    ColorBgr24(b, g, r)
  }

  /** ColorBgr24.Equals compares the packed values. */
  predicate Bgr24Equals(c: ColorBgr24, d: ColorBgr24) {
    Bgr(c) == Bgr(d)
  }

  /** The packing is injective, so packed equality is componentwise equality. */
  lemma Bgr24EqualsIsComponentwise(c: ColorBgr24, d: ColorBgr24)
    ensures Bgr24Equals(c, d) <==> (c.b == d.b && c.g == d.g && c.r == d.r)
    ensures Bgr24Equals(c, d) <==> c == d
  {
    BgrRange(c);
    BgrRange(d);
  }

  /** ColorBgr24.GetHashCode returns the packed value, which always fits an int. */
  function Bgr24Hash(c: ColorBgr24): (h: int32)
    ensures Bgr24Equals(c, c) && h == Bgr(c)
  {
    BgrRange(c);
    Bgr(c)
  }

  lemma Bgr24HashRespectsEquals(c: ColorBgr24, d: ColorBgr24)
    requires Bgr24Equals(c, d)
    ensures Bgr24Hash(c) == Bgr24Hash(d)
  {
  }

  /** Explicit conversion ColorBgr32 -> ColorBgr24: keep B, G, R and drop X. */
  function Bgr24FromBgr32(c: ColorBgr32): (d: ColorBgr24)
    ensures d.b == c.b && d.g == c.g && d.r == c.r
  {
    FromBgr(c.b, c.g, c.r)
  }

  // ---------------------------------------------------------------- ColorBgr32

  /** ColorBgr32.Bgrx, the uint that overlays the four bytes. */
  function Bgrx(c: ColorBgr32): int {
    c.b + c.g * 0x100 + c.r * 0x1_0000 + c.x * 0x100_0000
  }

  /** ColorBgr32.FromBgrx. */
  function FromBgrx(b: byte, g: byte, r: byte, x: byte): (c: ColorBgr32)
    ensures c.b == b && c.g == g && c.r == r && c.x == x
  {
    ColorBgr32(b, g, r, x)
  }

  /** ColorBgr32.FromBgr sets the unused byte to 255. */
  function Bgr32FromBgr(b: byte, g: byte, r: byte): (c: ColorBgr32)
    ensures c.b == b && c.g == g && c.r == r && c.x == 255
  {
    ColorBgr32(b, g, r, 255)
  }

  /** Implicit conversion ColorBgr24 -> ColorBgr32 (via FromBgr). */
  function Bgr32FromBgr24(c: ColorBgr24): (d: ColorBgr32)
    ensures d.b == c.b && d.g == c.g && d.r == c.r && d.x == 255
  {
    Bgr32FromBgr(c.b, c.g, c.r)
  }

  /** Explicit conversion ColorBgra32 -> ColorBgr32 reinterprets the four bytes, so X takes A. */
  function Bgr32FromBgra32(c: ColorBgra32): (d: ColorBgr32)
    ensures d.b == c.b && d.g == c.g && d.r == c.r && d.x == c.a
    ensures Bgrx(d) == Bgra(c)
  {
    ColorBgr32(c.b, c.g, c.r, c.a)
  }

  /** ColorBgr32.Equals compares the packed uints. */
  predicate Bgr32Equals(c: ColorBgr32, d: ColorBgr32) {
    Bgrx(c) == Bgrx(d)
  }

  lemma Bgr32EqualsIsComponentwise(c: ColorBgr32, d: ColorBgr32)
    ensures Bgr32Equals(c, d) <==> c == d
  {
    if Bgr32Equals(c, d) {
      PackedBytes(c.b, c.g, c.r, c.x);
      PackedBytes(d.b, d.g, d.r, d.x);
    }
  }

  /** Converting Bgr24 -> Bgr32 -> Bgr24 gives back the original colour. */
  lemma Bgr24Bgr32RoundTrip(c: ColorBgr24)
    ensures Bgr24FromBgr32(Bgr32FromBgr24(c)) == c
  {
  }

  // ---------------------------------------------------------------- ColorBgra32

  /** ColorBgra32.Bgra, the uint that overlays the four bytes at offsets 0..3. */
  function Bgra(c: ColorBgra32): int {
    c.b + c.g * 0x100 + c.r * 0x1_0000 + c.a * 0x100_0000
  }

  /** ColorBgra32.FromBgra. */
  function FromBgra(b: byte, g: byte, r: byte, a: byte): (c: ColorBgra32)
    ensures c.b == b && c.g == g && c.r == r && c.a == a
  {
    ColorBgra32(b, g, r, a)
  }

  /** ColorBgra32.FromUInt32 reinterprets a uint as its four bytes, least significant first. */
  function FromUInt32(v: int): (c: ColorBgra32)
    requires 0 <= v <= UINT32_MAX
  {
    ColorBgra32(v % 0x100, v / 0x100 % 0x100, v / 0x100 / 0x100 % 0x100, v / 0x100 / 0x100 / 0x100)
  }

  /** The four bytes and the packed uint determine each other. */
  lemma PackedBytes(b: byte, g: byte, r: byte, a: byte)
    ensures var v := b + g * 0x100 + r * 0x1_0000 + a * 0x100_0000;
      && 0 <= v <= UINT32_MAX
      && v % 0x100 == b && v / 0x100 % 0x100 == g
      && v / 0x100 / 0x100 % 0x100 == r && v / 0x100 / 0x100 / 0x100 == a
  {
    var ra := r + 256 * a;
    var gra := g + 256 * ra;
    var v := b + 256 * gra;
    assert v == b + g * 0x100 + r * 0x1_0000 + a * 0x100_0000;
    DivMod256(b, gra, v);
    DivMod256(g, ra, gra);
    DivMod256(r, a, ra);
    DivMod256(a, 0, a);
  }

  lemma BgraFromUInt32RoundTrip(v: int, c: ColorBgra32)
    requires 0 <= v <= UINT32_MAX
    ensures Bgra(FromUInt32(v)) == v
    ensures 0 <= Bgra(c) <= UINT32_MAX && FromUInt32(Bgra(c)) == c
  {
    PackedBytes(c.b, c.g, c.r, c.a);
  }

  /** Implicit conversion ColorBgr32 -> ColorBgra32 reinterprets the bytes, so A takes X. */
  function Bgra32FromBgr32(c: ColorBgr32): (d: ColorBgra32)
    ensures d.b == c.b && d.g == c.g && d.r == c.r && d.a == c.x
  {
    ColorBgra32(c.b, c.g, c.r, c.x)
  }

  /** Implicit conversion ColorBgr24 -> ColorBgra32, which goes through ColorBgr32. */
  function Bgra32FromBgr24(c: ColorBgr24): (d: ColorBgra32)
    ensures d.b == c.b && d.g == c.g && d.r == c.r && d.a == 255
  {
    Bgra32FromBgr32(Bgr32FromBgr24(c))
  }

  /** The opaque projection a PaletteMap applies: `(ColorBgr24)(ColorBgr32)c`. */
  function Bgr24FromBgra32(c: ColorBgra32): (d: ColorBgr24)
    ensures d.b == c.b && d.g == c.g && d.r == c.r
  {
    Bgr24FromBgr32(Bgr32FromBgra32(c))
  }

  lemma Bgra32Bgr24RoundTrip(c: ColorBgr24, d: ColorBgra32)
    ensures Bgr24FromBgra32(Bgra32FromBgr24(c)) == c
    ensures d.a == 255 ==> Bgra32FromBgr24(Bgr24FromBgra32(d)) == d
  {
  }

  /** ColorBgra32.Equals compares the packed uints. */
  predicate Bgra32Equals(c: ColorBgra32, d: ColorBgra32) {
    Bgra(c) == Bgra(d)
  }

  lemma Bgra32EqualsIsComponentwise(c: ColorBgra32, d: ColorBgra32)
    ensures Bgra32Equals(c, d) <==> c == d
  {
    PackedBytes(c.b, c.g, c.r, c.a);
    PackedBytes(d.b, d.g, d.r, d.a);
  }

  /** ColorBgra32.GetHashCode: `unchecked((int)bgra)`, the uint reinterpreted as a signed int. */
  function Bgra32Hash(c: ColorBgra32): (h: int32)
    ensures c.a < 0x80 ==> h == Bgra(c)
    ensures c.a >= 0x80 ==> h == Bgra(c) - 0x1_0000_0000
  {
    PackedBytes(c.b, c.g, c.r, c.a);
    Wrap32(Bgra(c))
  }

  lemma Bgra32HashRespectsEquals(c: ColorBgra32, d: ColorBgra32)
    requires Bgra32Equals(c, d)
    ensures Bgra32Hash(c) == Bgra32Hash(d)
  {
  }

  // ---------------------------------------------------------------- ColorIndexed8

  /** ColorIndexed8.Zero is `default`, which wraps 0. */
  const Indexed8Zero: ColorIndexed8 := ColorIndexed8(0)

  /** Explicit conversion byte -> ColorIndexed8. */
  function Indexed8FromByte(v: byte): (c: ColorIndexed8)
    ensures c.value == v
  {
    ColorIndexed8(v)
  }

  /** Explicit conversion ColorIndexed8 -> byte. */
  function ByteFromIndexed8(c: ColorIndexed8): byte {
    c.value
  }

  lemma Indexed8RoundTrip(v: byte, c: ColorIndexed8)
    ensures ByteFromIndexed8(Indexed8FromByte(v)) == v
    ensures Indexed8FromByte(ByteFromIndexed8(c)) == c
  {
  }

  predicate Indexed8Equals(c: ColorIndexed8, d: ColorIndexed8) {
    c.value == d.value
  }

  /** ColorIndexed8.GetHashCode is the byte's own hash, which is the byte value. */
  function Indexed8Hash(c: ColorIndexed8): int32 {
    c.value
  }

  lemma Indexed8EqualsAndHash(c: ColorIndexed8, d: ColorIndexed8)
    ensures Indexed8Equals(c, d) <==> c == d
    ensures Indexed8Equals(c, d) ==> Indexed8Hash(c) == Indexed8Hash(d)
    ensures Indexed8Zero.value == 0
  {
  }

  // ---------------------------------------------------------------- named colours

  /** Colors.Black: `FromUInt32(0xFF000000)`. */
  function Black(): (c: ColorBgra32)
    ensures c == ColorBgra32(0, 0, 0, 255)
  {
    PackedBytes(0, 0, 0, 255);
    FromUInt32(0xFF00_0000)
  }

  /** Colors.TransparentBlack and Colors.Zero are both `default`: every byte 0. */
  const TransparentBlack: ColorBgra32 := ColorBgra32(0, 0, 0, 0)
  const Zero: ColorBgra32 := ColorBgra32(0, 0, 0, 0)

  // ---------------------------------------------------------------- ToString

  function HexDigit(d: int): (ch: char)
    requires 0 <= d < 16
  {
    if d < 10 then ('0' as int + d) as char else ('A' as int + d - 10) as char
  }

  /** `value.ToString("X<n>")` for a value that fits n hex digits: upper-case, zero-padded. */
  function HexString(value: nat, digits: nat): (s: string)
    ensures |s| == digits
    decreases digits
  {
    if digits == 0 then ""
    else HexString(value / 16, digits - 1) + [HexDigit(value % 16)]
  }

  /** Two upper-case hex digits of a byte. */
  function HexByte(v: byte): string {
    [HexDigit(v / 16), HexDigit(v % 16)]
  }

  /** ColorBgr24.ToString: "#" followed by the six hex digits of Bgr. */
  function Bgr24ToString(c: ColorBgr24): string {
    "#" + HexString(Bgr(c), 6)
  }

  /** ColorBgra32.ToString: "#" followed by the eight hex digits of Bgra. */
  function Bgra32ToString(c: ColorBgra32): string {
    "#" + HexString(Bgra(c), 8)
  }

  /** Appending the two hex digits of the low byte to the higher digits. */
  lemma HexStringSplit(value: nat, digits: nat)
    requires digits >= 2
    ensures HexString(value, digits) == HexString(value / 256, digits - 2) + HexByte(value % 256)
  {
    assert value / 16 / 16 == value / 256;
    assert value / 16 % 16 == value % 256 / 16;
    assert value % 16 == value % 256 % 16;
  }

  lemma DivMod256(low: byte, high: nat, v: nat)
    requires v == low + 256 * high
    ensures v / 256 == high && v % 256 == low
  {
  }

  /** Two hex digits print one byte. */
  lemma HexString2(v: byte)
    ensures HexString(v, 2) == HexByte(v)
  {
    HexStringSplit(v, 2);
    assert v / 256 == 0;
  }

  /** Four hex digits print the high byte, then the low byte. */
  lemma HexString4(hi: byte, lo: byte, v: nat)
    requires v == lo + 256 * hi
    ensures HexString(v, 4) == HexByte(hi) + HexByte(lo)
  {
    DivMod256(lo, hi, v);
    HexStringSplit(v, 4);
    HexString2(hi);
  }

  /** Six hex digits print three bytes, most significant first. */
  lemma HexString6(b2: byte, b1: byte, b0: byte, v: nat)
    requires v == b0 + 256 * (b1 + 256 * b2)
    ensures HexString(v, 6) == HexByte(b2) + HexByte(b1) + HexByte(b0)
  {
    DivMod256(b0, b1 + 256 * b2, v);
    HexStringSplit(v, 6);
    HexString4(b2, b1, v / 256);
  }

  /** Eight hex digits print four bytes, most significant first. */
  lemma HexString8(b3: byte, b2: byte, b1: byte, b0: byte, v: nat)
    requires v == b0 + 256 * (b1 + 256 * (b2 + 256 * b3))
    ensures HexString(v, 8) == HexByte(b3) + HexByte(b2) + HexByte(b1) + HexByte(b0)
  {
    DivMod256(b0, b1 + 256 * (b2 + 256 * b3), v);
    HexStringSplit(v, 8);
    HexString6(b3, b2, b1, v / 256);
  }

  /** The packed Bgr is printed as #RRGGBB: red first, blue last. */
  lemma Bgr24ToStringIsRGB(c: ColorBgr24)
    ensures |Bgr24ToString(c)| == 7
    ensures Bgr24ToString(c) == "#" + HexByte(c.r) + HexByte(c.g) + HexByte(c.b)
  {
    HexString6(c.r, c.g, c.b, Bgr(c));
  }

  /** The packed Bgra is printed as #AARRGGBB. */
  lemma Bgra32ToStringIsARGB(c: ColorBgra32)
    ensures |Bgra32ToString(c)| == 9
    ensures Bgra32ToString(c) == "#" + HexByte(c.a) + HexByte(c.r) + HexByte(c.g) + HexByte(c.b)
  {
    HexString8(c.a, c.r, c.g, c.b, Bgra(c));
  }

  /** Distinct colours print differently, because hex digits are distinct per nibble. */
  lemma HexByteInjective(u: byte, v: byte)
    requires HexByte(u) == HexByte(v)
    ensures u == v
  {
    assert HexByte(u)[0] == HexByte(v)[0];
    assert HexByte(u)[1] == HexByte(v)[1];
  }
}

/** ColorComponentUtil: widening and narrowing of 8-bit and 16-bit channel values. */
module ColorComponentUtil {
  import opened Int32Util

  /** `(ushort)(c | c << 8)`: the byte repeated in both halves of a ushort. */
  function Convert8UTo16U(c: byte): (v: int)
    ensures 0 <= v <= 0xffff
    ensures v == c * 257
    ensures v % 256 == c && v / 256 == c
  {
    c + c * 256
  }

  /** `(byte)(v >> 8)`: the high byte of a ushort. */
  function Convert16UTo8U(v: int): (c: byte)
    requires 0 <= v <= 0xffff
    ensures c * 256 <= v < (c + 1) * 256
  {
    v / 256
  }

  lemma Convert8To16RoundTrip(c: byte)
    ensures Convert16UTo8U(Convert8UTo16U(c)) == c
  {
  }

  lemma Convert8UTo16UStrictlyMonotone(c: byte, d: byte)
    ensures c < d ==> Convert8UTo16U(c) < Convert8UTo16U(d)
    ensures Convert8UTo16U(0) == 0 && Convert8UTo16U(255) == 0xffff
  {
  }
}

/** ColorBgr24Util: squared Euclidean distance in BGR space. */
module ColorBgr24Util {
  import opened Int32Util
  import opened Colors

  /** ColorBgr24Util.GetDistanceSquared: the squared Euclidean distance between two colours. */
  function DistanceSquared(a: ColorBgr24, c: ColorBgr24): (d: int)
    ensures 0 <= d <= 3 * 255 * 255
  {
    var db := a.b - c.b;
    var dg := a.g - c.g;
    var dr := a.r - c.r;
    SquareBounds(db);
    SquareBounds(dg);
    SquareBounds(dr);
    db * db + dg * dg + dr * dr
  }

  lemma SquareBounds(x: int)
    requires -255 <= x <= 255
    ensures 0 <= x * x <= 255 * 255
    ensures x * x == 0 <==> x == 0
  {
    var y := if x < 0 then -x else x;
    assert x * x == y * y;
    MulNonneg(255 - y, 255 + y);
    if y > 0 {
      MulNonneg(y - 1, y);
    }
  }

  lemma MulNonneg(a: int, b: int)
    requires a >= 0 && b >= 0
    ensures a * b >= 0
  {
  }

  /** The distance is a symmetric function that vanishes exactly on equal colours. */
  lemma DistanceSquaredMetric(a: ColorBgr24, c: ColorBgr24)
    ensures DistanceSquared(a, c) == DistanceSquared(c, a)
    ensures DistanceSquared(a, c) == 0 <==> a == c
  {
    SquareBounds(a.b - c.b);
    SquareBounds(a.g - c.g);
    SquareBounds(a.r - c.r);
    assert (a.b - c.b) * (a.b - c.b) == (c.b - a.b) * (c.b - a.b);
    assert (a.g - c.g) * (a.g - c.g) == (c.g - a.g) * (c.g - a.g);
    assert (a.r - c.r) * (a.r - c.r) == (c.r - a.r) * (c.r - a.r);
  }
}
