/**
  PixelFormat, the per-format byte size and the checked buffer-size arithmetic
  of BitmapUtil.
 */
module PixelFormat {
  import opened Int32Util
  import opened Wrappers

  /**
    A C# enum is an int underneath, and any int converts to it, so a format is
    modelled as its int code: the declared members are 0..5 in declaration order.
   */
  type PixelFormatCode = int32

  const Indexed8: PixelFormatCode := 0
  const Bgr24: PixelFormatCode := 1
  const Bgr32: PixelFormatCode := 2
  const Bgra32: PixelFormatCode := 3
  const Bgr48: PixelFormatCode := 4
  const Rgb96Float: PixelFormatCode := 5

  predicate IsDeclared(format: PixelFormatCode) {
    0 <= format <= 5
  }

  /** PixelFormatExtensions.GetBytesPerPixel. */
  function GetBytesPerPixel(format: PixelFormatCode): (r: Result<int>)
    ensures r.Ok? <==> IsDeclared(format)
    ensures r.Err? ==> r.error == InvalidEnumArgument
    ensures r.Ok? ==> r.value > 0
  {
    if format == Indexed8 then Ok(1)
    else if format == Bgr24 then Ok(3)
    else if format == Bgr32 then Ok(4)
    else if format == Bgr48 then Ok(6)
    else if format == Bgra32 then Ok(4)
    else if format == Rgb96Float then Ok(12)
    else Err(InvalidEnumArgument)
  }

  /** The pixel structs, each of which reports its own bit and byte size. */
  datatype PixelType = ColorIndexed8 | ColorBgr24 | ColorBgr32 | ColorBgra32 | ColorBgr48 | ColorRgb96Float

  /** IPixelInfo.BitsPerPixel of each pixel struct. */
  function BitsPerPixel(t: PixelType): int {
    match t
    case ColorIndexed8 => 8
    case ColorBgr24 => 24
    case ColorBgr32 => 32
    case ColorBgra32 => 32
    case ColorBgr48 => 48
    case ColorRgb96Float => 96
  }

  /** INaturalPixelInfo.BytesPerPixel of each pixel struct. */
  function BytesPerPixel(t: PixelType): int {
    match t
    case ColorIndexed8 => 1
    case ColorBgr24 => 3
    case ColorBgr32 => 4
    case ColorBgra32 => 4
    case ColorBgr48 => 6
    case ColorRgb96Float => 12
  }

  /** The format a pixel struct belongs to. */
  function FormatOf(t: PixelType): PixelFormatCode {
    match t
    case ColorIndexed8 => Indexed8
    case ColorBgr24 => Bgr24
    case ColorBgr32 => Bgr32
    case ColorBgra32 => Bgra32
    case ColorBgr48 => Bgr48
    case ColorRgb96Float => Rgb96Float
  }

  /** The enum switch agrees with each pixel struct's own size, which is a whole number of bytes. */
  lemma BytesPerPixelAgrees(t: PixelType)
    ensures IsDeclared(FormatOf(t))
    ensures GetBytesPerPixel(FormatOf(t)) == Ok(BytesPerPixel(t))
    ensures BitsPerPixel(t) == 8 * BytesPerPixel(t)
  {
  }

  /** Every declared format is the format of some pixel struct. */
  lemma DeclaredFormatsHavePixelTypes(format: PixelFormatCode)
    requires IsDeclared(format)
    ensures exists t :: FormatOf(t) == format
  {
    var t :=
      if format == 0 then ColorIndexed8
      else if format == 1 then ColorBgr24
      else if format == 2 then ColorBgr32
      else if format == 3 then ColorBgra32
      else if format == 4 then ColorBgr48
      else ColorRgb96Float;
    assert FormatOf(t) == format;
  }
}

/** BitmapUtil: the size in bytes of a pixel buffer. */
module BitmapUtil {
  import opened Int32Util
  import opened Wrappers
  import PixelFormat

  /** C# integer division, which truncates toward zero. */
  function TruncDiv(n: int, d: int): (q: int)
    requires d > 0
    ensures n >= 0 ==> q == n / d
    ensures n < 0 ==> q == -((-n) / d)
  {
    if n >= 0 then n / d else -((-n) / d)
  }

  /** The 64-bit value BitmapUtil computes before the checked cast to uint. */
  function BufferSizeLong(width: int32, height: int32, stride: int32, bitsPerPixel: int32): int {
    (height - 1) * stride + TruncDiv(width * bitsPerPixel + 7, 8)
  }

  /**
    BitmapUtil.GetBufferSizeChecked: all rows but the last take `stride` bytes,
    the last takes the bytes its pixels need; the uint cast is `checked`.
   */
  function GetBufferSizeChecked(width: int32, height: int32, stride: int32, bitsPerPixel: int32): (r: Result<int>)
    ensures r.Ok? <==> 0 <= BufferSizeLong(width, height, stride, bitsPerPixel) <= UINT32_MAX
    ensures r.Ok? ==> r.value == BufferSizeLong(width, height, stride, bitsPerPixel)
    ensures r.Err? ==> r.error == Overflow
  {
    var size := BufferSizeLong(width, height, stride, bitsPerPixel);
    if 0 <= size <= UINT32_MAX then Ok(size) else Err(Overflow)
  }

  /** Each intermediate value fits a C# long, so only the final cast can overflow. */
  lemma BufferSizeFitsInt64(width: int32, height: int32, stride: int32, bitsPerPixel: int32)
    ensures IsInt64((height - 1) * stride)
    ensures IsInt64(width * bitsPerPixel + 7)
    ensures IsInt64(BufferSizeLong(width, height, stride, bitsPerPixel))
  {
    ProductBound(height - 1, stride);
    ProductBound(width, bitsPerPixel);
  }

  lemma ProductBound(a: int, b: int)
    requires -0x8000_0001 <= a <= 0x8000_0000 && -0x8000_0001 <= b <= 0x8000_0000
    ensures -0x4000_0001_0000_0000 <= a * b <= 0x4000_0001_0000_0001
  {
    var ua := if a < 0 then -a else a;
    var ub := if b < 0 then -b else b;
    assert ua * ub <= 0x8000_0001 * ub by {
      MulLe(ua, 0x8000_0001, ub);
    }
    assert 0x8000_0001 * ub <= 0x8000_0001 * 0x8000_0001 by {
      MulLe(ub, 0x8000_0001, 0x8000_0001);
    }
    assert a * b == ua * ub || a * b == -(ua * ub);
  }

  lemma MulLe(a: int, b: int, c: int)
    requires 0 <= a <= b && c >= 0
    ensures a * c <= b * c
  {
  }

  /** For a non-negative pixel row, the last row takes ceil(width * bpp / 8) bytes. */
  lemma LastRowIsCeiling(width: int32, bitsPerPixel: int32)
    requires width * bitsPerPixel >= 0
    ensures var q := TruncDiv(width * bitsPerPixel + 7, 8);
      8 * q >= width * bitsPerPixel && 8 * (q - 1) < width * bitsPerPixel
  {
  }

  /** With one row the stride does not matter. */
  lemma SingleRowIgnoresStride(width: int32, stride1: int32, stride2: int32, bitsPerPixel: int32)
    ensures GetBufferSizeChecked(width, 1, stride1, bitsPerPixel) == GetBufferSizeChecked(width, 1, stride2, bitsPerPixel)
  {
  }

  /**
    The generic overload: the bit count comes from the pixel struct. Every
    pixel struct is a whole number of bytes, so the last row is exactly
    width * BytesPerPixel bytes.
   */
  function GetBufferSizeCheckedFor(t: PixelFormat.PixelType, width: int32, height: int32, stride: int32): (r: Result<int>)
    ensures width >= 0 ==>
      (r.Ok? <==> 0 <= (height - 1) * stride + width * PixelFormat.BytesPerPixel(t) <= UINT32_MAX)
    ensures width >= 0 && r.Ok? ==> r.value == (height - 1) * stride + width * PixelFormat.BytesPerPixel(t)
    ensures r.Err? ==> r.error == Overflow
  {
    PixelFormat.BytesPerPixelAgrees(t);
    var bytes := PixelFormat.BytesPerPixel(t);
    assert width >= 0 ==> TruncDiv(width * PixelFormat.BitsPerPixel(t) + 7, 8) == width * bytes by {
      if width >= 0 {
        assert width * PixelFormat.BitsPerPixel(t) == 8 * (width * bytes);
      }
    }
    GetBufferSizeChecked(width, height, stride, PixelFormat.BitsPerPixel(t))
  }
}
