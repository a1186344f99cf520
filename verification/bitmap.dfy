/**
  The part of IBitmapSource that the pixel sources share: a bitmap of some
  pixel type, and CopyPixels' rule that a missing rectangle means the whole
  bitmap. A bitmap is a sequence of rows of `width` pixels each; the caller's
  buffer, its stride and the pointer arithmetic are abstracted to one
  sequence per buffer row.
 */
module Bitmaps {
  import opened Wrappers
  import opened Int32Util
  import Geometry

  /** `rows[y][x]` is the pixel at column x of row y. */
  datatype Bitmap<T> = Bitmap(width: nat, rows: seq<seq<T>>)

  /** Every row has the bitmap's width, and both dimensions fit an int. */
  predicate WellFormed<T>(img: Bitmap<T>) {
    && img.width <= INT32_MAX
    && |img.rows| <= INT32_MAX
    && (forall y :: 0 <= y < |img.rows| ==> |img.rows[y]| == img.width)
  }

  /** new RectInt32(Point2Int32.Zero, this.Size). */
  function FullRect<T>(img: Bitmap<T>): (rect: Geometry.RectInt32)
    requires WellFormed(img)
    ensures Inside(img, rect)
    ensures rect.x == 0 && rect.y == 0 && rect.width == img.width && rect.height == |img.rows|
  {
    Geometry.RectInt32(0, 0, img.width, |img.rows|)
  }

  /** The requested rectangle lies inside the bitmap (the underlying source reads no other pixels). */
  predicate Inside<T>(img: Bitmap<T>, rect: Geometry.RectInt32) {
    && 0 <= rect.x && 0 <= rect.width && rect.x + rect.width <= img.width
    && 0 <= rect.y && 0 <= rect.height && rect.y + rect.height <= |img.rows|
  }

  /** A rectangle inside the bitmap has its bottom edge where the sum says: rect.Bottom does not wrap around. */
  lemma InsideBottom<T>(img: Bitmap<T>, rect: Geometry.RectInt32)
    requires WellFormed(img) && Inside(img, rect)
    ensures Geometry.Bottom(rect) == rect.y + rect.height
  {
  }

  /** `srcRect ?? new RectInt32(Point2Int32.Zero, this.Size)`. */
  function RequestRect<T>(img: Bitmap<T>, srcRect: Option<Geometry.RectInt32>): (rect: Geometry.RectInt32)
    requires WellFormed(img)
    ensures srcRect.Some? ==> rect == srcRect.value
    ensures srcRect.None? ==> rect == FullRect(img)
  {
    if srcRect.Some? then srcRect.value else FullRect(img)
  }

  /** Row i of the rectangle: the `width` pixels of bitmap row y + i from column x on. */
  function Window<T>(img: Bitmap<T>, rect: Geometry.RectInt32, i: int): (row: seq<T>)
    requires WellFormed(img) && Inside(img, rect) && 0 <= i < rect.height
    ensures |row| == rect.width
    ensures forall j :: 0 <= j < rect.width ==> row[j] == img.rows[rect.y + i][rect.x + j]
  {
    img.rows[rect.y + i][rect.x..rect.x + rect.width]
  }

  /**
    BufferUtil.Copy of `data` to the start of a buffer line: the first |data|
    entries of the line are replaced and the rest of the stride keeps its bytes.
   */
  function Overlay<T>(line: seq<T>, data: seq<T>): (out: seq<T>)
    requires |data| <= |line|
    ensures |out| == |line| && out[..|data|] == data && out[|data|..] == line[|data|..]
  {
    data + line[|data|..]
  }

  /** Every buffer line has room for `w` entries at its start. */
  predicate LinesFit<T>(buffer: seq<seq<T>>, w: int) {
    forall i :: 0 <= i < |buffer| ==> w <= |buffer[i]|
  }
}
