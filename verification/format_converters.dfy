/**
  The two format converters ImagingFactory builds to show a bitmap as Bgra32.

  Bgr24ToBgra32FormatConverter asks its source to write a row of 3-byte
  pixels into the caller's own row buffer and then widens that row in place
  to 4-byte pixels, from the last pixel to the first. Indexed8ToBgra32FormatConverter
  reads a row of palette indices into a scratch row and stores the palette
  entry of each. A buffer row is a sequence of bytes (Bgr24) or of pixels
  (Indexed8); the stride between rows is abstracted away.
 */
module FormatConverters {
  import opened Wrappers
  import opened Int32Util
  import opened Colors
  import opened Bitmaps
  import Geometry

  // ---------------------------------------------------------------- pixel bytes

  /** Pixel j of a row of 3-byte pixels: bytes 3j, 3j + 1, 3j + 2 hold B, G, R. */
  predicate HoldsBgr24(s: seq<byte>, j: nat, c: ColorBgr24)
    requires 3 * j + 3 <= |s|
  {
    s[3 * j] == c.b && s[3 * j + 1] == c.g && s[3 * j + 2] == c.r
  }

  /** Pixel j of a row of 4-byte pixels: bytes 4j … 4j + 3 hold B, G, R, A. */
  predicate HoldsBgra32(s: seq<byte>, j: nat, c: ColorBgra32)
    requires 4 * j + 4 <= |s|
  {
    s[4 * j] == c.b && s[4 * j + 1] == c.g && s[4 * j + 2] == c.r && s[4 * j + 3] == c.a
  }

  /** The memory image of a row of ColorBgr24 values. */
  function Bgr24Bytes(px: seq<ColorBgr24>): (s: seq<byte>)
    ensures |s| == 3 * |px|
  {
    if px == [] then [] else Bgr24Bytes(px[..|px| - 1]) + [px[|px| - 1].b, px[|px| - 1].g, px[|px| - 1].r]
  }

  /** The memory image of a row of ColorBgra32 values. */
  function Bgra32Bytes(px: seq<ColorBgra32>): (s: seq<byte>)
    ensures |s| == 4 * |px|
  {
    if px == [] then [] else Bgra32Bytes(px[..|px| - 1]) + [px[|px| - 1].b, px[|px| - 1].g, px[|px| - 1].r, px[|px| - 1].a]
  }

  lemma {:induction false} Bgr24BytesHold(px: seq<ColorBgr24>)
    ensures forall j :: 0 <= j < |px| ==> HoldsBgr24(Bgr24Bytes(px), j, px[j])
  {
    if px != [] {
      var n := |px| - 1;
      Bgr24BytesHold(px[..n]);
      forall j | 0 <= j < |px|
        ensures HoldsBgr24(Bgr24Bytes(px), j, px[j])
      {
        if j < n {
          assert px[..n][j] == px[j];
        }
      }
    }
  }

  /** A byte row determines its pixels: bytes that hold `px` pixel by pixel are exactly the memory image of `px`. */
  lemma {:induction false} Bgra32BytesDetermined(s: seq<byte>, px: seq<ColorBgra32>)
    requires |s| == 4 * |px|
    requires forall j :: 0 <= j < |px| ==> HoldsBgra32(s, j, px[j])
    ensures s == Bgra32Bytes(px)
  {
    if px != [] {
      var n := |px| - 1;
      var front := s[..4 * n];
      forall j | 0 <= j < n
        ensures HoldsBgra32(front, j, px[..n][j])
      {
        assert HoldsBgra32(s, j, px[j]);
      }
      Bgra32BytesDetermined(front, px[..n]);
      var last := [px[n].b, px[n].g, px[n].r, px[n].a];
      assert s[4 * n..] == last by {
        assert HoldsBgra32(s, n, px[n]);
      }
      assert Bgra32Bytes(px) == Bgra32Bytes(px[..n]) + last;
      assert s == front + s[4 * n..];
    }
  }

  // ---------------------------------------------------------------- Bgr24 → Bgra32

  /** The colour the loop reads at pixel j of a row of 3-byte pixels. */
  function ReadBgr24(s: seq<byte>, j: nat): (c: ColorBgr24)
    requires 3 * j + 3 <= |s|
    ensures HoldsBgr24(s, j, c)
  {
    ColorBgr24(s[3 * j], s[3 * j + 1], s[3 * j + 2])
  }

  /**
    The in-place widening loop: for dstX from width - 1 down to 0, the 3-byte
    pixel at dstX is read and the 4-byte pixel dstX is stored over it. The
    pixels still to be read occupy bytes [0, 3·dstX + 3) and every store goes
    to [4·dstX, 4·dstX + 4), which lies above them, so no pixel is overwritten
    before it is read.
   */
  method WidenRow(row: seq<byte>, width: nat) returns (out: seq<byte>)
    requires 4 * width <= |row|
    ensures |out| == |row|
    ensures forall j :: 0 <= j < width ==> HoldsBgra32(out, j, Bgra32FromBgr24(ReadBgr24(row, j)))
    ensures out[4 * width..] == row[4 * width..]
  {
    out := row;
    var x := width;
    while x > 0
      invariant 0 <= x <= width && |out| == |row|
      invariant forall k :: 0 <= k < 3 * x ==> out[k] == row[k]
      invariant forall j :: x <= j < width ==> HoldsBgra32(out, j, Bgra32FromBgr24(ReadBgr24(row, j)))
      invariant forall k :: 4 * width <= k < |row| ==> out[k] == row[k]
    {
      x := x - 1;
      var c := Bgra32FromBgr24(ReadBgr24(out, x));
      assert ReadBgr24(out, x) == ReadBgr24(row, x);
      out := out[4 * x := c.b][4 * x + 1 := c.g][4 * x + 2 := c.r][4 * x + 3 := c.a];
    }
  }

  /**
    The same stores in the other order, first pixel first, as a pure
    function: the store of pixel x lands on bytes [4x, 4x + 4), which for
    x ≥ 1 overlap the 3-byte pixels x + 1 … still to be read. It is not a
    model of the source, which loops backward; it exists only to build the
    counterexample in ForwardWideningCorruptsRow, so its contract gives only
    the length.
   */
  function WidenForward(row: seq<byte>, x: nat, width: nat): (out: seq<byte>)
    requires x <= width && 4 * width <= |row|
    ensures |out| == |row|
    decreases width - x
  {
    if x == width then row
    else
      var c := Bgra32FromBgr24(ReadBgr24(row, x));
      WidenForward(row[4 * x := c.b][4 * x + 1 := c.g][4 * x + 2 := c.r][4 * x + 3 := c.a], x + 1, width)
  }

  /** Going forward would be wrong: pixel 1 of a two-pixel row comes out with pixel 0's alpha as its blue. */
  lemma ForwardWideningCorruptsRow()
    ensures var row := [1, 2, 3, 4, 5, 6, 0, 0];
      !HoldsBgra32(WidenForward(row, 0, 2), 1, Bgra32FromBgr24(ReadBgr24(row, 1)))
  {
    var row: seq<byte> := [1, 2, 3, 4, 5, 6, 0, 0];
    var step1 := row[0 := 1][1 := 2][2 := 3][3 := 255];
    assert WidenForward(row, 0, 2) == WidenForward(step1, 1, 2);
    assert ReadBgr24(step1, 1) == ColorBgr24(255, 5, 6);
    var step2 := step1[4 := 255][5 := 5][6 := 6][7 := 255];
    assert WidenForward(step1, 1, 2) == WidenForward(step2, 2, 2) == step2;
    assert ReadBgr24(row, 1) == ColorBgr24(4, 5, 6);
  }

  /** The first 4·|px| bytes of `out` hold the pixels `px`, each widened to Bgra32. */
  predicate Widened(out: seq<byte>, px: seq<ColorBgr24>) {
    && 4 * |px| <= |out|
    && forall j :: 0 <= j < |px| ==> HoldsBgra32(out, j, Bgra32FromBgr24(px[j]))
  }

  /** What CopyPixels needs: a rectangle inside the bitmap and a buffer row of at least `width` 4-byte pixels per rectangle row. */
  predicate Bgr24Request(img: Bitmap<ColorBgr24>, srcRect: Option<Geometry.RectInt32>, buffer: seq<seq<byte>>) {
    && WellFormed(img) && Inside(img, RequestRect(img, srcRect))
    && |buffer| == RequestRect(img, srcRect).height
    && LinesFit(buffer, 4 * RequestRect(img, srcRect).width)
  }

  /**
    Bgr24ToBgra32FormatConverter.CopyPixels: row dstY of the buffer receives
    source row Top + dstY over the rectangle's columns, widened in place; the
    bytes past the rectangle's 4·width keep their values.
   */
  method ConvertBgr24(img: Bitmap<ColorBgr24>, srcRect: Option<Geometry.RectInt32>, buffer: seq<seq<byte>>) returns (out: seq<seq<byte>>)
    requires Bgr24Request(img, srcRect, buffer)
    ensures |out| == |buffer|
    ensures var rect := RequestRect(img, srcRect);
      forall i :: 0 <= i < |out| ==>
        && |out[i]| == |buffer[i]| && out[i][4 * rect.width..] == buffer[i][4 * rect.width..]
        && Widened(out[i], Window(img, rect, i))
  {
    var rect := RequestRect(img, srcRect);
    out := [];
    var dstY := 0;
    while dstY < rect.height
      invariant 0 <= dstY <= rect.height && |out| == dstY
      invariant forall i :: 0 <= i < dstY ==>
        && |out[i]| == |buffer[i]| && out[i][4 * rect.width..] == buffer[i][4 * rect.width..]
        && Widened(out[i], Window(img, rect, i))
    {
      var widened := ConvertBgr24Row(Window(img, rect, dstY), buffer[dstY]);
      out := out + [widened];
      dstY := dstY + 1;
    }
  }

  /** One row of ConvertBgr24: the source writes its 3-byte pixels into the buffer row, which is then widened in place. */
  method ConvertBgr24Row(px: seq<ColorBgr24>, bufferRow: seq<byte>) returns (out: seq<byte>)
    requires 4 * |px| <= |bufferRow|
    ensures |out| == |bufferRow| && out[4 * |px|..] == bufferRow[4 * |px|..]
    ensures Widened(out, px)
  {
    var row := Overlay(bufferRow, Bgr24Bytes(px));
    Bgr24BytesHold(px);
    forall j | 0 <= j < |px|
      ensures ReadBgr24(row, j) == px[j]
    {
      assert HoldsBgr24(Bgr24Bytes(px), j, px[j]);
      assert row[3 * j] == Bgr24Bytes(px)[3 * j] && row[3 * j + 1] == Bgr24Bytes(px)[3 * j + 1] && row[3 * j + 2] == Bgr24Bytes(px)[3 * j + 2];
    }
    out := WidenRow(row, |px|);
  }

  /** A widened row's first 4·|px| bytes are exactly the memory image of the widened pixels. */
  lemma WidenedBytes(out: seq<byte>, px: seq<ColorBgr24>)
    requires Widened(out, px)
    ensures out[..4 * |px|] == Bgra32Bytes(seq(|px|, j requires 0 <= j < |px| => Bgra32FromBgr24(px[j])))
  {
    var wide := seq(|px|, j requires 0 <= j < |px| => Bgra32FromBgr24(px[j]));
    forall j | 0 <= j < |px|
      ensures HoldsBgra32(out[..4 * |px|], j, wide[j])
    {
      assert HoldsBgra32(out, j, Bgra32FromBgr24(px[j]));
    }
    Bgra32BytesDetermined(out[..4 * |px|], wide);
  }

  // ---------------------------------------------------------------- Indexed8 → Bgra32

  /** The converter keeps the palette its source reported when it was built. */
  datatype Indexed8Converter = Indexed8Converter(source: Bitmap<ColorIndexed8>, palette: seq<ColorBgra32>)

  /** The constructor: the source's palette is read once, here. */
  function CreateIndexed8(source: Bitmap<ColorIndexed8>, sourcePalette: seq<ColorBgra32>): (c: Indexed8Converter)
    ensures c.source == source && c.palette == sourcePalette
  {
    Indexed8Converter(source, sourcePalette)
  }

  /** Every index of the row names a palette entry. */
  predicate InPalette(palette: seq<ColorBgra32>, indices: seq<ColorIndexed8>) {
    forall x :: 0 <= x < |indices| ==> (indices[x].value as int) < |palette|
  }

  /** The first |indices| pixels of `out` are the palette entries the indices name. */
  predicate LookedUp(palette: seq<ColorBgra32>, indices: seq<ColorIndexed8>, out: seq<ColorBgra32>) {
    && |indices| <= |out|
    && forall x :: 0 <= x < |indices| ==> (indices[x].value as int) < |palette| && out[x] == palette[indices[x].value]
  }

  /** The inner loop: pixel x becomes palette[index x]; an index past the palette's end throws ArgumentOutOfRange. */
  function LookupRow(palette: seq<ColorBgra32>, indices: seq<ColorIndexed8>): (r: Result<seq<ColorBgra32>>)
    ensures r.Ok? <==> InPalette(palette, indices)
    ensures r.Err? ==> r.error == ArgumentOutOfRange
    ensures r.Ok? ==> |r.value| == |indices| && LookedUp(palette, indices, r.value)
  {
    if indices == [] then Ok([])
    else if (indices[0].value as int) >= |palette| then Err(ArgumentOutOfRange)
    else
      var rest :- LookupRow(palette, indices[1..]);
      assert forall x :: 1 <= x < |indices| ==> indices[x] == indices[1..][x - 1];
      Ok([palette[indices[0].value]] + rest)
  }

  /** What CopyPixels needs: a rectangle inside the bitmap and a buffer row of at least `width` pixels per rectangle row. */
  predicate Indexed8Request(c: Indexed8Converter, srcRect: Option<Geometry.RectInt32>, buffer: seq<seq<ColorBgra32>>) {
    && WellFormed(c.source) && Inside(c.source, RequestRect(c.source, srcRect))
    && |buffer| == RequestRect(c.source, srcRect).height
    && LinesFit(buffer, RequestRect(c.source, srcRect).width)
  }

  /** Rows dstY, dstY + 1, … of the request, each looked up and stored at the start of its buffer row. */
  function ConvertIndexed8From(c: Indexed8Converter, rect: Geometry.RectInt32, dstY: nat, buffer: seq<seq<ColorBgra32>>): (r: Result<seq<seq<ColorBgra32>>>)
    requires WellFormed(c.source) && Inside(c.source, rect) && |buffer| == rect.height && dstY <= rect.height
    requires forall i :: 0 <= i < |buffer| ==> rect.width <= |buffer[i]|
    ensures r.Ok? ==> |r.value| == rect.height - dstY
    decreases rect.height - dstY
  {
    if dstY == rect.height then Ok([])
    else
      var found :- LookupRow(c.palette, Window(c.source, rect, dstY));
      var rest :- ConvertIndexed8From(c, rect, dstY + 1, buffer);
      Ok([found + buffer[dstY][rect.width..]] + rest)
  }

  /** Indexed8ToBgra32FormatConverter.CopyPixels: a missing rectangle means the whole bitmap. */
  function ConvertIndexed8(c: Indexed8Converter, srcRect: Option<Geometry.RectInt32>, buffer: seq<seq<ColorBgra32>>): (r: Result<seq<seq<ColorBgra32>>>)
    requires Indexed8Request(c, srcRect, buffer)
    ensures r.Ok? ==> |r.value| == |buffer|
  {
    ConvertIndexed8From(c, RequestRect(c.source, srcRect), 0, buffer)
  }

  /** Line i of a converted run: the rectangle's row dstY + i looked up, the rest of the buffer row untouched. */
  ghost predicate LineConverted(c: Indexed8Converter, rect: Geometry.RectInt32, i: int, bufferRow: seq<ColorBgra32>, line: seq<ColorBgra32>)
    requires WellFormed(c.source) && Inside(c.source, rect) && 0 <= i < rect.height && rect.width <= |bufferRow|
  {
    && |line| == |bufferRow| && line[rect.width..] == bufferRow[rect.width..]
    && LookedUp(c.palette, Window(c.source, rect, i), line)
  }

  /**
    Rows dstY … of the run succeed exactly when every index in them names a
    palette entry; each line is then the row's palette entries followed by
    the untouched rest of its buffer row; otherwise ArgumentOutOfRange.
   */
  lemma {:induction false} ConvertIndexed8FromSpec(c: Indexed8Converter, rect: Geometry.RectInt32, dstY: nat, buffer: seq<seq<ColorBgra32>>)
    requires WellFormed(c.source) && Inside(c.source, rect) && |buffer| == rect.height && dstY <= rect.height
    requires forall i :: 0 <= i < |buffer| ==> rect.width <= |buffer[i]|
    ensures var r := ConvertIndexed8From(c, rect, dstY, buffer);
      && (r.Ok? <==> forall i :: dstY <= i < rect.height ==> InPalette(c.palette, Window(c.source, rect, i)))
      && (r.Err? ==> r.error == ArgumentOutOfRange)
      && (r.Ok? ==> forall i :: dstY <= i < rect.height ==> LineConverted(c, rect, i, buffer[i], r.value[i - dstY]))
    decreases rect.height - dstY
  {
    if dstY < rect.height {
      ConvertIndexed8FromSpec(c, rect, dstY + 1, buffer);
      var r := ConvertIndexed8From(c, rect, dstY, buffer);
      var found := LookupRow(c.palette, Window(c.source, rect, dstY));
      if r.Ok? {
        var rest := ConvertIndexed8From(c, rect, dstY + 1, buffer);
        assert r.value == [found.value + buffer[dstY][rect.width..]] + rest.value;
        forall i | dstY <= i < rect.height
          ensures LineConverted(c, rect, i, buffer[i], r.value[i - dstY])
        {
          if i > dstY {
            assert r.value[i - dstY] == rest.value[i - (dstY + 1)];
          }
        }
      }
    }
  }

  /**
    The whole request: the conversion succeeds exactly when every index in
    the rectangle names a palette entry, and then line i holds the palette
    entries of source row Top + i over the rectangle's columns, followed by
    the untouched rest of its buffer row; otherwise it throws
    ArgumentOutOfRange.
   */
  lemma ConvertIndexed8Spec(c: Indexed8Converter, srcRect: Option<Geometry.RectInt32>, buffer: seq<seq<ColorBgra32>>)
    requires Indexed8Request(c, srcRect, buffer)
    ensures var r := ConvertIndexed8(c, srcRect, buffer);
      var rect := RequestRect(c.source, srcRect);
      && (r.Ok? <==> forall i :: 0 <= i < rect.height ==> InPalette(c.palette, Window(c.source, rect, i)))
      && (r.Err? ==> r.error == ArgumentOutOfRange)
      && (r.Ok? ==> forall i :: 0 <= i < rect.height ==> LineConverted(c, rect, i, buffer[i], r.value[i]))
  {
    var rect := RequestRect(c.source, srcRect);
    ConvertIndexed8FromSpec(c, rect, 0, buffer);
    var r := ConvertIndexed8From(c, rect, 0, buffer);
    if r.Ok? {
      forall i | 0 <= i < rect.height
        ensures LineConverted(c, rect, i, buffer[i], r.value[i])
      {
        assert r.value[i - 0] == r.value[i];
      }
    }
  }
}
