/**
  The integer geometry value types: Point2Int32, Point3Int32, SizeInt32 and
  RectInt32. Their arithmetic is C#'s default unchecked int arithmetic, so every
  sum, difference and product is wrapped with `Wrap32`; only `FromEdges`
  computes its width and height in a `checked` context.
 */
module Geometry {
  import opened Int32Util
  import opened Wrappers
  import HashCodeUtil

  // ---------------------------------------------------------------- Point2Int32

  datatype Point2Int32 = Point2Int32(x: int32, y: int32)

  /** Point2Int32.Zero is `default`. */
  const Point2Zero: Point2Int32 := Point2Int32(0, 0)

  /** The unary minus operator, with int wrap-around (-MinValue is MinValue). */
  function Point2Negate(pt: Point2Int32): (r: Point2Int32)
    ensures r.x == Wrap32(-(pt.x as int)) && r.y == Wrap32(-(pt.y as int))
    ensures pt.x != INT32_MIN ==> r.x == -(pt.x as int)
    ensures pt.y != INT32_MIN ==> r.y == -(pt.y as int)
  {
    Point2Int32(Wrap32(-(pt.x as int)), Wrap32(-(pt.y as int)))
  }

  /** Negation undoes itself, including at MinValue. */
  lemma Point2NegateInvolution(pt: Point2Int32)
    ensures Point2Negate(Point2Negate(pt)) == pt
  {
    Wrap32Neg(-(pt.x as int));
    Wrap32Neg(-(pt.y as int));
  }

  /** Point2Int32.Offset(pt, dx, dy). */
  function Point2Offset(pt: Point2Int32, dx: int32, dy: int32): (r: Point2Int32)
    ensures IsInt32(pt.x + dx) ==> r.x == pt.x + dx
    ensures IsInt32(pt.y + dy) ==> r.y == pt.y + dy
  {
    Point2Int32(Wrap32(pt.x + dx), Wrap32(pt.y + dy))
  }

  /** Offsetting by (dx, dy) and then by the negated deltas returns the point, even across wrap-around. */
  lemma Point2OffsetInverse(pt: Point2Int32, dx: int32, dy: int32)
    ensures Point2Offset(Point2Offset(pt, dx, dy), Wrap32(-(dx as int)), Wrap32(-(dy as int))) == pt
  {
    Wrap32AddBack(pt.x, dx);
    Wrap32AddBack(pt.y, dy);
  }

  /** Point2Int32.IsZero: the point is the origin. */
  function Point2IsZero(pt: Point2Int32): (r: bool)
    ensures r <==> pt == Point2Zero
  {
    pt.x == 0 && pt.y == 0
  }

  /** Point2Int32.Equals: coordinate-wise comparison is value equality. */
  function Point2Equals(a: Point2Int32, b: Point2Int32): (r: bool)
    ensures r <==> a == b
  {
    a.x == b.x && a.y == b.y
  }

  /** Point2Int32.GetHashCode. */
  function Point2Hash(pt: Point2Int32): int32 {
    HashCodeUtil.FromBits(HashCodeUtil.Combine2(HashCodeUtil.ToBits(pt.x), HashCodeUtil.ToBits(pt.y)))
  }

  /** The explicit conversion from SizeInt32. */
  function Point2FromSize(size: SizeInt32): (pt: Point2Int32)
    ensures pt.x == size.width && pt.y == size.height
  {
    Point2Int32(size.width, size.height)
  }

  // ---------------------------------------------------------------- Point3Int32

  datatype Point3Int32 = Point3Int32(x: int32, y: int32, z: int32)

  const Point3Zero: Point3Int32 := Point3Int32(0, 0, 0)

  function Point3Negate(pt: Point3Int32): (r: Point3Int32)
    ensures r.x == Wrap32(-(pt.x as int)) && r.y == Wrap32(-(pt.y as int)) && r.z == Wrap32(-(pt.z as int))
    ensures pt.x != INT32_MIN && pt.y != INT32_MIN && pt.z != INT32_MIN ==>
      r.x == -(pt.x as int) && r.y == -(pt.y as int) && r.z == -(pt.z as int)
  {
    Point3Int32(Wrap32(-(pt.x as int)), Wrap32(-(pt.y as int)), Wrap32(-(pt.z as int)))
  }

  lemma Point3NegateInvolution(pt: Point3Int32)
    ensures Point3Negate(Point3Negate(pt)) == pt
  {
    Wrap32Neg(-(pt.x as int));
    Wrap32Neg(-(pt.y as int));
    Wrap32Neg(-(pt.z as int));
  }

  function Point3Offset(pt: Point3Int32, dx: int32, dy: int32, dz: int32): (r: Point3Int32)
    ensures IsInt32(pt.x + dx) ==> r.x == pt.x + dx
    ensures IsInt32(pt.y + dy) ==> r.y == pt.y + dy
    ensures IsInt32(pt.z + dz) ==> r.z == pt.z + dz
  {
    Point3Int32(Wrap32(pt.x + dx), Wrap32(pt.y + dy), Wrap32(pt.z + dz))
  }

  lemma Point3OffsetInverse(pt: Point3Int32, dx: int32, dy: int32, dz: int32)
    ensures Point3Offset(Point3Offset(pt, dx, dy, dz), Wrap32(-(dx as int)), Wrap32(-(dy as int)), Wrap32(-(dz as int))) == pt
  {
    Point3OffsetInverseXY(pt, dx, dy, dz);
    Point3OffsetInverseZ(pt, dx, dy, dz);
  }

  lemma Point3OffsetInverseXY(pt: Point3Int32, dx: int32, dy: int32, dz: int32)
    ensures Point3Offset(Point3Offset(pt, dx, dy, dz), Wrap32(-(dx as int)), Wrap32(-(dy as int)), Wrap32(-(dz as int))).x == pt.x
    ensures Point3Offset(Point3Offset(pt, dx, dy, dz), Wrap32(-(dx as int)), Wrap32(-(dy as int)), Wrap32(-(dz as int))).y == pt.y
  {
    Wrap32AddBack(pt.x, dx);
    Wrap32AddBack(pt.y, dy);
  }

  lemma Point3OffsetInverseZ(pt: Point3Int32, dx: int32, dy: int32, dz: int32)
    ensures Point3Offset(Point3Offset(pt, dx, dy, dz), Wrap32(-(dx as int)), Wrap32(-(dy as int)), Wrap32(-(dz as int))).z == pt.z
  {
    Wrap32AddBack(pt.z, dz);
  }

  /** Point3Int32.IsZero: the point is the origin. */
  function Point3IsZero(pt: Point3Int32): (r: bool)
    ensures r <==> pt == Point3Zero
  {
    pt.x == 0 && pt.y == 0 && pt.z == 0
  }

  /** Point3Int32.Equals: coordinate-wise comparison is value equality. */
  function Point3Equals(a: Point3Int32, b: Point3Int32): (r: bool)
    ensures r <==> a == b
  {
    a.x == b.x && a.y == b.y && a.z == b.z
  }

  function Point3Hash(pt: Point3Int32): int32 {
    HashCodeUtil.FromBits(HashCodeUtil.Combine3(
      HashCodeUtil.ToBits(pt.x), HashCodeUtil.ToBits(pt.y), HashCodeUtil.ToBits(pt.z)))
  }

  // ---------------------------------------------------------------- SizeInt32

  datatype SizeInt32 = SizeInt32(width: int32, height: int32)

  /** SizeInt32.Empty is (MinValue, MaxValue). */
  const SizeEmpty: SizeInt32 := SizeInt32(INT32_MIN, INT32_MAX)
  const SizeMax: SizeInt32 := SizeInt32(INT32_MAX, INT32_MAX)
  const SizeZero: SizeInt32 := SizeInt32(0, 0)

  /** The explicit conversion from Point2Int32. */
  function SizeFromPoint2(pt: Point2Int32): (size: SizeInt32)
    ensures size.width == pt.x && size.height == pt.y
    ensures Point2FromSize(size) == pt
  {
    SizeInt32(pt.x, pt.y)
  }

  /** SizeInt32.Area: the product taken in 64 bits. */
  function SizeArea(size: SizeInt32): (area: int)
    ensures IsInt64(area)
    ensures area == 0 <==> size.width == 0 || size.height == 0
    ensures area > 0 <==> (size.width > 0 && size.height > 0) || (size.width < 0 && size.height < 0)
  {
    Int64ProductOfInt32s(size.width, size.height);
    size.width * size.height
  }

  lemma Int64ProductOfInt32s(a: int32, b: int32)
    ensures IsInt64(a * b)
    ensures a * b == 0 <==> a == 0 || b == 0
    ensures a * b > 0 <==> (a > 0 && b > 0) || (a < 0 && b < 0)
  {
    var ua := if a < 0 then -(a as int) else a;
    var ub := if b < 0 then -(b as int) else b;
    MulMono(ua, 0x8000_0000, ub);
    MulMono(ub, 0x8000_0000, 0x8000_0000);
    assert a * b == ua * ub || a * b == -(ua * ub);
    if a > 0 && b < 0 {
      MulMono(1, a, -(b as int));
    } else if a < 0 && b > 0 {
      MulMono(1, -(a as int), b);
    } else if a > 0 && b > 0 {
      MulMono(1, a, b);
    } else if a < 0 && b < 0 {
      MulMono(1, -(a as int), -(b as int));
    }
  }

  lemma MulMono(a: int, b: int, c: int)
    requires 0 <= a <= b && c >= 0
    ensures a * c <= b * c
  {
  }

  predicate SizeHasPositiveArea(size: SizeInt32) {
    size.width > 0 && size.height > 0
  }

  /** SizeInt32.HasZeroArea requires both dimensions to be 0 (RectInt32 uses OR): it is equality with Zero. */
  function SizeHasZeroArea(size: SizeInt32): (r: bool)
    ensures r <==> size == SizeZero
  {
    size.width == 0 && size.height == 0
  }

  /** A size with zero area need not satisfy HasZeroArea: (0, 5) is a counterexample. */
  lemma SizeHasZeroAreaIsStricterThanZeroArea(size: SizeInt32)
    ensures SizeHasZeroArea(size) ==> SizeArea(size) == 0
    ensures SizeHasPositiveArea(size) ==> SizeArea(size) > 0
    ensures SizeArea(SizeInt32(0, 5)) == 0 && !SizeHasZeroArea(SizeInt32(0, 5))
  {
  }

  /** SizeInt32.Equals: dimension-wise comparison is value equality. */
  function SizeEquals(a: SizeInt32, b: SizeInt32): (r: bool)
    ensures r <==> a == b
  {
    a.width == b.width && a.height == b.height
  }

  function SizeHash(size: SizeInt32): int32 {
    HashCodeUtil.FromBits(HashCodeUtil.Combine2(HashCodeUtil.ToBits(size.width), HashCodeUtil.ToBits(size.height)))
  }

  // ---------------------------------------------------------------- RectInt32

  datatype RectInt32 = RectInt32(x: int32, y: int32, width: int32, height: int32)

  /** RectInt32.Empty: (MaxValue, MaxValue, MinValue, MinValue). */
  const RectEmpty: RectInt32 := RectInt32(INT32_MAX, INT32_MAX, INT32_MIN, INT32_MIN)
  const RectZero: RectInt32 := RectInt32(0, 0, 0, 0)

  function Left(r: RectInt32): int32 { r.x }
  function Top(r: RectInt32): int32 { r.y }
  /** `x + width`, unchecked. */
  function Right(r: RectInt32): int32 { Wrap32(r.x + r.width) }
  /** `y + height`, unchecked. */
  function Bottom(r: RectInt32): int32 { Wrap32(r.y + r.height) }

  /** The rectangle's right and bottom edges are computed without wrapping. */
  predicate NoOverflow(r: RectInt32) {
    IsInt32(r.x + r.width) && IsInt32(r.y + r.height)
  }

  /**
    The rectangle has non-negative size and all its edges lie in [-2^30, 2^30),
    so every sum or difference of two edges the methods below compute fits an int.
   */
  predicate Moderate(r: RectInt32) {
    r.width >= 0 && r.height >= 0
    && -0x4000_0000 <= r.x && r.x + r.width < 0x4000_0000
    && -0x4000_0000 <= r.y && r.y + r.height < 0x4000_0000
  }

  function Min(a: int32, b: int32): int32 { if a <= b then a else b }
  function Max(a: int32, b: int32): int32 { if a >= b then a else b }

  /** RectInt32.FromEdges: the corners are ordered first; the size is computed `checked`. */
  function FromEdges(left: int32, top: int32, right: int32, bottom: int32): (r: Result<RectInt32>)
    ensures r.Ok? <==> IsInt32(Max(left, right) - Min(left, right)) && IsInt32(Max(top, bottom) - Min(top, bottom))
    ensures r.Err? ==> r.error == Overflow
    ensures r.Ok? ==> var rc := r.value;
      && rc.width >= 0 && rc.height >= 0
      && NoOverflow(rc)
      && rc.x == Min(left, right) && Right(rc) == Max(left, right)
      && rc.y == Min(top, bottom) && Bottom(rc) == Max(top, bottom)
  {
    var minX, minY := Min(left, right), Min(top, bottom);
    var maxX, maxY := Max(left, right), Max(top, bottom);
    if !IsInt32(maxX - minX) || !IsInt32(maxY - minY) then Err(Overflow)
    else Ok(RectInt32(minX, minY, maxX - minX, maxY - minY))
  }

  /** FromEdges does not depend on which of the two x (or y) edges is given first. */
  lemma FromEdgesSymmetric(left: int32, top: int32, right: int32, bottom: int32)
    ensures FromEdges(left, top, right, bottom) == FromEdges(right, bottom, left, top)
  {
  }

  /** Contains(x, y), with the right and bottom edges computed unchecked. */
  predicate Contains(r: RectInt32, px: int32, py: int32) {
    r.x <= px && px < Right(r) && r.y <= py && py < Bottom(r)
  }

  /** Without overflow, Contains is membership in the half-open box [x, x+w) x [y, y+h). */
  lemma ContainsIsHalfOpenBox(r: RectInt32, px: int32, py: int32)
    requires NoOverflow(r)
    ensures Contains(r, px, py) <==> r.x <= px < r.x + r.width && r.y <= py < r.y + r.height
  {
  }

  /** Contains(RectInt32). */
  predicate ContainsRect(r: RectInt32, inner: RectInt32) {
    r.x <= inner.x && Right(inner) <= Right(r) && r.y <= inner.y && Bottom(inner) <= Bottom(r)
  }

  /** A rectangle contained in another has all its points in it. */
  lemma ContainsRectContainsPoints(r: RectInt32, inner: RectInt32, px: int32, py: int32)
    requires NoOverflow(r) && NoOverflow(inner)
    requires ContainsRect(r, inner) && Contains(inner, px, py)
    ensures Contains(r, px, py)
  {
  }

  /** Inflate(dx, dy): the edges move outward by dx and dy. */
  function Inflate(r: RectInt32, dx: int32, dy: int32): RectInt32 {
    RectInt32(Wrap32(r.x - dx), Wrap32(r.y - dy), Wrap32(r.width + Wrap32(2 * dx)), Wrap32(r.height + Wrap32(2 * dy)))
  }

  /** Without overflow, Inflate moves the left and top edges out by dx and dy and grows the size by twice as much. */
  lemma InflateNoWrap(r: RectInt32, dx: int32, dy: int32)
    ensures IsInt32(r.x - dx) && IsInt32(2 * dx) && IsInt32(r.width + 2 * dx) ==>
      Inflate(r, dx, dy).x == r.x - dx && Inflate(r, dx, dy).width == r.width + 2 * dx
    ensures IsInt32(r.y - dy) && IsInt32(2 * dy) && IsInt32(r.height + 2 * dy) ==>
      Inflate(r, dx, dy).y == r.y - dy && Inflate(r, dx, dy).height == r.height + 2 * dy
  {
  }

  /** Inflating by (dx, dy) and then by the negated amounts gives back the rectangle, even across wrap-around. */
  lemma InflateInverse(r: RectInt32, dx: int32, dy: int32)
    ensures Inflate(Inflate(r, dx, dy), Wrap32(-(dx as int)), Wrap32(-(dy as int))) == r
  {
    InflateInverseX(r, dx, dy);
    InflateInverseY(r, dx, dy);
    InflateInverseWidth(r, dx, dy);
    InflateInverseHeight(r, dx, dy);
  }

  lemma InflateInverseX(r: RectInt32, dx: int32, dy: int32)
    ensures Inflate(Inflate(r, dx, dy), Wrap32(-(dx as int)), Wrap32(-(dy as int))).x == r.x
  {
    WrapSubAddBack(r.x, dx);
  }

  lemma InflateInverseY(r: RectInt32, dx: int32, dy: int32)
    ensures Inflate(Inflate(r, dx, dy), Wrap32(-(dx as int)), Wrap32(-(dy as int))).y == r.y
  {
    WrapSubAddBack(r.y, dy);
  }

  lemma InflateInverseWidth(r: RectInt32, dx: int32, dy: int32)
    ensures Inflate(Inflate(r, dx, dy), Wrap32(-(dx as int)), Wrap32(-(dy as int))).width == r.width
  {
    WrapDoubleAddBack(r.width, dx);
  }

  lemma InflateInverseHeight(r: RectInt32, dx: int32, dy: int32)
    ensures Inflate(Inflate(r, dx, dy), Wrap32(-(dx as int)), Wrap32(-(dy as int))).height == r.height
  {
    WrapDoubleAddBack(r.height, dy);
  }

  lemma WrapSubAddBack(a: int32, d: int32)
    ensures Wrap32(Wrap32(a as int - d) as int - Wrap32(-(d as int))) == a
  {
    var w1 := Wrap32(a as int - d) as int;
    var n := Wrap32(-(d as int)) as int;
    Wrap32IsCongruent(a as int - d);
    Wrap32IsCongruent(-(d as int));
    assert (n - -(d as int)) % 0x1_0000_0000 == 0;
    ModZeroScale(n + d, -1);
    ModZeroAdd(w1 - (a - d), -1 * (n + d));
    assert w1 - n - a == (w1 - (a - d)) + -1 * (n + d);
    Wrap32Congruent(w1 - n, a);
  }

  lemma WrapDoubleAddBack(w: int32, d: int32)
    ensures Wrap32(Wrap32(w as int + Wrap32(2 * d)) as int + Wrap32(2 * Wrap32(-(d as int)))) == w
  {
    var e := Wrap32(2 * d) as int;
    var n := Wrap32(-(d as int)) as int;
    var f := Wrap32(2 * n) as int;
    var w1 := Wrap32(w as int + e) as int;
    Wrap32IsCongruent(2 * d);
    Wrap32IsCongruent(-(d as int));
    Wrap32IsCongruent(2 * n);
    Wrap32IsCongruent(w as int + e);
    assert (n - -(d as int)) % 0x1_0000_0000 == 0;
    ModZeroScale(n + d, 2);
    ModZeroAdd(w1 - (w + e), e - 2 * d);
    ModZeroAdd((w1 - (w + e)) + (e - 2 * d), f - 2 * n);
    ModZeroAdd((w1 - (w + e)) + (e - 2 * d) + (f - 2 * n), 2 * (n + d));
    assert w1 + f - w == (w1 - (w + e)) + (e - 2 * d) + (f - 2 * n) + 2 * (n + d);
    Wrap32Congruent(w1 + f, w);
  }

  /** The static Inflate(rect, left, top, right, bottom), which goes through FromEdges. */
  function InflateEdges(r: RectInt32, left: int32, top: int32, right: int32, bottom: int32): (s: Result<RectInt32>)
    ensures s.Ok? ==> s.value.width >= 0 && s.value.height >= 0
  {
    FromEdges(Wrap32(Left(r) - left), Wrap32(Top(r) - top), Wrap32(Right(r) + right), Wrap32(Bottom(r) + bottom))
  }

  /**
   * Without wrap-around, and with the moved edges still in order, InflateEdges
   * succeeds and moves each edge out by its own amount.
   */
  lemma InflateEdgesNoWrap(r: RectInt32, left: int32, top: int32, right: int32, bottom: int32)
    requires NoOverflow(r)
    requires IsInt32(r.x - left) && IsInt32(r.x + r.width + right)
    requires IsInt32(r.y - top) && IsInt32(r.y + r.height + bottom)
    requires r.x - left <= r.x + r.width + right && IsInt32(r.width + left + right)
    requires r.y - top <= r.y + r.height + bottom && IsInt32(r.height + top + bottom)
    ensures InflateEdges(r, left, top, right, bottom).Ok?
    ensures var s := InflateEdges(r, left, top, right, bottom).value;
      && s.x == r.x - left && s.width == r.width + left + right
      && s.y == r.y - top && s.height == r.height + top + bottom
  {
  }

  /** Intersect: the overlap of two rectangles, clamped to a non-negative size. */
  function Intersect(a: RectInt32, b: RectInt32): (c: RectInt32)
    ensures c.width >= 0 && c.height >= 0
    ensures c.x == Max(a.x, b.x) && c.y == Max(a.y, b.y)
  {
    var maxLeft := Max(a.x, b.x);
    var maxTop := Max(a.y, b.y);
    var width := Max(Wrap32(Min(Right(a), Right(b)) - maxLeft), 0);
    var height := Max(Wrap32(Min(Bottom(a), Bottom(b)) - maxTop), 0);
    RectInt32(maxLeft, maxTop, width, height)
  }

  /** A point is in the intersection exactly when it is in both rectangles. */
  lemma IntersectContains(a: RectInt32, b: RectInt32, px: int32, py: int32)
    requires Moderate(a) && Moderate(b)
    ensures NoOverflow(Intersect(a, b))
    ensures Contains(Intersect(a, b), px, py) <==> Contains(a, px, py) && Contains(b, px, py)
  {
  }

  /** IntersectsWith: strict overlap on both axes. */
  predicate IntersectsWith(a: RectInt32, b: RectInt32) {
    a.x < Right(b) && b.x < Right(a) && a.y < Bottom(b) && b.y < Bottom(a)
  }

  predicate RectHasPositiveArea(r: RectInt32) {
    r.width > 0 && r.height > 0
  }

  /** For rectangles of positive size, IntersectsWith holds iff the intersection has positive area. */
  lemma IntersectsWithIffPositiveIntersection(a: RectInt32, b: RectInt32)
    requires Moderate(a) && Moderate(b)
    requires RectHasPositiveArea(a) && RectHasPositiveArea(b)
    ensures IntersectsWith(a, b) <==> RectHasPositiveArea(Intersect(a, b))
  {
  }

  /** Offset(dx, dy). */
  function Offset(r: RectInt32, dx: int32, dy: int32): (s: RectInt32)
    ensures s.width == r.width && s.height == r.height
    ensures IsInt32(r.x + dx) && IsInt32(r.y + dy) ==> s.x == r.x + dx && s.y == r.y + dy
  {
    RectInt32(Wrap32(r.x + dx), Wrap32(r.y + dy), r.width, r.height)
  }

  /** Scale(scaleX, scaleY): a negative factor mirrors the rectangle and is then re-normalised. */
  function Scale(r: RectInt32, scaleX: int32, scaleY: int32): (s: RectInt32)
  {
    var x1, w1 := Wrap32(r.x * scaleX), Wrap32(r.width * scaleX);
    var y1, h1 := Wrap32(r.y * scaleY), Wrap32(r.height * scaleY);
    var x2 := if scaleX < 0 then Wrap32(x1 as int + w1) else x1;
    var w2 := if scaleX < 0 then Wrap32(w1 as int * -1) else w1;
    var y2 := if scaleY < 0 then Wrap32(y1 as int + h1) else y1;
    var h2 := if scaleY < 0 then Wrap32(h1 as int * -1) else h1;
    RectInt32(x2, y2, w2, h2)
  }

  /** Without overflow, the scaled x-extent is the image of [x, x+w] under multiplication, so its width stays non-negative. */
  lemma ScaleKeepsWidthNonNegative(r: RectInt32, scaleX: int32, scaleY: int32)
    requires r.width >= 0
    requires IsInt32(r.x * scaleX) && IsInt32(r.width * scaleX) && IsInt32((r.x + r.width) * scaleX)
    requires r.width * scaleX != INT32_MIN
    ensures Scale(r, scaleX, scaleY).width >= 0
    ensures Scale(r, scaleX, scaleY).width == if scaleX < 0 then -(r.width * scaleX) else r.width * scaleX
    ensures Scale(r, scaleX, scaleY).x == if scaleX < 0 then (r.x + r.width) * scaleX else r.x * scaleX
  {
    SignOfProduct(r.width, scaleX);
    assert (r.x + r.width) * scaleX == r.x * scaleX + r.width * scaleX;
  }

  lemma SignOfProduct(a: int, b: int)
    requires a >= 0
    ensures b < 0 ==> a * b <= 0
    ensures b >= 0 ==> a * b >= 0
  {
  }

  /** Union: the bounding box of two rectangles. */
  function Union(a: RectInt32, b: RectInt32): (u: RectInt32)
    ensures u.x == Min(a.x, b.x) && u.y == Min(a.y, b.y)
  {
    var left := Min(Left(a), Left(b));
    var top := Min(Top(a), Top(b));
    var right := Max(Right(a), Right(b));
    var bottom := Max(Bottom(a), Bottom(b));
    RectInt32(left, top, Wrap32(right - left), Wrap32(bottom - top))
  }

  /** For rectangles of non-negative size, the union contains both inputs. */
  lemma UnionContainsBoth(a: RectInt32, b: RectInt32)
    requires Moderate(a) && Moderate(b)
    ensures ContainsRect(Union(a, b), a) && ContainsRect(Union(a, b), b)
    ensures Union(a, b).width >= 0 && Union(a, b).height >= 0
  {
    var u := Union(a, b);
    assert Right(a) == a.x + a.width && Right(b) == b.x + b.width;
    assert Bottom(a) == a.y + a.height && Bottom(b) == b.y + b.height;
    var right := Max(Right(a), Right(b));
    var bottom := Max(Bottom(a), Bottom(b));
    assert u.width == right - u.x;
    assert u.height == bottom - u.y;
    assert Right(u) == right && Bottom(u) == bottom;
  }

  /** RectInt32.Equals. */
  predicate RectEquals(a: RectInt32, b: RectInt32) {
    a.x == b.x && a.y == b.y && a.width == b.width && a.height == b.height
  }

  predicate RectIsEmpty(r: RectInt32) { RectEquals(r, RectEmpty) }
  predicate RectIsZero(r: RectInt32) { RectEquals(r, RectZero) }

  /** RectInt32.HasZeroArea: either dimension 0 (SizeInt32 requires both). */
  predicate RectHasZeroArea(r: RectInt32) {
    r.width == 0 || r.height == 0
  }

  /** RectInt32.Area, in 64 bits. */
  function RectArea(r: RectInt32): (area: int)
    ensures IsInt64(area)
    ensures area == 0 <==> RectHasZeroArea(r)
  {
    Int64ProductOfInt32s(r.width, r.height);
    r.width * r.height
  }

  lemma RectEqualityAndSentinels(a: RectInt32, b: RectInt32)
    ensures RectEquals(a, b) <==> a == b
    ensures RectIsEmpty(a) <==> a == RectInt32(INT32_MAX, INT32_MAX, INT32_MIN, INT32_MIN)
    ensures RectIsZero(a) <==> a == RectInt32(0, 0, 0, 0)
    ensures RectIsEmpty(a) ==> !RectHasPositiveArea(a)
  {
  }

  function RectHash(r: RectInt32): int32 {
    HashCodeUtil.FromBits(HashCodeUtil.Combine4(
      HashCodeUtil.ToBits(r.x), HashCodeUtil.ToBits(r.y),
      HashCodeUtil.ToBits(r.width), HashCodeUtil.ToBits(r.height)))
  }
}
