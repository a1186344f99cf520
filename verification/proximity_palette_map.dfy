/**
  ProximityPaletteMap: the colour space is cut into 16 x 16 x 16 cubes. For the
  centre of each cube the opaque palette indices are sorted, on first use, by their
  distance from that centre; a lookup walks the target's cube list and stops early
  once the ring test of `ProximityRing` fires.

  The map's mutable state (the 4096 lazily filled cube lists) is the `buckets` map;
  a cube without an entry is a null slot.
 */
module ProximityPaletteMap {
  import opened Wrappers
  import opened Int32Util
  import opened Colors
  import opened ColorBgr24Util
  import opened Geometry
  import opened SortSpec
  import ListUtil
  import opened PaletteMaps
  import opened ProximityRing

  const PrecisionBits := 4
  const PrecisionShift := 8 - PrecisionBits
  /** `1 << precisionBits` cubes along each axis. */
  const CubeLength := 16
  /** `(1 << precisionShift) >> 1`: half a cube, from a cube's corner to its centre. */
  const CoordOffset := 8
  /** The number of cubes, and of slots in the proximity map. */
  const CubeCount := CubeLength * CubeLength * CubeLength

  // ---------------------------------------------------------------- cubes

  /**
    The cube of a colour: `B >> 4`, `G >> 4`, `R >> 4` (the shift is a division
    for these non-negative values), i.e. the top four bits of each component.
   */
  function Coordinate(c: ColorBgr24): (p: Point3Int32)
    ensures 0 <= p.x < CubeLength && 0 <= p.y < CubeLength && 0 <= p.z < CubeLength
    ensures p.x * 16 <= c.b < p.x * 16 + 16
    ensures p.y * 16 <= c.g < p.y * 16 + 16
    ensures p.z * 16 <= c.r < p.z * 16 + 16
  {
    Point3Int32(c.b / 16, c.g / 16, c.r / 16)
  }

  /** `checked((byte)v)`. */
  function CheckedByte(v: int): (r: Result<byte>)
    ensures r.Ok? <==> 0 <= v < 256
    ensures r.Ok? ==> r.value == v
    ensures r.Err? ==> r.error == Overflow
  {
    if 0 <= v < 256 then Ok(v) else Err(Overflow)
  }

  /** One component of a cube centre: `checked((byte)((coord << 4) + 8))`. */
  function CenterComponent(coord: int): Result<byte>
    requires 0 <= coord < CubeLength
  {
    CheckedByte(coord * 16 + CoordOffset)
  }

  /** The checked conversions of the centre never throw: a component is at most 15 * 16 + 8 = 248. */
  lemma CenterComponentFits(coord: int)
    requires 0 <= coord < CubeLength
    ensures CenterComponent(coord).Ok? && CenterComponent(coord).value <= 248
  {
  }

  /**
    The centre of a colour's cube. It lies in the same cube, at most 8 away from
    the colour in each component.
   */
  function CenterOf(c: ColorBgr24): (z: ColorBgr24)
    ensures z.b <= 248 && z.g <= 248 && z.r <= 248
    ensures Coordinate(z) == Coordinate(c)
    ensures -8 <= z.b - c.b <= 8 && -8 <= z.g - c.g <= 8 && -8 <= z.r - c.r <= 8
  {
    var p := Coordinate(c);
    CenterComponentFits(p.x);
    CenterComponentFits(p.y);
    CenterComponentFits(p.z);
    FromBgr(CenterComponent(p.x).value, CenterComponent(p.y).value, CenterComponent(p.z).value)
  }

  /** `X | Y << 4 | Z << 8`, on 32-bit words. */
  function CoordinateIndex(p: Point3Int32): (k: int)
    requires 0 <= p.x < CubeLength && 0 <= p.y < CubeLength && 0 <= p.z < CubeLength
    ensures 0 <= k < CubeCount
    ensures k == p.x + 16 * p.y + 256 * p.z
  {
    PackIndex(p.x, p.y, p.z)
  }

  function PackIndex(x: int, y: int, z: int): (k: int)
    requires 0 <= x < 16 && 0 <= y < 16 && 0 <= z < 16
    ensures k == x + 16 * y + 256 * z
  {
    var vx := x as bv32;
    var vy := y as bv32;
    var vz := z as bv32;
    BackToInt(x);
    BackToInt(y);
    BackToInt(z);
    OrIsSum(vx, vy, vz);
    (vx | (vy << 4) | (vz << 8)) as int
  }

  lemma BackToInt(x: int)
    requires 0 <= x < 16
    ensures (x as bv32) as int == x && x as bv32 < 16
  {
  }

  /** The three fields occupy disjoint bits, so the `|` is a sum. */
  lemma OrIsSum(x: bv32, y: bv32, z: bv32)
    requires x < 16 && y < 16 && z < 16
    ensures x | (y << 4) | (z << 8) == x + y * 16 + z * 256
    ensures (x + y * 16 + z * 256) as int == x as int + 16 * (y as int) + 256 * (z as int)
  {
  }

  /** The slot of the proximity map that serves a colour. */
  function BucketOf(c: ColorBgr24): int {
    CoordinateIndex(Coordinate(c))
  }

  /** The centre of the cube whose slot is `k`. */
  function CenterOfBucket(k: int): ColorBgr24
    requires 0 <= k < CubeCount
  {
    FromBgr((k % 16) * 16 + CoordOffset, ((k / 16) % 16) * 16 + CoordOffset, (k / 256) * 16 + CoordOffset)
  }

  /** A slot number splits back into its three coordinates. */
  lemma SplitIndex(x: int, y: int, z: int)
    requires 0 <= x < 16 && 0 <= y < 16 && 0 <= z < 16
    ensures (x + 16 * y + 256 * z) % 16 == x
    ensures ((x + 16 * y + 256 * z) / 16) % 16 == y
    ensures (x + 16 * y + 256 * z) / 256 == z
  {
    var k := x + 16 * y + 256 * z;
    assert k == x + 16 * (y + 16 * z);
    assert k / 16 == y + 16 * z;
    assert k == (x + 16 * y) + 256 * z;
  }

  /** Two colours share a slot exactly when they lie in the same cube. */
  lemma BucketIdentifiesCube(c: ColorBgr24, d: ColorBgr24)
    ensures BucketOf(c) == BucketOf(d) <==> Coordinate(c) == Coordinate(d)
  {
    var p, q := Coordinate(c), Coordinate(d);
    PackInjective(p.x, p.y, p.z, q.x, q.y, q.z);
  }

  lemma PackInjective(x: int, y: int, z: int, x': int, y': int, z': int)
    requires 0 <= x < 16 && 0 <= y < 16 && 0 <= z < 16
    requires 0 <= x' < 16 && 0 <= y' < 16 && 0 <= z' < 16
    ensures x + 16 * y + 256 * z == x' + 16 * y' + 256 * z' ==> x == x' && y == y' && z == z'
  {
    SplitIndex(x, y, z);
    SplitIndex(x', y', z');
  }

  /** The slot determines the centre. */
  lemma BucketCenter(c: ColorBgr24)
    ensures CenterOf(c) == CenterOfBucket(BucketOf(c))
  {
    var p := Coordinate(c);
    CenterOfIs(c);
    CenterOfSlot(BucketOf(c), p.x, p.y, p.z);
  }

  lemma CenterOfIs(c: ColorBgr24)
    ensures var p := Coordinate(c);
      CenterOf(c) == FromBgr(p.x * 16 + CoordOffset, p.y * 16 + CoordOffset, p.z * 16 + CoordOffset)
  {
  }

  lemma CenterOfSlot(k: int, x: int, y: int, z: int)
    requires 0 <= x < 16 && 0 <= y < 16 && 0 <= z < 16 && k == x + 16 * y + 256 * z
    ensures 0 <= k < CubeCount
    ensures CenterOfBucket(k) == FromBgr(x * 16 + CoordOffset, y * 16 + CoordOffset, z * 16 + CoordOffset)
  {
    SplitIndex(x, y, z);
  }

  // ---------------------------------------------------------------- per-cube lists

  /** The index template `0, 1, ..., n-1`. */
  function Template(n: nat): (t: seq<int>)
    ensures |t| == n && forall i :: 0 <= i < n ==> t[i] == i
  {
    seq(n, i => i)
  }

  /** The constructor's template loop: `checked((byte)i)` for every opaque index. */
  function CreateTemplate(n: nat): (r: Result<seq<int>>)
    ensures r.Ok? <==> n <= 256
    ensures r.Err? ==> r.error == Overflow
    ensures r.Ok? ==> r.value == Template(n)
  {
    if n <= 256 then Ok(Template(n)) else Err(Overflow)
  }

  /** `dCenterToColor2Cache`: the squared distance of each opaque colour from a centre. */
  function DistancesFrom(palette: seq<ColorBgr24>, center: ColorBgr24): (d: seq<int>)
    ensures |d| == |palette|
    ensures forall i :: 0 <= i < |palette| ==> d[i] == DistanceSquared(palette[i], center)
  {
    seq(|palette|, i requires 0 <= i < |palette| => DistanceSquared(palette[i], center))
  }

  /** IndexByDistanceComparer: an index is ordered by its cached distance. */
  function ByDistance(dist: seq<int>): int -> int {
    i => if 0 <= i < |dist| then dist[i] else 0
  }

  /**
    A proximity list for `center`: every opaque index exactly once, in
    non-decreasing distance from the centre.
   */
  ghost predicate ProximityList(palette: seq<ColorBgr24>, center: ColorBgr24, s: seq<int>) {
    multiset(s) == multiset(Template(|palette|)) &&
    Sorted(s, ByDistance(DistancesFrom(palette, center)), 0, |s|)
  }

  /** A proximity list holds each opaque index, and nothing else. */
  lemma ProximityListEntries(palette: seq<ColorBgr24>, center: ColorBgr24, s: seq<int>)
    requires ProximityList(palette, center, s)
    ensures |s| == |palette| && IndicesIn(palette, s)
    ensures forall k :: 0 <= k < |palette| ==> k in s
  {
    var t := Template(|palette|);
    assert |s| == |multiset(s)| == |multiset(t)| == |palette|;
    forall p | 0 <= p < |s|
      ensures 0 <= s[p] < |palette|
    {
      assert s[p] in multiset(s);
      assert s[p] in t;
    }
    forall k | 0 <= k < |palette|
      ensures k in s
    {
      assert t[k] == k;
      assert k in multiset(t);
    }
  }

  /** Along a proximity list the distance from the centre never decreases. */
  lemma ProximityListOrder(palette: seq<ColorBgr24>, center: ColorBgr24, s: seq<int>, p: int, q: int)
    requires ProximityList(palette, center, s) && IndicesIn(palette, s)
    requires 0 <= p <= q < |s|
    ensures DistanceSquared(palette[s[p]], center) <= DistanceSquared(palette[s[q]], center)
  {
    var key := ByDistance(DistancesFrom(palette, center));
    if p < q {
      assert key(s[p]) <= key(s[q]);
    }
  }

  /**
    The map's state: the base palette, the index template, and the cube lists
    built so far, each a proximity list for its own cube's centre.
   */
  datatype ProximityMap = ProximityMap(palette: PaletteMap, template: seq<int>, buckets: map<int, seq<int>>)

  ghost predicate Valid(m: ProximityMap) {
    ValidPalette(m.palette) &&
    |m.palette.opaqueColors| <= 256 &&
    m.template == Template(|m.palette.opaqueColors|) &&
    forall k :: k in m.buckets ==>
      0 <= k < CubeCount && ProximityList(m.palette.opaqueColors, CenterOfBucket(k), m.buckets[k])
  }

  /** ProximityPaletteMap's constructor (and PaletteMap.Create, which builds one). */
  function CreateProximity(colors: seq<ColorBgra32>): (r: Result<ProximityMap>)
    ensures Create(colors).Err? ==> r == Err(Create(colors).error)
    ensures Create(colors).Ok? ==>
      (r.Err? <==> |Create(colors).value.opaqueColors| > 256) && (r.Err? ==> r.error == Overflow)
    ensures r.Ok? ==> Valid(r.value) && r.value.palette == Create(colors).value && r.value.buckets == map[]
  {
    var base :- Create(colors);
    var template :- CreateTemplate(|base.opaqueColors|);
    Ok(ProximityMap(base, template, map[]))
  }

  /**
    GetPaletteIndicesFromProximityMap: the list for the target's cube, built and
    stored on first use, reused unchanged afterwards.
   */
  method GetPaletteIndices(m: ProximityMap, color: ColorBgr24) returns (indices: seq<int>, center: ColorBgr24, m': ProximityMap)
    requires Valid(m)
    ensures Valid(m') && m'.palette == m.palette && m'.template == m.template
    ensures center == CenterOf(color)
    ensures ProximityList(m.palette.opaqueColors, center, indices)
    ensures m'.buckets == m.buckets[BucketOf(color) := indices]
    ensures BucketOf(color) in m.buckets ==> indices == m.buckets[BucketOf(color)] && m' == m
  {
    var p := Coordinate(color);
    center := CenterOf(color);
    var k := CoordinateIndex(p);
    BucketCenter(color);
    if k in m.buckets {
      indices := m.buckets[k];
      m' := m;
    } else {
      var dist := DistancesFrom(m.palette.opaqueColors, center);
      indices := ListUtil.SortAll(m.template, ByDistance(dist));
      m' := m.(buckets := m.buckets[k := indices]);
    }
  }

  // ---------------------------------------------------------------- the search

  /** Every entry of `indices` indexes `palette`. */
  predicate IndicesIn(palette: seq<ColorBgr24>, indices: seq<int>) {
    forall p :: 0 <= p < |indices| ==> 0 <= indices[p] < |palette|
  }

  /** The distance from the target of the colour at list position `p`. */
  function DistAt(palette: seq<ColorBgr24>, indices: seq<int>, target: ColorBgr24, p: int): int
    requires IndicesIn(palette, indices) && 0 <= p < |indices|
  {
    DistanceSquared(target, palette[indices[p]])
  }

  /**
    Among list positions [0, n), the one at `pos` is closest to the target,
    and it is the last such: every later position is strictly farther.
   */
  predicate ClosestSoFar(palette: seq<ColorBgr24>, indices: seq<int>, target: ColorBgr24, pos: int, n: int)
    requires IndicesIn(palette, indices) && 0 <= pos < n <= |indices|
  {
    && (forall p :: 0 <= p < n ==> DistAt(palette, indices, target, pos) <= DistAt(palette, indices, target, p))
    && (forall p :: pos < p < n ==> DistAt(palette, indices, target, p) > DistAt(palette, indices, target, pos))
  }

  /**
    The loop of OnFindClosestPaletteIndex from list position `i`, with the closest
    colour so far at position `pos`. It returns the final position and the number of
    positions examined: a colour at least as close as the best replaces it, and a
    farther one whose ring is beyond the best distance ends the walk.
   */
  function SearchFrom(palette: seq<ColorBgr24>, indices: seq<int>, target: ColorBgr24, center: ColorBgr24,
                      i: nat, pos: nat): (r: (nat, nat))
    requires IndicesIn(palette, indices) && pos < i <= |indices|
    requires ClosestSoFar(palette, indices, target, pos, i)
    ensures r.0 < r.1 && i <= r.1 <= |indices|
    ensures ClosestSoFar(palette, indices, target, r.0, r.1)
    ensures r.1 < |indices| ==>
      (r.0 < r.1 - 1 &&
       RingBreak(DistanceSquared(center, target), DistanceSquared(center, palette[indices[r.1 - 1]]),
                 DistAt(palette, indices, target, r.0)))
    decreases |indices| - i
  {
    if i == |indices| then
      (pos, i)
    else
      var best := DistAt(palette, indices, target, pos);
      var d := DistAt(palette, indices, target, i);
      if d <= best then
        CloserTakesOver(palette, indices, target, pos, i);
        SearchFrom(palette, indices, target, center, i + 1, i)
      else
        FartherKeeps(palette, indices, target, pos, i);
        if RingBreak(DistanceSquared(center, target), DistanceSquared(center, palette[indices[i]]), best) then
          (pos, i + 1)
        else
          SearchFrom(palette, indices, target, center, i + 1, pos)
  }

  /** A colour at least as close as the best so far becomes the best. */
  lemma CloserTakesOver(palette: seq<ColorBgr24>, indices: seq<int>, target: ColorBgr24, pos: nat, i: nat)
    requires IndicesIn(palette, indices) && pos < i < |indices|
    requires ClosestSoFar(palette, indices, target, pos, i)
    requires DistAt(palette, indices, target, i) <= DistAt(palette, indices, target, pos)
    ensures ClosestSoFar(palette, indices, target, i, i + 1)
  {
  }

  /** A strictly farther colour leaves the best in place. */
  lemma FartherKeeps(palette: seq<ColorBgr24>, indices: seq<int>, target: ColorBgr24, pos: nat, i: nat)
    requires IndicesIn(palette, indices) && pos < i < |indices|
    requires ClosestSoFar(palette, indices, target, pos, i)
    requires DistAt(palette, indices, target, i) > DistAt(palette, indices, target, pos)
    ensures ClosestSoFar(palette, indices, target, pos, i + 1)
  {
  }

  /** The whole walk, starting from the first entry of the list. */
  function Search(palette: seq<ColorBgr24>, indices: seq<int>, target: ColorBgr24, center: ColorBgr24): (r: (nat, nat))
    requires IndicesIn(palette, indices) && |indices| >= 1
    ensures r.0 < r.1 <= |indices|
    ensures forall p :: 0 <= p < r.1 ==> DistAt(palette, indices, target, r.0) <= DistAt(palette, indices, target, p)
    ensures forall p :: r.0 < p < r.1 ==> DistAt(palette, indices, target, p) > DistAt(palette, indices, target, r.0)
  {
    SearchFrom(palette, indices, target, center, 1, 0)
  }

  /** Past the stopping point every colour is strictly farther than the answer. */
  lemma BeyondStop(palette: seq<ColorBgr24>, indices: seq<int>, target: ColorBgr24, center: ColorBgr24, p: int)
    requires |palette| >= 1 && ProximityList(palette, center, indices)
    requires IndicesIn(palette, indices) && |indices| >= 1
    requires Search(palette, indices, target, center).1 <= p < |indices|
    ensures DistAt(palette, indices, target, Search(palette, indices, target, center).0) < DistAt(palette, indices, target, p)
  {
    var r := SearchFrom(palette, indices, target, center, 1, 0);
    var m, j, k := palette[indices[r.0]], palette[indices[r.1 - 1]], palette[indices[p]];
    ProximityListOrder(palette, center, indices, r.0, r.1 - 1);
    ProximityListOrder(palette, center, indices, r.1 - 1, p);
    DistanceSquaredMetric(center, target);
    DistanceSquaredMetric(center, j);
    RingBreakSound(target, center, m, j, k);
  }

  /** The answer is at least as close as every entry of the list, examined or not. */
  lemma SearchBeatsWholeList(palette: seq<ColorBgr24>, indices: seq<int>, target: ColorBgr24, center: ColorBgr24)
    requires |palette| >= 1 && ProximityList(palette, center, indices)
    requires IndicesIn(palette, indices) && |indices| >= 1
    ensures forall p :: 0 <= p < |indices| ==>
      DistAt(palette, indices, target, Search(palette, indices, target, center).0) <= DistAt(palette, indices, target, p)
  {
    var r := Search(palette, indices, target, center);
    forall p | r.1 <= p < |indices|
      ensures DistAt(palette, indices, target, r.0) <= DistAt(palette, indices, target, p)
    {
      BeyondStop(palette, indices, target, center, p);
    }
  }

  /** A bound on every list entry is a bound on every colour, since the list holds every index. */
  lemma ListCoversPalette(palette: seq<ColorBgr24>, indices: seq<int>, target: ColorBgr24, best: int)
    requires IndicesIn(palette, indices)
    requires forall k :: 0 <= k < |palette| ==> k in indices
    requires forall p :: 0 <= p < |indices| ==> best <= DistAt(palette, indices, target, p)
    ensures forall c :: 0 <= c < |palette| ==> best <= DistanceSquared(target, palette[c])
  {
    forall c | 0 <= c < |palette|
      ensures best <= DistanceSquared(target, palette[c])
    {
      assert c in indices;
      var p :| 0 <= p < |indices| && indices[p] == c;
      assert best <= DistAt(palette, indices, target, p);
    }
  }

  /**
    The early exit loses nothing: on a proximity list the walk ends at a colour as
    close to the target as any colour of the palette.
   */
  lemma SearchFindsClosest(palette: seq<ColorBgr24>, indices: seq<int>, target: ColorBgr24, center: ColorBgr24)
    requires |palette| >= 1 && ProximityList(palette, center, indices)
    ensures IndicesIn(palette, indices) && |indices| >= 1
    ensures IsClosest(palette, target, indices[Search(palette, indices, target, center).0])
  {
    ProximityListEntries(palette, center, indices);
    SearchBeatsWholeList(palette, indices, target, center);
    var q := Search(palette, indices, target, center).0;
    ListCoversPalette(palette, indices, target, DistAt(palette, indices, target, q));
  }

  /**
    ProximityPaletteMap.OnFindClosestPaletteIndex. With no opaque colours, reading
    `OpaqueColorsArray[0]` throws before any state changes.
   */
  method OnFindClosestPaletteIndex(m: ProximityMap, target: ColorBgr24) returns (r: Result<byte>, m': ProximityMap)
    requires Valid(m)
    ensures Valid(m') && m'.palette == m.palette
    ensures r.Err? <==> |m.palette.opaqueColors| == 0
    ensures r.Err? ==> r.error == IndexOutOfRange && m' == m
    ensures r.Ok? ==> IsClosest(m.palette.opaqueColors, target, r.value)
    ensures r.Ok? ==>
      (BucketOf(target) in m'.buckets &&
       m'.buckets == m.buckets[BucketOf(target) := m'.buckets[BucketOf(target)]] &&
       (BucketOf(target) in m.buckets ==> m' == m))
    ensures r.Ok? ==> var s := m'.buckets[BucketOf(target)];
      IndicesIn(m.palette.opaqueColors, s) && |s| >= 1 &&
      r.value == s[Search(m.palette.opaqueColors, s, target, CenterOf(target)).0]
  {
    var palette := m.palette.opaqueColors;
    if |palette| == 0 {
      return Err(IndexOutOfRange), m;
    }
    var indices, center;
    indices, center, m' := GetPaletteIndices(m, target);
    SearchFindsClosest(palette, indices, target, center);
    var found := Search(palette, indices, target, center);
    r := Ok(indices[found.0]);
  }

  /** ProximityPaletteMap.FindClosestPaletteIndex. */
  method FindClosestPaletteIndex(m: ProximityMap, target: ColorBgra32) returns (r: Result<byte>, m': ProximityMap)
    requires Valid(m)
    ensures Valid(m') && m'.palette == m.palette
    ensures TakesTransparent(m.palette, target) ==> r == Ok(|m.palette.colors| - 1) && m' == m
    ensures !TakesTransparent(m.palette, target) ==>
      (r.Err? <==> |m.palette.opaqueColors| == 0) &&
      (r.Ok? ==> IsClosest(m.palette.opaqueColors, ColorBgr24(target.b, target.g, target.r), r.value))
  {
    if TakesTransparent(m.palette, target) {
      return Ok(m.palette.transparentIndex.value), m;
    }
    r, m' := OnFindClosestPaletteIndex(m, Bgr24FromBgra32(target));
  }

  /** The proximity answer is exactly as close to the target as the linear search's. */
  lemma AgreesWithLinearDistance(palette: seq<ColorBgr24>, target: ColorBgr24, k: int)
    requires |palette| <= 256 && IsClosest(palette, target, k)
    ensures LinearOnFind(palette, target).Ok?
    ensures DistanceSquared(target, palette[k]) == DistanceSquared(target, palette[LinearOnFind(palette, target).value])
  {
    ClosestSameDistance(palette, target, k, LinearOnFind(palette, target).value);
  }

  /**
    The indices themselves can differ. Two colours 9 away from black, the nearer
    one to black's cube centre first: the walk replaces on `<=` and answers with the
    second, while the linear search keeps the first.
   */
  lemma TieGoesToLaterCandidate()
    ensures var palette := [ColorBgr24(2, 2, 1), ColorBgr24(3, 0, 0)];
      var target := ColorBgr24(0, 0, 0);
      var center := CenterOf(target);
      ProximityList(palette, center, [0, 1]) &&
      Search(palette, [0, 1], target, center).0 == 1 &&
      LinearOnFind(palette, target) == Ok(0) &&
      DistanceSquared(target, palette[0]) == DistanceSquared(target, palette[1])
  {
    var palette := [ColorBgr24(2, 2, 1), ColorBgr24(3, 0, 0)];
    var target := ColorBgr24(0, 0, 0);
    var center := CenterOf(target);
    assert center == ColorBgr24(8, 8, 8);
    assert DistanceSquared(palette[0], center) == 121;
    assert DistanceSquared(palette[1], center) == 153;
    assert DistanceSquared(target, palette[0]) == 9 == DistanceSquared(target, palette[1]);
    assert Template(2) == [0, 1];
    assert IsFirstClosest(palette, target, 0);
  }
}
