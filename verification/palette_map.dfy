/**
  PaletteMap: a validated palette of at most one transparent entry (the last one)
  after the opaque colours, and the dispatch of a lookup to the transparent index
  or to the opaque colours. LinearSearchPaletteMap and CachingPaletteMap are the two
  simple maps on top of it.
 */
module PaletteMaps {
  import opened Wrappers
  import opened Int32Util
  import opened Colors
  import opened ColorBgr24Util

  /**
    The state a palette map keeps after construction: the colours as given, the
    B, G, R of the opaque prefix, and the index of the trailing transparent entry.
   */
  datatype PaletteMap = PaletteMap(colors: seq<ColorBgra32>, opaqueColors: seq<ColorBgr24>, transparentIndex: Option<byte>)

  /** Entry `i` is the permitted transparent one: all four bytes 0 (packed value 0, see `PackedZero`), in last place. */
  predicate IsTransparentEntry(colors: seq<ColorBgra32>, i: int)
    requires 0 <= i < |colors|
  {
    colors[i] == TransparentBlack && i == |colors| - 1
  }

  /** Entry `i` makes the constructor throw ArgumentException. */
  predicate BadEntry(colors: seq<ColorBgra32>, i: int)
    requires 0 <= i < |colors|
  {
    colors[i].a != 255 && !IsTransparentEntry(colors, i)
  }

  predicate HasBadEntry(colors: seq<ColorBgra32>) {
    exists i :: 0 <= i < |colors| && BadEntry(colors, i)
  }

  /** The list ends in the permitted transparent entry. */
  predicate EndsTransparent(colors: seq<ColorBgra32>) {
    |colors| > 0 && IsTransparentEntry(colors, |colors| - 1)
  }

  lemma PackedZero(c: ColorBgra32)
    ensures Bgra(c) == 0 <==> c == TransparentBlack
  {
  }

  /** No entry from `i` on makes the constructor throw ArgumentException. */
  predicate NoBadFrom(colors: seq<ColorBgra32>, i: nat) {
    forall k :: i <= k < |colors| ==> !BadEntry(colors, k)
  }

  /**
    The constructor's validation loop from index `i` on, carrying the opaque count
    and the transparent index found so far.
   */
  function ValidateFrom(colors: seq<ColorBgra32>, i: nat, opaqueCount: int, transparent: Option<byte>)
    : (r: Result<(int, Option<byte>)>)
    requires i <= |colors|
    ensures !NoBadFrom(colors, i) ==> r == Err(Argument)
    ensures NoBadFrom(colors, i) ==>
      r == if i < |colors| && EndsTransparent(colors) then
             (if |colors| - 1 > 255 then Err(Overflow) else Ok((|colors| - 1, Some(|colors| - 1))))
           else
             Ok((opaqueCount, transparent))
    decreases |colors| - i
  {
    if i == |colors| then
      Ok((opaqueCount, transparent))
    else if colors[i].a == 255 then
      assert NoBadFrom(colors, i) <==> NoBadFrom(colors, i + 1) by {
        assert !BadEntry(colors, i);
      }
      ValidateFrom(colors, i + 1, opaqueCount, transparent)
    else if colors[i] == TransparentBlack && i == |colors| - 1 then
      assert NoBadFrom(colors, i);
      if i > 255 then Err(Overflow) else ValidateFrom(colors, i + 1, i, Some(i))
    else
      assert BadEntry(colors, i);
      Err(Argument)
  }

  /**
    What a constructed palette map holds: a non-empty palette, the B, G, R of its
    opaque prefix, and the index of the transparent last entry if it has one.
   */
  predicate ValidPalette(m: PaletteMap) {
    |m.colors| > 0 &&
    (m.transparentIndex.Some? <==> EndsTransparent(m.colors)) &&
    (m.transparentIndex.Some? ==> m.transparentIndex.value == |m.colors| - 1) &&
    |m.opaqueColors| == (if EndsTransparent(m.colors) then |m.colors| - 1 else |m.colors|) &&
    forall i :: 0 <= i < |m.opaqueColors| ==>
      m.colors[i].a == 255 && m.opaqueColors[i] == Bgr24FromBgra32(m.colors[i])
  }

  /** PaletteMap's constructor. */
  function Create(colors: seq<ColorBgra32>): (r: Result<PaletteMap>)
    ensures |colors| == 0 ==> r == Err(ArgumentOutOfRange)
    ensures |colors| > 0 ==> (r == Err(Argument) <==> HasBadEntry(colors))
    ensures r == Err(Overflow) <==> |colors| > 256 && EndsTransparent(colors) && !HasBadEntry(colors)
    ensures r.Ok? <==> |colors| > 0 && !HasBadEntry(colors) && !(|colors| > 256 && EndsTransparent(colors))
    ensures r.Ok? ==> r.value.colors == colors && ValidPalette(r.value)
  {
    if |colors| == 0 then
      Err(ArgumentOutOfRange)
    else
      assert HasBadEntry(colors) <==> !NoBadFrom(colors, 0);
      var v :- ValidateFrom(colors, 0, |colors|, None);
      var count := v.0;
      var m := PaletteMap(colors, seq(count, i requires 0 <= i < count => Bgr24FromBgra32(colors[i])), v.1);
      OpaquePrefix(colors, count);
      Ok(m)
  }

  /** Below the opaque count every entry has A = 255, since the only other permitted entry is the last. */
  lemma OpaquePrefix(colors: seq<ColorBgra32>, count: int)
    requires NoBadFrom(colors, 0)
    requires count == (if EndsTransparent(colors) then |colors| - 1 else |colors|)
    ensures forall i :: 0 <= i < count ==> colors[i].a == 255
  {
    forall i | 0 <= i < count
      ensures colors[i].a == 255
    {
      assert !IsTransparentEntry(colors, i);
      assert !BadEntry(colors, i);
    }
  }

  /** A valid palette map is exactly what the constructor builds from its colours. */
  lemma CreateRecovers(m: PaletteMap)
    requires ValidPalette(m)
    ensures Create(m.colors) == Ok(m)
  {
    var colors := m.colors;
    forall i | 0 <= i < |colors|
      ensures !BadEntry(colors, i)
    {
      if i < |m.opaqueColors| {
        assert colors[i].a == 255;
      }
    }
    assert !HasBadEntry(colors);
    var r := Create(colors);
    assert r.Ok?;
    assert r.value.opaqueColors == m.opaqueColors;
  }

  /**
    The split is lossless: the palette is the opaque colours made opaque again,
    followed by the all-zero colour when there is a transparent index.
   */
  lemma PaletteReassembles(m: PaletteMap)
    requires ValidPalette(m)
    ensures m.colors == seq(|m.opaqueColors|, i requires 0 <= i < |m.opaqueColors| => Bgra32FromBgr24(m.opaqueColors[i]))
                      + (if m.transparentIndex.Some? then [TransparentBlack] else [])
  {
    var n := |m.opaqueColors|;
    var front := seq(n, i requires 0 <= i < n => Bgra32FromBgr24(m.opaqueColors[i]));
    var back: seq<ColorBgra32> := if m.transparentIndex.Some? then [TransparentBlack] else [];
    forall i | 0 <= i < n
      ensures m.colors[i] == front[i]
    {
      var c := m.colors[i];
      assert c.a == 255 && m.opaqueColors[i] == Bgr24FromBgra32(c);
    }
    assert m.colors == front + back;
  }

  /** The lookup goes to the transparent index: a translucent target and a palette that has one. */
  predicate TakesTransparent(m: PaletteMap, target: ColorBgra32) {
    target.a < 255 && m.transparentIndex.Some?
  }

  /**
    PaletteMap.FindClosestPaletteIndex: a translucent target maps to the transparent
    index when there is one; every other target is looked up by its B, G, R alone,
    through `onFind`, the map's OnFindClosestPaletteIndex.
   */
  function FindClosestPaletteIndex(m: PaletteMap, onFind: ColorBgr24 -> Result<byte>, target: ColorBgra32): (r: Result<byte>)
    requires ValidPalette(m)
    ensures TakesTransparent(m, target) ==> r.Ok? && r.value == |m.colors| - 1 && m.colors[r.value] == TransparentBlack
    ensures !TakesTransparent(m, target) ==>
      r == onFind(ColorBgr24(target.b, target.g, target.r))
  {
    if TakesTransparent(m, target) then
      Ok(m.transparentIndex.value)
    else
      onFind(Bgr24FromBgra32(target))
  }

  /** Two targets with the same B, G, R that do not take the transparent index get the same answer. */
  lemma AnswerIgnoresAlpha(m: PaletteMap, onFind: ColorBgr24 -> Result<byte>, s: ColorBgra32, t: ColorBgra32)
    requires ValidPalette(m)
    requires s.b == t.b && s.g == t.g && s.r == t.r
    requires !TakesTransparent(m, s) && !TakesTransparent(m, t)
    ensures FindClosestPaletteIndex(m, onFind, s) == FindClosestPaletteIndex(m, onFind, t)
  {
  }

  // ---------------------------------------------------------------- closest colours

  /** `k` indexes a colour of `palette` at least as close to `target` as every other. */
  ghost predicate IsClosest(palette: seq<ColorBgr24>, target: ColorBgr24, k: int) {
    0 <= k < |palette| &&
    forall i :: 0 <= i < |palette| ==> DistanceSquared(target, palette[k]) <= DistanceSquared(target, palette[i])
  }

  /** `k` is the first index of a closest colour. */
  ghost predicate IsFirstClosest(palette: seq<ColorBgr24>, target: ColorBgr24, k: int) {
    IsClosest(palette, target, k) &&
    forall i :: 0 <= i < k ==> DistanceSquared(target, palette[i]) > DistanceSquared(target, palette[k])
  }

  /** Any two closest colours are equally far from the target. */
  lemma ClosestSameDistance(palette: seq<ColorBgr24>, target: ColorBgr24, j: int, k: int)
    requires IsClosest(palette, target, j) && IsClosest(palette, target, k)
    ensures DistanceSquared(target, palette[j]) == DistanceSquared(target, palette[k])
  {
  }

  /** There is only one first closest colour. */
  lemma FirstClosestUnique(palette: seq<ColorBgr24>, target: ColorBgr24, j: int, k: int)
    requires IsFirstClosest(palette, target, j) && IsFirstClosest(palette, target, k)
    ensures j == k
  {
    var dj, dk := DistanceSquared(target, palette[j]), DistanceSquared(target, palette[k]);
    assert j < k ==> dj > dk;
    assert k < j ==> dk > dj;
  }

  /** A target that is one of the colours is answered with a colour at distance 0. */
  lemma ClosestOfMember(palette: seq<ColorBgr24>, target: ColorBgr24, k: int)
    requires target in palette && IsClosest(palette, target, k)
    ensures DistanceSquared(target, palette[k]) == 0 && palette[k] == target
  {
    var i :| 0 <= i < |palette| && palette[i] == target;
    DistanceSquaredMetric(target, palette[i]);
    DistanceSquaredMetric(target, palette[k]);
  }

  // ---------------------------------------------------------------- LinearSearchPaletteMap

  /**
    The loop of LinearSearchPaletteMap.OnFindClosestPaletteIndex from index `i`:
    `best` is the index of the closest colour so far and `bestIndex` its byte.
   */
  function LinearFrom(palette: seq<ColorBgr24>, target: ColorBgr24, i: nat, best: nat, bestIndex: byte): (r: (nat, byte))
    requires best < i <= |palette| && bestIndex == best % 256
    requires forall j :: 0 <= j < i ==> DistanceSquared(target, palette[best]) <= DistanceSquared(target, palette[j])
    requires forall j :: 0 <= j < best ==> DistanceSquared(target, palette[j]) > DistanceSquared(target, palette[best])
    ensures IsFirstClosest(palette, target, r.0) && r.1 == r.0 % 256
    decreases |palette| - i
  {
    if i == |palette| then
      (best, bestIndex)
    else if DistanceSquared(target, palette[i]) < DistanceSquared(target, palette[best]) then
      LinearFrom(palette, target, i + 1, i, i % 256)
    else
      LinearFrom(palette, target, i + 1, best, bestIndex)
  }

  /**
    LinearSearchPaletteMap.OnFindClosestPaletteIndex: the first closest opaque colour,
    its index truncated to a byte (`(byte)i`). Reading element 0 of an empty list
    throws IndexOutOfRangeException.
   */
  function LinearOnFind(palette: seq<ColorBgr24>, target: ColorBgr24): (r: Result<byte>)
    ensures r.Err? <==> |palette| == 0
    ensures r.Err? ==> r.error == IndexOutOfRange
    ensures r.Ok? ==> exists k :: IsFirstClosest(palette, target, k) && r.value == k % 256
    ensures r.Ok? && |palette| <= 256 ==> IsFirstClosest(palette, target, r.value)
  {
    if |palette| == 0 then
      Err(IndexOutOfRange)
    else
      var found := LinearFirst(palette, target);
      FirstClosestByte(palette, target, found.0, found.1);
      Ok(found.1)
  }

  /** The byte of the first closest index names it whenever the palette fits in a byte. */
  lemma FirstClosestByte(palette: seq<ColorBgr24>, target: ColorBgr24, k: nat, b: byte)
    requires IsFirstClosest(palette, target, k) && b == k % 256
    ensures exists j :: IsFirstClosest(palette, target, j) && b == j % 256
    ensures |palette| <= 256 ==> IsFirstClosest(palette, target, b as int)
  {
    if |palette| <= 256 {
      assert k < 256;
    }
  }

  /** The whole loop of LinearSearchPaletteMap.OnFindClosestPaletteIndex, started at index 1. */
  function LinearFirst(palette: seq<ColorBgr24>, target: ColorBgr24): (r: (nat, byte))
    requires |palette| > 0
    ensures IsFirstClosest(palette, target, r.0) && r.1 == r.0 % 256
  {
    LinearFrom(palette, target, 1, 0, 0)
  }

  /** LinearSearchPaletteMap.FindClosestPaletteIndex for a constructed palette. */
  function LinearFindClosest(m: PaletteMap, target: ColorBgra32): (r: Result<byte>)
    requires ValidPalette(m)
    ensures TakesTransparent(m, target) ==> r == Ok(|m.colors| - 1)
    ensures !TakesTransparent(m, target) ==>
      (r.Err? <==> |m.opaqueColors| == 0) &&
      (r.Ok? ==> exists k :: IsFirstClosest(m.opaqueColors, ColorBgr24(target.b, target.g, target.r), k) && r.value == k % 256) &&
      (r.Ok? && |m.opaqueColors| <= 256 ==> IsFirstClosest(m.opaqueColors, ColorBgr24(target.b, target.g, target.r), r.value))
  {
    FindClosestPaletteIndex(m, t => LinearOnFind(m.opaqueColors, t), target)
  }

  // ---------------------------------------------------------------- CachingPaletteMap

  /**
    CachingPaletteMap: its own palette state plus the index cache. A key mapped to -1
    was looked up but never answered (the wrapped map threw).
   */
  datatype CachingMap = CachingMap(palette: PaletteMap, cache: map<ColorBgr24, int>)

  /** The constructor: the base class validates the wrapped map's colours again. */
  function CreateCaching(inner: PaletteMap): (r: Result<CachingMap>)
    ensures r.Ok? ==> r.value.palette.colors == inner.colors && r.value.cache == map[]
  {
    var p :- Create(inner.colors);
    Ok(CachingMap(p, map[]))
  }

  /** Wrapping a constructed map gives a caching map over the very same palette state. */
  lemma CachingOverSamePalette(inner: PaletteMap)
    requires ValidPalette(inner)
    ensures CreateCaching(inner) == Ok(CachingMap(inner, map[]))
  {
    CreateRecovers(inner);
  }

  /**
    Every answered cache entry is what the wrapped map says for that colour made
    palette. `innerFind` is the wrapped map's FindClosestPaletteIndex.
   */
  ghost predicate CacheAgrees(m: CachingMap, innerFind: ColorBgra32 -> Result<byte>) {
    forall c :: c in m.cache ==>
      m.cache[c] == -1 || (0 <= m.cache[c] < 256 && innerFind(Bgra32FromBgr24(c)) == Ok(m.cache[c]))
  }

  /** CachingPaletteMap.OnFindClosestPaletteIndex: answer from the cache, or ask and remember. */
  function CachingOnFind(m: CachingMap, innerFind: ColorBgra32 -> Result<byte>, target: ColorBgr24)
    : (r: (Result<byte>, CachingMap))
    requires CacheAgrees(m, innerFind)
    ensures r.0 == innerFind(Bgra32FromBgr24(target))
    ensures CacheAgrees(r.1, innerFind) && r.1.palette == m.palette
    ensures target in r.1.cache && r.1.cache.Keys == m.cache.Keys + {target}
    ensures forall c :: c in m.cache && c != target ==> r.1.cache[c] == m.cache[c]
    ensures r.0.Ok? ==> r.1.cache[target] == r.0.value
    ensures target in m.cache && m.cache[target] != -1 ==> r.1 == m
  {
    var index := if target in m.cache then m.cache[target] else -1;
    if index == -1 then
      var answer := innerFind(Bgra32FromBgr24(target));
      var stored := if answer.Ok? then answer.value else -1;
      (answer, m.(cache := m.cache[target := stored]))
    else
      (Ok(index % 256), m)
  }

  /** CachingPaletteMap.FindClosestPaletteIndex. */
  function CachingFindClosest(m: CachingMap, innerFind: ColorBgra32 -> Result<byte>, target: ColorBgra32)
    : (r: (Result<byte>, CachingMap))
    requires ValidPalette(m.palette) && CacheAgrees(m, innerFind)
    ensures TakesTransparent(m.palette, target) ==> r == (Ok(|m.palette.colors| - 1), m)
    ensures !TakesTransparent(m.palette, target) ==>
      r.0 == innerFind(ColorBgra32(target.b, target.g, target.r, 255))
    ensures CacheAgrees(r.1, innerFind) && r.1.palette == m.palette
  {
    if TakesTransparent(m.palette, target) then
      (Ok(m.palette.transparentIndex.value), m)
    else
      CachingOnFind(m, innerFind, Bgr24FromBgra32(target))
  }

  /**
    The cache is invisible: over any sequence of queries, each answer is the wrapped
    map's answer for the same colour.
   */
  lemma {:induction false} CachingIsTransparent(m: CachingMap, innerFind: ColorBgra32 -> Result<byte>, queries: seq<ColorBgr24>)
    requires CacheAgrees(m, innerFind)
    ensures CachedAnswers(m, innerFind, queries) == seq(|queries|, i requires 0 <= i < |queries| => innerFind(Bgra32FromBgr24(queries[i])))
    decreases |queries|
  {
    if |queries| > 0 {
      var step := CachingOnFind(m, innerFind, queries[0]);
      CachingIsTransparent(step.1, innerFind, queries[1..]);
    }
  }

  /** The answers to a run of queries against a caching map that carries its state along. */
  function CachedAnswers(m: CachingMap, innerFind: ColorBgra32 -> Result<byte>, queries: seq<ColorBgr24>): seq<Result<byte>>
    requires CacheAgrees(m, innerFind)
    decreases |queries|
  {
    if |queries| == 0 then []
    else
      var step := CachingOnFind(m, innerFind, queries[0]);
      [step.0] + CachedAnswers(step.1, innerFind, queries[1..])
  }
}
