/**
  Where a colour lives in the octree. At level `l` (0 for the root) a colour goes to
  the child slot made of bit `7 - l` of its red, green and blue components, so the
  eight offsets from the root to a leaf spell out the colour bit by bit.
 */
module OctreePaths {
  import opened Int32Util
  import opened Colors
  import opened OctreeNodes

  type Path = seq<Offset>

  /** The colour of a level-8 leaf path: exactly eight offsets. */
  type LeafPath = p: Path | |p| == 8 witness [0, 0, 0, 0, 0, 0, 0, 0]

  /** `x >> k` for a non-negative x, one halving at a time. */
  function Shr(x: nat, k: nat): nat {
    if k == 0 then x else Shr(x / 2, k - 1)
  }

  /** Bit `k` of `x`, i.e. `(x & (1 << k)) >> k`. */
  function Bit(x: nat, k: nat): nat {
    Shr(x, k) % 2
  }

  lemma ShrStep(x: nat, k: nat)
    ensures Shr(x, k) == 2 * Shr(x, k + 1) + Bit(x, k)
  {
    if k > 0 {
      ShrStep(x / 2, k - 1);
    }
  }

  lemma {:induction false} ShrSmall(x: nat, k: nat)
    requires x < Pow2(k)
    ensures Shr(x, k) == 0
  {
    if k > 0 {
      ShrSmall(x / 2, k - 1);
    }
  }

  /**
    GetColorOffset: red contributes the low bit, green the middle bit and blue the
    high bit of the offset, each taken at bit position `7 - level`.
   */
  function GetColorOffset(color: ColorBgr24, level: nat): (o: Offset)
    requires level <= 7
    ensures o % 2 == Bit(color.r as nat, 7 - level)
    ensures (o / 2) % 2 == Bit(color.g as nat, 7 - level)
    ensures o / 4 == Bit(color.b as nat, 7 - level)
  {
    var shift := 7 - level;
    Bit(color.r as nat, shift) + 2 * Bit(color.g as nat, shift) + 4 * Bit(color.b as nat, shift)
  }

  /** The offsets a colour takes from the node at `level` down to its leaf. */
  function OffsetsFrom(color: ColorBgr24, level: nat): (p: Path)
    requires level <= 8
    ensures |p| == 8 - level
    ensures forall i :: 0 <= i < |p| ==> p[i] == GetColorOffset(color, level + i)
    decreases 8 - level
  {
    if level == 8 then [] else [GetColorOffset(color, level)] + OffsetsFrom(color, level + 1)
  }

  /** The whole route of a colour from the root to its leaf. */
  function PathOf(color: ColorBgr24): LeafPath {
    OffsetsFrom(color, 0)
  }

  lemma OffsetsFromStep(color: ColorBgr24, level: nat)
    requires level <= 7
    ensures OffsetsFrom(color, level)[0] == GetColorOffset(color, level)
    ensures OffsetsFrom(color, level)[1..] == OffsetsFrom(color, level + 1)
  {
  }

  /** Reads one component back out of the first `n` offsets of a path. */
  function Component(p: Path, which: nat, n: nat): nat
    requires n <= |p| && which <= 2
  {
    if n == 0 then 0
    else
      var o := p[n - 1];
      var bit := if which == 0 then o % 2 else if which == 1 then (o / 2) % 2 else o / 4;
      2 * Component(p, which, n - 1) + bit
  }

  /** The colour a leaf path stands for. */
  function ColorOfPath(p: LeafPath): ColorBgr24 {
    ComponentsBound(p, 8);
    ColorBgr24(Component(p, 2, 8), Component(p, 1, 8), Component(p, 0, 8))
  }

  lemma {:induction false} ComponentsBound(p: Path, n: nat)
    requires n <= |p| && n <= 8
    ensures Component(p, 0, n) < Pow2(n) && Component(p, 1, n) < Pow2(n) && Component(p, 2, n) < Pow2(n)
  {
    if n > 0 {
      ComponentsBound(p, n - 1);
    }
  }

  /** The first `n` offsets of a colour's path hold the top `n` bits of each component. */
  lemma {:induction false} ComponentOfPath(color: ColorBgr24, n: nat)
    requires n <= 8
    ensures Component(PathOf(color), 0, n) == Shr(color.r as nat, 8 - n)
    ensures Component(PathOf(color), 1, n) == Shr(color.g as nat, 8 - n)
    ensures Component(PathOf(color), 2, n) == Shr(color.b as nat, 8 - n)
  {
    if n == 0 {
      ShrSmall(color.r as nat, 8);
      ShrSmall(color.g as nat, 8);
      ShrSmall(color.b as nat, 8);
    } else {
      ComponentOfPath(color, n - 1);
      ShrStep(color.r as nat, 8 - n);
      ShrStep(color.g as nat, 8 - n);
      ShrStep(color.b as nat, 8 - n);
    }
  }

  /** The path of a colour determines the colour: the octree's leaves are colours. */
  lemma PathRoundTrip(color: ColorBgr24)
    ensures ColorOfPath(PathOf(color)) == color
  {
    ComponentOfPath(color, 8);
  }

  lemma PathOfInjective(c: ColorBgr24, d: ColorBgr24)
    ensures PathOf(c) == PathOf(d) <==> c == d
  {
    PathRoundTrip(c);
    PathRoundTrip(d);
  }
}
