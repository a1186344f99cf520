/**
  OctreeQuantizer.GeneratePalette: insert the colours of a histogram into an octree,
  reduce the tree to the target colour count and read one palette colour off every
  node that carries colour information. A histogram is a multiset of colours; the
  order its entries are enumerated in is not fixed by the source and is a
  parameter here (`es`).
 */
module OctreeQuantizer {
  import opened Wrappers
  import opened Colors
  import opened ColorHistogram
  import opened EnumerableExtensions
  import opened OctreeNodes
  import opened OctreePaths
  import opened OctreeTree
  import opened OctreeMerge
  import opened OctreeReduce

  /** ColorHistogram<ColorBgr24>.Entry: a colour and its pixel count. */
  datatype HistEntry = HistEntry(color: ColorBgr24, count: int)

  /** No colour is listed twice and every count is positive. */
  ghost predicate DistinctEntries(es: seq<HistEntry>) {
    (forall i, j :: 0 <= i < j < |es| ==> es[i].color != es[j].color) &&
    (forall i :: 0 <= i < |es| ==> es[i].count >= 1)
  }

  /** `es` lists the entries of histogram `h`, each colour once with its count. */
  ghost predicate Enumerates(h: multiset<ColorBgr24>, es: seq<HistEntry>) {
    DistinctEntries(es) &&
    (forall i :: 0 <= i < |es| ==> es[i].count == h[es[i].color]) &&
    (forall c :: c in h ==> exists i :: 0 <= i < |es| && es[i].color == c)
  }

  ghost function EntryColors(es: seq<HistEntry>): set<ColorBgr24> {
    set i | 0 <= i < |es| :: es[i].color
  }

  /** A histogram has as many entries as distinct colours. */
  lemma EnumeratesCount(h: multiset<ColorBgr24>, es: seq<HistEntry>)
    requires Enumerates(h, es)
    ensures EntryColors(es) == set c | c in h
    ensures |es| == Count(h)
  {
    forall i | 0 <= i < |es|
      ensures es[i].color in h
    {
    }
    DistinctColorsCount(es);
  }

  lemma {:induction false} DistinctColorsCount(es: seq<HistEntry>)
    requires forall i, j :: 0 <= i < j < |es| ==> es[i].color != es[j].color
    ensures |EntryColors(es)| == |es|
  {
    if |es| > 0 {
      var init := es[..|es| - 1];
      DistinctColorsCount(init);
      assert EntryColors(es) == EntryColors(init) + {es[|es| - 1].color} by {
        forall c | c in EntryColors(es)
          ensures c in EntryColors(init) + {es[|es| - 1].color}
        {
          var i :| 0 <= i < |es| && es[i].color == c;
          if i < |es| - 1 {
            assert init[i] == es[i];
          }
        }
        forall c | c in EntryColors(init)
          ensures c in EntryColors(es)
        {
          var i :| 0 <= i < |init| && init[i].color == c;
          assert es[i] == init[i];
        }
      }
      assert es[|es| - 1].color !in EntryColors(init);
    }
  }

  // ---------------------------------------------------------------- building the tree

  /** The tree after the first `i` entries: one leaf per entry at the end of its colour's route, and no other leaf. */
  ghost predicate Built(root: Node, es: seq<HistEntry>, i: nat) {
    i <= |es| &&
    (if i == 0 then root == NewFull else Staged(root, 0, 8)) &&
    ColorNodes(root) == i &&
    (forall j :: 0 <= j < i ==> NodeAt(root, PathOf(es[j].color)) == Some(Simple(es[j].color, es[j].count))) &&
    (forall q: Path :: |q| == 8 && NodeAt(root, q).Some? ==> exists j :: 0 <= j < i && q == PathOf(es[j].color))
  }

  /** One iteration of the insertion loop: a new colour gets a new leaf and counts one more colour. */
  lemma BuildStep(root: Node, es: seq<HistEntry>, i: nat, cc: int)
    requires DistinctEntries(es) && i < |es| && Built(root, es, i) && cc == i
    ensures AddColor(root, 0, es[i].color, es[i].count, cc).Ok?
    ensures var r := AddColor(root, 0, es[i].color, es[i].count, cc).value;
      Built(r.0, es, i + 1) && r.1 == i + 1
  {
    var e := es[i];
    NewColorIsAbsent(root, es, i);
    assert Open(root, 0);
    AddColorSpec(root, 0, e.color, e.count, cc);
    var r := AddColor(root, 0, e.color, e.count, cc).value;
    BuildStepLeaves(root, r.0, es, i);
    BuildStepPaths(root, r.0, es, i);
  }

  /** The colour of entry i has no leaf yet: the entries before it have other colours. */
  lemma NewColorIsAbsent(root: Node, es: seq<HistEntry>, i: nat)
    requires DistinctEntries(es) && i < |es| && Built(root, es, i)
    ensures NodeAt(root, PathOf(es[i].color)).None?
  {
    var p := PathOf(es[i].color);
    if NodeAt(root, p).Some? {
      var j :| 0 <= j < i && p == PathOf(es[j].color);
      PathOfInjective(es[i].color, es[j].color);
      assert false;
    }
  }

  lemma BuildStepLeaves(root: Node, t: Node, es: seq<HistEntry>, i: nat)
    requires DistinctEntries(es) && i < |es| && Built(root, es, i)
    requires NodeAt(t, PathOf(es[i].color)) == Some(Simple(es[i].color, es[i].count))
    requires forall q: Path :: |q| == 8 && q != PathOf(es[i].color) ==> NodeAt(t, q) == NodeAt(root, q)
    ensures forall j :: 0 <= j < i + 1 ==> NodeAt(t, PathOf(es[j].color)) == Some(Simple(es[j].color, es[j].count))
  {
    forall j | 0 <= j < i
      ensures NodeAt(t, PathOf(es[j].color)) == Some(Simple(es[j].color, es[j].count))
    {
      PathOfInjective(es[i].color, es[j].color);
    }
  }

  lemma BuildStepPaths(root: Node, t: Node, es: seq<HistEntry>, i: nat)
    requires i < |es| && Built(root, es, i)
    requires forall q: Path :: |q| == 8 && q != PathOf(es[i].color) ==> NodeAt(t, q) == NodeAt(root, q)
    ensures forall q: Path :: |q| == 8 && NodeAt(t, q).Some? ==> exists j :: 0 <= j < i + 1 && q == PathOf(es[j].color)
  {
    forall q: Path | |q| == 8 && NodeAt(t, q).Some?
      ensures exists j :: 0 <= j < i + 1 && q == PathOf(es[j].color)
    {
      if q != PathOf(es[i].color) {
        assert NodeAt(root, q).Some?;
      }
    }
  }

  /** The insertion loop of GeneratePaletteImpl: Octree.AddColor for every entry, in enumeration order. */
  method BuildOctree(es: seq<HistEntry>) returns (root: Node, cc: int)
    requires DistinctEntries(es)
    ensures |es| == 0 ==> root == NewFull
    ensures |es| > 0 ==> Staged(root, 0, 8)
    ensures cc == |es| && cc == ColorNodes(root)
    ensures forall j :: 0 <= j < |es| ==> NodeAt(root, PathOf(es[j].color)) == Some(Simple(es[j].color, es[j].count))
  {
    root, cc := NewFull, 0;
    NoChildrenFrom(NewFull, 0, 0);
    var i := 0;
    while i < |es|
      invariant Built(root, es, i) && cc == i
    {
      BuildStep(root, es, i, cc);
      var r := AddColor(root, 0, es[i].color, es[i].count, cc).value;
      root, cc := r.0, r.1;
      i := i + 1;
    }
  }

  // ---------------------------------------------------------------- the palette of a tree

  /** Every coloured node of the tree contributes its colour to the palette. */
  lemma {:induction false} ColoredNodeInPalette(n: Node, q: Path, x: Node)
    requires NodeAt(n, q) == Some(x) && HasColorInfo(x)
    ensures NodeColor(x) in GatherColors(n)
    decreases |q|
  {
    if |q| > 0 {
      var c := TryGetChild(n, q[0]).value;
      ColoredNodeInPalette(c, q[1..], x);
      ChildColorsInPalette(n, q[0], 0);
    }
  }

  lemma {:induction false} ChildColorsInPalette(n: Node, o: Offset, k: nat)
    requires k <= o
    ensures forall c :: c in ChildColors(n, o) ==> c in GatherColorsFrom(n, k)
    decreases 8 - k
  {
    if k < o {
      ChildColorsInPalette(n, o, k + 1);
    }
  }

  lemma SubsetSameSize<X>(a: set<X>, b: set<X>)
    requires a <= b && |b| <= |a|
    ensures a == b
  {
    if a != b {
      var x :| x in b && x !in a;
      SubsetCardinality(a, b - {x});
    }
  }

  lemma {:induction false} SeqSetSize<X>(s: seq<X>)
    ensures |set x | x in s| <= |s|
  {
    if |s| > 0 {
      var init := s[..|s| - 1];
      SeqSetSize(init);
      assert (set x | x in s) <= (set x | x in init) + {s[|s| - 1]} by {
        forall x | x in s
          ensures x in init || x == s[|s| - 1]
        {
          var i :| 0 <= i < |s| && s[i] == x;
          if i < |s| - 1 {
            assert init[i] == x;
          }
        }
      }
      SubsetCardinality(set x | x in s, (set x | x in init) + {s[|s| - 1]});
    }
  }

  /** Every entry's colour is in the palette of the freshly built tree. */
  lemma EntriesInPalette(es: seq<HistEntry>, root: Node)
    requires DistinctEntries(es)
    requires forall j :: 0 <= j < |es| ==> NodeAt(root, PathOf(es[j].color)) == Some(Simple(es[j].color, es[j].count))
    ensures EntryColors(es) <= set c | c in GatherColors(root)
  {
    forall j | 0 <= j < |es|
      ensures es[j].color in GatherColors(root)
    {
      LeafColorRoundTrip(es[j].color, es[j].count);
      ColoredNodeInPalette(root, PathOf(es[j].color), Simple(es[j].color, es[j].count));
    }
  }

  /** The palette of the freshly built tree is exactly the histogram's colours. */
  lemma BuiltPalette(h: multiset<ColorBgr24>, es: seq<HistEntry>, root: Node)
    requires Enumerates(h, es) && ColorNodes(root) == |es|
    requires forall j :: 0 <= j < |es| ==> NodeAt(root, PathOf(es[j].color)) == Some(Simple(es[j].color, es[j].count))
    ensures |GatherColors(root)| == Count(h)
    ensures forall c :: c in GatherColors(root) <==> c in h
  {
    EntriesInPalette(es, root);
    GatherColorsLength(root);
    EnumeratesCount(h, es);
    SameColorSets(h, GatherColors(root), EntryColors(es), |es|);
  }

  /** A list of n entries holding n distinct values that are all in `h`, and all of `h`, holds exactly `h`. */
  lemma SameColorSets(h: multiset<ColorBgr24>, palette: seq<ColorBgr24>, e: set<ColorBgr24>, n: nat)
    requires e <= (set c | c in palette) && e == (set c | c in h) && |e| == n && |palette| == n
    ensures forall c :: c in palette <==> c in h
  {
    var p := set c | c in palette;
    SeqSetSize(palette);
    SubsetSameSize(e, p);
    forall c
      ensures c in palette <==> c in h
    {
      assert c in palette <==> c in p;
      assert c in h <==> c in e;
    }
  }

  // ---------------------------------------------------------------- GeneratePalette

  /**
    GeneratePaletteImpl: insert every histogram entry, reduce to `maxColorCount`
    and gather the palette.
   */
  method GeneratePaletteImpl(h: multiset<ColorBgr24>, es: seq<HistEntry>, maxColorCount: int) returns (palette: seq<ColorBgr24>)
    requires Enumerates(h, es)
    ensures maxColorCount >= 1 ==> |palette| <= maxColorCount
    ensures maxColorCount < 1 ==> |palette| == (if Count(h) == 0 then 0 else 1)
    ensures Count(h) > 0 ==> |palette| >= 1
    ensures Count(h) <= maxColorCount ==> |palette| == Count(h) && forall c :: c in palette <==> c in h
  {
    EnumeratesCount(h, es);
    var root, cc := BuildOctree(es);
    var reduced, cc' := Reduce(root, cc, maxColorCount);
    palette := GatherColors(reduced);
    GatherColorsLength(reduced);
    if Count(h) <= maxColorCount {
      BuiltPalette(h, es, root);
    }
  }

  /**
    The histogram overload of GeneratePalette: `maxColorCount` must lie in
    [1, 256]; an empty histogram gives black (and the transparent colour); otherwise
    the tree is reduced to `maxColorCount` colours, one fewer when the transparent
    colour is to be appended, and a longer tree palette is an internal error.
   */
  method GeneratePalette(h: multiset<ColorBgr24>, es: seq<HistEntry>, maxColorCount: int, addTransparentColor: bool)
    returns (r: Result<seq<ColorBgra32>>)
    requires Enumerates(h, es)
    ensures r == Err(ArgumentOutOfRange) <==> maxColorCount < 1 || maxColorCount > 256
    ensures r == Err(InternalError) <==>
      1 <= maxColorCount <= 256 && Count(h) > 0 && maxColorCount == 1 && addTransparentColor
    ensures r.Err? ==> r.error == ArgumentOutOfRange || r.error == InternalError
    ensures r.Ok? && Count(h) == 0 ==> r.value == (if addTransparentColor then [Black(), Zero] else [Black()])
    ensures r.Ok? && Count(h) > 0 ==> 1 <= |r.value| <= maxColorCount
    ensures r.Ok? && addTransparentColor ==>
      |r.value| >= 2 && r.value[|r.value| - 1] == TransparentBlack &&
      forall i :: 0 <= i < |r.value| - 1 ==> r.value[i].a == 255
    ensures r.Ok? && !addTransparentColor ==> forall i :: 0 <= i < |r.value| ==> r.value[i].a == 255
    ensures r.Ok? && 0 < Count(h) <= (if addTransparentColor then maxColorCount - 1 else maxColorCount) ==>
      var solid := if addTransparentColor then r.value[..|r.value| - 1] else r.value;
      |solid| == Count(h) && forall c :: c in h <==> Bgra32FromBgr24(c) in solid
  {
    if maxColorCount < 1 || maxColorCount > 256 {
      return Err(ArgumentOutOfRange);
    }
    if Count(h) == 0 {
      return Ok(if addTransparentColor then [Black(), Zero] else [Black()]);
    }
    var colorCount := if addTransparentColor then maxColorCount - 1 else maxColorCount;
    var paletteBgr24 := GeneratePaletteImpl(h, es, colorCount);
    if |paletteBgr24| > colorCount {
      return Err(InternalError);
    }
    var paletteBgra32 := seq(|paletteBgr24|, i requires 0 <= i < |paletteBgr24| => Bgra32FromBgr24(paletteBgr24[i]));
    assert forall c :: Bgra32FromBgr24(c) in paletteBgra32 <==> c in paletteBgr24 by {
      forall c
        ensures Bgra32FromBgr24(c) in paletteBgra32 <==> c in paletteBgr24
      {
        if Bgra32FromBgr24(c) in paletteBgra32 {
          var i :| 0 <= i < |paletteBgra32| && paletteBgra32[i] == Bgra32FromBgr24(c);
          Bgra32Bgr24RoundTrip(c, paletteBgra32[i]);
          Bgra32Bgr24RoundTrip(paletteBgr24[i], paletteBgra32[i]);
          assert c == paletteBgr24[i];
        }
        if c in paletteBgr24 {
          var i :| 0 <= i < |paletteBgr24| && paletteBgr24[i] == c;
          assert paletteBgra32[i] == Bgra32FromBgr24(c);
        }
      }
    }
    if addTransparentColor {
      var palette := Concat(paletteBgra32, TransparentBlack);
      assert palette[..|palette| - 1] == paletteBgra32;
      r := Ok(palette);
    } else {
      r := Ok(paletteBgra32);
    }
  }

  /** What the opaque histogram of a bitmap is: the B, G, R of its pixels with alpha 255. */
  ghost function OpaqueHistogram(rows: seq<seq<ColorBgra32>>): multiset<ColorBgr24> {
    multiset(AllSelected(rows, OnlyOpaque, Bgr24Selector))
  }

  /**
    The bitmap overload: `maxColorCount` must lie in [2, 256]; the histogram of the
    opaque pixels is built and handed to the histogram overload.
   */
  method GeneratePaletteFromBitmap(rows: seq<seq<ColorBgra32>>, es: seq<HistEntry>, maxColorCount: int, addTransparentColor: bool)
    returns (r: Result<seq<ColorBgra32>>)
    requires Enumerates(OpaqueHistogram(rows), es)
    ensures r == Err(ArgumentOutOfRange) <==> maxColorCount < 2 || maxColorCount > 256
    ensures r == Err(InvalidOperation) <==> 2 <= maxColorCount <= 256 && |rows| == 0
    ensures r.Err? ==> r.error == ArgumentOutOfRange || r.error == InvalidOperation
    ensures r.Ok? ==> 1 <= |r.value| <= maxColorCount
  {
    if maxColorCount < 2 || maxColorCount > 256 {
      return Err(ArgumentOutOfRange);
    }
    var histogram := CreateOpaque(rows);
    if histogram.Err? {
      return Err(histogram.error);
    }
    r := GeneratePalette(histogram.value, es, maxColorCount, addTransparentColor);
  }
}
