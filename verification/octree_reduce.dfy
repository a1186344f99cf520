/**
  Octree.Reduce: count the nodes on every level, fold whole levels into their
  parents from the bottom up while the level above still has more nodes than the
  target, then fold the remaining nodes of the last level one by one, smallest
  count first, until the colour count reaches the target. The (node, parent,
  offset) triples of the source are modelled with the parent's route from the root.
 */
module OctreeReduce {
  import opened Wrappers
  import opened Int32Util
  import opened Colors
  import opened SortSpec
  import ListUtil
  import opened OctreeNodes
  import opened OctreePaths
  import opened OctreeTree
  import opened OctreeMerge

  // ---------------------------------------------------------------- level counts

  /**
    GetLevelNodeCounts(levelNodeCounts, node, nodeLevel): add one for the node on
    its level, then walk the children in slot order. The counter array has nine
    entries; a node below level 8 would index past its end.
   */
  function CountLevels(counts: seq<int>, n: Node, lvl: nat): Result<seq<int>>
    requires |counts| == 9
    decreases n, 9, 0
  {
    if lvl >= 9 then Err(IndexOutOfRange)
    else
      var counts' := counts[lvl := counts[lvl] + 1];
      if HasChildren(n) then CountLevelsFrom(counts', n, lvl, 0) else Ok(counts')
  }

  function CountLevelsFrom(counts: seq<int>, n: Node, lvl: nat, k: nat): Result<seq<int>>
    requires |counts| == 9 && k <= 8
    decreases n, 8 - k, 1
  {
    if k == 8 then Ok(counts)
    else
      match TryGetChild(n, k)
      case None => CountLevelsFrom(counts, n, lvl, k + 1)
      case Some(c) =>
        var counts' :- CountLevels(counts, c, lvl + 1);
        if |counts'| == 9 then CountLevelsFrom(counts', n, lvl, k + 1) else Err(IndexOutOfRange)
  }

  /** No node of the subtree lies below level 8. */
  predicate WithinLevels(n: Node, lvl: nat)
    decreases n
  {
    lvl <= 8 && forall o: Offset :: TryGetChild(n, o).Some? ==> WithinLevels(TryGetChild(n, o).value, lvl + 1)
  }

  function GetLevelNodeCounts(root: Node): Result<seq<int>> {
    CountLevels(seq(9, _ => 0), root, 0)
  }

  /** On a tree of at most nine levels, entry d of the counts is the number of nodes on level d. */
  lemma GetLevelNodeCountsSpec(root: Node)
    requires WithinLevels(root, 0)
    ensures GetLevelNodeCounts(root).Ok?
    ensures var counts := GetLevelNodeCounts(root).value;
      |counts| == 9 && forall d :: 0 <= d < 9 ==> counts[d] == LevelCount(root, d)
  {
    CountLevelsSpec(seq(9, _ => 0), root, 0);
  }

  lemma {:induction false} CountLevelsSpec(counts: seq<int>, n: Node, lvl: nat)
    requires |counts| == 9 && WithinLevels(n, lvl)
    ensures var r := CountLevels(counts, n, lvl);
      r.Ok? && |r.value| == 9 &&
      forall d :: 0 <= d < 9 ==> r.value[d] == counts[d] + (if d >= lvl then LevelCount(n, d - lvl) else 0)
    decreases n, 9, 0
  {
    var counts' := counts[lvl := counts[lvl] + 1];
    if HasChildren(n) {
      CountLevelsFromSpec(counts', n, lvl, 0);
    } else {
      forall j: nat | j >= 1
        ensures LevelCount(n, j) == 0
      {
        NoChildrenFrom(n, j - 1, 0);
      }
    }
  }

  lemma {:induction false} CountLevelsFromSpec(counts: seq<int>, n: Node, lvl: nat, k: nat)
    requires |counts| == 9 && k <= 8 && WithinLevels(n, lvl)
    ensures var r := CountLevelsFrom(counts, n, lvl, k);
      r.Ok? && |r.value| == 9 &&
      forall d :: 0 <= d < 9 ==> r.value[d] == counts[d] + (if d > lvl then LevelCountFrom(n, d - lvl - 1, k) else 0)
    decreases n, 8 - k, 1
  {
    if k < 8 {
      match TryGetChild(n, k)
      case None =>
        CountLevelsFromSpec(counts, n, lvl, k + 1);
      case Some(c) =>
        CountLevelsSpec(counts, c, lvl + 1);
        var counts' := CountLevels(counts, c, lvl + 1).value;
        CountLevelsFromSpec(counts', n, lvl, k + 1);
    }
  }

  lemma {:induction false} StagedWithinLevels(n: Node, lvl: nat, L: nat)
    requires lvl <= L <= 8 && Staged(n, lvl, L)
    ensures WithinLevels(n, lvl)
    decreases n
  {
    forall o: Offset | TryGetChild(n, o).Some?
      ensures WithinLevels(TryGetChild(n, o).value, lvl + 1)
    {
      StagedWithinLevels(TryGetChild(n, o).value, lvl + 1, L);
    }
  }

  /** Under the shape for L every node above level L has a child, so lower levels are no smaller. */
  lemma {:induction false} StagedLevelsGrow(n: Node, lvl: nat, L: nat, d: nat)
    requires lvl + d < L && Staged(n, lvl, L)
    ensures LevelCount(n, d) <= LevelCount(n, d + 1)
    decreases n, 1
  {
    if d == 0 {
      var j :| j in n.children;
      assert TryGetChild(n, j).Some?;
      LevelCountFromPositive(n, 0, 0, j);
    } else {
      StagedLevelsGrowFrom(n, lvl, L, d, 0);
    }
  }

  lemma {:induction false} StagedLevelsGrowFrom(n: Node, lvl: nat, L: nat, d: nat, k: nat)
    requires 1 <= d && lvl + d < L && Staged(n, lvl, L) && k <= 8
    ensures LevelCountFrom(n, d - 1, k) <= LevelCountFrom(n, d, k)
    decreases n, 0, 8 - k
  {
    if k < 8 {
      StagedLevelsGrowFrom(n, lvl, L, d, k + 1);
      match TryGetChild(n, k)
      case None =>
      case Some(c) => StagedLevelsGrow(c, lvl + 1, L, d - 1);
    }
  }

  lemma {:induction false} LevelCountFromPositive(n: Node, d: nat, k: nat, j: Offset)
    requires k <= j && TryGetChild(n, j).Some? && LevelCount(TryGetChild(n, j).value, d) >= 1
    ensures LevelCountFrom(n, d, k) >= 1
    decreases 8 - k
  {
    if k < j {
      LevelCountFromPositive(n, d, k + 1, j);
    }
  }

  function Pow8(d: nat): nat {
    if d == 0 then 1 else 8 * Pow8(d - 1)
  }

  /** A node has at most 8^d nodes d levels below it. */
  lemma {:induction false} LevelCountBound(n: Node, d: nat)
    ensures LevelCount(n, d) <= Pow8(d)
    decreases n, 9, 0
  {
    if d > 0 {
      LevelCountFromBound(n, d - 1, 0);
    }
  }

  lemma {:induction false} LevelCountFromBound(n: Node, d: nat, k: nat)
    requires k <= 8
    ensures LevelCountFrom(n, d, k) <= (8 - k) * Pow8(d)
    decreases n, 8 - k, 1
  {
    if k < 8 {
      LevelCountFromBound(n, d, k + 1);
      match TryGetChild(n, k)
      case None =>
      case Some(c) => LevelCountBound(c, d);
      assert (8 - k) * Pow8(d) == Pow8(d) + (8 - (k + 1)) * Pow8(d);
    }
  }

  lemma Pow8Monotone(d: nat, e: nat)
    requires d <= e
    ensures Pow8(d) <= Pow8(e)
    decreases e
  {
    if d < e {
      Pow8Monotone(d, e - 1);
    }
  }

  // ---------------------------------------------------------------- routes and replacement

  /** Replace the node at the end of route `p` by `m`; the nodes on the way keep their other slots. */
  function ReplaceAt(n: Node, p: Path, m: Node): Node
    requires NodeAt(n, p).Some?
    decreases |p|
  {
    if |p| == 0 then m
    else
      var c := TryGetChild(n, p[0]).value;
      n.(children := n.children[p[0] := ReplaceAt(c, p[1..], m)])
  }

  lemma {:induction false} NodeAtConcat(n: Node, p: Path, q: Path)
    ensures NodeAt(n, p + q) == (match NodeAt(n, p) case None => None case Some(x) => NodeAt(x, q))
    decreases |p|
  {
    if |p| == 0 {
      assert p + q == q;
    } else {
      assert (p + q)[0] == p[0] && (p + q)[1..] == p[1..] + q;
      match TryGetChild(n, p[0])
      case None =>
      case Some(c) => NodeAtConcat(c, p[1..], q);
    }
  }

  /** The replaced node is found at the end of its route. */
  lemma {:induction false} ReplaceAtFound(n: Node, p: Path, m: Node, q: Path)
    requires NodeAt(n, p).Some?
    ensures NodeAt(ReplaceAt(n, p, m), p + q) == NodeAt(m, q)
    decreases |p|
  {
    if |p| == 0 {
      assert p + q == q;
    } else {
      var c := TryGetChild(n, p[0]).value;
      var r := ReplaceAt(n, p, m);
      assert TryGetChild(r, p[0]) == Some(ReplaceAt(c, p[1..], m));
      assert (p + q)[0] == p[0] && (p + q)[1..] == p[1..] + q;
      ReplaceAtFound(c, p[1..], m, q);
    }
  }

  /** Routes that leave `p` somewhere along it see the tree unchanged. */
  lemma {:induction false} ReplaceAtElsewhere(n: Node, p: Path, m: Node, q: Path)
    requires NodeAt(n, p).Some? && |q| >= |p| && q[..|p|] != p
    ensures NodeAt(ReplaceAt(n, p, m), q) == NodeAt(n, q)
    decreases |p|
  {
    var c := TryGetChild(n, p[0]).value;
    var r := ReplaceAt(n, p, m);
    if q[0] != p[0] {
      assert TryGetChild(r, q[0]) == TryGetChild(n, q[0]);
    } else {
      assert TryGetChild(r, p[0]) == Some(ReplaceAt(c, p[1..], m));
      assert q[1..][..|p| - 1] == q[..|p|][1..] && p[1..] == p[..|p|][1..];
      assert q[..|p|] == [q[0]] + q[..|p|][1..] && p == [p[0]] + p[1..];
      ReplaceAtElsewhere(c, p[1..], m, q[1..]);
    }
  }

  /** Replacing a node changes the colour count of the tree by the difference of the two subtrees. */
  lemma {:induction false} ReplaceAtColorNodes(n: Node, p: Path, m: Node)
    requires NodeAt(n, p).Some?
    ensures ColorNodes(ReplaceAt(n, p, m)) + ColorNodes(NodeAt(n, p).value) == ColorNodes(n) + ColorNodes(m)
    decreases |p|
  {
    if |p| > 0 {
      var c := TryGetChild(n, p[0]).value;
      var c' := ReplaceAt(c, p[1..], m);
      var r := ReplaceAt(n, p, m);
      ReplaceAtColorNodes(c, p[1..], m);
      assert TryGetChild(r, p[0]) == Some(c');
      assert SameSlotsBut(n, r, p[0]);
      ColorNodesSlot(n, r, p[0], 0);
      assert ChildColorNodes(n, p[0]) == ColorNodes(c) && ChildColorNodes(r, p[0]) == ColorNodes(c');
    }
  }

  /** Levels at or below the replaced node change by the difference of the two subtrees. */
  lemma {:induction false} ReplaceAtLevelCount(n: Node, p: Path, m: Node, d: nat)
    requires NodeAt(n, p).Some? && d >= |p|
    ensures LevelCount(ReplaceAt(n, p, m), d) + LevelCount(NodeAt(n, p).value, d - |p|)
            == LevelCount(n, d) + LevelCount(m, d - |p|)
    decreases |p|
  {
    if |p| > 0 {
      var c := TryGetChild(n, p[0]).value;
      var c' := ReplaceAt(c, p[1..], m);
      var r := ReplaceAt(n, p, m);
      ReplaceAtLevelCount(c, p[1..], m, d - 1);
      assert TryGetChild(r, p[0]) == Some(c');
      assert SameSlotsBut(n, r, p[0]);
      LevelCountSlot(n, r, p[0], d - 1, 0);
      assert ChildLevelCount(n, d - 1, p[0]) == LevelCount(c, d - 1);
      assert ChildLevelCount(r, d - 1, p[0]) == LevelCount(c', d - 1);
    }
  }

  /** Levels above the replaced node keep their node counts. */
  lemma {:induction false} ReplaceAtUpperLevels(n: Node, p: Path, m: Node, d: nat)
    requires NodeAt(n, p).Some? && d < |p|
    ensures LevelCount(ReplaceAt(n, p, m), d) == LevelCount(n, d)
    decreases |p|
  {
    if d > 0 {
      var c := TryGetChild(n, p[0]).value;
      var c' := ReplaceAt(c, p[1..], m);
      var r := ReplaceAt(n, p, m);
      ReplaceAtUpperLevels(c, p[1..], m, d - 1);
      assert TryGetChild(r, p[0]) == Some(c');
      assert SameSlotsBut(n, r, p[0]);
      LevelCountSlot(n, r, p[0], d - 1, 0);
      assert ChildLevelCount(n, d - 1, p[0]) == LevelCount(c, d - 1);
      assert ChildLevelCount(r, d - 1, p[0]) == LevelCount(c', d - 1);
    }
  }

  // ---------------------------------------------------------------- the partial shape

  /**
    The shape during the partial merge at level L: above level L - 1 interior nodes
    without colour information; at level L - 1 interior nodes that may have taken
    over colour information; at level L coloured leaves.
   */
  predicate Partial(n: Node, lvl: nat, L: nat)
    decreases n
  {
    if lvl + 1 < L then
      n.Full? && n.count == 0 &&
      forall o: Offset :: TryGetChild(n, o).Some? ==> Partial(TryGetChild(n, o).value, lvl + 1, L)
    else if lvl + 1 == L then
      n.Full? && n.count >= 0 &&
      forall o: Offset :: TryGetChild(n, o).Some? ==> Partial(TryGetChild(n, o).value, L, L)
    else
      lvl == L && !HasChildren(n) && n.count >= 1
  }

  lemma {:induction false} StagedPartial(n: Node, lvl: nat, L: nat)
    requires lvl <= L && Staged(n, lvl, L)
    ensures Partial(n, lvl, L)
    decreases n
  {
    forall o: Offset | TryGetChild(n, o).Some?
      ensures Partial(TryGetChild(n, o).value, lvl + 1, L)
    {
      StagedPartial(TryGetChild(n, o).value, lvl + 1, L);
    }
  }

  /** Under the partial shape the coloured nodes are on the last two levels. */
  lemma {:induction false} PartialBound(n: Node, lvl: nat, L: nat)
    requires lvl < L && Partial(n, lvl, L)
    ensures ColorNodes(n) <= LevelCount(n, L - 1 - lvl) + LevelCount(n, L - lvl)
    decreases n, 1
  {
    PartialBoundFrom(n, lvl, L, 0);
  }

  lemma {:induction false} PartialBoundFrom(n: Node, lvl: nat, L: nat, k: nat)
    requires lvl < L && Partial(n, lvl, L) && k <= 8
    ensures lvl + 1 < L ==> ColorNodesFrom(n, k) <= LevelCountFrom(n, L - lvl - 2, k) + LevelCountFrom(n, L - lvl - 1, k)
    ensures lvl + 1 == L ==> ColorNodesFrom(n, k) == LevelCountFrom(n, 0, k)
    decreases n, 0, 8 - k
  {
    if k < 8 {
      PartialBoundFrom(n, lvl, L, k + 1);
      match TryGetChild(n, k)
      case None =>
      case Some(c) =>
        if lvl + 1 < L {
          PartialBound(c, lvl + 1, L);
        } else {
          NoChildrenFrom(c, 0, 0);
          assert ChildColorNodes(n, k) == ColorNodes(c) == 1 == LevelCount(c, 0) == ChildLevelCount(n, 0, k);
        }
    }
  }

  /** The node at the end of a route keeps the partial shape of its level. */
  lemma {:induction false} NodeAtPartial(n: Node, lvl: nat, L: nat, q: Path)
    requires Partial(n, lvl, L) && lvl + |q| <= L && NodeAt(n, q).Some?
    ensures Partial(NodeAt(n, q).value, lvl + |q|, L)
    decreases |q|
  {
    if |q| > 0 {
      NodeAtPartial(TryGetChild(n, q[0]).value, lvl + 1, L, q[1..]);
    }
  }

  lemma {:induction false} PartialReplace(n: Node, lvl: nat, L: nat, p: Path, m: Node)
    requires Partial(n, lvl, L) && lvl + |p| <= L && NodeAt(n, p).Some? && Partial(m, lvl + |p|, L)
    ensures Partial(ReplaceAt(n, p, m), lvl, L)
    decreases |p|
  {
    if |p| > 0 {
      var c := TryGetChild(n, p[0]).value;
      var r := ReplaceAt(n, p, m);
      PartialReplace(c, lvl + 1, L, p[1..], m);
      assert TryGetChild(r, p[0]) == Some(ReplaceAt(c, p[1..], m));
      forall o: Offset | TryGetChild(r, o).Some?
        ensures Partial(TryGetChild(r, o).value, lvl + 1, L)
      {
        if o != p[0] {
          assert TryGetChild(r, o) == TryGetChild(n, o);
        }
      }
    }
  }

  // ---------------------------------------------------------------- gathering the last level

  /** A node of the last level with the route to its parent and its slot there. */
  datatype LevelNode = LevelNode(node: Node, parent: Path, offset: Offset)

  function FullPath(e: LevelNode): Path {
    e.parent + [e.offset]
  }

  /**
    GatherLevelNodes(level, node, nodeLevel): in slot order, the children of the
    nodes on level `L - 1` as (child, parent, offset); `path` is the route to `n`.
   */
  function Gather(L: nat, n: Node, lvl: nat, path: Path): seq<LevelNode>
    decreases n, 9, 0
  {
    if !HasChildren(n) then [] else GatherFrom(L, n, lvl, path, 0)
  }

  function GatherFrom(L: nat, n: Node, lvl: nat, path: Path, k: nat): seq<LevelNode>
    requires k <= 8
    decreases n, 8 - k, 1
  {
    if k == 8 then [] else GatherChild(L, n, lvl, path, k) + GatherFrom(L, n, lvl, path, k + 1)
  }

  function GatherChild(L: nat, n: Node, lvl: nat, path: Path, o: Offset): seq<LevelNode>
    decreases n, 8 - o, 0
  {
    match TryGetChild(n, o)
    case None => []
    case Some(c) => if L == lvl + 1 then [LevelNode(c, path, o)] else Gather(L, c, lvl + 1, path + [o])
  }

  function GatherLevelNodes(root: Node, L: nat): seq<LevelNode> {
    Gather(L, root, 0, [])
  }

  /** `e` is a node `L` levels below the root whose route starts with `path` and continues to it from `n`. */
  ghost predicate FoundBelow(e: LevelNode, n: Node, path: Path, L: nat) {
    |e.parent| == L - 1 && |path| <= L && FullPath(e)[..|path|] == path && NodeAt(n, FullPath(e)[|path|..]) == Some(e.node)
  }

  /** No node occurs twice and no two nodes share a route. */
  ghost predicate UniqueRoutes(s: seq<LevelNode>) {
    (forall e :: multiset(s)[e] <= 1) &&
    (forall e, f :: e in multiset(s) && f in multiset(s) && FullPath(e) == FullPath(f) ==> e == f)
  }

  lemma UniqueRoutesAt(s: seq<LevelNode>, i: int, j: int)
    requires UniqueRoutes(s) && 0 <= i < j < |s|
    ensures FullPath(s[i]) != FullPath(s[j])
  {
    assert s == s[..j] + s[j..];
    assert s[..j][i] == s[i] && s[j..][0] == s[j];
    assert multiset(s) == multiset(s[..j]) + multiset(s[j..]);
    assert multiset(s[..j])[s[i]] >= 1 && multiset(s[j..])[s[j]] >= 1;
  }

  /** Concatenating two lists whose routes differ at one position keeps the routes unique. */
  lemma UniqueRoutesConcat(a: seq<LevelNode>, b: seq<LevelNode>, lvl: nat, k: int)
    requires UniqueRoutes(a) && UniqueRoutes(b)
    requires forall e :: e in a ==> lvl < |FullPath(e)| && FullPath(e)[lvl] == k
    requires forall e :: e in b ==> lvl < |FullPath(e)| && FullPath(e)[lvl] > k
    ensures UniqueRoutes(a + b)
  {
    assert multiset(a + b) == multiset(a) + multiset(b);
    forall e
      ensures multiset(a + b)[e] <= 1
    {
      if e in a {
        assert e !in b;
      }
    }
  }

  lemma {:induction false} GatherSpec(L: nat, n: Node, lvl: nat, path: Path)
    requires lvl < L && |path| == lvl
    ensures var g := Gather(L, n, lvl, path);
      |g| == LevelCount(n, L - lvl) && UniqueRoutes(g) &&
      forall e :: e in g ==> FoundBelow(e, n, path, L)
    decreases n, 9, 0
  {
    if HasChildren(n) {
      GatherFromSpec(L, n, lvl, path, 0);
    } else {
      NoChildrenFrom(n, L - lvl - 1, 0);
    }
  }

  lemma {:induction false} GatherFromSpec(L: nat, n: Node, lvl: nat, path: Path, k: nat)
    requires lvl < L && |path| == lvl && k <= 8
    ensures var g := GatherFrom(L, n, lvl, path, k);
      |g| == LevelCountFrom(n, L - lvl - 1, k) && UniqueRoutes(g) && FoundFrom(g, n, path, L, lvl, k)
    decreases n, 8 - k, 1
  {
    if k < 8 {
      var a, b := GatherChild(L, n, lvl, path, k), GatherFrom(L, n, lvl, path, k + 1);
      GatherChildSpec(L, n, lvl, path, k);
      GatherFromSpec(L, n, lvl, path, k + 1);
      UniqueRoutesConcat(a, b, lvl, k);
      FoundConcat(a, b, n, path, L, lvl, k);
    }
  }

  /** Every entry of `g` is found below `n` along `path`, in a slot from `k` on at position `lvl`. */
  ghost predicate FoundFrom(g: seq<LevelNode>, n: Node, path: Path, L: nat, lvl: nat, k: int)
    requires lvl < L
  {
    forall e :: e in g ==> FoundBelow(e, n, path, L) && FullPath(e)[lvl] >= k
  }

  lemma FoundConcat(a: seq<LevelNode>, b: seq<LevelNode>, n: Node, path: Path, L: nat, lvl: nat, k: int)
    requires lvl < L
    requires forall e :: e in a ==> FoundBelow(e, n, path, L) && FullPath(e)[lvl] == k
    requires FoundFrom(b, n, path, L, lvl, k + 1)
    ensures FoundFrom(a + b, n, path, L, lvl, k)
  {
  }

  lemma {:induction false} GatherChildSpec(L: nat, n: Node, lvl: nat, path: Path, o: Offset)
    requires lvl < L && |path| == lvl
    ensures var g := GatherChild(L, n, lvl, path, o);
      |g| == ChildLevelCount(n, L - lvl - 1, o) && UniqueRoutes(g) &&
      forall e :: e in g ==> FoundBelow(e, n, path, L) && FullPath(e)[lvl] == o
    decreases n, 8 - o, 0
  {
    match TryGetChild(n, o)
    case None =>
    case Some(c) =>
      if L == lvl + 1 {
        GatherLeafChild(L, n, lvl, path, o, c);
      } else {
        GatherDeepChild(L, n, lvl, path, o, c);
      }
  }

  /** A child on level L itself is gathered as the single entry for its slot. */
  lemma GatherLeafChild(L: nat, n: Node, lvl: nat, path: Path, o: Offset, c: Node)
    requires L == lvl + 1 && |path| == lvl && TryGetChild(n, o) == Some(c)
    ensures var g := GatherChild(L, n, lvl, path, o);
      |g| == ChildLevelCount(n, L - lvl - 1, o) && UniqueRoutes(g) &&
      forall e :: e in g ==> FoundBelow(e, n, path, L) && FullPath(e)[lvl] == o
  {
    var e := LevelNode(c, path, o);
    assert FullPath(e)[..|path|] == path && FullPath(e)[|path|..] == [o];
    assert NodeAt(n, [o]) == NodeAt(c, []);
  }

  /** Above level L, the entries gathered below a child are found below the node, through that child's slot. */
  lemma GatherDeepChild(L: nat, n: Node, lvl: nat, path: Path, o: Offset, c: Node)
    requires lvl + 1 < L && |path| == lvl && TryGetChild(n, o) == Some(c)
    ensures var g := GatherChild(L, n, lvl, path, o);
      |g| == ChildLevelCount(n, L - lvl - 1, o) && UniqueRoutes(g) &&
      forall e :: e in g ==> FoundBelow(e, n, path, L) && FullPath(e)[lvl] == o
    decreases c, 9
  {
    var path' := path + [o];
    GatherSpec(L, c, lvl + 1, path');
    forall e | e in Gather(L, c, lvl + 1, path')
      ensures FoundBelow(e, n, path, L) && FullPath(e)[lvl] == o
    {
      var f := FullPath(e);
      assert f[..lvl + 1] == path';
      assert f[..lvl] == f[..lvl + 1][..lvl];
      assert f[lvl] == f[..lvl + 1][lvl];
      assert f[lvl..][0] == o && f[lvl..][1..] == f[lvl + 1..];
    }
  }

  // ---------------------------------------------------------------- merging one node

  /**
    One step of the partial merge: the node of `e` is folded into its parent, which
    is found along the parent route. The rest of the tree keeps its nodes.
   */
  lemma PartialMergeStep(root: Node, L: nat, e: LevelNode, cc: int)
    returns (parent: Node, parent': Node, root': Node, cc': int)
    requires 1 <= L && Partial(root, 0, L) && cc == ColorNodes(root)
    requires |e.parent| == L - 1 && NodeAt(root, FullPath(e)) == Some(e.node)
    ensures NodeAt(root, e.parent) == Some(parent)
    ensures MergeChildIntoParent(parent, e.offset, e.node, cc) == Ok((parent', cc'))
    ensures root' == ReplaceAt(root, e.parent, parent')
    ensures Partial(root', 0, L) && cc' == ColorNodes(root')
    ensures cc' == cc || cc' == cc - 1
    ensures LevelCount(root', L - 1) == LevelCount(root, L - 1)
    ensures LevelCount(root', L) + 1 == LevelCount(root, L)
    ensures NodeAt(root', FullPath(e)).None?
    ensures forall q: Path :: |q| == L && q != FullPath(e) ==> NodeAt(root', q) == NodeAt(root, q)
  {
    NodeAtConcat(root, e.parent, [e.offset]);
    parent := NodeAt(root, e.parent).value;
    assert NodeAt(parent, [e.offset]) == TryGetChild(parent, e.offset);
    NodeAtPartial(root, 0, L, e.parent);
    assert Partial(e.node, L, L);
    MergeChildSpec(parent, e.offset, e.node, cc);
    var r := MergeChildIntoParent(parent, e.offset, e.node, cc).value;
    parent', cc' := r.0, r.1;
    root' := ReplaceAt(root, e.parent, parent');
    MergedParentPartial(parent, parent', e.offset, L);
    PartialReplace(root, 0, L, e.parent, parent');
    ReplaceAtColorNodes(root, e.parent, parent');
    ReplaceAtLevelCount(root, e.parent, parent', L - 1);
    ReplaceAtLevelCount(root, e.parent, parent', L);
    ReplaceAtFound(root, e.parent, parent', [e.offset]);
    assert NodeAt(parent', [e.offset]) == TryGetChild(parent', e.offset);
    MergeStepFrame(root, e, parent, parent', L);
  }

  lemma MergedParentPartial(parent: Node, parent': Node, o: Offset, L: nat)
    requires 1 <= L && Partial(parent, L - 1, L)
    requires parent'.Full? && parent'.count >= parent.count && SameSlotsBut(parent, parent', o) && TryGetChild(parent', o).None?
    ensures Partial(parent', L - 1, L)
  {
    forall j: Offset | TryGetChild(parent', j).Some?
      ensures Partial(TryGetChild(parent', j).value, L, L)
    {
      assert TryGetChild(parent', j) == TryGetChild(parent, j);
    }
  }

  /** Replacing the parent by the merged parent leaves every other node of level L in place. */
  lemma MergeStepFrame(root: Node, e: LevelNode, parent: Node, parent': Node, L: nat)
    requires 1 <= L && |e.parent| == L - 1 && NodeAt(root, e.parent) == Some(parent)
    requires SameSlotsBut(parent, parent', e.offset)
    ensures forall q: Path :: |q| == L && q != FullPath(e) ==> NodeAt(ReplaceAt(root, e.parent, parent'), q) == NodeAt(root, q)
  {
    var root' := ReplaceAt(root, e.parent, parent');
    forall q: Path | |q| == L && q != FullPath(e)
      ensures NodeAt(root', q) == NodeAt(root, q)
    {
      if q[..L - 1] != e.parent {
        ReplaceAtElsewhere(root, e.parent, parent', q);
      } else {
        var j := q[L - 1];
        assert q == e.parent + [j];
        assert j != e.offset;
        ReplaceAtFound(root, e.parent, parent', [j]);
        NodeAtConcat(root, e.parent, [j]);
        assert NodeAt(parent', [j]) == TryGetChild(parent', j);
        assert NodeAt(parent, [j]) == TryGetChild(parent, j);
      }
    }
  }

  // ---------------------------------------------------------------- Reduce

  /**
    The partial merge loop of Reduce: fold the gathered nodes of level L into their
    parents in list order while the colour count exceeds the target. `merged` is
    the number of list entries folded; they are gone from the tree and every
    later entry is still in place.
   */
  method MergeInOrder(root: Node, L: nat, s: seq<LevelNode>, cc: int, target: int)
    returns (r: Node, cc': int, merged: nat)
    requires 1 <= L && Partial(root, 0, L) && cc == ColorNodes(root)
    requires |s| == LevelCount(root, L) && UniqueRoutes(s)
    requires forall e :: e in s ==> |e.parent| == L - 1 && NodeAt(root, FullPath(e)) == Some(e.node)
    ensures merged <= |s| && Partial(r, 0, L) && cc' == ColorNodes(r)
    ensures LevelCount(r, L - 1) == LevelCount(root, L - 1) && LevelCount(r, L) == |s| - merged
    ensures merged < |s| ==> cc' <= target
    ensures merged > 0 ==> cc' >= target
    ensures merged == 0 ==> r == root && cc' == cc
    ensures cc <= target ==> merged == 0
    ensures cc' <= cc
    ensures forall j :: 0 <= j < merged ==> NodeAt(r, FullPath(s[j])).None?
    ensures forall j :: merged <= j < |s| ==> NodeAt(r, FullPath(s[j])) == Some(s[j].node)
  {
    r, cc', merged := root, cc, 0;
    while merged < |s| && cc' > target
      invariant merged <= |s| && Partial(r, 0, L) && cc' == ColorNodes(r)
      invariant LevelCount(r, L - 1) == LevelCount(root, L - 1) && LevelCount(r, L) == |s| - merged
      invariant merged > 0 ==> cc' >= target
      invariant merged == 0 ==> r == root && cc' == cc
      invariant cc <= target ==> merged == 0
      invariant cc' <= cc
      invariant forall j :: 0 <= j < merged ==> NodeAt(r, FullPath(s[j])).None?
      invariant forall j :: merged <= j < |s| ==> NodeAt(r, FullPath(s[j])) == Some(s[j].node)
      decreases |s| - merged
    {
      var e := s[merged];
      ghost var parent0, parent0', r0, cc0 := PartialMergeStep(r, L, e, cc');
      var parent := NodeAt(r, e.parent).value;
      var step := MergeChildIntoParent(parent, e.offset, e.node, cc').value;
      var r' := ReplaceAt(r, e.parent, step.0);
      forall j | 0 <= j < |s| && j != merged
        ensures NodeAt(r', FullPath(s[j])) == NodeAt(r, FullPath(s[j]))
      {
        if j < merged {
          assert FullPath(s[j]) != FullPath(e);
        } else {
          UniqueRoutesAt(s, merged, j);
        }
      }
      r, cc', merged := r', step.1, merged + 1;
    }
  }

  /** Under the shape for L every level down to L has at least one node. */
  lemma {:induction false} StagedLevelsNonEmpty(n: Node, L: nat, d: nat)
    requires d <= L && Staged(n, 0, L)
    ensures LevelCount(n, d) >= 1
  {
    if d > 0 {
      StagedLevelsNonEmpty(n, L, d - 1);
      StagedLevelsGrow(n, 0, L, d - 1);
    }
  }

  /**
    The first loop of Reduce: fold level `level` into level `level - 1`, from level 8
    upwards, while level `level - 1` has more nodes than the target. `counts` are the
    level counts taken before the loop.
   */
  method MergeWholeLevels(root: Node, cc: int, target: int, counts: seq<int>) returns (tree: Node, c: int, level: nat)
    requires Staged(root, 0, 8) || root == NewFull
    requires cc == ColorNodes(root)
    requires |counts| == 9 && forall d :: 0 <= d < 9 ==> counts[d] == LevelCount(root, d)
    ensures level <= 8 && c == ColorNodes(tree)
    ensures Staged(root, 0, 8) ==> Staged(tree, 0, level)
    ensures root == NewFull ==> tree == NewFull
    ensures level >= 1 ==> LevelCount(tree, level - 1) <= target
    ensures level >= 1 && Staged(root, 0, 8) ==> target >= 1
    ensures level == 0 ==> target < 1
    ensures cc <= target ==> level == 8 && tree == root && c == cc
  {
    ghost var staged := Staged(root, 0, 8);
    if staged {
      StagedColorNodes(root, 0, 8);
      StagedLevelsGrow(root, 0, 8, 7);
    } else {
      NoChildrenFrom(root, 6, 0);
    }
    level := 8;
    tree, c := root, cc;
    while level >= 1 && counts[level - 1] > target
      invariant 0 <= level <= 8
      invariant staged ==> Staged(tree, 0, level)
      invariant !staged ==> tree == NewFull
      invariant c == ColorNodes(tree)
      invariant forall d :: 0 <= d < level ==> LevelCount(tree, d) == counts[d]
      invariant level < 8 ==> counts[level] > target
      invariant cc <= target ==> level == 8 && tree == root && c == cc
      decreases level
    {
      if staged {
        MergeLevelSpec(level, tree, 0, c);
        StagedColorNodes(tree, 0, level);
        StagedColorNodes(MergeLevel(level, tree, 0, c).value.0, 0, level - 1);
      }
      var step := MergeLevel(level, tree, 0, c).value;
      tree, c := step.0, step.1;
      level := level - 1;
    }
    if level >= 1 && staged {
      StagedLevelsNonEmpty(root, 8, level - 1);
    }
  }

  /**
    The rest of Reduce once whole levels are done: gather the nodes of level L,
    sort them by pixel count, and fold them into their parents smallest first.
   */
  method MergeLastLevel(tree: Node, L: nat, c: int, target: int) returns (r: Node, cc': int)
    requires 1 <= L <= 8 && Partial(tree, 0, L) && c == ColorNodes(tree)
    ensures cc' == ColorNodes(r) && cc' <= c
    ensures cc' <= target || cc' <= LevelCount(tree, L - 1)
    ensures cc' >= target || cc' == c
    ensures c <= target ==> r == tree && cc' == c
  {
    var entries := GatherLevelNodes(tree, L);
    GatheredEntries(tree, L);
    var sorted := ListUtil.SortAll(entries, (e: LevelNode) => e.node.count);
    EntriesPermuted(tree, L, entries, sorted);
    var merged;
    r, cc', merged := MergeInOrder(tree, L, sorted, c, target);
    MergedOutcome(tree, L, c, target, |sorted|, r, cc', merged);
  }

  /** What MergeInOrder's outcome means for the colour count: at most the target, or all of level L folded away. */
  lemma MergedOutcome(tree: Node, L: nat, c: int, target: int, n: nat, r: Node, cc': int, merged: nat)
    requires 1 <= L && Partial(r, 0, L) && cc' == ColorNodes(r) && merged <= n
    requires LevelCount(r, L - 1) == LevelCount(tree, L - 1) && LevelCount(r, L) == n - merged
    requires merged < n ==> cc' <= target
    ensures cc' <= target || cc' <= LevelCount(tree, L - 1)
  {
    PartialBound(r, 0, L);
  }

  /** The gathered nodes of level L: one entry per node of the level, each found along its route. */
  lemma GatheredEntries(tree: Node, L: nat)
    requires 1 <= L <= 8
    ensures var g := GatherLevelNodes(tree, L);
      |g| == LevelCount(tree, L) && |g| <= INT32_MAX && UniqueRoutes(g) &&
      forall e :: e in g ==> |e.parent| == L - 1 && NodeAt(tree, FullPath(e)) == Some(e.node)
  {
    GatherSpec(L, tree, 0, []);
    forall e | e in GatherLevelNodes(tree, L)
      ensures |e.parent| == L - 1 && NodeAt(tree, FullPath(e)) == Some(e.node)
    {
      assert FullPath(e)[0..] == FullPath(e);
    }
    LevelCountBound(tree, L);
    Pow8Monotone(L, 8);
  }

  /** Any reordering of the gathered nodes keeps these facts. */
  lemma EntriesPermuted(tree: Node, L: nat, s: seq<LevelNode>, t: seq<LevelNode>)
    requires multiset(s) == multiset(t) && UniqueRoutes(s)
    requires forall e :: e in s ==> |e.parent| == L - 1 && NodeAt(tree, FullPath(e)) == Some(e.node)
    ensures |t| == |s| && UniqueRoutes(t)
    ensures forall e :: e in t ==> |e.parent| == L - 1 && NodeAt(tree, FullPath(e)) == Some(e.node)
  {
    assert |t| == |multiset(t)| == |multiset(s)| == |s|;
    assert forall e :: e in t ==> e in multiset(s);
  }

  /**
    Octree.Reduce(targetColorCount): fold whole levels into their parents from level
    8 upwards while the level above has more nodes than the target; then gather the
    nodes of the level reached, order them by pixel count and fold them one by one
    until the colour count is at most the target. The input is the tree colours are
    inserted into: empty, or in the shape for level 8.
   */
  method Reduce(root: Node, cc: int, target: int) returns (r: Node, cc': int)
    requires Staged(root, 0, 8) || root == NewFull
    requires cc == ColorNodes(root)
    ensures cc' == ColorNodes(r)
    ensures target >= 1 ==> cc' <= target
    ensures target < 1 ==> cc' == (if root == NewFull then 0 else 1)
    ensures root != NewFull ==> cc' >= 1
    ensures cc <= target ==> r == root && cc' == cc
  {
    if root != NewFull {
      StagedWithinLevels(root, 0, 8);
    }
    GetLevelNodeCountsSpec(root);
    var counts := GetLevelNodeCounts(root).value;
    var tree, c, level := MergeWholeLevels(root, cc, target, counts);
    if level == 0 {
      NoLevelLeft(root, tree);
      return tree, c;
    }
    LastLevelReady(root, tree, level);
    r, cc' := MergeLastLevel(tree, level, c, target);
  }

  /** When every level is folded away, the root alone is left: one colour, or none for the empty tree. */
  lemma NoLevelLeft(root: Node, tree: Node)
    requires Staged(root, 0, 8) || root == NewFull
    requires Staged(root, 0, 8) ==> Staged(tree, 0, 0)
    requires root == NewFull ==> tree == NewFull
    ensures ColorNodes(tree) == if root == NewFull then 0 else 1
  {
    NoChildrenFrom(tree, 0, 0);
  }

  /** After the whole levels, the tree has the shape the last-level merge needs, and a non-empty tree has a colour. */
  lemma LastLevelReady(root: Node, tree: Node, level: nat)
    requires 1 <= level <= 8 && (Staged(root, 0, 8) || root == NewFull)
    requires Staged(root, 0, 8) ==> Staged(tree, 0, level)
    requires root == NewFull ==> tree == NewFull
    ensures Partial(tree, 0, level)
    ensures root != NewFull ==> ColorNodes(tree) >= 1
  {
    if root != NewFull {
      StagedPartial(tree, 0, level);
      StagedColorNodes(tree, 0, level);
      StagedLevelsNonEmpty(tree, level, level);
    } else {
      NoChildrenFrom(tree, 0, 0);
    }
  }
}
