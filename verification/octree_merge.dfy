/**
  Folding leaves into their parents: MergeChildIntoParent, the whole-level merge
  MergeLevelIntoParent, and the palette walk GatherColors. The octree's colour
  count `cc` is threaded through; the lemmas show it keeps matching the number of
  coloured nodes, which is what the palette length is.
 */
module OctreeMerge {
  import opened Wrappers
  import opened Colors
  import opened OctreeNodes
  import opened OctreePaths
  import opened OctreeTree

  /**
    MergeChildIntoParent: the parent takes over the child's colour information and
    drops the child. The parent counts as a new colour if it had none; the child
    stops counting.
   */
  function MergeChildIntoParent(parent: Node, offset: Offset, child: Node, cc: int): Result<(Node, int)> {
    var cc1 := if !HasColorInfo(parent) then cc + 1 else cc;
    var p1 :- AddNodeInfo(parent, child);
    var p2 :- RemoveChild(p1, offset);
    Ok((p2, cc1 - 1))
  }

  /**
    Merging a coloured leaf into an interior parent succeeds; the parent loses
    exactly that slot, adds the child's count and r/g/b sums to its own, gains colour information, one node one level down, and the
    colour count stays in step with the coloured nodes.
   */
  lemma MergeChildSpec(parent: Node, offset: Offset, child: Node, cc: int)
    requires parent.Full? && parent.count >= 0
    requires TryGetChild(parent, offset) == Some(child) && !HasChildren(child) && child.count >= 1
    ensures var r := MergeChildIntoParent(parent, offset, child, cc);
      r.Ok? && r.value.0.Full? && r.value.0.count == parent.count + child.count &&
      ComponentSums(r.value.0) == AddSums(ComponentSums(parent), ComponentSums(child)) &&
      TryGetChild(r.value.0, offset).None? && SameSlotsBut(parent, r.value.0, offset) &&
      r.value.1 - ColorNodes(r.value.0) == cc - ColorNodes(parent) &&
      r.value.1 == (if HasColorInfo(parent) then cc - 1 else cc) &&
      LevelCount(r.value.0, 1) + 1 == LevelCount(parent, 1)
  {
    var p1 := AddNodeInfo(parent, child).value;
    assert TryGetChild(p1, offset) == Some(child);
    var p2 := RemoveChild(p1, offset).value;
    assert SameSlotsBut(parent, p2, offset) by {
      forall j: Offset | j != offset
        ensures TryGetChild(p2, j) == TryGetChild(parent, j)
      {
        assert TryGetChild(p1, j) == TryGetChild(parent, j);
      }
    }
    NoChildrenFrom(child, 0, 0);
    ColorNodesSlot(parent, p2, offset, 0);
    LevelCountSlot(parent, p2, offset, 0, 0);
  }

  // ---------------------------------------------------------------- whole levels

  /**
    MergeLevelIntoParent(level, node, nodeLevel): below a node at level L - 1 every
    child is merged into it, in slot order; above that the walk recurses into the
    children, again in slot order.
   */
  function MergeLevel(L: nat, n: Node, lvl: nat, cc: int): Result<(Node, int)>
    requires lvl < L
    decreases L - lvl, 9
  {
    if !HasChildren(n) then Ok((n, cc)) else MergeLevelFrom(L, n, lvl, 0, cc)
  }

  function MergeLevelFrom(L: nat, n: Node, lvl: nat, k: nat, cc: int): Result<(Node, int)>
    requires lvl < L && k <= 8
    decreases L - lvl, 8 - k
  {
    if k == 8 then Ok((n, cc))
    else
      match TryGetChild(n, k)
      case None => MergeLevelFrom(L, n, lvl, k + 1, cc)
      case Some(child) =>
        if L == lvl + 1 then
          var (n', cc') :- MergeChildIntoParent(n, k, child, cc);
          MergeLevelFrom(L, n', lvl, k + 1, cc')
        else
          var (child', cc') :- MergeLevel(L, child, lvl + 1, cc);
          MergeLevelFrom(L, n.(children := n.children[k := child']), lvl, k + 1, cc')
  }

  /** The state of the merge loop of a node at level L - 1 after the slots before k. */
  predicate ChildrenMergedUpTo(n0: Node, m: Node, k: nat) {
    m.Full? && m.count >= 0 &&
    (forall j: Offset :: j < k ==> TryGetChild(m, j).None?) &&
    (forall j: Offset :: j >= k ==> TryGetChild(m, j) == TryGetChild(n0, j)) &&
    ((exists j: Offset :: j < k && TryGetChild(n0, j).Some?) ==> m.count >= 1)
  }

  /** The merge loop at level L - 1 empties every slot and leaves a coloured leaf. */
  lemma {:induction false} MergeChildrenFromSpec(L: nat, n0: Node, m: Node, lvl: nat, k: nat, cc: int)
    requires L == lvl + 1 && k <= 8 && ChildrenMergedUpTo(n0, m, k)
    requires forall j: Offset :: TryGetChild(n0, j).Some? ==> Staged(TryGetChild(n0, j).value, L, L)
    ensures var r := MergeLevelFrom(L, m, lvl, k, cc);
      r.Ok? && ChildrenMergedUpTo(n0, r.value.0, 8) &&
      r.value.1 - ColorNodes(r.value.0) == cc - ColorNodes(m)
    decreases 8 - k
  {
    if k < 8 {
      var m', cc' := MergeSlot(L, n0, m, lvl, k, cc);
      MergeChildrenFromSpec(L, n0, m', lvl, k + 1, cc');
    }
  }

  /** One turn of the merge loop at level L - 1: slot k is emptied, merging its child if there is one. */
  lemma MergeSlot(L: nat, n0: Node, m: Node, lvl: nat, k: Offset, cc: int) returns (m': Node, cc': int)
    requires L == lvl + 1 && ChildrenMergedUpTo(n0, m, k)
    requires forall j: Offset :: TryGetChild(n0, j).Some? ==> Staged(TryGetChild(n0, j).value, L, L)
    ensures MergeLevelFrom(L, m, lvl, k, cc) == MergeLevelFrom(L, m', lvl, k + 1, cc')
    ensures ChildrenMergedUpTo(n0, m', k + 1)
    ensures cc' - ColorNodes(m') == cc - ColorNodes(m)
  {
    match TryGetChild(m, k)
    case None =>
      m', cc' := m, cc;
    case Some(child) =>
      m', cc' := MergeSlotChild(L, n0, m, lvl, k, child, cc);
  }

  lemma MergeSlotChild(L: nat, n0: Node, m: Node, lvl: nat, k: Offset, child: Node, cc: int) returns (m': Node, cc': int)
    requires L == lvl + 1 && ChildrenMergedUpTo(n0, m, k) && TryGetChild(m, k) == Some(child)
    requires forall j: Offset :: TryGetChild(n0, j).Some? ==> Staged(TryGetChild(n0, j).value, L, L)
    ensures MergeLevelFrom(L, m, lvl, k, cc) == MergeLevelFrom(L, m', lvl, k + 1, cc')
    ensures ChildrenMergedUpTo(n0, m', k + 1)
    ensures cc' - ColorNodes(m') == cc - ColorNodes(m)
  {
    m', cc' := MergeChildStep(L, n0, m, k, child, cc);
  }

  lemma MergeChildStep(L: nat, n0: Node, m: Node, k: Offset, child: Node, cc: int) returns (m': Node, cc': int)
    requires ChildrenMergedUpTo(n0, m, k) && TryGetChild(m, k) == Some(child)
    requires forall j: Offset :: TryGetChild(n0, j).Some? ==> Staged(TryGetChild(n0, j).value, L, L)
    ensures MergeChildIntoParent(m, k, child, cc) == Ok((m', cc'))
    ensures ChildrenMergedUpTo(n0, m', k + 1)
    ensures cc' - ColorNodes(m') == cc - ColorNodes(m)
  {
    assert TryGetChild(n0, k) == Some(child);
    assert Staged(child, L, L);
    MergeChildSpec(m, k, child, cc);
    var r := MergeChildIntoParent(m, k, child, cc).value;
    m', cc' := r.0, r.1;
    forall j: Offset | j != k
      ensures TryGetChild(m', j) == TryGetChild(m, j)
    {
    }
  }

  lemma EmptySlots(m: Node)
    requires forall j: Offset :: TryGetChild(m, j).None?
    ensures !HasChildren(m)
  {
    if m.Full? {
      assert forall j :: j in m.children ==> TryGetChild(m, j).Some?;
      assert m.children.Keys == {};
    }
  }

  /** The state of the walk of a node above level L - 1 after the slots before k. */
  predicate DescendedUpTo(n0: Node, m: Node, lvl: nat, L: nat, k: nat)
    requires lvl + 1 < L
  {
    m.Full? && m.count == 0 && HasChildren(m) &&
    (forall j: Offset :: TryGetChild(m, j).Some? <==> TryGetChild(n0, j).Some?) &&
    (forall j: Offset :: j >= k ==> TryGetChild(m, j) == TryGetChild(n0, j)) &&
    (forall j: Offset :: j < k && TryGetChild(m, j).Some? ==> Staged(TryGetChild(m, j).value, lvl + 1, L - 1)) &&
    (forall d: nat :: d < L - lvl ==> LevelCount(m, d) == LevelCount(n0, d))
  }

  /**
    Merging level L into level L - 1 turns the shape for L into the shape for L - 1,
    keeps the number of nodes on every level above L, and keeps the colour count in
    step with the coloured nodes.
   */
  lemma {:induction false} MergeLevelSpec(L: nat, n: Node, lvl: nat, cc: int)
    requires lvl < L && Staged(n, lvl, L)
    ensures var r := MergeLevel(L, n, lvl, cc);
      r.Ok? && Staged(r.value.0, lvl, L - 1) &&
      r.value.1 - ColorNodes(r.value.0) == cc - ColorNodes(n) &&
      forall d: nat :: d < L - lvl ==> LevelCount(r.value.0, d) == LevelCount(n, d)
    decreases L - lvl, 9
  {
    if L == lvl + 1 {
      MergeChildrenFromSpec(L, n, n, lvl, 0, cc);
      var m := MergeLevel(L, n, lvl, cc).value.0;
      assert ChildrenMergedUpTo(n, m, 8);
      EmptySlots(m);
      assert m.count >= 1 by {
        var j :| j in n.children;
        assert TryGetChild(n, j).Some?;
      }
    } else {
      assert DescendedUpTo(n, n, lvl, L, 0);
      MergeDescendFromSpec(L, n, n, lvl, 0, cc);
    }
  }

  lemma {:induction false} MergeDescendFromSpec(L: nat, n0: Node, m: Node, lvl: nat, k: nat, cc: int)
    requires lvl + 1 < L && k <= 8 && Staged(n0, lvl, L) && DescendedUpTo(n0, m, lvl, L, k)
    ensures var r := MergeLevelFrom(L, m, lvl, k, cc);
      r.Ok? && Staged(r.value.0, lvl, L - 1) &&
      r.value.1 - ColorNodes(r.value.0) == cc - ColorNodes(m) &&
      forall d: nat :: d < L - lvl ==> LevelCount(r.value.0, d) == LevelCount(n0, d)
    decreases L - lvl, 8 - k
  {
    if k == 8 {
      forall o: Offset | TryGetChild(m, o).Some?
        ensures Staged(TryGetChild(m, o).value, lvl + 1, L - 1)
      {
      }
    } else {
      match TryGetChild(m, k)
      case None =>
        MergeDescendFromSpec(L, n0, m, lvl, k + 1, cc);
      case Some(child) =>
        assert TryGetChild(n0, k) == Some(child);
        MergeLevelSpec(L, child, lvl + 1, cc);
        var (child', cc') := MergeLevel(L, child, lvl + 1, cc).value;
        var m' := m.(children := m.children[k := child']);
        DescendStep(n0, m, m', lvl, L, k, child, child');
        ColorNodesSlot(m, m', k, 0);
        MergeDescendFromSpec(L, n0, m', lvl, k + 1, cc');
    }
  }

  lemma DescendStep(n0: Node, m: Node, m': Node, lvl: nat, L: nat, k: Offset, child: Node, child': Node)
    requires lvl + 1 < L && DescendedUpTo(n0, m, lvl, L, k)
    requires TryGetChild(m, k) == Some(child) && m' == m.(children := m.children[k := child'])
    requires Staged(child', lvl + 1, L - 1)
    requires forall d: nat :: d < L - (lvl + 1) ==> LevelCount(child', d) == LevelCount(child, d)
    ensures DescendedUpTo(n0, m', lvl, L, k + 1)
    ensures SameSlotsBut(m, m', k) && TryGetChild(m', k) == Some(child')
  {
    assert TryGetChild(m', k) == Some(child');
    assert SameSlotsBut(m, m', k);
    forall d: nat | d < L - lvl
      ensures LevelCount(m', d) == LevelCount(n0, d)
    {
      if d > 0 {
        LevelCountSlot(m, m', k, d - 1, 0);
      }
    }
    forall j: Offset | j < k + 1 && TryGetChild(m', j).Some?
      ensures Staged(TryGetChild(m', j).value, lvl + 1, L - 1)
    {
    }
  }

  // ---------------------------------------------------------------- palette

  /**
    GatherColors: every node with colour information contributes its rounded mean
    colour, the node before its children and the children in slot order.
   */
  function GatherColors(n: Node): seq<ColorBgr24>
    decreases n, 9, 0
  {
    (if HasColorInfo(n) then [NodeColor(n)] else []) + GatherColorsFrom(n, 0)
  }

  function GatherColorsFrom(n: Node, k: nat): seq<ColorBgr24>
    requires k <= 8
    decreases n, 8 - k, 1
  {
    if k == 8 then [] else ChildColors(n, k) + GatherColorsFrom(n, k + 1)
  }

  function ChildColors(n: Node, o: Offset): seq<ColorBgr24>
    decreases n, 8 - o, 0
  {
    match TryGetChild(n, o)
    case None => []
    case Some(c) => GatherColors(c)
  }

  /** The palette has one entry per coloured node. */
  lemma {:induction false} GatherColorsLength(n: Node)
    ensures |GatherColors(n)| == ColorNodes(n)
    decreases n, 9, 0
  {
    GatherColorsFromLength(n, 0);
  }

  lemma {:induction false} GatherColorsFromLength(n: Node, k: nat)
    requires k <= 8
    ensures |GatherColorsFrom(n, k)| == ColorNodesFrom(n, k)
    decreases n, 8 - k, 1
  {
    if k < 8 {
      GatherColorsFromLength(n, k + 1);
      match TryGetChild(n, k)
      case None =>
      case Some(c) => GatherColorsLength(c);
    }
  }
}
