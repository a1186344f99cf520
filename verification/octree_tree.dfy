/**
  Measures of an octree and the colour insertion of the octree quantizer. A tree
  is measured by the nodes carrying colour information (each becomes one palette
  entry) and by the number of nodes at each depth (GetLevelNodeCounts).
 */
module OctreeTree {
  import opened Wrappers
  import opened Colors
  import opened OctreeNodes
  import opened OctreePaths

  // ---------------------------------------------------------------- measures

  /** The number of nodes of a subtree that carry colour information. */
  function ColorNodes(n: Node): nat
    decreases n, 9, 0
  {
    (if HasColorInfo(n) then 1 else 0) + ColorNodesFrom(n, 0)
  }

  function ColorNodesFrom(n: Node, k: nat): nat
    requires k <= 8
    decreases n, 8 - k, 1
  {
    if k == 8 then 0 else ChildColorNodes(n, k) + ColorNodesFrom(n, k + 1)
  }

  function ChildColorNodes(n: Node, o: Offset): nat
    decreases n, 8 - o, 0
  {
    match TryGetChild(n, o)
    case None => 0
    case Some(c) => ColorNodes(c)
  }

  /** The number of nodes `d` levels below `n` (`n` itself for d == 0). */
  function LevelCount(n: Node, d: nat): nat
    decreases n, 9, 0
  {
    if d == 0 then 1 else LevelCountFrom(n, d - 1, 0)
  }

  function LevelCountFrom(n: Node, d: nat, k: nat): nat
    requires k <= 8
    decreases n, 8 - k, 1
  {
    if k == 8 then 0 else ChildLevelCount(n, d, k) + LevelCountFrom(n, d, k + 1)
  }

  function ChildLevelCount(n: Node, d: nat, o: Offset): nat
    decreases n, 8 - o, 0
  {
    match TryGetChild(n, o)
    case None => 0
    case Some(c) => LevelCount(c, d)
  }

  /** Two nodes whose slots agree except at `o`. */
  predicate SameSlotsBut(n: Node, m: Node, o: Offset) {
    forall j: Offset :: j != o ==> TryGetChild(m, j) == TryGetChild(n, j)
  }

  /** Replacing one child changes the colour-node count by that child's difference. */
  lemma {:induction false} ColorNodesSlot(n: Node, m: Node, o: Offset, k: nat)
    requires k <= 8 && SameSlotsBut(n, m, o)
    ensures ColorNodesFrom(m, k) + (if k <= o then ChildColorNodes(n, o) else 0)
         == ColorNodesFrom(n, k) + (if k <= o then ChildColorNodes(m, o) else 0)
    decreases 8 - k
  {
    if k < 8 {
      ColorNodesSlot(n, m, o, k + 1);
    }
  }

  lemma {:induction false} LevelCountSlot(n: Node, m: Node, o: Offset, d: nat, k: nat)
    requires k <= 8 && SameSlotsBut(n, m, o)
    ensures LevelCountFrom(m, d, k) + (if k <= o then ChildLevelCount(n, d, o) else 0)
         == LevelCountFrom(n, d, k) + (if k <= o then ChildLevelCount(m, d, o) else 0)
    decreases 8 - k
  {
    if k < 8 {
      LevelCountSlot(n, m, o, d, k + 1);
    }
  }

  /** A node without children contributes nothing below itself. */
  lemma {:induction false} NoChildrenFrom(n: Node, d: nat, k: nat)
    requires k <= 8 && !HasChildren(n)
    ensures ColorNodesFrom(n, k) == 0 && LevelCountFrom(n, d, k) == 0
    decreases 8 - k
  {
    if k < 8 {
      NoChildrenFrom(n, d, k + 1);
    }
  }

  // ---------------------------------------------------------------- shape

  /**
    The shape of the tree while it is being reduced to level `L`: every node above
    level `L` is an interior node without colour information and with at least one
    child; every node at level `L` is a leaf with colour information. The tree the
    colours are inserted into has this shape for L == 8.
   */
  predicate Staged(n: Node, lvl: nat, L: nat)
    decreases n
  {
    if lvl < L then
      n.Full? && n.count == 0 && HasChildren(n) &&
      forall o: Offset :: TryGetChild(n, o).Some? ==> Staged(TryGetChild(n, o).value, lvl + 1, L)
    else
      lvl == L && !HasChildren(n) && n.count >= 1
  }

  /** An interior node colours can be inserted into: Staged, except that it may still be empty. */
  predicate Open(n: Node, lvl: nat) {
    lvl < 8 && n.Full? && n.count == 0 &&
    forall o: Offset :: TryGetChild(n, o).Some? ==> Staged(TryGetChild(n, o).value, lvl + 1, 8)
  }

  /** Under the shape for level L the coloured nodes are exactly the nodes at level L. */
  lemma {:induction false} StagedColorNodes(n: Node, lvl: nat, L: nat)
    requires lvl <= L && Staged(n, lvl, L)
    ensures ColorNodes(n) == LevelCount(n, L - lvl)
    decreases n, 1
  {
    if lvl == L {
      NoChildrenFrom(n, 0, 0);
    } else {
      StagedColorNodesFrom(n, lvl, L, 0);
    }
  }

  lemma {:induction false} StagedColorNodesFrom(n: Node, lvl: nat, L: nat, k: nat)
    requires lvl < L && Staged(n, lvl, L) && k <= 8
    ensures ColorNodesFrom(n, k) == LevelCountFrom(n, L - lvl - 1, k)
    decreases n, 0, 8 - k
  {
    if k < 8 {
      StagedColorNodesFrom(n, lvl, L, k + 1);
      match TryGetChild(n, k)
      case None =>
      case Some(c) => StagedColorNodes(c, lvl + 1, L);
    }
  }

  // ---------------------------------------------------------------- following a path

  /** The node reached from `n` by following the offsets of `p`, if every slot on the way is occupied. */
  function NodeAt(n: Node, p: Path): Option<Node>
    decreases |p|
  {
    if |p| == 0 then Some(n)
    else
      match TryGetChild(n, p[0])
      case None => None
      case Some(c) => NodeAt(c, p[1..])
  }

  // ---------------------------------------------------------------- inserting colours

  /**
    Octree.AddColor(node, nodeLevel, color, count): walk down the colour's offsets,
    creating empty interior nodes for missing slots, and at level 7 either create a
    leaf (counting one more colour) or replace the existing leaf by an interior node
    holding both colour informations. `cc` is the octree's colour count.
   */
  function AddColor(node: Node, nodeLevel: nat, color: ColorBgr24, count: int, cc: int): Result<(Node, int)>
    requires nodeLevel <= 7
    decreases 7 - nodeLevel
  {
    var offset := GetColorOffset(color, nodeLevel);
    if nodeLevel < 7 then
      match TryGetChild(node, offset)
      case Some(child) =>
        var (child', cc') :- AddColor(child, nodeLevel + 1, color, count, cc);
        Ok((node.(children := node.children[offset := child']), cc'))
      case None =>
        var node1 :- SetChild(node, offset, NewFull);
        var (child', cc') :- AddColor(NewFull, nodeLevel + 1, color, count, cc);
        Ok((node1.(children := node1.children[offset := child']), cc'))
    else
      match TryGetChild(node, offset)
      case None =>
        var leaf :- Create(color, count);
        var node1 :- SetChild(node, offset, leaf);
        Ok((node1, cc + 1))
      case Some(child) =>
        // node has a child, so it is interior, and so is the fresh node: none of these fails
        var merged := AddNodeInfo(NewFull, child).value;
        var merged' := AddColorInfo(merged, color, count).value;
        Ok((SetChild(node, offset, merged').value, cc))
  }

  /**
    What AddColor leaves at the end of a colour's route: a new leaf when the route
    was empty, otherwise a fresh interior node holding the old node's colour
    information plus the new pixels.
   */
  function Inserted(prev: Option<Node>, color: ColorBgr24, count: int): Node {
    match prev
    case None => Simple(color, count)
    case Some(x) => AddColorInfo(AddNodeInfo(NewFull, x).value, color, count).value
  }

  /**
    `r` is a successful insertion of `count` pixels of `color` below `node` at
    nodeLevel: the tree keeps its shape, the node on the colour's route takes the
    pixels, the count grows exactly when that node is new, and every other route
    is untouched.
   */
  ghost predicate Inserts(node: Node, nodeLevel: nat, color: ColorBgr24, count: int, cc: int, r: Result<(Node, int)>)
    requires nodeLevel <= 8
  {
    var p := OffsetsFrom(color, nodeLevel);
    r.Ok? &&
    Staged(r.value.0, nodeLevel, 8) &&
    NodeAt(r.value.0, p) == Some(Inserted(NodeAt(node, p), color, count)) &&
    r.value.1 == cc + (if NodeAt(node, p).None? then 1 else 0) &&
    ColorNodes(r.value.0) == ColorNodes(node) + (r.value.1 - cc) &&
    forall q: Path :: |q| == 8 - nodeLevel && q != p ==> NodeAt(r.value.0, q) == NodeAt(node, q)
  }

  /**
    Inserting a colour with a positive count into an open node succeeds, keeps the
    shape, puts a node at the end of the colour's offsets, leaves every other leaf
    route alone, and counts one more colour exactly when the route was not there
    before; the colour count keeps matching the coloured nodes.
   */
  lemma {:induction false} AddColorSpec(node: Node, nodeLevel: nat, color: ColorBgr24, count: int, cc: int)
    requires nodeLevel <= 7 && Open(node, nodeLevel) && count >= 1
    ensures Inserts(node, nodeLevel, color, count, cc, AddColor(node, nodeLevel, color, count, cc))
    decreases 7 - nodeLevel
  {
    if nodeLevel < 7 {
      var child := ChildToFill(node, nodeLevel, GetColorOffset(color, nodeLevel));
      AddColorSpec(child, nodeLevel + 1, color, count, cc);
      AddStep(node, nodeLevel, color, count, cc, child);
    } else {
      AddLeafStep(node, color, count, cc);
    }
  }

  /** The node AddColor descends into, the existing child or a new one, is open. */
  lemma ChildToFill(node: Node, nodeLevel: nat, offset: Offset) returns (child: Node)
    requires nodeLevel < 7 && Open(node, nodeLevel)
    ensures TryGetChild(node, offset) == Some(child) || (TryGetChild(node, offset).None? && child == NewFull)
    ensures Open(child, nodeLevel + 1)
  {
    match TryGetChild(node, offset)
    case Some(c) =>
      assert Staged(c, nodeLevel + 1, 8);
      child := c;
    case None =>
      child := NewFull;
  }

  /** Every node reached by a non-empty path from a node without children is absent. */
  lemma NodeAtLeafless(n: Node, q: Path)
    requires !HasChildren(n) && |q| > 0
    ensures NodeAt(n, q).None?
  {
  }

  /** Reattaching an updated child: the shape facts that hold slot by slot. */
  lemma Reattach(node: Node, m: Node, nodeLevel: nat, offset: Offset, c: Node, c': Node)
    requires Open(node, nodeLevel) && nodeLevel < 7
    requires m == node.(children := node.children[offset := c'])
    requires TryGetChild(node, offset) == Some(c) || (TryGetChild(node, offset).None? && c == NewFull)
    requires Staged(c', nodeLevel + 1, 8)
    ensures Staged(m, nodeLevel, 8)
    ensures SameSlotsBut(node, m, offset) && TryGetChild(m, offset) == Some(c')
    ensures ColorNodes(m) + ColorNodes(c) == ColorNodes(node) + ColorNodes(c')
  {
    assert TryGetChild(m, offset) == Some(c');
    forall j: Offset | j != offset
      ensures TryGetChild(m, j) == TryGetChild(node, j)
    {
    }
    forall o: Offset | TryGetChild(m, o).Some?
      ensures Staged(TryGetChild(m, o).value, nodeLevel + 1, 8)
    {
      if o != offset {
        assert TryGetChild(m, o) == TryGetChild(node, o);
      }
    }
    ColorNodesSlot(node, m, offset, 0);
    if TryGetChild(node, offset).None? {
      NoChildrenFrom(NewFull, 0, 0);
    }
  }

  /** Following a route through the slot that changed, or through one that did not. */
  lemma ReattachRoutes(node: Node, m: Node, offset: Offset, c: Node, c': Node, p: Path, q: Path)
    requires SameSlotsBut(node, m, offset) && TryGetChild(m, offset) == Some(c')
    requires TryGetChild(node, offset) == Some(c) || (TryGetChild(node, offset).None? && c == NewFull)
    requires |q| == |p| > 1 && p[0] == offset && q != p
    requires NodeAt(c', q[1..]) == NodeAt(c, q[1..]) || q[1..] == p[1..]
    ensures NodeAt(m, q) == NodeAt(node, q) || q[1..] == p[1..]
  {
    if q[0] != offset {
      assert TryGetChild(m, q[0]) == TryGetChild(node, q[0]);
    } else if q[1..] != p[1..] && TryGetChild(node, offset).None? {
      NodeAtLeafless(NewFull, q[1..]);
    }
  }

  /** One level of AddColorSpec: the facts about the child's insertion lift to the node. */
  lemma {:induction false} AddStep(node: Node, nodeLevel: nat, color: ColorBgr24, count: int, cc: int, child: Node)
    requires 1 <= nodeLevel + 1 <= 7 && Open(node, nodeLevel) && count >= 1
    requires var o := GetColorOffset(color, nodeLevel);
      TryGetChild(node, o) == Some(child) || (TryGetChild(node, o).None? && child == NewFull)
    requires Inserts(child, nodeLevel + 1, color, count, cc, AddColor(child, nodeLevel + 1, color, count, cc))
    ensures Inserts(node, nodeLevel, color, count, cc, AddColor(node, nodeLevel, color, count, cc))
  {
    var offset := GetColorOffset(color, nodeLevel);
    var p := OffsetsFrom(color, nodeLevel);
    OffsetsFromStep(color, nodeLevel);
    var (c', cc') := AddColor(child, nodeLevel + 1, color, count, cc).value;
    var m := node.(children := node.children[offset := c']);
    if TryGetChild(node, offset).None? {
      var node1 := SetChild(node, offset, NewFull).value;
      assert node1.children[offset := c'] == node.children[offset := c'];
      NodeAtLeafless(NewFull, p[1..]);
    } else {
      assert NodeAt(node, p) == NodeAt(child, p[1..]);
    }
    assert AddColor(node, nodeLevel, color, count, cc) == Ok((m, cc'));
    Reattach(node, m, nodeLevel, offset, child, c');
    assert NodeAt(m, p) == NodeAt(c', p[1..]);
    ReattachAllRoutes(node, m, offset, child, c', p);
  }

  /** Every route but the insertion's own reads the same nodes after the child is replaced. */
  lemma ReattachAllRoutes(node: Node, m: Node, offset: Offset, c: Node, c': Node, p: Path)
    requires SameSlotsBut(node, m, offset) && TryGetChild(m, offset) == Some(c')
    requires TryGetChild(node, offset) == Some(c) || (TryGetChild(node, offset).None? && c == NewFull)
    requires |p| > 1 && p[0] == offset
    requires forall q: Path :: |q| == |p| - 1 && q != p[1..] ==> NodeAt(c', q) == NodeAt(c, q)
    ensures forall q: Path :: |q| == |p| && q != p ==> NodeAt(m, q) == NodeAt(node, q)
  {
    forall q: Path | |q| == |p| && q != p
      ensures NodeAt(m, q) == NodeAt(node, q)
    {
      ReattachRoutes(node, m, offset, c, c', p, q);
      if q[0] == offset {
        assert q[1..] != p[1..];
      }
    }
  }

  /** The last level of AddColorSpec: a new leaf, or a merged node in place of the old leaf. */
  lemma AddLeafStep(node: Node, color: ColorBgr24, count: int, cc: int)
    requires Open(node, 7) && count >= 1
    ensures Inserts(node, 7, color, count, cc, AddColor(node, 7, color, count, cc))
  {
    var offset := GetColorOffset(color, 7);
    var p := OffsetsFrom(color, 7);
    OffsetsFromStep(color, 7);
    var (m, cc') := AddColor(node, 7, color, count, cc).value;
    var leaf := m.children[offset];
    assert TryGetChild(m, offset) == Some(leaf);
    assert SameSlotsBut(node, m, offset);
    assert Staged(leaf, 8, 8);
    NoChildrenFrom(leaf, 0, 0);
    ColorNodesSlot(node, m, offset, 0);
    match TryGetChild(node, offset)
    case None =>
    case Some(child) =>
      assert Staged(child, 8, 8);
      NoChildrenFrom(child, 0, 0);
    forall o: Offset | TryGetChild(m, o).Some?
      ensures Staged(TryGetChild(m, o).value, 8, 8)
    {
      if o != offset {
        assert TryGetChild(m, o) == TryGetChild(node, o);
      }
    }
    forall q: Path | |q| == 1 && q != p
      ensures NodeAt(m, q) == NodeAt(node, q)
    {
      assert q[0] != offset;
      assert TryGetChild(m, q[0]) == TryGetChild(node, q[0]);
    }
  }
}
