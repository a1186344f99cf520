/**
  The nodes of the octree quantizer. The source keeps three leaf classes that only
  differ in how wide their count is (one, 32-bit or 64-bit) and one interior class
  with running colour sums and an array of eight child slots. Here a node is a
  value: a null slot is a missing key of `children`, and a null children array is
  the empty map (the source drops the array as soon as its last child is removed,
  so "array present" and "some slot occupied" coincide).
 */
module OctreeNodes {
  import opened Wrappers
  import opened Int32Util
  import opened Colors

  /** An index into a node's eight child slots. */
  type Offset = x: int | 0 <= x < 8

  datatype Node =
    | Simple(color: ColorBgr24, count: int)
    | Full(count: int, rSum: int, gSum: int, bSum: int, children: map<Offset, Node>)

  /** Sums of the red, green and blue components of the colours a node stands for. */
  datatype Sums = Sums(r: int, g: int, b: int)

  /** `new OctreeNodeFull()`: no colour information and no children. */
  const NewFull: Node := Full(0, 0, 0, 0, map[])

  predicate HasColorInfo(n: Node) {
    n.count > 0
  }

  predicate HasChildren(n: Node) {
    n.Full? && |n.children| > 0
  }

  function ComponentSums(n: Node): Sums {
    match n
    case Simple(c, k) => Sums(c.r as int * k, c.g as int * k, c.b as int * k)
    case Full(_, r, g, b, _) => Sums(r, g, b)
  }

  /** OctreeNodeSimple.Create: a leaf for `count` pixels of one colour. */
  function Create(color: ColorBgr24, count: int): (r: Result<Node>)
    ensures r.Ok? <==> count >= 1
    ensures r.Err? ==> r.error == ArgumentOutOfRange
    ensures r.Ok? ==> r.value.count == count && !HasChildren(r.value) && HasColorInfo(r.value)
    ensures r.Ok? ==> ComponentSums(r.value) == Sums(color.r as int * count, color.g as int * count, color.b as int * count)
  {
    if count < 1 then Err(ArgumentOutOfRange) else Ok(Simple(color, count))
  }

  /** AddColorInfo(OctreeNode): only an interior node accumulates colour information. */
  function AddNodeInfo(n: Node, other: Node): (r: Result<Node>)
    ensures r.Err? <==> n.Simple?
    ensures r.Err? ==> r.error == NotSupported
    ensures r.Ok? ==> r.value.Full? && r.value.children == n.children
    ensures r.Ok? ==> r.value.count == n.count + other.count
    ensures r.Ok? ==> ComponentSums(r.value) == AddSums(ComponentSums(n), ComponentSums(other))
  {
    match n
    case Simple(_, _) => Err(NotSupported)
    case Full(k, rs, gs, bs, kids) =>
      var s := ComponentSums(other);
      Ok(Full(k + other.count, rs + s.r, gs + s.g, bs + s.b, kids))
  }

  /** AddColorInfo(ColorBgr24, long): add `count` pixels of `color`. */
  function AddColorInfo(n: Node, color: ColorBgr24, count: int): (r: Result<Node>)
    ensures r.Err? <==> n.Simple?
    ensures r.Err? ==> r.error == NotSupported
    ensures r.Ok? ==> r.value.Full? && r.value.children == n.children
    ensures r.Ok? ==> r.value.count == n.count + count
    ensures r.Ok? ==> ComponentSums(r.value)
                        == AddSums(ComponentSums(n), Sums(color.r as int * count, color.g as int * count, color.b as int * count))
  {
    match n
    case Simple(_, _) => Err(NotSupported)
    case Full(k, rs, gs, bs, kids) =>
      Ok(Full(k + count, rs + color.r as int * count, gs + color.g as int * count, bs + color.b as int * count, kids))
  }

  function AddSums(s: Sums, t: Sums): Sums {
    Sums(s.r + t.r, s.g + t.g, s.b + t.b)
  }

  /** TryGetChild: the node in slot `o`, or None for a null slot (a leaf has none). */
  function TryGetChild(n: Node, o: Offset): (c: Option<Node>)
    ensures c.Some? <==> n.Full? && o in n.children
    ensures c.Some? ==> c.value < n
  {
    if n.Full? && o in n.children then
      assert n.children[o] in n.children.Values;
      Some(n.children[o])
    else None
  }

  /** GetChild: the node in slot `o`; an empty slot throws KeyNotFoundException. */
  function GetChild(n: Node, o: Offset): (r: Result<Node>)
    ensures r.Ok? <==> n.Full? && o in n.children
    ensures r.Ok? ==> TryGetChild(n, o) == Some(r.value)
    ensures r.Err? ==> r.error == KeyNotFound
  {
    match TryGetChild(n, o)
    case None => Err(KeyNotFound)
    case Some(c) => Ok(c)
  }

  /** SetChild: store `child` in slot `o`, allocating the slot array on first use. */
  function SetChild(n: Node, o: Offset, child: Node): (r: Result<Node>)
    ensures r.Err? <==> n.Simple?
    ensures r.Err? ==> r.error == NotSupported
    ensures r.Ok? ==> TryGetChild(r.value, o) == Some(child) && HasChildren(r.value)
    ensures r.Ok? ==> forall j: Offset :: j != o ==> TryGetChild(r.value, j) == TryGetChild(n, j)
    ensures r.Ok? ==> r.value.count == n.count && ComponentSums(r.value) == ComponentSums(n)
  {
    match n
    case Simple(_, _) => Err(NotSupported)
    case Full(k, rs, gs, bs, kids) => Ok(Full(k, rs, gs, bs, kids[o := child]))
  }

  /** RemoveChild: empty slot `o`; the slot array goes away with its last child. */
  function RemoveChild(n: Node, o: Offset): (r: Result<Node>)
    ensures n.Simple? ==> r == Err(NotSupported)
    ensures n.Full? && !HasChildren(n) ==> r == Err(InvalidOperation)
    ensures HasChildren(n) && TryGetChild(n, o).None? ==> r == Err(ArgumentOutOfRange)
    ensures r.Ok? <==> TryGetChild(n, o).Some?
    ensures r.Ok? ==> TryGetChild(r.value, o).None?
    ensures r.Ok? ==> forall j: Offset :: j != o ==> TryGetChild(r.value, j) == TryGetChild(n, j)
    ensures r.Ok? ==> (HasChildren(r.value) <==> exists j: Offset :: j != o && TryGetChild(n, j).Some?)
    ensures r.Ok? ==> r.value.count == n.count && ComponentSums(r.value) == ComponentSums(n)
  {
    match n
    case Simple(_, _) => Err(NotSupported)
    case Full(k, rs, gs, bs, kids) =>
      if |kids| == 0 then Err(InvalidOperation)
      else if o !in kids then Err(ArgumentOutOfRange)
      else
        var rest := kids - {o};
        assert (exists j: Offset :: j != o && TryGetChild(n, j).Some?) ==> |rest| > 0 by {
          if exists j: Offset :: j != o && TryGetChild(n, j).Some? {
            var j: Offset :| j != o && TryGetChild(n, j).Some?;
            assert j in rest;
          }
        }
        assert |rest| > 0 ==> exists j: Offset :: j != o && TryGetChild(n, j).Some? by {
          if |rest| > 0 {
            var j :| j in rest;
            assert TryGetChild(n, j).Some?;
          }
        }
        Ok(Full(k, rs, gs, bs, rest))
  }

  /** Filling an empty slot and removing it again gives the node back. */
  lemma SetThenRemove(n: Node, o: Offset, child: Node)
    requires n.Full? && TryGetChild(n, o).None?
    ensures SetChild(n, o, child).Ok?
    ensures RemoveChild(SetChild(n, o, child).value, o) == Ok(n)
  {
    assert n.children[o := child] - {o} == n.children;
  }

  // ---------------------------------------------------------------- colour of a node

  /**
    The integer nearest to `sum / count`, halves rounded away from zero: the value
    `Math.Round(x, MidpointRounding.AwayFromZero)` gives for the exact quotient.
   */
  function RoundedQuotient(sum: int, count: int): (q: int)
    requires count > 0
    ensures -count <= 2 * (q * count - sum) <= count
    ensures sum >= 0 ==> -count < 2 * (q * count - sum)
    ensures sum < 0 ==> 2 * (q * count - sum) < count
  {
    if sum >= 0 then HalfUp(sum, count); (2 * sum + count) / (2 * count)
    else HalfUp(-sum, count); -((2 * -sum + count) / (2 * count))
  }

  lemma HalfUp(a: int, c: int)
    requires c > 0 && a >= 0
    ensures -c < 2 * ((2 * a + c) / (2 * c) * c - a) <= c
  {
    var d := 2 * c;
    var x := 2 * a + c;
    var q := x / d;
    var m := x % d;
    assert x == q * d + m && 0 <= m < d;
    assert q * d == 2 * (q * c);
    assert 2 * (q * c - a) == c - m;
  }

  /** `a <= b` scales by a non-negative factor. */
  lemma MulLe(a: int, b: int, c: int)
    requires a <= b && c >= 0
    ensures a * c <= b * c
  {
    assert b * c - a * c == (b - a) * c;
  }

  /** A node's colour sums are consistent: they are sums of `count` byte values. */
  predicate Consistent(n: Node) {
    var s := ComponentSums(n);
    n.count >= 0 &&
    0 <= s.r <= 255 * n.count && 0 <= s.g <= 255 * n.count && 0 <= s.b <= 255 * n.count
  }

  /**
    The palette entry of a node with colour information: OctreeNode.Color divides
    the sums by the count and scales to [0, 1]; ColorBgr24.Round scales back by 255,
    rounds halves away from zero and clamps to a byte.
   */
  function NodeColor(n: Node): (c: ColorBgr24)
    requires HasColorInfo(n)
    ensures Consistent(n) ==>
      var s := ComponentSums(n);
      c.r as int == RoundedQuotient(s.r, n.count) &&
      c.g as int == RoundedQuotient(s.g, n.count) &&
      c.b as int == RoundedQuotient(s.b, n.count)
  {
    var s := ComponentSums(n);
    if Consistent(n) then QuotientBounds(s.r, n.count); QuotientBounds(s.g, n.count); QuotientBounds(s.b, n.count);
      ColorBgr24(ClampToByte(RoundedQuotient(s.b, n.count)),
                 ClampToByte(RoundedQuotient(s.g, n.count)),
                 ClampToByte(RoundedQuotient(s.r, n.count)))
    else
      ColorBgr24(ClampToByte(RoundedQuotient(s.b, n.count)),
                 ClampToByte(RoundedQuotient(s.g, n.count)),
                 ClampToByte(RoundedQuotient(s.r, n.count)))
  }

  /** The rounded mean of `count` bytes is itself a byte. */
  lemma QuotientBounds(sum: int, count: int)
    requires count > 0 && 0 <= sum <= 255 * count
    ensures 0 <= RoundedQuotient(sum, count) <= 255
  {
    var q := RoundedQuotient(sum, count);
    if q > 255 {
      MulLe(256, q, count);
    } else if q < 0 {
      MulLe(q, -1, count);
    }
  }

  /** A leaf reports exactly the colour it was created with. */
  lemma LeafColorRoundTrip(color: ColorBgr24, count: int)
    requires count >= 1
    ensures Consistent(Create(color, count).value)
    ensures NodeColor(Create(color, count).value) == color
  {
    ExactQuotient(color.r as int, count);
    ExactQuotient(color.g as int, count);
    ExactQuotient(color.b as int, count);
  }

  lemma ExactQuotient(v: int, count: int)
    requires count > 0 && 0 <= v <= 255
    ensures 0 <= v * count <= 255 * count
    ensures RoundedQuotient(v * count, count) == v
  {
    MulLe(0, v, count);
    MulLe(v, 255, count);
    var q := RoundedQuotient(v * count, count);
    assert q * count - v * count == (q - v) * count;
    SmallMultipleIsZero(q - v, count);
  }

  /** The only multiple of c whose double lies in (-c, c] is zero. */
  lemma SmallMultipleIsZero(d: int, c: int)
    requires c > 0 && -c < 2 * (d * c) <= c
    ensures d == 0
  {
    if d > 0 {
      MulLe(1, d, c);
    } else if d < 0 {
      MulLe(d, -1, c);
    }
  }

  /** Merging colour information keeps the sums consistent. */
  lemma AddNodeInfoConsistent(n: Node, other: Node)
    requires n.Full? && Consistent(n) && Consistent(other)
    ensures Consistent(AddNodeInfo(n, other).value)
  {
  }

  lemma AddColorInfoConsistent(n: Node, color: ColorBgr24, count: int)
    requires n.Full? && Consistent(n) && count >= 0
    ensures Consistent(AddColorInfo(n, color, count).value)
  {
    MulLe(color.r as int, 255, count);
    MulLe(color.g as int, 255, count);
    MulLe(color.b as int, 255, count);
    MulLe(0, color.r as int, count);
    MulLe(0, color.g as int, count);
    MulLe(0, color.b as int, count);
  }
}
