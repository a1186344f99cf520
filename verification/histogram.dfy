/**
  ColorHistogram: counting the colours of a bitmap. A histogram builder is a
  multiset of colours (the number of occurrences of each colour); its Count is
  the number of distinct colours. The row-parallel counting and the pairwise
  merging of the partial builders are modelled sequentially: one partial
  builder per row, then the two merge passes in queue order.
 */
module ColorHistogram {
  import opened Wrappers
  import opened Colors

  /** ColorHistogramBuilder.Count: the number of distinct colours. */
  function Count<U>(builder: multiset<U>): nat {
    |set c | c in builder|
  }

  /** The pixels of a row that pass the predicate, projected by the selector, in row order. */
  function Selected<T, U>(row: seq<T>, pred: T -> bool, sel: T -> U): seq<U> {
    if |row| == 0 then []
    else Selected(row[..|row| - 1], pred, sel) + (if pred(row[|row| - 1]) then [sel(row[|row| - 1])] else [])
  }

  /** The selected pixels of all rows, row after row. */
  function AllSelected<T, U>(rows: seq<seq<T>>, pred: T -> bool, sel: T -> U): seq<U> {
    if |rows| == 0 then []
    else AllSelected(rows[..|rows| - 1], pred, sel) + Selected(rows[|rows| - 1], pred, sel)
  }

  /** The sum of a sequence of partial builders. */
  function Sum<U>(parts: seq<multiset<U>>): multiset<U> {
    if |parts| == 0 then multiset{} else parts[0] + Sum(parts[1..])
  }

  /**
    The per-row loop of Create (lines 126-134): every pixel of the row that
    passes the predicate is added to the builder once, as its selected colour.
   */
  method CountRow<T, U>(builder: multiset<U>, row: seq<T>, pred: T -> bool, sel: T -> U) returns (b: multiset<U>)
    ensures b == builder + multiset(Selected(row, pred, sel))
    ensures |b| <= |builder| + |row|
  {
    b := builder;
    var x := 0;
    while x < |row|
      invariant 0 <= x <= |row|
      invariant b == builder + multiset(Selected(row[..x], pred, sel))
      invariant |Selected(row[..x], pred, sel)| <= x
    {
      var color := row[x];
      assert row[..x + 1][..x] == row[..x];
      if pred(color) {
        b := b + multiset{sel(color)};
      }
      x := x + 1;
    }
    assert row[..x] == row;
  }

  /** A colour is counted exactly when some pixel passes the predicate and projects to it. */
  lemma {:induction false} SelectedMembers<T, U>(row: seq<T>, pred: T -> bool, sel: T -> U, c: U)
    ensures c in Selected(row, pred, sel) <==> exists x :: 0 <= x < |row| && pred(row[x]) && sel(row[x]) == c
  {
    if |row| > 0 {
      var init := row[..|row| - 1];
      SelectedMembers(init, pred, sel, c);
      if exists x :: 0 <= x < |row| && pred(row[x]) && sel(row[x]) == c {
        var x :| 0 <= x < |row| && pred(row[x]) && sel(row[x]) == c;
        if x < |row| - 1 {
          assert init[x] == row[x];
        }
      }
      if c in Selected(init, pred, sel) {
        var x :| 0 <= x < |init| && pred(init[x]) && sel(init[x]) == c;
        assert row[x] == init[x];
      }
    }
  }

  /** Without a filter and with the identity projection every pixel is counted unchanged. */
  lemma {:induction false} SelectedIdentity<T>(row: seq<T>)
    ensures Selected(row, (t: T) => true, (t: T) => t) == row
  {
    if |row| > 0 {
      SelectedIdentity(row[..|row| - 1]);
      assert row[..|row| - 1] + [row[|row| - 1]] == row;
    }
  }

  lemma {:induction false} AllSelectedIdentity<T>(rows: seq<seq<T>>)
    ensures AllSelected(rows, (t: T) => true, (t: T) => t) == Flatten(rows)
  {
    if |rows| > 0 {
      AllSelectedIdentity(rows[..|rows| - 1]);
      SelectedIdentity(rows[|rows| - 1]);
    }
  }

  /** All pixels of the bitmap, row after row. */
  function Flatten<T>(rows: seq<seq<T>>): seq<T> {
    if |rows| == 0 then [] else Flatten(rows[..|rows| - 1]) + rows[|rows| - 1]
  }

  /** The pixel at column x of row y passes the filter and projects to `c`. */
  ghost predicate PassesAt<T, U>(rows: seq<seq<T>>, pred: T -> bool, sel: T -> U, c: U, y: int, x: int) {
    0 <= y < |rows| && 0 <= x < |rows[y]| && pred(rows[y][x]) && sel(rows[y][x]) == c
  }

  /** A colour occurs in the histogram exactly when some pixel of some row passes and projects to it. */
  lemma {:induction false} AllSelectedMembers<T, U>(rows: seq<seq<T>>, pred: T -> bool, sel: T -> U, c: U)
    ensures c in AllSelected(rows, pred, sel) <==> exists y, x :: PassesAt(rows, pred, sel, c, y, x)
  {
    if |rows| > 0 {
      var init := rows[..|rows| - 1];
      var last := rows[|rows| - 1];
      AllSelectedMembers(init, pred, sel, c);
      SelectedMembers(last, pred, sel, c);
      if exists y, x :: PassesAt(rows, pred, sel, c, y, x) {
        var y, x :| PassesAt(rows, pred, sel, c, y, x);
        if y < |rows| - 1 {
          assert PassesAt(init, pred, sel, c, y, x);
        }
      }
      if c in AllSelected(init, pred, sel) {
        var y, x :| PassesAt(init, pred, sel, c, y, x);
        assert PassesAt(rows, pred, sel, c, y, x);
      } else if c in Selected(last, pred, sel) {
        var x :| 0 <= x < |last| && pred(last[x]) && sel(last[x]) == c;
        assert PassesAt(rows, pred, sel, c, |rows| - 1, x);
      }
    }
  }

  /** The histogram of the first y + 1 rows adds row y's selected pixels to that of the first y rows. */
  lemma AllSelectedSnoc<T, U>(rows: seq<seq<T>>, y: nat, pred: T -> bool, sel: T -> U)
    requires y < |rows|
    ensures multiset(AllSelected(rows[..y + 1], pred, sel))
      == multiset(AllSelected(rows[..y], pred, sel)) + multiset(Selected(rows[y], pred, sel))
  {
    assert rows[..y + 1][..y] == rows[..y];
  }

  /** The result of UnionIntoLarger: which argument was merged into, and its new contents. */
  datatype Union<U> = Union(into: nat, merged: multiset<U>)

  /**
    UnionIntoLarger(builder1, builder2): the builder with fewer distinct colours
    is merged into the other, which is returned; on a tie the first one is kept.
   */
  function UnionIntoLarger<U>(builder1: multiset<U>, builder2: multiset<U>): (r: Union<U>)
    ensures r.merged == builder1 + builder2
    ensures r.into == 1 <==> Count(builder1) >= Count(builder2)
    ensures r.into == 1 || r.into == 2
    decreases if Count(builder1) < Count(builder2) then 1 else 0
  {
    if Count(builder1) < Count(builder2) then
      var r := UnionIntoLarger(builder2, builder1);
      Union(3 - r.into, r.merged)
    else
      Union(1, builder1 + builder2)
  }

  /** Merging never loses a colour: the result has at least as many distinct colours as the larger input. */
  lemma UnionKeepsLarger<U>(builder1: multiset<U>, builder2: multiset<U>)
    ensures Count(UnionIntoLarger(builder1, builder2).merged) >= Count(builder1)
    ensures Count(UnionIntoLarger(builder1, builder2).merged) >= Count(builder2)
  {
    var m := builder1 + builder2;
    SubsetCardinality(set c | c in builder1, set c | c in m);
    SubsetCardinality(set c | c in builder2, set c | c in m);
  }

  lemma {:induction false} SubsetCardinality<X>(a: set<X>, b: set<X>)
    requires a <= b
    ensures |a| <= |b|
  {
    if a != {} {
      var x :| x in a;
      SubsetCardinality(a - {x}, b - {x});
    }
  }

  lemma {:induction false} SumSnoc<U>(parts: seq<multiset<U>>, p: multiset<U>)
    ensures Sum(parts + [p]) == Sum(parts) + p
  {
    if |parts| > 0 {
      assert (parts + [p])[1..] == parts[1..] + [p];
      SumSnoc(parts[1..], p);
    } else {
      assert (parts + [p])[1..] == [];
    }
  }

  /**
    The two merge passes of Create (lines 142-185): the pool is dequeued two at
    a time into merge tasks, then the task queue is merged pairwise until one
    task is left, whose result is taken with Single(). With an empty pool there
    is no task and Single() throws.
   */
  method MergePartials<U>(pool: seq<multiset<U>>) returns (r: Result<multiset<U>>)
    ensures |pool| == 0 <==> r.Err?
    ensures r.Err? ==> r.error == InvalidOperation
    ensures r.Ok? ==> r.value == Sum(pool)
  {
    var tasks: seq<multiset<U>> := [];
    var i := 0;
    while i < |pool|
      invariant 0 <= i <= |pool|
      invariant |tasks| == 0 <==> i == 0
      invariant Sum(tasks) + Sum(pool[i..]) == Sum(pool)
    {
      if i + 1 < |pool| {
        var u := UnionIntoLarger(pool[i], pool[i + 1]);
        TakePair(tasks, pool, i, u.merged);
        tasks := tasks + [u.merged];
        i := i + 2;
      } else {
        TakeOne(tasks, pool, i);
        tasks := tasks + [pool[i]];
        i := i + 1;
      }
    }
    assert pool[i..] == [];
    while |tasks| > 1
      invariant |tasks| == 0 <==> |pool| == 0
      invariant Sum(tasks) == Sum(pool)
      decreases |tasks|
    {
      var u := UnionIntoLarger(tasks[0], tasks[1]);
      MergeFront(tasks, u.merged);
      tasks := tasks[2..] + [u.merged];
    }
    if |tasks| == 0 {
      return Err(InvalidOperation);
    }
    assert Sum(tasks) == tasks[0] + Sum(tasks[1..]);
    return Ok(tasks[0]);
  }

  /** Dequeuing a pair of partial builders as one merged task keeps the total. */
  lemma TakePair<U>(tasks: seq<multiset<U>>, pool: seq<multiset<U>>, i: nat, m: multiset<U>)
    requires i + 1 < |pool| && m == pool[i] + pool[i + 1]
    requires Sum(tasks) + Sum(pool[i..]) == Sum(pool)
    ensures Sum(tasks + [m]) + Sum(pool[i + 2..]) == Sum(pool)
  {
    assert Sum(pool[i..]) == pool[i] + Sum(pool[i + 1..]);
    assert Sum(pool[i + 1..]) == pool[i + 1] + Sum(pool[i + 2..]);
    SumSnoc(tasks, m);
  }

  /** Dequeuing the last, unpaired builder as a task of its own keeps the total. */
  lemma TakeOne<U>(tasks: seq<multiset<U>>, pool: seq<multiset<U>>, i: nat)
    requires i < |pool| && Sum(tasks) + Sum(pool[i..]) == Sum(pool)
    ensures Sum(tasks + [pool[i]]) + Sum(pool[i + 1..]) == Sum(pool)
  {
    assert Sum(pool[i..]) == pool[i] + Sum(pool[i + 1..]);
    SumSnoc(tasks, pool[i]);
  }

  /** Replacing the first two tasks by their union at the back of the queue keeps the total. */
  lemma MergeFront<U>(tasks: seq<multiset<U>>, m: multiset<U>)
    requires |tasks| >= 2 && m == tasks[0] + tasks[1]
    ensures Sum(tasks[2..] + [m]) == Sum(tasks)
  {
    assert tasks[1..][1..] == tasks[2..];
    assert Sum(tasks) == tasks[0] + (tasks[1] + Sum(tasks[2..]));
    SumSnoc(tasks[2..], m);
  }

  /**
    The generic Create: one partial builder per row, then the merge passes. A
    bitmap with no rows ends in the InvalidOperationException of Single().
   */
  method CreateWith<T, U>(rows: seq<seq<T>>, pred: T -> bool, sel: T -> U) returns (r: Result<multiset<U>>)
    ensures |rows| == 0 <==> r.Err?
    ensures r.Err? ==> r.error == InvalidOperation
    ensures r.Ok? ==> r.value == multiset(AllSelected(rows, pred, sel))
  {
    var pool: seq<multiset<U>> := [];
    var y := 0;
    while y < |rows|
      invariant 0 <= y <= |rows| && |pool| == y
      invariant Sum(pool) == multiset(AllSelected(rows[..y], pred, sel))
    {
      var partial := CountRow(multiset{}, rows[y], pred, sel);
      SumSnoc(pool, partial);
      AllSelectedSnoc(rows, y, pred, sel);
      pool := pool + [partial];
      y := y + 1;
    }
    assert rows[..y] == rows;
    r := MergePartials(pool);
  }

  /** ColorHistogram.Create: every pixel counted, unfiltered and unchanged. */
  method Create<T>(rows: seq<seq<T>>) returns (r: Result<multiset<T>>)
    ensures |rows| == 0 <==> r.Err?
    ensures r.Ok? ==> r.value == multiset(Flatten(rows))
  {
    r := CreateWith(rows, (t: T) => true, (t: T) => t);
    AllSelectedIdentity(rows);
  }

  /** OnlyOpaqueColorsPredicate: only fully opaque pixels are counted. */
  predicate OnlyOpaque(c: ColorBgra32) {
    c.a == 255
  }

  /** Bgr24FromBgra32Selector: the first three bytes of the pixel, B, G and R. */
  function Bgr24Selector(c: ColorBgra32): (d: ColorBgr24)
    ensures d.b == c.b && d.g == c.g && d.r == c.r
  {
    Bgr24FromBgra32(c)
  }

  /**
    ColorHistogram.CreateOpaque: a colour is in the histogram exactly when some
    pixel with alpha 255 has that colour's B, G and R.
   */
  method CreateOpaque(rows: seq<seq<ColorBgra32>>) returns (r: Result<multiset<ColorBgr24>>)
    ensures |rows| == 0 <==> r.Err?
    ensures r.Err? ==> r.error == InvalidOperation
    ensures r.Ok? ==> r.value == multiset(AllSelected(rows, OnlyOpaque, Bgr24Selector))
    ensures r.Ok? ==> forall c: ColorBgr24 :: c in r.value <==>
      exists y, x :: 0 <= y < |rows| && 0 <= x < |rows[y]| && rows[y][x].a == 255 &&
        rows[y][x].b == c.b && rows[y][x].g == c.g && rows[y][x].r == c.r
  {
    r := CreateWith(rows, OnlyOpaque, Bgr24Selector);
    if r.Ok? {
      forall c: ColorBgr24
        ensures c in r.value <==>
          exists y, x :: 0 <= y < |rows| && 0 <= x < |rows[y]| && rows[y][x].a == 255 &&
            rows[y][x].b == c.b && rows[y][x].g == c.g && rows[y][x].r == c.r
      {
        AllSelectedMembers(rows, OnlyOpaque, Bgr24Selector, c);
        if c in r.value {
          var y, x :| PassesAt(rows, OnlyOpaque, Bgr24Selector, c, y, x);
          assert rows[y][x].a == 255 && rows[y][x].b == c.b && rows[y][x].g == c.g && rows[y][x].r == c.r;
        }
        if exists y, x :: 0 <= y < |rows| && 0 <= x < |rows[y]| && rows[y][x].a == 255 &&
            rows[y][x].b == c.b && rows[y][x].g == c.g && rows[y][x].r == c.r {
          var y, x :| 0 <= y < |rows| && 0 <= x < |rows[y]| && rows[y][x].a == 255 &&
            rows[y][x].b == c.b && rows[y][x].g == c.g && rows[y][x].r == c.r;
          assert PassesAt(rows, OnlyOpaque, Bgr24Selector, c, y, x);
        }
      }
    }
  }
}
