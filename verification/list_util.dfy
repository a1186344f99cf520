/**
  `ListUtil`: the introspective sort, quick sort and binary search used by the
  quantizer. Each in-place routine on `IList<T>` is modelled as a method that
  takes the list as a sequence and returns the rearranged sequence; ranges are
  given as in the source (`lo`, `hi` inclusive). The comparer is an integer key.
 */
module ListUtil {
  import opened Int32Util
  import opened SortSpec
  import ComparableUtil

  /** ListUtil.SwapElements: exchange two positions (nothing happens when i == j). */
  function SwapElements<T>(a: seq<T>, i: int, j: int): (r: seq<T>)
    requires 0 <= i < |a| && 0 <= j < |a|
    ensures |r| == |a| && r[i] == a[j] && r[j] == a[i]
    ensures forall k :: 0 <= k < |a| && k != i && k != j ==> r[k] == a[k]
    ensures i == j ==> r == a
    ensures multiset(r) == multiset(a)
  {
    if i != j then Swap(a, i, j) else a
  }

  /** A swap inside a range permutes that range. */
  lemma SwapElementsPermOn<T>(a: seq<T>, i: int, j: int, lo: int, hi: int)
    requires 0 <= lo <= i < hi <= |a| && lo <= j < hi
    ensures PermOn(a, SwapElements(a, i, j), lo, hi)
  {
    if i != j {
      SwapPermOn(a, i, j, lo, hi);
    }
  }

  /**
    SwapIfGreater (also SwapIfGreaterWithItems, which is the same code): put the
    two elements in key order.
   */
  function SwapIfGreater<T>(keys: seq<T>, key: T -> int, i: int, j: int): (r: seq<T>)
    requires 0 <= i < |keys| && 0 <= j < |keys|
    ensures |r| == |keys| && key(r[i]) <= key(r[j])
    ensures (r[i] == keys[i] && r[j] == keys[j]) || (r[i] == keys[j] && r[j] == keys[i])
    ensures forall k :: 0 <= k < |keys| && k != i && k != j ==> r[k] == keys[k]
    ensures if i <= j then PermOn(keys, r, i, j + 1) else PermOn(keys, r, j, i + 1)
  {
    if i != j && key(keys[i]) > key(keys[j]) then
      if i <= j then
        SwapElementsPermOn(keys, i, j, i, j + 1);
        SwapElements(keys, i, j)
      else
        SwapElementsPermOn(keys, i, j, j, i + 1);
        SwapElements(keys, i, j)
    else
      keys
  }

  /**
    The three SwapIfGreater calls the source makes on positions a <= b <= c
    (the median-of-three pivot choice and the three-element case of the
    introspective sort): afterwards the keys at a, b, c are in order.
   */
  function SortThree<T>(keys: seq<T>, key: T -> int, a: int, b: int, c: int): (r: seq<T>)
    requires 0 <= a <= b <= c < |keys|
    ensures |r| == |keys|
    ensures key(r[a]) <= key(r[b]) <= key(r[c])
    ensures PermOn(keys, r, a, c + 1)
  {
    var r1 := SwapIfGreater(keys, key, a, b);
    var r2 := SwapIfGreater(r1, key, a, c);
    var r3 := SwapIfGreater(r2, key, b, c);
    PermOnWiden(keys, r1, a, b + 1, a, c + 1);
    PermOnTrans(keys, r1, r2, a, c + 1);
    PermOnWiden(r2, r3, b, c + 1, a, c + 1);
    PermOnTrans(keys, r2, r3, a, c + 1);
    r3
  }

  /**
    The state of InsertionSort's inner loop: `v` is the list with x written
    into the hole at index + 1; the elements before the hole are sorted, those
    after it (up to i + 1) are sorted, larger than x and above the ones before.
   */
  ghost predicate InsertState<T>(keys: seq<T>, v: seq<T>, key: T -> int, lo: int, hi: int, i: int, index: int, x: T)
    requires 0 <= lo && lo - 1 <= index <= i < hi < |keys| && |v| == |keys|
  {
    v[index + 1] == x &&
    PermOn(keys, v, lo, hi + 1) &&
    Sorted(v, key, lo, index + 1) && Sorted(v, key, index + 2, i + 2) &&
    Below(v, key, lo, index + 1, index + 2, i + 2) &&
    forall k :: index + 2 <= k < i + 2 ==> key(x) < key(v[k])
  }

  lemma InsertStart<T>(keys: seq<T>, r: seq<T>, key: T -> int, lo: int, hi: int, i: int)
    requires 0 <= lo <= i < hi < |keys| && |r| == |keys|
    requires PermOn(keys, r, lo, hi + 1) && Sorted(r, key, lo, i + 1)
    ensures InsertState(keys, r, key, lo, hi, i, i, r[i + 1])
  {
  }

  /** Shifting the element at index up into the hole moves the hole down by one. */
  lemma InsertShift<T>(keys: seq<T>, v: seq<T>, w: seq<T>, key: T -> int, lo: int, hi: int, i: int, index: int, x: T)
    requires 0 <= lo <= index <= i < hi < |keys| && |v| == |keys|
    requires InsertState(keys, v, key, lo, hi, i, index, x)
    requires key(x) < key(v[index])
    requires w == Swap(v, index + 1, index)
    ensures InsertState(keys, w, key, lo, hi, i, index - 1, x)
  {
    SwapPermOn(v, index + 1, index, lo, hi + 1);
    PermOnTrans(keys, v, w, lo, hi + 1);
    assert w[index] == x && w[index + 1] == v[index];
    forall p, q | index + 1 <= p < q < i + 2
      ensures key(w[p]) <= key(w[q])
    {
      if p == index + 1 {
        assert key(v[index]) <= key(v[q]);
      }
    }
    forall p, q | lo <= p < index && index + 1 <= q < i + 2
      ensures key(w[p]) <= key(w[q])
    {
      assert key(v[p]) <= key(v[index]);
    }
  }

  /** The inner loop of InsertionSort stops with x in place: the range up to i + 1 is sorted. */
  lemma InsertDone<T>(keys: seq<T>, v: seq<T>, key: T -> int, lo: int, hi: int, i: int, index: int, x: T)
    requires 0 <= lo && lo - 1 <= index <= i < hi < |keys| && |v| == |keys|
    requires InsertState(keys, v, key, lo, hi, i, index, x)
    requires index >= lo ==> key(v[index]) <= key(x)
    ensures PermOn(keys, v, lo, hi + 1) && Sorted(v, key, lo, i + 2)
  {
    forall p, q | lo <= p < q < i + 2
      ensures key(v[p]) <= key(v[q])
    {
      if q < index + 1 || p > index + 1 {
      } else if p == index + 1 {
      } else if q == index + 1 {
        assert key(v[p]) <= key(v[index]);
      } else {
      }
    }
  }

  /** InsertionSort: sort keys[lo..hi] (inclusive) by shifting each element right until x fits. */
  method InsertionSort<T>(keys: seq<T>, key: T -> int, lo: int, hi: int) returns (r: seq<T>)
    requires 0 <= lo <= hi < |keys|
    ensures |r| == |keys|
    ensures PermOn(keys, r, lo, hi + 1) && Sorted(r, key, lo, hi + 1)
  {
    r := keys;
    var i := lo;
    while i < hi
      invariant lo <= i <= hi && |r| == |keys|
      invariant PermOn(keys, r, lo, hi + 1) && Sorted(r, key, lo, i + 1)
    {
      var index := i;
      var x := r[i + 1];
      InsertStart(keys, r, key, lo, hi, i);
      // v is the list as it would read with x written into the hole at index + 1
      ghost var v := r;
      while index >= lo && key(x) < key(r[index])
        invariant lo - 1 <= index <= i && |r| == |keys| && |v| == |keys|
        invariant v == r[index + 1 := x]
        invariant InsertState(keys, v, key, lo, hi, i, index, x)
        decreases index
      {
        InsertShift(keys, v, Swap(v, index + 1, index), key, lo, hi, i, index, x);
        HoleMoves(r, x, index + 1, index);
        v := Swap(v, index + 1, index);
        r := r[index + 1 := r[index]];
        index := index - 1;
      }
      InsertDone(keys, v, key, lo, hi, i, index, x);
      r := r[index + 1 := x];
      i := i + 1;
    }
  }

  /** `HeapAt(a, key, lo, n, p)`: 1-based node p of the heap a[lo..lo+n) is at least its children. */
  ghost predicate HeapAt<T>(a: seq<T>, key: T -> int, lo: int, n: int, p: int)
    requires 0 <= lo && 0 <= n && lo + n <= |a|
  {
    1 <= p ==>
      (2 * p <= n ==> key(a[lo + 2 * p - 1]) <= key(a[lo + p - 1])) &&
      (2 * p + 1 <= n ==> key(a[lo + 2 * p]) <= key(a[lo + p - 1]))
  }

  /** Every node from `from` on satisfies the heap property. */
  ghost predicate HeapFrom<T>(a: seq<T>, key: T -> int, lo: int, n: int, from: int)
    requires 0 <= lo && 0 <= n && lo + n <= |a|
  {
    forall p :: from <= p <= n ==> HeapAt(a, key, lo, n, p)
  }

  /**
    The sift-down loop state: `v` is the list with the held element x written
    into the hole at node h. Every node of the subtree walk except the hole is
    a heap node, and the hole's parent dominates the hole's children.
   */
  ghost predicate SiftState<T>(keys: seq<T>, v: seq<T>, key: T -> int, lo: int, n: int, i: int, h: int)
    requires 0 <= lo && 1 <= i <= h <= n && lo + n <= |keys| && |v| == |keys|
  {
    (h != i ==> i <= h / 2) &&
    PermOn(keys, v, lo, lo + n) &&
    (forall p :: i <= p <= n && p != h ==> HeapAt(v, key, lo, n, p)) &&
    (h != i && 2 * h <= n ==> key(v[lo + 2 * h - 1]) <= key(v[lo + h / 2 - 1])) &&
    (h != i && 2 * h + 1 <= n ==> key(v[lo + 2 * h]) <= key(v[lo + h / 2 - 1]))
  }

  /**
    DownHeap: sift the element at node i down the heap keys[lo..lo+n), moving
    the larger child up into the hole until the element is at least both
    children, then write it into the hole.
   */
  method DownHeap<T>(keys: seq<T>, key: T -> int, i: int, n: int, lo: int) returns (r: seq<T>)
    requires 0 <= lo && 1 <= i <= n && lo + n <= |keys|
    requires HeapFrom(keys, key, lo, n, i + 1)
    ensures |r| == |keys|
    ensures PermOn(keys, r, lo, lo + n) && HeapFrom(r, key, lo, n, i)
  {
    r := keys;
    var x := r[lo + i - 1];
    var h := i;
    assert r[lo + h - 1 := x] == keys;
    // the list as it would read with x written into the hole at h is r[lo + h - 1 := x]
    while h <= n / 2
      invariant i <= h <= n && |r| == |keys|
      invariant SiftState(keys, r[lo + h - 1 := x], key, lo, n, i, h)
      decreases n - h
    {
      var num := 2 * h;
      if num < n && key(r[lo + num - 1]) < key(r[lo + num]) {
        num := num + 1;
      }
      if key(x) >= key(r[lo + num - 1]) {
        // the source's `break`
        SiftStop(r, x, key, lo, n, h, num);
        SiftDone(keys, r[lo + h - 1 := x], key, lo, n, i, h);
        return r[lo + h - 1 := x];
      }
      SiftMove(keys, r, x, key, lo, n, i, h, num);
      r := r[lo + h - 1 := r[lo + num - 1]];
      h := num;
    }
    SiftDone(keys, r[lo + h - 1 := x], key, lo, n, i, h);
    r := r[lo + h - 1 := x];
  }

  /** The hole moves to the larger child, which is copied up. */
  lemma SiftMove<T>(keys: seq<T>, r: seq<T>, x: T, key: T -> int, lo: int, n: int, i: int, h: int, num: int)
    requires 0 <= lo && 1 <= i <= h <= n && lo + n <= |keys| && |r| == |keys|
    requires SiftState(keys, r[lo + h - 1 := x], key, lo, n, i, h)
    requires num == 2 * h || num == 2 * h + 1
    requires num <= n
    requires num == 2 * h && 2 * h < n ==> key(r[lo + 2 * h]) <= key(r[lo + 2 * h - 1])
    requires num == 2 * h + 1 ==> key(r[lo + 2 * h - 1]) < key(r[lo + 2 * h])
    requires key(x) < key(r[lo + num - 1])
    ensures SiftState(keys, r[lo + h - 1 := r[lo + num - 1]][lo + num - 1 := x], key, lo, n, i, num)
  {
    var v := r[lo + h - 1 := x];
    assert v[lo + h - 1] == x && v[lo + num - 1] == r[lo + num - 1];
    assert v[lo + 2 * h - 1] == r[lo + 2 * h - 1];
    assert 2 * h < n ==> v[lo + 2 * h] == r[lo + 2 * h];
    HoleMoves(r, x, lo + h - 1, lo + num - 1);
    SiftStep(keys, v, r[lo + h - 1 := r[lo + num - 1]][lo + num - 1 := x], key, lo, n, i, h, num);
  }

  /** The held element is at least the larger child: the hole is a heap node. */
  lemma SiftStop<T>(r: seq<T>, x: T, key: T -> int, lo: int, n: int, h: int, num: int)
    requires 0 <= lo && 1 <= h <= n && lo + n <= |r|
    requires num == 2 * h || num == 2 * h + 1
    requires num <= n
    requires num == 2 * h && 2 * h < n ==> key(r[lo + 2 * h]) <= key(r[lo + 2 * h - 1])
    requires num == 2 * h + 1 ==> key(r[lo + 2 * h - 1]) < key(r[lo + 2 * h])
    requires key(x) >= key(r[lo + num - 1])
    ensures HeapAt(r[lo + h - 1 := x], key, lo, n, h)
  {
  }

  /** Moving the hole: copying the child up and re-reading x at the child is a swap of the virtual list. */
  lemma HoleMoves<T>(r: seq<T>, x: T, a: int, b: int)
    requires 0 <= a < |r| && 0 <= b < |r| && a != b
    ensures Swap(r[a := x], a, b) == r[a := r[b]][b := x]
    ensures Swap(r[a := x], b, a) == r[a := r[b]][b := x]
  {
  }

  /** One sift-down step: swapping the hole with its larger child keeps the loop state. */
  lemma SiftStep<T>(keys: seq<T>, v: seq<T>, w: seq<T>, key: T -> int, lo: int, n: int, i: int, h: int, num: int)
    requires 0 <= lo && 1 <= i <= h <= n && lo + n <= |keys| && |v| == |keys|
    requires SiftState(keys, v, key, lo, n, i, h)
    requires num == 2 * h || num == 2 * h + 1
    requires num <= n
    requires num == 2 * h && 2 * h + 1 <= n ==> key(v[lo + 2 * h]) <= key(v[lo + 2 * h - 1])
    requires num == 2 * h + 1 ==> key(v[lo + 2 * h - 1]) <= key(v[lo + 2 * h])
    requires key(v[lo + h - 1]) < key(v[lo + num - 1])
    requires w == Swap(v, lo + h - 1, lo + num - 1)
    ensures SiftState(keys, w, key, lo, n, i, num)
  {
    SwapPermOn(v, lo + h - 1, lo + num - 1, lo, lo + n);
    PermOnTrans(keys, v, w, lo, lo + n);
    SiftStepHeap(v, w, key, lo, n, i, h, num);
    assert HeapAt(v, key, lo, n, num);
    SiftStepBelow(v, w, key, lo, n, h, num);
  }

  /** The children of the new hole are below the element moved up into the old hole. */
  lemma SiftStepBelow<T>(v: seq<T>, w: seq<T>, key: T -> int, lo: int, n: int, h: int, num: int)
    requires 0 <= lo && 1 <= h && lo + n <= |v|
    requires num == 2 * h || num == 2 * h + 1
    requires num <= n
    requires w == Swap(v, lo + h - 1, lo + num - 1)
    requires HeapAt(v, key, lo, n, num)
    ensures 2 * num <= n ==> key(w[lo + 2 * num - 1]) <= key(w[lo + num / 2 - 1])
    ensures 2 * num + 1 <= n ==> key(w[lo + 2 * num]) <= key(w[lo + num / 2 - 1])
  {
    assert num / 2 == h;
    assert w[lo + num / 2 - 1] == v[lo + num - 1];
    if 2 * num <= n {
      assert w[lo + 2 * num - 1] == v[lo + 2 * num - 1];
    }
    if 2 * num + 1 <= n {
      assert w[lo + 2 * num] == v[lo + 2 * num];
    }
  }

  /** The heap-node part of SiftStep. */
  lemma SiftStepHeap<T>(v: seq<T>, w: seq<T>, key: T -> int, lo: int, n: int, i: int, h: int, num: int)
    requires 0 <= lo && 1 <= i <= h <= n && lo + n <= |v|
    requires h != i ==> i <= h / 2
    requires num == 2 * h || num == 2 * h + 1
    requires num <= n
    requires w == Swap(v, lo + h - 1, lo + num - 1)
    requires num == 2 * h && 2 * h + 1 <= n ==> key(v[lo + 2 * h]) <= key(v[lo + 2 * h - 1])
    requires num == 2 * h + 1 ==> key(v[lo + 2 * h - 1]) <= key(v[lo + 2 * h])
    requires key(v[lo + h - 1]) < key(v[lo + num - 1])
    requires forall p :: i <= p <= n && p != h ==> HeapAt(v, key, lo, n, p)
    requires h != i && 2 * h <= n ==> key(v[lo + 2 * h - 1]) <= key(v[lo + h / 2 - 1])
    requires h != i && 2 * h + 1 <= n ==> key(v[lo + 2 * h]) <= key(v[lo + h / 2 - 1])
    ensures forall p :: i <= p <= n && p != num ==> HeapAt(w, key, lo, n, p)
  {
    forall p | i <= p <= n && p != num
      ensures HeapAt(w, key, lo, n, p)
    {
      if p == h {
      } else if h != i && p == h / 2 {
        assert HeapAt(v, key, lo, n, p);
      } else {
        assert HeapAt(v, key, lo, n, p);
        assert 2 * p != h && 2 * p + 1 != h;
        assert 2 * p != num && 2 * p + 1 != num;
      }
    }
  }

  /** When the hole satisfies the heap property, the whole walk from i on does. */
  lemma SiftDone<T>(keys: seq<T>, v: seq<T>, key: T -> int, lo: int, n: int, i: int, h: int)
    requires 0 <= lo && 1 <= i <= h <= n && lo + n <= |keys| && |v| == |keys|
    requires SiftState(keys, v, key, lo, n, i, h)
    requires 2 * h > n || HeapAt(v, key, lo, n, h)
    ensures PermOn(keys, v, lo, lo + n) && HeapFrom(v, key, lo, n, i)
  {
    forall p | i <= p <= n
      ensures HeapAt(v, key, lo, n, p)
    {
    }
  }

  /** The root of a heap holds a maximal key. */
  lemma HeapRootIsMax<T>(a: seq<T>, key: T -> int, lo: int, n: int)
    requires 0 <= lo && 1 <= n && lo + n <= |a|
    requires HeapFrom(a, key, lo, n, 1)
    ensures AllAtMost(a, key, lo, lo + n, key(a[lo]))
  {
    forall k | lo <= k < lo + n
      ensures key(a[k]) <= key(a[lo])
    {
      HeapNodeBelowRoot(a, key, lo, n, k - lo + 1);
    }
  }

  lemma {:induction false} HeapNodeBelowRoot<T>(a: seq<T>, key: T -> int, lo: int, n: int, k: int)
    requires 0 <= lo && 1 <= k <= n && lo + n <= |a|
    requires HeapFrom(a, key, lo, n, 1)
    ensures key(a[lo + k - 1]) <= key(a[lo])
    decreases k
  {
    if k > 1 {
      assert HeapAt(a, key, lo, n, k / 2);
      HeapNodeBelowRoot(a, key, lo, n, k / 2);
    }
  }

  /** Heapsort: build a max-heap on keys[lo..hi], then move the maximum to the end repeatedly. */
  method Heapsort<T>(keys: seq<T>, key: T -> int, lo: int, hi: int) returns (r: seq<T>)
    requires 0 <= lo <= hi < |keys|
    ensures |r| == |keys|
    ensures PermOn(keys, r, lo, hi + 1) && Sorted(r, key, lo, hi + 1)
  {
    var n := hi - lo + 1;
    r := keys;
    var i := n / 2;
    while i >= 1
      invariant 0 <= i <= n / 2 && |r| == |keys|
      invariant PermOn(keys, r, lo, lo + n)
      invariant HeapFrom(r, key, lo, n, i + 1)
    {
      var r' := DownHeap(r, key, i, n, lo);
      PermOnTrans(keys, r, r', lo, lo + n);
      r := r';
      i := i - 1;
    }
    var j := n;
    while j > 1
      invariant 1 <= j <= n && |r| == |keys|
      invariant HeapsortState(keys, r, key, lo, n, j)
    {
      r := ExtractMax(keys, r, key, lo, n, j);
      j := j - 1;
    }
    SortedConcat(r, key, lo, lo + 1, lo + n);
  }

  /** The extraction phase of Heapsort: a heap of j nodes followed by the sorted largest elements. */
  ghost predicate HeapsortState<T>(keys: seq<T>, r: seq<T>, key: T -> int, lo: int, n: int, j: int)
    requires 0 <= lo && 1 <= j <= n && lo + n <= |keys| && |r| == |keys|
  {
    PermOn(keys, r, lo, lo + n) &&
    HeapFrom(r, key, lo, j, 1) &&
    Sorted(r, key, lo + j, lo + n) &&
    Below(r, key, lo, lo + j, lo + j, lo + n)
  }

  /** One turn of the extraction loop: swap the root to position j, then restore the heap on j - 1 nodes. */
  method ExtractMax<T>(keys: seq<T>, r: seq<T>, key: T -> int, lo: int, n: int, j: int) returns (r': seq<T>)
    requires 0 <= lo && 2 <= j <= n && lo + n <= |keys| && |r| == |keys|
    requires HeapsortState(keys, r, key, lo, n, j)
    ensures |r'| == |keys| && HeapsortState(keys, r', key, lo, n, j - 1)
  {
    var s := SwapElements(r, lo, lo + j - 1);
    ExtractMaxKeepsOrder(keys, r, s, key, lo, n, j);
    r' := DownHeap(s, key, 1, j - 1, lo);
    ExtractMaxRestored(keys, s, r', key, lo, n, j);
  }

  /** The list between the swap and the sift-down of ExtractMax. */
  ghost predicate SwappedState<T>(keys: seq<T>, s: seq<T>, key: T -> int, lo: int, n: int, j: int)
    requires 0 <= lo && 2 <= j <= n && lo + n <= |keys| && |s| == |keys|
  {
    PermOn(keys, s, lo, lo + n) &&
    HeapFrom(s, key, lo, j - 1, 2) &&
    Sorted(s, key, lo + j - 1, lo + n) &&
    Below(s, key, lo, lo + j - 1, lo + j - 1, lo + n)
  }

  lemma ExtractMaxRestored<T>(keys: seq<T>, s: seq<T>, r': seq<T>, key: T -> int, lo: int, n: int, j: int)
    requires 0 <= lo && 2 <= j <= n && lo + n <= |keys| && |s| == |keys| && |r'| == |keys|
    requires SwappedState(keys, s, key, lo, n, j)
    requires PermOn(s, r', lo, lo + j - 1) && HeapFrom(r', key, lo, j - 1, 1)
    ensures HeapsortState(keys, r', key, lo, n, j - 1)
  {
    PermOnWiden(s, r', lo, lo + j - 1, lo, lo + n);
    PermOnTrans(keys, s, r', lo, lo + n);
    PermOnBelow(s, r', key, lo, lo + j - 1, lo, lo + j - 1, lo + j - 1, lo + n);
    PermOnSortedOutside(s, r', key, lo, lo + j - 1, lo + j - 1, lo + n);
  }

  /** After the maximum is swapped to position j, the rest is a heap below the root and the tail is sorted. */
  lemma ExtractMaxKeepsOrder<T>(keys: seq<T>, r: seq<T>, s: seq<T>, key: T -> int, lo: int, n: int, j: int)
    requires 0 <= lo && 2 <= j <= n && lo + n <= |keys| && |r| == |keys|
    requires HeapsortState(keys, r, key, lo, n, j)
    requires s == SwapElements(r, lo, lo + j - 1)
    ensures SwappedState(keys, s, key, lo, n, j)
  {
    HeapRootIsMax(r, key, lo, j);
    SwapElementsPermOn(r, lo, lo + j - 1, lo, lo + n);
    PermOnTrans(keys, r, s, lo, lo + n);
    SwapKeepsHeapBelowRoot(r, s, key, lo, j);
    SwapKeepsTailOrder(r, s, key, lo, n, j);
  }

  lemma SwapKeepsHeapBelowRoot<T>(r: seq<T>, s: seq<T>, key: T -> int, lo: int, j: int)
    requires 0 <= lo && 2 <= j && lo + j <= |r|
    requires HeapFrom(r, key, lo, j, 1)
    requires s == SwapElements(r, lo, lo + j - 1)
    ensures HeapFrom(s, key, lo, j - 1, 2)
  {
    var m := j - 1;
    forall p | 2 <= p <= m
      ensures HeapAt(s, key, lo, m, p)
    {
      assert HeapAt(r, key, lo, j, p);
    }
  }

  lemma SwapKeepsTailOrder<T>(r: seq<T>, s: seq<T>, key: T -> int, lo: int, n: int, j: int)
    requires 0 <= lo && 2 <= j <= n && lo + n <= |r|
    requires AllAtMost(r, key, lo, lo + j, key(r[lo]))
    requires Sorted(r, key, lo + j, lo + n)
    requires Below(r, key, lo, lo + j, lo + j, lo + n)
    requires s == SwapElements(r, lo, lo + j - 1)
    ensures Sorted(s, key, lo + j - 1, lo + n)
    ensures Below(s, key, lo, lo + j - 1, lo + j - 1, lo + n)
  {
    var m := j - 1;
    forall p, q | lo <= p < lo + m && lo + m <= q < lo + n
      ensures key(s[p]) <= key(s[q])
    {
      if q == lo + m {
        if p == lo {
          assert key(s[p]) == key(r[lo + m]);
        }
      } else {
        if p == lo {
          assert s[p] == r[lo + m];
        }
      }
    }
  }

  /**
    PickPivotAndPartition: median-of-three pivot, parked at hi - 1, then a
    Hoare-style scan from both ends; the pivot is swapped into the meeting
    point, which is returned.
   */
  method PickPivotAndPartition<T>(keys: seq<T>, key: T -> int, lo: int, hi: int) returns (r: seq<T>, m: int)
    requires 0 <= lo < hi < |keys|
    ensures |r| == |keys| && lo <= m <= hi
    ensures PermOn(keys, r, lo, hi + 1)
    ensures AllAtMost(r, key, lo, m, key(r[m])) && AllAtLeast(r, key, m + 1, hi + 1, key(r[m]))
  {
    var b := lo + (hi - lo) / 2;
    var r2 := SortThree(keys, key, lo, b, hi);
    var y := key(r2[b]);
    var r3 := SwapElements(r2, b, hi - 1);
    PivotParked(r2, key, lo, b, hi);
    SwapElementsPermOn(r2, b, hi - 1, lo, hi + 1);
    PermOnTrans(keys, r2, r3, lo, hi + 1);
    var r4, i := PartitionScan(r3, key, lo, hi, y);
    PermOnTrans(keys, r3, r4, lo, hi + 1);
    r := SwapElements(r4, i, hi - 1);
    PivotHome(r4, key, lo, hi, i, y);
    SwapElementsPermOn(r4, i, hi - 1, lo, hi + 1);
    PermOnTrans(keys, r4, r, lo, hi + 1);
    m := i;
  }

  /** Parking the median at hi - 1 leaves the scan's sentinels at both ends. */
  lemma PivotParked<T>(r2: seq<T>, key: T -> int, lo: int, b: int, hi: int)
    requires 0 <= lo < hi < |r2| && b == lo + (hi - lo) / 2
    requires key(r2[lo]) <= key(r2[b]) <= key(r2[hi])
    ensures var r3 := SwapElements(r2, b, hi - 1);
      key(r3[lo]) <= key(r2[b]) && key(r3[hi - 1]) == key(r2[b]) && key(r2[b]) <= key(r3[hi])
  {
  }

  /** Swapping the pivot from hi - 1 into the meeting point splits the range around it. */
  lemma PivotHome<T>(r4: seq<T>, key: T -> int, lo: int, hi: int, i: int, y: int)
    requires 0 <= lo <= i <= hi - 1 && hi < |r4| && key(r4[hi - 1]) == y
    requires AllAtMost(r4, key, lo, i, y) && AllAtLeast(r4, key, i, hi + 1, y)
    ensures var r := SwapElements(r4, i, hi - 1);
      key(r[i]) == y && AllAtMost(r, key, lo, i, y) && AllAtLeast(r, key, i + 1, hi + 1, y)
  {
  }

  /**
    The scan loop of PickPivotAndPartition (pivot key y at hi - 1, keys[lo] <= y <= keys[hi]):
    stops at i with everything before i at most y and everything from i on at least y.
   */
  method PartitionScan<T>(keys: seq<T>, key: T -> int, lo: int, hi: int, y: int) returns (r: seq<T>, i: int)
    requires 0 <= lo < hi < |keys|
    requires key(keys[lo]) <= y && key(keys[hi - 1]) == y && y <= key(keys[hi])
    ensures |r| == |keys| && lo <= i <= hi - 1
    ensures PermOn(keys, r, lo, hi + 1) && key(r[hi - 1]) == y
    ensures AllAtMost(r, key, lo, i, y) && AllAtLeast(r, key, i, hi + 1, y)
  {
    r := keys;
    i := lo;
    var j := hi - 1;
    while i < j
      invariant lo <= i <= j <= hi - 1 && |r| == |keys|
      invariant PermOn(keys, r, lo, hi + 1)
      invariant AllAtMost(r, key, lo, i + 1, y) && AllAtLeast(r, key, j, hi + 1, y)
      invariant key(r[hi - 1]) == y
      decreases j - i
    {
      i := ScanUp(r, key, lo, i + 1, j, y);
      j := ScanDown(r, key, hi, j - 1, i - 1, y);
      if i >= j {
        return;
      }
      PartitionExchange(keys, r, key, lo, hi, i, j, y);
      r := SwapElements(r, i, j);
    }
  }

  /**
    The loop state of the introspective sort on keys[lo..hi]: the part after h
    is sorted and holds the largest keys of the range.
   */
  ghost predicate IntroState<T>(keys: seq<T>, r: seq<T>, key: T -> int, lo: int, hi: int, h: int)
    requires 0 <= lo <= h + 1 <= hi + 1 <= |keys| && |r| == |keys|
  {
    PermOn(keys, r, lo, hi + 1) &&
    Sorted(r, key, h + 1, hi + 1) &&
    Below(r, key, lo, h + 1, h + 1, hi + 1)
  }

  /**
    IntrospectiveSort(keys, lo, hi, depthLimit): ranges of up to 16 elements
    are finished by a compare-exchange or insertion sort, an exhausted depth
    limit falls back to heapsort, and otherwise the range is partitioned, the
    right part sorted recursively and the left part handled by the loop.
   */
  method IntrospectiveSortRange<T>(keys: seq<T>, key: T -> int, lo: int, hi: int, depthLimit: nat) returns (r: seq<T>)
    requires 0 <= lo <= hi + 1 <= |keys|
    ensures |r| == |keys|
    ensures PermOn(keys, r, lo, hi + 1) && Sorted(r, key, lo, hi + 1)
    decreases depthLimit
  {
    r := keys;
    var h := hi;
    var d: nat := depthLimit;
    while h > lo
      invariant lo - 1 <= h <= hi && d <= depthLimit && |r| == |keys|
      invariant IntroState(keys, r, key, lo, hi, h)
      decreases h - lo
    {
      var num := h - lo + 1;
      if num <= 16 {
        var r' := SortSmall(r, key, lo, h);
        IntroFinish(keys, r, r', key, lo, hi, h);
        return r';
      }
      if d == 0 {
        var r' := Heapsort(r, key, lo, h);
        IntroFinish(keys, r, r', key, lo, hi, h);
        return r';
      }
      d := d - 1;
      var r1, m := PickPivotAndPartition(r, key, lo, h);
      var r2 := IntrospectiveSortRange(r1, key, m + 1, h, d);
      IntroStep(keys, r, r1, r2, key, lo, hi, h, m);
      r := r2;
      h := m - 1;
    }
    SortedConcat(r, key, lo, h + 1, hi + 1);
  }

  /**
    The small-range cases of IntrospectiveSort: two elements are
    compare-exchanged, three are sorted by three compare-exchanges, and up to
    sixteen by insertion sort.
   */
  method SortSmall<T>(keys: seq<T>, key: T -> int, lo: int, hi: int) returns (r: seq<T>)
    requires 0 <= lo < hi < |keys|
    ensures |r| == |keys|
    ensures PermOn(keys, r, lo, hi + 1) && Sorted(r, key, lo, hi + 1)
  {
    var num := hi - lo + 1;
    if num == 2 {
      r := SwapIfGreater(keys, key, lo, hi);
      SortedFew(r, key, lo, hi);
    } else if num == 3 {
      r := SortThree(keys, key, lo, hi - 1, hi);
      SortedFew(r, key, lo, hi);
    } else {
      r := InsertionSort(keys, key, lo, hi);
    }
  }

  /** Two or three elements whose keys are in order are sorted. */
  lemma SortedFew<T>(r: seq<T>, key: T -> int, lo: int, hi: int)
    requires 0 <= lo < hi < |r| && hi - lo <= 2
    requires key(r[lo]) <= key(r[hi - 1]) <= key(r[hi])
    ensures Sorted(r, key, lo, hi + 1)
  {
  }

  /** Sorting the remaining left part finishes the range. */
  lemma IntroFinish<T>(keys: seq<T>, r: seq<T>, r': seq<T>, key: T -> int, lo: int, hi: int, h: int)
    requires 0 <= lo <= h <= hi < |keys| && |r| == |keys| && |r'| == |keys|
    requires IntroState(keys, r, key, lo, hi, h)
    requires PermOn(r, r', lo, h + 1) && Sorted(r', key, lo, h + 1)
    ensures PermOn(keys, r', lo, hi + 1) && Sorted(r', key, lo, hi + 1)
  {
    PermOnWiden(r, r', lo, h + 1, lo, hi + 1);
    PermOnTrans(keys, r, r', lo, hi + 1);
    PermOnSortedOutside(r, r', key, lo, h + 1, h + 1, hi + 1);
    PermOnBelow(r, r', key, lo, h + 1, lo, h + 1, h + 1, hi + 1);
    SortedConcat(r', key, lo, h + 1, hi + 1);
  }

  /** Partitioning around m and sorting the part right of m extends the sorted suffix down to m. */
  lemma IntroStep<T>(keys: seq<T>, r: seq<T>, r1: seq<T>, r2: seq<T>, key: T -> int, lo: int, hi: int, h: int, m: int)
    requires 0 <= lo <= m <= h <= hi < |keys| && |r| == |keys| && |r1| == |keys| && |r2| == |keys|
    requires IntroState(keys, r, key, lo, hi, h)
    requires PermOn(r, r1, lo, h + 1)
    requires AllAtMost(r1, key, lo, m, key(r1[m])) && AllAtLeast(r1, key, m + 1, h + 1, key(r1[m]))
    requires PermOn(r1, r2, m + 1, h + 1) && Sorted(r2, key, m + 1, h + 1)
    ensures IntroState(keys, r2, key, lo, hi, m - 1)
  {
    var y := key(r1[m]);
    PermOnWiden(r, r1, lo, h + 1, lo, hi + 1);
    PermOnTrans(keys, r, r1, lo, hi + 1);
    PermOnWiden(r1, r2, m + 1, h + 1, lo, hi + 1);
    PermOnTrans(keys, r1, r2, lo, hi + 1);
    // the suffix after h is untouched and still above everything before it
    PermOnSortedOutside(r, r1, key, lo, h + 1, h + 1, hi + 1);
    PermOnSortedOutside(r1, r2, key, m + 1, h + 1, h + 1, hi + 1);
    PermOnBelow(r, r1, key, lo, h + 1, lo, h + 1, h + 1, hi + 1);
    PermOnBelow(r1, r2, key, m + 1, h + 1, lo, h + 1, h + 1, hi + 1);
    // the pivot bounds survive the recursive sort
    PermOnAtMost(r1, r2, key, m + 1, h + 1, lo, m, y);
    PermOnAtLeast(r1, r2, key, m + 1, h + 1, m + 1, h + 1, y);
    assert r2[m] == r1[m];
    IntroStepOrder(r2, key, lo, hi, h, m, y);
  }

  lemma IntroStepOrder<T>(r2: seq<T>, key: T -> int, lo: int, hi: int, h: int, m: int, y: int)
    requires 0 <= lo <= m <= h <= hi < |r2|
    requires key(r2[m]) == y
    requires AllAtMost(r2, key, lo, m, y) && AllAtLeast(r2, key, m + 1, h + 1, y)
    requires Sorted(r2, key, m + 1, h + 1) && Sorted(r2, key, h + 1, hi + 1)
    requires Below(r2, key, lo, h + 1, h + 1, hi + 1)
    ensures Sorted(r2, key, m, hi + 1) && Below(r2, key, lo, m, m, hi + 1)
  {
    assert Below(r2, key, m, m + 1, m + 1, h + 1) by {
      forall p, q | m <= p < m + 1 && m + 1 <= q < h + 1
        ensures key(r2[p]) <= key(r2[q])
      {
        assert p == m;
      }
    }
    SortedConcat(r2, key, m, m + 1, h + 1);
    BelowSub(r2, key, lo, h + 1, h + 1, hi + 1, m, h + 1, h + 1, hi + 1);
    SortedConcat(r2, key, m, h + 1, hi + 1);
    forall p, q | lo <= p < m && m <= q < hi + 1
      ensures key(r2[p]) <= key(r2[q])
    {
      assert key(r2[p]) <= y;
      if q == m {
      } else if q <= h {
        assert y <= key(r2[q]);
      }
    }
  }

  /**
    IntrospectiveSort(keys, startIndex, length): depth limit 2 * Log2Floor(keys.Count),
    which is twice the bit length of the list's length.
   */
  method IntrospectiveSort<T>(keys: seq<T>, key: T -> int, startIndex: int, length: int) returns (r: seq<T>)
    requires 0 <= startIndex && 0 <= length && startIndex + length <= |keys| <= INT32_MAX
    ensures |r| == |keys|
    ensures PermOn(keys, r, startIndex, startIndex + length)
    ensures Sorted(r, key, startIndex, startIndex + length)
  {
    var log := Log2Floor(|keys|);
    r := IntrospectiveSortRange(keys, key, startIndex, startIndex + length - 1, 2 * log);
  }

  /**
    ListUtil.Sort(list, startIndex, length, comparer): a range of length 0 or 1
    is left alone; any other range is sorted in place.
   */
  method Sort<T>(list: seq<T>, key: T -> int, startIndex: int, length: int) returns (r: seq<T>)
    requires 0 <= startIndex && 0 <= length && startIndex + length <= |list| <= INT32_MAX
    ensures |r| == |list|
    ensures PermOn(list, r, startIndex, startIndex + length)
    ensures Sorted(r, key, startIndex, startIndex + length)
    ensures multiset(r) == multiset(list)
    ensures length <= 1 ==> r == list
  {
    if length == 0 || length == 1 {
      return list;
    }
    r := IntrospectiveSort(list, key, startIndex, length);
    PermOnWhole(list, r, startIndex, startIndex + length);
  }

  /** ListUtil.Sort(list, comparer): the whole list. */
  method SortAll<T>(list: seq<T>, key: T -> int) returns (r: seq<T>)
    requires |list| <= INT32_MAX
    ensures |r| == |list| && multiset(r) == multiset(list)
    ensures Sorted(r, key, 0, |r|)
  {
    r := Sort(list, key, 0, |list|);
  }

  /**
    The partition loop of QuickSortImpl (lines 348-383): median of three at
    left, mid, right, then the two scans around the pivot key y with exchanges,
    until the cursors cross. Everything before lo is at most y and everything
    after hi at least y.
   */
  method QuickSortPartition<T>(keys: seq<T>, key: T -> int, left: int, right: int) returns (r: seq<T>, lo: int, hi: int, y: int)
    requires 0 <= left < right < |keys|
    ensures |r| == |keys| && PermOn(keys, r, left, right + 1)
    ensures left < lo <= right + 1 && left - 1 <= hi < right && hi < lo
    ensures AllAtMost(r, key, left, lo, y) && AllAtLeast(r, key, hi + 1, right + 1, y)
  {
    lo := left;
    hi := right;
    var mid := lo + (hi - lo) / 2;
    r := SortThree(keys, key, lo, mid, hi);
    y := key(r[mid]);
    ghost var sl, sh := mid, mid;  // positions that stop the two scans
    while true
      invariant |r| == |keys| && PermOn(keys, r, left, right + 1)
      invariant left <= lo <= sl <= right && left <= sh <= hi <= right && lo <= hi
      invariant y <= key(r[sl]) && key(r[sh]) <= y
      invariant AllAtMost(r, key, left, lo, y) && AllAtLeast(r, key, hi + 1, right + 1, y)
      decreases hi - lo
    {
      r, lo, hi, sl, sh := PartitionRound(keys, r, key, left, right, lo, hi, y, sl, sh);
      if lo > hi {
        break;
      }
    }
  }

  /**
    One turn of the partition loop: both scans, then an exchange when the
    cursors have not crossed and a step of both cursors past the exchanged
    pair. The sentinels sl and sh are elements the scans cannot pass.
   */
  method PartitionRound<T>(keys: seq<T>, r0: seq<T>, key: T -> int, left: int, right: int, lo0: int, hi0: int, y: int,
                           ghost sl0: int, ghost sh0: int)
      returns (r: seq<T>, lo: int, hi: int, ghost sl: int, ghost sh: int)
    requires 0 <= left <= lo0 <= sl0 <= right < |keys| && left <= sh0 <= hi0 <= right && |r0| == |keys|
    requires lo0 <= hi0
    requires PermOn(keys, r0, left, right + 1)
    requires y <= key(r0[sl0]) && key(r0[sh0]) <= y
    requires AllAtMost(r0, key, left, lo0, y) && AllAtLeast(r0, key, hi0 + 1, right + 1, y)
    ensures |r| == |keys| && PermOn(keys, r, left, right + 1)
    ensures left < lo <= right + 1 && left - 1 <= hi < right && hi - lo < hi0 - lo0
    ensures AllAtMost(r, key, left, lo, y) && AllAtLeast(r, key, hi + 1, right + 1, y)
    ensures lo <= hi ==> left <= lo <= sl <= right && left <= sh <= hi <= right
    ensures lo <= hi ==> y <= key(r[sl]) && key(r[sh]) <= y
  {
    r, sl, sh := r0, sl0, sh0;
    lo := ScanUp(r, key, left, lo0, sl, y);
    hi := ScanDown(r, key, right, hi0, sh, y);
    if lo > hi {
      return;
    }
    if lo < hi {
      PartitionExchange(keys, r, key, left, right, lo, hi, y);
      r := SwapElements(r, lo, hi);
      sl, sh := hi, lo;
    }
    lo := lo + 1;
    hi := hi - 1;
  }

  /** `while (comparer.Compare(keys[lo], y) < 0) lo++;` stops at the latest at the sentinel sl. */
  method ScanUp<T>(r: seq<T>, key: T -> int, left: int, lo0: int, ghost sl: int, y: int) returns (lo: int)
    requires 0 <= left <= lo0 <= sl < |r| && y <= key(r[sl])
    requires AllAtMost(r, key, left, lo0, y)
    ensures lo0 <= lo <= sl && y <= key(r[lo])
    ensures AllAtMost(r, key, left, lo, y)
  {
    lo := lo0;
    while key(r[lo]) < y
      invariant lo0 <= lo <= sl && AllAtMost(r, key, left, lo, y)
      decreases sl - lo
    {
      lo := lo + 1;
    }
  }

  /** `while (comparer.Compare(y, keys[hi]) < 0) hi--;` stops at the latest at the sentinel sh. */
  method ScanDown<T>(r: seq<T>, key: T -> int, right: int, hi0: int, ghost sh: int, y: int) returns (hi: int)
    requires 0 <= sh <= hi0 <= right < |r| && key(r[sh]) <= y
    requires AllAtLeast(r, key, hi0 + 1, right + 1, y)
    ensures sh <= hi <= hi0 && key(r[hi]) <= y
    ensures AllAtLeast(r, key, hi + 1, right + 1, y)
  {
    hi := hi0;
    while y < key(r[hi])
      invariant sh <= hi <= hi0 && AllAtLeast(r, key, hi + 1, right + 1, y)
      decreases hi - sh
    {
      hi := hi - 1;
    }
  }

  /** Exchanging the two stopped elements lets both scans move past them. */
  lemma PartitionExchange<T>(keys: seq<T>, r: seq<T>, key: T -> int, left: int, right: int, lo: int, hi: int, y: int)
    requires 0 <= left <= lo < hi <= right < |r| == |keys|
    requires PermOn(keys, r, left, right + 1)
    requires AllAtMost(r, key, left, lo, y) && AllAtLeast(r, key, hi + 1, right + 1, y)
    requires y <= key(r[lo]) && key(r[hi]) <= y
    ensures PermOn(keys, SwapElements(r, lo, hi), left, right + 1)
    ensures AllAtMost(SwapElements(r, lo, hi), key, left, lo + 1, y)
    ensures AllAtLeast(SwapElements(r, lo, hi), key, hi, right + 1, y)
    ensures y <= key(SwapElements(r, lo, hi)[hi]) && key(SwapElements(r, lo, hi)[lo]) <= y
  {
    SwapElementsPermOn(r, lo, hi, left, right + 1);
    PermOnTrans(keys, r, SwapElements(r, lo, hi), left, right + 1);
  }

  /** The loop state of QuickSortImpl on keys[left..right]: a sorted prefix before L and a sorted suffix after R. */
  ghost predicate QuickState<T>(keys: seq<T>, r: seq<T>, key: T -> int, left: int, right: int, L: int, R: int)
    requires 0 <= left <= L <= R + 1 <= right + 1 <= |keys| && |r| == |keys|
  {
    PermOn(keys, r, left, right + 1) &&
    Sorted(r, key, left, L) && Sorted(r, key, R + 1, right + 1) &&
    Below(r, key, left, L, L, right + 1) &&
    Below(r, key, left, R + 1, R + 1, right + 1)
  }

  /**
    QuickSortImpl(keys, left, right): partition, recurse into the smaller
    side, and loop on the larger one.
   */
  method QuickSortImpl<T>(keys: seq<T>, key: T -> int, left: int, right: int) returns (r: seq<T>)
    requires 0 <= left < right < |keys|
    ensures |r| == |keys|
    ensures PermOn(keys, r, left, right + 1) && Sorted(r, key, left, right + 1)
    decreases right - left
  {
    r := keys;
    var L, R := left, right;
    while L < R
      invariant left <= L <= R + 1 <= right + 1 && |r| == |keys|
      invariant QuickState(keys, r, key, left, right, L, R)
      decreases R - L
    {
      var r1, lo, hi, y := QuickSortPartition(r, key, L, R);
      if hi - L <= R - lo {
        var r2 := r1;
        if L < hi {
          r2 := QuickSortImpl(r1, key, L, hi);
        }
        QuickStepLeft(keys, r, r1, r2, key, left, right, L, R, lo, hi, y);
        r := r2;
        L := lo;
      } else {
        var r2 := r1;
        if lo < R {
          r2 := QuickSortImpl(r1, key, lo, R);
        }
        QuickStepRight(keys, r, r1, r2, key, left, right, L, R, lo, hi, y);
        r := r2;
        R := hi;
      }
    }
    QuickEnd(keys, r, key, left, right, L, R);
  }

  lemma QuickEnd<T>(keys: seq<T>, r: seq<T>, key: T -> int, left: int, right: int, L: int, R: int)
    requires 0 <= left <= L <= R + 1 <= right + 1 <= |keys| && |r| == |keys| && R <= L
    requires QuickState(keys, r, key, left, right, L, R)
    ensures Sorted(r, key, left, right + 1)
  {
    if L == R {
      BelowSub(r, key, left, L, L, right + 1, left, L, L, L + 1);
      SortedConcat(r, key, left, L, L + 1);
      SortedConcat(r, key, left, L + 1, right + 1);
    } else {
      SortedConcat(r, key, left, L, right + 1);
    }
  }

  /** The middle band between the crossed cursors holds keys equal to the pivot. */
  lemma QuickBand<T>(r: seq<T>, key: T -> int, L: int, R: int, lo: int, hi: int, y: int)
    requires 0 <= L <= hi + 1 <= lo <= R + 1 <= |r|
    requires AllAtMost(r, key, L, lo, y) && AllAtLeast(r, key, hi + 1, R + 1, y)
    ensures Sorted(r, key, hi + 1, lo)
    ensures AllAtMost(r, key, hi + 1, lo, y) && AllAtLeast(r, key, hi + 1, lo, y)
  {
  }

  /** Sorting the left side [L, hi] and moving L to lo keeps the loop state. */
  lemma QuickStepLeft<T>(keys: seq<T>, r: seq<T>, r1: seq<T>, r2: seq<T>, key: T -> int,
                         left: int, right: int, L: int, R: int, lo: int, hi: int, y: int)
    requires 0 <= left <= L < R <= right < |keys| && |r| == |keys| && |r1| == |keys| && |r2| == |keys|
    requires QuickState(keys, r, key, left, right, L, R)
    requires PermOn(r, r1, L, R + 1)
    requires L < lo <= R + 1 && L - 1 <= hi < R && hi < lo
    requires AllAtMost(r1, key, L, lo, y) && AllAtLeast(r1, key, hi + 1, R + 1, y)
    requires L <= hi + 1
    requires PermOn(r1, r2, L, hi + 1) && Sorted(r2, key, L, hi + 1)
    ensures QuickState(keys, r2, key, left, right, lo, R)
  {
    PermOnWiden(r, r1, L, R + 1, left, right + 1);
    PermOnTrans(keys, r, r1, left, right + 1);
    PermOnWiden(r1, r2, L, hi + 1, left, right + 1);
    PermOnTrans(keys, r1, r2, left, right + 1);
    // the finished prefix and suffix are untouched
    PermOnSortedOutside(r, r1, key, L, R + 1, left, L);
    PermOnSortedOutside(r1, r2, key, L, hi + 1, left, L);
    PermOnSortedOutside(r, r1, key, L, R + 1, R + 1, right + 1);
    PermOnSortedOutside(r1, r2, key, L, hi + 1, R + 1, right + 1);
    PermOnBelow(r, r1, key, L, R + 1, left, L, L, right + 1);
    PermOnBelow(r1, r2, key, L, hi + 1, left, L, L, right + 1);
    PermOnBelow(r, r1, key, L, R + 1, left, R + 1, R + 1, right + 1);
    PermOnBelow(r1, r2, key, L, hi + 1, left, R + 1, R + 1, right + 1);
    // the pivot bounds survive the recursive sort
    PermOnAtMost(r1, r2, key, L, hi + 1, L, lo, y);
    PermOnAtLeast(r1, r2, key, L, hi + 1, hi + 1, R + 1, y);
    QuickBand(r2, key, L, R, lo, hi, y);
    QuickStepLeftOrder(r2, key, left, right, L, R, lo, hi, y);
  }

  lemma QuickStepLeftOrder<T>(r2: seq<T>, key: T -> int, left: int, right: int, L: int, R: int, lo: int, hi: int, y: int)
    requires 0 <= left <= L <= hi + 1 <= lo <= R + 1 <= right + 1 <= |r2|
    requires Sorted(r2, key, left, L) && Sorted(r2, key, L, hi + 1) && Sorted(r2, key, hi + 1, lo)
    requires Below(r2, key, left, L, L, right + 1) && Below(r2, key, left, R + 1, R + 1, right + 1)
    requires AllAtMost(r2, key, L, lo, y) && AllAtLeast(r2, key, hi + 1, R + 1, y)
    ensures Sorted(r2, key, left, lo) && Below(r2, key, left, lo, lo, right + 1)
  {
    SortedConcat(r2, key, L, hi + 1, lo);
    BelowSub(r2, key, left, L, L, right + 1, left, L, L, lo);
    SortedConcat(r2, key, left, L, lo);
    forall p, q | left <= p < lo && lo <= q < right + 1
      ensures key(r2[p]) <= key(r2[q])
    {
      if p < L {
      } else if q <= R {
        assert key(r2[p]) <= y;
      } else {
      }
    }
  }

  /** Sorting the right side [lo, R] and moving R to hi keeps the loop state. */
  lemma QuickStepRight<T>(keys: seq<T>, r: seq<T>, r1: seq<T>, r2: seq<T>, key: T -> int,
                          left: int, right: int, L: int, R: int, lo: int, hi: int, y: int)
    requires 0 <= left <= L < R <= right < |keys| && |r| == |keys| && |r1| == |keys| && |r2| == |keys|
    requires QuickState(keys, r, key, left, right, L, R)
    requires PermOn(r, r1, L, R + 1)
    requires L < lo <= R + 1 && L - 1 <= hi < R && hi < lo
    requires AllAtMost(r1, key, L, lo, y) && AllAtLeast(r1, key, hi + 1, R + 1, y)
    requires lo <= R + 1
    requires PermOn(r1, r2, lo, R + 1) && Sorted(r2, key, lo, R + 1)
    ensures QuickState(keys, r2, key, left, right, L, hi)
  {
    PermOnWiden(r, r1, L, R + 1, left, right + 1);
    PermOnTrans(keys, r, r1, left, right + 1);
    PermOnWiden(r1, r2, lo, R + 1, left, right + 1);
    PermOnTrans(keys, r1, r2, left, right + 1);
    PermOnSortedOutside(r, r1, key, L, R + 1, left, L);
    PermOnSortedOutside(r1, r2, key, lo, R + 1, left, L);
    PermOnSortedOutside(r, r1, key, L, R + 1, R + 1, right + 1);
    PermOnSortedOutside(r1, r2, key, lo, R + 1, R + 1, right + 1);
    PermOnBelow(r, r1, key, L, R + 1, left, L, L, right + 1);
    PermOnBelow(r1, r2, key, lo, R + 1, left, L, L, right + 1);
    PermOnBelow(r, r1, key, L, R + 1, left, R + 1, R + 1, right + 1);
    PermOnBelow(r1, r2, key, lo, R + 1, left, R + 1, R + 1, right + 1);
    PermOnAtMost(r1, r2, key, lo, R + 1, L, lo, y);
    PermOnAtLeast(r1, r2, key, lo, R + 1, hi + 1, R + 1, y);
    QuickBand(r2, key, L, R, lo, hi, y);
    QuickStepRightOrder(r2, key, left, right, L, R, lo, hi, y);
  }

  lemma QuickStepRightOrder<T>(r2: seq<T>, key: T -> int, left: int, right: int, L: int, R: int, lo: int, hi: int, y: int)
    requires 0 <= left <= L <= hi + 1 <= lo <= R + 1 <= right + 1 <= |r2|
    requires Sorted(r2, key, hi + 1, lo) && Sorted(r2, key, lo, R + 1) && Sorted(r2, key, R + 1, right + 1)
    requires Below(r2, key, left, L, L, right + 1) && Below(r2, key, left, R + 1, R + 1, right + 1)
    requires AllAtMost(r2, key, L, lo, y) && AllAtLeast(r2, key, hi + 1, R + 1, y)
    ensures Sorted(r2, key, hi + 1, right + 1) && Below(r2, key, left, hi + 1, hi + 1, right + 1)
  {
    forall p, q | hi + 1 <= p < lo && lo <= q < R + 1
      ensures key(r2[p]) <= key(r2[q])
    {
      assert key(r2[p]) <= y;
    }
    SortedConcat(r2, key, hi + 1, lo, R + 1);
    BelowSub(r2, key, left, R + 1, R + 1, right + 1, hi + 1, R + 1, R + 1, right + 1);
    SortedConcat(r2, key, hi + 1, R + 1, right + 1);
    forall p, q | left <= p < hi + 1 && hi + 1 <= q < right + 1
      ensures key(r2[p]) <= key(r2[q])
    {
      if p < L {
      } else if q <= R {
        assert key(r2[p]) <= y;
      } else {
      }
    }
  }

  /** ListUtil.QuickSort(list, startIndex, length, comparer): ranges of length 0 or 1 are left alone. */
  method QuickSort<T>(list: seq<T>, key: T -> int, startIndex: int, length: int) returns (r: seq<T>)
    requires 0 <= startIndex && 0 <= length && startIndex + length <= |list|
    ensures |r| == |list|
    ensures PermOn(list, r, startIndex, startIndex + length)
    ensures Sorted(r, key, startIndex, startIndex + length)
    ensures length <= 1 ==> r == list
  {
    if length == 0 || length == 1 {
      return list;
    }
    r := QuickSortImpl(list, key, startIndex, startIndex + length - 1);
  }

  /**
    InternalBinarySearch(list, lowIndex, length, value): the index of an
    element whose key equals value's, or the bitwise complement ~lo = -lo - 1
    of the position where value would be inserted. The answer is meaningful
    when the range is sorted.
   */
  method InternalBinarySearch<T>(list: seq<T>, key: T -> int, lowIndex: int, length: int, value: T) returns (r: int)
    requires 0 <= lowIndex && 0 <= length && lowIndex + length <= |list|
    ensures r >= 0 ==> lowIndex <= r < lowIndex + length && key(list[r]) == key(value)
    ensures r < 0 ==> lowIndex <= -r - 1 <= lowIndex + length
    ensures r < 0 && Sorted(list, key, lowIndex, lowIndex + length) ==>
      (forall k :: lowIndex <= k < -r - 1 ==> key(list[k]) < key(value)) &&
      (forall k :: -r - 1 <= k < lowIndex + length ==> key(value) < key(list[k]))
  {
    var lo := lowIndex;
    var hi := lowIndex + length - 1;
    while lo <= hi
      invariant lowIndex <= lo <= hi + 1 <= lowIndex + length
      invariant Sorted(list, key, lowIndex, lowIndex + length) ==>
        forall k :: lowIndex <= k < lo ==> key(list[k]) < key(value)
      invariant Sorted(list, key, lowIndex, lowIndex + length) ==>
        forall k :: hi < k < lowIndex + length ==> key(value) < key(list[k])
      decreases hi - lo
    {
      var mid := lo + (hi - lo) / 2;
      var comp := ComparableUtil.CompareInt(key(list[mid]), key(value));
      if comp == 0 {
        return mid;
      }
      if comp < 0 {
        lo := mid + 1;
      } else {
        hi := mid - 1;
      }
    }
    return -lo - 1;
  }

  /** On a sorted range the search fails exactly when no element has the value's key. */
  lemma BinarySearchFindsPresentKeys<T>(list: seq<T>, key: T -> int, lowIndex: int, length: int, value: T, r: int)
    requires 0 <= lowIndex && 0 <= length && lowIndex + length <= |list|
    requires Sorted(list, key, lowIndex, lowIndex + length)
    requires r >= 0 ==> lowIndex <= r < lowIndex + length && key(list[r]) == key(value)
    requires r < 0 ==> lowIndex <= -r - 1 <= lowIndex + length
    requires r < 0 ==>
      (forall k :: lowIndex <= k < -r - 1 ==> key(list[k]) < key(value)) &&
      (forall k :: -r - 1 <= k < lowIndex + length ==> key(value) < key(list[k]))
    ensures r < 0 <==> forall k :: lowIndex <= k < lowIndex + length ==> key(list[k]) != key(value)
  {
    if r < 0 {
      forall k | lowIndex <= k < lowIndex + length
        ensures key(list[k]) != key(value)
      {
        if k < -r - 1 {
        } else {
        }
      }
    }
  }
}
