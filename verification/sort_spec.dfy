/**
  Specification vocabulary for the in-place list algorithms of `ListUtil`.

  A C# `IComparer<T>` is modelled by an integer key: `Compare(a, b)` has the
  sign of `key(a) - key(b)`. This covers the comparers the quantizer passes
  (distances of palette indices from a bucket centre, node pixel counts).
  An in-place algorithm on `keys[lo..hi)` is modelled as a function from the
  old list to the new one; `PermOn` says that only the range was permuted.
 */
module SortSpec {

  /** `s[lo..hi)` is in non-decreasing key order. */
  ghost predicate Sorted<T>(s: seq<T>, key: T -> int, lo: int, hi: int)
    requires 0 <= lo <= hi <= |s|
  {
    forall i, j :: lo <= i < j < hi ==> key(s[i]) <= key(s[j])
  }

  /** Every key in `s[lo..hi)` is at most `v`. */
  ghost predicate AllAtMost<T>(s: seq<T>, key: T -> int, lo: int, hi: int, v: int)
    requires 0 <= lo <= hi <= |s|
  {
    forall k :: lo <= k < hi ==> key(s[k]) <= v
  }

  /** Every key in `s[lo..hi)` is at least `v`. */
  ghost predicate AllAtLeast<T>(s: seq<T>, key: T -> int, lo: int, hi: int, v: int)
    requires 0 <= lo <= hi <= |s|
  {
    forall k :: lo <= k < hi ==> v <= key(s[k])
  }

  /** Every key in `s[l1..h1)` is at most every key in `s[l2..h2)`. */
  ghost predicate Below<T>(s: seq<T>, key: T -> int, l1: int, h1: int, l2: int, h2: int)
    requires 0 <= l1 <= h1 <= |s| && 0 <= l2 <= h2 <= |s|
  {
    forall p, q :: l1 <= p < h1 && l2 <= q < h2 ==> key(s[p]) <= key(s[q])
  }

  /** `a` and `b` agree everywhere except possibly on `[lo, hi)`. */
  ghost predicate SameOutside<T>(a: seq<T>, b: seq<T>, lo: int, hi: int) {
    |a| == |b| && forall k :: 0 <= k < |a| && !(lo <= k < hi) ==> a[k] == b[k]
  }

  /** `b` is `a` with the range `[lo, hi)` permuted and nothing else touched. */
  ghost predicate PermOn<T>(a: seq<T>, b: seq<T>, lo: int, hi: int)
    requires 0 <= lo <= hi <= |a|
  {
    SameOutside(a, b, lo, hi) && multiset(a) == multiset(b)
  }

  /** Every element of `b[lo..hi)` occurs in `a[lo..hi)`. */
  ghost predicate DrawnFrom<T>(a: seq<T>, b: seq<T>, lo: int, hi: int)
    requires 0 <= lo <= hi <= |a| && |a| == |b|
  {
    forall k :: lo <= k < hi ==> b[k] in multiset(a[lo..hi])
  }

  function Swap<T>(s: seq<T>, i: int, j: int): seq<T>
    requires 0 <= i < |s| && 0 <= j < |s|
  {
    s[i := s[j]][j := s[i]]
  }

  lemma PermOnRefl<T>(a: seq<T>, lo: int, hi: int)
    requires 0 <= lo <= hi <= |a|
    ensures PermOn(a, a, lo, hi)
  {
  }

  lemma PermOnTrans<T>(a: seq<T>, b: seq<T>, c: seq<T>, lo: int, hi: int)
    requires 0 <= lo <= hi <= |a|
    requires PermOn(a, b, lo, hi) && PermOn(b, c, lo, hi)
    ensures PermOn(a, c, lo, hi)
  {
  }

  /** A permutation of a sub-range is a permutation of any range around it. */
  lemma PermOnWiden<T>(a: seq<T>, b: seq<T>, lo: int, hi: int, lo': int, hi': int)
    requires 0 <= lo' <= lo <= hi <= hi' <= |a|
    requires PermOn(a, b, lo, hi)
    ensures PermOn(a, b, lo', hi')
  {
  }

  /** A permutation of a range permutes the whole list. */
  lemma PermOnWhole<T>(a: seq<T>, b: seq<T>, lo: int, hi: int)
    requires 0 <= lo <= hi <= |a|
    requires PermOn(a, b, lo, hi)
    ensures multiset(a) == multiset(b)
  {
  }

  /** Composition of a permutation of a range with one of a sub-range. */
  lemma PermOnCompose<T>(a: seq<T>, b: seq<T>, c: seq<T>, lo: int, hi: int, lo': int, hi': int)
    requires 0 <= lo <= lo' <= hi' <= hi <= |a|
    requires PermOn(a, b, lo, hi) && PermOn(b, c, lo', hi')
    ensures PermOn(a, c, lo, hi)
  {
    PermOnWiden(b, c, lo', hi', lo, hi);
  }

  lemma SwapPermOn<T>(s: seq<T>, i: int, j: int, lo: int, hi: int)
    requires 0 <= lo <= i < hi <= |s| && lo <= j < hi
    ensures PermOn(s, Swap(s, i, j), lo, hi)
  {
  }

  /** The permuted range holds the same elements as before. */
  lemma PermOnSlice<T>(a: seq<T>, b: seq<T>, lo: int, hi: int)
    requires 0 <= lo <= hi <= |a|
    requires PermOn(a, b, lo, hi)
    ensures multiset(a[lo..hi]) == multiset(b[lo..hi])
  {
    MultisetSplit(a, lo, hi);
    MultisetSplit(b, lo, hi);
    assert a[..lo] == b[..lo];
    assert a[hi..] == b[hi..];
    var p, s := multiset(a[..lo]), multiset(a[hi..]);
    var x, y := multiset(a[lo..hi]), multiset(b[lo..hi]);
    forall e
      ensures x[e] == y[e]
    {
      assert (p + x + s)[e] == (p + y + s)[e];
    }
  }

  /** A list's multiset is the sum of the multisets of its three parts. */
  lemma MultisetSplit<T>(a: seq<T>, lo: int, hi: int)
    requires 0 <= lo <= hi <= |a|
    ensures multiset(a) == multiset(a[..lo]) + multiset(a[lo..hi]) + multiset(a[hi..])
  {
    assert a == a[..lo] + a[lo..hi] + a[hi..];
  }

  lemma PermOnDrawnFrom<T>(a: seq<T>, b: seq<T>, lo: int, hi: int)
    requires 0 <= lo <= hi <= |a|
    requires PermOn(a, b, lo, hi)
    ensures DrawnFrom(a, b, lo, hi)
  {
    PermOnSlice(a, b, lo, hi);
    forall k | lo <= k < hi
      ensures b[k] in multiset(a[lo..hi])
    {
      assert b[lo..hi][k - lo] == b[k];
    }
  }

  /** A range containing the permuted one, or disjoint from it, draws from the old list. */
  lemma PermOnDrawnFromAround<T>(a: seq<T>, b: seq<T>, lo: int, hi: int, l: int, h: int)
    requires 0 <= lo <= hi <= |a| && 0 <= l <= h <= |a|
    requires PermOn(a, b, lo, hi)
    requires (l <= lo && hi <= h) || h <= lo || hi <= l
    ensures DrawnFrom(a, b, l, h)
  {
    PermOnDrawnFrom(a, b, lo, hi);
    forall k | l <= k < h
      ensures b[k] in multiset(a[l..h])
    {
      if lo <= k < hi {
        assert b[k] in multiset(a[lo..hi]);
        assert b[k] in a[lo..hi];
        var i :| 0 <= i < hi - lo && a[lo..hi][i] == b[k];
        assert a[l..h][lo + i - l] == b[k];
      } else {
        assert a[l..h][k - l] == b[k];
      }
    }
  }

  /** The element at position k of `b[lo..hi)` is one of `a`'s in that range. */
  lemma DrawnFromWitness<T>(a: seq<T>, b: seq<T>, lo: int, hi: int, k: int) returns (k': int)
    requires 0 <= lo <= hi <= |a| && |a| == |b|
    requires DrawnFrom(a, b, lo, hi) && lo <= k < hi
    ensures lo <= k' < hi && b[k] == a[k']
  {
    assert b[k] in a[lo..hi];
    var i :| 0 <= i < hi - lo && a[lo..hi][i] == b[k];
    k' := lo + i;
  }

  lemma DrawnFromAtMost<T>(a: seq<T>, b: seq<T>, key: T -> int, lo: int, hi: int, v: int)
    requires 0 <= lo <= hi <= |a| && |a| == |b|
    requires DrawnFrom(a, b, lo, hi) && AllAtMost(a, key, lo, hi, v)
    ensures AllAtMost(b, key, lo, hi, v)
  {
    forall k | lo <= k < hi
      ensures key(b[k]) <= v
    {
      var k' := DrawnFromWitness(a, b, lo, hi, k);
    }
  }

  lemma DrawnFromAtLeast<T>(a: seq<T>, b: seq<T>, key: T -> int, lo: int, hi: int, v: int)
    requires 0 <= lo <= hi <= |a| && |a| == |b|
    requires DrawnFrom(a, b, lo, hi) && AllAtLeast(a, key, lo, hi, v)
    ensures AllAtLeast(b, key, lo, hi, v)
  {
    forall k | lo <= k < hi
      ensures v <= key(b[k])
    {
      var k' := DrawnFromWitness(a, b, lo, hi, k);
    }
  }

  lemma DrawnFromBelow<T>(a: seq<T>, b: seq<T>, key: T -> int, l1: int, h1: int, l2: int, h2: int)
    requires 0 <= l1 <= h1 <= |a| && 0 <= l2 <= h2 <= |a| && |a| == |b|
    requires DrawnFrom(a, b, l1, h1) && DrawnFrom(a, b, l2, h2)
    requires Below(a, key, l1, h1, l2, h2)
    ensures Below(b, key, l1, h1, l2, h2)
  {
    forall p, q | l1 <= p < h1 && l2 <= q < h2
      ensures key(b[p]) <= key(b[q])
    {
      var p' := DrawnFromWitness(a, b, l1, h1, p);
      var q' := DrawnFromWitness(a, b, l2, h2, q);
    }
  }

  /** Permuting a range keeps a bound on it. */
  lemma PermOnAtMost<T>(a: seq<T>, b: seq<T>, key: T -> int, lo: int, hi: int, l: int, h: int, v: int)
    requires 0 <= lo <= hi <= |a| && 0 <= l <= h <= |a|
    requires PermOn(a, b, lo, hi) && ((l <= lo && hi <= h) || h <= lo || hi <= l)
    requires AllAtMost(a, key, l, h, v)
    ensures AllAtMost(b, key, l, h, v)
  {
    PermOnDrawnFromAround(a, b, lo, hi, l, h);
    DrawnFromAtMost(a, b, key, l, h, v);
  }

  lemma PermOnAtLeast<T>(a: seq<T>, b: seq<T>, key: T -> int, lo: int, hi: int, l: int, h: int, v: int)
    requires 0 <= lo <= hi <= |a| && 0 <= l <= h <= |a|
    requires PermOn(a, b, lo, hi) && ((l <= lo && hi <= h) || h <= lo || hi <= l)
    requires AllAtLeast(a, key, l, h, v)
    ensures AllAtLeast(b, key, l, h, v)
  {
    PermOnDrawnFromAround(a, b, lo, hi, l, h);
    DrawnFromAtLeast(a, b, key, l, h, v);
  }

  /** Permuting a range inside one side of a `Below` relation, or outside both, keeps it. */
  lemma PermOnBelow<T>(a: seq<T>, b: seq<T>, key: T -> int, lo: int, hi: int,
                       l1: int, h1: int, l2: int, h2: int)
    requires 0 <= lo <= hi <= |a| && 0 <= l1 <= h1 <= |a| && 0 <= l2 <= h2 <= |a|
    requires PermOn(a, b, lo, hi)
    requires (l1 <= lo && hi <= h1) || h1 <= lo || hi <= l1
    requires (l2 <= lo && hi <= h2) || h2 <= lo || hi <= l2
    requires Below(a, key, l1, h1, l2, h2)
    ensures Below(b, key, l1, h1, l2, h2)
  {
    PermOnDrawnFromAround(a, b, lo, hi, l1, h1);
    PermOnDrawnFromAround(a, b, lo, hi, l2, h2);
    DrawnFromBelow(a, b, key, l1, h1, l2, h2);
  }

  /** A range the permutation does not touch stays sorted. */
  lemma PermOnSortedOutside<T>(a: seq<T>, b: seq<T>, key: T -> int, lo: int, hi: int, l: int, h: int)
    requires 0 <= lo <= hi <= |a| && 0 <= l <= h <= |a|
    requires PermOn(a, b, lo, hi) && (h <= lo || hi <= l)
    requires Sorted(a, key, l, h)
    ensures Sorted(b, key, l, h)
  {
  }

  /** Two sorted adjacent ranges, the first below the second, form one sorted range. */
  lemma SortedConcat<T>(s: seq<T>, key: T -> int, lo: int, mid: int, hi: int)
    requires 0 <= lo <= mid <= hi <= |s|
    requires Sorted(s, key, lo, mid) && Sorted(s, key, mid, hi)
    requires Below(s, key, lo, mid, mid, hi)
    ensures Sorted(s, key, lo, hi)
  {
  }

  /** Restricting a `Below` relation to sub-ranges. */
  lemma BelowSub<T>(s: seq<T>, key: T -> int, l1: int, h1: int, l2: int, h2: int,
                    l1': int, h1': int, l2': int, h2': int)
    requires 0 <= l1 <= l1' <= h1' <= h1 <= |s| && 0 <= l2 <= l2' <= h2' <= h2 <= |s|
    requires Below(s, key, l1, h1, l2, h2)
    ensures Below(s, key, l1', h1', l2', h2')
  {
  }
}
