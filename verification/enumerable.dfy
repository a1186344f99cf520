/** EnumerableExtensions.Concat(list, tail): the items of a sequence followed by one more item. */
module EnumerableExtensions {

  /** The iterator yields each item of `list` in order and then `tail`. */
  method Concat<T>(list: seq<T>, tail: T) returns (yielded: seq<T>)
    ensures |yielded| == |list| + 1
    ensures forall i :: 0 <= i < |list| ==> yielded[i] == list[i]
    ensures yielded[|list|] == tail
  {
    yielded := [];
    var i := 0;
    while i < |list|
      invariant 0 <= i <= |list|
      invariant yielded == list[..i]
    {
      yielded := yielded + [list[i]];
      i := i + 1;
    }
    yielded := yielded + [tail];
  }

  /** On an empty list only the tail is yielded. */
  method ConcatEmpty<T>(tail: T) returns (yielded: seq<T>)
    ensures yielded == [tail]
  {
    yielded := Concat([], tail);
  }
}
