/**
  HashCodeUtil.CombineHashCodes: the overloads for 2 to 20 hash codes all run
  `result = ((result << 5) + result) ^ hashK` over their arguments in order,
  in unchecked 32-bit arithmetic. Hash codes are modelled as `bv32`, whose
  operations wrap exactly as unchecked C# int arithmetic does.
 */
module HashCodeUtil {
  import opened Int32Util

  /** The two's-complement bit pattern of a C# int. */
  function ToBits(x: int32): bv32 {
    ((x + 0x1_0000_0000) % 0x1_0000_0000) as bv32
  }

  /** The C# int a bit pattern denotes. */
  function FromBits(b: bv32): int32 {
    Wrap32(b as int)
  }

  /** One combining step. */
  function Step(result: bv32, hash: bv32): bv32 {
    ((result << 5) + result) ^ hash
  }

  /** The shift-and-add is a multiplication by 33 modulo 2^32. */
  lemma StepIsTimes33(result: bv32, hash: bv32)
    ensures Step(result, hash) == (result * 33) ^ hash
  {
  }

  /** The reference definition: the left fold of `Step` over the hash codes. */
  function Fold(hashes: seq<bv32>): bv32
    requires |hashes| >= 1
  {
    if |hashes| == 1 then hashes[0]
    else Step(Fold(hashes[..|hashes| - 1]), hashes[|hashes| - 1])
  }

  /** CombineHashCodes(hash1, hash2). */
  function Combine2(hash1: bv32, hash2: bv32): (r: bv32)
    ensures r == (hash1 * 33) ^ hash2
    ensures r == Fold([hash1, hash2])
  {
    StepIsTimes33(hash1, hash2);
    assert [hash1, hash2][..1] == [hash1];
    Step(hash1, hash2)
  }

  /** CombineHashCodes(hash1, hash2, hash3). */
  function Combine3(hash1: bv32, hash2: bv32, hash3: bv32): (r: bv32)
    ensures r == Fold([hash1, hash2, hash3])
  {
    var result := Step(hash1, hash2);
    assert [hash1, hash2, hash3][..2] == [hash1, hash2];
    assert [hash1, hash2][..1] == [hash1];
    assert Fold([hash1, hash2]) == result;
    Step(result, hash3)
  }

  /** CombineHashCodes(hash1, hash2, hash3, hash4). */
  function Combine4(hash1: bv32, hash2: bv32, hash3: bv32, hash4: bv32): (r: bv32)
    ensures r == Fold([hash1, hash2, hash3, hash4])
  {
    var result := Step(Step(hash1, hash2), hash3);
    assert [hash1, hash2, hash3, hash4][..3] == [hash1, hash2, hash3];
    assert [hash1, hash2, hash3][..2] == [hash1, hash2];
    assert [hash1, hash2][..1] == [hash1];
    assert Fold([hash1, hash2]) == Step(hash1, hash2);
    assert Fold([hash1, hash2, hash3]) == result;
    Step(result, hash4)
  }

  /**
    The overloads with 5 to 20 arguments, written as one loop over the argument
    list: it performs the same steps in the same order as the unrolled code.
   */
  method CombineHashCodes(hashes: seq<bv32>) returns (result: bv32)
    requires 2 <= |hashes| <= 20
    ensures result == Fold(hashes)
  {
    result := hashes[0];
    var i := 1;
    while i < |hashes|
      invariant 1 <= i <= |hashes|
      invariant result == Fold(hashes[..i])
    {
      assert hashes[..i + 1][..i] == hashes[..i];
      result := Step(result, hashes[i]);
      i := i + 1;
    }
    assert hashes[..i] == hashes;
  }

  /**
    The last argument enters only through the final xor: flipping some of its
    bits flips exactly those bits of the combined hash.
   */
  lemma LastArgumentFlipsBits(init: seq<bv32>, last: bv32, mask: bv32)
    requires |init| >= 1
    ensures Fold(init + [last ^ mask]) == Fold(init + [last]) ^ mask
  {
    var flipped, original := init + [last ^ mask], init + [last];
    assert flipped[..|init|] == init;
    assert original[..|init|] == init;
    StepFlip(Fold(init), last, mask);
  }

  lemma StepFlip(result: bv32, hash: bv32, mask: bv32)
    ensures Step(result, hash ^ mask) == Step(result, hash) ^ mask
  {
    var x := (result << 5) + result;
    assert x ^ (hash ^ mask) == (x ^ hash) ^ mask;
  }

  /** A prefix of the arguments determines the intermediate result. */
  lemma {:induction false} FoldAppend(hashes: seq<bv32>, more: seq<bv32>)
    requires |hashes| >= 1
    ensures Fold(hashes + more) == FoldFrom(Fold(hashes), more)
    decreases |more|
  {
    if |more| == 0 {
      assert hashes + more == hashes;
    } else {
      var all := hashes + more;
      var init := more[..|more| - 1];
      assert all[..|all| - 1] == hashes + init;
      FoldAppend(hashes, init);
      FoldFromSnoc(Fold(hashes), init, more[|more| - 1]);
      assert init + [more[|more| - 1]] == more;
    }
  }

  /** Folding from an accumulator over a list, front to back. */
  function FoldFrom(acc: bv32, more: seq<bv32>): bv32
    decreases |more|
  {
    if |more| == 0 then acc else FoldFrom(Step(acc, more[0]), more[1..])
  }

  lemma {:induction false} FoldFromSnoc(acc: bv32, more: seq<bv32>, last: bv32)
    ensures FoldFrom(acc, more + [last]) == Step(FoldFrom(acc, more), last)
    decreases |more|
  {
    if |more| == 0 {
      assert more + [last] == [last];
      assert [last][1..] == [];
    } else {
      assert (more + [last])[1..] == more[1..] + [last];
      FoldFromSnoc(Step(acc, more[0]), more[1..], last);
    }
  }
}
