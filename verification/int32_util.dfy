/**
  Fixed-width integer helpers (the C# `int`, `uint`, `long` ranges and the
  two's-complement wrap-around of `unchecked` arithmetic), together with
  `Int32Util` and `ComparableUtil` of the original.
 */
module Int32Util {

  const INT32_MIN: int := -0x8000_0000
  const INT32_MAX: int := 0x7fff_ffff
  const UINT32_MAX: int := 0xffff_ffff
  const INT64_MIN: int := -0x8000_0000_0000_0000
  const INT64_MAX: int := 0x7fff_ffff_ffff_ffff

  /** A C# `byte`. */
  type byte = x: int | 0 <= x < 256

  /** A C# `int`. */
  type int32 = x: int | INT32_MIN <= x <= INT32_MAX

  predicate IsInt32(x: int) {
    INT32_MIN <= x <= INT32_MAX
  }

  predicate IsInt64(x: int) {
    INT64_MIN <= x <= INT64_MAX
  }

  /**
    The result of `unchecked` 32-bit arithmetic: `x` reduced into the int range
    by adding or subtracting 2^32 until it fits.
   */
  function Wrap32(x: int): (r: int32)
    ensures IsInt32(x) ==> r == x
    decreases if x > INT32_MAX then x - INT32_MAX else if x < INT32_MIN then INT32_MIN - x else 0
  {
    if IsInt32(x) then x
    else if x > INT32_MAX then Wrap32(x - 0x1_0000_0000)
    else Wrap32(x + 0x1_0000_0000)
  }

  /** The wrapped value differs from the exact one by a multiple of 2^32. */
  lemma {:induction false} Wrap32IsCongruent(x: int)
    ensures (Wrap32(x) - x) % 0x1_0000_0000 == 0
    decreases if x > INT32_MAX then x - INT32_MAX else if x < INT32_MIN then INT32_MIN - x else 0
  {
    if IsInt32(x) {
    } else if x > INT32_MAX {
      Wrap32IsCongruent(x - 0x1_0000_0000);
      ModShift(Wrap32(x) - x, 1);
    } else {
      Wrap32IsCongruent(x + 0x1_0000_0000);
      ModShift(Wrap32(x) - x, -1);
    }
  }

  /** Values congruent modulo 2^32 wrap to the same int. */
  lemma Wrap32Congruent(a: int, b: int)
    requires (a - b) % 0x1_0000_0000 == 0
    ensures Wrap32(a) == Wrap32(b)
  {
    Wrap32IsCongruent(a);
    Wrap32IsCongruent(b);
    var wa, wb := Wrap32(a) as int, Wrap32(b) as int;
    ModZeroScale(wb - b, -1);
    ModZeroAdd(wa - a, a - b);
    ModZeroAdd(wa - a + (a - b), -1 * (wb - b));
    assert wa - wb == wa - a + (a - b) + -1 * (wb - b);
    var k := (wa - wb) / 0x1_0000_0000;
    assert wa - wb == k * 0x1_0000_0000;
  }

  lemma ModShift(x: int, k: int)
    ensures (x + k * 0x1_0000_0000) % 0x1_0000_0000 == x % 0x1_0000_0000
  {
  }

  lemma ModZeroAdd(a: int, b: int)
    requires a % 0x1_0000_0000 == 0 && b % 0x1_0000_0000 == 0
    ensures (a + b) % 0x1_0000_0000 == 0
  {
    var i, j := a / 0x1_0000_0000, b / 0x1_0000_0000;
    assert a + b == (i + j) * 0x1_0000_0000;
  }

  lemma ModZeroScale(a: int, c: int)
    requires a % 0x1_0000_0000 == 0
    ensures (c * a) % 0x1_0000_0000 == 0
  {
    var i := a / 0x1_0000_0000;
    assert c * a == (c * i) * 0x1_0000_0000;
  }

  /** Adding d and then the wrapped -d, both unchecked, gives back x. */
  lemma Wrap32AddBack(x: int32, d: int32)
    ensures Wrap32(Wrap32(x as int + d) as int + Wrap32(-(d as int))) == x
  {
    var w1 := Wrap32(x as int + d) as int;
    var w2 := Wrap32(-(d as int)) as int;
    Wrap32IsCongruent(x as int + d);
    Wrap32IsCongruent(-(d as int));
    assert (w2 - -(d as int)) % 0x1_0000_0000 == 0;
    assert w2 - -(d as int) == w2 + d;
    ModZeroAdd(w1 - (x + d), w2 + d);
    assert (w1 + w2) - x == (w1 - (x + d)) + (w2 + d);
    Wrap32Congruent(w1 + w2, x);
  }

  /** Wrapping an intermediate result does not change the wrapped sum. */
  lemma Wrap32AddLeft(a: int, b: int)
    ensures Wrap32(Wrap32(a) as int + b) == Wrap32(a + b)
  {
    Wrap32IsCongruent(a);
    Wrap32Congruent(Wrap32(a) as int + b, a + b);
  }

  /** Wrapping commutes with negation. */
  lemma Wrap32Neg(a: int)
    ensures Wrap32(-(Wrap32(a) as int)) == Wrap32(-a)
  {
    Wrap32IsCongruent(a);
    ModZeroScale(Wrap32(a) - a, -1);
    Wrap32Congruent(-(Wrap32(a) as int), -a);
  }

  /** `x >> k` on a signed integer: an arithmetic shift, i.e. division rounding toward minus infinity. */
  function ShiftRight(x: int, k: nat): int {
    x / Pow2(k)
  }

  function Pow2(k: nat): (r: nat)
    ensures r >= 1
  {
    if k == 0 then 1 else 2 * Pow2(k - 1)
  }

  /** `>>` rounds toward minus infinity: the result is the greatest q with q * 2^k <= x. */
  lemma ShiftRightIsFloor(x: int, k: nat)
    ensures ShiftRight(x, k) * Pow2(k) <= x < (ShiftRight(x, k) + 1) * Pow2(k)
  {
  }

  /** Int32Util.ClampToByte: saturate an int into [0, 255]. */
  function ClampToByte(x: int): (r: byte)
    ensures x > 255 ==> r == 255
    ensures x < 0 ==> r == 0
    ensures 0 <= x <= 255 ==> r == x
  {
    if x > 255 then 255
    else if x < 0 then 0
    else x
  }

  lemma ClampToByteMonotone(x: int, y: int)
    ensures x <= y ==> ClampToByte(x) <= ClampToByte(y)
    ensures 0 <= x <= 255 ==> ClampToByte(x) == x
  {
  }

  /** The bit length of a non-negative number: the number of halvings until it reaches 0. */
  function BitLength(x: nat): nat {
    if x == 0 then 0 else 1 + BitLength(x / 2)
  }

  /**
    Int32Util.Log2Floor. Despite its name it returns the number of loop turns
    until `x` drops below 1: 0 for x <= 0 and the bit length floor(log2 x) + 1
    otherwise.
   */
  method Log2Floor(x0: int32) returns (num: int)
    ensures x0 <= 0 ==> num == 0
    ensures x0 >= 1 ==> num == BitLength(x0) && Pow2(num - 1) <= x0 < Pow2(num)
  {
    num := 0;
    var x := x0;
    while x >= 1
      invariant x0 <= 0 ==> x == x0 && num == 0
      invariant x0 >= 1 ==> 0 <= x && num + BitLength(x) == BitLength(x0)
      decreases if x < 0 then 0 else x
    {
      num := num + 1;
      x := x / 2;
    }
    if x0 >= 1 {
      BitLengthBounds(x0);
    }
  }

  /** 2^(n-1) <= x < 2^n where n is the bit length of a positive x. */
  lemma {:induction false} BitLengthBounds(x: nat)
    requires x >= 1
    ensures BitLength(x) >= 1
    ensures Pow2(BitLength(x) - 1) <= x < Pow2(BitLength(x))
  {
    if x == 1 {
    } else {
      BitLengthBounds(x / 2);
    }
  }
}

/** ComparableUtil: comparisons normalised to -1, 0, +1. */
module ComparableUtil {

  /** Sign of an `IComparable.CompareTo` result. */
  function CompareTrinary(compare: int): (r: int)
    ensures r == -1 || r == 0 || r == 1
    ensures r < 0 <==> compare < 0
    ensures r > 0 <==> compare > 0
    ensures r == 0 <==> compare == 0
  {
    if compare < 0 then -1 else if compare > 0 then 1 else 0
  }

  /** `int.CompareTo`, which is what `CompareTrinary<int>` sees for two ints. */
  function CompareInt(a: int, b: int): int {
    if a < b then -1 else if a > b then 1 else 0
  }

  lemma CompareTrinaryIntAntisymmetric(a: int, b: int)
    ensures CompareTrinary(CompareInt(a, b)) == -CompareTrinary(CompareInt(b, a))
    ensures CompareTrinary(CompareInt(a, b)) == 0 <==> a == b
  {
  }
}
