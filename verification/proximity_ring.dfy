/**
  The geometry behind the proximity map's early exit, in exact arithmetic.

  Let z be a bucket centre, t the target and x a palette colour. The "ring" of x is
  the sphere around z through x; no colour on it is closer to t than
  |dist(z,t) - dist(z,x)|. The search stops at the first colour whose ring is farther
  from t than the closest colour seen so far:

      |sqrt(A) - sqrt(B)| > sqrt(C)      A = |t-z|^2, B = |x-z|^2, C = best |t-y|^2

  `RingBreak` states the same test on the integers, without square roots
  (`RingBreakExact` proves that for any non-negative roots), and `RingBreakSound`
  proves that once the test fires, no colour whose ring is at least as large is
  strictly closer than the best so far.
 */
module ProximityRing {
  import opened Int32Util
  import opened Colors
  import opened ColorBgr24Util

  /** The ring test `|sqrt(A) - sqrt(B)| > sqrt(C)` with all square roots squared away. */
  predicate RingBreak(a: int, b: int, c: int) {
    a + b - c > 0 && (a + b - c) * (a + b - c) > 4 * a * b
  }

  /** `x` is a non-negative real square root of the integer `n`. */
  predicate IsRoot(x: real, n: int) {
    x >= 0.0 && x * x == n as real
  }

  function Abs(x: real): real {
    if x < 0.0 then -x else x
  }

  /** The integer test is exactly the real one for any choice of the square roots. */
  lemma RingBreakExact(a: int, b: int, c: int, ra: real, rb: real, rc: real)
    requires IsRoot(ra, a) && IsRoot(rb, b) && IsRoot(rc, c)
    ensures RingBreak(a, b, c) <==> Abs(ra - rb) > rc
  {
    var d := Abs(ra - rb);
    var p := ra * rb;
    var s := (a + b - c) as real;
    // |ra - rb| > rc  <==>  d^2 > c  <==>  s > 2p  <==>  s > 0 && s^2 > 4ab
    SquareOrder(d, rc);
    DiffSquare(ra, rb);
    ProductRoot(ra, rb, a, b);
    PositiveSquareOrder(s, 2.0 * p);
    assert (2.0 * p) * (2.0 * p) == 4.0 * (p * p);
    RingBreakReal(a, b, c);
  }

  lemma DiffSquare(x: real, y: real)
    ensures Abs(x - y) * Abs(x - y) == x * x + y * y - 2.0 * (x * y)
  {
    assert Abs(x - y) * Abs(x - y) == (x - y) * (x - y);
  }

  /** The product of two roots is the root of the product. */
  lemma ProductRoot(ra: real, rb: real, a: int, b: int)
    requires IsRoot(ra, a) && IsRoot(rb, b)
    ensures ra * rb >= 0.0 && (ra * rb) * (ra * rb) == a as real * b as real
  {
    assert (ra * rb) * (ra * rb) == (ra * ra) * (rb * rb);
  }

  /** `RingBreak` read in the reals. */
  lemma RingBreakReal(a: int, b: int, c: int)
    ensures RingBreak(a, b, c) <==>
      (a + b - c) as real > 0.0 && (a + b - c) as real * (a + b - c) as real > 4.0 * (a as real * b as real)
  {
    assert ((a + b - c) * (a + b - c)) as real == (a + b - c) as real * (a + b - c) as real;
    assert (4 * a * b) as real == 4.0 * (a as real * b as real);
  }

  /** On non-negative reals, comparing squares compares the values. */
  lemma SquareOrder(x: real, y: real)
    requires x >= 0.0 && y >= 0.0
    ensures x > y <==> x * x > y * y
  {
    if x > y {
      RealSquareLess(y, x);
    } else {
      assert x * x <= x * y;
      assert x * y <= y * y;
    }
  }

  /** Against a non-negative bound, `s` may be negative. */
  lemma PositiveSquareOrder(s: real, q: real)
    requires q >= 0.0
    ensures s > q <==> s > 0.0 && s * s > q * q
  {
    if s >= 0.0 {
      SquareOrder(s, q);
    }
  }

  lemma RealSquareLess(x: real, y: real)
    requires 0.0 <= x < y
    ensures x * x < y * y
  {
    var p := x * y;
    assert x * x <= p;
    assert p < y * y;
  }

  // ---------------------------------------------------------------- integer facts

  lemma MulLe(a: int, b: int, c: int)
    requires a <= b && c >= 0
    ensures a * c <= b * c
  {
  }

  lemma SquareLe(x: int, y: int)
    requires 0 <= x <= y
    ensures x * x <= y * y
  {
    MulLe(x, y, x);
    MulLe(x, y, y);
  }

  /** From squares back to the values, for non-negative `y`. */
  lemma SquareLeRoot(x: int, y: int)
    requires y >= 0
    ensures x * x <= y * y ==> x <= y
  {
    if x > y {
      MulLe(y + 1, x, x);
      MulLe(y, x, y + 1);
      assert x * x >= (y + 1) * (y + 1) > y * y;
    }
  }

  // ---------------------------------------------------------------- the ring argument

  /**
    Inside the target's own ring (`bj <= a`) the test cannot fire against the best
    distance `a + bm - 2pm` of a colour whose ring `bm` is not larger than `bj`.
   */
  lemma InsideNoBreak(a: int, bm: int, bj: int, pm: int)
    requires 0 <= bm <= bj <= a
    requires pm * pm <= a * bm
    ensures !RingBreak(a, bj, a + bm - 2 * pm)
  {
    var e := bj - bm;
    var s := e + 2 * pm;
    assert s == a + bj - (a + bm - 2 * pm);
    if s > 0 {
      if pm <= 0 {
        SquareLe(s, bj);
        MulLe(bj, a, bj);
        assert s * s <= a * bj;
      } else {
        InsidePositive(a, bm, e, pm);
      }
    }
  }

  /** `4 pm <= 3a + bm`, from `pm^2 <= a bm` and `bm <= a`. */
  lemma InnerAtMost(a: int, bm: int, pm: int)
    requires 0 <= bm <= a && pm > 0
    requires pm * pm <= a * bm
    ensures 4 * pm <= 3 * a + bm
  {
    assert (3 * a + bm) * (3 * a + bm) - 16 * (a * bm) == (9 * a - bm) * (a - bm);
    MulLe(0, 9 * a - bm, a - bm);
    assert (4 * pm) * (4 * pm) == 16 * (pm * pm);
    MulLe(pm * pm, a * bm, 16);
    SquareLeRoot(4 * pm, 3 * a + bm);
  }

  lemma InsidePositive(a: int, bm: int, e: int, pm: int)
    requires 0 <= bm && 0 <= e && bm + e <= a && pm > 0
    requires pm * pm <= a * bm
    ensures (e + 2 * pm) * (e + 2 * pm) <= 4 * a * (bm + e)
  {
    InnerAtMost(a, bm, pm);
    MulLe(e + 4 * pm, 4 * a, e);
    MulLe(pm * pm, a * bm, 4);
    assert (e + 2 * pm) * (e + 2 * pm) == e * (e + 4 * pm) + 4 * (pm * pm);
    assert 4 * a * (bm + e) == 4 * a * e + 4 * (a * bm);
  }

  /**
    First step: when the ring test fires against the best distance of a colour whose
    ring is not larger, the firing colour lies outside the target's own ring.
   */
  lemma OuterRing(a: int, bm: int, bj: int, pm: int)
    requires a >= 0 && 0 <= bm <= bj
    requires pm * pm <= a * bm
    ensures RingBreak(a, bj, a + bm - 2 * pm) ==> bj > a
  {
    if bj <= a {
      InsideNoBreak(a, bm, bj, pm);
    }
  }

  /** Second step: outside the target's ring, the test fires only beyond `a + c`. */
  lemma BeyondTarget(a: int, bj: int, c: int)
    requires a >= 0 && c >= 0 && bj > a
    ensures RingBreak(a, bj, c) ==> a + bj - c > 2 * a
  {
    var s := a + bj - c;
    if 0 < s <= 2 * a {
      var y := a + c - bj;
      assert 0 <= y < c && y < 2 * a;
      assert s * s - 4 * a * bj == y * y - 4 * a * c;
      MulLe(y, c, y);
      MulLe(y, 2 * a, c);
      assert y * y <= 2 * a * c;
    }
  }

  /**
    Third step: with `s == a + bj - c > 2a` and `s^2 > 4 a bj`, every colour whose
    ring `bk` is at least `bj` is strictly farther than `c`.
   */
  lemma FartherRing(a: int, bj: int, bk: int, c: int, pk: int)
    requires a >= 0 && bj <= bk
    requires pk * pk <= a * bk
    requires a + bj - c > 2 * a
    requires (a + bj - c) * (a + bj - c) > 4 * a * bj
    ensures a + bk - 2 * pk > c
  {
    var s := a + bj - c;
    var d := bk - bj;
    if pk > 0 {
      WiderSquare(a, bj, s, d);
      MulLe(pk * pk, a * bk, 4);
      assert (2 * pk) * (2 * pk) == 4 * (pk * pk);
      SquareLeRoot(s + d, 2 * pk);
    }
  }

  /** Growing the ring by `d` keeps `s^2 > 4 a b` once `s > 2a`. */
  lemma WiderSquare(a: int, b: int, s: int, d: int)
    requires a >= 0 && d >= 0 && s > 2 * a
    requires s * s > 4 * a * b
    ensures (s + d) * (s + d) > 4 * (a * (b + d))
  {
    MulLe(4 * a, 2 * s + d, d);
    assert (s + d) * (s + d) == s * s + (2 * s + d) * d;
    assert 4 * (a * (b + d)) == 4 * a * b + 4 * a * d;
  }

  /**
    The ring argument on integers. `pm` and `pk` are the inner products
    <t-z, xm-z> and <t-z, xk-z>, so the distances from the target are
    `a + bm - 2pm` and `a + bk - 2pk`, and Cauchy-Schwarz bounds them.
   */
  lemma RingBound(a: int, bm: int, bj: int, bk: int, pm: int, pk: int)
    requires a >= 0 && 0 <= bm <= bj <= bk
    requires pm * pm <= a * bm && pk * pk <= a * bk
    requires a + bm - 2 * pm >= 0
    requires RingBreak(a, bj, a + bm - 2 * pm)
    ensures a + bk - 2 * pk > a + bm - 2 * pm
  {
    var c := a + bm - 2 * pm;
    assert bm <= bj;
    OuterRing(a, bm, bj, pm);
    BeyondTarget(a, bj, c);
    FartherRing(a, bj, bk, c, pk);
  }

  // ---------------------------------------------------------------- colours as vectors

  function Dot(u0: int, u1: int, u2: int, v0: int, v1: int, v2: int): int {
    u0 * v0 + u1 * v1 + u2 * v2
  }

  /** Cauchy-Schwarz in three dimensions, by Lagrange's identity. */
  lemma CauchySchwarz(u0: int, u1: int, u2: int, v0: int, v1: int, v2: int)
    ensures Dot(u0, u1, u2, v0, v1, v2) * Dot(u0, u1, u2, v0, v1, v2)
         <= Dot(u0, u1, u2, u0, u1, u2) * Dot(v0, v1, v2, v0, v1, v2)
  {
    var p := u0 * v1 - u1 * v0;
    var q := u0 * v2 - u2 * v0;
    var w := u1 * v2 - u2 * v1;
    assert Dot(u0, u1, u2, u0, u1, u2) * Dot(v0, v1, v2, v0, v1, v2)
        - Dot(u0, u1, u2, v0, v1, v2) * Dot(u0, u1, u2, v0, v1, v2)
        == p * p + q * q + w * w;
  }

  /** <t-z, x-z>: how far the direction of `x` from the centre agrees with the target's. */
  function Inner(t: ColorBgr24, z: ColorBgr24, x: ColorBgr24): int {
    Dot(t.b - z.b, t.g - z.g, t.r - z.r, x.b - z.b, x.g - z.g, x.r - z.r)
  }

  lemma SquareDiff(u: int, v: int)
    ensures (u - v) * (u - v) == u * u + v * v - 2 * (u * v)
    ensures (-u) * (-u) == u * u
  {
  }

  /** |t-x|^2 == |t-z|^2 + |x-z|^2 - 2 <t-z, x-z>. */
  lemma ExpandDistance(t: ColorBgr24, z: ColorBgr24, x: ColorBgr24)
    ensures DistanceSquared(t, x) == DistanceSquared(z, t) + DistanceSquared(x, z) - 2 * Inner(t, z, x)
  {
    var u0, u1, u2 := t.b - z.b, t.g - z.g, t.r - z.r;
    var v0, v1, v2 := x.b - z.b, x.g - z.g, x.r - z.r;
    SquareDiff(u0, v0);
    SquareDiff(u1, v1);
    SquareDiff(u2, v2);
    assert t.b - x.b == u0 - v0 && t.g - x.g == u1 - v1 && t.r - x.r == u2 - v2;
    assert DistanceSquared(t, x) == (u0 - v0) * (u0 - v0) + (u1 - v1) * (u1 - v1) + (u2 - v2) * (u2 - v2);
    assert DistanceSquared(z, t) == (-u0) * (-u0) + (-u1) * (-u1) + (-u2) * (-u2);
    assert DistanceSquared(x, z) == v0 * v0 + v1 * v1 + v2 * v2;
  }

  /** Cauchy-Schwarz for the vectors from the centre to the target and to `x`. */
  lemma InnerBound(t: ColorBgr24, z: ColorBgr24, x: ColorBgr24)
    ensures Inner(t, z, x) * Inner(t, z, x) <= DistanceSquared(z, t) * DistanceSquared(x, z)
  {
    var u0, u1, u2 := t.b - z.b, t.g - z.g, t.r - z.r;
    var v0, v1, v2 := x.b - z.b, x.g - z.g, x.r - z.r;
    CauchySchwarz(u0, u1, u2, v0, v1, v2);
    SquareDiff(u0, 0);
    SquareDiff(u1, 0);
    SquareDiff(u2, 0);
    assert DistanceSquared(z, t) == Dot(u0, u1, u2, u0, u1, u2);
    assert DistanceSquared(x, z) == Dot(v0, v1, v2, v0, v1, v2);
  }

  /**
    The ring cut-off is sound: if the best colour `m` so far has a ring no larger
    than `j`'s and the test fires at `j`, then every colour `k` whose ring is at least
    as large as `j`'s is strictly farther from the target than `m`.
   */
  lemma RingBreakSound(t: ColorBgr24, z: ColorBgr24, m: ColorBgr24, j: ColorBgr24, k: ColorBgr24)
    requires DistanceSquared(m, z) <= DistanceSquared(j, z) <= DistanceSquared(k, z)
    requires RingBreak(DistanceSquared(z, t), DistanceSquared(j, z), DistanceSquared(t, m))
    ensures DistanceSquared(t, k) > DistanceSquared(t, m)
  {
    ExpandDistance(t, z, m);
    ExpandDistance(t, z, k);
    InnerBound(t, z, m);
    InnerBound(t, z, k);
    RingBound(DistanceSquared(z, t), DistanceSquared(m, z), DistanceSquared(j, z), DistanceSquared(k, z),
      Inner(t, z, m), Inner(t, z, k));
  }
}
