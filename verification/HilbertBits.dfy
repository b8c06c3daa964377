/**
  The bit manipulations of the Hilbert-curve lookup-table generator, for
  N = 2 dimensions: N-bit rotations, the Gray code and its inverse, the
  entry point and direction of each sub-square, and the transform that
  maps a sub-square's corner label into the current orientation.
 */
module HilbertBits {
  import opened Bits

  /** The number of dimensions, and so the width of a corner label. */
  const N: nat := 2

  /** `rotate_right(x, d)`: rotate the low N bits of x right by d. */
  function RotateRight(x: nat, d: int): (r: nat)
  {
    var dd := d % N;
    RotateRightLoop(x, dd, 0, Shr(x, dd))
  }

  /** The loop of `rotate_right`: move bit i of x up to bit N + i - d. */
  function RotateRightLoop(x: nat, d: nat, i: nat, out: nat): (r: nat)
    requires d < N
    decreases d - i
  {
    if i >= d then out
    else RotateRightLoop(x, d, i + 1, Or(out, Shl(BitComponent(x, i), N + i - d)))
  }

  /** `rotate_left(x, d)`: rotate the low N bits of x left by d. */
  function RotateLeft(x: nat, d: int): (r: nat)
  {
    var dd := d % N;
    RotateLeftLoop(x, dd, 0, Mask(Shl(x, dd), N))
  }

  /** The loop of `rotate_left`: move bit N - d + i of x down to bit i. */
  function RotateLeftLoop(x: nat, d: nat, i: nat, out: nat): (r: nat)
    requires d < N
    decreases d - i
  {
    if i >= d then out
    else RotateLeftLoop(x, d, i + 1, Or(out, Shl(BitComponent(x, N - 1 - d + 1 + i), i)))
  }

  /** `gc(i)`: the Gray code of i. */
  function GrayCode(i: nat): (r: nat)
  {
    Xor(i, Shr(i, 1))
  }

  /** `inverse_gc(g)` */
  function InverseGrayCode(g: nat): (r: nat)
  {
    InverseGrayCodeLoop(g, g, 1)
  }

  /** The loop of `inverse_gc`: fold in g >> j for j = 1 .. N - 1. */
  function InverseGrayCodeLoop(g: nat, i: nat, j: nat): (r: nat)
    decreases N - j
  {
    if j < N then InverseGrayCodeLoop(g, Xor(i, Shr(g, j)), j + 1) else i
  }

  /** `e(i)`: the entry corner of sub-square i. */
  function Entry(i: nat): (r: nat)
  {
    if i == 0 then 0 else GrayCode(2 * ((i - 1) / 2))
  }

  /**
    `g(i)`: the dimension along which sub-square i + 1 follows sub-square
    i, the exact base-2 logarithm of `gc(i) ^ gc(i + 1)`.
   */
  function GrayDirection(i: nat): (r: nat)
    ensures Pow2(r) == Xor(GrayCode(i), GrayCode(i + 1))
  {
    GrayNeighboursDifferInOneBit(i);
    Log2Exact(Xor(GrayCode(i), GrayCode(i + 1)));
    Log2(Xor(GrayCode(i), GrayCode(i + 1)))
  }

  /** `d(i)`: the direction of the curve inside sub-square i. */
  function Direction(i: nat): (r: nat)
    ensures r < N
  {
    if i == 0 then 0
    else if i % 2 == 0 then GrayDirection(i - 1) % N
    else GrayDirection(i) % N
  }

  /** `T(e, d, b)`: label b seen from entry corner e and direction d. */
  function Transform(e: nat, d: int, b: nat): (r: nat)
  {
    RotateRight(Xor(b, e), d + 1)
  }

  /** `T_inv(e, d, b)` */
  function InverseTransform(e: nat, d: int, b: nat): (r: nat)
  {
    Transform(RotateRight(e, d + 1), N - d - 2, b)
  }

  // ---------------------------------------------------------------------
  // Two-bit facts

  /** On two-bit values, `rotate_right` by an odd amount swaps the bits. */
  lemma RotateRightTwoBits(x: nat, d: int)
    requires x < 4
    ensures RotateRight(x, d) == if d % 2 == 0 then x else Swap(x)
  {
    if d % 2 == 1 {
      assert Shr(x, 1) == x / 2;
      OrDisjoint(x / 2, x % 2, 1);
      assert RotateRight(x, d) == RotateRightLoop(x, 1, 1, Or(x / 2, Shl(x % 2, 1)));
    }
  }

  /** On two-bit values, `rotate_left` by an odd amount swaps the bits. */
  lemma RotateLeftTwoBits(x: nat, d: int)
    requires x < 4
    ensures RotateLeft(x, d) == if d % 2 == 0 then x else Swap(x)
  {
    if d % 2 == 1 {
      assert Mask(Shl(x, 1), N) == 2 * (x % 2);
      assert BitComponent(x, 1) == x / 2;
      OrDisjoint(x / 2, x % 2, 1);
      assert RotateLeft(x, d) == RotateLeftLoop(x, 1, 1, Or(2 * (x % 2), Shl(x / 2, 0)));
    }
  }

  /** Rotating right then left, or left then right, by the same amount is the identity. */
  lemma RotationsInverse(x: nat, d: int)
    requires x < 4
    ensures RotateRight(x, d) < 4 && RotateLeft(x, d) < 4
    ensures RotateLeft(RotateRight(x, d), d) == x
    ensures RotateRight(RotateLeft(x, d), d) == x
  {
    var r, l := RotateRight(x, d), RotateLeft(x, d);
    assert r < 4 && l < 4 by {
      RotateRightTwoBits(x, d);
      RotateLeftTwoBits(x, d);
      SwapInvolution(x);
    }
    assert RotateLeft(r, d) == x by {
      RotateRightTwoBits(x, d);
      RotateLeftTwoBits(r, d);
      SwapInvolution(x);
    }
    assert RotateRight(l, d) == x by {
      RotateLeftTwoBits(x, d);
      RotateRightTwoBits(l, d);
      SwapInvolution(x);
    }
  }

  lemma GrayCodeTwoBits(i: nat)
    requires i < 4
    ensures GrayCode(i) == (i % 2 + i / 2) % 2 + 2 * (i / 2)
  {
    Xor2(i, i / 2);
  }

  lemma InverseGrayCodeTwoBits(g: nat)
    requires g < 4
    ensures InverseGrayCode(g) == (g % 2 + g / 2) % 2 + 2 * (g / 2)
  {
    Xor2(g, g / 2);
    assert InverseGrayCode(g) == Xor(g, g / 2);
  }

  /** `inverse_gc` undoes `gc` and `gc` undoes `inverse_gc` on N-bit values. */
  lemma GrayCodeRoundTrip(i: nat)
    requires i < 4
    ensures GrayCode(i) < 4 && InverseGrayCode(i) < 4
    ensures InverseGrayCode(GrayCode(i)) == i
    ensures GrayCode(InverseGrayCode(i)) == i
  {
    GrayCodeTwoBits(i);
    InverseGrayCodeTwoBits(i);
    InverseGrayCodeTwoBits(GrayCode(i));
    GrayCodeTwoBits(InverseGrayCode(i));
  }

  /** The Gray code read bit by bit: bit 0 from bits 0 and 1 of i, the rest from i / 2. */
  lemma GrayCodeUnfold(n: nat)
    ensures GrayCode(n) == (n % 2 + (n / 2) % 2) % 2 + 2 * GrayCode(n / 2)
  {
    assert Shr(n, 1) == n / 2;
    assert Shr(n / 2, 1) == n / 2 / 2;
    XorUnfold(n, n / 2);
  }

  /** The Gray codes of 2m and 2m + 1 differ in bit 0 only. */
  lemma GrayEvenNeighbours(m: nat)
    ensures Xor(GrayCode(2 * m), GrayCode(2 * m + 1)) == 1
  {
    GrayCodeUnfold(2 * m);
    GrayCodeUnfold(2 * m + 1);
    assert (2 * m) / 2 == m && (2 * m + 1) / 2 == m;
    assert (2 * m) % 2 == 0 && (2 * m + 1) % 2 == 1;
    var a := GrayCode(2 * m);
    var b := GrayCode(2 * m + 1);
    var g := GrayCode(m);
    assert a == m % 2 + 2 * g;
    assert b == (1 + m % 2) % 2 + 2 * g;
    assert a / 2 == g && b / 2 == g;
    assert (a % 2 + b % 2) % 2 == 1;
    XorUnfold(a, b);
    XorSelf(g);
  }

  /** Two values with the same low bit xor to twice the xor of their upper parts. */
  lemma XorSameLowBit(lo: nat, g: nat, h: nat)
    requires lo < 2
    ensures Xor(lo + 2 * g, lo + 2 * h) == 2 * Xor(g, h)
  {
    var a := lo + 2 * g;
    var b := lo + 2 * h;
    DivModOfSum(g, 2, lo);
    DivModOfSum(h, 2, lo);
    assert a / 2 == g && a % 2 == lo;
    assert b / 2 == h && b % 2 == lo;
    XorUnfold(a, b);
    assert (lo + lo) % 2 == 0;
  }

  /** `GrayCodeUnfold` for n = 2k + b, on plain values. */
  lemma GrayCodeOfHalf(n: nat, k: nat, b: nat)
    requires b < 2 && n == 2 * k + b
    ensures GrayCode(n) == (b + k % 2) % 2 + 2 * GrayCode(k)
  {
    assert n / 2 == k && n % 2 == b;
    GrayCodeUnfold(n);
  }

  /** The Gray codes of 2m + 1 and 2m + 2 differ as those of m and m + 1, one bit up. */
  lemma GrayOddNeighbours(m: nat)
    ensures Xor(GrayCode(2 * m + 1), GrayCode(2 * m + 2)) == 2 * Xor(GrayCode(m), GrayCode(m + 1))
  {
    var lo := (1 + m % 2) % 2;
    assert (0 + (m + 1) % 2) % 2 == lo;
    GrayCodeOfHalf(2 * m + 1, m, 1);
    GrayCodeOfHalf(2 * m + 2, m + 1, 0);
    XorSameLowBit(lo, GrayCode(m), GrayCode(m + 1));
  }

  /** The Gray codes of neighbours differ in exactly one bit. */
  lemma {:induction false} GrayNeighboursDifferInOneBit(i: nat)
    ensures IsPow2(Xor(GrayCode(i), GrayCode(i + 1)))
    decreases i
  {
    var m := i / 2;
    if i % 2 == 0 {
      assert i == 2 * m;
      GrayEvenNeighbours(m);
    } else {
      assert i == 2 * m + 1;
      GrayNeighboursDifferInOneBit(m);
      GrayOddNeighbours(m);
      var x := Xor(GrayCode(m), GrayCode(m + 1));
      assert x >= 1;
      assert (2 * x) / 2 == x;
    }
  }

  /** Every two-bit sub-square enters at corner 0 or corner 3. */
  lemma EntryCorner(w: nat)
    requires w < 4
    ensures Entry(w) == if w == 3 then 3 else 0
  {
    if w == 3 {
      GrayCodeTwoBits(2);
    } else if w > 0 {
      GrayCodeTwoBits(0);
    }
  }

  /** The two bits of a two-bit value exchanged. */
  function Swap(x: nat): (r: nat)
  {
    2 * (x % 2) + x / 2
  }

  /** Exchanging the two bits twice gives the value back. */
  lemma SwapInvolution(x: nat)
    requires x < 4
    ensures Swap(x) < 4 && Swap(Swap(x)) == x
  {
  }

  /** The two-bit value with low bit lo and high bit hi. */
  function Two(lo: nat, hi: nat): (r: nat)
  {
    lo + 2 * hi
  }

  /** The bits of Two(lo, hi) are lo and hi. */
  lemma TwoBits(lo: nat, hi: nat)
    requires lo < 2 && hi < 2
    ensures Two(lo, hi) < 4 && Two(lo, hi) % 2 == lo && Two(lo, hi) / 2 == hi
  {
  }

  /** Every two-bit value is Two of its bits. */
  lemma SplitTwo(x: nat)
    requires x < 4
    ensures x % 2 < 2 && x / 2 < 2 && x == Two(x % 2, x / 2)
  {
  }

  /** The exclusive or of two bits. */
  function BitXor(p: nat, q: nat): (r: nat)
  {
    if p == q then 0 else 1
  }

  /** Xor-ing the same bit twice gives the first bit back. */
  lemma BitXorTwice(p: nat, q: nat)
    requires p < 2 && q < 2
    ensures BitXor(p, q) < 2 && BitXor(BitXor(p, q), q) == p
  {
  }

  /** On bits, the sum modulo 2 is the exclusive or. */
  lemma BitSumXor(p: nat, q: nat)
    requires p < 2 && q < 2
    ensures (p + q) % 2 == BitXor(p, q)
  {
    if p == q {
      assert p + q == 2 * p;
    }
  }

  /** Xor of two two-bit values, bit by bit. */
  lemma XorTwo(a0: nat, a1: nat, b0: nat, b1: nat)
    requires a0 < 2 && a1 < 2 && b0 < 2 && b1 < 2
    ensures Xor(Two(a0, a1), Two(b0, b1)) == Two(BitXor(a0, b0), BitXor(a1, b1))
  {
    TwoBits(a0, a1);
    TwoBits(b0, b1);
    XorOfBits(Two(a0, a1), Two(b0, b1), a0, a1, b0, b1);
  }

  /** Xor of two two-bit values given their bits. */
  lemma XorOfBits(a: nat, b: nat, a0: nat, a1: nat, b0: nat, b1: nat)
    requires a < 4 && b < 4 && a0 < 2 && a1 < 2 && b0 < 2 && b1 < 2
    requires a % 2 == a0 && a / 2 == a1 && b % 2 == b0 && b / 2 == b1
    ensures Xor(a, b) == Two(BitXor(a0, b0), BitXor(a1, b1))
  {
    Xor2(a, b);
    BitSumXor(a0, b0);
    BitSumXor(a1, b1);
  }

  /** The corners 0 and 3, as Two(c, c) for a bit c, are closed under xor. */
  lemma CornerXorBits(a0: nat, b0: nat)
    requires a0 < 2 && b0 < 2
    ensures Xor(Two(a0, a0), Two(b0, b0)) == Two(BitXor(a0, b0), BitXor(a0, b0))
    ensures Two(BitXor(a0, b0), BitXor(a0, b0)) == 0 || Two(BitXor(a0, b0), BitXor(a0, b0)) == 3
  {
    XorTwo(a0, a0, b0, b0);
  }

  /** The corners 0 and 3 are closed under xor. */
  lemma CornerXor(a: nat, b: nat)
    requires (a == 0 || a == 3) && (b == 0 || b == 3)
    ensures Xor(a, b) == 0 || Xor(a, b) == 3
  {
    if a == b {
      XorSelf(a);
    } else if a == 0 {
      CornerXorBits(0, 1);
    } else {
      CornerXorBits(1, 0);
    }
  }

  /** Rotating a two-bit value by an even amount keeps it, by an odd amount swaps its bits. */
  lemma RotateTwo(lo: nat, hi: nat, d: int)
    requires lo < 2 && hi < 2
    ensures RotateRight(Two(lo, hi), d) == if d % 2 == 0 then Two(lo, hi) else Two(hi, lo)
  {
    TwoBits(lo, hi);
    RotateRightTwoBits(Two(lo, hi), d);
  }

  /** `T(e, 0, b)` bit by bit: xor, then swap. */
  lemma TransformOdd(e0: nat, e1: nat, b0: nat, b1: nat)
    requires e0 < 2 && e1 < 2 && b0 < 2 && b1 < 2
    ensures Transform(Two(e0, e1), 0, Two(b0, b1)) == Two(BitXor(b1, e1), BitXor(b0, e0))
  {
    BitXorTwice(b0, e0);
    BitXorTwice(b1, e1);
    XorTwo(b0, b1, e0, e1);
    RotateTwo(BitXor(b0, e0), BitXor(b1, e1), 1);
  }

  /** `T(e, 1, b)` bit by bit: xor only. */
  lemma TransformEven(e0: nat, e1: nat, b0: nat, b1: nat)
    requires e0 < 2 && e1 < 2 && b0 < 2 && b1 < 2
    ensures Transform(Two(e0, e1), 1, Two(b0, b1)) == Two(BitXor(b0, e0), BitXor(b1, e1))
  {
    BitXorTwice(b0, e0);
    BitXorTwice(b1, e1);
    XorTwo(b0, b1, e0, e1);
    RotateTwo(BitXor(b0, e0), BitXor(b1, e1), 2);
  }

  /** `T_inv(e, 0, b)` bit by bit: xor with e's bits swapped, then swap. */
  lemma InverseTransformOdd(e0: nat, e1: nat, b0: nat, b1: nat)
    requires e0 < 2 && e1 < 2 && b0 < 2 && b1 < 2
    ensures InverseTransform(Two(e0, e1), 0, Two(b0, b1)) == Two(BitXor(b1, e0), BitXor(b0, e1))
  {
    BitXorTwice(b0, e1);
    BitXorTwice(b1, e0);
    RotateTwo(e0, e1, 1);
    XorTwo(b0, b1, e1, e0);
    RotateTwo(BitXor(b0, e1), BitXor(b1, e0), 1);
  }

  /** `T_inv(e, 1, b)` bit by bit: xor only. */
  lemma InverseTransformEven(e0: nat, e1: nat, b0: nat, b1: nat)
    requires e0 < 2 && e1 < 2 && b0 < 2 && b1 < 2
    ensures InverseTransform(Two(e0, e1), 1, Two(b0, b1)) == Two(BitXor(b0, e0), BitXor(b1, e1))
  {
    BitXorTwice(b0, e0);
    BitXorTwice(b1, e1);
    RotateTwo(e0, e1, 2);
    XorTwo(b0, b1, e0, e1);
    RotateTwo(BitXor(b0, e0), BitXor(b1, e1), 0);
  }

  /** `T_inv(e, 0, T(e, 0, b)) == b`, bit by bit. */
  lemma OddTransformRoundTrip(e0: nat, e1: nat, b0: nat, b1: nat)
    requires e0 < 2 && e1 < 2 && b0 < 2 && b1 < 2
    ensures Transform(Two(e0, e1), 0, Two(b0, b1)) < 4
    ensures InverseTransform(Two(e0, e1), 0, Transform(Two(e0, e1), 0, Two(b0, b1))) == Two(b0, b1)
  {
    BitXorTwice(b0, e0);
    BitXorTwice(b1, e1);
    var x0, x1 := BitXor(b0, e0), BitXor(b1, e1);
    assert Transform(Two(e0, e1), 0, Two(b0, b1)) == Two(x1, x0) by {
      TransformOdd(e0, e1, b0, b1);
    }
    TwoBits(x1, x0);
    assert InverseTransform(Two(e0, e1), 0, Two(x1, x0)) == Two(b0, b1) by {
      InverseTransformOdd(e0, e1, x1, x0);
    }
  }

  /** `T(e, 0, T_inv(e, 0, b)) == b`, bit by bit. */
  lemma OddInverseRoundTrip(e0: nat, e1: nat, b0: nat, b1: nat)
    requires e0 < 2 && e1 < 2 && b0 < 2 && b1 < 2
    ensures InverseTransform(Two(e0, e1), 0, Two(b0, b1)) < 4
    ensures Transform(Two(e0, e1), 0, InverseTransform(Two(e0, e1), 0, Two(b0, b1))) == Two(b0, b1)
  {
    BitXorTwice(b0, e1);
    BitXorTwice(b1, e0);
    var y0, y1 := BitXor(b1, e0), BitXor(b0, e1);
    assert InverseTransform(Two(e0, e1), 0, Two(b0, b1)) == Two(y0, y1) by {
      InverseTransformOdd(e0, e1, b0, b1);
    }
    TwoBits(y0, y1);
    assert Transform(Two(e0, e1), 0, Two(y0, y1)) == Two(b0, b1) by {
      TransformOdd(e0, e1, y0, y1);
    }
  }

  /** `T_inv(e, 1, T(e, 1, b)) == b`, bit by bit. */
  lemma EvenTransformRoundTrip(e0: nat, e1: nat, b0: nat, b1: nat)
    requires e0 < 2 && e1 < 2 && b0 < 2 && b1 < 2
    ensures Transform(Two(e0, e1), 1, Two(b0, b1)) < 4
    ensures InverseTransform(Two(e0, e1), 1, Transform(Two(e0, e1), 1, Two(b0, b1))) == Two(b0, b1)
  {
    BitXorTwice(b0, e0);
    BitXorTwice(b1, e1);
    var x0, x1 := BitXor(b0, e0), BitXor(b1, e1);
    assert Transform(Two(e0, e1), 1, Two(b0, b1)) == Two(x0, x1) by {
      TransformEven(e0, e1, b0, b1);
    }
    TwoBits(x0, x1);
    assert InverseTransform(Two(e0, e1), 1, Two(x0, x1)) == Two(b0, b1) by {
      InverseTransformEven(e0, e1, x0, x1);
    }
  }

  /** `T(e, 1, T_inv(e, 1, b)) == b`, bit by bit. */
  lemma EvenInverseRoundTrip(e0: nat, e1: nat, b0: nat, b1: nat)
    requires e0 < 2 && e1 < 2 && b0 < 2 && b1 < 2
    ensures InverseTransform(Two(e0, e1), 1, Two(b0, b1)) < 4
    ensures Transform(Two(e0, e1), 1, InverseTransform(Two(e0, e1), 1, Two(b0, b1))) == Two(b0, b1)
  {
    BitXorTwice(b0, e0);
    BitXorTwice(b1, e1);
    var y0, y1 := BitXor(b0, e0), BitXor(b1, e1);
    assert InverseTransform(Two(e0, e1), 1, Two(b0, b1)) == Two(y0, y1) by {
      InverseTransformEven(e0, e1, b0, b1);
    }
    TwoBits(y0, y1);
    assert Transform(Two(e0, e1), 1, Two(y0, y1)) == Two(b0, b1) by {
      TransformEven(e0, e1, y0, y1);
    }
  }

  /**
    `T_inv(e, d, T(e, d, b)) == b` and `T(e, d, T_inv(e, d, b)) == b` for
    directions 0 and 1 and two-bit e and b.
   */
  lemma TransformRoundTrips(e: nat, d: int, b: nat)
    requires e < 4 && b < 4 && (d == 0 || d == 1)
    ensures Transform(e, d, b) < 4
    ensures InverseTransform(e, d, Transform(e, d, b)) == b
    ensures InverseTransform(e, d, b) < 4
    ensures Transform(e, d, InverseTransform(e, d, b)) == b
  {
    SplitTwo(e);
    SplitTwo(b);
    if d == 0 {
      OddTransformRoundTrip(e % 2, e / 2, b % 2, b / 2);
      OddInverseRoundTrip(e % 2, e / 2, b % 2, b / 2);
    } else {
      EvenTransformRoundTrip(e % 2, e / 2, b % 2, b / 2);
      EvenInverseRoundTrip(e % 2, e / 2, b % 2, b / 2);
    }
  }
}
