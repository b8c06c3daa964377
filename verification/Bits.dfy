/**
  Bitwise operations on unbounded non-negative integers, as Python's
  `int` provides them, together with the division and remainder facts the
  Hilbert-curve and HEALPix proofs need.

  `Shr`, `Shl` and `BitComponent` are the shifts and single-bit selection
  `x >> k`, `x << k` and `(x & 2**i) >> i`; `Xor` and `Or` are `^` and `|`
  defined bit by bit, least significant bit first.
 */
module Bits {

  /** 2 to the power k. */
  function Pow2(k: nat): (r: nat)
    ensures r >= 1
  {
    if k == 0 then 1 else 2 * Pow2(k - 1)
  }

  /** `x >> k` */
  function Shr(x: nat, k: nat): (r: nat)
  {
    DivNonNegative(x, Pow2(k));
    x / Pow2(k)
  }

  /** `x << k` */
  function Shl(x: nat, k: nat): (r: nat)
  {
    x * Pow2(k)
  }

  /** `x & (2**k - 1)`: the k low bits of x. */
  function Mask(x: nat, k: nat): (r: nat)
  {
    x % Pow2(k)
  }

  /** `(x & 2**i) >> i`: bit i of x. */
  function BitComponent(x: nat, i: nat): (r: nat)
  {
    (x / Pow2(i)) % 2
  }

  /** `a ^ b` */
  function Xor(a: nat, b: nat): (r: nat)
    decreases a + b
  {
    if a == 0 && b == 0 then 0
    else (a % 2 + b % 2) % 2 + 2 * Xor(a / 2, b / 2)
  }

  /** `a | b` */
  function Or(a: nat, b: nat): (r: nat)
    decreases a + b
  {
    if a == 0 && b == 0 then 0
    else (if a % 2 == 1 || b % 2 == 1 then 1 else 0) + 2 * Or(a / 2, b / 2)
  }

  /** True when x is 2 to some power. */
  predicate IsPow2(x: nat)
    decreases x
  {
    x == 1 || (x > 1 && x % 2 == 0 && IsPow2(x / 2))
  }

  /** Floor of the base-2 logarithm of x (0 for x <= 1). */
  function Log2(x: nat): (r: nat)
    decreases x
  {
    if x <= 1 then 0 else 1 + Log2(x / 2)
  }

  // ---------------------------------------------------------------------
  // Powers of two

  lemma {:induction false} Pow2Add(a: nat, b: nat)
    ensures Pow2(a + b) == Pow2(a) * Pow2(b)
  {
    if a > 0 {
      Pow2Add(a - 1, b);
      assert Pow2(a + b) == 2 * Pow2(a - 1 + b);
    }
  }

  /** The logarithm of a power of two is exact. */
  lemma {:induction false} Log2Exact(x: nat)
    requires IsPow2(x)
    ensures Pow2(Log2(x)) == x
  {
    if x > 1 {
      Log2Exact(x / 2);
    }
  }

  // ---------------------------------------------------------------------
  // Division and remainder

  /** Dividing a natural number by a positive one gives a natural number. */
  lemma DivNonNegative(x: nat, d: nat)
    requires d > 0
    ensures x / d >= 0
  {
  }

  lemma MulGrows(a: nat, b: nat)
    requires b >= 1
    ensures a <= a * b
  {
  }

  lemma MulMonotone(a: nat, b: nat, c: nat)
    requires a <= b
    ensures a * c <= b * c
  {
  }

  /** The quotient and remainder are unique. */
  lemma DivModUnique(x: int, d: int, q: int, r: int)
    requires d > 0 && x == d * q + r && 0 <= r < d
    ensures x / d == q && x % d == r
  {
    var q' := x / d;
    var r' := x % d;
    assert d * q' + r' == d * q + r;
    if q' < q {
      assert d * (q - q') == r' - r;
      MulGrows(d, q - q');
      assert false;
    } else if q' > q {
      assert d * (q' - q) == r - r';
      MulGrows(d, q' - q);
      assert false;
    }
  }

  lemma DivModOfSum(a: nat, d: nat, r: nat)
    requires 0 <= r < d
    ensures (a * d + r) / d == a && (a * d + r) % d == r
  {
    DivModUnique(a * d + r, d, a, r);
  }

  /** A number between a*d and (a+1)*d has quotient a. */
  lemma DivBetween(x: nat, d: nat, a: nat)
    requires d > 0 && a * d <= x < (a + 1) * d
    ensures x / d == a
  {
    DivModUnique(x, d, a, x - a * d);
  }

  lemma DivDiv(x: nat, a: nat, b: nat)
    requires a > 0 && b > 0
    ensures x / a / b == x / (a * b)
  {
    var q := x / a;
    var r := x % a;
    var q2 := q / b;
    var r2 := q % b;
    assert x == a * q + r;
    assert q == b * q2 + r2;
    assert x == (a * b) * q2 + (a * r2 + r);
    MulMonotone(r2, b - 1, a);
    assert a * r2 + r < a * b;
    DivModUnique(x, a * b, q2, a * r2 + r);
  }

  lemma ShrShr(x: nat, a: nat, b: nat)
    ensures Shr(Shr(x, a), b) == Shr(x, a + b)
  {
    Pow2Add(a, b);
    DivDiv(x, Pow2(a), Pow2(b));
  }

  /** The low i + 1 bits are the low i bits plus bit i. */
  lemma {:induction false} ModPow2Split(x: nat, i: nat)
    ensures x % Pow2(i + 1) == x % Pow2(i) + BitComponent(x, i) * Pow2(i)
  {
    var p := Pow2(i);
    var q := x / p;
    assert x == p * q + x % p;
    assert q == 2 * (q / 2) + q % 2;
    assert x == (2 * p) * (q / 2) + (x % p + (q % 2) * p);
    DivModUnique(x, 2 * p, q / 2, x % p + (q % 2) * p);
  }

  lemma BitComponentBound(x: nat, i: nat)
    ensures BitComponent(x, i) < 2
  {
  }

  // ---------------------------------------------------------------------
  // Exclusive or

  /** The recursive step of `Xor` also holds when both arguments are 0. */
  lemma XorUnfold(a: nat, b: nat)
    ensures Xor(a, b) == (a % 2 + b % 2) % 2 + 2 * Xor(a / 2, b / 2)
  {
  }

  lemma {:induction false} XorSelf(a: nat)
    ensures Xor(a, a) == 0
  {
    if a > 0 {
      XorSelf(a / 2);
    }
  }

  /** Xor of two numbers below 4, bit by bit. */
  lemma Xor2(a: nat, b: nat)
    requires a < 4 && b < 4
    ensures Xor(a, b) == (a % 2 + b % 2) % 2 + 2 * ((a / 2 + b / 2) % 2)
  {
    XorUnfold(a, b);
    XorUnfold(a / 2, b / 2);
  }

  // ---------------------------------------------------------------------
  // Inclusive or

  lemma {:induction false} OrZero(b: nat)
    ensures Or(0, b) == b && Or(b, 0) == b
  {
    if b > 0 {
      OrZero(b / 2);
    }
  }

  /**
    Or of a value below 2^k and a multiple of 2^k is their sum, in either
    argument order.
   */
  lemma {:induction false} OrDisjoint(a: nat, c: nat, k: nat)
    requires a < Pow2(k)
    ensures Or(a, c * Pow2(k)) == a + c * Pow2(k)
    ensures Or(c * Pow2(k), a) == a + c * Pow2(k)
  {
    if k == 0 {
      OrZero(c * Pow2(k));
    } else {
      var m := c * Pow2(k - 1);
      assert c * Pow2(k) == 2 * m;
      OrDisjoint(a / 2, c, k - 1);
      if a == 0 && m == 0 {
      } else {
        assert Or(a, 2 * m) == a % 2 + 2 * Or(a / 2, m);
        assert Or(2 * m, a) == a % 2 + 2 * Or(m, a / 2);
      }
    }
  }
}
