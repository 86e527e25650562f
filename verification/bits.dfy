/** Bitwise exclusive-or on unbounded non-negative integers.

    The checksum loop accumulates `calculatedChecksum ^= s[i]` in a C++ `int`
    without masking; on non-negative operands that is exactly the bitwise
    exclusive-or defined here, whatever the width. */
module Bits {

  function Pow2(k: nat): (p: nat)
    ensures p >= 1
  {
    if k == 0 then 1 else 2 * Pow2(k - 1)
  }

  /** Exclusive-or computed from the lowest bit upwards. Its algebra is in the
      lemmas below. */
  function Xor(a: nat, b: nat): (r: nat)
    decreases a + b
  {
    if a == 0 then b
    else if b == 0 then a
    else 2 * Xor(a / 2, b / 2) + (a % 2 + b % 2) % 2
  }

  /** The low bit of `Xor(a, b)` is the sum of the low bits modulo two, and the
      remaining bits are the exclusive-or of the remaining bits. */
  lemma XorBits(a: nat, b: nat)
    ensures Xor(a, b) % 2 == (a % 2 + b % 2) % 2
    ensures Xor(a, b) / 2 == Xor(a / 2, b / 2)
  {
    if a == 0 {
      assert Xor(a, b) == b && Xor(a / 2, b / 2) == b / 2;
      BitIsItsOwnParity(b % 2);
    } else if b == 0 {
      assert Xor(a, b) == a && Xor(a / 2, b / 2) == a / 2;
      BitIsItsOwnParity(a % 2);
    } else {
      var hi, lo := Xor(a / 2, b / 2), (a % 2 + b % 2) % 2;
      assert Xor(a, b) == 2 * hi + lo;
      HalfAndBit(hi, lo);
    }
  }

  lemma BitIsItsOwnParity(p: nat)
    requires p < 2
    ensures p % 2 == p
  {
  }

  /** `2 * hi + lo` with a bit `lo` halves to `hi` with remainder `lo`. */
  lemma HalfAndBit(hi: nat, lo: nat)
    requires lo < 2
    ensures (2 * hi + lo) % 2 == lo && (2 * hi + lo) / 2 == hi
  {
  }

  lemma {:induction false} XorCommutes(a: nat, b: nat)
    ensures Xor(a, b) == Xor(b, a)
    decreases a + b
  {
    if a != 0 && b != 0 {
      XorCommutes(a / 2, b / 2);
    }
  }

  /** Exclusive-or with the same value twice is the identity. */
  lemma {:induction false} XorSelfInverse(a: nat, c: nat)
    ensures Xor(Xor(a, c), c) == a
    decreases a + c
  {
    var x := Xor(a, c);
    var y := Xor(x, c);
    XorBits(a, c);
    XorBits(x, c);
    if a + c != 0 {
      XorSelfInverse(a / 2, c / 2);
    }
    assert y / 2 == a / 2;
    BitTwice(a % 2, c % 2);
    SameHalves(y, a);
  }

  /** Adding the same bit twice modulo two restores the first bit. */
  lemma BitTwice(p: nat, q: nat)
    requires p < 2 && q < 2
    ensures ((p + q) % 2 + q) % 2 == p
  {
  }

  /** A number is determined by its half and its low bit. */
  lemma SameHalves(m: nat, n: nat)
    requires m / 2 == n / 2 && m % 2 == n % 2
    ensures m == n
  {
  }

  /** Exclusive-or with a fixed right operand is injective. */
  lemma XorInjectiveLeft(a: nat, b: nat, c: nat)
    requires Xor(a, c) == Xor(b, c)
    ensures a == b
  {
    XorSelfInverse(a, c);
    XorSelfInverse(b, c);
  }

  /** Exclusive-or with a fixed left operand is injective. */
  lemma XorInjectiveRight(a: nat, b: nat, c: nat)
    requires Xor(c, a) == Xor(c, b)
    ensures a == b
  {
    XorCommutes(c, a);
    XorCommutes(c, b);
    XorInjectiveLeft(a, b, c);
  }

  /** Exclusive-or never sets a bit above the width of its operands. */
  lemma {:induction false} XorBound(a: nat, b: nat, k: nat)
    requires a < Pow2(k) && b < Pow2(k)
    ensures Xor(a, b) < Pow2(k)
  {
    if k != 0 {
      XorBits(a, b);
      XorBound(a / 2, b / 2, k - 1);
    }
  }
}
