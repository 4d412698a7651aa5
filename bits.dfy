/**
 * Unsigned integers as finite sets of bit positions.
 *
 * A Go `uint64` is modelled as a natural number below 2^64. Its bit `i` is the
 * `i`-th binary digit, and the bitwise operators `&` and `|` are defined digit
 * by digit. Every fact about them is proved here from that definition.
 */
module Bits {

  /** 2 to the power n: the value of `1 << n` while the shift does not overflow. */
  function Pow2(n: nat): (r: nat)
    ensures r >= 1
  {
    if n == 0 then 1 else 2 * Pow2(n - 1)
  }

  /** One more than the largest `uint64`. */
  const Uint64Limit: nat := 0x1_0000_0000_0000_0000

  /** Go's `uint64`. */
  type Uint64 = x: nat | x < Uint64Limit

  /** Bit `i` of `x` is set: in Go, `x & (1 << i) != 0`. */
  predicate Has(x: nat, i: nat)
    decreases i
  {
    if i == 0 then x % 2 == 1 else Has(x / 2, i - 1)
  }

  /** Go's `a & b`: bit `i` of the result is set exactly when it is set in both. */
  function And(a: nat, b: nat): (r: nat)
    ensures r <= a && r <= b
    ensures forall i: nat :: Has(r, i) <==> Has(a, i) && Has(b, i)
    decreases a
  {
    if a == 0 || b == 0 then
      NoBitsInZero();
      0
    else
      2 * And(a / 2, b / 2) + (if a % 2 == 1 && b % 2 == 1 then 1 else 0)
  }

  /** Go's `a | b`: bit `i` of the result is set exactly when it is set in either. */
  function Or(a: nat, b: nat): (r: nat)
    ensures r >= a && r >= b
    ensures forall i: nat :: Has(r, i) <==> Has(a, i) || Has(b, i)
    decreases a + b
  {
    if a == 0 then
      NoBitsInZero();
      b
    else if b == 0 then
      NoBitsInZero();
      a
    else
      2 * Or(a / 2, b / 2) + (if a % 2 == 1 || b % 2 == 1 then 1 else 0)
  }

  /** Zero has no bit set. */
  lemma {:induction false} NoBitsInZero()
    ensures forall i: nat :: !Has(0, i)
  {
    forall i: nat ensures !Has(0, i) {
      ZeroBit(i);
    }
  }

  lemma {:induction false} ZeroBit(i: nat)
    ensures !Has(0, i)
  {
    if i > 0 {
      ZeroBit(i - 1);
    }
  }

  /** A number is determined by its bits. */
  lemma {:induction false} SameBits(a: nat, b: nat)
    requires forall i: nat :: Has(a, i) == Has(b, i)
    ensures a == b
    decreases a + b
  {
    if a != 0 || b != 0 {
      assert Has(a, 0) == Has(b, 0);
      forall i: nat ensures Has(a / 2, i) == Has(b / 2, i) {
        assert Has(a, i + 1) == Has(b, i + 1);
      }
      SameBits(a / 2, b / 2);
    }
  }

  /** A number other than zero has a bit set. */
  lemma {:induction false} NonZeroHasBit(x: nat)
    requires x != 0
    ensures exists i: nat :: Has(x, i)
  {
    if forall i: nat :: !Has(x, i) {
      NoBitsInZero();
      SameBits(x, 0);
    }
  }

  /** Two different numbers differ in some bit. */
  lemma {:induction false} DifferingBit(x: nat, y: nat)
    requires x != y
    ensures exists i: nat :: Has(x, i) != Has(y, i)
  {
    if forall i: nat :: Has(x, i) == Has(y, i) {
      SameBits(x, y);
    }
  }

  /** `1 << n` has exactly bit `n` set. */
  lemma {:induction false} Pow2Bits(n: nat)
    ensures forall i: nat :: Has(Pow2(n), i) <==> i == n
  {
    forall i: nat ensures Has(Pow2(n), i) <==> i == n {
      Pow2Bit(n, i);
    }
  }

  lemma {:induction false} Pow2Bit(n: nat, i: nat)
    ensures Has(Pow2(n), i) <==> i == n
  {
    if n == 0 {
      if i > 0 {
        ZeroBit(i - 1);
      }
    } else if i > 0 {
      Pow2Bit(n - 1, i - 1);
    }
  }

  /** `(1 << n) - 1`. */
  function LowMask(n: nat): (m: nat)
  {
    Pow2(n) - 1
  }

  /** `(1 << n) - 1` has exactly the bits below `n` set. */
  lemma {:induction false} LowMaskBits(n: nat)
    ensures forall i: nat :: Has(LowMask(n), i) <==> i < n
  {
    forall i: nat ensures Has(LowMask(n), i) <==> i < n {
      LowMaskBit(n, i);
    }
  }

  lemma {:induction false} LowMaskBit(n: nat, i: nat)
    ensures Has(LowMask(n), i) <==> i < n
  {
    if n == 0 {
      ZeroBit(i);
    } else if i > 0 {
      LowMaskBit(n - 1, i - 1);
    }
  }

  /** A number below `1 << n` has no bit at `n` or above. */
  lemma {:induction false} BelowPow2HasNoHighBits(x: nat, n: nat)
    requires x < Pow2(n)
    ensures forall i: nat :: n <= i ==> !Has(x, i)
  {
    if n == 0 {
      NoBitsInZero();
    } else {
      BelowPow2HasNoHighBits(x / 2, n - 1);
      forall i: nat | n <= i ensures !Has(x, i) {
        assert Has(x, i) == Has(x / 2, i - 1);
      }
    }
  }

  /** A number with no bit at `n` or above is below `1 << n`. */
  lemma {:induction false} NoHighBitsBelowPow2(x: nat, n: nat)
    requires forall i: nat :: n <= i ==> !Has(x, i)
    ensures x < Pow2(n)
  {
    if n == 0 {
      if x != 0 {
        NonZeroHasBit(x);
      }
    } else {
      forall i: nat | n - 1 <= i ensures !Has(x / 2, i) {
        assert Has(x, i + 1) == Has(x / 2, i);
      }
      NoHighBitsBelowPow2(x / 2, n - 1);
    }
  }

  lemma {:induction false} Pow2Add(m: nat, n: nat)
    ensures Pow2(m + n) == Pow2(m) * Pow2(n)
  {
    if m > 0 {
      Pow2Add(m - 1, n);
    }
  }

  lemma Pow2Is64()
    ensures Pow2(64) == Uint64Limit
  {
    assert Pow2(8) == 0x100;
    Pow2Add(8, 8);
    assert Pow2(16) == 0x1_0000;
    Pow2Add(16, 16);
    assert Pow2(32) == 0x1_0000_0000;
    Pow2Add(32, 32);
  }

  /** A `uint64` has no bit at position 64 or above. */
  lemma Uint64Bits(x: Uint64)
    ensures forall i: nat :: 64 <= i ==> !Has(x, i)
  {
    Pow2Is64();
    BelowPow2HasNoHighBits(x, 64);
  }

  /** `|` of two `uint64` values is again a `uint64`. */
  lemma OrUint64(a: Uint64, b: Uint64)
    ensures Or(a, b) < Uint64Limit
  {
    Uint64Bits(a);
    Uint64Bits(b);
    Pow2Is64();
    NoHighBitsBelowPow2(Or(a, b), 64);
  }
}
