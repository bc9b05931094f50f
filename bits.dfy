/**
 * Unsigned C integers as natural numbers.
 *
 * A value of an unsigned type with n digits is a natural number below 2^n.
 * The shift, bitwise and cast operators C applies to such values are written
 * out here, and every lemma about them goes through the bit view `Bit(x, i)`:
 * two numbers are equal exactly when all their bits are (`BitsEqual`).
 */
module Bits {
  /** 2 to the power n. */
  function Pow2(n: nat): (r: nat)
    ensures r >= 1
  {
    if n == 0 then 1 else 2 * Pow2(n - 1)
  }

  /** Bit i of x, counting from the least significant one: `(x >> i) & 1`. */
  predicate Bit(x: nat, i: nat)
  {
    if i == 0 then x % 2 == 1 else Bit(x / 2, i - 1)
  }

  /** `x ^ y` */
  function Xor(x: nat, y: nat): nat
    decreases x + y
  {
    if x == 0 && y == 0 then 0
    else 2 * Xor(x / 2, y / 2) + (if x % 2 == y % 2 then 0 else 1)
  }

  /** `x & y` */
  function And(x: nat, y: nat): nat
    decreases x + y
  {
    if x == 0 || y == 0 then 0
    else 2 * And(x / 2, y / 2) + (if x % 2 == 1 && y % 2 == 1 then 1 else 0)
  }

  /** `x | y` */
  function Or(x: nat, y: nat): nat
    decreases x + y
  {
    if x == 0 && y == 0 then 0
    else 2 * Or(x / 2, y / 2) + (if x % 2 == 1 || y % 2 == 1 then 1 else 0)
  }

  /** `x << k`, in a type wide enough to hold the result; `Trunc` models the narrowing. */
  function Shl(x: nat, k: nat): nat
  {
    if k == 0 then x else 2 * Shl(x, k - 1)
  }

  /** `x >> k` */
  function Shr(x: nat, k: nat): nat
  {
    if k == 0 then x else Shr(x / 2, k - 1)
  }

  /** `static_cast` of x to an unsigned type with n digits: the n low bits of x. */
  function Trunc(x: nat, n: nat): (t: nat)
    ensures t < Pow2(n)
  {
    if n == 0 then 0 else 2 * Trunc(x / 2, n - 1) + x % 2
  }

  /** x and y have the same n low bits. */
  ghost predicate Agree(x: nat, y: nat, n: nat)
  {
    forall i: nat :: i < n ==> Bit(x, i) == Bit(y, i)
  }

  lemma {:induction false} Pow2Monotone(m: nat, n: nat)
    requires m <= n
    ensures Pow2(m) <= Pow2(n)
  {
    if m < n {
      Pow2Monotone(m, n - 1);
    }
  }

  /** 2^(m + n) is 2^m times 2^n. */
  lemma {:induction false} Pow2Sum(m: nat, n: nat)
    ensures Pow2(m + n) == Pow2(m) * Pow2(n)
  {
    if n > 0 {
      Pow2Sum(m, n - 1);
    }
  }

  lemma {:induction false} ZeroBits(i: nat)
    ensures !Bit(0, i)
  {
    if i > 0 {
      ZeroBits(i - 1);
    }
  }

  /** The lowest bit of `x ^ y` and the bits above it. */
  lemma XorHalves(x: nat, y: nat)
    ensures Xor(x, y) % 2 == (if x % 2 == y % 2 then 0 else 1)
    ensures Xor(x, y) / 2 == Xor(x / 2, y / 2)
  {
  }

  lemma {:induction false} BitXor(x: nat, y: nat, i: nat)
    ensures Bit(Xor(x, y), i) == (Bit(x, i) != Bit(y, i))
  {
    XorHalves(x, y);
    if i > 0 {
      BitXor(x / 2, y / 2, i - 1);
    }
  }

  lemma {:induction false} BitAnd(x: nat, y: nat, i: nat)
    ensures Bit(And(x, y), i) == (Bit(x, i) && Bit(y, i))
  {
    if i > 0 {
      BitAnd(x / 2, y / 2, i - 1);
      if x == 0 || y == 0 {
        ZeroBits(i);
        ZeroBits(i - 1);
      }
    }
  }

  lemma {:induction false} BitOr(x: nat, y: nat, i: nat)
    ensures Bit(Or(x, y), i) == (Bit(x, i) || Bit(y, i))
  {
    if i > 0 {
      BitOr(x / 2, y / 2, i - 1);
      if x == 0 && y == 0 {
        ZeroBits(i);
      }
    }
  }

  lemma {:induction false} BitShl(x: nat, k: nat, i: nat)
    ensures Bit(Shl(x, k), i) == (k <= i && Bit(x, i - k))
  {
    if k > 0 {
      if i > 0 {
        BitShl(x, k - 1, i - 1);
      }
    }
  }

  lemma {:induction false} BitShr(x: nat, k: nat, i: nat)
    ensures Bit(Shr(x, k), i) == Bit(x, i + k)
  {
    if k > 0 {
      BitShr(x / 2, k - 1, i);
    }
  }

  lemma {:induction false} BitTrunc(x: nat, n: nat, i: nat)
    ensures Bit(Trunc(x, n), i) == (i < n && Bit(x, i))
  {
    if n == 0 {
      ZeroBits(i);
    } else if i > 0 {
      BitTrunc(x / 2, n - 1, i - 1);
    }
  }

  /** Two numbers with the same bits are equal. */
  lemma {:induction false} BitsEqual(x: nat, y: nat)
    requires forall i: nat :: Bit(x, i) == Bit(y, i)
    ensures x == y
    decreases x + y
  {
    if x != 0 || y != 0 {
      assert Bit(x, 0) == Bit(y, 0);
      forall i: nat
        ensures Bit(x / 2, i) == Bit(y / 2, i)
      {
        assert Bit(x, i + 1) == Bit(y, i + 1);
      }
      BitsEqual(x / 2, y / 2);
    }
  }

  /** A number below 2^n has no bit at position n or above. */
  lemma {:induction false} BitAbove(x: nat, n: nat, i: nat)
    requires x < Pow2(n)
    requires n <= i
    ensures !Bit(x, i)
  {
    if n == 0 {
      ZeroBits(i);
    } else {
      BitAbove(x / 2, n - 1, i - 1);
    }
  }

  /** A number with no bit at position n or above is below 2^n. */
  lemma BelowFromBits(x: nat, n: nat)
    requires forall i: nat :: n <= i ==> !Bit(x, i)
    ensures x < Pow2(n)
  {
    forall i: nat
      ensures Bit(Trunc(x, n), i) == Bit(x, i)
    {
      BitTrunc(x, n, i);
    }
    BitsEqual(Trunc(x, n), x);
  }

  lemma {:induction false} TruncOfSmall(x: nat, n: nat)
    requires x < Pow2(n)
    ensures Trunc(x, n) == x
  {
    if n > 0 {
      TruncOfSmall(x / 2, n - 1);
    }
  }

  /** Agreeing on the n low bits is having the same cast to n digits. */
  lemma AgreeTrunc(x: nat, y: nat, n: nat)
    ensures Agree(x, y, n) <==> Trunc(x, n) == Trunc(y, n)
  {
    if Agree(x, y, n) {
      forall i: nat
        ensures Bit(Trunc(x, n), i) == Bit(Trunc(y, n), i)
      {
        BitTrunc(x, n, i);
        BitTrunc(y, n, i);
      }
      BitsEqual(Trunc(x, n), Trunc(y, n));
    }
    if Trunc(x, n) == Trunc(y, n) {
      forall i: nat | i < n
        ensures Bit(x, i) == Bit(y, i)
      {
        BitTrunc(x, n, i);
        BitTrunc(y, n, i);
      }
    }
  }

  lemma {:induction false} BitPow2(n: nat, i: nat)
    ensures Bit(Pow2(n), i) == (i == n)
  {
    if n == 0 {
      if i > 0 {
        ZeroBits(i - 1);
      }
    } else if i > 0 {
      BitPow2(n - 1, i - 1);
    }
  }

  lemma {:induction false} ShlOne(k: nat)
    ensures Shl(1, k) == Pow2(k)
  {
    if k > 0 {
      ShlOne(k - 1);
    }
  }

  /** `x & (1 << k)` is non-zero exactly when bit k of x is set. */
  lemma AndBitTest(x: nat, k: nat)
    ensures (And(x, Pow2(k)) != 0) == Bit(x, k)
  {
    BitAnd(x, Pow2(k), k);
    BitPow2(k, k);
    if Bit(x, k) {
      ZeroBits(k);
    } else {
      forall i: nat
        ensures Bit(And(x, Pow2(k)), i) == Bit(0, i)
      {
        BitAnd(x, Pow2(k), i);
        BitPow2(k, i);
        ZeroBits(i);
      }
      BitsEqual(And(x, Pow2(k)), 0);
    }
  }

  /** `x & 1` is the lowest bit of x. */
  lemma AndOne(x: nat)
    ensures And(x, 1) == x % 2
  {
    if x != 0 {
      assert And(x / 2, 0) == 0;
    }
  }

  lemma XorZero(x: nat)
    ensures Xor(x, 0) == x
    ensures Xor(0, x) == x
  {
    forall i: nat
      ensures Bit(Xor(x, 0), i) == Bit(x, i) && Bit(Xor(0, x), i) == Bit(x, i)
    {
      BitXor(x, 0, i);
      BitXor(0, x, i);
      ZeroBits(i);
    }
    BitsEqual(Xor(x, 0), x);
    BitsEqual(Xor(0, x), x);
  }

  lemma XorBound(x: nat, y: nat, n: nat)
    requires x < Pow2(n) && y < Pow2(n)
    ensures Xor(x, y) < Pow2(n)
  {
    forall i: nat | n <= i
      ensures !Bit(Xor(x, y), i)
    {
      BitXor(x, y, i);
      BitAbove(x, n, i);
      BitAbove(y, n, i);
    }
    BelowFromBits(Xor(x, y), n);
  }

  /** XOR-ing the same value into two numbers keeps their agreement on the n low bits. */
  lemma XorOfAgree(x: nat, y: nat, z: nat, n: nat)
    requires Trunc(x, n) == Trunc(y, n)
    ensures Trunc(Xor(x, z), n) == Trunc(Xor(y, z), n)
  {
    AgreeTrunc(x, y, n);
    forall i: nat | i < n
      ensures Bit(Xor(x, z), i) == Bit(Xor(y, z), i)
    {
      BitXor(x, z, i);
      BitXor(y, z, i);
    }
    AgreeTrunc(Xor(x, z), Xor(y, z), n);
  }

  lemma TruncTrunc(x: nat, w: nat)
    ensures Trunc(Trunc(x, w), w) == Trunc(x, w)
  {
    TruncOfSmall(Trunc(x, w), w);
  }

  lemma XorCancel(x: nat, z: nat)
    ensures Xor(Xor(x, z), z) == x
  {
    forall i: nat
      ensures Bit(Xor(Xor(x, z), z), i) == Bit(x, i)
    {
      BitXor(Xor(x, z), z, i);
      BitXor(x, z, i);
    }
    BitsEqual(Xor(Xor(x, z), z), x);
  }

  /** XOR keeps agreement on the n low bits of both operands. */
  lemma XorOfAgreeBoth(x: nat, x': nat, y: nat, y': nat, n: nat)
    requires Trunc(x, n) == Trunc(x', n) && Trunc(y, n) == Trunc(y', n)
    ensures Trunc(Xor(x, y), n) == Trunc(Xor(x', y'), n)
  {
    AgreeTrunc(x, x', n);
    AgreeTrunc(y, y', n);
    forall i: nat | i < n
      ensures Bit(Xor(x, y), i) == Bit(Xor(x', y'), i)
    {
      BitXor(x, y, i);
      BitXor(x', y', i);
    }
    AgreeTrunc(Xor(x, y), Xor(x', y'), n);
  }

  /**
   * x splits into its n low bits and a high part whose n low bits are clear
   * and whose other bits are those of x.
   */
  lemma SplitLow(x: nat, n: nat)
    ensures Xor(Xor(x, Trunc(x, n)), Trunc(x, n)) == x
    ensures Trunc(Xor(x, Trunc(x, n)), n) == 0
    ensures forall i: nat :: n <= i ==> Bit(Xor(x, Trunc(x, n)), i) == Bit(x, i)
  {
    var lo := Trunc(x, n);
    var hi := Xor(x, lo);
    XorCancel(x, lo);
    forall i: nat
      ensures Bit(hi, i) == (n <= i && Bit(x, i))
    {
      BitXor(x, lo, i);
      BitTrunc(x, n, i);
    }
    forall i: nat | i < n
      ensures Bit(hi, i) == Bit(0, i)
    {
      ZeroBits(i);
    }
    AgreeTrunc(hi, 0, n);
    TruncOfSmall(0, n);
  }

  lemma XorComm(x: nat, y: nat)
    ensures Xor(x, y) == Xor(y, x)
  {
    forall i: nat
      ensures Bit(Xor(x, y), i) == Bit(Xor(y, x), i)
    {
      BitXor(x, y, i);
      BitXor(y, x, i);
    }
    BitsEqual(Xor(x, y), Xor(y, x));
  }
}
