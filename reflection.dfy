/** `CRC::Reflect`: reversing the order of the low bits of a value. */
module Reflection {
  import opened Bits

  /**
   * The n low bits of v in reverse order: bit 0 of v becomes bit n - 1 and
   * the remaining n - 1 bits, v / 2, are reversed below it.
   */
  function Reflected(v: nat, n: nat): (r: nat)
    ensures r < Pow2(n)
  {
    if n == 0 then 0
    else Reflected(v / 2, n - 1) + (if v % 2 == 1 then Pow2(n - 1) else 0)
  }

  /** Adding 2^m to a number below 2^m sets bit m and nothing else. */
  lemma {:induction false} BitAddHigh(a: nat, m: nat, i: nat)
    requires a < Pow2(m)
    ensures Bit(a + Pow2(m), i) == (i == m || Bit(a, i))
  {
    if m == 0 {
      if i > 0 {
        ZeroBits(i - 1);
      }
    } else if i > 0 {
      assert (a + Pow2(m)) / 2 == a / 2 + Pow2(m - 1);
      BitAddHigh(a / 2, m - 1, i - 1);
    }
  }

  /** Bit i of the reflection is bit n - 1 - i of the value, below n. */
  lemma {:induction false} BitOfReflected(v: nat, n: nat, i: nat)
    ensures Bit(Reflected(v, n), i) == (i < n && Bit(v, n - 1 - i))
  {
    if n == 0 {
      ZeroBits(i);
    } else {
      var rest := Reflected(v / 2, n - 1);
      BitOfReflected(v / 2, n - 1, i);
      if v % 2 == 1 {
        BitAddHigh(rest, n - 1, i);
      }
      if i == n - 1 {
        BitAbove(rest, n - 1, i);
      }
    }
  }

  /** Reflecting twice with the same n gives back the n low bits. */
  lemma ReflectedTwice(v: nat, n: nat)
    ensures Reflected(Reflected(v, n), n) == Trunc(v, n)
  {
    forall i: nat
      ensures Bit(Reflected(Reflected(v, n), n), i) == Bit(Trunc(v, n), i)
    {
      BitOfReflected(Reflected(v, n), n, i);
      if i < n {
        BitOfReflected(v, n, n - 1 - i);
      }
      BitTrunc(v, n, i);
    }
    BitsEqual(Reflected(Reflected(v, n), n), Trunc(v, n));
  }

  /** Only the n low bits of the value take part in the reflection. */
  lemma ReflectedOfAgree(x: nat, y: nat, n: nat)
    requires Trunc(x, n) == Trunc(y, n)
    ensures Reflected(x, n) == Reflected(y, n)
  {
    AgreeTrunc(x, y, n);
    forall i: nat
      ensures Bit(Reflected(x, n), i) == Bit(Reflected(y, n), i)
    {
      BitOfReflected(x, n, i);
      BitOfReflected(y, n, i);
    }
    BitsEqual(Reflected(x, n), Reflected(y, n));
  }

  /** One more bit: the reflection so far moves up and bit i of v comes in below. */
  lemma HalveSum(lo: nat, h: nat)
    ensures (lo + 2 * h) / 2 == lo / 2 + h && (lo + 2 * h) % 2 == lo % 2
  {
  }

  lemma DoubleProduct(q: nat, hi: nat)
    ensures (2 * q) * hi == 2 * (q * hi)
  {
  }

  lemma ScaleSum(p: nat, a: nat, q: nat, c: bool)
    ensures p * (a + (if c then q else 0)) == p * a + (if c then p * q else 0)
  {
  }

  /** One step of `ReflectedConcat`, with the step for the upper m - 1 bits of lo given. */
  lemma ReflectedConcatStep(lo: nat, hi: nat, m: nat, n: nat)
    requires 0 < m && lo < Pow2(m)
    requires Reflected(lo / 2 + Pow2(m - 1) * hi, m - 1 + n) == Reflected(hi, n) + Pow2(n) * Reflected(lo / 2, m - 1)
    ensures Reflected(lo + Pow2(m) * hi, m + n) == Reflected(hi, n) + Pow2(n) * Reflected(lo, m)
  {
    var q := Pow2(m - 1);
    var h := q * hi;
    assert Pow2(m) == 2 * q;
    DoubleProduct(q, hi);
    HalveSum(lo, h);
    Pow2Sum(n, m - 1);
    ScaleSum(Pow2(n), Reflected(lo / 2, m - 1), q, lo % 2 == 1);
  }

  /**
   * Reflecting the m + n low bits of lo + 2^m * hi, where lo has m bits:
   * the n bits of hi reflected, with the m bits of lo reflected above them.
   */
  lemma {:induction false} ReflectedConcat(lo: nat, hi: nat, m: nat, n: nat)
    requires lo < Pow2(m)
    ensures Reflected(lo + Pow2(m) * hi, m + n) == Reflected(hi, n) + Pow2(n) * Reflected(lo, m)
    decreases m
  {
    if m > 0 {
      ReflectedConcat(lo / 2, hi, m - 1, n);
      ReflectedConcatStep(lo, hi, m, n);
    }
  }

  lemma {:induction false} ReflectedNext(v: nat, i: nat)
    ensures Reflected(v, i + 1) == 2 * Reflected(v, i) + Shr(v, i) % 2
  {
    if i > 0 {
      ReflectedNext(v / 2, i - 1);
    }
  }

  /** `(x << 1) | c` for a bit c is 2x + c. */
  lemma OrLowBit(x: nat, c: nat)
    requires c < 2
    ensures Or(Shl(x, 1), c) == 2 * x + c
  {
    forall i: nat
      ensures Bit(Or(Shl(x, 1), c), i) == Bit(2 * x + c, i)
    {
      BitOr(Shl(x, 1), c, i);
      BitShl(x, 1, i);
      if i > 0 {
        assert c / 2 == 0;
        ZeroBits(i - 1);
      }
    }
    BitsEqual(Or(Shl(x, 1), c), 2 * x + c);
  }

  /** The bits of 2a + c for a bit c: c, then the bits of a. */
  lemma BitDouble(a: nat, c: nat, i: nat)
    requires c < 2
    ensures Bit(2 * a + c, i) == (if i == 0 then c == 1 else Bit(a, i - 1))
  {
    assert (2 * a + c) / 2 == a;
  }

  /** Casting before doubling and adding a bit does not change the cast after it. */
  lemma TruncDouble(a: nat, c: nat, d: nat)
    requires c < 2
    ensures Trunc(2 * Trunc(a, d) + c, d) == Trunc(2 * a + c, d)
  {
    var x := 2 * Trunc(a, d) + c;
    var y := 2 * a + c;
    forall i: nat
      ensures Bit(Trunc(x, d), i) == Bit(Trunc(y, d), i)
    {
      BitTrunc(x, d, i);
      BitTrunc(y, d, i);
      BitDouble(Trunc(a, d), c, i);
      BitDouble(a, c, i);
      if i > 0 {
        BitTrunc(a, d, i - 1);
      }
    }
    BitsEqual(Trunc(x, d), Trunc(y, d));
  }

  lemma {:induction false} ShrBelow(x: nat, k: nat)
    ensures Shr(x, k) <= x
  {
    if k > 0 {
      ShrBelow(x / 2, k - 1);
    }
  }

  lemma {:induction false} ShrShr(x: nat, k: nat)
    ensures Shr(Shr(x, k), 1) == Shr(x, k + 1)
  {
    if k > 0 {
      ShrShr(x / 2, k - 1);
    }
  }

  /**
   * `CRC::Reflect(value, numBits)` on an unsigned type of `digits` digits:
   * numBits times, the lowest bit of `value` is shifted into `reversedValue`
   * from the right and `value` is shifted right.
   */
  method Reflect(value: nat, numBits: nat, digits: nat) returns (reversedValue: nat)
    requires value < Pow2(digits)
    ensures reversedValue == Trunc(Reflected(value, numBits), digits)
  {
    reversedValue := 0;
    var v := value;
    TruncOfSmall(0, digits);
    for i := 0 to numBits
      invariant reversedValue == Trunc(Reflected(value, i), digits)
      invariant v == Shr(value, i)
    {
      ReflectStep(value, i, digits);
      reversedValue := Trunc(Or(Shl(reversedValue, 1), And(v, 1)), digits);
      v := Trunc(Shr(v, 1), digits);
    }
  }

  /** One round of the loop of `Reflect` keeps its invariant. */
  lemma ReflectStep(value: nat, i: nat, digits: nat)
    requires value < Pow2(digits)
    ensures Trunc(Or(Shl(Trunc(Reflected(value, i), digits), 1), And(Shr(value, i), 1)), digits)
            == Trunc(Reflected(value, i + 1), digits)
    ensures Trunc(Shr(Shr(value, i), 1), digits) == Shr(value, i + 1)
  {
    var v := Shr(value, i);
    AndOne(v);
    OrLowBit(Trunc(Reflected(value, i), digits), v % 2);
    TruncDouble(Reflected(value, i), v % 2, digits);
    ReflectedNext(value, i);
    ShrShr(value, i);
    ShrBelow(value, i + 1);
    TruncOfSmall(Shr(value, i + 1), digits);
  }

  /** With numBits no more than the digits of the type, nothing is cut off. */
  lemma ReflectFits(value: nat, numBits: nat, digits: nat)
    requires numBits <= digits
    ensures Trunc(Reflected(value, numBits), digits) == Reflected(value, numBits)
  {
    Pow2Monotone(numBits, digits);
    TruncOfSmall(Reflected(value, numBits), digits);
  }
}
