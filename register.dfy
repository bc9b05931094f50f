/**
 * What one round of the inner loop does to each bit of the register, and
 * what follows: the rounds are linear over XOR, a left-shifting register
 * keeps its low bits to itself, a right-shifting one shrinks, and bits that
 * the test never sees pass through unchanged.
 */
module RegisterFacts {
  import opened Bits
  import opened Reflection
  import opened Engine

  /**
   * Bit i after one round: shifting right, bit i + 1 moves down and the
   * polynomial is XORed in when bit 0 was set; shifting left, bit i - 1 moves
   * up and the polynomial is XORed in when bit `top` was set. Nothing
   * survives at or above the digits of the register.
   */
  lemma BitOfShift(g: Register, r: nat, i: nat)
    ensures Bit(Shift(g, r), i) ==
      (i < g.digits &&
       if g.reflected then Bit(r, i + 1) != (Bit(r, 0) && Bit(g.poly, i))
       else (i > 0 && Bit(r, i - 1)) != (Bit(r, g.top) && Bit(g.poly, i)))
  {
    if g.reflected {
      var v := if And(r, 1) != 0 then Xor(Shr(r, 1), g.poly) else Shr(r, 1);
      AndOne(r);
      BitTrunc(v, g.digits, i);
      BitXor(Shr(r, 1), g.poly, i);
      BitShr(r, 1, i);
    } else {
      var v := if And(r, Shl(1, g.top)) != 0 then Xor(Shl(r, 1), g.poly) else Shl(r, 1);
      ShlOne(g.top);
      AndBitTest(r, g.top);
      BitTrunc(v, g.digits, i);
      BitXor(Shl(r, 1), g.poly, i);
      BitShl(r, 1, i);
    }
  }

  /** A round maps the XOR of two registers to the XOR of their rounds. */
  lemma ShiftXor(g: Register, x: nat, y: nat)
    ensures Shift(g, Xor(x, y)) == Xor(Shift(g, x), Shift(g, y))
  {
    forall i: nat
      ensures Bit(Shift(g, Xor(x, y)), i) == Bit(Xor(Shift(g, x), Shift(g, y)), i)
    {
      BitOfShift(g, Xor(x, y), i);
      BitOfShift(g, x, i);
      BitOfShift(g, y, i);
      BitXor(Shift(g, x), Shift(g, y), i);
      BitXor(x, y, i + 1);
      BitXor(x, y, 0);
      BitXor(x, y, g.top);
      if i > 0 {
        BitXor(x, y, i - 1);
      }
    }
    BitsEqual(Shift(g, Xor(x, y)), Xor(Shift(g, x), Shift(g, y)));
  }

  lemma {:induction false} ShiftsXor(g: Register, n: nat, x: nat, y: nat)
    ensures Shifts(g, n, Xor(x, y)) == Xor(Shifts(g, n, x), Shifts(g, n, y))
  {
    if n > 0 {
      ShiftsXor(g, n - 1, x, y);
      ShiftXor(g, Shifts(g, n - 1, x), Shifts(g, n - 1, y));
    }
  }

  /**
   * Shifting left, the n low bits of the register after a round depend
   * only on its n low bits, when the examined bit is one of them.
   */
  lemma ShiftAgree(g: Register, x: nat, y: nat, n: nat)
    requires !g.reflected && g.top < n
    requires Trunc(x, n) == Trunc(y, n)
    ensures Trunc(Shift(g, x), n) == Trunc(Shift(g, y), n)
  {
    AgreeTrunc(x, y, n);
    forall i: nat | i < n
      ensures Bit(Shift(g, x), i) == Bit(Shift(g, y), i)
    {
      BitOfShift(g, x, i);
      BitOfShift(g, y, i);
    }
    AgreeTrunc(Shift(g, x), Shift(g, y), n);
  }

  lemma {:induction false} ShiftsAgree(g: Register, k: nat, x: nat, y: nat, n: nat)
    requires !g.reflected && g.top < n
    requires Trunc(x, n) == Trunc(y, n)
    ensures Trunc(Shifts(g, k, x), n) == Trunc(Shifts(g, k, y), n)
  {
    if k > 0 {
      ShiftsAgree(g, k - 1, x, y, n);
      ShiftAgree(g, Shifts(g, k - 1, x), Shifts(g, k - 1, y), n);
    }
  }

  /** Casting to a type with at least n digits keeps the n low bits. */
  lemma TruncNarrower(x: nat, n: nat, d: nat)
    requires n <= d
    ensures Trunc(Trunc(x, d), n) == Trunc(x, n)
  {
    AgreeTrunc(Trunc(x, d), x, n) by {
      forall i: nat | i < n
        ensures Bit(Trunc(x, d), i) == Bit(x, i)
      {
        BitTrunc(x, d, i);
      }
    }
  }

  /** Shifting left, a byte keeps two registers that agree on the n low bits in agreement. */
  lemma FeedAgree(g: Register, x: nat, y: nat, b: Byte, n: nat)
    requires !g.reflected && g.top < n <= g.digits
    requires Trunc(x, n) == Trunc(y, n)
    ensures Trunc(Feed(g, x, b), n) == Trunc(Feed(g, y, b), n)
  {
    var fx := Trunc(Xor(x, Shl(b, g.feedAt)), g.digits);
    var fy := Trunc(Xor(y, Shl(b, g.feedAt)), g.digits);
    XorOfAgree(x, y, Shl(b, g.feedAt), n);
    TruncNarrower(Xor(x, Shl(b, g.feedAt)), n, g.digits);
    TruncNarrower(Xor(y, Shl(b, g.feedAt)), n, g.digits);
    ShiftsAgree(g, 8, fx, fy, n);
  }

  lemma {:induction false} RunAgree(g: Register, data: seq<Byte>, x: nat, y: nat, n: nat)
    requires !g.reflected && g.top < n <= g.digits
    requires Trunc(x, n) == Trunc(y, n)
    ensures Trunc(Run(g, data, x), n) == Trunc(Run(g, data, y), n)
    decreases |data|
  {
    if |data| > 0 {
      var front := data[..|data| - 1];
      RunAgree(g, front, x, y, n);
      FeedAgree(g, Run(g, front, x), Run(g, front, y), data[|data| - 1], n);
    }
  }

  /** Running over a concatenation is running over each part in turn. */
  lemma {:induction false} RunAppend(g: Register, a: seq<Byte>, b: seq<Byte>, r: nat)
    ensures Run(g, a + b, r) == Run(g, b, Run(g, a, r))
    decreases |b|
  {
    if |b| == 0 {
      assert a + b == a;
    } else {
      assert (a + b)[..|a + b| - 1] == a + b[..|b| - 1];
      RunAppend(g, a, b[..|b| - 1], r);
    }
  }

  /**
   * Shifting right with a polynomial of m bits, a register below 2^(m + 1)
   * is below 2^m after a round.
   */
  lemma ShiftShrinks(g: Register, x: nat, m: nat)
    requires g.reflected && g.poly < Pow2(m)
    requires x < Pow2(m + 1)
    ensures Shift(g, x) < Pow2(m)
  {
    forall i: nat | m <= i
      ensures !Bit(Shift(g, x), i)
    {
      BitOfShift(g, x, i);
      BitAbove(x, m + 1, i + 1);
      BitAbove(g.poly, m, i);
    }
    BelowFromBits(Shift(g, x), m);
  }

  lemma {:induction false} ShiftsShrink(g: Register, n: nat, x: nat, m: nat)
    requires g.reflected && g.poly < Pow2(m)
    requires x < Pow2(m + n)
    ensures Shifts(g, n, x) < Pow2(m)
  {
    if n > 0 {
      Pow2Monotone(m, m + 1);
      ShiftsShrink(g, n - 1, x, m + 1);
      ShiftShrinks(g, Shifts(g, n - 1, x), m);
    }
  }

  /**
   * Shifting right, a register whose m low bits are clear is only shifted
   * during the first m rounds: the examined bit is never set.
   */
  lemma {:induction false} ShiftsOfHigh(g: Register, k: nat, x: nat, m: nat)
    requires g.reflected && x < Pow2(g.digits)
    requires k <= m && Trunc(x, m) == 0
    ensures Shifts(g, k, x) == Shr(x, k)
  {
    if k > 0 {
      ShiftsOfHigh(g, k - 1, x, m);
      var y := Shr(x, k - 1);
      assert !Bit(y, 0) by {
        BitShr(x, k - 1, 0);
        BitTrunc(x, m, k - 1);
        ZeroBits(k - 1);
      }
      PlainShift(g, y);
      ShrShr(x, k - 1);
      ShrBelow(x, k);
      TruncOfSmall(Shr(x, k), g.digits);
    }
  }

  /** A round whose examined bit is clear only shifts. */
  lemma PlainShift(g: Register, y: nat)
    requires !Bit(y, if g.reflected then 0 else g.top)
    ensures Shift(g, y) == Trunc(if g.reflected then Shr(y, 1) else Shl(y, 1), g.digits)
  {
    if g.reflected {
      AndOne(y);
    } else {
      ShlOne(g.top);
      AndBitTest(y, g.top);
    }
  }

  lemma {:induction false} ShlBound(x: nat, m: nat, k: nat)
    requires x < Pow2(m)
    ensures Shl(x, k) < Pow2(m + k)
  {
    if k > 0 {
      ShlBound(x, m, k - 1);
    }
  }

  /**
   * Shifting left, a register below 2^m is only shifted during k rounds when
   * m + k bits stay at or below the examined bit.
   */
  lemma {:induction false} ShiftsOfLow(g: Register, k: nat, x: nat, m: nat)
    requires !g.reflected && g.top < g.digits
    requires x < Pow2(m) && m + k <= g.top + 1
    ensures Shifts(g, k, x) == Shl(x, k)
  {
    if k > 0 {
      ShiftsOfLow(g, k - 1, x, m);
      var y := Shl(x, k - 1);
      assert !Bit(y, g.top) by {
        ShlBound(x, m, k - 1);
        Pow2Monotone(m + k - 1, g.top);
        BitAbove(y, m + k - 1, g.top);
      }
      PlainShift(g, y);
      assert Shl(y, 1) == Shl(x, k);
      assert Shl(x, k) < Pow2(g.digits) by {
        ShlBound(x, m, k);
        Pow2Monotone(m + k, g.digits);
      }
      TruncOfSmall(Shl(x, k), g.digits);
    }
  }

  /**
   * Shifting left with a polynomial whose m low bits are clear, the rounds
   * clear the low bits of the register one by one.
   */
  lemma {:induction false} ShiftsClearLow(g: Register, k: nat, x: nat, m: nat)
    requires !g.reflected
    requires Trunc(g.poly, m) == 0
    ensures forall i: nat :: i < k && i < m ==> !Bit(Shifts(g, k, x), i)
  {
    if k > 0 {
      ShiftsClearLow(g, k - 1, x, m);
      var y := Shifts(g, k - 1, x);
      forall i: nat | i < k && i < m
        ensures !Bit(Shift(g, y), i)
      {
        BitOfShift(g, y, i);
        BitTrunc(g.poly, m, i);
        ZeroBits(i);
      }
    }
  }

  /**
   * The round as written when branches are compiled out: the examined bit,
   * moved down to bit 0 and masked, multiplies the polynomial instead of
   * choosing whether to XOR it in.
   */
  function BranchlessShift(g: Register, r: nat): nat
  {
    if g.reflected then
      Trunc(Xor(Shr(r, 1), And(r, 1) * g.poly), g.digits)
    else
      Trunc(Xor(Shl(r, 1), And(Shr(r, g.top), 1) * g.poly), g.digits)
  }

  /** The branchless round computes the same register as the branching one. */
  lemma BranchlessShiftIs(g: Register, r: nat)
    ensures BranchlessShift(g, r) == Shift(g, r)
  {
    AndOne(r);
    if g.reflected {
      if And(r, 1) == 0 {
        XorZero(Shr(r, 1));
      }
    } else {
      var t := Shr(r, g.top);
      AndOne(t);
      BitShr(r, g.top, 0);
      ShlOne(g.top);
      AndBitTest(r, g.top);
      if And(t, 1) == 0 {
        XorZero(Shl(r, 1));
      }
    }
  }
}
