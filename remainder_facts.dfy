/**
 * How raw remainders compose: on the W bits that reach the checksum, the
 * remainder depends only on the W low bits of its start (exactly on the
 * start when the input is reflected), feeding two blocks is feeding their
 * concatenation, and eight bits through `CalculateRemainderBits` are one
 * byte through `CalculateRemainder`.
 */
module RemainderFacts {
  import opened Bits
  import opened CrcParameters
  import opened Engine
  import opened RegisterFacts
  import opened TableAgreement

  /** Shifting up by k carries agreement on n bits to agreement on n + k bits. */
  lemma ShlAgree(x: nat, y: nat, k: nat, n: nat)
    requires Trunc(x, n) == Trunc(y, n)
    ensures Trunc(Shl(x, k), n + k) == Trunc(Shl(y, k), n + k)
  {
    AgreeTrunc(x, y, n);
    forall i: nat | i < n + k
      ensures Bit(Shl(x, k), i) == Bit(Shl(y, k), i)
    {
      BitShl(x, k, i);
      BitShl(y, k, i);
    }
    AgreeTrunc(Shl(x, k), Shl(y, k), n + k);
  }

  /** Narrow input: starts that agree on W bits agree on 8 bits once shifted up. */
  lemma EnterAgree(p: Parameters, x: nat, y: nat)
    requires p.Valid() && p.Narrow()
    requires Trunc(x, p.width) == Trunc(y, p.width)
    ensures Trunc(Enter(p, x), 8) == Trunc(Enter(p, y), 8)
  {
    var sh := 8 - p.width;
    StorageHoldsByte(p);
    ShlAgree(x, y, sh, p.width);
    TruncNarrower(Shl(x, sh), 8, p.S());
    TruncNarrower(Shl(y, sh), 8, p.S());
  }

  /** Narrow input: shifting up and back down keeps the W low bits. */
  lemma LeaveEnter(p: Parameters, r: nat)
    requires p.Valid() && p.Narrow()
    ensures Trunc(Leave(p, Enter(p, r)), p.width) == Trunc(r, p.width)
  {
    var sh := 8 - p.width;
    var up := Trunc(Shl(r, sh), p.S());
    StorageHoldsByte(p);
    forall i: nat | i < p.width
      ensures Bit(Trunc(Shr(up, sh), p.S()), i) == Bit(r, i)
    {
      BitTrunc(Shr(up, sh), p.S(), i);
      BitShr(up, sh, i);
      BitTrunc(Shl(r, sh), p.S(), i + sh);
      BitShl(r, sh, i + sh);
    }
    AgreeTrunc(Trunc(Shr(up, sh), p.S()), r, p.width);
  }

  /**
   * On the W bits that reach the checksum, the remainder depends only on the
   * W low bits of its start; with reflected input the start is used whole.
   */
  lemma RemainderAgree(p: Parameters, data: seq<Byte>, x: nat, y: nat)
    requires p.Valid()
    requires Trunc(x, p.width) == Trunc(y, p.width)
    requires p.reflectInput ==> x == y
    ensures Trunc(Remainder(p, data, x), p.width) == Trunc(Remainder(p, data, y), p.width)
  {
    var g := RegisterOf(p);
    if p.reflectInput {
    } else if p.width >= 8 {
      ForwardRegister(p);
      RunAgree(g, data, x, y, p.width);
    } else {
      NarrowRegister(p);
      StorageHoldsByte(p);
      EnterAgree(p, x, y);
      RunAgree(g, data, Enter(p, x), Enter(p, y), 8);
      LeaveAgree(p, Run(g, data, Enter(p, x)), Run(g, data, Enter(p, y)));
    }
  }

  /**
   * Narrow input: the 8 - W low bits of the register are clear, on entry
   * (the start is shifted up) and after every byte (the shifted-up
   * polynomial has them clear).
   */
  lemma LowBitsClear(p: Parameters, data: seq<Byte>, r: nat)
    requires p.Valid() && p.Narrow()
    ensures forall i: nat :: i < 8 - p.width ==> !Bit(Run(RegisterOf(p), data, Enter(p, r)), i)
  {
    var sh := 8 - p.width;
    var g := RegisterOf(p);
    if |data| == 0 {
      forall i: nat | i < sh
        ensures !Bit(Enter(p, r), i)
      {
        BitTrunc(Shl(r, sh), p.S(), i);
        BitShl(r, sh, i);
      }
    } else {
      var last := data[|data| - 1];
      var before := Run(g, data[..|data| - 1], Enter(p, r));
      ShiftedPolyLow(p);
      NarrowRegister(p);
      ShiftsClearLow(g, 8, Trunc(Xor(before, Shl(last, g.feedAt)), g.digits), sh);
    }
  }

  /**
   * Narrow input: leaving and re-entering a register of the storage type
   * whose 8 - W low bits are clear gives it back unchanged.
   */
  lemma Reenter(p: Parameters, x: nat)
    requires p.Valid() && p.Narrow() && x < Pow2(p.S())
    requires forall i: nat :: i < 8 - p.width ==> !Bit(x, i)
    ensures Enter(p, Leave(p, x)) == x
  {
    var sh, s := 8 - p.width, p.S();
    var up := Trunc(Shl(Trunc(Shr(x, sh), s), sh), s);
    forall i: nat
      ensures Bit(up, i) == Bit(x, i)
    {
      if i < s {
        ReenterBit(x, sh, s, i);
      } else {
        BitTrunc(Shl(Trunc(Shr(x, sh), s), sh), s, i);
        BitAbove(x, s, i);
      }
    }
    BitsEqual(up, x);
  }

  /** Bit i, at or above sh, survives a shift down by sh and back up within s digits. */
  lemma ReenterBit(x: nat, sh: nat, s: nat, i: nat)
    requires i < s
    requires i < sh ==> !Bit(x, i)
    ensures Bit(Trunc(Shl(Trunc(Shr(x, sh), s), sh), s), i) == Bit(x, i)
  {
    var down := Trunc(Shr(x, sh), s);
    BitTrunc(Shl(down, sh), s, i);
    BitShl(down, sh, i);
    if sh <= i {
      BitTrunc(Shr(x, sh), s, i - sh);
      BitShr(x, sh, i - sh);
    }
  }

  /**
   * Feeding a then b is feeding a + b, in every regime: in the narrow one the
   * register leaves and re-enters between the blocks without losing a bit.
   */
  lemma RemainderConcat(p: Parameters, a: seq<Byte>, b: seq<Byte>, r: nat)
    requires p.Valid()
    ensures Remainder(p, b, Remainder(p, a, r)) == Remainder(p, a + b, r)
  {
    var g := RegisterOf(p);
    RunAppend(g, a, b, Enter(p, r));
    if p.Narrow() {
      var x := Run(g, a, Enter(p, r));
      LowBitsClear(p, a, r);
      NarrowRegister(p);
      RunBelow(g, a, Enter(p, r));
      Reenter(p, x);
    }
  }

  /** Cutting a value to n bits keeps it below any bound it was below. */
  lemma TruncBelow(x: nat, n: nat, m: nat)
    requires x < Pow2(m)
    ensures Trunc(x, n) < Pow2(m)
  {
    forall i: nat | m <= i
      ensures !Bit(Trunc(x, n), i)
    {
      BitTrunc(x, n, i);
      BitAbove(x, m, i);
    }
    BelowFromBits(Trunc(x, n), m);
  }

  /** A byte XORed into a register below 2^w, cast to d digits, stays below 2^w. */
  lemma FedBelow(r: nat, b: Byte, d: nat, w: nat)
    requires r < Pow2(w)
    ensures Trunc(Xor(r, b), d) < Pow2(w + 8)
  {
    Pow2Monotone(w, w + 8);
    ByteBelow(b, w + 8);
    XorBound(r, b, w + 8);
    TruncBelow(Xor(r, b), d, w + 8);
  }

  /** A right-shifting register fed at bit 0 stays below 2^w when its polynomial does. */
  lemma RightShiftingFeedBelow(g: Register, r: nat, b: Byte, w: nat)
    requires g.reflected && g.feedAt == 0 && g.poly < Pow2(w) && r < Pow2(w)
    ensures Feed(g, r, b) < Pow2(w)
  {
    assert Shl(b, 0) == b;
    var x := Trunc(Xor(r, b), g.digits);
    FedBelow(r, b, g.digits, w);
    ShiftsShrink(g, 8, x, w);
  }

  /** Reflected input: a start below 2^W gives a remainder below 2^W. */
  lemma {:induction false} ReflectedRunBelow(p: Parameters, data: seq<Byte>, r: nat)
    requires p.Valid() && p.reflectInput && r < Pow2(p.width)
    ensures Run(RegisterOf(p), data, r) < Pow2(p.width)
  {
    if |data| > 0 {
      ReflectedRunBelow(p, data[..|data| - 1], r);
      ReflectedRegister(p);
      RightShiftingFeedBelow(RegisterOf(p), Run(RegisterOf(p), data[..|data| - 1], r), data[|data| - 1], p.width);
    }
  }

  /** The reflected branch of `CalculateRemainderBits`. */
  lemma ReflectedPartial(p: Parameters, b: Byte, numBits: nat, r: nat)
    requires p.Valid() && p.reflectInput
    ensures PartialRemainder(p, b, numBits, r) == Shifts(RegisterOf(p), numBits, Trunc(Xor(r, b), p.S()))
  {
  }

  /** The forward branch of `CalculateRemainderBits` for W >= 8. */
  lemma ForwardPartial(p: Parameters, b: Byte, numBits: nat, r: nat)
    requires p.Valid() && !p.reflectInput && p.width >= 8
    ensures PartialRemainder(p, b, numBits, r) == Shifts(RegisterOf(p), numBits, Trunc(Xor(r, Shl(b, p.width - 8)), p.S()))
  {
  }

  /** The narrow branch of `CalculateRemainderBits`. */
  lemma NarrowPartial(p: Parameters, b: Byte, numBits: nat, r: nat)
    requires p.Valid() && p.Narrow()
    ensures PartialRemainder(p, b, numBits, r) ==
      Leave(p, Shifts(RegisterOf(p), numBits, Trunc(Xor(Shl(r, 8 - p.width), b), p.S())))
  {
  }

  /** A shifting-left register: starts that agree on n bits agree on n bits after XOR, cast and rounds. */
  lemma LeftShiftingAgree(g: Register, c: nat, x: nat, y: nat, numBits: nat, n: nat)
    requires !g.reflected && g.top < n <= g.digits
    requires Trunc(x, n) == Trunc(y, n)
    ensures Trunc(Shifts(g, numBits, Trunc(Xor(x, c), g.digits)), n) ==
            Trunc(Shifts(g, numBits, Trunc(Xor(y, c), g.digits)), n)
  {
    XorOfAgree(x, y, c, n);
    TruncNarrower(Xor(x, c), n, g.digits);
    TruncNarrower(Xor(y, c), n, g.digits);
    ShiftsAgree(g, numBits, Trunc(Xor(x, c), g.digits), Trunc(Xor(y, c), g.digits), n);
  }

  /**
   * `CalculateRemainderBits` depends on the W low bits of its start as
   * `CalculateRemainder` does.
   */
  lemma PartialAgree(p: Parameters, b: Byte, numBits: nat, x: nat, y: nat)
    requires p.Valid()
    requires Trunc(x, p.width) == Trunc(y, p.width)
    requires p.reflectInput ==> x == y
    ensures Trunc(PartialRemainder(p, b, numBits, x), p.width) == Trunc(PartialRemainder(p, b, numBits, y), p.width)
  {
    var g := RegisterOf(p);
    if p.reflectInput {
    } else if p.width >= 8 {
      ForwardRegister(p);
      ForwardPartial(p, b, numBits, x);
      ForwardPartial(p, b, numBits, y);
      LeftShiftingAgree(g, Shl(b, p.width - 8), x, y, numBits, p.width);
    } else {
      var sh := 8 - p.width;
      NarrowRegister(p);
      StorageHoldsByte(p);
      NarrowPartial(p, b, numBits, x);
      NarrowPartial(p, b, numBits, y);
      ShlAgree(x, y, sh, p.width);
      LeftShiftingAgree(g, b, Shl(x, sh), Shl(y, sh), numBits, 8);
      LeaveAgree(p, Shifts(g, numBits, Trunc(Xor(Shl(x, sh), b), p.S())), Shifts(g, numBits, Trunc(Xor(Shl(y, sh), b), p.S())));
    }
  }

  /** One byte through `CalculateRemainder`. */
  lemma RemainderOfByte(p: Parameters, b: Byte, r: nat)
    requires p.Valid()
    ensures Remainder(p, [b], r) == Leave(p, Feed(RegisterOf(p), Enter(p, r), b))
  {
    var g, x := RegisterOf(p), Enter(p, r);
    assert [b][..0] == [];
    assert Run(g, [b], x) == Feed(g, Run(g, [], x), b);
  }

  /** Reflected input: eight bits of a byte are one byte of the inner loop. */
  lemma ReflectedWholeByte(p: Parameters, b: Byte, r: nat)
    requires p.Valid() && p.reflectInput
    ensures PartialRemainder(p, b, 8, r) == Leave(p, Feed(RegisterOf(p), Enter(p, r), b))
  {
    ReflectedRegister(p);
    ReflectedPartial(p, b, 8, r);
    assert Shl(b, 0) == b;
  }

  /** Forward input, W >= 8: eight bits of a byte are one byte of the inner loop. */
  lemma ForwardWholeByte(p: Parameters, b: Byte, r: nat)
    requires p.Valid() && !p.reflectInput && p.width >= 8
    ensures PartialRemainder(p, b, 8, r) == Leave(p, Feed(RegisterOf(p), Enter(p, r), b))
  {
    ForwardRegister(p);
    ForwardPartial(p, b, 8, r);
  }

  /** Narrow input: eight bits of a byte are one byte of the inner loop. */
  lemma NarrowWholeByte(p: Parameters, b: Byte, r: nat)
    requires p.Valid() && p.Narrow()
    ensures PartialRemainder(p, b, 8, r) == Leave(p, Feed(RegisterOf(p), Enter(p, r), b))
  {
    var up := Shl(r, 8 - p.width);
    NarrowRegister(p);
    NarrowPartial(p, b, 8, r);
    assert Shl(b, 0) == b;
    TruncTrunc(up, p.S());
    XorOfAgree(Trunc(up, p.S()), up, b, p.S());
  }

  /** Eight bits of a byte through `CalculateRemainderBits` are that byte through `CalculateRemainder`. */
  lemma PartialWholeByte(p: Parameters, b: Byte, r: nat)
    requires p.Valid()
    ensures PartialRemainder(p, b, 8, r) == Remainder(p, [b], r)
  {
    RemainderOfByte(p, b, r);
    if p.reflectInput {
      ReflectedWholeByte(p, b, r);
    } else if p.width >= 8 {
      ForwardWholeByte(p, b, r);
    } else {
      NarrowWholeByte(p, b, r);
    }
  }
}
