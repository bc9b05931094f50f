/**
 * The table-driven engine computes the bit-by-bit remainder: exactly when
 * the input is reflected, and on the W low bits otherwise (the bits above W
 * of a left-shifting register differ between the two engines but never
 * reach the checksum).
 */
module TableAgreement {
  import opened Bits
  import opened Reflection
  import opened CrcParameters
  import opened Engine
  import opened RegisterFacts
  import opened Lookup

  lemma {:induction false} ShlOfZero(k: nat)
    ensures Shl(0, k) == 0
  {
    if k > 0 {
      ShlOfZero(k - 1);
    }
  }

  lemma ByteBelow(c: Byte, n: nat)
    requires 8 <= n
    ensures c < Pow2(8) <= Pow2(n)
  {
    assert Pow2(8) == 256;
    Pow2Monotone(8, n);
  }

  /** A zero register stays zero on entry. */
  lemma EnterZero(p: Parameters)
    requires p.Valid()
    ensures Enter(p, 0) == 0
  {
    if p.Narrow() {
      ShlOfZero(8 - p.width);
      TruncOfSmall(0, p.S());
    }
  }

  /** One byte fed into a zero register. */
  lemma FeedZero(g: Register, c: Byte)
    ensures Run(g, [c], 0) == Shifts(g, 8, Trunc(Shl(c, g.feedAt), g.digits))
  {
    assert [c][..0] == [];
    XorZero(Shl(c, g.feedAt));
  }

  /** The remainder of one byte from a zero register is eight rounds on the byte placed at `feedAt`. */
  lemma SingleByte(p: Parameters, c: Byte)
    requires p.Valid()
    ensures Remainder(p, [c], 0) == Leave(p, Shifts(RegisterOf(p), 8, Trunc(Shl(c, RegisterOf(p).feedAt), p.S())))
  {
    EnterZero(p);
    FeedZero(RegisterOf(p), c);
  }

  /** Outside the narrow regime an entry is the single-byte remainder cut to W bits. */
  lemma WideEntry(p: Parameters, c: Byte)
    requires p.Valid() && !p.Narrow()
    ensures TableEntry(p, c) == Trunc(Shifts(RegisterOf(p), 8, Trunc(Shl(c, RegisterOf(p).feedAt), p.S())), p.width)
  {
    SingleByte(p, c);
    AndMask(Shifts(RegisterOf(p), 8, Trunc(Shl(c, RegisterOf(p).feedAt), p.S())), p.width);
  }

  /** The loop constants of the reflected regime. */
  lemma ReflectedRegister(p: Parameters)
    requires p.Valid() && p.reflectInput
    ensures RegisterOf(p) == Register(true, Reflected(p.polynomial, p.width), 0, p.S(), 0)
  {
  }

  /** Eight right-shifting rounds on a byte stay below 2^W. */
  lemma ReflectedRoundsOfByte(p: Parameters, c: Byte)
    requires p.Valid() && p.reflectInput
    ensures Shifts(RegisterOf(p), 8, c) < Pow2(p.width)
  {
    ReflectedRegister(p);
    ByteBelow(c, p.width + 8);
    ShiftsShrink(RegisterOf(p), 8, c, p.width);
  }

  /** Reflected input: an entry is the eight rounds on its byte, already below 2^W. */
  lemma ReflectedEntry(p: Parameters, c: Byte)
    requires p.Valid() && p.reflectInput
    ensures TableEntry(p, c) == Shifts(RegisterOf(p), 8, c)
  {
    var g := RegisterOf(p);
    ReflectedRegister(p);
    WideEntry(p, c);
    assert Shl(c, 0) == c;
    ByteBelow(c, p.S());
    TruncOfSmall(c, p.S());
    ReflectedRoundsOfByte(p, c);
    TruncOfSmall(Shifts(g, 8, c), p.width);
  }

  /** The polynomial pre-shifted by 8 - W has its 8 - W low bits clear. */
  lemma ShiftedPolyLow(p: Parameters)
    requires p.Valid() && p.Narrow()
    ensures Trunc(RegisterOf(p).poly, 8 - p.width) == 0
  {
    var sh := 8 - p.width;
    var poly := Trunc(Shl(p.polynomial, sh), p.S());
    forall i: nat | i < sh
      ensures Bit(poly, i) == Bit(0, i)
    {
      BitTrunc(Shl(p.polynomial, sh), p.S(), i);
      BitShl(p.polynomial, sh, i);
      ZeroBits(i);
    }
    AgreeTrunc(poly, 0, sh);
    TruncOfSmall(0, sh);
  }

  /** The loop constants of the narrow regime. */
  lemma NarrowRegister(p: Parameters)
    requires p.Valid() && p.Narrow()
    ensures RegisterOf(p) == Register(false, Trunc(Shl(p.polynomial, 8 - p.width), p.S()), 7, p.S(), 0)
  {
  }

  /**
   * Shifting down by sh, casting, keeping w bits and shifting back up keeps
   * the 8 = sh + w low bits of a value whose sh low bits are clear.
   */
  lemma DownAndUp(z: nat, sh: nat, w: nat, s: nat)
    requires sh + w == 8 <= s
    requires forall i: nat :: i < sh ==> !Bit(z, i)
    ensures Trunc(Trunc(Shl(Trunc(Trunc(Shr(z, sh), s), w), sh), s), 8) == Trunc(z, 8)
  {
    var rem := Trunc(Shr(z, sh), s);
    var entry := Trunc(Shl(Trunc(rem, w), sh), s);
    forall i: nat | i < 8
      ensures Bit(entry, i) == Bit(z, i)
    {
      BitTrunc(Shl(Trunc(rem, w), sh), s, i);
      BitShl(Trunc(rem, w), sh, i);
      if sh <= i {
        BitTrunc(rem, w, i - sh);
        BitTrunc(Shr(z, sh), s, i - sh);
        BitShr(z, sh, i - sh);
      }
    }
    AgreeTrunc(entry, z, 8);
  }

  /** Narrow input: an entry is the single-byte remainder masked and shifted back up. */
  lemma NarrowEntryIs(p: Parameters, c: Byte)
    requires p.Valid() && p.Narrow()
    ensures TableEntry(p, c) ==
      Trunc(Shl(Trunc(Trunc(Shr(Shifts(RegisterOf(p), 8, c), 8 - p.width), p.S()), p.width), 8 - p.width), p.S())
  {
    NarrowRegister(p);
    SingleByte(p, c);
    assert Shl(c, 0) == c;
    ByteBelow(c, p.S());
    TruncOfSmall(c, p.S());
    AndMask(Trunc(Shr(Shifts(RegisterOf(p), 8, c), 8 - p.width), p.S()), p.width);
  }

  /**
   * Narrow input: the 8 low bits of an entry are those of the eight rounds
   * on its byte; shifting the remainder down and back up loses only bits
   * that the rounds have cleared.
   */
  lemma NarrowEntry(p: Parameters, c: Byte)
    requires p.Valid() && p.Narrow()
    ensures Trunc(TableEntry(p, c), 8) == Trunc(Shifts(RegisterOf(p), 8, c), 8)
  {
    var sh := 8 - p.width;
    NarrowEntryIs(p, c);
    ShiftedPolyLow(p);
    ShiftsClearLow(RegisterOf(p), 8, c, sh);
    DownAndUp(Shifts(RegisterOf(p), 8, c), sh, p.width, p.S());
  }

  /** The loop constants of the forward regime with W >= 8. */
  lemma ForwardRegister(p: Parameters)
    requires p.Valid() && !p.reflectInput && p.width >= 8
    ensures RegisterOf(p) == Register(false, p.polynomial, p.width - 1, p.S(), p.width - 8)
  {
  }

  /** A `CRCType` holds at least a byte. */
  lemma StorageHoldsByte(p: Parameters)
    ensures p.S() >= 8
  {
  }

  /** Dropping the n low bits before a shift by n changes nothing. */
  lemma ShrOfHigh(x: nat, n: nat)
    ensures Shr(Xor(x, Trunc(x, n)), n) == Shr(x, n)
  {
    SplitLow(x, n);
    forall i: nat
      ensures Bit(Shr(Xor(x, Trunc(x, n)), n), i) == Bit(Shr(x, n), i)
    {
      BitShr(Xor(x, Trunc(x, n)), n, i);
      BitShr(x, n, i);
    }
    BitsEqual(Shr(Xor(x, Trunc(x, n)), n), Shr(x, n));
  }

  /** A byte XORed into the low end of a register is gone after a shift by 8. */
  lemma ShrIgnoresLowByte(r: nat, b: Byte, s: nat)
    requires 8 <= s && r < Pow2(s)
    ensures Shr(Trunc(Xor(r, b), s), 8) == Shr(r, 8)
  {
    ByteBelow(b, 8);
    forall i: nat
      ensures Bit(Shr(Trunc(Xor(r, b), s), 8), i) == Bit(Shr(r, 8), i)
    {
      BitShr(Trunc(Xor(r, b), s), 8, i);
      BitShr(r, 8, i);
      BitTrunc(Xor(r, b), s, i + 8);
      BitXor(r, b, i + 8);
      BitAbove(b, 8, i + 8);
      if s <= i + 8 {
        BitAbove(r, s, i + 8);
      }
    }
    BitsEqual(Shr(Trunc(Xor(r, b), s), 8), Shr(r, 8));
  }

  /** Shifting right keeps a value below 2^s. */
  lemma ShrBound(r: nat, k: nat, s: nat)
    requires r < Pow2(s)
    ensures Shr(r, k) < Pow2(s)
  {
    forall i: nat | s <= i
      ensures !Bit(Shr(r, k), i)
    {
      BitShr(r, k, i);
      BitAbove(r, s, i + k);
    }
    BelowFromBits(Shr(r, k), s);
  }

  /**
   * Eight right-shifting rounds act on the high part of the register as a
   * plain shift by a byte, so only the low byte meets the polynomial.
   */
  lemma RightShiftingRounds(g: Register, x: nat)
    requires g.reflected && 8 <= g.digits && x < Pow2(g.digits)
    ensures Shifts(g, 8, x) == Xor(Shr(x, 8), Shifts(g, 8, Trunc(x, 8)))
  {
    var lo := Trunc(x, 8);
    var hi := Xor(x, lo);
    SplitLow(x, 8);
    ShiftsXor(g, 8, hi, lo);
    Pow2Monotone(8, g.digits);
    XorBound(x, lo, g.digits);
    ShiftsOfHigh(g, 8, hi, 8);
    ShrOfHigh(x, 8);
  }

  /**
   * A right-shifting register fed at bit 0, one byte: the eight rounds are
   * the register shifted down a byte XOR the eight rounds on the low byte of
   * the register with the byte XORed in.
   */
  lemma RightShiftingSplit(g: Register, r: nat, b: Byte)
    requires g.reflected && g.feedAt == 0 && 8 <= g.digits
    requires g.poly < Pow2(g.digits) && r < Pow2(g.digits)
    ensures Feed(g, r, b) == Xor(Shr(r, 8), Shifts(g, 8, LowByte(Xor(r, b))))
  {
    var s := g.digits;
    assert Shl(b, 0) == b;
    var x := Trunc(Xor(r, b), s);
    RightShiftingRounds(g, x);
    TruncNarrower(Xor(r, b), 8, s);
    ShrIgnoresLowByte(r, b, s);
  }

  /** ... and that XOR fits the register, so the final cast changes nothing. */
  lemma RightShiftingFeed(g: Register, r: nat, b: Byte)
    requires g.reflected && g.feedAt == 0 && 8 <= g.digits
    requires g.poly < Pow2(g.digits) && r < Pow2(g.digits)
    ensures Feed(g, r, b) == Trunc(Xor(Shr(r, 8), Shifts(g, 8, LowByte(Xor(r, b)))), g.digits)
  {
    var s := g.digits;
    var lo := LowByte(Xor(r, b));
    var e := Shifts(g, 8, lo);
    RightShiftingSplit(g, r, b);
    Pow2Monotone(8, s + 8);
    ShiftsShrink(g, 8, lo, s);
    ShrBound(r, 8, s);
    XorBound(Shr(r, 8), e, s);
    TruncOfSmall(Xor(Shr(r, 8), e), s);
  }

  /** Reflected input: one lookup is exactly one byte of the inner loop. */
  lemma ReflectedTableFeed(p: Parameters, e: Byte -> nat, r: nat, b: Byte)
    requires p.Valid() && p.reflectInput && r < Pow2(p.S())
    requires forall c: Byte :: e(c) == TableEntry(p, c)
    ensures TableFeed(p, e, r, b) == Feed(RegisterOf(p), r, b)
  {
    ReflectedRegister(p);
    StorageHoldsByte(p);
    Pow2Monotone(p.width, p.S());
    RightShiftingFeed(RegisterOf(p), r, b);
    ReflectedEntry(p, LowByte(Xor(r, b)));
  }

  /**
   * A left-shifting register fed at m = top - 7: the part of the register
   * from bit m up, on its W = m + 8 low bits, is the looked-up byte placed
   * at m.
   */
  lemma LeftHighPart(r: nat, b: Byte, m: nat, s: nat)
    requires m + 8 <= s
    ensures var x := Trunc(Xor(r, Shl(b, m)), s);
      Trunc(Xor(x, Trunc(x, m)), m + 8) == Trunc(Trunc(Shl(LowByte(Xor(Shr(r, m), b)), m), s), m + 8)
  {
    var x := Trunc(Xor(r, Shl(b, m)), s);
    var hi := Xor(x, Trunc(x, m));
    var c := LowByte(Xor(Shr(r, m), b));
    var y := Trunc(Shl(c, m), s);
    SplitLow(x, m);
    forall i: nat | i < m + 8
      ensures Bit(hi, i) == Bit(y, i)
    {
      BitTrunc(Xor(r, Shl(b, m)), s, i);
      BitXor(r, Shl(b, m), i);
      BitShl(b, m, i);
      BitTrunc(Shl(c, m), s, i);
      BitShl(c, m, i);
      if m <= i {
        BitTrunc(Xor(Shr(r, m), b), 8, i - m);
        BitXor(Shr(r, m), b, i - m);
        BitShr(r, m, i - m);
      } else {
        BitTrunc(x, m, i);
        BitXor(x, Trunc(x, m), i);
      }
    }
    AgreeTrunc(hi, y, m + 8);
  }

  /** ... and the m low bits of the register, moved up a byte, are the register moved up a byte. */
  lemma LeftLowPart(r: nat, b: Byte, m: nat, s: nat)
    requires m + 8 <= s
    ensures var x := Trunc(Xor(r, Shl(b, m)), s);
      Trunc(Shl(Trunc(x, m), 8), m + 8) == Trunc(Shl(r, 8), m + 8)
  {
    var x := Trunc(Xor(r, Shl(b, m)), s);
    forall i: nat | i < m + 8
      ensures Bit(Shl(Trunc(x, m), 8), i) == Bit(Shl(r, 8), i)
    {
      BitShl(Trunc(x, m), 8, i);
      BitShl(r, 8, i);
      if 8 <= i {
        BitTrunc(x, m, i - 8);
        BitTrunc(Xor(r, Shl(b, m)), s, i - 8);
        BitXor(r, Shl(b, m), i - 8);
        BitShl(b, m, i - 8);
      }
    }
    AgreeTrunc(Shl(Trunc(x, m), 8), Shl(r, 8), m + 8);
  }

  /**
   * A left-shifting register with s digits, fed at m = top - 7, one byte, on
   * its W = top + 1 low bits: the register moved up a byte XOR the eight
   * rounds on the byte `(r >> m) ^ b` placed at m.
   */
  lemma LeftShiftingFeed(g: Register, r: nat, b: Byte, m: nat, w: nat, s: nat)
    requires !g.reflected && g.feedAt == m && g.top + 1 == w && g.digits == s
    requires m + 8 == w <= s
    ensures Trunc(Feed(g, r, b), w) ==
      Trunc(Xor(Shl(r, 8), Shifts(g, 8, Trunc(Shl(LowByte(Xor(Shr(r, m), b)), m), s))), w)
  {
    var x := Trunc(Xor(r, Shl(b, m)), s);
    var lo := Trunc(x, m);
    var hi := Xor(x, lo);
    var y := Trunc(Shl(LowByte(Xor(Shr(r, m), b)), m), s);
    LeftShiftingRounds(g, x, m);
    LeftHighPart(r, b, m, s);
    ShiftsAgree(g, 8, hi, y, w);
    LeftLowPart(r, b, m, s);
    SwappedAgree(Shifts(g, 8, hi), Shl(lo, 8), Shifts(g, 8, y), Shl(r, 8), w);
  }

  /**
   * Eight left-shifting rounds never examine the m low bits of the register
   * when m + 8 <= W: those bits only move up a byte, beside the rounds on the
   * rest.
   */
  lemma LeftShiftingRounds(g: Register, x: nat, m: nat)
    requires !g.reflected && g.top < g.digits && m + 8 <= g.top + 1
    ensures Shifts(g, 8, x) == Xor(Shifts(g, 8, Xor(x, Trunc(x, m))), Shl(Trunc(x, m), 8))
  {
    var lo := Trunc(x, m);
    var hi := Xor(x, lo);
    SplitLow(x, m);
    ShiftsXor(g, 8, hi, lo);
    ShiftsOfLow(g, 8, lo, m);
  }

  /** Agreement of both operands on w bits carries over to their XOR, either way round. */
  lemma SwappedAgree(a: nat, b: nat, c: nat, d: nat, w: nat)
    requires Trunc(a, w) == Trunc(c, w) && Trunc(b, w) == Trunc(d, w)
    ensures Trunc(Xor(a, b), w) == Trunc(Xor(d, c), w)
  {
    XorOfAgreeBoth(a, c, b, d, w);
    XorComm(c, d);
  }

  /** A looked-up value that agrees on w <= s bits gives a step that agrees on w bits. */
  lemma LookupAgree(r: nat, v: nat, u: nat, w: nat, s: nat)
    requires w <= s && Trunc(v, w) == Trunc(u, w)
    ensures Trunc(Trunc(Xor(Shl(r, 8), v), s), w) == Trunc(Xor(Shl(r, 8), u), w)
  {
    XorOfAgreeBoth(Shl(r, 8), Shl(r, 8), v, u, w);
    TruncNarrower(Xor(Shl(r, 8), v), w, s);
  }

  /**
   * A left-shifting register fed at m, with W = m + 8 and s = digits: a
   * looked-up value v that agrees with the eight rounds on the byte
   * `(r >> m) ^ b` placed at m gives a step that agrees with feeding b, on
   * the W low bits.
   */
  lemma LeftShiftingLookup(g: Register, r: nat, b: Byte, v: nat, m: nat, w: nat, s: nat)
    requires !g.reflected && g.feedAt == m && g.top + 1 == w && g.digits == s
    requires m + 8 == w <= s
    requires Trunc(v, w) == Trunc(Shifts(g, 8, Trunc(Shl(LowByte(Xor(Shr(r, m), b)), m), s)), w)
    ensures Trunc(Trunc(Xor(Shl(r, 8), v), s), w) == Trunc(Feed(g, r, b), w)
  {
    LeftShiftingFeed(g, r, b, m, w, s);
    LookupAgree(r, v, Shifts(g, 8, Trunc(Shl(LowByte(Xor(Shr(r, m), b)), m), s)), w, s);
  }

  /** Forward input, W >= 8: one lookup is one byte of the inner loop on the W low bits. */
  lemma ForwardTableFeed(p: Parameters, e: Byte -> nat, r: nat, b: Byte)
    requires p.Valid() && !p.reflectInput && p.width >= 8
    requires forall c: Byte :: e(c) == TableEntry(p, c)
    ensures Trunc(TableFeed(p, e, r, b), p.width) == Trunc(Feed(RegisterOf(p), r, b), p.width)
  {
    var m, w, s := p.width - 8, p.width, p.S();
    var g := RegisterOf(p);
    var c := LowByte(Xor(Shr(r, m), b));
    ForwardTableFeedIs(p, e, r, b);
    assert ForwardLookup(e, r, b, m, s) == Trunc(Xor(Shl(r, 8), e(c)), s);
    ForwardRegister(p);
    WideEntry(p, c);
    TruncTrunc(Shifts(g, 8, Trunc(Shl(c, m), s)), w);
    LeftShiftingLookup(g, r, b, e(c), m, w, s);
  }

  /** Narrow input: one lookup is one byte of the inner loop on the 8 low bits. */
  lemma NarrowTableFeed(p: Parameters, e: Byte -> nat, r: nat, b: Byte)
    requires p.Valid() && p.Narrow()
    requires forall c: Byte :: e(c) == TableEntry(p, c)
    ensures Trunc(TableFeed(p, e, r, b), 8) == Trunc(Feed(RegisterOf(p), r, b), 8)
  {
    var g := RegisterOf(p);
    var c := LowByte(Xor(r, b));
    var x := Trunc(Xor(r, b), p.S());
    NarrowRegister(p);
    StorageHoldsByte(p);
    assert Shl(b, 0) == b;
    NarrowEntry(p, c);
    TruncNarrower(Xor(r, b), 8, p.S());
    TruncTrunc(Xor(r, b), 8);
    ShiftsAgree(g, 8, x, c, 8);
  }

  /** Eight rounds end with a cast to the register's type. */
  lemma FeedBelow(g: Register, r: nat, b: Byte)
    ensures Feed(g, r, b) < Pow2(g.digits)
  {
  }

  /** The register stays within its type. */
  lemma {:induction false} RunBelow(g: Register, data: seq<Byte>, r: nat)
    requires r < Pow2(g.digits)
    ensures Run(g, data, r) < Pow2(g.digits)
  {
    if |data| > 0 {
      FeedBelow(g, Run(g, data[..|data| - 1], r), data[|data| - 1]);
    }
  }

  /** Reflected input: the table run is the bitwise run. */
  lemma {:induction false} ReflectedTableRun(p: Parameters, e: Byte -> nat, data: seq<Byte>, r: nat)
    requires p.Valid() && p.reflectInput && r < Pow2(p.S())
    requires forall c: Byte :: e(c) == TableEntry(p, c)
    ensures TableRun(p, e, data, r) == Run(RegisterOf(p), data, r)
  {
    if |data| > 0 {
      var front := data[..|data| - 1];
      ReflectedTableRun(p, e, front, r);
      ReflectedRegister(p);
      RunBelow(RegisterOf(p), front, r);
      ReflectedTableFeed(p, e, Run(RegisterOf(p), front, r), data[|data| - 1]);
    }
  }

  /** Forward input, W >= 8: the table run agrees with the bitwise run on the W low bits. */
  lemma {:induction false} ForwardTableRun(p: Parameters, e: Byte -> nat, data: seq<Byte>, x: nat, y: nat)
    requires p.Valid() && !p.reflectInput && p.width >= 8
    requires forall c: Byte :: e(c) == TableEntry(p, c)
    requires Trunc(x, p.width) == Trunc(y, p.width)
    ensures Trunc(TableRun(p, e, data, x), p.width) == Trunc(Run(RegisterOf(p), data, y), p.width)
  {
    if |data| > 0 {
      var front, last := data[..|data| - 1], data[|data| - 1];
      var t := TableRun(p, e, front, x);
      ForwardTableRun(p, e, front, x, y);
      ForwardTableFeed(p, e, t, last);
      ForwardRegister(p);
      FeedAgree(RegisterOf(p), t, Run(RegisterOf(p), front, y), last, p.width);
    }
  }

  /** Narrow input: the table run agrees with the bitwise run on the 8 low bits. */
  lemma {:induction false} NarrowTableRun(p: Parameters, e: Byte -> nat, data: seq<Byte>, x: nat, y: nat)
    requires p.Valid() && p.Narrow()
    requires forall c: Byte :: e(c) == TableEntry(p, c)
    requires Trunc(x, 8) == Trunc(y, 8)
    ensures Trunc(TableRun(p, e, data, x), 8) == Trunc(Run(RegisterOf(p), data, y), 8)
  {
    if |data| > 0 {
      var front, last := data[..|data| - 1], data[|data| - 1];
      var t := TableRun(p, e, front, x);
      NarrowTableRun(p, e, front, x, y);
      NarrowTableFeed(p, e, t, last);
      NarrowRegister(p);
      StorageHoldsByte(p);
      FeedAgree(RegisterOf(p), t, Run(RegisterOf(p), front, y), last, 8);
    }
  }

  /** Shifting down by 8 - W keeps W bits that come from the 8 low bits. */
  lemma LeaveAgree(p: Parameters, a: nat, b: nat)
    requires p.Valid() && p.Narrow()
    requires Trunc(a, 8) == Trunc(b, 8)
    ensures Trunc(Leave(p, a), p.width) == Trunc(Leave(p, b), p.width)
  {
    var sh := 8 - p.width;
    AgreeTrunc(a, b, 8);
    forall i: nat | i < p.width
      ensures Bit(Trunc(Shr(a, sh), p.S()), i) == Bit(Trunc(Shr(b, sh), p.S()), i)
    {
      BitTrunc(Shr(a, sh), p.S(), i);
      BitTrunc(Shr(b, sh), p.S(), i);
      BitShr(a, sh, i);
      BitShr(b, sh, i);
    }
    AgreeTrunc(Trunc(Shr(a, sh), p.S()), Trunc(Shr(b, sh), p.S()), p.width);
  }

  /**
   * The table engine computes the bitwise remainder on the W bits that
   * reach the checksum, and exactly when the input is reflected.
   */
  lemma TableRemainderAgrees(p: Parameters, e: Byte -> nat, data: seq<Byte>, r: nat)
    requires p.Valid() && r < Pow2(p.S())
    requires forall c: Byte :: e(c) == TableEntry(p, c)
    ensures Trunc(TableRemainder(p, e, data, r), p.width) == Trunc(Remainder(p, data, r), p.width)
    ensures p.reflectInput ==> TableRemainder(p, e, data, r) == Remainder(p, data, r)
  {
    var g := RegisterOf(p);
    var start := Enter(p, r);
    if p.reflectInput {
      ReflectedTableRun(p, e, data, r);
    } else if p.width >= 8 {
      ForwardTableRun(p, e, data, r, r);
    } else {
      NarrowTableRun(p, e, data, start, start);
      LeaveAgree(p, TableRun(p, e, data, start), Run(g, data, start));
    }
  }
}
