/**
 * The continuing overloads of `CalculateBits` pass `parameters.initialValue`
 * instead of the resumed remainder to `CalculateRemainder`
 * (library/CRC.h:420 and :474). Whenever there is at least one whole byte,
 * the previous checksum is discarded. `BitsChecksumFrom` and the two methods
 * in `Checksums` model the code as written; `BitsChecksumFromCorrected` and
 * `CalculateBitsFromCorrected` start the whole bytes from the resumed
 * remainder, and continue a checksum as the byte-count overload does.
 *
 * The module also shows how `CalculateBits` treats a trailing partial byte:
 * it is XORed in whole, so bits that no round examines reach the checksum.
 */
module Findings {
  import opened Bits
  import opened CrcParameters
  import opened Finalization
  import opened Engine
  import opened Lookup
  import opened RegisterFacts
  import opened TableAgreement
  import opened RemainderFacts
  import opened Checksums
  import opened Continuation
  import opened Presets

  /**
   * As written, with at least one whole byte, the result does not depend on
   * the previous checksum: it is the checksum of `data` alone.
   */
  lemma BitsContinuationForgets(p: Parameters, data: seq<Byte>, size: nat, crc: nat)
    requires p.Valid() && HasBits(data, size) && size >= 8
    ensures BitsChecksumFrom(p, data, size, crc) == BitsChecksum(p, data, size)
  {
  }

  /**
   * So, as written, continuing from the checksum of any prefix `a` gives the
   * same result as continuing from the checksum of no prefix at all.
   */
  lemma BitsContinuationIgnoresPrefix(p: Parameters, a: seq<Byte>, b: seq<Byte>, size: nat)
    requires p.Valid() && HasBits(b, size) && size >= 8
    ensures BitsChecksumFrom(p, b, size, Checksum(p, a)) == BitsChecksumFrom(p, b, size, Checksum(p, []))
  {
    BitsContinuationForgets(p, b, size, Checksum(p, a));
    BitsContinuationForgets(p, b, size, Checksum(p, []));
  }

  /** `CalculateBits(data, size, parameters, crc)` with the whole bytes continuing from `crc`. */
  function BitsChecksumFromCorrected(p: Parameters, data: seq<Byte>, size: nat, crc: nat): (c: nat)
    requires p.Valid() && HasBits(data, size)
    ensures c < Pow2(p.width)
  {
    Finalize(p.width, BitsRemainder(p, data, size, Resume(p, crc)), p.finalXor, Flip(p))
  }

  /** `CRC::CalculateBits(data, size, parameters, crc)` passing `remainder` on line 420. */
  method CalculateBitsFromCorrected(data: seq<Byte>, size: nat, p: Parameters, previous: nat) returns (crc: nat)
    requires p.Valid() && HasBits(data, size)
    ensures crc == BitsChecksumFromCorrected(p, data, size, previous)
  {
    var remainder := UndoFinalize(p.width, previous, p.finalXor, p.reflectInput != p.reflectOutput);
    var wholeNumberOfBytes := size / 8;
    if wholeNumberOfBytes > 0 {
      remainder := CalculateRemainder(data, wholeNumberOfBytes, p, remainder);
    }
    var remainingNumberOfBits := size % 8;
    if remainingNumberOfBits != 0 {
      var lastByte := data[wholeNumberOfBytes];
      remainder := CalculateRemainderBits(lastByte, remainingNumberOfBits, p, remainder);
    }
    crc := Finalize(p.width, remainder, p.finalXor, p.reflectInput != p.reflectOutput);
  }

  /** `CRC::CalculateBits(data, size, lookupTable, crc)` passing `remainder` on line 474. */
  method CalculateBitsFromWithTableCorrected(data: seq<Byte>, size: nat, lookupTable: Table, previous: nat)
    returns (crc: nat)
    requires lookupTable.Valid() && HasBits(data, size)
    ensures crc == BitsChecksumFromCorrected(lookupTable.parameters, data, size, previous)
  {
    var p := lookupTable.parameters;
    var remainder := UndoFinalize(p.width, previous, p.finalXor, p.reflectInput != p.reflectOutput);
    ResumeFits(p, previous);
    ghost var start := remainder;
    var wholeNumberOfBytes := size / 8;
    if wholeNumberOfBytes > 0 {
      remainder := CalculateRemainderWithTable(data, wholeNumberOfBytes, lookupTable, remainder);
    }
    var remainingNumberOfBits := size % 8;
    if remainingNumberOfBits > 0 {
      var lastByte := data[wholeNumberOfBytes];
      remainder := CalculateRemainderBits(lastByte, remainingNumberOfBits, p, remainder);
    }
    crc := Finalize(p.width, remainder, p.finalXor, p.reflectInput != p.reflectOutput);
    TableBitsFinalize(p, lookupTable.entry, data, size, start, remainder);
  }

  /** Two raw remainders that reach the same checksum bits: W bits, and all of them with reflected input. */
  predicate SameRemainder(p: Parameters, x: nat, y: nat)
    requires p.Valid()
  {
    Trunc(x, p.width) == Trunc(y, p.width) && (p.reflectInput ==> x == y)
  }

  /** The whole bytes of b continued from the checksum of a are the whole bytes of a + b. */
  lemma WholeBytesContinue(p: Parameters, a: seq<Byte>, b: seq<Byte>, k: nat)
    requires p.Valid() && Resumable(p) && k <= |b|
    ensures var start := Resume(p, Checksum(p, a));
      SameRemainder(p, if k > 0 then Remainder(p, b[..k], start) else start,
                       if |a| + k > 0 then Remainder(p, (a + b)[..|a| + k], p.initialValue) else p.initialValue)
  {
    var init := p.initialValue;
    var start := Resume(p, Checksum(p, a));
    var ra := Remainder(p, a, init);
    ResumeChecksum(p, a);
    assert (a + b)[..|a| + k] == a + b[..k];
    if k > 0 {
      RemainderAgree(p, b[..k], start, ra);
      RemainderConcat(p, a, b[..k], init);
    } else if |a| > 0 {
      assert a + b[..0] == a;
    } else {
      var g := RegisterOf(p);
      assert Run(g, [], Enter(p, init)) == Enter(p, init);
      if p.Narrow() {
        LeaveEnter(p, init);
      }
      TruncTrunc(init, p.width);
    }
  }

  /**
   * Corrected, the bit-count overload continues a checksum: continuing from
   * the checksum of a over n bits of b gives what the bit-count overload
   * returns over 8|a| + n bits of a + b.
   */
  lemma CorrectedBitsContinue(p: Parameters, a: seq<Byte>, b: seq<Byte>, n: nat)
    requires p.Valid() && Resumable(p) && HasBits(b, n)
    ensures HasBits(a + b, 8 * |a| + n)
    ensures BitsChecksumFromCorrected(p, b, n, Checksum(p, a)) == BitsChecksum(p, a + b, 8 * |a| + n)
  {
    var size := 8 * |a| + n;
    var start := Resume(p, Checksum(p, a));
    BitsRemainderContinues(p, a, b, n, start);
    FinalizeOfAgree(p.width, BitsRemainder(p, b, n, start), BitsRemainder(p, a + b, size, p.initialValue), p.finalXor, Flip(p));
  }

  /** The raw remainders behind `CorrectedBitsContinue` agree on W bits. */
  lemma BitsRemainderContinues(p: Parameters, a: seq<Byte>, b: seq<Byte>, n: nat, start: nat)
    requires p.Valid() && Resumable(p) && HasBits(b, n)
    requires start == Resume(p, Checksum(p, a))
    ensures HasBits(a + b, 8 * |a| + n)
    ensures Trunc(BitsRemainder(p, b, n, start), p.width) ==
            Trunc(BitsRemainder(p, a + b, 8 * |a| + n, p.initialValue), p.width)
  {
    var k, q := n / 8, n % 8;
    var size := 8 * |a| + n;
    assert size / 8 == |a| + k && size % 8 == q;
    var whole := if k > 0 then Remainder(p, b[..k], start) else start;
    var whole' := if |a| + k > 0 then Remainder(p, (a + b)[..|a| + k], p.initialValue) else p.initialValue;
    WholeBytesContinue(p, a, b, k);
    if q != 0 {
      assert (a + b)[|a| + k] == b[k];
      PartialAgree(p, b[k], q, whole, whole');
    }
  }

  /** A nonzero number has a set bit. */
  lemma SomeBitSet(x: nat) returns (i: nat)
    requires x > 0
    ensures Bit(x, i)
  {
    if forall j: nat :: !Bit(x, j) {
      forall j: nat
        ensures Bit(x, j) == Bit(0, j)
      {
        ZeroBits(j);
      }
      BitsEqual(x, 0);
      assert false;
    }
    i :| Bit(x, i);
  }

  /** A zero register stays zero. */
  lemma {:induction false} ShiftsOfZero(g: Register, n: nat)
    requires !g.reflected
    ensures Shifts(g, n, 0) == 0
  {
    if n > 0 {
      ShiftsOfZero(g, n - 1);
      ShlOfZero(1);
      TruncOfSmall(0, g.digits);
    }
  }

  /**
   * A left-shifting register as wide as its type, with an odd polynomial,
   * never loses all its bits: the top bit leaves bit 0 set, any other bit
   * moves up one place.
   */
  lemma ShiftKeepsNonzero(g: Register, x: nat)
    requires !g.reflected && g.top + 1 == g.digits && Bit(g.poly, 0)
    requires 0 < x < Pow2(g.digits)
    ensures 0 < Shift(g, x) < Pow2(g.digits)
  {
    if Bit(x, g.top) {
      BitOfShift(g, x, 0);
      ZeroBits(0);
    } else {
      var i := SomeBitSet(x);
      if g.digits <= i {
        BitAbove(x, g.digits, i);
      }
      BitOfShift(g, x, i + 1);
      ZeroBits(i + 1);
    }
  }

  lemma {:induction false} ShiftsKeepNonzero(g: Register, n: nat, x: nat)
    requires !g.reflected && g.top + 1 == g.digits && Bit(g.poly, 0)
    requires 0 < x < Pow2(g.digits)
    ensures 0 < Shifts(g, n, x) < Pow2(g.digits)
  {
    if n > 0 {
      ShiftsKeepNonzero(g, n - 1, x);
      ShiftKeepsNonzero(g, Shifts(g, n - 1, x));
    }
  }

  /**
   * The parameters of the counterexample: forward, as wide as their type,
   * an odd polynomial, no initial value and no final XOR; `CRC_8` is one.
   */
  predicate PlainForward(p: Parameters)
  {
    p.Valid() && !p.reflectInput && !p.reflectOutput && p.width == p.S() &&
    Bit(p.polynomial, 0) && p.initialValue == 0 && p.finalXor == 0
  }

  /** With those parameters the checksum is the raw remainder. */
  lemma PlainChecksum(p: Parameters, data: seq<Byte>)
    requires PlainForward(p)
    ensures Remainder(p, data, 0) < Pow2(p.width)
    ensures Checksum(p, data) == Remainder(p, data, 0)
  {
    var r := Remainder(p, data, 0);
    StorageHoldsByte(p);
    ForwardRegister(p);
    RunBelow(RegisterOf(p), data, 0);
    FinalizeIs(p.width, r, 0, false);
    XorZero(r);
    TruncOfSmall(r, p.width);
  }

  /** A zero byte fed into a zero register leaves it zero. */
  lemma ZeroByte(p: Parameters)
    requires PlainForward(p)
    ensures Remainder(p, [0], 0) == 0
  {
    var g := RegisterOf(p);
    StorageHoldsByte(p);
    ForwardRegister(p);
    FeedZero(g, 0);
    ShlOfZero(g.feedAt);
    TruncOfSmall(0, g.digits);
    ShiftsOfZero(g, 8);
  }

  /** The byte 1 then the byte 0 leave a nonzero register. */
  lemma OneThenZero(p: Parameters)
    requires PlainForward(p)
    ensures Remainder(p, [1, 0], 0) != 0
  {
    var g := RegisterOf(p);
    var s := p.S();
    StorageHoldsByte(p);
    ForwardRegister(p);
    assert [1, 0][..1] == [1] && [1][..0] == [];
    // the first byte: 2^feedAt, below 2^S and nonzero, through eight rounds
    FeedZero(g, 1);
    ShlOne(g.feedAt);
    BitPow2(g.feedAt, g.feedAt);
    ZeroBits(g.feedAt);
    forall i: nat | s <= i
      ensures !Bit(Pow2(g.feedAt), i)
    {
      BitPow2(g.feedAt, i);
    }
    BelowFromBits(Pow2(g.feedAt), s);
    TruncOfSmall(Pow2(g.feedAt), s);
    ShiftsKeepNonzero(g, 8, Pow2(g.feedAt));
    var first := Run(g, [1], 0);
    // the second byte XORs in nothing
    ShlOfZero(g.feedAt);
    XorZero(first);
    TruncOfSmall(first, s);
    ShiftsKeepNonzero(g, 8, first);
  }

  /**
   * The input that shows it: with `CRC_8`-like parameters, continuing
   * from the checksum of [1] over the 8 bits of [0] returns the checksum of
   * [0] (zero), not the checksum of the 16 bits of [1, 0]; the corrected
   * function returns the latter.
   */
  lemma BitsContinuationCounterexample(p: Parameters)
    requires PlainForward(p)
    ensures HasBits([0], 8) && HasBits([1, 0], 16)
    ensures BitsChecksumFrom(p, [0], 8, Checksum(p, [1])) != BitsChecksum(p, [1, 0], 16)
    ensures BitsChecksumFromCorrected(p, [0], 8, Checksum(p, [1])) == BitsChecksum(p, [1, 0], 16)
  {
    BitsContinuationForgets(p, [0], 8, Checksum(p, [1]));
    BitsOfWholeBytes(p, [0], 1);
    BitsOfWholeBytes(p, [1, 0], 2);
    assert [0][..1] == [0] && [1, 0][..2] == [1, 0];
    PlainChecksum(p, [0]);
    PlainChecksum(p, [1, 0]);
    ZeroByte(p);
    OneThenZero(p);
    CorrectedBitsContinue(p, [1], [0], 8);
    assert [1] + [0] == [1, 0];
  }

  /** `CRC_8` is such a parameter set, so the as-written continuation fails for it. */
  lemma Crc8Counterexample()
    ensures BitsChecksumFrom(Crc8(), [0], 8, Checksum(Crc8(), [1])) != BitsChecksum(Crc8(), [1, 0], 16)
  {
    var p := Crc8();
    assert Bit(p.polynomial, 0);
    BitsContinuationCounterexample(p);
  }

  /**
   * The trailing partial byte is XORed in whole and only `size % 8` rounds
   * follow, so the bits of that byte no round examines still reach the
   * checksum. Forward input, W >= 8: the first bit of 0x80 and of 0x81 is
   * the same (the top bit, set), yet bit 0 of the byte, never examined,
   * moves up to bit W - 7 of the remainder.
   */
  lemma PartialByteKeepsUnexaminedBits(p: Parameters, r: nat)
    requires p.Valid() && !p.reflectInput && p.width >= 8
    ensures Bit(PartialRemainder(p, 0x80, 1, r), p.width - 7) != Bit(PartialRemainder(p, 0x81, 1, r), p.width - 7)
    ensures Trunc(PartialRemainder(p, 0x80, 1, r), p.width) != Trunc(PartialRemainder(p, 0x81, 1, r), p.width)
  {
    assert Bit(0x80, 7) && Bit(0x81, 7) && !Bit(0x80, 0) && Bit(0x81, 0);
    FirstBitOnly(p, r, 0x80, 0x81);
  }

  /**
   * Forward input, W >= 8: two bytes with the same top bit and different
   * bit 0 give, over one bit, remainders that differ at bit W - 7.
   */
  lemma FirstBitOnly(p: Parameters, r: nat, b0: Byte, b1: Byte)
    requires p.Valid() && !p.reflectInput && p.width >= 8
    requires Bit(b0, 7) == Bit(b1, 7) && Bit(b0, 0) != Bit(b1, 0)
    ensures Bit(PartialRemainder(p, b0, 1, r), p.width - 7) != Bit(PartialRemainder(p, b1, 1, r), p.width - 7)
    ensures Trunc(PartialRemainder(p, b0, 1, r), p.width) != Trunc(PartialRemainder(p, b1, 1, r), p.width)
  {
    var w := p.width;
    OneForwardRound(p, b0, r);
    OneForwardRound(p, b1, r);
    BitTrunc(PartialRemainder(p, b0, 1, r), w, w - 7);
    BitTrunc(PartialRemainder(p, b1, 1, r), w, w - 7);
  }

  /**
   * Forward input, W >= 8, one bit of b: bit W - 7 of the remainder is bit
   * 0 of the byte XORed in at W - 8, flipped by the polynomial when the
   * examined top bit is set.
   */
  lemma OneForwardRound(p: Parameters, b: Byte, r: nat)
    requires p.Valid() && !p.reflectInput && p.width >= 8
    ensures Bit(PartialRemainder(p, b, 1, r), p.width - 7) ==
      ((Bit(r, p.width - 8) != Bit(b, 0)) != ((Bit(r, p.width - 1) != Bit(b, 7)) && Bit(p.polynomial, p.width - 7)))
  {
    var g := RegisterOf(p);
    var m, w, s := p.width - 8, p.width, p.S();
    ForwardRegister(p);
    var x := Trunc(Xor(r, Shl(b, m)), s);
    FedBitAt(r, b, m, s, w - 1);
    FedBitAt(r, b, m, s, m);
    BitOfShift(g, x, w - 7);
    ForwardPartial(p, b, 1, r);
    assert Shifts(g, 1, x) == Shift(g, x);
  }

  /** Bit i of a byte XORed in at m, in s digits: bit i of r, flipped by bit i - m of the byte. */
  lemma FedBitAt(r: nat, b: Byte, m: nat, s: nat, i: nat)
    requires m <= i < s && i - m < 8
    ensures Bit(Trunc(Xor(r, Shl(b, m)), s), i) == (Bit(r, i) != Bit(b, i - m))
  {
    BitTrunc(Xor(r, Shl(b, m)), s, i);
    BitXor(r, Shl(b, m), i);
    BitShl(b, m, i);
  }

  /**
   * `CRC_8`, one bit of 0x80 and one bit of 0x81 from the initial value: two
   * bytes that agree on their first bit, in either bit order, give two
   * different checksums.
   */
  lemma Crc8PartialByte()
    ensures HasBits([0x80], 1) && HasBits([0x81], 1)
    ensures BitsChecksum(Crc8(), [0x80], 1) != BitsChecksum(Crc8(), [0x81], 1)
  {
    var p := Crc8();
    var r0 := PartialRemainder(p, 0x80, 1, 0);
    var r1 := PartialRemainder(p, 0x81, 1, 0);
    assert BitsRemainder(p, [0x80], 1, 0) == r0;
    assert BitsRemainder(p, [0x81], 1, 0) == r1;
    PartialByteKeepsUnexaminedBits(p, 0);
    FinalizeIs(8, r0, 0, false);
    FinalizeIs(8, r1, 0, false);
    XorZero(r0);
    XorZero(r1);
  }
}
