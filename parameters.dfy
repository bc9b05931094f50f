/**
 * The parameters of a CRC in the Rocksoft model: polynomial, initial value,
 * final XOR and the two reflection flags, over an unsigned storage type of S
 * digits (`CRCType`) holding a checksum of W bits (`CRCWidth`).
 */
module CrcParameters {
  import opened Bits

  /** The unsigned types a `CRCType` can be. */
  datatype Storage = U8 | U16 | U32 | U64
  {
    /** `std::numeric_limits<CRCType>::digits` */
    function Digits(): nat
    {
      match this
      case U8 => 8
      case U16 => 16
      case U32 => 32
      case U64 => 64
    }
  }

  /** `CRC::Parameters<CRCType, CRCWidth>`, with the two template arguments as fields. */
  datatype Parameters = Parameters(
    storage: Storage,
    width: nat,
    polynomial: nat,
    initialValue: nat,
    finalXor: nat,
    reflectInput: bool,
    reflectOutput: bool)
  {
    /** Digits of the storage type, S. */
    function S(): nat
    {
      storage.Digits()
    }

    /**
     * The width is at least one bit and fits the storage type (the static
     * assertion of `CalculateRemainder`), and the three values are `CRCType`s.
     */
    predicate Valid()
    {
      1 <= width <= S() &&
      polynomial < Pow2(S()) && initialValue < Pow2(S()) && finalXor < Pow2(S())
    }

    /** The regime for non-reflected CRCs narrower than a byte. */
    predicate Narrow()
    {
      !reflectInput && width < 8
    }
  }

  /** Every bit of 2^k - 1 below position k is set, and no other. */
  lemma {:induction false} BitOfLowOnes(k: nat, i: nat)
    ensures Bit(Pow2(k) - 1, i) == (i < k)
  {
    if k == 0 {
      ZeroBits(i);
    } else if i > 0 {
      assert (Pow2(k) - 1) / 2 == Pow2(k - 1) - 1;
      BitOfLowOnes(k - 1, i - 1);
    }
  }

  /** `BIT_MASK`: `(1 << (W - 1)) | ((1 << (W - 1)) - 1)`, which is 2^W - 1. */
  function BitMask(w: nat): (m: nat)
    requires w >= 1
    ensures m == Pow2(w) - 1
  {
    ShlOne(w - 1);
    HighAndLowOnes(w);
    Or(Shl(1, w - 1), Shl(1, w - 1) - 1)
  }

  lemma HighAndLowOnes(w: nat)
    requires w >= 1
    ensures Or(Pow2(w - 1), Pow2(w - 1) - 1) == Pow2(w) - 1
  {
    var high := Pow2(w - 1);
    var mask := Or(high, high - 1);
    var ones := Pow2(w) - 1;
    forall i: nat
      ensures Bit(mask, i) == Bit(ones, i)
    {
      BitOr(high, high - 1, i);
      BitPow2(w - 1, i);
      BitOfLowOnes(w - 1, i);
      BitOfLowOnes(w, i);
    }
    BitsEqual(mask, ones);
  }

  /** Masking with `BIT_MASK` keeps exactly the W low bits. */
  lemma AndMask(x: nat, w: nat)
    requires w >= 1
    ensures And(x, BitMask(w)) == Trunc(x, w)
  {
    forall i: nat
      ensures Bit(And(x, BitMask(w)), i) == Bit(Trunc(x, w), i)
    {
      BitAnd(x, BitMask(w), i);
      BitOfLowOnes(w, i);
      BitTrunc(x, w, i);
    }
    BitsEqual(And(x, BitMask(w)), Trunc(x, w));
  }
}
