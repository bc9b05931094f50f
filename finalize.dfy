/**
 * `CRC::Finalize` and `CRC::UndoFinalize`: turning a raw remainder into the
 * checksum (reflect, XOR, mask to W bits) and back.
 */
module Finalization {
  import opened Bits
  import opened Reflection
  import opened CrcParameters

  /** The output reflection, if any. */
  function Oriented(w: nat, x: nat, reflectOutput: bool): nat
  {
    if reflectOutput then Reflected(x, w) else x
  }

  /**
   * `Finalize<CRCType, W>(remainder, finalXOR, reflectOutput)`. The source
   * reflects in `CRCType`; as W never exceeds its digits the cast there cuts
   * nothing off (`ReflectFits`).
   */
  function Finalize(w: nat, remainder: nat, finalXor: nat, reflectOutput: bool): (crc: nat)
    requires w >= 1
    ensures crc < Pow2(w)
  {
    var r := Oriented(w, remainder, reflectOutput);
    AndMask(Xor(r, finalXor), w);
    And(Xor(r, finalXor), BitMask(w))
  }

  /** `UndoFinalize<CRCType, W>(crc, finalXOR, reflectOutput)` */
  function UndoFinalize(w: nat, crc: nat, finalXor: nat, reflectOutput: bool): nat
    requires w >= 1
  {
    Oriented(w, Xor(And(crc, BitMask(w)), finalXor), reflectOutput)
  }

  /** The checksum depends on the W low bits of the remainder only. */
  lemma FinalizeOfAgree(w: nat, x: nat, y: nat, finalXor: nat, reflectOutput: bool)
    requires w >= 1
    requires Trunc(x, w) == Trunc(y, w)
    ensures Finalize(w, x, finalXor, reflectOutput) == Finalize(w, y, finalXor, reflectOutput)
  {
    var rx := Oriented(w, x, reflectOutput);
    var ry := Oriented(w, y, reflectOutput);
    if reflectOutput {
      ReflectedOfAgree(x, y, w);
    }
    AndMask(Xor(rx, finalXor), w);
    AndMask(Xor(ry, finalXor), w);
    XorOfAgree(rx, ry, finalXor, w);
  }

  lemma FinalizeIs(w: nat, remainder: nat, finalXor: nat, reflectOutput: bool)
    requires w >= 1
    ensures Finalize(w, remainder, finalXor, reflectOutput) == Trunc(Xor(Oriented(w, remainder, reflectOutput), finalXor), w)
  {
    AndMask(Xor(Oriented(w, remainder, reflectOutput), finalXor), w);
  }

  lemma UndoFinalizeIs(w: nat, crc: nat, finalXor: nat, reflectOutput: bool)
    requires w >= 1
    ensures UndoFinalize(w, crc, finalXor, reflectOutput) == Oriented(w, Xor(Trunc(crc, w), finalXor), reflectOutput)
  {
    AndMask(crc, w);
  }

  /**
   * Finalizing an un-finalized checksum gives back its W low bits, for
   * every final XOR and reflection flag.
   */
  lemma FinalizeUndoFinalize(w: nat, crc: nat, finalXor: nat, reflectOutput: bool)
    requires w >= 1
    ensures Finalize(w, UndoFinalize(w, crc, finalXor, reflectOutput), finalXor, reflectOutput) == Trunc(crc, w)
  {
    var y := Xor(Trunc(crc, w), finalXor);
    var u := Oriented(w, y, reflectOutput);
    UndoFinalizeIs(w, crc, finalXor, reflectOutput);
    FinalizeIs(w, u, finalXor, reflectOutput);
    // the reflection, applied twice, leaves the W low bits of y
    assert Trunc(Oriented(w, u, reflectOutput), w) == Trunc(y, w) by {
      if reflectOutput {
        ReflectedTwice(y, w);
        TruncTrunc(y, w);
      }
    }
    XorOfAgree(Oriented(w, u, reflectOutput), y, finalXor, w);
    XorCancel(Trunc(crc, w), finalXor);
    TruncTrunc(crc, w);
  }

  /**
   * Un-finalizing a checksum gives back the W low bits of the remainder,
   * when the output is reflected or the final XOR fits in W bits.
   */
  lemma UndoFinalizeFinalize(w: nat, remainder: nat, finalXor: nat, reflectOutput: bool)
    requires w >= 1
    requires reflectOutput || finalXor < Pow2(w)
    ensures UndoFinalize(w, Finalize(w, remainder, finalXor, reflectOutput), finalXor, reflectOutput) == Trunc(remainder, w)
  {
    var r := Oriented(w, remainder, reflectOutput);
    var crc := Trunc(Xor(r, finalXor), w);
    var c := Xor(Trunc(crc, w), finalXor);
    FinalizeIs(w, remainder, finalXor, reflectOutput);
    UndoFinalizeIs(w, crc, finalXor, reflectOutput);
    TruncTrunc(Xor(r, finalXor), w);
    // c agrees with r ^ finalXor ^ finalXor, that is with r, on the W low bits
    assert Trunc(c, w) == Trunc(r, w) by {
      XorOfAgree(crc, Xor(r, finalXor), finalXor, w);
      XorCancel(r, finalXor);
    }
    if reflectOutput {
      ReflectedOfAgree(c, r, w);
      ReflectedTwice(remainder, w);
    } else {
      XorBound(crc, finalXor, w);
      TruncOfSmall(c, w);
    }
  }

  /**
   * Un-finalizing a checksum gives back the W low bits of the remainder on
   * its W low bits, for every final XOR and reflection flag: the bits of the
   * final XOR above W are all that can differ.
   */
  lemma UndoFinalizeFinalizeLow(w: nat, remainder: nat, finalXor: nat, reflectOutput: bool)
    requires w >= 1
    ensures Trunc(UndoFinalize(w, Finalize(w, remainder, finalXor, reflectOutput), finalXor, reflectOutput), w) == Trunc(remainder, w)
  {
    var r := Oriented(w, remainder, reflectOutput);
    var crc := Trunc(Xor(r, finalXor), w);
    var c := Xor(Trunc(crc, w), finalXor);
    FinalizeIs(w, remainder, finalXor, reflectOutput);
    UndoFinalizeIs(w, crc, finalXor, reflectOutput);
    TruncTrunc(Xor(r, finalXor), w);
    assert Trunc(c, w) == Trunc(r, w) by {
      XorOfAgree(crc, Xor(r, finalXor), finalXor, w);
      XorCancel(r, finalXor);
    }
    if reflectOutput {
      ReflectedOfAgree(c, r, w);
      ReflectedTwice(remainder, w);
      TruncTrunc(remainder, w);
    }
  }
}
