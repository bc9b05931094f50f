/**
 * Continuing a checksum: passing the checksum of a block as `crc` to the
 * continuing overload of `Calculate` gives the checksum of the blocks
 * concatenated, and the bit-count overloads agree with the byte-count ones
 * on whole bytes.
 */
module Continuation {
  import opened Bits
  import opened CrcParameters
  import opened Finalization
  import opened Engine
  import opened RegisterFacts
  import opened TableAgreement
  import opened RemainderFacts
  import opened Checksums

  /**
   * The conditions under which a checksum can be continued. A left-shifting
   * register never moves bits above W down, so with forward input the W low
   * bits `UndoFinalize` always recovers suffice. A right-shifting register
   * uses its start whole, so with reflected input `UndoFinalize` must recover
   * the raw remainder exactly: the final XOR is cut to W bits by the
   * reflection or already fits, and the start is within W bits.
   */
  predicate Resumable(p: Parameters)
    requires p.Valid()
  {
    p.reflectInput ==> (Flip(p) || p.finalXor < Pow2(p.width)) && p.initialValue < Pow2(p.width)
  }

  /**
   * Resuming the checksum of `data` gives its raw remainder on W bits, and
   * exactly when the input is reflected.
   */
  lemma ResumeChecksum(p: Parameters, data: seq<Byte>)
    requires p.Valid() && Resumable(p)
    ensures Trunc(Resume(p, Checksum(p, data)), p.width) == Trunc(Remainder(p, data, p.initialValue), p.width)
    ensures p.reflectInput ==> Resume(p, Checksum(p, data)) == Remainder(p, data, p.initialValue)
  {
    var w := p.width;
    var r := Remainder(p, data, p.initialValue);
    UndoFinalizeFinalizeLow(w, r, p.finalXor, Flip(p));
    if p.reflectInput {
      UndoFinalizeFinalize(w, r, p.finalXor, Flip(p));
      ReflectedRunBelow(p, data, p.initialValue);
      TruncOfSmall(r, w);
    }
  }

  /**
   * `Calculate(b, |b|, parameters, Calculate(a, |a|, parameters))` is
   * `Calculate(a + b, |a + b|, parameters)`: a message can be checksummed
   * in pieces.
   */
  lemma ChecksumContinues(p: Parameters, a: seq<Byte>, b: seq<Byte>)
    requires p.Valid() && Resumable(p)
    ensures ChecksumFrom(p, b, Checksum(p, a)) == Checksum(p, a + b)
  {
    var w := p.width;
    var ra := Remainder(p, a, p.initialValue);
    var start := Resume(p, Checksum(p, a));
    ResumeChecksum(p, a);
    RemainderAgree(p, b, start, ra);
    RemainderConcat(p, a, b, p.initialValue);
    FinalizeOfAgree(w, Remainder(p, b, start), Remainder(p, a + b, p.initialValue), p.finalXor, Flip(p));
  }

  /** Continuing over no data gives back the checksum, cut to W bits, for all parameters. */
  lemma ContinueOverNothing(p: Parameters, crc: nat)
    requires p.Valid()
    ensures ChecksumFrom(p, [], crc) == Trunc(crc, p.width)
  {
    var w := p.width;
    var start := Resume(p, crc);
    var g := RegisterOf(p);
    assert Run(g, [], Enter(p, start)) == Enter(p, start);
    if p.Narrow() {
      LeaveEnter(p, start);
    }
    TruncTrunc(start, w);
    FinalizeOfAgree(w, Remainder(p, [], start), start, p.finalXor, Flip(p));
    FinalizeUndoFinalize(w, crc, p.finalXor, Flip(p));
  }

  /** Counting n whole bytes in bits gives the checksum of those bytes. */
  lemma BitsOfWholeBytes(p: Parameters, data: seq<Byte>, n: nat)
    requires p.Valid() && n <= |data|
    ensures HasBits(data, 8 * n)
    ensures BitsChecksum(p, data, 8 * n) == Checksum(p, data[..n])
  {
    var init := p.initialValue;
    assert (8 * n) / 8 == n && (8 * n) % 8 == 0;
    if n == 0 {
      var g := RegisterOf(p);
      assert Run(g, [], Enter(p, init)) == Enter(p, init);
      if p.Narrow() {
        LeaveEnter(p, init);
      }
      TruncTrunc(init, p.width);
      FinalizeOfAgree(p.width, init, Remainder(p, data[..0], init), p.finalXor, Flip(p));
    }
  }
}
