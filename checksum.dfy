/**
 * The public `CRC::Calculate` and `CRC::CalculateBits` overloads: over
 * parameters or over a lookup table, from the initial value or continuing
 * from a previous checksum.
 *
 * `Checksum`, `ChecksumFrom`, `BitsChecksum` and `BitsChecksumFrom` say what
 * the bit-by-bit overloads return; every table overload is proved to return
 * the same checksum as its bit-by-bit counterpart.
 */
module Checksums {
  import opened Bits
  import opened CrcParameters
  import opened Finalization
  import opened Engine
  import opened Lookup
  import opened TableAgreement
  import opened RemainderFacts

  /** `Finalize` reflects the remainder when input and output reflection differ. */
  predicate Flip(p: Parameters)
  {
    p.reflectInput != p.reflectOutput
  }

  /** The checksum of `data` from the initial value. */
  function Checksum(p: Parameters, data: seq<Byte>): (crc: nat)
    requires p.Valid()
    ensures crc < Pow2(p.width)
  {
    Finalize(p.width, Remainder(p, data, p.initialValue), p.finalXor, Flip(p))
  }

  /** The raw remainder a previous checksum stands for (`UndoFinalize`). */
  function Resume(p: Parameters, crc: nat): nat
    requires p.Valid()
  {
    UndoFinalize(p.width, crc, p.finalXor, Flip(p))
  }

  /** The checksum of `data` continuing from a previous checksum `crc`. */
  function ChecksumFrom(p: Parameters, data: seq<Byte>, crc: nat): (c: nat)
    requires p.Valid()
    ensures c < Pow2(p.width)
  {
    Finalize(p.width, Remainder(p, data, Resume(p, crc)), p.finalXor, Flip(p))
  }

  /** Enough bytes for `size` bits: the whole bytes and, if `size % 8 != 0`, one more. */
  predicate HasBits(data: seq<Byte>, size: nat)
  {
    (size + 7) / 8 <= |data|
  }

  /**
   * The raw remainder `CalculateBits` reaches for `size` bits of `data` from
   * r: the whole bytes (skipped, leaving r untouched, when there are none),
   * then, when `size % 8 != 0`, the next byte XORed in whole and `size % 8`
   * rounds, which examine its low bits first with reflected input and its
   * high bits first otherwise; the bits no round examines stay in the
   * register (`Findings.PartialByteKeepsUnexaminedBits`).
   */
  function BitsRemainder(p: Parameters, data: seq<Byte>, size: nat, r: nat): nat
    requires p.Valid() && HasBits(data, size)
  {
    var k := size / 8;
    var whole := if k > 0 then Remainder(p, data[..k], r) else r;
    if size % 8 != 0 then PartialRemainder(p, data[k], size % 8, whole) else whole
  }

  /** The checksum `CalculateBits(data, size, parameters)` returns, from the initial value. */
  function BitsChecksum(p: Parameters, data: seq<Byte>, size: nat): (crc: nat)
    requires p.Valid() && HasBits(data, size)
    ensures crc < Pow2(p.width)
  {
    Finalize(p.width, BitsRemainder(p, data, size, p.initialValue), p.finalXor, Flip(p))
  }

  /**
   * What `CalculateBits(data, size, parameters, crc)` returns as written:
   * the whole bytes start from the initial value, so `crc` is used only when
   * `size < 8`.
   */
  function BitsChecksumFrom(p: Parameters, data: seq<Byte>, size: nat, crc: nat): (c: nat)
    requires p.Valid() && HasBits(data, size)
    ensures c < Pow2(p.width)
  {
    var start := if size / 8 > 0 then p.initialValue else Resume(p, crc);
    Finalize(p.width, BitsRemainder(p, data, size, start), p.finalXor, Flip(p))
  }

  /** A resumed remainder is a `CRCType`. */
  lemma ResumeFits(p: Parameters, crc: nat)
    requires p.Valid()
    ensures Resume(p, crc) < Pow2(p.S())
  {
    var w, s := p.width, p.S();
    UndoFinalizeIs(w, crc, p.finalXor, Flip(p));
    Pow2Monotone(w, s);
    if Flip(p) {
      assert Oriented(w, Xor(Trunc(crc, w), p.finalXor), true) < Pow2(w);
    } else {
      XorBound(Trunc(crc, w), p.finalXor, s);
    }
  }

  /** Two raw remainders finalize alike when the table engine and the bitwise engine produce them. */
  lemma TableFinalizes(p: Parameters, e: Byte -> nat, data: seq<Byte>, r: nat)
    requires p.Valid() && r < Pow2(p.S())
    requires forall c: Byte :: e(c) == TableEntry(p, c)
    ensures Finalize(p.width, TableRemainder(p, e, data, r), p.finalXor, Flip(p)) ==
            Finalize(p.width, Remainder(p, data, r), p.finalXor, Flip(p))
  {
    TableRemainderAgrees(p, e, data, r);
    FinalizeOfAgree(p.width, TableRemainder(p, e, data, r), Remainder(p, data, r), p.finalXor, Flip(p));
  }

  /** `CRC::Calculate(data, size, parameters)` */
  method Calculate(data: seq<Byte>, size: nat, p: Parameters) returns (crc: nat)
    requires p.Valid() && size <= |data|
    ensures crc == Checksum(p, data[..size])
  {
    var remainder := CalculateRemainder(data, size, p, p.initialValue);
    crc := Finalize(p.width, remainder, p.finalXor, p.reflectInput != p.reflectOutput);
  }

  /** `CRC::Calculate(data, size, parameters, crc)` */
  method CalculateFrom(data: seq<Byte>, size: nat, p: Parameters, previous: nat) returns (crc: nat)
    requires p.Valid() && size <= |data|
    ensures crc == ChecksumFrom(p, data[..size], previous)
  {
    var remainder := UndoFinalize(p.width, previous, p.finalXor, p.reflectInput != p.reflectOutput);
    remainder := CalculateRemainder(data, size, p, remainder);
    crc := Finalize(p.width, remainder, p.finalXor, p.reflectInput != p.reflectOutput);
  }

  /** `CRC::Calculate(data, size, lookupTable)`: the same checksum as over the parameters. */
  method CalculateWithTable(data: seq<Byte>, size: nat, lookupTable: Table) returns (crc: nat)
    requires lookupTable.Valid() && size <= |data|
    ensures crc == Checksum(lookupTable.parameters, data[..size])
  {
    var p := lookupTable.parameters;
    var remainder := CalculateRemainderWithTable(data, size, lookupTable, p.initialValue);
    crc := Finalize(p.width, remainder, p.finalXor, p.reflectInput != p.reflectOutput);
    TableFinalizes(p, lookupTable.entry, data[..size], p.initialValue);
  }

  /** `CRC::Calculate(data, size, lookupTable, crc)`: the same checksum as over the parameters. */
  method CalculateFromWithTable(data: seq<Byte>, size: nat, lookupTable: Table, previous: nat) returns (crc: nat)
    requires lookupTable.Valid() && size <= |data|
    ensures crc == ChecksumFrom(lookupTable.parameters, data[..size], previous)
  {
    var p := lookupTable.parameters;
    var remainder := UndoFinalize(p.width, previous, p.finalXor, p.reflectInput != p.reflectOutput);
    ResumeFits(p, previous);
    ghost var start := remainder;
    remainder := CalculateRemainderWithTable(data, size, lookupTable, remainder);
    crc := Finalize(p.width, remainder, p.finalXor, p.reflectInput != p.reflectOutput);
    TableFinalizes(p, lookupTable.entry, data[..size], start);
  }

  /** `CRC::CalculateBits(data, size, parameters)`: `size` counts bits. */
  method CalculateBits(data: seq<Byte>, size: nat, p: Parameters) returns (crc: nat)
    requires p.Valid() && HasBits(data, size)
    ensures crc == BitsChecksum(p, data, size)
  {
    var remainder := p.initialValue;
    var wholeNumberOfBytes := size / 8;
    if wholeNumberOfBytes > 0 {
      remainder := CalculateRemainder(data, wholeNumberOfBytes, p, remainder);
    }
    var remainingNumberOfBits := size % 8;
    if remainingNumberOfBits != 0 {
      var lastByte := data[wholeNumberOfBytes];
      remainder := CalculateRemainderBits(lastByte, remainingNumberOfBits, p, remainder);
    }
    crc := Finalize(p.width, remainder, p.finalXor, p.reflectInput != p.reflectOutput);
  }

  /**
   * `CRC::CalculateBits(data, size, parameters, crc)` as written: the whole
   * bytes restart from the initial value (see `Findings`).
   */
  method CalculateBitsFrom(data: seq<Byte>, size: nat, p: Parameters, previous: nat) returns (crc: nat)
    requires p.Valid() && HasBits(data, size)
    ensures crc == BitsChecksumFrom(p, data, size, previous)
  {
    var remainder := UndoFinalize(p.width, previous, p.finalXor, p.reflectInput != p.reflectOutput);
    var wholeNumberOfBytes := size / 8;
    if wholeNumberOfBytes > 0 {
      remainder := CalculateRemainder(data, wholeNumberOfBytes, p, p.initialValue);
    }
    var remainingNumberOfBits := size % 8;
    if remainingNumberOfBits != 0 {
      var lastByte := data[wholeNumberOfBytes];
      remainder := CalculateRemainderBits(lastByte, remainingNumberOfBits, p, remainder);
    }
    crc := Finalize(p.width, remainder, p.finalXor, p.reflectInput != p.reflectOutput);
  }

  /**
   * The tail shared by the two table overloads of `CalculateBits`: the
   * remainder after the whole bytes agrees with the bitwise one (on W bits,
   * and exactly with reflected input), and so does the checksum after the
   * last bits.
   */
  lemma TableBitsFinalize(p: Parameters, e: Byte -> nat, data: seq<Byte>, size: nat, start: nat, remainder: nat)
    requires p.Valid() && HasBits(data, size) && start < Pow2(p.S())
    requires forall c: Byte :: e(c) == TableEntry(p, c)
    requires remainder == (var k := size / 8;
                           var whole := if k > 0 then TableRemainder(p, e, data[..k], start) else start;
                           if size % 8 != 0 then PartialRemainder(p, data[k], size % 8, whole) else whole)
    ensures Finalize(p.width, remainder, p.finalXor, Flip(p)) ==
            Finalize(p.width, BitsRemainder(p, data, size, start), p.finalXor, Flip(p))
  {
    var k := size / 8;
    var whole := if k > 0 then TableRemainder(p, e, data[..k], start) else start;
    var bitwise := if k > 0 then Remainder(p, data[..k], start) else start;
    if k > 0 {
      TableRemainderAgrees(p, e, data[..k], start);
    }
    if size % 8 != 0 {
      PartialAgree(p, data[k], size % 8, whole, bitwise);
    }
    FinalizeOfAgree(p.width, remainder, BitsRemainder(p, data, size, start), p.finalXor, Flip(p));
  }

  /** `CRC::CalculateBits(data, size, lookupTable)`: the same checksum as over the parameters. */
  method CalculateBitsWithTable(data: seq<Byte>, size: nat, lookupTable: Table) returns (crc: nat)
    requires lookupTable.Valid() && HasBits(data, size)
    ensures crc == BitsChecksum(lookupTable.parameters, data, size)
  {
    var p := lookupTable.parameters;
    var remainder := p.initialValue;
    var wholeNumberOfBytes := size / 8;
    if wholeNumberOfBytes > 0 {
      remainder := CalculateRemainderWithTable(data, wholeNumberOfBytes, lookupTable, remainder);
    }
    var remainingNumberOfBits := size % 8;
    if remainingNumberOfBits != 0 {
      var lastByte := data[wholeNumberOfBytes];
      remainder := CalculateRemainderBits(lastByte, remainingNumberOfBits, p, remainder);
    }
    crc := Finalize(p.width, remainder, p.finalXor, p.reflectInput != p.reflectOutput);
    TableBitsFinalize(p, lookupTable.entry, data, size, p.initialValue, remainder);
  }

  /**
   * `CRC::CalculateBits(data, size, lookupTable, crc)` as written: the same
   * checksum as the parameters overload, including its restart from the
   * initial value.
   */
  method CalculateBitsFromWithTable(data: seq<Byte>, size: nat, lookupTable: Table, previous: nat) returns (crc: nat)
    requires lookupTable.Valid() && HasBits(data, size)
    ensures crc == BitsChecksumFrom(lookupTable.parameters, data, size, previous)
  {
    var p := lookupTable.parameters;
    var remainder := UndoFinalize(p.width, previous, p.finalXor, p.reflectInput != p.reflectOutput);
    ResumeFits(p, previous);
    ghost var start := if size / 8 > 0 then p.initialValue else remainder;
    var wholeNumberOfBytes := size / 8;
    if wholeNumberOfBytes > 0 {
      remainder := CalculateRemainderWithTable(data, wholeNumberOfBytes, lookupTable, p.initialValue);
    }
    var remainingNumberOfBits := size % 8;
    if remainingNumberOfBits > 0 {
      var lastByte := data[wholeNumberOfBytes];
      remainder := CalculateRemainderBits(lastByte, remainingNumberOfBits, p, remainder);
    }
    crc := Finalize(p.width, remainder, p.finalXor, p.reflectInput != p.reflectOutput);
    TableBitsFinalize(p, lookupTable.entry, data, size, start, remainder);
  }
}
