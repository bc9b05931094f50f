# CRC engine of CRC++ (`library/CRC.h`), modelled in Dafny

This project models the generic CRC engine of the header-only CRC++ library
as vendored in `library/CRC.h`: class `CRC`, its `Parameters` and `Table`
types, the bit-by-bit and table-driven `CalculateRemainder`,
`CalculateRemainderBits`, `Reflect`, `Finalize`/`UndoFinalize`, and the
eight public `Calculate`/`CalculateBits` overloads. The engine follows the
parameterised CRC model (polynomial, initial value, final XOR, reflect-in,
reflect-out) over an unsigned storage type of S digits (`CRCType`) that
holds a checksum of W bits (`CRCWidth`).

How the model is laid out:

- Machine words are natural numbers below 2^S. C's operators are written out
  in module `Bits`: `Xor`, `And`, `Or`, `Shl`, `Shr`, and `Trunc` for
  `static_cast` to n digits. Proofs about them go through the bit view
  `Bit(x, i)`.
- `CrcParameters.Parameters` carries both template arguments as fields
  (`storage` for `CRCType`, `width` for `CRCWidth`). `Valid()` is the
  `static_assert` W <= S, plus the fact that the three values are `CRCType`s.
- Module `Engine` holds the three inner loops of the source. It specifies
  them by the pure functions `Shift` (one round), `Feed` (one byte), `Run`,
  `Remainder` and `PartialRemainder`. The methods `CalculateRemainder` and
  `CalculateRemainderBits` are proved equal to them.
- Module `Lookup` holds `Table`, a class over a 256-entry `array<nat>`.
  `InitTable` fills the array in place, and the table overload of
  `CalculateRemainder` is proved equal to `TableRemainder`.
- Module `Checksums` holds the public overloads.
- Modules `Words`, `WordRounds` and `ByteRounds` compute registers of up to
  32 bits as four 8-bit bytes, and prove one round and one fed byte there
  equal to `Shift` and `Feed`. Module `KnownAnswers` uses them to follow the
  presets' registers over "123456789" and proves the check values.
- Modules `TableAgreement`, `RemainderFacts`, `Continuation` and `Findings`
  hold what the library promises about these pieces:
  - table and bitwise engines give the same checksum;
  - a checksum can be continued;
  - counting bits over whole bytes is counting bytes;
  - one defect, below.

A trailing partial byte is not reduced to its first `size % 8` bits.
`CalculateRemainderBits` XORs the whole byte into the register and runs
`size % 8` rounds. These examine the byte's low bits first with reflected
input and its high bits first otherwise. The bits no round examines stay in
the register and reach the checksum. The model follows the code here, not a
reading of `CalculateBits` as "the checksum of the first `size` bits";
`Findings.PartialByteKeepsUnexaminedBits` shows the difference.

The raw remainder is never masked to W bits by the engines, so agreement
between two engines is stated on the W low bits. Agreement is exact with
reflected input. In the narrow regime (forward input, W < 8) it is stated
on the eight low bits of the pre-shifted register.

## Model

| member | source | states |
|---|---|---|
| CrcParameters.BitMask | library/CRC.h:307-309 | `BIT_MASK`, built as `(1 << (W-1)) \| ((1 << (W-1)) - 1)`, is 2^W - 1 |
| CrcParameters.AndMask | library/CRC.h:515 | `& BIT_MASK` keeps exactly the W low bits of a value |
| Reflection.Reflect | library/CRC.h:489-501 | the loop returns the low numBits bits of value in reverse order, cast to the storage type |
| Reflection.Reflected | library/CRC.h:489-501 | the reflection of the n low bits is below 2^n |
| Reflection.BitOfReflected | library/CRC.h:489-501 | bit i of the result is bit n-1-i of the input for i < n, and no bit at or above n is set |
| Reflection.ReflectedTwice | library/CRC.h:489-501 | reflecting twice over n bits gives back the n low bits of the value |
| Reflection.ReflectFits | library/CRC.h:494-498 | when numBits <= S, the cast to the storage type loses nothing |
| Finalization.Finalize | library/CRC.h:503-516 | the checksum is below 2^W for every remainder and final XOR |
| Finalization.FinalizeOfAgree | library/CRC.h:503-516 | the checksum depends only on the W low bits of the remainder |
| Finalization.FinalizeUndoFinalize | library/CRC.h:503-533 | finalizing an un-finalized checksum gives back its W low bits, for all inputs |
| Finalization.UndoFinalizeFinalize | library/CRC.h:503-533 | un-finalizing a checksum gives back the W low bits of the remainder, when the output is reflected or the final XOR fits W bits |
| Engine.CalculateRemainder | library/CRC.h:535-640 | the bitwise remainder of `data[..size]` is `Remainder`: the bytes fed in order through the regime's inner loop |
| Engine.ReflectedRemainder | library/CRC.h:552-573 | the reflected branch, with a right-shifting register and reflected polynomial, computes `Remainder` |
| Engine.ForwardRemainder | library/CRC.h:574-602 | the W >= 8 forward branch, with each byte entering at W - 8 and bit W-1 examined, computes `Remainder` |
| Engine.NarrowRemainder | library/CRC.h:603-637 | the W < 8 forward branch, shifted up by 8 - W and back, computes `Remainder` |
| Engine.CalculateRemainderBits | library/CRC.h:693-775 | XOR the byte in once, then run numBits rounds in the regime's register: `PartialRemainder` |
| RegisterFacts.BranchlessShiftIs | library/CRC.h:562-571 | the branchless round, which multiplies the polynomial by the examined bit, equals the branching round; the same `Shift` also covers lines 588-600 and 620-632 |
| RegisterFacts.BitOfShift | library/CRC.h:570 | one round per bit: bit i moves by one place, and the polynomial bit is XORed in exactly when the examined bit was set |
| RegisterFacts.ShiftsXor | library/CRC.h:559-571 | rounds of the inner loop are linear over XOR |
| RegisterFacts.RunAppend | library/CRC.h:555-572 | feeding a then b is feeding a + b |
| RegisterFacts.RunAgree | library/CRC.h:584-602 | a left-shifting register never moves high bits down: runs from starts agreeing on n >= W bits agree on n bits |
| RemainderFacts.RemainderConcat | library/CRC.h:535-640 | the remainder of a + b is exactly the remainder of b continued from that of a, in every regime |
| RemainderFacts.Reenter | library/CRC.h:612-636 | in the narrow regime, shifting a register back down by 8 - W and up again (one call ending, the next beginning) loses no bit, since the low 8 - W bits are clear |
| RemainderFacts.RemainderAgree | library/CRC.h:535-640 | starts that agree on W bits (equal starts with reflected input) give remainders that agree on W bits |
| RemainderFacts.ReflectedRunBelow | library/CRC.h:552-573 | with reflected input, a start below 2^W keeps the register below 2^W |
| RemainderFacts.PartialAgree | library/CRC.h:693-775 | `CalculateRemainderBits` keeps two starts that agree on W bits in agreement |
| RemainderFacts.PartialWholeByte | library/CRC.h:693-775 | `CalculateRemainderBits(b, 8, p, r)` is `CalculateRemainder([b], 1, p, r)` in every regime |
| Lookup.Table.constructor | library/CRC.h:270-284 | the table keeps the parameters and is filled: every entry holds its `TableEntry` |
| Lookup.Table.InitTable | library/CRC.h:304-337 | the do-while over every byte value, which ends when `++byte` wraps to 0, sets every one of the 256 entries |
| Lookup.Table.ComputeEntry | library/CRC.h:320-332 | one entry: the zero-seeded remainder of the byte alone, `& BIT_MASK`, shifted by 8 - W in the narrow regime |
| Lookup.Table.At | library/CRC.h:298-302 | `operator[]` returns the entry of the index |
| Lookup.MakeTable | library/CRC.h:263-268 | builds a fresh, filled table for the parameters |
| Lookup.CalculateRemainderWithTable | library/CRC.h:642-691 | the table remainder of `data[..size]` is `TableRemainder`, one lookup per byte |
| Lookup.ReflectedTableRemainder | library/CRC.h:647-663 | the reflected branch: shift right a byte, XOR the entry of the low byte XOR the input |
| Lookup.ForwardTableRemainder | library/CRC.h:664-673 | the W >= 8 branch: shift left a byte, XOR the entry of the byte at W - 8 XOR the input |
| Lookup.NarrowTableRemainder | library/CRC.h:674-688 | the W < 8 branch: pre-shift, look up, shift back |
| TableAgreement.ReflectedEntry | library/CRC.h:320-334 | with reflected input, an entry is exactly eight rounds of the register on the byte |
| TableAgreement.NarrowEntry | library/CRC.h:320-334 | in the narrow regime, an entry agrees with the eight rounds on the byte on the eight low bits |
| TableAgreement.ReflectedTableFeed | library/CRC.h:658 | with reflected input, one lookup is exactly one byte of the bitwise inner loop |
| TableAgreement.ForwardTableFeed | library/CRC.h:671 | with W >= 8, one lookup is one byte of the bitwise inner loop on the W low bits |
| TableAgreement.NarrowTableFeed | library/CRC.h:684 | with W < 8, one lookup is one byte of the bitwise inner loop on the eight low bits of the pre-shifted register |
| TableAgreement.TableRemainderAgrees | library/CRC.h:642-691 | the table remainder equals the bitwise remainder on the W low bits in every regime, and exactly with reflected input |
| Checksums.Calculate | library/CRC.h:339-347 | `Calculate(data, size, parameters)` is the finalized remainder of `data[..size]` from the initial value |
| Checksums.CalculateFrom | library/CRC.h:348-358 | the continuing overload un-finalizes `crc`, runs the bytes from it and finalizes |
| Checksums.CalculateWithTable | library/CRC.h:360-370 | the table overload returns the same checksum as the parameters overload |
| Checksums.CalculateFromWithTable | library/CRC.h:372-384 | the continuing table overload returns the same checksum as the continuing parameters overload |
| Checksums.TableFinalizes | library/CRC.h:342-369 | table and bitwise remainders give the same checksum after `Finalize` |
| Checksums.CalculateBits | library/CRC.h:386-409 | `BitsChecksum`: the whole `size / 8` bytes, then, when `size % 8 != 0`, the next byte XORed in whole and `size % 8` rounds (low bits first with reflected input, high bits first otherwise); its other bits stay in the result |
| Checksums.CalculateBitsFrom | library/CRC.h:410-433 | as written: the whole bytes restart from the initial value, so `crc` is used only when size < 8 |
| Checksums.CalculateBitsWithTable | library/CRC.h:435-460 | the table overload returns the same checksum as the parameters overload |
| Checksums.CalculateBitsFromWithTable | library/CRC.h:462-487 | as written, the same checksum as the continuing parameters overload |
| Checksums.ResumeFits | library/CRC.h:518-533 | the un-finalized checksum is a `CRCType` value |
| Continuation.ResumeChecksum | library/CRC.h:348-358 | un-finalizing a checksum recovers its raw remainder on W bits, and exactly with reflected input |
| Continuation.ChecksumContinues | library/CRC.h:339-358 | `Calculate(b, p, Calculate(a, p)) == Calculate(a + b, p)` when the values fit W bits |
| Continuation.ContinueOverNothing | library/CRC.h:348-358 | continuing over no data gives back the checksum, cut to W bits |
| Continuation.BitsOfWholeBytes | library/CRC.h:386-409 | `CalculateBits(data, 8k, p) == Calculate(data, k, p)` |
| Presets.Crc4Itu | library/CRC.h:778-782 | `CRC_4_ITU` is valid and its checksums can be continued |
| Presets.Crc8 | library/CRC.h:833-837 | `CRC_8` is valid and its checksums can be continued |
| Presets.Crc16Arc | library/CRC.h:925-929 | `CRC_16_ARC` is valid and its checksums can be continued |
| Presets.Crc32 | library/CRC.h:1082-1086 | `CRC_32` is valid and its checksums can be continued |
| Finalization.UndoFinalizeFinalizeLow | library/CRC.h:503-533 | un-finalizing a checksum gives back the remainder on its W low bits, for every final XOR and reflection flag |
| Reflection.ReflectedConcat | library/CRC.h:489-501 | reflecting m + n bits of `lo + 2^m * hi` (lo below 2^m) gives the reflection of hi, followed by that of lo above it |
| WordRounds.XorWord | library/CRC.h:557 | XOR of two 32-bit words, byte by byte, is `Xor` of the numbers they hold |
| WordRounds.HalfWord | library/CRC.h:570 | shifting a 32-bit word right by one, byte by byte, halves the number it holds, and the bit shifted out is the low bit of its low byte |
| WordRounds.RightRound | library/CRC.h:570 | one round of the reflected inner loop on a register below 2^S is `RoundW` on its word |
| WordRounds.RightEntry | library/CRC.h:557 | XORing a byte into the register is XORing it into the word's low byte, and the result stays below 2^S |
| WordRounds.RightFeed | library/CRC.h:555-572 | one byte of the reflected loop, XOR and eight rounds, is `FeedW` on the word |
| ByteRounds.LeftRound | library/CRC.h:599 | one round of the forward loop of an 8-bit register is `RoundB` on its byte |
| ByteRounds.LeftEntry | library/CRC.h:586 | XORing a byte in at offset W - 8 = 0 is `^` on the register's byte |
| ByteRounds.LeftFeed | library/CRC.h:584-602 | one byte of the forward loop of an 8-bit register, XOR and eight rounds, is `FeedB` on its byte |
| KnownAnswers.RightRun | library/CRC.h:552-573 | a sequence of words in which each follows from the last by `FeedW` on the next input byte ends at the reflected remainder of the whole input |
| KnownAnswers.LeftRun | library/CRC.h:574-602 | a sequence of bytes in which each follows from the last by `FeedB` on the next input byte ends at the forward remainder of the whole input |
| KnownAnswers.ChecksumOfRun | library/CRC.h:503-516 | with no narrowing, no flip and a zero final XOR, the checksum is the remainder the register reaches from the initial value, when that fits W bits |
| KnownAnswers.ChecksumOfWords | library/CRC.h:503-516 | for a 32-bit CRC with no narrowing and no flip, the checksum is the word remainder XORed with the word of the final XOR |
| KnownAnswers.Crc32Polynomial | library/CRC.h:554 | `Reflect(0x04C11DB7, 32)`, the polynomial the reflected loop of `CRC_32` uses, is 0xEDB88320 |
| KnownAnswers.Crc16ArcPolynomial | library/CRC.h:554 | `Reflect(0x8005, 16)`, the polynomial the reflected loop of `CRC_16_ARC` uses, is 0xA001 |
| KnownAnswers.Crc32Register | library/CRC.h:1082-1086 | `CRC_32` runs the right-shifting register with polynomial 0xEDB88320 over 32 digits |
| KnownAnswers.Crc16ArcRegister | library/CRC.h:925-929 | `CRC_16_ARC` runs the right-shifting register with polynomial 0xA001 over 16 digits |
| KnownAnswers.Crc4ItuRegister | library/CRC.h:778-782 | `CRC_4_ITU` runs the right-shifting register with polynomial 0xC over 8 digits |
| KnownAnswers.Crc32Remainder | library/CRC.h:552-573 | from 0xFFFFFFFF, the `CRC_32` register after "123456789" is 0x340BC6D9 |
| KnownAnswers.Crc16ArcRemainder | library/CRC.h:552-573 | from 0, the `CRC_16_ARC` register after "123456789" is 0xBB3D |
| KnownAnswers.Crc4ItuRemainder | library/CRC.h:552-573 | from 0, the `CRC_4_ITU` register after "123456789" is 0x7 |
| KnownAnswers.Crc8Remainder | library/CRC.h:574-602 | from 0, the `CRC_8` register after "123456789" is 0xF4 |
| KnownAnswers.Crc32KnownAnswer | library/CRC.h:1082-1086 | the checksum of "123456789" under `CRC_32` is its check value 0xCBF43926 (the note at line 156) |
| KnownAnswers.Crc16ArcKnownAnswer | library/CRC.h:925-929 | the checksum of "123456789" under `CRC_16_ARC` is its check value 0xBB3D |
| KnownAnswers.Crc4ItuKnownAnswer | library/CRC.h:778-782 | the checksum of "123456789" under `CRC_4_ITU` is its check value 0x7 |
| KnownAnswers.Crc8KnownAnswer | library/CRC.h:833-837 | the checksum of "123456789" under `CRC_8` is its check value 0xF4 |
| KnownAnswers.Crc32Check | library/CRC.h:155-156 | `Calculate` on the nine bytes of "123456789", with `CRC_32()` and with a table built from it, returns 0xCBF43926 |
| KnownAnswers.Crc16ArcCheck | library/CRC.h:155-156 | `Calculate` on "123456789", with `CRC_16_ARC()` and with its table, returns 0xBB3D |
| KnownAnswers.Crc4ItuCheck | library/CRC.h:155-156 | `Calculate` on "123456789", with `CRC_4_ITU()` and with its table, returns 0x7 |
| KnownAnswers.Crc8Check | library/CRC.h:155-156 | `Calculate` on "123456789", with `CRC_8()` and with its table, returns 0xF4 |
| Findings.BitsContinuationForgets | library/CRC.h:410-433 | as written, with at least one whole byte, the continuing `CalculateBits` ignores `crc` |
| Findings.BitsContinuationIgnoresPrefix | library/CRC.h:410-433 | as written, continuing from the checksum of any prefix gives the result for the empty prefix |
| Findings.BitsContinuationCounterexample | library/CRC.h:420 | for every forward CRC as wide as its storage type, with an odd polynomial and zero initial value and final XOR, continuing `[0]` from the checksum of `[1]` differs from the checksum of `[1, 0]`; the corrected form gives it |
| Findings.Crc8Counterexample | library/CRC.h:420 | `CRC_8` is such a CRC |
| Findings.CalculateBitsFromCorrected | library/CRC.h:410-433 | the continuing overload with the resumed remainder passed at line 420 |
| Findings.CalculateBitsFromWithTableCorrected | library/CRC.h:462-487 | the continuing table overload with the resumed remainder passed at line 474 |
| Findings.PartialByteKeepsUnexaminedBits | library/CRC.h:718-743 | forward input, W >= 8: one bit of 0x80 and one bit of 0x81, whose first bit is the same, give remainders that differ on the W low bits, because bit 0 of the byte, never examined, reaches bit W - 7 |
| Findings.FirstBitOnly | library/CRC.h:718-743 | forward input, W >= 8: any two bytes with the same top bit and different bit 0 give, over one bit, remainders that differ on the W low bits |
| Findings.OneForwardRound | library/CRC.h:727-742 | bit W - 7 after one round is bit 0 of the byte XORed in at W - 8, flipped by the polynomial exactly when the examined bit W - 1 is set |
| Findings.Crc8PartialByte | library/CRC.h:386-409 | with `CRC_8`, `CalculateBits` of one bit of 0x80 and of 0x81 differ |
| Findings.CorrectedBitsContinue | library/CRC.h:410-433 | corrected, and for parameters whose checksums can be continued, continuing from the checksum of a over n bits of b gives what `CalculateBits` returns over 8\|a\| + n bits of a + b |

## Left out

- The preset catalogue beyond `CRC_4_ITU`, `CRC_8`, `CRC_16_ARC` and `CRC_32` is left out: it is constant data.
- Preprocessor configuration, the C++03 static-assert emulation, the deleted or private constructors of `CRC` and the MSVC warning pragmas are left out. W <= S is the precondition `Parameters.Valid()`.
- The `CRCPP_BRANCHLESS` variants are not separate code paths. `RegisterFacts.BranchlessShiftIs` shows that their round equals the branching round.
- A custom `CRCType` with overloaded operators is left out. The storage type is one of the four unsigned widths of 8, 16, 32 and 64 digits.
- `CHAR_BIT` is fixed at 8.
- `Table(Parameters &&)` moves its argument. It is modelled by the same constructor as the copying one.
- `Table::GetParameters` and `Table::GetTable` are plain accessors. The model reads the fields `parameters` and `table` directly.
- The `void *` data argument and the walk over its bytes are modelled as a sequence of bytes with `size <= |data|` (bits: `(size + 7) / 8 <= |data|`). Reading past the buffer is undefined behaviour in the source and is excluded by that precondition.
- `library/tmag_sensor.h` is not part of this model. It is device plumbing: bitfield frames, the foreign `TMAG_TransferFrame` and `printf` logging.
- TableAgreement.TableRemainderAgrees: states agreement with the bitwise remainder on the W low bits, not equality of raw remainders, outside the reflected regime. Above W the two engines differ in the bits they leave in the register, and only the W low bits reach the checksum.
- Continuation.ChecksumContinues: with reflected input, requires the initial value to fit W bits, and the final XOR to fit W bits unless the output reflection differs from the input reflection. A right-shifting register uses its start whole, so `UndoFinalize` must recover the raw remainder exactly, and it cannot when bits above W were XORed in or started with. With forward input it holds for all parameters: a left-shifting register never moves bits above W down, and `UndoFinalize` always recovers the W low bits (`Finalization.UndoFinalizeFinalizeLow`). All four modelled presets meet the conditions.

## Findings

| source | as written | input that shows it | evidently intended | confidence | as-written member | corrected member |
|---|---|---|---|---|---|---|
| library/CRC.h:420 (and :474 in the table overload) | the continuing `CalculateBits` passes `parameters.initialValue` to `CalculateRemainder` whenever size >= 8, discarding the remainder just recovered from `crc` | `CRC_8`, data `[0x00]`, size 8, `crc` = checksum of `[0x01]`: the result is the checksum of `[0x00]` alone, not that of `[0x01, 0x00]` | pass `remainder`, as the continuing `Calculate` does at line 353, so that continuing from the checksum of a gives the checksum of a followed by the new bits | not executed | Findings.BitsContinuationCounterexample | Findings.CorrectedBitsContinue |
