/**
 * The bit-by-bit engine: `CRC::CalculateRemainder` over parameters and
 * `CRC::CalculateRemainderBits`.
 *
 * The source runs one of three inner loops, chosen by the parameters:
 *  - reflected input: the register shifts right, bit 0 is examined, and the
 *    polynomial is reflected first;
 *  - forward input with W >= 8: the register shifts left, bit W - 1 is
 *    examined, and each byte enters at bit W - 8;
 *  - forward input with W < 8 (`Narrow`): the register and polynomial are
 *    shifted up by 8 - W so that bit 7 can be examined, and the remainder is
 *    shifted back down at the end.
 * `Register` names the constants of that loop and `Shift` is one round of it.
 */
module Engine {
  import opened Bits
  import opened Reflection
  import opened CrcParameters

  /** An `unsigned char`. */
  type Byte = b: nat | b < 256

  /**
   * The inner loop of one regime: the shift direction, the polynomial it
   * XORs in, the bit it tests when shifting left, the digits of `CRCType`,
   * and the bit at which a data byte is XORed in.
   */
  datatype Register = Register(reflected: bool, poly: nat, top: nat, digits: nat, feedAt: nat)

  /**
   * One round of the inner loop, cast to `CRCType`. Shifting right:
   * `(r & 1) ? (r >> 1) ^ poly : r >> 1`; shifting left:
   * `(r & (1 << top)) ? (r << 1) ^ poly : r << 1`.
   */
  function Shift(g: Register, r: nat): nat
  {
    if g.reflected then
      Trunc(if And(r, 1) != 0 then Xor(Shr(r, 1), g.poly) else Shr(r, 1), g.digits)
    else
      Trunc(if And(r, Shl(1, g.top)) != 0 then Xor(Shl(r, 1), g.poly) else Shl(r, 1), g.digits)
  }

  /** n rounds of the inner loop. */
  function Shifts(g: Register, n: nat, r: nat): nat
  {
    if n == 0 then r else Shift(g, Shifts(g, n - 1, r))
  }

  /** One byte of input: XOR it in at `feedAt`, then eight rounds. */
  function Feed(g: Register, r: nat, b: Byte): nat
  {
    Shifts(g, 8, Trunc(Xor(r, Shl(b, g.feedAt)), g.digits))
  }

  /** The bytes of `data` fed in order, starting from r. */
  function Run(g: Register, data: seq<Byte>, r: nat): nat
  {
    if |data| == 0 then r else Feed(g, Run(g, data[..|data| - 1], r), data[|data| - 1])
  }

  /** The inner loop the parameters select. */
  function RegisterOf(p: Parameters): (g: Register)
    requires p.Valid()
    ensures g.digits == p.S()
  {
    if p.reflectInput then
      Register(true, Reflected(p.polynomial, p.width), 0, p.S(), 0)
    else if p.width >= 8 then
      Register(false, p.polynomial, p.width - 1, p.S(), p.width - 8)
    else
      Register(false, Trunc(Shl(p.polynomial, 8 - p.width), p.S()), 7, p.S(), 0)
  }

  /** The register on entry: shifted up by 8 - W in the narrow regime. */
  function Enter(p: Parameters, r: nat): nat
    requires p.Valid()
  {
    if p.Narrow() then Trunc(Shl(r, 8 - p.width), p.S()) else r
  }

  /** The register on exit: shifted back down in the narrow regime. */
  function Leave(p: Parameters, r: nat): nat
    requires p.Valid()
  {
    if p.Narrow() then Trunc(Shr(r, 8 - p.width), p.S()) else r
  }

  /** The raw remainder `CalculateRemainder(data, |data|, p, r)` returns. */
  function Remainder(p: Parameters, data: seq<Byte>, r: nat): nat
    requires p.Valid()
  {
    Leave(p, Run(RegisterOf(p), data, Enter(p, r)))
  }

  /**
   * The raw remainder `CalculateRemainderBits(b, numBits, p, r)` returns: the
   * whole byte XORed in, then numBits rounds.
   */
  function PartialRemainder(p: Parameters, b: Byte, numBits: nat, r: nat): nat
    requires p.Valid()
  {
    var g := RegisterOf(p);
    if p.reflectInput then
      Shifts(g, numBits, Trunc(Xor(r, b), p.S()))
    else if p.width >= 8 then
      Shifts(g, numBits, Trunc(Xor(r, Shl(b, p.width - 8)), p.S()))
    else
      Leave(p, Shifts(g, numBits, Trunc(Xor(Shl(r, 8 - p.width), b), p.S())))
  }

  /** Feeding one more byte extends the run. */
  lemma RunSnoc(g: Register, data: seq<Byte>, i: nat, r: nat)
    requires i < |data|
    ensures Run(g, data[..i + 1], r) == Feed(g, Run(g, data[..i], r), data[i])
  {
    assert data[..i + 1][..i] == data[..i];
  }

  /**
   * `CRC::CalculateRemainder(data, size, parameters, remainder)`: the bytes
   * `data[..size]` pass one by one through the inner loop of the regime.
   */
  method CalculateRemainder(data: seq<Byte>, size: nat, p: Parameters, remainder: nat) returns (r: nat)
    requires p.Valid()
    requires size <= |data|
    ensures r == Remainder(p, data[..size], remainder)
  {
    if p.reflectInput {
      r := ReflectedRemainder(data, size, p, remainder);
    } else if p.width >= 8 {
      r := ForwardRemainder(data, size, p, remainder);
    } else {
      r := NarrowRemainder(data, size, p, remainder);
    }
  }

  /** The reflected branch of `CalculateRemainder`. */
  method ReflectedRemainder(data: seq<Byte>, size: nat, p: Parameters, remainder: nat) returns (r: nat)
    requires p.Valid() && p.reflectInput
    requires size <= |data|
    ensures r == Remainder(p, data[..size], remainder)
  {
    var g := RegisterOf(p);
    var s := p.S();
    var polynomial := Reflect(p.polynomial, p.width, s);
    ReflectFits(p.polynomial, p.width, s);
    r := remainder;
    var i := 0;
    while i < size
      invariant i <= size
      invariant r == Run(g, data[..i], remainder)
    {
      RunSnoc(g, data, i, remainder);
      r := Trunc(Xor(r, data[i]), s);
      ghost var fed := r;
      for k := 0 to 8
        invariant r == Shifts(g, k, fed)
      {
        r := Trunc(if And(r, 1) != 0 then Xor(Shr(r, 1), polynomial) else Shr(r, 1), s);
      }
      i := i + 1;
    }
  }

  /** The branch of `CalculateRemainder` for forward CRCs of at least 8 bits. */
  method ForwardRemainder(data: seq<Byte>, size: nat, p: Parameters, remainder: nat) returns (r: nat)
    requires p.Valid() && !p.reflectInput && p.width >= 8
    requires size <= |data|
    ensures r == Remainder(p, data[..size], remainder)
  {
    var g := RegisterOf(p);
    var s := p.S();
    var highestBitMask := Shl(1, p.width - 1);
    var shift := p.width - 8;
    assert g == Register(false, p.polynomial, p.width - 1, s, shift);
    r := remainder;
    var i := 0;
    while i < size
      invariant i <= size
      invariant r == Run(g, data[..i], remainder)
    {
      RunSnoc(g, data, i, remainder);
      r := Trunc(Xor(r, Shl(data[i], shift)), s);
      ghost var fed := r;
      for k := 0 to 8
        invariant r == Shifts(g, k, fed)
      {
        r := Trunc(if And(r, highestBitMask) != 0 then Xor(Shl(r, 1), p.polynomial) else Shl(r, 1), s);
      }
      i := i + 1;
    }
  }

  /** The branch of `CalculateRemainder` for forward CRCs narrower than a byte. */
  method NarrowRemainder(data: seq<Byte>, size: nat, p: Parameters, remainder: nat) returns (r: nat)
    requires p.Valid() && p.Narrow()
    requires size <= |data|
    ensures r == Remainder(p, data[..size], remainder)
  {
    var g := RegisterOf(p);
    var s := p.S();
    var highestBitMask := Shl(1, 7);
    var shift := 8 - p.width;
    var polynomial := Trunc(Shl(p.polynomial, shift), s);
    assert g == Register(false, polynomial, 7, s, 0);
    r := Trunc(Shl(remainder, shift), s);
    ghost var entered := r;
    var i := 0;
    while i < size
      invariant i <= size
      invariant r == Run(g, data[..i], entered)
    {
      RunSnoc(g, data, i, entered);
      r := Trunc(Xor(r, data[i]), s);
      ghost var fed := r;
      for k := 0 to 8
        invariant r == Shifts(g, k, fed)
      {
        r := Trunc(if And(r, highestBitMask) != 0 then Xor(Shl(r, 1), polynomial) else Shl(r, 1), s);
      }
      i := i + 1;
    }
    r := Trunc(Shr(r, shift), s);
  }

  /**
   * `CRC::CalculateRemainderBits(byte, numBits, parameters, remainder)`: the
   * byte is XORed in once and the inner loop runs numBits rounds.
   */
  method CalculateRemainderBits(b: Byte, numBits: nat, p: Parameters, remainder: nat) returns (r: nat)
    requires p.Valid()
    ensures r == PartialRemainder(p, b, numBits, remainder)
  {
    var g := RegisterOf(p);
    var s := p.S();
    if p.reflectInput {
      var polynomial := Reflect(p.polynomial, p.width, s);
      ReflectFits(p.polynomial, p.width, s);
      r := Trunc(Xor(remainder, b), s);
      ghost var fed := r;
      for k := 0 to numBits
        invariant r == Shifts(g, k, fed)
      {
        r := Trunc(if And(r, 1) != 0 then Xor(Shr(r, 1), polynomial) else Shr(r, 1), s);
      }
    } else if p.width >= 8 {
      var highestBitMask := Shl(1, p.width - 1);
      r := Trunc(Xor(remainder, Shl(b, p.width - 8)), s);
      ghost var fed := r;
      for k := 0 to numBits
        invariant r == Shifts(g, k, fed)
      {
        r := Trunc(if And(r, highestBitMask) != 0 then Xor(Shl(r, 1), p.polynomial) else Shl(r, 1), s);
      }
    } else {
      var highestBitMask := Shl(1, 7);
      var shift := 8 - p.width;
      var polynomial := Trunc(Shl(p.polynomial, shift), s);
      r := Trunc(Xor(Shl(remainder, shift), b), s);
      ghost var fed := r;
      for k := 0 to numBits
        invariant r == Shifts(g, k, fed)
      {
        r := Trunc(if And(r, highestBitMask) != 0 then Xor(Shl(r, 1), polynomial) else Shl(r, 1), s);
      }
      r := Trunc(Shr(r, shift), s);
    }
  }
}
