/**
 * The table-driven engine: `CRC::Table` (built by `InitTable`),
 * `Parameters::MakeTable` and the table overload of
 * `CRC::CalculateRemainder`.
 *
 * Each of the 256 entries is the remainder of one byte fed into a zeroed
 * register, masked to W bits (and, in the narrow regime, shifted back up by
 * 8 - W). The table engine then processes a whole byte per lookup instead
 * of eight rounds of the inner loop.
 */
module Lookup {
  import opened Bits
  import opened CrcParameters
  import opened Engine

  /** `static_cast<unsigned char>(x)` */
  function LowByte(x: nat): Byte
  {
    assert Pow2(8) == 256;
    Trunc(x, 8)
  }

  /**
   * Entry b of the table: the remainder of the single byte b with a zero
   * start, `& BIT_MASK`, and `<< SHIFT` cast to `CRCType` when the input is
   * not reflected and W < 8.
   */
  function TableEntry(p: Parameters, b: Byte): nat
    requires p.Valid()
  {
    var crc := And(Remainder(p, [b], 0), BitMask(p.width));
    if p.Narrow() then Trunc(Shl(crc, 8 - p.width), p.S()) else crc
  }

  /**
   * One byte through a table whose entry for byte c is e(c), per regime:
   * shifting right by a byte, shifting left by a byte, or (narrow) a plain
   * lookup.
   */
  function TableFeed(p: Parameters, e: Byte -> nat, r: nat, b: Byte): nat
    requires p.Valid()
  {
    if p.reflectInput then
      Trunc(Xor(Shr(r, 8), e(LowByte(Xor(r, b)))), p.S())
    else if p.width >= 8 then
      ForwardLookup(e, r, b, p.width - 8, p.S())
    else
      e(LowByte(Xor(r, b)))
  }

  /**
   * The forward step of the table engine for a register of s digits fed at
   * m = W - 8: the register moved up a byte, XOR the entry for its top byte
   * XOR the input byte.
   */
  function ForwardLookup(e: Byte -> nat, r: nat, b: Byte, m: nat, s: nat): nat
  {
    Trunc(Xor(Shl(r, 8), e(LowByte(Xor(Shr(r, m), b)))), s)
  }

  /** With forward input and W >= 8, a table step is the forward step. */
  lemma ForwardTableFeedIs(p: Parameters, e: Byte -> nat, r: nat, b: Byte)
    requires p.Valid() && !p.reflectInput && p.width >= 8
    ensures TableFeed(p, e, r, b) == ForwardLookup(e, r, b, p.width - 8, p.S())
  {
  }

  /** The bytes of `data` fed through the table in order, starting from r. */
  function TableRun(p: Parameters, e: Byte -> nat, data: seq<Byte>, r: nat): nat
    requires p.Valid()
  {
    if |data| == 0 then r else TableFeed(p, e, TableRun(p, e, data[..|data| - 1], r), data[|data| - 1])
  }

  /** The raw remainder the table overload of `CalculateRemainder` returns. */
  function TableRemainder(p: Parameters, e: Byte -> nat, data: seq<Byte>, r: nat): nat
    requires p.Valid()
  {
    Leave(p, TableRun(p, e, data, Enter(p, r)))
  }

  /** `CRC::Table<CRCType, CRCWidth>`: the parameters and 256 entries. */
  class Table {
    const parameters: Parameters
    const table: array<nat>
    /** Entry b of the table, as `TableEntry` defines it. */
    ghost const entry: Byte -> nat

    /** Every one of the 256 entries holds the value `InitTable` computes for its index. */
    ghost predicate Valid()
      reads this, table
    {
      Specified() && table.Length == 256 &&
      forall b: Byte :: table[b] == entry(b)
    }

    /** `entry` is `TableEntry` for these parameters. */
    ghost predicate Specified()
    {
      parameters.Valid() &&
      forall b: Byte {:trigger TableEntry(parameters, b)} :: entry(b) == TableEntry(parameters, b)
    }

    /** `Table(const Parameters &)`: copy the parameters, then `InitTable()`. */
    constructor (params: Parameters)
      requires params.Valid()
      ensures parameters == params
      ensures Valid() && fresh(table)
    {
      parameters := params;
      table := new nat[256];
      entry := b => TableEntry(params, b);
      new;
      InitTable();
    }

    /**
     * `InitTable()`: a do-while over every `unsigned char`, ending when
     * `++byte` wraps around to 0.
     */
    method InitTable()
      requires Specified() && table.Length == 256
      modifies table
      ensures Valid()
    {
      var b: Byte := 0;
      while true
        invariant forall c: Byte :: c < b ==> table[c] == entry(c)
        decreases 256 - b
      {
        var crc := ComputeEntry(b);
        table[b] := crc;
        ghost var written := b + 1;
        b := (b + 1) % 256;
        if b == 0 {
          assert written == 256;
          break;
        }
      }
    }

    /**
     * One pass of the loop of `InitTable`: the remainder of the byte alone
     * from a zero register, `& BIT_MASK`, and `<< SHIFT` in the narrow regime.
     */
    method ComputeEntry(b: Byte) returns (crc: nat)
      requires Specified()
      ensures crc == entry(b)
    {
      var bitMask := BitMask(parameters.width);
      var shift := if 8 >= parameters.width then 8 - parameters.width else 0;
      var rem := CalculateRemainder([b], 1, parameters, 0);
      SingletonPrefix(b);
      crc := And(rem, bitMask);
      if !parameters.reflectInput && parameters.width < 8 {
        crc := Trunc(Shl(crc, shift), parameters.S());
      }
      assert crc == TableEntry(parameters, b);
    }

    /** `operator[](unsigned char index)` */
    function At(index: Byte): (v: nat)
      reads this, table
      requires Valid()
      ensures v == entry(index)
    {
      table[index]
    }
  }

  lemma SingletonPrefix(b: Byte)
    ensures [b][..1] == [b]
  {
  }

  /** `Parameters::MakeTable()` */
  method MakeTable(p: Parameters) returns (t: Table)
    requires p.Valid()
    ensures fresh(t) && fresh(t.table)
    ensures t.parameters == p && t.Valid()
  {
    t := new Table(p);
  }

  /** Feeding one more byte extends the table run. */
  lemma TableRunSnoc(p: Parameters, e: Byte -> nat, data: seq<Byte>, i: nat, r: nat)
    requires p.Valid() && i < |data|
    ensures TableRun(p, e, data[..i + 1], r) == TableFeed(p, e, TableRun(p, e, data[..i], r), data[i])
  {
    assert data[..i + 1][..i] == data[..i];
  }

  /**
   * The table overload of `CRC::CalculateRemainder(data, size, lookupTable,
   * remainder)`: one lookup per byte of `data[..size]`.
   */
  method CalculateRemainderWithTable(data: seq<Byte>, size: nat, lookupTable: Table, remainder: nat)
    returns (r: nat)
    requires lookupTable.Valid()
    requires size <= |data|
    ensures r == TableRemainder(lookupTable.parameters, lookupTable.entry, data[..size], remainder)
  {
    var p := lookupTable.parameters;
    if p.reflectInput {
      r := ReflectedTableRemainder(data, size, lookupTable, remainder);
    } else if p.width >= 8 {
      r := ForwardTableRemainder(data, size, lookupTable, remainder);
    } else {
      r := NarrowTableRemainder(data, size, lookupTable, remainder);
    }
  }

  /** The reflected branch of the table `CalculateRemainder`. */
  method ReflectedTableRemainder(data: seq<Byte>, size: nat, lookupTable: Table, remainder: nat)
    returns (r: nat)
    requires lookupTable.Valid() && lookupTable.parameters.reflectInput
    requires size <= |data|
    ensures r == TableRemainder(lookupTable.parameters, lookupTable.entry, data[..size], remainder)
  {
    var p := lookupTable.parameters;
    ghost var e := lookupTable.entry;
    var s := p.S();
    r := remainder;
    var i := 0;
    while i < size
      invariant i <= size
      invariant r == TableRun(p, e, data[..i], remainder)
    {
      TableRunSnoc(p, e, data, i, remainder);
      r := Trunc(Xor(Shr(r, 8), lookupTable.At(LowByte(Xor(r, data[i])))), s);
      i := i + 1;
    }
  }

  /** The branch of the table `CalculateRemainder` for forward CRCs of at least 8 bits. */
  method ForwardTableRemainder(data: seq<Byte>, size: nat, lookupTable: Table, remainder: nat)
    returns (r: nat)
    requires lookupTable.Valid() && !lookupTable.parameters.reflectInput && lookupTable.parameters.width >= 8
    requires size <= |data|
    ensures r == TableRemainder(lookupTable.parameters, lookupTable.entry, data[..size], remainder)
  {
    var p := lookupTable.parameters;
    ghost var e := lookupTable.entry;
    var s := p.S();
    var shift := p.width - 8;
    r := remainder;
    var i := 0;
    while i < size
      invariant i <= size
      invariant r == TableRun(p, e, data[..i], remainder)
    {
      TableRunSnoc(p, e, data, i, remainder);
      ForwardTableFeedIs(p, e, r, data[i]);
      r := Trunc(Xor(Shl(r, 8), lookupTable.At(LowByte(Xor(Shr(r, shift), data[i])))), s);
      i := i + 1;
    }
  }

  /** The branch of the table `CalculateRemainder` for forward CRCs narrower than a byte. */
  method NarrowTableRemainder(data: seq<Byte>, size: nat, lookupTable: Table, remainder: nat)
    returns (r: nat)
    requires lookupTable.Valid() && lookupTable.parameters.Narrow()
    requires size <= |data|
    ensures r == TableRemainder(lookupTable.parameters, lookupTable.entry, data[..size], remainder)
  {
    var p := lookupTable.parameters;
    ghost var e := lookupTable.entry;
    var s := p.S();
    var shift := 8 - p.width;
    r := Trunc(Shl(remainder, shift), s);
    ghost var entered := r;
    assert entered == Enter(p, remainder);
    var i := 0;
    while i < size
      invariant i <= size
      invariant r == TableRun(p, e, data[..i], entered)
    {
      TableRunSnoc(p, e, data, i, entered);
      r := lookupTable.At(LowByte(Xor(r, data[i])));
      i := i + 1;
    }
    r := Trunc(Shr(r, shift), s);
  }
}
