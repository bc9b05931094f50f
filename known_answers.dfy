/**
 * The check values the library states for its presets: the CRC of the ASCII
 * text "123456789". Each is proved of `Checksum`, and of what `Calculate` and
 * the table-driven `CalculateWithTable` return.
 *
 * The register is followed byte by byte on machine words (`Words`), where
 * the solver evaluates eight rounds on constants directly; `WordRounds` and
 * `ByteRounds` tie each fed byte to `Feed`, and `RightRun` and `LeftRun`
 * chain the bytes into `Run`.
 */
module KnownAnswers {
  import opened Bits
  import opened Reflection
  import opened CrcParameters
  import opened Engine
  import opened Finalization
  import opened Lookup
  import opened Checksums
  import opened Presets
  import opened Words
  import opened WordRounds
  import opened ByteRounds

  /** The ASCII text "123456789". */
  function CheckInput(): seq<Byte>
  {
    [0x31, 0x32, 0x33, 0x34, 0x35, 0x36, 0x37, 0x38, 0x39]
  }

  /** The same text as 8-bit bytes. */
  function CheckBytes(): seq<bv8>
  {
    [0x31, 0x32, 0x33, 0x34, 0x35, 0x36, 0x37, 0x38, 0x39]
  }

  /** Reflecting 2m bits, given the reflections of the two m-bit halves. */
  lemma ReflectedJoin(v: nat, lo: nat, hi: nat, m: nat, rlo: nat, rhi: nat, r: nat)
    requires lo < Pow2(m) && v == lo + Pow2(m) * hi
    requires Reflected(lo, m) == rlo && Reflected(hi, m) == rhi && r == rhi + Pow2(m) * rlo
    ensures Reflected(v, m + m) == r
  {
    ReflectedConcat(lo, hi, m, m);
  }

  /** The reflections of the 4-bit values the polynomials are made of. */
  lemma Nibbles()
    ensures Reflected(0x0, 4) == 0x0 && Reflected(0x1, 4) == 0x8 && Reflected(0x3, 4) == 0xC
    ensures Reflected(0x4, 4) == 0x2 && Reflected(0x5, 4) == 0xA && Reflected(0x7, 4) == 0xE
    ensures Reflected(0x8, 4) == 0x1 && Reflected(0xB, 4) == 0xD && Reflected(0xC, 4) == 0x3
    ensures Reflected(0xD, 4) == 0xB
  {
  }

  /** The register polynomial of `CRC_32()`: `0x04C11DB7` reflected in 32 bits. */
  lemma Crc32Polynomial()
    ensures Reflected(0x04C11DB7, 32) == 0xEDB88320
  {
    Nibbles();
    Pow2Words();
    assert Pow2(4) == 0x10 && Pow2(8) == 0x100;
    ReflectedJoin(0xB7, 0x7, 0xB, 4, 0xE, 0xD, 0xED);
    ReflectedJoin(0x1D, 0xD, 0x1, 4, 0xB, 0x8, 0xB8);
    ReflectedJoin(0xC1, 0x1, 0xC, 4, 0x8, 0x3, 0x83);
    ReflectedJoin(0x04, 0x4, 0x0, 4, 0x2, 0x0, 0x20);
    ReflectedJoin(0x1DB7, 0xB7, 0x1D, 8, 0xED, 0xB8, 0xEDB8);
    ReflectedJoin(0x04C1, 0xC1, 0x04, 8, 0x83, 0x20, 0x8320);
    ReflectedJoin(0x04C11DB7, 0x1DB7, 0x04C1, 16, 0xEDB8, 0x8320, 0xEDB88320);
  }

  /** The register polynomial of `CRC_16_ARC()`: `0x8005` reflected in 16 bits. */
  lemma Crc16ArcPolynomial()
    ensures Reflected(0x8005, 16) == 0xA001
  {
    Nibbles();
    assert Pow2(4) == 0x10 && Pow2(8) == 0x100;
    ReflectedJoin(0x05, 0x5, 0x0, 4, 0xA, 0x0, 0xA0);
    ReflectedJoin(0x80, 0x0, 0x8, 4, 0x0, 0x1, 0x01);
    ReflectedJoin(0x8005, 0x05, 0x80, 8, 0xA0, 0x01, 0xA001);
  }

  /** `states[j + 1]` is `states[j]` with byte j of data fed to the word engine, for every byte. */
  predicate RightTrace(poly: Word, data: seq<Byte>, bytes: seq<bv8>, states: seq<Word>)
  {
    |bytes| == |data| && |states| == |data| + 1 && RightTraced(poly, data, bytes, states, 0, |data|)
  }

  /** The same for the bytes from lo up to hi. */
  predicate RightTraced(poly: Word, data: seq<Byte>, bytes: seq<bv8>, states: seq<Word>, lo: nat, hi: nat)
    requires |bytes| == |data| && |states| == |data| + 1 && hi <= |data|
  {
    forall j :: lo <= j < hi ==> bytes[j] as nat == data[j] && FeedW(poly, states[j], bytes[j]) == states[j + 1]
  }

  /** The right-shifting word engine after one more byte of the input. */
  lemma RightRunStep(g: Register, poly: Word, data: seq<Byte>, bytes: seq<bv8>, states: seq<Word>, r: nat, i: nat)
    requires RightEngine(g, poly) && g.feedAt == 0 && g.digits >= 8
    requires RightTrace(poly, data, bytes, states) && i < |data|
    requires Run(g, data[..i], r) == Value(states[i]) && Value(states[i]) < Pow2(g.digits)
    ensures Run(g, data[..i + 1], r) == Value(states[i + 1]) && Value(states[i + 1]) < Pow2(g.digits)
  {
    NIs(bytes[i]);
    RunSnoc(g, data, i, r);
    RightFeed(g, poly, states[i], data[i], bytes[i]);
  }

  /** Following a trace of the word engine from byte i on gives the run of the whole input. */
  lemma {:induction false} RightRun(g: Register, poly: Word, data: seq<Byte>, bytes: seq<bv8>, states: seq<Word>, r: nat, i: nat)
    requires RightEngine(g, poly) && g.feedAt == 0 && g.digits >= 8
    requires RightTrace(poly, data, bytes, states) && i <= |data|
    requires Run(g, data[..i], r) == Value(states[i]) && Value(states[i]) < Pow2(g.digits)
    ensures Run(g, data, r) == Value(states[|data|])
    decreases |data| - i
  {
    if i == |data| {
      assert data[..i] == data;
    } else {
      RightRunStep(g, poly, data, bytes, states, r, i);
      RightRun(g, poly, data, bytes, states, r, i + 1);
    }
  }

  /** `states[j + 1]` is `states[j]` with byte j of data fed to the byte engine, for every byte. */
  predicate LeftTrace(poly: bv8, data: seq<Byte>, bytes: seq<bv8>, states: seq<bv8>)
  {
    |bytes| == |data| && |states| == |data| + 1 && LeftTraced(poly, data, bytes, states, 0, |data|)
  }

  /** The same for the bytes from lo up to hi. */
  predicate LeftTraced(poly: bv8, data: seq<Byte>, bytes: seq<bv8>, states: seq<bv8>, lo: nat, hi: nat)
    requires |bytes| == |data| && |states| == |data| + 1 && hi <= |data|
  {
    forall j :: lo <= j < hi ==> bytes[j] as nat == data[j] && FeedB(poly, states[j], bytes[j]) == states[j + 1]
  }

  /** The left-shifting byte engine after one more byte of the input. */
  lemma LeftRunStep(g: Register, poly: bv8, data: seq<Byte>, bytes: seq<bv8>, states: seq<bv8>, r: nat, i: nat)
    requires LeftEngine(g, poly) && LeftTrace(poly, data, bytes, states) && i < |data|
    requires Run(g, data[..i], r) == N(states[i])
    ensures Run(g, data[..i + 1], r) == N(states[i + 1])
  {
    NIs(bytes[i]);
    RunSnoc(g, data, i, r);
    LeftFeed(g, poly, states[i], data[i], bytes[i]);
  }

  /** Following a trace of the byte engine from byte i on gives the run of the whole input. */
  lemma {:induction false} LeftRun(g: Register, poly: bv8, data: seq<Byte>, bytes: seq<bv8>, states: seq<bv8>, r: nat, i: nat)
    requires LeftEngine(g, poly) && LeftTrace(poly, data, bytes, states) && i <= |data|
    requires Run(g, data[..i], r) == N(states[i])
    ensures Run(g, data, r) == N(states[|data|])
    decreases |data| - i
  {
    if i == |data| {
      assert data[..i] == data;
    } else {
      LeftRunStep(g, poly, data, bytes, states, r, i);
      LeftRun(g, poly, data, bytes, states, r, i + 1);
    }
  }

  /**
   * The checksum of a preset that neither narrows nor flips and XORs nothing
   * in at the end: the remainder the register reaches from the initial value.
   */
  lemma ChecksumOfRun(p: Parameters, data: seq<Byte>, g: Register, rem: nat)
    requires p.Valid() && !p.Narrow() && !Flip(p) && RegisterOf(p) == g && p.finalXor == 0
    requires Run(g, data, p.initialValue) == rem && rem < Pow2(p.width)
    ensures Checksum(p, data) == rem
  {
    FinalizeIs(p.width, rem, 0, false);
    XorZero(rem);
    TruncOfSmall(rem, p.width);
  }

  /**
   * The checksum of a 32-bit preset that neither narrows nor flips: the
   * remainder the register reaches from the initial value, XORed with
   * finalXor, both as machine words.
   */
  lemma ChecksumOfWords(p: Parameters, data: seq<Byte>, g: Register, rem: Word, fx: Word)
    requires p.Valid() && !p.Narrow() && !Flip(p) && RegisterOf(p) == g && p.width == 32
    requires Run(g, data, p.initialValue) == Value(rem) && p.finalXor == Value(fx)
    ensures Checksum(p, data) == Value(XorW(rem, fx))
  {
    var x := XorW(rem, fx);
    FinalizeIs(32, Value(rem), Value(fx), false);
    XorWord(rem, fx);
    ValueIs(x);
    Pow2Words();
    TruncOfSmall(Value(x), 32);
  }

  /** The register of `CRC_32()` before the check input and after each of its bytes. */
  function Crc32States(): seq<Word>
  {
    [Word(0xFF, 0xFF, 0xFF, 0xFF),
      Word(0x48, 0x10, 0x23, 0x7C),
      Word(0x32, 0xBB, 0xAC, 0xB0),
      Word(0x2D, 0x9C, 0xB7, 0x77),
      Word(0x5C, 0x1F, 0x1C, 0x64),
      Word(0xE3, 0xC5, 0x0A, 0x34),
      Word(0x9E, 0x2C, 0x8D, 0xF6),
      Word(0x60, 0x96, 0xFC, 0xAF),
      Word(0x50, 0x25, 0x1F, 0x65),
      Word(0xD9, 0xC6, 0x0B, 0x34)]
  }

  /** Bytes 0 to 2 of the check input, fed one at a time. */
  lemma Crc32Trace0()
    ensures RightTraced(Word(0x20, 0x83, 0xB8, 0xED), CheckInput(), CheckBytes(), Crc32States(), 0, 3)
  {
    var s := Crc32States();
    var p := Word(0x20, 0x83, 0xB8, 0xED);
    assert FeedW(p, s[0], 0x31) == s[1];
    assert FeedW(p, s[1], 0x32) == s[2];
    assert FeedW(p, s[2], 0x33) == s[3];
  }

  /** Bytes 3 to 5 of the check input, fed one at a time. */
  lemma Crc32Trace1()
    ensures RightTraced(Word(0x20, 0x83, 0xB8, 0xED), CheckInput(), CheckBytes(), Crc32States(), 3, 6)
  {
    var s := Crc32States();
    var p := Word(0x20, 0x83, 0xB8, 0xED);
    assert FeedW(p, s[3], 0x34) == s[4];
    assert FeedW(p, s[4], 0x35) == s[5];
    assert FeedW(p, s[5], 0x36) == s[6];
  }

  /** Bytes 6 to 8 of the check input, fed one at a time. */
  lemma Crc32Trace2()
    ensures RightTraced(Word(0x20, 0x83, 0xB8, 0xED), CheckInput(), CheckBytes(), Crc32States(), 6, 9)
  {
    var s := Crc32States();
    var p := Word(0x20, 0x83, 0xB8, 0xED);
    assert FeedW(p, s[6], 0x37) == s[7];
    assert FeedW(p, s[7], 0x38) == s[8];
    assert FeedW(p, s[8], 0x39) == s[9];
  }

  /** `Crc32States` traces the whole check input. */
  lemma Crc32Trace()
    ensures RightTrace(Word(0x20, 0x83, 0xB8, 0xED), CheckInput(), CheckBytes(), Crc32States())
  {
    Crc32Trace0();
    Crc32Trace1();
    Crc32Trace2();
  }

  /** The register `CRC_32()` runs on. */
  lemma Crc32Register()
    ensures RegisterOf(Crc32()) == Register(true, 0xEDB88320, 0, 32, 0)
  {
    Crc32Polynomial();
  }

  /** The register of `CRC_32()` after the check input. */
  lemma Crc32Remainder()
    ensures Run(Register(true, 0xEDB88320, 0, 32, 0), CheckInput(), 0xFFFFFFFF) == Value(Word(0xD9, 0xC6, 0x0B, 0x34))
  {
    var poly := Word(0x20, 0x83, 0xB8, 0xED);
    ValueIs(poly);
    ValueIs(Word(0xFF, 0xFF, 0xFF, 0xFF));
    Pow2Words();
    Crc32Trace();
    RightRun(Register(true, 0xEDB88320, 0, 32, 0), poly, CheckInput(), CheckBytes(), Crc32States(), 0xFFFFFFFF, 0);
  }

  /** The check value of `CRC_32()`. */
  lemma Crc32KnownAnswer()
    ensures Checksum(Crc32(), CheckInput()) == 0xCBF43926
  {
    Crc32Register();
    Crc32Remainder();
    ValueIs(Word(0xFF, 0xFF, 0xFF, 0xFF));
    ChecksumOfWords(Crc32(), CheckInput(), Register(true, 0xEDB88320, 0, 32, 0), Word(0xD9, 0xC6, 0x0B, 0x34), Word(0xFF, 0xFF, 0xFF, 0xFF));
    ValueIs(Word(0x26, 0x39, 0xF4, 0xCB));
  }

  /** `CRC::Calculate` on the check input with `CRC_32()`, over the parameters and over a table. */
  method Crc32Check() returns (crc: nat, crcWithTable: nat)
    ensures crc == 0xCBF43926 && crcWithTable == 0xCBF43926
  {
    var data := CheckInput();
    assert data[..9] == data;
    Crc32KnownAnswer();
    crc := Calculate(data, 9, Crc32());
    var lookupTable := MakeTable(Crc32());
    crcWithTable := CalculateWithTable(data, 9, lookupTable);
  }

  /** The register of `CRC_16_ARC()` before the check input and after each of its bytes. */
  function Crc16ArcStates(): seq<Word>
  {
    [Word(0x00, 0x00, 0x00, 0x00),
      Word(0xC1, 0xD4, 0x00, 0x00),
      Word(0x94, 0x45, 0x00, 0x00),
      Word(0x04, 0xBA, 0x00, 0x00),
      Word(0xBA, 0x14, 0x00, 0x00),
      Word(0x55, 0xA4, 0x00, 0x00),
      Word(0xE4, 0x29, 0x00, 0x00),
      Word(0x68, 0x9D, 0x00, 0x00),
      Word(0x9D, 0x3C, 0x00, 0x00),
      Word(0x3D, 0xBB, 0x00, 0x00)]
  }

  /** Bytes 0 to 2 of the check input, fed one at a time. */
  lemma Crc16ArcTrace0()
    ensures RightTraced(Word(0x01, 0xA0, 0x00, 0x00), CheckInput(), CheckBytes(), Crc16ArcStates(), 0, 3)
  {
    var s := Crc16ArcStates();
    var p := Word(0x01, 0xA0, 0x00, 0x00);
    assert FeedW(p, s[0], 0x31) == s[1];
    assert FeedW(p, s[1], 0x32) == s[2];
    assert FeedW(p, s[2], 0x33) == s[3];
  }

  /** Bytes 3 to 5 of the check input, fed one at a time. */
  lemma Crc16ArcTrace1()
    ensures RightTraced(Word(0x01, 0xA0, 0x00, 0x00), CheckInput(), CheckBytes(), Crc16ArcStates(), 3, 6)
  {
    var s := Crc16ArcStates();
    var p := Word(0x01, 0xA0, 0x00, 0x00);
    assert FeedW(p, s[3], 0x34) == s[4];
    assert FeedW(p, s[4], 0x35) == s[5];
    assert FeedW(p, s[5], 0x36) == s[6];
  }

  /** Bytes 6 to 8 of the check input, fed one at a time. */
  lemma Crc16ArcTrace2()
    ensures RightTraced(Word(0x01, 0xA0, 0x00, 0x00), CheckInput(), CheckBytes(), Crc16ArcStates(), 6, 9)
  {
    var s := Crc16ArcStates();
    var p := Word(0x01, 0xA0, 0x00, 0x00);
    assert FeedW(p, s[6], 0x37) == s[7];
    assert FeedW(p, s[7], 0x38) == s[8];
    assert FeedW(p, s[8], 0x39) == s[9];
  }

  /** `Crc16ArcStates` traces the whole check input. */
  lemma Crc16ArcTrace()
    ensures RightTrace(Word(0x01, 0xA0, 0x00, 0x00), CheckInput(), CheckBytes(), Crc16ArcStates())
  {
    Crc16ArcTrace0();
    Crc16ArcTrace1();
    Crc16ArcTrace2();
  }

  /** The register `CRC_16_ARC()` runs on. */
  lemma Crc16ArcRegister()
    ensures RegisterOf(Crc16Arc()) == Register(true, 0xA001, 0, 16, 0)
  {
    Crc16ArcPolynomial();
  }

  /** The register of `CRC_16_ARC()` after the check input. */
  lemma Crc16ArcRemainder()
    ensures Run(Register(true, 0xA001, 0, 16, 0), CheckInput(), 0) == 0xBB3D
  {
    var poly := Word(0x01, 0xA0, 0x00, 0x00);
    ValueIs(poly);
    ValueIs(Word(0x00, 0x00, 0x00, 0x00));
    Pow2Words();
    Crc16ArcTrace();
    RightRun(Register(true, 0xA001, 0, 16, 0), poly, CheckInput(), CheckBytes(), Crc16ArcStates(), 0, 0);
    ValueIs(Word(0x3D, 0xBB, 0x00, 0x00));
  }

  /** The check value of `CRC_16_ARC()`. */
  lemma Crc16ArcKnownAnswer()
    ensures Checksum(Crc16Arc(), CheckInput()) == 0xBB3D
  {
    Crc16ArcRegister();
    Crc16ArcRemainder();
    Pow2Words();
    ChecksumOfRun(Crc16Arc(), CheckInput(), Register(true, 0xA001, 0, 16, 0), 0xBB3D);
  }

  /** `CRC::Calculate` on the check input with `CRC_16_ARC()`, over the parameters and over a table. */
  method Crc16ArcCheck() returns (crc: nat, crcWithTable: nat)
    ensures crc == 0xBB3D && crcWithTable == 0xBB3D
  {
    var data := CheckInput();
    assert data[..9] == data;
    Crc16ArcKnownAnswer();
    crc := Calculate(data, 9, Crc16Arc());
    var lookupTable := MakeTable(Crc16Arc());
    crcWithTable := CalculateWithTable(data, 9, lookupTable);
  }

  /** The register of `CRC_4_ITU()` before the check input and after each of its bytes. */
  function Crc4ItuStates(): seq<Word>
  {
    [Word(0x00, 0x00, 0x00, 0x00),
      Word(0x09, 0x00, 0x00, 0x00),
      Word(0x0D, 0x00, 0x00, 0x00),
      Word(0x0F, 0x00, 0x00, 0x00),
      Word(0x0D, 0x00, 0x00, 0x00),
      Word(0x04, 0x00, 0x00, 0x00),
      Word(0x00, 0x00, 0x00, 0x00),
      Word(0x02, 0x00, 0x00, 0x00),
      Word(0x0A, 0x00, 0x00, 0x00),
      Word(0x07, 0x00, 0x00, 0x00)]
  }

  /** Bytes 0 to 2 of the check input, fed one at a time. */
  lemma Crc4ItuTrace0()
    ensures RightTraced(Word(0x0C, 0x00, 0x00, 0x00), CheckInput(), CheckBytes(), Crc4ItuStates(), 0, 3)
  {
    var s := Crc4ItuStates();
    var p := Word(0x0C, 0x00, 0x00, 0x00);
    assert FeedW(p, s[0], 0x31) == s[1];
    assert FeedW(p, s[1], 0x32) == s[2];
    assert FeedW(p, s[2], 0x33) == s[3];
  }

  /** Bytes 3 to 5 of the check input, fed one at a time. */
  lemma Crc4ItuTrace1()
    ensures RightTraced(Word(0x0C, 0x00, 0x00, 0x00), CheckInput(), CheckBytes(), Crc4ItuStates(), 3, 6)
  {
    var s := Crc4ItuStates();
    var p := Word(0x0C, 0x00, 0x00, 0x00);
    assert FeedW(p, s[3], 0x34) == s[4];
    assert FeedW(p, s[4], 0x35) == s[5];
    assert FeedW(p, s[5], 0x36) == s[6];
  }

  /** Bytes 6 to 8 of the check input, fed one at a time. */
  lemma Crc4ItuTrace2()
    ensures RightTraced(Word(0x0C, 0x00, 0x00, 0x00), CheckInput(), CheckBytes(), Crc4ItuStates(), 6, 9)
  {
    var s := Crc4ItuStates();
    var p := Word(0x0C, 0x00, 0x00, 0x00);
    assert FeedW(p, s[6], 0x37) == s[7];
    assert FeedW(p, s[7], 0x38) == s[8];
    assert FeedW(p, s[8], 0x39) == s[9];
  }

  /** `Crc4ItuStates` traces the whole check input. */
  lemma Crc4ItuTrace()
    ensures RightTrace(Word(0x0C, 0x00, 0x00, 0x00), CheckInput(), CheckBytes(), Crc4ItuStates())
  {
    Crc4ItuTrace0();
    Crc4ItuTrace1();
    Crc4ItuTrace2();
  }

  /** The register `CRC_4_ITU()` runs on. */
  lemma Crc4ItuRegister()
    ensures RegisterOf(Crc4Itu()) == Register(true, 0xC, 0, 8, 0)
  {
    Nibbles();
  }

  /** The register of `CRC_4_ITU()` after the check input. */
  lemma Crc4ItuRemainder()
    ensures Run(Register(true, 0xC, 0, 8, 0), CheckInput(), 0) == 0x7
  {
    var poly := Word(0x0C, 0x00, 0x00, 0x00);
    ValueIs(poly);
    ValueIs(Word(0x00, 0x00, 0x00, 0x00));
    assert Pow2(8) == 0x100;
    Crc4ItuTrace();
    RightRun(Register(true, 0xC, 0, 8, 0), poly, CheckInput(), CheckBytes(), Crc4ItuStates(), 0, 0);
    ValueIs(Word(0x07, 0x00, 0x00, 0x00));
  }

  /** The check value of `CRC_4_ITU()`. */
  lemma Crc4ItuKnownAnswer()
    ensures Checksum(Crc4Itu(), CheckInput()) == 0x7
  {
    Crc4ItuRegister();
    Crc4ItuRemainder();
    assert Pow2(4) == 0x10;
    ChecksumOfRun(Crc4Itu(), CheckInput(), Register(true, 0xC, 0, 8, 0), 0x7);
  }

  /** `CRC::Calculate` on the check input with `CRC_4_ITU()`, over the parameters and over a table. */
  method Crc4ItuCheck() returns (crc: nat, crcWithTable: nat)
    ensures crc == 0x7 && crcWithTable == 0x7
  {
    var data := CheckInput();
    assert data[..9] == data;
    Crc4ItuKnownAnswer();
    crc := Calculate(data, 9, Crc4Itu());
    var lookupTable := MakeTable(Crc4Itu());
    crcWithTable := CalculateWithTable(data, 9, lookupTable);
  }

  /** The register of `CRC_8()` before the check input and after each of its bytes. */
  function Crc8States(): seq<bv8>
  {
    [0x00,
      0x97,
      0x72,
      0xC0,
      0xC2,
      0xCB,
      0xFD,
      0x78,
      0xC7,
      0xF4]
  }

  /** Bytes 0 to 2 of the check input, fed one at a time. */
  lemma Crc8Trace0()
    ensures LeftTraced(0x07, CheckInput(), CheckBytes(), Crc8States(), 0, 3)
  {
    var s := Crc8States();
    var p := 0x07;
    assert FeedB(p, s[0], 0x31) == s[1];
    assert FeedB(p, s[1], 0x32) == s[2];
    assert FeedB(p, s[2], 0x33) == s[3];
  }

  /** Bytes 3 to 5 of the check input, fed one at a time. */
  lemma Crc8Trace1()
    ensures LeftTraced(0x07, CheckInput(), CheckBytes(), Crc8States(), 3, 6)
  {
    var s := Crc8States();
    var p := 0x07;
    assert FeedB(p, s[3], 0x34) == s[4];
    assert FeedB(p, s[4], 0x35) == s[5];
    assert FeedB(p, s[5], 0x36) == s[6];
  }

  /** Bytes 6 to 8 of the check input, fed one at a time. */
  lemma Crc8Trace2()
    ensures LeftTraced(0x07, CheckInput(), CheckBytes(), Crc8States(), 6, 9)
  {
    var s := Crc8States();
    var p := 0x07;
    assert FeedB(p, s[6], 0x37) == s[7];
    assert FeedB(p, s[7], 0x38) == s[8];
    assert FeedB(p, s[8], 0x39) == s[9];
  }

  /** `Crc8States` traces the whole check input. */
  lemma Crc8Trace()
    ensures LeftTrace(0x07, CheckInput(), CheckBytes(), Crc8States())
  {
    Crc8Trace0();
    Crc8Trace1();
    Crc8Trace2();
  }

  /** The register of `CRC_8()` after the check input. */
  lemma Crc8Remainder()
    ensures Run(Register(false, 0x07, 7, 8, 0), CheckInput(), 0) == 0xF4
  {
    NIs(0x07);
    NIs(0x00);
    Crc8Trace();
    LeftRun(Register(false, 0x07, 7, 8, 0), 0x07, CheckInput(), CheckBytes(), Crc8States(), 0, 0);
    NIs(0xF4);
  }

  /** The check value of `CRC_8()`. */
  lemma Crc8KnownAnswer()
    ensures Checksum(Crc8(), CheckInput()) == 0xF4
  {
    Crc8Remainder();
    assert Pow2(8) == 0x100;
    ChecksumOfRun(Crc8(), CheckInput(), Register(false, 0x07, 7, 8, 0), 0xF4);
  }

  /** `CRC::Calculate` on the check input with `CRC_8()`, over the parameters and over a table. */
  method Crc8Check() returns (crc: nat, crcWithTable: nat)
    ensures crc == 0xF4 && crcWithTable == 0xF4
  {
    var data := CheckInput();
    assert data[..9] == data;
    Crc8KnownAnswer();
    crc := Calculate(data, 9, Crc8());
    var lookupTable := MakeTable(Crc8());
    crcWithTable := CalculateWithTable(data, 9, lookupTable);
  }
}
