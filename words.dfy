/**
 * Registers as machine words: four 8-bit bytes, least significant first.
 *
 * The engine is stated over natural numbers. Here one round, and one fed
 * byte, of the right-shifting engine are computed on bytes instead, and of
 * the left-shifting 8-bit engine on a single byte, and each is proved to
 * give the number the engine gives. The solver evaluates rounds on constant
 * bytes directly, which is what the known answers rest on.
 */
module Words {
  import opened Bits
  import opened Engine

  /** The number an 8-bit byte holds, read off its bits. */
  function N(b: bv8): nat
    decreases b
  {
    if b == 0 then 0 else 2 * N(b >> 1) + (if b & 1 == 1 then 1 else 0)
  }

  lemma NHalves(a: bv8)
    ensures N(a) / 2 == N(a >> 1)
    ensures N(a) % 2 == (if a & 1 == 1 then 1 else 0)
  {
  }

  lemma ShiftDecreases(b: bv8)
    requires b != 0
    ensures b >> 1 < b
  {
  }

  lemma NIsStep(b: bv8)
    requires N(b >> 1) == (b >> 1) as nat
    ensures N(b) == b as nat
  {
    NHalves(b);
  }

  /** `N` is the numeric value of the byte. */
  lemma {:induction false} NIs(b: bv8)
    ensures N(b) == b as nat
    decreases b
  {
    if b != 0 {
      ShiftDecreases(b);
      NIs(b >> 1);
      NIsStep(b);
    }
  }

  lemma ByteXorBits(a: bv8, c: bv8)
    ensures (a ^ c) >> 1 == (a >> 1) ^ (c >> 1)
    ensures ((a ^ c) & 1 == 1) == ((a & 1 == 1) != (c & 1 == 1))
    ensures a != 0 || c != 0 ==> (a >> 1) | (c >> 1) < a | c
  {
  }

  lemma ByteXorStep(a: bv8, c: bv8)
    requires Xor(N(a >> 1), N(c >> 1)) == N((a >> 1) ^ (c >> 1))
    ensures Xor(N(a), N(c)) == N(a ^ c)
  {
    NHalves(a);
    NHalves(c);
    NHalves(a ^ c);
    ByteXorBits(a, c);
    XorHalves(N(a), N(c));
  }

  /** `Xor` on the numbers of two bytes is `^` on the bytes. */
  lemma {:induction false} ByteXor(a: bv8, c: bv8)
    ensures Xor(N(a), N(c)) == N(a ^ c)
    decreases a | c
  {
    if a == 0 && c == 0 {
      assert a ^ c == 0;
    } else {
      ByteXorBits(a, c);
      ByteXor(a >> 1, c >> 1);
      ByteXorStep(a, c);
    }
  }

  /** m is a power of two. */
  predicate Single(m: bv8)
  {
    m != 0 && m & (m - 1) == 0
  }

  lemma SingleBits(u: bv8, m: bv8)
    requires Single(m) && m != 1 && u < m
    ensures Single(m >> 1) && u >> 1 < m >> 1 && m & 1 == 0
    ensures (u | m) >> 1 == (u >> 1) | (m >> 1) && (u | m) & 1 == u & 1
  {
  }

  lemma BelowStep(u: bv8, m: bv8, e: nat)
    requires Single(m) && m != 1 && u < m && N(m) == e
    requires N(u >> 1) < N(m >> 1)
    ensures N(u) < e
  {
    SingleBits(u, m);
    NHalves(u);
    NHalves(m);
  }

  /** A byte below the power of two m has a number below m's. */
  lemma {:induction false} NBelow(u: bv8, m: bv8, e: nat)
    requires Single(m) && u < m && N(m) == e
    ensures N(u) < e
    decreases m
  {
    if m == 1 {
      assert u == 0;
    } else {
      SingleBits(u, m);
      NBelow(u >> 1, m >> 1, N(m >> 1));
      BelowStep(u, m, e);
    }
  }

  lemma NBound(b: bv8)
    ensures N(b) < 0x100
  {
    NIs(0x80);
    NBelow(b >> 1, 0x80, 0x80);
    NHalves(b);
  }

  lemma OrTopStep(u: bv8, m: bv8, e: nat)
    requires Single(m) && m != 1 && u < m && N(m) == e
    requires N((u >> 1) | (m >> 1)) == N(u >> 1) + N(m >> 1)
    ensures N(u | m) == N(u) + e
  {
    SingleBits(u, m);
    NHalves(u);
    NHalves(m);
    NHalves(u | m);
  }

  /** Setting the power of two m above a smaller byte u adds m's number. */
  lemma {:induction false} NOrTop(u: bv8, m: bv8, e: nat)
    requires Single(m) && u < m && N(m) == e
    ensures N(u | m) == N(u) + e
    decreases m
  {
    if m == 1 {
      assert u == 0 && u | m == m;
    } else {
      SingleBits(u, m);
      NOrTop(u >> 1, m >> 1, N(m >> 1));
      OrTopStep(u, m, e);
    }
  }

  /** A byte's number is twice its upper seven bits plus its low bit. */
  lemma NSplit(a: bv8, d: bv8)
    requires d == a >> 1
    ensures N(a) == 2 * N(d) + Low(a)
  {
    NHalves(a);
  }

  /** The low bit of a byte, as a number. */
  function Low(a: bv8): nat
  {
    if a & 1 == 1 then 1 else 0
  }

  /** The low bit of one byte shifted in above the high bits of another. */
  lemma ByteHalf(a: bv8, c: bv8, d: bv8)
    requires d == (a >> 1) | (c << 7)
    ensures N(d) == N(a >> 1) + 0x80 * Low(c)
  {
    if c & 1 == 1 {
      assert d == (a >> 1) | 0x80;
      NIs(0x80);
      NOrTop(a >> 1, 0x80, 0x80);
    } else {
      assert d == a >> 1;
    }
  }

  /** A `crcpp_uint32`, least significant byte first. */
  datatype Word = Word(b0: bv8, b1: bv8, b2: bv8, b3: bv8)

  /** The number a word holds. */
  function Value(w: Word): nat
  {
    N(w.b0) + 0x100 * (N(w.b1) + 0x100 * (N(w.b2) + 0x100 * N(w.b3)))
  }

  /** `Value` is the numeric value of the four bytes. */
  lemma ValueIs(w: Word)
    ensures Value(w) == w.b0 as nat + 0x100 * (w.b1 as nat) + 0x1_0000 * (w.b2 as nat) + 0x100_0000 * (w.b3 as nat)
  {
    NIs(w.b0);
    NIs(w.b1);
    NIs(w.b2);
    NIs(w.b3);
  }

  /** `v ^ w`, byte by byte. */
  function XorW(v: Word, w: Word): Word
  {
    Word(v.b0 ^ w.b0, v.b1 ^ w.b1, v.b2 ^ w.b2, v.b3 ^ w.b3)
  }

  /** `w >> 1`: every byte moves down one bit and takes the low bit of the byte above. */
  function HalfW(w: Word): Word
  {
    Word((w.b0 >> 1) | (w.b1 << 7), (w.b1 >> 1) | (w.b2 << 7), (w.b2 >> 1) | (w.b3 << 7), w.b3 >> 1)
  }

  /** One round of the right-shifting engine: `(r & 1) ? (r >> 1) ^ poly : r >> 1`. */
  function RoundW(poly: Word, r: Word): Word
  {
    if r.b0 & 1 == 1 then XorW(HalfW(r), poly) else HalfW(r)
  }

  /** One byte into the right-shifting engine: XOR it into the low byte, then eight rounds. */
  function FeedW(poly: Word, r: Word, b: bv8): Word
  {
    var x := XorW(r, Word(b, 0, 0, 0));
    RoundW(poly, RoundW(poly, RoundW(poly, RoundW(poly, RoundW(poly, RoundW(poly, RoundW(poly, RoundW(poly, x))))))))
  }

  /** One round of the left-shifting engine on one byte: `(r & 0x80) ? (r << 1) ^ poly : r << 1`. */
  function RoundB(poly: bv8, r: bv8): bv8
  {
    if r & 0x80 != 0 then (r << 1) ^ poly else r << 1
  }

  /** One byte into the left-shifting engine on one byte: XOR it in, then eight rounds. */
  function FeedB(poly: bv8, r: bv8, b: bv8): bv8
  {
    var x := r ^ b;
    RoundB(poly, RoundB(poly, RoundB(poly, RoundB(poly, RoundB(poly, RoundB(poly, RoundB(poly, RoundB(poly, x))))))))
  }

  /** The bits of `a + (h << k)` for `a < 2^k`: those of a below k, those of h from k up. */
  lemma {:induction false} BitConcat(a: nat, h: nat, k: nat, i: nat)
    requires a < Pow2(k)
    ensures Bit(a + Shl(h, k), i) == if i < k then Bit(a, i) else Bit(h, i - k)
  {
    if k > 0 && i > 0 {
      assert (a + Shl(h, k)) / 2 == a / 2 + Shl(h, k - 1);
      BitConcat(a / 2, h, k - 1, i - 1);
    }
  }

  lemma ShlByte(c: nat)
    ensures Shl(c, 8) == 0x100 * c
  {
    assert Shl(c, 1) == 2 * c;
    assert Shl(c, 2) == 4 * c;
    assert Shl(c, 3) == 8 * c;
    assert Shl(c, 4) == 0x10 * c;
    assert Shl(c, 5) == 0x20 * c;
    assert Shl(c, 6) == 0x40 * c;
    assert Shl(c, 7) == 0x80 * c;
  }

  /** The bits of `a + 0x100 * h` for a byte a. */
  lemma BitJoin(a: nat, h: nat, i: nat)
    requires a < 0x100
    ensures Bit(a + 0x100 * h, i) == if i < 8 then Bit(a, i) else Bit(h, i - 8)
  {
    assert Pow2(8) == 0x100;
    ShlByte(h);
    BitConcat(a, h, 8, i);
  }

  /** Bits 8 and up of a word are the bits of its upper three bytes. */
  lemma BitOfUpper(w: Word, i: nat)
    requires i >= 8
    ensures Bit(Value(w), i) == Bit(N(w.b1) + 0x100 * (N(w.b2) + 0x100 * N(w.b3)), i - 8)
  {
    NBound(w.b0);
    BitJoin(N(w.b0), N(w.b1) + 0x100 * (N(w.b2) + 0x100 * N(w.b3)), i);
  }

  /** Bit i of a word is bit i % 8 of byte i / 8. */
  lemma BitOfByte0(w: Word, i: nat)
    requires i < 8
    ensures Bit(Value(w), i) == Bit(N(w.b0), i)
  {
    NBound(w.b0);
    BitJoin(N(w.b0), N(w.b1) + 0x100 * (N(w.b2) + 0x100 * N(w.b3)), i);
  }

  lemma BitOfByte1(w: Word, i: nat)
    requires 8 <= i < 16
    ensures Bit(Value(w), i) == Bit(N(w.b1), i - 8)
  {
    BitOfUpper(w, i);
    NBound(w.b1);
    BitJoin(N(w.b1), N(w.b2) + 0x100 * N(w.b3), i - 8);
  }

  lemma BitOfByte2(w: Word, i: nat)
    requires 16 <= i < 24
    ensures Bit(Value(w), i) == Bit(N(w.b2), i - 16)
  {
    BitOfUpper(w, i);
    NBound(w.b1);
    NBound(w.b2);
    BitJoin(N(w.b1), N(w.b2) + 0x100 * N(w.b3), i - 8);
    BitJoin(N(w.b2), N(w.b3), i - 16);
  }

  lemma BitOfByte3(w: Word, i: nat)
    requires 24 <= i
    ensures Bit(Value(w), i) == Bit(N(w.b3), i - 24)
  {
    BitOfUpper(w, i);
    NBound(w.b1);
    NBound(w.b2);
    BitJoin(N(w.b1), N(w.b2) + 0x100 * N(w.b3), i - 8);
    BitJoin(N(w.b2), N(w.b3), i - 16);
  }

  lemma ByteBitXor(a: bv8, c: bv8, d: bv8, j: nat)
    requires d == a ^ c
    ensures Bit(N(d), j) == (Bit(N(a), j) != Bit(N(c), j))
  {
    ByteXor(a, c);
    BitXor(N(a), N(c), j);
  }
}

/**
 * XOR and halving of words agree with `Xor` and halving of the numbers they
 * hold, so one round of the right-shifting engine on a word is a `Shift`.
 */
module WordRounds {
  import opened Bits
  import opened Engine
  import opened Words

  /** Bit i of a word XOR, byte by byte, from both sides. */
  lemma XorOfBits0(v: Word, w: Word, i: nat)
    requires i < 8
    ensures Bit(Xor(Value(v), Value(w)), i) == (Bit(N(v.b0), i) != Bit(N(w.b0), i))
  {
    BitXor(Value(v), Value(w), i);
    BitOfByte0(v, i);
    BitOfByte0(w, i);
  }

  lemma BitsOfXorW0(v: Word, w: Word, i: nat)
    requires i < 8
    ensures Bit(Value(XorW(v, w)), i) == (Bit(N(v.b0), i) != Bit(N(w.b0), i))
  {
    var x := XorW(v, w);
    BitOfByte0(x, i);
    ByteBitXor(v.b0, w.b0, x.b0, i);
  }

  lemma XorOfBits1(v: Word, w: Word, i: nat)
    requires 8 <= i < 16
    ensures Bit(Xor(Value(v), Value(w)), i) == (Bit(N(v.b1), i - 8) != Bit(N(w.b1), i - 8))
  {
    BitXor(Value(v), Value(w), i);
    BitOfByte1(v, i);
    BitOfByte1(w, i);
  }

  lemma BitsOfXorW1(v: Word, w: Word, i: nat)
    requires 8 <= i < 16
    ensures Bit(Value(XorW(v, w)), i) == (Bit(N(v.b1), i - 8) != Bit(N(w.b1), i - 8))
  {
    var x := XorW(v, w);
    BitOfByte1(x, i);
    ByteBitXor(v.b1, w.b1, x.b1, i - 8);
  }

  lemma XorOfBits2(v: Word, w: Word, i: nat)
    requires 16 <= i < 24
    ensures Bit(Xor(Value(v), Value(w)), i) == (Bit(N(v.b2), i - 16) != Bit(N(w.b2), i - 16))
  {
    BitXor(Value(v), Value(w), i);
    BitOfByte2(v, i);
    BitOfByte2(w, i);
  }

  lemma BitsOfXorW2(v: Word, w: Word, i: nat)
    requires 16 <= i < 24
    ensures Bit(Value(XorW(v, w)), i) == (Bit(N(v.b2), i - 16) != Bit(N(w.b2), i - 16))
  {
    var x := XorW(v, w);
    BitOfByte2(x, i);
    ByteBitXor(v.b2, w.b2, x.b2, i - 16);
  }

  lemma XorOfBits3(v: Word, w: Word, i: nat)
    requires 24 <= i
    ensures Bit(Xor(Value(v), Value(w)), i) == (Bit(N(v.b3), i - 24) != Bit(N(w.b3), i - 24))
  {
    BitXor(Value(v), Value(w), i);
    BitOfByte3(v, i);
    BitOfByte3(w, i);
  }

  lemma BitsOfXorW3(v: Word, w: Word, i: nat)
    requires 24 <= i
    ensures Bit(Value(XorW(v, w)), i) == (Bit(N(v.b3), i - 24) != Bit(N(w.b3), i - 24))
  {
    var x := XorW(v, w);
    BitOfByte3(x, i);
    ByteBitXor(v.b3, w.b3, x.b3, i - 24);
  }

  /** `Xor` on the numbers of two words is `XorW` on the words. */
  lemma XorWord(v: Word, w: Word)
    ensures Xor(Value(v), Value(w)) == Value(XorW(v, w))
  {
    forall i: nat
      ensures Bit(Xor(Value(v), Value(w)), i) == Bit(Value(XorW(v, w)), i)
    {
      if i < 8 {
        XorOfBits0(v, w, i);
        BitsOfXorW0(v, w, i);
      } else if i < 16 {
        XorOfBits1(v, w, i);
        BitsOfXorW1(v, w, i);
      } else if i < 24 {
        XorOfBits2(v, w, i);
        BitsOfXorW2(v, w, i);
      } else {
        XorOfBits3(v, w, i);
        BitsOfXorW3(v, w, i);
      }
    }
    BitsEqual(Xor(Value(v), Value(w)), Value(XorW(v, w)));
  }

  lemma HalfSum(v: nat, h: nat, n0: nat, n1: nat, n2: nat, n3: nat, h0: nat, h1: nat, h2: nat, h3: nat, l0: nat, l1: nat, l2: nat, l3: nat)
    requires n0 == 2 * h0 + l0 && n1 == 2 * h1 + l1 && n2 == 2 * h2 + l2 && n3 == 2 * h3 + l3 && l0 < 2
    requires v == n0 + 0x100 * (n1 + 0x100 * (n2 + 0x100 * n3))
    requires h == (h0 + 0x80 * l1) + 0x100 * ((h1 + 0x80 * l2) + 0x100 * ((h2 + 0x80 * l3) + 0x100 * h3))
    ensures v / 2 == h && v % 2 == l0
  {
  }

  /** Byte k of a word and of its half, as numbers. */
  lemma HalfByte0(w: Word)
    ensures N(w.b0) == 2 * N(w.b0 >> 1) + Low(w.b0)
    ensures N(HalfW(w).b0) == N(w.b0 >> 1) + 0x80 * Low(w.b1)
  {
    NSplit(w.b0, w.b0 >> 1);
    ByteHalf(w.b0, w.b1, HalfW(w).b0);
  }

  lemma HalfByte1(w: Word)
    ensures N(w.b1) == 2 * N(w.b1 >> 1) + Low(w.b1)
    ensures N(HalfW(w).b1) == N(w.b1 >> 1) + 0x80 * Low(w.b2)
  {
    NSplit(w.b1, w.b1 >> 1);
    ByteHalf(w.b1, w.b2, HalfW(w).b1);
  }

  lemma HalfByte2(w: Word)
    ensures N(w.b2) == 2 * N(w.b2 >> 1) + Low(w.b2)
    ensures N(HalfW(w).b2) == N(w.b2 >> 1) + 0x80 * Low(w.b3)
  {
    NSplit(w.b2, w.b2 >> 1);
    ByteHalf(w.b2, w.b3, HalfW(w).b2);
  }

  lemma HalfByte3(w: Word)
    ensures N(w.b3) == 2 * N(HalfW(w).b3) + Low(w.b3)
  {
    NSplit(w.b3, HalfW(w).b3);
  }

  /** Halving the number of a word is `HalfW`, and its parity is the low bit of the low byte. */
  lemma HalfWord(w: Word)
    ensures Value(w) / 2 == Value(HalfW(w))
    ensures Value(w) % 2 == Low(w.b0)
  {
    var h := HalfW(w);
    HalfByte0(w);
    HalfByte1(w);
    HalfByte2(w);
    HalfByte3(w);
    HalfSum(Value(w), Value(h), N(w.b0), N(w.b1), N(w.b2), N(w.b3), N(w.b0 >> 1), N(w.b1 >> 1), N(w.b2 >> 1), N(h.b3),
            Low(w.b0), Low(w.b1), Low(w.b2), Low(w.b3));
  }

  /** The right-shifting engine whose polynomial is the word `poly`. */
  predicate RightEngine(g: Register, poly: Word)
  {
    g.reflected && g.poly == Value(poly) && Value(poly) < Pow2(g.digits)
  }

  /** One round of the engine on a register below 2^digits is `RoundW`. */
  lemma RightRound(g: Register, poly: Word, r: Word)
    requires RightEngine(g, poly) && Value(r) < Pow2(g.digits)
    ensures Shift(g, Value(r)) == Value(RoundW(poly, r))
  {
    AndOne(Value(r));
    HalfWord(r);
    assert Shr(Value(r), 1) == Value(HalfW(r));
    if r.b0 & 1 == 1 {
      XorWord(HalfW(r), poly);
      XorBound(Value(HalfW(r)), Value(poly), g.digits);
      TruncOfSmall(Value(RoundW(poly, r)), g.digits);
    } else {
      TruncOfSmall(Value(HalfW(r)), g.digits);
    }
  }

  /** Round k + 1 from a register whose round k is the word x. */
  lemma RightStep(g: Register, poly: Word, k: nat, v: nat, x: Word)
    requires RightEngine(g, poly) && Shifts(g, k, v) == Value(x) && Value(x) < Pow2(g.digits)
    ensures Shifts(g, k + 1, v) == Value(RoundW(poly, x)) && Value(RoundW(poly, x)) < Pow2(g.digits)
  {
    RightRound(g, poly, x);
  }

  /** Rounds k + 1 to k + 4 from a register whose round k is the word x. */
  lemma RightSteps(g: Register, poly: Word, k: nat, v: nat, x: Word)
    requires RightEngine(g, poly) && Shifts(g, k, v) == Value(x) && Value(x) < Pow2(g.digits)
    ensures var y := RoundW(poly, RoundW(poly, RoundW(poly, RoundW(poly, x))));
      Shifts(g, k + 4, v) == Value(y) && Value(y) < Pow2(g.digits)
  {
    RightStep(g, poly, k, v, x);
    RightStep(g, poly, k + 1, v, RoundW(poly, x));
    RightStep(g, poly, k + 2, v, RoundW(poly, RoundW(poly, x)));
    RightStep(g, poly, k + 3, v, RoundW(poly, RoundW(poly, RoundW(poly, x))));
  }

  /** Feeding a byte to the right-shifting engine is `FeedW`. */
  lemma RightFeed(g: Register, poly: Word, r: Word, b: Byte, c: bv8)
    requires RightEngine(g, poly) && g.feedAt == 0 && g.digits >= 8
    requires Value(r) < Pow2(g.digits) && N(c) == b
    ensures Feed(g, Value(r), b) == Value(FeedW(poly, r, c))
  {
    var x := XorW(r, Word(c, 0, 0, 0));
    RightEntry(g, r, b, c);
    RightSteps(g, poly, 0, Value(x), x);
    RightSteps(g, poly, 4, Value(x), RoundW(poly, RoundW(poly, RoundW(poly, RoundW(poly, x)))));
  }

  /** XOR-ing a byte into a register below 2^digits is `XorW` with the byte as low byte. */
  lemma RightEntry(g: Register, r: Word, b: Byte, c: bv8)
    requires g.feedAt == 0 && g.digits >= 8 && Value(r) < Pow2(g.digits) && N(c) == b
    ensures Trunc(Xor(Value(r), Shl(b, g.feedAt)), g.digits) == Value(XorW(r, Word(c, 0, 0, 0)))
    ensures Value(XorW(r, Word(c, 0, 0, 0))) < Pow2(g.digits)
  {
    assert N(0) == 0;
    assert Shl(b, 0) == Value(Word(c, 0, 0, 0));
    XorWord(r, Word(c, 0, 0, 0));
    Pow2Monotone(8, g.digits);
    assert Pow2(8) == 0x100;
    XorBound(Value(r), b, g.digits);
    TruncOfSmall(Value(XorW(r, Word(c, 0, 0, 0))), g.digits);
  }
}

/**
 * One round of the left-shifting engine on an 8-bit register is `RoundB`
 * on the byte, so one fed byte is `FeedB`.
 */
module ByteRounds {
  import opened Bits
  import opened Reflection
  import opened Engine
  import opened Words

  /** The number of a byte is that of its seven low bits plus its top bit. */
  lemma TopSplit(r: bv8, u: bv8)
    requires u == r & 0x7F
    ensures N(u) < 0x80
    ensures N(r) == N(u) + (if r & 0x80 != 0 then 0x80 else 0)
  {
    NIs(0x80);
    NBelow(u, 0x80, 0x80);
    if r & 0x80 != 0 {
      assert r == u | 0x80;
      NOrTop(u, 0x80, 0x80);
    } else {
      assert r == u;
    }
  }

  /** Bit 7 of a byte's number is the byte's top bit. */
  lemma TopBit(r: bv8)
    ensures Bit(N(r), 7) == (r & 0x80 != 0)
  {
    var u := r & 0x7F;
    TopSplit(r, u);
    assert Pow2(7) == 0x80;
    if r & 0x80 != 0 {
      BitAddHigh(N(u), 7, 7);
    } else {
      BitAbove(N(u), 7, 7);
    }
  }

  /** `r << 1` holds twice the seven low bits of r. */
  lemma ShlByteN(r: bv8)
    ensures N(r << 1) == 2 * N(r & 0x7F)
  {
    NSplit(r << 1, r & 0x7F);
  }

  /** 2^n added to a number below 2^n leaves its n low bits alone. */
  lemma TruncWrap(s: nat, n: nat)
    requires s < Pow2(n)
    ensures Trunc(s + Pow2(n), n) == s
  {
    forall i: nat
      ensures Bit(Trunc(s + Pow2(n), n), i) == Bit(s, i)
    {
      BitTrunc(s + Pow2(n), n, i);
      BitAddHigh(s, n, i);
      if n <= i {
        BitAbove(s, n, i);
      }
    }
    BitsEqual(Trunc(s + Pow2(n), n), s);
  }

  /** Doubling a byte's number and casting to 8 digits is `<< 1` on the byte. */
  lemma DoubleByte(r: bv8)
    ensures Trunc(Shl(N(r), 1), 8) == N(r << 1)
  {
    TopSplit(r, r & 0x7F);
    ShlByteN(r);
    NBound(r << 1);
    assert Pow2(8) == 0x100;
    if r & 0x80 != 0 {
      TruncWrap(N(r << 1), 8);
    } else {
      TruncOfSmall(N(r << 1), 8);
    }
  }

  /** The left-shifting engine of an 8-bit register whose polynomial is the byte `poly`. */
  predicate LeftEngine(g: Register, poly: bv8)
  {
    !g.reflected && g.top == 7 && g.digits == 8 && g.feedAt == 0 && g.poly == N(poly)
  }

  /** One round of the engine is `RoundB`. */
  lemma LeftRound(g: Register, poly: bv8, r: bv8)
    requires LeftEngine(g, poly)
    ensures Shift(g, N(r)) == N(RoundB(poly, r))
  {
    ShlOne(7);
    AndBitTest(N(r), 7);
    TopBit(r);
    DoubleByte(r);
    assert Pow2(8) == 0x100;
    if r & 0x80 != 0 {
      NBound(r << 1);
      TruncOfSmall(N(r << 1), 8);
      XorOfAgree(Shl(N(r), 1), N(r << 1), N(poly), 8);
      ByteXor(r << 1, poly);
      NBound((r << 1) ^ poly);
      TruncOfSmall(N((r << 1) ^ poly), 8);
    }
  }

  /** Round k + 1 from a register whose round k is the byte x. */
  lemma LeftStep(g: Register, poly: bv8, k: nat, v: nat, x: bv8)
    requires LeftEngine(g, poly) && Shifts(g, k, v) == N(x)
    ensures Shifts(g, k + 1, v) == N(RoundB(poly, x))
  {
    LeftRound(g, poly, x);
  }

  /** Rounds k + 1 to k + 4 from a register whose round k is the byte x. */
  lemma LeftSteps(g: Register, poly: bv8, k: nat, v: nat, x: bv8)
    requires LeftEngine(g, poly) && Shifts(g, k, v) == N(x)
    ensures Shifts(g, k + 4, v) == N(RoundB(poly, RoundB(poly, RoundB(poly, RoundB(poly, x)))))
  {
    LeftStep(g, poly, k, v, x);
    LeftStep(g, poly, k + 1, v, RoundB(poly, x));
    LeftStep(g, poly, k + 2, v, RoundB(poly, RoundB(poly, x)));
    LeftStep(g, poly, k + 3, v, RoundB(poly, RoundB(poly, RoundB(poly, x))));
  }

  /** XOR-ing a byte into the register is `^` on the bytes. */
  lemma LeftEntry(g: Register, poly: bv8, r: bv8, b: Byte, c: bv8)
    requires LeftEngine(g, poly) && N(c) == b
    ensures Trunc(Xor(N(r), Shl(b, g.feedAt)), g.digits) == N(r ^ c)
  {
    ByteXor(r, c);
    NBound(r ^ c);
    assert Pow2(8) == 0x100;
    TruncOfSmall(N(r ^ c), 8);
  }

  /** Feeding a byte to the engine is `FeedB`. */
  lemma LeftFeed(g: Register, poly: bv8, r: bv8, b: Byte, c: bv8)
    requires LeftEngine(g, poly) && N(c) == b
    ensures Feed(g, N(r), b) == N(FeedB(poly, r, c))
  {
    var x := r ^ c;
    LeftEntry(g, poly, r, b, c);
    LeftSteps(g, poly, 0, N(x), x);
    LeftSteps(g, poly, 4, N(x), RoundB(poly, RoundB(poly, RoundB(poly, RoundB(poly, x)))));
  }
}
