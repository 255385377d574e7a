/** The CRC register as the 32-bit word the program keeps it in. */
module CrcWord {
  import opened Bitwise
  import opened Gf2
  import opened CrcRegister

  // The low 32 coefficients of G(x).
  const POLYNOMIAL: word := 0x04C1_1DB7

  function Dbl(x: word): word {
    x << 1
  }

  predicate Top(x: word) {
    x & 0x8000_0000 != 0
  }

  /** One shift/xor step. */
  function AdvanceWord(s: word): word {
    if Top(s) then Xor(Dbl(s), POLYNOMIAL) else Dbl(s)
  }

  function AdvanceFour(s: word): word {
    AdvanceWord(AdvanceWord(AdvanceWord(AdvanceWord(s))))
  }

  function AdvanceEight(s: word): word {
    AdvanceFour(AdvanceFour(s))
  }

  /** Entry i of the byte table, generated one bit at a time. */
  function TableEntry(i: octet): word {
    AdvanceEight((i as word) << 24)
  }

  /** The bit i places below the top, which is the coefficient of x^(31-i). */
  predicate BitAt(x: word, i: nat)
    decreases i
  {
    if i == 0 then Top(x) else BitAt(Dbl(x), i - 1)
  }

  predicate Holds(x: word, k: nat)
    requires k < 32
  {
    BitAt(x, 31 - k)
  }

  /** The polynomial of degree at most 31 a word stands for. */
  function WordPoly(x: word): Poly {
    set k: nat | k < 32 && Holds(x, k)
  }

  /** The bits of a byte, highest first. */
  function ByteBits(b: octet): (r: Bits)
    ensures |r| == 8
  {
    [b & 0x80 != 0, b & 0x40 != 0, b & 0x20 != 0, b & 0x10 != 0,
     b & 0x08 != 0, b & 0x04 != 0, b & 0x02 != 0, b & 0x01 != 0]
  }

  // ---- single bits ----

  function Xor(x: word, y: word): word {
    x ^ y
  }

  lemma XorTop(x: word, y: word)
    ensures Top(Xor(x, y)) == (Top(x) != Top(y))
  {
    var z := x ^ y;
    assert z & 0x8000_0000 == (x & 0x8000_0000) ^ (y & 0x8000_0000);
  }

  lemma XorDbl(x: word, y: word)
    ensures Dbl(Xor(x, y)) == Xor(Dbl(x), Dbl(y))
  {
  }

  lemma BitAtStep(x: word, i: nat)
    ensures BitAt(x, i) == if i == 0 then Top(x) else BitAt(Dbl(x), i - 1)
  {
    hide Top, Dbl;
  }

  lemma {:induction false} XorAt(x: word, y: word, i: nat)
    ensures BitAt(Xor(x, y), i) == (BitAt(x, i) != BitAt(y, i))
    decreases i
  {
    hide BitAt, Top, Dbl, Xor;
    XorTop(x, y);
    XorDbl(x, y);
    BitAtStep(x, i);
    BitAtStep(y, i);
    BitAtStep(Xor(x, y), i);
    if i > 0 {
      XorAt(Dbl(x), Dbl(y), i - 1);
    }
  }

  lemma XorWordPoly(x: word, y: word)
    ensures WordPoly(Xor(x, y)) == Plus(WordPoly(x), WordPoly(y))
  {
    forall k: nat | k < 32 ensures Holds(Xor(x, y), k) == (Holds(x, k) != Holds(y, k)) {
      XorAt(x, y, 31 - k);
    }
  }

  lemma {:induction false} ZeroAt(i: nat)
    ensures !BitAt(0, i)
  {
    if i > 0 {
      ZeroAt(i - 1);
    }
  }

  lemma TwoAt(x: word, y: word, i: nat)
    requires y == x << 2
    ensures BitAt(x, i + 2) == BitAt(y, i)
  {
    assert Dbl(Dbl(x)) == y;
    assert BitAt(x, i + 2) == BitAt(Dbl(x), i + 1);
  }

  lemma FourAt(x: word, y: word, i: nat)
    requires y == x << 4
    ensures BitAt(x, i + 4) == BitAt(y, i)
  {
    var a := x << 2;
    assert a << 2 == y;
    TwoAt(x, a, i + 2);
    TwoAt(a, y, i);
  }

  /** Eight places at once. */
  lemma EightAt(x: word, y: word, i: nat)
    requires y == x << 8
    ensures BitAt(x, i + 8) == BitAt(y, i)
  {
    var a := x << 4;
    assert a << 4 == y;
    FourAt(x, a, i + 4);
    FourAt(a, y, i);
  }

  lemma FirstFour(x: word)
    ensures BitAt(x, 0) == (x & 0x8000_0000 != 0) && BitAt(x, 1) == (x & 0x4000_0000 != 0)
    ensures BitAt(x, 2) == (x & 0x2000_0000 != 0) && BitAt(x, 3) == (x & 0x1000_0000 != 0)
  {
    var y := x << 2;
    TwoAt(x, y, 0);
    TwoAt(x, y, 1);
  }

  lemma FourMasks(x: word, y: word)
    requires y == x << 4
    ensures (y & 0x8000_0000 != 0) == (x & 0x0800_0000 != 0) && (y & 0x4000_0000 != 0) == (x & 0x0400_0000 != 0)
    ensures (y & 0x2000_0000 != 0) == (x & 0x0200_0000 != 0) && (y & 0x1000_0000 != 0) == (x & 0x0100_0000 != 0)
  {
  }

  lemma NextFour(x: word, y: word)
    requires y == x << 4
    ensures BitAt(x, 4) == (x & 0x0800_0000 != 0) && BitAt(x, 5) == (x & 0x0400_0000 != 0)
    ensures BitAt(x, 6) == (x & 0x0200_0000 != 0) && BitAt(x, 7) == (x & 0x0100_0000 != 0)
  {
    hide BitAt;
    FirstFour(y);
    FourMasks(x, y);
    FourAt(x, y, 0);
    FourAt(x, y, 1);
    FourAt(x, y, 2);
    FourAt(x, y, 3);
  }

  lemma FirstEight(x: word)
    ensures BitAt(x, 0) == (x & 0x8000_0000 != 0) && BitAt(x, 1) == (x & 0x4000_0000 != 0)
    ensures BitAt(x, 2) == (x & 0x2000_0000 != 0) && BitAt(x, 3) == (x & 0x1000_0000 != 0)
    ensures BitAt(x, 4) == (x & 0x0800_0000 != 0) && BitAt(x, 5) == (x & 0x0400_0000 != 0)
    ensures BitAt(x, 6) == (x & 0x0200_0000 != 0) && BitAt(x, 7) == (x & 0x0100_0000 != 0)
  {
    FirstFour(x);
    NextFour(x, x << 4);
  }

  predicate Even(x: word) {
    x & 1 == 0
  }

  lemma LowestMask(x: word)
    requires Even(x)
    ensures (((x << 8) << 8) << 8) & 0x0100_0000 == 0
  {
  }

  lemma LowestAt(x: word)
    requires Even(x)
    ensures !BitAt(x, 31)
  {
    hide BitAt;
    var a := x << 8;
    var b := a << 8;
    var c := b << 8;
    EightAt(x, a, 23);
    EightAt(a, b, 15);
    EightAt(b, c, 7);
    FirstEight(c);
    LowestMask(x);
  }

  /** The constant is the list of G's coefficients below x^32. */
  lemma GeneratorWord()
    ensures WordPoly(POLYNOMIAL) == GENERATOR - {32}
  {
    FirstEight(POLYNOMIAL);
    FirstEight(0xC11D_B700);
    FirstEight(0x1DB7_0000);
    FirstEight(0xB700_0000);
    forall k: nat | k < 32 ensures Holds(POLYNOMIAL, k) <==> k in GENERATOR {
      var i := 31 - k;
      if i >= 8 {
        EightAt(POLYNOMIAL, 0xC11D_B700, i - 8);
      }
      if i >= 16 {
        EightAt(0xC11D_B700, 0x1DB7_0000, i - 16);
      }
      if i >= 24 {
        EightAt(0x1DB7_0000, 0xB700_0000, i - 24);
      }
    }
  }

  // ---- register steps ----

  lemma DblIsEven(s: word)
    ensures Even(Dbl(s))
  {
  }

  lemma DblHolds(s: word, k: nat)
    requires k < 32
    ensures Holds(Dbl(s), k) <==> k > 0 && Holds(s, k - 1)
  {
    hide BitAt, Dbl, Even;
    if k == 0 {
      DblIsEven(s);
      LowestAt(Dbl(s));
    } else {
      BitAtStep(s, 32 - k);
    }
  }

  /** Shifting a word loses its highest coefficient. */
  lemma ShiftedPoly(p: Poly, d: Poly)
    requires DegreeBelow(p, 32) && DegreeBelow(d, 32)
    requires forall k: nat :: k < 32 ==> (k in d <==> k > 0 && k - 1 in p)
    ensures d == ShiftBy(p, 1) - {32}
  {
    forall k: nat ensures k in d <==> k in ShiftBy(p, 1) && k != 32 {
    }
  }

  lemma DblPoly(s: word)
    ensures WordPoly(Dbl(s)) == ShiftBy(WordPoly(s), 1) - {32}
  {
    hide Holds, Dbl;
    forall k: nat | k < 32 ensures k in WordPoly(Dbl(s)) <==> k > 0 && k - 1 in WordPoly(s) {
      DblHolds(s, k);
    }
    ShiftedPoly(WordPoly(s), WordPoly(Dbl(s)));
  }

  lemma AdvanceWordPoly(s: word)
    ensures WordPoly(AdvanceWord(s)) == Advance(WordPoly(s))
  {
    var p, d := WordPoly(s), WordPoly(Dbl(s));
    DblPoly(s);
    assert 31 in p <==> Holds(s, 31);
    assert 32 in ShiftBy(p, 1) <==> 31 in p;
    if Top(s) {
      GeneratorWord();
      XorWordPoly(Dbl(s), POLYNOMIAL);
      assert Plus(d, GENERATOR - {32}) == Plus(ShiftBy(p, 1), GENERATOR);
    }
  }

  lemma FeedNothing(p: Poly, n: nat)
    ensures Feed(p, NoBits(n + 1)) == Advance(Feed(p, NoBits(n)))
  {
    assert NoBits(n + 1)[..n] == NoBits(n);
    assert Plus(Feed(p, NoBits(n)), {}) == Feed(p, NoBits(n));
  }

  lemma AdvanceFourPoly(s: word)
    ensures WordPoly(AdvanceFour(s)) == Feed(WordPoly(s), NoBits(4))
  {
    var p := WordPoly(s);
    AdvanceWordPoly(s);
    AdvanceWordPoly(AdvanceWord(s));
    AdvanceWordPoly(AdvanceWord(AdvanceWord(s)));
    AdvanceWordPoly(AdvanceWord(AdvanceWord(AdvanceWord(s))));
    FeedNothing(p, 0);
    FeedNothing(p, 1);
    FeedNothing(p, 2);
    FeedNothing(p, 3);
  }

  lemma AdvanceEightPoly(s: word)
    ensures WordPoly(AdvanceEight(s)) == Feed(WordPoly(s), NoBits(8))
  {
    AdvanceFourPoly(s);
    AdvanceFourPoly(AdvanceFour(s));
    FeedAppend(WordPoly(s), NoBits(4), NoBits(4));
    assert NoBits(4) + NoBits(4) == NoBits(8);
  }

  lemma BytePoly(b: octet, w: word)
    requires w == (b as word) << 24
    ensures WordPoly(w) == Pack(ByteBits(b))
  {
    FirstEight(w);
    forall k: nat | k < 32 ensures Holds(w, k) <==> 31 - k < 8 && Leads(ByteBits(b), k) {
      if 31 - k >= 8 {
        EightAt(w, 0, 31 - k - 8);
        ZeroAt(31 - k - 8);
      } else {
        ByteMasks(b, w);
      }
    }
  }

  lemma ByteMasks(b: octet, w: word)
    requires w == (b as word) << 24
    ensures (b & 0x80 != 0) == (w & 0x8000_0000 != 0) && (b & 0x40 != 0) == (w & 0x4000_0000 != 0)
    ensures (b & 0x20 != 0) == (w & 0x2000_0000 != 0) && (b & 0x10 != 0) == (w & 0x1000_0000 != 0)
    ensures (b & 0x08 != 0) == (w & 0x0800_0000 != 0) && (b & 0x04 != 0) == (w & 0x0400_0000 != 0)
    ensures (b & 0x02 != 0) == (w & 0x0200_0000 != 0) && (b & 0x01 != 0) == (w & 0x0100_0000 != 0)
  {
  }

  // ---- one byte through the table ----

  /** A byte in the top place of a word, and the other three bytes. */
  function Raise(b: octet): word {
    (b as word) << 24
  }

  function Low(s: word): word {
    s & 0x00FF_FFFF
  }

  function Up(s: word): word {
    s << 8
  }

  /** The table index for register s and input byte b. */
  function Index(s: word, b: octet): octet {
    (s >> 24) as octet ^ b
  }

  predicate TopClear(l: word) {
    l & 0xFF00_0000 == 0
  }

  lemma AdvanceClear(l: word)
    requires TopClear(l)
    ensures AdvanceEight(l) == Up(l)
  {
  }

  lemma LowClear(s: word)
    ensures TopClear(Low(s)) && Up(Low(s)) == Up(s)
  {
  }

  lemma AdvanceLow(s: word)
    ensures AdvanceEight(Low(s)) == Up(s)
  {
    LowClear(s);
    AdvanceClear(Low(s));
  }

  lemma TopByte(s: word, b: octet, i: octet)
    requires i == (s >> 24) as octet ^ b
    ensures s ^ ((b as word) << 24) == ((i as word) << 24) ^ (s & 0x00FF_FFFF)
  {
  }

  /** Adding b to the top byte leaves the index there and the low bytes alone. */
  lemma SplitTop(s: word, b: octet)
    ensures Xor(s, Raise(b)) == Xor(Raise(Index(s, b)), Low(s))
  {
    TopByte(s, b, (s >> 24) as octet ^ b);
  }

  lemma FeedSplit(s: Poly, bits: Bits, h: Poly, l: Poly)
    requires |bits| <= 32
    requires Plus(s, Pack(bits)) == Plus(h, l)
    ensures Feed(s, bits) == Plus(Feed(h, NoBits(|bits|)), Feed(l, NoBits(|bits|)))
  {
    var none := NoBits(|bits|);
    WindowFactors(s, bits);
    FeedLinear(h, l, none, none);
    assert XorBits(none, none) == none;
  }

  /** e is the register left by feeding eight zero bits to one that starts with the byte i. */
  ghost predicate IsEntry(e: word, i: octet) {
    WordPoly(e) == Feed(Pack(ByteBits(i)), NoBits(8))
  }

  lemma GeneratedIsEntry(i: octet)
    ensures IsEntry(TableEntry(i), i)
  {
    BytePoly(i, Raise(i));
    AdvanceEightPoly(Raise(i));
  }

  lemma RaisePoly(b: octet)
    ensures WordPoly(Raise(b)) == Pack(ByteBits(b))
  {
    BytePoly(b, Raise(b));
  }

  lemma UpPoly(s: word)
    ensures WordPoly(Up(s)) == Feed(WordPoly(Low(s)), NoBits(8))
  {
    AdvanceEightPoly(Low(s));
    AdvanceLow(s);
  }

  /** A table lookup feeds the eight bits of one byte. */
  lemma StepByteFeeds(s: word, b: octet, e: word)
    requires IsEntry(e, Index(s, b))
    ensures WordPoly(Xor(Up(s), e)) == Feed(WordPoly(s), ByteBits(b))
  {
    SplitTop(s, b);
    XorWordPoly(s, Raise(b));
    XorWordPoly(Raise(Index(s, b)), Low(s));
    RaisePoly(b);
    RaisePoly(Index(s, b));
    UpPoly(s);
    XorWordPoly(Up(s), e);
    FeedSplit(WordPoly(s), ByteBits(b), WordPoly(Raise(Index(s, b))), WordPoly(Low(s)));
  }

  // ---- a word is its bits ----

  lemma NoFirstEight(x: word)
    requires forall i: nat :: i < 8 ==> !BitAt(x, i)
    ensures x & 0xFF00_0000 == 0
  {
    FirstEight(x);
    assert !BitAt(x, 0) && !BitAt(x, 1) && !BitAt(x, 2) && !BitAt(x, 3);
    assert !BitAt(x, 4) && !BitAt(x, 5) && !BitAt(x, 6) && !BitAt(x, 7);
  }

  lemma NoBytes(x: word)
    requires x & 0xFF00_0000 == 0 && (x << 8) & 0xFF00_0000 == 0
    requires ((x << 8) << 8) & 0xFF00_0000 == 0 && (((x << 8) << 8) << 8) & 0xFF00_0000 == 0
    ensures x == 0
  {
  }

  lemma NoBitsNoWord(x: word)
    requires forall i: nat :: i < 32 ==> !BitAt(x, i)
    ensures x == 0
  {
    var a := x << 8;
    var b := a << 8;
    var c := b << 8;
    forall i: nat | i < 8 ensures !BitAt(a, i) { EightAt(x, a, i); }
    forall i: nat | i < 8 ensures !BitAt(b, i) { EightAt(a, b, i); EightAt(x, a, i + 8); }
    forall i: nat | i < 8 ensures !BitAt(c, i) { EightAt(b, c, i); EightAt(a, b, i + 8); EightAt(x, a, i + 16); }
    NoFirstEight(x);
    NoFirstEight(a);
    NoFirstEight(b);
    NoFirstEight(c);
    NoBytes(x);
  }

  lemma XorZero(x: word, y: word)
    requires Xor(x, y) == 0
    ensures x == y
  {
  }

  lemma WordPolyInjective(x: word, y: word)
    requires WordPoly(x) == WordPoly(y)
    ensures x == y
  {
    XorWordPoly(x, y);
    var z := Xor(x, y);
    forall i: nat | i < 32 ensures !BitAt(z, i) {
      var k := 31 - i;
      assert k !in WordPoly(z);
      assert !Holds(z, k);
    }
    NoBitsNoWord(z);
    XorZero(x, y);
  }
}
