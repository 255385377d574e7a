/** The number a checksum word stands for, as it is compared with the one a server reports. */
module CrcNumber {
  import opened Bitwise
  import opened Gf2
  import opened CrcWord

  function OctetValue(o: octet): (n: nat)
    ensures n < 0x100
  {
    o as nat
  }

  function OctetOf(x: word, k: nat): octet
    requires k < 4
  {
    if k == 0 then (x & 0xFF) as octet
    else if k == 1 then ((x >> 8) & 0xFF) as octet
    else if k == 2 then ((x >> 16) & 0xFF) as octet
    else ((x >> 24) & 0xFF) as octet
  }

  function FromOctets(o: seq<octet>): (n: nat)
    requires |o| == 4
    ensures n < 0x1_0000_0000
  {
    OctetValue(o[0]) + 0x100 * OctetValue(o[1]) + 0x1_0000 * OctetValue(o[2]) + 0x100_0000 * OctetValue(o[3])
  }

  function Number(x: word): (n: nat)
    ensures n < 0x1_0000_0000
  {
    FromOctets(Octets4(x))
  }

  lemma NarrowBack(o: octet, n: nat)
    requires n == o as nat
    ensures n < 0x100 && n as octet == o
  {
  }

  lemma SameOctet(a: octet, b: octet)
    requires OctetValue(a) == OctetValue(b)
    ensures a == b
  {
    NarrowBack(a, OctetValue(a));
    NarrowBack(b, OctetValue(b));
  }

  function Word(a: octet, b: octet, c: octet, d: octet): word {
    (a as word) | ((b as word) << 8) | ((c as word) << 16) | ((d as word) << 24)
  }

  lemma FourOctets(x: word)
    ensures Word((x & 0xFF) as octet, ((x >> 8) & 0xFF) as octet,
                 ((x >> 16) & 0xFF) as octet, ((x >> 24) & 0xFF) as octet) == x
  {
  }

  lemma OctetsMakeWord(x: word)
    ensures Word(OctetOf(x, 0), OctetOf(x, 1), OctetOf(x, 2), OctetOf(x, 3)) == x
  {
    FourOctets(x);
  }

  lemma SameDigits(a: nat, b: nat, c: nat, d: nat, a': nat, b': nat, c': nat, d': nat)
    requires a < 0x100 && b < 0x100 && c < 0x100 && d < 0x100 && a' < 0x100 && b' < 0x100 && c' < 0x100 && d' < 0x100
    requires a + 0x100 * b + 0x1_0000 * c + 0x100_0000 * d == a' + 0x100 * b' + 0x1_0000 * c' + 0x100_0000 * d'
    ensures a == a' && b == b' && c == c' && d == d'
  {
  }

  lemma WordsEqual(x: word, y: word)
    requires OctetOf(x, 0) == OctetOf(y, 0) && OctetOf(x, 1) == OctetOf(y, 1)
    requires OctetOf(x, 2) == OctetOf(y, 2) && OctetOf(x, 3) == OctetOf(y, 3)
    ensures x == y
  {
    OctetsMakeWord(x);
    OctetsMakeWord(y);
  }

  function Octets4(x: word): (o: seq<octet>)
    ensures |o| == 4
  {
    [OctetOf(x, 0), OctetOf(x, 1), OctetOf(x, 2), OctetOf(x, 3)]
  }

  lemma SameOctets(a: seq<octet>, b: seq<octet>)
    requires |a| == 4 && |b| == 4 && FromOctets(a) == FromOctets(b)
    ensures a == b
  {
    SameDigits(OctetValue(a[0]), OctetValue(a[1]), OctetValue(a[2]), OctetValue(a[3]),
               OctetValue(b[0]), OctetValue(b[1]), OctetValue(b[2]), OctetValue(b[3]));
    forall i | 0 <= i < 4 ensures a[i] == b[i] { SameOctet(a[i], b[i]); }
  }

  /** Equal numbers come from equal words. */
  lemma NumberInjective(x: word, y: word)
    requires Number(x) == Number(y)
    ensures x == y
  {
    SameOctets(Octets4(x), Octets4(y));
    assert Octets4(x)[0] == OctetOf(x, 0) && Octets4(x)[1] == OctetOf(x, 1);
    assert Octets4(x)[2] == OctetOf(x, 2) && Octets4(x)[3] == OctetOf(x, 3);
    WordsEqual(x, y);
  }

  // ---- the number of a word, bit by bit ----

  /** The place value of bit k of an octet, or nothing. */
  function Bit(o: octet, mask: octet, value: nat): nat {
    if o & mask != 0 then value else 0
  }

  lemma OctetBits(o: octet)
    ensures OctetValue(o) ==
      Bit(o, 0x80, 128) + Bit(o, 0x40, 64) + Bit(o, 0x20, 32) + Bit(o, 0x10, 16) +
      Bit(o, 0x08, 8) + Bit(o, 0x04, 4) + Bit(o, 0x02, 2) + Bit(o, 0x01, 1)
  {
  }

  function Pow2(k: nat): nat {
    if k == 0 then 1 else 2 * Pow2(k - 1)
  }

  /** The polynomial's value at x = 2, as far as its n lowest coefficients go. */
  function AtTwo(p: Poly, n: nat): nat {
    if n == 0 then 0 else AtTwo(p, n - 1) + if n - 1 in p then Pow2(n - 1) else 0
  }

  /** The eight coefficients from base on are the bits of an octet. */
  predicate OctetIn(p: Poly, base: nat, o: octet) {
    && (base + 7 in p <==> o & 0x80 != 0) && (base + 6 in p <==> o & 0x40 != 0)
    && (base + 5 in p <==> o & 0x20 != 0) && (base + 4 in p <==> o & 0x10 != 0)
    && (base + 3 in p <==> o & 0x08 != 0) && (base + 2 in p <==> o & 0x04 != 0)
    && (base + 1 in p <==> o & 0x02 != 0) && (base in p <==> o & 0x01 != 0)
  }

  lemma Powers(base: nat)
    ensures Pow2(base + 1) == 2 * Pow2(base) && Pow2(base + 2) == 4 * Pow2(base) && Pow2(base + 3) == 8 * Pow2(base)
    ensures Pow2(base + 4) == 16 * Pow2(base) && Pow2(base + 5) == 32 * Pow2(base)
    ensures Pow2(base + 6) == 64 * Pow2(base) && Pow2(base + 7) == 128 * Pow2(base)
    ensures Pow2(base + 8) == 256 * Pow2(base)
  {
    assert Pow2(base + 4) == 2 * Pow2(base + 3);
    assert Pow2(base + 6) == 2 * Pow2(base + 5);
  }

  lemma FourMore(p: Poly, n: nat)
    ensures AtTwo(p, n + 4) == AtTwo(p, n) +
      (if n in p then Pow2(n) else 0) + (if n + 1 in p then Pow2(n + 1) else 0) +
      (if n + 2 in p then Pow2(n + 2) else 0) + (if n + 3 in p then Pow2(n + 3) else 0)
  {
    assert AtTwo(p, n + 2) == AtTwo(p, n + 1) + if n + 1 in p then Pow2(n + 1) else 0;
  }

  lemma OctetAtTwo(p: Poly, base: nat, o: octet)
    requires OctetIn(p, base, o)
    ensures AtTwo(p, base + 8) == AtTwo(p, base) + Pow2(base) * OctetValue(o)
  {
    hide Pow2, AtTwo, OctetValue;
    FourMore(p, base);
    FourMore(p, base + 4);
    Powers(base);
    OctetBits(o);
    Scale(Pow2(base), o);
  }

  lemma Scale(m: nat, o: octet)
    ensures m * (Bit(o, 0x80, 128) + Bit(o, 0x40, 64) + Bit(o, 0x20, 32) + Bit(o, 0x10, 16) +
                 Bit(o, 0x08, 8) + Bit(o, 0x04, 4) + Bit(o, 0x02, 2) + Bit(o, 0x01, 1)) ==
            Bit(o, 0x80, 128 * m) + Bit(o, 0x40, 64 * m) + Bit(o, 0x20, 32 * m) + Bit(o, 0x10, 16 * m) +
            Bit(o, 0x08, 8 * m) + Bit(o, 0x04, 4 * m) + Bit(o, 0x02, 2 * m) + Bit(o, 0x01, m)
  {
    hide Bit;
    Distribute(m, Bit(o, 0x80, 128), Bit(o, 0x40, 64), Bit(o, 0x20, 32), Bit(o, 0x10, 16),
               Bit(o, 0x08, 8), Bit(o, 0x04, 4), Bit(o, 0x02, 2), Bit(o, 0x01, 1));
    ScaleBit(m, o, 0x80, 128);
    ScaleBit(m, o, 0x40, 64);
    ScaleBit(m, o, 0x20, 32);
    ScaleBit(m, o, 0x10, 16);
    ScaleBit(m, o, 0x08, 8);
    ScaleBit(m, o, 0x04, 4);
    ScaleBit(m, o, 0x02, 2);
    ScaleBit(m, o, 0x01, 1);
  }

  lemma ScaleBit(m: nat, o: octet, mask: octet, value: nat)
    ensures m * Bit(o, mask, value) == Bit(o, mask, value * m)
  {
  }

  lemma Distribute(m: nat, a: nat, b: nat, c: nat, d: nat, e: nat, f: nat, g: nat, h: nat)
    ensures m * (a + b + c + d + e + f + g + h) ==
            m * a + m * b + m * c + m * d + m * e + m * f + m * g + m * h
  {
  }

  lemma TopOctetMasks(y: word)
    ensures (OctetOf(y, 3) & 0x80 != 0) == (y & 0x8000_0000 != 0)
    ensures (OctetOf(y, 3) & 0x40 != 0) == (y & 0x4000_0000 != 0)
    ensures (OctetOf(y, 3) & 0x20 != 0) == (y & 0x2000_0000 != 0)
    ensures (OctetOf(y, 3) & 0x10 != 0) == (y & 0x1000_0000 != 0)
    ensures (OctetOf(y, 3) & 0x08 != 0) == (y & 0x0800_0000 != 0)
    ensures (OctetOf(y, 3) & 0x04 != 0) == (y & 0x0400_0000 != 0)
    ensures (OctetOf(y, 3) & 0x02 != 0) == (y & 0x0200_0000 != 0)
    ensures (OctetOf(y, 3) & 0x01 != 0) == (y & 0x0100_0000 != 0)
  {
  }

  lemma NextOctets(x: word)
    ensures OctetOf(x << 8, 3) == OctetOf(x, 2)
    ensures OctetOf((x << 8) << 8, 3) == OctetOf(x, 1)
    ensures OctetOf(((x << 8) << 8) << 8, 3) == OctetOf(x, 0)
  {
  }

  /** The octet that is top after the word was shifted up to it. */
  lemma TopOctetIn(x: word, y: word, base: nat)
    requires base <= 24 && forall i: nat :: i < 8 ==> BitAt(x, 24 - base + i) == BitAt(y, i)
    ensures OctetIn(WordPoly(x), base, OctetOf(y, 3))
  {
    hide BitAt, OctetOf;
    FirstEight(y);
    TopOctetMasks(y);
    var p := WordPoly(x);
    forall i: nat | i < 8 ensures base + 7 - i in p <==> BitAt(y, i) {
      assert Holds(x, base + 7 - i) == BitAt(x, 24 - base + i);
    }
    assert (base + 7 in p <==> BitAt(y, 0)) && (base + 6 in p <==> BitAt(y, 1)) && (base + 5 in p <==> BitAt(y, 2));
    assert (base + 4 in p <==> BitAt(y, 3)) && (base + 3 in p <==> BitAt(y, 4)) && (base + 2 in p <==> BitAt(y, 5));
    assert (base + 1 in p <==> BitAt(y, 6)) && (base in p <==> BitAt(y, 7));
  }

  /** The number of a word is its polynomial at x = 2: bit k counts 2^k. */
  lemma NumberIsAtTwo(x: word)
    ensures Number(x) == AtTwo(WordPoly(x), 32)
  {
    hide BitAt, OctetOf, OctetIn, OctetValue, WordPoly, AtTwo, Pow2;
    var a := x << 8;
    var b := a << 8;
    var c := b << 8;
    var p := WordPoly(x);
    forall i: nat | i < 8 ensures BitAt(x, 8 + i) == BitAt(a, i) { EightAt(x, a, i); }
    forall i: nat | i < 8 ensures BitAt(x, 16 + i) == BitAt(b, i) { EightAt(x, a, 8 + i); EightAt(a, b, i); }
    forall i: nat | i < 8 ensures BitAt(x, 24 + i) == BitAt(c, i) {
      EightAt(x, a, 16 + i);
      EightAt(a, b, 8 + i);
      EightAt(b, c, i);
    }
    TopOctetIn(x, x, 24);
    TopOctetIn(x, a, 16);
    TopOctetIn(x, b, 8);
    TopOctetIn(x, c, 0);
    NextOctets(x);
    FourOctetsAtTwo(p, OctetOf(x, 0), OctetOf(x, 1), OctetOf(x, 2), OctetOf(x, 3));
    SumOfOctets(x);
  }

  lemma SumOfOctets(x: word)
    ensures Number(x) ==
      OctetValue(OctetOf(x, 0)) + 0x100 * OctetValue(OctetOf(x, 1)) +
      0x1_0000 * OctetValue(OctetOf(x, 2)) + 0x100_0000 * OctetValue(OctetOf(x, 3))
  {
    hide OctetValue, OctetOf;
  }

  lemma FourOctetsAtTwo(p: Poly, a: octet, b: octet, c: octet, d: octet)
    requires OctetIn(p, 0, a) && OctetIn(p, 8, b) && OctetIn(p, 16, c) && OctetIn(p, 24, d)
    ensures AtTwo(p, 32) ==
      OctetValue(a) + 0x100 * OctetValue(b) + 0x1_0000 * OctetValue(c) + 0x100_0000 * OctetValue(d)
  {
    hide OctetIn, OctetValue;
    OctetAtTwo(p, 0, a);
    OctetAtTwo(p, 8, b);
    OctetAtTwo(p, 16, c);
    OctetAtTwo(p, 24, d);
    Powers(0);
    Powers(8);
    Powers(16);
    assert AtTwo(p, 0) == 0 && Pow2(0) == 1;
  }
}
