/** Which differences between two files the checksum cannot miss. */
module Detection {
  import opened Bitwise
  import opened Gf2
  import opened CrcRegister
  import opened CrcWord
  import opened Cksum
  import opened CrcNumber

  lemma {:induction false} BitsOfAppend(a: Octets, b: Octets)
    ensures BitsOf(a + b) == BitsOf(a) + BitsOf(b)
    decreases |b|
  {
    if b == [] {
      assert a + b == a;
    } else {
      var front := b[..|b| - 1];
      BitsOfAppend(a, front);
      assert (a + b)[..|a + b| - 1] == a + front;
      Associate(BitsOf(a), BitsOf(front), ByteBits(b[|b| - 1]));
    }
  }

  lemma Associate(a: Bits, b: Bits, c: Bits)
    ensures (a + b) + c == a + (b + c)
  {
  }

  lemma SameByte(a: octet, b: octet)
    requires ByteBits(a) == ByteBits(b)
    ensures a == b
  {
    assert ByteBits(a)[0] == ByteBits(b)[0] && ByteBits(a)[1] == ByteBits(b)[1];
    assert ByteBits(a)[2] == ByteBits(b)[2] && ByteBits(a)[3] == ByteBits(b)[3];
    assert ByteBits(a)[4] == ByteBits(b)[4] && ByteBits(a)[5] == ByteBits(b)[5];
    assert ByteBits(a)[6] == ByteBits(b)[6] && ByteBits(a)[7] == ByteBits(b)[7];
  }

  lemma {:induction false} SameBytes(a: Octets, b: Octets)
    requires |a| == |b| && BitsOf(a) == BitsOf(b)
    ensures a == b
  {
    if a != [] {
      var n := |a| - 1;
      var u, v := BitsOf(a[..n]), BitsOf(b[..n]);
      assert u == (u + ByteBits(a[n]))[..8 * n] && v == (v + ByteBits(b[n]))[..8 * n];
      assert ByteBits(a[n]) == (u + ByteBits(a[n]))[8 * n..];
      assert ByteBits(b[n]) == (v + ByteBits(b[n]))[8 * n..];
      SameBytes(a[..n], b[..n]);
      SameByte(a[n], b[n]);
    }
  }

  lemma {:induction false} BitOfByte(b: Octets, i: nat, j: nat)
    requires i < |b| && j < 8
    ensures BitsOf(b)[8 * i + j] == ByteBits(b[i])[j]
  {
    if i < |b| - 1 {
      BitOfByte(b[..|b| - 1], i, j);
    }
  }

  /** What the two checksums say about each other: the length octets are the same and cancel. */
  lemma SameCrc(a: Octets, b: Octets)
    requires |a| == |b| && Crc(a) == Crc(b)
    ensures Feed({}, BitsOf(a)) == Feed({}, BitsOf(b))
  {
    var tail := LengthOctets(|a|);
    CrcFeeds(a);
    CrcFeeds(b);
    BitsOfAppend(a, tail);
    BitsOfAppend(b, tail);
    FeedAppend({}, BitsOf(a), BitsOf(tail));
    FeedAppend({}, BitsOf(b), BitsOf(tail));
    FeedInjective(Feed({}, BitsOf(a)), Feed({}, BitsOf(b)), BitsOf(tail));
  }

  /** The bit strings agree outside the n places that start at from. */
  predicate AgreeOutside<T(==)>(a: seq<T>, b: seq<T>, from: nat, n: nat)
    requires |a| == |b|
  {
    forall i :: 0 <= i < |a| && !(from <= i < from + n) ==> a[i] == b[i]
  }

  lemma RegisterBurst(a: Bits, b: Bits, from: nat, n: nat)
    requires |a| == |b| && n <= 32 && AgreeOutside(a, b, from, n)
    requires Feed({}, a) == Feed({}, b)
    ensures a == b
  {
    hide Feed;
    if from + n <= |a| {
      var to := from + n;
      var u, v, v', w := a[..from], a[from..to], b[from..to], a[to..];
      assert a == u + v + w;
      assert b == u + v' + w;
      FeedThree(u, v, w);
      FeedThree(u, v', w);
      FeedInjective(Feed(Feed({}, u), v), Feed(Feed({}, u), v'), w);
      BurstChangesRegister(Feed({}, u), v, v');
    } else if from < |a| {
      RegisterBurst(a, b, from, |a| - from);
    }
  }

  lemma FeedThree(u: Bits, v: Bits, w: Bits)
    ensures Feed({}, u + v + w) == Feed(Feed(Feed({}, u), v), w)
  {
    FeedAppend({}, u + v, w);
    FeedAppend({}, u, v);
  }

  /** No change confined to 32 consecutive bits, wherever they start, keeps the checksum. */
  lemma BitBurstDetected(a: Octets, b: Octets, from: nat)
    requires |a| == |b| && AgreeOutside(BitsOf(a), BitsOf(b), from, 32)
    ensures Crc(a) == Crc(b) <==> a == b
  {
    if Crc(a) == Crc(b) {
      SameCrc(a, b);
      RegisterBurst(BitsOf(a), BitsOf(b), from, 32);
      SameBytes(a, b);
    }
  }

  /** No change confined to 4 consecutive bytes keeps the checksum. */
  lemma BurstDetected(a: Octets, b: Octets, from: nat)
    requires |a| == |b| && AgreeOutside(a, b, from, 4)
    ensures Crc(a) == Crc(b) <==> a == b
  {
    var u, v := BitsOf(a), BitsOf(b);
    forall k: nat | k < |u| && !(8 * from <= k < 8 * from + 32) ensures u[k] == v[k] {
      BitOfByte(a, k / 8, k % 8);
      BitOfByte(b, k / 8, k % 8);
    }
    BitBurstDetected(a, b, 8 * from);
  }

  // ---- linearity ----

  lemma ComplementXor(x: word, y: word)
    ensures Xor(Complement(x), Complement(y)) == Xor(x, y)
  {
  }

  lemma CommonTailCancels(a: Bits, b: Bits, t: Bits)
    requires |a| == |b|
    ensures XorBits(a + t, b + t) == XorBits(a, b) + NoBits(|t|)
  {
  }

  /** The difference of two checksums is a function of the difference of the files. */
  lemma CrcLinear(a: Octets, b: Octets)
    requires |a| == |b|
    ensures WordPoly(Xor(Crc(a), Crc(b))) ==
            Feed({}, XorBits(BitsOf(a), BitsOf(b)) + NoBits(8 * |LengthOctets(|a|)|))
  {
    var tail := LengthOctets(|a|);
    var x, y := Crc(a), Crc(b);
    ComplementXor(x, y);
    XorWordPoly(Complement(x), Complement(y));
    CrcFeeds(a);
    CrcFeeds(b);
    BitsOfAppend(a, tail);
    BitsOfAppend(b, tail);
    FeedLinear({}, {}, BitsOf(Message(a)), BitsOf(Message(b)));
    CommonTailCancels(BitsOf(a), BitsOf(b), BitsOf(tail));
    assert Plus({}, {}) == {};
  }

  // ---- which changes are missed ----

  /** The difference of two files of equal length, as a polynomial. */
  function Difference(a: Octets, b: Octets): Poly
    requires |a| == |b|
  {
    PolyOf(XorBits(BitsOf(a), BitsOf(b)))
  }

  lemma PlusNothing(p: Poly, q: Poly)
    ensures Plus(p, q) == {} <==> p == q
  {
    if Plus(p, q) == {} {
      forall k: nat ensures k in p <==> k in q { assert k !in Plus(p, q); }
    }
  }

  lemma SameRegisterSameCrc(a: Octets, b: Octets)
    requires |a| == |b| && Feed({}, BitsOf(a)) == Feed({}, BitsOf(b))
    ensures Crc(a) == Crc(b)
  {
    var tail := LengthOctets(|a|);
    CrcFeeds(a);
    CrcFeeds(b);
    BitsOfAppend(a, tail);
    BitsOfAppend(b, tail);
    FeedAppend({}, BitsOf(a), BitsOf(tail));
    FeedAppend({}, BitsOf(b), BitsOf(tail));
    WordPolyInjective(Complement(Crc(a)), Complement(Crc(b)));
    ComplementTwice(Crc(a));
    ComplementTwice(Crc(b));
  }

  /** For files of equal length the checksum misses exactly the differences that G divides. */
  lemma MissedExactly(a: Octets, b: Octets)
    requires |a| == |b|
    ensures Crc(a) == Crc(b) <==> Divides(GENERATOR, Difference(a, b))
  {
    hide Feed, Divides, IsRemainder, Crc;
    var u, v := BitsOf(a), BitsOf(b);
    if Crc(a) == Crc(b) {
      SameCrc(a, b);
    }
    if Feed({}, u) == Feed({}, v) {
      SameRegisterSameCrc(a, b);
    }
    FeedLinear({}, {}, u, v);
    assert Plus({}, {}) == {};
    PlusNothing(Feed({}, u), Feed({}, v));
    FeedIsTheRemainder(XorBits(u, v), {});
    DividesExactly(GENERATOR, ShiftBy(Difference(a, b), 32), 32);
    DividesShifted(GENERATOR, Difference(a, b), 32);
  }

  /** The byte with the given bits, highest first. */
  function ByteOf(bits: Bits): octet
    requires |bits| == 8
  {
    (if bits[0] then 0x80 else 0) | (if bits[1] then 0x40 else 0) | (if bits[2] then 0x20 else 0) |
    (if bits[3] then 0x10 else 0) | (if bits[4] then 0x08 else 0) | (if bits[5] then 0x04 else 0) |
    (if bits[6] then 0x02 else 0) | (if bits[7] then 0x01 else 0)
  }

  lemma ByteOfBits(bits: Bits)
    requires |bits| == 8
    ensures ByteBits(ByteOf(bits)) == bits
  {
  }

  function OctetsOf(bits: Bits): Octets
    requires |bits| % 8 == 0
  {
    if bits == [] then [] else OctetsOf(bits[..|bits| - 8]) + [ByteOf(bits[|bits| - 8..])]
  }

  lemma NoOctets()
    ensures BitsOf([]) == []
  {
  }

  lemma OneMoreOctet(front: Octets, b: octet)
    ensures BitsOf(front + [b]) == BitsOf(front) + ByteBits(b)
  {
    hide ByteBits;
    assert (front + [b])[..|front|] == front;
  }

  lemma {:induction false} BitsOfOctets(bits: Bits)
    requires |bits| % 8 == 0
    ensures BitsOf(OctetsOf(bits)) == bits
  {
    hide ByteOf, ByteBits, BitsOf;
    if bits == [] {
      NoOctets();
    } else {
      var n := |bits| - 8;
      BitsOfOctets(bits[..n]);
      ByteOfBits(bits[n..]);
      OneMoreOctet(OctetsOf(bits[..n]), ByteOf(bits[n..]));
    }
  }

  /** The 33 coefficients of G, highest first. */
  function GeneratorBits(): (r: Bits)
    ensures |r| == 33 && forall i :: 0 <= i < 33 ==> r[i] == (32 - i in GENERATOR)
  {
    seq(33, i requires 0 <= i < 33 => 32 - i in GENERATOR)
  }

  /** G at the given place of an otherwise unchanged bit string. */
  function Pattern(from: nat, after: nat): (r: Bits)
    ensures |r| == from + 33 + after
  {
    NoBits(from) + GeneratorBits() + NoBits(after)
  }

  lemma GeneratorPoly()
    ensures PolyOf(GeneratorBits()) == GENERATOR
  {
    forall k: nat ensures k in PolyOf(GeneratorBits()) <==> k in GENERATOR {
      if k < 33 {
        assert Coefficient(GeneratorBits(), k) == GeneratorBits()[32 - k];
      }
    }
  }

  lemma FramedPoly(from: nat, bits: Bits, after: nat)
    ensures PolyOf(NoBits(from) + bits + NoBits(after)) == ShiftBy(PolyOf(bits), after)
  {
    var all := NoBits(from) + bits + NoBits(after);
    forall k: nat ensures k in PolyOf(all) <==> k in ShiftBy(PolyOf(bits), after) {
      if k < |all| {
        assert Coefficient(all, k) == all[|all| - 1 - k];
        if after <= k < after + |bits| {
          assert Coefficient(bits, k - after) == bits[|bits| - 1 - (k - after)];
        }
      }
    }
  }

  lemma PatternIsMultiple(from: nat, after: nat)
    ensures Divides(GENERATOR, PolyOf(Pattern(from, after)))
  {
    hide PolyOf, Times;
    FramedPoly(from, GeneratorBits(), after);
    GeneratorPoly();
    OneTimes(GENERATOR);
    DividesShifted(GENERATOR, GENERATOR, after);
  }

  lemma PatternStarts(from: nat, after: nat)
    ensures Pattern(from, after)[from]
    ensures forall i :: 0 <= i < from || from + 33 <= i < from + 33 + after ==> !Pattern(from, after)[i]
  {
    assert 32 in GENERATOR && GeneratorBits()[0];
  }

  /** 32 bits are the limit: every file has an undetected change within any 33 consecutive bits of it. */
  lemma LongerBurstMissed(a: Octets, from: nat) returns (b: Octets)
    requires from + 33 <= 8 * |a|
    ensures |b| == |a| && b != a && AgreeOutside(BitsOf(a), BitsOf(b), from, 33) && Crc(b) == Crc(a)
  {
    hide Crc, Divides, Pattern, PolyOf, BitsOf, OctetsOf;
    var u := BitsOf(a);
    var pattern := Pattern(from, |u| - from - 33);
    var v := XorBits(u, pattern);
    b := OctetsOf(v);
    BitsOfOctets(v);
    assert |BitsOf(b)| == 8 * |b|;
    PatternStarts(from, |u| - from - 33);
    assert v[from] != u[from];
    assert XorBits(u, v) == pattern;
    PatternIsMultiple(from, |u| - from - 33);
    MissedExactly(a, b);
  }

  // ---- the length octets ----

  function ValueOf(octets: Octets): nat {
    if octets == [] then 0 else OctetValue(octets[0]) + 256 * ValueOf(octets[1..])
  }

  lemma OctetKeeps(n: nat)
    requires n < 256
    ensures OctetValue(n as octet) == n
  {
  }

  /** The octets are the binary length, least significant first, and none is spare. */
  lemma {:induction false} OctetsAreTheLength(n: nat)
    ensures ValueOf(LengthOctets(n)) == n
    ensures n > 0 ==> LengthOctets(n)[|LengthOctets(n)| - 1] != 0
    decreases n
  {
    if n > 0 {
      OctetsAreTheLength(n / 256);
      OctetKeeps(n % 256);
      assert LengthOctets(n)[1..] == LengthOctets(n / 256);
    }
  }

  lemma {:induction false} ZerosKeepRegister(k: nat)
    ensures Feed({}, NoBits(k)) == {}
  {
    if k > 0 {
      ZerosKeepRegister(k - 1);
      FeedNothing({}, k - 1);
    }
  }

  lemma {:induction false} BitsOfZeros(k: nat)
    ensures BitsOf(ZeroOctets(k)) == NoBits(8 * k)
  {
    if k > 0 {
      BitsOfZeros(k - 1);
      assert ZeroOctets(k)[..k - 1] == ZeroOctets(k - 1);
      assert ByteBits(0) == NoBits(8);
    }
  }

  /** Leading zero bytes do not show in the register before the length is fed. */
  lemma LeadingZerosUnseen(a: Octets, k: nat)
    ensures Feed({}, BitsOf(ZeroOctets(k) + a)) == Feed({}, BitsOf(a))
  {
    BitsOfAppend(ZeroOctets(k), a);
    BitsOfZeros(k);
    FeedAppend({}, BitsOf(ZeroOctets(k)), BitsOf(a));
    ZerosKeepRegister(8 * k);
  }

  /** The length does show, as long as it keeps its number of octets and that is at most 4. */
  lemma LeadingZerosDetected(a: Octets, k: nat)
    requires k > 0
    requires |LengthOctets(|a|)| == |LengthOctets(|a| + k)| <= 4
    ensures Crc(ZeroOctets(k) + a) != Crc(a)
  {
    var b := ZeroOctets(k) + a;
    var s, t := LengthOctets(|a|), LengthOctets(|a| + k);
    CrcFeeds(a);
    CrcFeeds(b);
    BitsOfAppend(a, s);
    BitsOfAppend(b, t);
    LeadingZerosUnseen(a, k);
    var p := Feed({}, BitsOf(a));
    FeedAppend({}, BitsOf(a), BitsOf(s));
    FeedAppend({}, BitsOf(b), BitsOf(t));
    if Crc(b) == Crc(a) {
      BurstChangesRegister(p, BitsOf(s), BitsOf(t));
      SameBytes(s, t);
      OctetsAreTheLength(|a|);
      OctetsAreTheLength(|a| + k);
      assert false;
    }
  }

  /**
   * The cksum page feeds at least one length octet, memcrc none for an empty file; the remainder is the
   * same, and so is the checksum.
   */
  lemma EmptyFile()
    ensures IsRemainder(ShiftBy(PolyOf(BitsOf([0])), 32), GENERATOR, 32, WordPoly(Complement(Crc([]))))
  {
    hide IsRemainder, Crc, Feed;
    CrcFeeds([]);
    BitsOfZeros(1);
    ZerosKeepRegister(8);
    ZerosKeepRegister(0);
    assert ZeroOctets(1) == [0] && BitsOf(Message([])) == NoBits(0);
    FeedIsTheRemainder(BitsOf([0]), WordPoly(Complement(Crc([]))));
  }
}
