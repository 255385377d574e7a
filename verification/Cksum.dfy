/** memcrc of EncryptedFile.cpp: the POSIX checksum of a byte string. */
module Cksum {
  import opened Bitwise
  import opened Gf2
  import opened CrcRegister
  import opened CrcWord
  import CrcTable

  function BitsOf(b: Octets): (r: Bits)
    ensures |r| == 8 * |b|
  {
    if b == [] then [] else BitsOf(b[..|b| - 1]) + ByteBits(b[|b| - 1])
  }

  /** The least significant octets of n first, and no more of them than n needs. */
  function LengthOctets(n: nat): Octets {
    if n == 0 then [] else [(n % 256) as octet] + LengthOctets(n / 256)
  }

  /** What is fed to the register: the file, then its length. */
  function Message(b: Octets): Octets {
    b + LengthOctets(|b|)
  }

  function StepByte(s: word, b: octet): word {
    Xor(Up(s), TableEntry(Index(s, b)))
  }

  function Register(s: word, b: Octets): word {
    if b == [] then s else StepByte(Register(s, b[..|b| - 1]), b[|b| - 1])
  }

  function Complement(x: word): word {
    !x
  }

  function Crc(b: Octets): word {
    Complement(Register(0, Message(b)))
  }

  // ---- the program's loops ----

  // The program's unsigned long may be wider than the register, hence the masks.
  function Widen(x: word): bv64 {
    x as bv64
  }

  function MaskedUp(s: bv64): bv64 {
    (s << 8) & 0xFFFF_FFFF
  }

  function TabIdx(s: bv64, c: octet): bv64 {
    (s >> 24) ^ (c as bv64)
  }

  function Xor64(x: bv64, y: bv64): bv64 {
    x ^ y
  }

  lemma MaskKeepsLow(x: word)
    ensures MaskedUp(Widen(x)) == Widen(x << 8)
  {
  }

  lemma MaskedUpIsUp(reg: word)
    ensures MaskedUp(Widen(reg)) == Widen(Up(reg))
  {
    MaskKeepsLow(reg);
  }

  lemma TabIdxIsIndex(reg: word, c: octet)
    ensures TabIdx(Widen(reg), c) as int == Index(reg, c) as int
  {
    assert TabIdx(Widen(reg), c) == Index(reg, c) as bv64;
  }

  lemma XorWidens(x: word, y: word)
    ensures Xor64(Widen(x), Widen(y)) == Widen(Xor(x, y))
  {
  }

  method TableStep(s: bv64, c: octet, ghost reg: word) returns (s': bv64)
    requires s == Widen(reg)
    ensures s' == Widen(StepByte(reg, c))
  {
    ghost var i := Index(reg, c);
    MaskedUpIsUp(reg);
    TabIdxIsIndex(reg, c);
    CrcTable.TableIsGenerated(i);
    XorWidens(Up(reg), TableEntry(i));
    s' := Xor64(MaskedUp(s), Widen(CrcTable.CRCTAB[TabIdx(s, c) as int]));
  }

  function MaskedNot(s: bv64): bv64 {
    (!s) & 0xFFFF_FFFF
  }

  lemma MaskKeepsNot(x: word)
    ensures MaskedNot(Widen(x)) == Widen(!x)
  {
  }

  lemma MaskedNotIsComplement(reg: word)
    ensures MaskedNot(Widen(reg)) == Widen(Complement(reg))
  {
    MaskKeepsNot(reg);
  }

  lemma RegisterSnoc(s: word, b: Octets, c: octet)
    ensures Register(s, b + [c]) == StepByte(Register(s, b), c)
  {
    assert (b + [c])[..|b|] == b;
  }

  lemma NextOctet(fed: Octets, n: nat)
    requires n > 0
    ensures fed + LengthOctets(n) == fed + [(n % 256) as octet] + LengthOctets(n / 256)
  {
  }

  method Memcrc(b: Octets) returns (crc: bv64)
    ensures crc == Widen(Crc(b))
  {
    var s: bv64 := 0;
    for i := 0 to |b|
      invariant s == Widen(Register(0, b[..i]))
    {
      RegisterSnoc(0, b[..i], b[i]);
      assert b[..i] + [b[i]] == b[..i + 1];
      s := TableStep(s, b[i], Register(0, b[..i]));
    }
    var n: nat := |b|;
    ghost var fed := b;
    assert b[..|b|] == b;
    while n != 0
      invariant s == Widen(Register(0, fed))
      invariant fed + LengthOctets(n) == Message(b)
    {
      var c := (n % 256) as octet;
      RegisterSnoc(0, fed, c);
      NextOctet(fed, n);
      s := TableStep(s, c, Register(0, fed));
      fed := fed + [c];
      n := n / 256;
    }
    assert fed + [] == fed;
    MaskedNotIsComplement(Register(0, fed));
    crc := MaskedNot(s);
  }

  /** static_cast<uint32_t> of the result. */
  function Truncate(x: bv64): word {
    (x & 0xFFFF_FFFF) as word
  }

  lemma TruncateWidened(x: word)
    ensures Truncate(Widen(x)) == x
  {
  }

  // ---- the checksum is the one cksum(1) defines ----

  lemma {:induction false} RegisterFeeds(s: word, b: Octets)
    ensures WordPoly(Register(s, b)) == Feed(WordPoly(s), BitsOf(b))
    decreases |b|
  {
    if b != [] {
      var front, last := b[..|b| - 1], b[|b| - 1];
      var reg := Register(s, front);
      RegisterFeeds(s, front);
      GeneratedIsEntry(Index(reg, last));
      StepByteFeeds(reg, last, TableEntry(Index(reg, last)));
      FeedAppend(WordPoly(s), BitsOf(front), ByteBits(last));
    }
  }

  lemma ZeroPoly()
    ensures WordPoly(0) == {}
  {
    forall k: nat | k < 32 ensures !Holds(0, k) { ZeroAt(31 - k); }
  }

  lemma ComplementTwice(x: word)
    ensures Complement(Complement(x)) == x
  {
  }

  lemma CrcFeeds(b: Octets)
    ensures WordPoly(Complement(Crc(b))) == Feed({}, BitsOf(Message(b)))
  {
    ComplementTwice(Register(0, Message(b)));
    RegisterFeeds(0, Message(b));
    ZeroPoly();
  }

  /** The complement of the checksum is the remainder of M(x) * x^32 by G(x), and no other polynomial is. */
  lemma CrcIsThePosixRemainder(b: Octets, r: Poly)
    ensures IsRemainder(ShiftBy(PolyOf(BitsOf(Message(b))), 32), GENERATOR, 32, r)
            <==> r == WordPoly(Complement(Crc(b)))
  {
    CrcFeeds(b);
    FeedIsTheRemainder(BitsOf(Message(b)), r);
  }
}
