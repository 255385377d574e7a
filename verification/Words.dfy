/** Little-endian words. */
module Words {
  import opened Types

  /** value & 0xFF */
  function Low(value: nat): uint8 {
    value % 0x100
  }

  function U16LE(v: uint16): (b: Bytes)
    ensures |b| == 2
  {
    [Low(v), Low(v / 0x100)]
  }

  function U32LE(v: uint32): (b: Bytes)
    ensures |b| == 4
  {
    [Low(v), Low(v / 0x100), Low(v / 0x1_0000), Low(v / 0x100_0000)]
  }

  function ReadU16LE(p: Bytes): uint16
    requires |p| >= 2
  {
    var a: nat, b: nat := p[0], p[1];
    a + 0x100 * b
  }

  function ReadU32LE(p: Bytes): uint32
    requires |p| >= 4
  {
    var a: nat, b: nat, c: nat, d: nat := p[0], p[1], p[2], p[3];
    a + 0x100 * b + 0x1_0000 * c + 0x100_0000 * d
  }

  lemma U16RoundTrip(v: uint16)
    ensures ReadU16LE(U16LE(v)) == v
  {
  }

  lemma Digits(v: nat, a: nat, b: nat, c: nat, d: nat)
    requires a < 0x100 && b < 0x100 && c < 0x100 && d < 0x100
    requires v == a + 0x100 * b + 0x1_0000 * c + 0x100_0000 * d
    ensures v % 0x100 == a && v / 0x100 % 0x100 == b && v / 0x1_0000 % 0x100 == c && v / 0x100_0000 % 0x100 == d
  {
    assert v / 0x100 == b + 0x100 * c + 0x1_0000 * d;
    assert v / 0x1_0000 == c + 0x100 * d;
    assert v / 0x100_0000 == d;
  }

  lemma DigitSum(v: uint32, b: nat, c: nat, d: nat)
    requires b == v / 0x100 && c == v / 0x1_0000 && d == v / 0x100_0000
    ensures v == v % 0x100 + 0x100 * (b % 0x100) + 0x1_0000 * (c % 0x100) + 0x100_0000 * (d % 0x100)
  {
    assert c == b / 0x100 && d == c / 0x100;
  }

  lemma U32RoundTrip(v: uint32)
    ensures ReadU32LE(U32LE(v)) == v
  {
    DigitSum(v, v / 0x100, v / 0x1_0000, v / 0x100_0000);
  }

  lemma U32Reread(p: Bytes)
    requires |p| == 4
    ensures U32LE(ReadU32LE(p)) == p
  {
    Digits(ReadU32LE(p), p[0], p[1], p[2], p[3]);
  }

  lemma U16Reread(p: Bytes)
    requires |p| == 2
    ensures U16LE(ReadU16LE(p)) == p
  {
  }

  /** The number whose base-256 digits, lowest first, are the given bytes. */
  function LittleEndian(p: Bytes): nat {
    if p == [] then 0 else p[0] + 0x100 * LittleEndian(p[1..])
  }

  lemma LastDigit(a: uint8)
    ensures LittleEndian([a]) == a
  {
    assert LittleEndian([]) == 0;
  }

  lemma MoreDigits(a: uint8, p: Bytes)
    ensures LittleEndian([a] + p) == a + 0x100 * LittleEndian(p)
  {
    assert ([a] + p)[1..] == p;
  }

  lemma ReadsLittleEndian(p: Bytes)
    ensures |p| == 2 ==> ReadU16LE(p) == LittleEndian(p)
    ensures |p| == 4 ==> ReadU32LE(p) == LittleEndian(p)
  {
    if |p| == 2 {
      assert p == [p[0]] + [p[1]];
      MoreDigits(p[0], [p[1]]);
      LastDigit(p[1]);
    } else if |p| == 4 {
      assert p == [p[0]] + ([p[1]] + ([p[2]] + [p[3]]));
      MoreDigits(p[0], [p[1]] + ([p[2]] + [p[3]]));
      MoreDigits(p[1], [p[2]] + [p[3]]);
      MoreDigits(p[2], [p[3]]);
      LastDigit(p[3]);
    }
  }

  /** Both widths are written and read lowest byte first. */
  lemma WordsAreLittleEndian(v: uint16, w: uint32)
    ensures LittleEndian(U16LE(v)) == v && LittleEndian(U32LE(w)) == w
  {
    ReadsLittleEndian(U16LE(v));
    ReadsLittleEndian(U32LE(w));
    U16RoundTrip(v);
    U32RoundTrip(w);
  }
}
