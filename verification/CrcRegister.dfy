/** A 32-bit CRC register fed one bit at a time, seen as a polynomial of degree at most 31. */
module CrcRegister {
  import opened Gf2

  /** G(x), as the cksum page of IEEE Std 1003.1 lists it. */
  const GENERATOR: Poly := {32, 26, 23, 22, 16, 12, 11, 10, 8, 7, 5, 4, 2, 1, 0}

  type Bits = seq<bool>

  function If(c: bool, p: Poly): Poly {
    if c then p else {}
  }

  /** Multiplication by x modulo G. */
  function Advance(p: Poly): Poly {
    Plus(ShiftBy(p, 1), If(31 in p, GENERATOR))
  }

  function FeedBit(p: Poly, b: bool): Poly {
    Advance(Plus(p, If(b, {31})))
  }

  function Feed(p: Poly, bits: Bits): Poly {
    if bits == [] then p else FeedBit(Feed(p, bits[..|bits| - 1]), bits[|bits| - 1])
  }

  /** The coefficient of x^k in a list that starts with the highest. */
  predicate Coefficient(bits: Bits, k: nat)
    requires k < |bits|
  {
    bits[|bits| - 1 - k]
  }

  /** The polynomial whose coefficients, highest first, are the given bits. */
  function PolyOf(bits: Bits): Poly {
    set k: nat | k < |bits| && Coefficient(bits, k)
  }

  function XorBits(a: Bits, b: Bits): (r: Bits)
    requires |a| == |b|
    ensures |r| == |a| && forall i :: 0 <= i < |a| ==> r[i] == (a[i] != b[i])
  {
    seq(|a|, i requires 0 <= i < |a| => a[i] != b[i])
  }

  function NoBits(n: nat): (r: Bits)
    ensures |r| == n && forall i :: 0 <= i < n ==> !r[i]
  {
    seq(n, i => false)
  }

  // ---- the register holds the remainder ----

  lemma FeedBitStaysBelow(p: Poly, b: bool)
    requires DegreeBelow(p, 32)
    ensures DegreeBelow(FeedBit(p, b), 32)
  {
    var t := Plus(p, If(b, {31}));
    forall k: nat | 32 <= k ensures k !in FeedBit(p, b) {
      assert k in ShiftBy(t, 1) <==> k - 1 in t;
    }
  }

  lemma {:induction false} FeedStaysBelow(p: Poly, bits: Bits)
    requires DegreeBelow(p, 32)
    ensures DegreeBelow(Feed(p, bits), 32)
  {
    if bits != [] {
      var front := bits[..|bits| - 1];
      FeedStaysBelow(p, front);
      FeedBitStaysBelow(Feed(p, front), bits[|bits| - 1]);
    }
  }

  lemma PolyOfAppend(bits: Bits, b: bool)
    ensures PolyOf(bits + [b]) == Plus(ShiftBy(PolyOf(bits), 1), If(b, {0}))
  {
    forall k: nat
      ensures k in PolyOf(bits + [b]) <==> (k in ShiftBy(PolyOf(bits), 1)) != (b && k == 0)
    {
      if 0 < k <= |bits| {
        assert Coefficient(bits + [b], k) == Coefficient(bits, k - 1);
      }
    }
  }

  lemma QuotientDigit(q: Poly, c: bool) returns (q': Poly)
    ensures Times(q', GENERATOR) == Plus(ShiftBy(Times(q, GENERATOR), 1), If(c, GENERATOR))
  {
    TimesX(q, GENERATOR);
    q' := ShiftBy(q, 1);
    if c {
      TimesPlusOne(q', GENERATOR);
      q' := q' + {0};
    }
  }

  /** The bookkeeping of one division step, coefficient by coefficient. */
  lemma DigitAlgebra(m: Poly, multiple: Poly, r: Poly, b: bool)
    requires ShiftBy(m, 32) == Plus(multiple, r)
    ensures ShiftBy(Plus(ShiftBy(m, 1), If(b, {0})), 32) ==
            Plus(Plus(ShiftBy(multiple, 1), If(31 in Plus(r, If(b, {31})), GENERATOR)), FeedBit(r, b))
  {
    var t := Plus(r, If(b, {31}));
    var left := ShiftBy(Plus(ShiftBy(m, 1), If(b, {0})), 32);
    var high := Plus(ShiftBy(multiple, 1), If(31 in t, GENERATOR));
    forall k: nat ensures k in left <==> (k in high) != (k in FeedBit(r, b)) {
      if k > 0 {
        assert k - 1 in ShiftBy(m, 32) <==> (k - 1 in multiple) != (k - 1 in r);
      }
    }
  }

  lemma DivideOneMore(front: Bits, b: bool, r: Poly, q: Poly) returns (q': Poly)
    requires ShiftBy(PolyOf(front), 32) == Plus(Times(q, GENERATOR), r)
    ensures ShiftBy(PolyOf(front + [b]), 32) == Plus(Times(q', GENERATOR), FeedBit(r, b))
  {
    q' := QuotientDigit(q, 31 in Plus(r, If(b, {31})));
    PolyOfAppend(front, b);
    DigitAlgebra(PolyOf(front), Times(q, GENERATOR), r, b);
  }

  lemma FeedLast(p: Poly, front: Bits, b: bool)
    ensures Feed(p, front + [b]) == FeedBit(Feed(p, front), b)
  {
    assert (front + [b])[..|front|] == front;
  }

  lemma DivideNothing()
    ensures ShiftBy(PolyOf([]), 32) == Plus(Times({}, GENERATOR), Feed({}, []))
  {
    NothingTimes(GENERATOR);
    assert PolyOf([]) == {} && ShiftBy({}, 32) == {};
  }

  /** Feeding a message divides it, shifted 32 places, by G. */
  lemma {:induction false} FeedDivides(bits: Bits) returns (q: Poly)
    ensures ShiftBy(PolyOf(bits), 32) == Plus(Times(q, GENERATOR), Feed({}, bits))
  {
    hide Times, Plus, ShiftBy, PolyOf, FeedBit, Feed;
    if bits == [] {
      q := {};
      DivideNothing();
    } else {
      var front, b := bits[..|bits| - 1], bits[|bits| - 1];
      var q0 := FeedDivides(front);
      q := DivideOneMore(front, b, Feed({}, front), q0);
      FeedLast({}, front, b);
      assert bits == front + [b];
    }
  }

  /** The register is the remainder of M(x) * x^32 by G(x), and nothing else is. */
  lemma FeedIsTheRemainder(bits: Bits, r: Poly)
    ensures IsRemainder(ShiftBy(PolyOf(bits), 32), GENERATOR, 32, r) <==> r == Feed({}, bits)
  {
    var m := ShiftBy(PolyOf(bits), 32);
    var q := FeedDivides(bits);
    FeedStaysBelow({}, bits);
    assert IsRemainder(m, GENERATOR, 32, Feed({}, bits));
    if IsRemainder(m, GENERATOR, 32, r) {
      RemainderIsUnique(m, GENERATOR, 32, r, Feed({}, bits));
    }
  }

  // ---- linearity, injectivity and burst detection ----

  lemma {:induction false} FeedAppend(p: Poly, a: Bits, b: Bits)
    ensures Feed(p, a + b) == Feed(Feed(p, a), b)
    decreases |b|
  {
    hide FeedBit;
    if b == [] {
      assert a + b == a;
    } else {
      var front := b[..|b| - 1];
      FeedAppend(p, a, front);
      assert (a + b)[..|a + b| - 1] == a + front;
    }
  }

  lemma AdvanceLinear(s: Poly, t: Poly)
    ensures Advance(Plus(s, t)) == Plus(Advance(s), Advance(t))
  {
    forall k: nat ensures k in Advance(Plus(s, t)) <==> (k in Advance(s)) != (k in Advance(t)) {
    }
  }

  lemma FeedBitLinear(p: Poly, q: Poly, b: bool, c: bool)
    ensures FeedBit(Plus(p, q), b != c) == Plus(FeedBit(p, b), FeedBit(q, c))
  {
    var s, t := Plus(p, If(b, {31})), Plus(q, If(c, {31}));
    var u := Plus(Plus(p, q), If(b != c, {31}));
    assert u == Plus(s, t);
    AdvanceLinear(s, t);
  }

  lemma {:induction false} FeedLinear(p: Poly, q: Poly, a: Bits, b: Bits)
    requires |a| == |b|
    ensures Feed(Plus(p, q), XorBits(a, b)) == Plus(Feed(p, a), Feed(q, b))
    decreases |a|
  {
    if a != [] {
      var n := |a| - 1;
      FeedLinear(p, q, a[..n], b[..n]);
      assert XorBits(a, b)[..n] == XorBits(a[..n], b[..n]);
      FeedBitLinear(Feed(p, a[..n]), Feed(q, b[..n]), a[n], b[n]);
    }
  }

  /** G has a constant term, so a step can be undone. */
  lemma FeedBitInjective(p: Poly, q: Poly, b: bool)
    requires FeedBit(p, b) == FeedBit(q, b)
    ensures p == q
  {
    var s, t := Plus(p, If(b, {31})), Plus(q, If(b, {31}));
    assert 31 in s <==> 0 in Advance(s);
    assert 31 in t <==> 0 in Advance(t);
    forall k: nat ensures k in p <==> k in q {
      assert k + 1 in Advance(s) <==> k + 1 in Advance(t);
    }
  }

  lemma {:induction false} FeedInjective(p: Poly, q: Poly, bits: Bits)
    requires Feed(p, bits) == Feed(q, bits)
    ensures p == q
    decreases |bits|
  {
    if bits != [] {
      var front := bits[..|bits| - 1];
      FeedBitInjective(Feed(p, front), Feed(q, front), bits[|bits| - 1]);
      FeedInjective(p, q, front);
    }
  }

  /** The register that starts with the given bits. */
  function Pack(bits: Bits): Poly {
    set k: nat | k < 32 && 31 - k < |bits| && Leads(bits, k)
  }

  predicate Leads(bits: Bits, k: nat)
    requires k < 32 && 31 - k < |bits|
  {
    bits[31 - k]
  }

  lemma PackStep(b: bool, rest: Bits)
    requires |rest| < 32
    ensures FeedBit(Pack([b] + rest), b) == Pack(rest)
  {
    var bits := [b] + rest;
    var t := Plus(Pack(bits), If(b, {31}));
    assert 31 in Pack(bits) <==> Leads(bits, 31);
    forall k: nat ensures k in Advance(t) <==> k in Pack(rest) {
      if 0 < k < 32 && 31 - k < |rest| {
        assert Leads(bits, k - 1) == Leads(rest, k);
      }
    }
  }

  /** A register fed with what it already starts with is cleared. */
  lemma {:induction false} PackClears(bits: Bits)
    requires |bits| <= 32
    ensures Feed(Pack(bits), bits) == {}
  {
    if bits != [] {
      var b, rest := bits[0], bits[1..];
      assert [b] + rest == bits;
      PackStep(b, rest);
      FeedAppend(Pack(bits), [b], rest);
      PackClears(rest);
    }
  }

  /** Up to 32 bits enter the register as if added to its top at once. */
  lemma WindowFactors(p: Poly, bits: Bits)
    requires |bits| <= 32
    ensures Feed(p, bits) == Feed(Plus(p, Pack(bits)), NoBits(|bits|))
  {
    var w := Plus(p, Pack(bits));
    FeedLinear(w, Pack(bits), NoBits(|bits|), bits);
    PackClears(bits);
    assert XorBits(NoBits(|bits|), bits) == bits;
    assert Plus(w, Pack(bits)) == p;
  }

  /** Any change confined to at most 32 consecutive bits changes the register. */
  lemma BurstChangesRegister(p: Poly, u: Bits, v: Bits)
    requires |u| == |v| <= 32
    requires Feed(p, u) == Feed(p, v)
    ensures u == v
  {
    WindowFactors(p, u);
    WindowFactors(p, v);
    FeedInjective(Plus(p, Pack(u)), Plus(p, Pack(v)), NoBits(|u|));
    forall i | 0 <= i < |u| ensures u[i] == v[i] {
      var k: nat := 31 - i;
      assert k in Plus(p, Pack(u)) <==> k in Plus(p, Pack(v));
      assert Leads(u, k) == u[i] && Leads(v, k) == v[i];
    }
  }
}
