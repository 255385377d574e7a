/** Polynomials over GF(2), as the finite set of exponents whose coefficient is 1. */
module Gf2 {
  type Poly = set<nat>

  /** Addition, which is also subtraction: exponents that cancel disappear. */
  function Plus(p: Poly, q: Poly): Poly {
    (p - q) + (q - p)
  }

  /** The product p * x^n. */
  function ShiftBy(p: Poly, n: nat): (r: Poly)
    ensures forall k: nat :: k in r <==> k >= n && k - n in p
  {
    var r := set i: nat | i in p :: i + n;
    assert forall k: nat :: k >= n && k - n in p ==> k in r by {
      forall k: nat | k >= n && k - n in p ensures k in r {
        assert (k - n) + n in r;
      }
    }
    r
  }

  /** The ways to write k as i + j with i in p and j in q, named by j. */
  function Splits(p: Poly, q: Poly, k: nat): set<nat> {
    set j | j in q && j <= k && k - j in p
  }

  /** The product: the coefficient of x^k is the parity of the number of splits of k. */
  function Times(p: Poly, q: Poly): (r: Poly)
    ensures forall k: nat :: k in r <==> |Splits(p, q, k)| % 2 == 1
  {
    var sums := set i, j | i in p && j in q :: i + j;
    forall k: nat | |Splits(p, q, k)| % 2 == 1 ensures k in sums {
      var j :| j in Splits(p, q, k);
      assert (k - j) + j in sums;
    }
    set k | k in sums && |Splits(p, q, k)| % 2 == 1
  }

  predicate DegreeBelow(p: Poly, n: nat) {
    forall k :: k in p ==> k < n
  }

  /** g has degree exactly n. */
  predicate DegreeIs(g: Poly, n: nat) {
    n in g && DegreeBelow(g, n + 1)
  }

  /** r is the remainder of p divided by the degree-n polynomial g. */
  ghost predicate IsRemainder(p: Poly, g: Poly, n: nat, r: Poly) {
    DegreeBelow(r, n) && exists q: Poly :: p == Plus(Times(q, g), r)
  }

  lemma TimesX(p: Poly, g: Poly)
    ensures Times(ShiftBy(p, 1), g) == ShiftBy(Times(p, g), 1)
  {
    forall k: nat ensures k in Times(ShiftBy(p, 1), g) <==> k in ShiftBy(Times(p, g), 1) {
      if k == 0 {
        assert Splits(ShiftBy(p, 1), g, 0) == {};
      } else {
        assert Splits(ShiftBy(p, 1), g, k) == Splits(p, g, k - 1);
      }
    }
  }

  lemma SplitsPlusOne(p: Poly, g: Poly, k: nat)
    requires 0 !in p
    ensures Splits(p + {0}, g, k) == Splits(p, g, k) + if k in g then {k} else {}
    ensures k !in Splits(p, g, k)
  {
  }

  lemma CoefficientPlusOne(p: Poly, g: Poly, k: nat)
    requires 0 !in p
    ensures k in Times(p + {0}, g) <==> (k in Times(p, g)) != (k in g)
  {
    var before := Splits(p, g, k);
    SplitsPlusOne(p, g, k);
    if k in g {
      assert |before + {k}| == |before| + 1;
    } else {
      assert before + {} == before;
    }
  }

  lemma TimesPlusOne(p: Poly, g: Poly)
    requires 0 !in p
    ensures Times(p + {0}, g) == Plus(Times(p, g), g)
  {
    forall k: nat ensures k in Times(p + {0}, g) <==> (k in Times(p, g)) != (k in g) {
      CoefficientPlusOne(p, g, k);
    }
  }

  lemma ParityOfPlus(a: set<nat>, b: set<nat>)
    ensures |Plus(a, b)| % 2 == (|a| + |b|) % 2
  {
    var c := a * b;
    assert a == (a - b) + c && b == (b - a) + c;
    assert |a| == |a - b| + |c| && |b| == |b - a| + |c|;
  }

  lemma SplitsDistribute(p: Poly, q: Poly, g: Poly, k: nat)
    ensures Splits(Plus(p, q), g, k) == Plus(Splits(p, g, k), Splits(q, g, k))
  {
    forall j: nat ensures j in Splits(Plus(p, q), g, k) <==> (j in Splits(p, g, k)) != (j in Splits(q, g, k)) {
    }
  }

  lemma CoefficientDistributes(p: Poly, q: Poly, g: Poly, k: nat)
    ensures k in Times(Plus(p, q), g) <==> (k in Times(p, g)) != (k in Times(q, g))
  {
    hide Splits, Plus;
    SplitsDistribute(p, q, g, k);
    ParityOfPlus(Splits(p, g, k), Splits(q, g, k));
  }

  lemma TimesDistributes(p: Poly, q: Poly, g: Poly)
    ensures Times(Plus(p, q), g) == Plus(Times(p, g), Times(q, g))
  {
    hide Times;
    forall k: nat ensures k in Times(Plus(p, q), g) <==> (k in Times(p, g)) != (k in Times(q, g)) {
      CoefficientDistributes(p, q, g, k);
    }
  }

  lemma Leading(p: Poly) returns (d: nat)
    requires p != {}
    ensures DegreeIs(p, d)
  {
    d :| d in p;
    if p != {d} {
      var e := Leading(p - {d});
      assert p == (p - {d}) + {d};
      d := if d < e then e else d;
    }
  }

  lemma LeadingOfTimes(p: Poly, d: nat, g: Poly, n: nat)
    requires DegreeIs(p, d) && DegreeIs(g, n)
    ensures d + n in Times(p, g)
  {
    assert Splits(p, g, d + n) == {n};
  }

  /** A nonzero multiple of g has degree at least that of g. */
  lemma MultipleIsLong(p: Poly, g: Poly, n: nat)
    requires DegreeIs(g, n) && DegreeBelow(Times(p, g), n)
    ensures p == {}
  {
    if p != {} {
      var d := Leading(p);
      LeadingOfTimes(p, d, g, n);
    }
  }

  lemma NothingTimes(g: Poly)
    ensures Times({}, g) == {}
  {
    forall k: nat ensures k !in Times({}, g) { assert Splits({}, g, k) == {}; }
  }

  lemma SameRemainder(p: Poly, g: Poly, n: nat, q: Poly, r: Poly, q': Poly, r': Poly)
    requires DegreeIs(g, n) && DegreeBelow(r, n) && DegreeBelow(r', n)
    requires p == Plus(Times(q, g), r) == Plus(Times(q', g), r')
    ensures r == r'
  {
    var a, b := Times(q, g), Times(q', g);
    assert Plus(a, b) == Plus(r, r') by {
      forall k: nat ensures k in Plus(a, b) <==> k in Plus(r, r') {
        assert k in Plus(a, r) <==> k in Plus(b, r');
      }
    }
    TimesDistributes(q, q', g);
    MultipleIsLong(Plus(q, q'), g, n);
    NothingTimes(g);
    forall k: nat ensures k in r <==> k in r' { assert k !in Plus(r, r'); }
  }

  /** Division by g leaves one remainder only. */
  lemma RemainderIsUnique(p: Poly, g: Poly, n: nat, r: Poly, r': Poly)
    requires DegreeIs(g, n)
    requires IsRemainder(p, g, n, r) && IsRemainder(p, g, n, r')
    ensures r == r'
  {
    var q: Poly :| p == Plus(Times(q, g), r);
    var q': Poly :| p == Plus(Times(q', g), r');
    SameRemainder(p, g, n, q, r, q', r');
  }

  // ---- divisibility ----

  ghost predicate Divides(g: Poly, p: Poly) {
    exists q: Poly :: p == Times(q, g)
  }

  lemma ShiftOneMore(p: Poly, n: nat)
    ensures ShiftBy(p, n + 1) == ShiftBy(ShiftBy(p, n), 1)
  {
    forall k: nat ensures k in ShiftBy(p, n + 1) <==> k in ShiftBy(ShiftBy(p, n), 1) {
      assert k > 0 ==> (k - 1 in ShiftBy(p, n) <==> k - 1 >= n && k - 1 - n in p);
    }
  }

  lemma NoShift(p: Poly)
    ensures ShiftBy(p, 0) == p
  {
  }

  lemma {:induction false} TimesShift(p: Poly, g: Poly, n: nat)
    ensures Times(ShiftBy(p, n), g) == ShiftBy(Times(p, g), n)
  {
    hide Times;
    if n == 0 {
      NoShift(p);
      NoShift(Times(p, g));
    } else {
      TimesShift(p, g, n - 1);
      ShiftOneMore(p, n - 1);
      ShiftOneMore(Times(p, g), n - 1);
      TimesX(ShiftBy(p, n - 1), g);
    }
  }

  /** A polynomial without a constant term is x times another. */
  function Unshift(p: Poly): (r: Poly)
    requires 0 !in p
    ensures ShiftBy(r, 1) == p
  {
    var r := set k | k in p :: k - 1;
    assert forall k: nat :: k in ShiftBy(r, 1) <==> k in p by {
      forall k: nat ensures k in ShiftBy(r, 1) <==> k in p {
        if k in p {
          assert k - 1 in r;
        }
      }
    }
    r
  }

  lemma ConstantOfTimes(q: Poly, g: Poly)
    requires 0 in g
    ensures 0 in Times(q, g) <==> 0 in q
  {
    assert Splits(q, g, 0) == if 0 in q then {0} else {};
  }

  lemma ShiftInjective(p: Poly, q: Poly)
    requires ShiftBy(p, 1) == ShiftBy(q, 1)
    ensures p == q
  {
    forall k: nat ensures k in p <==> k in q {
      assert k + 1 in ShiftBy(p, 1) <==> k + 1 in ShiftBy(q, 1);
    }
  }

  /** Powers of x do not matter to a divisor with a constant term. */
  lemma {:induction false} DividesShifted(g: Poly, p: Poly, n: nat)
    requires 0 in g
    ensures Divides(g, ShiftBy(p, n)) <==> Divides(g, p)
  {
    hide Times;
    if n == 0 {
      NoShift(p);
    } else {
      DividesShifted(g, p, n - 1);
      ShiftOneMore(p, n - 1);
      DividesOneShift(g, ShiftBy(p, n - 1));
    }
  }

  lemma DividesOneShift(g: Poly, p: Poly)
    requires 0 in g
    ensures Divides(g, ShiftBy(p, 1)) <==> Divides(g, p)
  {
    hide Times;
    if Divides(g, p) {
      var q: Poly :| p == Times(q, g);
      TimesX(q, g);
    }
    if Divides(g, ShiftBy(p, 1)) {
      var q: Poly :| ShiftBy(p, 1) == Times(q, g);
      ConstantOfTimes(q, g);
      TimesX(Unshift(q), g);
      ShiftInjective(p, Times(Unshift(q), g));
    }
  }

  lemma DividesExactly(g: Poly, p: Poly, n: nat)
    ensures IsRemainder(p, g, n, {}) <==> Divides(g, p)
  {
    hide Times;
    forall q: Poly ensures Plus(Times(q, g), {}) == Times(q, g) {
    }
  }

  lemma OneTimes(g: Poly)
    ensures Times({0}, g) == g
  {
    forall k: nat ensures k in Times({0}, g) <==> k in g {
      assert Splits({0}, g, k) == if k in g then {k} else {};
    }
  }
}
