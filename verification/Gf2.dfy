/**
  Polynomials over GF(2), as finite sets of exponents, and their multiples of the
  CRC-8 generator x^8 + x^2 + x + 1.
 */
module Gf2 {

  type Poly = set<nat>

  /** Addition over GF(2): terms that occur twice cancel. */
  function Add(p: Poly, q: Poly): (r: Poly)
    ensures forall e: nat {:trigger e in r} :: e in r <==> (e in p) != (e in q)
  {
    (p - q) + (q - p)
  }

  /** x^k times p. */
  function Shift(p: Poly, k: nat): (r: Poly)
    ensures forall e: nat {:trigger e in r} :: e in r <==> e >= k && e - k in p
  {
    var r: set<nat> := set x: nat | x in p :: x + k;
    assert forall e: nat {:trigger e in r} :: e in r <==> e >= k && e - k in p by {
      forall e: nat
        ensures e in r <==> e >= k && e - k in p
      {
        if e >= k && e - k in p {
          var x: nat := e - k;
          assert x + k in r;
        }
      }
    }
    r
  }

  /** (x^8 + x^2 + x + 1) times q, distributed over the generator's four terms. */
  function TimesG(q: Poly): Poly {
    Add(Add(Shift(q, 8), Shift(q, 2)), Add(Shift(q, 1), q))
  }

  ghost predicate Multiple(p: Poly) {
    exists q: Poly :: p == TimesG(q)
  }

  /** p and r have the same remainder modulo the generator. */
  ghost predicate Congruent(p: Poly, r: Poly) {
    Multiple(Add(p, r))
  }

  lemma {:induction false} TimesGAdd(q1: Poly, q2: Poly)
    ensures TimesG(Add(q1, q2)) == Add(TimesG(q1), TimesG(q2))
  {
    var l, r := TimesG(Add(q1, q2)), Add(TimesG(q1), TimesG(q2));
    assert forall e: nat :: e in l <==> e in r;
  }

  lemma {:induction false} ShiftShift(p: Poly, j: nat, k: nat)
    ensures Shift(Shift(p, j), k) == Shift(p, j + k)
  {
    var l, r := Shift(Shift(p, j), k), Shift(p, j + k);
    forall e: nat
      ensures e in l <==> e in r
    {
      if e >= k {
        assert e in l <==> e - k in Shift(p, j);
      }
    }
  }

  lemma {:induction false} ShiftAdd(p: Poly, q: Poly, k: nat)
    ensures Shift(Add(p, q), k) == Add(Shift(p, k), Shift(q, k))
  {
    var l, r := Shift(Add(p, q), k), Add(Shift(p, k), Shift(q, k));
    forall e: nat
      ensures e in l <==> e in r
    {
      if e >= k {
        assert e in l <==> e - k in Add(p, q);
      }
    }
  }

  lemma {:induction false} TimesGShift(q: Poly, k: nat)
    ensures TimesG(Shift(q, k)) == Shift(TimesG(q), k)
  {
    ShiftAdd(Add(Shift(q, 8), Shift(q, 2)), Add(Shift(q, 1), q), k);
    ShiftAdd(Shift(q, 8), Shift(q, 2), k);
    ShiftAdd(Shift(q, 1), q, k);
    ShiftShift(q, 8, k);
    ShiftShift(q, k, 8);
    ShiftShift(q, 2, k);
    ShiftShift(q, k, 2);
    ShiftShift(q, 1, k);
    ShiftShift(q, k, 1);
  }

  /** Multiples of the generator are closed under addition. */
  lemma {:induction false} MultipleAdd(p: Poly, r: Poly)
    requires Multiple(p)
    ensures Multiple(Add(p, r)) <==> Multiple(r)
  {
    var q: Poly :| p == TimesG(q);
    if Multiple(r) {
      var q2: Poly :| r == TimesG(q2);
      TimesGAdd(q, q2);
    }
    if Multiple(Add(p, r)) {
      var q2: Poly :| Add(p, r) == TimesG(q2);
      TimesGAdd(q, q2);
      assert r == Add(p, Add(p, r));
    }
  }

  lemma {:induction false} CongruentTrans(p: Poly, q: Poly, r: Poly)
    requires Congruent(p, q)
    ensures Congruent(p, r) <==> Congruent(q, r)
  {
    MultipleAdd(Add(p, q), Add(q, r));
    assert Add(Add(p, q), Add(q, r)) == Add(p, r);
    MultipleAdd(Add(p, q), Add(p, r));
    assert Add(Add(p, q), Add(p, r)) == Add(q, r);
  }

  lemma {:induction false} CongruentShift(p: Poly, r: Poly, k: nat)
    requires Congruent(p, r)
    ensures Congruent(Shift(p, k), Shift(r, k))
  {
    var q: Poly :| Add(p, r) == TimesG(q);
    TimesGShift(q, k);
    ShiftAdd(p, r, k);
    assert Add(Shift(p, k), Shift(r, k)) == TimesG(Shift(q, k));
  }

  lemma {:induction false} CongruentAdd(p: Poly, r: Poly, s: Poly)
    requires Congruent(p, r)
    ensures Congruent(Add(p, s), Add(r, s))
  {
    assert Add(Add(p, s), Add(r, s)) == Add(p, r);
  }


  // ---- which error patterns are multiples ------------------------------------

  /** The highest exponent of a nonzero polynomial. */
  lemma {:induction false} Highest(p: Poly) returns (m: nat)
    requires p != {}
    ensures m in p && forall e: nat {:trigger e in p} :: e in p ==> e <= m
  {
    var x :| x in p;
    if p == {x} {
      m := x;
    } else {
      m := Highest(p - {x});
      if x > m { m := x; }
      forall e: nat | e in p
        ensures e <= m
      {
        assert e == x || e in p - {x};
      }
    }
  }

  lemma {:induction false} Lowest(p: Poly) returns (m: nat)
    requires p != {}
    ensures m in p && forall e: nat {:trigger e in p} :: e in p ==> m <= e
  {
    var x :| x in p;
    if p == {x} {
      m := x;
    } else {
      m := Lowest(p - {x});
      if x < m { m := x; }
      forall e: nat | e in p
        ensures m <= e
      {
        assert e == x || e in p - {x};
      }
    }
  }

  lemma {:induction false} MultipleEnds(q: Poly) returns (lo: nat, hi: nat)
    requires q != {}
    ensures lo in TimesG(q) && hi in TimesG(q) && lo + 8 <= hi
  {
    var h := Highest(q);
    lo := Lowest(q);
    hi := h + 8;
    assert hi in Shift(q, 8) && hi !in Shift(q, 2) && hi !in Shift(q, 1) && hi !in q;
    assert lo in q && lo !in Shift(q, 8) && lo !in Shift(q, 2) && lo !in Shift(q, 1);
  }

  /** A multiple of the generator that is not 0 spans at least nine consecutive exponents. */
  lemma {:induction false} MultipleSpans(p: Poly, base: nat)
    requires Multiple(p)
    requires forall e: nat {:trigger e in p} :: e in p ==> base <= e < base + 8
    ensures p == {}
  {
    var q: Poly :| p == TimesG(q);
    if q != {} {
      var lo, hi := MultipleEnds(q);
      assert false;
    }
    assert TimesG({}) == {};
  }

  lemma {:induction false} ShiftSize(p: Poly, k: nat)
    ensures |Shift(p, k)| == |p|
  {
    if p != {} {
      var x :| x in p;
      ShiftSize(p - {x}, k);
      assert Shift(p, k) == Shift(p - {x}, k) + {x + k};
    } else {
      assert Shift(p, k) == {};
    }
  }

  lemma {:induction false} AddParity(p: Poly, q: Poly)
    ensures |Add(p, q)| % 2 == (|p| + |q|) % 2
  {
    assert p == (p - q) + (p * q);
    assert q == (q - p) + (p * q);
    assert |Add(p, q)| == |p - q| + |q - p|;
    assert |p| == |p - q| + |p * q|;
    assert |q| == |q - p| + |p * q|;
  }

  lemma {:induction false} FourTermsEven(a: Poly, b: Poly, c: Poly, d: Poly)
    requires |a| == |b| == |c| == |d|
    ensures |Add(Add(a, b), Add(c, d))| % 2 == 0
  {
    hide *;
    AddParity(a, b);
    AddParity(c, d);
    AddParity(Add(a, b), Add(c, d));
    EvenSum(|a|, |Add(a, b)|, |Add(c, d)|, |Add(Add(a, b), Add(c, d))|);
  }

  lemma {:induction false} EvenSum(n: nat, x: nat, y: nat, z: nat)
    requires x % 2 == (n + n) % 2 && y % 2 == (n + n) % 2 && z % 2 == (x + y) % 2
    ensures z % 2 == 0
  {
  }

  /** The generator has x + 1 as a factor, so every multiple has an even number of terms. */
  lemma {:induction false} MultipleIsEven(p: Poly)
    requires Multiple(p)
    ensures |p| % 2 == 0
  {
    var q: Poly :| p == TimesG(q);
    ShiftSize(q, 8);
    ShiftSize(q, 2);
    ShiftSize(q, 1);
    FourTermsEven(Shift(q, 8), Shift(q, 2), Shift(q, 1), q);
  }
}
