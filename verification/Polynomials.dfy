/** Polynomials with coefficients 0 and 1: the sets of their exponents. */
module Polynomials {
  import opened Folding

  type Poly = set<nat>

  function Plus(p: Poly, q: Poly): Poly {
    (p - q) + (q - p)
  }

  /** Times x^n. */
  function Shift(p: Poly, n: nat): Poly {
    set e | e in p :: e + n
  }

  /** The product of p and the polynomial with these exponents. */
  function Product(p: Poly, exponents: seq<nat>): Poly {
    if exponents == [] then {}
    else Plus(Product(p, exponents[..|exponents| - 1]), Shift(p, exponents[|exponents| - 1]))
  }

  /** r is a remainder of a: a = q * p + r for some q. */
  ghost predicate Congruent(p: Poly, a: Poly, r: Poly) {
    exists q :: a == Plus(Product(p, q), r)
  }

  lemma PlusAssoc(a: Poly, b: Poly, c: Poly)
    ensures Plus(Plus(a, b), c) == Plus(a, Plus(b, c))
  {
  }

  lemma PlusSym(a: Poly, b: Poly)
    ensures Plus(a, b) == Plus(b, a)
  {
  }

  lemma InShift(p: Poly, n: nat, e: nat)
    ensures e in Shift(p, n) <==> e >= n && e - n in p
  {
    if e >= n && e - n in p {
      var d := e - n;
      assert d in p && e == d + n;
    }
  }

  lemma ShiftPlus(a: Poly, b: Poly, n: nat)
    ensures Shift(Plus(a, b), n) == Plus(Shift(a, n), Shift(b, n))
  {
    forall e: nat ensures e in Shift(Plus(a, b), n) <==> e in Plus(Shift(a, n), Shift(b, n)) {
      InShift(Plus(a, b), n, e);
      InShift(a, n, e);
      InShift(b, n, e);
    }
  }

  lemma ShiftShift(a: Poly, m: nat, n: nat)
    ensures Shift(Shift(a, m), n) == Shift(a, m + n)
  {
    forall e: nat ensures e in Shift(Shift(a, m), n) <==> e in Shift(a, m + n) {
      InShift(Shift(a, m), n, e);
      InShift(a, m + n, e);
      if e >= n {
        InShift(a, m, e - n);
      }
    }
  }

  lemma {:induction false} ProductConcat(p: Poly, q: seq<nat>, r: seq<nat>)
    ensures Product(p, q + r) == Plus(Product(p, q), Product(p, r))
  {
    if r == [] {
      assert q + r == q;
    } else {
      var n := |r| - 1;
      ProductConcat(p, q, r[..n]);
      assert (q + r)[..|q| + n] == q + r[..n];
      PlusAssoc(Product(p, q), Product(p, r[..n]), Shift(p, r[n]));
    }
  }

  function Raised(q: seq<nat>, n: nat): (r: seq<nat>)
    ensures |r| == |q|
  {
    seq(|q|, i requires 0 <= i < |q| => q[i] + n)
  }

  lemma {:induction false} ProductShift(p: Poly, q: seq<nat>, n: nat)
    ensures Shift(Product(p, q), n) == Product(p, Raised(q, n))
  {
    if q != [] {
      var m := |q| - 1;
      ProductShift(p, q[..m], n);
      assert Raised(q, n)[..m] == Raised(q[..m], n);
      ShiftPlus(Product(p, q[..m]), Shift(p, q[m]), n);
      ShiftShift(p, q[m], n);
    }
  }

  lemma CongruentPlus(p: Poly, a: Poly, b: Poly, c: Poly)
    requires Congruent(p, a, b)
    ensures Congruent(p, Plus(a, c), Plus(b, c))
  {
    var q :| a == Plus(Product(p, q), b);
    PlusAssoc(Product(p, q), b, c);
  }

  lemma CongruentShift(p: Poly, a: Poly, b: Poly, n: nat)
    requires Congruent(p, a, b)
    ensures Congruent(p, Shift(a, n), Shift(b, n))
  {
    var q :| a == Plus(Product(p, q), b);
    ShiftPlus(Product(p, q), b, n);
    ProductShift(p, q, n);
  }

  lemma CongruentTrans(p: Poly, a: Poly, b: Poly, c: Poly)
    requires Congruent(p, a, b) && Congruent(p, b, c)
    ensures Congruent(p, a, c)
  {
    var q :| a == Plus(Product(p, q), b);
    var r :| b == Plus(Product(p, r), c);
    PlusAssoc(Product(p, q), Product(p, r), c);
    ProductConcat(p, q, r);
  }

  lemma CongruentSelf(p: Poly, a: Poly)
    ensures Congruent(p, a, a)
  {
    assert a == Plus(Product(p, []), a);
  }

  lemma CongruentOne(p: Poly, a: Poly, b: Poly)
    requires a == Plus(b, p)
    ensures Congruent(p, a, b)
  {
    assert [0][..0] == [];
    assert Shift(p, 0) == p;
    assert Product(p, [0]) == Plus(Product(p, []), Shift(p, 0)) == p;
    PlusSym(b, p);
  }

  /** When f multiplies by x modulo p, its n-th iterate multiplies by x^n. */
  lemma {:induction false} IterateCongruent<T(!new)>(p: Poly, poly: T -> Poly, f: T -> T, c: T, n: nat)
    requires forall d: T :: Congruent(p, Shift(poly(d), 1), poly(f(d)))
    ensures Congruent(p, Shift(poly(c), n), poly(Iterate(f, c, n)))
  {
    if n == 0 {
      assert Shift(poly(c), 0) == poly(c);
      CongruentSelf(p, poly(c));
    } else {
      var d := Iterate(f, c, n - 1);
      IterateCongruent(p, poly, f, c, n - 1);
      CongruentShift(p, Shift(poly(c), n - 1), poly(d), 1);
      ShiftShift(poly(c), n - 1, 1);
      CongruentTrans(p, Shift(poly(c), n), Shift(poly(d), 1), poly(f(d)));
    }
  }

  // ---------------------------------------------------------------- division leaves one remainder

  predicate HasDegree(p: Poly, d: nat) {
    d in p && forall e :: e in p ==> e <= d
  }

  predicate Below(p: Poly, d: nat) {
    forall e :: e in p ==> e < d
  }

  function CountOdd(q: seq<nat>, m: nat): bool {
    if q == [] then false else CountOdd(q[..|q| - 1], m) != (q[|q| - 1] == m)
  }

  function Without(q: seq<nat>, m: nat): (r: seq<nat>)
    ensures forall i :: 0 <= i < |r| ==> r[i] != m && r[i] in q
  {
    if q == [] then []
    else Without(q[..|q| - 1], m) + if q[|q| - 1] == m then [] else [q[|q| - 1]]
  }

  predicate AllBelow(q: seq<nat>, m: nat) {
    forall i :: 0 <= i < |q| ==> q[i] < m
  }

  lemma {:induction false} Bounded(q: seq<nat>) returns (m: nat)
    ensures AllBelow(q, m)
  {
    m := 0;
    if q != [] {
      m := Bounded(q[..|q| - 1]);
      m := m + q[|q| - 1] + 1;
    }
  }

  /** The highest possible term of a product is there exactly when the highest possible exponent of the
      factor occurs an odd number of times. */
  lemma {:induction false} TopTerm(p: Poly, d: nat, q: seq<nat>, m: nat)
    requires HasDegree(p, d) && AllBelow(q, m + 1)
    ensures m + d in Product(p, q) <==> CountOdd(q, m)
  {
    if q != [] {
      var n := |q| - 1;
      TopTerm(p, d, q[..n], m);
      InShift(p, q[n], m + d);
    }
  }

  lemma PlusSwap(a: Poly, b: Poly, c: Poly)
    ensures Plus(Plus(a, b), c) == Plus(Plus(a, c), b)
  {
  }

  lemma PlusTwice(a: Poly, b: Poly)
    ensures Plus(Plus(a, b), b) == a && Plus(a, {}) == a
  {
  }

  function Unpaired(p: Poly, q: seq<nat>, m: nat): Poly {
    if CountOdd(q, m) then Shift(p, m) else {}
  }

  /** Equal exponents cancel in pairs. */
  lemma {:induction false} Cancelled(p: Poly, q: seq<nat>, m: nat)
    ensures Product(p, q) == Plus(Product(p, Without(q, m)), Unpaired(p, q, m))
  {
    if q == [] {
      PlusTwice({}, {});
    } else {
      var n := |q| - 1;
      var rest, odd := Without(q[..n], m), Unpaired(p, q[..n], m);
      Cancelled(p, q[..n], m);
      if q[n] == m {
        assert Without(q, m) == rest;
        PlusTwice(Product(p, rest), Shift(p, m));
      } else {
        ProductConcat(p, rest, [q[n]]);
        ProductOne(p, q[n]);
        PlusSwap(Product(p, rest), odd, Shift(p, q[n]));
      }
    }
  }

  lemma ProductOne(p: Poly, n: nat)
    ensures Product(p, [n]) == Shift(p, n)
  {
    var one := [n];
    assert one[..|one| - 1] == [];
    assert Product(p, []) == {};
  }

  /** No multiple of p but zero lies below its degree. */
  lemma {:induction false} SmallProduct(p: Poly, d: nat, q: seq<nat>, m: nat)
    requires HasDegree(p, d) && AllBelow(q, m) && Below(Product(p, q), d)
    ensures Product(p, q) == {}
    decreases m
  {
    if m > 0 {
      TopTerm(p, d, q, m - 1);
      Cancelled(p, q, m - 1);
      SmallProduct(p, d, Without(q, m - 1), m - 1);
    }
  }

  lemma PlusCancels(x: Poly, y: Poly, r: Poly, s: Poly)
    requires Plus(x, r) == Plus(y, s)
    ensures Plus(x, y) == Plus(r, s)
  {
    forall e: nat ensures e in Plus(x, y) <==> e in Plus(r, s) {
      assert e in Plus(x, r) <==> e in Plus(y, s);
    }
  }

  /** Of all polynomials below the degree of p only one is a remainder of a. */
  lemma RemainderUnique(p: Poly, d: nat, a: Poly, r: Poly, s: Poly)
    requires HasDegree(p, d) && Below(r, d) && Below(s, d) && Congruent(p, a, r) && Congruent(p, a, s)
    ensures r == s
  {
    var u :| a == Plus(Product(p, u), r);
    var v :| a == Plus(Product(p, v), s);
    PlusCancels(Product(p, u), Product(p, v), r, s);
    ProductConcat(p, u, v);
    var m := Bounded(u + v);
    SmallProduct(p, d, u + v, m);
    assert Plus(r, s) == {};
  }
}
