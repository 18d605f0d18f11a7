/** Polynomials over GF(2), as the sets of the exponents of their terms. */
module Gf2 {
  type Poly = set<nat>

  function Add(a: Poly, b: Poly): (r: Poly)
    ensures forall i :: i in r <==> ((i in a) != (i in b))
  {
    (a - b) + (b - a)
  }

  /** The product by x^k. */
  function Shift(a: Poly, k: nat): (r: Poly)
    ensures forall i :: i in r <==> i >= k && i - k in a
  {
    var r := set i | i in a :: i + k;
    assert forall i :: i in r <==> i >= k && i - k in a by {
      forall i: nat | i >= k && i - k in a
        ensures i in r
      {
        assert (i - k) + k == i;
      }
    }
    r
  }

  /** The terms of a below x^n. */
  function Low(a: Poly, n: nat): (r: Poly)
    ensures forall i :: i in r <==> i in a && i < n
  {
    set i | i in a && i < n
  }

  /** The product of the terms of a below x^n with b: a sum of shifts of b. */
  function Product(a: Poly, b: Poly, n: nat): Poly {
    if n == 0 then {}
    else Add(Product(a, b, n - 1), Part(a, b, n - 1))
  }

  /** The product of one term of a with b. */
  function Part(a: Poly, b: Poly, i: nat): Poly {
    if i in a then Shift(b, i) else {}
  }

  predicate Below(a: Poly, n: nat) {
    forall i :: i in a ==> i < n
  }

  // ----- Addition and shifts -----

  lemma AddExchange(a: Poly, b: Poly, c: Poly, d: Poly)
    ensures Add(Add(a, b), Add(c, d)) == Add(Add(a, c), Add(b, d))
  {
  }

  lemma AddZero(a: Poly)
    ensures Add(a, {}) == a && Add({}, a) == a && Add(a, a) == {}
  {
  }

  lemma AddAssoc(a: Poly, b: Poly, c: Poly)
    ensures Add(Add(a, b), c) == Add(a, Add(b, c))
  {
  }

  lemma ShiftAdd(a: Poly, b: Poly, k: nat)
    ensures Shift(Add(a, b), k) == Add(Shift(a, k), Shift(b, k))
  {
  }

  lemma ShiftShift(a: Poly, j: nat, k: nat)
    ensures Shift(Shift(a, j), k) == Shift(a, j + k)
  {
    forall i: nat
      ensures i in Shift(Shift(a, j), k) <==> i in Shift(a, j + k)
    {
      assert i >= k ==> (i - k in Shift(a, j) <==> i - k >= j && i - k - j in a);
    }
  }

  // ----- Products -----

  lemma {:induction false} ProductAddRight(a: Poly, b: Poly, c: Poly, n: nat)
    ensures Product(a, Add(b, c), n) == Add(Product(a, b, n), Product(a, c, n))
  {
    hide Add, Shift;
    AddZero({});
    if n > 0 {
      ProductAddRight(a, b, c, n - 1);
      ShiftAdd(b, c, n - 1);
      AddExchange(Product(a, b, n - 1), Product(a, c, n - 1), Part(a, b, n - 1), Part(a, c, n - 1));
    }
  }

  lemma PartAddLeft(a: Poly, c: Poly, b: Poly, i: nat)
    ensures Part(Add(a, c), b, i) == Add(Part(a, b, i), Part(c, b, i))
  {
    AddZero(Shift(b, i));
    AddZero({});
  }

  lemma {:induction false} ProductAddLeft(a: Poly, c: Poly, b: Poly, n: nat)
    ensures Product(Add(a, c), b, n) == Add(Product(a, b, n), Product(c, b, n))
  {
    hide Add, Shift, Part;
    AddZero({});
    if n > 0 {
      ProductAddLeft(a, c, b, n - 1);
      PartAddLeft(a, c, b, n - 1);
      AddExchange(Product(a, b, n - 1), Product(c, b, n - 1), Part(a, b, n - 1), Part(c, b, n - 1));
    }
  }

  lemma {:induction false} ProductZero(a: Poly, n: nat)
    ensures Product(a, {}, n) == {}
  {
    if n > 0 {
      ProductZero(a, n - 1);
      assert Shift({}, n - 1) == {};
    }
  }

  /** Multiplying by a single term is shifting. */
  lemma {:induction false} ProductTerm(a: Poly, k: nat, n: nat)
    ensures Product(a, {k}, n) == Shift(Low(a, n), k)
  {
    if n == 0 {
      assert Low(a, 0) == {};
    } else {
      ProductTerm(a, k, n - 1);
      var part := Part(a, {k}, n - 1);
      assert part == Shift(if n - 1 in a then {n - 1} else {}, k);
      assert Low(a, n) == Add(Low(a, n - 1), if n - 1 in a then {n - 1} else {});
      ShiftAdd(Low(a, n - 1), if n - 1 in a then {n - 1} else {}, k);
    }
  }

  lemma LowNext(a: Poly, n: nat)
    ensures Low(a, n + 1) == Add(Low(a, n), if n in a then {n} else {})
  {
  }

  lemma {:induction false} ProductCommLow(a: Poly, b: Poly, n: nat, m: nat)
    requires Below(b, m)
    ensures Product(a, b, n) == Product(b, Low(a, n), m)
  {
    if n == 0 {
      assert Low(a, 0) == {};
      ProductZero(b, m);
    } else {
      hide Add, Shift, Low;
      ProductCommLow(a, b, n - 1, m);
      LowNext(a, n - 1);
      var term: Poly := if n - 1 in a then {n - 1} else {};
      ProductAddRight(b, Low(a, n - 1), term, m);
      ProductTerm(b, n - 1, m);
      LowAll(b, m);
      ProductZero(b, m);
    }
  }

  lemma LowAll(a: Poly, n: nat)
    requires Below(a, n)
    ensures Low(a, n) == a
  {
  }

  lemma ProductComm(a: Poly, b: Poly, n: nat, m: nat)
    requires Below(a, n) && Below(b, m)
    ensures Product(a, b, n) == Product(b, a, m)
  {
    ProductCommLow(a, b, n, m);
    LowAll(a, n);
  }

  /** Terms above the bound do not matter, nor does a larger bound. */
  lemma {:induction false} ProductBound(a: Poly, b: Poly, n: nat, m: nat)
    requires n <= m
    ensures Product(Low(a, n), b, m) == Product(a, b, n)
    decreases m
  {
    hide Add, Shift;
    if m > n {
      ProductBound(a, b, n, m - 1);
      AddZero(Product(Low(a, n), b, m - 1));
    } else if m > 0 {
      ProductBound(a, b, n - 1, n - 1);
      ProductLow(a, b, n, n - 1);
      ProductLow(a, b, n - 1, n - 1);
    }
  }

  lemma {:induction false} ProductLow(a: Poly, b: Poly, n: nat, m: nat)
    requires m <= n
    ensures Product(Low(a, n), b, m) == Product(a, b, m)
  {
    hide Add, Shift;
    if m > 0 {
      ProductLow(a, b, n, m - 1);
    }
  }

  lemma {:induction false} ProductShift(a: Poly, b: Poly, k: nat, n: nat)
    ensures Product(Shift(a, k), b, n + k) == Shift(Product(a, b, n), k)
  {
    hide Add, Part;
    if n == 0 {
      ProductNone(Shift(a, k), b, k);
      assert Shift({}, k) == {};
    } else {
      hide Shift;
      ProductShift(a, b, k, n - 1);
      ShiftAdd(Product(a, b, n - 1), Part(a, b, n - 1), k);
      PartShift(a, b, k, n - 1);
    }
  }

  lemma PartShift(a: Poly, b: Poly, k: nat, i: nat)
    ensures Part(Shift(a, k), b, i + k) == Shift(Part(a, b, i), k)
  {
    ShiftShift(b, i, k);
    assert Shift({}, k) == {};
  }

  lemma {:induction false} ProductNone(a: Poly, b: Poly, n: nat)
    requires forall i :: i in a ==> i >= n
    ensures Product(a, b, n) == {}
  {
    if n > 0 {
      ProductNone(a, b, n - 1);
    }
  }

  // ----- Division -----

  /** A multiple of a polynomial. */
  ghost predicate Multiple(a: Poly, p: Poly) {
    exists q: Poly, n: nat :: a == Product(q, p, n)
  }

  lemma MultipleZero(p: Poly)
    ensures Multiple({}, p)
  {
    assert Product({}, p, 0) == {};
  }

  lemma MultipleAdd(a: Poly, b: Poly, p: Poly)
    requires Multiple(a, p) && Multiple(b, p)
    ensures Multiple(Add(a, b), p)
  {
    hide Add, Low, Product;
    var q: Poly, n: nat :| a == Product(q, p, n);
    var r: Poly, m: nat :| b == Product(r, p, m);
    var k := if n < m then m else n;
    ProductBound(q, p, n, k);
    ProductBound(r, p, m, k);
    ProductAddLeft(Low(q, n), Low(r, m), p, k);
    assert Add(a, b) == Product(Add(Low(q, n), Low(r, m)), p, k);
  }

  lemma MultipleShift(a: Poly, k: nat, p: Poly)
    requires Multiple(a, p)
    ensures Multiple(Shift(a, k), p)
  {
    hide Shift, Product;
    var q: Poly, n: nat :| a == Product(q, p, n);
    ProductShift(q, p, k, n);
    assert Shift(a, k) == Product(Shift(q, k), p, n + k);
  }

  lemma {:induction false} MultipleProduct(a: Poly, b: Poly, n: nat, p: Poly)
    requires Multiple(b, p)
    ensures Multiple(Product(a, b, n), p)
  {
    hide Multiple, Add, Shift;
    MultipleZero(p);
    if n > 0 {
      MultipleProduct(a, b, n - 1, p);
      MultipleShift(b, n - 1, p);
      MultipleAdd(Product(a, b, n - 1), Part(a, b, n - 1), p);
    }
  }

  lemma {:induction false} ProductBelow(a: Poly, b: Poly, n: nat, d: nat)
    requires Below(b, d + 1)
    ensures Below(Product(a, b, n), n + d)
  {
    if n > 0 {
      ProductBelow(a, b, n - 1, d);
    }
  }

  lemma LeadingTerm(q: Poly, p: Poly, k: nat, d: nat)
    requires d in p && Below(p, d + 1) && k in q
    ensures k + d in Product(q, p, k + 1)
  {
    ProductBelow(q, p, k, d);
    var i: nat := k + d;
    assert i !in Product(q, p, k);
    assert i in Shift(p, k);
  }

  /** Only the zero multiple is below the leading term. */
  lemma {:induction false} SmallMultiple(q: Poly, p: Poly, n: nat, d: nat)
    requires d in p && Below(p, d + 1) && Below(Product(q, p, n), d)
    ensures Product(q, p, n) == {}
  {
    if n > 0 {
      if n - 1 in q {
        LeadingTerm(q, p, n - 1, d);
        assert false;
      } else {
        AddZero(Product(q, p, n - 1));
        SmallMultiple(q, p, n - 1, d);
      }
    }
  }

  /** The remainder of a by p, whose leading term is x^d. */
  ghost predicate IsRemainder(a: Poly, p: Poly, d: nat, r: Poly) {
    Below(r, d) && Multiple(Add(a, r), p)
  }

  lemma RemainderUnique(a: Poly, p: Poly, d: nat, r: Poly, s: Poly)
    requires d in p && Below(p, d + 1) && IsRemainder(a, p, d, r) && IsRemainder(a, p, d, s)
    ensures r == s
  {
    MultipleAdd(Add(a, r), Add(a, s), p);
    assert Add(Add(a, r), Add(a, s)) == Add(r, s);
    var q: Poly, n: nat :| Add(r, s) == Product(q, p, n);
    SmallMultiple(q, p, n, d);
    assert forall i :: i in r <==> i in s by {
      assert forall i :: i !in Add(r, s);
    }
  }
}
