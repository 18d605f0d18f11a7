/** The arithmetic on bytes of AES, in GF(2^8). */
module AesByte {
  type Byte = bv8

  function Xt2(x: Byte): Byte {
    Sum(Doubled(x), Folded(x))
  }

  function Doubled(x: Byte): Byte {
    x << 1
  }

  function Folded(x: Byte): Byte {
    if x & 0x80 != 0 then 27 else 0
  }

  function Xt3(x: Byte): Byte {
    x ^ Xt2(x)
  }

  function Sum(a: Byte, b: Byte): Byte {
    a ^ b
  }

  function Sum4(a: Byte, b: Byte, c: Byte, d: Byte): Byte {
    Sum(Sum(Sum(a, b), c), d)
  }

  function Gfmul(x: Byte, y: Byte): Byte {
    Sum4(if y & 1 != 0 then x else 0, if y & 2 != 0 then Xt2(x) else 0,
         if y & 4 != 0 then Xt2(Xt2(x)) else 0, if y & 8 != 0 then Xt2(Xt2(Xt2(x))) else 0)
  }

  // ----- Linearity -----

  lemma SumComm(a: Byte, b: Byte)
    ensures Sum(a, b) == Sum(b, a)
  {
  }

  lemma SumAssoc(a: Byte, b: Byte, c: Byte)
    ensures Sum(Sum(a, b), c) == Sum(a, Sum(b, c))
  {
  }

  lemma SumExchange(a: Byte, b: Byte, c: Byte, d: Byte)
    ensures Sum(Sum(a, b), Sum(c, d)) == Sum(Sum(a, c), Sum(b, d))
  {
    hide Sum;
    SumComm(b, c);
    SumAssoc(a, b, Sum(c, d));
    SumAssoc(b, c, d);
    SumAssoc(c, b, d);
    SumAssoc(a, c, Sum(b, d));
  }

  lemma Sum4Exchange(a: Byte, b: Byte, c: Byte, d: Byte, e: Byte, f: Byte, g: Byte, h: Byte)
    ensures Sum4(Sum(a, b), Sum(c, d), Sum(e, f), Sum(g, h)) == Sum(Sum4(a, c, e, g), Sum4(b, d, f, h))
  {
    hide Sum;
    SumExchange(a, b, c, d);
    SumExchange(Sum(a, c), Sum(b, d), e, f);
    SumExchange(Sum(Sum(a, c), e), Sum(Sum(b, d), f), g, h);
  }

  lemma Xt2Linear(a: Byte, b: Byte)
    ensures Xt2(Sum(a, b)) == Sum(Xt2(a), Xt2(b))
  {
    DoubledLinear(a, b);
    FoldedLinear(a, b);
    hide Sum, Doubled, Folded;
    SumExchange(Doubled(a), Doubled(b), Folded(a), Folded(b));
  }

  lemma DoubledLinear(a: Byte, b: Byte)
    ensures Doubled(Sum(a, b)) == Sum(Doubled(a), Doubled(b))
  {
  }

  lemma FoldedLinear(a: Byte, b: Byte)
    ensures Folded(Sum(a, b)) == Sum(Folded(a), Folded(b))
  {
  }

  lemma ZeroSum()
    ensures Sum(0, 0) == 0
  {
  }

  lemma GfmulLinear(a: Byte, b: Byte, y: Byte)
    ensures Gfmul(Sum(a, b), y) == Sum(Gfmul(a, y), Gfmul(b, y))
  {
    hide Sum, Xt2, Sum4;
    var a1, b1 := Xt2(a), Xt2(b);
    var a2, b2 := Xt2(a1), Xt2(b1);
    var a3, b3 := Xt2(a2), Xt2(b2);
    Xt2Linear(a, b);
    Xt2Linear(a1, b1);
    Xt2Linear(a2, b2);
    ZeroSum();
    Sum4Exchange(if y & 1 != 0 then a else 0, if y & 1 != 0 then b else 0,
                 if y & 2 != 0 then a1 else 0, if y & 2 != 0 then b1 else 0,
                 if y & 4 != 0 then a2 else 0, if y & 4 != 0 then b2 else 0,
                 if y & 8 != 0 then a3 else 0, if y & 8 != 0 then b3 else 0);
  }

  lemma GfmulSum4(a: Byte, b: Byte, c: Byte, d: Byte, y: Byte)
    ensures Gfmul(Sum4(a, b, c, d), y) == Sum4(Gfmul(a, y), Gfmul(b, y), Gfmul(c, y), Gfmul(d, y))
  {
    hide Gfmul, Sum;
    GfmulLinear(Sum(Sum(a, b), c), d, y);
    GfmulLinear(Sum(a, b), c, y);
    GfmulLinear(a, b, y);
  }

  // ----- Coefficients -----

  /** The products that occur, by the doublings of a byte. */
  lemma Products(x: Byte)
    ensures var d1 := Xt2(x); var d2 := Xt2(d1); var d3 := Xt2(d2);
      && Gfmul(x, 14) == Sum(Sum(d1, d2), d3) && Gfmul(x, 13) == Sum(Sum(x, d2), d3)
      && Gfmul(x, 11) == Sum(Sum(x, d1), d3) && Gfmul(x, 9) == Sum(x, d3)
  {
    hide Xt2;
  }

  lemma TripledProducts(x: Byte, y: Byte)
    ensures Gfmul(Xt3(x), y) == Sum(Gfmul(x, y), Gfmul(Xt2(x), y))
  {
    hide Xt2, Gfmul;
    assert Xt3(x) == Sum(x, Xt2(x));
    GfmulLinear(x, Xt2(x), y);
  }

  /** What cancels when those products are added. */
  lemma CancelOwn(s: Byte, d1: Byte, d2: Byte, d3: Byte, d4: Byte)
    ensures Sum4(Sum(Sum(d2, d3), d4), Sum(Sum(s, d1), d3), Sum(Sum(s, d2), d3), Sum(Sum(s, d3), Sum(d1, d4))) == s
  {
  }

  lemma CancelNext(s: Byte, d1: Byte, d2: Byte, d3: Byte, d4: Byte)
    ensures Sum4(Sum(Sum(Sum(d1, d2), d3), Sum(Sum(d2, d3), d4)), Sum(Sum(d1, d2), d4), Sum(Sum(s, d2), d3), Sum(s, d3)) == 0
  {
  }

  lemma CancelOpposite(s: Byte, d1: Byte, d2: Byte, d3: Byte, d4: Byte)
    ensures Sum4(Sum(Sum(d1, d2), d3), Sum(Sum(Sum(s, d1), d3), Sum(Sum(d1, d2), d4)), Sum(Sum(d1, d3), d4), Sum(s, d3)) == 0
  {
  }

  lemma CancelLast(s: Byte, d1: Byte, d2: Byte, d3: Byte, d4: Byte)
    ensures Sum4(Sum(Sum(d1, d2), d3), Sum(Sum(s, d1), d3), Sum(Sum(Sum(s, d2), d3), Sum(Sum(d1, d3), d4)), Sum(d1, d4)) == 0
  {
  }

  /** The products of the two matrices: the coefficients of one byte in one byte. */
  lemma CoefficientOwn(s: Byte)
    ensures Sum4(Gfmul(Xt2(s), 14), Gfmul(s, 11), Gfmul(s, 13), Gfmul(Xt3(s), 9)) == s
  {
    hide *;
    Products(s);
    Products(Xt2(s));
    TripledProducts(s, 9);
    CancelOwn(s, Xt2(s), Xt2(Xt2(s)), Xt2(Xt2(Xt2(s))), Xt2(Xt2(Xt2(Xt2(s)))));
  }

  lemma CoefficientNext(s: Byte)
    ensures Sum4(Gfmul(Xt3(s), 14), Gfmul(Xt2(s), 11), Gfmul(s, 13), Gfmul(s, 9)) == 0
  {
    hide *;
    Products(s);
    Products(Xt2(s));
    TripledProducts(s, 14);
    CancelNext(s, Xt2(s), Xt2(Xt2(s)), Xt2(Xt2(Xt2(s))), Xt2(Xt2(Xt2(Xt2(s)))));
  }

  lemma CoefficientOpposite(s: Byte)
    ensures Sum4(Gfmul(s, 14), Gfmul(Xt3(s), 11), Gfmul(Xt2(s), 13), Gfmul(s, 9)) == 0
  {
    hide *;
    Products(s);
    Products(Xt2(s));
    TripledProducts(s, 11);
    CancelOpposite(s, Xt2(s), Xt2(Xt2(s)), Xt2(Xt2(Xt2(s))), Xt2(Xt2(Xt2(Xt2(s)))));
  }

  lemma CoefficientLast(s: Byte)
    ensures Sum4(Gfmul(s, 14), Gfmul(s, 11), Gfmul(Xt3(s), 13), Gfmul(Xt2(s), 9)) == 0
  {
    hide *;
    Products(s);
    Products(Xt2(s));
    TripledProducts(s, 13);
    CancelLast(s, Xt2(s), Xt2(Xt2(s)), Xt2(Xt2(Xt2(s))), Xt2(Xt2(Xt2(Xt2(s)))));
  }

  lemma Regroup(a0: Byte, a1: Byte, a2: Byte, a3: Byte, b0: Byte, b1: Byte, b2: Byte, b3: Byte,
                c0: Byte, c1: Byte, c2: Byte, c3: Byte, d0: Byte, d1: Byte, d2: Byte, d3: Byte)
    ensures Sum4(Sum4(a0, a1, a2, a3), Sum4(b0, b1, b2, b3), Sum4(c0, c1, c2, c3), Sum4(d0, d1, d2, d3))
         == Sum4(Sum4(a0, b0, c0, d0), Sum4(a1, b1, c1, d1), Sum4(a2, b2, c2, d2), Sum4(a3, b3, c3, d3))
  {
    hide Sum;
    Sum4Exchange(Sum(Sum(a0, a1), a2), a3, Sum(Sum(b0, b1), b2), b3, Sum(Sum(c0, c1), c2), c3, Sum(Sum(d0, d1), d2), d3);
    Sum4Exchange(Sum(a0, a1), a2, Sum(b0, b1), b2, Sum(c0, c1), c2, Sum(d0, d1), d2);
    Sum4Exchange(a0, a1, b0, b1, c0, c1, d0, d1);
  }

  lemma OnlyFirst(s: Byte)
    ensures Sum4(s, 0, 0, 0) == s
  {
  }

  lemma SumTurned(a: Byte, b: Byte, c: Byte, d: Byte)
    ensures Sum4(a, b, c, d) == Sum4(d, a, b, c)
  {
    hide Sum;
    SumComm(Sum(Sum(a, b), c), d);
    SumAssoc(d, Sum(a, b), c);
    SumAssoc(d, a, b);
  }

  lemma SumBack(a: Byte, k: Byte)
    ensures Sum(Sum(a, k), k) == a
  {
  }
}
