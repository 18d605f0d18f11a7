/** The multiplication of AES by a constant is multiplication of polynomials modulo x^8 + x^4 + x^3 + x + 1. */
module AesPoly {
  import opened Gf2
  import opened AesByte

  // ----- Multiplication by a constant -----

  /** x^8 + x^4 + x^3 + x + 1. */
  const MODULUS: Poly := {0, 1, 3, 4, 8}

  function Mask(i: nat): (m: Byte)
    requires i < 8
    ensures m == 1 || m == 2 || m == 4 || m == 8 || m == 16 || m == 32 || m == 64 || m == 128
  {
    [1, 2, 4, 8, 16, 32, 64, 128][i]
  }

  predicate BitSet(b: Byte, i: nat) {
    i < 8 && b & Mask(i) != 0
  }

  function PolyOf(b: Byte): (r: Poly)
    ensures forall i: nat :: i in r <==> BitSet(b, i)
    ensures Below(r, 8)
  {
    set i: nat | i < 8 && BitSet(b, i)
  }

  lemma XorMask(a: Byte, b: Byte, m: Byte)
    requires m == 1 || m == 2 || m == 4 || m == 8 || m == 16 || m == 32 || m == 64 || m == 128
    ensures Sum(a, b) & m != 0 <==> ((a & m != 0) != (b & m != 0))
  {
  }

  lemma XorAdds(a: Byte, b: Byte)
    ensures PolyOf(Sum(a, b)) == Add(PolyOf(a), PolyOf(b))
  {
    forall i: nat
      ensures BitSet(Sum(a, b), i) <==> (BitSet(a, i) != BitSet(b, i))
    {
      if i < 8 {
        XorMask(a, b, Mask(i));
      }
    }
    hide BitSet, Sum;
  }

  lemma DoublingShifts(x: Byte)
    ensures PolyOf(Xt2(x)) == Add(Shift(PolyOf(x), 1), if x & 128 != 0 then MODULUS else {})
  {
    DoubledBits(x);
    hide Xt2, BitSet;
    var y, top := Xt2(x), x & 128 != 0;
    assert forall i: nat :: i in Shift(PolyOf(x), 1) <==> i > 0 && BitSet(x, i - 1);
    var shifted := Shift(PolyOf(x), 1);
    hide Shift;
    forall i: nat
      ensures BitSet(y, i) <==> i in Add(shifted, if top then MODULUS else {})
    {
      hide PolyOf;
      HighBits(x, y, i);
      assert i == 0 || i == 1 || i == 2 || i == 3 || i == 4 || i == 5 || i == 6 || i == 7 || i >= 8;
    }
  }

  lemma HighBits(x: Byte, y: Byte, i: nat)
    ensures (i >= 8 ==> !BitSet(y, i)) && (i >= 9 ==> !BitSet(x, i - 1))
  {
  }

  lemma DoubledBits(x: Byte)
    ensures var y, top := Xt2(x), x & 128 != 0;
      && BitSet(x, 7) == top
      && BitSet(y, 0) == top && BitSet(y, 1) == (BitSet(x, 0) != top) && BitSet(y, 2) == BitSet(x, 1)
      && BitSet(y, 3) == (BitSet(x, 2) != top) && BitSet(y, 4) == (BitSet(x, 3) != top)
      && BitSet(y, 5) == BitSet(x, 4) && BitSet(y, 6) == BitSet(x, 5) && BitSet(y, 7) == BitSet(x, 6)
  {
  }

  /** p is x^k times the byte, up to a multiple of the modulus. */
  ghost predicate Shifted(x: Byte, k: nat, y: Byte) {
    Multiple(Add(Shift(PolyOf(x), k), PolyOf(y)), MODULUS)
  }

  lemma DoublingStep(x: Byte, k: nat, y: Byte)
    requires Shifted(x, k, y)
    ensures Shifted(x, k + 1, Xt2(y))
  {
    hide Multiple, Add, Shift, Xt2, PolyOf, MODULUS;
    var p, q, fold := PolyOf(x), PolyOf(y), if y & 128 != 0 then MODULUS else {};
    DoublingShifts(y);
    ModulusMultiple();
    MultipleZero(MODULUS);
    MultipleShift(Add(Shift(p, k), q), 1, MODULUS);
    ShiftAdd(Shift(p, k), q, 1);
    ShiftShift(p, k, 1);
    MultipleAdd(Add(Shift(p, k + 1), Shift(q, 1)), fold, MODULUS);
    AddAssoc(Shift(p, k + 1), Shift(q, 1), fold);
  }

  lemma ModulusMultiple()
    ensures Multiple(MODULUS, MODULUS)
  {
    assert Product({0}, MODULUS, 1) == MODULUS;
  }

  lemma TermStep(x: Byte, y: Byte, k: nat, shifted: Byte, sum: Byte)
    requires Shifted(x, k, shifted) && Multiple(Add(Product(PolyOf(y), PolyOf(x), k), PolyOf(sum)), MODULUS)
    ensures Multiple(Add(Product(PolyOf(y), PolyOf(x), k + 1), PolyOf(Sum(sum, if k in PolyOf(y) then shifted else 0))), MODULUS)
  {
    hide Multiple, Add, Shift, PolyOf, MODULUS;
    var product := Product(PolyOf(y), PolyOf(x), k);
    var term: Byte := if k in PolyOf(y) then shifted else 0;
    XorAdds(sum, term);
    if k in PolyOf(y) {
      MultipleAdd(Add(product, PolyOf(sum)), Add(Shift(PolyOf(x), k), PolyOf(shifted)), MODULUS);
      AddExchange(product, PolyOf(sum), Shift(PolyOf(x), k), PolyOf(shifted));
    } else {
      ZeroByte();
      AddZero(product);
      AddZero(PolyOf(sum));
    }
  }

  lemma ZeroByte()
    ensures PolyOf(0) == {}
  {
  }

  /** Multiplying by a constant below 16 is multiplication in GF(2^8). */
  lemma GfmulMultiplies(x: Byte, y: Byte)
    requires y < 16
    ensures IsRemainder(Product(PolyOf(y), PolyOf(x), 8), MODULUS, 8, PolyOf(Gfmul(x, y)))
  {
    LowNibble(y);
    HighTerms(x, y);
    NibbleProduct(x, y);
  }

  lemma NibbleProduct(x: Byte, y: Byte)
    ensures Multiple(Add(Product(PolyOf(y), PolyOf(x), 4), PolyOf(Gfmul(x, y))), MODULUS)
  {
    hide Multiple, Add, Shift, MODULUS, Xt2, Sum, PolyOf, Shifted, BitSet, Product, Gfmul;
    var x1, x2, x3 := Xt2(x), Xt2(Xt2(x)), Xt2(Xt2(Xt2(x)));
    ShiftedSelf(x);
    DoublingStep(x, 0, x);
    DoublingStep(x, 1, x1);
    DoublingStep(x, 2, x2);
    NoTerms(x, y);
    var t0: Byte := Sum(0, if 0 in PolyOf(y) then x else 0);
    TermStep(x, y, 0, x, 0);
    var t1: Byte := Sum(t0, if 1 in PolyOf(y) then x1 else 0);
    TermStep(x, y, 1, x1, t0);
    var t2: Byte := Sum(t1, if 2 in PolyOf(y) then x2 else 0);
    TermStep(x, y, 2, x2, t1);
    TermStep(x, y, 3, x3, t2);
    GfmulTerms(x, y);
  }

  lemma GfmulTerms(x: Byte, y: Byte)
    ensures Gfmul(x, y) == Sum(Sum(Sum(Sum(0, if 0 in PolyOf(y) then x else 0), if 1 in PolyOf(y) then Xt2(x) else 0),
                               if 2 in PolyOf(y) then Xt2(Xt2(x)) else 0), if 3 in PolyOf(y) then Xt2(Xt2(Xt2(x))) else 0)
  {
    hide Xt2, Sum;
    assert 0 in PolyOf(y) <==> y & 1 != 0;
    assert 1 in PolyOf(y) <==> y & 2 != 0;
    assert 2 in PolyOf(y) <==> y & 4 != 0;
    assert 3 in PolyOf(y) <==> y & 8 != 0;
    SumZero(if y & 1 != 0 then x else 0);
  }

  lemma SumZero(a: Byte)
    ensures Sum(0, a) == a
  {
  }

  lemma ShiftedSelf(x: Byte)
    ensures Shifted(x, 0, x)
  {
    MultipleZero(MODULUS);
    assert Shift(PolyOf(x), 0) == PolyOf(x);
    AddZero(PolyOf(x));
  }

  lemma NoTerms(x: Byte, y: Byte)
    ensures Multiple(Add(Product(PolyOf(y), PolyOf(x), 0), PolyOf(0)), MODULUS)
  {
    ZeroByte();
    AddZero({});
    MultipleZero(MODULUS);
  }

  lemma LowNibble(y: Byte)
    requires y < 16
    ensures Below(PolyOf(y), 4)
  {
    assert y & 16 == 0 && y & 32 == 0 && y & 64 == 0 && y & 128 == 0;
    forall i: nat | i in PolyOf(y)
      ensures i < 4
    {
      assert BitSet(y, i);
    }
  }

  lemma HighTerms(x: Byte, y: Byte)
    requires Below(PolyOf(y), 4)
    ensures Product(PolyOf(y), PolyOf(x), 8) == Product(PolyOf(y), PolyOf(x), 4)
  {
    LowAll(PolyOf(y), 4);
    ProductBound(PolyOf(y), PolyOf(x), 4, 8);
  }
}
