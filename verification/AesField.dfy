/** The product of two bytes of AES in GF(2^8), and the encryption table as inversion and an affine map (FIPS 197, section 5.1.1). */
module AesField {
  import opened Gf2
  import opened AesByte
  import opened AesPoly
  import opened AesSbox

  /** The product of two bytes: the doublings of one at the bits of the other. */
  function Times(x: Byte, y: Byte): Byte {
    Sum(Gfmul(x, y & 15), Gfmul(Xt2(Xt2(Xt2(Xt2(x)))), y >> 4))
  }

  /** It is the product of the two polynomials modulo x^8 + x^4 + x^3 + x + 1. */
  lemma TimesMultiplies(x: Byte, y: Byte)
    ensures IsRemainder(Product(PolyOf(y), PolyOf(x), 8), MODULUS, 8, PolyOf(Times(x, y)))
  {
    hide Multiple, Add, Shift, MODULUS, Xt2, Sum, PolyOf, Shifted, BitSet, Product, Gfmul, Times;
    var x1, x2, x3 := Xt2(x), Xt2(Xt2(x)), Xt2(Xt2(Xt2(x)));
    var x4 := Xt2(x3);
    var x5, x6, x7 := Xt2(x4), Xt2(Xt2(x4)), Xt2(Xt2(Xt2(x4)));
    ShiftedSelf(x);
    DoublingStep(x, 0, x);
    DoublingStep(x, 1, x1);
    DoublingStep(x, 2, x2);
    DoublingStep(x, 3, x3);
    DoublingStep(x, 4, x4);
    DoublingStep(x, 5, x5);
    DoublingStep(x, 6, x6);
    NibbleProduct(x, y);
    var t4 := Gfmul(x, y);
    var t5: Byte := Sum(t4, if 4 in PolyOf(y) then x4 else 0);
    TermStep(x, y, 4, x4, t4);
    var t6: Byte := Sum(t5, if 5 in PolyOf(y) then x5 else 0);
    TermStep(x, y, 5, x5, t5);
    var t7: Byte := Sum(t6, if 6 in PolyOf(y) then x6 else 0);
    TermStep(x, y, 6, x6, t6);
    TermStep(x, y, 7, x7, t7);
    TimesTerms(x, y);
  }

  lemma TimesTerms(x: Byte, y: Byte)
    ensures var x4 := Xt2(Xt2(Xt2(Xt2(x))));
      Times(x, y) == Sum(Sum(Sum(Sum(Gfmul(x, y), if 4 in PolyOf(y) then x4 else 0), if 5 in PolyOf(y) then Xt2(x4) else 0),
                             if 6 in PolyOf(y) then Xt2(Xt2(x4)) else 0), if 7 in PolyOf(y) then Xt2(Xt2(Xt2(x4))) else 0)
  {
    var x4 := Xt2(Xt2(Xt2(Xt2(x))));
    LowBits(x, y);
    HighBits(y);
    hide Xt2, Sum;
    assert 4 in PolyOf(y) <==> y & 16 != 0;
    assert 5 in PolyOf(y) <==> y & 32 != 0;
    assert 6 in PolyOf(y) <==> y & 64 != 0;
    assert 7 in PolyOf(y) <==> y & 128 != 0;
    hide PolyOf, BitSet, Gfmul, Times;
    var g := Gfmul(x, y);
    HighSum(g, x4, y);
    assert Times(x, y) == Sum(g, Gfmul(x4, y >> 4)) by { TimesIs(x, y); }
  }

  lemma TimesIs(x: Byte, y: Byte)
    ensures Times(x, y) == Sum(Gfmul(x, y & 15), Gfmul(Xt2(Xt2(Xt2(Xt2(x)))), y >> 4))
  {
    hide Xt2, Gfmul, Sum;
  }

  lemma LowBits(x: Byte, y: Byte)
    ensures Gfmul(x, y & 15) == Gfmul(x, y)
  {
    hide Xt2, Sum4;
    assert (y & 15) & 1 == y & 1 && (y & 15) & 2 == y & 2 && (y & 15) & 4 == y & 4 && (y & 15) & 8 == y & 8;
  }

  lemma HighBits(y: Byte)
    ensures ((y >> 4) & 1 != 0) == (y & 16 != 0) && ((y >> 4) & 2 != 0) == (y & 32 != 0)
    ensures ((y >> 4) & 4 != 0) == (y & 64 != 0) && ((y >> 4) & 8 != 0) == (y & 128 != 0)
  {
  }

  lemma HighSum(g: Byte, z: Byte, y: Byte)
    ensures Sum(g, Gfmul(z, y >> 4))
         == Sum(Sum(Sum(Sum(g, if y & 16 != 0 then z else 0), if y & 32 != 0 then Xt2(z) else 0),
                    if y & 64 != 0 then Xt2(Xt2(z)) else 0), if y & 128 != 0 then Xt2(Xt2(Xt2(z))) else 0)
  {
    HighBits(y);
    hide Xt2, Sum;
    var a: Byte := if y & 16 != 0 then z else 0;
    var b: Byte := if y & 32 != 0 then Xt2(z) else 0;
    var c: Byte := if y & 64 != 0 then Xt2(Xt2(z)) else 0;
    var d: Byte := if y & 128 != 0 then Xt2(Xt2(Xt2(z))) else 0;
    assert Gfmul(z, y >> 4) == Sum(Sum(Sum(a, b), c), d);
    SumAssoc(g, Sum(Sum(a, b), c), d);
    SumAssoc(g, Sum(a, b), c);
    SumAssoc(g, a, b);
  }

  /** The byte whose affine image is a byte. */
  function Unaffine(b: Byte): Byte {
    Turn(b, 1) ^ Turn(b, 3) ^ Turn(b, 6) ^ 5
  }

  function Turn(b: Byte, n: Byte): Byte
    requires 0 < n < 8
  {
    (b << n) | (b >> (8 - n))
  }

  function Inverse(x: Byte): Byte {
    Unaffine(EncSbox(x))
  }

  lemma InverseIs(x: Byte)
    ensures x != 0 ==> Times(x, Inverse(x)) == 1
    ensures x == 0 ==> Inverse(x) == 0
  {
  }

  predicate Odd5(a: bool, b: bool, c: bool, d: bool, e: bool) {
    (a != b) != ((c != d) != e)
  }

  /** Bit i of the affine image (FIPS 197, equation 5.1); the constant is 01100011. */
  predicate AffineBit(image: Byte, b: Byte, i: nat)
    requires i < 8
  {
    BitSet(image, i) <==>
      (Odd5(BitSet(b, i), BitSet(b, (i + 4) % 8), BitSet(b, (i + 5) % 8), BitSet(b, (i + 6) % 8), BitSet(b, (i + 7) % 8))
       != (i in {0, 1, 5, 6}))
  }

  lemma AffineMask0(b: Byte, image: Byte)
    requires b == ((image << 1) | (image >> 7)) ^ ((image << 3) | (image >> 5)) ^ ((image << 6) | (image >> 2)) ^ 5
    ensures (image & 1 != 0) == !(((b & 1 != 0) != (b & 16 != 0)) != (((b & 32 != 0) != (b & 64 != 0)) != (b & 128 != 0)))
  {
  }

  lemma AffineMask1(b: Byte, image: Byte)
    requires b == ((image << 1) | (image >> 7)) ^ ((image << 3) | (image >> 5)) ^ ((image << 6) | (image >> 2)) ^ 5
    ensures (image & 2 != 0) == !(((b & 2 != 0) != (b & 32 != 0)) != (((b & 64 != 0) != (b & 128 != 0)) != (b & 1 != 0)))
  {
  }

  lemma AffineMask2(b: Byte, image: Byte)
    requires b == ((image << 1) | (image >> 7)) ^ ((image << 3) | (image >> 5)) ^ ((image << 6) | (image >> 2)) ^ 5
    ensures (image & 4 != 0) == (((b & 4 != 0) != (b & 64 != 0)) != (((b & 128 != 0) != (b & 1 != 0)) != (b & 2 != 0)))
  {
  }

  lemma AffineMask3(b: Byte, image: Byte)
    requires b == ((image << 1) | (image >> 7)) ^ ((image << 3) | (image >> 5)) ^ ((image << 6) | (image >> 2)) ^ 5
    ensures (image & 8 != 0) == (((b & 8 != 0) != (b & 128 != 0)) != (((b & 1 != 0) != (b & 2 != 0)) != (b & 4 != 0)))
  {
  }

  lemma AffineMask4(b: Byte, image: Byte)
    requires b == ((image << 1) | (image >> 7)) ^ ((image << 3) | (image >> 5)) ^ ((image << 6) | (image >> 2)) ^ 5
    ensures (image & 16 != 0) == (((b & 16 != 0) != (b & 1 != 0)) != (((b & 2 != 0) != (b & 4 != 0)) != (b & 8 != 0)))
  {
  }

  lemma AffineMask5(b: Byte, image: Byte)
    requires b == ((image << 1) | (image >> 7)) ^ ((image << 3) | (image >> 5)) ^ ((image << 6) | (image >> 2)) ^ 5
    ensures (image & 32 != 0) == !(((b & 32 != 0) != (b & 2 != 0)) != (((b & 4 != 0) != (b & 8 != 0)) != (b & 16 != 0)))
  {
  }

  lemma AffineMask6(b: Byte, image: Byte)
    requires b == ((image << 1) | (image >> 7)) ^ ((image << 3) | (image >> 5)) ^ ((image << 6) | (image >> 2)) ^ 5
    ensures (image & 64 != 0) == !(((b & 64 != 0) != (b & 4 != 0)) != (((b & 8 != 0) != (b & 16 != 0)) != (b & 32 != 0)))
  {
  }

  lemma AffineMask7(b: Byte, image: Byte)
    requires b == ((image << 1) | (image >> 7)) ^ ((image << 3) | (image >> 5)) ^ ((image << 6) | (image >> 2)) ^ 5
    ensures (image & 128 != 0) == (((b & 128 != 0) != (b & 8 != 0)) != (((b & 16 != 0) != (b & 32 != 0)) != (b & 64 != 0)))
  {
  }

  lemma BitMasks(b: Byte)
    ensures BitSet(b, 0) == (b & 1 != 0) && BitSet(b, 1) == (b & 2 != 0) && BitSet(b, 2) == (b & 4 != 0) && BitSet(b, 3) == (b & 8 != 0)
    ensures BitSet(b, 4) == (b & 16 != 0) && BitSet(b, 5) == (b & 32 != 0) && BitSet(b, 6) == (b & 64 != 0) && BitSet(b, 7) == (b & 128 != 0)
  {
  }

  lemma UnaffineIs(image: Byte)
    ensures Unaffine(image)
         == ((image << 1) | (image >> 7)) ^ ((image << 3) | (image >> 5)) ^ ((image << 6) | (image >> 2)) ^ 5
  {
  }

  lemma AffineBits(image: Byte, i: nat)
    requires i < 8
    ensures AffineBit(image, Unaffine(image), i)
  {
    var b := Unaffine(image);
    UnaffineIs(image);
    BitMasks(image);
    BitMasks(b);
    hide BitSet, Unaffine;
    AffineMask0(b, image);
    AffineMask1(b, image);
    AffineMask2(b, image);
    AffineMask3(b, image);
    AffineMask4(b, image);
    AffineMask5(b, image);
    AffineMask6(b, image);
    AffineMask7(b, image);
    assert i == 0 || i == 1 || i == 2 || i == 3 || i == 4 || i == 5 || i == 6 || i == 7;
  }

  /** The encryption table: the inverse in GF(2^8), with zero for zero, and then the affine map. */
  lemma SboxIsAffineInverse(x: Byte)
    ensures if x == 0 then Inverse(x) == 0 else IsRemainder(Product(PolyOf(Inverse(x)), PolyOf(x), 8), MODULUS, 8, {0})
    ensures forall i: nat :: i < 8 ==> AffineBit(EncSbox(x), Inverse(x), i)
  {
    InverseIs(x);
    TimesMultiplies(x, Inverse(x));
    OneIs();
    assert Inverse(x) == Unaffine(EncSbox(x));
    hide Inverse, Unaffine, EncSbox, AffineBit, PolyOf, MODULUS, Multiple, Product;
    forall i: nat | i < 8
      ensures AffineBit(EncSbox(x), Inverse(x), i)
    {
      AffineBits(EncSbox(x), i);
    }
  }

  lemma OneIs()
    ensures PolyOf(1) == {0}
  {
    BitMasks(1);
    forall i: nat
      ensures i in PolyOf(1) <==> i == 0
    {
      assert i == 0 || i == 1 || i == 2 || i == 3 || i == 4 || i == 5 || i == 6 || i == 7 || i >= 8;
    }
  }
}
