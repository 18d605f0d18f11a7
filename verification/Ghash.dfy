/** The GHASH instructions: multiplication in GF(2^128) on 128-bit element groups. */
module Ghash {
  import opened Gf2

  /** A 128-bit word, least significant bit first. */
  type Word = s: seq<bool> | |s| == 128 witness seq(128, i => false)

  const ZERO: Word := seq(128, i => false)

  function Xor(a: Word, b: Word): Word {
    seq(128, i requires 0 <= i < 128 => a[i] != b[i])
  }

  function Or(a: Word, b: Word): Word {
    seq(128, i requires 0 <= i < 128 => a[i] || b[i])
  }

  /** The word shifted left by one bit. */
  function Doubled(w: Word): Word {
    [false] + w[..127]
  }

  function BitsOf(b: bv8): (r: seq<bool>)
    ensures |r| == 8
  {
    [b & 1 != 0, b & 2 != 0, b & 4 != 0, b & 8 != 0, b & 16 != 0, b & 32 != 0, b & 64 != 0, b & 128 != 0]
  }

  function ByteOf(s: seq<bool>): bv8
    requires |s| == 8
  {
    (if s[0] then 1 else 0) | (if s[1] then 2 else 0) | (if s[2] then 4 else 0) | (if s[3] then 8 else 0)
    | (if s[4] then 16 else 0) | (if s[5] then 32 else 0) | (if s[6] then 64 else 0) | (if s[7] then 128 else 0)
  }

  /** A byte moved to a byte position of a word. */
  function AtByte(b: bv8, i: nat): Word
    requires i < 16
  {
    seq(128, k => 8 * i <= k < 8 * i + 8 && BitsOf(b)[k - 8 * i])
  }

  // ----- Bit reversal in bytes -----

  /** The word with the bits of each byte in reverse order. */
  function Reversed8(w: Word): Word {
    seq(128, k requires 0 <= k < 128 => w[k / 8 * 8 + 7 - k % 8])
  }

  lemma Reversed8At(w: Word, i: nat, j: nat)
    requires i < 16 && j < 8
    ensures Reversed8(w)[8 * i + j] == w[8 * i + 7 - j]
  {
  }

  lemma Reversed8Twice(w: Word)
    ensures Reversed8(Reversed8(w)) == w
  {
  }

  function SwapHalves(b: bv8): bv8 {
    ((b & 0xF0) >> 4) | ((b & 0x0F) << 4)
  }

  function SwapPairs(b: bv8): bv8 {
    ((b & 0xCC) >> 2) | ((b & 0x33) << 2)
  }

  function SwapBits(b: bv8): bv8 {
    ((b & 0xAA) >> 1) | ((b & 0x55) << 1)
  }

  lemma SwapsReverse(b: bv8)
    ensures var r := BitsOf(SwapBits(SwapPairs(SwapHalves(b)))); var s := BitsOf(b);
      && r[0] == s[7] && r[1] == s[6] && r[2] == s[5] && r[3] == s[4]
      && r[4] == s[3] && r[5] == s[2] && r[6] == s[1] && r[7] == s[0]
  {
    var r := SwapBits(SwapPairs(SwapHalves(b)));
    SwapsLow(b);
    SwapsHigh(b);
    hide SwapBits, SwapPairs, SwapHalves, BitsOf;
    BitsAt(b);
    BitsAt(r);
  }

  lemma BitsAt(b: bv8)
    ensures var s := BitsOf(b);
      && s[0] == (b & 1 != 0) && s[1] == (b & 2 != 0) && s[2] == (b & 4 != 0) && s[3] == (b & 8 != 0)
      && s[4] == (b & 16 != 0) && s[5] == (b & 32 != 0) && s[6] == (b & 64 != 0) && s[7] == (b & 128 != 0)
  {
  }

  lemma SwapsLow(b: bv8)
    ensures var r := SwapBits(SwapPairs(SwapHalves(b)));
      && (r & 1 != 0 <==> b & 128 != 0) && (r & 2 != 0 <==> b & 64 != 0)
      && (r & 4 != 0 <==> b & 32 != 0) && (r & 8 != 0 <==> b & 16 != 0)
  {
  }

  lemma SwapsHigh(b: bv8)
    ensures var r := SwapBits(SwapPairs(SwapHalves(b)));
      && (r & 16 != 0 <==> b & 8 != 0) && (r & 32 != 0 <==> b & 4 != 0)
      && (r & 64 != 0 <==> b & 2 != 0) && (r & 128 != 0 <==> b & 1 != 0)
  {
  }

  lemma ByteOfBits(s: seq<bool>)
    requires |s| == 8
    ensures BitsOf(ByteOf(s)) == s
  {
  }

  method Brev8(vs2: Word) returns (result: Word)
    ensures result == Reversed8(vs2)
  {
    hide BitsOf, ByteOf, SwapBits, SwapPairs, SwapHalves;
    result := ZERO;
    for i := 0 to 16
      invariant forall k :: 0 <= k < 8 * i ==> result[k] == Reversed8(vs2)[k]
      invariant forall k :: 8 * i <= k < 128 ==> !result[k]
    {
      var byte := ByteOf(vs2[8 * i..8 * i + 8]);
      ByteOfBits(vs2[8 * i..8 * i + 8]);
      SwapsReverse(byte);
      byte := SwapHalves(byte);
      byte := SwapPairs(byte);
      byte := SwapBits(byte);
      ReversedByte(vs2, i, byte);
      result := Or(result, AtByte(byte, i));
    }
  }

  lemma ReversedByte(w: Word, i: nat, byte: bv8)
    requires i < 16
    requires var r := BitsOf(byte); var s := w[8 * i..8 * i + 8];
      && r[0] == s[7] && r[1] == s[6] && r[2] == s[5] && r[3] == s[4]
      && r[4] == s[3] && r[5] == s[2] && r[6] == s[1] && r[7] == s[0]
    ensures forall k :: 0 <= k < 128 ==> AtByte(byte, i)[k] == (8 * i <= k < 8 * i + 8 && Reversed8(w)[k])
  {
    hide BitsOf, Reversed8;
    forall k | 0 <= k < 128
      ensures AtByte(byte, i)[k] == (8 * i <= k < 8 * i + 8 && Reversed8(w)[k])
    {
      if 8 * i <= k < 8 * i + 8 {
        ReversedBit(w, i, byte, k - 8 * i);
      }
    }
  }

  lemma ReversedBit(w: Word, i: nat, byte: bv8, j: nat)
    requires i < 16 && j < 8
    requires var r := BitsOf(byte); var s := w[8 * i..8 * i + 8];
      && r[0] == s[7] && r[1] == s[6] && r[2] == s[5] && r[3] == s[4]
      && r[4] == s[3] && r[5] == s[2] && r[6] == s[1] && r[7] == s[0]
    ensures BitsOf(byte)[j] == Reversed8(w)[8 * i + j]
  {
    hide BitsOf, Reversed8;
    var s := w[8 * i..8 * i + 8];
    Reversed8At(w, i, j);
    assert s[7 - j] == w[8 * i + 7 - j];
    assert BitsOf(byte)[j] == s[7 - j];
  }

  // ----- Words as polynomials -----

  /** The polynomial whose coefficient of x^i is bit i. */
  function PolyOf(w: Word): (r: Poly)
    ensures Below(r, 128) && forall i: nat :: i < 128 ==> (i in r <==> w[i])
  {
    set i: nat | i < 128 && w[i]
  }

  lemma XorAdds(a: Word, b: Word)
    ensures PolyOf(Xor(a, b)) == Add(PolyOf(a), PolyOf(b))
  {
  }

  /** x^128 + x^7 + x^2 + x + 1. */
  const MODULUS: Poly := {0, 1, 2, 7, 128}

  /** The word 0x87. */
  const REDUCTION: Word := AtByte(0x87, 0)

  lemma ReductionPoly()
    ensures PolyOf(REDUCTION) == {0, 1, 2, 7}
  {
    var b := BitsOf(0x87);
    assert b == [true, true, true, false, false, false, false, true];
    forall i: nat | i < 128
      ensures i in PolyOf(REDUCTION) <==> i in {0, 1, 2, 7}
    {
    }
  }

  function NextPower(h: Word): Word {
    if h[127] then Xor(Doubled(h), REDUCTION) else Doubled(h)
  }

  lemma NextPowerReduces(h: Word)
    ensures PolyOf(NextPower(h)) == Add(Shift(PolyOf(h), 1), if h[127] then MODULUS else {})
  {
    ReductionPoly();
    XorAdds(Doubled(h), REDUCTION);
    forall i: nat
      ensures i in PolyOf(Doubled(h)) <==> i in Shift(PolyOf(h), 1) && i != 128
    {
    }
  }

  lemma ModulusMultiple()
    ensures Multiple(MODULUS, MODULUS)
  {
    assert Product({0}, MODULUS, 1) == MODULUS;
  }

  // ----- The multiplication loop -----

  lemma PowerStep(h0: Poly, h: Word, bit: nat)
    requires Multiple(Add(Shift(h0, bit), PolyOf(h)), MODULUS)
    ensures Multiple(Add(Shift(h0, bit + 1), PolyOf(NextPower(h))), MODULUS)
  {
    hide Multiple, Add, Shift, NextPower, MODULUS;
    var fold: Poly := if h[127] then MODULUS else {};
    var p := PolyOf(h);
    NextPowerReduces(h);
    ModulusMultiple();
    MultipleZero(MODULUS);
    MultipleShift(Add(Shift(h0, bit), p), 1, MODULUS);
    ShiftAdd(Shift(h0, bit), p, 1);
    ShiftShift(h0, bit, 1);
    MultipleAdd(Add(Shift(h0, bit + 1), Shift(p, 1)), fold, MODULUS);
    AddAssoc(Shift(h0, bit + 1), Shift(p, 1), fold);
  }

  lemma SumStep(y: Word, h0: Poly, z: Word, h: Word, bit: nat)
    requires bit < 128
    requires Multiple(Add(Shift(h0, bit), PolyOf(h)), MODULUS)
    requires Multiple(Add(Product(PolyOf(y), h0, bit), PolyOf(z)), MODULUS)
    ensures Multiple(Add(Product(PolyOf(y), h0, bit + 1), PolyOf(if y[bit] then Xor(z, h) else z)), MODULUS)
  {
    hide Multiple, Add, Shift, MODULUS;
    var product := Product(PolyOf(y), h0, bit);
    if y[bit] {
      XorAdds(z, h);
      MultipleAdd(Add(product, PolyOf(z)), Add(Shift(h0, bit), PolyOf(h)), MODULUS);
      AddExchange(product, PolyOf(z), Shift(h0, bit), PolyOf(h));
    } else {
      AddZero(product);
    }
  }

  /** The loop of both instructions. */
  method Multiply(y: Word, h0: Word) returns (z: Word)
    ensures IsRemainder(Product(PolyOf(y), PolyOf(h0), 128), MODULUS, 128, PolyOf(z))
  {
    hide Multiple, Add, Shift, MODULUS, PolyOf, Xor, Product;
    z := ZERO;
    var h := h0;
    LoopStarts(y, h0);
    for bit := 0 to 128
      invariant Multiple(Add(Shift(PolyOf(h0), bit), PolyOf(h)), MODULUS)
      invariant Multiple(Add(Product(PolyOf(y), PolyOf(h0), bit), PolyOf(z)), MODULUS)
    {
      SumStep(y, PolyOf(h0), z, h, bit);
      PowerStep(PolyOf(h0), h, bit);
      if y[bit] {
        z := Xor(z, h);
      }
      var reduce := h[127];
      h := Doubled(h);
      if reduce {
        h := Xor(h, REDUCTION);
      }
    }
  }

  lemma LoopStarts(y: Word, h: Word)
    ensures Multiple(Add(Shift(PolyOf(h), 0), PolyOf(h)), MODULUS)
    ensures Multiple(Add(Product(PolyOf(y), PolyOf(h), 0), PolyOf(ZERO)), MODULUS)
  {
    MultipleZero(MODULUS);
    assert Shift(PolyOf(h), 0) == PolyOf(h);
    assert PolyOf(ZERO) == {};
    AddZero(PolyOf(h));
  }

  // ----- The instructions -----

  /** The polynomial of a block: the leftmost bit of its first byte is the coefficient of x^0. */
  function BlockPoly(block: Word): (r: Poly)
    ensures Below(r, 128)
  {
    PolyOf(Reversed8(block))
  }

  /** r is the product of two blocks in GF(2^128) (NIST SP 800-38D, section 6.3). */
  ghost predicate IsProduct(x: Word, y: Word, r: Word) {
    IsRemainder(Product(BlockPoly(x), BlockPoly(y), 128), MODULUS, 128, BlockPoly(r))
  }

  method Vgmul(vd: Word, vs2: Word) returns (result: Word)
    ensures IsProduct(vd, vs2, result)
  {
    hide IsRemainder, Product, PolyOf, Reversed8;
    var y := Brev8(vd);
    var h := Brev8(vs2);
    var z := Multiply(y, h);
    result := Brev8(z);
    Reversed8Back(z);
  }

  method Vghsh(y: Word, vs2: Word, x: Word) returns (result: Word)
    ensures IsProduct(Xor(y, x), vs2, result)
  {
    hide IsRemainder, Product, PolyOf, Reversed8, Xor;
    var h := Brev8(vs2);
    var s := Brev8(Xor(y, x));
    var z := Multiply(s, h);
    result := Brev8(z);
    Reversed8Back(z);
  }

  lemma Reversed8Back(w: Word)
    ensures BlockPoly(Reversed8(w)) == PolyOf(w)
  {
    Reversed8Twice(w);
  }

  lemma ModulusLeads()
    ensures 128 in MODULUS && Below(MODULUS, 129)
  {
  }

  lemma SamePoly(r: Word, s: Word)
    requires PolyOf(r) == PolyOf(s)
    ensures r == s
  {
    forall i | 0 <= i < 128
      ensures r[i] == s[i]
    {
      assert r[i] <==> i in PolyOf(r);
    }
  }

  /** The product is determined. */
  lemma ProductUnique(x: Word, y: Word, r: Word, s: Word)
    requires IsProduct(x, y, r) && IsProduct(x, y, s)
    ensures r == s
  {
    hide Product, PolyOf, Reversed8, IsRemainder, MODULUS;
    ModulusLeads();
    RemainderUnique(Product(BlockPoly(x), BlockPoly(y), 128), MODULUS, 128, BlockPoly(r), BlockPoly(s));
    SamePoly(Reversed8(r), Reversed8(s));
    Reversed8Twice(r);
    Reversed8Twice(s);
  }

  /** The product does not depend on the order of the operands. */
  lemma ProductCommutes(x: Word, y: Word, r: Word)
    requires IsProduct(x, y, r)
    ensures IsProduct(y, x, r)
  {
    hide Product, PolyOf, Reversed8, IsRemainder;
    ProductComm(BlockPoly(x), BlockPoly(y), 128, 128);
  }

  lemma BlockXor(a: Word, b: Word)
    ensures BlockPoly(Xor(a, b)) == Add(BlockPoly(a), BlockPoly(b))
  {
    assert Reversed8(Xor(a, b)) == Xor(Reversed8(a), Reversed8(b));
    XorAdds(Reversed8(a), Reversed8(b));
  }

  lemma RemainderAdd(a: Poly, r: Poly, b: Poly, s: Poly, p: Poly, d: nat)
    requires IsRemainder(a, p, d, r) && IsRemainder(b, p, d, s)
    ensures IsRemainder(Add(a, b), p, d, Add(r, s))
  {
    hide Multiple;
    MultipleAdd(Add(a, r), Add(b, s), p);
    AddExchange(a, r, b, s);
  }

  /** The product is linear in its first operand, and, as it commutes, in both. */
  lemma ProductLinear(x: Word, y: Word, h: Word, r: Word, s: Word)
    requires IsProduct(x, h, r) && IsProduct(y, h, s)
    ensures IsProduct(Xor(x, y), h, Xor(r, s))
  {
    hide Product, PolyOf, Reversed8, IsRemainder, Xor, Add, MODULUS, BlockPoly;
    BlockXor(x, y);
    BlockXor(r, s);
    ProductAddLeft(BlockPoly(x), BlockPoly(y), BlockPoly(h), 128);
    RemainderAdd(Product(BlockPoly(x), BlockPoly(h), 128), BlockPoly(r),
                 Product(BlockPoly(y), BlockPoly(h), 128), BlockPoly(s), MODULUS, 128);
  }

  // ----- Chained hashing -----

  /** a times the power k of a block. */
  function TimesPower(a: Poly, h: Word, k: nat): Poly {
    if k == 0 then a else Product(BlockPoly(h), TimesPower(a, h, k - 1), 128)
  }

  /** X1 * H^m + ... + Xm * H, before reduction (NIST SP 800-38D, section 6.4). */
  function GhashSum(blocks: seq<Word>, h: Word): Poly {
    if blocks == [] then {}
    else Add(TimesPower(BlockPoly(blocks[0]), h, |blocks|), GhashSum(blocks[1..], h))
  }

  lemma {:induction false} GhashSumLast(blocks: seq<Word>, x: Word, h: Word)
    ensures GhashSum(blocks + [x], h) == Product(BlockPoly(h), Add(GhashSum(blocks, h), BlockPoly(x)), 128)
  {
    hide Add, Product, BlockPoly;
    AddZero(BlockPoly(x));
    if blocks == [] {
      assert ([] + [x])[1..] == [];
      AddZero(TimesPower(BlockPoly(x), h, 1));
      assert TimesPower(BlockPoly(x), h, 1) == Product(BlockPoly(h), TimesPower(BlockPoly(x), h, 0), 128);
    } else {
      var first := TimesPower(BlockPoly(blocks[0]), h, |blocks|);
      var rest := GhashSum(blocks[1..], h);
      assert (blocks + [x])[1..] == blocks[1..] + [x];
      GhashSumLast(blocks[1..], x, h);
      ProductAddRight(BlockPoly(h), first, Add(rest, BlockPoly(x)), 128);
      AddAssoc(first, rest, BlockPoly(x));
    }
  }

  /** A remainder may take the place of a factor. */
  lemma RemainderProduct(a: Poly, r: Poly, h: Word, s: Poly)
    requires IsRemainder(a, MODULUS, 128, r) && IsRemainder(Product(BlockPoly(h), r, 128), MODULUS, 128, s)
    ensures IsRemainder(Product(BlockPoly(h), a, 128), MODULUS, 128, s)
  {
    hide Multiple, Product, BlockPoly, Add, MODULUS;
    var ha, hr := Product(BlockPoly(h), a, 128), Product(BlockPoly(h), r, 128);
    MultipleProduct(BlockPoly(h), Add(a, r), 128, MODULUS);
    ProductAddRight(BlockPoly(h), a, r, 128);
    MultipleAdd(Add(ha, hr), Add(hr, s), MODULUS);
    AddChain(ha, hr, s);
  }

  lemma AddChain(a: Poly, b: Poly, c: Poly)
    ensures Add(Add(a, b), Add(b, c)) == Add(a, c)
  {
  }

  /** One VGHSH adds a block to the hash of the blocks before it. */
  lemma VghshExtends(blocks: seq<Word>, h: Word, y: Word, x: Word, r: Word)
    requires IsRemainder(GhashSum(blocks, h), MODULUS, 128, BlockPoly(y)) && IsProduct(Xor(y, x), h, r)
    ensures IsRemainder(GhashSum(blocks + [x], h), MODULUS, 128, BlockPoly(r))
  {
    hide GhashSum, Product, BlockPoly, Xor, Add, MODULUS, IsRemainder;
    BlockXor(y, x);
    GhashSumLast(blocks, x, h);
    BlockReduced(x);
    RemainderAdd(GhashSum(blocks, h), BlockPoly(y), BlockPoly(x), BlockPoly(x), MODULUS, 128);
    ProductComm(BlockPoly(Xor(y, x)), BlockPoly(h), 128, 128);
    RemainderProduct(Add(GhashSum(blocks, h), BlockPoly(x)), BlockPoly(Xor(y, x)), h, BlockPoly(r));
  }

  lemma BlockReduced(x: Word)
    ensures IsRemainder(BlockPoly(x), MODULUS, 128, BlockPoly(x))
  {
    hide BlockPoly, MODULUS;
    AddZero(BlockPoly(x));
    MultipleZero(MODULUS);
  }

  /** Chaining VGHSH over any number of blocks, from zero, gives GHASH of the blocks. */
  lemma {:induction false} VghshChain(blocks: seq<Word>, h: Word, ys: seq<Word>)
    requires |ys| == |blocks| + 1 && ys[0] == ZERO
    requires forall i :: 0 <= i < |blocks| ==> IsProduct(Xor(ys[i], blocks[i]), h, ys[i + 1])
    ensures IsRemainder(GhashSum(blocks, h), MODULUS, 128, BlockPoly(ys[|blocks|]))
  {
    hide IsProduct, Xor, MODULUS, BlockPoly;
    if blocks == [] {
      ZeroBlock();
      AddZero({});
      MultipleZero(MODULUS);
    } else {
      hide GhashSum, IsRemainder;
      var m := |blocks| - 1;
      VghshChain(blocks[..m], h, ys[..m + 1]);
      VghshExtends(blocks[..m], h, ys[m], blocks[m], ys[m + 1]);
      assert blocks[..m] + [blocks[m]] == blocks;
    }
  }

  lemma ZeroBlock()
    ensures BlockPoly(ZERO) == {}
  {
  }
}
