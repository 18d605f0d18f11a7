/** The cipher of FIPS 197 on the bytes of a block, and the instructions against it. */
module AesStandard {
  import opened Gf2
  import opened AesByte
  import opened AesColumn
  import opened AesPoly
  import opened AesSbox
  import opened Aes

  /** The byte of row r and column c is at r + 4c (section 3.4). */
  type Bytes = b: seq<Byte> | |b| == 16 witness seq(16, i => 0)

  function At(b: Bytes, r: nat, c: nat): Byte
    requires r < 4 && c < 4
  {
    b[r + 4 * c]
  }

  function ColumnAt(x: State, c: nat): Column
    requires c < 4
  {
    if c == 0 then x.c0 else if c == 1 then x.c1 else if c == 2 then x.c2 else x.c3
  }

  function RowAt(w: Column, r: nat): Byte
    requires r < 4
  {
    if r == 0 then w.s0 else if r == 1 then w.s1 else if r == 2 then w.s2 else w.s3
  }

  function BytesOf(x: State): Bytes {
    seq(16, i requires 0 <= i < 16 => RowAt(ColumnAt(x, i / 4), i % 4))
  }

  // ----- The steps of the standard -----

  function SubBytes(b: Bytes): Bytes {
    seq(16, i requires 0 <= i < 16 => EncSbox(b[i]))
  }

  /** Row r moves left by r places (section 5.1.2). */
  function ShiftRows(b: Bytes): Bytes {
    seq(16, i requires 0 <= i < 16 => At(b, i % 4, (i / 4 + i % 4) % 4))
  }

  /** The coefficient of x^j of the polynomial {03}x^3 + {01}x^2 + {01}x + {02} (section 5.1.3). */
  function Coefficient(j: nat): Byte
    requires j < 4
  {
    if j == 0 then 2 else if j == 3 then 3 else 1
  }

  /** One term of a product modulo x^4 + 1: the powers of x add up to r, modulo 4. */
  function Term(b: Bytes, r: nat, c: nat, k: nat): Byte
    requires r < 4 && c < 4 && k < 4
  {
    Gfmul(At(b, k, c), Coefficient((r + 4 - k) % 4))
  }

  /** Row r of a column times that polynomial, modulo x^4 + 1. */
  function MixedByte(b: Bytes, r: nat, c: nat): Byte
    requires r < 4 && c < 4
  {
    Sum4(Term(b, r, c, 0), Term(b, r, c, 1), Term(b, r, c, 2), Term(b, r, c, 3))
  }

  function MixColumns(b: Bytes): Bytes {
    seq(16, i requires 0 <= i < 16 => MixedByte(b, i % 4, i / 4))
  }

  function AddRoundKey(b: Bytes, key: Bytes): Bytes {
    seq(16, i requires 0 <= i < 16 => Sum(b[i], key[i]))
  }

  /** The rounds of the cipher before the last one (section 5.1). */
  function Rounds(b: Bytes, keys: seq<Bytes>): Bytes {
    if keys == [] then b
    else AddRoundKey(MixColumns(ShiftRows(SubBytes(Rounds(b, keys[..|keys| - 1])))), keys[|keys| - 1])
  }

  function Cipher(b: Bytes, keys: seq<Bytes>): Bytes
    requires |keys| >= 2
  {
    var last := |keys| - 1;
    AddRoundKey(ShiftRows(SubBytes(Rounds(AddRoundKey(b, keys[0]), keys[1..last]))), keys[last])
  }

  // ----- The products of a mixed byte -----

  /** The sum of the products of a column with the coefficients, as polynomials over one bit. */
  function Products(b: Bytes, r: nat, c: nat): Poly
    requires r < 4 && c < 4
  {
    Add(Add(Add(ProductAt(b, r, c, 0), ProductAt(b, r, c, 1)), ProductAt(b, r, c, 2)), ProductAt(b, r, c, 3))
  }

  function ProductAt(b: Bytes, r: nat, c: nat, k: nat): Poly
    requires r < 4 && c < 4 && k < 4
  {
    Product(PolyOf(Coefficient((r + 4 - k) % 4)), PolyOf(At(b, k, c)), 8)
  }

  lemma RemaindersAdd(a: Poly, r: Byte, b: Poly, s: Byte)
    requires IsRemainder(a, MODULUS, 8, PolyOf(r)) && IsRemainder(b, MODULUS, 8, PolyOf(s))
    ensures IsRemainder(Add(a, b), MODULUS, 8, PolyOf(Sum(r, s)))
  {
    hide Multiple, MODULUS, PolyOf, Add;
    XorAdds(r, s);
    MultipleAdd(Add(a, PolyOf(r)), Add(b, PolyOf(s)), MODULUS);
    AddExchange(a, PolyOf(r), b, PolyOf(s));
  }

  lemma TermIs(b: Bytes, r: nat, c: nat, k: nat)
    requires r < 4 && c < 4 && k < 4
    ensures IsRemainder(ProductAt(b, r, c, k), MODULUS, 8, PolyOf(Term(b, r, c, k)))
  {
    hide Gfmul, IsRemainder, Product, PolyOf, MODULUS;
    GfmulMultiplies(At(b, k, c), Coefficient((r + 4 - k) % 4));
  }

  /** A mixed byte is the remainder of that sum modulo x^8 + x^4 + x^3 + x + 1. */
  lemma MixedByteMultiplies(b: Bytes, r: nat, c: nat)
    requires r < 4 && c < 4
    ensures IsRemainder(Products(b, r, c), MODULUS, 8, PolyOf(MixedByte(b, r, c)))
  {
    hide IsRemainder, PolyOf, MODULUS, Sum, Add, Term, ProductAt;
    TermIs(b, r, c, 0);
    TermIs(b, r, c, 1);
    TermIs(b, r, c, 2);
    TermIs(b, r, c, 3);
    var p0, p1, p2, p3 := ProductAt(b, r, c, 0), ProductAt(b, r, c, 1), ProductAt(b, r, c, 2), ProductAt(b, r, c, 3);
    var t0, t1, t2, t3 := Term(b, r, c, 0), Term(b, r, c, 1), Term(b, r, c, 2), Term(b, r, c, 3);
    RemaindersAdd(p0, t0, p1, t1);
    RemaindersAdd(Add(p0, p1), Sum(t0, t1), p2, t2);
    RemaindersAdd(Add(Add(p0, p1), p2), Sum(Sum(t0, t1), t2), p3, t3);
  }

  // ----- The steps of the instructions -----

  lemma Index(r: nat, c: nat)
    requires r < 4 && c < 4
    ensures (r + 4 * c) % 4 == r && (r + 4 * c) / 4 == c && r + 4 * c < 16
  {
  }

  lemma BytesAt(x: State, r: nat, c: nat)
    requires r < 4 && c < 4
    ensures At(BytesOf(x), r, c) == RowAt(ColumnAt(x, c), r)
  {
    Index(r, c);
  }

  lemma SameBytes(a: Bytes, b: Bytes)
    requires forall r: nat, c: nat :: r < 4 && c < 4 ==> At(a, r, c) == At(b, r, c)
    ensures a == b
  {
    forall i | 0 <= i < 16
      ensures a[i] == b[i]
    {
      assert At(a, i % 4, i / 4) == At(b, i % 4, i / 4);
    }
  }

  lemma SubbedAt(x: State, r: nat, c: nat)
    requires r < 4 && c < 4
    ensures RowAt(ColumnAt(SubBytesFwd(x), c), r) == EncSbox(RowAt(ColumnAt(x, c), r))
  {
    hide EncSbox;
  }

  lemma SubBytesIs(x: State)
    ensures BytesOf(SubBytesFwd(x)) == SubBytes(BytesOf(x))
  {
    hide EncSbox, SubBytesFwd, BytesOf;
    forall r: nat, c: nat | r < 4 && c < 4
      ensures At(BytesOf(SubBytesFwd(x)), r, c) == At(SubBytes(BytesOf(x)), r, c)
    {
      BytesAt(SubBytesFwd(x), r, c);
      BytesAt(x, r, c);
      SubbedAt(x, r, c);
    }
    SameBytes(BytesOf(SubBytesFwd(x)), SubBytes(BytesOf(x)));
  }

  lemma ShiftedAt(x: State, r: nat, c: nat)
    requires r < 4 && c < 4
    ensures RowAt(ColumnAt(ShiftRowsFwd(x), c), r) == RowAt(ColumnAt(x, (c + r) % 4), r)
  {
  }

  lemma ShiftRowsAt(b: Bytes, r: nat, c: nat)
    requires r < 4 && c < 4
    ensures At(ShiftRows(b), r, c) == At(b, r, (c + r) % 4)
  {
    Index(r, c);
    ShiftRowsIndex(b, r + 4 * c, r, c);
    hide ShiftRows;
  }

  lemma ShiftRowsIndex(b: Bytes, i: nat, r: nat, c: nat)
    requires i < 16 && r == i % 4 && c == i / 4
    ensures ShiftRows(b)[i] == At(b, r, (c + r) % 4)
  {
    hide At;
  }

  lemma ShiftRowsIs(x: State)
    ensures BytesOf(ShiftRowsFwd(x)) == ShiftRows(BytesOf(x))
  {
    hide ShiftRowsFwd, BytesOf, ShiftRows, At;
    forall r: nat, c: nat | r < 4 && c < 4
      ensures At(BytesOf(ShiftRowsFwd(x)), r, c) == At(ShiftRows(BytesOf(x)), r, c)
    {
      BytesAt(ShiftRowsFwd(x), r, c);
      BytesAt(x, r, (c + r) % 4);
      ShiftedAt(x, r, c);
      ShiftRowsAt(BytesOf(x), r, c);
    }
    SameBytes(BytesOf(ShiftRowsFwd(x)), ShiftRows(BytesOf(x)));
  }

  lemma AddedAt(x: State, key: State, r: nat, c: nat)
    requires r < 4 && c < 4
    ensures RowAt(ColumnAt(Xor(x, key), c), r) == Sum(RowAt(ColumnAt(x, c), r), RowAt(ColumnAt(key, c), r))
  {
    hide Sum;
  }

  lemma AddRoundKeyIs(x: State, key: State)
    ensures BytesOf(Xor(x, key)) == AddRoundKey(BytesOf(x), BytesOf(key))
  {
    hide Sum, Xor, BytesOf;
    forall r: nat, c: nat | r < 4 && c < 4
      ensures At(BytesOf(Xor(x, key)), r, c) == At(AddRoundKey(BytesOf(x), BytesOf(key)), r, c)
    {
      BytesAt(Xor(x, key), r, c);
      BytesAt(x, r, c);
      BytesAt(key, r, c);
      AddedAt(x, key, r, c);
    }
    SameBytes(BytesOf(Xor(x, key)), AddRoundKey(BytesOf(x), BytesOf(key)));
  }

  lemma SmallProducts(x: Byte)
    ensures Gfmul(x, 1) == x && Gfmul(x, 2) == Xt2(x) && Gfmul(x, 3) == Xt3(x)
  {
    hide Xt2;
  }

  lemma MixedAt(w: Column, r: nat)
    requires r < 4
    ensures RowAt(MixColumnFwd(w), r)
         == Sum4(Gfmul(w.s0, Coefficient(r)), Gfmul(w.s1, Coefficient((r + 3) % 4)),
                 Gfmul(w.s2, Coefficient((r + 2) % 4)), Gfmul(w.s3, Coefficient((r + 1) % 4)))
  {
    SmallProducts(w.s0);
    SmallProducts(w.s1);
    SmallProducts(w.s2);
    SmallProducts(w.s3);
    hide Gfmul, Xt2, Xt3, Sum4;
  }

  lemma MixColumnsAt(x: State, r: nat, c: nat)
    requires r < 4 && c < 4
    ensures RowAt(ColumnAt(MixColumnsFwd(x), c), r) == MixedByte(BytesOf(x), r, c)
  {
    hide BytesOf, MixColumnFwd, Gfmul, Sum4, At;
    MixedAt(ColumnAt(x, c), r);
    BytesAt(x, 0, c);
    BytesAt(x, 1, c);
    BytesAt(x, 2, c);
    BytesAt(x, 3, c);
  }

  lemma MixColumnsIs(x: State)
    ensures BytesOf(MixColumnsFwd(x)) == MixColumns(BytesOf(x))
  {
    hide MixedByte, MixColumnsFwd, BytesOf;
    forall r: nat, c: nat | r < 4 && c < 4
      ensures At(BytesOf(MixColumnsFwd(x)), r, c) == At(MixColumns(BytesOf(x)), r, c)
    {
      BytesAt(MixColumnsFwd(x), r, c);
      MixColumnsAt(x, r, c);
      Index(r, c);
    }
    SameBytes(BytesOf(MixColumnsFwd(x)), MixColumns(BytesOf(x)));
  }

  // ----- Rounds and whole encryptions -----

  /** The instructions of a middle round, of the last round and of the first key. */
  lemma RoundIs(state: State, key: State)
    ensures BytesOf(Vaesem(state, key)) == AddRoundKey(MixColumns(ShiftRows(SubBytes(BytesOf(state)))), BytesOf(key))
    ensures BytesOf(Vaesef(state, key)) == AddRoundKey(ShiftRows(SubBytes(BytesOf(state))), BytesOf(key))
    ensures BytesOf(Vaesz(state, key)) == AddRoundKey(BytesOf(state), BytesOf(key))
  {
    hide SubBytesFwd, ShiftRowsFwd, MixColumnsFwd, Xor, SubBytes, ShiftRows, MixColumns, AddRoundKey, BytesOf;
    SubBytesIs(state);
    var subbed := SubBytesFwd(state);
    ShiftRowsIs(subbed);
    var shifted := ShiftRowsFwd(subbed);
    MixColumnsIs(shifted);
    AddRoundKeyIs(MixColumnsFwd(shifted), key);
    AddRoundKeyIs(shifted, key);
    AddRoundKeyIs(state, key);
  }

  function KeyBytes(keys: seq<State>): seq<Bytes> {
    seq(|keys|, i requires 0 <= i < |keys| => BytesOf(keys[i]))
  }

  lemma {:induction false} MiddleRoundsAre(state: State, keys: seq<State>)
    ensures BytesOf(MiddleRounds(state, keys)) == Rounds(BytesOf(state), KeyBytes(keys))
  {
    hide Vaesem, SubBytes, ShiftRows, MixColumns, AddRoundKey, BytesOf;
    if keys != [] {
      var front := keys[..|keys| - 1];
      MiddleRoundsAre(state, front);
      RoundIs(MiddleRounds(state, front), keys[|keys| - 1]);
      assert KeyBytes(keys)[..|keys| - 1] == KeyBytes(front);
    }
  }

  /** The instructions compute the cipher of the standard, for any number of rounds and any round keys. */
  lemma EncryptIsCipher(plain: State, keys: seq<State>)
    requires |keys| >= 2
    ensures BytesOf(Encrypt(plain, keys)) == Cipher(BytesOf(plain), KeyBytes(keys))
  {
    hide Vaesem, Vaesef, Vaesz, SubBytes, ShiftRows, MixColumns, AddRoundKey, BytesOf, Rounds, MiddleRounds;
    var last := |keys| - 1;
    var start := Vaesz(plain, keys[0]);
    RoundIs(plain, keys[0]);
    MiddleRoundsAre(start, keys[1..last]);
    RoundIs(MiddleRounds(start, keys[1..last]), keys[last]);
    assert KeyBytes(keys)[1..last] == KeyBytes(keys[1..last]);
  }
}
