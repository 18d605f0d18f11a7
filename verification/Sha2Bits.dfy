/** What the operations of SHA-2 do to the bits of their words and to the numbers they stand for (FIPS 180-4, section 4.1). */
module Sha2Bits {
  import opened Sha2

  predicate Odd(a: bool, b: bool, c: bool) {
    (a != b) != c
  }

  predicate Most(a: bool, b: bool, c: bool) {
    (a && b) || (a && c) || (b && c)
  }

  function One(a: bool): nat {
    if a then 1 else 0
  }

  lemma DoubledUnits(a: nat, b: nat)
    ensures (2 * a) * b == 2 * (a * b)
  {
  }

  // ----- Words of 32 bits -----

  /** Bit i of a word; bit 0 is the least one. */
  predicate Bit32(x: bv32, i: bv32)
    requires i < 32
  {
    (x >> i) & 1 == 1
  }

  function Xor32(x: bv32, y: bv32): bv32 {
    x ^ y
  }

  function And32(x: bv32, y: bv32): bv32 {
    x & y
  }

  function Not32(x: bv32): bv32 {
    !x
  }

  lemma XoredBit32(x: bv32, y: bv32, i: bv32)
    requires i < 32
    ensures Bit32(x ^ y, i) <==> (Bit32(x, i) != Bit32(y, i))
  {
  }

  lemma XorBit32(x: bv32, y: bv32, i: bv32)
    requires i < 32
    ensures Bit32(Xor32(x, y), i) <==> (Bit32(x, i) != Bit32(y, i))
  {
    hide Bit32;
    XoredBit32(x, y, i);
  }

  lemma AndedBit32(x: bv32, y: bv32, i: bv32)
    requires i < 32
    ensures Bit32(x & y, i) <==> Bit32(x, i) && Bit32(y, i)
  {
  }

  lemma AndBit32(x: bv32, y: bv32, i: bv32)
    requires i < 32
    ensures Bit32(And32(x, y), i) <==> Bit32(x, i) && Bit32(y, i)
  {
    hide Bit32;
    AndedBit32(x, y, i);
  }

  lemma NotBit32(x: bv32, i: bv32)
    requires i < 32
    ensures Bit32(Not32(x), i) <==> !Bit32(x, i)
  {
    hide Bit32;
    InvertedBit32(x, i);
  }

  lemma InvertedBit32(x: bv32, i: bv32)
    requires i < 32
    ensures Bit32(!x, i) <==> !Bit32(x, i)
  {
  }

  lemma XorBits32(x: bv32, y: bv32, z: bv32, i: bv32)
    requires i < 32
    ensures Bit32(Xor32(Xor32(x, y), z), i) <==> Odd(Bit32(x, i), Bit32(y, i), Bit32(z, i))
  {
    hide Bit32, Xor32;
    XorBit32(x, y, i);
    XorBit32(Xor32(x, y), z, i);
  }

  lemma ThreeXors32(a: bv32, b: bv32, c: bv32)
    ensures Xor32(Xor32(a, b), c) == a ^ b ^ c
  {
  }

  lemma ChooseParts32(x: bv32, y: bv32, z: bv32)
    ensures Sha256().ch(x, y, z) == Xor32(And32(x, y), And32(Not32(x), z))
  {
  }

  lemma MajorityParts32(x: bv32, y: bv32, z: bv32)
    ensures Sha256().maj(x, y, z) == Xor32(Xor32(And32(x, y), And32(x, z)), And32(y, z))
  {
    hide Xor32;
    ThreeXors32(x & y, x & z, y & z);
  }

  lemma Sum0Parts32(x: bv32)
    ensures Sha256().sum0(x) == Xor32(Xor32(Rotr32(x, 2), Rotr32(x, 13)), Rotr32(x, 22))
  {
    hide Rotr32, Shr32, Xor32;
    ThreeXors32(Rotr32(x, 2), Rotr32(x, 13), Rotr32(x, 22));
  }

  lemma Sum1Parts32(x: bv32)
    ensures Sha256().sum1(x) == Xor32(Xor32(Rotr32(x, 6), Rotr32(x, 11)), Rotr32(x, 25))
  {
    hide Rotr32, Shr32, Xor32;
    ThreeXors32(Rotr32(x, 6), Rotr32(x, 11), Rotr32(x, 25));
  }

  lemma Sig0Parts32(x: bv32)
    ensures Sha256().sig0(x) == Xor32(Xor32(Rotr32(x, 7), Rotr32(x, 18)), Shr32(x, 3))
  {
    hide Rotr32, Shr32, Xor32;
    ThreeXors32(Rotr32(x, 7), Rotr32(x, 18), Shr32(x, 3));
  }

  lemma Sig1Parts32(x: bv32)
    ensures Sha256().sig1(x) == Xor32(Xor32(Rotr32(x, 17), Rotr32(x, 19)), Shr32(x, 10))
  {
    hide Rotr32, Shr32, Xor32;
    ThreeXors32(Rotr32(x, 17), Rotr32(x, 19), Shr32(x, 10));
  }

  lemma Rotated32By2(x: bv32, i: bv32)
    requires i < 32
    ensures Bit32(Rotr32(x, 2), i) <==> Bit32(x, (i + 2) % 32)
  {
  }

  lemma Rotated32By6(x: bv32, i: bv32)
    requires i < 32
    ensures Bit32(Rotr32(x, 6), i) <==> Bit32(x, (i + 6) % 32)
  {
  }

  lemma Rotated32By7(x: bv32, i: bv32)
    requires i < 32
    ensures Bit32(Rotr32(x, 7), i) <==> Bit32(x, (i + 7) % 32)
  {
  }

  lemma Rotated32By11(x: bv32, i: bv32)
    requires i < 32
    ensures Bit32(Rotr32(x, 11), i) <==> Bit32(x, (i + 11) % 32)
  {
  }

  lemma Rotated32By13(x: bv32, i: bv32)
    requires i < 32
    ensures Bit32(Rotr32(x, 13), i) <==> Bit32(x, (i + 13) % 32)
  {
  }

  lemma Rotated32By17(x: bv32, i: bv32)
    requires i < 32
    ensures Bit32(Rotr32(x, 17), i) <==> Bit32(x, (i + 17) % 32)
  {
  }

  lemma Rotated32By18(x: bv32, i: bv32)
    requires i < 32
    ensures Bit32(Rotr32(x, 18), i) <==> Bit32(x, (i + 18) % 32)
  {
  }

  lemma Rotated32By19(x: bv32, i: bv32)
    requires i < 32
    ensures Bit32(Rotr32(x, 19), i) <==> Bit32(x, (i + 19) % 32)
  {
  }

  lemma Rotated32By22(x: bv32, i: bv32)
    requires i < 32
    ensures Bit32(Rotr32(x, 22), i) <==> Bit32(x, (i + 22) % 32)
  {
  }

  lemma Rotated32By25(x: bv32, i: bv32)
    requires i < 32
    ensures Bit32(Rotr32(x, 25), i) <==> Bit32(x, (i + 25) % 32)
  {
  }

  lemma Shifted32By3(x: bv32, i: bv32)
    requires i < 32
    ensures Bit32(Shr32(x, 3), i) <==> i < 29 && Bit32(x, i + 3)
  {
  }

  lemma Shifted32By10(x: bv32, i: bv32)
    requires i < 32
    ensures Bit32(Shr32(x, 10), i) <==> i < 22 && Bit32(x, i + 10)
  {
  }

  lemma Sum0Bits32(x: bv32, i: bv32)
    requires i < 32
    ensures Bit32(Sha256().sum0(x), i) <==> Odd(Bit32(x, (i + 2) % 32), Bit32(x, (i + 13) % 32), Bit32(x, (i + 22) % 32))
  {
    hide Bit32, Rotr32, Shr32, Xor32, Sha256;
    Rotated32By2(x, i);
    Rotated32By13(x, i);
    Rotated32By22(x, i);
    Sum0Parts32(x);
    XorBits32(Rotr32(x, 2), Rotr32(x, 13), Rotr32(x, 22), i);
  }

  lemma Sum1Bits32(x: bv32, i: bv32)
    requires i < 32
    ensures Bit32(Sha256().sum1(x), i) <==> Odd(Bit32(x, (i + 6) % 32), Bit32(x, (i + 11) % 32), Bit32(x, (i + 25) % 32))
  {
    hide Bit32, Rotr32, Shr32, Xor32, Sha256;
    Rotated32By6(x, i);
    Rotated32By11(x, i);
    Rotated32By25(x, i);
    Sum1Parts32(x);
    XorBits32(Rotr32(x, 6), Rotr32(x, 11), Rotr32(x, 25), i);
  }

  lemma Sig0Bits32(x: bv32, i: bv32)
    requires i < 32
    ensures Bit32(Sha256().sig0(x), i) <==> Odd(Bit32(x, (i + 7) % 32), Bit32(x, (i + 18) % 32), i < 29 && Bit32(x, i + 3))
  {
    hide Bit32, Rotr32, Shr32, Xor32, Sha256;
    Rotated32By7(x, i);
    Rotated32By18(x, i);
    Shifted32By3(x, i);
    Sig0Parts32(x);
    XorBits32(Rotr32(x, 7), Rotr32(x, 18), Shr32(x, 3), i);
  }

  lemma Sig1Bits32(x: bv32, i: bv32)
    requires i < 32
    ensures Bit32(Sha256().sig1(x), i) <==> Odd(Bit32(x, (i + 17) % 32), Bit32(x, (i + 19) % 32), i < 22 && Bit32(x, i + 10))
  {
    hide Bit32, Rotr32, Shr32, Xor32, Sha256;
    Rotated32By17(x, i);
    Rotated32By19(x, i);
    Shifted32By10(x, i);
    Sig1Parts32(x);
    XorBits32(Rotr32(x, 17), Rotr32(x, 19), Shr32(x, 10), i);
  }

  lemma ChooseBits32(x: bv32, y: bv32, z: bv32, i: bv32)
    requires i < 32
    ensures Bit32(Sha256().ch(x, y, z), i) <==> if Bit32(x, i) then Bit32(y, i) else Bit32(z, i)
  {
    hide Bit32, Xor32, And32, Not32, Sha256;
    ChooseParts32(x, y, z);
    NotBit32(x, i);
    AndBit32(x, y, i);
    AndBit32(Not32(x), z, i);
    XorBit32(And32(x, y), And32(Not32(x), z), i);
  }

  lemma MajorityBits32(x: bv32, y: bv32, z: bv32, i: bv32)
    requires i < 32
    ensures Bit32(Sha256().maj(x, y, z), i) <==> Most(Bit32(x, i), Bit32(y, i), Bit32(z, i))
  {
    hide Bit32, Xor32, And32, Not32, Sha256;
    MajorityParts32(x, y, z);
    AndBit32(x, y, i);
    AndBit32(x, z, i);
    AndBit32(y, z, i);
    XorBits32(And32(x, y), And32(x, z), And32(y, z), i);
  }

  // ----- Addition of words of 32 bits -----

  /** The carries into the bits of a sum. */
  function Carries32(x: bv32, y: bv32): bv32 {
    Xor32(Xor32(x, y), Add32(x, y))
  }

  /** The carry into a bit of a sum, or out of its last bit. */
  predicate Carry32(x: bv32, y: bv32, i: bv32)
    requires i <= 32
  {
    if i == 32 then Most(Bit32(x, 31), Bit32(y, 31), Bit32(Carries32(x, y), 31)) else Bit32(Carries32(x, y), i)
  }

  lemma CarriesWord32(x: bv32, y: bv32)
    ensures Carries32(x, y) == x ^ y ^ (x + y)
  {
    hide Xor32;
    ThreeXors32(x, y, x + y);
  }

  lemma NextCarry32(x: bv32, y: bv32, i: bv32)
    requires i < 31
    ensures Bit32(x ^ y ^ (x + y), i + 1) <==> Most(Bit32(x, i), Bit32(y, i), Bit32(x ^ y ^ (x + y), i))
  {
  }

  lemma FirstCarry32(x: bv32, y: bv32)
    ensures !Bit32(x ^ y ^ (x + y), 0)
  {
  }

  lemma CarryNext32(x: bv32, y: bv32, i: bv32)
    requires i < 32
    ensures Carry32(x, y, i + 1) <==> Most(Bit32(x, i), Bit32(y, i), Carry32(x, y, i))
  {
    hide Bit32, Carries32;
    CarriesWord32(x, y);
    if i < 31 {
      NextCarry32(x, y, i);
    }
  }

  lemma NoCarry32(x: bv32, y: bv32)
    ensures !Carry32(x, y, 0)
  {
    hide Bit32, Carries32;
    CarriesWord32(x, y);
    FirstCarry32(x, y);
  }

  lemma SumBit32(x: bv32, y: bv32, i: bv32)
    requires i < 32
    ensures Bit32(Add32(x, y), i) <==> Odd(Bit32(x, i), Bit32(y, i), Carry32(x, y, i))
  {
    hide Bit32, Xor32, Add32;
    XorBits32(x, y, Add32(x, y), i);
  }

  /** The number that the bits from one on stand for, in units of that bit. */
  function From32(x: bv32, i: bv32): nat
    requires i <= 32
    decreases 32 - i
  {
    if i == 32 then 0 else One(Bit32(x, i)) + 2 * From32(x, i + 1)
  }

  /** The number that a word stands for. */
  function Value32(x: bv32): nat {
    From32(x, 0)
  }

  /** How many units there are above a bit. */
  function Above32(i: bv32): nat
    requires i <= 32
    decreases 32 - i
  {
    if i == 32 then 1 else 2 * Above32(i + 1)
  }

  lemma {:induction false} AddFrom32(x: bv32, y: bv32, i: bv32)
    requires i <= 32
    ensures From32(x, i) + From32(y, i) + One(Carry32(x, y, i)) == From32(Add32(x, y), i) + Above32(i) * One(Carry32(x, y, 32))
    decreases 32 - i
  {
    hide Bit32, Carry32, Add32;
    if i < 32 {
      AddFrom32(x, y, i + 1);
      SumBit32(x, y, i);
      CarryNext32(x, y, i);
      DoubledUnits(Above32(i + 1), One(Carry32(x, y, 32)));
    }
  }

  lemma {:induction false} FromBounded32(x: bv32, i: bv32)
    requires i <= 32
    ensures From32(x, i) < Above32(i)
    decreases 32 - i
  {
    hide Bit32;
    if i < 32 {
      FromBounded32(x, i + 1);
    }
  }

  lemma Above32All()
    ensures Above32(0) == 0x1_0000_0000
  {
    AboveEight32(24);
    AboveEight32(16);
    AboveEight32(8);
    AboveEight32(0);
  }

  lemma AboveEight32(i: bv32)
    requires i <= 24
    ensures Above32(i) == 256 * Above32(i + 8)
  {
    assert Above32(i + 4) == 2 * Above32(i + 5) == 4 * Above32(i + 6) == 8 * Above32(i + 7) == 16 * Above32(i + 8);
    assert Above32(i) == 2 * Above32(i + 1) == 4 * Above32(i + 2) == 8 * Above32(i + 3) == 16 * Above32(i + 4);
  }

  /** Addition is that of the numbers, modulo 2^32. */
  lemma AddValue32(x: bv32, y: bv32)
    ensures Value32(Sha256().add(x, y)) == (Value32(x) + Value32(y)) % 0x1_0000_0000
  {
    hide From32, Above32, Carry32, Add32, Bit32;
    assert Sha256().add(x, y) == Add32(x, y);
    assert Above32(0) * One(Carry32(x, y, 32)) == if Carry32(x, y, 32) then Above32(0) else 0;
    AddFrom32(x, y, 0);
    NoCarry32(x, y);
    Above32All();
    FromBounded32(Add32(x, y), 0);
  }

  /** A word is known by its number. */
  lemma ValueKnown32(x: bv32, y: bv32)
    requires Value32(x) == Value32(y)
    ensures x == y
  {
    hide Bit32;
    SameFrom32(x, y, 0);
    SameBits32(x, y);
  }

  lemma {:induction false} SameFrom32(x: bv32, y: bv32, i: bv32)
    requires i <= 32 && From32(x, i) == From32(y, i)
    ensures forall k: bv32 :: i <= k < 32 ==> (Bit32(x, k) <==> Bit32(y, k))
    decreases 32 - i
  {
    hide Bit32;
    if i < 32 {
      SameFrom32(x, y, i + 1);
    }
  }

  lemma SameBits32(x: bv32, y: bv32)
    requires forall k: bv32 :: k < 32 ==> (Bit32(x, k) <==> Bit32(y, k))
    ensures x == y
  {
    var d := Xor32(x, y);
    XorZero32(x, y);
    hide Bit32, Xor32;
    forall k: bv32 | k < 32
      ensures !Bit32(d, k)
    {
      XorBit32(x, y, k);
    }
    NoBits32(d);
  }

  lemma XorZero32(x: bv32, y: bv32)
    ensures Xor32(x, y) == 0 ==> x == y
  {
  }

  lemma NoBits32(d: bv32)
    requires forall k: bv32 :: k < 32 ==> !Bit32(d, k)
    ensures d == 0
  {
    NoBits32At0(d);
    NoBits32At16(d);
  }

  lemma NoBits32At0(d: bv32)
    requires forall k: bv32 :: k < 32 ==> !Bit32(d, k)
    ensures d & 0xFFFF == 0
  {
    assert !Bit32(d, 0) && !Bit32(d, 1) && !Bit32(d, 2) && !Bit32(d, 3);
    assert !Bit32(d, 4) && !Bit32(d, 5) && !Bit32(d, 6) && !Bit32(d, 7);
    assert !Bit32(d, 8) && !Bit32(d, 9) && !Bit32(d, 10) && !Bit32(d, 11);
    assert !Bit32(d, 12) && !Bit32(d, 13) && !Bit32(d, 14) && !Bit32(d, 15);
  }

  lemma NoBits32At16(d: bv32)
    requires forall k: bv32 :: k < 32 ==> !Bit32(d, k)
    ensures d & 0xFFFF0000 == 0
  {
    assert !Bit32(d, 16) && !Bit32(d, 17) && !Bit32(d, 18) && !Bit32(d, 19);
    assert !Bit32(d, 20) && !Bit32(d, 21) && !Bit32(d, 22) && !Bit32(d, 23);
    assert !Bit32(d, 24) && !Bit32(d, 25) && !Bit32(d, 26) && !Bit32(d, 27);
    assert !Bit32(d, 28) && !Bit32(d, 29) && !Bit32(d, 30) && !Bit32(d, 31);
  }

  // ----- Words of 64 bits -----

  /** Bit i of a word; bit 0 is the least one. */
  predicate Bit64(x: bv64, i: bv64)
    requires i < 64
  {
    (x >> i) & 1 == 1
  }

  function Xor64(x: bv64, y: bv64): bv64 {
    x ^ y
  }

  function And64(x: bv64, y: bv64): bv64 {
    x & y
  }

  function Not64(x: bv64): bv64 {
    !x
  }

  lemma XoredBit64(x: bv64, y: bv64, i: bv64)
    requires i < 64
    ensures Bit64(x ^ y, i) <==> (Bit64(x, i) != Bit64(y, i))
  {
  }

  lemma XorBit64(x: bv64, y: bv64, i: bv64)
    requires i < 64
    ensures Bit64(Xor64(x, y), i) <==> (Bit64(x, i) != Bit64(y, i))
  {
    hide Bit64;
    XoredBit64(x, y, i);
  }

  lemma AndedBit64(x: bv64, y: bv64, i: bv64)
    requires i < 64
    ensures Bit64(x & y, i) <==> Bit64(x, i) && Bit64(y, i)
  {
  }

  lemma AndBit64(x: bv64, y: bv64, i: bv64)
    requires i < 64
    ensures Bit64(And64(x, y), i) <==> Bit64(x, i) && Bit64(y, i)
  {
    hide Bit64;
    AndedBit64(x, y, i);
  }

  lemma NotBit64(x: bv64, i: bv64)
    requires i < 64
    ensures Bit64(Not64(x), i) <==> !Bit64(x, i)
  {
    hide Bit64;
    InvertedBit64(x, i);
  }

  lemma InvertedBit64(x: bv64, i: bv64)
    requires i < 64
    ensures Bit64(!x, i) <==> !Bit64(x, i)
  {
  }

  lemma XorBits64(x: bv64, y: bv64, z: bv64, i: bv64)
    requires i < 64
    ensures Bit64(Xor64(Xor64(x, y), z), i) <==> Odd(Bit64(x, i), Bit64(y, i), Bit64(z, i))
  {
    hide Bit64, Xor64;
    XorBit64(x, y, i);
    XorBit64(Xor64(x, y), z, i);
  }

  lemma ThreeXors64(a: bv64, b: bv64, c: bv64)
    ensures Xor64(Xor64(a, b), c) == a ^ b ^ c
  {
  }

  lemma ChooseParts64(x: bv64, y: bv64, z: bv64)
    ensures Sha512().ch(x, y, z) == Xor64(And64(x, y), And64(Not64(x), z))
  {
  }

  lemma MajorityParts64(x: bv64, y: bv64, z: bv64)
    ensures Sha512().maj(x, y, z) == Xor64(Xor64(And64(x, y), And64(x, z)), And64(y, z))
  {
    hide Xor64;
    ThreeXors64(x & y, x & z, y & z);
  }

  lemma Sum0Parts64(x: bv64)
    ensures Sha512().sum0(x) == Xor64(Xor64(Rotr64(x, 28), Rotr64(x, 34)), Rotr64(x, 39))
  {
    hide Rotr64, Shr64, Xor64;
    ThreeXors64(Rotr64(x, 28), Rotr64(x, 34), Rotr64(x, 39));
  }

  lemma Sum1Parts64(x: bv64)
    ensures Sha512().sum1(x) == Xor64(Xor64(Rotr64(x, 14), Rotr64(x, 18)), Rotr64(x, 41))
  {
    hide Rotr64, Shr64, Xor64;
    ThreeXors64(Rotr64(x, 14), Rotr64(x, 18), Rotr64(x, 41));
  }

  lemma Sig0Parts64(x: bv64)
    ensures Sha512().sig0(x) == Xor64(Xor64(Rotr64(x, 1), Rotr64(x, 8)), Shr64(x, 7))
  {
    hide Rotr64, Shr64, Xor64;
    ThreeXors64(Rotr64(x, 1), Rotr64(x, 8), Shr64(x, 7));
  }

  lemma Sig1Parts64(x: bv64)
    ensures Sha512().sig1(x) == Xor64(Xor64(Rotr64(x, 19), Rotr64(x, 61)), Shr64(x, 6))
  {
    hide Rotr64, Shr64, Xor64;
    ThreeXors64(Rotr64(x, 19), Rotr64(x, 61), Shr64(x, 6));
  }

  lemma Rotated64By1(x: bv64, i: bv64)
    requires i < 64
    ensures Bit64(Rotr64(x, 1), i) <==> Bit64(x, (i + 1) % 64)
  {
  }

  lemma Rotated64By8(x: bv64, i: bv64)
    requires i < 64
    ensures Bit64(Rotr64(x, 8), i) <==> Bit64(x, (i + 8) % 64)
  {
  }

  lemma Rotated64By14(x: bv64, i: bv64)
    requires i < 64
    ensures Bit64(Rotr64(x, 14), i) <==> Bit64(x, (i + 14) % 64)
  {
  }

  lemma Rotated64By18(x: bv64, i: bv64)
    requires i < 64
    ensures Bit64(Rotr64(x, 18), i) <==> Bit64(x, (i + 18) % 64)
  {
  }

  lemma Rotated64By19(x: bv64, i: bv64)
    requires i < 64
    ensures Bit64(Rotr64(x, 19), i) <==> Bit64(x, (i + 19) % 64)
  {
  }

  lemma Rotated64By28(x: bv64, i: bv64)
    requires i < 64
    ensures Bit64(Rotr64(x, 28), i) <==> Bit64(x, (i + 28) % 64)
  {
  }

  lemma Rotated64By34(x: bv64, i: bv64)
    requires i < 64
    ensures Bit64(Rotr64(x, 34), i) <==> Bit64(x, (i + 34) % 64)
  {
  }

  lemma Rotated64By39(x: bv64, i: bv64)
    requires i < 64
    ensures Bit64(Rotr64(x, 39), i) <==> Bit64(x, (i + 39) % 64)
  {
  }

  lemma Rotated64By41(x: bv64, i: bv64)
    requires i < 64
    ensures Bit64(Rotr64(x, 41), i) <==> Bit64(x, (i + 41) % 64)
  {
  }

  lemma Rotated64By61(x: bv64, i: bv64)
    requires i < 64
    ensures Bit64(Rotr64(x, 61), i) <==> Bit64(x, (i + 61) % 64)
  {
  }

  lemma Shifted64By7(x: bv64, i: bv64)
    requires i < 64
    ensures Bit64(Shr64(x, 7), i) <==> i < 57 && Bit64(x, i + 7)
  {
  }

  lemma Shifted64By6(x: bv64, i: bv64)
    requires i < 64
    ensures Bit64(Shr64(x, 6), i) <==> i < 58 && Bit64(x, i + 6)
  {
  }

  lemma Sum0Bits64(x: bv64, i: bv64)
    requires i < 64
    ensures Bit64(Sha512().sum0(x), i) <==> Odd(Bit64(x, (i + 28) % 64), Bit64(x, (i + 34) % 64), Bit64(x, (i + 39) % 64))
  {
    hide Bit64, Rotr64, Shr64, Xor64, Sha512;
    Rotated64By28(x, i);
    Rotated64By34(x, i);
    Rotated64By39(x, i);
    Sum0Parts64(x);
    XorBits64(Rotr64(x, 28), Rotr64(x, 34), Rotr64(x, 39), i);
  }

  lemma Sum1Bits64(x: bv64, i: bv64)
    requires i < 64
    ensures Bit64(Sha512().sum1(x), i) <==> Odd(Bit64(x, (i + 14) % 64), Bit64(x, (i + 18) % 64), Bit64(x, (i + 41) % 64))
  {
    hide Bit64, Rotr64, Shr64, Xor64, Sha512;
    Rotated64By14(x, i);
    Rotated64By18(x, i);
    Rotated64By41(x, i);
    Sum1Parts64(x);
    XorBits64(Rotr64(x, 14), Rotr64(x, 18), Rotr64(x, 41), i);
  }

  lemma Sig0Bits64(x: bv64, i: bv64)
    requires i < 64
    ensures Bit64(Sha512().sig0(x), i) <==> Odd(Bit64(x, (i + 1) % 64), Bit64(x, (i + 8) % 64), i < 57 && Bit64(x, i + 7))
  {
    hide Bit64, Rotr64, Shr64, Xor64, Sha512;
    Rotated64By1(x, i);
    Rotated64By8(x, i);
    Shifted64By7(x, i);
    Sig0Parts64(x);
    XorBits64(Rotr64(x, 1), Rotr64(x, 8), Shr64(x, 7), i);
  }

  lemma Sig1Bits64(x: bv64, i: bv64)
    requires i < 64
    ensures Bit64(Sha512().sig1(x), i) <==> Odd(Bit64(x, (i + 19) % 64), Bit64(x, (i + 61) % 64), i < 58 && Bit64(x, i + 6))
  {
    hide Bit64, Rotr64, Shr64, Xor64, Sha512;
    Rotated64By19(x, i);
    Rotated64By61(x, i);
    Shifted64By6(x, i);
    Sig1Parts64(x);
    XorBits64(Rotr64(x, 19), Rotr64(x, 61), Shr64(x, 6), i);
  }

  lemma ChooseBits64(x: bv64, y: bv64, z: bv64, i: bv64)
    requires i < 64
    ensures Bit64(Sha512().ch(x, y, z), i) <==> if Bit64(x, i) then Bit64(y, i) else Bit64(z, i)
  {
    hide Bit64, Xor64, And64, Not64, Sha512;
    ChooseParts64(x, y, z);
    NotBit64(x, i);
    AndBit64(x, y, i);
    AndBit64(Not64(x), z, i);
    XorBit64(And64(x, y), And64(Not64(x), z), i);
  }

  lemma MajorityBits64(x: bv64, y: bv64, z: bv64, i: bv64)
    requires i < 64
    ensures Bit64(Sha512().maj(x, y, z), i) <==> Most(Bit64(x, i), Bit64(y, i), Bit64(z, i))
  {
    hide Bit64, Xor64, And64, Not64, Sha512;
    MajorityParts64(x, y, z);
    AndBit64(x, y, i);
    AndBit64(x, z, i);
    AndBit64(y, z, i);
    XorBits64(And64(x, y), And64(x, z), And64(y, z), i);
  }

  // ----- Addition of words of 64 bits -----

  /** The carries into the bits of a sum. */
  function Carries64(x: bv64, y: bv64): bv64 {
    Xor64(Xor64(x, y), Add64(x, y))
  }

  /** The carry into a bit of a sum, or out of its last bit. */
  predicate Carry64(x: bv64, y: bv64, i: bv64)
    requires i <= 64
  {
    if i == 64 then Most(Bit64(x, 63), Bit64(y, 63), Bit64(Carries64(x, y), 63)) else Bit64(Carries64(x, y), i)
  }

  lemma CarriesWord64(x: bv64, y: bv64)
    ensures Carries64(x, y) == x ^ y ^ (x + y)
  {
    hide Xor64;
    ThreeXors64(x, y, x + y);
  }

  lemma NextCarry64(x: bv64, y: bv64, i: bv64)
    requires i < 63
    ensures Bit64(x ^ y ^ (x + y), i + 1) <==> Most(Bit64(x, i), Bit64(y, i), Bit64(x ^ y ^ (x + y), i))
  {
  }

  lemma FirstCarry64(x: bv64, y: bv64)
    ensures !Bit64(x ^ y ^ (x + y), 0)
  {
  }

  lemma CarryNext64(x: bv64, y: bv64, i: bv64)
    requires i < 64
    ensures Carry64(x, y, i + 1) <==> Most(Bit64(x, i), Bit64(y, i), Carry64(x, y, i))
  {
    hide Bit64, Carries64;
    CarriesWord64(x, y);
    if i < 63 {
      NextCarry64(x, y, i);
    }
  }

  lemma NoCarry64(x: bv64, y: bv64)
    ensures !Carry64(x, y, 0)
  {
    hide Bit64, Carries64;
    CarriesWord64(x, y);
    FirstCarry64(x, y);
  }

  lemma SumBit64(x: bv64, y: bv64, i: bv64)
    requires i < 64
    ensures Bit64(Add64(x, y), i) <==> Odd(Bit64(x, i), Bit64(y, i), Carry64(x, y, i))
  {
    hide Bit64, Xor64, Add64;
    XorBits64(x, y, Add64(x, y), i);
  }

  /** The number that the bits from one on stand for, in units of that bit. */
  function From64(x: bv64, i: bv64): nat
    requires i <= 64
    decreases 64 - i
  {
    if i == 64 then 0 else One(Bit64(x, i)) + 2 * From64(x, i + 1)
  }

  /** The number that a word stands for. */
  function Value64(x: bv64): nat {
    From64(x, 0)
  }

  /** How many units there are above a bit. */
  function Above64(i: bv64): nat
    requires i <= 64
    decreases 64 - i
  {
    if i == 64 then 1 else 2 * Above64(i + 1)
  }

  lemma {:induction false} AddFrom64(x: bv64, y: bv64, i: bv64)
    requires i <= 64
    ensures From64(x, i) + From64(y, i) + One(Carry64(x, y, i)) == From64(Add64(x, y), i) + Above64(i) * One(Carry64(x, y, 64))
    decreases 64 - i
  {
    hide Bit64, Carry64, Add64;
    if i < 64 {
      AddFrom64(x, y, i + 1);
      SumBit64(x, y, i);
      CarryNext64(x, y, i);
      DoubledUnits(Above64(i + 1), One(Carry64(x, y, 64)));
    }
  }

  lemma {:induction false} FromBounded64(x: bv64, i: bv64)
    requires i <= 64
    ensures From64(x, i) < Above64(i)
    decreases 64 - i
  {
    hide Bit64;
    if i < 64 {
      FromBounded64(x, i + 1);
    }
  }

  lemma Above64All()
    ensures Above64(0) == 0x1_0000_0000_0000_0000
  {
    AboveEight64(56);
    AboveEight64(48);
    AboveEight64(40);
    AboveEight64(32);
    AboveEight64(24);
    AboveEight64(16);
    AboveEight64(8);
    AboveEight64(0);
  }

  lemma AboveEight64(i: bv64)
    requires i <= 56
    ensures Above64(i) == 256 * Above64(i + 8)
  {
    assert Above64(i + 4) == 2 * Above64(i + 5) == 4 * Above64(i + 6) == 8 * Above64(i + 7) == 16 * Above64(i + 8);
    assert Above64(i) == 2 * Above64(i + 1) == 4 * Above64(i + 2) == 8 * Above64(i + 3) == 16 * Above64(i + 4);
  }

  /** Addition is that of the numbers, modulo 2^64. */
  lemma AddValue64(x: bv64, y: bv64)
    ensures Value64(Sha512().add(x, y)) == (Value64(x) + Value64(y)) % 0x1_0000_0000_0000_0000
  {
    hide From64, Above64, Carry64, Add64, Bit64;
    assert Sha512().add(x, y) == Add64(x, y);
    assert Above64(0) * One(Carry64(x, y, 64)) == if Carry64(x, y, 64) then Above64(0) else 0;
    AddFrom64(x, y, 0);
    NoCarry64(x, y);
    Above64All();
    FromBounded64(Add64(x, y), 0);
  }

  /** A word is known by its number. */
  lemma ValueKnown64(x: bv64, y: bv64)
    requires Value64(x) == Value64(y)
    ensures x == y
  {
    hide Bit64;
    SameFrom64(x, y, 0);
    SameBits64(x, y);
  }

  lemma {:induction false} SameFrom64(x: bv64, y: bv64, i: bv64)
    requires i <= 64 && From64(x, i) == From64(y, i)
    ensures forall k: bv64 :: i <= k < 64 ==> (Bit64(x, k) <==> Bit64(y, k))
    decreases 64 - i
  {
    hide Bit64;
    if i < 64 {
      SameFrom64(x, y, i + 1);
    }
  }

  lemma SameBits64(x: bv64, y: bv64)
    requires forall k: bv64 :: k < 64 ==> (Bit64(x, k) <==> Bit64(y, k))
    ensures x == y
  {
    var d := Xor64(x, y);
    XorZero64(x, y);
    hide Bit64, Xor64;
    forall k: bv64 | k < 64
      ensures !Bit64(d, k)
    {
      XorBit64(x, y, k);
    }
    NoBits64(d);
  }

  lemma XorZero64(x: bv64, y: bv64)
    ensures Xor64(x, y) == 0 ==> x == y
  {
  }

  lemma NoBits64(d: bv64)
    requires forall k: bv64 :: k < 64 ==> !Bit64(d, k)
    ensures d == 0
  {
    NoBits64At0(d);
    NoBits64At16(d);
    NoBits64At32(d);
    NoBits64At48(d);
  }

  lemma NoBits64At0(d: bv64)
    requires forall k: bv64 :: k < 64 ==> !Bit64(d, k)
    ensures d & 0xFFFF == 0
  {
    assert !Bit64(d, 0) && !Bit64(d, 1) && !Bit64(d, 2) && !Bit64(d, 3);
    assert !Bit64(d, 4) && !Bit64(d, 5) && !Bit64(d, 6) && !Bit64(d, 7);
    assert !Bit64(d, 8) && !Bit64(d, 9) && !Bit64(d, 10) && !Bit64(d, 11);
    assert !Bit64(d, 12) && !Bit64(d, 13) && !Bit64(d, 14) && !Bit64(d, 15);
  }

  lemma NoBits64At16(d: bv64)
    requires forall k: bv64 :: k < 64 ==> !Bit64(d, k)
    ensures d & 0xFFFF0000 == 0
  {
    assert !Bit64(d, 16) && !Bit64(d, 17) && !Bit64(d, 18) && !Bit64(d, 19);
    assert !Bit64(d, 20) && !Bit64(d, 21) && !Bit64(d, 22) && !Bit64(d, 23);
    assert !Bit64(d, 24) && !Bit64(d, 25) && !Bit64(d, 26) && !Bit64(d, 27);
    assert !Bit64(d, 28) && !Bit64(d, 29) && !Bit64(d, 30) && !Bit64(d, 31);
  }

  lemma NoBits64At32(d: bv64)
    requires forall k: bv64 :: k < 64 ==> !Bit64(d, k)
    ensures d & 0xFFFF00000000 == 0
  {
    assert !Bit64(d, 32) && !Bit64(d, 33) && !Bit64(d, 34) && !Bit64(d, 35);
    assert !Bit64(d, 36) && !Bit64(d, 37) && !Bit64(d, 38) && !Bit64(d, 39);
    assert !Bit64(d, 40) && !Bit64(d, 41) && !Bit64(d, 42) && !Bit64(d, 43);
    assert !Bit64(d, 44) && !Bit64(d, 45) && !Bit64(d, 46) && !Bit64(d, 47);
  }

  lemma NoBits64At48(d: bv64)
    requires forall k: bv64 :: k < 64 ==> !Bit64(d, k)
    ensures d & 0xFFFF000000000000 == 0
  {
    assert !Bit64(d, 48) && !Bit64(d, 49) && !Bit64(d, 50) && !Bit64(d, 51);
    assert !Bit64(d, 52) && !Bit64(d, 53) && !Bit64(d, 54) && !Bit64(d, 55);
    assert !Bit64(d, 56) && !Bit64(d, 57) && !Bit64(d, 58) && !Bit64(d, 59);
    assert !Bit64(d, 60) && !Bit64(d, 61) && !Bit64(d, 62) && !Bit64(d, 63);
  }
}
