/** The AES round instructions on 128-bit element groups. */
module Aes {
  import opened AesByte
  import opened AesColumn
  import opened AesSbox

  datatype State = State(c0: Column, c1: Column, c2: Column, c3: Column)

  // ----- The steps of a round -----

  function SubWordFwd(w: Column): Column {
    Column(EncSbox(w.s0), EncSbox(w.s1), EncSbox(w.s2), EncSbox(w.s3))
  }

  function SubWordInv(w: Column): Column {
    Column(DecSbox(w.s0), DecSbox(w.s1), DecSbox(w.s2), DecSbox(w.s3))
  }

  function SubBytesFwd(x: State): State {
    State(SubWordFwd(x.c0), SubWordFwd(x.c1), SubWordFwd(x.c2), SubWordFwd(x.c3))
  }

  function SubBytesInv(x: State): State {
    State(SubWordInv(x.c0), SubWordInv(x.c1), SubWordInv(x.c2), SubWordInv(x.c3))
  }

  function ShiftRowsFwd(x: State): State {
    State(Column(x.c0.s0, x.c1.s1, x.c2.s2, x.c3.s3),
          Column(x.c1.s0, x.c2.s1, x.c3.s2, x.c0.s3),
          Column(x.c2.s0, x.c3.s1, x.c0.s2, x.c1.s3),
          Column(x.c3.s0, x.c0.s1, x.c1.s2, x.c2.s3))
  }

  function ShiftRowsInv(x: State): State {
    State(Column(x.c0.s0, x.c3.s1, x.c2.s2, x.c1.s3),
          Column(x.c1.s0, x.c0.s1, x.c3.s2, x.c2.s3),
          Column(x.c2.s0, x.c1.s1, x.c0.s2, x.c3.s3),
          Column(x.c3.s0, x.c2.s1, x.c1.s2, x.c0.s3))
  }

  function MixColumnsFwd(x: State): State {
    State(MixColumnFwd(x.c0), MixColumnFwd(x.c1), MixColumnFwd(x.c2), MixColumnFwd(x.c3))
  }

  function MixColumnsInv(x: State): State {
    State(MixColumnInv(x.c0), MixColumnInv(x.c1), MixColumnInv(x.c2), MixColumnInv(x.c3))
  }

  function Xor(a: State, b: State): State {
    State(XorColumn(a.c0, b.c0), XorColumn(a.c1, b.c1), XorColumn(a.c2, b.c2), XorColumn(a.c3, b.c3))
  }

  // ----- The instructions -----

  function Vaesdm(state: State, rkey: State): State {
    MixColumnsInv(Xor(SubBytesInv(ShiftRowsInv(state)), rkey))
  }

  function Vaesdf(state: State, rkey: State): State {
    Xor(SubBytesInv(ShiftRowsInv(state)), rkey)
  }

  function Vaesem(state: State, rkey: State): State {
    Xor(MixColumnsFwd(ShiftRowsFwd(SubBytesFwd(state))), rkey)
  }

  function Vaesef(state: State, rkey: State): State {
    Xor(ShiftRowsFwd(SubBytesFwd(state)), rkey)
  }

  function Vaesz(state: State, rkey: State): State {
    Xor(state, rkey)
  }

  // ----- Inverses -----

  lemma SubBytesBack(x: State)
    ensures SubBytesInv(SubBytesFwd(x)) == x
  {
    SubWordBack(x.c0);
    SubWordBack(x.c1);
    SubWordBack(x.c2);
    SubWordBack(x.c3);
    hide SubWordFwd, SubWordInv;
  }

  lemma SubWordBack(w: Column)
    ensures SubWordInv(SubWordFwd(w)) == w
  {
    DecryptsSbox(w.s0);
    DecryptsSbox(w.s1);
    DecryptsSbox(w.s2);
    DecryptsSbox(w.s3);
    hide EncSbox, DecSbox;
  }

  lemma ShiftRowsBack(x: State)
    ensures ShiftRowsInv(ShiftRowsFwd(x)) == x && ShiftRowsFwd(ShiftRowsInv(x)) == x
  {
  }

  lemma MixColumnsBack(x: State)
    ensures MixColumnsInv(MixColumnsFwd(x)) == x
  {
    UnmixColumn(x.c0);
    UnmixColumn(x.c1);
    UnmixColumn(x.c2);
    UnmixColumn(x.c3);
    hide MixColumnFwd, MixColumnInv;
  }

  lemma XorBack(a: State, k: State)
    ensures Xor(Xor(a, k), k) == a
  {
    XorColumnBack(a.c0, k.c0);
    XorColumnBack(a.c1, k.c1);
    XorColumnBack(a.c2, k.c2);
    XorColumnBack(a.c3, k.c3);
    hide XorColumn;
  }

  // ----- Whole encryptions -----

  /** The middle rounds of an encryption, in order. */
  function MiddleRounds(state: State, keys: seq<State>): State {
    if keys == [] then state else Vaesem(MiddleRounds(state, keys[..|keys| - 1]), keys[|keys| - 1])
  }

  /** The middle rounds of a decryption: the same keys from the last to the first. */
  function MiddleRoundsBack(state: State, keys: seq<State>): State
    decreases |keys|
  {
    if keys == [] then state else MiddleRoundsBack(Vaesdm(state, keys[|keys| - 1]), keys[..|keys| - 1])
  }

  function Encrypt(plain: State, keys: seq<State>): State
    requires |keys| >= 2
  {
    Vaesef(MiddleRounds(Vaesz(plain, keys[0]), keys[1..|keys| - 1]), keys[|keys| - 1])
  }

  function Decrypt(cipher: State, keys: seq<State>): State
    requires |keys| >= 2
  {
    Vaesdf(MiddleRoundsBack(Vaesz(cipher, keys[|keys| - 1]), keys[1..|keys| - 1]), keys[0])
  }

  /** A decryption round undoes an encryption round, between the two halves of the rounds around it. */
  lemma RoundBack(state: State, key: State)
    ensures Vaesdm(ShiftRowsFwd(SubBytesFwd(Vaesem(state, key))), key) == ShiftRowsFwd(SubBytesFwd(state))
  {
    hide SubBytesFwd, SubBytesInv, ShiftRowsFwd, ShiftRowsInv, MixColumnsFwd, MixColumnsInv, Xor;
    var next := Vaesem(state, key);
    ShiftRowsBack(SubBytesFwd(next));
    SubBytesBack(next);
    XorBack(MixColumnsFwd(ShiftRowsFwd(SubBytesFwd(state))), key);
    MixColumnsBack(ShiftRowsFwd(SubBytesFwd(state)));
  }

  lemma {:induction false} MiddleRoundsUndone(state: State, keys: seq<State>)
    ensures MiddleRoundsBack(ShiftRowsFwd(SubBytesFwd(MiddleRounds(state, keys))), keys) == ShiftRowsFwd(SubBytesFwd(state))
  {
    if keys != [] {
      hide SubBytesFwd, ShiftRowsFwd, Vaesem, Vaesdm;
      var front := keys[..|keys| - 1];
      RoundBack(MiddleRounds(state, front), keys[|keys| - 1]);
      MiddleRoundsUndone(state, front);
    }
  }

  /** Decryption undoes encryption, for any number of rounds and any round keys. */
  lemma DecryptEncrypt(plain: State, keys: seq<State>)
    requires |keys| >= 2
    ensures Decrypt(Encrypt(plain, keys), keys) == plain
  {
    hide SubBytesFwd, SubBytesInv, ShiftRowsFwd, ShiftRowsInv, Xor, MiddleRounds, MiddleRoundsBack;
    var start := Vaesz(plain, keys[0]);
    var middle := keys[1..|keys| - 1];
    var end := MiddleRounds(start, middle);
    XorBack(ShiftRowsFwd(SubBytesFwd(end)), keys[|keys| - 1]);
    MiddleRoundsUndone(start, middle);
    ShiftRowsBack(SubBytesFwd(start));
    SubBytesBack(start);
    XorBack(plain, keys[0]);
  }

  // ----- Rows -----

  function Row0(x: State): seq<Byte> {
    [x.c0.s0, x.c1.s0, x.c2.s0, x.c3.s0]
  }

  function Row1(x: State): seq<Byte> {
    [x.c0.s1, x.c1.s1, x.c2.s1, x.c3.s1]
  }

  function Row2(x: State): seq<Byte> {
    [x.c0.s2, x.c1.s2, x.c2.s2, x.c3.s2]
  }

  function Row3(x: State): seq<Byte> {
    [x.c0.s3, x.c1.s3, x.c2.s3, x.c3.s3]
  }

  function RotatedLeft(row: seq<Byte>, n: nat): seq<Byte>
    requires n <= |row|
  {
    row[n..] + row[..n]
  }

  /** Row r moves left by r places (FIPS 197, section 5.1.2). */
  lemma ShiftRowsMoves(x: State)
    ensures var y := ShiftRowsFwd(x);
      && Row0(y) == Row0(x) && Row1(y) == RotatedLeft(Row1(x), 1)
      && Row2(y) == RotatedLeft(Row2(x), 2) && Row3(y) == RotatedLeft(Row3(x), 3)
  {
  }
}
