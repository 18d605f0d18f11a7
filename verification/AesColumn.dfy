/** The mixing of a column of AES. */
module AesColumn {
  import opened AesByte

  datatype Column = Column(s0: Byte, s1: Byte, s2: Byte, s3: Byte)

  function MixColumnFwd(x: Column): Column {
    Column(Sum4(Xt2(x.s0), Xt3(x.s1), x.s2, x.s3),
           Sum4(x.s0, Xt2(x.s1), Xt3(x.s2), x.s3),
           Sum4(x.s0, x.s1, Xt2(x.s2), Xt3(x.s3)),
           Sum4(Xt3(x.s0), x.s1, x.s2, Xt2(x.s3)))
  }

  function MixColumnInv(x: Column): Column {
    Column(Sum4(Gfmul(x.s0, 14), Gfmul(x.s1, 11), Gfmul(x.s2, 13), Gfmul(x.s3, 9)),
           Sum4(Gfmul(x.s0, 9), Gfmul(x.s1, 14), Gfmul(x.s2, 11), Gfmul(x.s3, 13)),
           Sum4(Gfmul(x.s0, 13), Gfmul(x.s1, 9), Gfmul(x.s2, 14), Gfmul(x.s3, 11)),
           Sum4(Gfmul(x.s0, 11), Gfmul(x.s1, 13), Gfmul(x.s2, 9), Gfmul(x.s3, 14)))
  }

  // ----- Unmixing -----

  /** The first byte of the inverse of a mixed column is the first byte of the column. */
  lemma FirstUnmixed(x: Column)
    ensures MixColumnInv(MixColumnFwd(x)).s0 == x.s0
  {
    hide Gfmul, Xt2, Xt3, Sum4;
    var s0, s1, s2, s3 := x.s0, x.s1, x.s2, x.s3;
    CoefficientOwn(s0);
    CoefficientNext(s1);
    CoefficientOpposite(s2);
    CoefficientLast(s3);
    GfmulSum4(Xt2(s0), Xt3(s1), s2, s3, 14);
    GfmulSum4(s0, Xt2(s1), Xt3(s2), s3, 11);
    GfmulSum4(s0, s1, Xt2(s2), Xt3(s3), 13);
    GfmulSum4(Xt3(s0), s1, s2, Xt2(s3), 9);
    Regroup(Gfmul(Xt2(s0), 14), Gfmul(Xt3(s1), 14), Gfmul(s2, 14), Gfmul(s3, 14),
            Gfmul(s0, 11), Gfmul(Xt2(s1), 11), Gfmul(Xt3(s2), 11), Gfmul(s3, 11),
            Gfmul(s0, 13), Gfmul(s1, 13), Gfmul(Xt2(s2), 13), Gfmul(Xt3(s3), 13),
            Gfmul(Xt3(s0), 9), Gfmul(s1, 9), Gfmul(s2, 9), Gfmul(Xt2(s3), 9));
    OnlyFirst(s0);
  }

  /** The column read from its second byte on. */
  function Turned(x: Column): Column {
    Column(x.s1, x.s2, x.s3, x.s0)
  }

  lemma MixTurned(x: Column)
    ensures MixColumnFwd(Turned(x)) == Turned(MixColumnFwd(x))
  {
    hide Xt2, Xt3, Sum4;
    var s0, s1, s2, s3 := x.s0, x.s1, x.s2, x.s3;
    SumTurned(Xt2(s1), Xt3(s2), s3, s0);
    SumTurned(s1, Xt2(s2), Xt3(s3), s0);
    SumTurned(s1, s2, Xt2(s3), Xt3(s0));
    SumTurned(Xt3(s1), s2, s3, Xt2(s0));
  }

  lemma UnmixTurned(x: Column)
    ensures MixColumnInv(Turned(x)) == Turned(MixColumnInv(x))
  {
    hide Gfmul, Sum4;
    var s0, s1, s2, s3 := x.s0, x.s1, x.s2, x.s3;
    SumTurned(Gfmul(s1, 14), Gfmul(s2, 11), Gfmul(s3, 13), Gfmul(s0, 9));
    SumTurned(Gfmul(s1, 9), Gfmul(s2, 14), Gfmul(s3, 11), Gfmul(s0, 13));
    SumTurned(Gfmul(s1, 13), Gfmul(s2, 9), Gfmul(s3, 14), Gfmul(s0, 11));
    SumTurned(Gfmul(s1, 11), Gfmul(s2, 13), Gfmul(s3, 9), Gfmul(s0, 14));
  }

  /** Unmixing undoes mixing. */
  lemma UnmixColumn(x: Column)
    ensures MixColumnInv(MixColumnFwd(x)) == x
  {
    hide MixColumnFwd, MixColumnInv;
    var x1, x2, x3 := Turned(x), Turned(Turned(x)), Turned(Turned(Turned(x)));
    FirstUnmixed(x);
    FirstUnmixed(x1);
    FirstUnmixed(x2);
    FirstUnmixed(x3);
    MixTurned(x);
    MixTurned(x1);
    MixTurned(x2);
    var y := MixColumnFwd(x);
    UnmixTurned(y);
    UnmixTurned(Turned(y));
    UnmixTurned(Turned(Turned(y)));
  }

  function XorColumn(a: Column, b: Column): Column {
    Column(Sum(a.s0, b.s0), Sum(a.s1, b.s1), Sum(a.s2, b.s2), Sum(a.s3, b.s3))
  }

  lemma XorColumnBack(a: Column, k: Column)
    ensures XorColumn(XorColumn(a, k), k) == a
  {
    hide Sum;
    SumBack(a.s0, k.s0);
    SumBack(a.s1, k.s1);
    SumBack(a.s2, k.s2);
    SumBack(a.s3, k.s3);
  }
}
