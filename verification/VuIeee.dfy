/** The reference rounding meets the rounding-direction rules of IEEE 754-2019 section 4.3. */
module VuIeee {
  import opened VuFormat
  import opened VuRound

  ghost predicate GreatestBelow(fmt: Format, y: real, n: nat) {
    && Grid(fmt, n) as real <= y
    && forall m: nat :: Grid(fmt, m) as real <= y ==> m <= n
  }

  ghost predicate LeastAbove(fmt: Format, y: real, n: nat) {
    && Grid(fmt, n) as real >= y
    && forall m: nat :: Grid(fmt, m) as real >= y ==> n <= m
  }

  function Distance(fmt: Format, y: real, n: nat): real {
    Abs(y - Grid(fmt, n) as real)
  }

  ghost predicate Nearest(fmt: Format, y: real, n: nat) {
    forall m: nat :: Distance(fmt, y, n) <= Distance(fmt, y, m)
  }

  /** A nearest neighbour; among two of them the one that the tie rule picks. */
  ghost predicate NearestWithTies(fmt: Format, mode: nat, y: real, n: nat) {
    && Nearest(fmt, y, n)
    && forall m: nat :: m != n && Nearest(fmt, y, m) ==> PicksTie(mode, n, m)
  }

  ghost predicate CorrectlyRounded(fmt: Format, mode: nat, neg: bool, y: real, n: nat) {
    match mode
    case 1 => GreatestBelow(fmt, y, n)
    case 2 => if neg then LeastAbove(fmt, y, n) else GreatestBelow(fmt, y, n)
    case 3 => if neg then GreatestBelow(fmt, y, n) else LeastAbove(fmt, y, n)
    case _ => NearestWithTies(fmt, mode, y, n)
  }

  lemma BelowFloor(fmt: Format, y: real, f: nat, m: nat)
    requires Brackets(fmt, f, y, 0) && m <= f
    ensures Grid(fmt, m) <= Grid(fmt, f)
    ensures Grid(fmt, m) as real <= y && Distance(fmt, y, f) <= Distance(fmt, y, m)
    ensures m < f ==> Distance(fmt, y, f) < Distance(fmt, y, m)
  {
    if m < f {
      GridMonotone(fmt, m, f);
    }
  }

  lemma AboveFloor(fmt: Format, y: real, f: nat, m: nat)
    requires Brackets(fmt, f, y, 0) && m > f
    ensures Grid(fmt, m) as real > y && Distance(fmt, y, f + 1) <= Distance(fmt, y, m)
    ensures m > f + 1 ==> Distance(fmt, y, f + 1) < Distance(fmt, y, m)
  {
    if m > f + 1 {
      GridMonotone(fmt, f + 1, m);
    }
  }

  lemma DirectedModes(fmt: Format, y: real, f: nat)
    requires Brackets(fmt, f, y, 0)
    ensures GreatestBelow(fmt, y, f)
    ensures y == Grid(fmt, f) as real ==> LeastAbove(fmt, y, f)
    ensures y != Grid(fmt, f) as real ==> LeastAbove(fmt, y, f + 1)
  {
    forall m: nat
      ensures Grid(fmt, m) as real <= y <==> m <= f
      ensures Grid(fmt, m) as real >= y ==> m >= f && (y != Grid(fmt, f) as real ==> m > f)
    {
      if m <= f {
        BelowFloor(fmt, y, f, m);
        if m < f { GridMonotone(fmt, m, f); }
      } else {
        AboveFloor(fmt, y, f, m);
      }
    }
    AboveFloor(fmt, y, f, f + 1);
  }

  lemma NearestModes(fmt: Format, y: real, f: nat)
    requires Brackets(fmt, f, y, 0)
    ensures var half := HalfSign(Grid(fmt, f), Grid(fmt, f + 1), y, 0);
      && (Nearest(fmt, y, f) <==> half <= 0)
      && (Nearest(fmt, y, f + 1) <==> half >= 0)
      && forall m: nat :: m != f && m != f + 1 ==> !Nearest(fmt, y, m)
  {
    forall m: nat
      ensures m <= f ==> Distance(fmt, y, f) <= Distance(fmt, y, m)
      ensures m > f ==> Distance(fmt, y, f + 1) <= Distance(fmt, y, m)
      ensures m < f ==> Distance(fmt, y, f) < Distance(fmt, y, m)
      ensures m > f + 1 ==> Distance(fmt, y, f + 1) < Distance(fmt, y, m)
    {
      if m <= f { BelowFloor(fmt, y, f, m); } else { AboveFloor(fmt, y, f, m); }
    }
    assert Distance(fmt, y, f) == y - Grid(fmt, f) as real;
    assert Distance(fmt, y, f + 1) == Grid(fmt, f + 1) as real - y;
  }

  predicate PicksTie(mode: nat, n: nat, other: nat) {
    match mode
    case 4 => other < n
    case 5 => n % 2 == 1
    case _ => n % 2 == 0
  }

  lemma NearestIsCorrect(fmt: Format, mode: nat, neg: bool, inexact: bool, y: real, f: nat)
    requires Brackets(fmt, f, y, 0) && (mode == 0 || mode > 3)
    ensures var half := HalfSign(Grid(fmt, f), Grid(fmt, f + 1), y, 0);
      NearestWithTies(fmt, mode, y, if RoundsUp(mode, neg, inexact, half, f % 2 == 1) then f + 1 else f)
  {
    NearestModes(fmt, y, f);
    var half := HalfSign(Grid(fmt, f), Grid(fmt, f + 1), y, 0);
    var n := if RoundsUp(mode, neg, inexact, half, f % 2 == 1) then f + 1 else f;
    assert Nearest(fmt, y, n);
    forall m: nat | m != n && Nearest(fmt, y, m)
      ensures PicksTie(mode, n, m)
    {
      assert m == f || m == f + 1;
      assert half == 0;
    }
  }

  /** Every mode of the reference rounding is the one that the standard defines, on every magnitude. */
  lemma RoundIndexIsCorrect(fmt: Format, mode: nat, neg: bool, y: real)
    requires y >= 0.0
    ensures CorrectlyRounded(fmt, mode, neg, y, RoundIndex(fmt, mode, neg, y, 0))
  {
    var f := FloorIndex(fmt, y, 0);
    if mode == 0 || mode > 3 {
      NearestIsCorrect(fmt, mode, neg, y != Grid(fmt, f) as real, y, f);
    } else {
      DirectedModes(fmt, y, f);
    }
  }

  lemma NearestUnique(fmt: Format, mode: nat, y: real, m: nat, n: nat)
    requires y >= 0.0
    requires NearestWithTies(fmt, mode, y, m) && NearestWithTies(fmt, mode, y, n)
    ensures m == n
  {
    TiePicked(fmt, mode, y, m, n);
    TiePicked(fmt, mode, y, n, m);
    var f := FloorIndex(fmt, y, 0);
    hide NearestWithTies, Nearest, Distance, HalfSign, Brackets, Grid, FloorIndex;
    NearestModes(fmt, y, f);
    if m != n {
      PicksOne(mode, m, n);
    }
  }

  lemma PicksOne(mode: nat, m: nat, n: nat)
    requires n == m + 1 || m == n + 1
    ensures !(PicksTie(mode, m, n) && PicksTie(mode, n, m))
  {
  }

  lemma TiePicked(fmt: Format, mode: nat, y: real, m: nat, n: nat)
    requires NearestWithTies(fmt, mode, y, m) && NearestWithTies(fmt, mode, y, n)
    ensures Nearest(fmt, y, m) && (m != n ==> PicksTie(mode, m, n))
  {
    hide Nearest;
  }

  /** The rules of the standard leave no choice. */
  lemma CorrectlyRoundedUnique(fmt: Format, mode: nat, neg: bool, y: real, m: nat, n: nat)
    requires y >= 0.0
    requires CorrectlyRounded(fmt, mode, neg, y, m) && CorrectlyRounded(fmt, mode, neg, y, n)
    ensures m == n
  {
    if mode == 0 || mode > 3 {
      NearestUnique(fmt, mode, y, m, n);
    }
  }
}
