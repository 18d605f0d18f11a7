/** When the evaluation loop closes: bounds that converge on a value settle it unless the value is a rounding boundary. */
module VuConverge {
  import opened Powers
  import opened VuFormat
  import opened VuRound
  import opened VuZiv

  /** How far below a magnitude everything rounds like the magnitude minus an infinitesimal. */
  function GapBelow(fmt: Format, y: real): (d: real)
    requires y > 0.0
    ensures 0.0 < d <= y
  {
    var f := FloorIndex(fmt, y, -1);
    var lo, hi := Grid(fmt, f), Grid(fmt, f + 1);
    if 2.0 * y > (lo + hi) as real then y - (lo + hi) as real / 2.0 else y - lo as real
  }

  /** How far above a magnitude everything rounds like the magnitude plus an infinitesimal. */
  function GapAbove(fmt: Format, y: real): (d: real)
    requires y > 0.0
    ensures d > 0.0
  {
    var f := FloorIndex(fmt, y, 1);
    var lo, hi := Grid(fmt, f), Grid(fmt, f + 1);
    if 2.0 * y < (lo + hi) as real then (lo + hi) as real / 2.0 - y else hi as real - y
  }

  lemma BelowRounds(fmt: Format, mode: nat, neg: bool, y: real, z: real, side: Side)
    requires y > 0.0 && y - GapBelow(fmt, y) < z < y
    ensures z > 0.0 && RoundMagnitude(fmt, mode, neg, z, side) == RoundMagnitude(fmt, mode, neg, y, -1)
  {
    hide RoundsUp;
    var f := FloorIndex(fmt, y, -1);
    GridStep(fmt, f);
    assert Brackets(fmt, f, z, side);
    BracketsUnique(fmt, f, FloorIndex(fmt, z, side), z, side);
    assert HalfSign(Grid(fmt, f), Grid(fmt, f + 1), z, side) == HalfSign(Grid(fmt, f), Grid(fmt, f + 1), y, -1);
  }

  lemma AboveRounds(fmt: Format, mode: nat, neg: bool, y: real, z: real, side: Side)
    requires y > 0.0 && y < z < y + GapAbove(fmt, y)
    ensures RoundMagnitude(fmt, mode, neg, z, side) == RoundMagnitude(fmt, mode, neg, y, 1)
  {
    hide RoundsUp;
    var f := FloorIndex(fmt, y, 1);
    GridStep(fmt, f);
    assert Brackets(fmt, f, z, side);
    BracketsUnique(fmt, f, FloorIndex(fmt, z, side), z, side);
    assert HalfSign(Grid(fmt, f), Grid(fmt, f + 1), z, side) == HalfSign(Grid(fmt, f), Grid(fmt, f + 1), y, 1);
  }

  /** The distance within which the two neighbourhoods of a value round alike. */
  function Gap(fmt: Format, x: real): (d: real)
    requires x != 0.0
    ensures 0.0 < d <= Abs(x)
  {
    var below, above := GapBelow(fmt, Abs(x)), GapAbove(fmt, Abs(x));
    if below < above then below else above
  }

  predicate Near(v: Mpfr, x: real, d: real) {
    (v.Zero? || v.Finite?) && Abs(RealOf(v) - x) < d
  }

  /** What lies near a value, but not on it, rounds like the value with a side. */
  lemma NearRounds(fmt: Format, mode: nat, x: Mpfr, v: Mpfr, side: Side)
    requires x.Finite? && x.Valid() && v.Valid() && Near(v, x.value, Gap(fmt, x.value))
    ensures RealOf(v) < x.value ==> Round(fmt, mode, v, side) == Round(fmt, mode, x, -1)
    ensures RealOf(v) > x.value ==> Round(fmt, mode, v, side) == Round(fmt, mode, x, 1)
  {
    var neg, y := x.value < 0.0, Abs(x.value);
    hide RoundMagnitude, GapBelow, GapAbove;
    assert v.Finite? && (v.value < 0.0) == neg;
    var z, s: Side := Abs(v.value), if neg then -side else side;
    if z < y {
      BelowRounds(fmt, mode, neg, y, z, s);
    } else if z > y {
      AboveRounds(fmt, mode, neg, y, z, s);
    }
  }

  /** A value at which the direction of an infinitesimal change decides the rounding. */
  predicate Boundary(fmt: Format, mode: nat, x: Mpfr)
    requires x.Valid()
  {
    Round(fmt, mode, x, -1) != Round(fmt, mode, x, 1)
  }

  predicate Directed(mode: nat) {
    1 <= mode <= 3
  }

  ghost predicate GridPoint(fmt: Format, y: real) {
    exists n: nat :: Grid(fmt, n) as real == y
  }

  ghost predicate Midpoint(fmt: Format, y: real) {
    exists n: nat :: (Grid(fmt, n) + Grid(fmt, n + 1)) as real == 2.0 * y
  }

  /** The directed modes break at representable magnitudes, the others halfway between two of them. */
  lemma Breakpoints(fmt: Format, mode: nat, neg: bool, y: real)
    requires y > 0.0
    ensures RoundIndex(fmt, mode, neg, y, -1) != RoundIndex(fmt, mode, neg, y, 1)
        <==> if Directed(mode) then GridPoint(fmt, y) else Midpoint(fmt, y)
  {
    hide RoundIndex, GridPoint, Midpoint, Grid;
    var f := FloorIndex(fmt, y, -1);
    assert Brackets(fmt, f, y, -1);
    if Grid(fmt, f + 1) as real == y {
      AroundGridPoint(fmt, mode, neg, y, f);
      assert GridPoint(fmt, y) by { IsGridPoint(fmt, y, f + 1); }
      NoMidpoint(fmt, y, f + 1);
    } else {
      OffGridPoint(fmt, mode, neg, y, f);
      NoGridPoint(fmt, y, f);
      OnlyMidpoint(fmt, y, f);
    }
  }

  lemma IsGridPoint(fmt: Format, y: real, n: nat)
    requires Grid(fmt, n) as real == y
    ensures GridPoint(fmt, y)
  {
  }

  lemma AroundGridPoint(fmt: Format, mode: nat, neg: bool, y: real, f: nat)
    requires y > 0.0 && f == FloorIndex(fmt, y, -1) && Grid(fmt, f + 1) as real == y
    ensures RoundIndex(fmt, mode, neg, y, -1) != RoundIndex(fmt, mode, neg, y, 1) <==> Directed(mode)
  {
    hide Grid, RoundsUp;
    GridStep(fmt, f);
    GridStep(fmt, f + 1);
    BracketsUnique(fmt, FloorIndex(fmt, y, 1), f + 1, y, 1);
    AboveHalf(mode, neg, f % 2 == 1);
    AboveHalf(mode, neg, (f + 1) % 2 == 1);
  }

  lemma AboveHalf(mode: nat, neg: bool, odd: bool)
    ensures !Directed(mode) ==> RoundsUp(mode, neg, true, 1, odd) && !RoundsUp(mode, neg, true, -1, odd)
    ensures Directed(mode) ==> forall h, k, odd' :: RoundsUp(mode, neg, true, h, odd) == RoundsUp(mode, neg, true, k, odd')
  {
  }

  lemma OffGridPoint(fmt: Format, mode: nat, neg: bool, y: real, f: nat)
    requires y > 0.0 && f == FloorIndex(fmt, y, -1) && Grid(fmt, f + 1) as real != y
    ensures RoundIndex(fmt, mode, neg, y, -1) != RoundIndex(fmt, mode, neg, y, 1)
        <==> !Directed(mode) && (Grid(fmt, f) + Grid(fmt, f + 1)) as real == 2.0 * y
  {
    hide Grid, RoundsUp;
    BracketsUnique(fmt, FloorIndex(fmt, y, 1), f, y, 1);
    AboveHalf(mode, neg, f % 2 == 1);
  }

  lemma NoMidpoint(fmt: Format, y: real, f: nat)
    requires Grid(fmt, f) as real == y
    ensures !Midpoint(fmt, y)
  {
    forall n: nat
      ensures (Grid(fmt, n) + Grid(fmt, n + 1)) as real != 2.0 * y
    {
      GridStep(fmt, n);
      if n < f {
        GridMonotoneOrEqual(fmt, n + 1, f);
      } else {
        GridMonotoneOrEqual(fmt, f, n);
      }
    }
  }

  lemma GridMonotoneOrEqual(fmt: Format, m: nat, n: nat)
    requires m <= n
    ensures Grid(fmt, m) <= Grid(fmt, n)
  {
    if m < n {
      GridMonotone(fmt, m, n);
    }
  }

  lemma NoGridPoint(fmt: Format, y: real, f: nat)
    requires (Grid(fmt, f) as real) < y < (Grid(fmt, f + 1) as real)
    ensures !GridPoint(fmt, y)
  {
    forall n: nat
      ensures Grid(fmt, n) as real != y
    {
      if n <= f {
        GridMonotoneOrEqual(fmt, n, f);
      } else {
        GridMonotoneOrEqual(fmt, f + 1, n);
      }
    }
  }

  lemma OnlyMidpoint(fmt: Format, y: real, f: nat)
    requires (Grid(fmt, f) as real) < y < (Grid(fmt, f + 1) as real)
    ensures Midpoint(fmt, y) <==> (Grid(fmt, f) + Grid(fmt, f + 1)) as real == 2.0 * y
  {
    if Midpoint(fmt, y) {
      var n: nat :| (Grid(fmt, n) + Grid(fmt, n + 1)) as real == 2.0 * y;
      if n < f {
        GridMonotoneOrEqual(fmt, n, f);
        GridMonotoneOrEqual(fmt, n + 1, f);
      } else if n > f {
        GridMonotoneOrEqual(fmt, f + 1, n);
        GridMonotoneOrEqual(fmt, f + 1, n + 1);
      }
    }
  }

  /** Inside the exponent range a rounding up does not overflow, or overflows to infinity. */
  lemma InRangeRounds(fmt: Format, mode: nat, neg: bool, y: real, side: Side)
    requires y > 0.0 && y < Grid(fmt, fmt.Infinity()) as real
    ensures RoundIndex(fmt, mode, neg, y, side) <= fmt.Infinity()
    ensures RoundMagnitude(fmt, mode, neg, y, side) == RoundIndex(fmt, mode, neg, y, side)
  {
    var f := FloorIndex(fmt, y, side);
    if f >= fmt.Infinity() {
      GridMonotoneOrEqual(fmt, fmt.Infinity(), f);
      assert false;
    }
    hide Grid, HalfSign, RoundsUp, OverflowMagnitude, FloorIndex, Format.Infinity;
    var lo, hi := Grid(fmt, f), Grid(fmt, f + 1);
    OverflowsUp(fmt, mode, neg, y != lo as real || side != 0, HalfSign(lo, hi, y, side), f % 2 == 1);
  }

  /** From the top of the exponent range on there are no boundaries. */
  lemma OutOfRangeRounds(fmt: Format, mode: nat, neg: bool, y: real)
    requires y > 0.0 && y >= Grid(fmt, fmt.Infinity()) as real
    ensures RoundMagnitude(fmt, mode, neg, y, -1) == RoundMagnitude(fmt, mode, neg, y, 1)
  {
    FloorAtTop(fmt, y, 1);
    FloorAtTop(fmt, y, -1);
    var f := FloorIndex(fmt, y, -1);
    if f < fmt.Infinity() {
      hide Grid, HalfSign, FloorIndex, OverflowMagnitude;
      NoMidpointAtTop(fmt, mode, neg, y, f);
    }
  }

  lemma FloorAtTop(fmt: Format, y: real, side: Side)
    requires y > 0.0 && y >= Grid(fmt, fmt.Infinity()) as real
    ensures FloorIndex(fmt, y, side) >= fmt.Infinity()
         || (side < 0 && y == Grid(fmt, fmt.Infinity()) as real && FloorIndex(fmt, y, side) == fmt.Infinity() - 1)
  {
    var f := FloorIndex(fmt, y, side);
    if f + 1 <= fmt.Infinity() {
      GridMonotoneOrEqual(fmt, f + 1, fmt.Infinity());
      if f + 1 < fmt.Infinity() {
        GridMonotone(fmt, f + 1, fmt.Infinity());
      }
    }
  }

  /** Just below the top a directed mode saturates or overflows like the value itself, and any other rounds up. */
  lemma NoMidpointAtTop(fmt: Format, mode: nat, neg: bool, y: real, f: nat)
    requires y > 0.0 && f == FloorIndex(fmt, y, -1) && f == fmt.Infinity() - 1 && y == Grid(fmt, f + 1) as real
    ensures RoundMagnitude(fmt, mode, neg, y, -1) == OverflowMagnitude(fmt, mode, neg)
  {
    GridStep(fmt, f);
    assert HalfSign(Grid(fmt, f), Grid(fmt, f + 1), y, -1) == 1;
    hide Grid, HalfSign, FloorIndex;
    assert RoundIndex(fmt, mode, neg, y, -1) == if RoundsUp(mode, neg, true, 1, f % 2 == 1) then f + 1 else f;
  }

  /** A magnitude of the exponent range at which the mode breaks. */
  ghost predicate Breaks(fmt: Format, mode: nat, y: real) {
    y < Grid(fmt, fmt.Infinity()) as real && if Directed(mode) then GridPoint(fmt, y) else Midpoint(fmt, y)
  }

  /** The boundaries are exactly those magnitudes. */
  lemma BoundaryIsBreakpoint(fmt: Format, mode: nat, x: Mpfr)
    requires x.Finite? && x.Valid()
    ensures Boundary(fmt, mode, x) <==> Breaks(fmt, mode, Abs(x.value))
  {
    hide RoundIndex, RoundMagnitude, GridPoint, Midpoint, Grid;
    var neg, y := x.value < 0.0, Abs(x.value);
    Breakpoints(fmt, mode, neg, y);
    assert Boundary(fmt, mode, x) <==> RoundMagnitude(fmt, mode, neg, y, -1) != RoundMagnitude(fmt, mode, neg, y, 1);
    if y < Grid(fmt, fmt.Infinity()) as real {
      InRangeRounds(fmt, mode, neg, y, -1);
      InRangeRounds(fmt, mode, neg, y, 1);
    } else {
      OutOfRangeRounds(fmt, mode, neg, y);
    }
  }

  /** Bounds that come arbitrarily near the exact result as the precision doubles. */
  ghost predicate Converges(evaluate: nat -> Bounds, x: real) {
    forall d: real :: d > 0.0 ==> ComesWithin(evaluate, x, d)
  }

  ghost predicate ComesWithin(evaluate: nat -> Bounds, x: real, d: real) {
    exists i: nat :: Close(evaluate, i, x, d)
  }

  predicate Close(evaluate: nat -> Bounds, i: nat, x: real, d: real) {
    var b := evaluate(64 * Pow2(i));
    Near(b.lower.value, x, d) && Near(b.upper.value, x, d)
  }

  predicate Settles(fmt: Format, mode: nat, evaluate: nat -> Bounds, i: nat) {
    !Disagree(fmt, mode, evaluate(64 * Pow2(i)))
  }

  /** Bounds on both sides of a boundary never agree. */
  lemma BoundaryDisagrees(fmt: Format, mode: nat, b: Bounds, e: Exact)
    requires e.x.Finite? && e.x.Valid() && Encloses(b, e) && b.lower.inexact && b.upper.inexact && Boundary(fmt, mode, e.x)
    ensures Disagree(fmt, mode, b)
  {
    hide Round;
    RoundMonotone(fmt, mode, b.lower.value, 1, e.x, -1);
    RoundMonotone(fmt, mode, e.x, -1, e.x, 1);
    RoundMonotone(fmt, mode, e.x, 1, b.upper.value, -1);
    if Key(fmt, Round(fmt, mode, e.x, -1)) == Key(fmt, Round(fmt, mode, e.x, 1)) {
      KeyInjective(fmt, Round(fmt, mode, e.x, -1), Round(fmt, mode, e.x, 1));
    }
  }

  /** Bounds near any other value agree. */
  lemma NearBoundsAgree(fmt: Format, mode: nat, b: Bounds, e: Exact)
    requires e.x.Finite? && e.x.Valid() && Encloses(b, e) && b.lower.inexact && b.upper.inexact && !Boundary(fmt, mode, e.x)
    requires Near(b.lower.value, e.x.value, Gap(fmt, e.x.value)) && Near(b.upper.value, e.x.value, Gap(fmt, e.x.value))
    ensures !Disagree(fmt, mode, b)
  {
    hide Round, Gap;
    NearRounds(fmt, mode, e.x, b.lower.value, 1);
    NearRounds(fmt, mode, e.x, b.upper.value, -1);
  }

  lemma ExactBoundsAgree(fmt: Format, mode: nat, b: Bounds, e: Exact)
    requires e.x.Finite? && e.x.Valid() && Encloses(b, e) && IsExact(b)
    ensures !Disagree(fmt, mode, b)
  {
    hide Round;
  }

  predicate IsExact(b: Bounds) {
    !b.lower.inexact && !b.upper.inexact
  }

  /** Both directions are exact at the same precisions: those that hold the result. */
  ghost predicate FlagsAgree(evaluate: nat -> Bounds) {
    forall precision :: evaluate(precision).lower.inexact == evaluate(precision).upper.inexact
  }

  predicate ExactAt(evaluate: nat -> Bounds, i: nat) {
    IsExact(evaluate(64 * Pow2(i)))
  }

  /**
   With bounds that converge, the loop closes at some precision if and only if some precision gives
   exact bounds or the mode does not break at the exact result.
   */
  lemma LoopCloses(fmt: Format, mode: nat, evaluate: nat -> Bounds, e: Exact)
    requires e.x.Finite? && e.x.Valid() && Converges(evaluate, e.x.value) && FlagsAgree(evaluate)
    requires forall precision :: Encloses(evaluate(precision), e)
    ensures (exists i: nat :: Settles(fmt, mode, evaluate, i))
        <==> (exists i: nat :: ExactAt(evaluate, i)) || !Breaks(fmt, mode, Abs(e.x.value))
  {
    hide Encloses, Boundary, Breaks, Disagree, Gap;
    BoundaryIsBreakpoint(fmt, mode, e.x);
    if i: nat :| ExactAt(evaluate, i) {
      ExactBoundsAgree(fmt, mode, evaluate(64 * Pow2(i)), e);
      assert Settles(fmt, mode, evaluate, i);
    } else if Boundary(fmt, mode, e.x) {
      forall i: nat
        ensures !Settles(fmt, mode, evaluate, i)
      {
        assert !ExactAt(evaluate, i);
        BoundaryDisagrees(fmt, mode, evaluate(64 * Pow2(i)), e);
      }
    } else {
      assert ComesWithin(evaluate, e.x.value, Gap(fmt, e.x.value));
      var i: nat :| Close(evaluate, i, e.x.value, Gap(fmt, e.x.value));
      assert !ExactAt(evaluate, i);
      NearBoundsAgree(fmt, mode, evaluate(64 * Pow2(i)), e);
      assert Settles(fmt, mode, evaluate, i);
    }
  }
}
