/**
 The evaluation loop of the vector-unit reference model: round a lower and an upper
 bound of the exact result, each moved off its bound by an infinitesimal where the
 bound is inexact, and double the precision until both give the same bits.
 */
module VuZiv {
  import opened Powers
  import opened VuFormat
  import opened VuRound

  // ----- Rounding is monotone in the order of values with sides -----

  /** Orders values with sides that share their real value; -0 lies below +0. */
  function SideRank(v: Mpfr, side: Side): int {
    2 * side + if v.Zero? && side == 0 then (if v.neg then -1 else 1) else 0
  }

  function RealOf(v: Mpfr): real
    requires v.Zero? || v.Finite?
  {
    if v.Zero? then 0.0 else v.value
  }

  predicate Precedes(a: Mpfr, s: Side, b: Mpfr, t: Side) {
    && !a.NaN? && !b.NaN?
    && if a.Inf? then a.neg || b == a
       else if b.Inf? then !b.neg
       else RealOf(a) < RealOf(b) || (RealOf(a) == RealOf(b) && SideRank(a, s) <= SideRank(b, t))
  }

  /** The position of a bit pattern in numerical order. */
  function Key(fmt: Format, bits: nat): int {
    if bits >= fmt.SignWeight() then fmt.SignWeight() - 1 - bits else bits
  }

  lemma FloorMonotone(fmt: Format, y1: real, s1: Side, y2: real, s2: Side)
    requires Magnitude(y1, s1) && Magnitude(y2, s2)
    requires y1 < y2 || (y1 == y2 && s1 <= s2)
    ensures FloorIndex(fmt, y1, s1) <= FloorIndex(fmt, y2, s2)
  {
    var f1, f2 := FloorIndex(fmt, y1, s1), FloorIndex(fmt, y2, s2);
    if f2 + 1 < f1 {
      GridMonotone(fmt, f2 + 1, f1);
    }
  }

  lemma RoundsUpMonotone(mode: nat, neg: bool, i1: bool, h1: int, i2: bool, h2: int, odd: bool)
    requires (i1 ==> i2) && h1 <= h2
    ensures RoundsUp(mode, neg, i1, h1, odd) ==> RoundsUp(mode, neg, i2, h2, odd)
  {
  }

  lemma AtFloor(fmt: Format, y: real, side: Side, f: nat)
    requires Brackets(fmt, f, y, side)
    ensures Grid(fmt, f) as real <= y && (y == Grid(fmt, f) as real ==> side >= 0)
  {
  }

  lemma RoundIndexMonotone(fmt: Format, mode: nat, neg: bool, y1: real, s1: Side, y2: real, s2: Side)
    requires Magnitude(y1, s1) && Magnitude(y2, s2)
    requires y1 < y2 || (y1 == y2 && s1 <= s2)
    ensures RoundIndex(fmt, mode, neg, y1, s1) <= RoundIndex(fmt, mode, neg, y2, s2)
  {
    hide RoundsUp, AtMost, Brackets;
    FloorMonotone(fmt, y1, s1, y2, s2);
    var f := FloorIndex(fmt, y1, s1);
    if f == FloorIndex(fmt, y2, s2) {
      var lo, hi := Grid(fmt, f), Grid(fmt, f + 1);
      AtFloor(fmt, y1, s1, f);
      RoundsUpMonotone(mode, neg, y1 != lo as real || s1 != 0, HalfSign(lo, hi, y1, s1),
                       y2 != lo as real || s2 != 0, HalfSign(lo, hi, y2, s2), f % 2 == 1);
    }
  }

  lemma RoundMagnitudeMonotone(fmt: Format, mode: nat, neg: bool, y1: real, s1: Side, y2: real, s2: Side)
    requires Magnitude(y1, s1) && Magnitude(y2, s2)
    requires y1 < y2 || (y1 == y2 && s1 <= s2)
    ensures RoundMagnitude(fmt, mode, neg, y1, s1) <= RoundMagnitude(fmt, mode, neg, y2, s2) <= fmt.Infinity()
  {
    RoundIndexMonotone(fmt, mode, neg, y1, s1, y2, s2);
  }

  /** The sign and sided magnitude that Round works on. */
  function Negative(v: Mpfr, side: Side): bool
    requires !v.NaN?
  {
    match v
    case Inf(neg) => neg
    case Zero(neg) => if side == 0 then neg else side < 0
    case Finite(value) => value < 0.0
  }

  function SidedMagnitude(v: Mpfr, side: Side): (r: (real, Side))
    requires v.Valid() && (v.Zero? || v.Finite?)
    ensures Magnitude(r.0, r.1)
  {
    if v.Zero? then (0.0, if side == 0 then 0 else 1)
    else (Abs(v.value), if v.value < 0.0 then -side else side)
  }

  /** Rounding preserves the order of values with sides. */
  lemma RoundMonotone(fmt: Format, mode: nat, a: Mpfr, s: Side, b: Mpfr, t: Side)
    requires a.Valid() && b.Valid() && Precedes(a, s, b, t)
    ensures Key(fmt, Round(fmt, mode, a, s)) <= Key(fmt, Round(fmt, mode, b, t))
  {
    BitsOfRound(fmt, mode, a, s);
    BitsOfRound(fmt, mode, b, t);
    if !a.Inf? && !b.Inf? && Negative(a, s) == Negative(b, t) {
      var (y1, s1) := SidedMagnitude(a, s);
      var (y2, s2) := SidedMagnitude(b, t);
      if Negative(a, s) {
        RoundMagnitudeMonotone(fmt, mode, true, y2, s2, y1, s1);
      } else {
        RoundMagnitudeMonotone(fmt, mode, false, y1, s1, y2, s2);
      }
    }
  }

  lemma BitsOfRound(fmt: Format, mode: nat, v: Mpfr, side: Side)
    requires v.Valid() && !v.NaN?
    ensures v.Inf? ==> Round(fmt, mode, v, side) == Pack(fmt, v.neg, fmt.Infinity())
    ensures !v.Inf? ==> var (y, s) := SidedMagnitude(v, side);
      && Round(fmt, mode, v, side) == Pack(fmt, Negative(v, side), RoundMagnitude(fmt, mode, Negative(v, side), y, s))
      && RoundMagnitude(fmt, mode, Negative(v, side), y, s) <= fmt.Infinity()
  {
  }

  lemma KeyInjective(fmt: Format, a: nat, b: nat)
    requires Key(fmt, a) == Key(fmt, b)
    ensures a == b
  {
  }

  // ----- The loop -----

  /** A directed evaluation: the value and whether it differs from the exact result. */
  datatype Evaluation = Evaluation(value: Mpfr, inexact: bool)

  /** The two directed evaluations at one precision. */
  datatype Bounds = Bounds(lower: Evaluation, upper: Evaluation)

  /**
   The exact result of an operation. An exact zero that comes from cancelling operands
   has the sign that IEEE 754-2019 section 6.3 gives it, which depends on the direction.
   */
  datatype Exact = Exact(x: Mpfr, cancelled: bool)

  predicate StrictlyBelow(a: Mpfr, b: Mpfr) {
    if a.Inf? then a.neg && b != a
    else if b.Inf? then !b.neg
    else !a.NaN? && !b.NaN? && RealOf(a) < RealOf(b)
  }

  /** What the arbitrary-precision library promises of its directed evaluations. */
  predicate Encloses(b: Bounds, e: Exact) {
    && b.lower.value.Valid() && b.upper.value.Valid()
    && match e.x
       case NaN => b.lower.value.NaN? && b.upper.value.NaN?
       case Zero(neg) => b == if e.cancelled then Bounds(Evaluation(Zero(true), false), Evaluation(Zero(false), false))
                              else Bounds(Evaluation(e.x, false), Evaluation(e.x, false))
       case _ =>
         && (if b.lower.inexact then StrictlyBelow(b.lower.value, e.x) else b.lower.value == e.x)
         && (if b.upper.inexact then StrictlyBelow(e.x, b.upper.value) else b.upper.value == e.x)
  }

  /** The bits the operation must give. */
  function CorrectBits(fmt: Format, mode: nat, e: Exact): nat
    requires e.x.Valid()
  {
    if e.x.Zero? then Pack(fmt, if e.cancelled then mode == 2 else e.x.neg, 0)
    else Round(fmt, mode, e.x, 0)
  }

  function LowerSide(b: Bounds): Side {
    if b.lower.inexact then 1 else 0
  }

  function UpperSide(b: Bounds): Side {
    if b.upper.inexact then -1 else 0
  }

  /** Bounds that round to the same bits round to the correct bits. */
  lemma AgreeingBoundsAreCorrect(fmt: Format, mode: nat, b: Bounds, e: Exact)
    requires e.x.Valid() && !e.x.Zero? && Encloses(b, e)
    requires Round(fmt, mode, b.lower.value, LowerSide(b)) == Round(fmt, mode, b.upper.value, UpperSide(b))
    ensures Round(fmt, mode, b.lower.value, LowerSide(b)) == CorrectBits(fmt, mode, e)
  {
    if !e.x.NaN? {
      RoundMonotone(fmt, mode, b.lower.value, LowerSide(b), e.x, 0);
      RoundMonotone(fmt, mode, e.x, 0, b.upper.value, UpperSide(b));
      KeyInjective(fmt, Round(fmt, mode, b.lower.value, LowerSide(b)), Round(fmt, mode, e.x, 0));
    }
  }

  lemma ZeroBits(fmt: Format, mode: nat, neg: bool)
    ensures Round(fmt, mode, Zero(neg), 0) == Pack(fmt, neg, 0)
  {
    ZeroRounds(fmt, mode, neg, 0);
  }

  datatype Operation = Add | Sub | Mul | Div | Fma | Sin | Cos | Tanh | Sigmoid | Exp | Exp2
                     | Log | Log2 | Sqrt | Rcp | Rsqrt

  /** The value 2^e in units of 2^-149. */
  function Power(e: int): (r: real)
    ensures r > 0.0
  {
    RealPow2(e + 149)
  }

  /** Arguments so large that the result is known up to rounding. */
  predicate TakesShortcut(operation: Operation, a: Mpfr) {
    && (operation.Exp? || operation.Exp2? || operation.Sigmoid? || operation.Tanh?)
    && a.Finite? && Abs(a.value) > 256.0 * Power(0)
  }

  /** What is true of the exact result for such arguments. */
  predicate ShortcutFacts(operation: Operation, a: Mpfr, x: Mpfr)
    requires a.Finite?
  {
    && x.Finite?
    && if operation.Tanh? then (x.value < 0.0) == (a.value < 0.0) && JustBelowOne(Abs(x.value))
       else if a.value < 0.0 then 0.0 < x.value < Power(-256)
       else if operation.Sigmoid? then 0.0 < x.value && JustBelowOne(x.value)
       else x.value > Power(256)
  }

  predicate JustBelowOne(y: real) {
    Power(0) - Power(-64) < y < Power(0)
  }

  /** Magnitudes from 2^128 on round alike. */
  lemma HugeRounds(fmt: Format, mode: nat, neg: bool, y: real)
    requires y >= Power(128)
    ensures RoundMagnitude(fmt, mode, neg, y, 0) == OverflowMagnitude(fmt, mode, neg)
  {
    hide RoundMagnitude, OverflowMagnitude, RealPow2, InBinade;
    var e := SidedExponent(y, 0);
    HugeExponent(y, e, 277);
    OverflowRounds(fmt, mode, neg, y, 0, e);
  }

  lemma HugeExponent(y: real, e: int, top: int)
    requires InBinade(y, 0, e) && y >= RealPow2(top)
    ensures e + 149 > top
  {
    hide RealPow2;
    if e + 149 <= top {
      RealPow2Monotone(e + 149, top);
    }
  }

  /** Magnitudes below half the least positive number round alike. */
  lemma TinyRounds(fmt: Format, mode: nat, neg: bool, y: real)
    requires 0.0 < y < 0.5
    ensures RoundMagnitude(fmt, mode, neg, y, 0) == if RoundsUp(mode, neg, true, -1, false) then 1 else 0
  {
    GridStep(fmt, 0);
    assert Grid(fmt, 0) == 0 && Grid(fmt, 1) >= 1;
    BracketsUnique(fmt, FloorIndex(fmt, y, 0), 0, y, 0);
  }

  lemma TopSignificand(fmt: Format, k: nat, e: nat)
    requires e == k + 24
    ensures 2 * fmt.Hidden() * (fmt.Unit() * Pow2(k)) == Pow2(e)
  {
    Pow2TwentyFour(24);
    Pow2Add(24, k);
    TopValue(fmt, Pow2(k));
    hide Pow2, Format.Hidden, Format.Unit;
  }

  /** Magnitudes within half a unit in the last place below a power of two round like that power minus an infinitesimal. */
  lemma NearTopRounds(fmt: Format, mode: nat, neg: bool, k: nat, top: nat, y: real)
    requires k <= 253 && top == 2 * fmt.Hidden() * (fmt.Unit() * Pow2(k))
    requires top as real - 0.5 * Pow2(k) as real < y < top as real
    ensures RoundMagnitude(fmt, mode, neg, y, 0) == RoundMagnitude(fmt, mode, neg, top as real, -1)
  {
    var low := (2 * fmt.Hidden() - 1) * (fmt.Unit() * Pow2(k));
    hide HalfSign, AtMost, RoundMagnitude, RoundsUp, Pow2, Magnitude, Format.Hidden, Format.Unit;
    LastUnit(fmt, k, top);
    UpperHalf(low, top, Pow2(k), y);
    UnderTop(low, top);
    LastUnitRounds(fmt, mode, neg, k, top, y, 0);
    LastUnitRounds(fmt, mode, neg, k, top, top as real, -1);
  }

  /** The last unit below the top of a binade. */
  lemma LastUnit(fmt: Format, k: nat, top: nat)
    requires top == 2 * fmt.Hidden() * (fmt.Unit() * Pow2(k))
    ensures var w := fmt.Unit() * Pow2(k); var low := (2 * fmt.Hidden() - 1) * w;
      top == low + w && w >= Pow2(k) && fmt.Hidden() * w <= low
  {
    var h, w := fmt.Hidden(), fmt.Unit() * Pow2(k);
    WeightAtLeast(fmt, k);
    MulMonotone(h, 2 * h - 1, w);
  }

  /** A magnitude in the upper half of that unit. */
  lemma LastUnitRounds(fmt: Format, mode: nat, neg: bool, k: nat, top: nat, y: real, side: Side)
    requires k <= 253 && top == 2 * fmt.Hidden() * (fmt.Unit() * Pow2(k)) && Magnitude(y, side)
    requires var low := (2 * fmt.Hidden() - 1) * (fmt.Unit() * Pow2(k));
      AtMost(low, y, side) && !AtMost(top, y, side) && (y != low as real || side != 0) && HalfSign(low, top, y, side) == 1
    ensures RoundMagnitude(fmt, mode, neg, y, side)
         == k * fmt.Hidden() + if RoundsUp(mode, neg, true, 1, true) then 2 * fmt.Hidden() else 2 * fmt.Hidden() - 1
  {
    var h, w := fmt.Hidden(), fmt.Unit() * Pow2(k);
    LastUnit(fmt, k, top);
    AtMostBelow(h * w, (2 * h - 1) * w, y, side);
    assert 2 * h - 1 + 1 == 2 * h;
    hide HalfSign, AtMost, RoundMagnitude, RoundsUp, Pow2, Magnitude;
    RoundedSignificand(fmt, mode, neg, y, side, k, 2 * h - 1, true, 1);
  }

  lemma UpperHalf(low: nat, top: nat, p: nat, y: real)
    requires low + p <= top && top as real - 0.5 * p as real < y < top as real
    ensures AtMost(low, y, 0) && !AtMost(top, y, 0) && y != low as real && HalfSign(low, top, y, 0) == 1 && Magnitude(y, 0)
  {
  }

  lemma UnderTop(low: nat, top: nat)
    requires low < top
    ensures AtMost(low, top as real, -1) && !AtMost(top, top as real, -1) && HalfSign(low, top, top as real, -1) == 1
    ensures Magnitude(top as real, -1)
  {
  }

  lemma AtMostBelow(g: nat, low: nat, y: real, side: Side)
    requires g <= low && AtMost(low, y, side)
    ensures AtMost(g, y, side)
  {
  }

  lemma WeightAtLeast(fmt: Format, k: nat)
    ensures fmt.Unit() * Pow2(k) >= Pow2(k)
  {
    MulMonotone(1, fmt.Unit(), Pow2(k));
  }

  /** The values just below one lie in the upper half of the last unit of their binade. */
  lemma JustBelowOneIsNearTop(fmt: Format, y: real, one: real) returns (k: nat)
    requires JustBelowOne(y) && one == Power(0)
    ensures k < 126 && one == (2 * fmt.Hidden() * (fmt.Unit() * Pow2(k))) as real
    ensures 0.0 < one - 0.5 * Pow2(k) as real < y < one
  {
    k :| 125 <= k < 126;
    TopSignificand(fmt, k, 149);
    MarginIsSmall(k);
    BelowOne(k);
  }

  lemma MarginIsSmall(k: nat)
    requires k >= 87
    ensures Power(-64) < 0.5 * Pow2(k) as real
  {
    Pow2Monotone(87, k);
  }

  lemma BelowOne(k: nat)
    requires k < 149
    ensures Pow2(k) as real < Power(0)
  {
    Pow2Monotone(k + 1, 149);
  }

  /** One pass of the loop: the bits, if the two bounds settle them. */
  method Attempt(b: Bounds, fmt: Format, mode: nat, ghost e: Exact) returns (bits: nat, settled: bool)
    requires e.x.Valid() && Encloses(b, e)
    ensures if settled then bits == CorrectBits(fmt, mode, e) else Disagree(fmt, mode, b)
    ensures e.x.Zero? ==> settled
  {
    hide Encloses, CorrectBits, Round;
    if b.lower.value.Zero? && b.upper.value.Zero? && !b.lower.inexact && !b.upper.inexact {
      ZeroEnclosed(fmt, mode, b, e);
      bits := MpfrToValue(if mode == 2 then b.lower.value else b.upper.value, fmt, mode, 0);
      return bits, true;
    }
    BoundsUsable(b, e);
    var low := MpfrToValue(b.lower.value, fmt, mode, LowerSide(b));
    var high := MpfrToValue(b.upper.value, fmt, mode, UpperSide(b));
    if low == high {
      AgreeingBoundsAreCorrect(fmt, mode, b, e);
      return low, true;
    }
    return low, false;
  }

  /** The whole evaluation; precision doubles at most limit times. */
  method MathResult(operation: Operation, a: Mpfr, evaluate: nat -> Bounds, fmt: Format, mode: nat, limit: nat,
                    ghost e: Exact) returns (bits: nat, closed: bool)
    requires a.Valid() && e.x.Valid()
    requires forall precision :: Encloses(evaluate(precision), e)
    requires operation in {Exp, Exp2, Sigmoid, Tanh} && a.Finite? && (a.value > 256.0 * Power(0) || a.value < -256.0 * Power(0)) ==>
               ShortcutFacts(operation, a, e.x)
    ensures closed ==> bits == CorrectBits(fmt, mode, e)
    ensures operation in {Exp, Exp2, Sigmoid, Tanh} && a.Finite? && Abs(a.value) > 256.0 * Power(0) ==> closed
    ensures e.x.Zero? ==> closed
    ensures !closed ==> forall i: nat :: i <= limit ==> Disagree(fmt, mode, evaluate(64 * Pow2(i)))
  {
    hide Encloses, CorrectBits, ShortcutFacts, Round, Disagree, Pow2, Power;
    if TakesShortcut(operation, a) {
      bits := ShortcutResult(operation, a, fmt, mode, e.x);
      ShortcutBits(operation, a, fmt, mode, e);
      return bits, true;
    }
    var precision, doublings := 64, 0;
    Doublings(0);
    while true
      invariant precision == 64 * Pow2(doublings) && doublings <= limit
      invariant forall i: nat :: i < doublings ==> Disagree(fmt, mode, evaluate(64 * Pow2(i)))
      decreases limit - doublings
    {
      bits, closed := Attempt(evaluate(precision), fmt, mode, e);
      if closed || doublings == limit {
        return;
      }
      Doublings(doublings);
      precision, doublings := precision * 2, doublings + 1;
    }
  }

  lemma Doublings(n: nat)
    ensures Pow2(0) == 1 && Pow2(n + 1) == 2 * Pow2(n)
  {
  }

  predicate Disagree(fmt: Format, mode: nat, b: Bounds)
  {
    && b.lower.value.Valid() && b.upper.value.Valid()
    && Round(fmt, mode, b.lower.value, LowerSide(b)) != Round(fmt, mode, b.upper.value, UpperSide(b))
  }

  lemma ZeroEnclosed(fmt: Format, mode: nat, b: Bounds, e: Exact)
    requires e.x.Valid() && Encloses(b, e)
    requires b.lower.value.Zero? && b.upper.value.Zero? && !b.lower.inexact && !b.upper.inexact
    ensures b.lower.value.Valid() && b.upper.value.Valid()
    ensures Round(fmt, mode, if mode == 2 then b.lower.value else b.upper.value, 0) == CorrectBits(fmt, mode, e)
  {
    assert e.x.Zero?;
    ZeroBits(fmt, mode, false);
    ZeroBits(fmt, mode, true);
  }

  lemma ShortcutBits(operation: Operation, a: Mpfr, fmt: Format, mode: nat, e: Exact)
    requires a.Finite? && e.x.Valid() && ShortcutFacts(operation, a, e.x)
    ensures CorrectBits(fmt, mode, e) == Round(fmt, mode, e.x, 0)
  {
  }

  lemma BoundsUsable(b: Bounds, e: Exact)
    requires e.x.Valid() && Encloses(b, e)
    requires !(b.lower.value.Zero? && b.upper.value.Zero? && !b.lower.inexact && !b.upper.inexact)
    ensures b.lower.value.Valid() && b.upper.value.Valid() && !e.x.Zero?
  {
  }

  lemma SaturatedRounds(fmt: Format, mode: nat, x: Mpfr, k: nat, one: real)
    requires x.Finite? && k <= 253 && one == (2 * fmt.Hidden() * (fmt.Unit() * Pow2(k))) as real
    requires 0.0 < one - 0.5 * Pow2(k) as real < Abs(x.value) < one
    ensures Round(fmt, mode, x, 0)
         == Round(fmt, mode, Finite(if x.value < 0.0 then -one else one), if x.value < 0.0 then 1 else -1)
  {
    hide RoundMagnitude, Format.Hidden, Format.Unit, Pow2;
    NearTopRounds(fmt, mode, x.value < 0.0, k, 2 * fmt.Hidden() * (fmt.Unit() * Pow2(k)), Abs(x.value));
  }

  lemma VanishingRounds(fmt: Format, mode: nat, x: Mpfr, tiny: real)
    requires x.Finite? && 0.0 < x.value < 0.5 && 0.0 < tiny < 0.5
    ensures Round(fmt, mode, x, 0) == Round(fmt, mode, Finite(tiny), 0)
  {
    TinyRounds(fmt, mode, false, x.value);
    TinyRounds(fmt, mode, false, tiny);
  }

  lemma ExplodingRounds(fmt: Format, mode: nat, x: Mpfr, huge: real)
    requires x.Finite? && x.value > Power(256) && huge == Power(512)
    ensures Round(fmt, mode, x, 0) == Round(fmt, mode, Finite(huge), 0)
  {
    RealPow2Monotone(277, 405);
    RealPow2Monotone(277, 661);
    HugeRounds(fmt, mode, false, x.value);
    HugeRounds(fmt, mode, false, huge);
  }

  lemma TinyPower(e: int)
    requires e <= -151
    ensures 0.0 < Power(e) < 0.5
  {
    RealPow2Monotone(e + 149, -2);
  }

  /** The results for large arguments. */
  method ShortcutResult(operation: Operation, a: Mpfr, fmt: Format, mode: nat, ghost x: Mpfr) returns (bits: nat)
    requires TakesShortcut(operation, a) && x.Valid() && ShortcutFacts(operation, a, x)
    ensures bits == Round(fmt, mode, x, 0)
  {
    var negative := a.value < 0.0;
    if operation.Tanh? || (operation.Sigmoid? && !negative) {
      var one := Power(0);
      ghost var k := JustBelowOneIsNearTop(fmt, Abs(x.value), one);
      bits := SaturatedResult(one, negative, fmt, mode, x, k);
    } else if negative {
      bits := VanishingResult(fmt, mode, x);
    } else {
      var huge := Power(512);
      ExplodingRounds(fmt, mode, x, huge);
      bits := MpfrToValue(Finite(huge), fmt, mode, 0);
    }
  }

  method SaturatedResult(one: real, negative: bool, fmt: Format, mode: nat, ghost x: Mpfr, ghost k: nat)
    returns (bits: nat)
    requires x.Finite? && negative == (x.value < 0.0)
    requires k <= 253 && one == (2 * fmt.Hidden() * (fmt.Unit() * Pow2(k))) as real
    requires 0.0 < one - 0.5 * Pow2(k) as real < Abs(x.value) < one
    ensures bits == Round(fmt, mode, x, 0)
  {
    SaturatedRounds(fmt, mode, x, k, one);
    bits := MpfrToValue(Finite(if negative then -one else one), fmt, mode, if negative then 1 else -1);
  }

  method VanishingResult(fmt: Format, mode: nat, ghost x: Mpfr) returns (bits: nat)
    requires x.Finite? && 0.0 < x.value < Power(-256)
    ensures bits == Round(fmt, mode, x, 0)
  {
    var tiny := Power(-512);
    TinyPower(-512);
    TinyPower(-256);
    VanishingRounds(fmt, mode, x, tiny);
    bits := MpfrToValue(Finite(tiny), fmt, mode, 0);
  }
}
