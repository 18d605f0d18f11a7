/**
 Rounding to a vector-unit format: the reference definition over the grid of
 representable magnitudes, and the shift-and-scale conversion proved against it.

 A conversion takes a value and a side in {-1, 0, 1}. A side stands for an
 infinitesimal: (v, 1) is just above v and (v, -1) is just below it.
 */
module VuRound {
  import opened Powers
  import opened VuFormat

  /** An arbitrary-precision value. Finite values are in units of 2^-149. */
  datatype Mpfr = NaN | Inf(neg: bool) | Zero(neg: bool) | Finite(value: real) {
    predicate Valid() {
      Finite? ==> value != 0.0
    }
  }

  type Side = s: int | -1 <= s <= 1

  // ----- The reference definition -----

  /** Whether g <= y + side * epsilon. */
  predicate AtMost(g: nat, y: real, side: Side) {
    g as real < y || (g as real == y && side >= 0)
  }

  predicate Brackets(fmt: Format, f: nat, y: real, side: Side) {
    AtMost(Grid(fmt, f), y, side) && !AtMost(Grid(fmt, f + 1), y, side)
  }

  predicate Magnitude(y: real, side: Side) {
    y > 0.0 || (y == 0.0 && side >= 0)
  }

  /** The greatest representable magnitude at most y + side * epsilon. */
  function FloorIndex(fmt: Format, y: real, side: Side): (f: nat)
    requires Magnitude(y, side)
    ensures Brackets(fmt, f, y, side)
  {
    FloorIndexFrom(fmt, y, side, 0)
  }

  function FloorIndexFrom(fmt: Format, y: real, side: Side, n: nat): (f: nat)
    requires AtMost(Grid(fmt, n), y, side)
    ensures Brackets(fmt, f, y, side)
    decreases y.Floor + 1 - n
  {
    if AtMost(Grid(fmt, n + 1), y, side) then
      GridAtLeastIndex(fmt, n + 1);
      FloorIndexFrom(fmt, y, side, n + 1)
    else n
  }

  /** The sign of y + side * epsilon - (lo + hi) / 2. */
  function HalfSign(lo: nat, hi: nat, y: real, side: Side): int {
    if 2.0 * y < (lo + hi) as real then -1 else if 2.0 * y > (lo + hi) as real then 1 else side
  }

  /** Whether a mode goes to the upper neighbour; half compares with the midpoint. */
  predicate RoundsUp(mode: nat, neg: bool, inexact: bool, half: int, odd: bool) {
    match mode
    case 1 => false
    case 2 => neg && inexact
    case 3 => !neg && inexact
    case 4 => half >= 0
    case 5 => half > 0 || (half == 0 && !odd)
    case _ => half > 0 || (half == 0 && odd)
  }

  /** The rounded magnitude as if the exponent range had no upper end. */
  function RoundIndex(fmt: Format, mode: nat, neg: bool, y: real, side: Side): nat
    requires Magnitude(y, side)
  {
    var f := FloorIndex(fmt, y, side);
    var lo, hi := Grid(fmt, f), Grid(fmt, f + 1);
    var inexact := y != lo as real || side != 0;
    if RoundsUp(mode, neg, inexact, HalfSign(lo, hi, y, side), f % 2 == 1) then f + 1 else f
  }

  function OverflowMagnitude(fmt: Format, mode: nat, neg: bool): nat {
    if mode == 1 || (mode == 2 && !neg) || (mode == 3 && neg) then fmt.Infinity() - 1 else fmt.Infinity()
  }

  function RoundMagnitude(fmt: Format, mode: nat, neg: bool, y: real, side: Side): nat
    requires Magnitude(y, side)
  {
    var n := RoundIndex(fmt, mode, neg, y, side);
    if n >= fmt.Infinity() then OverflowMagnitude(fmt, mode, neg) else n
  }

  function Pack(fmt: Format, neg: bool, magnitude: nat): nat {
    (if neg then fmt.SignWeight() else 0) + magnitude
  }

  function Abs(v: real): real {
    if v < 0.0 then -v else v
  }

  /** The correctly rounded bit pattern of a value with a side. */
  function Round(fmt: Format, mode: nat, v: Mpfr, side: Side): nat
    requires v.Valid()
  {
    match v
    case NaN => fmt.QuietNaN()
    case Inf(neg) => Pack(fmt, neg, fmt.Infinity())
    case Zero(neg) =>
      var negative := if side == 0 then neg else side < 0;
      Pack(fmt, negative, RoundMagnitude(fmt, mode, negative, 0.0, if side == 0 then 0 else 1))
    case Finite(value) =>
      var negative := value < 0.0;
      Pack(fmt, negative, RoundMagnitude(fmt, mode, negative, Abs(value), if negative then -side else side))
  }

  // ----- Facts about the reference definition -----

  lemma BracketsUnique(fmt: Format, f: nat, g: nat, y: real, side: Side)
    requires Brackets(fmt, f, y, side) && Brackets(fmt, g, y, side)
    ensures f == g
  {
    if f + 1 < g {
      GridMonotone(fmt, f + 1, g);
    } else if g + 1 < f {
      GridMonotone(fmt, g + 1, f);
    }
  }

  // ----- The conversion -----

  function RealPow2(n: int): (r: real)
    ensures r > 0.0
  {
    if n >= 0 then Pow2(n) as real else 1.0 / Pow2(-n) as real
  }

  lemma RealPow2Double(n: int)
    ensures RealPow2(n + 1) == 2.0 * RealPow2(n)
  {
    if n < -1 {
      var p := Pow2(-n - 1);
      assert Pow2(-n) == 2 * p;
      assert 2.0 * (1.0 / (2 * p) as real) == 1.0 / p as real;
    }
  }

  lemma ReciprocalHalves(y: real)
    requires 0.0 < y < 0.5
    ensures 1.0 / (2.0 * y) == (1.0 / y) / 2.0 && 1.0 / y > 2.0
  {
  }

  /** The exponent of a positive magnitude given in units of 2^-149. */
  function MpfrExp(y: real): (e: int)
    requires y > 0.0
    ensures RealPow2(e + 148) <= y < RealPow2(e + 149)
    decreases if y < 1.0 then (1.0 / y).Floor else 0
  {
    if y >= 1.0 then
      BitLength(y.Floor) - 149
    else if y >= 0.5 then
      assert RealPow2(-1) == 0.5;
      -149
    else
      ReciprocalHalves(y);
      var e := MpfrExp(2.0 * y);
      RealPow2Double(e + 147);
      RealPow2Double(e + 148);
      e - 1
  }

  lemma Pow2Sixteen()
    ensures Pow2(16) == 0x10000
  {
    assert Pow2(4) == 16;
    Pow2Add(4, 4);
    Pow2Add(8, 8);
  }

  lemma WeightOfShift(fmt: Format, k: nat)
    ensures Pow2(k + 23 - fmt.FractionBits()) == fmt.Unit() * Pow2(k)
  {
    if fmt == Bf16 {
      Pow2Sixteen();
      Pow2Add(k, 16);
    }
  }

  /** A significand with its weight locates the magnitude on the grid. */
  lemma Located(fmt: Format, k: nat, sig: nat, y: real, side: Side)
    requires Magnitude(y, side)
    requires sig < 2 * fmt.Hidden() && (k == 0 || fmt.Hidden() <= sig)
    requires AtMost(sig * (fmt.Unit() * Pow2(k)), y, side)
    requires !AtMost((sig + 1) * (fmt.Unit() * Pow2(k)), y, side)
    ensures FloorIndex(fmt, y, side) == k * fmt.Hidden() + sig
    ensures Grid(fmt, k * fmt.Hidden() + sig) == sig * (fmt.Unit() * Pow2(k))
    ensures Grid(fmt, k * fmt.Hidden() + sig + 1) == (sig + 1) * (fmt.Unit() * Pow2(k))
  {
    GridLinear(fmt, k, sig);
    GridLinear(fmt, k, sig + 1);
    BracketsUnique(fmt, FloorIndex(fmt, y, side), k * fmt.Hidden() + sig, y, side);
  }

  /** The comparison of the scaled fraction with one half is the comparison with the midpoint. */
  lemma HalfOfScaled(sig: nat, w: nat, y: real, frac: real, side: Side)
    requires w > 0 && y == (sig as real + frac) * w as real
    ensures HalfSign(sig * w, (sig + 1) * w, y, side) == if frac < 0.5 then -1 else if frac > 0.5 then 1 else side
    ensures frac > 0.0 ==> y > (sig * w) as real
    ensures frac == 0.0 ==> y == (sig * w) as real
    ensures frac < 1.0 ==> y < ((sig + 1) * w) as real
  {
    var low := sig * w;
    var high := (sig + 1) * w;
    assert high == low + w;
    var part := frac * w as real;
    assert sig as real * w as real == low as real;
    assert y == low as real + part;
    ScaleOrder(frac, w as real, part);
    HalfSignAt(low, high, w, y, part, side);
    assert frac < 1.0 ==> y < high as real;
  }

  lemma HalfSignAt(low: nat, high: nat, w: nat, y: real, part: real, side: Side)
    requires high == low + w && y == low as real + part
    ensures HalfSign(low, high, y, side)
         == if part + part < w as real then -1 else if part + part > w as real then 1 else side
  {
  }

  lemma ScaleOrder(f: real, w: real, t: real)
    requires w > 0.0 && t == f * w
    ensures f < 0.5 <==> t + t < w
    ensures f > 0.5 <==> t + t > w
    ensures f > 0.0 <==> t > 0.0
    ensures f == 0.0 ==> t == 0.0
    ensures f < 1.0 <==> t < w
  {
    var belowHalf, belowOne := 0.5 - f, 1.0 - f;
    ProductSign(belowHalf, w);
    assert belowHalf * w == 0.5 * w - t;
    ProductSign(f, w);
    ProductSign(belowOne, w);
    assert belowOne * w == w - t;
  }

  lemma ProductSign(a: real, b: real)
    requires b > 0.0
    ensures a > 0.0 <==> a * b > 0.0
    ensures a < 0.0 <==> a * b < 0.0
  {
    if a < 0.0 {
      assert (-a) * b > 0.0;
      assert a * b == -((-a) * b);
    }
  }

  /** y + side * epsilon lies in the binade with exponent e. */
  predicate InBinade(y: real, side: Side, e: int) {
    && (RealPow2(e + 148) < y || (RealPow2(e + 148) == y && side >= 0))
    && (y < RealPow2(e + 149) || (y == RealPow2(e + 149) && side < 0))
  }

  lemma {:induction false} RealPow2Monotone(m: int, n: int)
    requires m <= n
    ensures RealPow2(m) <= RealPow2(n)
    decreases n - m
  {
    if m < n {
      RealPow2Double(n - 1);
      RealPow2Monotone(m, n - 1);
    }
  }

  /** The significand range that a shift leaves. */
  lemma SignificandRange(fmt: Format, y: real, side: Side, exponent: int, k: nat)
    requires y > 0.0 && InBinade(y, side, exponent)
    requires k == if exponent < -125 then 0 else exponent + 125
    ensures !AtMost(2 * fmt.Hidden() * (fmt.Unit() * Pow2(k)), y, side)
    ensures k > 0 ==> AtMost(fmt.Hidden() * (fmt.Unit() * Pow2(k)), y, side)
  {
    var p := Pow2(k);
    TopValue(fmt, p);
    assert fmt.Hidden() * (fmt.Unit() * p) == 0x800000 * p;
    Pow2TwentyFour(24);
    Pow2Add(24, k);
    assert Pow2(24 + k) == 2 * Pow2(23 + k);
    hide Pow2, Format.Hidden, Format.Unit;
    RealPow2Monotone(exponent + 149, 24 + k);
  }

  lemma FloorOfQuotient(y: real, w: nat, sig: int, frac: real)
    requires w > 0 && y > 0.0
    requires sig == (y / w as real).Floor && frac == y / w as real - sig as real
    ensures 0 <= sig && 0.0 <= frac < 1.0
    ensures y == (sig as real + frac) * w as real
    ensures frac == 0.0 ==> sig > 0
  {
    var q := y / w as real;
    assert q * w as real == y;
    if q <= 0.0 {
      ProductSign(q, w as real);
    }
  }

  /** The position of a significand after its side has been taken into account. */
  lemma SignificandBounds(h: nat, w: nat, y: real, side: Side, k: nat, sig: nat)
    requires AtMost(sig * w, y, side) && !AtMost((sig + 1) * w, y, side)
    requires !AtMost(2 * h * w, y, side)
    requires k > 0 ==> AtMost(h * w, y, side)
    ensures sig < 2 * h && (k == 0 || h <= sig)
  {
    SmallerMultiple(sig, 2 * h, w, y, side);
    if k > 0 {
      SmallerMultiple(h, sig + 1, w, y, side);
    }
  }

  lemma SmallerMultiple(a: nat, b: nat, w: nat, y: real, side: Side)
    requires AtMost(a * w, y, side) && !AtMost(b * w, y, side)
    ensures a < b
  {
    if b <= a {
      MulMonotone(b, a, w);
    }
  }

  /** Splits a magnitude into an integer significand and what the rounding needs to know of the rest. */
  method Split(y: real, side: Side, w: nat) returns (significand: nat, fractionNonzero: bool, halfway: int)
    requires y > 0.0 && w > 0
    ensures AtMost(significand * w, y, side) && !AtMost((significand + 1) * w, y, side)
    ensures fractionNonzero == (y != (significand * w) as real || side != 0)
    ensures halfway == HalfSign(significand * w, (significand + 1) * w, y, side)
  {
    var scaled := y / w as real;
    var floor := scaled.Floor;
    scaled := scaled - floor as real;
    FloorOfQuotient(y, w, floor, scaled);
    HalfOfScaled(floor, w, y, scaled, side);
    significand := floor;
    fractionNonzero := scaled != 0.0;
    halfway := if scaled < 0.5 then -1 else if scaled > 0.5 then 1 else 0;
    if !fractionNonzero && side != 0 {
      fractionNonzero := true;
      if side < 0 {
        significand := significand - 1;
        halfway := 1;
        HalfBelow(significand, w, y);
      }
    } else if halfway == 0 {
      halfway := side;
    }
  }

  /** Scale, split into significand and fraction, round and repack. */
  method ScaleAndRound(fmt: Format, mode: nat, negative: bool, y: real, side: Side, exp: int) returns (magnitude: nat)
    requires y > 0.0 && InBinade(y, side, exp) && exp <= 128
    ensures magnitude == RoundMagnitude(fmt, mode, negative, y, side)
  {
    var fractionBits: int := fmt.FractionBits();
    var shift := exp - fractionBits - 1;
    if shift < -126 - fractionBits {
      shift := -126 - fractionBits;
    }
    ghost var k := shift + 126 + fractionBits;
    WeightOfShift(fmt, k);
    SignificandRange(fmt, y, side, exp, k);
    var significand, fractionNonzero, halfway := Split(y, side, Pow2(shift + 149));
    RoundedSignificand(fmt, mode, negative, y, side, k, significand, fractionNonzero, halfway);
    if RoundsUp(mode, negative, fractionNonzero, halfway, significand % 2 == 1) {
      significand := significand + 1;
    }
    magnitude := Repack(fmt, shift, significand);
  }

  lemma RoundedSignificand(fmt: Format, mode: nat, neg: bool, y: real, side: Side,
                           k: nat, sig: nat, inexact: bool, half: int)
    requires Magnitude(y, side) && k <= 253
    requires !AtMost(2 * fmt.Hidden() * (fmt.Unit() * Pow2(k)), y, side)
    requires k > 0 ==> AtMost(fmt.Hidden() * (fmt.Unit() * Pow2(k)), y, side)
    requires AtMost(sig * (fmt.Unit() * Pow2(k)), y, side) && !AtMost((sig + 1) * (fmt.Unit() * Pow2(k)), y, side)
    requires inexact == (y != (sig * (fmt.Unit() * Pow2(k))) as real || side != 0)
    requires half == HalfSign(sig * (fmt.Unit() * Pow2(k)), (sig + 1) * (fmt.Unit() * Pow2(k)), y, side)
    ensures sig < 2 * fmt.Hidden() && (k == 0 || fmt.Hidden() <= sig)
    ensures RoundMagnitude(fmt, mode, neg, y, side)
         == k * fmt.Hidden() + if RoundsUp(mode, neg, inexact, half, sig % 2 == 1) then sig + 1 else sig
  {
    hide AtMost, HalfSign, RoundsUp, Pow2, OverflowMagnitude, RoundIndex, RoundMagnitude, Grid, Magnitude;
    OverflowsUp(fmt, mode, neg, inexact, half, sig % 2 == 1);
    SignificandBounds(fmt.Hidden(), fmt.Unit() * Pow2(k), y, side, k, sig);
    Located(fmt, k, sig, y, side);
    SameParity(fmt, k, sig);
    TopBinade(fmt, k);
    hide Format.Hidden, Format.Infinity, Format.Unit;
    RoundIndexIs(fmt, mode, neg, y, side);
    BelowTopRounds(fmt, mode, neg, y, side, k * fmt.Hidden() + sig, RoundsUp(mode, neg, inexact, half, sig % 2 == 1));
  }

  lemma RoundIndexIs(fmt: Format, mode: nat, neg: bool, y: real, side: Side)
    requires Magnitude(y, side)
    ensures var f := FloorIndex(fmt, y, side); var lo, hi := Grid(fmt, f), Grid(fmt, f + 1);
      RoundIndex(fmt, mode, neg, y, side)
      == if RoundsUp(mode, neg, y != lo as real || side != 0, HalfSign(lo, hi, y, side), f % 2 == 1) then f + 1 else f
  {
    hide Grid, FloorIndex, RoundsUp, HalfSign;
  }

  /** Below the last index a rounded index is the magnitude. */
  lemma BelowTopRounds(fmt: Format, mode: nat, neg: bool, y: real, side: Side, f: nat, up: bool)
    requires Magnitude(y, side) && RoundIndex(fmt, mode, neg, y, side) == (if up then f + 1 else f) && f < fmt.Infinity()
    requires up ==> OverflowMagnitude(fmt, mode, neg) == fmt.Infinity()
    ensures RoundMagnitude(fmt, mode, neg, y, side) == if up then f + 1 else f
  {
    hide RoundIndex, OverflowMagnitude, Format.Infinity;
  }

  lemma TopBinade(fmt: Format, k: nat)
    requires k <= 253
    ensures k * fmt.Hidden() + 2 * fmt.Hidden() <= fmt.Infinity()
  {
  }

  /** What rounds up overflows to infinity. */
  lemma OverflowsUp(fmt: Format, mode: nat, neg: bool, inexact: bool, half: int, odd: bool)
    ensures RoundsUp(mode, neg, inexact, half, odd) ==> OverflowMagnitude(fmt, mode, neg) == fmt.Infinity()
  {
  }

  lemma SameParity(fmt: Format, k: nat, sig: nat)
    ensures (k * fmt.Hidden() + sig) % 2 == sig % 2
  {
    EvenProduct(k, fmt.Hidden());
    EvenPlus(k * fmt.Hidden(), sig);
  }

  lemma EvenPlus(a: nat, b: nat)
    requires a % 2 == 0
    ensures (a + b) % 2 == b % 2
  {
  }

  lemma EvenProduct(k: nat, n: nat)
    requires n % 2 == 0
    ensures (k * n) % 2 == 0
  {
    assert k * n == 2 * (k * (n / 2));
  }

  lemma HalfBelow(sig: nat, w: nat, y: real)
    requires w > 0 && y == ((sig + 1) * w) as real
    ensures HalfSign(sig * w, (sig + 1) * w, y, -1) == 1
    ensures AtMost(sig * w, y, -1)
  {
    var low := sig * w;
    var high := (sig + 1) * w;
    assert high == low + w;
  }

  /** The exponent and fraction fields of a rounded significand. */
  function Repack(fmt: Format, shift: int, sig: nat): (magnitude: nat)
    requires -126 - fmt.FractionBits() <= shift <= 127 - fmt.FractionBits()
    requires sig <= 2 * fmt.Hidden()
    requires sig < fmt.Hidden() ==> shift == -126 - fmt.FractionBits()
    ensures magnitude == (shift + 126 + fmt.FractionBits()) * fmt.Hidden() + sig
  {
    if sig < fmt.Hidden() then sig
    else
      var carried := sig >= 2 * fmt.Hidden();
      var significand := if carried then sig / 2 else sig;
      var exponent := (if carried then shift + 1 else shift) + fmt.FractionBits() + 127;
      if exponent >= 255 then fmt.Infinity()
      else exponent * fmt.Hidden() + (significand - fmt.Hidden())
  }

  /** The conversion by scaling to an integer significand. */
  method MpfrToValue(v: Mpfr, fmt: Format, mode: nat, side: Side) returns (bits: nat)
    requires v.Valid()
    ensures bits == Round(fmt, mode, v, side)
  {
    if v.NaN? {
      return fmt.QuietNaN();
    }
    var negative := if v.Finite? then v.value < 0.0 else v.neg;
    if v.Zero? && side != 0 {
      negative := side < 0;
    }
    var sign := if negative then fmt.SignWeight() else 0;
    if v.Inf? {
      return sign + fmt.Infinity();
    }
    if v.Zero? {
      var up := side != 0 && ((mode == 2 && negative) || (mode == 3 && !negative));
      ZeroRounds(fmt, mode, negative, if side == 0 then 0 else 1);
      return sign + if up then 1 else 0;
    }

    var y := Abs(v.value);
    var magnitudeSide: Side := if negative then -side else side;
    var exponent := SidedExponent(y, magnitudeSide);
    if exponent > 128 {
      OverflowRounds(fmt, mode, negative, y, magnitudeSide, exponent);
      return sign + OverflowMagnitude(fmt, mode, negative);
    }
    var magnitude := ScaleAndRound(fmt, mode, negative, y, magnitudeSide, exponent);
    return sign + magnitude;
  }

  /** The exponent of a magnitude with its side: just below a power of two it is one less. */
  function SidedExponent(y: real, side: Side): (e: int)
    requires y > 0.0
    ensures InBinade(y, side, e)
  {
    var exponent := MpfrExp(y);
    if side < 0 && y == RealPow2(exponent - 1 + 149) then
      RealPow2Double(exponent + 147);
      exponent - 1
    else exponent
  }

  lemma ZeroRounds(fmt: Format, mode: nat, neg: bool, side: Side)
    requires side >= 0
    ensures RoundMagnitude(fmt, mode, neg, 0.0, side)
         == if side != 0 && ((mode == 2 && neg) || (mode == 3 && !neg)) then 1 else 0
  {
    GridStep(fmt, 0);
    assert Grid(fmt, 0) == 0;
    BracketsUnique(fmt, FloorIndex(fmt, 0.0, side), 0, 0.0, side);
  }

  lemma OverflowRounds(fmt: Format, mode: nat, neg: bool, y: real, side: Side, exponent: int)
    requires y > 0.0 && exponent > 128
    requires InBinade(y, side, exponent)
    ensures RoundMagnitude(fmt, mode, neg, y, side) == OverflowMagnitude(fmt, mode, neg)
  {
    hide Grid, RoundsUp, InBinade, OverflowMagnitude;
    AboveTop(fmt, y, side, exponent);
    var f := FloorIndex(fmt, y, side);
    if f + 1 < fmt.Infinity() {
      GridMonotone(fmt, f + 1, fmt.Infinity());
    }
  }

  lemma AboveTop(fmt: Format, y: real, side: Side, exponent: int)
    requires exponent > 128 && InBinade(y, side, exponent)
    ensures AtMost(Grid(fmt, fmt.Infinity()), y, side)
  {
    var k :| 253 <= k < 254;
    GridTop(fmt, k);
    hide Grid;
    Pow2Monotone(24 + k, exponent + 148);
    hide Pow2;
  }
}
