/**
 The reduction accumulator: a running sum in an arbitrary-precision register of 512 bits.
 The sum is exact at every step, so that finishing rounds once and the order of the
 terms does not matter.
 */
module VuSum {
  import opened Powers
  import opened VuFormat
  import opened VuRound
  import opened VuBf16

  const NEGATIVE_ZERO: Word := 0x8000_0000
  const POSITIVE_ZERO: Word := 0
  const PRECISION: nat := 512

  // ----- The library's addition toward minus infinity -----

  /** The greatest multiple of the last place, at a precision, that is at most v. */
  function RoundDown(v: real, precision: nat): real
    requires v != 0.0
  {
    FloorMultiple(v, RealPow2(MpfrExp(Abs(v)) + 149 - precision))
  }

  /** The greatest multiple of a step that is at most v. */
  function FloorMultiple(v: real, step: real): real
    requires step > 0.0
  {
    (v / step).Floor as real * step
  }

  function MpfrAddDown(a: Mpfr, b: Mpfr, precision: nat): Mpfr {
    if a.NaN? || b.NaN? then NaN
    else if a.Inf? then (if b.Inf? && b.neg != a.neg then NaN else a)
    else if b.Inf? then b
    else if a.Zero? && b.Zero? then (if a.neg == b.neg then a else Zero(true))
    else
      var sum := (if a.Zero? then 0.0 else a.value) + (if b.Zero? then 0.0 else b.value);
      if sum == 0.0 then Zero(true) else Finite(RoundDown(sum, precision))
  }

  /** Integers that fit the precision are not rounded. */
  lemma RoundDownExact(v: int, precision: nat)
    requires v != 0 && -(Pow2(precision) as int) < v < Pow2(precision)
    ensures RoundDown(v as real, precision) == v as real
  {
    var magnitude: nat := if v < 0 then -v else v;
    var k := LastPlace(magnitude, precision);
    RoundDownWithStep(v, magnitude, precision, k, 1.0 / Pow2(k) as real);
  }

  lemma RoundDownWithStep(v: int, magnitude: nat, precision: nat, k: nat, ulp: real)
    requires v != 0 && magnitude == if v < 0 then -v else v
    requires ulp == 1.0 / Pow2(k) as real
    requires RealPow2(MpfrExp(magnitude as real) + 149 - precision) == ulp
    ensures RoundDown(v as real, precision) == v as real
  {
    assert Abs(v as real) == magnitude as real;
    ScaledInteger(v, Pow2(k), ulp);
  }

  /** The last place of a fitting integer is a reciprocal power of two. */
  lemma LastPlace(magnitude: nat, precision: nat) returns (k: nat)
    requires 0 < magnitude < Pow2(precision)
    ensures RealPow2(MpfrExp(magnitude as real) + 149 - precision) == 1.0 / Pow2(k) as real
  {
    var e := MpfrExp(magnitude as real) + 149;
    if e > precision {
      RealPow2Monotone(precision, e - 1);
      assert false;
    }
    k := precision - e;
  }

  lemma ScaledInteger(v: int, p: nat, ulp: real)
    requires p > 0 && ulp == 1.0 / p as real
    ensures FloorMultiple(v as real, ulp) == v as real
  {
    var scaled := v as real * p as real;
    assert ulp * p as real == 1.0;
    assert scaled * ulp == v as real;
    assert v as real / ulp == scaled;
    assert scaled == (v * p) as real;
  }

  // ----- What a sequence of terms sums to -----

  predicate IsFinite(w: Word) {
    w % 0x8000_0000 < Fp32.Infinity()
  }

  /** The value of a finite pattern in units of 2^-149. */
  function IntegerOf(w: Word): int {
    if !IsFinite(w) then 0
    else if w >= NEGATIVE_ZERO then -(Grid(Fp32, w % 0x8000_0000) as int)
    else Grid(Fp32, w % 0x8000_0000)
  }

  function IntegerSum(terms: seq<Word>): int {
    if terms == [] then 0 else IntegerSum(terms[..|terms| - 1]) + IntegerOf(terms[|terms| - 1])
  }

  predicate AnyNaN(terms: seq<Word>) {
    exists w :: w in terms && ValueOf(w).NaN?
  }

  predicate AnyInf(terms: seq<Word>, neg: bool) {
    exists w :: w in terms && ValueOf(w) == Inf(neg)
  }

  predicate All(terms: seq<Word>, zero: Word) {
    forall w :: w in terms ==> w == zero
  }

  /** The exact sum; a zero has the sign given. */
  function ExactSum(terms: seq<Word>, negativeZero: bool): (v: Mpfr)
    ensures v.Valid()
  {
    if AnyNaN(terms) || (AnyInf(terms, true) && AnyInf(terms, false)) then NaN
    else if AnyInf(terms, true) then Inf(true)
    else if AnyInf(terms, false) then Inf(false)
    else if IntegerSum(terms) == 0 then Zero(negativeZero)
    else Finite(IntegerSum(terms) as real)
  }

  /** One rounding of the exact sum; an exact zero has the sign of IEEE 754-2019 section 6.3. */
  function SumBits(terms: seq<Word>, mode: nat): nat {
    Round(Fp32, mode, ExactSum(terms, if mode == 2 then !All(terms, POSITIVE_ZERO) else All(terms, NEGATIVE_ZERO)), 0)
  }

  // ----- The register is wide enough -----

  function MaxTerm(): nat {
    Grid(Fp32, Fp32.Infinity())
  }

  predicate IsTermBound(bound: nat) {
    forall w: Word :: -(bound as int) <= IntegerOf(w) <= bound
  }

  lemma MaxTermBound(bound: nat, infinity: nat)
    requires infinity == Fp32.Infinity() && bound == Grid(Fp32, infinity)
    ensures IsTermBound(bound)
  {
    forall w: Word
      ensures -(bound as int) <= IntegerOf(w) <= bound
    {
      if IsFinite(w) {
        GridMonotone(Fp32, w % 0x8000_0000, infinity);
      }
    }
  }

  lemma {:induction false} SumBound(terms: seq<Word>, bound: nat)
    requires IsTermBound(bound)
    ensures -(|terms| * bound) <= IntegerSum(terms) <= |terms| * bound
  {
    if terms != [] {
      var n := |terms| - 1;
      SumBound(terms[..n], bound);
      OneMoreTerm(n, bound, IntegerSum(terms[..n]), IntegerOf(terms[n]));
    }
  }

  lemma OneMoreTerm(n: nat, bound: nat, sum: int, term: int)
    requires -(n * bound) <= sum <= n * bound && -(bound as int) <= term <= bound
    ensures -((n + 1) * bound) <= sum + term <= (n + 1) * bound
  {
  }

  /** The number of terms that the register can take, far more than the 16384 that callers need. */
  function Capacity(): nat {
    Pow2(PRECISION - 278)
  }

  lemma CapacityIsEnough()
    ensures Capacity() > 0x4000
  {
    Pow2Twelve();
    Pow2Monotone(15, 234);
    Pow2Add(3, 12);
  }

  lemma CapacityFits(terms: nat, k: nat)
    requires terms <= Pow2(k) && k == 234
    ensures terms * MaxTerm() < Pow2(PRECISION)
  {
    var largest := k + 19 + 24;
    LargestTerm(k + 19);
    hide MaxTerm;
    BoundedProduct(terms, MaxTerm(), k, largest);
    Pow2Monotone(k + largest + 1, PRECISION);
  }

  lemma BoundedProduct(a: nat, b: nat, m: nat, n: nat)
    requires a <= Pow2(m) && b <= Pow2(n)
    ensures a * b < Pow2(m + n + 1)
  {
    Pow2Add(m, n);
    MulMonotone(a, Pow2(m), b);
    MulMonotone(b, Pow2(n), Pow2(m));
  }

  lemma LargestTerm(k: nat)
    requires k == 253
    ensures MaxTerm() <= Pow2(24 + k)
  {
    hide Pow2, Grid;
    GridTop(Fp32, k);
  }

  lemma SumFits(terms: seq<Word>)
    requires |terms| <= Capacity()
    ensures -(Pow2(PRECISION) as int) < IntegerSum(terms) < Pow2(PRECISION)
  {
    MaxTermBound(MaxTerm(), Fp32.Infinity());
    SumBound(terms, MaxTerm());
    CapacityFits(|terms|, PRECISION - 278);
  }

  // ----- One addition -----

  /** What the register holds after a sequence of terms. */
  function Accumulated(terms: seq<Word>): Mpfr {
    ExactSum(terms, !All(terms, POSITIVE_ZERO))
  }

  lemma {:induction false} PositiveZerosSum(terms: seq<Word>)
    requires All(terms, POSITIVE_ZERO)
    ensures IntegerSum(terms) == 0
  {
    if terms != [] {
      var n := |terms| - 1;
      assert terms[n] in terms && forall w :: w in terms[..n] ==> w in terms;
      PositiveZerosSum(terms[..n]);
    }
  }

  lemma AppendFlags(terms: seq<Word>, w: Word)
    ensures AnyNaN(terms + [w]) <==> AnyNaN(terms) || ValueOf(w).NaN?
    ensures forall neg :: AnyInf(terms + [w], neg) <==> AnyInf(terms, neg) || ValueOf(w) == Inf(neg)
    ensures forall zero :: All(terms + [w], zero) <==> All(terms, zero) && w == zero
    ensures IntegerSum(terms + [w]) == IntegerSum(terms) + IntegerOf(w)
  {
    var all := terms + [w];
    assert all[..|all| - 1] == terms;
    assert w in all;
    assert forall v :: v in all <==> v in terms || v == w;
  }

  lemma FiniteValue(w: Word)
    ensures ValueOf(w).NaN? || ValueOf(w).Inf? || IsFinite(w)
    ensures IsFinite(w) ==> ValueOf(w) == if IntegerOf(w) == 0 then Zero(w != POSITIVE_ZERO) else Finite(IntegerOf(w) as real)
  {
    if IsFinite(w) {
      GridAtLeastIndex(Fp32, w % 0x8000_0000);
    }
  }

  /** Adding integers that fit, with the sign that a zero sum gets. */
  lemma AddIntegers(a: int, aNeg: bool, b: int, bNeg: bool)
    requires -(Pow2(PRECISION) as int) < a + b < Pow2(PRECISION)
    ensures MpfrAddDown(OfInteger(a, aNeg), OfInteger(b, bNeg), PRECISION)
         == OfInteger(a + b, if a == 0 && b == 0 then aNeg || bNeg else true)
  {
    hide Pow2, MpfrAddDown;
    AddIntegersAt(a, aNeg, b, bNeg, PRECISION);
  }

  lemma AddIntegersAt(a: int, aNeg: bool, b: int, bNeg: bool, precision: nat)
    requires -(Pow2(precision) as int) < a + b < Pow2(precision)
    ensures MpfrAddDown(OfInteger(a, aNeg), OfInteger(b, bNeg), precision)
         == OfInteger(a + b, if a == 0 && b == 0 then aNeg || bNeg else true)
  {
    hide Pow2, RoundDown;
    if a + b != 0 {
      RoundDownExact(a + b, precision);
    }
  }

  function OfInteger(v: int, neg: bool): Mpfr {
    if v == 0 then Zero(neg) else Finite(v as real)
  }

  /** An addition to the register is exact. */
  lemma AddIsExact(terms: seq<Word>, w: Word)
    requires |terms| < Capacity()
    ensures MpfrAddDown(Accumulated(terms), ValueOf(w), PRECISION) == Accumulated(terms + [w])
  {
    AppendFlags(terms, w);
    FiniteValue(w);
    if !AnyNaN(terms + [w]) && !AnyInf(terms + [w], true) && !AnyInf(terms + [w], false) {
      AddFinite(terms, w);
    } else {
      AddNonFinite(terms, w);
    }
    hide AnyNaN, AnyInf, MpfrAddDown, Accumulated;
  }

  lemma AddFinite(terms: seq<Word>, w: Word)
    requires |terms| < Capacity()
    requires !AnyNaN(terms + [w]) && !AnyInf(terms + [w], true) && !AnyInf(terms + [w], false)
    ensures MpfrAddDown(Accumulated(terms), ValueOf(w), PRECISION) == Accumulated(terms + [w])
  {
    hide AnyNaN, AnyInf, All, IntegerSum, MpfrAddDown, Pow2, Capacity, ValueOf;
    AppendFlags(terms, w);
    FiniteValue(w);
    SumFits(terms + [w]);
    if All(terms, POSITIVE_ZERO) {
      PositiveZerosSum(terms);
    }
    if w == POSITIVE_ZERO {
      PositiveZeroIs();
    }
    assert Accumulated(terms) == OfInteger(IntegerSum(terms), !All(terms, POSITIVE_ZERO));
    assert ValueOf(w) == OfInteger(IntegerOf(w), w != POSITIVE_ZERO);
    AddIntegers(IntegerSum(terms), !All(terms, POSITIVE_ZERO), IntegerOf(w), w != POSITIVE_ZERO);
  }

  lemma PositiveZeroIs()
    ensures IntegerOf(POSITIVE_ZERO) == 0
  {
  }

  lemma AddNonFinite(terms: seq<Word>, w: Word)
    requires AnyNaN(terms + [w]) || AnyInf(terms + [w], true) || AnyInf(terms + [w], false)
    ensures MpfrAddDown(Accumulated(terms), ValueOf(w), PRECISION) == Accumulated(terms + [w])
  {
    AppendFlags(terms, w);
  }

  class Accumulator {
    var value: Mpfr
    var allNegativeZero: bool
    ghost var terms: seq<Word>

    ghost predicate Valid()
      reads this
    {
      && terms != []
      && value == Accumulated(terms)
      && allNegativeZero == All(terms, NEGATIVE_ZERO)
    }

    constructor (initial: Word)
      ensures Valid() && terms == [initial]
    {
      value := ValueOf(initial);
      allNegativeZero := initial == NEGATIVE_ZERO;
      terms := [initial];
      new;
      AppendFlags([], initial);
      FiniteValue(initial);
      assert [] + [initial] == [initial];
    }

    /** Adds a term; the register keeps holding the exact sum. */
    method Add(term: Word)
      requires Valid() && |terms| < Capacity()
      modifies this
      ensures Valid() && terms == old(terms) + [term]
    {
      AddIsExact(terms, term);
      AppendFlags(terms, term);
      value := MpfrAddDown(value, ValueOf(term), PRECISION);
      allNegativeZero := allNegativeZero && term == NEGATIVE_ZERO;
      terms := terms + [term];
    }

    /** Rounds the sum once. */
    method Finish(mode: nat) returns (bits: nat)
      requires Valid()
      modifies this
      ensures bits == SumBits(old(terms), mode)
    {
      if value.Zero? && mode != 2 && !allNegativeZero {
        value := Zero(false);
      }
      if value.Zero? && allNegativeZero {
        NegativeZerosAreNotPositive(terms);
      }
      bits := MpfrToValue(value, Fp32, mode, 0);
    }
  }

  lemma NegativeZerosAreNotPositive(terms: seq<Word>)
    requires terms != [] && All(terms, NEGATIVE_ZERO)
    ensures !All(terms, POSITIVE_ZERO)
  {
    assert terms[0] in terms;
  }

  // ----- The order of the terms does not matter -----

  lemma {:induction false} RemoveTerm(terms: seq<Word>, i: nat)
    requires i < |terms|
    ensures IntegerSum(terms) == IntegerSum(terms[..i] + terms[i + 1..]) + IntegerOf(terms[i])
  {
    var n := |terms| - 1;
    var rest := terms[..i] + terms[i + 1..];
    if i < n {
      RemoveTerm(terms[..n], i);
      assert terms[..n][..i] + terms[..n][i + 1..] == rest[..n - 1];
      assert rest[n - 1] == terms[n];
    } else {
      assert rest == terms[..n];
    }
  }

  lemma {:induction false} IntegerSumPermuted(a: seq<Word>, b: seq<Word>)
    requires multiset(a) == multiset(b)
    ensures IntegerSum(a) == IntegerSum(b)
  {
    if a == [] {
      assert |multiset(b)| == 0;
    } else {
      var n := |a| - 1;
      assert a[n] in multiset(b);
      var i :| 0 <= i < |b| && b[i] == a[n];
      RemoveTerm(b, i);
      var rest := b[..i] + b[i + 1..];
      WithoutOne(a, n, b, i);
      IntegerSumPermuted(a[..n], rest);
    }
  }

  lemma WithoutOne(a: seq<Word>, n: nat, b: seq<Word>, i: nat)
    requires |a| == n + 1 && i < |b| && a[n] == b[i] && multiset(a) == multiset(b)
    ensures multiset(a[..n]) == multiset(b[..i] + b[i + 1..])
  {
    assert a == a[..n] + [a[n]];
    assert b == b[..i] + [b[i]] + b[i + 1..];
    assert multiset(a[..n]) == multiset(a) - multiset{a[n]};
    assert multiset(b[..i] + b[i + 1..]) == multiset(b) - multiset{b[i]};
  }

  /** The result depends only on which terms there are, whatever they are and in every mode. */
  lemma OrderIndependent(a: seq<Word>, b: seq<Word>, mode: nat)
    requires multiset(a) == multiset(b)
    ensures SumBits(a, mode) == SumBits(b, mode)
  {
    IntegerSumPermuted(a, b);
    assert forall w :: w in a <==> w in multiset(a);
    assert forall w :: w in b <==> w in multiset(b);
    assert forall w :: w in a <==> w in b;
    assert AnyNaN(a) == AnyNaN(b) && AnyInf(a, true) == AnyInf(b, true) && AnyInf(a, false) == AnyInf(b, false);
    assert All(a, POSITIVE_ZERO) == All(b, POSITIVE_ZERO) && All(a, NEGATIVE_ZERO) == All(b, NEGATIVE_ZERO);
  }
}
