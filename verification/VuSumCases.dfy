/** What sums of NaNs, infinities and zeros round to, on the bit patterns. */
module VuSumCases {
  import opened VuFormat
  import opened VuRound
  import opened VuBf16
  import opened VuNaN
  import opened VuSum

  predicate NaNPattern(w: Word) {
    w % 0x8000_0000 > 0x7f80_0000
  }

  predicate FinitePattern(w: Word) {
    w % 0x8000_0000 < 0x7f80_0000
  }

  lemma PatternIs(w: Word)
    ensures ValueOf(w).NaN? <==> NaNPattern(w)
    ensures ValueOf(w) == Inf(false) <==> w == 0x7f80_0000
    ensures ValueOf(w) == Inf(true) <==> w == 0xff80_0000
    ensures IsFinite(w) <==> FinitePattern(w)
  {
    hide Grid;
  }

  lemma SpecialTerms(terms: seq<Word>)
    ensures AnyNaN(terms) <==> exists w :: w in terms && NaNPattern(w)
    ensures AnyInf(terms, false) <==> 0x7f80_0000 in terms
    ensures AnyInf(terms, true) <==> 0xff80_0000 in terms
  {
    hide ValueOf, IsFinite, FinitePattern;
    forall w: Word
      ensures ValueOf(w).NaN? <==> NaNPattern(w)
      ensures ValueOf(w) == Inf(false) <==> w == 0x7f80_0000
      ensures ValueOf(w) == Inf(true) <==> w == 0xff80_0000
    {
      PatternIs(w);
    }
    if 0x7f80_0000 in terms {
      assert ValueOf(0x7f80_0000) == Inf(false);
    }
    if 0xff80_0000 in terms {
      assert ValueOf(0xff80_0000) == Inf(true);
    }
  }

  /** A NaN among the terms, or two infinities of different signs, give the quiet NaN; otherwise an infinity gives itself. */
  lemma SpecialSum(terms: seq<Word>, mode: nat)
    requires exists w :: w in terms && !FinitePattern(w)
    ensures SumBits(terms, mode) ==
      if exists w :: w in terms && NaNPattern(w) then 0x7fc0_0000
      else if 0x7f80_0000 in terms && 0xff80_0000 in terms then 0x7fc0_0000
      else if 0xff80_0000 in terms then 0xff80_0000
      else 0x7f80_0000
  {
    SpecialTerms(terms);
    hide AnyNaN, AnyInf, All;
    NaNRounds(mode, 0);
    if !(exists w :: w in terms && NaNPattern(w)) {
      var w :| w in terms && !FinitePattern(w);
      assert w == 0x7f80_0000 || w == 0xff80_0000;
    }
  }

  predicate AllFinite(terms: seq<Word>) {
    forall w :: w in terms ==> FinitePattern(w)
  }

  /** The sum of the values of the terms, in units of 2^-149. */
  function RealSum(terms: seq<Word>): real {
    if terms == [] then 0.0
    else
      var v := ValueOf(terms[|terms| - 1]);
      RealSum(terms[..|terms| - 1]) + if v.Finite? then v.value else 0.0
  }

  lemma {:induction false} IntegersAreReals(terms: seq<Word>)
    requires AllFinite(terms)
    ensures IntegerSum(terms) as real == RealSum(terms)
  {
    if terms != [] {
      var front, w := terms[..|terms| - 1], terms[|terms| - 1];
      assert forall v :: v in front ==> v in terms;
      IntegersAreReals(front);
      hide ValueOf;
      PatternIs(w);
      FiniteValue(w);
      hide IsFinite, IntegerOf;
    }
  }

  lemma NothingSpecial(terms: seq<Word>)
    requires AllFinite(terms)
    ensures !AnyNaN(terms) && !AnyInf(terms, true) && !AnyInf(terms, false)
  {
    SpecialTerms(terms);
    hide AnyNaN, AnyInf;
    assert !FinitePattern(0x7f80_0000) && !FinitePattern(0xff80_0000);
    assert forall w: Word :: NaNPattern(w) ==> !FinitePattern(w);
  }

  /** A sum that is not zero is the real sum of the values, rounded once. */
  lemma FiniteSum(terms: seq<Word>, mode: nat)
    requires AllFinite(terms) && RealSum(terms) != 0.0
    ensures SumBits(terms, mode) == Round(Fp32, mode, Finite(RealSum(terms)), 0)
  {
    IntegersAreReals(terms);
    NothingSpecial(terms);
    hide AnyNaN, AnyInf, All, Round;
  }

  /**
   A zero sum of zeros of one sign keeps that sign; any other one is positive, and negative when rounding
   is toward minus infinity.
   */
  lemma ZeroSum(terms: seq<Word>, mode: nat)
    requires terms != [] && AllFinite(terms) && RealSum(terms) == 0.0
    ensures SumBits(terms, mode) ==
      if forall w :: w in terms ==> w == 0 then 0
      else if forall w :: w in terms ==> w == 0x8000_0000 then 0x8000_0000
      else if mode == 2 then 0x8000_0000
      else 0
  {
    IntegersAreReals(terms);
    NothingSpecial(terms);
    assert All(terms, POSITIVE_ZERO) <==> forall w :: w in terms ==> w == 0;
    assert All(terms, NEGATIVE_ZERO) <==> forall w :: w in terms ==> w == 0x8000_0000;
    assert terms[0] in terms;
    hide AnyNaN, AnyInf, All;
    ZeroRounds(Fp32, mode, false, 0);
    ZeroRounds(Fp32, mode, true, 0);
    hide Round;
  }
}
