/** What NaNs, infinities and finite values convert to, read back from the bits. */
module VuNaN {
  import opened Powers
  import opened VuFormat
  import opened VuRound
  import opened VuZiv
  import opened VuBf16

  // ----- The fields of a pattern -----

  /** A pattern is a NaN if its exponent field has all bits set and its fraction is not zero. */
  lemma DecodesNaN(sign: nat, exponent: nat, fraction: nat)
    requires sign < 2 && exponent < 256 && fraction < 0x80_0000
    ensures ValueOf(sign * 0x8000_0000 + exponent * 0x80_0000 + fraction).NaN? <==> exponent == 255 && fraction != 0
  {
    var n := exponent * 0x80_0000 + fraction;
    PatternFields(sign, n);
    NaNIs(sign * 0x8000_0000 + n);
    hide ValueOf;
  }

  lemma NaNIs(bits: Word)
    ensures ValueOf(bits).NaN? <==> bits % 0x8000_0000 > 255 * 0x80_0000
  {
  }

  lemma DecodesInfinity(sign: nat)
    requires sign < 2
    ensures ValueOf(sign * 0x8000_0000 + 255 * 0x80_0000) == Inf(sign == 1)
  {
    PatternFields(sign, 255 * 0x80_0000);
    hide Grid;
  }

  /** A number is its significand times the weight of its exponent; a subnormal number is its fraction. */
  lemma DecodesNumber(sign: nat, exponent: nat, fraction: nat)
    requires sign < 2 && exponent < 255 && fraction < 0x80_0000 && (exponent > 0 || fraction > 0)
    ensures var magnitude := if exponent == 0 then fraction else (0x80_0000 + fraction) * Pow2(exponent - 1);
      ValueOf(sign * 0x8000_0000 + exponent * 0x80_0000 + fraction)
      == Finite(if sign == 1 then -(magnitude as real) else magnitude as real)
  {
    var n := exponent * 0x80_0000 + fraction;
    if exponent == 0 {
      GridLinear(Fp32, 0, fraction);
    } else {
      assert n == (exponent - 1) * 0x80_0000 + (0x80_0000 + fraction);
      GridLinear(Fp32, exponent - 1, 0x80_0000 + fraction);
    }
    GridAtLeastIndex(Fp32, n);
    hide Grid, Pow2;
    PatternFields(sign, n);
    NumberIs(sign * 0x8000_0000 + n, sign == 1, n);
    hide ValueOf;
  }

  lemma NumberIs(bits: Word, neg: bool, n: nat)
    requires neg == (bits >= 0x8000_0000) && n == bits % 0x8000_0000 && 0 < n < Fp32.Infinity()
    ensures ValueOf(bits) == Finite(if neg then -(Grid(Fp32, n) as real) else Grid(Fp32, n) as real)
  {
    hide Grid;
  }

  lemma PatternFields(sign: nat, n: nat)
    requires sign < 2 && n < 0x8000_0000
    ensures var bits := sign * 0x8000_0000 + n; (bits >= 0x8000_0000 <==> sign == 1) && bits % 0x8000_0000 == n
  {
  }

  // ----- Conversions of exact values -----

  /** The bits of a converted value are a pattern of its format. */
  lemma RoundFits(fmt: Format, mode: nat, v: Mpfr, side: Side)
    requires v.Valid()
    ensures Round(fmt, mode, v, side) < 2 * fmt.SignWeight()
  {
    if !v.NaN? {
      BitsOfRound(fmt, mode, v, side);
      hide RoundMagnitude, Round;
    }
  }

  /** A NaN converts to the NaN with a clear sign, a set quiet bit and nothing else in its fraction. */
  lemma NaNRounds(mode: nat, side: Side)
    ensures Round(Fp32, mode, NaN, side) == 0x7fc0_0000 && ValueOf(Round(Fp32, mode, NaN, side)).NaN?
    ensures Round(Bf16, mode, NaN, side) == 0x7fc0 && ValueOf(Bf16ToFp32(Round(Bf16, mode, NaN, side))).NaN?
  {
    DecodesNaN(0, 255, 0x40_0000);
    assert Bf16ToFp32(0x7fc0) == 0x7fc0_0000;
    hide ValueOf, Bf16ToFp32;
  }

  /** Apart from the sign the bits of no NaN lie below those of a NaN. */
  lemma RoundBounded(fmt: Format, mode: nat, v: Mpfr, side: Side)
    requires v.Valid() && !v.NaN?
    ensures Round(fmt, mode, v, side) % fmt.SignWeight() <= fmt.Infinity()
  {
    BitsOfRound(fmt, mode, v, side);
    hide Round, RoundMagnitude, Format.SignWeight, Format.Infinity;
    InfinityBelowSign(fmt);
    if v.Inf? {
      PackBounded(v.neg, fmt.Infinity(), fmt.Infinity(), fmt.SignWeight());
    } else {
      var (y, s) := SidedMagnitude(v, side);
      PackBounded(Negative(v, side), RoundMagnitude(fmt, mode, Negative(v, side), y, s), fmt.Infinity(), fmt.SignWeight());
    }
  }

  lemma InfinityBelowSign(fmt: Format)
    ensures fmt.Infinity() < fmt.SignWeight()
  {
  }

  lemma PackBounded(neg: bool, magnitude: nat, infinity: nat, weight: nat)
    requires magnitude <= infinity < weight
    ensures ((if neg then weight else 0) + magnitude) % weight <= infinity
  {
    DivMod(weight, if neg then 1 else 0, magnitude);
  }

  lemma WideMagnitude(bits: Word)
    requires bits < 0x1_0000
    ensures Bf16ToFp32(bits) % 0x8000_0000 == bits % 0x8000 * 0x1_0000
  {
  }

  lemma NumberIsNoNaN(bits: Word)
    requires bits % 0x8000_0000 <= Fp32.Infinity()
    ensures !ValueOf(bits).NaN?
  {
  }

  /** Only a NaN converts to a NaN. */
  lemma OnlyNaNRounds(mode: nat, v: Mpfr, side: Side)
    requires v.Valid()
    ensures var bits := Round(Fp32, mode, v, side); bits < 0x1_0000_0000 && (ValueOf(bits).NaN? <==> v.NaN?)
    ensures var bits := Round(Bf16, mode, v, side); bits < 0x1_0000 && (ValueOf(Bf16ToFp32(bits)).NaN? <==> v.NaN?)
  {
    RoundFits(Fp32, mode, v, side);
    RoundFits(Bf16, mode, v, side);
    if v.NaN? {
      NaNRounds(mode, side);
    } else {
      hide Round, ValueOf, Bf16ToFp32;
      RoundBounded(Fp32, mode, v, side);
      RoundBounded(Bf16, mode, v, side);
      NumberIsNoNaN(Round(Fp32, mode, v, side));
      WideMagnitude(Round(Bf16, mode, v, side));
      NumberIsNoNaN(Bf16ToFp32(Round(Bf16, mode, v, side)));
    }
  }

  /** An infinity converts to itself. */
  lemma InfinityRounds(mode: nat, neg: bool, side: Side)
    ensures var bits := Round(Fp32, mode, Inf(neg), side); bits < 0x1_0000_0000 && ValueOf(bits) == Inf(neg)
    ensures var bits := Round(Bf16, mode, Inf(neg), side); bits < 0x1_0000 && ValueOf(Bf16ToFp32(bits)) == Inf(neg)
  {
    var sign := if neg then 1 else 0;
    DecodesInfinity(sign);
    hide ValueOf, Bf16ToFp32;
    assert Round(Fp32, mode, Inf(neg), side) == sign * 0x8000_0000 + 255 * 0x80_0000;
    assert Round(Bf16, mode, Inf(neg), side) == sign * 0x8000 + 0x7f80;
    WideInfinity(sign);
  }

  lemma WideInfinity(sign: nat)
    requires sign < 2
    ensures Bf16ToFp32(sign * 0x8000 + 0x7f80) == sign * 0x8000_0000 + 255 * 0x80_0000
  {
  }

  /** An operation gives a NaN exactly when its exact result is one. */
  lemma NaNResult(mode: nat, e: Exact)
    requires e.x.Valid()
    ensures var bits := CorrectBits(Fp32, mode, e); bits < 0x1_0000_0000 && (ValueOf(bits).NaN? <==> e.x.NaN?)
    ensures var bits := CorrectBits(Bf16, mode, e); bits < 0x1_0000 && (ValueOf(Bf16ToFp32(bits)).NaN? <==> e.x.NaN?)
  {
    OnlyNaNRounds(mode, e.x, 0);
    hide Round;
  }

  /** A zero that terms of both signs cancel to is negative only toward minus infinity; any other zero keeps its sign. */
  lemma ZeroResult(mode: nat, neg: bool, cancelled: bool)
    ensures CorrectBits(Fp32, mode, Exact(Zero(neg), cancelled))
         == if (if cancelled then mode == 2 else neg) then 0x8000_0000 else 0
    ensures CorrectBits(Bf16, mode, Exact(Zero(neg), cancelled))
         == if (if cancelled then mode == 2 else neg) then 0x8000 else 0
  {
  }

  // ----- Overflow -----

  /**
   When the result that is rounded without a bound on the exponent is too large for the format, it is the
   largest finite number in the modes that go toward zero there, and infinity in all others (IEEE 754-2019,
   section 7.4); otherwise it is that result.
   */
  lemma OverflowBits(mode: nat, neg: bool, y: real, side: Side)
    requires Magnitude(y, side)
    ensures RoundMagnitude(Fp32, mode, neg, y, side)
         == if RoundIndex(Fp32, mode, neg, y, side) < 0x7f80_0000 then RoundIndex(Fp32, mode, neg, y, side)
            else match mode
                 case 1 => 0x7f7f_ffff
                 case 2 => if neg then 0x7f80_0000 else 0x7f7f_ffff
                 case 3 => if neg then 0x7f7f_ffff else 0x7f80_0000
                 case _ => 0x7f80_0000
    ensures RoundMagnitude(Bf16, mode, neg, y, side)
         == if RoundIndex(Bf16, mode, neg, y, side) < 0x7f80 then RoundIndex(Bf16, mode, neg, y, side)
            else match mode
                 case 1 => 0x7f7f
                 case 2 => if neg then 0x7f80 else 0x7f7f
                 case 3 => if neg then 0x7f7f else 0x7f80
                 case _ => 0x7f80
  {
    hide RoundIndex;
  }

  /** The converted bits are the sign and that magnitude. */
  lemma SignAndMagnitude(mode: nat, v: real, side: Side)
    requires v != 0.0
    ensures Round(Fp32, mode, Finite(v), side)
         == (if v < 0.0 then 0x8000_0000 else 0) + RoundMagnitude(Fp32, mode, v < 0.0, Abs(v), if v < 0.0 then -side else side)
    ensures Round(Bf16, mode, Finite(v), side)
         == (if v < 0.0 then 0x8000 else 0) + RoundMagnitude(Bf16, mode, v < 0.0, Abs(v), if v < 0.0 then -side else side)
  {
    hide RoundMagnitude;
  }

  // ----- Conversions of bit patterns -----

  /** Narrowing a NaN keeps its sign and the upper part of its fraction, and sets the quiet bit. */
  lemma NaNNarrows(sign: nat, fraction: nat, roundMode: Word)
    requires sign < 2 && 0 < fraction < 0x80_0000
    ensures var bits := sign * 0x8000_0000 + 255 * 0x80_0000 + fraction; var narrow := Fp32ToBf16(bits, roundMode);
      && ValueOf(bits).NaN? && narrow < 0x1_0000 && ValueOf(Bf16ToFp32(narrow)).NaN?
      && narrow / 0x8000 == sign && narrow / 0x80 % 0x100 == 255 && narrow / 0x40 % 2 == 1
      && narrow % 0x40 == fraction / 0x1_0000 % 0x40
      && Fp32ToBf16Memory(bits, roundMode) == narrow
  {
    var bits := sign * 0x8000_0000 + 255 * 0x80_0000 + fraction;
    DecodesNaN(sign, 255, fraction);
    var upper := sign * 0x8000 + 0x7f80 + fraction / 0x1_0000;
    assert bits / 0x1_0000 == upper;
    QuietFields(sign, fraction / 0x1_0000);
    var narrow := Fp32ToBf16(bits, roundMode);
    assert narrow == QuietUpper(upper);
    hide ValueOf, QuietUpper;
    var payload := narrow % 0x80;
    assert Bf16ToFp32(narrow) == sign * 0x8000_0000 + 255 * 0x80_0000 + payload * 0x1_0000;
    DecodesNaN(sign, 255, payload * 0x1_0000);
    PatternFields(sign, 255 * 0x80_0000 + fraction);
  }

  lemma QuietFields(sign: nat, payload: nat)
    requires sign < 2 && payload < 0x80
    ensures var q := QuietUpper(sign * 0x8000 + 0x7f80 + payload);
      && q < 0x1_0000 && q / 0x8000 == sign && q / 0x80 % 0x100 == 255 && q / 0x40 % 2 == 1 && q % 0x40 == payload % 0x40
      && q == sign * 0x8000 + 0x7f80 + q % 0x80 && q % 0x80 > 0
  {
  }

  /** Narrowing anything else gives no NaN, and the mode is taken modulo 8. */
  lemma OnlyNaNNarrows(bits: Word, roundMode: Word)
    ensures ValueOf(Bf16ToFp32(Fp32ToBf16(bits, roundMode))).NaN? <==> ValueOf(bits).NaN?
    ensures ValueOf(Bf16ToFp32(Fp32ToBf16Memory(bits, roundMode))).NaN? <==> ValueOf(bits).NaN?
    ensures Fp32ToBf16(bits, roundMode) == Fp32ToBf16(bits, roundMode % 8)
  {
    if ValueOf(bits).NaN? {
      var sign, fraction := bits / 0x8000_0000, bits % 0x80_0000;
      NaNFields(bits);
      NaNNarrows(sign, fraction, roundMode);
    } else {
      ModeModulo(bits, roundMode);
      BitTrickIsCorrect(bits, roundMode % 8);
      OnlyNaNRounds(roundMode % 8, ValueOf(bits), 0);
      hide Round, ValueOf, Fp32ToBf16;
      SaturatedIsNoNaN(bits, roundMode);
    }
  }

  lemma ModeModulo(bits: Word, roundMode: Word)
    ensures Fp32ToBf16(bits, roundMode) == Fp32ToBf16(bits, roundMode % 8)
  {
    hide ValueOf, Increments, QuietUpper;
  }

  lemma NaNFields(bits: Word)
    requires ValueOf(bits).NaN?
    ensures bits / 0x8000_0000 < 2 && 0 < bits % 0x80_0000 && bits == bits / 0x8000_0000 * 0x8000_0000 + 255 * 0x80_0000 + bits % 0x80_0000
  {
  }

  lemma SaturatedIsNoNaN(bits: Word, roundMode: Word)
    requires Fp32ToBf16(bits, roundMode) < 0x1_0000 && !ValueOf(Bf16ToFp32(Fp32ToBf16(bits, roundMode))).NaN?
    ensures !ValueOf(Bf16ToFp32(Fp32ToBf16Memory(bits, roundMode))).NaN?
  {
    var r := Fp32ToBf16(bits, roundMode);
    hide Fp32ToBf16;
    var memory := Fp32ToBf16Memory(bits, roundMode);
    if memory != r {
      assert memory == r / 0x8000 * 0x8000 + 0x7f7f;
      hide ValueOf;
      NumberIsNoNaN(Bf16ToFp32(memory));
    }
  }
}
