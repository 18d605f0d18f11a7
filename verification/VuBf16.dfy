/** The bit-trick conversions between single precision and bfloat16, proved against the reference rounding. */
module VuBf16 {
  import opened Powers
  import opened VuFormat
  import opened VuRound

  type Word = b: int | 0 <= b < 0x1_0000_0000

  /** The exact value of a single-precision bit pattern. */
  function ValueOf(bits: Word): (v: Mpfr)
    ensures v.Valid()
  {
    var neg, magnitude := bits >= 0x8000_0000, bits % 0x8000_0000;
    if magnitude > Fp32.Infinity() then NaN
    else if magnitude == Fp32.Infinity() then Inf(neg)
    else if magnitude == 0 then Zero(neg)
    else
      GridAtLeastIndex(Fp32, magnitude);
      Finite(if neg then -(Grid(Fp32, magnitude) as real) else Grid(Fp32, magnitude) as real)
  }

  function Bf16ToFp32(bits: Word): Word {
    (bits % 0x1_0000) * 0x1_0000
  }

  function Fp32ToBf16(bits: Word, roundMode: Word): Word {
    var upper, lower, sign := bits / 0x1_0000, bits % 0x1_0000, bits / 0x8000_0000;
    if ValueOf(bits).NaN? then QuietUpper(upper)
    else
      (upper + if Increments(roundMode % 8, sign, lower, upper) then 1 else 0) % 0x1_0000
  }

  predicate Increments(mode: nat, sign: nat, lower: nat, upper: nat) {
    match mode
    case 1 => false
    case 2 => sign == 1 && lower != 0
    case 3 => sign == 0 && lower != 0
    case 4 => lower >= 0x8000
    case 5 => lower > 0x8000 || (lower == 0x8000 && upper % 2 == 0)
    case _ => lower > 0x8000 || (lower == 0x8000 && upper % 2 == 1)
  }

  lemma IncrementsAsRounding(mode: nat, neg: bool, lower: nat, upper: nat, m: nat)
    requires upper == (if neg then 0x8000 else 0) + m
    ensures Increments(mode, if neg then 1 else 0, lower, upper)
        <==> RoundsUp(mode, neg, lower != 0, Compare(lower, 0x8000), m % 2 == 1)
  {
  }

  /** Sets the quiet bit of a bfloat16 NaN. */
  function QuietUpper(upper: nat): nat
    requires upper < 0x1_0000
  {
    if upper / 0x40 % 2 == 1 then upper else upper + 0x40
  }

  /** The conversion used on stores saturates at the largest finite number. */
  function Fp32ToBf16Memory(bits: Word, roundMode: Word): Word {
    var result := Fp32ToBf16(bits, roundMode);
    if bits % 0x8000_0000 < Fp32.Infinity() && result % 0x8000 == Bf16.Infinity() then
      result / 0x8000 * 0x8000 + (Bf16.Infinity() - 1)
    else result
  }

  /** Between two neighbouring bfloat16 magnitudes the single-precision grid is linear. */
  lemma WideCell(m: nat, j: nat) returns (u: nat)
    requires j <= 0x1_0000
    ensures u > 0
    ensures Grid(Fp32, m * 0x1_0000 + j) == Grid(Bf16, m) + j * u
    ensures Grid(Bf16, m + 1) == Grid(Bf16, m) + 0x1_0000 * u
  {
    hide Grid, Pow2;
    var k := if m < 0x80 then 0 else m / 0x80 - 1;
    var sig := m - k * 0x80;
    u := Pow2(k);
    GridLinear(Bf16, k, sig);
    GridLinear(Bf16, k, sig + 1);
    assert m * 0x1_0000 + j == k * 0x80_0000 + (sig * 0x1_0000 + j);
    GridLinear(Fp32, k, sig * 0x1_0000 + j);
    assert (sig * 0x1_0000 + j) * (1 * u) == sig * (0x1_0000 * u) + j * u;
    assert (sig + 1) * (0x1_0000 * u) == sig * (0x1_0000 * u) + 0x1_0000 * u;
  }

  /** The position of a point in a cell of 2^16 steps. */
  lemma PointInCell(lo: nat, hi: nat, lower: nat, u: nat, t: nat)
    requires u > 0 && lower < 0x1_0000 && t == lower * u && hi == lo + 0x1_0000 * u
    ensures AtMost(lo, (lo + t) as real, 0) && !AtMost(hi, (lo + t) as real, 0)
    ensures HalfSign(lo, hi, (lo + t) as real, 0) == Compare(lower, 0x8000)
    ensures (lo + t) as real == lo as real <==> lower == 0
  {
    CellOrder(lower, u);
    var y := (lo + t) as real;
    assert 2.0 * y == (2 * lo + 2 * t) as real;
  }

  /** The low half of a pattern decides the rounding of its magnitude. */
  lemma RoundIndexOfHalves(mode: nat, neg: bool, m: nat, lower: nat)
    requires lower < 0x1_0000
    ensures RoundIndex(Bf16, mode, neg, Grid(Fp32, m * 0x1_0000 + lower) as real, 0)
         == m + if RoundsUp(mode, neg, lower != 0, Compare(lower, 0x8000), m % 2 == 1) then 1 else 0
  {
    var u := WideCell(m, lower);
    PointInCell(Grid(Bf16, m), Grid(Bf16, m + 1), lower, u, lower * u);
    var y := Grid(Fp32, m * 0x1_0000 + lower) as real;
    BracketsUnique(Bf16, FloorIndex(Bf16, y, 0), m, y, 0);
  }

  lemma CellOrder(lower: nat, u: nat)
    requires u > 0 && lower < 0x1_0000
    ensures lower * u < 0x1_0000 * u
    ensures lower == 0 <==> lower * u == 0
    ensures 2 * (lower * u) < 0x1_0000 * u <==> lower < 0x8000
    ensures 2 * (lower * u) > 0x1_0000 * u <==> lower > 0x8000
  {
    MulMonotone(lower + 1, 0x1_0000, u);
    if lower < 0x8000 {
      MulMonotone(lower + 1, 0x8000, u);
    } else {
      MulMonotone(0x8000, lower, u);
      if lower > 0x8000 {
        MulMonotone(0x8001, lower, u);
      }
    }
    if lower > 0 {
      MulMonotone(1, lower, u);
    }
  }

  function Compare(a: int, b: int): int {
    if a < b then -1 else if a > b then 1 else 0
  }

  /** The fields of a pattern: sign, upper half of the magnitude, lower half. */
  lemma Fields(bits: Word, neg: bool, m: nat, lower: nat)
    requires neg == (bits >= 0x8000_0000) && m == bits % 0x8000_0000 / 0x1_0000 && lower == bits % 0x1_0000
    ensures bits == (if neg then 0x8000_0000 else 0) + m * 0x1_0000 + lower && m < 0x8000
    ensures bits / 0x1_0000 == (if neg then 0x8000 else 0) + m
    ensures bits % 0x8000_0000 == m * 0x1_0000 + lower
    ensures bits / 0x8000_0000 == if neg then 1 else 0
  {
  }

  lemma FiniteBitTrick(bits: Word, roundMode: Word, neg: bool, m: nat, lower: nat)
    requires roundMode < 8 && m < 0x7f80 && lower < 0x1_0000
    requires bits == (if neg then 0x8000_0000 else 0) + m * 0x1_0000 + lower
    ensures Fp32ToBf16(bits, roundMode)
         == Pack(Bf16, neg, m + if RoundsUp(roundMode, neg, lower != 0, Compare(lower, 0x8000), m % 2 == 1) then 1 else 0)
  {
    Fields(bits, neg, m, lower);
    FiniteIsNumber(bits, m, lower);
    LowHalf(bits, neg, m, lower);
    SmallMode(roundMode);
    BitTrickIs(bits, roundMode);
    IncrementsAsRounding(roundMode, neg, lower, bits / 0x1_0000, m);
    hide ValueOf, RoundsUp, Increments, Compare, Pack, Fp32ToBf16;
    CarryFits(neg, m, RoundsUp(roundMode, neg, lower != 0, Compare(lower, 0x8000), m % 2 == 1));
  }

  lemma LowHalf(bits: Word, neg: bool, m: nat, lower: nat)
    requires lower < 0x1_0000 && bits == (if neg then 0x8000_0000 else 0) + m * 0x1_0000 + lower
    ensures bits % 0x1_0000 == lower
  {
  }

  lemma SmallMode(roundMode: Word)
    requires roundMode < 8
    ensures roundMode % 8 == roundMode
  {
  }

  lemma BitTrickIs(bits: Word, roundMode: Word)
    requires !ValueOf(bits).NaN?
    ensures Fp32ToBf16(bits, roundMode)
         == (bits / 0x1_0000 + if Increments(roundMode % 8, bits / 0x8000_0000, bits % 0x1_0000, bits / 0x1_0000) then 1 else 0) % 0x1_0000
  {
    hide ValueOf, Increments, QuietUpper;
  }

  lemma CarryFits(neg: bool, m: nat, up: bool)
    requires m < 0x7f80
    ensures ((if neg then 0x8000 else 0) + m + if up then 1 else 0) % 0x1_0000 == Pack(Bf16, neg, m + if up then 1 else 0)
  {
  }

  lemma FiniteIsNumber(bits: Word, m: nat, lower: nat)
    requires m < 0x7f80 && lower < 0x1_0000 && bits % 0x8000_0000 == m * 0x1_0000 + lower
    ensures !ValueOf(bits).NaN?
  {
  }

  lemma FiniteRound(roundMode: nat, neg: bool, m: nat, lower: nat)
    requires m < 0x7f80 && lower < 0x1_0000
    ensures RoundMagnitude(Bf16, roundMode, neg, Grid(Fp32, m * 0x1_0000 + lower) as real, 0)
         == m + if RoundsUp(roundMode, neg, lower != 0, Compare(lower, 0x8000), m % 2 == 1) then 1 else 0
  {
    RoundIndexOfHalves(roundMode, neg, m, lower);
  }

  /** A finite pattern with a sign and magnitude has the rounding of that magnitude. */
  lemma RoundOfPattern(fmt: Format, mode: nat, bits: Word, neg: bool, magnitude: nat)
    requires neg == (bits >= 0x8000_0000) && magnitude == bits % 0x8000_0000 < Fp32.Infinity()
    ensures Round(fmt, mode, ValueOf(bits), 0)
         == Pack(fmt, neg, RoundMagnitude(fmt, mode, neg, Grid(Fp32, magnitude) as real, 0))
  {
    assert Grid(Fp32, 0) == 0;
  }

  /** The bit trick agrees with the general conversion on the exact value, for every pattern and mode. */
  lemma BitTrickIsCorrect(bits: Word, roundMode: Word)
    requires roundMode < 8 && !ValueOf(bits).NaN?
    ensures Fp32ToBf16(bits, roundMode) == Round(Bf16, roundMode, ValueOf(bits), 0)
  {
    var neg, m, lower := bits >= 0x8000_0000, bits % 0x8000_0000 / 0x1_0000, bits % 0x1_0000;
    Fields(bits, neg, m, lower);
    if bits % 0x8000_0000 < Fp32.Infinity() {
      FiniteBitTrick(bits, roundMode, neg, m, lower);
      RoundOfPattern(Bf16, roundMode, bits, neg, m * 0x1_0000 + lower);
      FiniteRound(roundMode, neg, m, lower);
    }
  }

  /** Widening to single precision is exact. */
  lemma WidenIsExact(m: nat)
    ensures Grid(Fp32, m * 0x1_0000) == Grid(Bf16, m)
  {
    var u := WideCell(m, 0);
  }

  /** Narrowing undoes widening, in every mode; a signalling NaN comes back quiet. */
  lemma WidenNarrow(bits: Word, roundMode: Word)
    requires bits < 0x1_0000
    ensures Fp32ToBf16(Bf16ToFp32(bits), roundMode) == if bits % 0x8000 > Bf16.Infinity() then QuietUpper(bits) else bits
  {
    var wide := Bf16ToFp32(bits);
    var neg, m := bits >= 0x8000, bits % 0x8000;
    assert wide == (if neg then 0x8000_0000 else 0) + m * 0x1_0000 + 0;
    Fields(wide, neg, m, 0);
  }

  /** Stores round like every other conversion, except that finite values never become infinite. */
  lemma MemoryConversion(bits: Word, roundMode: Word)
    requires roundMode < 8 && !ValueOf(bits).NaN?
    ensures var rounded := Round(Bf16, roundMode, ValueOf(bits), 0);
      Fp32ToBf16Memory(bits, roundMode)
      == if !ValueOf(bits).Inf? && rounded % 0x8000 == Bf16.Infinity() then rounded - 1 else rounded
  {
    BitTrickIsCorrect(bits, roundMode);
  }

  lemma GridPointRounds(fmt: Format, mode: nat, neg: bool, magnitude: nat)
    requires magnitude < fmt.Infinity()
    ensures RoundMagnitude(fmt, mode, neg, Grid(fmt, magnitude) as real, 0) == magnitude
  {
    var y := Grid(fmt, magnitude) as real;
    GridStep(fmt, magnitude);
    BracketsUnique(fmt, FloorIndex(fmt, y, 0), magnitude, y, 0);
  }

  /** Representable values round to their own bits. */
  lemma RoundIsIdentityOnFormat(bits: Word, mode: nat)
    requires !ValueOf(bits).NaN?
    ensures Round(Fp32, mode, ValueOf(bits), 0) == bits
  {
    var neg, magnitude := bits >= 0x8000_0000, bits % 0x8000_0000;
    if magnitude < Fp32.Infinity() {
      GridPointRounds(Fp32, mode, neg, magnitude);
      RoundOfPattern(Fp32, mode, bits, neg, magnitude);
      PackUnpack(bits, neg, magnitude);
    }
  }

  lemma PackUnpack(bits: Word, neg: bool, magnitude: nat)
    requires neg == (bits >= 0x8000_0000) && magnitude == bits % 0x8000_0000
    ensures Pack(Fp32, neg, magnitude) == bits
  {
  }
}
