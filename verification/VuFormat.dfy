/**
 The two binary interchange formats of the vector-unit reference model and the
 grid of magnitudes they can represent.

 A magnitude is the integer made of the exponent and fraction fields. All values
 are given in units of 2^-149, the least positive single-precision number, so
 that the grid is a set of integers. The grid goes on past the largest finite
 number, as IEEE 754-2019 section 7.4 asks when it decides about overflow.
 */
module VuFormat {
  import opened Powers

  datatype Format = Fp32 | Bf16 {
    function FractionBits(): nat {
      if Fp32? then 23 else 7
    }

    /** The weight of the hidden significand bit, 2^FractionBits. */
    function Hidden(): nat {
      if Fp32? then 0x800000 else 0x80
    }

    /** The least positive number, in units of 2^-149. */
    function Unit(): nat {
      if Fp32? then 1 else 0x10000
    }

    function Infinity(): nat {
      255 * Hidden()
    }

    function SignWeight(): nat {
      256 * Hidden()
    }

    function QuietNaN(): nat {
      Infinity() + Hidden() / 2
    }
  }

  /** The distance from grid point n to its successor. */
  function Ulp(fmt: Format, n: nat): (r: nat)
    ensures r > 0
  {
    fmt.Unit() * Pow2(if n < fmt.Hidden() then 0 else n / fmt.Hidden() - 1)
  }

  /** The value of magnitude n. */
  function Grid(fmt: Format, n: nat): nat {
    BinadeValue(fmt.Hidden(), fmt.Unit(), n)
  }

  function BinadeValue(h: nat, u: nat, n: nat): nat
    requires h > 0
  {
    if n < h then n * u else (h + n % h) * (u * Pow2(n / h - 1))
  }

  lemma BinadeLinear(h: nat, u: nat, k: nat, sig: nat)
    requires 0 < h && sig <= 2 * h
    requires k == 0 || h <= sig
    ensures BinadeValue(h, u, k * h + sig) == sig * (u * Pow2(k))
  {
    var n := k * h + sig;
    if sig < h {
      assert k == 0;
    } else if sig < 2 * h {
      assert n == (k + 1) * h + (sig - h);
      DivMod(h, k + 1, sig - h);
    } else {
      assert n == (k + 2) * h + 0;
      DivMod(h, k + 2, 0);
      DoubledFactor(h, u, Pow2(k));
    }
  }

  lemma DoubledFactor(h: nat, u: nat, p: nat)
    ensures h * (u * (2 * p)) == (2 * h) * (u * p)
  {
  }

  /** Within one binade, and in the subnormal range with the first binade, the grid is linear. */
  lemma GridLinear(fmt: Format, k: nat, sig: nat)
    requires sig <= 2 * fmt.Hidden()
    requires k == 0 || fmt.Hidden() <= sig
    ensures Grid(fmt, k * fmt.Hidden() + sig) == sig * (fmt.Unit() * Pow2(k))
  {
    BinadeLinear(fmt.Hidden(), fmt.Unit(), k, sig);
  }

  lemma GridStep(fmt: Format, n: nat)
    ensures Grid(fmt, n + 1) == Grid(fmt, n) + Ulp(fmt, n)
  {
    var h := fmt.Hidden();
    var k := if n < h then 0 else n / h - 1;
    var sig := n - k * h;
    GridLinear(fmt, k, sig);
    GridLinear(fmt, k, sig + 1);
    var u := fmt.Unit() * Pow2(k);
    assert (sig + 1) * u == sig * u + u;
  }

  lemma {:induction false} GridMonotone(fmt: Format, m: nat, n: nat)
    requires m < n
    ensures Grid(fmt, m) < Grid(fmt, n)
  {
    GridStep(fmt, n - 1);
    if m < n - 1 {
      GridMonotone(fmt, m, n - 1);
    }
  }

  lemma {:induction false} GridAtLeastIndex(fmt: Format, n: nat)
    ensures n <= Grid(fmt, n)
  {
    if n > 0 {
      GridAtLeastIndex(fmt, n - 1);
      GridStep(fmt, n - 1);
    }
  }

  /** The first magnitude that is not finite stands for 2^128, that is 2^277 units. */
  lemma GridInfinity(fmt: Format, k: nat)
    requires k == 253
    ensures Grid(fmt, fmt.Infinity()) == 0x1000000 * Pow2(k)
  {
    GridLinear(fmt, k, 2 * fmt.Hidden());
    hide Grid, Pow2;
    assert fmt.Infinity() == k * fmt.Hidden() + 2 * fmt.Hidden();
    TopValue(fmt, Pow2(k));
  }

  lemma TopValue(fmt: Format, p: nat)
    ensures 2 * fmt.Hidden() * (fmt.Unit() * p) == 0x1000000 * p
  {
  }

  /** The same as a power of two. */
  lemma GridTop(fmt: Format, k: nat)
    requires k == 253
    ensures Grid(fmt, fmt.Infinity()) == Pow2(24 + k)
  {
    GridInfinity(fmt, k);
    Pow2TwentyFour(24);
    hide Grid, Pow2;
    Pow2Add(24, k);
  }

  lemma Pow2TwentyFour(n: nat)
    requires n == 24
    ensures Pow2(n) == 0x1000000
  {
    Pow2Twelve();
    Pow2Add(12, 12);
  }

  lemma Pow2Twelve()
    ensures Pow2(12) == 0x1000
  {
    assert Pow2(4) == 16;
    Pow2Add(4, 4);
    Pow2Add(4, 8);
  }
}
