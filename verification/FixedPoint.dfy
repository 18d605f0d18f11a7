/** The rounding of the fixed-point instructions and the saturating fractional multiply. */
module FixedPoint {
  import opened Powers

  // ----- The code -----

  /** Bit i of the two's complement representation. */
  function Bit(v: int, i: nat): int {
    v / Pow2(i) % 2
  }

  function RoundingIncrement(v: int, d: nat, vxrm: nat): int {
    if d == 0 then 0
    else
      match vxrm % 4
      case 0 => Bit(v, d - 1)
      case 1 => if Bit(v, d - 1) == 1 && (v % Pow2(d - 1) != 0 || Bit(v, d) == 1) then 1 else 0
      case 2 => 0
      case _ => if Bit(v, d) == 0 && v % Pow2(d) != 0 then 1 else 0
  }

  function Roundoff(v: int, d: nat, vxrm: nat): int {
    v / Pow2(d) + RoundingIncrement(v, d, vxrm)
  }

  // ----- The modes -----

  /** r is v / n rounded in a mode (RVV 1.0, section 3.8), stated without dividing. */
  ghost predicate Rounded(v: int, n: int, mode: nat, r: int) {
    var e := v - r * n;
    match mode % 4
    case 0 => -n <= 2 * e < n
    case 1 => -n <= 2 * e <= n && (2 * e == n || 2 * e == -n ==> r % 2 == 0)
    case 2 => 0 <= e < n
    case _ => -n < e < n && (e != 0 ==> r % 2 == 1)
  }

  lemma MulDistributes(a: int, b: int, n: int)
    ensures (a + b) * n == a * n + b * n && (a - b) * n == a * n - b * n
  {
  }

  lemma MulGap(a: int, n: int)
    requires a != 0 && n >= 0
    ensures a > 0 ==> a * n >= n
    ensures a < 0 ==> a * n <= -n
  {
  }

  /** A mode allows at most one result. */
  lemma RoundedUnique(v: int, n: int, mode: nat, r: int, s: int)
    requires n > 0 && Rounded(v, n, mode, r) && Rounded(v, n, mode, s)
    ensures r == s
  {
    if r != s {
      var e, f := v - r * n, v - s * n;
      MulDistributes(s, r, n);
      assert e - f == (s - r) * n;
      MulGap(s - r, n);
      if s - r > 1 || s - r < -1 {
        FarApart(s - r, n);
      }
      NeighboursDiffer(e, f, n, mode, r, s);
      assert false;
    }
  }

  lemma FarApart(k: int, n: int)
    requires (k > 1 || k < -1) && n >= 0
    ensures k > 1 ==> k * n >= 2 * n
    ensures k < -1 ==> k * n <= -2 * n
  {
    MulDistributes(2, k - 2, n);
    MulDistributes(-2, k + 2, n);
    if k > 2 {
      MulGap(k - 2, n);
    }
    if k < -2 {
      MulGap(k + 2, n);
    }
  }

  lemma NeighboursDiffer(e: int, f: int, n: int, mode: nat, r: int, s: int)
    requires n > 0 && r != s
    requires s - r == 1 ==> e - f == n
    requires s - r == -1 ==> e - f == -n
    requires s - r > 1 ==> e - f >= 2 * n
    requires s - r < -1 ==> e - f <= -2 * n
    ensures !(match mode % 4
              case 0 => -n <= 2 * e < n && -n <= 2 * f < n
              case 1 => -n <= 2 * e <= n && -n <= 2 * f <= n
                        && (2 * e == n || 2 * e == -n ==> r % 2 == 0) && (2 * f == n || 2 * f == -n ==> s % 2 == 0)
              case 2 => 0 <= e < n && 0 <= f < n
              case _ => -n < e < n && -n < f < n && (e != 0 ==> r % 2 == 1) && (f != 0 ==> s % 2 == 1))
  {
  }

  // ----- The code rounds in its mode -----

  /** The bit below and the bits below that, of a shift by a positive amount. */
  lemma LowBits(v: int, d: nat)
    requires d > 0
    ensures var n, h := Pow2(d), Pow2(d - 1);
      && n == 2 * h && v == v / n * n + v % n
      && v % n == Bit(v, d - 1) * h + v % h && (Bit(v, d - 1) == 0 || Bit(v, d - 1) == 1)
      && Bit(v, d) == v / n % 2
  {
    var h := Pow2(d - 1);
    HalfSplit(v, h);
  }

  lemma HalfSplit(v: int, h: int)
    requires h > 0
    ensures v == v / (2 * h) * (2 * h) + v % (2 * h)
    ensures v % (2 * h) == v / h % 2 * h + v % h
  {
    var q, b, low := v / h / 2, v / h % 2, v % h;
    assert v == v / h * h + low;
    assert v / h == 2 * q + b;
    assert v / h * h == (2 * q + b) * h;
    MulDistributes(2 * q, b, h);
    assert (2 * q) * h == q * (2 * h);
    assert v == q * (2 * h) + (b * h + low);
    assert 0 <= b * h + low < 2 * h;
    var rest: nat := b * h + low;
    DivMod(2 * h, q, rest);
  }

  /** The code rounds as its mode says, and so gives the only such result. */
  lemma RoundoffRounds(v: int, d: nat, vxrm: nat)
    ensures Rounded(v, Pow2(d), vxrm, Roundoff(v, d, vxrm))
  {
    if d > 0 {
      LowBits(v, d);
      var n, h := Pow2(d), Pow2(d - 1);
      var b := Bit(v, d - 1);
      assert b * h == (if b == 1 then h else 0);
      RemainderRounds(v, v / n, h, b, v % h, vxrm);
      IncrementCases(v, d, vxrm);
      hide Bit, RoundingIncrement, Rounded;
    }
  }

  lemma IncrementCases(v: int, d: nat, vxrm: nat)
    requires d > 0
    ensures var b, low, q := Bit(v, d - 1), v % Pow2(d - 1), v / Pow2(d);
      RoundingIncrement(v, d, vxrm)
      == match vxrm % 4
         case 0 => b
         case 1 => if b == 1 && (low != 0 || q % 2 == 1) then 1 else 0
         case 2 => 0
         case _ => if q % 2 == 0 && !(b == 0 && low == 0) then 1 else 0
  {
    LowBits(v, d);
    var b, h := Bit(v, d - 1), Pow2(d - 1);
    assert b * h == (if b == 1 then h else 0);
    assert v % Pow2(d) == 0 <==> b == 0 && v % h == 0;
  }

  lemma RemainderRounds(v: int, q: int, h: int, b: int, low: int, mode: nat)
    requires h > 0 && v - q * (2 * h) == (if b == 1 then h else 0) + low && 0 <= low < h && (b == 0 || b == 1)
    ensures Rounded(v, 2 * h, mode,
              q + match mode % 4
                  case 0 => b
                  case 1 => if b == 1 && (low != 0 || q % 2 == 1) then 1 else 0
                  case 2 => 0
                  case _ => if q % 2 == 0 && !(b == 0 && low == 0) then 1 else 0)
  {
    MulDistributes(q, 1, 2 * h);
  }

  lemma RoundoffExact(v: int, d: nat, vxrm: nat, r: int)
    ensures r == Roundoff(v, d, vxrm) <==> Rounded(v, Pow2(d), vxrm, r)
  {
    RoundoffRounds(v, d, vxrm);
    hide Rounded, Roundoff;
    if Rounded(v, Pow2(d), vxrm, r) {
      RoundedUnique(v, Pow2(d), vxrm, r, Roundoff(v, d, vxrm));
    }
  }

  /** The result lies between zero and the operand, so it fits wherever the operand does. */
  lemma RoundoffShrinks(v: int, d: nat, vxrm: nat)
    ensures var r := Roundoff(v, d, vxrm); 0 <= r <= v || v <= r <= 0
  {
    hide Roundoff, Rounded;
    var n: int, r := Pow2(d), Roundoff(v, d, vxrm);
    RoundoffRounds(v, d, vxrm);
    Near(v, n, vxrm, r);
    if v == 0 {
      AtMultiple(0, n, vxrm, r);
    } else if v > 0 {
      Between(v, n, r);
    } else {
      MulDistributes(0, r, n);
      Between(-v, n, -r);
    }
  }

  lemma Between(v: int, n: int, r: int)
    requires n > 0 && v > 0 && -n < v - r * n < n
    ensures 0 <= r <= v
  {
    MulDistributes(r, v, n);
    MulDistributes(v, 1, n);
    if r < 0 {
      MulGap(r, n);
    }
    if r > v {
      MulGap(r - v, n);
      MulGap(v, n);
      MulGap(n, v);
      FitsProduct(v, n);
    }
  }

  lemma FitsProduct(v: int, n: int)
    requires v > 0 && n > 0
    ensures v * n >= v
  {
  }

  // ----- Double rounding -----

  const TO_ODD: nat := 3

  /** Rounding to odd keeps enough for a second rounding by at least two bits, in any mode. */
  lemma DoubleRounding(v: int, d1: nat, d2: nat, vxrm: nat)
    requires d2 >= 2
    ensures Roundoff(Roundoff(v, d1, TO_ODD), d2, vxrm) == Roundoff(v, d1 + d2, vxrm)
  {
    hide Roundoff, Rounded;
    var q := Roundoff(v, d1, TO_ODD);
    var r := Roundoff(q, d2, vxrm);
    RoundoffRounds(v, d1, TO_ODD);
    RoundoffRounds(q, d2, vxrm);
    Pow2Add(d1, d2);
    Quarters(d2);
    TwiceRounded(v, Pow2(d1), q, Pow2(d2), r, vxrm);
    RoundoffExact(v, d1 + d2, vxrm, r);
  }

  lemma Quarters(d: nat)
    requires d >= 2
    ensures Pow2(d) % 4 == 0 && Pow2(d) == 4 * Pow2(d - 2)
  {
    assert Pow2(d) == 2 * Pow2(d - 1) && Pow2(d - 1) == 2 * Pow2(d - 2);
  }

  lemma TwiceRounded(v: int, n: int, q: int, m: int, r: int, mode: nat)
    requires n > 0 && m > 0 && m % 4 == 0 && Rounded(v, n, TO_ODD, q) && Rounded(q, m, mode, r)
    ensures Rounded(v, n * m, mode, r)
  {
    hide Rounded;
    var e, f := v - q * n, q - r * m;
    OddIfInexact(v, n, q);
    MulDistributes(r * m, f, n);
    assert r * (n * m) == r * m * n by { MulRearrange(r, m, n); }
    assert v - r * (n * m) == e + f * n;
    OddRemainder(q, r, m);
    if e == 0 {
      Scaled(f, m, n);
      ScaledTwice(f, m, n);
      ExactFirst(v, n, q, m, r, f, mode);
    } else {
      ScaledLess(f, m, n);
      ScaledHalf(f, m, n);
      InexactFirst(v, n, m, r, e, f, mode);
    }
  }

  lemma OddIfInexact(v: int, n: int, q: int)
    requires n > 0 && Rounded(v, n, TO_ODD, q)
    ensures -n < v - q * n < n && (v - q * n != 0 ==> q % 2 == 1)
  {
  }

  lemma MulRearrange(r: int, m: int, n: int)
    ensures r * (n * m) == r * m * n
  {
  }

  lemma OddRemainder(q: int, r: int, m: int)
    requires m % 2 == 0
    ensures (q - r * m) % 2 == q % 2
  {
    var h := m / 2;
    assert r * m == 2 * (r * h) by { assert m == 2 * h; MulRearrange(r, 2, h); }
  }

  /** f * n compares with n * m as f does with m. */
  lemma Scaled(f: int, m: int, n: int)
    requires n > 0
    ensures (f < m <==> f * n < n * m) && (f > -m <==> f * n > -(n * m)) && (f == 0 <==> f * n == 0) && (f >= 0 <==> f * n >= 0)
  {
    Compare(f, m, n);
    Compare(f, -m, n);
    Compare(f, 0, n);
    MulDistributes(0, m, n);
  }

  lemma ScaledTwice(f: int, m: int, n: int)
    requires n > 0
    ensures (2 * f < m <==> 2 * (f * n) < n * m) && (2 * f > -m <==> 2 * (f * n) > -(n * m))
    ensures (2 * f == m <==> 2 * (f * n) == n * m) && (2 * f == -m <==> 2 * (f * n) == -(n * m))
  {
    Scaled(2 * f, m, n);
    Scaled(2 * f, -m, n);
    Compare(2 * f, m, n);
    Compare(2 * f, -m, n);
    MulDistributes(0, m, n);
    MulDistributes(f, f, n);
  }

  lemma ScaledLess(f: int, m: int, n: int)
    requires n > 0
    ensures f <= m - 1 ==> f * n <= n * m - n
    ensures f >= -(m - 1) ==> f * n >= -(n * m - n)
    ensures f >= 1 ==> f * n >= n
  {
    Compare(f, m - 1, n);
    Compare(f, 1 - m, n);
    Compare(f, 1, n);
    MulDistributes(m, 1, n);
    MulDistributes(1, m, n);
  }

  lemma ScaledHalf(f: int, m: int, n: int)
    requires n > 0
    ensures 2 * f <= m - 2 ==> 2 * (f * n) <= n * m - 2 * n
    ensures 2 * f >= -(m - 2) ==> 2 * (f * n) >= -(n * m - 2 * n)
  {
    Compare(2 * f, m - 2, n);
    Compare(2 * f, 2 - m, n);
    MulDistributes(m, 2, n);
    MulDistributes(2, m, n);
    MulDistributes(f, f, n);
  }

  lemma Compare(a: int, b: int, n: int)
    requires n > 0
    ensures a < b <==> a * n < b * n
    ensures a == b <==> a * n == b * n
  {
    MulDistributes(a, b, n);
    if a != b {
      MulGap(a - b, n);
    }
  }

  lemma ExactFirst(v: int, n: int, q: int, m: int, r: int, f: int, mode: nat)
    requires n > 0 && v - r * (n * m) == f * n && f == q - r * m && Rounded(q, m, mode, r)
    requires (f < m <==> f * n < n * m) && (f > -m <==> f * n > -(n * m)) && (f == 0 <==> f * n == 0) && (f >= 0 <==> f * n >= 0)
    requires (2 * f < m <==> 2 * (f * n) < n * m) && (2 * f > -m <==> 2 * (f * n) > -(n * m))
    requires (2 * f == m <==> 2 * (f * n) == n * m) && (2 * f == -m <==> 2 * (f * n) == -(n * m))
    ensures Rounded(v, n * m, mode, r)
  {
    var p, N := f * n, n * m;
    assert v - r * N == p;
  }

  lemma InexactFirst(v: int, n: int, m: int, r: int, e: int, f: int, mode: nat)
    requires n > 0 && m > 0 && m % 4 == 0 && e != 0 && -n < e < n && f % 2 == 1
    requires v - r * (n * m) == e + f * n && Rounded(f + r * m, m, mode, r)
    requires f <= m - 1 ==> f * n <= n * m - n
    requires f >= -(m - 1) ==> f * n >= -(n * m - n)
    requires f >= 1 ==> f * n >= n
    requires 2 * f <= m - 2 ==> 2 * (f * n) <= n * m - 2 * n
    requires 2 * f >= -(m - 2) ==> 2 * (f * n) >= -(n * m - 2 * n)
    ensures Rounded(v, n * m, mode, r)
  {
    var p, N := f * n, n * m;
    assert v - r * N == e + p;
    assert f + r * m - r * m == f;
    assert 2 * f != m && 2 * f != -m;
  }

  // ----- VSMUL -----

  function Least(width: nat): int
    requires width > 0
  {
    -(Pow2(width - 1) as int)
  }

  /** The signed range of a width. */
  predicate InRange(a: int, width: int)
    requires width > 0
  {
    Least(width) <= a < Pow2(width - 1)
  }

  /** The fractional product: whether it saturates, and the result. */
  function Vsmul(a: int, b: int, width: nat, vxrm: nat): (bool, int)
    requires width > 0
  {
    var res := Roundoff(a * b, width - 1, vxrm);
    var min, max := Least(width), Pow2(width - 1) - 1;
    if res < min then (true, min)
    else if res > max then (true, max)
    else (false, res)
  }

  /** It saturates exactly when both operands are the minimum, and then gives the maximum. */
  lemma VsmulSaturates(a: int, b: int, width: nat, vxrm: nat)
    requires width > 0 && InRange(a, width) && InRange(b, width)
    ensures var min := Least(width); var (sat, r) := Vsmul(a, b, width, vxrm);
      && (sat <==> a == min && b == min)
      && (sat ==> r == Pow2(width - 1) - 1)
      && (!sat ==> Rounded(a * b, Pow2(width - 1), vxrm, r))
      && InRange(r, width)
  {
    hide Roundoff, Rounded;
    RoundoffRounds(a * b, width - 1, vxrm);
    RoundedProduct(a, b, Pow2(width - 1), vxrm, Roundoff(a * b, width - 1, vxrm));
  }

  lemma RoundedProduct(a: int, b: int, h: int, mode: nat, r: int)
    requires h > 0 && -h <= a < h && -h <= b < h && Rounded(a * b, h, mode, r)
    ensures if a == -h && b == -h then r == h else -h <= r <= h - 1
  {
    hide Rounded;
    ProductRange(a, b, h);
    if a == -h && b == -h {
      assert a * b == h * h;
      AtMultiple(h, h, mode, r);
    } else {
      Near(a * b, h, mode, r);
      StaysInRange(a * b, h, r);
    }
  }

  lemma Near(v: int, n: int, mode: nat, r: int)
    requires n > 0 && Rounded(v, n, mode, r)
    ensures -n < v - r * n < n
  {
  }

  lemma AtMultiple(k: int, n: int, mode: nat, r: int)
    requires n > 0 && Rounded(k * n, n, mode, r)
    ensures r == k
  {
    MulDistributes(k, r, n);
    if k != r {
      MulGap(k - r, n);
    }
  }

  /** The product of two numbers in the range; only that of two minima is larger than h * h - h. */
  lemma ProductRange(a: int, b: int, h: int)
    requires -h <= a < h && -h <= b < h && h > 0
    ensures !(a == -h && b == -h) ==> -(h * h) <= a * b <= h * h - h
  {
    var x, y := if a < 0 then -a else a, if b < 0 then -b else b;
    ProductSign(a, b, x, y);
    MagnitudeRange(x, y, h);
    MagnitudeRange(y, x, h);
  }

  lemma ProductSign(a: int, b: int, x: int, y: int)
    requires x == (if a < 0 then -a else a) && y == (if b < 0 then -b else b)
    ensures a * b == x * y || a * b == -(x * y)
    ensures (a < 0 && b < 0) || (a >= 0 && b >= 0) ==> a * b == x * y
    ensures !((a < 0 && b < 0) || (a >= 0 && b >= 0)) ==> a * b == -(x * y)
    ensures x * y == y * x
  {
  }

  lemma MagnitudeRange(x: int, y: int, h: int)
    requires 0 <= x <= h && 0 <= y <= h && h > 0
    ensures 0 <= x * y <= h * h
    ensures y <= h - 1 ==> x * y <= h * h - h
  {
    MulLe(x, h, y);
    MulLe(y, h, h);
    if y <= h - 1 {
      MulLe(y, h - 1, h);
      MulDistributes(h, 1, h);
    }
  }

  lemma MulLe(a: int, b: int, n: int)
    requires 0 <= a <= b && n >= 0
    ensures a * n <= b * n && 0 <= a * n && a * n == n * a && b * n == n * b
  {
  }

  lemma StaysInRange(v: int, h: int, r: int)
    requires h > 0 && -(h * h) <= v <= h * h - h && -h < v - r * h < h
    ensures -h <= r <= h - 1
  {
    var H := h;
    MulDistributes(r, H, h);
    if r >= H {
      if r > H {
        MulGap(r - H, h);
      }
    } else if r < -H {
      MulDistributes(r, -H, h);
      MulDistributes(0, H, h);
      MulGap(r + H, h);
    }
  }
}
