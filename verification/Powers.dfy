/** Powers of two and bit lengths, shared by the arithmetic modules. */
module Powers {
  function Pow2(n: nat): (r: nat)
    ensures r >= 1
  {
    if n == 0 then 1 else 2 * Pow2(n - 1)
  }

  lemma {:induction false} Pow2Add(m: nat, n: nat)
    ensures Pow2(m + n) == Pow2(m) * Pow2(n)
  {
    if m == 0 {
    } else {
      Pow2Add(m - 1, n);
      assert m - 1 + n == m + n - 1;
      assert 2 * (Pow2(m - 1) * Pow2(n)) == (2 * Pow2(m - 1)) * Pow2(n);
    }
  }

  lemma {:induction false} Pow2Monotone(m: nat, n: nat)
    requires m <= n
    ensures Pow2(m) <= Pow2(n)
  {
    if m < n {
      Pow2Monotone(m, n - 1);
    }
  }

  /** The number of bits of n: the least k with n < 2^k. */
  function BitLength(n: nat): (k: nat)
    ensures n < Pow2(k)
    ensures n > 0 ==> k > 0 && Pow2(k - 1) <= n
  {
    if n == 0 then 0 else 1 + BitLength(n / 2)
  }

  lemma MulMonotone(m: nat, n: nat, w: nat)
    requires m <= n
    ensures m * w <= n * w
  {
  }

  lemma MulAtLeast(d: nat, h: nat)
    requires d >= 1
    ensures d * h >= h
  {
  }

  lemma QuotientUnique(h: nat, a: int, b: nat, q: int, r: nat)
    requires b < h && r < h
    requires a * h + b == q * h + r
    ensures a == q && b == r
  {
    if a > q {
      MulAtLeast(a - q, h);
      assert false;
    }
    if a < q {
      MulAtLeast(q - a, h);
      assert false;
    }
  }

  lemma DivMod(h: nat, q: int, r: nat)
    requires r < h
    ensures (q * h + r) / h == q && (q * h + r) % h == r
  {
    var n := q * h + r;
    QuotientUnique(h, n / h, n % h, q, r);
  }

  lemma ModPlus(z: int, q: int, n: nat)
    requires n > 0
    ensures (z + q * n) % n == z % n
  {
    var d, r: nat := z / n, z % n;
    assert z == d * n + r;
    assert (d + q) * n == d * n + q * n;
    DivMod(n, d + q, r);
  }

  lemma ModDifference(x: int, y: int, n: nat)
    requires n > 0
    ensures (x % n - y) % n == (x - y) % n
  {
    assert x == x / n * n + x % n;
    ModPlus(x % n - y, x / n, n);
  }
}
