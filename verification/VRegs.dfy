/** The byte register file of the vector engine, its elements and its mask bits. */
module VRegs {
  import opened Powers

  type Byte = b: int | 0 <= b < 256

  type Elem = seq<Byte>

  // ----- Little-endian numbers -----

  function LeValue(b: Elem): nat {
    if b == [] then 0 else b[0] + 256 * LeValue(b[1..])
  }

  function LeBytes(n: nat, width: nat): (b: Elem)
    ensures |b| == width
  {
    if width == 0 then [] else [n % 256] + LeBytes(n / 256, width - 1)
  }

  function Pow256(n: nat): nat {
    if n == 0 then 1 else 256 * Pow256(n - 1)
  }

  lemma {:induction false} LeRoundTrip(n: nat, width: nat)
    requires n < Pow256(width)
    ensures LeValue(LeBytes(n, width)) == n
  {
    if width > 0 {
      LeRoundTrip(n / 256, width - 1);
      assert LeBytes(n, width)[1..] == LeBytes(n / 256, width - 1);
    }
  }

  /** The last byte is the most significant one. */
  lemma {:induction false} LeValueLast(b: Elem, x: Byte)
    ensures LeValue(b + [x]) == LeValue(b) + x * Pow256(|b|)
  {
    if b != [] {
      LeValueLast(b[1..], x);
      assert (b + [x])[1..] == b[1..] + [x];
      assert x * Pow256(|b|) == 256 * (x * Pow256(|b| - 1));
    }
  }

  /** Bit i of a little-endian number is bit i % 8 of byte i / 8. */
  lemma {:induction false} LeBit(b: Elem, i: nat)
    requires i < 8 * |b|
    ensures LeValue(b) / Pow2(i) % 2 == b[i / 8] / Pow2(i % 8) % 2
  {
    var rest := LeValue(b[1..]);
    if i < 8 {
      Pow2Of8(i);
      LowBit(b[0], rest, Pow2(i), Pow2(7 - i));
    } else {
      LeBit(b[1..], i - 8);
      assert (i - 8) % 8 == i % 8 && (i - 8) / 8 == i / 8 - 1;
      Pow2Add(8, i - 8);
      HighPart(b[0], rest, Pow2(i - 8));
    }
  }

  lemma LowBit(low: nat, rest: nat, p: nat, t: nat)
    requires p > 0 && p * (2 * t) == 256
    ensures (low + 256 * rest) / p % 2 == low / p % 2
  {
    Regroup(p, t, rest);
    EvenQuotient(low, p, t * rest);
  }

  lemma EvenQuotient(low: nat, p: nat, m: nat)
    requires p > 0
    ensures (low + (2 * m) * p) / p % 2 == low / p % 2
  {
    QuotientPlus(low, p, 2 * m);
  }

  lemma QuotientPlus(low: nat, p: nat, n: nat)
    requires p > 0
    ensures (low + n * p) / p == low / p + n
  {
    var q, r := low / p, low % p;
    Distributes(q, n, p);
    assert q * p + r == low;
    DivMod(p, q + n, r);
  }

  lemma Distributes(q: nat, n: nat, p: nat)
    ensures (q + n) * p == q * p + n * p
  {
  }

  lemma Regroup(p: nat, t: nat, rest: nat)
    ensures p * (2 * t) * rest == (2 * (t * rest)) * p
  {
  }

  lemma Pow2Of8(i: nat)
    requires i < 8
    ensures Pow2(i) * (2 * Pow2(7 - i)) == 256
  {
    Pow2Add(i, 8 - i);
    assert Pow2(8) == 256;
    assert Pow2(8 - i) == 2 * Pow2(7 - i);
  }

  lemma HighPart(low: nat, rest: nat, h: nat)
    requires low < 256 && h > 0
    ensures (low + 256 * rest) / (256 * h) == rest / h
  {
    var q, r := rest / h, rest % h;
    assert q * (256 * h) == 256 * (q * h);
    DivMod(256 * h, q, low + 256 * r);
  }

  // ----- Views -----

  /** Element i of the register group at a byte offset. */
  function ElemAt(s: seq<Byte>, start: nat, width: nat, i: nat): Elem {
    if start + i * width + width <= |s| then s[start + i * width..start + i * width + width] else []
  }

  function Elements(s: seq<Byte>, start: nat, width: nat, n: nat): (r: seq<Elem>)
    ensures |r| == n
  {
    seq(n, i requires 0 <= i < n => ElemAt(s, start, width, i))
  }

  /** Bit i of the mask register at a byte offset. */
  predicate MaskBit(s: seq<Byte>, start: nat, i: nat) {
    start + i / 8 < |s| && s[start + i / 8] / Pow2(i % 8) % 2 == 1
  }

  function Mask(s: seq<Byte>, start: nat, n: nat): (r: seq<bool>)
    ensures |r| == n
  {
    seq(n, i requires 0 <= i < n => MaskBit(s, start, i))
  }

  /** The register group at an offset is in the register file. */
  predicate Inside(size: nat, start: nat, width: nat, n: nat) {
    width > 0 && start + n * width <= size
  }

  function AllSet(n: nat): (r: seq<bool>)
    ensures |r| == n
  {
    seq(n, i => true)
  }

  /** Mask registers hold a bit for each element. */
  predicate MaskInside(size: nat, start: nat, n: nat) {
    start + (n + 7) / 8 <= size
  }

  function ActiveMask(s: seq<Byte>, vm: bool, v0: nat, n: nat): (r: seq<bool>)
    ensures |r| == n
  {
    if vm then AllSet(n) else Mask(s, v0, n)
  }

  /** Two regions do not overlap. */
  predicate Apart(start: nat, len: nat, other: nat, otherLen: nat) {
    start + len <= other || other + otherLen <= start
  }

  ghost predicate SameOutside(was: seq<Byte>, now: seq<Byte>, start: nat, len: nat) {
    |was| == |now| && forall p :: 0 <= p < |was| && !(start <= p < start + len) ==> now[p] == was[p]
  }

  /** The bytes of elements follow one another in the register file. */
  lemma ElementByte(s: seq<Byte>, start: nat, width: nat, n: nat, i: nat, k: nat)
    requires Inside(|s|, start, width, n) && i < n && k < width
    ensures start + i * width + k < |s| && |Elements(s, start, width, n)[i]| == width
    ensures Elements(s, start, width, n)[i][k] == s[start + i * width + k]
  {
    ElemInside(|s|, start, width, n, i);
  }

  /** A mask is a little-endian number with a bit for each element. */
  lemma MaskIsNumber(s: seq<Byte>, start: nat, n: nat, i: nat)
    requires MaskInside(|s|, start, n) && i < n
    ensures Mask(s, start, n)[i] <==> LeValue(s[start..start + (n + 7) / 8]) / Pow2(i) % 2 == 1
  {
    LeBit(s[start..start + (n + 7) / 8], i);
  }

  // ----- Positions -----

  lemma ElemInside(size: nat, start: nat, width: nat, n: nat, i: nat)
    requires Inside(size, start, width, n) && i < n
    ensures i * width + width <= n * width && start + i * width + width <= size
  {
    assert (i + 1) * width <= n * width by { MulMonotone(i + 1, n, width); }
    assert (i + 1) * width == i * width + width;
  }

  lemma ElemSame(was: seq<Byte>, now: seq<Byte>, lo: nat, len: nat, start: nat, width: nat, n: nat, i: nat)
    requires SameOutside(was, now, lo, len) && Inside(|was|, start, width, n) && i < n
    requires Apart(lo, len, start, n * width)
    ensures ElemAt(now, start, width, i) == ElemAt(was, start, width, i)
  {
    ElemInside(|was|, start, width, n, i);
    var p := start + i * width;
    assert p >= start;
    assert forall k :: p <= k < p + width ==> now[k] == was[k];
    assert now[p..p + width] == was[p..p + width];
  }

  lemma ElementsSame(was: seq<Byte>, now: seq<Byte>, lo: nat, len: nat, start: nat, width: nat, n: nat)
    requires SameOutside(was, now, lo, len) && Inside(|was|, start, width, n)
    requires Apart(lo, len, start, n * width)
    ensures Elements(now, start, width, n) == Elements(was, start, width, n)
  {
    hide SameOutside, ElemAt;
    forall i | 0 <= i < n
      ensures ElemAt(now, start, width, i) == ElemAt(was, start, width, i)
    {
      ElemSame(was, now, lo, len, start, width, n, i);
    }
  }

  lemma MaskSame(was: seq<Byte>, now: seq<Byte>, lo: nat, len: nat, start: nat, n: nat)
    requires SameOutside(was, now, lo, len) && Apart(lo, len, start, (n + 7) / 8)
    ensures Mask(now, start, n) == Mask(was, start, n)
  {
    forall i | 0 <= i < n
      ensures MaskBit(now, start, i) == MaskBit(was, start, i)
    {
      assert i / 8 < (n + 7) / 8;
    }
  }

  // ----- Stores -----

  function Stored(s: seq<Byte>, p: nat, b: Elem): (r: seq<Byte>)
    requires p + |b| <= |s|
    ensures |r| == |s|
  {
    s[..p] + b + s[p + |b|..]
  }

  /** A store of one element. */
  method Store(v: array<Byte>, p: nat, b: Elem)
    requires p + |b| <= v.Length
    modifies v
    ensures v[..] == Stored(old(v[..]), p, b)
  {
    for k := 0 to |b|
      invariant forall i :: 0 <= i < v.Length ==> v[i] == if p <= i < p + k then b[i - p] else old(v[i])
    {
      v[p + k] := b[k];
    }
  }

  lemma StoredElem(s: seq<Byte>, start: nat, width: nat, n: nat, at: nat, b: Elem, i: nat)
    requires Inside(|s|, start, width, n) && at < n && |b| == width && i < n
    requires start + at * width + width <= |s|
    ensures ElemAt(Stored(s, start + at * width, b), start, width, i) == if i == at then b else ElemAt(s, start, width, i)
  {
    ElemInside(|s|, start, width, n, i);
    var p, q := start + at * width, start + i * width;
    var t := Stored(s, p, b);
    if i == at {
      assert t[q..q + width] == b;
    } else {
      Apartness(width, i, at);
      assert forall k :: q <= k < q + width ==> t[k] == s[k];
      assert t[q..q + width] == s[q..q + width];
    }
  }

  lemma Apartness(width: nat, i: nat, j: nat)
    requires i != j
    ensures i * width + width <= j * width || j * width + width <= i * width
  {
    if i < j {
      MulMonotone(i + 1, j, width);
      assert (i + 1) * width == i * width + width;
    } else {
      MulMonotone(j + 1, i, width);
      assert (j + 1) * width == j * width + width;
    }
  }

  /** A store to an element changes that element of its group, and nothing outside the group. */
  lemma StoredElements(s: seq<Byte>, start: nat, width: nat, n: nat, at: nat, b: Elem)
    requires Inside(|s|, start, width, n) && at < n && |b| == width
    ensures start + at * width + width <= |s|
    ensures Elements(Stored(s, start + at * width, b), start, width, n) == Elements(s, start, width, n)[at := b]
    ensures SameOutside(s, Stored(s, start + at * width, b), start, n * width)
  {
    ElemInside(|s|, start, width, n, at);
    StoredOutside(s, start, width, n, at, b);
    hide ElemAt, Stored, SameOutside;
    forall i | 0 <= i < n
      ensures ElemAt(Stored(s, start + at * width, b), start, width, i) == if i == at then b else ElemAt(s, start, width, i)
    {
      StoredElem(s, start, width, n, at, b, i);
    }
  }

  lemma StoredOutside(s: seq<Byte>, start: nat, width: nat, n: nat, at: nat, b: Elem)
    requires start + at * width + width <= |s| && at * width + width <= n * width && |b| == width
    ensures SameOutside(s, Stored(s, start + at * width, b), start, n * width)
  {
    var p := start + at * width;
    assert start <= p && p + width <= start + n * width;
  }

  lemma OutsideTrans(a: seq<Byte>, b: seq<Byte>, c: seq<Byte>, start: nat, len: nat)
    requires SameOutside(a, b, start, len) && SameOutside(b, c, start, len)
    ensures SameOutside(a, c, start, len)
  {
  }

  lemma OutsideSelf(a: seq<Byte>, start: nat, len: nat)
    ensures SameOutside(a, a, start, len)
  {
  }

  /** Stores an element of a group. */
  method StoreElement(v: array<Byte>, start: nat, width: nat, n: nat, at: nat, b: Elem)
    requires Inside(v.Length, start, width, n) && at < n && |b| == width
    modifies v
    ensures Elements(v[..], start, width, n) == Elements(old(v[..]), start, width, n)[at := b]
    ensures SameOutside(old(v[..]), v[..], start, n * width)
  {
    hide SameOutside, Stored, Elements;
    StoredElements(v[..], start, width, n, at, b);
    Store(v, start + at * width, b);
  }

  method LoadElement(v: array<Byte>, start: nat, width: nat, n: nat, at: nat) returns (b: Elem)
    requires Inside(v.Length, start, width, n) && at < n
    ensures b == Elements(v[..], start, width, n)[at] && |b| == width
  {
    ElemInside(v.Length, start, width, n, at);
    b := v[start + at * width..start + at * width + width];
  }

  method LoadMaskBit(v: array<Byte>, start: nat, n: nat, i: nat) returns (bit: bool)
    requires start + (n + 7) / 8 <= v.Length && i < n
    ensures bit == Mask(v[..], start, n)[i]
  {
    bit := v[start + i / 8] / Pow2(i % 8) % 2 == 1;
  }
}
