/** What the permutation instructions do to sequences of elements, and how they undo one another. */
module PermuteSpec {
  import opened VRegs

  /** The elements from one index to another whose mask bit is set. */
  function Selected<T>(s: seq<T>, m: seq<bool>, lo: nat, hi: nat): (r: seq<T>)
    requires hi <= |s| && hi <= |m|
    ensures |r| == Count(m, lo, hi)
  {
    if hi <= lo then []
    else if m[hi - 1] then Selected(s, m, lo, hi - 1) + [s[hi - 1]]
    else Selected(s, m, lo, hi - 1)
  }

  /** The number of set mask bits from one index to another. */
  function Count(m: seq<bool>, lo: nat, hi: nat): (n: nat)
    requires hi <= |m|
    ensures hi <= lo ==> n == 0
    ensures lo <= hi ==> n <= hi - lo
  {
    if hi <= lo then 0 else Count(m, lo, hi - 1) + if m[hi - 1] then 1 else 0
  }

  function Both(a: seq<bool>, b: seq<bool>): (r: seq<bool>)
    requires |a| == |b|
    ensures |r| == |a|
  {
    seq(|a|, i requires 0 <= i < |a| => a[i] && b[i])
  }

  /** vcompress: the selected source elements, then the old elements. */
  function Compressed<T>(d: seq<T>, s: seq<T>, m: seq<bool>, lo: nat, hi: nat): (r: seq<T>)
    requires |d| == |s| && hi <= |s| && hi <= |m|
    ensures |r| == |d|
  {
    var selected := Selected(s, m, lo, hi);
    selected + d[|selected|..]
  }

  /** viota: each active element holds the number of selected active elements before it. */
  function Iota(d: seq<Elem>, active: seq<bool>, m: seq<bool>, width: nat, lo: nat, hi: nat): (r: seq<Elem>)
    requires |d| == |active| == |m| && hi <= |d|
    ensures |r| == |d|
  {
    seq(|d|, i requires 0 <= i < |d| =>
      if lo <= i < hi && active[i] then LeBytes(Count(Both(active, m), lo, i), width) else d[i])
  }

  /** vrgather: each active element is the source element at its index, or zero. */
  function Gathered(d: seq<Elem>, s: seq<Elem>, indices: seq<Elem>, active: seq<bool>, width: nat, lo: nat, hi: nat): (r: seq<Elem>)
    requires |d| == |s| == |indices| == |active| && hi <= |d|
    ensures |r| == |d|
  {
    seq(|d|, i requires 0 <= i < |d| => if lo <= i < hi && active[i] then Picked(s, indices[i], width) else d[i])
  }

  function Picked(s: seq<Elem>, index: Elem, width: nat): Elem {
    if LeValue(index) >= |s| then LeBytes(0, width) else s[LeValue(index)]
  }

  // ----- Laws -----

  /** The set mask bits from one index to another. */
  function SetBits(m: seq<bool>, lo: nat, hi: nat): set<nat>
    requires hi <= |m|
  {
    set i: nat | lo <= i < hi && m[i]
  }

  lemma {:induction false} CountIs(m: seq<bool>, lo: nat, hi: nat)
    requires hi <= |m|
    ensures Count(m, lo, hi) == |SetBits(m, lo, hi)|
  {
    if lo < hi {
      CountIs(m, lo, hi - 1);
      var before := SetBits(m, lo, hi - 1);
      if m[hi - 1] {
        assert SetBits(m, lo, hi) == before + {hi - 1};
      } else {
        assert SetBits(m, lo, hi) == before;
      }
    } else {
      assert SetBits(m, lo, hi) == {};
    }
  }

  lemma CountBoth(active: seq<bool>, m: seq<bool>, lo: nat, hi: nat)
    requires hi <= |active| == |m|
    ensures Count(Both(active, m), lo, hi) == |set i: nat | lo <= i < hi && active[i] && m[i]|
  {
    CountIs(Both(active, m), lo, hi);
    assert SetBits(Both(active, m), lo, hi) == set i: nat | lo <= i < hi && active[i] && m[i];
  }

  /** An active element is the number of active elements before it whose mask bit is set; any other one is the old one. */
  lemma IotaAt(d: seq<Elem>, active: seq<bool>, m: seq<bool>, width: nat, lo: nat, hi: nat, i: nat)
    requires |d| == |active| == |m| && hi <= |d| && i < |d| && hi <= Pow256(width)
    ensures var r := Iota(d, active, m, width, lo, hi)[i];
      if lo <= i < hi && active[i] then |r| == width && LeValue(r) == |set j: nat | lo <= j < i && active[j] && m[j]| else r == d[i]
  {
    if lo <= i < hi && active[i] {
      CountBoth(active, m, lo, i);
      LeRoundTrip(Count(Both(active, m), lo, i), width);
      hide LeValue, Count;
    }
  }

  lemma {:induction false} ZeroBytes(width: nat, k: nat)
    requires k < width
    ensures LeBytes(0, width)[k] == 0
  {
    if k > 0 {
      ZeroBytes(width - 1, k - 1);
    }
  }

  /** An active element whose index is outside the source has only zero bytes, any other active one is that source element. */
  lemma GatheredAt(d: seq<Elem>, s: seq<Elem>, indices: seq<Elem>, active: seq<bool>, width: nat, lo: nat, hi: nat, i: nat)
    requires |d| == |s| == |indices| == |active| && lo <= i < hi <= |d| && active[i]
    ensures var r := Gathered(d, s, indices, active, width, lo, hi)[i];
      if LeValue(indices[i]) < |d| then r == s[LeValue(indices[i])] else |r| == width && forall k :: 0 <= k < width ==> r[k] == 0
  {
    forall k: nat | k < width
      ensures LeBytes(0, width)[k] == 0
    {
      ZeroBytes(width, k);
    }
  }

  lemma BothAll(m: seq<bool>)
    ensures Both(AllSet(|m|), m) == m
  {
  }

  lemma {:induction false} CountMonotone(m: seq<bool>, lo: nat, i: nat, hi: nat)
    requires i <= hi <= |m|
    ensures Count(m, lo, i) <= Count(m, lo, hi)
    ensures lo <= i < hi && m[i] ==> Count(m, lo, i) < Count(m, lo, hi)
    decreases hi
  {
    if i < hi {
      CountMonotone(m, lo, i, hi - 1);
    }
  }

  /** A selected element is found at its number among the selected ones. */
  lemma {:induction false} SelectedAt<T>(s: seq<T>, m: seq<bool>, lo: nat, i: nat, hi: nat)
    requires lo <= i < hi <= |s| && hi <= |m| && m[i]
    ensures Count(m, lo, i) < Count(m, lo, hi) && Selected(s, m, lo, hi)[Count(m, lo, i)] == s[i]
    decreases hi
  {
    CountMonotone(m, lo, i, hi);
    if i < hi - 1 {
      SelectedAt(s, m, lo, i, hi - 1);
    }
  }

  /** The positions that decompression computes. */
  function Positions(scratch: seq<Elem>, m: seq<bool>, width: nat, vl: nat): seq<Elem>
    requires |scratch| == |m| && vl <= |m|
  {
    Iota(scratch, AllSet(|m|), m, width, 0, vl)
  }

  function Decompressed(d: seq<Elem>, packed: seq<Elem>, scratch: seq<Elem>, m: seq<bool>, width: nat, vl: nat): (r: seq<Elem>)
    requires |d| == |packed| == |scratch| == |m| && vl <= |m|
    ensures |r| == |d|
  {
    Gathered(d, packed, Positions(scratch, m, width, vl), m, width, 0, vl)
  }

  lemma DecompressedAt(d: seq<Elem>, packed: seq<Elem>, scratch: seq<Elem>, m: seq<bool>, width: nat, vl: nat, i: nat)
    requires |d| == |packed| == |scratch| == |m| && vl <= |m| && vl <= Pow256(width) && i < |d|
    ensures i < vl && m[i] ==> Count(m, 0, i) < |packed|
    ensures Decompressed(d, packed, scratch, m, width, vl)[i] == if i < vl && m[i] then packed[Count(m, 0, i)] else d[i]
  {
    if i < vl && m[i] {
      BothAll(m);
      LeRoundTrip(Count(m, 0, i), width);
    }
  }

  /** Decompression undoes compression: the selected elements are back in their places, the others are the old ones. */
  lemma DecompressCompressed(d: seq<Elem>, d0: seq<Elem>, s: seq<Elem>, scratch: seq<Elem>, m: seq<bool>, width: nat, vl: nat)
    requires |d| == |d0| == |s| == |scratch| == |m| && vl <= |m| && vl <= Pow256(width)
    ensures Decompressed(d, Compressed(d0, s, m, 0, vl), scratch, m, width, vl)
         == seq(|d|, i requires 0 <= i < |d| => if i < vl && m[i] then s[i] else d[i])
  {
    var packed := Compressed(d0, s, m, 0, vl);
    forall i | 0 <= i < |d|
      ensures Decompressed(d, packed, scratch, m, width, vl)[i] == if i < vl && m[i] then s[i] else d[i]
    {
      hide Decompressed, Compressed;
      DecompressedAt(d, packed, scratch, m, width, vl, i);
      if i < vl && m[i] {
        SelectedAt(s, m, 0, i, vl);
        CompressedAt(d0, s, m, vl, Count(m, 0, i));
      }
    }
  }

  lemma CompressedAt<T>(d: seq<T>, s: seq<T>, m: seq<bool>, vl: nat, k: nat)
    requires |d| == |s| && vl <= |s| && vl <= |m| && k < |d|
    ensures Compressed(d, s, m, 0, vl)[k] == if k < Count(m, 0, vl) then Selected(s, m, 0, vl)[k] else d[k]
  {
  }

  /** Compressing a decompressed vector gives back its first elements, as many as are selected. */
  lemma CompressDecompressed(d: seq<Elem>, d0: seq<Elem>, packed: seq<Elem>, scratch: seq<Elem>, m: seq<bool>, width: nat, vl: nat)
    requires |d| == |d0| == |packed| == |scratch| == |m| && vl <= |m| && vl <= Pow256(width)
    ensures var n := Count(m, 0, vl);
      Compressed(d0, Decompressed(d, packed, scratch, m, width, vl), m, 0, vl) == packed[..n] + d0[n..]
  {
    var r := Decompressed(d, packed, scratch, m, width, vl);
    forall i | 0 <= i < vl && m[i]
      ensures Count(m, 0, i) < |packed| && r[i] == packed[Count(m, 0, i)]
    {
      DecompressedAt(d, packed, scratch, m, width, vl, i);
    }
    SelectedIsPrefix(r, packed, m, vl);
  }

  lemma {:induction false} SelectedIsPrefix(r: seq<Elem>, packed: seq<Elem>, m: seq<bool>, n: nat)
    requires n <= |r| && n <= |m| && n <= |packed|
    requires forall i :: 0 <= i < n && m[i] ==> Count(m, 0, i) < |packed| && r[i] == packed[Count(m, 0, i)]
    ensures Selected(r, m, 0, n) == packed[..Count(m, 0, n)]
  {
    if n > 0 {
      SelectedIsPrefix(r, packed, m, n - 1);
    }
  }
}
