/** The permutation instructions, in place on the byte register file. */
module Permute {
  import opened VRegs
  import opened PermuteSpec

  // ----- vcpop -----

  /** Counts the active elements whose mask bit is set. */
  /** The set bits of a mask register whose elements are active. */
  function CountedBits(s: seq<Byte>, vm: bool, v0: nat, vs2: nat, n: nat, lo: nat, hi: nat): set<nat>
    requires hi <= n
  {
    set i: nat | lo <= i < hi && (vm || Mask(s, v0, n)[i]) && Mask(s, vs2, n)[i]
  }

  lemma CountsBits(s: seq<Byte>, vm: bool, v0: nat, vs2: nat, n: nat, lo: nat, hi: nat)
    requires hi <= n
    ensures Count(Both(ActiveMask(s, vm, v0, n), Mask(s, vs2, n)), lo, hi) == |CountedBits(s, vm, v0, vs2, n, lo, hi)|
  {
    hide Mask, Count, Both;
    var active, m := ActiveMask(s, vm, v0, n), Mask(s, vs2, n);
    CountBoth(active, m, lo, hi);
    assert CountedBits(s, vm, v0, vs2, n, lo, hi) == set i: nat | lo <= i < hi && active[i] && m[i];
  }

  method Vcpop(v: array<Byte>, n: nat, vl: nat, vstart: nat, vm: bool, vs2: nat, v0: nat) returns (total: nat)
    requires MaskInside(v.Length, vs2, n) && MaskInside(v.Length, v0, n) && vl <= n
    ensures total == Count(Both(ActiveMask(v[..], vm, v0, n), Mask(v[..], vs2, n)), vstart, vl)
    ensures total == |CountedBits(v[..], vm, v0, vs2, n, vstart, vl)|
  {
    hide Mask, Count, Both, CountedBits;
    ghost var both := Both(ActiveMask(v[..], vm, v0, n), Mask(v[..], vs2, n));
    NoCount(both, vstart, vl);
    total := 0;
    var idx := vstart;
    while idx < vl
      invariant vstart <= idx && (idx <= vstart || idx <= vl) && total == Count(both, vstart, if idx <= vl then idx else vl)
    {
      CountNext(both, vstart, idx);
      BothAt(ActiveMask(v[..], vm, v0, n), Mask(v[..], vs2, n), idx);
      var active := vm;
      if !vm {
        active := LoadMaskBit(v, v0, n, idx);
      }
      var bit := LoadMaskBit(v, vs2, n, idx);
      if active && bit {
        total := total + 1;
      }
      idx := idx + 1;
    }
    CountsBits(v[..], vm, v0, vs2, n, vstart, vl);
  }

  lemma NoCount(m: seq<bool>, vstart: nat, vl: nat)
    requires vl <= |m|
    ensures Count(m, vstart, if vstart <= vl then vstart else vl) == 0
  {
  }

  lemma BothAt(a: seq<bool>, b: seq<bool>, i: nat)
    requires |a| == |b| && i < |a|
    ensures Both(a, b)[i] == (a[i] && b[i])
  {
  }

  lemma CountNext(m: seq<bool>, vstart: nat, idx: nat)
    requires vstart <= idx < |m|
    ensures Count(m, vstart, idx + 1) == Count(m, vstart, idx) + if m[idx] then 1 else 0
  {
  }

  // ----- viota -----

  /** One more element of an iota. */
  lemma IotaNext(d: seq<Elem>, active: seq<bool>, m: seq<bool>, width: nat, vstart: nat, idx: nat)
    requires |d| == |active| == |m| && vstart <= idx < |d|
    ensures Iota(d, active, m, width, vstart, idx + 1)
         == if active[idx] then Iota(d, active, m, width, vstart, idx)[idx := LeBytes(Count(Both(active, m), vstart, idx), width)]
            else Iota(d, active, m, width, vstart, idx)
    ensures Count(Both(active, m), vstart, idx + 1) == Count(Both(active, m), vstart, idx) + if active[idx] && m[idx] then 1 else 0
  {
    IotaElement(d, active, m, width, vstart, idx);
    hide LeBytes, Iota;
  }

  lemma IotaElement(d: seq<Elem>, active: seq<bool>, m: seq<bool>, width: nat, vstart: nat, idx: nat)
    requires |d| == |active| == |m| && vstart <= idx < |d|
    ensures Iota(d, active, m, width, vstart, idx + 1)
         == if active[idx] then Iota(d, active, m, width, vstart, idx)[idx := LeBytes(Count(Both(active, m), vstart, idx), width)]
            else Iota(d, active, m, width, vstart, idx)
  {
    hide LeBytes, Count, Both;
  }

  lemma IotaNone(d: seq<Elem>, active: seq<bool>, m: seq<bool>, width: nat, vstart: nat)
    requires |d| == |active| == |m|
    ensures forall hi: nat :: hi <= vstart && hi <= |d| ==> Iota(d, active, m, width, vstart, hi) == d
  {
    forall hi: nat | hi <= vstart && hi <= |d|
      ensures Iota(d, active, m, width, vstart, hi) == d
    {
    }
  }

  function Min(a: nat, b: nat): nat {
    if a < b then a else b
  }

  method Viota(v: array<Byte>, vlmax: nat, width: nat, vl: nat, vstart: nat, vm: bool, vd: nat, vs2: nat, v0: nat)
    requires Inside(v.Length, vd, width, vlmax) && MaskInside(v.Length, vs2, vlmax) && MaskInside(v.Length, v0, vlmax)
    requires Apart(vd, vlmax * width, vs2, (vlmax + 7) / 8) && Apart(vd, vlmax * width, v0, (vlmax + 7) / 8)
    modifies v
    ensures var was := old(v[..]);
      && Elements(v[..], vd, width, vlmax)
         == Iota(Elements(was, vd, width, vlmax), ActiveMask(was, vm, v0, vlmax), Mask(was, vs2, vlmax), width, vstart, Min(vl, vlmax))
      && SameOutside(was, v[..], vd, vlmax * width)
  {
    hide Elements, Mask, SameOutside, Iota, LeBytes;
    ghost var was := v[..];
    ghost var d, active, m := Elements(was, vd, width, vlmax), ActiveMask(was, vm, v0, vlmax), Mask(was, vs2, vlmax);
    var end := Min(vl, vlmax);
    var current := 0;
    var idx := vstart;
    OutsideSelf(was, vd, vlmax * width);
    IotaNone(d, active, m, width, vstart);
    while idx < end
      invariant vstart <= idx && (idx <= vstart || idx <= end)
      invariant SameOutside(was, v[..], vd, vlmax * width)
      invariant current == Count(Both(active, m), vstart, Min(idx, end))
      invariant Elements(v[..], vd, width, vlmax) == Iota(d, active, m, width, vstart, Min(idx, end))
    {
      MaskSame(was, v[..], vd, vlmax * width, v0, vlmax);
      MaskSame(was, v[..], vd, vlmax * width, vs2, vlmax);
      IotaNext(d, active, m, width, vstart, idx);
      var maskActive := vm;
      if !vm {
        maskActive := LoadMaskBit(v, v0, vlmax, idx);
      }
      if maskActive {
        var bit := LoadMaskBit(v, vs2, vlmax, idx);
        ghost var before := v[..];
        StoreElement(v, vd, width, vlmax, idx, LeBytes(current, width));
        OutsideTrans(was, before, v[..], vd, vlmax * width);
        if bit {
          current := current + 1;
        }
      }
      idx := idx + 1;
    }
  }

  // ----- vrgather -----

  lemma GatheredNext(d: seq<Elem>, s: seq<Elem>, indices: seq<Elem>, active: seq<bool>, width: nat, vstart: nat, idx: nat)
    requires |d| == |s| == |indices| == |active| && vstart <= idx < |d|
    ensures Gathered(d, s, indices, active, width, vstart, idx + 1)
         == if active[idx] then Gathered(d, s, indices, active, width, vstart, idx)[idx := Picked(s, indices[idx], width)]
            else Gathered(d, s, indices, active, width, vstart, idx)
  {
    hide Picked;
  }

  lemma GatheredNone(d: seq<Elem>, s: seq<Elem>, indices: seq<Elem>, active: seq<bool>, width: nat, vstart: nat)
    requires |d| == |s| == |indices| == |active|
    ensures forall hi: nat :: hi <= vstart && hi <= |d| ==> Gathered(d, s, indices, active, width, vstart, hi) == d
  {
    hide Picked;
    forall hi: nat | hi <= vstart && hi <= |d|
      ensures Gathered(d, s, indices, active, width, vstart, hi) == d
    {
    }
  }

  /** The element at the index that another element holds, or zero. */
  method Pick(v: array<Byte>, vlmax: nat, width: nat, vs2: nat, index: Elem) returns (b: Elem)
    requires Inside(v.Length, vs2, width, vlmax)
    ensures b == Picked(Elements(v[..], vs2, width, vlmax), index, width) && |b| == width
  {
    hide Elements, LeBytes;
    if LeValue(index) >= vlmax {
      b := LeBytes(0, width);
    } else {
      b := LoadElement(v, vs2, width, vlmax, LeValue(index));
    }
  }

  method Gather(v: array<Byte>, vlmax: nat, width: nat, indexWidth: nat, vl: nat, vstart: nat, vm: bool, vd: nat, vs2: nat, vs1: nat, v0: nat)
    requires Inside(v.Length, vd, width, vlmax) && Inside(v.Length, vs2, width, vlmax) && Inside(v.Length, vs1, indexWidth, vlmax)
    requires MaskInside(v.Length, v0, vlmax) && vl <= vlmax
    requires Apart(vd, vlmax * width, vs2, vlmax * width) && Apart(vd, vlmax * width, vs1, vlmax * indexWidth)
    requires Apart(vd, vlmax * width, v0, (vlmax + 7) / 8)
    modifies v
    ensures var was := old(v[..]);
      && Elements(v[..], vd, width, vlmax)
         == Gathered(Elements(was, vd, width, vlmax), Elements(was, vs2, width, vlmax), Elements(was, vs1, indexWidth, vlmax),
                     ActiveMask(was, vm, v0, vlmax), width, vstart, vl)
      && SameOutside(was, v[..], vd, vlmax * width)
  {
    hide Elements, Mask, SameOutside, Gathered, Picked, LeBytes;
    ghost var was := v[..];
    ghost var d, s := Elements(was, vd, width, vlmax), Elements(was, vs2, width, vlmax);
    ghost var indices, active := Elements(was, vs1, indexWidth, vlmax), ActiveMask(was, vm, v0, vlmax);
    var idx := vstart;
    OutsideSelf(was, vd, vlmax * width);
    GatheredNone(d, s, indices, active, width, vstart);
    while idx < vl
      invariant vstart <= idx && (idx <= vstart || idx <= vl)
      invariant SameOutside(was, v[..], vd, vlmax * width)
      invariant Elements(v[..], vd, width, vlmax) == Gathered(d, s, indices, active, width, vstart, Min(idx, vl))
    {
      MaskSame(was, v[..], vd, vlmax * width, v0, vlmax);
      ElementsSame(was, v[..], vd, vlmax * width, vs2, width, vlmax);
      ElementsSame(was, v[..], vd, vlmax * width, vs1, indexWidth, vlmax);
      GatheredNext(d, s, indices, active, width, vstart, idx);
      var maskActive := vm;
      if !vm {
        maskActive := LoadMaskBit(v, v0, vlmax, idx);
      }
      if maskActive {
        var index := LoadElement(v, vs1, indexWidth, vlmax, idx);
        var b := Pick(v, vlmax, width, vs2, index);
        ghost var before := v[..];
        StoreElement(v, vd, width, vlmax, idx, b);
        OutsideTrans(was, before, v[..], vd, vlmax * width);
      }
      idx := idx + 1;
    }
  }

  // ----- vcompress -----

  lemma CompressedNext(d: seq<Elem>, s: seq<Elem>, m: seq<bool>, vstart: nat, idx: nat)
    requires |d| == |s| == |m| && vstart <= idx < |d|
    ensures Count(m, vstart, idx) < |d|
    ensures Compressed(d, s, m, vstart, idx + 1)
         == if m[idx] then Compressed(d, s, m, vstart, idx)[Count(m, vstart, idx) := s[idx]] else Compressed(d, s, m, vstart, idx)
    ensures Count(m, vstart, idx + 1) == Count(m, vstart, idx) + if m[idx] then 1 else 0
  {
  }

  lemma CompressedNone(d: seq<Elem>, s: seq<Elem>, m: seq<bool>, vstart: nat)
    requires |d| == |s| == |m|
    ensures forall hi: nat :: hi <= vstart && hi <= |d| ==> Compressed(d, s, m, vstart, hi) == d
  {
  }

  method Compress(v: array<Byte>, vlmax: nat, width: nat, vl: nat, vstart: nat, vd: nat, vs2: nat, vs1: nat)
    requires Inside(v.Length, vd, width, vlmax) && Inside(v.Length, vs2, width, vlmax) && MaskInside(v.Length, vs1, vlmax)
    requires vl <= vlmax
    requires Apart(vd, vlmax * width, vs2, vlmax * width) && Apart(vd, vlmax * width, vs1, (vlmax + 7) / 8)
    modifies v
    ensures var was := old(v[..]);
      && Elements(v[..], vd, width, vlmax)
         == Compressed(Elements(was, vd, width, vlmax), Elements(was, vs2, width, vlmax), Mask(was, vs1, vlmax), vstart, vl)
      && SameOutside(was, v[..], vd, vlmax * width)
  {
    hide Elements, Mask, SameOutside, Compressed;
    ghost var was := v[..];
    ghost var d, s, m := Elements(was, vd, width, vlmax), Elements(was, vs2, width, vlmax), Mask(was, vs1, vlmax);
    var currentPos := 0;
    var idx := vstart;
    OutsideSelf(was, vd, vlmax * width);
    CompressedNone(d, s, m, vstart);
    while idx < vl
      invariant vstart <= idx && (idx <= vstart || idx <= vl)
      invariant SameOutside(was, v[..], vd, vlmax * width)
      invariant currentPos == Count(m, vstart, Min(idx, vl))
      invariant Elements(v[..], vd, width, vlmax) == Compressed(d, s, m, vstart, Min(idx, vl))
    {
      MaskSame(was, v[..], vd, vlmax * width, vs1, vlmax);
      ElementsSame(was, v[..], vd, vlmax * width, vs2, width, vlmax);
      CompressedNext(d, s, m, vstart, idx);
      var bit := LoadMaskBit(v, vs1, vlmax, idx);
      if bit {
        var b := LoadElement(v, vs2, width, vlmax, idx);
        ghost var before := v[..];
        StoreElement(v, vd, width, vlmax, currentPos, b);
        OutsideTrans(was, before, v[..], vd, vlmax * width);
        currentPos := currentPos + 1;
      }
      idx := idx + 1;
    }
  }

  // ----- Decompression in the register file -----

  /**
   Compresses a group, then decompresses it with the same mask: the selected elements of the
   target get their values back, all its other elements and all bytes outside the three
   destination groups stay as they were.
   */
  method CompressAndBack(v: array<Byte>, vlmax: nat, width: nat, vl: nat, packed: nat, scratch: nat, target: nat, source: nat, v0: nat)
    requires Inside(v.Length, packed, width, vlmax) && Inside(v.Length, scratch, width, vlmax)
    requires Inside(v.Length, target, width, vlmax) && Inside(v.Length, source, width, vlmax)
    requires MaskInside(v.Length, v0, vlmax) && vl <= vlmax && vl <= Pow256(width)
    requires var len := vlmax * width; var maskLen := (vlmax + 7) / 8;
      && Apart(packed, len, scratch, len) && Apart(packed, len, target, len) && Apart(scratch, len, target, len)
      && Apart(packed, len, source, len) && Apart(scratch, len, source, len) && Apart(target, len, source, len)
      && Apart(packed, len, v0, maskLen) && Apart(scratch, len, v0, maskLen) && Apart(target, len, v0, maskLen)
    modifies v
    ensures var was := old(v[..]); var m := Mask(was, v0, vlmax);
      && |v[..]| == |was|
      && (forall i :: 0 <= i < vlmax ==>
        Elements(v[..], target, width, vlmax)[i]
        == if i < vl && m[i] then Elements(was, source, width, vlmax)[i] else Elements(was, target, width, vlmax)[i])
      && SameElsewhere(was, v[..], packed, scratch, target, vlmax * width)
  {
    hide Elements, Mask, SameOutside, SameElsewhere, Compressed, Iota, Gathered, Inside, MaskInside, Decompressed;
    ghost var was := v[..];
    ghost var len := vlmax * width;
    ghost var m := Mask(was, v0, vlmax);
    Compress(v, vlmax, width, vl, 0, packed, source, v0);
    ghost var one := v[..];
    MaskSame(was, one, packed, len, v0, vlmax);
    ElementsSame(was, one, packed, len, target, width, vlmax);
    Viota(v, vlmax, width, vl, 0, true, scratch, v0, v0);
    ghost var two := v[..];
    MaskSame(one, two, scratch, len, v0, vlmax);
    ElementsSame(one, two, scratch, len, target, width, vlmax);
    ElementsSame(one, two, scratch, len, packed, width, vlmax);
    Gather(v, vlmax, width, width, vl, 0, false, target, packed, scratch, v0);
    RoundTrip(Elements(was, target, width, vlmax), Elements(was, packed, width, vlmax), Elements(was, source, width, vlmax),
              Elements(one, scratch, width, vlmax), m, width, vl);
    ThreeWrites(was, one, two, v[..], packed, scratch, target, len);
  }

  /**
   Decompresses a group, then compresses the result with the same mask: the first elements come back,
   as many as vcpop counts, and the rest of the destination and all bytes outside the three
   destination groups stay as they were.
   */
  method ExpandAndBack(v: array<Byte>, vlmax: nat, width: nat, vl: nat, packed: nat, scratch: nat, target: nat, back: nat, v0: nat)
    returns (total: nat)
    requires Inside(v.Length, packed, width, vlmax) && Inside(v.Length, scratch, width, vlmax)
    requires Inside(v.Length, target, width, vlmax) && Inside(v.Length, back, width, vlmax)
    requires MaskInside(v.Length, v0, vlmax) && vl <= vlmax && vl <= Pow256(width)
    requires var len := vlmax * width; var maskLen := (vlmax + 7) / 8;
      && Apart(scratch, len, packed, len) && Apart(scratch, len, target, len) && Apart(scratch, len, back, len)
      && Apart(target, len, packed, len) && Apart(target, len, back, len)
      && Apart(scratch, len, v0, maskLen) && Apart(target, len, v0, maskLen) && Apart(back, len, v0, maskLen)
    modifies v
    ensures var was := old(v[..]);
      && |v[..]| == |was| && total == Count(Mask(was, v0, vlmax), 0, vl)
      && (forall i :: 0 <= i < vlmax ==>
        Elements(v[..], back, width, vlmax)[i]
        == if i < total then Elements(was, packed, width, vlmax)[i] else Elements(was, back, width, vlmax)[i])
      && SameElsewhere(was, v[..], scratch, target, back, vlmax * width)
  {
    hide Elements, Mask, SameOutside, SameElsewhere, Compressed, Iota, Gathered, Inside, MaskInside, Decompressed;
    ghost var was := v[..];
    ghost var len := vlmax * width;
    ghost var m := Mask(was, v0, vlmax);
    Viota(v, vlmax, width, vl, 0, true, scratch, v0, v0);
    ghost var one := v[..];
    MaskSame(was, one, scratch, len, v0, vlmax);
    ElementsSame(was, one, scratch, len, packed, width, vlmax);
    ElementsSame(was, one, scratch, len, target, width, vlmax);
    ElementsSame(was, one, scratch, len, back, width, vlmax);
    Gather(v, vlmax, width, width, vl, 0, false, target, packed, scratch, v0);
    ghost var two := v[..];
    MaskSame(one, two, target, len, v0, vlmax);
    ElementsSame(one, two, target, len, back, width, vlmax);
    Compress(v, vlmax, width, vl, 0, back, target, v0);
    MaskSame(two, v[..], back, len, v0, vlmax);
    total := Vcpop(v, vlmax, vl, 0, true, v0, v0);
    BothAll(m);
    RoundTripBack(Elements(was, target, width, vlmax), Elements(was, back, width, vlmax), Elements(was, packed, width, vlmax),
                  Elements(was, scratch, width, vlmax), m, width, vl);
    ThreeWrites(was, one, two, v[..], scratch, target, back, len);
  }

  lemma RoundTripBack(d: seq<Elem>, d0: seq<Elem>, packed: seq<Elem>, scratch: seq<Elem>, m: seq<bool>, width: nat, vl: nat)
    requires |d| == |d0| == |packed| == |scratch| == |m| && vl <= |m| && vl <= Pow256(width)
    ensures var r := Compressed(d0, Gathered(d, packed, Iota(scratch, AllSet(|m|), m, width, 0, vl), m, width, 0, vl), m, 0, vl);
      forall i :: 0 <= i < |d| ==> r[i] == if i < Count(m, 0, vl) then packed[i] else d0[i]
  {
    hide Gathered, Compressed, Iota, Count;
    CompressDecompressed(d, d0, packed, scratch, m, width, vl);
  }

  /** The bytes outside three register groups are the same. */
  ghost predicate SameElsewhere(was: seq<Byte>, now: seq<Byte>, a: nat, b: nat, c: nat, len: nat) {
    |was| == |now| && forall p :: 0 <= p < |was| && !(a <= p < a + len) && !(b <= p < b + len) && !(c <= p < c + len) ==> now[p] == was[p]
  }

  lemma ThreeWrites(s0: seq<Byte>, s1: seq<Byte>, s2: seq<Byte>, s3: seq<Byte>, a: nat, b: nat, c: nat, len: nat)
    requires SameOutside(s0, s1, a, len) && SameOutside(s1, s2, b, len) && SameOutside(s2, s3, c, len)
    ensures SameElsewhere(s0, s3, a, b, c, len)
  {
  }

  lemma RoundTrip(d: seq<Elem>, d0: seq<Elem>, s: seq<Elem>, scratch: seq<Elem>, m: seq<bool>, width: nat, vl: nat)
    requires |d| == |d0| == |s| == |scratch| == |m| && vl <= |m| && vl <= Pow256(width)
    ensures var r := Gathered(d, Compressed(d0, s, m, 0, vl), Iota(scratch, AllSet(|m|), m, width, 0, vl), m, width, 0, vl);
      forall i :: 0 <= i < |d| ==> r[i] == if i < vl && m[i] then s[i] else d[i]
  {
    hide Gathered, Compressed, Iota;
    DecompressCompressed(d, d0, s, scratch, m, width, vl);
  }
}
