/** Which bytes a segment or strided access moves, read off the registers and the memory before and after it. */
module LoadStoreTransfer {
  import opened Powers
  import opened LoadStoreSpec

  // ----- Loads -----

  lemma {:induction false} FieldsLoaded(a: Access, st: State, idx: nat, n: nat, j: nat, s: nat)
    requires Fits(a, st) && a.load && idx < a.emulStride && n <= a.segment && j < a.emulStride && s < a.segment
    ensures |st.mem| > 0 && a.Pos(j, s) < |st.regs| && Fields(a, st, idx, n).mem == st.mem
    ensures Fields(a, st, idx, n).regs[a.Pos(j, s)]
         == if j == idx && s < n then ReadMem(st.mem, a.Address(j, s), a.width) else st.regs[a.Pos(j, s)]
    decreases n
  {
    FieldFits(a, st, j, s);
    SizePositive(a, st);
    if n > 0 {
      hide Fits, Access.Pos, Access.Address, ReadMem;
      FieldsLoaded(a, st, idx, n - 1, j, s);
      FieldFits(a, Fields(a, st, idx, n - 1), idx, n - 1);
      FieldsApart(a, idx, n - 1, j, s);
    }
  }

  lemma {:induction false} RangeLoaded(a: Access, active: seq<bool>, st: State, lo: nat, hi: nat, j: nat, s: nat)
    requires Fits(a, st) && a.load && hi <= |active| <= a.emulStride && j < a.emulStride && s < a.segment
    ensures |st.mem| > 0 && a.Pos(j, s) < |st.regs| && Range(a, active, st, lo, hi).mem == st.mem
    ensures Range(a, active, st, lo, hi).regs[a.Pos(j, s)]
         == if lo <= j < hi && active[j] then ReadMem(st.mem, a.Address(j, s), a.width) else st.regs[a.Pos(j, s)]
    decreases hi
  {
    FieldFits(a, st, j, s);
    SizePositive(a, st);
    if lo < hi {
      RangeLoaded(a, active, st, lo, hi - 1, j, s);
      var before := Range(a, active, st, lo, hi - 1);
      if active[hi - 1] {
        hide Fits, Access.Pos, Access.Address, ReadMem, Fields;
        FieldsLoaded(a, before, hi - 1, a.segment, j, s);
      } else {
        hide Fits, Access.Pos, Access.Address, ReadMem, Fields;
        assert Range(a, active, st, lo, hi) == before;
      }
    }
  }

  // ----- Stores -----

  /** A field lies over a byte of the memory. */
  predicate Covers(a: Access, size: nat, idx: nat, s: nat, i: int)
    requires size > 0
  {
    (i - a.Address(idx, s)) % size < a.width
  }

  lemma FieldStored(a: Access, st: State, idx: nat, s: nat, i: nat)
    requires Fits(a, st) && !a.load && idx < a.emulStride && s < a.segment && i < |st.mem|
    ensures a.Pos(idx, s) < |st.regs| && |st.regs[a.Pos(idx, s)]| == a.width && Field(a, st, idx, s).regs == st.regs
    ensures 0 <= (i - a.Address(idx, s)) % |st.mem|
    ensures Field(a, st, idx, s).mem[i]
         == if Covers(a, |st.mem|, idx, s, i) then st.regs[a.Pos(idx, s)][(i - a.Address(idx, s)) % |st.mem|] else st.mem[i]
  {
    FieldFits(a, st, idx, s);
  }

  /** A field that no later one of its element covers keeps its bytes in memory. */
  lemma {:induction false} FieldsStored(a: Access, st: State, idx: nat, n: nat, s: nat, i: nat)
    requires Fits(a, st) && !a.load && idx < a.emulStride && n <= a.segment && i < |st.mem| && s < n
    requires Covers(a, |st.mem|, idx, s, i) && forall t: nat :: s < t < n ==> !Covers(a, |st.mem|, idx, t, i)
    ensures a.Pos(idx, s) < |st.regs| && |st.regs[a.Pos(idx, s)]| == a.width && 0 <= (i - a.Address(idx, s)) % |st.mem|
    ensures Fields(a, st, idx, n).mem[i] == st.regs[a.Pos(idx, s)][(i - a.Address(idx, s)) % |st.mem|]
    decreases n
  {
    FieldStored(a, st, idx, s, i);
    var before := Fields(a, st, idx, n - 1);
    hide Fits, Covers, Access.Pos, Access.Address, Field;
    FieldStored(a, before, idx, n - 1, i);
    FieldsKeepRegs(a, st, idx, n - 1);
    if s < n - 1 {
      FieldsStored(a, st, idx, n - 1, s, i);
    }
  }

  lemma {:induction false} FieldsKeepRegs(a: Access, st: State, idx: nat, n: nat)
    requires Fits(a, st) && !a.load && idx < a.emulStride && n <= a.segment
    ensures Fields(a, st, idx, n).regs == st.regs
    decreases n
  {
    if n > 0 {
      hide Fits;
      FieldsKeepRegs(a, st, idx, n - 1);
      FieldFits(a, Fields(a, st, idx, n - 1), idx, n - 1);
      SizePositive(a, Fields(a, st, idx, n - 1));
    }
  }

  lemma {:induction false} FieldsSpare(a: Access, st: State, idx: nat, n: nat, i: nat)
    requires Fits(a, st) && !a.load && idx < a.emulStride && n <= a.segment && i < |st.mem|
    requires forall t: nat :: t < n ==> !Covers(a, |st.mem|, idx, t, i)
    ensures Fields(a, st, idx, n).mem[i] == st.mem[i]
    decreases n
  {
    if n > 0 {
      hide Fits, Covers, Field;
      FieldsSpare(a, st, idx, n - 1, i);
      FieldStored(a, Fields(a, st, idx, n - 1), idx, n - 1, i);
    }
  }

  lemma {:induction false} RangeKeepsRegs(a: Access, active: seq<bool>, st: State, lo: nat, hi: nat)
    requires Fits(a, st) && !a.load && hi <= |active| <= a.emulStride
    ensures Range(a, active, st, lo, hi).regs == st.regs
    decreases hi
  {
    hide Fits, Fields;
    if lo < hi {
      RangeKeepsRegs(a, active, st, lo, hi - 1);
      if active[hi - 1] {
        FieldsKeepRegs(a, Range(a, active, st, lo, hi - 1), hi - 1, a.segment);
      }
    }
  }

  /** An active field that comes after another one. */
  predicate Later(a: Access, active: seq<bool>, hi: nat, idx: nat, s: nat, j: nat, t: nat) {
    j < hi && j < |active| && active[j] && t < a.segment && (idx < j || (idx == j && s < t))
  }

  lemma {:induction false} RangeStored(a: Access, active: seq<bool>, st: State, lo: nat, hi: nat, idx: nat, s: nat, i: nat)
    requires Fits(a, st) && !a.load && hi <= |active| <= a.emulStride && lo <= idx < hi && active[idx] && s < a.segment && i < |st.mem|
    requires Covers(a, |st.mem|, idx, s, i)
    requires forall j: nat, t: nat :: Later(a, active, hi, idx, s, j, t) ==> !Covers(a, |st.mem|, j, t, i)
    ensures a.Pos(idx, s) < |st.regs| && |st.regs[a.Pos(idx, s)]| == a.width && 0 <= (i - a.Address(idx, s)) % |st.mem|
    ensures Range(a, active, st, lo, hi).mem[i] == st.regs[a.Pos(idx, s)][(i - a.Address(idx, s)) % |st.mem|]
    decreases hi
  {
    FieldStored(a, st, idx, s, i);
    var before := Range(a, active, st, lo, hi - 1);
    hide Fits, Fields, Covers, Access.Pos, Access.Address;
    RangeKeepsRegs(a, active, st, lo, hi - 1);
    if idx == hi - 1 {
      assert forall t: nat :: s < t < a.segment ==> Later(a, active, hi, idx, s, idx, t);
      FieldsStored(a, before, idx, a.segment, s, i);
    } else {
      assert forall j: nat, t: nat :: Later(a, active, hi - 1, idx, s, j, t) ==> Later(a, active, hi, idx, s, j, t);
      RangeStored(a, active, st, lo, hi - 1, idx, s, i);
      if active[hi - 1] {
        var j: nat := hi - 1;
        assert forall t: nat :: t < a.segment ==> Later(a, active, hi, idx, s, j, t);
        FieldsSpare(a, before, j, a.segment, i);
      }
    }
  }

  /** A byte that no active field covers stays. */
  lemma {:induction false} RangeSpares(a: Access, active: seq<bool>, st: State, lo: nat, hi: nat, i: nat)
    requires Fits(a, st) && !a.load && hi <= |active| <= a.emulStride && i < |st.mem|
    requires forall j: nat, t: nat :: lo <= j < hi && active[j] && t < a.segment ==> !Covers(a, |st.mem|, j, t, i)
    ensures Range(a, active, st, lo, hi).mem[i] == st.mem[i]
    decreases hi
  {
    hide Fits, Fields, Covers;
    if lo < hi {
      RangeSpares(a, active, st, lo, hi - 1, i);
      if active[hi - 1] {
        FieldsSpare(a, Range(a, active, st, lo, hi - 1), hi - 1, a.segment, i);
      }
    }
  }

  // ----- Complete loads -----

  lemma UnitAddress(a: Access, idx: nat, s: nat)
    requires !a.useStride
    ensures a.Address(idx, s) == a.rs1 + idx * a.stride + (idx * a.segment + s) * a.width
  {
    assert a.stride * idx == idx * a.stride;
    assert (idx * a.segment + s) * a.width == idx * a.segment * a.width + s * a.width;
    assert a.segment * a.width * idx == idx * a.segment * a.width;
  }

  lemma StridedAddress(a: Access, idx: nat, s: nat)
    requires a.useStride
    ensures a.Address(idx, s) == a.rs1 + idx * a.stride + s * a.width
  {
    assert a.stride * idx == idx * a.stride;
  }

  predicate Done(active: seq<bool>, vstart: nat, vl: nat, idx: nat) {
    vstart <= idx < vl && idx < |active| && active[idx]
  }

  /** Byte k of field s of element idx is that of a place in the old memory if the element is done, and as it was otherwise. */
  predicate LoadedByte(a: Access, active: seq<bool>, was: State, now: State, vstart: nat, vl: nat, idx: nat, s: nat, k: nat, place: int) {
    var at := idx + a.emulStride * s;
    && |was.mem| > 0 && at < |was.regs| && at < |now.regs| && k < |was.regs[at]| && k < |now.regs[at]|
    && now.regs[at][k] == if Done(active, vstart, vl, idx) then was.mem[place % |was.mem|] else was.regs[at][k]
  }

  /** Without useStride, elements follow one another in memory, the stride apart: zero for the unit-stride instructions. */
  predicate UnitByte(a: Access, active: seq<bool>, was: State, now: State, vstart: nat, vl: nat, idx: nat, s: nat, k: nat) {
    LoadedByte(a, active, was, now, vstart, vl, idx, s, k, a.rs1 + idx * a.stride + (idx * a.segment + s) * a.width + k)
  }

  /** With useStride, the first bytes of elements are a stride apart in memory, and their fields follow one another. */
  predicate StridedByte(a: Access, active: seq<bool>, was: State, now: State, vstart: nat, vl: nat, idx: nat, s: nat, k: nat) {
    LoadedByte(a, active, was, now, vstart, vl, idx, s, k, a.rs1 + idx * a.stride + s * a.width + k)
  }

  /** What a complete load leaves. */
  ghost predicate Loaded(a: Access, active: seq<bool>, was: State, now: State, vstart: nat, vl: nat) {
    && now.mem == was.mem && |now.regs| == |was.regs|
    && forall idx: nat, s: nat, k: nat :: idx < a.emulStride && s < a.segment && k < a.width ==>
         && (!a.useStride ==> UnitByte(a, active, was, now, vstart, vl, idx, s, k))
         && (a.useStride ==> StridedByte(a, active, was, now, vstart, vl, idx, s, k))
  }

  lemma ByteLoaded(a: Access, active: seq<bool>, st: State, vstart: nat, vl: nat, idx: nat, s: nat, k: nat)
    requires Fits(a, st) && a.load && vl <= |active| <= a.emulStride && idx < a.emulStride && s < a.segment && k < a.width
    ensures LoadedByte(a, active, st, Range(a, active, st, vstart, vl), vstart, vl, idx, s, k, a.Address(idx, s) + k)
  {
    var now := Range(a, active, st, vstart, vl);
    assert Fits(a, now);
    RangeLoaded(a, active, st, vstart, vl, idx, s);
    hide Range, Access.Address;
  }

  lemma LoadKeepsMem(a: Access, active: seq<bool>, st: State, lo: nat, hi: nat)
    requires Fits(a, st) && a.load && hi <= |active| <= a.emulStride
    ensures Range(a, active, st, lo, hi).mem == st.mem && |Range(a, active, st, lo, hi).regs| == |st.regs|
  {
    if hi > lo {
      RangeLoaded(a, active, st, lo, hi, 0, 0);
    }
  }

  lemma RangeLoads(a: Access, active: seq<bool>, st: State, vstart: nat, vl: nat)
    requires Fits(a, st) && a.load && vl <= |active| <= a.emulStride
    ensures Loaded(a, active, st, Range(a, active, st, vstart, vl), vstart, vl)
  {
    hide Range, Fits, LoadedByte, Access.Address;
    LoadKeepsMem(a, active, st, vstart, vl);
    forall idx: nat, s: nat, k: nat | idx < a.emulStride && s < a.segment && k < a.width
      ensures !a.useStride ==> UnitByte(a, active, st, Range(a, active, st, vstart, vl), vstart, vl, idx, s, k)
      ensures a.useStride ==> StridedByte(a, active, st, Range(a, active, st, vstart, vl), vstart, vl, idx, s, k)
    {
      ByteLoaded(a, active, st, vstart, vl, idx, s, k);
      if a.useStride {
        StridedAddress(a, idx, s);
      } else {
        UnitAddress(a, idx, s);
      }
    }
  }

  // ----- Complete stores -----

  /** Byte k of field s of element idx lies over a byte of the memory. */
  predicate UnitOver(a: Access, size: nat, idx: nat, s: nat, k: nat, i: int)
    requires size > 0
  {
    k < a.width && (a.rs1 + idx * a.stride + (idx * a.segment + s) * a.width + k) % size == i
  }

  predicate StridedOver(a: Access, size: nat, idx: nat, s: nat, k: nat, i: int)
    requires size > 0
  {
    k < a.width && (a.rs1 + idx * a.stride + s * a.width + k) % size == i
  }

  predicate Over(a: Access, size: nat, idx: nat, s: nat, k: nat, i: int)
    requires size > 0
  {
    if a.useStride then StridedOver(a, size, idx, s, k, i) else UnitOver(a, size, idx, s, k, i)
  }

  /** A field of the run, and one that comes after another. */
  predicate Stored(a: Access, active: seq<bool>, vstart: nat, vl: nat, idx: nat, s: nat) {
    Done(active, vstart, vl, idx) && s < a.segment
  }

  predicate After(idx: nat, s: nat, j: nat, t: nat) {
    idx < j || (idx == j && s < t)
  }

  /** A field of the run lies over a byte of the memory, and no later one does. */
  ghost predicate LastOver(a: Access, active: seq<bool>, size: nat, vstart: nat, vl: nat, idx: nat, s: nat, k: nat, i: int)
    requires size > 0
  {
    && Stored(a, active, vstart, vl, idx, s) && Over(a, size, idx, s, k, i)
    && forall j: nat, t: nat, m: nat :: After(idx, s, j, t) && Stored(a, active, vstart, vl, j, t) ==> !Over(a, size, j, t, m, i)
  }

  /** No field of the run lies over a byte of the memory. */
  ghost predicate Spared(a: Access, active: seq<bool>, size: nat, vstart: nat, vl: nat, i: int)
    requires size > 0
  {
    forall j: nat, t: nat, m: nat :: Stored(a, active, vstart, vl, j, t) ==> !Over(a, size, j, t, m, i)
  }

  /** A byte of the memory is byte k of a field. */
  predicate Holds(a: Access, was: State, now: State, idx: nat, s: nat, k: nat, i: nat) {
    var at := idx + a.emulStride * s;
    at < |was.regs| && k < |was.regs[at]| && i < |now.mem| && now.mem[i] == was.regs[at][k]
  }

  /** What a complete store leaves. */
  ghost predicate StoreLeaves(a: Access, active: seq<bool>, was: State, now: State, vstart: nat, vl: nat) {
    var size := |was.mem|;
    && now.regs == was.regs && |now.mem| == size > 0
    && (forall idx: nat, s: nat, k: nat, i: nat :: i < size && LastOver(a, active, size, vstart, vl, idx, s, k, i) ==>
          Holds(a, was, now, idx, s, k, i))
    && forall i: nat :: i < size && Spared(a, active, size, vstart, vl, i) ==> now.mem[i] == was.mem[i]
  }

  lemma OverIsCovered(a: Access, size: nat, idx: nat, s: nat, k: nat, i: nat)
    requires a.width <= size && i < size
    ensures k < a.width ==> (Over(a, size, idx, s, k, i) <==> (i - a.Address(idx, s)) % size == k)
  {
    if a.useStride {
      StridedAddress(a, idx, s);
    } else {
      UnitAddress(a, idx, s);
    }
    if k < a.width {
      PlaceIs(a.Address(idx, s), k, i, size);
    }
    hide Access.Address;
  }

  lemma PlaceIs(addr: int, k: nat, i: nat, size: nat)
    requires k < size && i < size
    ensures (addr + k) % size == i <==> (i - addr) % size == k
  {
    ModDifference(addr + k, addr, size);
    SmallMod(k, size);
    ModInverse(i, addr, size);
  }

  lemma CoveredIsOver(a: Access, size: nat, idx: nat, s: nat, i: nat)
    requires a.width <= size && i < size && Covers(a, size, idx, s, i)
    ensures exists m: nat :: Over(a, size, idx, s, m, i)
  {
    var m: nat := (i - a.Address(idx, s)) % size;
    OverIsCovered(a, size, idx, s, m, i);
    assert Over(a, size, idx, s, m, i);
  }

  lemma ByteStored(a: Access, active: seq<bool>, st: State, vstart: nat, vl: nat, idx: nat, s: nat, k: nat, i: nat)
    requires Fits(a, st) && !a.load && vl <= |active| <= a.emulStride && i < |st.mem|
    requires LastOver(a, active, |st.mem|, vstart, vl, idx, s, k, i)
    ensures Holds(a, st, Range(a, active, st, vstart, vl), idx, s, k, i)
  {
    var size := |st.mem|;
    SizePositive(a, st);
    OverIsCovered(a, size, idx, s, k, i);
    assert Covers(a, size, idx, s, i);
    forall j: nat, t: nat | Later(a, active, vl, idx, s, j, t)
      ensures !Covers(a, size, j, t, i)
    {
      assert After(idx, s, j, t) && Stored(a, active, vstart, vl, j, t);
      if Covers(a, size, j, t, i) {
        CoveredIsOver(a, size, j, t, i);
      }
    }
    RangeStored(a, active, st, vstart, vl, idx, s, i);
  }

  lemma ByteSpared(a: Access, active: seq<bool>, st: State, vstart: nat, vl: nat, i: nat)
    requires Fits(a, st) && !a.load && vl <= |active| <= a.emulStride && i < |st.mem|
    requires Spared(a, active, |st.mem|, vstart, vl, i)
    ensures Range(a, active, st, vstart, vl).mem[i] == st.mem[i]
  {
    var size := |st.mem|;
    SizePositive(a, st);
    forall j: nat, t: nat | vstart <= j < vl && active[j] && t < a.segment
      ensures !Covers(a, size, j, t, i)
    {
      assert Stored(a, active, vstart, vl, j, t);
      if Covers(a, size, j, t, i) {
        CoveredIsOver(a, size, j, t, i);
      }
    }
    RangeSpares(a, active, st, vstart, vl, i);
  }

  lemma RangeStores(a: Access, active: seq<bool>, st: State, vstart: nat, vl: nat)
    requires Fits(a, st) && !a.load && vl <= |active| <= a.emulStride
    ensures StoreLeaves(a, active, st, Range(a, active, st, vstart, vl), vstart, vl)
  {
    SizePositive(a, st);
    RangeKeepsRegs(a, active, st, vstart, vl);
    hide Range, Fits, LastOver, Spared, Holds;
    var size, now := |st.mem|, Range(a, active, st, vstart, vl);
    forall idx: nat, s: nat, k: nat, i: nat | i < size && LastOver(a, active, size, vstart, vl, idx, s, k, i)
      ensures Holds(a, st, now, idx, s, k, i)
    {
      ByteStored(a, active, st, vstart, vl, idx, s, k, i);
    }
    forall i: nat | i < size && Spared(a, active, size, vstart, vl, i)
      ensures now.mem[i] == st.mem[i]
    {
      ByteSpared(a, active, st, vstart, vl, i);
    }
  }

  // ----- Fields that do not overlap -----

  /** How far the addresses of neighbouring elements are apart. */
  function Step(a: Access): int {
    a.stride + if a.useStride then 0 else a.segment * a.width
  }

  /** The distance of byte k of a field from the first byte of the run. */
  function Offset(a: Access, idx: nat, s: nat, k: nat): int {
    idx * Step(a) + (s * a.width + k)
  }

  lemma OverIsAt(a: Access, size: nat, idx: nat, s: nat, k: nat, i: int)
    requires size > 0 && k < a.width
    ensures Over(a, size, idx, s, k, i) <==> (a.rs1 + Offset(a, idx, s, k)) % size == i
  {
    assert (idx * a.segment + s) * a.width == idx * a.segment * a.width + s * a.width;
    assert idx * (a.segment * a.width) == idx * a.segment * a.width;
    assert idx * (a.stride + a.segment * a.width) == idx * a.stride + idx * (a.segment * a.width);
  }

  lemma OffsetInside(a: Access, vl: nat, idx: nat, s: nat, k: nat)
    requires idx < vl && s < a.segment && k < a.width && a.segment * a.width <= Step(a)
    ensures s * a.width + k < Step(a) && 0 <= Offset(a, idx, s, k) < vl * Step(a)
  {
    MulMonotone(s + 1, a.segment, a.width);
    assert (s + 1) * a.width == s * a.width + a.width;
    MulMonotone(idx + 1, vl, Step(a));
    assert (idx + 1) * Step(a) == idx * Step(a) + Step(a);
  }

  lemma OffsetUnique(a: Access, vl: nat, idx: nat, s: nat, k: nat, j: nat, t: nat, m: nat)
    requires idx < vl && s < a.segment && k < a.width && j < vl && t < a.segment && m < a.width && a.segment * a.width <= Step(a)
    requires Offset(a, idx, s, k) == Offset(a, j, t, m)
    ensures idx == j && s == t && k == m
  {
    OffsetInside(a, vl, idx, s, k);
    OffsetInside(a, vl, j, t, m);
    QuotientUnique(Step(a), idx, s * a.width + k, j, t * a.width + m);
    QuotientUnique(a.width, s, k, t, m);
  }

  lemma ModUnique(rs1: int, x: nat, y: nat, size: nat)
    requires x < size && y < size && (rs1 + x) % size == (rs1 + y) % size
    ensures x == y
  {
    ModDifference(rs1 + x, rs1, size);
    ModDifference(rs1 + y, rs1, size);
    SmallMod(x, size);
    SmallMod(y, size);
  }

  /** Where elements are at least their own size apart and the run fits the memory, every field keeps all of its bytes. */
  lemma StoredApart(a: Access, active: seq<bool>, was: State, now: State, vstart: nat, vl: nat, idx: nat, s: nat, k: nat)
    requires StoreLeaves(a, active, was, now, vstart, vl) && Stored(a, active, vstart, vl, idx, s) && k < a.width
    requires a.segment * a.width <= Step(a) && vl * Step(a) <= |was.mem|
    ensures var place := (a.rs1 + Offset(a, idx, s, k)) % |was.mem|; 0 <= place && Holds(a, was, now, idx, s, k, place)
  {
    var size := |was.mem|;
    var i: nat := (a.rs1 + Offset(a, idx, s, k)) % size;
    OffsetInside(a, vl, idx, s, k);
    OverIsAt(a, size, idx, s, k, i);
    forall j: nat, t: nat, m: nat | After(idx, s, j, t) && Stored(a, active, vstart, vl, j, t)
      ensures !Over(a, size, j, t, m, i)
    {
      if Over(a, size, j, t, m, i) {
        OverIsAt(a, size, j, t, m, i);
        OffsetInside(a, vl, j, t, m);
        ModUnique(a.rs1, Offset(a, idx, s, k), Offset(a, j, t, m), size);
        OffsetUnique(a, vl, idx, s, k, j, t, m);
        assert false;
      }
    }
    assert LastOver(a, active, size, vstart, vl, idx, s, k, i);
  }
}
