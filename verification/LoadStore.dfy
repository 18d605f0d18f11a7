/** The loop of the segment and strided accesses, in place on the register file and the memory. */
module LoadStore {
  import opened Powers
  import opened VRegs
  import opened LoadStoreSpec
  import opened LoadStoreTransfer

  ghost function StateOf(a: Access, mem: seq<Byte>, v: seq<Byte>, vd: nat): State {
    State(mem, Elements(v, vd, a.width, a.emulStride * a.segment))
  }

  /** The transfer of one element; it may fault, and then changes nothing. */
  method Transfer(a: Access, mem: array<Byte>, v: array<Byte>, vd: nat, at: nat, addr: int) returns (ok: bool)
    requires mem != v && mem.Length > 0 && Inside(v.Length, vd, a.width, a.emulStride * a.segment) && at < a.emulStride * a.segment
    modifies mem, v
    ensures !ok ==> v[..] == old(v[..]) && mem[..] == old(mem[..])
    ensures ok && a.load ==> mem[..] == old(mem[..])
    ensures ok && a.load ==>
              var n := a.emulStride * a.segment;
              Elements(v[..], vd, a.width, n) == Elements(old(v[..]), vd, a.width, n)[at := ReadMem(old(mem[..]), addr, a.width)]
    ensures ok && !a.load ==> v[..] == old(v[..])
    ensures ok && !a.load ==> mem[..] == WriteMem(old(mem[..]), addr, Elements(old(v[..]), vd, a.width, a.emulStride * a.segment)[at])
    ensures SameOutside(old(v[..]), v[..], vd, a.emulStride * a.segment * a.width)
  {
    hide Elements, SameOutside;
    ghost var n := a.emulStride * a.segment;
    OutsideSelf(v[..], vd, n * a.width);
    ok := *;
    if ok {
      if a.load {
        StoreElement(v, vd, a.width, a.emulStride * a.segment, at, ReadMem(mem[..], addr, a.width));
      } else {
        var b := LoadElement(v, vd, a.width, a.emulStride * a.segment, at);
        var written := WriteMem(mem[..], addr, b);
        forall i | 0 <= i < mem.Length {
          mem[i] := written[i];
        }
        assert mem[..] == written;
      }
    }
  }

  lemma ElementsFit(a: Access, mem: seq<Byte>, v: seq<Byte>, vd: nat)
    requires a.Valid() && a.segment * a.width <= |mem| && Inside(|v|, vd, a.width, a.emulStride * a.segment)
    ensures Fits(a, StateOf(a, mem, v, vd)) && |mem| > 0
  {
    var n := a.emulStride * a.segment;
    MulMonotone(1, a.segment, a.width);
    forall i | 0 <= i < n
      ensures |Elements(v, vd, a.width, n)[i]| == a.width
    {
      ElemInside(|v|, vd, a.width, n, i);
    }
  }

  /** The fields of one element. */
  method AccessFields(a: Access, mem: array<Byte>, v: array<Byte>, vd: nat, idx: nat) returns (ok: bool, ghost done: nat)
    requires mem != v && a.Valid() && a.segment * a.width <= mem.Length && idx < a.emulStride
    requires Inside(v.Length, vd, a.width, a.emulStride * a.segment)
    modifies mem, v
    ensures Fits(a, old(StateOf(a, mem[..], v[..], vd)))
    ensures if ok then done == a.segment else done < a.segment
    ensures StateOf(a, mem[..], v[..], vd) == Fields(a, old(StateOf(a, mem[..], v[..], vd)), idx, done)
    ensures SameOutside(old(v[..]), v[..], vd, a.emulStride * a.segment * a.width)
  {
    hide Fits, SameOutside, Elements, Inside;
    ghost var st, was := StateOf(a, mem[..], v[..], vd), v[..];
    ElementsFit(a, mem[..], v[..], vd);
    OutsideSelf(was, vd, a.emulStride * a.segment * a.width);
    done := 0;
    for s := 0 to a.segment
      invariant done == s
      invariant StateOf(a, mem[..], v[..], vd) == Fields(a, st, idx, s)
      invariant SameOutside(was, v[..], vd, a.emulStride * a.segment * a.width)
    {
      FieldInside(a, idx, s);
      FieldFits(a, Fields(a, st, idx, s), idx, s);
      ghost var before := v[..];
      ok := Transfer(a, mem, v, vd, a.Pos(idx, s), a.Address(idx, s));
      OutsideTrans(was, before, v[..], vd, a.emulStride * a.segment * a.width);
      if !ok {
        return;
      }
      done := s + 1;
    }
    ok := true;
  }

  /**
   The whole run; it returns the element at which an access faults, and zero when it completes. What a
   complete run leaves is stated byte by byte as well.
   */
  method VectorLoadStore(a: Access, mem: array<Byte>, v: array<Byte>, vlmax: nat, vl: nat, vstart: nat, vm: bool, vd: nat, v0: nat)
    returns (r: nat, ghost complete: bool)
    requires mem != v && a.Valid() && a.segment * a.width <= mem.Length
    requires Inside(v.Length, vd, a.width, a.emulStride * a.segment) && MaskInside(v.Length, v0, vlmax)
    requires vl <= vlmax <= a.emulStride && Apart(vd, a.emulStride * a.segment * a.width, v0, (vlmax + 7) / 8)
    modifies mem, v
    ensures Fits(a, old(StateOf(a, mem[..], v[..], vd)))
    ensures var active, st, now := old(ActiveMask(v[..], vm, v0, vlmax)), old(StateOf(a, mem[..], v[..], vd)), StateOf(a, mem[..], v[..], vd);
      && Outcome(a, active, st, vstart, vl, now, r)
      && (!complete ==> Faulted(a, active, st, vstart, vl, now, r))
      && (complete ==> r == 0 && now == Range(a, active, st, vstart, vl))
      && (complete && a.load ==> Loaded(a, active, st, now, vstart, vl))
      && (complete && !a.load ==> StoreLeaves(a, active, st, now, vstart, vl))
    ensures SameOutside(old(v[..]), v[..], vd, a.emulStride * a.segment * a.width)
  {
    hide Fits, SameOutside, Elements, Inside, Mask, Fields, StateOf, Loaded, StoreLeaves;
    ghost var st, was := StateOf(a, mem[..], v[..], vd), v[..];
    ghost var active := ActiveMask(was, vm, v0, vlmax);
    ghost var len := a.emulStride * a.segment * a.width;
    ElementsFit(a, mem[..], v[..], vd);
    OutsideSelf(was, vd, len);
    var idx := vstart;
    complete := false;
    while idx < vl
      invariant vstart <= idx && (idx <= vstart || idx <= vl)
      invariant StateOf(a, mem[..], v[..], vd) == Range(a, active, st, vstart, if idx < vl then idx else vl)
      invariant SameOutside(was, v[..], vd, len) && !complete
    {
      MaskSame(was, v[..], vd, len, v0, vlmax);
      var maskActive := vm;
      if !vm {
        maskActive := LoadMaskBit(v, v0, vlmax, idx);
      }
      if maskActive {
        ghost var before := v[..];
        var ok;
        ghost var done;
        ok, done := AccessFields(a, mem, v, vd, idx);
        OutsideTrans(was, before, v[..], vd, len);
        if !ok {
          assert StateOf(a, mem[..], v[..], vd) == Cut(a, active, st, vstart, idx, done);
          return idx, false;
        }
      }
      idx := idx + 1;
    }
    r, complete := 0, true;
    if a.load {
      RangeLoads(a, active, st, vstart, vl);
    } else {
      RangeStores(a, active, st, vstart, vl);
    }
  }
}
