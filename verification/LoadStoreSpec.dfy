/** Segment and strided accesses of the vector engine: what a run does, and that a faulting run may be resumed. */
module LoadStoreSpec {
  import opened Powers
  import opened VRegs

  /** An access: its direction, the layout of its register group and its addresses. */
  datatype Access = Access(load: bool, width: nat, segment: nat, emulStride: nat, rs1: int, stride: int, useStride: bool) {
    predicate Valid() {
      width > 0 && segment > 0
    }

    /** The register element of a field. */
    function Pos(idx: nat, s: nat): nat {
      idx + emulStride * s
    }

    /** The address of a field; addresses are used modulo the size of the address space. */
    function Address(idx: nat, s: nat): int {
      rs1 + stride * idx + (if useStride then 0 else segment * width * idx) + s * width
    }
  }

  /** The memory and the elements of the register group. */
  datatype State = State(mem: seq<Byte>, regs: seq<Elem>)

  ghost predicate Fits(a: Access, st: State) {
    && a.Valid() && a.segment * a.width <= |st.mem| && |st.regs| == a.emulStride * a.segment
    && forall i :: 0 <= i < |st.regs| ==> |st.regs[i]| == a.width
  }

  // ----- Memory -----

  function ReadMem(mem: seq<Byte>, addr: int, width: nat): (r: Elem)
    requires |mem| > 0
    ensures |r| == width
  {
    seq(width, k requires 0 <= k < width => mem[(addr + k) % |mem|])
  }

  function WriteMem(mem: seq<Byte>, addr: int, b: Elem): (r: seq<Byte>)
    requires |mem| > 0
    ensures |r| == |mem|
  {
    seq(|mem|, i requires 0 <= i < |mem| => if (i - addr) % |mem| < |b| then b[(i - addr) % |mem|] else mem[i])
  }

  lemma SmallMod(k: int, n: nat)
    requires 0 <= k < n
    ensures k % n == k && (k - n) % n == k
  {
    ModPlus(k, -1, n);
  }

  lemma ReadWritten(mem: seq<Byte>, addr: int, b: Elem)
    requires 0 < |b| <= |mem|
    ensures ReadMem(WriteMem(mem, addr, b), addr, |b|) == b
  {
    forall k | 0 <= k < |b|
      ensures ReadMem(WriteMem(mem, addr, b), addr, |b|)[k] == b[k]
    {
      ModDifference(addr + k, addr, |mem|);
      SmallMod(k, |mem|);
    }
  }

  lemma WriteRead(mem: seq<Byte>, addr: int, width: nat)
    requires 0 < width <= |mem|
    ensures WriteMem(mem, addr, ReadMem(mem, addr, width)) == mem
  {
    hide WriteMem, ReadMem;
    var b := ReadMem(mem, addr, width);
    forall i | 0 <= i < |mem|
      ensures WriteMem(mem, addr, b)[i] == mem[i]
    {
      WrittenAt(mem, addr, b, i);
      ModInverse(i, addr, |mem|);
      ReadAt(mem, addr, width);
    }
  }

  lemma WrittenAt(mem: seq<Byte>, addr: int, b: Elem, i: nat)
    requires i < |mem|
    ensures var k := (i - addr) % |mem|; 0 <= k && WriteMem(mem, addr, b)[i] == if k < |b| then b[k] else mem[i]
  {
  }

  lemma ReadAt(mem: seq<Byte>, addr: int, width: nat)
    requires |mem| > 0
    ensures forall k :: 0 <= k < width ==> 0 <= (addr + k) % |mem| < |mem| && ReadMem(mem, addr, width)[k] == mem[(addr + k) % |mem|]
  {
  }

  lemma ModInverse(i: nat, addr: int, n: nat)
    requires i < n
    ensures (addr + (i - addr) % n) % n == i
  {
    var q := (i - addr) / n;
    assert (i - addr) % n == i - addr - q * n;
    assert (-q) * n == -(q * n);
    ModPlus(i, -q, n);
    SmallMod(i, n);
  }

  /** A write at a distance of at least its width, below the size of the memory, leaves what is read. */
  lemma ReadApart(mem: seq<Byte>, addr: int, b: Elem, other: int, width: nat)
    requires |mem| > 0 && (|b| <= other - addr <= |mem| - width || width <= addr - other <= |mem| - |b|)
    ensures ReadMem(WriteMem(mem, addr, b), other, width) == ReadMem(mem, other, width)
  {
    forall k | 0 <= k < width
      ensures ReadMem(WriteMem(mem, addr, b), other, width)[k] == ReadMem(mem, other, width)[k]
    {
      ModDifference(other + k, addr, |mem|);
      var distance := other + k - addr;
      if distance >= 0 {
        SmallMod(distance, |mem|);
      } else {
        SmallMod(distance + |mem|, |mem|);
      }
    }
  }

  // ----- Fields -----

  /** One field: a load sets its element, a store its memory. */
  function Field(a: Access, st: State, idx: nat, s: nat): State
    requires |st.mem| > 0 && a.Pos(idx, s) < |st.regs|
  {
    if a.load then st.(regs := st.regs[a.Pos(idx, s) := ReadMem(st.mem, a.Address(idx, s), a.width)])
    else st.(mem := WriteMem(st.mem, a.Address(idx, s), st.regs[a.Pos(idx, s)]))
  }

  lemma FieldInside(a: Access, idx: nat, s: nat)
    requires idx < a.emulStride && s < a.segment
    ensures a.Pos(idx, s) < a.emulStride * a.segment
  {
    assert a.emulStride * (s + 1) <= a.emulStride * a.segment by { MulMonotone(s + 1, a.segment, a.emulStride); }
    assert a.emulStride * (s + 1) == a.emulStride * s + a.emulStride;
  }

  /** Different fields have different elements. */
  lemma FieldsApart(a: Access, idx: nat, s: nat, other: nat, t: nat)
    requires idx < a.emulStride && other < a.emulStride
    ensures a.Pos(idx, s) == a.Pos(other, t) <==> idx == other && s == t
  {
    if a.Pos(idx, s) == a.Pos(other, t) {
      assert s * a.emulStride + idx == t * a.emulStride + other;
      QuotientUnique(a.emulStride, s, idx, t, other);
    }
  }

  /** The addresses of the fields of an element are apart, in the address space. */
  lemma AddressesApart(a: Access, size: nat, idx: nat, s: nat, t: nat)
    requires a.Valid() && s < a.segment && t < a.segment && s != t && a.segment * a.width <= size
    ensures var d := a.Address(idx, t) - a.Address(idx, s);
      a.width <= d <= size - a.width || a.width <= -d <= size - a.width
  {
    var w := a.width;
    assert a.Address(idx, t) - a.Address(idx, s) == t * w - s * w;
    if s < t {
      Distance(s, t, a.segment, w);
    } else {
      Distance(t, s, a.segment, w);
    }
  }

  lemma Distance(s: nat, t: nat, n: nat, w: nat)
    requires s < t < n
    ensures w <= t * w - s * w <= n * w - w
  {
    MulMonotone(s + 1, t, w);
    MulMonotone(t + 1, n, w);
    assert (s + 1) * w == s * w + w && (t + 1) * w == t * w + w;
    MulMonotone(0, s, w);
  }

  /** The memory and the element of a field agree. */
  predicate Agrees(a: Access, st: State, idx: nat, s: nat)
    requires |st.mem| > 0 && a.Pos(idx, s) < |st.regs|
  {
    ReadMem(st.mem, a.Address(idx, s), a.width) == st.regs[a.Pos(idx, s)]
  }

  lemma SizePositive(a: Access, st: State)
    requires Fits(a, st)
    ensures |st.mem| >= a.width > 0
  {
    MulMonotone(1, a.segment, a.width);
  }

  lemma FieldFits(a: Access, st: State, idx: nat, s: nat)
    requires Fits(a, st) && idx < a.emulStride && s < a.segment
    ensures |st.mem| >= a.width && a.Pos(idx, s) < |st.regs| && Fits(a, Field(a, st, idx, s))
  {
    SizePositive(a, st);
    FieldInside(a, idx, s);
  }

  /** After a field is accessed, it agrees. */
  lemma FieldAgrees(a: Access, st: State, idx: nat, s: nat)
    requires Fits(a, st) && idx < a.emulStride && s < a.segment
    ensures |st.mem| > 0 && a.Pos(idx, s) < |st.regs| && Agrees(a, Field(a, st, idx, s), idx, s)
  {
    FieldFits(a, st, idx, s);
    if !a.load {
      ReadWritten(st.mem, a.Address(idx, s), st.regs[a.Pos(idx, s)]);
    }
  }

  /** Accessing a field that agrees changes nothing. */
  lemma AgreesStays(a: Access, st: State, idx: nat, s: nat)
    requires Fits(a, st) && idx < a.emulStride && s < a.segment
    requires |st.mem| > 0 && a.Pos(idx, s) < |st.regs| && Agrees(a, st, idx, s)
    ensures Field(a, st, idx, s) == st
  {
    SizePositive(a, st);
    if !a.load {
      WriteRead(st.mem, a.Address(idx, s), a.width);
    }
  }

  /** Accessing another field of the element leaves an agreement. */
  lemma AgreesKept(a: Access, st: State, idx: nat, s: nat, t: nat)
    requires Fits(a, st) && idx < a.emulStride && s < a.segment && t < a.segment && s != t
    requires |st.mem| > 0 && a.Pos(idx, s) < |st.regs| && a.Pos(idx, t) < |st.regs| && Agrees(a, st, idx, s)
    ensures Agrees(a, Field(a, st, idx, t), idx, s)
  {
    FieldsApart(a, idx, s, idx, t);
    if !a.load {
      AddressesApart(a, |st.mem|, idx, s, t);
      ReadApart(st.mem, a.Address(idx, t), st.regs[a.Pos(idx, t)], a.Address(idx, s), a.width);
    }
  }

  // ----- Elements -----

  /** The first n fields of an element. */
  ghost function Fields(a: Access, st: State, idx: nat, n: nat): (r: State)
    requires Fits(a, st) && idx < a.emulStride && n <= a.segment
    ensures Fits(a, r) && |r.mem| == |st.mem|
  {
    if n == 0 then st
    else
      var before := Fields(a, st, idx, n - 1);
      FieldFits(a, before, idx, n - 1);
      Field(a, before, idx, n - 1)
  }

  lemma {:induction false} FieldsAgree(a: Access, st: State, idx: nat, n: nat, s: nat)
    requires Fits(a, st) && idx < a.emulStride && s < n <= a.segment
    ensures var r := Fields(a, st, idx, n);
      |r.mem| > 0 && a.Pos(idx, s) < |r.regs| && Agrees(a, r, idx, s)
    decreases n
  {
    hide Fits, Agrees;
    var before := Fields(a, st, idx, n - 1);
    FieldFits(a, before, idx, n - 1);
    if s == n - 1 {
      FieldAgrees(a, before, idx, s);
    } else {
      FieldsAgree(a, st, idx, n - 1, s);
      AgreesKept(a, before, idx, s, n - 1);
    }
    FieldFits(a, before, idx, s);
  }

  /** Accessing the first fields again changes nothing. */
  lemma {:induction false} FieldsAgain(a: Access, st: State, idx: nat, n: nat, k: nat)
    requires Fits(a, st) && idx < a.emulStride && k <= n <= a.segment
    ensures Fields(a, Fields(a, st, idx, n), idx, k) == Fields(a, st, idx, n)
    decreases k
  {
    if k > 0 {
      hide Fits, Agrees, Field;
      FieldsAgain(a, st, idx, n, k - 1);
      FieldsAgree(a, st, idx, n, k - 1);
      AgreesStays(a, Fields(a, st, idx, n), idx, k - 1);
    }
  }

  /** So an element whose access was cut short may be accessed again from its first field. */
  lemma {:induction false} FieldsResumed(a: Access, st: State, idx: nat, n: nat, m: nat)
    requires Fits(a, st) && idx < a.emulStride && n <= m <= a.segment
    ensures Fields(a, Fields(a, st, idx, n), idx, m) == Fields(a, st, idx, m)
    decreases m
  {
    if m == n {
      FieldsAgain(a, st, idx, n, n);
    } else {
      hide Fits, Field;
      FieldsResumed(a, st, idx, n, m - 1);
    }
  }

  // ----- Runs -----

  /** The elements from one index up to another; only active ones are accessed. */
  ghost function Range(a: Access, active: seq<bool>, st: State, lo: nat, hi: nat): (r: State)
    requires Fits(a, st) && hi <= |active| <= a.emulStride
    ensures Fits(a, r) && |r.mem| == |st.mem|
    decreases hi
  {
    if hi <= lo then st
    else
      var before := Range(a, active, st, lo, hi - 1);
      if active[hi - 1] then Fields(a, before, hi - 1, a.segment) else before
  }

  lemma {:induction false} RangeSplit(a: Access, active: seq<bool>, st: State, lo: nat, mid: nat, hi: nat)
    requires Fits(a, st) && lo <= mid <= hi <= |active| <= a.emulStride
    ensures Range(a, active, Range(a, active, st, lo, mid), mid, hi) == Range(a, active, st, lo, hi)
    decreases hi
  {
    hide Fits, Fields;
    if mid < hi {
      RangeSplit(a, active, st, lo, mid, hi - 1);
    }
  }

  /** A run that faults at a field of an active element: the elements before are done, and the fields before. */
  ghost function Cut(a: Access, active: seq<bool>, st: State, vstart: nat, idx: nat, s: nat): (r: State)
    requires Fits(a, st) && vstart <= idx < |active| <= a.emulStride && s < a.segment
    ensures Fits(a, r)
  {
    Fields(a, Range(a, active, st, vstart, idx), idx, s)
  }

  /** A run that has been cut may be resumed at the element where it was cut. */
  lemma CutResumed(a: Access, active: seq<bool>, st: State, vstart: nat, idx: nat, s: nat, vl: nat)
    requires Fits(a, st) && vstart <= idx < vl <= |active| <= a.emulStride && s < a.segment && active[idx]
    ensures Range(a, active, Cut(a, active, st, vstart, idx, s), idx, vl) == Range(a, active, st, vstart, vl)
  {
    hide Fits, Fields;
    var before := Range(a, active, st, vstart, idx);
    var cut := Cut(a, active, st, vstart, idx, s);
    FieldsResumed(a, before, idx, s, a.segment);
    OneElement(a, active, cut, idx);
    OneElement(a, active, before, idx);
    RangeSplit(a, active, cut, idx, idx + 1, vl);
    RangeSplit(a, active, before, idx, idx + 1, vl);
    RangeSplit(a, active, st, vstart, idx, vl);
  }

  lemma OneElement(a: Access, active: seq<bool>, st: State, idx: nat)
    requires Fits(a, st) && idx < |active| <= a.emulStride && active[idx]
    ensures Range(a, active, st, idx, idx + 1) == Fields(a, st, idx, a.segment)
  {
    hide Fits, Fields;
  }

  /** A fault: the element and the field. */
  datatype Fault = Fault(idx: nat, field: nat)

  /** Where the run after some faults starts. */
  function Resumed(faults: seq<Fault>, vstart: nat): nat {
    if faults == [] then vstart else faults[|faults| - 1].idx
  }

  ghost predicate FaultsInOrder(a: Access, active: seq<bool>, faults: seq<Fault>, vstart: nat, vl: nat) {
    vstart <= vl <= |active| && (faults != [] ==>
      var front, last := faults[..|faults| - 1], faults[|faults| - 1];
      && FaultsInOrder(a, active, front, vstart, vl)
      && Resumed(front, vstart) <= last.idx < vl && active[last.idx] && last.field < a.segment)
  }

  /** The state after a chain of faulting runs, each resumed where the one before faulted. */
  ghost function Chain(a: Access, active: seq<bool>, st: State, faults: seq<Fault>, vstart: nat, vl: nat): (r: State)
    requires Fits(a, st) && FaultsInOrder(a, active, faults, vstart, vl) && |active| <= a.emulStride
    ensures Fits(a, r)
    decreases |faults|
  {
    if faults == [] then st
    else
      var front, last := faults[..|faults| - 1], faults[|faults| - 1];
      Cut(a, active, Chain(a, active, st, front, vstart, vl), Resumed(front, vstart), last.idx, last.field)
  }

  /** After any chain of faulting runs, the run that completes leaves what one run without faults leaves. */
  lemma {:induction false} ChainCompletes(a: Access, active: seq<bool>, st: State, faults: seq<Fault>, vstart: nat, vl: nat)
    requires Fits(a, st) && FaultsInOrder(a, active, faults, vstart, vl) && |active| <= a.emulStride
    ensures Range(a, active, Chain(a, active, st, faults, vstart, vl), Resumed(faults, vstart), vl) == Range(a, active, st, vstart, vl)
    decreases |faults|
  {
    hide Fits, Range, Cut;
    if faults != [] {
      var front, last := faults[..|faults| - 1], faults[|faults| - 1];
      ChainCompletes(a, active, st, front, vstart, vl);
      CutResumed(a, active, Chain(a, active, st, front, vstart, vl), Resumed(front, vstart), last.idx, last.field, vl);
    }
  }

  /** A run that faults at a field of the element r. */
  ghost predicate Faulted(a: Access, active: seq<bool>, st: State, vstart: nat, vl: nat, st': State, r: nat)
    requires Fits(a, st) && vl <= |active| <= a.emulStride
  {
    vstart <= r < vl && active[r] && exists s :: 0 <= s < a.segment && st' == Cut(a, active, st, vstart, r, s)
  }

  /** What a run may return: zero when it completes, the element where it faults otherwise. */
  ghost predicate Outcome(a: Access, active: seq<bool>, st: State, vstart: nat, vl: nat, st': State, r: nat)
    requires Fits(a, st) && vl <= |active| <= a.emulStride
  {
    || (r == 0 && st' == Range(a, active, st, vstart, vl))
    || Faulted(a, active, st, vstart, vl, st', r)
  }

  /** Neither the run nor the first fields of element zero change the state. */
  ghost predicate NothingToDo(a: Access, active: seq<bool>, st: State, vl: nat)
    requires Fits(a, st) && 0 < vl <= |active| <= a.emulStride
  {
    Range(a, active, st, 0, vl) == st && forall s :: 0 <= s < a.segment ==> Fields(a, st, 0, s) == st
  }

  /** For one state, a zero stands for completion unless the run may fault at element zero and has something to do. */
  lemma ZeroTells(a: Access, active: seq<bool>, st: State, vstart: nat, vl: nat)
    requires Fits(a, st) && vl <= |active| <= a.emulStride
    ensures (forall st' :: Outcome(a, active, st, vstart, vl, st', 0) ==> st' == Range(a, active, st, vstart, vl))
        <==> vstart > 0 || vl == 0 || !active[0] || NothingToDo(a, active, st, vl)
  {
    hide Range, Fits, Fields;
    if vstart == 0 && vl > 0 && active[0] {
      forall s | 0 <= s < a.segment
        ensures Outcome(a, active, st, 0, vl, Fields(a, st, 0, s), 0)
      {
        CutAtZero(a, active, st, s);
      }
      NoFields(a, st);
      if NothingToDo(a, active, st, vl) {
        forall st' | Outcome(a, active, st, 0, vl, st', 0)
          ensures st' == Range(a, active, st, 0, vl)
        {
          if s :| 0 <= s < a.segment && st' == Cut(a, active, st, 0, 0, s) {
            CutAtZero(a, active, st, s);
          }
        }
      } else if Range(a, active, st, 0, vl) == st {
        var s :| 0 <= s < a.segment && Fields(a, st, 0, s) != st;
        assert Outcome(a, active, st, 0, vl, Fields(a, st, 0, s), 0);
      } else {
        assert Outcome(a, active, st, 0, vl, Fields(a, st, 0, 0), 0);
      }
    }
  }

  lemma CutAtZero(a: Access, active: seq<bool>, st: State, s: nat)
    requires Fits(a, st) && 0 < |active| <= a.emulStride && s < a.segment
    ensures Cut(a, active, st, 0, 0, s) == Fields(a, st, 0, s)
  {
    hide Fields;
  }

  lemma NoFields(a: Access, st: State)
    requires Fits(a, st) && a.emulStride > 0
    ensures a.segment > 0 && Fields(a, st, 0, 0) == st
  {
  }

  /** A state in which every field moves ones over zeros. */
  function Fresh(a: Access): State {
    var from: Byte, over: Byte := 1, 0;
    State(seq(a.segment * a.width, i requires 0 <= i => if a.load then from else over),
          seq(a.emulStride * a.segment, i requires 0 <= i => seq(a.width, j requires 0 <= j => if a.load then over else from)))
  }

  function Ones(width: nat): Elem {
    seq(width, i requires 0 <= i => 1)
  }

  /** The ones are still where they come from, and where the first field puts them if it has been accessed. */
  ghost predicate OnesMoved(a: Access, st: State, moved: bool) {
    if a.load then
      (forall i :: 0 <= i < |st.mem| ==> st.mem[i] == 1) && (moved && |st.regs| > 0 ==> st.regs[0] == Ones(a.width))
    else
      (forall i :: 0 <= i < |st.regs| ==> st.regs[i] == Ones(a.width))
      && (moved && |st.mem| > 0 ==> st.mem[a.Address(0, 0) % |st.mem|] == 1)
  }

  lemma FieldMoves(a: Access, st: State, idx: nat, s: nat, moved: bool)
    requires Fits(a, st) && idx < a.emulStride && s < a.segment && OnesMoved(a, st, moved)
    requires |st.mem| > 0 && a.Pos(idx, s) < |st.regs|
    ensures OnesMoved(a, Field(a, st, idx, s), moved || (idx == 0 && s == 0))
  {
    var next := Field(a, st, idx, s);
    if a.load {
      assert ReadMem(st.mem, a.Address(idx, s), a.width) == Ones(a.width);
    } else {
      StoreMoves(a, st, idx, s);
    }
  }

  lemma StoreMoves(a: Access, st: State, idx: nat, s: nat)
    requires Fits(a, st) && idx < a.emulStride && s < a.segment && OnesMoved(a, st, false) && !a.load
    requires |st.mem| > 0 && a.Pos(idx, s) < |st.regs|
    ensures var i := a.Address(0, 0) % |st.mem|; var next := Field(a, st, idx, s);
      && next.regs == st.regs && (next.mem[i] == 1 || next.mem[i] == st.mem[i]) && (idx == 0 && s == 0 ==> next.mem[i] == 1)
  {
    var addr := a.Address(idx, s);
    var i := a.Address(0, 0) % |st.mem|;
    assert st.regs[a.Pos(idx, s)] == Ones(a.width);
    if idx == 0 && s == 0 {
      ModDifference(addr, addr, |st.mem|);
      SmallMod(0, |st.mem|);
      assert (i - addr) % |st.mem| == 0;
    }
  }

  lemma {:induction false} FieldsMove(a: Access, st: State, idx: nat, n: nat, moved: bool)
    requires Fits(a, st) && idx < a.emulStride && n <= a.segment && OnesMoved(a, st, moved)
    ensures OnesMoved(a, Fields(a, st, idx, n), moved || (idx == 0 && n > 0))
    decreases n
  {
    hide Fits, OnesMoved, Field;
    if n > 0 {
      FieldsMove(a, st, idx, n - 1, moved);
      var before := Fields(a, st, idx, n - 1);
      FieldFits(a, before, idx, n - 1);
      SizePositive(a, before);
      FieldMoves(a, before, idx, n - 1, moved || (idx == 0 && n - 1 > 0));
    }
  }

  lemma {:induction false} RangeMoves(a: Access, active: seq<bool>, st: State, hi: nat)
    requires Fits(a, st) && 0 < hi <= |active| <= a.emulStride && OnesMoved(a, st, false) && active[0]
    ensures OnesMoved(a, Range(a, active, st, 0, hi), true)
    decreases hi
  {
    hide Fits, OnesMoved, Fields;
    assert a.segment > 0 by { NoFields(a, st); }
    if hi == 1 {
      assert Range(a, active, st, 0, 0) == st;
      FieldsMove(a, st, 0, a.segment, false);
    } else {
      RangeMoves(a, active, st, hi - 1);
      FieldsMove(a, Range(a, active, st, 0, hi - 1), hi - 1, a.segment, true);
    }
  }

  lemma FreshMoves(a: Access)
    requires a.Valid() && a.emulStride > 0
    ensures Fits(a, Fresh(a)) && OnesMoved(a, Fresh(a), false) && !OnesMoved(a, Fresh(a), true)
  {
    MulMonotone(1, a.segment, a.width);
    MulMonotone(1, a.segment, a.emulStride);
    assert a.emulStride * a.segment >= a.emulStride && a.segment * a.width >= a.width;
    var st := Fresh(a);
    if a.load {
      assert st.regs[0][0] == 0 && Ones(a.width)[0] == 1;
    } else {
      assert forall i :: 0 <= i < |st.regs| ==> st.regs[i] == Ones(a.width);
    }
  }

  /**
   The result does not tell a run that completes from one that faults at element zero: it is zero in
   both cases. It tells them apart in every state exactly when element zero is not accessed.
   */
  lemma ZeroIsAmbiguous(a: Access, active: seq<bool>, vstart: nat, vl: nat)
    requires a.Valid() && vl <= |active| <= a.emulStride
    ensures (forall st, st' :: Fits(a, st) && Outcome(a, active, st, vstart, vl, st', 0) ==> st' == Range(a, active, st, vstart, vl))
        <==> vstart > 0 || vl == 0 || !active[0]
  {
    hide Range, Fits, Fields, Outcome, OnesMoved;
    if vstart > 0 || vl == 0 || !active[0] {
      forall st, st' | Fits(a, st) && Outcome(a, active, st, vstart, vl, st', 0)
        ensures st' == Range(a, active, st, vstart, vl)
      {
        ZeroTells(a, active, st, vstart, vl);
      }
    } else {
      var st := Fresh(a);
      FreshMoves(a);
      RangeMoves(a, active, st, vl);
      assert !NothingToDo(a, active, st, vl);
      ZeroTells(a, active, st, vstart, vl);
    }
  }
}
