/** The register descriptions of a memory-mapped block, their packed layout and the emitted address decode. */
module Mmio {
  import opened Options

  /** A 32-bit word, as the set of its one bits. */
  type Word = set<nat>

  datatype Field = Field(name: string, msb: int, lsb: int)

  datatype Register = Register(name: string, addr: int, count: int, stride: int, trigger: bool, writeIgnore: bool,
                               profileCounter: bool, fields: seq<Field>)

  datatype Parsed = Ok(valueMask: Word) | Err(message: string)

  // ----- Register descriptions -----

  predicate ValidField(f: Field) {
    0 <= f.lsb <= f.msb < 32
  }

  predicate Within(b: nat, lsb: int, msb: int) {
    lsb <= b <= msb
  }

  function Bits(f: Field): (r: Word)
    ensures forall b: nat :: b in r <==> f.lsb <= b <= f.msb
  {
    set b: nat | b <= f.msb && Within(b, f.lsb, f.msb)
  }

  predicate Disjoint(f: Field, g: Field) {
    f.msb < g.lsb || g.msb < f.lsb
  }

  predicate AllDisjoint(fields: seq<Field>) {
    forall i, j :: 0 <= i < j < |fields| ==> Disjoint(fields[i], fields[j])
  }

  /** The bits of some fields. */
  function Used(fields: seq<Field>): Word {
    if fields == [] then {} else Used(fields[..|fields| - 1]) + Bits(fields[|fields| - 1])
  }

  function AllBits(): (r: Word)
    ensures forall b: nat :: b in r <==> b < 32
  {
    set b: nat | b < 32 && Within(b, 0, 31)
  }

  /** What a register description must meet. */
  predicate Acceptable(r: Register) {
    && (forall i :: 0 <= i < |r.fields| ==> ValidField(r.fields[i]))
    && r.addr % 4 == 0 && r.count > 0 && r.stride > 0 && r.fields != []
    && AllDisjoint(r.fields)
    && (r.profileCounter ==> r.count == 1 && r.writeIgnore)
  }

  lemma {:induction false} UsedBits(fields: seq<Field>)
    ensures forall b :: b in Used(fields) <==> exists i :: 0 <= i < |fields| && b in Bits(fields[i])
  {
    if fields != [] {
      hide Bits;
      var front := fields[..|fields| - 1];
      UsedBits(front);
      forall b | b in Used(fields)
        ensures exists i :: 0 <= i < |fields| && b in Bits(fields[i])
      {
        if b in Used(front) {
          var i :| 0 <= i < |front| && b in Bits(front[i]);
          assert fields[i] == front[i];
        }
      }
      forall b, i | 0 <= i < |fields| && b in Bits(fields[i])
        ensures b in Used(fields)
      {
        if i < |front| {
          assert front[i] == fields[i];
        }
      }
    }
  }

  lemma OverlapsUsed(fields: seq<Field>, f: Field)
    requires ValidField(f) && forall i :: 0 <= i < |fields| ==> ValidField(fields[i])
    ensures Used(fields) * Bits(f) == {} <==> forall i :: 0 <= i < |fields| ==> Disjoint(fields[i], f)
  {
    UsedBits(fields);
    if Used(fields) * Bits(f) == {} {
      forall i | 0 <= i < |fields|
        ensures Disjoint(fields[i], f)
      {
        var g := fields[i];
        var low: nat := if g.lsb < f.lsb then f.lsb else g.lsb;
        assert low in Bits(g) && low in Bits(f) ==> low in Used(fields) * Bits(f);
      }
    } else {
      var b :| b in Used(fields) * Bits(f);
      var i :| 0 <= i < |fields| && b in Bits(fields[i]);
      assert !Disjoint(fields[i], f);
    }
  }

  /** Checks a description and computes the mask of its values. */
  method ParseRegister(r: Register, reservedZero: bool) returns (parsed: Parsed)
    ensures parsed.Ok? <==> Acceptable(r)
    ensures parsed.Ok? ==> parsed.valueMask == if reservedZero then Used(r.fields) else AllBits()
  {
    for i := 0 to |r.fields|
      invariant forall k :: 0 <= k < i ==> ValidField(r.fields[k])
    {
      if !ValidField(r.fields[i]) {
        return Err("invalid bit range");
      }
    }
    if r.addr % 4 != 0 {
      return Err("address must be 4-byte aligned");
    }
    if r.count <= 0 || r.stride <= 0 {
      return Err("count/stride must be > 0");
    }
    if r.fields == [] {
      return Err("no fields");
    }
    var used: Word := {};
    for i := 0 to |r.fields|
      invariant used == Used(r.fields[..i]) && AllDisjoint(r.fields[..i])
    {
      OverlapsUsed(r.fields[..i], r.fields[i]);
      var front, next := r.fields[..i], r.fields[..i + 1];
      assert next[..i] == front && next[i] == r.fields[i];
      if used * Bits(r.fields[i]) != {} {
        NotDisjoint(r.fields, i);
        return Err("overlapping fields");
      }
      used := used + Bits(r.fields[i]);
    }
    assert r.fields[..|r.fields|] == r.fields;
    if r.profileCounter && (r.count != 1 || !r.writeIgnore) {
      return Err("profile counter must be a scalar hardware-maintained register");
    }
    parsed := Ok(if reservedZero then used else AllBits());
  }

  lemma NotDisjoint(fields: seq<Field>, i: nat)
    requires i < |fields| && !(forall k :: 0 <= k < i ==> Disjoint(fields[..i][k], fields[i]))
    ensures !AllDisjoint(fields)
  {
    var k :| 0 <= k < i && !Disjoint(fields[..i][k], fields[i]);
    assert !Disjoint(fields[k], fields[i]);
  }

  // ----- Packed members -----

  predicate Descending(fields: seq<Field>) {
    forall i, j :: 0 <= i < j < |fields| ==> fields[i].msb >= fields[j].msb
  }

  function Insert(f: Field, sorted: seq<Field>): (r: seq<Field>)
    ensures multiset(r) == multiset(sorted) + multiset{f}
  {
    if sorted == [] then [f]
    else if f.msb > sorted[0].msb then [f] + sorted
    else
      assert sorted == [sorted[0]] + sorted[1..];
      [sorted[0]] + Insert(f, sorted[1..])
  }

  /** The fields by descending msb; equal ones keep their order. */
  function Sorted(fields: seq<Field>): (r: seq<Field>)
    ensures multiset(r) == multiset(fields)
  {
    if fields == [] then []
    else
      assert fields == fields[..|fields| - 1] + [fields[|fields| - 1]];
      Insert(fields[|fields| - 1], Sorted(fields[..|fields| - 1]))
  }

  lemma InsertMembers(f: Field, sorted: seq<Field>)
    ensures forall g :: g in Insert(f, sorted) <==> g == f || g in sorted
  {
    var r := Insert(f, sorted);
    assert multiset(r) == multiset(sorted) + multiset{f};
    hide Insert;
    forall g
      ensures g in r <==> g == f || g in sorted
    {
      assert g in multiset(r) <==> g in multiset(sorted) || g == f;
    }
  }

  lemma InsertIs(f: Field, sorted: seq<Field>)
    ensures Insert(f, sorted)
         == if sorted == [] || f.msb > sorted[0].msb then [f] + sorted else [sorted[0]] + Insert(f, sorted[1..])
  {
  }

  lemma {:induction false} InsertDescends(f: Field, sorted: seq<Field>)
    requires Descending(sorted)
    ensures Descending(Insert(f, sorted))
    ensures forall g :: g in Insert(f, sorted) <==> g == f || g in sorted
  {
    hide Insert, Descending;
    InsertIs(f, sorted);
    InsertMembers(f, sorted);
    if sorted != [] {
      FirstIsGreatest(sorted);
    }
    if sorted != [] && f.msb <= sorted[0].msb {
      TailDescends(sorted);
      InsertDescends(f, sorted[1..]);
      GreaterFirst(sorted[0], Insert(f, sorted[1..]));
    } else {
      GreaterFirst(f, sorted);
    }
  }

  lemma TailDescends(sorted: seq<Field>)
    requires Descending(sorted) && sorted != []
    ensures Descending(sorted[1..])
  {
  }

  lemma FirstIsGreatest(sorted: seq<Field>)
    requires Descending(sorted) && sorted != []
    ensures forall g :: g in sorted ==> g.msb <= sorted[0].msb
  {
  }

  lemma GreaterFirst(f: Field, rest: seq<Field>)
    requires Descending(rest) && forall g :: g in rest ==> g.msb <= f.msb
    ensures Descending([f] + rest)
  {
    assert forall i :: 0 <= i < |rest| ==> rest[i] in rest;
  }

  lemma {:induction false} SortedDescends(fields: seq<Field>)
    ensures Descending(Sorted(fields))
    ensures forall g :: g in Sorted(fields) <==> g in fields
  {
    SortedMembers(fields);
    if fields != [] {
      hide Descending, Insert;
      SortedDescends(fields[..|fields| - 1]);
      InsertDescends(fields[|fields| - 1], Sorted(fields[..|fields| - 1]));
    }
  }

  lemma SortedMembers(fields: seq<Field>)
    ensures forall g :: g in Sorted(fields) <==> g in fields
  {
    assert multiset(Sorted(fields)) == multiset(fields);
    hide Sorted;
    forall g
      ensures g in Sorted(fields) <==> g in fields
    {
      assert g in multiset(Sorted(fields)) <==> g in multiset(fields);
    }
  }

  lemma {:induction false} InsertDisjoint(f: Field, sorted: seq<Field>)
    requires AllDisjoint(sorted) && forall i :: 0 <= i < |sorted| ==> Disjoint(sorted[i], f)
    ensures AllDisjoint(Insert(f, sorted))
    ensures forall g :: g in Insert(f, sorted) ==> g == f || g in sorted
  {
    if sorted != [] && f.msb <= sorted[0].msb {
      InsertDisjoint(f, sorted[1..]);
      var rest := Insert(f, sorted[1..]);
      forall i | 0 <= i < |rest|
        ensures Disjoint(sorted[0], rest[i])
      {
        assert rest[i] in rest;
      }
    }
  }

  lemma {:induction false} SortedDisjoint(fields: seq<Field>)
    requires AllDisjoint(fields)
    ensures AllDisjoint(Sorted(fields))
  {
    if fields != [] {
      var front, last := fields[..|fields| - 1], fields[|fields| - 1];
      SortedDisjoint(front);
      SortedDescends(front);
      forall i | 0 <= i < |Sorted(front)|
        ensures Disjoint(Sorted(front)[i], last)
      {
        assert Sorted(front)[i] in front;
        var k :| 0 <= k < |front| && front[k] == Sorted(front)[i];
        assert Disjoint(fields[k], fields[|front|]);
      }
      InsertDisjoint(last, Sorted(front));
    }
  }

  /** A member of the packed structure: a field, or reserved bits between fields. */
  datatype Member = Declared(field: Field) | Reserved(high: int, low: int) {
    function Msb(): int {
      if Declared? then field.msb else high
    }

    function Lsb(): int {
      if Declared? then field.lsb else low
    }

    predicate Holds(b: int) {
      Lsb() <= b <= Msb()
    }

    function Width(): int {
      Msb() - Lsb() + 1
    }
  }

  /** The members cover the bits from one down to another, excluded, without gap or overlap. */
  predicate Tiles(members: seq<Member>, top: int, bottom: int) {
    if members == [] then top == bottom
    else
      var last := members[|members| - 1];
      last.Lsb() == bottom + 1 && last.Lsb() <= last.Msb() && Tiles(members[..|members| - 1], top, last.Msb())
  }

  /** The declared members, in order. */
  function DeclaredIn(members: seq<Member>): seq<Field> {
    if members == [] then []
    else
      var last := members[|members| - 1];
      DeclaredIn(members[..|members| - 1]) + if last.Declared? then [last.field] else []
  }

  lemma AppendMember(members: seq<Member>, m: Member, top: int, bottom: int)
    requires Tiles(members, top, bottom) && m.Msb() == bottom && m.Lsb() <= m.Msb()
    ensures Tiles(members + [m], top, m.Lsb() - 1)
    ensures DeclaredIn(members + [m]) == DeclaredIn(members) + if m.Declared? then [m.field] else []
  {
    assert (members + [m])[..|members|] == members;
  }

  lemma NoMembers()
    ensures Tiles([], 31, 31) && DeclaredIn([]) == []
  {
  }

  lemma AcceptableDisjoint(r: Register)
    requires Acceptable(r)
    ensures AllDisjoint(r.fields)
  {
  }

  /** The members of the packed structure, from the most significant one. */
  method StructMembers(r: Register) returns (members: seq<Member>)
    requires Acceptable(r)
    ensures Tiles(members, 31, -1)
    ensures DeclaredIn(members) == Sorted(r.fields)
  {
    hide Disjoint, Tiles, DeclaredIn, Sorted, AllDisjoint, Descending, Acceptable;
    NoMembers();
    var fields := Sorted(r.fields);
    AcceptableDisjoint(r);
    SortedDescends(r.fields);
    SortedDisjoint(r.fields);
    members := [];
    var current := 31;
    for i := 0 to |fields|
      invariant Tiles(members, 31, current) && DeclaredIn(members) == fields[..i]
      invariant -1 <= current <= 31 && (i == 0 ==> current == 31) && (i > 0 ==> current == fields[i - 1].lsb - 1)
    {
      var field := fields[i];
      NextBelow(r, fields, i);
      if field.msb < current {
        AppendMember(members, Reserved(current, field.msb + 1), 31, current);
        members := members + [Reserved(current, field.msb + 1)];
      }
      AppendMember(members, Declared(field), 31, field.msb);
      members := members + [Declared(field)];
      current := field.lsb - 1;
    }
    assert fields[..|fields|] == fields;
    if current >= 0 {
      AppendMember(members, Reserved(current, 0), 31, current);
      members := members + [Reserved(current, 0)];
    }
  }

  lemma NextBelow(r: Register, fields: seq<Field>, i: nat)
    requires Acceptable(r) && i < |fields| && AllDisjoint(fields) && Descending(fields)
    requires forall g :: g in fields ==> g in r.fields
    ensures ValidField(fields[i]) && (i > 0 ==> ValidField(fields[i - 1]) && fields[i].msb < fields[i - 1].lsb)
  {
    assert fields[i] in fields;
    if i > 0 {
      assert fields[i - 1] in fields;
      assert Disjoint(fields[i - 1], fields[i]) && fields[i - 1].msb >= fields[i].msb;
    }
  }

  function TotalWidth(members: seq<Member>): int {
    if members == [] then 0 else TotalWidth(members[..|members| - 1]) + members[|members| - 1].Width()
  }

  lemma {:induction false} TilesWidth(members: seq<Member>, top: int, bottom: int)
    requires Tiles(members, top, bottom)
    ensures TotalWidth(members) == top - bottom && bottom <= top
  {
    if members != [] {
      TilesWidth(members[..|members| - 1], top, members[|members| - 1].Msb());
    }
  }

  /** Each member is where the widths of those before it put it: the declared fields are at their bits. */
  lemma {:induction false} PackedPosition(members: seq<Member>, top: int, bottom: int, k: nat)
    requires Tiles(members, top, bottom) && k < |members|
    ensures members[k].Msb() == top - TotalWidth(members[..k]) && bottom < members[k].Lsb() <= members[k].Msb()
    decreases |members|
  {
    var front := members[..|members| - 1];
    if k == |members| - 1 {
      TilesWidth(front, top, members[k].Msb());
    } else {
      PackedPosition(front, top, members[|members| - 1].Msb(), k);
      assert front[..k] == members[..k];
    }
  }

  /** Every bit is in exactly one member. */
  lemma {:induction false} EachBitOnce(members: seq<Member>, top: int, bottom: int, b: int)
    requires Tiles(members, top, bottom) && bottom < b <= top
    ensures exists k :: 0 <= k < |members| && members[k].Holds(b)
    ensures forall j, k :: 0 <= j < k < |members| ==> !(members[j].Holds(b) && members[k].Holds(b))
    decreases |members|
  {
    var front, last := members[..|members| - 1], members[|members| - 1];
    if b > last.Msb() {
      EachBitOnce(front, top, last.Msb(), b);
      var k :| 0 <= k < |front| && front[k].Holds(b);
      assert members[k].Holds(b);
    } else {
      forall k | 0 <= k < |front|
        ensures !members[k].Holds(b)
      {
        PackedPosition(front, top, last.Msb(), k);
      }
      assert members[|front|].Holds(b);
    }
  }

  // ----- The emitted decode -----

  /** A register of a block: its description and the mask of its values. */
  datatype Entry = Entry(reg: Register, valueMask: Word)

  /** A register whose range fits 32 bits. */
  predicate ValidEntry(e: Entry) {
    e.reg.count > 0 && e.reg.stride > 0 && 0 <= e.reg.addr && e.reg.addr + (e.reg.count - 1) * e.reg.stride < 0x1_0000_0000
  }

  predicate Matches(r: Register, addr: int) {
    if r.count == 1 then addr == r.addr
    else r.addr <= addr <= r.addr + (r.count - 1) * r.stride && r.stride > 0 && (addr - r.addr) % r.stride == 0
  }

  function RegIndex(r: Register, addr: int): int {
    if r.count == 1 || r.stride <= 0 then 0 else (addr - r.addr) / r.stride
  }

  /** Element k of a register is at this address. */
  predicate IsElement(r: Register, k: int, addr: int) {
    0 <= k < r.count && addr == r.addr + k * r.stride
  }

  /** A register matches exactly the addresses of its elements. */
  lemma MatchesElements(e: Entry, addr: int)
    requires ValidEntry(e)
    ensures Matches(e.reg, addr) <==> exists k :: IsElement(e.reg, k, addr)
    ensures Matches(e.reg, addr) ==> IsElement(e.reg, RegIndex(e.reg, addr), addr)
  {
    var r := e.reg;
    if Matches(r, addr) {
      IndexFits(e, addr);
      assert IsElement(r, RegIndex(r, addr), addr);
    }
    forall k | IsElement(r, k, addr)
      ensures Matches(r, addr)
    {
      MulOrder(0, k, r.stride);
      MulOrder(k, r.count - 1, r.stride);
      ElementRemainder(k, r.stride);
    }
  }

  lemma ElementRemainder(k: int, n: int)
    requires n > 0
    ensures (k * n) % n == 0
  {
    var q, m := k * n / n, k * n % n;
    assert (k - q) * n == k * n - q * n == m;
    assert k - q >= 1 ==> (k - q) * n >= n by { MulOrder(1, k - q, n); }
    assert k - q <= -1 ==> (k - q) * n <= -n by { MulOrder(k - q, -1, n); }
  }

  lemma IndexFits(e: Entry, addr: int)
    requires ValidEntry(e) && Matches(e.reg, addr)
    ensures 0 <= RegIndex(e.reg, addr) < e.reg.count
  {
    if e.reg.count > 1 {
      QuotientBound(addr - e.reg.addr, e.reg.count - 1, e.reg.stride);
    }
  }

  lemma QuotientBound(x: int, q: int, n: int)
    requires 0 <= x <= q * n && n > 0
    ensures 0 <= x / n <= q
  {
    var k := x / n;
    assert k * n <= x;
    assert k > q ==> k * n >= (q + 1) * n by { MulOrder(q + 1, k, n); }
    assert (q + 1) * n == q * n + n;
  }

  lemma MulOrder(a: int, b: int, n: int)
    requires n >= 0
    ensures a <= b ==> a * n <= b * n
  {
  }

  lemma IndexInjective(e: Entry, a: int, b: int)
    requires ValidEntry(e) && Matches(e.reg, a) && Matches(e.reg, b) && RegIndex(e.reg, a) == RegIndex(e.reg, b)
    ensures a == b
  {
    if e.reg.count > 1 {
      var n, x, y := e.reg.stride, a - e.reg.addr, b - e.reg.addr;
      assert x == x / n * n + x % n && y == y / n * n + y % n;
    }
  }

  /** The first register that matches an address from an index on. */
  function FirstHit(regs: seq<Entry>, addr: int, i: nat): (r: nat)
    requires i <= |regs|
    ensures i <= r <= |regs|
    ensures r < |regs| ==> Matches(regs[r].reg, addr)
    ensures forall k :: i <= k < r ==> !Matches(regs[k].reg, addr)
    decreases |regs| - i
  {
    if i == |regs| || Matches(regs[i].reg, addr) then i else FirstHit(regs, addr, i + 1)
  }

  class Block {
    const regs: seq<Entry>
    var vals: seq<seq<Word>>  // the stored values, one for each element of each register
    var instTrigger: bool

    /** Every value is at its reset. */
    constructor (regs: seq<Entry>, resets: seq<Word>)
      requires |resets| == |regs| && forall i :: 0 <= i < |regs| ==> ValidEntry(regs[i])
      ensures Valid() && this.regs == regs && !instTrigger
      ensures vals == seq(|regs|, i requires 0 <= i < |regs| => seq(regs[i].reg.count, k => resets[i]))
    {
      this.regs := regs;
      vals := seq(|regs|, i requires 0 <= i < |regs| => seq(regs[i].reg.count, k => resets[i]));
      instTrigger := false;
    }

    predicate Valid()
      reads this
    {
      && |vals| == |regs|
      && forall i :: 0 <= i < |regs| ==> ValidEntry(regs[i]) && |vals[i]| == regs[i].reg.count
    }

    /** What a read of an address gives; nothing when no register matches. */
    function Get(addr: int): Option<Word>
      requires Valid()
      reads this
    {
      GetFrom(regs, vals, addr)
    }

    /** The emitted write: the first register that matches takes the value, unless it ignores software. */
    method Write(addr: int, data: Word) returns (hit: bool)
      requires Valid()
      modifies this
      ensures Valid() && vals == Written(regs, old(vals), addr, data)
      ensures hit <==> FirstHit(regs, addr, 0) < |regs|
      ensures instTrigger == (old(instTrigger) || (hit && regs[FirstHit(regs, addr, 0)].reg.trigger))
    {
      hit := false;
      ghost var first := FirstHit(regs, addr, 0);
      for i := 0 to |regs|
        invariant Valid() && hit == (first < i)
        invariant vals == if first < i then Written(regs, old(vals), addr, data) else old(vals)
        invariant instTrigger == (old(instTrigger) || (first < i && regs[first].reg.trigger))
      {
        if !hit && Matches(regs[i].reg, addr) {
          assert i == first;
          IndexFits(regs[i], addr);
          if !regs[i].reg.writeIgnore {
            vals := vals[i := vals[i][RegIndex(regs[i].reg, addr) := data * regs[i].valueMask]];
          }
          if regs[i].reg.trigger {
            instTrigger := true;
          }
          hit := true;
        }
      }
    }

    /** The emitted read. */
    method Read(addr: int, before: Word) returns (hit: bool, data: Word)
      requires Valid()
      ensures Get(addr) == if hit then Some(data) else None
      ensures !hit ==> data == before
    {
      hit, data := false, before;
      ghost var first := FirstHit(regs, addr, 0);
      for i := 0 to |regs|
        invariant hit == (first < i)
        invariant if hit then Get(addr) == Some(data) else data == before
      {
        if !hit && Matches(regs[i].reg, addr) {
          assert i == first;
          IndexFits(regs[i], addr);
          data := vals[i][RegIndex(regs[i].reg, addr)];
          data := data * regs[i].valueMask;
          hit := true;
        }
      }
    }
  }

  predicate ValidVals(regs: seq<Entry>, vals: seq<seq<Word>>) {
    |vals| == |regs| && forall i :: 0 <= i < |regs| ==> ValidEntry(regs[i]) && |vals[i]| == regs[i].reg.count
  }

  /** The value that an address reads. */
  function GetFrom(regs: seq<Entry>, vals: seq<seq<Word>>, addr: int): Option<Word>
    requires ValidVals(regs, vals)
  {
    var i := FirstHit(regs, addr, 0);
    if i == |regs| then None
    else
      IndexFits(regs[i], addr);
      Some(vals[i][RegIndex(regs[i].reg, addr)] * regs[i].valueMask)
  }

  /** The values after a write. */
  function Written(regs: seq<Entry>, vals: seq<seq<Word>>, addr: int, data: Word): (r: seq<seq<Word>>)
    requires ValidVals(regs, vals)
    ensures ValidVals(regs, r)
  {
    var i := FirstHit(regs, addr, 0);
    if i == |regs| || regs[i].reg.writeIgnore then vals
    else
      IndexFits(regs[i], addr);
      vals[i := vals[i][RegIndex(regs[i].reg, addr) := data * regs[i].valueMask]]
  }

  /**
   The decode is a store with one cell for each address, even when ranges overlap: a write is read
   back masked, unless the register ignores it, and no other address reads differently.
   */
  lemma WriteRead(regs: seq<Entry>, vals: seq<seq<Word>>, a: int, data: Word, b: int)
    requires ValidVals(regs, vals)
    ensures var i := FirstHit(regs, a, 0); var after := Written(regs, vals, a, data);
      GetFrom(regs, after, b)
      == if a == b && i < |regs| && !regs[i].reg.writeIgnore then Some(data * regs[i].valueMask) else GetFrom(regs, vals, b)
  {
    var i, j := FirstHit(regs, a, 0), FirstHit(regs, b, 0);
    if i < |regs| && j < |regs| {
      IndexFits(regs[i], a);
      IndexFits(regs[j], b);
      if a == b {
        assert data * regs[i].valueMask * regs[i].valueMask == data * regs[i].valueMask;
      } else if i == j && RegIndex(regs[i].reg, a) == RegIndex(regs[i].reg, b) {
        IndexInjective(regs[i], a, b);
        assert false;
      }
    }
  }
}
