/** The enumeration of test operands: structured tuples, with random ones in between. */
module GenCases {
  import opened Powers

  type Bits = bv32

  /** The exponent and significand tables of a level; their sizes are those of the program's tables. */
  datatype Table = Table(qs: seq<Bits>, ps: seq<Bits>) {
    ghost predicate Valid() {
      qs != [] && ps != []
    }

    function Size(): nat {
      |qs| * |ps|
    }
  }

  lemma PositionFits(t: Table, pos: nat)
    requires t.Valid() && pos < t.Size()
    ensures t.ps != [] && 0 <= pos / |t.ps| < |t.qs| && 0 <= pos % |t.ps| < |t.ps|
  {
    var n, q := |t.ps|, pos / |t.ps|;
    assert pos == n * q + pos % n;
    if q >= |t.qs| {
      MulMonotone(|t.qs|, q, n);
    }
  }

  /** The value at a position of the table product. */
  function Value(t: Table, pos: nat): Bits
    requires t.Valid() && pos < t.Size()
  {
    PositionFits(t, pos);
    t.qs[pos / |t.ps|] | t.ps[pos % |t.ps|]
  }

  /** The significands run through their table for each exponent in turn. */
  lemma ValueAt(t: Table, e: nat, s: nat)
    requires t.Valid() && e < |t.qs| && s < |t.ps|
    ensures e * |t.ps| + s < t.Size() && Value(t, e * |t.ps| + s) == t.qs[e] | t.ps[s]
  {
    ProductBounds(e, s, |t.qs|, |t.ps|);
    DivMod(|t.ps|, e, s);
  }

  /** The exponents and the significands occupy different bits, and no entry of either table is repeated. */
  ghost predicate Separate(t: Table) {
    && (forall k :: 0 <= k < |t.qs| ==> t.qs[k] & 0x007F_FFFF == 0)
    && (forall k :: 0 <= k < |t.ps| ==> t.ps[k] & 0xFF80_0000 == 0)
    && (forall k, m :: 0 <= k < m < |t.qs| ==> t.qs[k] != t.qs[m])
    && (forall k, m :: 0 <= k < m < |t.ps| ==> t.ps[k] != t.ps[m])
  }

  lemma FieldsOf(q: Bits, p: Bits)
    requires q & 0x007F_FFFF == 0 && p & 0xFF80_0000 == 0
    ensures (q | p) & 0xFF80_0000 == q && (q | p) & 0x007F_FFFF == p
  {
  }

  lemma EntriesDistinct(t: Table, e: nat, s: nat, e': nat, s': nat)
    requires Separate(t) && e < |t.qs| && s < |t.ps| && e' < |t.qs| && s' < |t.ps|
    requires t.qs[e] | t.ps[s] == t.qs[e'] | t.ps[s']
    ensures e == e' && s == s'
  {
    FieldsOf(t.qs[e], t.ps[s]);
    FieldsOf(t.qs[e'], t.ps[s']);
  }

  /** Then different positions have different values. */
  lemma ValuesDistinct(t: Table, pos: nat, other: nat)
    requires t.Valid() && Separate(t) && pos < t.Size() && other < t.Size() && Value(t, pos) == Value(t, other)
    ensures pos == other
  {
    hide Separate, Table.Size, Table.Valid;
    PositionFits(t, pos);
    PositionFits(t, other);
    var n := |t.ps|;
    EntriesDistinct(t, pos / n, pos % n, other / n, other % n);
    SameDigits(n, pos, other);
  }

  lemma SameDigits(n: nat, a: nat, b: nat)
    requires n > 0 && a / n == b / n && a % n == b % n
    ensures a == b
  {
    assert a == n * (a / n) + a % n && b == n * (b / n) + b % n;
  }

  lemma ProductBounds(e: nat, s: nat, m: nat, n: nat)
    requires s < n && e < m
    ensures e * n + s < m * n
    ensures e * n + s == m * n - 1 <==> e == m - 1 && s == n - 1
  {
    MulMonotone(e + 1, m, n);
    if e < m - 1 {
      MulMonotone(e + 2, m, n);
    }
  }

  // ----- One sequence -----

  class Sequence {
    const table: Table
    var expNum: nat
    var termNum: nat
    var done: bool

    constructor (table: Table)
      requires table.Valid()
      ensures Valid() && this.table == table && Pos() == 0 && !done
    {
      this.table := table;
      expNum, termNum, done := 0, 0, false;
    }

    ghost predicate Valid()
      reads this
    {
      table.Valid() && expNum < |table.qs| && termNum < |table.ps|
    }

    /** The position in the table product of the next value. */
    ghost function Pos(): nat
      reads this
    {
      expNum * |table.ps| + termNum
    }

    /** Gives the value at the position and moves on; done is set when the sequence starts over. */
    method Next() returns (value: Bits)
      requires Valid()
      modifies this
      ensures Valid() && old(Pos()) < table.Size() && value == Value(table, old(Pos()))
      ensures Pos() == if old(Pos()) == table.Size() - 1 then 0 else old(Pos()) + 1
      ensures done == (old(done) || old(Pos()) == table.Size() - 1)
    {
      var exp, sig := expNum, termNum;
      ProductBounds(exp, sig, |table.qs|, |table.ps|);
      DivMod(|table.ps|, exp, sig);
      value := table.qs[exp] | table.ps[sig];
      sig := sig + 1;
      if |table.ps| <= sig {
        sig := 0;
        exp := exp + 1;
        if |table.qs| <= exp {
          exp := 0;
          done := true;
        }
        expNum := exp;
      }
      termNum := sig;
    }

    /** The next value of a sequence that has not started over. */
    method Advance(ghost pos: int) returns (value: Bits)
      requires Shows(this, table, pos) && pos + 1 < table.Size()
      modifies this
      ensures Shows(this, table, pos + 1) && value == Value(table, pos + 1)
    {
      value := Next();
    }

    method ClearDone()
      requires Shows(this, table, table.Size() - 1)
      modifies this
      ensures Shows(this, table, -1)
    {
      done := false;
    }
  }

  method NewSequence(table: Table) returns (s: Sequence)
    requires table.Valid()
    ensures fresh(s) && Shows(s, table, -1)
  {
    s := new Sequence(table);
    ProductBounds(0, 0, |table.qs|, |table.ps|);
  }

  method StartedSequence(table: Table) returns (s: Sequence, first: Bits)
    requires table.Valid()
    ensures fresh(s) && table.Size() > 0 && Shows(s, table, 0) && first == Value(table, 0)
  {
    s := NewSequence(table);
    ProductBounds(0, 0, |table.qs|, |table.ps|);
    first := s.Advance(-1);
  }

  lemma ShowsFacts(s: Sequence, table: Table, pos: int)
    requires Shows(s, table, pos)
    ensures -1 <= pos < table.Size() && s.table == table && (s.done <==> pos == table.Size() - 1)
  {
  }

  /** A sequence whose last value was at a position (-1 before the first). */
  ghost predicate Shows(s: Sequence, table: Table, pos: int)
    reads s
  {
    && s.Valid() && s.table == table
    && -1 <= pos < table.Size()
    && s.Pos() == (if pos == table.Size() - 1 then 0 else pos + 1)
    && s.done == (pos == table.Size() - 1)
  }

  method Random() returns (value: Bits) {
    value := *;
  }

  // ----- One operand -----

  class OneOperand {
    const level1: bool
    const table: Table
    const a: Sequence
    const total: nat
    var subcase: int
    var done: bool
    ghost var rounds: nat

    constructor (level1: bool, table: Table)
      requires table.Valid()
      ensures Valid() && this.level1 == level1 && this.table == table && Calls() == 0 && !done && rounds == 0 && fresh(a)
    {
      this.level1, this.table := level1, table;
      a := new Sequence(table);
      subcase, done, rounds := 0, false, 0;
      total := if level1 then 3 * table.Size() else 2 * table.Size();
    }

    function Period(): nat {
      if level1 then 3 else 2
    }

    ghost function Calls(): int
      reads this
    {
      Period() * rounds + subcase
    }

    ghost predicate Valid()
      reads this, a
    {
      && table.Valid() && total == Period() * table.Size()
      && 0 <= subcase < Period() && rounds <= table.Size()
      && Shows(a, table, rounds - 1)
      && done == (rounds == table.Size()) && (done ==> subcase == 0)
    }

    /** The next operand; the last call of each period gives the next value of the table product. */
    method Next() returns (x: Bits)
      requires Valid() && !done
      modifies this, a
      ensures Valid() && Calls() == old(Calls()) + 1
      ensures done <==> Calls() == total
      ensures rounds == old(rounds) + if old(subcase) == Period() - 1 then 1 else 0
      ensures rounds > old(rounds) ==> x == Value(table, old(rounds))
    {
      x := Random();
      if level1 {
        match subcase {
          case 2 =>
            x := a.Next();
            done := a.done;
            subcase, rounds := -1, rounds + 1;
          case _ =>
        }
      } else {
        match subcase {
          case 1 =>
            x := a.Next();
            done := a.done;
            subcase, rounds := -1, rounds + 1;
          case _ =>
        }
      }
      subcase := subcase + 1;
    }
  }

  /** A whole run: it ends at call number total, with every position emitted once, in order. */
  method RunOne(level1: bool, table: Table) returns (calls: nat, structured: seq<Bits>)
    requires table.Valid()
    ensures calls == (if level1 then 3 else 2) * table.Size()
    ensures structured == seq(table.Size(), k requires 0 <= k < table.Size() => Value(table, k))
  {
    var g := new OneOperand(level1, table);
    calls, structured := 0, [];
    while !g.done
      invariant fresh(g) && fresh(g.a) && g.Valid() && g.level1 == level1 && g.table == table
      invariant calls == g.Calls() && |structured| == g.rounds
      invariant forall k :: 0 <= k < |structured| ==> structured[k] == Value(table, k)
      decreases g.total - g.Calls()
    {
      hide Shows, Value;
      var last := g.subcase == g.Period() - 1;
      CallsBelow(g.Period(), g.rounds, g.subcase, table.Size());
      var x := g.Next();
      calls := calls + 1;
      if last {
        structured := structured + [x];
      }
    }
  }

  lemma CallsBelow(period: nat, rounds: nat, subcase: nat, size: nat)
    requires subcase < period && rounds < size
    ensures period * rounds + subcase < period * size
  {
    MulMonotone(rounds + 1, size, period);
  }

  // ----- Two operands -----

  class TwoOperands {
    const level1: bool
    const table: Table
    const a: Sequence
    const b: Sequence
    const total: nat
    var currentA: Bits
    var currentB: Bits
    var subcase: int
    var done: bool
    ghost var rounds: nat  // completed periods
    ghost var i: nat       // the positions of the tuple last drawn; j is -1 before the first
    ghost var j: int

    constructor (level1: bool, table: Table)
      requires table.Valid()
      ensures Valid() && this.level1 == level1 && this.table == table && Calls() == 0 && !done && rounds == 0
      ensures fresh(a) && fresh(b)
    {
      this.level1, this.table := level1, table;
      var first, second, valueA;
      first, valueA := StartedSequence(table);
      second := NewSequence(table);
      a, b, currentA := first, second, valueA;
      subcase, done, rounds := 0, false, 0;
      i, j := 0, -1;
      total := if level1 then 6 * (table.Size() * table.Size()) else 2 * (table.Size() * table.Size());
      new;
      hide Value;
    }

    function Period(): nat {
      if level1 then 6 else 2
    }

    ghost function Calls(): int
      reads this
    {
      Period() * rounds + subcase
    }

    /** The number of tuples drawn so far; at level 1 a tuple is drawn at the start of its period. */
    ghost function Drawn(): int
      reads this
    {
      rounds + if level1 && subcase > 0 then 1 else 0
    }

    ghost predicate Drew()
      reads this`currentA, this`currentB, this`i, this`j, a, b
    {
      && a != b && Shows(a, table, i) && Shows(b, table, j)
      && currentA == Value(table, i)
      && (level1 && j >= 0 ==> currentB == Value(table, j))
      && (j == -1 ==> i == 0)
    }

    ghost predicate Valid()
      reads this, a, b
    {
      && table.Valid() && total == Period() * (table.Size() * table.Size())
      && 0 <= subcase < Period() && rounds <= table.Size() * table.Size()
      && Drew() && i * table.Size() + j + 1 == Drawn()
      && done == (rounds == table.Size() * table.Size()) && (done ==> subcase == 0)
    }

    /** Draws the next tuple: a new second value, and a new first one when the second ones are used up. */
    method Draw() returns (second: Bits)
      requires table.Valid() && Drew() && i * table.Size() + j + 1 < table.Size() * table.Size()
      modifies this`currentA, this`i, this`j, a, b
      ensures a != b && Shows(a, table, i) && Shows(b, table, j) && currentA == Value(table, i) && j >= 0
      ensures i * table.Size() + j == old(i * table.Size() + j + 1) && second == Value(table, j)
      ensures !level1 ==> Drew()
    {
      hide Value;
      ghost var n := table.Size();
      NextTuple(n, i, j);
      ShowsFacts(b, table, j);
      ShowsFacts(a, table, i);
      hide Shows;
      if b.done {
        b.ClearDone();
        currentA := a.Advance(i);
        i, j := i + 1, -1;
      }
      second := b.Advance(j);
      j := j + 1;
      ShowsFacts(b, table, j);
      ShowsFacts(a, table, i);
      ProductBounds(i, j, n, n);
    }

    method Next() returns (x: Bits, y: Bits)
      requires Valid() && !done
      modifies this, a, b
      ensures Stepped(x, y)
    {
      if level1 {
        x, y := NextLevel1();
      } else {
        x, y := NextLevel2();
      }
    }

    /** One more call; the last call of each period gives the next tuple. */
    twostate predicate Stepped(x: Bits, y: Bits)
      reads this, a, b
    {
      && Valid() && Calls() == old(Calls()) + 1
      && (done <==> Calls() == total)
      && rounds == old(rounds) + (if old(subcase) == Period() - 1 then 1 else 0)
      && (rounds > old(rounds) ==>
        i < table.Size() && 0 <= j < table.Size() && i * table.Size() + j == old(rounds) && x == Value(table, i) && y == Value(table, j))
      && (level1 ==> i < table.Size() && 0 <= j < table.Size() && Mixed(old(subcase), x, Value(table, i), y, Value(table, j)))
    }

    /** Which operands a call at level 1 takes from the current tuple. */
    static predicate Mixed(subcase: int, x: Bits, a: Bits, y: Bits, b: Bits) {
      (subcase in {1, 5} ==> x == a) && (subcase in {3, 5} ==> y == b)
    }

    lemma Held()
      requires table.Valid() && Drew() && i * table.Size() + j + 1 == Drawn() && 0 <= subcase
      ensures i < table.Size() && j < table.Size() && currentA == Value(table, i)
      ensures Drawn() > 0 ==> j >= 0
      ensures level1 && Drawn() > 0 ==> currentB == Value(table, j)
    {
    }

    lemma HeldNow()
      requires table.Valid() && Drew() && j >= 0
      ensures i < table.Size() && j < table.Size()
    {
    }

    method HoldDraw()
      requires level1 && table.Valid() && Drew() && i * table.Size() + j + 1 < table.Size() * table.Size()
      modifies this`currentA, this`currentB, this`i, this`j, a, b
      ensures Drew() && j >= 0 && i * table.Size() + j == old(i * table.Size() + j + 1)
    {
      currentB := Draw();
    }

    method NextLevel1() returns (x: Bits, y: Bits)
      requires Valid() && !done && level1
      modifies this, a, b
      ensures Stepped(x, y)
    {
      hide Value, Shows, Drew;
      Held();
      x := Random();
      y := Random();
      match subcase {
        case 0 =>
          HoldDraw();
          HeldNow();
        case 1 => x := currentA;
        case 3 => y := currentB;
        case 5 =>
          x, y := currentA, currentB;
          done := BothDone();
          subcase, rounds := -1, rounds + 1;
        case _ =>
      }
      subcase := subcase + 1;
    }

    method NextLevel2() returns (x: Bits, y: Bits)
      requires Valid() && !done && !level1
      modifies this, a, b
      ensures Stepped(x, y)
    {
      hide Value, Shows, Drew;
      x := Random();
      y := Random();
      match subcase {
        case 1 =>
          y := Draw();
          x := currentA;
          done := BothDone();
          subcase, rounds := -1, rounds + 1;
        case _ =>
      }
      subcase := subcase + 1;
    }

    method BothDone() returns (both: bool)
      requires table.Valid() && Drew() && j >= 0
      ensures both <==> i * table.Size() + j == table.Size() * table.Size() - 1
      ensures i < table.Size() && j < table.Size()
    {
      ProductBounds(i, j, table.Size(), table.Size());
      both := a.done && b.done;
    }
  }

  lemma NextTuple(n: nat, i: nat, j: int)
    requires i < n && -1 <= j < n && i * n + j + 1 < n * n
    ensures j == n - 1 ==> i + 1 < n && (i + 1) * n == i * n + j + 1
  {
    assert (i + 1) * n == i * n + n;
    assert i + 1 == n ==> (i + 1) * n == n * n;
  }

  /** The position of the first operand in the k-th tuple, in the order in which tuples are drawn, and of the second. */
  function Tuple2(n: nat, k: nat): (r: (nat, nat))
    requires k < n * n
    ensures r.0 < n && r.1 < n && r.0 * n + r.1 == k
  {
    TupleDigits(n, n, k);
    (k / n, k % n)
  }

  lemma TupleDigits(m: nat, n: nat, k: nat)
    requires k < m * n
    ensures n > 0 && k / n < m && k / n * n + k % n == k
  {
    assert k == n * (k / n) + k % n;
    if k / n >= m {
      MulMonotone(m, k / n, n);
    }
  }

  /** Each tuple of positions is drawn exactly once. */
  lemma TupleDrawnOnce(n: nat, i: nat, j: nat)
    requires i < n && j < n
    ensures i * n + j < n * n && Tuple2(n, i * n + j) == (i, j)
    ensures forall k: nat :: k < n * n && Tuple2(n, k) == (i, j) ==> k == i * n + j
  {
    ProductBounds(i, j, n, n);
    DivMod(n, i, j);
  }

  ghost predicate EmitsTuples(table: Table, structured: seq<(Bits, Bits)>) {
    && table.Valid() && |structured| <= table.Size() * table.Size()
    && forall k :: 0 <= k < |structured| ==>
      structured[k] == (Value(table, Tuple2(table.Size(), k).0), Value(table, Tuple2(table.Size(), k).1))
  }

  lemma EmitsOneMore(table: Table, structured: seq<(Bits, Bits)>, i: nat, j: nat)
    requires EmitsTuples(table, structured) && i < table.Size() && j < table.Size()
    requires i * table.Size() + j == |structured|
    ensures EmitsTuples(table, structured + [(Value(table, i), Value(table, j))])
  {
    hide Value, Tuple2;
    TupleDrawnOnce(table.Size(), i, j);
  }

  /** A whole run: it ends at call number total, with every tuple emitted once, in order. */
  method RunTwo(level1: bool, table: Table) returns (calls: nat, structured: seq<(Bits, Bits)>)
    requires table.Valid()
    ensures calls == (if level1 then 6 else 2) * (table.Size() * table.Size())
    ensures |structured| == table.Size() * table.Size() && EmitsTuples(table, structured)
  {
    var g := new TwoOperands(level1, table);
    calls, structured := 0, [];
    while !g.done
      invariant fresh(g) && fresh(g.a) && fresh(g.b) && g.Valid() && g.level1 == level1 && g.table == table
      invariant calls == g.Calls() && |structured| == g.rounds && EmitsTuples(table, structured)
      decreases g.total - g.Calls()
    {
      hide Value, EmitsTuples, TwoOperands.Drew;
      var last := g.subcase == g.Period() - 1;
      CallsBelow(g.Period(), g.rounds, g.subcase, table.Size() * table.Size());
      var x, y := g.Next();
      calls := calls + 1;
      if last {
        EmitsOneMore(table, structured, g.i, g.j);
        structured := structured + [(x, y)];
      }
    }
  }

  // ----- Three operands -----

  class ThreeOperands {
    const level1: bool
    const table: Table
    const a: Sequence
    const b: Sequence
    const c: Sequence
    const total: nat
    var currentA: Bits
    var currentB: Bits
    var currentC: Bits
    var subcase: int
    var done: bool
    ghost var rounds: nat
    ghost var i: nat  // the positions of the tuple last drawn; l is -1 before the first
    ghost var j: nat
    ghost var l: int

    constructor (level1: bool, table: Table)
      requires table.Valid()
      ensures Valid() && this.level1 == level1 && this.table == table && Calls() == 0 && !done && rounds == 0
      ensures fresh(a) && fresh(b) && fresh(c)
    {
      this.level1, this.table := level1, table;
      var first, second, third, valueA, valueB;
      first, valueA := StartedSequence(table);
      second, valueB := StartedSequence(table);
      third := NewSequence(table);
      a, b, c, currentA, currentB := first, second, third, valueA, valueB;
      subcase, done, rounds := 0, false, 0;
      i, j, l := 0, 0, -1;
      total := if level1 then 9 * Cube(table.Size()) else 2 * Cube(table.Size());
      new;
      hide Value, Cube, Shows;
    }

    function Period(): nat {
      if level1 then 9 else 2
    }

    ghost function Calls(): int
      reads this
    {
      Period() * rounds + subcase
    }

    ghost function Drawn(): int
      reads this
    {
      rounds + if level1 && subcase > 0 then 1 else 0
    }

    /** The number of the tuple at the current positions. */
    ghost function Index(): int
      reads this`i, this`j, this`l
    {
      Index3(table.Size(), i, j, l)
    }

    ghost predicate Drew()
      reads this`currentA, this`currentB, this`currentC, this`i, this`j, this`l, a, b, c
    {
      && Holds() && l >= -1
      && (level1 && l >= 0 ==> currentC == Value(table, l))
      && (l == -1 ==> i == 0 && j == 0)
    }

    ghost predicate Holds()
      reads this`currentA, this`currentB, this`i, this`j, this`l, a, b, c
    {
      && a != b && b != c && c != a
      && Shows(a, table, i) && Shows(b, table, j) && Shows(c, table, l)
      && currentA == Value(table, i) && currentB == Value(table, j)
    }

    ghost predicate Valid()
      reads this, a, b, c
    {
      && table.Valid() && total == Period() * Cube(table.Size())
      && 0 <= subcase < Period() && rounds <= Cube(table.Size())
      && Drew() && Index() + 1 == Drawn()
      && done == (rounds == Cube(table.Size())) && (done ==> subcase == 0)
    }

    /** Starts over with the third values: a new second value, and a new first one when the second ones are used up. */
    method Carry()
      requires table.Valid() && Holds() && l == table.Size() - 1 && !(i == table.Size() - 1 && j == table.Size() - 1)
      modifies this`currentA, this`currentB, this`i, this`j, this`l, a, b, c
      ensures Holds() && l == -1 && Index() == old(Index())
    {
      ghost var n, i0, j0 := table.Size(), i, j;
      ShowsFacts(b, table, j);
      ShowsFacts(a, table, i);
      hide Value, Shows, Table.Size, Index3;
      ghost var at: int := j;
      c.ClearDone();
      if b.done {
        at := CarryFirst();
      }
      currentB := b.Advance(at);
      j, l := at + 1, -1;
      CarryIndex(n, i0, j0, i, j);
    }

    /** The second values are used up: they start over with a new first value. */
    method CarryFirst() returns (ghost at: int)
      requires a != b && Shows(a, table, i) && i + 1 < table.Size() && Shows(b, table, table.Size() - 1)
      modifies this`currentA, this`i, a, b
      ensures at == -1 && Shows(b, table, at)
      ensures i == old(i) + 1 && Shows(a, table, i) && currentA == Value(table, i)
    {
      ShowsFacts(a, table, i);
      ShowsFacts(b, table, table.Size() - 1);
      hide Value, Shows, Table.Size;
      b.ClearDone();
      currentA := a.Advance(i);
      i, at := i + 1, -1;
    }

    lemma PositionsInRange()
      requires Holds()
      ensures 0 <= i < table.Size() && 0 <= j < table.Size() && -1 <= l < table.Size()
      ensures a.done <==> i == table.Size() - 1
      ensures b.done <==> j == table.Size() - 1
      ensures c.done <==> l == table.Size() - 1
    {
    }

    /** Draws the next tuple. */
    method Draw() returns (third: Bits)
      requires table.Valid() && Drew() && Index() + 1 < Cube(table.Size())
      modifies this`currentA, this`currentB, this`i, this`j, this`l, a, b, c
      ensures Holds() && l >= 0 && Index() == old(Index()) + 1 && third == Value(table, l)
      ensures !level1 ==> Drew()
    {
      ghost var n := table.Size();
      PositionsInRange();
      hide Value, Shows, Cube, Index3;
      NextTriple(n, i, j, l);
      if c.done {
        Carry();
      }
      IndexNext(n, i, j, l);
      third := c.Advance(l);
      l := l + 1;
    }

    /** One more call; the last call of each period gives the next tuple. */
    twostate predicate Stepped(x: Bits, y: Bits, z: Bits)
      reads this, a, b, c
    {
      && Valid() && Calls() == old(Calls()) + 1
      && (done <==> Calls() == total)
      && rounds == old(rounds) + (if old(subcase) == Period() - 1 then 1 else 0)
      && (rounds > old(rounds) ==>
        && i < table.Size() && j < table.Size() && 0 <= l < table.Size() && Index() == old(rounds)
        && x == Value(table, i) && y == Value(table, j) && z == Value(table, l))
      && (level1 ==>
        && i < table.Size() && j < table.Size() && 0 <= l < table.Size()
        && Mixed(old(subcase), x, Value(table, i), y, Value(table, j), z, Value(table, l)))
    }

    /** Which operands a call at level 1 takes from the current tuple. */
    static predicate Mixed(subcase: int, x: Bits, a: Bits, y: Bits, b: Bits, z: Bits, c: Bits) {
      (subcase in {1, 4, 6, 8} ==> x == a) && (subcase in {1, 3, 5, 8} ==> y == b) && (subcase in {0, 3, 6, 8} ==> z == c)
    }

    method Next() returns (x: Bits, y: Bits, z: Bits)
      requires Valid() && !done
      modifies this, a, b, c
      ensures Stepped(x, y, z)
    {
      if level1 {
        x, y, z := NextLevel1();
      } else {
        x, y, z := NextLevel2();
      }
    }

    lemma Held()
      requires table.Valid() && Drew() && Index() + 1 == Drawn() && 0 <= subcase
      ensures i < table.Size() && j < table.Size() && l < table.Size()
      ensures currentA == Value(table, i) && currentB == Value(table, j)
      ensures Drawn() > 0 ==> l >= 0
      ensures level1 && Drawn() > 0 ==> currentC == Value(table, l)
    {
    }

    lemma HoldsNow()
      requires level1 && table.Valid() && Drew() && l >= 0
      ensures i < table.Size() && j < table.Size() && l < table.Size() && currentC == Value(table, l)
    {
    }

    lemma HeldNow()
      requires table.Valid() && Holds() && l >= 0
      ensures i < table.Size() && j < table.Size() && l < table.Size()
      ensures currentA == Value(table, i) && currentB == Value(table, j)
    {
    }

    method HoldDraw()
      requires level1 && table.Valid() && Drew() && Index() + 1 < Cube(table.Size())
      modifies this`currentA, this`currentB, this`currentC, this`i, this`j, this`l, a, b, c
      ensures Drew() && l >= 0 && Index() == old(Index()) + 1
    {
      hide Cube, Shows, Value, Index;
      currentC := Draw();
    }

    method AllDone() returns (all: bool)
      requires table.Valid() && Drew() && l >= 0
      ensures Index() < Cube(table.Size())
      ensures all <==> Index() == Cube(table.Size()) - 1
    {
      PositionsInRange();
      hide Value, Shows, Cube;
      LastTriple(table.Size(), i, j, l);
      all := a.done && b.done && c.done;
    }

    method NextLevel1() returns (x: Bits, y: Bits, z: Bits)
      requires Valid() && !done && level1
      modifies this, a, b, c
      ensures Stepped(x, y, z)
    {
      hide Value, Shows, Drew, Index, Cube, Table.Size, Table.Valid;
      Held();
      x := Random();
      y := Random();
      z := Random();
      match subcase {
        case 0 =>
          HoldDraw();
          HoldsNow();
          z := currentC;
        case 1 => x, y := currentA, currentB;
        case 3 => y, z := currentB, currentC;
        case 4 => x := currentA;
        case 5 => y := currentB;
        case 6 => x, z := currentA, currentC;
        case 8 =>
          x, y, z := currentA, currentB, currentC;
          EndRound();
        case _ =>
      }
      subcase := subcase + 1;
    }

    /** The last subcase of a tuple. */
    method EndRound()
      requires Valid() && level1 && subcase == 8
      modifies this`done, this`subcase, this`rounds
      ensures subcase == -1 && rounds == old(rounds) + 1 && (done <==> rounds == Cube(table.Size())) && rounds <= Cube(table.Size())
      ensures (done <==> 9 * rounds == total) && Index() + 1 == rounds
    {
      hide Value, Shows, Index, Cube;
      Held();
      done := AllDone();
      subcase, rounds := -1, rounds + 1;
    }

    method NextLevel2() returns (x: Bits, y: Bits, z: Bits)
      requires Valid() && !done && !level1
      modifies this, a, b, c
      ensures Stepped(x, y, z)
    {
      hide Value, Shows, Drew, Index, Cube, Holds;
      x := Random();
      y := Random();
      z := Random();
      match subcase {
        case 1 =>
          z := Draw();
          HeldNow();
          x, y := currentA, currentB;
          done := AllDone();
          subcase, rounds := -1, rounds + 1;
        case _ =>
      }
      subcase := subcase + 1;
    }
  }

  lemma RowStep(n: nat, i: nat)
    ensures (i + 1) * n == i * n + n
  {
  }

  function Cube(n: nat): nat {
    n * n * n
  }

  function Index3(n: nat, i: nat, j: nat, l: int): int {
    (i * n + j) * n + l
  }

  lemma NextTriple(n: nat, i: nat, j: nat, l: int)
    requires i < n && j < n && -1 <= l < n && Index3(n, i, j, l) + 1 < Cube(n)
    ensures l == n - 1 ==> !(i == n - 1 && j == n - 1)
  {
    if l == n - 1 && i == n - 1 && j == n - 1 {
      LastTriple(n, i, j, l);
    }
  }

  /** The number before the first third value is that of the last one before. */
  lemma CarryIndex(n: nat, i: nat, j: nat, i': nat, j': nat)
    requires if j == n - 1 then i' == i + 1 && j' == 0 else i' == i && j' == j + 1
    ensures Index3(n, i', j', -1) == Index3(n, i, j, n - 1)
  {
    RowStep(n, i);
    var p := i * n + j;
    assert i' * n + j' == p + 1;
    RowStep(n, p);
  }

  lemma IndexNext(n: nat, i: nat, j: nat, l: int)
    ensures Index3(n, i, j, l + 1) == Index3(n, i, j, l) + 1
  {
  }

  lemma LastOfPair(pair: nat, l: nat, square: nat, n: nat)
    requires pair < square && l < n
    ensures 0 <= pair * n + l < square * n
    ensures pair * n + l == square * n - 1 <==> pair == square - 1 && l == n - 1
  {
    ProductBounds(pair, l, square, n);
  }

  lemma LastTriple(n: nat, i: nat, j: nat, l: nat)
    requires i < n && j < n && l < n
    ensures 0 <= Index3(n, i, j, l) < Cube(n)
    ensures Index3(n, i, j, l) == Cube(n) - 1 <==> i == n - 1 && j == n - 1 && l == n - 1
  {
    var pair, square := i * n + j, n * n;
    ProductBounds(i, j, n, n);
    LastOfPair(pair, l, square, n);
  }

  lemma TripleDigits(n: nat, k: nat)
    requires k < Cube(n)
    ensures n > 0 && 0 <= k / n / n < n && 0 <= k / n % n < n && 0 <= k % n < n
    ensures Index3(n, k / n / n, k / n % n, k % n) == k
  {
    TupleDigits(n * n, n, k);
    TupleDigits(n, n, k / n);
  }

  function Tuple3(n: nat, k: nat): (r: (nat, nat, nat))
    requires k < Cube(n)
    ensures r.0 < n && r.1 < n && r.2 < n && Index3(n, r.0, r.1, r.2) == k
  {
    hide Cube, Index3;
    TripleDigits(n, k);
    (k / n / n, k / n % n, k % n)
  }

  /** Each tuple of positions is drawn exactly once. */
  lemma TripleDrawnOnce(n: nat, i: nat, j: nat, l: nat)
    requires i < n && j < n && l < n
    ensures 0 <= Index3(n, i, j, l) < Cube(n) && Tuple3(n, Index3(n, i, j, l)) == (i, j, l)
    ensures forall k: nat :: k < Cube(n) && Tuple3(n, k) == (i, j, l) ==> k == Index3(n, i, j, l)
  {
    LastTriple(n, i, j, l);
    DivMod(n, i * n + j, l);
    DivMod(n, i, j);
  }

  ghost predicate EmitsTriples(table: Table, structured: seq<(Bits, Bits, Bits)>) {
    && table.Valid() && |structured| <= Cube(table.Size())
    && forall k :: 0 <= k < |structured| ==>
      var t := Tuple3(table.Size(), k); structured[k] == (Value(table, t.0), Value(table, t.1), Value(table, t.2))
  }

  lemma EmitsOneMoreTriple(table: Table, structured: seq<(Bits, Bits, Bits)>, i: nat, j: nat, l: nat)
    requires EmitsTriples(table, structured) && i < table.Size() && j < table.Size() && l < table.Size()
    requires Index3(table.Size(), i, j, l) == |structured|
    ensures EmitsTriples(table, structured + [(Value(table, i), Value(table, j), Value(table, l))])
  {
    hide Value, Tuple3, Cube, Index3;
    TripleDrawnOnce(table.Size(), i, j, l);
  }

  /** A whole run: it ends at call number total, with every tuple emitted once, in order. */
  method RunThree(level1: bool, table: Table) returns (calls: nat, structured: seq<(Bits, Bits, Bits)>)
    requires table.Valid()
    ensures calls == (if level1 then 9 else 2) * Cube(table.Size())
    ensures |structured| == Cube(table.Size()) && EmitsTriples(table, structured)
  {
    hide Cube;
    var g := new ThreeOperands(level1, table);
    calls, structured := 0, [];
    EmitsNone(table);
    while !g.done
      invariant fresh(g) && fresh(g.a) && fresh(g.b) && fresh(g.c) && g.Valid() && g.level1 == level1 && g.table == table
      invariant calls == g.Calls() && |structured| == g.rounds && EmitsTriples(table, structured)
      decreases g.total - g.Calls()
    {
      hide Value, EmitsTriples, ThreeOperands.Drew;
      var last := g.subcase == g.Period() - 1;
      CallsBelow(g.Period(), g.rounds, g.subcase, Cube(table.Size()));
      var x, y, z := g.Next();
      calls := calls + 1;
      if last {
        EmitsOneMoreTriple(table, structured, g.i, g.j, g.l);
        structured := structured + [(x, y, z)];
      }
    }
  }

  lemma EmitsNone(table: Table)
    requires table.Valid()
    ensures EmitsTriples(table, [])
  {
  }
}
