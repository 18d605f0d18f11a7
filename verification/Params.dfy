/** The order in which the parameters of a generated dummy module are declared. */
module Params {
  import opened Options

  type Name = string

  datatype Token = Ident(name: Name) | Other(text: string)

  /** A parameter value or a packed range, as tokens. */
  type Text = seq<Token>

  datatype Error = Recursive(name: Name) | NoDefault(name: Name)

  datatype Outcome = Ok(result: seq<Entry>) | Err(error: Error)

  datatype Entry = Entry(name: Name, value: Text)

  /** The identifiers of a text. */
  function SymbolicNames(packed: Text): (names: set<Name>)
    ensures forall n :: n in names <==> Ident(n) in packed
  {
    set t | t in packed && t.Ident? :: t.name
  }

  /** What is known of parameters: the names that the instance overrides and the declared defaults. */
  datatype Known = Known(overrides: set<Name>, defaults: map<Name, Text>) {
    predicate Has(name: Name) {
      name in overrides || name in defaults
    }

    function ValueOf(name: Name): Text
      requires Has(name)
    {
      if name in defaults then defaults[name] else [Other("0")]
    }

    predicate DependsOn(name: Name, dependency: Name) {
      Has(name) && Has(dependency) && dependency in SymbolicNames(ValueOf(name))
    }

    /** A walk along dependencies. */
    predicate Chain(walk: seq<Name>) {
      forall i :: 0 <= i < |walk| - 1 ==> DependsOn(walk[i], walk[i + 1])
    }

    ghost predicate Reaches(from: Name, to: Name) {
      exists walk :: Chain(walk) && walk != [] && walk[0] == from && walk[|walk| - 1] == to
    }

    /** A walk from a name comes back to a name that it has passed. */
    ghost predicate ReachesCycle(from: Name) {
      exists walk :: Chain(walk) && walk != [] && walk[0] == from && Returns(walk)
    }

    /** A walk comes back to the name. */
    ghost predicate OnCycle(name: Name) {
      exists walk :: Chain(walk) && |walk| > 1 && walk[0] == name && walk[|walk| - 1] == name
    }

    /** Every entry is known, has its value, and has its dependencies strictly before it; no name is listed twice. */
    ghost predicate Ordered(result: seq<Entry>) {
      && (forall i, j :: 0 <= i < j < |result| ==> result[i].name != result[j].name)
      && (forall i :: 0 <= i < |result| ==> Has(result[i].name) && result[i].value == ValueOf(result[i].name))
      && (forall i, d :: 0 <= i < |result| && DependsOn(result[i].name, d) ==> ListedBefore(result, i, d))
    }
  }

  predicate Returns(walk: seq<Name>)
    requires walk != []
  {
    exists i :: 0 <= i < |walk| - 1 && walk[i] == walk[|walk| - 1]
  }

  predicate ListedBefore(result: seq<Entry>, n: nat, name: Name)
    requires n <= |result|
  {
    exists j :: 0 <= j < n && result[j].name == name
  }

  predicate Listed(result: seq<Entry>, name: Name) {
    ListedBefore(result, |result|, name)
  }

  lemma NothingListed()
    ensures forall n :: !Listed([], n)
  {
  }

  lemma ListedInPrefix(a: seq<Entry>, b: seq<Entry>, name: Name)
    requires a <= b && Listed(a, name)
    ensures Listed(b, name)
  {
    var j :| 0 <= j < |a| && a[j].name == name;
    assert b[j].name == name;
  }

  lemma ListedSnoc(a: seq<Entry>, e: Entry, name: Name)
    ensures Listed(a + [e], name) <==> Listed(a, name) || name == e.name
  {
    if Listed(a, name) {
      ListedInPrefix(a, a + [e], name);
    }
    assert (a + [e])[|a|].name == e.name;
  }

  // ----- Walks -----

  lemma ChainSnoc(k: Known, walk: seq<Name>, name: Name)
    requires k.Chain(walk) && (walk == [] || k.DependsOn(walk[|walk| - 1], name))
    ensures k.Chain(walk + [name])
  {
  }

  lemma ReachesSelf(k: Known, name: Name)
    ensures k.Reaches(name, name)
  {
    assert k.Chain([name]);
  }

  lemma ReachesAfter(k: Known, from: Name, mid: Name, to: Name)
    requires k.DependsOn(from, mid) && k.Reaches(mid, to)
    ensures k.Reaches(from, to)
  {
    var walk :| k.Chain(walk) && walk != [] && walk[0] == mid && walk[|walk| - 1] == to;
    assert k.Chain([from] + walk);
  }

  /** A name that closes a walk into a cycle. */
  lemma CycleFound(k: Known, walk: seq<Name>, name: Name)
    requires k.Chain(walk) && walk != [] && k.DependsOn(walk[|walk| - 1], name) && name in walk
    ensures k.ReachesCycle(walk[0])
  {
    ChainSnoc(k, walk, name);
    var i :| 0 <= i < |walk| && walk[i] == name;
    assert (walk + [name])[i] == name;
    assert Returns(walk + [name]);
  }

  lemma CycleThrough(k: Known, walk: seq<Name>, name: Name)
    requires k.Chain(walk) && walk != [] && k.DependsOn(walk[|walk| - 1], name) && name in walk
    ensures k.OnCycle(name)
  {
    ChainSnoc(k, walk, name);
    var i :| 0 <= i < |walk| && walk[i] == name;
    ChainRest(k, walk + [name]);
    var cycle := (walk + [name])[i..];
    assert k.Chain(cycle) && |cycle| > 1 && cycle[0] == name && cycle[|cycle| - 1] == name;
  }

  /** Along a walk from a listed name, the names are listed, ever earlier. */
  lemma {:induction false} WalkGoesUp(k: Known, result: seq<Entry>, walk: seq<Name>, n: nat)
    requires k.Ordered(result) && n <= |result| && k.Chain(walk) && walk != [] && ListedBefore(result, n, walk[0])
    ensures ListedBefore(result, n, walk[|walk| - 1])
    ensures |walk| > 1 ==> walk[0] != walk[|walk| - 1]
    decreases |walk|
  {
    if |walk| > 1 {
      var j :| 0 <= j < n && result[j].name == walk[0];
      assert k.DependsOn(walk[0], walk[0 + 1]);
      assert ListedBefore(result, j, walk[1]);
      ChainRest(k, walk);
      WalkGoesUp(k, result, walk[1..], j);
      var i :| 0 <= i < j && result[i].name == walk[1..][|walk| - 2];
    }
  }

  lemma ChainRest(k: Known, walk: seq<Name>)
    requires k.Chain(walk)
    ensures forall i :: 0 <= i <= |walk| ==> k.Chain(walk[i..])
  {
    forall i | 0 <= i <= |walk|
      ensures k.Chain(walk[i..])
    {
      forall j | 0 <= j < |walk[i..]| - 1
        ensures k.DependsOn(walk[i..][j], walk[i..][j + 1])
      {
        assert k.DependsOn(walk[i + j], walk[i + j + 1]);
      }
    }
  }

  lemma ChainFront(k: Known, walk: seq<Name>, n: nat)
    requires k.Chain(walk) && n <= |walk|
    ensures k.Chain(walk[..n])
  {
  }

  /** An ordered list that holds a name holds whatever the name reaches, and the name reaches no cycle. */
  lemma OrderedIsClosed(k: Known, result: seq<Entry>, from: Name)
    requires k.Ordered(result) && Listed(result, from)
    ensures forall to :: k.Reaches(from, to) ==> Listed(result, to)
    ensures !k.ReachesCycle(from)
  {
    hide Known.Ordered, Known.Chain;
    forall to | k.Reaches(from, to)
      ensures Listed(result, to)
    {
      var walk :| k.Chain(walk) && walk != [] && walk[0] == from && walk[|walk| - 1] == to;
      WalkGoesUp(k, result, walk, |result|);
    }
    if k.ReachesCycle(from) {
      var walk :| k.Chain(walk) && walk != [] && walk[0] == from && Returns(walk);
      var i :| 0 <= i < |walk| - 1 && walk[i] == walk[|walk| - 1];
      ChainFront(k, walk, i + 1);
      WalkGoesUp(k, result, walk[..i + 1], |result|);
      ChainRest(k, walk);
      WalkGoesUp(k, result, walk[i..], |result|);
      assert false;
    }
  }

  /** Listing a name after its dependencies keeps the order. */
  lemma OrderedSnoc(k: Known, result: seq<Entry>, name: Name)
    requires k.Ordered(result) && k.Has(name) && !Listed(result, name)
    requires forall d :: k.DependsOn(name, d) ==> Listed(result, d)
    ensures k.Ordered(result + [Entry(name, k.ValueOf(name))])
  {
    hide Known.DependsOn, Known.ValueOf, Known.Has;
    var result' := result + [Entry(name, k.ValueOf(name))];
    forall i, d | 0 <= i < |result'| && k.DependsOn(result'[i].name, d)
      ensures ListedBefore(result', i, d)
    {
      if i < |result| {
        assert ListedBefore(result, i, d);
        var j :| 0 <= j < i && result[j].name == d;
        assert result'[j].name == d;
      } else {
        var j :| 0 <= j < |result| && result[j].name == d;
        assert result'[j].name == d;
      }
    }
    forall i, j | 0 <= i < j < |result'|
      ensures result'[i].name != result'[j].name
    {
      assert j == |result| ==> result[i].name != name;
    }
  }

  // ----- The resolver -----

  /** The state that the nested function shares with its caller. */
  class Resolver {
    const known: Known
    var result: seq<Entry>
    var visiting: set<Name>

    constructor (known: Known)
      ensures this.known == known && result == [] && visiting == {}
      ensures Valid([])
    {
      this.known, result, visiting := known, [], {};
    }

    /** The names being visited are those of a walk, and are not listed yet. */
    ghost predicate Valid(walk: seq<Name>)
      reads this
    {
      && known.Ordered(result)
      && known.Chain(walk)
      && visiting == (set n | n in walk)
      && (forall n :: n in visiting ==> known.Has(n) && !Listed(result, n))
    }

    /** What a successful visit from a name leaves: the new names are those it reaches. */
    twostate predicate Visited(name: Name)
      reads this
    {
      && old(result) <= result
      && visiting == old(visiting)
      && forall n :: Listed(result, n) && !Listed(old(result), n) ==> known.Reaches(name, n)
    }

    method Add(name: Name, ghost walk: seq<Name>) returns (error: Option<Error>)
      requires Valid(walk) && (walk != [] ==> known.DependsOn(walk[|walk| - 1], name))
      modifies this
      ensures error.None? ==> Valid(walk) && Visited(name) && Listed(result, name)
      ensures error.Some? && error.value.Recursive? ==> known.ReachesCycle((walk + [name])[0]) && known.OnCycle(error.value.name)
      ensures error.Some? && error.value.NoDefault? ==> error.value.name == name && !known.Has(name)
      decreases known.overrides + known.defaults.Keys - visiting
    {
      hide Known.Chain, Known.Ordered, Known.Reaches, Known.ReachesCycle, Known.OnCycle, ListedBefore;
      if exists e :: e in result && e.name == name {
        assert Listed(result, name) by { ListedIfIn(result, name); }
        return None;
      }
      if name in visiting {
        CycleFound(known, walk, name);
        CycleThrough(known, walk, name);
        return Some(Recursive(name));
      }
      assert !Listed(result, name) by { ListedIfIn(result, name); }
      visiting := visiting + {name};
      var value;
      if name in known.overrides {
        value := if name in known.defaults then known.defaults[name] else [Other("0")];
      } else if name in known.defaults {
        value := known.defaults[name];
      } else {
        return Some(NoDefault(name));
      }
      ChainSnoc(known, walk, name);
      ghost var deeper := walk + [name];
      assert Valid(deeper);
      var rest := SymbolicNames(value);
      ghost var before, during := old(result), visiting;
      while rest != {}
        invariant Valid(deeper) && visiting == during && before <= result
        invariant forall d :: known.DependsOn(name, d) && d !in rest ==> Listed(result, d)
        invariant forall n :: Listed(result, n) && !Listed(before, n) ==> known.Reaches(name, n)
        decreases rest
      {
        var dependency :| dependency in rest;
        if known.Has(dependency) {
          ghost var mid := result;
          error := Add(dependency, deeper);
          if error.Some? {
            return error;
          }
          VisitExtends(known, before, mid, result, name, dependency, rest);
        }
        rest := rest - {dependency};
      }
      OrderedSnoc(known, result, name);
      ReachesSelf(known, name);
      ListedAll(result, Entry(name, value));
      result := result + [Entry(name, value)];
      visiting := visiting - {name};
      return None;
    }
  }

  /** The part of the loop invariant that one more visited dependency extends. */
  lemma VisitExtends(k: Known, before: seq<Entry>, mid: seq<Entry>, after: seq<Entry>, name: Name, dependency: Name, rest: set<Name>)
    requires mid <= after && Listed(after, dependency) && k.DependsOn(name, dependency)
    requires forall d :: k.DependsOn(name, d) && d !in rest ==> Listed(mid, d)
    requires forall n :: Listed(mid, n) && !Listed(before, n) ==> k.Reaches(name, n)
    requires forall n :: Listed(after, n) && !Listed(mid, n) ==> k.Reaches(dependency, n)
    ensures forall d :: k.DependsOn(name, d) && d !in rest - {dependency} ==> Listed(after, d)
    ensures forall n :: Listed(after, n) && !Listed(before, n) ==> k.Reaches(name, n)
  {
    hide Known.DependsOn, Known.Reaches, ListedBefore, Listed;
    forall d | k.DependsOn(name, d) && d !in rest - {dependency}
      ensures Listed(after, d)
    {
      if d != dependency {
        ListedInPrefix(mid, after, d);
      }
    }
    forall n | Listed(after, n) && !Listed(before, n)
      ensures k.Reaches(name, n)
    {
      if !Listed(mid, n) {
        ReachesAfter(k, name, dependency, n);
      }
    }
  }

  lemma ListedAll(a: seq<Entry>, e: Entry)
    ensures forall n :: Listed(a + [e], n) <==> Listed(a, n) || n == e.name
  {
    forall n
      ensures Listed(a + [e], n) <==> Listed(a, n) || n == e.name
    {
      ListedSnoc(a, e, n);
    }
  }

  lemma ListedIfIn(result: seq<Entry>, name: Name)
    ensures Listed(result, name) <==> exists e :: e in result && e.name == name
  {
    if Listed(result, name) {
      var j :| 0 <= j < |result| && result[j].name == name;
      assert result[j] in result;
    }
    if e :| e in result && e.name == name {
      var j :| 0 <= j < |result| && result[j] == e;
    }
  }

  // ----- The whole computation -----

  /** What the caller asks for: the overridden parameters and those named in the ranges of the ports. */
  function Roots(overrides: set<Name>, ports: seq<Option<Text>>): set<Name> {
    overrides + Needed(ports)
  }

  function Needed(ports: seq<Option<Text>>): set<Name> {
    set i, n | 0 <= i < |ports| && ports[i].Some? && n in SymbolicNames(ports[i].value) :: n
  }

  /** The list holds exactly the roots and what they reach, in order. */
  ghost predicate Resolves(k: Known, roots: set<Name>, result: seq<Entry>) {
    && k.Ordered(result)
    && (forall n :: Listed(result, n) <==> exists root :: root in roots && k.Reaches(root, n))
    && (forall root :: root in roots ==> !k.ReachesCycle(root))
  }

  /** A parameter has its default, and zero when it is only overridden. */
  predicate DeclaredAs(k: Known, e: Entry) {
    if e.name in k.defaults then e.value == k.defaults[e.name] else e.name in k.overrides && e.value == [Other("0")]
  }

  lemma ValuesAre(k: Known, result: seq<Entry>)
    requires k.Ordered(result)
    ensures forall e :: e in result ==> DeclaredAs(k, e)
  {
    forall e | e in result
      ensures DeclaredAs(k, e)
    {
      var i :| 0 <= i < |result| && result[i] == e;
      assert k.Has(result[i].name);
    }
  }

  method ResolvedParameters(known: Known, ports: seq<Option<Text>>) returns (outcome: Outcome)
    ensures var roots := Roots(known.overrides, ports);
      match outcome
      case Ok(result) => Resolves(known, roots, result)
      case Err(Recursive(name)) => known.OnCycle(name) && exists root :: root in roots && known.ReachesCycle(root)
      case Err(NoDefault(name)) => name in roots && !known.Has(name)
    ensures outcome.Ok? ==> forall e :: e in outcome.result ==> DeclaredAs(known, e)
    ensures (forall root :: root in Roots(known.overrides, ports) ==> known.Has(root)) ==>
              (outcome.Err? <==> exists root :: root in Roots(known.overrides, ports) && known.ReachesCycle(root))
  {
    hide Known.Ordered, Known.Chain, Known.Reaches, Known.ReachesCycle, Known.OnCycle, ListedBefore;
    var needed := {};
    for i := 0 to |ports|
      invariant needed == Needed(ports[..i])
    {
      NeededSnoc(ports, i);
      if ports[i].Some? {
        needed := needed + SymbolicNames(ports[i].value);
      }
    }
    assert ports[..|ports|] == ports;
    var roots := known.overrides + needed;
    var resolver := new Resolver(known);
    var rest := roots;
    NothingListed();
    while rest != {}
      invariant fresh(resolver) && resolver.known == known && resolver.Valid([])
      invariant rest <= roots
      invariant forall n :: n in roots - rest ==> Listed(resolver.result, n)
      invariant forall n :: Listed(resolver.result, n) ==> exists root :: root in roots && known.Reaches(root, n)
      decreases rest
    {
      var name :| name in rest;
      ghost var before := resolver.result;
      var error := resolver.Add(name, []);
      if error.Some? {
        return Err(error.value);
      }
      RootExtends(known, roots, rest, before, resolver.result, name);
      rest := rest - {name};
    }
    AllResolved(known, roots, resolver.result);
    ValuesAre(known, resolver.result);
    outcome := Ok(resolver.result);
  }

  /** A name is asked for exactly when it is overridden, or an identifier of the range of a port. */
  lemma RootsAre(overrides: set<Name>, ports: seq<Option<Text>>, n: Name)
    ensures n in Roots(overrides, ports) <==>
      n in overrides || exists i :: 0 <= i < |ports| && ports[i].Some? && Ident(n) in ports[i].value
  {
    forall i | 0 <= i < |ports| && ports[i].Some?
      ensures n in SymbolicNames(ports[i].value) <==> Ident(n) in ports[i].value
    {
    }
    hide SymbolicNames;
    if n in Needed(ports) {
      var i :| 0 <= i < |ports| && ports[i].Some? && n in SymbolicNames(ports[i].value);
      assert Ident(n) in ports[i].value;
    }
    if i :| 0 <= i < |ports| && ports[i].Some? && Ident(n) in ports[i].value {
      assert n in SymbolicNames(ports[i].value);
    }
  }

  lemma NeededSnoc(ports: seq<Option<Text>>, i: nat)
    requires i < |ports|
    ensures Needed(ports[..i + 1]) == Needed(ports[..i]) + if ports[i].Some? then SymbolicNames(ports[i].value) else {}
  {
    hide SymbolicNames;
    var a, b := ports[..i + 1], ports[..i];
    forall n | n in Needed(a)
      ensures n in Needed(b) + if ports[i].Some? then SymbolicNames(ports[i].value) else {}
    {
      var j :| 0 <= j < |a| && a[j].Some? && n in SymbolicNames(a[j].value);
      assert j < i ==> b[j] == a[j];
    }
    forall n | n in Needed(b)
      ensures n in Needed(a)
    {
      var j :| 0 <= j < |b| && b[j].Some? && n in SymbolicNames(b[j].value);
      assert a[j] == b[j];
    }
    assert a[i] == ports[i];
  }

  lemma RootExtends(k: Known, roots: set<Name>, rest: set<Name>, before: seq<Entry>, after: seq<Entry>, name: Name)
    requires before <= after && name in rest && rest <= roots && Listed(after, name)
    requires forall n :: n in roots - rest ==> Listed(before, n)
    requires forall n :: Listed(before, n) ==> exists root :: root in roots && k.Reaches(root, n)
    requires forall n :: Listed(after, n) && !Listed(before, n) ==> k.Reaches(name, n)
    ensures forall n :: n in roots - (rest - {name}) ==> Listed(after, n)
    ensures forall n :: Listed(after, n) ==> exists root :: root in roots && k.Reaches(root, n)
  {
    hide Known.Reaches, ListedBefore, Listed;
    forall n | n in roots - (rest - {name})
      ensures Listed(after, n)
    {
      if n != name {
        ListedInPrefix(before, after, n);
      }
    }
  }

  lemma AllResolved(k: Known, roots: set<Name>, result: seq<Entry>)
    requires k.Ordered(result) && forall n :: n in roots ==> Listed(result, n)
    requires forall n :: Listed(result, n) ==> exists root :: root in roots && k.Reaches(root, n)
    ensures Resolves(k, roots, result)
  {
    hide Known.Ordered, Known.Reaches, Known.ReachesCycle, Listed;
    forall root | root in roots
      ensures !k.ReachesCycle(root) && forall n :: k.Reaches(root, n) ==> Listed(result, n)
    {
      OrderedIsClosed(k, result, root);
    }
  }

  /** A reachable cycle leaves no ordered list; so, when every root is known, it is the only reason to fail. */
  lemma CycleHasNoOrder(k: Known, roots: set<Name>, root: Name, result: seq<Entry>)
    requires root in roots && k.ReachesCycle(root) && forall n :: n in roots ==> Listed(result, n)
    ensures !k.Ordered(result)
  {
    hide Known.Ordered, Known.Reaches, Known.ReachesCycle, Listed;
    if k.Ordered(result) {
      OrderedIsClosed(k, result, root);
    }
  }
}
