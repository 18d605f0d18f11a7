/** The reading and the rewriting of a case list, line by line. */
module DirectedList {
  import opened Options
  import opened DirectedListSpec
  import opened DirectedSync

  // ----- Positions -----

  /** The first and past-last line of each managed block. */
  function RangeMap(segs: seq<Segment>): map<Name, (nat, nat)> {
    if segs == [] then map[]
    else
      var front, last := segs[..|segs| - 1], segs[|segs| - 1];
      if last.Block? then RangeMap(front)[last.name := (|Flatten(front)|, |Flatten(segs)|)] else RangeMap(front)
  }

  lemma RangeMapSnoc(segs: seq<Segment>, s: Segment)
    ensures RangeMap(segs + [s])
         == if s.Block? then RangeMap(segs)[s.name := (|Flatten(segs)|, |Flatten(segs + [s])|)] else RangeMap(segs)
  {
    assert (segs + [s])[..|segs|] == segs;
  }

  lemma {:induction false} RangeMapKeys(segs: seq<Segment>)
    ensures forall n :: n in RangeMap(segs) <==> n in BlockNames(segs)
    ensures forall n :: n in RangeMap(segs) ==> RangeMap(segs)[n].1 <= |Flatten(segs)|
  {
    if segs != [] {
      RangeMapKeys(segs[..|segs| - 1]);
    }
  }

  lemma {:induction false} RangeMapAt(segs: seq<Segment>, k: nat)
    requires k < |segs| && segs[k].Block? && NoDuplicates(BlockNames(segs))
    ensures segs[k].name in RangeMap(segs) && RangeMap(segs)[segs[k].name] == (|Flatten(segs[..k])|, |Flatten(segs[..k + 1])|)
  {
    hide Flatten;
    var front, last := segs[..|segs| - 1], segs[|segs| - 1];
    if k == |segs| - 1 {
      assert segs[..k + 1] == segs;
    } else {
      assert front[..k] == segs[..k] && front[..k + 1] == segs[..k + 1];
      assert NoDuplicates(BlockNames(front)) by { FrontNames(segs); }
      RangeMapAt(front, k);
      NamesDiffer(segs, k);
    }
  }

  lemma FrontNames(segs: seq<Segment>)
    requires segs != [] && NoDuplicates(BlockNames(segs))
    ensures NoDuplicates(BlockNames(segs[..|segs| - 1]))
  {
    var names, front := BlockNames(segs), BlockNames(segs[..|segs| - 1]);
    assert forall i :: 0 <= i < |front| ==> names[i] == front[i];
  }

  lemma NamesDiffer(segs: seq<Segment>, k: nat)
    requires k < |segs| - 1 && segs[k].Block? && NoDuplicates(BlockNames(segs))
    ensures segs[|segs| - 1].Block? ==> segs[|segs| - 1].name != segs[k].name
  {
    var front, last := segs[..|segs| - 1], segs[|segs| - 1];
    if last.Block? {
      NameListed(front, k);
      var names := BlockNames(segs);
      var i :| 0 <= i < |BlockNames(front)| && BlockNames(front)[i] == segs[k].name;
      assert names[i] == segs[k].name && names[|names| - 1] == last.name;
    }
  }

  lemma {:induction false} NameListed(segs: seq<Segment>, k: nat)
    requires k < |segs| && segs[k].Block?
    ensures segs[k].name in BlockNames(segs)
  {
    if k < |segs| - 1 {
      NameListed(segs[..|segs| - 1], k);
    }
  }

  // ----- Reading -----

  lemma {:induction false} FindEndShift(lines: seq<Line>, i: nat, k: nat)
    requires i + k <= |lines|
    ensures FindEnd(lines[i..], k) + i == FindEnd(lines, i + k)
    decreases |lines| - (i + k)
  {
    if i + k < |lines| && !lines[i + k].marker.End? {
      FindEndShift(lines, i, k + 1);
    }
  }

  method EndIndex(lines: seq<Line>, index: nat) returns (end: nat)
    requires index < |lines|
    ensures end == FindEnd(lines, index + 1)
  {
    end := index + 1;
    while end < |lines| && !lines[end].marker.End?
      invariant index < end <= |lines| && FindEnd(lines, index + 1) == FindEnd(lines, end)
    {
      end := end + 1;
    }
  }

  method BlockCases(lines: seq<Line>) returns (cases: seq<Name>)
    ensures cases == Cases(lines)
  {
    cases := [];
    for i := 0 to |lines|
      invariant cases == Cases(lines[..i])
    {
      CasesTake(lines, i);
      if lines[i].caseName.Some? {
        cases := cases + [lines[i].caseName.value];
      }
    }
    assert lines[..|lines|] == lines;
  }

  function Joined(a: seq<Segment>, rest: Option<seq<Segment>>): Option<seq<Segment>> {
    if rest.None? then None else Some(a + rest.value)
  }

  lemma JoinedNext(a: seq<Segment>, s: Segment, rest: Option<seq<Segment>>)
    ensures Joined(a, Prepended(s, rest)) == Joined(a + [s], rest)
  {
    if rest.Some? {
      assert a + ([s] + rest.value) == a + [s] + rest.value;
    }
  }

  /** What has been read: the segments up to a line, and what the names seen so far are. */
  ghost predicate Read(lines: seq<Line>, acc: seq<Segment>, index: nat, managed: map<Name, (nat, nat)>, manual: set<Name>) {
    && index <= |lines| && Flatten(acc) == lines[..index]
    && Split(lines) == Joined(acc, Split(lines[index..]))
    && managed == RangeMap(acc) && (forall n :: n in manual <==> n in ManualCases(acc))
    && NoDuplicates(BlockNames(acc)) && NoDuplicates(ManualCases(acc))
  }

  lemma ReadNothing(lines: seq<Line>)
    ensures Read(lines, [], 0, map[], {})
  {
    hide Split;
    FlattenNone();
    NoNames();
    assert lines[0..] == lines;
    if Split(lines).Some? {
      assert [] + Split(lines).value == Split(lines).value;
    }
  }

  /** A segment is read. */
  lemma ReadSegment(lines: seq<Line>, acc: seq<Segment>, index: nat, managed: map<Name, (nat, nat)>, manual: set<Name>, s: Segment,
                    managed': map<Name, (nat, nat)>, manual': set<Name>)
    requires Read(lines, acc, index, managed, manual) && index + |s.Lines()| <= |lines|
    requires s.Lines() == lines[index..index + |s.Lines()|]
    requires Split(lines[index..]) == Prepended(s, Split(lines[index + |s.Lines()|..]))
    requires s.Block? ==> s.name !in managed && managed' == managed[s.name := (index, index + |s.Lines()|)] && manual' == manual
    requires s.Manual? && s.line.caseName.None? ==> managed' == managed && manual' == manual
    requires s.Manual? && s.line.caseName.Some? ==>
               s.line.caseName.value !in manual && managed' == managed && manual' == manual + {s.line.caseName.value}
    ensures Read(lines, acc + [s], index + |s.Lines()|, managed', manual')
  {
    hide Split, BlockNames, ManualCases, RangeMap, Flatten, Segment.Lines;
    FlattenSnoc(acc, s);
    JoinedNext(acc, s, Split(lines[index + |s.Lines()|..]));
    BlockNamesSnoc(acc, s);
    RangeMapKeys(acc);
    RangeMapSnoc(acc, s);
    assert lines[..index] + lines[index..index + |s.Lines()|] == lines[..index + |s.Lines()|];
  }

  /** A name that is read again makes the list ambiguous. */
  lemma ReadAgain(lines: seq<Line>, acc: seq<Segment>, index: nat, managed: map<Name, (nat, nat)>, manual: set<Name>, s: Segment)
    requires Read(lines, acc, index, managed, manual) && Split(lines).Some?
    requires Split(lines[index..]).Some? && Split(lines[index..]).value != [] && Split(lines[index..]).value[0] == s
    requires if s.Block? then s.name in managed else s.line.caseName.Some? && s.line.caseName.value in manual
    ensures !Unambiguous(Split(lines).value)
  {
    hide Split, BlockNames, ManualCases, RangeMap, Flatten;
    var rest := Split(lines[index..]).value;
    assert acc + rest == acc + [s] + rest[1..];
    NamesAppend(acc + [s], rest[1..]);
    BlockNamesSnoc(acc, s);
    RangeMapKeys(acc);
    if s.Block? {
      RepeatedName(BlockNames(acc), s.name, BlockNames(rest[1..]));
    } else {
      RepeatedName(ManualCases(acc), s.line.caseName.value, ManualCases(rest[1..]));
    }
  }

  lemma RepeatedName(a: seq<Name>, n: Name, b: seq<Name>)
    requires n in a
    ensures !NoDuplicates(a + [n] + b)
  {
    var i :| 0 <= i < |a| && a[i] == n;
    var all := a + [n] + b;
    assert all[i] == n && all[|a|] == n;
  }

  lemma SplitFirstIs(lines: seq<Line>)
    requires lines != [] && Split(lines).Some?
    ensures Split(lines).value != [] && Split(lines).value[0] == FirstSegment(lines)
  {
    hide FirstSegment, FirstLength, GoodBlock;
  }

  lemma SplitNext(lines: seq<Line>)
    requires lines != [] && (lines[0].marker.Begin? ==> GoodBlock(lines)) && FirstLength(lines) <= |lines|
    ensures Split(lines) == Prepended(FirstSegment(lines), Split(lines[FirstLength(lines)..]))
  {
    hide FirstSegment, FirstLength, GoodBlock;
  }

  lemma SplitBad(lines: seq<Line>)
    requires lines != [] && lines[0].marker.Begin? && !GoodBlock(lines)
    ensures Split(lines).None?
  {
    hide FirstSegment, FirstLength, GoodBlock;
  }

  /** Reads one managed block: its range, or nothing when it is not good. */
  method ReadBlock(lines: seq<Line>, index: nat) returns (end: Option<nat>)
    requires index < |lines| && lines[index].marker.Begin?
    ensures end.Some? <==> GoodBlock(lines[index..])
    ensures end.Some? ==> index < end.value <= |lines| && FirstLength(lines[index..]) == end.value - index
                          && FirstSegment(lines[index..]) == Block(lines[index].marker.name, lines[index..end.value])
  {
    hide Cases;
    var name := lines[index].marker.name;
    var endIndex := EndIndex(lines, index);
    ghost var rest := lines[index..];
    FindEndShift(lines, index, 1);
    if endIndex == |lines| || lines[endIndex].marker.name != name {
      return None;
    }
    assert rest[..endIndex - index + 1] == lines[index..endIndex + 1];
    var cases := BlockCases(lines[index..endIndex + 1]);
    if cases != [name] {
      return None;
    }
    return Some(endIndex + 1);
  }

  lemma ReadStuck(lines: seq<Line>, acc: seq<Segment>, index: nat, managed: map<Name, (nat, nat)>, manual: set<Name>)
    requires Read(lines, acc, index, managed, manual) && Split(lines[index..]).None?
    ensures !Parses(lines)
  {
  }

  lemma ReadTwice(lines: seq<Line>, acc: seq<Segment>, index: nat, managed: map<Name, (nat, nat)>, manual: set<Name>)
    requires Read(lines, acc, index, managed, manual) && index < |lines|
    requires var s := FirstSegment(lines[index..]); if s.Block? then s.name in managed else s.line.caseName.Some? && s.line.caseName.value in manual
    ensures !Parses(lines)
  {
    hide FirstSegment, Unambiguous;
    if Split(lines).Some? {
      assert Split(lines[index..]).Some?;
      SplitFirstIs(lines[index..]);
      ReadAgain(lines, acc, index, managed, manual, FirstSegment(lines[index..]));
    }
  }

  lemma ReadAll(lines: seq<Line>, acc: seq<Segment>, managed: map<Name, (nat, nat)>, manual: set<Name>)
    requires Read(lines, acc, |lines|, managed, manual)
    ensures Split(lines) == Some(acc) && managed == RangeMap(acc) && (forall n :: n in manual <==> n in ManualCases(acc))
    ensures Parses(lines) <==> managed.Keys * manual == {}
  {
    hide BlockNames, ManualCases, RangeMap, Flatten, Split;
    assert lines[|lines|..] == [];
    SplitNothing();
    assert acc + [] == acc;
    RangeMapKeys(acc);
    NoCommonNames(acc, managed, manual);
  }

  lemma NoCommonNames(acc: seq<Segment>, managed: map<Name, (nat, nat)>, manual: set<Name>)
    requires forall n :: n in managed <==> n in BlockNames(acc)
    requires forall n :: n in manual <==> n in ManualCases(acc)
    ensures NoCommon(BlockNames(acc), ManualCases(acc)) <==> managed.Keys * manual == {}
  {
    hide BlockNames, ManualCases;
    if managed.Keys * manual != {} {
      var n :| n in managed.Keys * manual;
      assert n in BlockNames(acc) && n in ManualCases(acc);
    } else {
      forall n | n in BlockNames(acc)
        ensures n !in ManualCases(acc)
      {
        assert n in managed.Keys && n !in managed.Keys * manual;
      }
    }
  }

  lemma ManualFirst(lines: seq<Line>, index: nat)
    requires index < |lines| && !lines[index].marker.Begin?
    ensures FirstSegment(lines[index..]) == Manual(lines[index]) && FirstLength(lines[index..]) == 1
    ensures Split(lines[index..]) == Prepended(Manual(lines[index]), Split(lines[index + 1..]))
  {
    SplitNext(lines[index..]);
    assert lines[index..][1..] == lines[index + 1..];
    hide Split;
  }

  lemma BlockFirst(lines: seq<Line>, index: nat, end: nat)
    requires index < end <= |lines| && lines[index].marker.Begin? && GoodBlock(lines[index..])
    requires FirstLength(lines[index..]) == end - index
    ensures Split(lines[index..]) == Prepended(FirstSegment(lines[index..]), Split(lines[end..]))
  {
    hide FirstSegment, FirstLength, GoodBlock;
    SplitNext(lines[index..]);
    assert lines[index..][end - index..] == lines[end..];
    hide Split;
  }

  /** Reads a list: the ranges of its managed blocks and the case names outside them, if it is accepted. */
  method ParseCaseList(lines: seq<Line>) returns (ok: bool, managed: map<Name, (nat, nat)>, manual: set<Name>)
    ensures ok <==> Parses(lines)
    ensures ok ==> managed == RangeMap(Split(lines).value) && forall n :: n in manual <==> n in ManualCases(Split(lines).value)
  {
    hide Split, Read, FirstSegment, FirstLength, GoodBlock, RangeMap, Parses, ManualCases;
    managed, manual := map[], {};
    ghost var acc: seq<Segment> := [];
    var index := 0;
    ReadNothing(lines);
    while index < |lines|
      invariant index <= |lines| && Read(lines, acc, index, managed, manual)
    {
      ghost var managed0, manual0 := managed, manual;
      if lines[index].marker.Begin? {
        var name := lines[index].marker.name;
        BeginName(lines, index);
        if name in managed {
          ReadTwice(lines, acc, index, managed, manual);
          return false, managed, manual;
        }
        var end := ReadBlock(lines, index);
        if end.None? {
          SplitBad(lines[index..]);
          ReadStuck(lines, acc, index, managed, manual);
          return false, managed, manual;
        }
        BlockFirst(lines, index, end.value);
        managed := managed[name := (index, end.value)];
        ghost var s := Block(name, lines[index..end.value]);
        ReadSegment(lines, acc, index, managed0, manual0, s, managed, manual);
        acc := acc + [s];
        index := end.value;
      } else {
        ManualFirst(lines, index);
        if lines[index].caseName.Some? {
          var name := lines[index].caseName.value;
          if name in manual {
            ReadTwice(lines, acc, index, managed, manual);
            return false, managed, manual;
          }
          manual := manual + {name};
        }
        ReadSegment(lines, acc, index, managed0, manual0, Manual(lines[index]), managed, manual);
        acc := acc + [Manual(lines[index])];
        index := index + 1;
      }
    }
    ReadAll(lines, acc, managed, manual);
    ok := managed.Keys * manual == {};
  }

  lemma BeginName(lines: seq<Line>, index: nat)
    requires index < |lines| && lines[index].marker.Begin?
    ensures FirstSegment(lines[index..]).Block? && FirstSegment(lines[index..]).name == lines[index].marker.name
  {
  }

  // ----- Rewriting -----

  /** No begin marker of a selected scene lies inside a block that is not selected. */
  predicate Untangled(segs: seq<Segment>, scenes: seq<Scene>) {
    forall k :: 0 <= k < |segs| && segs[k].Block? && SceneNamed(scenes, segs[k].name).None? ==> UntangledBlock(segs[k].lines, scenes)
  }

  predicate UntangledBlock(lines: seq<Line>, scenes: seq<Scene>) {
    forall o :: 0 < o < |lines| ==> !Selects(lines[o], scenes)
  }

  predicate Selects(line: Line, scenes: seq<Scene>) {
    line.marker.Begin? && SceneNamed(scenes, line.marker.name).Some?
  }

  /** The loop is at line o of segment k. */
  ghost predicate At(segs: seq<Segment>, scenes: seq<Scene>, k: nat, o: nat, index: nat, result: seq<Line>) {
    && k <= |segs| && index == |Flatten(segs[..k])| + o
    && (o > 0 ==> k < |segs| && segs[k].Block? && SceneNamed(scenes, segs[k].name).None? && o < |segs[k].lines|)
    && result == Flatten(Replaced(segs[..k], scenes)) + if o == 0 then [] else segs[k].lines[..o]
  }

  lemma TakeNext(segs: seq<Segment>, scenes: seq<Scene>, k: nat)
    requires k < |segs|
    ensures Flatten(segs[..k + 1]) == Flatten(segs[..k]) + segs[k].Lines()
    ensures Flatten(Replaced(segs[..k + 1], scenes)) == Flatten(Replaced(segs[..k], scenes)) + ReplacedSegment(segs[k], scenes).Lines()
  {
    hide Flatten, ReplacedSegment, Segment.Lines;
    assert segs[..k + 1] == segs[..k] + [segs[k]];
    FlattenSnoc(segs[..k], segs[k]);
    FlattenSnoc(Replaced(segs[..k], scenes), ReplacedSegment(segs[k], scenes));
    assert Replaced(segs[..k + 1], scenes) == Replaced(segs[..k], scenes) + [ReplacedSegment(segs[k], scenes)];
  }

  /** The line at the place of the loop. */
  lemma LineAt(segs: seq<Segment>, scenes: seq<Scene>, k: nat, o: nat, index: nat, result: seq<Line>)
    requires At(segs, scenes, k, o, index, result) && index < |Flatten(segs)| && AllShaped(segs)
    ensures k < |segs| && o < |segs[k].Lines()| && Flatten(segs)[index] == segs[k].Lines()[o]
  {
    hide Flatten, Segment.Lines, Shaped;
    assert segs[..|segs|] == segs;
    if k < |segs| {
      TakeNext(segs, scenes, k);
      assert segs == segs[..k + 1] + segs[k + 1..];
      FlattenAppend(segs[..k + 1], segs[k + 1..]);
      SomeLines(segs[k]);
      LinesOf(segs[k]);
    }
  }

  lemma SomeLines(s: Segment)
    requires Shaped(s)
    ensures |s.Lines()| > 0
  {
  }

  lemma LinesOf(s: Segment)
    ensures s.Block? ==> s.Lines() == s.lines
    ensures s.Manual? ==> s.Lines() == [s.line]
  {
  }

  /** A selected begin marker is that of the block at which the loop is, and its range is known. */
  lemma SelectedStep(segs: seq<Segment>, scenes: seq<Scene>, k: nat, o: nat, index: nat, result: seq<Line>, name: Name)
    requires At(segs, scenes, k, o, index, result) && index < |Flatten(segs)| && AllShaped(segs)
    requires o == 0 && NoDuplicates(BlockNames(segs))
    requires Selects(Flatten(segs)[index], scenes) && Flatten(segs)[index].marker.name == name
    ensures SceneNamed(scenes, name).Some? && name in RangeMap(segs) && k < |segs| && RangeMap(segs)[name].1 > index
    ensures segs[k].Block? && segs[k].name == name
    ensures At(segs, scenes, k + 1, 0, RangeMap(segs)[name].1, result + Render(SceneNamed(scenes, name).value))
  {
    SelectedIsBlock(segs, scenes, k, index, result, name);
    assert result + [] == result;
    assert result == Flatten(Replaced(segs[..k], scenes)) && index == |Flatten(segs[..k])|;
    hide Flatten, Render, BlockNames, RangeMap, Shaped, AllShaped, At, Replaced;
    SegmentDone(segs, scenes, k, result);
    RangeMapAt(segs, k);
    LinesOf(segs[k]);
    LinesOf(ReplacedSegment(segs[k], scenes));
  }

  lemma SelectedIsBlock(segs: seq<Segment>, scenes: seq<Scene>, k: nat, index: nat, result: seq<Line>, name: Name)
    requires At(segs, scenes, k, 0, index, result) && index < |Flatten(segs)| && AllShaped(segs)
    requires Selects(Flatten(segs)[index], scenes) && Flatten(segs)[index].marker.name == name
    ensures k < |segs| && segs[k].Block? && segs[k].name == name && SceneNamed(scenes, name).Some?
    ensures |segs[k].lines| > 0
  {
    hide Flatten, Replaced;
    LineAt(segs, scenes, k, 0, index, result);
    assert Shaped(segs[k]);
  }

  /** A whole segment is done. */
  lemma SegmentDone(segs: seq<Segment>, scenes: seq<Scene>, k: nat, result: seq<Line>)
    requires k < |segs| && result == Flatten(Replaced(segs[..k], scenes))
    ensures At(segs, scenes, k + 1, 0, |Flatten(segs[..k + 1])|, result + ReplacedSegment(segs[k], scenes).Lines())
    ensures |Flatten(segs[..k + 1])| == |Flatten(segs[..k])| + |segs[k].Lines()|
  {
    TakeNext(segs, scenes, k);
    hide Flatten, ReplacedSegment, Segment.Lines, Replaced;
  }

  /** Any other line is copied. */
  lemma CopiedStep(segs: seq<Segment>, scenes: seq<Scene>, k: nat, o: nat, index: nat, result: seq<Line>) returns (k': nat, o': nat)
    requires At(segs, scenes, k, o, index, result) && index < |Flatten(segs)| && AllShaped(segs)
    requires !Selects(Flatten(segs)[index], scenes)
    ensures At(segs, scenes, k', o', index + 1, result + [Flatten(segs)[index]])
    ensures k' == k || (k' == k + 1 && ReplacedSegment(segs[k], scenes) == segs[k])
    ensures k < |segs| && (segs[k].Block? ==> SceneNamed(scenes, segs[k].name).None?)
  {
    hide Flatten, Render;
    LineAt(segs, scenes, k, o, index, result);
    assert Shaped(segs[k]);
    LinesOf(segs[k]);
    TakeNext(segs, scenes, k);
    var lines := segs[k].Lines();
    assert lines[..o] + [lines[o]] == lines[..o + 1];
    if o + 1 == |lines| {
      assert lines[..o + 1] == lines;
      k', o' := k + 1, 0;
    } else {
      k', o' := k, o + 1;
    }
  }

  /** What the loop gives: the new lines and the scenes whose blocks it met; or an unknown name, or no end. */
  datatype Rewriting = Rewritten(lines: seq<Line>, replaced: set<Name>) | UnknownName | NoEnd

  /** The selected names among the blocks of some segments. */
  ghost predicate Met(segs: seq<Segment>, scenes: seq<Scene>, replaced: set<Name>) {
    forall n :: n in replaced <==> n in BlockNames(segs) && SceneNamed(scenes, n).Some?
  }

  lemma MetNext(segs: seq<Segment>, scenes: seq<Scene>, k: nat, replaced: set<Name>)
    requires k < |segs| && Met(segs[..k], scenes, replaced)
    ensures Met(segs[..k + 1], scenes, if segs[k].Block? && SceneNamed(scenes, segs[k].name).Some? then replaced + {segs[k].name} else replaced)
  {
    hide BlockNames;
    assert segs[..k + 1] == segs[..k] + [segs[k]];
    BlockNamesSnoc(segs[..k], segs[k]);
  }

  lemma LoopBegins(segs: seq<Segment>, scenes: seq<Scene>)
    ensures At(segs, scenes, 0, 0, 0, []) && Met(segs[..0], scenes, {})
  {
    assert segs[..0] == [] && Replaced([], scenes) == [];
    FlattenNone();
    NoNames();
  }

  lemma LoopEnds(segs: seq<Segment>, scenes: seq<Scene>, k: nat, o: nat, result: seq<Line>, replaced: set<Name>)
    requires At(segs, scenes, k, o, |Flatten(segs)|, result) && AllShaped(segs) && Met(segs[..k], scenes, replaced)
    ensures k == |segs| && o == 0 && result == Flatten(Replaced(segs, scenes)) && Met(segs, scenes, replaced)
  {
    hide Flatten, Segment.Lines, Shaped;
    assert segs[..|segs|] == segs;
    if k < |segs| {
      TakeNext(segs, scenes, k);
      assert segs == segs[..k + 1] + segs[k + 1..];
      FlattenAppend(segs[..k + 1], segs[k + 1..]);
      SomeLines(segs[k]);
      LinesOf(segs[k]);
      assert false;
    }
  }

  // ----- Markers inside blocks -----

  /** No begin marker of a selected scene lies inside a block before line o of segment k. */
  ghost predicate UntangledTo(segs: seq<Segment>, scenes: seq<Scene>, k: nat, o: nat) {
    && k <= |segs| && Untangled(segs[..k], scenes)
    && (o > 0 ==> k < |segs| && segs[k].Block? && o <= |segs[k].lines| && UntangledBlock(segs[k].lines[..o], scenes))
  }

  lemma UntangledFrom(segs: seq<Segment>, scenes: seq<Scene>)
    ensures UntangledTo(segs, scenes, 0, 0)
    ensures UntangledTo(segs, scenes, |segs|, 0) <==> Untangled(segs, scenes)
  {
    assert segs[..|segs|] == segs;
  }

  /** A selected block does not matter; a copied line is no marker of a selected scene. */
  lemma UntangledSelected(segs: seq<Segment>, scenes: seq<Scene>, k: nat)
    requires UntangledTo(segs, scenes, k, 0) && k < |segs| && (segs[k].Block? ==> SceneNamed(scenes, segs[k].name).Some?)
    ensures UntangledTo(segs, scenes, k + 1, 0)
  {
    hide UntangledBlock;
    assert segs[..k + 1] == segs[..k] + [segs[k]];
  }

  lemma UntangledCopied(segs: seq<Segment>, scenes: seq<Scene>, k: nat, o: nat)
    requires UntangledTo(segs, scenes, k, o) && k < |segs| && segs[k].Block? && o < |segs[k].lines|
    requires o > 0 ==> !Selects(segs[k].lines[o], scenes)
    ensures UntangledTo(segs, scenes, k, o + 1)
    ensures o + 1 == |segs[k].lines| ==> UntangledTo(segs, scenes, k + 1, 0)
  {
    var lines := segs[k].lines;
    assert UntangledBlock(lines[..o + 1], scenes);
    if o + 1 == |lines| {
      assert lines[..o + 1] == lines;
      hide UntangledBlock;
      assert segs[..k + 1] == segs[..k] + [segs[k]];
    }
  }

  /** Lines that no list begins with that is accepted: the block of a scene is rendered inside another block. */
  ghost predicate SpoiledBy(bad: seq<Line>, front: seq<Segment>, block: seq<Line>, s: Scene) {
    && AllShaped(front) && bad == Flatten(front) + block + Render(s)
    && block != [] && block[0].marker.Begin? && block[0].marker.name != s.name
    && forall i :: 0 < i < |block| ==> !block[i].marker.End?
  }

  ghost predicate Spoils(bad: seq<Line>) {
    exists front, block, s :: SpoiledBy(bad, front, block, s)
  }

  lemma SpoilsEnd(bad: seq<Line>)
    requires Spoils(bad)
    ensures bad != [] && bad[|bad| - 1] != BLANK
  {
    var front, block, s :| SpoiledBy(bad, front, block, s);
    assert bad[|bad| - 1] == Render(s)[8];
  }

  /** The first marker inside another block spoils the result. */
  lemma TangledStep(segs: seq<Segment>, scenes: seq<Scene>, k: nat, o: nat, index: nat, result: seq<Line>, name: Name)
    requires At(segs, scenes, k, o, index, result) && index < |Flatten(segs)| && AllShaped(segs) && o > 0
    requires Selects(Flatten(segs)[index], scenes) && Flatten(segs)[index].marker.name == name
    ensures SceneNamed(scenes, name).Some? && Spoils(result + Render(SceneNamed(scenes, name).value)) && !Untangled(segs, scenes)
  {
    hide Flatten, Replaced, Render;
    LineAt(segs, scenes, k, o, index, result);
    assert Shaped(segs[k]);
    var lines := segs[k].lines;
    assert Selects(lines[o], scenes);
    assert !UntangledBlock(lines, scenes);
    var s := SceneNamed(scenes, name).value;
    ReplacedShapedTo(segs, scenes, k);
    assert SpoiledBy(result + Render(s), Replaced(segs[..k], scenes), lines[..o], s);
  }

  lemma ReplacedShapedTo(segs: seq<Segment>, scenes: seq<Scene>, k: nat)
    requires AllShaped(segs) && k <= |segs|
    ensures AllShaped(Replaced(segs[..k], scenes))
  {
    hide Shaped, Replaced;
    assert AllShaped(segs[..k]);
    ReplacedShaped(segs[..k], scenes);
  }

  /** A list that begins so is refused: its end marker is that of the other block. */
  lemma SpoiledRefused(bad: seq<Line>, lines: seq<Line>)
    requires Spoils(bad) && bad <= lines
    ensures !Parses(lines)
  {
    hide Flatten, Split, AllShaped, Unambiguous, FindEnd;
    var front, block, s :| SpoiledBy(bad, front, block, s);
    var n := |Flatten(front)|;
    var rest := lines[n..];
    assert lines[..n] == bad[..n] == Flatten(front);
    assert lines == Flatten(front) + rest;
    assert rest[..|block|] == bad[n..][..|block|] == block;
    assert rest[|block|..|block| + 9] == bad[n..][|block|..] == Render(s);
    SpoiledBlock(rest, block, s);
    SplitAfter(front, rest);
  }

  lemma SpoiledBlock(rest: seq<Line>, block: seq<Line>, s: Scene)
    requires |rest| >= |block| + 9 && rest[..|block|] == block && rest[|block|..|block| + 9] == Render(s)
    requires block != [] && block[0].marker.Begin? && block[0].marker.name != s.name
    requires forall i :: 0 < i < |block| ==> !block[i].marker.End?
    ensures Split(rest).None?
  {
    hide FindEnd, Split, Render, GoodBlock;
    var b := |block|;
    assert rest[0] == block[0];
    RenderedMarkers(s);
    forall i | 1 <= i < b + 8
      ensures !rest[i].marker.End?
    {
      assert i < b ==> rest[i] == block[i];
      assert i >= b ==> rest[i] == Render(s)[i - b];
    }
    assert rest[b + 8] == Render(s)[8];
    FindEndIs(rest, 1, b + 8);
    ForeignEnd(rest, b + 8);
  }

  lemma RenderedMarkers(s: Scene)
    ensures |Render(s)| == 9 && Render(s)[8].marker == End(s.name) && forall i :: 0 <= i < 8 ==> !Render(s)[i].marker.End?
  {
  }

  lemma ForeignEnd(rest: seq<Line>, end: nat)
    requires end < |rest| && rest[0].marker.Begin? && rest[end].marker.End? && FindEnd(rest, 1) == end
    requires rest[end].marker.name != rest[0].marker.name
    ensures Split(rest).None?
  {
    hide Cases;
    assert !GoodBlock(rest);
    SplitBad(rest);
  }

  lemma {:induction false} SplitAfter(front: seq<Segment>, rest: seq<Line>)
    requires AllShaped(front) && Split(rest).None?
    ensures Split(Flatten(front) + rest).None?
  {
    hide Flatten, Split, Segment.Lines, Shaped, OwnCase;
    if front == [] {
      FlattenNone();
      assert [] + rest == rest;
    } else {
      var first, more := front[0], front[1..];
      assert front == [first] + more;
      FlattenCons(first, more);
      AllShapedCons(first, more);
      SplitAfter(more, rest);
      SplitFirst(first, Flatten(more) + rest);
      assert Flatten(front) + rest == first.Lines() + (Flatten(more) + rest);
    }
  }

  // ----- The rewriting loop -----

  /** The line at which the loop is next: none if a name has no block. */
  function Next(lines: seq<Line>, managed: map<Name, (nat, nat)>, scenes: seq<Scene>, i: nat): Option<nat>
    requires i < |lines|
  {
    if !Selects(lines[i], scenes) then Some(i + 1)
    else if lines[i].marker.name in managed then Some(managed[lines[i].marker.name].1)
    else None
  }

  /** The line at which the loop is after n steps: none if it has ended before. */
  ghost function Orbit(lines: seq<Line>, managed: map<Name, (nat, nat)>, scenes: seq<Scene>, n: nat): Option<nat> {
    if n == 0 then Some(0)
    else
      var i := Orbit(lines, managed, scenes, n - 1);
      if i.None? || i.value >= |lines| then None else Next(lines, managed, scenes, i.value)
  }

  ghost predicate Runs(lines: seq<Line>, managed: map<Name, (nat, nat)>, scenes: seq<Scene>, n: nat) {
    var i := Orbit(lines, managed, scenes, n);
    i.Some? && i.value < |lines|
  }

  /** The loop has no end: it makes another step after any number of steps. */
  ghost predicate NeverEnds(lines: seq<Line>, managed: map<Name, (nat, nat)>, scenes: seq<Scene>) {
    forall n: nat :: Runs(lines, managed, scenes, n)
  }

  /** A loop that comes back to a line where it has been has no end. */
  lemma ReturnsForEver(lines: seq<Line>, managed: map<Name, (nat, nat)>, scenes: seq<Scene>, a: nat, b: nat)
    requires a < b && Orbit(lines, managed, scenes, a) == Orbit(lines, managed, scenes, b)
    requires forall m: nat :: m < b ==> Runs(lines, managed, scenes, m)
    ensures NeverEnds(lines, managed, scenes)
  {
    forall n: nat
      ensures Runs(lines, managed, scenes, n)
    {
      var m := SamePlace(lines, managed, scenes, a, b, n);
      assert Runs(lines, managed, scenes, m);
    }
  }

  lemma {:induction false} SamePlace(lines: seq<Line>, managed: map<Name, (nat, nat)>, scenes: seq<Scene>, a: nat, b: nat, n: nat) returns (m: nat)
    requires a < b && Orbit(lines, managed, scenes, a) == Orbit(lines, managed, scenes, b)
    ensures m < b && Orbit(lines, managed, scenes, m) == Orbit(lines, managed, scenes, n)
  {
    hide Next;
    if n < b {
      m := n;
    } else {
      m := SamePlace(lines, managed, scenes, a, b, n - 1);
      m := if m + 1 == b then a else m + 1;
    }
  }

  /** The lines where the loop has been. */
  ghost predicate Seen(lines: seq<Line>, managed: map<Name, (nat, nat)>, scenes: seq<Scene>, n: nat, seen: set<nat>) {
    && (forall i :: i in seen ==> i < |lines| && Visited(lines, managed, scenes, n, i))
    && (forall m: nat :: m < n ==> Runs(lines, managed, scenes, m))
  }

  ghost predicate Visited(lines: seq<Line>, managed: map<Name, (nat, nat)>, scenes: seq<Scene>, n: nat, i: nat) {
    exists m: nat :: m < n && Orbit(lines, managed, scenes, m) == Some(i)
  }

  lemma SeenNext(lines: seq<Line>, managed: map<Name, (nat, nat)>, scenes: seq<Scene>, n: nat, seen: set<nat>, index: nat)
    requires Seen(lines, managed, scenes, n, seen) && Orbit(lines, managed, scenes, n) == Some(index) && index < |lines|
    ensures Seen(lines, managed, scenes, n + 1, seen + {index})
    ensures Orbit(lines, managed, scenes, n + 1) == Next(lines, managed, scenes, index)
  {
    hide Next;
    forall i | i in seen + {index}
      ensures Visited(lines, managed, scenes, n + 1, i)
    {
      assert i in seen ==> Visited(lines, managed, scenes, n, i);
    }
  }

  lemma SeenAgain(lines: seq<Line>, managed: map<Name, (nat, nat)>, scenes: seq<Scene>, n: nat, seen: set<nat>, index: nat)
    requires Seen(lines, managed, scenes, n, seen) && Orbit(lines, managed, scenes, n) == Some(index) && index in seen
    ensures NeverEnds(lines, managed, scenes)
  {
    hide NeverEnds, Orbit, Runs;
    assert Visited(lines, managed, scenes, n, index);
    var m: nat :| m < n && Orbit(lines, managed, scenes, m) == Some(index);
    ReturnsForEver(lines, managed, scenes, m, n);
  }

  lemma Ended(lines: seq<Line>, managed: map<Name, (nat, nat)>, scenes: seq<Scene>, n: nat)
    requires !Runs(lines, managed, scenes, n)
    ensures !NeverEnds(lines, managed, scenes)
  {
  }

  lemma {:induction false} FewSeen(seen: set<nat>, n: nat)
    requires forall i :: i in seen ==> i < n
    ensures |seen| <= n
  {
    if n > 0 {
      FewSeen(seen - {n - 1}, n - 1);
    } else {
      assert seen == {};
    }
  }

  /** How far the loop has come: before the first marker inside another block, or after it. */
  ghost predicate Progress(segs: seq<Segment>, scenes: seq<Scene>, k: nat, o: nat, index: nat, result: seq<Line>, replaced: set<Name>,
                           seen: set<nat>, bad: Option<seq<Line>>) {
    if bad.None? then
      && At(segs, scenes, k, o, index, result) && UntangledTo(segs, scenes, k, o) && Met(segs[..k], scenes, replaced)
      && forall i :: i in seen ==> i < index
    else Spoils(bad.value) && bad.value <= result && !Untangled(segs, scenes)
  }

  /** One step at a selected marker. */
  lemma SelectedProgress(segs: seq<Segment>, scenes: seq<Scene>, k: nat, o: nat, index: nat, result: seq<Line>, replaced: set<Name>,
                         seen: set<nat>, bad: Option<seq<Line>>, name: Name)
    returns (k': nat, o': nat, bad': Option<seq<Line>>)
    requires Progress(segs, scenes, k, o, index, result, replaced, seen, bad) && index < |Flatten(segs)| && AllShaped(segs)
    requires NoDuplicates(BlockNames(segs))
    requires Selects(Flatten(segs)[index], scenes) && Flatten(segs)[index].marker.name == name
    ensures name !in RangeMap(segs) ==> !Untangled(segs, scenes)
    ensures SceneNamed(scenes, name).Some?
    ensures name in RangeMap(segs) ==>
      Progress(segs, scenes, k', o', RangeMap(segs)[name].1, result + Render(SceneNamed(scenes, name).value), replaced + {name},
               seen + {index}, bad')
  {
    hide Flatten, Render, BlockNames, RangeMap, AllShaped, At, Met, Untangled, UntangledTo, Spoils;
    k', o', bad' := k, o, bad;
    if bad.None? {
      if o == 0 {
        SelectedStep(segs, scenes, k, o, index, result, name);
        UntangledSelected(segs, scenes, k);
        MetNext(segs, scenes, k, replaced);
        k' := k + 1;
      } else {
        TangledStep(segs, scenes, k, o, index, result, name);
        bad' := Some(result + Render(SceneNamed(scenes, name).value));
      }
    }
  }

  /** One step at any other line. */
  lemma CopiedProgress(segs: seq<Segment>, scenes: seq<Scene>, k: nat, o: nat, index: nat, result: seq<Line>, replaced: set<Name>,
                       seen: set<nat>, bad: Option<seq<Line>>)
    returns (k': nat, o': nat)
    requires Progress(segs, scenes, k, o, index, result, replaced, seen, bad) && index < |Flatten(segs)| && AllShaped(segs)
    requires !Selects(Flatten(segs)[index], scenes)
    ensures Progress(segs, scenes, k', o', index + 1, result + [Flatten(segs)[index]], replaced, seen + {index}, bad)
  {
    hide Flatten, AllShaped, At, Met, Untangled, UntangledTo, Spoils;
    k', o' := k, o;
    if bad.None? {
      k', o' := CopiedStep(segs, scenes, k, o, index, result);
      UntangledStep(segs, scenes, k, o, index, result, k', o');
      if k' == k + 1 {
        MetNext(segs, scenes, k, replaced);
      }
    }
  }

  lemma UntangledStep(segs: seq<Segment>, scenes: seq<Scene>, k: nat, o: nat, index: nat, result: seq<Line>, k': nat, o': nat)
    requires At(segs, scenes, k, o, index, result) && index < |Flatten(segs)| && AllShaped(segs)
    requires UntangledTo(segs, scenes, k, o) && !Selects(Flatten(segs)[index], scenes)
    requires At(segs, scenes, k', o', index + 1, result + [Flatten(segs)[index]]) && (k' == k || k' == k + 1)
    ensures UntangledTo(segs, scenes, k', o')
  {
    hide Flatten, Replaced, Untangled, UntangledTo, Shaped;
    LineAt(segs, scenes, k, o, index, result);
    LinesOf(segs[k]);
    TakeNext(segs, scenes, k);
    if segs[k].Block? {
      UntangledCopied(segs, scenes, k, o);
    } else {
      UntangledSelected(segs, scenes, k);
    }
  }

  lemma ProgressBegins(segs: seq<Segment>, scenes: seq<Scene>)
    ensures Progress(segs, scenes, 0, 0, 0, [], {}, {}, None)
  {
    hide At, Met, UntangledTo;
    LoopBegins(segs, scenes);
    UntangledFrom(segs, scenes);
  }

  lemma ProgressEnds(segs: seq<Segment>, scenes: seq<Scene>, k: nat, o: nat, result: seq<Line>, replaced: set<Name>,
                     seen: set<nat>, bad: Option<seq<Line>>)
    requires Progress(segs, scenes, k, o, |Flatten(segs)|, result, replaced, seen, bad) && AllShaped(segs)
    ensures Untangled(segs, scenes) <==> bad.None?
    ensures bad.None? ==> result == Flatten(Replaced(segs, scenes)) && Met(segs, scenes, replaced)
    ensures bad.Some? ==> Spoils(bad.value) && bad.value <= result
  {
    hide Flatten, Replaced, AllShaped, Met, Untangled, UntangledTo, Spoils;
    if bad.None? {
      LoopEnds(segs, scenes, k, o, result, replaced);
      UntangledFrom(segs, scenes);
    }
  }

  lemma NotSeenBefore(segs: seq<Segment>, scenes: seq<Scene>, k: nat, o: nat, index: nat, result: seq<Line>, replaced: set<Name>,
                      seen: set<nat>, bad: Option<seq<Line>>)
    requires Progress(segs, scenes, k, o, index, result, replaced, seen, bad) && index in seen
    ensures !Untangled(segs, scenes)
  {
    hide At, UntangledTo, Met, Spoils, Untangled;
  }

  /**
   The rewriting loop. It looks at every line, also at those inside blocks, so a begin marker of a
   selected scene inside another block sends it to the end of that scene's own block, forwards or
   backwards. If there is none the name is unknown. The lines where it has been are noted, so as to
   tell a run without end: it is one that comes to a line for the second time.
   */
  method Rewrite(lines: seq<Line>, managed: map<Name, (nat, nat)>, scenes: seq<Scene>, ghost segs: seq<Segment>)
    returns (r: Rewriting, ghost bad: Option<seq<Line>>)
    requires lines == Flatten(segs) && managed == RangeMap(segs) && AllShaped(segs) && NoDuplicates(BlockNames(segs))
    ensures r.NoEnd? <==> NeverEnds(lines, managed, scenes)
    ensures Untangled(segs, scenes) ==> r.Rewritten? && r.lines == Flatten(Replaced(segs, scenes)) && Met(segs, scenes, r.replaced)
    ensures !Untangled(segs, scenes) && r.Rewritten? ==> bad.Some? && Spoils(bad.value) && bad.value <= r.lines
  {
    hide Flatten, RangeMap, BlockNames, Untangled, Progress, Render, AllShaped, Replaced, Spoils, Met, Orbit, NeverEnds, Seen, NoDuplicates;
    var result: seq<Line>, replaced: set<Name>, seen: set<nat> := [], {}, {};
    var index: nat := 0;
    ghost var k: nat, o: nat, n: nat := 0, 0, 0;
    bad := None;
    ProgressBegins(segs, scenes);
    NothingSeen(lines, managed, scenes);
    RangeMapKeys(segs);
    while index < |lines|
      invariant index <= |lines| && Progress(segs, scenes, k, o, index, result, replaced, seen, bad)
      invariant Seen(lines, managed, scenes, n, seen) && Orbit(lines, managed, scenes, n) == Some(index)
      invariant forall i :: i in seen ==> i < |lines|
      decreases |lines| - |seen|
    {
      if index in seen {
        SeenAgain(lines, managed, scenes, n, seen, index);
        NotSeenBefore(segs, scenes, k, o, index, result, replaced, seen, bad);
        return NoEnd, None;
      }
      SeenNext(lines, managed, scenes, n, seen, index);
      n := n + 1;
      if Selects(lines[index], scenes) {
        var name := lines[index].marker.name;
        ghost var k', o', bad' := SelectedProgress(segs, scenes, k, o, index, result, replaced, seen, bad, name);
        if name !in managed {
          Ended(lines, managed, scenes, n);
          return UnknownName, None;
        }
        result := result + Render(SceneNamed(scenes, name).value);
        replaced := replaced + {name};
        seen := seen + {index};
        index := managed[name].1;
        k, o, bad := k', o', bad';
      } else {
        k, o := CopiedProgress(segs, scenes, k, o, index, result, replaced, seen, bad);
        result := result + [lines[index]];
        seen := seen + {index};
        index := index + 1;
      }
      FewSeen(seen, |lines|);
    }
    ProgressEnds(segs, scenes, k, o, result, replaced, seen, bad);
    Ended(lines, managed, scenes, n);
    r := Rewritten(result, replaced);
  }

  lemma NothingSeen(lines: seq<Line>, managed: map<Name, (nat, nat)>, scenes: seq<Scene>)
    ensures Seen(lines, managed, scenes, 0, {}) && Orbit(lines, managed, scenes, 0) == Some(0)
  {
  }

  // ----- Missing scenes and the end of the list -----

  lemma {:induction false} TextLines(segs: seq<Segment>)
    requires AllShaped(segs)
    ensures HasText(segs) <==> exists l :: l in Flatten(segs) && l != BLANK
  {
    hide Flatten, Segment.Lines, Shaped;
    if segs == [] {
      FlattenNone();
    } else {
      var front, last := segs[..|segs| - 1], segs[|segs| - 1];
      FrontShaped(segs);
      TextLines(front);
      assert segs == front + [last];
      FlattenSnoc(front, last);
      assert forall l :: l in Flatten(segs) <==> l in Flatten(front) || l in last.Lines();
      SegmentText(last);
      HasTextSnoc(front, last);
      hide HasText;
    }
  }

  lemma FrontShaped(segs: seq<Segment>)
    requires segs != [] && AllShaped(segs)
    ensures AllShaped(segs[..|segs| - 1]) && Shaped(segs[|segs| - 1])
  {
  }

  lemma HasTextSnoc(front: seq<Segment>, last: Segment)
    ensures HasText(front + [last]) <==> HasText(front) || last != Manual(BLANK)
  {
    var all := front + [last];
    if HasText(front) {
      var i :| 0 <= i < |front| && front[i] != Manual(BLANK);
      assert all[i] != Manual(BLANK);
    }
    assert last != Manual(BLANK) ==> all[|front|] != Manual(BLANK);
  }

  lemma SegmentText(s: Segment)
    requires Shaped(s)
    ensures s != Manual(BLANK) <==> exists l :: l in s.Lines() && l != BLANK
  {
    if s.Block? {
      assert s.lines[0] in s.Lines() && s.lines[0] != BLANK;
    } else {
      assert s.line in s.Lines();
    }
  }

  lemma SelectedName(scenes: seq<Scene>, s: Scene)
    requires s in scenes
    ensures SceneNamed(scenes, s.name).Some?
  {
  }

  /** What the loop has left when no marker lies inside another block. */
  ghost predicate Tidy(lines: seq<Line>, scenes: seq<Scene>, replaced: set<Name>, segs: seq<Segment>) {
    lines == Flatten(Replaced(segs, scenes)) && Met(segs, scenes, replaced) && AllShaped(Replaced(segs, scenes))
  }

  /** The scenes whose blocks the loop did not meet. */
  method MissingScenes(lines: seq<Line>, scenes: seq<Scene>, replaced: set<Name>, ghost segs: seq<Segment>) returns (missing: seq<Scene>)
    ensures Tidy(lines, scenes, replaced, segs) ==> missing == Missing(scenes, BlockNames(segs))
  {
    hide Flatten, BlockNames, Replaced, AllShaped;
    missing := [];
    for i := 0 to |scenes|
      invariant Tidy(lines, scenes, replaced, segs) ==> missing == Missing(scenes[..i], BlockNames(segs))
    {
      assert scenes[..i + 1][..i] == scenes[..i];
      SelectedName(scenes, scenes[i]);
      if scenes[i].name !in replaced {
        missing := missing + [scenes[i]];
      }
    }
    assert scenes[..|scenes|] == scenes;
  }

  /** Adds their blocks, after a blank line if there is text before them. */
  method AddBlocks(lines: seq<Line>, missing: seq<Scene>, ghost segs: seq<Segment>) returns (result: seq<Line>)
    ensures lines == Flatten(segs) && AllShaped(segs) ==> result == Flatten(Appended(segs, missing))
    ensures lines <= result
  {
    hide Flatten, AllShaped, Render, HasText;
    ghost var known := lines == Flatten(segs) && AllShaped(segs);
    result := lines;
    if missing != [] {
      ghost var base := segs;
      if known {
        TextLines(segs);
      }
      if exists l :: l in result && l != BLANK {
        result := result + [BLANK];
        FlattenSnoc(base, Manual(BLANK));
        base := base + [Manual(BLANK)];
      }
      assert missing[..0] == [];
      assert base + Additions([]) == base;
      for i := 0 to |missing|
        invariant known ==> result == Flatten(base + Additions(missing[..i]))
        invariant lines <= result
      {
        AddedLines(base, missing, i);
        result := result + Render(missing[i]);
        result := result + [BLANK];
      }
      assert missing[..|missing|] == missing;
      assert known ==> base == segs + if HasText(segs) then [Manual(BLANK)] else [];
      assert known ==> Appended(segs, missing) == base + Additions(missing);
    }
  }

  lemma AddedLines(base: seq<Segment>, missing: seq<Scene>, i: nat)
    requires i < |missing|
    ensures Flatten(base + Additions(missing[..i + 1])) == Flatten(base + Additions(missing[..i])) + Render(missing[i]) + [BLANK]
  {
    hide Flatten, Render;
    var before := base + Additions(missing[..i]);
    assert missing[..i + 1][..i] == missing[..i];
    assert base + Additions(missing[..i + 1]) == before + [SceneBlock(missing[i])] + [Manual(BLANK)];
    FlattenSnoc(before, SceneBlock(missing[i]));
    FlattenSnoc(before + [SceneBlock(missing[i])], Manual(BLANK));
  }

  function TrimmedLines(lines: seq<Line>): seq<Line> {
    if lines != [] && lines[|lines| - 1] == BLANK then TrimmedLines(lines[..|lines| - 1]) else lines
  }

  /** Trimming keeps what ends in a line that is not blank. */
  lemma {:induction false} TrimKeeps(lines: seq<Line>, bad: seq<Line>)
    requires bad <= lines && bad != [] && bad[|bad| - 1] != BLANK
    ensures bad <= TrimmedLines(lines)
  {
    if lines != [] && lines[|lines| - 1] == BLANK {
      TrimKeeps(lines[..|lines| - 1], bad);
    }
  }

  lemma {:induction false} TrimFlatten(segs: seq<Segment>)
    requires AllShaped(segs)
    ensures TrimmedLines(Flatten(segs)) == Flatten(Trimmed(segs))
  {
    hide Flatten, Segment.Lines, Shaped;
    if segs == [] {
      FlattenNone();
    } else {
      var front, last := segs[..|segs| - 1], segs[|segs| - 1];
      assert segs == front + [last];
      FlattenSnoc(front, last);
      LinesOf(last);
      if last == Manual(BLANK) {
        TrimFlatten(front);
        assert Flatten(segs)[..|Flatten(segs)| - 1] == Flatten(front);
      } else {
        LastLine(last);
      }
    }
  }

  lemma LastLine(s: Segment)
    requires Shaped(s) && s != Manual(BLANK)
    ensures |s.Lines()| > 0 && s.Lines()[|s.Lines()| - 1] != BLANK
  {
  }

  method TrimEnd(lines: seq<Line>) returns (r: seq<Line>)
    ensures r == TrimmedLines(lines)
  {
    r := lines;
    while r != [] && r[|r| - 1] == BLANK
      invariant TrimmedLines(r) == TrimmedLines(lines)
      decreases |r|
    {
      r := r[..|r| - 1];
    }
  }

  // ----- Synchronization -----

  datatype Outcome = Updated(lines: seq<Line>) | Refused | Diverges

  /** No selected scene is owned by a line outside the blocks. */
  predicate NoManualOwner(scenes: seq<Scene>, manual: seq<Name>) {
    forall i :: 0 <= i < |scenes| ==> scenes[i].name !in manual
  }

  /** Rewrites the list for the selected scenes; the result is read again before it is accepted. */
  method SyncDirectedList(lines: seq<Line>, scenes: seq<Scene>) returns (outcome: Outcome)
    requires NoDuplicates(SceneNames(scenes)) && scenes != []
    ensures !Parses(lines) ==> outcome.Refused?
    ensures Parses(lines) ==>
              (outcome.Updated? <==> && Untangled(Split(lines).value, scenes) && NoManualOwner(scenes, ManualCases(Split(lines).value))
                                     && forall s :: s in scenes ==> Clean(s))
    ensures Parses(lines) ==>
              (outcome.Diverges? <==> && NeverEnds(lines, RangeMap(Split(lines).value), scenes)
                                      && NoManualOwner(scenes, ManualCases(Split(lines).value)))
    ensures outcome.Updated? ==> outcome.lines == Flatten(Synced(Split(lines).value, scenes)) && Parses(outcome.lines)
  {
    hide Parses, Split, Flatten, RangeMap, Untangled, Replaced, Missing, Appended, BlockNames, ManualCases, Clean, AllShaped, AllOwn,
      Unambiguous, Met, NeverEnds, Spoils, Synced;
    var ok, managed, manual := ParseCaseList(lines);
    if !ok {
      return Refused;
    }
    for i := 0 to |scenes|
      invariant forall k :: 0 <= k < i ==> scenes[k].name !in manual
    {
      if scenes[i].name in manual {
        return Refused;
      }
    }
    ParsedSegments(lines);
    ghost var segs := Split(lines).value;
    var rewriting, bad := Rewrite(lines, managed, scenes, segs);
    if rewriting.UnknownName? {
      return Refused;
    }
    if rewriting.NoEnd? {
      return Diverges;
    }
    var updated := NewList(rewriting.lines, scenes, rewriting.replaced, segs, bad);
    if Untangled(segs, scenes) {
      ReplacedShaped(segs, scenes);
      SelectableScenes(segs, scenes);
      SyncedParses(segs, scenes);
    } else {
      SpoiledRefused(bad.value, updated);
    }
    var again, _, _ := ParseCaseList(updated);
    if !again {
      return Refused;
    }
    outcome := Updated(updated);
  }

  lemma ParsedSegments(lines: seq<Line>)
    requires Parses(lines)
    ensures Split(lines).Some?
    ensures var segs := Split(lines).value;
      Flatten(segs) == lines && AllShaped(segs) && AllOwn(segs) && Unambiguous(segs) && NoDuplicates(BlockNames(segs))
  {
    SplitGives(lines);
    hide Split, Flatten, AllShaped, AllOwn;
  }

  lemma ReplacedShaped(segs: seq<Segment>, scenes: seq<Scene>)
    requires AllShaped(segs)
    ensures AllShaped(Replaced(segs, scenes))
  {
    hide Shaped, SceneBlock;
    forall i | 0 <= i < |segs|
      ensures Shaped(Replaced(segs, scenes)[i])
    {
      assert Shaped(segs[i]);
      ReplacedOnce(segs[i], scenes);
      if s :| s in scenes && ReplacedSegment(segs[i], scenes) == SceneBlock(s) {
        SceneShaped(s);
      }
    }
  }

  lemma SelectableScenes(segs: seq<Segment>, scenes: seq<Scene>)
    requires NoDuplicates(SceneNames(scenes)) && NoManualOwner(scenes, ManualCases(segs))
    ensures Selectable(segs, scenes)
  {
    hide ManualCases;
    forall n | n in SceneNames(scenes)
      ensures n !in ManualCases(segs)
    {
      var i :| 0 <= i < |scenes| && SceneNames(scenes)[i] == n;
      assert scenes[i].name == n;
    }
  }

  /** The lines of the new list. */
  method NewList(lines: seq<Line>, scenes: seq<Scene>, replaced: set<Name>, ghost segs: seq<Segment>, ghost bad: Option<seq<Line>>)
    returns (updated: seq<Line>)
    requires NoDuplicates(SceneNames(scenes)) && scenes != []
    ensures Tidy(lines, scenes, replaced, segs) ==> updated == Flatten(Synced(segs, scenes))
    ensures bad.Some? && Spoils(bad.value) && bad.value <= lines ==> bad.value <= updated
  {
    hide Spoils, Tidy, Flatten, Replaced, Missing, Appended, BlockNames, AllShaped, Trimmed, NoDuplicates;
    var missing := MissingScenes(lines, scenes, replaced, segs);
    var result := AddBlocks(lines, missing, Replaced(segs, scenes));
    updated := TrimEnd(result);
    if Tidy(lines, scenes, replaced, segs) {
      TidyFacts(lines, scenes, replaced, segs);
      AppendedShaped(Replaced(segs, scenes), missing);
      TrimFlatten(Appended(Replaced(segs, scenes), missing));
      SyncedNotEmpty(segs, scenes);
    }
    if bad.Some? && Spoils(bad.value) && bad.value <= lines {
      SpoilsEnd(bad.value);
      TrimKeeps(result, bad.value);
    }
    if updated == [] {
      updated := [BLANK];
    }
  }

  lemma TidyFacts(lines: seq<Line>, scenes: seq<Scene>, replaced: set<Name>, segs: seq<Segment>)
    requires Tidy(lines, scenes, replaced, segs)
    ensures lines == Flatten(Replaced(segs, scenes)) && AllShaped(Replaced(segs, scenes))
  {
  }

  lemma AppendedShaped(segs: seq<Segment>, missing: seq<Scene>)
    requires AllShaped(segs)
    ensures AllShaped(Appended(segs, missing))
  {
    hide Shaped, SceneBlock, Additions, HasText;
    AdditionsMembers(missing);
    var all := Appended(segs, missing);
    forall i | 0 <= i < |all|
      ensures Shaped(all[i])
    {
      MembersShaped(segs);
      BlankShaped();
      assert all[i] in segs || all[i] == Manual(BLANK) || all[i] in Additions(missing);
      if s :| s in missing && all[i] == SceneBlock(s) {
        SceneShaped(s);
      }
    }
  }

  lemma SyncedNotEmpty(segs: seq<Segment>, scenes: seq<Scene>)
    requires NoDuplicates(SceneNames(scenes)) && scenes != []
    ensures Flatten(Synced(segs, scenes)) != []
  {
    hide Synced, Flatten, NoDuplicates, Segment.Lines, Shaped;
    var s := scenes[0];
    SceneHasBlock(segs, scenes, s);
    var t := Synced(segs, scenes);
    var i :| 0 <= i < |t| && t[i] == SceneBlock(s);
    assert t == t[..i] + [t[i]] + t[i + 1..];
    FlattenSnoc(t[..i], t[i]);
    FlattenAppend(t[..i] + [t[i]], t[i + 1..]);
    SceneShaped(s);
    SomeLines(t[i]);
  }

  // ----- Whole runs -----

  lemma SyncedUntangled(segs: seq<Segment>, scenes: seq<Scene>)
    requires NoDuplicates(SceneNames(scenes)) && Untangled(segs, scenes)
    ensures Untangled(Synced(segs, scenes), scenes)
  {
    hide Synced, UntangledBlock, NoDuplicates, Render;
    var t := Synced(segs, scenes);
    forall k | 0 <= k < |t| && t[k].Block? && SceneNamed(scenes, t[k].name).None?
      ensures UntangledBlock(t[k].lines, scenes)
    {
      SyncedMembers(segs, scenes, t[k]);
      if t[k] in segs {
        var i :| 0 <= i < |segs| && segs[i] == t[k];
        assert UntangledBlock(segs[i].lines, scenes);
      }
    }
  }

  /** The new list meets what the old one met, and a second synchronization leaves it as it is. */
  lemma SyncedTwice(lines: seq<Line>, scenes: seq<Scene>)
    requires Parses(lines) && Untangled(Split(lines).value, scenes) && NoDuplicates(SceneNames(scenes))
    requires NoManualOwner(scenes, ManualCases(Split(lines).value)) && forall s :: s in scenes ==> Clean(s)
    ensures var t := Synced(Split(lines).value, scenes); var updated := Flatten(t);
      && Parses(updated) && Split(updated) == Some(t) && Untangled(t, scenes)
      && NoManualOwner(scenes, ManualCases(t)) && Flatten(Synced(t, scenes)) == updated
  {
    hide Parses, Split, Flatten, Synced, Untangled, ManualCases, Clean, AllShaped, AllOwn, Unambiguous, BlockNames;
    ParsedSegments(lines);
    var segs := Split(lines).value;
    SelectableScenes(segs, scenes);
    SyncedParses(segs, scenes);
    SyncedUntangled(segs, scenes);
    SyncedNames(segs, scenes);
    SyncedAgain(segs, scenes);
  }

  /** A list that is accepted, although a marker lies inside another block. */
  function Tangle(): seq<Segment> {
    [Block("b", [Line(Begin("b"), None, "1"), Line(Plain, Some("b"), "2"), Line(End("b"), None, "3")]),
     Block("a", [Line(Begin("a"), None, "4"), Line(Begin("b"), None, "5"), Line(Plain, Some("a"), "6"), Line(End("a"), None, "7")])]
  }

  /** On it the loop goes from line 3 to line 4 and back for ever, unless the outer block is selected too. */
  lemma TangledLoop(scenes: seq<Scene>)
    requires SceneNamed(scenes, "b").Some?
    ensures var lines := Flatten(Tangle());
      && Parses(lines) && (NeverEnds(lines, RangeMap(Split(lines).value), scenes) <==> SceneNamed(scenes, "a").None?)
  {
    TangleRead();
    var lines := Flatten(Tangle());
    var managed := RangeMap(Tangle());
    hide Flatten, Split, RangeMap, Parses, SceneNamed;
    TangleSteps(lines, managed, scenes);
    if SceneNamed(scenes, "a").None? {
      FirstSteps(lines, managed, scenes);
      ReturnsForEver(lines, managed, scenes, 1, 3);
    } else {
      TwoSteps(lines, managed, scenes);
    }
  }

  lemma TangleSteps(lines: seq<Line>, managed: map<Name, (nat, nat)>, scenes: seq<Scene>)
    requires SceneNamed(scenes, "b").Some? && lines == Tangle()[0].lines + Tangle()[1].lines
    requires "b" in managed && managed["b"].1 == 3 && "a" in managed && managed["a"].1 == 7
    ensures Next(lines, managed, scenes, 0) == Some(3) && Next(lines, managed, scenes, 4) == Some(3)
    ensures Next(lines, managed, scenes, 3) == if SceneNamed(scenes, "a").None? then Some(4) else Some(7)
  {
    hide SceneNamed;
  }

  lemma FirstSteps(lines: seq<Line>, managed: map<Name, (nat, nat)>, scenes: seq<Scene>)
    requires |lines| == 7 && Next(lines, managed, scenes, 0) == Some(3) && Next(lines, managed, scenes, 3) == Some(4)
    requires Next(lines, managed, scenes, 4) == Some(3)
    ensures Orbit(lines, managed, scenes, 1) == Some(3) && Orbit(lines, managed, scenes, 3) == Some(3)
    ensures forall m: nat :: m < 3 ==> Runs(lines, managed, scenes, m)
  {
    hide Next;
    assert Orbit(lines, managed, scenes, 0) == Some(0);
    assert Orbit(lines, managed, scenes, 1) == Some(3);
    assert Orbit(lines, managed, scenes, 2) == Some(4);
  }

  lemma TwoSteps(lines: seq<Line>, managed: map<Name, (nat, nat)>, scenes: seq<Scene>)
    requires |lines| == 7 && Next(lines, managed, scenes, 0) == Some(3) && Next(lines, managed, scenes, 3) == Some(7)
    ensures !NeverEnds(lines, managed, scenes)
  {
    hide Next;
    assert Orbit(lines, managed, scenes, 1) == Some(3);
    assert !Runs(lines, managed, scenes, 2);
  }

  lemma TangleRead()
    ensures var lines := Flatten(Tangle()); var managed := RangeMap(Tangle());
      && Parses(lines) && Split(lines) == Some(Tangle()) && lines == Tangle()[0].lines + Tangle()[1].lines
      && "b" in managed && managed["b"].1 == 3 && "a" in managed && managed["a"].1 == 7
  {
    var first, second := Tangle()[0], Tangle()[1];
    assert Tangle() == [] + [first] + [second];
    assert Tangle()[..0] == [] && Tangle()[..1] == [first] && Tangle()[..2] == Tangle();
    hide Flatten, BlockNames, ManualCases, Split, RangeMap, Cases, AllShaped, AllOwn;
    FlattenNone();
    FlattenSnoc([], first);
    FlattenSnoc([first], second);
    assert [] + [first] == [first];
    NoNames();
    BlockNamesSnoc([], first);
    BlockNamesSnoc([first], second);
    assert NoDuplicates(BlockNames(Tangle()));
    TangleOwn();
    SplitFlatten(Tangle());
    RangeMapAt(Tangle(), 0);
    RangeMapAt(Tangle(), 1);
  }

  lemma TangleOwn()
    ensures AllShaped(Tangle()) && AllOwn(Tangle())
  {
    ThreeCases(Tangle()[0].lines);
    var l := Tangle()[1].lines;
    ThreeCases(l[..3]);
    CasesTake(l, 3);
    assert l[..4] == l;
  }

  lemma ThreeCases(lines: seq<Line>)
    requires |lines| == 3
    ensures Cases(lines) == OptionSeq(lines[0].caseName) + OptionSeq(lines[1].caseName) + OptionSeq(lines[2].caseName)
  {
    CasesTake(lines, 0);
    CasesTake(lines, 1);
    CasesTake(lines, 2);
    assert lines[..3] == lines;
  }
}
