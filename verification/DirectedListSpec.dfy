/** A case list as lines and as segments, and what a synchronization makes of it. */
module DirectedListSpec {
  import opened Options

  type Name = string

  datatype Marker = Plain | Begin(name: Name) | End(name: Name)

  /** A line without its trailing white space: its marker, the case name that is found in it, and its text. */
  datatype Line = Line(marker: Marker, caseName: Option<Name>, text: string)

  const BLANK: Line := Line(Plain, None, "")

  /** A line outside the managed blocks, or a managed block. */
  datatype Segment = Manual(line: Line) | Block(name: Name, lines: seq<Line>) {
    function Lines(): seq<Line> {
      if Manual? then [line] else lines
    }
  }

  // ----- Reading a list -----

  /** The first end marker from an index on. */
  function FindEnd(lines: seq<Line>, i: nat): (r: nat)
    requires i <= |lines|
    ensures i <= r <= |lines|
    ensures r < |lines| ==> lines[r].marker.End?
    ensures forall k :: i <= k < r ==> !lines[k].marker.End?
    decreases |lines| - i
  {
    if i == |lines| || lines[i].marker.End? then i else FindEnd(lines, i + 1)
  }

  /** The case names that are found in some lines. */
  function Cases(lines: seq<Line>): seq<Name> {
    if lines == [] then []
    else Cases(lines[..|lines| - 1]) + if lines[|lines| - 1].caseName.Some? then [lines[|lines| - 1].caseName.value] else []
  }

  /** The number of lines of the first segment. */
  function FirstLength(lines: seq<Line>): (n: nat)
    requires lines != []
    ensures n >= 1
  {
    if lines[0].marker.Begin? then FindEnd(lines, 1) + 1 else 1
  }

  function FirstSegment(lines: seq<Line>): Segment
    requires lines != []
  {
    if lines[0].marker.Begin? then Block(lines[0].marker.name, Taken(lines, FirstLength(lines))) else Manual(lines[0])
  }

  function Taken(lines: seq<Line>, n: nat): seq<Line> {
    if n <= |lines| then lines[..n] else lines
  }

  /** A list that begins with a managed block: it is terminated, closed by its own marker and holds its own case only. */
  predicate GoodBlock(lines: seq<Line>)
    requires lines != [] && lines[0].marker.Begin?
  {
    var end := FindEnd(lines, 1);
    end < |lines| && lines[end].marker.name == lines[0].marker.name && Cases(lines[..end + 1]) == [lines[0].marker.name]
  }

  /** The segments of a list, if every managed block is good. */
  function Split(lines: seq<Line>): Option<seq<Segment>>
    decreases |lines|
  {
    if lines == [] then Some([])
    else if lines[0].marker.Begin? && !GoodBlock(lines) then None
    else if FirstLength(lines) > |lines| then None
    else Prepended(FirstSegment(lines), Split(lines[FirstLength(lines)..]))
  }

  function Prepended(s: Segment, rest: Option<seq<Segment>>): Option<seq<Segment>> {
    if rest.None? then None else Some([s] + rest.value)
  }

  function BlockNames(segs: seq<Segment>): seq<Name> {
    if segs == [] then []
    else BlockNames(segs[..|segs| - 1]) + if segs[|segs| - 1].Block? then [segs[|segs| - 1].name] else []
  }

  function ManualCases(segs: seq<Segment>): seq<Name> {
    if segs == [] then []
    else
      var last := segs[|segs| - 1];
      ManualCases(segs[..|segs| - 1]) + if last.Manual? && last.line.caseName.Some? then [last.line.caseName.value] else []
  }

  predicate NoDuplicates(names: seq<Name>) {
    forall i, j :: 0 <= i < j < |names| ==> names[i] != names[j]
  }

  predicate NoCommon(a: seq<Name>, b: seq<Name>) {
    forall n :: n in a ==> n !in b
  }

  /** No block and no case name appears twice. */
  predicate Unambiguous(segs: seq<Segment>) {
    NoDuplicates(BlockNames(segs)) && NoDuplicates(ManualCases(segs)) && NoCommon(BlockNames(segs), ManualCases(segs))
  }

  /** A list that is accepted. */
  predicate Parses(lines: seq<Line>) {
    Split(lines).Some? && Unambiguous(Split(lines).value)
  }

  function Flatten(segs: seq<Segment>): seq<Line> {
    if segs == [] then [] else Flatten(segs[..|segs| - 1]) + segs[|segs| - 1].Lines()
  }

  // ----- Segments and lines -----

  /** The markers of a segment are where they must be. */
  predicate Shaped(s: Segment) {
    match s
    case Manual(line) => !line.marker.Begin?
    case Block(name, lines) =>
      && |lines| >= 2 && lines[0].marker == Begin(name) && lines[|lines| - 1].marker == End(name)
      && forall i :: 0 < i < |lines| - 1 ==> !lines[i].marker.End?
  }

  /** A block holds its own case only. */
  predicate OwnCase(s: Segment) {
    s.Block? ==> Cases(s.lines) == [s.name]
  }

  predicate AllShaped(segs: seq<Segment>) {
    forall i :: 0 <= i < |segs| ==> Shaped(segs[i])
  }

  predicate AllOwn(segs: seq<Segment>) {
    forall i :: 0 <= i < |segs| ==> OwnCase(segs[i])
  }

  lemma FlattenSnoc(segs: seq<Segment>, s: Segment)
    ensures Flatten(segs + [s]) == Flatten(segs) + s.Lines()
  {
    assert (segs + [s])[..|segs|] == segs;
  }

  lemma FlattenNone()
    ensures Flatten([]) == []
  {
  }

  lemma {:induction false} FlattenAppend(a: seq<Segment>, b: seq<Segment>)
    ensures Flatten(a + b) == Flatten(a) + Flatten(b)
  {
    hide Flatten, Segment.Lines;
    if b == [] {
      FlattenNone();
      assert a + b == a;
    } else {
      var front, last := b[..|b| - 1], b[|b| - 1];
      FlattenAppend(a, front);
      FlattenSnoc(front, last);
      FlattenSnoc(a + front, last);
      assert b == front + [last] && a + b == a + front + [last];
    }
  }

  lemma FlattenCons(s: Segment, segs: seq<Segment>)
    ensures Flatten([s] + segs) == s.Lines() + Flatten(segs)
  {
    FlattenAppend([s], segs);
    FlattenSnoc([], s);
    FlattenNone();
    assert [] + [s] == [s];
  }

  /** The segments of a list are shaped, hold their own cases, and give the list back. */
  lemma {:induction false} SplitGives(lines: seq<Line>)
    requires Split(lines).Some?
    ensures var segs := Split(lines).value; Flatten(segs) == lines && AllShaped(segs) && AllOwn(segs)
    decreases |lines|
  {
    hide Split, Flatten, Segment.Lines, FindEnd, GoodBlock, FirstLength, FirstSegment, Shaped, OwnCase, AllShaped, AllOwn;
    if lines != [] {
      var n := FirstLength(lines);
      var first := FirstSegment(lines);
      SplitStep(lines);
      FirstSegmentOk(lines);
      SplitGives(lines[n..]);
      var rest := Split(lines[n..]).value;
      FlattenCons(first, rest);
      AllOwnCons(first, rest);
      AllShapedCons(first, rest);
      assert first.Lines() + lines[n..] == lines;
    } else {
      FlattenNone();
      NothingShaped();
      SplitNothing();
    }
  }

  lemma SplitNothing()
    ensures Split([]) == Some([])
  {
  }

  lemma NothingShaped()
    ensures AllShaped([]) && AllOwn([])
  {
  }

  lemma SplitStep(lines: seq<Line>)
    requires lines != [] && Split(lines).Some?
    ensures FirstLength(lines) <= |lines| && Split(lines[FirstLength(lines)..]).Some?
    ensures Split(lines).value == [FirstSegment(lines)] + Split(lines[FirstLength(lines)..]).value
    ensures lines[0].marker.Begin? ==> GoodBlock(lines)
  {
    hide FirstLength, FirstSegment, GoodBlock;
  }

  lemma FirstSegmentOk(lines: seq<Line>)
    requires lines != [] && (lines[0].marker.Begin? ==> GoodBlock(lines))
    ensures Shaped(FirstSegment(lines)) && OwnCase(FirstSegment(lines))
    ensures FirstLength(lines) <= |lines| && FirstSegment(lines).Lines() == lines[..FirstLength(lines)]
  {
    hide Cases;
  }

  lemma FindEndIs(lines: seq<Line>, i: nat, end: nat)
    requires i <= end < |lines| && lines[end].marker.End? && forall k :: i <= k < end ==> !lines[k].marker.End?
    ensures FindEnd(lines, i) == end
  {
  }

  /** Reading the lines of shaped segments gives those segments, unless one of them holds other cases. */
  lemma {:induction false} SplitFlatten(segs: seq<Segment>)
    requires AllShaped(segs)
    ensures Split(Flatten(segs)) == if AllOwn(segs) then Some(segs) else None
  {
    if segs != [] {
      var first, rest := segs[0], segs[1..];
      assert segs == [first] + rest;
      FlattenCons(first, rest);
      SplitFlatten(rest);
      SplitFirst(first, Flatten(rest));
      assert AllOwn(segs) <==> OwnCase(first) && AllOwn(rest) by { AllOwnCons(first, rest); }
    }
  }

  lemma AllShapedCons(first: Segment, rest: seq<Segment>)
    ensures AllShaped([first] + rest) <==> Shaped(first) && AllShaped(rest)
  {
    hide Shaped;
    var all := [first] + rest;
    if AllShaped(all) {
      assert Shaped(all[0]);
      assert forall i :: 0 <= i < |rest| ==> rest[i] == all[i + 1];
    }
  }

  lemma AllOwnCons(first: Segment, rest: seq<Segment>)
    ensures AllOwn([first] + rest) <==> OwnCase(first) && AllOwn(rest)
  {
    hide OwnCase;
    var all := [first] + rest;
    if AllOwn(all) {
      assert OwnCase(all[0]);
      assert forall i :: 0 <= i < |rest| ==> rest[i] == all[i + 1];
    }
  }

  lemma SplitFirst(first: Segment, rest: seq<Line>)
    requires Shaped(first)
    ensures Split(first.Lines() + rest) == if OwnCase(first) then Prepended(first, Split(rest)) else None
  {
    var lines := first.Lines() + rest;
    hide Cases;
    if first.Block? {
      var end := |first.lines| - 1;
      assert forall k :: 1 <= k < end ==> lines[k] == first.lines[k];
      FindEndIs(lines, 1, end);
      assert lines[..end + 1] == first.lines;
      assert lines[end + 1..] == rest;
    } else {
      assert lines[1..] == rest;
    }
  }

  // ----- Scenes -----

  /** A selected scene; the options are the case names that are found in its path, its plusargs and its arguments. */
  datatype Scene = Scene(name: Name, id: string, path: string, pathCase: Option<Name>, plusargs: string, plusargsCase: Option<Name>,
                         args: string, argsCase: Option<Name>)

  /** The managed block of a scene. */
  function Render(s: Scene): seq<Line> {
    [Line(Begin(s.name), None, "# PRE_SIM_SCENE_BEGIN " + s.name),
     Line(Plain, None, "# scene_id: " + s.id),
     Line(Plain, s.pathCase, "# seq_file: directed/" + s.path),
     Line(Plain, s.plusargsCase, "# supported_plusargs: " + s.plusargs),
     Line(Plain, Some(s.name), "- case_name      = " + s.name),
     Line(Plain, None, "  uvm_tc         = directed_inst_test"),
     Line(Plain, s.argsCase, "  vcs_tb_args    = " + s.args),
     Line(Plain, None, "  batch_times    = 1"),
     Line(End(s.name), None, "# PRE_SIM_SCENE_END " + s.name)]
  }

  /** What follows the head of a line. */
  function TextAfter(line: Line, head: string): Option<string> {
    if head <= line.text then Some(line.text[|head|..]) else None
  }

  /** The texts of a scene can be read back from its block, each at its own line. */
  lemma RenderedTexts(s: Scene)
    ensures var block := Render(s);
      && |block| == 9
      && TextAfter(block[0], "# PRE_SIM_SCENE_BEGIN ") == TextAfter(block[8], "# PRE_SIM_SCENE_END ") == Some(s.name)
      && TextAfter(block[1], "# scene_id: ") == Some(s.id)
      && TextAfter(block[2], "# seq_file: directed/") == Some(s.path)
      && TextAfter(block[3], "# supported_plusargs: ") == Some(s.plusargs)
      && TextAfter(block[4], "- case_name      = ") == Some(s.name)
      && block[5].text == "  uvm_tc         = directed_inst_test" && block[7].text == "  batch_times    = 1"
      && TextAfter(block[6], "  vcs_tb_args    = ") == Some(s.args)
  {
  }

  /** So different scenes have different blocks. */
  lemma RenderInjective(s: Scene, t: Scene)
    requires Render(s) == Render(t)
    ensures s == t
  {
    RenderedTexts(s);
    RenderedTexts(t);
    assert Render(s)[2].caseName == s.pathCase && Render(t)[2].caseName == t.pathCase;
  }

  /** No case name is found in the block but that of the scene. */
  predicate Clean(s: Scene) {
    s.pathCase.None? && s.plusargsCase.None? && s.argsCase.None?
  }

  function OptionSeq(o: Option<Name>): seq<Name> {
    if o.Some? then [o.value] else []
  }

  lemma RenderedBlock(s: Scene)
    ensures Shaped(Block(s.name, Render(s)))
    ensures OwnCase(Block(s.name, Render(s))) <==> Clean(s)
  {
    RenderedCases(s);
    hide Cases;
  }

  lemma RenderedCases(s: Scene)
    ensures Cases(Render(s)) == OptionSeq(s.pathCase) + OptionSeq(s.plusargsCase) + [s.name] + OptionSeq(s.argsCase)
  {
    hide Cases;
    var l := Render(s);
    var head, tail := l[..4], l[4..];
    FourCases(head, None, None, s.pathCase, s.plusargsCase);
    FourCases(tail[..4], Some(s.name), None, s.argsCase, None);
    CasesTake(tail, 4);
    assert tail[..5] == tail && head + tail == l;
    assert tail[4].caseName == None;
    hide Render;
    CasesAppend(head, tail);
  }

  lemma FourCases(l: seq<Line>, c0: Option<Name>, c1: Option<Name>, c2: Option<Name>, c3: Option<Name>)
    requires |l| == 4 && l[0].caseName == c0 && l[1].caseName == c1 && l[2].caseName == c2 && l[3].caseName == c3
    ensures Cases(l) == OptionSeq(c0) + OptionSeq(c1) + OptionSeq(c2) + OptionSeq(c3)
  {
    hide Cases, OptionSeq;
    CasesTake(l, 0);
    CasesTake(l, 1);
    CasesTake(l, 2);
    CasesTake(l, 3);
    assert l[..4] == l;
  }

  lemma {:induction false} CasesAppend(a: seq<Line>, b: seq<Line>)
    ensures Cases(a + b) == Cases(a) + Cases(b)
  {
    if b == [] {
      assert a + b == a;
    } else {
      CasesAppend(a, b[..|b| - 1]);
      assert (a + b)[..|a + b| - 1] == a + b[..|b| - 1];
    }
  }

  lemma CasesTake(lines: seq<Line>, i: nat)
    requires i < |lines|
    ensures Cases(lines[..i + 1]) == Cases(lines[..i]) + OptionSeq(lines[i].caseName)
    ensures i == 0 ==> Cases(lines[..i]) == []
  {
    assert lines[..i + 1][..i] == lines[..i];
  }
}
