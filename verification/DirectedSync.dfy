/** What a synchronization does to the segments of a case list. */
module DirectedSync {
  import opened Options
  import opened DirectedListSpec

  // ----- The new segments -----

  /** The scene of a name among those selected. */
  function SceneNamed(scenes: seq<Scene>, name: Name): (r: Option<Scene>)
    ensures r.Some? ==> r.value in scenes && r.value.name == name
    ensures r.None? ==> forall s :: s in scenes ==> s.name != name
  {
    if scenes == [] then None
    else if scenes[|scenes| - 1].name == name then Some(scenes[|scenes| - 1])
    else SceneNamed(scenes[..|scenes| - 1], name)
  }

  function SceneBlock(s: Scene): Segment {
    Block(s.name, Render(s))
  }

  /** The block of a selected scene is rendered anew; other segments stay. */
  function ReplacedSegment(s: Segment, scenes: seq<Scene>): Segment {
    if s.Block? && SceneNamed(scenes, s.name).Some? then SceneBlock(SceneNamed(scenes, s.name).value) else s
  }

  function Replaced(segs: seq<Segment>, scenes: seq<Scene>): (r: seq<Segment>)
    ensures |r| == |segs|
  {
    seq(|segs|, i requires 0 <= i < |segs| => ReplacedSegment(segs[i], scenes))
  }

  /** The selected scenes that have no block yet. */
  function Missing(scenes: seq<Scene>, names: seq<Name>): seq<Scene> {
    if scenes == [] then []
    else Missing(scenes[..|scenes| - 1], names) + if scenes[|scenes| - 1].name in names then [] else [scenes[|scenes| - 1]]
  }

  function Additions(missing: seq<Scene>): seq<Segment> {
    if missing == [] then [] else Additions(missing[..|missing| - 1]) + [SceneBlock(missing[|missing| - 1]), Manual(BLANK)]
  }

  predicate HasText(segs: seq<Segment>) {
    exists i :: 0 <= i < |segs| && segs[i] != Manual(BLANK)
  }

  /** The new blocks go to the end, after a blank line if there is text before them. */
  function Appended(segs: seq<Segment>, missing: seq<Scene>): seq<Segment> {
    if missing == [] then segs
    else segs + (if HasText(segs) then [Manual(BLANK)] else []) + Additions(missing)
  }

  /** Without the blank lines at the end. */
  function Trimmed(segs: seq<Segment>): seq<Segment> {
    if segs != [] && segs[|segs| - 1] == Manual(BLANK) then Trimmed(segs[..|segs| - 1]) else segs
  }

  function Synced(segs: seq<Segment>, scenes: seq<Scene>): seq<Segment> {
    Trimmed(Appended(Replaced(segs, scenes), Missing(scenes, BlockNames(segs))))
  }

  function SceneNames(scenes: seq<Scene>): (r: seq<Name>)
    ensures |r| == |scenes| && forall i :: 0 <= i < |scenes| ==> r[i] == scenes[i].name
  {
    seq(|scenes|, i requires 0 <= i < |scenes| => scenes[i].name)
  }

  /** What the selection and the first checks ensure. */
  predicate Selectable(segs: seq<Segment>, scenes: seq<Scene>) {
    NoDuplicates(SceneNames(scenes)) && NoCommon(SceneNames(scenes), ManualCases(segs))
  }

  // ----- Names -----

  lemma BlockNamesSnoc(segs: seq<Segment>, s: Segment)
    ensures BlockNames(segs + [s]) == BlockNames(segs) + if s.Block? then [s.name] else []
    ensures ManualCases(segs + [s]) == ManualCases(segs) + if s.Manual? && s.line.caseName.Some? then [s.line.caseName.value] else []
  {
    assert (segs + [s])[..|segs|] == segs;
  }

  lemma {:induction false} NamesAppend(a: seq<Segment>, b: seq<Segment>)
    ensures BlockNames(a + b) == BlockNames(a) + BlockNames(b) && ManualCases(a + b) == ManualCases(a) + ManualCases(b)
  {
    hide BlockNames, ManualCases;
    if b == [] {
      assert a + b == a;
      NoNames();
    } else {
      var front, last := b[..|b| - 1], b[|b| - 1];
      NamesAppend(a, front);
      BlockNamesSnoc(front, last);
      BlockNamesSnoc(a + front, last);
      assert b == front + [last] && a + b == a + front + [last];
    }
  }

  lemma NoNames()
    ensures BlockNames([]) == [] && ManualCases([]) == []
  {
  }

  lemma {:induction false} ReplacedNames(segs: seq<Segment>, scenes: seq<Scene>)
    ensures BlockNames(Replaced(segs, scenes)) == BlockNames(segs) && ManualCases(Replaced(segs, scenes)) == ManualCases(segs)
  {
    hide BlockNames, ManualCases;
    if segs == [] {
      assert Replaced(segs, scenes) == [];
    } else {
      var front, last := segs[..|segs| - 1], segs[|segs| - 1];
      ReplacedNames(front, scenes);
      BlockNamesSnoc(front, last);
      BlockNamesSnoc(Replaced(front, scenes), ReplacedSegment(last, scenes));
      assert segs == front + [last];
      assert Replaced(segs, scenes) == Replaced(front, scenes) + [ReplacedSegment(last, scenes)];
    }
  }

  lemma {:induction false} AdditionsNames(missing: seq<Scene>)
    ensures BlockNames(Additions(missing)) == SceneNames(missing) && ManualCases(Additions(missing)) == []
  {
    hide BlockNames, ManualCases;
    if missing == [] {
      NoNames();
    } else {
      var front, last := missing[..|missing| - 1], missing[|missing| - 1];
      AdditionsNames(front);
      var a := Additions(front);
      BlockNamesSnoc(a, SceneBlock(last));
      BlockNamesSnoc(a + [SceneBlock(last)], Manual(BLANK));
      assert Additions(missing) == a + [SceneBlock(last)] + [Manual(BLANK)];
      assert SceneNames(missing) == SceneNames(front) + [last.name];
    }
  }

  lemma {:induction false} TrimmedNames(segs: seq<Segment>)
    ensures BlockNames(Trimmed(segs)) == BlockNames(segs) && ManualCases(Trimmed(segs)) == ManualCases(segs)
  {
    hide BlockNames, ManualCases;
    if segs != [] && segs[|segs| - 1] == Manual(BLANK) {
      TrimmedNames(segs[..|segs| - 1]);
      BlockNamesSnoc(segs[..|segs| - 1], Manual(BLANK));
      assert segs == segs[..|segs| - 1] + [Manual(BLANK)];
    }
  }

  /** The blocks keep their order and new ones follow; the cases outside blocks are the same. */
  lemma SyncedNames(segs: seq<Segment>, scenes: seq<Scene>)
    ensures BlockNames(Synced(segs, scenes)) == BlockNames(segs) + SceneNames(Missing(scenes, BlockNames(segs)))
    ensures ManualCases(Synced(segs, scenes)) == ManualCases(segs)
  {
    hide BlockNames, ManualCases, Trimmed, HasText, Missing, Additions;
    var missing := Missing(scenes, BlockNames(segs));
    var replaced := Replaced(segs, scenes);
    ReplacedNames(segs, scenes);
    TrimmedNames(Appended(replaced, missing));
    if missing == [] {
      assert SceneNames(missing) == [];
    } else {
      var blank := if HasText(replaced) then [Manual(BLANK)] else [];
      BlankNames(blank);
      NamesAppend(replaced, blank);
      NamesAppend(replaced + blank, Additions(missing));
      AdditionsNames(missing);
    }
  }

  lemma BlankNames(blank: seq<Segment>)
    requires blank == [] || blank == [Manual(BLANK)]
    ensures BlockNames(blank) == [] && ManualCases(blank) == []
  {
    NoNames();
    BlockNamesSnoc([], Manual(BLANK));
    assert [] + [Manual(BLANK)] == [Manual(BLANK)];
  }

  lemma {:induction false} MissingMembers(scenes: seq<Scene>, names: seq<Name>)
    ensures forall s :: s in Missing(scenes, names) <==> s in scenes && s.name !in names
  {
    if scenes != [] {
      MissingMembers(scenes[..|scenes| - 1], names);
      assert scenes == scenes[..|scenes| - 1] + [scenes[|scenes| - 1]];
    }
  }

  lemma {:induction false} MissingNames(scenes: seq<Scene>, names: seq<Name>)
    requires NoDuplicates(SceneNames(scenes))
    ensures NoDuplicates(SceneNames(Missing(scenes, names)))
    ensures forall s :: s in Missing(scenes, names) <==> s in scenes && s.name !in names
  {
    MissingMembers(scenes, names);
    if scenes != [] {
      var front, last := scenes[..|scenes| - 1], scenes[|scenes| - 1];
      assert SceneNames(front) == SceneNames(scenes)[..|front|];
      MissingNames(front, names);
      LastNameNew(scenes);
      DistinctSnoc(Missing(front, names), front, last);
    }
  }

  lemma LastNameNew(scenes: seq<Scene>)
    requires scenes != [] && NoDuplicates(SceneNames(scenes))
    ensures forall s :: s in scenes[..|scenes| - 1] ==> s.name != scenes[|scenes| - 1].name
  {
    forall s | s in scenes[..|scenes| - 1]
      ensures s.name != scenes[|scenes| - 1].name
    {
      var k :| 0 <= k < |scenes| - 1 && scenes[k] == s;
      assert SceneNames(scenes)[k] != SceneNames(scenes)[|scenes| - 1];
    }
  }

  lemma DistinctSnoc(m: seq<Scene>, front: seq<Scene>, last: Scene)
    requires NoDuplicates(SceneNames(m)) && forall s :: s in m ==> s in front
    requires forall s :: s in front ==> s.name != last.name
    ensures NoDuplicates(SceneNames(m + [last]))
  {
    forall i | 0 <= i < |m|
      ensures m[i].name != last.name
    {
      assert m[i] in m;
    }
    assert SceneNames(m) == SceneNames(m + [last])[..|m|];
  }

  /** Nothing becomes ambiguous. */
  lemma SyncedUnambiguous(segs: seq<Segment>, scenes: seq<Scene>)
    requires Unambiguous(segs) && Selectable(segs, scenes)
    ensures Unambiguous(Synced(segs, scenes))
  {
    hide BlockNames, ManualCases, Synced, Missing;
    SyncedNames(segs, scenes);
    var missing := Missing(scenes, BlockNames(segs));
    MissingNames(scenes, BlockNames(segs));
    NamesJoin(BlockNames(segs), SceneNames(missing), ManualCases(segs), scenes, missing);
  }

  lemma NamesJoin(blocks: seq<Name>, added: seq<Name>, cases: seq<Name>, scenes: seq<Scene>, missing: seq<Scene>)
    requires NoDuplicates(blocks) && NoDuplicates(added) && NoCommon(blocks, cases) && NoCommon(SceneNames(scenes), cases)
    requires added == SceneNames(missing) && forall s :: s in missing ==> s in scenes && s.name !in blocks
    ensures NoDuplicates(blocks + added) && NoCommon(blocks + added, cases)
  {
    forall i | 0 <= i < |added|
      ensures added[i] !in blocks && added[i] !in cases
    {
      assert missing[i] in missing;
      var k :| 0 <= k < |scenes| && scenes[k] == missing[i];
      assert SceneNames(scenes)[k] == added[i];
      assert added[i] in SceneNames(scenes);
    }
  }

  // ----- Members -----

  lemma {:induction false} AdditionsMembers(missing: seq<Scene>)
    ensures forall x :: x in Additions(missing) ==> x == Manual(BLANK) || exists s :: s in missing && x == SceneBlock(s)
    ensures forall s :: s in missing ==> SceneBlock(s) in Additions(missing)
  {
    hide SceneBlock;
    if missing != [] {
      var front, last := missing[..|missing| - 1], missing[|missing| - 1];
      AdditionsMembers(front);
      assert missing == front + [last];
    }
  }

  lemma {:induction false} TrimmedMembers(segs: seq<Segment>)
    ensures forall x :: x in Trimmed(segs) ==> x in segs
    ensures forall x :: x in segs && x != Manual(BLANK) ==> x in Trimmed(segs)
  {
    if segs != [] && segs[|segs| - 1] == Manual(BLANK) {
      TrimmedMembers(segs[..|segs| - 1]);
      assert segs == segs[..|segs| - 1] + [Manual(BLANK)];
    }
  }

  lemma ReplacedMembers(segs: seq<Segment>, scenes: seq<Scene>)
    ensures forall x :: x in Replaced(segs, scenes) <==> exists y :: y in segs && x == ReplacedSegment(y, scenes)
  {
    hide ReplacedSegment;
    forall y | y in segs
      ensures ReplacedSegment(y, scenes) in Replaced(segs, scenes)
    {
      var i :| 0 <= i < |segs| && segs[i] == y;
      assert Replaced(segs, scenes)[i] == ReplacedSegment(y, scenes);
    }
    forall x | x in Replaced(segs, scenes)
      ensures exists y :: y in segs && x == ReplacedSegment(y, scenes)
    {
      var i :| 0 <= i < |segs| && Replaced(segs, scenes)[i] == x;
      assert segs[i] in segs;
    }
  }

  lemma AppendedMembers(segs: seq<Segment>, missing: seq<Scene>)
    ensures forall x :: x in Appended(segs, missing) ==> x == Manual(BLANK) || x in segs || exists s :: s in missing && x == SceneBlock(s)
    ensures forall x :: x in segs ==> x in Appended(segs, missing)
    ensures forall s :: s in missing ==> SceneBlock(s) in Appended(segs, missing)
  {
    hide SceneBlock, Additions, HasText;
    AdditionsMembers(missing);
  }

  /** A segment of the new list is a blank line, or an old segment that is no selected block, or the block of a selected scene. */
  lemma SyncedMembers(segs: seq<Segment>, scenes: seq<Scene>, x: Segment)
    requires NoDuplicates(SceneNames(scenes)) && x in Synced(segs, scenes)
    ensures || x == Manual(BLANK) || (x in segs && ReplacedSegment(x, scenes) == x) || (exists s :: s in scenes && x == SceneBlock(s))
  {
    hide Trimmed, Appended, Missing, Replaced, BlockNames, SceneBlock;
    var missing := Missing(scenes, BlockNames(segs));
    TrimmedMembers(Appended(Replaced(segs, scenes), missing));
    AppendedMembers(Replaced(segs, scenes), missing);
    ReplacedMembers(segs, scenes);
    MissingNames(scenes, BlockNames(segs));
    if x != Manual(BLANK) && x in Replaced(segs, scenes) {
      var y :| y in segs && x == ReplacedSegment(y, scenes);
      ReplacedOnce(y, scenes);
    }
  }

  lemma ReplacedOnce(y: Segment, scenes: seq<Scene>)
    ensures ReplacedSegment(y, scenes) == y || exists s :: s in scenes && ReplacedSegment(y, scenes) == SceneBlock(s)
  {
  }

  lemma {:induction false} SceneFound(scenes: seq<Scene>, s: Scene)
    requires NoDuplicates(SceneNames(scenes)) && s in scenes
    ensures SceneNamed(scenes, s.name) == Some(s)
  {
    var i :| 0 <= i < |scenes| && scenes[i] == s;
    var r := SceneNamed(scenes, s.name);
    assert r.Some?;
    var j :| 0 <= j < |scenes| && scenes[j] == r.value;
    assert SceneNames(scenes)[i] == SceneNames(scenes)[j];
  }

  lemma BlockListed(segs: seq<Segment>, name: Name)
    ensures name in BlockNames(segs) ==> exists x :: x in segs && x.Block? && x.name == name
  {
    if name in BlockNames(segs) {
      BlockListedAt(segs, name);
    }
  }

  lemma {:induction false} BlockListedAt(segs: seq<Segment>, name: Name)
    requires name in BlockNames(segs)
    ensures exists x :: x in segs && x.Block? && x.name == name
  {
    if segs != [] {
      var front, last := segs[..|segs| - 1], segs[|segs| - 1];
      assert segs == front + [last];
      if last.Block? && last.name == name {
        assert last in segs;
      } else {
        BlockListedAt(front, name);
        var x :| x in front && x.Block? && x.name == name;
        assert x in segs;
      }
    }
  }

  /** Every selected scene has its block. */
  lemma SceneHasBlock(segs: seq<Segment>, scenes: seq<Scene>, s: Scene)
    requires NoDuplicates(SceneNames(scenes)) && s in scenes
    ensures SceneBlock(s) in Synced(segs, scenes)
  {
    hide Trimmed, Appended, Missing, Replaced, BlockNames, NoDuplicates, Render;
    var missing := Missing(scenes, BlockNames(segs));
    SceneFound(scenes, s);
    BlockListed(segs, s.name);
    MissingNames(scenes, BlockNames(segs));
    ReplacedMembers(segs, scenes);
    AppendedMembers(Replaced(segs, scenes), missing);
    TrimmedMembers(Appended(Replaced(segs, scenes), missing));
    if s.name in BlockNames(segs) {
      var y :| y in segs && y.Block? && y.name == s.name;
      assert ReplacedSegment(y, scenes) == SceneBlock(s);
    }
  }

  // ----- Reading the new list -----

  lemma MembersShaped(segs: seq<Segment>)
    ensures AllShaped(segs) <==> forall x :: x in segs ==> Shaped(x)
    ensures AllOwn(segs) <==> forall x :: x in segs ==> OwnCase(x)
  {
    hide Shaped, OwnCase;
  }

  lemma SyncedShaped(segs: seq<Segment>, scenes: seq<Scene>)
    requires AllShaped(segs) && NoDuplicates(SceneNames(scenes))
    ensures AllShaped(Synced(segs, scenes))
  {
    hide Synced, Shaped, SceneBlock, ReplacedSegment, NoDuplicates, AllShaped, AllOwn;
    MembersShaped(segs);
    MembersShaped(Synced(segs, scenes));
    forall x | x in Synced(segs, scenes)
      ensures Shaped(x)
    {
      SyncedMembers(segs, scenes, x);
      BlankShaped();
      if s :| s in scenes && x == SceneBlock(s) {
        SceneShaped(s);
      }
    }
  }

  lemma BlankShaped()
    ensures Shaped(Manual(BLANK)) && OwnCase(Manual(BLANK))
  {
  }

  lemma SceneShaped(s: Scene)
    ensures Shaped(SceneBlock(s)) && (OwnCase(SceneBlock(s)) <==> Clean(s))
  {
    RenderedBlock(s);
    hide Render, Shaped, OwnCase, Clean;
  }

  lemma SyncedOwn(segs: seq<Segment>, scenes: seq<Scene>)
    requires AllOwn(segs) && NoDuplicates(SceneNames(scenes))
    ensures AllOwn(Synced(segs, scenes)) <==> forall s :: s in scenes ==> Clean(s)
  {
    hide Synced, OwnCase, SceneBlock, ReplacedSegment, NoDuplicates, AllShaped, AllOwn, Clean;
    MembersShaped(segs);
    MembersShaped(Synced(segs, scenes));
    forall s | s in scenes
      ensures SceneBlock(s) in Synced(segs, scenes) && (OwnCase(SceneBlock(s)) <==> Clean(s))
    {
      SceneHasBlock(segs, scenes, s);
      SceneShaped(s);
    }
    if forall s :: s in scenes ==> Clean(s) {
      forall x | x in Synced(segs, scenes)
        ensures OwnCase(x)
      {
        SyncedMembers(segs, scenes, x);
        BlankShaped();
      }
    }
  }

  /** The new list is accepted when it is read again exactly when no case name but its own is found in the block of a selected scene. */
  lemma SyncedParses(segs: seq<Segment>, scenes: seq<Scene>)
    requires AllShaped(segs) && AllOwn(segs) && Unambiguous(segs) && Selectable(segs, scenes)
    ensures Parses(Flatten(Synced(segs, scenes))) <==> forall s :: s in scenes ==> Clean(s)
    ensures Parses(Flatten(Synced(segs, scenes))) ==> Split(Flatten(Synced(segs, scenes))) == Some(Synced(segs, scenes))
  {
    SyncedShaped(segs, scenes);
    SyncedOwn(segs, scenes);
    SyncedUnambiguous(segs, scenes);
    SplitFlatten(Synced(segs, scenes));
    hide Synced, Split, AllOwn, AllShaped, Clean, Unambiguous, Flatten;
  }

  // ----- What is kept -----

  predicate KeptSegment(s: Segment, scenes: seq<Scene>) {
    s != Manual(BLANK) && (s.Block? ==> SceneNamed(scenes, s.name).None?)
  }

  /** The lines outside blocks, except blank ones, and the blocks that are not selected, in order. */
  function Kept(segs: seq<Segment>, scenes: seq<Scene>): seq<Segment> {
    if segs == [] then []
    else Kept(segs[..|segs| - 1], scenes) + if KeptSegment(segs[|segs| - 1], scenes) then [segs[|segs| - 1]] else []
  }

  lemma KeptSnoc(segs: seq<Segment>, s: Segment, scenes: seq<Scene>)
    ensures Kept(segs + [s], scenes) == Kept(segs, scenes) + if KeptSegment(s, scenes) then [s] else []
  {
    assert (segs + [s])[..|segs|] == segs;
  }

  lemma {:induction false} KeptReplaced(segs: seq<Segment>, scenes: seq<Scene>)
    ensures Kept(Replaced(segs, scenes), scenes) == Kept(segs, scenes)
  {
    hide Kept, Render;
    if segs == [] {
      assert Replaced(segs, scenes) == [];
    } else {
      var front, last := segs[..|segs| - 1], segs[|segs| - 1];
      KeptReplaced(front, scenes);
      KeptSnoc(front, last, scenes);
      KeptSnoc(Replaced(front, scenes), ReplacedSegment(last, scenes), scenes);
      assert segs == front + [last];
      assert Replaced(segs, scenes) == Replaced(front, scenes) + [ReplacedSegment(last, scenes)];
    }
  }

  lemma {:induction false} KeptAppended(segs: seq<Segment>, more: seq<Segment>, scenes: seq<Scene>)
    requires forall x :: x in more ==> !KeptSegment(x, scenes)
    ensures Kept(segs + more, scenes) == Kept(segs, scenes)
  {
    hide Kept, KeptSegment;
    if more == [] {
      assert segs + more == segs;
    } else {
      var front, last := more[..|more| - 1], more[|more| - 1];
      KeptAppended(segs, front, scenes);
      KeptSnoc(segs + front, last, scenes);
      assert segs + more == segs + front + [last];
    }
  }

  lemma {:induction false} KeptTrimmed(segs: seq<Segment>, scenes: seq<Scene>)
    ensures Kept(Trimmed(segs), scenes) == Kept(segs, scenes)
  {
    if segs != [] && segs[|segs| - 1] == Manual(BLANK) {
      KeptTrimmed(segs[..|segs| - 1], scenes);
    }
  }

  /** The synchronization keeps, in order, every line outside blocks that is not blank and every block that is not selected. */
  lemma SyncedKeeps(segs: seq<Segment>, scenes: seq<Scene>)
    requires NoDuplicates(SceneNames(scenes))
    ensures Kept(Synced(segs, scenes), scenes) == Kept(segs, scenes)
  {
    hide Kept, Trimmed, Missing, Additions, HasText, BlockNames, Replaced, KeptSegment;
    var missing := Missing(scenes, BlockNames(segs));
    var replaced := Replaced(segs, scenes);
    KeptTrimmed(Appended(replaced, missing), scenes);
    KeptReplaced(segs, scenes);
    if missing != [] {
      var more := (if HasText(replaced) then [Manual(BLANK)] else []) + Additions(missing);
      AdditionsNotKept(segs, scenes, more);
      KeptAppended(replaced, more, scenes);
      assert Appended(replaced, missing) == replaced + more;
    }
  }

  lemma AdditionsNotKept(segs: seq<Segment>, scenes: seq<Scene>, more: seq<Segment>)
    requires NoDuplicates(SceneNames(scenes))
    requires forall x :: x in more ==> x == Manual(BLANK) || x in Additions(Missing(scenes, BlockNames(segs)))
    ensures forall x :: x in more ==> !KeptSegment(x, scenes)
  {
    hide Missing, Additions, BlockNames;
    var missing := Missing(scenes, BlockNames(segs));
    AdditionsMembers(missing);
    MissingNames(scenes, BlockNames(segs));
  }

  // ----- Idempotence -----

  lemma {:induction false} TrimmedAgain(segs: seq<Segment>)
    ensures Trimmed(Trimmed(segs)) == Trimmed(segs)
  {
    if segs != [] && segs[|segs| - 1] == Manual(BLANK) {
      TrimmedAgain(segs[..|segs| - 1]);
    }
  }

  lemma {:induction false} NothingMissing(scenes: seq<Scene>, names: seq<Name>)
    requires forall s :: s in scenes ==> s.name in names
    ensures Missing(scenes, names) == []
  {
    if scenes != [] {
      NothingMissing(scenes[..|scenes| - 1], names);
    }
  }

  lemma NothingReplaced(segs: seq<Segment>, scenes: seq<Scene>)
    requires forall x :: x in segs ==> ReplacedSegment(x, scenes) == x
    ensures Replaced(segs, scenes) == segs
  {
    hide ReplacedSegment;
    forall i | 0 <= i < |segs|
      ensures Replaced(segs, scenes)[i] == segs[i]
    {
      assert segs[i] in segs;
    }
  }

  /** Synchronizing again changes nothing. */
  lemma SyncedAgain(segs: seq<Segment>, scenes: seq<Scene>)
    requires NoDuplicates(SceneNames(scenes))
    ensures Synced(Synced(segs, scenes), scenes) == Synced(segs, scenes)
  {
    var t := Synced(segs, scenes);
    assert Trimmed(t) == t by { TrimmedAgain(Appended(Replaced(segs, scenes), Missing(scenes, BlockNames(segs)))); }
    forall x | x in t
      ensures ReplacedSegment(x, scenes) == x
    {
      hide Synced, Render, NoDuplicates;
      SyncedMembers(segs, scenes, x);
      if s :| s in scenes && x == SceneBlock(s) {
        SceneFound(scenes, s);
      }
    }
    NothingReplaced(t, scenes);
    forall s | s in scenes
      ensures s.name in BlockNames(t)
    {
      hide Synced, Missing, BlockNames, NoDuplicates;
      SyncedNames(segs, scenes);
      var missing := Missing(scenes, BlockNames(segs));
      MissingNames(scenes, BlockNames(segs));
      if s.name !in BlockNames(segs) {
        var k :| 0 <= k < |missing| && missing[k] == s;
        assert SceneNames(missing)[k] == s.name;
      }
    }
    NothingMissing(scenes, BlockNames(t));
    hide Trimmed, Replaced, Missing, BlockNames;
  }
}
