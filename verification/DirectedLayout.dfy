/** Where the lines and the blocks of a synchronized list are. */
module DirectedLayout {
  import opened DirectedListSpec
  import opened DirectedSync

  // ----- The names of a list that is read -----

  lemma {:induction false} SegmentsCases(segs: seq<Segment>)
    requires AllOwn(segs)
    ensures multiset(Cases(Flatten(segs))) == multiset(BlockNames(segs)) + multiset(ManualCases(segs))
  {
    if segs != [] {
      var front, last := segs[..|segs| - 1], segs[|segs| - 1];
      assert segs == front + [last];
      OwnParts(front, last);
      SegmentsCases(front);
      hide *;
      FlattenSnoc(front, last);
      BlockNamesSnoc(front, last);
      CasesAppend(Flatten(front), last.Lines());
      SegmentCases(last);
    }
  }

  /** A segment holds one case at most: that of the block, or that of the line. */
  lemma SegmentCases(s: Segment)
    requires OwnCase(s)
    ensures Cases(s.Lines()) == if s.Block? then [s.name] else if s.line.caseName.Some? then [s.line.caseName.value] else []
  {
    if s.Manual? {
      assert [s.line][..0] == [];
    }
  }

  lemma OwnParts(front: seq<Segment>, last: Segment)
    requires AllOwn(front + [last])
    ensures AllOwn(front) && OwnCase(last)
  {
    var all := front + [last];
    assert all[|front|] == last;
    assert forall i :: 0 <= i < |front| ==> front[i] == all[i];
  }

  lemma {:induction false} UniqueCounts(names: seq<Name>, n: Name)
    requires NoDuplicates(names)
    ensures multiset(names)[n] <= 1
  {
    if names != [] {
      var front, last := names[..|names| - 1], names[|names| - 1];
      UniqueFront(names);
      UniqueCounts(front, n);
      hide NoDuplicates;
      assert names == front + [last];
      assert last !in multiset(front);
    }
  }

  lemma UniqueFront(names: seq<Name>)
    requires NoDuplicates(names) && names != []
    ensures NoDuplicates(names[..|names| - 1]) && names[|names| - 1] !in names[..|names| - 1]
  {
  }

  lemma TwiceCounts(names: seq<Name>, i: nat, j: nat)
    requires i < j < |names| && names[i] == names[j]
    ensures multiset(names)[names[i]] >= 2
  {
    var before, after := names[..j], names[j..];
    assert names == before + after;
    assert before[i] == names[i] && after[0] == names[i];
    assert multiset(before)[names[i]] >= 1 && multiset(after)[names[i]] >= 1;
  }

  lemma NoDuplicatesCounts(names: seq<Name>)
    ensures NoDuplicates(names) <==> forall n :: multiset(names)[n] <= 1
  {
    if NoDuplicates(names) {
      forall n
        ensures multiset(names)[n] <= 1
      {
        UniqueCounts(names, n);
      }
    } else {
      var i, j :| 0 <= i < j < |names| && names[i] == names[j];
      TwiceCounts(names, i, j);
    }
  }

  /** A list is accepted if and only if its blocks are good and no case name is found in two of its lines. */
  lemma ParsesIs(lines: seq<Line>)
    ensures Parses(lines) <==> Split(lines).Some? && NoDuplicates(Cases(lines))
  {
    if Split(lines).Some? {
      var segs := Split(lines).value;
      SplitGives(lines);
      SegmentsCases(segs);
      var b, m := BlockNames(segs), ManualCases(segs);
      NoDuplicatesCounts(Cases(lines));
      NoDuplicatesCounts(b);
      NoDuplicatesCounts(m);
      hide Split, Cases, BlockNames, ManualCases, NoDuplicates, Flatten, AllOwn, AllShaped;
      forall n
        ensures n in b <==> multiset(b)[n] >= 1
        ensures n in m <==> multiset(m)[n] >= 1
        ensures multiset(Cases(lines))[n] == multiset(b)[n] + multiset(m)[n]
      {
      }
    }
  }

  // ----- The new segments -----

  lemma {:induction false} AdditionsAt(missing: seq<Scene>)
    ensures |Additions(missing)| == 2 * |missing|
    ensures forall k :: 0 <= k < |missing| ==> Additions(missing)[2 * k] == SceneBlock(missing[k])
    ensures forall k :: 0 <= k < |missing| ==> Additions(missing)[2 * k + 1] == Manual(BLANK)
  {
    hide SceneBlock;
    if missing != [] {
      var front := missing[..|missing| - 1];
      AdditionsAt(front);
      assert forall k :: 0 <= k < |front| ==> front[k] == missing[k];
    }
  }

  /** Trimming takes blank lines from the end, as many as there are. */
  predicate TrimmedTo(segs: seq<Segment>, t: seq<Segment>) {
    && t <= segs && (t != [] ==> t[|t| - 1] != Manual(BLANK))
    && forall i :: |t| <= i < |segs| ==> segs[i] == Manual(BLANK)
  }

  lemma {:induction false} TrimmedIs(segs: seq<Segment>)
    ensures TrimmedTo(segs, Trimmed(segs))
  {
    if segs != [] && segs[|segs| - 1] == Manual(BLANK) {
      TrimmedIs(segs[..|segs| - 1]);
    }
  }

  lemma TrimmedOnce(segs: seq<Segment>, x: Segment)
    requires x != Manual(BLANK)
    ensures Trimmed(segs + [x] + [Manual(BLANK)]) == segs + [x]
  {
    assert (segs + [x] + [Manual(BLANK)])[..|segs| + 1] == segs + [x];
  }

  /** Segment i is the old one, or the block of the selected scene of its name. */
  predicate InPlace(segs: seq<Segment>, scenes: seq<Scene>, t: seq<Segment>, i: nat)
    requires i < |segs| && i < |t|
  {
    || (exists s :: s in scenes && segs[i].Block? && segs[i].name == s.name && t[i] == Block(s.name, Render(s)))
    || (t[i] == segs[i] && (segs[i].Block? ==> forall s :: s in scenes ==> s.name != segs[i].name))
  }

  lemma ReplacedInPlace(segs: seq<Segment>, scenes: seq<Scene>, i: nat)
    requires i < |segs|
    ensures InPlace(segs, scenes, Replaced(segs, scenes), i)
  {
    hide Render;
  }

  lemma ReplacedText(segs: seq<Segment>, scenes: seq<Scene>)
    ensures HasText(Replaced(segs, scenes)) <==> HasText(segs)
  {
    hide Render;
    forall i | 0 <= i < |segs|
      ensures Replaced(segs, scenes)[i] != Manual(BLANK) <==> segs[i] != Manual(BLANK)
    {
    }
  }

  /** The scenes without a block, in the order of the selection. */
  lemma {:induction false} MissingInOrder(scenes: seq<Scene>, names: seq<Name>, k: nat, l: nat)
    requires k < l < |Missing(scenes, names)|
    ensures exists i, j :: 0 <= i < j < |scenes| && Missing(scenes, names)[k] == scenes[i] && Missing(scenes, names)[l] == scenes[j]
  {
    var n := |scenes| - 1;
    var front := Missing(scenes[..n], names);
    MissingMembers(scenes[..n], names);
    if l < |front| {
      MissingInOrder(scenes[..n], names, k, l);
    } else {
      assert front[k] in front && front[k] in scenes[..n];
      var i :| 0 <= i < n && scenes[..n][i] == front[k];
      assert scenes[i] == Missing(scenes, names)[k] && scenes[n] == Missing(scenes, names)[l];
    }
  }

  /**
   When every selected scene has a block, the new list is the old one with these blocks rendered anew and
   without the blank lines at its end.
   */
  lemma LayoutWithoutNew(segs: seq<Segment>, scenes: seq<Scene>)
    requires Missing(scenes, BlockNames(segs)) == []
    ensures var t := Synced(segs, scenes);
      && |t| <= |segs| && (t != [] ==> t[|t| - 1] != Manual(BLANK))
      && (forall i :: 0 <= i < |t| ==> InPlace(segs, scenes, t, i))
      && forall i :: |t| <= i < |segs| ==> segs[i] == Manual(BLANK)
  {
    hide InPlace, BlockNames, Render, Missing, Trimmed, ReplacedSegment;
    var replaced, t := Replaced(segs, scenes), Synced(segs, scenes);
    TrimmedIs(replaced);
    forall i | 0 <= i < |segs|
      ensures InPlace(segs, scenes, replaced, i)
    {
      ReplacedInPlace(segs, scenes, i);
    }
    forall i | 0 <= i < |t|
      ensures InPlace(segs, scenes, t, i)
    {
      SamePlace(segs, scenes, replaced, t, i);
    }
    forall i | |t| <= i < |segs|
      ensures segs[i] == Manual(BLANK)
    {
      assert replaced[i] == Manual(BLANK);
      BlankInPlace(segs, scenes, replaced, i);
    }
  }

  lemma SamePlace(segs: seq<Segment>, scenes: seq<Scene>, a: seq<Segment>, b: seq<Segment>, i: nat)
    requires i < |segs| && i < |a| && i < |b| && a[i] == b[i] && InPlace(segs, scenes, a, i)
    ensures InPlace(segs, scenes, b, i)
  {
    hide Render;
  }

  lemma BlankInPlace(segs: seq<Segment>, scenes: seq<Scene>, t: seq<Segment>, i: nat)
    requires i < |segs| && i < |t| && t[i] == Manual(BLANK) && InPlace(segs, scenes, t, i)
    ensures segs[i] == Manual(BLANK)
  {
    hide Render;
  }

  /** Otherwise the new blocks follow in the order of the selection, each after a blank line unless it is the first segment. */
  lemma LayoutWithNew(segs: seq<Segment>, scenes: seq<Scene>)
    requires Missing(scenes, BlockNames(segs)) != []
    ensures var t, missing := Synced(segs, scenes), Missing(scenes, BlockNames(segs));
      var base := |segs| + if exists i :: 0 <= i < |segs| && segs[i] != Manual(BLANK) then 1 else 0;
      && |t| == base + 2 * |missing| - 1
      && (forall i :: 0 <= i < |segs| ==> InPlace(segs, scenes, t, i))
      && (forall k :: 0 <= k < |missing| ==> t[base + 2 * k] == Block(missing[k].name, Render(missing[k])))
      && forall k :: 0 <= k < |missing| && base + 2 * k > 0 ==> t[base + 2 * k - 1] == Manual(BLANK)
  {
    var missing := Missing(scenes, BlockNames(segs));
    var replaced, t := Replaced(segs, scenes), Synced(segs, scenes);
    hide InPlace, BlockNames, Render, Missing, Trimmed, ReplacedSegment, Additions;
    ReplacedText(segs, scenes);
    AdditionsAt(missing);
    var base := replaced + if HasText(replaced) then [Manual(BLANK)] else [];
    var m := Additions(missing);
    var n := |missing| - 1;
    assert m == m[..2 * n] + [m[2 * n]] + [m[2 * n + 1]];
    assert base + m == base + m[..2 * n] + [SceneBlock(missing[n])] + [Manual(BLANK)];
    TrimmedOnce(base + m[..2 * n], SceneBlock(missing[n]));
    assert t == (base + m)[..|base| + 2 * n + 1];
    forall i | 0 <= i < |segs|
      ensures InPlace(segs, scenes, t, i)
    {
      ReplacedInPlace(segs, scenes, i);
      SamePlace(segs, scenes, replaced, t, i);
    }
    LastOfBase(segs, scenes, base);
    forall k | 0 <= k < |missing| && |base| + 2 * k > 0
      ensures t[|base| + 2 * k - 1] == Manual(BLANK)
    {
      if k > 0 {
        assert m[2 * (k - 1) + 1] == Manual(BLANK);
      }
    }
  }

  lemma LastOfBase(segs: seq<Segment>, scenes: seq<Scene>, base: seq<Segment>)
    requires base == Replaced(segs, scenes) + if HasText(Replaced(segs, scenes)) then [Manual(BLANK)] else []
    ensures base != [] ==> base[|base| - 1] == Manual(BLANK)
  {
    hide ReplacedSegment;
  }
}
