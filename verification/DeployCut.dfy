/** Two files that are deployed and rolled back, once with a kill between the rename and the flush of the second. */
module DeployCut {
  import opened Options
  import opened Paths
  import opened DeployModel
  import opened DeployFacts
  import opened DeploySteps
  import opened DeployPlan
  import opened DeployWhole
  import opened Manifest

  /**
   An acceptable manifest of two files that replace others. Neither lies in the root, nor do both lie in
   one directory. The workbook is not listed; it is the current one.
   */
  datatype Files = Files(policy: Policy, first: Entry, second: Entry) {
    predicate Valid() {
      && Acceptable(Entries(), {}) && policy.path != first.path && policy.path != second.path
      && first.baseline.Some? && first.baseline.value != first.candidate
      && second.baseline.Some? && second.baseline.value != second.candidate
      && Parent(first.path) != "" && Parent(second.path) != "" && Parent(first.path) != Parent(second.path)
    }

    function Entries(): seq<Entry> {
      [first, second]
    }

    function Rows(): seq<Row> {
      [Row(first, Replace), Row(second, Replace)]
    }

    function Target(): Tree
      requires Valid()
    {
      map[policy.path := policy.current, first.path := first.baseline.value, second.path := second.baseline.value]
    }

    function Staged(): Tree {
      map[first.path := first.candidate, second.path := second.candidate]
    }

    function Folders(): set<Path> {
      {Parent(first.path), Parent(second.path)}
    }
  }

  // ----- An instance -----

  function HashOf(c: char): Hash {
    seq(64, i requires 0 <= i => c)
  }

  function Example(): Files {
    Files(Policy("docs/vip/vip_cfg.xlsx", HashOf('0'), None),
          Entry("rtl/top.sv", Some(HashOf('a')), HashOf('b')), Entry("scripts/run.py", Some(HashOf('c')), HashOf('d')))
  }

  lemma SlashAt(s: string, i: nat)
    requires i < |s| && s[i] == '/' && forall j :: i < j < |s| ==> s[j] != '/'
    ensures LastSlash(s) == i
  {
  }

  lemma {:induction false} LowerSame(s: string)
    requires forall i :: 0 <= i < |s| ==> !('A' <= s[i] <= 'Z')
    ensures Lower(s) == s
  {
    if s != "" {
      LowerSame(s[..|s| - 1]);
    }
  }

  lemma TwoParts(a: string, b: string)
    requires '/' !in a && '/' !in b
    ensures Components(a + "/" + b) == [a, b] && Parent(a + "/" + b) == a
  {
    var s := a + "/" + b;
    assert forall j :: |a| < j < |s| ==> s[j] == b[j - |a| - 1];
    SlashAt(s, |a|);
    assert s[..|a|] == a && s[|a| + 1..] == b;
    NoSlash(a);
  }

  lemma NoSlash(s: string)
    requires '/' !in s
    ensures Components(s) == [s]
  {
    SlashFound(s);
  }

  lemma SlashFound(s: string)
    ensures LastSlash(s) >= 0 ==> '/' in s
  {
    assert LastSlash(s) >= 0 ==> s[LastSlash(s)] in s;
  }

  lemma HashIs(c: char)
    requires '0' <= c <= '9' || 'a' <= c <= 'f'
    ensures IsHash(HashOf(c))
  {
  }

  lemma DifferentHashes(c: char, d: char)
    requires c != d
    ensures HashOf(c) != HashOf(d)
  {
    assert HashOf(c)[0] != HashOf(d)[0];
  }

  /** A part of a path that no rule of the manifest concerns. */
  predicate PlainPart(part: string) {
    && part !in {"", ".", ".."} && '/' !in part && '\\' !in part && '\0' !in part
    && (forall i :: 0 <= i < |part| ==> !('A' <= part[i] <= 'Z')) && Unblocked(part)
  }

  predicate Unblocked(part: string) {
    && part !in BLOCKED_COMPONENTS && part !in BLOCKED_NAMES
    && forall suffix :: suffix in BLOCKED_SUFFIXES ==> !EndsWith(part, suffix)
  }

  lemma PlainPath(a: string, b: string)
    requires PlainPart(a) && PlainPart(b) && [a, b] !in BLOCKED_DIRECTORIES
    ensures ValidPath(a + "/" + b, {})
  {
    TwoParts(a, b);
    PlainNormalized(a, b);
    PlainUnprotected(a, b);
    hide Components, Protected, Normalized, PlainPart;
  }

  lemma PlainNormalized(a: string, b: string)
    requires PlainPart(a) && PlainPart(b) && Components(a + "/" + b) == [a, b]
    ensures Normalized(a + "/" + b)
  {
    hide Components, EndsWith;
  }

  lemma PlainUnprotected(a: string, b: string)
    requires PlainPart(a) && PlainPart(b) && [a, b] !in BLOCKED_DIRECTORIES
    ensures !Protected([a, b])
  {
    LowerSame(a);
    LowerSame(b);
    hide Lower, Unblocked, Protected;
    NotProtected(a, b);
  }

  lemma NotProtected(a: string, b: string)
    requires Lower(a) == a && Lower(b) == b && Unblocked(a) && Unblocked(b) && [a, b] !in BLOCKED_DIRECTORIES
    ensures !Protected([a, b])
  {
    hide Lower, EndsWith;
    var parts := [a, b];
    assert forall part :: part in parts ==> part == a || part == b;
    assert [Lower(parts[0]), Lower(parts[1])] == parts;
  }

  lemma PlainEnding(part: string)
    requires |part| > 0 && part[|part| - 1] !in {'x', 'b', 'd', 'g', 'c'}
    ensures forall suffix :: suffix in BLOCKED_SUFFIXES ==> !EndsWith(part, suffix)
  {
    forall suffix | suffix in BLOCKED_SUFFIXES
      ensures !EndsWith(part, suffix)
    {
      assert suffix[|suffix| - 1] in {'x', 'b', 'd', 'g', 'c'};
      assert |suffix| <= |part| ==> part[|part| - |suffix|..][|suffix| - 1] == part[|part| - 1];
    }
  }

  lemma PlainDirectories()
    ensures PlainPart("rtl") && PlainPart("scripts")
  {
    hide EndsWith;
    PlainEnding("rtl");
    PlainEnding("scripts");
  }

  lemma PlainFiles()
    ensures PlainPart("top.sv") && PlainPart("run.py")
  {
    hide EndsWith;
    PlainEnding("top.sv");
    PlainEnding("run.py");
  }

  lemma ExamplePaths()
    ensures var f := Example();
      && ValidPath(f.first.path, {}) && ValidPath(f.second.path, {})
      && Parent(f.first.path) == "rtl" && Parent(f.second.path) == "scripts"
  {
    hide PlainPart, ValidPath, Components, Parent;
    PlainDirectories();
    PlainFiles();
    PlainPath("rtl", "top.sv");
    PlainPath("scripts", "run.py");
    TwoParts("rtl", "top.sv");
    TwoParts("scripts", "run.py");
    assert "rtl" + "/" + "top.sv" == "rtl/top.sv" && "scripts" + "/" + "run.py" == "scripts/run.py";
  }

  /** There is such a manifest. */
  lemma ExampleIsValid()
    ensures Example().Valid()
  {
    hide ValidPath, IsHash, Parent, HashOf;
    ExamplePaths();
    HashIs('a');
    HashIs('b');
    HashIs('c');
    HashIs('d');
    DifferentHashes('a', 'b');
    DifferentHashes('c', 'd');
  }

  // ----- The run -----

  function KillAt(time: nat): nat -> Event {
    t => if t == time then Kill else Quiet
  }

  lemma KillIsCalm(f: Files, time: nat)
    ensures NoFlush(KillAt(time)) && NoPowerLoss(KillAt(time)) && CalmFor(f.Entries(), KillAt(time)) && Calm(f.Rows(), KillAt(time))
    ensures Untouched(f.policy.path, KillAt(time))
  {
  }

  lemma NotDisturbed(time: nat, from: nat, to: nat)
    requires to <= time
    ensures !DisturbedIn(KillAt(time), from, to)
  {
  }

  lemma KillIsNotPassed(time: nat, from: nat, to: nat)
    requires from <= time < to
    ensures !PassedIn(KillAt(time), from, to)
  {
    assert !StatusOf(KillAt(time)(time)).Done?;
  }

  lemma FilesDistinct(f: Files)
    requires f.Valid()
    ensures f.first.path != f.second.path && DistinctEntries(f.Entries())
  {
    hide ValidEntry, NoFileBelowFile, Parent;
    assert f.Entries()[0] == f.first && f.Entries()[1] == f.second;
  }

  lemma FilesDeploy(f: Files)
    requires f.Valid()
    ensures DistinctEntries(f.Entries()) && Still(f.Entries(), f.Target(), Disk(f.Target(), f.Target(), None))
    ensures Accepted(f.Entries(), f.Staged(), f.Target(), f.policy) && LeavesWorkbook(f.Entries(), f.policy, f.Target())
    ensures ChosenRows(f.Entries(), f.Target()) == f.Rows() && ValidRows(f.Rows())
  {
    FilesDistinct(f);
    hide Acceptable, Parent;
    assert Get(f.Target(), f.first.path) == f.first.baseline && Get(f.Target(), f.second.path) == f.second.baseline;
    assert Get(f.Target(), f.policy.path) == Some(f.policy.current);
    assert AcceptedEntry(f.Entries()[0], f.Staged(), Get(f.Target(), f.Entries()[0].path));
    assert AcceptedEntry(f.Entries()[1], f.Staged(), Get(f.Target(), f.Entries()[1].path));
  }

  lemma FilesTicks(f: Files)
    requires f.Valid()
    ensures DeployTicks(f.Rows(), f.Folders()) == 15
  {
    var rows := f.Rows();
    assert DeployDirs(rows, f.Folders()) == {"", Parent(f.first.path), Parent(f.second.path)} by {
      DirsOf(f);
    }
    assert rows[..2] == rows;
    NoCount(rows);
    CountNext(rows, 0);
    CountNext(rows, 1);
    hide Parent, DeployDirs, ReplaceCount, ApplyCount;
    ThreeDirs("", Parent(f.first.path), Parent(f.second.path));
  }

  lemma DirsOf(f: Files)
    requires f.Valid()
    ensures DeployDirs(f.Rows(), f.Folders()) == {"", Parent(f.first.path), Parent(f.second.path)}
  {
    hide Parent;
    var rows := f.Rows();
    assert NearestFolder(f.Folders(), Parent(rows[0].Path())) == Parent(f.first.path);
    assert NearestFolder(f.Folders(), Parent(rows[1].Path())) == Parent(f.second.path);
  }

  lemma ThreeDirs(a: Path, b: Path, c: Path)
    requires a != b && a != c && b != c
    ensures |{a, b, c}| == 3
  {
  }

  lemma FilesPlan(f: Files, d: Disk)
    requires f.Valid() && Settled(f.Rows(), d, 2)
    ensures Planned(f.Rows(), d.vol, 2) == [0, 1] && PrepareTicks(f.Rows(), d.vol) == 6
  {
    var rows := f.Rows();
    assert Get(d.vol, rows[0].Path()) == StageContent(rows, 0, 2) && Get(d.vol, rows[1].Path()) == StageContent(rows, 1, 2);
    assert Changed(rows[0], d.vol) && Changed(rows[1], d.vol);
    PlannedTwo(rows, d.vol);
    PrepareTicksAre(rows, d.vol, [0, 1]);
    assert ProbeDirs(rows, [0, 1]) == {"", Parent(f.first.path), Parent(f.second.path)} by {
      assert rows[[0, 1][0]].Path() == f.first.path && rows[[0, 1][1]].Path() == f.second.path;
    }
    hide Parent, ProbeDirs, Planned;
    ThreeDirs("", Parent(f.first.path), Parent(f.second.path));
  }

  lemma PlannedTwo(rows: seq<Row>, t: Tree)
    requires |rows| == 2 && Changed(rows[0], t) && Changed(rows[1], t)
    ensures Planned(rows, t, 2) == [0, 1]
  {
    hide Changed;
    assert Planned(rows, t, 0) == [] && Planned(rows, t, 1) == [0];
  }

  /** After the cut the second row is restored in memory only, and no other changed row shares its directory. */
  lemma CutLeaves(f: Files, d: Disk, d': Disk)
    requires f.Valid() && Settled(f.Rows(), d, 2) && CutState(f.Rows(), d, d', [0, 1], 1)
    ensures !SoundRow(f.Rows(), d', 1) && SoundRow(f.Rows(), d', 0)
  {
    var rows := f.Rows();
    hide Parent;
    assert [0, 1][1 + 1..] == [];
    assert CutRow(rows[1], d, d') && SystemOnlyRow(rows[0], d, d');
    assert Get(d.vol, rows[0].Path()) == StageContent(rows, 0, 2) && Get(d.dur, rows[0].Path()) == StageContent(rows, 0, 2);
    assert Get(d.dur, rows[1].Path()) == StageContent(rows, 1, 2);
  }

  /** So the second rollback leaves it behind. */
  lemma LeftBehind(f: Files, d: Disk, d': Disk, pre: Tree, b: Backup)
    requires f.Valid() && !SoundRow(f.Rows(), d, 1) && RolledBack(f.Rows(), d, d', true) && Safe(f.Rows(), d')
    requires b.rows == f.Rows() && d'.backup == Some(b) && ValidRows(f.Rows())
    ensures Get(d'.vol, f.second.path) == f.second.baseline && Get(d'.dur, f.second.path) == Some(f.second.candidate)
    ensures Get(d'.vol, f.first.path) == f.first.baseline && !Recoverable(f.Entries(), pre, d')
  {
    var rows := f.Rows();
    hide SoundRow, Parent, ValidRows;
    assert RolledBackRow(rows, d, d', 1, true);
    assert Get(d'.vol, rows[0].Path()) == StageContent(rows, 0, 0) && Get(d'.vol, rows[1].Path()) == StageContent(rows, 1, 0);
    assert Holds(rows[1], Get(d'.dur, rows[1].Path()));
    assert Lags(rows, d', 1);
    hide Adjacent, RolledBack, Safe, Lags;
    LagIsNotAdjacent(rows, d', 0, 1);
  }

  lemma WorkbookStays(f: Files, actual: Content)
    requires f.Valid() && actual == Some(f.policy.current)
    ensures !Listed(f.Rows(), f.policy.path)
    ensures actual in f.policy.Permitted() && WorkbookFits(f.Rows(), f.policy, actual)
  {
    hide Acceptable, Parent;
  }

  lemma TwoRows(f: Files)
    ensures |f.Rows()| == 2
  {
  }

  lemma CompleteParts(entries: seq<Entry>, pre: Tree, b: Backup)
    requires CompleteFor(entries, pre, b)
    ensures OriginalsComplete(b) && ValidRows(b.rows)
  {
  }

  /** The first rollback is killed at the second event of its first row, which is the second of the list. */
  lemma FirstIsCut(f: Files, d: Disk, d': Disk, to: nat, s: Status, cut: Option<nat>)
    requires f.Valid() && Settled(f.Rows(), d, 2) && RollbackTimes(f.Rows(), d, d', KillAt(22), 15, to, s, cut)
    requires !s.Done? ==> Stopped(KillAt(22), s, to)
    ensures s.Dead? && to == 23 && CutState(f.Rows(), d, d', [0, 1], 1)
  {
    hide CutState, Planned, PrepareTicks, Settled, Files.Valid;
    TwoRows(f);
    FilesPlan(f, d);
    hide Files.Rows;
    if s.Done? {
      KillIsNotPassed(22, 21, 25);
    }
    OnlyKillStops(s, to);
  }

  lemma OnlyKillStops(s: Status, to: nat)
    ensures !s.Done? && Stopped(KillAt(22), s, to) ==> s.Dead? && to == 23 && Cuts(KillAt(22)(to - 1))
  {
  }
}
