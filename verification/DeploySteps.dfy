/** One checked change of a path under the two events that can strike it, and what each of its disks keeps. */
module DeploySteps {
  import opened Paths
  import opened DeployModel
  import opened DeployFacts

  /** A change: the content that is looked for and the one that replaces it. */
  datatype Change = Change(path: Path, expected: Content, content: Content)

  function Restoring(row: Row): Change {
    Change(row.Path(), row.After(), row.Before())
  }

  function Applying(row: Row): Change {
    Change(row.Path(), row.Before(), row.After())
  }

  /** Whether the change is made: the program lives and finds what it looks for. */
  predicate Goes(d: Disk, c: Change, e1: Event) {
    StatusOf(e1).Done? && Get(AfterEvent(d, e1).vol, c.path) == c.expected
  }

  function Renamed(d: Disk, c: Change, e1: Event): Disk {
    var d1 := AfterEvent(d, e1);
    d1.(vol := Put(d1.vol, c.path, c.content))
  }

  /** The disks of a change: after the first event, the rename, the second event and the flush of the directory. */
  function Steps(d: Disk, c: Change, e1: Event, e2: Event): (r: seq<Disk>)
    ensures |r| > 0
  {
    if !Goes(d, c, e1) then [AfterEvent(d, e1)]
    else
      var d3 := AfterEvent(Renamed(d, c, e1), e2);
      [AfterEvent(d, e1), Renamed(d, c, e1), d3] + if StatusOf(e2).Done? then [FlushDirectory(d3, Parent(c.path))] else []
  }

  function Last(s: seq<Disk>): Disk
    requires |s| > 0
  {
    s[|s| - 1]
  }

  function Result(d: Disk, c: Change, e1: Event, e2: Event): Status {
    if Goes(d, c, e1) then StatusOf(e2) else if StatusOf(e1).Done? then Raised else StatusOf(e1)
  }

  ghost predicate CalmPair(rows: seq<Row>, e1: Event, e2: Event) {
    CalmEvent(rows, e1) && CalmEvent(rows, e2)
  }

  lemma CalmAt(rows: seq<Row>, schedule: nat -> Event, t: nat)
    requires Calm(rows, schedule)
    ensures CalmPair(rows, schedule(t), schedule(t + 1))
  {
  }

  /** How a change ends. */
  lemma StepsEnd(d: Disk, c: Change, schedule: nat -> Event, t: nat)
    ensures var e1, e2 := schedule(t), schedule(t + 1); var s := Result(d, c, e1, e2);
      && (s.Done? ==> Goes(d, c, e1) && !Cuts(e2) && PassedIn(schedule, t, t + 2))
      && (s.Dead? ==> Stopped(schedule, s, if Goes(d, c, e1) then t + 2 else t + 1))
      && (s.Raised? && SparesPath(c.path, e1) && Get(d.vol, c.path) == c.expected ==>
            Stopped(schedule, s, if Goes(d, c, e1) then t + 2 else t + 1))
      && (Goes(d, c, e1) && Cuts(e2) ==> IsCut(d, c, e1, e2) && !s.Done?)
  {
  }

  lemma CutIs(d: Disk, c: Change, e1: Event, e2: Event)
    ensures IsCut(d, c, e1, e2) <==> Goes(d, c, e1) && Cuts(e2)
  {
  }

  lemma SparesAt(p: Path, schedule: nat -> Event, t: nat)
    requires Untouched(p, schedule)
    ensures SparesPath(p, schedule(t)) && SparesPath(p, schedule(t + 1))
  {
  }

  lemma UnlistedPath(rows: seq<Row>, i: nat, p: Path)
    requires i < |rows| && !Listed(rows, p)
    ensures p != rows[i].Path()
  {
  }

  lemma RestoredSettles(rows: seq<Row>, d: Disk, i: nat)
    requires ValidRows(rows) && i < |rows| && !rows[i].action.Skip? && Between(rows, d, i) && RestoredRow(rows[i], d)
    ensures Settled(rows, d, i)
  {
    hide ValidRows, Between, Settled;
    RowSettles(rows, d, i, false);
  }

  lemma StepsBackup(d: Disk, c: Change, e1: Event, e2: Event)
    ensures forall j :: 0 <= j < |Steps(d, c, e1, e2)| ==> Steps(d, c, e1, e2)[j].backup == d.backup
  {
  }

  /** A change that completes holds in memory and durably. */
  lemma StepsHold(d: Disk, c: Change, e1: Event, e2: Event)
    requires SparesPath(c.path, e1) && SparesPath(c.path, e2) && Result(d, c, e1, e2).Done?
    ensures var r := Last(Steps(d, c, e1, e2)); Get(r.vol, c.path) == c.content && Get(r.dur, c.path) == c.content
  {
  }

  lemma StepsHoldAt(d: Disk, c: Change, schedule: nat -> Event, t: nat)
    ensures Untouched(c.path, schedule) && Result(d, c, schedule(t), schedule(t + 1)).Done? ==>
              var r := Last(Steps(d, c, schedule(t), schedule(t + 1))); Get(r.vol, c.path) == c.content && Get(r.dur, c.path) == c.content
  {
    hide Steps, Result;
    if Untouched(c.path, schedule) && Result(d, c, schedule(t), schedule(t + 1)).Done? {
      SparesAt(c.path, schedule, t);
      StepsHold(d, c, schedule(t), schedule(t + 1));
    }
  }

  lemma StepsSpare(d: Disk, c: Change, e1: Event, e2: Event, p: Path)
    requires SparesPath(p, e1) && SparesPath(p, e2) && p != c.path
    requires !Result(d, c, e1, e2).Dead? || (!e1.PowerLoss? && !e2.PowerLoss?)
    ensures Get(Last(Steps(d, c, e1, e2)).vol, p) == Get(d.vol, p)
  {
  }

  lemma StepsSafe(rows: seq<Row>, d: Disk, i: nat, c: Change, e1: Event, e2: Event)
    requires ValidRows(rows) && i < |rows| && c.path == rows[i].Path() && Holds(rows[i], c.content)
    requires CalmPair(rows, e1, e2) && Safe(rows, d)
    ensures forall j :: 0 <= j < |Steps(d, c, e1, e2)| ==> Safe(rows, Steps(d, c, e1, e2)[j])
  {
    hide Safe, ValidRows, Merged, Put;
    EventKeepsSafe(rows, d, e1);
    RenameKeeps(rows, AfterEvent(d, e1), i, c.content);
    EventKeepsSafe(rows, Renamed(d, c, e1), e2);
    FlushKeepsSafe(rows, AfterEvent(Renamed(d, c, e1), e2), Parent(c.path));
  }

  lemma StepsBetween(rows: seq<Row>, d: Disk, i: nat, c: Change, e1: Event, e2: Event)
    requires ValidRows(rows) && i < |rows| && c.path == rows[i].Path() && Holds(rows[i], c.content)
    requires CalmPair(rows, e1, e2) && Between(rows, d, i)
    ensures forall j :: 0 <= j < |Steps(d, c, e1, e2)| ==> Between(rows, Steps(d, c, e1, e2)[j], i)
  {
    hide Between, ValidRows, Merged, Put;
    EventKeepsBetween(rows, d, e1, i);
    RenameKeeps(rows, AfterEvent(d, e1), i, c.content);
    EventKeepsBetween(rows, Renamed(d, c, e1), e2, i);
    FlushKeepsBetween(rows, AfterEvent(Renamed(d, c, e1), e2), Parent(c.path), i);
  }

  lemma RecordedSteps(rows: seq<Row>, h: seq<Disk>, steps: seq<Disk>)
    ensures (forall j :: 0 <= j < |steps| ==> Safe(rows, steps[j])) ==> AllSafe(rows, h + steps, |h|)
    ensures (forall j :: 0 <= j < |steps| ==> Adjacent(rows, steps[j])) ==> AllAdjacent(rows, h + steps, |h|)
  {
    hide Safe, Adjacent;
  }

  lemma BetweenSteps(rows: seq<Row>, steps: seq<Disk>, i: nat)
    requires i < |rows| && forall j :: 0 <= j < |steps| ==> Between(rows, steps[j], i)
    ensures forall j :: 0 <= j < |steps| ==> Adjacent(rows, steps[j])
  {
    hide Between;
  }

  /** The facts about safety and stages, for a history. */
  lemma StepsKeep(rows: seq<Row>, d: Disk, h: seq<Disk>, i: nat, c: Change, e1: Event, e2: Event, safe: bool, ready: bool)
    requires ValidRows(rows) && i < |rows| && c.path == rows[i].Path() && Holds(rows[i], c.content) && CalmPair(rows, e1, e2)
    requires (safe ==> Safe(rows, d)) && (ready ==> Between(rows, d, i))
    ensures var steps := Steps(d, c, e1, e2);
      && (safe ==> Safe(rows, Last(steps)) && AllSafe(rows, h + steps, |h|))
      && (ready ==> Between(rows, Last(steps), i) && Adjacent(rows, Last(steps)) && AllAdjacent(rows, h + steps, |h|))
  {
    hide Safe, Between, Adjacent, Steps, AllSafe, AllAdjacent, CalmPair, ValidRows;
    var steps := Steps(d, c, e1, e2);
    if safe {
      StepsSafe(rows, d, i, c, e1, e2);
    }
    if ready {
      StepsBetween(rows, d, i, c, e1, e2);
      BetweenSteps(rows, steps, i);
    }
    RecordedSteps(rows, h, steps);
  }

  lemma EventKeepsAdjacent(rows: seq<Row>, d: Disk, e: Event)
    requires Adjacent(rows, d) && CalmEvent(rows, e)
    ensures Adjacent(rows, AfterEvent(d, e))
  {
    var k: int :| -1 <= k <= |rows| && Between(rows, d, k);
    EventKeepsBetween(rows, d, e, k);
    hide Between;
  }

  /** A change that is not made leaves the disk to one event. */
  lemma StepsQuiet(rows: seq<Row>, d: Disk, h: seq<Disk>, c: Change, e1: Event, e2: Event)
    requires CalmPair(rows, e1, e2) && Adjacent(rows, d) && !Goes(d, c, e1)
    ensures Adjacent(rows, Last(Steps(d, c, e1, e2))) && AllAdjacent(rows, h + Steps(d, c, e1, e2), |h|)
  {
    hide Adjacent;
    EventKeepsAdjacent(rows, d, e1);
  }

  // ----- Applying -----

  lemma RenameApplies(rows: seq<Row>, d: Disk, i: nat)
    requires ValidRows(rows) && i < |rows| && !rows[i].action.Skip? && Clean(rows, d)
    ensures Clean(rows, d.(vol := Put(d.vol, rows[i].Path(), rows[i].After())))
  {
    assert rows[i].Valid();
    forall j | 0 <= j < |rows|
      ensures CleanRow(rows[j], d.(vol := Put(d.vol, rows[i].Path(), rows[i].After())))
    {
      assert CleanRow(rows[j], d);
    }
  }

  /** However applying a row ends, what is visible and restored stays durable. */
  lemma AppliesClean(rows: seq<Row>, d: Disk, i: nat, e1: Event, e2: Event)
    requires ValidRows(rows) && i < |rows| && !rows[i].action.Skip? && CalmPair(rows, e1, e2) && Clean(rows, d)
    ensures Clean(rows, Last(Steps(d, Applying(rows[i]), e1, e2)))
  {
    var c := Applying(rows[i]);
    hide Clean, ValidRows, Merged, Put;
    EventKeepsClean(rows, d, e1);
    RenameApplies(rows, AfterEvent(d, e1), i);
    EventKeepsClean(rows, Renamed(d, c, e1), e2);
    FlushKeepsClean(rows, AfterEvent(Renamed(d, c, e1), e2), Parent(c.path));
  }

  // ----- Restoring -----

  predicate RestoredRow(row: Row, d: Disk) {
    Get(d.vol, row.Path()) == row.Before() && Get(d.dur, row.Path()) == row.Before()
  }

  predicate OthersSince(rows: seq<Row>, d: Disk, d': Disk, i: nat, dirs: set<Path>, noFlush: bool) {
    forall j :: 0 <= j < |rows| && j != i ==> LeftRow(rows[j], d, d', dirs, noFlush)
  }

  /** A change that is made, but ends before its flush while the machine goes on. */
  predicate IsCut(d: Disk, c: Change, e1: Event, e2: Event) {
    Goes(d, c, e1) && Cuts(e2)
  }

  /** Until it is flushed, a restored row is not clean. */
  lemma RenamedRowIsUnclean(rows: seq<Row>, d: Disk, i: nat)
    requires ValidRows(rows) && i < |rows| && !rows[i].action.Skip? && Settled(rows, d, i + 1)
    ensures !CleanRow(rows[i], d.(vol := Put(d.vol, rows[i].Path(), rows[i].Before())))
  {
    assert rows[i].Valid();
    assert Get(d.dur, rows[i].Path()) == StageContent(rows, i, i + 1);
  }

  lemma RowRestores(rows: seq<Row>, d: Disk, i: nat, e1: Event, e2: Event, j: nat, noFlush: bool)
    requires ValidRows(rows) && i < |rows| && j < |rows| && j != i && CalmPair(rows, e1, e2)
    requires noFlush ==> !e1.Writeback? && !e2.Writeback?
    requires Result(d, Restoring(rows[i]), e1, e2).Done? || IsCut(d, Restoring(rows[i]), e1, e2)
    ensures LeftRow(rows[j], d, Last(Steps(d, Restoring(rows[i]), e1, e2)), {Parent(rows[i].Path())}, noFlush)
  {
    assert rows[i].Path() != rows[j].Path();
    assert CalmEvent(rows, e1) && CalmEvent(rows, e2) && Listed(rows, rows[j].Path());
  }

  /** A restored row leaves the other rows to the system. */
  lemma RestoresOthers(rows: seq<Row>, d: Disk, i: nat, e1: Event, e2: Event, noFlush: bool)
    requires ValidRows(rows) && i < |rows| && CalmPair(rows, e1, e2)
    requires noFlush ==> !e1.Writeback? && !e2.Writeback?
    requires Result(d, Restoring(rows[i]), e1, e2).Done? || IsCut(d, Restoring(rows[i]), e1, e2)
    ensures OthersSince(rows, d, Last(Steps(d, Restoring(rows[i]), e1, e2)), i, {Parent(rows[i].Path())}, noFlush)
  {
    hide ValidRows, LeftRow, Steps, Result, IsCut, CalmPair, Row.Path, Parent;
    forall j | 0 <= j < |rows| && j != i
      ensures LeftRow(rows[j], d, Last(Steps(d, Restoring(rows[i]), e1, e2)), {Parent(rows[i].Path())}, noFlush)
    {
      RowRestores(rows, d, i, e1, e2, j, noFlush);
    }
  }

  /** The row of a change that is cut holds its baseline in memory and on disk what it held before. */
  predicate CutRow(row: Row, d: Disk, d': Disk) {
    && Get(d.vol, row.Path()) == row.After() && Get(d'.vol, row.Path()) == row.Before()
    && (Get(d'.dur, row.Path()) == Get(d.dur, row.Path()) || Get(d'.dur, row.Path()) == row.After())
  }

  lemma RestoreIsCut(rows: seq<Row>, d: Disk, i: nat, e1: Event, e2: Event)
    requires i < |rows| && CalmPair(rows, e1, e2) && IsCut(d, Restoring(rows[i]), e1, e2)
    ensures CutRow(rows[i], d, Last(Steps(d, Restoring(rows[i]), e1, e2)))
  {
    assert Listed(rows, rows[i].Path());
  }

  /** A restored row keeps the disk clean unless it is cut. */
  lemma RestoresClean(rows: seq<Row>, d: Disk, i: nat, e1: Event, e2: Event)
    requires ValidRows(rows) && i < |rows| && CalmPair(rows, e1, e2) && Clean(rows, d) && !IsCut(d, Restoring(rows[i]), e1, e2)
    ensures Clean(rows, Last(Steps(d, Restoring(rows[i]), e1, e2)))
  {
    var c := Restoring(rows[i]);
    EventKeepsClean(rows, d, e1);
    if Goes(d, c, e1) {
      if e2.PowerLoss? {
        assert Last(Steps(d, c, e1, e2)).vol == Last(Steps(d, c, e1, e2)).dur;
      } else {
        hide Clean;
        assert StatusOf(e2).Done?;
        CleanAfterRestore(rows, AfterEvent(d, e1), i, e2);
      }
    }
  }

  lemma CleanAfterRestore(rows: seq<Row>, d: Disk, i: nat, e2: Event)
    requires ValidRows(rows) && i < |rows| && CalmEvent(rows, e2) && Clean(rows, d) && StatusOf(e2).Done?
    ensures Clean(rows, FlushDirectory(AfterEvent(d.(vol := Put(d.vol, rows[i].Path(), rows[i].Before())), e2), Parent(rows[i].Path())))
  {
    var d' := FlushDirectory(AfterEvent(d.(vol := Put(d.vol, rows[i].Path(), rows[i].Before())), e2), Parent(rows[i].Path()));
    forall j | 0 <= j < |rows|
      ensures CleanRow(rows[j], d')
    {
      assert CleanRow(rows[j], d) && Listed(rows, rows[j].Path());
      assert j != i ==> rows[i].Path() != rows[j].Path();
    }
  }

  /** What restoring a row does to it and to the others. */
  lemma RestoreLeaves(rows: seq<Row>, d: Disk, i: nat, schedule: nat -> Event, t: nat, noFlush: bool)
    requires ValidRows(rows) && i < |rows| && Calm(rows, schedule) && noFlush == NoFlush(schedule)
    ensures var e1, e2 := schedule(t), schedule(t + 1); var c := Restoring(rows[i]); var r := Last(Steps(d, c, e1, e2));
      && (Result(d, c, e1, e2).Done? || IsCut(d, c, e1, e2) ==> OthersSince(rows, d, r, i, {Parent(rows[i].Path())}, noFlush))
      && (Result(d, c, e1, e2).Done? ==> RestoredRow(rows[i], r))
      && (IsCut(d, c, e1, e2) ==> CutRow(rows[i], d, r))
      && (Clean(rows, d) && !IsCut(d, c, e1, e2) ==> Clean(rows, r))
  {
    var e1, e2 := schedule(t), schedule(t + 1);
    var c := Restoring(rows[i]);
    CalmAt(rows, schedule, t);
    assert noFlush ==> !e1.Writeback? && !e2.Writeback?;
    CalmIsUntouched(rows, schedule, i);
    assert SparesPath(c.path, e1) && SparesPath(c.path, e2);
    hide Calm, NoFlush, Untouched, ValidRows, Steps, CalmPair, IsCut, Clean, CutRow, OthersSince, Result;
    if Result(d, c, e1, e2).Done? || IsCut(d, c, e1, e2) {
      RestoresOthers(rows, d, i, e1, e2, noFlush);
    }
    if Result(d, c, e1, e2).Done? {
      StepsHold(d, c, e1, e2);
    }
    if IsCut(d, c, e1, e2) {
      RestoreIsCut(rows, d, i, e1, e2);
    } else if Clean(rows, d) {
      RestoresClean(rows, d, i, e1, e2);
    }
  }

  /**
   What restoring a row leaves: the row is restored or cut, the others are left to the system. If the
   row is renamed, that shows beside one that lags; if not, the disk stays at the steps of a deployment.
   */
  ghost predicate RowRestored(rows: seq<Row>, i: nat, d: Disk, d': Disk, h: seq<Disk>, from: nat, noFlush: bool, renamed: bool,
                              s: Status, cut: bool)
    requires i < |rows|
  {
    && (!renamed && Adjacent(rows, d) ==> Adjacent(rows, d') && AllAdjacent(rows, h, from))
    && (renamed && noFlush ==> LagShows(rows, d, i, h, from))
    && (s.Done? || cut ==> OthersSince(rows, d, d', i, {Parent(rows[i].Path())}, noFlush))
    && (s.Done? ==> RestoredRow(rows[i], d')) && (cut ==> CutRow(rows[i], d, d'))
    && (Clean(rows, d) && !cut ==> Clean(rows, d'))
  }

  /** No single step of a deployment is left as soon as a row is restored before one that lags. */
  ghost predicate LagShows(rows: seq<Row>, d: Disk, i: nat, h: seq<Disk>, from: nat) {
    forall m :: Lags(rows, d, m) && i < m ==> !AllAdjacent(rows, h, from)
  }

  lemma StepsShowLag(rows: seq<Row>, d: Disk, h: seq<Disk>, i: nat, schedule: nat -> Event, t: nat)
    requires ValidRows(rows) && i < |rows| && !rows[i].action.Skip? && Calm(rows, schedule) && NoFlush(schedule)
    requires Goes(d, Restoring(rows[i]), schedule(t))
    ensures LagShows(rows, d, i, h + Steps(d, Restoring(rows[i]), schedule(t), schedule(t + 1)), |h|)
  {
    var steps := Steps(d, Restoring(rows[i]), schedule(t), schedule(t + 1));
    hide Lags, Adjacent, Steps, ValidRows;
    CalmAt(rows, schedule, t);
    forall m | Lags(rows, d, m) && i < m
      ensures !AllAdjacent(rows, h + steps, |h|)
    {
      RestoresBesideLag(rows, d, i, schedule(t), schedule(t + 1), m);
      assert (h + steps)[|h| + 1] == steps[1];
    }
  }

  /** Beside a later row that lags, a restored row brings the disk to no step of a deployment. */
  lemma RestoresBesideLag(rows: seq<Row>, d: Disk, i: nat, e1: Event, e2: Event, m: nat)
    requires ValidRows(rows) && Lags(rows, d, m) && i < m && !rows[i].action.Skip?
    requires CalmPair(rows, e1, e2) && !e1.Writeback? && Goes(d, Restoring(rows[i]), e1)
    ensures |Steps(d, Restoring(rows[i]), e1, e2)| > 1 && !Adjacent(rows, Steps(d, Restoring(rows[i]), e1, e2)[1])
  {
    var d2 := Renamed(d, Restoring(rows[i]), e1);
    hide Adjacent;
    assert rows[i].Path() != rows[m].Path() && Listed(rows, rows[m].Path());
    LagIsNotAdjacent(rows, d2, i, m);
  }
}
