/** The properties of disks, histories and schedules that deployments and rollbacks are proved to have. */
module DeployFacts {
  import opened Options
  import opened Paths
  import opened DeployModel

  /** A change that a program made to the target. */
  datatype Write = Write(path: Path, before: Content, after: Content)

  ghost predicate Applies(rows: seq<Row>, w: Write) {
    exists i :: 0 <= i < |rows| && !rows[i].action.Skip? && w == Write(rows[i].Path(), rows[i].Before(), rows[i].After())
  }

  ghost predicate Restores(rows: seq<Row>, w: Write) {
    exists i :: 0 <= i < |rows| && !rows[i].action.Skip? && w == Write(rows[i].Path(), rows[i].After(), rows[i].Before())
  }

  // ----- The protected workbook -----

  /** The protected workbook: its path and the reviewed hashes. A migration permits the previous one too. */
  datatype Policy = Policy(path: Path, current: Hash, previous: Option<Hash>) {
    function Permitted(): set<Content> {
      if previous.Some? then {Some(current), previous} else {Some(current)}
    }
  }

  /** The workbook content that a completed rollback checks for. */
  function ExpectedWorkbook(rows: seq<Row>, policy: Policy): Content {
    if rows == [] then Some(policy.current)
    else
      var last := rows[|rows| - 1];
      if last.Path() == policy.path && !last.action.Skip? then last.entry.baseline
      else ExpectedWorkbook(rows[..|rows| - 1], policy)
  }

  /** The workbook is the reviewed one unless the deployment replaces it. */
  predicate WorkbookFits(rows: seq<Row>, policy: Policy, actual: Content) {
    && (forall i :: 0 <= i < |rows| && rows[i].Path() == policy.path && rows[i].action.Skip? ==> rows[i].After() == Some(policy.current))
    && (!Listed(rows, policy.path) ==> actual == Some(policy.current))
  }

  lemma {:induction false} RestoredWorkbookIsExpected(rows: seq<Row>, policy: Policy, actual: Content, t: Tree)
    requires ValidRows(rows) && WorkbookFits(rows, policy, actual) && AtStage(rows, t, 0)
    requires !Listed(rows, policy.path) ==> Get(t, policy.path) == actual
    ensures Get(t, policy.path) == ExpectedWorkbook(rows, policy)
  {
    if rows != [] {
      var n := |rows| - 1;
      var rest := rows[..n];
      assert rows[n].Valid();
      if rows[n].Path() == policy.path && !rows[n].action.Skip? {
        assert Get(t, rows[n].Path()) == rows[n].Before();
      } else if rows[n].Path() == policy.path {
        UnlistedExpects(rest, policy);
        assert Get(t, rows[n].Path()) == rows[n].After();
      } else {
        assert forall i :: 0 <= i < n ==> rest[i] == rows[i] && rows[i].Valid();
        assert Listed(rest, policy.path) <==> Listed(rows, policy.path);
        assert AtStage(rest, t, 0);
        RestoredWorkbookIsExpected(rest, policy, actual, t);
      }
    }
  }

  lemma {:induction false} UnlistedExpects(rows: seq<Row>, policy: Policy)
    requires forall i :: 0 <= i < |rows| ==> rows[i].Path() != policy.path
    ensures ExpectedWorkbook(rows, policy) == Some(policy.current)
  {
    if rows != [] {
      UnlistedExpects(rows[..|rows| - 1], policy);
    }
  }

  // ----- Schedules -----

  ghost predicate NoFlush(schedule: nat -> Event) {
    forall t: nat :: !schedule(t).Writeback?
  }

  ghost predicate NoPowerLoss(schedule: nat -> Event) {
    forall t: nat :: !schedule(t).PowerLoss?
  }

  ghost predicate Untouched(p: Path, schedule: nat -> Event) {
    forall t: nat :: SparesPath(p, schedule(t))
  }

  predicate SparesPath(p: Path, e: Event) {
    e.Foreign? ==> e.path != p
  }

  /** An event that ends a program but not the machine. */
  predicate Cuts(e: Event) {
    e.Kill? || e.Fail?
  }

  /** The last event ended the program with a status. */
  predicate Stopped(schedule: nat -> Event, s: Status, clock: nat) {
    clock > 0 && StatusOf(schedule(clock - 1)) == s
  }

  /** Some event of a window ends the program. */
  ghost predicate DisturbedIn(schedule: nat -> Event, from: nat, to: nat) {
    exists t: nat :: from <= t < to && !StatusOf(schedule(t)).Done?
  }

  /** Two events of a window do. */
  ghost predicate TwiceIn(schedule: nat -> Event, from: nat, to: nat) {
    exists t: nat, u: nat :: from <= t < u < to && !StatusOf(schedule(t)).Done? && !StatusOf(schedule(u)).Done?
  }

  lemma TwiceStopped(schedule: nat -> Event, s: Status, from: nat, c: nat, s': Status, to: nat)
    requires from < c < to && !s.Done? && !s'.Done? && Stopped(schedule, s, c) && Stopped(schedule, s', to)
    ensures TwiceIn(schedule, from, to)
  {
    var t: nat, u: nat := c - 1, to - 1;
    assert from <= t < u < to;
  }

  lemma TwiceEarlier(schedule: nat -> Event, from: nat, to: nat, from': nat)
    requires from' <= from
    ensures TwiceIn(schedule, from, to) ==> TwiceIn(schedule, from', to)
  {
  }

  /** No event of a window ends the program. */
  ghost predicate PassedIn(schedule: nat -> Event, from: nat, to: nat) {
    forall t: nat :: from <= t < to ==> StatusOf(schedule(t)).Done?
  }

  lemma PassedNothing(schedule: nat -> Event, from: nat)
    ensures PassedIn(schedule, from, from)
  {
  }

  lemma PassedAppend(schedule: nat -> Event, from: nat, mid: nat, to: nat)
    requires PassedIn(schedule, from, mid) && PassedIn(schedule, mid, to)
    ensures PassedIn(schedule, from, to)
  {
  }

  lemma PassedIsNotCut(schedule: nat -> Event, from: nat, to: nat)
    requires PassedIn(schedule, from, to)
    ensures to > from ==> !Cuts(schedule(to - 1))
  {
  }

  /** Some event after the first of a window cuts a change short. */
  ghost predicate CutIn(schedule: nat -> Event, from: nat, to: nat) {
    exists t: nat :: from < t < to && Cuts(schedule(t))
  }

  lemma StoppedDisturbs(schedule: nat -> Event, s: Status, from: nat, clock: nat, to: nat)
    requires Stopped(schedule, s, clock) && !s.Done? && from < clock <= to
    ensures DisturbedIn(schedule, from, to)
  {
    assert !StatusOf(schedule(clock - 1)).Done?;
  }

  lemma CutWiden(schedule: nat -> Event, from: nat, to: nat, from': nat, to': nat)
    requires CutIn(schedule, from, to) && from' <= from && to <= to'
    ensures CutIn(schedule, from', to')
  {
  }

  lemma CutHappened(schedule: nat -> Event, from: nat, clock: nat)
    requires from + 1 < clock && Cuts(schedule(clock - 1))
    ensures CutIn(schedule, from, clock)
  {
  }

  lemma CalmIsUntouched(rows: seq<Row>, schedule: nat -> Event, i: nat)
    requires i < |rows|
    ensures Calm(rows, schedule) ==> Untouched(rows[i].Path(), schedule)
  {
    if Calm(rows, schedule) {
      forall t: nat
        ensures SparesPath(rows[i].Path(), schedule(t))
      {
        assert CalmEvent(rows, schedule(t));
      }
    }
  }

  // ----- What only the system did -----

  /** Only the system acted on a path: nothing visible changed, its entry may have been flushed. */
  predicate SystemOnlyRow(row: Row, d: Disk, d': Disk) {
    && Get(d'.vol, row.Path()) == Get(d.vol, row.Path())
    && (Get(d'.dur, row.Path()) == Get(d.dur, row.Path()) || Get(d'.dur, row.Path()) == Get(d.vol, row.Path()))
  }

  /** The same; and if the system does not flush by itself, the entry was flushed with its directory or not at all. */
  predicate LeftRow(row: Row, d: Disk, d': Disk, dirs: set<Path>, noFlush: bool) {
    SystemOnlyRow(row, d, d') && (noFlush && Parent(row.Path()) !in dirs ==> Get(d'.dur, row.Path()) == Get(d.dur, row.Path()))
  }

  predicate UnchangedSince(rows: seq<Row>, d: Disk, d': Disk, dirs: set<Path>, noFlush: bool) {
    forall i :: 0 <= i < |rows| ==> LeftRow(rows[i], d, d', dirs, noFlush)
  }

  lemma UnchangedByNothing(rows: seq<Row>, d: Disk, dirs: set<Path>, noFlush: bool)
    ensures UnchangedSince(rows, d, d, dirs, noFlush)
  {
  }

  lemma UnchangedByEvent(rows: seq<Row>, d: Disk, e: Event, dirs: set<Path>, noFlush: bool)
    requires StatusOf(e).Done? && CalmEvent(rows, e) && (noFlush ==> !e.Writeback?)
    ensures UnchangedSince(rows, d, AfterEvent(d, e), dirs, noFlush)
  {
    forall i | 0 <= i < |rows|
      ensures LeftRow(rows[i], d, AfterEvent(d, e), dirs, noFlush)
    {
    }
  }

  lemma UnchangedByFlush(rows: seq<Row>, d: Disk, dir: Path, dirs: set<Path>, noFlush: bool)
    requires dir in dirs
    ensures UnchangedSince(rows, d, FlushDirectory(d, dir), dirs, noFlush)
  {
  }

  lemma LeftRowTransitive(row: Row, d0: Disk, d1: Disk, d2: Disk, a: set<Path>, b: set<Path>, dirs: set<Path>, noFlush: bool)
    requires LeftRow(row, d0, d1, a, noFlush) && LeftRow(row, d1, d2, b, noFlush) && a <= dirs && b <= dirs
    ensures LeftRow(row, d0, d2, dirs, noFlush)
  {
  }

  lemma UnchangedTransitive(rows: seq<Row>, d0: Disk, d1: Disk, d2: Disk, a: set<Path>, b: set<Path>, dirs: set<Path>, noFlush: bool)
    requires UnchangedSince(rows, d0, d1, a, noFlush) && UnchangedSince(rows, d1, d2, b, noFlush) && a <= dirs && b <= dirs
    ensures UnchangedSince(rows, d0, d2, dirs, noFlush)
  {
    forall i | 0 <= i < |rows|
      ensures LeftRow(rows[i], d0, d2, dirs, noFlush)
    {
      LeftRowTransitive(rows[i], d0, d1, d2, a, b, dirs, noFlush);
    }
  }

  /** The entries of some directories have been flushed. */
  predicate Flushed(rows: seq<Row>, d: Disk, dirs: set<Path>) {
    forall i :: 0 <= i < |rows| && Parent(rows[i].Path()) in dirs ==> Get(d.dur, rows[i].Path()) == Get(d.vol, rows[i].Path())
  }

  lemma FlushedByFlush(rows: seq<Row>, d: Disk, dirs: set<Path>, dir: Path)
    requires Flushed(rows, d, dirs)
    ensures Flushed(rows, FlushDirectory(d, dir), dirs + {dir})
  {
  }

  lemma FlushedStays(rows: seq<Row>, d: Disk, d': Disk, dirs: set<Path>, noFlush: bool)
    requires Flushed(rows, d, dirs) && UnchangedSince(rows, d, d', {}, noFlush)
    ensures Flushed(rows, d', dirs)
  {
    forall i | 0 <= i < |rows| && Parent(rows[i].Path()) in dirs
      ensures Get(d'.dur, rows[i].Path()) == Get(d'.vol, rows[i].Path())
    {
      assert LeftRow(rows[i], d, d', {}, noFlush);
    }
  }

  lemma NothingFlushed(rows: seq<Row>, d: Disk)
    ensures Flushed(rows, d, {})
  {
  }

  lemma FlushedDisk(d: Disk, dir: Path)
    ensures FlushDirectory(d, dir).backup == d.backup && FlushDirectory(d, dir).vol == d.vol
  {
  }

  // ----- Histories -----

  ghost predicate KeptByEvents(inv: Disk -> bool, schedule: nat -> Event) {
    forall d, t: nat :: inv(d) ==> inv(AfterEvent(d, schedule(t)))
  }

  ghost predicate KeptByFlushes(inv: Disk -> bool) {
    forall d, dir :: inv(d) ==> inv(FlushDirectory(d, dir))
  }

  ghost predicate Recorded(history: seq<Disk>, from: nat, inv: Disk -> bool) {
    forall j :: from <= j < |history| ==> inv(history[j])
  }

  predicate KeepsBackup(history: seq<Disk>, from: nat, backup: Option<Backup>) {
    forall j :: from <= j < |history| ==> history[j].backup == backup
  }

  ghost predicate AllSafe(rows: seq<Row>, history: seq<Disk>, from: nat) {
    forall j :: from <= j < |history| ==> Safe(rows, history[j])
  }

  ghost predicate AllAdjacent(rows: seq<Row>, history: seq<Disk>, from: nat) {
    forall j :: from <= j < |history| ==> Adjacent(rows, history[j])
  }

  lemma NothingRecorded(rows: seq<Row>, h: seq<Disk>)
    ensures AllSafe(rows, h, |h|) && AllAdjacent(rows, h, |h|)
  {
  }

  lemma AllSafeAppend(rows: seq<Row>, h: seq<Disk>, h': seq<Disk>, from: nat)
    requires from <= |h| && h <= h' && AllSafe(rows, h, from) && AllSafe(rows, h', |h|)
    ensures AllSafe(rows, h', from)
  {
  }

  lemma AllAdjacentAppend(rows: seq<Row>, h: seq<Disk>, h': seq<Disk>, from: nat)
    requires from <= |h| && h <= h' && AllAdjacent(rows, h, from) && AllAdjacent(rows, h', |h|)
    ensures AllAdjacent(rows, h', from)
  {
  }

  lemma NotAdjacentStays(rows: seq<Row>, h: seq<Disk>, h': seq<Disk>, from: nat, from': nat)
    requires from' <= from && h <= h' && !AllAdjacent(rows, h, from)
    ensures !AllAdjacent(rows, h', from')
  {
    var j :| from <= j < |h| && !Adjacent(rows, h[j]);
    assert h'[j] == h[j];
  }

  lemma HistoryAppend(rows: seq<Row>, h: seq<Disk>, h': seq<Disk>, from: nat)
    requires from <= |h| && h <= h'
    ensures AllSafe(rows, h, from) && AllSafe(rows, h', |h|) ==> AllSafe(rows, h', from)
    ensures AllAdjacent(rows, h, from) && AllAdjacent(rows, h', |h|) ==> AllAdjacent(rows, h', from)
    ensures !AllAdjacent(rows, h', |h|) ==> !AllAdjacent(rows, h', from)
  {
    hide Safe, Adjacent;
  }

  lemma NothingYet(rows: seq<Row>, h: seq<Disk>, w: seq<Write>, backup: Option<Backup>)
    ensures KeepsBackup(h, |h|, backup) && AppliesOnly(rows, w, |w|) && RestoresOnly(rows, w, |w|) && ChangesOnly(rows, w, |w|)
  {
  }

  lemma BackupKept(h': seq<Disk>, h: seq<Disk>, from: nat, backup: Option<Backup>)
    requires from <= |h| && h <= h' && KeepsBackup(h, from, backup) && KeepsBackup(h', |h|, backup)
    ensures KeepsBackup(h', from, backup)
  {
  }

  /** Only listed rows are written, each from its candidate to its baseline. */
  ghost predicate RestoresOnly(rows: seq<Row>, writes: seq<Write>, from: nat) {
    forall j :: from <= j < |writes| ==> Restores(rows, writes[j])
  }

  /** Only listed rows are written, each from its baseline to its candidate or back. */
  ghost predicate ChangesOnly(rows: seq<Row>, writes: seq<Write>, from: nat) {
    forall j :: from <= j < |writes| ==> Applies(rows, writes[j]) || Restores(rows, writes[j])
  }

  ghost predicate AppliesOnly(rows: seq<Row>, writes: seq<Write>, from: nat) {
    forall j :: from <= j < |writes| ==> Applies(rows, writes[j])
  }

  lemma OneMoreRestores(rows: seq<Row>, i: nat, w: seq<Write>, w': seq<Write>, from: nat)
    requires i < |rows| && !rows[i].action.Skip? && from <= |w| && RestoresOnly(rows, w, from)
    requires w' == w || w' == w + [Write(rows[i].Path(), rows[i].After(), rows[i].Before())]
    ensures RestoresOnly(rows, w', from)
  {
    assert Restores(rows, Write(rows[i].Path(), rows[i].After(), rows[i].Before()));
  }

  lemma OneMoreApplies(rows: seq<Row>, i: nat, w: seq<Write>, w': seq<Write>, from: nat)
    requires i < |rows| && !rows[i].action.Skip? && from <= |w| && AppliesOnly(rows, w, from)
    requires w' == w || w' == w + [Write(rows[i].Path(), rows[i].Before(), rows[i].After())]
    ensures AppliesOnly(rows, w', from)
  {
    assert Applies(rows, Write(rows[i].Path(), rows[i].Before(), rows[i].After()));
  }

  lemma ChangesAppend(rows: seq<Row>, w: seq<Write>, w': seq<Write>, from: nat)
    requires from <= |w| && w <= w' && ChangesOnly(rows, w, from)
    requires AppliesOnly(rows, w', |w|) || RestoresOnly(rows, w', |w|) || ChangesOnly(rows, w', |w|)
    ensures ChangesOnly(rows, w', from)
  {
  }

  // ----- Stages -----

  lemma SkipStages(rows: seq<Row>, t: Tree, a: int, b: int)
    requires 0 <= a <= b <= |rows| && forall j :: a <= j < b ==> rows[j].action.Skip?
    ensures AtStage(rows, t, a) <==> AtStage(rows, t, b)
  {
    assert forall i :: 0 <= i < |rows| ==> StageContent(rows, i, a) == StageContent(rows, i, b);
  }

  lemma SkipSettles(rows: seq<Row>, d: Disk, i: nat)
    requires i < |rows| && rows[i].action.Skip? && Settled(rows, d, i)
    ensures Settled(rows, d, i + 1)
  {
    SkipStages(rows, d.vol, i, i + 1);
    SkipStages(rows, d.dur, i, i + 1);
  }

  /** A row that is restored or applied in both trees settles the two stages around it. */
  lemma RowSettles(rows: seq<Row>, d: Disk, i: nat, forward: bool)
    requires ValidRows(rows) && i < |rows| && !rows[i].action.Skip? && Between(rows, d, i)
    requires var c := if forward then rows[i].After() else rows[i].Before();
      Get(d.vol, rows[i].Path()) == c && Get(d.dur, rows[i].Path()) == c
    ensures Settled(rows, d, if forward then i + 1 else i)
  {
    assert rows[i].Valid() && rows[i].Before() != rows[i].After();
    assert StageContent(rows, i, i) == rows[i].Before() && StageContent(rows, i, i + 1) == rows[i].After();
  }

  lemma SettledIsAdjacent(rows: seq<Row>, d: Disk, k: int)
    requires Settled(rows, d, k) && 0 <= k <= |rows|
    ensures Adjacent(rows, d) && Clean(rows, d) && Between(rows, d, k)
  {
    assert Between(rows, d, k);
    forall i | 0 <= i < |rows|
      ensures CleanRow(rows[i], d)
    {
      assert Get(d.vol, rows[i].Path()) == StageContent(rows, i, k);
      assert Get(d.dur, rows[i].Path()) == StageContent(rows, i, k);
    }
  }

  lemma AdjacentIsSafe(rows: seq<Row>, d: Disk)
    requires Adjacent(rows, d)
    ensures Safe(rows, d)
  {
    var k: int :| -1 <= k <= |rows| && Between(rows, d, k);
    BetweenIsSafe(rows, d, k);
  }

  lemma BetweenIsAdjacent(rows: seq<Row>, d: Disk, i: int)
    requires -1 <= i <= |rows| && Between(rows, d, i)
    ensures Adjacent(rows, d)
  {
  }

  lemma SettledKept(rows: seq<Row>, schedule: nat -> Event, k: int, ready: bool, always: Disk -> bool)
    requires ready ==> Calm(rows, schedule)
    requires forall d :: always(d) <==> (ready ==> Settled(rows, d, k))
    ensures KeptByEvents(always, schedule)
  {
    forall d, t: nat | always(d)
      ensures always(AfterEvent(d, schedule(t)))
    {
      if ready { EventKeepsSettled(rows, d, schedule(t), k); }
    }
  }

  lemma SettledRecorded(rows: seq<Row>, history: seq<Disk>, from: nat, d: Disk, k: int, always: Disk -> bool)
    requires 0 <= k <= |rows| && always(d) && Recorded(history, from, always)
    requires forall x :: always(x) ==> Settled(rows, x, k)
    ensures Settled(rows, d, k) && Adjacent(rows, d) && Clean(rows, d) && AllAdjacent(rows, history, from)
  {
    SettledIsAdjacent(rows, d, k);
    forall j | from <= j < |history|
      ensures Adjacent(rows, history[j])
    {
      SettledIsAdjacent(rows, history[j], k);
    }
  }

  /** A row that was restored in memory only, after it had been applied durably. */
  predicate Lags(rows: seq<Row>, d: Disk, m: nat) {
    && m < |rows| && !rows[m].action.Skip?
    && Get(d.vol, rows[m].Path()) == rows[m].Before() && Get(d.dur, rows[m].Path()) == rows[m].After()
  }

  /** With an earlier row restored beside it, the disk is at no single step of a deployment. */
  lemma LagIsNotAdjacent(rows: seq<Row>, d: Disk, i: nat, m: nat)
    requires ValidRows(rows) && Lags(rows, d, m) && i < m && !rows[i].action.Skip?
    requires Get(d.vol, rows[i].Path()) == rows[i].Before()
    ensures !Adjacent(rows, d)
  {
    forall k: int
      ensures !Between(rows, d, k)
    {
      LagIsNotBetween(rows, d, i, m, k);
    }
  }

  lemma LagIsNotBetween(rows: seq<Row>, d: Disk, i: nat, m: nat, k: int)
    requires ValidRows(rows) && Lags(rows, d, m) && i < m && !rows[i].action.Skip?
    requires Get(d.vol, rows[i].Path()) == rows[i].Before()
    ensures !Between(rows, d, k)
  {
    assert rows[i].Valid() && rows[m].Valid();
    assert AtStage(rows, d.vol, k) || AtStage(rows, d.vol, k + 1) ==> k <= i;
    assert AtStage(rows, d.dur, k) || AtStage(rows, d.dur, k + 1) ==> m <= k;
  }
}
