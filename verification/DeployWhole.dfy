/** From a manifest to a plan, and what a whole deployment with its rollbacks keeps. */
module DeployWhole {
  import opened Options
  import opened Paths
  import opened DeployModel
  import opened DeployFacts
  import opened DeployPlan

  // ----- From a manifest to a plan -----

  predicate DistinctEntries(entries: seq<Entry>) {
    forall i, j :: 0 <= i < j < |entries| ==> entries[i].path != entries[j].path
  }

  predicate Covers(entries: seq<Entry>, rows: seq<Row>) {
    |rows| == |entries| && forall i :: 0 <= i < |rows| ==> rows[i].entry == entries[i]
  }

  ghost predicate CalmFor(entries: seq<Entry>, schedule: nat -> Event) {
    forall t: nat :: SparesEntries(entries, schedule(t))
  }

  predicate SparesEntries(entries: seq<Entry>, e: Event) {
    e.Foreign? ==> forall i :: 0 <= i < |entries| ==> e.path != entries[i].path
  }

  lemma CalmRows(entries: seq<Entry>, rows: seq<Row>, schedule: nat -> Event)
    requires Covers(entries, rows)
    ensures CalmFor(entries, schedule) ==> Calm(rows, schedule)
  {
    if CalmFor(entries, schedule) {
      forall t: nat
        ensures CalmEvent(rows, schedule(t))
      {
        assert SparesEntries(entries, schedule(t));
      }
    }
  }

  /** What preflight decides about an entry whose path holds a content; nothing if it must refuse. */
  function ChooseAction(entry: Entry, actual: Content): Option<Action> {
    if actual == Some(entry.candidate) then Some(Skip)
    else if actual == entry.baseline then Some(if actual.None? then Add else Replace)
    else None
  }

  lemma ChosenRowIsValid(entry: Entry, actual: Content)
    ensures ChooseAction(entry, actual).Some? ==>
              var row := Row(entry, ChooseAction(entry, actual).value); row.Valid() && row.Before() == actual
  {
  }

  /** An entry whose candidate is staged, and whose path holds its baseline or its candidate. */
  predicate AcceptedEntry(entry: Entry, staged: Tree, actual: Content) {
    Get(staged, entry.path) == Some(entry.candidate) && ChooseAction(entry, actual).Some?
  }

  /** What preflight asks of the staged tree and of the target. */
  predicate Accepted(entries: seq<Entry>, staged: Tree, t: Tree, policy: Policy) {
    && Get(t, policy.path) in policy.Permitted()
    && (policy.path in staged ==> staged[policy.path] == policy.current)
    && AcceptedTo(entries, staged, t, |entries|)
  }

  predicate AcceptedTo(entries: seq<Entry>, staged: Tree, t: Tree, n: nat)
    requires n <= |entries|
  {
    forall i :: 0 <= i < n ==> AcceptedEntry(entries[i], staged, Get(t, entries[i].path))
  }

  lemma AcceptedNext(entries: seq<Entry>, staged: Tree, t: Tree, i: nat)
    requires i < |entries|
    ensures AcceptedTo(entries, staged, t, i + 1) <==> AcceptedTo(entries, staged, t, i) && AcceptedEntry(entries[i], staged, Get(t, entries[i].path))
  {
    hide AcceptedEntry;
  }

  lemma AcceptedSame(entries: seq<Entry>, staged: Tree, pre: Tree, d: Disk)
    requires TargetUntouched(entries, pre, d)
    ensures AcceptedTo(entries, staged, pre, |entries|) <==> AcceptedTo(entries, staged, d.vol, |entries|)
  {
    hide AcceptedEntry;
    forall i | 0 <= i < |entries|
      ensures Get(d.vol, entries[i].path) == Get(pre, entries[i].path)
    {
      UntouchedPath(entries, pre, d, i);
    }
    hide TargetUntouched;
  }

  /** The rows that preflight gives. */
  predicate Chosen(entries: seq<Entry>, t: Tree, rows: seq<Row>, n: nat)
    requires n <= |entries|
  {
    |rows| == n && forall i :: 0 <= i < n ==> ChooseAction(entries[i], Get(t, entries[i].path)) == Some(rows[i].action) && rows[i].entry == entries[i]
  }

  lemma ChosenNext(entries: seq<Entry>, t: Tree, rows: seq<Row>, action: Action)
    requires |rows| < |entries| && Chosen(entries, t, rows, |rows|)
    requires ChooseAction(entries[|rows|], Get(t, entries[|rows|].path)) == Some(action)
    ensures Chosen(entries, t, rows + [Row(entries[|rows|], action)], |rows| + 1)
  {
    hide ChooseAction;
  }

  lemma ChosenIsValid(entries: seq<Entry>, t: Tree, rows: seq<Row>)
    requires DistinctEntries(entries) && Chosen(entries, t, rows, |entries|)
    ensures Covers(entries, rows) && ValidRows(rows)
    ensures forall i :: 0 <= i < |rows| ==> rows[i].Before() == Get(t, rows[i].Path())
  {
    forall i | 0 <= i < |rows|
      ensures rows[i].Valid() && rows[i].Before() == Get(t, rows[i].Path())
    {
      ChosenRowIsValid(entries[i], Get(t, entries[i].path));
    }
  }

  lemma NothingChosen(entries: seq<Entry>, staged: Tree, t: Tree)
    ensures Chosen(entries, t, [], 0) && AcceptedTo(entries, staged, t, 0)
  {
  }

  function ChosenRows(entries: seq<Entry>, t: Tree): seq<Row> {
    seq(|entries|, i requires 0 <= i < |entries| =>
      var action := ChooseAction(entries[i], Get(t, entries[i].path)); Row(entries[i], if action.Some? then action.value else Skip))
  }

  lemma ChosenRowsAre(entries: seq<Entry>, t: Tree, rows: seq<Row>)
    requires Chosen(entries, t, rows, |entries|)
    ensures rows == ChosenRows(entries, t)
  {
    hide ChooseAction;
  }

  /** The directory that is flushed for a path before a deployment: the nearest one that exists. */
  function NearestFolder(folders: set<Path>, p: Path): Path
    decreases |p|
  {
    if p == "" || p in folders then p else NearestFolder(folders, Parent(p))
  }

  function DeployDirs(rows: seq<Row>, folders: set<Path>): set<Path> {
    {""} + set i | 0 <= i < |rows| && !rows[i].action.Skip? :: NearestFolder(folders, Parent(rows[i].Path()))
  }

  // ----- The number of events that a deployment takes -----

  function ReplaceCount(rows: seq<Row>): (n: nat) {
    if rows == [] then 0 else ReplaceCount(rows[..|rows| - 1]) + if rows[|rows| - 1].action.Replace? then 1 else 0
  }

  function ApplyCount(rows: seq<Row>): (n: nat) {
    if rows == [] then 0 else ApplyCount(rows[..|rows| - 1]) + if rows[|rows| - 1].action.Skip? then 1 else 2
  }

  lemma CountNext(rows: seq<Row>, i: nat)
    requires i < |rows|
    ensures ReplaceCount(rows[..i + 1]) == ReplaceCount(rows[..i]) + if rows[i].action.Replace? then 1 else 0
    ensures ApplyCount(rows[..i + 1]) == ApplyCount(rows[..i]) + if rows[i].action.Skip? then 1 else 2
  {
    assert rows[..i + 1][..i] == rows[..i];
  }

  lemma NoCount(rows: seq<Row>)
    ensures ReplaceCount(rows[..0]) == 0 && ApplyCount(rows[..0]) == 0
  {
  }

  lemma {:induction false} CountMonotone(rows: seq<Row>, i: nat)
    requires i <= |rows|
    ensures ReplaceCount(rows[..i]) <= ReplaceCount(rows) && ApplyCount(rows[..i]) <= ApplyCount(rows)
    decreases |rows| - i
  {
    if i < |rows| {
      CountNext(rows, i);
      CountMonotone(rows, i + 1);
    } else {
      assert rows[..i] == rows;
    }
  }

  /** Preflight, flushes and copies. */
  function LeadTicks(rows: seq<Row>, folders: set<Path>): nat {
    1 + |rows| + |DeployDirs(rows, folders)| + ReplaceCount(rows)
  }

  lemma LeadTicksAre(entries: seq<Entry>, rows: seq<Row>, folders: set<Path>)
    requires Covers(entries, rows)
    ensures LeadTicks(rows, folders) == 1 + |entries| + |DeployDirs(rows, folders)| + ReplaceCount(rows)
  {
  }

  lemma LeadAtLeast(entries: seq<Entry>, t: Tree, folders: set<Path>)
    ensures 1 + |entries| <= LeadTicks(ChosenRows(entries, t), folders)
  {
  }

  /** Then one check, the changes and the final checks. */
  function DeployTicks(rows: seq<Row>, folders: set<Path>): nat {
    LeadTicks(rows, folders) + 1 + ApplyCount(rows) + |rows|
  }

  // ----- Before the backup is complete -----

  /** The listed paths hold the contents of a tree, in both trees of a disk. */
  predicate Still(entries: seq<Entry>, pre: Tree, d: Disk) {
    forall i :: 0 <= i < |entries| ==> StillPath(entries[i].path, pre, d)
  }

  predicate StillPath(p: Path, pre: Tree, d: Disk) {
    Get(d.vol, p) == Get(pre, p) && Get(d.dur, p) == Get(pre, p)
  }

  /** Before the backup is complete the target is untouched. */
  predicate TargetUntouched(entries: seq<Entry>, pre: Tree, d: Disk) {
    d.backup.None? && Still(entries, pre, d)
  }

  predicate AllTargetUntouched(entries: seq<Entry>, pre: Tree, history: seq<Disk>, from: nat) {
    forall j :: from <= j < |history| ==> TargetUntouched(entries, pre, history[j])
  }

  lemma NothingUntouched(entries: seq<Entry>, pre: Tree, h: seq<Disk>)
    ensures AllTargetUntouched(entries, pre, h, |h|)
  {
  }

  lemma UntouchedPath(entries: seq<Entry>, pre: Tree, d: Disk, i: nat)
    requires i < |entries| && TargetUntouched(entries, pre, d)
    ensures Get(d.vol, entries[i].path) == Get(pre, entries[i].path)
  {
    assert StillPath(entries[i].path, pre, d);
  }

  lemma AllUntouchedAppend(entries: seq<Entry>, pre: Tree, h: seq<Disk>, h': seq<Disk>, from: nat)
    requires from <= |h| && h <= h' && AllTargetUntouched(entries, pre, h, from) && AllTargetUntouched(entries, pre, h', |h|)
    ensures AllTargetUntouched(entries, pre, h', from)
  {
    hide TargetUntouched;
  }

  lemma UntouchedRecorded(entries: seq<Entry>, pre: Tree, h: seq<Disk>, h': seq<Disk>, from: nat, still: bool, always: Disk -> bool)
    requires from <= |h| && h <= h' && Recorded(h', |h|, always) && (still ==> AllTargetUntouched(entries, pre, h, from))
    requires forall d :: always(d) <==> (still ==> TargetUntouched(entries, pre, d))
    ensures still ==> AllTargetUntouched(entries, pre, h', from)
  {
    hide TargetUntouched;
  }

  lemma ChosenHolds(entries: seq<Entry>, pre: Tree, rows: seq<Row>, d: Disk, i: nat)
    requires TargetUntouched(entries, pre, d) && Chosen(entries, pre, rows, |entries|) && i < |rows|
    ensures rows[i].action.Replace? ==> Get(d.vol, rows[i].Path()) == rows[i].entry.baseline
  {
    UntouchedPath(entries, pre, d, i);
    hide TargetUntouched;
  }

  lemma StillKept(entries: seq<Entry>, pre: Tree, schedule: nat -> Event, still: bool, always: Disk -> bool)
    requires still ==> CalmFor(entries, schedule)
    requires forall d :: always(d) <==> (still ==> TargetUntouched(entries, pre, d))
    ensures KeptByEvents(always, schedule) && KeptByFlushes(always)
  {
    forall d, t: nat | always(d)
      ensures always(AfterEvent(d, schedule(t)))
    {
      if still {
        assert SparesEntries(entries, schedule(t));
        forall i | 0 <= i < |entries|
          ensures StillPath(entries[i].path, pre, AfterEvent(d, schedule(t)))
        {
          assert StillPath(entries[i].path, pre, d);
        }
      }
    }
    forall d, dir | always(d)
      ensures always(FlushDirectory(d, dir))
    {
      if still {
        StillFlushed(entries, pre, d, dir);
      }
    }
  }

  lemma StillFlushed(entries: seq<Entry>, pre: Tree, d: Disk, dir: Path)
    requires TargetUntouched(entries, pre, d)
    ensures TargetUntouched(entries, pre, FlushDirectory(d, dir))
  {
    forall i | 0 <= i < |entries|
      ensures StillPath(entries[i].path, pre, FlushDirectory(d, dir))
    {
      assert StillPath(entries[i].path, pre, d);
    }
  }

  // ----- The backup is complete -----

  /** The backup has every row with its content from before, and the originals. */
  predicate CompleteFor(entries: seq<Entry>, pre: Tree, b: Backup) {
    && Covers(entries, b.rows) && ValidRows(b.rows) && OriginalsComplete(b)
    && forall i :: 0 <= i < |b.rows| ==> b.rows[i].Before() == Get(pre, b.rows[i].Path())
  }

  /** Either the target is untouched, or the backup is complete and the disk is at one step of a deployment. */
  predicate Recoverable(entries: seq<Entry>, pre: Tree, d: Disk) {
    match d.backup
    case None => Still(entries, pre, d)
    case Some(b) => CompleteFor(entries, pre, b) && Adjacent(b.rows, d)
  }

  /** The same without the order of the replacements. */
  predicate Restorable(entries: seq<Entry>, pre: Tree, d: Disk) {
    match d.backup
    case None => Still(entries, pre, d)
    case Some(b) => CompleteFor(entries, pre, b) && Safe(b.rows, d)
  }

  lemma StillIsSettled(entries: seq<Entry>, pre: Tree, b: Backup, d: Disk)
    requires CompleteFor(entries, pre, b) && Still(entries, pre, d)
    ensures Settled(b.rows, d, 0)
  {
    forall i | 0 <= i < |b.rows|
      ensures Get(d.vol, b.rows[i].Path()) == b.rows[i].Before() && Get(d.dur, b.rows[i].Path()) == b.rows[i].Before()
    {
      assert StillPath(entries[i].path, pre, d);
    }
  }

  ghost predicate AllRecoverable(entries: seq<Entry>, pre: Tree, history: seq<Disk>, from: nat) {
    forall j :: from <= j < |history| ==> Recoverable(entries, pre, history[j])
  }

  ghost predicate AllRestorable(entries: seq<Entry>, pre: Tree, history: seq<Disk>, from: nat) {
    forall j :: from <= j < |history| ==> Restorable(entries, pre, history[j])
  }

  lemma StartUntouched(entries: seq<Entry>, pre: Tree, d: Disk, still: bool)
    requires d.backup.None? && (still ==> Still(entries, pre, d))
    ensures still ==> TargetUntouched(entries, pre, d)
  {
  }

  lemma UntouchedRecoverable(entries: seq<Entry>, pre: Tree, history: seq<Disk>, from: nat, d: Disk, still: bool)
    requires still ==> TargetUntouched(entries, pre, d) && AllTargetUntouched(entries, pre, history, from)
    ensures still ==> Recoverable(entries, pre, d) && AllRecoverable(entries, pre, history, from)
  {
  }

  lemma AllRecoverableAppend(entries: seq<Entry>, pre: Tree, h: seq<Disk>, h': seq<Disk>, from: nat)
    requires from <= |h| && h <= h' && AllRecoverable(entries, pre, h, from) && AllRecoverable(entries, pre, h', |h|)
    ensures AllRecoverable(entries, pre, h', from)
  {
  }

  lemma NotRecoverableStays(entries: seq<Entry>, pre: Tree, h: seq<Disk>, h': seq<Disk>, from: nat)
    requires from <= |h| && h <= h' && !AllRecoverable(entries, pre, h, from)
    ensures !AllRecoverable(entries, pre, h', from)
  {
    var j :| from <= j < |h| && !Recoverable(entries, pre, h[j]);
    assert h'[j] == h[j];
  }

  lemma NotAdjacentNotRecoverable(entries: seq<Entry>, pre: Tree, b: Backup, history: seq<Disk>, from: nat, from': nat)
    requires from' <= from && KeepsBackup(history, from, Some(b)) && !AllAdjacent(b.rows, history, from)
    ensures !AllRecoverable(entries, pre, history, from')
  {
    var j :| from <= j < |history| && !Adjacent(b.rows, history[j]);
    assert !Recoverable(entries, pre, history[j]);
  }

  lemma CommittedRecoverable(entries: seq<Entry>, pre: Tree, b: Backup, d: Disk, d': Disk)
    requires TargetUntouched(entries, pre, d) && d' == d.(backup := Some(b))
    requires Covers(entries, b.rows) && ValidRows(b.rows) && OriginalsComplete(b)
    requires forall i :: 0 <= i < |b.rows| ==> b.rows[i].Before() == Get(pre, b.rows[i].Path())
    ensures CompleteFor(entries, pre, b) && Settled(b.rows, d', 0) && Recoverable(entries, pre, d')
  {
    StillIsSettled(entries, pre, b, d);
    SettledIsAdjacent(b.rows, d', 0);
  }

  lemma AdjacentRecoverable(entries: seq<Entry>, pre: Tree, b: Backup, history: seq<Disk>, from: nat, d: Disk)
    requires CompleteFor(entries, pre, b) && KeepsBackup(history, from, Some(b)) && d.backup == Some(b)
    requires Adjacent(b.rows, d) && AllAdjacent(b.rows, history, from)
    ensures Recoverable(entries, pre, d) && AllRecoverable(entries, pre, history, from)
  {
  }

  lemma OneRecoverable(entries: seq<Entry>, pre: Tree, history: seq<Disk>, from: nat, d: Disk)
    requires |history| == from + 1 && history[from] == d && Recoverable(entries, pre, d)
    ensures AllRecoverable(entries, pre, history, from)
  {
  }

  /** A tree has the contents of another one at every listed path. */
  predicate HoldsTree(entries: seq<Entry>, t: Tree, pre: Tree) {
    forall i :: 0 <= i < |entries| ==> Get(t, entries[i].path) == Get(pre, entries[i].path)
  }

  lemma RecoverableIsRestorable(entries: seq<Entry>, pre: Tree, history: seq<Disk>, from: nat, d: Disk)
    requires Recoverable(entries, pre, d) && AllRecoverable(entries, pre, history, from)
    ensures Restorable(entries, pre, d) && AllRestorable(entries, pre, history, from)
  {
    if d.backup.Some? { AdjacentIsSafe(d.backup.value.rows, d); }
    forall j | from <= j < |history|
      ensures Restorable(entries, pre, history[j])
    {
      assert Recoverable(entries, pre, history[j]);
      if history[j].backup.Some? { AdjacentIsSafe(history[j].backup.value.rows, history[j]); }
    }
  }

  lemma RecoverableBackup(entries: seq<Entry>, pre: Tree, b: Backup, d: Disk)
    requires Recoverable(entries, pre, d) && d.backup == Some(b)
    ensures CompleteFor(entries, pre, b) && Adjacent(b.rows, d) && Safe(b.rows, d)
  {
    AdjacentIsSafe(b.rows, d);
  }

  lemma CompleteIsCalm(entries: seq<Entry>, pre: Tree, b: Backup, schedule: nat -> Event)
    requires CompleteFor(entries, pre, b) && CalmFor(entries, schedule)
    ensures Calm(b.rows, schedule)
  {
    CalmRows(entries, b.rows, schedule);
  }

  lemma SafeRestorable(entries: seq<Entry>, pre: Tree, b: Backup, history: seq<Disk>, from: nat)
    requires CompleteFor(entries, pre, b) && KeepsBackup(history, from, Some(b)) && AllSafe(b.rows, history, from)
    ensures AllRestorable(entries, pre, history, from)
  {
  }

  lemma AllRestorableAppend(entries: seq<Entry>, pre: Tree, h: seq<Disk>, h': seq<Disk>, from: nat)
    requires from <= |h| && h <= h' && AllRestorable(entries, pre, h, from) && AllRestorable(entries, pre, h', |h|)
    ensures AllRestorable(entries, pre, h', from)
  {
  }

  /** A completed rollback restores what was there before; durably where every row was sound, and otherwise not. */
  lemma RolledBackHolds(entries: seq<Entry>, pre: Tree, b: Backup, start: Disk, d: Disk, noFlush: bool)
    requires CompleteFor(entries, pre, b) && RolledBack(b.rows, start, d, noFlush)
    ensures HoldsTree(entries, d.vol, pre)
    ensures Sound(b.rows, start) ==> HoldsTree(entries, d.dur, pre)
    ensures noFlush ==> (HoldsTree(entries, d.dur, pre) <==> Sound(b.rows, start))
  {
    hide SoundRow;
    forall i | 0 <= i < |entries|
      ensures b.rows[i].Path() == entries[i].path && Get(d.vol, entries[i].path) == Get(pre, entries[i].path)
      ensures SoundRow(b.rows, start, i) ==> Get(d.dur, entries[i].path) == Get(pre, entries[i].path)
      ensures noFlush ==> (Get(d.dur, entries[i].path) == Get(pre, entries[i].path) <==> SoundRow(b.rows, start, i))
    {
      assert b.rows[i].entry == entries[i] && RolledBackRow(b.rows, start, d, i, noFlush);
      assert Get(d.vol, b.rows[i].Path()) == StageContent(b.rows, i, 0);
    }
  }

  // ----- The workbook of a deployment -----

  /** The workbook that the final check of a deployment finds: that of its row, or the one that was there. */
  predicate WorkbookCurrent(rows: seq<Row>, policy: Policy, actual: Content) {
    && (forall i :: 0 <= i < |rows| && rows[i].Path() == policy.path ==> rows[i].After() == Some(policy.current))
    && (!Listed(rows, policy.path) ==> actual == Some(policy.current))
  }

  lemma AppliedWorkbook(rows: seq<Row>, policy: Policy, actual: Content, t: Tree)
    requires WorkbookCurrent(rows, policy, actual) && AtStage(rows, t, |rows|)
    requires !Listed(rows, policy.path) ==> Get(t, policy.path) == actual
    ensures Get(t, policy.path) == Some(policy.current)
  {
    if i :| 0 <= i < |rows| && rows[i].Path() == policy.path {
      assert Get(t, rows[i].Path()) == StageContent(rows, i, |rows|);
    }
  }

  lemma SettledWorkbook(rows: seq<Row>, policy: Policy, actual: Content, d: Disk)
    requires WorkbookCurrent(rows, policy, actual) && Settled(rows, d, |rows|)
    requires !Listed(rows, policy.path) ==> Get(d.vol, policy.path) == actual
    ensures Get(d.vol, policy.path) == Some(policy.current)
  {
    hide AtStage, Listed, WorkbookCurrent;
    AppliedWorkbook(rows, policy, actual, d.vol);
  }

  // ----- The final checks -----

  ghost predicate HeldAt(row: Row, history: seq<Disk>, from: nat) {
    exists j :: from <= j < |history| && Get(history[j].vol, row.Path()) == row.After()
  }

  /** Each of the first n rows held its candidate at some step. */
  ghost predicate AllHeld(rows: seq<Row>, n: nat, history: seq<Disk>, from: nat)
    requires n <= |rows|
  {
    forall i :: 0 <= i < n ==> HeldAt(rows[i], history, from)
  }

  lemma NothingHeld(rows: seq<Row>, history: seq<Disk>, from: nat)
    ensures AllHeld(rows, 0, history, from)
  {
  }

  lemma OneMoreHeld(rows: seq<Row>, i: nat, h: seq<Disk>, h': seq<Disk>, from: nat)
    requires i < |rows| && AllHeld(rows, i, h, from) && |h'| == |h| + 1 && h <= h' && from <= |h|
    requires Get(h'[|h|].vol, rows[i].Path()) == rows[i].After()
    ensures AllHeld(rows, i + 1, h', from)
  {
    forall k | 0 <= k < i + 1
      ensures HeldAt(rows[k], h', from)
    {
      if k < i {
        assert HeldAt(rows[k], h, from);
        var j :| from <= j < |h| && Get(h[j].vol, rows[k].Path()) == rows[k].After();
        assert h'[j] == h[j];
      }
    }
  }

  lemma HeldEarlier(rows: seq<Row>, h: seq<Disk>, from: nat, from': nat)
    requires AllHeld(rows, |rows|, h, from) && from' <= from
    ensures AllHeld(rows, |rows|, h, from')
  {
    forall k | 0 <= k < |rows|
      ensures HeldAt(rows[k], h, from')
    {
      assert HeldAt(rows[k], h, from);
    }
  }

  lemma SettledHolds(rows: seq<Row>, d: Disk, k: nat, i: nat)
    requires i < |rows| && Settled(rows, d, k)
    ensures Get(d.vol, rows[i].Path()) == if i < k || rows[i].action.Skip? then rows[i].After() else rows[i].Before()
  {
    assert Get(d.vol, rows[i].Path()) == StageContent(rows, i, k);
  }

  /** The workbook that a deployment is to leave is the current one. */
  predicate LeavesWorkbook(entries: seq<Entry>, policy: Policy, t: Tree) {
    || (exists i :: 0 <= i < |entries| && entries[i].path == policy.path)
    || Get(t, policy.path) == Some(policy.current)
  }

  lemma AcceptedWorkbook(entries: seq<Entry>, staged: Tree, t: Tree, policy: Policy, rows: seq<Row>, actual: Content)
    requires Accepted(entries, staged, t, policy) && Covers(entries, rows) && LeavesWorkbook(entries, policy, t)
    requires actual == Get(t, policy.path)
    ensures WorkbookCurrent(rows, policy, actual)
  {
    forall i | 0 <= i < |rows| && rows[i].Path() == policy.path
      ensures rows[i].After() == Some(policy.current)
    {
      assert AcceptedEntry(entries[i], staged, Get(t, entries[i].path));
    }
    if i :| 0 <= i < |entries| && entries[i].path == policy.path {
      assert rows[i].Path() == policy.path;
    }
  }
}
