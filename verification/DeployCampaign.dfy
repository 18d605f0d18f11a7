/** A deployment followed by rollbacks: how the facts about each of them add up. */
module DeployCampaign {
  import opened Options
  import opened DeployModel
  import opened DeployFacts
  import opened DeployPlan
  import opened DeployWhole

  // ----- A deployment -----

  lemma MaybeDisturbed(schedule: nat -> Event, s: Status, from: nat, clock: nat, to: nat)
    requires !s.Done? && from < clock <= to
    ensures Stopped(schedule, s, clock) ==> DisturbedIn(schedule, from, to)
  {
    if Stopped(schedule, s, clock) {
      StoppedDisturbs(schedule, s, from, clock, to);
    }
  }

  // ----- The automatic rollback -----

  /** Before anything is written: the conditions under which a failure can be undone. */
  ghost predicate Undoable(b: Backup, policy: Policy, schedule: nat -> Event, d: Disk) {
    && Untouched(policy.path, schedule) && OriginalsComplete(b) && Get(d.vol, policy.path) in policy.Permitted()
    && WorkbookCurrent(b.rows, policy, Get(d.vol, policy.path))
  }

  lemma UndoableFacts(b: Backup, policy: Policy, schedule: nat -> Event, d: Disk)
    requires Undoable(b, policy, schedule, d)
    ensures Untouched(policy.path, schedule) && Get(d.vol, policy.path) in policy.Permitted()
    ensures WorkbookCurrent(b.rows, policy, Get(d.vol, policy.path))
  {
  }

  lemma UndoableIs(b: Backup, policy: Policy, schedule: nat -> Event, d: Disk)
    requires Untouched(policy.path, schedule) && OriginalsComplete(b) && Get(d.vol, policy.path) in policy.Permitted()
    requires WorkbookCurrent(b.rows, policy, Get(d.vol, policy.path))
    ensures Undoable(b, policy, schedule, d)
  {
  }

  /** At every step of the deployment the rollback then meets no obstacle. */
  lemma FailedIsSmooth(b: Backup, policy: Policy, schedule: nat -> Event, start: Disk, d: Disk)
    requires ValidRows(b.rows) && Undoable(b, policy, schedule, start) && Settled(b.rows, start, 0) && Adjacent(b.rows, d)
    requires !Listed(b.rows, policy.path) ==> Get(d.vol, policy.path) == Get(start.vol, policy.path)
    ensures Get(d.vol, policy.path) in policy.Permitted() && WorkbookFits(b.rows, policy, Get(d.vol, policy.path))
    ensures Safe(b.rows, d) && OriginalsComplete(b) && Untouched(policy.path, schedule)
  {
    AdjacentIsSafe(b.rows, d);
    hide Adjacent, OriginalsComplete, Untouched;
    if Listed(b.rows, policy.path) {
      var i :| 0 <= i < |b.rows| && b.rows[i].Path() == policy.path;
      assert b.rows[i].Before() == Get(start.vol, policy.path) && b.rows[i].After() == Some(policy.current);
      assert Holds(b.rows[i], Get(d.vol, policy.path));
    }
  }

  lemma Undone(rows: seq<Row>, at: Disk, d: Disk, noFlush: bool)
    requires RolledBack(rows, at, d, noFlush) && Sound(rows, at)
    ensures Settled(rows, d, 0)
  {
    hide SoundRow;
    forall i | 0 <= i < |rows|
      ensures Get(d.dur, rows[i].Path()) == rows[i].Before()
    {
      assert SoundRow(rows, at, i) && RolledBackRow(rows, at, d, i, noFlush);
    }
  }

  lemma UndoneHolds(entries: seq<Entry>, pre: Tree, b: Backup, d: Disk)
    requires CompleteFor(entries, pre, b) && Settled(b.rows, d, 0)
    ensures HoldsTree(entries, d.vol, pre) && HoldsTree(entries, d.dur, pre)
  {
    hide OriginalsComplete, ValidRows;
    forall i | 0 <= i < |entries|
      ensures Get(d.vol, entries[i].path) == Get(pre, entries[i].path) && Get(d.dur, entries[i].path) == Get(pre, entries[i].path)
    {
      assert b.rows[i].entry == entries[i];
    }
  }

  lemma UntouchedHolds(entries: seq<Entry>, pre: Tree, d: Disk)
    requires TargetUntouched(entries, pre, d)
    ensures HoldsTree(entries, d.vol, pre) && HoldsTree(entries, d.dur, pre)
  {
    forall i | 0 <= i < |entries|
      ensures Get(d.vol, entries[i].path) == Get(pre, entries[i].path) && Get(d.dur, entries[i].path) == Get(pre, entries[i].path)
    {
      assert StillPath(entries[i].path, pre, d);
    }
  }

  lemma LaterDisturbed(schedule: nat -> Event, from: nat, to: nat, from': nat)
    requires from' <= from
    ensures DisturbedIn(schedule, from, to) ==> DisturbedIn(schedule, from', to)
  {
  }

  lemma LeadDisturbed(schedule: nat -> Event, s: Status, from: nat, clock: nat, rows: seq<Row>, folders: set<Path>)
    requires !s.Done? && from < clock
    ensures Stopped(schedule, s, clock) && clock <= from + LeadTicks(rows, folders) ==> DisturbedIn(schedule, from, from + DeployTicks(rows, folders))
  {
    hide LeadTicks, ApplyCount;
    if Stopped(schedule, s, clock) && clock <= from + LeadTicks(rows, folders) {
      StoppedDisturbs(schedule, s, from, clock, from + DeployTicks(rows, folders));
    }
  }

  lemma DeployTicksAre(rows: seq<Row>, folders: set<Path>)
    ensures DeployTicks(rows, folders) == LeadTicks(rows, folders) + 1 + ApplyCount(rows) + |rows|
  {
  }

  lemma AcceptedPermitted(entries: seq<Entry>, staged: Tree, t: Tree, policy: Policy)
    requires Accepted(entries, staged, t, policy)
    ensures Get(t, policy.path) in policy.Permitted()
  {
  }

  /** The backup becomes complete while the target is still untouched. */
  lemma DeployCommitted(entries: seq<Entry>, pre: Tree, b: Backup, d: Disk, d': Disk, h: seq<Disk>, h': seq<Disk>, from: nat)
    requires DistinctEntries(entries) && Chosen(entries, pre, b.rows, |entries|) && OriginalsComplete(b)
    requires TargetUntouched(entries, pre, d) && d' == d.(backup := Some(b))
    requires from <= |h| && AllTargetUntouched(entries, pre, h, from) && h' == h + [d']
    ensures CompleteFor(entries, pre, b) && Settled(b.rows, d', 0) && Recoverable(entries, pre, d') && AllRecoverable(entries, pre, h', from)
  {
    hide Chosen, TargetUntouched, AllTargetUntouched, OriginalsComplete, Covers, ValidRows, CompleteFor, Settled, Recoverable, AllRecoverable;
    ChosenIsValid(entries, pre, b.rows);
    CommittedRecoverable(entries, pre, b, d, d');
    UntouchedRecoverable(entries, pre, h, from, d, true);
    OneRecoverable(entries, pre, h', |h|, d');
    AllRecoverableAppend(entries, pre, h, h', from);
  }

  // ----- Rollbacks -----

  /** The disk at which a rollback started, and whether it restored a row. */
  datatype Start = Start(disk: Disk, wrote: bool)

  predicate AllClean(rows: seq<Row>, starts: seq<Start>) {
    forall n :: 0 <= n < |starts| ==> Clean(rows, starts[n].disk)
  }

  /** Every rollback that restored a row started with rows that were clean or about to be flushed. */
  predicate AllSound(rows: seq<Row>, starts: seq<Start>) {
    forall n :: 0 <= n < |starts| ==> SoundStart(rows, starts[n])
  }

  predicate SoundStart(rows: seq<Row>, start: Start) {
    Sound(rows, start.disk) || !start.wrote
  }

  lemma NoStarts(rows: seq<Row>)
    ensures AllClean(rows, []) && AllSound(rows, [])
  {
  }

  lemma OneMoreStart(rows: seq<Row>, starts: seq<Start>, start: Start)
    ensures AllClean(rows, starts + [start]) <==> AllClean(rows, starts) && Clean(rows, start.disk)
    ensures AllSound(rows, starts + [start]) <==> AllSound(rows, starts) && SoundStart(rows, start)
  {
    hide Clean, SoundStart;
    var all := starts + [start];
    assert all[|starts|] == start && forall n :: 0 <= n < |starts| ==> all[n] == starts[n];
  }

  lemma CleanStartsAreSound(rows: seq<Row>, starts: seq<Start>)
    requires AllClean(rows, starts)
    ensures AllSound(rows, starts)
  {
    hide Clean, Sound;
    forall n | 0 <= n < |starts|
      ensures SoundStart(rows, starts[n])
    {
      CleanIsSound(rows, starts[n].disk);
    }
  }

  /** What the deployment and the rollbacks so far have kept. */
  ghost predicate CampaignKeeps(entries: seq<Entry>, pre: Tree, b: Backup, history: seq<Disk>, from: nat, d: Disk, noFlush: bool,
                                cut: bool, starts: seq<Start>) {
    && Safe(b.rows, d) && AllRestorable(entries, pre, history, from)
    && (!cut ==> Clean(b.rows, d) && AllClean(b.rows, starts))
    && (AllSound(b.rows, starts) ==> Adjacent(b.rows, d) && AllRecoverable(entries, pre, history, from))
    && (noFlush && !AllSound(b.rows, starts) ==> !AllRecoverable(entries, pre, history, from))
  }

  /** What a completed rollback has restored. */
  ghost predicate CampaignEnds(entries: seq<Entry>, pre: Tree, b: Backup, d: Disk, noFlush: bool, cut: bool, starts: seq<Start>) {
    && starts != [] && HoldsTree(entries, d.vol, pre)
    && (!cut ==> HoldsTree(entries, d.dur, pre))
    && var sound := Sound(b.rows, starts[|starts| - 1].disk);
       (sound ==> HoldsTree(entries, d.dur, pre)) && (noFlush ==> (sound <==> HoldsTree(entries, d.dur, pre)))
  }

  lemma CampaignBegins(entries: seq<Entry>, pre: Tree, b: Backup, history: seq<Disk>, from: nat, d: Disk, schedule: nat -> Event, cut: bool)
    requires Recoverable(entries, pre, d) && d.backup == Some(b) && AllRecoverable(entries, pre, history, from)
    requires CalmFor(entries, schedule) && (!cut ==> Clean(b.rows, d))
    ensures CompleteFor(entries, pre, b) && Calm(b.rows, schedule)
    ensures CampaignKeeps(entries, pre, b, history, from, d, NoFlush(schedule), cut, [])
  {
    hide Recoverable, AllRecoverable, CalmFor, Calm, Clean, CompleteFor, Adjacent, Safe, AllRestorable, Sound;
    RecoverableIsRestorable(entries, pre, history, from, d);
    RecoverableBackup(entries, pre, b, d);
    CompleteIsCalm(entries, pre, b, schedule);
    NoStarts(b.rows);
  }

  /** One more rollback. */
  lemma CampaignNext(entries: seq<Entry>, pre: Tree, b: Backup, h: seq<Disk>, h': seq<Disk>, from: nat, d: Disk, d': Disk, noFlush: bool,
                     cut: bool, stopped: bool, starts: seq<Start>, wrote: bool, s: Status)
    requires CompleteFor(entries, pre, b) && KeepsBackup(h', |h|, Some(b)) && d'.backup == Some(b) && from <= |h| && h <= h'
    requires CampaignKeeps(entries, pre, b, h, from, d, noFlush, cut, starts)
    requires Safe(b.rows, d) ==> Safe(b.rows, d') && AllSafe(b.rows, h', |h|)
    requires Adjacent(b.rows, d) && (Sound(b.rows, d) || !wrote) ==> Adjacent(b.rows, d') && AllAdjacent(b.rows, h', |h|)
    requires Adjacent(b.rows, d) && noFlush && !Sound(b.rows, d) && wrote ==> !AllAdjacent(b.rows, h', |h|)
    requires s.Done? ==> RolledBack(b.rows, d, d', noFlush)
    requires Clean(b.rows, d) && !stopped ==> Clean(b.rows, d')
    ensures CampaignKeeps(entries, pre, b, h', from, d', noFlush, cut || stopped, starts + [Start(d, wrote)])
    ensures s.Done? ==> CampaignEnds(entries, pre, b, d', noFlush, cut || stopped, starts + [Start(d, wrote)])
  {
    hide CompleteFor, KeepsBackup, Safe, AllSafe, Adjacent, AllAdjacent, Sound, Clean, RolledBack, AllRestorable, AllRecoverable, HoldsTree;
    hide AllClean, AllSound;
    OneMoreStart(b.rows, starts, Start(d, wrote));
    SafeRestorable(entries, pre, b, h', |h|);
    AllRestorableAppend(entries, pre, h, h', from);
    CleanIsSound(b.rows, d);
    if AllSound(b.rows, starts) {
      if Sound(b.rows, d) || !wrote {
        AdjacentRecoverable(entries, pre, b, h', |h|, d');
        AllRecoverableAppend(entries, pre, h, h', from);
      } else if noFlush {
        NotAdjacentNotRecoverable(entries, pre, b, h', |h|, from);
      }
    } else if noFlush {
      NotRecoverableStays(entries, pre, h, h', from);
    }
    if s.Done? {
      RolledBackHolds(entries, pre, b, d, d', noFlush);
    }
  }

  lemma CampaignResult(entries: seq<Entry>, pre: Tree, b: Backup, history: seq<Disk>, from: nat, d: Disk, noFlush: bool, cut: bool,
                       starts: seq<Start>)
    requires CampaignKeeps(entries, pre, b, history, from, d, noFlush, cut, starts)
    ensures AllRestorable(entries, pre, history, from) && (!cut ==> AllClean(b.rows, starts))
    ensures AllSound(b.rows, starts) || !cut ==> AllRecoverable(entries, pre, history, from)
    ensures noFlush ==> (AllSound(b.rows, starts) <==> AllRecoverable(entries, pre, history, from))
  {
    hide AllClean, AllSound, AllRestorable, AllRecoverable, Clean, Adjacent, Safe;
    if !cut {
      CleanStartsAreSound(b.rows, starts);
    }
  }
}
