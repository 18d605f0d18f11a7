/**
 Deployment and rollback as programs that any schedule of events may disturb: other
 writers, exceptions, a killed process, a power loss, and flushes by the system itself.
 One event happens between every two steps. The history records the disk after every
 step, so that a property of the history is a property of every crash point.
 */
module Deploy {
  import opened Options
  import opened Paths
  import opened DeployModel
  import opened DeployFacts
  import opened DeploySteps
  import opened DeployPlan
  import opened DeployWhole
  import opened DeployCampaign
  import opened DeployCut

  class World {
    const schedule: nat -> Event
    const policy: Policy
    var disk: Disk
    var clock: nat
    ghost var history: seq<Disk>
    ghost var writes: seq<Write>

    constructor (disk: Disk, schedule: nat -> Event, policy: Policy)
      ensures this.disk == disk && this.schedule == schedule && this.policy == policy
      ensures clock == 0 && history == [] && writes == []
    {
      this.disk, this.schedule, this.policy, clock := disk, schedule, policy, 0;
      history, writes := [], [];
    }

    /** The next event. */
    method Tick() returns (s: Status)
      modifies this
      ensures disk == AfterEvent(old(disk), schedule(old(clock))) && s == StatusOf(schedule(old(clock)))
      ensures clock == old(clock) + 1
      ensures history == old(history) + [disk] && writes == old(writes)
    {
      disk := AfterEvent(disk, schedule(clock));
      s := StatusOf(schedule(clock));
      clock := clock + 1;
      history := history + [disk];
    }

    /** Renames a new file into place, or removes the file. */
    method Rename(p: Path, c: Content)
      modifies this
      ensures disk == old(disk).(vol := Put(old(disk).vol, p, c))
      ensures clock == old(clock)
      ensures history == old(history) + [disk]
      ensures writes == old(writes) + [Write(p, Get(old(disk).vol, p), c)]
    {
      writes := writes + [Write(p, Get(disk.vol, p), c)];
      disk := disk.(vol := Put(disk.vol, p, c));
      history := history + [disk];
    }

    /** Flushes the entries of a directory. */
    method FsyncDirectory(dir: Path)
      modifies this
      ensures disk == FlushDirectory(old(disk), dir)
      ensures clock == old(clock)
      ensures history == old(history) + [disk] && writes == old(writes)
    {
      disk := FlushDirectory(disk, dir);
      history := history + [disk];
    }

    /**
     Checks a path and replaces its content, then flushes the directory. The last check and
     the rename are one step: other writers are not fenced.
     */
    method ReplaceChecked(c: Change) returns (s: Status)
      modifies this
      ensures var e1, e2 := schedule(old(clock)), schedule(old(clock) + 1);
        && history == old(history) + Steps(old(disk), c, e1, e2) && disk == Last(Steps(old(disk), c, e1, e2))
        && s == Result(old(disk), c, e1, e2) && clock == old(clock) + (if Goes(old(disk), c, e1) then 2 else 1)
        && writes == old(writes) + if Goes(old(disk), c, e1) then [Write(c.path, c.expected, c.content)] else []
      ensures s.Done? && Untouched(c.path, schedule) ==> Get(disk.vol, c.path) == c.content && Get(disk.dur, c.path) == c.content
    {
      ghost var d, e1, e2 := disk, schedule(clock), schedule(clock + 1);
      StepsHoldAt(d, c, schedule, clock);
      hide Put, Merged, Untouched, AfterEvent, StatusOf, FlushDirectory;
      s := Tick();
      if !s.Done? {
        return;
      }
      if Get(disk.vol, c.path) != c.expected {
        return Raised;
      }
      Rename(c.path, c.content);
      s := Tick();
      if !s.Done? {
        return;
      }
      FsyncDirectory(Parent(c.path));
    }

    /** Whether the protected workbook has one of the permitted contents. */
    function WorkbookHas(permitted: set<Content>): bool
      reads this
    {
      Get(disk.vol, policy.path) in permitted
    }

    /** The next event, seen from the listed paths. */
    method Observe(ghost rows: seq<Row>, ghost always: Disk -> bool) returns (s: Status)
      requires KeptByEvents(always, schedule)
      modifies this
      ensures writes == old(writes) && disk.backup == old(disk).backup
      ensures old(history) <= history && clock == old(clock) + 1 && Stopped(schedule, s, clock)
      ensures KeepsBackup(history, |old(history)|, old(disk).backup)
      ensures always(old(disk)) ==> always(disk) && Recorded(history, |old(history)|, always)
      ensures s.Done? && Calm(rows, schedule) ==> UnchangedSince(rows, old(disk), disk, {}, NoFlush(schedule))
      ensures (!s.Dead? || NoPowerLoss(schedule)) && Untouched(policy.path, schedule) ==>
                Get(disk.vol, policy.path) == Get(old(disk).vol, policy.path)
      ensures history == old(history) + [disk]
    {
      ghost var d, t := disk, clock;
      s := Tick();
      if s.Done? && Calm(rows, schedule) {
        assert CalmEvent(rows, schedule(t));
        UnchangedByEvent(rows, d, schedule(t), {}, NoFlush(schedule));
      }
      if Untouched(policy.path, schedule) {
        assert SparesPath(policy.path, schedule(t));
      }
    }

    /** Flushes one directory; the rest is as it was. */
    method ProbeDirectory(dir: Path, ghost rows: seq<Row>, ghost always: Disk -> bool, ghost start: Disk, ghost flushed: set<Path>, ghost dirs: set<Path>)
      returns (s: Status)
      requires KeptByEvents(always, schedule) && KeptByFlushes(always) && dir in dirs
      requires Calm(rows, schedule) ==> UnchangedSince(rows, start, disk, dirs, NoFlush(schedule)) && Flushed(rows, disk, flushed)
      modifies this
      ensures writes == old(writes) && disk.backup == old(disk).backup
      ensures old(history) <= history && clock == old(clock) + 1 && Stopped(schedule, s, clock)
      ensures KeepsBackup(history, |old(history)|, old(disk).backup)
      ensures always(old(disk)) ==> always(disk) && Recorded(history, |old(history)|, always)
      ensures s.Done? && Calm(rows, schedule) ==>
                UnchangedSince(rows, start, disk, dirs, NoFlush(schedule)) && Flushed(rows, disk, flushed + {dir})
      ensures (s.Done? || NoPowerLoss(schedule)) && Untouched(policy.path, schedule) ==>
                Get(disk.vol, policy.path) == Get(old(disk).vol, policy.path)
    {
      hide UnchangedSince, Flushed, Calm, NoFlush, FlushDirectory, Untouched, Stopped, KeptByEvents;
      ghost var d, noFlush := disk, NoFlush(schedule);
      s := Observe(rows, always);
      if !s.Done? {
        return;
      }
      ghost var seen := disk;
      FsyncDirectory(dir);
      FlushedDisk(seen, dir);
      if Calm(rows, schedule) {
        UnchangedTransitive(rows, start, d, seen, dirs, {}, dirs, noFlush);
        FlushedStays(rows, d, seen, flushed, noFlush);
        UnchangedByFlush(rows, seen, dir, dirs, noFlush);
        UnchangedTransitive(rows, start, seen, disk, dirs, dirs, dirs, noFlush);
        FlushedByFlush(rows, seen, flushed, dir);
      }
    }

    /** Flushes some directories, to see whether that is possible before anything is changed. */
    method ProbeTarget(dirs: set<Path>, ghost rows: seq<Row>, ghost always: Disk -> bool) returns (s: Status)
      requires KeptByEvents(always, schedule) && KeptByFlushes(always)
      modifies this
      ensures writes == old(writes) && disk.backup == old(disk).backup
      ensures old(history) <= history && old(clock) <= clock <= old(clock) + |dirs|
      ensures KeepsBackup(history, |old(history)|, old(disk).backup)
      ensures always(old(disk)) ==> always(disk) && Recorded(history, |old(history)|, always)
      ensures if s.Done? then clock == old(clock) + |dirs| else Stopped(schedule, s, clock) && clock > old(clock)
      ensures s.Done? && Calm(rows, schedule) ==> UnchangedSince(rows, old(disk), disk, dirs, NoFlush(schedule)) && Flushed(rows, disk, dirs)
      ensures (s.Done? || NoPowerLoss(schedule)) && Untouched(policy.path, schedule) ==>
                Get(disk.vol, policy.path) == Get(old(disk).vol, policy.path)
    {
      hide UnchangedSince, Flushed, Calm, NoFlush, FlushDirectory, Untouched, Stopped, KeptByEvents, KeptByFlushes;
      s := Done;
      var left := dirs;
      ghost var flushed: set<Path>, start := {}, disk;
      UnchangedByNothing(rows, disk, dirs, NoFlush(schedule));
      NothingFlushed(rows, disk);
      while left != {}
        invariant s.Done? && flushed + left == dirs && clock + |left| == old(clock) + |dirs|
        invariant writes == old(writes) && disk.backup == old(disk).backup && old(history) <= history
        invariant KeepsBackup(history, |old(history)|, old(disk).backup)
        invariant always(old(disk)) ==> always(disk) && Recorded(history, |old(history)|, always)
        invariant Calm(rows, schedule) ==> UnchangedSince(rows, start, disk, dirs, NoFlush(schedule)) && Flushed(rows, disk, flushed)
        invariant Untouched(policy.path, schedule) ==> Get(disk.vol, policy.path) == Get(start.vol, policy.path)
        decreases |left|
      {
        var dir :| dir in left;
        s := ProbeDirectory(dir, rows, always, start, flushed, dirs);
        left, flushed := left - {dir}, flushed + {dir};
        if !s.Done? {
          return;
        }
      }
      assert flushed == dirs;
    }

    /** The conditions on the disk and the other writers under which a rollback meets no obstacle. */
    ghost predicate Smooth(b: Backup)
      reads this
    {
      && Calm(b.rows, schedule) && Untouched(policy.path, schedule)
      && WorkbookHas(policy.Permitted()) && WorkbookFits(b.rows, policy, Get(disk.vol, policy.path))
      && Safe(b.rows, disk) && OriginalsComplete(b)
    }

    lemma SmoothIs(b: Backup)
      requires Calm(b.rows, schedule) && Untouched(policy.path, schedule)
      requires Get(disk.vol, policy.path) in policy.Permitted() && WorkbookFits(b.rows, policy, Get(disk.vol, policy.path))
      requires Safe(b.rows, disk) && OriginalsComplete(b)
      ensures Smooth(b)
    {
    }

    /**
     The checks of a rollback, before it changes anything: each path must hold its content
     from before the deployment or its candidate. Returns the rows to restore.
     */
    method PlanRollback(b: Backup, ghost always: Disk -> bool) returns (s: Status, restore: seq<nat>)
      requires ValidRows(b.rows) && KeptByEvents(always, schedule)
      modifies this
      ensures writes == old(writes) && disk.backup == old(disk).backup
      ensures old(history) <= history && old(clock) < clock <= old(clock) + 1 + |b.rows|
      ensures KeepsBackup(history, |old(history)|, old(disk).backup)
      ensures always(old(disk)) ==> always(disk) && Recorded(history, |old(history)|, always)
      ensures s.Done? ==> Restorables(b.rows, restore) && clock == old(clock) + 1 + |b.rows|
      ensures s.Done? ==> OriginalsComplete(b)
      ensures s.Dead? ==> Stopped(schedule, s, clock)
      ensures s.Done? && Calm(b.rows, schedule) ==>
                && UnchangedSince(b.rows, old(disk), disk, {}, NoFlush(schedule))
                && restore == Planned(b.rows, old(disk).vol, |b.rows|) && HeldTo(b.rows, old(disk).vol, |b.rows|)
      ensures old(Smooth(b)) && !s.Done? ==> Stopped(schedule, s, clock)
      ensures (s.Done? || NoPowerLoss(schedule)) && Untouched(policy.path, schedule) ==>
                Get(disk.vol, policy.path) == Get(old(disk).vol, policy.path)
    {
      hide UnchangedSince, PlanRow, Calm, NoFlush, KeptByEvents, ValidRows, Planned, HeldTo, Restorables, Untouched, WorkbookFits, OriginalsComplete, OriginalsTo, Policy.Permitted, Get, Row.Path, Safe;
      ghost var calm, smooth, noFlush := Calm(b.rows, schedule), Smooth(b), NoFlush(schedule);
      ghost var start := disk;
      restore := [];
      NothingPlanned(b.rows, disk, noFlush);
      OriginalsOfAll(b);
      s := Observe(b.rows, always);
      if !s.Done? {
        return;
      }
      if !WorkbookHas(policy.Permitted()) {
        return Raised, restore;
      }
      var i := 0;
      while i < |b.rows|
        invariant 0 <= i <= |b.rows| && s.Done?
        invariant writes == old(writes) && disk.backup == old(disk).backup
        invariant old(history) <= history && clock == old(clock) + 1 + i
        invariant KeepsBackup(history, |old(history)|, old(disk).backup)
        invariant always(old(disk)) ==> always(disk) && Recorded(history, |old(history)|, always)
        invariant Restorables(b.rows, restore) && forall k :: 0 <= k < |restore| ==> restore[k] < i
        invariant calm ==> UnchangedSince(b.rows, start, disk, {}, noFlush)
        invariant calm ==> restore == Planned(b.rows, start.vol, i) && HeldTo(b.rows, start.vol, i)
        invariant OriginalsTo(b, i)
        invariant Untouched(policy.path, schedule) ==> Get(disk.vol, policy.path) == Get(start.vol, policy.path)
      {
        ghost var d := disk;
        s := Observe(b.rows, always);
        if !s.Done? {
          return;
        }
        if calm {
          UnchangedTransitive(b.rows, start, d, disk, {}, {}, {}, noFlush);
        }
        if smooth {
          SafeRowsArePlanned(b, start, disk, i, noFlush);
        }
        var decision := PlanRow(b.rows[i], b.originals, Get(disk.vol, b.rows[i].Path()));
        if decision.Refuse? {
          return Raised, restore;
        }
        if calm {
          PlanStep(b.rows, start, disk, i, b.originals, noFlush);
        }
        PlanAppend(b.rows, restore, i, b.originals, Get(disk.vol, b.rows[i].Path()));
        OriginalPlanned(b, i, Get(disk.vol, b.rows[i].Path()));
        if decision.Restore? {
          restore := restore + [i];
        }
        i := i + 1;
      }
    }

    /** The checks of a rollback and the flushes before it changes anything. */
    method PrepareRollback(b: Backup, ghost always: Disk -> bool) returns (s: Status, restore: seq<nat>)
      requires ValidRows(b.rows) && KeptByEvents(always, schedule) && KeptByFlushes(always)
      modifies this
      ensures writes == old(writes) && disk.backup == old(disk).backup
      ensures old(history) <= history && old(clock) < clock
      ensures KeepsBackup(history, |old(history)|, old(disk).backup)
      ensures always(old(disk)) ==> always(disk) && Recorded(history, |old(history)|, always)
      ensures s.Done? ==> Restorables(b.rows, restore) && clock == old(clock) + 1 + |b.rows| + |ProbeDirs(b.rows, restore)|
      ensures s.Dead? ==> Stopped(schedule, s, clock)
      ensures s.Done? && Calm(b.rows, schedule) ==> Prepared(b.rows, old(disk), disk, restore, NoFlush(schedule))
      ensures !s.Done? && Calm(b.rows, schedule) ==> clock <= old(clock) + PrepareTicks(b.rows, old(disk).vol)
      ensures old(Smooth(b)) && !s.Done? ==> Stopped(schedule, s, clock)
      ensures (s.Done? || NoPowerLoss(schedule)) && Untouched(policy.path, schedule) ==>
                Get(disk.vol, policy.path) == Get(old(disk).vol, policy.path)
    {
      hide UnchangedSince, Calm, NoFlush, KeptByEvents, KeptByFlushes, ValidRows, Planned, HeldTo, Restorables, Flushed, ProbeDirs, Untouched;
      hide Smooth;
      ghost var start, h, noFlush := disk, history, NoFlush(schedule);
      s, restore := PlanRollback(b, always);
      PrepareTicksAre(b.rows, start.vol, Planned(b.rows, start.vol, |b.rows|));
      if !s.Done? {
        return;
      }
      ghost var planned, h' := disk, history;
      s := ProbeTarget(ProbeDirs(b.rows, restore), b.rows, always);
      if s.Done? && Calm(b.rows, schedule) {
        UnchangedTransitive(b.rows, start, planned, disk, {}, ProbeDirs(b.rows, restore), ProbeDirs(b.rows, restore), noFlush);
      }
    }

    /**
     Restores one row. It is cut when the process ends between the rename and the flush
     while the machine goes on.
     */
    method RestoreRow(rows: seq<Row>, i: nat, ghost safe: bool, ghost ready: bool) returns (s: Status, ghost cut: bool)
      requires ValidRows(rows) && i < |rows| && !rows[i].action.Skip?
      requires safe || ready ==> Calm(rows, schedule)
      requires (safe ==> Safe(rows, disk)) && (ready ==> Between(rows, disk, i))
      modifies this
      ensures disk.backup == old(disk).backup
      ensures old(history) <= history && KeepsBackup(history, |old(history)|, old(disk).backup)
      ensures clock == old(clock) + 1 || clock == old(clock) + 2
      ensures writes == old(writes) + if clock == old(clock) + 1 then [] else [Write(rows[i].Path(), rows[i].After(), rows[i].Before())]
      ensures s.Done? ==> clock == old(clock) + 2 && PassedIn(schedule, old(clock), clock) && !cut
      ensures s.Dead? ==> Stopped(schedule, s, clock)
      ensures cut <==> clock == old(clock) + 2 && Cuts(schedule(clock - 1))
      ensures safe ==> Safe(rows, disk) && AllSafe(rows, history, |old(history)|)
      ensures ready ==> Adjacent(rows, disk) && AllAdjacent(rows, history, |old(history)|)
      ensures ready && s.Done? ==> Settled(rows, disk, i)
      ensures Calm(rows, schedule) ==>
                RowRestored(rows, i, old(disk), disk, history, |old(history)|, NoFlush(schedule), clock == old(clock) + 2, s, cut)
      ensures Calm(rows, schedule) && s.Raised? && Get(old(disk).vol, rows[i].Path()) == rows[i].After() ==> Stopped(schedule, s, clock)
      ensures (s.Done? || NoPowerLoss(schedule)) && !Listed(rows, policy.path) && Untouched(policy.path, schedule) ==>
                Get(disk.vol, policy.path) == Get(old(disk).vol, policy.path)
    {
      hide Safe, Between, OthersSince, Adjacent, Calm, NoFlush, Clean, LagShows, CutRow, RestoredRow, Settled, Steps, ValidRows, Listed, Untouched;
      hide AllSafe, AllAdjacent, Put, Parent, Result, Goes, IsCut, PassedIn;
      var c := Restoring(rows[i]);
      ghost var d, h, t := disk, history, clock;
      ghost var e1, e2 := schedule(clock), schedule(clock + 1);
      cut := IsCut(d, c, e1, e2);
      CalmIsUntouched(rows, schedule, i);
      s := ReplaceChecked(c);
      StepsBackup(d, c, e1, e2);
      StepsEnd(d, c, schedule, t);
      CutIs(d, c, e1, e2);
      if Calm(rows, schedule) {
        CalmAt(rows, schedule, t);
        RestoreLeaves(rows, d, i, schedule, t, NoFlush(schedule));
        if safe || ready { StepsKeep(rows, d, h, i, c, e1, e2, safe, ready); }
        if Goes(d, c, e1) {
          if NoFlush(schedule) { StepsShowLag(rows, d, h, i, schedule, t); }
        } else if Adjacent(rows, d) {
          StepsQuiet(rows, d, h, c, e1, e2);
        }
        if ready && s.Done? {
          RestoredSettles(rows, disk, i);
        }
        SparesAt(rows[i].Path(), schedule, t);
      }
      if (s.Done? || NoPowerLoss(schedule)) && !Listed(rows, policy.path) && Untouched(policy.path, schedule) {
        SparesAt(policy.path, schedule, t);
        UnlistedPath(rows, i, policy.path);
        StepsSpare(d, c, e1, e2, policy.path);
      }
    }

    /** Restores rows from the last to the first. Returns the position in the list where it was cut. */
    method RestoreRows(rows: seq<Row>, restore: seq<nat>, ghost top: int) returns (s: Status, ghost cut: Option<nat>)
      requires ValidRows(rows) && Restorables(rows, restore)
      modifies this
      ensures disk.backup == old(disk).backup
      ensures old(history) <= history && KeepsBackup(history, |old(history)|, old(disk).backup)
      ensures old(writes) <= writes && RestoresOnly(rows, writes, |old(writes)|)
      ensures old(clock) <= clock <= old(clock) + 2 * |restore|
      ensures s.Done? ==> clock == old(clock) + 2 * |restore| && PassedIn(schedule, old(clock), clock)
      ensures s.Dead? ==> clock > old(clock) && Stopped(schedule, s, clock)
      ensures Calm(rows, schedule) && HoldCandidates(rows, old(disk), restore) && s.Raised? ==> clock > old(clock) && Stopped(schedule, s, clock)
      ensures cut.Some? ==> !s.Done? && cut.value < |restore| && clock == old(clock) + 2 * (|restore| - cut.value) && Cuts(schedule(clock - 1))
      ensures clock > old(clock) && (clock - old(clock)) % 2 == 0 && Cuts(schedule(clock - 1)) ==> cut.Some?
      ensures Calm(rows, schedule) && Safe(rows, old(disk)) ==> Safe(rows, disk) && AllSafe(rows, history, |old(history)|)
      ensures Calm(rows, schedule) && Ready(rows, old(disk), restore, top) ==>
                Adjacent(rows, disk) && AllAdjacent(rows, history, |old(history)|)
      ensures Calm(rows, schedule) && Adjacent(rows, old(disk)) && writes == old(writes) ==>
                Adjacent(rows, disk) && AllAdjacent(rows, history, |old(history)|)
      ensures Calm(rows, schedule) && NoFlush(schedule) && writes != old(writes) ==>
                LagShowsIn(rows, old(disk), restore, history, |old(history)|)
      ensures Calm(rows, schedule) && s.Done? ==>
                RestoredSince(rows, old(disk), disk, restore, 0, ProbeDirs(rows, restore), NoFlush(schedule))
      ensures Calm(rows, schedule) && cut.Some? ==> CutState(rows, old(disk), disk, restore, cut.value)
      ensures Calm(rows, schedule) && Clean(rows, old(disk)) && cut.None? ==> Clean(rows, disk)
      ensures (s.Done? || NoPowerLoss(schedule)) && !Listed(rows, policy.path) && Untouched(policy.path, schedule) ==>
                Get(disk.vol, policy.path) == Get(old(disk).vol, policy.path)
    {
      hide Safe, Adjacent, RestoredSince, Settled, Calm, NoFlush, Ready, Clean, CutState, LagShowsIn, ProbeDirs, Between;
      hide KeepsBackup, RestoresOnly, Stopped, Cuts, ValidRows, RowRestored, AllSafe, AllAdjacent, Listed, Untouched, Restorables, HoldCandidates;
      hide Progress, Ended, PassedIn;
      s, cut := Done, None;
      ghost var calm := Calm(rows, schedule);
      ghost var g := Goals(calm, calm && Safe(rows, disk), calm && Ready(rows, disk, restore, top), calm && Clean(rows, disk), NoFlush(schedule));
      ghost var start, from := disk, |history|;
      var k := |restore|;
      ProgressBegins(rows, restore, g, disk, history, top);
      PassedNothing(schedule, clock);
      NothingYet(rows, history, writes, disk.backup);
      while k > 0
        invariant 0 <= k <= |restore| && s.Done? && cut.None?
        invariant disk.backup == old(disk).backup && clock == old(clock) + 2 * (|restore| - k)
        invariant PassedIn(schedule, old(clock), clock)
        invariant old(history) <= history && KeepsBackup(history, |old(history)|, old(disk).backup)
        invariant old(writes) <= writes && |writes| == |old(writes)| + (|restore| - k) && RestoresOnly(rows, writes, |old(writes)|)
        invariant Progress(rows, restore, k, g, start, disk, history, from)
        invariant !Listed(rows, policy.path) && Untouched(policy.path, schedule) ==>
                    Get(disk.vol, policy.path) == Get(start.vol, policy.path)
      {
        k := k - 1;
        ghost var here, h, w, before := disk, history, writes, clock;
        ghost var isCut;
        ProgressAt(rows, restore, k, g, start, here, h, from);
        s, isCut := RestoreRow(rows, restore[k], g.safe, g.ready);
        OneMoreRestores(rows, restore[k], w, writes, |old(writes)|);
        BackupKept(history, h, |old(history)|, disk.backup);
        ProgressNext(rows, restore, k, g, start, here, disk, h, history, from, top, clock == before + 2, s, isCut);
        cut := if isCut then Some(k) else None;
        if s.Done? { PassedAppend(schedule, old(clock), before, clock); }
        if !s.Done? {
          EndedFacts(rows, restore, k, g, start, disk, history, from, clock == before + 2, s, isCut);
          return;
        }
      }
      AllEnded(rows, restore, g, start, disk, history, from);
      PassedIsNotCut(schedule, old(clock), clock);
    }

    /** What a rollback does after its checks and flushes. */
    method RestorePrepared(b: Backup, restore: seq<nat>, ghost start: Disk, ghost k: int, ghost adjacent: bool)
      returns (s: Status, ghost cut: Option<nat>)
      requires ValidRows(b.rows) && Restorables(b.rows, restore)
      requires Calm(b.rows, schedule) ==> Prepared(b.rows, start, disk, restore, NoFlush(schedule))
      requires adjacent ==> Calm(b.rows, schedule) && Adjacent(b.rows, start) && -1 <= k <= |b.rows| && Between(b.rows, disk, k)
      modifies this
      ensures disk.backup == old(disk).backup
      ensures old(history) <= history && KeepsBackup(history, |old(history)|, old(disk).backup)
      ensures old(writes) <= writes && RestoresOnly(b.rows, writes, |old(writes)|)
      ensures old(clock) <= clock <= old(clock) + 2 * |restore|
      ensures s.Done? ==> clock == old(clock) + 2 * |restore| && PassedIn(schedule, old(clock), clock)
      ensures s.Dead? ==> Stopped(schedule, s, clock)
      ensures cut.Some? ==> cut.value < |restore| && clock == old(clock) + 2 * (|restore| - cut.value) && Cuts(schedule(clock - 1))
      ensures clock > old(clock) && (clock - old(clock)) % 2 == 0 && Cuts(schedule(clock - 1)) ==> cut.Some?
      ensures Calm(b.rows, schedule) && Safe(b.rows, old(disk)) ==> Safe(b.rows, disk) && AllSafe(b.rows, history, |old(history)|)
      ensures adjacent && (Sound(b.rows, start) || writes == old(writes)) ==>
                Adjacent(b.rows, disk) && AllAdjacent(b.rows, history, |old(history)|)
      ensures adjacent && NoFlush(schedule) && !Sound(b.rows, start) && writes != old(writes) ==>
                !AllAdjacent(b.rows, history, |old(history)|)
      ensures Calm(b.rows, schedule) && s.Done? ==> RolledBack(b.rows, start, disk, NoFlush(schedule))
      ensures Calm(b.rows, schedule) && cut.Some? ==> CutState(b.rows, start, disk, restore, cut.value)
      ensures Calm(b.rows, schedule) && Clean(b.rows, old(disk)) && cut.None? ==> Clean(b.rows, disk)
      ensures (s.Done? || NoPowerLoss(schedule)) && !Listed(b.rows, policy.path) && Untouched(policy.path, schedule) ==>
                Get(disk.vol, policy.path) == Get(old(disk).vol, policy.path)
      ensures (&& Calm(b.rows, schedule) && Untouched(policy.path, schedule) && WorkbookFits(b.rows, policy, Get(start.vol, policy.path))
               && Get(old(disk).vol, policy.path) == Get(start.vol, policy.path) && !s.Done?) ==> Stopped(schedule, s, clock)
    {
      hide Safe, Adjacent, Clean, AtStage, RolledBack, Between, Ready, RestoredSince, Prepared, CutState, ProbeDirs;
      hide AllSafe, AllAdjacent, Calm, NoFlush, WorkbookFits, Sound, HoldCandidates, RestoresOnly, Listed, Untouched, ValidRows;
      hide ExpectedWorkbook, Restorables, LagShowsIn, Planned, PassedIn;
      var rows := b.rows;
      ghost var calm, noFlush, here, top := Calm(rows, schedule), NoFlush(schedule), disk, 0;
      if calm {
        PreparedPlan(rows, start, here, restore, noFlush);
      }
      if adjacent {
        BetweenIsAdjacent(rows, here, k);
        if Sound(rows, start) {
          SoundIsClean(rows, start, here, restore, noFlush);
          top := TopStage(rows, here, restore, k);
        }
      }
      s, cut := RestoreRows(rows, restore, top);
      if adjacent && noFlush && !Sound(rows, start) && writes != old(writes) {
        UnsoundShows(rows, start, here, restore, history, |old(history)|);
      }
      if calm && cut.Some? {
        CutSincePrepared(rows, start, here, disk, restore, cut.value, noFlush);
      }
      if !s.Done? {
        return;
      }
      if calm {
        RestoredIsRolledBack(rows, start, here, disk, restore, noFlush);
        if Untouched(policy.path, schedule) && WorkbookFits(rows, policy, Get(start.vol, policy.path))
           && Get(here.vol, policy.path) == Get(start.vol, policy.path) {
          RolledBackWorkbook(rows, policy, start, disk, noFlush);
        }
      }
      if !WorkbookHas({ExpectedWorkbook(rows, policy)}) {
        return Raised, cut;
      }
    }

    /** The checks and flushes, and what they keep. */
    method PrepareKept(b: Backup, ghost k: int) returns (s: Status, restore: seq<nat>)
      requires ValidRows(b.rows)
      modifies this
      ensures writes == old(writes) && disk.backup == old(disk).backup
      ensures old(history) <= history && old(clock) < clock
      ensures KeepsBackup(history, |old(history)|, old(disk).backup)
      ensures s.Done? ==> Restorables(b.rows, restore) && clock == old(clock) + 1 + |b.rows| + |ProbeDirs(b.rows, restore)|
      ensures s.Dead? ==> Stopped(schedule, s, clock)
      ensures s.Done? && Calm(b.rows, schedule) ==> Prepared(b.rows, old(disk), disk, restore, NoFlush(schedule))
      ensures !s.Done? && Calm(b.rows, schedule) ==> clock <= old(clock) + PrepareTicks(b.rows, old(disk).vol)
      ensures Calm(b.rows, schedule) && Safe(b.rows, old(disk)) ==> Safe(b.rows, disk) && AllSafe(b.rows, history, |old(history)|)
      ensures Calm(b.rows, schedule) && -1 <= k <= |b.rows| && Between(b.rows, old(disk), k) ==>
                Between(b.rows, disk, k) && Adjacent(b.rows, disk) && AllAdjacent(b.rows, history, |old(history)|)
      ensures Calm(b.rows, schedule) && Clean(b.rows, old(disk)) ==> Clean(b.rows, disk)
      ensures old(Smooth(b)) && !s.Done? ==> Stopped(schedule, s, clock)
      ensures (s.Done? || NoPowerLoss(schedule)) && Untouched(policy.path, schedule) ==>
                Get(disk.vol, policy.path) == Get(old(disk).vol, policy.path)
    {
      hide Safe, Adjacent, Clean, Between, Prepared, AllSafe, AllAdjacent, Calm, NoFlush, PrepareTicks, ProbeDirs, ValidRows, Restorables;
      hide KeptByEvents, KeptByFlushes, Untouched, Smooth, Stopped, KeepsBackup;
      ghost var calm, from := Calm(b.rows, schedule), |history|;
      ghost var safe, adjacent := calm && Safe(b.rows, disk), calm && -1 <= k <= |b.rows| && Between(b.rows, disk, k);
      ghost var clean := calm && Clean(b.rows, disk);
      ghost var always := (d: Disk) => (safe ==> Safe(b.rows, d)) && (adjacent ==> Between(b.rows, d, k)) && (clean ==> Clean(b.rows, d));
      PlanKeeps(b.rows, schedule, k, safe, adjacent, clean, always);
      s, restore := PrepareRollback(b, always);
      PlanRecorded(b.rows, history, from, disk, k, safe, adjacent, clean, always);
    }

    /**
     Restores the contents from before the deployment. May be run any number of times. Returns
     the position in the list of changed rows where it was cut.
     */
    method Rollback() returns (s: Status, ghost cut: Option<nat>)
      requires disk.backup.Some? && ValidRows(disk.backup.value.rows)
      modifies this
      ensures disk.backup == old(disk).backup
      ensures old(history) <= history && KeepsBackup(history, |old(history)|, old(disk).backup)
      ensures old(writes) <= writes && RestoresOnly(old(disk).backup.value.rows, writes, |old(writes)|)
      ensures clock > old(clock) && (s.Dead? ==> Stopped(schedule, s, clock))
      ensures cut.Some? ==> CutIn(schedule, old(clock), clock)
      ensures var rows := old(disk).backup.value.rows;
        Calm(rows, schedule) ==>
          && (Safe(rows, old(disk)) ==> Safe(rows, disk) && AllSafe(rows, history, |old(history)|))
          && (Adjacent(rows, old(disk)) && (Sound(rows, old(disk)) || writes == old(writes)) ==>
                Adjacent(rows, disk) && AllAdjacent(rows, history, |old(history)|))
          && (Adjacent(rows, old(disk)) && NoFlush(schedule) && !Sound(rows, old(disk)) && writes != old(writes) ==>
                !AllAdjacent(rows, history, |old(history)|))
          && (s.Done? ==> RolledBack(rows, old(disk), disk, NoFlush(schedule)))
          && (Clean(rows, old(disk)) && cut.None? ==> Clean(rows, disk))
          && RollbackTimes(rows, old(disk), disk, schedule, old(clock), clock, s, cut)
      ensures old(Smooth(disk.backup.value)) && !s.Done? ==> Stopped(schedule, s, clock)
      ensures (s.Done? || NoPowerLoss(schedule)) && !Listed(old(disk).backup.value.rows, policy.path) && Untouched(policy.path, schedule) ==>
                Get(disk.vol, policy.path) == Get(old(disk).vol, policy.path)
    {
      hide Safe, Adjacent, Clean, AtStage, RolledBack, Between, Prepared, Planned, CutState, WorkbookHas, Untouched;
      hide AllSafe, AllAdjacent, Calm, NoFlush, WorkbookFits, OriginalsComplete, Sound, PrepareTicks, ProbeDirs, RollbackTimes;
      hide KeepsBackup, PassedIn, Stopped, Cuts, CutIn, RestoresOnly, ValidRows, Restorables;
      var b := disk.backup.value;
      var rows := b.rows;
      ghost var calm, noFlush, start, h0, c0 := Calm(rows, schedule), NoFlush(schedule), disk, history, clock;
      ghost var safe, adjacent := calm && Safe(rows, disk), calm && Adjacent(rows, disk);
      ghost var k: int := if adjacent then Stage(rows, disk) else 0;
      var restore;
      s, restore := PrepareKept(b, k);
      cut := None;
      NothingYet(rows, history, writes, disk.backup);
      if !s.Done? {
        if calm { NotPreparedTimes(rows, start, disk, schedule, c0, clock, s); }
        return;
      }
      ghost var h, c1 := history, clock;
      if calm { PreparedTicks(rows, start, disk, restore, noFlush); }
      s, cut := RestorePrepared(b, restore, start, k, adjacent);
      HistoryAppend(rows, h, history, |h0|);
      if calm { PreparedTimes(rows, start, disk, restore, schedule, c0, c1, clock, s, cut); }
      if cut.Some? { CutHappened(schedule, c0, clock); }
      BackupKept(history, h, |h0|, disk.backup);
    }

    /** One event while the target is only read. */
    method Wait(ghost entries: seq<Entry>, ghost pre: Tree, ghost still: bool) returns (s: Status)
      requires still ==> CalmFor(entries, schedule) && TargetUntouched(entries, pre, disk)
      modifies this
      ensures writes == old(writes) && disk.backup == old(disk).backup
      ensures old(history) <= history && clock == old(clock) + 1 && Stopped(schedule, s, clock)
      ensures still ==> TargetUntouched(entries, pre, disk)
      ensures forall from :: 0 <= from <= |old(history)| && still && AllTargetUntouched(entries, pre, old(history), from) ==>
                AllTargetUntouched(entries, pre, history, from)
      ensures s.Done? && Untouched(policy.path, schedule) ==> Get(disk.vol, policy.path) == Get(old(disk).vol, policy.path)
    {
      hide Untouched, Stopped, KeptByFlushes;
      ghost var always := (d: Disk) => still ==> TargetUntouched(entries, pre, d);
      StillKept(entries, pre, schedule, still, always);
      s := Observe([], always);
    }

    /** Reads every listed path once and chooses an action for it, or refuses without any change. */
    method Preflight(entries: seq<Entry>, staged: Tree, ghost pre: Tree, ghost still: bool) returns (s: Status, rows: seq<Row>)
      requires DistinctEntries(entries) && (still ==> CalmFor(entries, schedule) && TargetUntouched(entries, pre, disk))
      modifies this
      ensures writes == old(writes) && disk.backup == old(disk).backup
      ensures old(history) <= history && old(clock) < clock <= old(clock) + 1 + |entries|
      ensures still ==> TargetUntouched(entries, pre, disk) && AllTargetUntouched(entries, pre, history, |old(history)|)
      ensures s.Done? ==> Covers(entries, rows) && ValidRows(rows) && clock == old(clock) + 1 + |entries|
      ensures s.Done? ==> forall i :: 0 <= i < |entries| ==> Get(staged, entries[i].path) == Some(entries[i].candidate)
      ensures s.Dead? ==> Stopped(schedule, s, clock)
      ensures s.Done? && still ==> Chosen(entries, pre, rows, |entries|)
      ensures still && Untouched(policy.path, schedule) && s.Done? ==> Accepted(entries, staged, old(disk).vol, policy)
      ensures still && Untouched(policy.path, schedule) && s.Raised? && Accepted(entries, staged, old(disk).vol, policy) ==>
                Stopped(schedule, s, clock)
      ensures s.Done? && Untouched(policy.path, schedule) ==> Get(disk.vol, policy.path) == Get(old(disk).vol, policy.path)
    {
      hide TargetUntouched, AllTargetUntouched, CalmFor, ChooseAction, Untouched, Stopped, AcceptedTo, Chosen;
      rows := [];
      ghost var start := disk;
      NothingUntouched(entries, pre, history);
      NothingChosen(entries, staged, pre);
      if still { AcceptedSame(entries, staged, pre, start); }
      s := Wait(entries, pre, still);
      if !s.Done? {
        return;
      }
      if !WorkbookHas(policy.Permitted()) {
        return Raised, rows;
      }
      if policy.path in staged && staged[policy.path] != policy.current {
        return Raised, rows;
      }
      var refused, i := false, 0;
      while i < |entries|
        invariant 0 <= i <= |entries| && s.Done? && clock == old(clock) + 1 + i
        invariant writes == old(writes) && disk.backup == old(disk).backup && old(history) <= history
        invariant still ==> TargetUntouched(entries, pre, disk) && AllTargetUntouched(entries, pre, history, |old(history)|)
        invariant !refused ==> |rows| == i && forall j :: 0 <= j < i ==> rows[j].entry == entries[j] && rows[j].Valid()
        invariant !refused ==> forall j :: 0 <= j < i ==> Get(staged, entries[j].path) == Some(entries[j].candidate)
        invariant still ==> (!refused <==> AcceptedTo(entries, staged, pre, i))
        invariant still && !refused ==> Chosen(entries, pre, rows, i)
        invariant Untouched(policy.path, schedule) ==> Get(disk.vol, policy.path) == Get(start.vol, policy.path)
      {
        s := Wait(entries, pre, still);
        if !s.Done? {
          return;
        }
        var entry := entries[i];
        var action := ChooseAction(entry, Get(disk.vol, entry.path));
        if still {
          UntouchedPath(entries, pre, disk, i);
          AcceptedNext(entries, staged, pre, i);
        }
        if Get(staged, entry.path) != Some(entry.candidate) || action.None? {
          refused := true;
        } else {
          ChosenRowIsValid(entry, Get(disk.vol, entry.path));
          if still && !refused { ChosenNext(entries, pre, rows, action.value); }
          rows := rows + [Row(entry, action.value)];
        }
        i := i + 1;
      }
      if refused {
        return Raised, [];
      }
    }

    /** Copies the originals of the rows to replace and checks the copies. */
    method CopyOriginals(rows: seq<Row>, ghost entries: seq<Entry>, ghost pre: Tree, ghost still: bool) returns (s: Status, originals: Tree)
      requires ValidRows(rows) && (still ==> CalmFor(entries, schedule) && TargetUntouched(entries, pre, disk))
      requires still ==> Chosen(entries, pre, rows, |entries|)
      modifies this
      ensures writes == old(writes) && disk.backup == old(disk).backup
      ensures old(history) <= history && old(clock) <= clock <= old(clock) + ReplaceCount(rows)
      ensures still ==> TargetUntouched(entries, pre, disk) && AllTargetUntouched(entries, pre, history, |old(history)|)
      ensures s.Done? ==> OriginalsComplete(Backup(rows, originals)) && clock == old(clock) + ReplaceCount(rows)
      ensures (s.Dead? || (still && s.Raised?)) ==> clock > old(clock) && Stopped(schedule, s, clock)
      ensures s.Done? && Untouched(policy.path, schedule) ==> Get(disk.vol, policy.path) == Get(old(disk).vol, policy.path)
    {
      hide TargetUntouched, AllTargetUntouched, CalmFor, Untouched, Stopped, Chosen, ReplaceCount;
      originals, s := map[], Done;
      NothingUntouched(entries, pre, history);
      NoCount(rows);
      for i := 0 to |rows|
        invariant s.Done? && writes == old(writes) && disk.backup == old(disk).backup
        invariant old(history) <= history && clock == old(clock) + ReplaceCount(rows[..i])
        invariant still ==> TargetUntouched(entries, pre, disk) && AllTargetUntouched(entries, pre, history, |old(history)|)
        invariant forall j :: 0 <= j < i && rows[j].action.Replace? ==> Get(originals, rows[j].Path()) == rows[j].entry.baseline
        invariant Untouched(policy.path, schedule) ==> Get(disk.vol, policy.path) == Get(old(disk).vol, policy.path)
      {
        CountNext(rows, i);
        CountMonotone(rows, i + 1);
        if rows[i].action.Replace? {
          s := Wait(entries, pre, still);
          if !s.Done? {
            return;
          }
          if still { ChosenHolds(entries, pre, rows, disk, i); }
          originals := Put(originals, rows[i].Path(), Get(disk.vol, rows[i].Path()));
          if Get(originals, rows[i].Path()) != rows[i].entry.baseline {
            return Raised, originals;
          }
        }
      }
      assert rows[..|rows|] == rows;
    }

    /** Everything before the first change: preflight, the flushes of the target and the copies. */
    method PrepareDeploy(entries: seq<Entry>, staged: Tree, folders: set<Path>, ghost pre: Tree, ghost still: bool)
      returns (s: Status, rows: seq<Row>, originals: Tree)
      requires DistinctEntries(entries) && (still ==> CalmFor(entries, schedule) && TargetUntouched(entries, pre, disk))
      modifies this
      ensures writes == old(writes) && disk.backup == old(disk).backup
      ensures old(history) <= history && old(clock) < clock
      ensures still ==> TargetUntouched(entries, pre, disk) && AllTargetUntouched(entries, pre, history, |old(history)|)
      ensures s.Done? ==> Covers(entries, rows) && ValidRows(rows) && OriginalsComplete(Backup(rows, originals))
      ensures s.Done? ==> clock == old(clock) + LeadTicks(rows, folders)
      ensures s.Dead? ==> Stopped(schedule, s, clock)
      ensures s.Done? && still ==> Chosen(entries, pre, rows, |entries|)
      ensures still && Untouched(policy.path, schedule) && s.Done? ==> Accepted(entries, staged, old(disk).vol, policy)
      ensures still && Untouched(policy.path, schedule) && !s.Done? && Accepted(entries, staged, old(disk).vol, policy) ==>
                Stopped(schedule, s, clock) && clock <= old(clock) + LeadTicks(ChosenRows(entries, pre), folders)
      ensures s.Done? && Untouched(policy.path, schedule) ==> Get(disk.vol, policy.path) == Get(old(disk).vol, policy.path)
    {
      hide TargetUntouched, AllTargetUntouched, CalmFor, Untouched, Stopped, Chosen, Accepted, ReplaceCount, DeployDirs, Covers, ValidRows;
      hide OriginalsComplete, DistinctEntries, KeptByEvents, KeptByFlushes, ChosenRows;
      originals := map[];
      s, rows := Preflight(entries, staged, pre, still);
      LeadAtLeast(entries, pre, folders);
      if !s.Done? {
        return;
      }
      if still { ChosenRowsAre(entries, pre, rows); }
      ghost var h := history;
      ghost var always := (d: Disk) => still ==> TargetUntouched(entries, pre, d);
      StillKept(entries, pre, schedule, still, always);
      s := ProbeTarget(DeployDirs(rows, folders), [], always);
      UntouchedRecorded(entries, pre, h, history, |old(history)|, still, always);
      LeadTicksAre(entries, rows, folders);
      if !s.Done? {
        return;
      }
      h := history;
      s, originals := CopyOriginals(rows, entries, pre, still);
      if still { AllUntouchedAppend(entries, pre, h, history, |old(history)|); }
    }

    /** One event between two rows. */
    method Pause(rows: seq<Row>, ghost k: nat, ghost ready: bool) returns (s: Status)
      requires k <= |rows| && (ready ==> Calm(rows, schedule) && Settled(rows, disk, k))
      modifies this
      ensures writes == old(writes) && disk.backup == old(disk).backup
      ensures history == old(history) + [disk] && clock == old(clock) + 1 && Stopped(schedule, s, clock)
      ensures KeepsBackup(history, |old(history)|, old(disk).backup)
      ensures ready ==> Settled(rows, disk, k) && Adjacent(rows, disk) && Clean(rows, disk)
      ensures ready ==> AllAdjacent(rows, history, |old(history)|)
      ensures !s.Dead? && Untouched(policy.path, schedule) ==> Get(disk.vol, policy.path) == Get(old(disk).vol, policy.path)
    {
      hide Untouched, Stopped, Calm, Settled, Adjacent, Clean;
      ghost var always := (d: Disk) => ready ==> Settled(rows, d, k);
      SettledKept(rows, schedule, k, ready, always);
      s := Observe([], always);
      if ready {
        SettledRecorded(rows, history, |old(history)|, disk, k, always);
      }
    }

    /** Replaces the content of one row by its candidate. */
    method ApplyRow(rows: seq<Row>, i: nat, ghost ready: bool) returns (s: Status)
      requires ValidRows(rows) && i < |rows| && !rows[i].action.Skip?
      requires ready ==> Calm(rows, schedule) && Settled(rows, disk, i)
      modifies this
      ensures disk.backup == old(disk).backup
      ensures old(history) <= history && KeepsBackup(history, |old(history)|, old(disk).backup)
      ensures clock == old(clock) + 1 || clock == old(clock) + 2
      ensures s.Done? ==> clock == old(clock) + 2
      ensures writes == old(writes) || writes == old(writes) + [Write(rows[i].Path(), rows[i].Before(), rows[i].After())]
      ensures s.Dead? || (ready && s.Raised?) ==> Stopped(schedule, s, clock)
      ensures ready ==> Adjacent(rows, disk) && Clean(rows, disk) && AllAdjacent(rows, history, |old(history)|)
      ensures ready && s.Done? ==> Settled(rows, disk, i + 1)
      ensures !s.Dead? && !Listed(rows, policy.path) && Untouched(policy.path, schedule) ==>
                Get(disk.vol, policy.path) == Get(old(disk).vol, policy.path)
    {
      hide Between, Adjacent, Clean, Calm, Settled, Steps, ValidRows, Listed, Untouched, Stopped, Result, Goes, AllAdjacent, Put, IsCut;
      var c := Applying(rows[i]);
      ghost var d, h, t := disk, history, clock;
      ghost var e1, e2 := schedule(clock), schedule(clock + 1);
      s := ReplaceChecked(c);
      StepsBackup(d, c, e1, e2);
      StepsEnd(d, c, schedule, t);
      CalmIsUntouched(rows, schedule, i);
      if ready {
        CalmAt(rows, schedule, t);
        SettledIsAdjacent(rows, d, i);
        SettledHolds(rows, d, i, i);
        StepsKeep(rows, d, h, i, c, e1, e2, false, true);
        AppliesClean(rows, d, i, e1, e2);
        SparesAt(c.path, schedule, t);
        if s.Done? { RowSettles(rows, disk, i, true); }
      }
      if !s.Dead? && !Listed(rows, policy.path) && Untouched(policy.path, schedule) {
        SparesAt(policy.path, schedule, t);
        UnlistedPath(rows, i, policy.path);
        StepsSpare(d, c, e1, e2, policy.path);
      }
    }

    /** Applies the rows in order. */
    method ApplyRows(rows: seq<Row>, ghost ready: bool) returns (s: Status)
      requires ValidRows(rows) && (ready ==> Calm(rows, schedule) && Settled(rows, disk, 0))
      modifies this
      ensures disk.backup == old(disk).backup
      ensures old(history) <= history && KeepsBackup(history, |old(history)|, old(disk).backup)
      ensures old(clock) <= clock <= old(clock) + ApplyCount(rows) && (s.Done? ==> clock == old(clock) + ApplyCount(rows))
      ensures old(writes) <= writes && AppliesOnly(rows, writes, |old(writes)|)
      ensures s.Dead? || (ready && s.Raised?) ==> clock > old(clock) && Stopped(schedule, s, clock)
      ensures ready ==> Adjacent(rows, disk) && Clean(rows, disk) && AllAdjacent(rows, history, |old(history)|)
      ensures ready && s.Done? ==> Settled(rows, disk, |rows|)
      ensures !s.Dead? && !Listed(rows, policy.path) && Untouched(policy.path, schedule) ==>
                Get(disk.vol, policy.path) == Get(old(disk).vol, policy.path)
    {
      hide Adjacent, Clean, Calm, Settled, AllAdjacent, ValidRows, AppliesOnly, Untouched, Stopped, Listed, ApplyCount, KeepsBackup;
      s := Done;
      var i := 0;
      if ready { SettledIsAdjacent(rows, disk, 0); }
      NothingRecorded(rows, history);
      NothingYet(rows, history, writes, disk.backup);
      NoCount(rows);
      while i < |rows|
        invariant 0 <= i <= |rows| && s.Done?
        invariant disk.backup == old(disk).backup && clock == old(clock) + ApplyCount(rows[..i])
        invariant old(history) <= history && KeepsBackup(history, |old(history)|, old(disk).backup)
        invariant old(writes) <= writes && AppliesOnly(rows, writes, |old(writes)|)
        invariant ready ==> Settled(rows, disk, i) && Adjacent(rows, disk) && Clean(rows, disk) && AllAdjacent(rows, history, |old(history)|)
        invariant !Listed(rows, policy.path) && Untouched(policy.path, schedule) ==>
                    Get(disk.vol, policy.path) == Get(old(disk).vol, policy.path)
      {
        ghost var h, w := history, writes;
        CountNext(rows, i);
        CountMonotone(rows, i + 1);
        if rows[i].action.Skip? {
          s := Pause(rows, i, ready);
          if ready { SettledHolds(rows, disk, i, i); }
          if s.Done? && Get(disk.vol, rows[i].Path()) != rows[i].After() {
            s := Raised;
          }
          if ready && s.Done? { SkipSettles(rows, disk, i); }
        } else {
          s := ApplyRow(rows, i, ready);
          OneMoreApplies(rows, i, w, writes, |old(writes)|);
        }
        BackupKept(history, h, |old(history)|, disk.backup);
        if ready {
          AllAdjacentAppend(rows, h, history, |old(history)|);
        }
        if !s.Done? {
          return;
        }
        i := i + 1;
      }
      assert rows[..|rows|] == rows;
    }

    /** The final check of every row and of the workbook. */
    method CheckApplied(rows: seq<Row>, ghost ready: bool) returns (s: Status)
      requires ready ==> Calm(rows, schedule) && Settled(rows, disk, |rows|)
      modifies this
      ensures writes == old(writes) && disk.backup == old(disk).backup
      ensures old(history) <= history && KeepsBackup(history, |old(history)|, old(disk).backup)
      ensures old(clock) <= clock <= old(clock) + |rows| && (s.Done? ==> clock == old(clock) + |rows|)
      ensures s.Done? ==> AllHeld(rows, |rows|, history, |old(history)|) && WorkbookHas({Some(policy.current)})
      ensures s.Dead? ==> clock > old(clock) && Stopped(schedule, s, clock)
      ensures ready && Untouched(policy.path, schedule) && s.Raised? && Get(old(disk).vol, policy.path) == Some(policy.current) ==>
                clock > old(clock) && Stopped(schedule, s, clock)
      ensures ready ==> Settled(rows, disk, |rows|) && Adjacent(rows, disk) && Clean(rows, disk) && AllAdjacent(rows, history, |old(history)|)
      ensures !s.Dead? && Untouched(policy.path, schedule) ==> Get(disk.vol, policy.path) == Get(old(disk).vol, policy.path)
    {
      hide Calm, Settled, Adjacent, Clean, Untouched, Stopped, AllAdjacent, AllHeld, KeepsBackup;
      s := Done;
      if ready { SettledIsAdjacent(rows, disk, |rows|); }
      NothingRecorded(rows, history);
      NothingYet(rows, history, writes, disk.backup);
      NothingHeld(rows, history, |history|);
      for i := 0 to |rows|
        invariant s.Done? && writes == old(writes) && disk.backup == old(disk).backup && clock == old(clock) + i
        invariant old(history) <= history && KeepsBackup(history, |old(history)|, old(disk).backup)
        invariant ready ==> Settled(rows, disk, |rows|) && Adjacent(rows, disk) && Clean(rows, disk)
        invariant ready ==> AllAdjacent(rows, history, |old(history)|)
        invariant AllHeld(rows, i, history, |old(history)|)
        invariant Untouched(policy.path, schedule) ==> Get(disk.vol, policy.path) == Get(old(disk).vol, policy.path)
      {
        ghost var h := history;
        s := Pause(rows, |rows|, ready);
        BackupKept(history, h, |old(history)|, disk.backup);
        if ready {
          AllAdjacentAppend(rows, h, history, |old(history)|);
          SettledHolds(rows, disk, |rows|, i);
        }
        if !s.Done? {
          return;
        }
        if Get(disk.vol, rows[i].Path()) != rows[i].After() {
          return Raised;
        }
        OneMoreHeld(rows, i, h, history, |old(history)|);
      }
      if !WorkbookHas({Some(policy.current)}) {
        return Raised;
      }
    }

    /** Checks the workbook, applies the rows in order and checks all of them. */
    method Apply(rows: seq<Row>, ghost ready: bool) returns (s: Status)
      requires ValidRows(rows) && (ready ==> Calm(rows, schedule) && Settled(rows, disk, 0))
      modifies this
      ensures disk.backup == old(disk).backup
      ensures old(history) <= history && KeepsBackup(history, |old(history)|, old(disk).backup)
      ensures old(writes) <= writes && AppliesOnly(rows, writes, |old(writes)|)
      ensures old(clock) < clock <= old(clock) + 1 + ApplyCount(rows) + |rows|
      ensures s.Done? ==> clock == old(clock) + 1 + ApplyCount(rows) + |rows|
      ensures s.Done? ==> AllHeld(rows, |rows|, history, |old(history)|) && WorkbookHas({Some(policy.current)})
      ensures s.Dead? ==> Stopped(schedule, s, clock)
      ensures (&& ready && Untouched(policy.path, schedule) && s.Raised? && old(WorkbookHas(policy.Permitted()))
               && WorkbookCurrent(rows, policy, Get(old(disk).vol, policy.path))) ==> Stopped(schedule, s, clock)
      ensures ready ==> Adjacent(rows, disk) && Clean(rows, disk) && AllAdjacent(rows, history, |old(history)|)
      ensures ready && s.Done? ==> Settled(rows, disk, |rows|)
      ensures !s.Dead? && !Listed(rows, policy.path) && Untouched(policy.path, schedule) ==>
                Get(disk.vol, policy.path) == Get(old(disk).vol, policy.path)
    {
      hide Adjacent, Clean, Calm, Settled, AllAdjacent, ValidRows, AppliesOnly, AllHeld, Untouched, Stopped, WorkbookCurrent, Listed, KeepsBackup;
      ghost var start, h0 := disk, history;
      NothingYet(rows, history, writes, disk.backup);
      s := Pause(rows, 0, ready);
      if !s.Done? {
        return;
      }
      if !WorkbookHas(policy.Permitted()) {
        return Raised;
      }
      ghost var h := history;
      s := ApplyRows(rows, ready);
      BackupKept(history, h, |h0|, disk.backup);
      if ready { AllAdjacentAppend(rows, h, history, |h0|); }
      if !s.Done? {
        return;
      }
      if ready && Untouched(policy.path, schedule) && WorkbookCurrent(rows, policy, Get(start.vol, policy.path)) {
        SettledWorkbook(rows, policy, Get(start.vol, policy.path), disk);
      }
      h := history;
      s := CheckApplied(rows, ready);
      BackupKept(history, h, |h0|, disk.backup);
      if ready { AllAdjacentAppend(rows, h, history, |h0|); }
      if s.Done? { HeldEarlier(rows, history, |h|, |h0|); }
    }

    /** The end of the backup: all of it has been flushed. */
    method CommitBackup(b: Backup)
      modifies this
      ensures disk == old(disk).(backup := Some(b))
      ensures clock == old(clock) && writes == old(writes) && history == old(history) + [disk]
    {
      disk := disk.(backup := Some(b));
      history := history + [disk];
    }

    /** Applies the rows; an exception starts a rollback. */
    method ApplyOrUndo(ghost ready: bool) returns (s: Status, ghost cut: bool)
      requires disk.backup.Some? && ValidRows(disk.backup.value.rows)
      requires ready ==> Calm(disk.backup.value.rows, schedule) && Settled(disk.backup.value.rows, disk, 0)
      modifies this
      ensures disk.backup == old(disk).backup
      ensures old(history) <= history && KeepsBackup(history, |old(history)|, old(disk).backup) && clock > old(clock)
      ensures cut ==> CutIn(schedule, old(clock), clock)
      ensures s.Done? ==> WorkbookHas({Some(policy.current)}) && !cut
      ensures var rows := old(disk).backup.value.rows;
        && old(writes) <= writes && ChangesOnly(rows, writes, |old(writes)|)
        && (s.Done? ==> clock == old(clock) + 1 + ApplyCount(rows) + |rows| && AllHeld(rows, |rows|, history, |old(history)|))
        && (ready ==> Adjacent(rows, disk) && AllAdjacent(rows, history, |old(history)|))
        && (ready && !cut ==> Clean(rows, disk))
        && (ready && s.Done? ==> Settled(rows, disk, |rows|))
        && (ready && Untouched(policy.path, schedule) && old(WorkbookHas(policy.Permitted()))
            && WorkbookCurrent(rows, policy, Get(old(disk).vol, policy.path)) ==>
              s.Done? || DisturbedIn(schedule, old(clock), old(clock) + 1 + ApplyCount(rows) + |rows|))
      ensures ready && s.Raised? && Undoable(old(disk).backup.value, policy, schedule, old(disk)) ==>
                Settled(old(disk).backup.value.rows, disk, 0) || TwiceIn(schedule, old(clock), clock)
    {
      hide Calm, Clean, Adjacent, AllAdjacent, Settled, ValidRows, AppliesOnly, RestoresOnly, ChangesOnly, Smooth, RollbackTimes, RolledBack;
      hide KeepsBackup, CutIn, DisturbedIn, Stopped, Untouched, WorkbookCurrent, Safe, AllSafe, NoFlush, Sound, ApplyCount, AllHeld, Undoable, TwiceIn;
      var rows := disk.backup.value.rows;
      cut := false;
      ghost var h0, w0, c0, start := history, writes, clock, disk;
      NothingYet(rows, history, writes, disk.backup);
      if ready && Undoable(disk.backup.value, policy, schedule, disk) { UndoableFacts(disk.backup.value, policy, schedule, disk); }
      s := Apply(rows, ready);
      ChangesAppend(rows, w0, writes, |w0|);
      if !s.Done? {
        MaybeDisturbed(schedule, s, c0, clock, c0 + 1 + ApplyCount(rows) + |rows|);
      }
      if s.Raised? {
        ghost var h, w, c, at := history, writes, clock, disk;
        ghost var stopped;
        CleanIsSound(rows, at);
        ghost var undoable := ready && Undoable(disk.backup.value, policy, schedule, start);
        if undoable {
          FailedIsSmooth(disk.backup.value, policy, schedule, start, at);
          SmoothIs(disk.backup.value);
        }
        s, stopped := Rollback();
        if undoable {
          if s.Done? {
            Undone(rows, at, disk, NoFlush(schedule));
          } else {
            TwiceStopped(schedule, Raised, c0, c, s, clock);
          }
        }
        cut := stopped.Some?;
        BackupKept(history, h, |h0|, disk.backup);
        ChangesAppend(rows, w, writes, |w0|);
        if ready { AllAdjacentAppend(rows, h, history, |h0|); }
        if cut { CutWiden(schedule, c, clock, c0, clock); }
        if s.Done? {
          s := Raised;
        }
      }
    }

    /** A whole deployment. A failure after the backup is complete starts a rollback. */
    method Deploy(entries: seq<Entry>, staged: Tree, folders: set<Path>, ghost pre: Tree, ghost still: bool) returns (s: Status, ghost cut: bool)
      requires DistinctEntries(entries) && disk.backup.None?
      requires still ==> CalmFor(entries, schedule) && Still(entries, pre, disk)
      modifies this
      ensures old(history) <= history && clock > old(clock) && old(writes) <= writes
      ensures disk.backup.None? ==> writes == old(writes) && !cut
      ensures disk.backup.Some? ==> var rows := disk.backup.value.rows;
        ValidRows(rows) && Covers(entries, rows) && ChangesOnly(rows, writes, |old(writes)|)
      ensures s.Done? ==> disk.backup.Some? && !cut && WorkbookHas({Some(policy.current)})
      ensures s.Done? ==> clock == old(clock) + DeployTicks(disk.backup.value.rows, folders)
      ensures cut ==> CutIn(schedule, old(clock), clock)
      ensures still ==> Recoverable(entries, pre, disk) && AllRecoverable(entries, pre, history, |old(history)|)
      ensures still && s.Done? ==> var rows := disk.backup.value.rows; Settled(rows, disk, |rows|) && rows == ChosenRows(entries, pre)
      ensures still && disk.backup.Some? && !cut ==> Clean(disk.backup.value.rows, disk)
      ensures still && Untouched(policy.path, schedule) && s.Done? ==> Accepted(entries, staged, old(disk).vol, policy)
      ensures (&& still && Untouched(policy.path, schedule) && Accepted(entries, staged, old(disk).vol, policy)
               && LeavesWorkbook(entries, policy, old(disk).vol)) ==>
                s.Done? || DisturbedIn(schedule, old(clock), old(clock) + DeployTicks(ChosenRows(entries, pre), folders))
      ensures still && s.Raised? && Untouched(policy.path, schedule) && LeavesWorkbook(entries, policy, old(disk).vol) ==>
                || (HoldsTree(entries, disk.vol, pre) && HoldsTree(entries, disk.dur, pre))
                || TwiceIn(schedule, old(clock), clock)
    {
      hide TargetUntouched, AllTargetUntouched, CalmFor, Calm, Clean, Adjacent, AllAdjacent, Settled, Untouched, Accepted, LeavesWorkbook;
      hide ValidRows, ChangesOnly, Covers, OriginalsComplete, Recoverable, AllRecoverable, Still, Stopped, DisturbedIn, CutIn, ChosenRows;
      hide LeadTicks, ApplyCount, WorkbookCurrent, CompleteFor, Chosen, DistinctEntries, KeepsBackup, AllHeld, HoldsTree, TwiceIn, Undoable;
      cut := false;
      ghost var start, h0, c0, w0 := disk, history, clock, writes;
      StartUntouched(entries, pre, disk, still);
      var rows, originals;
      s, rows, originals := PrepareDeploy(entries, staged, folders, pre, still);
      UntouchedRecoverable(entries, pre, history, |h0|, disk, still);
      if !s.Done? {
        LeadDisturbed(schedule, s, c0, clock, ChosenRows(entries, pre), folders);
        if still { UntouchedHolds(entries, pre, disk); }
        return;
      }
      ghost var h, d := history, disk;
      var b := Backup(rows, originals);
      CommitBackup(b);
      if still {
        ChosenRowsAre(entries, pre, rows);
        DeployCommitted(entries, pre, b, d, disk, h, history, |h0|);
        CalmRows(entries, rows, schedule);
        if Accepted(entries, staged, start.vol, policy) && LeavesWorkbook(entries, policy, start.vol) {
          AcceptedWorkbook(entries, staged, start.vol, policy, rows, Get(start.vol, policy.path));
          AcceptedPermitted(entries, staged, start.vol, policy);
          if Untouched(policy.path, schedule) { UndoableIs(b, policy, schedule, disk); }
        }
      }
      h := history;
      ghost var c := clock;
      s, cut := ApplyOrUndo(still);
      if still {
        AdjacentRecoverable(entries, pre, b, history, |h|, disk);
        AllRecoverableAppend(entries, pre, h, history, |h0|);
        if Settled(rows, disk, 0) { UndoneHolds(entries, pre, b, disk); }
        TwiceEarlier(schedule, c, clock, c0);
      }
      if cut { CutWiden(schedule, c, clock, c0, clock); }
      DeployTicksAre(rows, folders);
      LaterDisturbed(schedule, c, c + 1 + ApplyCount(rows) + |rows|, c0);
    }

    /**
     One deployment and then any number of rollbacks, each of them crashed, killed, failed
     or completed as the schedule has it. The disk is at one step of a deployment all the time if
     every rollback that restores a row starts with rows that are durable or will be flushed; so
     it is if no restore is cut.
     */
    method Campaign(entries: seq<Entry>, staged: Tree, folders: set<Path>, attempts: nat, ghost pre: Tree, ghost still: bool)
      returns (deployed: Status, last: Status, ghost cut: bool, ghost starts: seq<Start>)
      requires DistinctEntries(entries) && disk.backup.None?
      requires still ==> CalmFor(entries, schedule) && Still(entries, pre, disk)
      modifies this
      ensures old(history) <= history && old(writes) <= writes
      ensures disk.backup.None? ==> writes == old(writes) && starts == [] && !last.Done?
      ensures disk.backup.Some? ==> var rows := disk.backup.value.rows;
        Covers(entries, rows) && ChangesOnly(rows, writes, |old(writes)|) && |starts| == attempts
      ensures cut ==> CutIn(schedule, old(clock), clock)
      ensures still ==> AllRestorable(entries, pre, history, |old(history)|)
      ensures still && disk.backup.None? ==> AllRecoverable(entries, pre, history, |old(history)|)
      ensures still && disk.backup.Some? ==> var rows := disk.backup.value.rows;
        && (!cut ==> AllClean(rows, starts))
        && (AllSound(rows, starts) ==> AllRecoverable(entries, pre, history, |old(history)|))
        && (NoFlush(schedule) ==> (AllSound(rows, starts) <==> AllRecoverable(entries, pre, history, |old(history)|)))
      ensures still && !cut ==> AllRecoverable(entries, pre, history, |old(history)|)
      ensures still && attempts > 0 && last.Done? ==> HoldsTree(entries, disk.vol, pre) && (!cut ==> HoldsTree(entries, disk.dur, pre))
      ensures still && attempts > 0 && last.Done? ==> var sound := Sound(disk.backup.value.rows, starts[|starts| - 1].disk);
        && (sound ==> HoldsTree(entries, disk.dur, pre))
        && (NoFlush(schedule) ==> (sound <==> HoldsTree(entries, disk.dur, pre)))
    {
      hide CalmFor, Calm, Clean, Adjacent, AllAdjacent, ValidRows, ChangesOnly, Covers, AllSound, AllClean, Sound, Stopped, CutIn, KeepsBackup;
      hide Recoverable, AllRecoverable, Restorable, AllRestorable, Still, NoFlush, RolledBack, HoldsTree, AllSafe, Safe, CompleteFor, Smooth;
      hide RollbackTimes, CampaignKeeps, RestoresOnly, Untouched, Accepted, LeavesWorkbook, DisturbedIn, ChosenRows, DeployTicks, Settled, DistinctEntries;
      ghost var h0, c0, w0 := history, clock, writes;
      deployed, cut := Deploy(entries, staged, folders, pre, still);
      last, starts := Raised, [];
      if disk.backup.None? {
        if still { RecoverableIsRestorable(entries, pre, history, |h0|, disk); }
        return;
      }
      ghost var b := disk.backup.value;
      if still { CampaignBegins(entries, pre, b, history, |h0|, disk, schedule, cut); }
      NoStarts(b.rows);
      var n := 0;
      while n < attempts
        invariant n <= attempts && disk.backup == Some(b) && ValidRows(b.rows) && Covers(entries, b.rows) && |starts| == n
        invariant old(history) <= history && old(writes) <= writes && ChangesOnly(b.rows, writes, |old(writes)|) && clock > c0
        invariant cut ==> CutIn(schedule, c0, clock)
        invariant still ==> CompleteFor(entries, pre, b) && Calm(b.rows, schedule)
        invariant still ==> CampaignKeeps(entries, pre, b, history, |h0|, disk, NoFlush(schedule), cut, starts)
        invariant still && n > 0 && last.Done? ==> CampaignEnds(entries, pre, b, disk, NoFlush(schedule), cut, starts)
      {
        ghost var h, d, w, c := history, disk, writes, clock;
        ghost var stopped;
        last, stopped := Rollback();
        ChangesAppend(b.rows, w, writes, |old(writes)|);
        if stopped.Some? {
          CutWiden(schedule, c, clock, c0, clock);
        } else if cut {
          CutWiden(schedule, c0, c, c0, clock);
        }
        if still {
          CampaignNext(entries, pre, b, h, history, |h0|, d, disk, NoFlush(schedule), cut, stopped.Some?, starts, writes != w, last);
        }
        cut, starts := cut || stopped.Some?, starts + [Start(d, writes != w)];
        n := n + 1;
      }
      if still { CampaignResult(entries, pre, b, history, |h0|, disk, NoFlush(schedule), cut, starts); }
    }
  }

  /**
   A run with a single kill, as a campaign with two rollbacks has it, for any acceptable manifest of two
   files to replace that lie in different directories below the root. A rollback is killed after it has
   renamed the second file back and before it flushes it. The next rollback finds that file restored,
   does not flush it, restores the other one and reports success: a power loss would now bring one
   candidate back, which is no step of the deployment.
   */
  method CutRollbackIsNotDurable(f: Files) returns (w: World, deployed: Status, first: Status, second: Status)
    requires f.Valid()
    ensures deployed.Done? && first.Dead? && second.Done? && w.schedule == KillAt(22)
    ensures Get(w.disk.vol, f.first.path) == f.first.baseline && Get(w.disk.vol, f.second.path) == f.second.baseline
    ensures Get(w.disk.dur, f.second.path) == Some(f.second.candidate)
    ensures !Recoverable(f.Entries(), f.Target(), w.disk)
  {
    hide NoFlush, NoPowerLoss, CalmFor, Calm, Untouched, DisturbedIn, PassedIn, Stopped, DistinctEntries, Still, Accepted, LeavesWorkbook, ChosenRows;
    hide ValidRows, DeployTicks, Settled, Planned, PrepareTicks, CutState, SoundRow, RolledBack, Safe, Recoverable, AllRecoverable, Clean;
    hide Files.Rows, Files.Entries, Files.Target, Files.Staged, Files.Folders, Files.Valid, Adjacent, AllAdjacent, AllSafe, CutIn, Covers;
    hide ChangesOnly, RestoresOnly, WorkbookFits, OriginalsComplete, CompleteFor, RollbackTimes, Sound;
    FilesDeploy(f);
    FilesTicks(f);
    KillIsCalm(f, 22);
    NotDisturbed(22, 0, 15);
    w := new World(Disk(f.Target(), f.Target(), None), KillAt(22), f.policy);
    ghost var cut;
    deployed, cut := w.Deploy(f.Entries(), f.Staged(), f.Folders(), f.Target(), true);
    ghost var b, d := w.disk.backup.value, w.disk;
    RecoverableBackup(f.Entries(), f.Target(), b, d);
    CompleteParts(f.Entries(), f.Target(), b);
    TwoRows(f);
    WorkbookStays(f, Get(d.vol, f.policy.path));
    ghost var at;
    first, at := w.Rollback();
    ghost var d' := w.disk;
    FirstIsCut(f, d, d', w.clock, first, at);
    CutLeaves(f, d, d');
    WorkbookStays(f, Get(d'.vol, f.policy.path));
    second, at := w.Rollback();
    OnlyKillStops(second, w.clock);
    LeftBehind(f, d', w.disk, f.Target(), b);
  }
}
