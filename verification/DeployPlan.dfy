/** What a rollback plans, when the plan leaves nothing undone, and how the rows are restored. */
module DeployPlan {
  import opened Options
  import opened Paths
  import opened DeployModel
  import opened DeployFacts
  import opened DeploySteps

  /** The originals that a rollback needs. */
  predicate OriginalsComplete(b: Backup) {
    forall i :: 0 <= i < |b.rows| && b.rows[i].action.Replace? ==>
      Get(b.originals, b.rows[i].Path()) == b.rows[i].entry.baseline
  }

  // ----- The plan -----

  predicate Changed(row: Row, t: Tree) {
    !row.action.Skip? && Get(t, row.Path()) == row.After()
  }

  /** The changed rows among the first n, in order. */
  function Planned(rows: seq<Row>, t: Tree, n: nat): (r: seq<nat>)
    requires n <= |rows|
  {
    if n == 0 then []
    else Planned(rows, t, n - 1) + if Changed(rows[n - 1], t) then [n - 1] else []
  }

  predicate Ascending(s: seq<nat>) {
    forall j, k :: 0 <= j < k < |s| ==> s[j] < s[k]
  }

  /** Rows of the list that can be restored, in ascending order. */
  predicate Restorables(rows: seq<Row>, restore: seq<nat>) {
    Ascending(restore) && forall k :: 0 <= k < |restore| ==> restore[k] < |rows| && !rows[restore[k]].action.Skip?
  }

  lemma {:induction false} PlannedAre(rows: seq<Row>, t: Tree, n: nat)
    requires n <= |rows|
    ensures forall k :: 0 <= k < |Planned(rows, t, n)| ==> Planned(rows, t, n)[k] < n
    ensures forall i :: i in Planned(rows, t, n) <==> 0 <= i < n && Changed(rows[i], t)
    ensures Restorables(rows, Planned(rows, t, n))
  {
    if n > 0 {
      hide Changed, Restorables;
      PlannedAre(rows, t, n - 1);
      if Changed(rows[n - 1], t) {
        ChangedIsNotSkipped(rows[n - 1], t);
        OneMoreRestorable(rows, Planned(rows, t, n - 1), n - 1);
      }
    }
  }

  lemma OneMoreRestorable(rows: seq<Row>, restore: seq<nat>, i: nat)
    requires Restorables(rows, restore) && i < |rows| && !rows[i].action.Skip?
    requires forall k :: 0 <= k < |restore| ==> restore[k] < i
    ensures Restorables(rows, restore + [i])
  {
  }

  lemma ChangedIsNotSkipped(row: Row, t: Tree)
    ensures Changed(row, t) ==> !row.action.Skip?
  {
  }

  /** The rows hold what a rollback can deal with. */
  predicate HeldTo(rows: seq<Row>, t: Tree, n: nat)
    requires n <= |rows|
  {
    forall i :: 0 <= i < n ==> Holds(rows[i], Get(t, rows[i].Path()))
  }

  datatype Decision = Refuse | Leave | Restore

  /** What a rollback does with a row whose path holds a content. */
  function PlanRow(row: Row, originals: Tree, actual: Content): Decision {
    if row.action.Skip? then (if actual != row.After() then Refuse else Leave)
    else if row.entry.baseline.Some? && Get(originals, row.Path()) != row.entry.baseline then Refuse
    else if actual == row.entry.baseline then Leave
    else if actual != row.After() then Refuse
    else Restore
  }

  lemma NothingPlanned(rows: seq<Row>, d: Disk, noFlush: bool)
    ensures Planned(rows, d.vol, 0) == [] && HeldTo(rows, d.vol, 0) && UnchangedSince(rows, d, d, {}, noFlush)
    ensures Restorables(rows, [])
  {
  }

  /** One more row is planned as it was when the rollback started. */
  lemma PlanStep(rows: seq<Row>, start: Disk, d: Disk, i: nat, originals: Tree, noFlush: bool)
    requires ValidRows(rows) && i < |rows| && UnchangedSince(rows, start, d, {}, noFlush) && HeldTo(rows, start.vol, i)
    requires !PlanRow(rows[i], originals, Get(d.vol, rows[i].Path())).Refuse?
    ensures HeldTo(rows, start.vol, i + 1)
    ensures Planned(rows, start.vol, i + 1)
         == Planned(rows, start.vol, i) + if PlanRow(rows[i], originals, Get(d.vol, rows[i].Path())).Restore? then [i] else []
  {
    assert rows[i].Valid() && LeftRow(rows[i], start, d, {}, noFlush);
    hide ValidRows, UnchangedSince;
  }

  lemma PlanAppend(rows: seq<Row>, restore: seq<nat>, i: nat, originals: Tree, actual: Content)
    requires Restorables(rows, restore) && i < |rows| && forall k :: 0 <= k < |restore| ==> restore[k] < i
    ensures PlanRow(rows[i], originals, actual).Restore? ==> Restorables(rows, restore + [i])
  {
  }

  lemma SafeRowsArePlanned(b: Backup, start: Disk, d: Disk, i: nat, noFlush: bool)
    requires ValidRows(b.rows) && i < |b.rows| && OriginalsComplete(b)
    requires Safe(b.rows, start) && UnchangedSince(b.rows, start, d, {}, noFlush)
    ensures !PlanRow(b.rows[i], b.originals, Get(d.vol, b.rows[i].Path())).Refuse?
  {
    assert b.rows[i].Valid() && LeftRow(b.rows[i], start, d, {}, noFlush);
    assert Holds(b.rows[i], Get(start.vol, b.rows[i].Path()));
  }

  /** The originals of the first n rows. */
  predicate OriginalsTo(b: Backup, n: nat)
    requires n <= |b.rows|
  {
    forall i :: 0 <= i < n && b.rows[i].action.Replace? ==> Get(b.originals, b.rows[i].Path()) == b.rows[i].entry.baseline
  }

  lemma OriginalsOfAll(b: Backup)
    ensures OriginalsTo(b, 0) && (OriginalsTo(b, |b.rows|) <==> OriginalsComplete(b))
  {
  }

  /** A row is planned only when the backup holds its original. */
  lemma OriginalPlanned(b: Backup, i: nat, actual: Content)
    requires ValidRows(b.rows) && i < |b.rows| && OriginalsTo(b, i) && !PlanRow(b.rows[i], b.originals, actual).Refuse?
    ensures OriginalsTo(b, i + 1)
  {
    assert b.rows[i].Valid();
  }

  // ----- The directories that a rollback flushes first -----

  function ProbeDirs(rows: seq<Row>, restore: seq<nat>): set<Path>
    requires Restorables(rows, restore)
  {
    {""} + set k | 0 <= k < |restore| :: Parent(rows[restore[k]].Path())
  }

  /** The number of events before a rollback restores the first row. */
  function PrepareTicks(rows: seq<Row>, t: Tree): nat {
    PlannedAre(rows, t, |rows|);
    1 + |rows| + |ProbeDirs(rows, Planned(rows, t, |rows|))|
  }

  lemma PrepareTicksAre(rows: seq<Row>, t: Tree, restore: seq<nat>)
    requires restore == Planned(rows, t, |rows|)
    ensures Restorables(rows, restore) && PrepareTicks(rows, t) == 1 + |rows| + |ProbeDirs(rows, restore)|
  {
    PlannedAre(rows, t, |rows|);
  }

  /** The directory of a row is the root, or one where the rollback has something to restore. */
  predicate Covered(rows: seq<Row>, t: Tree, i: nat)
    requires i < |rows|
  {
    || Parent(rows[i].Path()) == ""
    || exists j :: 0 <= j < |rows| && Changed(rows[j], t) && Parent(rows[j].Path()) == Parent(rows[i].Path())
  }

  /** A rollback that completes makes the row durable: the row is clean, or its directory is flushed. */
  predicate SoundRow(rows: seq<Row>, d: Disk, i: nat)
    requires i < |rows|
  {
    CleanRow(rows[i], d) || Covered(rows, d.vol, i)
  }

  predicate Sound(rows: seq<Row>, d: Disk) {
    forall i :: 0 <= i < |rows| ==> SoundRow(rows, d, i)
  }

  lemma CleanIsSound(rows: seq<Row>, d: Disk)
    ensures Clean(rows, d) ==> Sound(rows, d)
  {
  }

  lemma CoveredIsProbed(rows: seq<Row>, t: Tree, i: nat)
    requires i < |rows|
    ensures var restore := Planned(rows, t, |rows|);
      Restorables(rows, restore) && (Covered(rows, t, i) <==> Parent(rows[i].Path()) in ProbeDirs(rows, restore))
  {
    hide Changed, Planned, Parent;
    var restore := Planned(rows, t, |rows|);
    PlannedAre(rows, t, |rows|);
    if j :| 0 <= j < |rows| && Changed(rows[j], t) && Parent(rows[j].Path()) == Parent(rows[i].Path()) {
      assert j in restore;
    }
    if Parent(rows[i].Path()) != "" && Parent(rows[i].Path()) in ProbeDirs(rows, restore) {
      var k :| 0 <= k < |restore| && Parent(rows[restore[k]].Path()) == Parent(rows[i].Path());
      assert restore[k] in restore;
    }
  }

  /** After the plan and the flushes: nothing visible has changed, and the directories of the plan are flushed. */
  predicate Prepared(rows: seq<Row>, start: Disk, d: Disk, restore: seq<nat>, noFlush: bool)
    requires Restorables(rows, restore)
  {
    && restore == Planned(rows, start.vol, |rows|) && HeldTo(rows, start.vol, |rows|)
    && UnchangedSince(rows, start, d, ProbeDirs(rows, restore), noFlush) && Flushed(rows, d, ProbeDirs(rows, restore))
  }

  lemma PreparedRow(rows: seq<Row>, start: Disk, d: Disk, restore: seq<nat>, noFlush: bool, i: nat)
    requires Restorables(rows, restore) && Prepared(rows, start, d, restore, noFlush) && i < |rows|
    ensures SystemOnlyRow(rows[i], start, d) && Holds(rows[i], Get(start.vol, rows[i].Path()))
    ensures Covered(rows, start.vol, i) ==> Get(d.dur, rows[i].Path()) == Get(d.vol, rows[i].Path())
    ensures noFlush && !Covered(rows, start.vol, i) ==> Get(d.dur, rows[i].Path()) == Get(start.dur, rows[i].Path())
    ensures i in restore <==> Changed(rows[i], start.vol)
  {
    CoveredIsProbed(rows, start.vol, i);
    PlannedAre(rows, start.vol, |rows|);
    assert LeftRow(rows[i], start, d, ProbeDirs(rows, restore), noFlush);
    hide Covered, ProbeDirs, Planned, Changed;
  }

  lemma SoundIsClean(rows: seq<Row>, start: Disk, d: Disk, restore: seq<nat>, noFlush: bool)
    requires Restorables(rows, restore) && Prepared(rows, start, d, restore, noFlush) && Sound(rows, start)
    ensures Clean(rows, d)
  {
    hide Prepared, Restorables, Covered;
    forall i | 0 <= i < |rows|
      ensures CleanRow(rows[i], d)
    {
      PreparedRow(rows, start, d, restore, noFlush, i);
      assert SoundRow(rows, start, i);
    }
  }

  lemma PlannedSame(rows: seq<Row>, t: Tree, t': Tree, n: nat)
    requires n <= |rows| && forall i :: 0 <= i < n ==> Get(t, rows[i].Path()) == Get(t', rows[i].Path())
    ensures Planned(rows, t, n) == Planned(rows, t', n)
  {
  }

  lemma PreparedPlan(rows: seq<Row>, start: Disk, d: Disk, restore: seq<nat>, noFlush: bool)
    requires Restorables(rows, restore) && Prepared(rows, start, d, restore, noFlush)
    ensures restore == Planned(rows, d.vol, |rows|) && HoldCandidates(rows, d, restore)
  {
    assert restore == Planned(rows, start.vol, |rows|);
    forall i | 0 <= i < |rows|
      ensures Get(start.vol, rows[i].Path()) == Get(d.vol, rows[i].Path())
    {
      assert LeftRow(rows[i], start, d, ProbeDirs(rows, restore), noFlush);
    }
    hide Planned, Prepared, ProbeDirs, Changed;
    PlannedSame(rows, start.vol, d.vol, |rows|);
    PlannedHold(rows, d, restore);
  }

  predicate HoldCandidates(rows: seq<Row>, d: Disk, restore: seq<nat>) {
    forall k :: 0 <= k < |restore| && restore[k] < |rows| ==> Get(d.vol, rows[restore[k]].Path()) == rows[restore[k]].After()
  }

  lemma PlannedHold(rows: seq<Row>, d: Disk, restore: seq<nat>)
    requires restore == Planned(rows, d.vol, |rows|)
    ensures HoldCandidates(rows, d, restore)
  {
    PlannedAre(rows, d.vol, |rows|);
    forall k | 0 <= k < |restore| && restore[k] < |rows|
      ensures Get(d.vol, rows[restore[k]].Path()) == rows[restore[k]].After()
    {
      assert restore[k] in restore;
    }
  }

  // ----- Stages before and while rows are restored -----

  /** The rows to restore are exactly the changed ones below top. */
  predicate Prefix(rows: seq<Row>, restore: seq<nat>, top: int) {
    && 0 <= top <= |rows|
    && forall j: nat :: j < |rows| ==> (j in restore <==> j < top && !rows[j].action.Skip?)
  }

  /** A disk at a stage that has been flushed, except perhaps for its last replacement. */
  predicate Ready(rows: seq<Row>, d: Disk, restore: seq<nat>, top: int) {
    && Prefix(rows, restore, top)
    && AtStage(rows, d.vol, top)
    && (AtStage(rows, d.dur, top) || AtStage(rows, d.dur, top - 1))
  }

  /** The stage of the visible tree when a rollback starts to restore. */
  ghost function TopStage(rows: seq<Row>, d: Disk, restore: seq<nat>, k: int): (top: int)
    requires ValidRows(rows) && Between(rows, d, k) && Clean(rows, d) && -1 <= k <= |rows|
    requires restore == Planned(rows, d.vol, |rows|)
    ensures Ready(rows, d, restore, top)
  {
    var m := if AtStage(rows, d.vol, k) then k else k + 1;
    var top := if m < 0 then 0 else if m > |rows| then |rows| else m;
    TopStageReady(rows, d, restore, k, m, top);
    top
  }

  lemma TopStageReady(rows: seq<Row>, d: Disk, restore: seq<nat>, k: int, m: int, top: int)
    requires ValidRows(rows) && Between(rows, d, k) && Clean(rows, d) && -1 <= k <= |rows|
    requires restore == Planned(rows, d.vol, |rows|)
    requires m == (if AtStage(rows, d.vol, k) then k else k + 1) && top == if m < 0 then 0 else if m > |rows| then |rows| else m
    ensures Ready(rows, d, restore, top)
  {
    assert AtStage(rows, d.vol, top);
    PlannedAre(rows, d.vol, |rows|);
    StageIsPrefix(rows, d.vol, restore, top);
    hide Planned, Prefix;
    if m == k && 0 <= k < |rows| && AtStage(rows, d.dur, k + 1) {
      assert CleanRow(rows[k], d);
      assert Get(d.dur, rows[k].Path()) == StageContent(rows, k, k + 1);
      SkipStages(rows, d.dur, k, k + 1);
    }
  }

  lemma StageIsPrefix(rows: seq<Row>, t: Tree, restore: seq<nat>, top: int)
    requires ValidRows(rows) && AtStage(rows, t, top) && 0 <= top <= |rows|
    requires forall i :: i in restore <==> 0 <= i < |rows| && Changed(rows[i], t)
    ensures Prefix(rows, restore, top)
  {
    forall j: nat | j < |rows|
      ensures j in restore <==> j < top && !rows[j].action.Skip?
    {
      assert rows[j].Valid() && Get(t, rows[j].Path()) == StageContent(rows, j, top);
    }
  }

  lemma NotListed(s: seq<nat>, k: nat, j: nat)
    requires Ascending(s) && k < |s| && s[k] < j && (k + 1 < |s| ==> j < s[k + 1])
    ensures j !in s
  {
    forall m | 0 <= m < |s|
      ensures s[m] != j
    {
      if m > k + 1 {
        assert s[k + 1] < s[m];
      }
    }
  }

  lemma ReadyIsAdjacent(rows: seq<Row>, d: Disk, restore: seq<nat>, top: int)
    requires Ready(rows, d, restore, top) && Restorables(rows, restore)
    ensures Prefix(rows, restore, top) && Adjacent(rows, d)
    ensures restore != [] ==> Between(rows, d, restore[|restore| - 1])
  {
    assert Between(rows, d, top - 1);
    if restore != [] {
      var i := restore[|restore| - 1];
      assert i in restore;
      forall j | i + 1 <= j < top
        ensures rows[j].action.Skip?
      {
        NotListed(restore, |restore| - 1, j);
      }
      SkipStages(rows, d.vol, i + 1, top);
      SkipStages(rows, d.dur, i + 1, top);
      if i + 1 < top {
        SkipStages(rows, d.dur, i + 1, top - 1);
      }
    }
  }

  /** After row i has been restored, the disk is ready for the row before it in the list. */
  lemma NextReady(rows: seq<Row>, d: Disk, restore: seq<nat>, top: int, k: nat)
    requires Prefix(rows, restore, top) && k < |restore| && Restorables(rows, restore)
    requires Settled(rows, d, restore[k])
    ensures k > 0 ==> Between(rows, d, restore[k - 1])
  {
    if k > 0 {
      var i, next := restore[k], restore[k - 1];
      assert i in restore && next in restore;
      forall j | next + 1 <= j < i
        ensures rows[j].action.Skip?
      {
        NotListed(restore, k - 1, j);
      }
      SkipStages(rows, d.vol, next + 1, i);
      SkipStages(rows, d.dur, next + 1, i);
    }
  }

  // ----- Rows that have been restored -----

  /** Rows from position k of the list on have been restored; the others were left to the system. */
  ghost predicate RestoredSince(rows: seq<Row>, d: Disk, d': Disk, restore: seq<nat>, k: nat, dirs: set<Path>, noFlush: bool)
    requires k <= |restore|
  {
    forall j: nat :: j < |rows| ==>
      if j in restore[k..] then RestoredRow(rows[j], d') else LeftRow(rows[j], d, d', dirs, noFlush)
  }

  lemma NothingRestored(rows: seq<Row>, d: Disk, restore: seq<nat>, dirs: set<Path>, noFlush: bool)
    ensures RestoredSince(rows, d, d, restore, |restore|, dirs, noFlush)
  {
  }

  /** A row whose turn has not come still holds what it held. */
  lemma StillCandidate(rows: seq<Row>, start: Disk, here: Disk, restore: seq<nat>, k: nat, dirs: set<Path>, noFlush: bool)
    requires k < |restore| && Restorables(rows, restore) && RestoredSince(rows, start, here, restore, k + 1, dirs, noFlush)
    ensures SystemOnlyRow(rows[restore[k]], start, here)
  {
    assert restore[k] !in restore[k + 1..];
  }

  lemma OneMoreRestored(rows: seq<Row>, start: Disk, here: Disk, d: Disk, restore: seq<nat>, k: nat, dirs: set<Path>, noFlush: bool)
    requires k < |restore| && restore[k] < |rows|
    requires RestoredSince(rows, start, here, restore, k + 1, dirs, noFlush)
    requires OthersSince(rows, here, d, restore[k], {Parent(rows[restore[k]].Path())}, noFlush) && RestoredRow(rows[restore[k]], d)
    requires Parent(rows[restore[k]].Path()) in dirs
    ensures RestoredSince(rows, start, d, restore, k, dirs, noFlush)
  {
    hide Parent, LeftRow, RestoredRow;
    assert restore[k..] == [restore[k]] + restore[k + 1..];
    forall j: nat | j < |rows|
      ensures if j in restore[k..] then RestoredRow(rows[j], d) else LeftRow(rows[j], start, d, dirs, noFlush)
    {
      if j != restore[k] {
        assert LeftRow(rows[j], here, d, {Parent(rows[restore[k]].Path())}, noFlush);
        if j in restore[k + 1..] {
          RestoredStays(rows[j], here, d, {Parent(rows[restore[k]].Path())}, noFlush);
        } else {
          LeftRowTransitive(rows[j], start, here, d, dirs, {Parent(rows[restore[k]].Path())}, dirs, noFlush);
        }
      }
    }
  }

  lemma RestoredStays(row: Row, here: Disk, d: Disk, dirs: set<Path>, noFlush: bool)
    requires RestoredRow(row, here) && LeftRow(row, here, d, dirs, noFlush)
    ensures RestoredRow(row, d)
  {
  }

  /** What a restore leaves that is cut at position m of the list: later rows are restored, earlier ones were left to the system. */
  ghost predicate CutState(rows: seq<Row>, d: Disk, d': Disk, restore: seq<nat>, m: nat) {
    m < |restore| && forall j: nat :: j < |rows| ==>
      if j in restore[m + 1..] then RestoredRow(rows[j], d')
      else if j == restore[m] then CutRow(rows[j], d, d')
      else SystemOnlyRow(rows[j], d, d')
  }

  lemma CutAfter(rows: seq<Row>, start: Disk, here: Disk, d: Disk, restore: seq<nat>, m: nat, dirs: set<Path>, noFlush: bool)
    requires m < |restore| && Restorables(rows, restore)
    requires RestoredSince(rows, start, here, restore, m + 1, dirs, noFlush)
    requires OthersSince(rows, here, d, restore[m], {Parent(rows[restore[m]].Path())}, noFlush) && CutRow(rows[restore[m]], here, d)
    ensures CutState(rows, start, d, restore, m)
  {
    StillCandidate(rows, start, here, restore, m, dirs, noFlush);
    hide Parent, Restorables;
    forall j: nat | j < |rows| && j != restore[m]
      ensures j in restore[m + 1..] ==> RestoredRow(rows[j], d)
      ensures j !in restore[m + 1..] ==> SystemOnlyRow(rows[j], start, d)
    {
      assert LeftRow(rows[j], here, d, {Parent(rows[restore[m]].Path())}, noFlush);
      assert j !in restore[m + 1..] ==> LeftRow(rows[j], start, here, dirs, noFlush);
    }
    assert CutRow(rows[restore[m]], start, d);
    assert restore[m] !in restore[m + 1..] by { LaterRows(rows, restore, m); }
  }

  lemma LaterRows(rows: seq<Row>, restore: seq<nat>, m: nat)
    requires m < |restore| && Restorables(rows, restore)
    ensures restore[m] !in restore[m + 1..]
  {
  }

  lemma CutSincePrepared(rows: seq<Row>, start: Disk, d: Disk, d': Disk, restore: seq<nat>, m: nat, noFlush: bool)
    requires Restorables(rows, restore) && Prepared(rows, start, d, restore, noFlush) && CutState(rows, d, d', restore, m)
    ensures CutState(rows, start, d', restore, m)
  {
    hide Restorables, Prepared, Covered, Changed;
    forall j: nat | j < |rows|
      ensures SystemOnlyRow(rows[j], start, d)
    {
      PreparedRow(rows, start, d, restore, noFlush, j);
    }
  }

  lemma RestorableAt(rows: seq<Row>, restore: seq<nat>, k: nat)
    requires Restorables(rows, restore) && k < |restore|
    ensures restore[k] < |rows| && !rows[restore[k]].action.Skip? && Parent(rows[restore[k]].Path()) in ProbeDirs(rows, restore)
  {
  }

  lemma CandidateHeld(rows: seq<Row>, start: Disk, here: Disk, restore: seq<nat>, k: nat)
    requires k < |restore| && restore[k] < |rows| && SystemOnlyRow(rows[restore[k]], start, here)
    ensures HoldCandidates(rows, start, restore) ==> Get(here.vol, rows[restore[k]].Path()) == rows[restore[k]].After()
  {
  }

  /** A row that lags behind all rows to restore shows in a history. */
  ghost predicate LagShowsIn(rows: seq<Row>, d: Disk, restore: seq<nat>, h: seq<Disk>, from: nat) {
    forall m :: Lags(rows, d, m) && LiesBehind(restore, m) ==> !AllAdjacent(rows, h, from)
  }

  predicate LiesBehind(restore: seq<nat>, m: nat) {
    forall k :: 0 <= k < |restore| ==> restore[k] < m
  }

  lemma LagShown(rows: seq<Row>, d: Disk, restore: seq<nat>, k: nat, h: seq<Disk>, h': seq<Disk>, from: nat, from': nat)
    requires k < |restore| && from' <= from && h <= h'
    requires LagShows(rows, d, restore[k], h, from) || LagShowsIn(rows, d, restore, h, from)
    ensures LagShowsIn(rows, d, restore, h', from')
  {
    hide Lags, AllAdjacent;
    forall m | Lags(rows, d, m) && LiesBehind(restore, m)
      ensures !AllAdjacent(rows, h', from')
    {
      assert restore[k] < m;
      NotAdjacentStays(rows, h, h', from, from');
    }
  }

  lemma RestoredNext(rows: seq<Row>, start: Disk, here: Disk, d: Disk, restore: seq<nat>, k: nat, dirs: set<Path>, noFlush: bool,
                     h: seq<Disk>, from: nat, renamed: bool, s: Status, cut: bool)
    requires k < |restore| && Restorables(rows, restore) && dirs == ProbeDirs(rows, restore)
    requires RestoredSince(rows, start, here, restore, k + 1, dirs, noFlush) && RowRestored(rows, restore[k], here, d, h, from, noFlush, renamed, s, cut)
    ensures s.Done? ==> RestoredSince(rows, start, d, restore, k, dirs, noFlush)
    ensures cut ==> CutState(rows, start, d, restore, k)
    ensures Clean(rows, here) && !cut ==> Clean(rows, d)
  {
    RestorableAt(rows, restore, k);
    hide Restorables, RestoredSince, OthersSince, RestoredRow, CutRow, CutState, Clean, ProbeDirs, Adjacent, AllAdjacent, LagShows;
    if s.Done? {
      OneMoreRestored(rows, start, here, d, restore, k, dirs, noFlush);
    }
    if cut {
      CutAfter(rows, start, here, d, restore, k, dirs, noFlush);
    }
  }

  // ----- The progress of a rollback -----

  /** What is to be kept: whether there are no foreign writes, and what held at the start. */
  datatype Goals = Goals(calm: bool, safe: bool, ready: bool, clean: bool, noFlush: bool)

  /** Rows from position k on have been restored. */
  ghost predicate Progress(rows: seq<Row>, restore: seq<nat>, k: nat, g: Goals, start: Disk, d: Disk, h: seq<Disk>, from: nat)
    requires k <= |restore| && Restorables(rows, restore)
  {
    && from <= |h|
    && (g.safe ==> Safe(rows, d) && AllSafe(rows, h, from))
    && (g.ready ==> Adjacent(rows, d) && AllAdjacent(rows, h, from) && (k > 0 ==> Between(rows, d, restore[k - 1])))
    && (g.clean ==> Clean(rows, d))
    && (g.calm ==> RestoredSince(rows, start, d, restore, k, ProbeDirs(rows, restore), g.noFlush))
    && (g.calm && g.noFlush && k < |restore| ==> LagShowsIn(rows, start, restore, h, from))
    && (k == |restore| ==> d == start && |h| == from)
  }

  /** What is true after the row at position k, however it ended. */
  ghost predicate Ended(rows: seq<Row>, restore: seq<nat>, k: nat, g: Goals, start: Disk, d: Disk, h: seq<Disk>, from: nat, renamed: bool,
                        s: Status, cut: bool)
    requires k < |restore| && Restorables(rows, restore)
  {
    && (g.safe ==> Safe(rows, d) && AllSafe(rows, h, from))
    && (g.ready ==> Adjacent(rows, d) && AllAdjacent(rows, h, from))
    && (g.clean && !cut ==> Clean(rows, d))
    && (g.calm && cut ==> CutState(rows, start, d, restore, k))
    && (g.calm && g.noFlush && (renamed || k + 1 < |restore|) ==> LagShowsIn(rows, start, restore, h, from))
    && (g.calm && !renamed && k + 1 == |restore| && Adjacent(rows, start) ==> Adjacent(rows, d) && AllAdjacent(rows, h, from))
  }

  lemma ProgressBegins(rows: seq<Row>, restore: seq<nat>, g: Goals, d: Disk, h: seq<Disk>, top: int)
    requires Restorables(rows, restore)
    requires (g.safe ==> Safe(rows, d)) && (g.ready ==> Ready(rows, d, restore, top)) && (g.clean ==> Clean(rows, d))
    ensures Progress(rows, restore, |restore|, g, d, d, h, |h|)
  {
    hide Safe, Adjacent, Between, Clean, RestoredSince, Ready, Prefix, Restorables, LagShowsIn;
    if g.ready {
      ReadyIsAdjacent(rows, d, restore, top);
    }
    NothingRestored(rows, d, restore, ProbeDirs(rows, restore), g.noFlush);
    NothingRecorded(rows, h);
  }

  lemma ProgressAt(rows: seq<Row>, restore: seq<nat>, k: nat, g: Goals, start: Disk, here: Disk, h: seq<Disk>, from: nat)
    requires k < |restore| && Restorables(rows, restore) && Progress(rows, restore, k + 1, g, start, here, h, from)
    ensures restore[k] < |rows| && !rows[restore[k]].action.Skip?
    ensures (g.safe ==> Safe(rows, here)) && (g.ready ==> Between(rows, here, restore[k]))
    ensures g.calm && HoldCandidates(rows, start, restore) ==> Get(here.vol, rows[restore[k]].Path()) == rows[restore[k]].After()
  {
    RestorableAt(rows, restore, k);
    hide Safe, Adjacent, Between, Clean, RestoredSince, Restorables, LagShowsIn, HoldCandidates;
    if g.calm {
      StillCandidate(rows, start, here, restore, k, ProbeDirs(rows, restore), g.noFlush);
      CandidateHeld(rows, start, here, restore, k);
    }
  }

  lemma ProgressNext(rows: seq<Row>, restore: seq<nat>, k: nat, g: Goals, start: Disk, here: Disk, d: Disk, h: seq<Disk>, h': seq<Disk>,
                     from: nat, top: int, renamed: bool, s: Status, cut: bool)
    requires k < |restore| && Restorables(rows, restore) && restore[k] < |rows|
    requires Progress(rows, restore, k + 1, g, start, here, h, from) && h <= h' && (s.Done? ==> renamed && !cut)
    requires g.safe ==> Safe(rows, d) && AllSafe(rows, h', |h|)
    requires g.ready ==> Adjacent(rows, d) && AllAdjacent(rows, h', |h|) && Ready(rows, start, restore, top)
    requires g.ready && s.Done? ==> Settled(rows, d, restore[k])
    requires g.clean ==> g.calm
    requires g.calm ==> RowRestored(rows, restore[k], here, d, h', |h|, g.noFlush, renamed, s, cut)
    ensures s.Done? ==> Progress(rows, restore, k, g, start, d, h', from)
    ensures Ended(rows, restore, k, g, start, d, h', from, renamed, s, cut)
  {
    hide Safe, Adjacent, Between, Settled, Clean, RestoredSince, Restorables, LagShowsIn, RowRestored, AllSafe, AllAdjacent, CutState;
    if g.safe { AllSafeAppend(rows, h, h', from); }
    if g.ready {
      AllAdjacentAppend(rows, h, h', from);
      if s.Done? { NextReady(rows, d, restore, top, k); }
    }
    if g.calm {
      RestoredNext(rows, start, here, d, restore, k, ProbeDirs(rows, restore), g.noFlush, h', |h|, renamed, s, cut);
      LagNext(rows, restore, k, g, start, here, d, h, h', from, renamed, s, cut);
    }
  }

  lemma LagNext(rows: seq<Row>, restore: seq<nat>, k: nat, g: Goals, start: Disk, here: Disk, d: Disk, h: seq<Disk>, h': seq<Disk>,
                from: nat, renamed: bool, s: Status, cut: bool)
    requires k < |restore| && Restorables(rows, restore) && restore[k] < |rows| && h <= h' && from <= |h|
    requires g.noFlush && k + 1 < |restore| ==> LagShowsIn(rows, start, restore, h, from)
    requires k + 1 == |restore| ==> here == start && |h| == from
    requires RowRestored(rows, restore[k], here, d, h', |h|, g.noFlush, renamed, s, cut)
    ensures g.noFlush && (renamed || k + 1 < |restore|) ==> LagShowsIn(rows, start, restore, h', from)
    ensures !renamed && k + 1 == |restore| && Adjacent(rows, start) ==> Adjacent(rows, d) && AllAdjacent(rows, h', from)
  {
    hide Adjacent, Clean, LagShows, LagShowsIn, AllAdjacent, CutRow, RestoredRow, OthersSince, Restorables;
    if g.noFlush {
      if k + 1 < |restore| {
        LagShown(rows, start, restore, k, h, h', from, from);
      } else if renamed {
        LagShown(rows, start, restore, k, h', h', |h|, from);
      }
    }
  }

  lemma EndedFacts(rows: seq<Row>, restore: seq<nat>, k: nat, g: Goals, start: Disk, d: Disk, h: seq<Disk>, from: nat, renamed: bool,
                   s: Status, cut: bool)
    requires k < |restore| && Restorables(rows, restore) && Ended(rows, restore, k, g, start, d, h, from, renamed, s, cut)
    ensures g.safe ==> Safe(rows, d) && AllSafe(rows, h, from)
    ensures g.ready ==> Adjacent(rows, d) && AllAdjacent(rows, h, from)
    ensures g.clean && !cut ==> Clean(rows, d)
    ensures g.calm && cut ==> CutState(rows, start, d, restore, k)
    ensures g.calm && g.noFlush && (renamed || k + 1 < |restore|) ==> LagShowsIn(rows, start, restore, h, from)
    ensures g.calm && !renamed && k + 1 == |restore| && Adjacent(rows, start) ==> Adjacent(rows, d) && AllAdjacent(rows, h, from)
  {
    hide Safe, Adjacent, Clean, LagShowsIn, AllAdjacent, AllSafe, CutState, Restorables;
  }

  lemma AllEnded(rows: seq<Row>, restore: seq<nat>, g: Goals, start: Disk, d: Disk, h: seq<Disk>, from: nat)
    requires Restorables(rows, restore) && Progress(rows, restore, 0, g, start, d, h, from)
    ensures g.safe ==> Safe(rows, d) && AllSafe(rows, h, from)
    ensures g.ready ==> Adjacent(rows, d) && AllAdjacent(rows, h, from)
    ensures g.clean ==> Clean(rows, d)
    ensures g.calm ==> RestoredSince(rows, start, d, restore, 0, ProbeDirs(rows, restore), g.noFlush)
    ensures g.calm && g.noFlush && restore != [] ==> LagShowsIn(rows, start, restore, h, from)
    ensures restore == [] && Adjacent(rows, start) ==> Adjacent(rows, d) && AllAdjacent(rows, h, from)
  {
    hide Safe, Adjacent, Clean, LagShowsIn, AllSafe, CutState, Restorables, RestoredSince;
  }

  // ----- What a completed rollback leaves -----

  /** Everything visible is restored; a row is durable if it was sound, and if the system flushes nothing by itself, only then. */
  ghost predicate RolledBack(rows: seq<Row>, d: Disk, d': Disk, noFlush: bool) {
    && AtStage(rows, d'.vol, 0)
    && forall i :: 0 <= i < |rows| ==> RolledBackRow(rows, d, d', i, noFlush)
  }

  ghost predicate RolledBackRow(rows: seq<Row>, d: Disk, d': Disk, i: nat, noFlush: bool)
    requires i < |rows|
  {
    && (SoundRow(rows, d, i) ==> Get(d'.dur, rows[i].Path()) == rows[i].Before())
    && (noFlush ==> (Get(d'.dur, rows[i].Path()) == rows[i].Before() <==> SoundRow(rows, d, i)))
  }

  lemma OneRolledBack(rows: seq<Row>, start: Disk, prepared: Disk, d: Disk, restore: seq<nat>, noFlush: bool, i: nat)
    requires ValidRows(rows) && Restorables(rows, restore) && Prepared(rows, start, prepared, restore, noFlush)
    requires RestoredSince(rows, prepared, d, restore, 0, ProbeDirs(rows, restore), noFlush) && i < |rows|
    ensures Get(d.vol, rows[i].Path()) == rows[i].Before() && RolledBackRow(rows, start, d, i, noFlush)
  {
    assert restore[0..] == restore && rows[i].Valid();
    PreparedRow(rows, start, prepared, restore, noFlush, i);
    assert Covered(rows, start.vol, i) <==> Parent(rows[i].Path()) in ProbeDirs(rows, restore) by {
      CoveredIsProbed(rows, start.vol, i);
    }
    assert i in restore ==> Covered(rows, start.vol, i);
    assert i in restore ==> RestoredRow(rows[i], d);
    assert i !in restore ==> LeftRow(rows[i], prepared, d, ProbeDirs(rows, restore), noFlush);
    hide RestoredSince, Prepared, ProbeDirs, Covered, Restorables, ValidRows, Parent;
  }

  lemma RestoredIsRolledBack(rows: seq<Row>, start: Disk, prepared: Disk, d: Disk, restore: seq<nat>, noFlush: bool)
    requires ValidRows(rows) && Restorables(rows, restore) && Prepared(rows, start, prepared, restore, noFlush)
    requires RestoredSince(rows, prepared, d, restore, 0, ProbeDirs(rows, restore), noFlush)
    ensures RolledBack(rows, start, d, noFlush)
  {
    hide RestoredSince, Prepared, ProbeDirs, Restorables, ValidRows, RolledBackRow;
    forall i | 0 <= i < |rows|
      ensures Get(d.vol, rows[i].Path()) == StageContent(rows, i, 0) && RolledBackRow(rows, start, d, i, noFlush)
    {
      OneRolledBack(rows, start, prepared, d, restore, noFlush, i);
    }
  }

  lemma RolledBackWorkbook(rows: seq<Row>, policy: Policy, start: Disk, d: Disk, noFlush: bool)
    requires ValidRows(rows) && RolledBack(rows, start, d, noFlush)
    requires WorkbookFits(rows, policy, Get(start.vol, policy.path))
    requires !Listed(rows, policy.path) ==> Get(d.vol, policy.path) == Get(start.vol, policy.path)
    ensures Get(d.vol, policy.path) == ExpectedWorkbook(rows, policy)
  {
    RestoredWorkbookIsExpected(rows, policy, Get(start.vol, policy.path), d.vol);
  }

  // ----- Rows that stay behind -----

  /** A row that is not sound was restored in memory only, and every changed row comes before it. */
  lemma UnsoundLags(rows: seq<Row>, d: Disk, m: nat)
    requires ValidRows(rows) && Adjacent(rows, d) && m < |rows| && !SoundRow(rows, d, m)
    ensures Lags(rows, d, m) && forall i :: 0 <= i < |rows| && Changed(rows[i], d.vol) ==> i < m
  {
    AdjacentIsSafe(rows, d);
    assert Holds(rows[m], Get(d.dur, rows[m].Path())) && rows[m].Valid();
    assert Lags(rows, d, m);
    var k: int :| -1 <= k <= |rows| && Between(rows, d, k);
    hide Covered;
    LagStage(rows, d, m, k);
  }

  lemma LagStage(rows: seq<Row>, d: Disk, m: nat, k: int)
    requires ValidRows(rows) && Lags(rows, d, m) && Between(rows, d, k)
    ensures forall i :: 0 <= i < |rows| && Changed(rows[i], d.vol) ==> i < m
  {
    assert rows[m].Valid();
    assert Get(d.vol, rows[m].Path()) == StageContent(rows, m, k) || Get(d.vol, rows[m].Path()) == StageContent(rows, m, k + 1);
    assert Get(d.dur, rows[m].Path()) == StageContent(rows, m, k) || Get(d.dur, rows[m].Path()) == StageContent(rows, m, k + 1);
    assert k == m && AtStage(rows, d.vol, m);
    forall i | 0 <= i < |rows| && Changed(rows[i], d.vol)
      ensures i < m
    {
      assert rows[i].Valid() && Get(d.vol, rows[i].Path()) == StageContent(rows, i, m);
    }
  }

  lemma LagIsPrepared(rows: seq<Row>, start: Disk, d: Disk, restore: seq<nat>, m: nat)
    requires Restorables(rows, restore) && Prepared(rows, start, d, restore, true) && Lags(rows, start, m) && !SoundRow(rows, start, m)
    requires forall i :: 0 <= i < |rows| && Changed(rows[i], start.vol) ==> i < m
    ensures Lags(rows, d, m) && LiesBehind(restore, m)
  {
    PreparedRow(rows, start, d, restore, true, m);
    PlannedAre(rows, start.vol, |rows|);
    hide Covered, Changed;
    forall k | 0 <= k < |restore|
      ensures restore[k] < m
    {
      assert restore[k] in restore;
    }
  }

  /** So a rollback that starts unsound leaves the steps of a deployment as soon as it restores a row. */
  lemma UnsoundShows(rows: seq<Row>, start: Disk, d: Disk, restore: seq<nat>, h: seq<Disk>, from: nat)
    requires ValidRows(rows) && Restorables(rows, restore) && Prepared(rows, start, d, restore, true)
    requires Adjacent(rows, start) && !Sound(rows, start) && LagShowsIn(rows, d, restore, h, from)
    ensures !AllAdjacent(rows, h, from)
  {
    var m :| 0 <= m < |rows| && !SoundRow(rows, start, m);
    hide Adjacent, SoundRow, Lags, Prepared, AllAdjacent, Restorables, LiesBehind, ValidRows;
    UnsoundLags(rows, start, m);
    LagIsPrepared(rows, start, d, restore, m);
  }

  // ----- When a rollback ends -----

  ghost function Stage(rows: seq<Row>, d: Disk): (k: int)
    requires Adjacent(rows, d)
    ensures -1 <= k <= |rows| && Between(rows, d, k)
  {
    var k: int :| -1 <= k <= |rows| && Between(rows, d, k);
    k
  }

  lemma PlanKeeps(rows: seq<Row>, schedule: nat -> Event, k: int, safe: bool, adjacent: bool, clean: bool, always: Disk -> bool)
    requires safe || adjacent || clean ==> Calm(rows, schedule)
    requires forall d :: always(d) <==> (safe ==> Safe(rows, d)) && (adjacent ==> Between(rows, d, k)) && (clean ==> Clean(rows, d))
    ensures KeptByEvents(always, schedule) && KeptByFlushes(always)
  {
    hide Safe, Between, Clean;
    forall d, t: nat | always(d)
      ensures always(AfterEvent(d, schedule(t)))
    {
      hide AfterEvent;
      if safe { EventKeepsSafe(rows, d, schedule(t)); }
      if adjacent { EventKeepsBetween(rows, d, schedule(t), k); }
      if clean { EventKeepsClean(rows, d, schedule(t)); }
    }
    forall d, dir | always(d)
      ensures always(FlushDirectory(d, dir))
    {
      hide FlushDirectory;
      if safe { FlushKeepsSafe(rows, d, dir); }
      if adjacent { FlushKeepsBetween(rows, d, dir, k); }
      if clean { FlushKeepsClean(rows, d, dir); }
    }
  }

  lemma PlanRecorded(rows: seq<Row>, history: seq<Disk>, from: nat, d: Disk, k: int, safe: bool, adjacent: bool, clean: bool, always: Disk -> bool)
    requires always(d) && Recorded(history, from, always) && (adjacent ==> -1 <= k <= |rows|)
    requires forall d :: always(d) <==> (safe ==> Safe(rows, d)) && (adjacent ==> Between(rows, d, k)) && (clean ==> Clean(rows, d))
    ensures safe ==> Safe(rows, d) && AllSafe(rows, history, from)
    ensures adjacent ==> Between(rows, d, k) && Adjacent(rows, d) && AllAdjacent(rows, history, from)
    ensures clean ==> Clean(rows, d)
  {
    hide Safe, Between, Clean;
  }

  /**
   When a rollback ends: it takes so many events, and if it completes, all those pass while it restores rows.
   It is cut just where the process ends at the second event of a row.
   */
  ghost predicate RollbackTimes(rows: seq<Row>, d: Disk, d': Disk, schedule: nat -> Event, from: nat, to: nat, s: Status, cut: Option<nat>) {
    var restore := Planned(rows, d.vol, |rows|);
    var lead := from + PrepareTicks(rows, d.vol);
    && to <= lead + 2 * |restore| && (s.Done? ==> to == lead + 2 * |restore| && PassedIn(schedule, lead, to))
    && (cut.Some? ==> cut.value < |restore| && to == lead + 2 * (|restore| - cut.value) && CutState(rows, d, d', restore, cut.value))
    && (to > lead && (to - lead) % 2 == 0 && Cuts(schedule(to - 1)) ==> cut.Some?)
  }

  lemma PreparedTicks(rows: seq<Row>, start: Disk, d: Disk, restore: seq<nat>, noFlush: bool)
    requires Restorables(rows, restore) && Prepared(rows, start, d, restore, noFlush)
    ensures restore == Planned(rows, start.vol, |rows|) && PrepareTicks(rows, start.vol) == 1 + |rows| + |ProbeDirs(rows, restore)|
  {
    hide Planned, ProbeDirs;
    PrepareTicksAre(rows, start.vol, restore);
  }

  lemma PreparedTimes(rows: seq<Row>, d: Disk, d': Disk, restore: seq<nat>, schedule: nat -> Event, from: nat, lead: nat, to: nat,
                      s: Status, cut: Option<nat>)
    requires restore == Planned(rows, d.vol, |rows|) && lead == from + PrepareTicks(rows, d.vol)
    requires lead <= to <= lead + 2 * |restore| && (s.Done? ==> to == lead + 2 * |restore| && PassedIn(schedule, lead, to))
    requires cut.Some? ==> cut.value < |restore| && to == lead + 2 * (|restore| - cut.value) && CutState(rows, d, d', restore, cut.value)
    requires to > lead && (to - lead) % 2 == 0 && Cuts(schedule(to - 1)) ==> cut.Some?
    ensures RollbackTimes(rows, d, d', schedule, from, to, s, cut)
  {
    hide PrepareTicks, Planned, CutState;
  }

  lemma NotPreparedTimes(rows: seq<Row>, d: Disk, d': Disk, schedule: nat -> Event, from: nat, to: nat, s: Status)
    requires !s.Done? && to <= from + PrepareTicks(rows, d.vol)
    ensures RollbackTimes(rows, d, d', schedule, from, to, s, None)
  {
    hide PrepareTicks, Planned, CutState;
  }
}
