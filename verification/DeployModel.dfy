/**
 The files, events and stages of a verified deployment.

 A tree maps the paths of a project to the hashes of their contents; a missing path
 has no file. The volatile tree is what running programs see. The durable tree is what
 a power loss leaves. File contents are flushed before they are renamed into place, so
 that a path holds whole contents in both trees.
 */
module DeployModel {
  import opened Options
  import opened Paths

  type Path = string
  type Hash = string
  type Tree = map<Path, Hash>
  type Content = Option<Hash>

  function Get(t: Tree, p: Path): Content {
    if p in t then Some(t[p]) else None
  }

  function Put(t: Tree, p: Path, c: Content): (r: Tree)
    ensures Get(r, p) == c
    ensures forall q :: q != p ==> Get(r, q) == Get(t, q)
  {
    if c.Some? then t[p := c.value] else t - {p}
  }

  // ----- Manifests -----

  /** A row of a manifest; a new file has no baseline. */
  datatype Entry = Entry(path: Path, baseline: Content, candidate: Hash)

  datatype Action = Skip | Add | Replace

  /** A manifest row with the action that preflight chose. */
  datatype Row = Row(entry: Entry, action: Action) {
    function Path(): Path {
      entry.path
    }

    /** The content before the deployment. */
    function Before(): Content {
      if action.Skip? then Some(entry.candidate) else entry.baseline
    }

    function After(): Content {
      Some(entry.candidate)
    }

    predicate Valid() {
      match action
      case Skip => true
      case Add => entry.baseline.None?
      case Replace => entry.baseline.Some? && entry.baseline != After()
    }
  }

  /** What a backup directory holds once it is durable. */
  datatype Backup = Backup(rows: seq<Row>, originals: Tree)

  datatype Disk = Disk(vol: Tree, dur: Tree, backup: Option<Backup>)

  // ----- Events between the steps of a program -----

  datatype Event =
    | Quiet
    | Writeback(path: Path)                   // the system flushes a directory entry by itself
    | Foreign(path: Path, content: Content)   // another program writes
    | Fail                                    // a call raises an exception
    | Kill                                    // the process ends, the machine goes on
    | PowerLoss

  datatype Status = Done | Raised | Dead

  function StatusOf(e: Event): Status {
    match e
    case Fail => Raised
    case Kill => Dead
    case PowerLoss => Dead
    case _ => Done
  }

  function AfterEvent(d: Disk, e: Event): Disk {
    match e
    case Writeback(p) => d.(dur := Put(d.dur, p, Get(d.vol, p)))
    case Foreign(p, c) => d.(vol := Put(d.vol, p, c))
    case PowerLoss => d.(vol := d.dur)
    case _ => d
  }

  /** The durable tree after the entries of a directory have been flushed. */
  function Merged(vol: Tree, dur: Tree, dir: Path): (r: Tree)
    ensures forall q :: Get(r, q) == if Parent(q) == dir then Get(vol, q) else Get(dur, q)
  {
    map q | q in vol.Keys + dur.Keys && (if Parent(q) == dir then q in vol else q in dur) :: if Parent(q) == dir then vol[q] else dur[q]
  }

  function FlushDirectory(d: Disk, dir: Path): Disk {
    d.(dur := Merged(d.vol, d.dur, dir))
  }

  // ----- Stages of a deployment -----

  predicate DistinctPaths(rows: seq<Row>) {
    forall i, j :: 0 <= i < j < |rows| ==> rows[i].Path() != rows[j].Path()
  }

  predicate ValidRows(rows: seq<Row>) {
    DistinctPaths(rows) && forall i :: 0 <= i < |rows| ==> rows[i].Valid()
  }

  predicate Listed(rows: seq<Row>, p: Path) {
    exists i :: 0 <= i < |rows| && rows[i].Path() == p
  }

  predicate Holds(row: Row, c: Content) {
    c == row.Before() || c == row.After()
  }

  /** Every listed path holds its content from before or from after the deployment, in both trees. */
  predicate Safe(rows: seq<Row>, d: Disk) {
    forall i :: 0 <= i < |rows| ==> Holds(rows[i], Get(d.vol, rows[i].Path())) && Holds(rows[i], Get(d.dur, rows[i].Path()))
  }

  /** The content of row i after the first k rows have been applied. */
  function StageContent(rows: seq<Row>, i: nat, k: int): Content
    requires i < |rows|
  {
    if i < k then rows[i].After() else rows[i].Before()
  }

  /** Exactly the first k rows have been applied. */
  predicate AtStage(rows: seq<Row>, t: Tree, k: int) {
    forall i :: 0 <= i < |rows| ==> Get(t, rows[i].Path()) == StageContent(rows, i, k)
  }

  predicate Settled(rows: seq<Row>, d: Disk, k: int) {
    AtStage(rows, d.vol, k) && AtStage(rows, d.dur, k)
  }

  /** Each tree is at stage k or at stage k + 1. */
  predicate Between(rows: seq<Row>, d: Disk, k: int) {
    && (AtStage(rows, d.vol, k) || AtStage(rows, d.vol, k + 1))
    && (AtStage(rows, d.dur, k) || AtStage(rows, d.dur, k + 1))
  }

  predicate Adjacent(rows: seq<Row>, d: Disk) {
    exists k: int :: -1 <= k <= |rows| && Between(rows, d, k)
  }

  /** No path whose restored content is still only volatile. */
  predicate Clean(rows: seq<Row>, d: Disk) {
    forall i :: 0 <= i < |rows| ==> CleanRow(rows[i], d)
  }

  predicate CleanRow(row: Row, d: Disk) {
    Get(d.vol, row.Path()) == row.Before() ==> Get(d.dur, row.Path()) == row.Before()
  }

  /** No other program writes to a listed path. */
  ghost predicate Calm(rows: seq<Row>, schedule: nat -> Event) {
    forall t: nat :: CalmEvent(rows, schedule(t))
  }

  predicate CalmEvent(rows: seq<Row>, e: Event) {
    e.Foreign? ==> !Listed(rows, e.path)
  }

  // ----- What events and flushes keep -----

  lemma EventKeepsSafe(rows: seq<Row>, d: Disk, e: Event)
    requires Safe(rows, d) && CalmEvent(rows, e)
    ensures Safe(rows, AfterEvent(d, e))
  {
    forall i | 0 <= i < |rows|
      ensures Holds(rows[i], Get(AfterEvent(d, e).vol, rows[i].Path()))
      ensures Holds(rows[i], Get(AfterEvent(d, e).dur, rows[i].Path()))
    {
    }
  }

  lemma FlushKeepsSafe(rows: seq<Row>, d: Disk, dir: Path)
    requires Safe(rows, d)
    ensures Safe(rows, FlushDirectory(d, dir))
  {
  }

  lemma PutMovesStage(rows: seq<Row>, t: Tree, k: nat)
    requires DistinctPaths(rows) && k < |rows|
    requires AtStage(rows, t, k) || AtStage(rows, t, k + 1)
    ensures AtStage(rows, Put(t, rows[k].Path(), rows[k].After()), k + 1)
    ensures AtStage(rows, Put(t, rows[k].Path(), rows[k].Before()), k)
  {
  }

  lemma OtherPathKeepsStage(rows: seq<Row>, t: Tree, k: int, p: Path, c: Content)
    requires AtStage(rows, t, k) && !Listed(rows, p)
    ensures AtStage(rows, Put(t, p, c), k)
  {
  }

  /** Between two stages that are adjacent only one row differs. */
  lemma MixedStages(rows: seq<Row>, vol: Tree, dur: Tree, mixed: Tree, k: int)
    requires AtStage(rows, vol, k) || AtStage(rows, vol, k + 1)
    requires AtStage(rows, dur, k) || AtStage(rows, dur, k + 1)
    requires forall i :: 0 <= i < |rows| ==> Get(mixed, rows[i].Path()) == Get(vol, rows[i].Path()) || Get(mixed, rows[i].Path()) == Get(dur, rows[i].Path())
    ensures AtStage(rows, mixed, k) || AtStage(rows, mixed, k + 1)
  {
    var m := if 0 <= k < |rows| && Get(mixed, rows[k].Path()) == rows[k].After() then k + 1 else k;
    forall i | 0 <= i < |rows|
      ensures Get(mixed, rows[i].Path()) == StageContent(rows, i, m)
    {
      assert Get(vol, rows[i].Path()) == StageContent(rows, i, k) || Get(vol, rows[i].Path()) == StageContent(rows, i, k + 1);
      assert Get(dur, rows[i].Path()) == StageContent(rows, i, k) || Get(dur, rows[i].Path()) == StageContent(rows, i, k + 1);
    }
  }

  /** Whatever happens, both trees stay on the two sides of one replacement. */
  lemma EventKeepsBetween(rows: seq<Row>, d: Disk, e: Event, k: int)
    requires Between(rows, d, k) && CalmEvent(rows, e)
    ensures Between(rows, AfterEvent(d, e), k)
  {
    if e.Writeback? {
      hide AtStage;
      MixedStages(rows, d.vol, d.dur, AfterEvent(d, e).dur, k);
    } else if e.Foreign? {
      var m := if AtStage(rows, d.vol, k) then k else k + 1;
      OtherPathKeepsStage(rows, d.vol, m, e.path, e.content);
    }
  }

  lemma FlushKeepsBetween(rows: seq<Row>, d: Disk, dir: Path, k: int)
    requires Between(rows, d, k)
    ensures Between(rows, FlushDirectory(d, dir), k)
  {
    hide AtStage, Merged;
    MixedStages(rows, d.vol, d.dur, FlushDirectory(d, dir).dur, k);
  }

  lemma EventKeepsSettled(rows: seq<Row>, d: Disk, e: Event, k: int)
    requires Settled(rows, d, k) && CalmEvent(rows, e)
    ensures Settled(rows, AfterEvent(d, e), k)
  {
    forall i | 0 <= i < |rows|
      ensures Get(AfterEvent(d, e).vol, rows[i].Path()) == StageContent(rows, i, k)
      ensures Get(AfterEvent(d, e).dur, rows[i].Path()) == StageContent(rows, i, k)
    {
    }
  }

  lemma EventKeepsClean(rows: seq<Row>, d: Disk, e: Event)
    requires Clean(rows, d) && CalmEvent(rows, e)
    ensures Clean(rows, AfterEvent(d, e))
  {
    forall i | 0 <= i < |rows|
      ensures CleanRow(rows[i], AfterEvent(d, e))
    {
      assert CleanRow(rows[i], d);
    }
  }

  lemma FlushKeepsClean(rows: seq<Row>, d: Disk, dir: Path)
    requires Clean(rows, d)
    ensures Clean(rows, FlushDirectory(d, dir))
  {
    forall i | 0 <= i < |rows|
      ensures CleanRow(rows[i], FlushDirectory(d, dir))
    {
      assert CleanRow(rows[i], d);
    }
  }

  lemma BetweenIsSafe(rows: seq<Row>, d: Disk, k: int)
    requires Between(rows, d, k)
    ensures Safe(rows, d)
  {
    forall i | 0 <= i < |rows|
      ensures Holds(rows[i], Get(d.vol, rows[i].Path())) && Holds(rows[i], Get(d.dur, rows[i].Path()))
    {
      assert Get(d.vol, rows[i].Path()) == StageContent(rows, i, k) || Get(d.vol, rows[i].Path()) == StageContent(rows, i, k + 1);
      assert Get(d.dur, rows[i].Path()) == StageContent(rows, i, k) || Get(d.dur, rows[i].Path()) == StageContent(rows, i, k + 1);
    }
  }

  lemma RenameKeeps(rows: seq<Row>, d: Disk, i: nat, c: Content)
    requires ValidRows(rows) && i < |rows| && Holds(rows[i], c)
    ensures Safe(rows, d) ==> Safe(rows, d.(vol := Put(d.vol, rows[i].Path(), c)))
    ensures Between(rows, d, i) ==> Between(rows, d.(vol := Put(d.vol, rows[i].Path(), c)), i)
  {
    if Between(rows, d, i) {
      PutMovesStage(rows, d.vol, i);
    }
  }
}
