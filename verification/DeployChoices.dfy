/** What preflight accepts and which directories are flushed first, stated on the contents and the characters. */
module DeployChoices {
  import opened Options
  import opened Paths
  import opened DeployModel
  import opened DeployFacts
  import opened DeployWhole
  import opened Manifest

  predicate HasContent(t: Tree, p: Path, h: Hash) {
    p in t && t[p] == h
  }

  /** A path holds its baseline: nothing if the file is new. */
  predicate HasBaseline(t: Tree, entry: Entry) {
    if entry.baseline.Some? then HasContent(t, entry.path, entry.baseline.value) else entry.path !in t
  }

  predicate ReviewedEntry(entry: Entry, staged: Tree, t: Tree) {
    HasContent(staged, entry.path, entry.candidate) && (HasBaseline(t, entry) || HasContent(t, entry.path, entry.candidate))
  }

  /**
   Preflight accepts if and only if the workbook is the current one, or the previous one in a migration,
   a staged workbook is the current one, and every entry is staged and meets its baseline or its candidate.
   */
  lemma AcceptedIs(entries: seq<Entry>, staged: Tree, t: Tree, policy: Policy)
    ensures Accepted(entries, staged, t, policy) <==>
      && (HasContent(t, policy.path, policy.current) || (policy.previous.Some? && HasContent(t, policy.path, policy.previous.value)))
      && (policy.path in staged ==> staged[policy.path] == policy.current)
      && forall i :: 0 <= i < |entries| ==> ReviewedEntry(entries[i], staged, t)
  {
    forall i | 0 <= i < |entries|
      ensures AcceptedEntry(entries[i], staged, Get(t, entries[i].path)) <==> ReviewedEntry(entries[i], staged, t)
    {
    }
    hide AcceptedEntry, ReviewedEntry;
  }

  /** An entry that is deployed already is skipped, a new file is added, any other one is replaced. */
  lemma ActionIs(entry: Entry, t: Tree, action: Action)
    ensures ChooseAction(entry, Get(t, entry.path)) == Some(action) <==>
      match action
      case Skip => HasContent(t, entry.path, entry.candidate)
      case Add => entry.baseline.None? && entry.path !in t
      case Replace => entry.baseline.Some? && entry.baseline.value != entry.candidate && HasContent(t, entry.path, entry.baseline.value)
  {
  }

  // ----- The directories that a deployment flushes first -----

  /** A directory, or one on the way to it; the root is on the way to all. */
  predicate OnTheWay(a: Path, b: Path) {
    a == b || a == "" || Ancestor(a, b)
  }

  lemma OnTheWayToParent(a: Path, b: Path)
    requires b != ""
    ensures OnTheWay(a, b) <==> a == b || OnTheWay(a, Parent(b))
  {
    AncestorsOfParent(a, b);
    AncestorsOfParent(a, Parent(b));
  }

  /** The nearest existing directory: it lies on the way, exists, and every other one on the way is shorter or missing. */
  predicate IsNearest(folders: set<Path>, p: Path, nearest: Path) {
    && OnTheWay(nearest, p) && (nearest == "" || nearest in folders)
    && forall a :: a in folders && OnTheWay(a, p) ==> |a| <= |nearest|
  }

  lemma {:induction false} NearestFolderIs(folders: set<Path>, p: Path)
    ensures IsNearest(folders, p, NearestFolder(folders, p))
    decreases |p|
  {
    forall a | OnTheWay(a, p)
      ensures |a| <= |p|
    {
    }
    if p != "" && p !in folders {
      NearestFolderIs(folders, Parent(p));
      hide OnTheWay;
      forall a
        ensures OnTheWay(a, p) <==> a == p || OnTheWay(a, Parent(p))
      {
        OnTheWayToParent(a, p);
      }
    }
  }

  lemma NearestIsUnique(folders: set<Path>, p: Path, a: Path, b: Path)
    requires IsNearest(folders, p, a) && IsNearest(folders, p, b)
    ensures a == b
  {
    assert |a| == |b| by {
      assert a == "" || |a| <= |b|;
      assert b == "" || |b| <= |a|;
    }
    assert a != p && a != "" ==> p[..|a|] == a;
    assert b != p && b != "" ==> p[..|b|] == b;
  }

  /** Before anything is written, the root is flushed and, for every row to change, the nearest directory that exists. */
  lemma DeployDirsAre(rows: seq<Row>, folders: set<Path>, dir: Path)
    ensures dir in DeployDirs(rows, folders) <==>
      || dir == ""
      || exists i :: 0 <= i < |rows| && !rows[i].action.Skip? && IsNearest(folders, Parent(rows[i].Path()), dir)
  {
    hide IsNearest, NearestFolder;
    forall i | 0 <= i < |rows|
      ensures IsNearest(folders, Parent(rows[i].Path()), dir) <==> NearestFolder(folders, Parent(rows[i].Path())) == dir
    {
      NearestFolderIs(folders, Parent(rows[i].Path()));
      if IsNearest(folders, Parent(rows[i].Path()), dir) {
        NearestIsUnique(folders, Parent(rows[i].Path()), dir, NearestFolder(folders, Parent(rows[i].Path())));
      }
    }
  }
}
