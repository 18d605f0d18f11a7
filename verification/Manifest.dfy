/** The paths that a deployment manifest may list. */
module Manifest {
  import opened Paths
  import opened DeployModel

  datatype Result<+T> = Ok(value: T) | Error(reason: string)

  const BLOCKED_COMPONENTS: set<string> :=
    {".git", ".svn", "work", "csrc", "dvefiles", "verdilog", "__pycache__", "simv.daidir"}
  const BLOCKED_NAMES: set<string> := {"simv", "ucli.key", "vc_hdrs.h", "novas.conf", "novas.rc"}
  const BLOCKED_SUFFIXES: seq<string> := [".xlsx", ".fsdb", ".vcd", ".vpd", ".vdb", ".log", ".pyc"]
  const BLOCKED_DIRECTORIES: seq<seq<string>> :=
    [["docs", "seq"], ["docs", "txt"], ["docs", "vip"], ["tb", "generated"]]

  // ----- Valid paths -----

  function Lower(s: string): (r: string)
    ensures |r| == |s|
  {
    if s == "" then "" else Lower(s[..|s| - 1]) + [LowerChar(s[|s| - 1])]
  }

  function LowerChar(c: char): char {
    if 'A' <= c <= 'Z' then c - 'A' + 'a' else c
  }

  function EndsWith(s: string, suffix: string): bool {
    |suffix| <= |s| && s[|s| - |suffix|..] == suffix
  }

  function Protected(parts: seq<string>): bool
    requires |parts| > 0
  {
    || (exists part | part in parts :: Lower(part) in BLOCKED_COMPONENTS)
    || Lower(parts[|parts| - 1]) in BLOCKED_NAMES
    || (exists part, suffix | part in parts && suffix in BLOCKED_SUFFIXES :: EndsWith(Lower(part), suffix))
    || (|parts| >= 2 && [Lower(parts[0]), Lower(parts[1])] in BLOCKED_DIRECTORIES)
  }

  predicate Normalized(path: Path) {
    && path != "" && '\\' !in path && '\0' !in path
    && forall part :: part in Components(path) ==> part !in {"", ".", ".."}
  }

  /** The paths that may be listed; a migration may list its own protected paths. */
  predicate ValidPath(path: Path, migrationPaths: set<Path>) {
    Normalized(path) && (path in migrationPaths || !Protected(Components(path)))
  }

  predicate IsHash(h: Hash) {
    |h| == 64 && forall i :: 0 <= i < 64 ==> '0' <= h[i] <= '9' || 'a' <= h[i] <= 'f'
  }

  predicate ValidEntry(e: Entry, migrationPaths: set<Path>) {
    ValidPath(e.path, migrationPaths) && (e.baseline.Some? ==> IsHash(e.baseline.value)) && IsHash(e.candidate)
  }

  // ----- Files below files -----

  /** Whether a path names a directory on the way to another path. */
  predicate Ancestor(a: Path, b: Path) {
    |a| < |b| && b[..|a|] == a && b[|a|] == '/'
  }

  /** The ancestors of a path are its parent and the ancestors of its parent. */
  lemma AncestorsOfParent(a: Path, b: Path)
    ensures Ancestor(a, b) <==> LastSlash(b) >= 0 && (a == Parent(b) || Ancestor(a, Parent(b)))
  {
    var i := LastSlash(b);
    if i >= 0 {
      if Ancestor(a, b) && |a| < i {
        assert Parent(b)[..|a|] == b[..|a|];
      }
      if Ancestor(a, Parent(b)) {
        assert Parent(b)[..|a|] == b[..|a|];
      }
    }
  }

  predicate Distinct(entries: seq<Entry>) {
    forall i, j :: 0 <= i < j < |entries| ==> entries[i].path != entries[j].path
  }

  predicate NoFileBelowFile(entries: seq<Entry>) {
    forall i, j :: 0 <= i < |entries| && 0 <= j < |entries| ==> !Ancestor(entries[i].path, entries[j].path)
  }

  predicate Acceptable(entries: seq<Entry>, migrationPaths: set<Path>) {
    && entries != []
    && (forall i :: 0 <= i < |entries| ==> ValidEntry(entries[i], migrationPaths))
    && Distinct(entries) && NoFileBelowFile(entries)
  }

  /** Whether no listed path is an ancestor of a name, by walking up from the name. */
  method HasListedAncestor(name: Path, names: set<Path>) returns (found: bool)
    ensures found <==> exists a :: a in names && a != "" && Ancestor(a, name)
  {
    var parent := Parent(name);
    forall a ensures Ancestor(a, name) <==> LastSlash(name) >= 0 && (a == parent || Ancestor(a, parent)) {
      AncestorsOfParent(a, name);
    }
    while parent != ""
      invariant forall a :: a in names && a != "" ==> (Ancestor(a, name) <==> a == parent || Ancestor(a, parent))
      decreases |parent|
    {
      if parent in names {
        return true;
      }
      var up := Parent(parent);
      forall a ensures Ancestor(a, parent) <==> LastSlash(parent) >= 0 && (a == up || Ancestor(a, up)) {
        AncestorsOfParent(a, parent);
      }
      parent := up;
    }
    return false;
  }

  /** Accepts exactly the acceptable manifests and keeps their rows. */
  method LoadManifest(entries: seq<Entry>, migrationPaths: set<Path>) returns (r: Result<seq<Entry>>)
    ensures r.Ok? <==> Acceptable(entries, migrationPaths)
    ensures r.Ok? ==> r.value == entries
  {
    if entries == [] {
      return Error("files must be a nonempty list");
    }
    var names: set<Path> := {};
    for i := 0 to |entries|
      invariant forall j :: 0 <= j < i ==> ValidEntry(entries[j], migrationPaths)
      invariant names == set j | 0 <= j < i :: entries[j].path
      invariant Distinct(entries[..i])
    {
      if !ValidPath(entries[i].path, migrationPaths) {
        return Error("invalid path");
      }
      if entries[i].path in names {
        return Error("duplicate path");
      }
      if !ValidEntry(entries[i], migrationPaths) {
        return Error("invalid hash");
      }
      names := names + {entries[i].path};
    }
    assert entries[..|entries|] == entries;
    for i := 0 to |entries|
      invariant forall j, k :: 0 <= j < i && 0 <= k < |entries| ==> !Ancestor(entries[k].path, entries[j].path)
    {
      var found := HasListedAncestor(entries[i].path, names);
      if found {
        return Error("a file and its descendant");
      }
      forall k | 0 <= k < |entries|
        ensures !Ancestor(entries[k].path, entries[i].path)
      {
        assert ValidEntry(entries[k], migrationPaths) && entries[k].path in names;
      }
    }
    return Ok(entries);
  }
}
