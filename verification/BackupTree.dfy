/** The order in which a backup directory is made durable before a deployment. */
module BackupTree {
  /** A place below the backup root: the names on the way to it. */
  type Location = seq<string>

  datatype Nodes = Nil | Cons(head: Node, tail: Nodes)

  /** What a directory holds: files, some of them perhaps not regular, and directories or links to them. */
  datatype Node = File(name: string, regular: bool) | Folder(name: string, link: bool, children: Nodes)

  /** No links and no special files. */
  predicate Plain(nodes: Nodes) {
    nodes.Cons? ==> PlainNode(nodes.head) && Plain(nodes.tail)
  }

  predicate PlainNode(node: Node) {
    match node
    case File(_, regular) => regular
    case Folder(_, link, children) => !link && Plain(children)
  }

  predicate NoLink(nodes: Nodes) {
    nodes.Cons? ==> (nodes.head.Folder? ==> !nodes.head.link) && NoLink(nodes.tail)
  }

  predicate RegularFiles(nodes: Nodes) {
    nodes.Cons? ==> (nodes.head.File? ==> nodes.head.regular) && RegularFiles(nodes.tail)
  }

  predicate PlainFolders(nodes: Nodes) {
    nodes.Cons? ==> (nodes.head.Folder? && !nodes.head.link ==> Plain(nodes.head.children)) && PlainFolders(nodes.tail)
  }

  lemma {:induction false} PlainParts(nodes: Nodes)
    ensures Plain(nodes) <==> PlainFolders(nodes) && NoLink(nodes) && RegularFiles(nodes)
  {
    if nodes.Cons? {
      PlainParts(nodes.tail);
    }
  }

  /** All that lies below a directory. */
  function Below(at: Location, nodes: Nodes): set<Location>
    decreases nodes
  {
    if nodes.Nil? then {}
    else
      var inner := at + [nodes.head.name];
      {inner} + (if nodes.head.Folder? then Below(inner, nodes.head.children) else {}) + Below(at, nodes.tail)
  }

  // ----- The order of the flushes -----

  /** The flushes of a directory: those of its directories, those of its files, and then its own. */
  function Flushes(at: Location, nodes: Nodes): seq<Location>
    decreases nodes, 1
  {
    FolderFlushes(at, nodes) + FileFlushes(at, nodes) + [at]
  }

  /** Links are not followed. */
  function FolderFlushes(at: Location, nodes: Nodes): seq<Location>
    decreases nodes, 0
  {
    if nodes.Nil? then []
    else
      (if nodes.head.Folder? && !nodes.head.link then Flushes(at + [nodes.head.name], nodes.head.children) else [])
      + FolderFlushes(at, nodes.tail)
  }

  function FileFlushes(at: Location, nodes: Nodes): seq<Location>
    decreases nodes
  {
    if nodes.Nil? then [] else (if nodes.head.File? then [at + [nodes.head.name]] else []) + FileFlushes(at, nodes.tail)
  }

  /** Walks the directories in a directory, each from the inside out; an error ends the walk. */
  method FlushFolders(at: Location, nodes: Nodes) returns (ok: bool, flushed: seq<Location>)
    ensures ok <==> PlainFolders(nodes)
    ensures ok ==> flushed == FolderFlushes(at, nodes)
    decreases nodes, 0
  {
    ok, flushed := true, [];
    if nodes.Nil? {
      return;
    }
    if nodes.head.Folder? && !nodes.head.link {
      ok, flushed := FlushFolder(at + [nodes.head.name], nodes.head.children);
      if !ok {
        return;
      }
    }
    var more;
    ok, more := FlushFolders(at, nodes.tail);
    flushed := flushed + more;
  }

  method FlushFiles(at: Location, nodes: Nodes) returns (ok: bool, flushed: seq<Location>)
    ensures ok <==> RegularFiles(nodes)
    ensures ok ==> flushed == FileFlushes(at, nodes)
  {
    ok, flushed := true, [];
    var rest := nodes;
    hide FileFlushes;
    NoFlushes(at);
    assert flushed + FileFlushes(at, rest) == FileFlushes(at, nodes);
    while rest.Cons?
      invariant ok && flushed + FileFlushes(at, rest) == FileFlushes(at, nodes)
      invariant RegularFiles(nodes) <==> RegularFiles(rest)
      decreases rest
    {
      FileFlushesNext(at, rest);
      if rest.head.File? {
        if !rest.head.regular {
          return false, flushed;
        }
        var file := at + [rest.head.name];
        assert flushed + ([file] + FileFlushes(at, rest.tail)) == flushed + [file] + FileFlushes(at, rest.tail);
        flushed := flushed + [file];
      }
      rest := rest.tail;
    }
  }

  lemma FileFlushesNext(at: Location, nodes: Nodes)
    requires nodes.Cons?
    ensures FileFlushes(at, nodes)
         == if nodes.head.File? then [at + [nodes.head.name]] + FileFlushes(at, nodes.tail) else FileFlushes(at, nodes.tail)
  {
  }

  lemma NoFlushes(at: Location)
    ensures FileFlushes(at, Nil) == []
  {
  }

  /** Walks one directory: its directories, its files, and then the directory itself. */
  method FlushFolder(at: Location, nodes: Nodes) returns (ok: bool, flushed: seq<Location>)
    ensures ok <==> Plain(nodes)
    ensures ok ==> flushed == Flushes(at, nodes)
    decreases nodes, 1
  {
    PlainParts(nodes);
    ok, flushed := FlushFolders(at, nodes);
    if !ok {
      return;
    }
    if !NoLink(nodes) {
      return false, flushed;
    }
    var files;
    ok, files := FlushFiles(at, nodes);
    flushed := flushed + files;
    if ok {
      flushed := flushed + [at];
    }
  }

  // ----- What a flushed directory holds -----

  /** A walk flushes the directory and all that lies below it, and nothing else. */
  lemma {:induction false} FlushesAll(at: Location, nodes: Nodes)
    requires Plain(nodes)
    ensures forall l :: l in Flushes(at, nodes) <==> l == at || l in Below(at, nodes)
    decreases nodes, 1
  {
    FlushesBelow(at, nodes);
    hide FolderFlushes, FileFlushes, Below;
  }

  lemma {:induction false} FlushesBelow(at: Location, nodes: Nodes)
    requires Plain(nodes)
    ensures forall l :: l in FolderFlushes(at, nodes) || l in FileFlushes(at, nodes) <==> l in Below(at, nodes)
    decreases nodes, 0
  {
    if nodes.Cons? {
      FlushesBelow(at, nodes.tail);
      if nodes.head.Folder? {
        FlushesAll(at + [nodes.head.name], nodes.head.children);
      }
      hide Flushes;
    }
  }

  /** A directory and what it holds, at or below another one. */
  predicate Contains(at: Location, nodes: Nodes, inner: Location, children: Nodes)
    decreases nodes, 1
  {
    (inner == at && children == nodes) || ContainsBelow(at, nodes, inner, children)
  }

  predicate ContainsBelow(at: Location, nodes: Nodes, inner: Location, children: Nodes)
    decreases nodes, 0
  {
    nodes.Cons? &&
    ((nodes.head.Folder? && Contains(at + [nodes.head.name], nodes.head.children, inner, children))
     || ContainsBelow(at, nodes.tail, inner, children))
  }

  /** The walk of an inner directory is one piece of the whole walk. */
  lemma {:induction false} InnerWalk(at: Location, nodes: Nodes, inner: Location, children: Nodes)
    returns (before: seq<Location>, after: seq<Location>)
    requires Plain(nodes) && Contains(at, nodes, inner, children)
    ensures Plain(children) && Flushes(at, nodes) == before + Flushes(inner, children) + after
    decreases nodes, 1
  {
    if inner == at && children == nodes {
      before, after := [], [];
    } else {
      before, after := InnerWalkBelow(at, nodes, inner, children);
      assert Flushes(at, nodes) == FolderFlushes(at, nodes) + FileFlushes(at, nodes) + [at];
      after := after + FileFlushes(at, nodes) + [at];
      hide Flushes, FolderFlushes, FileFlushes;
    }
  }

  lemma {:induction false} InnerWalkBelow(at: Location, nodes: Nodes, inner: Location, children: Nodes)
    returns (before: seq<Location>, after: seq<Location>)
    requires Plain(nodes) && ContainsBelow(at, nodes, inner, children)
    ensures Plain(children) && FolderFlushes(at, nodes) == before + Flushes(inner, children) + after
    decreases nodes, 0
  {
    hide Flushes, FolderFlushes, Contains;
    var name := at + [nodes.head.name];
    var first := if nodes.head.Folder? then Flushes(name, nodes.head.children) else [];
    var tail := FolderFlushes(at, nodes.tail);
    FolderFlushesNext(at, nodes);
    var walk := Flushes(inner, children);
    if nodes.head.Folder? && Contains(name, nodes.head.children, inner, children) {
      var end;
      before, end := InnerWalk(name, nodes.head.children, inner, children);
      after := end + tail;
      Regroup(before, walk, end, tail);
    } else {
      var start;
      start, after := InnerWalkBelow(at, nodes.tail, inner, children);
      before := first + start;
      Regroup(first, start, walk, after);
    }
  }

  lemma FolderFlushesNext(at: Location, nodes: Nodes)
    requires nodes.Cons? && Plain(nodes)
    ensures FolderFlushes(at, nodes)
         == (if nodes.head.Folder? then Flushes(at + [nodes.head.name], nodes.head.children) else []) + FolderFlushes(at, nodes.tail)
  {
    hide Flushes;
  }

  lemma Regroup(a: seq<Location>, b: seq<Location>, c: seq<Location>, d: seq<Location>)
    ensures (a + b + c) + d == a + b + (c + d) && a + (b + c + d) == (a + b) + c + d
  {
  }

  /** So whatever directory has been flushed last, all that lies below it has been flushed before. */
  lemma FlushedIsComplete(at: Location, nodes: Nodes, inner: Location, children: Nodes) returns (n: nat)
    requires Plain(nodes) && Contains(at, nodes, inner, children)
    ensures n < |Flushes(at, nodes)| && Flushes(at, nodes)[n] == inner
    ensures forall l :: l in Below(inner, children) ==> l in Flushes(at, nodes)[..n]
  {
    var before, after := InnerWalk(at, nodes, inner, children);
    FlushesBelow(inner, children);
    var walk := FolderFlushes(inner, children) + FileFlushes(inner, children);
    assert Flushes(inner, children) == walk + [inner];
    hide Flushes, FolderFlushes, FileFlushes, Below;
    n := |before| + |walk|;
    assert Flushes(at, nodes) == before + walk + [inner] + after;
    assert Flushes(at, nodes)[..n] == before + walk;
  }

  /** Makes a backup durable: everything in it, then its own entry in the directory that holds it. */
  method DurableBackup(nodes: Nodes) returns (entered: bool, flushed: seq<Location>)
    ensures entered <==> Plain(nodes)
    ensures entered ==> flushed == Flushes([], nodes) && forall l :: l in Below([], nodes) ==> l in flushed
  {
    entered, flushed := FlushFolder([], nodes);
    if entered {
      FlushesAll([], nodes);
    }
  }
}
