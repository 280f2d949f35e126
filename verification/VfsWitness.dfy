/**
  Arenas, each reached from an empty filesystem, at which what one might expect of the filesystem fails.
 */
module VfsWitness {
  import opened Wrappers
  import opened Paths
  import opened VfsTree
  import opened VfsEdits
  import opened VfsResolve
  import opened VfsMkdirP
  import opened VfsCopy
  import opened VfsMerge
  import opened VfsReplace
  import opened VfsRuns
  import opened Vfs

  const DIR_META: Metadata := Metadata(S_IFDIR, 0, 0, 0)
  const FILE_META: Metadata := Metadata(S_IFREG, 0, 0, 0)

  /** A root directory and nothing else. */
  const EMPTY: State := State([Node("", None, Directory(map[]), DIR_META)], [0], 0)

  lemma EmptyIsSane()
    ensures Sane(EMPTY) && Bytes(EMPTY.ns) == 0
  {
    BytesPush([], EMPTY.ns[0]);
    assert [] + [EMPTY.ns[0]] == EMPTY.ns;
  }

  /** A run of one edit that puts a single child below the root. */
  lemma FirstChild(name: string, kind: NodeKind, meta: Metadata, t: State)
    requires FreshKind(kind, meta) && ContentLen(Node(name, Some(0), kind, meta)) <= MAX_VFS_BYTES
    requires t.ns == [Node("", None, Directory(map[name := 1]), DIR_META), Node(name, Some(0), kind, meta)]
    requires t.d == [0, 1] && t.bytes == ContentLen(Node(name, Some(0), kind, meta))
    ensures Reaches(EMPTY, t) && Sane(t) && Bytes(t.ns) == t.bytes
  {
    EmptyIsSane();
    PushedBytes(EMPTY.ns, 0, name, kind, meta);
    PushedChild(name, kind, meta);
    hide Pushed, Shape, Bytes, Runs, Invariants;
    assert [0] + [1] == [0, 1];
    ReachesByPush(EMPTY, 0, name, kind, meta, t);
    ReachedIsSane(EMPTY, t);
  }

  lemma PushedChild(name: string, kind: NodeKind, meta: Metadata)
    ensures Pushed(EMPTY.ns, 0, name, kind, meta)
         == [Node("", None, Directory(map[name := 1]), DIR_META), Node(name, Some(0), kind, meta)]
  {
    assert map[][name := 1] == map[name := 1];
  }

  /** A generated file over a file of one byte: no node holds a byte any more, and the counter stays at one. */
  lemma ChargeOutlivesFile(generator: Generator, t: State)
    requires t.ns == [Node("", None, Directory(map["f" := 1]), DIR_META), Node("f", Some(0), DynamicFile(generator), FILE_META)]
    requires t.d == [0, 1] && t.bytes == 1
    ensures Reaches(EMPTY, t) && Sane(t) && Bytes(t.ns) == 0 < t.bytes
  {
    var s := State([Node("", None, Directory(map["f" := 1]), DIR_META), Node("f", Some(0), File([0]), FILE_META)], [0, 1], 1);
    FirstChild("f", File([0]), FILE_META, s);
    BytesUpdate(s.ns, 1, t.ns[1]);
    assert s.ns[1 := t.ns[1]] == t.ns;
    hide Shape, Bytes, Runs, Invariants;
    ReachesByReplace(s, 1, DynamicFile(generator), FILE_META, t);
    ReachesTrans(EMPTY, s, t);
    ReachedIsSane(EMPTY, t);
  }

  /** A directory called `..`: its path is `/..`, which leads back to the root. */
  lemma DotDotLosesItsPath(t: State)
    requires t.ns == [Node("", None, Directory(map[".." := 1]), DIR_META), Node("..", Some(0), Directory(map[]), DIR_META)]
    requires t.d == [0, 1] && t.bytes == 0
    ensures Reaches(EMPTY, t) && Sane(t) && Linked(t.ns, t.d, 1)
    ensures PathOf(t.ns, t.d, 1) == "/.." && Resolved(t.ns, 0, "/..", 0) == Some(0)
  {
    FirstChild("..", Directory(map[]), DIR_META, t);
    assert Names(t.ns, t.d, 1) == Names(t.ns, t.d, 0) + [".."] == [".."];
    assert Join([".."]) == "..";
    SplitAbsolute([".."]);
    assert Split("/..") == ["", ".."];
    assert ["", ".."][1..] == [".."];
    assert [".."][1..] == [];
    assert Walked(t.ns, 0, [".."], 0) == Walked(t.ns, 0, [], 0);
  }

  lemma FileIsInTheWay(ns: Arena)
    requires WellLinked(ns) && |ns| == 2 && ns[0].kind == Directory(map["f" := 1]) && ns[1].kind.File?
    ensures Split("/f/d") == ["", "f", "d"] && !Open(ns, 0, Split("/f/d"))
  {
    assert Join(["f", "d"]) == "f/d";
    SplitAbsolute(["f", "d"]);
    assert Absolute(["f", "d"]) == "/f/d";
    assert ["", "f", "d"][1..] == ["f", "d"] && ["f", "d"][1..] == ["d"];
    assert !Open(ns, 1, ["d"]);
  }

  /** `mkdir -p /f/d` where `/f` is a file: a node comes back, and `/f/d` does not resolve to it. */
  method MakeBelowFile(now: int) returns (v: Vfs, r: Option<NodeId>)
    ensures fresh(v) && v.Valid() && r.Some? && r.value < |v.nodes|
    ensures Names(v.nodes, v.depth, r.value) == Steps(Split("/f/d")) && Resolved(v.nodes, 0, "/f/d", 0) != r
  {
    v := new Vfs(now);
    assert |v.nodes| == 1 && v.depth == [0];
    var f := v.AddFile(0, "f", [], 0, 0, 0, now);
    FileIsInTheWay(v.nodes);
    r := v.MkdirP("/f/d", 0, 0, 0, now);
    if r.None? {
      ghost var k, p :| 0 <= k < 3 && 0 <= p < |v.nodes| && StuckAt(v.nodes, v.depth, Split("/f/d"), k, p);
      ChainFitsArena(v.nodes, v.depth, p);
      assert false;
    }
  }

  // ---- Copies that do not replace ----------------------------------------------------------------

  method TwoDirectories(now: int) returns (v: Vfs)
    ensures fresh(v) && v.Valid() && |v.nodes| == 4
    ensures Children(v.nodes, 0) == map["a" := 1, "b" := 2]
    ensures Children(v.nodes, 1) == map[] && Children(v.nodes, 2) == map["x" := 3]
    ensures v.nodes[1].kind.Directory?
  {
    hide Shape, Bytes, Reaches;
    v := new Vfs(now);
    OneNode(v.nodes, v.depth);
    var a := v.Mkdir(0, "a", 0, 0, 0, now);
    ghost var ns1 := v.nodes;
    assert v.depth == [0, 1] && Children(ns1, 0) == map["a" := 1] && Children(ns1, 1) == map[];
    var b := v.Mkdir(0, "b", 0, 0, 0, now);
    ghost var ns2 := v.nodes;
    assert v.depth == [0, 1, 1] && Children(ns2, 0) == map["a" := 1, "b" := 2] && Children(ns2, 1) == map[] && Children(ns2, 2) == map[];
    ShapeIsTree(v.nodes, v.depth);
    var x := v.Mkdir(b, "x", 0, 0, 0, now);
    assert Children(v.nodes, 2) == map["x" := 3];
  }

  /** An empty directory copied onto one with a child: the child stays. */
  method CopyOntoDirectory(now: int) returns (v: Vfs, id: NodeId)
    ensures fresh(v) && v.Valid() && Children(v.nodes, 0) == map["a" := 1, "b" := 2] && id == 2 < |v.nodes|
    ensures Children(v.nodes, 1) == map[] && "x" in Children(v.nodes, 2)
  {
    hide Shape, Bytes, Reaches, IntoTaken, Contained, Copied, Copyable, Mergeable, MergeDone, Arrived, LeafFits, Spilled, NamedAt;
    v := TwoDirectories(now);
    ghost var s := v.Now();
    ShapeIsTree(v.nodes, v.depth);
    id := v.DeepCopy(1, 0, "b", now);
    ShapeIsTree(v.nodes, v.depth);
    EmptyIsMerged(s, v.Now(), id);
  }

  lemma OneNode(ns: Arena, d: seq<nat>)
    requires Shape(ns, d) && |ns| == 1
    ensures d == [0]
  {
  }

  lemma EmptyIsMerged(s: State, t: State, id: NodeId)
    requires Treed(s) && Treed(t) && |s.ns| == 4 && IntoTaken(s, t, 1, 0, "b", id)
    requires Children(s.ns, 0) == map["a" := 1, "b" := 2] && Children(s.ns, 1) == map[] && Children(s.ns, 2) == map["x" := 3]
    ensures id == 2 && Children(t.ns, 0) == Children(s.ns, 0) && Children(t.ns, 1) == map[] && "x" in Children(t.ns, 2)
  {
    SpreadOverTaken(s, t, 0, "b");
    EntryIsBelow(s, 0, "a");
    IsOwnAncestor(s, 1);
    EntriesApart(s, 0, "a", "b", 1);
    assert t.ns[1] == s.ns[1];
  }

  /** Symlinks are made and unlinked until no node is free. */
  method UseUpNodes(v: Vfs, now: int)
    requires v.Valid() && |v.nodes| > 0 && "t" !in Children(v.nodes, 0) && v.nodes[0].kind.Directory?
    modifies v
    ensures v.Valid() && |v.nodes| == MAX_VFS_NODES && v.contentBytes == old(v.contentBytes)
    ensures Children(v.nodes, 0) == old(Children(v.nodes, 0))
    ensures forall i :: 0 < i < |old(v.nodes)| ==> v.nodes[i] == old(v.nodes)[i]
  {
    hide Tree, Capped, Typed, Bytes, Reaches;
    while |v.nodes| < MAX_VFS_NODES
      invariant v.Valid() && |old(v.nodes)| <= |v.nodes| <= MAX_VFS_NODES && v.contentBytes == old(v.contentBytes)
      invariant Children(v.nodes, 0) == old(Children(v.nodes, 0)) && v.nodes[0].kind.Directory?
      invariant forall i :: 0 < i < |old(v.nodes)| ==> v.nodes[i] == old(v.nodes)[i]
      decreases MAX_VFS_NODES - |v.nodes|
    {
      UseUpNode(v, now);
    }
  }

  method UseUpNode(v: Vfs, now: int)
    requires v.Valid() && 0 < |v.nodes| && "t" !in Children(v.nodes, 0) && v.nodes[0].kind.Directory? && |v.nodes| < MAX_VFS_NODES
    modifies v
    ensures v.Valid() && |v.nodes| == |old(v.nodes)| + 1 && v.contentBytes == old(v.contentBytes)
    ensures Children(v.nodes, 0) == old(Children(v.nodes, 0)) && v.nodes[0].kind.Directory?
    ensures forall i :: 0 < i < |old(v.nodes)| ==> v.nodes[i] == old(v.nodes)[i]
  {
    hide Shape, Bytes, Reaches;
    ShapeIsTree(v.nodes, v.depth);
    ghost var before := Children(v.nodes, 0);
    var id := v.AddSymlink(0, "t", "", now);
    ghost var with := Children(v.nodes, 0);
    var _ := v.Unlink(0, "t");
    assert with == before["t" := id] && with - {"t"} == before;
  }

  /** With every node used up, a symlink copied onto a file: the file's entry goes, and nothing has the name. */
  method CopyLinkAtCap(now: int) returns (v: Vfs, ghost before: State)
    ensures fresh(v) && v.Valid() && |v.nodes| == MAX_VFS_NODES && "l" in Children(v.nodes, 0) && "f" !in Children(v.nodes, 0)
    ensures Reaches(before, v.Now()) && |before.ns| == MAX_VFS_NODES && "f" in Children(before.ns, 0)
  {
    hide Shape, Bytes, Reaches, IntoTaken, Copied, Copyable, Mergeable, MergeDone, Arrived, LeafFits, Spilled, NamedAt;
    v := LinkAndFile(now);
    UseUpNodes(v, now);
    ShapeIsTree(v.nodes, v.depth);
    before := v.Now();
    var id := v.DeepCopy(1, 0, "f", now);
    ShapeIsTree(v.nodes, v.depth);
    LinkIsLost(before, v.Now());
  }

  method LinkAndFile(now: int) returns (v: Vfs)
    ensures fresh(v) && v.Valid() && |v.nodes| == 3 && v.nodes[0].kind.Directory? && v.nodes[1].kind.Symlink?
    ensures Children(v.nodes, 0) == map["l" := 1, "f" := 2]
  {
    hide Shape, Bytes, Reaches;
    v := new Vfs(now);
    OneNode(v.nodes, v.depth);
    var l := v.AddSymlink(0, "l", "f", now);
    ghost var ns1 := v.nodes;
    assert v.depth == [0, 1] && Children(ns1, 0) == map["l" := 1];
    var f := v.AddFile(0, "f", [], 0, 0, 0, now);
  }

  lemma LinkIsLost(s: State, t: State)
    requires Treed(s) && Treed(t) && |s.ns| == MAX_VFS_NODES <= |t.ns| && Contained(s, t, 0, "f")
    requires Children(s.ns, 0) == map["l" := 1, "f" := 2] && "f" !in Children(t.ns, 0)
    ensures "l" in Children(t.ns, 0)
  {
    assert "l" in Children(s.ns, 0) - {"f"};
  }

  /** With every node used up, a directory with one file copied under a free name into one that has a file of that
      name: there is no room for the directory, and the file there is overwritten. */
  method CopySpills(now: int) returns (v: Vfs, id: NodeId, ghost before: State)
    ensures fresh(v) && v.Valid() && |v.nodes| == MAX_VFS_NODES && id == 1
    ensures Reaches(before, v.Now()) && |before.ns| == MAX_VFS_NODES && before.ns[1].kind == Directory(map["f" := 3])
    ensures before.ns[2].kind == Directory(map["f" := 4]) && before.ns[3].kind == File([]) && before.ns[4].kind == File([0])
    ensures Arrived(v.Now(), 1, "f", Leaf(Owner(S_IFREG, 0, 0), File([0])))
  {
    hide Shape, Bytes, Reaches, Contained, Copied, Copyable, Mergeable, MergeDone, Arrived, LeafFits, Spilled, IntoTaken, SubtreeAt;
    v := DirectoryAndFile(now);
    UseUpNodes(v, now);
    ShapeIsTree(v.nodes, v.depth);
    before := v.Now();
    id := v.DeepCopy(2, 1, "d", now);
    ShapeIsTree(v.nodes, v.depth);
    SoleFileSpills(before, v.Now());
  }

  /** `/b` holds an empty file `f`, and `/a` a file `f` of one byte. */
  method DirectoryAndFile(now: int) returns (v: Vfs)
    ensures fresh(v) && v.Valid() && |v.nodes| == 5 && v.contentBytes == 1 && Children(v.nodes, 0) == map["b" := 1, "a" := 2]
    ensures v.nodes[0].kind.Directory? && v.nodes[1].kind == Directory(map["f" := 3]) && v.nodes[2].kind == Directory(map["f" := 4])
    ensures v.nodes[3].kind == File([]) && v.nodes[4].kind == File([0]) && OwnerOf(v.nodes[4].meta) == Owner(S_IFREG, 0, 0)
  {
    hide Shape, Bytes, Reaches;
    v := new Vfs(now);
    OneNode(v.nodes, v.depth);
    var b := v.Mkdir(0, "b", 0, 0, 0, now);
    ghost var ns1 := v.nodes;
    assert v.depth == [0, 1] && Children(ns1, 0) == map["b" := 1] && Children(ns1, 1) == map[];
    var a := v.Mkdir(0, "a", 0, 0, 0, now);
    ghost var ns2 := v.nodes;
    assert v.depth == [0, 1, 1] && Children(ns2, 0) == map["b" := 1, "a" := 2] && Children(ns2, 1) == map[] && Children(ns2, 2) == map[];
    AddFiles(v, now);
  }

  method AddFiles(v: Vfs, now: int)
    requires v.Valid() && |v.nodes| == 3 && v.contentBytes == 0 && v.depth == [0, 1, 1] && v.nodes[0].kind.Directory?
    requires v.nodes[1].kind == Directory(map[]) && v.nodes[2].kind == Directory(map[])
    modifies v
    ensures v.Valid() && |v.nodes| == 5 && v.contentBytes == 1 && v.nodes[0] == old(v.nodes[0])
    ensures v.nodes[1].kind == Directory(map["f" := 3]) && v.nodes[2].kind == Directory(map["f" := 4])
    ensures v.nodes[3].kind == File([]) && v.nodes[4].kind == File([0]) && OwnerOf(v.nodes[4].meta) == Owner(S_IFREG, 0, 0)
  {
    hide Shape, Bytes, Reaches;
    var f := v.AddFile(1, "f", [], 0, 0, 0, now);
    ghost var ns3 := v.nodes;
    assert v.depth == [0, 1, 1, 2] && Children(ns3, 1) == map["f" := 3] && Children(ns3, 2) == map[];
    var g := v.AddFile(2, "f", [0], 0, 0, 0, now);
  }

  lemma SoleFileSpills(s: State, t: State)
    requires Sane(s) && Treed(t) && |s.ns| == MAX_VFS_NODES <= |t.ns| && s.bytes == 1 && Spilled(s, t, 2, 1)
    requires s.ns[1].kind == Directory(map["f" := 3]) && s.ns[2].kind == Directory(map["f" := 4])
    requires s.ns[3].kind == File([]) && s.ns[4].kind == File([0]) && OwnerOf(s.ns[4].meta) == Owner(S_IFREG, 0, 0)
    ensures Arrived(t, 1, "f", Leaf(Owner(S_IFREG, 0, 0), File([0])))
  {
    hide Arrived;
    assert "f" in Children(s.ns, 2) && SpilledEntry(s, t, 2, 1, "f");
    assert LeafFits(s, 4, 1, "f");
  }
}
