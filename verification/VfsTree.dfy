/**
  The arena of the in-memory filesystem as a value, and what it means for it to be a tree.

  Nodes are addressed by their index. Parent pointers and child maps are kept separately by the
  code, so "being a tree" is a relation between the two: every parent chain ends at the root, and
  every child-map entry agrees with the child's own parent and name. Unlinked nodes (tombstones)
  stay in the arena and keep their parent pointer.
 */
module VfsTree {
  import opened Wrappers

  type NodeId = nat
  type Generator = nat  // a dynamic file's generator function, as an opaque value

  const S_IFDIR: nat := 0x4000  // 0o040000
  const S_IFREG: nat := 0x8000  // 0o100000
  const S_IFLNK: nat := 0xA000  // 0o120000
  const PERMISSIONS: nat := 0x1000  // one past 0o7777

  const MAX_VFS_NODES: nat := 2_000
  const MAX_VFS_BYTES: nat := 8 * 1024 * 1024
  const MAX_VFS_DEPTH: nat := 128

  datatype Metadata = Metadata(mode: nat, uid: nat, gid: nat, mtime: int)

  datatype NodeKind =
    | Directory(children: map<string, NodeId>)
    | File(contents: seq<bv8>)
    | Symlink(target: string)
    | DynamicFile(generator: Generator)

  datatype Node = Node(name: string, parent: Option<NodeId>, kind: NodeKind, meta: Metadata)

  /** One line of a directory listing. */
  datatype DirEntry = DirEntry(name: string, id: NodeId)

  type Arena = seq<Node>

  function TypeBits(kind: NodeKind): nat {
    match kind
    case Directory(_) => S_IFDIR
    case Symlink(_) => S_IFLNK
    case _ => S_IFREG
  }

  function Children(ns: Arena, id: NodeId): map<string, NodeId>
    requires id < |ns|
  {
    if ns[id].kind.Directory? then ns[id].kind.children else map[]
  }

  // ---- The tree invariant ----------------------------------------------------------------

  ghost predicate WellLinked(ns: Arena) {
    && |ns| > 0
    && ns[0].parent.None?
    && ns[0].kind.Directory?
    && (forall i :: 0 < i < |ns| ==> ns[i].parent.Some? && ns[i].parent.value < |ns|)
    && (forall p, name :: 0 <= p < |ns| && name in Children(ns, p) ==> Entry(ns, p, name, Children(ns, p)[name]))
  }

  /** A child-map entry agrees with the child's own record. */
  ghost predicate Entry(ns: Arena, p: NodeId, name: string, c: NodeId) {
    c < |ns| && ns[c].parent == Some(p) && ns[c].name == name
  }

  /** `d` counts the steps from each node up its parent chain to the root: such a `d` exists exactly
      when no parent chain, tombstones included, is cyclic. */
  ghost predicate Ranked(ns: Arena, d: seq<nat>) {
    && |d| == |ns|
    && |d| > 0
    && d[0] == 0
    && forall i :: 0 < i < |ns| ==>
      ns[i].parent.Some? && ns[i].parent.value < |ns| && d[i] == d[ns[i].parent.value] + 1
  }

  ghost predicate Tree(ns: Arena, d: seq<nat>) {
    WellLinked(ns) && Ranked(ns, d)
  }

  ghost function Parent(ns: Arena, i: NodeId): (p: NodeId)
    requires WellLinked(ns) && 0 < i < |ns|
    ensures p < |ns|
  {
    ns[i].parent.value
  }

  /** `n` parent steps lead from `i` to the root, and no fewer. */
  ghost predicate ClimbsToRoot(ns: Arena, i: NodeId, n: nat)
    requires WellLinked(ns) && i < |ns|
    decreases n
  {
    if n == 0 then i == 0 else i != 0 && ClimbsToRoot(ns, Parent(ns, i), n - 1)
  }

  lemma {:induction false} RankIsClimb(ns: Arena, d: seq<nat>, i: NodeId, n: nat)
    requires Tree(ns, d) && i < |ns|
    ensures ClimbsToRoot(ns, i, n) <==> n == d[i]
    decreases d[i], n
  {
    if i != 0 && n > 0 {
      RankIsClimb(ns, d, Parent(ns, i), n - 1);
    } else if i != 0 {
      assert d[i] == d[Parent(ns, i)] + 1;
    }
  }

  /** The parent's child map lists `i`. */
  ghost predicate IsChild(ns: Arena, i: NodeId)
    requires WellLinked(ns) && 0 < i < |ns|
  {
    && ns[i].name in Children(ns, Parent(ns, i))
    && Children(ns, Parent(ns, i))[ns[i].name] == i
  }

  /** `a` is `i` or an ancestor of `i`, following parent pointers. */
  ghost predicate Anc(ns: Arena, d: seq<nat>, a: NodeId, i: NodeId)
    requires Tree(ns, d) && a < |ns| && i < |ns|
    decreases d[i]
  {
    i == a || (i != 0 && Anc(ns, d, a, Parent(ns, i)))
  }

  /** `i` can be reached from `a` by walking down child maps. */
  ghost predicate Below(ns: Arena, d: seq<nat>, a: NodeId, i: NodeId)
    requires Tree(ns, d) && a < |ns| && i < |ns|
    decreases d[i]
  {
    i == a || (i != 0 && IsChild(ns, i) && Below(ns, d, a, Parent(ns, i)))
  }

  /** Reachable from the root: not a tombstone and not under one. */
  ghost predicate Linked(ns: Arena, d: seq<nat>, i: NodeId)
    requires Tree(ns, d) && i < |ns|
  {
    Below(ns, d, 0, i)
  }

  ghost predicate Capped(ns: Arena, d: seq<nat>)
    requires Tree(ns, d)
  {
    forall i :: 0 <= i < |ns| && Linked(ns, d, i) ==> d[i] <= MAX_VFS_DEPTH
  }

  ghost predicate IsHeight(ns: Arena, d: seq<nat>, a: NodeId, h: nat)
    requires Tree(ns, d) && a < |ns|
  {
    && (exists i :: 0 <= i < |ns| && Below(ns, d, a, i) && d[i] == d[a] + h)
    && (forall i :: 0 <= i < |ns| && Below(ns, d, a, i) ==> d[i] <= d[a] + h)
  }

  ghost predicate Typed(ns: Arena) {
    forall i :: 0 <= i < |ns| ==> TypeBits(ns[i].kind) <= ns[i].meta.mode < TypeBits(ns[i].kind) + PERMISSIONS
  }

  function ContentLen(n: Node): nat {
    if n.kind.File? then |n.kind.contents| else 0
  }

  /** Bytes of file content resident in the arena, tombstones included. */
  ghost function Bytes(ns: Arena): nat {
    if ns == [] then 0 else Bytes(ns[..|ns| - 1]) + ContentLen(ns[|ns| - 1])
  }

  /** Everything about the arena that does not concern the byte counter. */
  ghost predicate Shape(ns: Arena, d: seq<nat>) {
    Tree(ns, d) && Capped(ns, d) && Typed(ns) && |ns| <= MAX_VFS_NODES
  }

  ghost predicate Sound(ns: Arena, d: seq<nat>, contentBytes: nat) {
    Shape(ns, d) && Bytes(ns) <= contentBytes <= MAX_VFS_BYTES
  }

  // ---- Facts about any tree ----------------------------------------------------------------

  lemma {:induction false} BelowIsAnc(ns: Arena, d: seq<nat>, a: NodeId, i: NodeId)
    requires Tree(ns, d) && a < |ns| && i < |ns| && Below(ns, d, a, i)
    ensures Anc(ns, d, a, i)
    decreases d[i]
  {
    if i != a {
      BelowIsAnc(ns, d, a, Parent(ns, i));
    }
  }

  lemma {:induction false} AncRank(ns: Arena, d: seq<nat>, a: NodeId, i: NodeId)
    requires Tree(ns, d) && a < |ns| && i < |ns| && Anc(ns, d, a, i)
    ensures d[a] <= d[i]
    ensures i != a ==> d[a] < d[i]
    decreases d[i]
  {
    if i != a {
      AncRank(ns, d, a, Parent(ns, i));
    }
  }

  lemma {:induction false} AncTrans(ns: Arena, d: seq<nat>, a: NodeId, b: NodeId, i: NodeId)
    requires Tree(ns, d) && a < |ns| && b < |ns| && i < |ns| && Anc(ns, d, a, b) && Anc(ns, d, b, i)
    ensures Anc(ns, d, a, i)
    decreases d[i]
  {
    if i != b {
      AncTrans(ns, d, a, b, Parent(ns, i));
    }
  }

  lemma {:induction false} RootIsAnc(ns: Arena, d: seq<nat>, i: NodeId)
    requires Tree(ns, d) && i < |ns|
    ensures Anc(ns, d, 0, i)
    decreases d[i]
  {
    if i != 0 {
      RootIsAnc(ns, d, Parent(ns, i));
    }
  }

  lemma {:induction false} BelowTrans(ns: Arena, d: seq<nat>, a: NodeId, b: NodeId, i: NodeId)
    requires Tree(ns, d) && a < |ns| && b < |ns| && i < |ns|
    requires Below(ns, d, a, b) && Below(ns, d, b, i)
    ensures Below(ns, d, a, i)
    decreases d[i]
  {
    if i != b {
      BelowTrans(ns, d, a, b, Parent(ns, i));
    }
  }

  /** The nodes on a parent chain. */
  ghost function ChainSet(ns: Arena, d: seq<nat>, i: NodeId): set<NodeId>
    requires Tree(ns, d) && i < |ns|
    decreases d[i]
  {
    {i} + if i == 0 then {} else ChainSet(ns, d, Parent(ns, i))
  }

  lemma {:induction false} ChainSetIsAncestors(ns: Arena, d: seq<nat>, i: NodeId)
    requires Tree(ns, d) && i < |ns|
    ensures |ChainSet(ns, d, i)| == d[i] + 1
    ensures forall a :: a in ChainSet(ns, d, i) <==> 0 <= a < |ns| && Anc(ns, d, a, i)
    decreases d[i]
  {
    if i != 0 {
      var p := Parent(ns, i);
      ChainSetIsAncestors(ns, d, p);
      if i in ChainSet(ns, d, p) {
        AncRank(ns, d, i, p);
        assert false;
      }
    }
  }

  ghost function Ids(n: nat): (s: set<NodeId>)
    ensures |s| == n
    ensures forall i :: i in s <==> 0 <= i < n
  {
    if n == 0 then {} else Ids(n - 1) + {n - 1}
  }

  lemma SubsetSize(s: set<NodeId>, t: set<NodeId>)
    requires s <= t
    ensures |s| <= |t|
    ensures |s| == |t| ==> s == t
  {
    assert t == s + (t - s);
    assert |t - s| == 0 ==> t - s == {};
  }

  /** Pigeonhole: a parent chain is shorter than the arena, and one that is as long as the arena
      passes through every node. This is why the loop bounds of the walkers are exact. */
  lemma ChainFitsArena(ns: Arena, d: seq<nat>, i: NodeId)
    requires Tree(ns, d) && i < |ns|
    ensures d[i] < |ns|
    ensures d[i] + 1 == |ns| ==> forall a :: 0 <= a < |ns| ==> Anc(ns, d, a, i)
  {
    ChainSetIsAncestors(ns, d, i);
    SubsetSize(ChainSet(ns, d, i), Ids(|ns|));
  }

  /** Fewer child-map entries over the same parents leave fewer nodes reachable. */
  lemma {:induction false} BelowMono(ns: Arena, d: seq<nat>, ns': Arena, d': seq<nat>, a: NodeId, i: NodeId)
    requires Tree(ns, d) && Tree(ns', d') && |ns| <= |ns'| && a < |ns| && i < |ns|
    requires forall j :: 0 < j < |ns| ==> ns'[j].parent == ns[j].parent
    requires forall j :: 0 < j < |ns| && IsChild(ns', j) ==> IsChild(ns, j)
    requires Below(ns', d', a, i)
    ensures Below(ns, d, a, i)
    decreases d[i]
  {
    if i != a {
      BelowMono(ns, d, ns', d', a, Parent(ns, i));
    }
  }

  lemma RankUnique(ns: Arena, d: seq<nat>, d': seq<nat>)
    requires Tree(ns, d) && Tree(ns, d')
    ensures d == d'
  {
    forall i | 0 <= i < |ns| ensures d[i] == d'[i] {
      RankIsClimb(ns, d, i, d[i]);
      RankIsClimb(ns, d', i, d[i]);
    }
  }

  lemma {:induction false} BytesUpdate(ns: Arena, i: NodeId, n: Node)
    requires i < |ns|
    ensures Bytes(ns[i := n]) == Bytes(ns) - ContentLen(ns[i]) + ContentLen(n)
    ensures Bytes(ns) >= ContentLen(ns[i])
  {
    var last := |ns| - 1;
    if i < last {
      BytesUpdate(ns[..last], i, n);
      assert ns[i := n][..last] == ns[..last][i := n];
    } else {
      assert ns[i := n][..last] == ns[..last];
    }
  }

  lemma BytesPush(ns: Arena, n: Node)
    ensures Bytes(ns + [n]) == Bytes(ns) + ContentLen(n)
  {
    assert (ns + [n])[..|ns|] == ns;
  }
}
