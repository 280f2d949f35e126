/**
  The three ways an operation edits the arena (push a child, replace or drop a record in place,
  move a subtree), as functions on the arena, with the proof that each keeps it a tree.
 */
module VfsEdits {
  import opened Wrappers
  import opened VfsTree

  // ---- Pushing a node ------------------------------------------------------------------------

  /** The arena after a push: the new record is last, and its parent lists it if it is a directory. */
  function Pushed(ns: Arena, p: NodeId, name: string, kind: NodeKind, meta: Metadata): (ns': Arena)
    requires p < |ns|
    ensures |ns'| == |ns| + 1
  {
    var ns1 := ns + [Node(name, Some(p), kind, meta)];
    if ns[p].kind.Directory? then WithEntry(ns1, p, name, |ns|) else ns1
  }

  function WithEntry(ns: Arena, p: NodeId, name: string, c: NodeId): Arena
    requires p < |ns| && ns[p].kind.Directory?
  {
    ns[p := ns[p].(kind := Directory(ns[p].kind.children[name := c]))]
  }

  function WithoutEntry(ns: Arena, p: NodeId, name: string): (ns': Arena)
    requires p < |ns|
    ensures |ns'| == |ns|
  {
    if ns[p].kind.Directory? then ns[p := ns[p].(kind := Directory(ns[p].kind.children - {name}))] else ns
  }

  /** The two writes of an insertion add up to the push. */
  lemma PushedInSteps(ns: Arena, p: NodeId, name: string, kind: NodeKind, meta: Metadata)
    requires p < |ns|
    ensures var ns1 := ns + [Node(name, Some(p), kind, meta)];
            Pushed(ns, p, name, kind, meta) ==
              if ns1[p].kind.Directory? then ns1[p := ns1[p].(kind := Directory(ns1[p].kind.children[name := |ns|]))] else ns1
  {
  }

  lemma NothingToDrop(ns: Arena, p: NodeId, name: string)
    requires p < |ns| && name !in Children(ns, p)
    ensures WithoutEntry(ns, p, name) == ns
  {
    if ns[p].kind.Directory? {
      assert ns[p].kind.children - {name} == ns[p].kind.children;
    }
  }

  function Replaced(ns: Arena, i: NodeId, kind: NodeKind, meta: Metadata): (ns': Arena)
    requires i < |ns|
    ensures |ns'| == |ns|
  {
    ns[i := ns[i].(kind := kind, meta := meta)]
  }

  ghost predicate FreshKind(kind: NodeKind, meta: Metadata) {
    && (kind.Directory? ==> kind.children == map[])
    && TypeBits(kind) <= meta.mode < TypeBits(kind) + PERMISSIONS
  }

  lemma PushKeepsTree(ns: Arena, d: seq<nat>, p: NodeId, name: string, kind: NodeKind, meta: Metadata)
    requires Tree(ns, d) && p < |ns| && FreshKind(kind, meta)
    ensures Tree(Pushed(ns, p, name, kind, meta), d + [d[p] + 1])
  {
    var ns', d' := Pushed(ns, p, name, kind, meta), d + [d[p] + 1];
    forall q, n | 0 <= q < |ns'| && n in Children(ns', q) ensures Entry(ns', q, n, Children(ns', q)[n]) {
      if q < |ns| && !(q == p && n == name) {
        assert n in Children(ns, q);
      }
    }
  }

  /** A push disturbs no older edge other than the entry it overwrites. */
  lemma PushedEdges(ns: Arena, d: seq<nat>, p: NodeId, name: string, kind: NodeKind, meta: Metadata, j: NodeId)
    requires Tree(ns, d) && p < |ns| && FreshKind(kind, meta) && 0 < j < |ns|
    requires WellLinked(Pushed(ns, p, name, kind, meta))
    ensures IsChild(Pushed(ns, p, name, kind, meta), j) ==> IsChild(ns, j)
    ensures name !in Children(ns, p) && IsChild(ns, j) ==> IsChild(Pushed(ns, p, name, kind, meta), j)
  {
  }

  lemma PushedBytes(ns: Arena, p: NodeId, name: string, kind: NodeKind, meta: Metadata)
    requires p < |ns|
    ensures Bytes(Pushed(ns, p, name, kind, meta)) == Bytes(ns) + ContentLen(Node(name, Some(p), kind, meta))
  {
    var ns1 := ns + [Node(name, Some(p), kind, meta)];
    BytesPush(ns, Node(name, Some(p), kind, meta));
    if ns[p].kind.Directory? {
      BytesUpdate(ns1, p, WithEntry(ns1, p, name, |ns|)[p]);
    }
  }

  lemma PushKeepsShape(ns: Arena, d: seq<nat>, p: NodeId, name: string, kind: NodeKind, meta: Metadata)
    requires Shape(ns, d) && p < |ns| && FreshKind(kind, meta)
    requires |ns| < MAX_VFS_NODES && d[p] < MAX_VFS_DEPTH
    ensures Shape(Pushed(ns, p, name, kind, meta), d + [d[p] + 1])
  {
    PushKeepsTree(ns, d, p, name, kind, meta);
    PushKeepsCap(ns, d, p, name, kind, meta);
  }

  lemma PushKeepsCap(ns: Arena, d: seq<nat>, p: NodeId, name: string, kind: NodeKind, meta: Metadata)
    requires Tree(ns, d) && Capped(ns, d) && p < |ns| && FreshKind(kind, meta) && d[p] < MAX_VFS_DEPTH
    requires Tree(Pushed(ns, p, name, kind, meta), d + [d[p] + 1])
    ensures Capped(Pushed(ns, p, name, kind, meta), d + [d[p] + 1])
  {
    var ns', d' := Pushed(ns, p, name, kind, meta), d + [d[p] + 1];
    forall j | 0 < j < |ns| && IsChild(ns', j) ensures IsChild(ns, j) {
      PushedEdges(ns, d, p, name, kind, meta, j);
    }
    forall i | 0 <= i < |ns'| && Linked(ns', d', i) ensures d'[i] <= MAX_VFS_DEPTH {
      if i < |ns| {
        BelowMono(ns, d, ns', d', 0, i);
      }
    }
  }

  // ---- Editing one record in place ---------------------------------------------------------------

  /** `ns'` keeps every parent pointer and name of `ns`, and adds no child-map entry. */
  ghost predicate Shrinks(ns: Arena, ns': Arena) {
    && |ns'| == |ns|
    && (forall i :: 0 <= i < |ns| ==> ns'[i].parent == ns[i].parent && ns'[i].name == ns[i].name)
    && (forall i, n :: 0 <= i < |ns| && n in Children(ns', i) ==> n in Children(ns, i) && Children(ns', i)[n] == Children(ns, i)[n])
    && (|ns| > 0 && ns[0].kind.Directory? ==> ns'[0].kind.Directory?)
  }

  lemma ShrinkKeepsShape(ns: Arena, d: seq<nat>, ns': Arena)
    requires Shape(ns, d) && Shrinks(ns, ns') && Typed(ns')
    ensures Shape(ns', d)
  {
    forall q, n | 0 <= q < |ns'| && n in Children(ns', q) ensures Entry(ns', q, n, Children(ns', q)[n]) {
      assert Entry(ns, q, n, Children(ns, q)[n]);
    }
    assert Tree(ns', d);
    forall i | 0 <= i < |ns'| && Linked(ns', d, i) ensures d[i] <= MAX_VFS_DEPTH {
      BelowMono(ns, d, ns', d, 0, i);
    }
  }

  /** Replacing the record of any node but the root, unlinked ones included. */
  lemma ReplaceKeepsShape(ns: Arena, d: seq<nat>, i: NodeId, kind: NodeKind, meta: Metadata)
    requires Shape(ns, d) && 0 < i < |ns| && FreshKind(kind, meta)
    ensures Shape(Replaced(ns, i, kind, meta), d)
    ensures Bytes(Replaced(ns, i, kind, meta)) == Bytes(ns) - ContentLen(ns[i]) + ContentLen(Replaced(ns, i, kind, meta)[i])
  {
    ShrinkKeepsShape(ns, d, Replaced(ns, i, kind, meta));
    BytesUpdate(ns, i, Replaced(ns, i, kind, meta)[i]);
  }

  /** Every record is dated as it was, or `now`, and every new one `now`. */
  ghost predicate Stamped(ns: Arena, ns': Arena, now: int) {
    && |ns| <= |ns'|
    && (forall i :: 0 <= i < |ns| ==> ns'[i].meta.mtime == ns[i].meta.mtime || ns'[i].meta.mtime == now)
    && (forall j :: |ns| <= j < |ns'| ==> ns'[j].meta.mtime == now)
  }

  lemma StampedSelf(ns: Arena, now: int)
    ensures Stamped(ns, ns, now)
  {
  }

  lemma StampedTrans(ns: Arena, ns': Arena, ns'': Arena, now: int)
    requires Stamped(ns, ns', now) && Stamped(ns', ns'', now)
    ensures Stamped(ns, ns'', now)
  {
  }

  lemma StampedPush(ns: Arena, p: NodeId, name: string, kind: NodeKind, meta: Metadata)
    requires p < |ns|
    ensures Stamped(ns, Pushed(ns, p, name, kind, meta), meta.mtime)
    ensures Pushed(ns, p, name, kind, meta)[|ns|] == Node(name, Some(p), kind, meta)
  {
  }

  lemma StampedReplace(ns: Arena, i: NodeId, kind: NodeKind, meta: Metadata)
    requires i < |ns|
    ensures Stamped(ns, Replaced(ns, i, kind, meta), meta.mtime) && Replaced(ns, i, kind, meta)[i].meta == meta
  {
  }

  lemma StampedDrop(ns: Arena, p: NodeId, name: string, now: int)
    requires p < |ns|
    ensures Stamped(ns, WithoutEntry(ns, p, name), now)
  {
  }

  lemma ShapeIsTree(ns: Arena, d: seq<nat>)
    requires Shape(ns, d)
    ensures Tree(ns, d) && 0 < |ns| == |d| <= MAX_VFS_NODES
  {
  }

  lemma ModeAt(ns: Arena, d: seq<nat>, i: NodeId)
    requires Shape(ns, d) && i < |ns|
    ensures var bits := TypeBits(ns[i].kind); bits <= ns[i].meta.mode < bits + PERMISSIONS
    ensures ns[i].meta.mode == TypeBits(ns[i].kind) + ns[i].meta.mode % PERMISSIONS
  {
  }

  lemma EntryIsNotRoot(ns: Arena, d: seq<nat>, p: NodeId, name: string, c: NodeId)
    requires Shape(ns, d) && Entry(ns, p, name, c)
    ensures 0 < c < |ns|
  {
  }

  lemma DropKeepsShape(ns: Arena, d: seq<nat>, p: NodeId, name: string)
    requires Shape(ns, d) && p < |ns|
    ensures Shape(WithoutEntry(ns, p, name), d)
    ensures Bytes(WithoutEntry(ns, p, name)) == Bytes(ns)
  {
    ShrinkKeepsShape(ns, d, WithoutEntry(ns, p, name));
    BytesUpdate(ns, p, WithoutEntry(ns, p, name)[p]);
  }

  // ---- Moving a subtree -----------------------------------------------------------------------------

  /** The arena after `rename`: whatever sits at the node's recorded place and at the destination is
      detached, and the node is re-linked at the destination. */
  ghost function Moved(ns: Arena, id: NodeId, np: NodeId, nn: string): (ns': Arena)
    requires WellLinked(ns) && 0 < id < |ns| && np < |ns|
    ensures |ns'| == |ns|
  {
    seq(|ns|, i requires 0 <= i < |ns| => MovedNode(ns, id, np, nn, i))
  }

  ghost function MovedNode(ns: Arena, id: NodeId, np: NodeId, nn: string, i: NodeId): Node
    requires WellLinked(ns) && 0 < id < |ns| && np < |ns| && i < |ns|
  {
    var n := if i == id then ns[i].(name := nn, parent := Some(np)) else ns[i];
    if n.kind.Directory? then n.(kind := Directory(MovedChildren(ns, id, np, nn, i))) else n
  }

  ghost function MovedChildren(ns: Arena, id: NodeId, np: NodeId, nn: string, i: NodeId): map<string, NodeId>
    requires WellLinked(ns) && 0 < id < |ns| && np < |ns| && i < |ns|
  {
    var kept := if i == Parent(ns, id) then Children(ns, i) - {ns[id].name} else Children(ns, i);
    if i == np then kept[nn := id] else kept
  }

  /** The four writes of `rename` (detach, displace, rename, re-link) add up to the move. */
  lemma MovedInSteps(ns: Arena, id: NodeId, np: NodeId, nn: string, ns': Arena)
    requires WellLinked(ns) && 0 < id < |ns| && np < |ns| && ns[np].kind.Directory? && id != np
    requires
      var ns1 := WithoutEntry(ns, Parent(ns, id), ns[id].name);
      var ns2 := WithoutEntry(ns1, np, nn);
      var ns3 := ns2[id := ns2[id].(name := nn, parent := Some(np))];
      ns' == WithEntry(ns3, np, nn, id)
    ensures ns' == Moved(ns, id, np, nn)
  {
    var ns1 := WithoutEntry(ns, Parent(ns, id), ns[id].name);
    var ns2 := WithoutEntry(ns1, np, nn);
    forall i | 0 <= i < |ns| ensures ns'[i] == MovedNode(ns, id, np, nn, i) {
      DroppedAt(ns, Parent(ns, id), ns[id].name, i);
      DroppedAt(ns1, np, nn, i);
      hide WithoutEntry;
      if i == np {
        assert (ns1[i].kind.children - {nn})[nn := id] == ns1[i].kind.children[nn := id];
      }
    }
  }

  lemma DroppedAt(ns: Arena, p: NodeId, name: string, i: NodeId)
    requires p < |ns| && i < |ns|
    ensures WithoutEntry(ns, p, name)[i]
         == if i == p && ns[i].kind.Directory? then ns[i].(kind := Directory(ns[i].kind.children - {name})) else ns[i]
  {
  }

  /** Ranks after the move: the subtree hanging from `id` by parent pointers shifts as a block. */
  ghost function MovedRank(ns: Arena, d: seq<nat>, id: NodeId, np: NodeId): seq<nat>
    requires Tree(ns, d) && id < |ns| && np < |ns|
  {
    seq(|ns|, i requires 0 <= i < |ns| =>
      if Anc(ns, d, id, i) then AncRank(ns, d, id, i); d[i] - d[id] + d[np] + 1 else d[i])
  }

  lemma MoveKeepsTree(ns: Arena, d: seq<nat>, id: NodeId, np: NodeId, nn: string)
    requires Tree(ns, d) && 0 < id < |ns| && np < |ns| && ns[np].kind.Directory?
    requires !Anc(ns, d, id, np)
    ensures Tree(Moved(ns, id, np, nn), MovedRank(ns, d, id, np))
  {
    var ns', d' := Moved(ns, id, np, nn), MovedRank(ns, d, id, np);
    forall q, n | 0 <= q < |ns'| && n in Children(ns', q) ensures Entry(ns', q, n, Children(ns', q)[n]) {
      if !(q == np && n == nn) {
        assert n in Children(ns, q);
        assert Entry(ns, q, n, Children(ns, q)[n]);
      }
    }
    forall i | 0 < i < |ns'|
      ensures ns'[i].parent.Some? && ns'[i].parent.value < |ns'| && d'[i] == d'[ns'[i].parent.value] + 1
    {
      if i != id {
        assert Anc(ns, d, id, i) <==> Anc(ns, d, id, Parent(ns, i));
        if Anc(ns, d, id, Parent(ns, i)) {
          AncRank(ns, d, id, Parent(ns, i));
        }
      }
    }
  }

  /** Besides `id` itself, a move links no node that was not linked. */
  lemma MovedEdges(ns: Arena, d: seq<nat>, id: NodeId, np: NodeId, nn: string, j: NodeId)
    requires Tree(ns, d) && 0 < id < |ns| && np < |ns| && ns[np].kind.Directory? && 0 < j < |ns|
    requires !Anc(ns, d, id, np) && WellLinked(Moved(ns, id, np, nn))
    ensures j != id && IsChild(Moved(ns, id, np, nn), j) ==> IsChild(ns, j)
  {
  }

  /** A node reachable after the move was reachable before, either below `id` or from where it was. */
  lemma {:induction false} BelowAfterMove(ns: Arena, d: seq<nat>, id: NodeId, np: NodeId, nn: string, i: NodeId)
    requires Tree(ns, d) && 0 < id < |ns| && np < |ns| && ns[np].kind.Directory? && i < |ns|
    requires !Anc(ns, d, id, np)
    requires Tree(Moved(ns, id, np, nn), MovedRank(ns, d, id, np))
    requires Linked(Moved(ns, id, np, nn), MovedRank(ns, d, id, np), i)
    ensures if Anc(ns, d, id, i) then Below(ns, d, id, i) && Linked(Moved(ns, id, np, nn), MovedRank(ns, d, id, np), np)
            else Linked(ns, d, i)
    decreases d[i]
  {
    if i != 0 && i != id {
      MovedEdges(ns, d, id, np, nn, i);
      BelowAfterMove(ns, d, id, np, nn, Parent(ns, i));
    }
  }

  lemma MoveKeepsShape(ns: Arena, d: seq<nat>, id: NodeId, np: NodeId, nn: string, h: nat)
    requires Shape(ns, d) && 0 < id < |ns| && np < |ns| && ns[np].kind.Directory?
    requires !Anc(ns, d, id, np) && IsHeight(ns, d, id, h) && d[np] + 1 + h <= MAX_VFS_DEPTH
    ensures Shape(Moved(ns, id, np, nn), MovedRank(ns, d, id, np))
  {
    var ns', d' := Moved(ns, id, np, nn), MovedRank(ns, d, id, np);
    MoveKeepsTree(ns, d, id, np, nn);
    forall i | 0 <= i < |ns'| && Linked(ns', d', i) ensures d'[i] <= MAX_VFS_DEPTH {
      BelowAfterMove(ns, d, id, np, nn, i);
    }
  }

  lemma MoveKeepsBytes(ns: Arena, id: NodeId, np: NodeId, nn: string)
    requires WellLinked(ns) && 0 < id < |ns| && np < |ns| && ns[np].kind.Directory? && id != np
    ensures Bytes(Moved(ns, id, np, nn)) == Bytes(ns)
  {
    SameLenSameBytes(ns, Moved(ns, id, np, nn));
  }

  lemma {:induction false} SameLenSameBytes(ns: Arena, ns': Arena)
    requires |ns| == |ns'| && forall i :: 0 <= i < |ns| ==> ContentLen(ns'[i]) == ContentLen(ns[i])
    ensures Bytes(ns') == Bytes(ns)
  {
    if ns != [] {
      SameLenSameBytes(ns[..|ns| - 1], ns'[..|ns| - 1]);
    }
  }
}
