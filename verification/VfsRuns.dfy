/**
  Every run of operations: each one edits the arena, if at all, in one of a few ways, behind the checks the
  code makes, and the arena stays a capped tree with its bytes paid for.
 */
module VfsRuns {
  import opened Wrappers
  import opened VfsTree
  import opened VfsEdits

  datatype State = State(ns: Arena, d: seq<nat>, bytes: nat)

  /** What an operation does to the arena: `mkdir`, `add_file`, `add_dynamic_file`, `add_symlink` and `touch`
      push or replace, `write_file` replaces (a tombstone too: callers hold ids across an `unlink`), `chmod`,
      `chown` and `set_mtime` stamp, `unlink` drops, `rename` moves, and `mkdir_p`, `deep_copy` and
      `set_all_mtimes` do several of these. */
  datatype Edit =
    | Push(parent: NodeId, name: string, kind: NodeKind, meta: Metadata)
    | Replace(id: NodeId, kind: NodeKind, meta: Metadata)
    | Stamp(id: NodeId, meta: Metadata)
    | Drop(parent: NodeId, name: string)
    | Move(id: NodeId, newParent: NodeId, newName: string, height: nat)

  ghost predicate Sane(s: State) {
    Sound(s.ns, s.d, s.bytes)
  }

  /** The counter after a replacement: a file's old bytes come off for new contents, and stay on for a
      generated file. */
  function Recharged(bytes: nat, was: Node, kind: NodeKind): int {
    match kind
    case File(contents) => bytes - ContentLen(was) + |contents|
    case _ => bytes
  }

  /** The checks the code makes before the edit. */
  ghost predicate Guarded(s: State, e: Edit)
    requires Sane(s)
  {
    match e
    case Push(p, _, kind, meta) =>
      && p < |s.ns| && FreshKind(kind, meta) && |s.ns| < MAX_VFS_NODES && s.d[p] < MAX_VFS_DEPTH
      && s.bytes + ContentLen(Node("", None, kind, meta)) <= MAX_VFS_BYTES
    case Replace(id, kind, meta) =>
      && 0 < id < |s.ns| && FreshKind(kind, meta) && (kind.File? || kind.DynamicFile?)
      && Recharged(s.bytes, s.ns[id], kind) <= MAX_VFS_BYTES
    case Stamp(id, meta) =>
      id < |s.ns| && TypeBits(s.ns[id].kind) <= meta.mode < TypeBits(s.ns[id].kind) + PERMISSIONS
    case Drop(p, _) => p < |s.ns|
    case Move(id, np, _, h) =>
      && id < |s.ns| && np < |s.ns| && s.ns[np].kind.Directory? && !Anc(s.ns, s.d, id, np)
      && IsHeight(s.ns, s.d, id, h) && s.d[np] + 1 + h <= MAX_VFS_DEPTH
  }

  /** The bytes an overwritten file gives back were counted, so the counter does not wrap. */
  lemma RechargeDoesNotWrap(s: State, id: NodeId, kind: NodeKind)
    requires Sane(s) && id < |s.ns|
    ensures ContentLen(s.ns[id]) <= s.bytes && Recharged(s.bytes, s.ns[id], kind) >= 0
  {
    BytesUpdate(s.ns, id, s.ns[id]);
  }

  ghost function Edited(s: State, e: Edit): State
    requires Sane(s) && Guarded(s, e)
  {
    match e
    case Push(p, name, kind, meta) =>
      State(Pushed(s.ns, p, name, kind, meta), s.d + [s.d[p] + 1], s.bytes + ContentLen(Node(name, Some(p), kind, meta)))
    case Replace(id, kind, meta) =>
      RechargeDoesNotWrap(s, id, kind);
      State(Replaced(s.ns, id, kind, meta), s.d, Recharged(s.bytes, s.ns[id], kind))
    case Stamp(id, meta) => State(Replaced(s.ns, id, s.ns[id].kind, meta), s.d, s.bytes)
    case Drop(p, name) => State(WithoutEntry(s.ns, p, name), s.d, s.bytes)
    case Move(id, np, nn, _) =>
      RootIsAnc(s.ns, s.d, np);
      State(Moved(s.ns, id, np, nn), MovedRank(s.ns, s.d, id, np), s.bytes)
  }

  lemma EditKeepsSane(s: State, e: Edit)
    requires Sane(s) && Guarded(s, e)
    ensures Sane(Edited(s, e))
  {
    hide Shape, Moved, MovedRank, WithoutEntry, Pushed, Replaced, Anc, IsHeight;
    match e
    case Push(p, name, kind, meta) => PushIsSane(s, p, name, kind, meta);
    case Replace(id, kind, meta) => ReplaceIsSane(s, id, kind, meta);
    case Stamp(id, meta) => StampIsSane(s, id, meta);
    case Drop(p, name) => DropKeepsShape(s.ns, s.d, p, name);
    case Move(id, np, nn, h) => MoveIsSane(s, id, np, nn, h);
  }

  lemma PushIsSane(s: State, p: NodeId, name: string, kind: NodeKind, meta: Metadata)
    requires Sane(s) && Guarded(s, Push(p, name, kind, meta))
    ensures Sane(Edited(s, Push(p, name, kind, meta)))
  {
    hide Shape, Pushed;
    PushKeepsShape(s.ns, s.d, p, name, kind, meta);
    PushedBytes(s.ns, p, name, kind, meta);
  }

  lemma ReplaceIsSane(s: State, id: NodeId, kind: NodeKind, meta: Metadata)
    requires Sane(s) && Guarded(s, Replace(id, kind, meta))
    ensures Sane(Edited(s, Replace(id, kind, meta)))
  {
    hide Shape;
    RechargeDoesNotWrap(s, id, kind);
    ReplaceKeepsShape(s.ns, s.d, id, kind, meta);
  }

  lemma StampIsSane(s: State, id: NodeId, meta: Metadata)
    requires Sane(s) && Guarded(s, Stamp(id, meta))
    ensures Sane(Edited(s, Stamp(id, meta)))
  {
    var ns' := Replaced(s.ns, id, s.ns[id].kind, meta);
    ShrinkKeepsShape(s.ns, s.d, ns');
    SameLenSameBytes(s.ns, ns');
  }

  lemma MoveIsSane(s: State, id: NodeId, np: NodeId, nn: string, h: nat)
    requires Sane(s) && Guarded(s, Move(id, np, nn, h))
    ensures Sane(Edited(s, Move(id, np, nn, h)))
  {
    RootIsAnc(s.ns, s.d, np);
    MoveKeepsShape(s.ns, s.d, id, np, nn, h);
    MoveKeepsBytes(s.ns, id, np, nn);
  }

  /** A run of edits, each of which passes its checks when its turn comes. */
  ghost predicate Runs(s: State, es: seq<Edit>, t: State)
    decreases |es|
  {
    Sane(s) && if es == [] then t == s else Guarded(s, es[0]) && Runs(Edited(s, es[0]), es[1..], t)
  }

  /** The parent chain from `i` ends at the root, within the size of the arena. */
  ghost predicate ReachesRoot(ns: Arena, i: NodeId)
    requires WellLinked(ns) && i < |ns|
  {
    exists n: nat :: n < |ns| && ClimbsToRoot(ns, i, n)
  }

  /** `c` is listed by `p` under `name`, and nowhere else. */
  ghost predicate ListedOnce(ns: Arena, p: NodeId, name: string, c: NodeId) {
    forall q, other :: 0 <= q < |ns| && other in Children(ns, q) && Children(ns, q)[other] == c ==> q == p && other == name
  }

  /** What holds of an arena between operations. */
  ghost predicate Invariants(s: State) {
    && WellLinked(s.ns)
    && (forall i :: 0 <= i < |s.ns| ==> ReachesRoot(s.ns, i))
    && (forall p, name :: 0 <= p < |s.ns| && name in Children(s.ns, p) ==>
          Entry(s.ns, p, name, Children(s.ns, p)[name]) && ListedOnce(s.ns, p, name, Children(s.ns, p)[name]))
    && (forall i :: 0 <= i < |s.ns| ==> WithinDepth(s, i))
    && |s.ns| <= MAX_VFS_NODES
    && Bytes(s.ns) <= s.bytes <= MAX_VFS_BYTES
  }

  /** If `i` can be reached from the root, it is at most 128 steps below it. */
  ghost predicate WithinDepth(s: State, i: NodeId)
    requires WellLinked(s.ns) && i < |s.ns|
  {
    Tree(s.ns, s.d) && (Linked(s.ns, s.d, i) ==> exists n: nat :: n <= MAX_VFS_DEPTH && ClimbsToRoot(s.ns, i, n))
  }

  lemma SaneMeans(s: State)
    requires Sane(s)
    ensures Invariants(s)
  {
    forall i | 0 <= i < |s.ns|
      ensures ReachesRoot(s.ns, i) && WithinDepth(s, i)
    {
      RankIsClimb(s.ns, s.d, i, s.d[i]);
      ChainFitsArena(s.ns, s.d, i);
    }
    forall p, name | 0 <= p < |s.ns| && name in Children(s.ns, p)
      ensures Entry(s.ns, p, name, Children(s.ns, p)[name]) && ListedOnce(s.ns, p, name, Children(s.ns, p)[name])
    {
      EntryIsListedOnce(s.ns, p, name);
    }
  }

  lemma EntryIsListedOnce(ns: Arena, p: NodeId, name: string)
    requires WellLinked(ns) && p < |ns| && name in Children(ns, p)
    ensures Entry(ns, p, name, Children(ns, p)[name]) && ListedOnce(ns, p, name, Children(ns, p)[name])
  {
    forall q, other | 0 <= q < |ns| && other in Children(ns, q) && Children(ns, q)[other] == Children(ns, p)[name]
      ensures q == p && other == name
    {
      assert Entry(ns, q, other, Children(ns, q)[other]);
    }
  }

  /** Over every run, from any sound arena: every parent chain, tombstones included, ends at the root within
      the size of the arena; a node is listed at most once, by its own parent under its own name; reachable
      nodes are within the depth cap; and the byte counter covers the bytes held and stays under its cap. */
  lemma {:induction false} RunKeepsInvariants(s: State, es: seq<Edit>, t: State)
    requires Runs(s, es, t)
    ensures Sane(t) && Invariants(t)
    decreases |es|
  {
    hide Sane, Guarded, Edited, Invariants;
    if es == [] {
      SaneMeans(s);
    } else {
      RunKeepsInvariants(Edited(s, es[0]), es[1..], t);
    }
  }

  /** One run after another is a run, so an operation that makes several edits is one too. */
  lemma {:induction false} RunsConcat(s: State, es: seq<Edit>, t: State, fs: seq<Edit>, u: State)
    requires Runs(s, es, t) && Runs(t, fs, u)
    ensures Runs(s, es + fs, u)
    decreases |es|
  {
    hide Sane, Guarded, Edited;
    if es == [] {
      assert es + fs == fs;
    } else {
      RunsConcat(Edited(s, es[0]), es[1..], t, fs, u);
      assert (es + fs)[1..] == es[1..] + fs;
    }
  }

  // ---- Operations as runs -------------------------------------------------------------------------

  ghost predicate Reaches(s: State, t: State) {
    exists es :: Runs(s, es, t)
  }

  lemma ReachesSelf(s: State)
    requires Sane(s)
    ensures Reaches(s, s)
  {
    hide Sane;
    assert Runs(s, [], s);
  }

  lemma ReachesTrans(s: State, t: State, u: State)
    requires Reaches(s, t) && Reaches(t, u)
    ensures Reaches(s, u)
  {
    hide Runs;
    var es :| Runs(s, es, t);
    var fs :| Runs(t, fs, u);
    RunsConcat(s, es, t, fs, u);
  }

  lemma ReachesByOne(s: State, e: Edit, t: State)
    requires Sane(s) && Guarded(s, e) && t == Edited(s, e)
    ensures Reaches(s, t)
  {
    EditKeepsSane(s, e);
    hide Sane, Guarded, Edited;
    assert [e][1..] == [];
    assert Runs(t, [], t);
    assert Runs(s, [e], t);
  }

  lemma ReachesByPush(s: State, p: NodeId, name: string, kind: NodeKind, meta: Metadata, t: State)
    requires Sane(s) && p < |s.ns| && |s.ns| < MAX_VFS_NODES && s.d[p] < MAX_VFS_DEPTH && FreshKind(kind, meta)
    requires t.ns == Pushed(s.ns, p, name, kind, meta) && t.d == s.d + [s.d[p] + 1]
    requires t.bytes == s.bytes + ContentLen(Node(name, Some(p), kind, meta)) <= MAX_VFS_BYTES
    ensures Reaches(s, t)
  {
    hide Pushed, Shape, Bytes, Runs;
    ReachesByOne(s, Push(p, name, kind, meta), t);
  }

  lemma ReachesByReplace(s: State, id: NodeId, kind: NodeKind, meta: Metadata, t: State)
    requires Sane(s) && 0 < id < |s.ns| && FreshKind(kind, meta) && (kind.File? || kind.DynamicFile?)
    requires t.ns == Replaced(s.ns, id, kind, meta) && t.d == s.d
    requires t.bytes == Recharged(s.bytes, s.ns[id], kind) <= MAX_VFS_BYTES
    ensures Reaches(s, t)
  {
    hide Replaced, Shape, Bytes, Runs;
    ReachesByOne(s, Replace(id, kind, meta), t);
  }

  lemma ReachesByStamp(s: State, id: NodeId, meta: Metadata, t: State)
    requires Sane(s) && id < |s.ns| && TypeBits(s.ns[id].kind) <= meta.mode < TypeBits(s.ns[id].kind) + PERMISSIONS
    requires t == State(Replaced(s.ns, id, s.ns[id].kind, meta), s.d, s.bytes)
    ensures Reaches(s, t)
  {
    hide Replaced, Shape, Bytes, Runs;
    ReachesByOne(s, Stamp(id, meta), t);
  }

  lemma ReachesByDrop(s: State, p: NodeId, name: string, t: State)
    requires Sane(s) && p < |s.ns| && t == State(WithoutEntry(s.ns, p, name), s.d, s.bytes)
    ensures Reaches(s, t)
  {
    hide WithoutEntry, Shape, Bytes, Runs;
    ReachesByOne(s, Drop(p, name), t);
  }

  lemma ReachesByMove(s: State, id: NodeId, np: NodeId, nn: string, h: nat, t: State)
    requires Sane(s) && 0 < id < |s.ns| && np < |s.ns| && s.ns[np].kind.Directory? && !Anc(s.ns, s.d, id, np)
    requires IsHeight(s.ns, s.d, id, h) && s.d[np] + 1 + h <= MAX_VFS_DEPTH
    requires t == State(Moved(s.ns, id, np, nn), MovedRank(s.ns, s.d, id, np), s.bytes)
    ensures Reaches(s, t)
  {
    hide Shape, Bytes, Runs, Anc, IsHeight, Moved, MovedRank;
    ReachesByOne(s, Move(id, np, nn, h), t);
  }

  /** So whatever is reached from a sane arena is sane. */
  lemma ReachedIsSane(s: State, t: State)
    requires Reaches(s, t)
    ensures Sane(t) && Invariants(t)
  {
    hide Sane, Invariants, Runs;
    var es :| Runs(s, es, t);
    RunKeepsInvariants(s, es, t);
  }
}
