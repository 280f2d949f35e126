/**
  What a recursive copy produces: the value of a subtree, the room it needs, and how the arena looks
  while and after a copy of it is built.
 */
module VfsCopy {
  import opened Wrappers
  import opened VfsTree
  import opened VfsEdits
  import opened VfsHeight

  datatype Owner = Owner(mode: nat, uid: nat, gid: nat)

  /** A subtree without node ids and modification times. */
  datatype Subtree =
    | Branch(owner: Owner, children: map<string, Subtree>)
    | Leaf(owner: Owner, kind: NodeKind)

  function OwnerOf(meta: Metadata): Owner {
    Owner(meta.mode, meta.uid, meta.gid)
  }

  /** The subtree reached from `i` through child maps. */
  ghost function SubtreeAt(ns: Arena, d: seq<nat>, i: NodeId): Subtree
    requires Tree(ns, d) && i < |ns|
    decreases |ns| - d[i]
  {
    ChainFitsArena(ns, d, i);
    if ns[i].kind.Directory? then
      Branch(OwnerOf(ns[i].meta), map n | n in Children(ns, i) ::
        assert Entry(ns, i, n, Children(ns, i)[n]);
        ChainFitsArena(ns, d, Children(ns, i)[n]);
        SubtreeAt(ns, d, Children(ns, i)[n]))
    else Leaf(OwnerOf(ns[i].meta), ns[i].kind)
  }

  // ---- Room ------------------------------------------------------------------------------------

  ghost function Size(t: Subtree): nat
    decreases t, 1, 0
  {
    if t.Branch? then 1 + SizeAll(t, t.children.Keys) else 1
  }

  ghost function SizeAll(t: Subtree, todo: set<string>): nat
    requires t.Branch? && todo <= t.children.Keys
    decreases t, 0, |todo|
  {
    if todo == {} then 0
    else
      var n :| n in todo;
      Size(t.children[n]) + SizeAll(t, todo - {n})
  }

  ghost function Volume(t: Subtree): nat
    decreases t, 1, 0
  {
    match t
    case Branch(_, children) => VolumeAll(t, children.Keys)
    case Leaf(_, kind) => if kind.File? then |kind.contents| else 0
  }

  ghost function VolumeAll(t: Subtree, todo: set<string>): nat
    requires t.Branch? && todo <= t.children.Keys
    decreases t, 0, |todo|
  {
    if todo == {} then 0
    else
      var n :| n in todo;
      Volume(t.children[n]) + VolumeAll(t, todo - {n})
  }

  /** The sums do not depend on the order in which the children are taken. */
  lemma {:induction false} TakeOne(t: Subtree, todo: set<string>, n: string)
    requires t.Branch? && n in todo && todo <= t.children.Keys
    ensures SizeAll(t, todo) == Size(t.children[n]) + SizeAll(t, todo - {n})
    ensures VolumeAll(t, todo) == Volume(t.children[n]) + VolumeAll(t, todo - {n})
    decreases |todo|
  {
    TakeOneSize(t, todo, n);
    TakeOneVolume(t, todo, n);
  }

  lemma {:induction false} TakeOneSize(t: Subtree, todo: set<string>, n: string)
    requires t.Branch? && n in todo && todo <= t.children.Keys
    ensures SizeAll(t, todo) == Size(t.children[n]) + SizeAll(t, todo - {n})
    decreases |todo|
  {
    var first :| first in todo && SizeAll(t, todo) == Size(t.children[first]) + SizeAll(t, todo - {first});
    if first != n {
      TakeOneSize(t, todo - {first}, n);
      TakeOneSize(t, todo - {n}, first);
      assert todo - {first} - {n} == todo - {n} - {first};
    }
  }

  lemma {:induction false} TakeOneVolume(t: Subtree, todo: set<string>, n: string)
    requires t.Branch? && n in todo && todo <= t.children.Keys
    ensures VolumeAll(t, todo) == Volume(t.children[n]) + VolumeAll(t, todo - {n})
    decreases |todo|
  {
    var first :| first in todo && VolumeAll(t, todo) == Volume(t.children[first]) + VolumeAll(t, todo - {first});
    if first != n {
      TakeOneVolume(t, todo - {first}, n);
      TakeOneVolume(t, todo - {n}, first);
      assert todo - {first} - {n} == todo - {n} - {first};
    }
  }

  ghost predicate HeightAtMost(t: Subtree, h: nat) {
    match t
    case Branch(_, children) => forall n :: n in children ==> h > 0 && HeightAtMost(children[n], h - 1)
    case Leaf(_, _) => true
  }

  const MAX_COPY_DEPTH: nat := 64

  /** Neither the node, byte, depth nor copy-depth cap gets in the way of copying `t`. */
  ghost predicate Fits(t: Subtree, nodes: nat, bytes: nat, at: nat, level: nat) {
    && nodes + Size(t) <= MAX_VFS_NODES
    && bytes + Volume(t) <= MAX_VFS_BYTES
    && at < MAX_VFS_DEPTH && HeightAtMost(t, MAX_VFS_DEPTH - at - 1)
    && level <= MAX_COPY_DEPTH && HeightAtMost(t, MAX_COPY_DEPTH - level)
  }

  /** The destination name is free, and the destination lies outside the source. */
  ghost predicate Copyable(ns: Arena, d: seq<nat>, bytes: nat, src: NodeId, dst: NodeId, name: string, level: nat)
    requires Tree(ns, d) && src < |ns| && dst < |ns|
  {
    && name !in Children(ns, dst)
    && !Anc(ns, d, src, dst)
    && Fits(SubtreeAt(ns, d, src), |ns|, bytes, d[dst], level)
  }

  /** A push has room for a copyable node. */
  lemma CopyableFits(ns: Arena, d: seq<nat>, bytes: nat, src: NodeId, dst: NodeId, name: string, level: nat)
    requires Tree(ns, d) && src < |ns| && dst < |ns| && Copyable(ns, d, bytes, src, dst, name, level)
    ensures src != dst && name !in Children(ns, dst) && |ns| < MAX_VFS_NODES && d[dst] < MAX_VFS_DEPTH
    ensures !ns[src].kind.Directory? ==> bytes + ContentLen(ns[src]) <= MAX_VFS_BYTES
  {
    SizePositive(SubtreeAt(ns, d, src));
  }

  // ---- Growth of the arena -------------------------------------------------------------------------

  /** Nodes were only appended, and of the old records only `p`'s may have changed. */
  ghost predicate Grows(ns: Arena, d: seq<nat>, ns': Arena, d': seq<nat>, p: NodeId) {
    && |ns| <= |ns'| && |d| == |ns| && |d'| == |ns'|
    && (forall i :: 0 <= i < |ns| && i != p ==> ns'[i] == ns[i])
    && (forall i :: 0 <= i < |ns| ==> d'[i] == d[i])
    && (p < |ns| ==> ns'[p].parent == ns[p].parent)
  }

  /** A subtree that does not contain the changed node keeps its value. */
  lemma {:induction false} SubtreeSurvives(ns: Arena, d: seq<nat>, ns': Arena, d': seq<nat>, p: NodeId, x: NodeId)
    requires Tree(ns, d) && Tree(ns', d') && p < |ns| && x < |ns| && Grows(ns, d, ns', d', p) && !Anc(ns, d, x, p)
    ensures SubtreeAt(ns', d', x) == SubtreeAt(ns, d, x)
    decreases |ns| - d[x]
  {
    assert ns'[x] == ns[x];
    if ns[x].kind.Directory? {
      forall n | n in Children(ns, x) ensures SubtreeAt(ns', d', Children(ns, x)[n]) == SubtreeAt(ns, d, Children(ns, x)[n]) {
        var c := Children(ns, x)[n];
        assert Entry(ns, x, n, c);
        ChainFitsArena(ns, d, c);
        ChildNotAbove(ns, d, x, c, p);
        SubtreeSurvives(ns, d, ns', d', p, c);
      }
      SubtreeBranch(ns, d, x);
      SubtreeBranch(ns', d', x);
    }
  }

  lemma SubtreeBranch(ns: Arena, d: seq<nat>, x: NodeId)
    requires Tree(ns, d) && x < |ns| && ns[x].kind.Directory?
    ensures forall n :: n in Children(ns, x) ==> Entry(ns, x, n, Children(ns, x)[n])
    ensures SubtreeAt(ns, d, x) ==
      Branch(OwnerOf(ns[x].meta), map n | n in Children(ns, x) :: SubtreeAt(ns, d, Children(ns, x)[n]))
  {
  }

  lemma {:induction false} ChildNotAbove(ns: Arena, d: seq<nat>, x: NodeId, c: NodeId, p: NodeId)
    requires Tree(ns, d) && x < |ns| && 0 < c < |ns| && p < |ns| && Parent(ns, c) == x && !Anc(ns, d, x, p)
    ensures !Anc(ns, d, c, p)
    decreases d[p]
  {
    if p == c {
      assert Anc(ns, d, x, x);
    } else if p != 0 {
      ChildNotAbove(ns, d, x, c, Parent(ns, p));
    }
  }

  /** Ancestors of an old node are the same old nodes after growth. */
  lemma {:induction false} AncSurvives(ns: Arena, d: seq<nat>, ns': Arena, d': seq<nat>, p: NodeId, a: NodeId, i: NodeId)
    requires Tree(ns, d) && Tree(ns', d') && p < |ns| && Grows(ns, d, ns', d', p) && a < |ns| && i < |ns|
    ensures Anc(ns', d', a, i) <==> Anc(ns, d, a, i)
    decreases d[i]
  {
    if i != a && i != 0 {
      AncSurvives(ns, d, ns', d', p, a, Parent(ns, i));
    }
  }

  /** The record of `p` with `c` listed, if it lists anything. */
  function Relisted(ns: Arena, p: NodeId, name: string, c: NodeId): Node
    requires p < |ns|
  {
    if ns[p].kind.Directory? then WithEntry(ns, p, name, c)[p] else ns[p]
  }

  /** The finished copy: one new entry at the destination, if that is a directory, new nodes for the rest, equal in
      value. */
  ghost predicate Copied(ns: Arena, d: seq<nat>, bytes: nat, src: NodeId, dst: NodeId, name: string,
                         ns': Arena, d': seq<nat>, bytes': nat, id: NodeId)
    requires Tree(ns, d) && src < |ns| && dst < |ns|
  {
    && Tree(ns', d') && Grows(ns, d, ns', d', dst)
    && id == |ns|
    && |ns'| == |ns| + Size(SubtreeAt(ns, d, src))
    && bytes' == bytes + Volume(SubtreeAt(ns, d, src))
    && ns'[dst] == Relisted(ns, dst, name, id)
    && id < |ns'| && ns'[id].name == name && ns'[id].parent == Some(dst)
    && SubtreeAt(ns', d', id) == SubtreeAt(ns, d, src)
  }

  lemma SizePositive(t: Subtree)
    ensures Size(t) > 0
  {
  }

  lemma LeafCopied(ns: Arena, d: seq<nat>, bytes: nat, src: NodeId, dst: NodeId, name: string, level: nat, meta: Metadata)
    requires Shape(ns, d) && src < |ns| && dst < |ns| && Copyable(ns, d, bytes, src, dst, name, level)
    requires !ns[src].kind.Directory? && OwnerOf(meta) == OwnerOf(ns[src].meta)
    ensures FreshKind(ns[src].kind, meta)
    ensures Copied(ns, d, bytes, src, dst, name,
                   Pushed(ns, dst, name, ns[src].kind, meta), d + [d[dst] + 1], bytes + ContentLen(ns[src]), |ns|)
  {
    var ns', d' := Pushed(ns, dst, name, ns[src].kind, meta), d + [d[dst] + 1];
    PushKeepsTree(ns, d, dst, name, ns[src].kind, meta);
    assert ns'[|ns|] == Node(name, Some(dst), ns[src].kind, meta);
    assert SubtreeAt(ns', d', |ns|) == SubtreeAt(ns, d, src) == Leaf(OwnerOf(meta), ns[src].kind);
  }

  // ---- Copying a directory -------------------------------------------------------------------------

  /** The names listed before position `k`. */
  ghost function Listed(es: seq<DirEntry>, k: nat): (names: set<string>)
    requires k <= |es|
  {
    if k == 0 then {} else Listed(es, k - 1) + {es[k - 1].name}
  }

  lemma {:induction false} ListedIs(es: seq<DirEntry>, k: nat)
    requires k <= |es|
    ensures forall n :: n in Listed(es, k) <==> exists j :: 0 <= j < k && es[j].name == n
  {
    if k > 0 {
      ListedIs(es, k - 1);
    }
  }

  lemma AllListed(ns: Arena, dir: NodeId, es: seq<DirEntry>)
    requires dir < |ns| && Lists(ns, dir, es)
    ensures Listed(es, |es|) == Children(ns, dir).Keys
  {
    ListedIs(es, |es|);
  }

  lemma NotYetListed(ns: Arena, dir: NodeId, es: seq<DirEntry>, k: nat)
    requires dir < |ns| && Lists(ns, dir, es) && k < |es|
    ensures es[k].name in Children(ns, dir) && es[k].id == Children(ns, dir)[es[k].name]
    ensures es[k].name !in Listed(es, k)
  {
    ListedIs(es, k);
  }

  /** The copy `made` of directory `src` when the children named in `done` have been copied. */
  ghost predicate Copying(ns: Arena, d: seq<nat>, bytes: nat, src: NodeId, dst: NodeId, name: string, level: nat,
                          ns': Arena, d': seq<nat>, bytes': nat, made: NodeId, done: set<string>)
    requires Tree(ns, d) && src < |ns| && dst < |ns|
  {
    && ns[src].kind.Directory? && Copyable(ns, d, bytes, src, dst, name, level)
    && done <= Children(ns, src).Keys
    && Tree(ns', d') && Grows(ns, d, ns', d', dst)
    && made == |ns| < |ns'|
    && ns'[dst] == Relisted(ns, dst, name, made)
    && ns'[made].name == name && ns'[made].parent == Some(dst) && ns'[made].kind.Directory?
    && OwnerOf(ns'[made].meta) == OwnerOf(ns[src].meta)
    && Children(ns', made).Keys == done
    && (forall n :: n in done ==> Twin(ns, d, src, ns', d', made, n))
    && |ns'| + SizeAll(SubtreeAt(ns, d, src), Children(ns, src).Keys - done) == |ns| + Size(SubtreeAt(ns, d, src))
    && bytes' + VolumeAll(SubtreeAt(ns, d, src), Children(ns, src).Keys - done) == bytes + Volume(SubtreeAt(ns, d, src))
  }

  /** Child `n` of the copy equals child `n` of the original. */
  ghost predicate Twin(ns: Arena, d: seq<nat>, src: NodeId, ns': Arena, d': seq<nat>, made: NodeId, n: string)
    requires Tree(ns, d) && src < |ns| && Tree(ns', d') && made < |ns'|
  {
    && n in Children(ns, src) && n in Children(ns', made)
    && Entry(ns, src, n, Children(ns, src)[n]) && Entry(ns', made, n, Children(ns', made)[n])
    && SubtreeAt(ns', d', Children(ns', made)[n]) == SubtreeAt(ns, d, Children(ns, src)[n])
  }

  lemma CopyStarts(ns: Arena, d: seq<nat>, bytes: nat, src: NodeId, dst: NodeId, name: string, level: nat, meta: Metadata)
    requires Shape(ns, d) && src < |ns| && dst < |ns| && Copyable(ns, d, bytes, src, dst, name, level)
    requires ns[src].kind.Directory? && OwnerOf(meta) == OwnerOf(ns[src].meta)
    ensures FreshKind(Directory(map[]), meta)
    ensures Copying(ns, d, bytes, src, dst, name, level,
                    Pushed(ns, dst, name, Directory(map[]), meta), d + [d[dst] + 1], bytes, |ns|, {})
  {
    PushKeepsTree(ns, d, dst, name, Directory(map[]), meta);
    var ns' := Pushed(ns, dst, name, Directory(map[]), meta);
    assert ns'[|ns|] == Node(name, Some(dst), Directory(map[]), meta);
    SubtreeBranch(ns, d, src);
    assert SubtreeAt(ns, d, src).children.Keys == Children(ns, src).Keys;
    assert Children(ns, src).Keys - {} == Children(ns, src).Keys;
  }

  lemma ListedEntry(ns: Arena, d: seq<nat>, dir: NodeId, es: seq<DirEntry>, k: nat)
    requires Shape(ns, d) && dir < |ns| && Lists(ns, dir, es) && k < |es|
    ensures Entry(ns, dir, es[k].name, es[k].id) && es[k].id < |ns|
  {
  }

  /** The next child can be copied into the growing copy. */
  lemma NextIsCopyable(ns: Arena, d: seq<nat>, bytes: nat, src: NodeId, dst: NodeId, name: string, level: nat,
                       ns': Arena, d': seq<nat>, bytes': nat, made: NodeId, done: set<string>, n: string)
    requires Tree(ns, d) && src < |ns| && dst < |ns|
    requires Copying(ns, d, bytes, src, dst, name, level, ns', d', bytes', made, done)
    requires n in Children(ns, src) && n !in done
    ensures Entry(ns, src, n, Children(ns, src)[n])
    ensures Copyable(ns', d', bytes', Children(ns, src)[n], made, n, level + 1)
    ensures SubtreeAt(ns', d', Children(ns, src)[n]) == SubtreeAt(ns, d, Children(ns, src)[n])
  {
    var c := Children(ns, src)[n];
    SubtreeBranch(ns, d, src);
    ChildNotAbove(ns, d, src, c, dst);
    SubtreeSurvives(ns, d, ns', d', dst, c);
    AncSurvives(ns, d, ns', d', dst, c, dst);
    TakeOne(SubtreeAt(ns, d, src), Children(ns, src).Keys - done, n);
    assert HeightAtMost(SubtreeAt(ns, d, src).children[n], MAX_VFS_DEPTH - d[dst] - 2);
    assert HeightAtMost(SubtreeAt(ns, d, src).children[n], MAX_COPY_DEPTH - level - 1);
  }

  /** Copying it extends the growing copy by that child. */
  lemma CopyAdvances(ns: Arena, d: seq<nat>, bytes: nat, src: NodeId, dst: NodeId, name: string, level: nat,
                     ns': Arena, d': seq<nat>, bytes': nat, made: NodeId, done: set<string>, n: string,
                     ns2: Arena, d2: seq<nat>, bytes2: nat, id: NodeId)
    requires Tree(ns, d) && src < |ns| && dst < |ns|
    requires Copying(ns, d, bytes, src, dst, name, level, ns', d', bytes', made, done)
    requires n in Children(ns, src) && n !in done && Children(ns, src)[n] < |ns|
    requires Copied(ns', d', bytes', Children(ns, src)[n], made, n, ns2, d2, bytes2, id)
    ensures Copying(ns, d, bytes, src, dst, name, level, ns2, d2, bytes2, made, done + {n})
  {
    var c := Children(ns, src)[n];
    NextIsCopyable(ns, d, bytes, src, dst, name, level, ns', d', bytes', made, done, n);
    TakeOne(SubtreeAt(ns, d, src), Children(ns, src).Keys - done, n);
    SubtreeBranch(ns, d, src);
    assert Children(ns, src).Keys - done - {n} == Children(ns, src).Keys - (done + {n});
    forall m | m in done + {n} ensures Twin(ns, d, src, ns2, d2, made, m) {
      if m in done {
        assert Twin(ns, d, src, ns', d', made, m);
        TwinSurvives(ns', d', ns2, d2, made, m);
      } else {
        assert Entry(ns2, made, n, Children(ns2, made)[n]);
      }
    }
  }

  lemma TwinSurvives(ns: Arena, d: seq<nat>, ns': Arena, d': seq<nat>, p: NodeId, m: string)
    requires Tree(ns, d) && Tree(ns', d') && p < |ns| && Grows(ns, d, ns', d', p)
    requires m in Children(ns, p) && m in Children(ns', p) && Children(ns', p)[m] == Children(ns, p)[m]
    ensures Entry(ns, p, m, Children(ns, p)[m]) && Entry(ns', p, m, Children(ns, p)[m])
    ensures SubtreeAt(ns', d', Children(ns, p)[m]) == SubtreeAt(ns, d, Children(ns, p)[m])
  {
    var c := Children(ns, p)[m];
    assert Entry(ns, p, m, c) && Entry(ns', p, m, c);
    if Anc(ns, d, c, p) {
      AncRank(ns, d, c, p);
    }
    SubtreeSurvives(ns, d, ns', d', p, c);
  }

  /** With every child copied, the copy is complete. */
  lemma CopyEnds(ns: Arena, d: seq<nat>, bytes: nat, src: NodeId, dst: NodeId, name: string, level: nat,
                 ns': Arena, d': seq<nat>, bytes': nat, made: NodeId)
    requires Tree(ns, d) && src < |ns| && dst < |ns|
    requires Copying(ns, d, bytes, src, dst, name, level, ns', d', bytes', made, Children(ns, src).Keys)
    ensures Copied(ns, d, bytes, src, dst, name, ns', d', bytes', made)
  {
    SubtreeBranch(ns, d, src);
    SubtreeBranch(ns', d', made);
    assert Children(ns, src).Keys - Children(ns, src).Keys == {};
    forall n | n in Children(ns, src) ensures Twin(ns, d, src, ns', d', made, n) {
    }
    assert SubtreeAt(ns', d', made).children == SubtreeAt(ns, d, src).children;
  }
}
