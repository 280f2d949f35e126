/**
  What a recursive copy does when its name is taken: where it may reach at all, whatever the caps do, and the
  value it leaves when they do not get in the way.
 */
module VfsMerge {
  import opened Wrappers
  import opened VfsTree
  import opened VfsEdits
  import opened VfsHeight
  import opened VfsCopy
  import opened VfsRuns

  // ---- Merging values ---------------------------------------------------------------------------

  /** `t` copied to where `u` is: a file or symlink takes the place, a directory goes into a directory entry by
      entry and keeps what is there under other names, and a directory makes no difference to a file. */
  ghost function Merged(t: Subtree, u: Option<Subtree>): Subtree
    decreases t
  {
    match u
    case None => t
    case Some(was) =>
      if t.Leaf? then t
      else if was.Leaf? then was
      else
        Branch(was.owner, map n | n in t.children.Keys + was.children.Keys ::
          if n in t.children then Merged(t.children[n], Lookup(was.children, n)) else was.children[n])
  }

  function Lookup(children: map<string, Subtree>, n: string): Option<Subtree> {
    if n in children then Some(children[n]) else None
  }

  /** A file or symlink always gives way; a directory gives way to a directory with the same owner and mode that
      has all its names, and does so below each of them. */
  ghost predicate Yields(t: Subtree, u: Option<Subtree>)
    decreases t
  {
    u.None? || t.Leaf? ||
    (u.value.Branch? && u.value.owner == t.owner && u.value.children.Keys <= t.children.Keys &&
     forall n :: n in t.children ==> Yields(t.children[n], Lookup(u.value.children, n)))
  }

  /** The merge is the source exactly when what is there yields. */
  lemma {:induction false} MergedIsSourceIff(t: Subtree, u: Option<Subtree>)
    ensures Merged(t, u) == t <==> Yields(t, u)
    decreases t
  {
    if u.Some? && t.Branch? && u.value.Branch? {
      var was, m := u.value, Merged(t, u);
      forall n | n in t.children
        ensures m.children[n] == Merged(t.children[n], Lookup(was.children, n))
        ensures m.children[n] == t.children[n] <==> Yields(t.children[n], Lookup(was.children, n))
      {
        MergedIsSourceIff(t.children[n], Lookup(was.children, n));
      }
      if Yields(t, u) {
        assert t.children.Keys + was.children.Keys == t.children.Keys;
        assert m.children == t.children;
      }
      if m == t {
        assert m.children.Keys == t.children.Keys + was.children.Keys;
      }
    }
  }

  // ---- Where a copy may reach -------------------------------------------------------------------

  ghost predicate Treed(s: State) {
    Tree(s.ns, s.d)
  }

  ghost predicate FullAt(s: State, p: NodeId)
    requires p < |s.d|
  {
    |s.ns| >= MAX_VFS_NODES || s.d[p] >= MAX_VFS_DEPTH
  }

  ghost predicate SamePlace(s: State, t: State, i: NodeId)
    requires i < |s.ns| == |s.d| && i < |t.ns| == |t.d|
  {
    t.d[i] == s.d[i] && t.ns[i].parent == s.ns[i].parent && t.ns[i].name == s.ns[i].name
  }

  /** The record may differ in its child map only. */
  ghost predicate SameButChildren(s: State, t: State, i: NodeId)
    requires i < |s.ns| && i < |t.ns|
  {
    && t.ns[i].meta == s.ns[i].meta
    && (t.ns[i].kind == s.ns[i].kind || (t.ns[i].kind.Directory? && s.ns[i].kind.Directory?))
  }

  /** No node is moved or renamed, none is listed that was not, only what child maps reach from `p` changes at
      all, `p` itself in nothing but its child map, and new nodes are below `p`. */
  ghost predicate Confined(s: State, t: State, p: NodeId)
    requires Treed(s) && Treed(t) && p < |s.ns|
  {
    && |s.ns| <= |t.ns|
    && (forall i :: 0 <= i < |s.ns| ==> SamePlace(s, t, i))
    && (forall i :: 0 <= i < |s.ns| && !Below(s.ns, s.d, p, i) ==> t.ns[i] == s.ns[i])
    && SameButChildren(s, t, p)
    && (forall i :: 0 < i < |s.ns| && IsChild(t.ns, i) ==> IsChild(s.ns, i))
    && (forall j :: |s.ns| <= j < |t.ns| ==> Anc(t.ns, t.d, p, j))
  }

  /** `i` is what `p` lists under `name`, or below it. */
  ghost predicate UnderEntry(s: State, p: NodeId, name: string, i: NodeId)
    requires Treed(s) && p < |s.ns| && i < |s.ns|
  {
    name in Children(s.ns, p) && Entry(s.ns, p, name, Children(s.ns, p)[name]) && Below(s.ns, s.d, Children(s.ns, p)[name], i)
  }

  /** Of the old nodes only `p` changes, in its entry `name`, and what was under that entry. */
  ghost predicate AtEntry(s: State, t: State, p: NodeId, name: string)
    requires Treed(s) && Treed(t) && p < |s.ns| <= |t.ns|
  {
    && Children(t.ns, p) - {name} == Children(s.ns, p) - {name}
    && forall i :: 0 <= i < |s.ns| && i != p && !UnderEntry(s, p, name, i) ==> t.ns[i] == s.ns[i]
  }

  /** Whatever is copied to `name` below `p`: the copy stays below `p`; it stays at that entry unless the name was
      free and `p` was full; and a full directory gets no new name. */
  ghost predicate Contained(s: State, t: State, p: NodeId, name: string)
    requires Treed(s) && Treed(t) && p < |s.ns|
  {
    && Confined(s, t, p)
    && (AtEntry(s, t, p, name) || (FullAt(s, p) && name !in Children(s.ns, p)))
    && (FullAt(s, p) ==> Children(t.ns, p).Keys <= Children(s.ns, p).Keys)
  }

  // ---- Confinement composes ---------------------------------------------------------------------

  lemma NothingHappens(s: State, t: State, p: NodeId, name: string)
    requires Treed(s) && p < |s.ns| && t.ns == s.ns && t.d == s.d
    ensures Confined(s, t, p) && Contained(s, t, p, name)
  {
  }

  /** What is reached afterwards was reached before. */
  lemma BelowBack(s: State, t: State, p: NodeId, a: NodeId, i: NodeId)
    requires Treed(s) && Treed(t) && p < |s.ns| && Confined(s, t, p) && a < |s.ns| && i < |s.ns|
    ensures Below(t.ns, t.d, a, i) ==> Below(s.ns, s.d, a, i)
  {
    if Below(t.ns, t.d, a, i) {
      forall j | 0 < j < |s.ns| ensures t.ns[j].parent == s.ns[j].parent {
        assert SamePlace(s, t, j);
      }
      BelowMono(s.ns, s.d, t.ns, t.d, a, i);
    }
  }

  /** The ancestors of an old node are what they were. */
  lemma {:induction false} AncSame(s: State, t: State, a: NodeId, i: NodeId)
    requires Treed(s) && Treed(t) && |s.ns| <= |t.ns| && a < |t.ns| && i < |s.ns|
    requires forall j :: 0 <= j < |s.ns| ==> SamePlace(s, t, j)
    ensures Anc(t.ns, t.d, a, i) <==> a < |s.ns| && Anc(s.ns, s.d, a, i)
    decreases s.d[i]
  {
    assert SamePlace(s, t, i);
    if i != a && i != 0 {
      AncSame(s, t, a, Parent(s.ns, i));
    }
  }

  /** Two nodes above a third are above one another. */
  lemma {:induction false} AncComparable(ns: Arena, d: seq<nat>, a: NodeId, b: NodeId, i: NodeId)
    requires Tree(ns, d) && a < |ns| && b < |ns| && i < |ns|
    requires Anc(ns, d, a, i) && Anc(ns, d, b, i) && d[a] <= d[b]
    ensures Anc(ns, d, a, b)
    decreases d[i]
  {
    if i != b {
      if i == a {
        AncRank(ns, d, b, a);
      } else {
        AncComparable(ns, d, a, b, Parent(ns, i));
      }
    }
  }

  lemma ConfinedTrans(s: State, t: State, u: State, p: NodeId)
    requires Treed(s) && Treed(t) && Treed(u) && p < |s.ns| && Confined(s, t, p) && Confined(t, u, p)
    ensures Confined(s, u, p)
  {
    hide Below, Anc, IsChild;
    forall i | 0 <= i < |s.ns| ensures SamePlace(s, u, i) {
      assert SamePlace(s, t, i) && SamePlace(t, u, i);
    }
    forall i | 0 <= i < |s.ns| && !Below(s.ns, s.d, p, i) ensures u.ns[i] == s.ns[i] {
      BelowBack(s, t, p, p, i);
    }
    forall j | |s.ns| <= j < |u.ns| ensures Anc(u.ns, u.d, p, j) {
      if j < |t.ns| {
        AncSame(t, u, p, j);
      }
    }
  }

  /** What is confined to below `q` is confined to below anything that reaches `q`. */
  lemma ConfinedUp(s: State, t: State, q: NodeId, p: NodeId)
    requires Treed(s) && Treed(t) && p < |s.ns| && q < |s.ns| && Confined(s, t, q) && Below(s.ns, s.d, p, q)
    ensures Confined(s, t, p)
  {
    BelowIsAnc(s.ns, s.d, p, q);
    AncSame(s, t, p, q);
    if p != q {
      AncRank(s.ns, s.d, p, q);
      if Below(s.ns, s.d, q, p) {
        BelowIsAnc(s.ns, s.d, q, p);
        AncRank(s.ns, s.d, q, p);
      }
    }
    hide Tree, Below, Anc, IsChild, WellLinked;
    forall i | 0 <= i < |s.ns| && !Below(s.ns, s.d, p, i) ensures t.ns[i] == s.ns[i] {
      if Below(s.ns, s.d, q, i) {
        BelowTrans(s.ns, s.d, p, q, i);
      }
    }
    forall j | |s.ns| <= j < |t.ns| ensures Anc(t.ns, t.d, p, j) {
      AncTrans(t.ns, t.d, p, q, j);
    }
  }

  /** An old node is not below a new one. */
  lemma OldNotBelowNew(s: State, t: State, a: NodeId, i: NodeId)
    requires Treed(s) && Treed(t) && |s.ns| <= a < |t.ns| && i < |s.ns|
    requires forall j :: 0 <= j < |s.ns| ==> SamePlace(s, t, j)
    ensures !Below(t.ns, t.d, a, i)
  {
    if Below(t.ns, t.d, a, i) {
      BelowIsAnc(t.ns, t.d, a, i);
      AncSame(s, t, a, i);
    }
  }

  // ---- The single edits -------------------------------------------------------------------------

  lemma PushIsConfined(s: State, p: NodeId, name: string, kind: NodeKind, meta: Metadata, t: State)
    requires Treed(s) && p < |s.ns| && FreshKind(kind, meta)
    requires t.ns == Pushed(s.ns, p, name, kind, meta) && t.d == s.d + [s.d[p] + 1]
    ensures Treed(t) && Confined(s, t, p)
    ensures Children(t.ns, p) == if s.ns[p].kind.Directory? then Children(s.ns, p)[name := |s.ns|] else map[]
    ensures AtEntry(s, t, p, name)
  {
    hide Anc, Below;
    PushKeepsTree(s.ns, s.d, p, name, kind, meta);
    forall j | 0 < j < |s.ns| && IsChild(t.ns, j) ensures IsChild(s.ns, j) {
      PushedEdges(s.ns, s.d, p, name, kind, meta, j);
    }
    assert Children(t.ns, p) - {name} == Children(s.ns, p) - {name};
    IsOwnAncestor(s, p);
    ChildHasAncestor(t, p, |s.ns|);
  }

  lemma IsOwnAncestor(s: State, p: NodeId)
    requires Treed(s) && p < |s.ns|
    ensures Below(s.ns, s.d, p, p)
  {
  }

  lemma ChildHasAncestor(t: State, p: NodeId, c: NodeId)
    requires Treed(t) && p < |t.ns| && 0 < c < |t.ns| && t.ns[c].parent == Some(p)
    ensures Anc(t.ns, t.d, p, c)
  {
    assert Anc(t.ns, t.d, p, p);
  }

  /** Overwriting what `p` lists under `name` by a file. */
  lemma OverwriteIsConfined(s: State, p: NodeId, name: string, kind: NodeKind, meta: Metadata, t: State)
    requires Treed(s) && Treed(t) && p < |s.ns| && name in Children(s.ns, p) && !kind.Directory?
    requires Children(s.ns, p)[name] < |s.ns| && t.ns == Replaced(s.ns, Children(s.ns, p)[name], kind, meta) && t.d == s.d
    ensures Confined(s, t, p) && AtEntry(s, t, p, name) && Children(t.ns, p) == Children(s.ns, p)
  {
    var c := Children(s.ns, p)[name];
    assert Entry(s.ns, p, name, c);
    assert c != p by {
      assert s.d[c] == s.d[p] + 1;
    }
    assert Below(s.ns, s.d, p, c);
  }

  lemma DropIsConfined(s: State, p: NodeId, name: string, t: State)
    requires Treed(s) && Treed(t) && p < |s.ns| && t.ns == WithoutEntry(s.ns, p, name) && t.d == s.d
    ensures Confined(s, t, p) && AtEntry(s, t, p, name) && Children(t.ns, p) == Children(s.ns, p) - {name}
  {
    NothingThere(s.ns, p, name);
  }

  lemma NothingThere(ns: Arena, p: NodeId, name: string)
    requires p < |ns|
    ensures Children(WithoutEntry(ns, p, name), p) == Children(ns, p) - {name}
  {
  }

  // ---- Files and symlinks -----------------------------------------------------------------------

  /** `p` lists `name`, and what it lists has the value `v`. */
  ghost predicate Arrived(t: State, p: NodeId, name: string, v: Subtree)
    requires Treed(t) && p < |t.ns|
  {
    && name in Children(t.ns, p)
    && Entry(t.ns, p, name, Children(t.ns, p)[name])
    && SubtreeAt(t.ns, t.d, Children(t.ns, p)[name]) == v
  }

  /** The bytes that overwriting what `p` lists under `name` gives back. */
  ghost function GivenBack(s: State, p: NodeId, name: string): nat
    requires Treed(s) && p < |s.ns|
  {
    if name in Children(s.ns, p) then
      assert Entry(s.ns, p, name, Children(s.ns, p)[name]);
      ContentLen(s.ns[Children(s.ns, p)[name]])
    else 0
  }

  /** The caps let something that is no directory take the name: a file overwrites what has the name if its bytes
      fit, a generated file always does, and a symlink, which is pushed after the old entry has gone, needs room
      for a node whether the name is taken or not. */
  ghost predicate LeafFits(s: State, src: NodeId, p: NodeId, name: string)
    requires Treed(s) && src < |s.ns| && p < |s.ns|
  {
    s.ns[p].kind.Directory? &&
    match s.ns[src].kind
    case File(contents) =>
      && s.bytes - GivenBack(s, p, name) + |contents| <= MAX_VFS_BYTES
      && (name in Children(s.ns, p) || !FullAt(s, p))
    case DynamicFile(_) => name in Children(s.ns, p) || !FullAt(s, p)
    case Symlink(_) => !FullAt(s, p)
    case Directory(_) => false
  }

  lemma LeafOverwrites(s: State, src: NodeId, p: NodeId, name: string, meta: Metadata, t: State)
    requires Treed(s) && Treed(t) && src < |s.ns| && p < |s.ns| && name in Children(s.ns, p) && !s.ns[src].kind.Directory?
    requires Children(s.ns, p)[name] < |s.ns| && t.ns == Replaced(s.ns, Children(s.ns, p)[name], s.ns[src].kind, meta) && t.d == s.d
    requires OwnerOf(meta) == OwnerOf(s.ns[src].meta)
    ensures Contained(s, t, p, name) && Arrived(t, p, name, SubtreeAt(s.ns, s.d, src))
  {
    OverwriteIsConfined(s, p, name, s.ns[src].kind, meta, t);
    assert Entry(t.ns, p, name, Children(t.ns, p)[name]);
  }

  lemma LeafIsPushed(s: State, src: NodeId, p: NodeId, name: string, meta: Metadata, t: State)
    requires Treed(s) && src < |s.ns| && p < |s.ns| && name !in Children(s.ns, p) && !s.ns[src].kind.Directory?
    requires FreshKind(s.ns[src].kind, meta) && !FullAt(s, p) && OwnerOf(meta) == OwnerOf(s.ns[src].meta)
    requires t.ns == Pushed(s.ns, p, name, s.ns[src].kind, meta) && t.d == s.d + [s.d[p] + 1]
    ensures Treed(t) && Contained(s, t, p, name)
    ensures Arrived(t, p, name, SubtreeAt(s.ns, s.d, src)) <==> s.ns[p].kind.Directory?
  {
    PushIsConfined(s, p, name, s.ns[src].kind, meta, t);
    assert t.ns[|s.ns|] == Node(name, Some(p), s.ns[src].kind, meta);
    assert SubtreeAt(t.ns, t.d, |s.ns|) == SubtreeAt(s.ns, s.d, src);
  }

  /** A file refused for its bytes is longer than the one it would overwrite, so that one is not equal to it. */
  lemma LeafIsRefused(s: State, src: NodeId, p: NodeId, name: string, t: State)
    requires Treed(s) && src < |s.ns| && p < |s.ns| && !s.ns[src].kind.Directory? && t.ns == s.ns && t.d == s.d
    requires name !in Children(s.ns, p) || (s.ns[src].kind.File? && |s.ns[src].kind.contents| > GivenBack(s, p, name))
    ensures Contained(s, t, p, name) && !Arrived(t, p, name, SubtreeAt(s.ns, s.d, src))
  {
    NothingHappens(s, t, p, name);
    if name in Children(s.ns, p) {
      assert Entry(s.ns, p, name, Children(s.ns, p)[name]);
    }
  }

  /** A symlink: the entry goes, and `t` is what is left, or has the symlink pushed. */
  lemma LinkLands(s: State, src: NodeId, p: NodeId, name: string, meta: Metadata, m: State, t: State)
    requires Treed(s) && Treed(m) && src < |s.ns| && p < |s.ns| && s.ns[src].kind.Symlink?
    requires FreshKind(s.ns[src].kind, meta) && OwnerOf(meta) == OwnerOf(s.ns[src].meta)
    requires m.ns == WithoutEntry(s.ns, p, name) && m.d == s.d
    requires if FullAt(s, p) then t.ns == m.ns && t.d == m.d
             else t.ns == Pushed(m.ns, p, name, s.ns[src].kind, meta) && t.d == m.d + [m.d[p] + 1]
    ensures Treed(t) && Contained(s, t, p, name)
    ensures Arrived(t, p, name, SubtreeAt(s.ns, s.d, src)) <==> s.ns[p].kind.Directory? && !FullAt(s, p)
    ensures FullAt(s, p) ==> name !in Children(t.ns, p)
  {
    DropIsConfined(s, p, name, m);
    if !FullAt(s, p) {
      LinkIsPushed(s, src, p, name, meta, m, t);
    }
  }

  lemma LinkIsPushed(s: State, src: NodeId, p: NodeId, name: string, meta: Metadata, m: State, t: State)
    requires Treed(s) && Treed(m) && src < |s.ns| && p < |s.ns| && s.ns[src].kind.Symlink? && !FullAt(s, p)
    requires FreshKind(s.ns[src].kind, meta) && OwnerOf(meta) == OwnerOf(s.ns[src].meta)
    requires m.ns == WithoutEntry(s.ns, p, name) && m.d == s.d
    requires t.ns == Pushed(m.ns, p, name, s.ns[src].kind, meta) && t.d == m.d + [m.d[p] + 1]
    ensures Treed(t) && Contained(s, t, p, name)
    ensures Arrived(t, p, name, SubtreeAt(s.ns, s.d, src)) <==> s.ns[p].kind.Directory?
  {
    hide Below;
    DropIsConfined(s, p, name, m);
    PushIsConfined(m, p, name, s.ns[src].kind, meta, t);
    ConfinedTrans(s, m, t, p);
    assert t.ns[|s.ns|] == Node(name, Some(p), s.ns[src].kind, meta);
    assert SubtreeAt(t.ns, t.d, |s.ns|) == SubtreeAt(s.ns, s.d, src);
    assert AtEntry(s, t, p, name);
  }

  // ---- The children of a directory, one after another ---------------------------------------------

  /** What `p` listed under other names it still lists. */
  ghost predicate Kept(s: State, t: State, p: NodeId, names: set<string>)
    requires p < |s.ns| && p < |t.ns|
  {
    forall m :: m in Children(s.ns, p) && m !in names ==> m in Children(t.ns, p) && Children(t.ns, p)[m] == Children(s.ns, p)[m]
  }

  /** One of the names found no room. */
  ghost predicate Lost(t: State, p: NodeId, names: set<string>)
    requires p < |t.ns| == |t.d|
  {
    FullAt(t, p) && exists a :: a in names && a !in Children(t.ns, p)
  }

  /** Things under `names` have been copied into `p`. */
  ghost predicate Spread(s: State, t: State, p: NodeId, names: set<string>)
    requires Treed(s) && Treed(t) && p < |s.ns|
  {
    && Confined(s, t, p)
    && (FullAt(s, p) ==> Children(t.ns, p).Keys <= Children(s.ns, p).Keys)
    && (Kept(s, t, p, names) || Lost(t, p, names))
  }

  lemma SpreadStarts(s: State, p: NodeId, names: set<string>)
    requires Treed(s) && p < |s.ns|
    ensures Spread(s, s, p, names)
  {
    NothingHappens(s, s, p, "");
  }

  lemma SpreadStep(s: State, t: State, u: State, p: NodeId, names: set<string>, n: string)
    requires Treed(s) && Treed(t) && Treed(u) && p < |s.ns| && n in names
    requires Spread(s, t, p, names) && p < |t.ns| && Contained(t, u, p, n)
    ensures Spread(s, u, p, names)
  {
    hide Confined;
    ConfinedKeeps(s, t, p);
    ConfinedKeeps(t, u, p);
    ConfinedTrans(s, t, u, p);
    if Lost(t, p, names) {
      var a :| a in names && a !in Children(t.ns, p);
      assert a !in Children(u.ns, p);
    } else if AtEntry(t, u, p, n) {
      forall m | m in Children(s.ns, p) && m !in names
        ensures m in Children(u.ns, p) && Children(u.ns, p)[m] == Children(s.ns, p)[m]
      {
        assert m in Children(t.ns, p) - {n};
        assert (Children(u.ns, p) - {n})[m] == (Children(t.ns, p) - {n})[m];
      }
    }
  }

  lemma ConfinedKeeps(s: State, t: State, p: NodeId)
    requires Treed(s) && Treed(t) && p < |s.ns| && Confined(s, t, p)
    ensures |s.ns| <= |t.ns| && (FullAt(s, p) ==> FullAt(t, p)) && (t.ns[p].kind.Directory? <==> s.ns[p].kind.Directory?)
    ensures p < |s.d| == |s.ns| && p < |t.d| == |t.ns| && t.d[p] == s.d[p]
  {
    assert SamePlace(s, t, p);
  }

  /** The name was taken: what has it is where everything went. */
  lemma SpreadOverTaken(s: State, t: State, p: NodeId, name: string)
    requires Treed(s) && Treed(t) && p < |s.ns| && name in Children(s.ns, p) && Children(s.ns, p)[name] < |s.ns|
    requires Confined(s, t, Children(s.ns, p)[name])
    ensures t.ns[p] == s.ns[p] && Contained(s, t, p, name)
  {
    var c := Children(s.ns, p)[name];
    EntryIsBelow(s, p, name);
    ConfinedUp(s, t, c, p);
  }

  lemma EntryIsBelow(s: State, p: NodeId, name: string)
    requires Treed(s) && p < |s.ns| && name in Children(s.ns, p)
    ensures var c := Children(s.ns, p)[name];
      && Entry(s.ns, p, name, c) && c > 0 && s.d[c] == s.d[p] + 1 && Below(s.ns, s.d, p, c) && !Below(s.ns, s.d, c, p)
  {
    var c := Children(s.ns, p)[name];
    assert Entry(s.ns, p, name, c);
    assert Below(s.ns, s.d, p, p);
    if Below(s.ns, s.d, c, p) {
      BelowIsAnc(s.ns, s.d, c, p);
      AncRank(s.ns, s.d, c, p);
    }
  }

  /** The directory was made, and everything went there. */
  lemma SpreadOverMade(s: State, m: State, t: State, p: NodeId, name: string, meta: Metadata)
    requires Treed(s) && Treed(t) && p < |s.ns| && name !in Children(s.ns, p) && !FullAt(s, p) && FreshKind(Directory(map[]), meta)
    requires m.ns == Pushed(s.ns, p, name, Directory(map[]), meta) && m.d == s.d + [s.d[p] + 1]
    requires Treed(m) && |m.ns| == |s.ns| + 1 && m.ns[|s.ns|].parent == Some(p) && Confined(m, t, |s.ns|)
    ensures Contained(s, t, p, name)
  {
    hide Below, Pushed;
    var made := |s.ns|;
    PushIsConfined(s, p, name, Directory(map[]), meta, m);
    forall i | 0 <= i < |s.ns| ensures t.ns[i] == m.ns[i] && SamePlace(s, t, i) {
      OldNotBelowNew(s, m, made, i);
      assert SamePlace(s, m, i) && SamePlace(m, t, i);
    }
    MadeIsAbove(s, m, t, p);
  }

  lemma MadeIsAbove(s: State, m: State, t: State, p: NodeId)
    requires Treed(s) && Treed(m) && Treed(t) && p < |s.ns| && |m.ns| == |s.ns| + 1 && m.ns[|s.ns|].parent == Some(p)
    requires Confined(m, t, |s.ns|)
    ensures forall j :: |s.ns| <= j < |t.ns| ==> Anc(t.ns, t.d, p, j)
  {
    hide Below;
    var made := |s.ns|;
    assert SamePlace(m, t, made) && Parent(t.ns, made) == p;
    forall j | |s.ns| <= j < |t.ns| ensures Anc(t.ns, t.d, p, j) {
      assert Anc(t.ns, t.d, p, p) && Anc(t.ns, t.d, p, made);
      if j > made {
        AncTrans(t.ns, t.d, p, made, j);
      }
    }
  }

  /** There was no room for the directory, so everything went into `p` itself. */
  lemma SpreadOverRefused(s: State, t: State, p: NodeId, name: string, names: set<string>)
    requires Treed(s) && Treed(t) && p < |s.ns| && name !in Children(s.ns, p) && FullAt(s, p) && Spread(s, t, p, names)
    ensures Contained(s, t, p, name)
  {
  }

  // ---- Merging ------------------------------------------------------------------------------------

  ghost function ValueAt(s: State, p: NodeId, n: string): Option<Subtree>
    requires Treed(s) && p < |s.ns|
  {
    if n in Children(s.ns, p) then
      assert Entry(s.ns, p, n, Children(s.ns, p)[n]);
      Some(SubtreeAt(s.ns, s.d, Children(s.ns, p)[n]))
    else None
  }

  /** The name is taken, neither the source nor what has the name is inside the other, and no cap can get in the
      way. */
  ghost predicate Mergeable(s: State, src: NodeId, p: NodeId, name: string, level: nat)
    requires Treed(s) && src < |s.ns| && p < |s.ns|
  {
    && name in Children(s.ns, p)
    && Entry(s.ns, p, name, Children(s.ns, p)[name])
    && !Anc(s.ns, s.d, src, p) && !Anc(s.ns, s.d, Children(s.ns, p)[name], src)
    && Fits(SubtreeAt(s.ns, s.d, src), |s.ns|, s.bytes, s.d[p], level)
  }

  /** What has the name is the merge of the source with what had it. */
  ghost predicate MergeDone(s: State, t: State, src: NodeId, p: NodeId, name: string)
    requires Treed(s) && Treed(t) && src < |s.ns| && p < |s.ns| <= |t.ns|
  {
    && Arrived(t, p, name, Merged(SubtreeAt(s.ns, s.d, src), ValueAt(s, p, name)))
    && |t.ns| <= |s.ns| + Size(SubtreeAt(s.ns, s.d, src))
    && t.bytes <= s.bytes + Volume(SubtreeAt(s.ns, s.d, src))
  }

  /** A file or symlink that fits is its own merge. */
  lemma LeafMerges(s: State, src: NodeId, p: NodeId, name: string, level: nat)
    requires Treed(s) && src < |s.ns| && p < |s.ns| && !s.ns[src].kind.Directory? && Mergeable(s, src, p, name, level)
    ensures LeafFits(s, src, p, name)
    ensures Merged(SubtreeAt(s.ns, s.d, src), ValueAt(s, p, name)) == SubtreeAt(s.ns, s.d, src)
    ensures Size(SubtreeAt(s.ns, s.d, src)) == 1 && Volume(SubtreeAt(s.ns, s.d, src)) == ContentLen(s.ns[src])
  {
  }

  /** A subtree none of whose nodes changes keeps its value. */
  lemma {:induction false} SubtreeKept(s: State, t: State, x: NodeId)
    requires Treed(s) && Treed(t) && x < |s.ns| <= |t.ns|
    requires forall i :: 0 <= i < |s.ns| && Below(s.ns, s.d, x, i) ==> t.ns[i] == s.ns[i]
    ensures SubtreeAt(t.ns, t.d, x) == SubtreeAt(s.ns, s.d, x)
    decreases |s.ns| - s.d[x]
  {
    assert Below(s.ns, s.d, x, x);
    if s.ns[x].kind.Directory? {
      forall n | n in Children(s.ns, x)
        ensures SubtreeAt(t.ns, t.d, Children(s.ns, x)[n]) == SubtreeAt(s.ns, s.d, Children(s.ns, x)[n])
      {
        var c := Children(s.ns, x)[n];
        EntryIsBelow(s, x, n);
        ChainFitsArena(s.ns, s.d, c);
        forall i | 0 <= i < |s.ns| && Below(s.ns, s.d, c, i) ensures t.ns[i] == s.ns[i] {
          BelowTrans(s.ns, s.d, x, c, i);
        }
        SubtreeKept(s, t, c);
      }
      SubtreeBranch(s.ns, s.d, x);
      SubtreeBranch(t.ns, t.d, x);
    }
  }

  /** Nothing is below two entries of the same directory. */
  lemma EntriesApart(s: State, p: NodeId, m: string, n: string, i: NodeId)
    requires Treed(s) && p < |s.ns| && i < |s.ns| && m in Children(s.ns, p) && n in Children(s.ns, p) && m != n
    requires Children(s.ns, p)[m] < |s.ns| && Below(s.ns, s.d, Children(s.ns, p)[m], i)
    ensures !UnderEntry(s, p, n, i) && i != p
  {
    var a, b := Children(s.ns, p)[m], Children(s.ns, p)[n];
    EntryIsBelow(s, p, m);
    EntryIsBelow(s, p, n);
    BelowIsAnc(s.ns, s.d, a, i);
    if Below(s.ns, s.d, b, i) {
      BelowIsAnc(s.ns, s.d, b, i);
      AncComparable(s.ns, s.d, a, b, i);
      if a != b {
        AncRank(s.ns, s.d, a, b);
      }
    }
  }

  /** Copying to one entry leaves what is at another as it is. */
  lemma OtherEntryKept(s: State, t: State, p: NodeId, n: string, m: string)
    requires Treed(s) && Treed(t) && p < |s.ns| <= |t.ns| && AtEntry(s, t, p, n) && m in Children(s.ns, p) && m != n
    ensures m in Children(t.ns, p) && Children(t.ns, p)[m] == Children(s.ns, p)[m]
    ensures ValueAt(t, p, m) == ValueAt(s, p, m)
  {
    assert m in Children(s.ns, p) - {n};
    assert (Children(t.ns, p) - {n})[m] == (Children(s.ns, p) - {n})[m];
    var c := Children(s.ns, p)[m];
    assert Entry(s.ns, p, m, c);
    forall i | 0 <= i < |s.ns| && Below(s.ns, s.d, c, i) ensures t.ns[i] == s.ns[i] {
      if n in Children(s.ns, p) {
        EntriesApart(s, p, m, n, i);
      } else {
        EntryIsBelow(s, p, m);
        BelowIsAnc(s.ns, s.d, c, i);
      }
    }
    SubtreeKept(s, t, c);
  }

  /** While everything goes below `c`, whatever is in the source stays as it was. */
  lemma SourceKept(s: State, t: State, src: NodeId, p: NodeId, name: string, x: NodeId)
    requires Treed(s) && Treed(t) && src < |s.ns| && p < |s.ns| && x < |s.ns| && name in Children(s.ns, p)
    requires Children(s.ns, p)[name] < |s.ns| && Confined(s, t, Children(s.ns, p)[name])
    requires !Anc(s.ns, s.d, src, p) && !Anc(s.ns, s.d, Children(s.ns, p)[name], src) && Anc(s.ns, s.d, src, x)
    ensures SubtreeAt(t.ns, t.d, x) == SubtreeAt(s.ns, s.d, x) && t.ns[x] == s.ns[x]
  {
    var c := Children(s.ns, p)[name];
    EntryIsBelow(s, p, name);
    forall i | 0 <= i < |s.ns| && Below(s.ns, s.d, x, i) ensures t.ns[i] == s.ns[i] {
      if Below(s.ns, s.d, c, i) {
        BelowIsAnc(s.ns, s.d, c, i);
        BelowIsAnc(s.ns, s.d, x, i);
        AncTrans(s.ns, s.d, src, x, i);
        if s.d[c] <= s.d[src] {
          AncComparable(s.ns, s.d, c, src, i);
        } else {
          AncComparable(s.ns, s.d, src, c, i);
        }
      }
    }
    assert Below(s.ns, s.d, x, x);
    SubtreeKept(s, t, x);
  }

  /** Child `n` of the source has been merged into `c`. */
  ghost predicate Merges(s: State, t: State, src: NodeId, c: NodeId, n: string)
    requires Treed(s) && Treed(t) && src < |s.ns| && c < |s.ns| <= |t.ns|
  {
    ValueAt(s, src, n).Some? && ValueAt(t, c, n) == Some(Merged(ValueAt(s, src, n).value, ValueAt(s, c, n)))
  }

  /** Entry `n` of `c` is what it was. */
  ghost predicate Stays(s: State, t: State, c: NodeId, n: string)
    requires Treed(s) && Treed(t) && c < |s.ns| <= |t.ns|
  {
    && n in Children(s.ns, c) && n in Children(t.ns, c) && Children(t.ns, c)[n] == Children(s.ns, c)[n]
    && ValueAt(t, c, n) == ValueAt(s, c, n)
  }

  ghost predicate EntriesMerged(s: State, t: State, src: NodeId, c: NodeId, done: set<string>)
    requires Treed(s) && Treed(t) && src < |s.ns| && c < |s.ns| <= |t.ns|
  {
    && Children(t.ns, c).Keys == Children(s.ns, c).Keys + done
    && (forall n :: n in done ==> Merges(s, t, src, c, n))
    && (forall n :: n in Children(s.ns, c) && n !in done ==> Stays(s, t, c, n))
  }

  /** The children of `src` named in `done` have been copied into `c`. */
  ghost predicate Merging(s: State, t: State, src: NodeId, c: NodeId, done: set<string>)
    requires Treed(s) && Treed(t) && src < |s.ns| && c < |s.ns|
  {
    && s.ns[src].kind.Directory? && done <= Children(s.ns, src).Keys && SubtreeAt(s.ns, s.d, src).children.Keys == Children(s.ns, src).Keys
    && Confined(s, t, c)
    && (s.ns[c].kind.Directory? ==> EntriesMerged(s, t, src, c, done))
    && |t.ns| + SizeAll(SubtreeAt(s.ns, s.d, src), Children(s.ns, src).Keys - done) <= |s.ns| + Size(SubtreeAt(s.ns, s.d, src))
    && t.bytes + VolumeAll(SubtreeAt(s.ns, s.d, src), Children(s.ns, src).Keys - done) <= s.bytes + Volume(SubtreeAt(s.ns, s.d, src))
  }

  lemma MergeStarts(s: State, src: NodeId, c: NodeId)
    requires Treed(s) && src < |s.ns| && c < |s.ns| && s.ns[src].kind.Directory?
    ensures Merging(s, s, src, c, {})
  {
    NothingHappens(s, s, c, "");
    SubtreeBranch(s.ns, s.d, src);
    assert Children(s.ns, src).Keys - {} == Children(s.ns, src).Keys;
  }

  /** Child `n` of the source, unchanged so far, can be copied into `c`, as a free name or as a taken one. */
  lemma NextMerges(s: State, t: State, src: NodeId, p: NodeId, name: string, level: nat, done: set<string>, n: string)
    requires Treed(s) && Treed(t) && src < |s.ns| && p < |s.ns| && s.ns[src].kind.Directory? && Mergeable(s, src, p, name, level)
    requires Merging(s, t, src, Children(s.ns, p)[name], done) && n in Children(s.ns, src) && n !in done
    ensures var c, x := Children(s.ns, p)[name], Children(s.ns, src)[n];
      && x < |s.ns| <= |t.ns|
      && Some(SubtreeAt(t.ns, t.d, x)) == ValueAt(s, src, n)
      && (n !in Children(t.ns, c) ==> Copyable(t.ns, t.d, t.bytes, x, c, n, level + 1) && n !in Children(s.ns, c))
      && (n in Children(t.ns, c) ==> Mergeable(t, x, c, n, level + 1) && Stays(s, t, c, n))
  {
    hide Below, Anc, IsChild, Size, Volume, Merges, Merged, SubtreeAt, Confined;
    var c, x, v := Children(s.ns, p)[name], Children(s.ns, src)[n], SubtreeAt(s.ns, s.d, src);
    EntryIsBelow(s, p, name);
    EntryIsBelow(s, src, n);
    ChildHasAncestor(s, src, x);
    ConfinedKeeps(s, t, c);
    SourceKept(s, t, src, p, name, x);
    BranchIs(s, src);
    NextRoom(s, src, done, n);
    assert HeightAtMost(v.children[n], MAX_VFS_DEPTH - s.d[p] - 2);
    assert HeightAtMost(v.children[n], MAX_COPY_DEPTH - level - 1);
    NextIsApart(s, t, src, p, name, n);
  }

  lemma NextIsApart(s: State, t: State, src: NodeId, p: NodeId, name: string, n: string)
    requires Treed(s) && Treed(t) && src < |s.ns| && p < |s.ns| && n in Children(s.ns, src) && name in Children(s.ns, p)
    requires Children(s.ns, p)[name] < |s.ns| && Confined(s, t, Children(s.ns, p)[name])
    requires !Anc(s.ns, s.d, src, p) && !Anc(s.ns, s.d, Children(s.ns, p)[name], src)
    ensures var c, x := Children(s.ns, p)[name], Children(s.ns, src)[n];
      && x < |s.ns| && !Anc(t.ns, t.d, x, c)
      && (n in Children(t.ns, c) && Children(t.ns, c)[n] < |s.ns| ==> !Anc(t.ns, t.d, Children(t.ns, c)[n], x))
  {
    var c, x := Children(s.ns, p)[name], Children(s.ns, src)[n];
    EntryIsBelow(s, p, name);
    EntryIsBelow(s, src, n);
    ChildHasAncestor(s, src, x);
    AncSame(s, t, x, c);
    if Anc(s.ns, s.d, x, c) {
      AncTrans(s.ns, s.d, src, x, c);
    }
    if n in Children(t.ns, c) && Children(t.ns, c)[n] < |s.ns| {
      var e := Children(t.ns, c)[n];
      EntryIsBelow(t, c, n);
      assert SamePlace(s, t, e);
      AncSame(s, t, e, x);
      ChildHasAncestor(s, c, e);
      if Anc(s.ns, s.d, e, x) {
        AncTrans(s.ns, s.d, c, e, x);
      }
    }
  }

  /** Copying it brings the merge one child further. */
  lemma MergeAdvances(s: State, t: State, u: State, src: NodeId, p: NodeId, name: string, level: nat, done: set<string>, n: string, id: NodeId)
    requires Treed(s) && Treed(t) && Treed(u) && src < |s.ns| && p < |s.ns| && s.ns[src].kind.Directory? && Mergeable(s, src, p, name, level)
    requires Merging(s, t, src, Children(s.ns, p)[name], done) && n in Children(s.ns, src) && n !in done
    requires Children(s.ns, src)[n] < |s.ns| <= |t.ns| && Contained(t, u, Children(s.ns, p)[name], n)
    requires
      var c, x := Children(s.ns, p)[name], Children(s.ns, src)[n];
      if n in Children(t.ns, c) then MergeDone(t, u, x, c, n)
      else Copied(t.ns, t.d, t.bytes, x, c, n, u.ns, u.d, u.bytes, id)
    ensures Merging(s, u, src, Children(s.ns, p)[name], done + {n})
  {
    hide Below, Anc, IsChild, Confined, AtEntry, EntriesMerged, SubtreeAt, Size, Volume, Grows, Arrived, Stays;
    var c, x, v := Children(s.ns, p)[name], Children(s.ns, src)[n], SubtreeAt(s.ns, s.d, src);
    NextMerges(s, t, src, p, name, level, done, n);
    ConfinedKeeps(s, t, c);
    ConfinedKeeps(t, u, c);
    ConfinedTrans(s, t, u, c);
    NextRoom(s, src, done, n);
    if n !in Children(t.ns, c) {
      CopyableFits(t.ns, t.d, t.bytes, x, c, n, level + 1);
    }
    if s.ns[c].kind.Directory? {
      EntryArrives(s, t, u, src, c, n, x, id);
      EntriesAdvance(s, t, u, src, c, done, n);
    }
  }

  /** The room still needed goes down by the child's. */
  lemma NextRoom(s: State, src: NodeId, done: set<string>, n: string)
    requires Treed(s) && src < |s.ns| && s.ns[src].kind.Directory? && n in Children(s.ns, src) && n !in done && done <= Children(s.ns, src).Keys
    ensures var v, rest := SubtreeAt(s.ns, s.d, src), Children(s.ns, src).Keys - done;
      var next := Children(s.ns, src).Keys - (done + {n});
      && v.Branch? && v.children.Keys == Children(s.ns, src).Keys && ValueAt(s, src, n).Some?
      && SizeAll(v, rest) == Size(ValueAt(s, src, n).value) + SizeAll(v, next)
      && VolumeAll(v, rest) == Volume(ValueAt(s, src, n).value) + VolumeAll(v, next)
  {
    var v := SubtreeAt(s.ns, s.d, src);
    SubtreeBranch(s.ns, s.d, src);
    TakeOne(v, Children(s.ns, src).Keys - done, n);
    assert Children(s.ns, src).Keys - done - {n} == Children(s.ns, src).Keys - (done + {n});
  }

  lemma KeysAtEntry(a: map<string, NodeId>, b: map<string, NodeId>, n: string)
    requires a - {n} == b - {n} && n in b
    ensures b.Keys == a.Keys + {n}
  {
    assert (a - {n}).Keys == a.Keys - {n} && (b - {n}).Keys == b.Keys - {n};
    assert b.Keys == (b.Keys - {n}) + {n} && a.Keys + {n} == (a.Keys - {n}) + {n};
  }

  lemma EntriesAdvance(s: State, t: State, u: State, src: NodeId, c: NodeId, done: set<string>, n: string)
    requires Treed(s) && Treed(t) && Treed(u) && src < |s.ns| && c < |s.ns| <= |t.ns| <= |u.ns|
    requires EntriesMerged(s, t, src, c, done) && AtEntry(t, u, c, n) && n !in done
    requires n in Children(u.ns, c) && Merges(s, u, src, c, n)
    ensures EntriesMerged(s, u, src, c, done + {n})
  {
    hide Below, UnderEntry, SubtreeAt, ValueAt, Merged, Children, Tree;
    KeysAtEntry(Children(t.ns, c), Children(u.ns, c), n);
    assert Children(s.ns, c).Keys + done + {n} == Children(s.ns, c).Keys + (done + {n});
    forall m | m in done + {n} ensures Merges(s, u, src, c, m) {
      if m != n {
        assert Merges(s, t, src, c, m);
        OtherEntryKept(t, u, c, n, m);
      }
    }
    forall m | m in Children(s.ns, c) && m !in done + {n} ensures Stays(s, u, c, m) {
      assert Stays(s, t, c, m);
      OtherEntryKept(t, u, c, n, m);
    }
  }

  lemma EntryArrives(s: State, t: State, u: State, src: NodeId, c: NodeId, n: string, x: NodeId, id: NodeId)
    requires Treed(s) && Treed(t) && Treed(u) && src < |s.ns| && c < |s.ns| <= |t.ns| <= |u.ns| && t.ns[c].kind.Directory?
    requires x < |t.ns| && Some(SubtreeAt(t.ns, t.d, x)) == ValueAt(s, src, n)
    requires n in Children(t.ns, c) ==> Stays(s, t, c, n)
    requires n !in Children(t.ns, c) ==> n !in Children(s.ns, c)
    requires if n in Children(t.ns, c) then MergeDone(t, u, x, c, n)
             else Copied(t.ns, t.d, t.bytes, x, c, n, u.ns, u.d, u.bytes, id)
    ensures n in Children(u.ns, c) && Merges(s, u, src, c, n)
  {
    if n !in Children(t.ns, c) {
      assert Children(u.ns, c)[n] == id;
    }
  }

  lemma BranchIs(s: State, c: NodeId)
    requires Treed(s) && c < |s.ns| && s.ns[c].kind.Directory?
    ensures var v := SubtreeAt(s.ns, s.d, c);
      && v.Branch? && v.owner == OwnerOf(s.ns[c].meta) && v.children.Keys == Children(s.ns, c).Keys
      && forall n :: n in v.children ==> ValueAt(s, c, n) == Some(v.children[n])
  {
    SubtreeBranch(s.ns, s.d, c);
  }

  lemma MergedValue(s: State, t: State, src: NodeId, c: NodeId)
    requires Treed(s) && Treed(t) && src < |s.ns| && c < |s.ns| <= |t.ns| && SameButChildren(s, t, c)
    requires s.ns[src].kind.Directory? && s.ns[c].kind.Directory? && EntriesMerged(s, t, src, c, Children(s.ns, src).Keys)
    ensures SubtreeAt(t.ns, t.d, c) == Merged(SubtreeAt(s.ns, s.d, src), Some(SubtreeAt(s.ns, s.d, c)))
  {
    hide SubtreeAt, ValueAt, Merged, Children, Tree;
    BranchIs(s, src);
    BranchIs(s, c);
    BranchIs(t, c);
    var v, was, now := SubtreeAt(s.ns, s.d, src), SubtreeAt(s.ns, s.d, c), SubtreeAt(t.ns, t.d, c);
    var m := Merged(v, Some(was));
    MergedBranches(v, was);
    forall n | n in now.children ensures n in m.children && now.children[n] == m.children[n] {
      if n in v.children {
        assert Merges(s, t, src, c, n);
        NotThere(s, c, n);
      } else {
        assert Stays(s, t, c, n);
      }
    }
    assert now.children.Keys == m.children.Keys;
  }

  lemma MergedBranches(t: Subtree, u: Subtree)
    requires t.Branch? && u.Branch?
    ensures var m := Merged(t, Some(u));
      && m.Branch? && m.owner == u.owner && m.children.Keys == t.children.Keys + u.children.Keys
      && forall n :: n in m.children ==>
           m.children[n] == if n in t.children then Merged(t.children[n], Lookup(u.children, n)) else u.children[n]
  {
  }

  lemma NotThere(s: State, c: NodeId, n: string)
    requires Treed(s) && c < |s.ns|
    ensures ValueAt(s, c, n).None? <==> n !in Children(s.ns, c)
  {
  }

  /** With every child copied, what has the name is the merge. */
  lemma MergeEnds(s: State, t: State, src: NodeId, p: NodeId, name: string, level: nat)
    requires Treed(s) && Treed(t) && src < |s.ns| && p < |s.ns| && s.ns[src].kind.Directory? && Mergeable(s, src, p, name, level)
    requires Merging(s, t, src, Children(s.ns, p)[name], Children(s.ns, src).Keys) && |s.ns| <= |t.ns|
    ensures MergeDone(s, t, src, p, name)
  {
    hide Below, Anc, IsChild, EntriesMerged, Merges, Stays, Size, Volume;
    var c, v := Children(s.ns, p)[name], SubtreeAt(s.ns, s.d, src);
    SpreadOverTaken(s, t, p, name);
    assert Entry(t.ns, p, name, c) by {
      assert SamePlace(s, t, c);
    }
    BranchIs(s, src);
    assert Children(s.ns, src).Keys - Children(s.ns, src).Keys == {};
    if s.ns[c].kind.Directory? {
      MergedValue(s, t, src, c);
    }
  }
}
