/**
  What one call of the recursive copy comes to, whatever the caps do, and when that replaces what had the name.
 */
module VfsReplace {
  import opened Wrappers
  import opened VfsTree
  import opened VfsEdits
  import opened VfsHeight
  import opened VfsCopy
  import opened VfsMerge
  import opened VfsRuns

  // ---- What a copy comes to ---------------------------------------------------------------------

  /** A directory copied to a taken name: everything goes below what has the name, which keeps its record and every
      entry under a name the source has not, unless a name of the source found no room in it. */
  ghost predicate IntoTaken(s: State, t: State, src: NodeId, p: NodeId, name: string, id: NodeId)
    requires Treed(s) && Treed(t) && src < |s.ns| && p < |s.ns|
  {
    && name in Children(s.ns, p) && id == Children(s.ns, p)[name] < |s.ns|
    && Confined(s, t, id)
    && (Kept(s, t, id, Children(s.ns, src).Keys) || Lost(t, id, Children(s.ns, src).Keys))
  }

  /** There was no room for a directory with a single entry that is no directory: that entry was copied into `p`
      itself. */
  ghost predicate Spilled(s: State, t: State, src: NodeId, p: NodeId)
    requires Treed(s) && Treed(t) && src < |s.ns| && p < |s.ns| <= |t.ns|
  {
    forall n :: n in Children(s.ns, src) && Children(s.ns, src).Keys == {n} ==> SpilledEntry(s, t, src, p, n)
  }

  ghost predicate SpilledEntry(s: State, t: State, src: NodeId, p: NodeId, n: string)
    requires Treed(s) && Treed(t) && src < |s.ns| && p < |s.ns| <= |t.ns| && n in Children(s.ns, src)
  {
    && Entry(s.ns, src, n, Children(s.ns, src)[n])
    && (!s.ns[Children(s.ns, src)[n]].kind.Directory? ==>
          (Arrived(t, p, n, SubtreeAt(s.ns, s.d, Children(s.ns, src)[n])) <==> LeafFits(s, Children(s.ns, src)[n], p, n)))
  }

  /** The node is the one that has the name below `p`. */
  ghost predicate NamedAt(t: State, p: NodeId, name: string, id: NodeId) {
    id < |t.ns| && t.ns[id].parent == Some(p) && t.ns[id].name == name
  }

  ghost predicate CopyOutcome(s: State, t: State, src: NodeId, p: NodeId, name: string, level: nat, id: NodeId)
    requires Treed(s) && Treed(t) && src < |s.ns| && p < |s.ns|
  {
    && Contained(s, t, p, name)
    && (Copyable(s.ns, s.d, s.bytes, src, p, name, level) ==> Copied(s.ns, s.d, s.bytes, src, p, name, t.ns, t.d, t.bytes, id))
    && (Mergeable(s, src, p, name, level) ==> MergeDone(s, t, src, p, name))
    && (level <= MAX_COPY_DEPTH && !s.ns[src].kind.Directory? ==>
          (Arrived(t, p, name, SubtreeAt(s.ns, s.d, src)) <==> LeafFits(s, src, p, name)))
    && (s.ns[src].kind.Symlink? && level <= MAX_COPY_DEPTH && FullAt(s, p) ==> name !in Children(t.ns, p))
    && (level <= MAX_COPY_DEPTH && s.ns[src].kind.Directory? ==>
          && (NamedAt(t, p, name, id) <==> name in Children(s.ns, p) || !FullAt(s, p))
          && (name in Children(s.ns, p) ==> IntoTaken(s, t, src, p, name, id))
          && (!NamedAt(t, p, name, id) ==> id == p && (level < MAX_COPY_DEPTH ==> Spilled(s, t, src, p))))
  }

  /** Past the copy depth nothing is copied. */
  lemma TooDeepOutcome(s: State, src: NodeId, p: NodeId, name: string, level: nat, id: NodeId)
    requires Treed(s) && src < |s.ns| && p < |s.ns| && level > MAX_COPY_DEPTH
    ensures CopyOutcome(s, s, src, p, name, level, id)
  {
    NothingHappens(s, s, p, name);
  }

  /** A regular file: refused, written over what has the name, or pushed. */
  lemma FileOutcome(s: State, t: State, src: NodeId, p: NodeId, name: string, level: nat, meta: Metadata, id: NodeId)
    requires Sane(s) && Treed(t) && src < |s.ns| && p < |s.ns| && level <= MAX_COPY_DEPTH && s.ns[src].kind.File?
    requires OwnerOf(meta) == OwnerOf(s.ns[src].meta)
    requires name in Children(s.ns, p) ==> Children(s.ns, p)[name] < |s.ns|
    requires
      var len := |s.ns[src].kind.contents|;
      if s.bytes - GivenBack(s, p, name) + len > MAX_VFS_BYTES || (name !in Children(s.ns, p) && FullAt(s, p)) then
        t.ns == s.ns && t.d == s.d
      else
        && t.bytes == s.bytes - GivenBack(s, p, name) + len
        && if name in Children(s.ns, p) then t.ns == Replaced(s.ns, Children(s.ns, p)[name], s.ns[src].kind, meta) && t.d == s.d
           else id == |s.ns| && t.ns == Pushed(s.ns, p, name, s.ns[src].kind, meta) && t.d == s.d + [s.d[p] + 1]
    ensures CopyOutcome(s, t, src, p, name, level, id)
  {
    hide Confined, AtEntry, Copied, Below, SubtreeAt, Pushed, Replaced, Merged;
    if Mergeable(s, src, p, name, level) {
      LeafMerges(s, src, p, name, level);
    }
    PushedLeafIsCopied(s, src, p, name, level, meta);
    SourceIsFresh(s, src, meta);
    if s.bytes - GivenBack(s, p, name) + |s.ns[src].kind.contents| > MAX_VFS_BYTES || (name !in Children(s.ns, p) && FullAt(s, p)) {
      BytesAreCharged(s);
      LeafIsRefused(s, src, p, name, t);
    } else if name in Children(s.ns, p) {
      LeafOverwrites(s, src, p, name, meta, t);
      DirectoryLists(s, p, name);
    } else {
      LeafIsPushed(s, src, p, name, meta, t);
    }
  }

  lemma DirectoryLists(s: State, p: NodeId, name: string)
    requires p < |s.ns| && name in Children(s.ns, p)
    ensures s.ns[p].kind.Directory?
  {
  }

  lemma BytesAreCharged(s: State)
    requires Sane(s)
    ensures s.bytes <= MAX_VFS_BYTES
  {
  }

  lemma SourceIsFresh(s: State, src: NodeId, meta: Metadata)
    requires Sane(s) && src < |s.ns| && !s.ns[src].kind.Directory? && OwnerOf(meta) == OwnerOf(s.ns[src].meta)
    ensures FreshKind(s.ns[src].kind, meta)
  {
  }

  lemma PushedLeafIsCopied(s: State, src: NodeId, p: NodeId, name: string, level: nat, meta: Metadata)
    requires Sane(s) && src < |s.ns| && p < |s.ns| && !s.ns[src].kind.Directory? && OwnerOf(meta) == OwnerOf(s.ns[src].meta)
    ensures Copyable(s.ns, s.d, s.bytes, src, p, name, level) ==>
      && name !in Children(s.ns, p) && !FullAt(s, p) && s.bytes + ContentLen(s.ns[src]) <= MAX_VFS_BYTES
      && Copied(s.ns, s.d, s.bytes, src, p, name,
                Pushed(s.ns, p, name, s.ns[src].kind, meta), s.d + [s.d[p] + 1], s.bytes + ContentLen(s.ns[src]), |s.ns|)
  {
    hide Copied, Pushed;
    if Copyable(s.ns, s.d, s.bytes, src, p, name, level) {
      CopyableFits(s.ns, s.d, s.bytes, src, p, name, level);
      LeafCopied(s.ns, s.d, s.bytes, src, p, name, level, meta);
    }
  }

  /** A generated file: the same without the bytes. */
  lemma DynamicOutcome(s: State, t: State, src: NodeId, p: NodeId, name: string, level: nat, meta: Metadata, id: NodeId)
    requires Sane(s) && Treed(t) && src < |s.ns| && p < |s.ns| && level <= MAX_COPY_DEPTH && s.ns[src].kind.DynamicFile?
    requires OwnerOf(meta) == OwnerOf(s.ns[src].meta) && t.bytes == s.bytes
    requires name in Children(s.ns, p) ==> Children(s.ns, p)[name] < |s.ns|
    requires
      if name in Children(s.ns, p) then t.ns == Replaced(s.ns, Children(s.ns, p)[name], s.ns[src].kind, meta) && t.d == s.d
      else if FullAt(s, p) then t.ns == s.ns && t.d == s.d
      else id == |s.ns| && t.ns == Pushed(s.ns, p, name, s.ns[src].kind, meta) && t.d == s.d + [s.d[p] + 1]
    ensures CopyOutcome(s, t, src, p, name, level, id)
  {
    hide Confined, AtEntry, Copied, Below, SubtreeAt, Pushed, Replaced, Merged;
    if Mergeable(s, src, p, name, level) {
      LeafMerges(s, src, p, name, level);
    }
    PushedLeafIsCopied(s, src, p, name, level, meta);
    SourceIsFresh(s, src, meta);
    if name in Children(s.ns, p) {
      LeafOverwrites(s, src, p, name, meta, t);
      DirectoryLists(s, p, name);
    } else if FullAt(s, p) {
      LeafIsRefused(s, src, p, name, t);
    } else {
      LeafIsPushed(s, src, p, name, meta, t);
    }
  }

  /** A symlink: what has the name goes first. */
  lemma LinkOutcome(s: State, m: State, t: State, src: NodeId, p: NodeId, name: string, level: nat, meta: Metadata, id: NodeId)
    requires Sane(s) && Treed(m) && Treed(t) && src < |s.ns| && p < |s.ns| && level <= MAX_COPY_DEPTH && s.ns[src].kind.Symlink?
    requires OwnerOf(meta) == OwnerOf(s.ns[src].meta) && t.bytes == s.bytes
    requires m.ns == WithoutEntry(s.ns, p, name) && m.d == s.d
    requires if FullAt(s, p) then t.ns == m.ns && t.d == m.d
             else id == |s.ns| && t.ns == Pushed(m.ns, p, name, s.ns[src].kind, meta) && t.d == m.d + [m.d[p] + 1]
    ensures CopyOutcome(s, t, src, p, name, level, id)
  {
    hide Confined, AtEntry, Copied, Below, SubtreeAt, Pushed, WithoutEntry, Merged;
    if Mergeable(s, src, p, name, level) {
      LeafMerges(s, src, p, name, level);
    }
    PushedLeafIsCopied(s, src, p, name, level, meta);
    SourceIsFresh(s, src, meta);
    LinkLands(s, src, p, name, meta, m, t);
    if name !in Children(s.ns, p) {
      NothingToDrop(s.ns, p, name);
    } else {
      DirectoryLists(s, p, name);
    }
  }

  lemma RootIsNotBelow(s: State, t: State, p: NodeId, name: string)
    requires Treed(s) && Treed(t) && p < |s.ns|
    ensures !NamedAt(t, p, name, p) && (name in Children(s.ns, p) ==> Children(s.ns, p)[name] != p)
  {
    if name in Children(s.ns, p) {
      EntryIsBelow(s, p, name);
    }
    assert 0 < p < |t.ns| ==> t.d[p] == t.d[t.ns[p].parent.value] + 1;
  }

  /** A directory: what has the name, a new one, or, when there was no room for it, `p` took the children. */
  lemma DirectoryOutcome(s: State, m: State, t: State, src: NodeId, p: NodeId, name: string, level: nat, meta: Metadata,
                         id: NodeId, names: set<string>)
    requires Treed(s) && Treed(m) && Treed(t) && src < |s.ns| && p < |s.ns| && s.ns[src].kind.Directory? && FreshKind(Directory(map[]), meta)
    requires
      if name in Children(s.ns, p) then id == Children(s.ns, p)[name] < |s.ns| && m == s && names == Children(s.ns, src).Keys
      else if FullAt(s, p) then id == p && m == s
      else id == |s.ns| && m.ns == Pushed(s.ns, p, name, Directory(map[]), meta) && m.d == s.d + [s.d[p] + 1]
    requires id < |m.ns| && Spread(m, t, id, names)
    requires Copyable(s.ns, s.d, s.bytes, src, p, name, level) ==> Copied(s.ns, s.d, s.bytes, src, p, name, t.ns, t.d, t.bytes, id)
    requires Mergeable(s, src, p, name, level) && name in Children(s.ns, p) && Children(s.ns, p)[name] < |s.ns| ==>
      Merging(s, t, src, Children(s.ns, p)[name], Children(s.ns, src).Keys)
    requires name !in Children(s.ns, p) && FullAt(s, p) && level < MAX_COPY_DEPTH && p < |t.ns| ==> |s.ns| <= |t.ns| && Spilled(s, t, src, p)
    ensures CopyOutcome(s, t, src, p, name, level, id)
  {
    hide Below, Anc, Copyable, Copied, Merged, AtEntry, Merging, Spilled;
    ConfinedKeeps(m, t, id);
    if id == p {
      RootIsNotBelow(s, t, p, name);
    } else {
      assert SamePlace(m, t, id);
    }
    if name in Children(s.ns, p) {
      SpreadOverTaken(s, t, p, name);
      if Mergeable(s, src, p, name, level) {
        ConfinedKeeps(s, t, id);
        MergeEnds(s, t, src, p, name, level);
      }
    } else if FullAt(s, p) {
      SpreadOverRefused(s, t, p, name, names);
    } else {
      SpreadOverMade(s, m, t, p, name, meta);
    }
  }

  // ---- The loop over the children ---------------------------------------------------------------

  /** What `mkdir` does before the children are copied. */
  ghost predicate Opened(s: State, m: State, p: NodeId, name: string, meta: Metadata, made: NodeId)
    requires Treed(s) && p < |s.ns|
  {
    if name in Children(s.ns, p) then made == Children(s.ns, p)[name] < |s.ns| && m == s
    else if FullAt(s, p) then made == p && m == s
    else made == |s.ns| && m.ns == Pushed(s.ns, p, name, Directory(map[]), meta) && m.d == s.d + [s.d[p] + 1] && m.bytes == s.bytes
  }

  /** The children named in `done` have been copied, where no cap gets in the way. */
  ghost predicate Growing(s: State, t: State, src: NodeId, p: NodeId, name: string, level: nat, made: NodeId, done: set<string>)
    requires Treed(s) && Treed(t) && src < |s.ns| && p < |s.ns|
  {
    && (Copyable(s.ns, s.d, s.bytes, src, p, name, level) ==>
          Copying(s.ns, s.d, s.bytes, src, p, name, level, t.ns, t.d, t.bytes, made, done))
    && (Mergeable(s, src, p, name, level) ==>
          name in Children(s.ns, p) && made == Children(s.ns, p)[name] < |s.ns| && Merging(s, t, src, made, done))
  }

  lemma CopyOpens(s: State, m: State, src: NodeId, p: NodeId, name: string, level: nat, meta: Metadata, made: NodeId)
    requires Sane(s) && Treed(m) && src < |s.ns| && p < |s.ns| && s.ns[src].kind.Directory? && Opened(s, m, p, name, meta, made)
    requires OwnerOf(meta) == OwnerOf(s.ns[src].meta)
    ensures FreshKind(Directory(map[]), meta) && Growing(s, m, src, p, name, level, made, {})
  {
    hide Copying, Merging, Copyable, Pushed, Mergeable, Shape, Bytes;
    SaneIsTree(s);
    DirectoryIsFresh(s, src, meta);
    if Copyable(s.ns, s.d, s.bytes, src, p, name, level) {
      CopyableFits(s.ns, s.d, s.bytes, src, p, name, level);
      CopyStarts(s.ns, s.d, s.bytes, src, p, name, level, meta);
    }
    if Mergeable(s, src, p, name, level) {
      MergeStarts(s, src, made);
    }
  }

  lemma SaneIsTree(s: State)
    requires Sane(s)
    ensures Treed(s)
    ensures forall src, p, name, level :: 0 <= src < |s.ns| && 0 <= p < |s.ns| && Mergeable(s, src, p, name, level) ==>
      name in Children(s.ns, p) && Children(s.ns, p)[name] < |s.ns|
  {
  }

  lemma DirectoryIsFresh(s: State, src: NodeId, meta: Metadata)
    requires Sane(s) && src < |s.ns| && s.ns[src].kind.Directory? && OwnerOf(meta) == OwnerOf(s.ns[src].meta)
    ensures FreshKind(Directory(map[]), meta)
  {
  }

  lemma OutcomeIsContained(s: State, t: State, src: NodeId, p: NodeId, name: string, level: nat, id: NodeId)
    requires Treed(s) && Treed(t) && src < |s.ns| && p < |s.ns| && CopyOutcome(s, t, src, p, name, level, id)
    ensures Contained(s, t, p, name)
  {
  }

  /** The listing is the source's own: it was taken before anything was copied, and where no cap gets in the way
      making the directory did not change it. */
  lemma ListingIsSource(s: State, m: State, src: NodeId, p: NodeId, name: string, level: nat, meta: Metadata, made: NodeId)
    requires Treed(s) && src < |s.ns| && p < |s.ns| && Opened(s, m, p, name, meta, made) && src < |m.ns|
    requires Copyable(s.ns, s.d, s.bytes, src, p, name, level) || name in Children(s.ns, p)
    ensures Children(m.ns, src) == Children(s.ns, src)
  {
    if name !in Children(s.ns, p) {
      CopyableFits(s.ns, s.d, s.bytes, src, p, name, level);
    }
  }

  lemma GrowingStep(s: State, m: State, t: State, u: State, src: NodeId, p: NodeId, name: string, level: nat, meta: Metadata,
                    made: NodeId, done: set<string>, n: string, x: NodeId, id: NodeId)
    requires Treed(s) && Treed(t) && Treed(u) && src < |s.ns| && p < |s.ns| && s.ns[src].kind.Directory?
    requires Opened(s, m, p, name, meta, made) && |s.ns| <= |m.ns| <= |t.ns| && made < |t.ns| && x < |t.ns|
    requires n in Children(m.ns, src) && x == Children(m.ns, src)[n] && n !in done
    requires Growing(s, t, src, p, name, level, made, done) && CopyOutcome(t, u, x, made, n, level + 1, id)
    ensures Growing(s, u, src, p, name, level, made, done + {n})
  {
    hide Copying, Merging, Contained, Copied, MergeDone, Opened, Copyable, Arrived, LeafFits, IntoTaken, Mergeable;
    if Copyable(s.ns, s.d, s.bytes, src, p, name, level) {
      ListingIsSource(s, m, src, p, name, level, meta, made);
      NextIsCopyable(s.ns, s.d, s.bytes, src, p, name, level, t.ns, t.d, t.bytes, made, done, n);
      CopyAdvances(s.ns, s.d, s.bytes, src, p, name, level, t.ns, t.d, t.bytes, made, done, n, u.ns, u.d, u.bytes, id);
    }
    if Mergeable(s, src, p, name, level) {
      ListingIsSource(s, m, src, p, name, level, meta, made);
      NextMerges(s, t, src, p, name, level, done, n);
      MergeAdvances(s, t, u, src, p, name, level, done, n, id);
    }
  }

  /** The first child has been copied to `made`: all there is to it if it is the only one. */
  ghost predicate FirstCopied(m: State, t: State, src: NodeId, made: NodeId, level: nat, es: seq<DirEntry>, k: nat, id: NodeId)
    requires Treed(m) && Treed(t) && src < |m.ns| && made < |m.ns|
  {
    && (k == 0 ==> t == m)
    && (k == 1 && |es| == 1 ==> es[0].id < |m.ns| && CopyOutcome(m, t, es[0].id, made, es[0].name, level + 1, id))
  }

  lemma SoleEntrySpilled(s: State, t: State, src: NodeId, p: NodeId, level: nat, es: seq<DirEntry>, id: NodeId)
    requires Treed(s) && Treed(t) && src < |s.ns| && p < |s.ns| <= |t.ns| && Lists(s.ns, src, es) && level < MAX_COPY_DEPTH
    requires FirstCopied(s, t, src, p, level, es, |es|, id)
    ensures Spilled(s, t, src, p)
  {
    hide Contained, Copied, Copyable, Mergeable, MergeDone, Arrived, LeafFits, IntoTaken, SubtreeAt;
    forall n | n in Children(s.ns, src) && Children(s.ns, src).Keys == {n} ensures SpilledEntry(s, t, src, p, n) {
      assert Entry(s.ns, src, n, Children(s.ns, src)[n]);
      SoleListing(s, src, es, n);
    }
  }

  lemma SoleListing(s: State, src: NodeId, es: seq<DirEntry>, n: string)
    requires src < |s.ns| && Lists(s.ns, src, es) && Children(s.ns, src).Keys == {n}
    ensures |es| == 1 && es[0].name == n && es[0].id == Children(s.ns, src)[n]
  {
    var last := |es| - 1;
    assert es[0].name in Children(s.ns, src).Keys && es[last].name in Children(s.ns, src).Keys;
    NamesDiffer(s, src, es, 0, last);
  }

  lemma NamesDiffer(s: State, src: NodeId, es: seq<DirEntry>, j: nat, k: nat)
    requires src < |s.ns| && Lists(s.ns, src, es) && j <= k < |es|
    ensures es[j].name == es[k].name ==> j == k
  {
  }

  lemma CopyCloses(s: State, m: State, t: State, src: NodeId, p: NodeId, name: string, level: nat, meta: Metadata,
                   made: NodeId, done: set<string>)
    requires Treed(s) && Treed(m) && Treed(t) && src < |s.ns| && p < |s.ns| && s.ns[src].kind.Directory? && FreshKind(Directory(map[]), meta)
    requires Opened(s, m, p, name, meta, made) && src < |m.ns| && made < |m.ns| && done == Children(m.ns, src).Keys
    requires Spread(m, t, made, done) && Growing(s, t, src, p, name, level, made, done)
    requires name !in Children(s.ns, p) && FullAt(s, p) && level < MAX_COPY_DEPTH ==> |s.ns| <= |t.ns| && Spilled(s, t, src, p)
    ensures CopyOutcome(s, t, src, p, name, level, made)
  {
    hide Copying, Merging, Copied, Spread, Copyable, Mergeable, CopyOutcome, Pushed, Spilled;
    if Copyable(s.ns, s.d, s.bytes, src, p, name, level) {
      ListingIsSource(s, m, src, p, name, level, meta, made);
      CopyEnds(s.ns, s.d, s.bytes, src, p, name, level, t.ns, t.d, t.bytes, made);
    }
    if name in Children(s.ns, p) {
      ListingIsSource(s, m, src, p, name, level, meta, made);
    }
    DirectoryOutcome(s, m, t, src, p, name, level, meta, made, done);
  }

  // ---- When a copy replaces what it is copied onto --------------------------------------------------

  /** With room for everything, what had the name is replaced by the source exactly when it yields. */
  lemma ReplacesIff(s: State, t: State, src: NodeId, p: NodeId, name: string)
    requires Treed(s) && Treed(t) && src < |s.ns| && p < |s.ns| <= |t.ns| && MergeDone(s, t, src, p, name)
    ensures Arrived(t, p, name, SubtreeAt(s.ns, s.d, src)) <==> Yields(SubtreeAt(s.ns, s.d, src), ValueAt(s, p, name))
  {
    MergedIsSourceIff(SubtreeAt(s.ns, s.d, src), ValueAt(s, p, name));
  }

  /** Whatever the caps do, a directory replaces only a directory with its own owner and mode and no name it has not
      itself. */
  lemma ReplacesOnlyIf(s: State, t: State, src: NodeId, p: NodeId, name: string, id: NodeId)
    requires Treed(s) && Treed(t) && src < |s.ns| && p < |s.ns| <= |t.ns| && s.ns[src].kind.Directory?
    requires IntoTaken(s, t, src, p, name, id) && Arrived(t, p, name, SubtreeAt(s.ns, s.d, src))
    ensures s.ns[id].kind.Directory? && OwnerOf(s.ns[id].meta) == OwnerOf(s.ns[src].meta)
    ensures Children(s.ns, id).Keys <= Children(s.ns, src).Keys
  {
    SpreadOverTaken(s, t, p, name);
    ConfinedKeeps(s, t, id);
    BranchIs(s, src);
    assert t.ns[id].kind.Directory?;
    BranchIs(t, id);
    assert Children(t.ns, id).Keys == Children(s.ns, src).Keys;
    assert Kept(s, t, id, Children(s.ns, src).Keys);
  }

  /** What has the name is no directory: nothing that was there changes, and nothing new can be reached. */
  lemma CopyBelowFileIsUnlinked(s: State, t: State, src: NodeId, p: NodeId, name: string, id: NodeId)
    requires Treed(s) && Treed(t) && src < |s.ns| && p < |s.ns|
    requires IntoTaken(s, t, src, p, name, id) && !s.ns[id].kind.Directory?
    ensures |s.ns| <= |t.ns| && t.ns[..|s.ns|] == s.ns
    ensures forall j :: |s.ns| <= j < |t.ns| ==> !Linked(t.ns, t.d, j)
  {
    hide Below, Linked, Anc, IsChild;
    forall i | 0 <= i < |s.ns| ensures t.ns[i] == s.ns[i] {
      if Below(s.ns, s.d, id, i) {
        OnlyItself(s, id, i);
      }
      assert SamePlace(s, t, i);
    }
    EntryIsBelow(s, p, name);
    forall j | |s.ns| <= j < |t.ns| ensures !Linked(t.ns, t.d, j) {
      UnlinkedBelow(t, id, j);
    }
  }

  /** Only a directory reaches anything but itself. */
  lemma {:induction false} OnlyItself(s: State, c: NodeId, i: NodeId)
    requires Treed(s) && c < |s.ns| && i < |s.ns| && !s.ns[c].kind.Directory? && Below(s.ns, s.d, c, i)
    ensures i == c
    decreases s.d[i]
  {
    if i != c {
      OnlyItself(s, c, Parent(s.ns, i));
    }
  }

  lemma {:induction false} UnlinkedBelow(t: State, c: NodeId, j: NodeId)
    requires Treed(t) && 0 < c < |t.ns| && j < |t.ns| && j != c && !t.ns[c].kind.Directory? && Anc(t.ns, t.d, c, j)
    ensures !Linked(t.ns, t.d, j)
    decreases t.d[j]
  {
    if j == 0 {
      AncRank(t.ns, t.d, c, j);
    } else if Parent(t.ns, j) != c {
      UnlinkedBelow(t, c, Parent(t.ns, j));
    }
  }
}
