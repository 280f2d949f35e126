/**
  Naming nodes: absolute paths out of parent chains, and path resolution back, with symlinks.
 */
module VfsResolve {
  import opened Division
  import opened Wrappers
  import opened Paths
  import opened VfsTree

  const MAX_SYMLINK_DEPTH: nat := 40

  // ---- Names -----------------------------------------------------------------------------------

  /** The names on the parent chain of `i`, from the root down. */
  ghost function Names(ns: Arena, d: seq<nat>, i: NodeId): (names: seq<string>)
    requires Tree(ns, d) && i < |ns|
    ensures |names| == d[i]
    decreases d[i]
  {
    if i == 0 then [] else Names(ns, d, Parent(ns, i)) + [ns[i].name]
  }

  /** One step of the climb that collects the names. */
  lemma NamesStep(ns: Arena, d: seq<nat>, i: NodeId)
    requires Tree(ns, d) && i < |ns|
    ensures ns[i].parent.None? <==> i == 0
    ensures if i == 0 then d[i] == 0 && Names(ns, d, i) == []
            else && ns[i].parent.value < |ns| && d[i] == d[ns[i].parent.value] + 1
                 && Names(ns, d, i) == Names(ns, d, ns[i].parent.value) + [ns[i].name]
  {
  }

  /** Walk down child maps only: no `..`, no symlinks. */
  ghost function Lookup(ns: Arena, start: NodeId, names: seq<string>): (r: Option<NodeId>)
    requires WellLinked(ns) && start < |ns|
    ensures r.Some? ==> r.value < |ns|
    decreases |names|
  {
    if names == [] then Some(start)
    else if names[0] in Children(ns, start) then
      assert Entry(ns, start, names[0], Children(ns, start)[names[0]]);
      Lookup(ns, Children(ns, start)[names[0]], names[1..])
    else None
  }

  lemma {:induction false} LookupConcat(ns: Arena, start: NodeId, a: seq<string>, b: seq<string>)
    requires WellLinked(ns) && start < |ns|
    ensures Lookup(ns, start, a + b) == match Lookup(ns, start, a) case Some(m) => Lookup(ns, m, b) case None => None
    decreases |a|
  {
    if a == [] {
      assert a + b == b;
    } else {
      assert (a + b)[1..] == a[1..] + b;
      if a[0] in Children(ns, start) {
        assert Entry(ns, start, a[0], Children(ns, start)[a[0]]);
        LookupConcat(ns, Children(ns, start)[a[0]], a[1..], b);
      }
    }
  }

  /** A reachable node is found under its own names. */
  lemma {:induction false} LookupFindsNames(ns: Arena, d: seq<nat>, i: NodeId)
    requires Tree(ns, d) && i < |ns| && Linked(ns, d, i)
    ensures Lookup(ns, 0, Names(ns, d, i)) == Some(i)
    decreases d[i]
  {
    if i != 0 {
      var p := Parent(ns, i);
      LookupFindsNames(ns, d, p);
      LookupConcat(ns, 0, Names(ns, d, p), [ns[i].name]);
      LookupOne(ns, p, ns[i].name);
    }
  }

  lemma LookupOne(ns: Arena, p: NodeId, name: string)
    requires WellLinked(ns) && p < |ns|
    ensures Lookup(ns, p, [name]) == if name in Children(ns, p) then Some(Children(ns, p)[name]) else None
  {
    if name in Children(ns, p) {
      var c := Children(ns, p)[name];
      assert Entry(ns, p, name, c);
      assert [name][1..] == [];
      assert Lookup(ns, c, []) == Some(c);
    }
  }

  /** Whatever a walk down from a reachable node finds is reachable, under the names walked. */
  lemma {:induction false} LookupIsNames(ns: Arena, d: seq<nat>, start: NodeId, names: seq<string>)
    requires Tree(ns, d) && start < |ns| && Linked(ns, d, start) && Lookup(ns, start, names).Some?
    ensures Linked(ns, d, Lookup(ns, start, names).value)
    ensures Names(ns, d, Lookup(ns, start, names).value) == Names(ns, d, start) + names
    decreases |names|
  {
    if names != [] {
      var c := Children(ns, start)[names[0]];
      assert Entry(ns, start, names[0], c);
      LookupIsNames(ns, d, c, names[1..]);
      assert Names(ns, d, start) + names == (Names(ns, d, start) + [names[0]]) + names[1..];
    }
  }

  // ---- Resolution --------------------------------------------------------------------------------

  function Up(ns: Arena, i: NodeId): (p: NodeId)
    requires WellLinked(ns) && i < |ns|
    ensures p < |ns|
  {
    ns[i].parent.GetOr(0)
  }

  /** `resolve_inner`: it terminates because a link only spends link depth, and a component is used once. */
  function Resolved(ns: Arena, start: NodeId, path: string, links: nat): (r: Option<NodeId>)
    requires WellLinked(ns) && start < |ns| && links <= MAX_SYMLINK_DEPTH + 1
    ensures r.Some? ==> r.value < |ns|
    decreases MAX_SYMLINK_DEPTH + 1 - links, 1, 0
  {
    if links > MAX_SYMLINK_DEPTH then None
    else Walked(ns, if path != "" && path[0] == '/' then 0 else start, Split(path), links)
  }

  /** The loop over components. */
  function Walked(ns: Arena, current: NodeId, comps: seq<string>, links: nat): (r: Option<NodeId>)
    requires WellLinked(ns) && current < |ns| && links <= MAX_SYMLINK_DEPTH
    ensures r.Some? ==> r.value < |ns|
    decreases MAX_SYMLINK_DEPTH + 1 - links, 0, |comps|
  {
    if comps == [] then Some(current)
    else if comps[0] == "" || comps[0] == "." then Walked(ns, current, comps[1..], links)
    else if comps[0] == ".." then Walked(ns, Up(ns, current), comps[1..], links)
    else if comps[0] !in Children(ns, current) then None
    else
      assert Entry(ns, current, comps[0], Children(ns, current)[comps[0]]);
      var next := Followed(ns, Children(ns, current)[comps[0]], links);
      if next.None? then None else Walked(ns, next.value, comps[1..], links)
  }

  function Followed(ns: Arena, id: NodeId, links: nat): (r: Option<NodeId>)
    requires WellLinked(ns) && id < |ns| && links <= MAX_SYMLINK_DEPTH
    ensures r.Some? ==> r.value < |ns|
    decreases MAX_SYMLINK_DEPTH + 1 - links, 0, 0
  {
    if ns[id].kind.Symlink? then Resolved(ns, Up(ns, id), ns[id].kind.target, links + 1) else Some(id)
  }

  /** A set of nodes that resolution cannot leave: it holds the root, parents, and every child with a
      plain name, except that a symlink child is followed instead of entered. */
  ghost predicate Closed(ns: Arena, s: set<NodeId>)
    requires WellLinked(ns)
  {
    && 0 in s
    && (forall i :: i in s ==> i < |ns|)
    && (forall i :: i in s && i > 0 ==> Parent(ns, i) in s)
    && (forall i, n :: i in s && n in Children(ns, i) && Plain(n) ==>
      InOrLink(ns, s, Children(ns, i)[n]))
  }

  ghost predicate InOrLink(ns: Arena, s: set<NodeId>, c: NodeId) {
    c in s || (c < |ns| && ns[c].kind.Symlink?)
  }

  lemma {:induction false} ResolveStays(ns: Arena, s: set<NodeId>, start: NodeId, path: string, links: nat)
    requires WellLinked(ns) && Closed(ns, s) && links <= MAX_SYMLINK_DEPTH + 1
    requires start in s
    ensures var r := Resolved(ns, start, path, links); r.Some? ==> r.value in s
    decreases MAX_SYMLINK_DEPTH + 1 - links, 1, 0
  {
    if links <= MAX_SYMLINK_DEPTH {
      WalkStays(ns, s, if path != "" && path[0] == '/' then 0 else start, Split(path), links);
    }
  }

  lemma {:induction false} WalkStays(ns: Arena, s: set<NodeId>, current: NodeId, comps: seq<string>, links: nat)
    requires WellLinked(ns) && Closed(ns, s) && links <= MAX_SYMLINK_DEPTH
    requires current in s && forall c :: c in comps ==> '/' !in c
    ensures var r := Walked(ns, current, comps, links); r.Some? ==> r.value in s
    decreases MAX_SYMLINK_DEPTH + 1 - links, 0, |comps|
  {
    if comps == [] {
    } else if comps[0] == "" || comps[0] == "." {
      WalkStays(ns, s, current, comps[1..], links);
    } else if comps[0] == ".." {
      assert current > 0 ==> Up(ns, current) == Parent(ns, current);
      WalkStays(ns, s, Up(ns, current), comps[1..], links);
    } else if comps[0] in Children(ns, current) {
      var c := Children(ns, current)[comps[0]];
      assert Entry(ns, current, comps[0], c) && Plain(comps[0]);
      if ns[c].kind.Symlink? {
        ResolveStays(ns, s, Up(ns, c), ns[c].kind.target, links + 1);
      }
      var next := Followed(ns, c, links);
      if next.Some? {
        WalkStays(ns, s, next.value, comps[1..], links);
      }
    }
  }

  /** Reachable by plain names, and not a symlink. */
  ghost predicate Addressable(ns: Arena, d: seq<nat>, i: NodeId)
    requires Tree(ns, d) && i < |ns|
  {
    Linked(ns, d, i) && !ns[i].kind.Symlink? && AllPlain(Names(ns, d, i))
  }

  ghost predicate ReachableNonLink(ns: Arena, d: seq<nat>, i: NodeId)
    requires Tree(ns, d) && i < |ns|
  {
    Linked(ns, d, i) && !ns[i].kind.Symlink?
  }

  lemma LinkedParent(ns: Arena, d: seq<nat>, i: NodeId)
    requires Tree(ns, d) && 0 < i < |ns| && Linked(ns, d, i)
    ensures Linked(ns, d, Parent(ns, i)) && ns[Parent(ns, i)].kind.Directory?
  {
  }

  /** Resolution from a reachable non-symlink only returns reachable non-symlinks. */
  lemma ResolveReachable(ns: Arena, d: seq<nat>, start: NodeId, path: string)
    requires Tree(ns, d) && start < |ns| && ReachableNonLink(ns, d, start)
    ensures var r := Resolved(ns, start, path, 0); r.Some? ==> ReachableNonLink(ns, d, r.value)
  {
    var s := set i | 0 <= i < |ns| && ReachableNonLink(ns, d, i);
    forall i, n | i in s && n in Children(ns, i) && Plain(n)
      ensures InOrLink(ns, s, Children(ns, i)[n])
    {
      assert Entry(ns, i, n, Children(ns, i)[n]);
    }
    ResolveStays(ns, s, start, path, 0);
  }

  /** An absolute path never resolves outside the nodes that plain names can address. */
  lemma ResolveAddressable(ns: Arena, d: seq<nat>, start: NodeId, path: string)
    requires Tree(ns, d) && start < |ns|
    requires Addressable(ns, d, start) || (path != "" && path[0] == '/')
    ensures var r := Resolved(ns, start, path, 0); r.Some? ==> Addressable(ns, d, r.value)
  {
    var s := set i | 0 <= i < |ns| && Addressable(ns, d, i);
    AddressableIsClosed(ns, d, s);
    if path != "" && path[0] == '/' {
      assert Resolved(ns, start, path, 0) == Resolved(ns, 0, path, 0);
      ResolveStays(ns, s, 0, path, 0);
    } else {
      ResolveStays(ns, s, start, path, 0);
    }
  }

  lemma AddressableIsClosed(ns: Arena, d: seq<nat>, s: set<NodeId>)
    requires Tree(ns, d) && forall i :: i in s <==> 0 <= i < |ns| && Addressable(ns, d, i)
    ensures Closed(ns, s)
  {
    forall i | i in s && i > 0 ensures Parent(ns, i) in s {
      LinkedParent(ns, d, i);
      assert Names(ns, d, i) == Names(ns, d, Parent(ns, i)) + [ns[i].name];
    }
    forall i, n | i in s && n in Children(ns, i) && Plain(n)
      ensures InOrLink(ns, s, Children(ns, i)[n])
    {
      var c := Children(ns, i)[n];
      assert Entry(ns, i, n, c);
      assert Names(ns, d, c) == Names(ns, d, i) + [n];
    }
  }

  /** The components of a walk that enters no symlink, `..` included, lead where resolution leads. */
  ghost function Tread(ns: Arena, current: NodeId, comps: seq<string>): (r: Option<NodeId>)
    requires WellLinked(ns) && current < |ns|
    ensures r.Some? ==> r.value < |ns|
    decreases |comps|
  {
    if comps == [] then Some(current)
    else if comps[0] == "" || comps[0] == "." then Tread(ns, current, comps[1..])
    else if comps[0] == ".." then Tread(ns, Up(ns, current), comps[1..])
    else if comps[0] !in Children(ns, current) then None
    else
      assert Entry(ns, current, comps[0], Children(ns, current)[comps[0]]);
      if ns[Children(ns, current)[comps[0]]].kind.Symlink? then None
      else Tread(ns, Children(ns, current)[comps[0]], comps[1..])
  }

  /** Such a walk ends at the node whose names are the lexically collapsed ones. */
  lemma {:induction false} TreadCollapses(ns: Arena, d: seq<nat>, current: NodeId, comps: seq<string>, links: nat)
    requires Tree(ns, d) && current < |ns| && ReachableNonLink(ns, d, current) && links <= MAX_SYMLINK_DEPTH
    requires Tread(ns, current, comps).Some?
    ensures Walked(ns, current, comps, links) == Tread(ns, current, comps)
    ensures ReachableNonLink(ns, d, Tread(ns, current, comps).value)
    ensures Names(ns, d, Tread(ns, current, comps).value) == Collapse(Names(ns, d, current), comps)
    decreases |comps|
  {
    if comps == [] {
    } else if comps[0] == "" || comps[0] == "." {
      TreadCollapses(ns, d, current, comps[1..], links);
    } else if comps[0] == ".." {
      if current != 0 {
        LinkedParent(ns, d, current);
        var above := Names(ns, d, Parent(ns, current));
        assert (above + [ns[current].name])[..|above|] == above;
      }
      TreadCollapses(ns, d, Up(ns, current), comps[1..], links);
    } else {
      var c := Children(ns, current)[comps[0]];
      assert Entry(ns, current, comps[0], c);
      TreadCollapses(ns, d, c, comps[1..], links);
    }
  }

  lemma {:induction false} TreadFollowsNames(ns: Arena, d: seq<nat>, i: NodeId, rest: seq<string>)
    requires Tree(ns, d) && i < |ns| && Addressable(ns, d, i)
    ensures Tread(ns, 0, Names(ns, d, i) + rest) == Tread(ns, i, rest)
    decreases d[i]
  {
    if i == 0 {
      assert Names(ns, d, 0) + rest == rest;
    } else {
      var p := Parent(ns, i);
      LinkedParent(ns, d, i);
      assert Names(ns, d, i) == Names(ns, d, p) + [ns[i].name];
      assert Names(ns, d, i) + rest == Names(ns, d, p) + ([ns[i].name] + rest);
      TreadFollowsNames(ns, d, p, [ns[i].name] + rest);
      assert Plain(ns[i].name) && ([ns[i].name] + rest)[1..] == rest;
    }
  }

  // ---- Paths and resolution, inverse to each other ----------------------------------------------------

  /** `path_of`. */
  ghost function PathOf(ns: Arena, d: seq<nat>, i: NodeId): string
    requires Tree(ns, d) && i < |ns|
  {
    Absolute(Names(ns, d, i))
  }

  /** A node's path resolves back to the node exactly when the node is reachable, is not a symlink and
      has only plain names above it: `touch` and `mkdir` also take `.`, `..` and the empty name. */
  lemma PathRoundTrip(ns: Arena, d: seq<nat>, i: NodeId, start: NodeId)
    requires Tree(ns, d) && i < |ns| && start < |ns|
    ensures Resolved(ns, start, PathOf(ns, d, i), 0) == Some(i) <==> Addressable(ns, d, i)
  {
    var path := PathOf(ns, d, i);
    assert path[0] == '/';
    ResolveAddressable(ns, d, start, path);
    if Addressable(ns, d, i) {
      var names := Names(ns, d, i);
      SplitAbsolute(names);
      var tail := if names == [] then [""] else [];
      assert Split(path) == [""] + (names + tail);
      TreadFollowsNames(ns, d, i, tail);
      assert ([""] + (names + tail))[1..] == names + tail;
      assert tail != [] ==> tail[1..] == [];
      assert Tread(ns, 0, Split(path)) == Tread(ns, 0, names + tail) == Tread(ns, i, tail) == Some(i);
      TreadCollapses(ns, d, 0, Split(path), 0);
    }
  }

  /** Lexical normalisation agrees with the walk over the tree. The request enters no symlink, holds no
      backslash or control character, and the working directory is addressable. */
  lemma NormalizationAgrees(ns: Arena, d: seq<nat>, cwd: NodeId, path: string)
    requires Tree(ns, d) && cwd < |ns| && Addressable(ns, d, cwd) && Clean(path)
    requires Tread(ns, if path != "" && path[0] == '/' then 0 else cwd, Split(path)).Some?
    ensures Resolved(ns, cwd, path, 0).Some?
    ensures Normalized(PathOf(ns, d, cwd), path) == PathOf(ns, d, Resolved(ns, cwd, path, 0).value)
    ensures Resolved(ns, 0, Normalized(PathOf(ns, d, cwd), path), 0) == Resolved(ns, cwd, path, 0)
  {
    SanitisedFixes(path);
    var from := if path != "" && path[0] == '/' then 0 else cwd;
    TreadCollapses(ns, d, from, Split(path), 0);
    var found := Resolved(ns, cwd, path, 0).value;
    var names := Names(ns, d, cwd);
    CollapseIsPlain(Names(ns, d, from), Split(path));
    assert Collapse([], Split(Anchored(PathOf(ns, d, cwd), path))) == Names(ns, d, found) by {
      if !(path != "" && path[0] == '/') {
        AnchoredSplit(names, path);
        CollapseOfPlain([], names, Split(path));
        assert [] + names == names;
      }
    }
    PathRoundTrip(ns, d, found, 0);
  }

  lemma AnchoredSplit(names: seq<string>, path: string)
    requires AllPlain(names) && Clean(path) && !(path != "" && path[0] == '/')
    ensures Collapse([], Split(Anchored(Absolute(names), path))) == Collapse([], names + Split(path))
  {
    SanitisedFixes(path);
    SplitBelow(names, path);
    SkipEmpty(names + Split(path));
  }

  lemma SkipEmpty(comps: seq<string>)
    ensures Collapse([], [""] + comps) == Collapse([], comps)
  {
    assert ([""] + comps)[1..] == comps;
  }

  lemma SplitBelow(names: seq<string>, path: string)
    requires AllPlain(names) && Clean(path) && !(path != "" && path[0] == '/')
    ensures Split(Anchored(Absolute(names), path)) == [""] + (names + Split(path))
  {
    AnchoredSplits(Absolute(names), path);
    AbsoluteParts(names);
    ConcatAssoc([""], names, Split(path));
  }

  lemma AbsoluteParts(names: seq<string>)
    requires AllPlain(names)
    ensures (if Absolute(names) == "/" then [""] else Split(Absolute(names))) == [""] + names
  {
    SplitAbsolute(names);
    if names != [] {
      assert Plain(names[0]) && |Join(names)| >= |names[0]| > 0;
    }
  }
}
