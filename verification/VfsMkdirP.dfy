/**
  When the node that `mkdir -p` returns is the node its path resolves to.
 */
module VfsMkdirP {
  import opened Wrappers
  import opened Paths
  import opened VfsTree
  import opened VfsEdits
  import opened VfsResolve

  predicate NoDotDot(comps: seq<string>) {
    ".." !in comps
  }

  /** Checked on the arena before the call: no component is `..`, every existing component but the last
      is a directory, and the last, if it exists, is not a symlink. */
  ghost predicate Open(ns: Arena, current: NodeId, comps: seq<string>)
    requires WellLinked(ns) && current < |ns|
    decreases |comps|
  {
    if comps == [] then !ns[current].kind.Symlink?
    else if comps[0] == "" || comps[0] == "." then Open(ns, current, comps[1..])
    else if comps[0] == ".." || !ns[current].kind.Directory? then false
    else if comps[0] in Children(ns, current) then
      assert Entry(ns, current, comps[0], Children(ns, current)[comps[0]]);
      Open(ns, Children(ns, current)[comps[0]], comps[1..])
    else NoDotDot(comps[1..])
  }

  lemma {:induction false} OpenIsNoLink(ns: Arena, current: NodeId, comps: seq<string>)
    requires WellLinked(ns) && current < |ns| && Open(ns, current, comps)
    ensures !ns[current].kind.Symlink?
    decreases |comps|
  {
    if comps != [] && (comps[0] == "" || comps[0] == ".") {
      OpenIsNoLink(ns, current, comps[1..]);
    }
  }

  lemma {:induction false} OpenFromEmpty(ns: Arena, current: NodeId, comps: seq<string>)
    requires WellLinked(ns) && current < |ns| && ns[current].kind == Directory(map[])
    ensures Open(ns, current, comps) <==> NoDotDot(comps)
    decreases |comps|
  {
    if comps != [] {
      assert comps == [comps[0]] + comps[1..];
      if comps[0] == "" || comps[0] == "." {
        OpenFromEmpty(ns, current, comps[1..]);
      }
    }
  }

  lemma {:induction false} TreadStep(ns: Arena, start: NodeId, comps: seq<string>, comp: string)
    requires WellLinked(ns) && start < |ns| && Tread(ns, start, comps).Some?
    ensures Tread(ns, start, comps + [comp]) == Tread(ns, Tread(ns, start, comps).value, [comp])
    decreases |comps|
  {
    if comps == [] {
      assert comps + [comp] == [comp];
    } else {
      assert (comps + [comp])[1..] == comps[1..] + [comp];
      if comps[0] == "" || comps[0] == "." {
        TreadStep(ns, start, comps[1..], comp);
      } else if comps[0] == ".." {
        TreadStep(ns, Up(ns, start), comps[1..], comp);
      } else {
        assert Entry(ns, start, comps[0], Children(ns, start)[comps[0]]);
        TreadStep(ns, Children(ns, start)[comps[0]], comps[1..], comp);
      }
    }
  }

  /** A push under a fresh name leaves every successful walk as it was. */
  lemma {:induction false} TreadSurvivesPush(ns: Arena, start: NodeId, comps: seq<string>,
                                             p: NodeId, name: string, kind: NodeKind, meta: Metadata)
    requires WellLinked(ns) && start < |ns| && p < |ns| && name !in Children(ns, p)
    requires WellLinked(Pushed(ns, p, name, kind, meta))
    requires Tread(ns, start, comps).Some?
    ensures Tread(Pushed(ns, p, name, kind, meta), start, comps) == Tread(ns, start, comps)
    decreases |comps|
  {
    var ns' := Pushed(ns, p, name, kind, meta);
    if comps == [] {
    } else if comps[0] == "" || comps[0] == "." {
      TreadSurvivesPush(ns, start, comps[1..], p, name, kind, meta);
    } else if comps[0] == ".." {
      assert Up(ns', start) == Up(ns, start);
      TreadSurvivesPush(ns, Up(ns, start), comps[1..], p, name, kind, meta);
    } else {
      var c := Children(ns, start)[comps[0]];
      assert Entry(ns, start, comps[0], c);
      assert comps[0] in Children(ns', start) && Children(ns', start)[comps[0]] == c;
      TreadSurvivesPush(ns, c, comps[1..], p, name, kind, meta);
    }
  }

  /** Outside what plain names can address, whatever its kind. */
  ghost predicate Hidden(ns: Arena, d: seq<nat>, i: NodeId)
    requires Tree(ns, d) && i < |ns|
  {
    !Linked(ns, d, i) || !AllPlain(Names(ns, d, i))
  }

  lemma HiddenBelow(ns: Arena, d: seq<nat>, p: NodeId, c: NodeId)
    requires Tree(ns, d) && 0 < c < |ns| && Parent(ns, c) == p
    requires Hidden(ns, d, p) || ns[c].name == ".." || !IsChild(ns, c)
    ensures Hidden(ns, d, c)
  {
    var above := Names(ns, d, p);
    assert Names(ns, d, c) == above + [ns[c].name];
    if AllPlain(Names(ns, d, c)) {
      assert ns[c].name in Names(ns, d, c);
      assert forall n :: n in above ==> n in Names(ns, d, c);
    }
  }

  lemma {:induction false} NamesSurvivePush(ns: Arena, d: seq<nat>, i: NodeId,
                                            p: NodeId, name: string, kind: NodeKind, meta: Metadata)
    requires Tree(ns, d) && i < |ns| && p < |ns|
    requires Tree(Pushed(ns, p, name, kind, meta), d + [d[p] + 1])
    ensures Names(Pushed(ns, p, name, kind, meta), d + [d[p] + 1], i) == Names(ns, d, i)
    decreases d[i]
  {
    if i != 0 {
      NamesSurvivePush(ns, d, Parent(ns, i), p, name, kind, meta);
    }
  }

  lemma HiddenSurvivesPush(ns: Arena, d: seq<nat>, i: NodeId, p: NodeId, name: string, kind: NodeKind, meta: Metadata)
    requires Tree(ns, d) && i < |ns| && p < |ns| && FreshKind(kind, meta)
    requires Tree(Pushed(ns, p, name, kind, meta), d + [d[p] + 1])
    requires Hidden(ns, d, i)
    ensures Hidden(Pushed(ns, p, name, kind, meta), d + [d[p] + 1], i)
  {
    var ns', d' := Pushed(ns, p, name, kind, meta), d + [d[p] + 1];
    NamesSurvivePush(ns, d, i, p, name, kind, meta);
    if Linked(ns', d', i) {
      forall j | 0 < j < |ns| && IsChild(ns', j) ensures IsChild(ns, j) {
        PushedEdges(ns, d, p, name, kind, meta, j);
      }
      BelowMono(ns, d, ns', d', 0, i);
    }
  }

  /** What the loop of `mkdir -p` keeps: as long as the path was open, the walk so far ends at `current`
      and the rest is open; once it is not, `current` is, or ends up, where no path can reach. */
  ghost predicate OnPath(ns: Arena, d: seq<nat>, current: NodeId, done: seq<string>, todo: seq<string>, wasOpen: bool)
    requires Tree(ns, d) && current < |ns|
  {
    if wasOpen then Tread(ns, 0, done) == Some(current) && Open(ns, current, todo)
    else Hidden(ns, d, current) || !Open(ns, current, todo)
  }

  lemma OnPathStart(ns: Arena, d: seq<nat>, comps: seq<string>)
    requires Tree(ns, d)
    ensures OnPath(ns, d, 0, [], comps, Open(ns, 0, comps)) && Names(ns, d, 0) == [] == Steps([])
  {
  }

  lemma OnPathSkip(ns: Arena, d: seq<nat>, current: NodeId, done: seq<string>, comp: string, todo: seq<string>, wasOpen: bool)
    requires Tree(ns, d) && current < |ns| && (comp == "" || comp == ".")
    requires OnPath(ns, d, current, done, [comp] + todo, wasOpen)
    ensures OnPath(ns, d, current, done + [comp], todo, wasOpen)
  {
    assert ([comp] + todo)[1..] == todo;
    if wasOpen {
      TreadStep(ns, 0, done, comp);
      assert [comp][1..] == [];
    }
  }

  lemma OnPathExisting(ns: Arena, d: seq<nat>, current: NodeId, done: seq<string>, comp: string, todo: seq<string>, wasOpen: bool)
    requires Tree(ns, d) && current < |ns| && comp != "" && comp != "." && comp in Children(ns, current)
    requires OnPath(ns, d, current, done, [comp] + todo, wasOpen)
    ensures Entry(ns, current, comp, Children(ns, current)[comp]) && Children(ns, current)[comp] != current
    ensures OnPath(ns, d, Children(ns, current)[comp], done + [comp], todo, wasOpen)
  {
    var c := Children(ns, current)[comp];
    assert Entry(ns, current, comp, c);
    assert ([comp] + todo)[1..] == todo;
    if wasOpen {
      OpenIsNoLink(ns, c, todo);
      TreadStep(ns, 0, done, comp);
      assert [comp][1..] == [];
    } else if Hidden(ns, d, current) || comp == ".." {
      HiddenBelow(ns, d, current, c);
    }
  }

  lemma OnPathPushed(ns: Arena, d: seq<nat>, current: NodeId, done: seq<string>, comp: string, todo: seq<string>,
                     wasOpen: bool, meta: Metadata)
    requires Tree(ns, d) && current < |ns| && comp != "" && comp != "." && comp !in Children(ns, current)
    requires FreshKind(Directory(map[]), meta)
    requires OnPath(ns, d, current, done, [comp] + todo, wasOpen)
    requires Tree(Pushed(ns, current, comp, Directory(map[]), meta), d + [d[current] + 1])
    ensures OnPath(Pushed(ns, current, comp, Directory(map[]), meta), d + [d[current] + 1], |ns|, done + [comp], todo, wasOpen)
  {
    var ns', d' := Pushed(ns, current, comp, Directory(map[]), meta), d + [d[current] + 1];
    assert ([comp] + todo)[1..] == todo;
    OpenFromEmpty(ns', |ns|, todo);
    if wasOpen {
      TreadSurvivesPush(ns, 0, done, current, comp, Directory(map[]), meta);
      TreadStep(ns', 0, done, comp);
      assert [comp][1..] == [];
    } else {
      if Hidden(ns, d, current) {
        HiddenSurvivesPush(ns, d, current, current, comp, Directory(map[]), meta);
      }
      if Hidden(ns, d, current) || comp == ".." || !ns[current].kind.Directory? {
        HiddenBelow(ns', d', current, |ns|);
      }
    }
  }

  /** One turn of the loop: `mkdir` found the component, was refused, or pushed it. */
  lemma OnPathMkdir(ns: Arena, d: seq<nat>, current: NodeId, done: seq<string>, comp: string, todo: seq<string>,
                    wasOpen: bool, meta: Metadata, refused: bool, ns': Arena, d': seq<nat>, next: NodeId)
    requires Tree(ns, d) && Tree(ns', d') && current < |ns| && comp != "" && comp != "."
    requires FreshKind(Directory(map[]), meta)
    requires OnPath(ns, d, current, done, [comp] + todo, wasOpen)
    requires
      if comp in Children(ns, current) then next == Children(ns, current)[comp] && ns' == ns && d' == d
      else if refused then next == current && ns' == ns && d' == d
      else next == |ns| && ns' == Pushed(ns, current, comp, Directory(map[]), meta) && d' == d + [d[current] + 1]
    ensures next < |ns'| && |ns| <= |ns'|
    ensures if next == current then refused && ns' == ns && d' == d
            else OnPath(ns', d', next, done + [comp], todo, wasOpen)
  {
    if comp in Children(ns, current) {
      OnPathExisting(ns, d, current, done, comp, todo, wasOpen);
    } else if !refused {
      OnPathPushed(ns, d, current, done, comp, todo, wasOpen, meta);
    }
  }

  /** At the end of the path, the node is the one the path resolves to exactly when the path was open. */
  lemma OnPathEnd(ns: Arena, d: seq<nat>, current: NodeId, path: string, wasOpen: bool)
    requires Tree(ns, d) && current < |ns|
    requires OnPath(ns, d, current, Split(path), [], wasOpen)
    ensures Resolved(ns, 0, path, 0) == Some(current) <==> wasOpen
  {
    if wasOpen {
      TreadCollapses(ns, d, 0, Split(path), 0);
    } else {
      ResolveAddressable(ns, d, 0, path);
    }
  }

  // ---- The names of what is met ---------------------------------------------------------------------

  /** The components that are steps: the empty one and `.` are not. */
  function Steps(comps: seq<string>): seq<string> {
    if comps == [] then []
    else
      var last := comps[|comps| - 1];
      Steps(comps[..|comps| - 1]) + if last == "" || last == "." then [] else [last]
  }

  lemma StepsPush(comps: seq<string>, comp: string)
    ensures Steps(comps + [comp]) == Steps(comps) + if comp == "" || comp == "." then [] else [comp]
  {
    assert (comps + [comp])[..|comps|] == comps;
  }

  /** One turn of the loop: the next node's recorded names are the path's, one component longer; a refusal is
      the refusal of a component that is not there. */
  /** What was there is as it was, but that directories may list new nodes under names they did not have; and every new
      node is a directory with `meta`. */
  ghost predicate OnlyGrown(ns: Arena, ns': Arena, meta: Metadata) {
    && |ns| <= |ns'|
    && (forall i :: 0 <= i < |ns| ==> Kept(ns, ns', i))
    && (forall j :: |ns| <= j < |ns'| ==> ns'[j].kind.Directory? && ns'[j].meta == meta)
  }

  ghost predicate Kept(ns: Arena, ns': Arena, i: NodeId)
    requires i < |ns| <= |ns'|
  {
    && ns'[i].name == ns[i].name && ns'[i].parent == ns[i].parent && ns'[i].meta == ns[i].meta
    && if !ns[i].kind.Directory? then ns'[i].kind == ns[i].kind
       else
         && ns'[i].kind.Directory?
         && (forall n :: n in Children(ns, i) ==> n in Children(ns', i) && Children(ns', i)[n] == Children(ns, i)[n])
         && (forall n :: n in Children(ns', i) && n !in Children(ns, i) ==> Children(ns', i)[n] >= |ns|)
  }

  lemma GrownSelf(ns: Arena, meta: Metadata)
    ensures OnlyGrown(ns, ns, meta)
  {
  }

  lemma GrownByPush(ns0: Arena, ns: Arena, p: NodeId, name: string, meta: Metadata)
    requires OnlyGrown(ns0, ns, meta) && p < |ns| && name !in Children(ns, p)
    ensures OnlyGrown(ns0, Pushed(ns, p, name, Directory(map[]), meta), meta)
  {
    var ns' := Pushed(ns, p, name, Directory(map[]), meta);
    forall i | 0 <= i < |ns0| ensures Kept(ns0, ns', i) {
      assert Kept(ns0, ns, i);
    }
  }

  lemma NamesMkdir(ns: Arena, d: seq<nat>, current: NodeId, comp: string, meta: Metadata, refused: bool,
                   ns': Arena, d': seq<nat>, next: NodeId)
    requires Tree(ns, d) && Tree(ns', d') && current < |ns|
    requires
      if comp in Children(ns, current) then next == Children(ns, current)[comp] && ns' == ns && d' == d
      else if refused then next == current && ns' == ns && d' == d
      else next == |ns| && ns' == Pushed(ns, current, comp, Directory(map[]), meta) && d' == d + [d[current] + 1]
    ensures next < |ns'|
    ensures if next == current then comp !in Children(ns, current)
            else Names(ns', d', next) == Names(ns, d, current) + [comp]
  {
    if comp in Children(ns, current) {
      assert Entry(ns, current, comp, next);
      assert d[next] == d[current] + 1;
    } else if !refused {
      assert Parent(ns', next) == current;
      NamesSurvivePush(ns, d, current, current, comp, Directory(map[]), meta);
    }
  }

  /** The `k`-th component of the path is missing below `p`, which the components before it lead to, and `p`
      takes no more children. */
  ghost predicate StuckAt(ns: Arena, d: seq<nat>, comps: seq<string>, k: nat, p: NodeId)
    requires Tree(ns, d) && p < |ns| && k < |comps|
  {
    && Names(ns, d, p) == Steps(comps[..k])
    && comps[k] != "" && comps[k] != "." && comps[k] !in Children(ns, p)
    && (|ns| >= MAX_VFS_NODES || d[p] >= MAX_VFS_DEPTH)
  }
}
