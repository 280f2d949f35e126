/**
  The other edits seen through paths, as maps from paths to nodes: what an unlink takes away, what a push adds, and
  what is lost below a record that becomes a file.
 */
module VfsPaths {
  import opened Wrappers
  import opened Paths
  import opened VfsTree
  import opened VfsEdits
  import opened VfsResolve
  import opened VfsMove

  /** `s` can be reached, and `to` is not on the way there. */
  ghost predicate Before(ns: Arena, d: seq<nat>, to: seq<string>, s: NodeId)
    requires Tree(ns, d) && s < |ns|
  {
    Linked(ns, d, s) && !(to <= Names(ns, d, s))
  }

  /** One step down that does not arrive at the name `n` in `p`. */
  lemma StepBefore(ns: Arena, d: seq<nat>, p: NodeId, n: string, s: NodeId, name: string)
    requires Tree(ns, d) && p < |ns| && s < |ns| && Linked(ns, d, p)
    requires Before(ns, d, Names(ns, d, p) + [n], s) && !(s == p && name == n) && name in Children(ns, s)
    ensures var c := Children(ns, s)[name];
      c < |ns| && Before(ns, d, Names(ns, d, p) + [n], c) && Names(ns, d, c) == Names(ns, d, s) + [name]
  {
    assert Entry(ns, s, name, Children(ns, s)[name]);
    StepIsNot(ns, d, p, n, s, name);
  }

  /** Entries may go, as long as every record stays where it says it is. */
  lemma StillLinked(ns: Arena, ns': Arena)
    requires WellLinked(ns) && |ns'| == |ns| && ns'[0].kind.Directory?
    requires forall i :: 0 <= i < |ns| ==> ns'[i].parent == ns[i].parent && ns'[i].name == ns[i].name
    requires forall i, n :: 0 <= i < |ns| && n in Children(ns', i) ==> n in Children(ns, i) && Children(ns', i)[n] == Children(ns, i)[n]
    ensures WellLinked(ns')
  {
    forall i, n | 0 <= i < |ns'| && n in Children(ns', i) ensures Entry(ns', i, n, Children(ns', i)[n]) {
      assert Entry(ns, i, n, Children(ns, i)[n]);
    }
  }

  // ---- Unlinking --------------------------------------------------------------------------------

  lemma {:induction false} LookupWithout(ns: Arena, d: seq<nat>, p: NodeId, n: string, s: NodeId, q: seq<string>)
    requires Tree(ns, d) && p < |ns| && s < |ns| && Linked(ns, d, p) && WellLinked(WithoutEntry(ns, p, n))
    requires Before(ns, d, Names(ns, d, p) + [n], s)
    ensures Lookup(WithoutEntry(ns, p, n), s, q)
         == if Names(ns, d, p) + [n] <= Names(ns, d, s) + q then None else Lookup(ns, s, q)
    decreases |q|
  {
    hide Before;
    var ns', to := WithoutEntry(ns, p, n), Names(ns, d, p) + [n];
    if q == [] {
      NowhereYet(ns, d, to, s);
    } else if s == p && q[0] == n {
      assert Names(ns, d, s) + q == to + q[1..];
    } else if q[0] !in Children(ns, s) {
      assert q[0] !in Children(ns', s);
    } else {
      var c := Children(ns, s)[q[0]];
      StepBefore(ns, d, p, n, s, q[0]);
      assert Names(ns, d, c) + q[1..] == Names(ns, d, s) + q;
      LookupWithout(ns, d, p, n, c, q[1..]);
    }
  }

  lemma NowhereYet(ns: Arena, d: seq<nat>, to: seq<string>, s: NodeId)
    requires Tree(ns, d) && s < |ns| && Before(ns, d, to, s)
    ensures !(to <= Names(ns, d, s) + [])
  {
    assert Names(ns, d, s) + [] == Names(ns, d, s);
  }

  /** After an unlink the path of the entry, and every path through it, leads nowhere; every other path leads where it
      led. */
  lemma UnlinkLosesPaths(ns: Arena, d: seq<nat>, p: NodeId, n: string, q: seq<string>)
    requires Tree(ns, d) && p < |ns| && Linked(ns, d, p)
    ensures WellLinked(WithoutEntry(ns, p, n))
    ensures Lookup(WithoutEntry(ns, p, n), 0, q) == if Names(ns, d, p) + [n] <= q then None else Lookup(ns, 0, q)
  {
    StillLinked(ns, WithoutEntry(ns, p, n));
    LookupWithout(ns, d, p, n, 0, q);
    assert Names(ns, d, 0) + q == q;
  }

  // ---- Pushing ----------------------------------------------------------------------------------

  lemma {:induction false} LookupPushed(ns: Arena, d: seq<nat>, p: NodeId, n: string, kind: NodeKind, meta: Metadata, s: NodeId, q: seq<string>)
    requires Tree(ns, d) && p < |ns| && s < |ns| && Linked(ns, d, p) && ns[p].kind.Directory? && FreshKind(kind, meta)
    requires WellLinked(Pushed(ns, p, n, kind, meta)) && Before(ns, d, Names(ns, d, p) + [n], s)
    ensures
      var to, full := Names(ns, d, p) + [n], Names(ns, d, s) + q;
      Lookup(Pushed(ns, p, n, kind, meta), s, q)
        == if to == full then Some(|ns|) else if to <= full then None else Lookup(ns, s, q)
    decreases |q|
  {
    hide Before;
    var ns', to := Pushed(ns, p, n, kind, meta), Names(ns, d, p) + [n];
    if q == [] {
      NowhereYet(ns, d, to, s);
    } else if s == p && q[0] == n {
      assert Names(ns, d, s) + q == to + q[1..];
      assert Children(ns', |ns|) == map[];
    } else if q[0] !in Children(ns, s) {
      NotArrived(ns, d, p, n, s, q);
      assert q[0] !in Children(ns', s);
    } else {
      var c := Children(ns, s)[q[0]];
      StepBefore(ns, d, p, n, s, q[0]);
      assert Names(ns, d, c) + q[1..] == Names(ns, d, s) + q;
      LookupPushed(ns, d, p, n, kind, meta, c, q[1..]);
    }
  }

  /** A path that leaves the tree before `p` does not go through `p`. */
  lemma NotArrived(ns: Arena, d: seq<nat>, p: NodeId, n: string, s: NodeId, q: seq<string>)
    requires Tree(ns, d) && p < |ns| && s < |ns| && Linked(ns, d, p) && Before(ns, d, Names(ns, d, p) + [n], s)
    requires q != [] && q[0] !in Children(ns, s) && !(s == p && q[0] == n)
    ensures !(Names(ns, d, p) + [n] <= Names(ns, d, s) + q)
  {
    StepIsNot(ns, d, p, n, s, q[0]);
    if Names(ns, d, p) + [n] <= Names(ns, d, s) + q {
      StepExtends(ns, d, p, n, s, q);
    }
  }

  /** After a push the new name leads to the new node, nothing is below it, and every other path leads where it led; a
      node that had the name is cut off with all that was below it. */
  lemma PushAddsPath(ns: Arena, d: seq<nat>, p: NodeId, n: string, kind: NodeKind, meta: Metadata, q: seq<string>)
    requires Tree(ns, d) && p < |ns| && Linked(ns, d, p) && ns[p].kind.Directory? && FreshKind(kind, meta)
    ensures WellLinked(Pushed(ns, p, n, kind, meta))
    ensures
      var to := Names(ns, d, p) + [n];
      Lookup(Pushed(ns, p, n, kind, meta), 0, q)
        == if q == to then Some(|ns|) else if to <= q then None else Lookup(ns, 0, q)
    ensures
      var made := Pushed(ns, p, n, kind, meta)[|ns|];
      made.name == n && made.parent == Some(p) && made.kind == kind && made.meta == meta
  {
    PushKeepsTree(ns, d, p, n, kind, meta);
    LookupPushed(ns, d, p, n, kind, meta, 0, q);
    assert Names(ns, d, 0) + q == q;
  }

  // ---- Replacing --------------------------------------------------------------------------------

  /** When a record becomes a file, its own path leads to it as before, what was below it is lost, and every other path
      leads where it led. */
  lemma {:induction false} ReplacedLookup(ns: Arena, d: seq<nat>, i: NodeId, kind: NodeKind, meta: Metadata, s: NodeId, q: seq<string>)
    requires Tree(ns, d) && 0 < i < |ns| && s < |ns| && Linked(ns, d, i) && Linked(ns, d, s) && !kind.Directory?
    requires WellLinked(Replaced(ns, i, kind, meta)) && (s == i || !(Names(ns, d, i) <= Names(ns, d, s)))
    ensures
      var full := Names(ns, d, s) + q;
      Lookup(Replaced(ns, i, kind, meta), s, q)
        == if Names(ns, d, i) <= full && Names(ns, d, i) != full then None else Lookup(ns, s, q)
    decreases |q|
  {
    var ns', at := Replaced(ns, i, kind, meta), Names(ns, d, i);
    if q == [] {
      assert Names(ns, d, s) + q == Names(ns, d, s);
    } else if s == i {
      assert Children(ns', i) == map[] && at <= at + q && |at + q| > |at|;
    } else if q[0] !in Children(ns, s) {
    } else {
      var c := Children(ns, s)[q[0]];
      assert Entry(ns, s, q[0], c) && Linked(ns, d, c);
      assert Names(ns, d, c) + q[1..] == Names(ns, d, s) + q;
      if c != i && at <= Names(ns, d, c) {
        LastStep(at, Names(ns, d, s), q[0]);
        PrefixIsAncestor(ns, d, i, c);
      }
      ReplacedLookup(ns, d, i, kind, meta, c, q[1..]);
    }
  }

  lemma LastStep(at: seq<string>, here: seq<string>, name: string)
    requires at <= here + [name] && !(at <= here)
    ensures at == here + [name]
  {
  }

  lemma FileCutsPaths(ns: Arena, d: seq<nat>, i: NodeId, kind: NodeKind, meta: Metadata, q: seq<string>)
    requires Tree(ns, d) && 0 < i < |ns| && Linked(ns, d, i) && !kind.Directory?
    ensures WellLinked(Replaced(ns, i, kind, meta))
    ensures Lookup(Replaced(ns, i, kind, meta), 0, q)
         == if Names(ns, d, i) <= q && q != Names(ns, d, i) then None else Lookup(ns, 0, q)
  {
    StillLinked(ns, Replaced(ns, i, kind, meta));
    ReplacedLookup(ns, d, i, kind, meta, 0, q);
    assert Names(ns, d, 0) + q == q;
  }
}
