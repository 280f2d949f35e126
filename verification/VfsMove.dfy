/**
  `rename` seen through paths: as a map from paths to nodes, the tree after the move is the tree
  before it with one subtree cut out and put down somewhere else.
 */
module VfsMove {
  import opened Wrappers
  import opened Paths
  import opened VfsTree
  import opened VfsEdits
  import opened VfsResolve

  lemma {:induction false} LookupGoesDown(ns: Arena, d: seq<nat>, a: NodeId, names: seq<string>)
    requires Tree(ns, d) && a < |ns| && Lookup(ns, a, names).Some?
    ensures Anc(ns, d, a, Lookup(ns, a, names).value)
    decreases |names|
  {
    if names != [] {
      var c := Children(ns, a)[names[0]];
      assert Entry(ns, a, names[0], c);
      LookupGoesDown(ns, d, c, names[1..]);
      AncTrans(ns, d, a, c, Lookup(ns, a, names).value);
    }
  }

  /** A reachable node whose path extends another's lies below it. */
  lemma PrefixIsAncestor(ns: Arena, d: seq<nat>, a: NodeId, b: NodeId)
    requires Tree(ns, d) && a < |ns| && b < |ns| && Linked(ns, d, a) && Linked(ns, d, b)
    requires Names(ns, d, a) <= Names(ns, d, b)
    ensures Anc(ns, d, a, b)
    ensures Names(ns, d, a) == Names(ns, d, b) ==> a == b
  {
    var rest := Names(ns, d, b)[|Names(ns, d, a)|..];
    assert Names(ns, d, b) == Names(ns, d, a) + rest;
    LookupFindsNames(ns, d, a);
    LookupFindsNames(ns, d, b);
    LookupConcat(ns, 0, Names(ns, d, a), rest);
    LookupGoesDown(ns, d, a, rest);
  }

  /** Inside the moved subtree nothing changes. */
  lemma {:induction false} LookupInside(ns: Arena, d: seq<nat>, id: NodeId, np: NodeId, nn: string, s: NodeId, q: seq<string>)
    requires Tree(ns, d) && 0 < id < |ns| && np < |ns| && ns[np].kind.Directory? && s < |ns|
    requires !Anc(ns, d, id, np) && WellLinked(Moved(ns, id, np, nn)) && Anc(ns, d, id, s)
    ensures Lookup(Moved(ns, id, np, nn), s, q) == Lookup(ns, s, q)
    decreases |q|
  {
    AncRank(ns, d, id, s);
    assert Children(Moved(ns, id, np, nn), s) == Children(ns, s);
    if q != [] && q[0] in Children(ns, s) {
      var c := Children(ns, s)[q[0]];
      assert Entry(ns, s, q[0], c);
      LookupInside(ns, d, id, np, nn, c, q[1..]);
    }
  }

  /** Where the path `q` leads after the move. */
  ghost function MovedLookup(ns: Arena, d: seq<nat>, id: NodeId, np: NodeId, nn: string, s: NodeId, q: seq<string>): Option<NodeId>
    requires Tree(ns, d) && id < |ns| && np < |ns| && s < |ns|
  {
    var from, to, full := Names(ns, d, id), Names(ns, d, np) + [nn], Names(ns, d, s) + q;
    if to <= full then Lookup(ns, id, full[|to|..])
    else if from <= full then None
    else Lookup(ns, s, q)
  }

  /** The conditions under which a walk has not yet left the part of the tree the move keeps. */
  ghost predicate Outside(ns: Arena, d: seq<nat>, id: NodeId, np: NodeId, nn: string, s: NodeId)
    requires Tree(ns, d) && id < |ns| && np < |ns| && s < |ns|
  {
    && Linked(ns, d, id) && Linked(ns, d, np) && Linked(ns, d, s)
    && !Anc(ns, d, id, np) && !Anc(ns, d, id, s)
    && !(Names(ns, d, np) + [nn] <= Names(ns, d, s))
  }

  lemma {:induction false} LookupAfterMove(ns: Arena, d: seq<nat>, id: NodeId, np: NodeId, nn: string, s: NodeId, q: seq<string>)
    requires Tree(ns, d) && 0 < id < |ns| && np < |ns| && ns[np].kind.Directory? && s < |ns|
    requires WellLinked(Moved(ns, id, np, nn)) && Outside(ns, d, id, np, nn, s)
    ensures Lookup(Moved(ns, id, np, nn), s, q) == MovedLookup(ns, d, id, np, nn, s, q)
    decreases |q|
  {
    if q == [] {
      StayAfterMove(ns, d, id, np, nn, s);
    } else if s == np && q[0] == nn {
      ArriveAfterMove(ns, d, id, np, nn, q);
    } else if (s == Parent(ns, id) && q[0] == ns[id].name) || q[0] !in Children(ns, s) {
      LostAfterMove(ns, d, id, np, nn, s, q);
    } else {
      var c := Children(ns, s)[q[0]];
      StepAfterMove(ns, d, id, np, nn, s, q[0]);
      LookupAfterMove(ns, d, id, np, nn, c, q[1..]);
      SameMovedLookup(ns, d, id, np, nn, s, c, q);
    }
  }

  lemma SameMovedLookup(ns: Arena, d: seq<nat>, id: NodeId, np: NodeId, nn: string, s: NodeId, c: NodeId, q: seq<string>)
    requires Tree(ns, d) && id < |ns| && np < |ns| && s < |ns| && c < |ns| && q != []
    requires q[0] in Children(ns, s) && Children(ns, s)[q[0]] == c
    requires Names(ns, d, c) == Names(ns, d, s) + [q[0]]
    ensures MovedLookup(ns, d, id, np, nn, s, q) == MovedLookup(ns, d, id, np, nn, c, q[1..])
  {
    assert Names(ns, d, c) + q[1..] == Names(ns, d, s) + q;
  }

  lemma StayAfterMove(ns: Arena, d: seq<nat>, id: NodeId, np: NodeId, nn: string, s: NodeId)
    requires Tree(ns, d) && 0 < id < |ns| && np < |ns| && s < |ns| && Outside(ns, d, id, np, nn, s)
    ensures MovedLookup(ns, d, id, np, nn, s, []) == Some(s)
  {
    assert Names(ns, d, s) + [] == Names(ns, d, s);
    if Names(ns, d, id) <= Names(ns, d, s) {
      PrefixIsAncestor(ns, d, id, s);
    }
  }

  lemma ArriveAfterMove(ns: Arena, d: seq<nat>, id: NodeId, np: NodeId, nn: string, q: seq<string>)
    requires Tree(ns, d) && 0 < id < |ns| && np < |ns| && ns[np].kind.Directory? && q != [] && q[0] == nn
    requires WellLinked(Moved(ns, id, np, nn)) && !Anc(ns, d, id, np)
    ensures Lookup(Moved(ns, id, np, nn), np, q) == MovedLookup(ns, d, id, np, nn, np, q)
  {
    var to := Names(ns, d, np) + [nn];
    assert Names(ns, d, np) + q == to + q[1..];
    assert Children(Moved(ns, id, np, nn), np)[nn] == id;
    LookupInside(ns, d, id, np, nn, id, q[1..]);
  }

  lemma LostAfterMove(ns: Arena, d: seq<nat>, id: NodeId, np: NodeId, nn: string, s: NodeId, q: seq<string>)
    requires Tree(ns, d) && 0 < id < |ns| && np < |ns| && ns[np].kind.Directory? && s < |ns| && q != []
    requires WellLinked(Moved(ns, id, np, nn)) && Outside(ns, d, id, np, nn, s)
    requires !(s == np && q[0] == nn)
    requires (s == Parent(ns, id) && q[0] == ns[id].name) || q[0] !in Children(ns, s)
    ensures Lookup(Moved(ns, id, np, nn), s, q) == MovedLookup(ns, d, id, np, nn, s, q) == None
  {
    hide Moved, Outside, Names;
    var from, to, here := Names(ns, d, id), Names(ns, d, np) + [nn], Names(ns, d, s);
    NotThereAfterMove(ns, d, id, np, nn, s, q[0]);
    assert here + q == (here + [q[0]]) + q[1..];
    StepIsNot(ns, d, np, nn, s, q[0]);
    if to <= here + q {
      StepExtends(ns, d, np, nn, s, q);
      PrefixIsAncestor(ns, d, id, np);
    }
    if q[0] in Children(ns, s) {
      assert from == here + [q[0]];
    }
  }

  lemma NotThereAfterMove(ns: Arena, d: seq<nat>, id: NodeId, np: NodeId, nn: string, s: NodeId, name: string)
    requires Tree(ns, d) && 0 < id < |ns| && np < |ns| && s < |ns| && Outside(ns, d, id, np, nn, s)
    requires !(s == np && name == nn)
    requires (s == Parent(ns, id) && name == ns[id].name) || name !in Children(ns, s)
    ensures name !in Children(Moved(ns, id, np, nn), s)
    ensures Linked(ns, d, id) && Linked(ns, d, np) && Linked(ns, d, s)
    ensures !Anc(ns, d, id, np) && !(Names(ns, d, np) + [nn] <= Names(ns, d, s))
    ensures name in Children(ns, s) ==> Names(ns, d, id) == Names(ns, d, s) + [name]
  {
  }

  lemma StepAfterMove(ns: Arena, d: seq<nat>, id: NodeId, np: NodeId, nn: string, s: NodeId, name: string)
    requires Tree(ns, d) && 0 < id < |ns| && np < |ns| && ns[np].kind.Directory? && s < |ns|
    requires Outside(ns, d, id, np, nn, s) && name in Children(ns, s)
    requires !(s == np && name == nn) && !(s == Parent(ns, id) && name == ns[id].name)
    ensures Entry(ns, s, name, Children(ns, s)[name])
    ensures Outside(ns, d, id, np, nn, Children(ns, s)[name])
    ensures Names(ns, d, Children(ns, s)[name]) == Names(ns, d, s) + [name]
    ensures name in Children(Moved(ns, id, np, nn), s)
    ensures Children(Moved(ns, id, np, nn), s)[name] == Children(ns, s)[name]
  {
    assert Entry(ns, s, name, Children(ns, s)[name]);
    StepIsNot(ns, d, np, nn, s, name);
  }

  /** Only the step from `np` by `nn` arrives at the destination. */
  lemma StepIsNot(ns: Arena, d: seq<nat>, np: NodeId, nn: string, s: NodeId, name: string)
    requires Tree(ns, d) && np < |ns| && s < |ns| && Linked(ns, d, np) && Linked(ns, d, s)
    requires !(Names(ns, d, np) + [nn] <= Names(ns, d, s)) && !(s == np && name == nn)
    ensures !(Names(ns, d, np) + [nn] <= Names(ns, d, s) + [name])
  {
    var to, step := Names(ns, d, np) + [nn], Names(ns, d, s) + [name];
    if to <= step && |to| == |step| {
      assert Names(ns, d, np) == to[..|to| - 1] == step[..|to| - 1] == Names(ns, d, s);
      assert nn == to[|to| - 1] == name;
      PrefixIsAncestor(ns, d, np, s);
    }
  }

  lemma ShortPrefix<T>(a: seq<T>, b: seq<T>, c: seq<T>)
    requires a <= b + c && |a| <= |b|
    ensures a <= b
  {
  }

  /** A longer path to the destination goes through an existing child on its way to `np`. */
  lemma StepExtends(ns: Arena, d: seq<nat>, np: NodeId, nn: string, s: NodeId, q: seq<string>)
    requires Tree(ns, d) && np < |ns| && s < |ns| && Linked(ns, d, np) && Linked(ns, d, s) && q != []
    requires !(Names(ns, d, np) + [nn] <= Names(ns, d, s) + [q[0]])
    requires Names(ns, d, np) + [nn] <= Names(ns, d, s) + q
    ensures Names(ns, d, s) + [q[0]] <= Names(ns, d, np)
    ensures q[0] in Children(ns, s)
  {
    hide Names, Below;
    var to, here := Names(ns, d, np) + [nn], Names(ns, d, s);
    var via := here + [q[0]];
    assert here + q == via + q[1..];
    if |to| <= |via| {
      ShortPrefix(to, via, q[1..]);
    }
    assert to[..|via|] == via;
    assert via == Names(ns, d, np)[..|via|];
    var rest := Names(ns, d, np)[|here|..];
    assert rest[0] == q[0];
    assert Names(ns, d, np) == here + rest;
    LookupFindsNames(ns, d, np);
    LookupFindsNames(ns, d, s);
    LookupConcat(ns, 0, here, rest);
  }

  /** The subtree move: every path into the destination leads into what was at the source, every other
      path into the source leads nowhere, and every other path leads where it led. */
  lemma RenameMovesPaths(ns: Arena, d: seq<nat>, id: NodeId, np: NodeId, nn: string, q: seq<string>)
    requires Tree(ns, d) && 0 < id < |ns| && np < |ns| && ns[np].kind.Directory?
    requires Linked(ns, d, id) && Linked(ns, d, np) && !Anc(ns, d, id, np)
    ensures Tree(Moved(ns, id, np, nn), MovedRank(ns, d, id, np))
    ensures
      var from, to := Names(ns, d, id), Names(ns, d, np) + [nn];
      Lookup(Moved(ns, id, np, nn), 0, q) ==
        if to <= q then Lookup(ns, 0, from + q[|to|..])
        else if from <= q then None
        else Lookup(ns, 0, q)
  {
    MoveKeepsTree(ns, d, id, np, nn);
    LookupAfterMove(ns, d, id, np, nn, 0, q);
    assert Names(ns, d, 0) + q == q;
    var from, to := Names(ns, d, id), Names(ns, d, np) + [nn];
    if to <= q {
      LookupFindsNames(ns, d, id);
      LookupConcat(ns, 0, from, q[|to|..]);
    }
  }
}
