/**
  Where symlinks lead: a link stands for the walk its target describes, one link or many, up to the cap.
 */
module VfsLinks {
  import opened Wrappers
  import opened Paths
  import opened VfsTree
  import opened VfsResolve

  /** A relative target is walked from the directory the link is in, an absolute one from the root. */
  function From(p: NodeId, target: string): NodeId {
    if target != "" && target[0] == '/' then 0 else p
  }

  /** `p` lists a symlink under `n`. */
  ghost predicate LinkAt(ns: Arena, p: NodeId, n: string)
    requires WellLinked(ns) && p < |ns|
  {
    && Plain(n) && n in Children(ns, p)
    && Entry(ns, p, n, Children(ns, p)[n])
    && ns[Children(ns, p)[n]].kind.Symlink?
  }

  ghost function Target(ns: Arena, p: NodeId, n: string): string
    requires WellLinked(ns) && p < |ns| && LinkAt(ns, p, n)
  {
    ns[Children(ns, p)[n]].kind.target
  }

  /** A walk through no symlink is the same however many links have been followed. */
  lemma {:induction false} TreadIsWalked(ns: Arena, current: NodeId, comps: seq<string>, rest: seq<string>, links: nat)
    requires WellLinked(ns) && current < |ns| && links <= MAX_SYMLINK_DEPTH && Tread(ns, current, comps).Some?
    ensures Walked(ns, current, comps + rest, links) == Walked(ns, Tread(ns, current, comps).value, rest, links)
    decreases |comps|
  {
    if comps == [] {
      assert comps + rest == rest;
    } else {
      assert (comps + rest)[1..] == comps[1..] + rest;
      if comps[0] == "" || comps[0] == "." {
        TreadIsWalked(ns, current, comps[1..], rest, links);
      } else if comps[0] == ".." {
        TreadIsWalked(ns, Up(ns, current), comps[1..], rest, links);
      } else {
        assert Entry(ns, current, comps[0], Children(ns, current)[comps[0]]);
        TreadIsWalked(ns, Children(ns, current)[comps[0]], comps[1..], rest, links);
      }
    }
  }

  lemma WholeTread(ns: Arena, current: NodeId, comps: seq<string>, links: nat)
    requires WellLinked(ns) && current < |ns| && links <= MAX_SYMLINK_DEPTH && Tread(ns, current, comps).Some?
    ensures Walked(ns, current, comps, links) == Tread(ns, current, comps)
  {
    TreadIsWalked(ns, current, comps, [], links);
    assert comps + [] == comps;
  }

  /** One turn of the walk at a symlink: the target is resolved from where the link is, one link deeper, and the
      rest is walked from there. */
  lemma LinkIsFollowed(ns: Arena, p: NodeId, n: string, rest: seq<string>, links: nat)
    requires WellLinked(ns) && p < |ns| && links <= MAX_SYMLINK_DEPTH && LinkAt(ns, p, n)
    ensures
      var t := Target(ns, p, n);
      Walked(ns, p, [n] + rest, links) ==
        if links == MAX_SYMLINK_DEPTH then None
        else
          match Walked(ns, From(p, t), Split(t), links + 1)
          case None => None
          case Some(m) => Walked(ns, m, rest, links)
  {
    var c, t := Children(ns, p)[n], Target(ns, p, n);
    assert ([n] + rest)[1..] == rest && ([n] + rest)[0] == n;
    assert Up(ns, c) == p;
    assert Followed(ns, c, links) == Resolved(ns, p, t, links + 1);
    assert Resolved(ns, p, t, links + 1)
        == if links == MAX_SYMLINK_DEPTH then None else Walked(ns, From(p, t), Split(t), links + 1);
  }

  /** The link is as good as its target: where no other link is on the way to `m`, walking through the link is
      going on from `m`. */
  lemma LinkIsItsTarget(ns: Arena, p: NodeId, n: string, rest: seq<string>, links: nat)
    requires WellLinked(ns) && p < |ns| && links < MAX_SYMLINK_DEPTH && LinkAt(ns, p, n)
    requires Tread(ns, From(p, Target(ns, p, n)), Split(Target(ns, p, n))).Some?
    ensures Walked(ns, p, [n] + rest, links)
         == Walked(ns, Tread(ns, From(p, Target(ns, p, n)), Split(Target(ns, p, n))).value, rest, links)
  {
    var t := Target(ns, p, n);
    LinkIsFollowed(ns, p, n, rest, links);
    WholeTread(ns, From(p, t), Split(t), links + 1);
  }

  /** The same of paths: `link/rest` is `rest` from where the link leads. */
  lemma PathThroughLink(ns: Arena, p: NodeId, n: string, rest: string)
    requires WellLinked(ns) && p < |ns| && LinkAt(ns, p, n) && (rest == "" || rest[0] != '/')
    requires Tread(ns, From(p, Target(ns, p, n)), Split(Target(ns, p, n))).Some?
    ensures
      var m := Tread(ns, From(p, Target(ns, p, n)), Split(Target(ns, p, n))).value;
      && Resolved(ns, p, n, 0) == Some(m)
      && Resolved(ns, p, n + "/" + rest, 0) == Resolved(ns, m, rest, 0)
  {
    SplitConcat(n, rest);
    SplitPlain(n);
    LinkIsItsTarget(ns, p, n, Split(rest), 0);
    LinkIsItsTarget(ns, p, n, [], 0);
    assert [n] + [] == [n];
  }

  lemma SplitPlain(n: string)
    requires '/' !in n
    ensures Split(n) == [n]
  {
    SplitJoin([n]);
  }

  /** A relative target of one name is the sibling of that name. */
  lemma SiblingLink(ns: Arena, p: NodeId, n: string)
    requires WellLinked(ns) && p < |ns| && LinkAt(ns, p, n) && Plain(Target(ns, p, n)) && Target(ns, p, n) in Children(ns, p)
    requires Children(ns, p)[Target(ns, p, n)] < |ns| && !ns[Children(ns, p)[Target(ns, p, n)]].kind.Symlink?
    ensures Resolved(ns, p, n, 0) == Some(Children(ns, p)[Target(ns, p, n)])
  {
    var t := Target(ns, p, n);
    SplitPlain(t);
    assert [t][1..] == [];
    assert Tread(ns, p, [t]) == Some(Children(ns, p)[t]);
    PathThroughLink(ns, p, n, "");
  }

  // ---- Chains -------------------------------------------------------------------------------------

  /** `k` links one after another, starting with `n` in `p`, lead to `m`: each target ends at the next link, and the
      last one's at `m`. */
  ghost predicate Chain(ns: Arena, p: NodeId, n: string, k: nat, m: NodeId)
    requires WellLinked(ns) && p < |ns|
    decreases k
  {
    k > 0 && LinkAt(ns, p, n) &&
    var t := Target(ns, p, n);
    var comps := Split(t);
    if k == 1 then Tread(ns, From(p, t), comps) == Some(m)
    else
      && comps != []
      && Tread(ns, From(p, t), comps[..|comps| - 1]).Some?
      && Chain(ns, Tread(ns, From(p, t), comps[..|comps| - 1]).value, comps[|comps| - 1], k - 1, m)
  }

  lemma WalkedNothing(ns: Arena, m: NodeId, links: nat)
    requires WellLinked(ns) && links <= MAX_SYMLINK_DEPTH
    ensures m < |ns| ==> Walked(ns, m, [], links) == Some(m)
  {
  }

  /** Such a chain is followed to its end exactly when it fits the links left. */
  lemma {:induction false} ChainIsFollowed(ns: Arena, p: NodeId, n: string, k: nat, m: NodeId, links: nat)
    requires WellLinked(ns) && p < |ns| && links <= MAX_SYMLINK_DEPTH && Chain(ns, p, n, k, m)
    ensures Walked(ns, p, [n], links) == if links + k <= MAX_SYMLINK_DEPTH then Some(m) else None
    decreases k
  {
    hide Tread, LinkAt, Split;
    WalkedNothing(ns, m, links);
    var t := Target(ns, p, n);
    var comps := Split(t);
    assert [n] + [] == [n];
    LinkIsFollowed(ns, p, n, [], links);
    if links < MAX_SYMLINK_DEPTH {
      if k == 1 {
        WholeTread(ns, From(p, t), comps, links + 1);
      } else {
        var last := |comps| - 1;
        assert comps == comps[..last] + [comps[last]];
        TreadIsWalked(ns, From(p, t), comps[..last], [comps[last]], links + 1);
        ChainIsFollowed(ns, Tread(ns, From(p, t), comps[..last]).value, comps[last], k - 1, m, links + 1);
      }
    }
  }

  /** From a path: a chain of up to 40 links is followed, and a longer one is not. */
  lemma ChainResolves(ns: Arena, p: NodeId, n: string, k: nat, m: NodeId)
    requires WellLinked(ns) && p < |ns| && Chain(ns, p, n, k, m)
    ensures Resolved(ns, p, n, 0) == if k <= 40 then Some(m) else None
  {
    SplitPlain(n);
    ChainIsFollowed(ns, p, n, k, m, 0);
  }

  /** A link whose target leads back to it is found nowhere. */
  lemma {:induction false} LoopIsLost(ns: Arena, p: NodeId, n: string, rest: seq<string>, links: nat)
    requires WellLinked(ns) && p < |ns| && links <= MAX_SYMLINK_DEPTH && LinkAt(ns, p, n)
    requires Split(Target(ns, p, n)) != []
    requires
      var t := Target(ns, p, n);
      var comps := Split(t);
      Tread(ns, From(p, t), comps[..|comps| - 1]) == Some(p) && comps[|comps| - 1] == n
    ensures Walked(ns, p, [n] + rest, links) == None
    decreases MAX_SYMLINK_DEPTH - links
  {
    var t := Target(ns, p, n);
    var comps := Split(t);
    LinkIsFollowed(ns, p, n, rest, links);
    if links < MAX_SYMLINK_DEPTH {
      var last := |comps| - 1;
      assert comps == comps[..last] + [n];
      TreadIsWalked(ns, From(p, t), comps[..last], [n], links + 1);
      assert [n] + [] == [n];
      LoopIsLost(ns, p, n, [], links + 1);
    }
  }
}
