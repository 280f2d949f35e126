/**
  The in-memory filesystem: the arena, its byte counter, and the operations that edit them in place.

  `depth` is the ghost rank that shows every parent chain ends at the root. Wall-clock time is a
  parameter (`now`) of each operation that stamps a node.
 */
module Vfs {
  import opened Division
  import opened Wrappers
  import opened Paths
  import opened VfsTree
  import opened VfsEdits
  import opened VfsHeight
  import opened VfsResolve
  import opened VfsMkdirP
  import opened VfsCopy
  import opened VfsMerge
  import opened VfsReplace
  import opened VfsRuns

  function NewMetadata(fileType: nat, perms: nat, uid: nat, gid: nat, now: int): Metadata {
    Metadata(fileType + perms % PERMISSIONS, uid, gid, now)
  }

  // ---- The order of a listing ------------------------------------------------------------------------------

  /** Byte order, which for UTF-8 is the order of the characters. */
  predicate Before(a: string, b: string) {
    b != "" && (a == "" || a[0] < b[0] || (a[0] == b[0] && Before(a[1..], b[1..])))
  }

  lemma {:induction false} BeforeIsTotal(a: string, b: string)
    ensures Before(a, b) || a == b || Before(b, a)
  {
    if a != "" && b != "" {
      BeforeIsTotal(a[1..], b[1..]);
      assert a == [a[0]] + a[1..] && b == [b[0]] + b[1..];
    }
  }

  lemma {:induction false} BeforeIsTransitive(a: string, b: string, c: string)
    requires Before(a, b) && Before(b, c)
    ensures Before(a, c)
  {
    if a != "" && a[0] == b[0] == c[0] {
      BeforeIsTransitive(a[1..], b[1..], c[1..]);
    }
  }

  predicate IsFirst(names: set<string>, n: string) {
    n in names && forall m :: m in names ==> m == n || Before(n, m)
  }

  lemma {:induction false} SomeNameIsFirst(names: set<string>) returns (n: string)
    requires names != {}
    ensures IsFirst(names, n)
    decreases |names|
  {
    var m :| m in names;
    n := m;
    if names - {m} != {} {
      var rest := SomeNameIsFirst(names - {m});
      BeforeIsTotal(m, rest);
      if !Before(m, rest) {
        n := rest;
      }
      forall k | k in names ensures k == n || Before(n, k) {
        if k != n && k != m {
          assert k in names - {m};
          if n == m && k != rest {
            BeforeIsTransitive(m, rest, k);
          }
        }
      }
    }
  }

  ghost predicate InOrder(es: seq<DirEntry>) {
    forall j, k :: 0 <= j < k < |es| ==> Before(es[j].name, es[k].name)
  }

  /** In order, and all of `left` comes later. */
  ghost predicate InOrderBefore(es: seq<DirEntry>, left: set<string>) {
    InOrder(es) && forall k, m :: 0 <= k < |es| && m in left ==> Before(es[k].name, m)
  }

  lemma InOrderOneMore(es: seq<DirEntry>, left: set<string>, e: DirEntry)
    requires InOrderBefore(es, left) && IsFirst(left, e.name)
    ensures InOrderBefore(es + [e], left - {e.name})
  {
    hide Before;
  }

  lemma NothingListed(children: map<string, NodeId>)
    ensures ListsBut(children, children.Keys, []) && InOrderBefore([], children.Keys)
  {
  }

  /** The record has these permissions and owners, and is dated `now`. */
  predicate Labelled(n: Node, perms: nat, uid: nat, gid: nat, now: int) {
    n.meta.mtime == now && n.meta.uid == uid && n.meta.gid == gid && n.meta.mode % 4096 == perms % 4096
  }

  function Dated(n: Node, mtime: int): Node {
    n.(meta := n.meta.(mtime := mtime))
  }

  class Vfs {
    var nodes: Arena
    var contentBytes: nat
    ghost var depth: seq<nat>

    ghost predicate Valid()
      reads this
    {
      Sound(nodes, depth, contentBytes)
    }

    ghost function Now(): State
      reads this
    {
      State(nodes, depth, contentBytes)
    }

    /** A new child under `p` would be dropped. */
    ghost predicate Full(p: NodeId)
      reads this
      requires Valid() && p < |nodes|
    {
      |nodes| >= MAX_VFS_NODES || depth[p] >= MAX_VFS_DEPTH
    }

    /** Bytes charged to the counter that no node holds any more. */
    ghost function Slack(): nat
      reads this
      requires Valid()
    {
      contentBytes - Bytes(nodes)
    }

    constructor (now: int)
      ensures Valid() && contentBytes == 0
      ensures nodes == [Node("", None, Directory(map[]), NewMetadata(S_IFDIR, 0x1ED, 0, 0, now))]
    {
      nodes := [Node("", None, Directory(map[]), NewMetadata(S_IFDIR, 0x1ED, 0, 0, now))];
      contentBytes := 0;
      depth := [0];
      new;
      BytesPush([], nodes[0]);
      assert [] + [nodes[0]] == nodes;
    }

    // ---- Reading the tree --------------------------------------------------------------------------

    function Child(dir: NodeId, name: string): (r: Option<NodeId>)
      reads this
      requires Valid() && dir < |nodes|
      ensures r.Some? ==> Entry(nodes, dir, name, r.value)
    {
      if name in Children(nodes, dir) then
        assert Entry(nodes, dir, name, Children(nodes, dir)[name]);
        Some(Children(nodes, dir)[name])
      else None
    }

    /** A directory's children, each once, in the order of their names. */
    method Entries(dir: NodeId) returns (es: seq<DirEntry>)
      requires Valid() && dir < |nodes|
      ensures Lists(nodes, dir, es) && InOrder(es)
    {
      hide ListsBut, Before, InOrder, IsFirst;
      var children := Children(nodes, dir);
      NothingListed(children);
      var left := children.Keys;
      es := [];
      while left != {}
        invariant left <= children.Keys && ListsBut(children, left, es)
        invariant InOrderBefore(es, left)
        decreases |left|
      {
        ghost var first := SomeNameIsFirst(left);
        var n :| n in left && IsFirst(left, n);
        InOrderOneMore(es, left, DirEntry(n, children[n]));
        ListsOneMore(children, left, es, n);
        es := es + [DirEntry(n, children[n])];
        left := left - {n};
      }
    }

    method DepthOf(id: NodeId) returns (r: nat)
      requires Valid() && id < |nodes|
      ensures r == depth[id]
    {
      r := 0;
      var current: NodeId := id;
      ChainFitsArena(nodes, depth, id);
      while nodes[current].parent.Some?
        invariant current < |nodes| && r + depth[current] == depth[id]
        decreases depth[current]
      {
        r := r + 1;
        if r > |nodes| {
          break;
        }
        current := nodes[current].parent.value;
      }
    }

    /** The iterative stack walk, which meets each reachable descendant once. */
    method HeightOf(id: NodeId) returns (height: nat)
      requires Valid() && id < |nodes|
      ensures IsHeight(nodes, depth, id, height)
    {
      hide Shape, Tree, Below, IsHeight, Covered, SeenOk, StackOk, Lists, Bytes;
      ShapeIsTree(nodes, depth);
      height := 0;
      var stack: Stack := [Item(id, 0)];
      ghost var seen: set<NodeId> := {};
      ghost var tallest: NodeId := id;
      WalkStarts(nodes, depth, id);
      while stack != []
        invariant Walking(nodes, depth, id, stack, seen, tallest, height)
        decreases |nodes| - |seen|
      {
        var rest, node, h := stack[..|stack| - 1], stack[|stack| - 1].node, stack[|stack| - 1].level;
        assert stack == rest + [Item(node, h)];
        TopIsNode(nodes, depth, id, rest, node, h, seen);
        var children := Entries(node);
        WalkStep(nodes, depth, id, rest, node, h, seen, tallest, height, children);
        stack := rest + Pushes(children, h + 1);
        seen := seen + {node};
        if h > height {
          height, tallest := h, node;
        }
      }
      DryStackMeasures(nodes, depth, id, seen, tallest, height);
    }

    /** The loop bound is exact: a chain as long as the arena passes through every node, `id` included. */
    method IsAncestorOf(id: NodeId, other: NodeId) returns (r: bool)
      requires Valid() && id < |nodes| && other < |nodes|
      ensures r == Anc(nodes, depth, id, other)
    {
      ChainFitsArena(nodes, depth, other);
      var current: Option<NodeId> := Some(other);
      for k := 0 to |nodes|
        invariant current.Some? ==>
          && current.value < |nodes|
          && k + depth[current.value] == depth[other]
          && Anc(nodes, depth, id, other) == Anc(nodes, depth, id, current.value)
        invariant current.None? ==> !Anc(nodes, depth, id, other) && k == depth[other] + 1
      {
        match current
        case Some(c) =>
          if c == id {
            return true;
          }
          current := nodes[c].parent;
        case None =>
          return false;
      }
      return true;
    }

    method PathOfNode(id: NodeId) returns (path: string)
      requires Valid() && id < |nodes|
      ensures path == PathOf(nodes, depth, id)
    {
      hide Shape, Tree, Names, Reversed;
      ShapeIsTree(nodes, depth);
      ChainFitsArena(nodes, depth, id);
      var parts: seq<string> := [];
      ReversedEmpty(parts);
      assert Names(nodes, depth, id) + [] == Names(nodes, depth, id);
      var current: NodeId := id;
      for k := 0 to |nodes|
        invariant current < |nodes| && k + depth[current] == depth[id]
        invariant Names(nodes, depth, id) == Names(nodes, depth, current) + Reversed(parts)
      {
        NamesStep(nodes, depth, current);
        if nodes[current].parent.None? {
          break;
        }
        ReversedPush(parts, nodes[current].name);
        ConcatAssoc(Names(nodes, depth, nodes[current].parent.value), [nodes[current].name], Reversed(parts));
        parts := parts + [nodes[current].name];
        current := nodes[current].parent.value;
      }
      NamesStep(nodes, depth, current);
      assert Names(nodes, depth, id) == [] + Reversed(parts);
      assert [] + Reversed(parts) == Reversed(parts);
      ReversedEmpty(parts);
      if parts == [] {
        return "/";
      }
      return "/" + Join(Reversed(parts));
    }

    method Resolve(start: NodeId, path: string) returns (r: Option<NodeId>)
      requires Valid() && start < |nodes|
      ensures r == Resolved(nodes, start, path, 0)
    {
      r := ResolveInner(start, path, 0);
    }

    method ResolveInner(start: NodeId, path: string, links: nat) returns (r: Option<NodeId>)
      requires Valid() && start < |nodes| && links <= MAX_SYMLINK_DEPTH + 1
      ensures r == Resolved(nodes, start, path, links)
      decreases MAX_SYMLINK_DEPTH + 1 - links, 1
    {
      if links > MAX_SYMLINK_DEPTH {
        return None;
      }
      var current: NodeId := if path != "" && path[0] == '/' then 0 else start;
      var comps := Split(path);
      for k := 0 to |comps|
        invariant current < |nodes|
        invariant Walked(nodes, current, comps[k..], links) == Resolved(nodes, start, path, links)
      {
        var comp := comps[k];
        assert comps[k..][0] == comp && comps[k..][1..] == comps[k + 1..];
        if comp == "" || comp == "." {
          continue;
        } else if comp == ".." {
          current := nodes[current].parent.GetOr(0);
        } else {
          if comp !in Children(nodes, current) {
            return None;
          }
          assert Entry(nodes, current, comp, Children(nodes, current)[comp]);
          var next := Follow(Children(nodes, current)[comp], links);
          if next.None? {
            return None;
          }
          current := next.value;
        }
      }
      return Some(current);
    }

    method Follow(id: NodeId, links: nat) returns (r: Option<NodeId>)
      requires Valid() && id < |nodes| && links <= MAX_SYMLINK_DEPTH
      ensures r == Followed(nodes, id, links)
      decreases MAX_SYMLINK_DEPTH + 1 - links, 0
    {
      match nodes[id].kind
      case Symlink(target) =>
        var parent := nodes[id].parent.GetOr(0);
        r := ResolveInner(parent, target, links + 1);
      case _ =>
        r := Some(id);
    }

    // ---- Growing the tree ------------------------------------------------------------------------------

    method IsFull(parent: NodeId) returns (r: bool)
      requires Valid() && parent < |nodes|
      ensures r == Full(parent)
    {
      if |nodes| >= MAX_VFS_NODES {
        return true;
      }
      var n := DepthOf(parent);
      return n >= MAX_VFS_DEPTH;
    }

    /** Push a node, charging nothing. Under a non-directory the new node is left unlinked. */
    method Insert(parent: NodeId, name: string, kind: NodeKind, meta: Metadata) returns (id: NodeId)
      requires Valid() && parent < |nodes| && FreshKind(kind, meta)
      modifies this
      ensures contentBytes == old(contentBytes)
      ensures Shape(nodes, depth)
      ensures !kind.File? ==> Valid()
      ensures if old(Full(parent)) then id == parent && nodes == old(nodes) && depth == old(depth)
              else && id == |old(nodes)|
                   && nodes == Pushed(old(nodes), parent, name, kind, meta)
                   && depth == old(depth) + [old(depth[parent]) + 1]
                   && Bytes(nodes) == old(Bytes(nodes)) + ContentLen(Node(name, Some(parent), kind, meta))
    {
      hide Shape, Bytes, FreshKind, Pushed;
      ShapeIsTree(nodes, depth);
      var full := IsFull(parent);
      if full {
        return parent;
      }
      PushKeepsShape(nodes, depth, parent, name, kind, meta);
      PushedBytes(nodes, parent, name, kind, meta);
      id := |nodes|;
      depth := depth + [depth[parent] + 1];
      Append(parent, Node(name, Some(parent), kind, meta));
    }

    /** Push a record and list it under its parent, if that is a directory. */
    method Append(parent: NodeId, node: Node)
      requires parent < |nodes| && node.parent == Some(parent)
      modifies this`nodes
      ensures nodes == Pushed(old(nodes), parent, node.name, node.kind, node.meta)
    {
      var id := |nodes|;
      nodes := nodes + [node];
      if nodes[parent].kind.Directory? {
        nodes := nodes[parent := nodes[parent].(kind := Directory(nodes[parent].kind.children[node.name := id]))];
      }
      PushedInSteps(old(nodes), parent, node.name, node.kind, node.meta);
    }

    method Mkdir(parent: NodeId, name: string, perms: nat, uid: nat, gid: nat, now: int) returns (id: NodeId)
      requires Valid() && parent < |nodes|
      modifies this
      ensures Valid() && contentBytes == old(contentBytes) && Slack() == old(Slack()) && id < |nodes|
      ensures Reaches(old(Now()), Now()) && Stamped(old(nodes), nodes, now)
      ensures name !in Children(old(nodes), parent) && !old(Full(parent)) ==> Labelled(nodes[id], perms, uid, gid, now)
      ensures var meta := NewMetadata(S_IFDIR, perms, uid, gid, now);
        if name in Children(old(nodes), parent) then
          id == Children(old(nodes), parent)[name] && nodes == old(nodes) && depth == old(depth)
        else if old(Full(parent)) then id == parent && nodes == old(nodes) && depth == old(depth)
        else && id == |old(nodes)|
             && nodes == Pushed(old(nodes), parent, name, Directory(map[]), meta)
             && depth == old(depth) + [old(depth[parent]) + 1]
    {
      hide Stamped, Reaches, Shape, Bytes, Pushed;
      ShapeIsTree(nodes, depth);
      ghost var start := Now();
      StampedSelf(nodes, now);
      StampedPush(nodes, parent, name, Directory(map[]), NewMetadata(S_IFDIR, perms, uid, gid, now));
      var existing := Child(parent, name);
      if existing.Some? {
        ReachesSelf(start);
        return existing.value;
      }
      var meta := NewMetadata(S_IFDIR, perms, uid, gid, now);
      ghost var full := Full(parent);
      id := Insert(parent, name, Directory(map[]), meta);
      if full {
        ReachesSelf(start);
      } else {
        ReachesByPush(start, parent, name, Directory(map[]), meta, Now());
      }
    }

    /** Create or overwrite a regular file. A write past the byte cap is dropped whole. */
    method AddFile(parent: NodeId, name: string, contents: seq<bv8>, perms: nat, uid: nat, gid: nat, now: int)
      returns (id: NodeId)
      requires Valid() && parent < |nodes|
      modifies this
      ensures Valid() && Slack() == old(Slack()) && id < |nodes|
      ensures Reaches(old(Now()), Now()) && Stamped(old(nodes), nodes, now)
      ensures contentBytes != old(contentBytes) || nodes != old(nodes) ==> Labelled(nodes[id], perms, uid, gid, now)
      ensures var existing := old(Child(parent, name));
        var oldLen := if existing.Some? then ContentLen(old(nodes)[existing.value]) else 0;
        var meta := NewMetadata(S_IFREG, perms, uid, gid, now);
        if old(contentBytes) - oldLen + |contents| > MAX_VFS_BYTES || (existing.None? && old(Full(parent))) then
          id == existing.GetOr(parent) && nodes == old(nodes) && depth == old(depth) && contentBytes == old(contentBytes)
        else
          && contentBytes == old(contentBytes) - oldLen + |contents|
          && match existing
             case Some(e) => id == e && nodes == Replaced(old(nodes), e, File(contents), meta) && depth == old(depth)
             case None =>
               && id == |old(nodes)|
               && nodes == Pushed(old(nodes), parent, name, File(contents), meta)
               && depth == old(depth) + [old(depth[parent]) + 1]
    {
      hide Stamped, Shape, Bytes, Reaches;
      ghost var start := Now();
      StampedSelf(nodes, now);
      StampedPush(nodes, parent, name, File(contents), NewMetadata(S_IFREG, perms, uid, gid, now));
      var existing := Child(parent, name);
      if existing.Some? {
        EntryIsNotRoot(nodes, depth, parent, name, existing.value);
        StampedReplace(nodes, existing.value, File(contents), NewMetadata(S_IFREG, perms, uid, gid, now));
      }
      var oldLen := if existing.Some? then ContentLen(nodes[existing.value]) else 0;
      if existing.Some? {
        BytesUpdate(nodes, existing.value, nodes[existing.value]);
      }
      var others: nat := contentBytes - oldLen;  // the subtraction on an unsigned counter cannot wrap
      if others + |contents| > MAX_VFS_BYTES {
        ReachesSelf(start);
        return existing.GetOr(parent);
      }
      var kind := File(contents);
      var meta := NewMetadata(S_IFREG, perms, uid, gid, now);
      if existing.Some? {
        ReplaceKeepsShape(nodes, depth, existing.value, kind, meta);
        nodes := nodes[existing.value := nodes[existing.value].(kind := kind)];
        nodes := nodes[existing.value := nodes[existing.value].(meta := meta)];
        assert nodes == Replaced(old(nodes), existing.value, kind, meta);
        contentBytes := others + |contents|;
        ReachesByReplace(start, existing.value, kind, meta, Now());
        return existing.value;
      }
      ghost var full := Full(parent);
      id := Insert(parent, name, kind, meta);
      if id != parent {
        contentBytes := contentBytes + |contents|;
      }
      if full {
        ReachesSelf(start);
      } else {
        ReachesByPush(start, parent, name, kind, meta, Now());
      }
    }

    /** Replacing a file by a generated one gives its bytes up without crediting them. */
    method AddDynamicFile(parent: NodeId, name: string, generator: Generator, perms: nat, uid: nat, gid: nat, now: int)
      returns (id: NodeId)
      requires Valid() && parent < |nodes|
      modifies this
      ensures Valid() && contentBytes == old(contentBytes) && id < |nodes|
      ensures Reaches(old(Now()), Now()) && Stamped(old(nodes), nodes, now)
      ensures nodes != old(nodes) ==> Labelled(nodes[id], perms, uid, gid, now)
      ensures var existing := old(Child(parent, name));
        var meta := NewMetadata(S_IFREG, perms, uid, gid, now);
        match existing
        case Some(e) =>
          && id == e && nodes == Replaced(old(nodes), e, DynamicFile(generator), meta) && depth == old(depth)
          && Slack() == old(Slack()) + ContentLen(old(nodes)[e])
        case None =>
          && Slack() == old(Slack())
          && if old(Full(parent)) then id == parent && nodes == old(nodes) && depth == old(depth)
             else && id == |old(nodes)|
                  && nodes == Pushed(old(nodes), parent, name, DynamicFile(generator), meta)
                  && depth == old(depth) + [old(depth[parent]) + 1]
    {
      hide Stamped, Reaches, Shape, Bytes;
      ShapeIsTree(nodes, depth);
      ghost var start := Now();
      StampedSelf(nodes, now);
      StampedPush(nodes, parent, name, DynamicFile(generator), NewMetadata(S_IFREG, perms, uid, gid, now));
      var kind := DynamicFile(generator);
      var meta := NewMetadata(S_IFREG, perms, uid, gid, now);
      var existing := Child(parent, name);
      if existing.Some? {
        EntryIsNotRoot(nodes, depth, parent, name, existing.value);
        StampedReplace(nodes, existing.value, kind, meta);
        ReplaceKeepsShape(nodes, depth, existing.value, kind, meta);
        nodes := nodes[existing.value := nodes[existing.value].(kind := kind)];
        nodes := nodes[existing.value := nodes[existing.value].(meta := meta)];
        assert nodes == Replaced(old(nodes), existing.value, kind, meta);
        ReachesByReplace(start, existing.value, kind, meta, Now());
        return existing.value;
      }
      ghost var full := Full(parent);
      id := Insert(parent, name, kind, meta);
      if full {
        ReachesSelf(start);
      } else {
        ReachesByPush(start, parent, name, kind, meta, Now());
      }
    }

    method WriteFile(id: NodeId, data: seq<bv8>, append: bool, now: int) returns (ok: bool)
      requires Valid() && id < |nodes|
      modifies this
      ensures Valid() && depth == old(depth) && Slack() == old(Slack())
      ensures Reaches(old(Now()), Now())
      ensures ok <==>
        && old(nodes)[id].kind.File?
        && old(contentBytes) + |data| - (if append then 0 else ContentLen(old(nodes)[id])) <= MAX_VFS_BYTES
      ensures if ok then
          && nodes == Replaced(old(nodes), id, File((if append then old(nodes)[id].kind.contents else []) + data),
                               old(nodes)[id].meta.(mtime := now))
          && contentBytes == old(contentBytes) + |data| - (if append then 0 else ContentLen(old(nodes)[id]))
        else nodes == old(nodes) && contentBytes == old(contentBytes)
    {
      hide Stamped, Reaches;
      ghost var start := Now();
      if !nodes[id].kind.File? {
        ReachesSelf(start);
        return false;
      }
      BytesUpdate(nodes, id, nodes[id]);
      var oldLen := |nodes[id].kind.contents|;
      var newLen := if append then oldLen + |data| else |data|;
      var others: nat := contentBytes - oldLen;
      if others + newLen > MAX_VFS_BYTES {
        ReachesSelf(start);
        return false;
      }
      var contents := if append then nodes[id].kind.contents + data else [] + data;
      ReplaceKeepsShape(nodes, depth, id, File(contents), nodes[id].meta.(mtime := now));
      nodes := nodes[id := nodes[id].(kind := File(contents))];
      contentBytes := others + newLen;
      nodes := nodes[id := nodes[id].(meta := nodes[id].meta.(mtime := now))];
      assert nodes == Replaced(old(nodes), id, File(contents), old(nodes)[id].meta.(mtime := now));
      ReachesByReplace(start, id, File(contents), start.ns[id].meta.(mtime := now), Now());
      return true;
    }

    method AddSymlink(parent: NodeId, name: string, target: string, now: int) returns (id: NodeId)
      requires Valid() && parent < |nodes|
      modifies this
      ensures Valid() && contentBytes == old(contentBytes) && Slack() == old(Slack()) && id < |nodes|
      ensures Reaches(old(Now()), Now()) && Stamped(old(nodes), nodes, now)
      ensures name !in Children(old(nodes), parent) && !old(Full(parent)) ==> Labelled(nodes[id], 0x1FF, 0, 0, now)
      ensures var meta := NewMetadata(S_IFLNK, 0x1FF, 0, 0, now);
        if name in Children(old(nodes), parent) then
          id == Children(old(nodes), parent)[name] && nodes == old(nodes) && depth == old(depth)
        else if old(Full(parent)) then id == parent && nodes == old(nodes) && depth == old(depth)
        else && id == |old(nodes)|
             && nodes == Pushed(old(nodes), parent, name, Symlink(target), meta)
             && depth == old(depth) + [old(depth[parent]) + 1]
    {
      hide Stamped, Reaches, Shape, Bytes, Pushed;
      ShapeIsTree(nodes, depth);
      ghost var start := Now();
      StampedSelf(nodes, now);
      StampedPush(nodes, parent, name, Symlink(target), NewMetadata(S_IFLNK, 0x1FF, 0, 0, now));
      var existing := Child(parent, name);
      if existing.Some? {
        ReachesSelf(start);
        return existing.value;
      }
      var meta := NewMetadata(S_IFLNK, 0x1FF, 0, 0, now);
      ghost var full := Full(parent);
      id := Insert(parent, name, Symlink(target), meta);
      if full {
        ReachesSelf(start);
      } else {
        ReachesByPush(start, parent, name, Symlink(target), meta, Now());
      }
    }

    /** The node returned is the one the path resolves to exactly when the path was open beforehand; and
        `None` is returned only because a component could not be created. */
    method MkdirP(path: string, perms: nat, uid: nat, gid: nat, now: int) returns (r: Option<NodeId>)
      requires Valid()
      modifies this
      ensures Valid() && contentBytes == old(contentBytes) && Slack() == old(Slack())
      ensures Reaches(old(Now()), Now())
      ensures |old(nodes)| <= |nodes| <= |old(nodes)| + |Split(path)|
      ensures OnlyGrown(old(nodes), nodes, NewMetadata(S_IFDIR, perms, uid, gid, now))
      ensures r.Some? ==> r.value < |nodes|
      ensures r.Some? ==> (Resolved(nodes, 0, path, 0) == r <==> Open(old(nodes), 0, Split(path)))
      ensures r.Some? ==> Names(nodes, depth, r.value) == Steps(Split(path))
      ensures r.None? ==> exists k, p :: 0 <= k < |Split(path)| && 0 <= p < |nodes| && StuckAt(nodes, depth, Split(path), k, p)
    {
      hide OnlyGrown, Stamped, Tree, Capped, Typed, OnPath, Open, Pushed, Bytes, Split, Children, Resolved, Reaches, Names, Steps;
      ShapeIsTree(nodes, depth);
      var current: NodeId := 0;
      var comps := Split(path);
      ghost var wasOpen := Open(nodes, 0, comps);
      ghost var meta := NewMetadata(S_IFDIR, perms, uid, gid, now);
      GrownSelf(nodes, meta);
      NoneAndAll(comps);
      OnPathStart(nodes, depth, comps);
      ReachesSelf(Now());
      for k := 0 to |comps|
        invariant Valid() && contentBytes == old(contentBytes) && Slack() == old(Slack()) && |old(nodes)| <= |nodes| <= |old(nodes)| + k
        invariant current < |nodes|
        invariant Reaches(old(Now()), Now()) && Names(nodes, depth, current) == Steps(comps[..k])
        invariant OnPath(nodes, depth, current, comps[..k], comps[k..], wasOpen)
        invariant OnlyGrown(old(nodes), nodes, meta)
      {
        var comp := comps[k];
        OneMore(comps, k);
        StepsPush(comps[..k], comp);
        if comp == "" || comp == "." {
          OnPathSkip(nodes, depth, current, comps[..k], comp, comps[k + 1..], wasOpen);
          continue;
        }
        ghost var ns, d, refused := nodes, depth, Full(current);
        ghost var here := Now();
        var next := Mkdir(current, comp, perms, uid, gid, now);
        OnPathMkdir(ns, d, current, comps[..k], comp, comps[k + 1..], wasOpen, meta, refused, nodes, depth, next);
        NamesMkdir(ns, d, current, comp, meta, refused, nodes, depth, next);
        ReachesTrans(old(Now()), here, Now());
        if |nodes| > |ns| {
          GrownByPush(old(nodes), ns, current, comp, meta);
        }
        if next == current {
          assert StuckAt(nodes, depth, comps, k, current);
          return None;
        }
        current := next;
      }
      OnPathEnd(nodes, depth, current, path, wasOpen);
      return Some(current);
    }

    method Touch(parent: NodeId, name: string, uid: nat, gid: nat, now: int) returns (id: NodeId)
      requires Valid() && parent < |nodes|
      modifies this
      ensures Valid() && Slack() == old(Slack()) && contentBytes == old(contentBytes)
      ensures Reaches(old(Now()), Now())
      ensures id < |nodes| && nodes[id].meta.mtime == now
      ensures var existing := old(Child(parent, name));
        if existing.Some? || old(Full(parent)) then
          id == existing.GetOr(parent) && depth == old(depth)
          && nodes == Replaced(old(nodes), id, old(nodes)[id].kind, old(nodes)[id].meta.(mtime := now))
        else
          && id == |old(nodes)|
          && nodes == Pushed(old(nodes), parent, name, File([]), NewMetadata(S_IFREG, 0x1A4, uid, gid, now))
          && depth == old(depth) + [old(depth[parent]) + 1]
    {
      hide Stamped, Reaches;
      ghost var start := Now();
      var existing := Child(parent, name);
      if existing.Some? {
        id := existing.value;
        ReachesSelf(start);
      } else {
        id := AddFile(parent, name, [], 0x1A4, uid, gid, now);
      }
      ghost var added := Now();
      SetMeta(id, nodes[id].meta.(mtime := now));
      ReachesTrans(start, added, Now());
    }

    // ---- Editing metadata --------------------------------------------------------------------------------

    /** Rewrite one node's metadata, keeping its file-type bits. */
    method SetMeta(id: NodeId, meta: Metadata)
      requires Valid() && id < |nodes|
      requires TypeBits(nodes[id].kind) <= meta.mode < TypeBits(nodes[id].kind) + PERMISSIONS
      modifies this
      ensures Valid() && depth == old(depth) && contentBytes == old(contentBytes) && Slack() == old(Slack())
      ensures Reaches(old(Now()), Now())
      ensures nodes == Replaced(old(nodes), id, old(nodes)[id].kind, meta)
    {
      ghost var ns' := Replaced(nodes, id, nodes[id].kind, meta);
      ShrinkKeepsShape(nodes, depth, ns');
      SameLenSameBytes(nodes, ns');
      ghost var start := Now();
      nodes := nodes[id := nodes[id].(meta := meta)];
      ReachesByStamp(start, id, meta, Now());
    }

    method Chmod(id: NodeId, perms: nat)
      requires Valid() && id < |nodes|
      modifies this
      ensures Valid() && depth == old(depth) && contentBytes == old(contentBytes) && Slack() == old(Slack())
      ensures Reaches(old(Now()), Now())
      ensures nodes == Replaced(old(nodes), id, old(nodes)[id].kind,
                                old(nodes)[id].meta.(mode := TypeBits(old(nodes)[id].kind) + perms % PERMISSIONS))
    {
      hide Shape, Bytes, Typed;
      TypeOfMode(nodes, depth, id);
      var fileType := nodes[id].meta.mode / PERMISSIONS % 16 * PERMISSIONS;  // mode & S_IFMT
      SetMeta(id, nodes[id].meta.(mode := fileType + perms % PERMISSIONS));
    }

    method Chown(id: NodeId, uid: nat, gid: nat)
      requires Valid() && id < |nodes|
      modifies this
      ensures Valid() && depth == old(depth) && contentBytes == old(contentBytes) && Slack() == old(Slack())
      ensures Reaches(old(Now()), Now())
      ensures nodes == Replaced(old(nodes), id, old(nodes)[id].kind, old(nodes)[id].meta.(uid := uid, gid := gid))
    {
      SetMeta(id, nodes[id].meta.(uid := uid, gid := gid));
    }

    method SetMtime(id: NodeId, mtime: int)
      requires Valid() && id < |nodes|
      modifies this
      ensures Valid() && depth == old(depth) && contentBytes == old(contentBytes) && Slack() == old(Slack())
      ensures Reaches(old(Now()), Now())
      ensures nodes == Replaced(old(nodes), id, old(nodes)[id].kind, old(nodes)[id].meta.(mtime := mtime))
    {
      SetMeta(id, nodes[id].meta.(mtime := mtime));
    }

    method SetAllMtimes(mtime: int)
      requires Valid()
      modifies this
      ensures Valid() && depth == old(depth) && contentBytes == old(contentBytes) && Slack() == old(Slack())
      ensures Reaches(old(Now()), Now())
      ensures |nodes| == |old(nodes)|
      ensures forall i :: 0 <= i < |nodes| ==> nodes[i] == Dated(old(nodes)[i], mtime)
    {
      hide Stamped, Reaches;
      ReachesSelf(Now());
      for i := 0 to |nodes|
        invariant Valid() && depth == old(depth) && contentBytes == old(contentBytes) && Slack() == old(Slack())
        invariant |nodes| == |old(nodes)| && Reaches(old(Now()), Now())
        invariant forall k :: 0 <= k < |nodes| ==> nodes[k] == if k < i then Dated(old(nodes)[k], mtime) else old(nodes)[k]
      {
        ghost var here := Now();
        SetMtime(i, mtime);
        ReachesTrans(old(Now()), here, Now());
      }
    }

    // ---- Copying ------------------------------------------------------------------------------------------

    /** Terminates for any source and destination, the destination inside the source included, and keeps
        the tree. Whatever the caps do, the copy stays below the destination. With a free name outside the
        source and room under every cap, the copy equals the source and nothing else changes; with a taken
        name, what has the name becomes the merge of the two. A file or symlink arrives exactly when the caps
        let it. */
    method DeepCopy(src: NodeId, dstParent: NodeId, dstName: string, now: int) returns (id: NodeId)
      requires Valid() && src < |nodes| && dstParent < |nodes|
      modifies this
      ensures Valid() && id < |nodes| && |nodes| >= |old(nodes)|
      ensures Reaches(old(Now()), Now()) && Stamped(old(nodes), nodes, now)
      ensures Contained(old(Now()), Now(), dstParent, dstName)
      ensures old(Copyable(nodes, depth, contentBytes, src, dstParent, dstName, 0)) ==>
        Copied(old(nodes), old(depth), old(contentBytes), src, dstParent, dstName, nodes, depth, contentBytes, id)
      ensures old(Mergeable(Now(), src, dstParent, dstName, 0)) ==> MergeDone(old(Now()), Now(), src, dstParent, dstName)
      ensures !old(nodes)[src].kind.Directory? ==>
        (Arrived(Now(), dstParent, dstName, old(SubtreeAt(nodes, depth, src))) <==> old(LeafFits(Now(), src, dstParent, dstName)))
      ensures old(nodes)[src].kind.Symlink? && old(Full(dstParent)) ==> dstName !in Children(nodes, dstParent)
      ensures old(nodes)[src].kind.Directory? ==>
        && (NamedAt(Now(), dstParent, dstName, id) <==> dstName in Children(old(nodes), dstParent) || !old(Full(dstParent)))
        && (dstName in Children(old(nodes), dstParent) ==> IntoTaken(old(Now()), Now(), src, dstParent, dstName, id))
        && (!NamedAt(Now(), dstParent, dstName, id) ==> id == dstParent && Spilled(old(Now()), Now(), src, dstParent))
    {
      hide Stamped, Spilled, NamedAt, Contained, Copied, Copyable, Mergeable, MergeDone, Arrived, LeafFits, IntoTaken, Reaches;
      id := DeepCopyInner(src, dstParent, dstName, 0, now);
    }

    method DeepCopyInner(src: NodeId, dstParent: NodeId, dstName: string, level: nat, now: int) returns (id: NodeId)
      requires Valid() && src < |nodes| && dstParent < |nodes| && level <= MAX_COPY_DEPTH + 1
      modifies this
      ensures Valid() && id < |nodes| && |nodes| >= |old(nodes)|
      ensures Reaches(old(Now()), Now()) && Stamped(old(nodes), nodes, now)
      ensures CopyOutcome(old(Now()), Now(), src, dstParent, dstName, level, id)
      decreases MAX_COPY_DEPTH + 1 - level, 1
    {
      if level > MAX_COPY_DEPTH {
        ReachesSelf(Now());
        StampedSelf(nodes, now);
        TooDeepOutcome(Now(), src, dstParent, dstName, level, dstParent);
        return dstParent;
      }
      match nodes[src].kind
      case File(contents) =>
        id := CopyFile(src, dstParent, dstName, level, now);
      case DynamicFile(generator) =>
        id := CopyDynamicFile(src, dstParent, dstName, level, now);
      case Symlink(target) =>
        id := CopySymlink(src, dstParent, dstName, level, now);
      case Directory(_) =>
        id := CopyDirectory(src, dstParent, dstName, level, now);
    }

    method CopyFile(src: NodeId, dstParent: NodeId, dstName: string, level: nat, now: int) returns (id: NodeId)
      requires Valid() && src < |nodes| && dstParent < |nodes| && nodes[src].kind.File? && level <= MAX_COPY_DEPTH
      modifies this
      ensures Valid() && id < |nodes| && |nodes| >= |old(nodes)|
      ensures Reaches(old(Now()), Now()) && Stamped(old(nodes), nodes, now)
      ensures CopyOutcome(old(Now()), Now(), src, dstParent, dstName, level, id)
    {
      hide Stamped, Tree, Capped, Typed, Bytes, CopyOutcome, Pushed, Replaced, Reaches;
      ShapeIsTree(nodes, depth);
      ModeAt(nodes, depth, src);
      var meta := nodes[src].meta;
      ghost var s, copied := Now(), NewMetadata(S_IFREG, meta.mode % PERMISSIONS, meta.uid, meta.gid, now);
      ghost var taken := Child(dstParent, dstName);
      id := AddFile(dstParent, dstName, nodes[src].kind.contents, meta.mode % PERMISSIONS, meta.uid, meta.gid, now);
      FileOutcome(s, Now(), src, dstParent, dstName, level, copied, id);
    }

    method CopyDynamicFile(src: NodeId, dstParent: NodeId, dstName: string, level: nat, now: int) returns (id: NodeId)
      requires Valid() && src < |nodes| && dstParent < |nodes| && nodes[src].kind.DynamicFile? && level <= MAX_COPY_DEPTH
      modifies this
      ensures Valid() && id < |nodes| && |nodes| >= |old(nodes)|
      ensures Reaches(old(Now()), Now()) && Stamped(old(nodes), nodes, now)
      ensures CopyOutcome(old(Now()), Now(), src, dstParent, dstName, level, id)
    {
      hide Stamped, Tree, Capped, Typed, Bytes, CopyOutcome, Pushed, Replaced, Reaches;
      ShapeIsTree(nodes, depth);
      ModeAt(nodes, depth, src);
      var meta := nodes[src].meta;
      ghost var s, copied := Now(), NewMetadata(S_IFREG, meta.mode % PERMISSIONS, meta.uid, meta.gid, now);
      ghost var taken := Child(dstParent, dstName);
      id := AddDynamicFile(dstParent, dstName, nodes[src].kind.generator, meta.mode % PERMISSIONS, meta.uid, meta.gid, now);
      DynamicOutcome(s, Now(), src, dstParent, dstName, level, copied, id);
    }

    method CopySymlink(src: NodeId, dstParent: NodeId, dstName: string, level: nat, now: int) returns (id: NodeId)
      requires Valid() && src < |nodes| && dstParent < |nodes| && nodes[src].kind.Symlink? && level <= MAX_COPY_DEPTH
      modifies this
      ensures Valid() && id < |nodes| && |nodes| >= |old(nodes)|
      ensures Reaches(old(Now()), Now()) && Stamped(old(nodes), nodes, now)
      ensures CopyOutcome(old(Now()), Now(), src, dstParent, dstName, level, id)
    {
      hide Stamped, Tree, Capped, Typed, Bytes, CopyOutcome, Pushed, WithoutEntry, Children, Reaches;
      ShapeIsTree(nodes, depth);
      ModeAt(nodes, depth, src);
      var meta := nodes[src].meta.(mtime := now);
      ghost var s := Now();
      ghost var gone := State(WithoutEntry(nodes, dstParent, dstName), depth, contentBytes);
      DropKeepsShape(nodes, depth, dstParent, dstName);
      id := PutSymlink(dstParent, dstName, nodes[src].kind, meta);
      LinkOutcome(s, gone, Now(), src, dstParent, dstName, level, meta, id);
    }

    /** Replace whatever has the name by a symlink: what has the name goes, and the symlink comes if there is room
        for a node. */
    method PutSymlink(parent: NodeId, name: string, kind: NodeKind, meta: Metadata) returns (id: NodeId)
      requires Valid() && parent < |nodes| && kind.Symlink? && FreshKind(kind, meta)
      modifies this
      ensures Valid() && id < |nodes| && |nodes| >= |old(nodes)| && contentBytes == old(contentBytes)
      ensures Reaches(old(Now()), Now()) && Stamped(old(nodes), nodes, meta.mtime)
      ensures var gone := WithoutEntry(old(nodes), parent, name);
        if old(Full(parent)) then id == parent && nodes == gone && depth == old(depth)
        else id == |old(nodes)| && nodes == Pushed(gone, parent, name, kind, meta) && depth == old(depth) + [old(depth[parent]) + 1]
    {
      hide Stamped, Shape, Bytes, Pushed, WithoutEntry, Reaches;
      ShapeIsTree(nodes, depth);
      ghost var start := Now();
      StampedDrop(nodes, parent, name, meta.mtime);
      StampedPush(WithoutEntry(nodes, parent, name), parent, name, kind, meta);
      StampedTrans(nodes, WithoutEntry(nodes, parent, name), Pushed(WithoutEntry(nodes, parent, name), parent, name, kind, meta), meta.mtime);
      var _ := Unlink(parent, name);
      ghost var here, full := Now(), Full(parent);
      id := Insert(parent, name, kind, meta);
      if full {
        ReachesSelf(here);
      } else {
        ReachesByPush(here, parent, name, kind, meta, Now());
      }
      ReachesTrans(start, here, Now());
    }

    method CopyDirectory(src: NodeId, dstParent: NodeId, dstName: string, level: nat, now: int) returns (newDir: NodeId)
      requires Valid() && src < |nodes| && dstParent < |nodes| && level <= MAX_COPY_DEPTH && nodes[src].kind.Directory?
      modifies this
      ensures Valid() && newDir < |nodes| && |nodes| >= |old(nodes)|
      ensures Reaches(old(Now()), Now()) && Stamped(old(nodes), nodes, now)
      ensures CopyOutcome(old(Now()), Now(), src, dstParent, dstName, level, newDir)
      decreases MAX_COPY_DEPTH + 1 - level, 0
    {
      hide Stamped, Tree, Capped, Typed, Bytes, Copyable, Copied, Copying, Mergeable, Merging, Spread, CopyOutcome, Spilled;
      hide Reaches, Pushed, Entry, Lists;
      ShapeIsTree(nodes, depth);
      ModeAt(nodes, depth, src);
      var meta := nodes[src].meta;
      ghost var s, made := Now(), NewMetadata(S_IFDIR, meta.mode % PERMISSIONS, meta.uid, meta.gid, now);
      ghost var taken := Child(dstParent, dstName);
      newDir := Mkdir(dstParent, dstName, meta.mode % PERMISSIONS, meta.uid, meta.gid, now);
      var children := Entries(src);
      ghost var m := Now();
      CopyOpens(s, m, src, dstParent, dstName, level, made, newDir);
      SpreadStarts(m, newDir, Children(m.ns, src).Keys);
      ghost var first := newDir;
      for k := 0 to |children|
        invariant Valid() && newDir < |nodes| && |nodes| >= |m.ns| >= |s.ns|
        invariant Reaches(old(Now()), Now()) && Stamped(old(nodes), nodes, now)
        invariant Spread(m, Now(), newDir, Children(m.ns, src).Keys)
        invariant Growing(s, Now(), src, dstParent, dstName, level, newDir, Listed(children, k))
        invariant FirstCopied(m, Now(), src, newDir, level, children, k, first)
      {
        var child := children[k];
        NotYetListed(m.ns, src, children, k);
        ListedEntry(m.ns, m.d, src, children, k);
        ghost var here := Now();
        var copy := DeepCopyInner(child.id, newDir, child.name, level + 1, now);
        ReachesTrans(old(Now()), here, Now());
        StampedTrans(old(nodes), here.ns, nodes, now);
        OutcomeIsContained(here, Now(), child.id, newDir, child.name, level + 1, copy);
        SpreadStep(m, here, Now(), newDir, Children(m.ns, src).Keys, child.name);
        first := copy;
        GrowingStep(s, m, here, Now(), src, dstParent, dstName, level, made, newDir, Listed(children, k), child.name, child.id, copy);
      }
      AllListed(m.ns, src, children);
      if newDir == dstParent && level < MAX_COPY_DEPTH {
        SoleEntrySpilled(m, Now(), src, newDir, level, children, first);
      }
      CopyCloses(s, m, Now(), src, dstParent, dstName, level, made, newDir, Listed(children, |children|));
    }

    // ---- Detaching and moving -------------------------------------------------------------------------------

    /** The node stays in the arena as a tombstone, and its bytes stay charged. */
    method Unlink(parent: NodeId, name: string) returns (r: Option<NodeId>)
      requires Valid() && parent < |nodes|
      modifies this
      ensures Valid() && depth == old(depth) && contentBytes == old(contentBytes) && Slack() == old(Slack())
      ensures Reaches(old(Now()), Now())
      ensures r == old(Child(parent, name))
      ensures nodes == WithoutEntry(old(nodes), parent, name)
    {
      DropKeepsShape(nodes, depth, parent, name);
      r := Child(parent, name);
      ghost var start := Now();
      if nodes[parent].kind.Directory? {
        nodes := nodes[parent := nodes[parent].(kind := Directory(nodes[parent].kind.children - {name}))];
      }
      ReachesByDrop(start, parent, name, Now());
    }

    /** Succeeds exactly when the destination is a directory outside the moved subtree and the subtree
        fits under the depth cap there. */
    method Rename(id: NodeId, newParent: NodeId, newName: string) returns (ok: bool)
      requires Valid() && id < |nodes| && newParent < |nodes|
      modifies this
      ensures Valid() && contentBytes == old(contentBytes) && Slack() == old(Slack())
      ensures Reaches(old(Now()), Now())
      ensures ok <==>
        && old(nodes)[newParent].kind.Directory?
        && !Anc(old(nodes), old(depth), id, newParent)
        && (exists h: nat :: IsHeight(old(nodes), old(depth), id, h) && old(depth)[newParent] + 1 + h <= MAX_VFS_DEPTH)
      ensures if ok then
          && id != 0
          && nodes == Moved(old(nodes), id, newParent, newName)
          && depth == MovedRank(old(nodes), old(depth), id, newParent)
        else nodes == old(nodes) && depth == old(depth)
    {
      hide Stamped, Reaches;
      ghost var start := Now();
      if !nodes[newParent].kind.Directory? {
        ReachesSelf(start);
        return false;
      }
      var inside := IsAncestorOf(id, newParent);
      if inside {
        ReachesSelf(start);
        return false;
      }
      RootIsAnc(nodes, depth, newParent);
      var at := DepthOf(newParent);
      var height := HeightOf(id);
      if at + 1 + height > MAX_VFS_DEPTH {
        ReachesSelf(start);
        return false;
      }
      MoveKeepsShape(nodes, depth, id, newParent, newName, height);
      MoveKeepsBytes(nodes, id, newParent, newName);
      ghost var rank := MovedRank(nodes, depth, id, newParent);
      Relink(id, newParent, newName);
      depth := rank;
      ReachesByMove(start, id, newParent, newName, height, Now());
      return true;
    }

    /** Detach a node from its recorded place, drop whatever sits at the destination, and link it there. */
    method Relink(id: NodeId, newParent: NodeId, newName: string)
      requires WellLinked(nodes) && 0 < id < |nodes| && newParent < |nodes| && id != newParent
      requires nodes[newParent].kind.Directory?
      modifies this`nodes
      ensures nodes == Moved(old(nodes), id, newParent, newName)
    {
      nodes := WithoutEntry(nodes, nodes[id].parent.value, nodes[id].name);
      nodes := WithoutEntry(nodes, newParent, newName);
      nodes := nodes[id := nodes[id].(name := newName, parent := Some(newParent))];
      nodes := WithEntry(nodes, newParent, newName, id);
      MovedInSteps(old(nodes), id, newParent, newName, nodes);
    }
  }

  lemma TypeOfMode(ns: Arena, d: seq<nat>, id: NodeId)
    requires Shape(ns, d) && id < |ns|
    ensures ns[id].meta.mode / PERMISSIONS % 16 * PERMISSIONS == TypeBits(ns[id].kind)
  {
  }

  lemma OneMore<T>(s: seq<T>, k: nat)
    requires k < |s|
    ensures s[k..] == [s[k]] + s[k + 1..] && s[..k + 1] == s[..k] + [s[k]]
  {
  }

  lemma NoneAndAll<T>(s: seq<T>)
    ensures s[..0] == [] && s[0..] == s && s[..|s|] == s && s[|s|..] == []
  {
  }

  function Reversed<T>(s: seq<T>): seq<T> {
    if s == [] then [] else Reversed(s[1..]) + [s[0]]
  }

  lemma ReversedEmpty<T>(s: seq<T>)
    ensures Reversed(s) == [] <==> s == []
  {
  }

  lemma {:induction false} ReversedPush<T>(s: seq<T>, x: T)
    ensures Reversed(s + [x]) == [x] + Reversed(s)
  {
    if s != [] {
      ReversedPush(s[1..], x);
      assert (s + [x])[1..] == s[1..] + [x];
    }
  }
}
