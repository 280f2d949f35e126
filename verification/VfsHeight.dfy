/**
  The stack walk that measures a subtree, on the arena as a value: `seen` holds the popped nodes.
 */
module VfsHeight {
  import opened VfsTree

  /** A stacked node, and how far below the subtree's root it is. */
  datatype Item = Item(node: NodeId, level: nat)

  type Stack = seq<Item>

  /** The walk has met `i`: it is popped, or on the stack. */
  ghost predicate Met(i: NodeId, stack: Stack, seen: set<NodeId>) {
    i in seen || exists k :: 0 <= k < |stack| && stack[k].node == i
  }

  ghost predicate SeenOk(ns: Arena, d: seq<nat>, id: NodeId, seen: set<NodeId>)
    requires Tree(ns, d) && id < |ns|
  {
    && (forall i :: i in seen ==> i < |ns| && Below(ns, d, id, i))
    && (forall i {:trigger Parent(ns, i)} :: i in seen && i != id ==> Parent(ns, i) in seen)
  }

  /** A stacked node is new, knows how far below `id` it is, and hangs from a popped node. */
  ghost predicate Stacked(ns: Arena, d: seq<nat>, id: NodeId, seen: set<NodeId>, e: Item)
    requires Tree(ns, d) && id < |ns|
  {
    && e.node < |ns| && Below(ns, d, id, e.node) && e.node !in seen
    && d[e.node] == d[id] + e.level
    && (e.node != id ==> Parent(ns, e.node) in seen)
  }

  ghost predicate StackOk(ns: Arena, d: seq<nat>, id: NodeId, stack: Stack, seen: set<NodeId>)
    requires Tree(ns, d) && id < |ns|
  {
    && (forall k :: 0 <= k < |stack| ==> Stacked(ns, d, id, seen, stack[k]))
    && (forall j, k :: 0 <= j < k < |stack| ==> stack[j].node != stack[k].node)
  }

  /** Nothing below a popped node is forgotten. */
  ghost predicate Covered(ns: Arena, d: seq<nat>, id: NodeId, stack: Stack, seen: set<NodeId>)
    requires Tree(ns, d) && id < |ns|
  {
    && Met(id, stack, seen)
    && (forall i :: 0 < i < |ns| && i != id && IsChild(ns, i) && Parent(ns, i) in seen ==> Met(i, stack, seen))
  }

  /** `es` lists the children of `node`, each once. */
  ghost predicate Lists(ns: Arena, node: NodeId, es: seq<DirEntry>)
    requires node < |ns|
  {
    ListsBut(Children(ns, node), {}, es)
  }

  /** The entries are the children not in `left`, each once. */
  ghost predicate ListsBut(children: map<string, NodeId>, left: set<string>, es: seq<DirEntry>) {
    && (forall k :: 0 <= k < |es| ==> es[k].name in children && es[k].name !in left && es[k].id == children[es[k].name])
    && (forall j, k :: 0 <= j < k < |es| ==> es[j].name != es[k].name)
    && (forall n :: n in children && n !in left ==> exists k :: 0 <= k < |es| && es[k].name == n)
  }

  lemma ListsOneMore(children: map<string, NodeId>, left: set<string>, es: seq<DirEntry>, n: string)
    requires ListsBut(children, left, es) && n in left && n in children
    ensures ListsBut(children, left - {n}, es + [DirEntry(n, children[n])])
  {
    var es' := es + [DirEntry(n, children[n])];
    forall m | m in children && m !in left - {n} ensures exists k :: 0 <= k < |es'| && es'[k].name == m {
      if m == n {
        assert es'[|es|].name == m;
      } else {
        var k :| 0 <= k < |es| && es[k].name == m;
        assert es'[k].name == m;
      }
    }
  }

  function Pushes(es: seq<DirEntry>, h: nat): Stack {
    seq(|es|, k requires 0 <= k < |es| => Item(es[k].id, h))
  }

  lemma ChildIsNew(ns: Arena, d: seq<nat>, id: NodeId, node: NodeId, h: nat, seen: set<NodeId>, name: string)
    requires Tree(ns, d) && id < |ns| && node < |ns| && SeenOk(ns, d, id, seen)
    requires Stacked(ns, d, id, seen, Item(node, h)) && name in Children(ns, node)
    ensures Stacked(ns, d, id, seen + {node}, Item(Children(ns, node)[name], h + 1))
    ensures Children(ns, node)[name] != id
  {
    var c := Children(ns, node)[name];
    assert Entry(ns, node, name, c);
    if c == id {
      BelowIsAnc(ns, d, id, node);
      AncRank(ns, d, id, node);
      assert false;
    }
  }

  lemma PopKeepsStack(ns: Arena, d: seq<nat>, id: NodeId, node: NodeId, h: nat, stack: Stack, seen: set<NodeId>,
                      es: seq<DirEntry>)
    requires Tree(ns, d) && id < |ns| && node < |ns| && Lists(ns, node, es)
    requires SeenOk(ns, d, id, seen) && StackOk(ns, d, id, stack + [Item(node, h)], seen)
    ensures SeenOk(ns, d, id, seen + {node}) && StackOk(ns, d, id, stack + Pushes(es, h + 1), seen + {node})
  {
    var top, pushed := stack + [Item(node, h)], Pushes(es, h + 1);
    assert top[|stack|] == Item(node, h);
    assert forall k :: 0 <= k < |stack| ==> stack[k] == top[k];
    forall k | 0 <= k < |es| ensures Stacked(ns, d, id, seen + {node}, pushed[k]) && pushed[k].node != id {
      ChildIsNew(ns, d, id, node, h, seen, es[k].name);
    }
    forall j, k | 0 <= j < k < |stack + pushed| ensures (stack + pushed)[j].node != (stack + pushed)[k].node {
      if j < |stack| <= k {
        assert Entry(ns, node, es[k - |stack|].name, es[k - |stack|].id);
        assert Stacked(ns, d, id, seen, top[j]) && top[j].node != node;
      } else if |stack| <= j {
        assert Entry(ns, node, es[j - |stack|].name, es[j - |stack|].id);
        assert Entry(ns, node, es[k - |stack|].name, es[k - |stack|].id);
      }
    }
  }

  lemma PopKeepsCover(ns: Arena, d: seq<nat>, id: NodeId, node: NodeId, h: nat, stack: Stack, seen: set<NodeId>,
                      es: seq<DirEntry>)
    requires Tree(ns, d) && id < |ns| && node < |ns| && Lists(ns, node, es)
    requires Covered(ns, d, id, stack + [Item(node, h)], seen)
    ensures Covered(ns, d, id, stack + Pushes(es, h + 1), seen + {node})
  {
    var top, pushed := stack + [Item(node, h)], Pushes(es, h + 1);
    forall i | Met(i, top, seen) ensures Met(i, stack + pushed, seen + {node}) {
      if i !in seen + {node} {
        var k :| 0 <= k < |top| && top[k].node == i;
        assert (stack + pushed)[k].node == i;
      }
    }
    forall i | 0 < i < |ns| && i != id && IsChild(ns, i) && Parent(ns, i) in seen + {node}
      ensures Met(i, stack + pushed, seen + {node})
    {
      if Parent(ns, i) == node {
        var k :| 0 <= k < |es| && es[k].name == ns[i].name;
        assert (stack + pushed)[|stack| + k].node == i;
      }
    }
  }

  lemma {:induction false} WalkReaches(ns: Arena, d: seq<nat>, id: NodeId, seen: set<NodeId>, i: NodeId)
    requires Tree(ns, d) && id < |ns| && Covered(ns, d, id, [], seen) && i < |ns| && Below(ns, d, id, i)
    ensures i in seen
    decreases d[i]
  {
    if i != id {
      WalkReaches(ns, d, id, seen, Parent(ns, i));
    }
  }

  /** The loop invariant: `tallest` is the popped node that set the current maximum. */
  ghost predicate Walking(ns: Arena, d: seq<nat>, id: NodeId, stack: Stack, seen: set<NodeId>, tallest: NodeId, height: nat)
    requires Tree(ns, d) && id < |ns|
  {
    && SeenOk(ns, d, id, seen) && StackOk(ns, d, id, stack, seen) && Covered(ns, d, id, stack, seen)
    && tallest < |ns| && Below(ns, d, id, tallest) && d[tallest] == d[id] + height
    && forall i :: i in seen ==> d[i] <= d[id] + height
  }

  lemma WalkStarts(ns: Arena, d: seq<nat>, id: NodeId)
    requires Tree(ns, d) && id < |ns|
    ensures Walking(ns, d, id, [Item(id, 0)], {}, id, 0)
  {
    assert [Item(id, 0)][0].node == id;
  }

  lemma TopIsNode(ns: Arena, d: seq<nat>, id: NodeId, rest: Stack, node: NodeId, h: nat, seen: set<NodeId>)
    requires Tree(ns, d) && id < |ns| && SeenOk(ns, d, id, seen) && StackOk(ns, d, id, rest + [Item(node, h)], seen)
    ensures node < |ns| && Below(ns, d, id, node) && d[node] == d[id] + h
    ensures |seen| < |seen + {node}| <= |ns|
  {
    assert (rest + [Item(node, h)])[|rest|] == Item(node, h);
    assert Stacked(ns, d, id, seen, Item(node, h));
    SubsetSize(seen + {node}, Ids(|ns|));
  }

  lemma WalkStep(ns: Arena, d: seq<nat>, id: NodeId, rest: Stack, node: NodeId, h: nat, seen: set<NodeId>,
                 tallest: NodeId, height: nat, es: seq<DirEntry>)
    requires Tree(ns, d) && id < |ns| && Walking(ns, d, id, rest + [Item(node, h)], seen, tallest, height)
    requires node < |ns| && Lists(ns, node, es)
    ensures Walking(ns, d, id, rest + Pushes(es, h + 1), seen + {node},
                    if h > height then node else tallest, if h > height then h else height)
  {
    TopIsNode(ns, d, id, rest, node, h, seen);
    PopKeepsStack(ns, d, id, node, h, rest, seen, es);
    PopKeepsCover(ns, d, id, node, h, rest, seen, es);
  }

  /** When the stack runs dry, the maximum is the height of the subtree. */
  lemma DryStackMeasures(ns: Arena, d: seq<nat>, id: NodeId, seen: set<NodeId>, tallest: NodeId, height: nat)
    requires Tree(ns, d) && id < |ns| && Walking(ns, d, id, [], seen, tallest, height)
    ensures IsHeight(ns, d, id, height)
  {
    forall i | 0 <= i < |ns| && Below(ns, d, id, i) ensures d[i] <= d[id] + height {
      WalkReaches(ns, d, id, seen, i);
    }
  }
}
