/**
 * The inspection tree's nodes, kept in an arena.
 *
 * Every `InspectTreeNode` ever constructed lives at an index of `NodeArena.nodes`;
 * its `Parent` back-reference is the index of the parent (or `NoParent`) and its
 * `Children` are a list of indices.  Nodes are only ever appended, so an index held
 * elsewhere (a represented or selected node of an older tree) never dangles, just as
 * an object reference would not.  The two mutable flags of a node, `IsSelected` and
 * `IsExpanded`, are kept beside the immutable part.
 */
module TreeModel {
  import opened Wrappers
  import opened Views

  /** The index of a node in the arena. */
  type NodeId = int

  /** The `Parent` of a node that has none. */
  const NoParent: int := -1

  /** The parts of an `InspectTreeNode` fixed at construction, plus its children. */
  datatype NodeInfo = NodeInfo(view: ViewId, isFakeRoot: bool, parent: int, children: seq<NodeId>)

  /**
   * Node `i` is linked into the forest: its parent precedes it, each of its
   * children follows it and names it as parent, and it is among its parent's
   * children.
   */
  ghost predicate Linked(nodes: seq<NodeInfo>, i: NodeId)
    requires 0 <= i < |nodes|
  {
    && NoParent <= nodes[i].parent < i
    && (forall k :: 0 <= k < |nodes[i].children| ==>
          i < nodes[i].children[k] < |nodes| && nodes[nodes[i].children[k]].parent == i)
    && (nodes[i].parent != NoParent ==> i in nodes[nodes[i].parent].children)
  }

  /** The arena is a forest: every node is linked. */
  ghost predicate WellFormed(nodes: seq<NodeInfo>)
  {
    forall i :: 0 <= i < |nodes| ==> Linked(nodes, i)
  }

  /** `node.View == v`, where `v` may be null: an identity comparison. */
  predicate HasView(nodes: seq<NodeInfo>, n: NodeId, v: Option<ViewId>)
    requires 0 <= n < |nodes|
  {
    Some(nodes[n].view) == v
  }

  // ---------------------------------------------------------------------------
  // Traversal

  /**
   * `TraverseTree (n => n.Children)` started at `n`: the node first, then the
   * pre-order sequence of each child, left to right.
   */
  function PreOrder(nodes: seq<NodeInfo>, n: NodeId): (r: seq<NodeId>)
    requires WellFormed(nodes) && 0 <= n < |nodes|
    ensures |r| > 0 && r[0] == n
    ensures forall k :: 0 <= k < |r| ==> n <= r[k] < |nodes|
    decreases |nodes| - n, 1, 0
  {
    assert Linked(nodes, n);
    [n] + PreOrderForest(nodes, nodes[n].children, n)
  }

  /** The pre-order sequences of the trees rooted at `cs`, concatenated. */
  function PreOrderForest(nodes: seq<NodeInfo>, cs: seq<NodeId>, owner: NodeId): (r: seq<NodeId>)
    requires WellFormed(nodes) && 0 <= owner < |nodes|
    requires forall k :: 0 <= k < |cs| ==> owner < cs[k] < |nodes|
    ensures forall k :: 0 <= k < |r| ==> owner < r[k] < |nodes|
    ensures forall k :: 0 <= k < |cs| ==> cs[k] in r
    decreases |nodes| - owner, 0, |cs|
  {
    if cs == [] then []
    else PreOrder(nodes, cs[0]) + PreOrderForest(nodes, cs[1..], owner)
  }

  /**
   * The nodes a `while (parent != null)` walk visits when it starts at `p`:
   * `p`, then its parent, and so on up to a node without a parent.
   */
  function ParentChain(nodes: seq<NodeInfo>, p: int): (r: seq<NodeId>)
    requires WellFormed(nodes) && NoParent <= p < |nodes|
    ensures forall k :: 0 <= k < |r| ==> 0 <= r[k] <= p
    ensures r == [] <==> p == NoParent
    ensures r != [] ==> r[0] == p
    ensures forall k :: 0 <= k < |r| ==> (nodes[r[k]].parent == NoParent <==> k == |r| - 1)
    ensures forall j, k :: 0 <= j < k < |r| && k == j + 1 ==> r[k] == nodes[r[j]].parent
    decreases p + 1
  {
    if p == NoParent then []
    else assert Linked(nodes, p); [p] + ParentChain(nodes, nodes[p].parent)
  }

  /** The proper ancestors of `n`, nearest first. */
  function Ancestors(nodes: seq<NodeInfo>, n: NodeId): seq<NodeId>
    requires WellFormed(nodes) && 0 <= n < |nodes|
  {
    assert Linked(nodes, n);
    ParentChain(nodes, nodes[n].parent)
  }

  /** A parent walk that reaches a node with a parent goes on to that parent. */
  lemma ParentChainClosed(nodes: seq<NodeInfo>, p: int, x: NodeId)
    requires WellFormed(nodes) && NoParent <= p < |nodes|
    requires x in ParentChain(nodes, p) && nodes[x].parent != NoParent
    ensures nodes[x].parent in ParentChain(nodes, p)
  {
    var r := ParentChain(nodes, p);
    var k :| 0 <= k < |r| && r[k] == x;
    assert r[k + 1] == nodes[r[k]].parent;
  }

  /** Everything the traversal from `n` visits is `n` or lies below it. */
  lemma {:induction false} PreOrderBelow(nodes: seq<NodeInfo>, n: NodeId, m: NodeId)
    requires WellFormed(nodes) && 0 <= n < |nodes| && m in PreOrder(nodes, n)
    ensures 0 <= m < |nodes| && (m == n || n in Ancestors(nodes, m))
    decreases |nodes| - n, 1, 0
  {
    assert Linked(nodes, n);
    if m != n {
      PreOrderForestBelow(nodes, nodes[n].children, n, m);
    }
  }

  lemma {:induction false} PreOrderForestBelow(nodes: seq<NodeInfo>, cs: seq<NodeId>, owner: NodeId, m: NodeId)
    requires WellFormed(nodes) && 0 <= owner < |nodes|
    requires forall k :: 0 <= k < |cs| ==> owner < cs[k] < |nodes| && nodes[cs[k]].parent == owner
    requires m in PreOrderForest(nodes, cs, owner)
    ensures 0 <= m < |nodes| && owner in Ancestors(nodes, m)
    decreases |nodes| - owner, 0, |cs|
  {
    var c := cs[0];
    if m in PreOrder(nodes, c) {
      PreOrderBelow(nodes, c, m);
      if m != c {
        assert Linked(nodes, m);
        ParentChainClosed(nodes, nodes[m].parent, c);
      }
    } else {
      PreOrderForestBelow(nodes, cs[1..], owner, m);
    }
  }

  /** Everything below `n` is visited by the traversal from `n`. */
  lemma {:induction false} BelowInPreOrder(nodes: seq<NodeInfo>, n: NodeId, m: NodeId)
    requires WellFormed(nodes) && 0 <= n < |nodes| && 0 <= m < |nodes|
    requires n in Ancestors(nodes, m)
    ensures m in PreOrder(nodes, n)
    decreases m
  {
    assert Linked(nodes, m);
    var p := nodes[m].parent;
    assert Linked(nodes, p);
    if p != n {
      assert n in Ancestors(nodes, p);
      BelowInPreOrder(nodes, n, p);
      ChildInPreOrder(nodes, n, p, m);
    } else {
      assert Linked(nodes, n);
    }
  }

  /** The traversal from `n` that visits `p` visits each child of `p` as well. */
  lemma {:induction false} ChildInPreOrder(nodes: seq<NodeInfo>, n: NodeId, p: NodeId, m: NodeId)
    requires WellFormed(nodes) && 0 <= n < |nodes| && 0 <= p < |nodes|
    requires p in PreOrder(nodes, n) && m in nodes[p].children
    ensures m in PreOrder(nodes, n)
    decreases |nodes| - n, 1, 0
  {
    assert Linked(nodes, n);
    if p != n {
      ChildInPreOrderForest(nodes, nodes[n].children, n, p, m);
    }
  }

  lemma {:induction false} ChildInPreOrderForest(nodes: seq<NodeInfo>, cs: seq<NodeId>, owner: NodeId, p: NodeId, m: NodeId)
    requires WellFormed(nodes) && 0 <= owner < |nodes| && 0 <= p < |nodes|
    requires forall k :: 0 <= k < |cs| ==> owner < cs[k] < |nodes|
    requires p in PreOrderForest(nodes, cs, owner) && m in nodes[p].children
    ensures m in PreOrderForest(nodes, cs, owner)
    decreases |nodes| - owner, 0, |cs|
  {
    if p in PreOrder(nodes, cs[0]) {
      ChildInPreOrder(nodes, cs[0], p, m);
    } else {
      ChildInPreOrderForest(nodes, cs[1..], owner, p, m);
    }
  }

  /** The traversal from `n` visits exactly `n` and the nodes below it. */
  lemma PreOrderMeaning(nodes: seq<NodeInfo>, n: NodeId)
    requires WellFormed(nodes) && 0 <= n < |nodes|
    ensures forall m :: m in PreOrder(nodes, n) <==>
              0 <= m < |nodes| && (m == n || n in Ancestors(nodes, m))
  {
    forall m | m in PreOrder(nodes, n) {
      PreOrderBelow(nodes, n, m);
    }
    forall m | 0 <= m < |nodes| && n in Ancestors(nodes, m) {
      BelowInPreOrder(nodes, n, m);
    }
  }

  // ---------------------------------------------------------------------------
  // The view hierarchy a subtree of nodes wraps

  /** The view tree that the subtree of nodes rooted at `n` wraps. */
  function ViewTreeOf(nodes: seq<NodeInfo>, n: NodeId): (t: ViewTree)
    requires WellFormed(nodes) && 0 <= n < |nodes|
    decreases |nodes| - n, 1, 0
  {
    assert Linked(nodes, n);
    ViewTree(nodes[n].view, nodes[n].isFakeRoot, ViewForest(nodes, nodes[n].children, n))
  }

  /** The view trees wrapped by the subtrees rooted at `cs`, in order. */
  function ViewForest(nodes: seq<NodeInfo>, cs: seq<NodeId>, owner: NodeId): (ts: seq<ViewTree>)
    requires WellFormed(nodes) && 0 <= owner < |nodes|
    requires forall k :: 0 <= k < |cs| ==> owner < cs[k] < |nodes|
    ensures |ts| == |cs|
    decreases |nodes| - owner, 0, |cs|
  {
    if cs == [] then []
    else [ViewTreeOf(nodes, cs[0])] + ViewForest(nodes, cs[1..], owner)
  }

  /** The wrapped view tree of a subtree depends only on the nodes from its root on. */
  lemma {:induction false} ViewTreeFrame(a: seq<NodeInfo>, b: seq<NodeInfo>, lo: int, n: NodeId)
    requires WellFormed(a) && WellFormed(b) && |a| <= |b|
    requires 0 <= lo <= n < |a|
    requires forall i :: lo <= i < |a| ==> b[i] == a[i]
    ensures ViewTreeOf(b, n) == ViewTreeOf(a, n)
    decreases |a| - n, 1, 0
  {
    assert Linked(a, n);
    ViewForestFrame(a, b, lo, a[n].children, n);
  }

  lemma {:induction false} ViewForestFrame(a: seq<NodeInfo>, b: seq<NodeInfo>, lo: int, cs: seq<NodeId>, owner: NodeId)
    requires WellFormed(a) && WellFormed(b) && |a| <= |b|
    requires 0 <= owner < |a| && 0 <= lo <= owner + 1
    requires forall k :: 0 <= k < |cs| ==> owner < cs[k] < |a|
    requires forall i :: lo <= i < |a| ==> b[i] == a[i]
    ensures ViewForest(b, cs, owner) == ViewForest(a, cs, owner)
    decreases |a| - owner, 0, |cs|
  {
    if cs != [] {
      ViewTreeFrame(a, b, lo, cs[0]);
      ViewForestFrame(a, b, lo, cs[1..], owner);
    }
  }

  /** Adding a child at the end of a children list adds its view tree at the end. */
  lemma {:induction false} ViewForestAppend(nodes: seq<NodeInfo>, cs: seq<NodeId>, c: NodeId, owner: NodeId)
    requires WellFormed(nodes) && 0 <= owner < |nodes|
    requires forall k :: 0 <= k < |cs| ==> owner < cs[k] < |nodes|
    requires owner < c < |nodes|
    ensures ViewForest(nodes, cs + [c], owner) == ViewForest(nodes, cs, owner) + [ViewTreeOf(nodes, c)]
    decreases |cs|
  {
    if cs == [] {
      assert cs + [c] == [c];
    } else {
      assert (cs + [c])[1..] == cs[1..] + [c];
      ViewForestAppend(nodes, cs[1..], c, owner);
    }
  }

  // ---------------------------------------------------------------------------
  // The arena

  /** The arena after appending `node` and registering it as its parent's last child. */
  function Attach(nodes: seq<NodeInfo>, node: NodeInfo): seq<NodeInfo>
    requires NoParent <= node.parent < |nodes|
  {
    var ns := nodes + [node];
    if node.parent == NoParent then ns
    else ns[node.parent := ns[node.parent].(children := ns[node.parent].children + [|nodes|])]
  }

  /** Attaching a childless node whose parent precedes it keeps the arena a forest. */
  lemma AttachWellFormed(nodes: seq<NodeInfo>, node: NodeInfo)
    requires WellFormed(nodes) && NoParent <= node.parent < |nodes| && node.children == []
    ensures WellFormed(Attach(nodes, node))
  {
    var r := Attach(nodes, node);
    forall i | 0 <= i < |r|
      ensures Linked(r, i)
    {
      if i < |nodes| {
        assert Linked(nodes, i);
      }
    }
  }

  class NodeArena {
    var nodes: seq<NodeInfo>
    var isSelected: seq<bool>
    var isExpanded: seq<bool>

    ghost predicate Valid()
      reads this
    {
      WellFormed(nodes) && |isSelected| == |nodes| && |isExpanded| == |nodes|
    }

    constructor ()
      ensures Valid()
      ensures nodes == [] && isSelected == [] && isExpanded == []
    {
      nodes, isSelected, isExpanded := [], [], [];
    }

    /**
     * `new InspectTreeNode (parent, view)`: a fresh node wrapping `vt`, registered
     * as the last child of `parent`, with a fresh child node for every subview.
     * Both flags of every new node start out false.
     */
    method Construct(vt: ViewTree, parent: int) returns (id: NodeId)
      requires Valid()
      requires NoParent <= parent < |nodes|
      modifies this
      ensures Valid()
      ensures id == old(|nodes|) < |nodes|
      ensures nodes[id].parent == parent
      ensures ViewTreeOf(nodes, id) == vt
      ensures forall i :: 0 <= i < old(|nodes|) && i != parent ==> nodes[i] == old(nodes[i])
      ensures parent != NoParent ==>
                nodes[parent] == old(nodes[parent]).(children := old(nodes[parent].children) + [id])
      ensures isSelected[..old(|nodes|)] == old(isSelected)
      ensures isExpanded[..old(|nodes|)] == old(isExpanded)
      ensures forall i :: old(|nodes|) <= i < |nodes| ==> !isSelected[i]
      ensures forall i :: old(|nodes|) <= i < |nodes| ==> !isExpanded[i]
      decreases vt, 1
    {
      id := |nodes|;
      AttachWellFormed(nodes, NodeInfo(vt.id, vt.isFakeRoot, parent, []));
      nodes := Attach(nodes, NodeInfo(vt.id, vt.isFakeRoot, parent, []));
      isSelected := isSelected + [false];
      isExpanded := isExpanded + [false];
      ConstructSubviews(vt, id);
      assert ViewTreeOf(nodes, id) == vt by {
        assert Linked(nodes, id);
      }
    }

    /** The constructor's loop: a child node for every subview of `vt`, under `id`. */
    method ConstructSubviews(vt: ViewTree, id: NodeId)
      requires Valid() && 0 <= id < |nodes| && Linked(nodes, id)
      requires nodes[id].children == []
      modifies this
      ensures Valid() && |nodes| >= old(|nodes|)
      ensures nodes[id] == old(nodes[id]).(children := nodes[id].children) && Linked(nodes, id)
      ensures ViewForest(nodes, nodes[id].children, id) == vt.subviews
      ensures forall i :: 0 <= i < old(|nodes|) && i != id ==> nodes[i] == old(nodes[i])
      ensures isSelected[..old(|nodes|)] == old(isSelected)
      ensures isExpanded[..old(|nodes|)] == old(isExpanded)
      ensures forall i :: old(|nodes|) <= i < |nodes| ==> !isSelected[i]
      ensures forall i :: old(|nodes|) <= i < |nodes| ==> !isExpanded[i]
      decreases vt, 0
    {
      var k := 0;
      while k < |vt.subviews|
        invariant 0 <= k <= |vt.subviews|
        invariant Valid() && id < |nodes| && |nodes| >= old(|nodes|)
        invariant nodes[id] == old(nodes[id]).(children := nodes[id].children) && Linked(nodes, id)
        invariant ViewForest(nodes, nodes[id].children, id) == vt.subviews[..k]
        invariant forall i :: 0 <= i < old(|nodes|) && i != id ==> nodes[i] == old(nodes[i])
        invariant isSelected[..old(|nodes|)] == old(isSelected)
        invariant isExpanded[..old(|nodes|)] == old(isExpanded)
        invariant forall i :: old(|nodes|) <= i < |nodes| ==> !isSelected[i]
        invariant forall i :: old(|nodes|) <= i < |nodes| ==> !isExpanded[i]
      {
        ghost var before := nodes;
        var c := Construct(vt.subviews[k], id);
        ViewForestFrame(before, nodes, id + 1, before[id].children, id);
        ViewForestAppend(nodes, before[id].children, c, id);
        assert vt.subviews[..k + 1] == vt.subviews[..k] + [vt.subviews[k]];
        k := k + 1;
      }
      assert vt.subviews[..k] == vt.subviews;
    }

    /** `node.IsSelected = selected` */
    method SetSelected(n: NodeId, selected: bool)
      requires Valid() && 0 <= n < |nodes|
      modifies this
      ensures Valid()
      ensures nodes == old(nodes) && isExpanded == old(isExpanded)
      ensures isSelected == old(isSelected)[n := selected]
    {
      isSelected := isSelected[n := selected];
    }

    /**
     * The `while (parent != null)` walk: sets `IsExpanded` on every proper
     * ancestor of `n` and on nothing else.
     */
    method ExpandAncestors(n: NodeId)
      requires Valid() && 0 <= n < |nodes|
      modifies this
      ensures Valid()
      ensures nodes == old(nodes) && isSelected == old(isSelected)
      ensures forall i :: 0 <= i < |nodes| ==>
                isExpanded[i] == (old(isExpanded[i]) || i in Ancestors(nodes, n))
    {
      ghost var chain := Ancestors(nodes, n);
      ghost var expanded0 := isExpanded;
      assert Linked(nodes, n);
      var parent := nodes[n].parent;
      ghost var walked := 0;
      while parent != NoParent
        invariant Valid() && nodes == old(nodes) && isSelected == old(isSelected)
        invariant NoParent <= parent < |nodes|
        invariant 0 <= walked <= |chain| && chain[walked..] == ParentChain(nodes, parent)
        invariant forall i :: 0 <= i < |nodes| ==>
                    isExpanded[i] == (expanded0[i] || i in chain[..walked])
        decreases parent + 1
      {
        assert Linked(nodes, parent);
        assert chain[walked] == parent && chain[walked + 1..] == ParentChain(nodes, nodes[parent].parent);
        assert chain[..walked + 1] == chain[..walked] + [parent];
        isExpanded := isExpanded[parent := true];
        parent := nodes[parent].parent;
        walked := walked + 1;
      }
      assert chain[..walked] == chain;
    }
  }
}
