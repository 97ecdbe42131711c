/**
 * The view inspector's tree root: an observable collection of top-level nodes kept
 * in step with the view-inspector model.  It reacts to changes of the model's root,
 * represented and selected views, and writes a selection made in the tree back
 * into the model.  Every comparison of views is an identity comparison.
 */
module ViewInspector {
  import opened Wrappers
  import opened Views
  import opened TreeModel

  /** The model properties whose change the tree is told about. */
  datatype ModelProperty =
    | RootView | RepresentedView | SelectedView
    | RenderingDepth | DisplayMode | ShowHidden

  /** The tree's own change-notifying properties. */
  datatype TreeProperty = RootNodeProperty | RepresentedNodeProperty | SelectedNodeProperty

  /** What the tree announces to the rendering layer, in order. */
  datatype TreeEvent =
    | CollectionReset
    | ItemAdded(node: NodeId)
    | PropertyChanged(property: TreeProperty)

  /** The parts of the view-inspector model the tree reads and writes. */
  class ViewInspectorViewModel {
    var rootView: Option<ViewTree>
    var representedView: Option<ViewId>
    var selectedView: Option<ViewId>

    constructor ()
      ensures rootView == None && representedView == None && selectedView == None
    {
      rootView, representedView, selectedView := None, None, None;
    }
  }

  /** `node?.View` */
  function ViewOf(nodes: seq<NodeInfo>, node: Option<NodeId>): Option<ViewId>
    requires node.Some? ==> 0 <= node.value < |nodes|
  {
    match node
    case None => None
    case Some(n) => Some(nodes[n].view)
  }

  /** Every entry of `ns` is a node of the arena. */
  predicate AllIn(nodes: seq<NodeInfo>, ns: seq<NodeId>)
  {
    forall k :: 0 <= k < |ns| ==> 0 <= ns[k] < |nodes|
  }

  /**
   * What the collection holds once `RootNode` is `r`: the children of a fake
   * root in order, or else the root alone.
   */
  function TopLevel(nodes: seq<NodeInfo>, r: NodeId): (items: seq<NodeId>)
    requires WellFormed(nodes) && 0 <= r < |nodes|
    ensures r in items <==> !nodes[r].isFakeRoot
    ensures forall k :: 0 <= k < |items| ==> r <= items[k] < |nodes|
    ensures nodes[r].isFakeRoot ==> forall k :: 0 <= k < |items| ==> nodes[items[k]].parent == r
  {
    assert Linked(nodes, r);
    if nodes[r].isFakeRoot then nodes[r].children else [r]
  }

  /** The events `Add` raises for each of `ns`, in order. */
  function AddedEvents(ns: seq<NodeId>): (es: seq<TreeEvent>)
  {
    seq(|ns|, k requires 0 <= k < |ns| => ItemAdded(ns[k]))
  }

  /** Walks `order` front to back and stops at the first node wrapping `v`. */
  method FindFirst(nodes: seq<NodeInfo>, order: seq<NodeId>, v: Option<ViewId>) returns (found: Option<NodeId>)
    requires AllIn(nodes, order)
    ensures found == FirstMatch(nodes, order, v)
  {
    found := None;
    var k := 0;
    while k < |order|
      invariant 0 <= k <= |order|
      invariant FirstMatch(nodes, order, v) == FirstMatch(nodes, order[k..], v)
    {
      assert order[k..][0] == order[k] && order[k..][1..] == order[k + 1..];
      if HasView(nodes, order[k], v) {
        found := Some(order[k]);
        return;
      }
      k := k + 1;
    }
    assert order[k..] == [];
  }

  /** The first node of `order` whose view is `v`, if any. */
  function FirstMatch(nodes: seq<NodeInfo>, order: seq<NodeId>, v: Option<ViewId>): (r: Option<NodeId>)
    requires AllIn(nodes, order)
    ensures r.None? <==> forall k :: 0 <= k < |order| ==> !HasView(nodes, order[k], v)
    ensures r.Some? ==> exists k :: 0 <= k < |order| && order[k] == r.value &&
                          HasView(nodes, order[k], v) &&
                          forall j :: 0 <= j < k ==> !HasView(nodes, order[j], v)
  {
    if order == [] then None
    else if HasView(nodes, order[0], v) then Some(order[0])
    else
      var r := FirstMatch(nodes, order[1..], v);
      assert forall k :: 1 <= k < |order| ==> order[k] == order[1..][k - 1];
      r
  }

  /** The last node of `order` whose view is `v`, if any. */
  function LastMatch(nodes: seq<NodeInfo>, order: seq<NodeId>, v: Option<ViewId>): Option<NodeId>
    requires AllIn(nodes, order)
  {
    if order == [] then None
    else if HasView(nodes, order[|order| - 1], v) then Some(order[|order| - 1])
    else
      var front := order[..|order| - 1];
      assert forall k :: 0 <= k < |front| ==> front[k] == order[k];
      LastMatch(nodes, front, v)
  }

  /** `LastMatch` finds nothing exactly when no node of `order` wraps `v`. */
  lemma {:induction false} LastMatchNone(nodes: seq<NodeInfo>, order: seq<NodeId>, v: Option<ViewId>)
    requires AllIn(nodes, order)
    ensures LastMatch(nodes, order, v).None? <==> forall k :: 0 <= k < |order| ==> !HasView(nodes, order[k], v)
  {
    if order != [] && !HasView(nodes, order[|order| - 1], v) {
      var front := order[..|order| - 1];
      LastMatchNone(nodes, front, v);
      assert forall k :: 0 <= k < |front| ==> front[k] == order[k];
    }
  }

  /** What `LastMatch` finds is a node of `order` wrapping `v` with no later one. */
  lemma {:induction false} LastMatchFound(nodes: seq<NodeInfo>, order: seq<NodeId>, v: Option<ViewId>)
    requires AllIn(nodes, order) && LastMatch(nodes, order, v).Some?
    ensures exists k :: 0 <= k < |order| && order[k] == LastMatch(nodes, order, v).value &&
                        HasView(nodes, order[k], v) &&
                        forall j :: k < j < |order| ==> !HasView(nodes, order[j], v)
  {
    var k := |order| - 1;
    if HasView(nodes, order[k], v) {
      assert order[k] == LastMatch(nodes, order, v).value;
    } else {
      var front := order[..k];
      LastMatchFound(nodes, front, v);
      var i :| 0 <= i < |front| && front[i] == LastMatch(nodes, front, v).value &&
               HasView(nodes, front[i], v) &&
               forall j :: i < j < |front| ==> !HasView(nodes, front[j], v);
      assert order[i] == front[i] == LastMatch(nodes, order, v).value;
      assert forall j :: i < j < |front| ==> order[j] == front[j];
    }
  }

  /** The nodes that walking up from each node of `order` whose view is `v` expands. */
  ghost function ExpandedBy(nodes: seq<NodeInfo>, order: seq<NodeId>, v: Option<ViewId>): set<NodeId>
    requires WellFormed(nodes) && AllIn(nodes, order)
  {
    if order == [] then {}
    else
      var front := order[..|order| - 1];
      var last := order[|order| - 1];
      assert forall k :: 0 <= k < |front| ==> front[k] == order[k];
      ExpandedBy(nodes, front, v) +
      (if HasView(nodes, last, v) then set a | a in Ancestors(nodes, last) else {})
  }

  /** A node is expanded by the traversal exactly when it is an ancestor of some match. */
  lemma {:induction false} ExpandedByMeaning(nodes: seq<NodeInfo>, order: seq<NodeId>, v: Option<ViewId>)
    requires WellFormed(nodes) && AllIn(nodes, order)
    ensures forall a :: a in ExpandedBy(nodes, order, v) <==>
              exists k :: 0 <= k < |order| && HasView(nodes, order[k], v) && a in Ancestors(nodes, order[k])
  {
    if order != [] {
      var front := order[..|order| - 1];
      ExpandedByMeaning(nodes, front, v);
      assert forall k :: 0 <= k < |front| ==> front[k] == order[k];
      assert order == front + [order[|order| - 1]];
    }
  }

  /**
   * The `IsSelected` flags after visiting `order`, from `flags` before: each
   * visited node's flag is overwritten with whether it wraps `v`.
   */
  ghost function SelectionFlags(nodes: seq<NodeInfo>, flags: seq<bool>, order: seq<NodeId>, v: Option<ViewId>): (r: seq<bool>)
    requires AllIn(nodes, order) && |flags| == |nodes|
    ensures |r| == |nodes|
  {
    if order == [] then flags
    else
      var front, last := order[..|order| - 1], order[|order| - 1];
      assert forall k :: 0 <= k < |front| ==> front[k] == order[k];
      SelectionFlags(nodes, flags, front, v)[last := HasView(nodes, last, v)]
  }

  /**
   * After the traversal every visited node is selected exactly when it wraps `v`;
   * the flags of the nodes it did not visit are untouched.
   */
  lemma {:induction false} SelectionFlagsMeaning(nodes: seq<NodeInfo>, flags: seq<bool>, order: seq<NodeId>, v: Option<ViewId>)
    requires AllIn(nodes, order) && |flags| == |nodes|
    ensures forall i :: 0 <= i < |nodes| ==>
              SelectionFlags(nodes, flags, order, v)[i] ==
                if i in order then HasView(nodes, i, v) else flags[i]
  {
    if order != [] {
      var front := order[..|order| - 1];
      assert order == front + [order[|order| - 1]];
      SelectionFlagsMeaning(nodes, flags, front, v);
    }
  }

  /** Extending the traversal prefix by one node: its match becomes the last one. */
  lemma LastMatchStep(nodes: seq<NodeInfo>, order: seq<NodeId>, k: nat, v: Option<ViewId>)
    requires AllIn(nodes, order) && k < |order|
    ensures LastMatch(nodes, order[..k + 1], v) ==
            if HasView(nodes, order[k], v) then Some(order[k]) else LastMatch(nodes, order[..k], v)
  {
    assert order[..k + 1][..k] == order[..k];
  }

  /** Extending the traversal prefix by one node: a match adds its ancestors. */
  lemma ExpandedByStep(nodes: seq<NodeInfo>, order: seq<NodeId>, k: nat, v: Option<ViewId>)
    requires WellFormed(nodes) && AllIn(nodes, order) && k < |order|
    ensures forall a :: a in ExpandedBy(nodes, order[..k + 1], v) <==>
              a in ExpandedBy(nodes, order[..k], v) ||
              (HasView(nodes, order[k], v) && a in Ancestors(nodes, order[k]))
  {
    assert order[..k + 1][..k] == order[..k];
  }

  class InspectTreeRoot {
    const model: ViewInspectorViewModel
    /** Every node this tree has constructed. */
    const arena: NodeArena
    /** The observable collection's contents: the top-level nodes. */
    var items: seq<NodeId>
    var rootNode: Option<NodeId>
    var represented: Option<NodeId>
    var selectedNode: Option<NodeId>
    /** Everything the tree has announced, oldest first. */
    var events: seq<TreeEvent>

    ghost predicate Valid()
      reads this, arena
    {
      && arena.Valid()
      && AllIn(arena.nodes, items)
      && (rootNode.Some? ==> 0 <= rootNode.value < |arena.nodes|)
      && (represented.Some? ==> 0 <= represented.value < |arena.nodes|)
      && (selectedNode.Some? ==> 0 <= selectedNode.value < |arena.nodes|)
    }

    constructor (model: ViewInspectorViewModel)
      ensures Valid() && fresh(arena)
      ensures this.model == model && arena.nodes == []
      ensures items == [] && rootNode == None && represented == None && selectedNode == None
      ensures events == []
    {
      this.model := model;
      arena := new NodeArena();
      items, rootNode, represented, selectedNode, events := [], None, None, None, [];
    }

    /**
     * A tree listening to `model`.  The subscription itself is not modelled: the
     * caller passes each change on to `ModelPropertyChanged`.
     */
    static method CreateRoot(model: ViewInspectorViewModel) returns (tree: InspectTreeRoot)
      ensures fresh(tree) && fresh(tree.arena) && tree.Valid()
      ensures tree.model == model && tree.arena.nodes == [] && tree.items == []
      ensures tree.rootNode == None && tree.represented == None && tree.selectedNode == None
      ensures tree.events == []
    {
      tree := new InspectTreeRoot(model);
    }

    // -------------------------------------------------------------------------
    // The observable collection

    /** `Clear ()`: empties the collection and announces a reset. */
    method Clear()
      modifies this
      ensures items == [] && events == old(events) + [CollectionReset]
      ensures rootNode == old(rootNode) && represented == old(represented)
      ensures selectedNode == old(selectedNode)
    {
      items := [];
      events := events + [CollectionReset];
    }

    /** `Add (node)`: appends to the collection and announces the addition. */
    method Add(node: NodeId)
      modifies this
      ensures items == old(items) + [node] && events == old(events) + [ItemAdded(node)]
      ensures rootNode == old(rootNode) && represented == old(represented)
      ensures selectedNode == old(selectedNode)
    {
      items := items + [node];
      events := events + [ItemAdded(node)];
    }

    /** Fills the cleared collection from the root `r`: its children when it is the fake root, else `r`. */
    method AddTopLevel(r: NodeId)
      requires Valid() && 0 <= r < |arena.nodes|
      modifies this
      ensures Valid()
      ensures items == old(items) + TopLevel(arena.nodes, r)
      ensures events == old(events) + AddedEvents(TopLevel(arena.nodes, r)) + [PropertyChanged(RootNodeProperty)]
      ensures rootNode == old(rootNode) && represented == old(represented)
      ensures selectedNode == old(selectedNode)
    {
      assert Linked(arena.nodes, r);
      if arena.nodes[r].isFakeRoot {
        AddAll(arena.nodes[r].children);
      } else {
        Add(r);
        assert AddedEvents([r]) == [ItemAdded(r)];
      }
      events := events + [PropertyChanged(RootNodeProperty)];
    }

    /** Adds `ns` one after the other, as the fake root's `foreach` does. */
    method AddAll(ns: seq<NodeId>)
      modifies this
      ensures items == old(items) + ns && events == old(events) + AddedEvents(ns)
      ensures rootNode == old(rootNode) && represented == old(represented)
      ensures selectedNode == old(selectedNode)
    {
      var k := 0;
      while k < |ns|
        invariant 0 <= k <= |ns|
        invariant items == old(items) + ns[..k] && events == old(events) + AddedEvents(ns[..k])
        invariant rootNode == old(rootNode) && represented == old(represented)
        invariant selectedNode == old(selectedNode)
      {
        Add(ns[k]);
        assert ns[..k + 1] == ns[..k] + [ns[k]];
        assert AddedEvents(ns[..k + 1]) == AddedEvents(ns[..k]) + [ItemAdded(ns[k])];
        k := k + 1;
      }
      assert ns[..k] == ns;
    }

    // -------------------------------------------------------------------------
    // The three node properties

    /**
     * The `RootNode` setter.  The collection is always cleared; a null value
     * stops there and keeps the stored root.  Otherwise the value becomes the
     * root and the collection holds `TopLevel` of it.
     */
    method SetRootNode(value: Option<NodeId>)
      requires Valid()
      requires value.Some? ==> 0 <= value.value < |arena.nodes|
      modifies this
      ensures Valid()
      ensures items == if value.None? then [] else TopLevel(arena.nodes, value.value)
      ensures rootNode == if value.None? then old(rootNode) else value
      ensures represented == old(represented) && selectedNode == old(selectedNode)
      ensures events == old(events) + [CollectionReset] +
                if value.None? then []
                else AddedEvents(items) + [PropertyChanged(RootNodeProperty)]
    {
      Clear();
      if value.None? {
        return;
      }
      rootNode := value;
      AddTopLevel(value.value);
    }

    /** The `RepresentedNode` setter: stores and announces only a different node. */
    method SetRepresentedNode(value: Option<NodeId>)
      requires Valid()
      requires value.Some? ==> 0 <= value.value < |arena.nodes|
      modifies this
      ensures Valid()
      ensures represented == value
      ensures events == old(events) +
                if value == old(represented) then [] else [PropertyChanged(RepresentedNodeProperty)]
      ensures items == old(items) && rootNode == old(rootNode) && selectedNode == old(selectedNode)
    {
      if represented != value {
        represented := value;
        events := events + [PropertyChanged(RepresentedNodeProperty)];
      }
    }

    /**
     * The `SelectedNode` setter, the path from the tree back to the model.  It does
     * nothing when the node is already the selected one and the model already
     * selects its view; otherwise it stores the node, writes the node's view into
     * the model and announces the change.
     */
    method SetSelectedNode(value: Option<NodeId>)
      requires Valid()
      requires value.Some? ==> 0 <= value.value < |arena.nodes|
      modifies this, model
      ensures Valid()
      ensures model.rootView == old(model.rootView)
      ensures model.representedView == old(model.representedView)
      ensures items == old(items) && rootNode == old(rootNode) && represented == old(represented)
      // either way the node is stored and the model agrees with it
      ensures selectedNode == value && model.selectedView == ViewOf(arena.nodes, value)
      ensures old(value == selectedNode && model.selectedView == ViewOf(arena.nodes, selectedNode)) ==>
                selectedNode == old(selectedNode) && events == old(events) &&
                model.selectedView == old(model.selectedView)
      ensures old(value != selectedNode || model.selectedView != ViewOf(arena.nodes, selectedNode)) ==>
                selectedNode == value && model.selectedView == ViewOf(arena.nodes, value) &&
                events == old(events) + [PropertyChanged(SelectedNodeProperty)]
    {
      if value == selectedNode && model.selectedView == ViewOf(arena.nodes, selectedNode) {
        return;
      }
      selectedNode := value;
      model.selectedView := ViewOf(arena.nodes, selectedNode);
      events := events + [PropertyChanged(SelectedNodeProperty)];
    }

    // -------------------------------------------------------------------------
    // Reactions to the model

    /** The reaction to a change of the model's root view, as a transition. */
    twostate predicate RootViewHandled()
      requires old(Valid())
      reads this, arena, model
    {
      && Valid()
      && model.rootView == old(model.rootView)
      && model.representedView == old(model.representedView)
      && model.selectedView == old(model.selectedView)
      && represented == old(represented) && selectedNode == old(selectedNode)
      && if old(ViewOf(arena.nodes, rootNode)) == IdOf(model.rootView) then
           // the root already wraps this view: nothing happens
           && items == old(items) && rootNode == old(rootNode) && events == old(events)
           && arena.nodes == old(arena.nodes)
           && arena.isSelected == old(arena.isSelected)
           && arena.isExpanded == old(arena.isExpanded)
         else
           // a fresh parentless node tree wrapping the new view becomes the root
           && model.rootView.Some?
           && rootNode == Some(old(|arena.nodes|)) && rootNode.value < |arena.nodes|
           && arena.nodes[rootNode.value].parent == NoParent
           && ViewTreeOf(arena.nodes, rootNode.value) == model.rootView.value
           && items == TopLevel(arena.nodes, rootNode.value)
           && events == old(events) + [CollectionReset] + AddedEvents(items) +
                        [PropertyChanged(RootNodeProperty)]
           && arena.nodes[..old(|arena.nodes|)] == old(arena.nodes)
           && arena.isSelected[..old(|arena.nodes|)] == old(arena.isSelected)
           && arena.isExpanded[..old(|arena.nodes|)] == old(arena.isExpanded)
           && (forall i :: old(|arena.nodes|) <= i < |arena.nodes| ==> !arena.isSelected[i])
           && (forall i :: old(|arena.nodes|) <= i < |arena.nodes| ==> !arena.isExpanded[i])
    }

    /**
     * The model's root view changed.  A null root view over a non-null root node
     * makes the C# `RootNode` setter read the fake-root flag of a null view,
     * hence the second precondition.
     */
    method OnRootViewChanged()
      requires Valid()
      requires model.rootView.Some? || rootNode.None?
      modifies this, arena
      ensures RootViewHandled()
    {
      if ViewOf(arena.nodes, rootNode) == IdOf(model.rootView) {
        return;
      }
      ghost var before := arena.nodes;
      var node := arena.Construct(model.rootView.value, NoParent);
      assert arena.nodes[..|before|] == before;
      SetRootNode(Some(node));
    }

    /** The reaction to a change of the model's represented view, as a transition. */
    twostate predicate RepresentedViewHandled()
      requires old(Valid())
      reads this, arena, model
    {
      && Valid()
      && unchanged(arena) && unchanged(model)
      && items == old(items) && rootNode == old(rootNode) && selectedNode == old(selectedNode)
      && if old(ViewOf(arena.nodes, represented)) == model.representedView then
           represented == old(represented) && events == old(events)
         else
           // the first node in pre-order from the root that wraps the view, or null
           && rootNode.Some? && rootNode.value < |arena.nodes|
           && represented ==
                FirstMatch(arena.nodes, PreOrder(arena.nodes, rootNode.value), model.representedView)
           && events == old(events) +
                if represented == old(represented) then []
                else [PropertyChanged(RepresentedNodeProperty)]
    }

    /**
     * The model's represented view changed.  Past its guard the C# handler walks
     * `RootNode` without a null check, hence the second precondition.
     */
    method OnRepresentedViewChanged()
      requires Valid()
      requires ViewOf(arena.nodes, represented) != model.representedView ==> rootNode.Some?
      modifies this
      ensures RepresentedViewHandled()
    {
      var v := model.representedView;
      if ViewOf(arena.nodes, represented) == v {
        return;
      }
      var found := FindFirst(arena.nodes, PreOrder(arena.nodes, rootNode.value), v);
      SetRepresentedNode(found);
    }

    /**
     * One step of the selected-view traversal: `node` is selected exactly when it
     * wraps the model's selected view, and then it becomes the selected node and
     * its ancestors are expanded.
     */
    method VisitForSelection(node: NodeId)
      requires Valid() && 0 <= node < |arena.nodes|
      modifies this, arena, model
      ensures Valid()
      ensures model.rootView == old(model.rootView)
      ensures model.representedView == old(model.representedView)
      ensures model.selectedView == old(model.selectedView)
      ensures arena.nodes == old(arena.nodes)
      ensures items == old(items) && rootNode == old(rootNode) && represented == old(represented)
      ensures arena.isSelected == old(arena.isSelected)[node := HasView(arena.nodes, node, model.selectedView)]
      ensures forall i :: 0 <= i < |arena.nodes| ==>
                arena.isExpanded[i] ==
                  (old(arena.isExpanded[i]) ||
                   (HasView(arena.nodes, node, model.selectedView) && i in Ancestors(arena.nodes, node)))
      ensures selectedNode ==
                if HasView(arena.nodes, node, model.selectedView) then Some(node) else old(selectedNode)
      ensures events == old(events) +
                if HasView(arena.nodes, node, model.selectedView) && old(selectedNode) != Some(node)
                then [PropertyChanged(SelectedNodeProperty)] else []
    {
      var selected := HasView(arena.nodes, node, model.selectedView);
      arena.SetSelected(node, selected);
      if selected {
        SetSelectedNode(Some(node));
        arena.ExpandAncestors(node);
      }
    }

    /**
     * The `foreach` over the traversal `order` in the selected-view reaction:
     * every visited node's `IsSelected` is rewritten, each match becomes the
     * selected node in turn and has its ancestors expanded.
     */
    method SelectAlong(order: seq<NodeId>)
      requires Valid() && AllIn(arena.nodes, order)
      requires ViewOf(arena.nodes, selectedNode) != model.selectedView
      modifies this, arena, model
      ensures Valid() && arena.nodes == old(arena.nodes)
      ensures model.rootView == old(model.rootView)
      ensures model.representedView == old(model.representedView)
      ensures model.selectedView == old(model.selectedView)
      ensures items == old(items) && rootNode == old(rootNode) && represented == old(represented)
      ensures arena.isSelected == SelectionFlags(arena.nodes, old(arena.isSelected), order, model.selectedView)
      ensures forall i :: 0 <= i < |arena.nodes| ==>
                arena.isExpanded[i] ==
                  (old(arena.isExpanded[i]) || i in ExpandedBy(arena.nodes, order, model.selectedView))
      ensures selectedNode ==
                (var last := LastMatch(arena.nodes, order, model.selectedView);
                 if last.Some? then last else old(selectedNode))
      ensures |events| >= |old(events)| && events[..|old(events)|] == old(events)
      ensures forall j :: |old(events)| <= j < |events| ==>
                events[j] == PropertyChanged(SelectedNodeProperty)
      ensures LastMatch(arena.nodes, order, model.selectedView).Some? ==> |events| > |old(events)|
    {
      var nodes, v := arena.nodes, model.selectedView;
      ghost var selected0, expanded0, events0, node0 := arena.isSelected, arena.isExpanded, events, selectedNode;
      var k := 0;
      while k < |order|
        invariant 0 <= k <= |order|
        invariant Valid() && arena.nodes == nodes
        invariant model.rootView == old(model.rootView)
        invariant model.representedView == old(model.representedView)
        invariant model.selectedView == v
        invariant items == old(items) && rootNode == old(rootNode) && represented == old(represented)
        invariant arena.isSelected == SelectionFlags(nodes, selected0, order[..k], v)
        invariant forall i :: 0 <= i < |nodes| ==>
                    arena.isExpanded[i] == (expanded0[i] || i in ExpandedBy(nodes, order[..k], v))
        invariant selectedNode ==
                    (var last := LastMatch(nodes, order[..k], v); if last.Some? then last else node0)
        invariant |events| >= |events0| && events[..|events0|] == events0
        invariant forall j :: |events0| <= j < |events| ==>
                    events[j] == PropertyChanged(SelectedNodeProperty)
        invariant LastMatch(nodes, order[..k], v).Some? ==> |events| > |events0|
      {
        assert order[..k + 1] == order[..k] + [order[k]];
        LastMatchStep(nodes, order, k, v);
        assert order[..k + 1][..k] == order[..k];
        ExpandedByStep(nodes, order, k, v);
        VisitForSelection(order[k]);
        k := k + 1;
      }
      assert order[..k] == order;
    }

    /** The reaction to a change of the model's selected view, as a transition. */
    twostate predicate SelectedViewHandled()
      requires old(Valid())
      reads this, arena, model
    {
      && Valid()
      && model.rootView == old(model.rootView)
      && model.representedView == old(model.representedView)
      && model.selectedView == old(model.selectedView)
      && arena.nodes == old(arena.nodes)
      && items == old(items) && rootNode == old(rootNode) && represented == old(represented)
      && if old(ViewOf(arena.nodes, selectedNode)) == model.selectedView then
           && selectedNode == old(selectedNode) && events == old(events)
           && arena.isSelected == old(arena.isSelected)
           && arena.isExpanded == old(arena.isExpanded)
         else
           && rootNode.Some? && rootNode.value < |arena.nodes|
           && var order := PreOrder(arena.nodes, rootNode.value);
              var v := model.selectedView;
              // every node reached from the root is selected exactly when it wraps the view
              && (forall i :: 0 <= i < |arena.nodes| ==>
                    arena.isSelected[i] ==
                      if i in order then HasView(arena.nodes, i, v) else old(arena.isSelected[i]))
              // the ancestors of every match are expanded; nothing is collapsed
              && (forall i :: 0 <= i < |arena.nodes| ==>
                    arena.isExpanded[i] ==
                      (old(arena.isExpanded[i]) || i in ExpandedBy(arena.nodes, order, v)))
              // the last match becomes the selected node; without a match it stays
              && selectedNode ==
                   (var last := LastMatch(arena.nodes, order, v);
                    if last.Some? then last else old(selectedNode))
              // only selected-node changes are announced, at least one per match found
              && |events| >= |old(events)| && events[..|old(events)|] == old(events)
              && (forall k :: |old(events)| <= k < |events| ==>
                    events[k] == PropertyChanged(SelectedNodeProperty))
              && (LastMatch(arena.nodes, order, v).Some? ==> |events| > |old(events)|)
    }

    /**
     * The model's selected view changed.  Past its guard the C# handler walks
     * `RootNode` without a null check, hence the second precondition.
     */
    method OnSelectedViewChanged()
      requires Valid()
      requires ViewOf(arena.nodes, selectedNode) != model.selectedView ==> rootNode.Some?
      modifies this, arena, model
      ensures SelectedViewHandled()
    {
      var v := model.selectedView;
      if ViewOf(arena.nodes, selectedNode) == v {
        return;
      }
      var order := PreOrder(arena.nodes, rootNode.value);
      ghost var selected0 := arena.isSelected;
      SelectAlong(order);
      SelectionFlagsMeaning(arena.nodes, selected0, order, v);
    }

    /**
     * `ModelPropertyChanged`: one change notification from the model, dispatched
     * on the property that changed.  Display-only properties are ignored.
     */
    method ModelPropertyChanged(property: ModelProperty)
      requires Valid()
      requires property == RootView ==> model.rootView.Some? || rootNode.None?
      requires property == RepresentedView ==>
                 ViewOf(arena.nodes, represented) != model.representedView ==> rootNode.Some?
      requires property == SelectedView ==>
                 ViewOf(arena.nodes, selectedNode) != model.selectedView ==> rootNode.Some?
      modifies this, arena, model
      ensures property == RootView ==> RootViewHandled()
      ensures property == RepresentedView ==> RepresentedViewHandled()
      ensures property == SelectedView ==> SelectedViewHandled()
      ensures property in {RenderingDepth, DisplayMode, ShowHidden} ==>
                unchanged(this) && unchanged(arena) && unchanged(model)
    {
      match property
      case RootView => OnRootViewChanged();
      case RepresentedView => OnRepresentedViewChanged();
      case SelectedView => OnSelectedViewChanged();
      case RenderingDepth =>
      case DisplayMode =>
      case ShowHidden =>
    }

    /**
     * The `SelectedNode` setter together with the notification its write to the
     * model's selected view sends straight back to this tree.  The handler's
     * guard absorbs that echo: nothing beyond the setter's own effect happens.
     */
    method SelectNode(value: Option<NodeId>)
      requires Valid()
      requires value.Some? ==> 0 <= value.value < |arena.nodes|
      modifies this, arena, model
      ensures Valid()
      ensures selectedNode == value && model.selectedView == ViewOf(arena.nodes, value)
      ensures model.rootView == old(model.rootView)
      ensures model.representedView == old(model.representedView)
      ensures arena.nodes == old(arena.nodes)
      ensures arena.isSelected == old(arena.isSelected) && arena.isExpanded == old(arena.isExpanded)
      ensures items == old(items) && rootNode == old(rootNode) && represented == old(represented)
      ensures events == old(events) +
                if value == old(selectedNode) && old(model.selectedView) == old(ViewOf(arena.nodes, selectedNode))
                then [] else [PropertyChanged(SelectedNodeProperty)]
    {
      SetSelectedNode(value);
      ModelPropertyChanged(SelectedView);
    }
  }

  /**
   * Select a view, clear the selection, select the same view again.  Clearing
   * deselects every node but leaves `SelectedNode` in place, so the guard of the
   * third change finds the stored node already wrapping the view and returns:
   * the tree and the model name the node as selected while its `IsSelected`
   * flag stays false.
   */
  method StaleSelection() returns (tree: InspectTreeRoot)
    ensures tree.Valid() && 0 < |tree.arena.nodes|
    ensures tree.selectedNode == Some(0) && tree.model.selectedView == Some(1)
    ensures HasView(tree.arena.nodes, 0, tree.model.selectedView)
    ensures !tree.arena.isSelected[0]
  {
    var model := new ViewInspectorViewModel();
    tree := InspectTreeRoot.CreateRoot(model);
    model.rootView := Some(ViewTree(1, false, []));
    tree.ModelPropertyChanged(RootView);
    ghost var nodes := tree.arena.nodes;
    assert tree.rootNode == Some(0) && nodes[0].view == 1;
    assert Linked(nodes, 0) && nodes[0].children == [];
    assert PreOrder(nodes, 0) == [0];
    assert LastMatch(nodes, [0], Some(1)) == Some(0);
    assert LastMatch(nodes, [0], None) == None;
    model.selectedView := Some(1);
    tree.ModelPropertyChanged(SelectedView);
    assert tree.selectedNode == Some(0) && tree.arena.nodes == nodes;
    model.selectedView := None;
    tree.ModelPropertyChanged(SelectedView);
    assert tree.selectedNode == Some(0) && !tree.arena.isSelected[0];
    model.selectedView := Some(1);
    tree.ModelPropertyChanged(SelectedView);
  }
}
