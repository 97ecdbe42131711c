# InspectTreeRoot: the view inspector's tree, modelled in Dafny

The desktop client's view inspector shows the view hierarchy of a running app as a
tree. `InspectTreeRoot` is the root of that tree. It is an observable collection of
top-level `InspectTreeNode`s, and it stays in step with a `ViewInspectorViewModel`:

- A change of the model's **root view** builds a fresh node tree for the new view and
  makes it `RootNode`. The collection is then refilled: a fake root is unwrapped
  into its children, and any other root is shown alone.
- A change of the model's **represented view** walks the tree from `RootNode` in
  pre-order. The first node wrapping that view becomes `RepresentedNode`, or null
  when no node wraps it.
- A change of the model's **selected view** walks the same traversal. It rewrites
  every visited node's `IsSelected` flag. Each match becomes `SelectedNode` in turn,
  and its ancestors are expanded.
- The `SelectedNode` setter writes the node's view back into the model. Identity
  guards on both sides stop this from looping.

Every comparison of views is an identity comparison.

## How the model is laid out

- `Wrappers.dfy`: `Option`, where `None` plays the part of a null reference.
- `Views.dfy`: the view hierarchy the model hands to the tree. A view is an integer
  identity plus its fake-root flag and its subviews.
- `TreeModel.dfy`: the nodes, kept in the class `NodeArena`. Every node ever
  constructed lives at an index of `nodes`. Its `Parent` is an index or `NoParent`,
  and its `Children` are a list of indices. The mutable flags `IsSelected` and
  `IsExpanded` are two `seq<bool>` fields beside it. Nodes are only appended, so an
  index held by the tree never dangles, just as a reference would not.
  - `PreOrder` is the traversal: the node, then each child's pre-order, left to right.
  - `ParentChain` is the `while (parent != null)` walk.
  - `Construct` is node construction. Its partner is `ViewTreeOf`, which reads back
    the view tree a subtree wraps.
- `InspectTreeRoot.dfy`: the class `InspectTreeRoot`, and the parts of the
  view-inspector model it reads and writes.
  - `items` is the collection and `events` is the log of notifications.
  - There is one method per reaction, each stated as a two-state predicate
    (`RootViewHandled`, `RepresentedViewHandled`, `SelectedViewHandled`).
  - `ModelPropertyChanged` dispatches on a tag that names the changed property.

## Model

| member | source | states |
|---|---|---|
| TreeModel.PreOrder | Clients/Xamarin.Interactive.Client.Desktop/ViewInspector/InspectTreeRoot.cs:44 | the traversal from a node starts at that node and visits only nodes of the arena that were constructed after it |
| TreeModel.PreOrderForest | Clients/Xamarin.Interactive.Client.Desktop/ViewInspector/InspectTreeRoot.cs:44 | the traversal of a node's children visits every child and only nodes constructed after the node |
| TreeModel.PreOrderMeaning | Clients/Xamarin.Interactive.Client.Desktop/ViewInspector/InspectTreeRoot.cs:56 | the traversal from `n` visits a node exactly when it is `n` or `n` is one of its ancestors (both directions) |
| TreeModel.PreOrderBelow | Clients/Xamarin.Interactive.Client.Desktop/ViewInspector/InspectTreeRoot.cs:56 | every visited node is the start node or lies below it |
| TreeModel.BelowInPreOrder | Clients/Xamarin.Interactive.Client.Desktop/ViewInspector/InspectTreeRoot.cs:56 | every node below the start node is visited |
| TreeModel.ParentChain | Clients/Xamarin.Interactive.Client.Desktop/ViewInspector/InspectTreeRoot.cs:61-65 | the walk from `p` is empty exactly when `p` is null; it starts at `p`, each next node is the parent of the one before, and it stops at the first node without a parent |
| TreeModel.ParentChainClosed | Clients/Xamarin.Interactive.Client.Desktop/ViewInspector/InspectTreeRoot.cs:64 | a walk that reaches a node with a parent goes on to that parent |
| TreeModel.AttachWellFormed | Clients/Xamarin.Interactive.Client.Desktop/ViewInspector/InspectTreeRoot.cs:37 | registering a new childless node under an existing parent keeps the parent/children links of the whole arena consistent |
| TreeModel.ViewTreeFrame | Clients/Xamarin.Interactive.Client.Desktop/ViewInspector/InspectTreeRoot.cs:37 | constructing more nodes does not change the view tree an existing subtree wraps |
| TreeModel.ViewForestAppend | Clients/Xamarin.Interactive.Client.Desktop/ViewInspector/InspectTreeRoot.cs:37 | appending a child appends its wrapped view tree to the list of wrapped subviews |
| TreeModel.NodeArena.Construct | Clients/Xamarin.Interactive.Client.Desktop/ViewInspector/InspectTreeRoot.cs:37 | `new InspectTreeNode (parent, view)` yields a fresh node under `parent` whose subtree wraps exactly the given view tree; older nodes are unchanged except that `parent` gains it as its last child; all new flags are false |
| TreeModel.NodeArena.ConstructSubviews | Clients/Xamarin.Interactive.Client.Desktop/ViewInspector/InspectTreeRoot.cs:37 | a new node gets one child node per subview, in order, and their wrapped view trees are exactly the subviews |
| TreeModel.NodeArena.SetSelected | Clients/Xamarin.Interactive.Client.Desktop/ViewInspector/InspectTreeRoot.cs:58 | `node.IsSelected = selected` changes that one flag and nothing else |
| TreeModel.NodeArena.ExpandAncestors | Clients/Xamarin.Interactive.Client.Desktop/ViewInspector/InspectTreeRoot.cs:61-65 | after the walk a node is expanded exactly when it was expanded before or is a proper ancestor of `n`; nothing is collapsed and no other state changes |
| ViewInspector.TopLevel | Clients/Xamarin.Interactive.Client.Desktop/ViewInspector/InspectTreeRoot.cs:90-94 | the root is in the collection exactly when it is not a fake root; a fake root contributes its children, each of which has it as parent |
| ViewInspector.FindFirst | Clients/Xamarin.Interactive.Client.Desktop/ViewInspector/InspectTreeRoot.cs:44-49 | the search loop with its `break` finds the first match of the traversal |
| ViewInspector.FirstMatch | Clients/Xamarin.Interactive.Client.Desktop/ViewInspector/InspectTreeRoot.cs:44-49 | the result is null exactly when no visited node wraps the view; otherwise it is a visited node that wraps it and no earlier node does |
| ViewInspector.LastMatchNone | Clients/Xamarin.Interactive.Client.Desktop/ViewInspector/InspectTreeRoot.cs:56-60 | the last match of a traversal is null exactly when no visited node wraps the view |
| ViewInspector.LastMatchFound | Clients/Xamarin.Interactive.Client.Desktop/ViewInspector/InspectTreeRoot.cs:56-60 | a last match is a visited node that wraps the view, and no later node does |
| ViewInspector.ExpandedByMeaning | Clients/Xamarin.Interactive.Client.Desktop/ViewInspector/InspectTreeRoot.cs:59-65 | the traversal expands a node exactly when it is a proper ancestor of some visited node that wraps the view |
| ViewInspector.SelectionFlagsMeaning | Clients/Xamarin.Interactive.Client.Desktop/ViewInspector/InspectTreeRoot.cs:56-58 | after the loop each visited node is selected exactly when it wraps the view, and unvisited nodes keep their flag |
| ViewInspector.InspectTreeRoot.constructor | Clients/Xamarin.Interactive.Client.Desktop/ViewInspector/InspectTreeRoot.cs:21-24 | a new tree holds its model, an empty collection and no root, represented or selected node |
| ViewInspector.InspectTreeRoot.CreateRoot | Clients/Xamarin.Interactive.Client.Desktop/ViewInspector/InspectTreeRoot.cs:26-77 | yields a fresh, empty tree over the given model |
| ViewInspector.InspectTreeRoot.Clear | Clients/Xamarin.Interactive.Client.Desktop/ViewInspector/InspectTreeRoot.cs:84 | empties the collection and announces one reset |
| ViewInspector.InspectTreeRoot.Add | Clients/Xamarin.Interactive.Client.Desktop/ViewInspector/InspectTreeRoot.cs:92 | appends one node and announces its addition |
| ViewInspector.InspectTreeRoot.AddAll | Clients/Xamarin.Interactive.Client.Desktop/ViewInspector/InspectTreeRoot.cs:91-92 | the `foreach` appends the fake root's children in order, one addition each |
| ViewInspector.InspectTreeRoot.AddTopLevel | Clients/Xamarin.Interactive.Client.Desktop/ViewInspector/InspectTreeRoot.cs:89-96 | fills the collection with the root's top-level nodes, then announces `RootNode` |
| ViewInspector.InspectTreeRoot.SetRootNode | Clients/Xamarin.Interactive.Client.Desktop/ViewInspector/InspectTreeRoot.cs:83-97 | always resets the collection; null leaves it empty, keeps the stored root and announces nothing more; otherwise the value becomes the root, the collection holds exactly its top-level nodes in order, and `RootNode` is announced |
| ViewInspector.InspectTreeRoot.SetRepresentedNode | Clients/Xamarin.Interactive.Client.Desktop/ViewInspector/InspectTreeRoot.cs:102-107 | stores the value, and announces it only when it differs from the old one |
| ViewInspector.InspectTreeRoot.SetSelectedNode | Clients/Xamarin.Interactive.Client.Desktop/ViewInspector/InspectTreeRoot.cs:113-120 | a no-op when the node and the model's selected view already agree; otherwise stores the node, writes its view into the model and announces the change; either way the node is stored and the model agrees with it afterwards |
| ViewInspector.InspectTreeRoot.OnRootViewChanged | Clients/Xamarin.Interactive.Client.Desktop/ViewInspector/InspectTreeRoot.cs:33-38 | no change at all when the root already wraps the view; otherwise a fresh parentless node tree that wraps exactly the new view becomes the root, the collection is its top level, and older nodes and their flags are untouched |
| ViewInspector.InspectTreeRoot.OnRepresentedViewChanged | Clients/Xamarin.Interactive.Client.Desktop/ViewInspector/InspectTreeRoot.cs:39-51 | no change when the represented node already wraps the view; otherwise the represented node becomes the first match in pre-order from the root, or null, and the node flags are untouched |
| ViewInspector.InspectTreeRoot.VisitForSelection | Clients/Xamarin.Interactive.Client.Desktop/ViewInspector/InspectTreeRoot.cs:57-66 | one loop step: the node's flag becomes whether it wraps the view; a match becomes the selected node and its ancestors are expanded |
| ViewInspector.InspectTreeRoot.SelectAlong | Clients/Xamarin.Interactive.Client.Desktop/ViewInspector/InspectTreeRoot.cs:56-67 | after the loop the flags, the expanded set and the selected node are those the traversal defines, and only `SelectedNode` notifications were added, at least one when something matched |
| ViewInspector.InspectTreeRoot.OnSelectedViewChanged | Clients/Xamarin.Interactive.Client.Desktop/ViewInspector/InspectTreeRoot.cs:52-68 | no change when the selected node already wraps the view; otherwise every node reached from the root is selected exactly when it wraps the view, other flags are kept, exactly the ancestors of matches are newly expanded, nothing is collapsed, and the last match becomes the selected node (unchanged without a match) |
| ViewInspector.InspectTreeRoot.ModelPropertyChanged | Clients/Xamarin.Interactive.Client.Desktop/ViewInspector/InspectTreeRoot.cs:29-74 | each of the three view properties gets its reaction; the display properties change nothing at all |
| ViewInspector.StaleSelection | Clients/Xamarin.Interactive.Client.Desktop/ViewInspector/InspectTreeRoot.cs:52-60 | selecting a one-node tree's view, then null, then the same view again leaves that node as `SelectedNode` and the model's selected view while its `IsSelected` flag is false |
| ViewInspector.InspectTreeRoot.SelectNode | Clients/Xamarin.Interactive.Client.Desktop/ViewInspector/InspectTreeRoot.cs:113-118 | the setter followed by the model's echoed selected-view notification has the setter's effect and no more: the guard at line 53 absorbs the echo, so no flag changes and no further event |

## Left out

- Change notification plumbing: `NotifyPropertyChanged`, `OnPropertyChanged` and the `nameof` strings are replaced by an event log and a tagged dispatch. The subscription at line 75 is not modelled, so whoever changes the model calls `ModelPropertyChanged`.
- The observable collection's own extra notifications (its `Count` and indexer property changes) are not modelled. Only the reset and each addition are logged.
- Re-entrancy at line 118 is not modelled inside the setter, which writes the model as a plain field. `SelectNode` makes the echoed notification explicit and shows that it changes nothing.
- `TreeNode`, `TraverseTree` and the `InspectTreeNode` constructor are not part of this model. The traversal is taken to be pre-order. Construction is taken to build one child node per subview, in order, with both flags false.
- A node's `RepresentedObject` is taken to be its `View`.
- The `OfType<InspectTreeNode>` filter at line 91 is not modelled, because every child node in the model is an `InspectTreeNode`.
- Null dereferences are stated as preconditions, not as failures.
  - A null root view over a non-null root node would make line 90 read a null view.
  - Past their guards, the represented and selected reactions walk `RootNode` without a null check.
- Nodes are never freed: the arena keeps the nodes of replaced trees, so garbage collection is not modelled.
- The rendering layer, the layout, and the communication layer that produces views are not modelled.
- `Clients/Xamarin.Interactive.Client.Web/ClientApp/renderers/TestRenderer.tsx` is not modelled. It returns fixed representations and holds no state.
- Behaviour of the C# code that the model keeps as written:
  - The represented and selected searches start at `RootNode`, not at the collection, so a fake root is itself visited and can be selected or expanded.
  - Each root change constructs fresh nodes, even for the children of a fake root.
  - The selection loop has no `break`, so every match is selected and the last one becomes `SelectedNode`.
  - A selected view with no match (null, say) clears every visited `IsSelected` flag but leaves `SelectedNode` in place. Selecting the earlier view again then stops at the guard of line 53, so `SelectedNode` and the model name a node whose `IsSelected` is false; `StaleSelection` shows the sequence. The `SelectedNode` setter and its echo (`SelectNode`) change no `IsSelected` flag either. The model does not repair this.
- ViewInspector.InspectTreeRoot.SelectAlong: states that only `SelectedNode` notifications are added, at least one when something matched, but not their exact number. The exact number depends on how often consecutive matches differ from the node selected before them.
- ViewInspector.InspectTreeRoot.OnSelectedViewChanged: states the number of `SelectedNode` notifications as weakly as `SelectAlong` does, for the same reason.
