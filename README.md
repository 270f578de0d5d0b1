# NavigationView: refresh coordination, drag and drop, selection and click rules

This project models the sequential rules of XenAdmin's navigation tree control
(`NavigationView`) and proves properties of them in Dafny. The tree it shows
holds pools, hosts, VMs, folders and grouping tags.

- **Refresh coordination.** The control has a suspend depth
  (`ignoreRefreshTreeView`) and a flag (`calledRefreshTreeView`) recording that
  a refresh arrived while suspended. `RefreshCoordination` models them twice:
  - as a pure step function `Step`/`Run` over a state and a list of events;
  - as the class `RefreshCoordinator`, whose methods are proved against `Step`.

  The owner-thread callback of `RefreshTreeView` is the step `DeliverBuiltTree`.
  Merging the built tree is an abstract step that may fail. It runs with the
  depth raised by one, and the depth is restored whatever the merge's outcome.
- **Drag and drop.** `DragDrop` builds the ordered list of drag-drop commands.
  Each command is reduced to its `CanExecute` answer and its highlight node.
  - A drop executes the first command that can execute.
  - Drag-enter answers Move when any command can execute.
  - Drag-over highlights the node of the *last* command that can execute,
    because its scan has no `break`.

  The highlighted target and the tree builder's copy of its tag form the class
  `DragHighlight`. The module also holds `CanDrag`, the rule for whether the
  selection may be dragged.
- **Selection.** `NavigationTree` stores the live tree as a forest of nodes
  indexed by position, where a parent's index is smaller than its child's.
  - The pool/host ancestor lookup is a loop that walks the parent links.
  - `SelectionsChanged` turns the selected nodes into selection items, in
    order.
- **Clicks and edits.** `TreeClicks` holds:
  - the double-click command choice;
  - the right-click selection rule;
  - where the tree's own context-menu entries are inserted;
  - `SelectObject`, which retries after clearing the search.

  `LabelEdit` holds the label-edit rename. It pairs with the refresh
  suspension: the refresh is resumed at once when there is no rename, and on
  completion when there is one.

Behaviour of the code that the model keeps:
- `ResumeRefreshTreeView` does not clear the pending flag after it asks for the
  catch-up refresh. The flag is cleared only by the next suspend from depth 0.
  `Coalescing` proves that a stale flag never causes a request.
- `ResumeRefreshTreeView` does not guard against going below depth 0. It
  neither reports nor clamps an error. The class method therefore requires
  depth > 0. `Step` is total on integers, as the code is.
- Drop uses the first executable command and drag-over the last one.
  `DropAndHoverAgree` shows the two agree when at most one command can execute.
  `HoverFollowsLastCommand` is a case where they differ.
- A successful rename resumes the refresh and then refreshes the tree itself.
  A tree delivered during the edit therefore adds a second requested refresh on
  top of the immediate one (`RenameRoundTrip`).

## Model

| member | source | states |
|---|---|---|
| `NavigationTree.AncestorOfNode` | XenAdmin/Controls/MainWindowControls/NavigationView.cs:269-293 | The walk up the parent links returns the ancestor given by the path specification, and what it returns is a pool (respectively a host). |
| `NavigationTree.AncestorIsFirstOnPath` | XenAdmin/Controls/MainWindowControls/NavigationView.cs:269-293 | The ancestor is the object of the first node of the wanted kind on the path from the node to its root. It is null exactly when no node on that path has that kind. |
| `NavigationTree.SelectionsChanged` | XenAdmin/Controls/MainWindowControls/NavigationView.cs:716-738 | There is one selection item per selected node, in the same order, and each is that node's item. |
| `NavigationTree.ItemOfAncestry` | XenAdmin/Controls/MainWindowControls/NavigationView.cs:721-734 | An object node yields its object and connection, plus the first host and pool on its path to the root. A pool node is its own pool and a host node its own host. Any other node yields a grouping-tag item. |
| `RefreshCoordination.Step` | XenAdmin/Controls/MainWindowControls/NavigationView.cs:204-265 | One suspend, resume or delivered tree. The depth moves by +1, -1 or 0. The flag changes only when a suspend from depth 0 clears it or a delivery while suspended sets it. A suspend raises only its notification. A refresh is requested exactly by a resume that reaches depth 0 with the flag set. A delivery raises nothing exactly when suspended. Every merge happens in a delivery, at the old depth + 1. |
| `RefreshCoordination.Run` | XenAdmin/Controls/MainWindowControls/NavigationView.cs:204-265 | Running a sequence of operations ends at the depth given by counting its suspends and resumes. |
| `RefreshCoordination.RefreshCoordinator.constructor` | XenAdmin/Controls/MainWindowControls/NavigationView.cs:60-62 | The control starts at depth 0 with no pending refresh and no events. |
| `RefreshCoordination.RefreshCoordinator.SuspendRefreshTreeView` | XenAdmin/Controls/MainWindowControls/NavigationView.cs:204-214 | The depth grows by exactly 1. The pending flag is cleared only when the depth was 0. The suspended notification is raised. |
| `RefreshCoordination.RefreshCoordinator.ResumeRefreshTreeView` | XenAdmin/Controls/MainWindowControls/NavigationView.cs:216-226 | The depth shrinks by exactly 1 and the flag is unchanged. One refresh is requested exactly when the new depth is 0 and the flag was set; otherwise none is. The resumed notification follows. |
| `RefreshCoordination.RefreshCoordinator.MergeBuiltTree` | XenAdmin/Controls/MainWindowControls/NavigationView.cs:246-257 | The abstract merge records that it ran, the depth it ran at, and whether it failed. |
| `RefreshCoordination.RefreshCoordinator.DeliverBuiltTree` | XenAdmin/Controls/MainWindowControls/NavigationView.cs:236-265 | When suspended, it sets the pending flag and neither merges nor raises the refreshed event. Otherwise it merges at depth + 1, restores the depth even when the merge fails, and raises the refreshed event. |
| `RefreshCoordination.SuspendedRun` | XenAdmin/Controls/MainWindowControls/NavigationView.cs:238-242 | While the depth stays at 1 or more, a delivered tree only sets the flag. Nothing is merged or requested. |
| `RefreshCoordination.Coalescing` | XenAdmin/Controls/MainWindowControls/NavigationView.cs:204-241 | From a suspend at depth 0 to its matching resume, exactly one refresh is requested if any tree was delivered in between, and none otherwise. No merge happens in between. |
| `RefreshCoordination.MergesRunAtDepthOne` | XenAdmin/Controls/MainWindowControls/NavigationView.cs:238-261 | Whenever the depth never goes negative, every merge runs at depth exactly 1. |
| `DragDrop.GetDragDropCommands` | XenAdmin/Controls/MainWindowControls/NavigationView.cs:310-324 | The list is always add-host-to-pool, migrate-VM, remove-host-from-pool. Tag and into-folder follow, in that order, only in Organization mode. Each entry carries its own command's verdict. |
| `DragDrop.FirstExecutable` | XenAdmin/Controls/MainWindowControls/NavigationView.cs:540-547 | This is the index of the first command that can execute, and it is absent exactly when none can. |
| `DragDrop.LastExecutable` | XenAdmin/Controls/MainWindowControls/NavigationView.cs:590-594 | This is the index of the last command that can execute, and it is absent exactly when none can. |
| `DragDrop.DropAndHoverAgree` | XenAdmin/Controls/MainWindowControls/NavigationView.cs:540-594 | When at most one command can execute, the dropped command and the highlighted command are the same. |
| `DragDrop.HoverFollowsLastCommand` | XenAdmin/Controls/MainWindowControls/NavigationView.cs:588-594 | Suppose add-host-to-pool cannot execute, migrate-VM and remove-host-from-pool both can, and in Organization mode neither tag nor into-folder can. Then the drop runs migrate-VM while drag-over highlights remove-host-from-pool's node, whatever that node is. |
| `DragDrop.DropPrefersEarlier` | XenAdmin/Controls/MainWindowControls/NavigationView.cs:534-548 | A drop runs migrate-VM whenever it can execute and add-host-to-pool cannot, whatever the later commands say. |
| `DragDrop.DragEnter` | XenAdmin/Controls/MainWindowControls/NavigationView.cs:550-562 | The effect is Move exactly when some command can execute, and None otherwise. |
| `DragDrop.DragHighlight.constructor` | XenAdmin/Controls/MainWindowControls/NavigationView.cs:60 | The control starts with no highlighted drag target. |
| `DragDrop.DragHighlight.ClearHighlightedDragTarget` | XenAdmin/Controls/MainWindowControls/NavigationView.cs:326-335 | The highlighted node, if any, gets its colours back. The highlight and the builder's copy are both cleared. |
| `DragDrop.DragHighlight.DragLeave` | XenAdmin/Controls/MainWindowControls/NavigationView.cs:564-567 | Leaving the tree clears the highlight. |
| `DragDrop.DragHighlight.DragDrop` | XenAdmin/Controls/MainWindowControls/NavigationView.cs:534-548 | It clears the highlight, then executes exactly the first command that can execute, or nothing if none can. |
| `DragDrop.DragHighlight.DragOver` | XenAdmin/Controls/MainWindowControls/NavigationView.cs:569-613 | The target is the highlight node of the last executable command. With no target, the highlight is cleared and the effect is None. A new target replaces the old highlight and records its tag for the builder. The same target is left untouched. The effect is Move whenever there is a target. |
| `DragDrop.CanDrag` | XenAdmin/Controls/MainWindowControls/NavigationView.cs:295-308 | In the Objects and Organization modes, the selection can be dragged exactly when every item is an object on a live connection. Otherwise an empty selection gets the library's answer, and a non-empty one can be dragged exactly when it is all hosts or all non-template VMs. A non-empty selection that can be dragged holds only objects. |
| `DragDrop.CanDragNeverMixes` | XenAdmin/Controls/MainWindowControls/NavigationView.cs:295-301 | Outside the Objects and Organization modes, a selection holding both a host and a VM cannot be dragged. |
| `DragDrop.CanDragNoTemplates` | XenAdmin/Controls/MainWindowControls/NavigationView.cs:297-301 | Outside the Objects and Organization modes, a selection holding a template cannot be dragged. |
| `DragDrop.CanDragSelectedNodes` | XenAdmin/Controls/MainWindowControls/NavigationView.cs:302-307 | In the Objects and Organization modes, the selection derived from the tree can be dragged exactly when every selected node carries an object whose connection is up. |
| `TreeClicks.DoubleClick` | XenAdmin/Controls/MainWindowControls/NavigationView.cs:658-714 | Only a left double-click on a node does anything. A disconnected connection is reconnected, without asking CanExecute. Otherwise a command runs exactly when it can execute. Start needs a halted non-template VM that allows start, resume a suspended one that allows resume, new-VM a template, and power-on a host node, which it powers on. Conversely, on a live connection that VM command or the host's power-on does run whenever it can execute. |
| `TreeClicks.TemplateOnlyCreatesVM` | XenAdmin/Controls/MainWindowControls/NavigationView.cs:683-686 | A double-click on a template on a live connection creates a VM from it, or does nothing. It never starts or resumes the template. |
| `TreeClicks.RightClickSelection` | XenAdmin/Controls/MainWindowControls/NavigationView.cs:337-363 | A menu is shown exactly for a right-click on a node that is already selected or can be selected. The selection is kept when it holds the node, and otherwise becomes that node alone. |
| `TreeClicks.InsertIndex` | XenAdmin/Controls/MainWindowControls/NavigationView.cs:384-392 | The insert index is one before the end when the last entry is Properties, and the end otherwise. |
| `TreeClicks.AddTreeItems` | XenAdmin/Controls/MainWindowControls/NavigationView.cs:401-433 | The tree's own entries land at the insert index in the order untag, remove-from-folder, expand, collapse. Each is present only when it can execute and its guard allows it. |
| `TreeClicks.PropertiesStaysLast` | XenAdmin/Controls/MainWindowControls/NavigationView.cs:384-395 | A trailing Properties entry stays last once the tree's entries are in. Without one, they go to the end. |
| `TreeClicks.HandleNodeRightClick` | XenAdmin/Controls/MainWindowControls/NavigationView.cs:337-399 | The new selection is as the right-click rule says. The menu is the top-node menu or the builder's, with the tree's entries at the insert index. It is shown exactly when it is non-empty. |
| `TreeClicks.SelectObject` | XenAdmin/Controls/MainWindowControls/NavigationView.cs:162-186 | The search is cleared, the tree refreshed and the selection retried only when the first attempt failed, was not cancelled and a search was active. Otherwise the first attempt's answer stands (false with no nodes). |
| `LabelEdit.RenamePlan` | XenAdmin/Controls/MainWindowControls/NavigationView.cs:468-484 | A rename exists exactly for a non-empty label on a folder or grouping-tag node. The new tag carries the label as its name. A grouping tag keeps its grouping and parent. A renamed folder has no connection. |
| `LabelEdit.AfterLabelEdit` | XenAdmin/Controls/MainWindowControls/NavigationView.cs:436-495 | If the rename exists and can execute, it is executed and the refresh stays suspended. Otherwise the refresh is resumed once, now, and the edit is cancelled. |
| `LabelEdit.RenameCompleted` | XenAdmin/Controls/MainWindowControls/NavigationView.cs:445-466 | Completion resumes the refresh exactly once. On success the node takes its new tag, the tree is refreshed, and the selection items are derived again from the retagged tree. |
| `LabelEdit.RenameRoundTrip` | XenAdmin/Controls/MainWindowControls/NavigationView.cs:445-466 | A successful rename from an unsuspended state ends at depth 0, with its own merge at depth 1 as the last events. Before that, the suspended period coalesces as above. |

## Left out

- Tree building and the identity-keyed merge (`treeBuilder.CreateNewRootNode`, `treeBuilder.RefreshTreeView`) are reduced to an abstract merge step that may fail. `MainWindowTreeBuilder` is not part of this model.
- Re-entry during the merge is not modelled: `DeliverBuiltTree` is one atomic step. In the code, a refresh callback that arrives while the merge holds the depth raised (line 244) only sets `calledRefreshTreeView`. The `finally` at lines 258-261 never checks that flag, and the next suspend from depth 0 clears it (lines 208-209), so such a refresh is dropped. The model cannot express this.
- Threads and `Program.Invoke` are left out. The owner-thread callback is a separate sequential step. Where `RefreshTreeView` is called on the owner thread (`SelectObject`, rename completion), the callback runs at once, which is how `Program.Invoke` behaves there. `Program` is not part of this model.
- Rendering and hit-testing are left out. This covers colours (only recorded as highlight/restore events), fonts, image lists, `ItemHeight`, `GetNodeAt`/`PointToClient` (the target node is folded into each command's verdict) and the auto-scroll at lines 574-586.
- Context-menu construction and the commands themselves are left out. `ContextMenuBuilder`'s output is an input, and each command is reduced to its `CanExecute` answer. Showing the menu is a boolean.
- The search box state (`SaveState`, `RestoreState`, `SearchTextChanged`) is left out. Clearing the search is modelled as the search text becoming empty.
- log4net logging and the debug-only rethrow when a debugger is attached are left out. Event handlers are taken as always subscribed.
- `TreeViewContainsFocus`, `TryToSelectNewNode`, `EditSelectedNode` and `FocusTreeView` are left out: they only forward to the tree view.
- `treeView_KeyUp` is left out: it re-enters the right-click handler or runs Properties.
- `treeView_NodeMouseClick` is left out: it calls the right-click handler when the tree has nodes.
- `treeView_ItemDrag` (lines 512-532) is not modelled. It selects the dragged node, lets the selection manager update, then asks `CanDrag`, and that round trip through the main window is outside this file.
- `treeView_BeforeSelect` appears only as the assumption, in `RightClickSelection`, that an unselectable node's selection is cancelled.
- `CanDrag`: for an empty selection, the answer of the library's `AllItemsAre<T>` is an input (`whenEmpty`). For a non-empty selection it is "every item is an object of that type".
- `RenameCompleted` derives the new selection items from the retagged tree, not from the tree the refresh merges, because the merge is abstract.
- `SelectObject` takes the results of the tree view's own search for the object as inputs.
- `TreeSearchBox.Mode` is modelled as four modes. Only Objects and Organization are told apart by these rules; `TreeSearchBox` is not part of this model.
- `Folder` is modelled as one of the objects (an `IXenObject`), and the label-edit rule tests for it before grouping tags. `XenAdmin/Model/Folder.cs` is not part of this model.
- `RenamePlan`: reading the `null` first argument of `new Folder(null, e.Label)` (line 475) as the folder's connection is an assumption, because `Folder`'s constructor is not part of this model.
