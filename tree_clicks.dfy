/** Mouse handling on the tree: the double-click command choice, the
    right-click selection rule with the placement of the tree's own menu
    entries, and selecting an object with a retry that clears the search. */
module TreeClicks {
  import opened NavTypes
  import opened NavigationTree
  import opened RefreshCoordination

  datatype MouseButton = LeftButton | RightButton | MiddleButton

  // ---------------------------------------------------------------- double click

  datatype ClickCommand = NewVM | StartVM | ResumeVM | PowerOnHost(host: XenObject)

  /** Reconnect is executed without asking CanExecute; a command is executed
      after selecting the clicked node. */
  datatype DoubleClickAction = NoAction | Reconnect(conn: Connection) | SelectAndExecute(cmd: ClickCommand)

  /** The connection behind a tag: the tag itself when it is a connection,
      otherwise the connection of its object. */
  function ConnectionOf(t: Tag): Option<Connection>
  {
    match t
    case ConnectionTag(c) => Some(c)
    case ObjectTag(o) => o.conn
    case _ => None
  }

  predicate Disconnected(t: Tag)
  {
    ConnectionOf(t).Some? && !ConnectionOf(t).value.connected
  }

  /** The command a double-click on a VM asks for, if any. */
  function VmCommand(vm: XenObject): Option<ClickCommand>
    requires vm.VM?
  {
    if vm.isTemplate then Some(NewVM)
    else if vm.power == Halted && StartOp in vm.allowed then Some(StartVM)
    else if vm.power == Suspended && ResumeOp in vm.allowed then Some(ResumeVM)
    else None
  }

  /** treeView_NodeMouseDoubleClick. node is None for a click on no node. */
  function DoubleClick(button: MouseButton, node: Option<Tag>, canExecute: ClickCommand -> bool): (r: DoubleClickAction)
    ensures r != NoAction ==> button == LeftButton && node.Some?
    ensures r.Reconnect? <==> button == LeftButton && node.Some? && Disconnected(node.value)
    ensures r.Reconnect? ==> Some(r.conn) == ConnectionOf(node.value)
    ensures r.SelectAndExecute? ==> canExecute(r.cmd) && !Disconnected(node.value)
    ensures r.SelectAndExecute? ==> node.value.ObjectTag? && (node.value.obj.VM? || node.value.obj.Host?)
    ensures r.SelectAndExecute? && r.cmd.PowerOnHost? ==> node.value == ObjectTag(r.cmd.host) && r.cmd.host.Host?
    ensures r.SelectAndExecute? && r.cmd == NewVM ==> node.value.obj.VM? && node.value.obj.isTemplate
    ensures r.SelectAndExecute? && r.cmd == StartVM ==>
      node.value.obj.VM? && !node.value.obj.isTemplate && node.value.obj.power == Halted && StartOp in node.value.obj.allowed
    ensures r.SelectAndExecute? && r.cmd == ResumeVM ==>
      node.value.obj.VM? && !node.value.obj.isTemplate && node.value.obj.power == Suspended && ResumeOp in node.value.obj.allowed
    // Conversely, on a live connection the VM's command or the host's power-on
    // runs whenever it can execute.
    ensures button == LeftButton && node.Some? && !Disconnected(node.value)
            && node.value.ObjectTag? && node.value.obj.VM?
            && VmCommand(node.value.obj).Some? && canExecute(VmCommand(node.value.obj).value)
            ==> r == SelectAndExecute(VmCommand(node.value.obj).value)
    ensures button == LeftButton && node.Some? && !Disconnected(node.value)
            && node.value.ObjectTag? && node.value.obj.Host? && canExecute(PowerOnHost(node.value.obj))
            ==> r == SelectAndExecute(PowerOnHost(node.value.obj))
  {
    if button != LeftButton || node.None? then NoAction
    else
      var t := node.value;
      if Disconnected(t) then Reconnect(ConnectionOf(t).value)
      else if t.ObjectTag? && t.obj.VM? then
        var cmd := VmCommand(t.obj);
        if cmd.Some? && canExecute(cmd.value) then SelectAndExecute(cmd.value) else NoAction
      else if t.ObjectTag? && t.obj.Host? then
        if canExecute(PowerOnHost(t.obj)) then SelectAndExecute(PowerOnHost(t.obj)) else NoAction
      else NoAction
  }

  /** A left double-click on a template on a live connection never starts or
      resumes it: it creates a new VM from it, or does nothing. */
  lemma TemplateOnlyCreatesVM(vm: XenObject, canExecute: ClickCommand -> bool)
    requires vm.VM? && vm.isTemplate && !Disconnected(ObjectTag(vm))
    ensures DoubleClick(LeftButton, Some(ObjectTag(vm)), canExecute) ==
      (if canExecute(NewVM) then SelectAndExecute(NewVM) else NoAction)
  {
  }

  // ---------------------------------------------------------------- right click

  /** HandleNodeRightClick's selection rule: the selection the menu is shown
      for, or None when no menu is shown. canSelect is CanSelectNode(node);
      treeView_BeforeSelect cancels exactly the nodes that cannot be selected,
      so assigning SelectedNode selects node exactly when canSelect holds. */
  function RightClickSelection(button: MouseButton, selected: seq<nat>, node: nat, canSelect: bool): (r: Option<seq<nat>>)
    ensures r.Some? <==> button == RightButton && (node in selected || canSelect)
    ensures r.Some? ==> node in r.value
    ensures r.Some? && node in selected ==> r.value == selected
    ensures r.Some? && node !in selected ==> r.value == [node]
  {
    if button != RightButton then None
    else if |selected| == 0 then (if canSelect then Some([node]) else None)
    else if node in selected then Some(selected)
    else if canSelect then Some([node])
    else None
  }

  datatype MenuCommand =
    | AddHost | NewPool | ConnectAllHosts | DisconnectAllHosts | Properties
    | CollapseChildNodes | ExpandNodes | RemoveFromFolder | Untag | OtherCommand(id: nat)

  datatype MenuItem = CommandItem(cmd: MenuCommand) | Separator

  /** The menu of the top node when it alone is selected. */
  function TopNodeItems(): seq<MenuItem>
  {
    [CommandItem(AddHost), CommandItem(NewPool), CommandItem(ConnectAllHosts), CommandItem(DisconnectAllHosts)]
  }

  /** Where the tree's own entries go: before a trailing Properties entry, or
      at the end. */
  function InsertIndex(items: seq<MenuItem>): (k: nat)
    ensures k <= |items|
    ensures k < |items| <==> |items| > 0 && items[|items| - 1] == CommandItem(Properties)
    ensures k < |items| ==> k == |items| - 1
  {
    if |items| > 0 && items[|items| - 1] == CommandItem(Properties) then |items| - 1 else |items|
  }

  function Insert(items: seq<MenuItem>, k: nat, x: MenuItem): (r: seq<MenuItem>)
    requires k <= |items|
  {
    items[..k] + [x] + items[k..]
  }

  function IfCan(canExecute: MenuCommand -> bool, c: MenuCommand): seq<MenuItem>
  {
    if canExecute(c) then [CommandItem(c)] else []
  }

  /** AddExpandCollapseItems adds nothing for a single node without children. */
  predicate ExpandCollapseApplies(f: Forest, nodes: seq<nat>)
  {
    !(|nodes| == 1 && !HasChildren(f, nodes[0]))
  }

  /** AddOrgViewItems adds nothing outside the Objects and Organization modes
      or for an empty selection. */
  predicate OrgViewApplies(mode: Mode, nodes: seq<nat>)
  {
    (mode == Objects || mode == Organization) && |nodes| > 0
  }

  /** The tree's own entries in the order they end up in: each is inserted at
      the same index, so a later insertion lands before an earlier one. */
  function TreeItems(f: Forest, mode: Mode, nodes: seq<nat>, canExecute: MenuCommand -> bool): seq<MenuItem>
  {
    (if OrgViewApplies(mode, nodes) then IfCan(canExecute, Untag) + IfCan(canExecute, RemoveFromFolder) else [])
    + (if ExpandCollapseApplies(f, nodes) then IfCan(canExecute, ExpandNodes) + IfCan(canExecute, CollapseChildNodes) else [])
  }

  lemma InsertBefore(menu: seq<MenuItem>, k: nat, added: seq<MenuItem>, x: MenuItem)
    requires k <= |menu|
    ensures k <= |menu[..k] + added + menu[k..]|
    ensures Insert(menu[..k] + added + menu[k..], k, x) == menu[..k] + ([x] + added) + menu[k..]
  {
    var s := menu[..k] + added + menu[k..];
    assert s[..k] == menu[..k];
    assert s[k..] == added + menu[k..];
  }

  /** AddExpandCollapseItems then AddOrgViewItems, both at index k. */
  method AddTreeItems(menu: seq<MenuItem>, k: nat, f: Forest, mode: Mode, nodes: seq<nat>, canExecute: MenuCommand -> bool)
    returns (items: seq<MenuItem>)
    requires k <= |menu|
    ensures items == menu[..k] + TreeItems(f, mode, nodes, canExecute) + menu[k..]
  {
    items := menu;
    ghost var added: seq<MenuItem> := [];
    assert items == menu[..k] + added + menu[k..];
    if ExpandCollapseApplies(f, nodes) {
      if canExecute(CollapseChildNodes) {
        InsertBefore(menu, k, added, CommandItem(CollapseChildNodes));
        items := Insert(items, k, CommandItem(CollapseChildNodes));
        added := [CommandItem(CollapseChildNodes)] + added;
      }
      if canExecute(ExpandNodes) {
        InsertBefore(menu, k, added, CommandItem(ExpandNodes));
        items := Insert(items, k, CommandItem(ExpandNodes));
        added := [CommandItem(ExpandNodes)] + added;
      }
    }
    assert added == (if ExpandCollapseApplies(f, nodes) then IfCan(canExecute, ExpandNodes) + IfCan(canExecute, CollapseChildNodes) else []);
    if OrgViewApplies(mode, nodes) {
      if canExecute(RemoveFromFolder) {
        InsertBefore(menu, k, added, CommandItem(RemoveFromFolder));
        items := Insert(items, k, CommandItem(RemoveFromFolder));
        added := [CommandItem(RemoveFromFolder)] + added;
      }
      if canExecute(Untag) {
        InsertBefore(menu, k, added, CommandItem(Untag));
        items := Insert(items, k, CommandItem(Untag));
        added := [CommandItem(Untag)] + added;
      }
    }
    assert added == TreeItems(f, mode, nodes, canExecute);
  }

  /** A Properties entry that ends the menu still ends it once the tree's own
      entries are in; without one, they go to the end. */
  lemma PropertiesStaysLast(base: seq<MenuItem>, added: seq<MenuItem>)
    ensures var menu := base[..InsertIndex(base)] + added + base[InsertIndex(base)..];
      (|base| > 0 && base[|base| - 1] == CommandItem(Properties) ==> menu[|menu| - 1] == CommandItem(Properties))
      && (InsertIndex(base) == |base| ==> menu == base + added)
  {
    var k := InsertIndex(base);
    if k == |base| {
      assert base[..k] == base;
    }
  }

  datatype RightClickMenu = RightClickMenu(selection: seq<nat>, items: seq<MenuItem>, shown: bool)

  /** HandleNodeRightClick: None when the click changes nothing and shows no
      menu; otherwise the new selection, the menu built for it and whether it
      is shown (TreeNodeRightClicked is raised in that case). builderItems is
      what the context menu builder makes of the selection. Forest index 0 is
      the tree's top node (treeView.Nodes[0]), whose menu is built separately. */
  method HandleNodeRightClick(f: Forest, mode: Mode, button: MouseButton, selected: seq<nat>, node: nat, canSelect: bool,
                              builderItems: seq<MenuItem>, canExecute: MenuCommand -> bool)
    returns (r: Option<RightClickMenu>)
    requires WellFormed(f) && node < |f| && ValidNodes(f, selected)
    ensures r.None? <==> RightClickSelection(button, selected, node, canSelect).None?
    ensures r.Some? ==>
      var sel := RightClickSelection(button, selected, node, canSelect).value;
      var base := if node == 0 && |sel| == 1 then TopNodeItems() else builderItems;
      && r.value.selection == sel
      && r.value.items == base[..InsertIndex(base)] + TreeItems(f, mode, sel, canExecute) + base[InsertIndex(base)..]
      && (r.value.shown <==> |r.value.items| > 0)
  {
    var sel := RightClickSelection(button, selected, node, canSelect);
    if sel.None? {
      return None;
    }
    var nodes := sel.value;
    var menu: seq<MenuItem>;
    if node == 0 && |nodes| == 1 {
      menu := TopNodeItems();
    } else {
      menu := builderItems;
    }
    var insertIndex := |menu|;
    if |menu| > 0 {
      var last := menu[|menu| - 1];
      if last.CommandItem? && last.cmd == Properties {
        insertIndex := insertIndex - 1;
      }
    }
    menu := AddTreeItems(menu, insertIndex, f, mode, nodes, canExecute);
    return Some(RightClickMenu(nodes, menu, |menu| > 0));
  }

  // ---------------------------------------------------------------- SelectObject

  /** What one treeView.SelectObject call reports. */
  datatype SelectAttempt = SelectAttempt(success: bool, cancelled: bool)

  /** SelectObject retries after clearing the search exactly when the first
      attempt found nothing, was not cancelled, and a search is active. */
  predicate RetriesWithoutSearch(hasNodes: bool, searchText: string, first: SelectAttempt)
  {
    hasNodes && !first.success && !first.cancelled && |searchText| > 0
  }

  /** SelectObject: the tree view's own search (first, retry) is opaque; the
      refresh between the two attempts is RefreshTreeView, whose owner-thread
      callback runs at once. Returns whether the object ended up selected and
      the search text afterwards. */
  method SelectObject(c: RefreshCoordinator, hasNodes: bool, searchText: string, first: SelectAttempt,
                      retry: SelectAttempt, mergeFails: bool)
    returns (selected: bool, searchAfter: string)
    requires c.Valid()
    modifies c
    ensures c.Valid()
    ensures !RetriesWithoutSearch(hasNodes, searchText, first) ==>
      selected == (hasNodes && first.success) && searchAfter == searchText
      && c.Current() == old(c.Current()) && c.events == old(c.events)
    ensures RetriesWithoutSearch(hasNodes, searchText, first) ==>
      selected == retry.success && searchAfter == ""
      && c.Current() == Step(old(c.Current()), Deliver(mergeFails)).0
      && c.events == old(c.events) + Step(old(c.Current()), Deliver(mergeFails)).1
  {
    if !hasNodes {
      return false, searchText;
    }
    if !first.success && !first.cancelled && |searchText| > 0 {
      searchAfter := "";
      var _ := c.DeliverBuiltTree(mergeFails);
      return retry.success, searchAfter;
    }
    return first.success, searchText;
  }
}
