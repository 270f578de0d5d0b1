/** Drag and drop over the tree: the ordered list of drag-drop commands, the
    drop, drag-enter and drag-over handlers that scan it, the highlighted drag
    target they keep, and whether the current selection may be dragged. */
module DragDrop {
  import opened NavTypes
  import opened NavigationTree

  datatype CommandKind = AddHostToPool | MigrateVM | RemoveHostFromPool | TagDrop | IntoFolder

  /** What a drag-drop command built for the target node and the dragged data
      reports: whether it can execute, and the node it would highlight. */
  datatype Verdict = Verdict(canExecute: bool, highlight: Option<nat>)

  datatype Candidate = Candidate(kind: CommandKind, canExecute: bool, highlight: Option<nat>)

  datatype Effect = NoEffect | Move

  function Evaluated(k: CommandKind, evaluate: CommandKind -> Verdict): Candidate
  {
    Candidate(k, evaluate(k).canExecute, evaluate(k).highlight)
  }

  /** The commands GetDragDropCommands lists for a mode, each with its verdict. */
  function Candidates(mode: Mode, evaluate: CommandKind -> Verdict): seq<Candidate>
  {
    [Evaluated(AddHostToPool, evaluate), Evaluated(MigrateVM, evaluate), Evaluated(RemoveHostFromPool, evaluate)]
    + (if mode == Organization then [Evaluated(TagDrop, evaluate), Evaluated(IntoFolder, evaluate)] else [])
  }

  /** GetDragDropCommands: add-host-to-pool, migrate-VM and remove-host-from-pool
      always, in that order; tag and into-folder after them, in that order, only
      in Organization mode. */
  method GetDragDropCommands(mode: Mode, evaluate: CommandKind -> Verdict) returns (cmds: seq<Candidate>)
    ensures cmds == Candidates(mode, evaluate)
    ensures |cmds| == (if mode == Organization then 5 else 3)
    ensures cmds[0].kind == AddHostToPool && cmds[1].kind == MigrateVM && cmds[2].kind == RemoveHostFromPool
    ensures mode == Organization ==> cmds[3].kind == TagDrop && cmds[4].kind == IntoFolder
    ensures forall i :: 0 <= i < |cmds| ==> cmds[i] == Evaluated(cmds[i].kind, evaluate)
  {
    cmds := [];
    cmds := cmds + [Evaluated(AddHostToPool, evaluate)];
    cmds := cmds + [Evaluated(MigrateVM, evaluate)];
    cmds := cmds + [Evaluated(RemoveHostFromPool, evaluate)];
    if mode == Organization {
      cmds := cmds + [Evaluated(TagDrop, evaluate)];
      cmds := cmds + [Evaluated(IntoFolder, evaluate)];
    }
  }

  /** The index of the first command that can execute. */
  function FirstExecutable(cs: seq<Candidate>): (r: Option<nat>)
    ensures r.None? <==> forall i :: 0 <= i < |cs| ==> !cs[i].canExecute
    ensures r.Some? ==> r.value < |cs| && cs[r.value].canExecute
                        && forall j :: 0 <= j < r.value ==> !cs[j].canExecute
    decreases |cs|
  {
    if cs == [] then None
    else if cs[0].canExecute then Some(0)
    else match FirstExecutable(cs[1..])
      case None => None
      case Some(i) => Some(i + 1)
  }

  /** The index of the last command that can execute. */
  function LastExecutable(cs: seq<Candidate>): (r: Option<nat>)
    ensures r.None? <==> forall i :: 0 <= i < |cs| ==> !cs[i].canExecute
    ensures r.Some? ==> r.value < |cs| && cs[r.value].canExecute
                        && forall j :: r.value < j < |cs| ==> !cs[j].canExecute
    decreases |cs|
  {
    if cs == [] then None
    else if cs[|cs| - 1].canExecute then Some(|cs| - 1)
    else LastExecutable(cs[..|cs| - 1])
  }

  /** The kind of command a drop executes. */
  function DropCommand(cs: seq<Candidate>): Option<CommandKind>
  {
    match FirstExecutable(cs)
    case None => None
    case Some(i) => Some(cs[i].kind)
  }

  /** The node drag-over highlights: that of the last command that can execute. */
  function HoverTarget(cs: seq<Candidate>): Option<nat>
  {
    match LastExecutable(cs)
    case None => None
    case Some(i) => cs[i].highlight
  }

  /** When at most one command can execute, the drop executes the command whose
      node drag-over highlighted. */
  lemma DropAndHoverAgree(cs: seq<Candidate>)
    requires forall i, j :: 0 <= i < |cs| && 0 <= j < |cs| && cs[i].canExecute && cs[j].canExecute ==> i == j
    ensures FirstExecutable(cs) == LastExecutable(cs)
    ensures FirstExecutable(cs).Some? ==> HoverTarget(cs) == cs[FirstExecutable(cs).value].highlight
  {
  }

  /** When migrate-VM and remove-host-from-pool can both execute and no other
      command can take the drop or the highlight from them, drag-over shows
      remove-host-from-pool's node while the drop runs migrate-VM. */
  lemma HoverFollowsLastCommand(evaluate: CommandKind -> Verdict, mode: Mode)
    requires !evaluate(AddHostToPool).canExecute
    requires evaluate(MigrateVM).canExecute && evaluate(RemoveHostFromPool).canExecute
    requires mode == Organization ==> !evaluate(TagDrop).canExecute && !evaluate(IntoFolder).canExecute
    ensures DropCommand(Candidates(mode, evaluate)) == Some(MigrateVM)
    ensures HoverTarget(Candidates(mode, evaluate)) == evaluate(RemoveHostFromPool).highlight
  {
    var cs := Candidates(mode, evaluate);
    assert cs[0] == Evaluated(AddHostToPool, evaluate) && cs[1] == Evaluated(MigrateVM, evaluate);
    assert cs[2] == Evaluated(RemoveHostFromPool, evaluate);
    if mode == Organization {
      assert cs[3] == Evaluated(TagDrop, evaluate) && cs[4] == Evaluated(IntoFolder, evaluate) && |cs| == 5;
    } else {
      assert |cs| == 3;
    }
  }

  /** A drop goes to the earlier command: migrate-VM wins over
      remove-host-from-pool whenever migrate-VM can execute. */
  lemma DropPrefersEarlier(mode: Mode, evaluate: CommandKind -> Verdict)
    requires !evaluate(AddHostToPool).canExecute && evaluate(MigrateVM).canExecute
    ensures DropCommand(Candidates(mode, evaluate)) == Some(MigrateVM)
  {
    var cs := Candidates(mode, evaluate);
    assert cs[0] == Evaluated(AddHostToPool, evaluate) && cs[1] == Evaluated(MigrateVM, evaluate);
  }

  /** DragEnter: Move exactly when some command can execute. */
  method DragEnter(mode: Mode, evaluate: CommandKind -> Verdict) returns (effect: Effect)
    ensures effect == Move <==> exists i :: 0 <= i < |Candidates(mode, evaluate)| && Candidates(mode, evaluate)[i].canExecute
  {
    effect := NoEffect;
    var cmds := GetDragDropCommands(mode, evaluate);
    for i := 0 to |cmds|
      invariant forall j :: 0 <= j < i ==> !cmds[j].canExecute
    {
      if cmds[i].canExecute {
        effect := Move;
        return;
      }
    }
  }

  /** A colour change on a node: highlighted, or restored to the tree's colours. */
  datatype Paint = Highlight(node: nat) | Restore(node: nat)

  function RestoreOf(n: Option<nat>): seq<Paint>
  {
    if n.Some? then [Restore(n.value)] else []
  }

  /** The highlighted drag target of NavigationView and the copy of its tag the
      tree builder keeps, with the colour changes made so far. */
  class DragHighlight {
    var highlighted: Option<nat>
    var builderTarget: Option<Tag>
    var paints: seq<Paint>

    ghost predicate Valid()
      reads this
    {
      highlighted.None? <==> builderTarget.None?
    }

    constructor ()
      ensures Valid() && highlighted.None? && paints == []
    {
      highlighted := None;
      builderTarget := None;
      paints := [];
    }

    /** ClearHighlightedDragTarget: restore the colours of the highlighted node,
        if any, and forget it. */
    method ClearHighlightedDragTarget()
      requires Valid()
      modifies this
      ensures Valid() && highlighted.None? && builderTarget.None?
      ensures paints == old(paints) + RestoreOf(old(highlighted))
    {
      if highlighted.Some? {
        paints := paints + [Restore(highlighted.value)];
        highlighted := None;
        builderTarget := None;
      }
    }

    /** treeView_DragLeave. */
    method DragLeave()
      requires Valid()
      modifies this
      ensures Valid() && highlighted.None? && builderTarget.None?
      ensures paints == old(paints) + RestoreOf(old(highlighted))
    {
      ClearHighlightedDragTarget();
    }

    /** treeView_DragDrop: clear the highlight, then execute the first command
        that can execute, if any. */
    method DragDrop(mode: Mode, evaluate: CommandKind -> Verdict) returns (executed: Option<CommandKind>)
      requires Valid()
      modifies this
      ensures Valid() && highlighted.None? && builderTarget.None?
      ensures paints == old(paints) + RestoreOf(old(highlighted))
      ensures executed == DropCommand(Candidates(mode, evaluate))
    {
      ClearHighlightedDragTarget();
      var cmds := GetDragDropCommands(mode, evaluate);
      for i := 0 to |cmds|
        invariant forall j :: 0 <= j < i ==> !cmds[j].canExecute
      {
        if cmds[i].canExecute {
          return Some(cmds[i].kind);
        }
      }
      return None;
    }

    /** treeView_DragOver: the node to highlight is that of the last command
        that can execute (the scan has no break). A new target replaces the old
        highlight; the same target is left alone; no target clears it. */
    method DragOver(f: Forest, mode: Mode, evaluate: CommandKind -> Verdict) returns (effect: Effect)
      requires Valid()
      requires forall k :: evaluate(k).highlight.Some? ==> evaluate(k).highlight.value < |f|
      modifies this
      ensures Valid()
      ensures var target := HoverTarget(Candidates(mode, evaluate));
        target.None? ==> effect == NoEffect && highlighted.None? && builderTarget.None?
                         && paints == old(paints) + RestoreOf(old(highlighted))
      ensures var target := HoverTarget(Candidates(mode, evaluate));
        target.Some? ==> effect == Move && highlighted == target
      ensures var target := HoverTarget(Candidates(mode, evaluate));
        target.Some? && target == old(highlighted) ==> paints == old(paints) && builderTarget == old(builderTarget)
      ensures var target := HoverTarget(Candidates(mode, evaluate));
        target.Some? && target != old(highlighted) ==>
          target.value < |f| && builderTarget == Some(f[target.value].tag)
          && paints == old(paints) + RestoreOf(old(highlighted)) + [Highlight(target.value)]
    {
      var cmds := GetDragDropCommands(mode, evaluate);
      var target: Option<nat> := None;
      for i := 0 to |cmds|
        invariant target == HoverTarget(cmds[..i])
      {
        assert cmds[..i + 1][..i] == cmds[..i];
        if cmds[i].canExecute {
          target := cmds[i].highlight;
        }
      }
      assert cmds[..|cmds|] == cmds;
      if target.Some? {
        assert target.value < |f| by {
          var i := LastExecutable(cmds).value;
          assert cmds[i] == Evaluated(cmds[i].kind, evaluate);
        }
        if highlighted != target {
          ClearHighlightedDragTarget();
          builderTarget := Some(f[target.value].tag);
          highlighted := target;
          paints := paints + [Highlight(target.value)];
        }
        effect := Move;
      } else {
        ClearHighlightedDragTarget();
        effect := NoEffect;
      }
    }
  }

  /** AllItemsAre<T>(filter) over the selection: every item is an object that
      satisfies p. What the library answers for an empty selection is
      whenEmpty. */
  function AllItemsAre(items: seq<SelectedItem>, p: XenObject -> bool, whenEmpty: bool): bool
  {
    if |items| == 0 then whenEmpty
    else forall i :: 0 <= i < |items| ==> items[i].ObjectItem? && p(items[i].obj)
  }

  /** An item whose object and connection are known and whose connection is up. */
  predicate OnLiveConnection(item: SelectedItem)
  {
    item.ObjectItem? && item.conn.Some? && item.conn.value.connected
  }

  /** CanDrag: outside the Objects and Organization modes, a selection of hosts
      only or of non-template VMs only; in those two modes, a selection whose
      every item is an object on a live connection. A non-empty selection that
      can be dragged holds objects only, whatever the mode. */
  function CanDrag(mode: Mode, selection: seq<SelectedItem>, whenEmpty: bool): (r: bool)
    ensures (mode == Objects || mode == Organization) ==>
      (r <==> forall i :: 0 <= i < |selection| ==> OnLiveConnection(selection[i]))
    ensures mode != Objects && mode != Organization && |selection| == 0 ==> r == whenEmpty
    ensures mode != Objects && mode != Organization && |selection| > 0 ==>
      (r <==> (forall i :: 0 <= i < |selection| ==> selection[i].ObjectItem? && selection[i].obj.Host?)
              || (forall i :: 0 <= i < |selection| ==>
                    selection[i].ObjectItem? && selection[i].obj.VM? && !selection[i].obj.isTemplate))
    ensures r && |selection| > 0 ==> forall i :: 0 <= i < |selection| ==> selection[i].ObjectItem?
  {
    if mode != Objects && mode != Organization then
      AllItemsAre(selection, (o: XenObject) => o.Host?, whenEmpty)
      || AllItemsAre(selection, (o: XenObject) => o.VM? && !o.isTemplate, whenEmpty)
    else
      forall i :: 0 <= i < |selection| ==> OnLiveConnection(selection[i])
  }

  /** Outside the Objects and Organization modes, a selection holding both a
      host and a VM cannot be dragged. */
  lemma CanDragNeverMixes(mode: Mode, selection: seq<SelectedItem>, whenEmpty: bool, i: nat, j: nat)
    requires mode != Objects && mode != Organization
    requires i < |selection| && j < |selection|
    requires selection[i].ObjectItem? && selection[i].obj.Host?
    requires selection[j].ObjectItem? && selection[j].obj.VM?
    ensures !CanDrag(mode, selection, whenEmpty)
  {
  }

  /** Outside the Objects and Organization modes, a selection holding a
      template cannot be dragged. */
  lemma CanDragNoTemplates(mode: Mode, selection: seq<SelectedItem>, whenEmpty: bool, j: nat)
    requires mode != Objects && mode != Organization
    requires j < |selection| && selection[j].ObjectItem? && selection[j].obj.VM? && selection[j].obj.isTemplate
    ensures !CanDrag(mode, selection, whenEmpty)
  {
  }

  /** In the Objects and Organization modes the items derived from the selected
      nodes may be dragged exactly when every selected node carries an object
      whose connection is up; so a grouping node, the top node or a
      disconnected server blocks the drag. */
  lemma CanDragSelectedNodes(f: Forest, selected: seq<nat>, items: seq<SelectedItem>, mode: Mode, whenEmpty: bool)
    requires WellFormed(f) && ValidNodes(f, selected)
    requires |items| == |selected| && forall k :: 0 <= k < |items| ==> items[k] == ItemOf(f, selected[k])
    requires mode == Objects || mode == Organization
    ensures CanDrag(mode, items, whenEmpty) <==>
      forall k :: 0 <= k < |selected| ==>
        f[selected[k]].tag.ObjectTag? && f[selected[k]].tag.obj.conn.Some? && f[selected[k]].tag.obj.conn.value.connected
  {
    forall k | 0 <= k < |selected|
      ensures OnLiveConnection(items[k]) <==>
        f[selected[k]].tag.ObjectTag? && f[selected[k]].tag.obj.conn.Some? && f[selected[k]].tag.obj.conn.value.connected
    {
      ItemOfAncestry(f, selected[k]);
    }
  }
}
