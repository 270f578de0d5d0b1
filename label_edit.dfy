/** Renaming a folder or a grouping tag by editing its label in the tree. The
    edit runs with refreshes suspended by the code that starts it; the refresh
    is resumed either at once (no rename) or when the rename command reports
    completion. */
module LabelEdit {
  import opened NavTypes
  import opened NavigationTree
  import opened RefreshCoordination

  datatype RenameCommand = RenameFolder(folder: XenObject, newName: string) | RenameTag(oldGroup: string, newName: string)

  predicate IsFolder(t: Tag)
  {
    t.ObjectTag? && t.obj.Folder?
  }

  /** The display name a renamed node's tag carries. */
  function NameOf(t: Tag): Option<string>
  {
    match t
    case ObjectTag(o) => if o.Folder? then Some(o.path) else None
    case GroupTag(g) => Some(g.group)
    case _ => None
  }

  /** The rename an edit asks for, and the tag the node is given if it
      succeeds. A null (cancelled) or empty label asks for nothing. */
  function RenamePlan(t: Tag, newLabel: Option<string>): (r: Option<(RenameCommand, Tag)>)
    ensures r.Some? <==> newLabel.Some? && |newLabel.value| > 0 && (IsFolder(t) || t.GroupTag?)
    ensures r.Some? ==> NameOf(r.value.1) == newLabel
    ensures r.Some? && IsFolder(t) ==>
      && r.value.0 == RenameFolder(t.obj, newLabel.value)
      && IsFolder(r.value.1) && r.value.1.obj.conn.None?
    ensures r.Some? && t.GroupTag? ==>
      && r.value.0 == RenameTag(t.grouping.group, newLabel.value)
      && r.value.1.GroupTag?
      && r.value.1.grouping.grouping == t.grouping.grouping
      && r.value.1.grouping.parent == t.grouping.parent
  {
    if newLabel.None? || |newLabel.value| == 0 then None
    else if IsFolder(t) then Some((RenameFolder(t.obj, newLabel.value), ObjectTag(Folder(None, newLabel.value))))
    else if t.GroupTag? then
      var g := t.grouping;
      Some((RenameTag(g.group, newLabel.value), GroupTag(GroupingTag(g.grouping, g.parent, newLabel.value))))
    else None
  }

  /** treeView_AfterLabelEdit: execute the rename if there is one and it can
      execute, leaving the refresh suspended until it completes; otherwise
      resume the refresh now and cancel the edit. Returns the executed command
      and the tag to give the node on success. */
  method AfterLabelEdit(c: RefreshCoordinator, t: Tag, newLabel: Option<string>, canExecute: RenameCommand -> bool)
    returns (executed: Option<RenameCommand>, newTag: Option<Tag>, cancelEdit: bool)
    requires c.Valid() && c.depth > 0
    modifies c
    ensures c.Valid()
    ensures cancelEdit <==> executed.None?
    ensures executed.Some? <==> RenamePlan(t, newLabel).Some? && canExecute(RenamePlan(t, newLabel).value.0)
    ensures executed.Some? ==>
      && executed.value == RenamePlan(t, newLabel).value.0
      && newTag == Some(RenamePlan(t, newLabel).value.1)
      && c.Current() == old(c.Current()) && c.events == old(c.events)
    ensures executed.None? ==>
      && c.depth == old(c.depth) - 1
      && c.Current() == Step(old(c.Current()), Resume).0
      && c.events == old(c.events) + Step(old(c.Current()), Resume).1
  {
    var plan := RenamePlan(t, newLabel);
    if plan.Some? {
      newTag := Some(plan.value.1);
    } else {
      newTag := None;
    }
    if plan.Some? && canExecute(plan.value.0) {
      executed := Some(plan.value.0);
      cancelEdit := false;
    } else {
      var _ := c.ResumeRefreshTreeView();
      executed := None;
      cancelEdit := true;
    }
  }

  /** The rename command's completion, run on the owner thread: resume the
      refresh; on success give the node its new tag, refresh the tree (its
      owner-thread callback runs at once) and derive the selection again from
      the selected nodes. Returns the tree with the node's tag and the items
      raised with the selection change, if any. */
  method RenameCompleted(c: RefreshCoordinator, f: Forest, node: nat, newTag: Tag, selected: seq<nat>,
                         success: bool, mergeFails: bool)
    returns (f': Forest, selection: Option<seq<SelectedItem>>)
    requires c.Valid() && c.depth > 0
    requires WellFormed(f) && node < |f| && ValidNodes(f, selected)
    modifies c
    ensures c.Valid() && c.depth == old(c.depth) - 1
    ensures WellFormed(f') && |f'| == |f|
    ensures !success ==>
      && f' == f && selection.None?
      && c.Current() == Step(old(c.Current()), Resume).0
      && c.events == old(c.events) + Step(old(c.Current()), Resume).1
    ensures success ==>
      && f' == f[node := Node(newTag, f[node].parent)]
      && c.Current() == Step(Step(old(c.Current()), Resume).0, Deliver(mergeFails)).0
      && c.events == old(c.events) + Step(old(c.Current()), Resume).1
                     + Step(Step(old(c.Current()), Resume).0, Deliver(mergeFails)).1
      && selection.Some? && |selection.value| == |selected|
      && forall k :: 0 <= k < |selected| ==> selection.value[k] == ItemOf(f', selected[k])
  {
    var _ := c.ResumeRefreshTreeView();
    f' := f;
    selection := None;
    if success {
      f' := f[node := Node(newTag, f[node].parent)];
      var _ := c.DeliverBuiltTree(mergeFails);
      var items := SelectionsChanged(f', selected);
      selection := Some(items);
    }
  }

  /** A successful rename, end to end from an unsuspended coordinator: suspend,
      any deliveries and nested suspend/resume pairs during the edit, the
      completion's resume, then its own refresh. The events end with that
      refresh's merge (at depth 1) and notification; before them the
      coalescing of the suspended period holds, so a tree delivered during the
      edit adds a request for a further refresh. */
  lemma RenameRoundTrip(s: RefreshState, middle: seq<Op>, mergeFails: bool)
    requires s.depth == 0
    requires StaysSuspended(1, middle) && DepthAfter(1, middle) == 1
    ensures var ops := [Suspend] + middle + [Resume];
      && Run(s, ops + [Deliver(mergeFails)]).0.depth == 0
      && Run(s, ops + [Deliver(mergeFails)]).1 == Run(s, ops).1 + [Merged(1, mergeFails), TreeRefreshed]
      && CountRequests(Run(s, ops).1) == (if HasDelivery(middle) then 1 else 0)
  {
    var ops := [Suspend] + middle + [Resume];
    Coalescing(s, middle);
    RunAppend(s, ops, [Deliver(mergeFails)]);
    var mid := Run(s, ops).0;
    assert [Deliver(mergeFails)][1..] == [];
    assert mid.depth == 0;
    assert Step(mid, Deliver(mergeFails)) == (mid, [Merged(1, mergeFails), TreeRefreshed]);
    assert Run(mid, []) == (mid, []);
    assert [Deliver(mergeFails)][0] == Deliver(mergeFails);
    assert [Merged(1, mergeFails), TreeRefreshed] + [] == [Merged(1, mergeFails), TreeRefreshed];
    assert Run(mid, [Deliver(mergeFails)]) == (mid, [Merged(1, mergeFails), TreeRefreshed]);
  }
}
