/** The live tree as a parent-indexed forest, the walk up parent links to the
    nearest pool or host, and the selection items derived from the selected
    nodes. */
module NavigationTree {
  import opened NavTypes

  /** A node of the live tree: its tag and the index of its parent, if any. */
  datatype Node = Node(tag: Tag, parent: Option<nat>)

  /** Nodes by index. A parent always has a smaller index than its child, so
      every walk up the parent links ends at a root. */
  type Forest = seq<Node>

  predicate WellFormed(f: Forest)
  {
    forall i :: 0 <= i < |f| && f[i].parent.Some? ==> f[i].parent.value < i
  }

  predicate ValidNodes(f: Forest, nodes: seq<nat>)
  {
    forall k :: 0 <= k < |nodes| ==> nodes[k] < |f|
  }

  predicate HasChildren(f: Forest, i: nat)
  {
    exists j :: 0 <= j < |f| && f[j].parent == Some(i)
  }

  /** The nodes from i up to the root of its tree, i first. */
  function Path(f: Forest, i: nat): (p: seq<nat>)
    requires WellFormed(f) && i < |f|
    ensures |p| > 0 && p[0] == i
    ensures forall k :: 0 <= k < |p| ==> p[k] < |f|
    ensures forall k :: 0 <= k < |p| - 1 ==> f[p[k]].parent == Some(p[k + 1])
    ensures f[p[|p| - 1]].parent.None?
    decreases i
  {
    match f[i].parent
    case None => [i]
    case Some(j) => [i] + Path(f, j)
  }

  datatype AncestorKind = PoolAncestor | HostAncestor

  /** Whether a tag holds an object of the kind the walk looks for
      (the `node.Tag as Pool` / `node.Tag as Host` test). */
  predicate IsKind(t: Tag, k: AncestorKind)
  {
    t.ObjectTag? && (if k == PoolAncestor then t.obj.Pool? else t.obj.Host?)
  }

  /** The object of the first node of kind k met walking up from node i. */
  function Ancestor(f: Forest, i: nat, k: AncestorKind): Option<XenObject>
    requires WellFormed(f) && i < |f|
    decreases i
  {
    if IsKind(f[i].tag, k) then Some(f[i].tag.obj)
    else match f[i].parent
      case None => None
      case Some(j) => Ancestor(f, j, k)
  }

  /** The walk started from a node that may be null. */
  function AncestorFrom(f: Forest, node: Option<nat>, k: AncestorKind): Option<XenObject>
    requires WellFormed(f) && (node.Some? ==> node.value < |f|)
  {
    if node.None? then None else Ancestor(f, node.value, k)
  }

  /** No node listed in p has a tag of kind k. */
  predicate NoneOfKind(f: Forest, p: seq<nat>, k: AncestorKind)
  {
    forall m :: 0 <= m < |p| && p[m] < |f| ==> !IsKind(f[p[m]].tag, k)
  }

  /** p[m] is the first node listed in p whose tag has kind k. */
  predicate FirstOfKindAt(f: Forest, p: seq<nat>, k: AncestorKind, m: nat)
  {
    m < |p| && p[m] < |f| && IsKind(f[p[m]].tag, k) && NoneOfKind(f, p[..m], k)
  }

  /** Putting a node in front of a list: none of the list has kind k exactly
      when neither the node nor the rest has it. */
  lemma NoneOfKindCons(f: Forest, i: nat, q: seq<nat>, k: AncestorKind)
    requires i < |f|
    ensures NoneOfKind(f, [i] + q, k) <==> !IsKind(f[i].tag, k) && NoneOfKind(f, q, k)
  {
    var p := [i] + q;
    assert p[0] == i;
    assert forall m :: 0 <= m < |q| ==> p[m + 1] == q[m];
  }

  /** Putting a node without kind k in front of a list moves its first node of
      kind k one place along. */
  lemma FirstOfKindCons(f: Forest, i: nat, q: seq<nat>, k: AncestorKind, m: nat)
    requires i < |f| && !IsKind(f[i].tag, k) && FirstOfKindAt(f, q, k, m)
    ensures FirstOfKindAt(f, [i] + q, k, m + 1) && ([i] + q)[m + 1] == q[m]
  {
    var p := [i] + q;
    assert p[..m + 1] == [i] + q[..m];
    NoneOfKindCons(f, i, q[..m], k);
  }

  /** The ancestor is the object of the first node on the path to the root that
      has the wanted kind, and there is none exactly when no node on the path
      has it. */
  lemma {:induction false} AncestorIsFirstOnPath(f: Forest, i: nat, k: AncestorKind)
    requires WellFormed(f) && i < |f|
    ensures Ancestor(f, i, k).None? <==> NoneOfKind(f, Path(f, i), k)
    ensures Ancestor(f, i, k).Some? ==>
      exists m: nat :: FirstOfKindAt(f, Path(f, i), k, m) && f[Path(f, i)[m]].tag == ObjectTag(Ancestor(f, i, k).value)
    decreases i
  {
    var p := Path(f, i);
    if IsKind(f[i].tag, k) {
      assert FirstOfKindAt(f, p, k, 0);
    } else {
      match f[i].parent
      case None =>
        assert p == [i];
      case Some(j) =>
        AncestorIsFirstOnPath(f, j, k);
        var q := Path(f, j);
        assert p == [i] + q;
        NoneOfKindCons(f, i, q, k);
        if Ancestor(f, j, k).Some? {
          var m: nat :| FirstOfKindAt(f, q, k, m) && f[q[m]].tag == ObjectTag(Ancestor(f, j, k).value);
          FirstOfKindCons(f, i, q, k, m);
        }
    }
  }

  /** PoolAncestorOfNode (k = PoolAncestor) and HostAncestorOfNode
      (k = HostAncestor): walk the parent links until a node of the kind is met. */
  method AncestorOfNode(f: Forest, node: Option<nat>, k: AncestorKind) returns (r: Option<XenObject>)
    requires WellFormed(f) && (node.Some? ==> node.value < |f|)
    ensures r == AncestorFrom(f, node, k)
    ensures r.Some? ==> IsKind(ObjectTag(r.value), k)
  {
    var cur := node;
    while cur.Some?
      invariant cur.Some? ==> cur.value < |f|
      invariant AncestorFrom(f, cur, k) == AncestorFrom(f, node, k)
      decreases if cur.Some? then cur.value + 1 else 0
    {
      var t := f[cur.value].tag;
      if IsKind(t, k) {
        return Some(t.obj);
      }
      cur := f[cur.value].parent;
    }
    return None;
  }

  /** What the selection manager receives for one selected node: an object with
      its connection and its host and pool ancestors, or a grouping tag (null
      for a node that carries neither). */
  datatype SelectedItem =
    | ObjectItem(obj: XenObject, conn: Option<Connection>, host: Option<XenObject>, pool: Option<XenObject>)
    | GroupItem(group: Option<GroupingTag>)

  function ItemOf(f: Forest, i: nat): SelectedItem
    requires WellFormed(f) && i < |f|
  {
    match f[i].tag
    case ObjectTag(o) => ObjectItem(o, o.conn, Ancestor(f, i, HostAncestor), Ancestor(f, i, PoolAncestor))
    case GroupTag(g) => GroupItem(Some(g))
    case _ => GroupItem(None)
  }

  /** The item of a selected node: an object node yields its own object and
      connection, with a host and a pool that lie on its path to the root; a
      pool node is its own pool ancestor and a host node its own host ancestor. */
  lemma ItemOfAncestry(f: Forest, i: nat)
    requires WellFormed(f) && i < |f|
    ensures ItemOf(f, i).ObjectItem? <==> f[i].tag.ObjectTag?
    ensures ItemOf(f, i).ObjectItem? ==>
      var it := ItemOf(f, i);
      && it.obj == f[i].tag.obj && it.conn == f[i].tag.obj.conn
      && (it.host.Some? ==> it.host.value.Host? && exists m: nat :: FirstOfKindAt(f, Path(f, i), HostAncestor, m) && f[Path(f, i)[m]].tag == ObjectTag(it.host.value))
      && (it.pool.Some? ==> it.pool.value.Pool? && exists m: nat :: FirstOfKindAt(f, Path(f, i), PoolAncestor, m) && f[Path(f, i)[m]].tag == ObjectTag(it.pool.value))
      && (it.host.None? <==> NoneOfKind(f, Path(f, i), HostAncestor))
      && (it.pool.None? <==> NoneOfKind(f, Path(f, i), PoolAncestor))
      && (it.obj.Pool? ==> it.pool == Some(it.obj))
      && (it.obj.Host? ==> it.host == Some(it.obj))
  {
    AncestorIsFirstOnPath(f, i, HostAncestor);
    AncestorIsFirstOnPath(f, i, PoolAncestor);
  }

  /** treeView_SelectionsChanged: one item per selected node, in selection order. */
  method SelectionsChanged(f: Forest, selected: seq<nat>) returns (items: seq<SelectedItem>)
    requires WellFormed(f) && ValidNodes(f, selected)
    ensures |items| == |selected|
    ensures forall k :: 0 <= k < |items| ==> items[k] == ItemOf(f, selected[k])
  {
    items := [];
    for k := 0 to |selected|
      invariant |items| == k
      invariant forall m :: 0 <= m < k ==> items[m] == ItemOf(f, selected[m])
    {
      var node := selected[k];
      var t := f[node].tag;
      if t.ObjectTag? {
        var host := AncestorOfNode(f, Some(node), HostAncestor);
        var pool := AncestorOfNode(f, Some(node), PoolAncestor);
        items := items + [ObjectItem(t.obj, t.obj.conn, host, pool)];
      } else {
        var group := if t.GroupTag? then Some(t.grouping) else None;
        items := items + [GroupItem(group)];
      }
    }
  }
}
