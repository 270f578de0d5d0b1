/** Values shared by the navigation tree model: the objects a tree node can
    carry as its tag, the connections they belong to, and the navigation modes. */
module NavTypes {

  datatype Option<T> = None | Some(value: T)

  /** A connection to a server, with its state at the moment a rule reads it. */
  datatype Connection = Connection(id: nat, connected: bool)

  datatype PowerState = Halted | Running | Paused | Suspended

  /** The VM operations the double-click rule asks about. */
  datatype VmOperation = StartOp | ResumeOp | OtherOp

  /** Objects of the managed estate (an IXenObject). A folder is one of them;
      a folder renamed in the tree is re-created without a connection. */
  datatype XenObject =
    | Pool(id: nat, conn: Option<Connection>)
    | Host(id: nat, conn: Option<Connection>)
    | VM(id: nat, conn: Option<Connection>, isTemplate: bool, power: PowerState, allowed: set<VmOperation>)
    | Folder(conn: Option<Connection>, path: string)
    | OtherObject(id: nat, conn: Option<Connection>)

  /** A synthetic grouping node's descriptor: the grouping, its parent grouping
      (an opaque key) and the group it stands for. */
  datatype GroupingTag = GroupingTag(grouping: nat, parent: nat, group: string)

  /** The closed variant of what a tree node carries. NoTag is the synthetic
      top node, whose tag is null. */
  datatype Tag =
    | ObjectTag(obj: XenObject)
    | GroupTag(grouping: GroupingTag)
    | ConnectionTag(conn: Connection)
    | NoTag

  /** The navigation modes of the search box. Only Objects and Organization
      are told apart by the rules modelled here. */
  datatype Mode = Infrastructure | Objects | Organization | SavedSearch
}
