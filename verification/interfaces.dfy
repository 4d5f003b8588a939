/** The records of the editor: a node of the project tree (`IFile`) and an open
    tab (`ITab`). */
module Interfaces {
  import opened Options

  /** The optional `children` array of a node. A dedicated datatype rather than
      `Option<seq<Node>>`, so that a child is structurally smaller than its
      parent. */
  datatype ChildList = Absent | Present(items: seq<Node>)

  /** One file or folder. `content`, `isEdited` and `isPinned` are optional
      fields of the record, so a node may lack them. */
  datatype Node = Node(
    id: string,
    name: string,
    isFolder: bool,
    children: ChildList,
    content: Option<string>,
    isEdited: Option<bool>,
    isPinned: Option<bool>)

  /** The children of `n`, empty when the field is absent. */
  function Kids(n: Node): seq<Node> {
    match n.children
    case Present(cs) => cs
    case Absent => []
  }

  /** An open tab: a copy of a node's fields taken when it was opened, with the
      node's optional pin flag replaced by the tab's own pin and active flags. */
  datatype Tab = Tab(
    id: string,
    name: string,
    isFolder: bool,
    children: ChildList,
    content: Option<string>,
    isEdited: Option<bool>,
    isPinned: bool,
    isActive: bool)

  /** The tab of a node: every field of the node plus the tab's own pin and
      active flags. */
  function TabOf(n: Node, isPinned: bool, isActive: bool): (t: Tab)
    ensures t.id == n.id && t.name == n.name && t.content == n.content
    ensures t.isFolder == n.isFolder && t.isEdited == n.isEdited && t.children == n.children
    ensures t.isPinned == isPinned && t.isActive == isActive
  {
    Tab(n.id, n.name, n.isFolder, n.children, n.content, n.isEdited, isPinned, isActive)
  }
}
