/** The editor's session state (`src/app/features/fileTreeSlice.ts`): the
    record, its initial value and the reducers. */
module FileTreeSlice {
  import opened Options
  import opened Interfaces
  import opened Tree
  import Seqs
  import Tabs
  import FileOperations

  /** The editor's record of the shown file: a mirror of the active tab's id,
      name and content, written by the handlers alongside the tab list. */
  datatype ClickedFile = ClickedFile(activeTabId: Option<string>, filename: string, fileContent: Option<string>)

  datatype State = State(
    openedFiles: seq<Node>,
    openedTabs: seq<Tab>,
    clickedFile: ClickedFile,
    tabIdToRemove: Option<string>,
    fileTree: Option<Node>,
    searchQuery: string,
    searchResults: seq<Node>)

  /** The request record of `performFileOperationAction`. */
  datatype OperationType = Create | Delete | RenameOp
  datatype FileOperation = FileOperation(
    kind: OperationType,
    targetId: string,
    newName: Option<string>,
    isFolder: Option<bool>,
    parentId: Option<string>)

  /** The mirror agrees with the tab list: the selection has no id exactly when no
      tab is active, and every active tab has the selection's id. */
  predicate ActiveMirrored(s: State) {
    && (s.clickedFile.activeTabId.None? <==> forall t :: t in s.openedTabs ==> !t.isActive)
    && forall t :: t in s.openedTabs && t.isActive ==> Some(t.id) == s.clickedFile.activeTabId
  }

  /** The session invariant: a well-formed tab bar, mirrored by the selection. */
  predicate Consistent(s: State) {
    Tabs.WellFormed(s.openedTabs) && ActiveMirrored(s)
  }

  const NoFile := ClickedFile(None, "", Some(""))

  /** `initialState`. */
  function InitialState(): (s: State)
    ensures s.openedFiles == [] && s.openedTabs == [] && s.searchResults == []
    ensures s.clickedFile.activeTabId.None? && s.clickedFile.filename == "" && s.clickedFile.fileContent == Some("")
    ensures s.tabIdToRemove.None? && s.fileTree.None? && s.searchQuery == ""
  {
    State([], [], NoFile, None, None, "", [])
  }

  lemma InitialStateConsistent()
    ensures Consistent(InitialState())
  {
  }

  /** `setOpenedFilesAction`. */
  function SetOpenedFiles(s: State, files: seq<Node>): (r: State)
    ensures r.openedFiles == files && r.(openedFiles := s.openedFiles) == s
  {
    s.(openedFiles := files)
  }

  /** `setOpenedTabsAction`. */
  function SetOpenedTabs(s: State, tabs: seq<Tab>): (r: State)
    ensures r.openedTabs == tabs && r.(openedTabs := s.openedTabs) == s
  {
    s.(openedTabs := tabs)
  }

  /** `setClickedFileAction`. */
  function SetClickedFile(s: State, c: ClickedFile): (r: State)
    ensures r.clickedFile == c && r.(clickedFile := s.clickedFile) == s
  {
    s.(clickedFile := c)
  }

  /** `setTabIdToRemoveAction`. */
  function SetTabIdToRemove(s: State, id: Option<string>): (r: State)
    ensures r.tabIdToRemove == id && r.(tabIdToRemove := s.tabIdToRemove) == s
  {
    s.(tabIdToRemove := id)
  }

  /** `setFileTreeAction`. */
  function SetFileTree(s: State, t: Node): (r: State)
    ensures r.fileTree == Some(t) && r.(fileTree := s.fileTree) == s
  {
    s.(fileTree := Some(t))
  }

  /** `setSearchQueryAction`. */
  function SetSearchQuery(s: State, q: string): (r: State)
    ensures r.searchQuery == q && r.(searchQuery := s.searchQuery) == s
  {
    s.(searchQuery := q)
  }

  /** `setSearchResultsAction`. */
  function SetSearchResults(s: State, results: seq<Node>): (r: State)
    ensures r.searchResults == results && r.(searchResults := s.searchResults) == s
  {
    s.(searchResults := results)
  }

  /** `performFileOperationAction`: a reducer with an empty body. */
  function PerformFileOperation(s: State, op: FileOperation): (r: State)
    ensures r == s
  {
    s
  }

  /** The tree rewrite written inline in `updateFileContentAction`: the node
      with the id takes the content, any other node with a children array has
      the rewrite mapped over its children. */
  function UpdateFileInTree(file: Node, id: string, content: string): (r: Node)
    ensures r.children.Present? == file.children.Present?
    ensures r.(children := file.children) == if file.id == id then file.(content := Some(content), isEdited := Some(true)) else file
    ensures file.id == id ==> r.children == file.children
    decreases file
  {
    if file.id == id then file.(content := Some(content), isEdited := Some(true))
    else
      match file.children
      case Present(cs) =>
        file.(children := Present(seq(|cs|, i requires 0 <= i < |cs| => UpdateFileInTree(cs[i], id, content))))
      case Absent => file
  }

  /** The inline rewrite is the shared rewriting recursion with the content
      update. */
  lemma {:induction false} UpdateFileInTreeIsPatch(t: Node, id: string, content: string)
    ensures UpdateFileInTree(t, id, content) == Patch(t, id, FileOperations.SetContent(content))
  {
    if t.id != id {
      match t.children
      case Present(cs) =>
        var f := FileOperations.SetContent(content);
        var mine := seq(|cs|, i requires 0 <= i < |cs| => UpdateFileInTree(cs[i], id, content));
        forall i | 0 <= i < |cs| ensures mine[i] == PatchAll(cs, id, f)[i] {
          PatchAllIndex(cs, id, f, i);
          UpdateFileInTreeIsPatch(cs[i], id, content);
        }
        assert mine == PatchAll(cs, id, f);
      case Absent =>
    }
  }

  /** The inline rewrite is `updateFileContentInTree`. */
  lemma {:induction false} UpdateFileInTreeAgrees(t: Node, id: string, content: string)
    ensures UpdateFileInTree(t, id, content) == FileOperations.UpdateFileContentInTree(t, id, content)
  {
    UpdateFileInTreeIsPatch(t, id, content);
  }

  /** `updateFileContentAction`: the tree (when there is one) and the tabs
      with the id take the content; the opened files and the selection keep
      their copies. */
  function UpdateFileContent(s: State, id: string, content: string): (r: State)
    ensures s.fileTree.None? ==> r.fileTree.None?
    ensures s.fileTree.Some? ==>
      r.fileTree == Some(FileOperations.UpdateFileContentInTree(s.fileTree.value, id, content))
    ensures r.openedTabs == Tabs.SetContent(s.openedTabs, id, content)
    ensures r.(fileTree := s.fileTree, openedTabs := s.openedTabs) == s
  {
    var tree := if s.fileTree.Some? then Some(UpdateFileInTree(s.fileTree.value, id, content)) else None;
    assert s.fileTree.Some? ==> tree.value == FileOperations.UpdateFileContentInTree(s.fileTree.value, id, content) by {
      if s.fileTree.Some? { UpdateFileInTreeAgrees(s.fileTree.value, id, content); }
    }
    s.(fileTree := tree, openedTabs := Tabs.SetContent(s.openedTabs, id, content))
  }

  /** `toggleTabPinAction`. */
  function ToggleTabPin(s: State, id: string): (r: State)
    ensures |r.openedTabs| == |s.openedTabs|
    ensures forall i :: 0 <= i < |s.openedTabs| ==>
      r.openedTabs[i].(isPinned := s.openedTabs[i].isPinned) == s.openedTabs[i]
      && (r.openedTabs[i].isPinned <==> (s.openedTabs[i].id == id) != s.openedTabs[i].isPinned)
    ensures r.(openedTabs := s.openedTabs) == s
  {
    s.(openedTabs := Tabs.TogglePin(s.openedTabs, id))
  }

  lemma ToggleTabPinTwice(s: State, id: string)
    ensures ToggleTabPin(ToggleTabPin(s, id), id) == s
  {
    Tabs.TogglePinTwice(s.openedTabs, id);
  }

  /** The index `Array.prototype.splice` starts at, for an array of length
      `len`: negative indices count from the end, and both ends are clamped. */
  function SpliceIndex(i: int, len: nat): (k: nat)
    ensures k <= len
    ensures 0 <= i <= len ==> k == i
    ensures -(len as int) <= i < 0 ==> k == len + i
    ensures i > len ==> k == len
    ensures i < -(len as int) ==> k == 0
  {
    if i < 0 then (if len + i < 0 then 0 else len + i)
    else if i < len then i else len
  }

  /** The tab list can give the dragged element: the start index does not
      clamp past the end (there `splice` removes nothing and the second
      `splice` inserts `undefined`). */
  predicate CanReorder(s: State, startIndex: int) {
    SpliceIndex(startIndex, |s.openedTabs|) < |s.openedTabs|
  }

  /** `reorderTabsAction`: remove the tab at `startIndex`, then insert it at
      `endIndex` of the shortened list. */
  function ReorderTabs(s: State, startIndex: int, endIndex: int): (r: State)
    requires CanReorder(s, startIndex)
    ensures var from := SpliceIndex(startIndex, |s.openedTabs|);
            var to := SpliceIndex(endIndex, |s.openedTabs| - 1);
            && |r.openedTabs| == |s.openedTabs|
            && r.openedTabs[to] == s.openedTabs[from]
            && Seqs.RemoveAt(r.openedTabs, to) == Seqs.RemoveAt(s.openedTabs, from)
            && multiset(r.openedTabs) == multiset(s.openedTabs)
    ensures r.(openedTabs := s.openedTabs) == s
  {
    var len := |s.openedTabs|;
    s.(openedTabs := Seqs.Move(s.openedTabs, SpliceIndex(startIndex, len), SpliceIndex(endIndex, len - 1)))
  }

  /** Dragging a tab from `i` to `j` and back restores the order. */
  lemma ReorderBack(s: State, i: nat, j: nat)
    requires i < |s.openedTabs| && j < |s.openedTabs|
    ensures CanReorder(ReorderTabs(s, i, j), j)
    ensures ReorderTabs(ReorderTabs(s, i, j), j, i) == s
  {
    Seqs.MoveBack(s.openedTabs, i, j);
  }

  function IsActiveTab(): Tab -> bool {
    (t: Tab) => t.isActive
  }

  /** `closeAllTabsExceptActiveAction`: the first active tab is kept alone;
      with no active tab nothing changes. */
  function CloseAllTabsExceptActive(s: State): (r: State)
    ensures (forall i :: 0 <= i < |s.openedTabs| ==> !s.openedTabs[i].isActive) ==> r == s
    ensures (exists i :: 0 <= i < |s.openedTabs| && s.openedTabs[i].isActive) ==>
      && |r.openedTabs| == 1 && r.openedTabs[0].isActive
      && exists i :: 0 <= i < |s.openedTabs| && s.openedTabs[i] == r.openedTabs[0]
                     && forall j :: 0 <= j < i ==> !s.openedTabs[j].isActive
    ensures r.(openedTabs := s.openedTabs) == s
  {
    match Seqs.Find(s.openedTabs, IsActiveTab())
    case Some(active) => s.(openedTabs := [active])
    case None => s
  }

  lemma CloseAllTabsExceptActiveIdempotent(s: State)
    ensures CloseAllTabsExceptActive(CloseAllTabsExceptActive(s)) == CloseAllTabsExceptActive(s)
  {
    var r := CloseAllTabsExceptActive(s);
    if exists i :: 0 <= i < |s.openedTabs| && s.openedTabs[i].isActive {
      assert r.openedTabs[0].isActive;
      assert r.openedTabs == [r.openedTabs[0]];
    }
  }

  /** The reducers that touch tabs keep the session consistent. */
  lemma UpdateFileContentKeepsConsistent(s: State, id: string, content: string)
    requires Consistent(s)
    ensures Consistent(UpdateFileContent(s, id, content))
  {
    var r := UpdateFileContent(s, id, content);
    Tabs.SameKeysKeepWellFormed(s.openedTabs, r.openedTabs);
    forall t | t in r.openedTabs ensures exists u :: u in s.openedTabs && u.id == t.id && u.isActive == t.isActive {
      var i :| 0 <= i < |r.openedTabs| && r.openedTabs[i] == t;
      assert s.openedTabs[i] in s.openedTabs;
    }
    forall u | u in s.openedTabs && u.isActive ensures exists t :: t in r.openedTabs && t.isActive {
      var i :| 0 <= i < |s.openedTabs| && s.openedTabs[i] == u;
      assert r.openedTabs[i] in r.openedTabs;
    }
  }

  lemma ToggleTabPinKeepsConsistent(s: State, id: string)
    requires Consistent(s)
    ensures Consistent(ToggleTabPin(s, id))
  {
    var r := ToggleTabPin(s, id);
    Tabs.SameKeysKeepWellFormed(s.openedTabs, r.openedTabs);
    forall t | t in r.openedTabs ensures exists u :: u in s.openedTabs && u.id == t.id && u.isActive == t.isActive {
      var i :| 0 <= i < |r.openedTabs| && r.openedTabs[i] == t;
      assert s.openedTabs[i] in s.openedTabs;
    }
    forall u | u in s.openedTabs && u.isActive ensures exists t :: t in r.openedTabs && t.isActive {
      var i :| 0 <= i < |s.openedTabs| && s.openedTabs[i] == u;
      assert r.openedTabs[i] in r.openedTabs;
    }
  }

  lemma ReorderTabsKeepsConsistent(s: State, startIndex: int, endIndex: int)
    requires CanReorder(s, startIndex)
    requires Consistent(s)
    ensures Consistent(ReorderTabs(s, startIndex, endIndex))
  {
    var len := |s.openedTabs|;
    var r := ReorderTabs(s, startIndex, endIndex);
    Tabs.MoveKeepsWellFormed(s.openedTabs, SpliceIndex(startIndex, len), SpliceIndex(endIndex, len - 1));
    assert forall t :: t in r.openedTabs <==> t in multiset(r.openedTabs);
    assert forall t :: t in s.openedTabs <==> t in multiset(s.openedTabs);
  }

  lemma CloseAllTabsExceptActiveKeepsConsistent(s: State)
    requires Consistent(s)
    ensures Consistent(CloseAllTabsExceptActive(s))
  {
  }
}
