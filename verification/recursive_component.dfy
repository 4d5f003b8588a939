/** The handlers of one row of the file explorer
    (`src/components/RecursiveComponent.tsx`): opening a file, creating,
    deleting and renaming through the row's context menu. */
module RecursiveComponent {
  import opened Options
  import opened Interfaces
  import opened Tree
  import Seqs
  import Text
  import Tabs
  import FileOperations
  import opened FileTreeSlice

  /** `doesFileObjectExist(openedFiles, id)`, taken to be id membership: the
      helper's module is not part of this model. */
  predicate FileIsOpen(files: seq<Node>, id: string) {
    exists i :: 0 <= i < |files| && files[i].id == id
  }

  /** `onFileClicked`: on a file, its tab is selected (or appended, active
      and unpinned), the selection takes the node's name, content and id, and
      the node joins the opened files unless one with its id is there. A
      folder row does nothing here. */
  function OnFileClicked(s: State, node: Node): (r: State)
    ensures node.isFolder ==> r == s
    ensures !node.isFolder ==>
      && Tabs.HasId(r.openedTabs, node.id)
      && (forall i :: 0 <= i < |r.openedTabs| ==> (r.openedTabs[i].isActive <==> r.openedTabs[i].id == node.id))
      && (Tabs.HasId(s.openedTabs, node.id) ==> |r.openedTabs| == |s.openedTabs|)
      && (!Tabs.HasId(s.openedTabs, node.id) ==>
            |r.openedTabs| == |s.openedTabs| + 1 && r.openedTabs[|s.openedTabs|] == TabOf(node, false, true))
      && (forall i :: 0 <= i < |s.openedTabs| ==>
            r.openedTabs[i].(isActive := s.openedTabs[i].isActive) == s.openedTabs[i])
      && r.clickedFile == ClickedFile(Some(node.id), node.name, node.content)
      && (FileIsOpen(s.openedFiles, node.id) ==> r.openedFiles == s.openedFiles)
      && (!FileIsOpen(s.openedFiles, node.id) ==> r.openedFiles == s.openedFiles + [node])
    ensures r.(openedTabs := s.openedTabs, clickedFile := s.clickedFile, openedFiles := s.openedFiles) == s
  {
    if node.isFolder then s
    else
      var alreadyOpen := FileIsOpen(s.openedFiles, node.id);
      s.(openedTabs := Tabs.OpenTab(s.openedTabs, node),
         clickedFile := ClickedFile(Some(node.id), node.name, node.content),
         openedFiles := if alreadyOpen then s.openedFiles else s.openedFiles + [node])
  }

  /** Opening from the tree keeps the session consistent and adds no
      duplicate tab. */
  lemma OnFileClickedConsistent(s: State, node: Node)
    requires Consistent(s)
    ensures Consistent(OnFileClicked(s, node))
  {
    if !node.isFolder {
      var r := OnFileClicked(s, node);
      assert Tabs.OnlyActive(r.openedTabs, node.id);
      var i :| 0 <= i < |r.openedTabs| && r.openedTabs[i].id == node.id && r.openedTabs[i].isActive;
      assert r.openedTabs[i] in r.openedTabs;
    }
  }

  /** `onFolderClicked`: only the row's own expanded flag flips. */
  function OnFolderClicked(isOpen: bool): (r: bool)
    ensures r != isOpen
  {
    !isOpen
  }

  /** JavaScript truthiness of a `string | null`. */
  predicate Truthy(v: Option<string>) {
    v.Some? && v.value != ""
  }

  /** `findParentId`: like `findParentOfFile`, but returning the parent's id,
      and skipping a result from a subtree that is the empty string. */
  function FindParentId(tree: Node, targetId: string): (r: Option<string>)
    ensures r.Some? ==>
      exists m :: m in Flatten(tree) && m.id == r.value && exists c :: c in Kids(m) && c.id == targetId
    ensures !OccursBelow(tree, targetId) ==> r.None?
    decreases tree, 1
  {
    assert tree in Flatten(tree);
    match tree.children
    case Present(cs) =>
      var r := FindParentIdIn(tree, cs, targetId);
      assert r.Some? ==> exists m :: m in Flatten(tree) && m.id == r.value && exists c :: c in Kids(m) && c.id == targetId by {
        if r.Some? && !(r.value == tree.id && exists c :: c in cs && c.id == targetId) {
          var m :| m in FlattenAll(cs) && m.id == r.value && exists c :: c in Kids(m) && c.id == targetId;
          assert m in Flatten(tree);
        }
      }
      r
    case Absent => None
  }

  /** The loop of `findParentId` over the children `cs` of `tree`. */
  function FindParentIdIn(tree: Node, cs: seq<Node>, targetId: string): (r: Option<string>)
    ensures r.Some? ==>
      || (r.value == tree.id && exists c :: c in cs && c.id == targetId)
      || (exists m :: m in FlattenAll(cs) && m.id == r.value && exists c :: c in Kids(m) && c.id == targetId)
    ensures !OccursIn(cs, targetId) ==> r.None?
    decreases cs, 0
  {
    if cs == [] then None
    else
      assert FlattenAll(cs) == Flatten(cs[0]) + FlattenAll(cs[1..]);
      FlattenUnfold(cs[0]);
      if cs[0].id == targetId then Some(tree.id)
      else
        var found := FindParentId(cs[0], targetId);
        if Truthy(found) then found else FindParentIdIn(tree, cs[1..], targetId)
  }

  function IdOf(): Node -> string {
    (n: Node) => n.id
  }

  /** Every node of the tree has a non-empty id (the generated ids do). */
  predicate NonEmptyIds(ns: seq<Node>) {
    forall m :: m in ns ==> m.id != ""
  }

  /** With non-empty ids, `findParentId` is the id of `findParentOfFile`. */
  lemma {:induction false} FindParentIdAgrees(tree: Node, targetId: string)
    requires NonEmptyIds(Flatten(tree))
    ensures FindParentId(tree, targetId) == FileOperations.FindParentOfFile(tree, targetId).Map(IdOf())
    decreases tree, 1
  {
    match tree.children
    case Present(cs) =>
      assert tree in Flatten(tree);
      FindParentIdInAgrees(tree, cs, targetId);
    case Absent =>
  }

  lemma {:induction false} FindParentIdInAgrees(tree: Node, cs: seq<Node>, targetId: string)
    requires tree.id != "" && NonEmptyIds(FlattenAll(cs))
    ensures FindParentIdIn(tree, cs, targetId) == FileOperations.FindParentIn(tree, cs, targetId).Map(IdOf())
    decreases cs, 0
  {
    if cs != [] {
      assert FlattenAll(cs) == Flatten(cs[0]) + FlattenAll(cs[1..]);
      if cs[0].id != targetId {
        FindParentIdAgrees(cs[0], targetId);
        FindParentIdInAgrees(tree, cs[1..], targetId);
      }
    }
  }

  /** The node a new entry goes under: the clicked folder itself, or the
      parent of the clicked file. */
  function CreateTarget(tree: Node, node: Node): Option<string> {
    if node.isFolder then Some(node.id) else FindParentId(tree, node.id)
  }

  /** `handleCreateFile` and `handleCreateFolder`, with `freshId` standing
      for the generated id: the new entry is appended under the target, and
      nothing changes without a tree or without a truthy target. */
  function HandleCreate(s: State, node: Node, name: string, isFolder: bool, freshId: string): (r: State)
    requires s.fileTree.Some? ==> !Occurs(s.fileTree.value, freshId)
    ensures r.(fileTree := s.fileTree) == s
    ensures s.fileTree.None? ==> r == s
    ensures s.fileTree.Some? && !Truthy(CreateTarget(s.fileTree.value, node)) ==> r == s
    ensures s.fileTree.Some? && Truthy(CreateTarget(s.fileTree.value, node)) ==>
      var tree, target := s.fileTree.value, CreateTarget(s.fileTree.value, node).value;
      var entry := FileOperations.CreateNewFile(target, name, isFolder, freshId);
      && r.fileTree.Some?
      && (!Occurs(tree, target) ==> r.fileTree.value == tree)
      && FindById(r.fileTree.value, target) == FindById(tree, target).Map(FileOperations.AppendTo(entry))
      && (Occurs(tree, target) && UniqueTree(tree) ==>
            UniqueTree(r.fileTree.value) && FindById(r.fileTree.value, freshId) == Some(entry))
  {
    match s.fileTree
    case None => s
    case Some(tree) =>
      var target := CreateTarget(tree, node);
      if Truthy(target) then
        var entry := FileOperations.CreateNewFile(target.value, name, isFolder, freshId);
        var updated := FileOperations.AddFileToTree(tree, target.value, entry);
        assert Occurs(tree, target.value) && UniqueTree(tree) ==> UniqueTree(updated) && FindById(updated, freshId) == Some(entry) by {
          if Occurs(tree, target.value) && UniqueTree(tree) {
            FileOperations.AddKeepsIdsUnique(tree, target.value, entry);
            var p := FindById(updated, target.value).value;
            assert entry in Kids(p);
            KidInFlatten(updated, p, entry);
            FindUnique(updated, entry);
          }
        }
        s.(fileTree := Some(updated))
      else s
  }

  /** `handleCreateFile`: a file named "new-file.txt". */
  function HandleCreateFile(s: State, node: Node, freshId: string): (r: State)
    requires s.fileTree.Some? ==> !Occurs(s.fileTree.value, freshId)
    ensures r.(fileTree := s.fileTree) == s
    ensures s.fileTree.Some? && Truthy(CreateTarget(s.fileTree.value, node))
            && Occurs(s.fileTree.value, CreateTarget(s.fileTree.value, node).value) && UniqueTree(s.fileTree.value) ==>
      && r.fileTree.Some? && UniqueTree(r.fileTree.value)
      && var found := FindById(r.fileTree.value, freshId);
         found.Some? && found.value.name == "new-file.txt" && !found.value.isFolder && found.value.content == Some("")
  {
    HandleCreate(s, node, "new-file.txt", false, freshId)
  }

  /** `handleCreateFolder`: an empty folder named "new-folder". */
  function HandleCreateFolder(s: State, node: Node, freshId: string): (r: State)
    requires s.fileTree.Some? ==> !Occurs(s.fileTree.value, freshId)
    ensures r.(fileTree := s.fileTree) == s
    ensures s.fileTree.Some? && Truthy(CreateTarget(s.fileTree.value, node))
            && Occurs(s.fileTree.value, CreateTarget(s.fileTree.value, node).value) && UniqueTree(s.fileTree.value) ==>
      && r.fileTree.Some? && UniqueTree(r.fileTree.value)
      && var found := FindById(r.fileTree.value, freshId);
         found.Some? && found.value.name == "new-folder" && found.value.isFolder && found.value.children == Present([])
  {
    HandleCreate(s, node, "new-folder", true, freshId)
  }

  /** The target of a create is a node of the tree except when the clicked
      row is a folder, which names itself. */
  lemma CreateTargetOccurs(tree: Node, node: Node)
    requires !node.isFolder && CreateTarget(tree, node).Some?
    ensures Occurs(tree, CreateTarget(tree, node).value)
  {
  }

  function FileWithoutId(id: string): Node -> bool {
    (n: Node) => n.id != id
  }

  /** `handleDelete`, with `confirmed` standing for the answer to
      `window.confirm`: the node is cut from the tree and its tabs and
      opened-file entries are dropped. The selection is left as it was. */
  function HandleDelete(s: State, node: Node, confirmed: bool): (r: State)
    ensures !confirmed || s.fileTree.None? ==> r == s
    ensures confirmed && s.fileTree.Some? ==>
      && r.fileTree.Some? && r.fileTree.value.id == s.fileTree.value.id
      && !OccursBelow(r.fileTree.value, node.id)
      && Seqs.IsSubsequence(IdsOf(Flatten(r.fileTree.value)), IdsOf(Flatten(s.fileTree.value)))
      && (forall m :: FileOperations.SurvivesRemoval(s.fileTree.value, m, node.id) ==>
            exists n :: n in Flatten(r.fileTree.value) && n.(children := m.children) == m)
      && !Tabs.HasId(r.openedTabs, node.id)
      && (forall i :: 0 <= i < |s.openedTabs| && s.openedTabs[i].id != node.id ==> s.openedTabs[i] in r.openedTabs)
      && Seqs.IsSubsequence(r.openedTabs, s.openedTabs)
      && !FileIsOpen(r.openedFiles, node.id)
      && (forall i :: 0 <= i < |s.openedFiles| && s.openedFiles[i].id != node.id ==> s.openedFiles[i] in r.openedFiles)
      && Seqs.IsSubsequence(r.openedFiles, s.openedFiles)
    ensures r.clickedFile == s.clickedFile
    ensures r.(fileTree := s.fileTree, openedTabs := s.openedTabs, openedFiles := s.openedFiles) == s
  {
    if s.fileTree.Some? && confirmed then
      var tree := s.fileTree.value;
      FileOperations.RemoveLeavesNoTarget(tree, node.id);
      FileOperations.RemoveKeepsOrder(tree, node.id);
      FileOperations.RemoveKeepsSurvivors(tree, node.id);
      s.(fileTree := Some(FileOperations.RemoveFileFromTree(tree, node.id)),
         openedFiles := Seqs.Filter(s.openedFiles, FileWithoutId(node.id)),
         openedTabs := Tabs.CloseTab(s.openedTabs, node.id))
    else s
  }

  /** Deleting keeps the tab bar well formed. */
  lemma HandleDeleteKeepsWellFormed(s: State, node: Node, confirmed: bool)
    requires Tabs.WellFormed(s.openedTabs)
    ensures Tabs.WellFormed(HandleDelete(s, node, confirmed).openedTabs)
  {
    Tabs.CloseKeepsWellFormed(s.openedTabs, node.id);
  }

  /** Deleting the file of the active tab leaves the selection on a tab that
      is gone: the session is no longer consistent. */
  lemma DeleteActiveLeavesDanglingSelection(s: State, node: Node)
    requires Consistent(s) && s.fileTree.Some?
    requires exists i :: 0 <= i < |s.openedTabs| && s.openedTabs[i].isActive && s.openedTabs[i].id == node.id
    ensures !ActiveMirrored(HandleDelete(s, node, true))
  {
    var i :| 0 <= i < |s.openedTabs| && s.openedTabs[i].isActive && s.openedTabs[i].id == node.id;
    assert s.openedTabs[i] in s.openedTabs;
    var r := HandleDelete(s, node, true);
    assert r.clickedFile.activeTabId == Some(node.id);
    assert forall t :: t in r.openedTabs ==> t.id != node.id;
  }

  /** `handleRenameSubmit`: with a tree, a non-blank input, and an input that
      differs from the current name as typed, the trimmed input becomes the
      name of the id in the tree, the opened files and the tabs. */
  function HandleRenameSubmit(s: State, node: Node, input: string): (r: State)
    ensures s.fileTree.None? || Text.Trim(input) == "" || input == node.name ==> r == s
    ensures s.fileTree.Some? && Text.Trim(input) != "" && input != node.name ==>
      var name := Text.Trim(input);
      && r.fileTree.Some?
      && FindById(r.fileTree.value, node.id) == FindById(s.fileTree.value, node.id).Map(FileOperations.RenameTo(name))
      && |Flatten(r.fileTree.value)| == |Flatten(s.fileTree.value)|
      && (forall i :: 0 <= i < |Flatten(s.fileTree.value)| ==>
            || HeaderOf(Flatten(r.fileTree.value)[i]) == HeaderOf(Flatten(s.fileTree.value)[i])
            || (Flatten(s.fileTree.value)[i].id == node.id
                && HeaderOf(Flatten(r.fileTree.value)[i]) == HeaderOf(Flatten(s.fileTree.value)[i]).(name := name)))
      && |r.openedFiles| == |s.openedFiles|
      && (forall i :: 0 <= i < |s.openedFiles| ==>
            r.openedFiles[i] == if s.openedFiles[i].id == node.id then s.openedFiles[i].(name := name) else s.openedFiles[i])
      && |r.openedTabs| == |s.openedTabs|
      && (forall i :: 0 <= i < |s.openedTabs| ==>
            r.openedTabs[i] == if s.openedTabs[i].id == node.id then s.openedTabs[i].(name := name) else s.openedTabs[i])
    ensures r.clickedFile == s.clickedFile
    ensures r.(fileTree := s.fileTree, openedTabs := s.openedTabs, openedFiles := s.openedFiles) == s
  {
    var name := Text.Trim(input);
    if s.fileTree.Some? && name != "" && input != node.name then
      s.(fileTree := Some(FileOperations.RenameFileInTree(s.fileTree.value, node.id, name)),
         openedFiles := Seqs.MapWhere(s.openedFiles, FileOperations.HasId(node.id), FileOperations.RenameTo(name)),
         openedTabs := Seqs.MapWhere(s.openedTabs, Tabs.WithId(node.id), Tabs.Retitle(name)))
    else s
  }

  /** Renaming keeps the session consistent. */
  lemma HandleRenameSubmitConsistent(s: State, node: Node, input: string)
    requires Consistent(s)
    ensures Consistent(HandleRenameSubmit(s, node, input))
  {
    var r := HandleRenameSubmit(s, node, input);
    if r != s {
      Tabs.SameKeysKeepWellFormed(s.openedTabs, r.openedTabs);
      forall t | t in r.openedTabs ensures exists u :: u in s.openedTabs && u.id == t.id && u.isActive == t.isActive {
        var i :| 0 <= i < |r.openedTabs| && r.openedTabs[i] == t;
        assert s.openedTabs[i] in s.openedTabs;
      }
      forall u | u in s.openedTabs && u.isActive ensures exists t :: t in r.openedTabs && t.isActive {
        var i :| 0 <= i < |s.openedTabs| && s.openedTabs[i] == u;
        assert r.openedTabs[i] in r.openedTabs;
      }
    }
  }
}
