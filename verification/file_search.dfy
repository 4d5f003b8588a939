/** The quick-open search (`src/components/FileSearch.tsx`): the effect that
    recomputes the results, and opening a result. */
module FileSearch {
  import opened Options
  import opened Interfaces
  import opened Tree
  import Seqs
  import Text
  import Tabs
  import FileOperations
  import RecursiveComponent
  import opened FileTreeSlice

  function IsFile(): Node -> bool {
    (n: Node) => !n.isFolder
  }

  /** A node the search shows for the query: a file whose lower-cased name
      contains the lower-cased query. */
  predicate Shown(n: Node, query: string) {
    !n.isFolder && Text.Contains(Text.ToLower(n.name), Text.ToLower(query))
  }

  /** The effect on `searchQuery` and `fileTree`: with a non-empty query and
      a tree, the results are the files among the tree search's hits, in
      pre-order; otherwise there are none. */
  function SearchResultsEffect(s: State): (r: State)
    ensures s.searchQuery == "" || s.fileTree.None? ==> r.searchResults == []
    ensures s.searchQuery != "" && s.fileTree.Some? ==>
      && (forall n :: n in r.searchResults <==> n in Flatten(s.fileTree.value) && Shown(n, s.searchQuery))
      && Seqs.IsSubsequence(r.searchResults, Flatten(s.fileTree.value))
    ensures r.(searchResults := s.searchResults) == s
  {
    if s.searchQuery != "" && s.fileTree.Some? then
      var hits := FileOperations.SearchFilesInTree(s.fileTree.value, s.searchQuery);
      var files := Seqs.Filter(hits, IsFile());
      Seqs.SubsequenceTrans(files, hits, Flatten(s.fileTree.value));
      assert forall n :: n in files <==> n in hits && !n.isFolder by {
        forall n | n in files ensures n in hits && !n.isFolder {
          var i :| 0 <= i < |files| && files[i] == n;
        }
        forall n | n in hits && !n.isFolder ensures n in files {
          var i :| 0 <= i < |hits| && hits[i] == n;
        }
      }
      s.(searchResults := files)
    else
      s.(searchResults := [])
  }

  /** `handleSearchChange`: the typed text becomes the query. */
  function HandleSearchChange(s: State, value: string): (r: State)
    ensures r.searchQuery == value && r.(searchQuery := s.searchQuery) == s
  {
    SetSearchQuery(s, value)
  }

  /** `handleFileSelect`: the result's tab is selected or appended, the
      selection takes the result's name, content and id, and the query is
      cleared. The opened files are not updated. */
  function HandleFileSelect(s: State, file: Node): (r: State)
    ensures Tabs.HasId(r.openedTabs, file.id)
    ensures forall i :: 0 <= i < |r.openedTabs| ==> (r.openedTabs[i].isActive <==> r.openedTabs[i].id == file.id)
    ensures Tabs.HasId(s.openedTabs, file.id) ==> |r.openedTabs| == |s.openedTabs|
    ensures !Tabs.HasId(s.openedTabs, file.id) ==>
      |r.openedTabs| == |s.openedTabs| + 1 && r.openedTabs[|s.openedTabs|] == TabOf(file, false, true)
    ensures forall i :: 0 <= i < |s.openedTabs| ==>
      r.openedTabs[i].(isActive := s.openedTabs[i].isActive) == s.openedTabs[i]
    ensures Tabs.DistinctIds(s.openedTabs) ==> Tabs.WellFormed(r.openedTabs)
    ensures r.clickedFile == ClickedFile(Some(file.id), file.name, file.content)
    ensures r.searchQuery == ""
    ensures r.(openedTabs := s.openedTabs, clickedFile := s.clickedFile, searchQuery := s.searchQuery) == s
  {
    s.(openedTabs := Tabs.OpenTab(s.openedTabs, file),
       clickedFile := ClickedFile(Some(file.id), file.name, file.content),
       searchQuery := "")
  }

  /** Opening a result leaves a consistent session when the tab ids were
      distinct. */
  lemma HandleFileSelectConsistent(s: State, file: Node)
    requires Tabs.DistinctIds(s.openedTabs)
    ensures Consistent(HandleFileSelect(s, file))
  {
    var r := HandleFileSelect(s, file);
    assert Tabs.OnlyActive(r.openedTabs, file.id);
    var i :| 0 <= i < |r.openedTabs| && r.openedTabs[i].id == file.id && r.openedTabs[i].isActive;
    assert r.openedTabs[i] in r.openedTabs;
  }

  /** Opening a file from the search and clicking it in the tree leave the
      same tab bar and selection; only the opened files and the query differ. */
  lemma SelectMatchesTreeClick(s: State, file: Node)
    requires !file.isFolder
    ensures HandleFileSelect(s, file).openedTabs == RecursiveComponent.OnFileClicked(s, file).openedTabs
    ensures HandleFileSelect(s, file).clickedFile == RecursiveComponent.OnFileClicked(s, file).clickedFile
  {
  }
}
