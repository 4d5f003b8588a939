# VSCode-Clone editor state, modelled in Dafny

This project models the state logic of a browser-based code editor written in
TypeScript and React. The model has two parts.

- **The project tree.** A recursive file/folder record (`IFile`) and the pure
  operations on it in `src/utils/fileOperations.ts`: create a node, find a
  node, find a node's parent, append a child, remove by id at every level,
  rename, update content, search by name, and take a file extension.
- **The session.** This is the Redux state of `src/app/features/fileTreeSlice.ts`:
  - the opened files;
  - the ordered tab list (`ITab`, a node plus `isPinned` and `isActive`);
  - the `clickedFile` selection record, which mirrors the active tab's id, name and
    content;
  - the tree, the search query and the search results.

  It also covers the reducers, and the event handlers that drive them from the
  tab bar, the explorer rows, the quick-open search and the tab context menu.

Every reducer and handler is a pure function `State -> State`. The central
invariant is `FileTreeSlice.Consistent`: tab ids are distinct, at most one tab
is active, and the selection names the active tab, or nothing when no tab is
active.
- Selecting, opening, closing from the tab bar, pinning, dragging, content
  edits, renaming and "close all except active" keep this invariant, given
  distinct tab ids.
- Three handlers break it, because they drop the active tab without touching
  `clickedFile`, so the selection is left on a tab that no longer exists:
  - deleting the file of the active tab
    (`RecursiveComponent.DeleteActiveLeavesDanglingSelection`);
  - "Close" from the context menu when the tab to remove is the active one
    (`ContextMenu.CloseActiveLeavesDanglingSelection`);
  - "Close All" from the context menu while a tab is active
    (`ContextMenu.CloseAllLeavesDanglingSelection`).

The model follows the code as written:
- Closing any tab from the tab bar, active or not, makes the last remaining
  tab the active one
  (`OpenedFilesBarTab.ClosingInactiveTabMovesSelection`). The context menu's
  "Close" activates nothing.
- Deleting a node, even the file of the active tab, leaves `clickedFile` as
  it was.
- A content edit does not refresh the copies in `openedFiles` or in the
  selection.
- `createNewFile` ignores its parent id.
- `removeFileFromTree` never examines the root, so the root is never removed.
- Deleting a folder closes only the tabs that carry the folder's own id. Tabs
  of files inside the folder stay open.
- A rename compares the raw input, not the trimmed input, with the current
  name. Typing `" a "` over the name `"a"` therefore passes the guard, and
  writes `"a"`.

Files, one module each:
- `options.dfy`, `seqs.dfy`, `text.dfy`: the JavaScript primitives the code
  relies on. These are `null`/`undefined`, `filter`, `find`, the two `splice`
  calls of a move, `toLowerCase`, `includes`, `trim` and the last field of
  `split`.
- `interfaces.dfy`: `IFile` and `ITab`.
- `tree.dfy`: the pre-order traversal, id occurrence, and the rewriting
  recursion that `addFileToTree`, `renameFileInTree` and
  `updateFileContentInTree` share.
- `file_operations.dfy`: the tree operations.
- `tabs.dfy`: the tab-list rewrites shared by reducers and handlers.
- `file_tree_slice.dfy`: the state record and the reducers.
- `opened_files_bar_tab.dfy`, `recursive_component.dfy`, `file_search.dfy`,
  `context_menu.dfy`: the handlers of each component.

## Model

| member | source | states |
|---|---|---|
| Interfaces.TabOf | src/interfaces/index.ts:11-14 | a tab copies every field of its node and adds its own pin and active flags |
| FileOperations.CreateNewFile | src/utils/fileOperations.ts:4-18 | the new node has the fresh id and given name, is not edited or pinned; a file has empty content and no children array, a folder an empty children array and no content; it is a single-node tree |
| FileOperations.CreateIgnoresParent | src/utils/fileOperations.ts:4-8 | the parent id passed to `createNewFile` has no effect on the node |
| Tree.FindById | src/utils/fileOperations.ts:20-36 | a found node has the id and is a node of the tree; nothing is found exactly when no node has the id |
| FileOperations.FindByIdIsFirstInPreOrder | src/utils/fileOperations.ts:20-36 | the lookup returns the first node with the id in pre-order |
| FileOperations.FindParentOfFile | src/utils/fileOperations.ts:38-53 | a result is a node of the tree with a direct child carrying the id; there is none exactly when no node below the root has the id, so the root has no parent |
| FileOperations.FindParentIn | src/utils/fileOperations.ts:42-50 | the loop over the children returns the parent itself when a direct child matches, otherwise a node of a child's subtree that has a matching child |
| FileOperations.AddFileToTree | src/utils/fileOperations.ts:55-77 | the root id is kept; an absent parent id leaves the tree equal; at a matching root the new node is appended after the existing children and nothing else changes; looking up the parent afterwards finds it with the node appended |
| FileOperations.AddOnlyNewIds | src/utils/fileOperations.ts:55-77 | appending a childless node brings in no id but the new node's |
| FileOperations.AddKeepsIdsUnique | src/utils/fileOperations.ts:55-77 | appending a node with a fresh id and no children keeps every id in the tree unique |
| FileOperations.RemoveFileFromTree | src/utils/fileOperations.ts:79-93 | the root is always kept with all its own fields, and keeps or lacks its children array as before |
| FileOperations.RemoveLeavesNoTarget | src/utils/fileOperations.ts:83-88 | after removal no node below the root has the target id |
| FileOperations.RemoveAbsent | src/utils/fileOperations.ts:79-93 | removing an id that occurs nowhere below the root gives an equal tree |
| FileOperations.RemoveKeepsOrder | src/utils/fileOperations.ts:83-88 | the surviving nodes keep their pre-order: the ids afterwards are a subsequence of the ids before |
| FileOperations.RemoveAllKeepsOthers | src/utils/fileOperations.ts:83-88 | every child without the target id stays in the children list, pruned in turn |
| FileOperations.RemoveKeepsSurvivor | src/utils/fileOperations.ts:79-93 | every node reached from the root without passing through a node carrying the target id is still in the tree with all its own fields |
| FileOperations.RemoveUndoesAdd | src/utils/fileOperations.ts:55-93 | appending a fresh node under a parent that has a children array and then removing its id gives back the original tree |
| Tree.PatchRewritesOnlyTargets | src/utils/fileOperations.ts:95-135 | the shared rewriting recursion keeps the shape, and changes a node only when it carries the target id, and then only as the rewrite does |
| Tree.PatchThenFind | src/utils/fileOperations.ts:95-135 | after the rewrite, looking the target up finds the rewritten first match |
| FileOperations.RenameFileInTree | src/utils/fileOperations.ts:95-114 | only nodes with the target id change, and only their name; the shape and all other fields are kept; the lookup finds the renamed node; renaming to the current name gives an equal tree |
| FileOperations.UpdateFileContentInTree | src/utils/fileOperations.ts:116-135 | only nodes with the target id change, taking the content and `isEdited = true`; the shape and all other nodes are kept; an absent id gives an equal tree |
| FileOperations.SearchFilesInTree | src/utils/fileOperations.ts:137-153 | a node is in the result exactly when it is in the tree and its lower-cased name contains the lower-cased query, folders included; results keep pre-order; the empty query returns every node |
| FileOperations.SearchIsFilter | src/utils/fileOperations.ts:141-151 | the recursive visitor yields exactly the matching nodes of the pre-order traversal, in order |
| FileOperations.GetFileExtension | src/utils/fileOperations.ts:155-157 | the extension has no dot and no upper-case letter; a name without a dot is its own extension, lower-cased |
| FileOperations.ExtensionOfDottedName | src/utils/fileOperations.ts:155-157 | the extension of `base.ext` is `ext` lower-cased, whatever dots `base` holds |
| Text.ToLower | src/utils/fileOperations.ts:139-142 | lower-casing keeps the length, maps each upper-case letter to its lower-case form and leaves other characters alone |
| Text.ToLowerIdempotent | src/utils/fileOperations.ts:139-142 | lower-casing twice is lower-casing once |
| Text.Contains | src/utils/fileOperations.ts:142 | `includes` holds exactly when the query occurs as a contiguous piece |
| Text.Trim | src/components/RecursiveComponent.tsx:148-149 | only leading and trailing space characters are removed: the result is the piece of the input between an all-space prefix and an all-space suffix, with no space character at either end, and it is empty exactly when the input is all spaces |
| Text.TrimIdempotent | src/components/RecursiveComponent.tsx:148-149 | trimming twice is trimming once |
| Text.LastField | src/utils/fileOperations.ts:156 | the last field of `split` is the longest suffix without the separator |
| Seqs.Filter | src/components/OpenedFilesBarTab.tsx:46 | `filter` keeps only elements that pass, keeps every element that passes, in the original order, and keeps everything when everything passes |
| Seqs.FilterCounts | src/components/OpenedFilesBarTab.tsx:46 | every value that passes keeps all its copies and every value that fails keeps none, so closing tabs, deleting and searching drop exactly the entries that fail |
| Seqs.Find | src/app/features/fileTreeSlice.ts:92 | `find` returns the first element that passes, or nothing when none does |
| Seqs.Move | src/app/features/fileTreeSlice.ts:86-88 | the two splices place the moved element at the target index, keep the others in order, and permute the list |
| Seqs.MoveBack | src/app/features/fileTreeSlice.ts:86-88 | moving an element back restores the list |
| FileTreeSlice.InitialState | src/app/features/fileTreeSlice.ts:20-32 | no files, tabs or results, a null selection with empty name and content, no tree and an empty query |
| FileTreeSlice.InitialStateConsistent | src/app/features/fileTreeSlice.ts:20-32 | the initial session satisfies the invariant |
| FileTreeSlice.SetOpenedFiles | src/app/features/fileTreeSlice.ts:38-40 | replaces the opened files and nothing else |
| FileTreeSlice.SetOpenedTabs | src/app/features/fileTreeSlice.ts:41-43 | replaces the tabs and nothing else |
| FileTreeSlice.SetClickedFile | src/app/features/fileTreeSlice.ts:44-46 | replaces the selection and nothing else |
| FileTreeSlice.SetTabIdToRemove | src/app/features/fileTreeSlice.ts:47-49 | replaces the id to remove and nothing else |
| FileTreeSlice.SetFileTree | src/app/features/fileTreeSlice.ts:50-52 | replaces the tree and nothing else |
| FileTreeSlice.SetSearchQuery | src/app/features/fileTreeSlice.ts:97-99 | replaces the query and nothing else |
| FileTreeSlice.SetSearchResults | src/app/features/fileTreeSlice.ts:100-102 | replaces the results and nothing else |
| FileTreeSlice.PerformFileOperation | src/app/features/fileTreeSlice.ts:103-108 | the reducer leaves the state as it is |
| FileTreeSlice.UpdateFileInTree | src/app/features/fileTreeSlice.ts:57-65 | the node carrying the id takes the content and `isEdited = true`, keeping its children; any other node keeps its own fields and whether it has a children array |
| FileTreeSlice.UpdateFileInTreeIsPatch | src/app/features/fileTreeSlice.ts:57-65 | the inline rewrite, mapping over children, is the shared rewriting recursion with the content update |
| FileTreeSlice.UpdateFileInTreeAgrees | src/app/features/fileTreeSlice.ts:57-68 | the inline rewrite equals `updateFileContentInTree` on every tree |
| FileTreeSlice.UpdateFileContent | src/app/features/fileTreeSlice.ts:53-75 | a null tree stays null, any other is rewritten as `updateFileContentInTree`; the tabs take the content; the opened files, the selection and all else are untouched |
| Tabs.SetContent | src/app/features/fileTreeSlice.ts:70-74 | tabs with the id take the content and `isEdited = true` and change in nothing else; other tabs are unchanged |
| FileTreeSlice.UpdateFileContentKeepsConsistent | src/app/features/fileTreeSlice.ts:53-75 | a content edit keeps the session invariant |
| Tabs.TogglePin | src/app/features/fileTreeSlice.ts:76-80 | tabs with the id flip their pin and change in nothing else; other tabs are unchanged; length and order are kept |
| FileTreeSlice.ToggleTabPin | src/app/features/fileTreeSlice.ts:76-80 | only the pin flags of the id's tabs flip; active flags, order and the rest of the state are kept |
| FileTreeSlice.ToggleTabPinTwice | src/app/features/fileTreeSlice.ts:76-80 | toggling twice restores the state |
| FileTreeSlice.ToggleTabPinKeepsConsistent | src/app/features/fileTreeSlice.ts:76-80 | pinning keeps the session invariant |
| FileTreeSlice.SpliceIndex | src/app/features/fileTreeSlice.ts:87-88 | an index from 0 to the length is used as is, a larger one clamps to the length, a negative one down to minus the length counts from the end, and a smaller one clamps to 0 |
| FileTreeSlice.ReorderTabs | src/app/features/fileTreeSlice.ts:81-90 | the tab at the start index ends at the end index, the others keep their relative order, the list is a permutation, and nothing else changes |
| FileTreeSlice.ReorderBack | src/app/features/fileTreeSlice.ts:81-90 | dragging from i to j and back from j to i restores the state |
| Tabs.MoveKeepsWellFormed | src/app/features/fileTreeSlice.ts:86-88 | a move keeps tab ids distinct and at most one tab active |
| FileTreeSlice.ReorderTabsKeepsConsistent | src/app/features/fileTreeSlice.ts:81-90 | reordering keeps the session invariant |
| FileTreeSlice.CloseAllTabsExceptActive | src/app/features/fileTreeSlice.ts:91-96 | with an active tab the list becomes the first active tab alone; with none, including the empty list, nothing changes |
| FileTreeSlice.CloseAllTabsExceptActiveIdempotent | src/app/features/fileTreeSlice.ts:91-96 | applying it twice is applying it once |
| FileTreeSlice.CloseAllTabsExceptActiveKeepsConsistent | src/app/features/fileTreeSlice.ts:91-96 | it keeps the session invariant |
| Tabs.Activate | src/components/OpenedFilesBarTab.tsx:31-34 | exactly the tabs with the id become active, nothing else changes, and with distinct ids a present id is the only active tab |
| Tabs.DeactivateAll | src/components/RecursiveComponent.tsx:67-70 | every tab becomes inactive and changes in nothing else |
| Tabs.OpenTab | src/components/RecursiveComponent.tsx:51-72 | the node's id gets a tab and is exactly the active id; an existing tab keeps the length, otherwise one unpinned active tab is appended; earlier tabs change only in their active flag; distinct ids stay distinct |
| Tabs.CloseTab | src/components/OpenedFilesBarTab.tsx:46 | no tab with the id remains, every other tab remains in order, and an absent id changes nothing |
| Tabs.FilterKeepsWellFormed | src/components/OpenedFilesBarTab.tsx:46 | dropping tabs keeps ids distinct and at most one tab active |
| Tabs.CloseKeepsWellFormed | src/components/OpenedFilesBarTab.tsx:46 | closing by id keeps the tab bar well formed |
| Tabs.TogglePinTwice | src/app/features/fileTreeSlice.ts:76-80 | toggling a pin twice restores the tab list |
| OpenedFilesBarTab.OnClick | src/components/OpenedFilesBarTab.tsx:28-43 | length and order are kept, exactly the clicked id's tabs are active, and the selection is the clicked tab's id, name and content |
| OpenedFilesBarTab.OnClickConsistent | src/components/OpenedFilesBarTab.tsx:28-43 | selecting a tab of the bar leaves a consistent session when ids are distinct |
| OpenedFilesBarTab.OnRemove | src/components/OpenedFilesBarTab.tsx:45-76 | no tab with the id remains; with none left the bar is empty and the selection is null with empty name and content; otherwise the remaining tabs keep their order, the last is the only active one whichever tab was active, and the selection is the last tab's id, name and content; opened files are untouched |
| OpenedFilesBarTab.OnRemoveConsistent | src/components/OpenedFilesBarTab.tsx:45-76 | closing a tab leaves a consistent session when the bar was well formed |
| OpenedFilesBarTab.ClosingInactiveTabMovesSelection | src/components/OpenedFilesBarTab.tsx:46-65 | in any consistent bar a (active), b, c, closing the inactive b deactivates a, activates c and points at c |
| OpenedFilesBarTab.OnTogglePin | src/components/OpenedFilesBarTab.tsx:78-81 | the pin of the tab's id flips and nothing else changes |
| RecursiveComponent.OnFileClicked | src/components/RecursiveComponent.tsx:45-86 | a folder changes nothing; a file's tab is selected or appended active and unpinned, all others become inactive, the selection is the node's id, name and content, and the node is appended to the opened files only when no opened file has its id |
| RecursiveComponent.OnFileClickedConsistent | src/components/RecursiveComponent.tsx:45-86 | opening from the tree keeps the session invariant and adds no duplicate tab |
| RecursiveComponent.OnFolderClicked | src/components/RecursiveComponent.tsx:88-91 | clicking a folder flips only the row's expanded flag |
| RecursiveComponent.FindParentId | src/components/RecursiveComponent.tsx:171-182 | a result is the id of a node with a direct child carrying the target; the root and absent ids give null |
| RecursiveComponent.FindParentIdIn | src/components/RecursiveComponent.tsx:172-180 | the loop returns the tree's id for a matching direct child, or a truthy id found in a child's subtree |
| RecursiveComponent.FindParentIdAgrees | src/components/RecursiveComponent.tsx:171-182 | with non-empty ids, `findParentId` is the id of `findParentOfFile` |
| RecursiveComponent.HandleCreate | src/components/RecursiveComponent.tsx:104-124 | only the tree changes; without a tree or a truthy target nothing changes; the target is the folder itself or the file's parent, and it gets the new entry appended; in a tree with unique ids the result keeps unique ids and the fresh id finds the new entry |
| RecursiveComponent.HandleCreateFile | src/components/RecursiveComponent.tsx:104-113 | the entry found under the fresh id is a file named `new-file.txt` with empty content |
| RecursiveComponent.HandleCreateFolder | src/components/RecursiveComponent.tsx:115-124 | the entry found under the fresh id is an empty folder named `new-folder` |
| RecursiveComponent.CreateTargetOccurs | src/components/RecursiveComponent.tsx:106 | for a clicked file the target found is a node of the tree |
| RecursiveComponent.HandleDelete | src/components/RecursiveComponent.tsx:126-140 | a declined confirmation or a missing tree changes nothing; otherwise no node below the root, no tab and no opened file keeps the id; every tree node outside the removed subtrees survives with its fields, the surviving ids keep their order, the other tabs and opened files stay in order, and the selection is untouched |
| RecursiveComponent.HandleDeleteKeepsWellFormed | src/components/RecursiveComponent.tsx:126-140 | deleting keeps the tab bar well formed |
| RecursiveComponent.DeleteActiveLeavesDanglingSelection | src/components/RecursiveComponent.tsx:126-140 | in any consistent session, deleting the file of the active tab leaves the selection naming a tab that is gone |
| RecursiveComponent.HandleRenameSubmit | src/components/RecursiveComponent.tsx:147-163 | without a tree, with a blank input, or with an input equal to the current name nothing changes; otherwise the trimmed input renames exactly the id's nodes in the tree, opened files and tabs, and the selection is untouched |
| RecursiveComponent.HandleRenameSubmitConsistent | src/components/RecursiveComponent.tsx:147-163 | renaming keeps the session invariant |
| FileSearch.SearchResultsEffect | src/components/FileSearch.tsx:37-46 | with a query and a tree the results are exactly the tree's files whose lower-cased name contains the lower-cased query, in pre-order; otherwise they are empty |
| FileSearch.HandleSearchChange | src/components/FileSearch.tsx:48-50 | the typed text becomes the query and nothing else changes |
| FileSearch.HandleFileSelect | src/components/FileSearch.tsx:52-87 | the result's tab is selected or appended, no duplicate id appears, exactly that id is active, the selection is the result's id, name and content, the query is cleared, and the opened files are untouched |
| FileSearch.HandleFileSelectConsistent | src/components/FileSearch.tsx:52-87 | opening a result leaves a consistent session when ids are distinct |
| FileSearch.SelectMatchesTreeClick | src/components/FileSearch.tsx:52-84 | opening a file from the search and from the tree produce the same tabs and selection |
| ContextMenu.OnClose | src/components/ui/ContextMenu.tsx:38-44 | every tab and opened file with the id to remove is dropped, the rest stay in order, no id to remove changes nothing, and the selection is untouched |
| ContextMenu.OnCloseKeepsWellFormed | src/components/ui/ContextMenu.tsx:38-44 | closing from the menu keeps the tab bar well formed |
| ContextMenu.CloseActiveLeavesDanglingSelection | src/components/ui/ContextMenu.tsx:38-44 | in any consistent session, closing the active tab from the menu leaves the selection naming a tab that is gone |
| ContextMenu.OnCloseAll | src/components/ui/ContextMenu.tsx:33-37 | no tab and no opened file remains, and the selection is untouched |
| ContextMenu.CloseAllLeavesDanglingSelection | src/components/ui/ContextMenu.tsx:33-37 | closing all while a tab is active leaves the selection on a tab that is gone |
| ContextMenu.DefaultOptions | src/components/ui/ContextMenu.tsx:47-50 | the defaults are two enabled entries, Close running the menu's close and Close All running the menu's close-all |
| ContextMenu.MenuOptions | src/components/ui/ContextMenu.tsx:46-52 | passed options are used as given, even an empty list; otherwise the menu is Close and Close All |
| ContextMenu.ClickOption | src/components/ui/ContextMenu.tsx:86-92 | a disabled entry changes nothing and leaves the menu as it was; an enabled one runs its action and hides the menu |
| ContextMenu.ClickDefaultClose | src/components/ui/ContextMenu.tsx:38-52 | clicking the default Close entry closes the tab to remove and hides the menu |
| ContextMenu.ClickDefaultCloseAll | src/components/ui/ContextMenu.tsx:33-52 | clicking the default Close All entry empties the bar and the opened files and hides the menu |

## Left out

- Rendering, styling, theming, icons (`getFileIcon`, `RenderFileIcon`) and language tables: these are presentation with nothing to prove.
- `uuid()`: the id generator is replaced by a caller-supplied `freshId`, together with a requirement that the id does not occur in the tree.
- `window.confirm`: the user's answer is a boolean parameter.
- `doesFileObjectExist`: its module is not part of this model, so it is taken to be id membership in the opened files.
- The global context-menu slot, its `setTimeout` close-then-open, and `handleContextMenu`, which only builds the option list and passes it to that slot: this is timing, not state logic.
- Row-local React state: the `isRenaming` flag set by `handleRename`, `handleRenameCancel` and `handleRenameSubmit`, and the draft name. The draft becomes the `input` parameter of the rename.
- Keyboard listeners (Ctrl+P, Escape), click-outside listeners, the hover-preview timer and the drag-and-drop library: only their effects on the state are modelled, namely setting the query and the index pair passed to reorder.
- The Monaco editor widget.
- Text.ToLower: only ASCII letters are lower-cased. JavaScript's `toLowerCase` also maps non-ASCII letters.
- FileTreeSlice.ReorderTabs: requires that the start index names an existing tab. Outside that range the JavaScript code inserts `undefined` into the tab list, which a list of tabs cannot hold. Indices are integers; fractional JavaScript numbers are not modelled.
- RecursiveComponent.HandleCreate: the promise that the new entry can be found is stated for trees whose ids are unique, because lookup returns the first match.
