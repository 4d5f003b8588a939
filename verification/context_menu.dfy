/** The tab context menu (`src/components/ui/ContextMenu.tsx`): its default
    "Close" and "Close All" actions and the guard on disabled options. */
module ContextMenu {
  import opened Options
  import opened Interfaces
  import Seqs
  import Tabs
  import opened FileTreeSlice

  /** One entry of the menu; `effect` is the state change the entry's
      callback dispatches. */
  datatype MenuOption = MenuOption(caption: string, effect: State -> State, disabled: bool)

  function TabKept(id: Option<string>): Tab -> bool {
    (t: Tab) => Some(t.id) != id
  }

  function FileKept(id: Option<string>): Node -> bool {
    (n: Node) => Some(n.id) != id
  }

  /** `onClose`: the tabs and opened files whose id is `tabIdToRemove` are
      dropped (with no id to remove, nothing is). The selection is not
      updated. */
  function OnClose(s: State): (r: State)
    ensures forall i :: 0 <= i < |r.openedTabs| ==> Some(r.openedTabs[i].id) != s.tabIdToRemove
    ensures forall i :: 0 <= i < |s.openedTabs| && Some(s.openedTabs[i].id) != s.tabIdToRemove ==>
      s.openedTabs[i] in r.openedTabs
    ensures Seqs.IsSubsequence(r.openedTabs, s.openedTabs)
    ensures forall i :: 0 <= i < |r.openedFiles| ==> Some(r.openedFiles[i].id) != s.tabIdToRemove
    ensures forall i :: 0 <= i < |s.openedFiles| && Some(s.openedFiles[i].id) != s.tabIdToRemove ==>
      s.openedFiles[i] in r.openedFiles
    ensures Seqs.IsSubsequence(r.openedFiles, s.openedFiles)
    ensures s.tabIdToRemove.None? ==> r == s
    ensures r.clickedFile == s.clickedFile
    ensures r.(openedTabs := s.openedTabs, openedFiles := s.openedFiles) == s
  {
    s.(openedFiles := Seqs.Filter(s.openedFiles, FileKept(s.tabIdToRemove)),
       openedTabs := Seqs.Filter(s.openedTabs, TabKept(s.tabIdToRemove)))
  }

  /** Closing from the menu keeps the tab bar well formed. */
  lemma OnCloseKeepsWellFormed(s: State)
    requires Tabs.WellFormed(s.openedTabs)
    ensures Tabs.WellFormed(OnClose(s).openedTabs)
  {
    Tabs.FilterKeepsWellFormed(s.openedTabs, TabKept(s.tabIdToRemove));
  }

  /** Closing the active tab from the menu leaves the selection on a tab
      that is gone: unlike the tab bar's close, the menu activates nothing. */
  lemma CloseActiveLeavesDanglingSelection(s: State)
    requires Consistent(s)
    requires exists i :: 0 <= i < |s.openedTabs| && s.openedTabs[i].isActive && Some(s.openedTabs[i].id) == s.tabIdToRemove
    ensures !ActiveMirrored(OnClose(s))
  {
    var i :| 0 <= i < |s.openedTabs| && s.openedTabs[i].isActive && Some(s.openedTabs[i].id) == s.tabIdToRemove;
    assert s.openedTabs[i] in s.openedTabs;
    var r := OnClose(s);
    assert r.clickedFile.activeTabId == s.tabIdToRemove;
    assert forall t :: t in r.openedTabs ==> Some(t.id) != s.tabIdToRemove;
  }

  /** `onCloseAll`: no tabs and no opened files remain; the selection is not
      updated. */
  function OnCloseAll(s: State): (r: State)
    ensures r.openedTabs == [] && r.openedFiles == []
    ensures r.clickedFile == s.clickedFile
    ensures r.(openedTabs := s.openedTabs, openedFiles := s.openedFiles) == s
  {
    s.(openedFiles := [], openedTabs := [])
  }

  /** Closing every tab from the menu while one is active leaves the selection
      on a tab that is gone. */
  lemma CloseAllLeavesDanglingSelection(s: State)
    requires Consistent(s)
    requires exists i :: 0 <= i < |s.openedTabs| && s.openedTabs[i].isActive
    ensures !ActiveMirrored(OnCloseAll(s))
  {
    var i :| 0 <= i < |s.openedTabs| && s.openedTabs[i].isActive;
    assert s.openedTabs[i] in s.openedTabs;
  }

  /** The entries shown when the caller passes none. */
  function DefaultOptions(): (r: seq<MenuOption>)
    ensures |r| == 2
    ensures r[0].caption == "Close" && !r[0].disabled
    ensures forall s :: r[0].effect(s) == OnClose(s)
    ensures r[1].caption == "Close All" && !r[1].disabled
    ensures forall s :: r[1].effect(s) == OnCloseAll(s)
  {
    [MenuOption("Close", OnClose, false), MenuOption("Close All", OnCloseAll, false)]
  }

  /** The entries shown: a passed list is used even when empty, and the
      defaults only when none is passed. */
  function MenuOptions(options: Option<seq<MenuOption>>): (r: seq<MenuOption>)
    ensures options.Some? ==> r == options.value
    ensures options.None? ==> |r| == 2 && r[0].caption == "Close" && r[1].caption == "Close All"
  {
    options.GetOr(DefaultOptions())
  }

  /** A click on an entry, as (state, whether the menu is shown): a disabled
      entry does nothing; an enabled one runs its effect and hides the
      menu. */
  function ClickOption(s: State, shown: bool, option: MenuOption): (r: (State, bool))
    ensures option.disabled ==> r.0 == s && r.1 == shown
    ensures !option.disabled ==> r.0 == option.effect(s) && !r.1
  {
    if option.disabled then (s, shown) else (option.effect(s), false)
  }

  /** Clicking the default "Close" entry closes the tab named by
      `tabIdToRemove` and hides the menu. */
  lemma ClickDefaultClose(s: State, shown: bool)
    ensures ClickOption(s, shown, MenuOptions(None)[0]) == (OnClose(s), false)
  {
  }

  /** Clicking the default "Close All" entry empties the bar and hides the
      menu. */
  lemma ClickDefaultCloseAll(s: State, shown: bool)
    ensures var r := ClickOption(s, shown, MenuOptions(None)[1]);
            r.0.openedTabs == [] && r.0.openedFiles == [] && !r.1
  {
  }
}
