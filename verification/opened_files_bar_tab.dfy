/** The handlers of one tab in the tab bar
    (`src/components/OpenedFilesBarTab.tsx`): select, close and pin. */
module OpenedFilesBarTab {
  import opened Options
  import opened Interfaces
  import Seqs
  import Tabs
  import opened FileTreeSlice

  /** `onClick`: the clicked tab becomes the active one and the selection takes
      its id, name and content. */
  function OnClick(s: State, file: Tab): (r: State)
    ensures |r.openedTabs| == |s.openedTabs|
    ensures forall i :: 0 <= i < |r.openedTabs| ==>
      && (r.openedTabs[i].isActive <==> s.openedTabs[i].id == file.id)
      && r.openedTabs[i].(isActive := s.openedTabs[i].isActive) == s.openedTabs[i]
    ensures r.clickedFile == ClickedFile(Some(file.id), file.name, file.content)
    ensures r.(openedTabs := s.openedTabs, clickedFile := s.clickedFile) == s
  {
    s.(openedTabs := Tabs.Activate(s.openedTabs, file.id),
       clickedFile := ClickedFile(Some(file.id), file.name, file.content))
  }

  /** Selecting a tab of the bar leaves a consistent session, whatever the
      flags were before, as long as the ids are distinct. */
  lemma OnClickConsistent(s: State, file: Tab)
    requires Tabs.DistinctIds(s.openedTabs)
    requires Tabs.HasId(s.openedTabs, file.id)
    ensures Consistent(OnClick(s, file))
  {
    var r := OnClick(s, file);
    assert Tabs.OnlyActive(r.openedTabs, file.id);
    var i :| 0 <= i < |r.openedTabs| && r.openedTabs[i].id == file.id && r.openedTabs[i].isActive;
    assert r.openedTabs[i] in r.openedTabs;
  }

  /** The tail of `onRemove` once some tabs remain: the last one becomes the
      active tab and the selection names it. */
  function SelectLast(s: State, kept: seq<Tab>): (r: State)
    requires kept != []
    ensures var last := kept[|kept| - 1];
            && |r.openedTabs| == |kept|
            && (forall i :: 0 <= i < |kept| ==>
                  && (r.openedTabs[i].isActive <==> kept[i].id == last.id)
                  && r.openedTabs[i].(isActive := kept[i].isActive) == kept[i])
            && r.clickedFile == ClickedFile(Some(last.id), last.name, last.content)
    ensures forall x :: Tabs.HasId(r.openedTabs, x) <==> Tabs.HasId(kept, x)
    ensures r.(openedTabs := s.openedTabs, clickedFile := s.clickedFile) == s
  {
    var last := kept[|kept| - 1];
    s.(openedTabs := Tabs.Activate(kept, last.id),
       clickedFile := ClickedFile(Some(last.id), last.name, last.content))
  }

  /** `onRemove`: the tabs with the id are dropped. With none left, the bar
      is empty and the selection cleared; otherwise the last remaining tab
      becomes the active one, whichever tab was active before. */
  function OnRemove(s: State, selectedId: string): (r: State)
    ensures !Tabs.HasId(r.openedTabs, selectedId)
    ensures Tabs.CloseTab(s.openedTabs, selectedId) == [] ==> r.openedTabs == [] && r.clickedFile == NoFile
    ensures var kept := Tabs.CloseTab(s.openedTabs, selectedId);
            kept != [] ==>
              var last := kept[|kept| - 1];
              && |r.openedTabs| == |kept|
              && (forall i :: 0 <= i < |kept| ==>
                    && (r.openedTabs[i].isActive <==> kept[i].id == last.id)
                    && r.openedTabs[i].(isActive := kept[i].isActive) == kept[i])
              && r.clickedFile == ClickedFile(Some(last.id), last.name, last.content)
    ensures r.(openedTabs := s.openedTabs, clickedFile := s.clickedFile) == s
  {
    var filtered := Tabs.CloseTab(s.openedTabs, selectedId);
    if filtered == [] then
      s.(openedTabs := [], clickedFile := NoFile)
    else
      SelectLast(s, filtered)
  }

  /** Closing a tab leaves a consistent session when the ids are distinct:
      the last remaining tab is the only active one and the selection names
      it. */
  lemma OnRemoveConsistent(s: State, selectedId: string)
    requires Tabs.WellFormed(s.openedTabs)
    ensures Consistent(OnRemove(s, selectedId))
  {
    var kept := Tabs.CloseTab(s.openedTabs, selectedId);
    var r := OnRemove(s, selectedId);
    Tabs.CloseKeepsWellFormed(s.openedTabs, selectedId);
    if kept != [] {
      var last := kept[|kept| - 1];
      assert Tabs.HasId(kept, last.id);
      var i :| 0 <= i < |r.openedTabs| && r.openedTabs[i].id == last.id && r.openedTabs[i].isActive;
      assert r.openedTabs[i] in r.openedTabs;
    }
  }

  /** `onTogglePin`: the pin of the tab's id is flipped. */
  function OnTogglePin(s: State, file: Tab): (r: State)
    ensures |r.openedTabs| == |s.openedTabs|
    ensures forall i :: 0 <= i < |s.openedTabs| && s.openedTabs[i].id == file.id ==>
      r.openedTabs[i] == s.openedTabs[i].(isPinned := !s.openedTabs[i].isPinned)
    ensures forall i :: 0 <= i < |s.openedTabs| && s.openedTabs[i].id != file.id ==>
      r.openedTabs[i] == s.openedTabs[i]
    ensures r.(openedTabs := s.openedTabs) == s
  {
    ToggleTabPin(s, file.id)
  }

  /** The filter step of closing b in the bar a, b, c. */
  lemma CloseMiddleOfThree(a: Tab, b: Tab, c: Tab)
    requires a.id != b.id && c.id != b.id
    ensures Tabs.CloseTab([a, b, c], b.id) == [a, c]
  {
    var keep := Tabs.WithoutId(b.id);
    assert [a, b, c][1..] == [b, c] && [b, c][1..] == [c] && [c][1..] == [];
    assert Seqs.Filter([c], keep) == [c];
    assert Seqs.Filter([b, c], keep) == [c];
  }

  /** Closing a tab that is not the active one still moves the selection to
      the last remaining tab: in a consistent bar a (active), b, c, closing
      b deactivates a and activates c. */
  lemma ClosingInactiveTabMovesSelection(s: State, a: Tab, b: Tab, c: Tab)
    requires s.openedTabs == [a, b, c] && Consistent(s)
    requires a.isActive
    ensures !b.isActive && !c.isActive
    ensures OnRemove(s, b.id).openedTabs == [a.(isActive := false), c.(isActive := true)]
    ensures OnRemove(s, b.id).clickedFile == ClickedFile(Some(c.id), c.name, c.content)
  {
    assert s.openedTabs[0] == a && s.openedTabs[1] == b && s.openedTabs[2] == c;
    CloseMiddleOfThree(a, b, c);
    var after := Tabs.Activate([a, c], c.id);
    assert after[0] == a.(isActive := false) && after[1] == c.(isActive := true);
  }
}
