/** The open-tab list and the list rewrites that the reducers and the event
    handlers apply to it. */
module Tabs {
  import opened Options
  import opened Interfaces
  import Seqs

  /** No two tabs share an id. */
  predicate DistinctIds(tabs: seq<Tab>) {
    forall i, j :: 0 <= i < j < |tabs| ==> tabs[i].id != tabs[j].id
  }

  /** At most one tab is marked active. */
  predicate AtMostOneActive(tabs: seq<Tab>) {
    forall i, j :: 0 <= i < j < |tabs| && tabs[i].isActive ==> !tabs[j].isActive
  }

  /** The tab-bar invariant: distinct ids and at most one active tab. */
  predicate WellFormed(tabs: seq<Tab>) {
    DistinctIds(tabs) && AtMostOneActive(tabs)
  }

  /** Some tab has the given id. */
  predicate HasId(tabs: seq<Tab>, id: string) {
    exists i :: 0 <= i < |tabs| && tabs[i].id == id
  }

  /** Exactly one tab is active, and it has the given id. */
  predicate OnlyActive(tabs: seq<Tab>, id: string) {
    && (exists i :: 0 <= i < |tabs| && tabs[i].id == id && tabs[i].isActive)
    && forall i :: 0 <= i < |tabs| && tabs[i].isActive ==> tabs[i].id == id
  }

  function WithId(id: string): Tab -> bool {
    (t: Tab) => t.id == id
  }

  function WithoutId(id: string): Tab -> bool {
    (t: Tab) => t.id != id
  }

  /** Selecting a tab by id: the tabs with the id become active and every
      other tab inactive. */
  function Activate(tabs: seq<Tab>, id: string): (r: seq<Tab>)
    ensures |r| == |tabs|
    ensures forall i :: 0 <= i < |r| ==> (r[i].isActive <==> tabs[i].id == id)
    ensures forall i :: 0 <= i < |r| ==> r[i].(isActive := tabs[i].isActive) == tabs[i]
    ensures forall x :: HasId(r, x) <==> HasId(tabs, x)
    ensures DistinctIds(tabs) ==> WellFormed(r)
    ensures DistinctIds(tabs) && HasId(tabs, id) ==> OnlyActive(r, id)
  {
    seq(|tabs|, i requires 0 <= i < |tabs| => tabs[i].(isActive := tabs[i].id == id))
  }

  /** Every tab becomes inactive; nothing else about the tabs changes. */
  function DeactivateAll(tabs: seq<Tab>): (r: seq<Tab>)
    ensures |r| == |tabs|
    ensures forall i :: 0 <= i < |r| ==> !r[i].isActive && r[i].(isActive := tabs[i].isActive) == tabs[i]
  {
    seq(|tabs|, i requires 0 <= i < |tabs| => tabs[i].(isActive := false))
  }

  /** The tab update shared by opening a file from the tree and from the
      search: an existing tab with the node's id is selected; otherwise every
      tab is deactivated and an unpinned, active tab for the node is appended. */
  function OpenTab(tabs: seq<Tab>, n: Node): (r: seq<Tab>)
    ensures HasId(r, n.id)
    ensures forall i :: 0 <= i < |r| ==> (r[i].isActive <==> r[i].id == n.id)
    ensures HasId(tabs, n.id) ==> |r| == |tabs|
    ensures !HasId(tabs, n.id) ==> |r| == |tabs| + 1 && r[|tabs|] == TabOf(n, false, true)
    ensures forall i :: 0 <= i < |tabs| ==> r[i].(isActive := tabs[i].isActive) == tabs[i]
    ensures DistinctIds(tabs) ==> WellFormed(r) && OnlyActive(r, n.id)
  {
    match Seqs.Find(tabs, WithId(n.id))
    case Some(_) => Activate(tabs, n.id)
    case None =>
      var r := DeactivateAll(tabs) + [TabOf(n, false, true)];
      assert r[|tabs|].id == n.id;
      r
  }

  /** Closing by id: the tabs with the id are dropped, the rest kept in order. */
  function CloseTab(tabs: seq<Tab>, id: string): (r: seq<Tab>)
    ensures !HasId(r, id)
    ensures forall i :: 0 <= i < |tabs| && tabs[i].id != id ==> tabs[i] in r
    ensures forall t :: t in r ==> t in tabs
    ensures Seqs.IsSubsequence(r, tabs)
    ensures !HasId(tabs, id) ==> r == tabs
  {
    Seqs.Filter(tabs, WithoutId(id))
  }

  /** Dropping tabs keeps the invariant. */
  lemma {:induction false} FilterKeepsWellFormed(tabs: seq<Tab>, keep: Tab -> bool)
    requires WellFormed(tabs)
    ensures WellFormed(Seqs.Filter(tabs, keep))
  {
    if tabs != [] {
      var tail := Seqs.Filter(tabs[1..], keep);
      FilterKeepsWellFormed(tabs[1..], keep);
      if keep(tabs[0]) {
        var r := [tabs[0]] + tail;
        assert Seqs.Filter(tabs, keep) == r;
        forall i, j | 0 <= i < j < |r| ensures r[i].id != r[j].id && (r[i].isActive ==> !r[j].isActive) {
          assert r[j] == tail[j - 1];
          if i == 0 {
            assert tail[j - 1] in tabs[1..];
            var k :| 0 <= k < |tabs[1..]| && tabs[1..][k] == tail[j - 1];
            assert tabs[k + 1] == r[j];
          } else {
            assert r[i] == tail[i - 1];
          }
        }
      }
    }
  }

  lemma CloseKeepsWellFormed(tabs: seq<Tab>, id: string)
    requires WellFormed(tabs)
    ensures WellFormed(CloseTab(tabs, id))
  {
    FilterKeepsWellFormed(tabs, WithoutId(id));
  }

  /** The tabs with the id flip their pin; the others are unchanged. */
  function TogglePin(tabs: seq<Tab>, id: string): (r: seq<Tab>)
    ensures |r| == |tabs|
    ensures forall i :: 0 <= i < |r| && tabs[i].id == id ==>
      r[i].isPinned == !tabs[i].isPinned && r[i].(isPinned := tabs[i].isPinned) == tabs[i]
    ensures forall i :: 0 <= i < |r| && tabs[i].id != id ==> r[i] == tabs[i]
  {
    seq(|tabs|, i requires 0 <= i < |tabs| =>
      if tabs[i].id == id then tabs[i].(isPinned := !tabs[i].isPinned) else tabs[i])
  }

  /** Toggling a pin twice restores the tab list. */
  lemma TogglePinTwice(tabs: seq<Tab>, id: string)
    ensures TogglePin(TogglePin(tabs, id), id) == tabs
  {
  }

  /** The tab part of `updateFileContentAction`: tabs with the id take the
      content and are marked edited. */
  function SetContent(tabs: seq<Tab>, id: string, content: string): (r: seq<Tab>)
    ensures |r| == |tabs|
    ensures forall i :: 0 <= i < |r| && tabs[i].id == id ==>
      r[i].content == Some(content) && r[i].isEdited == Some(true)
      && r[i].(content := tabs[i].content, isEdited := tabs[i].isEdited) == tabs[i]
    ensures forall i :: 0 <= i < |r| && tabs[i].id != id ==> r[i] == tabs[i]
  {
    seq(|tabs|, i requires 0 <= i < |tabs| =>
      if tabs[i].id == id then tabs[i].(content := Some(content), isEdited := Some(true)) else tabs[i])
  }

  /** A tab with the given name. */
  function Retitle(name: string): Tab -> Tab {
    (t: Tab) => t.(name := name)
  }

  /** Rewrites that keep each tab's id and active flag keep the invariant. */
  lemma SameKeysKeepWellFormed(tabs: seq<Tab>, r: seq<Tab>)
    requires |r| == |tabs|
    requires forall i :: 0 <= i < |r| ==> r[i].id == tabs[i].id && r[i].isActive == tabs[i].isActive
    requires WellFormed(tabs)
    ensures WellFormed(r)
  {
  }

  /** The index in `s` that index `j` of `Seqs.Move(s, from, to)` came from. */
  function MovedFrom(n: nat, from: nat, to: nat, j: nat): (k: nat)
    requires from < n && to < n && j < n
    ensures k < n
  {
    if j == to then from
    else
      var m := if j < to then j else j - 1;
      if m < from then m else m + 1
  }

  lemma MovedFromInjective(n: nat, from: nat, to: nat, i: nat, j: nat)
    requires from < n && to < n && i < j < n
    ensures MovedFrom(n, from, to, i) != MovedFrom(n, from, to, j)
  {
  }

  lemma MovedFromIndex<T>(s: seq<T>, from: nat, to: nat, j: nat)
    requires from < |s| && to < |s| && j < |s|
    ensures Seqs.Move(s, from, to)[j] == s[MovedFrom(|s|, from, to, j)]
  {
    var r := Seqs.Move(s, from, to);
    if j != to {
      var m := if j < to then j else j - 1;
      assert r[j] == Seqs.RemoveAt(r, to)[m];
      assert Seqs.RemoveAt(s, from)[m] == s[MovedFrom(|s|, from, to, j)];
    }
  }

  /** A drag-and-drop move keeps the invariant. */
  lemma MoveKeepsWellFormed(tabs: seq<Tab>, from: nat, to: nat)
    requires from < |tabs| && to < |tabs|
    requires WellFormed(tabs)
    ensures WellFormed(Seqs.Move(tabs, from, to))
  {
    var r := Seqs.Move(tabs, from, to);
    forall i, j | 0 <= i < j < |r| ensures r[i].id != r[j].id && (r[i].isActive ==> !r[j].isActive) {
      MovedFromIndex(tabs, from, to, i);
      MovedFromIndex(tabs, from, to, j);
      var a, b := MovedFrom(|tabs|, from, to, i), MovedFrom(|tabs|, from, to, j);
      MovedFromInjective(|tabs|, from, to, i, j);
      if a < b {
        assert tabs[a].id != tabs[b].id;
      } else {
        assert tabs[b].id != tabs[a].id;
      }
    }
  }
}
