/** The pure tree operations of `src/utils/fileOperations.ts`. */
module FileOperations {
  import opened Options
  import opened Interfaces
  import opened Tree
  import Seqs
  import Text

  /** `createNewFile`: a fresh node named `name`. The parent id is accepted
      and not used; `freshId` stands for the generated uuid. */
  function CreateNewFile(parentId: string, name: string, isFolder: bool, freshId: string): (r: Node)
    ensures r.id == freshId && r.name == name && r.isFolder == isFolder
    ensures r.isEdited == Some(false) && r.isPinned == Some(false)
    ensures !isFolder ==> r.content == Some("") && r.children == Absent
    ensures isFolder ==> r.content == None && r.children == Present([])
    ensures Flatten(r) == [r]
  {
    Node(freshId, name, isFolder,
         if isFolder then Present([]) else Absent,
         if isFolder then None else Some(""),
         Some(false), Some(false))
  }

  /** The parent id given to `createNewFile` makes no difference. */
  lemma CreateIgnoresParent(p1: string, p2: string, name: string, isFolder: bool, freshId: string)
    ensures CreateNewFile(p1, name, isFolder, freshId) == CreateNewFile(p2, name, isFolder, freshId)
  {
  }

  /** The test `findFileById` applies to each node. */
  function HasId(id: string): Node -> bool {
    (n: Node) => n.id == id
  }

  /** `findFileById` (modelled by `Tree.FindById`) returns the first node of the
      pre-order traversal that has the id. */
  lemma {:induction false} FindByIdIsFirstInPreOrder(t: Node, id: string)
    ensures FindById(t, id) == Seqs.Find(Flatten(t), HasId(id))
  {
    FlattenUnfold(t);
    Seqs.FindConcat([t], FlattenAll(Kids(t)), HasId(id));
    if t.id != id {
      match t.children
      case Present(cs) => FindInIsFirstInOrder(cs, id);
      case Absent =>
    }
  }

  lemma {:induction false} FindInIsFirstInOrder(cs: seq<Node>, id: string)
    ensures FindIn(cs, id) == Seqs.Find(FlattenAll(cs), HasId(id))
  {
    if cs != [] {
      FindByIdIsFirstInPreOrder(cs[0], id);
      FindInIsFirstInOrder(cs[1..], id);
      Seqs.FindConcat(Flatten(cs[0]), FlattenAll(cs[1..]), HasId(id));
    }
  }

  /** `findParentOfFile`: a node one of whose children has the target id,
      searching children left to right and each child's subtree before the
      next child. */
  function FindParentOfFile(t: Node, targetId: string): (r: Option<Node>)
    ensures r.Some? ==> r.value in Flatten(t) && exists c :: c in Kids(r.value) && c.id == targetId
    ensures r.None? <==> !OccursBelow(t, targetId)
    decreases t, 1
  {
    assert t in Flatten(t);
    match t.children
    case Present(cs) =>
      var r := FindParentIn(t, cs, targetId);
      assert r.Some? && r.value != t ==> r.value in Flatten(t);
      r
    case Absent => None
  }

  /** The loop of `findParentOfFile` over the children `cs` of `parent`. */
  function FindParentIn(parent: Node, cs: seq<Node>, targetId: string): (r: Option<Node>)
    ensures r.Some? ==>
      || (r.value == parent && exists c :: c in cs && c.id == targetId)
      || (r.value in FlattenAll(cs) && exists c :: c in Kids(r.value) && c.id == targetId)
    ensures r.None? <==> !OccursIn(cs, targetId)
    decreases cs, 0
  {
    if cs == [] then None
    else
      assert FlattenAll(cs) == Flatten(cs[0]) + FlattenAll(cs[1..]);
      FlattenUnfold(cs[0]);
      if cs[0].id == targetId then Some(parent)
      else
        match FindParentOfFile(cs[0], targetId)
        case Some(found) => Some(found)
        case None => FindParentIn(parent, cs[1..], targetId)
  }

  /** What `addFileToTree` does to the node with the parent id. */
  function AppendChild(m: Node, newFile: Node): Node {
    m.(children := Present(Kids(m) + [newFile]))
  }

  function AppendTo(newFile: Node): Node -> Node {
    (m: Node) => AppendChild(m, newFile)
  }

  /** `addFileToTree`: `newFile` becomes the last child of the node with
      `parentId`; a tree without that id is returned unchanged. */
  function AddFileToTree(t: Node, parentId: string, newFile: Node): (r: Node)
    ensures r.id == t.id
    ensures !Occurs(t, parentId) ==> r == t
    ensures t.id == parentId ==> Kids(r) == Kids(t) + [newFile] && r.(children := t.children) == t
    ensures FindById(r, parentId) == FindById(t, parentId).Map(AppendTo(newFile))
  {
    var f := AppendTo(newFile);
    assert !Occurs(t, parentId) ==> Patch(t, parentId, f) == t by {
      if !Occurs(t, parentId) { PatchAbsent(t, parentId, f); }
    }
    PatchThenFind(t, parentId, f);
    Patch(t, parentId, f)
  }

  /** `removeFileFromTree`: drops every child with the target id, at every
      level; the root itself is never examined, so it is always kept. */
  function RemoveFileFromTree(t: Node, targetId: string): (r: Node)
    ensures r.(children := t.children) == t
    ensures r.children.Present? == t.children.Present?
  {
    match t.children
    case Present(cs) => t.(children := Present(RemoveAll(cs, targetId)))
    case Absent => t
  }

  /** A children list with every child carrying the id dropped and every
      remaining child pruned in turn, filtering and recursing in one pass. */
  function RemoveAll(cs: seq<Node>, targetId: string): seq<Node>
  {
    if cs == [] then []
    else
      (if cs[0].id != targetId then [RemoveFileFromTree(cs[0], targetId)] else [])
      + RemoveAll(cs[1..], targetId)
  }

  lemma RemoveAllStep(cs: seq<Node>, targetId: string)
    requires cs != []
    ensures FlattenAll(RemoveAll(cs, targetId))
         == (if cs[0].id != targetId then Flatten(RemoveFileFromTree(cs[0], targetId)) else [])
            + FlattenAll(RemoveAll(cs[1..], targetId))
  {
    var head := if cs[0].id != targetId then [RemoveFileFromTree(cs[0], targetId)] else [];
    FlattenAllConcat(head, RemoveAll(cs[1..], targetId));
    if cs[0].id != targetId {
      FlattenAllSingle(RemoveFileFromTree(cs[0], targetId));
    }
  }

  /** After removal no node below the root has the target id. */
  lemma {:induction false} RemoveLeavesNoTarget(t: Node, targetId: string)
    ensures !OccursBelow(RemoveFileFromTree(t, targetId), targetId)
  {
    match t.children
    case Present(cs) => RemoveAllLeavesNoTarget(cs, targetId);
    case Absent =>
  }

  lemma {:induction false} RemoveAllLeavesNoTarget(cs: seq<Node>, targetId: string)
    ensures !OccursIn(RemoveAll(cs, targetId), targetId)
  {
    if cs != [] {
      RemoveAllStep(cs, targetId);
      RemoveAllLeavesNoTarget(cs[1..], targetId);
      if cs[0].id != targetId {
        var c := RemoveFileFromTree(cs[0], targetId);
        RemoveLeavesNoTarget(cs[0], targetId);
        FlattenUnfold(c);
      }
    }
  }

  /** Removing an id that occurs nowhere below the root changes nothing. */
  lemma {:induction false} RemoveAbsent(t: Node, targetId: string)
    requires !OccursBelow(t, targetId)
    ensures RemoveFileFromTree(t, targetId) == t
  {
    match t.children
    case Present(cs) => RemoveAllAbsent(cs, targetId);
    case Absent =>
  }

  lemma {:induction false} RemoveAllAbsent(cs: seq<Node>, targetId: string)
    requires !OccursIn(cs, targetId)
    ensures RemoveAll(cs, targetId) == cs
  {
    if cs != [] {
      assert FlattenAll(cs) == Flatten(cs[0]) + FlattenAll(cs[1..]);
      FlattenUnfold(cs[0]);
      assert cs[0] in Flatten(cs[0]);
      RemoveAbsent(cs[0], targetId);
      RemoveAllAbsent(cs[1..], targetId);
      assert cs == [cs[0]] + cs[1..];
    }
  }

  /** The surviving nodes keep their pre-order: the ids after removal are a
      subsequence of the ids before. */
  lemma {:induction false} RemoveKeepsOrder(t: Node, targetId: string)
    ensures Seqs.IsSubsequence(IdsOf(Flatten(RemoveFileFromTree(t, targetId))), IdsOf(Flatten(t)))
  {
    var r := RemoveFileFromTree(t, targetId);
    FlattenUnfold(t);
    FlattenUnfold(r);
    IdsOfConcat([t], FlattenAll(Kids(t)));
    IdsOfConcat([r], FlattenAll(Kids(r)));
    Seqs.SubsequenceRefl(IdsOf([t]));
    match t.children
    case Present(cs) =>
      RemoveAllKeepsOrder(cs, targetId);
      Seqs.SubsequenceConcat(IdsOf([r]), IdsOf([t]), IdsOf(FlattenAll(Kids(r))), IdsOf(FlattenAll(cs)));
    case Absent =>
  }

  lemma {:induction false} RemoveAllKeepsOrder(cs: seq<Node>, targetId: string)
    ensures Seqs.IsSubsequence(IdsOf(FlattenAll(RemoveAll(cs, targetId))), IdsOf(FlattenAll(cs)))
  {
    if cs != [] {
      RemoveAllStep(cs, targetId);
      RemoveAllKeepsOrder(cs[1..], targetId);
      var head := if cs[0].id != targetId then Flatten(RemoveFileFromTree(cs[0], targetId)) else [];
      var rest := FlattenAll(RemoveAll(cs[1..], targetId));
      IdsOfConcat(head, rest);
      IdsOfConcat(Flatten(cs[0]), FlattenAll(cs[1..]));
      if cs[0].id != targetId {
        RemoveKeepsOrder(cs[0], targetId);
      }
      Seqs.SubsequenceConcat(IdsOf(head), IdsOf(Flatten(cs[0])), IdsOf(rest), IdsOf(FlattenAll(cs[1..])));
    }
  }

  /** `m` is reached from the root of `t` without passing through a node
      below the root that carries `id`: a node that removing `id` keeps. */
  ghost predicate SurvivesRemoval(t: Node, m: Node, id: string)
    decreases t
  {
    m == t ||
    match t.children
    case Absent => false
    case Present(cs) => exists i :: 0 <= i < |cs| && cs[i].id != id && SurvivesRemoval(cs[i], m, id)
  }

  /** Every child without the id is kept, pruned in turn. */
  lemma {:induction false} RemoveAllKeepsOthers(cs: seq<Node>, targetId: string)
    ensures forall i :: 0 <= i < |cs| && cs[i].id != targetId ==>
      RemoveFileFromTree(cs[i], targetId) in RemoveAll(cs, targetId)
  {
    if cs != [] {
      RemoveAllKeepsOthers(cs[1..], targetId);
      forall i | 0 < i < |cs| && cs[i].id != targetId
        ensures RemoveFileFromTree(cs[i], targetId) in RemoveAll(cs, targetId)
      {
        assert cs[i] == cs[1..][i - 1];
      }
    }
  }

  /** Every node that no removed subtree contains is still in the tree, with
      all its own fields; only its children may have been pruned. */
  lemma {:induction false} RemoveKeepsSurvivor(t: Node, m: Node, targetId: string)
    requires SurvivesRemoval(t, m, targetId)
    ensures exists n :: n in Flatten(RemoveFileFromTree(t, targetId)) && n.(children := m.children) == m
    decreases t
  {
    var r := RemoveFileFromTree(t, targetId);
    FlattenUnfold(r);
    if m == t {
      assert r in Flatten(r);
    } else {
      match t.children
      case Present(cs) =>
        var i :| 0 <= i < |cs| && cs[i].id != targetId && SurvivesRemoval(cs[i], m, targetId);
        RemoveKeepsSurvivor(cs[i], m, targetId);
        var n :| n in Flatten(RemoveFileFromTree(cs[i], targetId)) && n.(children := m.children) == m;
        RemoveAllKeepsOthers(cs, targetId);
        InFlattenOfMember(RemoveAll(cs, targetId), RemoveFileFromTree(cs[i], targetId), n);
        assert n in Flatten(r);
    }
  }

  lemma RemoveKeepsSurvivors(t: Node, targetId: string)
    ensures forall m :: SurvivesRemoval(t, m, targetId) ==>
      exists n :: n in Flatten(RemoveFileFromTree(t, targetId)) && n.(children := m.children) == m
  {
    forall m | SurvivesRemoval(t, m, targetId)
      ensures exists n :: n in Flatten(RemoveFileFromTree(t, targetId)) && n.(children := m.children) == m
    {
      RemoveKeepsSurvivor(t, m, targetId);
    }
  }

  /** Every node of `t` with the given id has a children array. */
  predicate TargetsHaveChildren(t: Node, id: string) {
    forall m :: m in Flatten(t) && m.id == id ==> m.children.Present?
  }

  /** Adding a node with a fresh id and then removing that id gives back the
      original tree, provided the parent is a node with a children array
      (adding under a node without one creates the array). */
  lemma {:induction false} RemoveUndoesAdd(t: Node, parentId: string, newFile: Node)
    requires !Occurs(t, newFile.id)
    requires TargetsHaveChildren(t, parentId)
    ensures RemoveFileFromTree(AddFileToTree(t, parentId, newFile), newFile.id) == t
  {
    assert t in Flatten(t);
    FlattenUnfold(t);
    if t.id == parentId {
      var cs := Kids(t);
      assert RemoveAll(cs + [newFile], newFile.id) == RemoveAll(cs, newFile.id) by {
        RemoveAllSplit(cs, [newFile], newFile.id);
        assert [newFile][1..] == [];
      }
      RemoveAllAbsent(cs, newFile.id);
    } else {
      match t.children
      case Present(cs) => RemoveAllUndoesAddAll(cs, parentId, newFile);
      case Absent =>
    }
  }

  lemma {:induction false} RemoveAllSplit(a: seq<Node>, b: seq<Node>, targetId: string)
    ensures RemoveAll(a + b, targetId) == RemoveAll(a, targetId) + RemoveAll(b, targetId)
  {
    if a == [] {
      assert a + b == b;
    } else {
      assert (a + b)[1..] == a[1..] + b;
      RemoveAllSplit(a[1..], b, targetId);
    }
  }

  /** The hypotheses of the round trip, split between the first subtree and
      the rest. */
  lemma SplitRoundTripHypotheses(cs: seq<Node>, parentId: string, id: string)
    requires cs != []
    requires !OccursIn(cs, id)
    requires forall m :: m in FlattenAll(cs) && m.id == parentId ==> m.children.Present?
    ensures !Occurs(cs[0], id) && !OccursIn(cs[1..], id)
    ensures TargetsHaveChildren(cs[0], parentId)
    ensures forall m :: m in FlattenAll(cs[1..]) && m.id == parentId ==> m.children.Present?
  {
    assert FlattenAll(cs) == Flatten(cs[0]) + FlattenAll(cs[1..]);
  }

  /** The round trip on a children list, from the round trips on its head
      and on its tail. */
  lemma RoundTripCons(cs: seq<Node>, parentId: string, f: Node -> Node, id: string)
    requires cs != []
    requires RemoveFileFromTree(Patch(cs[0], parentId, f), id) == cs[0] && cs[0].id != id
    requires RemoveAll(PatchAll(cs[1..], parentId, f), id) == cs[1..]
    ensures RemoveAll(PatchAll(cs, parentId, f), id) == cs
  {
    var ps := PatchAll(cs, parentId, f);
    assert ps[0] == Patch(cs[0], parentId, f) && ps[1..] == PatchAll(cs[1..], parentId, f);
    assert RemoveAll(ps, id) == [cs[0]] + cs[1..];
    assert cs == [cs[0]] + cs[1..];
  }

  lemma {:induction false} RemoveAllUndoesAddAll(cs: seq<Node>, parentId: string, newFile: Node)
    requires !OccursIn(cs, newFile.id)
    requires forall m :: m in FlattenAll(cs) && m.id == parentId ==> m.children.Present?
    ensures RemoveAll(PatchAll(cs, parentId, AppendTo(newFile)), newFile.id) == cs
  {
    if cs != [] {
      SplitRoundTripHypotheses(cs, parentId, newFile.id);
      RemoveUndoesAdd(cs[0], parentId, newFile);
      RemoveAllUndoesAddAll(cs[1..], parentId, newFile);
      RoundTripCons(cs, parentId, AppendTo(newFile), newFile.id);
    }
  }

  /** Adding a node without children of its own brings in no id other than
      the new node's. */
  lemma {:induction false} AddOnlyNewIds(t: Node, parentId: string, newFile: Node)
    requires Flatten(newFile) == [newFile]
    ensures forall x :: x in Flatten(AddFileToTree(t, parentId, newFile)) ==> Occurs(t, x.id) || x.id == newFile.id
  {
    var f := AppendTo(newFile);
    var r := Patch(t, parentId, f);
    assert t in Flatten(t);
    FlattenUnfold(t);
    FlattenUnfold(r);
    if t.id == parentId {
      FlattenAllConcat(Kids(t), [newFile]);
      FlattenAllSingle(newFile);
    } else {
      match t.children
      case Present(cs) =>
        AddAllOnlyNewIds(cs, parentId, newFile);
        forall x | x in Flatten(r) ensures Occurs(t, x.id) || x.id == newFile.id {
          if x != r && x.id != newFile.id {
            var m :| m in FlattenAll(cs) && m.id == x.id;
            assert m in Flatten(t);
          }
        }
      case Absent =>
    }
  }

  lemma {:induction false} AddAllOnlyNewIds(cs: seq<Node>, parentId: string, newFile: Node)
    requires Flatten(newFile) == [newFile]
    ensures forall x :: x in FlattenAll(PatchAll(cs, parentId, AppendTo(newFile))) ==> OccursIn(cs, x.id) || x.id == newFile.id
  {
    if cs != [] {
      var f := AppendTo(newFile);
      var ps := PatchAll(cs, parentId, f);
      assert ps[0] == Patch(cs[0], parentId, f) && ps[1..] == PatchAll(cs[1..], parentId, f);
      assert FlattenAll(cs) == Flatten(cs[0]) + FlattenAll(cs[1..]);
      assert FlattenAll(ps) == Flatten(ps[0]) + FlattenAll(ps[1..]);
      AddOnlyNewIds(cs[0], parentId, newFile);
      AddAllOnlyNewIds(cs[1..], parentId, newFile);
    }
  }

  /** Adding a node with a fresh id and no children of its own keeps the ids
      of the tree unique. */
  lemma {:induction false} AddKeepsIdsUnique(t: Node, parentId: string, newFile: Node)
    requires UniqueTree(t)
    requires !Occurs(t, newFile.id)
    requires Flatten(newFile) == [newFile]
    ensures UniqueTree(AddFileToTree(t, parentId, newFile))
  {
    var f := AppendTo(newFile);
    var r := Patch(t, parentId, f);
    var below := FlattenAll(Kids(t));
    assert t in Flatten(t);
    FlattenUnfold(t);
    FlattenUnfold(r);
    UniqueIdsConcat([t], below);
    assert forall y :: y in below ==> y in Flatten(t);
    if t.id == parentId {
      FlattenAllConcat(Kids(t), [newFile]);
      FlattenAllSingle(newFile);
      assert Flatten(r) == [r] + (below + [newFile]);
      UniqueIdsConcat(below, [newFile]);
      UniqueIdsConcat([r], below + [newFile]);
    } else {
      match t.children
      case Present(cs) =>
        var ps := PatchAll(cs, parentId, f);
        AddAllKeepsIdsUnique(cs, parentId, newFile);
        AddAllOnlyNewIds(cs, parentId, newFile);
        forall x, y | x in [r] && y in FlattenAll(ps) ensures x.id != y.id {
          if y.id != newFile.id {
            var m :| m in FlattenAll(cs) && m.id == y.id;
            assert t in [t] && m in below;
          }
        }
        UniqueIdsConcat([r], FlattenAll(ps));
      case Absent =>
    }
  }

  lemma {:induction false} AddAllKeepsIdsUnique(cs: seq<Node>, parentId: string, newFile: Node)
    requires UniqueIds(FlattenAll(cs))
    requires !OccursIn(cs, newFile.id)
    requires Flatten(newFile) == [newFile]
    ensures UniqueIds(FlattenAll(PatchAll(cs, parentId, AppendTo(newFile))))
  {
    if cs != [] {
      var f := AppendTo(newFile);
      var ps := PatchAll(cs, parentId, f);
      var head, rest := Flatten(cs[0]), FlattenAll(cs[1..]);
      assert ps[0] == Patch(cs[0], parentId, f) && ps[1..] == PatchAll(cs[1..], parentId, f);
      assert FlattenAll(cs) == head + rest;
      assert FlattenAll(ps) == Flatten(ps[0]) + FlattenAll(ps[1..]);
      UniqueIdsConcat(head, rest);
      AddKeepsIdsUnique(cs[0], parentId, newFile);
      AddAllKeepsIdsUnique(cs[1..], parentId, newFile);
      AddOnlyNewIds(cs[0], parentId, newFile);
      AddAllOnlyNewIds(cs[1..], parentId, newFile);
      if Occurs(cs[0], parentId) {
        assert !OccursIn(cs[1..], parentId);
        PatchAllAbsent(cs[1..], parentId, f);
        forall x, y | x in Flatten(ps[0]) && y in rest ensures x.id != y.id {
          if x.id != newFile.id {
            var m :| m in head && m.id == x.id;
          }
        }
      } else {
        PatchAbsent(cs[0], parentId, f);
        forall x, y | x in head && y in FlattenAll(ps[1..]) ensures x.id != y.id {
          if y.id != newFile.id {
            var m :| m in rest && m.id == y.id;
          }
        }
      }
      UniqueIdsConcat(Flatten(ps[0]), FlattenAll(ps[1..]));
    }
  }

  function RenameTo(newName: string): Node -> Node {
    (m: Node) => m.(name := newName)
  }

  /** `renameFileInTree`: nodes with the target id get the new name; nothing
      else changes. */
  function RenameFileInTree(t: Node, targetId: string, newName: string): (r: Node)
    ensures |Flatten(r)| == |Flatten(t)|
    ensures forall i :: 0 <= i < |Flatten(t)| ==>
      || HeaderOf(Flatten(r)[i]) == HeaderOf(Flatten(t)[i])
      || (Flatten(t)[i].id == targetId && HeaderOf(Flatten(r)[i]) == HeaderOf(Flatten(t)[i]).(name := newName))
    ensures FindById(r, targetId) == FindById(t, targetId).Map(RenameTo(newName))
    ensures (forall m :: m in Flatten(t) && m.id == targetId ==> m.name == newName) ==> r == t
  {
    var f := RenameTo(newName);
    PatchRewritesOnlyTargets(t, targetId, f);
    PatchThenFind(t, targetId, f);
    assert (forall m :: m in Flatten(t) && m.id == targetId ==> m.name == newName) ==> Patch(t, targetId, f) == t by {
      if forall m :: m in Flatten(t) && m.id == targetId ==> m.name == newName {
        PatchFixed(t, targetId, f);
      }
    }
    Patch(t, targetId, f)
  }

  function SetContent(content: string): Node -> Node {
    (m: Node) => m.(content := Some(content), isEdited := Some(true))
  }

  /** `updateFileContentInTree`: nodes with the target id get the content and
      are marked edited; nothing else changes. */
  function UpdateFileContentInTree(t: Node, targetId: string, content: string): (r: Node)
    ensures |Flatten(r)| == |Flatten(t)|
    ensures forall i :: 0 <= i < |Flatten(t)| ==>
      || HeaderOf(Flatten(r)[i]) == HeaderOf(Flatten(t)[i])
      || (Flatten(t)[i].id == targetId
          && HeaderOf(Flatten(r)[i]) == HeaderOf(Flatten(t)[i]).(content := Some(content), isEdited := Some(true)))
    ensures FindById(r, targetId) == FindById(t, targetId).Map(SetContent(content))
    ensures !Occurs(t, targetId) ==> r == t
  {
    var f := SetContent(content);
    PatchRewritesOnlyTargets(t, targetId, f);
    PatchThenFind(t, targetId, f);
    assert !Occurs(t, targetId) ==> Patch(t, targetId, f) == t by {
      if !Occurs(t, targetId) { PatchAbsent(t, targetId, f); }
    }
    Patch(t, targetId, f)
  }

  /** The test `searchFilesInTree` applies to each node, on an already
      lower-cased query. */
  function MatchesLowered(loweredQuery: string): Node -> bool {
    (n: Node) => Text.Contains(Text.ToLower(n.name), loweredQuery)
  }

  /** `searchFilesInTree`: the nodes, folders included, whose lower-cased name
      contains the lower-cased query, in pre-order. */
  function SearchFilesInTree(t: Node, query: string): (r: seq<Node>)
    ensures forall n :: n in r <==> n in Flatten(t) && Text.Contains(Text.ToLower(n.name), Text.ToLower(query))
    ensures Seqs.IsSubsequence(r, Flatten(t))
    ensures query == "" ==> r == Flatten(t)
  {
    var q := Text.ToLower(query);
    SearchIsFilter(t, q);
    assert query == "" ==> q == "";
    assert q == "" ==> forall n: Node :: Text.Contains(Text.ToLower(n.name), q) by {
      if q == "" {
        forall n: Node ensures Text.Contains(Text.ToLower(n.name), q) {
          Text.EmptyQueryMatches(Text.ToLower(n.name));
        }
      }
    }
    SearchFrom(t, q)
  }

  /** The recursive visitor of `searchFilesInTree`. */
  function SearchFrom(t: Node, loweredQuery: string): seq<Node>
  {
    (if Text.Contains(Text.ToLower(t.name), loweredQuery) then [t] else [])
    + match t.children
      case Present(cs) => SearchAll(cs, loweredQuery)
      case Absent => []
  }

  function SearchAll(cs: seq<Node>, loweredQuery: string): seq<Node>
  {
    if cs == [] then [] else SearchFrom(cs[0], loweredQuery) + SearchAll(cs[1..], loweredQuery)
  }

  /** The recursive visitor keeps exactly the matching nodes of the pre-order
      traversal. */
  lemma {:induction false} SearchIsFilter(t: Node, loweredQuery: string)
    ensures SearchFrom(t, loweredQuery) == Seqs.Filter(Flatten(t), MatchesLowered(loweredQuery))
  {
    var p := MatchesLowered(loweredQuery);
    FlattenUnfold(t);
    Seqs.FilterConcat([t], FlattenAll(Kids(t)), p);
    match t.children
    case Present(cs) => SearchAllIsFilter(cs, loweredQuery);
    case Absent =>
  }

  lemma {:induction false} SearchAllIsFilter(cs: seq<Node>, loweredQuery: string)
    ensures SearchAll(cs, loweredQuery) == Seqs.Filter(FlattenAll(cs), MatchesLowered(loweredQuery))
  {
    if cs != [] {
      SearchIsFilter(cs[0], loweredQuery);
      SearchAllIsFilter(cs[1..], loweredQuery);
      Seqs.FilterConcat(Flatten(cs[0]), FlattenAll(cs[1..]), MatchesLowered(loweredQuery));
    }
  }

  /** `getFileExtension`: the lower-cased text after the last dot, or the
      whole lower-cased name when it has no dot. */
  function GetFileExtension(filename: string): (r: string)
    ensures '.' !in r
    ensures forall i :: 0 <= i < |r| ==> !Text.IsUpper(r[i])
    ensures '.' !in filename ==> r == Text.ToLower(filename)
  {
    var last := Text.LastField(filename, '.');
    assert '.' !in filename ==> last == filename;
    Text.ToLower(last)
  }

  lemma ExtensionOfDottedName(base: string, ext: string)
    requires '.' !in ext
    ensures GetFileExtension(base + "." + ext) == Text.ToLower(ext)
  {
    var s := base + "." + ext;
    var last := Text.LastField(s, '.');
    assert s[|s| - |ext|..] == ext;
    assert s[|base|] == '.';
  }
}
