/** The project tree as a whole: its pre-order traversal, which ids occur in
    it, and the one recursion schema that `addFileToTree`, `renameFileInTree`
    and `updateFileContentInTree` share. */
module Tree {
  import opened Options
  import opened Interfaces

  /** Every node of `t`, in pre-order (a node before its children, children
      left to right). */
  function Flatten(t: Node): (r: seq<Node>)
    ensures t.children.Present? ==> r == [t] + FlattenAll(t.children.items)
    ensures t.children.Absent? ==> r == [t]
  {
    match t.children
    case Present(cs) => [t] + FlattenAll(cs)
    case Absent => [t]
  }

  /** The pre-order traversals of the nodes of `cs`, one after the other. */
  function FlattenAll(cs: seq<Node>): seq<Node>
  {
    if cs == [] then [] else Flatten(cs[0]) + FlattenAll(cs[1..])
  }

  lemma FlattenUnfold(t: Node)
    ensures Flatten(t) == [t] + FlattenAll(Kids(t))
  {
  }

  lemma FlattenAllSingle(n: Node)
    ensures FlattenAll([n]) == Flatten(n)
  {
    assert [n][1..] == [];
  }

  lemma {:induction false} FlattenAllConcat(a: seq<Node>, b: seq<Node>)
    ensures FlattenAll(a + b) == FlattenAll(a) + FlattenAll(b)
  {
    if a == [] {
      assert a + b == b;
    } else {
      assert (a + b)[0] == a[0];
      assert (a + b)[1..] == a[1..] + b;
      FlattenAllConcat(a[1..], b);
    }
  }

  /** Every child in `cs` is itself a node of `FlattenAll(cs)`. */
  lemma {:induction false} ChildrenInFlattenAll(cs: seq<Node>)
    ensures forall c :: c in cs ==> c in FlattenAll(cs)
  {
    if cs != [] {
      ChildrenInFlattenAll(cs[1..]);
      assert forall c :: c in cs ==> c == cs[0] || c in cs[1..];
    }
  }

  /** A node of a subtree in `cs` is a node of `FlattenAll(cs)`. */
  lemma {:induction false} InFlattenOfMember(cs: seq<Node>, c: Node, n: Node)
    requires c in cs && n in Flatten(c)
    ensures n in FlattenAll(cs)
  {
    assert FlattenAll(cs) == Flatten(cs[0]) + FlattenAll(cs[1..]);
    if c != cs[0] {
      InFlattenOfMember(cs[1..], c, n);
    }
  }

  /** A child of a node of `t` is itself a node of `t`. */
  lemma {:induction false} KidInFlatten(t: Node, m: Node, c: Node)
    requires m in Flatten(t) && c in Kids(m)
    ensures c in Flatten(t)
  {
    match t.children
    case Present(cs) =>
      if m == t {
        ChildrenInFlattenAll(cs);
      } else {
        KidInFlattenAll(cs, m, c);
      }
    case Absent =>
  }

  lemma {:induction false} KidInFlattenAll(cs: seq<Node>, m: Node, c: Node)
    requires m in FlattenAll(cs) && c in Kids(m)
    ensures c in FlattenAll(cs)
  {
    assert FlattenAll(cs) == Flatten(cs[0]) + FlattenAll(cs[1..]);
    if m in Flatten(cs[0]) {
      KidInFlatten(cs[0], m, c);
    } else {
      KidInFlattenAll(cs[1..], m, c);
    }
  }

  /** The ids of `ns`, in order. */
  function IdsOf(ns: seq<Node>): (r: seq<string>)
    ensures |r| == |ns|
  {
    if ns == [] then [] else [ns[0].id] + IdsOf(ns[1..])
  }

  lemma {:induction false} IdsOfConcat(a: seq<Node>, b: seq<Node>)
    ensures IdsOf(a + b) == IdsOf(a) + IdsOf(b)
  {
    if a == [] {
      assert a + b == b;
    } else {
      assert (a + b)[1..] == a[1..] + b;
      IdsOfConcat(a[1..], b);
    }
  }

  /** Some node of `t` has the given id. */
  predicate Occurs(t: Node, id: string) {
    exists n :: n in Flatten(t) && n.id == id
  }

  /** Some node of the subtrees `cs` has the given id. */
  predicate OccursIn(cs: seq<Node>, id: string) {
    exists n :: n in FlattenAll(cs) && n.id == id
  }

  /** Some node of `t` other than `t` itself has the given id. */
  predicate OccursBelow(t: Node, id: string) {
    OccursIn(Kids(t), id)
  }

  /** No two nodes of `ns` share an id. */
  predicate UniqueIds(ns: seq<Node>) {
    forall i, j :: 0 <= i < j < |ns| ==> ns[i].id != ns[j].id
  }

  /** No node of `a` shares an id with a node of `b`. */
  predicate DisjointIds(a: seq<Node>, b: seq<Node>) {
    forall x, y :: x in a && y in b ==> x.id != y.id
  }

  lemma UniqueIdsConcat(a: seq<Node>, b: seq<Node>)
    ensures UniqueIds(a + b) <==> UniqueIds(a) && UniqueIds(b) && DisjointIds(a, b)
  {
    var ab := a + b;
    if UniqueIds(ab) {
      forall x, y | x in a && y in b ensures x.id != y.id {
        var i :| 0 <= i < |a| && a[i] == x;
        var j :| 0 <= j < |b| && b[j] == y;
        assert ab[i] == x && ab[|a| + j] == y;
      }
      forall i, j | 0 <= i < j < |b| ensures b[i].id != b[j].id {
        assert b[i] == ab[|a| + i] && b[j] == ab[|a| + j];
      }
      forall i, j | 0 <= i < j < |a| ensures a[i].id != a[j].id {
        assert a[i] == ab[i] && a[j] == ab[j];
      }
    }
    if UniqueIds(a) && UniqueIds(b) && DisjointIds(a, b) {
      forall i, j | 0 <= i < j < |ab| ensures ab[i].id != ab[j].id {
        if j < |a| {
          assert ab[i] == a[i] && ab[j] == a[j];
        } else if i >= |a| {
          assert ab[i] == b[i - |a|] && ab[j] == b[j - |a|];
        } else {
          assert ab[i] == a[i] && ab[j] == b[j - |a|];
          assert ab[i] in a && ab[j] in b;
        }
      }
    }
  }

  /** The tree is well formed: ids are unique across the whole tree. */
  predicate UniqueTree(t: Node) {
    UniqueIds(Flatten(t))
  }

  /** The fields of one node, with its children reduced to whether the array
      exists and how long it is: a pre-order list of headers determines the
      tree. */
  datatype Header = Header(
    id: string,
    name: string,
    isFolder: bool,
    hasChildren: bool,
    arity: nat,
    content: Option<string>,
    isEdited: Option<bool>,
    isPinned: Option<bool>)

  function HeaderOf(n: Node): Header {
    Header(n.id, n.name, n.isFolder, n.children.Present?, |Kids(n)|, n.content, n.isEdited, n.isPinned)
  }

  /** The node-rewriting recursion of `addFileToTree`, `renameFileInTree` and
      `updateFileContentInTree`: a node with the target id is replaced by
      `f` of it and not searched further; any other node with a children
      array gets the rewritten children; any other node is kept as it is. */
  function Patch(t: Node, id: string, f: Node -> Node): (r: Node)
    ensures t.id == id ==> r == f(t)
    ensures t.id != id ==> r.(children := t.children) == t && |Kids(r)| == |Kids(t)|
  {
    if t.id == id then f(t)
    else
      match t.children
      case Present(cs) => t.(children := Present(PatchAll(cs, id, f)))
      case Absent => t
  }

  /** The rewrite applied to each subtree of a children list, in order. */
  function PatchAll(cs: seq<Node>, id: string, f: Node -> Node): (r: seq<Node>)
    ensures |r| == |cs|
  {
    if cs == [] then [] else [Patch(cs[0], id, f)] + PatchAll(cs[1..], id, f)
  }

  lemma PatchAllIndex(cs: seq<Node>, id: string, f: Node -> Node, i: nat)
    requires i < |cs|
    ensures PatchAll(cs, id, f)[i] == Patch(cs[i], id, f)
  {
    if i > 0 {
      PatchAllIndex(cs[1..], id, f, i - 1);
    }
  }

  /** A tree without the target id is left as it is. */
  lemma {:induction false} PatchAbsent(t: Node, id: string, f: Node -> Node)
    requires !Occurs(t, id)
    ensures Patch(t, id, f) == t
  {
    assert t in Flatten(t);
    match t.children
    case Present(cs) => PatchAllAbsent(cs, id, f);
    case Absent =>
  }

  lemma {:induction false} PatchAllAbsent(cs: seq<Node>, id: string, f: Node -> Node)
    requires !OccursIn(cs, id)
    ensures PatchAll(cs, id, f) == cs
  {
    if cs != [] {
      assert FlattenAll(cs) == Flatten(cs[0]) + FlattenAll(cs[1..]);
      PatchAbsent(cs[0], id, f);
      PatchAllAbsent(cs[1..], id, f);
    }
  }

  /** A rewrite that leaves every node with the target id as it is leaves the
      tree as it is. */
  lemma {:induction false} PatchFixed(t: Node, id: string, f: Node -> Node)
    requires forall m :: m in Flatten(t) && m.id == id ==> f(m) == m
    ensures Patch(t, id, f) == t
  {
    assert t in Flatten(t);
    if t.id != id {
      match t.children
      case Present(cs) => PatchAllFixed(cs, id, f);
      case Absent =>
    }
  }

  lemma {:induction false} PatchAllFixed(cs: seq<Node>, id: string, f: Node -> Node)
    requires forall m :: m in FlattenAll(cs) && m.id == id ==> f(m) == m
    ensures PatchAll(cs, id, f) == cs
  {
    if cs != [] {
      assert FlattenAll(cs) == Flatten(cs[0]) + FlattenAll(cs[1..]);
      PatchFixed(cs[0], id, f);
      PatchAllFixed(cs[1..], id, f);
    }
  }

  /** The first node of `t`, in pre-order, with the given id (the recursion
      of `findFileById`). */
  function FindById(t: Node, id: string): (r: Option<Node>)
    ensures r.Some? ==> r.value.id == id && r.value in Flatten(t)
    ensures r.None? <==> !Occurs(t, id)
  {
    assert t in Flatten(t);
    if t.id == id then Some(t)
    else
      match t.children
      case Present(cs) => FindIn(cs, id)
      case Absent => None
  }

  /** The first node with the given id in the subtrees `cs`, in order. */
  function FindIn(cs: seq<Node>, id: string): (r: Option<Node>)
    ensures r.Some? ==> r.value.id == id && r.value in FlattenAll(cs)
    ensures r.None? <==> !OccursIn(cs, id)
  {
    if cs == [] then None
    else
      assert FlattenAll(cs) == Flatten(cs[0]) + FlattenAll(cs[1..]);
      match FindById(cs[0], id)
      case Some(found) => Some(found)
      case None => FindIn(cs[1..], id)
  }

  /** In a tree with unique ids, looking up the id of one of its nodes finds
      that node. */
  lemma FindUnique(t: Node, n: Node)
    requires UniqueTree(t) && n in Flatten(t)
    ensures FindById(t, n.id) == Some(n)
  {
    var v := FindById(t, n.id).value;
    var ns := Flatten(t);
    var i :| 0 <= i < |ns| && ns[i] == v;
    var j :| 0 <= j < |ns| && ns[j] == n;
    assert i == j;
  }

  /** Rewriting the target nodes, then looking the target up, finds the
      rewritten first match: no node before it in pre-order has the id. */
  lemma {:induction false} PatchThenFind(t: Node, id: string, f: Node -> Node)
    requires forall m :: f(m).id == m.id
    ensures FindById(Patch(t, id, f), id) == FindById(t, id).Map(f)
  {
    if t.id != id {
      match t.children
      case Present(cs) => PatchAllThenFind(cs, id, f);
      case Absent =>
    }
  }

  lemma {:induction false} PatchAllThenFind(cs: seq<Node>, id: string, f: Node -> Node)
    requires forall m :: f(m).id == m.id
    ensures FindIn(PatchAll(cs, id, f), id) == FindIn(cs, id).Map(f)
  {
    if cs != [] {
      var ps := PatchAll(cs, id, f);
      assert ps[0] == Patch(cs[0], id, f) && ps[1..] == PatchAll(cs[1..], id, f);
      PatchThenFind(cs[0], id, f);
      if FindById(cs[0], id).None? {
        PatchAbsent(cs[0], id, f);
        PatchAllThenFind(cs[1..], id, f);
      }
    }
  }

  /** `b` is `a` with some of the nodes carrying the target id rewritten by
      `f`, node for node, as far as each node's own fields and number of
      children go. */
  ghost predicate RewrittenAt(a: seq<Node>, b: seq<Node>, id: string, f: Node -> Node) {
    && |a| == |b|
    && forall i :: 0 <= i < |a| ==>
         HeaderOf(b[i]) == HeaderOf(a[i]) || (a[i].id == id && HeaderOf(b[i]) == HeaderOf(f(a[i])))
  }

  lemma RewrittenAtConcat(a1: seq<Node>, b1: seq<Node>, a2: seq<Node>, b2: seq<Node>, id: string, f: Node -> Node)
    requires RewrittenAt(a1, b1, id, f) && RewrittenAt(a2, b2, id, f)
    ensures RewrittenAt(a1 + a2, b1 + b2, id, f)
  {
    forall i | 0 <= i < |a1 + a2|
      ensures HeaderOf((b1 + b2)[i]) == HeaderOf((a1 + a2)[i])
           || ((a1 + a2)[i].id == id && HeaderOf((b1 + b2)[i]) == HeaderOf(f((a1 + a2)[i])))
    {
      if i >= |a1| {
        assert (a1 + a2)[i] == a2[i - |a1|] && (b1 + b2)[i] == b2[i - |a1|];
      }
    }
  }

  /** A rewrite that keeps ids and children changes the tree only at nodes
      with the target id, and there only as `f` does: the shape and every
      other node are kept. */
  lemma {:induction false} PatchRewritesOnlyTargets(t: Node, id: string, f: Node -> Node)
    requires forall m :: f(m).id == m.id && f(m).children == m.children
    ensures RewrittenAt(Flatten(t), Flatten(Patch(t, id, f)), id, f)
  {
    var r := Patch(t, id, f);
    if t.id == id {
      assert Flatten(r) == [r] + FlattenAll(Kids(t));
      RewrittenAtConcat([t], [r], FlattenAll(Kids(t)), FlattenAll(Kids(t)), id, f);
    } else {
      match t.children
      case Present(cs) =>
        PatchAllRewritesOnlyTargets(cs, id, f);
        assert HeaderOf(r) == HeaderOf(t);
        RewrittenAtConcat([t], [r], FlattenAll(cs), FlattenAll(PatchAll(cs, id, f)), id, f);
      case Absent =>
    }
  }

  lemma {:induction false} PatchAllRewritesOnlyTargets(cs: seq<Node>, id: string, f: Node -> Node)
    requires forall m :: f(m).id == m.id && f(m).children == m.children
    ensures RewrittenAt(FlattenAll(cs), FlattenAll(PatchAll(cs, id, f)), id, f)
  {
    if cs != [] {
      var ps := PatchAll(cs, id, f);
      assert ps[0] == Patch(cs[0], id, f) && ps[1..] == PatchAll(cs[1..], id, f);
      PatchRewritesOnlyTargets(cs[0], id, f);
      PatchAllRewritesOnlyTargets(cs[1..], id, f);
      RewrittenAtConcat(Flatten(cs[0]), Flatten(ps[0]), FlattenAll(cs[1..]), FlattenAll(ps[1..]), id, f);
    }
  }
}
