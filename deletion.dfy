/** `deleteTestItem` and `deleteWorkspaceChildren` on the root items, as
    functions of the tree before the call. */
module Deletion {
  import opened Common
  import opened Tree

  /** `p` with the children of `getChild(id, p)` removed: the direct child
      with the id if there is one, otherwise the first hit below the
      children in order. The found item itself stays. */
  function ClearIn(id: string, p: Node): Node
    decreases p
  {
    match IndexOfId(p.children, id)
    case Some(i) => p.(children := p.children[i := p.children[i].(children := [])])
    case None => p.(children := ClearFirst(id, p.children))
  }

  /** `cs` with the first item that has a hit below it cleared there. */
  function ClearFirst(id: string, cs: seq<Node>): seq<Node>
    decreases cs
  {
    if cs == [] then []
    else if GetChild(id, cs[0]).Some? then [ClearIn(id, cs[0])] + cs[1..]
    else [cs[0]] + ClearFirst(id, cs[1..])
  }

  /** What `deleteTestItem(id)` does to one root item: clear the item found
      below it, or else drop the root item when its own id matches. */
  function Entry(root: Node, id: string): seq<Node> {
    if GetChild(id, root).Some? then [ClearIn(id, root)]
    else if root.id == id then []
    else [root]
  }

  /** `deleteTestItem(id)` over the root items in order. */
  function DeleteItem(ns: seq<Node>, id: string): seq<Node>
    decreases |ns|
  {
    if ns == [] then [] else Entry(ns[0], id) + DeleteItem(ns[1..], id)
  }

  /** `deleteWorkspaceChildren(workspace)`: the root items are visited in
      order by id; one removed by an earlier visit is skipped, and one whose
      uri path starts with the workspace path is passed to `deleteTestItem`. */
  function DeleteWorkspaceFrom(ns: seq<Node>, rootIds: seq<string>, workspace: string): seq<Node>
    decreases |rootIds|
  {
    if rootIds == [] then ns
    else DeleteWorkspaceFrom(Visit(ns, rootIds[0], workspace), rootIds[1..], workspace)
  }

  /** One visit: the root item with the id, if it is still there and its uri
      path starts with the workspace path, goes to `deleteTestItem`. */
  function Visit(ns: seq<Node>, rootId: string, workspace: string): seq<Node> {
    match Get(ns, rootId)
    case None => ns
    case Some(r) => if StartsWith(r.uri, workspace) then DeleteItem(ns, r.uri) else ns
  }

  function DeleteWorkspace(ns: seq<Node>, workspace: string): seq<Node> {
    DeleteWorkspaceFrom(ns, Ids(ns), workspace)
  }

  // ---------------------------------------------------------------------
  // Clearing: the item `getChild` finds loses its children, nothing else
  // is removed, and every id on the way is kept.

  lemma SizeUpdate(cs: seq<Node>, i: nat, n: Node)
    requires i < |cs|
    ensures Size(cs[i := n]) + NodeSize(cs[i]) == Size(cs) + NodeSize(n)
    decreases |cs|
  {
    if i > 0 {
      SizeUpdate(cs[1..], i - 1, n);
      assert cs[i := n][1..] == cs[1..][i - 1 := n];
    }
  }

  /** After clearing, `getChild` finds the same item with no children, the
      ids of `p` and its children are as they were, and exactly the items
      below the found one are gone. Nothing else changes: the result is `p`
      with the found item, at its child positions, replaced by its
      childless copy. */
  lemma {:induction false} ClearInSpec(id: string, p: Node)
    requires GetChild(id, p).Some?
    ensures ClearIn(id, p).id == p.id && Ids(ClearIn(id, p).children) == Ids(p.children)
    ensures GetChild(id, ClearIn(id, p)) == Some(GetChild(id, p).value.(children := []))
    ensures NodeSize(ClearIn(id, p)) + Size(GetChild(id, p).value.children) == NodeSize(p)
    ensures exists ix ::
              && |ix| > 0 && Below(p, ix) == GetChild(id, p)
              && ClearIn(id, p) == ReplaceBelow(p, ix, GetChild(id, p).value.(children := []))
    decreases p, 1
  {
    var ix := ClearInPath(id, p);
    var cs := p.children;
    var q := ClearIn(id, p);
    match IndexOfId(cs, id)
    case Some(i) =>
      var c := cs[i].(children := []);
      assert Ids(q.children) == Ids(cs);
      IndexOfIdSameIds(q.children, cs, id);
      assert GetChild(id, p) == Some(cs[i]);
      SizeUpdate(cs, i, c);
    case None =>
      ClearFirstSpec(id, cs);
      IndexOfIdSameIds(q.children, cs, id);
      assert Get(q.children, id).None?;
  }

  lemma {:induction false} ClearFirstSpec(id: string, cs: seq<Node>)
    requires FirstChild(id, cs).Some?
    ensures Ids(ClearFirst(id, cs)) == Ids(cs)
    ensures FirstChild(id, ClearFirst(id, cs)) == Some(FirstChild(id, cs).value.(children := []))
    ensures Size(ClearFirst(id, cs)) + Size(FirstChild(id, cs).value.children) == Size(cs)
    ensures exists k, ix ::
              && 0 <= k < |cs| && |ix| > 0 && Below(cs[k], ix) == FirstChild(id, cs)
              && ClearFirst(id, cs) == cs[k := ReplaceBelow(cs[k], ix, FirstChild(id, cs).value.(children := []))]
    decreases cs
  {
    var k, ix := ClearFirstPath(id, cs);
    var r := ClearFirst(id, cs);
    if GetChild(id, cs[0]).Some? {
      ClearInSpec(id, cs[0]);
      assert r[1..] == cs[1..];
      assert Ids(r) == [r[0].id] + Ids(r[1..]);
    } else {
      ClearFirstSpec(id, cs[1..]);
      assert r[1..] == ClearFirst(id, cs[1..]);
      assert Ids(r) == [r[0].id] + Ids(r[1..]);
    }
  }

  /** The positions of the item `getChild` finds, along which `ClearIn`
      replaces it by its childless copy. */
  lemma {:induction false} ClearInPath(id: string, p: Node) returns (ix: seq<nat>)
    requires GetChild(id, p).Some?
    ensures |ix| > 0 && Below(p, ix) == GetChild(id, p)
    ensures ClearIn(id, p) == ReplaceBelow(p, ix, GetChild(id, p).value.(children := []))
    decreases p, 1
  {
    var cs := p.children;
    match IndexOfId(cs, id)
    case Some(i) =>
      ix := [i];
      assert ix[1..] == [];
    case None =>
      var k, jx := ClearFirstPath(id, cs);
      ix := [k] + jx;
      assert ix[1..] == jx;
  }

  lemma {:induction false} ClearFirstPath(id: string, cs: seq<Node>) returns (k: nat, ix: seq<nat>)
    requires FirstChild(id, cs).Some?
    ensures k < |cs| && |ix| > 0 && Below(cs[k], ix) == FirstChild(id, cs)
    ensures ClearFirst(id, cs) == cs[k := ReplaceBelow(cs[k], ix, FirstChild(id, cs).value.(children := []))]
    decreases cs
  {
    if GetChild(id, cs[0]).Some? {
      k := 0;
      ix := ClearInPath(id, cs[0]);
    } else {
      var k1;
      k1, ix := ClearFirstPath(id, cs[1..]);
      k := k1 + 1;
      assert ClearFirst(id, cs) == [cs[0]] + ClearFirst(id, cs[1..]);
    }
  }

  /** Clearing keeps sibling ids unique at every level. */
  lemma {:induction false} ClearInWellFormed(id: string, p: Node)
    requires WellFormedNode(p)
    ensures WellFormedNode(ClearIn(id, p))
    decreases p, 1
  {
    var cs := p.children;
    var q := ClearIn(id, p);
    match IndexOfId(cs, id)
    case Some(i) =>
      assert WellFormedNode(cs[i]);
      assert WellFormedNode(q.children[i]);
      assert forall k :: 0 <= k < |cs| ==> q.children[k].id == cs[k].id;
    case None =>
      ClearFirstWellFormed(id, cs);
  }

  lemma {:induction false} ClearFirstWellFormed(id: string, cs: seq<Node>)
    requires WellFormed(cs)
    ensures WellFormed(ClearFirst(id, cs))
    ensures Ids(ClearFirst(id, cs)) == Ids(cs)
    decreases cs
  {
    if cs != [] {
      var r := ClearFirst(id, cs);
      WellFormedCons(cs[0], cs[1..]);
      assert cs == [cs[0]] + cs[1..];
      if GetChild(id, cs[0]).Some? {
        ClearInWellFormed(id, cs[0]);
        ClearInSpec(id, cs[0]);
        assert r == [ClearIn(id, cs[0])] + cs[1..];
        WellFormedCons(ClearIn(id, cs[0]), cs[1..]);
      } else {
        ClearFirstWellFormed(id, cs[1..]);
        assert r == [cs[0]] + ClearFirst(id, cs[1..]);
        WellFormedCons(cs[0], ClearFirst(id, cs[1..]));
      }
    }
  }

  // ---------------------------------------------------------------------
  // deleteTestItem over the root items.

  /** `deleteTestItem(id)` treats each root item on its own and keeps the
      order of the root items: over two collections laid end to end it is
      the results for each, one after the other. */
  lemma {:induction false} DeleteItemAppend(a: seq<Node>, b: seq<Node>, id: string)
    ensures DeleteItem(a + b, id) == DeleteItem(a, id) + DeleteItem(b, id)
    decreases |a|
  {
    if a == [] {
      assert a + b == b;
    } else {
      assert (a + b)[0] == a[0] && (a + b)[1..] == a[1..] + b;
      assert DeleteItem(a + b, id) == Entry(a[0], id) + DeleteItem(a[1..] + b, id);
      DeleteItemAppend(a[1..], b, id);
    }
  }

  /** The three fates of one root item under `deleteTestItem(id)`: with a
      match strictly below it, it stays with that match emptied; otherwise
      it is dropped when its own id matches, and kept as it was when not. */
  lemma DeleteItemOne(x: Node, id: string)
    ensures DeleteItem([x], id) ==
      if HasId(x.children, id) then [ClearIn(id, x)] else if x.id == id then [] else [x]
  {
    assert DeleteItem([x], id) == Entry(x, id) + DeleteItem([], id);
    GetChildSpec(id, x);
  }

  /** `deleteTestItem(id)`: a root item with a match strictly below it stays,
      with the match's children removed; a root item whose own id matches
      and that has no such match is dropped; every other root item is kept
      as it was. */
  lemma DeleteItemSpec(ns: seq<Node>, id: string)
    ensures forall n :: n in DeleteItem(ns, id) ==>
      exists r :: r in ns && (if HasId(r.children, id) then n == ClearIn(id, r) else n == r && r.id != id)
    ensures forall r :: r in ns && !HasId(r.children, id) && r.id != id ==> r in DeleteItem(ns, id)
    ensures forall r :: r in ns && HasId(r.children, id) ==> ClearIn(id, r) in DeleteItem(ns, id)
    ensures forall n :: n in DeleteItem(ns, id) && n.id == id ==> HasId(n.children, id)
  {
    DeleteItemFrom(ns, id);
    DeleteItemKeeps(ns, id);
  }

  /** Every root item after `deleteTestItem(id)` comes from an old one, and
      one with the id itself still has the id below it. */
  lemma {:induction false} DeleteItemFrom(ns: seq<Node>, id: string)
    ensures forall n :: n in DeleteItem(ns, id) ==>
      exists r :: r in ns && (if HasId(r.children, id) then n == ClearIn(id, r) else n == r && r.id != id)
    ensures forall n :: n in DeleteItem(ns, id) && n.id == id ==> HasId(n.children, id)
    decreases |ns|
  {
    if ns != [] {
      DeleteItemFrom(ns[1..], id);
      GetChildSpec(id, ns[0]);
      assert DeleteItem(ns, id) == Entry(ns[0], id) + DeleteItem(ns[1..], id);
      assert forall r :: r in ns[1..] ==> r in ns;
      if HasId(ns[0].children, id) {
        ClearedHasId(id, ns[0]);
      }
    }
  }

  /** No root item is lost by `deleteTestItem(id)` except one whose own id
      matches with no match below it. */
  lemma {:induction false} DeleteItemKeeps(ns: seq<Node>, id: string)
    ensures forall r :: r in ns && !HasId(r.children, id) && r.id != id ==> r in DeleteItem(ns, id)
    ensures forall r :: r in ns && HasId(r.children, id) ==> ClearIn(id, r) in DeleteItem(ns, id)
    decreases |ns|
  {
    if ns != [] {
      DeleteItemKeeps(ns[1..], id);
      GetChildSpec(id, ns[0]);
      assert DeleteItem(ns, id) == Entry(ns[0], id) + DeleteItem(ns[1..], id);
      assert forall r :: r in ns ==> r == ns[0] || r in ns[1..];
    }
  }

  /** The cleared item is still there, so the id is still found below. */
  lemma ClearedHasId(id: string, p: Node)
    requires HasId(p.children, id)
    ensures HasId(ClearIn(id, p).children, id)
  {
    GetChildSpec(id, p);
    ClearInSpec(id, p);
    GetChildSpec(id, ClearIn(id, p));
  }

  /** The items `deleteTestItem` keeps at the root are old root items by id. */
  lemma {:induction false} DeleteItemIds(ns: seq<Node>, id: string)
    ensures forall x :: x in Ids(DeleteItem(ns, id)) ==> x in Ids(ns)
    decreases |ns|
  {
    if ns != [] {
      DeleteItemIds(ns[1..], id);
      var d := DeleteItem(ns, id);
      var e := Entry(ns[0], id);
      assert d == e + DeleteItem(ns[1..], id);
      if GetChild(id, ns[0]).Some? {
        ClearInSpec(id, ns[0]);
      }
      forall x | x in Ids(d) ensures x in Ids(ns) {
        var k :| 0 <= k < |d| && Ids(d)[k] == x;
        if k >= |e| {
          assert d[k] == DeleteItem(ns[1..], id)[k - |e|];
          assert x in Ids(DeleteItem(ns[1..], id));
          var j :| 0 <= j < |ns[1..]| && Ids(ns[1..])[j] == x;
          assert Ids(ns)[j + 1] == x;
        } else {
          assert Ids(ns)[0] == x;
        }
      }
    }
  }

  /** When no root item has the id strictly below it, `deleteTestItem`
      only drops the root items with that id. */
  lemma {:induction false} DeleteItemNoDescendant(ns: seq<Node>, id: string)
    requires forall r :: r in ns ==> !HasId(r.children, id)
    ensures DeleteItem(ns, id) == Delete(ns, id)
    decreases |ns|
  {
    if ns != [] {
      assert ns[0] in ns;
      GetChildSpec(id, ns[0]);
      assert forall r :: r in ns[1..] ==> r in ns;
      DeleteItemNoDescendant(ns[1..], id);
    }
  }

  // ---------------------------------------------------------------------
  // deleteWorkspaceChildren.

  /** Directory items found at the root, as `convertJunitTestcases` makes
      them: id and uri path agree, and no root id occurs strictly below any
      root item. */
  predicate PlainRoots(ns: seq<Node>) {
    (forall r :: r in ns ==> r.uri == r.id) &&
    (forall r, s :: r in ns && s in ns ==> !HasId(s.children, r.id))
  }

  lemma {:induction false} DeleteWorkspaceFromSpec(ns: seq<Node>, rootIds: seq<string>, workspace: string)
    requires PlainRoots(ns)
    ensures forall n :: n in DeleteWorkspaceFrom(ns, rootIds, workspace) <==>
      n in ns && !(n.id in rootIds && StartsWith(n.uri, workspace))
    decreases |rootIds|
  {
    if rootIds != [] {
      var rid := rootIds[0];
      assert forall x :: x in rootIds <==> x == rid || x in rootIds[1..];
      match Get(ns, rid)
      case None =>
        DeleteWorkspaceFromSpec(ns, rootIds[1..], workspace);
      case Some(r) =>
        if StartsWith(r.uri, workspace) {
          DeleteItemNoDescendant(ns, r.uri);
          var next := Delete(ns, r.uri);
          DeleteWorkspaceFromSpec(next, rootIds[1..], workspace);
        } else {
          DeleteWorkspaceFromSpec(ns, rootIds[1..], workspace);
        }
    }
  }

  /** The root items, in order, whose uri path does not start with the
      workspace path. */
  function Outside(ns: seq<Node>, workspace: string): seq<Node>
    decreases |ns|
  {
    if ns == [] then []
    else (if StartsWith(ns[0].uri, workspace) then [] else [ns[0]]) + Outside(ns[1..], workspace)
  }

  /** The root items, in order, except those with an id in `rootIds` whose
      uri path starts with the workspace path: what is left after the
      visits of `rootIds`. */
  function Kept(ns: seq<Node>, rootIds: seq<string>, workspace: string): seq<Node>
    decreases |ns|
  {
    if ns == [] then []
    else
      var gone := ns[0].id in rootIds && StartsWith(ns[0].uri, workspace);
      (if gone then [] else [ns[0]]) + Kept(ns[1..], rootIds, workspace)
  }

  /** Visiting one more id: its items go exactly when its uri path starts with
      the workspace path. */
  lemma {:induction false} KeptCons(ns: seq<Node>, rid: string, rest: seq<string>, workspace: string)
    requires forall k :: 0 <= k < |ns| && ns[k].id == rid ==> ns[k].uri == rid
    ensures Kept(ns, [rid] + rest, workspace) ==
      if StartsWith(rid, workspace) then Kept(Delete(ns, rid), rest, workspace) else Kept(ns, rest, workspace)
    decreases |ns|
  {
    if ns != [] {
      var tail := ns[1..];
      assert forall k :: 0 <= k < |tail| ==> tail[k] == ns[k + 1];
      KeptCons(tail, rid, rest, workspace);
      assert ns[0].id in [rid] + rest <==> ns[0].id == rid || ns[0].id in rest;
      if StartsWith(rid, workspace) {
        if ns[0].id == rid {
          assert Delete(ns, rid) == Delete(tail, rid);
        } else {
          assert Delete(ns, rid) == [ns[0]] + Delete(tail, rid);
          assert (([ns[0]] + Delete(tail, rid))[1..]) == Delete(tail, rid);
        }
      }
    }
  }

  /** The visits to ids that no item has remove nothing. */
  lemma {:induction false} KeptNone(ns: seq<Node>, workspace: string)
    ensures Kept(ns, [], workspace) == ns
    decreases |ns|
  {
    if ns != [] {
      KeptNone(ns[1..], workspace);
    }
  }

  /** Once every root id has been visited, what is left is `Outside`. */
  lemma {:induction false} KeptAll(ns: seq<Node>, rootIds: seq<string>, workspace: string)
    requires forall k :: 0 <= k < |ns| ==> ns[k].id in rootIds
    ensures Kept(ns, rootIds, workspace) == Outside(ns, workspace)
    decreases |ns|
  {
    if ns != [] {
      var tail := ns[1..];
      assert forall k :: 0 <= k < |tail| ==> tail[k] == ns[k + 1];
      KeptAll(tail, rootIds, workspace);
    }
  }

  /** The visits of `deleteWorkspaceChildren`, on directory root items, leave
      `Kept`. */
  lemma {:induction false} DeleteWorkspaceFromKept(ns: seq<Node>, rootIds: seq<string>, workspace: string)
    requires PlainRoots(ns)
    ensures DeleteWorkspaceFrom(ns, rootIds, workspace) == Kept(ns, rootIds, workspace)
    decreases |rootIds|
  {
    if rootIds == [] {
      KeptNone(ns, workspace);
    } else {
      var rid, rest := rootIds[0], rootIds[1..];
      assert rootIds == [rid] + rest;
      assert forall k :: 0 <= k < |ns| ==> ns[k] in ns;
      KeptCons(ns, rid, rest, workspace);
      match Get(ns, rid)
      case None =>
        assert Delete(ns, rid) == ns;
        DeleteWorkspaceFromKept(ns, rest, workspace);
      case Some(r) =>
        if StartsWith(r.uri, workspace) {
          DeleteItemNoDescendant(ns, r.uri);
          var next := Delete(ns, rid);
          assert PlainRoots(next);
          DeleteWorkspaceFromKept(next, rest, workspace);
        } else {
          DeleteWorkspaceFromKept(ns, rest, workspace);
        }
    }
  }

  /** `deleteWorkspaceChildren` on directory root items removes exactly those
      whose uri path starts with the workspace path (a plain string prefix
      test) and keeps the rest unchanged and in their order. */
  lemma DeleteWorkspaceSpec(ns: seq<Node>, workspace: string)
    requires PlainRoots(ns)
    ensures forall n :: n in DeleteWorkspace(ns, workspace) <==> n in ns && !StartsWith(n.uri, workspace)
    ensures DeleteWorkspace(ns, workspace) == Outside(ns, workspace)
  {
    DeleteWorkspaceFromSpec(ns, Ids(ns), workspace);
    forall n | n in ns ensures n.id in Ids(ns) {
      var k :| 0 <= k < |ns| && ns[k] == n;
      assert Ids(ns)[k] == n.id;
    }
    DeleteWorkspaceFromKept(ns, Ids(ns), workspace);
    assert forall k :: 0 <= k < |ns| ==> Ids(ns)[k] == ns[k].id;
    KeptAll(ns, Ids(ns), workspace);
  }

  /** Whatever the tree, `deleteWorkspaceChildren` never adds a root id. */
  lemma {:induction false} DeleteWorkspaceFromIds(ns: seq<Node>, rootIds: seq<string>, workspace: string)
    ensures forall x :: x in Ids(DeleteWorkspaceFrom(ns, rootIds, workspace)) ==> x in Ids(ns)
    decreases |rootIds|
  {
    if rootIds != [] {
      match Get(ns, rootIds[0])
      case None =>
        DeleteWorkspaceFromIds(ns, rootIds[1..], workspace);
      case Some(r) =>
        var next := if StartsWith(r.uri, workspace) then DeleteItem(ns, r.uri) else ns;
        DeleteItemIds(ns, r.uri);
        DeleteWorkspaceFromIds(next, rootIds[1..], workspace);
    }
  }

  /** `deleteTestItem` keeps sibling ids unique at every level. */
  lemma {:induction false} DeleteItemWellFormed(ns: seq<Node>, id: string)
    requires WellFormed(ns)
    ensures WellFormed(DeleteItem(ns, id))
    decreases |ns|
  {
    if ns != [] {
      var tail := ns[1..];
      WellFormedCons(ns[0], tail);
      assert ns == [ns[0]] + tail;
      DeleteItemWellFormed(tail, id);
      DeleteItemIds(tail, id);
      var rest := DeleteItem(tail, id);
      assert DeleteItem(ns, id) == Entry(ns[0], id) + rest;
      if GetChild(id, ns[0]).Some? {
        ClearInWellFormed(id, ns[0]);
        ClearInSpec(id, ns[0]);
        WellFormedCons(ClearIn(id, ns[0]), rest);
      } else if ns[0].id != id {
        WellFormedCons(ns[0], rest);
      } else {
        assert DeleteItem(ns, id) == rest;
      }
    }
  }

  /** `deleteWorkspaceChildren` keeps sibling ids unique at every level. */
  lemma {:induction false} DeleteWorkspaceFromWellFormed(ns: seq<Node>, rootIds: seq<string>, workspace: string)
    requires WellFormed(ns)
    ensures WellFormed(DeleteWorkspaceFrom(ns, rootIds, workspace))
    decreases |rootIds|
  {
    if rootIds != [] {
      match Get(ns, rootIds[0])
      case None =>
        DeleteWorkspaceFromWellFormed(ns, rootIds[1..], workspace);
      case Some(r) =>
        var next := if StartsWith(r.uri, workspace) then DeleteItem(ns, r.uri) else ns;
        DeleteItemWellFormed(ns, r.uri);
        DeleteWorkspaceFromWellFormed(next, rootIds[1..], workspace);
    }
  }
}
