/** The test tree: test items keyed by id, each with ordered children whose
    ids are unique among siblings (a VS Code `TestItemCollection`), and the
    recursive lookup `getChild`. */
module Tree {
  import opened Common

  /** A zero-based editor position (`vscode.Position`). */
  datatype Position = Position(line: int, character: int)

  datatype Range = Range(start: Position, end: Position)

  /** A test item: directory, spec file or test case. `uri` is the path of
      `item.uri`; `children` is the item's collection in insertion order. */
  datatype Node = Node(id: string, display: string, uri: string, range: Option<Range>, children: seq<Node>)

  /** The ids of a collection, in order. */
  function Ids(ns: seq<Node>): (r: seq<string>)
    ensures |r| == |ns| && forall i :: 0 <= i < |ns| ==> r[i] == ns[i].id
  {
    if ns == [] then [] else [ns[0].id] + Ids(ns[1..])
  }

  /** A collection never holds two items with the same id. */
  predicate UniqueIds(ns: seq<Node>) {
    forall i, j :: 0 <= i < j < |ns| ==> ns[i].id != ns[j].id
  }

  /** Sibling ids are unique at every level of the forest. */
  predicate WellFormed(ns: seq<Node>)
    decreases ns
  {
    UniqueIds(ns) && forall i :: 0 <= i < |ns| ==> WellFormedNode(ns[i])
  }

  predicate WellFormedNode(n: Node)
    decreases n
  {
    WellFormed(n.children)
  }

  /** Index of the first item of `ns` with the given id. */
  function IndexOfId(ns: seq<Node>, id: string): (r: Option<nat>)
    ensures r.Some? ==> r.value < |ns| && ns[r.value].id == id
    ensures r.Some? ==> forall k :: 0 <= k < r.value ==> ns[k].id != id
    ensures r.None? <==> forall k :: 0 <= k < |ns| ==> ns[k].id != id
  {
    if ns == [] then None
    else if ns[0].id == id then Some(0)
    else match IndexOfId(ns[1..], id)
      case None => None
      case Some(k) => Some(k + 1)
  }

  /** `collection.get(id)`. */
  function Get(ns: seq<Node>, id: string): (r: Option<Node>)
    ensures r.Some? ==> r.value in ns && r.value.id == id
    ensures r.None? <==> forall k :: 0 <= k < |ns| ==> ns[k].id != id
  {
    match IndexOfId(ns, id)
    case None => None
    case Some(i) => Some(ns[i])
  }

  /** `collection.add(item)`: an item with the same id is replaced where it
      stands, otherwise the item is appended. */
  function Add(ns: seq<Node>, item: Node): (r: seq<Node>)
    ensures Get(r, item.id) == Some(item)
    ensures IndexOfId(ns, item.id).Some? ==> |r| == |ns| && r == ns[IndexOfId(ns, item.id).value := item]
    ensures IndexOfId(ns, item.id).None? ==> r == ns + [item]
    ensures UniqueIds(ns) ==> UniqueIds(r)
  {
    match IndexOfId(ns, item.id)
    case None =>
      var r := ns + [item];
      assert r[|ns|] == item;
      assert IndexOfId(r, item.id).Some?;
      assert IndexOfId(r, item.id).value == |ns|;
      r
    case Some(i) =>
      var r := ns[i := item];
      assert forall k :: 0 <= k < i ==> r[k].id != item.id;
      assert r[i] == item;
      var j := IndexOfId(r, item.id);
      assert j.Some?;
      assert !(j.value < i) && !(j.value > i);
      r
  }

  /** `add` leaves the lookup of every other id as it was. */
  lemma AddGetOther(ns: seq<Node>, item: Node, id: string)
    requires id != item.id
    ensures Get(Add(ns, item), id) == Get(ns, id)
  {
    match IndexOfId(ns, item.id)
    case None => IndexOfIdAppend(ns, item, id);
    case Some(i) => IndexOfIdReplace(ns, i, item, id);
  }

  lemma {:induction false} IndexOfIdAppend(ns: seq<Node>, item: Node, id: string)
    requires id != item.id
    ensures IndexOfId(ns + [item], id) == IndexOfId(ns, id)
  {
    if ns != [] {
      assert (ns + [item])[1..] == ns[1..] + [item];
      IndexOfIdAppend(ns[1..], item, id);
    }
  }

  /** Looking up in a collection with one more item at the end. */
  lemma {:induction false} IndexOfIdSnoc(ns: seq<Node>, x: Node, id: string)
    ensures IndexOfId(ns + [x], id) ==
      if IndexOfId(ns, id).Some? then IndexOfId(ns, id) else if x.id == id then Some(|ns|) else None
  {
    if ns != [] {
      assert (ns + [x])[1..] == ns[1..] + [x];
      IndexOfIdSnoc(ns[1..], x, id);
    }
  }

  lemma GetSnoc(ns: seq<Node>, x: Node, id: string)
    ensures Get(ns + [x], id) == if Get(ns, id).Some? then Get(ns, id) else if x.id == id then Some(x) else None
  {
    IndexOfIdSnoc(ns, x, id);
    match IndexOfId(ns, id)
    case Some(i) => assert (ns + [x])[i] == ns[i];
    case None =>
  }

  lemma {:induction false} IndexOfIdReplace(ns: seq<Node>, i: nat, item: Node, id: string)
    requires i < |ns| && ns[i].id == item.id && id != item.id
    ensures IndexOfId(ns[i := item], id) == IndexOfId(ns, id)
  {
    if i > 0 {
      assert ns[i := item][1..] == ns[1..][i - 1 := item];
      IndexOfIdReplace(ns[1..], i - 1, item, id);
    }
  }

  /** `collection.delete(id)`: drops the items with that id, keeps the rest
      in order. */
  function Delete(ns: seq<Node>, id: string): (r: seq<Node>)
    ensures forall n :: n in r <==> n in ns && n.id != id
    ensures |r| <= |ns|
    ensures (forall k :: 0 <= k < |ns| ==> ns[k].id != id) ==> r == ns
  {
    if ns == [] then []
    else if ns[0].id == id then Delete(ns[1..], id)
    else [ns[0]] + Delete(ns[1..], id)
  }

  /** Deleting the first item's id from a forest without duplicate ids
      leaves the rest, which has no duplicate ids either. */
  lemma DeleteFirst(ns: seq<Node>)
    requires ns != [] && UniqueIds(ns)
    ensures Delete(ns, ns[0].id) == ns[1..] && UniqueIds(ns[1..])
  {
    var tail := ns[1..];
    assert forall j :: 0 <= j < |tail| ==> tail[j] == ns[j + 1];
  }

  /** `delete` keeps the order and the number of the remaining items:
      deleting from two collections laid end to end is deleting from each. */
  lemma {:induction false} DeleteAppend(a: seq<Node>, b: seq<Node>, id: string)
    ensures Delete(a + b, id) == Delete(a, id) + Delete(b, id)
    decreases |a|
  {
    if a == [] {
      assert a + b == b;
    } else {
      assert (a + b)[0] == a[0] && (a + b)[1..] == a[1..] + b;
      DeleteAppend(a[1..], b, id);
    }
  }

  /** Every item of a forest, in depth-first preorder. */
  function Subtrees(ns: seq<Node>): seq<Node>
    decreases ns
  {
    if ns == [] then [] else SubtreesOf(ns[0]) + Subtrees(ns[1..])
  }

  /** `n` and every item below it, in depth-first preorder. */
  function SubtreesOf(n: Node): seq<Node>
    decreases n
  {
    [n] + Subtrees(n.children)
  }

  /** True when some item of the forest (at any depth) has the id. */
  predicate HasId(ns: seq<Node>, id: string)
    decreases ns
  {
    exists i :: 0 <= i < |ns| && NodeHasId(ns[i], id)
  }

  /** True when `n` or an item below it has the id. */
  predicate NodeHasId(n: Node, id: string)
    decreases n
  {
    n.id == id || HasId(n.children, id)
  }

  /** The number of items in a forest. */
  function Size(ns: seq<Node>): nat
    decreases ns
  {
    if ns == [] then 0 else NodeSize(ns[0]) + Size(ns[1..])
  }

  function NodeSize(n: Node): nat
    decreases n
  {
    1 + Size(n.children)
  }

  /** `getChild(id, parent)`: a direct child with the id if there is one,
      otherwise the first hit of `getChild(id, child)` over the children in
      order. */
  function GetChild(id: string, p: Node): Option<Node>
    decreases p
  {
    match Get(p.children, id)
    case Some(c) => Some(c)
    case None => FirstChild(id, p.children)
  }

  /** The first `getChild(id, c)` that finds something, over `cs` in order. */
  function FirstChild(id: string, cs: seq<Node>): Option<Node>
    decreases cs
  {
    if cs == [] then None
    else match GetChild(id, cs[0])
      case Some(c) => Some(c)
      case None => FirstChild(id, cs[1..])
  }

  /** Every item listed by `Subtrees` is no larger than its forest. */
  lemma {:induction false} SubtreesSmaller(ns: seq<Node>, d: Node)
    requires d in Subtrees(ns)
    ensures NodeSize(d) <= Size(ns)
    decreases ns
  {
    if d in SubtreesOf(ns[0]) {
      if d != ns[0] {
        SubtreesSmaller(ns[0].children, d);
      }
    } else {
      SubtreesSmaller(ns[1..], d);
    }
  }

  /** `getChild(id, p)` returns an item strictly below `p` whose id is `id`,
      and returns nothing exactly when no item strictly below `p` has that id.
      A direct child with the id is preferred to any deeper item; without
      one, the hit comes from the first child, in order, that has the id
      somewhere below it. */
  lemma {:induction false} GetChildSpec(id: string, p: Node)
    ensures GetChild(id, p).Some? ==>
      GetChild(id, p).value.id == id && GetChild(id, p).value in Subtrees(p.children)
    ensures GetChild(id, p).Some? ==> GetChild(id, p).value != p
    ensures GetChild(id, p).None? <==> !HasId(p.children, id)
    ensures Get(p.children, id).Some? ==> GetChild(id, p) == Get(p.children, id)
    ensures Get(p.children, id).None? && GetChild(id, p).Some? ==>
      exists k :: 0 <= k < |p.children| && HasId(p.children[k].children, id)
        && (forall j :: 0 <= j < k ==> !HasId(p.children[j].children, id))
        && GetChild(id, p) == GetChild(id, p.children[k])
    decreases p, 1
  {
    match Get(p.children, id)
    case Some(c) =>
      ChildInSubtrees(p.children, c);
      SubtreesSmaller(p.children, c);
      var i :| 0 <= i < |p.children| && p.children[i] == c;
      assert NodeHasId(p.children[i], id);
    case None =>
      FirstChildSpec(id, p.children);
      var r := GetChild(id, p);
      if r.Some? {
        SubtreesSmaller(p.children, r.value);
      }
      if HasId(p.children, id) {
        var i :| 0 <= i < |p.children| && NodeHasId(p.children[i], id);
        assert p.children[i].id != id;
      }
  }

  /** The first hit over `cs` has the id and lies in the forest; there is no
      hit exactly when no item strictly below any of `cs` has the id; and a
      hit is the one found below the first of `cs` that has the id below it. */
  lemma {:induction false} FirstChildSpec(id: string, cs: seq<Node>)
    ensures FirstChild(id, cs).Some? ==>
      FirstChild(id, cs).value.id == id && FirstChild(id, cs).value in Subtrees(cs)
    ensures FirstChild(id, cs).None? <==> forall i :: 0 <= i < |cs| ==> !HasId(cs[i].children, id)
    ensures FirstChild(id, cs).Some? ==>
      exists k :: 0 <= k < |cs| && HasId(cs[k].children, id)
        && (forall j :: 0 <= j < k ==> !HasId(cs[j].children, id))
        && FirstChild(id, cs) == GetChild(id, cs[k])
    decreases cs
  {
    if cs != [] {
      GetChildSpec(id, cs[0]);
      FirstChildSpec(id, cs[1..]);
      assert Subtrees(cs) == [cs[0]] + Subtrees(cs[0].children) + Subtrees(cs[1..]);
      assert forall i :: 1 <= i < |cs| ==> cs[i] == cs[1..][i - 1];
      if GetChild(id, cs[0]).None? && FirstChild(id, cs).Some? {
        var k :| 0 <= k < |cs[1..]| && HasId(cs[1..][k].children, id)
          && (forall j :: 0 <= j < k ==> !HasId(cs[1..][j].children, id)) && FirstChild(id, cs[1..]) == GetChild(id, cs[1..][k]);
        assert HasId(cs[k + 1].children, id);
      }
    }
  }

  lemma {:induction false} ChildInSubtrees(ns: seq<Node>, c: Node)
    requires c in ns
    ensures c in Subtrees(ns)
    decreases ns
  {
    if ns[0] != c {
      ChildInSubtrees(ns[1..], c);
    }
  }

  /** Collections with the same ids in the same order answer every
      id lookup with the same index. */
  lemma {:induction false} IndexOfIdSameIds(ns: seq<Node>, ms: seq<Node>, id: string)
    requires Ids(ns) == Ids(ms)
    ensures IndexOfId(ns, id) == IndexOfId(ms, id)
  {
    if ns != [] {
      assert Ids(ns[1..]) == Ids(ns)[1..];
      assert Ids(ms[1..]) == Ids(ms)[1..];
      IndexOfIdSameIds(ns[1..], ms[1..], id);
    }
  }

  /** The item reached from the roots `ns` by following the ids of `path`
      (the first id names a root item); nothing for an empty or broken path. */
  function At(ns: seq<Node>, path: seq<string>): (r: Option<Node>)
    ensures r.Some? ==> |path| > 0 && r.value.id == path[|path| - 1]
    decreases |path|
  {
    if path == [] then None
    else match Get(ns, path[0])
      case None => None
      case Some(n) => if |path| == 1 then Some(n) else At(n.children, path[1..])
  }

  /** `parent.children.add(item)` where `parent` is the item at `path`: the
      one item changed, everything else as it was. */
  function AddAt(ns: seq<Node>, path: seq<string>, item: Node): (r: seq<Node>)
    decreases |path|
  {
    if path == [] then ns
    else match IndexOfId(ns, path[0])
      case None => ns
      case Some(i) =>
        var n := ns[i];
        var kids := if |path| == 1 then Add(n.children, item) else AddAt(n.children, path[1..], item);
        ns[i := n.(children := kids)]
  }

  /** `AddAt` changes no root id and no root position. */
  lemma AddAtIds(ns: seq<Node>, path: seq<string>, item: Node)
    ensures Ids(AddAt(ns, path, item)) == Ids(ns)
  {
    if path != [] && IndexOfId(ns, path[0]).Some? {
      var r := AddAt(ns, path, item);
      assert forall k :: 0 <= k < |ns| ==> r[k].id == ns[k].id;
    }
  }

  /** After `AddAt`, the item sits right below the path. */
  lemma {:induction false} AtAddAtNew(ns: seq<Node>, path: seq<string>, item: Node)
    requires At(ns, path).Some?
    ensures At(AddAt(ns, path, item), path + [item.id]) == Some(item)
    decreases |path|
  {
    var i := IndexOfId(ns, path[0]).value;
    var n := ns[i];
    AtAddAtTop(ns, path, item.id, item);
    if |path| > 1 {
      AtUnfold(ns, path);
      AtAddAtNew(n.children, path[1..], item);
    }
  }

  /** A path of one more id after `AddAt`, one level down: the children of
      the first item on the path are those `Add` or `AddAt` gave it. */
  lemma AtAddAtTop(ns: seq<Node>, path: seq<string>, x: string, item: Node)
    requires |path| > 0 && IndexOfId(ns, path[0]).Some?
    ensures var n := ns[IndexOfId(ns, path[0]).value];
      At(AddAt(ns, path, item), path + [x]) ==
        if |path| == 1 then At(Add(n.children, item), [x]) else At(AddAt(n.children, path[1..], item), path[1..] + [x])
  {
    var r := AddAtUnfold(ns, path, item);
    var p2 := path + [x];
    assert p2[0] == path[0];
    AtUnfold(r, p2);
    if |path| == 1 {
      assert p2[1..] == [x];
    } else {
      assert p2[1..] == path[1..] + [x];
    }
  }

  /** One level of `At`. */
  lemma AtUnfold(ns: seq<Node>, path: seq<string>)
    requires |path| > 1 && Get(ns, path[0]).Some?
    ensures At(ns, path) == At(Get(ns, path[0]).value.children, path[1..])
  {
  }

  /** One level of `AddAt`: the first item on the path gets the new children,
      and keeps its place. */
  lemma AddAtUnfold(ns: seq<Node>, path: seq<string>, item: Node) returns (r: seq<Node>)
    requires |path| > 0 && IndexOfId(ns, path[0]).Some?
    ensures r == AddAt(ns, path, item)
    ensures var i := IndexOfId(ns, path[0]).value;
      r == ns[i := ns[i].(children := if |path| == 1 then Add(ns[i].children, item)
                                       else AddAt(ns[i].children, path[1..], item))]
    ensures Get(r, path[0]) == Some(r[IndexOfId(ns, path[0]).value])
  {
    r := AddAt(ns, path, item);
    AddAtIds(ns, path, item);
    IndexOfIdSameIds(r, ns, path[0]);
  }

  /** `AddAtUnfold` for a path of two or more ids, phrased through the
      changed root item alone. */
  lemma AddAtUnfoldDeep(ns: seq<Node>, path: seq<string>, item: Node) returns (i: nat)
    requires |path| > 1 && IndexOfId(ns, path[0]).Some?
    ensures i == IndexOfId(ns, path[0]).value && i < |ns|
    ensures Get(AddAt(ns, path, item), path[0]) == Some(ns[i].(children := AddAt(ns[i].children, path[1..], item)))
  {
    i := IndexOfId(ns, path[0]).value;
    var r := AddAtUnfold(ns, path, item);
  }

  /** `AddAt` keeps every path that does not run through the slot the item
      took (a replaced item may have had children of its own). */
  lemma {:induction false} AtAddAtKeeps(ns: seq<Node>, path: seq<string>, item: Node, q: seq<string>)
    requires At(ns, path).Some? && At(ns, q).Some?
    requires !(|q| > |path| + 1 && q[..|path| + 1] == path + [item.id])
    ensures At(AddAt(ns, path, item), q).Some?
    decreases |path|, 1
  {
    var i := IndexOfId(ns, path[0]).value;
    var r := AddAtUnfold(ns, path, item);
    AddAtIds(ns, path, item);
    IndexOfIdSameIds(r, ns, q[0]);
    var j := IndexOfId(ns, q[0]).value;
    if j != i {
      assert r[j] == ns[j];
      AtWithSameHead(ns, r, q);
    } else if |q| > 1 {
      AtAddAtKeepsBelow(ns, path, item, q);
    }
  }

  /** The case of `AtAddAtKeeps` where `q` runs through the same root item
      as the path and goes deeper. */
  lemma {:induction false} AtAddAtKeepsBelow(ns: seq<Node>, path: seq<string>, item: Node, q: seq<string>)
    requires At(ns, path).Some? && At(ns, q).Some? && |q| > 1 && q[0] == path[0]
    requires !(|q| > |path| + 1 && q[..|path| + 1] == path + [item.id])
    ensures At(AddAt(ns, path, item), q).Some?
    decreases |path|, 0
  {
    if |path| == 1 {
      AtAddAtKeepsChild(ns, path, item, q);
    } else {
      var i := AddAtUnfoldDeep(ns, path, item);
      var n := ns[i];
      AtUnfold(ns, q);
      AtUnfold(AddAt(ns, path, item), q);
      AtUnfold(ns, path);
      PrefixShift(q, path, item.id);
      AtAddAtKeeps(n.children, path[1..], item, q[1..]);
    }
  }

  /** Dropping a shared first id keeps the "runs through" relation. */
  lemma PrefixShift(q: seq<string>, path: seq<string>, x: string)
    requires |q| > 1 && |path| > 1 && q[0] == path[0]
    ensures (|q| > |path| + 1 && q[..|path| + 1] == path + [x]) <==>
            (|q[1..]| > |path[1..]| + 1 && q[1..][..|path[1..]| + 1] == path[1..] + [x])
  {
    if |q| > |path| + 1 {
      assert q[..|path| + 1] == [q[0]] + q[1..][..|path|];
      assert path + [x] == [path[0]] + (path[1..] + [x]);
    }
  }

  /** `AtAddAtKeepsBelow` for a path of one root item. */
  lemma AtAddAtKeepsChild(ns: seq<Node>, path: seq<string>, item: Node, q: seq<string>)
    requires At(ns, path).Some? && At(ns, q).Some? && |q| > 1 && q[0] == path[0] && |path| == 1
    requires !(|q| > 2 && q[..2] == path + [item.id])
    ensures At(AddAt(ns, path, item), q).Some?
  {
    assert q[..2] == [q[0], q[1]];
    assert path + [item.id] == [path[0], item.id];
    if q[1] == item.id {
      assert q == path + [item.id];
      AtAddAtNew(ns, path, item);
    } else {
      var n := ns[IndexOfId(ns, path[0]).value];
      var r := AddAtUnfold(ns, path, item);
      AtUnfold(ns, q);
      AtUnfold(r, q);
      AddGetOther(n.children, item, q[1]);
      AtWithSameHead(n.children, Add(n.children, item), q[1..]);
    }
  }

  /** Two forests that agree on the item with the path's first id agree on
      the path. */
  lemma AtWithSameHead(ns: seq<Node>, ms: seq<Node>, q: seq<string>)
    requires |q| > 0 && Get(ns, q[0]) == Get(ms, q[0])
    ensures At(ns, q) == At(ms, q)
  {
  }

  /** Adding an item that is already in place changes nothing. */
  lemma {:induction false} AddAtPresent(ns: seq<Node>, path: seq<string>, item: Node)
    requires |path| > 0 && At(ns, path + [item.id]) == Some(item)
    ensures AddAt(ns, path, item) == ns
    decreases |path|
  {
    assert (path + [item.id])[0] == path[0];
    var i := IndexOfId(ns, path[0]).value;
    var n := ns[i];
    if |path| == 1 {
      assert (path + [item.id])[1..] == [item.id];
      var j := IndexOfId(n.children, item.id).value;
      assert n.children[j := item] == n.children;
      assert ns[i := n] == ns;
    } else {
      assert (path + [item.id])[1..] == path[1..] + [item.id];
      AddAtPresent(n.children, path[1..], item);
      assert ns[i := n] == ns;
    }
  }

  /** Every non-empty prefix of a path that reaches an item reaches one too. */
  lemma {:induction false} AtPrefix(ns: seq<Node>, path: seq<string>, k: nat)
    requires At(ns, path).Some? && 1 <= k <= |path|
    ensures At(ns, path[..k]).Some?
    decreases |path|
  {
    if k > 1 {
      var n := Get(ns, path[0]).value;
      assert path[..k][1..] == path[1..][..k - 1];
      AtPrefix(n.children, path[1..], k - 1);
    }
  }

  /** A collection holds an item with the id exactly when the id is among
      its ids. */
  lemma GetIds(ns: seq<Node>, id: string)
    ensures Get(ns, id).Some? <==> id in Ids(ns)
  {
    if id in Ids(ns) {
      var k :| 0 <= k < |ns| && Ids(ns)[k] == id;
    }
  }

  /** Extending a path by one id looks that id up among the children. */
  lemma {:induction false} AtSnoc(ns: seq<Node>, path: seq<string>, c: string)
    requires At(ns, path).Some?
    ensures At(ns, path + [c]) == Get(At(ns, path).value.children, c)
    decreases |path|
  {
    var p2 := path + [c];
    assert p2[0] == path[0];
    AtUnfold(ns, p2);
    if |path| == 1 {
      assert p2[1..] == [c];
    } else {
      AtUnfold(ns, path);
      assert p2[1..] == path[1..] + [c];
      AtSnoc(Get(ns, path[0]).value.children, path[1..], c);
    }
  }

  /** Appending a child with a new id below a path keeps every path. */
  lemma AddAtFreshKeeps(ns: seq<Node>, path: seq<string>, item: Node, q: seq<string>)
    requires At(ns, path).Some? && Get(At(ns, path).value.children, item.id).None?
    requires At(ns, q).Some?
    ensures At(AddAt(ns, path, item), q).Some?
  {
    if |q| > |path| + 1 && q[..|path| + 1] == path + [item.id] {
      AtPrefix(ns, q, |path| + 1);
      AtSnoc(ns, path, item.id);
      assert false;
    }
    AtAddAtKeeps(ns, path, item, q);
  }

  /** Adding a root item with a new id keeps every path. */
  lemma AddRootKeeps(ns: seq<Node>, item: Node, q: seq<string>)
    requires Get(ns, item.id).None? && At(ns, q).Some?
    ensures At(Add(ns, item), q) == At(ns, q)
  {
    AddGetOther(ns, item, q[0]);
    AtWithSameHead(ns, Add(ns, item), q);
  }

  /** `AddAt` leaves the item at every other path as it was: any path that
      is neither a prefix of the parent's path nor runs through the slot the
      item takes. */
  lemma {:induction false} AtAddAtFrame(ns: seq<Node>, path: seq<string>, item: Node, q: seq<string>)
    requires |q| > 0 && !(|q| <= |path| && q == path[..|q|])
    requires !(|path| + 1 <= |q| && q[..|path| + 1] == path + [item.id])
    ensures At(AddAt(ns, path, item), q) == At(ns, q)
    decreases |path|
  {
    if path != [] && IndexOfId(ns, path[0]).Some? {
      if q[0] != path[0] {
        AtAddAtOtherRoot(ns, path, item, q);
      } else {
        if |path| == 1 {
          assert q[..2] == [q[0], q[1]];
          AtAddAtOtherChild(ns, path, item, q);
        } else {
          FrameShift(q, path, item.id);
          var i := AddAtUnfoldDeep(ns, path, item);
          AtUnfold(ns, q);
          AtUnfold(AddAt(ns, path, item), q);
          AtAddAtFrame(ns[i].children, path[1..], item, q[1..]);
        }
      }
    }
  }

  /** A path through another root item than the parent's. */
  lemma AtAddAtOtherRoot(ns: seq<Node>, path: seq<string>, item: Node, q: seq<string>)
    requires |path| > 0 && IndexOfId(ns, path[0]).Some? && |q| > 0 && q[0] != path[0]
    ensures At(AddAt(ns, path, item), q) == At(ns, q)
  {
    var i := IndexOfId(ns, path[0]).value;
    var r := AddAtUnfold(ns, path, item);
    IndexOfIdReplace(ns, i, r[i], q[0]);
    AtWithSameHead(ns, r, q);
  }

  /** A path through a child of a root parent other than the added item. */
  lemma AtAddAtOtherChild(ns: seq<Node>, path: seq<string>, item: Node, q: seq<string>)
    requires |path| == 1 && IndexOfId(ns, path[0]).Some? && |q| > 1 && q[0] == path[0] && q[1] != item.id
    ensures At(AddAt(ns, path, item), q) == At(ns, q)
  {
    var n := ns[IndexOfId(ns, path[0]).value];
    var r := AddAtUnfold(ns, path, item);
    AtUnfold(ns, q);
    AtUnfold(r, q);
    AddGetOther(n.children, item, q[1]);
    AtWithSameHead(n.children, Add(n.children, item), q[1..]);
  }

  /** Dropping a shared first id keeps both side conditions of `AtAddAtFrame`. */
  lemma FrameShift(q: seq<string>, path: seq<string>, x: string)
    requires |q| > 1 && |path| > 1 && q[0] == path[0]
    requires !(|q| <= |path| && q == path[..|q|])
    requires !(|path| + 1 <= |q| && q[..|path| + 1] == path + [x])
    ensures !(|q[1..]| <= |path[1..]| && q[1..] == path[1..][..|q[1..]|])
    ensures !(|path[1..]| + 1 <= |q[1..]| && q[1..][..|path[1..]| + 1] == path[1..] + [x])
  {
    if |q| <= |path| {
      assert path[..|q|] == [path[0]] + path[1..][..|q| - 1];
      assert q == [q[0]] + q[1..];
    }
  }

  /** The item reached from `p` by following child positions. */
  function Below(p: Node, ix: seq<nat>): Option<Node>
    decreases |ix|
  {
    if ix == [] then Some(p)
    else if ix[0] < |p.children| then Below(p.children[ix[0]], ix[1..])
    else None
  }

  /** `p` with the item at the given child positions replaced by `m`, and
      every other item as it was. */
  function ReplaceBelow(p: Node, ix: seq<nat>, m: Node): Node
    decreases |ix|
  {
    if ix == [] then m
    else if ix[0] < |p.children| then
      p.(children := p.children[ix[0] := ReplaceBelow(p.children[ix[0]], ix[1..], m)])
    else p
  }

  /** `add` keeps sibling ids unique at every level. */
  lemma AddWellFormed(ns: seq<Node>, item: Node)
    requires WellFormed(ns) && WellFormedNode(item)
    ensures WellFormed(Add(ns, item))
  {
    var r := Add(ns, item);
    forall k | 0 <= k < |r| ensures WellFormedNode(r[k]) {
      if IndexOfId(ns, item.id).None? {
        if k < |ns| { assert r[k] == ns[k]; }
      }
    }
  }

  /** Adding below a path keeps sibling ids unique at every level. */
  lemma {:induction false} AddAtWellFormed(ns: seq<Node>, path: seq<string>, item: Node)
    requires WellFormed(ns) && WellFormedNode(item)
    ensures WellFormed(AddAt(ns, path, item))
    decreases |path|
  {
    if path != [] && IndexOfId(ns, path[0]).Some? {
      var i := IndexOfId(ns, path[0]).value;
      var n := ns[i];
      assert WellFormedNode(n);
      var kids := if |path| == 1 then Add(n.children, item) else AddAt(n.children, path[1..], item);
      if |path| == 1 {
        AddWellFormed(n.children, item);
      } else {
        AddAtWellFormed(n.children, path[1..], item);
      }
      var r := ns[i := n.(children := kids)];
      assert AddAt(ns, path, item) == r;
      assert WellFormedNode(r[i]);
      assert forall k :: 0 <= k < |r| ==> r[k].id == ns[k].id;
    }
  }

  /** A forest with one more item in front is well formed exactly when the
      item and the rest are and the item's id is not among the rest. */
  lemma WellFormedCons(x: Node, rest: seq<Node>)
    ensures WellFormed([x] + rest) <==> WellFormedNode(x) && WellFormed(rest) && x.id !in Ids(rest)
  {
    var ns := [x] + rest;
    assert forall k :: 0 <= k < |rest| ==> ns[k + 1] == rest[k];
    if WellFormed(ns) {
      assert WellFormedNode(ns[0]);
      forall k | 0 <= k < |rest| ensures rest[k].id != x.id {
        assert ns[k + 1].id != ns[0].id;
      }
    }
    if WellFormedNode(x) && WellFormed(rest) && x.id !in Ids(rest) {
      forall i, j | 0 <= i < j < |ns| ensures ns[i].id != ns[j].id {
        if i == 0 {
          assert Ids(rest)[j - 1] == ns[j].id;
        } else {
          assert ns[i] == rest[i - 1] && ns[j] == rest[j - 1];
        }
      }
      forall k | 0 <= k < |ns| ensures WellFormedNode(ns[k]) {
        if k > 0 { assert ns[k] == rest[k - 1]; }
      }
    }
  }

  /** Removing items keeps sibling ids unique at every level. */
  lemma {:induction false} DeleteWellFormed(ns: seq<Node>, id: string)
    requires WellFormed(ns)
    ensures WellFormed(Delete(ns, id))
  {
    if ns != [] {
      assert WellFormed(ns[1..]) by {
        assert forall k :: 0 <= k < |ns| - 1 ==> ns[1..][k] == ns[k + 1];
      }
      DeleteWellFormed(ns[1..], id);
      var r := Delete(ns, id);
      if ns[0].id != id {
        var t := Delete(ns[1..], id);
        assert r == [ns[0]] + t;
        forall k | 0 < k < |r| ensures ns[0].id != r[k].id {
          assert r[k] in t;
          var j :| 0 <= j < |ns[1..]| && ns[1..][j] == r[k];
          assert ns[j + 1] == r[k];
        }
      }
    }
  }
}
