/** From a run request to runner arguments: `generateRunnerArgs` over the
    tree, the grouping of the paths by workspace folder, and the command
    line of one runner invocation. */
module Selection {
  import opened Common
  import opened Tree

  /** A run request: the ids of the included items (absent when the request
      has no include list, possibly an empty list otherwise) and of the
      excluded items. */
  datatype Request = Request(includes: Option<seq<string>>, excludes: seq<string>)

  /** `generateRunnerArgs(item, includes, excludes)`. With an include list
      an included item gives its path and any other item the concatenation
      of its children's results; with a non-empty exclude list an excluded
      item gives nothing and any other item the concatenation of its
      children's results; with neither the item gives its path. */
  function GenerateRunnerArgs(n: Node, includes: Option<seq<string>>, excludes: seq<string>): seq<string>
    decreases n
  {
    if includes.Some? then
      if n.id in includes.value then [n.uri] else ChildrenArgs(n.children, includes, excludes)
    else if |excludes| > 0 then
      if n.id in excludes then [] else ChildrenArgs(n.children, includes, excludes)
    else [n.uri]
  }

  /** The concatenation of `generateRunnerArgs` over items in order. */
  function ChildrenArgs(cs: seq<Node>, includes: Option<seq<string>>, excludes: seq<string>): seq<string>
    decreases cs
  {
    if cs == [] then [] else GenerateRunnerArgs(cs[0], includes, excludes) + ChildrenArgs(cs[1..], includes, excludes)
  }

  /** The uri paths of the items of `ns` whose id is in `ids`, in order. */
  function UrisIn(ns: seq<Node>, ids: seq<string>): (r: seq<string>)
    ensures |r| <= |ns|
  {
    if ns == [] then []
    else (if ns[0].id in ids then [ns[0].uri] else []) + UrisIn(ns[1..], ids)
  }

  /** The uri paths of `ns`, in order. */
  function Uris(ns: seq<Node>): (r: seq<string>)
    ensures |r| == |ns| && forall k :: 0 <= k < |ns| ==> r[k] == ns[k].uri
  {
    if ns == [] then [] else [ns[0].uri] + Uris(ns[1..])
  }

  lemma {:induction false} UrisInAppend(a: seq<Node>, b: seq<Node>, ids: seq<string>)
    ensures UrisIn(a + b, ids) == UrisIn(a, ids) + UrisIn(b, ids)
    decreases |a|
  {
    if a != [] {
      assert (a + b)[0] == a[0];
      assert (a + b)[1..] == a[1..] + b;
      UrisInAppend(a[1..], b, ids);
    } else {
      assert a + b == b;
    }
  }

  /** Selected items that are not nested in one another. */
  predicate Antichain(ns: seq<Node>, ids: seq<string>) {
    forall d :: d in ns && d.id in ids ==> forall e :: e in Subtrees(d.children) ==> e.id !in ids
  }

  /** Include mode, for a selection whose items are not nested in one
      another: the arguments are the uri paths of the selected items of the
      subtree, in depth-first order. */
  lemma {:induction false} IncludeModeSelected(n: Node, inc: seq<string>, excludes: seq<string>)
    requires Antichain(SubtreesOf(n), inc)
    ensures GenerateRunnerArgs(n, Some(inc), excludes) == UrisIn(SubtreesOf(n), inc)
    decreases n, 1
  {
    assert SubtreesOf(n) == [n] + Subtrees(n.children);
    assert n in SubtreesOf(n);
    if n.id in inc {
      NoneSelected(n.children, inc);
    } else {
      assert forall d :: d in Subtrees(n.children) ==> d in SubtreesOf(n);
      ChildrenIncludeSelected(n.children, inc, excludes);
    }
  }

  lemma {:induction false} ChildrenIncludeSelected(cs: seq<Node>, inc: seq<string>, excludes: seq<string>)
    requires Antichain(Subtrees(cs), inc)
    ensures ChildrenArgs(cs, Some(inc), excludes) == UrisIn(Subtrees(cs), inc)
    decreases cs
  {
    if cs != [] {
      assert Subtrees(cs) == SubtreesOf(cs[0]) + Subtrees(cs[1..]);
      IncludeModeSelected(cs[0], inc, excludes);
      ChildrenIncludeSelected(cs[1..], inc, excludes);
      UrisInAppend(SubtreesOf(cs[0]), Subtrees(cs[1..]), inc);
    }
  }

  lemma {:induction false} NoneSelected(cs: seq<Node>, inc: seq<string>)
    requires forall e :: e in Subtrees(cs) ==> e.id !in inc
    ensures UrisIn(Subtrees(cs), inc) == []
    decreases |Subtrees(cs)|
  {
    var s := Subtrees(cs);
    if s != [] {
      assert s[0] in s;
      assert forall e :: e in s[1..] ==> e in s;
      NoneSelectedIn(s, inc);
    }
  }

  lemma {:induction false} NoneSelectedIn(s: seq<Node>, inc: seq<string>)
    requires forall e :: e in s ==> e.id !in inc
    ensures UrisIn(s, inc) == []
    decreases |s|
  {
    if s != [] {
      assert s[0] in s;
      assert forall e :: e in s[1..] ==> e in s;
      NoneSelectedIn(s[1..], inc);
    }
  }

  /** Include mode, whatever the selection: every argument is the uri path
      of a selected item of the subtree. */
  lemma {:induction false} IncludeModeSound(n: Node, inc: seq<string>, excludes: seq<string>)
    ensures forall x :: x in GenerateRunnerArgs(n, Some(inc), excludes) ==>
      exists d :: d in SubtreesOf(n) && d.id in inc && d.uri == x
    decreases n, 1
  {
    if n.id !in inc {
      ChildrenIncludeSound(n.children, inc, excludes);
      assert SubtreesOf(n) == [n] + Subtrees(n.children);
    }
  }

  lemma {:induction false} ChildrenIncludeSound(cs: seq<Node>, inc: seq<string>, excludes: seq<string>)
    ensures forall x :: x in ChildrenArgs(cs, Some(inc), excludes) ==>
      exists d :: d in Subtrees(cs) && d.id in inc && d.uri == x
    decreases cs
  {
    if cs != [] {
      IncludeModeSound(cs[0], inc, excludes);
      ChildrenIncludeSound(cs[1..], inc, excludes);
      assert Subtrees(cs) == SubtreesOf(cs[0]) + Subtrees(cs[1..]);
    }
  }

  /** Exclude mode as written: no item, leaf or not, ever gives a path, so
      a request with only an exclude list produces no arguments at all. */
  lemma {:induction false} ExcludeModeEmpty(n: Node, excludes: seq<string>)
    requires |excludes| > 0
    ensures GenerateRunnerArgs(n, None, excludes) == []
    decreases n, 1
  {
    if n.id !in excludes {
      ChildrenExcludeEmpty(n.children, excludes);
    }
  }

  lemma {:induction false} ChildrenExcludeEmpty(cs: seq<Node>, excludes: seq<string>)
    requires |excludes| > 0
    ensures ChildrenArgs(cs, None, excludes) == []
    decreases cs
  {
    if cs != [] {
      ExcludeModeEmpty(cs[0], excludes);
      ChildrenExcludeEmpty(cs[1..], excludes);
    }
  }

  /** Neither list: one path per root item, its own, in order. */
  lemma {:induction false} NoSelectionRoots(roots: seq<Node>)
    ensures ChildrenArgs(roots, None, []) == Uris(roots)
    decreases |roots|
  {
    if roots != [] {
      NoSelectionRoots(roots[1..]);
    }
  }

  // ---------------------------------------------------------------------
  // The run handler's loops over the tree and the argument paths.

  /** Lines 151-157: `generateRunnerArgs` over every root item, the
      non-empty results concatenated in order. */
  method CollectRunnerArgs(roots: seq<Node>, request: Request) returns (runnerArgs: seq<string>)
    ensures runnerArgs == ChildrenArgs(roots, request.includes, request.excludes)
  {
    runnerArgs := [];
    var k := 0;
    while k < |roots|
      invariant 0 <= k <= |roots|
      invariant runnerArgs + ChildrenArgs(roots[k..], request.includes, request.excludes) ==
        ChildrenArgs(roots, request.includes, request.excludes)
    {
      assert roots[k..][1..] == roots[k + 1..];
      var generated := GenerateRunnerArgs(roots[k], request.includes, request.excludes);
      if |generated| > 0 {
        runnerArgs := runnerArgs + generated;
      }
      k := k + 1;
    }
  }

  /** The distinct workspace folders of the paths, in order of first
      appearance; paths outside every folder are skipped. */
  function Workspaces(paths: seq<string>, workspaceOf: string -> Option<string>): (r: seq<string>)
    decreases |paths|
  {
    if paths == [] then []
    else
      var init := Workspaces(paths[..|paths| - 1], workspaceOf);
      var w := workspaceOf(paths[|paths| - 1]);
      if w.Some? && w.value !in init then init + [w.value] else init
  }

  /** Each folder occurs once, and a folder occurs exactly when some path
      lies in it. Adding paths only extends the list at the end. */
  lemma {:induction false} WorkspacesSpec(paths: seq<string>, workspaceOf: string -> Option<string>)
    ensures var r := Workspaces(paths, workspaceOf);
      (forall i, j :: 0 <= i < j < |r| ==> r[i] != r[j]) &&
      (forall w :: w in r <==> exists k :: 0 <= k < |paths| && workspaceOf(paths[k]) == Some(w))
    decreases |paths|
  {
    if paths != [] {
      var init := paths[..|paths| - 1];
      WorkspacesSpec(init, workspaceOf);
      assert forall k :: 0 <= k < |init| ==> init[k] == paths[k];
      forall w | exists k :: 0 <= k < |paths| && workspaceOf(paths[k]) == Some(w)
        ensures w in Workspaces(paths, workspaceOf)
      {
        var k :| 0 <= k < |paths| && workspaceOf(paths[k]) == Some(w);
        if k < |init| {
          assert workspaceOf(init[k]) == Some(w);
        }
      }
    }
  }

  lemma {:induction false} WorkspacesPrefix(paths: seq<string>, n: nat, workspaceOf: string -> Option<string>)
    requires n <= |paths|
    ensures var p := Workspaces(paths[..n], workspaceOf);
      |p| <= |Workspaces(paths, workspaceOf)| && Workspaces(paths, workspaceOf)[..|p|] == p
    decreases |paths| - n
  {
    if n < |paths| {
      WorkspacesPrefix(paths, n + 1, workspaceOf);
      assert paths[..n + 1][..n] == paths[..n];
      assert paths[..n + 1][n] == paths[n];
    } else {
      assert paths[..n] == paths;
    }
  }

  /** Lines 159-165: the loop that collects the workspace folders. */
  method CollectWorkspaces(paths: seq<string>, workspaceOf: string -> Option<string>) returns (workspaces: seq<string>)
    ensures workspaces == Workspaces(paths, workspaceOf)
  {
    workspaces := [];
    var k := 0;
    while k < |paths|
      invariant 0 <= k <= |paths|
      invariant workspaces == Workspaces(paths[..k], workspaceOf)
    {
      assert paths[..k + 1][..k] == paths[..k];
      var w := workspaceOf(paths[k]);
      if w.Some? && w.value !in workspaces {
        workspaces := workspaces + [w.value];
      }
      k := k + 1;
    }
    assert paths[..k] == paths;
  }

  /** The paths that lie in the workspace folder `workspace`, in order. */
  function PathsIn(paths: seq<string>, workspace: string, workspaceOf: string -> Option<string>): (r: seq<string>)
    ensures forall p :: p in r <==> p in paths && workspaceOf(p) == Some(workspace)
    ensures |r| <= |paths|
    decreases |paths|
  {
    if paths == [] then []
    else
      var init := PathsIn(paths[..|paths| - 1], workspace, workspaceOf);
      assert forall p :: p in paths <==> p in paths[..|paths| - 1] || p == paths[|paths| - 1];
      if workspaceOf(paths[|paths| - 1]) == Some(workspace) then init + [paths[|paths| - 1]] else init
  }

  /** The group keeps the order of the paths and their repetitions: over two
      lists laid end to end it is the group of each, one after the other. */
  lemma {:induction false} PathsInAppend(a: seq<string>, b: seq<string>, workspace: string, workspaceOf: string -> Option<string>)
    ensures PathsIn(a + b, workspace, workspaceOf) == PathsIn(a, workspace, workspaceOf) + PathsIn(b, workspace, workspaceOf)
    decreases |b|
  {
    if b == [] {
      assert a + b == a;
    } else {
      var c, init, last := a + b, b[..|b| - 1], b[|b| - 1];
      assert c[..|c| - 1] == a + init && c[|c| - 1] == last;
      var mine := if workspaceOf(last) == Some(workspace) then [last] else [];
      assert PathsIn(c, workspace, workspaceOf) == PathsIn(a + init, workspace, workspaceOf) + mine;
      assert PathsIn(b, workspace, workspaceOf) == PathsIn(init, workspace, workspaceOf) + mine;
      PathsInAppend(a, init, workspace, workspaceOf);
    }
  }

  /** Lines 167-172: the loop that keeps one folder's paths. */
  method CollectPathsIn(paths: seq<string>, workspace: string, workspaceOf: string -> Option<string>) returns (args: seq<string>)
    ensures args == PathsIn(paths, workspace, workspaceOf)
  {
    args := [];
    var k := 0;
    while k < |paths|
      invariant 0 <= k <= |paths|
      invariant args == PathsIn(paths[..k], workspace, workspaceOf)
    {
      assert paths[..k + 1][..k] == paths[..k];
      if workspaceOf(paths[k]) == Some(workspace) {
        args := args + [paths[k]];
      }
      k := k + 1;
    }
    assert paths[..k] == paths;
  }

  /** Every path with a folder goes to exactly one of the per-folder groups,
      and a path outside every folder goes to none. */
  lemma GroupsPartition(paths: seq<string>, workspaceOf: string -> Option<string>)
    ensures forall p, w :: p in paths && w in Workspaces(paths, workspaceOf) ==>
      (p in PathsIn(paths, w, workspaceOf) <==> workspaceOf(p) == Some(w))
    ensures forall p :: p in paths && workspaceOf(p).Some? ==> workspaceOf(p).value in Workspaces(paths, workspaceOf)
  {
    WorkspacesSpec(paths, workspaceOf);
    forall p | p in paths && workspaceOf(p).Some?
      ensures workspaceOf(p).value in Workspaces(paths, workspaceOf)
    {
      var k :| 0 <= k < |paths| && paths[k] == p;
      assert workspaceOf(paths[k]) == Some(workspaceOf(p).value);
    }
  }

  /** What `execCrystal` is given: the workspace folder to run in and the
      arguments of the compiler. */
  datatype Invocation = Invocation(cwd: string, args: seq<string>)

  /** `["spec", "--junit_output", tmp]`, followed by the paths only when
      there are some (lines 107-110 and 131-134). */
  function CommandArgs(tempFolder: string, args: seq<string>): seq<string> {
    var commandArgs := ["spec", "--junit_output", tempFolder];
    if |args| > 0 then commandArgs + args else commandArgs
  }

  /** The emptiness test makes no difference: the command line is always
      the three fixed words followed by exactly the paths. */
  lemma CommandArgsShape(tempFolder: string, args: seq<string>)
    ensures |CommandArgs(tempFolder, args)| == 3 + |args|
    ensures CommandArgs(tempFolder, args)[..3] == ["spec", "--junit_output", tempFolder]
    ensures CommandArgs(tempFolder, args)[3..] == args
  {
  }
}
