/** `CrystalTestingProvider` as the owner of the test tree: the root items of
    the test controller and the list of spec-enabled workspace folders, with
    the operations and event handlers that change them. Each operation is a
    method over the fields, proved against the functions of the tree before
    the call that the other modules define and reason about. */
module Provider {
  import opened Common
  import opened Tree
  import opened Junit
  import opened Discovery
  import opened Deletion
  import opened Selection

  /** `refreshSpecWorkspaceFolders`: the workspace folders, in order, that
      hold both a `shard.yml` and a `spec` entry. */
  function SpecFolders(folders: seq<string>, isSpecProject: string -> bool): (r: seq<string>)
    ensures forall f :: f in r <==> f in folders && isSpecProject(f)
    ensures |r| <= |folders|
    decreases |folders|
  {
    if folders == [] then []
    else
      var init := SpecFolders(folders[..|folders| - 1], isSpecProject);
      var last := folders[|folders| - 1];
      assert forall f :: f in folders <==> f in folders[..|folders| - 1] || f == last;
      if isSpecProject(last) then init + [last] else init
  }

  /** The spec folders keep the order of the workspace folders and their
      repetitions: over two lists laid end to end they are the spec folders
      of each, one after the other. */
  lemma {:induction false} SpecFoldersAppend(a: seq<string>, b: seq<string>, isSpecProject: string -> bool)
    ensures SpecFolders(a + b, isSpecProject) == SpecFolders(a, isSpecProject) + SpecFolders(b, isSpecProject)
    decreases |b|
  {
    if b == [] {
      assert a + b == a;
    } else {
      var c, init, last := a + b, b[..|b| - 1], b[|b| - 1];
      assert c[..|c| - 1] == a + init && c[|c| - 1] == last;
      var kept := if isSpecProject(last) then [last] else [];
      assert SpecFolders(c, isSpecProject) == SpecFolders(a + init, isSpecProject) + kept;
      assert SpecFolders(b, isSpecProject) == SpecFolders(init, isSpecProject) + kept;
      SpecFoldersAppend(a, init, isSpecProject);
    }
  }

  /** `isSpecFile`: the name ends in `_spec.cr` and the file lies in one of
      the spec-enabled folders. */
  predicate SpecFile(file: string, folders: seq<string>, workspaceOf: string -> Option<string>) {
    EndsWith(file, "_spec.cr") && workspaceOf(file).Some? && workspaceOf(file).value in folders
  }

  /** The invocation `getTestCases(workspace, args)` hands to `execCrystal`. */
  function Invoke(workspace: string, args: seq<string>, tempFolder: string): Invocation {
    Invocation(workspace, CommandArgs(tempFolder, args))
  }

  /** The end of `getTestCases`' promise chain: the tree after it and the
      state of the promise. A runner that never settles leaves the tree and
      the promise as they are, a rejection anywhere on the way rejects, and a
      parsed suite goes to `convertJunitTestcases`. */
  function Discover(items: seq<Node>, outcome: Delivery, workspaceOf: string -> Option<string>): (seq<Node>, Settlement<()>) {
    match outcome
    case NeverSettles => (items, Pending)
    case Failure(e) => (items, Rejected(e))
    case Parsed(suite) => Convert(items, suite, workspaceOf)
  }

  /** Only a parsed suite with tests can change the tree; the promise stays
      pending exactly when the runner never settles or the suite has no
      tests, and resolves exactly when every test case is inserted. Sibling
      ids stay unique. */
  lemma DiscoverSpec(items: seq<Node>, outcome: Delivery, workspaceOf: string -> Option<string>)
    ensures Discover(items, outcome, workspaceOf).0 != items ==> outcome.Parsed? && outcome.suite.tests != 0
    ensures Discover(items, outcome, workspaceOf).1.Pending? <==>
      outcome.NeverSettles? || (outcome.Parsed? && outcome.suite.tests == 0)
    ensures Discover(items, outcome, workspaceOf).1.Resolved? <==>
      outcome.Parsed? && outcome.suite.tests != 0 && InsertCases(items, outcome.suite.testcase, workspaceOf).1.None?
    ensures WellFormed(items) ==> WellFormed(Discover(items, outcome, workspaceOf).0)
  {
    if outcome.Parsed? && WellFormed(items) {
      InsertCasesWellFormed(items, outcome.suite.testcase, workspaceOf);
    }
  }

  /** The tree after `refreshTestCases` and the invocations it made. */
  datatype Refreshed = Refreshed(items: seq<Node>, invoked: seq<Invocation>)

  /** `refreshTestCases` from the `i`-th folder on: each discovery is
      awaited, and the first one that does not resolve ends the loop. */
  function RefreshFrom(items: seq<Node>, folders: seq<string>, i: nat, tempFolder: nat -> string,
                       deliver: Invocation -> Delivery, workspaceOf: string -> Option<string>): Refreshed
    decreases |folders| - i
  {
    if i >= |folders| then Refreshed(items, [])
    else
      var inv := Invoke(folders[i], [], tempFolder(i));
      var d := Discover(items, deliver(inv), workspaceOf);
      if d.1.Resolved? then
        var rest := RefreshFrom(d.0, folders, i + 1, tempFolder, deliver, workspaceOf);
        Refreshed(rest.items, [inv] + rest.invoked)
      else Refreshed(d.0, [inv])
  }

  /** One folder of `refreshTestCases`. */
  lemma RefreshFromStep(items: seq<Node>, folders: seq<string>, i: nat, tempFolder: nat -> string,
                        deliver: Invocation -> Delivery, workspaceOf: string -> Option<string>)
    requires i < |folders|
    ensures var inv := Invoke(folders[i], [], tempFolder(i));
      var d := Discover(items, deliver(inv), workspaceOf);
      RefreshFrom(items, folders, i, tempFolder, deliver, workspaceOf) ==
        if d.1.Resolved? then
          var rest := RefreshFrom(d.0, folders, i + 1, tempFolder, deliver, workspaceOf);
          Refreshed(rest.items, [inv] + rest.invoked)
        else Refreshed(d.0, [inv])
  {
  }

  /** One folder of `refreshTestCases`, given the tree `after` and the
      state `s` that its discovery leaves. */
  lemma RefreshAdvance(before: seq<Node>, folders: seq<string>, i: nat, tempFolder: nat -> string,
                       deliver: Invocation -> Delivery, workspaceOf: string -> Option<string>,
                       inv: Invocation, after: seq<Node>, s: Settlement<()>)
    requires i < |folders| && inv == Invoke(folders[i], [], tempFolder(i))
    requires (after, s) == Discover(before, deliver(inv), workspaceOf)
    ensures !s.Resolved? ==> RefreshFrom(before, folders, i, tempFolder, deliver, workspaceOf) == Refreshed(after, [inv])
    ensures s.Resolved? ==>
      var rest := RefreshFrom(after, folders, i + 1, tempFolder, deliver, workspaceOf);
      RefreshFrom(before, folders, i, tempFolder, deliver, workspaceOf) == Refreshed(rest.items, [inv] + rest.invoked)
  {
    RefreshFromStep(before, folders, i, tempFolder, deliver, workspaceOf);
  }

  /** The folders are visited in order, each once, with no paths after the
      three fixed words, and no later than the first that does not resolve. */
  lemma {:induction false} RefreshInvocations(items: seq<Node>, folders: seq<string>, i: nat, tempFolder: nat -> string,
                                              deliver: Invocation -> Delivery, workspaceOf: string -> Option<string>)
    requires i <= |folders|
    ensures var r := RefreshFrom(items, folders, i, tempFolder, deliver, workspaceOf);
      && |r.invoked| <= |folders| - i
      && forall k :: 0 <= k < |r.invoked| ==> r.invoked[k] == Invocation(folders[i + k], ["spec", "--junit_output", tempFolder(i + k)])
    decreases |folders| - i
  {
    if i < |folders| {
      var inv := Invoke(folders[i], [], tempFolder(i));
      var d := Discover(items, deliver(inv), workspaceOf);
      RefreshFromStep(items, folders, i, tempFolder, deliver, workspaceOf);
      if d.1.Resolved? {
        RefreshInvocations(d.0, folders, i + 1, tempFolder, deliver, workspaceOf);
        var rest := RefreshFrom(d.0, folders, i + 1, tempFolder, deliver, workspaceOf);
        assert RefreshFrom(items, folders, i, tempFolder, deliver, workspaceOf).invoked == [inv] + rest.invoked;
      }
    }
  }

  /** A folder whose runner never settles or fails stops the refresh there,
      whatever the earlier discoveries did to the tree. */
  lemma {:induction false} RefreshStopsAt(items: seq<Node>, folders: seq<string>, i: nat, j: nat, tempFolder: nat -> string,
                                          deliver: Invocation -> Delivery, workspaceOf: string -> Option<string>)
    requires i <= j < |folders|
    requires !deliver(Invoke(folders[j], [], tempFolder(j))).Parsed?
    ensures |RefreshFrom(items, folders, i, tempFolder, deliver, workspaceOf).invoked| <= j - i + 1
    decreases j - i
  {
    var inv := Invoke(folders[i], [], tempFolder(i));
    var d := Discover(items, deliver(inv), workspaceOf);
    if i < j && d.1.Resolved? {
      RefreshStopsAt(d.0, folders, i + 1, j, tempFolder, deliver, workspaceOf);
    }
  }

  /** Removing several workspace folders, one after the other. */
  function DeleteWorkspaces(items: seq<Node>, removed: seq<string>): seq<Node>
    decreases |removed|
  {
    if removed == [] then items else DeleteWorkspaces(DeleteWorkspace(items, removed[0]), removed[1..])
  }

  /** Starting one discovery per added folder; none waits for another, so a
      failure does not stop the others. */
  function DiscoverEach(items: seq<Node>, added: seq<string>, i: nat, tempFolder: nat -> string,
                        deliver: Invocation -> Delivery, workspaceOf: string -> Option<string>): seq<Node>
    decreases |added| - i
  {
    if i >= |added| then items
    else DiscoverEach(Discover(items, deliver(Invoke(added[i], [], tempFolder(i))), workspaceOf).0, added, i + 1, tempFolder, deliver, workspaceOf)
  }

  /** Lines 394-399: the first child of the parent whose id is `fullPath`. */
  method MatchChild(children: seq<Node>, fullPath: string) returns (childMatch: Option<Node>)
    ensures childMatch == Get(children, fullPath)
  {
    childMatch := None;
    var k := 0;
    while k < |children|
      invariant 0 <= k <= |children|
      invariant childMatch == Get(children[..k], fullPath)
    {
      if childMatch.None? && children[k].id == fullPath {
        childMatch := Some(children[k]);
      }
      GetSnoc(children[..k], children[k], fullPath);
      assert children[..k + 1] == children[..k] + [children[k]];
      k := k + 1;
    }
    assert children[..k] == children;
  }

  class TestProvider {
    /** `controller.items`. */
    var items: seq<Node>
    /** `workspaceFolders`, by path. */
    var workspaceFolders: seq<string>

    /** Sibling ids are unique at every level of the tree. */
    ghost predicate Valid()
      reads this
    {
      WellFormed(items)
    }

    /** `isSpecFile(file)`. */
    predicate IsSpecFile(file: string, workspaceOf: string -> Option<string>)
      reads this
    {
      SpecFile(file, workspaceFolders, workspaceOf)
    }

    /** The constructor: with the `specs` setting off nothing is set up;
        otherwise the spec folders are found and discovered in order. */
    constructor(specs: bool, folders: seq<string>, isSpecProject: string -> bool, tempFolder: nat -> string,
                deliver: Invocation -> Delivery, workspaceOf: string -> Option<string>)
      ensures Valid()
      ensures !specs ==> items == [] && workspaceFolders == []
      ensures specs ==> workspaceFolders == SpecFolders(folders, isSpecProject)
      ensures specs ==> items == RefreshFrom([], workspaceFolders, 0, tempFolder, deliver, workspaceOf).items
    {
      items := [];
      workspaceFolders := [];
      new;
      if specs {
        RefreshSpecWorkspaceFolders(folders, isSpecProject);
        var invoked := RefreshTestCases(tempFolder, deliver, workspaceOf);
      }
    }

    /** Lines 59-68: keeps the folders that are Crystal projects with specs. */
    method RefreshSpecWorkspaceFolders(folders: seq<string>, isSpecProject: string -> bool)
      modifies this
      ensures workspaceFolders == SpecFolders(folders, isSpecProject)
      ensures items == old(items)
    {
      var found := [];
      var k := 0;
      while k < |folders|
        invariant 0 <= k <= |folders|
        invariant found == SpecFolders(folders[..k], isSpecProject)
      {
        assert folders[..k + 1][..k] == folders[..k];
        if isSpecProject(folders[k]) {
          found := found + [folders[k]];
        }
        k := k + 1;
      }
      assert folders[..k] == folders;
      workspaceFolders := found;
    }

    /** Lines 75-81: discovers every spec folder in order, waiting for each. */
    method RefreshTestCases(tempFolder: nat -> string, deliver: Invocation -> Delivery, workspaceOf: string -> Option<string>)
      returns (invoked: seq<Invocation>)
      requires Valid()
      modifies this
      ensures Valid()
      ensures workspaceFolders == old(workspaceFolders)
      ensures var r := RefreshFrom(old(items), workspaceFolders, 0, tempFolder, deliver, workspaceOf);
        items == r.items && invoked == r.invoked
    {
      ghost var total := RefreshFrom(items, workspaceFolders, 0, tempFolder, deliver, workspaceOf);
      invoked := [];
      var i := 0;
      while i < |workspaceFolders|
        invariant 0 <= i <= |workspaceFolders|
        invariant Valid() && workspaceFolders == old(workspaceFolders)
        invariant var rest := RefreshFrom(items, workspaceFolders, i, tempFolder, deliver, workspaceOf);
          total == Refreshed(rest.items, invoked + rest.invoked)
      {
        ghost var before := items;
        var inv, s := GetTestCases(workspaceFolders[i], [], tempFolder(i), deliver, workspaceOf);
        RefreshAdvance(before, workspaceFolders, i, tempFolder, deliver, workspaceOf, inv, items, s);
        ghost var done := invoked;
        invoked := invoked + [inv];
        if !s.Resolved? {
          return;
        }
        ghost var rest := RefreshFrom(items, workspaceFolders, i + 1, tempFolder, deliver, workspaceOf);
        assert done + ([inv] + rest.invoked) == invoked + rest.invoked;
        i := i + 1;
      }
    }

    /** Lines 83-94: clears the item `getChild` finds below each root item,
        or else drops the root item whose own id matches. */
    method DeleteTestItem(id: string)
      modifies this
      ensures items == DeleteItem(old(items), id)
      ensures workspaceFolders == old(workspaceFolders)
      ensures old(Valid()) ==> Valid()
    {
      var roots := items;
      var kept := [];
      var k := 0;
      while k < |roots|
        invariant 0 <= k <= |roots|
        invariant kept == DeleteItem(roots[..k], id)
        invariant items == roots && workspaceFolders == old(workspaceFolders)
      {
        var child := roots[k];
        var item := GetChild(id, child);
        if item.Some? {
          kept := kept + [ClearIn(id, child)];
        } else if child.id != id {
          kept := kept + [child];
        }
        DeleteItemAppend(roots[..k], [child], id);
        assert DeleteItem([child], id) == Entry(child, id) + DeleteItem([], id);
        assert roots[..k + 1] == roots[..k] + [child];
        k := k + 1;
      }
      assert roots[..k] == roots;
      items := kept;
      if old(Valid()) {
        DeleteItemWellFormed(roots, id);
      }
    }

    /** Lines 96-102: `deleteTestItem` on every root item whose uri lies under
        the folder. */
    method DeleteWorkspaceChildren(workspace: string)
      modifies this
      ensures items == DeleteWorkspace(old(items), workspace)
      ensures workspaceFolders == old(workspaceFolders)
      ensures old(Valid()) ==> Valid()
    {
      var rootIds := Ids(items);
      if Valid() {
        DeleteWorkspaceFromWellFormed(items, rootIds, workspace);
      }
      var k := 0;
      while k < |rootIds|
        invariant 0 <= k <= |rootIds|
        invariant DeleteWorkspaceFrom(items, rootIds[k..], workspace) == DeleteWorkspace(old(items), workspace)
        invariant workspaceFolders == old(workspaceFolders)
      {
        assert rootIds[k..][1..] == rootIds[k + 1..];
        ghost var visited := Visit(items, rootIds[k], workspace);
        var child := Get(items, rootIds[k]);
        if child.Some? && StartsWith(child.value.uri, workspace) {
          DeleteTestItem(child.value.uri);
        }
        assert items == visited;
        k := k + 1;
      }
    }

    /** Lines 104-126: runs the compiler on the folder (and the given paths)
        and adds what it reports to the tree. */
    method GetTestCases(workspace: string, args: seq<string>, tempFolder: string,
                        deliver: Invocation -> Delivery, workspaceOf: string -> Option<string>)
      returns (invocation: Invocation, s: Settlement<()>)
      requires Valid()
      modifies this
      ensures Valid()
      ensures workspaceFolders == old(workspaceFolders)
      ensures invocation == Invocation(workspace, CommandArgs(tempFolder, args))
      ensures (items, s) == Discover(old(items), deliver(invocation), workspaceOf)
    {
      var commandArgs := ["spec", "--junit_output", tempFolder];
      if |args| > 0 {
        commandArgs := commandArgs + args;
      }
      invocation := Invocation(workspace, commandArgs);
      match deliver(invocation)
      case NeverSettles =>
        s := Pending;
      case Failure(e) =>
        s := Rejected(e);
      case Parsed(suite) =>
        s := ConvertJunitTestcases(suite, workspaceOf);
    }

    /** Lines 347-430. */
    method ConvertJunitTestcases(suite: TestSuite, workspaceOf: string -> Option<string>) returns (s: Settlement<()>)
      requires Valid()
      modifies this
      ensures Valid()
      ensures workspaceFolders == old(workspaceFolders)
      ensures (items, s) == Convert(old(items), suite, workspaceOf)
    {
      if suite.tests == 0 {
        return Pending;
      }
      var cases := suite.testcase;
      var k := 0;
      while k < |cases|
        invariant 0 <= k <= |cases|
        invariant Valid() && workspaceFolders == old(workspaceFolders)
        invariant InsertCases(items, cases[k..], workspaceOf) == InsertCases(old(items), cases, workspaceOf)
      {
        assert cases[k..][0] == cases[k] && cases[k..][1..] == cases[k + 1..];
        InsertCasesStep(items, cases[k..], workspaceOf);
        var err := InsertTestCase(cases[k], workspaceOf);
        if err.Some? {
          return Rejected(err.value);
        }
        k := k + 1;
      }
      s := Resolved(());
    }

    /** Lines 355-424: the body of the per-test-case loop. */
    method InsertTestCase(tc: TestCase, workspaceOf: string -> Option<string>) returns (err: Option<string>)
      requires Valid()
      modifies this
      ensures Valid()
      ensures workspaceFolders == old(workspaceFolders)
      ensures InsertCase(old(items), tc, workspaceOf).Ok? ==> err.None? && items == InsertCase(old(items), tc, workspaceOf).value
      ensures InsertCase(old(items), tc, workspaceOf).Err? ==>
        err == Some(InsertCase(old(items), tc, workspaceOf).message) && items == old(items)
    {
      InsertCaseWellFormed(items, tc, workspaceOf);
      if tc.line.Some? && tc.line.value - 1 < 0 {
        return Some(LineError);
      }
      var ws := workspaceOf(tc.file);
      if ws.None? {
        return Some(NoWorkspaceError);
      }
      var parent, fullPath := WalkSegments(ws.value, SegmentsOf(tc.file, ws.value));
      match parent
      case None =>
        err := Some(NoParentError);
      case Some(p) =>
        items := AddAt(items, p, TestItem(tc));
        err := None;
    }

    /** Lines 375-418: the segment loop, from the workspace's `spec`
        directory and no parent. */
    method WalkSegments(workspace: string, segs: seq<string>) returns (parent: Option<seq<string>>, fullPath: string)
      modifies this
      ensures workspaceFolders == old(workspaceFolders)
      ensures Walker(items, parent, fullPath) == Walk(Walker(old(items), None, SpecDir(workspace)), segs)
      ensures parent.None? ==> items == old(items)
    {
      fullPath := SpecDir(workspace);
      parent := None;
      ghost var walked := Walk(Walker(items, None, fullPath), segs);
      var k := 0;
      while k < |segs|
        invariant 0 <= k <= |segs|
        invariant workspaceFolders == old(workspaceFolders)
        invariant Walk(Walker(items, parent, fullPath), segs[k..]) == walked
        invariant k > 0 ==> parent.Some?
        invariant k == 0 ==> items == old(items)
      {
        assert segs[k..][0] == segs[k] && segs[k..][1..] == segs[k + 1..];
        parent, fullPath := VisitSegment(parent, fullPath, segs[k]);
        k := k + 1;
      }
    }

    /** Lines 381-417: one iteration of the segment loop. */
    method VisitSegment(parent: Option<seq<string>>, fullPath: string, node: string)
      returns (nextParent: Option<seq<string>>, nextPath: string)
      modifies this
      ensures workspaceFolders == old(workspaceFolders)
      ensures Walker(items, nextParent, nextPath) == Step(Walker(old(items), parent, fullPath), node)
      ensures nextParent.Some?
    {
      nextPath := fullPath + [Sep] + node;
      var existing := Get(items, nextPath);
      if existing.Some? {
        nextParent := Some([nextPath]);
      } else if parent.Some? {
        var kids := match At(items, parent.value) case Some(p) => p.children case None => [];
        var childMatch := MatchChild(kids, nextPath);
        if childMatch.None? {
          items := AddAt(items, parent.value, Directory(nextPath, node));
        }
        nextParent := Some(parent.value + [nextPath]);
      } else {
        items := Add(items, Directory(nextPath, node));
        nextParent := Some([nextPath]);
      }
    }

    /** Lines 26-31: saving a spec file drops what the tree knew of it and
        discovers that file again. */
    method OnSave(scheme: string, path: string, tempFolder: string,
                  deliver: Invocation -> Delivery, workspaceOf: string -> Option<string>)
      returns (discovery: Option<(Invocation, Settlement<()>)>)
      requires Valid()
      modifies this
      ensures Valid()
      ensures workspaceFolders == old(workspaceFolders)
      ensures !(scheme == "file" && IsSpecFile(path, workspaceOf)) ==> discovery.None? && items == old(items)
      ensures scheme == "file" && IsSpecFile(path, workspaceOf) ==>
        var inv := Invoke(workspaceOf(path).value, [path], tempFolder);
        var d := Discover(DeleteItem(old(items), path), deliver(inv), workspaceOf);
        discovery == Some((inv, d.1)) && items == d.0
    {
      discovery := None;
      if scheme == "file" && IsSpecFile(path, workspaceOf) {
        DeleteTestItem(path);
        var inv, s := GetTestCases(workspaceOf(path).value, [path], tempFolder, deliver, workspaceOf);
        discovery := Some((inv, s));
      }
    }

    /** Lines 33-43: the folder list is refreshed, every removed folder's
        items are deleted, and each added folder is discovered. */
    method OnWorkspaceFoldersChanged(folders: seq<string>, isSpecProject: string -> bool, added: seq<string>, removed: seq<string>,
                                     tempFolder: nat -> string, deliver: Invocation -> Delivery, workspaceOf: string -> Option<string>)
      requires Valid()
      modifies this
      ensures Valid()
      ensures workspaceFolders == SpecFolders(folders, isSpecProject)
      ensures items == DiscoverEach(DeleteWorkspaces(old(items), removed), added, 0, tempFolder, deliver, workspaceOf)
    {
      RefreshSpecWorkspaceFolders(folders, isSpecProject);
      var k := 0;
      while k < |removed|
        invariant 0 <= k <= |removed|
        invariant Valid() && workspaceFolders == SpecFolders(folders, isSpecProject)
        invariant DeleteWorkspaces(items, removed[k..]) == DeleteWorkspaces(old(items), removed)
      {
        assert removed[k..][0] == removed[k] && removed[k..][1..] == removed[k + 1..];
        DeleteWorkspaceChildren(removed[k]);
        k := k + 1;
      }
      ghost var cleared := items;
      var i := 0;
      while i < |added|
        invariant 0 <= i <= |added|
        invariant Valid() && workspaceFolders == SpecFolders(folders, isSpecProject)
        invariant DiscoverEach(items, added, i, tempFolder, deliver, workspaceOf) == DiscoverEach(cleared, added, 0, tempFolder, deliver, workspaceOf)
      {
        var inv, s := GetTestCases(added[i], [], tempFolder(i), deliver, workspaceOf);
        i := i + 1;
      }
    }

    /** Lines 45-51: the refresh handler empties the tree and discovers every
        spec folder again. */
    method Refresh(folders: seq<string>, isSpecProject: string -> bool, tempFolder: nat -> string,
                   deliver: Invocation -> Delivery, workspaceOf: string -> Option<string>)
      returns (invoked: seq<Invocation>)
      requires Valid()
      modifies this
      ensures Valid()
      ensures workspaceFolders == SpecFolders(folders, isSpecProject)
      ensures var r := RefreshFrom([], workspaceFolders, 0, tempFolder, deliver, workspaceOf);
        items == r.items && invoked == r.invoked
    {
      RefreshSpecWorkspaceFolders(folders, isSpecProject);
      DeleteAllItems();
      invoked := RefreshTestCases(tempFolder, deliver, workspaceOf);
    }

    /** The `forEach` over the roots at lines 47-49: each root is deleted by
        its id, which leaves the forest empty. */
    method DeleteAllItems()
      requires Valid()
      modifies this
      ensures Valid() && items == [] && workspaceFolders == old(workspaceFolders)
    {
      var roots := items;
      var k := 0;
      while k < |roots|
        invariant 0 <= k <= |roots|
        invariant items == roots[k..] && UniqueIds(items)
        invariant workspaceFolders == old(workspaceFolders)
      {
        DeleteFirst(items);
        assert roots[k..][1..] == roots[k + 1..];
        items := Delete(items, roots[k].id);
        k := k + 1;
      }
    }
  }
}
