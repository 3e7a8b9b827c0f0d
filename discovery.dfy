/** `convertJunitTestcases`: every reported test case becomes a leaf of the
    test tree, below one item per path segment of its file (relative to the
    workspace's `spec` directory). Items that already exist are reused: a
    root item with the cumulative path first, then a child of the current
    parent. */
module Discovery {
  import opened Common
  import opened Tree
  import opened Junit

  /** `<workspace>/spec`, where the walk starts. */
  function SpecDir(workspace: string): string {
    workspace + [Sep] + "spec"
  }

  /** A directory or spec-file item: id and uri are its full path, the label
      its last segment. */
  function Directory(fullPath: string, segment: string): Node {
    Node(fullPath, segment, fullPath, None, [])
  }

  /** The range of a test case: line `line - 1`, column 0, both ends. */
  function RangeOf(line: Option<int>): Option<Range> {
    match line
    case None => None
    case Some(l) => Some(Range(Position(l - 1, 0), Position(l - 1, 0)))
  }

  /** The leaf item of a test case. */
  function TestItem(tc: TestCase): Node {
    Node(Key(tc), tc.name, tc.file, RangeOf(tc.line), [])
  }

  /** The segments the walk visits: `file` with the first occurrence of
      `<workspace>/spec` removed, split on `/`, empty pieces dropped. */
  function SegmentsOf(file: string, workspace: string): seq<string> {
    Segments(ReplaceFirst(file, SpecDir(workspace), ""))
  }

  /** The cumulative paths `base/s0`, `base/s0/s1`, ... of the segments. */
  function Cumulative(base: string, segs: seq<string>): (r: seq<string>)
    ensures |r| == |segs|
    decreases |segs|
  {
    if segs == [] then [] else
      var fp := base + [Sep] + segs[0];
      [fp] + Cumulative(fp, segs[1..])
  }

  /** The state of the segment loop: the tree, the `parent` item as the path
      of ids that reaches it (or null) and the `fullPath` built so far. */
  datatype Walker = Walker(items: seq<Node>, parent: Option<seq<string>>, fullPath: string)

  /** One iteration of the segment loop. */
  function Step(w: Walker, segment: string): Walker {
    var fp := w.fullPath + [Sep] + segment;
    if Get(w.items, fp).Some? then
      Walker(w.items, Some([fp]), fp)
    else if w.parent.Some? then
      var kids := match At(w.items, w.parent.value) case Some(p) => p.children case None => [];
      if Get(kids, fp).Some? then
        Walker(w.items, Some(w.parent.value + [fp]), fp)
      else
        Walker(AddAt(w.items, w.parent.value, Directory(fp, segment)), Some(w.parent.value + [fp]), fp)
    else
      Walker(Add(w.items, Directory(fp, segment)), Some([fp]), fp)
  }

  /** The segment loop from a given state. */
  function Walk(w: Walker, segs: seq<string>): Walker
    decreases |segs|
  {
    if segs == [] then w else Walk(Step(w, segs[0]), segs[1..])
  }

  const LineError := "Illegal argument: line must be non-negative"
  const NoWorkspaceError := "Cannot read properties of undefined (reading 'uri')"
  const NoParentError := "Cannot read properties of null (reading 'children')"

  /** The body of the per-test-case loop. It throws when the range gets a
      negative line, when the file has no workspace folder, and when no
      segment was visited (there is no parent to add the leaf to). */
  function InsertCase(items: seq<Node>, tc: TestCase, workspaceOf: string -> Option<string>): Result<seq<Node>> {
    if tc.line.Some? && tc.line.value - 1 < 0 then Err(LineError)
    else match workspaceOf(tc.file)
      case None => Err(NoWorkspaceError)
      case Some(ws) =>
        var w := Walk(Walker(items, None, SpecDir(ws)), SegmentsOf(tc.file, ws));
        match w.parent
        case None => Err(NoParentError)
        case Some(p) => Ok(AddAt(w.items, p, TestItem(tc)))
  }

  /** The per-test-case loop: stops at the first case that throws, keeping
      what the earlier cases added. */
  function InsertCases(items: seq<Node>, cases: seq<TestCase>, workspaceOf: string -> Option<string>): (seq<Node>, Option<string>)
    decreases |cases|
  {
    if cases == [] then (items, None)
    else match InsertCase(items, cases[0], workspaceOf)
      case Err(e) => (items, Some(e))
      case Ok(t) => InsertCases(t, cases[1..], workspaceOf)
  }

  /** One case of the per-test-case loop. */
  lemma InsertCasesStep(items: seq<Node>, cases: seq<TestCase>, workspaceOf: string -> Option<string>)
    requires cases != []
    ensures InsertCase(items, cases[0], workspaceOf).Err? ==>
      InsertCases(items, cases, workspaceOf) == (items, Some(InsertCase(items, cases[0], workspaceOf).message))
    ensures InsertCase(items, cases[0], workspaceOf).Ok? ==>
      InsertCases(items, cases, workspaceOf) == InsertCases(InsertCase(items, cases[0], workspaceOf).value, cases[1..], workspaceOf)
  {
  }

  /** `convertJunitTestcases`: the new tree and the state of the promise it
      returns. A suite whose `tests` is 0 is logged and the promise is never
      settled. A throw rejects it. */
  function Convert(items: seq<Node>, suite: TestSuite, workspaceOf: string -> Option<string>): (r: (seq<Node>, Settlement<()>))
    ensures suite.tests == 0 ==> r == (items, Pending)
    ensures suite.tests != 0 ==> !r.1.Pending?
  {
    if suite.tests == 0 then (items, Pending)
    else match InsertCases(items, suite.testcase, workspaceOf)
      case (t, None) => (t, Resolved(()))
      case (t, Some(e)) => (t, Rejected(e))
  }

  // ---------------------------------------------------------------------
  // The parents the walk goes through, as a function of the root ids alone.

  /** The parent after visiting cumulative path `c`: the root item with that
      id if there is one, otherwise the child `c` of the current parent. */
  function NextParent(rootIds: seq<string>, parent: seq<string>, c: string): seq<string> {
    if c in rootIds then [c] else parent + [c]
  }

  /** The parent after each step, from `parent`, over the cumulative paths. */
  function Parents(rootIds: seq<string>, parent: seq<string>, chain: seq<string>): (r: seq<seq<string>>)
    ensures |r| == |chain|
    decreases |chain|
  {
    if chain == [] then [] else
      var p := NextParent(rootIds, parent, chain[0]);
      [p] + Parents(rootIds, p, chain[1..])
  }

  /** The parent after the last step. */
  function FinalParent(rootIds: seq<string>, parent: seq<string>, chain: seq<string>): seq<string>
    decreases |chain|
  {
    if chain == [] then parent else FinalParent(rootIds, NextParent(rootIds, parent, chain[0]), chain[1..])
  }

  /** Every cumulative path is longer than the base it starts from. */
  lemma {:induction false} CumulativeLonger(base: string, segs: seq<string>)
    ensures forall x :: x in Cumulative(base, segs) ==> |x| > |base|
    decreases |segs|
  {
    if segs != [] {
      var fp := base + [Sep] + segs[0];
      CumulativeLonger(fp, segs[1..]);
    }
  }

  /** One step from an existing parent: root ids unchanged, the next parent
      is `NextParent` and has an item, and every path that reached an item
      still does. */
  lemma StepFromParent(w: Walker, segment: string)
    requires w.parent.Some? && At(w.items, w.parent.value).Some?
    ensures var w1 := Step(w, segment);
      && Ids(w1.items) == Ids(w.items)
      && w1.fullPath == w.fullPath + [Sep] + segment
      && w1.parent == Some(NextParent(Ids(w.items), w.parent.value, w.fullPath + [Sep] + segment))
      && At(w1.items, w1.parent.value).Some?
      && forall q :: At(w.items, q).Some? ==> At(w1.items, q).Some?
  {
    var P := w.parent.value;
    var c := w.fullPath + [Sep] + segment;
    var w1 := Step(w, segment);
    GetIds(w.items, c);
    if Get(w.items, c).Some? {
      assert w1 == Walker(w.items, Some([c]), c);
    } else {
      var kids := At(w.items, P).value.children;
      if Get(kids, c).Some? {
        assert w1 == Walker(w.items, Some(P + [c]), c);
        AtSnoc(w.items, P, c);
      } else {
        var dir := Directory(c, segment);
        assert w1 == Walker(AddAt(w.items, P, dir), Some(P + [c]), c);
        AtAddAtNew(w.items, P, dir);
        AddAtIds(w.items, P, dir);
        forall q | At(w.items, q).Some? ensures At(w1.items, q).Some? {
          AddAtFreshKeeps(w.items, P, dir, q);
        }
      }
    }
  }

  /** The walk, started from an existing parent, changes no root id, keeps
      every path that reached an item, and leaves an item at each parent it
      went through; its final parent is `FinalParent`. */
  lemma {:induction false} WalkFromParent(w: Walker, segs: seq<string>)
    requires w.parent.Some? && At(w.items, w.parent.value).Some?
    ensures Ids(Walk(w, segs).items) == Ids(w.items)
    ensures Walk(w, segs).parent == Some(FinalParent(Ids(w.items), w.parent.value, Cumulative(w.fullPath, segs)))
    ensures forall q :: At(w.items, q).Some? ==> At(Walk(w, segs).items, q).Some?
    ensures forall k :: 0 <= k < |segs| ==>
      At(Walk(w, segs).items, Parents(Ids(w.items), w.parent.value, Cumulative(w.fullPath, segs))[k]).Some?
    decreases |segs|
  {
    if segs != [] {
      var w1 := Step(w, segs[0]);
      StepFromParent(w, segs[0]);
      WalkFromParent(w1, segs[1..]);
      var chain := Cumulative(w.fullPath, segs);
      assert chain == [w1.fullPath] + Cumulative(w1.fullPath, segs[1..]);
      var ps := Parents(Ids(w.items), w.parent.value, chain);
      assert ps == [w1.parent.value] + Parents(Ids(w.items), w1.parent.value, Cumulative(w1.fullPath, segs[1..]));
    }
  }

  /** The last parent visited is the final one. */
  lemma {:induction false} ParentsLast(rootIds: seq<string>, parent: seq<string>, chain: seq<string>)
    requires chain != []
    ensures Parents(rootIds, parent, chain)[|chain| - 1] == FinalParent(rootIds, parent, chain)
    decreases |chain|
  {
    if |chain| > 1 {
      ParentsLast(rootIds, NextParent(rootIds, parent, chain[0]), chain[1..]);
    }
  }

  /** The walk ends on a parent that has an item. */
  lemma WalkParentAt(w: Walker, segs: seq<string>)
    requires w.parent.Some? && At(w.items, w.parent.value).Some?
    ensures Walk(w, segs).parent.Some? && At(Walk(w, segs).items, Walk(w, segs).parent.value).Some?
  {
    WalkFromParent(w, segs);
    if segs != [] {
      ParentsLast(Ids(w.items), w.parent.value, Cumulative(w.fullPath, segs));
    }
  }

  /** A walk whose every parent already has an item changes nothing. */
  lemma {:induction false} WalkRevisit(w: Walker, segs: seq<string>)
    requires w.parent.Some? && At(w.items, w.parent.value).Some?
    requires forall k :: 0 <= k < |segs| ==>
      At(w.items, Parents(Ids(w.items), w.parent.value, Cumulative(w.fullPath, segs))[k]).Some?
    ensures Walk(w, segs).items == w.items
    decreases |segs|
  {
    if segs != [] {
      var P := w.parent.value;
      var R := Ids(w.items);
      var c := w.fullPath + [Sep] + segs[0];
      var chain := Cumulative(w.fullPath, segs);
      var ps := Parents(R, P, chain);
      assert chain == [c] + Cumulative(c, segs[1..]);
      var w1 := Step(w, segs[0]);
      GetIds(w.items, c);
      if Get(w.items, c).Some? {
        assert w1 == Walker(w.items, Some([c]), c);
      } else {
        assert ps[0] == P + [c];
        AtSnoc(w.items, P, c);
        assert w1 == Walker(w.items, Some(P + [c]), c);
      }
      assert ps[1..] == Parents(R, w1.parent.value, Cumulative(c, segs[1..]));
      assert forall k :: 0 <= k < |segs| - 1 ==> ps[1..][k] == ps[k + 1];
      WalkRevisit(w1, segs[1..]);
    }
  }

  /** Every id on a parent path is the starting parent's or a visited one. */
  lemma {:induction false} ParentsInChain(rootIds: seq<string>, parent: seq<string>, chain: seq<string>)
    ensures forall k, x :: 0 <= k < |chain| && x in Parents(rootIds, parent, chain)[k] ==> x in parent || x in chain
    decreases |chain|
  {
    if chain != [] {
      var p := NextParent(rootIds, parent, chain[0]);
      ParentsInChain(rootIds, p, chain[1..]);
      var ps := Parents(rootIds, parent, chain);
      forall k, x | 0 <= k < |chain| && x in ps[k] ensures x in parent || x in chain {
        if k > 0 {
          assert ps[k] == Parents(rootIds, p, chain[1..])[k - 1];
          assert x in p || x in chain[1..];
        }
      }
    }
  }

  /** The root ids only matter for the paths visited. */
  lemma {:induction false} FinalParentSameRoots(r1: seq<string>, r2: seq<string>, parent: seq<string>, chain: seq<string>)
    requires forall c :: c in chain ==> (c in r1 <==> c in r2)
    ensures FinalParent(r1, parent, chain) == FinalParent(r2, parent, chain)
    ensures Parents(r1, parent, chain) == Parents(r2, parent, chain)
    decreases |chain|
  {
    if chain != [] {
      assert chain[0] in chain;
      FinalParentSameRoots(r1, r2, NextParent(r1, parent, chain[0]), chain[1..]);
    }
  }

  /** The first step: the cumulative path of the first segment becomes a
      root item (reused, or appended) and the parent. */
  lemma FirstStep(items: seq<Node>, base: string, segs: seq<string>) returns (w1: Walker)
    requires segs != []
    ensures Walk(Walker(items, None, base), segs) == Walk(w1, segs[1..])
    ensures w1.parent == Some([Cumulative(base, segs)[0]]) && w1.fullPath == Cumulative(base, segs)[0]
    ensures At(w1.items, w1.parent.value).Some?
    ensures Ids(w1.items) == if Cumulative(base, segs)[0] in Ids(items) then Ids(items)
                             else Ids(items) + [Cumulative(base, segs)[0]]
    ensures Cumulative(base, segs)[0] in Ids(items) ==> w1.items == items
    ensures forall q :: At(items, q).Some? ==> At(w1.items, q) == At(items, q)
  {
    var c := base + [Sep] + segs[0];
    assert Cumulative(base, segs)[0] == c;
    w1 := Step(Walker(items, None, base), segs[0]);
    StepFromRoot(items, base, segs[0]);
  }

  /** A step with no parent yet. */
  lemma StepFromRoot(items: seq<Node>, base: string, segment: string)
    ensures var c := base + [Sep] + segment;
      var w1 := Step(Walker(items, None, base), segment);
      && w1.parent == Some([c]) && w1.fullPath == c
      && At(w1.items, [c]).Some?
      && Ids(w1.items) == (if c in Ids(items) then Ids(items) else Ids(items) + [c])
      && (c in Ids(items) ==> w1.items == items)
      && forall q :: At(items, q).Some? ==> At(w1.items, q) == At(items, q)
  {
    var c := base + [Sep] + segment;
    GetIds(items, c);
    if Get(items, c).None? {
      var dir := Directory(c, segment);
      assert Step(Walker(items, None, base), segment).items == items + [dir];
      NewRoot(items, dir);
    }
  }

  /** Appending a root item with a fresh id. */
  lemma NewRoot(items: seq<Node>, dir: Node)
    requires Get(items, dir.id).None?
    ensures At(items + [dir], [dir.id]).Some?
    ensures Ids(items + [dir]) == Ids(items) + [dir.id]
    ensures forall q :: At(items, q).Some? ==> At(items + [dir], q) == At(items, q)
  {
    assert Add(items, dir) == items + [dir];
    forall q | At(items, q).Some? ensures At(items + [dir], q) == At(items, q) {
      AddRootKeeps(items, dir, q);
    }
  }

  /** The index of the last cumulative path (after the first) that names a
      root item, or 0. */
  function LastRoot(rootIds: seq<string>, chain: seq<string>): (r: nat)
    requires chain != []
    ensures r < |chain| && (r == 0 || chain[r] in rootIds)
    ensures forall j :: r < j < |chain| ==> chain[j] !in rootIds
    decreases |chain|
  {
    if |chain| == 1 then 0
    else if chain[|chain| - 1] in rootIds then |chain| - 1
    else
      var r := LastRoot(rootIds, chain[..|chain| - 1]);
      assert forall j :: r < j < |chain| - 1 ==> chain[..|chain| - 1][j] == chain[j];
      r
  }

  /** The item the leaf of a test case goes under, as a path of ids: the
      cumulative paths from the last one that names a root item. */
  function ParentPath(rootIds: seq<string>, chain: seq<string>): (r: seq<string>)
    requires chain != []
    ensures r != [] && r[|r| - 1] == chain[|chain| - 1]
  {
    chain[LastRoot(rootIds, chain)..]
  }

  /** The cumulative paths of a test case's file. */
  function Chain(tc: TestCase, workspace: string): seq<string> {
    Cumulative(SpecDir(workspace), SegmentsOf(tc.file, workspace))
  }

  /** `LastRoot` over one more cumulative path. */
  lemma LastRootSnoc(rootIds: seq<string>, chain: seq<string>, i: nat)
    requires 1 <= i < |chain|
    ensures LastRoot(rootIds, chain[..i + 1]) == if chain[i] in rootIds then i else LastRoot(rootIds, chain[..i])
  {
    assert chain[..i + 1][..i] == chain[..i];
  }

  /** One step of `FinalParent`. */
  lemma FinalParentStep(rootIds: seq<string>, parent: seq<string>, chain: seq<string>)
    requires chain != []
    ensures FinalParent(rootIds, parent, chain) == FinalParent(rootIds, NextParent(rootIds, parent, chain[0]), chain[1..])
  {
  }

  /** The parent after the walk has gone through the first `i` cumulative
      paths, in closed form. */
  function ParentAfter(rootIds: seq<string>, chain: seq<string>, i: nat): seq<string>
    requires 1 <= i <= |chain|
  {
    chain[LastRoot(rootIds, chain[..i])..i]
  }

  /** `FinalParent` is `ParentPath` once the walk has gone through the first
      `i` cumulative paths. */
  lemma {:induction false} FinalParentClosed(rootIds: seq<string>, chain: seq<string>, i: nat)
    requires 1 <= i <= |chain|
    ensures FinalParent(rootIds, ParentAfter(rootIds, chain, i), chain[i..]) == ParentPath(rootIds, chain)
    decreases |chain| - i
  {
    if i == |chain| {
      ParentAfterAll(rootIds, chain);
    } else {
      var rest := chain[i..];
      assert rest[0] == chain[i] && rest[1..] == chain[i + 1..];
      FinalParentStep(rootIds, ParentAfter(rootIds, chain, i), rest);
      NextParentSlice(rootIds, chain, i);
      FinalParentClosed(rootIds, chain, i + 1);
    }
  }

  /** After all the cumulative paths, the parent is `ParentPath`. */
  lemma ParentAfterAll(rootIds: seq<string>, chain: seq<string>)
    requires chain != []
    ensures ParentAfter(rootIds, chain, |chain|) == ParentPath(rootIds, chain)
  {
    assert chain[..|chain|] == chain;
  }

  lemma NextParentSlice(rootIds: seq<string>, chain: seq<string>, i: nat)
    requires 1 <= i < |chain|
    ensures NextParent(rootIds, ParentAfter(rootIds, chain, i), chain[i]) == ParentAfter(rootIds, chain, i + 1)
  {
    LastRootSnoc(rootIds, chain, i);
    var L := LastRoot(rootIds, chain[..i]);
    if chain[i] !in rootIds {
      assert chain[L..i + 1] == chain[L..i] + [chain[i]];
    }
  }

  /** Only the paths after the first matter to `LastRoot`. */
  lemma {:induction false} LastRootSame(r1: seq<string>, r2: seq<string>, chain: seq<string>)
    requires chain != []
    requires forall j :: 0 < j < |chain| ==> (chain[j] in r1 <==> chain[j] in r2)
    ensures LastRoot(r1, chain) == LastRoot(r2, chain)
    decreases |chain|
  {
    if |chain| > 1 {
      var init := chain[..|chain| - 1];
      assert forall j :: 0 < j < |init| ==> init[j] == chain[j];
      LastRootSame(r1, r2, init);
    }
  }

  /** The root ids after a walk whose first cumulative path is `c`. */
  function RootsAfter(rootIds: seq<string>, c: string): seq<string> {
    if c in rootIds then rootIds else rootIds + [c]
  }

  /** The whole segment loop from the null parent: the parent it ends on is
      `ParentPath`, at most the first cumulative path is added as a root, and
      every item reachable before stays reachable. */
  lemma WalkFromRoots(items: seq<Node>, base: string, segs: seq<string>)
    requires segs != []
    ensures Walk(Walker(items, None, base), segs).parent == Some(ParentPath(Ids(items), Cumulative(base, segs)))
    ensures At(Walk(Walker(items, None, base), segs).items, ParentPath(Ids(items), Cumulative(base, segs))).Some?
    ensures Ids(Walk(Walker(items, None, base), segs).items) == RootsAfter(Ids(items), Cumulative(base, segs)[0])
    ensures forall q :: At(items, q).Some? ==> At(Walk(Walker(items, None, base), segs).items, q).Some?
  {
    var chain := Cumulative(base, segs);
    var w1 := FirstStep(items, base, segs);
    var c0 := chain[0];
    assert chain == [c0] + Cumulative(c0, segs[1..]);
    assert chain[1..] == Cumulative(c0, segs[1..]);
    WalkFromParent(w1, segs[1..]);
    WalkParentAt(w1, segs[1..]);
    var R1 := Ids(w1.items);
    assert chain[..1] == [c0];
    assert chain[0..1] == [c0];
    assert ParentAfter(R1, chain, 1) == [c0];
    FinalParentClosed(R1, chain, 1);
    CumulativeLonger(c0, segs[1..]);
    forall j | 0 < j < |chain| ensures chain[j] in R1 <==> chain[j] in Ids(items) {
      assert chain[j] in chain[1..];
    }
    LastRootSame(R1, Ids(items), chain);
  }

  /** When `convertJunitTestcases` throws for one test case, and with which
      message: a line below 1, a file outside every workspace folder, a file
      with no segment left below `<workspace>/spec`. */
  lemma InsertCaseOutcome(items: seq<Node>, tc: TestCase, workspaceOf: string -> Option<string>)
    ensures tc.line.Some? && tc.line.value < 1 ==> InsertCase(items, tc, workspaceOf) == Err(LineError)
    ensures !(tc.line.Some? && tc.line.value < 1) && workspaceOf(tc.file).None? ==>
      InsertCase(items, tc, workspaceOf) == Err(NoWorkspaceError)
    ensures !(tc.line.Some? && tc.line.value < 1) && workspaceOf(tc.file).Some? ==>
      (InsertCase(items, tc, workspaceOf) == Err(NoParentError) <==> SegmentsOf(tc.file, workspaceOf(tc.file).value) == [])
    ensures !(tc.line.Some? && tc.line.value < 1) && workspaceOf(tc.file).Some? && SegmentsOf(tc.file, workspaceOf(tc.file).value) != []
      ==> InsertCase(items, tc, workspaceOf).Ok?
    ensures InsertCase(items, tc, workspaceOf).Err? ==>
      InsertCase(items, tc, workspaceOf).message in {LineError, NoWorkspaceError, NoParentError}
  {
    if !(tc.line.Some? && tc.line.value < 1) && workspaceOf(tc.file).Some? {
      var ws := workspaceOf(tc.file).value;
      var segs := SegmentsOf(tc.file, ws);
      if segs != [] {
        WalkFromRoots(items, SpecDir(ws), segs);
      }
    }
  }

  /** A test case whose file has segments lands as a leaf below `ParentPath`. */
  lemma InsertCaseLands(items: seq<Node>, tc: TestCase, workspaceOf: string -> Option<string>)
    requires !(tc.line.Some? && tc.line.value < 1) && workspaceOf(tc.file).Some?
    requires SegmentsOf(tc.file, workspaceOf(tc.file).value) != []
    ensures InsertCase(items, tc, workspaceOf).Ok?
    ensures At(InsertCase(items, tc, workspaceOf).value,
               ParentPath(Ids(items), Chain(tc, workspaceOf(tc.file).value)) + [Key(tc)]) == Some(TestItem(tc))
  {
    var ws := workspaceOf(tc.file).value;
    var segs := SegmentsOf(tc.file, ws);
    var path := ParentPath(Ids(items), Chain(tc, ws));
    var W := Walk(Walker(items, None, SpecDir(ws)), segs);
    WalkFromRoots(items, SpecDir(ws), segs);
    assert InsertCase(items, tc, workspaceOf) == Ok(AddAt(W.items, path, TestItem(tc)));
    AtAddAtNew(W.items, path, TestItem(tc));
  }

  /** A test case that does not throw lands as a leaf below `ParentPath`;
      the root ids change by at most the first cumulative path, and every
      item reachable before is still reachable unless it was below an item
      with the leaf's id at that place. */
  lemma InsertCaseShape(items: seq<Node>, tc: TestCase, workspaceOf: string -> Option<string>)
    requires !(tc.line.Some? && tc.line.value < 1) && workspaceOf(tc.file).Some?
    requires SegmentsOf(tc.file, workspaceOf(tc.file).value) != []
    ensures InsertCase(items, tc, workspaceOf).Ok?
    ensures var chain := Chain(tc, workspaceOf(tc.file).value);
      var path := ParentPath(Ids(items), chain);
      var t := InsertCase(items, tc, workspaceOf).value;
      && At(t, path + [Key(tc)]) == Some(TestItem(tc))
      && Ids(t) == RootsAfter(Ids(items), chain[0])
      && forall q :: At(items, q).Some? && !(|q| > |path| + 1 && q[..|path| + 1] == path + [Key(tc)]) ==> At(t, q).Some?
  {
    var ws := workspaceOf(tc.file).value;
    var segs := SegmentsOf(tc.file, ws);
    var chain := Chain(tc, ws);
    var path := ParentPath(Ids(items), chain);
    var W := Walk(Walker(items, None, SpecDir(ws)), segs);
    WalkFromRoots(items, SpecDir(ws), segs);
    var leaf := TestItem(tc);
    var t := AddAt(W.items, path, leaf);
    assert InsertCase(items, tc, workspaceOf) == Ok(t);
    AtAddAtNew(W.items, path, leaf);
    AddAtIds(W.items, path, leaf);
    forall q | At(items, q).Some? && !(|q| > |path| + 1 && q[..|path| + 1] == path + [Key(tc)])
      ensures At(t, q).Some?
    {
      AtAddAtKeeps(W.items, path, leaf, q);
    }
  }

  // ---------------------------------------------------------------------
  // A whole suite: every test case's leaf is still in place at the end.

  /** A test case that the per-test-case loop inserts without throwing. */
  predicate Inserts(tc: TestCase, workspaceOf: string -> Option<string>) {
    !(tc.line.Some? && tc.line.value < 1) && workspaceOf(tc.file).Some?
    && SegmentsOf(tc.file, workspaceOf(tc.file).value) != []
  }

  /** The cumulative paths of a test case's file in its workspace folder. */
  function CaseChain(tc: TestCase, workspaceOf: string -> Option<string>): seq<string> {
    match workspaceOf(tc.file)
    case None => []
    case Some(ws) => Chain(tc, ws)
  }

  /** The path of ids at which a test case's leaf lands in `items`. */
  function LeafPath(items: seq<Node>, tc: TestCase, workspaceOf: string -> Option<string>): seq<string> {
    var chain := CaseChain(tc, workspaceOf);
    if chain == [] then [] else ParentPath(Ids(items), chain) + [Key(tc)]
  }

  /** One step from an existing parent leaves the item at every path whose
      last id is not on the parent's path as it was. */
  lemma StepKeepsAt(w: Walker, segment: string, q: seq<string>)
    requires w.parent.Some? && At(w.items, w.parent.value).Some?
    requires |q| > 0 && At(w.items, q).Some? && q[|q| - 1] !in w.parent.value
    ensures At(Step(w, segment).items, q) == At(w.items, q)
  {
    var P := w.parent.value;
    var c := w.fullPath + [Sep] + segment;
    if Get(w.items, c).None? && Get(At(w.items, P).value.children, c).None? {
      var dir := Directory(c, segment);
      assert Step(w, segment).items == AddAt(w.items, P, dir);
      AddFreshKeepsAt(w.items, P, dir, q);
    }
  }

  /** Adding a child with a new id below `path` leaves the item at every path
      whose last id is not on `path` as it was. */
  lemma AddFreshKeepsAt(ns: seq<Node>, path: seq<string>, item: Node, q: seq<string>)
    requires At(ns, path).Some? && Get(At(ns, path).value.children, item.id).None?
    requires |q| > 0 && At(ns, q).Some? && q[|q| - 1] !in path
    ensures At(AddAt(ns, path, item), q) == At(ns, q)
  {
    if |path| + 1 <= |q| && q[..|path| + 1] == path + [item.id] {
      AtPrefix(ns, q, |path| + 1);
      AtSnoc(ns, path, item.id);
    }
    AtAddAtFrame(ns, path, item, q);
  }

  /** The walk from an existing parent leaves the item at every path whose
      last id is neither on the parent's path nor a cumulative path. */
  lemma {:induction false} WalkKeepsAt(w: Walker, segs: seq<string>, q: seq<string>)
    requires w.parent.Some? && At(w.items, w.parent.value).Some?
    requires |q| > 0 && At(w.items, q).Some?
    requires q[|q| - 1] !in w.parent.value && q[|q| - 1] !in Cumulative(w.fullPath, segs)
    ensures At(Walk(w, segs).items, q) == At(w.items, q)
    decreases |segs|
  {
    if segs != [] {
      var c := w.fullPath + [Sep] + segs[0];
      assert Cumulative(w.fullPath, segs) == [c] + Cumulative(c, segs[1..]);
      StepKeepsAt(w, segs[0], q);
      StepFromParent(w, segs[0]);
      WalkKeepsAt(Step(w, segs[0]), segs[1..], q);
    }
  }

  /** Every id of `ParentPath` is a cumulative path. */
  lemma ParentPathInChain(rootIds: seq<string>, chain: seq<string>)
    requires chain != []
    ensures forall x :: x in ParentPath(rootIds, chain) ==> x in chain
  {
    var L := LastRoot(rootIds, chain);
    forall x | x in chain[L..] ensures x in chain {
      var k :| 0 <= k < |chain[L..]| && chain[L..][k] == x;
      assert chain[L + k] == x;
    }
  }

  /** Inserting a test case leaves the item at every path whose last id is
      not one of its cumulative paths and that does not hold its key. */
  lemma InsertCaseKeepsAt(items: seq<Node>, tc: TestCase, workspaceOf: string -> Option<string>, q: seq<string>)
    requires Inserts(tc, workspaceOf)
    requires |q| > 0 && At(items, q).Some?
    requires q[|q| - 1] !in CaseChain(tc, workspaceOf) && Key(tc) !in q
    ensures InsertCase(items, tc, workspaceOf).Ok?
    ensures At(InsertCase(items, tc, workspaceOf).value, q) == At(items, q)
  {
    var ws := workspaceOf(tc.file).value;
    var segs := SegmentsOf(tc.file, ws);
    var base := SpecDir(ws);
    var chain := Cumulative(base, segs);
    var W := Walk(Walker(items, None, base), segs);
    WalkFromRoots(items, base, segs);
    var path := ParentPath(Ids(items), chain);
    assert InsertCase(items, tc, workspaceOf) == Ok(AddAt(W.items, path, TestItem(tc)));
    WalkKeepsAtFromRoots(items, base, segs, q);
    ParentPathInChain(Ids(items), chain);
    LeafKeepsAt(W.items, path, TestItem(tc), q);
  }

  /** Adding an item below `path` leaves the item at every path whose last
      id is not on `path` and that does not hold the item's id. */
  lemma LeafKeepsAt(ns: seq<Node>, path: seq<string>, item: Node, q: seq<string>)
    requires |q| > 0 && q[|q| - 1] !in path && item.id !in q
    ensures At(AddAt(ns, path, item), q) == At(ns, q)
  {
    if |path| < |q| {
      assert q[..|path| + 1][|path|] == q[|path|];
    }
    AtAddAtFrame(ns, path, item, q);
  }

  /** The whole segment loop from the null parent leaves the item at every
      path whose last id is not a cumulative path. */
  lemma WalkKeepsAtFromRoots(items: seq<Node>, base: string, segs: seq<string>, q: seq<string>)
    requires segs != [] && |q| > 0 && At(items, q).Some?
    requires q[|q| - 1] !in Cumulative(base, segs)
    ensures At(Walk(Walker(items, None, base), segs).items, q) == At(items, q)
  {
    var chain := Cumulative(base, segs);
    var w1 := FirstStep(items, base, segs);
    assert chain == [chain[0]] + Cumulative(chain[0], segs[1..]);
    WalkKeepsAt(w1, segs[1..], q);
  }

  /** The rest of a suite leaves the item at every path whose last id is
      none of the rest's cumulative paths and that holds none of their keys. */
  lemma {:induction false} InsertCasesKeepsAt(items: seq<Node>, cases: seq<TestCase>, workspaceOf: string -> Option<string>,
                                              q: seq<string>)
    requires forall k :: 0 <= k < |cases| ==> Inserts(cases[k], workspaceOf)
    requires |q| > 0 && At(items, q).Some?
    requires forall k :: 0 <= k < |cases| ==> q[|q| - 1] !in CaseChain(cases[k], workspaceOf) && Key(cases[k]) !in q
    ensures At(InsertCases(items, cases, workspaceOf).0, q) == At(items, q)
    decreases |cases|
  {
    if cases != [] {
      InsertCaseKeepsAt(items, cases[0], workspaceOf, q);
      var t := InsertCase(items, cases[0], workspaceOf).value;
      assert forall k :: 0 <= k < |cases| - 1 ==> cases[1..][k] == cases[k + 1];
      InsertCasesKeepsAt(t, cases[1..], workspaceOf, q);
    }
  }

  /** `convertJunitTestcases` over a suite whose test cases all insert, when
      no key is another case's key or one of another case's cumulative
      paths: nothing throws, and every case's leaf is at the end where it
      landed when that case was inserted. */
  lemma {:induction false} InsertCasesShape(items: seq<Node>, cases: seq<TestCase>, workspaceOf: string -> Option<string>)
    requires forall k :: 0 <= k < |cases| ==> Inserts(cases[k], workspaceOf)
    requires forall i, j :: 0 <= i < |cases| && 0 <= j < |cases| && i != j ==>
      Key(cases[i]) != Key(cases[j]) && Key(cases[i]) !in CaseChain(cases[j], workspaceOf)
    ensures InsertCases(items, cases, workspaceOf).1.None?
    ensures forall k :: 0 <= k < |cases| ==>
      At(InsertCases(items, cases, workspaceOf).0, LeafPath(InsertCases(items, cases[..k], workspaceOf).0, cases[k], workspaceOf))
        == Some(TestItem(cases[k]))
    decreases |cases|
  {
    if cases != [] {
      var rest := cases[1..];
      var t := InsertCasesCons(items, cases, workspaceOf);
      InsertCasesShape(t, rest, workspaceOf);
      FirstLeafKept(items, cases, workspaceOf);
      ShapeCons(items, cases, workspaceOf, t);
    }
  }

  /** The leaves of the first case and of the rest together. */
  lemma ShapeCons(items: seq<Node>, cases: seq<TestCase>, workspaceOf: string -> Option<string>, t: seq<Node>)
    requires cases != []
    requires forall k :: 1 <= k <= |cases| ==>
      InsertCases(items, cases[..k], workspaceOf) == InsertCases(t, cases[1..][..k - 1], workspaceOf)
    requires InsertCases(items, cases, workspaceOf) == InsertCases(t, cases[1..], workspaceOf)
    requires At(InsertCases(t, cases[1..], workspaceOf).0, LeafPath(items, cases[0], workspaceOf)) == Some(TestItem(cases[0]))
    requires forall k :: 0 <= k < |cases[1..]| ==>
      At(InsertCases(t, cases[1..], workspaceOf).0, LeafPath(InsertCases(t, cases[1..][..k], workspaceOf).0, cases[1..][k], workspaceOf))
        == Some(TestItem(cases[1..][k]))
    ensures forall k :: 0 <= k < |cases| ==>
      At(InsertCases(items, cases, workspaceOf).0, LeafPath(InsertCases(items, cases[..k], workspaceOf).0, cases[k], workspaceOf))
        == Some(TestItem(cases[k]))
  {
    forall k | 0 <= k < |cases|
      ensures At(InsertCases(items, cases, workspaceOf).0, LeafPath(InsertCases(items, cases[..k], workspaceOf).0, cases[k], workspaceOf))
        == Some(TestItem(cases[k]))
    {
      if k == 0 {
        assert cases[..0] == [];
      } else {
        assert cases[1..][k - 1] == cases[k];
      }
    }
  }

  /** The suite after its first case: that case inserts, the loop goes on
      from its tree, and the rest of the cases meet the same conditions. */
  lemma InsertCasesCons(items: seq<Node>, cases: seq<TestCase>, workspaceOf: string -> Option<string>) returns (t: seq<Node>)
    requires cases != [] && forall k :: 0 <= k < |cases| ==> Inserts(cases[k], workspaceOf)
    requires forall i, j :: 0 <= i < |cases| && 0 <= j < |cases| && i != j ==>
      Key(cases[i]) != Key(cases[j]) && Key(cases[i]) !in CaseChain(cases[j], workspaceOf)
    ensures InsertCase(items, cases[0], workspaceOf) == Ok(t)
    ensures InsertCases(items, cases, workspaceOf) == InsertCases(t, cases[1..], workspaceOf)
    ensures forall k :: 1 <= k <= |cases| ==>
      InsertCases(items, cases[..k], workspaceOf) == InsertCases(t, cases[1..][..k - 1], workspaceOf)
    ensures forall k :: 0 <= k < |cases[1..]| ==> Inserts(cases[1..][k], workspaceOf)
    ensures forall i, j :: 0 <= i < |cases[1..]| && 0 <= j < |cases[1..]| && i != j ==>
      Key(cases[1..][i]) != Key(cases[1..][j]) && Key(cases[1..][i]) !in CaseChain(cases[1..][j], workspaceOf)
  {
    InsertCaseOutcome(items, cases[0], workspaceOf);
    t := InsertCase(items, cases[0], workspaceOf).value;
    var rest := cases[1..];
    assert forall k :: 0 <= k < |rest| ==> rest[k] == cases[k + 1];
    InsertCasesPrefixes(items, cases, workspaceOf, t);
  }

  /** Every prefix of the suite runs through the first case's tree. */
  lemma InsertCasesPrefixes(items: seq<Node>, cases: seq<TestCase>, workspaceOf: string -> Option<string>, t: seq<Node>)
    requires cases != [] && InsertCase(items, cases[0], workspaceOf) == Ok(t)
    ensures forall k :: 1 <= k <= |cases| ==>
      InsertCases(items, cases[..k], workspaceOf) == InsertCases(t, cases[1..][..k - 1], workspaceOf)
  {
    forall k | 1 <= k <= |cases|
      ensures InsertCases(items, cases[..k], workspaceOf) == InsertCases(t, cases[1..][..k - 1], workspaceOf)
    {
      assert cases[..k][0] == cases[0] && cases[..k][1..] == cases[1..][..k - 1];
    }
  }

  /** The first case's leaf survives the rest of the suite. */
  lemma FirstLeafKept(items: seq<Node>, cases: seq<TestCase>, workspaceOf: string -> Option<string>)
    requires cases != [] && forall k :: 0 <= k < |cases| ==> Inserts(cases[k], workspaceOf)
    requires forall i, j :: 0 <= i < |cases| && 0 <= j < |cases| && i != j ==>
      Key(cases[i]) != Key(cases[j]) && Key(cases[i]) !in CaseChain(cases[j], workspaceOf)
    ensures InsertCase(items, cases[0], workspaceOf).Ok?
    ensures At(InsertCases(InsertCase(items, cases[0], workspaceOf).value, cases[1..], workspaceOf).0,
               LeafPath(items, cases[0], workspaceOf)) == Some(TestItem(cases[0]))
  {
    var c0 := cases[0];
    var ws := workspaceOf(c0.file).value;
    var chain := Chain(c0, ws);
    InsertCaseLands(items, c0, workspaceOf);
    var t := InsertCase(items, c0, workspaceOf).value;
    var q := LeafPath(items, c0, workspaceOf);
    assert q == ParentPath(Ids(items), chain) + [Key(c0)];
    ParentPathInChain(Ids(items), chain);
    var rest := cases[1..];
    forall k | 0 <= k < |rest| ensures q[|q| - 1] !in CaseChain(rest[k], workspaceOf) && Key(rest[k]) !in q {
      assert rest[k] == cases[k + 1];
    }
    assert forall k :: 0 <= k < |rest| ==> rest[k] == cases[k + 1];
    InsertCasesKeepsAt(t, rest, workspaceOf, q);
  }

  /** Inserting a test case a second time changes nothing, provided its key
      is not itself one of its file's cumulative paths. */
  lemma InsertCaseIdempotent(items: seq<Node>, tc: TestCase, workspaceOf: string -> Option<string>)
    requires workspaceOf(tc.file).Some? && Key(tc) !in Chain(tc, workspaceOf(tc.file).value)
    requires InsertCase(items, tc, workspaceOf).Ok?
    ensures InsertCase(InsertCase(items, tc, workspaceOf).value, tc, workspaceOf) == InsertCase(items, tc, workspaceOf)
  {
    var ws := workspaceOf(tc.file).value;
    var segs := SegmentsOf(tc.file, ws);
    InsertCaseOutcome(items, tc, workspaceOf);
    WalkAddIdempotent(items, SpecDir(ws), segs, TestItem(tc));
  }

  /** The segment loop followed by adding the leaf, done twice, is done
      once, when the leaf's id is none of the cumulative paths. */
  lemma WalkAddIdempotent(items: seq<Node>, base: string, segs: seq<string>, leaf: Node)
    requires segs != [] && leaf.id !in Cumulative(base, segs)
    ensures var W := Walk(Walker(items, None, base), segs);
      && W.parent.Some?
      && var t := AddAt(W.items, W.parent.value, leaf);
         var W2 := Walk(Walker(t, None, base), segs);
         W2.parent == W.parent && AddAt(W2.items, W.parent.value, leaf) == t
  {
    var chain := Cumulative(base, segs);
    var c0 := chain[0];
    assert chain == [c0] + Cumulative(c0, segs[1..]);
    var w1 := FirstStep(items, base, segs);
    assert c0 in Ids(w1.items);
    var W := Walk(w1, segs[1..]);
    WalkParentAt(w1, segs[1..]);
    var path := W.parent.value;
    var t := AddAt(W.items, path, leaf);
    LeafAfterWalk(w1, segs[1..], leaf);
    var w2 := FirstStep(t, base, segs);
    assert w2 == Walker(t, w1.parent, w1.fullPath);
    RevisitAfterLeaf(t, w1, segs[1..]);
    AddAtPresent(t, path, leaf);
  }

  /** After the walk from an existing parent, adding a leaf whose id is on
      no parent path keeps every parent the walk went through. */
  lemma LeafAfterWalk(w: Walker, segs: seq<string>, leaf: Node)
    requires w.parent.Some? && At(w.items, w.parent.value).Some?
    requires leaf.id !in w.parent.value && leaf.id !in Cumulative(w.fullPath, segs)
    ensures var W := Walk(w, segs);
      && W.parent.Some?
      && var t := AddAt(W.items, W.parent.value, leaf);
         && Ids(t) == Ids(w.items)
         && At(t, W.parent.value + [leaf.id]) == Some(leaf)
         && At(t, w.parent.value).Some?
         && forall k :: 0 <= k < |segs| ==> At(t, Parents(Ids(w.items), w.parent.value, Cumulative(w.fullPath, segs))[k]).Some?
  {
    var W := Walk(w, segs);
    WalkFromParent(w, segs);
    WalkParentAt(w, segs);
    var path := W.parent.value;
    var t := AddAt(W.items, path, leaf);
    AtAddAtNew(W.items, path, leaf);
    AddAtIds(W.items, path, leaf);
    var ps := Parents(Ids(w.items), w.parent.value, Cumulative(w.fullPath, segs));
    ParentsInChain(Ids(w.items), w.parent.value, Cumulative(w.fullPath, segs));
    forall k | 0 <= k < |segs| ensures At(t, ps[k]).Some? {
      var q := ps[k];
      assert leaf.id !in q;
      AtAddAtKeeps(W.items, path, leaf, q);
    }
    AtAddAtKeeps(W.items, path, leaf, w.parent.value);
  }

  /** Walking again over a tree in which every parent already has an item
      changes nothing and ends on the same parent. */
  lemma RevisitAfterLeaf(t: seq<Node>, w: Walker, segs: seq<string>)
    requires w.parent.Some? && At(w.items, w.parent.value).Some?
    requires Ids(t) == Ids(w.items) && At(t, w.parent.value).Some?
    requires forall k :: 0 <= k < |segs| ==> At(t, Parents(Ids(w.items), w.parent.value, Cumulative(w.fullPath, segs))[k]).Some?
    ensures Walk(Walker(t, w.parent, w.fullPath), segs).items == t
    ensures Walk(Walker(t, w.parent, w.fullPath), segs).parent == Walk(w, segs).parent
  {
    var w2 := Walker(t, w.parent, w.fullPath);
    WalkRevisit(w2, segs);
    WalkFromParent(w2, segs);
    WalkFromParent(w, segs);
  }

  /** Every cumulative path is at most as long as the last. */
  lemma {:induction false} CumulativeShorterThanLast(base: string, segs: seq<string>)
    requires segs != []
    ensures forall x :: x in Cumulative(base, segs) ==> |x| <= |Cumulative(base, segs)[|segs| - 1]|
    decreases |segs|
  {
    var fp := base + [Sep] + segs[0];
    var rest := Cumulative(fp, segs[1..]);
    assert Cumulative(base, segs) == [fp] + rest;
    if |segs| > 1 {
      CumulativeShorterThanLast(fp, segs[1..]);
      CumulativeLonger(fp, segs[1..]);
      assert rest[|rest| - 1] in rest;
    }
  }

  /** The last cumulative path is the base, a separator and the joined segments. */
  lemma {:induction false} CumulativeLast(base: string, segs: seq<string>)
    requires segs != []
    ensures Cumulative(base, segs)[|segs| - 1] == base + [Sep] + Join(segs, [Sep])
    decreases |segs|
  {
    if |segs| > 1 {
      var fp := base + [Sep] + segs[0];
      CumulativeLast(fp, segs[1..]);
      assert Join(segs, [Sep]) == segs[0] + [Sep] + Join(segs[1..], [Sep]);
    }
  }

  /** For a file `<workspace>/spec/p1/.../pn`, the walk visits `p1` ... `pn`
      and its last cumulative path is the file itself. */
  lemma SpecFileChain(workspace: string, parts: seq<string>)
    requires parts != [] && forall p :: p in parts ==> p != "" && Sep !in p
    ensures SegmentsOf(SpecDir(workspace) + [Sep] + Join(parts, [Sep]), workspace) == parts
    ensures Cumulative(SpecDir(workspace), parts)[|parts| - 1] == SpecDir(workspace) + [Sep] + Join(parts, [Sep])
  {
    SpecFileRelative(workspace, parts);
    SegmentsOfPath(parts);
    CumulativeLast(SpecDir(workspace), parts);
  }

  /** Removing `<workspace>/spec` leaves `/p1/.../pn`. */
  lemma SpecFileRelative(workspace: string, parts: seq<string>)
    requires parts != []
    ensures ReplaceFirst(SpecDir(workspace) + [Sep] + Join(parts, [Sep]), SpecDir(workspace), "") == Join([""] + parts, [Sep])
  {
    var rel := [Sep] + Join(parts, [Sep]);
    assert SpecDir(workspace) + [Sep] + Join(parts, [Sep]) == SpecDir(workspace) + rel;
    ReplaceFirstPrefix(SpecDir(workspace), rel);
    JoinCons(parts);
  }

  lemma JoinCons(parts: seq<string>)
    requires parts != []
    ensures Join([""] + parts, [Sep]) == [Sep] + Join(parts, [Sep])
  {
    assert ([""] + parts)[1..] == parts;
  }

  /** A test case in a spec file `<workspace>/spec/p1/.../pn`: its leaf goes
      under the item whose id is the file path. */
  lemma SpecFileCase(items: seq<Node>, tc: TestCase, workspaceOf: string -> Option<string>, parts: seq<string>)
    requires !(tc.line.Some? && tc.line.value < 1) && workspaceOf(tc.file).Some?
    requires parts != [] && forall p :: p in parts ==> p != "" && Sep !in p
    requires tc.file == SpecDir(workspaceOf(tc.file).value) + [Sep] + Join(parts, [Sep])
    ensures InsertCase(items, tc, workspaceOf).Ok?
    ensures var path := ParentPath(Ids(items), Chain(tc, workspaceOf(tc.file).value));
      path[|path| - 1] == tc.file && At(InsertCase(items, tc, workspaceOf).value, path + [Key(tc)]) == Some(TestItem(tc))
  {
    SpecFileSegments(tc, workspaceOf, parts);
    LandsAtFile(items, tc, workspaceOf, parts);
  }

  /** The segments of a spec file `<workspace>/spec/p1/.../pn` are its parts,
      and the last cumulative path is the file. */
  lemma SpecFileSegments(tc: TestCase, workspaceOf: string -> Option<string>, parts: seq<string>)
    requires workspaceOf(tc.file).Some?
    requires parts != [] && forall p :: p in parts ==> p != "" && Sep !in p
    requires tc.file == SpecDir(workspaceOf(tc.file).value) + [Sep] + Join(parts, [Sep])
    ensures SegmentsOf(tc.file, workspaceOf(tc.file).value) == parts
    ensures Chain(tc, workspaceOf(tc.file).value)[|parts| - 1] == tc.file
  {
    SpecFileChain(workspaceOf(tc.file).value, parts);
  }

  /** A test case whose last cumulative path is its file lands below the
      item with the file's path. */
  lemma LandsAtFile(items: seq<Node>, tc: TestCase, workspaceOf: string -> Option<string>, parts: seq<string>)
    requires !(tc.line.Some? && tc.line.value < 1) && workspaceOf(tc.file).Some?
    requires parts != []
    requires SegmentsOf(tc.file, workspaceOf(tc.file).value) == parts
    requires Chain(tc, workspaceOf(tc.file).value)[|parts| - 1] == tc.file
    ensures InsertCase(items, tc, workspaceOf).Ok?
    ensures var path := ParentPath(Ids(items), Chain(tc, workspaceOf(tc.file).value));
      path[|path| - 1] == tc.file && At(InsertCase(items, tc, workspaceOf).value, path + [Key(tc)]) == Some(TestItem(tc))
  {
    InsertCaseLands(items, tc, workspaceOf);
  }

  /** Inserting such a test case a second time changes nothing. */
  lemma SpecFileReinsert(items: seq<Node>, tc: TestCase, workspaceOf: string -> Option<string>, parts: seq<string>)
    requires !(tc.line.Some? && tc.line.value < 1) && workspaceOf(tc.file).Some?
    requires parts != [] && forall p :: p in parts ==> p != "" && Sep !in p
    requires tc.file == SpecDir(workspaceOf(tc.file).value) + [Sep] + Join(parts, [Sep])
    ensures InsertCase(items, tc, workspaceOf).Ok?
    ensures InsertCase(InsertCase(items, tc, workspaceOf).value, tc, workspaceOf) == InsertCase(items, tc, workspaceOf)
  {
    var ws := workspaceOf(tc.file).value;
    SpecFileChain(ws, parts);
    assert Chain(tc, ws) == Cumulative(SpecDir(ws), parts);
    CumulativeShorterThanLast(SpecDir(ws), parts);
    assert |Key(tc)| > |tc.file|;
    InsertCaseOutcome(items, tc, workspaceOf);
    InsertCaseIdempotent(items, tc, workspaceOf);
  }

  /** The segment loop keeps sibling ids unique. */
  lemma {:induction false} WalkWellFormed(w: Walker, segs: seq<string>)
    requires WellFormed(w.items)
    ensures WellFormed(Walk(w, segs).items)
    decreases |segs|
  {
    if segs != [] {
      var fp := w.fullPath + [Sep] + segs[0];
      var dir := Directory(fp, segs[0]);
      assert WellFormedNode(dir);
      AddWellFormed(w.items, dir);
      if w.parent.Some? {
        AddAtWellFormed(w.items, w.parent.value, dir);
      }
      WalkWellFormed(Step(w, segs[0]), segs[1..]);
    }
  }

  /** `convertJunitTestcases` keeps sibling ids unique at every level. */
  lemma {:induction false} InsertCasesWellFormed(items: seq<Node>, cases: seq<TestCase>, workspaceOf: string -> Option<string>)
    requires WellFormed(items)
    ensures WellFormed(InsertCases(items, cases, workspaceOf).0)
    decreases |cases|
  {
    if cases != [] {
      InsertCaseWellFormed(items, cases[0], workspaceOf);
      if InsertCase(items, cases[0], workspaceOf).Ok? {
        InsertCasesWellFormed(InsertCase(items, cases[0], workspaceOf).value, cases[1..], workspaceOf);
      }
    }
  }

  /** Adding one test case keeps sibling ids unique at every level. */
  lemma InsertCaseWellFormed(items: seq<Node>, tc: TestCase, workspaceOf: string -> Option<string>)
    requires WellFormed(items)
    ensures InsertCase(items, tc, workspaceOf).Ok? ==> WellFormed(InsertCase(items, tc, workspaceOf).value)
  {
    if InsertCase(items, tc, workspaceOf).Ok? {
      var ws := workspaceOf(tc.file).value;
      var w := Walk(Walker(items, None, SpecDir(ws)), SegmentsOf(tc.file, ws));
      WalkWellFormed(Walker(items, None, SpecDir(ws)), SegmentsOf(tc.file, ws));
      assert WellFormedNode(TestItem(tc));
      AddAtWellFormed(w.items, w.parent.value, TestItem(tc));
    }
  }
}
