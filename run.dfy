/** The `Run` profile's handler: the paths the request selects, grouped by
    workspace folder, one compiler run per folder in order, and the results
    of each run reported onto the tree. */
module RunProfile {
  import opened Common
  import opened Tree
  import opened Junit
  import opened Selection
  import opened Reconcile

  /** What a run did: the invocations made, the events reported, and whether
      `run.end()` was reached (a runner that never settles leaves the run
      open for good). */
  datatype RunResult = RunResult(invoked: seq<Invocation>, events: seq<Event>, ended: bool)

  /** The `i`-th folder's invocation: its selected paths after the fixed
      words. */
  function FolderInvocation(runnerArgs: seq<string>, workspaces: seq<string>, i: nat, tempFolder: nat -> string,
                            workspaceOf: string -> Option<string>): Invocation
    requires i < |workspaces|
  {
    Invocation(workspaces[i], CommandArgs(tempFolder(i), PathsIn(runnerArgs, workspaces[i], workspaceOf)))
  }

  /** Lines 168-182 from the `i`-th folder on: the invocations made. A run
      that fails or never settles is the last one. */
  function Invoked(runnerArgs: seq<string>, workspaces: seq<string>, i: nat, tempFolder: nat -> string,
                   deliver: Invocation -> Delivery, workspaceOf: string -> Option<string>): seq<Invocation>
    decreases |workspaces| - i
  {
    if i >= |workspaces| then []
    else
      var inv := FolderInvocation(runnerArgs, workspaces, i, tempFolder, workspaceOf);
      if deliver(inv).Parsed? then [inv] + Invoked(runnerArgs, workspaces, i + 1, tempFolder, deliver, workspaceOf) else [inv]
  }

  /** Whether `run.end()` is reached: a failed run ends the test run at
      once, a run that never settles leaves it open. */
  function Ended(runnerArgs: seq<string>, workspaces: seq<string>, i: nat, tempFolder: nat -> string,
                 deliver: Invocation -> Delivery, workspaceOf: string -> Option<string>): bool
    decreases |workspaces| - i
  {
    if i >= |workspaces| then true
    else match deliver(FolderInvocation(runnerArgs, workspaces, i, tempFolder, workspaceOf))
      case NeverSettles => false
      case Failure(_) => true
      case Parsed(_) => Ended(runnerArgs, workspaces, i + 1, tempFolder, deliver, workspaceOf)
  }

  /** Lines 184-212 from the `i`-th folder on: each parsed suite is reported
      before the next folder is run. */
  function Events(roots: seq<Node>, request: Request, runnerArgs: seq<string>, workspaces: seq<string>, i: nat,
                  tempFolder: nat -> string, deliver: Invocation -> Delivery, workspaceOf: string -> Option<string>): seq<Event>
    decreases |workspaces| - i
  {
    if i >= |workspaces| then []
    else match deliver(FolderInvocation(runnerArgs, workspaces, i, tempFolder, workspaceOf))
      case Parsed(suite) =>
        SuiteEvents(roots, suite.testcase, request) + Events(roots, request, runnerArgs, workspaces, i + 1, tempFolder, deliver, workspaceOf)
      case _ => []
  }

  /** The whole handler: the selected paths, their folders in order of first
      appearance, then the runs. */
  function Run(roots: seq<Node>, request: Request, tempFolder: nat -> string, deliver: Invocation -> Delivery,
               workspaceOf: string -> Option<string>): RunResult
  {
    var runnerArgs := ChildrenArgs(roots, request.includes, request.excludes);
    var workspaces := Workspaces(runnerArgs, workspaceOf);
    RunResult(Invoked(runnerArgs, workspaces, 0, tempFolder, deliver, workspaceOf),
              Events(roots, request, runnerArgs, workspaces, 0, tempFolder, deliver, workspaceOf),
              Ended(runnerArgs, workspaces, 0, tempFolder, deliver, workspaceOf))
  }

  /** What the handler has done after `i` folders, completed by what comes
      from the `i`-th folder on, is the whole run. */
  ghost predicate RunSoFar(total: RunResult, invoked: seq<Invocation>, events: seq<Event>,
                           roots: seq<Node>, request: Request, runnerArgs: seq<string>, workspaces: seq<string>, i: nat,
                           tempFolder: nat -> string, deliver: Invocation -> Delivery, workspaceOf: string -> Option<string>)
  {
    && total.invoked == invoked + Invoked(runnerArgs, workspaces, i, tempFolder, deliver, workspaceOf)
    && total.events == events + Events(roots, request, runnerArgs, workspaces, i, tempFolder, deliver, workspaceOf)
    && total.ended == Ended(runnerArgs, workspaces, i, tempFolder, deliver, workspaceOf)
  }

  /** One iteration of the handler's folder loop keeps `RunSoFar`, or ends
      the run with what was done so far. */
  lemma RunAdvance(total: RunResult, invoked: seq<Invocation>, events: seq<Event>,
                   roots: seq<Node>, request: Request, runnerArgs: seq<string>, workspaces: seq<string>, i: nat,
                   tempFolder: nat -> string, deliver: Invocation -> Delivery, workspaceOf: string -> Option<string>)
    requires i < |workspaces|
    requires RunSoFar(total, invoked, events, roots, request, runnerArgs, workspaces, i, tempFolder, deliver, workspaceOf)
    ensures var inv := FolderInvocation(runnerArgs, workspaces, i, tempFolder, workspaceOf);
      && (deliver(inv).NeverSettles? ==> total == RunResult(invoked + [inv], events, false))
      && (deliver(inv).Failure? ==> total == RunResult(invoked + [inv], events, true))
      && (deliver(inv).Parsed? ==>
            RunSoFar(total, invoked + [inv], events + SuiteEvents(roots, deliver(inv).suite.testcase, request),
                     roots, request, runnerArgs, workspaces, i + 1, tempFolder, deliver, workspaceOf))
  {
    var inv := FolderInvocation(runnerArgs, workspaces, i, tempFolder, workspaceOf);
    match deliver(inv)
    case NeverSettles =>
      assert events + [] == events;
    case Failure(_) =>
      assert events + [] == events;
    case Parsed(suite) =>
      var reported := SuiteEvents(roots, suite.testcase, request);
      var nextInvoked := Invoked(runnerArgs, workspaces, i + 1, tempFolder, deliver, workspaceOf);
      var nextEvents := Events(roots, request, runnerArgs, workspaces, i + 1, tempFolder, deliver, workspaceOf);
      assert invoked + ([inv] + nextInvoked) == (invoked + [inv]) + nextInvoked;
      assert events + (reported + nextEvents) == (events + reported) + nextEvents;
  }

  /** Lines 169-212: the `i`-th folder's paths, its run, and the events of
      the suite it yields. */
  method RunFolder(roots: seq<Node>, request: Request, runnerArgs: seq<string>, workspaces: seq<string>, i: nat,
                   tempFolder: nat -> string, deliver: Invocation -> Delivery, workspaceOf: string -> Option<string>)
    returns (inv: Invocation, outcome: Delivery, reported: seq<Event>)
    requires i < |workspaces|
    ensures inv == FolderInvocation(runnerArgs, workspaces, i, tempFolder, workspaceOf)
    ensures outcome == deliver(inv)
    ensures outcome.Parsed? ==> reported == SuiteEvents(roots, outcome.suite.testcase, request)
  {
    var args := CollectPathsIn(runnerArgs, workspaces[i], workspaceOf);
    inv := Invocation(workspaces[i], CommandArgs(tempFolder(i), args));
    outcome := deliver(inv);
    reported := [];
    if outcome.Parsed? {
      reported := ReportSuite(roots, outcome.suite, request);
    }
  }

  /** Lines 146-217. */
  method RunHandler(roots: seq<Node>, request: Request, tempFolder: nat -> string, deliver: Invocation -> Delivery,
                    workspaceOf: string -> Option<string>) returns (result: RunResult)
    ensures result == Run(roots, request, tempFolder, deliver, workspaceOf)
  {
    var runnerArgs := CollectRunnerArgs(roots, request);
    var workspaces := CollectWorkspaces(runnerArgs, workspaceOf);
    ghost var total := Run(roots, request, tempFolder, deliver, workspaceOf);
    var invoked := [];
    var events := [];
    var i := 0;
    while i < |workspaces|
      invariant 0 <= i <= |workspaces|
      invariant RunSoFar(total, invoked, events, roots, request, runnerArgs, workspaces, i, tempFolder, deliver, workspaceOf)
    {
      var inv, outcome, reported := RunFolder(roots, request, runnerArgs, workspaces, i, tempFolder, deliver, workspaceOf);
      RunAdvance(total, invoked, events, roots, request, runnerArgs, workspaces, i, tempFolder, deliver, workspaceOf);
      if outcome.NeverSettles? {
        return RunResult(invoked + [inv], events, false);
      } else if outcome.Failure? {
        return RunResult(invoked + [inv], events, true);
      }
      invoked := invoked + [inv];
      events := events + reported;
      i := i + 1;
    }
    result := RunResult(invoked, events, true);
  }

  // ---------------------------------------------------------------------
  // Properties.

  /** Folders are run in order, each once, with exactly its own selected
      paths on the command line. */
  lemma {:induction false} RunInvocations(runnerArgs: seq<string>, workspaces: seq<string>, i: nat,
                                          tempFolder: nat -> string, deliver: Invocation -> Delivery, workspaceOf: string -> Option<string>)
    requires i <= |workspaces|
    ensures var r := Invoked(runnerArgs, workspaces, i, tempFolder, deliver, workspaceOf);
      && |r| <= |workspaces| - i
      && forall k :: 0 <= k < |r| ==> r[k] == FolderInvocation(runnerArgs, workspaces, i + k, tempFolder, workspaceOf)
    decreases |workspaces| - i
  {
    if i < |workspaces| {
      var inv := FolderInvocation(runnerArgs, workspaces, i, tempFolder, workspaceOf);
      var r := Invoked(runnerArgs, workspaces, i, tempFolder, deliver, workspaceOf);
      if deliver(inv).Parsed? {
        var next := Invoked(runnerArgs, workspaces, i + 1, tempFolder, deliver, workspaceOf);
        assert r == [inv] + next;
        RunInvocations(runnerArgs, workspaces, i + 1, tempFolder, deliver, workspaceOf);
        forall k | 0 <= k < |r|
          ensures r[k] == FolderInvocation(runnerArgs, workspaces, i + k, tempFolder, workspaceOf)
        {
          if k > 0 {
            assert r[k] == next[k - 1] && i + k == (i + 1) + (k - 1);
          }
        }
      } else {
        assert r == [inv];
      }
    }
  }

  /** The first folder whose run fails or never settles is the last one
      run; the test run is ended exactly when that run failed. */
  lemma {:induction false} RunStopsAt(runnerArgs: seq<string>, workspaces: seq<string>, i: nat, j: nat,
                                      tempFolder: nat -> string, deliver: Invocation -> Delivery, workspaceOf: string -> Option<string>)
    requires i <= j < |workspaces|
    requires forall k :: i <= k < j ==> deliver(FolderInvocation(runnerArgs, workspaces, k, tempFolder, workspaceOf)).Parsed?
    requires !deliver(FolderInvocation(runnerArgs, workspaces, j, tempFolder, workspaceOf)).Parsed?
    ensures |Invoked(runnerArgs, workspaces, i, tempFolder, deliver, workspaceOf)| == j - i + 1
    ensures Ended(runnerArgs, workspaces, i, tempFolder, deliver, workspaceOf) <==>
      deliver(FolderInvocation(runnerArgs, workspaces, j, tempFolder, workspaceOf)).Failure?
    decreases j - i
  {
    if i < j {
      RunStopsAt(runnerArgs, workspaces, i + 1, j, tempFolder, deliver, workspaceOf);
    }
  }

  /** When every folder's run yields a suite, each folder is run and the
      test run ends. */
  lemma {:induction false} RunAllParsed(runnerArgs: seq<string>, workspaces: seq<string>, i: nat,
                                        tempFolder: nat -> string, deliver: Invocation -> Delivery, workspaceOf: string -> Option<string>)
    requires i <= |workspaces|
    requires forall k :: i <= k < |workspaces| ==> deliver(FolderInvocation(runnerArgs, workspaces, k, tempFolder, workspaceOf)).Parsed?
    ensures |Invoked(runnerArgs, workspaces, i, tempFolder, deliver, workspaceOf)| == |workspaces| - i
    ensures Ended(runnerArgs, workspaces, i, tempFolder, deliver, workspaceOf)
    decreases |workspaces| - i
  {
    if i < |workspaces| {
      var inv := FolderInvocation(runnerArgs, workspaces, i, tempFolder, workspaceOf);
      assert deliver(inv).Parsed?;
      assert Invoked(runnerArgs, workspaces, i, tempFolder, deliver, workspaceOf)
        == [inv] + Invoked(runnerArgs, workspaces, i + 1, tempFolder, deliver, workspaceOf);
      assert Ended(runnerArgs, workspaces, i, tempFolder, deliver, workspaceOf)
        == Ended(runnerArgs, workspaces, i + 1, tempFolder, deliver, workspaceOf);
      RunAllParsed(runnerArgs, workspaces, i + 1, tempFolder, deliver, workspaceOf);
    }
  }

  /** Every event of a suite names an item of the tree with the key of one
      of the suite's test cases. */
  lemma {:induction false} SuiteEventItems(roots: seq<Node>, cases: seq<TestCase>, request: Request)
    ensures forall e :: e in SuiteEvents(roots, cases, request) ==>
      (exists n :: n in Subtrees(roots) && n.id == e.id) && (exists k :: 0 <= k < |cases| && Key(cases[k]) == e.id)
    decreases |cases|
  {
    if cases != [] {
      var init := cases[..|cases| - 1];
      var tc := cases[|cases| - 1];
      SuiteEventItems(roots, init, request);
      assert forall k :: 0 <= k < |init| ==> init[k] == cases[k];
      if CaseEvents(roots, tc, request) != [] {
        CaseEventItem(roots, tc, request);
      }
    }
  }

  /** Every event a run reports names an item of the tree. */
  lemma {:induction false} RunEventItems(roots: seq<Node>, request: Request, runnerArgs: seq<string>, workspaces: seq<string>, i: nat,
                                         tempFolder: nat -> string, deliver: Invocation -> Delivery, workspaceOf: string -> Option<string>)
    ensures forall e :: e in Events(roots, request, runnerArgs, workspaces, i, tempFolder, deliver, workspaceOf) ==>
      exists n :: n in Subtrees(roots) && n.id == e.id
    decreases |workspaces| - i
  {
    if i < |workspaces| {
      var inv := FolderInvocation(runnerArgs, workspaces, i, tempFolder, workspaceOf);
      if deliver(inv).Parsed? {
        SuiteEventItems(roots, deliver(inv).suite.testcase, request);
        RunEventItems(roots, request, runnerArgs, workspaces, i + 1, tempFolder, deliver, workspaceOf);
      }
    }
  }

  /** With nothing selected, every root item's path is run. */
  lemma RunSelectsAllRoots(roots: seq<Node>, tempFolder: nat -> string, deliver: Invocation -> Delivery,
                           workspaceOf: string -> Option<string>)
    ensures Run(roots, Request(None, []), tempFolder, deliver, workspaceOf).invoked ==
      Invoked(Uris(roots), Workspaces(Uris(roots), workspaceOf), 0, tempFolder, deliver, workspaceOf)
  {
    NoSelectionRoots(roots);
  }
}
