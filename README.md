# Crystal spec test provider: a verified model

This project models `CrystalTestingProvider`, the class that connects the
Crystal compiler's `crystal spec --junit_output` report to the editor's
tree of test items. It covers four parts of that class:

- **The test tree.** `convertJunitTestcases` turns each reported test case
  into a leaf, below one item per path segment of its file. A root item with
  the cumulative path is reused first, then a child of the current parent.
  The tree is also changed by:
  - `getChild`, the recursive lookup;
  - `deleteTestItem` and `deleteWorkspaceChildren`;
  - the refresh handler, which empties the tree;
  - the save handler, which drops a spec file's items and discovers the file
    again;
  - the workspace-folder handler.
- **Selection.** `generateRunnerArgs` maps the run request to file paths, in
  include, exclude or no-selection mode. The run handler groups those paths
  by workspace folder and builds one command line per folder:
  `["spec", "--junit_output", tmp]`, followed by the paths.
- **Reconciliation.** Each test case of a parsed report is matched to the
  first item whose id is the case's key, `file + " " + name`. The request
  filter is applied, and one passed or failed event is reported.
- **The runner guard.** `execCrystal` uses the `executingCrystal` flag so
  that at most one compiler process runs at a time.

The tree is a value: `Tree.Node` has an id, a label, a uri path, an
optional range and ordered children. Sibling ids are unique (`WellFormed`).

The provider is a class, `Provider.TestProvider`, whose fields are
`controller.items` and `workspaceFolders`. Each handler is a method that
updates those fields in place. Each method's contract ties the new state to
a function of the old state, and the lemmas about those functions state what
the code promises.

The runner is a second class, `Runner.CrystalRunner`. Its `data`, `error`
and `exit` events are method calls.

The files follow the source's structure:

| file | what it models |
|---|---|
| `common.dfy` | `Option`, `Result`, promise states and the JavaScript string operations used (`replace` with a string pattern, `split`, `join`, `startsWith`, `endsWith`) |
| `tree.dfy` | test items, `TestItemCollection` (`get`, `add`, `delete`) and `getChild` |
| `junit.dfy` | the parsed report as input data, the key of a test case, `getTestCaseFromJunit` |
| `discovery.dfy` | `convertJunitTestcases` as functions, with the closed form of the walk and its properties |
| `deletion.dfy` | `deleteTestItem` and `deleteWorkspaceChildren` as functions, with their properties |
| `selection.dfy` | `generateRunnerArgs`, grouping by workspace folder, the command line |
| `reconcile.dfy` | matching reported test cases to items and the events reported |
| `runner.dfy` | the `execCrystal` state machine as written, and a guarded variant |
| `controller.dfy` | `TestProvider`: the handlers as methods over the tree |
| `run.dfy` | the run-profile handler as a method, proved against `Run` |

The environment is passed in as parameters:

- `getWorkspaceFolder` (`workspaceOf`): a function from a path to an
  optional workspace folder path.
- The `shard.yml`/`spec` existence test (`isSpecProject`).
- The temporary folder chosen for each run (`tempFolder`).
- What a compiler invocation yields once its report has been read and
  parsed (`deliver`): a promise that never settles, a rejection, or a parsed
  suite.

Three behaviours follow the code, though a reader might expect otherwise:

- **Empty include list.** An include list that is present but empty still
  selects include mode, because an array is truthy in JavaScript.
- **Exclude mode.** The exclude mode never yields a path, not even for a
  leaf. A non-excluded item only concatenates its children's results, so
  every item yields nothing (`Selection.ExcludeModeEmpty`).
- **Result filter.** The filter uses the `||` that the code writes. As a
  result, an item is skipped only when it is in both lists
  (`Reconcile.SkippedOnlyWhenInBoth`). A request that gives both lists is not
  rejected.

Test errors are reported with `run.failed`, as the code does. There is no
separate "errored" event.

## Model

| member | source | states |
|---|---|---|
| Common.ReplaceFirstSpec | src/crystalSpec.ts:381 | `replace(fullPath, "")` with a string pattern replaces only the first occurrence, wherever it is, and leaves a string without an occurrence unchanged |
| Common.JoinSplit | src/crystalSpec.ts:381 | splitting a path on `path.sep` (`/` on a POSIX host) and joining the pieces again gives the path back |
| Common.SplitPiecesHaveNoSep | src/crystalSpec.ts:381 | no piece of the split contains the separator |
| Common.SegmentsOfPath | src/crystalSpec.ts:381 | after dropping empty pieces, the segments of `/p1/.../pn` are exactly `p1` ... `pn` |
| Tree.Get | src/crystalSpec.ts:388 | `items.get(id)` returns an item of the collection with that id, and returns nothing exactly when no item has it |
| Tree.Add | src/crystalSpec.ts:406-416 | `add` replaces an item with the same id where it stands, or else appends; afterwards `get` finds the new item, and unique ids stay unique |
| Tree.Delete | src/crystalSpec.ts:47-49 | `items.delete(id)` keeps exactly the items with another id, never more items than there were, and changes nothing when no item has the id |
| Tree.DeleteAppend | src/crystalSpec.ts:47-49 | `delete` keeps the order and the number of the remaining items: on two collections laid end to end it is the deletion from each, one after the other |
| Tree.DeleteFirst | src/crystalSpec.ts:47-49 | deleting the first root item's id from a collection with unique ids leaves exactly the other root items |
| Tree.GetChildSpec | src/crystalSpec.ts:334-345 | `getChild(id, p)` returns an item strictly below `p` with that id (never `p` itself); it returns nothing exactly when no item below `p` has that id; a direct child is preferred to any deeper item, and without one the hit is the one found below the first child, in order, that has the id below it |
| Tree.FirstChildSpec | src/crystalSpec.ts:339-343 | the search over the children in order finds an item with the id that lies in the forest, and finds nothing exactly when no child has the id below it; a hit is `getChild` of the first child that has the id below it, no earlier child having one |
| Tree.AtAddAtNew | src/crystalSpec.ts:422 | after `parent.children.add(item)`, the item is reachable one step below the parent |
| Tree.AtAddAtKeeps | src/crystalSpec.ts:408 | adding below a parent keeps every item reachable, except those below an item that the new one replaces |
| Tree.AtAddAtFrame | src/crystalSpec.ts:408 | adding below a parent leaves the item at every path unchanged that is neither a prefix of the parent's path nor runs through the new item's slot |
| Tree.AddAtWellFormed | src/crystalSpec.ts:408 | adding below any parent keeps sibling ids unique at every level |
| Junit.FindTestCase | src/crystalSpec.ts:318-332 | returns the first test case in report order whose key is `id`; the error `Could not find testcase <id>` is returned exactly when no case has that key |
| Junit.GetTestCaseFromJunit | src/crystalSpec.ts:318-332 | the case found is one of the suite's cases and has key `id`; the error is returned exactly when no case of the suite has that key |
| Selection.IncludeModeSelected | src/crystalSpec.ts:221-230 | with an include list whose items are not nested in one another, an item yields the uri paths of the selected items of its subtree, in depth-first order |
| Selection.IncludeModeSound | src/crystalSpec.ts:221-230 | with any include list, every path yielded is the uri path of a selected item of the subtree |
| Selection.ExcludeModeEmpty | src/crystalSpec.ts:231-240 | with only a non-empty exclude list, every item, leaf or not, yields no path |
| Selection.NoSelectionRoots | src/crystalSpec.ts:241-243 | with neither list, the root items yield their own uri paths, one each, in order |
| Selection.CollectRunnerArgs | src/crystalSpec.ts:151-157 | the loop over the root items concatenates their `generateRunnerArgs` results in order |
| Selection.WorkspacesSpec | src/crystalSpec.ts:159-166 | the folder list holds each folder once, and holds a folder exactly when some path lies in it |
| Selection.WorkspacesPrefix | src/crystalSpec.ts:159-166 | more paths only extend the folder list at its end, so folders stay in order of first appearance |
| Selection.CollectWorkspaces | src/crystalSpec.ts:159-166 | the loop builds exactly the distinct folders in order of first appearance, skipping paths outside every folder |
| Selection.PathsIn | src/crystalSpec.ts:169-174 | a folder's group holds exactly the paths that lie in that folder, and no more entries than the paths |
| Selection.PathsInAppend | src/crystalSpec.ts:169-174 | the group keeps the order and the repetitions of the paths, as `args.push` in `forEach` order does: on two lists laid end to end it is the group of each, one after the other |
| Selection.CollectPathsIn | src/crystalSpec.ts:169-174 | the loop keeps exactly the folder's paths, in their original order |
| Selection.GroupsPartition | src/crystalSpec.ts:159-174 | every path in a folder belongs to exactly that folder's group, and its folder is among those run |
| Selection.CommandArgsShape | src/crystalSpec.ts:131-134 | the command line is always `spec`, `--junit_output` and the temporary folder, followed by exactly the paths |
| Discovery.Convert | src/crystalSpec.ts:348-353 | a suite with `tests` 0 leaves the tree as it was, and the promise never settles; any other suite settles the promise |
| Discovery.InsertCaseOutcome | src/crystalSpec.ts:365-422 | a test case throws exactly when its line is below 1, its file is in no workspace folder, or no segment is left below `<workspace>/spec`; each of these throws its own error |
| Discovery.WalkFromRoots | src/crystalSpec.ts:375-418 | the segment loop ends on the parent `ParentPath`: the cumulative paths from the last one that names a root item. That parent is reachable, at most the first cumulative path becomes a new root item, and every item reachable before stays reachable |
| Discovery.WalkFromParent | src/crystalSpec.ts:381-418 | from an existing parent, the loop adds no root item, keeps every reachable item, and goes through the parents given by the root ids alone |
| Discovery.WalkRevisit | src/crystalSpec.ts:388-403 | when every parent on the way already has an item, the loop reuses them all and changes nothing |
| Discovery.InsertCaseLands | src/crystalSpec.ts:420-422 | a test case whose file has segments is added as a leaf below `ParentPath` |
| Discovery.InsertCaseShape | src/crystalSpec.ts:355-422 | the leaf lands below `ParentPath`, the root ids change by at most the first cumulative path, and no reachable item is lost except below a replaced item |
| Discovery.InsertCaseKeepsAt | src/crystalSpec.ts:355-422 | inserting a test case leaves the item at every path as it was, when the path's last id is none of the case's cumulative paths and the path does not hold the case's key |
| Discovery.InsertCasesShape | src/crystalSpec.ts:355-424 | for a suite whose test cases all insert and in which no key is another case's key or one of another case's cumulative paths, nothing throws and every case's leaf `TestItem(tc)` is, at the end, at the path where it landed when that case was inserted |
| Discovery.InsertCaseIdempotent | src/crystalSpec.ts:388-422 | inserting the same test case a second time changes nothing, provided its key is not one of its file's cumulative paths |
| Discovery.WalkAddIdempotent | src/crystalSpec.ts:381-422 | the segment loop plus adding a leaf, done twice, is done once: the second walk reuses every item and ends on the same parent, and re-adding the leaf replaces it with itself |
| Discovery.SpecFileCase | src/crystalSpec.ts:355-422 | a test case of a spec file `<workspace>/spec/p1/.../pn` is inserted as leaf `TestItem(tc)` (id `file + " " + name`, label `name`, uri `file`, range on line `line - 1`), below the item whose id is the file path itself |
| Discovery.SpecFileReinsert | src/crystalSpec.ts:355-422 | inserting a test case of such a spec file a second time changes nothing |
| Discovery.SpecFileChain | src/crystalSpec.ts:375-384 | for a spec file `<workspace>/spec/p1/.../pn` the walk visits `p1` ... `pn`, and its last cumulative path is the file |
| Discovery.WalkWellFormed | src/crystalSpec.ts:381-418 | the segment loop keeps sibling ids unique at every level |
| Discovery.InsertCaseWellFormed | src/crystalSpec.ts:355-422 | adding one test case keeps sibling ids unique at every level |
| Discovery.InsertCasesWellFormed | src/crystalSpec.ts:355-424 | `convertJunitTestcases`, whether it completes or throws part-way, leaves sibling ids unique at every level |
| Deletion.ClearInSpec | src/crystalSpec.ts:85-89 | clearing keeps the found item and every id on the way; `getChild` then finds the same item with no children, and exactly the items below it are gone; the result is `p` with the found item, at its child positions, replaced by its childless copy, so no other item changes |
| Deletion.ClearFirstSpec | src/crystalSpec.ts:85-89 | clearing in the first child with a hit keeps the ids of the children and empties exactly the item the search finds; the result is the children with one of them replaced along the positions of that item, all else unchanged |
| Deletion.DeleteItemSpec | src/crystalSpec.ts:83-94 | a root item with a match below it stays, with that match emptied; a root item whose own id matches, with no match below it, is dropped; every other root item stays as it was |
| Deletion.DeleteItemAppend | src/crystalSpec.ts:84-93 | `deleteTestItem` treats each root item on its own and keeps the order of the root items: on two collections laid end to end it is the result for each, one after the other |
| Deletion.DeleteItemOne | src/crystalSpec.ts:85-92 | the three fates of one root item: a match strictly below it is emptied in place; otherwise the item is dropped when its own id matches and kept as it was when not |
| Deletion.DeleteItemIds | src/crystalSpec.ts:83-94 | `deleteTestItem` adds no root id |
| Deletion.DeleteItemNoDescendant | src/crystalSpec.ts:83-94 | when no root item has the id below it, `deleteTestItem` only drops the root items with that id |
| Deletion.DeleteItemWellFormed | src/crystalSpec.ts:83-94 | `deleteTestItem` keeps sibling ids unique at every level |
| Deletion.DeleteWorkspaceSpec | src/crystalSpec.ts:96-102 | on directory root items, `deleteWorkspaceChildren` removes exactly the root items whose uri path starts with the workspace path (a plain string-prefix test) and leaves the others unchanged and in their order, equal to the in-order filter `Outside` |
| Deletion.DeleteWorkspaceFromKept | src/crystalSpec.ts:96-102 | the visits by id over the snapshot of root ids leave the root items, in order, except those visited with a uri path under the workspace |
| Deletion.DeleteWorkspaceFromIds | src/crystalSpec.ts:96-102 | on any tree, `deleteWorkspaceChildren` adds no root id |
| Deletion.DeleteWorkspaceFromWellFormed | src/crystalSpec.ts:96-102 | `deleteWorkspaceChildren` keeps sibling ids unique at every level |
| Reconcile.ReportSuite | src/crystalSpec.ts:184-212 | the loop over the reported test cases reports exactly `SuiteEvents`: one event or none per test case, in report order |
| Reconcile.CaseReported | src/crystalSpec.ts:184-194 | an item is found exactly when some root item has the key below it; a case is reported exactly when an item is found and the filter keeps it |
| Reconcile.CaseEventItem | src/crystalSpec.ts:184-212 | a reported case gives the outcome for the first item found, whose id is the case's key and which lies in the tree |
| Reconcile.SkippedOnlyWhenInBoth | src/crystalSpec.ts:194 | the filter as written drops an item exactly when it is both in the include list and in the exclude list |
| Reconcile.ErrorFirst | src/crystalSpec.ts:195-206 | a case with an `error` list, even an empty one, fails with the error entries, whatever its `failure` list |
| Reconcile.PassedWithoutDetails | src/crystalSpec.ts:195-209 | a case passes exactly when it has neither an `error` list nor a `failure` list |
| Reconcile.MessageOne | src/crystalSpec.ts:198 | one entry's message is `inner`, a newline and `message` |
| Reconcile.MessageAppend | src/crystalSpec.ts:198 | entries are joined by a blank line |
| Reconcile.SuiteEventsAppend | src/crystalSpec.ts:184-212 | the events of a report are the events of its parts, in order |
| Reconcile.SuiteEventsLength | src/crystalSpec.ts:184-212 | at most one event per test case |
| Runner.DigitsValue | src/crystalSpec.ts:279 | the code in `Exited with error code <code>` reads back as the exit code |
| Runner.ExitResult | src/crystalSpec.ts:276-284 | an exit code above 1 rejects with that code and the output; any other code, or none after a signal, resolves with the output |
| Runner.SettleOnce | src/crystalSpec.ts:273-282 | a settled promise keeps its outcome whatever comes later, and a settling outcome settles a pending promise |
| Runner.RunningAtMostOne | src/crystalSpec.ts:248-253 | when every process but the last has ended, at most one process runs |
| Runner.CrystalRunner.ExecCrystal | src/crystalSpec.ts:246-259 | while the flag is set, nothing is spawned, the flag stays set and no handle is returned (the promise never settles); otherwise the flag is set and one process is spawned with empty output; when `spawn` throws, the promise rejects with that error, no listener is attached and the flag stays set |
| Runner.CrystalRunner.OnData | src/crystalSpec.ts:261-269 | stdout and stderr data are appended to the output in arrival order, and nothing else changes |
| Runner.CrystalRunner.OnError | src/crystalSpec.ts:271-274 | an `error` event clears the flag and rejects the pending promise |
| Runner.CrystalRunner.OnExit | src/crystalSpec.ts:276-284 | an `exit` event clears the flag, then rejects for a code above 1 and resolves otherwise |
| Runner.LateExitScenario | src/crystalSpec.ts:271-284 | as written, a late `exit` after an `error` lets a third call spawn while the second process runs: two processes run at once |
| Runner.GuardedRunner.ExecCrystal | src/crystalSpec.ts:246-259 | with guarded listeners and the flag cleared when `spawn` throws, a call spawns only when no process runs, and at most one process ever runs |
| Runner.GuardedRunner.OnError | src/crystalSpec.ts:271-274 | only the first of a process's `error` and `exit` events acts, and the single-flight invariant is kept |
| Runner.GuardedRunner.OnExit | src/crystalSpec.ts:276-284 | a stale `exit` after `error` changes nothing, and the flag says whether the one running process runs |
| Runner.GuardedScenario | src/crystalSpec.ts:271-284 | with guarded listeners, the same events leave one process running and refuse the third call |
| Runner.SpawnThrowScenario | src/crystalSpec.ts:253-257 | as written, after `spawn` throws no process runs, yet the next call spawns nothing and its promise never settles |
| Runner.GuardedSpawnThrowScenario | src/crystalSpec.ts:253-257 | with the flag cleared when `spawn` throws, the next call spawns its process |
| Provider.SpecFolders | src/crystalSpec.ts:59-68 | the spec folders are exactly the workspace folders with a `shard.yml` and a `spec` entry, and no more entries than the workspace folders |
| Provider.SpecFoldersAppend | src/crystalSpec.ts:59-68 | the spec folders keep the order and the repetitions of the workspace folders, as `folders.push` in `forEach` order does: on two lists laid end to end they are the spec folders of each, one after the other |
| Provider.DiscoverSpec | src/crystalSpec.ts:112-125 | `getTestCases`' promise chain changes the tree only for a parsed suite with tests; its promise stays pending exactly when the runner never settles or the suite has no tests, and resolves exactly when every test case is inserted; sibling ids stay unique |
| Provider.RefreshInvocations | src/crystalSpec.ts:75-81 | `refreshTestCases` runs the spec folders in order, each at most once, with no paths after the fixed words |
| Provider.RefreshStopsAt | src/crystalSpec.ts:75-81 | a folder whose run fails or never settles is the last folder run |
| Provider.MatchChild | src/crystalSpec.ts:394-399 | the loop finds the first child of the parent whose id is the full path |
| Provider.TestProvider.constructor | src/crystalSpec.ts:18-24 | with the `specs` setting off, nothing is set up; otherwise the spec folders are found and discovered in order |
| Provider.TestProvider.RefreshSpecWorkspaceFolders | src/crystalSpec.ts:59-68 | the field becomes `SpecFolders` of the workspace folders, and the tree is unchanged |
| Provider.TestProvider.RefreshTestCases | src/crystalSpec.ts:75-81 | the tree and the invocations are those of `RefreshFrom`, the folder field is unchanged, and sibling ids stay unique |
| Provider.TestProvider.DeleteTestItem | src/crystalSpec.ts:83-94 | the root items become `DeleteItem` of the old ones, and sibling ids stay unique |
| Provider.TestProvider.DeleteWorkspaceChildren | src/crystalSpec.ts:96-102 | the root items become `DeleteWorkspace` of the old ones, visited in order by id, and sibling ids stay unique |
| Provider.TestProvider.GetTestCases | src/crystalSpec.ts:104-126 | the run uses the command line `CommandArgs`, and the tree and the promise state are those of `Discover` |
| Provider.TestProvider.ConvertJunitTestcases | src/crystalSpec.ts:347-430 | the tree and the promise state are those of `Convert`; a throw keeps the earlier test cases' changes |
| Provider.TestProvider.InsertTestCase | src/crystalSpec.ts:355-424 | adds one test case as `InsertCase` says, and on a throw returns its error with the tree unchanged |
| Provider.TestProvider.WalkSegments | src/crystalSpec.ts:375-418 | the segment loop, from `<workspace>/spec` and no parent, ends in the state `Walk` gives |
| Provider.TestProvider.VisitSegment | src/crystalSpec.ts:381-417 | one iteration reuses a root item, then a child of the parent, and otherwise adds a directory item, as `Step` gives |
| Provider.TestProvider.OnSave | src/crystalSpec.ts:26-31 | saving a non-spec file or a non-`file` uri changes nothing; saving a spec file deletes its items, then discovers that file in its own folder |
| Provider.TestProvider.OnWorkspaceFoldersChanged | src/crystalSpec.ts:33-43 | the folder list is refreshed, the removed folders' items are deleted in order, and then each added folder's discovery is applied in order |
| Provider.TestProvider.Refresh | src/crystalSpec.ts:45-51 | the refresh handler refreshes the folder list, empties the tree, and discovers every spec folder from the empty tree |
| Provider.TestProvider.DeleteAllItems | src/crystalSpec.ts:47-49 | deleting every root by its id leaves the tree empty and still well formed, with the folder field unchanged |
| RunProfile.RunAdvance | src/crystalSpec.ts:168-213 | one folder of the loop: a run that never settles stops with the run left open; a failed run ends the run; a parsed suite reports its events and goes on |
| RunProfile.RunFolder | src/crystalSpec.ts:169-212 | one folder's run uses exactly its own paths on the command line and reports the events of the suite it yields |
| RunProfile.RunHandler | src/crystalSpec.ts:146-217 | the handler makes the invocations, reports the events and reaches `run.end()` exactly as `Run` says |
| RunProfile.RunInvocations | src/crystalSpec.ts:168-182 | folders are run in order, each at most once, each with exactly its own selected paths |
| RunProfile.RunStopsAt | src/crystalSpec.ts:176-182 | the first folder whose run fails or never settles is the last one run; the run is ended exactly when that run failed |
| RunProfile.RunAllParsed | src/crystalSpec.ts:168-216 | when every folder's run yields a suite, every folder is run and the run is ended |
| RunProfile.SuiteEventItems | src/crystalSpec.ts:184-212 | every event names an item of the tree whose id is the key of one of the suite's test cases |
| RunProfile.RunEventItems | src/crystalSpec.ts:184-212 | every event of a run names an item of the tree |
| RunProfile.RunSelectsAllRoots | src/crystalSpec.ts:151-157 | with nothing selected, the runs cover the root items' own paths |

## Left out

- `parseJunit` and the junit2json library are left out: the parsed report is
  input data (`Junit.TestSuite`). `readTestResults` and the report file are
  left out too; a missing or unreadable report is one of the rejections that
  `deliver` can give.
- Junit.TestSuite: the test-case list is always present (`seq<TestCase>`,
  empty when the report has no cases). In the junit2json report type,
  `testcase` is optional and missing when the XML has no `<testcase>`
  element. The code reads `testcase` unguarded at src/crystalSpec.ts:184
  and src/crystalSpec.ts:322, and `convertJunitTestcases` guards it only
  through `tests === 0` at src/crystalSpec.ts:349. On a report without the
  list, each of those reads throws a TypeError: `getTestCaseFromJunit`
  rejects with it instead of "Could not find testcase", and
  `convertJunitTestcases` rejects if `tests` is not 0. The model does not
  capture that path.
- RunProfile.RunAllParsed: proved for reports that carry a test-case list.
  In the run handler, a parsed report without one throws at
  src/crystalSpec.ts:184. The later folders are then not run, and
  `run.end()` at src/crystalSpec.ts:215 is not reached, whereas the model
  reports nothing for that folder and goes on.
- RunProfile.RunStopsAt: the same assumption. A parsed report without a
  test-case list would also be a last folder run, with the test run left
  open; the model does not stop there.
- Only a POSIX host is modelled: `path.sep` is the constant `Common.Sep`,
  `/`. On Windows, `path.sep` is `\`, while `uri.path` and the test file
  path from the report keep `/`. The walk at src/crystalSpec.ts:375-383
  then behaves differently: `fullPath` mixes both separators, so the
  `replace` at line 381 finds nothing, `split` returns the whole file path
  as one segment, and one odd root item is made for it. The model does not
  capture that behaviour.
- `mkdtempSync` and `tmpdir` are left out: the temporary folder is a
  parameter.
- The `shard.yml` and `spec` existence checks are the predicate
  `isSpecProject`.
- `spawn` and Node's event plumbing are left out. Whether `spawn` throws
  synchronously, and with which error, is the parameter `thrown` of
  `ExecCrystal`. In `Runner`, the `data`, `error` and `exit` events are method
  calls made in any order the caller picks. The provider and the run handler do not call `Runner`. They take
  each invocation's outcome from `deliver`, and a busy runner's promise that
  never settles appears there as `NeverSettles`. The model does not check
  that `deliver` agrees with the runner's flag.
- `execTestCases` (src/crystalSpec.ts:128-144) is covered by
  `RunProfile.RunFolder`: its invocation is built the same way as in
  `getTestCases`, and its outcome comes from `deliver`.
- The VS Code API is reduced to what the model needs:
  - `getWorkspaceFolder` is the function `workspaceOf`;
  - `Uri` values are their paths;
  - `Range` and `Position` are plain data;
  - `TestRun.passed` and `TestRun.failed` are `Reconcile.Event` values;
  - `run.end()` is the `ended` flag;
  - output-channel logging is left out.
- Object identity in the source becomes equality of ids and paths:
  - items are included or excluded by id;
  - `workspaceFolders.includes` compares folder paths.
- Durations are reals (`time * 1000.0`). `Date.now()` and the elapsed-time
  log are left out.
- The order of asynchronous callbacks is not modelled. The promise of
  `refreshTestCases` never settles in the source; here it is not a value.
- In the workspace-folder handler, the added folders' discoveries are
  started before the removed folders are cleared. Their trees change only
  when their promise chains run, which is after the handler has returned.
  `Provider.TestProvider.OnWorkspaceFoldersChanged` therefore applies the
  removals first and then each added folder's discovery, in order. While the
  first added folder's compiler runs, each further discovery gets a promise
  that never settles; the model leaves that to `deliver`.
- The error messages for a negative line, a missing workspace folder and a
  null parent are the editor's and the JavaScript engine's message texts.
  Since the model only compares them, any three distinct strings would do.
- Discovery.InsertCaseIdempotent: it is stated for one test case whose key is
  not one of its file's cumulative paths. Inserting a whole suite twice is not
  claimed to be idempotent, because a later test case can add a root item that
  changes the walk of an earlier one (nested workspace folders).
- Deletion.DeleteWorkspaceSpec: the exact removal is stated only for trees in
  which every root item's id is its uri path and no root id occurs below a
  root item (`PlainRoots`). Discovery is not proved to build such trees: with
  nested workspace folders, or a test key such as `/w/spec/a b` that equals a
  root path, it may not. For other trees, only `DeleteWorkspaceFromIds` and
  `DeleteWorkspaceFromWellFormed` are stated.
- Selection.IncludeModeSelected: it is stated for selections in which no
  selected item lies below another. `Selection.IncludeModeSound` covers any
  selection, but only as inclusion.
- `Selection.Request`: the exclude list is always present. In the source,
  `excludes.length` (src/crystalSpec.ts:231) would throw when the request had
  neither list, which the editor never produces: it always passes an array.
- Discovery.InsertCasesShape: the suite-level placement is stated for suites
  in which every test case inserts. For a suite that throws part-way, only
  `Discovery.InsertCasesWellFormed` is stated.
- `src/crystalMacro.ts` (the hover provider for macro expansion) and
  `src/crystalContext.ts` are not part of this model.

## Findings

| source | as written | input that shows it | evidently intended | confidence | as-written member | corrected member |
|---|---|---|---|---|---|---|
| src/crystalSpec.ts:271-284 | both the `error` and the `exit` listener clear `executingCrystal`, whichever process they belong to and whether or not the other has already fired | call `execCrystal`; the first process reports `error`; a second call spawns; the first process then reports a late `exit` (Node documents that `exit` may follow `error`); a third call spawns while the second process runs. No input of this program is shown to produce that late `exit`: the only `error` this code can meet is a failed spawn, after which Node emits no `exit`; an `exit` after `error` comes from a failed kill, send or abort, which this code never does | at most one compiler process at a time: only the first of a process's `error` and `exit` acts | not executed; low, the listeners allow it but no trigger in this program is known | Runner.LateExitScenario | Runner.GuardedScenario |
| src/crystalSpec.ts:253-257 | `executingCrystal` is set before `spawn`, and `spawn` can throw synchronously (an undefined or empty `compiler` setting); the executor's throw rejects the promise, but no listener is attached, so the flag is never cleared | a first call whose `spawn` throws; every later call then spawns nothing and its promise never settles, though no process runs | a `spawn` that throws clears the flag again | not executed | Runner.SpawnThrowScenario | Runner.GuardedSpawnThrowScenario |
