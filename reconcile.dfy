/** Reporting a parsed suite back onto the tree: each test case is matched
    to the first item with its key below the root items, filtered by the
    run request, and reported as passed or failed. */
module Reconcile {
  import opened Common
  import opened Tree
  import opened Junit
  import opened Selection

  /** `run.passed(item, duration)` and `run.failed(item, message, duration)`,
      naming the item by id; durations are in milliseconds. */
  datatype Event = Passed(id: string, duration: real) | Failed(id: string, message: string, duration: real)

  /** A missing attribute in a template literal renders as `undefined`. */
  function Render(s: Option<string>): string {
    match s
    case None => "undefined"
    case Some(v) => v
  }

  /** One entry: `${inner}\n${message}`. */
  function EntryText(d: Detail): string {
    Render(d.inner) + "\n" + Render(d.message)
  }

  function EntryTexts(ds: seq<Detail>): (r: seq<string>)
    ensures |r| == |ds| && forall k :: 0 <= k < |ds| ==> r[k] == EntryText(ds[k])
  {
    if ds == [] then [] else [EntryText(ds[0])] + EntryTexts(ds[1..])
  }

  /** The failure message: the entries joined by a blank line. */
  function Message(ds: seq<Detail>): string {
    Join(EntryTexts(ds), "\n\n")
  }

  /** The filter as written: an item is reported unless it is both in the
      include list and in the exclude list. */
  predicate InScope(id: string, request: Request) {
    !(request.includes.Some? && id in request.includes.value) || !(id in request.excludes)
  }

  /** The event for a matched test case: an `error` list (even an empty
      one) is checked before a `failure` list. */
  function Outcome(tc: TestCase, node: Node): Event {
    var ms := tc.time * 1000.0;
    if tc.error.Some? then Failed(node.id, Message(tc.error.value), ms)
    else if tc.failure.Some? then Failed(node.id, Message(tc.failure.value), ms)
    else Passed(node.id, ms)
  }

  /** The events of one test case: none when no item matches its key or the
      filter drops it, otherwise its outcome. */
  function CaseEvents(roots: seq<Node>, tc: TestCase, request: Request): seq<Event> {
    match FirstChild(Key(tc), roots)
    case None => []
    case Some(n) => if InScope(n.id, request) then [Outcome(tc, n)] else []
  }

  /** The events of the test cases in report order. */
  function SuiteEvents(roots: seq<Node>, cases: seq<TestCase>, request: Request): seq<Event>
    decreases |cases|
  {
    if cases == [] then []
    else SuiteEvents(roots, cases[..|cases| - 1], request) + CaseEvents(roots, cases[|cases| - 1], request)
  }

  /** Lines 184-212: the loop over the reported test cases. */
  method ReportSuite(roots: seq<Node>, suite: TestSuite, request: Request) returns (events: seq<Event>)
    ensures events == SuiteEvents(roots, suite.testcase, request)
  {
    events := [];
    var cases := suite.testcase;
    var k := 0;
    while k < |cases|
      invariant 0 <= k <= |cases|
      invariant events == SuiteEvents(roots, cases[..k], request)
    {
      assert cases[..k + 1][..k] == cases[..k];
      var tc := cases[k];
      var found: Option<Node> := None;
      var j := 0;
      while j < |roots|
        invariant 0 <= j <= |roots|
        invariant found == FirstChild(Key(tc), roots[..j])
      {
        if found.None? {
          found := GetChild(Key(tc), roots[j]);
        }
        FirstChildSnoc(Key(tc), roots[..j], roots[j]);
        assert roots[..j + 1] == roots[..j] + [roots[j]];
        j := j + 1;
      }
      assert roots[..j] == roots;
      if found.Some? && InScope(found.value.id, request) {
        events := events + [Outcome(tc, found.value)];
      }
      k := k + 1;
    }
    assert cases[..k] == cases;
  }

  lemma {:induction false} FirstChildSnoc(id: string, cs: seq<Node>, c: Node)
    ensures FirstChild(id, cs + [c]) == if FirstChild(id, cs).Some? then FirstChild(id, cs) else GetChild(id, c)
    decreases |cs|
  {
    if cs == [] {
      assert FirstChild(id, [c]) == (match GetChild(id, c) case Some(x) => Some(x) case None => FirstChild(id, []));
    } else {
      assert (cs + [c])[0] == cs[0];
      assert (cs + [c])[1..] == cs[1..] + [c];
      FirstChildSnoc(id, cs[1..], c);
    }
  }

  // ---------------------------------------------------------------------
  // Properties.

  /** A test case is reported exactly when some item strictly below a root
      item has its key and the first such item is not in both lists. */
  lemma CaseReported(roots: seq<Node>, tc: TestCase, request: Request)
    ensures FirstChild(Key(tc), roots).Some? <==> exists i :: 0 <= i < |roots| && HasId(roots[i].children, Key(tc))
    ensures CaseEvents(roots, tc, request) != [] <==>
      FirstChild(Key(tc), roots).Some? && InScope(FirstChild(Key(tc), roots).value.id, request)
  {
    FirstChildSpec(Key(tc), roots);
  }

  /** The filter drops an item only when it is in both lists; an include
      list alone or an exclude list alone drops nothing. */
  lemma SkippedOnlyWhenInBoth(id: string, request: Request)
    ensures !InScope(id, request) <==>
      request.includes.Some? && id in request.includes.value && id in request.excludes
  {
  }

  /** The reported item is one with the test case's key, below a root item. */
  lemma CaseEventItem(roots: seq<Node>, tc: TestCase, request: Request)
    requires CaseEvents(roots, tc, request) != []
    ensures CaseEvents(roots, tc, request) == [Outcome(tc, FirstChild(Key(tc), roots).value)]
    ensures CaseEvents(roots, tc, request)[0].id == Key(tc)
    ensures FirstChild(Key(tc), roots).value in Subtrees(roots)
  {
    FirstChildSpec(Key(tc), roots);
  }

  /** Error before failure: with an `error` list the event is a failure
      carrying the error entries, whatever the `failure` list holds. */
  lemma ErrorFirst(tc: TestCase, node: Node)
    requires tc.error.Some?
    ensures Outcome(tc, node) == Failed(node.id, Message(tc.error.value), tc.time * 1000.0)
  {
  }

  /** Without either list the test passed. */
  lemma PassedWithoutDetails(tc: TestCase, node: Node)
    ensures Outcome(tc, node).Passed? <==> tc.error.None? && tc.failure.None?
  {
  }

  /** A single entry's message is `inner`, a newline and `message`. */
  lemma MessageOne(d: Detail)
    ensures Message([d]) == Render(d.inner) + "\n" + Render(d.message)
  {
  }

  /** The message of more entries is the messages of their parts separated
      by a blank line. */
  lemma MessageAppend(a: seq<Detail>, b: seq<Detail>)
    requires a != [] && b != []
    ensures Message(a + b) == Message(a) + "\n\n" + Message(b)
  {
    assert EntryTexts(a + b) == EntryTexts(a) + EntryTexts(b);
    JoinAppend(EntryTexts(a), EntryTexts(b), "\n\n");
  }

  /** The events of a report are the events of its parts in order. */
  lemma {:induction false} SuiteEventsAppend(roots: seq<Node>, a: seq<TestCase>, b: seq<TestCase>, request: Request)
    ensures SuiteEvents(roots, a + b, request) == SuiteEvents(roots, a, request) + SuiteEvents(roots, b, request)
    decreases |b|
  {
    if b == [] {
      assert a + b == a;
    } else {
      var b0 := b[..|b| - 1];
      assert (a + b)[..|a + b| - 1] == a + b0;
      assert (a + b)[|a + b| - 1] == b[|b| - 1];
      SuiteEventsAppend(roots, a, b0, request);
    }
  }

  /** At most one event per test case. */
  lemma {:induction false} SuiteEventsLength(roots: seq<Node>, cases: seq<TestCase>, request: Request)
    ensures |SuiteEvents(roots, cases, request)| <= |cases|
    decreases |cases|
  {
    if cases != [] {
      SuiteEventsLength(roots, cases[..|cases| - 1], request);
    }
  }
}
