/** The parsed JUnit report (`junit2json.TestSuite`) as an input value, the
    identity key of a test case, and `getTestCaseFromJunit`. */
module Junit {
  import opened Common

  /** One `<failure>` or `<error>` entry: its text content and its `message`
      attribute, either of which may be missing. */
  datatype Detail = Detail(inner: Option<string>, message: Option<string>)

  /** One `<testcase>`: `file` and `name`, the elapsed seconds, the optional
      1-based `line`, and optional lists of failure and error entries (a
      present but empty list is still present). */
  datatype TestCase = TestCase(
    file: string,
    name: string,
    time: real,
    line: Option<int>,
    failure: Option<seq<Detail>>,
    error: Option<seq<Detail>>)

  /** A `<testsuite>`: its `tests` attribute and its cases in report order. */
  datatype TestSuite = TestSuite(tests: int, testcase: seq<TestCase>)

  /** What one `crystal spec` invocation yields once its report is read and
      parsed: nothing ever (the runner was already busy), a rejection with
      its message, or the parsed suite. */
  datatype Delivery = NeverSettles | Failure(reason: string) | Parsed(suite: TestSuite)

  /** The identity key of a test case: file and name joined by one space. */
  function Key(tc: TestCase): string {
    tc.file + " " + tc.name
  }

  /** `getTestCaseFromJunit(id, junit)`: the first case in report order whose
      key is `id`, or the error `Could not find testcase <id>`. */
  function FindTestCase(id: string, cases: seq<TestCase>): (r: Result<TestCase>)
    ensures r.Ok? ==> exists i :: 0 <= i < |cases| && cases[i] == r.value && Key(r.value) == id
                                  && forall k :: 0 <= k < i ==> Key(cases[k]) != id
    ensures r.Err? <==> forall i :: 0 <= i < |cases| ==> Key(cases[i]) != id
    ensures r.Err? ==> r.message == "Could not find testcase " + id
  {
    if cases == [] then Err("Could not find testcase " + id)
    else if Key(cases[0]) == id then Ok(cases[0])
    else
      var r := FindTestCase(id, cases[1..]);
      assert r.Ok? ==> forall k :: 1 <= k < |cases| ==> cases[k] == cases[1..][k - 1];
      r
  }

  function GetTestCaseFromJunit(id: string, junit: TestSuite): (r: Result<TestCase>)
    ensures r.Ok? ==> r.value in junit.testcase && Key(r.value) == id
    ensures r.Err? <==> forall i :: 0 <= i < |junit.testcase| ==> Key(junit.testcase[i]) != id
  {
    FindTestCase(id, junit.testcase)
  }
}
