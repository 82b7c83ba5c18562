/** Judging one submission: compile, run every test with one retry on a limit, and aggregate code and scores. */
module CheckerService {
  import opened Options
  import opened StatusCodes

  datatype CheckTest = CheckTest(number: int, input: string, output: string, score: Option<int>)

  datatype CheckRequest = CheckRequest(tests: seq<CheckTest>, allTests: bool)

  /** One entry of the per-test summary: points for a passed test, otherwise the verdict. */
  datatype Entry = Points(points: int) | Verdict(status: CheckerResultStatus)

  datatype CheckerResult = CheckerResult(statusCode: int, score: Option<int>, testResults: Option<seq<Entry>>)

  datatype CheckError = UnknownChecker | Aborted

  /**
   What the runner answers to each attempt at each test; None when the attempt throws.
   Every attempt is asked for at most once, so this covers every sequence of runner outcomes.
   */
  type Runner = (nat, nat) -> Option<CheckerResultStatus>

  predicate IsLimit(status: CheckerResultStatus) {
    status == TimeLimit || status == MemoryLimit
  }

  // ---------- Specification ----------

  /** The verdict recorded for a test. */
  function Settled(runner: Runner, i: nat): Option<CheckerResultStatus> {
    var first := runner(i, 0);
    if first.Some? && IsLimit(first.value) then runner(i, 1) else first
  }

  function Attempts(runner: Runner, i: nat): nat {
    if runner(i, 0).Some? && IsLimit(runner(i, 0).value) then 2 else 1
  }

  /** The verdicts recorded from test `i` on; None when an attempt throws. */
  function Results(request: CheckRequest, runner: Runner, i: nat): Option<seq<CheckerResultStatus>>
    requires i <= |request.tests|
    decreases |request.tests| - i
  {
    if i == |request.tests| then Some([])
    else
      var status := Settled(runner, i);
      if status.None? then None
      else if status.value != Accepted && !request.allTests then Some([status.value])
      else
        Prepend([status.value], Results(request, runner, i + 1))
  }

  /** The number of leading accepted verdicts. */
  function FirstFailure(results: seq<CheckerResultStatus>): (k: nat)
    ensures k <= |results|
    ensures forall i :: 0 <= i < k ==> results[i] == Accepted
    ensures k < |results| ==> results[k] != Accepted
  {
    if results == [] || results[0] != Accepted then 0 else 1 + FirstFailure(results[1..])
  }

  /** 2 when nothing failed, otherwise the code of the first failure. */
  function Code(tests: seq<CheckTest>, results: seq<CheckerResultStatus>): Option<int>
    requires |results| <= |tests|
  {
    var k := FirstFailure(results);
    if k == |results| then Some(ACCEPTED) else MakeStatusCode(results[k], Some(tests[k].number))
  }

  function TestScore(test: CheckTest, status: CheckerResultStatus): int {
    if status == Accepted && test.score.Some? then test.score.value else 0
  }

  function TotalScore(tests: seq<CheckTest>, results: seq<CheckerResultStatus>): int
    requires |results| <= |tests|
  {
    if results == [] then 0
    else TotalScore(tests, results[..|results| - 1]) + TestScore(tests[|results| - 1], results[|results| - 1])
  }

  function Entries(tests: seq<CheckTest>, results: seq<CheckerResultStatus>): seq<Entry>
    requires |results| <= |tests|
  {
    seq(|results|, i requires 0 <= i < |results| =>
      if results[i] == Accepted then Points(TestScore(tests[i], results[i])) else Verdict(results[i]))
  }

  predicate NeedScores(tests: seq<CheckTest>) {
    exists i :: 0 <= i < |tests| && tests[i].score.Some?
  }

  function Summary(tests: seq<CheckTest>, code: int, results: seq<CheckerResultStatus>): CheckerResult
    requires |results| <= |tests|
  {
    if NeedScores(tests) then CheckerResult(code, Some(TotalScore(tests, results)), Some(Entries(tests, results)))
    else CheckerResult(code, None, None)
  }

  function Outcome(request: CheckRequest, compiled: bool, checkerKnown: bool, runner: Runner)
    : Result<CheckerResult, CheckError>
  {
    if !compiled then Success(CheckerResult(COMPILATION_ERROR, None, None))
    else if !checkerKnown then Failure(UnknownChecker)
    else
      var results := Results(request, runner, 0);
      if results.None? then Failure(Aborted)
      else
        ResultsShape(request, runner, 0);
        var code := Code(request.tests, results.value);
        if code.None? then Failure(Aborted) else Success(Summary(request.tests, code.value, results.value))
  }

  // ---------- What a check does, told from the attempts it makes ----------

  /**
   The number of attempts made at each executed test: two when the first hits the time or memory limit. No
   attempt but the last test's throws, and a test that does not pass is the last one unless all are to run.
   */
  ghost predicate AreExecuted(request: CheckRequest, runner: Runner, attempts: seq<nat>) {
    && |attempts| <= |request.tests|
    && (forall i :: 0 <= i < |attempts| ==>
          attempts[i] == if runner(i, 0) == Some(TimeLimit) || runner(i, 0) == Some(MemoryLimit) then 2 else 1)
    && (forall i :: 0 <= i < |attempts| - 1 ==>
          runner(i, attempts[i] - 1).Some? && (request.allTests || runner(i, attempts[i] - 1) == Some(Accepted)))
  }

  /** The last attempt throws, or it is the first failure and its verdict cannot be coded with this test number. */
  ghost predicate Aborts(request: CheckRequest, runner: Runner, attempts: seq<nat>)
    requires AreExecuted(request, runner, attempts)
  {
    && attempts != []
    && var k := |attempts| - 1;
       var last := runner(k, attempts[k] - 1);
       || last == None
       || (&& (forall i :: 0 <= i < k ==> runner(i, attempts[i] - 1) == Some(Accepted))
           && last != Some(Accepted) && last != Some(InternalError)
           && (last == Some(CompilationError) || request.tests[k].number < 1 || request.tests[k].number > 999))
  }

  /**
   The result of a check that ran to its end: all tests, or those through the first failure; code 2 when every
   executed test passed, otherwise the code of the first failure; scores only when some test has one, and then an
   entry for each executed test and their total.
   */
  ghost predicate Summarises(request: CheckRequest, runner: Runner, attempts: seq<nat>, result: CheckerResult)
    requires AreExecuted(request, runner, attempts)
  {
    && (|attempts| < |request.tests| ==>
          !request.allTests && attempts != [] && runner(|attempts| - 1, attempts[|attempts| - 1] - 1) != Some(Accepted))
    && (if forall i :: 0 <= i < |attempts| ==> runner(i, attempts[i] - 1) == Some(Accepted) then result.statusCode == 2
        else exists k: nat ::
          && k < |attempts|
          && (forall i :: 0 <= i < k ==> runner(i, attempts[i] - 1) == Some(Accepted))
          && runner(k, attempts[k] - 1).Some? && runner(k, attempts[k] - 1) != Some(Accepted)
          && MakeStatusCode(runner(k, attempts[k] - 1).value, Some(request.tests[k].number)) == Some(result.statusCode))
    && (result.score.Some? <==> exists i :: 0 <= i < |request.tests| && request.tests[i].score.Some?)
    && (result.testResults.Some? <==> result.score.Some?)
    && (result.score.Some? ==>
          && |result.testResults.value| == |attempts|
          && result.score.value == PointsOf(result.testResults.value)
          && forall i :: 0 <= i < |attempts| ==>
               var last := runner(i, attempts[i] - 1);
               last.Some? && result.testResults.value[i]
                 == (if last != Some(Accepted) then Verdict(last.value)
                     else if request.tests[i].score.Some? then Points(request.tests[i].score.value) else Points(0)))
  }

  // ---------- The loops ----------

  /** The attempts at one test: a limit is retried once. */
  method RunTest(runner: Runner, i: nat) returns (outcome: Option<CheckerResultStatus>)
    ensures outcome == Settled(runner, i)
  {
    var counter := 0;
    while true
      invariant 0 <= counter < 2
      invariant counter == 1 ==> runner(i, 0).Some? && IsLimit(runner(i, 0).value)
      decreases 2 - counter
    {
      outcome := runner(i, counter);
      if outcome.Some? && IsLimit(outcome.value) {
        counter := counter + 1;
        if counter < 2 {
          continue;
        }
      }
      return;
    }
  }

  method Check(request: CheckRequest, compiled: bool, checkerKnown: bool, runner: Runner)
    returns (r: Result<CheckerResult, CheckError>, ghost attempts: seq<nat>)
    ensures r == Outcome(request, compiled, checkerKnown, runner)
    ensures !compiled ==> r == Success(CheckerResult(-1, None, None)) && attempts == []
    ensures compiled && !checkerKnown ==> r == Failure(UnknownChecker) && attempts == []
    ensures compiled && checkerKnown ==>
              && AreExecuted(request, runner, attempts)
              && if Aborts(request, runner, attempts) then r == Failure(Aborted)
                 else r.Success? && Summarises(request, runner, attempts, r.value)
  {
    hide Results, Code, MakeStatusCode, Settled, Attempts, Prepend, Summary, AreExecuted, Aborts, Summarises;
    attempts := [];
    if !compiled {
      return Success(CheckerResult(COMPILATION_ERROR, None, None)), attempts;
    }
    if !checkerKnown {
      return Failure(UnknownChecker), attempts;
    }

    var testResults: seq<CheckerResultStatus> := [];
    var statusCode := ACCEPTED;
    var i := 0;
    PrependNothing(testResults, Results(request, runner, 0));
    NoCodeYet(request.tests);
    while i < |request.tests|
      invariant 0 <= i <= |request.tests| && |testResults| == |attempts| == i
      invariant forall k :: 0 <= k < i ==> attempts[k] == Attempts(runner, k) && Settled(runner, k) == Some(testResults[k])
      invariant request.allTests || forall k :: 0 <= k < i ==> testResults[k] == Accepted
      invariant Results(request, runner, 0) == Prepend(testResults, Results(request, runner, i))
      invariant Code(request.tests, testResults) == Some(statusCode)
    {
      var outcome := RunTest(runner, i);
      attempts := attempts + [Attempts(runner, i)];
      if outcome.None? {
        AbortedTest(request, runner, testResults, i);
        ThrownAttempt(request, runner, testResults, attempts);
        return Failure(Aborted), attempts;
      }
      var status := outcome.value;
      ghost var after := AfterTest(request, runner, testResults, i);
      CodeAfterTest(request.tests, testResults, status, statusCode);
      testResults := testResults + [status];
      if status != Accepted {
        if statusCode == ACCEPTED {
          var code := MakeStatusCode(status, Some(request.tests[i].number));
          if code.None? {
            UncodedFailure(request, runner, testResults, after);
            assert testResults[..i] + [status] == testResults;
            UncodedVerdict(request, runner, testResults, attempts);
            return Failure(Aborted), attempts;
          }
          statusCode := code.value;
        }
        if !request.allTests {
          PrependNothing(testResults, after);
          FinishedCheck(request, runner, testResults);
          CompletedCheck(request, runner, testResults, attempts);
          return Success(Summary(request.tests, statusCode, testResults)), attempts;
        }
      }
      i := i + 1;
    }

    AllTestsDone(request, runner, testResults);
    FinishedCheck(request, runner, testResults);
    CompletedCheck(request, runner, testResults, attempts);
    return Success(Summary(request.tests, statusCode, testResults)), attempts;
  }

  /** The verdicts of the tests that were executed so far. */
  ghost predicate Recorded(request: CheckRequest, runner: Runner, results: seq<CheckerResultStatus>, attempts: seq<nat>) {
    && |results| <= |attempts| <= |request.tests|
    && (forall i :: 0 <= i < |attempts| ==> attempts[i] == Attempts(runner, i))
    && (forall i :: 0 <= i < |results| ==> Settled(runner, i) == Some(results[i]))
    && (request.allTests || forall i :: 0 <= i < |attempts| - 1 && i < |results| ==> results[i] == Accepted)
  }

  lemma RecordedAttempts(request: CheckRequest, runner: Runner, results: seq<CheckerResultStatus>, attempts: seq<nat>)
    requires Recorded(request, runner, results, attempts) && |results| >= |attempts| - 1
    ensures AreExecuted(request, runner, attempts)
    ensures forall i :: 0 <= i < |attempts| ==> runner(i, attempts[i] - 1) == Settled(runner, i)
  {
    assert forall i :: 0 <= i < |attempts| ==> runner(i, attempts[i] - 1) == Settled(runner, i);
    assert forall i :: 0 <= i < |attempts| - 1 ==> Settled(runner, i) == Some(results[i]);
  }

  lemma ThrownAttempt(request: CheckRequest, runner: Runner, results: seq<CheckerResultStatus>, attempts: seq<nat>)
    requires Recorded(request, runner, results, attempts) && |attempts| == |results| + 1 && Settled(runner, |results|).None?
    ensures AreExecuted(request, runner, attempts) && Aborts(request, runner, attempts)
  {
    hide Recorded, AreExecuted, Settled;
    RecordedAttempts(request, runner, results, attempts);
  }

  lemma UncodedVerdict(request: CheckRequest, runner: Runner, results: seq<CheckerResultStatus>, attempts: seq<nat>)
    requires Recorded(request, runner, results, attempts) && |attempts| == |results| > 0
    requires Code(request.tests, results[..|results| - 1]) == Some(ACCEPTED) && Code(request.tests, results).None?
    ensures AreExecuted(request, runner, attempts) && Aborts(request, runner, attempts)
  {
    hide AreExecuted, Settled, MakeStatusCode, Attempts;
    var front, last := results[..|results| - 1], results[|results| - 1];
    RecordedAttempts(request, runner, results, attempts);
    AcceptedCode(request.tests, front);
    FirstFailureOfExtension(front, [last]);
    assert results == front + [last];
    CodeExists(last, request.tests[|results| - 1].number);
  }

  lemma CompletedCheck(request: CheckRequest, runner: Runner, results: seq<CheckerResultStatus>, attempts: seq<nat>)
    requires Recorded(request, runner, results, attempts) && |attempts| == |results| && Code(request.tests, results).Some?
    requires |results| < |request.tests| ==> !request.allTests && results != [] && results[|results| - 1] != Accepted
    ensures AreExecuted(request, runner, attempts) && !Aborts(request, runner, attempts)
    ensures Summarises(request, runner, attempts, Summary(request.tests, Code(request.tests, results).value, results))
  {
    hide AreExecuted, Settled, MakeStatusCode, Attempts, TotalScore, PointsOf;
    RecordedAttempts(request, runner, results, attempts);
    EntriesAddUp(request.tests, results);
    var k := FirstFailure(results);
    if k < |results| {
      CodeExists(results[k], request.tests[k].number);
    }
  }

  lemma NoCodeYet(tests: seq<CheckTest>)
    ensures Code(tests, []) == Some(ACCEPTED)
  {
  }

  lemma CodeAfterTest(tests: seq<CheckTest>, results: seq<CheckerResultStatus>, status: CheckerResultStatus, code: int)
    requires |results| < |tests| && Code(tests, results) == Some(code)
    ensures Code(tests, results + [status])
         == if status != Accepted && code == ACCEPTED then MakeStatusCode(status, Some(tests[|results|].number)) else Some(code)
  {
    FirstFailureOfExtension(results, [status]);
    if FirstFailure(results) < |results| {
      FailureCodesAreReserved(results[FirstFailure(results)], tests[FirstFailure(results)].number);
    }
  }

  lemma AllTestsDone(request: CheckRequest, runner: Runner, results: seq<CheckerResultStatus>)
    requires Results(request, runner, 0) == Prepend(results, Results(request, runner, |request.tests|))
    ensures Results(request, runner, 0) == Some(results)
  {
    PrependNothing(results, Some([]));
  }

  lemma FinishedCheck(request: CheckRequest, runner: Runner, results: seq<CheckerResultStatus>)
    requires |results| <= |request.tests| && Code(request.tests, results).Some?
    requires Results(request, runner, 0) == Some(results)
    ensures Outcome(request, true, true, runner)
         == Success(Summary(request.tests, Code(request.tests, results).value, results))
  {
  }

  function Prepend(before: seq<CheckerResultStatus>, after: Option<seq<CheckerResultStatus>>)
    : Option<seq<CheckerResultStatus>>
  {
    if after.None? then None else Some(before + after.value)
  }

  lemma PrependNothing(before: seq<CheckerResultStatus>, after: Option<seq<CheckerResultStatus>>)
    ensures Prepend([], after) == after
    ensures Prepend(before, Some([])) == Some(before)
  {
    assert before + [] == before;
    if after.Some? {
      assert [] + after.value == after.value;
    }
  }

  lemma PrependOne(before: seq<CheckerResultStatus>, status: CheckerResultStatus, after: Option<seq<CheckerResultStatus>>)
    ensures Prepend(before, Prepend([status], after)) == Prepend(before + [status], after)
  {
    if after.Some? {
      assert before + ([status] + after.value) == before + [status] + after.value;
    }
  }

  lemma AbortedTest(request: CheckRequest, runner: Runner, before: seq<CheckerResultStatus>, i: nat)
    requires i < |request.tests| && Settled(runner, i).None?
    requires Results(request, runner, 0) == Prepend(before, Results(request, runner, i))
    ensures Outcome(request, true, true, runner) == Failure(Aborted)
  {
  }

  /** How the results continue after test `i` has settled. */
  lemma AfterTest(request: CheckRequest, runner: Runner, before: seq<CheckerResultStatus>, i: nat)
    returns (after: Option<seq<CheckerResultStatus>>)
    requires i < |request.tests| && Settled(runner, i).Some?
    requires Results(request, runner, 0) == Prepend(before, Results(request, runner, i))
    ensures after == if Settled(runner, i).value != Accepted && !request.allTests then Some([])
                     else Results(request, runner, i + 1)
    ensures Results(request, runner, 0) == Prepend(before + [Settled(runner, i).value], after)
  {
    var status := Settled(runner, i).value;
    after := if status != Accepted && !request.allTests then Some([]) else Results(request, runner, i + 1);
    PrependNothing([status], after);
    PrependOne(before, status, after);
  }

  /** Later verdicts do not move the first failure. */
  lemma {:induction false} FirstFailureOfExtension(results: seq<CheckerResultStatus>, more: seq<CheckerResultStatus>)
    ensures FirstFailure(results + more)
         == if FirstFailure(results) < |results| then FirstFailure(results) else |results| + FirstFailure(more)
  {
    if results == [] {
      assert results + more == more;
    } else {
      assert (results + more)[1..] == results[1..] + more;
      FirstFailureOfExtension(results[1..], more);
    }
  }

  /** Once the first failure has no code, the whole check aborts however it would go on. */
  lemma UncodedFailure(request: CheckRequest, runner: Runner, results: seq<CheckerResultStatus>,
                       rest: Option<seq<CheckerResultStatus>>)
    requires |results| <= |request.tests| && Code(request.tests, results).None?
    requires Results(request, runner, 0) == Prepend(results, rest)
    ensures Outcome(request, true, true, runner) == Failure(Aborted)
  {
    if rest.Some? {
      FirstFailureOfExtension(results, rest.value);
    }
  }

  lemma {:induction false} ResultsShape(request: CheckRequest, runner: Runner, i: nat)
    requires i <= |request.tests|
    ensures Results(request, runner, i).Some? ==> |Results(request, runner, i).value| <= |request.tests| - i
    decreases |request.tests| - i
  {
    if i < |request.tests| {
      ResultsShape(request, runner, i + 1);
    }
  }

  // ---------- What a verdict means ----------

  /** The recorded verdicts of a test list: everything, or everything up to and including the first failure. */
  function Cut(results: seq<CheckerResultStatus>, allTests: bool): seq<CheckerResultStatus> {
    if allTests || FirstFailure(results) == |results| then results else results[..FirstFailure(results) + 1]
  }

  /** A time or memory limit is only recorded when both attempts hit one; the recorded verdict is the last attempt's. */
  lemma LimitsNeedTwoAttempts(runner: Runner, i: nat)
    ensures Settled(runner, i) in {Some(TimeLimit), Some(MemoryLimit)}
       <==> (forall attempt :: 0 <= attempt < 2 ==> runner(i, attempt) in {Some(TimeLimit), Some(MemoryLimit)})
    ensures Attempts(runner, i) == 2 <==> runner(i, 0) in {Some(TimeLimit), Some(MemoryLimit)}
    ensures 1 <= Attempts(runner, i) <= 2 && Settled(runner, i) == runner(i, Attempts(runner, i) - 1)
  {
    assert runner(i, 0) in {Some(TimeLimit), Some(MemoryLimit)} && runner(i, 1) in {Some(TimeLimit), Some(MemoryLimit)}
           ==> Attempts(runner, i) == 2;
  }

  lemma {:induction false} ResultsAreSettled(request: CheckRequest, runner: Runner, i: nat)
    requires i <= |request.tests| && Results(request, runner, i).Some?
    ensures |Results(request, runner, i).value| <= |request.tests| - i
    ensures forall j: nat :: i <= j < i + |Results(request, runner, i).value|
              ==> Settled(runner, j) == Some(Results(request, runner, i).value[j - i])
    decreases |request.tests| - i
  {
    if i < |request.tests| && (Settled(runner, i) == Some(Accepted) || request.allTests) {
      ResultsAreSettled(request, runner, i + 1);
    }
  }

  lemma {:induction false} ResultsAreCut(request: CheckRequest, runner: Runner, i: nat)
    requires i <= |request.tests| && Results(request, runner, i).Some?
    ensures var results := Results(request, runner, i).value;
      && (request.allTests || FirstFailure(results) == |results| ==> |results| == |request.tests| - i)
      && Cut(results, request.allTests) == results
    decreases |request.tests| - i
  {
    if i < |request.tests| && (Settled(runner, i) == Some(Accepted) || request.allTests) {
      ResultsAreCut(request, runner, i + 1);
      assert Results(request, runner, i).value[1..] == Results(request, runner, i + 1).value;
    }
  }

  /** `k` is the first test that does not pass, and `status` is what it settles at. */
  ghost predicate FailsFirst(request: CheckRequest, runner: Runner, k: nat, status: CheckerResultStatus) {
    && k < |request.tests|
    && (forall j: nat :: j < k ==> Settled(runner, j) == Some(Accepted))
    && Settled(runner, k) == Some(status)
    && status != Accepted
  }

  /**
   A judged solution is accepted exactly when every test passes; otherwise its code is that of the first
   failing test, and the code decodes to that test's number unless the failure is internal.
   */
  lemma VerdictMeaning(request: CheckRequest, runner: Runner)
    requires Outcome(request, true, true, runner).Success?
    ensures var code := Outcome(request, true, true, runner).value.statusCode;
      && (code == ACCEPTED <==> forall k: nat :: k < |request.tests| ==> Settled(runner, k) == Some(Accepted))
      && (code != ACCEPTED ==>
            exists k: nat, status :: FailsFirst(request, runner, k, status)
              && MakeStatusCode(status, Some(request.tests[k].number)) == Some(code)
              && (status != InternalError ==> TestNumber(code) == request.tests[k].number))
  {
    var results := Results(request, runner, 0).value;
    var code := Outcome(request, true, true, runner).value.statusCode;
    ResultsAreSettled(request, runner, 0);
    ResultsAreCut(request, runner, 0);
    var k := FirstFailure(results);
    if k < |results| {
      assert FailsFirst(request, runner, k, results[k]);
      FailureCodesAreReserved(results[k], request.tests[k].number);
      DecodingInvertsEncoding(results[k], request.tests[k].number, results[k], request.tests[k].number);
    }
  }

  /**
   No finished check reports a waiting or checking code; a compilation error carries no score; and scores
   come with their per-test entries.
   */
  lemma FinishedChecks(request: CheckRequest, compiled: bool, checkerKnown: bool, runner: Runner)
    requires Outcome(request, compiled, checkerKnown, runner).Success?
    ensures var result := Outcome(request, compiled, checkerKnown, runner).value;
      && result.statusCode !in {QUEUED, CHECKING}
      && (result.statusCode == COMPILATION_ERROR <==> !compiled)
      && (result.statusCode == COMPILATION_ERROR ==> result.score == None)
      && (result.score == None <==> result.testResults == None)
      && (result.score == None <==> !compiled || forall i :: 0 <= i < |request.tests| ==> request.tests[i].score == None)
  {
    if compiled {
      ResultsShape(request, runner, 0);
      var results := Results(request, runner, 0).value;
      var k := FirstFailure(results);
      if k < |results| {
        FailureCodesAreReserved(results[k], request.tests[k].number);
      }
    }
  }

  /** The statuses that running a test can produce: a text checker never reports a compilation error. */
  ghost predicate RunsTests(request: CheckRequest, runner: Runner) {
    && (forall i :: 0 <= i < |request.tests| ==> 1 <= request.tests[i].number <= 999)
    && (forall i: nat, attempt: nat :: runner(i, attempt) != Some(CompilationError))
  }

  /** On imported tests a check only aborts when an attempt that it needs throws. */
  lemma AbortsOnlyWhenAnAttemptThrows(request: CheckRequest, runner: Runner)
    requires RunsTests(request, runner)
    ensures Outcome(request, true, true, runner).Success? <==> Results(request, runner, 0).Some?
  {
    if Results(request, runner, 0).Some? {
      ResultsAreSettled(request, runner, 0);
      var results := Results(request, runner, 0).value;
      var k := FirstFailure(results);
      if k < |results| {
        assert Settled(runner, k) == Some(results[k]);
        CodeExists(results[k], request.tests[k].number);
      }
    }
  }

  function PointsOf(entries: seq<Entry>): int {
    if entries == [] then 0
    else PointsOf(entries[..|entries| - 1]) + (if entries[|entries| - 1].Points? then entries[|entries| - 1].points else 0)
  }

  lemma {:induction false} EntriesAddUp(tests: seq<CheckTest>, results: seq<CheckerResultStatus>)
    requires |results| <= |tests|
    ensures PointsOf(Entries(tests, results)) == TotalScore(tests, results)
  {
    if results != [] {
      var front := results[..|results| - 1];
      EntriesAddUp(tests, front);
      assert Entries(tests, results)[..|front|] == Entries(tests, front);
    }
  }

  /**
   Score and per-test entries tell the same: the score is the sum of the entries' points; an entry has points
   exactly for a passed test, namely those of the test, and otherwise its verdict; and a request for all tests
   has an entry for each of them.
   */
  lemma {:induction false} ScoresMatchEntries(request: CheckRequest, runner: Runner)
    requires Outcome(request, true, true, runner).Success?
    requires exists i :: 0 <= i < |request.tests| && request.tests[i].score.Some?
    ensures var result := Outcome(request, true, true, runner).value;
      && result.score.Some? && result.testResults.Some?
      && result.score.value == PointsOf(result.testResults.value)
      && |result.testResults.value| <= |request.tests|
      && (request.allTests || result.statusCode == ACCEPTED ==> |result.testResults.value| == |request.tests|)
      && forall k: nat :: k < |result.testResults.value| ==>
           Settled(runner, k).Some? && result.testResults.value[k] == EntryOf(request.tests[k], Settled(runner, k).value)
  {
    hide Code, TotalScore, PointsOf, Results;
    var results := Results(request, runner, 0).value;
    ResultsAreSettled(request, runner, 0);
    ResultsAreCut(request, runner, 0);
    EntriesAddUp(request.tests, results);
    AcceptedCode(request.tests, results);
  }

  /** What one test contributes to the summary. */
  function EntryOf(test: CheckTest, status: CheckerResultStatus): Entry {
    if status != Accepted then Verdict(status)
    else if test.score.Some? then Points(test.score.value)
    else Points(0)
  }

  lemma AcceptedCode(tests: seq<CheckTest>, results: seq<CheckerResultStatus>)
    requires |results| <= |tests|
    ensures Code(tests, results) == Some(ACCEPTED) <==> FirstFailure(results) == |results|
  {
    if FirstFailure(results) < |results| {
      NeverAccepted(results[FirstFailure(results)], tests[FirstFailure(results)].number);
    }
  }

  // ---------- Stopping at the first failure against running all tests ----------

  lemma {:induction false} StoppingCutsResults(tests: seq<CheckTest>, runner: Runner, i: nat)
    requires i <= |tests| && Results(CheckRequest(tests, true), runner, i).Some?
    ensures Results(CheckRequest(tests, false), runner, i)
         == Some(Cut(Results(CheckRequest(tests, true), runner, i).value, false))
    decreases |tests| - i
  {
    if i < |tests| {
      var results, rest := Results(CheckRequest(tests, true), runner, i).value, Results(CheckRequest(tests, true), runner, i + 1).value;
      StoppingCutsResults(tests, runner, i + 1);
      assert results == [results[0]] + rest && results[1..] == rest;
      if results[0] == Accepted {
        assert Cut(results, false) == [results[0]] + Cut(rest, false);
      } else {
        assert Cut(results, false) == [results[0]];
      }
    }
  }

  lemma {:induction false} ScoreGrows(tests: seq<CheckTest>, results: seq<CheckerResultStatus>, n: nat)
    requires n <= |results| <= |tests|
    requires forall i :: 0 <= i < |tests| && tests[i].score.Some? ==> tests[i].score.value >= 0
    ensures 0 <= TotalScore(tests, results[..n]) <= TotalScore(tests, results)
    decreases |results|
  {
    if n == |results| {
      assert results[..n] == results;
      if n > 0 {
        ScoreGrows(tests, results[..n - 1], n - 1);
        assert results[..n - 1][..n - 1] == results[..n - 1];
      }
    } else {
      var shorter := results[..|results| - 1];
      ScoreGrows(tests, shorter, n);
      assert shorter[..n] == results[..n];
    }
  }

  lemma {:induction false} CutAgrees(tests: seq<CheckTest>, results: seq<CheckerResultStatus>)
    requires |results| <= |tests|
    requires forall i :: 0 <= i < |tests| && tests[i].score.Some? ==> tests[i].score.value >= 0
    ensures var cut := Cut(results, false);
      && |cut| <= |results|
      && Code(tests, cut) == Code(tests, results)
      && 0 <= TotalScore(tests, cut) <= TotalScore(tests, results)
      && Entries(tests, cut) <= Entries(tests, results)
      && (Code(tests, results) == Some(ACCEPTED) ==> cut == results)
  {
    var k := FirstFailure(results);
    if k < |results| {
      var cut := results[..k + 1];
      assert cut + results[k + 1..] == results;
      FirstFailureOfExtension(cut, results[k + 1..]);
      ScoreGrows(tests, results, k + 1);
      NeverAccepted(results[k], tests[k].number);
    } else {
      ScoreGrows(tests, results, |results|);
      assert results[..|results|] == results;
    }
  }

  lemma NeverAccepted(status: CheckerResultStatus, test: int)
    ensures MakeStatusCode(status, Some(test)) != Some(ACCEPTED)
  {
    if MakeStatusCode(status, Some(test)).Some? {
      FailureCodesAreReserved(status, test);
    }
  }

  /**
   Whenever running all tests gives a verdict, stopping at the first failure gives the same code; its
   per-test entries are a prefix, and its score is no larger. On an accepted solution nothing differs.
   */
  lemma StoppingEarlyAgrees(tests: seq<CheckTest>, runner: Runner)
    requires Outcome(CheckRequest(tests, true), true, true, runner).Success?
    requires forall i :: 0 <= i < |tests| && tests[i].score.Some? ==> tests[i].score.value >= 0
    ensures var all, early := Outcome(CheckRequest(tests, true), true, true, runner),
                              Outcome(CheckRequest(tests, false), true, true, runner);
      && early.Success?
      && early.value.statusCode == all.value.statusCode
      && (all.value.statusCode == ACCEPTED ==> early == all)
      && (early.value.score.Some? <==> all.value.score.Some?)
      && (all.value.score.Some? ==>
            && 0 <= early.value.score.value <= all.value.score.value
            && early.value.testResults.Some? && all.value.testResults.Some?
            && early.value.testResults.value <= all.value.testResults.value)
  {
    hide Cut, Code, TotalScore, Entries, Results;
    StoppingCutsResults(tests, runner, 0);
    ResultsShape(CheckRequest(tests, true), runner, 0);
    ResultsShape(CheckRequest(tests, false), runner, 0);
    CutAgrees(tests, Results(CheckRequest(tests, true), runner, 0).value);
  }
}
