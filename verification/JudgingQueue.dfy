/**
 The queue of submissions as a transition system. Every step is one section under the gate that queue
 operations, imports and retests share; running a solution happens outside the gate, between the claim of a
 submission and the save of its verdict, while the clock and all other operations go on.
 */
module JudgingQueue {
  import opened Options
  import opened StatusCodes
  import opened CheckerService
  import opened ProblemImport

  /** A claim older than this, in milliseconds, may be taken again. */
  const CLAIM_LIFETIME := 120000

  datatype Settings = Settings(name: string, timeLimit: int, slowTimeLimit: int, memoryLimit: int, checkerId: int)

  datatype Problem = Problem(contest: int, number: int, settings: Settings, isActive: bool, tests: seq<Test>)

  datatype Submission = Submission(problem: int, compilator: int, commitTime: int, lastModification: int,
                                   statusCode: int, score: Option<int>, testResults: Option<seq<Entry>>)

  datatype HistoryEntry = HistoryEntry(submission: int, result: CheckerResult)

  /** The check of a claimed submission: still running, or over and waiting for the gate to save its end. */
  datatype Phase = Running | Judged(result: CheckerResult, stamp: int) | Broken(stamp: int)

  datatype ActiveCheck = ActiveCheck(submission: int, claimedAt: int, request: CheckRequest, phase: Phase)

  datatype State = State(now: int, schools: set<int>, problems: map<int, Problem>, submissions: map<int, Submission>,
                         history: seq<HistoryEntry>, active: map<int, ActiveCheck>)

  datatype Step =
    | Wait(until: int)
    | Submit(id: int, problem: int, compilator: int)
    | Claim(check: int, submission: int, compilators: set<int>, stamp: int)
    | Judge(check: int, compiled: bool, checkerKnown: bool, runner: Runner)
    | Save(check: int)
    | Retest(contest: int, problem: int, exceptAccepted: bool)
    | RetestCompilationErrors(contest: int)
    | Import(contest: int, items: seq<ImportedProblem>, ids: seq<int>)

  // ---------- The guards ----------

  function CheckTests(tests: seq<Test>): seq<CheckTest> {
    seq(|tests|, i requires 0 <= i < |tests| => CheckTest(tests[i].number, tests[i].input, tests[i].output, tests[i].score))
  }

  /** What a check of this problem has to run; school contests run all tests. */
  function RequestFor(s: State, problem: int): CheckRequest
    requires problem in s.problems
  {
    CheckRequest(CheckTests(s.problems[problem].tests), s.problems[problem].contest in s.schools)
  }

  /** The request holds each test of the problem as it is, and runs all of them exactly in a school contest. */
  ghost predicate HoldsTests(request: CheckRequest, problem: Problem, schools: set<int>) {
    && |request.tests| == |problem.tests|
    && (forall k :: 0 <= k < |problem.tests| ==>
          && request.tests[k].number == problem.tests[k].number
          && request.tests[k].input == problem.tests[k].input
          && request.tests[k].output == problem.tests[k].output
          && request.tests[k].score == problem.tests[k].score)
    && (request.allTests <==> problem.contest in schools)
  }

  predicate Waiting(submission: Submission, now: int) {
    submission.statusCode == QUEUED
    || (submission.statusCode == CHECKING && submission.lastModification < now - CLAIM_LIFETIME)
  }

  predicate Eligible(s: State, id: int, compilators: set<int>) {
    && id in s.submissions
    && Waiting(s.submissions[id], s.now)
    && s.submissions[id].problem in s.problems
    && s.problems[s.submissions[id].problem].isActive
    && s.problems[s.submissions[id].problem].tests != []
    && s.submissions[id].compilator in compilators
  }

  /** One of the earliest eligible submissions; equal commit times may be returned in any order. */
  predicate FirstEligible(s: State, id: int, compilators: set<int>) {
    && Eligible(s, id, compilators)
    && forall other :: other in s.submissions && Eligible(s, other, compilators) ==>
         s.submissions[id].commitTime <= s.submissions[other].commitTime
  }

  predicate Idle(s: State, problems: set<int>) {
    forall id :: id in s.submissions && s.submissions[id].problem in problems ==> s.submissions[id].statusCode != CHECKING
  }

  /** `id` is the row that an import of this problem number writes: the existing one, or a new one. */
  predicate ImportRow(s: State, contest: int, number: int, id: int) {
    && (id in s.problems ==> s.problems[id].contest == contest && s.problems[id].number == number)
    && forall p :: p in s.problems && s.problems[p].contest == contest && s.problems[p].number == number ==> p == id
  }

  ghost predicate CanImport(s: State, contest: int, items: seq<ImportedProblem>, ids: seq<int>) {
    && |ids| == |items|
    && (forall i, j :: 0 <= i < j < |ids| ==> ids[i] != ids[j])
    && (forall i :: 0 <= i < |items| ==>
          && Archived(items[i])
          && Importable(items[i], contest in s.schools)
          && ImportRow(s, contest, items[i].manifest.number, ids[i]))
    && Idle(s, set id | id in ids)
  }

  predicate ActiveProblem(s: State, contest: int, problem: int) {
    problem in s.problems && s.problems[problem].contest == contest && s.problems[problem].isActive
  }

  function ActiveProblems(s: State, contest: int): set<int> {
    set p | p in s.problems && ActiveProblem(s, contest, p)
  }

  ghost predicate Enabled(s: State, step: Step) {
    match step
    case Wait(until) => until >= s.now
    case Submit(id, problem, _) => id !in s.submissions && problem in s.problems
    case Claim(check, id, compilators, stamp) =>
      check !in s.active && FirstEligible(s, id, compilators) && stamp >= s.now
    case Judge(check, _, _, _) => check in s.active && s.active[check].phase.Running?
    case Save(check) =>
      check in s.active && !s.active[check].phase.Running? && s.active[check].submission in s.submissions
    case Retest(contest, problem, _) => ActiveProblem(s, contest, problem) && Idle(s, {problem})
    case RetestCompilationErrors(contest) => Idle(s, ActiveProblems(s, contest))
    case Import(contest, items, ids) => CanImport(s, contest, items, ids)
  }

  // ---------- The steps ----------

  function Requeued(submission: Submission, now: int): Submission {
    submission.(statusCode := QUEUED, score := None, testResults := None, lastModification := now)
  }

  /** A claimed submission once the end of its check is saved. */
  function Saved(submission: Submission, phase: Phase): Submission
    requires !phase.Running?
  {
    match phase
    case Judged(result, stamp) =>
      submission.(statusCode := result.statusCode, score := result.score, testResults := result.testResults,
                  lastModification := stamp)
    case Broken(stamp) => submission.(statusCode := QUEUED, lastModification := stamp)
  }

  function JudgedPhase(request: CheckRequest, compiled: bool, checkerKnown: bool, runner: Runner, now: int): Phase {
    var outcome := Outcome(request, compiled, checkerKnown, runner);
    if outcome.Success? then Judged(outcome.value, now) else Broken(now)
  }

  predicate ToRetest(s: State, id: int, problem: int, exceptAccepted: bool)
    requires id in s.submissions
  {
    && s.submissions[id].problem == problem
    && s.submissions[id].statusCode != QUEUED
    && s.submissions[id].statusCode != CHECKING
    && (!exceptAccepted || s.submissions[id].statusCode != ACCEPTED)
  }

  predicate Importable(item: ImportedProblem, isSchool: bool) {
    item.manifest.openTestCount <= |item.tests| && !Refused(item, isSchool)
  }

  /** A missing limit for slow compilers is the ordinary one. */
  function SettingsOf(m: Manifest): Settings {
    Settings(m.name, m.timeLimit, if m.slowTimeLimit.Some? then m.slowTimeLimit.value else m.timeLimit, m.memoryLimit, m.checkerId)
  }

  function ImportedRow(s: State, contest: int, item: ImportedProblem): Problem
    requires Importable(item, contest in s.schools)
  {
    var data := item.manifest;
    Problem(contest, data.number, SettingsOf(data), data.isActive, BuiltTests(item, contest in s.schools))
  }

  function Rows(s: State, contest: int, items: seq<ImportedProblem>, ids: seq<int>): map<int, Problem>
    requires |ids| == |items|
    requires forall i :: 0 <= i < |items| ==> Importable(items[i], contest in s.schools)
  {
    if items == [] then s.problems
    else Rows(s, contest, items[..|items| - 1], ids[..|items| - 1])
           [ids[|items| - 1] := ImportedRow(s, contest, items[|items| - 1])]
  }

  ghost function Next(s: State, step: Step): State
    requires Enabled(s, step)
  {
    match step
    case Wait(until) => s.(now := until)
    case Submit(id, problem, compilator) =>
      s.(submissions := s.submissions[id := Submission(problem, compilator, s.now, s.now, QUEUED, None, None)])
    case Claim(check, id, compilators, stamp) =>
      s.(now := stamp,
         submissions := s.submissions[id := s.submissions[id].(statusCode := CHECKING, lastModification := stamp)],
         active := s.active[check := ActiveCheck(id, stamp, RequestFor(s, s.submissions[id].problem), Running)])
    case Judge(check, compiled, checkerKnown, runner) =>
      var active := s.active[check];
      s.(active := s.active[check := active.(phase := JudgedPhase(active.request, compiled, checkerKnown, runner, s.now))])
    case Save(check) =>
      var active := s.active[check];
      s.(submissions := s.submissions[active.submission := Saved(s.submissions[active.submission], active.phase)],
         history := if active.phase.Judged? then s.history + [HistoryEntry(active.submission, active.phase.result)] else s.history,
         active := s.active - {check})
    case Retest(_, problem, exceptAccepted) =>
      s.(submissions := map id | id in s.submissions ::
           if ToRetest(s, id, problem, exceptAccepted) then Requeued(s.submissions[id], s.now) else s.submissions[id])
    case RetestCompilationErrors(contest) =>
      s.(submissions := map id | id in s.submissions ::
           if s.submissions[id].problem in ActiveProblems(s, contest) && s.submissions[id].statusCode == COMPILATION_ERROR
           then Requeued(s.submissions[id], s.now) else s.submissions[id])
    case Import(contest, items, ids) => s.(problems := Rows(s, contest, items, ids))
  }

  // ---------- Runs ----------

  /** Only fresh submissions, nothing under check, no history. */
  ghost predicate Init(s: State) {
    && s.history == []
    && s.active == map[]
    && forall id :: id in s.submissions ==>
         && s.submissions[id].problem in s.problems
         && s.submissions[id].statusCode == QUEUED
         && s.submissions[id].score == None && s.submissions[id].testResults == None
  }

  /** No check has outlived its claim. */
  ghost predicate Timely(s: State) {
    forall check :: check in s.active ==> s.now <= s.active[check].claimedAt + CLAIM_LIFETIME
  }

  ghost predicate IsRun(states: seq<State>, steps: seq<Step>) {
    && |states| == |steps| + 1
    && Init(states[0])
    && forall i :: 0 <= i < |steps| ==> Enabled(states[i], steps[i]) && states[i + 1] == Next(states[i], steps[i])
  }

  // ---------- The invariant ----------

  ghost predicate Holds(s: State, check: int, id: int) {
    check in s.active && s.active[check].submission == id
  }

  /** A submission is marked as being checked exactly while one check, and only one, holds it. */
  ghost predicate Exclusive(s: State) {
    && (forall check :: check in s.active ==> s.active[check].submission in s.submissions)
    && (forall id :: id in s.submissions ==> (s.submissions[id].statusCode == CHECKING <==> exists check :: Holds(s, check, id)))
    && (forall c, d, id :: Holds(s, c, id) && Holds(s, d, id) ==> c == d)
  }

  /** Each check knows when its claim was written, and works on the tests that its problem has now. */
  ghost predicate ChecksAreCurrent(s: State) {
    forall check :: check in s.active ==>
      var active := s.active[check];
      && active.submission in s.submissions
      && s.submissions[active.submission].problem in s.problems
      && active.claimedAt == s.submissions[active.submission].lastModification
      && active.request == RequestFor(s, s.submissions[active.submission].problem)
      && (active.phase.Judged? ==> IsOutcome(active.request, active.phase.result))
  }

  /** `result` is what checking this request can yield. */
  ghost predicate IsOutcome(request: CheckRequest, result: CheckerResult) {
    exists compiled, checkerKnown, runner: Runner :: Outcome(request, compiled, checkerKnown, runner) == Success(result)
  }

  function LastEntry(history: seq<HistoryEntry>, id: int): Option<CheckerResult> {
    if history == [] then None
    else if history[|history| - 1].submission == id then Some(history[|history| - 1].result)
    else LastEntry(history[..|history| - 1], id)
  }

  /** Undecided submissions carry no score; decided ones agree with their last history entry. */
  ghost predicate Agrees(submission: Submission, last: Option<CheckerResult>) {
    if submission.statusCode in {QUEUED, CHECKING} then submission.score == None && submission.testResults == None
    else last == Some(CheckerResult(submission.statusCode, submission.score, submission.testResults))
  }

  ghost predicate RecordsAgree(s: State) {
    && (forall id :: id in s.submissions ==> s.submissions[id].problem in s.problems)
    && (forall id :: id in s.submissions ==> Agrees(s.submissions[id], LastEntry(s.history, id)))
    && (forall i :: 0 <= i < |s.history| ==> s.history[i].result.statusCode !in {QUEUED, CHECKING})
    && (forall i :: 0 <= i < |s.history| && s.history[i].result.statusCode == COMPILATION_ERROR ==> s.history[i].result.score == None)
  }

  ghost predicate Inv(s: State) {
    Exclusive(s) && ChecksAreCurrent(s) && RecordsAgree(s)
  }
}
