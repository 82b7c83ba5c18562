/**
 The operations on the shared tables, each one a section under the gate: claim, check, save, retest and import.
 Every method is proved to make exactly the step of the transition system that bears its name.
 */
module JudgingStore {
  import opened Options
  import opened StatusCodes
  import opened CheckerService
  import opened ProblemImport
  import opened JudgingQueue

  datatype RetestError = ProblemNotFound | ProblemInactive | RelatedCheckRunning

  class Store {
    var now: int
    var schools: set<int>
    var problems: map<int, Problem>
    var submissions: map<int, Submission>
    var history: seq<HistoryEntry>
    var active: map<int, ActiveCheck>

    function Contents(): State
      reads this
    {
      State(now, schools, problems, submissions, history, active)
    }

    /** Takes the earliest waiting submission that this checker can compile; None when there is nothing to do. */
    method TryClaim(check: int, compilators: set<int>, stamp: int) returns (claimed: Option<int>)
      requires check !in active && stamp >= now
      modifies this
      ensures claimed.None? ==>
                Contents() == old(Contents()) && forall id :: id in submissions ==> !MayBeTaken(old(Contents()), id, compilators)
      ensures claimed.Some? ==>
                && claimed.value in old(submissions)
                && MayBeTaken(old(Contents()), claimed.value, compilators)
                && (forall id :: id in old(submissions) && MayBeTaken(old(Contents()), id, compilators) ==>
                      old(submissions)[claimed.value].commitTime <= old(submissions)[id].commitTime)
                && submissions == old(submissions)
                     [claimed.value := old(submissions)[claimed.value].(statusCode := 1, lastModification := stamp)]
                && check in active && active == old(active)[check := active[check]]
                && active[check].submission == claimed.value && active[check].claimedAt == stamp && active[check].phase == Running
                && HoldsTests(active[check].request, old(problems)[old(submissions)[claimed.value].problem], schools)
      ensures claimed.Some? ==>
                var step := Claim(check, claimed.value, compilators, stamp);
                Enabled(old(Contents()), step) && Contents() == Next(old(Contents()), step)
    {
      TakenIfEligible(Contents(), compilators);
      if compilators == {} {
        return None;
      }
      var candidates := set id | id in submissions && Eligible(Contents(), id, compilators);
      if candidates == {} {
        assert forall id :: Eligible(Contents(), id, compilators) ==> id in candidates;
        return None;
      }
      EarliestExists(Contents(), candidates, compilators);
      var id :| id in candidates && FirstEligible(Contents(), id, compilators);
      var submission := submissions[id];
      var updated := if Waiting(submission, now) then 1 else 0;
      assert updated == 1;
      active := active[check := ActiveCheck(id, stamp, RequestFor(Contents(), submission.problem), Running)];
      submissions := submissions[id := submission.(statusCode := CHECKING, lastModification := stamp)];
      now := stamp;
      return Some(id);
    }

    /** Runs the solution, outside the gate; the end of the check is only noted. */
    method RunCheck(check: int, compiled: bool, checkerKnown: bool, runner: Runner)
      requires check in active && active[check].phase.Running?
      modifies this
      ensures Contents() == Next(old(Contents()), Judge(check, compiled, checkerKnown, runner))
      ensures check in active && Contents() == old(Contents()).(active := active)
      ensures active == old(active)[check := old(active)[check].(phase := active[check].phase)]
      ensures !compiled ==> active[check].phase == Judged(CheckerResult(-1, None, None), now)
      ensures compiled && !checkerKnown ==> active[check].phase == Broken(now)
      ensures compiled && checkerKnown ==>
                exists attempts :: AreExecuted(active[check].request, runner, attempts)
                  && if Aborts(active[check].request, runner, attempts) then active[check].phase == Broken(now)
                     else active[check].phase.Judged? && active[check].phase.stamp == now
                          && Summarises(active[check].request, runner, attempts, active[check].phase.result)
    {
      var result, attempts := Check(active[check].request, compiled, checkerKnown, runner);
      var phase := if result.Success? then Judged(result.value, now) else Broken(now);
      active := active[check := active[check].(phase := phase)];
      assert compiled && checkerKnown ==> AreExecuted(active[check].request, runner, attempts);
    }

    /** Saves the verdict with its history entry, or puts the submission back into the queue. */
    method SaveCheck(check: int)
      requires check in active && !active[check].phase.Running? && active[check].submission in submissions
      modifies this
      ensures Contents() == Next(old(Contents()), Save(check))
      ensures var id, phase := old(active)[check].submission, old(active)[check].phase;
        && active == old(active) - {check}
        && (phase.Judged? ==>
              && history == old(history) + [HistoryEntry(id, phase.result)]
              && submissions == old(submissions)[id := old(submissions)[id].(
                   statusCode := phase.result.statusCode, score := phase.result.score,
                   testResults := phase.result.testResults, lastModification := phase.stamp)])
        && (phase.Broken? ==>
              && history == old(history)
              && submissions == old(submissions)[id := old(submissions)[id].(statusCode := 0, lastModification := phase.stamp)])
    {
      var id, phase := active[check].submission, active[check].phase;
      var submission := submissions[id];
      match phase {
        case Judged(result, stamp) =>
          history := history + [HistoryEntry(id, result)];
          submission := submission.(statusCode := result.statusCode);
          submission := submission.(score := result.score);
          submission := submission.(testResults := result.testResults);
          submission := submission.(lastModification := stamp);
        case Broken(stamp) =>
          submission := submission.(statusCode := QUEUED);
          submission := submission.(lastModification := stamp);
      }
      submissions := submissions[id := submission];
      active := active - {check};
    }

    /** Queues the judged submissions of a problem again; returns how many. */
    method RetestProblem(contest: int, problem: int, exceptAccepted: bool) returns (r: Result<nat, RetestError>)
      modifies this
      ensures r == if problem !in problems || problems[problem].contest != contest then Failure(ProblemNotFound)
                   else if !problems[problem].isActive then Failure(ProblemInactive)
                   else if exists id :: id in old(submissions) && old(submissions)[id].problem == problem
                                        && old(submissions)[id].statusCode == 1
                   then Failure(RelatedCheckRunning)
                   else Success(|set id | id in old(submissions) && old(submissions)[id].problem == problem
                                          && old(submissions)[id].statusCode !in {0, 1}
                                          && !(exceptAccepted && old(submissions)[id].statusCode == 2)|)
      ensures r.Failure? ==> Contents() == old(Contents()) && !Enabled(old(Contents()), Retest(contest, problem, exceptAccepted))
      ensures r.Success? ==>
                && Enabled(old(Contents()), Retest(contest, problem, exceptAccepted))
                && Contents() == Next(old(Contents()), Retest(contest, problem, exceptAccepted))
    {
      if !(problem in problems && problems[problem].contest == contest) {
        return Failure(ProblemNotFound);
      }
      if !problems[problem].isActive {
        return Failure(ProblemInactive);
      }
      if !Idle(Contents(), {problem}) {
        return Failure(RelatedCheckRunning);
      }
      var affected := set id | id in submissions && ToRetest(Contents(), id, problem, exceptAccepted);
      assert affected == set id | id in submissions && submissions[id].problem == problem
                                  && submissions[id].statusCode !in {0, 1} && !(exceptAccepted && submissions[id].statusCode == 2);
      submissions := map id | id in submissions ::
        if id in affected then Requeued(submissions[id], now) else submissions[id];
      return Success(|affected|);
    }

    /** Queues all compilation errors of a contest's active problems again. */
    method RetestFailedCompilations(contest: int) returns (r: Result<nat, RetestError>)
      modifies this
      ensures r.Failure? <==> exists id :: id in old(submissions) && old(submissions)[id].statusCode == 1
                                && old(submissions)[id].problem in problems && problems[old(submissions)[id].problem].isActive
                                && problems[old(submissions)[id].problem].contest == contest
      ensures r.Failure? ==> r.error == RelatedCheckRunning
      ensures r.Failure? ==> Contents() == old(Contents()) && !Enabled(old(Contents()), RetestCompilationErrors(contest))
      ensures r.Success? ==>
                && Enabled(old(Contents()), RetestCompilationErrors(contest))
                && Contents() == Next(old(Contents()), RetestCompilationErrors(contest))
                && r.value == |set id | id in old(submissions) && old(submissions)[id].statusCode == -1
                                 && old(submissions)[id].problem in problems && problems[old(submissions)[id].problem].isActive
                                 && problems[old(submissions)[id].problem].contest == contest|
    {
      var problemIds := ActiveProblems(Contents(), contest);
      if !Idle(Contents(), problemIds) {
        return Failure(RelatedCheckRunning);
      }
      var status := MakeStatusCode(CompilationError, None).value;
      var affected := set id | id in submissions && submissions[id].problem in problemIds && submissions[id].statusCode == status;
      assert affected == set id | id in submissions && submissions[id].statusCode == -1
                                  && submissions[id].problem in problems && problems[submissions[id].problem].isActive
                                  && problems[submissions[id].problem].contest == contest;
      submissions := map id | id in submissions ::
        if id in affected then Requeued(submissions[id], now) else submissions[id];
      return Success(|affected|);
    }

    /**
     Replaces or adds the problems of an archive. `newIds` holds the identities the database would give to new
     rows; `ids` are the rows written. Nothing is changed unless the whole archive can be imported.
     */
    method ImportProblems(contest: int, items: seq<ImportedProblem>, supported: set<int>, newIds: seq<int>)
      returns (r: Result<nat, ImportError>, ids: seq<int>)
      requires forall i :: 0 <= i < |items| ==> Archived(items[i])
      requires forall i, j :: 0 <= i < j < |items| ==> items[i].manifest.number != items[j].manifest.number
      requires forall id :: id in submissions ==> submissions[id].problem in problems
      requires |newIds| == |items| && (forall i :: 0 <= i < |newIds| ==> newIds[i] !in problems)
      requires forall i, j :: 0 <= i < j < |newIds| ==> newIds[i] != newIds[j]
      modifies this
      ensures r == if Ambiguous(old(Contents()), contest, items) then Failure(DuplicateNumbers)
                   else if TargetUnderCheck(old(Contents()), contest, items) then Failure(Busy)
                   else if Refusal(items, supported, contest in old(schools)).Some?
                   then Failure(Refusal(items, supported, contest in old(schools)).value)
                   else Success(|items|)
      ensures r.Success? ==> FirstReason(items, supported, contest in schools, None)
      ensures r == Failure(UnsupportedChecker) ==> FirstReason(items, supported, contest in schools, Some(UnsupportedChecker))
      ensures r == Failure(NoClosedTest) ==> FirstReason(items, supported, contest in schools, Some(NoClosedTest))
      ensures r.Failure? ==> Contents() == old(Contents())
      ensures r.Success? ==>
                && Enabled(old(Contents()), Import(contest, items, ids))
                && Contents() == Next(old(Contents()), Import(contest, items, ids))
    {
      hide Rows, Idle, ImportRow, Archived, Refusal, Ambiguous, TargetUnderCheck, Enabled, Next, CanImport, FirstReason, Loaded, RowFor;
      ids := [];
      FirstRefused(items, supported, contest in schools);
      var numbers := set i | 0 <= i < |items| :: items[i].manifest.number;
      var existing := set p | p in problems && problems[p].contest == contest && problems[p].number in numbers;
      TargetsFound(Contents(), contest, items, existing);
      if exists p, q :: p in existing && q in existing && p != q && problems[p].number == problems[q].number {
        return Failure(DuplicateNumbers), ids;
      }
      if !Idle(Contents(), existing) {
        return Failure(Busy), ids;
      }
      var rows;
      rows, ids := BuildRows(contest, items, supported, newIds, existing);
      if rows.Failure? {
        return Failure(rows.error), ids;
      }
      RowsChosen(Contents(), contest, items, ids, existing, newIds);
      ImportStep(Contents(), contest, items, ids);
      problems := rows.value;
      return Success(|items|), ids;
    }

    /** The table with every row of the archive written, in the order of the archive. */
    method BuildRows(contest: int, items: seq<ImportedProblem>, supported: set<int>, newIds: seq<int>, existing: set<int>)
      returns (r: Result<map<int, Problem>, ImportError>, ids: seq<int>)
      requires forall i :: 0 <= i < |items| ==> Archived(items[i])
      requires |newIds| == |items| && (forall i :: 0 <= i < |newIds| ==> newIds[i] !in problems)
      requires Loaded(problems, contest, items, existing)
      ensures r.Failure? ==> Refusal(items, supported, contest in schools) == Some(r.error)
      ensures r.Success? ==>
                && Refusal(items, supported, contest in schools) == None
                && |ids| == |items|
                && (forall i :: 0 <= i < |items| ==> RowFor(Contents(), contest, items[i], ids[i], existing, newIds[i]))
                && r.value == Rows(Contents(), contest, items, ids)
    {
      hide Rows, ImportRow, ImportedRow, BuiltTests, Refusal;
      ids := [];
      var isSchool := contest in schools;
      var rows := problems;
      NoRows(Contents(), contest, supported);
      for k := 0 to |items|
        invariant |ids| == k
        invariant Refusal(items[..k], supported, isSchool) == None
        invariant forall i :: 0 <= i < k ==> RowFor(Contents(), contest, items[i], ids[i], existing, newIds[i])
        invariant rows == Rows(Contents(), contest, items[..k], ids)
      {
        var data := items[k].manifest;
        NextRefusal(items, supported, isSchool, k);
        if data.checkerId !in supported {
          return Failure(UnsupportedChecker), ids;
        }
        var tests := BuildTests(items[k], isSchool);
        if tests.Failure? {
          return Failure(tests.error), ids;
        }
        var id := FindRow(contest, data.number, existing, newIds[k]);
        NextRow(Contents(), contest, items[..k], items[k], ids, id);
        assert items[..k] + [items[k]] == items[..k + 1];
        rows := rows[id := Problem(contest, data.number, SettingsOf(data), data.isActive, tests.value)];
        ids := ids + [id];
      }
      assert items[..|items|] == items;
      return Success(rows), ids;
    }

    /** The row with this problem number, or a new one. */
    method FindRow(contest: int, number: int, existing: set<int>, newId: int) returns (id: int)
      requires newId !in problems && existing <= problems.Keys
      requires forall p :: p in problems && problems[p].contest == contest && problems[p].number == number ==> p in existing
      requires forall p :: p in existing ==> problems[p].contest == contest
      requires forall p, q :: p in existing && q in existing && p != q ==> problems[p].number != problems[q].number
      ensures ImportRow(Contents(), contest, number, id)
      ensures if id in problems then id in existing else id == newId
    {
      if exists p :: p in existing && problems[p].number == number {
        id :| id in existing && problems[id].number == number;
      } else {
        id := newId;
      }
    }
  }

  /** The rows of this contest whose numbers the archive contains; no two share a number. */
  ghost predicate Loaded(problems: map<int, Problem>, contest: int, items: seq<ImportedProblem>, existing: set<int>) {
    && existing <= problems.Keys
    && (forall p :: p in existing ==> problems[p].contest == contest)
    && (forall p, q :: p in existing && q in existing && p != q ==> problems[p].number != problems[q].number)
    && (forall p, i :: p in problems && problems[p].contest == contest && 0 <= i < |items| ==>
          problems[p].number == items[i].manifest.number ==> p in existing)
  }

  /**
   The submission waits, or its claim is older than two minutes, and this checker can judge it: its problem is active
   and has tests, and its compiler is among the given ones.
   */
  ghost predicate MayBeTaken(s: State, id: int, compilators: set<int>)
    requires id in s.submissions
  {
    var submission := s.submissions[id];
    && (submission.statusCode == 0 || (submission.statusCode == 1 && s.now - submission.lastModification > 2 * 60 * 1000))
    && submission.problem in s.problems
    && s.problems[submission.problem].isActive && |s.problems[submission.problem].tests| > 0
    && submission.compilator in compilators
  }

  lemma TakenIfEligible(s: State, compilators: set<int>)
    ensures forall id :: id in s.submissions ==> (MayBeTaken(s, id, compilators) <==> Eligible(s, id, compilators))
  {
  }

  ghost predicate UnderCheck(s: State, id: int, contest: int, number: int) {
    && id in s.submissions
    && s.submissions[id].statusCode == CHECKING
    && s.submissions[id].problem in s.problems
    && s.problems[s.submissions[id].problem].contest == contest
    && s.problems[s.submissions[id].problem].number == number
  }

  /** Two rows of the contest share a number that the archive contains. */
  ghost predicate Ambiguous(s: State, contest: int, items: seq<ImportedProblem>) {
    exists p, q, i ::
      && p in s.problems && q in s.problems && p != q && 0 <= i < |items|
      && s.problems[p].contest == s.problems[q].contest == contest
      && s.problems[p].number == s.problems[q].number == items[i].manifest.number
  }

  /** Some submission to a problem that the archive replaces is under check. */
  ghost predicate TargetUnderCheck(s: State, contest: int, items: seq<ImportedProblem>) {
    exists id, i :: 0 <= i < |items| && UnderCheck(s, id, contest, items[i].manifest.number)
  }

  /** The first problem of the archive that cannot be imported decides. */
  function Refusal(items: seq<ImportedProblem>, supported: set<int>, isSchool: bool): Option<ImportError> {
    if items == [] then None
    else
      var earlier, last := Refusal(items[..|items| - 1], supported, isSchool), items[|items| - 1];
      if earlier.Some? then earlier
      else if last.manifest.checkerId !in supported then Some(UnsupportedChecker)
      else if Refused(last, isSchool) then Some(NoClosedTest)
      else None
  }

  /** Nothing before place `k` is refused, and there the archive ends or the problem is refused for this reason. */
  ghost predicate RefusedAt(items: seq<ImportedProblem>, supported: set<int>, isSchool: bool, k: nat, error: Option<ImportError>) {
    && k <= |items|
    && (forall i :: 0 <= i < k ==>
          && items[i].manifest.checkerId in supported
          && !(isSchool && items[i].manifest.scores == None && items[i].manifest.openTestCount == |items[i].tests|))
    && if k == |items| then error == None
       else if items[k].manifest.checkerId !in supported then error == Some(UnsupportedChecker)
       else isSchool && items[k].manifest.scores == None
            && items[k].manifest.openTestCount == |items[k].tests| && error == Some(NoClosedTest)
  }

  ghost predicate FirstReason(items: seq<ImportedProblem>, supported: set<int>, isSchool: bool, error: Option<ImportError>) {
    exists k: nat :: RefusedAt(items, supported, isSchool, k, error)
  }

  lemma {:induction false} FirstRefused(items: seq<ImportedProblem>, supported: set<int>, isSchool: bool)
    ensures FirstReason(items, supported, isSchool, Refusal(items, supported, isSchool))
  {
    var error := Refusal(items, supported, isSchool);
    if items == [] {
      assert RefusedAt(items, supported, isSchool, 0, error);
    } else {
      var front := items[..|items| - 1];
      FirstRefused(front, supported, isSchool);
      var k: nat :| RefusedAt(front, supported, isSchool, k, Refusal(front, supported, isSchool));
      assert RefusedAt(items, supported, isSchool, if k < |front| || error.Some? then k else k + 1, error);
    }
  }

  lemma {:induction false} RefusalOfPrefix(items: seq<ImportedProblem>, supported: set<int>, isSchool: bool, k: nat)
    requires k <= |items| && Refusal(items[..k], supported, isSchool).Some?
    ensures Refusal(items, supported, isSchool) == Refusal(items[..k], supported, isSchool)
  {
    if k < |items| {
      assert items[..|items| - 1][..k] == items[..k];
      RefusalOfPrefix(items[..|items| - 1], supported, isSchool, k);
    } else {
      assert items[..k] == items;
    }
  }

  lemma NextRefusal(items: seq<ImportedProblem>, supported: set<int>, isSchool: bool, k: nat)
    requires k < |items| && Refusal(items[..k], supported, isSchool) == None
    ensures items[k].manifest.checkerId !in supported ==> Refusal(items, supported, isSchool) == Some(UnsupportedChecker)
    ensures items[k].manifest.checkerId in supported && Refused(items[k], isSchool) ==>
              Refusal(items, supported, isSchool) == Some(NoClosedTest)
    ensures items[k].manifest.checkerId in supported && !Refused(items[k], isSchool) ==>
              Refusal(items[..k + 1], supported, isSchool) == None
  {
    assert items[..k + 1][..k] == items[..k];
    if Refusal(items[..k + 1], supported, isSchool).Some? {
      RefusalOfPrefix(items, supported, isSchool, k + 1);
    }
  }

  /** The rows that the first query finds tell whether numbers are ambiguous and whether a target is under check. */
  lemma TargetsFound(s: State, contest: int, items: seq<ImportedProblem>, existing: set<int>)
    requires existing == set p | p in s.problems && s.problems[p].contest == contest
                                 && s.problems[p].number in (set i | 0 <= i < |items| :: items[i].manifest.number)
    requires forall id :: id in s.submissions ==> s.submissions[id].problem in s.problems
    ensures Ambiguous(s, contest, items)
       <==> exists p, q :: p in existing && q in existing && p != q && s.problems[p].number == s.problems[q].number
    ensures TargetUnderCheck(s, contest, items) <==> !Idle(s, existing)
    ensures !Ambiguous(s, contest, items) ==> Loaded(s.problems, contest, items, existing)
  {
    if p, q :| p in existing && q in existing && p != q && s.problems[p].number == s.problems[q].number {
      var i :| 0 <= i < |items| && items[i].manifest.number == s.problems[p].number;
      assert Ambiguous(s, contest, items);
    }
    if !Idle(s, existing) {
      var id :| id in s.submissions && s.submissions[id].problem in existing && s.submissions[id].statusCode == CHECKING;
      var i :| 0 <= i < |items| && items[i].manifest.number == s.problems[s.submissions[id].problem].number;
      assert UnderCheck(s, id, contest, items[i].manifest.number);
    }
  }

  ghost predicate RowFor(s: State, contest: int, item: ImportedProblem, id: int, existing: set<int>, newId: int) {
    && Importable(item, contest in s.schools)
    && ImportRow(s, contest, item.manifest.number, id)
    && (if id in s.problems then id in existing else id == newId)
  }

  lemma NoRows(s: State, contest: int, supported: set<int>)
    ensures Rows(s, contest, [], []) == s.problems
    ensures Refusal([], supported, contest in s.schools) == None
  {
  }

  lemma NextRow(s: State, contest: int, items: seq<ImportedProblem>, item: ImportedProblem, ids: seq<int>, id: int)
    requires |ids| == |items| && Importable(item, contest in s.schools)
    requires forall i :: 0 <= i < |items| ==> Importable(items[i], contest in s.schools)
    ensures Rows(s, contest, items + [item], ids + [id])
         == Rows(s, contest, items, ids)[id := Problem(contest, item.manifest.number, SettingsOf(item.manifest),
                                                       item.manifest.isActive, BuiltTests(item, contest in s.schools))]
  {
    assert (items + [item])[..|items|] == items && (ids + [id])[..|ids|] == ids;
  }

  lemma ImportStep(s: State, contest: int, items: seq<ImportedProblem>, ids: seq<int>)
    requires CanImport(s, contest, items, ids)
    ensures Enabled(s, Import(contest, items, ids))
    ensures Next(s, Import(contest, items, ids)) == s.(problems := Rows(s, contest, items, ids))
  {
  }

  /** Rows found or created for distinct numbers are distinct, and no check is running on them. */
  lemma RowsChosen(s: State, contest: int, items: seq<ImportedProblem>, ids: seq<int>, existing: set<int>, newIds: seq<int>)
    requires |ids| == |items| == |newIds| && Idle(s, existing)
    requires forall id :: id in s.submissions ==> s.submissions[id].problem in s.problems
    requires forall i :: 0 <= i < |items| ==> Archived(items[i])
    requires forall i :: 0 <= i < |items| ==> RowFor(s, contest, items[i], ids[i], existing, newIds[i])
    requires forall i, j :: 0 <= i < j < |items| ==> items[i].manifest.number != items[j].manifest.number
    requires forall i, j :: 0 <= i < j < |newIds| ==> newIds[i] != newIds[j]
    ensures CanImport(s, contest, items, ids)
  {
    forall id | id in s.submissions && s.submissions[id].problem in ids ensures s.submissions[id].problem in existing {
      var i :| 0 <= i < |ids| && ids[i] == s.submissions[id].problem;
      assert RowFor(s, contest, items[i], ids[i], existing, newIds[i]);
    }
    forall i, j | 0 <= i < j < |ids| ensures ids[i] != ids[j] {
      assert RowFor(s, contest, items[i], ids[i], existing, newIds[i]);
      assert RowFor(s, contest, items[j], ids[j], existing, newIds[j]);
    }
  }

  /** Among finitely many eligible submissions one has the earliest commit time. */
  lemma {:induction false} EarliestExists(s: State, candidates: set<int>, compilators: set<int>)
    requires candidates == set id | id in s.submissions && Eligible(s, id, compilators)
    requires candidates != {}
    ensures exists id :: id in candidates && FirstEligible(s, id, compilators)
  {
    var id := Earliest(s.submissions, candidates);
    assert FirstEligible(s, id, compilators);
  }

  lemma {:induction false} Earliest(submissions: map<int, Submission>, candidates: set<int>) returns (id: int)
    requires candidates != {} && candidates <= submissions.Keys
    ensures id in candidates
    ensures forall other :: other in candidates ==> submissions[id].commitTime <= submissions[other].commitTime
  {
    assert (forall other :: other !in candidates) ==> candidates == {};
    id :| id in candidates;
    var rest := candidates - {id};
    assert forall other :: other in candidates ==> other == id || other in rest;
    if rest != {} {
      var best := Earliest(submissions, rest);
      if submissions[best].commitTime < submissions[id].commitTime {
        id := best;
      }
    }
  }
}
