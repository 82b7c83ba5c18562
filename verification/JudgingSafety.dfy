/** What every run of the judging queue keeps, as long as no check outlives its claim; and what goes wrong otherwise. */
module JudgingSafety {
  import opened Options
  import opened StatusCodes
  import opened CheckerService
  import opened ProblemImport
  import opened JudgingQueue

  lemma InitHolds(s: State)
    requires Init(s)
    ensures Inv(s)
  {
  }

  // ---------- Claim ----------

  /** A claim never reaches a submission that a check still holds: only queued ones are left to take. */
  lemma ClaimTakesQueued(s: State, step: Step)
    requires Inv(s) && Timely(s) && step.Claim? && Enabled(s, step)
    ensures s.submissions[step.submission].statusCode == QUEUED
    ensures forall check :: !Holds(s, check, step.submission)
  {
    assert forall check :: Holds(s, check, step.submission) ==>
             s.active[check].claimedAt == s.submissions[step.submission].lastModification;
  }

  lemma ClaimKeepsExclusive(s: State, step: Step)
    requires Exclusive(s) && step.Claim? && Enabled(s, step)
    requires forall check :: !Holds(s, check, step.submission)
    ensures Exclusive(Next(s, step))
  {
    var t := Next(s, step);
    assert Holds(t, step.check, step.submission);
    forall check, id | check != step.check ensures Holds(t, check, id) <==> Holds(s, check, id) {
    }
    forall id | id in t.submissions && id != step.submission
      ensures t.submissions[id].statusCode == CHECKING <==> exists check :: Holds(t, check, id)
    {
      if check :| Holds(s, check, id) {
        assert Holds(t, check, id);
      }
    }
  }

  lemma ClaimKeepsCurrent(s: State, step: Step)
    requires ChecksAreCurrent(s) && step.Claim? && Enabled(s, step)
    requires forall check :: !Holds(s, check, step.submission)
    ensures ChecksAreCurrent(Next(s, step))
  {
    var t := Next(s, step);
    forall check | check in s.active ensures s.active[check].submission != step.submission {
      assert !Holds(s, check, step.submission);
    }
  }

  lemma ClaimKeepsInv(s: State, step: Step)
    requires Inv(s) && Timely(s) && step.Claim? && Enabled(s, step)
    ensures Inv(Next(s, step))
  {
    ClaimTakesQueued(s, step);
    ClaimKeepsExclusive(s, step);
    ClaimKeepsCurrent(s, step);
    assert RecordsAgree(Next(s, step));
  }

  // ---------- Judge and save ----------

  /** Exclusivity only depends on which checks hold which submissions, and on who is marked as being checked. */
  lemma SameHolders(s: State, t: State)
    requires Exclusive(s)
    requires t.active.Keys == s.active.Keys
    requires forall check :: check in s.active ==> t.active[check].submission == s.active[check].submission
    requires s.submissions.Keys <= t.submissions.Keys
    requires forall id :: id in t.submissions ==>
               (t.submissions[id].statusCode == CHECKING <==> id in s.submissions && s.submissions[id].statusCode == CHECKING)
    ensures Exclusive(t)
  {
    assert forall check, id :: Holds(t, check, id) <==> Holds(s, check, id);
    forall id | id in t.submissions
      ensures t.submissions[id].statusCode == CHECKING <==> exists check :: Holds(t, check, id)
    {
      if check :| Holds(s, check, id) {
        assert Holds(t, check, id);
      }
    }
  }

  lemma JudgeKeepsInv(s: State, step: Step)
    requires Inv(s) && step.Judge? && Enabled(s, step)
    ensures Inv(Next(s, step))
  {
    var t, active := Next(s, step), s.active[step.check];
    SameHolders(s, t);
    if t.active[step.check].phase.Judged? {
      assert Outcome(active.request, step.compiled, step.checkerKnown, step.runner)
          == Success(t.active[step.check].phase.result);
      assert IsOutcome(active.request, t.active[step.check].phase.result);
    }
  }

  lemma SaveKeepsExclusive(s: State, step: Step)
    requires Inv(s) && step.Save? && Enabled(s, step)
    ensures Next(s, step).submissions[s.active[step.check].submission].statusCode != CHECKING
    ensures Exclusive(Next(s, step))
  {
    var t, active := Next(s, step), s.active[step.check];
    if active.phase.Judged? {
      SavedCodeIsDecided(s, step);
    }
    assert Holds(s, step.check, active.submission);
    forall check, id | check != step.check ensures Holds(t, check, id) <==> Holds(s, check, id) {
    }
    forall id | id in t.submissions
      ensures t.submissions[id].statusCode == CHECKING <==> exists check :: Holds(t, check, id)
    {
      if id == active.submission {
        forall check ensures !Holds(t, check, id) {
        }
      } else if check :| Holds(s, check, id) {
        assert Holds(t, check, id);
      }
    }
  }

  /** A saved verdict is a decided one, and a compilation error carries no score. */
  lemma SavedCodeIsDecided(s: State, step: Step)
    requires ChecksAreCurrent(s) && step.Save? && Enabled(s, step) && s.active[step.check].phase.Judged?
    ensures var result := s.active[step.check].phase.result;
      && result.statusCode !in {QUEUED, CHECKING}
      && (result.statusCode == COMPILATION_ERROR ==> result.score == None)
  {
    var active := s.active[step.check];
    var compiled, checkerKnown, runner: Runner
      :| Outcome(active.request, compiled, checkerKnown, runner) == Success(active.phase.result);
    FinishedChecks(active.request, compiled, checkerKnown, runner);
  }

  lemma SaveKeepsCurrent(s: State, step: Step)
    requires Inv(s) && step.Save? && Enabled(s, step)
    ensures ChecksAreCurrent(Next(s, step))
  {
    var t, active := Next(s, step), s.active[step.check];
    forall check | check in t.active ensures t.active[check].submission != active.submission {
      assert Holds(s, step.check, active.submission);
      assert check != step.check && !Holds(s, check, active.submission);
    }
  }

  lemma SaveKeepsRecords(s: State, step: Step)
    requires Inv(s) && step.Save? && Enabled(s, step)
    ensures RecordsAgree(Next(s, step))
  {
    var t, active := Next(s, step), s.active[step.check];
    assert Holds(s, step.check, active.submission);
    assert s.submissions[active.submission].statusCode == CHECKING;
    if active.phase.Judged? {
      SavedCodeIsDecided(s, step);
      assert t.history[..|t.history| - 1] == s.history;
      forall id ensures LastEntry(t.history, id)
                     == if id == active.submission then Some(active.phase.result) else LastEntry(s.history, id)
      {
      }
    }
  }

  // ---------- Retests and imports ----------

  /** A retest only queues submissions again, and none that is under check. */
  lemma RetestRequeues(s: State, step: Step)
    requires (step.Retest? || step.RetestCompilationErrors?) && Enabled(s, step)
    ensures var t := Next(s, step);
      && t == s.(submissions := t.submissions) && t.submissions.Keys == s.submissions.Keys
      && forall id :: id in s.submissions ==>
           || t.submissions[id] == s.submissions[id]
           || (s.submissions[id].statusCode != CHECKING && t.submissions[id] == Requeued(s.submissions[id], s.now))
  {
  }

  lemma RetestKeepsInv(s: State, step: Step)
    requires Inv(s) && (step.Retest? || step.RetestCompilationErrors?) && Enabled(s, step)
    ensures Inv(Next(s, step))
  {
    hide Next, Enabled, LastEntry;
    var t := Next(s, step);
    RetestRequeues(s, step);
    SameHolders(s, t);
    assert ChecksAreCurrent(t) by {
      forall check | check in s.active ensures s.submissions[s.active[check].submission].statusCode == CHECKING {
        assert Holds(s, check, s.active[check].submission);
      }
    }
    assert RecordsAgree(t);
  }

  /** An import writes its own rows and no other. */
  lemma {:induction false} RowsOutside(s: State, contest: int, items: seq<ImportedProblem>, ids: seq<int>, problem: int)
    requires |ids| == |items| && problem !in ids
    requires forall i :: 0 <= i < |items| ==> Importable(items[i], contest in s.schools)
    ensures problem in Rows(s, contest, items, ids) <==> problem in s.problems
    ensures problem in s.problems ==> Rows(s, contest, items, ids)[problem] == s.problems[problem]
    ensures s.problems.Keys <= Rows(s, contest, items, ids).Keys
  {
    if items != [] {
      RowsOutside(s, contest, items[..|items| - 1], ids[..|items| - 1], problem);
    }
  }

  lemma {:induction false} RowsGrow(s: State, contest: int, items: seq<ImportedProblem>, ids: seq<int>)
    requires |ids| == |items|
    requires forall i :: 0 <= i < |items| ==> Importable(items[i], contest in s.schools)
    ensures s.problems.Keys <= Rows(s, contest, items, ids).Keys
  {
    if items != [] {
      RowsGrow(s, contest, items[..|items| - 1], ids[..|items| - 1]);
    }
  }

  lemma ImportKeepsInv(s: State, step: Step)
    requires Inv(s) && step.Import? && Enabled(s, step)
    ensures Inv(Next(s, step))
  {
    var t := Next(s, step);
    RowsGrow(s, step.contest, step.items, step.ids);
    SameHolders(s, t);
    forall check | check in s.active
      ensures var problem := s.submissions[s.active[check].submission].problem;
        problem in t.problems && t.problems[problem] == s.problems[problem]
    {
      ImportSkipsProblemUnderCheck(s, step, check);
    }
  }

  lemma ImportSkipsProblemUnderCheck(s: State, step: Step, check: int)
    requires Inv(s) && step.Import? && Enabled(s, step) && check in s.active
    ensures var problem := s.submissions[s.active[check].submission].problem;
      && problem !in step.ids
      && problem in Next(s, step).problems && Next(s, step).problems[problem] == s.problems[problem]
  {
    var id := s.active[check].submission;
    var problem := s.submissions[id].problem;
    assert Holds(s, check, id);
    RowsOutside(s, step.contest, step.items, step.ids, problem);
  }

  lemma SubmitKeepsInv(s: State, step: Step)
    requires Inv(s) && (step.Submit? || step.Wait?) && Enabled(s, step)
    ensures Inv(Next(s, step))
  {
    var t := Next(s, step);
    SameHolders(s, t);
  }

  /** A new submission waits, without a verdict, in line by the time at which it was made. */
  lemma SubmitEffect(s: State, step: Step)
    requires step.Submit? && Enabled(s, step)
    ensures var t := Next(s, step);
      && step.id !in s.submissions
      && t == s.(submissions := s.submissions[step.id := t.submissions[step.id]])
      && t.submissions[step.id].problem == step.problem && t.submissions[step.id].compilator == step.compilator
      && t.submissions[step.id].commitTime == s.now && t.submissions[step.id].statusCode == 0
      && t.submissions[step.id].score == None && t.submissions[step.id].testResults == None
  {
  }

  /** A retest leaves no verdict on the problem, except accepted ones when they are to be kept, and touches no other. */
  lemma RetestEffect(s: State, step: Step, id: int)
    requires step.Retest? && Enabled(s, step) && id in s.submissions
    ensures var before, after := s.submissions[id], Next(s, step).submissions[id];
      && (before.problem == step.problem && !(step.exceptAccepted && before.statusCode == ACCEPTED) ==>
            after.statusCode == 0 && (before.statusCode != 0 ==>
              after == before.(statusCode := 0, score := None, testResults := None, lastModification := s.now)))
      && (before.problem != step.problem || (step.exceptAccepted && before.statusCode == ACCEPTED) ==> after == before)
      && Next(s, step).submissions.Keys == s.submissions.Keys
  {
    assert s.submissions[id].statusCode != CHECKING || s.submissions[id].problem !in {step.problem};
  }

  /** After a retest of compilation errors none is left on an active problem of the contest; nothing else changes. */
  lemma NoCompilationErrorIsLeft(s: State, step: Step, id: int)
    requires step.RetestCompilationErrors? && Enabled(s, step) && id in s.submissions
    ensures var before, after := s.submissions[id], Next(s, step).submissions[id];
      && !(after.problem in s.problems && s.problems[after.problem].contest == step.contest
           && s.problems[after.problem].isActive && after.statusCode == -1)
      && (after != before ==> before.problem in s.problems && s.problems[before.problem].contest == step.contest
                              && s.problems[before.problem].isActive && before.statusCode == -1
                              && after == before.(statusCode := 0, score := None, testResults := None, lastModification := s.now))
  {
    assert ActiveProblem(s, step.contest, s.submissions[id].problem)
      <==> s.submissions[id].problem in ActiveProblems(s, step.contest);
  }

  lemma {:induction false} RowsWritten(s: State, contest: int, items: seq<ImportedProblem>, ids: seq<int>, i: nat)
    requires |ids| == |items| && i < |items|
    requires forall k :: 0 <= k < |items| ==> Importable(items[k], contest in s.schools)
    requires forall j, k :: 0 <= j < k < |ids| ==> ids[j] != ids[k]
    ensures ids[i] in Rows(s, contest, items, ids)
    ensures Rows(s, contest, items, ids)[ids[i]] == ImportedRow(s, contest, items[i])
  {
    if i < |items| - 1 {
      RowsWritten(s, contest, items[..|items| - 1], ids[..|items| - 1], i);
    }
  }

  /** An import leaves every archive problem with its settings and exactly its own tests, worth 100 points where points are spread. */
  lemma ImportEffect(s: State, step: Step, i: nat)
    requires step.Import? && Enabled(s, step) && i < |step.items|
    ensures step.ids[i] in Next(s, step).problems
    ensures var item, row := step.items[i], Next(s, step).problems[step.ids[i]];
      && row.contest == step.contest && row.number == item.manifest.number && row.isActive == item.manifest.isActive
      && row.settings.name == item.manifest.name && row.settings.checkerId == item.manifest.checkerId
      && row.settings.timeLimit == item.manifest.timeLimit && row.settings.memoryLimit == item.manifest.memoryLimit
      && item.manifest.slowTimeLimit in {None, Some(row.settings.slowTimeLimit)}
      && (item.manifest.slowTimeLimit.None? ==> row.settings.slowTimeLimit == row.settings.timeLimit)
      && AreImported(item, step.contest in s.schools, row.tests)
  {
    RowsWritten(s, step.contest, step.items, step.ids, i);
    BuiltTestsAreImported(step.items[i], step.contest in s.schools);
  }

  /**
   An import replaces exactly the problems of the contest that have a number of the archive, and leaves all others
   alone; afterwards no two problems of the contest share a number of the archive.
   */
  lemma ImportReplaces(s: State, step: Step)
    requires step.Import? && Enabled(s, step)
    ensures var t := Next(s, step);
      && s.problems.Keys <= t.problems.Keys
      && (forall p :: p in s.problems
            && (s.problems[p].contest != step.contest
                || forall i :: 0 <= i < |step.items| ==> step.items[i].manifest.number != s.problems[p].number)
            ==> t.problems[p] == s.problems[p])
      && (forall p, i :: p in s.problems && 0 <= i < |step.items|
            && s.problems[p].contest == step.contest && s.problems[p].number == step.items[i].manifest.number
            ==> step.ids[i] == p)
      && (forall p :: p in t.problems && p !in s.problems ==> p in step.ids)
      && (forall p, i :: p in t.problems && 0 <= i < |step.items|
            && t.problems[p].contest == step.contest && t.problems[p].number == step.items[i].manifest.number
            ==> p in step.ids)
      && t == s.(problems := t.problems)
  {
    var t := Next(s, step);
    RowsGrow(s, step.contest, step.items, step.ids);
    forall p | p !in step.ids
      ensures p in t.problems <==> p in s.problems
      ensures p in s.problems ==> t.problems[p] == s.problems[p]
    {
      RowsOutside(s, step.contest, step.items, step.ids, p);
    }
    hide Rows;
    forall p | p in s.problems && p in step.ids
      ensures s.problems[p].contest == step.contest
      ensures exists i :: 0 <= i < |step.items| && step.items[i].manifest.number == s.problems[p].number
    {
      var i :| 0 <= i < |step.ids| && step.ids[i] == p;
      assert ImportRow(s, step.contest, step.items[i].manifest.number, step.ids[i]);
    }
  }

  // ---------- Whole runs ----------

  lemma StepKeepsInv(s: State, step: Step)
    requires Inv(s) && Timely(s) && Enabled(s, step)
    ensures Inv(Next(s, step))
  {
    match step
    case Claim(_, _, _, _) => ClaimKeepsInv(s, step);
    case Judge(_, _, _, _) => JudgeKeepsInv(s, step);
    case Save(_) =>
      SaveKeepsExclusive(s, step);
      SaveKeepsCurrent(s, step);
      SaveKeepsRecords(s, step);
    case Import(_, _, _) => ImportKeepsInv(s, step);
    case Retest(_, _, _) => RetestKeepsInv(s, step);
    case RetestCompilationErrors(_) => RetestKeepsInv(s, step);
    case Submit(_, _, _) => SubmitKeepsInv(s, step);
    case Wait(_) => SubmitKeepsInv(s, step);
  }

  ghost predicate TimelyRun(states: seq<State>, steps: seq<Step>) {
    IsRun(states, steps) && forall i :: 0 <= i < |states| ==> Timely(states[i])
  }

  /** Every state of a run in which each check ends within its claim is exclusive, current and in agreement. */
  lemma {:induction false} RunKeepsInv(states: seq<State>, steps: seq<Step>, i: nat)
    requires TimelyRun(states, steps) && i < |states|
    ensures Inv(states[i])
  {
    if i == 0 {
      InitHolds(states[0]);
    } else {
      RunKeepsInv(states, steps, i - 1);
      StepKeepsInv(states[i - 1], steps[i - 1]);
    }
  }

  // ---------- Where a saved verdict comes from ----------

  /** This step claims the submission for the check, with the tests that its problem has then. */
  ghost predicate ClaimedBy(s: State, step: Step, check: int, active: ActiveCheck) {
    && step.Claim? && step.check == check && step.submission == active.submission && step.stamp == active.claimedAt
    && active.submission in s.submissions && s.submissions[active.submission].problem in s.problems
    && HoldsTests(active.request, s.problems[s.submissions[active.submission].problem], s.schools)
  }

  /** This step runs the check of that claim to its verdict. */
  ghost predicate JudgedBy(s: State, step: Step, check: int, active: ActiveCheck) {
    && step.Judge? && step.check == check && active.phase.Judged?
    && check in s.active && s.active[check] == active.(phase := Running)
    && Outcome(active.request, step.compiled, step.checkerKnown, step.runner) == Success(active.phase.result)
  }

  /** A check appears with its claim, and changes only when it is judged. */
  lemma OriginStep(s: State, step: Step, check: int)
    requires Enabled(s, step) && check in Next(s, step).active
    ensures var active := Next(s, step).active[check];
      || ClaimedBy(s, step, check, active)
      || (check in s.active && (s.active[check] == active || s.active[check] == active.(phase := Running)))
    ensures var active := Next(s, step).active[check];
      active.phase.Judged? ==> JudgedBy(s, step, check, active) || (check in s.active && s.active[check] == active)
  {
  }

  lemma {:induction false} ClaimOf(states: seq<State>, steps: seq<Step>, i: nat, check: int) returns (k: nat)
    requires IsRun(states, steps) && i < |states| && check in states[i].active
    ensures k < i && ClaimedBy(states[k], steps[k], check, states[i].active[check])
  {
    hide Next, Enabled, RequestFor;
    assert i > 0 && Enabled(states[i - 1], steps[i - 1]) && states[i - 1 + 1] == Next(states[i - 1], steps[i - 1]);
    OriginStep(states[i - 1], steps[i - 1], check);
    if ClaimedBy(states[i - 1], steps[i - 1], check, states[i].active[check]) {
      k := i - 1;
    } else {
      k := ClaimOf(states, steps, i - 1, check);
    }
  }

  lemma {:induction false} JudgementOf(states: seq<State>, steps: seq<Step>, i: nat, check: int) returns (j: nat)
    requires IsRun(states, steps) && i < |states| && check in states[i].active && states[i].active[check].phase.Judged?
    ensures j < i && JudgedBy(states[j], steps[j], check, states[i].active[check])
  {
    hide Next, Enabled, Outcome;
    assert i > 0 && Enabled(states[i - 1], steps[i - 1]) && states[i - 1 + 1] == Next(states[i - 1], steps[i - 1]);
    OriginStep(states[i - 1], steps[i - 1], check);
    if JudgedBy(states[i - 1], steps[i - 1], check, states[i].active[check]) {
      j := i - 1;
    } else {
      j := JudgementOf(states, steps, i - 1, check);
    }
  }

  /**
   Each verdict that a timely run saves was computed by an earlier step of the run, on a request read by a still
   earlier claim; and that request holds exactly the tests, contents included, which the problem has at the
   moment of saving. The submission was held by this check alone.
   */
  lemma SavedVerdictsAreCurrent(states: seq<State>, steps: seq<Step>, i: nat) returns (k: nat, j: nat)
    requires TimelyRun(states, steps) && i < |steps| && steps[i].Save? && states[i].active[steps[i].check].phase.Judged?
    ensures var s, check := states[i], steps[i].check;
      var active := s.active[check];
      && k < j < i
      && ClaimedBy(states[k], steps[k], check, active.(phase := Running))
      && JudgedBy(states[j], steps[j], check, active)
      && s.submissions[active.submission].problem in s.problems
      && HoldsTests(active.request, s.problems[s.submissions[active.submission].problem], s.schools)
      && (forall other :: Holds(s, other, active.submission) <==> other == check)
      && s.submissions[active.submission].statusCode == CHECKING
  {
    RunKeepsInv(states, steps, i);
    var check := steps[i].check;
    assert Holds(states[i], check, states[i].active[check].submission);
    j := JudgementOf(states, steps, i, check);
    k := ClaimOf(states, steps, j, check);
  }

  /** A scored verdict on the tests of a school contest's problem has an entry for every test, and they add up to the score. */
  lemma SchoolVerdictsCoverAllTests(s: State, problem: int, request: CheckRequest, result: CheckerResult)
    requires problem in s.problems && s.problems[problem].contest in s.schools
    requires HoldsTests(request, s.problems[problem], s.schools) && IsOutcome(request, result)
    ensures result.testResults.Some? ==>
      && |result.testResults.value| == |s.problems[problem].tests|
      && result.score == Some(PointsOf(result.testResults.value))
  {
    if result.testResults.Some? {
      var compiled, checkerKnown, runner: Runner :| Outcome(request, compiled, checkerKnown, runner) == Success(result);
      FinishedChecks(request, compiled, checkerKnown, runner);
      ScoresMatchEntries(request, runner);
    }
  }

  /** No import and no retest of a run touches a submission under check, its problem, or the check itself. */
  lemma EditsSkipChecks(states: seq<State>, steps: seq<Step>, i: nat, check: int)
    requires TimelyRun(states, steps) && i < |steps| && check in states[i].active
    requires steps[i].Import? || steps[i].Retest? || steps[i].RetestCompilationErrors?
    ensures var s, t, id := states[i], states[i + 1], states[i].active[check].submission;
      && t.active == s.active
      && id in t.submissions && t.submissions[id] == s.submissions[id]
      && s.submissions[id].problem in s.problems && s.submissions[id].problem in t.problems
      && t.problems[s.submissions[id].problem] == s.problems[s.submissions[id].problem]
  {
    RunKeepsInv(states, steps, i);
    assert Holds(states[i], check, states[i].active[check].submission);
    if steps[i].Import? {
      ImportSkipsProblemUnderCheck(states[i], steps[i], check);
    }
  }

  /** The steps among the first `n` that save a finished check. */
  ghost function Finishes(states: seq<State>, steps: seq<Step>, n: nat): nat
    requires IsRun(states, steps) && n <= |steps|
  {
    if n == 0 then 0
    else
      var step := steps[n - 1];
      Finishes(states, steps, n - 1) + (if step.Save? && states[n - 1].active[step.check].phase.Judged? then 1 else 0)
  }

  lemma HistoryStep(s: State, step: Step)
    requires Enabled(s, step)
    ensures Next(s, step).history
         == if step.Save? && s.active[step.check].phase.Judged?
            then s.history + [HistoryEntry(s.active[step.check].submission, s.active[step.check].phase.result)] else s.history
  {
  }

  /** The history has become longer by so many entries at its end. */
  ghost predicate Grows(before: seq<HistoryEntry>, after: seq<HistoryEntry>, count: int) {
    before <= after && |after| - |before| == count
  }

  lemma GrowsFurther(a: seq<HistoryEntry>, b: seq<HistoryEntry>, c: seq<HistoryEntry>, m: int, n: int)
    requires Grows(a, b, m) && Grows(b, c, n)
    ensures Grows(a, c, m + n)
  {
  }

  lemma HistoryOneMore(states: seq<State>, steps: seq<Step>, n: nat)
    requires IsRun(states, steps) && n < |steps|
    ensures Grows(states[n].history, states[n + 1].history, Finishes(states, steps, n + 1) - Finishes(states, steps, n))
  {
    hide Next, Enabled;
    assert Enabled(states[n], steps[n]) && states[n + 1] == Next(states[n], steps[n]);
    HistoryStep(states[n], steps[n]);
  }

  /** History only grows at its end: by one entry for each finished check, by none for a failed one. */
  lemma {:induction false} HistoryIsAppendOnly(states: seq<State>, steps: seq<Step>, i: nat, j: nat)
    requires IsRun(states, steps) && i <= j < |states|
    ensures Grows(states[i].history, states[j].history, Finishes(states, steps, j) - Finishes(states, steps, i))
    decreases j - i
  {
    hide *;
    RunLength(states, steps);
    if i == j {
      GrowsByNothing(states[i].history);
    } else {
      HistoryIsAppendOnly(states, steps, i, j - 1);
      HistoryOneMore(states, steps, j - 1);
      GrowsFurther(states[i].history, states[j - 1].history, states[j].history,
                   Finishes(states, steps, j - 1) - Finishes(states, steps, i),
                   Finishes(states, steps, j) - Finishes(states, steps, j - 1));
    }
  }

  lemma RunLength(states: seq<State>, steps: seq<Step>)
    requires IsRun(states, steps)
    ensures |states| == |steps| + 1
  {
  }

  lemma GrowsByNothing(history: seq<HistoryEntry>)
    ensures Grows(history, history, 0)
  {
  }

  /** In every state of a timely run a submission without a verdict, or with a compilation error, has no score. */
  lemma UndecidedHaveNoScore(s: State, id: int)
    requires Inv(s) && id in s.submissions && s.submissions[id].statusCode in {QUEUED, CHECKING, COMPILATION_ERROR}
    ensures s.submissions[id].score == None
  {
    if s.submissions[id].statusCode == COMPILATION_ERROR {
      LastEntryOccurs(s.history, id);
    }
  }

  lemma {:induction false} LastEntryOccurs(history: seq<HistoryEntry>, id: int)
    requires LastEntry(history, id).Some?
    ensures exists i :: 0 <= i < |history| && history[i] == HistoryEntry(id, LastEntry(history, id).value)
  {
    if history[|history| - 1].submission == id {
      assert history[|history| - 1] == HistoryEntry(id, LastEntry(history, id).value);
    } else {
      LastEntryOccurs(history[..|history| - 1], id);
    }
  }

  // ---------- Without the time bound ----------

  /**
   The assumption is exactly what is needed: from a good state a claim stays good if and only if it takes a
   queued submission; it takes another kind exactly when some check of that submission has outlived its claim.
   */
  lemma ClaimsOverlapExactlyWhenStale(s: State, step: Step)
    requires Inv(s) && step.Claim? && Enabled(s, step)
    ensures Exclusive(Next(s, step)) <==> s.submissions[step.submission].statusCode == QUEUED
    ensures s.submissions[step.submission].statusCode != QUEUED
       <==> exists check :: Holds(s, check, step.submission) && s.now > s.active[check].claimedAt + CLAIM_LIFETIME
  {
    var t, id := Next(s, step), step.submission;
    if s.submissions[id].statusCode == QUEUED {
      forall check ensures !Holds(s, check, id) {
      }
      ClaimKeepsExclusive(s, step);
    } else {
      var check :| Holds(s, check, id);
      assert s.active[check].claimedAt == s.submissions[id].lastModification;
      assert Holds(t, check, id) && Holds(t, step.check, id);
    }
  }

  /** A run of a claim, a pause longer than the claim lives, and a second claim ends with two checks of one submission. */
  lemma StaleClaimOverlaps() returns (states: seq<State>, steps: seq<Step>)
    ensures IsRun(states, steps)
    ensures exists c, d :: c != d && Holds(states[|steps|], c, 7) && Holds(states[|steps|], d, 7)
  {
    var test := Test(1, "", "", false, None);
    var s0 := State(0, {}, map[1 := Problem(1, 1, Settings("A", 1, 1, 256, 4), true, [test])],
                    map[7 := Submission(1, 1, 0, 0, QUEUED, None, None)], [], map[]);
    steps := [Claim(1, 7, {1}, 0), Wait(CLAIM_LIFETIME + 1), Claim(2, 7, {1}, CLAIM_LIFETIME + 1)];
    assert Eligible(s0, 7, {1});
    var s1 := Next(s0, steps[0]);
    var s2 := Next(s1, steps[1]);
    assert Eligible(s2, 7, {1});
    var s3 := Next(s2, steps[2]);
    states := [s0, s1, s2, s3];
    assert states[|steps|] == s3;
    assert Holds(states[|steps|], 1, 7) && Holds(states[|steps|], 2, 7);
  }
}
