/**
 One competitor's row for one problem, computed from that competitor's submissions to it. Times are ticks;
 the default time of a row without attempts is tick zero.
 */
module ProblemStanding {
  import opened Options
  import opened StatusCodes
  import opened Linq

  datatype User = User(id: int, name: string, isHidden: bool, isApproved: bool, isOutOfCompetition: bool, isDisqualified: bool)

  datatype Submission = Submission(id: int, user: User, problem: int, commitTime: int, statusCode: int, score: Option<int>, isHidden: bool)

  datatype Row = Row(problem: int, isSuccess: bool, commitNumber: nat, isFirstSuccess: bool, score: int, lastCommitTime: int)

  const DEFAULT_TIME := 0

  // ---------- The query ----------

  predicate IsSuccess(s: Submission) {
    s.statusCode == ACCEPTED || (s.score.Some? && s.score.value > 0)
  }

  predicate IsChecked(s: Submission) {
    s.statusCode !in {QUEUED, CHECKING, COMPILATION_ERROR}
  }

  function NotAfter(time: int): Submission -> bool {
    (s: Submission) => s.commitTime <= time
  }

  /** Missing scores come first. */
  predicate ScoreAtMost(x: Option<int>, y: Option<int>) {
    x.None? || (y.Some? && x.value <= y.value)
  }

  /** Ascending by score, then descending by time. */
  predicate Before(x: Submission, y: Submission) {
    ScoreAtMost(x.score, y.score) && (x.score == y.score ==> x.commitTime >= y.commitTime)
  }

  predicate Earlier(x: int, y: int) {
    x <= y
  }

  function Times(submissions: seq<Submission>): seq<int> {
    seq(|submissions|, i requires 0 <= i < |submissions| => submissions[i].commitTime)
  }

  function Successes(submissions: seq<Submission>): seq<Submission> {
    OrderBy(Where(submissions, IsSuccess), Before)
  }

  function Signed(submissions: seq<Submission>): seq<Submission> {
    var successes := Successes(submissions);
    var checkedOnes := Where(submissions, IsChecked);
    if successes == [] then checkedOnes else Where(checkedOnes, NotAfter(successes[|successes| - 1].commitTime))
  }

  function LastTime(submissions: seq<Submission>): int {
    var times := OrderBy(Times(submissions), Earlier);
    if times == [] then DEFAULT_TIME else times[|times| - 1]
  }

  function ScoreOf(s: Submission): int {
    if s.score.Some? then s.score.value else 1
  }

  function ProblemRow(problem: int, submissions: seq<Submission>, isFirst: bool): Row {
    var successes, signed := Successes(submissions), Signed(submissions);
    Row(problem,
        successes != [],
        |signed|,
        isFirst,
        if successes == [] then 0 else ScoreOf(successes[|successes| - 1]),
        LastTime(signed))
  }

  // ---------- What a row means ----------

  /**
   `b` is an accepted or scoring attempt with the best score, where no score counts least, and no such attempt with
   that score is earlier.
   */
  ghost predicate IsBest(submissions: seq<Submission>, b: Submission) {
    && b in submissions && (b.statusCode == 2 || (b.score.Some? && b.score.value > 0))
    && forall s :: s in submissions && (s.statusCode == 2 || (s.score.Some? && s.score.value > 0)) ==>
         && (s.score.Some? ==> b.score.Some? && s.score.value <= b.score.value)
         && (s.score == b.score ==> s.commitTime >= b.commitTime)
  }

  /** Nothing waiting, under check or uncompiled has points. */
  ghost predicate Clean(submissions: seq<Submission>) {
    forall s :: s in submissions && s.statusCode in {0, 1, -1} ==> !(s.score.Some? && s.score.value > 0)
  }

  /** The places of the judged attempts. */
  ghost function JudgedPlaces(submissions: seq<Submission>): set<nat> {
    set i: nat | i < |submissions| && submissions[i].statusCode !in {0, 1, -1}
  }

  /** The latest time of these attempts, or tick zero without any. */
  ghost predicate IsLatestOf(submissions: seq<Submission>, places: set<nat>, time: int)
    requires forall i :: i in places ==> i < |submissions|
  {
    if places == {} then time == 0
    else
      && (exists i :: i in places && submissions[i].commitTime == time)
      && forall i :: i in places ==> submissions[i].commitTime <= time
  }

  lemma BestOfSuccesses(submissions: seq<Submission>, b: Submission)
    ensures IsBest(submissions, b) <==>
              b in submissions && IsSuccess(b) && forall s :: s in submissions && IsSuccess(s) ==> Before(s, b)
  {
  }

  lemma BeforeIsOrder()
    ensures IsOrder(Before)
    ensures IsOrder(Earlier)
  {
  }

  lemma SuccessesMeaning(submissions: seq<Submission>)
    ensures Successes(submissions) != [] <==> exists s :: s in submissions && IsSuccess(s)
    ensures Successes(submissions) != [] ==> IsBest(submissions, Successes(submissions)[|Successes(submissions)| - 1])
  {
    var found := Where(submissions, IsSuccess);
    WhereMembers(submissions, IsSuccess);
    SameElements(OrderBy(found, Before), found);
    if found != [] {
      assert found[0] in found;
      BeforeIsOrder();
      OrderByEnds(found, Before);
    }
  }

  lemma LastTimeMeaning(submissions: seq<Submission>)
    ensures submissions != [] ==> exists s :: s in submissions && s.commitTime == LastTime(submissions)
    ensures forall s :: s in submissions ==> s.commitTime <= LastTime(submissions)
    ensures submissions == [] ==> LastTime(submissions) == DEFAULT_TIME
  {
    hide Times;
    var times := Times(submissions);
    SameElements(OrderBy(times, Earlier), times);
    if times != [] {
      BeforeIsOrder();
      OrderByEnds(times, Earlier);
    }
    TimesLength(submissions);
    TimesMembers(submissions, LastTime(submissions));
    forall s | s in submissions ensures s.commitTime <= LastTime(submissions) {
      TimesMembers(submissions, s.commitTime);
    }
  }

  lemma TimesMembers(submissions: seq<Submission>, time: int)
    ensures time in Times(submissions) <==> exists s :: s in submissions && s.commitTime == time
  {
    var times := Times(submissions);
    if time in times {
      var i :| 0 <= i < |times| && times[i] == time;
      assert submissions[i].commitTime == time;
    }
    if s :| s in submissions && s.commitTime == time {
      var j :| 0 <= j < |submissions| && submissions[j] == s;
      assert times[j] == time;
    }
  }

  lemma TimesLength(submissions: seq<Submission>)
    ensures |Times(submissions)| == |submissions|
  {
  }

  /** The judged attempts up to a time. */
  function JudgedUpTo(submissions: seq<Submission>, time: int): seq<Submission> {
    Where(Where(submissions, IsChecked), NotAfter(time))
  }

  /** The row, told from any best attempt. */
  lemma SolvedRow(problem: int, submissions: seq<Submission>, isFirst: bool, b: Submission)
    requires IsBest(submissions, b)
    ensures ProblemRow(problem, submissions, isFirst)
         == Row(problem, true, |JudgedUpTo(submissions, b.commitTime)|, isFirst, ScoreOf(b), LastTime(JudgedUpTo(submissions, b.commitTime)))
  {
    SuccessesMeaning(submissions);
    BestIsUnique(submissions, b, Successes(submissions)[|Successes(submissions)| - 1]);
  }

  lemma UnsolvedRow(problem: int, submissions: seq<Submission>, isFirst: bool)
    requires forall s :: s in submissions ==> !IsSuccess(s)
    ensures ProblemRow(problem, submissions, isFirst)
         == Row(problem, false, |Where(submissions, IsChecked)|, isFirst, 0, LastTime(Where(submissions, IsChecked)))
  {
    SuccessesMeaning(submissions);
  }

  /** The attempts that a row counts sit at these places, and its time is their latest. */
  lemma CountedPlaces(submissions: seq<Submission>, p: Submission -> bool, places: set<nat>)
    requires forall i: nat :: i in places <==> i < |submissions| && p(submissions[i])
    ensures |Where(submissions, p)| == |places|
    ensures IsLatestOf(submissions, places, LastTime(Where(submissions, p)))
  {
    hide LastTime, Where;
    WhereCount(submissions, p, places);
    WhereMembers(submissions, p);
    var kept := Where(submissions, p);
    LastTimeMeaning(kept);
    forall i | i in places ensures submissions[i] in kept {
    }
    forall s | s in kept ensures exists i :: i in places && submissions[i] == s {
      var i: nat :| i < |submissions| && submissions[i] == s;
      assert i in places;
    }
    assert (forall i: nat :: i !in places) ==> places == {};
  }

  /**
   A row is solved exactly when some attempt is accepted or scores; an unsolved row has no points, and counts all
   judged attempts up to the latest.
   */
  lemma RowMeaning(problem: int, submissions: seq<Submission>, isFirst: bool)
    ensures var row := ProblemRow(problem, submissions, isFirst);
      && row.problem == problem && row.isFirstSuccess == isFirst
      && (row.isSuccess <==> exists s :: s in submissions && (s.statusCode == 2 || (s.score.Some? && s.score.value > 0)))
      && (!row.isSuccess ==>
            && row.score == 0 && row.commitNumber == |JudgedPlaces(submissions)|
            && IsLatestOf(submissions, JudgedPlaces(submissions), row.lastCommitTime))
  {
    hide ProblemRow, LastTime, Where, IsLatestOf;
    if exists s :: s in submissions && IsSuccess(s) {
      var c := BestExists(submissions);
      SolvedRow(problem, submissions, isFirst, c);
    } else {
      UnsolvedRow(problem, submissions, isFirst);
      CountedPlaces(submissions, IsChecked, JudgedPlaces(submissions));
    }
  }

  /**
   A solved row has the best attempt's score, one when that attempt has none, counts the judged attempts up to it,
   and has the time of the latest of these. On clean submissions that is the best attempt itself.
   */
  lemma SolvedRowMeaning(problem: int, submissions: seq<Submission>, isFirst: bool, b: Submission)
    requires IsBest(submissions, b)
    ensures var row := ProblemRow(problem, submissions, isFirst);
      var places := set i | i in JudgedPlaces(submissions) && submissions[i].commitTime <= b.commitTime;
      && row.score == (if b.score.Some? then b.score.value else 1)
      && row.commitNumber == |places|
      && IsLatestOf(submissions, places, row.lastCommitTime)
      && (Clean(submissions) ==>
            && (exists i :: i in places && submissions[i] == b)
            && row.commitNumber >= 1 && row.lastCommitTime == b.commitTime)
  {
    hide ProblemRow, LastTime, Where;
    var places := set i | i in JudgedPlaces(submissions) && submissions[i].commitTime <= b.commitTime;
    SolvedRow(problem, submissions, isFirst, b);
    var counted := (s: Submission) => IsChecked(s) && s.commitTime <= b.commitTime;
    WhereBoth(submissions, IsChecked, NotAfter(b.commitTime), counted);
    CountedPlaces(submissions, counted, places);
    if Clean(submissions) {
      var i: nat :| i < |submissions| && submissions[i] == b;
      assert i in places;
    }
  }

  /** All best attempts agree in score and time. */
  lemma BestIsUnique(submissions: seq<Submission>, b: Submission, c: Submission)
    requires IsBest(submissions, b) && IsBest(submissions, c)
    ensures b.score == c.score && b.commitTime == c.commitTime
  {
  }

  lemma BestExists(submissions: seq<Submission>) returns (b: Submission)
    requires exists s :: s in submissions && IsSuccess(s)
    ensures IsBest(submissions, b)
  {
    SuccessesMeaning(submissions);
    b := Successes(submissions)[|Successes(submissions)| - 1];
  }

  // ---------- The order of the submissions does not matter ----------

  lemma LastTimeIgnoresOrder(s: seq<Submission>, t: seq<Submission>)
    requires multiset(s) == multiset(t)
    ensures LastTime(s) == LastTime(t)
  {
    hide LastTime;
    SameElements(s, t);
    LastTimeMeaning(s);
    LastTimeMeaning(t);
  }

  lemma RowIgnoresOrder(problem: int, s: seq<Submission>, t: seq<Submission>, isFirst: bool)
    requires multiset(s) == multiset(t)
    ensures ProblemRow(problem, s, isFirst) == ProblemRow(problem, t, isFirst)
  {
    hide ProblemRow, LastTime;
    SameElements(s, t);
    WherePermutation(s, t, IsChecked);
    if exists x :: x in s && IsSuccess(x) {
      var b := BestExists(s);
      SolvedRow(problem, s, isFirst, b);
      SolvedRow(problem, t, isFirst, b);
      WherePermutation(Where(s, IsChecked), Where(t, IsChecked), NotAfter(b.commitTime));
      SameElements(JudgedUpTo(s, b.commitTime), JudgedUpTo(t, b.commitTime));
      LastTimeIgnoresOrder(JudgedUpTo(s, b.commitTime), JudgedUpTo(t, b.commitTime));
    } else {
      UnsolvedRow(problem, s, isFirst);
      UnsolvedRow(problem, t, isFirst);
      SameElements(Where(s, IsChecked), Where(t, IsChecked));
      LastTimeIgnoresOrder(Where(s, IsChecked), Where(t, IsChecked));
    }
  }

  // ---------- Later attempts ----------

  /** The attempt neither beats nor precedes any best attempt. */
  ghost predicate ComesTooLate(submissions: seq<Submission>, x: Submission) {
    forall b :: IsBest(submissions, b) ==>
      x.commitTime > b.commitTime && (IsSuccess(x) ==> ScoreAtMost(x.score, b.score))
  }

  lemma TooLateIsNotBest(submissions: seq<Submission>, x: Submission, b: Submission)
    requires (exists s :: s in submissions && IsSuccess(s)) && ComesTooLate(submissions, x)
    ensures IsBest(submissions + [x], b) <==> IsBest(submissions, b)
  {
    var c := BestExists(submissions);
    assert c in submissions + [x];
  }

  lemma TooLateIsNotCounted(submissions: seq<Submission>, x: Submission, time: int)
    requires x.commitTime > time
    ensures JudgedUpTo(submissions + [x], time) == JudgedUpTo(submissions, time)
  {
    WhereOneMore(submissions, x, IsChecked);
    WhereOneMore(Where(submissions, IsChecked), x, NotAfter(time));
  }

  /** On a solved row a strictly later attempt that does not beat the best score changes nothing. */
  lemma LaterAttemptChangesNothing(problem: int, submissions: seq<Submission>, x: Submission, isFirst: bool)
    requires (exists s :: s in submissions && IsSuccess(s)) && ComesTooLate(submissions, x)
    ensures ProblemRow(problem, submissions + [x], isFirst) == ProblemRow(problem, submissions, isFirst)
  {
    hide ProblemRow, LastTime, JudgedUpTo;
    var b := BestExists(submissions);
    TooLateIsNotBest(submissions, x, b);
    SolvedRow(problem, submissions, isFirst, b);
    SolvedRow(problem, submissions + [x], isFirst, b);
    TooLateIsNotCounted(submissions, x, b.commitTime);
  }

  lemma {:induction false} LaterAttemptsChangeNothing(problem: int, submissions: seq<Submission>, later: seq<Submission>, isFirst: bool)
    requires exists s :: s in submissions && IsSuccess(s)
    requires forall x :: x in later ==> ComesTooLate(submissions, x)
    ensures ProblemRow(problem, submissions + later, isFirst) == ProblemRow(problem, submissions, isFirst)
    ensures forall b :: IsBest(submissions + later, b) <==> IsBest(submissions, b)
  {
    hide ProblemRow, IsBest, IsSuccess;
    if later == [] {
      assert submissions + later == submissions;
    } else {
      var k := |later| - 1;
      var some :| some in submissions && IsSuccess(some);
      LaterAttemptsChangeNothing(problem, submissions, later[..k], isFirst);
      assert some in submissions + later[..k];
      assert ComesTooLate(submissions, later[k]);
      assert ComesTooLate(submissions + later[..k], later[k]);
      LaterAttemptChangesNothing(problem, submissions + later[..k], later[k], isFirst);
      forall b ensures IsBest(submissions + later[..k] + [later[k]], b) <==> IsBest(submissions + later[..k], b) {
        TooLateIsNotBest(submissions + later[..k], later[k], b);
      }
      assert submissions + later[..k] + [later[k]] == submissions + later;
    }
  }

  /**
   An unsuccessful judged attempt made at the very time of the best one counts as if it came before: it raises
   the attempt number, and with it the penalty, but changes neither score nor time.
   */
  lemma AttemptAtTheSameTimeCounts(problem: int, submissions: seq<Submission>, x: Submission, isFirst: bool, b: Submission)
    requires IsBest(submissions, b) && Clean(submissions)
    requires IsChecked(x) && !IsSuccess(x) && x.commitTime == b.commitTime
    ensures var before, after := ProblemRow(problem, submissions, isFirst), ProblemRow(problem, submissions + [x], isFirst);
      after == before.(commitNumber := before.commitNumber + 1)
  {
    hide ProblemRow, LastTime, Where;
    var more := submissions + [x];
    assert IsBest(more, b);
    assert Clean(more);
    SolvedRow(problem, submissions, isFirst, b);
    SolvedRow(problem, more, isFirst, b);
    SolvedRowMeaning(problem, submissions, isFirst, b);
    SolvedRowMeaning(problem, more, isFirst, b);
    WhereOneMore(submissions, x, IsChecked);
    WhereOneMore(Where(submissions, IsChecked), x, NotAfter(b.commitTime));
  }

  // ---------- Freezing ----------

  function BeforeFreeze(freezeTime: int): Submission -> bool {
    (s: Submission) => s.commitTime < freezeTime
  }

  function AfterFreeze(freezeTime: int): Submission -> bool {
    (s: Submission) => s.commitTime >= freezeTime
  }

  /** Without scores, a problem solved before the freeze keeps its whole row when the standing is unfrozen. */
  lemma FrozenSolvedRowIsFinal(problem: int, submissions: seq<Submission>, freezeTime: int, isFirst: bool)
    requires forall s :: s in submissions ==> s.score == None
    requires ProblemRow(problem, Where(submissions, BeforeFreeze(freezeTime)), isFirst).isSuccess
    ensures ProblemRow(problem, submissions, isFirst) == ProblemRow(problem, Where(submissions, BeforeFreeze(freezeTime)), isFirst)
  {
    var frozen, later := Where(submissions, BeforeFreeze(freezeTime)), Where(submissions, AfterFreeze(freezeTime));
    WhereMembers(submissions, BeforeFreeze(freezeTime));
    WhereMembers(submissions, AfterFreeze(freezeTime));
    WhereSplit(submissions, BeforeFreeze(freezeTime), AfterFreeze(freezeTime));
    SuccessesMeaning(frozen);
    forall x | x in later ensures ComesTooLate(frozen, x) {
    }
    LaterAttemptsChangeNothing(problem, frozen, later, isFirst);
    RowIgnoresOrder(problem, frozen + later, submissions, isFirst);
  }

  function RowScore(submissions: seq<Submission>): int {
    ProblemRow(0, submissions, false).score
  }

  lemma RowScoreMeaning(problem: int, submissions: seq<Submission>, isFirst: bool, b: Submission)
    ensures ProblemRow(problem, submissions, isFirst).score == RowScore(submissions)
    ensures (forall s :: s in submissions ==> !IsSuccess(s)) ==> RowScore(submissions) == 0
    ensures IsBest(submissions, b) ==> RowScore(submissions) == ScoreOf(b)
  {
    RowMeaning(0, submissions, false);
    RowMeaning(problem, submissions, isFirst);
    if IsBest(submissions, b) {
      SolvedRow(0, submissions, false, b);
    }
  }

  ghost predicate NonNegative(submissions: seq<Submission>) {
    forall s :: s in submissions && s.score.Some? ==> s.score.value >= 0
  }

  /**
   The family on which the frozen score exceeds the final one: every solution before the freeze has no score,
   and after it some accepted solution scores zero while none scores more.
   */
  ghost predicate FrozenExceeds(submissions: seq<Submission>, freezeTime: int) {
    && (exists s :: s in submissions && IsSuccess(s) && s.commitTime < freezeTime)
    && (forall s :: s in submissions && IsSuccess(s) && s.commitTime < freezeTime ==> s.score == None)
    && (exists s :: s in submissions && IsSuccess(s) && s.score == Some(0))
    && (forall s :: s in submissions && IsSuccess(s) ==> ScoreAtMost(s.score, Some(0)))
  }

  /** For non-negative scores a frozen row exceeds the unfrozen one exactly on that family. */
  lemma FrozenScoreExceedsExactly(submissions: seq<Submission>, freezeTime: int)
    requires NonNegative(submissions)
    ensures RowScore(Where(submissions, BeforeFreeze(freezeTime))) > RowScore(submissions) <==> FrozenExceeds(submissions, freezeTime)
  {
    hide RowScore;
    var frozen := Where(submissions, BeforeFreeze(freezeTime));
    WhereMembers(submissions, BeforeFreeze(freezeTime));
    if exists s :: s in submissions && IsSuccess(s) {
      var b := BestExists(submissions);
      RowScoreMeaning(0, submissions, false, b);
      if exists s :: s in frozen && IsSuccess(s) {
        var f := BestExists(frozen);
        RowScoreMeaning(0, frozen, false, f);
        BestScoresDecide(submissions, freezeTime, f, b);
      } else {
        RowScoreMeaning(0, frozen, false, b);
      }
    } else if submissions != [] {
      RowScoreMeaning(0, submissions, false, submissions[0]);
      RowScoreMeaning(0, frozen, false, submissions[0]);
    } else {
      assert frozen == submissions;
    }
  }

  lemma BestScoresDecide(submissions: seq<Submission>, freezeTime: int, f: Submission, b: Submission)
    requires NonNegative(submissions) && IsBest(submissions, b)
    requires IsBest(Where(submissions, BeforeFreeze(freezeTime)), f)
    ensures ScoreOf(f) > ScoreOf(b) <==> FrozenExceeds(submissions, freezeTime)
  {
    WhereMembers(submissions, BeforeFreeze(freezeTime));
    assert Before(f, b);
    if FrozenExceeds(submissions, freezeTime) {
      var s :| s in submissions && IsSuccess(s) && s.score == Some(0);
      assert Before(s, b);
    }
  }

  /** With uniformly missing or uniformly present scores, freezing never shows more points than there are. */
  lemma FrozenScoreWithinFinal(submissions: seq<Submission>, freezeTime: int)
    requires NonNegative(submissions)
    requires (forall s :: s in submissions ==> s.score.None?) || (forall s :: s in submissions ==> s.score.Some?)
    ensures RowScore(Where(submissions, BeforeFreeze(freezeTime))) <= RowScore(submissions)
  {
    FrozenScoreExceedsExactly(submissions, freezeTime);
  }

  /** Accepted without a score before the freeze and with zero points after it: one point shrinks to none. */
  lemma MixedScoresShrink(author: User) returns (submissions: seq<Submission>, freezeTime: int)
    ensures NonNegative(submissions)
    ensures RowScore(Where(submissions, BeforeFreeze(freezeTime))) > RowScore(submissions)
  {
    hide RowScore;
    submissions := [Submission(1, author, 1, 0, ACCEPTED, None, false), Submission(2, author, 1, 10, ACCEPTED, Some(0), false)];
    freezeTime := 5;
    assert submissions[0] in submissions && submissions[1] in submissions;
    FrozenScoreExceedsExactly(submissions, freezeTime);
  }
}
