/**
 The tests of an imported problem and the distribution of 100 points over its closed tests, once as the
 import computes it and once as the desktop manager hands the points out round by round.
 */
module ProblemImport {
  import opened Options
  import opened Arithmetic

  datatype ImportedTest = ImportedTest(number: int, input: string, output: string)

  datatype Manifest = Manifest(number: int, name: string, timeLimit: int, slowTimeLimit: Option<int>, memoryLimit: int,
                               checkerId: int, isActive: bool, openTestCount: int, scores: Option<map<int, int>>)

  datatype ImportedProblem = ImportedProblem(manifest: Manifest, tests: seq<ImportedTest>)

  datatype Test = Test(number: int, input: string, output: string, isOpen: bool, score: Option<int>)

  datatype ImportError = NoClosedTest | UnsupportedChecker | DuplicateNumbers | Busy

  /** What the archive reader guarantees about every problem it accepts. */
  ghost predicate Archived(item: ImportedProblem) {
    && item.manifest.number > 0 && item.manifest.name != ""
    && item.manifest.timeLimit > 0 && (item.manifest.slowTimeLimit.Some? ==> item.manifest.slowTimeLimit.value > 0)
    && item.manifest.memoryLimit > 0 && item.manifest.checkerId > 0
    && |item.tests| > 0
    && (forall i, j :: 0 <= i < j < |item.tests| ==> item.tests[i].number < item.tests[j].number)
    && (forall i :: 0 <= i < |item.tests| ==> 1 <= item.tests[i].number <= 999)
    && 0 <= item.manifest.openTestCount <= |item.tests|
    && (item.manifest.scores.Some? ==>
          forall k :: k in item.manifest.scores.value ==>
            && item.manifest.scores.value[k] >= 0
            && exists i :: 0 <= i < |item.tests| && item.tests[i].number == k)
  }

  /** The import refuses a school problem whose points it would have to spread over no test at all. */
  predicate Refused(item: ImportedProblem, isSchool: bool) {
    isSchool && item.manifest.scores.None? && item.manifest.openTestCount == |item.tests|
  }

  function ClosedCount(item: ImportedProblem): int {
    |item.tests| - item.manifest.openTestCount
  }

  /** The score that the import writes on test `i`. */
  function ImportedScore(item: ImportedProblem, isSchool: bool, i: nat): Option<int>
    requires i < |item.tests| && item.manifest.openTestCount <= |item.tests| && !Refused(item, isSchool)
  {
    var n, closed := |item.tests|, ClosedCount(item);
    if item.manifest.scores.Some? then
      var scores := item.manifest.scores.value;
      Some(if item.tests[i].number in scores then scores[item.tests[i].number] else 0)
    else if isSchool then
      Some(if i < item.manifest.openTestCount then 0 else 100 / closed + (if i >= n - 100 % closed then 1 else 0))
    else None
  }

  /** The imported test at position `i`. */
  function BuiltTest(item: ImportedProblem, isSchool: bool, i: nat): Test
    requires i < |item.tests| && item.manifest.openTestCount <= |item.tests| && !Refused(item, isSchool)
  {
    var test := item.tests[i];
    Test(test.number, test.input, test.output, i < item.manifest.openTestCount, ImportedScore(item, isSchool, i))
  }

  function BuiltTests(item: ImportedProblem, isSchool: bool): seq<Test>
    requires item.manifest.openTestCount <= |item.tests| && !Refused(item, isSchool)
  {
    seq(|item.tests|, i requires 0 <= i < |item.tests| => BuiltTest(item, isSchool, i))
  }

  /**
   What an import makes of a problem's tests: numbers and contents as in the archive, the first ones open; explicit
   scores as given, zero where none is given; in a school contest without them, nothing for open tests and 100 points
   in all, as even as possible and the larger shares at the end; otherwise no scores.
   */
  ghost predicate AreImported(item: ImportedProblem, isSchool: bool, tests: seq<Test>) {
    && |tests| == |item.tests|
    && (forall i :: 0 <= i < |tests| ==>
          && tests[i].number == item.tests[i].number
          && tests[i].input == item.tests[i].input && tests[i].output == item.tests[i].output
          && tests[i].isOpen == (i < item.manifest.openTestCount))
    && match item.manifest.scores
       case Some(scores) =>
         forall i :: 0 <= i < |tests| ==>
           tests[i].score == Some(if tests[i].number in scores then scores[tests[i].number] else 0)
       case None =>
         if !isSchool then forall i :: 0 <= i < |tests| ==> tests[i].score == None
         else
           && Total(tests) == 100
           && (forall i :: 0 <= i < |tests| ==> tests[i].score.Some? && tests[i].score.value >= 0)
           && (forall i :: 0 <= i < |tests| && tests[i].isOpen ==> tests[i].score == Some(0))
           && (forall i, j :: 0 <= i < j < |tests| && !tests[i].isOpen ==>
                 tests[i].score.value <= tests[j].score.value <= tests[i].score.value + 1)
  }

  lemma BuiltTestsAreImported(item: ImportedProblem, isSchool: bool)
    requires Archived(item) && !Refused(item, isSchool)
    ensures AreImported(item, isSchool, BuiltTests(item, isSchool))
  {
    if item.manifest.scores.None? && isSchool {
      SpreadScores(item);
      hide Total, ImportedScore, Archived, Refused;
    }
  }

  lemma SpreadScores(item: ImportedProblem)
    requires Archived(item) && !Refused(item, true) && item.manifest.scores.None?
    ensures var tests := BuiltTests(item, true);
      && Total(tests) == 100
      && (forall i :: 0 <= i < |tests| ==> tests[i].score.Some? && tests[i].score.value >= 0)
      && (forall i :: 0 <= i < |tests| && tests[i].isOpen ==> tests[i].score == Some(0))
      && (forall i, j :: 0 <= i < j < |tests| && !tests[i].isOpen ==>
            tests[i].score.value <= tests[j].score.value <= tests[i].score.value + 1)
  {
    var tests := BuiltTests(item, true);
    forall i | 0 <= i < |tests|
      ensures tests[i].score.Some? && tests[i].score.value >= 0 && (tests[i].isOpen ==> tests[i].score == Some(0))
    {
      SpreadScore(item, i);
    }
    hide Total, ImportedScore, Archived, Refused;
    ImportedScoresSumTo100(item);
    forall i, j | 0 <= i < j < |tests| && !tests[i].isOpen
      ensures tests[i].score.value <= tests[j].score.value <= tests[i].score.value + 1
    {
      ImportedScoresAreEven(item, i, j);
    }
  }

  lemma SpreadScore(item: ImportedProblem, i: nat)
    requires Archived(item) && !Refused(item, true) && item.manifest.scores.None? && i < |item.tests|
    ensures var score := ImportedScore(item, true, i);
      score.Some? && score.value >= 0 && (i < item.manifest.openTestCount ==> score == Some(0))
  {
  }

  /** The loop that refills a problem's tests. */
  method BuildTests(item: ImportedProblem, isSchool: bool) returns (r: Result<seq<Test>, ImportError>)
    requires Archived(item)
    ensures Refused(item, isSchool) ==> r == Failure(NoClosedTest)
    ensures !Refused(item, isSchool) ==> r == Success(BuiltTests(item, isSchool))
    ensures r.Failure? <==> isSchool && item.manifest.scores == None && item.manifest.openTestCount == |item.tests|
    ensures r.Success? ==> AreImported(item, isSchool, r.value)
  {
    var data := item.manifest;
    if isSchool && data.scores.None? && data.openTestCount == |item.tests| {
      return Failure(NoClosedTest);
    }
    var tests: seq<Test> := [];
    var closedCount := |item.tests| - data.openTestCount;
    for i := 0 to |item.tests|
      invariant |tests| == i
      invariant forall k :: 0 <= k < i ==> tests[k] == BuiltTest(item, isSchool, k)
    {
      var test := item.tests[i];
      var score: Option<int> := None;
      if data.scores.Some? {
        score := Some(if test.number in data.scores.value then data.scores.value[test.number] else 0);
      } else if isSchool {
        score := Some(if i < data.openTestCount then 0
                      else 100 / closedCount + (if i >= |item.tests| - 100 % closedCount then 1 else 0));
      }
      tests := tests + [Test(test.number, test.input, test.output, i < data.openTestCount, score)];
    }
    assert tests == BuiltTests(item, isSchool);
    BuiltTestsAreImported(item, isSchool);
    return Success(tests);
  }

  // ---------- The distribution sums to 100 ----------

  function Points(score: Option<int>): int {
    if score.Some? then score.value else 0
  }

  function Total(tests: seq<Test>): int {
    if tests == [] then 0 else Total(tests[..|tests| - 1]) + Points(tests[|tests| - 1].score)
  }

  function Positive(x: int): nat {
    if x > 0 then x else 0
  }

  lemma {:induction false} PrefixTotal(item: ImportedProblem, n: nat)
    requires Archived(item) && !Refused(item, true) && item.manifest.scores.None? && n <= |item.tests|
    ensures var closed := ClosedCount(item);
      Total(BuiltTests(item, true)[..n])
        == Positive(n - item.manifest.openTestCount) * (100 / closed) + Positive(n - (|item.tests| - 100 % closed))
  {
    var tests := BuiltTests(item, true);
    if n > 0 {
      PrefixTotal(item, n - 1);
      assert tests[..n][..n - 1] == tests[..n - 1];
      if n > item.manifest.openTestCount {
        var k, q := n - item.manifest.openTestCount, 100 / ClosedCount(item);
        assert k * q == (k - 1) * q + q;
      }
    }
  }

  /** Whatever the number of tests, the points of a school problem without explicit scores sum to exactly 100. */
  lemma ImportedScoresSumTo100(item: ImportedProblem)
    requires Archived(item) && !Refused(item, true) && item.manifest.scores.None?
    ensures Total(BuiltTests(item, true)) == 100
  {
    var tests, closed := BuiltTests(item, true), ClosedCount(item);
    PrefixTotal(item, |tests|);
    assert tests[..|tests|] == tests;
    assert closed * (100 / closed) + 100 % closed == 100;
  }

  /** Open tests score nothing; closed scores never decrease along the tests and differ by at most one. */
  lemma ImportedScoresAreEven(item: ImportedProblem, i: nat, j: nat)
    requires Archived(item) && !Refused(item, true) && item.manifest.scores.None?
    requires i < j < |item.tests|
    ensures i < item.manifest.openTestCount ==> ImportedScore(item, true, i) == Some(0)
    ensures item.manifest.openTestCount <= i ==>
      var a, b := ImportedScore(item, true, i).value, ImportedScore(item, true, j).value;
      0 <= a <= b <= a + 1 <= 101
  {
  }

  // ---------- Handing the points out round by round ----------

  /** The number of closed tests from position `i` on: the turn of a closed test just before `i` in a round. */
  function ClosedFrom(tests: seq<Test>, i: nat): nat
    requires i <= |tests|
    decreases |tests| - i
  {
    if i == |tests| then 0 else (if tests[i].isOpen then 0 else 1) + ClosedFrom(tests, i + 1)
  }

  /** The score after `times` increments that treat a missing score as zero. */
  function Raised(score: Option<int>, times: nat): Option<int> {
    if times == 0 then score else Some(Points(score) + times)
  }

  /** How many of `given` points, handed out in turn to `closed` tests, reach the one with this turn. */
  function Share(given: nat, closed: nat, turn: nat): nat
    requires closed > 0
  {
    given / closed + (if turn < given % closed then 1 else 0)
  }

  /** The test at position `i` once `given` points are handed out. */
  function TestAfter(before: seq<Test>, given: nat, i: nat): Test
    requires i < |before|
  {
    var closed := ClosedFrom(before, 0);
    if before[i].isOpen || closed == 0 then before[i]
    else before[i].(score := Raised(before[i].score, Share(given, closed, ClosedFrom(before, i + 1))))
  }

  ghost predicate HandedOut(before: seq<Test>, now: seq<Test>, given: nat) {
    && |now| == |before|
    && forall i :: 0 <= i < |before| ==> now[i] == TestAfter(before, given, i)
  }

  lemma {:induction false} ClosedFromShrinks(tests: seq<Test>, i: nat, j: nat)
    requires i <= j <= |tests|
    ensures ClosedFrom(tests, j) <= ClosedFrom(tests, i)
    ensures i < j && !tests[i].isOpen ==> ClosedFrom(tests, j) < ClosedFrom(tests, i)
    decreases j - i
  {
    if i < j {
      ClosedFromShrinks(tests, i + 1, j);
    }
  }

  lemma {:induction false} SameClosed(s: seq<Test>, t: seq<Test>, i: nat)
    requires |s| == |t| && i <= |s| && forall k :: 0 <= k < |s| ==> s[k].isOpen == t[k].isOpen
    ensures ClosedFrom(s, i) == ClosedFrom(t, i)
    decreases |s| - i
  {
    if i < |s| {
      SameClosed(s, t, i + 1);
    }
  }

  lemma AtLeastOnce(k: int, d: nat)
    requires k >= 1
    ensures k * d >= d
  {
  }

  lemma Division(n: nat, d: nat, q: nat, r: nat)
    requires 0 < d && r < d && n == q * d + r
    ensures n / d == q && n % d == r
  {
    var q' := n / d;
    assert n == q' * d + n % d;
    if q > q' {
      AtLeastOnce(q - q', d);
    } else if q < q' {
      AtLeastOnce(q' - q, d);
    }
  }

  /** After whole rounds everybody has as many points; a further part of a round favours the first turns. */
  lemma ShareOfRounds(rounds: nat, extra: nat, closed: nat, turn: nat)
    requires extra <= closed && turn < closed
    ensures Share(rounds * closed + extra, closed, turn) == rounds + (if turn < extra then 1 else 0)
  {
    var given := rounds * closed + extra;
    if extra < closed {
      Division(given, closed, rounds, extra);
    } else {
      assert given == (rounds + 1) * closed;
      Division(given, closed, rounds + 1, 0);
    }
  }

  /** The test at position `i` after one round with so many points to hand out. */
  function AfterRound(tests: seq<Test>, points: nat, i: nat): Test
    requires i < |tests|
  {
    if !tests[i].isOpen && ClosedFrom(tests, i + 1) < points then tests[i].(score := Some(Points(tests[i].score) + 1))
    else tests[i]
  }

  /** One round over the closed tests, from the last to the first; returns the points left, -1 after running out. */
  method HandOutRound(tests: array<Test>, points: nat) returns (sum: int)
    modifies tests
    ensures sum == if ClosedFrom(old(tests[..]), 0) <= points then points - ClosedFrom(old(tests[..]), 0) else -1
    ensures forall i :: 0 <= i < tests.Length ==> tests[i] == AfterRound(old(tests[..]), points, i)
  {
    ghost var before := tests[..];
    sum := points;
    var i := tests.Length;
    while i > 0
      invariant 0 <= i <= tests.Length == |before|
      invariant 0 <= sum == points - ClosedFrom(before, i)
      invariant forall k :: 0 <= k < i ==> tests[k] == before[k]
      invariant forall k :: i <= k < tests.Length ==> tests[k] == AfterRound(before, points, k)
    {
      i := i - 1;
      if !tests[i].isOpen {
        sum := sum - 1;
        if sum == -1 {
          ClosedFromShrinks(before, 0, i);
          forall k | 0 <= k <= i ensures tests[k] == AfterRound(before, points, k) {
            ClosedFromShrinks(before, k + 1, i + 1);
          }
          return;
        }
        var score := tests[i].score;
        tests[i] := tests[i].(score := Some(if score.None? then 1 else score.value + 1));
      }
    }
  }

  ghost predicate WholeRounds(rounds: nat, closed: nat, given: nat) {
    given == rounds * closed
  }

  /** Another round advances each test as one more round's points do. */
  lemma TestAdvances(before: seq<Test>, now: seq<Test>, rounds: nat, given: nat, points: nat, i: nat)
    requires i < |before| == |now| && ClosedFrom(now, i + 1) == ClosedFrom(before, i + 1)
    requires WholeRounds(rounds, ClosedFrom(before, 0), given) && now[i] == TestAfter(before, given, i)
    ensures AfterRound(now, points, i) == TestAfter(before, given + Min(points, ClosedFrom(before, 0)), i)
  {
    hide ClosedFrom, Share;
    var closed, turn := ClosedFrom(before, 0), ClosedFrom(before, i + 1);
    if !before[i].isOpen {
      NearerTheEnd(before, i);
      ShareOfRounds(rounds, 0, closed, turn);
      ShareOfRounds(rounds, Min(points, closed), closed, turn);
    }
  }

  lemma RoundAdvances(before: seq<Test>, now: seq<Test>, next: seq<Test>, rounds: nat, given: nat, points: nat)
    requires WholeRounds(rounds, ClosedFrom(before, 0), given) && HandedOut(before, now, given)
    requires |next| == |now| && forall i :: 0 <= i < |now| ==> next[i] == AfterRound(now, points, i)
    ensures HandedOut(before, next, given + Min(points, ClosedFrom(before, 0)))
    ensures ClosedFrom(now, 0) == ClosedFrom(before, 0)
  {
    SameTests(before, now, given);
    SameClosed(before, now, 0);
    hide ClosedFrom, TestAfter, AfterRound, WholeRounds;
    forall i | 0 <= i < |before| ensures next[i] == TestAfter(before, given + Min(points, ClosedFrom(before, 0)), i) {
      SameClosed(before, now, i + 1);
      TestAdvances(before, now, rounds, given, points, i);
    }
  }

  lemma SameTests(before: seq<Test>, now: seq<Test>, given: nat)
    requires HandedOut(before, now, given)
    ensures forall k :: 0 <= k < |before| ==> before[k].isOpen == now[k].isOpen
  {
  }

  lemma NearerTheEnd(tests: seq<Test>, i: nat)
    requires i < |tests| && !tests[i].isOpen
    ensures ClosedFrom(tests, i + 1) < ClosedFrom(tests, 0)
  {
    ClosedFromShrinks(tests, 0, i);
  }

  /**
   The loop of rounds, observed for at most so many rounds. It hands the points out by turns until all 100 are
   gone; without a closed test it hands out nothing and never ends.
   */
  method ScoreTests(tests: array<Test>, rounds: nat) returns (sum: int)
    modifies tests
    ensures HandedOut(old(tests[..]), tests[..], Min(100, rounds * ClosedFrom(old(tests[..]), 0)))
    ensures sum <= 0 <==> rounds * ClosedFrom(old(tests[..]), 0) >= 100
    ensures ClosedFrom(old(tests[..]), 0) == 0 ==> sum == 100 && tests[..] == old(tests[..])
    ensures ClosedFrom(old(tests[..]), 0) > 0 && rounds >= 100 ==> sum <= 0 && HandedOut(old(tests[..]), tests[..], 100)
  {
    hide ClosedFrom, AfterRound, HandedOut;
    ghost var before := tests[..];
    ghost var closed := ClosedFrom(before, 0);
    sum := 100;
    var n := 0;
    NothingHandedOut(before);
    while sum > 0 && n < rounds
      invariant n <= rounds
      invariant sum > 0 ==> sum == 100 - n * closed && HandedOut(before, tests[..], n * closed)
      invariant sum <= 0 ==> n * closed >= 100 && HandedOut(before, tests[..], 100)
    {
      ghost var now := tests[..];
      ghost var points := sum;
      sum := HandOutRound(tests, sum);
      RoundAdvances(before, now, tests[..], n, n * closed, points);
      assert n * closed + closed == (n + 1) * closed;
      n := n + 1;
    }
    MoreRounds(n, rounds, closed);
    if closed == 0 {
      NobodyGetsAny(before, tests[..]);
    } else {
      MoreRounds(1, closed, rounds);
    }
  }

  /** The points that tests have from position `i` on. */
  function PointsFrom(tests: seq<Test>, i: nat): int
    requires i <= |tests|
    decreases |tests| - i
  {
    if i == |tests| then 0 else Points(tests[i].score) + PointsFrom(tests, i + 1)
  }

  /**
   Whatever points the tests had before: exactly `given` points come in; open tests, numbers and contents stay; and
   the shares of the closed tests never decrease along the tests and differ by at most one.
   */
  lemma HandedOutMeaning(before: seq<Test>, now: seq<Test>, given: nat)
    requires HandedOut(before, now, given) && exists i :: 0 <= i < |before| && !before[i].isOpen
    ensures |now| == |before| && PointsFrom(now, 0) == PointsFrom(before, 0) + given
    ensures forall i :: 0 <= i < |now| ==> now[i].(score := before[i].score) == before[i]
    ensures forall i :: 0 <= i < |now| && before[i].isOpen ==> now[i] == before[i]
    ensures forall i :: 0 <= i < |now| && Points(now[i].score) == Points(before[i].score) ==> now[i] == before[i]
    ensures forall i, j :: 0 <= i < j < |now| && !before[i].isOpen && !before[j].isOpen ==>
              var a, b := Points(now[i].score) - Points(before[i].score), Points(now[j].score) - Points(before[j].score);
              0 <= a <= b <= a + 1
  {
    hide Share, TestAfter, ClosedFrom, PointsFrom;
    var i :| 0 <= i < |before| && !before[i].isOpen;
    NearerTheEnd(before, i);
    PointsComeIn(before, now, given);
    forall j | 0 <= j < |now|
      ensures now[j].(score := before[j].score) == before[j]
      ensures before[j].isOpen || Points(now[j].score) == Points(before[j].score) ==> now[j] == before[j]
    {
      OneTestAfter(before, given, j);
    }
    forall j, k | 0 <= j < k < |now| && !before[j].isOpen && !before[k].isOpen
      ensures var a, b := Points(now[j].score) - Points(before[j].score), Points(now[k].score) - Points(before[k].score);
        0 <= a <= b <= a + 1
    {
      LaterRaise(before, given, j, k);
    }
  }

  lemma PointsComeIn(before: seq<Test>, now: seq<Test>, given: nat)
    requires HandedOut(before, now, given) && ClosedFrom(before, 0) > 0
    ensures PointsFrom(now, 0) == PointsFrom(before, 0) + given
  {
    hide HandedOut, PointsFrom, ClosedFrom;
    SuffixPoints(before, now, given, 0);
    SplitPoints(given, ClosedFrom(before, 0));
  }

  /** A closed test nearer the end gains as much as an earlier one, or one point more. */
  lemma LaterRaise(before: seq<Test>, given: nat, j: nat, k: nat)
    requires j < k < |before| && !before[j].isOpen && !before[k].isOpen && ClosedFrom(before, 0) > 0
    ensures var a := Points(TestAfter(before, given, j).score) - Points(before[j].score);
      var b := Points(TestAfter(before, given, k).score) - Points(before[k].score);
      0 <= a <= b <= a + 1
  {
    hide Share, TestAfter, ClosedFrom;
    OneTestAfter(before, given, j);
    OneTestAfter(before, given, k);
    ClosedFromShrinks(before, j + 1, k + 1);
    LaterShare(given, ClosedFrom(before, 0), ClosedFrom(before, j + 1), ClosedFrom(before, k + 1));
  }

  lemma OneTestAfter(before: seq<Test>, given: nat, i: nat)
    requires i < |before| && ClosedFrom(before, 0) > 0
    ensures var test := TestAfter(before, given, i);
      && test.(score := before[i].score) == before[i]
      && Points(test.score) - Points(before[i].score)
           == (if before[i].isOpen then 0 else Share(given, ClosedFrom(before, 0), ClosedFrom(before, i + 1)))
      && (Points(test.score) == Points(before[i].score) ==> test == before[i])
  {
    hide Share, ClosedFrom;
  }

  lemma LaterShare(given: nat, closed: nat, earlier: nat, later: nat)
    requires closed > 0 && later <= earlier
    ensures 0 <= Share(given, closed, earlier) <= Share(given, closed, later) <= Share(given, closed, earlier) + 1
  {
  }

  lemma SplitPoints(given: nat, closed: nat)
    requires closed > 0
    ensures closed * (given / closed) + given % closed == given
  {
  }

  lemma {:induction false} SuffixPoints(before: seq<Test>, now: seq<Test>, given: nat, i: nat)
    requires HandedOut(before, now, given) && ClosedFrom(before, 0) > 0 && i <= |before|
    ensures var closed, count := ClosedFrom(before, 0), ClosedFrom(before, i);
      PointsFrom(now, i) == PointsFrom(before, i) + count * (given / closed) + Min(count, given % closed)
    decreases |before| - i
  {
    if i < |before| {
      SuffixPoints(before, now, given, i + 1);
      OneTestAfter(before, given, i);
      hide TestAfter;
      if !before[i].isOpen {
        OneMoreShare(ClosedFrom(before, i + 1), given / ClosedFrom(before, 0));
      }
    }
  }

  lemma OneMoreShare(count: nat, share: nat)
    ensures (count + 1) * share == count * share + share
  {
  }

  lemma MoreRounds(n: nat, rounds: nat, closed: nat)
    requires n <= rounds
    ensures n * closed <= rounds * closed
  {
  }

  lemma NothingHandedOut(before: seq<Test>)
    ensures HandedOut(before, before, 0)
  {
    forall i | 0 <= i < |before| ensures before[i] == TestAfter(before, 0, i) {
      if ClosedFrom(before, 0) > 0 {
        Division(0, ClosedFrom(before, 0), 0, 0);
      }
    }
  }

  lemma NobodyGetsAny(before: seq<Test>, now: seq<Test>)
    requires ClosedFrom(before, 0) == 0 && HandedOut(before, now, 0)
    ensures now == before
  {
  }

  /** The same tests before any score is written. */
  function Unscored(item: ImportedProblem): (tests: seq<Test>)
    requires item.manifest.openTestCount <= |item.tests|
    ensures |tests| == |item.tests|
  {
    seq(|item.tests|, i requires 0 <= i < |item.tests| =>
      Test(item.tests[i].number, item.tests[i].input, item.tests[i].output, i < item.manifest.openTestCount, None))
  }

  lemma {:induction false} ClosedFromUnscored(item: ImportedProblem, i: nat)
    requires Archived(item) && i <= |item.tests|
    ensures ClosedFrom(Unscored(item), i)
         == if i < item.manifest.openTestCount then ClosedCount(item) else |item.tests| - i
    decreases |item.tests| - i
  {
    if i < |item.tests| {
      ClosedFromUnscored(item, i + 1);
    }
  }

  /**
   On unscored imported tests the round-robin loop gives every closed test as many points as the import does.
   The written scores themselves are equal exactly when there are at most 100 closed tests: beyond that the
   loop leaves the first ones without a score where the import writes zero.
   */
  lemma RoundRobinMatchesImport(item: ImportedProblem, scored: seq<Test>)
    requires Archived(item) && !Refused(item, true) && item.manifest.scores.None?
    requires ClosedFrom(Unscored(item), 0) > 0 && HandedOut(Unscored(item), scored, 100)
    ensures forall i :: item.manifest.openTestCount <= i < |item.tests| ==>
              Points(scored[i].score) == Points(ImportedScore(item, true, i))
    ensures (forall i :: item.manifest.openTestCount <= i < |item.tests| ==>
              scored[i].score == ImportedScore(item, true, i))
       <==> ClosedCount(item) <= 100
  {
    hide ClosedFrom, TestAfter;
    var open := item.manifest.openTestCount;
    forall i | open <= i < |item.tests|
      ensures Points(scored[i].score) == Points(ImportedScore(item, true, i))
      ensures scored[i].score == ImportedScore(item, true, i) <==> ImportedScore(item, true, i) != Some(0)
    {
      SameShare(item, i);
    }
    SmallestShare(item);
  }

  /** The first closed test gets nothing exactly when there are more than 100 of them. */
  lemma SmallestShare(item: ImportedProblem)
    requires Archived(item) && !Refused(item, true) && item.manifest.scores.None?
    ensures item.manifest.openTestCount < |item.tests|
    ensures ImportedScore(item, true, item.manifest.openTestCount) == Some(0) <==> ClosedCount(item) > 100
    ensures forall i :: item.manifest.openTestCount <= i < |item.tests| && ClosedCount(item) <= 100 ==>
              ImportedScore(item, true, i) != Some(0)
  {
    var closed := ClosedCount(item);
    if closed > 100 {
      Division(100, closed, 0, 100);
    } else {
      AtLeastOneEach(closed);
    }
  }

  lemma SameShare(item: ImportedProblem, i: nat)
    requires Archived(item) && !Refused(item, true) && item.manifest.scores.None?
    requires item.manifest.openTestCount <= i < |item.tests| && ClosedFrom(Unscored(item), 0) > 0
    ensures TestAfter(Unscored(item), 100, i).score == Raised(None, ImportedScore(item, true, i).value)
  {
    ClosedFromUnscored(item, 0);
    ClosedFromUnscored(item, i + 1);
  }

  lemma AtLeastOneEach(closed: nat)
    requires 0 < closed <= 100
    ensures 100 / closed >= 1
  {
  }
  /** A problem with 101 closed tests: the import writes zero on the first one, the rounds leave it without a score. */
  lemma FirstOf101Tests() returns (item: ImportedProblem)
    ensures Archived(item) && !Refused(item, true) && item.manifest.scores.None? && ClosedCount(item) == 101
    ensures ImportedScore(item, true, 0) == Some(0)
    ensures forall scored: seq<Test> :: HandedOut(Unscored(item), scored, 100) ==> scored[0].score == None
  {
    var tests := seq(101, i requires 0 <= i < 101 => ImportedTest(i + 1, "", ""));
    item := ImportedProblem(Manifest(1, "A", 1, None, 256, 4, true, 0, None), tests);
    ClosedFromUnscored(item, 0);
    SameShare(item, 0);
  }
}
