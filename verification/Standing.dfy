/** The standing of a contest: who is listed, which submissions count, who solved a problem first, and the ranking. */
module Standing {
  import opened Options
  import opened Arithmetic
  import opened StatusCodes
  import opened Linq
  import opened ProblemStanding

  const PENALTY := 20
  const TICKS_PER_MINUTE := 600000000

  datatype Problem = Problem(id: int, number: int, submissions: seq<Submission>)

  datatype Contest = Contest(isSchool: bool, startTime: int, duration: int, freezeTime: Option<int>, isFreeze: bool,
                             competitors: seq<User>, problems: seq<Problem>)

  datatype UserResult = UserResult(user: User, score: int, summaryTime: int, startTime: int, problemResults: seq<Row>)

  /** What the page asks for; a start time is given for a virtual participation. */
  datatype Request = Request(includeAll: bool, official: bool, notFreeze: bool, startTime: Option<int>)

  /** The alphabetical position of a name. */
  type Collation = string -> int

  // ---------- Submissions that count ----------

  predicate ByNumber(p: Problem, q: Problem) {
    p.number <= q.number
  }

  predicate ByCommitTime(s: Submission, t: Submission) {
    s.commitTime <= t.commitTime
  }

  function StartTime(contest: Contest, request: Request): int {
    if request.startTime.Some? then request.startTime.value else contest.startTime
  }

  predicate Frozen(contest: Contest, request: Request) {
    contest.isFreeze && !request.notFreeze && contest.freezeTime.Some?
  }

  predicate IsCounted(contest: Contest, request: Request, s: Submission) {
    var start := StartTime(contest, request);
    && !s.isHidden
    && start <= s.commitTime <= start + contest.duration
    && s.statusCode != QUEUED && s.statusCode != CHECKING
  }

  function CountedIn(contest: Contest, request: Request): Submission -> bool {
    (s: Submission) => IsCounted(contest, request, s)
  }

  function Problems(contest: Contest): seq<Problem> {
    OrderBy(contest.problems, ByNumber)
  }

  function AllSubmissions(problems: seq<Problem>): seq<Submission> {
    if problems == [] then [] else AllSubmissions(problems[..|problems| - 1]) + problems[|problems| - 1].submissions
  }

  function Unfrozen(contest: Contest, request: Request): seq<Submission> {
    Where(OrderBy(AllSubmissions(Problems(contest)), ByCommitTime), CountedIn(contest, request))
  }

  function Counted(contest: Contest, request: Request): seq<Submission> {
    if Frozen(contest, request) then Where(Unfrozen(contest, request), BeforeFreeze(contest.freezeTime.value))
    else Unfrozen(contest, request)
  }

  // ---------- Users ----------

  function Listed(request: Request): User -> bool {
    (u: User) => u.isApproved && !u.isHidden && (!request.official || (!u.isOutOfCompetition && !u.isDisqualified))
  }

  function Visible(): User -> bool {
    (u: User) => !u.isHidden
  }

  function Authors(submissions: seq<Submission>): seq<User> {
    seq(|submissions|, i requires 0 <= i < |submissions| => submissions[i].user)
  }

  function Users(contest: Contest, request: Request): seq<User> {
    var users := if request.startTime.None? then Where(contest.competitors, Listed(request)) else [];
    if request.includeAll then Distinct(users + Where(Authors(Counted(contest, request)), Visible())) else users
  }

  function OfUser(id: int): Submission -> bool {
    (s: Submission) => s.user.id == id
  }

  function OfProblem(id: int): Submission -> bool {
    (s: Submission) => s.problem == id
  }

  // ---------- First success ----------

  predicate IsAccepted(s: Submission) {
    s.statusCode == ACCEPTED
  }

  /** For each user in turn, that user's submissions. */
  function Join(users: seq<User>, submissions: seq<Submission>): seq<Submission> {
    if users == [] then []
    else Join(users[..|users| - 1], submissions) + Where(submissions, OfUser(users[|users| - 1].id))
  }

  /** The accepted submissions of a problem in the order of their times; the first decides. */
  function AcceptedOf(users: seq<User>, submissions: seq<Submission>, problem: int): seq<Submission> {
    Where(OrderBy(Where(Join(users, submissions), IsAccepted), ByCommitTime), OfProblem(problem))
  }

  predicate IsFirst(users: seq<User>, submissions: seq<Submission>, user: int, problem: int) {
    var accepted := AcceptedOf(users, submissions, problem);
    accepted != [] && accepted[0].user.id == user
  }

  // ---------- Results ----------

  function RowTime(row: Row, startTime: int, penalty: int): int {
    if row.isSuccess then row.lastCommitTime - startTime + penalty * TICKS_PER_MINUTE * (row.commitNumber - 1) else 0
  }

  function UserRow(users: seq<User>, submissions: seq<Submission>, user: int, problem: int): Row {
    ProblemRow(problem, Where(Where(submissions, OfUser(user)), OfProblem(problem)), IsFirst(users, submissions, user, problem))
  }

  function UserRows(users: seq<User>, submissions: seq<Submission>, user: int, problems: seq<Problem>): seq<Row> {
    seq(|problems|, i requires 0 <= i < |problems| => UserRow(users, submissions, user, problems[i].id))
  }

  function TotalScore(rows: seq<Row>): int {
    if rows == [] then 0 else TotalScore(rows[..|rows| - 1]) + rows[|rows| - 1].score
  }

  function TotalTime(rows: seq<Row>, startTime: int, penalty: int): int {
    if rows == [] then 0
    else TotalTime(rows[..|rows| - 1], startTime, penalty) + RowTime(rows[|rows| - 1], startTime, penalty)
  }

  function ResultOf(contest: Contest, request: Request, user: User): UserResult {
    var users, submissions, start := Users(contest, request), Counted(contest, request), StartTime(contest, request);
    var rows := UserRows(users, submissions, user.id, Problems(contest));
    UserResult(user, TotalScore(rows), TotalTime(rows, start, if contest.isSchool then 0 else PENALTY), start, rows)
  }

  /** Score descending, then time, then name. */
  predicate RanksBefore(collate: Collation, x: UserResult, y: UserResult) {
    x.score > y.score
    || (x.score == y.score
        && (x.summaryTime < y.summaryTime
            || (x.summaryTime == y.summaryTime && collate(x.user.name) <= collate(y.user.name))))
  }

  function Ranking(collate: Collation): (UserResult, UserResult) -> bool {
    (x: UserResult, y: UserResult) => RanksBefore(collate, x, y)
  }

  function Results(contest: Contest, request: Request): seq<UserResult> {
    var users := Users(contest, request);
    seq(|users|, i requires 0 <= i < |users| => ResultOf(contest, request, users[i]))
  }

  function NewStanding(contest: Contest, request: Request, collate: Collation): seq<UserResult> {
    OrderBy(Results(contest, request), Ranking(collate))
  }

  // ---------- What counts and who is listed ----------

  lemma {:induction false} AllSubmissionsMembers(problems: seq<Problem>, s: Submission)
    ensures s in AllSubmissions(problems) <==> exists i :: 0 <= i < |problems| && s in problems[i].submissions
  {
    if problems != [] {
      var front := problems[..|problems| - 1];
      AllSubmissionsMembers(front, s);
      if i :| 0 <= i < |front| && s in front[i].submissions {
        assert problems[i] == front[i];
      }
    }
  }

  /**
   A submission counts exactly when it belongs to a problem of the contest, is visible, was made within the
   contest's duration from the start, has a verdict, and lies before the freeze while the standing is frozen.
   */
  lemma CountedMeaning(contest: Contest, request: Request, s: Submission)
    ensures s in Counted(contest, request)
       <==> && (exists p :: p in contest.problems && s in p.submissions)
            && !s.isHidden && s.statusCode !in {QUEUED, CHECKING}
            && 0 <= s.commitTime - (if request.startTime.Some? then request.startTime.value else contest.startTime) <= contest.duration
            && (contest.isFreeze && !request.notFreeze && contest.freezeTime.Some? ==> s.commitTime < contest.freezeTime.value)
  {
    hide AllSubmissions, OrderBy, Where;
    var sorted := OrderBy(AllSubmissions(Problems(contest)), ByCommitTime);
    SubmissionsOfContest(contest, s);
    WhereMembers(sorted, CountedIn(contest, request));
    if Frozen(contest, request) {
      WhereMembers(Unfrozen(contest, request), BeforeFreeze(contest.freezeTime.value));
    }
  }

  lemma SubmissionsOfContest(contest: Contest, s: Submission)
    ensures s in OrderBy(AllSubmissions(Problems(contest)), ByCommitTime) <==> exists p :: p in contest.problems && s in p.submissions
  {
    hide AllSubmissions;
    var problems := Problems(contest);
    var all := AllSubmissions(problems);
    SameElements(problems, contest.problems);
    AllSubmissionsMembers(problems, s);
    SameElements(OrderBy(all, ByCommitTime), all);
    assert (exists i :: 0 <= i < |problems| && s in problems[i].submissions) <==> exists p :: p in problems && s in p.submissions;
  }

  /** How often a submission is stored with the problems. */
  function Occurrences(problems: seq<Problem>, s: Submission): nat {
    if problems == [] then 0
    else Occurrences(problems[..|problems| - 1], s) + multiset(problems[|problems| - 1].submissions)[s]
  }

  lemma OccurrencesOneMore(problems: seq<Problem>, p: Problem, s: Submission)
    ensures Occurrences(problems + [p], s) == Occurrences(problems, s) + multiset(p.submissions)[s]
  {
    assert (problems + [p])[..|problems|] == problems;
  }

  lemma {:induction false} InsertedOccurs(problems: seq<Problem>, p: Problem, s: Submission)
    ensures Occurrences(Insert(problems, p, ByNumber), s) == Occurrences(problems, s) + multiset(p.submissions)[s]
  {
    hide Occurrences, ByNumber;
    OccurrencesOneMore(problems, p, s);
    if problems != [] && !ByNumber(problems[|problems| - 1], p) {
      var front, last := problems[..|problems| - 1], problems[|problems| - 1];
      InsertedOccurs(front, p, s);
      OccurrencesOneMore(Insert(front, p, ByNumber), last, s);
      assert problems == front + [last];
      OccurrencesOneMore(front, last, s);
    }
  }

  lemma {:induction false} SortedOccur(problems: seq<Problem>, s: Submission)
    ensures Occurrences(OrderBy(problems, ByNumber), s) == Occurrences(problems, s)
  {
    hide Insert, Occurrences;
    if problems != [] {
      var front, last := problems[..|problems| - 1], problems[|problems| - 1];
      assert problems == front + [last];
      OccurrencesOneMore(front, last, s);
      SortedOccur(front, s);
      InsertedOccurs(OrderBy(front, ByNumber), last, s);
    }
  }

  lemma {:induction false} AllOccur(problems: seq<Problem>, s: Submission)
    ensures multiset(AllSubmissions(problems))[s] == Occurrences(problems, s)
  {
    if problems != [] {
      AllOccur(problems[..|problems| - 1], s);
    }
  }

  /** A submission that counts, counts as often as it is stored. */
  lemma CountedAsStored(contest: Contest, request: Request, s: Submission)
    ensures multiset(Counted(contest, request))[s] == if s in Counted(contest, request) then Occurrences(contest.problems, s) else 0
  {
    hide AllSubmissions, OrderBy, Where, Occurrences;
    var all := AllSubmissions(Problems(contest));
    var sorted := OrderBy(all, ByCommitTime);
    AllOccur(Problems(contest), s);
    SortedOccur(contest.problems, s);
    WhereMultiset(sorted, CountedIn(contest, request), s);
    WhereMembers(sorted, CountedIn(contest, request));
    if Frozen(contest, request) {
      WhereMultiset(Unfrozen(contest, request), BeforeFreeze(contest.freezeTime.value), s);
      WhereMembers(Unfrozen(contest, request), BeforeFreeze(contest.freezeTime.value));
    }
  }

  /**
   Listed are the approved visible competitors, in an official standing only those that compete, and on request
   every visible author of a counted submission; virtual participations list authors only.
   */
  lemma ListedUsers(contest: Contest, request: Request, u: User)
    ensures u in Users(contest, request)
       <==> || (request.startTime.None? && u in contest.competitors && u.isApproved && !u.isHidden
                && (!request.official || (!u.isOutOfCompetition && !u.isDisqualified)))
            || (request.includeAll && !u.isHidden && exists s :: s in Counted(contest, request) && s.user == u)
    ensures request.includeAll ==> forall i, j :: 0 <= i < j < |Users(contest, request)| ==>
              Users(contest, request)[i] != Users(contest, request)[j]
  {
    hide Counted;
    var counted := Counted(contest, request);
    var authors := Authors(counted);
    WhereMembers(contest.competitors, Listed(request));
    WhereMembers(authors, Visible());
    if s :| s in counted && s.user == u {
      var i :| 0 <= i < |counted| && counted[i] == s;
      assert authors[i] == u;
    }
    if u in authors {
      var i :| 0 <= i < |authors| && authors[i] == u;
      assert counted[i].user == u;
    }
  }

  /** Nothing else was judged up to the time of this attempt. */
  ghost predicate FirstTry(own: seq<Submission>, b: Submission) {
    && multiset(own)[b] == 1
    && forall s :: s in own && s.statusCode !in {0, 1, -1} && s.commitTime <= b.commitTime ==> s == b
  }

  /**
   A solved problem costs the time to its best attempt and a penalty, in minutes, for every other judged attempt up
   to it; solved at the first try it costs the time alone.
   */
  lemma SolvedProblemTime(problem: int, own: seq<Submission>, first: bool, b: Submission, startTime: int, penalty: nat)
    requires IsBest(own, b) && Clean(own)
    ensures var time := RowTime(ProblemRow(problem, own, first), startTime, penalty);
      var places := set i | i in JudgedPlaces(own) && own[i].commitTime <= b.commitTime;
      && |places| >= 1
      && time == b.commitTime - startTime + penalty * (60 * 10_000_000) * (|places| - 1)
      && (FirstTry(own, b) ==> time == b.commitTime - startTime)
  {
    hide ProblemRow, JudgedUpTo, IsBest, Clean, JudgedPlaces, IsLatestOf;
    SolvedRowMeaning(problem, own, first, b);
    SolvedRow(problem, own, first, b);
    RowMeaning(problem, own, first);
    BestIsJudged(own, b);
    if FirstTry(own, b) {
      JudgedOnce(own, b);
    }
  }

  lemma BestIsJudged(own: seq<Submission>, b: Submission)
    requires IsBest(own, b) && Clean(own)
    ensures IsChecked(b)
  {
  }

  /** With nothing else judged up to it, a best attempt is counted alone. */
  lemma JudgedOnce(own: seq<Submission>, b: Submission)
    requires FirstTry(own, b) && IsChecked(b)
    ensures |JudgedUpTo(own, b.commitTime)| == 1
  {
    var judged, kept := Where(own, IsChecked), JudgedUpTo(own, b.commitTime);
    WhereMembers(own, IsChecked);
    WhereMembers(judged, NotAfter(b.commitTime));
    WhereMultiset(own, IsChecked, b);
    WhereMultiset(judged, NotAfter(b.commitTime), b);
    forall i | 0 <= i < |kept| ensures kept[i] == b {
      assert kept[i] in kept;
    }
    OnlyOne(kept, b);
  }

  lemma {:induction false} OnlyOne(s: seq<Submission>, b: Submission)
    requires forall i :: 0 <= i < |s| ==> s[i] == b
    ensures |s| == multiset(s)[b]
  {
    if s != [] {
      var front := s[..|s| - 1];
      assert s == front + [b];
      OnlyOne(front, b);
    }
  }

  // ---------- The ranking ----------

  function UsersOf(results: seq<UserResult>): seq<User> {
    seq(|results|, i requires 0 <= i < |results| => results[i].user)
  }

  /** A permutation of results lists a permutation of users. */
  lemma {:induction false} UsersOfPermutation(r: seq<UserResult>, s: seq<UserResult>)
    requires multiset(r) == multiset(s)
    ensures multiset(UsersOf(r)) == multiset(UsersOf(s))
    decreases |r|
  {
    SameElements(r, s);
    if r == [] {
      assert UsersOf(r) == UsersOf(s);
    } else {
      var k := |r| - 1;
      assert r[k] in r;
      var i :| 0 <= i < |s| && s[i] == r[k];
      WithoutOne(r, k);
      WithoutOne(s, i);
      assert r[..k] + r[k + 1..] == r[..k];
      UsersOfPermutation(r[..k], s[..i] + s[i + 1..]);
    }
  }

  lemma WithoutOne(s: seq<UserResult>, i: nat)
    requires i < |s|
    ensures multiset(s[..i] + s[i + 1..]) == multiset(s) - multiset{s[i]}
    ensures multiset(UsersOf(s)) == multiset(UsersOf(s[..i] + s[i + 1..])) + multiset{s[i].user}
  {
    assert s == s[..i] + [s[i]] + s[i + 1..];
    assert UsersOf(s) == UsersOf(s[..i]) + [s[i].user] + UsersOf(s[i + 1..]);
    assert UsersOf(s[..i] + s[i + 1..]) == UsersOf(s[..i]) + UsersOf(s[i + 1..]);
  }

  /** The standing lists every user as often as it should, by score descending, then time, then name. */
  lemma StandingIsRanked(contest: Contest, request: Request, collate: Collation)
    ensures var results := NewStanding(contest, request, collate);
      && multiset(UsersOf(results)) == multiset(Users(contest, request))
      && (forall i :: 0 <= i < |results| ==> results[i] == ResultOf(contest, request, results[i].user))
      && (forall i, j :: 0 <= i < j < |results| ==>
            || results[i].score > results[j].score
            || (results[i].score == results[j].score && results[i].summaryTime < results[j].summaryTime)
            || (results[i].score == results[j].score && results[i].summaryTime == results[j].summaryTime
                && collate(results[i].user.name) <= collate(results[j].user.name)))
  {
    hide ResultOf, Users;
    var plain, results := Results(contest, request), NewStanding(contest, request, collate);
    UsersOfPermutation(results, plain);
    UsersOfResults(contest, request);
    SameElements(results, plain);
    forall i | 0 <= i < |results| ensures results[i] == ResultOf(contest, request, results[i].user) {
      assert results[i] in plain;
    }
    RankedInOrder(plain, collate);
    assert results == OrderBy(plain, Ranking(collate));
  }

  // ---------- What a result adds up ----------

  function Scores(rows: seq<Row>): (scores: seq<int>)
    ensures |scores| == |rows| && forall k :: 0 <= k < |rows| ==> scores[k] == rows[k].score
  {
    seq(|rows|, k requires 0 <= k < |rows| => rows[k].score)
  }

  /** What each row costs: in a contest that is not a school contest, 20 minutes for every attempt but the last one. */
  function Costs(rows: seq<Row>, start: int, isSchool: bool): (costs: seq<int>)
    ensures |costs| == |rows|
    ensures forall k :: 0 <= k < |rows| ==>
              costs[k] == if !rows[k].isSuccess then 0
                          else if isSchool then rows[k].lastCommitTime - start
                          else rows[k].lastCommitTime - start + 20 * 60 * 10_000_000 * (rows[k].commitNumber - 1)
  {
    seq(|rows|, k requires 0 <= k < |rows| =>
      if !rows[k].isSuccess then 0
      else if isSchool then rows[k].lastCommitTime - start
      else rows[k].lastCommitTime - start + 20 * 60 * 10_000_000 * (rows[k].commitNumber - 1))
  }

  lemma {:induction false} ScoresAddUp(rows: seq<Row>)
    ensures TotalScore(rows) == Sum(Scores(rows))
  {
    if rows != [] {
      var front := rows[..|rows| - 1];
      ScoresAddUp(front);
      assert Scores(rows) == Scores(front) + [rows[|rows| - 1].score];
      SumOneMore(Scores(front), rows[|rows| - 1].score);
    }
  }

  lemma {:induction false} CostsAddUp(rows: seq<Row>, start: int, isSchool: bool)
    ensures TotalTime(rows, start, if isSchool then 0 else PENALTY) == Sum(Costs(rows, start, isSchool))
  {
    if rows != [] {
      var front, costs := rows[..|rows| - 1], Costs(rows, start, isSchool);
      CostsAddUp(front, start, isSchool);
      assert costs == Costs(front, start, isSchool) + [costs[|rows| - 1]];
      SumOneMore(Costs(front, start, isSchool), costs[|rows| - 1]);
    }
  }

  /** The rows are those of the contest's problems, each once, in the order of their numbers. */
  ghost predicate RowsInOrder(problems: seq<Problem>, rows: seq<Row>) {
    exists sorted: seq<Problem> ::
      && multiset(sorted) == multiset(problems) && |sorted| == |rows|
      && (forall k, l :: 0 <= k < l < |sorted| ==> sorted[k].number <= sorted[l].number)
      && forall k :: 0 <= k < |rows| ==> rows[k].problem == sorted[k].id
  }

  /**
   In every standing a result has the requested start, or that of the contest; one row for each problem, by number;
   the sum of the row scores; and the sum of the times to the solved rows, in a contest that is not a school contest
   with 20 minutes for every attempt before the last one.
   */
  lemma StandingAddsUp(contest: Contest, request: Request, collate: Collation, i: nat)
    requires i < |NewStanding(contest, request, collate)|
    ensures var result := NewStanding(contest, request, collate)[i];
      && result.startTime == (if request.startTime.Some? then request.startTime.value else contest.startTime)
      && RowsInOrder(contest.problems, result.problemResults)
      && result.score == Sum(Scores(result.problemResults))
      && result.summaryTime == Sum(Costs(result.problemResults, result.startTime, contest.isSchool))
  {
    hide NewStanding, TotalScore, TotalTime, UserRow, Users, Counted;
    StandingIsRanked(contest, request, collate);
    var result := NewStanding(contest, request, collate)[i];
    ScoresAddUp(result.problemResults);
    CostsAddUp(result.problemResults, result.startTime, contest.isSchool);
    RowsAreInOrder(contest, request, result.user);
  }

  lemma RowsAreInOrder(contest: Contest, request: Request, user: User)
    ensures RowsInOrder(contest.problems, ResultOf(contest, request, user).problemResults)
  {
    hide Users, Counted, TotalScore, TotalTime, ProblemRow;
    var sorted := Problems(contest);
    NumbersAreOrder();
    OrderBySorted(contest.problems, ByNumber);
    forall k | 0 <= k < |sorted| ensures ResultOf(contest, request, user).problemResults[k].problem == sorted[k].id {
      RowMeaning(sorted[k].id, Where(Where(Counted(contest, request), OfUser(user.id)), OfProblem(sorted[k].id)),
                 IsFirst(Users(contest, request), Counted(contest, request), user.id, sorted[k].id));
    }
  }

  lemma NumbersAreOrder()
    ensures IsOrder(ByNumber)
  {
  }

  /** The row counts exactly the user's counted submissions to its problem, as often as they are stored. */
  ghost predicate CountsOwn(contest: Contest, request: Request, user: int, problem: int, own: seq<Submission>) {
    forall s :: multiset(own)[s] == if s.user.id == user && s.problem == problem then multiset(Counted(contest, request))[s] else 0
  }

  /** Every row of a standing is the problem's row of its user, computed from that user's counted submissions. */
  lemma StandingRows(contest: Contest, request: Request, collate: Collation, i: nat, k: nat) returns (own: seq<Submission>)
    requires i < |NewStanding(contest, request, collate)|
    requires k < |NewStanding(contest, request, collate)[i].problemResults|
    ensures var result := NewStanding(contest, request, collate)[i];
      var row := result.problemResults[k];
      CountsOwn(contest, request, result.user.id, row.problem, own) && row == ProblemRow(row.problem, own, row.isFirstSuccess)
  {
    hide NewStanding, TotalScore, TotalTime, ProblemRow, Users, Counted, Where;
    StandingIsRanked(contest, request, collate);
    var user, problem := NewStanding(contest, request, collate)[i].user.id, Problems(contest)[k].id;
    var counted := Counted(contest, request);
    own := Where(Where(counted, OfUser(user)), OfProblem(problem));
    RowMeaning(problem, own, IsFirst(Users(contest, request), counted, user, problem));
    forall s ensures multiset(own)[s] == if s.user.id == user && s.problem == problem then multiset(counted)[s] else 0 {
      WhereMultiset(counted, OfUser(user), s);
      WhereMultiset(Where(counted, OfUser(user)), OfProblem(problem), s);
    }
  }

  lemma UsersOfResults(contest: Contest, request: Request)
    ensures UsersOf(Results(contest, request)) == Users(contest, request)
    ensures forall r :: r in Results(contest, request) ==> r == ResultOf(contest, request, r.user)
  {
  }

  lemma RankedInOrder(plain: seq<UserResult>, collate: Collation)
    ensures var results := OrderBy(plain, Ranking(collate));
      forall i, j :: 0 <= i < j < |results| ==> RanksBefore(collate, results[i], results[j])
  {
    RankingIsOrder(collate);
    OrderBySorted(plain, Ranking(collate));
    var results := OrderBy(plain, Ranking(collate));
    forall i, j | 0 <= i < j < |results| ensures RanksBefore(collate, results[i], results[j]) {
      assert Ranking(collate)(results[i], results[j]);
    }
  }

  lemma RankingIsOrder(collate: Collation)
    ensures IsOrder(Ranking(collate))
  {
  }

  // ---------- First success ----------

  ghost predicate DistinctIds(users: seq<User>) {
    forall i, j :: 0 <= i < j < |users| ==> users[i].id != users[j].id
  }

  /** A counted accepted submission of a listed user. */
  ghost predicate Solves(users: seq<User>, submissions: seq<Submission>, s: Submission, problem: int) {
    s in submissions && s.statusCode == 2 && s.problem == problem && IsListed(users, s.user.id)
  }

  ghost predicate IsListed(users: seq<User>, id: int) {
    exists i :: 0 <= i < |users| && users[i].id == id
  }

  lemma ListedOneMore(users: seq<User>, user: User, id: int)
    ensures IsListed(users + [user], id) <==> IsListed(users, id) || user.id == id
  {
    assert (users + [user])[|users|] == user;
    if i :| 0 <= i < |users| && users[i].id == id {
      assert (users + [user])[i].id == id;
    }
  }

  lemma {:induction false} JoinMembers(users: seq<User>, submissions: seq<Submission>, s: Submission)
    ensures s in Join(users, submissions) <==> s in submissions && IsListed(users, s.user.id)
  {
    if users != [] {
      var front, last := users[..|users| - 1], users[|users| - 1];
      assert users == front + [last];
      ListedOneMore(front, last, s.user.id);
      JoinMembers(front, submissions, s);
      WhereMembers(submissions, OfUser(last.id));
    }
  }

  ghost predicate FirstIsEarliest(s: seq<Submission>) {
    forall i :: 0 <= i < |s| ==> s[0].commitTime <= s[i].commitTime
  }

  lemma AcceptedMeaning(users: seq<User>, submissions: seq<Submission>, problem: int)
    ensures var accepted := AcceptedOf(users, submissions, problem);
      (forall s :: s in accepted <==> Solves(users, submissions, s, problem)) && FirstIsEarliest(accepted)
  {
    hide Join;
    var found := Where(Join(users, submissions), IsAccepted);
    var sorted := OrderBy(found, ByCommitTime);
    WhereMembers(Join(users, submissions), IsAccepted);
    SameElements(sorted, found);
    WhereMembers(sorted, OfProblem(problem));
    forall s ensures s in AcceptedOf(users, submissions, problem) <==> Solves(users, submissions, s, problem) {
      JoinMembers(users, submissions, s);
    }
    CommitTimesOrdered(found, problem);
  }

  lemma CommitTimesOrdered(found: seq<Submission>, problem: int)
    ensures FirstIsEarliest(Where(OrderBy(found, ByCommitTime), OfProblem(problem)))
  {
    OrderBySorted(found, ByCommitTime);
    WhereKeepsOrder(OrderBy(found, ByCommitTime), OfProblem(problem), ByCommitTime);
  }

  /**
   With distinct user ids each problem is marked for exactly one listed user if any listed user has an accepted
   counted submission to it, and for nobody otherwise. The marked user has such a submission that is no later
   than anyone's, and the marked row is solved.
   */
  lemma FirstSuccessIsUnique(users: seq<User>, submissions: seq<Submission>, problem: int)
    requires DistinctIds(users)
    ensures (exists s :: Solves(users, submissions, s, problem))
       <==> exists i :: 0 <= i < |users| && UserRow(users, submissions, users[i].id, problem).isFirstSuccess
    ensures forall i, j :: 0 <= i < |users| && 0 <= j < |users|
              && UserRow(users, submissions, users[i].id, problem).isFirstSuccess
              && UserRow(users, submissions, users[j].id, problem).isFirstSuccess
              ==> i == j
    ensures forall i :: 0 <= i < |users| && UserRow(users, submissions, users[i].id, problem).isFirstSuccess ==>
              && UserRow(users, submissions, users[i].id, problem).isSuccess
              && exists first :: Solves(users, submissions, first, problem) && first.user.id == users[i].id
                   && forall s :: Solves(users, submissions, s, problem) ==> first.commitTime <= s.commitTime
  {
    hide ProblemRow;
    AcceptedMeaning(users, submissions, problem);
    var accepted := AcceptedOf(users, submissions, problem);
    forall i | 0 <= i < |users|
      ensures UserRow(users, submissions, users[i].id, problem).isFirstSuccess == IsFirst(users, submissions, users[i].id, problem)
      ensures IsFirst(users, submissions, users[i].id, problem) ==> UserRow(users, submissions, users[i].id, problem).isSuccess
    {
      RowOfFirst(users, submissions, users[i].id, problem);
    }
    if accepted != [] {
      var first := accepted[0];
      assert first in accepted;
      var i :| 0 <= i < |users| && users[i].id == first.user.id;
      assert IsFirst(users, submissions, users[i].id, problem);
      forall s | Solves(users, submissions, s, problem) ensures first.commitTime <= s.commitTime {
        assert s in accepted;
      }
    } else {
      forall s ensures !Solves(users, submissions, s, problem) {
        assert s !in accepted;
      }
    }
  }

  lemma RowOfFirst(users: seq<User>, submissions: seq<Submission>, user: int, problem: int)
    ensures UserRow(users, submissions, user, problem).isFirstSuccess == IsFirst(users, submissions, user, problem)
    ensures IsFirst(users, submissions, user, problem) ==> UserRow(users, submissions, user, problem).isSuccess
  {
    var own := Where(Where(submissions, OfUser(user)), OfProblem(problem));
    RowMeaning(problem, own, IsFirst(users, submissions, user, problem));
    if IsFirst(users, submissions, user, problem) {
      AcceptedMeaning(users, submissions, problem);
      var first := AcceptedOf(users, submissions, problem)[0];
      assert first in AcceptedOf(users, submissions, problem);
      WhereMembers(submissions, OfUser(user));
      WhereMembers(Where(submissions, OfUser(user)), OfProblem(problem));
      assert first in own && IsSuccess(first);
    }
  }

  // ---------- The marks in a standing ----------

  ghost predicate IsUserOf(contest: Contest, u: User) {
    u in contest.competitors || exists p, s :: p in contest.problems && s in p.submissions && s.user == u
  }

  /** User ids are unique: competitors have different ones, and an id belongs to one user. */
  ghost predicate UniqueUsers(contest: Contest) {
    && DistinctIds(contest.competitors)
    && forall u, v :: IsUserOf(contest, u) && IsUserOf(contest, v) && u.id == v.id ==> u == v
  }

  lemma {:induction false} WhereDistinct(users: seq<User>, p: User -> bool)
    requires DistinctIds(users)
    ensures DistinctIds(Where(users, p))
  {
    if users != [] {
      var front, last := users[..|users| - 1], users[|users| - 1];
      WhereDistinct(front, p);
      WhereMembers(front, p);
      forall u | u in Where(front, p) ensures u.id != last.id {
        var i :| 0 <= i < |front| && front[i] == u;
        assert users[i] == u;
      }
    }
  }

  lemma ListedAreUsers(contest: Contest, request: Request, u: User)
    requires u in Users(contest, request)
    ensures IsUserOf(contest, u)
  {
    hide Users, Counted;
    ListedUsers(contest, request, u);
    if u !in contest.competitors {
      var s :| s in Counted(contest, request) && s.user == u;
      CountedMeaning(contest, request, s);
    }
  }

  /** Where user ids are unique, nobody is listed twice. */
  lemma ListedOnce(contest: Contest, request: Request)
    requires UniqueUsers(contest)
    ensures DistinctIds(Users(contest, request))
  {
    hide IsUserOf, Counted;
    var users := Users(contest, request);
    if request.includeAll {
      forall i, j | 0 <= i < j < |users| ensures users[i].id != users[j].id {
        ListedAreUsers(contest, request, users[i]);
        ListedAreUsers(contest, request, users[j]);
        ListedUsers(contest, request, users[i]);
      }
    } else {
      WhereDistinct(contest.competitors, Listed(request));
    }
  }

  lemma DistinctIdsStay(users: seq<User>, others: seq<User>)
    requires DistinctIds(users) && multiset(users) == multiset(others)
    ensures DistinctIds(others)
  {
    NoRepeats(users);
    NoRepeats(others);
    SameElements(users, others);
    forall i, j | 0 <= i < j < |others| ensures others[i].id != others[j].id {
      assert others[i] in users && others[j] in users && others[i] != others[j];
      var k :| 0 <= k < |users| && users[k] == others[i];
      var l :| 0 <= l < |users| && users[l] == others[j];
    }
  }

  /** The listed users are told apart by their ids, and every result has one row per problem. */
  lemma ResultsInPlace(contest: Contest, request: Request, collate: Collation)
    requires UniqueUsers(contest)
    ensures var results, users := NewStanding(contest, request, collate), Users(contest, request);
      && DistinctIds(users) && DistinctIds(UsersOf(results))
      && (forall i :: 0 <= i < |results| ==> results[i].user in users)
      && (forall u :: u in users ==> exists i :: 0 <= i < |results| && results[i].user == u)
      && (forall i, k :: 0 <= i < |results| && 0 <= k < |Problems(contest)| ==>
            && |results[i].problemResults| == |Problems(contest)|
            && results[i].problemResults[k] == UserRow(users, Counted(contest, request), results[i].user.id, Problems(contest)[k].id))
  {
    hide Users, NewStanding, UniqueUsers, UserRow, Counted;
    var results, users := NewStanding(contest, request, collate), Users(contest, request);
    StandingIsRanked(contest, request, collate);
    ListedOnce(contest, request);
    DistinctIdsStay(users, UsersOf(results));
    SameElements(UsersOf(results), users);
    forall i | 0 <= i < |results| ensures results[i].user in users {
      assert UsersOf(results)[i] in UsersOf(results);
    }
    forall u | u in users ensures exists i :: 0 <= i < |results| && results[i].user == u {
      assert u in UsersOf(results);
      var i :| 0 <= i < |UsersOf(results)| && UsersOf(results)[i] == u;
      assert results[i].user == u;
    }
  }

  /** This listed submission solves the problem, and none does so earlier. */
  ghost predicate SolvesFirst(users: seq<User>, submissions: seq<Submission>, first: Submission, problem: int) {
    && Solves(users, submissions, first, problem)
    && forall s :: Solves(users, submissions, s, problem) ==> first.commitTime <= s.commitTime
  }

  predicate IsMarked(results: seq<UserResult>, i: nat, k: nat) {
    i < |results| && k < |results[i].problemResults| && results[i].problemResults[k].isFirstSuccess
  }

  /**
   In every standing, the column of each problem carries exactly one mark of a first success when a listed user
   has an accepted counted submission to it, and none otherwise; the mark stands in a solved row, and belongs to
   a user with an earliest such submission.
   */
  lemma StandingMarksFirstSuccess(contest: Contest, request: Request, collate: Collation, k: nat)
    requires UniqueUsers(contest) && k < |Problems(contest)|
    ensures var results, users := NewStanding(contest, request, collate), Users(contest, request);
      var submissions, problem := Counted(contest, request), Problems(contest)[k].id;
      && ((exists s :: Solves(users, submissions, s, problem)) <==> exists i: nat :: IsMarked(results, i, k))
      && (forall i: nat, j: nat :: IsMarked(results, i, k) && IsMarked(results, j, k) ==> i == j)
      && (forall i: nat :: IsMarked(results, i, k) ==>
            && results[i].problemResults[k].isSuccess
            && exists first :: SolvesFirst(users, submissions, first, problem) && first.user.id == results[i].user.id)
  {
    hide Users, NewStanding, UniqueUsers, UserRow, Counted, Problems, Solves;
    var results, users := NewStanding(contest, request, collate), Users(contest, request);
    var submissions, problem := Counted(contest, request), Problems(contest)[k].id;
    ResultsInPlace(contest, request, collate);
    FirstSuccessIsUnique(users, submissions, problem);
    forall i: nat | IsMarked(results, i, k)
      ensures exists u :: 0 <= u < |users| && users[u] == results[i].user && UserRow(users, submissions, users[u].id, problem).isFirstSuccess
    {
      var u :| 0 <= u < |users| && users[u] == results[i].user;
    }
    forall i: nat, j: nat | IsMarked(results, i, k) && IsMarked(results, j, k) ensures i == j {
      assert UsersOf(results)[i] == results[i].user && UsersOf(results)[j] == results[j].user;
    }
    forall i: nat | IsMarked(results, i, k)
      ensures exists first :: SolvesFirst(users, submissions, first, problem) && first.user.id == results[i].user.id
    {
      var u :| 0 <= u < |users| && users[u] == results[i].user && UserRow(users, submissions, users[u].id, problem).isFirstSuccess;
      var first :| Solves(users, submissions, first, problem) && first.user.id == users[u].id
                   && forall s :: Solves(users, submissions, s, problem) ==> first.commitTime <= s.commitTime;
      assert SolvesFirst(users, submissions, first, problem);
    }
    if exists s :: Solves(users, submissions, s, problem) {
      var u :| 0 <= u < |users| && UserRow(users, submissions, users[u].id, problem).isFirstSuccess;
      assert users[u] in users;
      var i :| 0 <= i < |results| && results[i].user == users[u];
      assert IsMarked(results, i, k);
    }
  }

  // ---------- Freezing ----------

  /** The counted submissions of one competitor to one problem, before freezing. */
  function Own(contest: Contest, request: Request, user: int, problem: int): seq<Submission> {
    Where(Where(Unfrozen(contest, request), OfUser(user)), OfProblem(problem))
  }

  lemma FrozenOwn(contest: Contest, request: Request, user: int, problem: int)
    ensures Where(Where(Counted(contest, request), OfUser(user)), OfProblem(problem))
         == if Frozen(contest, request) then Where(Own(contest, request, user, problem), BeforeFreeze(contest.freezeTime.value))
            else Own(contest, request, user, problem)
  {
    if Frozen(contest, request) {
      var all, freeze := Unfrozen(contest, request), BeforeFreeze(contest.freezeTime.value);
      WhereCommutes(all, freeze, OfUser(user));
      WhereCommutes(Where(all, OfUser(user)), freeze, OfProblem(problem));
    }
  }

  /** Scores of one problem are non-negative, and either all missing or all present. */
  ghost predicate Uniform(submissions: seq<Submission>) {
    && NonNegative(submissions)
    && ((forall s :: s in submissions ==> s.score.None?) || (forall s :: s in submissions ==> s.score.Some?))
  }

  /** With uniform scores a frozen standing never shows a competitor more points than the unfrozen one. */
  lemma FrozenTotalsWithinFinal(contest: Contest, request: Request, user: User)
    requires forall p :: p in Problems(contest) ==> Uniform(Own(contest, request, user.id, p.id))
    ensures ResultOf(contest, request.(notFreeze := false), user).score <= ResultOf(contest, request.(notFreeze := true), user).score
  {
    var problems := Problems(contest);
    var frozen, final := request.(notFreeze := false), request.(notFreeze := true);
    var f, g := ResultOf(contest, frozen, user).problemResults, ResultOf(contest, final, user).problemResults;
    forall i | 0 <= i < |problems| ensures f[i].score <= g[i].score {
      FrozenRowWithinFinal(contest, request, user.id, problems[i].id);
    }
    TotalsCompare(f, g);
  }

  lemma SameCounting(contest: Contest, request: Request, notFreeze: bool)
    ensures Unfrozen(contest, request.(notFreeze := notFreeze)) == Unfrozen(contest, request)
  {
    var other := request.(notFreeze := notFreeze);
    var all := OrderBy(AllSubmissions(Problems(contest)), ByCommitTime);
    WhereSame(all, CountedIn(contest, request), CountedIn(contest, other));
  }

  lemma FrozenRowWithinFinal(contest: Contest, request: Request, user: int, problem: int)
    requires Uniform(Own(contest, request, user, problem))
    ensures var frozen, final := request.(notFreeze := false), request.(notFreeze := true);
      UserRow(Users(contest, frozen), Counted(contest, frozen), user, problem).score
        <= UserRow(Users(contest, final), Counted(contest, final), user, problem).score
  {
    hide ProblemRow, RowScore, Users, Counted, Unfrozen, Where;
    var frozen, final := request.(notFreeze := false), request.(notFreeze := true);
    SameCounting(contest, request, false);
    SameCounting(contest, request, true);
    FrozenOwn(contest, frozen, user, problem);
    FrozenOwn(contest, final, user, problem);
    var own := Own(contest, request, user, problem);
    forall s, first | true ensures ProblemRow(problem, s, first).score == RowScore(s) {
      RowScoreMeaning(problem, s, first, Submission(0, User(0, "", false, false, false, false), 0, 0, 0, None, false));
    }
    if Frozen(contest, frozen) {
      FrozenScoreWithinFinal(own, contest.freezeTime.value);
    }
  }

  lemma {:induction false} TotalsCompare(f: seq<Row>, g: seq<Row>)
    requires |f| == |g| && forall i :: 0 <= i < |f| ==> f[i].score <= g[i].score
    ensures TotalScore(f) <= TotalScore(g)
  {
    if f != [] {
      TotalsCompare(f[..|f| - 1], g[..|g| - 1]);
    }
  }

  /** Without scores, whatever was solved before the freeze keeps its score, time and attempts. */
  lemma FrozenSolutionsStand(contest: Contest, request: Request, user: int, problem: int)
    requires forall s :: s in Own(contest, request, user, problem) ==> s.score == None
    ensures var frozen, final := request.(notFreeze := false), request.(notFreeze := true);
      var before := UserRow(Users(contest, frozen), Counted(contest, frozen), user, problem);
      var after := UserRow(Users(contest, final), Counted(contest, final), user, problem);
      before.isSuccess ==> after.(isFirstSuccess := false) == before.(isFirstSuccess := false)
  {
    hide ProblemRow, Users, Counted, Unfrozen, Where;
    var frozen, final := request.(notFreeze := false), request.(notFreeze := true);
    SameCounting(contest, request, false);
    SameCounting(contest, request, true);
    FrozenOwn(contest, frozen, user, problem);
    FrozenOwn(contest, final, user, problem);
    var own := Own(contest, request, user, problem);
    forall s, first | true ensures ProblemRow(problem, s, first).(isFirstSuccess := false) == ProblemRow(problem, s, false) {
      MarkIsIndependent(problem, s, first);
    }
    if Frozen(contest, frozen) && ProblemRow(problem, Where(own, BeforeFreeze(contest.freezeTime.value)), false).isSuccess {
      FrozenSolvedRowIsFinal(problem, own, contest.freezeTime.value, false);
    }
  }

  lemma MarkIsIndependent(problem: int, s: seq<Submission>, first: bool)
    ensures ProblemRow(problem, s, first).(isFirstSuccess := false) == ProblemRow(problem, s, false)
  {
  }
}
