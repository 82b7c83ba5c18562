/** The plagiarism report: which pairs of submissions are compared, and how the suspicious ones are grouped. */
module AntiCheatReport {
  import opened Linq
  import EditDistances

  datatype Submission = Submission(id: int, user: int, problem: int, commitTime: int, text: string)

  type Pair = (Submission, Submission)

  datatype Case = Case(first: Submission, second: Submission, similarity: real)

  type Key = (int, int)

  datatype Report = Report(user1: int, user2: int, cases: seq<Case>)

  type Similarity = (string, string) -> real

  // ---------- The comparisons ----------

  function OfProblem(problem: int): Submission -> bool {
    (s: Submission) => s.problem == problem
  }

  function Ids(submissions: seq<Submission>): set<int> {
    set s | s in submissions :: s.id
  }

  /** A submission is compared with those of other users, but a selected one not with an earlier selected one. */
  predicate Compares(selectedIds: set<int>, s: Submission, other: Submission) {
    s.user != other.user && !(other.id in selectedIds && s.id > other.id)
  }

  function ComparisonsOf(selectedIds: set<int>, s: Submission, others: seq<Submission>): seq<Pair> {
    if others == [] then []
    else
      var front, last := others[..|others| - 1], others[|others| - 1];
      ComparisonsOf(selectedIds, s, front) + (if Compares(selectedIds, s, last) then [(s, last)] else [])
  }

  function ComparisonsUpTo(selectedIds: set<int>, selected: seq<Submission>, history: seq<Submission>): seq<Pair> {
    if selected == [] then []
    else
      var front, last := selected[..|selected| - 1], selected[|selected| - 1];
      ComparisonsUpTo(selectedIds, front, history) + ComparisonsOf(selectedIds, last, Where(history, OfProblem(last.problem)))
  }

  function Comparisons(selected: seq<Submission>, history: seq<Submission>): seq<Pair> {
    ComparisonsUpTo(Ids(selected), selected, history)
  }

  /** The case recorded for a comparison, the lower user id first. */
  function CaseOf(pair: Pair, similarity: real): Case {
    if pair.0.user < pair.1.user then Case(pair.0, pair.1, similarity) else Case(pair.1, pair.0, similarity)
  }

  function CasesOf(pairs: seq<Pair>, similarity: Similarity, threshold: real): seq<Case> {
    if pairs == [] then []
    else
      var last := pairs[|pairs| - 1];
      var value := similarity(last.0.text, last.1.text);
      CasesOf(pairs[..|pairs| - 1], similarity, threshold) + (if value > threshold then [CaseOf(last, value)] else [])
  }

  // ---------- The reports ----------

  function KeyOf(c: Case): Key {
    (c.first.user, c.second.user)
  }

  function HasKey(key: Key): Case -> bool {
    (c: Case) => KeyOf(c) == key
  }

  predicate KeyAtMost(k: Key, l: Key) {
    k.0 < l.0 || (k.0 == l.0 && k.1 <= l.1)
  }

  function Keys(cases: seq<Case>): seq<Key> {
    seq(|cases|, i requires 0 <= i < |cases| => KeyOf(cases[i]))
  }

  function ReportKeys(cases: seq<Case>): seq<Key> {
    OrderBy(Distinct(Keys(cases)), KeyAtMost)
  }

  function ReportFor(cases: seq<Case>, key: Key): Report {
    Report(key.0, key.1, Where(cases, HasKey(key)))
  }

  function Reports(cases: seq<Case>): seq<Report> {
    var keys := ReportKeys(cases);
    seq(|keys|, i requires 0 <= i < |keys| => ReportFor(cases, keys[i]))
  }

  /** The nested loops; `compared` records every call of the similarity service, in order. */
  method Compare(selected: seq<Submission>, history: seq<Submission>, similarity: Similarity, threshold: real)
    returns (reports: seq<Report>, ghost compared: seq<Pair>)
    ensures compared == Comparisons(selected, history)
    ensures reports == Reports(CasesOf(Comparisons(selected, history), similarity, threshold))
  {
    hide ComparisonsUpTo, ComparisonsOf, CasesOf, Where;
    var selectedIds := Ids(selected);
    var cases: seq<Case> := [];
    compared := [];
    NothingCompared(selectedIds, history, similarity, threshold);
    for i := 0 to |selected|
      invariant compared == ComparisonsUpTo(selectedIds, selected[..i], history)
      invariant cases == CasesOf(compared, similarity, threshold)
    {
      var submission := selected[i];
      var others := Where(history, OfProblem(submission.problem));
      ghost var before := compared;
      NoOther(selectedIds, submission);
      for j := 0 to |others|
        invariant compared == before + ComparisonsOf(selectedIds, submission, others[..j])
        invariant cases == CasesOf(compared, similarity, threshold)
      {
        var other := others[j];
        OneMoreOther(selectedIds, submission, others, j);
        if submission.user == other.user {
          continue;
        }
        if other.id in selectedIds && submission.id > other.id {
          continue;
        }
        var value := similarity(submission.text, other.text);
        OneMoreCase(compared, (submission, other), similarity, threshold);
        compared := compared + [(submission, other)];
        if value > threshold {
          cases := cases + [if submission.user < other.user then Case(submission, other, value)
                            else Case(other, submission, value)];
        }
      }
      assert others[..|others|] == others;
      OneMoreSelected(selectedIds, selected, history, i);
    }
    assert selected[..|selected|] == selected;
    reports := Reports(cases);
  }

  lemma NothingCompared(selectedIds: set<int>, history: seq<Submission>, similarity: Similarity, threshold: real)
    ensures ComparisonsUpTo(selectedIds, [], history) == []
    ensures CasesOf([], similarity, threshold) == []
  {
  }

  lemma NoOther(selectedIds: set<int>, s: Submission)
    ensures ComparisonsOf(selectedIds, s, []) == []
  {
  }

  lemma OneMoreOther(selectedIds: set<int>, s: Submission, others: seq<Submission>, j: nat)
    requires j < |others|
    ensures ComparisonsOf(selectedIds, s, others[..j + 1])
         == ComparisonsOf(selectedIds, s, others[..j]) + (if Compares(selectedIds, s, others[j]) then [(s, others[j])] else [])
  {
    assert others[..j + 1][..j] == others[..j];
  }

  lemma OneMoreSelected(selectedIds: set<int>, selected: seq<Submission>, history: seq<Submission>, i: nat)
    requires i < |selected|
    ensures ComparisonsUpTo(selectedIds, selected[..i + 1], history)
         == ComparisonsUpTo(selectedIds, selected[..i], history)
            + ComparisonsOf(selectedIds, selected[i], Where(history, OfProblem(selected[i].problem)))
  {
    assert selected[..i + 1][..i] == selected[..i];
  }

  lemma OneMoreCase(pairs: seq<Pair>, pair: Pair, similarity: Similarity, threshold: real)
    ensures var value := similarity(pair.0.text, pair.1.text);
      CasesOf(pairs + [pair], similarity, threshold)
        == CasesOf(pairs, similarity, threshold) + (if value > threshold then [CaseOf(pair, value)] else [])
  {
    assert (pairs + [pair])[..|pairs|] == pairs;
  }

  // ---------- Every pair exactly once ----------

  ghost predicate UniqueIds(submissions: seq<Submission>) {
    forall i, j :: 0 <= i < j < |submissions| ==> submissions[i].id != submissions[j].id
  }

  lemma {:induction false} OccursOnce(submissions: seq<Submission>, s: Submission)
    requires UniqueIds(submissions)
    ensures multiset(submissions)[s] == if s in submissions then 1 else 0
  {
    if submissions != [] {
      var front, last := submissions[..|submissions| - 1], submissions[|submissions| - 1];
      assert submissions == front + [last];
      OccursOnce(front, s);
    }
  }

  lemma {:induction false} ComparisonsOfCount(selectedIds: set<int>, s: Submission, others: seq<Submission>, pair: Pair)
    ensures multiset(ComparisonsOf(selectedIds, s, others))[pair]
         == if pair.0 == s && Compares(selectedIds, s, pair.1) then multiset(others)[pair.1] else 0
  {
    if others != [] {
      var front, last := others[..|others| - 1], others[|others| - 1];
      assert others == front + [last];
      ComparisonsOfCount(selectedIds, s, front, pair);
    }
  }

  /** How often a pair is compared for each time its first submission is selected. */
  function Weight(selectedIds: set<int>, history: seq<Submission>, pair: Pair): nat {
    if pair.0.problem == pair.1.problem && Compares(selectedIds, pair.0, pair.1) then multiset(history)[pair.1] else 0
  }

  lemma OneSelectedCount(selectedIds: set<int>, s: Submission, history: seq<Submission>, pair: Pair)
    ensures multiset(ComparisonsOf(selectedIds, s, Where(history, OfProblem(s.problem))))[pair]
         == if pair.0 == s then Weight(selectedIds, history, pair) else 0
  {
    ComparisonsOfCount(selectedIds, s, Where(history, OfProblem(s.problem)), pair);
    WhereMultiset(history, OfProblem(s.problem), pair.1);
  }

  lemma {:induction false} ComparisonsCount(selectedIds: set<int>, selected: seq<Submission>, history: seq<Submission>, pair: Pair)
    ensures multiset(ComparisonsUpTo(selectedIds, selected, history))[pair]
         == multiset(selected)[pair.0] * Weight(selectedIds, history, pair)
  {
    hide ComparisonsOf, Weight, Compares, Where;
    if selected != [] {
      var front, last := selected[..|selected| - 1], selected[|selected| - 1];
      assert selected == front + [last];
      ComparisonsCount(selectedIds, front, history, pair);
      OneSelectedCount(selectedIds, last, history, pair);
      Distribute(multiset(front)[pair.0], if pair.0 == last then 1 else 0, Weight(selectedIds, history, pair));
    }
  }

  lemma Distribute(a: nat, b: nat, c: nat)
    ensures (a + b) * c == a * c + b * c
  {
  }

  /** The pairs that must be compared: same problem, different users, at least one selected. */
  ghost predicate Eligible(selected: seq<Submission>, history: seq<Submission>, x: Submission, y: Submission) {
    && x in history && y in history
    && x.problem == y.problem && x.user != y.user
    && (x in selected || y in selected)
  }

  /** `selected` is a part of `history`, and ids are unique. */
  ghost predicate Selection(selected: seq<Submission>, history: seq<Submission>) {
    && UniqueIds(selected) && UniqueIds(history)
    && forall s :: s in selected ==> s in history
  }

  lemma IdSelected(selected: seq<Submission>, history: seq<Submission>, s: Submission)
    requires Selection(selected, history) && s in history
    ensures s.id in Ids(selected) <==> s in selected
  {
    if s.id in Ids(selected) {
      var t :| t in selected && t.id == s.id;
      var i :| 0 <= i < |history| && history[i] == s;
      var j :| 0 <= j < |history| && history[j] == t;
    }
  }

  lemma SelectedIdsDiffer(history: seq<Submission>, x: Submission, y: Submission)
    requires UniqueIds(history) && x in history && y in history && x != y
    ensures x.id != y.id
  {
    var i :| 0 <= i < |history| && history[i] == x;
    var j :| 0 <= j < |history| && history[j] == y;
  }

  /** A pair is compared in this order once when its first submission leads the comparison, and never otherwise. */
  ghost predicate Leads(selected: seq<Submission>, history: seq<Submission>, x: Submission, y: Submission) {
    && x in selected && y in history && x.problem == y.problem && x.user != y.user
    && !(y in selected && x.id > y.id)
  }

  lemma WeightMeaning(selected: seq<Submission>, history: seq<Submission>, x: Submission, y: Submission)
    requires Selection(selected, history)
    ensures Weight(Ids(selected), history, (x, y))
         == if y in history && x.problem == y.problem && x.user != y.user && !(y in selected && x.id > y.id) then 1 else 0
  {
    hide Ids, UniqueIds;
    OccursOnce(history, y);
    if y in history {
      IdSelected(selected, history, y);
    }
  }

  lemma PairCount(selected: seq<Submission>, history: seq<Submission>, x: Submission, y: Submission)
    requires Selection(selected, history)
    ensures multiset(Comparisons(selected, history))[(x, y)] == if Leads(selected, history, x, y) then 1 else 0
  {
    hide Weight, Ids, ComparisonsUpTo, UniqueIds;
    ComparisonsCount(Ids(selected), selected, history, (x, y));
    OccursOnce(selected, x);
    WeightMeaning(selected, history, x, y);
  }

  /** Each eligible pair is compared exactly once, in one of its two orders; no other pair is compared at all. */
  lemma EachPairOnce(selected: seq<Submission>, history: seq<Submission>, x: Submission, y: Submission)
    requires Selection(selected, history)
    ensures var compared := multiset(Comparisons(selected, history));
      x != y ==> compared[(x, y)] + compared[(y, x)] == if Eligible(selected, history, x, y) then 1 else 0
    ensures multiset(Comparisons(selected, history))[(x, x)] == 0
    ensures x in selected && y in selected && x.id > y.id ==> multiset(Comparisons(selected, history))[(x, y)] == 0
  {
    hide Comparisons, UniqueIds;
    PairCount(selected, history, x, y);
    PairCount(selected, history, y, x);
    PairCount(selected, history, x, x);
    if x in history && y in history && x != y {
      SelectedIdsDiffer(history, x, y);
    }
  }

  // ---------- Every suspicious pair in exactly one report ----------

  ghost predicate Symmetric(similarity: Similarity) {
    forall s, t :: similarity(s, t) == similarity(t, s)
  }

  lemma {:induction false} CasesCount(pairs: seq<Pair>, similarity: Similarity, threshold: real, x: Submission, y: Submission, c: Case)
    requires Symmetric(similarity) && c.first.user < c.second.user
    requires forall k :: 0 <= k < |pairs| ==> pairs[k].0.user != pairs[k].1.user
    requires x == c.first && y == c.second
    ensures multiset(CasesOf(pairs, similarity, threshold))[c]
         == if c.similarity == similarity(x.text, y.text) && c.similarity > threshold
            then multiset(pairs)[(x, y)] + multiset(pairs)[(y, x)] else 0
  {
    if pairs != [] {
      var front, last := pairs[..|pairs| - 1], pairs[|pairs| - 1];
      assert pairs == front + [last];
      CasesCount(front, similarity, threshold, x, y, c);
      assert similarity(last.0.text, last.1.text) == similarity(last.1.text, last.0.text);
    }
  }

  lemma {:induction false} CasesAreOrdered(pairs: seq<Pair>, similarity: Similarity, threshold: real)
    requires forall k :: 0 <= k < |pairs| ==> pairs[k].0.user != pairs[k].1.user
    ensures forall c :: c in CasesOf(pairs, similarity, threshold) ==> c.first.user < c.second.user
  {
    if pairs != [] {
      CasesAreOrdered(pairs[..|pairs| - 1], similarity, threshold);
    }
  }

  lemma KeyOrder()
    ensures IsOrder(KeyAtMost)
  {
  }

  lemma KeysMembers(cases: seq<Case>, key: Key)
    ensures key in Keys(cases) <==> exists c :: c in cases && KeyOf(c) == key
  {
    if c :| c in cases && KeyOf(c) == key {
      var i :| 0 <= i < |cases| && cases[i] == c;
      assert Keys(cases)[i] == key;
    }
    if key in Keys(cases) {
      var i :| 0 <= i < |Keys(cases)| && Keys(cases)[i] == key;
      assert cases[i] in cases && KeyOf(cases[i]) == key;
    }
  }

  /** The keys of the reports: those of the cases, each once, strictly increasing. */
  lemma ReportKeysMeaning(cases: seq<Case>)
    ensures forall key :: key in ReportKeys(cases) <==> exists c :: c in cases && KeyOf(c) == key
    ensures forall i, j :: 0 <= i < j < |ReportKeys(cases)| ==>
              KeyAtMost(ReportKeys(cases)[i], ReportKeys(cases)[j]) && ReportKeys(cases)[i] != ReportKeys(cases)[j]
  {
    hide Keys, KeyAtMost, OrderBy, KeyOf;
    var keys := ReportKeys(cases);
    var distinct := Distinct(Keys(cases));
    KeyOrder();
    OrderBySorted(distinct, KeyAtMost);
    SameElements(keys, distinct);
    forall key ensures key in keys <==> exists c :: c in cases && KeyOf(c) == key {
      KeysMembers(cases, key);
    }
    DistinctStays(distinct, keys);
  }

  lemma DistinctStays(s: seq<Key>, t: seq<Key>)
    requires multiset(s) == multiset(t)
    requires forall i, j :: 0 <= i < j < |s| ==> s[i] != s[j]
    ensures forall i, j :: 0 <= i < j < |t| ==> t[i] != t[j]
  {
    NoRepeats(s);
    NoRepeats(t);
  }

  /** The report of key number `i` holds the cases of that key, as often as they were recorded. */
  lemma ReportCases(cases: seq<Case>, i: nat, c: Case)
    requires i < |ReportKeys(cases)|
    ensures var report := Reports(cases)[i];
      && (report.user1, report.user2) == ReportKeys(cases)[i]
      && multiset(report.cases)[c] == (if ReportKeys(cases)[i] == KeyOf(c) then multiset(cases)[c] else 0)
  {
    WhereMultiset(cases, HasKey(ReportKeys(cases)[i]), c);
  }

  lemma ReportIsNotEmpty(cases: seq<Case>, i: nat)
    requires i < |ReportKeys(cases)| && forall c :: c in cases ==> c.first.user < c.second.user
    ensures Reports(cases)[i].user1 < Reports(cases)[i].user2 && Reports(cases)[i].cases != []
  {
    ReportKeysMeaning(cases);
    var key := ReportKeys(cases)[i];
    assert key in ReportKeys(cases);
    var c :| c in cases && KeyOf(c) == key;
    WhereMembers(cases, HasKey(key));
    assert c in Where(cases, HasKey(key));
  }

  function KeyOfReport(r: Report): Key {
    (r.user1, r.user2)
  }

  /**
   The reports have strictly increasing keys, the lower user id first, and no report is empty; each case lands,
   as often as it was recorded, in the report of its two users and in no other.
   */
  lemma ReportsMeaning(cases: seq<Case>)
    requires forall c :: c in cases ==> c.first.user < c.second.user
    ensures var reports := Reports(cases);
      && (forall i :: 0 <= i < |reports| ==> reports[i].user1 < reports[i].user2 && reports[i].cases != [])
      && (forall i, j :: 0 <= i < j < |reports| ==>
            KeyAtMost(KeyOfReport(reports[i]), KeyOfReport(reports[j])) && KeyOfReport(reports[i]) != KeyOfReport(reports[j]))
      && (forall i, c :: 0 <= i < |reports| ==>
            multiset(reports[i].cases)[c] == if KeyOfReport(reports[i]) == KeyOf(c) then multiset(cases)[c] else 0)
      && (forall c :: c in cases ==> exists i :: 0 <= i < |reports| && KeyOfReport(reports[i]) == KeyOf(c))
  {
    hide ReportKeys, Where;
    var keys, reports := ReportKeys(cases), Reports(cases);
    ReportKeysMeaning(cases);
    forall i, c | 0 <= i < |reports|
      ensures KeyOfReport(reports[i]) == keys[i]
      ensures multiset(reports[i].cases)[c] == if keys[i] == KeyOf(c) then multiset(cases)[c] else 0
    {
      ReportCases(cases, i, c);
    }
    forall i | 0 <= i < |reports|
      ensures KeyOfReport(reports[i]) == keys[i]
      ensures reports[i].user1 < reports[i].user2 && reports[i].cases != []
    {
      ReportIsNotEmpty(cases, i);
    }
    forall c | c in cases ensures exists i :: 0 <= i < |reports| && KeyOfReport(reports[i]) == KeyOf(c) {
      assert KeyOf(c) in keys;
      var i :| 0 <= i < |keys| && keys[i] == KeyOf(c);
      assert KeyOfReport(reports[i]) == KeyOf(c);
    }
  }

  /** Compared pairs are of different users. */
  lemma ComparedUsersDiffer(selected: seq<Submission>, history: seq<Submission>)
    ensures forall k :: 0 <= k < |Comparisons(selected, history)| ==>
              Comparisons(selected, history)[k].0.user != Comparisons(selected, history)[k].1.user
  {
    hide ComparisonsUpTo, Weight, Ids;
    var pairs := Comparisons(selected, history);
    forall k | 0 <= k < |pairs| ensures pairs[k].0.user != pairs[k].1.user {
      SameUserWeighsNothing(Ids(selected), selected, history, pairs[k]);
      assert pairs[k] in multiset(pairs);
    }
  }

  lemma SameUserWeighsNothing(selectedIds: set<int>, selected: seq<Submission>, history: seq<Submission>, pair: Pair)
    ensures pair.0.user == pair.1.user ==> multiset(ComparisonsUpTo(selectedIds, selected, history))[pair] == 0
  {
    hide ComparisonsUpTo;
    ComparisonsCount(selectedIds, selected, history, pair);
    if pair.0.user == pair.1.user {
      assert Weight(selectedIds, history, pair) == 0;
      Distribute(multiset(selected)[pair.0], 0, 0);
    }
  }

  /** The case of an eligible pair, lower user id first, whose similarity exceeds the threshold. */
  ghost predicate Suspicious(selected: seq<Submission>, history: seq<Submission>, similarity: Similarity, threshold: real, c: Case) {
    && c.first.user < c.second.user
    && Eligible(selected, history, c.first, c.second)
    && c.similarity == similarity(c.first.text, c.second.text) > threshold
  }

  /** The recorded cases are the suspicious ones, each recorded once. */
  lemma CasesMeaning(selected: seq<Submission>, history: seq<Submission>, similarity: Similarity, threshold: real, c: Case)
    requires Selection(selected, history) && Symmetric(similarity)
    ensures multiset(CasesOf(Comparisons(selected, history), similarity, threshold))[c]
         == if Suspicious(selected, history, similarity, threshold, c) then 1 else 0
  {
    hide Comparisons, CasesOf, Symmetric, Selection;
    var pairs := Comparisons(selected, history);
    ComparedUsersDiffer(selected, history);
    if c.first.user < c.second.user {
      EachPairOnce(selected, history, c.first, c.second);
      CasesCount(pairs, similarity, threshold, c.first, c.second, c);
    } else {
      CasesAreOrdered(pairs, similarity, threshold);
      assert c !in CasesOf(pairs, similarity, threshold);
    }
  }

  /** Report number `i` lists the case once, and no other report lists it. */
  ghost predicate ReportedIn(reports: seq<Report>, c: Case, i: nat) {
    && i < |reports| && reports[i].user1 == c.first.user && reports[i].user2 == c.second.user && multiset(reports[i].cases)[c] == 1
    && forall j :: 0 <= j < |reports| && j != i ==> c !in reports[j].cases
  }

  /**
   What the comparison returns, for a symmetric similarity: every eligible pair above the threshold is listed
   once, in exactly one report, that of its two users; nothing else is listed; reports come in strictly
   increasing order of their users, the lower id first, and none is empty.
   */
  lemma SuspiciousPairsAreReported(selected: seq<Submission>, history: seq<Submission>, similarity: Similarity, threshold: real)
    requires Selection(selected, history) && Symmetric(similarity)
    ensures var reports := Reports(CasesOf(Comparisons(selected, history), similarity, threshold));
      && (forall c :: Suspicious(selected, history, similarity, threshold, c) ==> exists i: nat :: ReportedIn(reports, c, i))
      && (forall c, i :: 0 <= i < |reports| && c in reports[i].cases ==> Suspicious(selected, history, similarity, threshold, c))
      && (forall i :: 0 <= i < |reports| ==> reports[i].user1 < reports[i].user2 && reports[i].cases != [])
      && (forall i, j :: 0 <= i < j < |reports| ==>
            reports[i].user1 < reports[j].user1 || (reports[i].user1 == reports[j].user1 && reports[i].user2 < reports[j].user2))
  {
    hide Comparisons, CasesOf, Symmetric, Selection, Suspicious, Reports;
    var cases := CasesOf(Comparisons(selected, history), similarity, threshold);
    var reports := Reports(cases);
    ComparedUsersDiffer(selected, history);
    CasesAreOrdered(Comparisons(selected, history), similarity, threshold);
    ReportsMeaning(cases);
    forall c | Suspicious(selected, history, similarity, threshold, c) ensures exists i: nat :: ReportedIn(reports, c, i) {
      CasesMeaning(selected, history, similarity, threshold, c);
      OneReport(cases, c);
    }
    forall c, i | 0 <= i < |reports| && c in reports[i].cases ensures Suspicious(selected, history, similarity, threshold, c) {
      CasesMeaning(selected, history, similarity, threshold, c);
      assert multiset(reports[i].cases)[c] > 0;
    }
  }

  lemma OneReport(cases: seq<Case>, c: Case)
    requires multiset(cases)[c] == 1 && forall d :: d in cases ==> d.first.user < d.second.user
    ensures exists i: nat :: ReportedIn(Reports(cases), c, i)
  {
    hide Reports;
    var reports := Reports(cases);
    ReportsMeaning(cases);
    assert c in multiset(cases);
    var i :| 0 <= i < |reports| && KeyOfReport(reports[i]) == KeyOf(c);
    forall j | 0 <= j < |reports| && j != i ensures c !in reports[j].cases {
      assert KeyOfReport(reports[j]) != KeyOfReport(reports[i]);
      assert multiset(reports[j].cases)[c] == 0;
    }
    assert ReportedIn(reports, c, i);
  }

  // ---------- The order of comparisons and cases ----------

  ghost predicate IdsIncrease(submissions: seq<Submission>) {
    forall i, j :: 0 <= i < j < |submissions| ==> submissions[i].id < submissions[j].id
  }

  /** One comparison comes before another by the id of its first submission, then by that of its second. */
  ghost predicate InOrder(pairs: seq<Pair>) {
    forall i, j :: 0 <= i < j < |pairs| ==>
      pairs[i].0.id < pairs[j].0.id || (pairs[i].0.id == pairs[j].0.id && pairs[i].1.id < pairs[j].1.id)
  }

  lemma OrderedConcat(s: seq<Pair>, t: seq<Pair>)
    requires InOrder(s) && InOrder(t)
    requires forall p, q :: p in s && q in t ==> p.0.id < q.0.id || (p.0.id == q.0.id && p.1.id < q.1.id)
    ensures InOrder(s + t)
  {
    forall i, j | 0 <= i < j < |s + t|
      ensures (s + t)[i].0.id < (s + t)[j].0.id || ((s + t)[i].0.id == (s + t)[j].0.id && (s + t)[i].1.id < (s + t)[j].1.id)
    {
      if i < |s| <= j {
        assert (s + t)[i] in s && (s + t)[j] in t;
      }
    }
  }

  lemma {:induction false} ComparisonsOfInOrder(selectedIds: set<int>, s: Submission, others: seq<Submission>)
    requires IdsIncrease(others)
    ensures InOrder(ComparisonsOf(selectedIds, s, others))
    ensures forall p :: p in ComparisonsOf(selectedIds, s, others) ==> p.0 == s && p.1 in others
  {
    if others != [] {
      var front, last := others[..|others| - 1], others[|others| - 1];
      assert others == front + [last];
      ComparisonsOfInOrder(selectedIds, s, front);
      forall o | o in front ensures o.id < last.id {
        var i :| 0 <= i < |front| && front[i] == o;
        assert others[i] == o;
      }
      OrderedConcat(ComparisonsOf(selectedIds, s, front), if Compares(selectedIds, s, last) then [(s, last)] else []);
    }
  }

  lemma {:induction false} WhereIncreases(submissions: seq<Submission>, p: Submission -> bool)
    requires IdsIncrease(submissions)
    ensures IdsIncrease(Where(submissions, p))
  {
    var places := WherePlaces(submissions, p);
  }

  lemma {:induction false} ComparisonsUpToInOrder(selectedIds: set<int>, selected: seq<Submission>, history: seq<Submission>)
    requires IdsIncrease(selected) && IdsIncrease(history)
    ensures InOrder(ComparisonsUpTo(selectedIds, selected, history))
    ensures forall p :: p in ComparisonsUpTo(selectedIds, selected, history) ==> p.0 in selected
  {
    if selected != [] {
      hide ComparisonsOf, Where, InOrder;
      var front, last := selected[..|selected| - 1], selected[|selected| - 1];
      assert selected == front + [last];
      ComparisonsUpToInOrder(selectedIds, front, history);
      WhereIncreases(history, OfProblem(last.problem));
      ComparisonsOfInOrder(selectedIds, last, Where(history, OfProblem(last.problem)));
      forall o | o in front ensures o.id < last.id {
        var i :| 0 <= i < |front| && front[i] == o;
        assert selected[i] == o;
      }
      OrderedConcat(ComparisonsUpTo(selectedIds, front, history),
                    ComparisonsOf(selectedIds, last, Where(history, OfProblem(last.problem))));
    } else {
      assert ComparisonsUpTo(selectedIds, [], history) == [];
    }
  }

  /** The case is about this comparison, the lower user id first. */
  ghost predicate IsAbout(c: Case, pair: Pair) {
    if pair.0.user < pair.1.user then c.first == pair.0 && c.second == pair.1 else c.first == pair.1 && c.second == pair.0
  }

  lemma {:induction false} CasesPlaces(pairs: seq<Pair>, similarity: Similarity, threshold: real) returns (places: seq<nat>)
    ensures var cases := CasesOf(pairs, similarity, threshold);
      && |places| == |cases| && Increasing(places, |pairs|)
      && forall k :: 0 <= k < |places| ==> IsAbout(cases[k], pairs[places[k]])
  {
    if pairs == [] {
      places := [];
    } else {
      hide Increasing, CasesOf, IsAbout, CaseOf;
      var k := |pairs| - 1;
      places := CasesPlaces(pairs[..k], similarity, threshold);
      assert pairs == pairs[..k] + [pairs[k]];
      OneMoreCase(pairs[..k], pairs[k], similarity, threshold);
      OneMorePlace(places, k);
      PlacesWithin(places, k);
      if similarity(pairs[k].0.text, pairs[k].1.text) > threshold {
        CaseIsAbout(pairs[k], similarity(pairs[k].0.text, pairs[k].1.text));
        places := places + [k];
      }
    }
  }

  lemma CaseIsAbout(pair: Pair, similarity: real)
    ensures IsAbout(CaseOf(pair, similarity), pair)
  {
  }

  lemma Composed(outer: seq<nat>, n: nat, inner: seq<nat>) returns (places: seq<nat>)
    requires Increasing(outer, n) && Increasing(inner, |outer|)
    ensures |places| == |inner| && Increasing(places, n)
    ensures forall k :: 0 <= k < |inner| ==> places[k] == outer[inner[k]]
  {
    places := seq(|inner|, k requires 0 <= k < |inner| => outer[inner[k]]);
  }

  /**
   Submissions loaded by id are compared in the order of the ids of the first, then of the second submission; and
   each report lists its cases in the order of their comparisons.
   */
  lemma CasesFollowComparisons(selected: seq<Submission>, history: seq<Submission>, similarity: Similarity, threshold: real, i: nat)
    returns (places: seq<nat>)
    requires IdsIncrease(selected) && IdsIncrease(history)
    requires i < |Reports(CasesOf(Comparisons(selected, history), similarity, threshold))|
    ensures var pairs := Comparisons(selected, history);
      var listed := Reports(CasesOf(pairs, similarity, threshold))[i].cases;
      && InOrder(pairs)
      && |places| == |listed| && Increasing(places, |pairs|)
      && forall k :: 0 <= k < |listed| ==> IsAbout(listed[k], pairs[places[k]])
  {
    var pairs := Comparisons(selected, history);
    var cases := CasesOf(pairs, similarity, threshold);
    ComparisonsUpToInOrder(Ids(selected), selected, history);
    hide Increasing, IsAbout, InOrder, Comparisons, CasesOf, Where, ReportKeys;
    var outer := CasesPlaces(pairs, similarity, threshold);
    var inner := WherePlaces(cases, HasKey(ReportKeys(cases)[i]));
    PlacesWithin(inner, |cases|);
    places := Composed(outer, |pairs|, inner);
  }

  lemma PlacesWithin(places: seq<nat>, n: nat)
    requires Increasing(places, n)
    ensures forall k :: 0 <= k < |places| ==> places[k] < n
  {
  }

  /** The similarity that the program uses is symmetric, whatever characters its filter keeps. */
  lemma EditSimilarityIsSymmetric(filter: string -> string)
    ensures Symmetric((s, t) => EditDistances.Similarity(filter(s), filter(t)))
  {
    forall s, t ensures EditDistances.Similarity(filter(s), filter(t)) == EditDistances.Similarity(filter(t), filter(s)) {
      EditDistances.SimilarityIsProportion(filter(s), filter(t));
    }
  }

  // ---------- How the callers choose ----------

  predicate ById(s: Submission, t: Submission) {
    s.id <= t.id
  }

  function Touched(stored: seq<Submission>, chosen: Submission -> bool): Submission -> bool {
    (s: Submission) => exists t :: t in stored && chosen(t) && t.problem == s.problem
  }

  /** All submissions to the problems that a chosen submission is made to. */
  function History(stored: seq<Submission>, chosen: Submission -> bool): seq<Submission> {
    OrderBy(Where(stored, Touched(stored, chosen)), ById)
  }

  function Selected(stored: seq<Submission>, chosen: Submission -> bool): seq<Submission> {
    Where(History(stored, chosen), chosen)
  }

  lemma {:induction false} WhereUnique(submissions: seq<Submission>, p: Submission -> bool)
    requires UniqueIds(submissions)
    ensures UniqueIds(Where(submissions, p))
  {
    if submissions != [] {
      var front, last := submissions[..|submissions| - 1], submissions[|submissions| - 1];
      WhereUnique(front, p);
      WhereMembers(front, p);
      forall s | s in Where(front, p) ensures s.id != last.id {
        var i :| 0 <= i < |front| && front[i] == s;
        assert submissions[i] == s;
      }
    }
  }

  lemma SortedUnique(s: seq<Submission>, t: seq<Submission>)
    requires UniqueIds(s) && multiset(s) == multiset(t)
    ensures UniqueIds(t)
  {
    NoRepeats(s);
    NoRepeats(t);
    SameElements(s, t);
    forall i, j | 0 <= i < j < |t| ensures t[i].id != t[j].id {
      assert t[i] in s && t[j] in s && t[i] != t[j];
      SelectedIdsDiffer(s, t[i], t[j]);
    }
  }

  /**
   Reports by date or by user lose nothing by loading only the touched problems: of all stored submissions,
   exactly the pairs of one problem and different users with a chosen one among them are compared, each once.
   */
  lemma CallersCompareEverything(stored: seq<Submission>, chosen: Submission -> bool, x: Submission, y: Submission)
    requires UniqueIds(stored) && x in stored && y in stored && x != y
    ensures var compared := multiset(Comparisons(Selected(stored, chosen), History(stored, chosen)));
      compared[(x, y)] + compared[(y, x)]
        == if x.problem == y.problem && x.user != y.user && (chosen(x) || chosen(y)) then 1 else 0
  {
    var touched := Touched(stored, chosen);
    var history, selected := History(stored, chosen), Selected(stored, chosen);
    WhereUnique(stored, touched);
    SortedUnique(Where(stored, touched), history);
    WhereUnique(history, chosen);
    WhereMembers(stored, touched);
    SameElements(history, Where(stored, touched));
    WhereMembers(history, chosen);
    EachPairOnce(selected, history, x, y);
  }
}
