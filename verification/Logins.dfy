/** Assigning logins to the competitors of a contest. Logins are compared after folding each character's case. */
module Logins {
  import opened Options
  import opened Linq
  import opened Decimal

  datatype Competitor = Competitor(id: int, registrationDate: int, userName: Option<string>)

  datatype Login = Login(name: string, password: string)

  datatype LoginError = DuplicateLogins | TooFewLogins

  /** Case folding of one character. */
  type Folding = char -> char

  function Fold(s: string, upper: Folding): string {
    seq(|s|, i requires 0 <= i < |s| => upper(s[i]))
  }

  /** Names are the same login when they agree, character by character, after folding. */
  lemma SameLogin(s: string, t: string, upper: Folding)
    ensures Fold(s, upper) == Fold(t, upper) <==> |s| == |t| && forall i :: 0 <= i < |s| ==> upper(s[i]) == upper(t[i])
  {
    if Fold(s, upper) == Fold(t, upper) {
      assert |Fold(s, upper)| == |s| && |Fold(t, upper)| == |t|;
      forall i | 0 <= i < |s| ensures upper(s[i]) == upper(t[i]) {
        assert Fold(s, upper)[i] == upper(s[i]) && Fold(t, upper)[i] == upper(t[i]);
      }
    }
  }

  /** No two logins differ only in case. */
  ghost predicate DistinctNames(logins: seq<Login>, upper: Folding) {
    forall i, j :: 0 <= i < j < |logins| ==> Fold(logins[i].name, upper) != Fold(logins[j].name, upper)
  }

  // ---------- What is available, and who is waiting ----------

  function Unlike(name: string, upper: Folding): Login -> bool {
    (l: Login) => Fold(l.name, upper) != Fold(name, upper)
  }

  /** The logins left after removing those that competitors already have. */
  function Free(logins: seq<Login>, competitors: seq<Competitor>, upper: Folding): seq<Login> {
    if competitors == [] then logins
    else
      var rest, last := Free(logins, competitors[..|competitors| - 1], upper), competitors[|competitors| - 1];
      if last.userName.None? then rest else Where(rest, Unlike(last.userName.value, upper))
  }

  function Unnamed(competitors: seq<Competitor>): nat -> bool {
    (i: nat) => i < |competitors| && competitors[i].userName.None?
  }

  function Indices(n: nat): (r: seq<nat>)
    ensures |r| == n && forall i :: 0 <= i < n ==> r[i] == i
  {
    seq(n, i => i)
  }

  predicate RegisteredBefore(x: Competitor, y: Competitor) {
    x.registrationDate < y.registrationDate || (x.registrationDate == y.registrationDate && x.id <= y.id)
  }

  function ByRegistration(competitors: seq<Competitor>): (nat, nat) -> bool {
    (i: nat, j: nat) =>
      if i < |competitors| && j < |competitors| then RegisteredBefore(competitors[i], competitors[j])
      else i >= |competitors| && (j >= |competitors| ==> i <= j)
  }

  /** The positions of the competitors without a login, by registration date, then id. */
  function Queue(competitors: seq<Competitor>): seq<nat> {
    OrderBy(Where(Indices(|competitors|), Unnamed(competitors)), ByRegistration(competitors))
  }

  // ---------- The assignment ----------

  /** The first `k` of the queue have received the first `k` free logins; everybody else is as before. */
  ghost predicate Assigned(before: seq<Competitor>, now: seq<Competitor>, queue: seq<nat>, free: seq<Login>, k: nat)
    requires k <= |queue| && k <= |free|
  {
    && |now| == |before|
    && (forall i :: 0 <= i < k ==> queue[i] < |before| && now[queue[i]] == before[queue[i]].(userName := Some(free[i].name)))
    && (forall i :: 0 <= i < |before| && i !in queue[..k] ==> now[i] == before[i])
  }

  method AssignLogins(competitors: array<Competitor>, logins: seq<Login>, upper: Folding) returns (error: Option<LoginError>)
    modifies competitors
    ensures error == if !DistinctNames(logins, upper) then Some(DuplicateLogins)
                     else if |Free(logins, old(competitors[..]), upper)| < |Queue(old(competitors[..]))| then Some(TooFewLogins)
                     else None
    ensures error.Some? ==> competitors[..] == old(competitors[..])
    ensures error.None? ==>
              var before := old(competitors[..]);
              && |Queue(before)| <= |Free(logins, before, upper)|
              && Assigned(before, competitors[..], Queue(before), Free(logins, before, upper), |Queue(before)|)
  {
    hide Queue, Free, Assigned;
    var ordered := CollectLogins(logins, upper);
    if !ordered {
      return Some(DuplicateLogins);
    }
    ghost var before := competitors[..];
    var available := RemoveTaken(competitors, logins, upper);
    var queue := Queue(competitors[..]);
    if |available| < |queue| {
      return Some(TooFewLogins);
    }
    QueueMeaning(before);
    HandOut(competitors, queue, available);
    return None;
  }

  /** Fails on logins that differ at most in case. */
  method CollectLogins(logins: seq<Login>, upper: Folding) returns (ordered: bool)
    ensures ordered <==> DistinctNames(logins, upper)
  {
    var available: seq<Login> := [];
    for i := 0 to |logins|
      invariant available == logins[..i]
      invariant DistinctNames(available, upper)
    {
      if exists j :: 0 <= j < |available| && Fold(available[j].name, upper) == Fold(logins[i].name, upper) {
        return false;
      }
      available := available + [logins[i]];
    }
    assert logins[..|logins|] == logins;
    return true;
  }

  method RemoveTaken(competitors: array<Competitor>, logins: seq<Login>, upper: Folding) returns (available: seq<Login>)
    ensures available == Free(logins, competitors[..], upper)
  {
    available := logins;
    for i := 0 to competitors.Length
      invariant available == Free(logins, competitors[..i], upper)
    {
      assert competitors[..i + 1][..i] == competitors[..i];
      if competitors[i].userName.Some? {
        available := Where(available, Unlike(competitors[i].userName.value, upper));
      }
    }
    assert competitors[..competitors.Length] == competitors[..];
  }

  method HandOut(competitors: array<Competitor>, queue: seq<nat>, free: seq<Login>)
    requires |queue| <= |free| && forall i :: 0 <= i < |queue| ==> queue[i] < competitors.Length
    requires forall i, j :: 0 <= i < j < |queue| ==> queue[i] != queue[j]
    modifies competitors
    ensures Assigned(old(competitors[..]), competitors[..], queue, free, |queue|)
  {
    ghost var before := competitors[..];
    var available := free;
    for k := 0 to |queue|
      invariant available == free[k..]
      invariant Assigned(before, competitors[..], queue, free, k)
    {
      var login := available[0];
      available := available[1..];
      NextAssigned(before, competitors[..], queue, free, k);
      competitors[queue[k]] := competitors[queue[k]].(userName := Some(login.name));
    }
  }

  lemma NextAssigned(before: seq<Competitor>, now: seq<Competitor>, queue: seq<nat>, free: seq<Login>, k: nat)
    requires k < |queue| && k < |free| && queue[k] < |before|
    requires forall i, j :: 0 <= i < j < |queue| ==> queue[i] != queue[j]
    requires Assigned(before, now, queue, free, k)
    ensures Assigned(before, now[queue[k] := now[queue[k]].(userName := Some(free[k].name))], queue, free, k + 1)
  {
    assert queue[..k + 1] == queue[..k] + [queue[k]];
    assert queue[k] !in queue[..k];
  }

  lemma ByRegistrationIsOrder(competitors: seq<Competitor>)
    ensures IsOrder(ByRegistration(competitors))
  {
  }

  lemma {:induction false} IndicesOnce(n: nat, x: nat)
    ensures multiset(Indices(n))[x] == if x < n then 1 else 0
  {
    if n > 0 {
      IndicesOnce(n - 1, x);
      assert Indices(n) == Indices(n - 1) + [n - 1];
    } else {
      assert Indices(n) == [];
    }
  }

  lemma QueueOrder(competitors: seq<Competitor>)
    ensures var queue := Queue(competitors);
      && (forall i: nat :: i in queue <==> i < |competitors| && competitors[i].userName.None?)
      && (forall i, j :: 0 <= i < j < |queue| ==> queue[i] != queue[j])
      && (forall i, j :: 0 <= i < j < |queue| ==> ByRegistration(competitors)(queue[i], queue[j]))
  {
    var n := |competitors|;
    var waiting, queue := Where(Indices(n), Unnamed(competitors)), Queue(competitors);
    WhereMembers(Indices(n), Unnamed(competitors));
    SameElements(queue, waiting);
    ByRegistrationIsOrder(competitors);
    OrderBySorted(waiting, ByRegistration(competitors));
    forall x ensures multiset(queue)[x] <= 1 {
      WhereMultiset(Indices(n), Unnamed(competitors), x);
      IndicesOnce(n, x);
    }
    NoRepeats(queue);
    forall i: nat ensures i in queue <==> i < n && competitors[i].userName.None? {
      assert i < n ==> Indices(n)[i] == i;
    }
  }

  /** The queue holds each competitor without a login once, in the order of registration. */
  lemma QueueMeaning(competitors: seq<Competitor>)
    ensures var queue := Queue(competitors);
      && (forall i: nat :: i in queue <==> i < |competitors| && competitors[i].userName.None?)
      && (forall k :: 0 <= k < |queue| ==> queue[k] < |competitors|)
      && (forall i, j :: 0 <= i < j < |queue| ==> queue[i] != queue[j])
      && (forall i, j :: 0 <= i < j < |queue| ==>
            var x, y := competitors[queue[i]], competitors[queue[j]];
            x.registrationDate < y.registrationDate || (x.registrationDate == y.registrationDate && x.id <= y.id))
  {
    hide Queue;
    QueueOrder(competitors);
    var queue := Queue(competitors);
    forall k | 0 <= k < |queue| ensures queue[k] < |competitors| {
      assert queue[k] in queue;
    }
    forall i, j | 0 <= i < j < |queue|
      ensures var x, y := competitors[queue[i]], competitors[queue[j]];
        x.registrationDate < y.registrationDate || (x.registrationDate == y.registrationDate && x.id <= y.id)
    {
      assert ByRegistration(competitors)(queue[i], queue[j]);
    }
  }

  // ---------- What the assignment achieves ----------

  /** The competitor's login differs from `name` by more than case. */
  ghost predicate Differs(name: string, competitor: Competitor, upper: Folding) {
    competitor.userName.Some? ==> Fold(name, upper) != Fold(competitor.userName.value, upper)
  }

  lemma {:induction false} FreeMembers(logins: seq<Login>, competitors: seq<Competitor>, upper: Folding, l: Login, i: nat)
    requires l in Free(logins, competitors, upper)
    ensures l in logins
    ensures i < |competitors| ==> Differs(l.name, competitors[i], upper)
  {
    if competitors != [] {
      var front, last := competitors[..|competitors| - 1], competitors[|competitors| - 1];
      if last.userName.Some? {
        WhereMembers(Free(logins, front, upper), Unlike(last.userName.value, upper));
      }
      FreeMembers(logins, front, upper, l, i);
    }
  }

  lemma {:induction false} FreeCount(logins: seq<Login>, competitors: seq<Competitor>, upper: Folding)
    requires DistinctNames(logins, upper)
    ensures DistinctNames(Free(logins, competitors, upper), upper)
    ensures |Free(logins, competitors, upper)| >= |logins| - |Named(competitors)|
  {
    hide DistinctNames;
    if competitors != [] {
      var front, last := competitors[..|competitors| - 1], competitors[|competitors| - 1];
      FreeCount(logins, front, upper);
      if last.userName.Some? {
        RemovesAtMostOne(Free(logins, front, upper), last.userName.value, upper);
      }
    }
  }

  function Named(competitors: seq<Competitor>): seq<Competitor> {
    if competitors == [] then []
    else
      Named(competitors[..|competitors| - 1])
      + (if competitors[|competitors| - 1].userName.Some? then [competitors[|competitors| - 1]] else [])
  }

  lemma DistinctOneMore(logins: seq<Login>, l: Login, upper: Folding)
    ensures DistinctNames(logins + [l], upper)
       <==> DistinctNames(logins, upper) && forall x :: x in logins ==> Fold(x.name, upper) != Fold(l.name, upper)
  {
    var more := logins + [l];
    assert forall i :: 0 <= i < |logins| ==> more[i] == logins[i];
    if DistinctNames(more, upper) {
      forall x | x in logins ensures Fold(x.name, upper) != Fold(l.name, upper) {
        var i :| 0 <= i < |logins| && logins[i] == x;
        assert more[i] == x && more[|logins|] == l;
      }
    }
  }

  /** A username takes away at most one of the logins. */
  lemma {:induction false} RemovesAtMostOne(logins: seq<Login>, name: string, upper: Folding)
    requires DistinctNames(logins, upper)
    ensures DistinctNames(Where(logins, Unlike(name, upper)), upper)
    ensures |Where(logins, Unlike(name, upper))| >= |logins| - 1
    ensures (forall x :: x in logins ==> Fold(x.name, upper) != Fold(name, upper)) ==>
              Where(logins, Unlike(name, upper)) == logins
  {
    hide DistinctNames, Fold;
    if logins != [] {
      var front, last := logins[..|logins| - 1], logins[|logins| - 1];
      assert logins == front + [last];
      DistinctOneMore(front, last, upper);
      RemovesAtMostOne(front, name, upper);
      WhereOneMore(front, last, Unlike(name, upper));
      WhereMembers(front, Unlike(name, upper));
      DistinctOneMore(Where(front, Unlike(name, upper)), last, upper);
    }
  }

  /** The place of a competitor without a login in the queue. */
  lemma PlaceInQueue(before: seq<Competitor>, now: seq<Competitor>, free: seq<Login>, i: nat) returns (k: nat)
    requires |Queue(before)| <= |free| && Assigned(before, now, Queue(before), free, |Queue(before)|)
    requires i < |before| && before[i].userName.None?
    ensures k < |Queue(before)| && Queue(before)[k] == i && now[i] == before[i].(userName := Some(free[k].name))
  {
    hide Queue;
    QueueMeaning(before);
    assert i in Queue(before);
    k :| 0 <= k < |Queue(before)| && Queue(before)[k] == i;
  }

  lemma NamedStay(before: seq<Competitor>, now: seq<Competitor>, free: seq<Login>, i: nat)
    requires |Queue(before)| <= |free| && Assigned(before, now, Queue(before), free, |Queue(before)|)
    requires i < |before| && before[i].userName.Some?
    ensures now[i] == before[i]
  {
    hide Queue;
    QueueMeaning(before);
    assert i !in Queue(before);
    assert Queue(before)[..|Queue(before)|] == Queue(before);
  }

  /** After an assignment everybody has a login, and existing ones are as before. */
  lemma EverybodyIsNamed(before: seq<Competitor>, now: seq<Competitor>, free: seq<Login>)
    requires |Queue(before)| <= |free| && Assigned(before, now, Queue(before), free, |Queue(before)|)
    ensures |now| == |before| && forall i :: 0 <= i < |now| ==> now[i].userName.Some?
    ensures forall i :: 0 <= i < |before| && before[i].userName.Some? ==> now[i] == before[i]
  {
    forall i | 0 <= i < |now| ensures now[i].userName.Some? && (before[i].userName.Some? ==> now[i] == before[i]) {
      if before[i].userName.None? {
        var k := PlaceInQueue(before, now, free, i);
      } else {
        NamedStay(before, now, free, i);
      }
    }
  }

  /** A new login comes from the input and differs, also after folding, from every other login of the contest. */
  lemma NewLoginsDiffer(before: seq<Competitor>, now: seq<Competitor>, logins: seq<Login>, upper: Folding, i: nat, j: nat)
    requires DistinctNames(logins, upper) && |Queue(before)| <= |Free(logins, before, upper)|
    requires Assigned(before, now, Queue(before), Free(logins, before, upper), |Queue(before)|)
    requires i < |now| && j < |now| && i != j && before[i].userName.None?
    ensures now[i].userName.Some? && now[j].userName.Some?
    ensures Fold(now[i].userName.value, upper) != Fold(now[j].userName.value, upper)
    ensures exists l :: l in logins && now[i].userName == Some(l.name)
  {
    hide Queue, Fold;
    var free := Free(logins, before, upper);
    FreeCount(logins, before, upper);
    var k := PlaceInQueue(before, now, free, i);
    assert free[k] in free;
    FreeMembers(logins, before, upper, free[k], j);
    if before[j].userName.None? {
      var l := PlaceInQueue(before, now, free, j);
      assert k != l;
    } else {
      NamedStay(before, now, free, j);
    }
  }

  /** Of two new logins, the earlier registration has the one that comes earlier among the free logins. */
  lemma LoginsFollowRegistration(before: seq<Competitor>, now: seq<Competitor>, free: seq<Login>, k: nat, l: nat)
    requires |Queue(before)| <= |free| && Assigned(before, now, Queue(before), free, |Queue(before)|)
    requires k < l < |Queue(before)|
    ensures var i, j := Queue(before)[k], Queue(before)[l];
      && i < |before| && j < |before|
      && (before[i].registrationDate < before[j].registrationDate
          || (before[i].registrationDate == before[j].registrationDate && before[i].id <= before[j].id))
      && now[i].userName == Some(free[k].name) && now[j].userName == Some(free[l].name)
  {
    hide Queue;
    QueueMeaning(before);
  }

  // ---------- Generated logins ----------

  const PREFIX := "olymp"

  function GeneratedName(i: nat): string {
    PREFIX + Padded(i)
  }

  /** How generated logins look. */
  lemma GeneratedNames()
    ensures GeneratedName(1) == "olymp001" && GeneratedName(42) == "olymp042" && GeneratedName(999) == "olymp999"
    ensures GeneratedName(1000) == "olymp1000"
  {
    assert Digits(1) == ['1'] && Digits(4) == ['4'] && Digits(9) == ['9'] && Digits(10) == ['1', '0'];
    assert Digits(42) == ['4', '2'] && Digits(99) == ['9', '9'] && Digits(100) == ['1', '0', '0'];
    assert Digits(999) == ['9', '9', '9'] && Digits(1000) == ['1', '0', '0', '0'];
  }

  /** Folding leaves digits alone. */
  ghost predicate KeepsDigits(upper: Folding) {
    forall c :: IsDigit(c) ==> upper(c) == c
  }

  lemma GeneratedNamesDiffer(i: nat, j: nat, upper: Folding)
    requires KeepsDigits(upper) && Fold(GeneratedName(i), upper) == Fold(GeneratedName(j), upper)
    ensures i == j
  {
    FoldedDigits(i, upper);
    FoldedDigits(j, upper);
    ValueOfPadded(i);
    ValueOfPadded(j);
  }

  lemma FoldedDigits(i: nat, upper: Folding)
    requires KeepsDigits(upper)
    ensures |GeneratedName(i)| >= |PREFIX| && Fold(GeneratedName(i), upper)[|PREFIX|..] == Padded(i)
  {
  }

  /** So many logins, numbered from one; `passwords` are drawn at random. */
  function Generated(count: nat, passwords: nat -> string): (logins: seq<Login>)
    ensures |logins| == count
    ensures forall k :: 0 <= k < count ==> logins[k].name == GeneratedName(k + 1)
  {
    seq(count, k requires 0 <= k < count => Login(GeneratedName(k + 1), passwords(k + 1)))
  }

  /** Some competitor already has this login, up to case. */
  predicate IsTaken(name: string, competitors: seq<Competitor>, upper: Folding) {
    exists i :: 0 <= i < |competitors| && competitors[i].userName.Some?
                && Fold(competitors[i].userName.value, upper) == Fold(name, upper)
  }

  /** The numbers up to `count` whose generated login is already taken. */
  function TakenNumbers(count: nat, competitors: seq<Competitor>, upper: Folding): set<nat> {
    set k: nat | 1 <= k <= count && IsTaken(GeneratedName(k), competitors, upper)
  }

  /**
   Generates `count` logins, the number of competitors counted a moment earlier, and assigns them. It fails
   exactly when the logins still free are fewer than the competitors waiting for one.
   */
  method GenerateLogins(competitors: array<Competitor>, count: nat, passwords: nat -> string, upper: Folding)
    returns (error: Option<LoginError>)
    requires KeepsDigits(upper)
    modifies competitors
    ensures var before := old(competitors[..]);
      error == if |Queue(before)| + |TakenNumbers(count, before, upper)| <= count then None else Some(TooFewLogins)
    ensures count >= competitors.Length ==> error == None
    ensures error.Some? ==> competitors[..] == old(competitors[..])
    ensures error.None? ==> forall i :: 0 <= i < competitors.Length ==>
              if old(competitors[i]).userName.Some? then competitors[i] == old(competitors[i])
              else exists k: nat :: 1 <= k <= count && competitors[i] == old(competitors[i]).(userName := Some(GeneratedName(k)))
    ensures error.None? ==> forall i, j ::
              0 <= i < competitors.Length && 0 <= j < competitors.Length && i != j && old(competitors[i]).userName.None? ==>
                && competitors[i].userName.Some? && competitors[j].userName.Some?
                && Fold(competitors[i].userName.value, upper) != Fold(competitors[j].userName.value, upper)
  {
    hide Queue, Free, Assigned, GeneratedName, TakenNumbers, KeepsDigits, Fold, DistinctNames;
    var logins: seq<Login> := [];
    for i := 1 to count + 1
      invariant |logins| == i - 1
      invariant forall k :: 0 <= k < i - 1 ==> logins[k] == Login(GeneratedName(k + 1), passwords(k + 1))
    {
      logins := logins + [Login(GeneratedName(i), passwords(i))];
    }
    assert logins == Generated(count, passwords);
    ghost var before := competitors[..];
    assert forall i :: 0 <= i < competitors.Length ==> before[i] == old(competitors[i]);
    GeneratedNamesAreDistinct(count, passwords, upper);
    FreeGenerated(count, passwords, before, upper);
    if count >= competitors.Length {
      GeneratedLoginsSuffice(count, passwords, before, upper);
    }
    error := AssignLogins(competitors, logins, upper);
    if error.None? {
      ghost var now := competitors[..];
      assert forall i :: 0 <= i < competitors.Length ==> now[i] == competitors[i];
      forall i, j | 0 <= i < |now| && 0 <= j < |now| && i != j && before[i].userName.None?
        ensures now[i].userName.Some? && now[j].userName.Some?
        ensures Fold(now[i].userName.value, upper) != Fold(now[j].userName.value, upper)
      {
        AssignedLength(before, now, logins, upper);
        NewLoginsDiffer(before, now, logins, upper, i, j);
      }
      forall i | 0 <= i < |now|
        ensures if before[i].userName.Some? then now[i] == before[i]
                else exists k: nat :: 1 <= k <= count && now[i] == before[i].(userName := Some(GeneratedName(k)))
      {
        NewNameIsGenerated(before, now, count, passwords, upper, i);
      }
    }
  }

  lemma AssignedLength(before: seq<Competitor>, now: seq<Competitor>, logins: seq<Login>, upper: Folding)
    requires |Queue(before)| <= |Free(logins, before, upper)|
    requires Assigned(before, now, Queue(before), Free(logins, before, upper), |Queue(before)|)
    ensures |now| == |before|
  {
  }

  /** Existing logins stay; a new one is one of those generated. */
  lemma NewNameIsGenerated(before: seq<Competitor>, now: seq<Competitor>, count: nat, passwords: nat -> string, upper: Folding, i: nat)
    requires |Queue(before)| <= |Free(Generated(count, passwords), before, upper)|
    requires Assigned(before, now, Queue(before), Free(Generated(count, passwords), before, upper), |Queue(before)|)
    requires i < |before|
    ensures if before[i].userName.Some? then now[i] == before[i]
            else exists k: nat :: 1 <= k <= count && now[i] == before[i].(userName := Some(GeneratedName(k)))
  {
    hide Queue, Free, GeneratedName;
    var logins := Generated(count, passwords);
    var free := Free(logins, before, upper);
    if before[i].userName.Some? {
      NamedStay(before, now, free, i);
    } else {
      var place := PlaceInQueue(before, now, free, i);
      assert free[place] in free;
      FreeMembers(logins, before, upper, free[place], i);
      var k :| 0 <= k < count && logins[k] == free[place];
      assert now[i] == before[i].(userName := Some(GeneratedName(k + 1)));
    }
  }

  lemma GeneratedNamesAreDistinct(count: nat, passwords: nat -> string, upper: Folding)
    requires KeepsDigits(upper)
    ensures DistinctNames(Generated(count, passwords), upper)
  {
    hide Fold, GeneratedName;
    var logins := Generated(count, passwords);
    forall i, j | 0 <= i < j < |logins| ensures Fold(logins[i].name, upper) != Fold(logins[j].name, upper) {
      if Fold(logins[i].name, upper) == Fold(logins[j].name, upper) {
        GeneratedNamesDiffer(i + 1, j + 1, upper);
      }
    }
  }

  function Untaken(competitors: seq<Competitor>, upper: Folding): Login -> bool {
    (l: Login) => !IsTaken(l.name, competitors, upper)
  }

  /** The free logins are those that no competitor has. */
  lemma {:induction false} FreeIsUntaken(logins: seq<Login>, competitors: seq<Competitor>, upper: Folding)
    ensures Free(logins, competitors, upper) == Where(logins, Untaken(competitors, upper))
  {
    hide Where, Fold, IsTaken;
    if competitors == [] {
      NobodyTakes(logins, upper);
    } else {
      var front, last := competitors[..|competitors| - 1], competitors[|competitors| - 1];
      FreeIsUntaken(logins, front, upper);
      assert competitors == front + [last];
      forall l: Login ensures Untaken(competitors, upper)(l)
                         <==> Untaken(front, upper)(l) && (last.userName.Some? ==> Unlike(last.userName.value, upper)(l))
      {
        TakenOneMore(l.name, front, last, upper);
      }
      if last.userName.Some? {
        WhereBoth(logins, Untaken(front, upper), Unlike(last.userName.value, upper), Untaken(competitors, upper));
      } else {
        WhereSame(logins, Untaken(front, upper), Untaken(competitors, upper));
      }
    }
  }

  lemma NobodyHas(l: Login, upper: Folding)
    ensures Untaken([], upper)(l)
  {
  }

  lemma {:induction false} NobodyTakes(logins: seq<Login>, upper: Folding)
    ensures Where(logins, Untaken([], upper)) == logins
  {
    hide IsTaken, Untaken;
    if logins != [] {
      NobodyTakes(logins[..|logins| - 1], upper);
      NobodyHas(logins[|logins| - 1], upper);
    }
  }

  lemma TakenOneMore(name: string, competitors: seq<Competitor>, c: Competitor, upper: Folding)
    ensures IsTaken(name, competitors + [c], upper)
       <==> IsTaken(name, competitors, upper) || (c.userName.Some? && Fold(c.userName.value, upper) == Fold(name, upper))
  {
    hide Fold;
    var more := competitors + [c];
    assert more[|competitors|] == c;
    if IsTaken(name, competitors, upper) {
      var i :| 0 <= i < |competitors| && competitors[i].userName.Some?
               && Fold(competitors[i].userName.value, upper) == Fold(name, upper);
      assert more[i] == competitors[i];
    }
  }

  /** How many of the generated logins are free. */
  lemma {:induction false} FreeGenerated(count: nat, passwords: nat -> string, competitors: seq<Competitor>, upper: Folding)
    ensures |Free(Generated(count, passwords), competitors, upper)| == count - |TakenNumbers(count, competitors, upper)|
  {
    hide Free, IsTaken, GeneratedName, Where;
    var logins := Generated(count, passwords);
    FreeIsUntaken(logins, competitors, upper);
    if count == 0 {
      WhereMembers(logins, Untaken(competitors, upper));
      assert TakenNumbers(count, competitors, upper) == {};
    } else {
      var front := Generated(count - 1, passwords);
      assert logins == front + [logins[count - 1]];
      WhereOneMore(front, logins[count - 1], Untaken(competitors, upper));
      FreeIsUntaken(front, competitors, upper);
      FreeGenerated(count - 1, passwords, competitors, upper);
      TakenUpTo(count, competitors, upper);
    }
  }

  lemma TakenUpTo(count: nat, competitors: seq<Competitor>, upper: Folding)
    requires count > 0
    ensures |TakenNumbers(count, competitors, upper)|
         == |TakenNumbers(count - 1, competitors, upper)| + (if IsTaken(GeneratedName(count), competitors, upper) then 1 else 0)
  {
    hide IsTaken, GeneratedName;
    assert TakenNumbers(count, competitors, upper)
        == TakenNumbers(count - 1, competitors, upper) + (if IsTaken(GeneratedName(count), competitors, upper) then {count} else {});
  }

  /** At least as many generated logins as competitors never run out, whatever usernames there already are. */
  lemma GeneratedLoginsSuffice(count: nat, passwords: nat -> string, competitors: seq<Competitor>, upper: Folding)
    requires KeepsDigits(upper) && count >= |competitors|
    ensures |Queue(competitors)| + |TakenNumbers(count, competitors, upper)| <= count
  {
    hide Queue, Free, TakenNumbers;
    GeneratedNamesAreDistinct(count, passwords, upper);
    FreeCount(Generated(count, passwords), competitors, upper);
    FreeGenerated(count, passwords, competitors, upper);
    QueueLength(competitors);
  }

  /** A competitor who registers between the count and the assignment can be one too many. */
  lemma LateRegistrationExhausts(upper: Folding) returns (counted: seq<Competitor>, late: Competitor)
    ensures |Queue(counted + [late])| + |TakenNumbers(|counted|, counted + [late], upper)| > |counted|
  {
    counted, late := [Competitor(1, 0, None)], Competitor(2, 1, None);
    QueueLength(counted + [late]);
    assert (counted + [late])[..1] == counted && counted[..0] == [];
    assert Named(counted) == [] && Named(counted + [late]) == [];
  }

  lemma QueueLength(competitors: seq<Competitor>)
    ensures |Queue(competitors)| == |competitors| - |Named(competitors)|
  {
    var n := |competitors|;
    SameElements(Queue(competitors), Where(Indices(n), Unnamed(competitors)));
    UnnamedCount(competitors, n);
    assert competitors[..n] == competitors;
  }

  lemma {:induction false} UnnamedCount(competitors: seq<Competitor>, n: nat)
    requires n <= |competitors|
    ensures |Where(Indices(n), Unnamed(competitors))| == n - |Named(competitors[..n])|
  {
    if n > 0 {
      UnnamedCount(competitors, n - 1);
      assert Indices(n) == Indices(n - 1) + [n - 1];
      var last: nat := n - 1;
      WhereOneMore<nat>(Indices(n - 1), last, Unnamed(competitors));
      assert competitors[..n][..n - 1] == competitors[..n - 1];
    } else {
      assert Indices(0) == [];
    }
  }
}
