/**
 Registering individuals and teams for a contest, and deleting them again. Each operation is one serializable
 transaction over the tables; a team's members are also printed into one text and parsed back from it.
 */
module Registration {
  import opened Options
  import opened Decimal
  import opened Strings

  datatype OlympUser = OlympUser(firstName: Option<string>, lastName: Option<string>, organization: Option<int>,
                                 details: Option<string>, isHidden: bool)

  datatype Contest = Contest(isHidden: bool, isAcm: bool, endTime: int)

  datatype Competitor = Competitor(contest: int, name: string, organization: Option<int>, coach: Option<int>, isHidden: bool,
                                   isOutOfCompetition: bool, registrationDate: int, members: set<int>,
                                   memberInfos: Option<string>)

  datatype Error = NotFound | NotAvailable | AlreadyRegistered | IncorrectInformation | NotDifferent | InvalidValue
                 | HasRecords | IdentityFailure

  /** `busy` are the competitors with submissions or messages; an organization may lack a name. */
  datatype Tables = Tables(now: int, contests: map<int, Contest>, users: map<int, OlympUser>, organizations: map<int, Option<string>>,
                           competitors: map<int, Competitor>, busy: set<int>)

  /**
   The caller provides the identity of the new row, and whether the identity store accepts it. Between the
   operations on competitors the clock and all other tables may change in any way.
   */
  datatype Operation =
    | RegisterIndividual(contest: int, user: int, outOfCompetition: bool, newId: int, accepted: bool)
    | RegisterTeam(contest: int, organization: int, coach: int, name: string, participants: seq<string>, newId: int, accepted: bool)
    | Delete(contest: int, competitor: int, accepted: bool)
    | Elsewhere(now: int, contests: map<int, Contest>, users: map<int, OlympUser>, organizations: map<int, Option<string>>,
                busy: set<int>)

  // ---------- The operations on the tables ----------

  function Text(s: Option<string>): string {
    if s.Some? then s.value else ""
  }

  predicate Registered(t: Tables, contest: int, users: set<int>) {
    exists c :: c in t.competitors && t.competitors[c].contest == contest && t.competitors[c].members * users != {}
  }

  predicate Open(t: Tables, contest: int, isAcm: bool)
    requires contest in t.contests
  {
    !t.contests[contest].isHidden && t.contests[contest].isAcm == isAcm && t.now <= t.contests[contest].endTime
  }

  function OrganizationName(t: Tables, user: OlympUser): Option<string> {
    if user.organization.Some? && user.organization.value in t.organizations then t.organizations[user.organization.value]
    else None
  }

  function ParticipantName(user: OlympUser, organizationName: Option<string>): string {
    Text(user.firstName) + " " + Text(user.lastName) + ", " + Text(organizationName)
    + (if user.details.Some? then ", " + user.details.value else "")
  }

  function Individual(t: Tables, op: Operation): Result<Competitor, Error>
    requires op.RegisterIndividual?
  {
    if op.contest !in t.contests then Failure(NotFound)
    else if !Open(t, op.contest, false) then Failure(NotAvailable)
    else if op.user !in t.users then Failure(NotFound)
    else if Registered(t, op.contest, {op.user}) then Failure(AlreadyRegistered)
    else
      var user := t.users[op.user];
      if user.firstName.None? || user.lastName.None? || OrganizationName(t, user).None? then Failure(IncorrectInformation)
      else if user.details.None? && !op.outOfCompetition then Failure(IncorrectInformation)
      else if !op.accepted then Failure(IdentityFailure)
      else Success(Competitor(op.contest, ParticipantName(user, OrganizationName(t, user)), user.organization, None,
                              user.isHidden, op.outOfCompetition, t.now, {op.user}, None))
  }

  /** The profiles that participants name by number. */
  function Links(participants: seq<string>): seq<Option<int>> {
    seq(|participants|, i requires 0 <= i < |participants| => TryParse(participants[i]))
  }

  function LinkedIds(links: seq<Option<int>>): seq<int> {
    if links == [] then []
    else LinkedIds(links[..|links| - 1]) + (if links[|links| - 1].Some? then [links[|links| - 1].value] else [])
  }

  predicate AllDifferent<T(==)>(s: seq<T>) {
    forall i, j :: 0 <= i < j < |s| ==> s[i] != s[j]
  }

  function IdSet(links: seq<Option<int>>): set<int> {
    set id | id in LinkedIds(links)
  }

  predicate WellFormedTeam(name: string, participants: seq<string>) {
    && !IsBlank(name) && |participants| == 3
    && forall i :: 0 <= i < |participants| ==> !IsBlank(participants[i]) && ';' !in participants[i]
  }

  /** Visible members of the organization. */
  predicate MayJoin(t: Tables, id: int, organization: int) {
    id in t.users && t.users[id].organization == Some(organization) && !t.users[id].isHidden
  }

  function ProfileName(user: OlympUser): string {
    Text(user.lastName) + " " + Text(user.firstName)
  }

  /** Name and link of one participant as they are shown. */
  function Shown(t: Tables, participant: string): (string, Option<int>) {
    var id := TryParse(participant);
    if id.Some? && id.value in t.users then (ProfileName(t.users[id.value]), id) else (participant, None)
  }

  function Info(member: (string, Option<int>)): string {
    member.0 + ";" + (if member.1.Some? then Print(member.1.value) else "")
  }

  function Infos(members: seq<(string, Option<int>)>): string
    requires members != []
  {
    Join(seq(|members|, i requires 0 <= i < |members| => Info(members[i])), ';')
  }

  function ShownMembers(t: Tables, participants: seq<string>): seq<(string, Option<int>)> {
    seq(|participants|, i requires 0 <= i < |participants| => Shown(t, participants[i]))
  }

  function Team(t: Tables, op: Operation): Result<Competitor, Error>
    requires op.RegisterTeam?
  {
    if !WellFormedTeam(op.name, op.participants) then Failure(IncorrectInformation)
    else
      var links := Links(op.participants);
      var ids := IdSet(links);
      if !AllDifferent(LinkedIds(links)) || !AllDifferent(op.participants) then Failure(NotDifferent)
      else if op.contest !in t.contests then Failure(NotFound)
      else if !Open(t, op.contest, true) then Failure(NotAvailable)
      else if op.organization !in t.organizations || op.coach !in t.users then Failure(NotFound)
      else if exists id :: id in ids && !MayJoin(t, id, op.organization) then Failure(InvalidValue)
      else if Registered(t, op.contest, ids) then Failure(AlreadyRegistered)
      else if !op.accepted then Failure(IdentityFailure)
      else Success(Competitor(op.contest, op.name, Some(op.organization), Some(op.coach), false, false, t.now, ids,
                              Some(Infos(ShownMembers(t, op.participants)))))
  }

  function Deletion(t: Tables, op: Operation): Option<Error>
    requires op.Delete?
  {
    if op.competitor !in t.competitors || t.competitors[op.competitor].contest != op.contest then Some(NotFound)
    else if op.competitor in t.busy then Some(HasRecords)
    else if !op.accepted then Some(IdentityFailure)
    else None
  }

  /** The tables after an operation; a failed one changes nothing. */
  function After(t: Tables, op: Operation): Tables {
    match op
    case RegisterIndividual(_, _, _, newId, _) =>
      var r := Individual(t, op);
      if r.Success? then t.(competitors := t.competitors[newId := r.value]) else t
    case RegisterTeam(_, _, _, _, _, newId, _) =>
      var r := Team(t, op);
      if r.Success? then t.(competitors := t.competitors[newId := r.value]) else t
    case Delete(_, competitor, _) =>
      if Deletion(t, op).None? then t.(competitors := t.competitors - {competitor}) else t
    case Elsewhere(now, contests, users, organizations, busy) => Tables(now, contests, users, organizations, t.competitors, busy)
  }

  // ---------- Nobody takes part twice ----------

  /** No user belongs to two competitors of one contest. */
  ghost predicate OneMembershipEach(t: Tables) {
    forall c, d, user ::
      c in t.competitors && d in t.competitors && c != d && t.competitors[c].contest == t.competitors[d].contest
      && user in t.competitors[c].members
      ==> user !in t.competitors[d].members
  }

  /** New rows get new identities. */
  predicate FreshId(t: Tables, op: Operation) {
    op.RegisterIndividual? || op.RegisterTeam? ==> op.newId !in t.competitors
  }

  ghost predicate IsRun(states: seq<Tables>, operations: seq<Operation>) {
    && |states| == |operations| + 1
    && forall i :: 0 <= i < |operations| ==> FreshId(states[i], operations[i]) && states[i + 1] == After(states[i], operations[i])
  }

  lemma AddedMembersAreNew(t: Tables, newId: int, added: Competitor)
    requires OneMembershipEach(t) && newId !in t.competitors && !Registered(t, added.contest, added.members)
    ensures OneMembershipEach(t.(competitors := t.competitors[newId := added]))
  {
    forall c, user | c in t.competitors && t.competitors[c].contest == added.contest && user in added.members
      ensures user !in t.competitors[c].members
    {
      assert t.competitors[c].members * added.members == {};
      assert user !in t.competitors[c].members * added.members;
    }
  }

  lemma OperationKeepsOneMembership(t: Tables, op: Operation)
    requires OneMembershipEach(t) && FreshId(t, op)
    ensures OneMembershipEach(After(t, op))
  {
    match op
    case RegisterIndividual(_, _, _, newId, _) =>
      if Individual(t, op).Success? {
        AddedMembersAreNew(t, newId, Individual(t, op).value);
      }
    case RegisterTeam(_, _, _, _, _, newId, _) =>
      if Team(t, op).Success? {
        AddedMembersAreNew(t, newId, Team(t, op).value);
      }
    case Delete(_, _, _) =>
    case Elsewhere(_, _, _, _, _) =>
  }

  /** Over every sequence of registrations, deletions and changes elsewhere nobody comes to take part twice in one contest. */
  lemma {:induction false} NobodyTakesPartTwice(states: seq<Tables>, operations: seq<Operation>, i: nat)
    requires IsRun(states, operations) && OneMembershipEach(states[0]) && i < |states|
    ensures OneMembershipEach(states[i])
  {
    if i > 0 {
      NobodyTakesPartTwice(states, operations, i - 1);
      OperationKeepsOneMembership(states[i - 1], operations[i - 1]);
    }
  }

  // ---------- Printing and parsing the members ----------

  /** What the member text says; Broken when a printed id is not among the members. */
  datatype Parsed = NotATeam | Broken | Members(members: seq<(string, Option<int>)>)

  predicate Resolvable(c: Competitor, id: string) {
    TryParse(id).Some? ==> TryParse(id).value in c.members
  }

  function GetMembers(c: Competitor): Parsed {
    if c.memberInfos.None? then NotATeam else MembersFrom(c, Split(c.memberInfos.value, ';'))
  }

  function MembersFrom(c: Competitor, parts: seq<string>): Parsed {
    if |parts| != 6 then NotATeam
    else if !(Resolvable(c, parts[1]) && Resolvable(c, parts[3]) && Resolvable(c, parts[5])) then Broken
    else Members([(parts[0], TryParse(parts[1])), (parts[2], TryParse(parts[3])), (parts[4], TryParse(parts[5]))])
  }

  /**
   The text tells three members when it has six parts and every number in it is that of a member; a number that
   is not makes it unreadable.
   */
  lemma MembersMeaning(c: Competitor)
    ensures GetMembers(c) == NotATeam <==> c.memberInfos.None? || |Split(c.memberInfos.value, ';')| != 6
    ensures c.memberInfos.Some? && |Split(c.memberInfos.value, ';')| == 6 ==>
              var parts := Split(c.memberInfos.value, ';');
              if exists k :: k in {1, 3, 5} && TryParse(parts[k]).Some? && TryParse(parts[k]).value !in c.members
              then GetMembers(c) == Broken
              else GetMembers(c) == Members([(parts[0], TryParse(parts[1])), (parts[2], TryParse(parts[3])),
                                             (parts[4], TryParse(parts[5]))])
  {
    hide Split, TryParse;
  }

  function Printed(member: (string, Option<int>)): string {
    if member.1.Some? then Print(member.1.value) else ""
  }

  lemma InfoParts(member: (string, Option<int>))
    ensures Split(Info(member), ';') == Split(member.0, ';') + [Printed(member)]
  {
    hide Split;
    assert Info(member) == member.0 + [';'] + Printed(member);
    SplitAtSeparator(member.0, Printed(member), ';');
    if member.1.Some? {
      PrintedCharacters(member.1.value);
    }
    SplitUnbroken(Printed(member), ';');
  }

  lemma InfosOfThree(members: seq<(string, Option<int>)>)
    requires |members| == 3
    ensures Infos(members) == Info(members[0]) + [';'] + Info(members[1]) + [';'] + Info(members[2])
  {
    hide Info;
    var texts := seq(|members|, i requires 0 <= i < |members| => Info(members[i]));
    var two := texts[..2];
    assert two[..1] == [texts[0]];
    assert Join(two, ';') == texts[0] + [';'] + texts[1];
    assert Join(texts, ';') == Join(two, ';') + [';'] + texts[2];
  }

  /** Three members print to six parts, and to more as soon as a name contains a semicolon. */
  lemma InfosParts(members: seq<(string, Option<int>)>)
    requires |members| == 3
    ensures Split(Infos(members), ';')
         == Split(members[0].0, ';') + [Printed(members[0])] + Split(members[1].0, ';') + [Printed(members[1])]
            + Split(members[2].0, ';') + [Printed(members[2])]
  {
    hide Infos, Info, Split, Printed;
    InfosOfThree(members);
    SplitAtSeparator(Info(members[0]) + [';'] + Info(members[1]), Info(members[2]), ';');
    SplitAtSeparator(Info(members[0]), Info(members[1]), ';');
    InfoParts(members[0]);
    InfoParts(members[1]);
    InfoParts(members[2]);
  }

  /** Printed links parse back; a missing link parses to none. */
  lemma PrintedParses(member: (string, Option<int>))
    requires member.1.Some? ==> IsInt32(member.1.value)
    ensures TryParse(Printed(member)) == member.1
  {
    if member.1.Some? {
      ParseOfPrint(member.1.value);
    }
  }

  lemma {:induction false} LinkedIdsMeaning(links: seq<Option<int>>)
    ensures forall i :: 0 <= i < |links| && links[i].Some? ==> links[i].value in LinkedIds(links)
  {
    if links != [] {
      LinkedIdsMeaning(links[..|links| - 1]);
    }
  }

  lemma ParsedInRange(s: string)
    ensures TryParse(s).Some? ==> IsInt32(TryParse(s).value)
  {
  }

  /** Every linked participant of a registered team is a member. */
  lemma LinksAreMembers(t: Tables, op: Operation, k: nat)
    requires op.RegisterTeam? && Team(t, op).Success? && k < |op.participants|
    ensures var member := Shown(t, op.participants[k]);
      && member.1 == TryParse(op.participants[k])
      && (member.1.Some? ==> IsInt32(member.1.value) && member.1.value in Team(t, op).value.members)
      && (member.1.None? ==> ';' !in member.0)
  {
    LinkedIdsMeaning(Links(op.participants));
    ParsedInRange(op.participants[k]);
    var id := TryParse(op.participants[k]);
    if id.Some? {
      assert Links(op.participants)[k] == id;
      assert id.value in IdSet(Links(op.participants));
    }
  }

  /** What of a shown member survives printing. */
  ghost predicate ParsesBack(team: Competitor, member: (string, Option<int>)) {
    && TryParse(Printed(member)) == member.1 && Resolvable(team, Printed(member))
    && (|Split(member.0, ';')| == 1 <==> ';' !in member.0)
    && (';' !in member.0 ==> Split(member.0, ';') == [member.0])
  }

  lemma MemberParsesBack(t: Tables, op: Operation, k: nat)
    requires op.RegisterTeam? && Team(t, op).Success? && k < |op.participants|
    ensures ParsesBack(Team(t, op).value, Shown(t, op.participants[k]))
  {
    hide Team, Shown, Split, TryParse, Printed;
    var member := Shown(t, op.participants[k]);
    LinksAreMembers(t, op, k);
    PrintedParses(member);
    SplitLength(member.0, ';');
    if ';' !in member.0 {
      SplitUnbroken(member.0, ';');
    }
  }

  /** Six parts in the right order, exactly when every name is one part. */
  lemma SixParts(a: seq<string>, b: seq<string>, c: seq<string>, x: string, y: string, z: string)
    requires a != [] && b != [] && c != []
    ensures var parts := a + [x] + b + [y] + c + [z];
      && (|parts| == 6 <==> |a| == |b| == |c| == 1)
      && (|parts| == 6 ==> parts == [a[0], x, b[0], y, c[0], z])
  {
  }

  lemma PartsParseBack(team: Competitor, p: (string, Option<int>), q: (string, Option<int>), r: (string, Option<int>))
    requires ParsesBack(team, p) && ParsesBack(team, q) && ParsesBack(team, r)
    ensures var parts := Split(p.0, ';') + [Printed(p)] + Split(q.0, ';') + [Printed(q)] + Split(r.0, ';') + [Printed(r)];
      MembersFrom(team, parts) == Members([p, q, r]) <==> ';' !in p.0 && ';' !in q.0 && ';' !in r.0
  {
    hide Split, TryParse, Printed, Resolvable;
    SixParts(Split(p.0, ';'), Split(q.0, ';'), Split(r.0, ';'), Printed(p), Printed(q), Printed(r));
  }

  lemma TextParsesBack(team: Competitor, p: (string, Option<int>), q: (string, Option<int>), r: (string, Option<int>))
    requires team.memberInfos == Some(Infos([p, q, r]))
    requires ParsesBack(team, p) && ParsesBack(team, q) && ParsesBack(team, r)
    ensures GetMembers(team) == Members([p, q, r]) <==> ';' !in p.0 && ';' !in q.0 && ';' !in r.0
  {
    hide Infos, Split, Printed, MembersFrom, ParsesBack;
    InfosParts([p, q, r]);
    PartsParseBack(team, p, q, r);
  }

  lemma TeamText(t: Tables, op: Operation)
    requires op.RegisterTeam? && Team(t, op).Success?
    ensures |op.participants| == 3 && Team(t, op).value.memberInfos == Some(Infos(ShownMembers(t, op.participants)))
  {
  }

  /**
   The members of a registered team parse back to the names and links that were registered, in order, exactly
   when no linked profile name contains a semicolon.
   */
  lemma TeamsParseBack(t: Tables, op: Operation)
    requires op.RegisterTeam? && Team(t, op).Success?
    ensures |op.participants| == 3
    ensures var shown := ShownMembers(t, op.participants);
      GetMembers(Team(t, op).value) == Members(shown) <==> forall k :: 0 <= k < 3 ==> ';' !in shown[k].0
  {
    hide Infos, Team, Shown, GetMembers, ParsesBack, ShownMembers;
    TeamText(t, op);
    MemberParsesBack(t, op, 0);
    MemberParsesBack(t, op, 1);
    MemberParsesBack(t, op, 2);
    ThreeShown(t, op.participants);
    var shown := ShownMembers(t, op.participants);
    TextParsesBack(Team(t, op).value, shown[0], shown[1], shown[2]);
  }

  lemma ThreeShown(t: Tables, participants: seq<string>)
    requires |participants| == 3
    ensures var shown := ShownMembers(t, participants);
      shown == [shown[0], shown[1], shown[2]] == [Shown(t, participants[0]), Shown(t, participants[1]), Shown(t, participants[2])]
  {
  }

  // ---------- What is registered ----------

  /** The profile has both names and an organization with a name; and a group, unless out of competition. */
  ghost predicate IsComplete(t: Tables, user: OlympUser, outOfCompetition: bool) {
    && user.firstName.Some? && user.lastName.Some?
    && user.organization.Some? && user.organization.value in t.organizations && t.organizations[user.organization.value].Some?
    && (user.details.Some? || outOfCompetition)
  }

  /** The new row of an individual, named after the profile, its organization and its group. */
  ghost predicate IsIndividual(t: Tables, contest: int, user: int, outOfCompetition: bool, row: Competitor)
    requires user in t.users && IsComplete(t, t.users[user], outOfCompetition)
  {
    var profile := t.users[user];
    var name := profile.firstName.value + " " + profile.lastName.value + ", " + t.organizations[profile.organization.value].value;
    && row.name == (if profile.details.None? then name else name + ", " + profile.details.value)
    && row.contest == contest && row.organization == profile.organization && row.coach == None
    && row.isHidden == profile.isHidden && row.isOutOfCompetition == outOfCompetition && row.registrationDate == t.now
    && row.members == {user} && row.memberInfos == None
  }

  ghost predicate IsVisibleMember(t: Tables, id: int, organization: int) {
    id in t.users && t.users[id].organization == Some(organization) && !t.users[id].isHidden
  }

  /** How one participant is written down: a linked profile by last and first name with its number, others as given. */
  ghost predicate IsMemberText(t: Tables, participant: string, text: string) {
    match TryParse(participant)
    case None => text == participant + ";"
    case Some(id) =>
      && id in t.users
      && text == (if t.users[id].lastName.Some? then t.users[id].lastName.value else "") + " "
                 + (if t.users[id].firstName.Some? then t.users[id].firstName.value else "") + ";" + Print(id)
  }

  /** The new row of a team: its members are the linked profiles, and its text lists all three participants. */
  ghost predicate IsTeam(t: Tables, contest: int, organization: int, coach: int, name: string, participants: seq<string>,
                         row: Competitor)
    requires |participants| == 3
  {
    && row.contest == contest && row.name == name && row.organization == Some(organization) && row.coach == Some(coach)
    && !row.isHidden && !row.isOutOfCompetition && row.registrationDate == t.now
    && (forall id :: id in row.members <==> exists i :: 0 <= i < 3 && TryParse(participants[i]) == Some(id))
    && exists a, b, c ::
         && IsMemberText(t, participants[0], a) && IsMemberText(t, participants[1], b) && IsMemberText(t, participants[2], c)
         && row.memberInfos == Some(a + ";" + b + ";" + c)
  }

  /** The same text, or the same profile. */
  ghost predicate IsSame(participant: string, other: string) {
    participant == other || (TryParse(participant).Some? && TryParse(participant) == TryParse(other))
  }

  lemma {:induction false} LinkedIdsAre(links: seq<Option<int>>)
    ensures forall id :: id in LinkedIds(links) <==> exists i :: 0 <= i < |links| && links[i] == Some(id)
  {
    if links != [] {
      var front, last := links[..|links| - 1], links[|links| - 1];
      LinkedIdsAre(front);
      assert links == front + [last];
      forall id ensures id in LinkedIds(links) <==> exists i :: 0 <= i < |links| && links[i] == Some(id) {
        if i :| 0 <= i < |front| && front[i] == Some(id) {
          assert links[i] == Some(id);
        }
        assert links[|front|] == last;
      }
    }
  }

  ghost predicate DifferentLinks(links: seq<Option<int>>) {
    forall i, j :: 0 <= i < j < |links| && links[i].Some? ==> links[i] != links[j]
  }

  lemma DifferentOneMore(s: seq<int>, x: int)
    ensures AllDifferent(s + [x]) <==> AllDifferent(s) && x !in s
  {
    var t := s + [x];
    assert forall i :: 0 <= i < |s| ==> t[i] == s[i];
    assert t[|s|] == x;
    if AllDifferent(t) {
      assert forall i :: 0 <= i < |s| ==> t[i] != t[|s|];
    }
  }

  lemma LinksOneMore(links: seq<Option<int>>, link: Option<int>)
    ensures DifferentLinks(links + [link]) <==>
              DifferentLinks(links) && (link.Some? ==> forall i :: 0 <= i < |links| ==> links[i] != link)
  {
    var t := links + [link];
    assert forall i :: 0 <= i < |links| ==> t[i] == links[i];
    assert t[|links|] == link;
    if DifferentLinks(t) && link.Some? {
      assert forall i :: 0 <= i < |links| && t[i].Some? ==> t[i] != t[|links|];
    }
  }

  lemma {:induction false} LinkedIdsDiffer(links: seq<Option<int>>)
    ensures AllDifferent(LinkedIds(links)) <==> DifferentLinks(links)
  {
    if links != [] {
      hide AllDifferent, DifferentLinks;
      var front, last := links[..|links| - 1], links[|links| - 1];
      LinkedIdsDiffer(front);
      assert links == front + [last];
      LinksOneMore(front, last);
      LinkedIdsAre(front);
      if last.Some? {
        DifferentOneMore(LinkedIds(front), last.value);
        assert last.value in LinkedIds(front) <==> exists i :: 0 <= i < |front| && front[i] == last;
      } else {
        assert LinkedIds(links) == LinkedIds(front);
      }
    }
  }

  lemma ThreeDiffer(p: seq<string>, links: seq<Option<int>>)
    requires |p| == |links| == 3
    ensures AllDifferent(p) <==> p[0] != p[1] && p[0] != p[2] && p[1] != p[2]
    ensures DifferentLinks(links)
       <==> && (links[0].Some? ==> links[0] != links[1] && links[0] != links[2])
            && (links[1].Some? ==> links[1] != links[2])
  {
  }

  lemma SameIfNotDifferent(participants: seq<string>)
    requires |participants| == 3
    ensures AllDifferent(LinkedIds(Links(participants))) && AllDifferent(participants)
       <==> !exists i, j :: 0 <= i < j < 3 && IsSame(participants[i], participants[j])
  {
    hide LinkedIds, TryParse, AllDifferent, DifferentLinks;
    var p, links := participants, Links(participants);
    LinkedIdsDiffer(links);
    ThreeDiffer(p, links);
    assert (exists i, j :: 0 <= i < j < 3 && IsSame(p[i], p[j])) <==> IsSame(p[0], p[1]) || IsSame(p[0], p[2]) || IsSame(p[1], p[2]);
  }

  lemma MemberIds(participants: seq<string>)
    requires |participants| == 3
    ensures forall id :: id in IdSet(Links(participants)) <==> exists i :: 0 <= i < 3 && TryParse(participants[i]) == Some(id)
  {
    hide TryParse, LinkedIds;
    var links := Links(participants);
    LinkedIdsAre(links);
    forall id ensures id in IdSet(links) <==> exists i :: 0 <= i < 3 && TryParse(participants[i]) == Some(id) {
      if i :| 0 <= i < |links| && links[i] == Some(id) {
        assert TryParse(participants[i]) == Some(id);
      }
      if i :| 0 <= i < 3 && TryParse(participants[i]) == Some(id) {
        assert links[i] == Some(id);
      }
    }
  }

  lemma MembersMayJoin(t: Tables, organization: int, participants: seq<string>)
    requires |participants| == 3
    ensures (exists id :: id in IdSet(Links(participants)) && !MayJoin(t, id, organization))
       <==> exists i :: 0 <= i < 3 && TryParse(participants[i]).Some? && !IsVisibleMember(t, TryParse(participants[i]).value, organization)
  {
    hide TryParse, IdSet, Links, MayJoin, IsVisibleMember;
    MemberIds(participants);
    forall id ensures MayJoin(t, id, organization) <==> IsVisibleMember(t, id, organization) {
      VisibleMayJoin(t, id, organization);
    }
    if i :| 0 <= i < 3 && TryParse(participants[i]).Some? && !IsVisibleMember(t, TryParse(participants[i]).value, organization) {
      assert TryParse(participants[i]).value in IdSet(Links(participants));
    }
  }

  lemma VisibleMayJoin(t: Tables, id: int, organization: int)
    ensures MayJoin(t, id, organization) <==> IsVisibleMember(t, id, organization)
  {
  }

  lemma MembersRegistered(t: Tables, contest: int, participants: seq<string>)
    requires |participants| == 3
    ensures Registered(t, contest, IdSet(Links(participants)))
       <==> exists c, i :: c in t.competitors && t.competitors[c].contest == contest && 0 <= i < 3
              && TryParse(participants[i]).Some? && TryParse(participants[i]).value in t.competitors[c].members
  {
    hide TryParse, IdSet, Links;
    MemberIds(participants);
    var ids := IdSet(Links(participants));
    if c, i :| c in t.competitors && t.competitors[c].contest == contest && 0 <= i < 3
               && TryParse(participants[i]).Some? && TryParse(participants[i]).value in t.competitors[c].members {
      var id := TryParse(participants[i]).value;
      assert exists k :: 0 <= k < 3 && TryParse(participants[k]) == Some(id);
      assert id in ids && id in t.competitors[c].members * ids;
    }
    if Registered(t, contest, ids) {
      var c :| c in t.competitors && t.competitors[c].contest == contest && t.competitors[c].members * ids != {};
      SomethingIn(t.competitors[c].members * ids);
      var id :| id in t.competitors[c].members * ids;
      var i :| 0 <= i < 3 && TryParse(participants[i]) == Some(id);
      assert TryParse(participants[i]).value in t.competitors[c].members;
    }
  }

  lemma SomethingIn(s: set<int>)
    requires s != {}
    ensures exists x :: x in s
  {
    assert (forall x :: x !in s) ==> s == {};
  }

  lemma TeamMembers(t: Tables, op: Operation)
    requires op.RegisterTeam? && Team(t, op).Success?
    ensures |op.participants| == 3
    ensures IsTeam(t, op.contest, op.organization, op.coach, op.name, op.participants, Team(t, op).value)
  {
    hide *;
    TeamRow(t, op);
    TeamTexts(t, op);
    TeamParts(t, op);
  }

  lemma TeamParts(t: Tables, op: Operation)
    requires op.RegisterTeam? && Team(t, op).Success? && |op.participants| == 3
    requires exists a, b, c ::
      && IsMemberText(t, op.participants[0], a) && IsMemberText(t, op.participants[1], b) && IsMemberText(t, op.participants[2], c)
      && Team(t, op).value.memberInfos == Some(a + ";" + b + ";" + c)
    requires RowOf(t, op, Team(t, op).value)
    ensures IsTeam(t, op.contest, op.organization, op.coach, op.name, op.participants, Team(t, op).value)
  {
    hide Team, IsMemberText;
  }

  lemma MemberText(t: Tables, participant: string)
    requires TryParse(participant).Some? ==> TryParse(participant).value in t.users
    ensures IsMemberText(t, participant, Info(Shown(t, participant)))
  {
    hide TryParse;
  }

  lemma TeamTexts(t: Tables, op: Operation)
    requires op.RegisterTeam? && Team(t, op).Success?
    ensures |op.participants| == 3
    ensures exists a, b, c ::
      && IsMemberText(t, op.participants[0], a) && IsMemberText(t, op.participants[1], b) && IsMemberText(t, op.participants[2], c)
      && Team(t, op).value.memberInfos == Some(a + ";" + b + ";" + c)
  {
    hide Team, Infos, Info, Shown, ShownMembers, TryParse, IsMemberText;
    TeamText(t, op);
    LinkedAreProfiles(t, op);
    ThreeShown(t, op.participants);
    var shown := ShownMembers(t, op.participants);
    InfosOfThree(shown);
    MemberText(t, op.participants[0]);
    MemberText(t, op.participants[1]);
    MemberText(t, op.participants[2]);
    var a, b, c := Info(shown[0]), Info(shown[1]), Info(shown[2]);
    assert a + [';'] + b + [';'] + c == a + ";" + b + ";" + c;
  }

  lemma LinkedAreProfiles(t: Tables, op: Operation)
    requires op.RegisterTeam? && Team(t, op).Success?
    ensures forall i :: 0 <= i < |op.participants| && TryParse(op.participants[i]).Some? ==> TryParse(op.participants[i]).value in t.users
  {
    LinkedIdsAre(Links(op.participants));
    forall i | 0 <= i < |op.participants| && TryParse(op.participants[i]).Some?
      ensures TryParse(op.participants[i]).value in t.users
    {
      assert Links(op.participants)[i] == TryParse(op.participants[i]);
      assert TryParse(op.participants[i]).value in IdSet(Links(op.participants));
      assert MayJoin(t, TryParse(op.participants[i]).value, op.organization);
    }
  }

  /** The fields of a team's row other than its text. */
  ghost predicate RowOf(t: Tables, op: Operation, row: Competitor)
    requires op.RegisterTeam? && |op.participants| == 3
  {
    && row.contest == op.contest && row.name == op.name && row.organization == Some(op.organization) && row.coach == Some(op.coach)
    && !row.isHidden && !row.isOutOfCompetition && row.registrationDate == t.now
    && forall id :: id in row.members <==> exists i :: 0 <= i < 3 && TryParse(op.participants[i]) == Some(id)
  }

  lemma TeamRow(t: Tables, op: Operation)
    requires op.RegisterTeam? && Team(t, op).Success?
    ensures |op.participants| == 3 && RowOf(t, op, Team(t, op).value)
  {
    hide TryParse, LinkedIds, Infos, Links, IdSet;
    MemberIds(op.participants);
  }

  /** Why a team is refused, if it is; the first reason counts. */
  ghost function TeamRefusal(t: Tables, contest: int, organization: int, coach: int, name: string, participants: seq<string>,
                             accepted: bool): Option<Error>
  {
    if IsBlank(name) || |participants| != 3
       || (exists i :: 0 <= i < |participants| && (IsBlank(participants[i]) || ';' in participants[i]))
    then Some(IncorrectInformation)
    else if exists i, j :: 0 <= i < j < 3 && IsSame(participants[i], participants[j]) then Some(NotDifferent)
    else if contest !in t.contests then Some(NotFound)
    else if t.contests[contest].isHidden || !t.contests[contest].isAcm || t.now > t.contests[contest].endTime
    then Some(NotAvailable)
    else if organization !in t.organizations || coach !in t.users then Some(NotFound)
    else if exists i :: 0 <= i < 3 && TryParse(participants[i]).Some?
              && !IsVisibleMember(t, TryParse(participants[i]).value, organization)
    then Some(InvalidValue)
    else if exists c, i :: c in t.competitors && t.competitors[c].contest == contest && 0 <= i < 3
              && TryParse(participants[i]).Some? && TryParse(participants[i]).value in t.competitors[c].members
    then Some(AlreadyRegistered)
    else if !accepted then Some(IdentityFailure)
    else None
  }

  /** Why an individual is refused, if it is; the first reason counts. */
  ghost function IndividualRefusal(t: Tables, contest: int, user: int, outOfCompetition: bool, accepted: bool): Option<Error> {
    if contest !in t.contests then Some(NotFound)
    else if t.contests[contest].isHidden || t.contests[contest].isAcm || t.now > t.contests[contest].endTime
    then Some(NotAvailable)
    else if user !in t.users then Some(NotFound)
    else if exists c :: c in t.competitors && t.competitors[c].contest == contest && user in t.competitors[c].members
    then Some(AlreadyRegistered)
    else if !IsComplete(t, t.users[user], outOfCompetition) then Some(IncorrectInformation)
    else if !accepted then Some(IdentityFailure)
    else None
  }

  lemma TeamErrors(t: Tables, op: Operation)
    requires op.RegisterTeam?
    ensures TeamRefusal(t, op.contest, op.organization, op.coach, op.name, op.participants, op.accepted)
         == if Team(t, op).Failure? then Some(Team(t, op).error) else None
  {
    hide TryParse, IsBlank, IsSame, IdSet, LinkedIds, Links, Infos, AllDifferent, Registered, MayJoin, IsVisibleMember, ShownMembers;
    if |op.participants| == 3 {
      SameIfNotDifferent(op.participants);
      MembersMayJoin(t, op.organization, op.participants);
      MembersRegistered(t, op.contest, op.participants);
    }
  }

  lemma IndividualErrors(t: Tables, op: Operation)
    requires op.RegisterIndividual?
    ensures IndividualRefusal(t, op.contest, op.user, op.outOfCompetition, op.accepted)
         == if Individual(t, op).Failure? then Some(Individual(t, op).error) else None
    ensures Individual(t, op).Success? ==>
              && op.user in t.users && IsComplete(t, t.users[op.user], op.outOfCompetition)
              && IsIndividual(t, op.contest, op.user, op.outOfCompetition, Individual(t, op).value)
  {
    hide Registered;
    MemberIsRegistered(t, op.contest, op.user);
  }

  // ---------- The service ----------

  class CompetitorService {
    var tables: Tables

    /** Adds one competitor with one member. */
    method RegisterIndividualUser(contestId: int, userId: int, outOfCompetition: bool, newId: int, accepted: bool)
      returns (error: Option<Error>)
      requires newId !in tables.competitors && OneMembershipEach(tables)
      modifies this
      ensures error == IndividualRefusal(old(tables), contestId, userId, outOfCompetition, accepted)
      ensures error.Some? ==> tables == old(tables)
      ensures error.None? ==>
                && userId in old(tables).users && IsComplete(old(tables), old(tables).users[userId], outOfCompetition)
                && newId in tables.competitors
                && tables == old(tables).(competitors := old(tables).competitors[newId := tables.competitors[newId]])
                && IsIndividual(old(tables), contestId, userId, outOfCompetition, tables.competitors[newId])
      ensures var op := RegisterIndividual(contestId, userId, outOfCompetition, newId, accepted);
        && tables == After(old(tables), op)
        && error == (if Individual(old(tables), op).Failure? then Some(Individual(old(tables), op).error) else None)
      ensures OneMembershipEach(tables)
    {
      hide OneMembershipEach, IsIndividual, IndividualRefusal;
      OperationKeepsOneMembership(tables, RegisterIndividual(contestId, userId, outOfCompetition, newId, accepted));
      IndividualErrors(tables, RegisterIndividual(contestId, userId, outOfCompetition, newId, accepted));
      if contestId !in tables.contests {
        return Some(NotFound);
      }
      var contest := tables.contests[contestId];
      if contest.isHidden || contest.isAcm || tables.now > contest.endTime {
        return Some(NotAvailable);
      }
      if userId !in tables.users {
        return Some(NotFound);
      }
      var user := tables.users[userId];
      if exists c :: c in tables.competitors && tables.competitors[c].contest == contestId && userId in tables.competitors[c].members {
        MemberIsRegistered(tables, contestId, userId);
        return Some(AlreadyRegistered);
      }
      MemberIsRegistered(tables, contestId, userId);
      if user.firstName.None? || user.lastName.None? || OrganizationName(tables, user).None? {
        return Some(IncorrectInformation);
      }
      if user.details.None? && !outOfCompetition {
        return Some(IncorrectInformation);
      }
      if !accepted {
        return Some(IdentityFailure);
      }
      var participant := Competitor(contestId, ParticipantName(user, OrganizationName(tables, user)), user.organization, None,
                                    user.isHidden, outOfCompetition, tables.now, {userId}, None);
      tables := tables.(competitors := tables.competitors[newId := participant]);
      return None;
    }

    /** Adds one competitor with up to three linked members and the text that lists all three. */
    method RegisterTeamOf(contestId: int, organizationId: int, coachId: int, name: string, participants: seq<string>,
                          newId: int, accepted: bool) returns (error: Option<Error>)
      requires newId !in tables.competitors && OneMembershipEach(tables)
      modifies this
      ensures error == TeamRefusal(old(tables), contestId, organizationId, coachId, name, participants, accepted)
      ensures error.Some? ==> tables == old(tables)
      ensures error.None? ==>
                && |participants| == 3 && newId in tables.competitors
                && tables == old(tables).(competitors := old(tables).competitors[newId := tables.competitors[newId]])
                && IsTeam(old(tables), contestId, organizationId, coachId, name, participants, tables.competitors[newId])
      ensures var op := RegisterTeam(contestId, organizationId, coachId, name, participants, newId, accepted);
        && tables == After(old(tables), op)
        && error == (if Team(old(tables), op).Failure? then Some(Team(old(tables), op).error) else None)
      ensures OneMembershipEach(tables)
    {
      hide OneMembershipEach, IsTeam, TeamRefusal;
      ghost var op := RegisterTeam(contestId, organizationId, coachId, name, participants, newId, accepted);
      OperationKeepsOneMembership(tables, op);
      TeamErrors(tables, op);
      if Team(tables, op).Success? {
        TeamMembers(tables, op);
      }
      if IsBlank(name) || |participants| != 3
         || exists i :: 0 <= i < |participants| && (IsBlank(participants[i]) || ';' in participants[i]) {
        return Some(IncorrectInformation);
      }
      var memberIds := LinkedIds(Links(participants));
      if !AllDifferent(memberIds) || !AllDifferent(participants) {
        return Some(NotDifferent);
      }
      if contestId !in tables.contests {
        return Some(NotFound);
      }
      var contest := tables.contests[contestId];
      if contest.isHidden || !contest.isAcm || tables.now > contest.endTime {
        return Some(NotAvailable);
      }
      if organizationId !in tables.organizations || coachId !in tables.users {
        return Some(NotFound);
      }
      var membersById := Passing(tables, memberIds, organizationId);
      CountTellsAll(tables, memberIds, organizationId);
      if |membersById| != |memberIds| {
        return Some(InvalidValue);
      }
      assert membersById == IdSet(Links(participants));
      if Registered(tables, contestId, membersById) {
        return Some(AlreadyRegistered);
      }
      if !accepted {
        return Some(IdentityFailure);
      }
      var participant := Competitor(contestId, name, Some(organizationId), Some(coachId), false, false, tables.now,
                                    membersById, Some(Infos(ShownMembers(tables, participants))));
      tables := tables.(competitors := tables.competitors[newId := participant]);
      return None;
    }

    /** Removes a competitor that nothing else refers to. */
    method DeleteCompetitor(contestId: int, competitorId: int, accepted: bool) returns (error: Option<Error>)
      requires OneMembershipEach(tables)
      modifies this
      ensures error == var t := old(tables);
                if competitorId !in t.competitors || t.competitors[competitorId].contest != contestId then Some(NotFound)
                else if competitorId in t.busy then Some(HasRecords)
                else if !accepted then Some(IdentityFailure)
                else None
      ensures tables == if error.Some? then old(tables)
                        else old(tables).(competitors := old(tables).competitors - {competitorId})
      ensures tables == After(old(tables), Delete(contestId, competitorId, accepted))
      ensures error == Deletion(old(tables), Delete(contestId, competitorId, accepted))
      ensures OneMembershipEach(tables)
    {
      OperationKeepsOneMembership(tables, Delete(contestId, competitorId, accepted));
      if competitorId !in tables.competitors || tables.competitors[competitorId].contest != contestId {
        return Some(NotFound);
      }
      if competitorId in tables.busy {
        return Some(HasRecords);
      }
      if !accepted {
        return Some(IdentityFailure);
      }
      tables := tables.(competitors := tables.competitors - {competitorId});
      return None;
    }
  }

  lemma MemberIsRegistered(t: Tables, contest: int, user: int)
    ensures Registered(t, contest, {user})
       <==> exists c :: c in t.competitors && t.competitors[c].contest == contest && user in t.competitors[c].members
  {
    forall c | c in t.competitors ensures t.competitors[c].members * {user} != {} <==> user in t.competitors[c].members {
      assert user in t.competitors[c].members ==> user in t.competitors[c].members * {user};
    }
  }

  function Passing(t: Tables, ids: seq<int>, organization: int): set<int> {
    set id | id in ids && MayJoin(t, id, organization)
  }

  lemma PassingOneMore(t: Tables, ids: seq<int>, id: int, organization: int)
    requires id !in ids
    ensures |Passing(t, ids + [id], organization)| == |Passing(t, ids, organization)| + (if MayJoin(t, id, organization) then 1 else 0)
  {
    hide MayJoin;
    assert Passing(t, ids + [id], organization)
        == Passing(t, ids, organization) + (if MayJoin(t, id, organization) then {id} else {});
  }

  /** As many of the different ids pass the filter as there are exactly when all pass it. */
  lemma {:induction false} CountTellsAll(t: Tables, ids: seq<int>, organization: int)
    requires AllDifferent(ids)
    ensures |Passing(t, ids, organization)| <= |ids|
    ensures |Passing(t, ids, organization)| == |ids| <==> forall id :: id in ids ==> MayJoin(t, id, organization)
  {
    hide MayJoin;
    if ids == [] {
      assert Passing(t, ids, organization) == {};
    } else {
      hide Passing;
      var front, last := ids[..|ids| - 1], ids[|ids| - 1];
      assert ids == front + [last];
      assert last !in front;
      CountTellsAll(t, front, organization);
      PassingOneMore(t, front, last, organization);
    }
  }
}
