/** Team membership in one quest: registration, joining, leaving, captains and acceptance. */
module Teams {
  import opened Prelude

  type UserID = nat
  type TeamID = nat

  datatype Team = Team(captain: UserID, members: seq<UserID>, accepted: bool)
  datatype Registration = Auto | Verify

  /** The quest's fixed limits; the database keeps `maxTeamCap` positive. */
  datatype Limits = Limits(registration: Registration, maxTeamCap: Option<int>, maxTeamsAmount: Option<int>)

  // ---------------------------------------------------------------- the invariant

  ghost predicate TeamOK(limits: Limits, t: Team) {
    && t.captain in t.members && NoRepeats(t.members)
    && (limits.maxTeamCap.Some? ==> |t.members| <= limits.maxTeamCap.value)
  }

  /** Nobody is in two teams. */
  ghost predicate Apart(teams: map<TeamID, Team>) {
    forall s, t | s in teams && t in teams && s != t :: forall u | u in teams[s].members :: u !in teams[t].members
  }

  ghost function AcceptedIDs(teams: map<TeamID, Team>): set<TeamID> {
    set t | t in teams && teams[t].accepted
  }

  ghost predicate Admitted(limits: Limits, teams: map<TeamID, Team>) {
    limits.maxTeamsAmount.Some? ==> |AcceptedIDs(teams)| <= limits.maxTeamsAmount.value
  }

  /** Every team is nonempty, holds its captain, fits the capacity; no user is in two; acceptance fits its limit. */
  ghost predicate Good(limits: Limits, teams: map<TeamID, Team>) {
    && (forall t | t in teams :: TeamOK(limits, teams[t]))
    && Apart(teams)
    && Admitted(limits, teams)
  }

  ghost predicate Registered(teams: map<TeamID, Team>, user: UserID) {
    exists t :: t in teams && user in teams[t].members
  }

  function Without(members: seq<UserID>, user: UserID): (r: seq<UserID>)
    ensures forall u :: u in r <==> u in members && u != user
  {
    if members == [] then []
    else (if members[0] == user then [] else [members[0]]) + Without(members[1..], user)
  }

  lemma {:induction false} WithoutKeeps(members: seq<UserID>, user: UserID)
    requires NoRepeats(members)
    ensures NoRepeats(Without(members, user)) && |Without(members, user)| <= |members|
    ensures user !in members ==> Without(members, user) == members
  {
    if members != [] {
      assert forall i | 0 <= i < |members[1..]| :: members[1..][i] == members[i + 1];
      WithoutKeeps(members[1..], user);
      var rest := Without(members[1..], user);
      assert members[0] !in members[1..];
    }
  }

  // ---------------------------------------------------------------- what each request does

  datatype Request =
    | Create(user: UserID)
    | Join(user: UserID, team: TeamID)
    | Leave(user: UserID, team: TeamID, successor: Option<UserID>)
    | Remove(user: UserID, team: TeamID, member: UserID)
    | ChangeLeader(user: UserID, team: TeamID, captain: UserID)
    | Accept(team: TeamID, isCreator: bool)
    | Delete(user: UserID, team: TeamID, isCreator: bool)

  datatype State = State(teams: map<TeamID, Team>, nextId: nat)

  /** A new team is accepted at once under automatic registration with room left. */
  ghost predicate AcceptsAtOnce(limits: Limits, teams: map<TeamID, Team>) {
    limits.registration == Auto && (limits.maxTeamsAmount.Some? ==> |AcceptedIDs(teams)| < limits.maxTeamsAmount.value)
  }

  /** The captain leaves others behind, so a successor has to be named. */
  predicate LeavesOthers(t: Team, user: UserID) {
    t.captain == user && |t.members| > 1
  }

  ghost predicate Succeeds(limits: Limits, st: State, r: Request) {
    match r
    case Create(user) => !Registered(st.teams, user)
    case Join(user, team) =>
      && team in st.teams
      && (user in st.teams[team].members ||
          (!Registered(st.teams, user) && limits.maxTeamCap != Some(|st.teams[team].members|)))
    case Leave(user, team, successor) =>
      team in st.teams && (LeavesOthers(st.teams[team], user) ==> successor.Some?)
    case Remove(user, team, member) => team in st.teams && st.teams[team].captain == user && member != user
    case ChangeLeader(user, team, _) => team in st.teams && st.teams[team].captain == user
    case Accept(team, isCreator) =>
      && isCreator && team in st.teams
      && (st.teams[team].accepted || limits.maxTeamsAmount != Some(|AcceptedIDs(st.teams)|))
    case Delete(user, team, isCreator) => team in st.teams && (st.teams[team].captain == user || isCreator)
  }

  ghost function After(limits: Limits, st: State, r: Request): State {
    if !Succeeds(limits, st, r) then st
    else match r
      case Create(user) =>
        State(st.teams[st.nextId := Team(user, [user], AcceptsAtOnce(limits, st.teams))], st.nextId + 1)
      case Join(user, team) =>
        var t := st.teams[team];
        if user in t.members then st else st.(teams := st.teams[team := t.(members := t.members + [user])])
      case Leave(user, team, successor) =>
        var t := st.teams[team];
        var members := Without(t.members, user);
        var captain := if LeavesOthers(t, user) then successor.value else t.captain;
        if members == [] then st.(teams := st.teams - {team})
        else st.(teams := st.teams[team := Team(captain, members, t.accepted)])
      case Remove(user, team, member) =>
        st.(teams := st.teams[team := st.teams[team].(members := Without(st.teams[team].members, member))])
      case ChangeLeader(user, team, captain) =>
        st.(teams := st.teams[team := st.teams[team].(captain := captain)])
      case Accept(team, _) => st.(teams := st.teams[team := st.teams[team].(accepted := true)])
      case Delete(user, team, isCreator) => st.(teams := st.teams - {team})
  }

  // ---------------------------------------------------------------- every run

  ghost predicate Sane(limits: Limits) {
    && (limits.maxTeamCap.Some? ==> limits.maxTeamCap.value > 0)
    && (limits.maxTeamsAmount.Some? ==> limits.maxTeamsAmount.value >= 0)
  }

  ghost predicate Sound(limits: Limits, st: State) {
    Good(limits, st.teams) && forall t | t in st.teams :: t < st.nextId
  }

  /** The check the source leaves out: a named new captain is a current member who stays. */
  ghost predicate NamesAMember(st: State, r: Request) {
    match r
    case ChangeLeader(user, team, captain) =>
      team in st.teams && st.teams[team].captain == user ==> captain in st.teams[team].members
    case Leave(user, team, successor) =>
      team in st.teams && LeavesOthers(st.teams[team], user) && successor.Some? ==>
        successor.value in st.teams[team].members && successor.value != user
    case _ => true
  }

  /** A change of one team that touches nobody outside it. */
  lemma OneTeamChanges(limits: Limits, teams: map<TeamID, Team>, team: TeamID, t: Team)
    requires Good(limits, teams) && team in teams && t.accepted == teams[team].accepted
    requires forall u | u in t.members :: u in teams[team].members || !Registered(teams, u)
    ensures Good(limits, teams[team := t]) <==> TeamOK(limits, t)
  {
    var after := teams[team := t];
    assert AcceptedIDs(after) == AcceptedIDs(teams);
    forall x, y, u | x in after && y in after && x != y && u in after[x].members ensures u !in after[y].members {
      if y == team && u in t.members {
        assert u in teams[x].members;
        assert Registered(teams, u);
      }
    }
    assert after[team] == t;
  }

  lemma TeamDisappears(limits: Limits, teams: map<TeamID, Team>, team: TeamID)
    requires Good(limits, teams)
    ensures Good(limits, teams - {team})
  {
    SubsetSize(AcceptedIDs(teams - {team}), AcceptedIDs(teams));
  }

  lemma NewTeamIsApart(teams: map<TeamID, Team>, id: TeamID, user: UserID, accepted: bool)
    requires Apart(teams) && id !in teams && !Registered(teams, user)
    ensures Apart(teams[id := Team(user, [user], accepted)])
    ensures AcceptedIDs(teams[id := Team(user, [user], accepted)]) == AcceptedIDs(teams) + if accepted then {id} else {}
  {
  }

  /** A team of one is sound whatever the limits, if nobody else has its founder and acceptance has room. */
  lemma NewTeamIsGood(limits: Limits, teams: map<TeamID, Team>, id: TeamID, user: UserID, accepted: bool)
    requires Sane(limits) && Good(limits, teams) && id !in teams && !Registered(teams, user)
    requires accepted && limits.maxTeamsAmount.Some? ==> |AcceptedIDs(teams)| < limits.maxTeamsAmount.value
    ensures Good(limits, teams[id := Team(user, [user], accepted)])
  {
    NewTeamIsApart(teams, id, user, accepted);
    assert TeamOK(limits, Team(user, [user], accepted));
  }

  lemma CreateKeeps(limits: Limits, st: State, user: UserID)
    requires Sane(limits) && Sound(limits, st)
    ensures Sound(limits, After(limits, st, Create(user)))
  {
    if !Registered(st.teams, user) {
      NewTeamIsGood(limits, st.teams, st.nextId, user, AcceptsAtOnce(limits, st.teams));
    }
  }

  lemma AcceptedTeamIsGood(limits: Limits, teams: map<TeamID, Team>, team: TeamID)
    requires Good(limits, teams) && team in teams
    requires teams[team].accepted || limits.maxTeamsAmount != Some(|AcceptedIDs(teams)|)
    ensures Good(limits, teams[team := teams[team].(accepted := true)])
  {
    var t := teams[team].(accepted := true);
    SameMembersApart(teams, team, t);
    AcceptingIsAdmitted(limits, teams, team, t);
    assert TeamOK(limits, teams[team]) && TeamOK(limits, t);
  }

  lemma AcceptingIsAdmitted(limits: Limits, teams: map<TeamID, Team>, team: TeamID, t: Team)
    requires Admitted(limits, teams) && team in teams && t.accepted
    requires teams[team].accepted || limits.maxTeamsAmount != Some(|AcceptedIDs(teams)|)
    ensures Admitted(limits, teams[team := t])
  {
    assert AcceptedIDs(teams[team := t]) == AcceptedIDs(teams) + {team};
    if teams[team].accepted {
      assert AcceptedIDs(teams) + {team} == AcceptedIDs(teams);
    }
  }

  lemma SameMembersApart(teams: map<TeamID, Team>, team: TeamID, t: Team)
    requires Apart(teams) && team in teams && t.members == teams[team].members
    ensures Apart(teams[team := t])
  {
  }

  lemma AcceptKeeps(limits: Limits, st: State, team: TeamID, isCreator: bool)
    requires Sound(limits, st)
    ensures Sound(limits, After(limits, st, Accept(team, isCreator)))
  {
    if Succeeds(limits, st, Accept(team, isCreator)) {
      AcceptedTeamIsGood(limits, st.teams, team);
    }
  }

  lemma JoinKeeps(limits: Limits, st: State, user: UserID, team: TeamID)
    requires Sound(limits, st)
    ensures Sound(limits, After(limits, st, Join(user, team)))
  {
    if Succeeds(limits, st, Join(user, team)) && user !in st.teams[team].members {
      var t := st.teams[team];
      assert TeamOK(limits, t);
      OneTeamChanges(limits, st.teams, team, t.(members := t.members + [user]));
    }
  }

  lemma RemoveKeeps(limits: Limits, st: State, user: UserID, team: TeamID, member: UserID)
    requires Sound(limits, st)
    ensures Sound(limits, After(limits, st, Remove(user, team, member)))
  {
    if Succeeds(limits, st, Remove(user, team, member)) {
      var t := st.teams[team];
      assert TeamOK(limits, t);
      WithoutKeeps(t.members, member);
      OneTeamChanges(limits, st.teams, team, t.(members := Without(t.members, member)));
    }
  }

  lemma LeaveKeepsIff(limits: Limits, st: State, user: UserID, team: TeamID, successor: Option<UserID>)
    requires Sound(limits, st)
    ensures Sound(limits, After(limits, st, Leave(user, team, successor))) <==>
            NamesAMember(st, Leave(user, team, successor))
  {
    if Succeeds(limits, st, Leave(user, team, successor)) {
      var t := st.teams[team];
      assert TeamOK(limits, t);
      WithoutKeeps(t.members, user);
      var members := Without(t.members, user);
      if members == [] {
        TeamDisappears(limits, st.teams, team);
      } else {
        var captain := if LeavesOthers(t, user) then successor.value else t.captain;
        OneTeamChanges(limits, st.teams, team, Team(captain, members, t.accepted));
      }
    }
  }

  lemma ChangeLeaderKeepsIff(limits: Limits, st: State, user: UserID, team: TeamID, captain: UserID)
    requires Sound(limits, st)
    ensures Sound(limits, After(limits, st, ChangeLeader(user, team, captain))) <==>
            NamesAMember(st, ChangeLeader(user, team, captain))
  {
    if Succeeds(limits, st, ChangeLeader(user, team, captain)) {
      var t := st.teams[team];
      assert TeamOK(limits, t);
      OneTeamChanges(limits, st.teams, team, t.(captain := captain));
    }
  }

  /** A request keeps the invariant exactly when any new captain it names is a member who stays. */
  lemma RequestKeepsIff(limits: Limits, st: State, r: Request)
    requires Sane(limits) && Sound(limits, st)
    ensures Sound(limits, After(limits, st, r)) <==> NamesAMember(st, r)
  {
    match r
    case Create(user) => CreateKeeps(limits, st, user);
    case Join(user, team) => JoinKeeps(limits, st, user, team);
    case Leave(user, team, successor) => LeaveKeepsIff(limits, st, user, team, successor);
    case Remove(user, team, member) => RemoveKeeps(limits, st, user, team, member);
    case ChangeLeader(user, team, captain) => ChangeLeaderKeepsIff(limits, st, user, team, captain);
    case Accept(team, isCreator) => AcceptKeeps(limits, st, team, isCreator);
    case Delete(user, team, isCreator) => TeamDisappears(limits, st.teams, team);
  }

  ghost function Serve(limits: Limits, requests: seq<Request>): State {
    if requests == [] then State(map[], 0)
    else After(limits, Serve(limits, requests[..|requests| - 1]), requests[|requests| - 1])
  }

  /** Over every run whose new captains are members: a user is in at most one team, teams and acceptance stay
      within their limits, and every team holds its captain. */
  lemma {:induction false} EveryRunIsGood(limits: Limits, requests: seq<Request>)
    requires Sane(limits)
    requires forall i | 0 <= i < |requests| :: NamesAMember(Serve(limits, requests[..i]), requests[i])
    ensures Sound(limits, Serve(limits, requests))
  {
    if requests == [] {
      assert AcceptedIDs(map[]) == {};
    } else {
      var last := |requests| - 1;
      assert forall i | 0 <= i < last :: requests[..last][..i] == requests[..i];
      EveryRunIsGood(limits, requests[..last]);
      RequestKeepsIff(limits, Serve(limits, requests[..last]), requests[last]);
    }
  }

  /** A captain can hand the team to an outsider: after creating a team, user 0 names user 1 its captain, and
      the team no longer holds its captain. */
  lemma OutsiderBecomesCaptain(limits: Limits)
    requires Sane(limits)
    ensures Sound(limits, Serve(limits, [Create(0)]))
    ensures !Sound(limits, Serve(limits, [Create(0), ChangeLeader(0, 0, 1)]))
  {
    var requests := [Create(0), ChangeLeader(0, 0, 1)];
    assert requests[..1] == [Create(0)] && [Create(0)][..0] == [];
    var empty := Serve(limits, []);
    assert Succeeds(limits, empty, Create(0));
    var st := Serve(limits, [Create(0)]);
    assert st == After(limits, empty, Create(0));
    assert st.teams[0] == Team(0, [0], AcceptsAtOnce(limits, empty.teams));
    EveryRunIsGood(limits, [Create(0)]);
    ChangeLeaderKeepsIff(limits, st, 0, 0, 1);
  }
}
