/** The team service over a mutable store, request by request. */
module TeamService {
  import opened Prelude
  import opened Teams

  lemma OneMember(rest: seq<UserID>, members: seq<UserID>, i: nat, user: UserID)
    requires i < |members|
    ensures rest + Without(members[i..], user) ==
            (if members[i] != user then rest + [members[i]] else rest) + Without(members[i + 1..], user)
  {
    assert members[i..][0] == members[i] && members[i..][1..] == members[i + 1..];
  }

  class Service {
    const limits: Limits
    var teams: map<TeamID, Team>
    var nextId: nat

    constructor (limits: Limits)
      ensures this.limits == limits && Current() == Serve(limits, [])
    {
      this.limits := limits;
      teams, nextId := map[], 0;
    }

    ghost function Current(): State
      reads this
    {
      State(teams, nextId)
    }

    method AlreadyRegistered(user: UserID) returns (found: bool)
      ensures found <==> Registered(teams, user)
    {
      var todo := teams.Keys;
      while todo != {}
        invariant todo <= teams.Keys
        invariant forall t | t in teams && t !in todo :: user !in teams[t].members
      {
        var t := AnyOf(todo);
        if user in teams[t].members {
          return true;
        }
        todo := todo - {t};
      }
      return false;
    }

    method CountAccepted() returns (n: nat)
      ensures n == |AcceptedIDs(teams)|
    {
      var todo := teams.Keys;
      var accepted: set<TeamID> := {};
      while todo != {}
        invariant todo <= teams.Keys
        invariant accepted == AcceptedIDs(teams) - todo
      {
        var t := AnyOf(todo);
        if teams[t].accepted {
          accepted := accepted + {t};
        }
        todo := todo - {t};
      }
      assert AcceptedIDs(teams) - {} == AcceptedIDs(teams);
      n := |accepted|;
    }

    method GetRegistrationStatus() returns (accepted: bool)
      ensures accepted <==> AcceptsAtOnce(limits, teams)
    {
      if limits.registration == Auto && limits.maxTeamsAmount.None? {
        return true;
      }
      var current := CountAccepted();
      return limits.registration == Auto && current < limits.maxTeamsAmount.value;
    }

    method CreateTeam(user: UserID) returns (ok: bool)
      modifies this
      ensures Current() == After(limits, old(Current()), Create(user))
      ensures ok <==> Succeeds(limits, old(Current()), Create(user))
    {
      var registered := AlreadyRegistered(user);
      if registered {
        return false;
      }
      var accepted := GetRegistrationStatus();
      teams := teams[nextId := Team(user, [user], accepted)];
      nextId := nextId + 1;
      return true;
    }

    method JoinTeam(user: UserID, team: TeamID) returns (ok: bool)
      modifies this`teams
      ensures Current() == After(limits, old(Current()), Join(user, team))
      ensures ok <==> Succeeds(limits, old(Current()), Join(user, team))
    {
      if team !in teams {
        return false;
      }
      var t := teams[team];
      if user in t.members {
        return true;
      }
      var registered := AlreadyRegistered(user);
      if registered || (limits.maxTeamCap.Some? && limits.maxTeamCap.value == |t.members|) {
        return false;
      }
      teams := teams[team := t.(members := t.members + [user])];
      return true;
    }

    /** Rebuilds the member list without the user. */
    method MembersWithout(members: seq<UserID>, user: UserID) returns (rest: seq<UserID>)
      ensures rest == Without(members, user)
    {
      rest := [];
      ghost var whole := Without(members, user);
      assert members[0..] == members;
      for i := 0 to |members|
        invariant rest + Without(members[i..], user) == whole
      {
        OneMember(rest, members, i, user);
        if members[i] != user {
          rest := rest + [members[i]];
        }
      }
    }

    method LeaveTeam(user: UserID, team: TeamID, successor: Option<UserID>) returns (ok: bool)
      modifies this`teams
      ensures Current() == After(limits, old(Current()), Leave(user, team, successor))
      ensures ok <==> Succeeds(limits, old(Current()), Leave(user, team, successor))
    {
      if team !in teams {
        return false;
      }
      var t := teams[team];
      var captain := t.captain;
      if t.captain == user && |t.members| > 1 {
        if successor.None? {
          return false;
        }
        captain := successor.value;
      }
      var members := MembersWithout(t.members, user);
      teams := teams[team := Team(captain, members, t.accepted)];
      if |members| == 0 {
        teams := teams - {team};
        assert teams == old(teams) - {team};
      }
      return true;
    }

    method RemoveUser(user: UserID, team: TeamID, member: UserID) returns (ok: bool)
      modifies this`teams
      ensures Current() == After(limits, old(Current()), Remove(user, team, member))
      ensures ok <==> Succeeds(limits, old(Current()), Remove(user, team, member))
    {
      if team !in teams || teams[team].captain != user || member == user {
        return false;
      }
      var members := MembersWithout(teams[team].members, member);
      teams := teams[team := teams[team].(members := members)];
      return true;
    }

    method ChangeLeader(user: UserID, team: TeamID, captain: UserID) returns (ok: bool)
      modifies this`teams
      ensures Current() == After(limits, old(Current()), Request.ChangeLeader(user, team, captain))
      ensures ok <==> Succeeds(limits, old(Current()), Request.ChangeLeader(user, team, captain))
    {
      if team !in teams || teams[team].captain != user {
        return false;
      }
      teams := teams[team := teams[team].(captain := captain)];
      return true;
    }

    method AcceptTeam(team: TeamID, isCreator: bool) returns (ok: bool)
      modifies this`teams
      ensures Current() == After(limits, old(Current()), Accept(team, isCreator))
      ensures ok <==> Succeeds(limits, old(Current()), Accept(team, isCreator))
    {
      if !isCreator {
        return false;
      }
      var alreadyAccepted := team in teams && teams[team].accepted;
      if !alreadyAccepted {
        var current := CountAccepted();
        if limits.maxTeamsAmount.Some? && current == limits.maxTeamsAmount.value {
          return false;
        }
        if team !in teams {
          return false;
        }
        teams := teams[team := teams[team].(accepted := true)];
      }
      return true;
    }

    method DeleteTeam(user: UserID, team: TeamID, isCreator: bool) returns (ok: bool)
      modifies this`teams
      ensures Current() == After(limits, old(Current()), Delete(user, team, isCreator))
      ensures ok <==> Succeeds(limits, old(Current()), Delete(user, team, isCreator))
    {
      if team !in teams || (teams[team].captain != user && !isCreator) {
        return false;
      }
      teams := teams - {team};
      return true;
    }
  }
}
