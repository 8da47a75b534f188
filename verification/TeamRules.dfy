/** What the team requests do, one by one and over whole runs, in terms of who is in which team. */
module TeamRules {
  import opened Prelude
  import opened Teams

  /** No team but this one differs. */
  ghost predicate SameElsewhere(teams: map<TeamID, Team>, teams': map<TeamID, Team>, team: TeamID) {
    forall t: TeamID | t != team ::
      (t in teams' <==> t in teams) && (t in teams ==> teams'[t] == teams[t])
  }

  /** The team is still there, and only it may differ. */
  ghost predicate OnlyChanges(st: State, st': State, team: TeamID) {
    && team in st.teams && team in st'.teams && st'.nextId == st.nextId
    && SameElsewhere(st.teams, st'.teams, team)
  }

  /** The team is gone, and nothing else is. */
  ghost predicate OnlyDisappears(st: State, st': State, team: TeamID) {
    && team in st.teams && team !in st'.teams && st'.nextId == st.nextId
    && SameElsewhere(st.teams, st'.teams, team)
  }

  ghost predicate HasMember(st: State, team: TeamID, user: UserID) {
    team in st.teams && user in st.teams[team].members
  }

  /** The team has as many members as a team may have. */
  ghost predicate IsFull(limits: Limits, t: Team) {
    limits.maxTeamCap.Some? && |t.members| >= limits.maxTeamCap.value
  }

  /** As many teams are accepted as may be. */
  ghost predicate NoRoom(limits: Limits, teams: map<TeamID, Team>) {
    limits.maxTeamsAmount.Some? && |AcceptedIDs(teams)| >= limits.maxTeamsAmount.value
  }

  // ---------------------------------------------------------------- one request

  lemma RefusedKeepsState(limits: Limits, st: State, r: Request)
    requires !Succeeds(limits, st, r)
    ensures After(limits, st, r) == st
  {
  }

  /** A user founds a team unless already in one; it is the user alone, accepted at once exactly if registration is
      automatic and there is room. */
  lemma CreateEffect(limits: Limits, st: State, user: UserID)
    ensures var st' := After(limits, st, Create(user));
            && (Succeeds(limits, st, Create(user)) <==> forall t :: !HasMember(st, t, user))
            && (Succeeds(limits, st, Create(user)) ==>
                  && st'.nextId == st.nextId + 1 && SameElsewhere(st.teams, st'.teams, st.nextId)
                  && HasMember(st', st.nextId, user)
                  && var t := st'.teams[st.nextId];
                     t.captain == user && |t.members| == 1 &&
                     (t.accepted <==> limits.registration == Auto && !NoRoom(limits, st.teams)))
  {
    assert Registered(st.teams, user) <==> exists t :: HasMember(st, t, user) by {
      if t :| HasMember(st, t, user) {
        assert user in st.teams[t].members;
      }
      if Registered(st.teams, user) {
        var t :| t in st.teams && user in st.teams[t].members;
        assert HasMember(st, t, user);
      }
    }
  }

  /** Joining is refused exactly if there is no such team, the user is in another, or the team is full; a new member
      comes last, and a member joining again changes nothing. */
  lemma JoinEffect(limits: Limits, st: State, user: UserID, team: TeamID)
    requires Sound(limits, st)
    ensures var r := Join(user, team);
            var st' := After(limits, st, r);
            && (!Succeeds(limits, st, r) <==>
                  team !in st.teams || (exists t :: t != team && HasMember(st, t, user)) ||
                  (!HasMember(st, team, user) && IsFull(limits, st.teams[team])))
            && (Succeeds(limits, st, r) ==>
                  && OnlyChanges(st, st', team) && HasMember(st', team, user)
                  && st'.teams[team].captain == st.teams[team].captain
                  && (st'.teams[team].accepted <==> st.teams[team].accepted)
                  && st'.teams[team].members ==
                       if HasMember(st, team, user) then st.teams[team].members else st.teams[team].members + [user])
  {
    if team in st.teams {
      assert TeamOK(limits, st.teams[team]);
      RegisteredElsewhere(limits, st, user, team);
    }
  }

  lemma RegisteredElsewhere(limits: Limits, st: State, user: UserID, team: TeamID)
    requires Sound(limits, st) && team in st.teams
    ensures HasMember(st, team, user) ==> forall t | t != team :: !HasMember(st, t, user)
    ensures Registered(st.teams, user) <==>
            HasMember(st, team, user) || exists t :: t != team && HasMember(st, t, user)
  {
    if Registered(st.teams, user) {
      var t :| t in st.teams && user in st.teams[t].members;
      assert HasMember(st, t, user);
    }
  }

  /** Taking a user out keeps the other members, in order. */
  ghost predicate LosesMember(before: seq<UserID>, after: seq<UserID>, user: UserID) {
    if user in before then exists i :: 0 <= i < |before| && before[i] == user && after == before[..i] + before[i + 1..]
    else after == before
  }

  lemma LosesCons(first: UserID, before: seq<UserID>, after: seq<UserID>, user: UserID)
    requires first != user && LosesMember(before, after, user)
    ensures LosesMember([first] + before, [first] + after, user)
  {
    if user in before {
      var i :| 0 <= i < |before| && before[i] == user && after == before[..i] + before[i + 1..];
      var all := [first] + before;
      assert all[i + 1] == user;
      assert [first] + after == all[..i + 1] + all[i + 2..];
    }
  }

  lemma {:induction false} WithoutLoses(members: seq<UserID>, user: UserID)
    requires NoRepeats(members)
    ensures LosesMember(members, Without(members, user), user)
  {
    if members != [] {
      var first, rest := members[0], members[1..];
      assert members == [first] + rest;
      assert forall i | 0 <= i < |rest| :: rest[i] == members[i + 1];
      if first == user {
        assert user !in rest;
        WithoutKeeps(rest, user);
        assert members[..0] + members[1..] == rest;
      } else {
        WithoutLoses(rest, user);
        LosesCons(first, rest, Without(rest, user), user);
      }
    }
  }

  /** Leaving is refused exactly if there is no such team, or its captain leaves others behind and names no
      successor. The last member takes the team away; otherwise it loses the user, and a captain who left has the
      named successor in their place. */
  lemma LeaveEffect(limits: Limits, st: State, user: UserID, team: TeamID, successor: Option<UserID>)
    requires Sound(limits, st)
    ensures var r := Leave(user, team, successor);
            var st' := After(limits, st, r);
            && (!Succeeds(limits, st, r) <==>
                  team !in st.teams ||
                  (st.teams[team].captain == user && st.teams[team].members != [user] && successor.None?))
            && (Succeeds(limits, st, r) ==>
                  if st.teams[team].members == [user] then OnlyDisappears(st, st', team)
                  else
                    && OnlyChanges(st, st', team)
                    && LosesMember(st.teams[team].members, st'.teams[team].members, user)
                    && (st'.teams[team].accepted <==> st.teams[team].accepted)
                    && (st.teams[team].captain != user ==> st'.teams[team].captain == st.teams[team].captain)
                    && (st.teams[team].captain == user ==> Some(st'.teams[team].captain) == successor))
  {
    if team in st.teams {
      var t := st.teams[team];
      assert TeamOK(limits, t);
      WithoutLoses(t.members, user);
      OnlyMember(t, user);
    }
  }

  lemma OnlyMember(t: Team, user: UserID)
    requires NoRepeats(t.members) && t.captain in t.members
    ensures LeavesOthers(t, user) <==> t.captain == user && t.members != [user]
    ensures Without(t.members, user) == [] <==> t.members == [user]
  {
    WithoutKeeps(t.members, user);
    NoRepeatsSize(t.members);
    if Without(t.members, user) == [] {
      SubsetSize(Elements(t.members), {user});
    }
  }

  /** Removing is for the captain alone, and never of the captain; it takes exactly the named member out. */
  lemma RemoveEffect(limits: Limits, st: State, user: UserID, team: TeamID, member: UserID)
    requires Sound(limits, st)
    ensures var r := Remove(user, team, member);
            var st' := After(limits, st, r);
            && (!Succeeds(limits, st, r) <==> team !in st.teams || st.teams[team].captain != user || member == user)
            && (Succeeds(limits, st, r) ==>
                  && OnlyChanges(st, st', team)
                  && LosesMember(st.teams[team].members, st'.teams[team].members, member)
                  && st'.teams[team].captain == user && user in st'.teams[team].members
                  && (st'.teams[team].accepted <==> st.teams[team].accepted))
  {
    if team in st.teams {
      assert TeamOK(limits, st.teams[team]);
      WithoutLoses(st.teams[team].members, member);
    }
  }

  /** The captain, and nobody else, passes the role on; members and acceptance stay. */
  lemma ChangeLeaderEffect(limits: Limits, st: State, user: UserID, team: TeamID, captain: UserID)
    ensures var r := ChangeLeader(user, team, captain);
            var st' := After(limits, st, r);
            && (!Succeeds(limits, st, r) <==> team !in st.teams || st.teams[team].captain != user)
            && (Succeeds(limits, st, r) ==>
                  && OnlyChanges(st, st', team) && st'.teams[team].captain == captain
                  && st'.teams[team].members == st.teams[team].members
                  && (st'.teams[team].accepted <==> st.teams[team].accepted))
  {
  }

  /** The creator accepts a team unless there is no room for one more; that is all that changes. */
  lemma AcceptEffect(limits: Limits, st: State, team: TeamID, isCreator: bool)
    requires Sound(limits, st)
    ensures var r := Accept(team, isCreator);
            var st' := After(limits, st, r);
            && (!Succeeds(limits, st, r) <==>
                  !isCreator || team !in st.teams || (!st.teams[team].accepted && NoRoom(limits, st.teams)))
            && (Succeeds(limits, st, r) ==>
                  && OnlyChanges(st, st', team) && st'.teams[team].accepted
                  && st'.teams[team].members == st.teams[team].members
                  && st'.teams[team].captain == st.teams[team].captain)
  {
  }

  /** The captain or the creator deletes a team, and exactly that team. */
  lemma DeleteEffect(limits: Limits, st: State, user: UserID, team: TeamID, isCreator: bool)
    ensures var r := Delete(user, team, isCreator);
            && (!Succeeds(limits, st, r) <==> team !in st.teams || (st.teams[team].captain != user && !isCreator))
            && (Succeeds(limits, st, r) ==> OnlyDisappears(st, After(limits, st, r), team))
  {
  }

  // ---------------------------------------------------------------- over whole runs

  /** The request succeeds in putting the user into the team. */
  ghost predicate Enters(limits: Limits, st: State, r: Request, team: TeamID, user: UserID) {
    && Succeeds(limits, st, r)
    && match r
       case Create(u) => u == user && team == st.nextId
       case Join(u, t) => u == user && t == team
       case _ => false
  }

  /** The request succeeds in taking the user out of the team, or the team away. */
  ghost predicate Exits(limits: Limits, st: State, r: Request, team: TeamID, user: UserID) {
    && Succeeds(limits, st, r)
    && match r
       case Leave(u, t, _) => u == user && t == team
       case Remove(_, t, member) => member == user && t == team
       case Delete(_, t, _) => t == team
       case _ => false
  }

  ghost predicate Fresh(st: State) {
    forall t | t in st.teams :: t < st.nextId
  }

  lemma MemberStep(limits: Limits, st: State, r: Request, team: TeamID, user: UserID)
    requires Fresh(st)
    ensures Fresh(After(limits, st, r))
    ensures HasMember(After(limits, st, r), team, user) <==>
            Enters(limits, st, r, team, user) || (HasMember(st, team, user) && !Exits(limits, st, r, team, user))
  {
  }

  ghost predicate EntersAt(limits: Limits, requests: seq<Request>, i: int, team: TeamID, user: UserID) {
    0 <= i < |requests| && Enters(limits, Serve(limits, requests[..i]), requests[i], team, user)
  }

  ghost predicate ExitsAt(limits: Limits, requests: seq<Request>, i: int, team: TeamID, user: UserID) {
    0 <= i < |requests| && Exits(limits, Serve(limits, requests[..i]), requests[i], team, user)
  }

  /** Request `i` put the user into the team, and none after it took the user out. */
  ghost predicate CameAt(limits: Limits, requests: seq<Request>, i: int, team: TeamID, user: UserID) {
    EntersAt(limits, requests, i, team, user) &&
    forall j | i < j < |requests| :: !ExitsAt(limits, requests, j, team, user)
  }

  ghost predicate CameAndStayed(limits: Limits, requests: seq<Request>, team: TeamID, user: UserID) {
    exists i :: CameAt(limits, requests, i, team, user)
  }

  lemma SamePrefix(limits: Limits, requests: seq<Request>, i: nat, team: TeamID, user: UserID)
    requires i < |requests| - 1
    ensures EntersAt(limits, requests[..|requests| - 1], i, team, user) <==> EntersAt(limits, requests, i, team, user)
    ensures ExitsAt(limits, requests[..|requests| - 1], i, team, user) <==> ExitsAt(limits, requests, i, team, user)
  {
    assert requests[..|requests| - 1][..i] == requests[..i];
  }

  lemma CameAtStep(limits: Limits, requests: seq<Request>, i: nat, team: TeamID, user: UserID)
    requires i < |requests| - 1
    ensures var last := |requests| - 1;
            CameAt(limits, requests, i, team, user) <==>
              CameAt(limits, requests[..last], i, team, user) && !ExitsAt(limits, requests, last, team, user)
  {
    var last := |requests| - 1;
    var before := requests[..last];
    SamePrefix(limits, requests, i, team, user);
    if CameAt(limits, requests, i, team, user) {
      forall j | i < j < last ensures !ExitsAt(limits, before, j, team, user) {
        SamePrefix(limits, requests, j, team, user);
      }
    }
    if CameAt(limits, before, i, team, user) && !ExitsAt(limits, requests, last, team, user) {
      forall j | i < j < |requests| ensures !ExitsAt(limits, requests, j, team, user) {
        if j < last {
          SamePrefix(limits, requests, j, team, user);
        }
      }
    }
  }

  lemma CameAndStayedStep(limits: Limits, requests: seq<Request>, team: TeamID, user: UserID)
    requires requests != []
    ensures var last := |requests| - 1;
            CameAndStayed(limits, requests, team, user) <==>
              EntersAt(limits, requests, last, team, user) ||
              (CameAndStayed(limits, requests[..last], team, user) && !ExitsAt(limits, requests, last, team, user))
  {
    var last := |requests| - 1;
    if CameAndStayed(limits, requests, team, user) {
      var i :| CameAt(limits, requests, i, team, user);
      if i < last {
        CameAtStep(limits, requests, i, team, user);
      }
    }
    if EntersAt(limits, requests, last, team, user) {
      assert CameAt(limits, requests, last, team, user);
    } else if CameAndStayed(limits, requests[..last], team, user) {
      var i :| CameAt(limits, requests[..last], i, team, user);
      CameAtStep(limits, requests, i, team, user);
    }
  }

  /** Over every run: a user is in a team exactly if some request put them into it, by founding or joining, and no
      later one took them out, by leaving, removal or deletion. */
  lemma {:induction false} MemberIffCameAndStayed(limits: Limits, requests: seq<Request>, team: TeamID, user: UserID)
    ensures Fresh(Serve(limits, requests))
    ensures HasMember(Serve(limits, requests), team, user) <==> CameAndStayed(limits, requests, team, user)
  {
    if requests != [] {
      var last := |requests| - 1;
      MemberIffCameAndStayed(limits, requests[..last], team, user);
      MemberStep(limits, Serve(limits, requests[..last]), requests[last], team, user);
      CameAndStayedStep(limits, requests, team, user);
    }
  }
}
