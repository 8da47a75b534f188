/** The game service over a mutable store, request by request. */
module Game {
  import opened Prelude
  import opened Penalties
  import opened LinearClock
  import opened Ledger

  /** Records that differ in one lookup only are those with that record written. */
  lemma OneRecordChanged(before: map<TeamID, Infos>, after: map<TeamID, Infos>, team: TeamID, group: GroupID,
                         info: TeamInfo)
    requires after.Keys == before.Keys + {team}
    requires Lookup(RecordsOf(after, team), group) == Some(info)
    requires forall t, g | t != team || g != group :: Lookup(RecordsOf(after, t), g) == Lookup(RecordsOf(before, t), g)
    ensures after == before[team := RecordsOf(before, team)[group := info]]
  {
    var written := RecordsOf(before, team)[group := info];
    forall t | t in after ensures after[t] == if t == team then written else before[t] {
      var expected := if t == team then written else before[t];
      forall g ensures Lookup(after[t], g) == Lookup(expected, g) {
        assert Lookup(RecordsOf(after, t), g) == Lookup(expected, g);
      }
      SameLookups(after[t], expected);
    }
  }

  lemma SameLookups(a: Infos, b: Infos)
    requires forall id :: Lookup(a, id) == Lookup(b, id)
    ensures a == b
  {
    forall id ensures id in a <==> id in b {
      assert Lookup(a, id) == Lookup(b, id);
    }
    forall id | id in a ensures a[id] == b[id] {
      assert Lookup(a, id) == Lookup(b, id);
    }
  }

  class Service {
    const quest: Quest
    var tries: seq<Try>
    var hints: set<HintTake>
    var penalties: map<TeamID, int>
    var records: map<TeamID, Infos>

    constructor (quest: Quest)
      ensures this.quest == quest && State() == EMPTY
    {
      this.quest := quest;
      tries, hints, penalties, records := [], {}, map[], map[];
    }

    ghost function State(): Store
      reads this
    {
      Store(tries, hints, penalties, records)
    }

    /** The team of a user, if it is an accepted one. */
    method AcceptedTeam(user: UserID) returns (team: Option<TeamID>)
      ensures team == if MayPlay(quest, user) then Some(quest.members[user]) else None
    {
      if user in quest.members && quest.members[user] in quest.teams && quest.teams[quest.members[user]] {
        return Some(quest.members[user]);
      }
      return None;
    }

    method GetAcceptedTasks(team: TeamID) returns (accepted: map<TaskID, AcceptedTask>)
      ensures accepted == AcceptedOf(tries, team)
    {
      accepted := map[];
      for i := 0 to |tries|
        invariant accepted == AcceptedOf(tries[..i], team)
      {
        assert tries[..i + 1][..i] == tries[..i];
        if tries[i].team == team && tries[i].accepted {
          accepted := accepted[tries[i].task := AcceptedTask(tries[i].text, tries[i].score)];
        }
      }
      assert tries[..|tries|] == tries;
    }

    /** The points of the hints the team has taken for the task. */
    method TakenPenalty(team: TeamID, task: QuestTask) returns (penalty: int)
      ensures penalty == TakenPoints(task.hints, TakenBy(hints, team, task.id), task.reward)
    {
      penalty := 0;
      for i := 0 to |task.hints|
        invariant penalty == TakenPoints(task.hints[..i], TakenBy(hints, team, task.id), task.reward)
      {
        assert task.hints[..i + 1][..i] == task.hints[..i];
        assert i in TakenBy(hints, team, task.id) <==> HintTake(team, task.id, i) in hints;
        if HintTake(team, task.id, i) in hints {
          penalty := penalty + PenaltyPoints(task.hints[i], task.reward);
        }
      }
      assert task.hints[..|task.hints|] == task.hints;
    }

    method SolvedAll(accepted: set<TaskID>, tasks: seq<QuestTask>) returns (all: bool)
      ensures all <==> AllSolved(accepted, tasks)
    {
      for i := 0 to |tasks|
        invariant AllSolved(accepted, tasks[..i])
      {
        if tasks[i].id !in accepted {
          return false;
        }
      }
      return true;
    }

    method UpsertTeamInfo(team: TeamID, group: GroupID, opening: int, closing: int)
      modifies this`records
      ensures Lookup(RecordsOf(records, team), group) == Some(TeamInfo(opening, Some(closing)))
      ensures forall t, g | t != team || g != group ::
                Lookup(RecordsOf(records, t), g) == Lookup(RecordsOf(old(records), t), g)
      ensures records.Keys == old(records).Keys + {team}
    {
      records := records[team := RecordsOf(records, team)[group := TeamInfo(opening, Some(closing))]];
    }

    method ClocksOf() returns (clocks: seq<Group>)
      ensures clocks == Clocks(quest.groups)
    {
      clocks := [];
      for i := 0 to |quest.groups|
        invariant clocks == Clocks(quest.groups)[..i]
      {
        clocks := clocks + [quest.groups[i].clock];
      }
    }

    /** Shows the game page; in a linear quest this stores the closing of run-out groups. */
    method PlayPage(user: UserID, now: int) returns (reply: Reply)
      modifies this`records
      ensures (State(), reply) == AfterPlayPage(quest, old(State()), user, now)
    {
      if user !in quest.members {
        return Denied;
      }
      if !quest.linear {
        return Done;
      }
      var team := quest.members[user];
      var stored := RecordsOf(records, team);
      var clocks := ClocksOf();
      var infos := FillTeamInfos(clocks, stored, quest.start);
      var play := FillAnswerData(clocks, infos, stored, now);
      if play.Panic? {
        return Denied;
      }
      records := records[team := play.stored];
      return Done;
    }

    method TakeHint(user: UserID, id: TaskID, index: int, now: int) returns (reply: Reply)
      modifies this`hints
      ensures (State(), reply) == AfterTakeHint(quest, old(State()), user, id, index, now)
    {
      var team := AcceptedTeam(user);
      var at := Find(quest.groups, id);
      if team.None? || at.None? {
        return Denied;
      }
      var g, task := at.value.group.clock, at.value.task;
      if quest.linear && ClosedFor(g, OwnInfo(g, RecordsOf(records, team.value), quest.start), now) {
        return Denied;
      }
      var accepted := GetAcceptedTasks(team.value);
      if id in accepted {
        return Denied;
      }
      if !(0 <= index < |task.hints|) {
        return Denied;
      }
      hints := hints + {HintTake(team.value, id, index)};
      return Done;
    }

    /** The service's part of answering; after an error the store may be half written. */
    method Answer(user: UserID, id: TaskID, text: string, correct: bool, now: int) returns (reply: Reply)
      modifies this`tries, this`records
      ensures reply == AfterAnswer(quest, old(State()), user, id, text, correct, now).1
      ensures reply.Answered? ==> State() == AfterAnswer(quest, old(State()), user, id, text, correct, now).0
    {
      var team := AcceptedTeam(user);
      if team.None? {
        return Denied;
      }
      var accepted := GetAcceptedTasks(team.value);
      if id in accepted {
        return Answered(true, accepted[id].score, accepted[id].text);
      }
      var at := Find(quest.groups, id);
      if at.None? {
        return Denied;
      }
      var group, task := at.value.group, at.value.task;
      var info := OwnInfo(group.clock, RecordsOf(records, team.value), quest.start);
      if quest.linear && !group.clock.sticky && ClosedFor(group.clock, info, now) {
        return Denied;
      }
      if !correct || task.manual {
        tries := tries + [Try(team.value, user, id, text, false, 0, now)];
        return Answered(false, 0, text);
      }
      var penalty := TakenPenalty(team.value, task);
      var score := task.reward - penalty;
      tries := tries + [Try(team.value, user, id, text, true, score, now)];
      var all := SolvedAll(accepted.Keys + {id}, group.tasks);
      if all {
        if info.None? {
          // The missing record is dereferenced: a panic, recovered above and rolled back.
          return Denied;
        }
        ghost var before := records;
        UpsertTeamInfo(team.value, group.clock.id, info.value.opening, now);
        OneRecordChanged(before, records, team.value, group.clock.id, TeamInfo(info.value.opening, Some(now)));
      }
      return Answered(true, score, text);
    }

    /** One transaction: answer, refresh the page of a linear quest, or leave everything as it was. */
    method TryAnswer(user: UserID, id: TaskID, text: string, correct: bool, now: int) returns (reply: Reply)
      modifies this`tries, this`records
      ensures (State(), reply) == AfterTryAnswer(quest, old(State()), user, id, text, correct, now)
    {
      var savedTries, savedRecords := tries, records;
      reply := Answer(user, id, text, correct, now);
      var refreshed := Done;
      if reply.Answered? {
        refreshed := PlayPage(user, now);
      }
      if reply.Denied? || refreshed.Denied? {
        tries, records := savedTries, savedRecords;
        reply := Denied;
      }
    }

    /** Replaces whatever penalty the team had. */
    method AddPenalty(team: TeamID, value: int) returns (reply: Reply)
      modifies this`penalties
      ensures (State(), reply) == After(quest, old(State()), Request.AddPenalty(team, value))
    {
      if team !in quest.teams {
        return Denied;
      }
      penalties := penalties - {team};
      penalties := penalties[team := value];
      assert penalties == old(penalties)[team := value];
      return Done;
    }
  }
}
