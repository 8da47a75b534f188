/** What the requests of a game do, one by one and over whole runs, in terms of the stored rows alone. */
module GameRules {
  import opened Prelude
  import opened Penalties
  import opened LinearClock
  import opened Polling
  import opened Ledger

  /** The user plays for the team, and the team is an accepted one. */
  ghost predicate PlaysFor(q: Quest, user: UserID, team: TeamID) {
    user in q.members && q.members[user] == team && team in q.teams && q.teams[team]
  }

  /** Looked up alone, a group is closed once it has a record or its limit, counted from the start, has run out. */
  ghost predicate ClosedAlone(q: Quest, db: Store, team: TeamID, g: Group, now: int) {
    || g.id in RecordsOf(db.records, team)
    || (g.hasTimeLimit && g.timeLimit.Some? && q.start + g.timeLimit.value < now)
  }

  /** Looked up alone, a group without a record is taken to have opened at the start. */
  ghost function OpeningAlone(q: Quest, db: Store, team: TeamID, g: Group): int {
    if g.id in RecordsOf(db.records, team) then RecordsOf(db.records, team)[g.id].opening else q.start
  }

  /** The task is one of the group's, and the group one of the quest's. */
  ghost predicate IsTaskOf(q: Quest, g: QuestGroup, t: QuestTask) {
    g in q.groups && t in g.tasks
  }

  lemma TaskIsFound(q: Quest, g: QuestGroup, t: QuestTask)
    requires WellFormed(q) && IsTaskOf(q, g, t)
    ensures Find(q.groups, t.id) == Some(Located(g, t))
  {
    assert HasTask(g, t.id);
    FoundGroup(q, g, t.id);
  }

  lemma ClosedAloneIff(q: Quest, db: Store, team: TeamID, g: Group, now: int)
    requires Consistent(q, db)
    ensures var info := OwnInfo(g, RecordsOf(db.records, team), q.start);
            && (info.None? <==> g.sticky)
            && (ClosedFor(g, info, now) <==> g.sticky || ClosedAlone(q, db, team, g, now))
            && (info.Some? ==> info.value.opening == OpeningAlone(q, db, team, g))
  {
  }

  lemma AcceptedIff(tries: seq<Try>, team: TeamID)
    ensures forall id :: id in AcceptedOf(tries, team) <==> HasAccepted(tries, team, id)
  {
    AcceptedMeans(tries, team);
  }

  // ---------------------------------------------------------------- showing the page

  ghost predicate SameElsewhere(records: map<TeamID, Infos>, records': map<TeamID, Infos>, team: TeamID) {
    forall other: TeamID | other != team :: RecordsOf(records', other) == RecordsOf(records, other)
  }

  /** Nothing but the records of one team may differ. */
  ghost predicate OnlyRecordsOf(db: Store, db': Store, team: TeamID) {
    && db'.tries == db.tries && db'.hints == db.hints && db'.penalties == db.penalties
    && SameElsewhere(db.records, db'.records, team)
  }

  /** Showing the page of a linear quest stores the closings its walk comes to; elsewhere it stores nothing. */
  lemma PageStores(q: Quest, db: Store, user: UserID, now: int)
    requires WellFormed(q) && Consistent(q, db)
    ensures user !in q.members ==> After(q, db, PlayPage(user, now)) == (db, Denied)
    ensures user in q.members && !q.linear ==> After(q, db, PlayPage(user, now)) == (db, Done)
    ensures user in q.members && q.linear ==>
              var stored := RecordsOf(db.records, q.members[user]);
              var walk := Schedule(Clocks(q.groups), stored, Shared(Clocks(q.groups), stored), q.start, now);
              var (db', reply) := After(q, db, PlayPage(user, now));
              && reply == Done && OnlyRecordsOf(db, db', q.members[user])
              && walk.Play? && RecordsOf(db'.records, q.members[user]) == walk.stored
  {
    if user in q.members && q.linear {
      PollIsSchedule(Clocks(q.groups), RecordsOf(db.records, q.members[user]), q.start, now);
    }
  }

  /** Only the team's own members show the page, at the given times. */
  ghost predicate ShowsPages(q: Quest, team: TeamID, requests: seq<Request>, times: seq<int>) {
    && |requests| == |times|
    && forall i | 0 <= i < |requests| ::
         requests[i].PlayPage? && requests[i].now == times[i] &&
         requests[i].user in q.members && q.members[requests[i].user] == team
  }

  /** The records are those of one walk from no records at the last of the times. */
  ghost predicate LeftByLast(q: Quest, records: Infos, times: seq<int>) {
    if times == [] then records == map[]
    else
      var play := Schedule(Clocks(q.groups), map[], None, q.start, times[|times| - 1]);
      play.Play? && records == play.stored && RecordedFirst(Clocks(q.groups), records)
  }

  /** The records of a team that only shows its page are those of the last showing. */
  lemma {:induction false} PagesPoll(q: Quest, team: TeamID, requests: seq<Request>, times: seq<int>)
    requires WellFormed(q) && q.linear && ShowsPages(q, team, requests, times) && Nondecreasing(times)
    ensures LeftByLast(q, RecordsOf(Serve(q, EMPTY, requests).records, team), times)
  {
    if times != [] {
      var last := |requests| - 1;
      var r := requests[last];
      PagesPoll(q, team, requests[..last], times[..last]);
      EveryRunIsConsistent(q, requests[..last]);
      OneMorePage(q, Serve(q, EMPTY, requests[..last]), team, r, times);
    }
  }

  lemma OneMorePage(q: Quest, db: Store, team: TeamID, r: Request, times: seq<int>)
    requires WellFormed(q) && Consistent(q, db) && q.linear && times != [] && Nondecreasing(times)
    requires r.PlayPage? && r.now == times[|times| - 1] && r.user in q.members && q.members[r.user] == team
    requires LeftByLast(q, RecordsOf(db.records, team), times[..|times| - 1])
    ensures LeftByLast(q, RecordsOf(After(q, db, r).0.records, team), times)
  {
    var clocks, records, last := Clocks(q.groups), RecordsOf(db.records, team), |times| - 1;
    NothingToShare(clocks, map[], ZERO_TIME);
    PageStores(q, db, r.user, r.now);
    RecordedFirstIsHarmless(clocks, records, q.start, r.now);
    PollIsSchedule(clocks, records, q.start, r.now);
    ScheduleKeepsRecordedFirst(clocks, records, None, q.start, r.now);
    if last > 0 {
      assert times[last - 1] <= times[last];
      ScheduleAbsorbs(clocks, map[], q.start, times[last - 1], times[last]);
    }
  }

  /** Over every run in which a team of a linear quest only shows its page: a first stretch of the timed groups is
      recorded, each opened when the one before it closed and closed when its limit ran out, and the next one's
      limit has not run out at the last showing. */
  lemma PagesChain(q: Quest, team: TeamID, requests: seq<Request>, times: seq<int>)
    requires WellFormed(q) && q.linear && ShowsPages(q, team, requests, times) && Nondecreasing(times) && times != []
    ensures IsChain(Timed(Clocks(q.groups)), RecordsOf(Serve(q, EMPTY, requests).records, team), q.start,
                    times[|times| - 1])
  {
    PagesPoll(q, team, requests, times);
    var k := ScheduleChains(Clocks(q.groups), map[], q.start, times[|times| - 1]);
  }

  // ---------------------------------------------------------------- answering

  /** Whether the answer counts as right: manual tasks are never accepted by answering. */
  predicate Right(t: QuestTask, correct: bool) {
    correct && !t.manual
  }

  /** With this task the team has every task of the group accepted. */
  ghost predicate Completes(db: Store, team: TeamID, g: QuestGroup, id: TaskID) {
    forall t | t in g.tasks :: t.id == id || HasAccepted(db.tries, team, t.id)
  }

  lemma CompletesIff(db: Store, team: TeamID, g: QuestGroup, id: TaskID)
    ensures AllSolved(AcceptedOf(db.tries, team).Keys + {id}, g.tasks) <==> Completes(db, team, g, id)
  {
    AcceptedIff(db.tries, team);
  }

  /** An answer is refused exactly when the user plays for no accepted team, or the task is still open for the team
      and its group is closed (in a linear quest, unless sticky), or it is the right answer that would complete a
      sticky group. */
  lemma AnswerRefusedIff(q: Quest, db: Store, user: UserID, g: QuestGroup, t: QuestTask, text: string, correct: bool,
                         now: int)
    requires WellFormed(q) && Consistent(q, db) && IsTaskOf(q, g, t)
    ensures After(q, db, TryAnswer(user, t.id, text, correct, now)).1.Denied? <==>
              if user !in q.members || !PlaysFor(q, user, q.members[user]) then true
              else
                var team := q.members[user];
                && !HasAccepted(db.tries, team, t.id)
                && if g.clock.sticky then Right(t, correct) && Completes(db, team, g, t.id)
                   else q.linear && ClosedAlone(q, db, team, g.clock, now)
  {
    TaskIsFound(q, g, t);
    RefusedBeforeRefresh(q, db, user, t.id, text, correct, now);
    if user in q.members {
      AcceptedIff(db.tries, q.members[user]);
      CompletesIff(db, q.members[user], g, t.id);
      ClosedAloneIff(q, db, q.members[user], g.clock, now);
    }
  }

  /** The page refresh never refuses: what the answer itself is refused for decides. */
  lemma RefusedBeforeRefresh(q: Quest, db: Store, user: UserID, id: TaskID, text: string, correct: bool, now: int)
    requires WellFormed(q) && Consistent(q, db)
    ensures After(q, db, TryAnswer(user, id, text, correct, now)).1 ==
            AfterAnswer(q, db, user, id, text, correct, now).1
  {
    if user in q.members {
      AnswerKeeps(q, db, user, id, text, correct, now);
      RefreshIsDone(q, AfterAnswer(q, db, user, id, text, correct, now).0, user, now);
    }
  }

  /** Requests for a task the quest does not have are refused. */
  lemma UnknownTaskRefused(q: Quest, db: Store, user: UserID, id: TaskID, text: string, correct: bool, index: int,
                           now: int)
    requires WellFormed(q) && Consistent(q, db)
    requires forall g, t | IsTaskOf(q, g, t) :: t.id != id
    ensures After(q, db, TryAnswer(user, id, text, correct, now)) == (db, Denied)
    ensures After(q, db, TakeHint(user, id, index, now)) == (db, Denied)
  {
    FoundIsTask(q, id);
    if user in q.members {
      if id in AcceptedOf(db.tries, q.members[user]) {
        AcceptedIsFound(q, db, q.members[user], id);
      }
    }
  }

  lemma FoundIsTask(q: Quest, id: TaskID)
    ensures Find(q.groups, id).Some? ==>
              var at := Find(q.groups, id).value; IsTaskOf(q, at.group, at.task) && at.task.id == id
  {
  }

  lemma AcceptedIsFound(q: Quest, db: Store, team: TeamID, id: TaskID)
    requires Consistent(q, db) && id in AcceptedOf(db.tries, team)
    ensures Find(q.groups, id).Some?
  {
    AcceptedIff(db.tries, team);
    var i :| 0 <= i < |db.tries| && db.tries[i].accepted && db.tries[i].team == team && db.tries[i].task == id;
    assert ScoreExplained(q, db, db.tries[i]);
  }

  /** The row an answer adds: a right answer scores the reward less the points of the hints taken. */
  ghost function NewTry(db: Store, team: TeamID, user: UserID, t: QuestTask, text: string, correct: bool, now: int)
    : Try
  {
    if Right(t, correct) then
      var taken := set h | h in db.hints && h.team == team && h.task == t.id :: h.index;
      Try(team, user, t.id, text, true, t.reward - TakenPoints(t.hints, taken, t.reward), now)
    else Try(team, user, t.id, text, false, 0, now)
  }

  /** The service's part of an answer to a task still open for the team. */
  lemma OpenAnswer(q: Quest, db: Store, user: UserID, g: QuestGroup, t: QuestTask, text: string, correct: bool,
                   now: int)
    requires Find(q.groups, t.id) == Some(Located(g, t)) && user in q.members
    requires !AfterAnswer(q, db, user, t.id, text, correct, now).1.Denied?
    requires t.id !in AcceptedOf(db.tries, q.members[user])
    ensures var (db', reply) := AfterAnswer(q, db, user, t.id, text, correct, now);
            var row := NewTry(db, q.members[user], user, t, text, correct, now);
            && reply == Answered(row.accepted, row.score, text)
            && db'.tries == db.tries + [row] && db'.hints == db.hints && db'.penalties == db.penalties
  {
    assert TakenBy(db.hints, q.members[user], t.id) ==
           set h | h in db.hints && h.team == q.members[user] && h.task == t.id :: h.index;
  }

  lemma OpenAnswerRecords(q: Quest, db: Store, user: UserID, g: QuestGroup, t: QuestTask, text: string, correct: bool,
                          now: int)
    requires Find(q.groups, t.id) == Some(Located(g, t)) && user in q.members
    requires !AfterAnswer(q, db, user, t.id, text, correct, now).1.Denied?
    requires t.id !in AcceptedOf(db.tries, q.members[user])
    ensures var team := q.members[user];
            var info := OwnInfo(g.clock, RecordsOf(db.records, team), q.start);
            var solved := Right(t, correct) && AllSolved(AcceptedOf(db.tries, team).Keys + {t.id}, g.tasks);
            && (solved ==> info.Some?)
            && AfterAnswer(q, db, user, t.id, text, correct, now).0.records ==
                 if solved then Closing(db.records, team, g.clock.id, info.value.opening, now) else db.records
  {
  }

  /** The page refresh touches nothing but records. */
  lemma RefreshKeepsRows(q: Quest, db: Store, user: UserID, id: TaskID, text: string, correct: bool, now: int)
    requires WellFormed(q) && Consistent(q, db) && !After(q, db, TryAnswer(user, id, text, correct, now)).1.Denied?
    ensures var db', answered := After(q, db, TryAnswer(user, id, text, correct, now)).0,
                                 AfterAnswer(q, db, user, id, text, correct, now).0;
            db'.tries == answered.tries && db'.hints == answered.hints && db'.penalties == answered.penalties
  {
  }

  /** An answer to a task still open for the team, unless refused, adds exactly its own row and replies with it. */
  lemma AnswerStores(q: Quest, db: Store, user: UserID, g: QuestGroup, t: QuestTask, text: string, correct: bool,
                     now: int)
    requires WellFormed(q) && Consistent(q, db) && IsTaskOf(q, g, t)
    requires !After(q, db, TryAnswer(user, t.id, text, correct, now)).1.Denied?
    requires user in q.members && !HasAccepted(db.tries, q.members[user], t.id)
    ensures var row := NewTry(db, q.members[user], user, t, text, correct, now);
            var (db', reply) := After(q, db, TryAnswer(user, t.id, text, correct, now));
            && reply == Answered(row.accepted, row.score, text)
            && db'.tries == db.tries + [row] && db'.hints == db.hints && db'.penalties == db.penalties
  {
    TaskIsFound(q, g, t);
    RefusedBeforeRefresh(q, db, user, t.id, text, correct, now);
    RefreshKeepsRows(q, db, user, t.id, text, correct, now);
    AcceptedIff(db.tries, q.members[user]);
    OpenAnswer(q, db, user, g, t, text, correct, now);
  }

  /** Answering an accepted task again stores no row and replies with the accepted one. */
  lemma AnsweringAgain(q: Quest, db: Store, user: UserID, id: TaskID, text: string, correct: bool, now: int)
    requires WellFormed(q) && Consistent(q, db)
    requires user in q.members && PlaysFor(q, user, q.members[user]) && HasAccepted(db.tries, q.members[user], id)
    ensures var (db', reply) := After(q, db, TryAnswer(user, id, text, correct, now));
            && db'.tries == db.tries && db'.hints == db.hints && db'.penalties == db.penalties
            && exists i :: 0 <= i < |db.tries| && db.tries[i].accepted && db.tries[i].team == q.members[user] &&
                 db.tries[i].task == id && reply == Answered(true, db.tries[i].score, db.tries[i].text)
  {
    AcceptedIff(db.tries, q.members[user]);
    RepliesAgain(q, db, user, id, text, correct, now);
    RefusedBeforeRefresh(q, db, user, id, text, correct, now);
    RefreshKeepsRows(q, db, user, id, text, correct, now);
    AcceptedRow(db.tries, q.members[user], id);
  }

  lemma RepliesAgain(q: Quest, db: Store, user: UserID, id: TaskID, text: string, correct: bool, now: int)
    requires user in q.members && PlaysFor(q, user, q.members[user]) && id in AcceptedOf(db.tries, q.members[user])
    ensures var row := AcceptedOf(db.tries, q.members[user])[id];
            AfterAnswer(q, db, user, id, text, correct, now) == (db, Answered(true, row.score, row.text))
  {
  }

  lemma {:induction false} AcceptedRow(tries: seq<Try>, team: TeamID, id: TaskID)
    requires id in AcceptedOf(tries, team)
    ensures exists i :: 0 <= i < |tries| && tries[i].accepted && tries[i].team == team && tries[i].task == id &&
              AcceptedOf(tries, team)[id] == AcceptedTask(tries[i].text, tries[i].score)
  {
    var last := |tries| - 1;
    if !(tries[last].accepted && tries[last].team == team && tries[last].task == id) {
      var before := tries[..last];
      AcceptedRow(before, team, id);
      var i :| 0 <= i < last && before[i].accepted && before[i].team == team && before[i].task == id &&
        AcceptedOf(before, team)[id] == AcceptedTask(before[i].text, before[i].score);
      assert before[i] == tries[i];
    }
  }

  /** The team's records, with the closing of the group that the answer completes, if it does. */
  ghost function RecordsAfter(q: Quest, db: Store, team: TeamID, g: QuestGroup, t: QuestTask, correct: bool, now: int)
    : Infos
  {
    var stored := RecordsOf(db.records, team);
    if !HasAccepted(db.tries, team, t.id) && Right(t, correct) && Completes(db, team, g, t.id) then
      stored[g.clock.id := TeamInfo(OpeningAlone(q, db, team, g.clock), Some(now))]
    else stored
  }

  /** An answer leaves the team the closing of the group it completes, and what the page refresh of a linear quest
      then comes to; other teams' records stay. */
  lemma AnswerRecordsClosing(q: Quest, db: Store, user: UserID, g: QuestGroup, t: QuestTask, text: string,
                             correct: bool, now: int)
    requires WellFormed(q) && Consistent(q, db) && IsTaskOf(q, g, t)
    requires !After(q, db, TryAnswer(user, t.id, text, correct, now)).1.Denied? && user in q.members
    ensures var db' := After(q, db, TryAnswer(user, t.id, text, correct, now)).0;
            var stored := RecordsAfter(q, db, q.members[user], g, t, correct, now);
            && SameElsewhere(db.records, db'.records, q.members[user])
            && AllClosed(stored)
            && var walk := Schedule(Clocks(q.groups), stored, Shared(Clocks(q.groups), stored), q.start, now);
               walk.Play? && RecordsOf(db'.records, q.members[user]) == if q.linear then walk.stored else stored
  {
    var team := q.members[user];
    var answered := AfterAnswer(q, db, user, t.id, text, correct, now).0;
    RefusedBeforeRefresh(q, db, user, t.id, text, correct, now);
    AnswerKeeps(q, db, user, t.id, text, correct, now);
    CompletedRecords(q, db, user, g, t, text, correct, now);
    PageStores(q, answered, user, now);
    var stored := RecordsAfter(q, db, team, g, t, correct, now);
    PollIsSchedule(Clocks(q.groups), stored, q.start, now);
  }

  /** Going from `db` to `db'` changes the records as `RecordsAfter` says. */
  ghost predicate RecordsFollow(q: Quest, db: Store, db': Store, team: TeamID, g: QuestGroup, t: QuestTask,
                                correct: bool, now: int) {
    && RecordsOf(db'.records, team) == RecordsAfter(q, db, team, g, t, correct, now)
    && SameElsewhere(db.records, db'.records, team)
  }

  lemma CompletedRecords(q: Quest, db: Store, user: UserID, g: QuestGroup, t: QuestTask, text: string, correct: bool,
                         now: int)
    requires WellFormed(q) && Consistent(q, db) && IsTaskOf(q, g, t)
    requires !AfterAnswer(q, db, user, t.id, text, correct, now).1.Denied? && user in q.members
    ensures RecordsFollow(q, db, AfterAnswer(q, db, user, t.id, text, correct, now).0, q.members[user], g, t, correct,
                          now)
  {
    var team := q.members[user];
    AcceptedIff(db.tries, team);
    if HasAccepted(db.tries, team, t.id) {
      RefusedOrMayPlay(q, db, user, t.id, text, correct, now);
      RepliesAgain(q, db, user, t.id, text, correct, now);
      AcceptedKeepsRecords(q, db, team, g, t, correct, now);
    } else {
      TaskIsFound(q, g, t);
      OpenAnswerRecords(q, db, user, g, t, text, correct, now);
      OpenRecords(q, db, AfterAnswer(q, db, user, t.id, text, correct, now).0, team, g, t, correct, now);
    }
  }

  lemma AcceptedKeepsRecords(q: Quest, db: Store, team: TeamID, g: QuestGroup, t: QuestTask, correct: bool, now: int)
    requires HasAccepted(db.tries, team, t.id)
    ensures RecordsFollow(q, db, db, team, g, t, correct, now)
  {
  }

  lemma RefusedOrMayPlay(q: Quest, db: Store, user: UserID, id: TaskID, text: string, correct: bool, now: int)
    requires user in q.members
    ensures AfterAnswer(q, db, user, id, text, correct, now).1.Denied? || PlaysFor(q, user, q.members[user])
  {
  }

  lemma OpenRecords(q: Quest, db: Store, db': Store, team: TeamID, g: QuestGroup, t: QuestTask, correct: bool, now: int)
    requires Consistent(q, db) && !HasAccepted(db.tries, team, t.id)
    requires var info := OwnInfo(g.clock, RecordsOf(db.records, team), q.start);
             var solved := Right(t, correct) && AllSolved(AcceptedOf(db.tries, team).Keys + {t.id}, g.tasks);
             && (solved ==> info.Some?)
             && db'.records ==
                  if solved then Closing(db.records, team, g.clock.id, info.value.opening, now) else db.records
    ensures RecordsFollow(q, db, db', team, g, t, correct, now)
  {
    CompletesIff(db, team, g, t.id);
    ClosedAloneIff(q, db, team, g.clock, now);
    ClosingLookup(db.records, team, g.clock.id, OpeningAlone(q, db, team, g.clock), now);
  }

  lemma ClosingLookup(records: map<TeamID, Infos>, team: TeamID, id: GroupID, opening: int, now: int)
    ensures var records' := Closing(records, team, id, opening, now);
            && RecordsOf(records', team) == RecordsOf(records, team)[id := TeamInfo(opening, Some(now))]
            && SameElsewhere(records, records', team)
  {
  }

  // ---------------------------------------------------------------- taking hints

  /** A hint is refused exactly when the user plays for no accepted team, in a linear quest the group is sticky or
      closed, the task is accepted already, or there is no such hint. */
  lemma HintRefusedIff(q: Quest, db: Store, user: UserID, g: QuestGroup, t: QuestTask, index: int, now: int)
    requires WellFormed(q) && Consistent(q, db) && IsTaskOf(q, g, t)
    ensures After(q, db, TakeHint(user, t.id, index, now)).1 != Done <==>
              if user !in q.members || !PlaysFor(q, user, q.members[user]) then true
              else
                || (q.linear && (g.clock.sticky || ClosedAlone(q, db, q.members[user], g.clock, now)))
                || HasAccepted(db.tries, q.members[user], t.id)
                || !(0 <= index < |t.hints|)
  {
    TaskIsFound(q, g, t);
    if user in q.members {
      AcceptedIff(db.tries, q.members[user]);
      ClosedAloneIff(q, db, q.members[user], g.clock, now);
    }
  }

  /** A hint request takes exactly the hint it asks for, if it is answered at all. */
  lemma HintTaken(q: Quest, db: Store, user: UserID, id: TaskID, index: int, now: int)
    ensures var (db', reply) := After(q, db, TakeHint(user, id, index, now));
            && db'.tries == db.tries && db'.penalties == db.penalties && db'.records == db.records
            && (reply != Done ==> db'.hints == db.hints)
            && (reply == Done ==> user in q.members && forall team, task ::
                  TakenBy(db'.hints, team, task) ==
                  TakenBy(db.hints, team, task) + if team == q.members[user] && task == id then {index} else {})
  {
    var (db', reply) := After(q, db, TakeHint(user, id, index, now));
    if reply == Done {
      var taken := HintTake(q.members[user], id, index);
      forall team, task
        ensures TakenBy(db'.hints, team, task) ==
                TakenBy(db.hints, team, task) + if team == taken.team && task == taken.task then {index} else {}
      {
        OneMoreHint(db.hints, taken, team, task);
      }
    }
  }

  lemma OneMoreHint(hints: set<HintTake>, taken: HintTake, team: TeamID, task: TaskID)
    ensures TakenBy(hints + {taken}, team, task) ==
            TakenBy(hints, team, task) + if team == taken.team && task == taken.task then {taken.index} else {}
  {
    var all := TakenBy(hints + {taken}, team, task);
    if team == taken.team && task == taken.task {
      assert taken in hints + {taken};
      assert taken.index in all;
    }
    forall i | i in TakenBy(hints, team, task) ensures i in all {
      var h :| h in hints && h.team == team && h.task == task && h.index == i;
      assert h in hints + {taken};
    }
  }

  // ---------------------------------------------------------------- penalties

  /** A known team's penalty becomes the value given, and nothing else changes; other requests are refused. */
  lemma PenaltyReplaces(q: Quest, db: Store, team: TeamID, value: int)
    ensures var (db', reply) := After(q, db, AddPenalty(team, value));
            && db'.tries == db.tries && db'.hints == db.hints && db'.records == db.records
            && (reply == Done <==> team in q.teams) && (reply != Done ==> reply == Denied && db' == db)
            && (reply == Done ==> team in db'.penalties && db'.penalties[team] == value)
            && forall other | other != team ::
                 (other in db'.penalties <==> other in db.penalties) &&
                 (other in db.penalties ==> db'.penalties[other] == db.penalties[other])
  {
  }

  lemma RefusedKeepsStore(q: Quest, db: Store, r: Request)
    requires After(q, db, r).1.Denied?
    ensures After(q, db, r).0 == db
  {
  }

  // ---------------------------------------------------------------- what no request does

  lemma AppendAccepts(tries: seq<Try>, row: Try, team: TeamID, id: TaskID)
    ensures HasAccepted(tries + [row], team, id) <==>
            HasAccepted(tries, team, id) || (row.accepted && row.team == team && row.task == id)
  {
    var all := tries + [row];
    if i :| 0 <= i < |tries| && tries[i].accepted && tries[i].team == team && tries[i].task == id {
      assert all[i] == tries[i];
    }
    assert all[|tries|] == row;
  }

  lemma AppendKeepsAccepted(tries: seq<Try>, row: Try, team: TeamID)
    requires !row.accepted || row.team != team
    ensures AcceptedOf(tries + [row], team) == AcceptedOf(tries, team)
  {
    assert (tries + [row])[..|tries|] == tries;
  }

  /** A wrong answer, and any answer to a manual task, accepts nothing for anybody. */
  lemma WrongAnswersAcceptNothing(q: Quest, db: Store, user: UserID, g: QuestGroup, t: QuestTask, text: string,
                                  correct: bool, now: int, team: TeamID)
    requires WellFormed(q) && Consistent(q, db) && IsTaskOf(q, g, t) && !Right(t, correct)
    ensures AcceptedOf(After(q, db, TryAnswer(user, t.id, text, correct, now)).0.tries, team) ==
            AcceptedOf(db.tries, team)
  {
    var r := TryAnswer(user, t.id, text, correct, now);
    if After(q, db, r).1.Denied? {
      RefusedKeepsStore(q, db, r);
    } else {
      MemberAnswers(q, db, user, t.id, text, correct, now);
      if HasAccepted(db.tries, q.members[user], t.id) {
        AnsweringAgain(q, db, user, t.id, text, correct, now);
      } else {
        AnswerStores(q, db, user, g, t, text, correct, now);
        AppendKeepsAccepted(db.tries, NewTry(db, q.members[user], user, t, text, correct, now), team);
      }
    }
  }

  /** Only members of accepted teams, and only to tasks of the quest, give answers that are not refused. */
  lemma MemberAnswers(q: Quest, db: Store, user: UserID, id: TaskID, text: string, correct: bool, now: int)
    requires WellFormed(q) && Consistent(q, db) && !After(q, db, TryAnswer(user, id, text, correct, now)).1.Denied?
    ensures user in q.members && PlaysFor(q, user, q.members[user]) && Find(q.groups, id).Some?
  {
    if Find(q.groups, id).None? {
      UnknownTaskRefused(q, db, user, id, text, correct, 0, now);
    }
  }

  // ---------------------------------------------------------------- over whole runs

  /** In this state the request is a right answer to the task by a member of the team, and is not refused. */
  ghost predicate Solves(q: Quest, db: Store, r: Request, team: TeamID, t: QuestTask) {
    && r.TryAnswer? && r.task == t.id && Right(t, r.correct)
    && r.user in q.members && q.members[r.user] == team && !After(q, db, r).1.Denied?
  }

  lemma RequestAccepts(q: Quest, db: Store, r: Request, team: TeamID, g: QuestGroup, t: QuestTask)
    requires WellFormed(q) && Consistent(q, db) && IsTaskOf(q, g, t)
    ensures HasAccepted(After(q, db, r).0.tries, team, t.id) <==>
            HasAccepted(db.tries, team, t.id) || Solves(q, db, r, team, t)
  {
    match r
    case PlayPage(user, now) => PageStores(q, db, user, now);
    case TakeHint(user, id, index, now) => HintTaken(q, db, user, id, index, now);
    case AddPenalty(other, value) => PenaltyReplaces(q, db, other, value);
    case TryAnswer(user, id, text, correct, now) =>
      if After(q, db, r).1.Denied? {
        RefusedKeepsStore(q, db, r);
      } else {
        AnswerAccepts(q, db, user, id, text, correct, now, team, g, t);
      }
  }

  lemma AnswerAccepts(q: Quest, db: Store, user: UserID, id: TaskID, text: string, correct: bool, now: int,
                      team: TeamID, g: QuestGroup, t: QuestTask)
    requires WellFormed(q) && Consistent(q, db) && IsTaskOf(q, g, t)
    requires !After(q, db, TryAnswer(user, id, text, correct, now)).1.Denied?
    ensures HasAccepted(After(q, db, TryAnswer(user, id, text, correct, now)).0.tries, team, t.id) <==>
            HasAccepted(db.tries, team, t.id) || Solves(q, db, TryAnswer(user, id, text, correct, now), team, t)
  {
    MemberAnswers(q, db, user, id, text, correct, now);
    FoundIsTask(q, id);
    TaskIsFound(q, g, t);
    var at := Find(q.groups, id).value;
    if HasAccepted(db.tries, q.members[user], id) {
      AnsweringAgain(q, db, user, id, text, correct, now);
    } else {
      AnswerStores(q, db, user, at.group, at.task, text, correct, now);
      AppendAccepts(db.tries, NewTry(db, q.members[user], user, at.task, text, correct, now), team, t.id);
    }
  }

  /** Some request of the run does, in the state it finds. */
  ghost predicate EverSolves(q: Quest, requests: seq<Request>, team: TeamID, t: QuestTask) {
    exists i :: 0 <= i < |requests| && Solves(q, Serve(q, EMPTY, requests[..i]), requests[i], team, t)
  }

  lemma EverSolvesStep(q: Quest, requests: seq<Request>, team: TeamID, t: QuestTask)
    requires requests != []
    ensures var before, r := requests[..|requests| - 1], requests[|requests| - 1];
            EverSolves(q, requests, team, t) <==>
              EverSolves(q, before, team, t) || Solves(q, Serve(q, EMPTY, before), r, team, t)
  {
    var before := requests[..|requests| - 1];
    assert forall i | 0 <= i < |before| :: before[..i] == requests[..i] && before[i] == requests[i];
  }

  /** Over every run: a task is accepted for a team exactly when some member of the team gave a right answer to it
      that was not refused. */
  lemma {:induction false} AcceptedIffSolved(q: Quest, requests: seq<Request>, team: TeamID, g: QuestGroup,
                                             t: QuestTask)
    requires WellFormed(q) && IsTaskOf(q, g, t)
    ensures HasAccepted(Serve(q, EMPTY, requests).tries, team, t.id) <==>
            EverSolves(q, requests, team, t)
  {
    if requests != [] {
      var last := |requests| - 1;
      var before := requests[..last];
      AcceptedIffSolved(q, before, team, g, t);
      EveryRunIsConsistent(q, before);
      RequestAccepts(q, Serve(q, EMPTY, before), requests[last], team, g, t);
      EverSolvesStep(q, requests, team, t);
    }
  }

  /** In this state the request takes this hint of the task for the team. */
  ghost predicate TakesHint(q: Quest, db: Store, r: Request, team: TeamID, id: TaskID, index: int) {
    && r.TakeHint? && r.task == id && r.index == index
    && r.user in q.members && q.members[r.user] == team && After(q, db, r).1 == Done
  }

  lemma RequestTakes(q: Quest, db: Store, r: Request, team: TeamID, id: TaskID, index: int)
    requires WellFormed(q) && Consistent(q, db)
    ensures index in TakenBy(After(q, db, r).0.hints, team, id) <==>
            index in TakenBy(db.hints, team, id) || TakesHint(q, db, r, team, id, index)
  {
    match r
    case PlayPage(user, now) => PageStores(q, db, user, now);
    case TakeHint(user, task, wanted, now) => HintTaken(q, db, user, task, wanted, now);
    case AddPenalty(other, value) => PenaltyReplaces(q, db, other, value);
    case TryAnswer(user, task, text, correct, now) =>
      if After(q, db, r).1.Denied? {
        RefusedKeepsStore(q, db, r);
      } else {
        AnswerTakesNoHint(q, db, user, task, text, correct, now);
      }
  }

  lemma AnswerTakesNoHint(q: Quest, db: Store, user: UserID, id: TaskID, text: string, correct: bool, now: int)
    requires WellFormed(q) && Consistent(q, db) && !After(q, db, TryAnswer(user, id, text, correct, now)).1.Denied?
    ensures After(q, db, TryAnswer(user, id, text, correct, now)).0.hints == db.hints
  {
    MemberAnswers(q, db, user, id, text, correct, now);
    FoundIsTask(q, id);
    if HasAccepted(db.tries, q.members[user], id) {
      AnsweringAgain(q, db, user, id, text, correct, now);
    } else {
      AnswerStores(q, db, user, Find(q.groups, id).value.group, Find(q.groups, id).value.task, text, correct, now);
    }
  }

  /** Some request of the run does, in the state it finds. */
  ghost predicate EverTakes(q: Quest, requests: seq<Request>, team: TeamID, id: TaskID, index: int) {
    exists i :: 0 <= i < |requests| && TakesHint(q, Serve(q, EMPTY, requests[..i]), requests[i], team, id, index)
  }

  lemma EverTakesStep(q: Quest, requests: seq<Request>, team: TeamID, id: TaskID, index: int)
    requires requests != []
    ensures var before, r := requests[..|requests| - 1], requests[|requests| - 1];
            EverTakes(q, requests, team, id, index) <==>
              EverTakes(q, before, team, id, index) || TakesHint(q, Serve(q, EMPTY, before), r, team, id, index)
  {
    var before := requests[..|requests| - 1];
    assert forall i | 0 <= i < |before| :: before[..i] == requests[..i] && before[i] == requests[i];
  }

  /** Over every run: the hints a team has taken for a task are exactly those its members asked for and were given. */
  lemma {:induction false} HintsTakenIff(q: Quest, requests: seq<Request>, team: TeamID, id: TaskID, index: int)
    requires WellFormed(q)
    ensures index in TakenBy(Serve(q, EMPTY, requests).hints, team, id) <==>
            EverTakes(q, requests, team, id, index)
  {
    if requests != [] {
      var last := |requests| - 1;
      var before := requests[..last];
      HintsTakenIff(q, before, team, id, index);
      EveryRunIsConsistent(q, before);
      RequestTakes(q, Serve(q, EMPTY, before), requests[last], team, id, index);
      EverTakesStep(q, requests, team, id, index);
    }
  }
}
