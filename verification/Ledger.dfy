/** The stored answers, hints, penalties and group records of a quest, and what each request does to them. */
module Ledger {
  import opened Prelude
  import opened Penalties
  import opened LinearClock

  type TeamID = nat
  type UserID = nat
  type TaskID = nat

  datatype QuestTask = QuestTask(id: TaskID, reward: int, hints: seq<Penalty>, manual: bool)
  datatype QuestGroup = QuestGroup(clock: Group, tasks: seq<QuestTask>)

  /** What stays fixed while a quest is played; `teams` says which teams are accepted. */
  datatype Quest = Quest(linear: bool, start: int, groups: seq<QuestGroup>,
                         members: map<UserID, TeamID>, teams: map<TeamID, bool>)

  datatype Try = Try(team: TeamID, user: UserID, task: TaskID, text: string, accepted: bool, score: int, time: int)
  datatype HintTake = HintTake(team: TeamID, task: TaskID, index: int)

  datatype Store = Store(tries: seq<Try>, hints: set<HintTake>, penalties: map<TeamID, int>,
                         records: map<TeamID, Infos>)

  /** A request; `correct` is the verdict of comparing the text with the stored answers. */
  datatype Request =
    | PlayPage(user: UserID, now: int)
    | TakeHint(user: UserID, task: TaskID, index: int, now: int)
    | TryAnswer(user: UserID, task: TaskID, text: string, correct: bool, now: int)
    | AddPenalty(team: TeamID, value: int)

  /** An error leaves the store as it was: the transaction is rolled back, also after a panic. */
  datatype Reply = Denied | Done | Answered(accepted: bool, score: int, text: string)

  // ---------------------------------------------------------------- reading the store

  datatype AcceptedTask = AcceptedTask(text: string, score: int)

  /** The accepted tasks of a team; the last accepted row of a task wins. */
  ghost function AcceptedOf(tries: seq<Try>, team: TeamID): map<TaskID, AcceptedTask> {
    if tries == [] then map[]
    else
      var before, t := AcceptedOf(tries[..|tries| - 1], team), tries[|tries| - 1];
      if t.team == team && t.accepted then before[t.task := AcceptedTask(t.text, t.score)] else before
  }

  /** The team has had the task accepted. */
  ghost predicate HasAccepted(tries: seq<Try>, team: TeamID, id: TaskID) {
    exists i :: 0 <= i < |tries| && tries[i].accepted && tries[i].team == team && tries[i].task == id
  }

  ghost function TakenBy(hints: set<HintTake>, team: TeamID, task: TaskID): set<int> {
    set h | h in hints && h.team == team && h.task == task :: h.index
  }

  function RecordsOf(records: map<TeamID, Infos>, team: TeamID): Infos {
    if team in records then records[team] else map[]
  }

  datatype Located = Located(group: QuestGroup, task: QuestTask)

  function FindTask(tasks: seq<QuestTask>, id: TaskID): (r: Option<QuestTask>)
    ensures r.Some? ==> r.value in tasks && r.value.id == id
    ensures r.None? ==> forall t | t in tasks :: t.id != id
  {
    if tasks == [] then None
    else if tasks[0].id == id then Some(tasks[0])
    else FindTask(tasks[1..], id)
  }

  /** A task with its group. */
  function Find(groups: seq<QuestGroup>, id: TaskID): (r: Option<Located>)
    ensures r.Some? ==> r.value.group in groups && r.value.task in r.value.group.tasks && r.value.task.id == id
    ensures r.None? ==> forall g, t | g in groups && t in g.tasks :: t.id != id
  {
    if groups == [] then None
    else
      var here := FindTask(groups[0].tasks, id);
      if here.Some? then Some(Located(groups[0], here.value)) else Find(groups[1..], id)
  }

  ghost function Clocks(groups: seq<QuestGroup>): seq<Group> {
    seq(|groups|, i requires 0 <= i < |groups| => groups[i].clock)
  }

  lemma ReadAlone(g: Group, stored: Infos)
    ensures Lookup(Read([g], stored), g.id) == Lookup(stored, g.id)
  {
    assert [g][0] == g && [g][1..] == [];
    assert LastRow([g], stored, ZERO_TIME) ==
           LastRow([], stored, if g.id in stored then TimeOf(stored[g.id].closing) else ZERO_TIME);
  }

  /** The record of a group looked up on its own: a one-element list, so the start rule applies to any group. */
  function OwnInfo(g: Group, stored: Infos, start: int): (r: Option<TeamInfo>)
    ensures r == Lookup(Fill([g], Read([g], stored), start, None, true), g.id)
  {
    ReadAlone(g, stored);
    assert [g][0] == g && [g][1..] == [];
    if g.sticky then None else Some(if g.id in stored then stored[g.id] else TeamInfo(start, None))
  }

  /** No answer or hint is taken for the group any more; a run-out deadline counts as closed. */
  predicate ClosedFor(g: Group, info: Option<TeamInfo>, now: int) {
    || info.None?
    || info.value.closing.Some?
    || (g.Limited() && info.value.opening + g.timeLimit.value < now)
  }

  ghost predicate AllSolved(accepted: set<TaskID>, tasks: seq<QuestTask>) {
    forall t | t in tasks :: t.id in accepted
  }

  ghost predicate MayPlay(q: Quest, user: UserID) {
    user in q.members && q.members[user] in q.teams && q.teams[q.members[user]]
  }

  // ---------------------------------------------------------------- what each request does

  ghost function Polls(q: Quest, db: Store, team: TeamID, now: int): Play {
    Poll(Clocks(q.groups), RecordsOf(db.records, team), q.start, now)
  }

  /** Showing the game page; in a linear quest this closes the groups whose limit has run out. */
  ghost function AfterPlayPage(q: Quest, db: Store, user: UserID, now: int): (Store, Reply) {
    if user !in q.members then (db, Denied)
    else if !q.linear then (db, Done)
    else
      var team := q.members[user];
      var play := Polls(q, db, team, now);
      if play.Panic? then (db, Denied) else (db.(records := db.records[team := play.stored]), Done)
  }

  ghost function AfterTakeHint(q: Quest, db: Store, user: UserID, id: TaskID, index: int, now: int): (Store, Reply) {
    if !MayPlay(q, user) || Find(q.groups, id).None? then (db, Denied)
    else
      var team, at := q.members[user], Find(q.groups, id).value;
      var info := OwnInfo(at.group.clock, RecordsOf(db.records, team), q.start);
      if q.linear && ClosedFor(at.group.clock, info, now) then (db, Denied)
      else if id in AcceptedOf(db.tries, team) then (db, Denied)
      else if !(0 <= index < |at.task.hints|) then (db, Denied)
      else (db.(hints := db.hints + {HintTake(team, id, index)}), Done)
  }

  ghost function ScoreOf(db: Store, team: TeamID, task: QuestTask): int {
    task.reward - TakenPoints(task.hints, TakenBy(db.hints, team, task.id), task.reward)
  }

  /** The records with one group of a team upserted as closed. */
  function Closing(records: map<TeamID, Infos>, team: TeamID, id: GroupID, opening: int, closing: int)
    : map<TeamID, Infos>
  {
    records[team := RecordsOf(records, team)[id := TeamInfo(opening, Some(closing))]]
  }

  /** The service's part of answering: the new rows, without the page refresh that follows. */
  ghost function AfterAnswer(q: Quest, db: Store, user: UserID, id: TaskID, text: string, correct: bool, now: int)
    : (Store, Reply)
  {
    if !MayPlay(q, user) then (db, Denied)
    else
      var team := q.members[user];
      var accepted := AcceptedOf(db.tries, team);
      if id in accepted then (db, Answered(true, accepted[id].score, accepted[id].text))
      else if Find(q.groups, id).None? then (db, Denied)
      else
        var at := Find(q.groups, id).value;
        var info := OwnInfo(at.group.clock, RecordsOf(db.records, team), q.start);
        if q.linear && !at.group.clock.sticky && ClosedFor(at.group.clock, info, now) then (db, Denied)
        else if !correct || at.task.manual then
          (db.(tries := db.tries + [Try(team, user, id, text, false, 0, now)]), Answered(false, 0, text))
        else
          var score := ScoreOf(db, team, at.task);
          var tries := db.tries + [Try(team, user, id, text, true, score, now)];
          if !AllSolved(accepted.Keys + {id}, at.group.tasks) then
            (db.(tries := tries), Answered(true, score, text))
          else if info.None? then (db, Denied)
          else
            var records := Closing(db.records, team, at.group.clock.id, info.value.opening, now);
            (db.(tries := tries, records := records), Answered(true, score, text))
  }

  /** Answering, then in a linear quest refreshing the game page in the same transaction. */
  ghost function AfterTryAnswer(q: Quest, db: Store, user: UserID, id: TaskID, text: string, correct: bool, now: int)
    : (Store, Reply)
  {
    var (db', reply) := AfterAnswer(q, db, user, id, text, correct, now);
    if reply.Denied? then (db, Denied)
    else
      var (db'', refreshed) := AfterPlayPage(q, db', user, now);
      if refreshed.Denied? then (db, Denied) else (db'', reply)
  }

  ghost function After(q: Quest, db: Store, r: Request): (Store, Reply) {
    match r
    case PlayPage(user, now) => AfterPlayPage(q, db, user, now)
    case TakeHint(user, task, index, now) => AfterTakeHint(q, db, user, task, index, now)
    case TryAnswer(user, task, text, correct, now) => AfterTryAnswer(q, db, user, task, text, correct, now)
    case AddPenalty(team, value) =>
      if team in q.teams then (db.(penalties := db.penalties[team := value]), Done) else (db, Denied)
  }

  ghost function Serve(q: Quest, db: Store, requests: seq<Request>): Store {
    if requests == [] then db
    else After(q, Serve(q, db, requests[..|requests| - 1]), requests[|requests| - 1]).0
  }

  lemma ServeTwo(q: Quest, db: Store, a: Request, b: Request)
    ensures Serve(q, db, [a, b]) == After(q, After(q, db, a).0, b).0
  {
    assert [a, b][..1] == [a] && [a][..0] == [];
    assert Serve(q, db, [a]) == After(q, Serve(q, db, []), a).0;
  }

  lemma {:induction false} ServeMore(q: Quest, db: Store, requests: seq<Request>, more: seq<Request>)
    ensures Serve(q, db, requests + more) == Serve(q, Serve(q, db, requests), more)
    decreases |more|
  {
    if more == [] {
      assert requests + more == requests;
    } else {
      var last := |more| - 1;
      assert (requests + more)[..|requests| + last] == requests + more[..last];
      ServeMore(q, db, requests, more[..last]);
    }
  }

  const EMPTY := Store([], {}, map[], map[])

  // ---------------------------------------------------------------- the ledger invariant

  /** Distinct group and task identifiers, as the database guarantees. */
  ghost predicate WellFormed(q: Quest) {
    && DistinctGroups(Clocks(q.groups))
    && (forall g, h, t, u | g in q.groups && h in q.groups && t in g.tasks && u in h.tasks && t.id == u.id ::
          t == u && g == h)
  }

  ghost predicate AcceptedOnce(tries: seq<Try>) {
    forall i, j | 0 <= i < j < |tries| && tries[i].accepted && tries[j].accepted && tries[i].team == tries[j].team ::
      tries[i].task != tries[j].task
  }

  /** The stored score is the reward less the points of every hint the team has taken for the task. */
  ghost predicate ScoreExplained(q: Quest, db: Store, t: Try) {
    Find(q.groups, t.task).Some? && t.score == ScoreOf(db, t.team, Find(q.groups, t.task).value.task)
  }

  ghost predicate Consistent(q: Quest, db: Store) {
    && AcceptedOnce(db.tries)
    && (forall i | 0 <= i < |db.tries| && db.tries[i].accepted :: ScoreExplained(q, db, db.tries[i]))
    && (forall team | team in db.records :: AllClosed(db.records[team]))
  }

  lemma {:induction false} AcceptedMeans(tries: seq<Try>, team: TeamID)
    ensures forall id :: id in AcceptedOf(tries, team) <==>
              exists i :: 0 <= i < |tries| && tries[i].accepted && tries[i].team == team && tries[i].task == id
  {
    if tries != [] {
      var last := |tries| - 1;
      AcceptedMeans(tries[..last], team);
      forall id ensures id in AcceptedOf(tries, team) <==>
          exists i :: 0 <= i < |tries| && tries[i].accepted && tries[i].team == team && tries[i].task == id
      {
        if id in AcceptedOf(tries[..last], team) {
          var i :| 0 <= i < last && tries[..last][i].accepted && tries[..last][i].team == team &&
            tries[..last][i].task == id;
          assert tries[i].task == id;
        }
        if i :| 0 <= i < |tries| && tries[i].accepted && tries[i].team == team && tries[i].task == id {
          assert i < last ==> tries[..last][i] == tries[i];
        }
      }
    }
  }

  lemma PlayPageKeeps(q: Quest, db: Store, user: UserID, now: int)
    requires WellFormed(q) && Consistent(q, db)
    ensures Consistent(q, AfterPlayPage(q, db, user, now).0)
  {
    if user in q.members && q.linear {
      var stored := RecordsOf(db.records, q.members[user]);
      PollIsSchedule(Clocks(q.groups), stored, q.start, now);
      ScheduleGrows(Clocks(q.groups), stored, Shared(Clocks(q.groups), stored), q.start, now);
    }
  }

  lemma TakeHintKeeps(q: Quest, db: Store, user: UserID, id: TaskID, index: int, now: int)
    requires WellFormed(q) && Consistent(q, db)
    ensures Consistent(q, AfterTakeHint(q, db, user, id, index, now).0)
  {
    var db' := AfterTakeHint(q, db, user, id, index, now).0;
    if db' != db {
      var team := q.members[user];
      AcceptedMeans(db.tries, team);
      forall i | 0 <= i < |db.tries| && db.tries[i].accepted ensures ScoreExplained(q, db', db.tries[i]) {
        var t := db.tries[i];
        assert ScoreExplained(q, db, t);
        assert t.team != team || t.task != id;
        assert TakenBy(db'.hints, t.team, t.task) == TakenBy(db.hints, t.team, t.task);
      }
    }
  }

  /** One more try, explained by the store, of a task the team has not had accepted; records stay closed. */
  ghost predicate AddsTry(q: Quest, db: Store, db': Store, t: Try) {
    && db'.tries == db.tries + [t] && db'.hints == db.hints && db'.penalties == db.penalties
    && t.task !in AcceptedOf(db.tries, t.team)
    && (t.accepted ==> ScoreExplained(q, db, t))
    && (db'.records == db.records || exists id: GroupID, opening, now ::
          db'.records == Closing(db.records, t.team, id, opening, now))
  }

  lemma AnswerAddsATry(q: Quest, db: Store, user: UserID, id: TaskID, text: string, correct: bool, now: int)
    requires AfterAnswer(q, db, user, id, text, correct, now).0 != db
    ensures exists t :: AddsTry(q, db, AfterAnswer(q, db, user, id, text, correct, now).0, t) && t.task == id &&
              user in q.members && t.team == q.members[user]
  {
    var db' := AfterAnswer(q, db, user, id, text, correct, now).0;
    assert AddsTry(q, db, db', db'.tries[|db.tries|]);
  }

  lemma AddingATryKeeps(q: Quest, db: Store, db': Store, t: Try)
    requires Consistent(q, db) && AddsTry(q, db, db', t)
    ensures Consistent(q, db')
  {
    AcceptedMeans(db.tries, t.team);
    forall i | 0 <= i < |db'.tries| && db'.tries[i].accepted ensures ScoreExplained(q, db', db'.tries[i]) {
      if i < |db.tries| {
        assert ScoreExplained(q, db, db.tries[i]);
      }
    }
  }

  lemma AnswerKeeps(q: Quest, db: Store, user: UserID, id: TaskID, text: string, correct: bool, now: int)
    requires WellFormed(q) && Consistent(q, db)
    ensures Consistent(q, AfterAnswer(q, db, user, id, text, correct, now).0)
  {
    var db' := AfterAnswer(q, db, user, id, text, correct, now).0;
    if db' != db {
      AnswerAddsATry(q, db, user, id, text, correct, now);
      var t :| AddsTry(q, db, db', t);
      AddingATryKeeps(q, db, db', t);
    }
  }

  lemma RequestKeeps(q: Quest, db: Store, r: Request)
    requires WellFormed(q) && Consistent(q, db)
    ensures Consistent(q, After(q, db, r).0)
  {
    match r
    case PlayPage(user, now) => PlayPageKeeps(q, db, user, now);
    case TakeHint(user, task, index, now) => TakeHintKeeps(q, db, user, task, index, now);
    case TryAnswer(user, task, text, correct, now) =>
      AnswerKeeps(q, db, user, task, text, correct, now);
      PlayPageKeeps(q, AfterAnswer(q, db, user, task, text, correct, now).0, user, now);
    case AddPenalty(team, value) =>
  }

  /** Over every run: at most one accepted try per team and task, and every accepted score still equals the
      reward less the points of all hints the team has ever taken for the task. */
  lemma {:induction false} EveryRunIsConsistent(q: Quest, requests: seq<Request>)
    requires WellFormed(q)
    ensures Consistent(q, Serve(q, EMPTY, requests))
  {
    if requests != [] {
      EveryRunIsConsistent(q, requests[..|requests| - 1]);
      RequestKeeps(q, Serve(q, EMPTY, requests[..|requests| - 1]), requests[|requests| - 1]);
    }
  }

  // ---------------------------------------------------------------- closed groups stay as they are

  ghost predicate HasTask(g: QuestGroup, id: TaskID) {
    exists t :: t in g.tasks && t.id == id
  }

  /** The tries of a team on the tasks of one group, in order. */
  ghost function TriesOn(tries: seq<Try>, team: TeamID, g: QuestGroup): seq<Try> {
    if tries == [] then []
    else
      var t := tries[|tries| - 1];
      TriesOn(tries[..|tries| - 1], team, g) + if t.team == team && HasTask(g, t.task) then [t] else []
  }

  ghost function HintsOn(hints: set<HintTake>, team: TeamID, g: QuestGroup): set<HintTake> {
    set h | h in hints && h.team == team && HasTask(g, h.task)
  }

  /** The team has a record for the group. */
  ghost predicate HasClosed(db: Store, team: TeamID, g: QuestGroup) {
    g.clock.id in RecordsOf(db.records, team)
  }

  /** Nothing about the team and the group differs: not its record, its tries or its hints. */
  ghost predicate Frozen(db: Store, db': Store, team: TeamID, g: QuestGroup) {
    && Lookup(RecordsOf(db'.records, team), g.clock.id) == Lookup(RecordsOf(db.records, team), g.clock.id)
    && TriesOn(db'.tries, team, g) == TriesOn(db.tries, team, g)
    && HintsOn(db'.hints, team, g) == HintsOn(db.hints, team, g)
  }

  lemma FoundGroup(q: Quest, g: QuestGroup, id: TaskID)
    requires WellFormed(q) && g in q.groups
    ensures HasTask(g, id) <==> Find(q.groups, id).Some? && Find(q.groups, id).value.group == g
  {
  }

  lemma GroupsDifferById(q: Quest, g: QuestGroup, h: QuestGroup)
    requires WellFormed(q) && g in q.groups && h in q.groups && g != h
    ensures g.clock.id != h.clock.id
  {
    var i :| 0 <= i < |q.groups| && q.groups[i] == g;
    var j :| 0 <= j < |q.groups| && q.groups[j] == h;
    assert Clocks(q.groups)[i].id == g.clock.id && Clocks(q.groups)[j].id == h.clock.id;
  }

  lemma PlayPageFreezes(q: Quest, db: Store, user: UserID, now: int, team: TeamID, g: QuestGroup)
    requires WellFormed(q) && Consistent(q, db) && HasClosed(db, team, g)
    ensures Frozen(db, AfterPlayPage(q, db, user, now).0, team, g)
  {
    if user in q.members && q.linear {
      var stored := RecordsOf(db.records, q.members[user]);
      PollIsSchedule(Clocks(q.groups), stored, q.start, now);
      ScheduleGrows(Clocks(q.groups), stored, Shared(Clocks(q.groups), stored), q.start, now);
    }
  }

  lemma AnswerFreezes(q: Quest, db: Store, user: UserID, id: TaskID, text: string, correct: bool, now: int,
                      team: TeamID, g: QuestGroup)
    requires WellFormed(q) && Consistent(q, db) && q.linear
    requires g in q.groups && !g.clock.sticky && HasClosed(db, team, g)
    ensures Frozen(db, AfterAnswer(q, db, user, id, text, correct, now).0, team, g)
  {
    var db' := AfterAnswer(q, db, user, id, text, correct, now).0;
    FoundGroup(q, g, id);
    if db' != db {
      AnswerAddsATry(q, db, user, id, text, correct, now);
      var t :| AddsTry(q, db, db', t) && t.task == id && t.team == q.members[user];
      assert db'.tries[..|db'.tries| - 1] == db.tries;
      var other := Find(q.groups, id).value.group;
      if t.team == team {
        assert other != g;
        GroupsDifferById(q, g, other);
      }
    }
  }

  lemma TakeHintFreezes(q: Quest, db: Store, user: UserID, id: TaskID, index: int, now: int,
                        team: TeamID, g: QuestGroup)
    requires WellFormed(q) && Consistent(q, db) && q.linear
    requires g in q.groups && !g.clock.sticky && HasClosed(db, team, g)
    ensures Frozen(db, AfterTakeHint(q, db, user, id, index, now).0, team, g)
  {
    var db' := AfterTakeHint(q, db, user, id, index, now).0;
    FoundGroup(q, g, id);
    if db' != db {
      assert q.members[user] != team || !HasTask(g, id);
      OtherHint(db.hints, HintTake(q.members[user], id, index), team, g);
    }
  }

  lemma OtherHint(hints: set<HintTake>, h: HintTake, team: TeamID, g: QuestGroup)
    requires h.team != team || !HasTask(g, h.task)
    ensures HintsOn(hints + {h}, team, g) == HintsOn(hints, team, g)
  {
  }

  lemma TryAnswerFreezes(q: Quest, db: Store, user: UserID, id: TaskID, text: string, correct: bool, now: int,
                         team: TeamID, g: QuestGroup)
    requires WellFormed(q) && Consistent(q, db) && q.linear
    requires g in q.groups && !g.clock.sticky && HasClosed(db, team, g)
    ensures Frozen(db, AfterTryAnswer(q, db, user, id, text, correct, now).0, team, g)
  {
    var db' := AfterAnswer(q, db, user, id, text, correct, now).0;
    AnswerKeeps(q, db, user, id, text, correct, now);
    AnswerFreezes(q, db, user, id, text, correct, now, team, g);
    PlayPageFreezes(q, db', user, now, team, g);
  }

  lemma RequestFreezes(q: Quest, db: Store, r: Request, team: TeamID, g: QuestGroup)
    requires WellFormed(q) && Consistent(q, db) && q.linear
    requires g in q.groups && !g.clock.sticky && HasClosed(db, team, g)
    ensures Frozen(db, After(q, db, r).0, team, g)
  {
    match r
    case PlayPage(user, now) => PlayPageFreezes(q, db, user, now, team, g);
    case TakeHint(user, id, index, now) => TakeHintFreezes(q, db, user, id, index, now, team, g);
    case TryAnswer(user, id, text, correct, now) => TryAnswerFreezes(q, db, user, id, text, correct, now, team, g);
    case AddPenalty(_, _) =>
  }

  /** In a linear quest a timed group, once closed for a team, is closed for good: over every further run its
      record keeps its times, and no try or hint is added to it. */
  lemma {:induction false} ClosedForGood(q: Quest, db: Store, requests: seq<Request>, team: TeamID, g: QuestGroup)
    requires WellFormed(q) && Consistent(q, db) && q.linear
    requires g in q.groups && !g.clock.sticky && HasClosed(db, team, g)
    ensures Consistent(q, Serve(q, db, requests))
    ensures Frozen(db, Serve(q, db, requests), team, g)
  {
    if requests != [] {
      var before := Serve(q, db, requests[..|requests| - 1]);
      ClosedForGood(q, db, requests[..|requests| - 1], team, g);
      RequestKeeps(q, before, requests[|requests| - 1]);
      RequestFreezes(q, before, requests[|requests| - 1], team, g);
    }
  }

  // ---------------------------------------------------------------- solved groups

  /** A group all of whose tasks a team has had accepted is closed for the team, and is not a sticky one. */
  ghost predicate SolvedAreClosed(q: Quest, db: Store) {
    forall g, team | g in q.groups :: SolvedIsClosed(db, g, team)
  }

  lemma AcceptedAppend(tries: seq<Try>, t: Try, team: TeamID)
    ensures AcceptedOf(tries + [t], team).Keys ==
            AcceptedOf(tries, team).Keys + if t.accepted && t.team == team then {t.task} else {}
  {
    assert (tries + [t])[..|tries|] == tries;
  }

  /** The answer that completes a group closes it. */
  lemma LastAnswerCloses(q: Quest, db: Store, user: UserID, id: TaskID, text: string, correct: bool, now: int)
    requires AfterAnswer(q, db, user, id, text, correct, now).0 != db
    requires user in q.members && Find(q.groups, id).Some?
    requires id in AcceptedOf(AfterAnswer(q, db, user, id, text, correct, now).0.tries, q.members[user])
    requires AllSolved(AcceptedOf(AfterAnswer(q, db, user, id, text, correct, now).0.tries, q.members[user]).Keys,
                       Find(q.groups, id).value.group.tasks)
    ensures var g := Find(q.groups, id).value.group;
            !g.clock.sticky && HasClosed(AfterAnswer(q, db, user, id, text, correct, now).0, q.members[user], g)
  {
    var db' := AfterAnswer(q, db, user, id, text, correct, now).0;
    AcceptedAppend(db.tries, db'.tries[|db.tries|], q.members[user]);
  }

  ghost predicate SolvedIsClosed(db: Store, g: QuestGroup, team: TeamID) {
    g.tasks != [] && AllSolved(AcceptedOf(db.tries, team).Keys, g.tasks) ==> !g.clock.sticky && HasClosed(db, team, g)
  }

  lemma AnswerClosesSolved(q: Quest, db: Store, user: UserID, id: TaskID, text: string, correct: bool, now: int,
                           g: QuestGroup, team: TeamID)
    requires WellFormed(q) && g in q.groups && SolvedIsClosed(db, g, team)
    ensures SolvedIsClosed(AfterAnswer(q, db, user, id, text, correct, now).0, g, team)
  {
    var db' := AfterAnswer(q, db, user, id, text, correct, now).0;
    if db' != db {
      AnswerAddsATry(q, db, user, id, text, correct, now);
      var t :| AddsTry(q, db, db', t) && t.task == id && t.team == q.members[user];
      AcceptedAppend(db.tries, t, team);
      FoundGroup(q, g, id);
      if t.accepted && team == t.team && HasTask(g, id) {
        if AllSolved(AcceptedOf(db'.tries, team).Keys, g.tasks) {
          LastAnswerCloses(q, db, user, id, text, correct, now);
        }
      } else {
        ClosedStaysClosed(q, db, db', t, g, team);
        SolvedBefore(db, db', t, g, team);
      }
    }
  }

  lemma ClosedStaysClosed(q: Quest, db: Store, db': Store, t: Try, g: QuestGroup, team: TeamID)
    requires AddsTry(q, db, db', t)
    ensures HasClosed(db, team, g) ==> HasClosed(db', team, g)
  {
  }

  lemma SolvedBefore(db: Store, db': Store, t: Try, g: QuestGroup, team: TeamID)
    requires SolvedIsClosed(db, g, team)
    requires AcceptedOf(db'.tries, team).Keys ==
             AcceptedOf(db.tries, team).Keys + if t.accepted && t.team == team then {t.task} else {}
    requires !(t.accepted && t.team == team && HasTask(g, t.task))
    requires HasClosed(db, team, g) ==> HasClosed(db', team, g)
    ensures SolvedIsClosed(db', g, team)
  {
    if AllSolved(AcceptedOf(db'.tries, team).Keys, g.tasks) {
      forall u | u in g.tasks ensures u.id in AcceptedOf(db.tries, team).Keys {
        assert HasTask(g, u.id);
      }
    }
  }

  lemma PlayPageClosesSolved(q: Quest, db: Store, user: UserID, now: int, g: QuestGroup, team: TeamID)
    requires WellFormed(q) && Consistent(q, db) && SolvedIsClosed(db, g, team)
    ensures SolvedIsClosed(AfterPlayPage(q, db, user, now).0, g, team)
  {
    if HasClosed(db, team, g) {
      PlayPageFreezes(q, db, user, now, team, g);
    }
  }

  /** Over every run, solving all tasks of a group has closed it; a sticky group is never solved completely,
      because its last answer dereferences a missing record and is rolled back. */
  lemma {:induction false} SolvedGroupsAreClosed(q: Quest, requests: seq<Request>)
    requires WellFormed(q)
    ensures SolvedAreClosed(q, Serve(q, EMPTY, requests))
  {
    if requests == [] {
      forall g, team | g in q.groups && g.tasks != [] ensures SolvedIsClosed(EMPTY, g, team) {
        assert g.tasks[0] in g.tasks;
      }
    } else {
      var before, r := Serve(q, EMPTY, requests[..|requests| - 1]), requests[|requests| - 1];
      SolvedGroupsAreClosed(q, requests[..|requests| - 1]);
      EveryRunIsConsistent(q, requests[..|requests| - 1]);
      forall g, team | g in q.groups ensures SolvedIsClosed(After(q, before, r).0, g, team) {
        RequestClosesSolved(q, before, r, g, team);
      }
    }
  }

  lemma RequestClosesSolved(q: Quest, db: Store, r: Request, g: QuestGroup, team: TeamID)
    requires WellFormed(q) && Consistent(q, db) && g in q.groups && SolvedIsClosed(db, g, team)
    ensures SolvedIsClosed(After(q, db, r).0, g, team)
  {
    match r
    case PlayPage(user, now) => PlayPageClosesSolved(q, db, user, now, g, team);
    case TakeHint(user, id, index, now) => assert After(q, db, r).0.tries == db.tries;
    case TryAnswer(user, id, text, correct, now) => TryAnswerClosesSolved(q, db, user, id, text, correct, now, g, team);
    case AddPenalty(_, _) =>
  }

  lemma TryAnswerClosesSolved(q: Quest, db: Store, user: UserID, id: TaskID, text: string, correct: bool, now: int,
                              g: QuestGroup, team: TeamID)
    requires WellFormed(q) && Consistent(q, db) && g in q.groups && SolvedIsClosed(db, g, team)
    ensures SolvedIsClosed(AfterTryAnswer(q, db, user, id, text, correct, now).0, g, team)
  {
    AnswerKeeps(q, db, user, id, text, correct, now);
    AnswerClosesSolved(q, db, user, id, text, correct, now, g, team);
    PlayPageClosesSolved(q, AfterAnswer(q, db, user, id, text, correct, now).0, user, now, g, team);
  }

  /** The team's first correct answer to a task that is checked automatically. */
  ghost predicate FirstCorrect(q: Quest, db: Store, user: UserID, id: TaskID) {
    && MayPlay(q, user) && Find(q.groups, id).Some? && !Find(q.groups, id).value.task.manual
    && id !in AcceptedOf(db.tries, q.members[user])
  }

  /** A first correct answer is refused exactly when it is the last one missing in a sticky group, or comes to a
      closed group of a linear quest. */
  lemma CorrectAnswerRefusedIff(q: Quest, db: Store, user: UserID, id: TaskID, text: string, now: int)
    requires WellFormed(q) && Consistent(q, db) && FirstCorrect(q, db, user, id)
    ensures var group := Find(q.groups, id).value.group;
            var team := q.members[user];
            AfterTryAnswer(q, db, user, id, text, true, now).1.Denied? <==>
              if group.clock.sticky then AllSolved(AcceptedOf(db.tries, team).Keys + {id}, group.tasks)
              else q.linear && ClosedFor(group.clock, OwnInfo(group.clock, RecordsOf(db.records, team), q.start), now)
  {
    AnswerKeeps(q, db, user, id, text, true, now);
    RefreshIsDone(q, AfterAnswer(q, db, user, id, text, true, now).0, user, now);
  }

  lemma RefreshIsDone(q: Quest, db: Store, user: UserID, now: int)
    requires WellFormed(q) && Consistent(q, db) && user in q.members
    ensures AfterPlayPage(q, db, user, now).1.Done?
  {
    PollIsSchedule(Clocks(q.groups), RecordsOf(db.records, q.members[user]), q.start, now);
  }

  /** A quest of one group with one task, played by one accepted team of one user. */
  function OneTaskQuest(linear: bool, clock: Group): Quest {
    Quest(linear, 0, [QuestGroup(clock, [QuestTask(0, 1, [], false)])], map[0 := 0], map[0 := true])
  }

  lemma OneTaskIsWellFormed(linear: bool, clock: Group)
    ensures WellFormed(OneTaskQuest(linear, clock))
  {
    var q := OneTaskQuest(linear, clock);
    assert forall g | g in q.groups :: g == q.groups[0];
    assert forall t | t in q.groups[0].tasks :: t == q.groups[0].tasks[0];
  }

  lemma OneTaskIsFirstCorrect(linear: bool, clock: Group)
    ensures var q := OneTaskQuest(linear, clock);
            && FirstCorrect(q, EMPTY, 0, 0)
            && Find(q.groups, 0).value.group == q.groups[0]
            && AllSolved({0}, q.groups[0].tasks)
  {
    var q := OneTaskQuest(linear, clock);
    assert FindTask(q.groups[0].tasks, 0) == Some(q.groups[0].tasks[0]);
    assert Find(q.groups, 0) == Some(Located(q.groups[0], q.groups[0].tasks[0]));
  }

  lemma RefusedChangesNothing(q: Quest, db: Store, user: UserID, id: TaskID, text: string, correct: bool, now: int)
    requires AfterTryAnswer(q, db, user, id, text, correct, now).1.Denied?
    ensures AfterTryAnswer(q, db, user, id, text, correct, now).0 == db
  {
  }

  /** So the only task of a sticky group can never be solved: here the right answer, given first thing in a
      fresh quest, is refused and leaves nothing behind. */
  lemma StickyTaskCannotBeSolved(linear: bool, text: string, now: int)
    ensures var q := OneTaskQuest(linear, Group(0, true, false, None));
            AfterTryAnswer(q, EMPTY, 0, 0, text, true, now) == (EMPTY, Denied)
  {
    var q := OneTaskQuest(linear, Group(0, true, false, None));
    OneTaskIsWellFormed(linear, Group(0, true, false, None));
    OneTaskIsFirstCorrect(linear, Group(0, true, false, None));
    assert AcceptedOf(EMPTY.tries, 0).Keys + {0} == {0};
    CorrectAnswerRefusedIff(q, EMPTY, 0, 0, text, now);
    RefusedChangesNothing(q, EMPTY, 0, 0, text, true, now);
  }

  /** If every task was stored under a reward and penalties that the check accepts, every accepted score of
      every run lies between 0 and the reward. */
  lemma ScoresStayInRange(q: Quest, requests: seq<Request>, i: nat)
    requires WellFormed(q)
    requires forall g, t | g in q.groups && t in g.tasks ::
               t.reward >= 0 && Nonnegative(t.hints) && Fits(t.reward, t.hints)
    requires i < |Serve(q, EMPTY, requests).tries| && Serve(q, EMPTY, requests).tries[i].accepted
    ensures var t := Serve(q, EMPTY, requests).tries[i];
            Find(q.groups, t.task).Some? && 0 <= t.score <= Find(q.groups, t.task).value.task.reward
  {
    var db := Serve(q, EMPTY, requests);
    var t := db.tries[i];
    EveryRunIsConsistent(q, requests);
    assert ScoreExplained(q, db, t);
    var task := Find(q.groups, t.task).value.task;
    var taken := TakenBy(db.hints, t.team, t.task);
    ScoreStaysInRange(task.reward, task.hints, taken, taken);
  }

  /** Past a group's own deadline no answer and no hint is stored for its tasks: late ones are refused and rolled
      back, with the closing they would have written, and repeats of an accepted answer store nothing anyway. */
  lemma LateAnswersAreNotStored(q: Quest, db: Store, user: UserID, id: TaskID, text: string, correct: bool,
                                index: int, now: int, g: QuestGroup)
    requires WellFormed(q) && q.linear && g in q.groups && HasTask(g, id)
    requires !g.clock.sticky && g.clock.Limited() && user in q.members
    requires var stored := RecordsOf(db.records, q.members[user]);
             (if g.clock.id in stored then stored[g.clock.id].opening else q.start) + g.clock.timeLimit.value < now
    ensures AfterTryAnswer(q, db, user, id, text, correct, now).0.tries == db.tries
    ensures AfterTryAnswer(q, db, user, id, text, correct, now).0.hints == db.hints
    ensures AfterTakeHint(q, db, user, id, index, now) == (db, Denied)
  {
    FoundGroup(q, g, id);
    assert AfterAnswer(q, db, user, id, text, correct, now).0 == db;
  }
}
