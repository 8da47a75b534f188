/** A linear quest answered out of order: what the shared closing time then does to groups nobody has opened. */
module OutOfOrder {
  import opened Prelude
  import opened LinearClock
  import opened Polling
  import opened Ledger

  // Groups 0 and 3 have no limit; groups 1 and 2 have 5 minutes each.
  const FIRST := Group(0, false, false, None)
  const SECOND := Group(1, false, true, Some(5))
  const THIRD := Group(2, false, true, Some(5))
  const FOURTH := Group(3, false, false, None)
  const CLOCKS := [FIRST, SECOND, THIRD, FOURTH]

  function OneTask(clock: Group): QuestGroup {
    QuestGroup(clock, [QuestTask(clock.id, 1, [], false)])
  }

  /** A linear quest from time 0 on, with one task a group, played by one accepted team of one user. */
  function QuestOf(clocks: seq<Group>): Quest {
    Quest(true, 0, seq(|clocks|, i requires 0 <= i < |clocks| => OneTask(clocks[i])), map[0 := 0], map[0 := true])
  }

  /** The team solves the first group at 10 and then, looking it up on its own, the fourth at 12. */
  const FIRST_ANSWER := TryAnswer(0, 0, "", true, 10)
  const SECOND_ANSWER := TryAnswer(0, 3, "", true, 12)

  const AFTER_FIRST: Infos := map[0 := TeamInfo(0, Some(10))]
  const AFTER_FOURTH: Infos := map[0 := TeamInfo(0, Some(10)), 3 := TeamInfo(0, Some(12))]

  lemma Suffixes()
    ensures CLOCKS[1..] == [SECOND, THIRD, FOURTH]
    ensures [SECOND, THIRD, FOURTH][1..] == [THIRD, FOURTH]
    ensures [THIRD, FOURTH][1..] == [FOURTH]
    ensures [FOURTH][1..] == []
  {
  }

  /** Both records are read with the fourth group's closing time. */
  lemma FourthIsShared()
    ensures Shared(CLOCKS, AFTER_FOURTH) == Some(12)
  {
    Suffixes();
    assert LastRow([FOURTH], AFTER_FOURTH, 10) == LastRow([], AFTER_FOURTH, 12);
    assert LastRow([THIRD, FOURTH], AFTER_FOURTH, 10) == LastRow([FOURTH], AFTER_FOURTH, 10);
    assert LastRow([SECOND, THIRD, FOURTH], AFTER_FOURTH, 10) == LastRow([THIRD, FOURTH], AFTER_FOURTH, 10);
    assert LastRow(CLOCKS, AFTER_FOURTH, ZERO_TIME) == LastRow([SECOND, THIRD, FOURTH], AFTER_FOURTH, 10);
  }

  /** The second group should open at 10, when the first closed, and so have run out by 16; the poll opens it at
      12, when the fourth closed, and leaves it open. */
  lemma SharingShows()
    ensures Schedule(CLOCKS, AFTER_FOURTH, None, 0, 16).Play? && Poll(CLOCKS, AFTER_FOURTH, 0, 16).Play?
    ensures Lookup(Schedule(CLOCKS, AFTER_FOURTH, None, 0, 16).stored, 1) == Some(TeamInfo(10, Some(15)))
    ensures Lookup(Poll(CLOCKS, AFTER_FOURTH, 0, 16).stored, 1) == None
  {
    Suffixes();
    FourthIsShared();
    PollIsSchedule(CLOCKS, AFTER_FOURTH, 0, 16);
    RunsOutIsKept([SECOND, THIRD, FOURTH], AFTER_FOURTH, None, 10, 16);
    RunsOutIsKept([SECOND, THIRD, FOURTH], AFTER_FOURTH, Some(12), 12, 16);
  }

  /** The poll at 18 closes the second group and would open the third at 17; the next poll opens it at 12. */
  lemma HaltsAtTheThird()
    ensures HaltOf(CLOCKS, AFTER_FOURTH, Some(12), 0, false, false, 18) == Halt([THIRD, FOURTH], 17, true, true)
    ensures Poll(CLOCKS, AFTER_FOURTH, 0, 18).Play?
    ensures Poll(CLOCKS, AFTER_FOURTH, 0, 18).stored == AFTER_FOURTH[1 := TeamInfo(12, Some(17))]
  {
    Suffixes();
    FourthIsShared();
    PollIsSchedule(CLOCKS, AFTER_FOURTH, 0, 18);
    var closed := AFTER_FOURTH[1 := TeamInfo(12, Some(17))];
    assert Schedule([THIRD, FOURTH], closed, Some(12), 17, 18) ==
           Play([Shown(THIRD, Some(TeamInfo(17, None)))], closed);
    assert HaltOf([SECOND, THIRD, FOURTH], AFTER_FOURTH, Some(12), 12, true, false, 18) ==
           Halt([THIRD, FOURTH], 17, true, true);
  }

  lemma StillShared()
    ensures LastRow(CLOCKS, AFTER_FOURTH[1 := TeamInfo(12, Some(17))], ZERO_TIME) == 12
  {
    Suffixes();
    var closed := AFTER_FOURTH[1 := TeamInfo(12, Some(17))];
    assert LastRow([FOURTH], closed, 17) == LastRow([], closed, 12);
    assert LastRow([THIRD, FOURTH], closed, 17) == LastRow([FOURTH], closed, 17);
    assert LastRow([SECOND, THIRD, FOURTH], closed, 10) == LastRow([THIRD, FOURTH], closed, 17);
    assert LastRow(CLOCKS, closed, ZERO_TIME) == LastRow([SECOND, THIRD, FOURTH], closed, 10);
  }

  /** A skipped poll shows: polled at 18 and at 100 the third group was open from 12 to 17, polled at 100 only
      it was open from 17 to 22. */
  lemma SkippedPollShows()
    ensures Lookup(Polled(CLOCKS, AFTER_FOURTH, 0, [18, 100]), 2) == Some(TeamInfo(12, Some(17)))
    ensures Lookup(Polled(CLOCKS, AFTER_FOURTH, 0, [100]), 2) == Some(TeamInfo(17, Some(22)))
  {
    HaltsAtTheThird();
    FourthIsShared();
    StillShared();
    assert [18, 100][1..] == [100] && [100][1..] == [];
    LaterPollsOpenAt(CLOCKS, AFTER_FOURTH, 0, 18, [100]);
    OnePollOpensAt(CLOCKS, AFTER_FOURTH, 0, 18, 100);
  }

  // ---------------------------------------------------------------- the records come from a run

  /** The answer that completes an open timed group records the closing. */
  lemma LastAnswerRecords(q: Quest, db: Store, user: UserID, id: TaskID, now: int, g: QuestGroup)
    requires FirstCorrect(q, db, user, id) && g == Find(q.groups, id).value.group && !g.clock.sticky
    requires AllSolved(AcceptedOf(db.tries, q.members[user]).Keys + {id}, g.tasks)
    requires !ClosedFor(g.clock, OwnInfo(g.clock, RecordsOf(db.records, q.members[user]), q.start), now)
    ensures var team := q.members[user];
            var opening := OwnInfo(g.clock, RecordsOf(db.records, team), q.start).value.opening;
            var (db', reply) := AfterAnswer(q, db, user, id, "", true, now);
            && reply.Answered? && |db'.tries| == |db.tries| + 1
            && db'.tries ==
               db.tries + [Try(team, user, id, "", true, ScoreOf(db, team, Find(q.groups, id).value.task), now)]
            && db'.records == Closing(db.records, team, g.clock.id, opening, now)
  {
  }

  /** A page refresh that closes nothing leaves the store as it is. */
  lemma RefreshLeaves(q: Quest, db: Store, user: UserID, now: int)
    requires q.linear && user in q.members && q.members[user] in db.records
    requires Polls(q, db, q.members[user], now).Play?
    requires Polls(q, db, q.members[user], now).stored == db.records[q.members[user]]
    ensures AfterPlayPage(q, db, user, now) == (db, Done)
  {
    assert db.records[q.members[user] := db.records[q.members[user]]] == db.records;
  }

  lemma AnswerThenRefresh(q: Quest, db: Store, user: UserID, id: TaskID, now: int, g: QuestGroup, stored: Infos)
    requires q.linear && FirstCorrect(q, db, user, id) && g == Find(q.groups, id).value.group && !g.clock.sticky
    requires AllSolved(AcceptedOf(db.tries, q.members[user]).Keys + {id}, g.tasks)
    requires !ClosedFor(g.clock, OwnInfo(g.clock, RecordsOf(db.records, q.members[user]), q.start), now)
    requires stored == Closing(db.records, q.members[user], g.clock.id,
                               OwnInfo(g.clock, RecordsOf(db.records, q.members[user]), q.start).value.opening,
                               now)[q.members[user]]
    requires Poll(Clocks(q.groups), stored, q.start, now).Play?
    requires Poll(Clocks(q.groups), stored, q.start, now).stored == stored
    ensures var team := q.members[user];
            var db' := AfterTryAnswer(q, db, user, id, "", true, now).0;
            && RecordsOf(db'.records, team) == stored && |db'.tries| == |db.tries| + 1
            && AcceptedOf(db'.tries, team).Keys == AcceptedOf(db.tries, team).Keys + {id}
  {
    LastAnswerRecords(q, db, user, id, now, g);
    var db' := AfterAnswer(q, db, user, id, "", true, now).0;
    RefreshLeaves(q, db', user, now);
    AcceptedAppend(db.tries, db'.tries[|db.tries|], q.members[user]);
  }

  /** The clocks are open enough for the refreshes after the two answers to close nothing. */
  lemma RefreshesCloseNothing()
    ensures Poll(CLOCKS, AFTER_FIRST, 0, 10).Play? && Poll(CLOCKS, AFTER_FIRST, 0, 10).stored == AFTER_FIRST
    ensures Poll(CLOCKS, AFTER_FOURTH, 0, 12).Play? && Poll(CLOCKS, AFTER_FOURTH, 0, 12).stored == AFTER_FOURTH
  {
    Suffixes();
    FourthIsShared();
    FirstIsShared();
    PollIsSchedule(CLOCKS, AFTER_FIRST, 0, 10);
    PollIsSchedule(CLOCKS, AFTER_FOURTH, 0, 12);
    RunsOutIsKept([SECOND, THIRD, FOURTH], AFTER_FIRST, Some(10), 10, 10);
    RunsOutIsKept([SECOND, THIRD, FOURTH], AFTER_FOURTH, Some(12), 12, 12);
  }

  lemma FirstIsShared()
    ensures Shared(CLOCKS, AFTER_FIRST) == Some(10)
  {
    Suffixes();
    NothingToShare([SECOND, THIRD, FOURTH], AFTER_FIRST, 10);
  }

  lemma QuestIsWellFormed(clocks: seq<Group>)
    requires DistinctGroups(clocks)
    ensures WellFormed(QuestOf(clocks)) && Clocks(QuestOf(clocks).groups) == clocks
  {
    var q := QuestOf(clocks);
    assert Clocks(q.groups) == clocks;
    forall g, h, t, u | g in q.groups && h in q.groups && t in g.tasks && u in h.tasks && t.id == u.id
      ensures t == u && g == h
    {
      var i :| 0 <= i < |clocks| && g == OneTask(clocks[i]);
      var j :| 0 <= j < |clocks| && h == OneTask(clocks[j]);
      assert t == g.tasks[0] && u == h.tasks[0];
    }
  }

  lemma FindsTask(clocks: seq<Group>, i: nat)
    requires DistinctGroups(clocks) && i < |clocks|
    ensures Find(QuestOf(clocks).groups, clocks[i].id) ==
            Some(Located(OneTask(clocks[i]), OneTask(clocks[i]).tasks[0]))
  {
    QuestIsWellFormed(clocks);
    var g := QuestOf(clocks).groups[i];
    assert g in QuestOf(clocks).groups && g.tasks[0] in g.tasks;
    assert HasTask(g, clocks[i].id);
    FoundGroup(QuestOf(clocks), g, clocks[i].id);
  }

  lemma UnlimitedIsOpen(g: Group, stored: Infos, start: int, now: int)
    requires !g.sticky && !g.Limited() && g.id !in stored
    ensures OwnInfo(g, stored, start) == Some(TeamInfo(start, None))
    ensures !ClosedFor(g, OwnInfo(g, stored, start), now)
  {
  }

  lemma MayAnswer(q: Quest, clocks: seq<Group>, db: Store, i: nat)
    requires q == QuestOf(clocks) && DistinctGroups(clocks) && i < |clocks|
    requires clocks[i].id !in AcceptedOf(db.tries, 0)
    ensures var g := OneTask(clocks[i]);
            && q.linear && q.start == 0 && q.members == map[0 := 0] && Clocks(q.groups) == clocks
            && FirstCorrect(q, db, 0, clocks[i].id) && Find(q.groups, clocks[i].id).value.group == g
            && AllSolved(AcceptedOf(db.tries, 0).Keys + {clocks[i].id}, g.tasks)
  {
    QuestIsWellFormed(clocks);
    FindsTask(clocks, i);
    OnlyTaskSolves(OneTask(clocks[i]), AcceptedOf(db.tries, 0).Keys);
  }

  lemma OnlyTaskSolves(g: QuestGroup, accepted: set<TaskID>)
    requires g == OneTask(g.clock)
    ensures AllSolved(accepted + {g.clock.id}, g.tasks)
  {
  }

  /** Answering the task of an unlimited group, whatever its place, records the group as closed. */
  lemma AnswerRecords(q: Quest, clocks: seq<Group>, db: Store, i: nat, now: int, stored: Infos)
    requires q == QuestOf(clocks)
    requires DistinctGroups(clocks) && i < |clocks| && !clocks[i].sticky && !clocks[i].Limited()
    requires clocks[i].id !in AcceptedOf(db.tries, 0) && clocks[i].id !in RecordsOf(db.records, 0)
    requires stored == RecordsOf(db.records, 0)[clocks[i].id := TeamInfo(0, Some(now))]
    requires Poll(clocks, stored, 0, now).Play? && Poll(clocks, stored, 0, now).stored == stored
    ensures var db' := AfterTryAnswer(q, db, 0, clocks[i].id, "", true, now).0;
            && RecordsOf(db'.records, 0) == stored
            && AcceptedOf(db'.tries, 0).Keys == AcceptedOf(db.tries, 0).Keys + {clocks[i].id}
  {
    MayAnswer(q, clocks, db, i);
    UnlimitedIsOpen(clocks[i], RecordsOf(db.records, 0), q.start, now);
    AnswerThenRefresh(q, db, 0, clocks[i].id, now, OneTask(clocks[i]), stored);
  }

  /** The two answers leave exactly the records above: a gap between the first and the fourth group. */
  lemma AnswersLeaveAGap()
    ensures RecordsOf(Serve(QuestOf(CLOCKS), EMPTY, [FIRST_ANSWER, SECOND_ANSWER]).records, 0) == AFTER_FOURTH
  {
    RefreshesCloseNothing();
    assert DistinctGroups(CLOCKS) && CLOCKS[0].id == 0 && CLOCKS[3].id == 3;
    var q := QuestOf(CLOCKS);
    var first := After(q, EMPTY, FIRST_ANSWER).0;
    ServeTwo(q, EMPTY, FIRST_ANSWER, SECOND_ANSWER);
    AnswerRecords(q, CLOCKS, EMPTY, 0, 10, AFTER_FIRST);
    AnswerRecords(q, CLOCKS, first, 3, 12, AFTER_FOURTH);
  }
}
