/** A run after which the result lists cannot be sorted: three teams whose rows compare in a circle. */
module Unsortable {
  import opened Prelude
  import opened LinearClock
  import opened Ledger
  import opened Results
  import opened Ranking
  import opened Standings

  const TASK := QuestTask(0, 1, [], false)

  /** One task worth 1, and three accepted teams of one user each. */
  const QUEST := Quest(false, 0, [QuestGroup(Group(0, false, false, None), [TASK])],
                       map[0 := 0, 1 := 1, 2 := 2], map[0 := true, 1 := true, 2 := true])

  /** Team 0 answers at 1 and team 1 at 2; penalties bring both back to the score of team 2, which never answers. */
  const ANSWERS := [TryAnswer(0, 0, "", true, 1), TryAnswer(1, 0, "", true, 2)]
  const PENALTIES := [AddPenalty(0, 1), AddPenalty(1, 1)]
  const TRIES := [Try(0, 0, 0, "", true, 1, 1), Try(1, 1, 0, "", true, 1, 2)]

  const NAMES := ["a", "c", "b"]
  const EARLY := Ranked(0, Some(1), "a")
  const LATE := Ranked(0, Some(2), "c")
  const NEVER := Ranked(0, None, "b")

  lemma FindsTask()
    ensures Find(QUEST.groups, 0) == Some(Located(QUEST.groups[0], TASK))
  {
    assert FindTask(QUEST.groups[0].tasks, 0) == Some(TASK);
  }

  /** A team's right answer is stored with the full score. */
  lemma AnswerIsStored(db: Store, team: TeamID, now: int)
    requires team < 2 && 0 !in AcceptedOf(db.tries, team)
    ensures After(QUEST, db, TryAnswer(team, 0, "", true, now)).0.tries ==
            db.tries + [Try(team, team, 0, "", true, 1, now)]
    ensures After(QUEST, db, TryAnswer(team, 0, "", true, now)).0.penalties == db.penalties
  {
    FindsTask();
    assert MayPlay(QUEST, team) && QUEST.members[team] == team;
    assert ScoreOf(db, team, TASK) == 1;
  }

  lemma AfterAnswers()
    ensures Serve(QUEST, EMPTY, ANSWERS).tries == TRIES && Serve(QUEST, EMPTY, ANSWERS).penalties == map[]
  {
    ServeTwo(QUEST, EMPTY, ANSWERS[0], ANSWERS[1]);
    AnswerIsStored(EMPTY, 0, 1);
    var first := After(QUEST, EMPTY, ANSWERS[0]).0;
    assert first.tries[..0] == [];
    AnswerIsStored(first, 1, 2);
  }

  /** The store after the run. */
  lemma AfterRun()
    ensures Serve(QUEST, EMPTY, ANSWERS + PENALTIES).tries == TRIES
    ensures Serve(QUEST, EMPTY, ANSWERS + PENALTIES).penalties == map[0 := 1, 1 := 1]
  {
    AfterAnswers();
    ServeMore(QUEST, EMPTY, ANSWERS, PENALTIES);
    ServeTwo(QUEST, Serve(QUEST, EMPTY, ANSWERS), PENALTIES[0], PENALTIES[1]);
  }

  lemma TheirScores()
    ensures ScoresOf(TRIES, 0) == map[0 := Scored(1, 1)]
    ensures ScoresOf(TRIES, 1) == map[0 := Scored(1, 2)]
    ensures ScoresOf(TRIES, 2) == map[]
  {
    assert TRIES[..1][..0] == [];
  }

  lemma OneScore(score: int, time: int, penalty: int, row: Row)
    requires row.score == SumOver(map[0 := Scored(score, time)], {0}) - SumValues([penalty])
    requires IsLatest(map[0 := Scored(score, time)], {0}, row.last)
    ensures row == Row(score - penalty, Some(time))
  {
    var scores: TeamScores := map[0 := Scored(score, time)];
    SumPicksAny(scores, {0}, 0);
    assert {0} - {0} == {};
    assert [penalty][..0] == [];
    assert 0 in {0};
  }

  /** The leaderboard's rows after the run. */
  lemma TheirRows(board: seq<Row>)
    requires |board| == 3
    requires forall i | 0 <= i < 3 :: IsBoardRow(Serve(QUEST, EMPTY, ANSWERS + PENALTIES), i, board[i])
    ensures board == [Row(0, Some(1)), Row(0, Some(2)), Row(0, None)]
  {
    AfterRun();
    TheirScores();
    assert map[0 := Scored(1, 1)].Keys == {0} && map[0 := Scored(1, 2)].Keys == {0};
    OneScore(1, 1, 1, board[0]);
    OneScore(1, 2, 1, board[1]);
  }

  /** After the run no order of the leaderboard's rows is sorted. */
  lemma NoSortedLeaderboard(board: seq<Row>, sorted: seq<Ranked>)
    requires |board| == 3
    requires forall i | 0 <= i < 3 :: IsBoardRow(Serve(QUEST, EMPTY, ANSWERS + PENALTIES), i, board[i])
    ensures !IsSortOf(sorted, BoardRanks(NAMES, board))
  {
    TheirRows(board);
    assert BoardRanks(NAMES, board) == [EARLY, LATE, NEVER];
    if multiset(sorted) == multiset([EARLY, LATE, NEVER]) {
      assert EARLY in multiset(sorted) && LATE in multiset(sorted) && NEVER in multiset(sorted);
      assert Between(EARLY, LATE, NEVER);
      CircleCannotBeSorted(EARLY, LATE, NEVER, sorted);
    }
  }
}
