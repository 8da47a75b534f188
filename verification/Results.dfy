/** The admin table and the leaderboard: two ways of adding up the same scores. */
module Results {
  import opened Prelude
  import opened Ledger

  datatype Scored = Scored(score: int, time: int)
  type TeamScores = map<TaskID, Scored>

  // ---------------------------------------------------------------- one team's scores

  /** The scores of a team's accepted tries; the last accepted row of a task wins. */
  ghost function ScoresOf(tries: seq<Try>, team: TeamID): TeamScores {
    if tries == [] then map[]
    else
      var before, t := ScoresOf(tries[..|tries| - 1], team), tries[|tries| - 1];
      if t.team == team && t.accepted then before[t.task := Scored(t.score, t.time)] else before
  }

  function ScoresIn(results: map<TeamID, TeamScores>, team: TeamID): TeamScores {
    if team in results then results[team] else map[]
  }

  method GetScoreResults(tries: seq<Try>) returns (results: map<TeamID, TeamScores>)
    ensures forall team :: ScoresIn(results, team) == ScoresOf(tries, team)
  {
    results := map[];
    for i := 0 to |tries|
      invariant forall team :: ScoresIn(results, team) == ScoresOf(tries[..i], team)
    {
      assert tries[..i + 1][..i] == tries[..i];
      var t := tries[i];
      if t.accepted {
        var taskRes := ScoresIn(results, t.team);
        results := results[t.team := taskRes[t.task := Scored(t.score, t.time)]];
      }
    }
    assert tries[..|tries|] == tries;
  }

  /** With at most one accepted try per task, the scores of a team are exactly those of its accepted tries. */
  lemma {:induction false} ScoresAreAccepted(tries: seq<Try>, team: TeamID)
    requires AcceptedOnce(tries)
    ensures forall i | 0 <= i < |tries| && tries[i].accepted && tries[i].team == team ::
              tries[i].task in ScoresOf(tries, team) &&
              ScoresOf(tries, team)[tries[i].task] == Scored(tries[i].score, tries[i].time)
    ensures forall id :: id in ScoresOf(tries, team) ==> HasAccepted(tries, team, id)
  {
    if tries != [] {
      var last := |tries| - 1;
      var before := tries[..last];
      assert forall i | 0 <= i < last :: before[i] == tries[i];
      ScoresAreAccepted(before, team);
      forall id | id in ScoresOf(tries, team) ensures HasAccepted(tries, team, id) {
        if id in ScoresOf(before, team) {
          var i :| 0 <= i < last && before[i].accepted && before[i].team == team && before[i].task == id;
          assert tries[i] == before[i];
        }
      }
    }
  }

  // ---------------------------------------------------------------- sums and latest times

  ghost function SumOver(scores: TeamScores, ids: set<TaskID>): int
    requires ids <= scores.Keys
  {
    if ids == {} then 0
    else
      var id :| id in ids;
      scores[id].score + SumOver(scores, ids - {id})
  }

  /** The sum does not depend on the order in which the map is walked. */
  lemma {:induction false} SumPicksAny(scores: TeamScores, ids: set<TaskID>, id: TaskID)
    requires ids <= scores.Keys && id in ids
    ensures SumOver(scores, ids) == scores[id].score + SumOver(scores, ids - {id})
    decreases ids
  {
    var first :| first in ids && SumOver(scores, ids) == scores[first].score + SumOver(scores, ids - {first});
    if first != id {
      SumPicksAny(scores, ids - {first}, id);
      SumPicksAny(scores, ids - {id}, first);
      assert ids - {first} - {id} == ids - {id} - {first};
    }
  }

  /** The latest of the given times, if there is one. */
  ghost predicate IsLatest(scores: TeamScores, ids: set<TaskID>, last: Option<int>)
    requires ids <= scores.Keys
  {
    && (last.None? <==> ids == {})
    && (last.Some? ==> (exists id :: id in ids && scores[id].time == last.value) &&
                       forall id | id in ids :: scores[id].time <= last.value)
  }

  function Later(last: Option<int>, time: int): Option<int> {
    if last.None? || last.value < time then Some(time) else last
  }

  lemma LatestStep(scores: TeamScores, ids: set<TaskID>, last: Option<int>, id: TaskID)
    requires ids <= scores.Keys && id in scores && id !in ids && IsLatest(scores, ids, last)
    ensures IsLatest(scores, ids + {id}, Later(last, scores[id].time))
  {
    assert id in ids + {id};
    if last.Some? && scores[id].time <= last.value {
      var j :| j in ids && scores[j].time == last.value;
      assert j in ids + {id};
    }
  }

  lemma LatestIsUnique(scores: TeamScores, ids: set<TaskID>, a: Option<int>, b: Option<int>)
    requires ids <= scores.Keys && IsLatest(scores, ids, a) && IsLatest(scores, ids, b)
    ensures a == b
  {
  }

  ghost function SumValues(values: seq<int>): int {
    if values == [] then 0 else SumValues(values[..|values| - 1]) + values[|values| - 1]
  }

  // ---------------------------------------------------------------- the leaderboard row

  datatype Row = Row(score: int, last: Option<int>)

  method LeaderboardRow(scores: TeamScores, penalties: seq<int>) returns (row: Row)
    ensures row.score == SumOver(scores, scores.Keys) - SumValues(penalties)
    ensures IsLatest(scores, scores.Keys, row.last)
  {
    var score, last := 0, None;
    var todo := scores.Keys;
    while todo != {}
      invariant todo <= scores.Keys
      invariant score + SumOver(scores, todo) == SumOver(scores, scores.Keys)
      invariant IsLatest(scores, scores.Keys - todo, last)
    {
      var id := AnyOf(todo);
      SumPicksAny(scores, todo, id);
      LatestStep(scores, scores.Keys - todo, last, id);
      assert scores.Keys - (todo - {id}) == scores.Keys - todo + {id};
      score := score + scores[id].score;
      last := Later(last, scores[id].time);
      todo := todo - {id};
    }
    assert scores.Keys - {} == scores.Keys;
    for i := 0 to |penalties|
      invariant score == SumOver(scores, scores.Keys) - SumValues(penalties[..i])
    {
      assert penalties[..i + 1][..i] == penalties[..i];
      score := score - penalties[i];
    }
    assert penalties[..|penalties|] == penalties;
    row := Row(score, last);
  }

  // ---------------------------------------------------------------- the table row

  ghost function TaskIDs(tasks: seq<QuestTask>): seq<TaskID> {
    seq(|tasks|, i requires 0 <= i < |tasks| => tasks[i].id)
  }

  /** The listed task identifiers, group by group. */
  ghost function Listed(groups: seq<QuestGroup>): seq<TaskID> {
    if groups == [] then [] else Listed(groups[..|groups| - 1]) + TaskIDs(groups[|groups| - 1].tasks)
  }

  /** A running total and latest time over exactly the scored ones among the listed tasks. */
  ghost predicate CountsUpTo(scores: TeamScores, ids: seq<TaskID>, total: int, last: Option<int>) {
    && total == SumOver(scores, Elements(ids) * scores.Keys)
    && IsLatest(scores, Elements(ids) * scores.Keys, last)
  }

  lemma CountOne(scores: TeamScores, ids: seq<TaskID>, total: int, last: Option<int>, id: TaskID)
    requires CountsUpTo(scores, ids, total, last) && id !in ids
    ensures if id in scores then CountsUpTo(scores, ids + [id], total + scores[id].score, Later(last, scores[id].time))
            else CountsUpTo(scores, ids + [id], total, last)
  {
    var before := Elements(ids) * scores.Keys;
    if id in scores {
      assert Elements(ids + [id]) * scores.Keys == before + {id};
      assert before + {id} - {id} == before;
      SumPicksAny(scores, before + {id}, id);
      LatestStep(scores, before, last, id);
    } else {
      assert Elements(ids + [id]) * scores.Keys == before;
    }
  }

  datatype TeamResult = TeamResult(total: int, taskScore: int, penalty: int, cells: seq<int>, last: Option<int>)

  /** The score of every listed task, in order, 0 where there is none. */
  ghost function Cells(scores: TeamScores, ids: seq<TaskID>): seq<int> {
    seq(|ids|, i requires 0 <= i < |ids| => if ids[i] in scores then scores[ids[i]].score else 0)
  }

  /** Without repeated tasks the cells of a row add up to its total. */
  lemma {:induction false} CellsAddUp(scores: TeamScores, ids: seq<TaskID>)
    requires NoRepeats(ids)
    ensures SumValues(Cells(scores, ids)) == SumOver(scores, Elements(ids) * scores.Keys)
  {
    if ids != [] {
      var last := |ids| - 1;
      var before, id := ids[..last], ids[last];
      CellsAddUp(scores, before);
      assert Cells(scores, ids)[..last] == Cells(scores, before);
      if id in scores {
        assert Elements(ids) * scores.Keys - {id} == Elements(before) * scores.Keys;
        SumPicksAny(scores, Elements(ids) * scores.Keys, id);
      } else {
        assert Elements(ids) * scores.Keys == Elements(before) * scores.Keys;
      }
    }
  }

  method TableRow(scores: TeamScores, groups: seq<QuestGroup>, penalties: seq<int>) returns (row: TeamResult)
    requires NoRepeats(Listed(groups))
    ensures row.total == row.taskScore - row.penalty && row.penalty == SumValues(penalties)
    ensures CountsUpTo(scores, Listed(groups), row.taskScore, row.last)
    ensures row.cells == Cells(scores, Listed(groups))
  {
    var taskScore, cells, last := 0, [], None;
    for i := 0 to |groups|
      invariant CountsUpTo(scores, Listed(groups[..i]), taskScore, last)
      invariant cells == Cells(scores, Listed(groups[..i]))
    {
      ListedSplit(groups, i);
      taskScore, cells, last := GroupCells(scores, groups[i].tasks, Listed(groups[..i]), taskScore, cells, last);
    }
    assert groups[..|groups|] == groups;
    var penalty := 0;
    for i := 0 to |penalties|
      invariant penalty == SumValues(penalties[..i])
    {
      assert penalties[..i + 1][..i] == penalties[..i];
      penalty := penalty + penalties[i];
    }
    assert penalties[..|penalties|] == penalties;
    row := TeamResult(taskScore - penalty, taskScore, penalty, cells, last);
  }

  /** The inner loop of the table: one group's tasks. */
  method GroupCells(scores: TeamScores, tasks: seq<QuestTask>, ghost before: seq<TaskID>,
                    total: int, cells: seq<int>, last: Option<int>)
    returns (total': int, cells': seq<int>, last': Option<int>)
    requires CountsUpTo(scores, before, total, last) && cells == Cells(scores, before)
    requires NoRepeats(before + TaskIDs(tasks))
    ensures CountsUpTo(scores, before + TaskIDs(tasks), total', last')
    ensures cells' == Cells(scores, before + TaskIDs(tasks))
  {
    total', cells', last' := total, cells, last;
    assert before + TaskIDs(tasks)[..0] == before;
    for j := 0 to |tasks|
      invariant CountsUpTo(scores, before + TaskIDs(tasks)[..j], total', last')
      invariant cells' == Cells(scores, before + TaskIDs(tasks)[..j])
    {
      var id := tasks[j].id;
      ghost var sofar := before + TaskIDs(tasks)[..j];
      NotYetListed(before, TaskIDs(tasks), j);
      assert before + TaskIDs(tasks)[..j + 1] == sofar + [id];
      CountOne(scores, sofar, total', last', id);
      if id in scores {
        total' := total' + scores[id].score;
        last' := Later(last', scores[id].time);
        cells' := cells' + [scores[id].score];
      } else {
        cells' := cells' + [0];
      }
    }
    assert TaskIDs(tasks)[..|tasks|] == TaskIDs(tasks);
  }

  lemma NotYetListed(before: seq<TaskID>, ids: seq<TaskID>, j: nat)
    requires NoRepeats(before + ids) && j < |ids|
    ensures ids[j] !in before + ids[..j]
  {
    var all := before + ids;
    assert all[|before| + j] == ids[j];
    assert before + ids[..j] == all[..|before| + j];
  }

  lemma {:induction false} ListedSplit(groups: seq<QuestGroup>, i: nat)
    requires i < |groups| && NoRepeats(Listed(groups))
    ensures Listed(groups[..i + 1]) == Listed(groups[..i]) + TaskIDs(groups[i].tasks)
    ensures NoRepeats(Listed(groups[..i + 1]))
    decreases |groups|
  {
    assert groups[..i + 1][..i] == groups[..i];
    if i == |groups| - 1 {
      assert groups[..i + 1] == groups;
    } else {
      var shorter := groups[..|groups| - 1];
      assert Listed(groups) == Listed(shorter) + TaskIDs(groups[|groups| - 1].tasks);
      assert forall k | 0 <= k < |Listed(shorter)| :: Listed(shorter)[k] == Listed(groups)[k];
      ListedSplit(shorter, i);
      assert shorter[..i + 1] == groups[..i + 1] && shorter[..i] == groups[..i];
    }
  }

  // ---------------------------------------------------------------- agreement

  /** Table and leaderboard agree on score and latest time exactly when the unlisted scores do not count:
      always when every scored task is listed. */
  lemma TableAgreesWithLeaderboard(scores: TeamScores, groups: seq<QuestGroup>, penalties: seq<int>,
                                   table: TeamResult, board: Row)
    requires table.total == table.taskScore - SumValues(penalties)
    requires CountsUpTo(scores, Listed(groups), table.taskScore, table.last)
    requires board.score == SumOver(scores, scores.Keys) - SumValues(penalties)
    requires IsLatest(scores, scores.Keys, board.last)
    ensures table.total == board.score <==> SumOver(scores, scores.Keys - Elements(Listed(groups))) == 0
    ensures scores.Keys <= Elements(Listed(groups)) ==> table.total == board.score && table.last == board.last
  {
    var listed := Elements(Listed(groups)) * scores.Keys;
    SumSplits(scores, listed, scores.Keys - Elements(Listed(groups)));
    assert listed + (scores.Keys - Elements(Listed(groups))) == scores.Keys;
    if scores.Keys <= Elements(Listed(groups)) {
      assert listed == scores.Keys;
      assert scores.Keys - Elements(Listed(groups)) == {};
      LatestIsUnique(scores, scores.Keys, table.last, board.last);
    }
  }

  lemma {:induction false} SumSplits(scores: TeamScores, a: set<TaskID>, b: set<TaskID>)
    requires a <= scores.Keys && b <= scores.Keys && a !! b
    ensures SumOver(scores, a + b) == SumOver(scores, a) + SumOver(scores, b)
    decreases a
  {
    if a == {} {
      assert a + b == b;
    } else {
      var id :| id in a;
      SumPicksAny(scores, a, id);
      SumPicksAny(scores, a + b, id);
      assert a + b - {id} == (a - {id}) + b;
      SumSplits(scores, a - {id}, b);
    }
  }

  // ---------------------------------------------------------------- on the ledger

  /** The scores of all accepted tries of a team, row by row. */
  ghost function AcceptedTotal(tries: seq<Try>, team: TeamID): int {
    if tries == [] then 0
    else
      var t := tries[|tries| - 1];
      AcceptedTotal(tries[..|tries| - 1], team) + if t.team == team && t.accepted then t.score else 0
  }

  /** With at most one accepted try per task nothing is overwritten: the summed map is the sum of the rows. */
  lemma {:induction false} ScoresSumTheRows(tries: seq<Try>, team: TeamID)
    requires AcceptedOnce(tries)
    ensures ScoresOf(tries, team).Keys == AcceptedOf(tries, team).Keys
    ensures SumOver(ScoresOf(tries, team), ScoresOf(tries, team).Keys) == AcceptedTotal(tries, team)
  {
    if tries != [] {
      var init, t := tries[..|tries| - 1], tries[|tries| - 1];
      ScoresSumTheRows(init, team);
      AcceptedMeans(init, team);
      if t.team == team && t.accepted {
        var before, after := ScoresOf(init, team), ScoresOf(tries, team);
        assert t.task !in before;
        SumPicksAny(after, after.Keys, t.task);
        assert after.Keys - {t.task} == before.Keys;
        SumIsExtensional(after, before, before.Keys);
      }
    }
  }

  lemma {:induction false} SumIsExtensional(a: TeamScores, b: TeamScores, ids: set<TaskID>)
    requires ids <= a.Keys && ids <= b.Keys && forall id | id in ids :: a[id] == b[id]
    ensures SumOver(a, ids) == SumOver(b, ids)
    decreases ids
  {
    if ids != {} {
      var id :| id in ids;
      SumPicksAny(a, ids, id);
      SumPicksAny(b, ids, id);
      SumIsExtensional(a, b, ids - {id});
    }
  }

  lemma {:induction false} ListedHasAll(groups: seq<QuestGroup>, g: QuestGroup, t: QuestTask)
    requires g in groups && t in g.tasks
    ensures t.id in Listed(groups)
  {
    var last := |groups| - 1;
    if groups[last] == g {
      var i :| 0 <= i < |g.tasks| && g.tasks[i] == t;
      assert TaskIDs(g.tasks)[i] == t.id;
    } else {
      ListedHasAll(groups[..last], g, t);
    }
  }

  // ---------------------------------------------------------------- both lists over the store

  /** The stored penalty rows of a team: at most one, since adding a penalty replaces the old one. */
  function PenaltyRows(penalties: map<TeamID, int>, team: TeamID): seq<int> {
    if team in penalties then [penalties[team]] else []
  }

  ghost predicate IsTableRow(db: Store, groups: seq<QuestGroup>, team: TeamID, row: TeamResult) {
    && row.penalty == SumValues(PenaltyRows(db.penalties, team)) && row.total == row.taskScore - row.penalty
    && CountsUpTo(ScoresOf(db.tries, team), Listed(groups), row.taskScore, row.last)
    && row.cells == Cells(ScoresOf(db.tries, team), Listed(groups))
  }

  ghost predicate IsBoardRow(db: Store, team: TeamID, row: Row) {
    var scores := ScoresOf(db.tries, team);
    && row.score == SumOver(scores, scores.Keys) - SumValues(PenaltyRows(db.penalties, team))
    && IsLatest(scores, scores.Keys, row.last)
  }

  method GetResults(db: Store, groups: seq<QuestGroup>, teams: seq<TeamID>) returns (rows: seq<TeamResult>)
    requires NoRepeats(Listed(groups))
    ensures |rows| == |teams| && forall i | 0 <= i < |teams| :: IsTableRow(db, groups, teams[i], rows[i])
  {
    var results := GetScoreResults(db.tries);
    rows := [];
    for i := 0 to |teams|
      invariant |rows| == i && forall j | 0 <= j < i :: IsTableRow(db, groups, teams[j], rows[j])
    {
      var row := TableRow(ScoresIn(results, teams[i]), groups, PenaltyRows(db.penalties, teams[i]));
      rows := rows + [row];
    }
  }

  method GetLeaderboard(db: Store, teams: seq<TeamID>) returns (rows: seq<Row>)
    ensures |rows| == |teams| && forall i | 0 <= i < |teams| :: IsBoardRow(db, teams[i], rows[i])
  {
    var results := GetScoreResults(db.tries);
    rows := [];
    for i := 0 to |teams|
      invariant |rows| == i && forall j | 0 <= j < i :: IsBoardRow(db, teams[j], rows[j])
    {
      var row := LeaderboardRow(ScoresIn(results, teams[i]), PenaltyRows(db.penalties, teams[i]));
      rows := rows + [row];
    }
  }

  /** The value of the last penalty given to a known team, 0 before the first. */
  ghost function LastPenalty(q: Quest, requests: seq<Request>, team: TeamID): int {
    if requests == [] then 0
    else
      var r := requests[|requests| - 1];
      if r.AddPenalty? && r.team == team && team in q.teams then r.value
      else LastPenalty(q, requests[..|requests| - 1], team)
  }

  lemma {:induction false} PenaltyIsTheLastOne(q: Quest, requests: seq<Request>, team: TeamID)
    ensures SumValues(PenaltyRows(Serve(q, EMPTY, requests).penalties, team)) == LastPenalty(q, requests, team)
  {
    if requests != [] {
      PenaltyIsTheLastOne(q, requests[..|requests| - 1], team);
      var before, r := Serve(q, EMPTY, requests[..|requests| - 1]), requests[|requests| - 1];
      assert !r.AddPenalty? ==> After(q, before, r).0.penalties == before.penalties;
      if r.AddPenalty? && r.team == team && team in q.teams {
        assert [r.value][..0] == [];
        assert SumValues([r.value]) == SumValues([]) + r.value;
      }
    }
  }

  /** After every run the table and the leaderboard show a team the same: the sum of its accepted rows less
      the last penalty it was given, and the same latest time. */
  lemma ListsAgreeAfterEveryRun(q: Quest, requests: seq<Request>, team: TeamID, table: TeamResult, board: Row)
    requires WellFormed(q)
    requires IsTableRow(Serve(q, EMPTY, requests), q.groups, team, table)
    requires IsBoardRow(Serve(q, EMPTY, requests), team, board)
    ensures table.total == board.score
    ensures board.score == AcceptedTotal(Serve(q, EMPTY, requests).tries, team) - LastPenalty(q, requests, team)
    ensures table.last == board.last
  {
    var db := Serve(q, EMPTY, requests);
    EveryRunIsConsistent(q, requests);
    PenaltyIsTheLastOne(q, requests, team);
    ScoresSumTheRows(db.tries, team);
    ScoredAreListed(q, db, team);
    TableAgreesWithLeaderboard(ScoresOf(db.tries, team), q.groups, PenaltyRows(db.penalties, team), table, board);
  }

  lemma ScoredAreListed(q: Quest, db: Store, team: TeamID)
    requires Consistent(q, db)
    ensures ScoresOf(db.tries, team).Keys <= Elements(Listed(q.groups))
  {
    ScoresSumTheRows(db.tries, team);
    AcceptedMeans(db.tries, team);
    forall id | id in ScoresOf(db.tries, team) ensures id in Elements(Listed(q.groups)) {
      var i :| 0 <= i < |db.tries| && db.tries[i].accepted && db.tries[i].team == team && db.tries[i].task == id;
      assert ScoreExplained(q, db, db.tries[i]);
      var at := Find(q.groups, id).value;
      ListedHasAll(q.groups, at.group, at.task);
    }
  }
}
