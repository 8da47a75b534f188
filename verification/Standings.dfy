/** The admin table and the leaderboard as sorted lists: after every run they stand alike. */
module Standings {
  import opened Prelude
  import opened Ledger
  import opened Results
  import opened Ranking

  /** The rows of the table as the comparator sees them. */
  ghost function TableRanks(names: seq<string>, rows: seq<TeamResult>): seq<Ranked>
    requires |names| == |rows|
  {
    seq(|rows|, i requires 0 <= i < |rows| => Ranked(rows[i].total, rows[i].last, names[i]))
  }

  /** The rows of the leaderboard as the comparator sees them. */
  ghost function BoardRanks(names: seq<string>, rows: seq<Row>): seq<Ranked>
    requires |names| == |rows|
  {
    seq(|rows|, i requires 0 <= i < |rows| => Ranked(rows[i].score, rows[i].last, names[i]))
  }

  /** The rows both lists are computed from the store for the same teams. */
  ghost predicate AreRows(db: Store, q: Quest, teams: seq<TeamID>, table: seq<TeamResult>, board: seq<Row>) {
    && |table| == |board| == |teams|
    && forall i | 0 <= i < |teams| ::
         IsTableRow(db, q.groups, teams[i], table[i]) && IsBoardRow(db, teams[i], board[i])
  }

  lemma RowsAgree(q: Quest, requests: seq<Request>, teams: seq<TeamID>, names: seq<string>,
                  table: seq<TeamResult>, board: seq<Row>)
    requires WellFormed(q) && AreRows(Serve(q, EMPTY, requests), q, teams, table, board) && |names| == |teams|
    ensures TableRanks(names, table) == BoardRanks(names, board)
  {
    forall i | 0 <= i < |teams| ensures TableRanks(names, table)[i] == BoardRanks(names, board)[i] {
      ListsAgreeAfterEveryRun(q, requests, teams[i], table[i], board[i]);
    }
  }

  /** What sorting leaves of the rows. */
  ghost predicate IsSortOf(sorted: seq<Ranked>, rows: seq<Ranked>) {
    Sorted(sorted) && multiset(sorted) == multiset(rows)
  }

  lemma CountOfOne(rows: seq<Ranked>, i: nat)
    requires NoRepeats(rows) && i < |rows|
    ensures multiset(rows)[rows[i]] == 1
  {
    var r := rows[i];
    assert rows == rows[..i] + [r] + rows[i + 1..];
    assert r !in rows[..i] && r !in rows[i + 1..];
    assert multiset(rows[..i])[r] == 0 && multiset(rows[i + 1..])[r] == 0;
  }

  lemma CountOfTwo(rows: seq<Ranked>, i: nat, j: nat)
    requires i < j < |rows| && rows[i] == rows[j]
    ensures multiset(rows)[rows[i]] >= 2
  {
    assert rows == rows[..i] + [rows[i]] + rows[i + 1..j] + [rows[j]] + rows[j + 1..];
  }

  lemma SortKeepsRows(sorted: seq<Ranked>, rows: seq<Ranked>)
    requires NoRepeats(rows) && multiset(sorted) == multiset(rows)
    ensures NoRepeats(sorted) && SameRows(sorted, rows)
  {
    assert |sorted| == |multiset(sorted)| == |multiset(rows)| == |rows|;
    forall r ensures r in sorted <==> r in rows {
      assert r in multiset(sorted) <==> r in multiset(rows);
    }
    forall i, j | 0 <= i < j < |sorted| ensures sorted[i] != sorted[j] {
      if sorted[i] == sorted[j] {
        CountOfTwo(sorted, i, j);
        assert sorted[i] in rows;
        var k :| 0 <= k < |rows| && rows[k] == sorted[i];
        CountOfOne(rows, k);
        assert false;
      }
    }
  }

  /** After every run, for teams with distinct names, the sorted table and the sorted leaderboard have at every
      place the same team, or two teams that tie on score and time; and scores never rise down the list. */
  lemma ListsStandAlike(q: Quest, requests: seq<Request>, teams: seq<TeamID>, names: seq<string>,
                        table: seq<TeamResult>, board: seq<Row>, sortedTable: seq<Ranked>, sortedBoard: seq<Ranked>)
    requires WellFormed(q) && AreRows(Serve(q, EMPTY, requests), q, teams, table, board)
    requires |names| == |teams| && NoRepeats(names)
    requires IsSortOf(sortedTable, TableRanks(names, table)) && IsSortOf(sortedBoard, BoardRanks(names, board))
    ensures |sortedTable| == |sortedBoard| == |teams|
    ensures forall k | 0 <= k < |teams| :: Level(sortedTable[k], sortedBoard[k])
    ensures forall i, j | 0 <= i < j < |teams| :: sortedTable[j].score <= sortedTable[i].score
  {
    var rows := TableRanks(names, table);
    RowsAgree(q, requests, teams, names, table, board);
    assert NoRepeats(rows) by {
      forall i, j | 0 <= i < j < |rows| ensures rows[i] != rows[j] {
        assert names[i] != names[j];
      }
    }
    SortKeepsRows(sortedTable, rows);
    SortKeepsRows(sortedBoard, rows);
    forall k | 0 <= k < |teams| ensures Level(sortedTable[k], sortedBoard[k]) {
      SortedListsAreLevel(sortedTable, sortedBoard, k);
    }
    forall i, j | 0 <= i < j < |teams| ensures sortedTable[j].score <= sortedTable[i].score {
      SortedScoresNeverRise(sortedTable, i, j);
    }
  }
}
