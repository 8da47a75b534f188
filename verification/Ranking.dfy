/** The order of the result lists: when the comparator is one, and what two sorted lists can disagree on. */
module Ranking {
  import opened Prelude

  /** A row of the table or of the leaderboard, as the comparator sees it. */
  datatype Ranked = Ranked(score: int, last: Option<int>, name: string)

  /** Strict lexicographic order, as on the source's strings. */
  predicate NameBefore(a: string, b: string) {
    if b == [] then false
    else if a == [] then true
    else a[0] < b[0] || (a[0] == b[0] && NameBefore(a[1..], b[1..]))
  }

  lemma {:induction false} NamesAreOrdered(a: string, b: string, c: string)
    ensures !NameBefore(a, a)
    ensures NameBefore(a, b) && NameBefore(b, c) ==> NameBefore(a, c)
    ensures NameBefore(a, b) || NameBefore(b, a) || a == b
    decreases |a| + |b| + |c|
  {
    if a != [] || b != [] || c != [] {
      NamesAreOrdered(if a == [] then a else a[1..], if b == [] then b else b[1..], if c == [] then c else c[1..]);
    }
  }

  /** The comparator of both lists. */
  predicate Less(a: Ranked, b: Ranked) {
    if a.score != b.score then a.score >= b.score
    else if a.last.Some? && b.last.Some? then a.last.value < b.last.value
    else !NameBefore(a.name, b.name)
  }

  ghost predicate DistinctNames(rows: seq<Ranked>) {
    forall i, j | 0 <= i < j < |rows| :: rows[i].name != rows[j].name
  }

  /** No row is less than itself, and both the order and incomparability are transitive. */
  ghost predicate StrictWeakOrder(rows: seq<Ranked>) {
    && (forall i | 0 <= i < |rows| :: !Less(rows[i], rows[i]))
    && (forall i, j, k | 0 <= i < |rows| && 0 <= j < |rows| && 0 <= k < |rows| :: Chains(rows[i], rows[j], rows[k]))
  }

  /** The same of different rows only: asymmetric, and both it and incomparability are transitive. */
  ghost predicate OrdersDifferentRows(rows: seq<Ranked>) {
    && (forall i, j | 0 <= i < |rows| && 0 <= j < |rows| && i != j && Less(rows[i], rows[j]) :: !Less(rows[j], rows[i]))
    && (forall i, j, k | 0 <= i < |rows| && 0 <= j < |rows| && 0 <= k < |rows| && i != j && j != k && i != k ::
          Chains(rows[i], rows[j], rows[k]))
  }

  ghost predicate Tied(a: Ranked, b: Ranked) {
    !Less(a, b) && !Less(b, a)
  }

  ghost predicate Chains(a: Ranked, b: Ranked, c: Ranked) {
    && (Less(a, b) && Less(b, c) ==> Less(a, c))
    && (Tied(a, b) && Tied(b, c) ==> Tied(a, c))
  }

  /** Among rows with one score, no team without an answer has a name between those of two teams with one
      whose times run the other way. */
  ghost predicate NoneBetween(rows: seq<Ranked>) {
    forall i, j, k | 0 <= i < |rows| && 0 <= j < |rows| && 0 <= k < |rows| :: !Between(rows[i], rows[j], rows[k])
  }

  ghost predicate Between(a: Ranked, b: Ranked, c: Ranked) {
    && a.score == b.score == c.score
    && a.last.Some? && b.last.Some? && c.last.None?
    && a.last.value <= b.last.value
    && NameBefore(a.name, c.name) && NameBefore(c.name, b.name)
  }

  lemma BetweenBreaks(a: Ranked, b: Ranked, c: Ranked)
    requires Between(a, b, c)
    ensures Less(b, c) && Less(c, a) && !Less(b, a)
  {
    NamesAreOrdered(a.name, c.name, a.name);
    NamesAreOrdered(c.name, b.name, c.name);
  }

  lemma ChainsUnlessBetween(a: Ranked, b: Ranked, c: Ranked)
    requires a.name != b.name && b.name != c.name && a.name != c.name
    requires !Between(a, c, b) && !Between(c, a, b) && !Between(b, a, c) && !Between(a, b, c)
    requires !Between(c, b, a) && !Between(b, c, a)
    ensures Chains(a, b, c)
  {
    NamesAreOrdered(a.name, b.name, c.name);
    NamesAreOrdered(a.name, c.name, b.name);
    NamesAreOrdered(b.name, a.name, c.name);
    NamesAreOrdered(b.name, c.name, a.name);
    NamesAreOrdered(c.name, a.name, b.name);
    NamesAreOrdered(c.name, b.name, a.name);
  }

  /** A team without an answer is less than itself, since its name is not before itself. */
  lemma UnansweredIsLessThanItself(r: Ranked)
    ensures Less(r, r) <==> r.last.None?
  {
    NamesAreOrdered(r.name, r.name, r.name);
  }

  /** The comparator is a strict weak order exactly when every team has answered. */
  lemma StrictWeakIffAllAnswered(rows: seq<Ranked>)
    ensures StrictWeakOrder(rows) <==> forall i | 0 <= i < |rows| :: rows[i].last.Some?
  {
    forall i | 0 <= i < |rows| ensures Less(rows[i], rows[i]) <==> rows[i].last.None? {
      UnansweredIsLessThanItself(rows[i]);
    }
  }

  /** For teams with distinct names the comparator orders different rows exactly when no unanswered team is
      caught between two answered ones. */
  lemma OrdersIffNoneBetween(rows: seq<Ranked>)
    requires DistinctNames(rows)
    ensures OrdersDifferentRows(rows) <==> NoneBetween(rows)
  {
    if OrdersDifferentRows(rows) {
      forall i, j, k | 0 <= i < |rows| && 0 <= j < |rows| && 0 <= k < |rows|
        ensures !Between(rows[i], rows[j], rows[k])
      {
        if Between(rows[i], rows[j], rows[k]) {
          BetweenBreaks(rows[i], rows[j], rows[k]);
          assert false;
        }
      }
    }
    if NoneBetween(rows) {
      forall i, j, k | 0 <= i < |rows| && 0 <= j < |rows| && 0 <= k < |rows| && i != j && j != k && i != k
        ensures Chains(rows[i], rows[j], rows[k])
      {
        assert DistinctNames(rows);
        NamesDiffer(rows, i, j);
        NamesDiffer(rows, j, k);
        NamesDiffer(rows, i, k);
        ChainsUnlessBetween(rows[i], rows[j], rows[k]);
      }
      forall i, j | 0 <= i < |rows| && 0 <= j < |rows| && i != j && Less(rows[i], rows[j])
        ensures !Less(rows[j], rows[i])
      {
        NamesDiffer(rows, i, j);
        NamesAreOrdered(rows[i].name, rows[j].name, rows[i].name);
      }
    }
  }

  lemma NamesDiffer(rows: seq<Ranked>, i: nat, j: nat)
    requires DistinctNames(rows) && i < |rows| && j < |rows| && i != j
    ensures rows[i].name != rows[j].name
  {
  }

  /** In particular when, among the teams on one score, either all have answered or none has. */
  lemma UniformTiesAreOrdered(rows: seq<Ranked>)
    requires DistinctNames(rows)
    requires forall i, j | 0 <= i < |rows| && 0 <= j < |rows| && rows[i].score == rows[j].score ::
               rows[i].last.Some? == rows[j].last.Some?
    ensures OrdersDifferentRows(rows)
  {
    forall i, j, k | 0 <= i < |rows| && 0 <= j < |rows| && 0 <= k < |rows| ensures !Between(rows[i], rows[j], rows[k]) {
    }
    OrdersIffNoneBetween(rows);
  }

  // ---------------------------------------------------------------- sorted lists

  /** What sorting leaves: no row is less than one before it. */
  ghost predicate Sorted(rows: seq<Ranked>) {
    forall i, j | 0 <= i < j < |rows| :: !Less(rows[j], rows[i])
  }

  /** The row may stand above the other: it has the higher score, or at one score the time that is no later; where
      one of them never answered, the name that comes after. */
  predicate MayStandAbove(a: Ranked, b: Ranked) {
    || a.score > b.score
    || (a.score == b.score &&
        if a.last.Some? && b.last.Some? then a.last.value <= b.last.value else NameBefore(b.name, a.name))
  }

  ghost predicate AdjacentStand(rows: seq<Ranked>) {
    forall i | 0 <= i < |rows| - 1 :: MayStandAbove(rows[i], rows[i + 1])
  }

  /** A list of teams that have all answered is sorted exactly if every row may stand above the next. */
  lemma SortedIffAdjacentStand(rows: seq<Ranked>)
    requires forall i | 0 <= i < |rows| :: rows[i].last.Some?
    ensures Sorted(rows) <==> AdjacentStand(rows)
  {
    if AdjacentStand(rows) {
      forall i, j | 0 <= i < j < |rows| ensures !Less(rows[j], rows[i]) {
        StandsAboveLater(rows, i, j);
      }
    }
    if Sorted(rows) {
      forall i | 0 <= i < |rows| - 1 ensures MayStandAbove(rows[i], rows[i + 1]) {
        assert !Less(rows[i + 1], rows[i]);
      }
    }
  }

  lemma {:induction false} StandsAboveLater(rows: seq<Ranked>, i: nat, j: nat)
    requires AdjacentStand(rows) && i < j < |rows|
    requires forall k | 0 <= k < |rows| :: rows[k].last.Some?
    ensures MayStandAbove(rows[i], rows[j])
    decreases j - i
  {
    assert MayStandAbove(rows[j - 1], rows[j]);
    if i < j - 1 {
      StandsAboveLater(rows, i, j - 1);
    }
  }

  /** In general it is sorted exactly if every row may stand above every later one. */
  lemma SortedIffAllStand(rows: seq<Ranked>)
    ensures Sorted(rows) <==> forall i, j | 0 <= i < j < |rows| :: MayStandAbove(rows[i], rows[j])
  {
    forall i, j | 0 <= i < j < |rows| ensures !Less(rows[j], rows[i]) <==> MayStandAbove(rows[i], rows[j]) {
    }
  }

  lemma SortedScoresNeverRise(rows: seq<Ranked>, i: nat, j: nat)
    requires Sorted(rows) && i < j < |rows|
    ensures rows[j].score <= rows[i].score
  {
    assert !Less(rows[j], rows[i]);
  }

  /** Two sorted lists put two teams in different orders only when they tie exactly: one score, one time. */
  lemma SortedListsDifferOnlyOnTies(table: seq<Ranked>, board: seq<Ranked>, i: nat, j: nat, k: nat, l: nat)
    requires Sorted(table) && Sorted(board)
    requires i < j < |table| && k < l < |board|
    requires table[i] == board[l] && table[j] == board[k]
    ensures table[i].score == table[j].score
    ensures table[i].last.Some? && table[i].last == table[j].last
  {
    assert !Less(table[j], table[i]) && !Less(board[l], board[k]);
    NamesAreOrdered(table[i].name, table[j].name, table[i].name);
  }

  /** One team, or two teams that both have answered and tie on score and time. */
  ghost predicate Level(a: Ranked, b: Ranked) {
    a == b || (a.score == b.score && a.last.Some? && a.last == b.last)
  }

  /** Rows that two sorted lists put in different orders are level. */
  lemma InvertedAreLevel(table: seq<Ranked>, board: seq<Ranked>, i: nat, j: nat, k: nat, l: nat)
    requires Sorted(table) && Sorted(board)
    requires i <= j < |table| && k <= l < |board|
    requires table[i] == board[l] && table[j] == board[k]
    ensures Level(table[i], table[j])
  {
    if i < j && k < l {
      SortedListsDifferOnlyOnTies(table, board, i, j, k, l);
    }
  }

  ghost predicate SameRows(a: seq<Ranked>, b: seq<Ranked>) {
    |a| == |b| && forall r :: r in a <==> r in b
  }

  /** Of the first `k + 1` rows of one list, one comes at place `k` or later in the other. */
  lemma SomeComesLater(a: seq<Ranked>, b: seq<Ranked>, k: nat) returns (i: nat, l: nat)
    requires NoRepeats(a) && NoRepeats(b) && SameRows(a, b) && k < |a|
    ensures i <= k <= l < |b| && a[i] == b[l]
  {
    NoRepeatsSize(a[..k + 1]);
    NoRepeatsSize(b[..k]);
    assert forall x | 0 <= x < k :: b[x] in Elements(b[..k]);
    assert !(Elements(a[..k + 1]) <= Elements(b[..k])) by {
      if Elements(a[..k + 1]) <= Elements(b[..k]) {
        SubsetSize(Elements(a[..k + 1]), Elements(b[..k]));
      }
    }
    var r :| r in Elements(a[..k + 1]) && r !in Elements(b[..k]);
    assert r in a[..k + 1] && r in a;
    i :| 0 <= i <= k && a[i] == r;
    l := Place(b, r);
  }

  /** At every place two sorted lists of the same rows have level rows. */
  lemma SortedListsAreLevel(table: seq<Ranked>, board: seq<Ranked>, k: nat)
    requires Sorted(table) && Sorted(board) && NoRepeats(table) && NoRepeats(board)
    requires SameRows(table, board) && k < |table|
    ensures Level(table[k], board[k])
  {
    var i, l := SomeComesLater(table, board, k);
    var m, j := SomeComesLater(board, table, k);
    InvertedAreLevel(table, board, i, j, m, l);
    BetweenIsLevel(table, board, i, k, j, m, l);
    BetweenIsLevel(board, table, m, k, l, i, j);
  }

  lemma Place(rows: seq<Ranked>, r: Ranked) returns (i: nat)
    requires r in rows
    ensures i < |rows| && rows[i] == r
  {
    i :| 0 <= i < |rows| && rows[i] == r;
  }

  /** A row between two level rows that another sorted list inverts is level with them. */
  lemma BetweenIsLevel(a: seq<Ranked>, b: seq<Ranked>, i: nat, k: nat, j: nat, m: nat, l: nat)
    requires Sorted(a) && Sorted(b) && SameRows(a, b)
    requires i <= k <= j < |a| && m <= l < |b| && a[i] == b[l] && a[j] == b[m]
    requires Level(a[i], a[j])
    ensures Level(a[i], a[k])
  {
    var x := Place(b, a[k]);
    if x <= l {
      InvertedAreLevel(a, b, i, k, x, l);
    } else {
      InvertedAreLevel(a, b, k, j, m, x);
    }
  }

  /** Teams caught between: the three rows compare in a circle, so no order of them is sorted. */
  lemma CircleCannotBeSorted(a: Ranked, b: Ranked, c: Ranked, rows: seq<Ranked>)
    requires Between(a, b, c) && a.last.value < b.last.value
    requires a in rows && b in rows && c in rows
    ensures !Sorted(rows)
  {
    BetweenBreaks(a, b, c);
    var i :| 0 <= i < |rows| && rows[i] == a;
    var j :| 0 <= j < |rows| && rows[j] == b;
    var k :| 0 <= k < |rows| && rows[k] == c;
    assert Less(rows[i], rows[j]) && Less(rows[j], rows[k]) && Less(rows[k], rows[i]);
  }
}
