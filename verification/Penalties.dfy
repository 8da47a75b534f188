/** Hint penalties: integer percentages, the check made when a task is stored, and what it guarantees. */
module Penalties {
  datatype Penalty = Percent(percent: int) | Points(points: int)

  /** The source's integer division, which truncates towards zero. */
  function Truncated(a: int, b: int): (q: int)
    requires b > 0
    ensures a >= 0 ==> q * b <= a < (q + 1) * b
    ensures a < 0 ==> (q - 1) * b < a <= q * b
  {
    if a >= 0 then a / b else -(-a / b)
  }

  function PenaltyPoints(p: Penalty, score: int): int {
    match p
    case Percent(percent) => Truncated(score * percent, 100)
    case Points(points) => points
  }

  /** Of a percentage and a reward that are not negative, a hint costs the share rounded down to whole points; a
      penalty in points costs them whatever the reward. */
  lemma PenaltyIsItsShare(p: Penalty, score: int)
    ensures p.Points? ==> PenaltyPoints(p, score) == p.points
    ensures p.Percent? && p.percent >= 0 && score >= 0 ==>
              100 * PenaltyPoints(p, score) <= score * p.percent < 100 * (PenaltyPoints(p, score) + 1)
  {
    if p.Percent? && p.percent >= 0 && score >= 0 {
      ProductNonnegative(score, p.percent);
    }
  }

  ghost predicate Nonnegative(hints: seq<Penalty>) {
    forall i | 0 <= i < |hints| :: match hints[i] case Percent(p) => p >= 0 case Points(s) => s >= 0
  }

  /** The points of the hints whose index is in `taken`. */
  ghost function TakenPoints(hints: seq<Penalty>, taken: set<int>, reward: int): int {
    if hints == [] then 0
    else
      var last := |hints| - 1;
      TakenPoints(hints[..last], taken, reward) + if last in taken then PenaltyPoints(hints[last], reward) else 0
  }

  /** The points of all hints together. */
  function TotalPoints(hints: seq<Penalty>, reward: int): int {
    if hints == [] then 0
    else TotalPoints(hints[..|hints| - 1], reward) + PenaltyPoints(hints[|hints| - 1], reward)
  }

  predicate Fits(reward: int, hints: seq<Penalty>) {
    TotalPoints(hints, reward) <= reward
  }

  lemma {:induction false} TakingAll(hints: seq<Penalty>, taken: set<int>, reward: int)
    requires forall i | 0 <= i < |hints| :: i in taken
    ensures TakenPoints(hints, taken, reward) == TotalPoints(hints, reward)
  {
    if hints != [] {
      TakingAll(hints[..|hints| - 1], taken, reward);
    }
  }

  /** Each hint taken costs its own points once, on top of what the others cost. */
  lemma {:induction false} OneMoreHintCosts(hints: seq<Penalty>, taken: set<int>, i: int, reward: int)
    requires 0 <= i < |hints| && i !in taken
    ensures TakenPoints(hints, {}, reward) == 0
    ensures TakenPoints(hints, taken + {i}, reward) ==
            TakenPoints(hints, taken, reward) + PenaltyPoints(hints[i], reward)
  {
    var last := |hints| - 1;
    NothingTaken(hints, reward);
    if i < last {
      OneMoreHintCosts(hints[..last], taken, i, reward);
    } else {
      SameBelow(hints[..last], taken, taken + {i}, reward);
    }
  }

  lemma {:induction false} NothingTaken(hints: seq<Penalty>, reward: int)
    ensures TakenPoints(hints, {}, reward) == 0
  {
    if hints != [] {
      NothingTaken(hints[..|hints| - 1], reward);
    }
  }

  lemma {:induction false} SameBelow(hints: seq<Penalty>, a: set<int>, b: set<int>, reward: int)
    requires forall i | 0 <= i < |hints| :: i in a <==> i in b
    ensures TakenPoints(hints, a, reward) == TakenPoints(hints, b, reward)
  {
    if hints != [] {
      SameBelow(hints[..|hints| - 1], a, b, reward);
    }
  }

  method ValidatePenalties(reward: int, hints: seq<Penalty>) returns (ok: bool)
    ensures ok <==> Fits(reward, hints)
  {
    var totalPenalty := 0;
    for i := 0 to |hints|
      invariant totalPenalty == TotalPoints(hints[..i], reward)
    {
      assert hints[..i + 1][..i] == hints[..i];
      totalPenalty := totalPenalty + PenaltyPoints(hints[i], reward);
    }
    assert hints[..|hints|] == hints;
    ok := totalPenalty <= reward;
  }

  lemma PointsAreNonnegative(hints: seq<Penalty>, i: nat, reward: int)
    requires Nonnegative(hints) && reward >= 0 && i < |hints|
    ensures PenaltyPoints(hints[i], reward) >= 0
  {
    if hints[i].Percent? {
      ProductNonnegative(reward, hints[i].percent);
    }
  }

  lemma ProductNonnegative(a: int, b: int)
    requires a >= 0 && b >= 0
    ensures a * b >= 0
  {
  }

  /** Taking more hints never costs fewer points. */
  lemma {:induction false} TakingMoreCostsMore(hints: seq<Penalty>, a: set<int>, b: set<int>, reward: int)
    requires Nonnegative(hints) && reward >= 0 && a <= b
    ensures 0 <= TakenPoints(hints, a, reward) <= TakenPoints(hints, b, reward)
  {
    if hints != [] {
      var last := |hints| - 1;
      TakingMoreCostsMore(hints[..last], a, b, reward);
      PointsAreNonnegative(hints, last, reward);
    }
  }

  ghost function UpTo(n: nat): (s: set<int>)
    ensures forall i | 0 <= i < n :: i in s
  {
    if n == 0 then {} else UpTo(n - 1) + {n - 1}
  }

  /** The check accepts a task exactly when no choice of hints, whatever is taken, could cost more than the reward. */
  lemma FitsIffNothingCostsMore(reward: int, hints: seq<Penalty>)
    requires Nonnegative(hints) && reward >= 0
    ensures Fits(reward, hints) <==> forall taken: set<int> :: TakenPoints(hints, taken, reward) <= reward
  {
    var all := UpTo(|hints|);
    TakingAll(hints, all, reward);
    if Fits(reward, hints) {
      forall taken: set<int> ensures TakenPoints(hints, taken, reward) <= reward {
        ScoreStaysInRange(reward, hints, taken, taken);
      }
    }
  }

  /** For a pair the check accepts, every set of taken hints leaves a score between 0 and the reward,
      and a further hint never raises it. */
  lemma ScoreStaysInRange(reward: int, hints: seq<Penalty>, taken: set<int>, more: set<int>)
    requires Nonnegative(hints) && reward >= 0 && Fits(reward, hints) && taken <= more
    ensures 0 <= reward - TakenPoints(hints, taken, reward) <= reward
    ensures reward - TakenPoints(hints, more, reward) <= reward - TakenPoints(hints, taken, reward)
  {
    TakingMoreCostsMore(hints, taken, more, reward);
    var all := taken + UpTo(|hints|);
    TakingMoreCostsMore(hints, taken, all, reward);
    TakingAll(hints, all, reward);
  }
}
