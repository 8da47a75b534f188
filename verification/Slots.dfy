/** Moving the items of a sparse array along chains and cycles of order changes, in place. */
module Slots {
  import opened Prelude
  import opened Components
  import opened Permutations

  /** Every item sits where its edge sends it, an index only left is free, and nothing else moved. */
  ghost predicate IsMoved<X>(before: seq<Option<X>>, after: seq<Option<X>>, edges: seq<OrderChange>)
    requires InRange(edges, |before|)
  {
    && |after| == |before|
    && (forall e | e in edges :: after[e.next] == before[e.prev])
    && (forall x | 0 <= x < |before| && !Entered(edges, x) ::
          after[x] == if Left(edges, x) then None else before[x])
  }

  /** The edges alone fix the result, so the order in which components are visited cannot show in it. */
  lemma MovedIsUnique<X>(before: seq<Option<X>>, after: seq<Option<X>>, after': seq<Option<X>>,
                         edges: seq<OrderChange>)
    requires InRange(edges, |before|)
    requires IsMoved(before, after, edges) && IsMoved(before, after', edges)
    ensures after == after'
  {
    forall x | 0 <= x < |before| ensures after[x] == after'[x] {
      if Entered(edges, x) {
        var a :| Edge(edges, a, x);
      }
    }
  }

  ghost predicate InBounds(part: seq<int>, n: int) {
    forall k | 0 <= k < |part| :: 0 <= part[k] < n
  }

  /** Element `k + 1` of the part holds what element `k` held. */
  ghost predicate Advanced<X>(before: seq<Option<X>>, after: seq<Option<X>>, part: seq<int>)
    requires |before| == |after| && InBounds(part, |before|)
  {
    forall k | 0 <= k < |part| - 1 :: after[part[k + 1]] == before[part[k]]
  }

  ghost predicate SameOutside<X>(before: seq<Option<X>>, after: seq<Option<X>>, part: seq<int>) {
    && |before| == |after|
    && forall x | 0 <= x < |before| && x !in part :: after[x] == before[x]
  }

  /** What the shared loop has done before element `k`: `first` went to `part[1]`, every later item one on. */
  ghost predicate ShiftedUpTo<X>(before: seq<Option<X>>, now: seq<Option<X>>, part: seq<int>, first: Option<X>, k: nat)
    requires part != [] && InBounds(part, |before|)
  {
    && |now| == |before|
    && (forall j | 1 <= j < |part| :: now[part[j]] == if j < k then Handed(before, part, first, j) else before[part[j]])
    && (forall x | 0 <= x < |before| && x !in part[1..] :: now[x] == before[x])
  }

  ghost function Handed<X>(before: seq<Option<X>>, part: seq<int>, first: Option<X>, j: nat): Option<X>
    requires 1 <= j <= |part| && InBounds(part, |before|)
  {
    if j == 1 then first else before[part[j - 1]]
  }

  lemma ShiftOne<X>(before: seq<Option<X>>, now: seq<Option<X>>, part: seq<int>, first: Option<X>, k: nat)
    requires part != [] && NoRepeats(part) && InBounds(part, |before|) && 1 <= k < |part|
    requires ShiftedUpTo(before, now, part, first, k)
    ensures now[part[k]] == before[part[k]]
    ensures ShiftedUpTo(before, now[part[k] := Handed(before, part, first, k)], part, first, k + 1)
  {
    var after := now[part[k] := Handed(before, part, first, k)];
    assert part[k] == part[1..][k - 1];
    forall j | 1 <= j < |part|
      ensures after[part[j]] == if j < k + 1 then Handed(before, part, first, j) else before[part[j]]
    {
      assert j != k ==> part[j] != part[k];
    }
    forall x | 0 <= x < |before| && x !in part[1..] ensures after[x] == before[x] {
    }
  }

  /** The loop both moves share. */
  method ShiftTail<X>(ordered: array<Option<X>>, part: seq<int>, first: Option<X>)
    requires |part| >= 2 && NoRepeats(part) && InBounds(part, ordered.Length)
    modifies ordered
    ensures ShiftedUpTo(old(ordered[..]), ordered[..], part, first, |part|)
  {
    ghost var before := ordered[..];
    var prev := first;
    for k := 1 to |part|
      invariant prev == Handed(before, part, first, k)
      invariant ShiftedUpTo(before, ordered[..], part, first, k)
    {
      ghost var now := ordered[..];
      ghost var shifted := now[part[k] := prev];
      ShiftOne(before, now, part, first, k);
      prev, ordered[part[k]] := ordered[part[k]], prev;
      assert ordered[..] == shifted;
    }
  }

  /** After `head` was stored at the start of the part, shifting the tail advances every item. */
  lemma HeadThenTail<X>(before: seq<Option<X>>, after: seq<Option<X>>, part: seq<int>, head: Option<X>)
    requires |part| >= 2 && NoRepeats(part) && InBounds(part, |before|)
    requires ShiftedUpTo(before[part[0] := head], after, part, before[part[0]], |part|)
    ensures |after| == |before| && Advanced(before, after, part) && SameOutside(before, after, part)
    ensures after[part[0]] == head
  {
    forall k | 0 <= k < |part| - 1 ensures after[part[k + 1]] == before[part[k]] {
      HandedOn(before, part, head, k);
    }
    assert part[0] !in part[1..];
    forall x | 0 <= x < |before| && x !in part ensures after[x] == before[x] {
      assert x !in part[1..] && x != part[0];
    }
  }

  /** Storing the head at the start of the part does not touch what the later elements hand on. */
  lemma HandedOn<X>(before: seq<Option<X>>, part: seq<int>, head: Option<X>, k: nat)
    requires NoRepeats(part) && InBounds(part, |before|) && k < |part| - 1
    ensures Handed(before[part[0] := head], part, before[part[0]], k + 1) == before[part[k]]
  {
  }

  /** Shifts a chain by one; whatever its last index held is dropped. */
  method ShiftChain<X>(ordered: array<Option<X>>, tree: seq<int>)
    requires |tree| >= 2 && NoRepeats(tree) && InBounds(tree, ordered.Length)
    modifies ordered
    ensures Advanced(old(ordered[..]), ordered[..], tree)
    ensures SameOutside(old(ordered[..]), ordered[..], tree)
    ensures ordered[tree[0]] == None
  {
    ghost var before := ordered[..];
    var prev := ordered[tree[0]];
    ordered[tree[0]] := None;
    assert ordered[..] == before[tree[0] := None];
    ShiftTail(ordered, tree, prev);
    HeadThenTail(before, ordered[..], tree, None);
  }

  /** Rotates a cycle by one. */
  method RotateCycle<X>(ordered: array<Option<X>>, cycle: seq<int>)
    requires |cycle| >= 2 && NoRepeats(cycle) && InBounds(cycle, ordered.Length)
    modifies ordered
    ensures Advanced(old(ordered[..]), ordered[..], cycle)
    ensures SameOutside(old(ordered[..]), ordered[..], cycle)
    ensures ordered[cycle[0]] == old(ordered[cycle[|cycle| - 1]])
  {
    ghost var before := ordered[..];
    var prev := ordered[cycle[0]];
    ordered[cycle[0]] := ordered[cycle[|cycle| - 1]];
    assert ordered[..] == before[cycle[0] := before[cycle[|cycle| - 1]]];
    ShiftTail(ordered, cycle, prev);
    HeadThenTail(before, ordered[..], cycle, before[cycle[|cycle| - 1]]);
  }

  // ---------------------------------------------------------------- all chains, then all cycles

  ghost predicate LastIsFree<X>(slots: seq<Option<X>>, tree: seq<int>)
    requires tree != [] && InBounds(tree, |slots|)
  {
    slots[tree[|tree| - 1]].None?
  }

  ghost predicate Shifted<X>(before: seq<Option<X>>, after: seq<Option<X>>, tree: seq<int>)
    requires |before| == |after| && InBounds(tree, |before|) && tree != []
  {
    Advanced(before, after, tree) && after[tree[0]] == None
  }

  ghost predicate Rotated<X>(before: seq<Option<X>>, after: seq<Option<X>>, cycle: seq<int>)
    requires |before| == |after| && InBounds(cycle, |before|) && cycle != []
  {
    Advanced(before, after, cycle) && after[cycle[0]] == before[cycle[|cycle| - 1]]
  }

  /** The parts are long enough to move, in bounds and node-disjoint. */
  ghost predicate Movable(parts: seq<seq<int>>, n: int) {
    && (forall i | 0 <= i < |parts| :: |parts[i]| >= 2 && NoRepeats(parts[i]) && InBounds(parts[i], n))
    && (forall i, j | 0 <= i < j < |parts| :: Apart(parts[i], parts[j]))
  }

  /** Shifts every chain whose end is free; says whether all of them were. */
  method ShiftChains<X>(ordered: array<Option<X>>, trees: seq<seq<int>>) returns (ok: bool)
    requires Movable(trees, ordered.Length)
    modifies ordered
    ensures ok <==> forall i | 0 <= i < |trees| :: LastIsFree(old(ordered[..]), trees[i])
    ensures ok ==> forall i | 0 <= i < |trees| :: Shifted(old(ordered[..]), ordered[..], trees[i])
    ensures forall x | 0 <= x < ordered.Length && !InSome(trees, x) :: ordered[x] == old(ordered[x])
  {
    ok := true;
    ghost var before := ordered[..];
    for i := 0 to |trees|
      invariant ok <==> forall j | 0 <= j < i :: LastIsFree(before, trees[j])
      invariant ok ==> forall j | 0 <= j < i :: Shifted(before, ordered[..], trees[j])
      invariant forall j | i <= j < |trees| :: SameOn(before, ordered[..], trees[j])
      invariant forall x | 0 <= x < ordered.Length && !InSome(trees, x) :: ordered[x] == before[x]
    {
      var tree := trees[i];
      assert SameOn(before, ordered[..], tree);
      if ordered[tree[|tree| - 1]].Some? {
        ok := false;
        continue;
      }
      ghost var now := ordered[..];
      ShiftChain(ordered, tree);
      StepOnParts(before, now, ordered[..], trees, i);
      assert Shifted(before, ordered[..], tree);
    }
  }

  /** Rotates every cycle. */
  method RotateCycles<X>(ordered: array<Option<X>>, cycles: seq<seq<int>>)
    requires Movable(cycles, ordered.Length)
    modifies ordered
    ensures forall i | 0 <= i < |cycles| :: Rotated(old(ordered[..]), ordered[..], cycles[i])
    ensures forall x | 0 <= x < ordered.Length && !InSome(cycles, x) :: ordered[x] == old(ordered[x])
  {
    ghost var before := ordered[..];
    for i := 0 to |cycles|
      invariant forall j | 0 <= j < i :: Rotated(before, ordered[..], cycles[j])
      invariant forall j | i <= j < |cycles| :: SameOn(before, ordered[..], cycles[j])
      invariant forall x | 0 <= x < ordered.Length && !InSome(cycles, x) :: ordered[x] == before[x]
    {
      assert SameOn(before, ordered[..], cycles[i]);
      ghost var now := ordered[..];
      RotateCycle(ordered, cycles[i]);
      StepOnParts(before, now, ordered[..], cycles, i);
      assert Rotated(before, ordered[..], cycles[i]);
    }
  }

  ghost predicate SameOn<X>(before: seq<Option<X>>, after: seq<Option<X>>, part: seq<int>)
    requires |before| == |after| && InBounds(part, |before|)
  {
    forall k | 0 <= k < |part| :: after[part[k]] == before[part[k]]
  }

  /** Changing only part `i` leaves the other parts, and everything outside all parts, alone. */
  lemma StepOnParts<X>(before: seq<Option<X>>, now: seq<Option<X>>, after: seq<Option<X>>,
                       parts: seq<seq<int>>, i: nat)
    requires |before| == |now| == |after| && i < |parts| && Movable(parts, |before|)
    requires SameOutside(now, after, parts[i])
    ensures forall j | 0 <= j < |parts| && j != i :: SameOn(now, after, parts[j])
    ensures forall x | 0 <= x < |before| && !InSome(parts, x) :: after[x] == now[x]
  {
    forall j | 0 <= j < |parts| && j != i ensures SameOn(now, after, parts[j]) {
      assert if i < j then Apart(parts[i], parts[j]) else Apart(parts[j], parts[i]);
      forall k | 0 <= k < |parts[j]| ensures after[parts[j][k]] == now[parts[j][k]] {
        assert parts[j][k] in parts[j];
      }
    }
  }

  // ---------------------------------------------------------------- the whole reordering

  /** Some chain runs into an index that is taken and that nothing leaves. */
  ghost predicate Blocked<X>(slots: seq<Option<X>>, edges: seq<OrderChange>)
    requires InRange(edges, |slots|)
  {
    exists e :: e in edges && !Left(edges, e.next) && slots[e.next].Some?
  }

  lemma DecompositionIsMovable(edges: seq<OrderChange>, trees: seq<seq<int>>, cycles: seq<seq<int>>, n: nat)
    requires InRange(edges, n) && Decomposes(edges, trees, cycles)
    ensures Movable(trees, n) && Movable(cycles, n)
  {
    forall i | 0 <= i < |trees| ensures InBounds(trees[i], n) && NoRepeats(trees[i]) && |trees[i]| >= 2 {
      assert Chain(edges, trees[i]);
      TouchedInBounds(edges, trees[i], n);
    }
    forall i | 0 <= i < |cycles| ensures InBounds(cycles[i], n) && NoRepeats(cycles[i]) && |cycles[i]| >= 2 {
      assert Cycle(edges, cycles[i]);
      TouchedInBounds(edges, cycles[i], n);
    }
  }

  lemma TouchedInBounds(edges: seq<OrderChange>, w: seq<int>, n: nat)
    requires InRange(edges, n) && Walk(edges, w) && |w| >= 2
    ensures InBounds(w, n)
  {
    forall k | 0 <= k < |w| ensures 0 <= w[k] < n {
      WalkIsTouched(edges, w, w[k]);
    }
  }

  /** The chain ends are exactly the indices that edges enter and none leaves. */
  lemma ChainEndsAreBlocked<X>(slots: seq<Option<X>>, edges: seq<OrderChange>,
                               trees: seq<seq<int>>, cycles: seq<seq<int>>)
    requires InRange(edges, |slots|) && Matching(edges) && Decomposes(edges, trees, cycles)
    requires Movable(trees, |slots|)
    ensures Blocked(slots, edges) <==> exists i :: 0 <= i < |trees| && !LastIsFree(slots, trees[i])
  {
    MatchingIsOneToOne(edges);
    if Blocked(slots, edges) {
      var e :| e in edges && !Left(edges, e.next) && slots[e.next].Some?;
      var p := EdgeHasPlace(edges, trees, cycles, e);
      if p.inCycle {
        CycleElementsAreLeft(edges, cycles[p.part], e.next);
        assert false;
      }
      var tree := trees[p.part];
      if e.next != tree[|tree| - 1] {
        LeftUnlessLast(edges, tree, e.next);
        assert false;
      }
      assert !LastIsFree(slots, tree);
    }
    if i :| 0 <= i < |trees| && !LastIsFree(slots, trees[i]) {
      var tree := trees[i];
      assert Chain(edges, tree);
      assert Edge(edges, tree[|tree| - 2], tree[|tree| - 2 + 1]);
      assert OrderChange(tree[|tree| - 2], tree[|tree| - 1]) in edges;
    }
  }

  lemma CycleElementsAreLeft(edges: seq<OrderChange>, cycle: seq<int>, x: int)
    requires Cycle(edges, cycle) && x in cycle
    ensures Left(edges, x)
  {
    if x != cycle[|cycle| - 1] {
      LeftUnlessLast(edges, cycle, x);
    }
  }

  lemma LeftUnlessLast(edges: seq<OrderChange>, w: seq<int>, x: int)
    requires Walk(edges, w) && x in w && x != w[|w| - 1]
    ensures Left(edges, x)
  {
    var k :| 0 <= k < |w| && w[k] == x;
    assert Edge(edges, w[k], w[k + 1]);
  }

  /** Shifted chains and rotated cycles, with the rest untouched, are exactly the requested move. */
  lemma PartsMakeTheMove<X>(before: seq<Option<X>>, middle: seq<Option<X>>, after: seq<Option<X>>,
                            edges: seq<OrderChange>, trees: seq<seq<int>>, cycles: seq<seq<int>>)
    requires |before| == |middle| == |after| && InRange(edges, |before|) && Matching(edges)
    requires Decomposes(edges, trees, cycles) && Movable(trees, |before|) && Movable(cycles, |before|)
    requires forall i | 0 <= i < |trees| :: Shifted(before, middle, trees[i])
    requires forall x | 0 <= x < |before| && !InSome(trees, x) :: middle[x] == before[x]
    requires forall i | 0 <= i < |cycles| :: Rotated(middle, after, cycles[i])
    requires forall x | 0 <= x < |before| && !InSome(cycles, x) :: after[x] == middle[x]
    ensures IsMoved(before, after, edges)
  {
    MatchingIsOneToOne(edges);
    forall i, x | 0 <= i < |cycles| && x in cycles[i] ensures !InSome(trees, x) {
      if j :| 0 <= j < |trees| && x in trees[j] {
        NotApart(trees[j], cycles[i], x);
      }
    }
    forall i, x | 0 <= i < |trees| && x in trees[i] ensures !InSome(cycles, x) {
      if j :| 0 <= j < |cycles| && x in cycles[j] {
        NotApart(trees[i], cycles[j], x);
      }
    }
    forall e | e in edges ensures after[e.next] == before[e.prev] {
      var p := EdgeHasPlace(edges, trees, cycles, e);
      if p.inCycle {
        assert Rotated(middle, after, cycles[p.part]);
        assert e.prev in cycles[p.part];
      } else {
        assert Shifted(before, middle, trees[p.part]);
        assert e.next in trees[p.part];
      }
    }
    forall x | 0 <= x < |before| && !Entered(edges, x)
      ensures after[x] == if Left(edges, x) then None else before[x]
    {
      if Left(edges, x) {
        UnenteredStartsAChain(edges, trees, cycles, x);
        var i :| 0 <= i < |trees| && x == trees[i][0];
        assert Shifted(before, middle, trees[i]);
        assert x in trees[i];
      } else {
        assert !Touched(edges, x);
      }
    }
  }

  lemma UnenteredStartsAChain(edges: seq<OrderChange>, trees: seq<seq<int>>, cycles: seq<seq<int>>, x: int)
    requires Decomposes(edges, trees, cycles)
    requires Left(edges, x) && !Entered(edges, x)
    ensures exists i :: 0 <= i < |trees| && trees[i] != [] && x == trees[i][0]
  {
    assert Touched(edges, x);
    if InSome(trees, x) {
      var i :| 0 <= i < |trees| && x in trees[i];
      assert Chain(edges, trees[i]);
      if x != trees[i][0] {
        StartIsOnlyUnentered(edges, trees[i], x);
        assert false;
      }
    } else {
      var i :| 0 <= i < |cycles| && x in cycles[i];
      assert Cycle(edges, cycles[i]);
      if x != cycles[i][0] {
        StartIsOnlyUnentered(edges, cycles[i], x);
      }
      assert false;
    }
  }

  /** Moves every item along its edge; refuses exactly when a chain runs into a taken index. */
  method Reorder<X>(ordered: array<Option<X>>, edges: seq<OrderChange>) returns (ok: bool)
    requires InRange(edges, ordered.Length) && Matching(edges)
    modifies ordered
    ensures ok <==> !Blocked(old(ordered[..]), edges)
    ensures ok ==> IsMoved(old(ordered[..]), ordered[..], edges)
  {
    ghost var before := ordered[..];
    var trees, cycles := FindTreesAndCycles(edges, ordered.Length);
    DecompositionIsMovable(edges, trees, cycles, ordered.Length);
    ChainEndsAreBlocked(before, edges, trees, cycles);
    ok := ShiftChains(ordered, trees);
    if !ok {
      return;
    }
    ghost var middle := ordered[..];
    RotateCycles(ordered, cycles);
    PartsMakeTheMove(before, middle, ordered[..], edges, trees, cycles);
  }
}
