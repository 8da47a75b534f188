/** The stages of a bulk update as facts about rows and slots: moves, deletes, updates, creates and packing. */
module Stages {
  import opened Prelude
  import opened Components
  import opened Permutations
  import opened Items
  import opened Placement

  // ---------------------------------------------------------------- deletes, updates and creates

  lemma DeleteStep<T>(rows: Rows<T>, deleted: seq<ID>, k: nat)
    requires k < |deleted|
    ensures Survivors(rows, deleted[..k + 1]) == Survivors(rows, deleted[..k]) - {deleted[k]}
    ensures DeletesKnown(rows, deleted[..k + 1]) <==>
            DeletesKnown(rows, deleted[..k]) && deleted[k] in Survivors(rows, deleted[..k])
  {
    assert deleted[..k + 1] == deleted[..k] + [deleted[k]];
  }

  ghost predicate TargetsWithin<T>(updates: seq<UpdateReq<T>>, n: int) {
    forall i | 0 <= i < |updates| :: 0 <= updates[i].orderIdx < n
  }

  ghost predicate FirstValid<T>(rows: Rows<T>, updates: seq<UpdateReq<T>>, k: nat)
    requires UpdatesKnown(rows, updates) && k <= |updates|
  {
    forall i | 0 <= i < k :: UpdateValid(rows, updates, i)
  }

  lemma OneMoreValid<T>(rows: Rows<T>, updates: seq<UpdateReq<T>>, k: nat)
    requires UpdatesKnown(rows, updates) && k < |updates|
    ensures FirstValid(rows, updates, 0)
    ensures FirstValid(rows, updates, k + 1) <==> FirstValid(rows, updates, k) && UpdateValid(rows, updates, k)
  {
  }

  /** The first `k` updates are stored. */
  ghost predicate Stored<T>(byID: Rows<T>, rows: Rows<T>, updates: seq<UpdateReq<T>>, k: nat) {
    && k <= |updates| && UpdatesKnown(rows, updates)
    && (forall id | id in rows :: rows[id].id == id)
    && byID == AfterUpdates(rows, updates[..k])
  }

  /** The first `k` updates are stored in the store and the pack; if the array mirrors the rows it has every row
      where the updates together want it. */
  ghost predicate Storing<T>(ordered: seq<Slot<T>>, byID: Rows<T>, stored: Rows<T>, rows: Rows<T>,
                             updates: seq<UpdateReq<T>>, target: map<ID, int>, mirrors: bool, k: nat)
  {
    && Stored(byID, rows, updates, k) && stored == byID && TargetsWithin(updates, |ordered|)
    && target == Indices(AfterUpdates(rows, updates))
    && (mirrors ==> DistinctIds(updates) && Placed(ordered, byID, target))
  }

  lemma TargetsInBounds<T>(rows: Rows<T>, updates: seq<UpdateReq<T>>, n: nat)
    requires DistinctIds(updates) && UpdatesKnown(rows, updates) && WithinBounds(AfterUpdates(rows, updates), n)
    requires forall id | id in rows :: rows[id].id == id
    ensures TargetsWithin(updates, n)
  {
    forall i | 0 <= i < |updates| ensures 0 <= updates[i].orderIdx < n {
      UpdatedTarget(rows[updates[i].id], updates, i);
      assert updates[i].id in AfterUpdates(rows, updates);
    }
  }

  ghost predicate FreeAt<T>(rows: Rows<T>, n: int, i: int) {
    0 <= i < n && forall id | id in rows :: rows[id].orderIdx != i
  }

  lemma SlotIsFree<T>(ordered: seq<Slot<T>>, rows: Rows<T>, i: int)
    requires Placed(ordered, rows, Indices(rows))
    ensures FreeAt(rows, |ordered|, i) <==> 0 <= i < |ordered| && ordered[i] == None
  {
  }

  ghost predicate PlacesFree<T>(rows: Rows<T>, n: int, creates: seq<CreateReq<T>>) {
    forall k | 0 <= k < |creates| :: FreeAt(rows, n, creates[k].orderIdx)
  }

  /** The first `k` items are created. */
  ghost predicate Created<T>(byID: Rows<T>, next: nat, rows: Rows<T>, nextId: nat, creates: seq<CreateReq<T>>, k: nat) {
    k <= |creates| && next == nextId + k && byID == AfterCreates(rows, nextId, creates[..k]) && Keyed(byID, next)
  }

  /** The array mirrors the rows, and the places of the items from `k` on are free. */
  ghost predicate StillFree<T>(ordered: seq<Slot<T>>, byID: Rows<T>, creates: seq<CreateReq<T>>, k: nat) {
    && Placed(ordered, byID, Indices(byID))
    && forall j | k <= j < |creates| :: FreeAt(byID, |ordered|, creates[j].orderIdx)
  }

  lemma OthersStayFree<T>(rows: Rows<T>, id: ID, n: int, creates: seq<CreateReq<T>>, k: nat)
    requires DistinctPlaces(creates) && k < |creates|
    requires forall j | k <= j < |creates| :: FreeAt(rows, n, creates[j].orderIdx)
    ensures forall j | k < j < |creates| ::
              FreeAt(rows[id := Item(id, creates[k].orderIdx, creates[k].body)], n, creates[j].orderIdx)
  {
  }

  // ---------------------------------------------------------------- the moves of the updates

  ghost predicate AllWithin(target: map<ID, int>, n: int) {
    forall id | id in target :: 0 <= target[id] < n
  }

  lemma EdgeOutOfBounds(at: map<ID, int>, target: map<ID, int>, edges: seq<OrderChange>, n: nat)
    requires EdgesOf(at, target, edges)
    requires exists e | e in edges :: !(0 <= e.next < n)
    ensures !AllWithin(target, n)
  {
    var e :| e in edges && !(0 <= e.next < n);
    assert Edge(edges, e.prev, e.next);
  }

  lemma EdgesStartInBounds<T>(ordered: seq<Slot<T>>, rows: Rows<T>, target: map<ID, int>, edges: seq<OrderChange>)
    requires Placed(ordered, rows, Indices(rows)) && EdgesOf(Indices(rows), target, edges)
    requires forall e | e in edges :: 0 <= e.next < |ordered|
    ensures InRange(edges, |ordered|)
  {
    forall e | e in edges ensures 0 <= e.prev < |ordered| {
      assert Edge(edges, e.prev, e.next);
    }
  }

  lemma PlacedDoesNotCollide<T>(ordered: seq<Slot<T>>, rows: Rows<T>, target: map<ID, int>)
    requires Placed(ordered, rows, target)
    ensures !Collide(target) && AllWithin(target, |ordered|)
  {
  }

  predicate MovesAway<T>(rows: Rows<T>, u: UpdateReq<T>) {
    u.id in rows && rows[u.id].orderIdx != u.orderIdx
  }

  /** No item is moved away twice: splitting the moves into chains and cycles demands it. */
  ghost predicate MovedOnce<T>(rows: Rows<T>, updates: seq<UpdateReq<T>>) {
    forall i, j | 0 <= i < j < |updates| && MovesAway(rows, updates[i]) && MovesAway(rows, updates[j]) ::
      updates[i].id != updates[j].id
  }

  /** Where the moves send the item at index `at`. */
  ghost function MoveTarget<T>(at: int, updates: seq<UpdateReq<T>>, id: ID): int {
    if updates == [] then at
    else
      var u := updates[|updates| - 1];
      if u.id == id && u.orderIdx != at then u.orderIdx else MoveTarget(at, updates[..|updates| - 1], id)
  }

  ghost function MovedTo<T>(rows: Rows<T>, updates: seq<UpdateReq<T>>): map<ID, int> {
    map id | id in rows :: MoveTarget(rows[id].orderIdx, updates, id)
  }

  lemma {:induction false} MoveTargetOf<T>(at: int, updates: seq<UpdateReq<T>>, id: ID, j: nat)
    requires j < |updates| && updates[j].id == id && updates[j].orderIdx != at
    requires forall k | 0 <= k < |updates| && k != j && updates[k].id == id :: updates[k].orderIdx == at
    ensures MoveTarget(at, updates, id) == updates[j].orderIdx
  {
    if j < |updates| - 1 {
      MoveTargetOf(at, updates[..|updates| - 1], id, j);
    }
  }

  lemma {:induction false} MoveTargetStays<T>(at: int, updates: seq<UpdateReq<T>>, id: ID)
    requires forall k | 0 <= k < |updates| && updates[k].id == id :: updates[k].orderIdx == at
    ensures MoveTarget(at, updates, id) == at
  {
    if updates != [] {
      MoveTargetStays(at, updates[..|updates| - 1], id);
    }
  }

  lemma MovedToTarget<T>(rows: Rows<T>, updates: seq<UpdateReq<T>>, j: nat)
    requires MovedOnce(rows, updates) && j < |updates| && MovesAway(rows, updates[j])
    ensures MovedTo(rows, updates)[updates[j].id] == updates[j].orderIdx
  {
    var id := updates[j].id;
    forall k | 0 <= k < |updates| && k != j && updates[k].id == id ensures updates[k].orderIdx == rows[id].orderIdx {
      assert !MovesAway(rows, updates[k]);
    }
    MoveTargetOf(rows[id].orderIdx, updates, id, j);
  }

  /** When no item is named twice, the moves lead where the updates do. */
  lemma MovedToIsUpdated<T>(rows: Rows<T>, updates: seq<UpdateReq<T>>)
    requires DistinctIds(updates) && forall id | id in rows :: rows[id].id == id
    ensures MovedOnce(rows, updates) && MovedTo(rows, updates) == Indices(AfterUpdates(rows, updates))
  {
    forall id | id in rows ensures MovedTo(rows, updates)[id] == Updated(rows[id], updates).orderIdx {
      UpdatedKeepsId(rows[id], updates);
      if j :| 0 <= j < |updates| && updates[j].id == id {
        UpdatedTarget(rows[id], updates, j);
        if MovesAway(rows, updates[j]) {
          MoveTargetOf(rows[id].orderIdx, updates, id, j);
        } else {
          MoveTargetStays(rows[id].orderIdx, updates, id);
        }
      } else {
        MoveTargetStays(rows[id].orderIdx, updates, id);
      }
    }
  }

  /** Edge `i` is the move of update `from[i]`, all of them among the first `k`. */
  ghost predicate Collected<T>(rows: Rows<T>, updates: seq<UpdateReq<T>>, k: nat,
                               edges: seq<OrderChange>, from: seq<nat>)
    requires k <= |updates|
  {
    && |from| == |edges| && (forall i, j | 0 <= i < j < |from| :: from[i] < from[j])
    && (forall i | 0 <= i < |edges| :: from[i] < k && MovesAway(rows, updates[from[i]]) &&
          edges[i] == OrderChange(rows[updates[from[i]].id].orderIdx, updates[from[i]].orderIdx))
  }

  ghost predicate AllCollected<T>(rows: Rows<T>, updates: seq<UpdateReq<T>>, k: nat, from: seq<nat>)
    requires k <= |updates|
  {
    forall j | 0 <= j < k :: updates[j].id in rows && (MovesAway(rows, updates[j]) ==> j in from)
  }

  /** Two updates move their items away to one index. */
  ghost predicate TwoMovesMeet<T>(rows: Rows<T>, updates: seq<UpdateReq<T>>) {
    exists i, j :: 0 <= i < j < |updates| && MovesAway(rows, updates[i]) && MovesAway(rows, updates[j]) &&
      updates[i].orderIdx == updates[j].orderIdx
  }

  ghost predicate NextsDiffer(edges: seq<OrderChange>) {
    forall i, j | 0 <= i < j < |edges| :: edges[i].next != edges[j].next
  }

  /** One more move, to an index that is not yet a target. */
  lemma CollectMove<T>(rows: Rows<T>, updates: seq<UpdateReq<T>>, k: nat, edges: seq<OrderChange>, from: seq<nat>)
    requires k < |updates| && MovesAway(rows, updates[k]) && !IsTarget(edges, updates[k].orderIdx)
    requires Collected(rows, updates, k, edges, from) && NextsDiffer(edges)
    ensures var edges' := edges + [OrderChange(rows[updates[k].id].orderIdx, updates[k].orderIdx)];
            && Collected(rows, updates, k + 1, edges', from + [k]) && NextsDiffer(edges')
            && (AllCollected(rows, updates, k, from) ==> AllCollected(rows, updates, k + 1, from + [k]))
  {
    assert forall i | 0 <= i < |edges| :: IsTarget(edges, edges[i].next);
    assert forall j | j in from :: j in from + [k];
    assert (from + [k])[|from|] == k;
  }

  lemma NoTwoMovesMeet<T>(rows: Rows<T>, updates: seq<UpdateReq<T>>, edges: seq<OrderChange>, from: seq<nat>)
    requires Collected(rows, updates, |updates|, edges, from) && AllCollected(rows, updates, |updates|, from)
    requires NextsDiffer(edges)
    ensures UpdatesKnown(rows, updates) && !TwoMovesMeet(rows, updates)
  {
    forall i, j | 0 <= i < j < |updates| && MovesAway(rows, updates[i]) && MovesAway(rows, updates[j])
      ensures updates[i].orderIdx != updates[j].orderIdx
    {
      var p :| 0 <= p < |from| && from[p] == i;
      var q :| 0 <= q < |from| && from[q] == j;
      assert edges[p].next == updates[i].orderIdx && edges[q].next == updates[j].orderIdx;
    }
  }

  ghost predicate IsTarget(edges: seq<OrderChange>, t: int) {
    exists i :: 0 <= i < |edges| && edges[i].next == t
  }

  lemma IsTargetAppend(edges: seq<OrderChange>, e: OrderChange)
    ensures forall t :: IsTarget(edges + [e], t) <==> IsTarget(edges, t) || t == e.next
  {
    forall t | IsTarget(edges, t) || t == e.next ensures IsTarget(edges + [e], t) {
      if IsTarget(edges, t) {
        var i :| 0 <= i < |edges| && edges[i].next == t;
        assert (edges + [e])[i].next == t;
      } else {
        assert (edges + [e])[|edges|].next == t;
      }
    }
  }

  lemma TwoMovesCollide<T>(rows: Rows<T>, updates: seq<UpdateReq<T>>)
    requires MovedOnce(rows, updates) && TwoMovesMeet(rows, updates)
    ensures Collide(MovedTo(rows, updates))
  {
    var i, j :| 0 <= i < j < |updates| && MovesAway(rows, updates[i]) && MovesAway(rows, updates[j]) &&
      updates[i].orderIdx == updates[j].orderIdx;
    var target := MovedTo(rows, updates);
    MovedToTarget(rows, updates, i);
    MovedToTarget(rows, updates, j);
    assert target[updates[i].id] == target[updates[j].id];
  }

  lemma CollectedMatches<T>(rows: Rows<T>, updates: seq<UpdateReq<T>>, edges: seq<OrderChange>, from: seq<nat>)
    requires MovedOnce(rows, updates) && Injective(rows) && !TwoMovesMeet(rows, updates)
    requires Collected(rows, updates, |updates|, edges, from)
    ensures Matching(edges)
  {
    forall i, j | 0 <= i < j < |edges| ensures edges[i].prev != edges[j].prev && edges[i].next != edges[j].next {
      assert from[i] < from[j] && MovesAway(rows, updates[from[i]]) && MovesAway(rows, updates[from[j]]);
      assert updates[from[i]].id != updates[from[j]].id;
    }
  }

  lemma CollectedEdges<T>(rows: Rows<T>, updates: seq<UpdateReq<T>>, edges: seq<OrderChange>, from: seq<nat>)
    requires MovedOnce(rows, updates)
    requires Collected(rows, updates, |updates|, edges, from) && AllCollected(rows, updates, |updates|, from)
    ensures EdgesOf(Indices(rows), MovedTo(rows, updates), edges)
  {
    var at, target := Indices(rows), MovedTo(rows, updates);
    forall id | id in at && at[id] != target[id] ensures Edge(edges, at[id], target[id]) {
      if forall k | 0 <= k < |updates| && updates[k].id == id :: updates[k].orderIdx == at[id] {
        MoveTargetStays(at[id], updates, id);
      }
      var j :| 0 <= j < |updates| && updates[j].id == id && updates[j].orderIdx != at[id];
      assert MovesAway(rows, updates[j]);
      MovedToTarget(rows, updates, j);
      var i :| 0 <= i < |from| && from[i] == j;
      assert edges[i] == OrderChange(at[id], target[id]);
    }
    forall a, b | Edge(edges, a, b)
      ensures exists id :: id in at && a == at[id] && b == target[id] && a != b
    {
      var i :| 0 <= i < |edges| && edges[i] == OrderChange(a, b);
      var u := updates[from[i]];
      assert MovesAway(rows, u);
      MovedToTarget(rows, updates, from[i]);
      assert a == at[u.id] && b == target[u.id];
    }
  }

  // ---------------------------------------------------------------- accepting or refusing a request

  ghost function Middle<T>(rows: Rows<T>, req: BulkReq<T>): Rows<T> {
    AfterUpdates(Survivors(rows, req.delete), req.update)
  }

  lemma MiddleKeys<T>(rows: Rows<T>, nextId: nat, req: BulkReq<T>)
    requires Keyed(rows, nextId)
    ensures Keyed(Middle(rows, req), nextId)
  {
    forall id | id in Middle(rows, req) ensures Middle(rows, req)[id].id == id {
      UpdatedKeepsId(rows[id], req.update);
    }
  }

  /** Whatever the reordering refuses, the specification refuses. */
  lemma ReorderRefusal<T>(rows: Rows<T>, nextId: nat, req: BulkReq<T>, n: nat)
    requires Keyed(rows, nextId) && n == GrownLength(|rows|, req)
    requires Collide(Indices(Middle(rows, req))) || !WithinBounds(Middle(rows, req), n)
    ensures !Accepts(rows, nextId, req)
  {
    MiddleKeys(rows, nextId, req);
    if Collide(Indices(Middle(rows, req))) {
      CollisionSurvivesCreates(Middle(rows, req), nextId, req.create);
    } else {
      AfterCreatesRows(Middle(rows, req), nextId, req.create);
      var id :| id in Middle(rows, req) && !(0 <= Middle(rows, req)[id].orderIdx < n);
      assert Staged(rows, nextId, req)[id] == Middle(rows, req)[id];
    }
  }

  lemma StagedPlaceWasFree<T>(rows: Rows<T>, nextId: nat, creates: seq<CreateReq<T>>, n: nat, k: nat)
    requires Keyed(rows, nextId) && k < |creates|
    requires Injective(AfterCreates(rows, nextId, creates)) && WithinBounds(AfterCreates(rows, nextId, creates), n)
    ensures FreeAt(rows, n, creates[k].orderIdx)
  {
    var all := AfterCreates(rows, nextId, creates);
    AfterCreatesRows(rows, nextId, creates);
    CreatedRow(rows, nextId, creates, k);
    forall id | id in rows ensures rows[id].orderIdx != creates[k].orderIdx {
      assert all[id] == rows[id] && id != nextId + k;
      assert all[nextId + k].orderIdx == creates[k].orderIdx;
    }
  }

  lemma FreePlacesDoNotCollide<T>(rows: Rows<T>, nextId: nat, creates: seq<CreateReq<T>>, n: nat)
    requires Keyed(rows, nextId) && Injective(rows) && WithinBounds(rows, n) && DistinctPlaces(creates)
    requires PlacesFree(rows, n, creates)
    ensures Injective(AfterCreates(rows, nextId, creates)) && WithinBounds(AfterCreates(rows, nextId, creates), n)
  {
    AfterCreatesRows(rows, nextId, creates);
    var all := AfterCreates(rows, nextId, creates);
    forall id | id in all && id !in rows ensures FreeAt(rows, n, all[id].orderIdx) {
      assert FreeAt(rows, n, creates[id - nextId].orderIdx);
    }
  }

  /** Free places for the creates are what is still missing for distinct targets inside the array. */
  lemma CreateRefusal<T>(rows: Rows<T>, nextId: nat, creates: seq<CreateReq<T>>, n: nat)
    requires Keyed(rows, nextId) && Injective(rows) && WithinBounds(rows, n) && DistinctPlaces(creates)
    ensures PlacesFree(rows, n, creates) <==>
            Injective(AfterCreates(rows, nextId, creates)) && WithinBounds(AfterCreates(rows, nextId, creates), n)
  {
    var all := AfterCreates(rows, nextId, creates);
    if Injective(all) && WithinBounds(all, n) {
      forall k | 0 <= k < |creates| ensures FreeAt(rows, n, creates[k].orderIdx) {
        StagedPlaceWasFree(rows, nextId, creates, n, k);
      }
    }
    if PlacesFree(rows, n, creates) {
      FreePlacesDoNotCollide(rows, nextId, creates, n);
    }
  }

  /** The conditions the stages test, one after another, are together the acceptance condition. */
  lemma StagesDecide<T>(rows: Rows<T>, nextId: nat, req: BulkReq<T>, n: nat)
    requires Keyed(rows, nextId) && NamesOnce(req) && n == GrownLength(|rows|, req)
    requires DeletesKnown(rows, req.delete)
    ensures Accepts(rows, nextId, req) <==>
      && UpdatesKnown(Survivors(rows, req.delete), req.update)
      && UpdatesValid(Survivors(rows, req.delete), req.update)
      && !Collide(Indices(Middle(rows, req)))
      && WithinBounds(Middle(rows, req), n)
      && CreatesValid(req.create)
      && PlacesFree(Middle(rows, req), n, req.create)
  {
    var middle := Middle(rows, req);
    MiddleKeys(rows, nextId, req);
    if Collide(Indices(middle)) || !WithinBounds(middle, n) {
      ReorderRefusal(rows, nextId, req, n);
    } else {
      assert Injective(middle) by {
        forall a, b | a in middle && b in middle && middle[a].orderIdx == middle[b].orderIdx ensures a == b {
          assert Indices(middle)[a] == Indices(middle)[b];
        }
      }
      CreateRefusal(middle, nextId, req.create, n);
    }
  }

  /** A known set of deletes leaves that many rows fewer, and every create adds one. */
  lemma {:induction false} StagedSize<T>(rows: Rows<T>, nextId: nat, req: BulkReq<T>)
    requires Keyed(rows, nextId) && DeletesKnown(rows, req.delete)
    ensures |Staged(rows, nextId, req)| == |rows| - |req.delete| + |req.create|
  {
    SurvivorsSize(rows, req.delete);
    assert Middle(rows, req).Keys == Survivors(rows, req.delete).Keys;
    assert |Middle(rows, req)| == |Survivors(rows, req.delete)| by {
      assert |Middle(rows, req).Keys| == |Survivors(rows, req.delete).Keys|;
    }
    CreatesSize(Middle(rows, req), nextId, req.create);
  }

  lemma CompactedSize<T>(rows: Rows<T>)
    ensures |Compacted(rows)| == |rows|
  {
    assert Compacted(rows).Keys == rows.Keys;
    assert |Compacted(rows).Keys| == |rows.Keys|;
  }

  lemma SurvivorsSize<T>(rows: Rows<T>, deleted: seq<ID>)
    requires DeletesKnown(rows, deleted)
    ensures |Survivors(rows, deleted)| == |rows| - |deleted|
  {
    NoRepeatsSize(deleted);
    assert Elements(deleted) <= rows.Keys;
    assert Survivors(rows, deleted).Keys == rows.Keys - Elements(deleted);
    assert |Survivors(rows, deleted)| == |Survivors(rows, deleted).Keys| == |rows.Keys| - |Elements(deleted)|;
  }

  lemma {:induction false} CreatesSize<T>(rows: Rows<T>, nextId: nat, creates: seq<CreateReq<T>>)
    requires forall id | id in rows :: id < nextId
    ensures |AfterCreates(rows, nextId, creates)| == |rows| + |creates|
  {
    if creates != [] {
      var k := |creates| - 1;
      CreatesSize(rows, nextId, creates[..k]);
      AfterCreatesRows(rows, nextId, creates[..k]);
    }
  }

  // ---------------------------------------------------------------- compaction, slot by slot

  /** The first `l` slots hold rows at their own indices and the rest are free. */
  ghost predicate Packed<T>(ordered: seq<Slot<T>>, rows: Rows<T>, l: nat) {
    && l <= |ordered|
    && (forall i | 0 <= i < l :: ordered[i].Some? && ordered[i].value.orderIdx == i &&
          ordered[i].value.id in rows && rows[ordered[i].value.id] == ordered[i].value)
    && (forall i | l <= i < |ordered| :: ordered[i] == None)
  }

  ghost function Renumbered<T>(rows: Rows<T>): set<ID> {
    set id | id in rows && Compacted(rows)[id].orderIdx != rows[id].orderIdx
  }

  ghost function RenumberedBelow<T>(rows: Rows<T>, k: int): set<ID> {
    Renumbered(rows) * IdsBelow(rows, k)
  }

  /** The rows below index `k` renumbered, the others as they were. */
  ghost function CompactedBelow<T>(rows: Rows<T>, k: int): Rows<T> {
    map id | id in rows :: if rows[id].orderIdx < k then Compacted(rows)[id] else rows[id]
  }

  lemma BelowZero<T>(ordered: seq<Slot<T>>, rows: Rows<T>)
    requires Placed(ordered, rows, Indices(rows))
    ensures Below(rows, 0) == 0 && IdsBelow(rows, 0) == {} && CompactedBelow(rows, 0) == rows
  {
    forall id | id in rows ensures rows[id].orderIdx >= 0 {
      assert Indices(rows)[id] == rows[id].orderIdx;
    }
    assert IdsBelow(rows, 0) == {};
  }

  lemma FreeSlot<T>(ordered: seq<Slot<T>>, rows: Rows<T>, r: nat)
    requires Placed(ordered, rows, Indices(rows)) && r < |ordered| && ordered[r] == None
    ensures IdsBelow(rows, r + 1) == IdsBelow(rows, r)
    ensures CompactedBelow(rows, r + 1) == CompactedBelow(rows, r)
  {
    forall id | id in rows ensures rows[id].orderIdx != r {
      assert ordered[Indices(rows)[id]] == Some(rows[id]);
    }
  }

  lemma TakenSlot<T>(ordered: seq<Slot<T>>, rows: Rows<T>, r: nat)
    requires Placed(ordered, rows, Indices(rows)) && r < |ordered| && ordered[r].Some?
    ensures var item := ordered[r].value;
            && item.id in rows && rows[item.id] == item && item.orderIdx == r
            && IdsBelow(rows, r + 1) == IdsBelow(rows, r) + {item.id}
            && Below(rows, r + 1) == Below(rows, r) + 1
            && Compacted(rows)[item.id] == item.(orderIdx := Below(rows, r))
            && CompactedBelow(rows, r + 1) == CompactedBelow(rows, r)[item.id := item.(orderIdx := Below(rows, r))]
  {
    var item := ordered[r].value;
    assert Indices(rows)[item.id] == r;
    forall id | id in rows && rows[id].orderIdx == r ensures id == item.id {
      assert ordered[Indices(rows)[id]] == Some(rows[id]);
    }
    assert IdsBelow(rows, r + 1) == IdsBelow(rows, r) + {item.id};
    OneMoreCompacted(rows, r, item.id);
  }

  lemma OneMoreCompacted<T>(rows: Rows<T>, r: int, id: ID)
    requires id in rows && rows[id].orderIdx == r && forall j | j in rows && rows[j].orderIdx == r :: j == id
    ensures CompactedBelow(rows, r + 1) == CompactedBelow(rows, r)[id := Compacted(rows)[id]]
  {
  }

  lemma PackedSwap<T>(ordered: seq<Slot<T>>, after: seq<Slot<T>>, now: Rows<T>, now': Rows<T>, l: nat, r: nat)
    requires l <= r < |ordered| == |after| && Packed(ordered[..r], now, l)
    requires ordered[r].Some? && ordered[r].value.orderIdx == r
    requires ordered[r].value.id in now && now[ordered[r].value.id] == ordered[r].value
    requires var item := ordered[r].value.(orderIdx := l);
             now' == now[item.id := item] && after == ordered[r := ordered[l]][l := Some(item)]
    ensures Packed(after[..r + 1], now', l + 1)
  {
    forall i | 0 <= i < r + 1 ensures i != l && i != r ==> after[..r + 1][i] == ordered[..r][i] {
    }
    assert l < r ==> ordered[l] == ordered[..r][l];
  }

  lemma RenumberedTaken<T>(ordered: seq<Slot<T>>, rows: Rows<T>, r: nat)
    requires Placed(ordered, rows, Indices(rows)) && r < |ordered| && ordered[r].Some?
    ensures RenumberedBelow(rows, r + 1) ==
            RenumberedBelow(rows, r) + if Below(rows, r) != r then {ordered[r].value.id} else {}
  {
    TakenSlot(ordered, rows, r);
  }

  /** Slots below `r` are packed into `l`, the rows below `r` renumbered, and the rest is as before. */
  ghost predicate Clapped<T>(before: seq<Slot<T>>, rows: Rows<T>, ordered: seq<Slot<T>>, now: Rows<T>, l: nat, r: nat) {
    && Placed(before, rows, Indices(rows))
    && |ordered| == |before| && l <= r <= |before|
    && l == Below(rows, r)
    && now == CompactedBelow(rows, r)
    && Packed(ordered[..r], now, l)
    && ordered[r..] == before[r..]
  }

  lemma ClappedSlot<T>(before: seq<Slot<T>>, rows: Rows<T>, ordered: seq<Slot<T>>, now: Rows<T>, l: nat, r: nat)
    requires Clapped(before, rows, ordered, now, l, r) && r < |before|
    ensures ordered[r] == before[r]
    ensures before[r].Some? ==> before[r].value.id in now && now[before[r].value.id] == before[r].value
    ensures before[r].Some? ==> before[r].value.orderIdx == r
  {
    assert ordered[r] == ordered[r..][0] && before[r] == before[r..][0];
    if before[r].Some? {
      TakenSlot(before, rows, r);
    }
  }

  lemma ClapStart<T>(before: seq<Slot<T>>, rows: Rows<T>)
    requires Placed(before, rows, Indices(rows))
    ensures Clapped(before, rows, before, rows, 0, 0) && RenumberedBelow(rows, 0) == {}
  {
    BelowZero(before, rows);
  }

  lemma ClapFree<T>(before: seq<Slot<T>>, rows: Rows<T>, ordered: seq<Slot<T>>, now: Rows<T>, l: nat, r: nat)
    requires Clapped(before, rows, ordered, now, l, r) && r < |before| && before[r] == None
    ensures Clapped(before, rows, ordered, now, l, r + 1) && RenumberedBelow(rows, r + 1) == RenumberedBelow(rows, r)
  {
    ClappedSlot(before, rows, ordered, now, l, r);
    FreeSlot(before, rows, r);
    assert ordered[..r + 1] == ordered[..r] + [ordered[r]];
    assert ordered[r + 1..] == ordered[r..][1..] && before[r + 1..] == before[r..][1..];
  }

  /** What swapping and renumbering the item at `r` comes to. */
  lemma ClapTaken<T>(before: seq<Slot<T>>, rows: Rows<T>, ordered: seq<Slot<T>>, now: Rows<T>, l: nat, r: nat)
    returns (item: Item<T>)
    requires Clapped(before, rows, ordered, now, l, r) && r < |before| && before[r].Some?
    ensures ordered[r] == before[r] && item == before[r].value.(orderIdx := l) && before[r].value.orderIdx == r
    ensures item.id in now && now[item.id] == before[r].value
    ensures Clapped(before, rows, ordered[r := ordered[l]][l := Some(item)], now[item.id := item], l + 1, r + 1)
    ensures RenumberedBelow(rows, r + 1) == RenumberedBelow(rows, r) + if r != l then {item.id} else {}
  {
    ClappedSlot(before, rows, ordered, now, l, r);
    TakenSlot(before, rows, r);
    RenumberedTaken(before, rows, r);
    item := before[r].value.(orderIdx := l);
    var after := ordered[r := ordered[l]][l := Some(item)];
    PackedSwap(ordered, after, now, now[item.id := item], l, r);
    assert after[r + 1..] == ordered[r..][1..] && before[r + 1..] == before[r..][1..];
  }

  lemma ClapEnd<T>(before: seq<Slot<T>>, rows: Rows<T>, ordered: seq<Slot<T>>, now: Rows<T>, l: nat)
    requires Clapped(before, rows, ordered, now, l, |before|)
    ensures now == Compacted(rows) && Packed(ordered, now, |now|)
    ensures RenumberedBelow(rows, |before|) == Renumbered(rows)
  {
    forall id | id in rows ensures rows[id].orderIdx < |before| {
      assert Indices(rows)[id] == rows[id].orderIdx;
    }
    assert IdsBelow(rows, |before|) == rows.Keys;
    assert now.Keys == rows.Keys;
    assert |now| == |rows| by { assert |now.Keys| == |rows.Keys|; }
    assert ordered[..|before|] == ordered;
  }
}
