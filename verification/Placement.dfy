/** How the index array of a bulk update mirrors the stored rows, stage by stage. */
module Placement {
  import opened Prelude
  import opened Components
  import opened Permutations
  import opened Slots
  import opened Items

  type Slot<T> = Option<Item<T>>

  /** Row `id` sits at index `at[id]`, and no slot holds anything else. */
  ghost predicate Placed<T>(ordered: seq<Slot<T>>, rows: Rows<T>, at: map<ID, int>) {
    && at.Keys == rows.Keys
    && (forall id | id in rows ::
          rows[id].id == id && 0 <= at[id] < |ordered| && ordered[at[id]] == Some(rows[id]))
    && (forall i | 0 <= i < |ordered| && ordered[i].Some? ::
          ordered[i].value.id in rows && at[ordered[i].value.id] == i)
  }

  ghost function Indices<T>(rows: Rows<T>): map<ID, int> {
    map id | id in rows :: rows[id].orderIdx
  }

  lemma PlacedIsInjective<T>(ordered: seq<Slot<T>>, rows: Rows<T>)
    requires Placed(ordered, rows, Indices(rows))
    ensures Injective(rows) && WithinBounds(rows, |ordered|)
  {
  }

  lemma RemovePlaced<T>(ordered: seq<Slot<T>>, rows: Rows<T>, id: ID)
    requires Placed(ordered, rows, Indices(rows)) && id in rows
    ensures Placed(ordered[rows[id].orderIdx := None], rows - {id}, Indices(rows - {id}))
  {
  }

  lemma GrowPlaced<T>(ordered: seq<Slot<T>>, grown: seq<Slot<T>>, rows: Rows<T>)
    requires Placed(ordered, rows, Indices(rows))
    requires |ordered| <= |grown|
    requires forall i | 0 <= i < |grown| :: grown[i] == if i < |ordered| then ordered[i] else None
    ensures Placed(grown, rows, Indices(rows))
  {
  }

  lemma ReplacePlaced<T>(ordered: seq<Slot<T>>, rows: Rows<T>, at: map<ID, int>, item: Item<T>)
    requires Placed(ordered, rows, at) && item.id in rows
    ensures Placed(ordered[at[item.id] := Some(item)], rows[item.id := item], at)
  {
  }

  lemma InsertPlaced<T>(ordered: seq<Slot<T>>, rows: Rows<T>, item: Item<T>)
    requires Placed(ordered, rows, Indices(rows)) && item.id !in rows
    requires 0 <= item.orderIdx < |ordered| && ordered[item.orderIdx] == None
    ensures Placed(ordered[item.orderIdx := Some(item)], rows[item.id := item], Indices(rows[item.id := item]))
  {
    var ordered', rows' := ordered[item.orderIdx := Some(item)], rows[item.id := item];
    var at' := Indices(rows');
    forall id | id in rows' ensures 0 <= at'[id] < |ordered'| && ordered'[at'[id]] == Some(rows'[id]) {
      if id != item.id {
        assert ordered[Indices(rows)[id]] == Some(rows[id]);
      }
    }
  }

  // ---------------------------------------------------------------- order changes as edges

  /** The edges are exactly the moves from `at` to a different `target`. */
  ghost predicate EdgesOf(at: map<ID, int>, target: map<ID, int>, edges: seq<OrderChange>) {
    && at.Keys == target.Keys
    && (forall id | id in at && at[id] != target[id] :: Edge(edges, at[id], target[id]))
    && (forall a, b | Edge(edges, a, b) :: exists id :: id in at && a == at[id] && b == target[id] && a != b)
  }

  ghost predicate Collide(target: map<ID, int>) {
    exists a, b :: a in target && b in target && a != b && target[a] == target[b]
  }

  /** After an unblocked move every row sits at its target. */
  lemma MovePlaced<T>(before: seq<Slot<T>>, after: seq<Slot<T>>, rows: Rows<T>,
                      at: map<ID, int>, target: map<ID, int>, edges: seq<OrderChange>)
    requires Placed(before, rows, at) && EdgesOf(at, target, edges)
    requires InRange(edges, |before|) && !Blocked(before, edges) && IsMoved(before, after, edges)
    ensures Placed(after, rows, target)
  {
    forall id | id in rows ensures 0 <= target[id] < |after| && after[target[id]] == Some(rows[id]) {
      if at[id] != target[id] {
        assert Edge(edges, at[id], target[id]);
      } else {
        StayerIsNotLeft(before, rows, at, target, edges, id);
        if Entered(edges, at[id]) {
          assert false;
        }
      }
    }
    forall i | 0 <= i < |after| && after[i].Some?
      ensures after[i].value.id in rows && target[after[i].value.id] == i
    {
      if Entered(edges, i) {
        var a :| Edge(edges, a, i);
        var id :| id in at && a == at[id] && i == target[id] && a != i;
        assert after[OrderChange(a, i).next] == before[OrderChange(a, i).prev];
      } else {
        assert after[i] == before[i] && !Left(edges, i);
        var id := after[i].value.id;
        assert at[id] == i;
        assert at[id] == target[id];
      }
    }
  }

  lemma StayerIsNotLeft<T>(before: seq<Slot<T>>, rows: Rows<T>, at: map<ID, int>, target: map<ID, int>,
                           edges: seq<OrderChange>, id: ID)
    requires Placed(before, rows, at) && EdgesOf(at, target, edges)
    requires id in rows && at[id] == target[id]
    ensures !Left(edges, at[id])
  {
    if b :| Edge(edges, at[id], b) {
      assert false;
    }
  }

  /** A blocked chain end means that two rows want one index. */
  lemma BlockedMeansCollision<T>(before: seq<Slot<T>>, rows: Rows<T>, at: map<ID, int>, target: map<ID, int>,
                                 edges: seq<OrderChange>)
    requires Placed(before, rows, at) && EdgesOf(at, target, edges)
    requires InRange(edges, |before|) && Blocked(before, edges)
    ensures Collide(target)
  {
    var e :| e in edges && !Left(edges, e.next) && before[e.next].Some?;
    var stayer := before[e.next].value.id;
    assert at[stayer] == e.next;
    assert at[stayer] == target[stayer];
    assert Edge(edges, e.prev, e.next);
    var mover :| mover in at && e.prev == at[mover] && e.next == target[mover] && e.prev != e.next;
    assert stayer != mover;
  }

  // ---------------------------------------------------------------- facts about the stages

  lemma {:induction false} UpdatedKeepsId<T>(item: Item<T>, updates: seq<UpdateReq<T>>)
    ensures Updated(item, updates).id == item.id
    ensures (forall i | 0 <= i < |updates| :: updates[i].id != item.id) ==> Updated(item, updates) == item
  {
    if updates != [] {
      UpdatedKeepsId(item, updates[..|updates| - 1]);
    }
  }

  /** A row named by an update ends at that update's index. */
  lemma {:induction false} UpdatedTarget<T>(item: Item<T>, updates: seq<UpdateReq<T>>, i: nat)
    requires DistinctIds(updates) && i < |updates| && updates[i].id == item.id
    ensures Updated(item, updates).orderIdx == updates[i].orderIdx
  {
    if i < |updates| - 1 {
      UpdatedTarget(item, updates[..|updates| - 1], i);
    }
  }

  lemma AfterUpdatesStep<T>(rows: Rows<T>, updates: seq<UpdateReq<T>>, k: nat)
    requires k < |updates| && updates[k].id in rows
    requires forall id | id in rows :: rows[id].id == id
    ensures var u, done := updates[k], AfterUpdates(rows, updates[..k]);
            var item := Item(u.id, u.orderIdx, u.edit(done[u.id].body));
            item == Updated(rows[u.id], updates[..k + 1]) &&
            AfterUpdates(rows, updates[..k + 1]) == done[u.id := item]
  {
    assert updates[..k + 1][..k] == updates[..k];
    assert updates[..k + 1][|updates[..k + 1]| - 1] == updates[k];
  }

  /** Created rows take the fresh identifiers in order and leave the others alone. */
  lemma {:induction false} AfterCreatesRows<T>(rows: Rows<T>, nextId: nat, creates: seq<CreateReq<T>>)
    requires forall id | id in rows :: id < nextId
    ensures var all := AfterCreates(rows, nextId, creates);
            && (forall id | id in rows :: id in all && all[id] == rows[id])
            && (forall id | nextId <= id < nextId + |creates| :: id in all &&
                  all[id] == Item(id, creates[id - nextId].orderIdx, creates[id - nextId].body))
            && (forall id | id in all :: id in rows || nextId <= id < nextId + |creates|)
  {
    if creates != [] {
      AfterCreatesRows(rows, nextId, creates[..|creates| - 1]);
    }
  }

  lemma {:induction false} CreatedRow<T>(rows: Rows<T>, nextId: nat, creates: seq<CreateReq<T>>, k: nat)
    requires k < |creates|
    ensures nextId + k in AfterCreates(rows, nextId, creates)
    ensures AfterCreates(rows, nextId, creates)[nextId + k] == Item(nextId + k, creates[k].orderIdx, creates[k].body)
  {
    var last := |creates| - 1;
    if k < last {
      CreatedRow(rows, nextId, creates[..last], k);
    }
  }

  lemma AfterCreatesStep<T>(rows: Rows<T>, nextId: nat, creates: seq<CreateReq<T>>, k: nat)
    requires k < |creates|
    ensures AfterCreates(rows, nextId, creates[..k + 1]) ==
            AfterCreates(rows, nextId, creates[..k])
              [nextId + k := Item(nextId + k, creates[k].orderIdx, creates[k].body)]
  {
    assert creates[..k + 1][..k] == creates[..k];
  }

  /** A collision among the updated rows is still one after the creates. */
  lemma CollisionSurvivesCreates<T>(rows: Rows<T>, nextId: nat, creates: seq<CreateReq<T>>)
    requires forall id | id in rows :: id < nextId
    requires Collide(Indices(rows))
    ensures !Injective(AfterCreates(rows, nextId, creates))
  {
    AfterCreatesRows(rows, nextId, creates);
    var a, b :| a in rows && b in rows && a != b && Indices(rows)[a] == Indices(rows)[b];
    var all := AfterCreates(rows, nextId, creates);
    assert all[a].orderIdx == all[b].orderIdx;
  }
}
