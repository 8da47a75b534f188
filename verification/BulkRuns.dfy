/** What bulk updates promise: order by target, collision detection, undo, and density over every run. */
module BulkRuns {
  import opened Prelude
  import opened Items
  import opened Placement
  import opened Stages

  // ---------------------------------------------------------------- order by target

  /** The index the request asks of `id` when it names it, and the stored one otherwise. */
  ghost function Requested<T>(stored: int, updates: seq<UpdateReq<T>>, id: ID): int {
    if updates == [] then stored
    else if updates[0].id == id then updates[0].orderIdx
    else Requested(stored, updates[1..], id)
  }

  ghost predicate Remains<T>(rows: Rows<T>, nextId: nat, req: BulkReq<T>, id: ID) {
    (id in rows && id !in req.delete) || nextId <= id < nextId + |req.create|
  }

  /** Where the request wants a surviving or created item. */
  ghost function Target<T>(rows: Rows<T>, nextId: nat, req: BulkReq<T>, id: ID): int
    requires Remains(rows, nextId, req, id)
  {
    if nextId <= id < nextId + |req.create| then req.create[id - nextId].orderIdx
    else Requested(rows[id].orderIdx, req.update, id)
  }

  lemma {:induction false} RequestedIsUpdated<T>(item: Item<T>, updates: seq<UpdateReq<T>>)
    requires DistinctIds(updates)
    ensures Updated(item, updates).orderIdx == Requested(item.orderIdx, updates, item.id)
  {
    if i :| 0 <= i < |updates| && updates[i].id == item.id {
      UpdatedTarget(item, updates, i);
      RequestedOf(item.orderIdx, updates, i);
    } else {
      UpdatedKeepsId(item, updates);
      RequestedOfOther(item.orderIdx, updates, item.id);
    }
  }

  lemma {:induction false} RequestedOf<T>(stored: int, updates: seq<UpdateReq<T>>, i: nat)
    requires DistinctIds(updates) && i < |updates|
    ensures Requested(stored, updates, updates[i].id) == updates[i].orderIdx
  {
    if i > 0 {
      assert updates[1..][i - 1] == updates[i];
      RequestedOf(stored, updates[1..], i - 1);
    }
  }

  lemma {:induction false} RequestedOfOther<T>(stored: int, updates: seq<UpdateReq<T>>, id: ID)
    requires forall i | 0 <= i < |updates| :: updates[i].id != id
    ensures Requested(stored, updates, id) == stored
  {
    if updates != [] {
      RequestedOfOther(stored, updates[1..], id);
    }
  }

  /** What is wanted of an item: the place its create or its one update names, and otherwise the stored one. */
  lemma TargetIs<T>(rows: Rows<T>, nextId: nat, req: BulkReq<T>, id: ID)
    requires Keyed(rows, nextId) && NamesOnce(req) && Remains(rows, nextId, req, id)
    ensures var target := Target(rows, nextId, req, id);
            && (forall i | 0 <= i < |req.create| && id == nextId + i :: target == req.create[i].orderIdx)
            && (forall i | 0 <= i < |req.update| && id in rows && id == req.update[i].id ::
                  target == req.update[i].orderIdx)
            && (id in rows && (forall i | 0 <= i < |req.update| :: req.update[i].id != id) ==>
                  target == rows[id].orderIdx)
  {
    forall i | 0 <= i < |req.update| && id in rows && id == req.update[i].id
      ensures Target(rows, nextId, req, id) == req.update[i].orderIdx
    {
      RequestedOf(rows[id].orderIdx, req.update, i);
    }
    if id in rows && (forall i | 0 <= i < |req.update| :: req.update[i].id != id) {
      RequestedOfOther(rows[id].orderIdx, req.update, id);
    }
  }

  lemma CreatedRemain<T>(rows: Rows<T>, nextId: nat, creates: seq<CreateReq<T>>, id: ID)
    requires Keyed(rows, nextId)
    ensures id in AfterCreates(rows, nextId, creates) <==> id in rows || nextId <= id < nextId + |creates|
  {
    AfterCreatesRows(rows, nextId, creates);
  }

  /** The survivors and the created items, and no others, are staged. */
  lemma StagedRemain<T>(rows: Rows<T>, nextId: nat, req: BulkReq<T>, id: ID)
    requires Keyed(rows, nextId)
    ensures id in Staged(rows, nextId, req) <==> Remains(rows, nextId, req, id)
  {
    var middle := Middle(rows, req);
    MiddleKeys(rows, nextId, req);
    CreatedRemain(middle, nextId, req.create, id);
    assert Staged(rows, nextId, req) == AfterCreates(middle, nextId, req.create);
    assert id in middle <==> id in rows && id !in Elements(req.delete);
    assert id in Elements(req.delete) <==> id in req.delete;
  }

  /** A survivor keeps its own identifier and goes where the request wants it. */
  lemma SurvivorTarget<T>(rows: Rows<T>, nextId: nat, req: BulkReq<T>, id: ID)
    requires Keyed(rows, nextId) && NamesOnce(req) && id in Middle(rows, req)
    ensures Remains(rows, nextId, req, id) && Middle(rows, req)[id].orderIdx == Target(rows, nextId, req, id)
  {
    RequestedIsUpdated(rows[id], req.update);
    assert id in Elements(req.delete) <==> id in req.delete;
  }

  lemma StagedIsAtTarget<T>(rows: Rows<T>, nextId: nat, req: BulkReq<T>)
    requires Keyed(rows, nextId) && NamesOnce(req)
    ensures forall id :: id in Staged(rows, nextId, req) <==> Remains(rows, nextId, req, id)
    ensures forall id | id in Staged(rows, nextId, req) ::
              Staged(rows, nextId, req)[id].orderIdx == Target(rows, nextId, req, id)
  {
    var middle, staged := Middle(rows, req), Staged(rows, nextId, req);
    forall id: ID ensures id in staged <==> Remains(rows, nextId, req, id) {
      StagedRemain(rows, nextId, req, id);
    }
    MiddleKeys(rows, nextId, req);
    AfterCreatesRows(middle, nextId, req.create);
    assert staged == AfterCreates(middle, nextId, req.create);
    forall id | id in staged ensures staged[id].orderIdx == Target(rows, nextId, req, id) {
      if id in middle {
        SurvivorTarget(rows, nextId, req, id);
      }
    }
  }

  /** A successful bulk update sorts by target: the survivors and the created items, and only they, are
      stored at indices 0, 1, ... in the order of the places the request wants them at. */
  lemma BulkSortsByTarget<T>(rows: Rows<T>, nextId: nat, req: BulkReq<T>)
    requires Keyed(rows, nextId) && NamesOnce(req) && Accepts(rows, nextId, req)
    ensures var final := Bulk(rows, nextId, req);
            && Dense(final)
            && (forall id :: id in final <==> Remains(rows, nextId, req, id))
            && (forall a, b | a in final && b in final ::
                  final[a].orderIdx < final[b].orderIdx <==>
                  Target(rows, nextId, req, a) < Target(rows, nextId, req, b))
  {
    StagedIsAtTarget(rows, nextId, req);
    CompactedSortsByTarget(Staged(rows, nextId, req));
  }

  /** The contents follow the items: untouched, edited once by their update, or as created. */
  lemma BulkKeepsBodies<T>(rows: Rows<T>, nextId: nat, req: BulkReq<T>, id: ID)
    requires Keyed(rows, nextId) && NamesOnce(req) && Accepts(rows, nextId, req)
    requires id in Bulk(rows, nextId, req)
    ensures var item := Bulk(rows, nextId, req)[id];
            && item.id == id
            && (forall k | 0 <= k < |req.create| && id == nextId + k :: item.body == req.create[k].body)
            && (forall i | 0 <= i < |req.update| && id == req.update[i].id ::
                  item.body == req.update[i].edit(rows[id].body))
            && (id in rows && (forall i | 0 <= i < |req.update| :: id != req.update[i].id) ==>
                  item.body == rows[id].body)
  {
    MiddleKeys(rows, nextId, req);
    AfterCreatesRows(Middle(rows, req), nextId, req.create);
    forall i | 0 <= i < |req.update| && id == req.update[i].id
      ensures Bulk(rows, nextId, req)[id].body == req.update[i].edit(rows[id].body)
    {
      UpdatedBody(rows[id], req.update, i);
    }
    if id in rows {
      UpdatedKeepsId(rows[id], req.update);
    }
  }

  ghost predicate StoredAs<T>(rows: Rows<T>, id: ID, body: T) {
    id in rows && rows[id].body == body
  }

  /** Every updated item is stored as its update edits it, every created one as given, and the others as they were. */
  ghost predicate BodiesStored<T>(rows: Rows<T>, final: Rows<T>, nextId: nat, req: BulkReq<T>) {
    && (forall i | 0 <= i < |req.update| ::
          var u := req.update[i]; u.id in rows && StoredAs(final, u.id, u.edit(rows[u.id].body)))
    && (forall i | 0 <= i < |req.create| :: StoredAs(final, nextId + i, req.create[i].body))
    && (forall id | id in rows && id in final && (forall i | 0 <= i < |req.update| :: req.update[i].id != id) ::
          final[id].body == rows[id].body)
  }

  lemma BodiesAreStored<T>(rows: Rows<T>, nextId: nat, req: BulkReq<T>)
    requires Keyed(rows, nextId) && NamesOnce(req) && Accepts(rows, nextId, req)
    ensures BodiesStored(rows, Bulk(rows, nextId, req), nextId, req)
  {
    var final := Bulk(rows, nextId, req);
    BulkSortsByTarget(rows, nextId, req);
    UpdatesPassIff(rows, nextId, req);
    forall i | 0 <= i < |req.update|
      ensures var u := req.update[i]; u.id in rows && StoredAs(final, u.id, u.edit(rows[u.id].body))
    {
      assert Remains(rows, nextId, req, req.update[i].id);
      BulkKeepsBodies(rows, nextId, req, req.update[i].id);
    }
    forall i | 0 <= i < |req.create| ensures StoredAs(final, nextId + i, req.create[i].body) {
      assert Remains(rows, nextId, req, nextId + i);
      BulkKeepsBodies(rows, nextId, req, nextId + i);
    }
    forall id | id in rows && id in final && (forall i | 0 <= i < |req.update| :: req.update[i].id != id)
      ensures final[id].body == rows[id].body
    {
      BulkKeepsBodies(rows, nextId, req, id);
    }
  }

  lemma {:induction false} UpdatedBody<T>(item: Item<T>, updates: seq<UpdateReq<T>>, i: nat)
    requires DistinctIds(updates) && i < |updates| && updates[i].id == item.id
    ensures Updated(item, updates).body == updates[i].edit(item.body)
  {
    var last := |updates| - 1;
    if i < last {
      UpdatedBody(item, updates[..last], i);
    } else {
      UpdatedKeepsId(item, updates[..last]);
    }
  }

  /** What the checks of every update and create keep true of a body stays true of all bodies. */
  lemma BulkKeepsAll<T(!new)>(rows: Rows<T>, nextId: nat, req: BulkReq<T>, p: T -> bool)
    requires Keyed(rows, nextId) && forall id | id in rows :: p(rows[id].body)
    requires UpdatesKeep(req.update, p) && CreatesMeet(req.create, p)
    ensures forall id | id in Bulk(rows, nextId, req) :: p(Bulk(rows, nextId, req)[id].body)
  {
    if Accepts(rows, nextId, req) {
      var survivors, middle := Survivors(rows, req.delete), Middle(rows, req);
      forall id | id in middle ensures p(middle[id].body) {
        UpdatedMeets(survivors, req.update, id, p);
      }
      MiddleKeys(rows, nextId, req);
      AfterCreatesRows(middle, nextId, req.create);
      assert Staged(rows, nextId, req) == AfterCreates(middle, nextId, req.create);
    }
  }

  ghost predicate UpdatesKeep<T(!new)>(updates: seq<UpdateReq<T>>, p: T -> bool) {
    forall i, b: T | 0 <= i < |updates| && p(b) && updates[i].valid(b) :: p(updates[i].edit(b))
  }

  ghost predicate CreatesMeet<T>(creates: seq<CreateReq<T>>, p: T -> bool) {
    forall i | 0 <= i < |creates| && creates[i].valid :: p(creates[i].body)
  }

  lemma {:induction false} UpdatedMeets<T(!new)>(rows: Rows<T>, updates: seq<UpdateReq<T>>, id: ID, p: T -> bool)
    requires id in rows && rows[id].id == id && p(rows[id].body)
    requires UpdatesKnown(rows, updates) && UpdatesValid(rows, updates) && UpdatesKeep(updates, p)
    ensures p(Updated(rows[id], updates).body)
  {
    if updates != [] {
      var last := |updates| - 1;
      var before := updates[..last];
      assert forall i | 0 <= i < last :: before[i] == updates[i] && before[..i] == updates[..i];
      forall i | 0 <= i < last ensures UpdateValid(rows, before, i) {
        assert UpdateValid(rows, updates, i);
      }
      UpdatedMeets(rows, before, id, p);
      assert UpdateValid(rows, updates, last);
    }
  }

  /** The places there are: those of the stored rows, and one more for every create not made up for by a delete. */
  predicate IsPlace(count: nat, created: nat, deleted: nat, i: int) {
    0 <= i < count || 0 <= i < count + created - deleted
  }

  /** No two remaining items want one place. */
  ghost predicate TargetsDiffer<T>(rows: Rows<T>, nextId: nat, req: BulkReq<T>) {
    forall a, b | Remains(rows, nextId, req, a) && Remains(rows, nextId, req, b) && a != b ::
      Target(rows, nextId, req, a) != Target(rows, nextId, req, b)
  }

  ghost predicate TargetsArePlaces<T>(rows: Rows<T>, nextId: nat, req: BulkReq<T>) {
    forall id | Remains(rows, nextId, req, id) ::
      IsPlace(|rows|, |req.create|, |req.delete|, Target(rows, nextId, req, id))
  }

  /** Every update names a stored item that is not deleted, and its checks pass on the item as stored. */
  ghost predicate UpdatesPass<T>(rows: Rows<T>, req: BulkReq<T>) {
    forall i | 0 <= i < |req.update| ::
      var u := req.update[i]; u.id in rows && u.id !in req.delete && u.valid(rows[u.id].body)
  }

  /** A request is accepted exactly when it deletes stored items, each once, its updates name remaining items and
      pass their checks, its creates pass theirs, every remaining item wants an existing place, and no two want
      the same. */
  lemma AcceptedIff<T>(rows: Rows<T>, nextId: nat, req: BulkReq<T>)
    requires Keyed(rows, nextId) && NamesOnce(req)
    ensures Accepts(rows, nextId, req) <==>
      && NoRepeats(req.delete) && (forall i | 0 <= i < |req.delete| :: req.delete[i] in rows)
      && UpdatesPass(rows, req)
      && (forall i | 0 <= i < |req.create| :: req.create[i].valid)
      && TargetsArePlaces(rows, nextId, req)
      && TargetsDiffer(rows, nextId, req)
  {
    UpdatesPassIff(rows, nextId, req);
    StagedIsAtTarget(rows, nextId, req);
    PlacesIff(rows, nextId, req, Staged(rows, nextId, req));
  }

  lemma PlacesIff<T>(rows: Rows<T>, nextId: nat, req: BulkReq<T>, staged: Rows<T>)
    requires forall id :: id in staged <==> Remains(rows, nextId, req, id)
    requires forall id | id in staged :: staged[id].orderIdx == Target(rows, nextId, req, id)
    ensures WithinBounds(staged, GrownLength(|rows|, req)) <==> TargetsArePlaces(rows, nextId, req)
    ensures Injective(staged) <==> TargetsDiffer(rows, nextId, req)
  {
  }

  lemma UpdatesPassIff<T>(rows: Rows<T>, nextId: nat, req: BulkReq<T>)
    requires Keyed(rows, nextId) && NamesOnce(req)
    ensures var survivors := Survivors(rows, req.delete);
            UpdatesPass(rows, req) <==> UpdatesKnown(survivors, req.update) && UpdatesValid(survivors, req.update)
  {
    var survivors := Survivors(rows, req.delete);
    forall i | 0 <= i < |req.update|
      ensures req.update[i].id in survivors <==> req.update[i].id in rows && req.update[i].id !in req.delete
      ensures req.update[i].id in survivors ==>
              Updated(survivors[req.update[i].id], req.update[..i]) == rows[req.update[i].id]
    {
      assert req.update[i].id in Elements(req.delete) <==> req.update[i].id in req.delete;
      if req.update[i].id in survivors {
        UpdatedKeepsId(survivors[req.update[i].id], req.update[..i]);
      }
    }
    if UpdatesKnown(survivors, req.update) {
      forall i | 0 <= i < |req.update|
        ensures UpdateValid(survivors, req.update, i) <==> req.update[i].valid(rows[req.update[i].id].body)
      {
      }
    }
  }

  /** Collision detection is sound and complete: with known items, passing checks and existing places, the
      request is refused exactly when two remaining items want one place. */
  lemma RefusedIffTwoShareATarget<T>(rows: Rows<T>, nextId: nat, req: BulkReq<T>)
    requires Keyed(rows, nextId) && NamesOnce(req)
    requires DeletesKnown(rows, req.delete) && UpdatesPass(rows, req) && CreatesValid(req.create)
    requires forall id | Remains(rows, nextId, req, id) ::
               || 0 <= Target(rows, nextId, req, id) < |rows|
               || 0 <= Target(rows, nextId, req, id) < |rows| + |req.create| - |req.delete|
    ensures !Accepts(rows, nextId, req) <==>
            exists a, b :: Remains(rows, nextId, req, a) && Remains(rows, nextId, req, b) && a != b &&
              Target(rows, nextId, req, a) == Target(rows, nextId, req, b)
  {
    AcceptedIff(rows, nextId, req);
  }

  /** Creates that append after the last row. */
  ghost predicate Appends<T>(count: nat, creates: seq<CreateReq<T>>) {
    forall i | 0 <= i < |creates| :: creates[i].orderIdx == count + i
  }

  /** The old rows as they were, and the new ones last, in order. */
  ghost predicate Appended<T>(rows: Rows<T>, final: Rows<T>, nextId: nat, creates: seq<CreateReq<T>>) {
    && |final| == |rows| + |creates|
    && (forall id | id in rows :: id in final && final[id] == rows[id])
    && (forall i | 0 <= i < |creates| ::
          nextId + i in final && final[nextId + i] == Item(nextId + i, |rows| + i, creates[i].body))
  }

  lemma AppendedRows<T>(rows: Rows<T>, nextId: nat, creates: seq<CreateReq<T>>)
    requires Keyed(rows, nextId) && Dense(rows) && Appends(|rows|, creates)
    ensures Dense(AfterCreates(rows, nextId, creates))
    ensures Appended(rows, AfterCreates(rows, nextId, creates), nextId, creates)
  {
    AfterCreatesRows(rows, nextId, creates);
    CreatesSize(rows, nextId, creates);
  }

  lemma StagedCreates<T>(rows: Rows<T>, nextId: nat, creates: seq<CreateReq<T>>)
    ensures Survivors(rows, []) == rows
    ensures Staged(rows, nextId, BulkReq(creates, [], [])) == AfterCreates(rows, nextId, creates)
  {
    assert Survivors(rows, []) == rows;
    assert AfterUpdates(rows, []) == rows;
  }

  /** Without deletes and updates only the creates decide, and dense rows stay where they are. */
  lemma OnlyCreates<T>(rows: Rows<T>, nextId: nat, creates: seq<CreateReq<T>>)
    requires Dense(AfterCreates(rows, nextId, creates)) && |AfterCreates(rows, nextId, creates)| == |rows| + |creates|
    ensures var req := BulkReq(creates, [], []);
            && (Accepts(rows, nextId, req) <==> CreatesValid(creates))
            && (Accepts(rows, nextId, req) ==> Bulk(rows, nextId, req) == AfterCreates(rows, nextId, creates))
  {
    StagedCreates(rows, nextId, creates);
    CompactedIsStable(AfterCreates(rows, nextId, creates));
    CreatesDecide(rows, nextId, creates);
  }

  lemma CreatesDecide<T>(rows: Rows<T>, nextId: nat, creates: seq<CreateReq<T>>)
    requires Dense(AfterCreates(rows, nextId, creates)) && |AfterCreates(rows, nextId, creates)| == |rows| + |creates|
    requires Staged(rows, nextId, BulkReq(creates, [], [])) == AfterCreates(rows, nextId, creates)
    ensures Accepts(rows, nextId, BulkReq(creates, [], [])) <==> CreatesValid(creates)
  {
  }

  /** Appending to dense rows is refused only by a failed check; the old rows stay as they were, and the new ones
      come last, in order. */
  lemma AppendingIsAccepted<T>(rows: Rows<T>, nextId: nat, creates: seq<CreateReq<T>>)
    requires Keyed(rows, nextId) && Dense(rows) && Appends(|rows|, creates)
    ensures NamesOnce(BulkReq(creates, [], []))
    ensures Accepts(rows, nextId, BulkReq(creates, [], [])) <==> forall i | 0 <= i < |creates| :: creates[i].valid
    ensures Accepts(rows, nextId, BulkReq(creates, [], [])) ==>
              Appended(rows, Bulk(rows, nextId, BulkReq(creates, [], [])), nextId, creates)
  {
    AppendedRows(rows, nextId, creates);
    OnlyCreates(rows, nextId, creates);
  }

  // ---------------------------------------------------------------- requests that only move

  /** Moves every listed item to the given index and changes nothing else. */
  ghost function MoveTo<T>(ids: seq<ID>, places: seq<int>): BulkReq<T>
    requires |ids| == |places|
  {
    BulkReq([], seq(|ids|, i requires 0 <= i < |ids| => UpdateReq(ids[i], places[i], (b: T) => b, (b: T) => true)), [])
  }

  lemma {:induction false} UpdatedByMoves<T>(item: Item<T>, updates: seq<UpdateReq<T>>)
    requires forall i, b: T | 0 <= i < |updates| :: updates[i].edit(b) == b
    ensures Updated(item, updates).body == item.body
  {
    if updates != [] {
      UpdatedByMoves(item, updates[..|updates| - 1]);
    }
  }

  /** `final` is `rows` with every item at the index the updates ask for. */
  ghost predicate Landed<T>(rows: Rows<T>, final: Rows<T>, updates: seq<UpdateReq<T>>) {
    && final.Keys == rows.Keys
    && forall id | id in rows :: final[id] == rows[id].(orderIdx := Requested(rows[id].orderIdx, updates, id))
  }

  lemma MovesOnlyRenumber<T(!new)>(rows: Rows<T>, updates: seq<UpdateReq<T>>)
    requires DistinctIds(updates) && forall id | id in rows :: rows[id].id == id
    requires forall i, b: T | 0 <= i < |updates| :: updates[i].edit(b) == b
    ensures Landed(rows, AfterUpdates(rows, updates), updates)
  {
    forall id | id in rows
      ensures Updated(rows[id], updates) == rows[id].(orderIdx := Requested(rows[id].orderIdx, updates, id))
    {
      RequestedIsUpdated(rows[id], updates);
      UpdatedByMoves(rows[id], updates);
      UpdatedKeepsId(rows[id], updates);
    }
  }

  /** Over dense rows an accepted pure move puts every item exactly where it is wanted. */
  lemma MoveLandsOnTargets<T(!new)>(rows: Rows<T>, nextId: nat, ids: seq<ID>, places: seq<int>)
    requires Keyed(rows, nextId) && Dense(rows) && |ids| == |places|
    requires NamesOnce(MoveTo<T>(ids, places)) && Accepts(rows, nextId, MoveTo(ids, places))
    ensures Landed(rows, Bulk(rows, nextId, MoveTo(ids, places)), MoveTo<T>(ids, places).update)
  {
    var req := MoveTo<T>(ids, places);
    var staged := Staged(rows, nextId, req);
    OnlyUpdates(rows, nextId, req);
    MovesOnlyRenumber(rows, req.update);
    assert |staged| == |rows| by { assert |staged.Keys| == |rows.Keys|; }
    CompactedIsStable(staged);
  }

  /** The stored indices of the listed items. */
  ghost function Places<T>(rows: Rows<T>, ids: seq<ID>): seq<int> {
    seq(|ids|, i requires 0 <= i < |ids| => if ids[i] in rows then rows[ids[i]].orderIdx else 0)
  }

  /** Moving the items back to where they were undoes an accepted move. */
  lemma MovingBackUndoes<T(!new)>(rows: Rows<T>, nextId: nat, ids: seq<ID>, places: seq<int>)
    requires Keyed(rows, nextId) && Dense(rows) && |ids| == |places|
    requires NamesOnce(MoveTo<T>(ids, places)) && Accepts(rows, nextId, MoveTo(ids, places))
    ensures var moved := Bulk(rows, nextId, MoveTo(ids, places));
            var back := MoveTo<T>(ids, Places(rows, ids));
            Accepts(moved, nextId, back) && Bulk(moved, nextId, back) == rows
  {
    var moved := Bulk(rows, nextId, MoveTo(ids, places));
    MoveLandsOnTargets(rows, nextId, ids, places);
    MovedIsDense(rows, nextId, ids, places);
    HomeIsReached(rows, moved, nextId, ids, places);
  }

  lemma HomeIsReached<T(!new)>(rows: Rows<T>, moved: Rows<T>, nextId: nat, ids: seq<ID>, places: seq<int>)
    requires Keyed(moved, nextId) && Dense(rows) && Dense(moved) && |moved| == |rows| && |ids| == |places|
    requires Landed(rows, moved, MoveTo<T>(ids, places).update)
    requires DistinctIds(MoveTo<T>(ids, Places(rows, ids)).update)
    requires UpdatesKnown(rows, MoveTo<T>(ids, places).update)
    ensures var back := MoveTo<T>(ids, Places(rows, ids));
            Accepts(moved, nextId, back) && Bulk(moved, nextId, back) == rows
  {
    var there, back := MoveTo<T>(ids, places), MoveTo<T>(ids, Places(rows, ids));
    forall id | id in rows ensures Requested(moved[id].orderIdx, back.update, id) == rows[id].orderIdx {
      BackIsHome(rows, ids, places, id);
    }
    forall i | 0 <= i < |ids| ensures back.update[i].id in rows {
      assert there.update[i].id == ids[i];
    }
    BackIsAccepted(rows, moved, nextId, back);
    MoveLandsOnTargets(moved, nextId, ids, Places(rows, ids));
    ThereAndBack(rows, moved, Bulk(moved, nextId, back), there.update, back.update);
  }

  lemma ThereAndBack<T>(rows: Rows<T>, moved: Rows<T>, home: Rows<T>,
                        there: seq<UpdateReq<T>>, back: seq<UpdateReq<T>>)
    requires Landed(rows, moved, there) && Landed(moved, home, back)
    requires forall id | id in rows :: Requested(moved[id].orderIdx, back, id) == rows[id].orderIdx
    ensures home == rows
  {
  }

  lemma MovedIsDense<T>(rows: Rows<T>, nextId: nat, ids: seq<ID>, places: seq<int>)
    requires Keyed(rows, nextId) && |ids| == |places|
    requires NamesOnce(MoveTo<T>(ids, places)) && Accepts(rows, nextId, MoveTo(ids, places))
    requires Bulk(rows, nextId, MoveTo(ids, places)).Keys == rows.Keys
    ensures var moved := Bulk(rows, nextId, MoveTo(ids, places));
            Keyed(moved, nextId) && Dense(moved) && |moved| == |rows|
    ensures DistinctIds(MoveTo<T>(ids, Places(rows, ids)).update)
  {
    var req := MoveTo<T>(ids, places);
    var moved := Bulk(rows, nextId, req);
    BulkStaysKeyed(rows, nextId, req);
    CompactedSortsByTarget(Staged(rows, nextId, req));
    assert |moved| == |rows| by { assert |moved.Keys| == |rows.Keys|; }
    forall i, j | 0 <= i < j < |ids| ensures ids[i] != ids[j] {
      assert req.update[i].id != req.update[j].id;
    }
  }

  /** After the move, the request back asks every item for its old index. */
  lemma BackIsHome<T>(rows: Rows<T>, ids: seq<ID>, places: seq<int>, id: ID)
    requires |ids| == |places| && id in rows
    requires DistinctIds(MoveTo<T>(ids, Places(rows, ids)).update)
    ensures Requested(Requested(rows[id].orderIdx, MoveTo<T>(ids, places).update, id),
                      MoveTo<T>(ids, Places(rows, ids)).update, id) == rows[id].orderIdx
  {
    var there, back := MoveTo<T>(ids, places).update, MoveTo<T>(ids, Places(rows, ids)).update;
    var moved := Requested(rows[id].orderIdx, there, id);
    if i :| 0 <= i < |ids| && ids[i] == id {
      assert back[i].id == id;
      RequestedOf(moved, back, i);
    } else {
      RequestedOfOther(moved, back, id);
      RequestedOfOther(rows[id].orderIdx, there, id);
    }
  }

  lemma BackIsAccepted<T(!new)>(rows: Rows<T>, moved: Rows<T>, nextId: nat, back: BulkReq<T>)
    requires Keyed(moved, nextId) && Dense(rows) && moved.Keys == rows.Keys && |moved| == |rows|
    requires back.delete == [] && back.create == [] && DistinctIds(back.update)
    requires forall i | 0 <= i < |back.update| :: back.update[i].id in rows
    requires forall i, b: T | 0 <= i < |back.update| :: back.update[i].valid(b)
    requires forall id | id in rows :: Requested(moved[id].orderIdx, back.update, id) == rows[id].orderIdx
    ensures Accepts(moved, nextId, back)
  {
    OnlyUpdates(moved, nextId, back);
    BackHasOldIndices(rows, moved, nextId, back);
    SameIndices(rows, AfterUpdates(moved, back.update));
  }

  lemma BackHasOldIndices<T>(rows: Rows<T>, moved: Rows<T>, nextId: nat, back: BulkReq<T>)
    requires Keyed(moved, nextId) && moved.Keys == rows.Keys && DistinctIds(back.update)
    requires forall id | id in rows :: Requested(moved[id].orderIdx, back.update, id) == rows[id].orderIdx
    ensures AfterUpdates(moved, back.update).Keys == rows.Keys
    ensures forall id | id in rows :: AfterUpdates(moved, back.update)[id].orderIdx == rows[id].orderIdx
  {
    forall id | id in moved ensures AfterUpdates(moved, back.update)[id].orderIdx == rows[id].orderIdx {
      RequestedIsUpdated(moved[id], back.update);
    }
  }

  /** Without deletes and creates only the updates decide. */
  lemma OnlyUpdates<T>(rows: Rows<T>, nextId: nat, req: BulkReq<T>)
    requires req.delete == [] && req.create == []
    ensures Staged(rows, nextId, req) == AfterUpdates(rows, req.update)
    ensures UpdatesKnown(rows, req.update) && UpdatesValid(rows, req.update) &&
            WithinBounds(AfterUpdates(rows, req.update), |rows|) && Injective(AfterUpdates(rows, req.update))
            ==> Accepts(rows, nextId, req)
  {
    assert Survivors(rows, req.delete) == rows;
  }

  lemma SameIndices<T>(rows: Rows<T>, other: Rows<T>)
    requires Dense(rows) && other.Keys == rows.Keys
    requires forall id | id in rows :: other[id].orderIdx == rows[id].orderIdx
    ensures Injective(other) && WithinBounds(other, |rows|)
  {
  }

  // ---------------------------------------------------------------- every run

  ghost function Serve<T>(st: State<T>, reqs: seq<BulkReq<T>>): State<T>
    decreases |reqs|
  {
    if reqs == [] then st else Serve(Next(st, reqs[0]), reqs[1..])
  }

  lemma BulkStaysKeyed<T>(rows: Rows<T>, nextId: nat, req: BulkReq<T>)
    requires Keyed(rows, nextId)
    ensures Keyed(Next(State(rows, nextId), req).rows, Next(State(rows, nextId), req).nextId)
    ensures Keyed(Bulk(rows, nextId, req), nextId + |req.create|)
  {
    MiddleKeys(rows, nextId, req);
    AfterCreatesRows(Middle(rows, req), nextId, req.create);
  }

  lemma NextIsSound<T>(st: State<T>, req: BulkReq<T>)
    requires Sound(st) && NamesOnce(req)
    ensures Sound(Next(st, req))
  {
    BulkStaysKeyed(st.rows, st.nextId, req);
    if Accepts(st.rows, st.nextId, req) {
      CompactedSortsByTarget(Staged(st.rows, st.nextId, req));
    }
  }

  ghost predicate AllNameOnce<T>(reqs: seq<BulkReq<T>>) {
    forall i | 0 <= i < |reqs| :: NamesOnce(reqs[i])
  }

  lemma {:induction false} RunIsSound<T>(st: State<T>, reqs: seq<BulkReq<T>>)
    requires Sound(st) && AllNameOnce(reqs)
    ensures Sound(Serve(st, reqs))
    decreases |reqs|
  {
    if reqs != [] {
      var st' := Next(st, reqs[0]);
      NextIsSound(st, reqs[0]);
      RunIsSound(st', reqs[1..]);
    }
  }

  /** From an empty quest, over every run of requests that name each item and each place to create at once, the
      indices are always exactly 0, ..., n - 1. */
  lemma EveryRunIsDense<T>(reqs: seq<BulkReq<T>>)
    requires AllNameOnce(reqs)
    ensures Dense(Serve(State(map[], 0), reqs).rows)
  {
    RunIsSound(State(map[], 0), reqs);
  }
}
