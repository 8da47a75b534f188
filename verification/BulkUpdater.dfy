/** The bulk updater shared by task groups and tasks, run in place over an index array. */
module BulkUpdater {
  import opened Prelude
  import opened Components
  import opened Slots
  import opened Items
  import opened Placement
  import opened Stages

  /** Every row once, each at its own index. */
  ghost predicate ListedInOrder<T>(rows: Rows<T>, list: seq<Item<T>>) {
    && |list| == |rows|
    && (forall i | 0 <= i < |list| ::
          list[i].id in rows && list[i] == rows[list[i].id] && list[i].orderIdx == i)
    && (forall id | id in rows :: 0 <= rows[id].orderIdx < |list| && list[rows[id].orderIdx] == rows[id])
  }

  /** The list holds the rows below index `|list|` in order, and `rest` the others. */
  ghost predicate Fetched<T>(rows: Rows<T>, rest: Rows<T>, list: seq<Item<T>>) {
    && (forall i | 0 <= i < |list| :: list[i].id in rows && list[i] == rows[list[i].id] && list[i].orderIdx == i)
    && rest.Keys <= rows.Keys
    && (forall id | id in rows ::
          if |list| <= rows[id].orderIdx then id in rest && rest[id] == rows[id] else id !in rest)
  }

  lemma NextIndexIsTaken<T>(rows: Rows<T>, k: nat)
    requires Dense(rows) && k < |rows|
    ensures exists id :: id in rows && rows[id].orderIdx == k
  {
    DenseRank(rows, k);
    DenseRank(rows, k + 1);
    assert IdsBelow(rows, k) != IdsBelow(rows, k + 1);
    assert IdsBelow(rows, k) <= IdsBelow(rows, k + 1);
  }

  lemma RestHasNext<T>(rows: Rows<T>, rest: Rows<T>, list: seq<Item<T>>)
    requires Dense(rows) && Fetched(rows, rest, list) && |list| < |rows|
    ensures |rest| > 0 && exists id :: id in rest && rest[id].orderIdx == |list|
  {
    NextIndexIsTaken(rows, |list|);
    var next :| next in rows && rows[next].orderIdx == |list|;
    assert next in rest.Keys;
    assert |rest| == |rest.Keys|;
  }

  lemma FetchNext<T>(rows: Rows<T>, rest: Rows<T>, list: seq<Item<T>>, id: ID)
    requires Dense(rows) && Fetched(rows, rest, list) && id in rest && rows[id].id == id
    requires exists j :: j in rest && rest[j].orderIdx == |list|
    requires forall j | j in rest :: rest[id].orderIdx <= rest[j].orderIdx
    ensures Fetched(rows, rest - {id}, list + [rest[id]])
  {
    assert id in rows && rows[id].orderIdx == |list|;
  }

  lemma AllAreListed<T>(rows: Rows<T>, list: seq<Item<T>>)
    requires Dense(rows) && |list| == |rows|
    requires forall i | 0 <= i < |list| :: list[i].id in rows && list[i] == rows[list[i].id] && list[i].orderIdx == i
    ensures ListedInOrder(rows, list)
  {
  }

  /** A row with the lowest index. */
  method Lowest<T>(rows: Rows<T>) returns (id: ID)
    requires |rows| > 0
    ensures id in rows && forall j | j in rows :: rows[id].orderIdx <= rows[j].orderIdx
  {
    var todo := rows.Keys;
    assert |rows.Keys| == |rows|;
    id := AnyOf(todo);
    while todo != {}
      invariant todo <= rows.Keys && id in rows
      invariant forall j | j in rows && j !in todo :: rows[id].orderIdx <= rows[j].orderIdx
    {
      var j := AnyOf(todo);
      if rows[j].orderIdx <= rows[id].orderIdx {
        id := j;
      }
      todo := todo - {j};
    }
  }

  /** The stored items of one quest, or of one task group. */
  class Store<T> {
    var rows: Rows<T>
    var nextId: nat

    constructor ()
      ensures rows == map[] && Valid()
    {
      rows, nextId := map[], 0;
    }

    /** Keys agree with identifiers and the order indices are 0, 1, ..., n - 1. */
    ghost predicate Valid()
      reads this
    {
      Keyed(rows, nextId) && Dense(rows)
    }

    ghost function Current(): State<T>
      reads this
    {
      State(rows, nextId)
    }

    /** All rows, ordered by index. */
    method GetAll() returns (list: seq<Item<T>>)
      requires Valid()
      ensures ListedInOrder(rows, list)
    {
      list := [];
      var rest := rows;
      while |list| < |rows|
        invariant |list| <= |rows| && Fetched(rows, rest, list)
      {
        RestHasNext(rows, rest, list);
        var id := Lowest(rest);
        FetchNext(rows, rest, list, id);
        list := list + [rest[id]];
        rest := rest - {id};
      }
      AllAreListed(rows, list);
    }

    method Delete(id: ID)
      modifies this`rows
      ensures rows == old(rows) - {id}
    {
      rows := rows - {id};
    }

    method Update(id: ID, orderIdx: int, edit: T -> T) returns (item: Item<T>)
      requires id in rows
      modifies this`rows
      ensures item == Item(id, orderIdx, edit(old(rows)[id].body))
      ensures rows == old(rows)[id := item]
    {
      item := Item(id, orderIdx, edit(rows[id].body));
      rows := rows[id := item];
    }

    method Create(orderIdx: int, body: T) returns (item: Item<T>)
      modifies this
      ensures item == Item(old(nextId), orderIdx, body)
      ensures rows == old(rows)[item.id := item] && nextId == old(nextId) + 1
    {
      item := Item(nextId, orderIdx, body);
      rows := rows[nextId := item];
      nextId := nextId + 1;
    }
  }

  /** The rows below index `k`. */
  ghost predicate Loaded<T>(rows: Rows<T>, byID: Rows<T>, k: nat) {
    && byID.Keys <= rows.Keys
    && forall id | id in rows :: if rows[id].orderIdx < k then id in byID && byID[id] == rows[id] else id !in byID
  }

  lemma LoadOne<T>(list: seq<Item<T>>, rows: Rows<T>, byID: Rows<T>, i: nat)
    requires ListedInOrder(rows, list) && i < |list| && Loaded(rows, byID, i)
    requires forall id | id in rows :: rows[id].id == id
    ensures Loaded(rows, byID[list[i].id := list[i]], i + 1)
  {
  }

  lemma AllLoaded<T>(list: seq<Item<T>>, rows: Rows<T>, byID: Rows<T>)
    requires ListedInOrder(rows, list) && Loaded(rows, byID, |list|)
    ensures byID == rows
  {
  }

  lemma LoadedIsPlaced<T>(list: seq<Item<T>>, rows: Rows<T>, slots: seq<Slot<T>>)
    requires ListedInOrder(rows, list) && forall id | id in rows :: rows[id].id == id
    requires |slots| == |list| && forall i | 0 <= i < |list| :: slots[i] == Some(list[i])
    ensures Placed(slots, rows, Indices(rows))
  {
  }

  /** The rows under update: by identifier, and by index with free slots. */
  class Pack<T> {
    var byID: Rows<T>
    var ordered: array<Slot<T>>

    constructor (list: seq<Item<T>>, ghost rows: Rows<T>)
      requires ListedInOrder(rows, list)
      requires forall id | id in rows :: rows[id].id == id
      ensures byID == rows && fresh(ordered) && ordered.Length == |list|
      ensures Placed(ordered[..], rows, Indices(rows))
    {
      ordered := new Slot<T>[|list|](i requires 0 <= i < |list| => Some(list[i]));
      byID := map[];
      new;
      ghost var slots := ordered[..];
      LoadedIsPlaced(list, rows, slots);
      for i := 0 to |list|
        invariant fresh(ordered) && ordered.Length == |list| && ordered[..] == slots
        invariant Loaded(rows, byID, i)
      {
        LoadOne(list, rows, byID, i);
        byID := byID[list[i].id := list[i]];
      }
      AllLoaded(list, rows, byID);
    }
  }

  class Updater<T> {
    const s: Store<T>

    constructor (s: Store<T>)
      ensures this.s == s
    {
      this.s := s;
    }

    /** Frees the slot of one item, if it is known. */
    method UnlinkOne(pack: Pack<T>, id: ID) returns (known: bool)
      requires Placed(pack.ordered[..], pack.byID, Indices(pack.byID))
      modifies pack`byID, pack.ordered
      ensures known <==> id in old(pack.byID)
      ensures pack.byID == old(pack.byID) - {id}
      ensures Placed(pack.ordered[..], pack.byID, Indices(pack.byID))
    {
      known := id in pack.byID;
      if known {
        RemovePlaced(pack.ordered[..], pack.byID, id);
        ghost var before := pack.ordered[..];
        pack.ordered[pack.byID[id].orderIdx] := None;
        assert pack.ordered[..] == before[pack.byID[id].orderIdx := None];
      }
      pack.byID := pack.byID - {id};
      assert !known ==> pack.byID == old(pack.byID);
    }

    /** Frees the slots of the deleted items; an unknown or repeated identifier is an error. */
    method Unlink(pack: Pack<T>, deleted: seq<ID>) returns (ok: bool)
      requires Placed(pack.ordered[..], pack.byID, Indices(pack.byID))
      modifies pack`byID, pack.ordered
      ensures ok <==> DeletesKnown(old(pack.byID), deleted)
      ensures pack.byID == Survivors(old(pack.byID), deleted)
      ensures Placed(pack.ordered[..], pack.byID, Indices(pack.byID))
    {
      ghost var rows := pack.byID;
      ok := true;
      for k := 0 to |deleted|
        invariant pack.ordered == old(pack.ordered)
        invariant pack.byID == Survivors(rows, deleted[..k])
        invariant Placed(pack.ordered[..], pack.byID, Indices(pack.byID))
        invariant ok <==> DeletesKnown(rows, deleted[..k])
      {
        DeleteStep(rows, deleted, k);
        var known := UnlinkOne(pack, deleted[k]);
        if !known {
          ok := false;
        }
      }
      assert deleted[..|deleted|] == deleted;
    }

    /** Deletes the items, from the pack first and then from the store. */
    method DeleteItems(pack: Pack<T>, deleted: seq<ID>) returns (ok: bool)
      requires s.rows == pack.byID && Placed(pack.ordered[..], pack.byID, Indices(pack.byID))
      modifies pack`byID, pack.ordered, s`rows
      ensures ok <==> DeletesKnown(old(s.rows), deleted)
      ensures ok ==> s.rows == pack.byID == Survivors(old(s.rows), deleted)
      ensures ok ==> Placed(pack.ordered[..], pack.byID, Indices(pack.byID))
    {
      ghost var rows := s.rows;
      ok := Unlink(pack, deleted);
      if ok {
        ghost var byID, slots := pack.byID, pack.ordered[..];
        for k := 0 to |deleted|
          invariant pack.byID == byID && pack.ordered == old(pack.ordered) && pack.ordered[..] == slots
          invariant s.rows == Survivors(rows, deleted[..k])
        {
          assert deleted[..k + 1] == deleted[..k] + [deleted[k]];
          s.Delete(deleted[k]);
        }
        assert deleted[..|deleted|] == deleted;
      }
    }

    /** Makes room for the items to be created. */
    method Grow(pack: Pack<T>, n: nat)
      requires pack.ordered.Length <= n && Placed(pack.ordered[..], pack.byID, Indices(pack.byID))
      modifies pack`ordered
      ensures fresh(pack.ordered) && pack.ordered.Length == n
      ensures Placed(pack.ordered[..], pack.byID, Indices(pack.byID))
    {
      var grown := new Slot<T>[n](i => None);
      for i := 0 to pack.ordered.Length
        invariant pack.ordered == old(pack.ordered) && pack.ordered[..] == old(pack.ordered[..])
        invariant forall j | 0 <= j < n :: grown[j] == if j < i then pack.ordered[j] else None
      {
        grown[i] := pack.ordered[i];
      }
      GrowPlaced(pack.ordered[..], grown[..], pack.byID);
      pack.ordered := grown;
    }

    /** The moves the updates ask for; an unknown item, or two moves to one index, are an error. */
    method GetOrderChanges(pack: Pack<T>, updates: seq<UpdateReq<T>>)
      returns (edges: seq<OrderChange>, ok: bool, ghost from: seq<nat>)
      requires forall id | id in pack.byID :: pack.byID[id].id == id
      ensures ok <==> UpdatesKnown(pack.byID, updates) && !TwoMovesMeet(pack.byID, updates)
      ensures ok ==> Collected(pack.byID, updates, |updates|, edges, from)
      ensures ok ==> AllCollected(pack.byID, updates, |updates|, from)
    {
      var reorderTargets: set<int> := {};
      edges, ok := [], true;
      from := [];
      for k := 0 to |updates|
        invariant Collected(pack.byID, updates, k, edges, from) && NextsDiffer(edges)
        invariant forall t :: t in reorderTargets <==> IsTarget(edges, t)
        invariant ok ==> AllCollected(pack.byID, updates, k, from)
        invariant !ok ==> !UpdatesKnown(pack.byID, updates) || TwoMovesMeet(pack.byID, updates)
      {
        var u := updates[k];
        if u.id !in pack.byID {
          ok := false;
          continue;
        }
        var item := pack.byID[u.id];
        if item.orderIdx == u.orderIdx {
          continue;
        }
        if u.orderIdx in reorderTargets {
          ok := false;
          var i :| 0 <= i < |edges| && edges[i].next == u.orderIdx;
          assert from[i] < k && MovesAway(pack.byID, updates[from[i]]) && MovesAway(pack.byID, updates[k]);
          continue;
        }
        CollectMove(pack.byID, updates, k, edges, from);
        IsTargetAppend(edges, OrderChange(item.orderIdx, u.orderIdx));
        reorderTargets := reorderTargets + {u.orderIdx};
        edges := edges + [OrderChange(item.orderIdx, u.orderIdx)];
        from := from + [k];
      }
      if ok {
        NoTwoMovesMeet(pack.byID, updates, edges, from);
      }
    }

    /** Moves the updated items to their indices; fails exactly when two items would share one or leave the array. */
    method ReorderUpdated(pack: Pack<T>, updates: seq<UpdateReq<T>>) returns (ok: bool)
      requires Placed(pack.ordered[..], pack.byID, Indices(pack.byID)) && MovedOnce(pack.byID, updates)
      modifies pack.ordered
      ensures ok <==>
        && UpdatesKnown(pack.byID, updates)
        && !Collide(MovedTo(pack.byID, updates))
        && AllWithin(MovedTo(pack.byID, updates), pack.ordered.Length)
      ensures ok ==> Placed(pack.ordered[..], pack.byID, MovedTo(pack.byID, updates))
    {
      ghost var target := MovedTo(pack.byID, updates);
      ghost var before := pack.ordered[..];
      PlacedIsInjective(before, pack.byID);
      var edges;
      ghost var from;
      edges, ok, from := GetOrderChanges(pack, updates);
      if !ok {
        if UpdatesKnown(pack.byID, updates) {
          TwoMovesCollide(pack.byID, updates);
        }
        return;
      }
      CollectedEdges(pack.byID, updates, edges, from);
      CollectedMatches(pack.byID, updates, edges, from);
      if |edges| == 0 {
        MovePlaced(before, before, pack.byID, Indices(pack.byID), target, edges);
        PlacedDoesNotCollide(before, pack.byID, target);
        return;
      }
      if exists e | e in edges :: !(0 <= e.next < pack.ordered.Length) {
        // An index outside the array panics; the request is recovered and rolled back.
        EdgeOutOfBounds(Indices(pack.byID), target, edges, pack.ordered.Length);
        return false;
      }
      EdgesStartInBounds(before, pack.byID, target, edges);
      ok := Reorder(pack.ordered, edges);
      if !ok {
        BlockedMeansCollision(before, pack.byID, Indices(pack.byID), target, edges);
        return;
      }
      MovePlaced(before, pack.ordered[..], pack.byID, Indices(pack.byID), target, edges);
      PlacedDoesNotCollide(pack.ordered[..], pack.byID, target);
    }

    /** Stores one update and puts the row it returns into the array. */
    method UpdateItem(pack: Pack<T>, u: UpdateReq<T>, ghost target: map<ID, int>, ghost mirrors: bool)
      returns (item: Item<T>)
      requires s.rows == pack.byID && u.id in pack.byID && 0 <= u.orderIdx < pack.ordered.Length
      requires mirrors ==> Placed(pack.ordered[..], pack.byID, target) && target[u.id] == u.orderIdx
      modifies pack`byID, pack.ordered, s`rows
      ensures item == Item(u.id, u.orderIdx, u.edit(old(s.rows)[u.id].body))
      ensures s.rows == pack.byID == old(s.rows)[u.id := item]
      ensures mirrors ==> Placed(pack.ordered[..], pack.byID, target)
    {
      item := s.Update(u.id, u.orderIdx, u.edit);
      if mirrors {
        ReplacePlaced(pack.ordered[..], pack.byID, target, item);
      }
      ghost var before := pack.ordered[..];
      pack.byID := pack.byID[item.id := item];
      pack.ordered[item.orderIdx] := Some(item);
      assert pack.ordered[..] == before[item.orderIdx := Some(item)];
    }

    /** Stores update `k` after the earlier ones; reports whether its checks passed. */
    method UpdateNext(pack: Pack<T>, updates: seq<UpdateReq<T>>, k: nat, ghost rows: Rows<T>,
                      ghost target: map<ID, int>, ghost mirrors: bool)
      returns (ok: bool)
      requires k < |updates| && Storing(pack.ordered[..], pack.byID, s.rows, rows, updates, target, mirrors, k)
      modifies pack`byID, pack.ordered, s`rows
      ensures Storing(pack.ordered[..], pack.byID, s.rows, rows, updates, target, mirrors, k + 1)
      ensures ok <==> UpdateValid(rows, updates, k)
    {
      AfterUpdatesStep(rows, updates, k);
      if mirrors {
        UpdatedTarget(rows[updates[k].id], updates, k);
      }
      var before := pack.byID[updates[k].id].body;
      var _ := UpdateItem(pack, updates[k], target, mirrors);
      ok := updates[k].valid(before);
    }

    /** Stores the updates one by one; reports whether all their checks passed. */
    method UpdateEach(pack: Pack<T>, updates: seq<UpdateReq<T>>, ghost rows: Rows<T>, ghost target: map<ID, int>,
                      ghost mirrors: bool)
      returns (ok: bool)
      requires Storing(pack.ordered[..], pack.byID, s.rows, rows, updates, target, mirrors, 0)
      modifies pack`byID, pack.ordered, s`rows
      ensures Storing(pack.ordered[..], pack.byID, s.rows, rows, updates, target, mirrors, |updates|)
      ensures ok <==> FirstValid(rows, updates, |updates|)
    {
      ok := true;
      for k := 0 to |updates|
        invariant pack.ordered == old(pack.ordered)
        invariant Storing(pack.ordered[..], pack.byID, s.rows, rows, updates, target, mirrors, k)
        invariant ok <==> FirstValid(rows, updates, k)
      {
        OneMoreValid(rows, updates, k);
        var good := UpdateNext(pack, updates, k, rows, target, mirrors);
        if !good {
          ok := false;
        }
      }
    }

    /** Stores all the updates. The rows hold what the updates together make of them; the array mirrors the rows
        if no item is named twice. */
    method UpdateItems(pack: Pack<T>, updates: seq<UpdateReq<T>>) returns (ok: bool)
      requires s.rows == pack.byID && UpdatesKnown(pack.byID, updates)
      requires forall id | id in pack.byID :: pack.byID[id].id == id
      requires TargetsWithin(updates, pack.ordered.Length)
      modifies pack`byID, pack.ordered, s`rows
      ensures s.rows == pack.byID == AfterUpdates(old(s.rows), updates)
      ensures DistinctIds(updates) &&
              old(Placed(pack.ordered[..], pack.byID, Indices(AfterUpdates(pack.byID, updates)))) ==>
                Placed(pack.ordered[..], pack.byID, Indices(pack.byID))
      ensures ok <==> UpdatesValid(old(s.rows), updates)
    {
      ghost var rows := s.rows;
      assert AfterUpdates(rows, updates[..0]) == rows;
      ghost var target := Indices(AfterUpdates(rows, updates));
      ok := UpdateEach(pack, updates, rows, target, DistinctIds(updates) && Placed(pack.ordered[..], rows, target));
      assert updates[..|updates|] == updates;
    }

    /** Whether every create asks for a free index inside the array. */
    method AllFree(pack: Pack<T>, creates: seq<CreateReq<T>>) returns (ok: bool)
      requires Placed(pack.ordered[..], pack.byID, Indices(pack.byID))
      ensures ok <==> forall k | 0 <= k < |creates| :: FreeAt(pack.byID, pack.ordered.Length, creates[k].orderIdx)
    {
      ok := true;
      for k := 0 to |creates|
        invariant ok <==> forall j | 0 <= j < k :: FreeAt(pack.byID, pack.ordered.Length, creates[j].orderIdx)
      {
        var i := creates[k].orderIdx;
        SlotIsFree(pack.ordered[..], pack.byID, i);
        // An index outside the array panics; the request is recovered and rolled back.
        if !(0 <= i < pack.ordered.Length) || pack.ordered[i].Some? {
          ok := false;
        }
      }
    }

    /** Stores one new item. */
    method CreateItem(pack: Pack<T>, c: CreateReq<T>, ghost mirrors: bool)
      requires s.rows == pack.byID && Keyed(s.rows, s.nextId) && 0 <= c.orderIdx < pack.ordered.Length
      requires mirrors ==> Placed(pack.ordered[..], pack.byID, Indices(pack.byID)) &&
                           FreeAt(s.rows, pack.ordered.Length, c.orderIdx)
      modifies pack`byID, pack.ordered, s
      ensures s.rows == pack.byID == old(s.rows)[old(s.nextId) := Item(old(s.nextId), c.orderIdx, c.body)]
      ensures s.nextId == old(s.nextId) + 1 && Keyed(s.rows, s.nextId)
      ensures mirrors ==> Placed(pack.ordered[..], pack.byID, Indices(pack.byID))
    {
      if mirrors {
        SlotIsFree(pack.ordered[..], pack.byID, c.orderIdx);
      }
      var item := s.Create(c.orderIdx, c.body);
      if mirrors {
        InsertPlaced(pack.ordered[..], pack.byID, item);
      }
      ghost var before := pack.ordered[..];
      pack.byID := pack.byID[item.id := item];
      pack.ordered[item.orderIdx] := Some(item);
      assert pack.ordered[..] == before[item.orderIdx := Some(item)];
    }

    /** Creates item `k` after the earlier ones. */
    method CreateNext(pack: Pack<T>, creates: seq<CreateReq<T>>, k: nat, ghost rows: Rows<T>, ghost nextId: nat)
      requires k < |creates| && 0 <= creates[k].orderIdx < pack.ordered.Length
      requires Created(pack.byID, s.nextId, rows, nextId, creates, k) && s.rows == pack.byID
      requires DistinctPlaces(creates) ==> StillFree(pack.ordered[..], pack.byID, creates, k)
      modifies pack`byID, pack.ordered, s
      ensures Created(pack.byID, s.nextId, rows, nextId, creates, k + 1) && s.rows == pack.byID
      ensures DistinctPlaces(creates) ==> StillFree(pack.ordered[..], pack.byID, creates, k + 1)
    {
      AfterCreatesStep(rows, nextId, creates, k);
      if DistinctPlaces(creates) {
        OthersStayFree(pack.byID, s.nextId, pack.ordered.Length, creates, k);
      }
      CreateItem(pack, creates[k], DistinctPlaces(creates));
    }

    /** Creates the new items; fails when a place is taken or outside the array. The array mirrors the rows if
        no place is named twice. */
    method CreateItems(pack: Pack<T>, creates: seq<CreateReq<T>>) returns (ok: bool)
      requires s.rows == pack.byID && Placed(pack.ordered[..], pack.byID, Indices(pack.byID))
      requires Keyed(s.rows, s.nextId)
      modifies pack`byID, pack.ordered, s
      ensures ok <==> CreatesValid(creates) && PlacesFree(old(s.rows), pack.ordered.Length, creates)
      ensures ok ==> s.rows == pack.byID == AfterCreates(old(s.rows), old(s.nextId), creates)
      ensures ok && DistinctPlaces(creates) ==> Placed(pack.ordered[..], pack.byID, Indices(pack.byID))
      ensures ok ==> Keyed(s.rows, s.nextId) && s.nextId == old(s.nextId) + |creates|
    {
      ghost var rows, nextId := s.rows, s.nextId;
      ok := AllFree(pack, creates);
      if !ok {
        return;
      }
      assert PlacesFree(rows, pack.ordered.Length, creates);
      for k := 0 to |creates|
        invariant pack.ordered == old(pack.ordered)
        invariant Created(pack.byID, s.nextId, rows, nextId, creates, k) && s.rows == pack.byID
        invariant DistinctPlaces(creates) ==> StillFree(pack.ordered[..], pack.byID, creates, k)
        invariant ok <==> forall i | 0 <= i < k :: creates[i].valid
      {
        assert FreeAt(rows, pack.ordered.Length, creates[k].orderIdx);
        CreateNext(pack, creates, k, rows, nextId);
        if !creates[k].valid {
          ok := false;
        }
      }
      assert creates[..|creates|] == creates;
    }

    /** Packs the taken slots to the front with two indices, renumbering exactly the rows that moved. */
    method ClapPack(pack: Pack<T>) returns (ghost renumbered: set<ID>)
      requires Placed(pack.ordered[..], s.rows, Indices(s.rows))
      modifies pack.ordered, s`rows
      ensures s.rows == Compacted(old(s.rows))
      ensures Packed(pack.ordered[..], s.rows, |s.rows|)
      ensures renumbered == Renumbered(old(s.rows))
    {
      ghost var before, rows := pack.ordered[..], s.rows;
      var l, r := 0, 0;
      renumbered := {};
      ClapStart(before, rows);
      while r != pack.ordered.Length
        invariant r <= pack.ordered.Length && Clapped(before, rows, pack.ordered[..], s.rows, l, r)
        invariant renumbered == RenumberedBelow(rows, r)
        decreases pack.ordered.Length - r
      {
        ClappedSlot(before, rows, pack.ordered[..], s.rows, l, r);
        if pack.ordered[r] == None {
          ClapFree(before, rows, pack.ordered[..], s.rows, l, r);
          r := r + 1;
          continue;
        }
        ghost var wrote := ClapOne(pack, l, r, before, rows);
        renumbered := renumbered + wrote;
        r := r + 1;
        l := l + 1;
      }
      ClapEnd(before, rows, pack.ordered[..], s.rows, l);
    }

    /** Swaps the item at `r` down to `l` and renumbers it if that changes its index. */
    method ClapOne(pack: Pack<T>, l: nat, r: nat, ghost before: seq<Slot<T>>, ghost rows: Rows<T>)
      returns (ghost wrote: set<ID>)
      requires r < pack.ordered.Length && Clapped(before, rows, pack.ordered[..], s.rows, l, r) && before[r].Some?
      modifies pack.ordered, s`rows
      ensures Clapped(before, rows, pack.ordered[..], s.rows, l + 1, r + 1)
      ensures RenumberedBelow(rows, r + 1) == RenumberedBelow(rows, r) + wrote
    {
      ghost var now, stored := pack.ordered[..], s.rows;
      ghost var moved := ClapTaken(before, rows, now, stored, l, r);
      wrote := SwapDown(pack, l, r, moved);
      assert pack.ordered[..] == now[r := now[l]][l := Some(moved)];
    }

    /** The swap itself, and the renumbering when the index changes. */
    method SwapDown(pack: Pack<T>, l: nat, r: nat, ghost moved: Item<T>) returns (ghost wrote: set<ID>)
      requires l <= r < pack.ordered.Length && pack.ordered[r].Some?
      requires moved == pack.ordered[r].value.(orderIdx := l) && moved.id in s.rows
      requires s.rows[moved.id] == pack.ordered[r].value && pack.ordered[r].value.orderIdx == r
      modifies pack.ordered, s`rows
      ensures pack.ordered[l] == Some(moved)
      ensures l != r ==> pack.ordered[r] == old(pack.ordered[l])
      ensures forall i | 0 <= i < pack.ordered.Length && i != l && i != r :: pack.ordered[i] == old(pack.ordered[i])
      ensures s.rows == old(s.rows)[moved.id := moved]
      ensures wrote == if r != l then {moved.id} else {}
    {
      pack.ordered[l], pack.ordered[r] := pack.ordered[r], pack.ordered[l];
      var item := pack.ordered[l].value;
      wrote := {};
      if item.orderIdx != l {
        wrote := {item.id};
        var newItem := s.Update(item.id, l, body => body);
        pack.ordered[l] := Some(newItem);
      }
    }

    /** Cuts the array to the new length; what is dropped is free, and every slot left holds a row. */
    method Cut(pack: Pack<T>, newLen: nat)
      requires newLen == |s.rows| && Packed(pack.ordered[..], s.rows, newLen)
      modifies pack`ordered
      ensures fresh(pack.ordered) && pack.ordered[..] == old(pack.ordered[..newLen])
      ensures forall i | newLen <= i < old(pack.ordered.Length) :: old(pack.ordered[i]) == None
      ensures forall i | 0 <= i < newLen :: pack.ordered[i].Some? && pack.ordered[i].value.orderIdx == i
    {
      var cut := new Slot<T>[newLen](i => None);
      for i := 0 to newLen
        invariant pack.ordered == old(pack.ordered) && pack.ordered[..] == old(pack.ordered[..])
        invariant cut[..i] == pack.ordered[..i]
      {
        cut[i] := pack.ordered[i];
      }
      pack.ordered := cut;
    }

    /** Loads the rows, deletes what is to go and makes room for what is to come. */
    method Prepare(req: BulkReq<T>) returns (pack: Pack<T>, newLen: int, ok: bool)
      requires s.Valid()
      modifies s`rows
      ensures fresh(pack) && fresh(pack.ordered)
      ensures ok <==> DeletesKnown(old(s.rows), req.delete)
      ensures ok ==> s.rows == pack.byID == Survivors(old(s.rows), req.delete)
      ensures ok ==> Placed(pack.ordered[..], pack.byID, Indices(pack.byID))
      ensures ok ==> pack.ordered.Length == GrownLength(|old(s.rows)|, req)
      ensures newLen == |old(s.rows)| + |req.create| - |req.delete|
    {
      var list := s.GetAll();
      pack := new Pack<T>(list, s.rows);
      newLen := |list| + |req.create| - |req.delete|;
      ok := DeleteItems(pack, req.delete);
      if ok {
        if newLen > pack.ordered.Length {
          Grow(pack, newLen);
        }
      }
    }

    /** Reorders and stores the updated items. */
    method ReorderAndUpdate(pack: Pack<T>, updates: seq<UpdateReq<T>>) returns (ok: bool)
      requires DistinctIds(updates) && s.rows == pack.byID
      requires Placed(pack.ordered[..], pack.byID, Indices(pack.byID))
      modifies pack`byID, pack.ordered, s`rows
      ensures ok <==>
        && UpdatesKnown(old(s.rows), updates) && UpdatesValid(old(s.rows), updates)
        && !Collide(Indices(AfterUpdates(old(s.rows), updates)))
        && WithinBounds(AfterUpdates(old(s.rows), updates), pack.ordered.Length)
      ensures ok ==> s.rows == pack.byID == AfterUpdates(old(s.rows), updates)
      ensures ok ==> Placed(pack.ordered[..], pack.byID, Indices(pack.byID))
    {
      MovedToIsUpdated(pack.byID, updates);
      ok := ReorderUpdated(pack, updates);
      if ok {
        TargetsInBounds(pack.byID, updates, pack.ordered.Length);
        ok := UpdateItems(pack, updates);
      }
    }

    /** Packs the rows to the front of the array and cuts it to their number. */
    method PackAndCut(pack: Pack<T>, newLen: int)
      requires Placed(pack.ordered[..], s.rows, Indices(s.rows)) && newLen == |s.rows|
      modifies pack`ordered, pack.ordered, s`rows
      ensures s.rows == Compacted(old(s.rows)) && |s.rows| == newLen == pack.ordered.Length
    {
      CompactedSize(s.rows);
      ghost var _ := ClapPack(pack);
      Cut(pack, newLen);
    }

    /** Creates, packs and cuts. */
    method CreateAndPack(pack: Pack<T>, req: BulkReq<T>, newLen: int, ghost rows: Rows<T>, ghost nextId: nat)
      returns (ok: bool)
      requires Keyed(rows, nextId) && DeletesKnown(rows, req.delete) && DistinctPlaces(req.create)
      requires s.rows == pack.byID == Middle(rows, req) && s.nextId == nextId
      requires Placed(pack.ordered[..], pack.byID, Indices(pack.byID))
      requires newLen == |rows| + |req.create| - |req.delete|
      modifies pack, pack.ordered, s
      ensures ok <==> CreatesValid(req.create) && PlacesFree(Middle(rows, req), old(pack.ordered).Length, req.create)
      ensures ok ==> s.rows == Compacted(Staged(rows, nextId, req)) && |s.rows| == newLen == pack.ordered.Length
      ensures ok ==> Keyed(s.rows, s.nextId) && s.nextId == nextId + |req.create|
    {
      MiddleKeys(rows, nextId, req);
      ok := CreateItems(pack, req.create);
      if !ok {
        return;
      }
      StagedSize(rows, nextId, req);
      PackAndCut(pack, newLen);
    }

    /** All stages in order; a failure leaves the store half done, for the caller to roll back. */
    method RunStages(req: BulkReq<T>) returns (ok: bool)
      requires s.Valid() && NamesOnce(req)
      modifies s
      ensures ok <==> Accepts(old(s.rows), old(s.nextId), req)
      ensures ok ==> s.rows == Compacted(Staged(old(s.rows), old(s.nextId), req))
      ensures ok ==> Keyed(s.rows, s.nextId) && s.nextId == old(s.nextId) + |req.create|
    {
      ghost var rows, nextId := s.rows, s.nextId;
      var pack, newLen;
      pack, newLen, ok := Prepare(req);
      if !ok {
        return;
      }
      StagesDecide(rows, nextId, req, pack.ordered.Length);
      ok := ReorderAndUpdate(pack, req.update);
      if !ok {
        return;
      }
      ok := CreateAndPack(pack, req, newLen, rows, nextId);
    }

    /** A bulk update: every item ends at the rank of its target index, or nothing changes at all. */
    method BulkUpdate(req: BulkReq<T>) returns (result: Option<seq<Item<T>>>)
      requires s.Valid() && NamesOnce(req)
      modifies s
      ensures s.Valid() && s.Current() == Next(old(s.Current()), req)
      ensures result.Some? <==> Accepts(old(s.rows), old(s.nextId), req)
      ensures result.Some? ==> ListedInOrder(s.rows, result.value)
      ensures result.None? ==> s.rows == old(s.rows) && s.nextId == old(s.nextId)
    {
      var saved, savedId := s.rows, s.nextId;
      var ok := RunStages(req);
      if !ok {
        s.rows, s.nextId := saved, savedId;
        return None;
      }
      CompactedSortsByTarget(Staged(saved, savedId, req));
      var list := s.GetAll();
      result := Some(list);
    }
  }
}
