/** What a bulk update of ordered items means: every item's target index, then its rank among them. */
module Items {
  import opened Prelude

  /** Row identifiers; the database's random identifiers become a counter. */
  type ID = nat

  datatype Item<T> = Item(id: ID, orderIdx: int, body: T)
  type Rows<T> = map<ID, Item<T>>

  /** What an update makes of a row's body, and whether the checks made while it is stored pass for that body. */
  datatype UpdateReq<!T> = UpdateReq(id: ID, orderIdx: int, edit: T -> T, valid: T -> bool)
  datatype CreateReq<T> = CreateReq(orderIdx: int, body: T, valid: bool)
  datatype BulkReq<!T> = BulkReq(create: seq<CreateReq<T>>, update: seq<UpdateReq<T>>, delete: seq<ID>)

  ghost predicate Keyed<T>(rows: Rows<T>, nextId: nat) {
    forall id | id in rows :: rows[id].id == id && id < nextId
  }

  ghost predicate Injective<T>(rows: Rows<T>) {
    forall a, b | a in rows && b in rows && rows[a].orderIdx == rows[b].orderIdx :: a == b
  }

  /** The order indices are exactly 0, 1, ..., |rows| - 1. */
  ghost predicate Dense<T>(rows: Rows<T>) {
    Injective(rows) && forall id | id in rows :: 0 <= rows[id].orderIdx < |rows|
  }

  // ---------------------------------------------------------------- the stages of one bulk update

  /** What a row becomes after the updates that name it. */
  ghost function Updated<T>(item: Item<T>, updates: seq<UpdateReq<T>>): Item<T> {
    if updates == [] then item
    else
      var u := updates[|updates| - 1];
      var before := Updated(item, updates[..|updates| - 1]);
      if u.id == item.id then Item(item.id, u.orderIdx, u.edit(before.body)) else before
  }

  ghost function AfterUpdates<T>(rows: Rows<T>, updates: seq<UpdateReq<T>>): Rows<T> {
    map id | id in rows :: Updated(rows[id], updates)
  }

  ghost function AfterCreates<T>(rows: Rows<T>, nextId: nat, creates: seq<CreateReq<T>>): Rows<T> {
    if creates == [] then rows
    else
      var k := |creates| - 1;
      AfterCreates(rows, nextId, creates[..k])[nextId + k := Item(nextId + k, creates[k].orderIdx, creates[k].body)]
  }

  ghost function Survivors<T>(rows: Rows<T>, deleted: seq<ID>): Rows<T> {
    rows - Elements(deleted)
  }

  /** Survivors and created items, each at its target index. */
  ghost function Staged<T>(rows: Rows<T>, nextId: nat, req: BulkReq<T>): Rows<T> {
    AfterCreates(AfterUpdates(Survivors(rows, req.delete), req.update), nextId, req.create)
  }

  ghost function IdsBelow<T>(rows: Rows<T>, k: int): set<ID> {
    set id | id in rows && rows[id].orderIdx < k
  }

  /** How many items lie below index `k`. */
  ghost function Below<T>(rows: Rows<T>, k: int): nat {
    |IdsBelow(rows, k)|
  }

  /** Every item renumbered by its rank. */
  ghost function Compacted<T>(rows: Rows<T>): Rows<T> {
    map id | id in rows :: rows[id].(orderIdx := Below(rows, rows[id].orderIdx))
  }

  // ---------------------------------------------------------------- when a request is accepted

  ghost predicate DeletesKnown<T>(rows: Rows<T>, deleted: seq<ID>) {
    && (forall i | 0 <= i < |deleted| :: deleted[i] in rows)
    && NoRepeats(deleted)
  }

  ghost predicate UpdatesKnown<T>(rows: Rows<T>, updates: seq<UpdateReq<T>>) {
    forall i | 0 <= i < |updates| :: updates[i].id in rows
  }

  /** The checks of update `i` pass, made on the row as the earlier updates left it. */
  ghost predicate UpdateValid<T>(rows: Rows<T>, updates: seq<UpdateReq<T>>, i: nat)
    requires i < |updates| && updates[i].id in rows
  {
    updates[i].valid(Updated(rows[updates[i].id], updates[..i]).body)
  }

  ghost predicate UpdatesValid<T>(rows: Rows<T>, updates: seq<UpdateReq<T>>)
    requires UpdatesKnown(rows, updates)
  {
    forall i | 0 <= i < |updates| :: UpdateValid(rows, updates, i)
  }

  ghost predicate CreatesValid<T>(creates: seq<CreateReq<T>>) {
    forall i | 0 <= i < |creates| :: creates[i].valid
  }

  /** The length of the index array: the old one, grown when more is created than deleted. */
  function GrownLength<T>(count: nat, req: BulkReq<T>): nat {
    var newLen := count + |req.create| - |req.delete|;
    if newLen > count then newLen else count
  }

  ghost predicate WithinBounds<T>(rows: Rows<T>, n: int) {
    forall id | id in rows :: 0 <= rows[id].orderIdx < n
  }

  /** Known items, passing checks, indices inside the array, and no two items with one target. */
  ghost predicate Accepts<T>(rows: Rows<T>, nextId: nat, req: BulkReq<T>) {
    && DeletesKnown(rows, req.delete)
    && UpdatesKnown(Survivors(rows, req.delete), req.update)
    && UpdatesValid(Survivors(rows, req.delete), req.update)
    && CreatesValid(req.create)
    && WithinBounds(Staged(rows, nextId, req), GrownLength(|rows|, req))
    && Injective(Staged(rows, nextId, req))
  }

  /** The stored rows after a request; a rejected one is rolled back. */
  ghost function Bulk<T>(rows: Rows<T>, nextId: nat, req: BulkReq<T>): Rows<T> {
    if Accepts(rows, nextId, req) then Compacted(Staged(rows, nextId, req)) else rows
  }

  /** What is stored: the rows, and the identifier the next new row gets. */
  datatype State<T> = State(rows: Rows<T>, nextId: nat)

  ghost predicate Sound<T>(st: State<T>) {
    Keyed(st.rows, st.nextId) && Dense(st.rows)
  }

  /** What is stored after a request; the created identifiers of an accepted one are never used again. */
  ghost function Next<T>(st: State<T>, req: BulkReq<T>): State<T> {
    State(Bulk(st.rows, st.nextId, req),
          if Accepts(st.rows, st.nextId, req) then st.nextId + |req.create| else st.nextId)
  }

  /** The code never checks that a request names an item, or a place to create at, only once. */
  ghost predicate NamesOnce<T>(req: BulkReq<T>) {
    DistinctIds(req.update) && DistinctPlaces(req.create)
  }

  ghost predicate DistinctIds<T>(updates: seq<UpdateReq<T>>) {
    forall i, j | 0 <= i < j < |updates| :: updates[i].id != updates[j].id
  }

  ghost predicate DistinctPlaces<T>(creates: seq<CreateReq<T>>) {
    forall i, j | 0 <= i < j < |creates| :: creates[i].orderIdx != creates[j].orderIdx
  }

  // ---------------------------------------------------------------- ranks

  lemma BelowIsMonotone<T>(rows: Rows<T>, a: ID, b: ID)
    requires a in rows && b in rows && rows[a].orderIdx < rows[b].orderIdx
    ensures Below(rows, rows[a].orderIdx) < Below(rows, rows[b].orderIdx) < |rows|
  {
    assert a in IdsBelow(rows, rows[b].orderIdx) && a !in IdsBelow(rows, rows[a].orderIdx);
    SubsetSize(IdsBelow(rows, rows[a].orderIdx), IdsBelow(rows, rows[b].orderIdx));
    BelowIsBounded(rows, b);
  }

  lemma BelowIsBounded<T>(rows: Rows<T>, a: ID)
    requires a in rows
    ensures Below(rows, rows[a].orderIdx) < |rows|
  {
    assert a !in IdsBelow(rows, rows[a].orderIdx);
    SubsetSize(IdsBelow(rows, rows[a].orderIdx), rows.Keys);
    assert |rows.Keys| == |rows|;
  }

  /** Ranks are dense and order the items exactly as their targets do. */
  lemma CompactedSortsByTarget<T>(rows: Rows<T>)
    requires Injective(rows)
    ensures Dense(Compacted(rows)) && Compacted(rows).Keys == rows.Keys
    ensures forall a, b | a in rows && b in rows ::
              Compacted(rows)[a].orderIdx < Compacted(rows)[b].orderIdx <==> rows[a].orderIdx < rows[b].orderIdx
  {
    var ranked := Compacted(rows);
    assert ranked.Keys == rows.Keys;
    assert |ranked| == |rows| by { assert |ranked.Keys| == |rows.Keys|; }
    forall a, b | a in rows && b in rows
      ensures ranked[a].orderIdx < ranked[b].orderIdx <==> rows[a].orderIdx < rows[b].orderIdx
    {
      if rows[a].orderIdx < rows[b].orderIdx {
        BelowIsMonotone(rows, a, b);
      } else if rows[b].orderIdx < rows[a].orderIdx {
        BelowIsMonotone(rows, b, a);
      }
    }
    forall a | a in rows ensures ranked[a].orderIdx < |ranked| {
      BelowIsBounded(rows, a);
    }
  }

  /** Where the indices are dense already, every index is its own rank. */
  lemma {:induction false} DenseRank<T>(rows: Rows<T>, k: nat)
    requires Dense(rows) && k <= |rows|
    ensures Below(rows, k) == k
  {
    var lower := IdsBelow(rows, k);
    var upper := rows.Keys - lower;
    AtMost(rows, lower, 0, k);
    AtMost(rows, upper, k, |rows|);
    assert |rows.Keys| == |lower| + |upper|;
  }

  /** Items with distinct indices in `lo..hi` number at most `hi - lo`. */
  lemma {:induction false} AtMost<T>(rows: Rows<T>, ids: set<ID>, lo: int, hi: int)
    requires Injective(rows) && lo <= hi && ids <= rows.Keys
    requires forall id | id in ids :: lo <= rows[id].orderIdx < hi
    ensures |ids| <= hi - lo
    decreases hi - lo
  {
    if ids != {} {
      if id :| id in ids && rows[id].orderIdx == hi - 1 {
        AtMost(rows, ids - {id}, lo, hi - 1);
      } else {
        var id :| id in ids;
        AtMost(rows, ids, lo, hi - 1);
      }
    }
  }

  lemma CompactedIsStable<T>(rows: Rows<T>)
    requires Dense(rows)
    ensures Compacted(rows) == rows
  {
    forall id | id in rows ensures Compacted(rows)[id] == rows[id] {
      DenseRank(rows, rows[id].orderIdx);
    }
  }
}
